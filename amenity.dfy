/**
 * The amenity sync of `etc.py`: temple names are normalised, the amenity
 * labels of a CSV are summed per normalised name, the names are matched
 * against the stored records, and one `CASE` update sets the `etc` bits of
 * the matched filter rows.
 */
module Amenity {
  import opened Wrappers
  import opened Text
  import opened Db

  // ----------------------------------------------------------- normalisation

  const FullOpen: char := '\U{ff08}'
  const FullClose: char := '\U{ff09}'
  const Nbsp: char := '\U{a0}'

  /**
   * `normalize`; `None` is a value that is not a string. Stripped, every
   * whitespace character removed, full-width parentheses made ASCII, and
   * no-break spaces removed.
   */
  function Normalize(name: Option<string>): string {
    match name
    case None => ""
    case Some(s) => RemoveChar(ReplaceChar(ReplaceChar(RemoveSpaces(Strip(s)), FullOpen, '('), FullClose, ')'), Nbsp)
  }

  /** One character of a normalised name. */
  function Paren(c: char): char {
    if c == FullOpen then '(' else if c == FullClose then ')' else c
  }

  /** The reference for `normalize`: the characters that are not whitespace, in order, with full-width parentheses made ASCII. */
  function Canon(s: string): string {
    if s == [] then [] else (if IsSpace(s[0]) then [] else [Paren(s[0])]) + Canon(s[1..])
  }

  /** A normalised name, as `normalize` promises: no whitespace and no full-width parenthesis. */
  predicate IsNormal(s: string) {
    forall i :: 0 <= i < |s| ==> !IsSpace(s[i]) && s[i] != FullOpen && s[i] != FullClose
  }

  lemma {:induction false} CanonIsNormal(s: string)
    ensures IsNormal(Canon(s))
  {
    if s != [] {
      CanonIsNormal(s[1..]);
      var h := if IsSpace(s[0]) then [] else [Paren(s[0])];
      var r := Canon(s);
      forall i | 0 <= i < |r| ensures !IsSpace(r[i]) && r[i] != FullOpen && r[i] != FullClose {
        if i >= |h| { assert r[i] == Canon(s[1..])[i - |h|]; }
      }
    }
  }

  /** A normalised name is its own reference form. */
  lemma {:induction false} CanonOfNormal(s: string)
    requires IsNormal(s)
    ensures Canon(s) == s
  {
    if s != [] {
      assert IsNormal(s[1..]) by {
        forall i | 0 <= i < |s[1..]| ensures !IsSpace(s[1..][i]) && s[1..][i] != FullOpen && s[1..][i] != FullClose {
          assert s[1..][i] == s[i + 1];
        }
      }
      CanonOfNormal(s[1..]);
      assert !IsSpace(s[0]) && s[0] != FullOpen && s[0] != FullClose;
      assert s == [s[0]] + s[1..];
    }
  }

  /** The two `replace` calls on parentheses map every character through `Paren`. */
  function ParenAll(s: string): (r: string)
    ensures |r| == |s| && forall i :: 0 <= i < |s| ==> r[i] == Paren(s[i])
  {
    seq(|s|, i requires 0 <= i < |s| => Paren(s[i]))
  }

  lemma ReplaceParens(s: string)
    ensures ReplaceChar(ReplaceChar(s, FullOpen, '('), FullClose, ')') == ParenAll(s)
  {}

  lemma ParenAllCons(s: string)
    requires s != []
    ensures ParenAll(s) == [Paren(s[0])] + ParenAll(s[1..])
  {}

  /** The reference form is the characters that are not whitespace, each through `Paren`. */
  lemma {:induction false} CanonOfSpaceless(s: string)
    ensures Canon(s) == ParenAll(RemoveSpaces(s))
  {
    if s != [] {
      CanonOfSpaceless(s[1..]);
      var x := RemoveSpaces(s[1..]);
      if IsSpace(s[0]) {
        assert RemoveSpaces(s) == x;
      } else {
        assert RemoveSpaces(s) == [s[0]] + x;
        ParenAllCons([s[0]] + x);
        assert ([s[0]] + x)[1..] == x;
      }
    }
  }

  lemma RemoveSpacesCons(a: string, b: string)
    requires a != []
    ensures RemoveSpaces(a + b) == (if IsSpace(a[0]) then [] else [a[0]]) + RemoveSpaces(a[1..] + b)
  {
    assert (a + b)[0] == a[0] && (a + b)[1..] == a[1..] + b;
  }

  /** Removing whitespace distributes over concatenation. */
  lemma {:induction false} RemoveSpacesConcat(a: string, b: string)
    ensures RemoveSpaces(a + b) == RemoveSpaces(a) + RemoveSpaces(b)
    decreases |a|
  {
    if a == [] {
      assert a + b == b;
    } else {
      RemoveSpacesCons(a, b);
      RemoveSpacesConcat(a[1..], b);
      Regroup(RemoveSpaces(a + b), RemoveSpaces(a), if IsSpace(a[0]) then [] else [a[0]], RemoveSpaces(a[1..]), RemoveSpaces(b));
    }
  }

  lemma {:induction false} RemoveSpacesOfSpaces(a: string)
    requires AllSpace(a)
    ensures RemoveSpaces(a) == []
  {
    if a != [] {
      assert AllSpace(a[1..]) by {
        forall i | 0 <= i < |a[1..]| ensures IsSpace(a[1..][i]) { assert a[1..][i] == a[i + 1]; }
      }
      RemoveSpacesOfSpaces(a[1..]);
    }
  }

  /** Stripping before removing all whitespace changes nothing. */
  lemma StripThenRemove(s: string)
    ensures RemoveSpaces(Strip(s)) == RemoveSpaces(s)
  {
    var p, q := StripParts(s);
    var m := Strip(s);
    RemoveSpacesOfSpaces(p);
    RemoveSpacesOfSpaces(q);
    RemoveSpacesConcat(p, m + q);
    RemoveSpacesConcat(m, q);
  }

  /** What `strip` cuts off: whitespace before and after. */
  lemma StripParts(s: string) returns (p: string, q: string)
    ensures s == p + (Strip(s) + q) && AllSpace(p) && AllSpace(q)
  {
    var l := LeadingSpaces(s);
    var t := s[l..];
    var e := TrailingStart(t);
    p, q := s[..l], t[e..];
    SliceParts(s, l, e);
    LeadingAllSpace(s);
    TrailingAllSpace(t);
  }

  lemma SliceParts<T>(s: seq<T>, l: nat, e: nat)
    requires l <= |s| && e <= |s| - l
    ensures s == s[..l] + (s[l..][..e] + s[l..][e..])
  {
    assert s[l..] == s[l..][..e] + s[l..][e..];
  }

  lemma LeadingAllSpace(s: string)
    ensures AllSpace(s[..LeadingSpaces(s)])
  {
    var p := s[..LeadingSpaces(s)];
    forall i | 0 <= i < |p| ensures IsSpace(p[i]) { assert p[i] == s[i]; }
  }

  lemma TrailingAllSpace(t: string)
    ensures AllSpace(t[TrailingStart(t)..])
  {
    var e := TrailingStart(t);
    var q := t[e..];
    forall i | 0 <= i < |q| ensures IsSpace(q[i]) { assert q[i] == t[e + i]; }
  }

  /** `normalize` gives the reference form of a string and `""` for anything else. */
  lemma NormalizeIsCanon(name: Option<string>)
    ensures Normalize(name) == if name.None? then "" else Canon(name.value)
  {
    if name.Some? {
      var s := name.value;
      StripThenRemove(s);
      ReplaceParens(RemoveSpaces(s));
      CanonOfSpaceless(s);
      var x := ParenAll(RemoveSpaces(s));
      assert Nbsp !in x by {
        forall i | 0 <= i < |x| ensures x[i] != Nbsp { assert !IsSpace(RemoveSpaces(s)[i]); }
      }
    }
  }

  /** A normalised name has no whitespace, no-break space included, and no full-width parenthesis. */
  lemma NormalizeSpec(name: Option<string>)
    ensures IsNormal(Normalize(name))
    ensures Nbsp !in Normalize(name)
  {
    NormalizeIsCanon(name);
    if name.Some? { CanonIsNormal(name.value); }
  }

  /** `normalize` is idempotent. */
  lemma NormalizeIdempotent(name: Option<string>)
    ensures Normalize(Some(Normalize(name))) == Normalize(name)
  {
    NormalizeSpec(name);
    NormalizeIsCanon(Some(Normalize(name)));
    CanonOfNormal(Normalize(name));
  }

  // -------------------------------------------------------------- name index

  /** The stored `(id, temple_name)` rows of `ids` whose name is not `NULL`, in order. */
  function NamedIds(t: Tables, ids: seq<nat>): (r: seq<(nat, string)>)
    ensures forall id, n :: (id, n) in r <==> id in ids && id in t.records && t.records[id].templeName == Some(n)
  {
    if ids == [] then []
    else
      var init, id := ids[..|ids| - 1], ids[|ids| - 1];
      assert ids == init + [id];
      NamedIds(t, init) + if id in t.records && t.records[id].templeName.Some? then [(id, t.records[id].templeName.value)] else []
  }

  /** The rows of `SELECT id, temple_name FROM templestay WHERE temple_name IS NOT NULL`, as a scan in id order. */
  function NamedRows(t: Tables): seq<(nat, string)> {
    NamedIds(t, RecordIds(t))
  }

  /** The mapping `load_temple_name_to_ids` builds: `mapping.setdefault(key, []).append(id)` for each row. */
  function NameIndex(rows: seq<(nat, string)>): map<string, seq<nat>> {
    if rows == [] then map[]
    else
      var m := NameIndex(rows[..|rows| - 1]);
      var (id, name) := rows[|rows| - 1];
      var key := Normalize(Some(name));
      m[key := (if key in m then m[key] else []) + [id]]
  }

  /** Each row with its name normalised. */
  function KeyRows(rows: seq<(nat, string)>): (r: seq<(nat, string)>)
    ensures |r| == |rows| && forall k :: 0 <= k < |rows| ==> r[k] == (rows[k].0, Normalize(Some(rows[k].1)))
  {
    seq(|rows|, k requires 0 <= k < |rows| => (rows[k].0, Normalize(Some(rows[k].1))))
  }

  lemma KeyRowsInit(rows: seq<(nat, string)>)
    requires rows != []
    ensures KeyRows(rows[..|rows| - 1]) == KeyRows(rows)[..|rows| - 1]
  {}

  /** The reference for one entry: the ids of the rows with key `key`, in row order. */
  function IdsWithKey(keyed: seq<(nat, string)>, key: string): (r: seq<nat>)
    ensures forall x :: x in r <==> (x, key) in keyed
  {
    if keyed == [] then []
    else
      var init, last := keyed[..|keyed| - 1], keyed[|keyed| - 1];
      assert keyed == init + [last];
      IdsWithKey(init, key) + if last.1 == key then [last.0] else []
  }

  /**
   * The index has an entry exactly for the normalised names of the rows, and
   * the entry of a name holds the ids of its rows in row order.
   */
  lemma {:induction false} NameIndexSpec(rows: seq<(nat, string)>)
    ensures forall key :: key in NameIndex(rows) <==> IdsWithKey(KeyRows(rows), key) != []
    ensures forall key :: key in NameIndex(rows) ==> NameIndex(rows)[key] == IdsWithKey(KeyRows(rows), key)
  {
    if rows != [] {
      var init := rows[..|rows| - 1];
      NameIndexSpec(init);
      KeyRowsInit(rows);
    }
  }

  lemma RowsSnoc<T>(rows: seq<T>, i: nat)
    requires i < |rows|
    ensures rows[..i + 1][..i] == rows[..i] && rows[..i + 1][i] == rows[i]
  {}

  /** `load_temple_name_to_ids` over the query's rows. */
  method LoadTempleNameToIds(rows: seq<(nat, string)>) returns (mapping: map<string, seq<nat>>)
    ensures mapping == NameIndex(rows)
  {
    mapping := map[];
    var i := 0;
    while i < |rows|
      invariant 0 <= i <= |rows|
      invariant mapping == NameIndex(rows[..i])
    {
      RowsSnoc(rows, i);
      var (id, name) := rows[i];
      var key := Normalize(Some(name));
      var ids := if key in mapping then mapping[key] else [];
      mapping := mapping[key := ids + [id]];
      i := i + 1;
    }
    assert rows[..i] == rows;
  }

  lemma IdsWithKeyBelow(keyed: seq<(nat, string)>, key: string, b: nat)
    requires forall k :: 0 <= k < |keyed| ==> keyed[k].0 < b
    ensures forall i :: 0 <= i < |IdsWithKey(keyed, key)| ==> IdsWithKey(keyed, key)[i] < b
  {
    var r := IdsWithKey(keyed, key);
    forall i | 0 <= i < |r| ensures r[i] < b {
      assert r[i] in r;
      var k :| 0 <= k < |keyed| && keyed[k] == (r[i], key);
    }
  }

  /** With ascending row ids, each entry lists its ids ascending, so each id once. */
  lemma {:induction false} IdsWithKeyAscending(keyed: seq<(nat, string)>, key: string)
    requires forall i, j :: 0 <= i < j < |keyed| ==> keyed[i].0 < keyed[j].0
    ensures Ascending(IdsWithKey(keyed, key))
  {
    if keyed != [] {
      var init, last := keyed[..|keyed| - 1], keyed[|keyed| - 1];
      assert forall k :: 0 <= k < |init| ==> init[k] == keyed[k];
      IdsWithKeyAscending(init, key);
      IdsWithKeyBelow(init, key, last.0);
      if last.1 == key {
        AscendingSnoc(IdsWithKey(init, key), last.0);
      }
    }
  }

  lemma AscendingSnoc(r: seq<nat>, x: nat)
    requires Ascending(r) && forall i :: 0 <= i < |r| ==> r[i] < x
    ensures Ascending(r + [x])
  {}

  // ---------------------------------------------------------- amenity groups

  /** A row of the amenity CSV: its `temple_name` and `etc` cells, `None` when empty. */
  datatype CsvRow = CsvRow(templeName: Option<string>, etc: Option<string>)

  /** `ETC_MAP.get(label, 0)`. */
  function LabelBits(key: string): nat {
    if key == "주차 가능" then 1
    else if key == "1인실" then 2
    else if key == "단체 가능" then 4
    else 0
  }

  /** The sum over the tokens of one `etc` cell: blank tokens skipped, the others looked up after `strip`. */
  function TokenSum(tokens: seq<string>): nat {
    if tokens == [] then 0
    else
      var b := Strip(tokens[|tokens| - 1]);
      TokenSum(tokens[..|tokens| - 1]) + if b != [] then LabelBits(b) else 0
  }

  /** The amenity bits of one `etc` cell: the sum over its comma-separated tokens. */
  function CellBits(cell: string): nat {
    TokenSum(Split(cell, ','))
  }

  /** The group key of a CSV row: `fillna('')`, then `normalize`. */
  function GroupKey(row: CsvRow): string {
    Normalize(Some(row.templeName.GetOr("")))
  }

  /** The key of each CSV row, in order. */
  function CsvKeys(csv: seq<CsvRow>): (r: seq<string>)
    ensures |r| == |csv| && forall k :: 0 <= k < |csv| ==> r[k] == GroupKey(csv[k])
  {
    seq(|csv|, k requires 0 <= k < |csv| => GroupKey(csv[k]))
  }

  /** `etc_bit` of the group `key`: the sum of the cell bits of its rows. */
  function EtcBit(csv: seq<CsvRow>, key: string): nat {
    if csv == [] then 0
    else
      var last := csv[|csv| - 1];
      EtcBit(csv[..|csv| - 1], key) + if GroupKey(last) == key then CellBits(last.etc.GetOr("")) else 0
  }

  lemma TokenSumConcat(a: seq<string>, b: seq<string>)
    ensures TokenSum(a + b) == TokenSum(a) + TokenSum(b)
    decreases |b|
  {
    if b == [] {
      assert a + b == a;
    } else {
      var init := b[..|b| - 1];
      assert (a + b)[..|a + b| - 1] == a + init;
      assert (a + b)[|a + b| - 1] == b[|b| - 1];
      TokenSumConcat(a, init);
    }
  }

  /** A cell made of comma-free tokens has the sum of their bits. */
  lemma CellOfTokens(tokens: seq<string>)
    requires |tokens| >= 1 && forall k :: 0 <= k < |tokens| ==> ',' !in tokens[k]
    ensures CellBits(Join(tokens, ",")) == TokenSum(tokens)
  {
    SplitJoin(tokens, ',');
  }

  /** The amenity bits are a sum over the cell, not an OR: the cells of a joined cell add up. */
  lemma {:induction false} CellBitsAdditive(a: string, b: string)
    ensures CellBits(a + [','] + b) == CellBits(a) + CellBits(b)
    decreases |a|
  {
    SplitComma(a, b);
    TokenSumConcat(Split(a, ','), Split(b, ','));
  }

  /** Splitting at a comma between two strings splits each of them. */
  lemma {:induction false} SplitComma(a: string, b: string)
    ensures Split(a + [','] + b, ',') == Split(a, ',') + Split(b, ',')
    decreases |a|
  {
    if ',' !in a {
      CommaAfter(a, b);
    } else {
      var i := IndexOf(a, ',');
      SplitComma(a[i + 1..], b);
      CommaWithin(a, b, i);
    }
  }

  lemma CommaAfter(a: string, b: string)
    requires ',' !in a
    ensures Split(a + [','] + b, ',') == [a] + Split(b, ',')
  {
    var s := a + [','] + b;
    assert s[..|a|] == a && s[|a|] == ',' && s[|a| + 1..] == b;
    SplitAt(s, ',', |a|);
  }

  lemma CommaWithin(a: string, b: string, i: nat)
    requires i < |a| && a[i] == ',' && ',' !in a[..i]
    requires Split(a[i + 1..] + [','] + b, ',') == Split(a[i + 1..], ',') + Split(b, ',')
    ensures Split(a + [','] + b, ',') == Split(a, ',') + Split(b, ',')
  {
    var s := a + [','] + b;
    PartsAround(a, ',', b, i);
    SplitAt(s, ',', i);
    SplitAt(a, ',', i);
    Reassociate([a[..i]], Split(a[i + 1..], ','), Split(b, ','));
  }

  lemma PartsAround<T>(a: seq<T>, x: T, b: seq<T>, i: nat)
    requires i < |a|
    ensures var s := a + [x] + b; s[..i] == a[..i] && s[i] == a[i] && s[i + 1..] == a[i + 1..] + [x] + b
  {}

  lemma Reassociate<T>(p: seq<T>, q: seq<T>, r: seq<T>)
    ensures p + (q + r) == (p + q) + r
  {}

  /** The split of `s` when its first separator is at `i`. */
  lemma SplitAt(s: string, sep: char, i: nat)
    requires i < |s| && s[i] == sep && sep !in s[..i]
    ensures Split(s, sep) == [s[..i]] + Split(s[i + 1..], sep)
  {
    var j := IndexOf(s, sep);
    assert forall k :: 0 <= k < i ==> s[..i][k] == s[k];
    assert forall k :: 0 <= k < j ==> s[..j][k] == s[k];
  }

  /** A cell holding one label, already stripped, has that label's bits. */
  lemma LabelCell(key: string)
    requires key != [] && ',' !in key && Stripped(key)
    ensures CellBits(key) == LabelBits(key)
  {
    CellOfTokens([key]);
    assert [key][..0] == [];
  }

  /** A label counted twice contributes twice. */
  lemma RepeatedLabel()
    ensures CellBits("주차 가능,주차 가능") == 2
  {
    var key := "주차 가능";
    ParkingLabel();
    assert key + [','] + key == "주차 가능,주차 가능";
    CellBitsAdditive(key, key);
    LabelCell(key);
  }

  lemma ParkingLabel()
    ensures var key := "주차 가능"; key != [] && ',' !in key && Stripped(key) && LabelBits(key) == 1
  {}

  /** Python's `a < b` on strings: lexicographic by code point. */
  predicate StrLess(a: string, b: string)
    decreases |a|
  {
    b != [] && (a == [] || a[0] < b[0] || (a[0] == b[0] && StrLess(a[1..], b[1..])))
  }

  lemma {:induction false} StrLessIrreflexive(a: string)
    ensures !StrLess(a, a)
    decreases |a|
  {
    if a != [] { StrLessIrreflexive(a[1..]); }
  }

  lemma {:induction false} StrLessTransitive(a: string, b: string, c: string)
    requires StrLess(a, b) && StrLess(b, c)
    ensures StrLess(a, c)
    decreases |a|
  {
    if a != [] && a[0] == b[0] && b[0] == c[0] {
      StrLessTransitive(a[1..], b[1..], c[1..]);
    }
  }

  lemma {:induction false} StrLessTotal(a: string, b: string)
    requires a != b
    ensures StrLess(a, b) || StrLess(b, a)
    decreases |a|
  {
    if a != [] && b != [] && a[0] == b[0] {
      assert a == [a[0]] + a[1..] && b == [b[0]] + b[1..];
      StrLessTotal(a[1..], b[1..]);
    }
  }

  predicate SortedNames(s: seq<string>) {
    forall i, j :: 0 <= i < j < |s| ==> StrLess(s[i], s[j])
  }

  /** `x` put into the sorted, duplicate-free `s`. */
  function InsertName(s: seq<string>, x: string): (r: seq<string>)
    ensures forall y :: y in r <==> y in s || y == x
    ensures SortedNames(s) ==> SortedNames(r)
  {
    if s == [] then [x]
    else if s[0] == x then s
    else if StrLess(x, s[0]) then
      InsertBefore(s, x);
      [x] + s
    else
      var t := InsertName(s[1..], x);
      assert s == [s[0]] + s[1..];
      StrLessTotal(x, s[0]);
      InsertAfter(s, x, t);
      [s[0]] + t
  }

  lemma InsertBefore(s: seq<string>, x: string)
    requires s != [] && StrLess(x, s[0])
    ensures SortedNames(s) ==> SortedNames([x] + s)
  {
    var r := [x] + s;
    if SortedNames(s) {
      forall i, j | 0 <= i < j < |r| ensures StrLess(r[i], r[j]) {
        if i == 0 && j > 1 { StrLessTransitive(x, s[0], s[j - 1]); }
      }
    }
  }

  lemma InsertAfter(s: seq<string>, x: string, t: seq<string>)
    requires s != [] && StrLess(s[0], x)
    requires forall y :: y in t ==> y in s[1..] || y == x
    requires SortedNames(s[1..]) ==> SortedNames(t)
    ensures SortedNames(s) ==> SortedNames([s[0]] + t)
  {
    var r := [s[0]] + t;
    if SortedNames(s) {
      assert SortedNames(s[1..]) by {
        forall i, j | 0 <= i < j < |s[1..]| ensures StrLess(s[1..][i], s[1..][j]) { assert s[1..][i] == s[i + 1] && s[1..][j] == s[j + 1]; }
      }
      forall j | 0 < j < |r| ensures StrLess(r[0], r[j]) {
        assert r[j] == t[j - 1] && t[j - 1] in t;
        if r[j] != x {
          var k :| 1 <= k < |s| && s[k] == r[j];
        }
      }
      forall i, j | 0 <= i < j < |r| ensures StrLess(r[i], r[j]) {
        if i > 0 { assert r[i] == t[i - 1] && r[j] == t[j - 1]; }
      }
    }
  }

  /** The group keys in `groupby` order: each key once, sorted. */
  function GroupNames(keys: seq<string>): (r: seq<string>)
    ensures forall y :: y in r <==> y in keys
    ensures SortedNames(r)
  {
    if keys == [] then []
    else
      var init := keys[..|keys| - 1];
      assert keys == init + [keys[|keys| - 1]];
      InsertName(GroupNames(init), keys[|keys| - 1])
  }

  /** `calculate_etc_bit`: one `(temple_name, etc_bit)` row per group, in `groupby` order. */
  function Groups(csv: seq<CsvRow>): (r: seq<(string, nat)>)
    ensures |r| == |GroupNames(CsvKeys(csv))|
    ensures forall k :: 0 <= k < |r| ==> r[k] == (GroupNames(CsvKeys(csv))[k], EtcBit(csv, GroupNames(CsvKeys(csv))[k]))
  {
    var names := GroupNames(CsvKeys(csv));
    seq(|names|, k requires 0 <= k < |names| => (names[k], EtcBit(csv, names[k])))
  }

  /** There is one group per distinct key, in ascending order, holding the sum of its rows' bits. */
  lemma GroupsSpec(csv: seq<CsvRow>)
    ensures forall name, b :: (name, b) in Groups(csv) <==> name in CsvKeys(csv) && b == EtcBit(csv, name)
    ensures forall i, j :: 0 <= i < j < |Groups(csv)| ==> StrLess(Groups(csv)[i].0, Groups(csv)[j].0)
  {
    var g, names := Groups(csv), GroupNames(CsvKeys(csv));
    forall name, b | name in CsvKeys(csv) && b == EtcBit(csv, name) ensures (name, b) in g {
      var k :| 0 <= k < |names| && names[k] == name;
      assert g[k] == (name, b);
    }
  }

  // ------------------------------------------------------------------- pairs

  /** The ids of `ids`, each paired with `bit`. */
  function Tagged(ids: seq<nat>, bit: nat): (r: seq<(nat, nat)>)
    ensures |r| == |ids| && forall k :: 0 <= k < |ids| ==> r[k] == (ids[k], bit)
  {
    seq(|ids|, k requires 0 <= k < |ids| => (ids[k], bit))
  }

  /** The `(templestay_id, bit)` pairs of `main`: for each group, its bit with each id of its name. */
  function Pairs(groups: seq<(string, nat)>, index: map<string, seq<nat>>): seq<(nat, nat)> {
    if groups == [] then []
    else
      var (name, bit) := groups[|groups| - 1];
      Pairs(groups[..|groups| - 1], index) + Tagged(if name in index then index[name] else [], bit)
  }

  /** A pair is an id of a group's name with that group's bit; a name without ids gives no pair. */
  lemma {:induction false} PairsSpec(groups: seq<(string, nat)>, index: map<string, seq<nat>>)
    ensures forall tid, bit :: (tid, bit) in Pairs(groups, index) <==>
      exists name :: (name, bit) in groups && name in index && tid in index[name]
  {
    if groups != [] {
      var init, last := groups[..|groups| - 1], groups[|groups| - 1];
      PairsSpec(init, index);
      assert groups == init + [last];
      var t := Tagged(if last.0 in index then index[last.0] else [], last.1);
      assert forall tid, bit :: (tid, bit) in t <==> last.0 in index && tid in index[last.0] && bit == last.1 by {
        forall tid, bit | last.0 in index && tid in index[last.0] && bit == last.1 ensures (tid, bit) in t {
          var k :| 0 <= k < |index[last.0]| && index[last.0][k] == tid;
          assert t[k] == (tid, bit);
        }
      }
    }
  }

  /** The pair loops of `main`. */
  method ExpandPairs(groups: seq<(string, nat)>, index: map<string, seq<nat>>) returns (pairs: seq<(nat, nat)>)
    ensures pairs == Pairs(groups, index)
  {
    pairs := [];
    var g := 0;
    while g < |groups|
      invariant 0 <= g <= |groups|
      invariant pairs == Pairs(groups[..g], index)
    {
      RowsSnoc(groups, g);
      var (name, bit) := groups[g];
      var ids := if name in index then index[name] else [];
      ghost var before := pairs;
      var j := 0;
      while j < |ids|
        invariant 0 <= j <= |ids|
        invariant pairs == before + Tagged(ids[..j], bit)
      {
        assert Tagged(ids[..j + 1], bit) == Tagged(ids[..j], bit) + [(ids[j], bit)];
        pairs := pairs + [(ids[j], bit)];
        j := j + 1;
      }
      assert ids[..j] == ids;
      g := g + 1;
    }
    assert groups[..g] == groups;
  }

  // --------------------------------------------------------------------- SQL

  const WhenHead: string := "WHEN f.templestay_id = "

  /** One `WHEN` line of the `CASE`. */
  function CaseLine(p: (nat, nat)): string {
    WhenHead + ToDecimal(p.0) + " THEN " + ToDecimal(p.1)
  }

  function CaseLines(pairs: seq<(nat, nat)>): (r: seq<string>)
    ensures |r| == |pairs| && forall k :: 0 <= k < |pairs| ==> r[k] == CaseLine(pairs[k])
  {
    seq(|pairs|, k requires 0 <= k < |pairs| => CaseLine(pairs[k]))
  }

  function IdTexts(pairs: seq<(nat, nat)>): (r: seq<string>)
    ensures |r| == |pairs| && forall k :: 0 <= k < |pairs| ==> r[k] == ToDecimal(pairs[k].0)
  {
    seq(|pairs|, k requires 0 <= k < |pairs| => ToDecimal(pairs[k].0))
  }

  /** The statement `generate_case_update_sql` returns. */
  function CaseUpdateSql(pairs: seq<(nat, nat)>): string {
    "\n    UPDATE filter f\n    "
    + "SET f.etc = CASE\n" + Join(CaseLines(pairs), "\n") + "\nELSE f.etc END"
    + "\n    WHERE f.templestay_id IN (" + Join(IdTexts(pairs), ", ") + ");\n    "
  }

  /** `generate_case_update_sql`. */
  method GenerateCaseUpdateSql(pairs: seq<(nat, nat)>) returns (sql: string)
    ensures sql == CaseUpdateSql(pairs)
  {
    var caseLines: seq<string> := [];
    var ids: seq<string> := [];
    var i := 0;
    while i < |pairs|
      invariant 0 <= i <= |pairs|
      invariant caseLines == CaseLines(pairs[..i]) && ids == IdTexts(pairs[..i])
    {
      var (tid, bit) := pairs[i];
      caseLines := caseLines + [WhenHead + ToDecimal(tid) + " THEN " + ToDecimal(bit)];
      ids := ids + [ToDecimal(tid)];
      i := i + 1;
    }
    assert pairs[..i] == pairs;
    var caseSql := "SET f.etc = CASE\n" + Join(caseLines, "\n") + "\nELSE f.etc END";
    var whereIn := Join(ids, ", ");
    sql := "\n    UPDATE filter f\n    " + caseSql + "\n    WHERE f.templestay_id IN (" + whereIn + ");\n    ";
  }

  /** Reads a `WHEN` line back. */
  function ParseCaseLine(line: string): Option<(nat, nat)> {
    if WhenHead <= line then
      var parts := Split(line[|WhenHead|..], ' ');
      if |parts| == 3 && parts[1] == "THEN" then
        match (ParseDecimal(parts[0]), ParseDecimal(parts[2]))
        case (Some(tid), Some(bit)) => Some((tid, bit))
        case _ => None
      else None
    else None
  }

  lemma DigitsHaveNo(d: string, c: char)
    requires AllDigits(d) && !IsDigit(c)
    ensures c !in d
  {}

  /** Every `WHEN` line reads back as its pair. */
  lemma CaseLineRoundTrip(p: (nat, nat))
    ensures ParseCaseLine(CaseLine(p)) == Some(p)
  {
    var d1, d2 := ToDecimal(p.0), ToDecimal(p.1);
    var line := CaseLine(p);
    var parts := [d1, "THEN", d2];
    assert line == WhenHead + (d1 + " THEN " + d2);
    assert line[|WhenHead|..] == d1 + " THEN " + d2;
    assert Join(parts, [' ']) == d1 + " THEN " + d2 by {
      assert parts[1..] == ["THEN", d2] && parts[1..][1..] == [d2];
      assert Join(["THEN", d2], [' ']) == "THEN" + [' '] + d2;
      assert d1 + " THEN " + d2 == d1 + [' '] + ("THEN" + [' '] + d2);
    }
    DigitsHaveNo(d1, ' ');
    DigitsHaveNo(d2, ' ');
    SplitJoin(parts, ' ');
    ParseToDecimal(p.0);
    ParseToDecimal(p.1);
  }

  lemma CaseLineHasNoNewline(p: (nat, nat))
    ensures '\n' !in CaseLine(p)
  {
    DigitsHaveNo(ToDecimal(p.0), '\n');
    DigitsHaveNo(ToDecimal(p.1), '\n');
  }

  /** The lines of the `CASE` block read back as the pairs, one per pair, in order. */
  lemma CaseBlockRoundTrip(pairs: seq<(nat, nat)>)
    requires pairs != []
    ensures var lines := Split(Join(CaseLines(pairs), "\n"), '\n');
      |lines| == |pairs| && forall k :: 0 <= k < |pairs| ==> ParseCaseLine(lines[k]) == Some(pairs[k])
  {
    var ls := CaseLines(pairs);
    forall k | 0 <= k < |ls| ensures '\n' !in ls[k] { CaseLineHasNoNewline(pairs[k]); }
    SplitJoin(ls, '\n');
    forall k | 0 <= k < |pairs| ensures ParseCaseLine(ls[k]) == Some(pairs[k]) { CaseLineRoundTrip(pairs[k]); }
  }

  /** `Join(ts, ", ")` cut at the commas: the first text, then each following one after a space. */
  function Spaced(ts: seq<string>): (r: seq<string>)
    requires ts != []
    ensures |r| == |ts| && r[0] == ts[0] && forall k :: 1 <= k < |ts| ==> r[k] == " " + ts[k]
  {
    seq(|ts|, k requires 0 <= k < |ts| => if k == 0 then ts[0] else " " + ts[k])
  }

  lemma {:induction false} JoinCommaSpace(ts: seq<string>)
    requires ts != []
    ensures Join(ts, ", ") == Join(Spaced(ts), ",")
  {
    if |ts| > 1 {
      var tail := ts[1..];
      JoinCommaSpace(tail);
      var sp, st := Spaced(ts), Spaced(tail);
      assert sp[1..] == [" " + tail[0]] + st[1..];
      JoinSpacedTail(tail, st);
      assert Join(sp[1..], ",") == " " + Join(st, ",");
      assert Join(ts, ", ") == ts[0] + ", " + Join(tail, ", ");
      assert Join(sp, ",") == sp[0] + "," + Join(sp[1..], ",");
    }
  }

  /** Joining the spaced tail is a space followed by the join of the tail. */
  lemma JoinSpacedTail(tail: seq<string>, st: seq<string>)
    requires tail != [] && st == Spaced(tail)
    ensures Join([" " + tail[0]] + st[1..], ",") == " " + Join(st, ",")
  {
    var l := [" " + tail[0]] + st[1..];
    if |tail| > 1 {
      assert l[1..] == st[1..];
      assert Join(st, ",") == st[0] + "," + Join(st[1..], ",");
    }
  }

  /** The `IN` list reads back, piece by piece with `int`, as the ids of the pairs in order. */
  lemma InListRoundTrip(pairs: seq<(nat, nat)>)
    requires pairs != []
    ensures var pieces := Split(Join(IdTexts(pairs), ", "), ',');
      |pieces| == |pairs| && forall k :: 0 <= k < |pairs| ==> ParseInt(pieces[k]) == Some(pairs[k].0)
  {
    var ts := IdTexts(pairs);
    var sp := Spaced(ts);
    JoinCommaSpace(ts);
    forall k | 0 <= k < |sp| ensures ',' !in sp[k] && ParseInt(sp[k]) == Some(pairs[k].0) {
      DigitsHaveNo(ts[k], ',');
      ParseToDecimal(pairs[k].0);
      if k > 0 { SpacedDigits(ts[k]); } else { assert Stripped(ts[k]); }
    }
    SplitJoin(sp, ',');
  }

  lemma SpacedDigits(d: string)
    requires d != [] && AllDigits(d)
    ensures ',' !in " " + d && Strip(" " + d) == d
  {
    var s := " " + d;
    assert s[1..] == d;
    assert LeadingSpaces(d) == 0;
    assert LeadingSpaces(s) == 1;
    assert TrailingStart(d) == |d|;
    assert d[..|d|] == d;
  }

  // ------------------------------------------------------------------ effect

  /** The value the `CASE` gives row `id`: the bit of the first `WHEN` for it, if any. */
  function CaseValue(pairs: seq<(nat, nat)>, id: nat): (r: Option<nat>)
    ensures r.Some? ==> (id, r.value) in pairs
    ensures r.None? ==> forall b :: (id, b) !in pairs
  {
    if pairs == [] then None
    else if pairs[0].0 == id then Some(pairs[0].1)
    else
      assert forall p :: p in pairs && p != pairs[0] ==> p in pairs[1..];
      CaseValue(pairs[1..], id)
  }

  /** The tables after the statement `CaseUpdateSql(pairs)`: rows named in it get their bit, others keep `etc`. */
  function ApplyCase(t: Tables, pairs: seq<(nat, nat)>): Tables {
    t.(filters := map id | id in t.filters ::
      if CaseValue(pairs, id).Some? then t.filters[id].(etc := Some(CaseValue(pairs, id).value)) else t.filters[id])
  }

  /** The pairs `main` collects from the stored names and the CSV. */
  function EtcPairs(t: Tables, csv: seq<CsvRow>): seq<(nat, nat)> {
    Pairs(Groups(csv), NameIndex(NamedRows(t)))
  }

  /** The tables after `main`: no pairs, or a failed statement rolled back, leave them as they were. */
  function EtcEffect(t: Tables, csv: seq<CsvRow>, fails: bool): Tables {
    var pairs := EtcPairs(t, csv);
    if pairs == [] || fails then t else ApplyCase(t, pairs)
  }

  /**
   * `main` after reading the CSV: the statement it issues, if any pairs were
   * found, and the tables it leaves; `fails` is a database error on the
   * `UPDATE`, which rolls back.
   */
  method SyncEtc(db: Store, csv: seq<CsvRow>, fails: bool) returns (sql: Option<string>)
    modifies db
    ensures sql.Some? <==> EtcPairs(old(db.State()), csv) != []
    ensures sql.Some? ==> sql.value == CaseUpdateSql(EtcPairs(old(db.State()), csv))
    ensures db.State() == EtcEffect(old(db.State()), csv, fails)
  {
    var t := db.State();
    var index := LoadTempleNameToIds(NamedRows(t));
    var pairs := ExpandPairs(Groups(csv), index);
    if pairs == [] {
      return None;
    }
    var text := GenerateCaseUpdateSql(pairs);
    sql := Some(text);
    if !fails {
      db.Commit(ApplyCase(t, pairs));
    }
  }

  /** The record `id` has a name whose normalised form is a group of the CSV. */
  predicate Matched(t: Tables, csv: seq<CsvRow>, id: nat) {
    id in t.records && t.records[id].templeName.Some? && Normalize(t.records[id].templeName) in CsvKeys(csv)
  }

  /** A key row of the stored names belongs to a named record and carries its normalised name. */
  lemma KeyRowOf(t: Tables, id: nat, key: string)
    requires (id, key) in KeyRows(NamedRows(t))
    ensures id in t.records && t.records[id].templeName.Some? && key == Normalize(t.records[id].templeName)
  {
    var rows := NamedRows(t);
    var kr := KeyRows(rows);
    var j :| 0 <= j < |kr| && kr[j] == (id, key);
    assert rows[j] in rows;
  }

  /** Every pair for `id` carries the group bit of its record's name. */
  lemma PairOfId(t: Tables, csv: seq<CsvRow>, id: nat, b: nat)
    requires (id, b) in EtcPairs(t, csv)
    ensures Matched(t, csv, id) && b == EtcBit(csv, Normalize(t.records[id].templeName))
  {
    var rows := NamedRows(t);
    var index := NameIndex(rows);
    PairsSpec(Groups(csv), index);
    var name :| (name, b) in Groups(csv) && name in index && id in index[name];
    NameIndexSpec(rows);
    KeyRowOf(t, id, name);
    GroupsSpec(csv);
  }

  /** A matched record gets a pair with its group's bit. */
  lemma PairOfMatched(t: Tables, csv: seq<CsvRow>, id: nat)
    requires TablesValid(t) && Matched(t, csv, id)
    ensures (id, EtcBit(csv, Normalize(t.records[id].templeName))) in EtcPairs(t, csv)
  {
    var name := t.records[id].templeName.value;
    var key := Normalize(Some(name));
    var rows := NamedRows(t);
    assert (id, name) in rows;
    var j :| 0 <= j < |rows| && rows[j] == (id, name);
    assert KeyRows(rows)[j] == (id, key);
    assert id in IdsWithKey(KeyRows(rows), key);
    NameIndexSpec(rows);
    GroupsSpec(csv);
    PairsSpec(Groups(csv), NameIndex(rows));
  }

  /**
   * What the amenity sync does to the tables: a filter row whose record's
   * normalised name is a group of the CSV gets that group's bit in `etc`;
   * every other filter row, and every other table, is left as it was; a failed
   * statement changes nothing.
   */
  lemma EtcEffectSpec(t: Tables, csv: seq<CsvRow>, fails: bool)
    requires TablesValid(t)
    ensures var r := EtcEffect(t, csv, fails);
      && r.records == t.records && r.images == t.images && r.nextId == t.nextId
      && r.filters.Keys == t.filters.Keys
      && (fails ==> r == t)
      && forall id :: id in t.filters && !fails ==>
           r.filters[id] == if Matched(t, csv, id)
             then t.filters[id].(etc := Some(EtcBit(csv, Normalize(t.records[id].templeName))))
             else t.filters[id]
  {
    var pairs := EtcPairs(t, csv);
    var r := EtcEffect(t, csv, fails);
    forall id | id in t.filters && !fails
      ensures r.filters[id] == if Matched(t, csv, id)
        then t.filters[id].(etc := Some(EtcBit(csv, Normalize(t.records[id].templeName))))
        else t.filters[id]
    {
      var v := CaseValue(pairs, id);
      if v.Some? {
        PairOfId(t, csv, id, v.value);
      } else if Matched(t, csv, id) {
        PairOfMatched(t, csv, id);
      }
    }
  }
}
