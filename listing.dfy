/**
 * One row of the program listing (`url_type.py`): the type label lookup, the
 * `fncReserve('<seq>', '<bookmark>')` call in the row's onclick handler, the
 * reserve url built from it, and the OR of the row's category bits.
 */
module Listing {
  import opened Wrappers
  import opened Text
  import opened Bits

  /** The three program types, at bits 0, 1 and 2. */
  const TypeLabels: seq<string> := ["당일형", "휴식형", "체험형"]

  /** `type_to_binary`: the bit of the stripped label, 0 for an unknown one. */
  function TypeToBinary(text: string): nat {
    var t := Strip(text);
    if t == TypeLabels[0] then 1 else if t == TypeLabels[1] then 2 else if t == TypeLabels[2] then 4 else 0
  }

  /** A label maps to the bit of its position, anything else to 0. */
  lemma TypeToBinarySpec(text: string)
    ensures TypeToBinary(text) in {0, 1, 2, 4}
    ensures forall k :: 0 <= k < 3 ==> (TypeToBinary(text) == Pow2(k) <==> Strip(text) == TypeLabels[k])
    ensures TypeToBinary(text) == 0 <==> Strip(text) !in TypeLabels
  {
    assert Pow2(0) == 1 && Pow2(1) == 2 && Pow2(2) == 4;
  }

  /** Surrounding whitespace does not matter. */
  lemma TypeToBinaryStrips(text: string)
    ensures TypeToBinary(Strip(text)) == TypeToBinary(text)
  {}

  const ReservePrefix: string := "https://www.templestay.com/fe/MI000000000000000062/reserve/view.do?pageIndex=1&areaCd=&templestaySeq="
  const BookmarkKey: string := "&templeBookMarkId="
  const ReserveSuffix: string := "&templeIdTmp=&areaSelect=&templeId=&templePrgType=&searchCnt=&searchStaDate=&searchEndDate=&searchKeyword="

  /** `build_reserve_url`. */
  function BuildReserveUrl(programSeq: string, bookmark: string): string {
    ReservePrefix + programSeq + BookmarkKey + bookmark + ReserveSuffix
  }

  /**
   * Reads the two arguments back out of `prefix + a + key + b + suffix`, where
   * `a` is cut at its first `&`; `None` for a string of another shape.
   */
  function ParseBetween(url: string, prefix: string, key: string, suffix: string): Option<(string, string)> {
    var p, q := |prefix|, |suffix|;
    if |url| < p + q || url[..p] != prefix || url[|url| - q..] != suffix then None
    else
      var middle := url[p..|url| - q];
      if '&' !in middle then None
      else
        var i := IndexOf(middle, '&');
        var rest := middle[i..];
        if |rest| < |key| || rest[..|key|] != key then None
        else Some((middle[..i], rest[|key|..]))
  }

  lemma ParseBetweenParts(prefix: string, a: string, key: string, b: string, suffix: string)
    requires '&' !in a && key != [] && key[0] == '&'
    ensures ParseBetween(prefix + a + key + b + suffix, prefix, key, suffix) == Some((a, b))
  {
    var url := prefix + a + key + b + suffix;
    var p, q := |prefix|, |suffix|;
    assert url[..p] == prefix;
    assert url[|url| - q..] == suffix;
    var middle := url[p..|url| - q];
    assert middle == a + key + b;
    assert middle == a + ['&'] + (key[1..] + b);
    IndexOfAfter(a, '&', key[1..] + b);
    var i := IndexOf(middle, '&');
    var rest := middle[i..];
    assert rest == key + b;
    assert rest[..|key|] == key;
    assert rest[|key|..] == b;
    assert middle[..i] == a;
  }

  /** Reads the two arguments back out of a reserve url; `None` for any other string. */
  function ParseReserveUrl(url: string): Option<(string, string)> {
    ParseBetween(url, ReservePrefix, BookmarkKey, ReserveSuffix)
  }

  /** The url carries its arguments: a sequence number without `&` is read back with its bookmark. */
  lemma ParseBuild(programSeq: string, bookmark: string)
    requires '&' !in programSeq
    ensures ParseReserveUrl(BuildReserveUrl(programSeq, bookmark)) == Some((programSeq, bookmark))
  {
    assert BookmarkKey[0] == '&';
    ParseBetweenParts(ReservePrefix, programSeq, BookmarkKey, bookmark, ReserveSuffix);
  }

  /** Distinct listings get distinct urls, which the url cache relies on. */
  lemma BuildInjective(s1: string, b1: string, s2: string, b2: string)
    requires '&' !in s1 && '&' !in s2
    requires BuildReserveUrl(s1, b1) == BuildReserveUrl(s2, b2)
    ensures s1 == s2 && b1 == b2
  {
    ParseBuild(s1, b1);
    ParseBuild(s2, b2);
  }

  /** `[\w_]`: an ASCII letter, digit or underscore. */
  predicate IsWordChar(c: char) { IsDigit(c) || ('a' <= c <= 'z') || ('A' <= c <= 'Z') || c == '_' }

  /** The end of the run of characters satisfying `p` that starts at `i`. */
  function SpanEnd(s: string, i: nat, p: char -> bool): (k: nat)
    requires i <= |s|
    ensures i <= k <= |s|
    ensures forall j :: i <= j < k ==> p(s[j])
    ensures k < |s| ==> !p(s[k])
    decreases |s| - i
  {
    if i == |s| || !p(s[i]) then i else SpanEnd(s, i + 1, p)
  }

  predicate HasAt(s: string, i: nat, lit: string) { i + |lit| <= |s| && s[i..i + |lit|] == lit }

  const CallOpen: string := "fncReserve('"

  /**
   * The groups of `fncReserve\('(\d+)',\s*'([\w_]+)'\)` matched at `i`. Each
   * repeated part is followed by a character it cannot match, so the greedy
   * run is the only way to continue and the match is unique.
   */
  function MatchAt(s: string, i: nat): Option<(string, string)>
    requires i <= |s|
  {
    if !HasAt(s, i, CallOpen) then None else MatchSeq(s, i + |CallOpen|)
  }

  /** The rest of the match from the first digit on: `(\d+)',\s*'([\w_]+)'\)`. */
  function MatchSeq(s: string, j: nat): (r: Option<(string, string)>)
    requires j <= |s|
    ensures r.Some? ==> r.value.0 == s[j..SpanEnd(s, j, IsDigit)] && AllDigits(r.value.0)
  {
    var d := SpanEnd(s, j, IsDigit);
    if d == j || !HasAt(s, d, "',") then None
    else MatchBookmark(s, s[j..d], SpanEnd(s, d + 2, IsSpace))
  }

  /** The rest of the match from the bookmark's opening quote on: `'([\w_]+)'\)`. */
  function MatchBookmark(s: string, programSeq: string, k: nat): (r: Option<(string, string)>)
    requires k <= |s|
    ensures r.Some? ==> r.value.0 == programSeq
  {
    if !HasAt(s, k, "'") then None
    else
      var w := SpanEnd(s, k + 1, IsWordChar);
      if w == k + 1 || !HasAt(s, w, "')") then None
      else Some((programSeq, s[k + 1..w]))
  }

  /** `re.search` from position `i`: the position of the leftmost match. */
  function FirstMatch(s: string, i: nat): (r: Option<nat>)
    requires i <= |s|
    ensures r.None? <==> forall k :: i <= k <= |s| ==> MatchAt(s, k).None?
    ensures r.Some? ==> i <= r.value <= |s| && MatchAt(s, r.value).Some?
    ensures r.Some? ==> forall k :: i <= k < r.value ==> MatchAt(s, k).None?
    decreases |s| - i
  {
    if MatchAt(s, i).Some? then Some(i)
    else if i == |s| then None
    else FirstMatch(s, i + 1)
  }

  /** The groups of the leftmost match in the handler text. */
  function ReserveCall(onclick: string): Option<(string, string)> {
    match FirstMatch(onclick, 0)
    case None => None
    case Some(k) => MatchAt(onclick, k)
  }

  /** The handler text a listing row carries for a sequence number and bookmark id. */
  function OnclickOf(programSeq: string, spaces: string, bookmark: string): string {
    CallOpen + programSeq + "'," + spaces + "'" + bookmark + "')"
  }

  /** The matcher reads back the arguments of a well-formed call. */
  lemma ReserveCallOfOnclick(programSeq: string, spaces: string, bookmark: string)
    requires programSeq != [] && AllDigits(programSeq)
    requires AllSpace(spaces)
    requires bookmark != [] && forall i :: 0 <= i < |bookmark| ==> IsWordChar(bookmark[i])
    ensures ReserveCall(OnclickOf(programSeq, spaces, bookmark)) == Some((programSeq, bookmark))
  {
    MatchOnclick(programSeq, spaces, bookmark);
  }

  lemma MatchOnclick(programSeq: string, spaces: string, bookmark: string)
    requires programSeq != [] && AllDigits(programSeq)
    requires AllSpace(spaces)
    requires bookmark != [] && forall i :: 0 <= i < |bookmark| ==> IsWordChar(bookmark[i])
    ensures MatchAt(OnclickOf(programSeq, spaces, bookmark), 0) == Some((programSeq, bookmark))
  {
    var s := OnclickOf(programSeq, spaces, bookmark);
    var j := |CallOpen|;
    var d := j + |programSeq|;
    var k := d + 2 + |spaces|;
    var w := k + 1 + |bookmark|;
    assert s == CallOpen + programSeq + ("'," + spaces) + ("'" + bookmark + "')");
    assert |s| == w + 2;
    assert s[..j] == CallOpen;
    assert s[j..d] == programSeq;
    assert s[d..k] == "'," + spaces;
    assert s[k..] == "'" + bookmark + "')";
    MatchAtParts(s, d, k, w);
  }

  /** The match at 0, given where its parts lie. */
  lemma MatchAtParts(s: string, d: nat, k: nat, w: nat)
    requires |CallOpen| < d && d + 2 <= k && k + 1 < w && w + 2 == |s|
    requires s[..|CallOpen|] == CallOpen
    requires AllDigits(s[|CallOpen|..d])
    requires s[d..k] == "'," + s[d + 2..k] && AllSpace(s[d + 2..k])
    requires s[k..] == "'" + s[k + 1..w] + "')" && forall i :: k + 1 <= i < w ==> IsWordChar(s[i])
    ensures MatchAt(s, 0) == Some((s[|CallOpen|..d], s[k + 1..w]))
  {
    var j := |CallOpen|;
    assert s[k..k + 1] == "'" by { assert s[k..k + 1] == s[k..][..1]; }
    assert s[w..w + 2] == "')" by { assert s[w..w + 2] == s[k..][w - k..]; }
    MatchBookmarkIs(s, s[j..d], k, w);
    assert s[d..d + 2] == "'," by { assert s[d..d + 2] == s[d..k][..2]; }
    MatchSeqIs(s, j, d, k, Some((s[j..d], s[k + 1..w])));
    assert HasAt(s, 0, CallOpen);
  }

  lemma MatchSeqIs(s: string, j: nat, d: nat, k: nat, r: Option<(string, string)>)
    requires j < d && d + 2 <= k < |s|
    requires AllDigits(s[j..d])
    requires s[d..d + 2] == "',"
    requires AllSpace(s[d + 2..k])
    requires s[k..k + 1] == "'"
    requires MatchBookmark(s, s[j..d], k) == r
    ensures MatchSeq(s, j) == r
  {
    assert s[d] == '\'' by { assert s[d] == s[d..d + 2][0]; }
    DigitsEnd(s, j, d);
    assert s[k] == '\'' by { assert s[k] == s[k..k + 1][0]; }
    SpacesEnd(s, d + 2, k);
    assert HasAt(s, d, "',");
  }

  lemma DigitsEnd(s: string, j: nat, d: nat)
    requires j <= d < |s| && AllDigits(s[j..d]) && s[d] == '\''
    ensures SpanEnd(s, j, IsDigit) == d
  {
    forall x | j <= x < d ensures IsDigit(s[x]) { assert s[x] == s[j..d][x - j]; }
    SpanEndIs(s, j, d, IsDigit);
  }

  lemma SpacesEnd(s: string, j: nat, k: nat)
    requires j <= k < |s| && AllSpace(s[j..k]) && s[k] == '\''
    ensures SpanEnd(s, j, IsSpace) == k
  {
    forall x | j <= x < k ensures IsSpace(s[x]) { assert s[x] == s[j..k][x - j]; }
    SpanEndIs(s, j, k, IsSpace);
  }

  lemma MatchBookmarkIs(s: string, programSeq: string, k: nat, w: nat)
    requires k + 1 < w && w + 2 <= |s|
    requires s[k..k + 1] == "'"
    requires forall x :: k + 1 <= x < w ==> IsWordChar(s[x])
    requires s[w..w + 2] == "')"
    ensures MatchBookmark(s, programSeq, k) == Some((programSeq, s[k + 1..w]))
  {
    assert s[w] == '\'' by { assert s[w] == s[w..w + 2][0]; }
    SpanEndIs(s, k + 1, w, IsWordChar);
    assert HasAt(s, k, "'");
    assert HasAt(s, w, "')");
  }

  lemma {:induction false} SpanEndIs(s: string, i: nat, k: nat, p: char -> bool)
    requires i <= k < |s|
    requires forall j :: i <= j < k ==> p(s[j])
    requires !p(s[k])
    ensures SpanEnd(s, i, p) == k
    decreases k - i
  {
    if i < k {
      SpanEndIs(s, i + 1, k, p);
    }
  }

  /** A listing row: the onclick text of its `div.txt > strong` (`""` without one) and its category span texts. */
  datatype ListingItem = ListingItem(onclick: string, spans: seq<string>)

  /** What `extract_url_and_type` returns for a matched row. */
  datatype Listing = Listing(url: string, typeBits: nat, programId: string)

  /** The OR of the span bits; a span with bit 0 leaves the bits as they are. */
  function SpanBits(spans: seq<string>): nat {
    if spans == [] then 0
    else
      var bit := TypeToBinary(spans[|spans| - 1]);
      var acc := SpanBits(spans[..|spans| - 1]);
      if bit != 0 then Or(acc, bit) else acc
  }

  /** `extract_url_and_type`: `None` stands for `(None, None, None)`. */
  function ListingOf(item: ListingItem): Option<Listing> {
    match ReserveCall(item.onclick)
    case None => None
    case Some((programSeq, bookmark)) => Some(Listing(BuildReserveUrl(programSeq, bookmark), SpanBits(item.spans), programSeq))
  }

  lemma SpanBitsSnoc(spans: seq<string>, i: nat)
    requires i < |spans|
    ensures var bit := TypeToBinary(spans[i]);
      SpanBits(spans[..i + 1]) == if bit != 0 then Or(SpanBits(spans[..i]), bit) else SpanBits(spans[..i])
  {
    assert spans[..i + 1][..i] == spans[..i];
  }

  method ExtractUrlAndType(item: ListingItem) returns (r: Option<Listing>)
    ensures r == ListingOf(item)
  {
    var m := ReserveCall(item.onclick);
    if m.None? {
      return None;
    }
    var (programSeq, bookmark) := m.value;
    var fullUrl := BuildReserveUrl(programSeq, bookmark);
    var typeBits := 0;
    var i := 0;
    while i < |item.spans|
      invariant 0 <= i <= |item.spans|
      invariant typeBits == SpanBits(item.spans[..i])
    {
      var bit := TypeToBinary(item.spans[i]);
      SpanBitsSnoc(item.spans, i);
      if bit != 0 {
        typeBits := Or(typeBits, bit);
      }
      i := i + 1;
    }
    assert item.spans[..i] == item.spans;
    r := Some(Listing(fullUrl, typeBits, programSeq));
  }

  /** Some span of `spans` carries label `k`. */
  predicate HasLabel(spans: seq<string>, k: nat)
    requires k < 3
  {
    exists j :: 0 <= j < |spans| && Strip(spans[j]) == TypeLabels[k]
  }

  /** The type bits fit in three bits. */
  lemma {:induction false} SpanBitsBound(spans: seq<string>)
    ensures SpanBits(spans) < 8
  {
    assert Pow2(3) == 8;
    if spans != [] {
      var init, last := spans[..|spans| - 1], spans[|spans| - 1];
      SpanBitsBound(init);
      var bit := TypeToBinary(last);
      if bit != 0 {
        TypeToBinarySpec(last);
        OrBelow(SpanBits(init), bit, 3);
      }
    }
  }

  /** Bit `k` of the type bits is set exactly when some span carries label `k`. */
  lemma {:induction false} SpanBitsHasBit(spans: seq<string>, k: nat)
    requires k < 3
    ensures HasBit(SpanBits(spans), k) <==> HasLabel(spans, k)
  {
    if spans == [] {
      ZeroHasNoBit(k);
    } else {
      var init, last := spans[..|spans| - 1], spans[|spans| - 1];
      SpanBitsHasBit(init, k);
      assert HasLabel(spans, k) <==> HasLabel(init, k) || Strip(last) == TypeLabels[k] by {
        assert forall j :: 0 <= j < |init| ==> init[j] == spans[j];
        if HasLabel(spans, k) && !HasLabel(init, k) {
          var j :| 0 <= j < |spans| && Strip(spans[j]) == TypeLabels[k];
          assert j == |spans| - 1;
        }
      }
      var bit := TypeToBinary(last);
      TypeToBinarySpec(last);
      if bit != 0 {
        var b := if bit == 1 then 0 else if bit == 2 then 1 else 2;
        assert bit == Pow2(b);
        OrHasBit(SpanBits(init), bit, k);
        Pow2HasBit(b, k);
      }
    }
  }

  /** A matched row's program id is the sequence number inside its url. */
  lemma ListingUrlCarriesId(item: ListingItem)
    requires ListingOf(item).Some?
    ensures var l := ListingOf(item).value; ParseReserveUrl(l.url).Some? && ParseReserveUrl(l.url).value.0 == l.programId
  {
    var (programSeq, bookmark) := ReserveCall(item.onclick).value;
    assert AllDigits(programSeq);
    assert '&' !in programSeq by {
      forall x | 0 <= x < |programSeq| ensures programSeq[x] != '&' { assert IsDigit(programSeq[x]); }
    }
    ParseBuild(programSeq, bookmark);
  }
}
