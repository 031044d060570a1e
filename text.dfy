/**
 * The Python string operations the crawler relies on, over `seq<char>`:
 * `isspace`, `strip`, `in`, `split`, `join`, `splitlines`, `replace`,
 * decimal formatting (`str(n)`) and decimal parsing (`int(s)` on digit strings).
 */
module Text {
  import opened Wrappers

  /** Python's `str.isspace()` on one character; also what `\s` and `strip()` use. */
  predicate IsSpace(c: char) {
    c == ' ' || ('\t' <= c <= '\r') || ('\U{1c}' <= c <= '\U{1f}') || c == '\U{85}' || c == '\U{a0}'
    || c == '\U{1680}' || ('\U{2000}' <= c <= '\U{200a}') || c == '\U{2028}' || c == '\U{2029}'
    || c == '\U{202f}' || c == '\U{205f}' || c == '\U{3000}'
  }

  /** The line boundaries of Python's `str.splitlines()`. */
  predicate IsLineBreak(c: char) {
    ('\n' <= c <= '\r') || ('\U{1c}' <= c <= '\U{1e}') || c == '\U{85}' || c == '\U{2028}' || c == '\U{2029}'
  }

  predicate IsDigit(c: char) { '0' <= c <= '9' }

  predicate AllDigits(s: string) { forall i :: 0 <= i < |s| ==> IsDigit(s[i]) }

  predicate NoSpace(s: string) { forall i :: 0 <= i < |s| ==> !IsSpace(s[i]) }

  predicate AllSpace(s: string) { forall i :: 0 <= i < |s| ==> IsSpace(s[i]) }

  /** `s` neither starts nor ends with whitespace. */
  predicate Stripped(s: string) { s == [] || (!IsSpace(s[0]) && !IsSpace(s[|s| - 1])) }

  lemma LineBreakIsSpace(c: char)
    ensures IsLineBreak(c) ==> IsSpace(c)
  {}

  function LeadingSpaces(s: string): (k: nat)
    ensures k <= |s|
    ensures forall i :: 0 <= i < k ==> IsSpace(s[i])
    ensures k < |s| ==> !IsSpace(s[k])
  {
    if s == [] || !IsSpace(s[0]) then 0 else 1 + LeadingSpaces(s[1..])
  }

  function TrailingStart(s: string): (k: nat)
    ensures k <= |s|
    ensures forall i :: k <= i < |s| ==> IsSpace(s[i])
    ensures 0 < k ==> !IsSpace(s[k - 1])
  {
    if s == [] || !IsSpace(s[|s| - 1]) then |s| else TrailingStart(s[..|s| - 1])
  }

  /** Python's `str.strip()`. */
  function Strip(s: string): (r: string)
    ensures Stripped(r)
    ensures |r| <= |s|
    ensures forall c :: c in r ==> c in s
    ensures r == [] <==> AllSpace(s)
    ensures Stripped(s) ==> r == s
  {
    var t := s[LeadingSpaces(s)..];
    assert forall c :: c in t ==> c in s;
    t[..TrailingStart(t)]
  }

  /** Python's `sub in s` on strings. */
  predicate Contains(s: string, sub: string)
    decreases |s|
  {
    sub <= s || (s != [] && Contains(s[1..], sub))
  }

  /** The position of the first `c` in `s`. */
  function IndexOf(s: string, c: char): (i: nat)
    requires c in s
    ensures i < |s| && s[i] == c && c !in s[..i]
  {
    if s[0] == c then 0 else 1 + IndexOf(s[1..], c)
  }

  /** Python's `s.split(sep)` for a one-character separator. */
  function Split(s: string, sep: char): (r: seq<string>)
    ensures |r| >= 1
    ensures forall k :: 0 <= k < |r| ==> sep !in r[k]
    ensures forall k, c :: 0 <= k < |r| && c in r[k] ==> c in s
    decreases |s|
  {
    if sep !in s then [s]
    else
      var i := IndexOf(s, sep);
      assert forall c :: c in s[i + 1..] ==> c in s;
      [s[..i]] + Split(s[i + 1..], sep)
  }

  /** Python's `sep.join(parts)`. */
  function Join(parts: seq<string>, sep: string): string {
    if |parts| == 0 then ""
    else if |parts| == 1 then parts[0]
    else parts[0] + sep + Join(parts[1..], sep)
  }

  /** Joining the pieces of a split with the separator gives the string back. */
  lemma {:induction false} JoinSplit(s: string, sep: char)
    ensures Join(Split(s, sep), [sep]) == s
    decreases |s|
  {
    if sep in s {
      var i := IndexOf(s, sep);
      var rest := Split(s[i + 1..], sep);
      JoinSplit(s[i + 1..], sep);
      var parts := [s[..i]] + rest;
      assert Split(s, sep) == parts;
      assert parts[0] == s[..i] && parts[1..] == rest;
      assert Join(parts, [sep]) == s[..i] + [sep] + Join(rest, [sep]);
      assert s == s[..i] + [sep] + s[i + 1..];
    }
  }

  /** The last piece of a split is what follows the last separator. */
  lemma {:induction false} SplitLast(s: string, sep: char) returns (k: nat)
    requires sep in s
    ensures k < |s| && s[k] == sep && sep !in s[k + 1..]
    ensures Split(s, sep)[|Split(s, sep)| - 1] == s[k + 1..]
    decreases |s|
  {
    var i := IndexOf(s, sep);
    var t := s[i + 1..];
    assert Split(s, sep) == [s[..i]] + Split(t, sep);
    if sep in t {
      var k' := SplitLast(t, sep);
      k := i + 1 + k';
      assert s[k] == t[k'];
      assert s[k + 1..] == t[k' + 1..];
    } else {
      k := i;
    }
  }

  /** Splitting a join of separator-free pieces gives the pieces back. */
  lemma {:induction false} SplitJoin(parts: seq<string>, sep: char)
    requires |parts| >= 1
    requires forall k :: 0 <= k < |parts| ==> sep !in parts[k]
    ensures Split(Join(parts, [sep]), sep) == parts
  {
    if |parts| > 1 {
      var rest := Join(parts[1..], [sep]);
      var s := parts[0] + [sep] + rest;
      assert Join(parts, [sep]) == s;
      IndexOfAfter(parts[0], sep, rest);
      var i := |parts[0]|;
      assert s[..i] == parts[0];
      assert s[i + 1..] == rest;
      assert Split(s, sep) == [parts[0]] + Split(rest, sep);
      SplitJoin(parts[1..], sep);
      assert parts == [parts[0]] + parts[1..];
    }
  }

  lemma IndexOfAfter(a: string, c: char, b: string)
    requires c !in a
    ensures c in a + [c] + b && IndexOf(a + [c] + b, c) == |a|
  {
    var s := a + [c] + b;
    assert s[|a|] == c;
    assert s[..|a|] == a;
  }

  /** Python's `s.split(sep, 1)`: at most two pieces, cut at the first separator. */
  function SplitOnce(s: string, sep: char): (r: seq<string>)
    ensures |r| == 2 <==> sep in s
    ensures |r| == 1 <==> sep !in s
    ensures |r| == 1 ==> r[0] == s
    ensures |r| == 2 ==> sep !in r[0] && r[0] + [sep] + r[1] == s
  {
    if sep in s then
      var i := IndexOf(s, sep);
      assert s == s[..i] + [sep] + s[i + 1..];
      [s[..i], s[i + 1..]]
    else [s]
  }

  /** Position of the first line break in `s`, or `|s|`. */
  function FirstLineBreak(s: string): (i: nat)
    ensures i <= |s|
    ensures forall k :: 0 <= k < i ==> !IsLineBreak(s[k])
    ensures i < |s| ==> IsLineBreak(s[i])
  {
    if s == [] then 0 else if IsLineBreak(s[0]) then 0 else 1 + FirstLineBreak(s[1..])
  }

  /**
   * The lines of `s`, cut at every line-break character. Python's `splitlines()`
   * treats "\r\n" as one boundary and drops a trailing empty line; the pieces here
   * differ from its result only by empty lines.
   */
  function SplitLines(s: string): (r: seq<string>)
    ensures forall k, c :: 0 <= k < |r| && c in r[k] ==> c in s && !IsLineBreak(c)
    decreases |s|
  {
    var i := FirstLineBreak(s);
    if i == |s| then [s]
    else
      assert forall c :: c in s[i + 1..] ==> c in s;
      [s[..i]] + SplitLines(s[i + 1..])
  }

  /** The end of the leading run of non-space characters of `s`. */
  function WordEnd(s: string): (k: nat)
    ensures k <= |s|
    ensures forall i :: 0 <= i < k ==> !IsSpace(s[i])
    ensures k < |s| ==> IsSpace(s[k])
  {
    if s == [] || IsSpace(s[0]) then 0 else 1 + WordEnd(s[1..])
  }

  /** Python's `s.split()` with no separator: the maximal runs of non-space characters, in order. */
  function Words(s: string): (r: seq<string>)
    ensures r == [] <==> AllSpace(s)
    decreases |s|
  {
    var a := LeadingSpaces(s);
    if a == |s| then []
    else
      var t := s[a..];
      var e := WordEnd(t);
      assert e > 0 && !AllSpace(s) by { assert !IsSpace(s[a]); }
      [t[..e]] + Words(t[e..])
  }

  lemma WordsCons(s: string)
    requires LeadingSpaces(s) < |s|
    ensures var t := s[LeadingSpaces(s)..]; Words(s) == [t[..WordEnd(t)]] + Words(t[WordEnd(t)..])
  {}

  lemma SliceOfSlice<T>(s: seq<T>, a: nat, e: nat)
    requires a + e <= |s|
    ensures s[a..][..e] == s[a..a + e]
  {}

  lemma SomeNonSpace(s: string)
    requires !AllSpace(s)
    ensures LeadingSpaces(s) < |s|
  {
    var i :| 0 <= i < |s| && !IsSpace(s[i]);
    assert LeadingSpaces(s) <= i;
  }

  lemma ShiftedNoSpace(s: string, a: nat, e: nat)
    requires a + e <= |s|
    requires forall i :: 0 <= i < e ==> !IsSpace(s[a..][i])
    ensures forall i :: a <= i < a + e ==> !IsSpace(s[i])
  {
    forall i | a <= i < a + e ensures !IsSpace(s[i]) { assert s[i] == s[a..][i - a]; }
  }

  /**
   * The first word is the run of non-space characters that starts after the
   * leading spaces of `s` and ends at the next space or at the end of `s`.
   */
  lemma FirstWord(s: string)
    requires !AllSpace(s)
    ensures var w, a := Words(s)[0], LeadingSpaces(s);
      && 0 < |w| && a + |w| <= |s| && s[a..a + |w|] == w
      && (forall i :: 0 <= i < a ==> IsSpace(s[i]))
      && (forall i :: a <= i < a + |w| ==> !IsSpace(s[i]))
      && (a + |w| == |s| || IsSpace(s[a + |w|]))
  {
    SomeNonSpace(s);
    WordsCons(s);
    var a := LeadingSpaces(s);
    var t := s[a..];
    var e := WordEnd(t);
    SliceOfSlice(s, a, e);
    ShiftedNoSpace(s, a, e);
    if e < |t| { assert s[a + e] == t[e]; }
  }

  /** Python's `s.replace(c, "")` for one character. */
  function RemoveChar(s: string, c: char): (r: string)
    ensures c !in r
    ensures forall x :: x in r ==> x in s
    ensures c !in s ==> r == s
  {
    if s == [] then [] else (if s[0] == c then [] else [s[0]]) + RemoveChar(s[1..], c)
  }

  lemma Regroup<T>(p: seq<T>, q: seq<T>, head: seq<T>, x: seq<T>, y: seq<T>)
    requires p == head + (x + y) && q == head + x
    ensures p == q + y
  {}

  lemma RemoveCharCons(a: string, b: string, c: char)
    requires a != []
    ensures RemoveChar(a + b, c) == (if a[0] == c then [] else [a[0]]) + RemoveChar(a[1..] + b, c)
  {
    assert (a + b)[0] == a[0] && (a + b)[1..] == a[1..] + b;
  }

  /** Removing a character distributes over concatenation. */
  lemma {:induction false} RemoveCharConcat(a: string, b: string, c: char)
    ensures RemoveChar(a + b, c) == RemoveChar(a, c) + RemoveChar(b, c)
    decreases |a|
  {
    if a == [] {
      assert a + b == b;
    } else {
      RemoveCharCons(a, b, c);
      RemoveCharConcat(a[1..], b, c);
      Regroup(RemoveChar(a + b, c), RemoveChar(a, c), if a[0] == c then [] else [a[0]], RemoveChar(a[1..], c), RemoveChar(b, c));
    }
  }

  /** Python's `s.replace(a, b)` for single characters. */
  function ReplaceChar(s: string, a: char, b: char): (r: string)
    ensures |r| == |s|
    ensures forall i :: 0 <= i < |s| ==> r[i] == if s[i] == a then b else s[i]
  {
    if s == [] then [] else [if s[0] == a then b else s[0]] + ReplaceChar(s[1..], a, b)
  }

  /** `re.sub(r'\s+', '', s)`: every whitespace character removed. */
  function RemoveSpaces(s: string): (r: string)
    ensures NoSpace(r)
    ensures forall x :: x in r ==> x in s
    ensures NoSpace(s) ==> r == s
  {
    if s == [] then [] else (if IsSpace(s[0]) then [] else [s[0]]) + RemoveSpaces(s[1..])
  }

  function DigitChar(d: nat): (c: char)
    requires d < 10
    ensures IsDigit(c)
  {
    (48 + d) as char
  }

  function DigitValue(c: char): (d: nat)
    requires IsDigit(c)
    ensures d < 10
  {
    (c as int) - 48
  }

  /** Python's `str(n)` for a non-negative integer. */
  function ToDecimal(n: nat): (r: string)
    ensures |r| >= 1 && AllDigits(r)
  {
    if n < 10 then [DigitChar(n)] else ToDecimal(n / 10) + [DigitChar(n % 10)]
  }

  function DecimalValue(s: string): nat
    requires AllDigits(s)
  {
    if s == [] then 0 else 10 * DecimalValue(s[..|s| - 1]) + DigitValue(s[|s| - 1])
  }

  /** `int(s)` restricted to plain digit strings; `None` for anything else. */
  function ParseDecimal(s: string): Option<nat> {
    if s != [] && AllDigits(s) then Some(DecimalValue(s)) else None
  }

  /** `int(s)` on a digit string with optional surrounding whitespace; `None` for anything else. */
  function ParseInt(s: string): (r: Option<nat>)
    ensures r.Some? <==> Strip(s) != [] && AllDigits(Strip(s))
  {
    ParseDecimal(Strip(s))
  }

  /** Decimal formatting and parsing are inverse. */
  lemma {:induction false} ParseToDecimal(n: nat)
    ensures ParseDecimal(ToDecimal(n)) == Some(n)
  {
    if n >= 10 {
      ParseToDecimal(n / 10);
      var s := ToDecimal(n);
      assert s[..|s| - 1] == ToDecimal(n / 10);
      assert DigitValue(s[|s| - 1]) == n % 10;
      assert DecimalValue(s) == 10 * (n / 10) + n % 10;
    }
  }
}
