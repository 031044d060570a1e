/**
 * Phone numbers on a detail page: `extract_phone_number` (a scan for the first
 * run of the character class `[\d\- /]`) and the phone-shape test of the
 * info list, `\d{2,3}[-\s]?\d{3,4}[-\s]?\d{4}`, both written out by hand.
 */
module Phone {
  import opened Wrappers
  import opened Text

  /** One character of the class `[\d\- /]`. */
  predicate IsPhoneChar(c: char) { IsDigit(c) || c == '-' || c == ' ' || c == '/' }

  /** The first position at or after `i` holding a phone character, or `|s|`. */
  function RunStart(s: string, i: nat): (k: nat)
    requires i <= |s|
    ensures i <= k <= |s|
    ensures forall j :: i <= j < k ==> !IsPhoneChar(s[j])
    ensures k < |s| ==> IsPhoneChar(s[k])
    decreases |s| - i
  {
    if i == |s| || IsPhoneChar(s[i]) then i else RunStart(s, i + 1)
  }

  /** The end of the run of phone characters that starts at `i`. */
  function RunEnd(s: string, i: nat): (k: nat)
    requires i <= |s|
    ensures i <= k <= |s|
    ensures forall j :: i <= j < k ==> IsPhoneChar(s[j])
    ensures k < |s| ==> !IsPhoneChar(s[k])
    decreases |s| - i
  {
    if i == |s| || !IsPhoneChar(s[i]) then i else RunEnd(s, i + 1)
  }

  /** `s[i..j]` is the leftmost maximal run of phone characters in `s`: what the regex search matches. */
  ghost predicate IsFirstRun(s: string, i: nat, j: nat) {
    && i < j <= |s|
    && (forall k :: 0 <= k < i ==> !IsPhoneChar(s[k]))
    && (forall k :: i <= k < j ==> IsPhoneChar(s[k]))
    && (j == |s| || !IsPhoneChar(s[j]))
  }

  /** What happens to the matched run: it is stripped, and when it holds a `/`, its stripped last `/`-part is kept. */
  function Tidy(run: string): (r: string)
    ensures '/' !in r && Stripped(r)
    ensures forall c :: c in r ==> c in run
  {
    var p := Strip(run);
    if '/' in p then
      var parts := Split(p, '/');
      Strip(parts[|parts| - 1])
    else p
  }

  /** `r` is the stripped part of `p` after the `/` at `k`, the last `/` of `p`. */
  predicate AfterLastSlash(p: string, k: nat, r: string) {
    k < |p| && p[k] == '/' && '/' !in p[k + 1..] && r == Strip(p[k + 1..])
  }

  /**
   * The run is stripped; without a `/` that is the phone, and with one, the
   * phone is the stripped part after its last `/`.
   */
  lemma TidyLastSegment(run: string)
    ensures '/' !in Strip(run) ==> Tidy(run) == Strip(run)
    ensures '/' in Strip(run) ==> exists k :: AfterLastSlash(Strip(run), k, Tidy(run))
  {
    var p := Strip(run);
    if '/' in p {
      var parts := Split(p, '/');
      var k := SplitLast(p, '/');
      assert Tidy(run) == Strip(parts[|parts| - 1]);
      assert AfterLastSlash(p, k, Tidy(run));
    } else {
      assert Tidy(run) == p;
    }
  }

  /** `extract_phone_number(text)`. */
  function ExtractPhone(text: string): (r: Option<string>)
    ensures r.None? <==> forall k :: 0 <= k < |text| ==> !IsPhoneChar(text[k])
    ensures r.Some? ==> '/' !in r.value && Stripped(r.value)
    ensures r.Some? ==> forall c :: c in r.value ==> IsPhoneChar(c) && c != '/'
  {
    var i := RunStart(text, 0);
    if i == |text| then None
    else
      var run := text[i..RunEnd(text, i)];
      assert forall c :: c in run ==> IsPhoneChar(c);
      Some(Tidy(run))
  }

  lemma {:induction false} RunStartIs(s: string, from: nat, i: nat)
    requires from <= i <= |s|
    requires forall k :: from <= k < i ==> !IsPhoneChar(s[k])
    requires i < |s| ==> IsPhoneChar(s[i])
    ensures RunStart(s, from) == i
    decreases i - from
  {
    if from < i { RunStartIs(s, from + 1, i); }
  }

  lemma {:induction false} RunEndIs(s: string, from: nat, j: nat)
    requires from <= j <= |s|
    requires forall k :: from <= k < j ==> IsPhoneChar(s[k])
    requires j < |s| ==> !IsPhoneChar(s[j])
    ensures RunEnd(s, from) == j
    decreases j - from
  {
    if from < j { RunEndIs(s, from + 1, j); }
  }

  /** The result is computed from the leftmost maximal run and from nothing else. */
  lemma ExtractPhoneFirstRun(text: string, i: nat, j: nat)
    requires IsFirstRun(text, i, j)
    ensures ExtractPhone(text) == Some(Tidy(text[i..j]))
  {
    RunStartIs(text, 0, i);
    RunEndIs(text, i, j);
  }

  /**
   * `extract_phone_number` keeps the stripped first run of `[\d\- /]`, or,
   * when that run holds a `/`, the stripped part after its last `/`.
   */
  lemma ExtractPhoneLastSegment(text: string, i: nat, j: nat)
    requires IsFirstRun(text, i, j)
    ensures var p := Strip(text[i..j]);
      && ('/' !in p ==> ExtractPhone(text) == Some(p))
      && ('/' in p ==> exists k, r :: AfterLastSlash(p, k, r) && ExtractPhone(text) == Some(r))
  {
    ExtractPhoneFirstRun(text, i, j);
    TidyLastSegment(text[i..j]);
  }

  // The phone-shape pattern `\d{2,3}[-\s]?\d{3,4}[-\s]?\d{4}`.

  predicate DigitsAt(s: string, i: nat, n: nat) {
    i + n <= |s| && forall k :: i <= k < i + n ==> IsDigit(s[k])
  }

  predicate SepAt(s: string, i: nat) {
    i < |s| && (s[i] == '-' || IsSpace(s[i]))
  }

  predicate LastGroupAt(s: string, j: nat) {
    DigitsAt(s, j, 4) || (SepAt(s, j) && DigitsAt(s, j + 1, 4))
  }

  predicate MiddleGroupAt(s: string, j: nat) {
    (DigitsAt(s, j, 3) && LastGroupAt(s, j + 3)) || (DigitsAt(s, j, 4) && LastGroupAt(s, j + 4))
  }

  predicate AfterAreaAt(s: string, j: nat) {
    MiddleGroupAt(s, j) || (SepAt(s, j) && MiddleGroupAt(s, j + 1))
  }

  /** The pattern matches at position `i`, for some choice of its optional parts. */
  predicate ShapeAt(s: string, i: nat) {
    (DigitsAt(s, i, 2) && AfterAreaAt(s, i + 2)) || (DigitsAt(s, i, 3) && AfterAreaAt(s, i + 3))
  }

  /** `re.search(pattern, s)` succeeds. */
  predicate LooksLikePhone(s: string) {
    exists i :: 0 <= i < |s| && ShapeAt(s, i)
  }
}
