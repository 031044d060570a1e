/**
 * Cutting a sequence into consecutive fixed-size batches, as Python's
 * `[s[i:i + n] for i in range(0, len(s), n)]` does.
 */
module Chunking {

  function Flatten<T>(ss: seq<seq<T>>): seq<T> {
    if ss == [] then [] else ss[0] + Flatten(ss[1..])
  }

  /** `[f(x) for x in s]`. */
  function MapSeq<A, B>(f: A -> B, s: seq<A>): (r: seq<B>)
    ensures |r| == |s|
    ensures forall k :: 0 <= k < |s| ==> r[k] == f(s[k])
  {
    seq(|s|, k requires 0 <= k < |s| => f(s[k]))
  }

  lemma MapConcat<A, B>(f: A -> B, a: seq<A>, b: seq<A>)
    ensures MapSeq(f, a + b) == MapSeq(f, a) + MapSeq(f, b)
  {
    var l, r := MapSeq(f, a + b), MapSeq(f, a) + MapSeq(f, b);
    forall k | 0 <= k < |l| ensures l[k] == r[k] {
      if k < |a| {
        assert (a + b)[k] == a[k];
      } else {
        assert (a + b)[k] == b[k - |a|];
      }
    }
  }

  lemma {:induction false} FlattenAppend<T>(ss: seq<seq<T>>, s: seq<T>)
    ensures Flatten(ss + [s]) == Flatten(ss) + s
  {
    if ss != [] {
      assert (ss + [s])[1..] == ss[1..] + [s];
      FlattenAppend(ss[1..], s);
    }
  }

  lemma {:induction false} FlattenConcat<T>(ss: seq<seq<T>>, tt: seq<seq<T>>)
    ensures Flatten(ss + tt) == Flatten(ss) + Flatten(tt)
  {
    if ss != [] {
      assert (ss + tt)[0] == ss[0] && (ss + tt)[1..] == ss[1..] + tt;
      FlattenConcat(ss[1..], tt);
      assert Flatten(ss + tt) == ss[0] + Flatten(ss[1..] + tt);
    } else {
      assert ss + tt == tt;
    }
  }

  /** The batches of `s` of `n` elements each; the last one may be shorter. */
  function Chunks<T>(s: seq<T>, n: nat): seq<seq<T>>
    requires n > 0
    decreases |s|
  {
    if s == [] then []
    else if |s| <= n then [s]
    else [s[..n]] + Chunks(s[n..], n)
  }

  /**
   * `bs` cuts `s` into batches of `n`: concatenated they give `s`, none is
   * empty, and all but the last hold exactly `n` elements.
   */
  ghost predicate IsChunking<T>(bs: seq<seq<T>>, s: seq<T>, n: nat) {
    && Flatten(bs) == s
    && (forall k :: 0 <= k < |bs| ==> 0 < |bs[k]| <= n)
    && (forall k :: 0 <= k < |bs| - 1 ==> |bs[k]| == n)
  }

  lemma {:induction false} ChunksIsChunking<T>(s: seq<T>, n: nat)
    requires n > 0
    ensures IsChunking(Chunks(s, n), s, n)
    decreases |s|
  {
    if |s| > n {
      ChunksIsChunking(s[n..], n);
      var rest := Chunks(s[n..], n);
      assert Chunks(s, n)[1..] == rest;
      assert s == s[..n] + s[n..];
    }
  }

  /** The chunking of a sequence is unique. */
  lemma {:induction false} ChunkingUnique<T>(bs: seq<seq<T>>, s: seq<T>, n: nat)
    requires n > 0
    requires IsChunking(bs, s, n)
    ensures bs == Chunks(s, n)
    decreases |s|
  {
    if bs == [] {
    } else if |bs| == 1 {
      assert Flatten(bs) == bs[0];
    } else {
      assert |bs[0]| == n;
      var rest := bs[1..];
      assert Flatten(bs) == bs[0] + Flatten(rest);
      assert s[..n] == bs[0] && s[n..] == Flatten(rest);
      assert |Flatten(rest)| > 0 by { assert |rest[0]| > 0; assert Flatten(rest) == rest[0] + Flatten(rest[1..]); }
      assert IsChunking(rest, s[n..], n) by {
        forall k | 0 <= k < |rest| ensures 0 < |rest[k]| <= n { assert rest[k] == bs[k + 1]; }
        forall k | 0 <= k < |rest| - 1 ensures |rest[k]| == n { assert rest[k] == bs[k + 1]; }
      }
      ChunkingUnique(rest, s[n..], n);
      assert bs == [bs[0]] + rest;
    }
  }

  /** Full batches followed by one last non-empty batch are the chunking of their concatenation. */
  lemma ChunksOfBatches<T>(bs: seq<seq<T>>, last: seq<T>, n: nat)
    requires n > 0
    requires forall k :: 0 <= k < |bs| ==> |bs[k]| == n
    requires 0 < |last| <= n
    ensures Chunks(Flatten(bs) + last, n) == bs + [last]
  {
    FlattenAppend(bs, last);
    var cs := bs + [last];
    assert IsChunking(cs, Flatten(bs) + last, n) by {
      forall k | 0 <= k < |cs| ensures 0 < |cs[k]| <= n {
        if k < |bs| { assert cs[k] == bs[k]; }
      }
    }
    ChunkingUnique(cs, Flatten(bs) + last, n);
  }

  /** Full batches are the chunking of their concatenation. */
  lemma ChunksOfFull<T>(bs: seq<seq<T>>, n: nat)
    requires n > 0
    requires forall k :: 0 <= k < |bs| ==> |bs[k]| == n
    ensures Chunks(Flatten(bs), n) == bs
  {
    ChunkingUnique(bs, Flatten(bs), n);
  }

  /** Full batches in front of a sequence are the first batches of the whole. */
  lemma ChunksAfterFull<T>(bs: seq<seq<T>>, rest: seq<T>, n: nat)
    requires n > 0
    requires forall k :: 0 <= k < |bs| ==> |bs[k]| == n
    ensures Chunks(Flatten(bs) + rest, n) == bs + Chunks(rest, n)
  {
    var cs := Chunks(rest, n);
    ChunksIsChunking(rest, n);
    FlattenConcat(bs, cs);
    var ds := bs + cs;
    assert IsChunking(ds, Flatten(bs) + rest, n) by {
      forall k | 0 <= k < |ds| ensures 0 < |ds[k]| <= n && (k < |ds| - 1 ==> |ds[k]| == n) {
        if k < |bs| { assert ds[k] == bs[k]; } else { assert ds[k] == cs[k - |bs|]; }
      }
    }
    ChunkingUnique(ds, Flatten(bs) + rest, n);
  }

  // ------------------------------------------------- results in completion order

  /** `[0, 1, ..., n - 1]`: the submission order of `n` work batches. */
  function Range(n: nat): (r: seq<nat>)
    ensures |r| == n && forall i :: 0 <= i < n ==> r[i] == i
  {
    if n == 0 then [] else Range(n - 1) + [n - 1]
  }

  /** `order` lists each of the indices below `n` exactly once: a completion order of `n` futures. */
  predicate IsOrder(order: seq<nat>, n: nat) {
    && |order| == n
    && (forall k :: 0 <= k < n ==> order[k] < n)
    && (forall b :: 0 <= b < n ==> b in order)
    && (forall i, j :: 0 <= i < j < n ==> order[i] != order[j])
  }

  /**
   * The results `parts[b]` of the batches `b` of `order`, concatenated in that
   * order; a batch in `dropped` raised, and contributes nothing.
   */
  function Gather<T>(parts: seq<seq<T>>, order: seq<nat>, dropped: set<nat>): seq<T>
    requires forall k :: 0 <= k < |order| ==> order[k] < |parts|
  {
    if order == [] then []
    else
      var b := order[|order| - 1];
      Gather(parts, order[..|order| - 1], dropped) + if b in dropped then [] else parts[b]
  }

  /** The elements of `xs` whose position is not in `dropped`, in order. */
  function KeptFrom<T>(xs: seq<T>, dropped: set<nat>): (r: seq<T>)
    ensures dropped == {} ==> r == xs
  {
    if xs == [] then []
    else KeptFrom(xs[..|xs| - 1], dropped) + if |xs| - 1 in dropped then [] else [xs[|xs| - 1]]
  }

  lemma {:induction false} GatherConcat<T>(parts: seq<seq<T>>, a: seq<nat>, b: seq<nat>, dropped: set<nat>)
    requires forall k :: 0 <= k < |a| ==> a[k] < |parts|
    requires forall k :: 0 <= k < |b| ==> b[k] < |parts|
    ensures forall k :: 0 <= k < |a + b| ==> (a + b)[k] < |parts|
    ensures Gather(parts, a + b, dropped) == Gather(parts, a, dropped) + Gather(parts, b, dropped)
    decreases |b|
  {
    assert forall k :: 0 <= k < |a + b| ==> (a + b)[k] < |parts| by {
      forall k | 0 <= k < |a + b| ensures (a + b)[k] < |parts| {
        if k < |a| { assert (a + b)[k] == a[k]; } else { assert (a + b)[k] == b[k - |a|]; }
      }
    }
    if b == [] {
      assert a + b == a;
    } else {
      var n := |b| - 1;
      GatherConcat(parts, a, b[..n], dropped);
      assert (a + b)[..|a + b| - 1] == a + b[..n];
    }
  }

  /** In submission order, the gathered results are the kept results, concatenated. */
  lemma {:induction false} GatherRange<T>(parts: seq<seq<T>>, dropped: set<nat>)
    ensures Gather(parts, Range(|parts|), dropped) == Flatten(KeptFrom(parts, dropped))
  {
    if parts != [] {
      var n := |parts| - 1;
      var init := parts[..n];
      GatherRange(init, dropped);
      GatherSameParts(init, parts, Range(n), dropped);
      assert Range(|parts|)[..n] == Range(n);
      FlattenAppend(KeptFrom(init, dropped), parts[n]);
      assert KeptFrom(init, dropped) + [] == KeptFrom(init, dropped);
    }
  }

  /** Gathering only reads the parts that `order` names. */
  lemma {:induction false} GatherSameParts<T>(init: seq<seq<T>>, parts: seq<seq<T>>, order: seq<nat>, dropped: set<nat>)
    requires |init| <= |parts| && init == parts[..|init|]
    requires forall k :: 0 <= k < |order| ==> order[k] < |init|
    ensures Gather(init, order, dropped) == Gather(parts, order, dropped)
    decreases |order|
  {
    if order != [] {
      GatherSameParts(init, parts, order[..|order| - 1], dropped);
    }
  }

  /**
   * Whatever order the batches complete in, the gathered results hold the same
   * elements, each as often, as in submission order.
   */
  lemma {:induction false} GatherAnyOrder<T>(parts: seq<seq<T>>, order: seq<nat>, dropped: set<nat>)
    requires IsOrder(order, |parts|)
    ensures multiset(Gather(parts, order, dropped)) == multiset(Gather(parts, Range(|parts|), dropped))
  {
    GatherPermuted(parts, order, |parts|, dropped);
  }

  lemma {:induction false} GatherPermuted<T>(parts: seq<seq<T>>, order: seq<nat>, n: nat, dropped: set<nat>)
    requires n <= |parts| && IsOrder(order, n)
    ensures multiset(Gather(parts, order, dropped)) == multiset(Gather(parts, Range(n), dropped))
    decreases n
  {
    if n > 0 {
      var rest := TakeLastOut(parts, order, n, dropped);
      GatherPermuted(parts, rest, n - 1, dropped);
      GatherLast(parts, n, dropped);
    }
  }

  /** A completion order gathers like the order of the other batches plus the last batch. */
  lemma TakeLastOut<T>(parts: seq<seq<T>>, order: seq<nat>, n: nat, dropped: set<nat>) returns (rest: seq<nat>)
    requires 0 < n <= |parts| && IsOrder(order, n)
    ensures IsOrder(rest, n - 1)
    ensures multiset(Gather(parts, order, dropped)) ==
      multiset(Gather(parts, rest, dropped)) + multiset(Gather(parts, [n - 1], dropped))
  {
    var p := LastIndexAt(order, n);
    rest := OrderWithout(order, n, p);
    GatherSplit(parts, order, p, rest, dropped);
  }

  /** Where the last index sits in a completion order. */
  lemma LastIndexAt(order: seq<nat>, n: nat) returns (p: nat)
    requires IsOrder(order, n) && n > 0
    ensures p < n && order[p] == n - 1
  {
    assert n - 1 in order;
    p :| 0 <= p < n && order[p] == n - 1;
  }

  /** Submission order gathers the last batch last. */
  lemma GatherLast<T>(parts: seq<seq<T>>, n: nat, dropped: set<nat>)
    requires 0 < n <= |parts|
    ensures Gather(parts, Range(n), dropped) == Gather(parts, Range(n - 1), dropped) + Gather(parts, [n - 1], dropped)
  {
    assert Range(n)[..n - 1] == Range(n - 1);
    assert [n - 1][..0] == [];
  }

  /** Taking the last index out of a completion order leaves a completion order of the others. */
  lemma OrderWithout(order: seq<nat>, n: nat, p: nat) returns (rest: seq<nat>)
    requires IsOrder(order, n) && p < n && order[p] == n - 1
    ensures rest == order[..p] + order[p + 1..] && IsOrder(rest, n - 1)
  {
    rest := order[..p] + order[p + 1..];
    assert forall k :: 0 <= k < |rest| ==> rest[k] == if k < p then order[k] else order[k + 1];
    forall c | 0 <= c < n - 1 ensures c in rest {
      assert c in order;
      var q :| 0 <= q < n && order[q] == c;
      if q < p { assert rest[q] == c; } else { assert rest[q - 1] == c; }
    }
  }

  /** Gathering splits around one position of the order. */
  lemma GatherSplit<T>(parts: seq<seq<T>>, order: seq<nat>, p: nat, rest: seq<nat>, dropped: set<nat>)
    requires forall k :: 0 <= k < |order| ==> order[k] < |parts|
    requires p < |order| && rest == order[..p] + order[p + 1..]
    ensures forall k :: 0 <= k < |rest| ==> rest[k] < |parts|
    ensures multiset(Gather(parts, order, dropped)) ==
      multiset(Gather(parts, rest, dropped)) + multiset(Gather(parts, [order[p]], dropped))
  {
    var a, b := order[..p], order[p + 1..];
    assert order == a + [order[p]] + b;
    GatherConcat(parts, a, [order[p]], dropped);
    GatherConcat(parts, a + [order[p]], b, dropped);
    GatherConcat(parts, a, b, dropped);
  }
}
