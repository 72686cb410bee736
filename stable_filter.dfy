/** `Array.prototype.filter` on a list: keeps, in their original order, the elements for
    which the callback returns true. The list laws are proved here once, for any callback. */
module StableFilter {

  function FilterBy<T>(xs: seq<T>, keep: T -> bool): (r: seq<T>)
    ensures |r| <= |xs|
    ensures forall k :: 0 <= k < |r| ==> keep(r[k])
  {
    if xs == [] then []
    else (if keep(xs[0]) then [xs[0]] else []) + FilterBy(xs[1..], keep)
  }

  /** `idx` places `a` inside `b` at strictly increasing positions: `a` is a subsequence of
      `b` in the same relative order. */
  ghost predicate Embeds<T>(idx: seq<int>, a: seq<T>, b: seq<T>) {
    |idx| == |a| &&
    (forall k :: 0 <= k < |idx| ==> 0 <= idx[k] < |b| && a[k] == b[idx[k]]) &&
    (forall k, l :: 0 <= k < l < |idx| ==> idx[k] < idx[l])
  }

  /** Every position moved one place to the right. */
  function Shift(idx: seq<int>): (r: seq<int>)
    ensures |r| == |idx|
  {
    seq(|idx|, k requires 0 <= k < |idx| => idx[k] + 1)
  }

  lemma ShiftMembers(idx: seq<int>)
    requires forall k :: 0 <= k < |idx| ==> 0 <= idx[k]
    ensures 0 !in Shift(idx)
    ensures forall i :: 1 <= i ==> (i in Shift(idx) <==> i - 1 in idx)
  {
    forall i | 1 <= i
      ensures i in Shift(idx) <==> i - 1 in idx
    {
      if i - 1 in idx {
        var k :| 0 <= k < |idx| && idx[k] == i - 1;
        assert Shift(idx)[k] == i;
      }
    }
  }

  lemma EmbedsTail<T>(idx: seq<int>, a: seq<T>, b: seq<T>)
    requires b != [] && Embeds(idx, a, b[1..])
    ensures Embeds(Shift(idx), a, b)
  {
  }

  lemma EmbedsHead<T>(idx: seq<int>, a: seq<T>, b: seq<T>)
    requires b != [] && Embeds(idx, a, b[1..])
    ensures Embeds([0] + Shift(idx), [b[0]] + a, b)
  {
    EmbedsTail(idx, a, b);
  }

  /** The positions of the kept elements, in increasing order. */
  ghost function KeptPositions<T>(xs: seq<T>, keep: T -> bool): (idx: seq<int>)
    ensures forall k :: 0 <= k < |idx| ==> 0 <= idx[k]
  {
    if xs == [] then []
    else (if keep(xs[0]) then [0] else []) + Shift(KeptPositions(xs[1..], keep))
  }

  lemma {:induction false} KeptPositionsEmbed<T>(xs: seq<T>, keep: T -> bool)
    ensures Embeds(KeptPositions(xs, keep), FilterBy(xs, keep), xs)
  {
    if xs != [] {
      var rest := KeptPositions(xs[1..], keep);
      KeptPositionsEmbed(xs[1..], keep);
      if keep(xs[0]) {
        EmbedsHead(rest, FilterBy(xs[1..], keep), xs);
      } else {
        EmbedsTail(rest, FilterBy(xs[1..], keep), xs);
      }
    }
  }

  lemma {:induction false} KeptPositionsExact<T>(xs: seq<T>, keep: T -> bool)
    ensures forall i :: 0 <= i < |xs| ==> (i in KeptPositions(xs, keep) <==> keep(xs[i]))
  {
    if xs != [] {
      var rest := KeptPositions(xs[1..], keep);
      KeptPositionsExact(xs[1..], keep);
      ShiftMembers(rest);
      forall i | 1 <= i < |xs|
        ensures i in KeptPositions(xs, keep) <==> keep(xs[i])
      {
        assert xs[i] == xs[1..][i - 1];
      }
    }
  }

  /** The result is a subsequence of the input in the original order, and the positions
      it keeps are exactly those whose element the callback accepts. */
  lemma FilterByEmbedding<T>(xs: seq<T>, keep: T -> bool) returns (idx: seq<int>)
    ensures Embeds(idx, FilterBy(xs, keep), xs)
    ensures forall i :: 0 <= i < |xs| ==> (i in idx <==> keep(xs[i]))
  {
    idx := KeptPositions(xs, keep);
    KeptPositionsEmbed(xs, keep);
    KeptPositionsExact(xs, keep);
  }

  /** An accepted element occurs in the result as often as in the input; a rejected one
      does not occur at all. */
  lemma {:induction false} FilterByCount<T>(xs: seq<T>, keep: T -> bool, x: T)
    ensures multiset(FilterBy(xs, keep))[x] == if keep(x) then multiset(xs)[x] else 0
  {
    if xs != [] {
      FilterByCount(xs[1..], keep, x);
      var head := if keep(xs[0]) then [xs[0]] else [];
      assert FilterBy(xs, keep) == head + FilterBy(xs[1..], keep);
      assert xs == [xs[0]] + xs[1..];
      assert multiset(xs) == multiset([xs[0]]) + multiset(xs[1..]);
    }
  }

  lemma {:induction false} FilterByAppend<T>(a: seq<T>, b: seq<T>, keep: T -> bool)
    ensures FilterBy(a + b, keep) == FilterBy(a, keep) + FilterBy(b, keep)
  {
    if a != [] {
      FilterByAppend(a[1..], b, keep);
      assert (a + b)[0] == a[0] && (a + b)[1..] == a[1..] + b;
    } else {
      assert a + b == b;
    }
  }

  lemma {:induction false} FilterByAllKept<T>(xs: seq<T>, keep: T -> bool)
    ensures FilterBy(xs, keep) == xs <==> forall i :: 0 <= i < |xs| ==> keep(xs[i])
  {
    if xs != [] {
      FilterByAllKept(xs[1..], keep);
      if !keep(xs[0]) {
        assert |FilterBy(xs, keep)| < |xs|;
      }
      if forall i :: 0 <= i < |xs| ==> keep(xs[i]) {
        assert forall i :: 0 <= i < |xs[1..]| ==> xs[1..][i] == xs[i + 1];
      }
    }
  }

  lemma {:induction false} FilterByEquivalent<T>(xs: seq<T>, k1: T -> bool, k2: T -> bool)
    requires forall i :: 0 <= i < |xs| ==> k1(xs[i]) == k2(xs[i])
    ensures FilterBy(xs, k1) == FilterBy(xs, k2)
  {
    if xs != [] {
      assert forall i :: 0 <= i < |xs[1..]| ==> xs[1..][i] == xs[i + 1];
      FilterByEquivalent(xs[1..], k1, k2);
    }
  }

  /** Filtering the wide result again with a narrower callback is filtering with the
      narrower callback alone. */
  lemma {:induction false} FilterByRefine<T>(xs: seq<T>, narrow: T -> bool, wide: T -> bool)
    requires forall i :: 0 <= i < |xs| && narrow(xs[i]) ==> wide(xs[i])
    ensures FilterBy(FilterBy(xs, wide), narrow) == FilterBy(xs, narrow)
  {
    if xs != [] {
      assert forall i :: 0 <= i < |xs[1..]| ==> xs[1..][i] == xs[i + 1];
      FilterByRefine(xs[1..], narrow, wide);
      var head := if wide(xs[0]) then [xs[0]] else [];
      FilterByAppend(head, FilterBy(xs[1..], wide), narrow);
    }
  }
}
