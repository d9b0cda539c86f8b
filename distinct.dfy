/**
 Keeping the first occurrence of each element of a sequence, in order: what
 appending to a list guarded by a "seen" map builds.
 */
module Distinct {

  predicate NoDuplicates<T(==)>(xs: seq<T>)
  {
    forall i, j :: 0 <= i < j < |xs| ==> xs[i] != xs[j]
  }

  /** The position of the first occurrence of `x` in `xs`, or `|xs|` when there is none. */
  function FirstIndex<T(==)>(xs: seq<T>, x: T): (r: nat)
    ensures r <= |xs|
    ensures r < |xs| <==> x in xs
    ensures r < |xs| ==> xs[r] == x
    ensures forall j :: 0 <= j < r ==> xs[j] != x
    decreases |xs|
  {
    if xs == [] then 0
    else if xs[0] == x then 0
    else
      var r := 1 + FirstIndex(xs[1..], x);
      assert forall j :: 1 <= j < |xs| ==> xs[j] == xs[1..][j - 1];
      r
  }

  /** The elements of `xs`, each once, in the order of their first occurrence. */
  function Dedup<T(==)>(xs: seq<T>): seq<T>
    decreases |xs|
  {
    if xs == [] then []
    else
      var d := Dedup(xs[..|xs| - 1]);
      if xs[|xs| - 1] in d then d else d + [xs[|xs| - 1]]
  }

  /** Appending one element: it is kept if it is new and dropped if it was seen before. */
  lemma DedupAppend<T>(xs: seq<T>, x: T)
    ensures Dedup(xs + [x]) == if x in Dedup(xs) then Dedup(xs) else Dedup(xs) + [x]
  {
    assert (xs + [x])[..|xs|] == xs;
  }

  /** `Dedup` keeps exactly the elements of `xs` and repeats none of them. */
  lemma {:induction false} DedupElements<T>(xs: seq<T>)
    ensures forall x :: x in Dedup(xs) <==> x in xs
    ensures NoDuplicates(Dedup(xs))
    decreases |xs|
  {
    if xs != [] {
      var init := xs[..|xs| - 1];
      DedupElements(init);
      assert xs == init + [xs[|xs| - 1]];
    }
  }

  /** In a sequence without repeats every element occurs exactly once. */
  lemma {:induction false} NoDuplicatesCount<T>(xs: seq<T>, x: T)
    requires NoDuplicates(xs)
    ensures multiset(xs)[x] == if x in xs then 1 else 0
    decreases |xs|
  {
    if xs != [] {
      var tail := xs[1..];
      assert xs == [xs[0]] + tail;
      assert NoDuplicates(tail) by {
        forall i, j | 0 <= i < j < |tail| ensures tail[i] != tail[j] {
          assert tail[i] == xs[i + 1] && tail[j] == xs[j + 1];
        }
      }
      NoDuplicatesCount(tail, x);
      if x == xs[0] {
        assert x !in tail by {
          forall j | 0 <= j < |tail| ensures tail[j] != x {
            assert tail[j] == xs[j + 1];
          }
        }
      }
    }
  }

  /** Every element of `xs` occurs exactly once in `Dedup(xs)`, and nothing else does. */
  lemma DedupCount<T>(xs: seq<T>, x: T)
    ensures multiset(Dedup(xs))[x] == if x in xs then 1 else 0
  {
    DedupElements(xs);
    NoDuplicatesCount(Dedup(xs), x);
  }

  /** Appending an element does not move the first occurrence of anything already present. */
  lemma FirstIndexAppend<T>(xs: seq<T>, y: T, x: T)
    ensures FirstIndex(xs + [y], x) == if x in xs then FirstIndex(xs, x) else if x == y then |xs| else |xs| + 1
  {
    var r := FirstIndex(xs + [y], x);
    var r0 := FirstIndex(xs, x);
    if x in xs {
      assert (xs + [y])[r0] == x;
    } else if x == y {
      assert (xs + [y])[|xs|] == x;
    } else {
      assert x !in xs + [y];
    }
  }

  /** `d` lists its elements in the order of their first occurrence in `xs`. */
  predicate InFirstOccurrenceOrder<T(==)>(d: seq<T>, xs: seq<T>)
  {
    forall i, j :: 0 <= i < |d| && 0 <= j < |d| ==>
      (i < j <==> FirstIndex(xs, d[i]) < FirstIndex(xs, d[j]))
  }

  lemma DedupMember<T>(xs: seq<T>, k: nat)
    requires k < |Dedup(xs)|
    ensures Dedup(xs)[k] in xs
  {
    DedupHas(xs, Dedup(xs)[k]);
  }

  lemma DedupHas<T>(xs: seq<T>, x: T)
    ensures x in Dedup(xs) <==> x in xs
  {
    DedupElements(xs);
  }

  /** Renumbering the first occurrences without changing their order keeps the order. */
  lemma OrderTransfer<T>(d0: seq<T>, xs0: seq<T>, d: seq<T>, xs: seq<T>)
    requires InFirstOccurrenceOrder(d0, xs0) && |d| == |d0|
    requires forall k :: 0 <= k < |d| ==> FirstIndex(xs, d[k]) == FirstIndex(xs0, d0[k])
    ensures InFirstOccurrenceOrder(d, xs)
  {
  }

  /** An element whose first occurrence comes after all others can be listed last. */
  lemma OrderExtend<T>(d0: seq<T>, xs0: seq<T>, d: seq<T>, xs: seq<T>, last: T)
    requires InFirstOccurrenceOrder(d0, xs0) && d == d0 + [last]
    requires forall k :: 0 <= k < |d0| ==> FirstIndex(xs, d[k]) == FirstIndex(xs0, d0[k]) < FirstIndex(xs, last)
    ensures InFirstOccurrenceOrder(d, xs)
  {
    assert d[|d0|] == last;
  }

  lemma DedupOrderAppend<T>(init: seq<T>, last: T)
    requires InFirstOccurrenceOrder(Dedup(init), init)
    ensures InFirstOccurrenceOrder(Dedup(init + [last]), init + [last])
  {
    var xs := init + [last];
    var d0 := Dedup(init);
    var d := Dedup(xs);
    assert xs[..|xs| - 1] == init;
    DedupHas(init, last);
    if last in d0 {
      forall k | 0 <= k < |d| ensures FirstIndex(xs, d[k]) == FirstIndex(init, d0[k]) {
        DedupMember(init, k);
        FirstIndexAppend(init, last, d0[k]);
      }
      OrderTransfer(d0, init, d, xs);
    } else {
      assert d == d0 + [last];
      FirstIndexAppend(init, last, last);
      forall k | 0 <= k < |d0|
        ensures FirstIndex(xs, d[k]) == FirstIndex(init, d0[k]) < FirstIndex(xs, last)
      {
        assert d[k] == d0[k];
        DedupMember(init, k);
        FirstIndexAppend(init, last, d0[k]);
      }
      OrderExtend(d0, init, d, xs, last);
    }
  }

  /** `Dedup` lists the elements in the order of their first occurrence in `xs`. */
  lemma {:induction false} DedupOrder<T>(xs: seq<T>)
    ensures InFirstOccurrenceOrder(Dedup(xs), xs)
    decreases |xs|
  {
    if xs != [] {
      var init := xs[..|xs| - 1];
      DedupOrder(init);
      DedupOrderAppend(init, xs[|xs| - 1]);
      assert xs == init + [xs[|xs| - 1]];
    }
  }

  /** A sequence without repeats is its own `Dedup`. */
  lemma {:induction false} DedupOfDistinct<T>(xs: seq<T>)
    requires NoDuplicates(xs)
    ensures Dedup(xs) == xs
    decreases |xs|
  {
    if xs != [] {
      var init := xs[..|xs| - 1];
      var last := xs[|xs| - 1];
      assert NoDuplicates(init);
      DedupOfDistinct(init);
      assert last !in init by {
        forall j | 0 <= j < |init| ensures init[j] != last {
          assert init[j] == xs[j];
        }
      }
      assert xs == init + [last];
    }
  }

  /** Removing repeats twice is the same as removing them once. */
  lemma DedupIdempotent<T>(xs: seq<T>)
    ensures Dedup(Dedup(xs)) == Dedup(xs)
  {
    DedupElements(xs);
    DedupOfDistinct(Dedup(xs));
  }

}
