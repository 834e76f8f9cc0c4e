/** Facts about sequences without repetitions and about keeping the first
    occurrence of every element, which is the key order of a Python dict. */
module Seqs {

  predicate NoDups<T(==)>(xs: seq<T>) {
    forall i, j :: 0 <= i < j < |xs| ==> xs[i] != xs[j]
  }

  /** Position of the first occurrence of `x` in `xs`. */
  function FirstIndex<T(==)>(xs: seq<T>, x: T): (i: nat)
    requires x in xs
    ensures i < |xs| && xs[i] == x && x !in xs[..i]
  {
    if xs[0] == x then 0 else 1 + FirstIndex(xs[1..], x)
  }

  /** Appends to `acc`, in order, every element of `xs` that is not there yet. */
  function AppendNew<T(==)>(acc: seq<T>, xs: seq<T>): seq<T>
    decreases |xs|
  {
    if |xs| == 0 then acc
    else AppendNew(if xs[0] in acc then acc else acc + [xs[0]], xs[1..])
  }

  /** The distinct elements of `xs`, each at the place of its first occurrence. */
  function Dedup<T(==)>(xs: seq<T>): seq<T> {
    AppendNew([], xs)
  }

  /** AppendNew extends `acc` with elements of `xs` that `acc` lacks. */
  lemma {:induction false} AppendNewExtends<T>(acc: seq<T>, xs: seq<T>)
    ensures |AppendNew(acc, xs)| >= |acc|
    ensures AppendNew(acc, xs)[..|acc|] == acc
    ensures forall x :: x in AppendNew(acc, xs) <==> x in acc || x in xs
    ensures forall i :: |acc| <= i < |AppendNew(acc, xs)| ==>
              AppendNew(acc, xs)[i] in xs && AppendNew(acc, xs)[i] !in acc
    decreases |xs|
  {
    if |xs| > 0 {
      var acc' := if xs[0] in acc then acc else acc + [xs[0]];
      AppendNewExtends(acc', xs[1..]);
      assert xs == [xs[0]] + xs[1..];
    }
  }

  /** Without repetitions in `acc`, the result has none, and it is exactly as
      long as `acc + xs` when `acc + xs` itself has none. */
  lemma {:induction false} AppendNewLength<T>(acc: seq<T>, xs: seq<T>)
    requires NoDups(acc)
    ensures NoDups(AppendNew(acc, xs))
    ensures |AppendNew(acc, xs)| <= |acc| + |xs|
    ensures |AppendNew(acc, xs)| == |acc| + |xs| <==> NoDups(acc + xs)
    decreases |xs|
  {
    if |xs| == 0 {
      assert acc + xs == acc;
    } else {
      var x := xs[0];
      assert acc + xs == (acc + [x]) + xs[1..];
      if x in acc {
        AppendNewLength(acc, xs[1..]);
        var i :| 0 <= i < |acc| && acc[i] == x;
        assert (acc + xs)[i] == (acc + xs)[|acc|];
      } else {
        AppendNewLength(acc + [x], xs[1..]);
      }
    }
  }

  /** The elements AppendNew adds come in the order of their first occurrence. */
  lemma {:induction false} AppendNewOrder<T>(acc: seq<T>, xs: seq<T>)
    ensures forall i, j :: |acc| <= i < j < |AppendNew(acc, xs)| ==>
              AppendNew(acc, xs)[i] in xs && AppendNew(acc, xs)[j] in xs &&
              FirstIndex(xs, AppendNew(acc, xs)[i]) < FirstIndex(xs, AppendNew(acc, xs)[j])
    decreases |xs|
  {
    AppendNewExtends(acc, xs);
    if |xs| > 0 {
      var x := xs[0];
      var acc' := if x in acc then acc else acc + [x];
      var r := AppendNew(acc, xs);
      assert r == AppendNew(acc', xs[1..]);
      AppendNewOrder(acc', xs[1..]);
      AppendNewExtends(acc', xs[1..]);
      forall i | |acc'| <= i < |r|
        ensures r[i] != x && FirstIndex(xs, r[i]) == 1 + FirstIndex(xs[1..], r[i])
      {
      }
      if x !in acc {
        assert r[|acc|] == acc'[|acc|] == x;
      }
    }
  }

  /** Dedup keeps one copy of every element, in first-occurrence order, and
      shortens its argument exactly when the argument has a repetition. */
  lemma DedupSpec<T>(xs: seq<T>)
    ensures NoDups(Dedup(xs))
    ensures forall x :: x in Dedup(xs) <==> x in xs
    ensures forall i, j :: 0 <= i < j < |Dedup(xs)| ==>
              FirstIndex(xs, Dedup(xs)[i]) < FirstIndex(xs, Dedup(xs)[j])
    ensures |Dedup(xs)| <= |xs|
    ensures |Dedup(xs)| == |xs| <==> NoDups(xs)
  {
    AppendNewExtends([], xs);
    AppendNewLength([], xs);
    AppendNewOrder([], xs);
    assert [] + xs == xs;
  }

  lemma SliceFrom<T>(xs: seq<T>, j: nat)
    requires j < |xs|
    ensures xs[j..] == [xs[j]] + xs[j + 1..]
    ensures xs[j..][0] == xs[j] && xs[j..][1..] == xs[j + 1..]
  {
  }

  lemma ConcatAssoc<T>(a: seq<T>, b: seq<T>, c: seq<T>)
    ensures (a + b) + c == a + (b + c)
  {
  }

  lemma AppendSliceFrom<T>(prefix: seq<T>, xs: seq<T>, j: nat)
    requires j < |xs|
    ensures prefix + xs[j..] == (prefix + [xs[j]]) + xs[j + 1..]
  {
    SliceFrom(xs, j);
  }

  lemma IndexConcat<T>(a: seq<T>, b: seq<T>, i: nat)
    requires i < |a| + |b|
    ensures i < |a| ==> (a + b)[i] == a[i]
    ensures |a| <= i ==> (a + b)[i] == b[i - |a|]
  {
  }

  lemma NoDupsConcat<T>(a: seq<T>, b: seq<T>)
    ensures NoDups(a + b) <==> NoDups(a) && NoDups(b) && forall x :: x in a ==> x !in b
  {
    if NoDups(a + b) {
      forall i, j | 0 <= i < j < |a| ensures a[i] != a[j] {
        assert (a + b)[i] == a[i] && (a + b)[j] == a[j];
      }
      forall i, j | 0 <= i < j < |b| ensures b[i] != b[j] {
        assert (a + b)[|a| + i] == b[i] && (a + b)[|a| + j] == b[j];
      }
      forall i, j | 0 <= i < |a| && 0 <= j < |b| ensures a[i] != b[j] {
        assert (a + b)[i] == a[i] && (a + b)[|a| + j] == b[j];
      }
    }
    if NoDups(a) && NoDups(b) && forall x :: x in a ==> x !in b {
      forall i, j | 0 <= i < j < |a + b| ensures (a + b)[i] != (a + b)[j] {
        if j < |a| {
        } else if i >= |a| {
          assert (a + b)[i] == b[i - |a|] && (a + b)[j] == b[j - |a|];
        } else {
          assert (a + b)[i] in a && (a + b)[j] in b;
        }
      }
    }
  }
}
