/** Order-preserving subsequences, used to state what filtering loops keep. */
module Seqs {
  import opened Wrappers

  /** `a` can be obtained from `b` by deleting elements, without reordering. */
  predicate Subsequence<T(==)>(a: seq<T>, b: seq<T>)
    decreases |b|
  {
    if a == [] then true
    else if b == [] then false
    else if a[0] == b[0] then Subsequence(a[1..], b[1..])
    else Subsequence(a, b[1..])
  }

  /** Putting an extra element in front of the larger sequence keeps a subsequence a subsequence. */
  lemma {:induction false} SubsequenceSkip<T>(a: seq<T>, b: seq<T>, x: T)
    requires Subsequence(a, b)
    ensures Subsequence(a, [x] + b)
    decreases |b|, 1
  {
    if a != [] && a[0] == x {
      assert ([x] + b)[1..] == b;
      SubsequenceDrop(a, b);
    } else {
      assert ([x] + b)[1..] == b;
    }
  }

  /** A subsequence with its head removed is still a subsequence. */
  lemma {:induction false} SubsequenceDrop<T>(a: seq<T>, b: seq<T>)
    requires a != [] && Subsequence(a, b)
    ensures Subsequence(a[1..], b)
    decreases |b|, 0
  {
    if b != [] {
      if a[0] == b[0] {
        SubsequenceSkip(a[1..], b[1..], b[0]);
        assert [b[0]] + b[1..] == b;
      } else {
        SubsequenceDrop(a, b[1..]);
        SubsequenceSkip(a[1..], b[1..], b[0]);
        assert [b[0]] + b[1..] == b;
      }
    }
  }

  /** Extending both sides by the same element at the end. */
  lemma {:induction false} SubsequenceSnoc<T>(a: seq<T>, b: seq<T>, x: T)
    requires Subsequence(a, b)
    ensures Subsequence(a + [x], b + [x])
    decreases |b|
  {
    if a == [] {
      assert a + [x] == [x];
      SubsequenceOfSelfEnd(b, x);
    } else {
      assert b != [];
      assert (a + [x])[0] == a[0] && (a + [x])[1..] == a[1..] + [x];
      assert (b + [x])[0] == b[0] && (b + [x])[1..] == b[1..] + [x];
      if a[0] == b[0] {
        SubsequenceSnoc(a[1..], b[1..], x);
      } else {
        SubsequenceSnoc(a, b[1..], x);
      }
    }
  }

  /** `[x]` is a subsequence of any sequence ending in `x`. */
  lemma {:induction false} SubsequenceOfSelfEnd<T>(b: seq<T>, x: T)
    ensures Subsequence([x], b + [x])
    decreases |b|
  {
    if b != [] {
      assert (b + [x])[1..] == b[1..] + [x];
      SubsequenceOfSelfEnd(b[1..], x);
    }
  }

  /** Extending only the larger side at the end. */
  lemma {:induction false} SubsequenceExtend<T>(a: seq<T>, b: seq<T>, x: T)
    requires Subsequence(a, b)
    ensures Subsequence(a, b + [x])
    decreases |b|
  {
    if a != [] {
      assert b != [];
      assert (b + [x])[0] == b[0] && (b + [x])[1..] == b[1..] + [x];
      if a[0] == b[0] {
        SubsequenceExtend(a[1..], b[1..], x);
      } else {
        SubsequenceExtend(a, b[1..], x);
      }
    }
  }

  /** Every element of a subsequence is an element of the sequence it was taken from. */
  lemma {:induction false} SubsequenceMembers<T>(a: seq<T>, b: seq<T>)
    requires Subsequence(a, b)
    ensures forall x :: x in a ==> x in b
    decreases |b|
  {
    if a != [] && b != [] {
      if a[0] == b[0] {
        SubsequenceMembers(a[1..], b[1..]);
        assert a == [a[0]] + a[1..];
      } else {
        SubsequenceMembers(a, b[1..]);
      }
    }
  }

  /** A prefix one longer is the prefix and the next element. */
  lemma TakeSnoc<T>(xs: seq<T>, i: nat)
    requires i < |xs|
    ensures xs[..i + 1] == xs[..i] + [xs[i]]
  {
  }

  /** The images under `f` of the elements it maps to a value, in order: a loop that appends what it keeps. */
  function FilterMap<A, B>(xs: seq<A>, f: A -> Option<B>): (ys: seq<B>)
    ensures |ys| <= |xs|
  {
    if xs == [] then []
    else
      var last := f(xs[|xs| - 1]);
      FilterMap(xs[..|xs| - 1], f) + (if last.Some? then [last.value] else [])
  }

  /** One more loop iteration: the element at `i` is mapped and kept if `f` gives a value. */
  lemma FilterMapSnoc<A, B>(xs: seq<A>, f: A -> Option<B>, i: nat)
    requires i < |xs|
    ensures FilterMap(xs[..i + 1], f) == FilterMap(xs[..i], f) + (if f(xs[i]).Some? then [f(xs[i]).value] else [])
  {
    assert xs[..i + 1][..i] == xs[..i];
  }

  /** Exactly the values `f` gives for some element are kept. */
  lemma {:induction false} FilterMapExactly<A, B>(xs: seq<A>, f: A -> Option<B>, y: B)
    ensures y in FilterMap(xs, f) <==> exists i :: 0 <= i < |xs| && f(xs[i]) == Some(y)
  {
    if xs != [] {
      var n := |xs| - 1;
      FilterMapExactly(xs[..n], f, y);
      if y in FilterMap(xs, f) && f(xs[n]) != Some(y) {
        var i :| 0 <= i < n && f(xs[..n][i]) == Some(y);
        assert xs[i] == xs[..n][i];
      }
      if exists i :: 0 <= i < |xs| && f(xs[i]) == Some(y) {
        var i :| 0 <= i < |xs| && f(xs[i]) == Some(y);
        if i < n {
          assert xs[..n][i] == xs[i];
        }
      }
    }
  }

  /** Mapping two elements keeps the value of each that `f` maps to one, in order. */
  lemma FilterMapPair<A, B>(x: A, y: A, f: A -> Option<B>)
    ensures FilterMap([x, y], f) ==
      (if f(x).Some? then [f(x).value] else []) + (if f(y).Some? then [f(y).value] else [])
  {
    assert [x, y][..1] == [x];
    assert [x][..0] == [];
  }

  /** Mapping a concatenation maps each part. */
  lemma {:induction false} FilterMapAppend<A, B>(xs: seq<A>, zs: seq<A>, f: A -> Option<B>)
    ensures FilterMap(xs + zs, f) == FilterMap(xs, f) + FilterMap(zs, f)
    decreases |zs|
  {
    if zs == [] {
      assert xs + zs == xs;
    } else {
      var n := |zs| - 1;
      assert (xs + zs)[..|xs + zs| - 1] == xs + zs[..n];
      FilterMapAppend(xs, zs[..n], f);
    }
  }

  /** Mapping a sequence maps its prefix and its suffix, wherever it is cut. */
  lemma FilterMapSplit<A, B>(xs: seq<A>, f: A -> Option<B>)
    ensures forall k :: 0 <= k <= |xs| ==> FilterMap(xs, f) == FilterMap(xs[..k], f) + FilterMap(xs[k..], f)
  {
    forall k | 0 <= k <= |xs|
      ensures FilterMap(xs, f) == FilterMap(xs[..k], f) + FilterMap(xs[k..], f)
    {
      assert xs == xs[..k] + xs[k..];
      FilterMapAppend(xs[..k], xs[k..], f);
    }
  }
}
