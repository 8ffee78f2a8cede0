/**
  Sequences used as lists: membership, distinctness and the linear search
  that both versions of the solver use to turn a node id into a row index
  (`Iterator::position` in Rust, `list.index` in Python).
 */
module Lists {

  datatype Option<+T> = None | Some(value: T)

  /** The set of the elements of `xs`. */
  function Elems<T>(xs: seq<T>): set<T>
  {
    set x | x in xs
  }

  /** The elements of a two-element list. */
  lemma ElemsPair<T>(a: T, b: T)
    ensures Elems([a, b]) == {a, b}
  {
    assert a in [a, b] && b in [a, b];
  }

  /** No element occurs twice. */
  predicate Distinct<T(==)>(xs: seq<T>)
  {
    forall i, j :: 0 <= i < j < |xs| ==> xs[i] != xs[j]
  }

  /**
    Index of the first occurrence of `n` in `xs`, or None when `n` does not
    occur at all.
   */
  function IndexOf<T(==)>(xs: seq<T>, n: T): (r: Option<nat>)
    ensures r.None? <==> n !in xs
    ensures r.Some? ==> r.value < |xs| && xs[r.value] == n
    ensures r.Some? ==> forall j :: 0 <= j < r.value ==> xs[j] != n
  {
    if xs == [] then None
    else if xs[0] == n then Some(0)
    else match IndexOf(xs[1..], n)
      case None => None
      case Some(k) => Some(k + 1)
  }

  /** In a list without repetitions, the index of an element is its position. */
  lemma IndexOfDistinct<T>(xs: seq<T>, k: nat)
    requires Distinct(xs) && k < |xs|
    ensures IndexOf(xs, xs[k]) == Some(k)
  {
  }

  /** A list without repetitions has as many elements as its set. */
  lemma {:induction false} DistinctCard<T>(xs: seq<T>)
    requires Distinct(xs)
    ensures |Elems(xs)| == |xs|
  {
    if xs != [] {
      var t := xs[1..];
      DistinctCard(t);
      assert Elems(xs) == Elems(t) + {xs[0]};
      assert xs[0] !in Elems(t);
    }
  }

  /** The sum of `w` over the list, taken from the last element back. */
  function SumOf<T>(xs: seq<T>, w: T -> real): real
  {
    if xs == [] then 0.0 else SumOf(xs[..|xs| - 1], w) + w(xs[|xs| - 1])
  }

  /** Appending one term adds its value. */
  lemma SumOfSnoc<T>(xs: seq<T>, x: T, w: T -> real)
    ensures SumOf(xs + [x], w) == SumOf(xs, w) + w(x)
  {
    assert (xs + [x])[..|xs|] == xs;
  }

  /** A sum over a concatenation is the sum of the two sums. */
  lemma {:induction false} SumOfAppend<T>(xs: seq<T>, ys: seq<T>, w: T -> real)
    ensures SumOf(xs + ys, w) == SumOf(xs, w) + SumOf(ys, w)
  {
    if ys == [] {
      assert xs + ys == xs;
    } else {
      assert (xs + ys)[..|xs + ys| - 1] == xs + ys[..|ys| - 1];
      SumOfAppend(xs, ys[..|ys| - 1], w);
    }
  }

  /** A sum does not depend on the order of its terms. */
  lemma {:induction false} SumOfPermutation<T>(xs: seq<T>, ys: seq<T>, w: T -> real)
    requires multiset(xs) == multiset(ys)
    ensures SumOf(xs, w) == SumOf(ys, w)
    decreases |xs|
  {
    if xs == [] {
      assert |ys| == |multiset(ys)| == 0;
    } else {
      var n := |xs| - 1;
      var x := xs[n];
      assert xs == xs[..n] + [x];
      assert x in multiset(ys);
      var j :| 0 <= j < |ys| && ys[j] == x;
      var rest := ys[..j] + ys[j + 1..];
      assert ys == ys[..j] + [x] + ys[j + 1..];
      assert multiset(xs[..n]) == multiset(rest) by {
        calc {
          multiset(xs[..n]) + multiset{x};
          multiset(xs);
          multiset(ys);
          multiset(ys[..j]) + multiset{x} + multiset(ys[j + 1..]);
          multiset(rest) + multiset{x};
        }
        assert multiset(xs[..n]) == multiset(xs[..n]) + multiset{x} - multiset{x};
        assert multiset(rest) == multiset(rest) + multiset{x} - multiset{x};
      }
      SumOfPermutation(xs[..n], rest, w);
      SumOfAppend(ys[..j] + [x], ys[j + 1..], w);
      SumOfAppend(ys[..j], [x], w);
      SumOfAppend(ys[..j], ys[j + 1..], w);
      assert SumOf([x], w) == w(x) by {
        assert [x][..0] == [];
      }
    }
  }

  /** The sum of `f(j) * x[j]` over the first `n` indices: a row applied to a vector. */
  function Dot(f: nat -> real, x: seq<real>, n: nat): real
    requires n <= |x|
  {
    if n == 0 then 0.0 else Dot(f, x, n - 1) + f(n - 1) * x[n - 1]
  }

  /** A row that is the sum of two rows gives the sum of their products. */
  lemma {:induction false} DotAdd(f: nat -> real, g: nat -> real, h: nat -> real, x: seq<real>, n: nat)
    requires n <= |x|
    requires forall j :: 0 <= j < n ==> h(j) == f(j) + g(j)
    ensures Dot(h, x, n) == Dot(f, x, n) + Dot(g, x, n)
  {
    if n > 0 {
      DotAdd(f, g, h, x, n - 1);
      var a, b, c := f(n - 1), g(n - 1), x[n - 1];
      assert (a + b) * c == a * c + b * c;
    }
  }

  /** A zero row gives 0. */
  lemma {:induction false} DotZero(f: nat -> real, x: seq<real>, n: nat)
    requires n <= |x|
    requires forall j :: 0 <= j < n ==> f(j) == 0.0
    ensures Dot(f, x, n) == 0.0
  {
    if n > 0 {
      DotZero(f, x, n - 1);
    }
  }
}
