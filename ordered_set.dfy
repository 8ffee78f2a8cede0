/**
  The ordered set of node ids (Rust's `BTreeSet<usize>`), represented by
  its in-order contents: a strictly ascending sequence. `Insert`,
  `PopFirst` and iteration order are the three features of the set that
  the solver relies on.
 */
module OrderedSet {
  import opened Lists

  /** Strictly ascending: in-order contents of an ordered set. */
  predicate Sorted(xs: seq<nat>)
  {
    forall i, j :: 0 <= i < j < |xs| ==> xs[i] < xs[j]
  }

  /** `BTreeSet::insert`: adds `n`, reports whether it was absent. */
  method Insert(xs: seq<nat>, n: nat) returns (ys: seq<nat>, inserted: bool)
    requires Sorted(xs)
    ensures Sorted(ys) && Elems(ys) == Elems(xs) + {n}
    ensures inserted <==> n !in xs
  {
    var k := 0;
    while k < |xs| && xs[k] < n
      invariant 0 <= k <= |xs|
      invariant forall j :: 0 <= j < k ==> xs[j] < n
    {
      k := k + 1;
    }
    if k < |xs| && xs[k] == n {
      ys, inserted := xs, false;
    } else {
      ys, inserted := xs[..k] + [n] + xs[k..], true;
      assert Elems(ys) == Elems(xs) + {n} by {
        assert xs == xs[..k] + xs[k..];
      }
    }
  }

  /**
    `BTreeSet::pop_first`: the least element and the set without it, or
    None for the empty set.
   */
  function PopFirst(xs: seq<nat>): (r: Option<(nat, seq<nat>)>)
    requires Sorted(xs)
    ensures r.None? <==> xs == []
    ensures r.Some? ==> r.value.0 in xs && forall x :: x in xs ==> r.value.0 <= x
    ensures r.Some? ==> Sorted(r.value.1) && Elems(r.value.1) == Elems(xs) - {r.value.0}
  {
    if xs == [] then None else Some((xs[0], xs[1..]))
  }

  /** The least element of a non-empty set of naturals. */
  ghost function SetMin(s: set<nat>): (m: nat)
    requires s != {}
    ensures m in s && forall y :: y in s ==> m <= y
  {
    var x :| x in s;
    if s - {x} == {} then
      assert s == {x};
      x
    else
      var m := SetMin(s - {x});
      assert forall y :: y in s ==> y == x || y in s - {x};
      if x < m then x else m
  }

  /** The in-order contents of a set: its elements in ascending order. */
  ghost function AscendingOf(s: set<nat>): (xs: seq<nat>)
    ensures Sorted(xs) && Elems(xs) == s
    decreases s
  {
    if s == {} then []
    else
      var m := SetMin(s);
      var rest := AscendingOf(s - {m});
      assert forall j :: 0 <= j < |rest| ==> m < rest[j] by {
        forall j | 0 <= j < |rest| ensures m < rest[j] {
          assert rest[j] in Elems(rest);
        }
      }
      assert Elems([m] + rest) == {m} + Elems(rest);
      [m] + rest
  }

  /** Only the empty sequence has no elements. */
  lemma ElemsEmpty(xs: seq<nat>)
    ensures Elems(xs) == {} <==> xs == []
  {
    if xs != [] {
      assert xs[0] in Elems(xs);
    }
  }

  /** Strictly ascending sequences with the same elements are equal. */
  lemma {:induction false} SortedUnique(xs: seq<nat>, ys: seq<nat>)
    requires Sorted(xs) && Sorted(ys) && Elems(xs) == Elems(ys)
    ensures xs == ys
  {
    ElemsEmpty(xs);
    ElemsEmpty(ys);
    if xs != [] && ys != [] {
      // PopFirst states that the head is the least element and the tail holds the rest.
      var (x0, xt) := PopFirst(xs).value;
      var (y0, yt) := PopFirst(ys).value;
      assert x0 == y0 by {
        assert x0 in Elems(ys) && y0 in Elems(xs);
      }
      SortedUnique(xt, yt);
      assert xs == [x0] + xt && ys == [y0] + yt;
    }
  }

  /** The members of `s` below `n`. */
  function Below(s: set<nat>, n: nat): set<nat>
  {
    set x | x in s && x < n
  }

  /** How many members of `s` are below `n`: the rank of `n` in `s`. */
  function Rank(s: set<nat>, n: nat): nat
  {
    |Below(s, n)|
  }

  /** The members of an ordered set below its k-th element are the first k. */
  lemma BelowIsPrefix(xs: seq<nat>, k: nat)
    requires Sorted(xs) && k < |xs|
    ensures Below(Elems(xs), xs[k]) == Elems(xs[..k])
  {
    forall x | x in Elems(xs) && x < xs[k] ensures x in Elems(xs[..k]) {
      var i :| 0 <= i < |xs| && xs[i] == x;
      assert i < k;
      assert xs[..k][i] == x;
    }
    forall x | x in Elems(xs[..k]) ensures x in Elems(xs) && x < xs[k] {
      var i :| 0 <= i < k && xs[..k][i] == x;
      assert xs[i] == x;
    }
  }

  /** The k-th element of an ordered set has rank k. */
  lemma RankOfElement(xs: seq<nat>, k: nat)
    requires Sorted(xs) && k < |xs|
    ensures Rank(Elems(xs), xs[k]) == k
  {
    BelowIsPrefix(xs, k);
    assert Distinct(xs[..k]);
    DistinctCard(xs[..k]);
  }

  /**
    Iterating an ordered set visits it in ascending order, so the position
    at which a linear search finds a member is that member's rank.
   */
  lemma PositionIsRank(xs: seq<nat>, n: nat)
    requires Sorted(xs)
    ensures IndexOf(xs, n).Some? <==> n in Elems(xs)
    ensures n in Elems(xs) ==> IndexOf(xs, n) == Some(Rank(Elems(xs), n))
  {
    if n in xs {
      var k :| 0 <= k < |xs| && xs[k] == n;
      IndexOfDistinct(xs, k);
      RankOfElement(xs, k);
    }
  }
}
