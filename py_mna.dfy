/**
  The DC solver of `circuit.py`: `solve_DC` up to the block matrix handed
  to `np.linalg.solve`.

  Resistors, voltage sources and current sources come in three separate
  lists of triples. The node set is a Python `set`, its reference node is
  whichever member iteration yields first, and a node's row is its
  position in `list(nodes)`; both depend on the interpreter's set order,
  so the model takes the reference as an arbitrary member and the row
  order as an arbitrary listing of the remaining nodes, fixed once per
  call. G is sized by the number of non-reference nodes, so every write
  is in bounds.
 */
module PyMna {
  import opened Lists
  import opened Stamps
  import Blocks

  /** A resistance: `1/R` raises `ZeroDivisionError` for 0, any other int is accepted. */
  type NonZero = x: int | x != 0 witness 1

  /** A resistor triple `(n1, n2, R)`. */
  datatype Resistor = Resistor(n1: int, n2: int, r: NonZero)

  /** A source triple `(n_neg, n_pos, value)`: a voltage `V` or a current `I`. */
  datatype Source = Source(neg: int, pos: int, value: int)

  /** `G = 1/R`: the conductance, the inverse of the resistance. */
  function Conductance(r: NonZero): (g: real)
    ensures g * (r as real) == 1.0
    ensures g > 0.0 <==> r > 0
  {
    1.0 / (r as real)
  }

  // ---------------------------------------------------------------------
  // The node set

  /** Both terminals of every resistor. */
  function ResistorNodes(rs: seq<Resistor>): set<int>
  {
    if rs == [] then {} else ResistorNodes(rs[..|rs| - 1]) + {rs[|rs| - 1].n1, rs[|rs| - 1].n2}
  }

  /** Both terminals of every source. */
  function SourceNodes(ss: seq<Source>): set<int>
  {
    if ss == [] then {} else SourceNodes(ss[..|ss| - 1]) + {ss[|ss| - 1].neg, ss[|ss| - 1].pos}
  }

  /** Every terminal of every element. */
  function AllNodes(rs: seq<Resistor>, vs: seq<Source>, cs: seq<Source>): set<int>
  {
    ResistorNodes(rs) + SourceNodes(vs) + SourceNodes(cs)
  }

  /** A node is collected exactly when it is a terminal of some resistor. */
  lemma {:induction false} ResistorNodesMembers(rs: seq<Resistor>, n: int)
    ensures n in ResistorNodes(rs) <==> exists k :: 0 <= k < |rs| && (rs[k].n1 == n || rs[k].n2 == n)
  {
    if rs != [] {
      var init, last := rs[..|rs| - 1], |rs| - 1;
      ResistorNodesMembers(init, n);
      assert forall k :: 0 <= k < |init| ==> init[k] == rs[k];
      if rs[last].n1 == n || rs[last].n2 == n {
        assert 0 <= last < |rs| && (rs[last].n1 == n || rs[last].n2 == n);
      }
    }
  }

  /** A node is collected exactly when it is a terminal of some source. */
  lemma {:induction false} SourceNodesMembers(ss: seq<Source>, n: int)
    ensures n in SourceNodes(ss) <==> exists k :: 0 <= k < |ss| && (ss[k].neg == n || ss[k].pos == n)
  {
    if ss != [] {
      var init, last := ss[..|ss| - 1], |ss| - 1;
      SourceNodesMembers(init, n);
      assert forall k :: 0 <= k < |init| ==> init[k] == ss[k];
      if ss[last].neg == n || ss[last].pos == n {
        assert 0 <= last < |ss| && (ss[last].neg == n || ss[last].pos == n);
      }
    }
  }

  /** There is no node exactly when all three lists are empty: the case where `next` raises. */
  lemma AllNodesEmpty(rs: seq<Resistor>, vs: seq<Source>, cs: seq<Source>)
    ensures AllNodes(rs, vs, cs) == {} <==> rs == [] && vs == [] && cs == []
  {
    if rs != [] {
      assert rs[|rs| - 1].n1 in ResistorNodes(rs);
    } else if vs != [] {
      assert vs[|vs| - 1].neg in SourceNodes(vs);
    } else if cs != [] {
      assert cs[|cs| - 1].neg in SourceNodes(cs);
    }
  }

  /**
    Lines 9-18: three loops add both terminals of every resistor, voltage
    source and current source to a set.
   */
  method CollectNodes(resistors: seq<Resistor>, vSources: seq<Source>, iSources: seq<Source>)
    returns (nodes: set<int>)
    ensures nodes == AllNodes(resistors, vSources, iSources)
  {
    nodes := {};
    for k := 0 to |resistors|
      invariant nodes == ResistorNodes(resistors[..k])
    {
      assert resistors[..k + 1][..k] == resistors[..k];
      nodes := nodes + {resistors[k].n1, resistors[k].n2};
    }
    assert resistors[..|resistors|] == resistors;
    for k := 0 to |vSources|
      invariant nodes == ResistorNodes(resistors) + SourceNodes(vSources[..k])
    {
      assert vSources[..k + 1][..k] == vSources[..k];
      nodes := nodes + {vSources[k].neg, vSources[k].pos};
    }
    assert vSources[..|vSources|] == vSources;
    for k := 0 to |iSources|
      invariant nodes == ResistorNodes(resistors) + SourceNodes(vSources) + SourceNodes(iSources[..k])
    {
      assert iSources[..k + 1][..k] == iSources[..k];
      nodes := nodes + {iSources[k].neg, iSources[k].pos};
    }
    assert iSources[..|iSources|] == iSources;
  }

  /**
    Lines 20-21: `next(iter(nodes))` picks some member, which is then
    removed. Which member depends on the set's iteration order, so any
    member may be chosen.
   */
  method SelectReference(nodes: set<int>) returns (refNode: int, rest: set<int>)
    requires nodes != {}
    ensures refNode in nodes && rest == nodes - {refNode}
  {
    Member(nodes);
    refNode :| refNode in nodes;
    rest := nodes - {refNode};
  }

  /** A set is empty or has a member. */
  lemma Member(s: set<int>)
    ensures s == {} || exists n :: n in s
  {
    if forall n :: n !in s {
      assert s == {};
    }
  }

  /**
    `list(nodes)`: the members of the set, each once, in the set's
    iteration order (any order).
   */
  method ListOf(nodes: set<int>) returns (order: seq<int>)
    ensures Distinct(order) && Elems(order) == nodes
    ensures |order| == |nodes|
  {
    order := [];
    var rest := nodes;
    while rest != {}
      invariant Distinct(order) && Elems(order) + rest == nodes && Elems(order) !! rest
      decreases rest
    {
      Member(rest);
      var n :| n in rest;
      assert Elems(order + [n]) == Elems(order) + {n};
      order := order + [n];
      rest := rest - {n};
    }
    DistinctCard(order);
  }

  // ---------------------------------------------------------------------
  // Node indices

  /** A terminal that `node_idx` can look up: the reference node or a listed node. */
  predicate Covered(order: seq<int>, refNode: int, n: int)
  {
    n == refNode || n in order
  }

  /** Every terminal of the resistors can be looked up. */
  predicate ResistorsCovered(rs: seq<Resistor>, order: seq<int>, refNode: int)
  {
    forall k :: 0 <= k < |rs| ==> Covered(order, refNode, rs[k].n1) && Covered(order, refNode, rs[k].n2)
  }

  /** Every terminal of the sources can be looked up. */
  predicate SourcesCovered(ss: seq<Source>, order: seq<int>, refNode: int)
  {
    forall k :: 0 <= k < |ss| ==> Covered(order, refNode, ss[k].neg) && Covered(order, refNode, ss[k].pos)
  }

  /**
    The `node_idx` lambda: -1 for the reference node, otherwise the
    position of `n` in the listing (`list.index` raises for any other
    node, which is why `n` must be covered).
   */
  function NodeIdx(order: seq<int>, refNode: int, n: int): (idx: int)
    requires Covered(order, refNode, n)
    ensures idx == -1 <==> n == refNode
    ensures idx != -1 ==> 0 <= idx < |order| && order[idx] == n
  {
    if n != refNode then IndexOf(order, n).value else -1
  }

  /** The row of a terminal, None for the reference node (and for a node that is not listed). */
  function Row(order: seq<int>, refNode: int, n: int): (p: Option<nat>)
    ensures p.None? <==> n == refNode || n !in order
    ensures p.Some? ==> p.value < |order| && order[p.value] == n
  {
    if n == refNode then None else IndexOf(order, n)
  }

  /** `node_idx` agrees with `Row` on every covered terminal. */
  lemma NodeIdxIsRow(order: seq<int>, refNode: int, n: int)
    requires Covered(order, refNode, n)
    ensures NodeIdx(order, refNode, n) == -1 ==> Row(order, refNode, n).None?
    ensures NodeIdx(order, refNode, n) != -1 ==> Row(order, refNode, n) == Some(NodeIdx(order, refNode, n))
  {
  }

  /**
    When the reference node is not listed and the listing has no
    repetitions, `node_idx` is a bijection from the non-reference nodes
    onto 0 .. n_n - 1: position i belongs to `order[i]` and to no other
    node.
   */
  lemma NodeIdxBijective(order: seq<int>, refNode: int, i: nat, n: int)
    requires Distinct(order) && refNode !in order && i < |order|
    requires Covered(order, refNode, n)
    ensures NodeIdx(order, refNode, order[i]) == i
    ensures NodeIdx(order, refNode, n) == i <==> n == order[i]
  {
    IndexOfDistinct(order, i);
  }

  /**
    With the reference removed from the node set and the rest listed,
    every terminal of every element can be looked up.
   */
  lemma TerminalsCovered(rs: seq<Resistor>, vs: seq<Source>, cs: seq<Source>, order: seq<int>, refNode: int)
    requires Elems(order) == AllNodes(rs, vs, cs) - {refNode}
    ensures ResistorsCovered(rs, order, refNode)
    ensures SourcesCovered(vs, order, refNode) && SourcesCovered(cs, order, refNode)
  {
    forall n | n in AllNodes(rs, vs, cs) ensures Covered(order, refNode, n) {
      assert n == refNode || n in Elems(order);
    }
    forall k | 0 <= k < |rs| ensures Covered(order, refNode, rs[k].n1) && Covered(order, refNode, rs[k].n2) {
      ResistorNodesMembers(rs, rs[k].n1);
      ResistorNodesMembers(rs, rs[k].n2);
    }
    forall k | 0 <= k < |vs| ensures Covered(order, refNode, vs[k].neg) && Covered(order, refNode, vs[k].pos) {
      SourceNodesMembers(vs, vs[k].neg);
      SourceNodesMembers(vs, vs[k].pos);
    }
    forall k | 0 <= k < |cs| ensures Covered(order, refNode, cs[k].neg) && Covered(order, refNode, cs[k].pos) {
      SourceNodesMembers(cs, cs[k].neg);
      SourceNodesMembers(cs, cs[k].pos);
    }
  }

  // ---------------------------------------------------------------------
  // What the three loops write

  /** What one resistor adds to entry (i, j) of G. */
  function GStamp(rr: Resistor, order: seq<int>, refNode: int, i: nat, j: nat): real
  {
    ResistorStamp(Row(order, refNode, rr.n1), Row(order, refNode, rr.n2), Conductance(rr.r), i, j)
  }

  /** Entry (i, j) of each resistor's stamp, as a function of the resistor. */
  function GWeight(order: seq<int>, refNode: int, i: nat, j: nat): Resistor -> real
  {
    (rr: Resistor) => GStamp(rr, order, refNode, i, j)
  }

  /** Entry (i, j) of G after the resistor loop: the sum of the resistor stamps. */
  function GSpec(rs: seq<Resistor>, order: seq<int>, refNode: int, i: nat, j: nat): real
  {
    SumOf(rs, GWeight(order, refNode, i, j))
  }

  /** Entry (i, k) of B: column k belongs to voltage source k. */
  function BSpec(vs: seq<Source>, order: seq<int>, refNode: int, i: nat, k: nat): real
    requires k < |vs|
  {
    VSourceStamp(Row(order, refNode, vs[k].neg), Row(order, refNode, vs[k].pos), i)
  }

  /**
    Node row r of z after the current-source loop: the last write wins.
    A current source ASSIGNS `-I` at its negative row and then `I` at its
    positive row.
   */
  function ISpec(cs: seq<Source>, order: seq<int>, refNode: int, r: nat): real
  {
    if cs == [] then 0.0
    else
      var s := cs[|cs| - 1];
      if Row(order, refNode, s.pos) == Some(r) then s.value as real
      else if Row(order, refNode, s.neg) == Some(r) then -(s.value as real)
      else ISpec(cs[..|cs| - 1], order, refNode, r)
  }

  // ---------------------------------------------------------------------
  // The resistor loop (lines 46-60)

  /** One iteration of the resistor loop. */
  method StampResistor(g: array2<real>, order: seq<int>, refNode: int, n1: int, n2: int, r: NonZero)
    requires Covered(order, refNode, n1) && Covered(order, refNode, n2)
    requires g.Length0 == g.Length1 == |order|
    modifies g
    ensures forall i, j :: 0 <= i < g.Length0 && 0 <= j < g.Length1 ==>
      g[i, j] == old(g[i, j]) + ResistorStamp(Row(order, refNode, n1), Row(order, refNode, n2), Conductance(r), i, j)
  {
    var gv := Conductance(r);
    var n1Idx := NodeIdx(order, refNode, n1);
    var n2Idx := NodeIdx(order, refNode, n2);
    if n1 != refNode {
      g[n1Idx, n1Idx] := g[n1Idx, n1Idx] + gv;
    }
    if n2 != refNode {
      g[n2Idx, n2Idx] := g[n2Idx, n2Idx] + gv;
    }
    if n1 != refNode && n2 != refNode {
      g[n1Idx, n2Idx] := g[n1Idx, n2Idx] - gv;
      g[n2Idx, n1Idx] := g[n2Idx, n1Idx] - gv;
    }
  }

  /** The resistor loop: G, zero before, holds the sum of all resistor stamps. */
  method StampResistors(g: array2<real>, order: seq<int>, refNode: int, resistors: seq<Resistor>)
    requires ResistorsCovered(resistors, order, refNode)
    requires g.Length0 == g.Length1 == |order|
    requires forall i, j :: 0 <= i < g.Length0 && 0 <= j < g.Length1 ==> g[i, j] == 0.0
    modifies g
    ensures forall i, j :: 0 <= i < g.Length0 && 0 <= j < g.Length1 ==> g[i, j] == GSpec(resistors, order, refNode, i, j)
  {
    for k := 0 to |resistors|
      invariant forall i, j :: 0 <= i < g.Length0 && 0 <= j < g.Length1 ==> g[i, j] == GSpec(resistors[..k], order, refNode, i, j)
    {
      var rr := resistors[k];
      assert resistors[..k + 1][..k] == resistors[..k];
      StampResistor(g, order, refNode, rr.n1, rr.n2, rr.r);
    }
    assert resistors[..|resistors|] == resistors;
  }

  // ---------------------------------------------------------------------
  // The voltage-source loop (lines 63-73)

  /** Iteration `vIdx` of the voltage-source loop: column `vIdx` of B and row `n_n + vIdx` of z. */
  method StampVSource(b: array2<real>, z: array<real>, order: seq<int>, refNode: int, neg: int, pos: int, v: int, vIdx: nat)
    requires Covered(order, refNode, neg) && Covered(order, refNode, pos)
    requires b.Length0 == |order| && vIdx < b.Length1 && b.Length0 + vIdx < z.Length
    modifies b, z
    ensures forall i, k :: 0 <= i < b.Length0 && 0 <= k < b.Length1 ==>
      b[i, k] == if k == vIdx && (Row(order, refNode, neg) == Some(i) || Row(order, refNode, pos) == Some(i))
                 then VSourceStamp(Row(order, refNode, neg), Row(order, refNode, pos), i)
                 else old(b[i, k])
    ensures forall r :: 0 <= r < z.Length ==> z[r] == if r == b.Length0 + vIdx then v as real else old(z[r])
  {
    var nNegIdx := NodeIdx(order, refNode, neg);
    var nPosIdx := NodeIdx(order, refNode, pos);
    if neg != refNode {
      b[nNegIdx, vIdx] := -1.0;
    }
    if pos != refNode {
      b[nPosIdx, vIdx] := 1.0;
    }
    z[b.Length0 + vIdx] := v as real;
  }

  /**
    The voltage-source loop over `enumerate(v_sources)`: column k of B is
    the incidence of source k and branch row `n_n + k` of z its voltage;
    the node rows of z stay zero.
   */
  method StampVSources(b: array2<real>, z: array<real>, order: seq<int>, refNode: int, vSources: seq<Source>)
    requires SourcesCovered(vSources, order, refNode)
    requires b.Length0 == |order| && b.Length1 == |vSources| && z.Length == |order| + |vSources|
    requires forall i, k :: 0 <= i < b.Length0 && 0 <= k < b.Length1 ==> b[i, k] == 0.0
    requires forall r :: 0 <= r < z.Length ==> z[r] == 0.0
    modifies b, z
    ensures forall i, k :: 0 <= i < b.Length0 && 0 <= k < b.Length1 ==> b[i, k] == BSpec(vSources, order, refNode, i, k)
    ensures forall r :: 0 <= r < |order| ==> z[r] == 0.0
    ensures forall k :: 0 <= k < |vSources| ==> z[|order| + k] == vSources[k].value as real
  {
    for vIdx := 0 to |vSources|
      invariant forall i, k :: 0 <= i < b.Length0 && 0 <= k < b.Length1 ==>
        b[i, k] == if k < vIdx then BSpec(vSources, order, refNode, i, k) else 0.0
      invariant forall r :: 0 <= r < z.Length ==>
        z[r] == if |order| <= r < |order| + vIdx then vSources[r - |order|].value as real else 0.0
    {
      var s := vSources[vIdx];
      StampVSource(b, z, order, refNode, s.neg, s.pos, s.value, vIdx);
    }
    forall k | 0 <= k < |vSources| ensures z[|order| + k] == vSources[k].value as real {
      assert |order| <= |order| + k < z.Length;
    }
  }

  // ---------------------------------------------------------------------
  // The current-source loop (lines 76-84)

  /** One iteration of the current-source loop: assigns (does not add) `-I` and `I`. */
  method StampISource(z: array<real>, order: seq<int>, refNode: int, neg: int, pos: int, i: int)
    requires Covered(order, refNode, neg) && Covered(order, refNode, pos)
    requires |order| <= z.Length
    modifies z
    ensures forall r :: 0 <= r < z.Length ==>
      z[r] == if Row(order, refNode, pos) == Some(r) then i as real
              else if Row(order, refNode, neg) == Some(r) then -(i as real)
              else old(z[r])
  {
    var nNegIdx := NodeIdx(order, refNode, neg);
    var nPosIdx := NodeIdx(order, refNode, pos);
    if neg != refNode {
      z[nNegIdx] := -(i as real);
    }
    if pos != refNode {
      z[nPosIdx] := i as real;
    }
  }

  /**
    The current-source loop: the node rows of z, zero before, hold what
    the last writes left there; the branch rows `z[n_n:]` are untouched.
   */
  method StampISources(z: array<real>, order: seq<int>, refNode: int, iSources: seq<Source>)
    requires SourcesCovered(iSources, order, refNode)
    requires |order| <= z.Length
    requires forall r :: 0 <= r < |order| ==> z[r] == 0.0
    modifies z
    ensures forall r :: 0 <= r < |order| ==> z[r] == ISpec(iSources, order, refNode, r)
    ensures forall r :: |order| <= r < z.Length ==> z[r] == old(z[r])
  {
    for k := 0 to |iSources|
      invariant forall r :: 0 <= r < |order| ==> z[r] == ISpec(iSources[..k], order, refNode, r)
      invariant forall r :: |order| <= r < z.Length ==> z[r] == old(z[r])
    {
      var s := iSources[k];
      assert iSources[..k + 1][..k] == iSources[..k];
      StampISource(z, order, refNode, s.neg, s.pos, s.value);
    }
    assert iSources[..|iSources|] == iSources;
  }

  // ---------------------------------------------------------------------
  // The block matrix (lines 86-91)

  /**
    The MNA matrix [[G, B], [Bᵀ, 0]] with one row per listed node and one
    per voltage source.
   */
  ghost predicate SystemMatrix(rs: seq<Resistor>, vs: seq<Source>, order: seq<int>, refNode: int, a: array2<real>)
    reads a
  {
    a.Length0 == a.Length1 == |order| + |vs| &&
    (forall i, j :: 0 <= i < |order| && 0 <= j < |order| ==> a[i, j] == GSpec(rs, order, refNode, i, j)) &&
    (forall i, k :: 0 <= i < |order| && 0 <= k < |vs| ==>
      a[i, |order| + k] == BSpec(vs, order, refNode, i, k) && a[|order| + k, i] == BSpec(vs, order, refNode, i, k)) &&
    (forall i, j :: |order| <= i < a.Length0 && |order| <= j < a.Length1 ==> a[i, j] == 0.0)
  }

  /** `C_m = B_m.T` and the `vstack`/`hstack` layout [[G, B], [C, D]] with D zero. */
  method StackBlocks(g: array2<real>, b: array2<real>, d: array2<real>,
                     rs: seq<Resistor>, vs: seq<Source>, order: seq<int>, refNode: int) returns (a: array2<real>)
    requires g.Length0 == g.Length1 == b.Length0 == |order|
    requires b.Length1 == d.Length0 == d.Length1 == |vs|
    requires forall i, j :: 0 <= i < g.Length0 && 0 <= j < g.Length1 ==> g[i, j] == GSpec(rs, order, refNode, i, j)
    requires forall i, k :: 0 <= i < b.Length0 && 0 <= k < b.Length1 ==> b[i, k] == BSpec(vs, order, refNode, i, k)
    requires forall i, j :: 0 <= i < d.Length0 && 0 <= j < d.Length1 ==> d[i, j] == 0.0
    ensures fresh(a)
    ensures SystemMatrix(rs, vs, order, refNode, a)
  {
    var c := Blocks.Transpose(b);
    a := Blocks.Stack(g, b, c, d);
    var nN := |order|;
    forall i, j | nN <= i < a.Length0 && nN <= j < a.Length1 ensures a[i, j] == 0.0 {
      assert a[i, j] == d[i - nN, j - nN];
    }
    forall i, k | 0 <= i < nN && 0 <= k < |vs|
      ensures a[i, nN + k] == BSpec(vs, order, refNode, i, k) && a[nN + k, i] == BSpec(vs, order, refNode, i, k)
    {
      assert a[i, nN + k] == b[i, k];
      assert a[nN + k, i] == c[k, i] == b[i, k];
    }
  }

  /** G is symmetric: every resistor stamp is. */
  lemma {:induction false} GSpecSymmetric(rs: seq<Resistor>, order: seq<int>, refNode: int, i: nat, j: nat)
    ensures GSpec(rs, order, refNode, i, j) == GSpec(rs, order, refNode, j, i)
  {
    if rs != [] {
      var rr := rs[|rs| - 1];
      GSpecSymmetric(rs[..|rs| - 1], order, refNode, i, j);
      ResistorStampShape(Row(order, refNode, rr.n1), Row(order, refNode, rr.n2), Conductance(rr.r), i, j);
    }
  }

  /** The MNA matrix is symmetric. */
  lemma SystemMatrixSymmetric(rs: seq<Resistor>, vs: seq<Source>, order: seq<int>, refNode: int, a: array2<real>)
    requires SystemMatrix(rs, vs, order, refNode, a)
    ensures Blocks.Symmetric(a)
  {
    var nN := |order|;
    forall i, j | 0 <= i < a.Length0 && 0 <= j < a.Length1 ensures a[i, j] == a[j, i] {
      if i < nN && j < nN {
        GSpecSymmetric(rs, order, refNode, i, j);
      } else if i < nN {
        var k := j - nN;
        assert a[i, nN + k] == BSpec(vs, order, refNode, i, k) == a[nN + k, i];
      } else if j < nN {
        var k := i - nN;
        assert a[j, nN + k] == BSpec(vs, order, refNode, j, k) == a[nN + k, j];
      }
    }
  }

  /** G does not depend on the order of the resistors. */
  lemma GSpecOrderFree(rs1: seq<Resistor>, rs2: seq<Resistor>, order: seq<int>, refNode: int, i: nat, j: nat)
    requires multiset(rs1) == multiset(rs2)
    ensures GSpec(rs1, order, refNode, i, j) == GSpec(rs2, order, refNode, i, j)
  {
    SumOfPermutation(rs1, rs2, GWeight(order, refNode, i, j));
  }

  // ---------------------------------------------------------------------
  // solve_DC

  /**
    Lines 9-43: the node set, the reference node, the listing that
    `node_idx` searches, and the zero blocks G (n_n x n_n), B (n_n x n_vs),
    D (n_vs x n_vs) and z (n_n + n_vs). `next(iter(nodes))` raises on an
    empty circuit, so at least one element is required.
   */
  method Prepare(resistors: seq<Resistor>, vSources: seq<Source>, iSources: seq<Source>)
    returns (order: seq<int>, refNode: int, g: array2<real>, b: array2<real>, d: array2<real>, z: array<real>)
    requires resistors != [] || vSources != [] || iSources != []
    ensures refNode in AllNodes(resistors, vSources, iSources)
    ensures Distinct(order) && Elems(order) == AllNodes(resistors, vSources, iSources) - {refNode}
    ensures fresh(g) && fresh(b) && fresh(d) && fresh(z) && g != b && g != d && b != d
    ensures g.Length0 == g.Length1 == b.Length0 == |order|
    ensures b.Length1 == d.Length0 == d.Length1 == |vSources| && z.Length == |order| + |vSources|
    ensures forall i, j :: 0 <= i < g.Length0 && 0 <= j < g.Length1 ==> g[i, j] == 0.0
    ensures forall i, k :: 0 <= i < b.Length0 && 0 <= k < b.Length1 ==> b[i, k] == 0.0
    ensures forall i, j :: 0 <= i < d.Length0 && 0 <= j < d.Length1 ==> d[i, j] == 0.0
    ensures forall r :: 0 <= r < z.Length ==> z[r] == 0.0
  {
    var nodes := CollectNodes(resistors, vSources, iSources);
    AllNodesEmpty(resistors, vSources, iSources);
    refNode, nodes := SelectReference(nodes);
    order := ListOf(nodes);
    var nN := |nodes|;
    var nVs := |vSources|;
    g := Blocks.Zeros(nN, nN);
    b := Blocks.Zeros(nN, nVs);
    d := Blocks.Zeros(nVs, nVs);
    z := new real[nN + nVs](_ => 0.0);
  }

  /**
    `solve_DC` up to `np.linalg.solve`: the system matrix A, square with
    side n_n + n_vs, laid out as [[G, B], [Bᵀ, 0]] and symmetric, and the
    right-hand side z whose node rows hold what the current sources
    assigned last and whose branch row n_n + k holds the voltage of
    source k. Also returned: the reference node and the row order that
    were chosen.
   */
  method SolveDC(resistors: seq<Resistor>, vSources: seq<Source>, iSources: seq<Source>)
    returns (a: array2<real>, z: array<real>, order: seq<int>, refNode: int)
    requires resistors != [] || vSources != [] || iSources != []
    ensures fresh(a) && fresh(z)
    ensures refNode in AllNodes(resistors, vSources, iSources)
    ensures Distinct(order) && Elems(order) == AllNodes(resistors, vSources, iSources) - {refNode}
    ensures SystemMatrix(resistors, vSources, order, refNode, a) && Blocks.Symmetric(a)
    ensures z.Length == |order| + |vSources|
    ensures forall r :: 0 <= r < |order| ==> z[r] == ISpec(iSources, order, refNode, r)
    ensures forall k :: 0 <= k < |vSources| ==> z[|order| + k] == vSources[k].value as real
  {
    var g, b, d;
    order, refNode, g, b, d, z := Prepare(resistors, vSources, iSources);
    TerminalsCovered(resistors, vSources, iSources, order, refNode);
    StampResistors(g, order, refNode, resistors);
    StampVSources(b, z, order, refNode, vSources);
    StampISources(z, order, refNode, iSources);
    a := StackBlocks(g, b, d, resistors, vSources, order, refNode);
    SystemMatrixSymmetric(resistors, vSources, order, refNode, a);
  }

  // ---------------------------------------------------------------------
  // What the assembled rows mean

  /** Row i of G applied to node voltages `x`. */
  function GRowDot(rs: seq<Resistor>, order: seq<int>, refNode: int, i: nat, x: seq<real>): real
  {
    Dot((j: nat) => GSpec(rs, order, refNode, i, j), x, |x|)
  }

  /** The current one resistor carries away from row i's node under node voltages `x`. */
  function Outflow(rr: Resistor, order: seq<int>, refNode: int, i: nat, x: seq<real>): real
  {
    var p1, p2 := Row(order, refNode, rr.n1), Row(order, refNode, rr.n2);
    if Within(p1, |x|) && Within(p2, |x|) then Leaving(p1, p2, Conductance(rr.r), i, x) else 0.0
  }

  /** The current all resistors carry away from row i's node. */
  function ResistorOutflow(rs: seq<Resistor>, order: seq<int>, refNode: int, i: nat, x: seq<real>): real
  {
    SumOf(rs, (rr: Resistor) => Outflow(rr, order, refNode, i, x))
  }

  /**
    Kirchhoff's current law for G: with one voltage per listed node, row
    i of G applied to the node voltages is the total current the
    resistors carry away from row i's node.
   */
  lemma {:induction false} GKcl(rs: seq<Resistor>, order: seq<int>, refNode: int, i: nat, x: seq<real>)
    requires |x| == |order|
    ensures GRowDot(rs, order, refNode, i, x) == ResistorOutflow(rs, order, refNode, i, x)
  {
    if rs == [] {
      DotZero((j: nat) => GSpec(rs, order, refNode, i, j), x, |x|);
    } else {
      var init, rr := rs[..|rs| - 1], rs[|rs| - 1];
      var p1, p2, gv := Row(order, refNode, rr.n1), Row(order, refNode, rr.n2), Conductance(rr.r);
      GKcl(init, order, refNode, i, x);
      DotAdd((j: nat) => GSpec(init, order, refNode, i, j), (j: nat) => ResistorStamp(p1, p2, gv, i, j),
             (j: nat) => GSpec(rs, order, refNode, i, j), x, |x|);
      ResistorRowIsDot(p1, p2, gv, i, x, |x|);
      ResistorCurrent(p1, p2, gv, i, x);
      assert ResistorOutflow(rs, order, refNode, i, x)
          == ResistorOutflow(init, order, refNode, i, x) + Outflow(rr, order, refNode, i, x);
    }
  }

  /** Row k of C = Bᵀ applied to `x`, over the first `n` columns. */
  function CRowDot(vs: seq<Source>, order: seq<int>, refNode: int, k: nat, x: seq<real>, n: nat): real
    requires k < |vs| && n <= |x|
  {
    if n == 0 then 0.0 else CRowDot(vs, order, refNode, k, x, n - 1) + BSpec(vs, order, refNode, n - 1, k) * x[n - 1]
  }

  lemma {:induction false} CRowIsColumnDot(vs: seq<Source>, order: seq<int>, refNode: int, k: nat, x: seq<real>, n: nat)
    requires k < |vs| && n <= |x|
    ensures CRowDot(vs, order, refNode, k, x, n)
         == ColumnDot(Row(order, refNode, vs[k].neg), Row(order, refNode, vs[k].pos), x, n)
  {
    if n > 0 {
      CRowIsColumnDot(vs, order, refNode, k, x, n - 1);
    }
  }

  /**
    Branch equation of voltage source k (row n_n + k of A, with D zero):
    applied to the node voltages it gives V(pos) - V(neg), the reference
    node at 0 V; when both terminals are the same node the positive entry
    overwrites the negative one and the row gives V(pos).
   */
  lemma BranchEquation(vs: seq<Source>, order: seq<int>, refNode: int, k: nat, x: seq<real>)
    requires k < |vs| && |x| == |order|
    ensures CRowDot(vs, order, refNode, k, x, |x|)
         == Volt(x, Row(order, refNode, vs[k].pos))
          - (if Row(order, refNode, vs[k].neg) == Row(order, refNode, vs[k].pos) then 0.0
             else Volt(x, Row(order, refNode, vs[k].neg)))
  {
    CRowIsColumnDot(vs, order, refNode, k, x, |x|);
    VSourceBranch(Row(order, refNode, vs[k].neg), Row(order, refNode, vs[k].pos), x);
  }

  // ---------------------------------------------------------------------
  // Findings: current sources assign instead of adding

  /**
    Two current sources feeding the same non-reference node n: the loop
    keeps only the current of whichever comes last, so swapping them
    changes z, while the current actually injected into n is the sum of
    both in either order.
   */
  lemma CurrentSourcesOverwrite(order: seq<int>, refNode: int, x: int, y: int, n: int, i1: int, i2: int)
    requires n != refNode && n in order && x != n && y != n
    ensures Row(order, refNode, n).Some?
    ensures multiset([Source(x, n, i1), Source(y, n, i2)]) == multiset([Source(y, n, i2), Source(x, n, i1)])
    ensures ISpec([Source(x, n, i1), Source(y, n, i2)], order, refNode, Row(order, refNode, n).value) == i2 as real
    ensures ISpec([Source(y, n, i2), Source(x, n, i1)], order, refNode, Row(order, refNode, n).value) == i1 as real
    ensures Injection([Source(x, n, i1), Source(y, n, i2)], order, refNode, Row(order, refNode, n).value) == (i1 + i2) as real
    ensures Injection([Source(y, n, i2), Source(x, n, i1)], order, refNode, Row(order, refNode, n).value) == (i1 + i2) as real
  {
    var r := Row(order, refNode, n).value;
    var s1, s2 := Source(x, n, i1), Source(y, n, i2);
    assert Row(order, refNode, x) != Some(r) && Row(order, refNode, y) != Some(r);
    TwoSourcesIntoRow(order, refNode, s1, s2, r);
    TwoSourcesIntoRow(order, refNode, s2, s1, r);
  }

  /**
    Two current sources whose positive terminal is on row r and whose
    negative terminal is not: z keeps the second current, the injection
    is the sum of both.
   */
  lemma TwoSourcesIntoRow(order: seq<int>, refNode: int, s1: Source, s2: Source, r: nat)
    requires Row(order, refNode, s1.pos) == Some(r) && Row(order, refNode, s1.neg) != Some(r)
    requires Row(order, refNode, s2.pos) == Some(r) && Row(order, refNode, s2.neg) != Some(r)
    ensures ISpec([s1, s2], order, refNode, r) == s2.value as real
    ensures Injection([s1, s2], order, refNode, r) == (s1.value + s2.value) as real
  {
    var w := InjectionWeight(order, refNode, r);
    assert w(s1) == s1.value as real && w(s2) == s2.value as real;
    assert [s1, s2] == [s1] + [s2] && [s1] == [] + [s1];
    SumOfSnoc([s1], s2, w);
    SumOfSnoc([], s1, w);
  }

  /** What one current source injects into row r: `I` at its positive row, `-I` at its negative row. */
  function ISourceInjection(s: Source, order: seq<int>, refNode: int, r: nat): real
  {
    (if Row(order, refNode, s.pos) == Some(r) then s.value as real else 0.0)
    - (if Row(order, refNode, s.neg) == Some(r) then s.value as real else 0.0)
  }

  /** Row r of each source's injection, as a function of the source. */
  function InjectionWeight(order: seq<int>, refNode: int, r: nat): Source -> real
  {
    (s: Source) => ISourceInjection(s, order, refNode, r)
  }

  /** The net current the current sources inject into row r. */
  function Injection(cs: seq<Source>, order: seq<int>, refNode: int, r: nat): real
  {
    SumOf(cs, InjectionWeight(order, refNode, r))
  }

  /** The injected currents do not depend on the order of the current sources. */
  lemma InjectionOrderFree(cs1: seq<Source>, cs2: seq<Source>, order: seq<int>, refNode: int, r: nat)
    requires multiset(cs1) == multiset(cs2)
    ensures Injection(cs1, order, refNode, r) == Injection(cs2, order, refNode, r)
  {
    SumOfPermutation(cs1, cs2, InjectionWeight(order, refNode, r));
  }

  /** The source writes row r: one of its terminals sits on it. */
  predicate Touches(s: Source, order: seq<int>, refNode: int, r: nat)
  {
    Row(order, refNode, s.pos) == Some(r) || Row(order, refNode, s.neg) == Some(r)
  }

  /** No current source writes row r: the loop leaves it at 0 and nothing is injected. */
  lemma {:induction false} UntouchedRow(cs: seq<Source>, order: seq<int>, refNode: int, r: nat)
    requires forall k :: 0 <= k < |cs| ==> !Touches(cs[k], order, refNode, r)
    ensures ISpec(cs, order, refNode, r) == 0.0 && Injection(cs, order, refNode, r) == 0.0
  {
    if cs != [] {
      var init := cs[..|cs| - 1];
      assert forall k :: 0 <= k < |init| ==> init[k] == cs[k];
      UntouchedRow(init, order, refNode, r);
    }
  }

  /**
    Assigning and adding agree on row r when at most one current source
    writes it and that source does not have both terminals on it: the
    loop as written is right for every row without shared current sources.
   */
  lemma {:induction false} SingleWriterAgrees(cs: seq<Source>, order: seq<int>, refNode: int, r: nat)
    requires forall k1, k2 :: 0 <= k1 < k2 < |cs| ==> !(Touches(cs[k1], order, refNode, r) && Touches(cs[k2], order, refNode, r))
    requires forall k :: 0 <= k < |cs| ==> Row(order, refNode, cs[k].pos) != Row(order, refNode, cs[k].neg) || !Touches(cs[k], order, refNode, r)
    ensures ISpec(cs, order, refNode, r) == Injection(cs, order, refNode, r)
  {
    if cs != [] {
      var init, last := cs[..|cs| - 1], cs[|cs| - 1];
      var w := InjectionWeight(order, refNode, r);
      assert Injection(cs, order, refNode, r) == Injection(init, order, refNode, r) + w(last) by {
        assert cs == init + [last];
        SumOfSnoc(init, last, w);
      }
      if Touches(last, order, refNode, r) {
        assert forall k :: 0 <= k < |init| ==> !Touches(init[k], order, refNode, r) by {
          forall k | 0 <= k < |init| ensures !Touches(init[k], order, refNode, r) {
            assert init[k] == cs[k] && k < |cs| - 1;
          }
        }
        UntouchedRow(init, order, refNode, r);
      } else {
        assert forall k :: 0 <= k < |init| ==> init[k] == cs[k];
        SingleWriterAgrees(init, order, refNode, r);
      }
    }
  }

  /** The corrected current-source iteration: adds `-I` and `I` instead of assigning them. */
  method StampISourceAdding(z: array<real>, order: seq<int>, refNode: int, neg: int, pos: int, i: int)
    requires Covered(order, refNode, neg) && Covered(order, refNode, pos)
    requires |order| <= z.Length
    modifies z
    ensures forall r :: 0 <= r < z.Length ==> z[r] == old(z[r]) + ISourceInjection(Source(neg, pos, i), order, refNode, r)
  {
    var nNegIdx := NodeIdx(order, refNode, neg);
    var nPosIdx := NodeIdx(order, refNode, pos);
    if neg != refNode {
      z[nNegIdx] := z[nNegIdx] - i as real;
    }
    if pos != refNode {
      z[nPosIdx] := z[nPosIdx] + i as real;
    }
  }

  /** The corrected current-source loop: adds every source's injection to z. */
  method InjectCurrents(z: array<real>, order: seq<int>, refNode: int, iSources: seq<Source>)
    requires SourcesCovered(iSources, order, refNode)
    requires |order| <= z.Length
    modifies z
    ensures forall r :: 0 <= r < z.Length ==> z[r] == old(z[r]) + Injection(iSources, order, refNode, r)
  {
    for k := 0 to |iSources|
      invariant forall r :: 0 <= r < z.Length ==> z[r] == old(z[r]) + Injection(iSources[..k], order, refNode, r)
    {
      var s := iSources[k];
      assert iSources[..k + 1][..k] == iSources[..k];
      StampISourceAdding(z, order, refNode, s.neg, s.pos, s.value);
    }
    assert iSources[..|iSources|] == iSources;
  }

  /** Nothing is injected past the node rows. */
  lemma {:induction false} InjectionOutsideNodes(cs: seq<Source>, order: seq<int>, refNode: int, r: nat)
    requires r >= |order|
    ensures Injection(cs, order, refNode, r) == 0.0
  {
    if cs != [] {
      InjectionOutsideNodes(cs[..|cs| - 1], order, refNode, r);
    }
  }

  /**
    `solve_DC` with the current sources accumulated: the same matrix, node
    row r of z holds the net current injected into r's node, whatever the
    order of the current sources, and branch row n_n + k the voltage of
    source k.
   */
  method SolveDCCorrected(resistors: seq<Resistor>, vSources: seq<Source>, iSources: seq<Source>)
    returns (a: array2<real>, z: array<real>, order: seq<int>, refNode: int)
    requires resistors != [] || vSources != [] || iSources != []
    ensures fresh(a) && fresh(z)
    ensures refNode in AllNodes(resistors, vSources, iSources)
    ensures Distinct(order) && Elems(order) == AllNodes(resistors, vSources, iSources) - {refNode}
    ensures SystemMatrix(resistors, vSources, order, refNode, a) && Blocks.Symmetric(a)
    ensures z.Length == |order| + |vSources|
    ensures forall r :: 0 <= r < |order| ==> z[r] == Injection(iSources, order, refNode, r)
    ensures forall k :: 0 <= k < |vSources| ==> z[|order| + k] == vSources[k].value as real
  {
    var g, b, d;
    order, refNode, g, b, d, z := Prepare(resistors, vSources, iSources);
    TerminalsCovered(resistors, vSources, iSources, order, refNode);
    StampResistors(g, order, refNode, resistors);
    StampVSources(b, z, order, refNode, vSources);
    InjectCurrents(z, order, refNode, iSources);
    forall k | 0 <= k < |vSources| ensures z[|order| + k] == vSources[k].value as real {
      InjectionOutsideNodes(iSources, order, refNode, |order| + k);
    }
    a := StackBlocks(g, b, d, resistors, vSources, order, refNode);
    SystemMatrixSymmetric(resistors, vSources, order, refNode, a);
  }
}
