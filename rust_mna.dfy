/**
  The DC solver of `src/main.rs`: the `Element` enum, `create_nodes_set`
  and `solve_dc` up to the block matrix handed to the LU solver.

  `solve_dc` keeps its nodes in a `BTreeSet`, so the reference node is the
  least node id and a node's row is its rank among the other nodes. It
  stamps every element in one pass over the list into G (conductances),
  B (voltage-source incidence) and z (right-hand side), then lays out
  [[G, B], [Bᵀ, 0]]. G and the node rows of B are sized by the NUMBER OF
  RESISTORS, not by the number of nodes; the model keeps that, states the
  exact condition under which every index write stays in bounds, and
  gives a corrected variant separately (`SolveDcCorrected`: node-sized
  blocks, current sources accumulated).
 */
module RustMna {
  import opened Lists
  import opened OrderedSet
  import opened Stamps
  import Blocks

  /** A resistance: a `u32` the code divides by unchecked, so 0 is excluded. */
  type Ohms = r: nat | r > 0 witness 1

  datatype Element =
    | Resistor(n1: nat, n2: nat, r: Ohms)
    | VSource(neg: nat, pos: nat, v: real)
    | ISource(neg: nat, pos: nat, i: real)

  /** `Element::get_nodes`: the two terminals, in declaration order. */
  function GetNodes(e: Element): (ns: seq<nat>)
    ensures |ns| == 2
  {
    match e
    case Resistor(n1, n2, _) => [n1, n2]
    case VSource(neg, pos, _) => [neg, pos]
    case ISource(neg, pos, _) => [neg, pos]
  }

  /** `1.0 / f64::from(r_val)`. */
  function Conductance(r: Ohms): (g: real)
    ensures g * (r as real) == 1.0
    ensures g > 0.0
  {
    1.0 / (r as real)
  }

  // ---------------------------------------------------------------------
  // Node set

  /** Every terminal of every element, gathered in list order. */
  function NodesOf(es: seq<Element>): set<nat>
  {
    if es == [] then {} else NodesOf(es[..|es| - 1]) + Elems(GetNodes(es[|es| - 1]))
  }

  /** A node id is in the node set exactly when some element has it as a terminal. */
  lemma {:induction false} NodesOfMembers(es: seq<Element>, n: nat)
    ensures n in NodesOf(es) <==> exists k :: 0 <= k < |es| && n in GetNodes(es[k])
  {
    if es != [] {
      var init := es[..|es| - 1];
      var last := |es| - 1;
      NodesOfMembers(init, n);
      assert forall k :: 0 <= k < |init| ==> init[k] == es[k];
      if n in GetNodes(es[last]) {
        assert 0 <= last < |es| && n in GetNodes(es[last]);
      }
    }
  }

  /** The node set does not depend on the order of the elements. */
  lemma NodesOfOrderFree(es1: seq<Element>, es2: seq<Element>)
    requires multiset(es1) == multiset(es2)
    ensures NodesOf(es1) == NodesOf(es2)
  {
    forall n | n in NodesOf(es1) ensures n in NodesOf(es2) {
      NodesOfMembers(es1, n);
      NodesOfMembers(es2, n);
      var k :| 0 <= k < |es1| && n in GetNodes(es1[k]);
      assert es1[k] in multiset(es2);
      var k2 :| 0 <= k2 < |es2| && es2[k2] == es1[k];
    }
    forall n | n in NodesOf(es2) ensures n in NodesOf(es1) {
      NodesOfMembers(es1, n);
      NodesOfMembers(es2, n);
      var k :| 0 <= k < |es2| && n in GetNodes(es2[k]);
      assert es2[k] in multiset(es1);
      var k1 :| 0 <= k1 < |es1| && es1[k1] == es2[k];
    }
  }

  /** Only the empty element list yields no node: the one case where `pop_first` finds nothing. */
  lemma NodesOfEmpty(es: seq<Element>)
    ensures NodesOf(es) == {} <==> es == []
  {
    if es != [] {
      assert GetNodes(es[|es| - 1])[0] in NodesOf(es);
    }
  }

  /**
    `create_nodes_set`: inserts both terminals of every element into an
    ordered set. The result is the ascending list of all node ids, without
    duplicates, and so the same for every ordering of the elements.
   */
  method CreateNodesSet(elements: seq<Element>) returns (nodes: seq<nat>)
    ensures Sorted(nodes) && Elems(nodes) == NodesOf(elements)
    ensures nodes == AscendingOf(NodesOf(elements))
  {
    nodes := [];
    for k := 0 to |elements|
      invariant Sorted(nodes) && Elems(nodes) == NodesOf(elements[..k])
    {
      var ends := GetNodes(elements[k]);
      assert elements[..k + 1][..k] == elements[..k];
      for m := 0 to |ends|
        invariant Sorted(nodes) && Elems(nodes) == NodesOf(elements[..k]) + Elems(ends[..m])
      {
        var inserted;
        nodes, inserted := Insert(nodes, ends[m]);
        assert Elems(ends[..m + 1]) == Elems(ends[..m]) + {ends[m]} by {
          assert ends[..m + 1] == ends[..m] + [ends[m]];
        }
      }
      assert ends[..|ends|] == ends;
    }
    assert elements[..|elements|] == elements;
    SortedUnique(nodes, AscendingOf(NodesOf(elements)));
  }

  /** The reference node: the least node id (what `pop_first` removes). */
  ghost function RefNode(es: seq<Element>): nat
    requires es != []
  {
    NodesOfEmpty(es);
    SetMin(NodesOf(es))
  }

  /** The non-reference nodes in ascending order: the set left after `pop_first`. */
  ghost function NodeOrder(es: seq<Element>): (nodes: seq<nat>)
    requires es != []
    ensures Sorted(nodes) && Elems(nodes) == NodesOf(es) - {RefNode(es)}
    ensures AscendingOf(NodesOf(es)) == [RefNode(es)] + nodes
  {
    NodesOfEmpty(es);
    var all := AscendingOf(NodesOf(es));
    assert all != [] by {
      assert SetMin(NodesOf(es)) in Elems(all);
    }
    assert all == [all[0]] + all[1..];
    assert all[0] == RefNode(es) by {
      assert forall x :: x in all ==> all[0] <= x;
    }
    all[1..]
  }

  /**
    Row lookup `nodes.iter().position(|&n| n == x)` for a terminal `x`: it
    finds a row exactly when `x` is not the reference node, and that row is
    the rank of `x` among the non-reference nodes in ascending order. So
    the `unwrap`s on the two positions of a resistor whose terminals are
    both non-reference never fail.
   */
  lemma PositionIsRank(es: seq<Element>, x: nat)
    requires es != [] && x in NodesOf(es)
    ensures IndexOf(NodeOrder(es), x).Some? <==> x != RefNode(es)
    ensures x != RefNode(es) ==> IndexOf(NodeOrder(es), x) == Some(Rank(NodesOf(es) - {RefNode(es)}, x))
  {
    OrderedSet.PositionIsRank(NodeOrder(es), x);
  }

  // ---------------------------------------------------------------------
  // Element counts (`nb_elt_nodes`, `nb_vsources`)

  /** The resistors of the list, in list order. */
  function Resistors(es: seq<Element>): (rs: seq<Element>)
    ensures forall e :: e in rs <==> e in es && e.Resistor?
  {
    if es == [] then []
    else
      assert es == es[..|es| - 1] + [es[|es| - 1]];
      Resistors(es[..|es| - 1]) + (if es[|es| - 1].Resistor? then [es[|es| - 1]] else [])
  }

  /** The voltage sources of the list, in list order: source k owns branch column k (see `VSourceNumber`). */
  function VSources(es: seq<Element>): (vs: seq<Element>)
    ensures forall e :: e in vs <==> e in es && e.VSource?
  {
    if es == [] then []
    else
      assert es == es[..|es| - 1] + [es[|es| - 1]];
      VSources(es[..|es| - 1]) + (if es[|es| - 1].VSource? then [es[|es| - 1]] else [])
  }

  /** `nb_elt_nodes`: the number of resistors, which the code uses as the side of G. */
  function NbEltNodes(es: seq<Element>): nat
  {
    |Resistors(es)|
  }

  /** `nb_vsources`: the number of voltage sources. */
  function NbVSources(es: seq<Element>): nat
  {
    |VSources(es)|
  }

  /**
    Every resistor occurs in `Resistors` as often as in the list, so
    `nb_elt_nodes` counts each of them, parallel copies included.
   */
  lemma {:induction false} ResistorsCount(es: seq<Element>)
    ensures forall e :: multiset(Resistors(es))[e] == if e.Resistor? then multiset(es)[e] else 0
  {
    if es != [] {
      var init, last := es[..|es| - 1], es[|es| - 1];
      ResistorsCount(init);
      assert es == init + [last];
    }
  }

  /** Every voltage source occurs in `VSources` as often as in the list. */
  lemma {:induction false} VSourcesCount(es: seq<Element>)
    ensures forall e :: multiset(VSources(es))[e] == if e.VSource? then multiset(es)[e] else 0
  {
    if es != [] {
      var init, last := es[..|es| - 1], es[|es| - 1];
      VSourcesCount(init);
      assert es == init + [last];
    }
  }

  /** The voltage sources of a prefix are a prefix of the voltage sources. */
  lemma {:induction false} VSourcesOfPrefix(es: seq<Element>, m: nat)
    requires m <= |es|
    ensures VSources(es[..m]) <= VSources(es)
  {
    if m < |es| {
      var init := es[..|es| - 1];
      assert init[..m] == es[..m];
      VSourcesOfPrefix(init, m);
    } else {
      assert es[..m] == es;
    }
  }

  /**
    The voltage source at list position p owns branch column
    |VSources(es[..p])|, the value `vsource_idx` holds when the loop
    reaches it: branches are numbered in list order.
   */
  lemma VSourceNumber(es: seq<Element>, p: nat)
    requires p < |es| && es[p].VSource?
    ensures |VSources(es[..p])| < NbVSources(es) && Branch(es, |VSources(es[..p])|) == es[p]
  {
    assert es[..p + 1] == es[..p] + [es[p]];
    AppendOne(es[..p], es[p]);
    VSourcesOfPrefix(es, p + 1);
  }

  // ---------------------------------------------------------------------
  // What one pass of stamping writes

  /** Row of a terminal in `nodes`, None for the reference node. */
  function Row(nodes: seq<nat>, x: nat): Option<nat>
  {
    IndexOf(nodes, x)
  }

  /** What one element adds to entry (i, j) of G. */
  function GStamp(e: Element, nodes: seq<nat>, i: nat, j: nat): real
  {
    match e
    case Resistor(n1, n2, r) => ResistorStamp(Row(nodes, n1), Row(nodes, n2), Conductance(r), i, j)
    case _ => 0.0
  }

  /** Entry (i, j) of each element's stamp, as a function of the element. */
  function GWeight(nodes: seq<nat>, i: nat, j: nat): Element -> real
  {
    e => GStamp(e, nodes, i, j)
  }

  /** Entry (i, j) of G after stamping `es`: the sum of the resistor stamps. */
  function GSpec(es: seq<Element>, nodes: seq<nat>, i: nat, j: nat): real
  {
    SumOf(es, GWeight(nodes, i, j))
  }

  /** The k-th voltage source of the list: the source of branch k. */
  function Branch(es: seq<Element>, k: nat): (s: Element)
    requires k < |VSources(es)|
    ensures s.VSource? && s in es
  {
    assert VSources(es)[k] in VSources(es);
    VSources(es)[k]
  }

  /** Entry (i, k) of B: the incidence of branch k at row i. */
  function BSpec(es: seq<Element>, nodes: seq<nat>, i: nat, k: nat): real
    requires k < |VSources(es)|
  {
    VSourceStamp(Row(nodes, Branch(es, k).neg), Row(nodes, Branch(es, k).pos), i)
  }

  /**
    Entry r of z after stamping `es`, with branch rows starting at `nb`: the
    last write to r wins. The k-th voltage source writes its value at
    `nb + k`; a current source ASSIGNS `-i` at its negative row and then
    `i` at its positive row.
   */
  function ZSpec(es: seq<Element>, nodes: seq<nat>, nb: nat, r: nat): real
  {
    if es == [] then 0.0
    else
      var init := es[..|es| - 1];
      match es[|es| - 1]
      case VSource(_, _, v) =>
        if r == nb + |VSources(init)| then v else ZSpec(init, nodes, nb, r)
      case ISource(neg, pos, i) =>
        if Row(nodes, pos) == Some(r) then i
        else if Row(nodes, neg) == Some(r) then -i
        else ZSpec(init, nodes, nb, r)
      case Resistor(_, _, _) => ZSpec(init, nodes, nb, r)
  }

  /** Every terminal is the reference node or one of `nodes`, and the reference is not. */
  predicate Covers(es: seq<Element>, nodes: seq<nat>, refNode: nat)
  {
    refNode !in nodes &&
    forall e, x :: e in es && x in GetNodes(e) ==> x == refNode || x in nodes
  }

  /** The index writes of one element stay inside G (nb x nb), B (nb x nv) and z (nb + nv). */
  predicate ElementInBounds(e: Element, nodes: seq<nat>, nb: nat, nv: nat)
  {
    match e
    case Resistor(n1, n2, _) => Within(Row(nodes, n1), nb) && Within(Row(nodes, n2), nb)
    case VSource(neg, pos, _) => Within(Row(nodes, neg), nb) && Within(Row(nodes, pos), nb)
    case ISource(neg, pos, _) => Within(Row(nodes, neg), nb + nv) && Within(Row(nodes, pos), nb + nv)
  }

  /** No index write of the pass panics. */
  predicate InBounds(es: seq<Element>, nodes: seq<nat>, nb: nat, nv: nat)
  {
    forall e :: e in es ==> ElementInBounds(e, nodes, nb, nv)
  }

  // ---------------------------------------------------------------------
  // The stamping pass

  /** The `Element::Resistor` arm of the loop. */
  method StampResistor(g: array2<real>, nodes: seq<nat>, refNode: nat, n1: nat, n2: nat, gv: real)
    requires refNode !in nodes
    requires (n1 == refNode || n1 in nodes) && (n2 == refNode || n2 in nodes)
    requires Within(Row(nodes, n1), g.Length0) && Within(Row(nodes, n2), g.Length0)
    requires g.Length0 == g.Length1
    modifies g
    ensures forall i, j :: 0 <= i < g.Length0 && 0 <= j < g.Length1 ==>
      g[i, j] == old(g[i, j]) + ResistorStamp(Row(nodes, n1), Row(nodes, n2), gv, i, j)
  {
    var n1Idx := IndexOf(nodes, n1);
    var n2Idx := IndexOf(nodes, n2);
    if n1Idx.Some? {
      var i1 := n1Idx.value;
      g[i1, i1] := g[i1, i1] + gv;
    }
    if n2Idx.Some? {
      var i2 := n2Idx.value;
      g[i2, i2] := g[i2, i2] + gv;
    }
    if n1 != refNode && n2 != refNode {
      var i1 := n1Idx.value;
      var i2 := n2Idx.value;
      g[i1, i2] := g[i1, i2] - gv;
      g[i2, i1] := g[i2, i1] - gv;
    }
  }

  /** The `Element::VSource` arm: column `vsourceIdx` of B and row `nb + vsourceIdx` of z. */
  method StampVSource(b: array2<real>, z: array<real>, nodes: seq<nat>, neg: nat, pos: nat, v: real, nb: nat, vsourceIdx: nat)
    requires Within(Row(nodes, neg), b.Length0) && Within(Row(nodes, pos), b.Length0)
    requires vsourceIdx < b.Length1 && nb + vsourceIdx < z.Length
    modifies b, z
    ensures forall i, k :: 0 <= i < b.Length0 && 0 <= k < b.Length1 ==>
      b[i, k] == if k == vsourceIdx && (Row(nodes, neg) == Some(i) || Row(nodes, pos) == Some(i))
                 then VSourceStamp(Row(nodes, neg), Row(nodes, pos), i)
                 else old(b[i, k])
    ensures forall r :: 0 <= r < z.Length ==> z[r] == if r == nb + vsourceIdx then v else old(z[r])
  {
    var nNegIdx := IndexOf(nodes, neg);
    var nPosIdx := IndexOf(nodes, pos);
    if nNegIdx.Some? {
      b[nNegIdx.value, vsourceIdx] := -1.0;
    }
    if nPosIdx.Some? {
      b[nPosIdx.value, vsourceIdx] := 1.0;
    }
    z[nb + vsourceIdx] := v;
  }

  /** The `Element::ISource` arm: assigns (does not add) `-i` and `i`. */
  method StampISource(z: array<real>, nodes: seq<nat>, neg: nat, pos: nat, i: real)
    requires Within(Row(nodes, neg), z.Length) && Within(Row(nodes, pos), z.Length)
    modifies z
    ensures forall r :: 0 <= r < z.Length ==>
      z[r] == if Row(nodes, pos) == Some(r) then i
              else if Row(nodes, neg) == Some(r) then -i
              else old(z[r])
  {
    var nNegIdx := IndexOf(nodes, neg);
    var nPosIdx := IndexOf(nodes, pos);
    if nNegIdx.Some? {
      z[nNegIdx.value] := -i;
    }
    if nPosIdx.Some? {
      z[nPosIdx.value] := i;
    }
  }

  /** What G, B, z and the voltage-source counter hold once the elements `es` are stamped. */
  ghost predicate Stamped(es: seq<Element>, nodes: seq<nat>, g: array2<real>, b: array2<real>, z: array<real>, vsourceIdx: nat)
    reads g, b, z
  {
    g.Length0 == g.Length1 == b.Length0 && z.Length == g.Length0 + b.Length1 &&
    vsourceIdx == |VSources(es)| &&
    (forall i, j :: 0 <= i < g.Length0 && 0 <= j < g.Length1 ==> g[i, j] == GSpec(es, nodes, i, j)) &&
    (forall i, c :: 0 <= i < b.Length0 && 0 <= c < b.Length1 ==>
      b[i, c] == if c < vsourceIdx then BSpec(es, nodes, i, c) else 0.0) &&
    (forall r :: 0 <= r < z.Length ==> z[r] == ZSpec(es, nodes, g.Length0, r))
  }

  /** One resistor of the loop keeps `Stamped`. */
  method ResistorStep(es: seq<Element>, e: Element, nodes: seq<nat>, refNode: nat,
                      g: array2<real>, b: array2<real>, z: array<real>, vsourceIdx: nat)
    requires e.Resistor? && g != b && Stamped(es, nodes, g, b, z, vsourceIdx)
    requires refNode !in nodes && (e.n1 == refNode || e.n1 in nodes) && (e.n2 == refNode || e.n2 in nodes)
    requires ElementInBounds(e, nodes, g.Length0, b.Length1)
    modifies g
    ensures Stamped(es + [e], nodes, g, b, z, vsourceIdx)
  {
    StampResistor(g, nodes, refNode, e.n1, e.n2, Conductance(e.r));
    assert (es + [e])[..|es|] == es;
  }

  /** One voltage source of the loop keeps `Stamped` and advances the counter. */
  method VSourceStep(es: seq<Element>, e: Element, nodes: seq<nat>,
                     g: array2<real>, b: array2<real>, z: array<real>, vsourceIdx: nat) returns (next: nat)
    requires e.VSource? && g != b && Stamped(es, nodes, g, b, z, vsourceIdx)
    requires ElementInBounds(e, nodes, g.Length0, b.Length1) && |VSources(es + [e])| <= b.Length1
    modifies b, z
    ensures Stamped(es + [e], nodes, g, b, z, next)
  {
    assert (es + [e])[..|es|] == es;
    StampVSource(b, z, nodes, e.neg, e.pos, e.v, g.Length0, vsourceIdx);
    next := vsourceIdx + 1;
  }

  /** One current source of the loop keeps `Stamped`. */
  method ISourceStep(es: seq<Element>, e: Element, nodes: seq<nat>,
                     g: array2<real>, b: array2<real>, z: array<real>, vsourceIdx: nat)
    requires e.ISource? && g != b && Stamped(es, nodes, g, b, z, vsourceIdx)
    requires ElementInBounds(e, nodes, g.Length0, b.Length1)
    modifies z
    ensures Stamped(es + [e], nodes, g, b, z, vsourceIdx)
  {
    StampISource(z, nodes, e.neg, e.pos, e.i);
    assert (es + [e])[..|es|] == es;
  }

  /**
    The loop over `elements` in `solve_dc`: stamps every element into the
    zeroed G, B and z, numbering voltage sources in list order. Afterwards
    each entry is what the specification functions say.
   */
  method StampAll(elements: seq<Element>, nodes: seq<nat>, refNode: nat,
                  g: array2<real>, b: array2<real>, z: array<real>) returns (vsourceIdx: nat)
    requires Covers(elements, nodes, refNode)
    requires g != b && g.Length0 == g.Length1 == b.Length0
    requires b.Length1 == NbVSources(elements) && z.Length == g.Length0 + b.Length1
    requires InBounds(elements, nodes, g.Length0, b.Length1)
    requires forall i, j :: 0 <= i < g.Length0 && 0 <= j < g.Length1 ==> g[i, j] == 0.0
    requires forall i, k :: 0 <= i < b.Length0 && 0 <= k < b.Length1 ==> b[i, k] == 0.0
    requires forall r :: 0 <= r < z.Length ==> z[r] == 0.0
    modifies g, b, z
    ensures vsourceIdx == NbVSources(elements)
    ensures forall i, j :: 0 <= i < g.Length0 && 0 <= j < g.Length1 ==> g[i, j] == GSpec(elements, nodes, i, j)
    ensures forall i, k :: 0 <= i < b.Length0 && 0 <= k < b.Length1 ==> b[i, k] == BSpec(elements, nodes, i, k)
    ensures forall r :: 0 <= r < z.Length ==> z[r] == ZSpec(elements, nodes, g.Length0, r)
  {
    vsourceIdx := 0;
    for k := 0 to |elements|
      invariant Stamped(elements[..k], nodes, g, b, z, vsourceIdx)
    {
      var e := elements[k];
      assert elements[..k + 1] == elements[..k] + [e];
      assert ElementInBounds(e, nodes, g.Length0, b.Length1);
      match e
      case Resistor(n1, n2, _) =>
        assert n1 in GetNodes(elements[k]) && n2 in GetNodes(elements[k]);
        ResistorStep(elements[..k], e, nodes, refNode, g, b, z, vsourceIdx);
      case VSource(_, _, _) =>
        VSourcesOfPrefix(elements, k + 1);
        vsourceIdx := VSourceStep(elements[..k], e, nodes, g, b, z, vsourceIdx);
      case ISource(_, _, _) =>
        ISourceStep(elements[..k], e, nodes, g, b, z, vsourceIdx);
    }
    assert elements[..|elements|] == elements;
  }

  /**
    The MNA matrix [[G, B], [Bᵀ, 0]] for the elements `es`, with `nb` node
    rows: G and B as the stamping pass leaves them.
   */
  ghost predicate SystemMatrix(es: seq<Element>, nodes: seq<nat>, nb: nat, a: array2<real>)
    reads a
  {
    a.Length0 == a.Length1 == nb + NbVSources(es) &&
    (forall i, j :: 0 <= i < nb && 0 <= j < nb ==> a[i, j] == GSpec(es, nodes, i, j)) &&
    (forall i, k :: 0 <= i < nb && 0 <= k < NbVSources(es) ==>
      a[i, nb + k] == BSpec(es, nodes, i, k) && a[nb + k, i] == BSpec(es, nodes, i, k)) &&
    (forall i, j :: nb <= i < a.Length0 && nb <= j < a.Length1 ==> a[i, j] == 0.0)
  }

  /** The MNA matrix is symmetric. */
  lemma SystemMatrixSymmetric(es: seq<Element>, nodes: seq<nat>, nb: nat, a: array2<real>)
    requires SystemMatrix(es, nodes, nb, a)
    ensures Blocks.Symmetric(a)
  {
    forall i, j | 0 <= i < a.Length0 && 0 <= j < a.Length1 ensures a[i, j] == a[j, i] {
      if i < nb && j < nb {
        GSpecSymmetric(es, nodes, i, j);
      } else if i < nb {
        var k := j - nb;
        assert a[i, nb + k] == BSpec(es, nodes, i, k) == a[nb + k, i];
      } else if j < nb {
        var k := i - nb;
        assert a[j, nb + k] == BSpec(es, nodes, j, k) == a[nb + k, j];
      }
    }
  }

  /**
    Lines 95-166 of `solve_dc`: allocate the zero blocks, stamp, transpose
    B and lay out [[G, B], [Bᵀ, 0]] with `nb` node rows.
   */
  method BuildSystem(elements: seq<Element>, nodes: seq<nat>, refNode: nat, nb: nat)
    returns (a: array2<real>, z: array<real>)
    requires Covers(elements, nodes, refNode)
    requires InBounds(elements, nodes, nb, NbVSources(elements))
    ensures fresh(a) && fresh(z)
    ensures SystemMatrix(elements, nodes, nb, a) && z.Length == a.Length0
    ensures forall r :: 0 <= r < z.Length ==> z[r] == ZSpec(elements, nodes, nb, r)
  {
    var nv := NbVSources(elements);
    var g := Blocks.Zeros(nb, nb);
    var b := Blocks.Zeros(nb, nv);
    var d := Blocks.Zeros(nv, nv);
    z := new real[nb + nv](_ => 0.0);
    var vsourceIdx := StampAll(elements, nodes, refNode, g, b, z);
    var c := Blocks.Transpose(b);
    a := Blocks.Stack(g, b, c, d);
    forall i, j | nb <= i < a.Length0 && nb <= j < a.Length1 ensures a[i, j] == 0.0 {
      assert a[i, j] == d[i - nb, j - nb];
    }
    forall i, k | 0 <= i < nb && 0 <= k < nv
      ensures a[i, nb + k] == BSpec(elements, nodes, i, k) && a[nb + k, i] == BSpec(elements, nodes, i, k)
    {
      assert a[i, nb + k] == b[i, k];
      assert a[nb + k, i] == c[k, i] == b[i, k];
    }
  }

  /** G is symmetric: every resistor stamp is. */
  lemma {:induction false} GSpecSymmetric(es: seq<Element>, nodes: seq<nat>, i: nat, j: nat)
    ensures GSpec(es, nodes, i, j) == GSpec(es, nodes, j, i)
  {
    if es != [] {
      GSpecSymmetric(es[..|es| - 1], nodes, i, j);
      match es[|es| - 1]
      case Resistor(n1, n2, r) =>
        ResistorStampShape(Row(nodes, n1), Row(nodes, n2), Conductance(r), i, j);
      case _ =>
    }
  }

  /** G does not depend on the order of the elements. */
  lemma GSpecOrderFree(es1: seq<Element>, es2: seq<Element>, nodes: seq<nat>, i: nat, j: nat)
    requires multiset(es1) == multiset(es2)
    ensures GSpec(es1, nodes, i, j) == GSpec(es2, nodes, i, j)
  {
    SumOfPermutation(es1, es2, GWeight(nodes, i, j));
  }

  /**
    `solve_dc` up to the LU solve: builds the ordered node set, removes the
    least node as reference, counts resistors and voltage sources and
    assembles the system with one node row per RESISTOR. It panics on an
    empty element list (`expect`) and whenever a row index falls outside
    the resistor-sized blocks; both are preconditions here. The result
    has the node order actually used, and the slice of the solution taken
    at the end (`0..nodes.len()`) is in range.
   */
  method SolveDc(elements: seq<Element>) returns (a: array2<real>, z: array<real>, nodes: seq<nat>)
    requires elements != []
    requires InBounds(elements, NodeOrder(elements), NbEltNodes(elements), NbVSources(elements))
    ensures fresh(a) && fresh(z)
    ensures nodes == NodeOrder(elements)
    ensures SystemMatrix(elements, nodes, NbEltNodes(elements), a) && Blocks.Symmetric(a)
    ensures z.Length == NbEltNodes(elements) + NbVSources(elements)
    ensures forall r :: 0 <= r < z.Length ==> z[r] == ZSpec(elements, nodes, NbEltNodes(elements), r)
    ensures |nodes| <= z.Length
  {
    var all := CreateNodesSet(elements);
    PopFirstSplitsNodes(elements, all);
    var popped := PopFirst(all);
    var refNode := popped.value.0;
    nodes := popped.value.1;
    var nbEltNodes := NbEltNodes(elements);
    var nbVSources := NbVSources(elements);
    CoversNodeOrder(elements);
    a, z := BuildSystem(elements, nodes, refNode, nbEltNodes);
    SystemMatrixSymmetric(elements, nodes, nbEltNodes, a);
    SliceInBounds(elements, nodes, nbEltNodes, nbVSources);
  }

  /** `pop_first` on the ascending node list yields the reference node and the node order. */
  lemma PopFirstSplitsNodes(es: seq<Element>, all: seq<nat>)
    requires es != [] && Sorted(all) && Elems(all) == NodesOf(es)
    ensures PopFirst(all) == Some((RefNode(es), NodeOrder(es)))
  {
    NodesOfEmpty(es);
    ElemsEmpty(all);
    NodeOrderOf(es, all);
  }

  /** Every terminal is the reference node or a non-reference node, and the reference is not one of those. */
  lemma CoversNodeOrder(es: seq<Element>)
    requires es != []
    ensures Covers(es, NodeOrder(es), RefNode(es))
  {
    forall e, x | e in es && x in GetNodes(e)
      ensures x == RefNode(es) || x in NodeOrder(es)
    {
      var k :| 0 <= k < |es| && es[k] == e;
      NodesOfMembers(es, x);
    }
  }

  /** A terminal of an element whose writes are in bounds has a row below nb + nv. */
  lemma TerminalInBounds(e: Element, nodes: seq<nat>, nb: nat, nv: nat, x: nat)
    requires ElementInBounds(e, nodes, nb, nv) && x in GetNodes(e)
    ensures Within(Row(nodes, x), nb + nv)
  {
    assert x == GetNodes(e)[0] || x == GetNodes(e)[1];
  }

  /**
    When no index write panics, there are at most nb + nv nodes, so the
    final slice `0..nodes.len()` of the solution is in range.
   */
  lemma SliceInBounds(es: seq<Element>, nodes: seq<nat>, nb: nat, nv: nat)
    requires Distinct(nodes) && Elems(nodes) <= NodesOf(es)
    requires InBounds(es, nodes, nb, nv)
    ensures |nodes| <= nb + nv
  {
    if |nodes| > nb + nv {
      var x := nodes[|nodes| - 1];
      assert x in Elems(nodes);
      NodesOfMembers(es, x);
      var k :| 0 <= k < |es| && x in GetNodes(es[k]);
      TerminalInBounds(es[k], nodes, nb, nv, x);
      IndexOfDistinct(nodes, |nodes| - 1);
      assert false;
    }
  }

  /** The node order of a list whose nodes, in ascending order, are `all`. */
  lemma NodeOrderOf(es: seq<Element>, all: seq<nat>)
    requires es != [] && all != [] && Sorted(all) && Elems(all) == NodesOf(es)
    ensures NodeOrder(es) == all[1..] && RefNode(es) == all[0]
  {
    SortedUnique(all, AscendingOf(NodesOf(es)));
  }

  // ---------------------------------------------------------------------
  // What the assembled rows mean

  /** Row i of G applied to node voltages `x`. */
  function GRowDot(es: seq<Element>, nodes: seq<nat>, i: nat, x: seq<real>): real
  {
    Dot((j: nat) => GSpec(es, nodes, i, j), x, |x|)
  }

  lemma GSpecLast(es: seq<Element>, nodes: seq<nat>, i: nat)
    requires es != []
    ensures forall j :: GSpec(es, nodes, i, j) == GSpec(es[..|es| - 1], nodes, i, j) + GStamp(es[|es| - 1], nodes, i, j)
  {
  }

  /** Row i of a non-resistor's (empty) stamp applied to `x` is 0. */
  lemma {:induction false} NoStampRowDot(e: Element, nodes: seq<nat>, i: nat, x: seq<real>, n: nat)
    requires !e.Resistor? && n <= |x|
    ensures Dot((j: nat) => GStamp(e, nodes, i, j), x, n) == 0.0
  {
    if n > 0 {
      NoStampRowDot(e, nodes, i, x, n - 1);
    }
  }

  /** The current one resistor carries away from row i's node under node voltages `x`. */
  function Outflow(e: Element, nodes: seq<nat>, i: nat, x: seq<real>): real
  {
    match e
    case Resistor(n1, n2, r) =>
      if Within(Row(nodes, n1), |x|) && Within(Row(nodes, n2), |x|)
      then Leaving(Row(nodes, n1), Row(nodes, n2), Conductance(r), i, x)
      else 0.0
    case _ => 0.0
  }

  /** The current all resistors carry away from row i's node. */
  function ResistorOutflow(es: seq<Element>, nodes: seq<nat>, i: nat, x: seq<real>): real
  {
    SumOf(es, e => Outflow(e, nodes, i, x))
  }

  /** Every resistor terminal has a row below `n` or is the reference node. */
  predicate ResistorsWithin(es: seq<Element>, nodes: seq<nat>, n: nat)
  {
    forall e :: e in es && e.Resistor? ==> Within(Row(nodes, e.n1), n) && Within(Row(nodes, e.n2), n)
  }

  /**
    Kirchhoff's current law for G: row i of G applied to the node voltages
    is the total current the resistors carry away from row i's node.
   */
  lemma {:induction false} GKcl(es: seq<Element>, nodes: seq<nat>, i: nat, x: seq<real>)
    requires ResistorsWithin(es, nodes, |x|)
    ensures GRowDot(es, nodes, i, x) == ResistorOutflow(es, nodes, i, x)
  {
    if es == [] {
      DotZero((j: nat) => GSpec(es, nodes, i, j), x, |x|);
    } else {
      var init, e := es[..|es| - 1], es[|es| - 1];
      assert ResistorsWithin(init, nodes, |x|);
      GKcl(init, nodes, i, x);
      GSpecLast(es, nodes, i);
      if e.Resistor? {
        var p1, p2, gv := Row(nodes, e.n1), Row(nodes, e.n2), Conductance(e.r);
        DotAdd((j: nat) => GSpec(init, nodes, i, j), (j: nat) => ResistorStamp(p1, p2, gv, i, j), (j: nat) => GSpec(es, nodes, i, j), x, |x|);
        ResistorRowIsDot(p1, p2, gv, i, x, |x|);
        ResistorCurrent(p1, p2, gv, i, x);
      } else {
        DotAdd((j: nat) => GSpec(init, nodes, i, j), (j: nat) => GStamp(e, nodes, i, j), (j: nat) => GSpec(es, nodes, i, j), x, |x|);
        NoStampRowDot(e, nodes, i, x, |x|);
      }
      assert ResistorOutflow(es, nodes, i, x) == ResistorOutflow(init, nodes, i, x) + Outflow(e, nodes, i, x);
    }
  }

  /** Column k of B applied to `x`, over the first `n` rows (row k of C = Bᵀ). */
  function BColumnDot(es: seq<Element>, nodes: seq<nat>, k: nat, x: seq<real>, n: nat): real
    requires k < |VSources(es)| && n <= |x|
  {
    if n == 0 then 0.0 else BColumnDot(es, nodes, k, x, n - 1) + BSpec(es, nodes, n - 1, k) * x[n - 1]
  }

  lemma {:induction false} BColumnIsColumnDot(es: seq<Element>, nodes: seq<nat>, k: nat, x: seq<real>, n: nat)
    requires k < |VSources(es)| && n <= |x|
    ensures BColumnDot(es, nodes, k, x, n)
         == ColumnDot(Row(nodes, Branch(es, k).neg), Row(nodes, Branch(es, k).pos), x, n)
  {
    if n > 0 {
      BColumnIsColumnDot(es, nodes, k, x, n - 1);
    }
  }

  /**
    Branch equation of voltage source k (row k of C = Bᵀ, with D = 0):
    applied to the node voltages it gives V(pos) - V(neg), with the
    positive terminal winning when both terminals share a row.
   */
  lemma BranchEquation(es: seq<Element>, nodes: seq<nat>, k: nat, x: seq<real>)
    requires k < |VSources(es)|
    requires Within(Row(nodes, Branch(es, k).neg), |x|) && Within(Row(nodes, Branch(es, k).pos), |x|)
    ensures BColumnDot(es, nodes, k, x, |x|)
         == Volt(x, Row(nodes, Branch(es, k).pos))
          - (if Row(nodes, Branch(es, k).neg) == Row(nodes, Branch(es, k).pos) then 0.0
             else Volt(x, Row(nodes, Branch(es, k).neg)))
  {
    BColumnIsColumnDot(es, nodes, k, x, |x|);
    VSourceBranch(Row(nodes, Branch(es, k).neg), Row(nodes, Branch(es, k).pos), x);
  }

  /** Current sources write only the first `nb` rows of z. */
  predicate ISourcesWithin(es: seq<Element>, nodes: seq<nat>, nb: nat)
  {
    forall e :: e in es && e.ISource? ==> Within(Row(nodes, e.neg), nb) && Within(Row(nodes, e.pos), nb)
  }

  /**
    When no current source writes past the node rows, branch row nb + k of
    z holds the value of voltage source k. Without that hypothesis it fails:
    see `CurrentSourceOverwritesBranch`.
   */
  lemma {:induction false} ZBranchRows(es: seq<Element>, nodes: seq<nat>, nb: nat, k: nat)
    requires ISourcesWithin(es, nodes, nb) && k < |VSources(es)|
    ensures ZSpec(es, nodes, nb, nb + k) == Branch(es, k).v
  {
    var init, e := es[..|es| - 1], es[|es| - 1];
    assert es == init + [e];
    if e.VSource? && k == |VSources(init)| {
    } else {
      ZBranchRows(init, nodes, nb, k);
    }
  }

  // ---------------------------------------------------------------------
  // Findings: the code as written

  /** What the list functions give for a list with one more element. */
  lemma AppendOne(es: seq<Element>, e: Element)
    ensures NodesOf(es + [e]) == NodesOf(es) + Elems(GetNodes(e))
    ensures Resistors(es + [e]) == Resistors(es) + (if e.Resistor? then [e] else [])
    ensures VSources(es + [e]) == VSources(es) + (if e.VSource? then [e] else [])
    ensures WithoutISources(es + [e]) == WithoutISources(es) + (if e.ISource? then [] else [e])
  {
    assert (es + [e])[..|es|] == es;
  }

  /** A list stays in bounds when the element appended to it is. */
  lemma InBoundsSnoc(es: seq<Element>, e: Element, nodes: seq<nat>, nb: nat, nv: nat)
    requires InBounds(es, nodes, nb, nv) && ElementInBounds(e, nodes, nb, nv)
    ensures InBounds(es + [e], nodes, nb, nv)
  {
  }

  /** The node order of a list whose nodes are exactly n1 < n2: only n2. */
  lemma NodeOrderOfPair(es: seq<Element>, n1: nat, n2: nat)
    requires n1 < n2 && NodesOf(es) == {n1, n2}
    ensures NodeOrder(es) == [n2]
  {
    ElemsPair(n1, n2);
    NodeOrderOf(es, [n1, n2]);
  }

  /** The node order of a list whose nodes are exactly n1 < n2 < n3: n2 then n3. */
  lemma NodeOrderOfTriple(es: seq<Element>, n1: nat, n2: nat, n3: nat)
    requires n1 < n2 < n3 && NodesOf(es) == {n1, n2, n3}
    ensures NodeOrder(es) == [n2, n3]
  {
    var all := [n1, n2, n3];
    assert Elems(all) == {n1, n2, n3} by {
      assert n1 == all[0] && n2 == all[1] && n3 == all[2];
    }
    NodeOrderOf(es, all);
  }

  /** Rows of G past the non-reference nodes receive no stamp. */
  lemma {:induction false} GRowsPastNodes(es: seq<Element>, nodes: seq<nat>, i: nat, j: nat)
    requires i >= |nodes|
    ensures GSpec(es, nodes, i, j) == 0.0
  {
    if es != [] {
      GRowsPastNodes(es[..|es| - 1], nodes, i, j);
    }
  }

  /**
    When G gets more rows than there are non-reference nodes, each row of
    the MNA matrix past the nodes is zero from end to end, so the matrix is
    singular and the LU solve cannot succeed.
   */
  lemma ExtraRowIsZero(es: seq<Element>, nodes: seq<nat>, nb: nat, a: array2<real>, i: nat)
    requires SystemMatrix(es, nodes, nb, a)
    requires |nodes| <= i < nb
    ensures forall j :: 0 <= j < a.Length1 ==> a[i, j] == 0.0
  {
    forall j | 0 <= j < a.Length1 ensures a[i, j] == 0.0 {
      if j < nb {
        GRowsPastNodes(es, nodes, i, j);
      } else {
        var k := j - nb;
        assert a[i, nb + k] == BSpec(es, nodes, i, k);
      }
    }
  }

  /**
    Two resistors in parallel between nodes n1 < n2: one non-reference
    node but two rows of G, the second of them zero, and no index write
    out of bounds. The code reaches the solve with the singular matrix of
    `ExtraRowIsZero`.
   */
  lemma ResistorSizedZeroRow(n1: nat, n2: nat, r1: Ohms, r2: Ohms)
    requires n1 < n2
    ensures var es := [Resistor(n1, n2, r1), Resistor(n1, n2, r2)];
      NodeOrder(es) == [n2] && NbEltNodes(es) == 2 && NbVSources(es) == 0 &&
      InBounds(es, [n2], 2, 0) && forall j :: GSpec(es, [n2], 1, j) == 0.0
  {
    var e1, e2 := Resistor(n1, n2, r1), Resistor(n1, n2, r2);
    var es := [e1, e2];
    assert es == [e1] + [e2] && [e1] == [] + [e1];
    assert NodeOrder(es) == [n2] by {
      AppendOne([], e1);
      AppendOne([e1], e2);
      NodeOrderOfPair(es, n1, n2);
    }
    assert NbEltNodes(es) == 2 && NbVSources(es) == 0 by {
      AppendOne([], e1);
      AppendOne([e1], e2);
    }
    assert InBounds(es, [n2], 2, 0) by {
      assert Row([n2], n1) == None && Row([n2], n2) == Some(0);
      InBoundsSnoc([], e1, [n2], 2, 0);
      InBoundsSnoc([e1], e2, [n2], 2, 0);
    }
    forall j {
      GRowsPastNodes(es, [n2], 1, j);
    }
  }

  /**
    A resistor between nodes n2 and n3, each held by a voltage source
    against node n1 < n2 < n3: two non-reference nodes but one resistor,
    so the stamp of the resistor indexes G out of bounds and the code
    panics.
   */
  lemma ResistorSizedOutOfBounds(n1: nat, n2: nat, n3: nat, r: Ohms, v2: real, v3: real)
    requires n1 < n2 < n3
    ensures var es := [Resistor(n2, n3, r), VSource(n1, n2, v2), VSource(n1, n3, v3)];
      NodeOrder(es) == [n2, n3] && NbEltNodes(es) == 1 && NbVSources(es) == 2 &&
      !InBounds(es, NodeOrder(es), NbEltNodes(es), NbVSources(es))
  {
    var e1, e2, e3 := Resistor(n2, n3, r), VSource(n1, n2, v2), VSource(n1, n3, v3);
    var es := [e1, e2, e3];
    HeldPairNodes(e1, e2, e3, n1, n2, n3);
    HeldPairCounts(e1, e2, e3);
    assert !ElementInBounds(e1, [n2, n3], 1, 2) by {
      assert Row([n2, n3], n3) == Some(1);
    }
    assert e1 in es;
  }

  /** The node order of the list of `ResistorSizedOutOfBounds`. */
  lemma HeldPairNodes(e1: Element, e2: Element, e3: Element, n1: nat, n2: nat, n3: nat)
    requires n1 < n2 < n3
    requires GetNodes(e1) == [n2, n3] && GetNodes(e2) == [n1, n2] && GetNodes(e3) == [n1, n3]
    ensures NodeOrder([e1, e2, e3]) == [n2, n3]
  {
    var es := [e1, e2, e3];
    NodesOfThree(e1, e2, e3);
    assert NodesOf(es) == {n1, n2, n3} by {
      ElemsPair(n2, n3);
      ElemsPair(n1, n2);
      ElemsPair(n1, n3);
    }
    NodeOrderOfTriple(es, n1, n2, n3);
  }

  /** The element counts of the list of `ResistorSizedOutOfBounds`. */
  lemma HeldPairCounts(e1: Element, e2: Element, e3: Element)
    requires e1.Resistor? && e2.VSource? && e3.VSource?
    ensures NbEltNodes([e1, e2, e3]) == 1 && NbVSources([e1, e2, e3]) == 2
  {
    var es := [e1, e2, e3];
    assert es == [e1, e2] + [e3] && [e1, e2] == [e1] + [e2] && [e1] == [] + [e1];
    AppendOne([], e1);
    AppendOne([e1], e2);
    AppendOne([e1, e2], e3);
  }

  /** The node set of a three-element list. */
  lemma NodesOfThree(e1: Element, e2: Element, e3: Element)
    ensures NodesOf([e1, e2, e3]) == Elems(GetNodes(e1)) + Elems(GetNodes(e2)) + Elems(GetNodes(e3))
  {
    assert [e1, e2, e3] == [e1, e2] + [e3] && [e1, e2] == [e1] + [e2] && [e1] == [] + [e1];
    AppendOne([], e1);
    AppendOne([e1], e2);
    AppendOne([e1, e2], e3);
  }

  /**
    A resistor from n1 to n2 > n1 followed by current sources `ia` then
    `ib` from n1 into n2: one non-reference node, one resistor, no voltage
    source, and every index write in bounds.
   */
  lemma TwoCurrentSourcesShape(n1: nat, n2: nat, r: Ohms, ia: real, ib: real)
    requires n1 < n2
    ensures var es := [Resistor(n1, n2, r), ISource(n1, n2, ia), ISource(n1, n2, ib)];
      NodeOrder(es) == [n2] && NbEltNodes(es) == 1 && NbVSources(es) == 0 && InBounds(es, [n2], 1, 0)
  {
    var e0, ea, eb := Resistor(n1, n2, r), ISource(n1, n2, ia), ISource(n1, n2, ib);
    var es := [e0, ea, eb];
    assert es == [e0, ea] + [eb] && [e0, ea] == [e0] + [ea] && [e0] == [] + [e0];
    assert NodeOrder(es) == [n2] by {
      AppendOne([], e0);
      AppendOne([e0], ea);
      AppendOne([e0, ea], eb);
      NodeOrderOfPair(es, n1, n2);
    }
    assert NbEltNodes(es) == 1 && NbVSources(es) == 0 by {
      AppendOne([], e0);
      AppendOne([e0], ea);
      AppendOne([e0, ea], eb);
    }
    assert InBounds(es, [n2], 1, 0) by {
      assert Row([n2], n2) == Some(0) && Row([n2], n1) == None;
      InBoundsSnoc([], e0, [n2], 1, 0);
      InBoundsSnoc([e0], ea, [n2], 1, 0);
      InBoundsSnoc([e0, ea], eb, [n2], 1, 0);
    }
  }

  /**
    For the same list, z's only node row holds `ib`, the current written
    last, while the net current injected there is ia + ib.
   */
  lemma TwoCurrentSources(n1: nat, n2: nat, r: Ohms, ia: real, ib: real)
    requires n1 < n2
    ensures var es := [Resistor(n1, n2, r), ISource(n1, n2, ia), ISource(n1, n2, ib)];
      ZSpec(es, [n2], 1, 0) == ib && Injection(es, [n2], 0) == ia + ib
  {
    var e0, ea, eb := Resistor(n1, n2, r), ISource(n1, n2, ia), ISource(n1, n2, ib);
    var es := [e0, ea, eb];
    assert es == [e0, ea] + [eb] && [e0, ea] == [e0] + [ea] && [e0] == [] + [e0];
    assert Row([n2], n2) == Some(0) && Row([n2], n1) == None;
    assert ZSpec(es, [n2], 1, 0) == ib;
    assert Injection(es, [n2], 0) == ia + ib by {
      var w := InjectionWeight([n2], 0);
      SumOfSnoc([], e0, w);
      SumOfSnoc([e0], ea, w);
      SumOfSnoc([e0, ea], eb, w);
    }
  }

  /**
    Two current sources i1 != i2 from node n1 into node n2 > n1: the
    later one overwrites the earlier one in z, so z depends on their order
    and matches neither order's net injection i1 + i2.
   */
  lemma CurrentSourcesOverwrite(n1: nat, n2: nat, r: Ohms, i1: real, i2: real)
    requires n1 < n2
    ensures var es1 := [Resistor(n1, n2, r), ISource(n1, n2, i1), ISource(n1, n2, i2)];
            var es2 := [Resistor(n1, n2, r), ISource(n1, n2, i2), ISource(n1, n2, i1)];
      multiset(es1) == multiset(es2) && NodeOrder(es1) == NodeOrder(es2) == [n2] &&
      NbEltNodes(es1) == NbEltNodes(es2) == 1 && NbVSources(es1) == NbVSources(es2) == 0 &&
      InBounds(es1, [n2], 1, 0) && InBounds(es2, [n2], 1, 0) &&
      ZSpec(es1, [n2], 1, 0) == i2 && ZSpec(es2, [n2], 1, 0) == i1 &&
      Injection(es1, [n2], 0) == Injection(es2, [n2], 0) == i1 + i2
  {
    TwoCurrentSourcesShape(n1, n2, r, i1, i2);
    TwoCurrentSourcesShape(n1, n2, r, i2, i1);
    TwoCurrentSources(n1, n2, r, i1, i2);
    TwoCurrentSources(n1, n2, r, i2, i1);
  }

  /**
    A resistor and a voltage source from n1 to n2, and a current source
    from n1 into n3, with n1 < n2 < n3: two non-reference nodes, one
    resistor and one voltage source, so node n3 gets row 1, which is also
    the branch row of the voltage source (nb + 0). Every index write is in
    bounds, so nothing panics.
   */
  lemma BranchRowShape(n1: nat, n2: nat, n3: nat, r: Ohms, v: real, i: real)
    requires n1 < n2 < n3
    ensures var es := [Resistor(n1, n2, r), VSource(n1, n2, v), ISource(n1, n3, i)];
      NodeOrder(es) == [n2, n3] && NbEltNodes(es) == 1 && NbVSources(es) == 1 &&
      Branch(es, 0) == VSource(n1, n2, v) && InBounds(es, [n2, n3], 1, 1)
  {
    var e1, e2, e3 := Resistor(n1, n2, r), VSource(n1, n2, v), ISource(n1, n3, i);
    BranchRowNodes(e1, e2, e3, n1, n2, n3);
    BranchRowCounts(e1, e2, e3);
    BranchRowBounds(e1, e2, e3, n1, n2, n3);
  }

  /** The node order of the list of `BranchRowShape`. */
  lemma BranchRowNodes(e1: Element, e2: Element, e3: Element, n1: nat, n2: nat, n3: nat)
    requires n1 < n2 < n3
    requires GetNodes(e1) == [n1, n2] && GetNodes(e2) == [n1, n2] && GetNodes(e3) == [n1, n3]
    ensures NodeOrder([e1, e2, e3]) == [n2, n3]
  {
    var es := [e1, e2, e3];
    NodesOfThree(e1, e2, e3);
    assert NodesOf(es) == {n1, n2, n3} by {
      ElemsPair(n1, n2);
      ElemsPair(n1, n3);
    }
    NodeOrderOfTriple(es, n1, n2, n3);
  }

  /** The resistors and voltage sources of the list of `BranchRowShape`. */
  lemma BranchRowCounts(e1: Element, e2: Element, e3: Element)
    requires e1.Resistor? && e2.VSource? && e3.ISource?
    ensures Resistors([e1, e2, e3]) == [e1] && VSources([e1, e2, e3]) == [e2]
  {
    assert Resistors([e1]) == [e1] && VSources([e1]) == [] by {
      assert [e1] == [] + [e1];
      AppendOne([], e1);
    }
    assert Resistors([e1, e2]) == [e1] && VSources([e1, e2]) == [e2] by {
      assert [e1, e2] == [e1] + [e2];
      AppendOne([e1], e2);
    }
    assert [e1, e2, e3] == [e1, e2] + [e3];
    AppendOne([e1, e2], e3);
  }

  /** Every index write for the list of `BranchRowShape` is in bounds with nb = nv = 1. */
  lemma BranchRowBounds(e1: Element, e2: Element, e3: Element, n1: nat, n2: nat, n3: nat)
    requires n1 < n2 < n3
    requires e1.Resistor? && e1.n1 == n1 && e1.n2 == n2
    requires e2.VSource? && e2.neg == n1 && e2.pos == n2
    requires e3.ISource? && e3.neg == n1 && e3.pos == n3
    ensures InBounds([e1, e2, e3], [n2, n3], 1, 1)
  {
    assert Row([n2, n3], n1) == None && Row([n2, n3], n2) == Some(0) && Row([n2, n3], n3) == Some(1);
    assert ElementInBounds(e1, [n2, n3], 1, 1) && ElementInBounds(e2, [n2, n3], 1, 1);
    assert ElementInBounds(e3, [n2, n3], 1, 1);
  }

  /**
    For the list of `BranchRowShape`, the current source's write at line
    156 lands in branch row nb + 0 after the voltage source wrote `v`
    there: z holds `i` where the branch equation needs `v`, and the
    solver returns without an error. So `ZBranchRows` cannot drop its
    `ISourcesWithin` hypothesis.
   */
  lemma CurrentSourceOverwritesBranch(n1: nat, n2: nat, n3: nat, r: Ohms, v: real, i: real)
    requires n1 < n2 < n3
    ensures var es := [Resistor(n1, n2, r), VSource(n1, n2, v), ISource(n1, n3, i)];
      NodeOrder(es) == [n2, n3] && NbEltNodes(es) == 1 && NbVSources(es) == 1 &&
      InBounds(es, [n2, n3], 1, 1) && !ISourcesWithin(es, [n2, n3], 1) &&
      Branch(es, 0).v == v && ZSpec(es, [n2, n3], 1, 1) == i
  {
    var es := [Resistor(n1, n2, r), VSource(n1, n2, v), ISource(n1, n3, i)];
    BranchRowShape(n1, n2, n3, r, v, i);
    assert Row([n2, n3], n3) == Some(1);
    assert es[2] in es;
  }

  // ---------------------------------------------------------------------
  // Findings: the corrected assembly

  /** What one element injects into row r: `i` at a current source's positive row, `-i` at its negative row. */
  function ISourceInjection(e: Element, nodes: seq<nat>, r: nat): real
  {
    match e
    case ISource(neg, pos, i) =>
      (if Row(nodes, pos) == Some(r) then i else 0.0) - (if Row(nodes, neg) == Some(r) then i else 0.0)
    case _ => 0.0
  }

  /** Row r of each element's injection, as a function of the element. */
  function InjectionWeight(nodes: seq<nat>, r: nat): Element -> real
  {
    e => ISourceInjection(e, nodes, r)
  }

  /** The net current the current sources inject into row r. */
  function Injection(es: seq<Element>, nodes: seq<nat>, r: nat): real
  {
    SumOf(es, InjectionWeight(nodes, r))
  }

  /** The injected currents do not depend on the order of the elements. */
  lemma InjectionOrderFree(es1: seq<Element>, es2: seq<Element>, nodes: seq<nat>, r: nat)
    requires multiset(es1) == multiset(es2)
    ensures Injection(es1, nodes, r) == Injection(es2, nodes, r)
  {
    SumOfPermutation(es1, es2, InjectionWeight(nodes, r));
  }

  /** Nothing is injected past the node rows. */
  lemma {:induction false} InjectionOutsideNodes(es: seq<Element>, nodes: seq<nat>, r: nat)
    requires r >= |nodes|
    ensures Injection(es, nodes, r) == 0.0
  {
    if es != [] {
      InjectionOutsideNodes(es[..|es| - 1], nodes, r);
    }
  }

  /** The corrected current-source arm: adds `-i` and `i` instead of assigning them. */
  method StampISourceAdding(z: array<real>, nodes: seq<nat>, neg: nat, pos: nat, i: real)
    requires Within(Row(nodes, neg), z.Length) && Within(Row(nodes, pos), z.Length)
    modifies z
    ensures forall r :: 0 <= r < z.Length ==> z[r] == old(z[r]) + ISourceInjection(ISource(neg, pos, i), nodes, r)
  {
    var nNegIdx := IndexOf(nodes, neg);
    var nPosIdx := IndexOf(nodes, pos);
    if nNegIdx.Some? {
      z[nNegIdx.value] := z[nNegIdx.value] - i;
    }
    if nPosIdx.Some? {
      z[nPosIdx.value] := z[nPosIdx.value] + i;
    }
  }

  /** Adds the injection of every current source of the list to z. */
  method InjectCurrents(elements: seq<Element>, nodes: seq<nat>, z: array<real>)
    requires ISourcesWithin(elements, nodes, z.Length)
    modifies z
    ensures forall r :: 0 <= r < z.Length ==> z[r] == old(z[r]) + Injection(elements, nodes, r)
  {
    for k := 0 to |elements|
      invariant forall r :: 0 <= r < z.Length ==> z[r] == old(z[r]) + Injection(elements[..k], nodes, r)
    {
      assert elements[..k + 1][..k] == elements[..k];
      match elements[k]
      case ISource(neg, pos, i) =>
        StampISourceAdding(z, nodes, neg, pos, i);
      case _ =>
    }
    assert elements[..|elements|] == elements;
  }

  /** The resistors and voltage sources of the list, in list order. */
  function WithoutISources(es: seq<Element>): (ps: seq<Element>)
    ensures forall e :: e in ps <==> e in es && !e.ISource?
  {
    if es == [] then []
    else
      assert es == es[..|es| - 1] + [es[|es| - 1]];
      WithoutISources(es[..|es| - 1]) + (if es[|es| - 1].ISource? then [] else [es[|es| - 1]])
  }

  /** Dropping the current sources keeps the voltage sources, in order. */
  lemma {:induction false} WithoutISourcesVSources(es: seq<Element>)
    ensures VSources(WithoutISources(es)) == VSources(es)
  {
    if es != [] {
      var init, e := es[..|es| - 1], es[|es| - 1];
      var ps := WithoutISources(init);
      assert es == init + [e];
      WithoutISourcesVSources(init);
      if e.ISource? {
        assert WithoutISources(es) == ps && VSources(es) == VSources(init) by {
          AppendOne(init, e);
          assert ps + [] == ps && VSources(init) + [] == VSources(init);
        }
      } else {
        assert WithoutISources(es) == ps + [e] by {
          AppendOne(init, e);
        }
        assert VSources(es) == VSources(init) + (if e.VSource? then [e] else []) by {
          AppendOne(init, e);
        }
        AppendOne(ps, e);
      }
    }
  }

  /** Dropping the current sources leaves every entry of G unchanged. */
  lemma {:induction false} WithoutISourcesG(es: seq<Element>, nodes: seq<nat>, i: nat, j: nat)
    ensures GSpec(WithoutISources(es), nodes, i, j) == GSpec(es, nodes, i, j)
  {
    if es != [] {
      var init, e := es[..|es| - 1], es[|es| - 1];
      var ps := WithoutISources(init);
      assert es == init + [e];
      WithoutISourcesG(init, nodes, i, j);
      if e.ISource? {
        assert WithoutISources(es) == ps by {
          AppendOne(init, e);
          assert ps + [] == ps;
        }
      } else {
        assert WithoutISources(es) == ps + [e] by {
          AppendOne(init, e);
        }
        SumOfSnoc(ps, e, GWeight(nodes, i, j));
      }
    }
  }

  /** Without current sources, the node rows of z stay 0. */
  lemma {:induction false} ZSpecNoISources(es: seq<Element>, nodes: seq<nat>, nb: nat, r: nat)
    requires forall e :: e in es ==> !e.ISource?
    requires r < nb
    ensures ZSpec(es, nodes, nb, r) == 0.0
  {
    if es != [] {
      ZSpecNoISources(es[..|es| - 1], nodes, nb, r);
    }
  }

  /** With one node row per non-reference node, no index write is out of bounds. */
  lemma NodeSizedInBounds(es: seq<Element>, nv: nat)
    requires es != []
    ensures InBounds(es, NodeOrder(es), |NodeOrder(es)|, nv)
  {
    CoversNodeOrder(es);
    forall e | e in es ensures ElementInBounds(e, NodeOrder(es), |NodeOrder(es)|, nv) {
      assert GetNodes(e)[0] in GetNodes(e) && GetNodes(e)[1] in GetNodes(e);
    }
  }

  /**
    The code as written stays in bounds, and its current sources write only
    node rows, whenever there are at least as many resistors as
    non-reference nodes: then `SolveDc` may be called and `ZBranchRows`
    applies.
   */
  lemma ResistorSizedInBounds(es: seq<Element>)
    requires es != [] && |NodeOrder(es)| <= NbEltNodes(es)
    ensures InBounds(es, NodeOrder(es), NbEltNodes(es), NbVSources(es))
    ensures ISourcesWithin(es, NodeOrder(es), NbEltNodes(es))
  {
    NodeSizedInBounds(es, NbVSources(es));
  }

  /** The matrix of the list without current sources is the matrix of the list. */
  lemma SystemMatrixWithoutISources(es: seq<Element>, nodes: seq<nat>, nb: nat, a: array2<real>)
    requires SystemMatrix(WithoutISources(es), nodes, nb, a)
    ensures SystemMatrix(es, nodes, nb, a)
  {
    WithoutISourcesVSources(es);
    forall i, j | 0 <= i < nb && 0 <= j < nb ensures a[i, j] == GSpec(es, nodes, i, j) {
      WithoutISourcesG(es, nodes, i, j);
    }
    forall i, k | 0 <= i < nb && 0 <= k < NbVSources(es)
      ensures a[i, nb + k] == BSpec(es, nodes, i, k) && a[nb + k, i] == BSpec(es, nodes, i, k)
    {
      var ps := WithoutISources(es);
      assert k < NbVSources(ps);
      assert Branch(ps, k) == Branch(es, k);
      assert a[i, nb + k] == BSpec(ps, nodes, i, k) && a[nb + k, i] == BSpec(ps, nodes, i, k);
    }
  }

  /**
    The node rows of the right-hand side after the corrected assembly:
    the stamping pass without current sources leaves them 0, so adding
    the injections leaves the net injection at each node row.
   */
  lemma CorrectedNodeRows(es: seq<Element>, nodes: seq<nat>, z0: seq<real>, zs: seq<real>)
    requires |z0| == |zs| >= |nodes|
    requires forall r :: 0 <= r < |z0| ==> z0[r] == ZSpec(WithoutISources(es), nodes, |nodes|, r)
    requires forall r :: 0 <= r < |zs| ==> zs[r] == z0[r] + Injection(es, nodes, r)
    ensures forall r :: 0 <= r < |nodes| ==> zs[r] == Injection(es, nodes, r)
  {
    forall r | 0 <= r < |nodes| ensures zs[r] == Injection(es, nodes, r) {
      ZSpecNoISources(WithoutISources(es), nodes, |nodes|, r);
    }
  }

  /**
    The branch rows of the right-hand side after the corrected assembly:
    no current is injected there, so they keep the source voltages.
   */
  lemma CorrectedBranchRows(es: seq<Element>, nodes: seq<nat>, z0: seq<real>, zs: seq<real>)
    requires |z0| == |zs| == |nodes| + NbVSources(es)
    requires forall r :: 0 <= r < |z0| ==> z0[r] == ZSpec(WithoutISources(es), nodes, |nodes|, r)
    requires forall r :: 0 <= r < |zs| ==> zs[r] == z0[r] + Injection(es, nodes, r)
    ensures forall k :: 0 <= k < NbVSources(es) ==> zs[|nodes| + k] == Branch(es, k).v
  {
    forall k | 0 <= k < NbVSources(es) ensures zs[|nodes| + k] == Branch(es, k).v {
      BranchRowValue(es, nodes, k);
    }
  }

  /**
    Branch row k after stamping the list without its current sources and
    then adding the injections: the voltage of source k.
   */
  lemma BranchRowValue(es: seq<Element>, nodes: seq<nat>, k: nat)
    requires k < NbVSources(es)
    ensures ZSpec(WithoutISources(es), nodes, |nodes|, |nodes| + k) + Injection(es, nodes, |nodes| + k) == Branch(es, k).v
  {
    assert Injection(es, nodes, |nodes| + k) == 0.0 by {
      InjectionOutsideNodes(es, nodes, |nodes| + k);
    }
    assert ZSpec(WithoutISources(es), nodes, |nodes|, |nodes| + k) == Branch(es, k).v by {
      var ps := WithoutISources(es);
      assert k < NbVSources(ps) && Branch(ps, k) == Branch(es, k) by {
        WithoutISourcesVSources(es);
      }
      PassiveBranchRow(ps, nodes, k);
    }
  }

  /** Without current sources, branch row k of z holds the voltage of source k. */
  lemma PassiveBranchRow(ps: seq<Element>, nodes: seq<nat>, k: nat)
    requires k < NbVSources(ps)
    requires forall e :: e in ps ==> !e.ISource?
    ensures ZSpec(ps, nodes, |nodes|, |nodes| + k) == Branch(ps, k).v
  {
    ZBranchRows(ps, nodes, |nodes|, k);
  }

  /**
    `solve_dc` with both defects corrected: one node row per non-reference
    node, and current sources added into z. It is defined for every
    non-empty element list, and z holds the net injected current at each
    node row (independent of element order) and the source voltage at
    each branch row.
   */
  method SolveDcCorrected(elements: seq<Element>) returns (a: array2<real>, z: array<real>, nodes: seq<nat>)
    requires elements != []
    ensures fresh(a) && fresh(z)
    ensures nodes == NodeOrder(elements)
    ensures SystemMatrix(elements, nodes, |nodes|, a) && Blocks.Symmetric(a)
    ensures z.Length == |nodes| + NbVSources(elements)
    ensures forall r :: 0 <= r < |nodes| ==> z[r] == Injection(elements, nodes, r)
    ensures forall k :: 0 <= k < NbVSources(elements) ==> z[|nodes| + k] == Branch(elements, k).v
  {
    a, z, nodes := AssemblePassive(elements);
    ghost var z0 := z[..];
    InjectCurrents(elements, nodes, z);
    CorrectedNodeRows(elements, nodes, z0, z[..]);
    CorrectedBranchRows(elements, nodes, z0, z[..]);
  }

  /**
    The corrected layout and stamping pass without the current sources:
    one node row per non-reference node, so every index write is in
    bounds, and the matrix is that of the whole list.
   */
  method AssemblePassive(elements: seq<Element>) returns (a: array2<real>, z: array<real>, nodes: seq<nat>)
    requires elements != []
    ensures fresh(a) && fresh(z)
    ensures nodes == NodeOrder(elements)
    ensures SystemMatrix(elements, nodes, |nodes|, a) && Blocks.Symmetric(a)
    ensures z.Length == |nodes| + NbVSources(elements)
    ensures forall r :: 0 <= r < z.Length ==> z[r] == ZSpec(WithoutISources(elements), nodes, |nodes|, r)
  {
    var all := CreateNodesSet(elements);
    PopFirstSplitsNodes(elements, all);
    var popped := PopFirst(all);
    var refNode := popped.value.0;
    nodes := popped.value.1;
    var passive := WithoutISources(elements);
    var nv := NbVSources(elements);
    assert NbVSources(passive) == nv by {
      WithoutISourcesVSources(elements);
    }
    assert Covers(passive, nodes, refNode) && InBounds(passive, nodes, |nodes|, nv) by {
      CoversNodeOrder(elements);
      NodeSizedInBounds(elements, nv);
    }
    a, z := BuildSystem(passive, nodes, refNode, |nodes|);
    SystemMatrixWithoutISources(elements, nodes, |nodes|, a);
    SystemMatrixSymmetric(elements, nodes, |nodes|, a);
  }
}
