/**
  What one element contributes to the Modified Nodal Analysis system.

  A terminal is given by its row in the unknown vector, or None when it is
  the reference node (which has no row). Both versions of the solver write
  these values; this module states what they mean electrically.
 */
module Stamps {
  import opened Lists

  /**
    Entry (i, j) of the conductance stamp of a resistor with conductance `g`
    between terminals `p1` and `p2`: `+g` on the diagonal of each
    non-reference terminal and `-g` on the two off-diagonal entries when
    both terminals are non-reference.
   */
  function ResistorStamp(p1: Option<nat>, p2: Option<nat>, g: real, i: nat, j: nat): real
  {
    (if p1 == Some(i) && i == j then g else 0.0)
    + (if p2 == Some(i) && i == j then g else 0.0)
    - (if p1 == Some(i) && p2 == Some(j) then g else 0.0)
    - (if p2 == Some(i) && p1 == Some(j) then g else 0.0)
  }

  /**
    Row `i` of the incidence column of a voltage source: `+1` at the
    positive terminal, `-1` at the negative one, and the positive terminal
    wins when both are the same row (it is written last).
   */
  function VSourceStamp(pNeg: Option<nat>, pPos: Option<nat>, i: nat): real
  {
    if pPos == Some(i) then 1.0
    else if pNeg == Some(i) then -1.0
    else 0.0
  }

  /** The terminal lies in the first `n` rows (or is the reference node). */
  predicate Within(p: Option<nat>, n: nat)
  {
    p.None? || p.value < n
  }

  /** Voltage of a terminal under node voltages `x`; the reference node is at 0 V. */
  function Volt(x: seq<real>, p: Option<nat>): real
    requires Within(p, |x|)
  {
    if p.None? then 0.0 else x[p.value]
  }

  /**
    Current out of a node through conductance `g`: `g * (u - w)` counted
    when the node is the first terminal (voltage `u`), `g * (w - u)` when
    it is the second (voltage `w`).
   */
  function Flow(first: bool, second: bool, g: real, u: real, w: real): real
  {
    (if first then g * (u - w) else 0.0) + (if second then g * (w - u) else 0.0)
  }

  /** The current a resistor of conductance `g` carries out of row `i`'s node. */
  function Leaving(p1: Option<nat>, p2: Option<nat>, g: real, i: nat, x: seq<real>): real
    requires Within(p1, |x|) && Within(p2, |x|)
  {
    Flow(p1 == Some(i), p2 == Some(i), g, Volt(x, p1), Volt(x, p2))
  }

  lemma FlowAdd(first: bool, second: bool, g: real, a: real, b: real, c: real, d: real)
    ensures Flow(first, second, g, a + c, b + d) == Flow(first, second, g, a, b) + Flow(first, second, g, c, d)
  {
  }

  /** Voltage of a terminal counting only the first `n` rows. */
  function VoltBelow(x: seq<real>, p: Option<nat>, n: nat): real
    requires n <= |x|
  {
    if p.Some? && p.value < n then x[p.value] else 0.0
  }

  lemma VoltBelowStep(x: seq<real>, p: Option<nat>, n: nat)
    requires 0 < n <= |x|
    ensures VoltBelow(x, p, n) == VoltBelow(x, p, n - 1) + (if p == Some(n - 1) then x[n - 1] else 0.0)
  {
  }

  /** Row `i` of a resistor stamp applied to `x`, over the first `n` columns. */
  function RowDot(p1: Option<nat>, p2: Option<nat>, g: real, i: nat, x: seq<real>, n: nat): real
    requires n <= |x|
  {
    if n == 0 then 0.0 else RowDot(p1, p2, g, i, x, n - 1) + ResistorStamp(p1, p2, g, i, n - 1) * x[n - 1]
  }

  lemma {:induction false} ResistorDotPartial(p1: Option<nat>, p2: Option<nat>, g: real, i: nat, x: seq<real>, n: nat)
    requires n <= |x|
    ensures RowDot(p1, p2, g, i, x, n)
         == Flow(p1 == Some(i), p2 == Some(i), g, VoltBelow(x, p1, n), VoltBelow(x, p2, n))
  {
    if n > 0 {
      ResistorDotPartial(p1, p2, g, i, x, n - 1);
      ResistorDotStep(p1, p2, g, i, x, n);
    }
  }

  /** Adding column n - 1 to a row product adds that column's flow. */
  lemma ResistorDotStep(p1: Option<nat>, p2: Option<nat>, g: real, i: nat, x: seq<real>, n: nat)
    requires 0 < n <= |x|
    requires RowDot(p1, p2, g, i, x, n - 1)
          == Flow(p1 == Some(i), p2 == Some(i), g, VoltBelow(x, p1, n - 1), VoltBelow(x, p2, n - 1))
    ensures RowDot(p1, p2, g, i, x, n)
         == Flow(p1 == Some(i), p2 == Some(i), g, VoltBelow(x, p1, n), VoltBelow(x, p2, n))
  {
    var j := n - 1;
    var c1, c2 := p1 == Some(i), p2 == Some(i);
    var a, b := VoltBelow(x, p1, j), VoltBelow(x, p2, j);
    var d1 := if p1 == Some(j) then x[j] else 0.0;
    var d2 := if p2 == Some(j) then x[j] else 0.0;
    assert RowDot(p1, p2, g, i, x, n) == Flow(c1, c2, g, a, b) + Flow(c1, c2, g, d1, d2) by {
      RowDotLast(p1, p2, g, i, x, n);
    }
    assert VoltBelow(x, p1, n) == a + d1 && VoltBelow(x, p2, n) == b + d2 by {
      VoltBelowStep(x, p1, n);
      VoltBelowStep(x, p2, n);
    }
    FlowAdd(c1, c2, g, a, b, d1, d2);
  }

  /** The row product written with `Dot` is `RowDot`. */
  lemma {:induction false} ResistorRowIsDot(p1: Option<nat>, p2: Option<nat>, g: real, i: nat, x: seq<real>, n: nat)
    requires n <= |x|
    ensures Dot((j: nat) => ResistorStamp(p1, p2, g, i, j), x, n) == RowDot(p1, p2, g, i, x, n)
  {
    if n > 0 {
      ResistorRowIsDot(p1, p2, g, i, x, n - 1);
    }
  }

  /** The last column of a row product contributes the flow that column's voltage drives. */
  lemma RowDotLast(p1: Option<nat>, p2: Option<nat>, g: real, i: nat, x: seq<real>, n: nat)
    requires 0 < n <= |x|
    ensures RowDot(p1, p2, g, i, x, n)
         == RowDot(p1, p2, g, i, x, n - 1)
          + Flow(p1 == Some(i), p2 == Some(i), g, if p1 == Some(n - 1) then x[n - 1] else 0.0, if p2 == Some(n - 1) then x[n - 1] else 0.0)
  {
    StampTimes(p1, p2, g, i, n - 1, x[n - 1]);
  }

  /** One column's term of a resistor row: g times the voltage differences it sees. */
  lemma StampTimes(p1: Option<nat>, p2: Option<nat>, g: real, i: nat, j: nat, v: real)
    ensures ResistorStamp(p1, p2, g, i, j) * v
         == Flow(p1 == Some(i), p2 == Some(i), g, if p1 == Some(j) then v else 0.0, if p2 == Some(j) then v else 0.0)
  {
    if i == j {
      if p1 == Some(i) && p2 == Some(i) {
      } else if p1 == Some(i) {
      } else if p2 == Some(i) {
      }
    } else {
      if p1 == Some(i) && p2 == Some(j) {
      } else if p2 == Some(i) && p1 == Some(j) {
      }
    }
  }

  /**
    Kirchhoff's current law for one resistor: row `i` of its stamp applied
    to the node voltages is the current the resistor carries away from
    row `i`'s node, g * (V(i) - V(other terminal)), and 0 for a row it
    does not touch.
   */
  lemma ResistorCurrent(p1: Option<nat>, p2: Option<nat>, g: real, i: nat, x: seq<real>)
    requires Within(p1, |x|) && Within(p2, |x|)
    ensures RowDot(p1, p2, g, i, x, |x|) == Leaving(p1, p2, g, i, x)
  {
    ResistorDotPartial(p1, p2, g, i, x, |x|);
  }

  /**
    Shape of a single resistor stamp: it is symmetric; a resistor with one
    terminal at the reference node adds exactly `g` to the other terminal's
    diagonal and nothing elsewhere; a resistor whose terminals coincide
    adds nothing (+2g and -2g on the same entry).
   */
  lemma ResistorStampShape(p1: Option<nat>, p2: Option<nat>, g: real, i: nat, j: nat)
    ensures ResistorStamp(p1, p2, g, i, j) == ResistorStamp(p1, p2, g, j, i)
    ensures p1.None? ==> ResistorStamp(p1, p2, g, i, j) == if p2 == Some(i) && i == j then g else 0.0
    ensures p2.None? ==> ResistorStamp(p1, p2, g, i, j) == if p1 == Some(i) && i == j then g else 0.0
    ensures p1 == p2 ==> ResistorStamp(p1, p2, g, i, j) == 0.0
  {
  }

  /**
    A resistor between two non-reference rows leaves every row sum
    unchanged: each row of its stamp sums to zero.
   */
  lemma ResistorRowSum(p1: Option<nat>, p2: Option<nat>, g: real, i: nat, n: nat)
    requires p1.Some? && p2.Some? && p1.value < n && p2.value < n
    ensures RowDot(p1, p2, g, i, seq(n, _ => 1.0), n) == 0.0
  {
    var ones := seq(n, _ => 1.0);
    ResistorCurrent(p1, p2, g, i, ones);
    assert Volt(ones, p1) == 1.0 && Volt(ones, p2) == 1.0;
  }

  /** The incidence column of a voltage source applied to `x`, over the first `n` rows. */
  function ColumnDot(pNeg: Option<nat>, pPos: Option<nat>, x: seq<real>, n: nat): real
    requires n <= |x|
  {
    if n == 0 then 0.0 else ColumnDot(pNeg, pPos, x, n - 1) + VSourceStamp(pNeg, pPos, n - 1) * x[n - 1]
  }

  lemma {:induction false} VSourceDotPartial(pNeg: Option<nat>, pPos: Option<nat>, x: seq<real>, n: nat)
    requires n <= |x|
    ensures ColumnDot(pNeg, pPos, x, n)
         == VoltBelow(x, pPos, n) - (if pNeg == pPos then 0.0 else VoltBelow(x, pNeg, n))
  {
    if n > 0 {
      VSourceDotPartial(pNeg, pPos, x, n - 1);
      VoltBelowStep(x, pPos, n);
      VoltBelowStep(x, pNeg, n);
    }
  }

  /**
    The branch equation of a voltage source: its incidence column applied
    to the node voltages is V(pos) - V(neg). When both terminals are the
    same row, the positive entry overwrites the negative one and the
    column yields V(pos) rather than 0.
   */
  lemma VSourceBranch(pNeg: Option<nat>, pPos: Option<nat>, x: seq<real>)
    requires Within(pNeg, |x|) && Within(pPos, |x|)
    ensures ColumnDot(pNeg, pPos, x, |x|)
         == Volt(x, pPos) - (if pNeg == pPos then 0.0 else Volt(x, pNeg))
  {
    VSourceDotPartial(pNeg, pPos, x, |x|);
  }
}
