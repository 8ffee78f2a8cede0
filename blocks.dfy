/**
  Dense matrices as `array2<real>` and the three library operations the
  solvers use on them: a zero matrix, the transpose, and the 2 x 2 block
  layout [[G, B], [C, D]] (`nalgebra::stack!` in Rust, `vstack`/`hstack`
  in NumPy).
 */
module Blocks {

  /** A fresh `rows x cols` matrix of zeros. */
  method Zeros(rows: nat, cols: nat) returns (m: array2<real>)
    ensures fresh(m)
    ensures m.Length0 == rows && m.Length1 == cols
    ensures forall i, j :: 0 <= i < rows && 0 <= j < cols ==> m[i, j] == 0.0
  {
    m := new real[rows, cols]((i, j) => 0.0);
  }

  /** The transpose of `b`, in a new matrix. */
  method Transpose(b: array2<real>) returns (c: array2<real>)
    ensures fresh(c)
    ensures c.Length0 == b.Length1 && c.Length1 == b.Length0
    ensures forall i, j :: 0 <= i < c.Length0 && 0 <= j < c.Length1 ==> c[i, j] == b[j, i]
  {
    c := new real[b.Length1, b.Length0];
    for i := 0 to b.Length1
      invariant forall i', j :: 0 <= i' < i && 0 <= j < b.Length0 ==> c[i', j] == b[j, i']
    {
      for j := 0 to b.Length0
        invariant forall i', j' :: 0 <= i' < i && 0 <= j' < b.Length0 ==> c[i', j'] == b[j', i']
        invariant forall j' :: 0 <= j' < j ==> c[i, j'] == b[j', i]
      {
        c[i, j] := b[j, i];
      }
    }
  }

  /**
    The block matrix [[g, b], [c, d]]: `g` on the top left, `b` to its
    right, `c` below it and `d` on the bottom right.
   */
  method Stack(g: array2<real>, b: array2<real>, c: array2<real>, d: array2<real>) returns (a: array2<real>)
    requires g.Length0 == b.Length0 && c.Length0 == d.Length0
    requires g.Length1 == c.Length1 && b.Length1 == d.Length1
    ensures fresh(a)
    ensures a.Length0 == g.Length0 + c.Length0 && a.Length1 == g.Length1 + b.Length1
    ensures forall i, j :: 0 <= i < g.Length0 && 0 <= j < g.Length1 ==> a[i, j] == g[i, j]
    ensures forall i, j :: 0 <= i < b.Length0 && 0 <= j < b.Length1 ==> a[i, g.Length1 + j] == b[i, j]
    ensures forall i, j :: 0 <= i < c.Length0 && 0 <= j < c.Length1 ==> a[g.Length0 + i, j] == c[i, j]
    ensures forall i, j :: 0 <= i < d.Length0 && 0 <= j < d.Length1 ==> a[g.Length0 + i, g.Length1 + j] == d[i, j]
  {
    var top, left := g.Length0, g.Length1;
    a := new real[top + c.Length0, left + b.Length1];
    for i := 0 to a.Length0
      invariant forall i', j :: 0 <= i' < i && 0 <= j < a.Length1 ==> a[i', j] == BlockAt(g, b, c, d, i', j)
    {
      for j := 0 to a.Length1
        invariant forall i', j' :: 0 <= i' < i && 0 <= j' < a.Length1 ==> a[i', j'] == BlockAt(g, b, c, d, i', j')
        invariant forall j' :: 0 <= j' < j ==> a[i, j'] == BlockAt(g, b, c, d, i, j')
      {
        a[i, j] := BlockAt(g, b, c, d, i, j);
      }
    }
  }

  /** Entry (i, j) of [[g, b], [c, d]]. */
  function BlockAt(g: array2<real>, b: array2<real>, c: array2<real>, d: array2<real>, i: nat, j: nat): real
    requires g.Length0 == b.Length0 && c.Length0 == d.Length0
    requires g.Length1 == c.Length1 && b.Length1 == d.Length1
    requires i < g.Length0 + c.Length0 && j < g.Length1 + b.Length1
    reads g, b, c, d
  {
    if i < g.Length0 then
      if j < g.Length1 then g[i, j] else b[i, j - g.Length1]
    else
      if j < g.Length1 then c[i - g.Length0, j] else d[i - g.Length0, j - g.Length1]
  }

  /** A square matrix equal to its transpose. */
  ghost predicate Symmetric(a: array2<real>)
    reads a
  {
    a.Length0 == a.Length1 &&
    forall i, j :: 0 <= i < a.Length0 && 0 <= j < a.Length1 ==> a[i, j] == a[j, i]
  }
}
