// Advection of the label vectors along one axis. Every row of cells along axis d,
// one ghost cell included at each end, is updated from the fluxes through the
// faces between neighbouring cells: the vector flux through a face is the
// upwind cell rescaled so that it sums to the scalar flux, and each cell gains
// the flux through its upper face and loses the flux through its lower face,
// divided by its size. The rows are visited one after another, outer axis first.

module Advection {
  import opened Elements
  import opened Sparse
  import opened Fields
  import opened Traversal
  import opened Domains
  import opened GlobalVariables

  // ---------------------------------------------------------------------------
  // One row

  /** The upwind cell of face i (between cells i and i + 1): a positive flux comes from cell i + 1. */
  function Upwind(s: seq<SVec>, flux: seq<real>, i: nat): SVec
    requires i + 1 < |s| && i < |flux|
  {
    if flux[i] > 0.0 then s[i + 1] else s[i]
  }

  /** The vector fluxes F_i of the |s| - 1 faces of a row, from the cells before any update. */
  function FaceFluxes(s: seq<SVec>, flux: seq<real>): (r: seq<NormalizedSVector>)
    requires 2 <= |s| && |flux| == |s|
    ensures |r| == |s| - 1
    ensures forall i :: 0 <= i < |r| ==> r[i] == MakeNormalized(Upwind(s, flux, i), flux[i])
  {
    seq(|s| - 1, i requires 0 <= i < |s| - 1 => MakeNormalized(Upwind(s, flux, i), flux[i]))
  }

  /** Cell sizes that can be divided by. */
  predicate NonZero(delta: seq<real>)
  {
    forall i :: 0 <= i < |delta| ==> delta[i] != 0.0
  }

  /**
   * The new value of cell i of a row with faces F, from its old value v and its
   * size d: - F_{i-1} / d unless it is the first cell, then + F_i / d unless it is
   * the last.
   */
  function UpdateCell(v: SVec, F: seq<NormalizedSVector>, d: real, i: nat): SVec
    requires 1 <= |F| && i <= |F| && d != 0.0
  {
    if i == 0 then AddNormalized(v, F[0], 1.0 / d)
    else if i == |F| then AddNormalized(v, F[i - 1], -1.0 / d)
    else AddNormalized(AddNormalized(v, F[i - 1], -1.0 / d), F[i], 1.0 / d)
  }

  /** advectRow: every cell of the row updated from the face fluxes of the old row. */
  function AdvectRow(s: seq<SVec>, flux: seq<real>, delta: seq<real>): (r: seq<SVec>)
    requires 2 <= |s| && |flux| == |s| && |delta| == |s| && NonZero(delta)
    ensures |r| == |s|
  {
    var F := FaceFluxes(s, flux);
    seq(|s|, i requires 0 <= i < |s| => UpdateCell(s[i], F, delta[i], i))
  }

  // ---------------------------------------------------------------------------
  // Conservation: the amount of every label, weighted by cell size, is kept by a row update

  /** The amount of label l a face flux carries. */
  function Flow(F: NormalizedSVector, l: Label): real
  {
    ValueAt(F.base, l) * F.factor
  }

  /** The amount of label l in a cell of size d. */
  function Weighted(d: real, s: SVec, l: Label): real
  {
    d * ValueAt(s, l)
  }

  /** The amount of label l in the first k cells of a row. */
  function WeightedSum(s: seq<SVec>, delta: seq<real>, l: Label, k: nat): real
    requires k <= |s| && |delta| == |s|
  {
    if k == 0 then 0.0 else WeightedSum(s, delta, l, k - 1) + Weighted(delta[k - 1], s[k - 1], l)
  }

  /** The amount in a whole row is the amount in all but its last cell plus that cell's. */
  lemma WeightedSumLast(s: seq<SVec>, delta: seq<real>, l: Label)
    requires 1 <= |s| && |delta| == |s|
    ensures WeightedSum(s, delta, l, |s|) == WeightedSum(s, delta, l, |s| - 1) + Weighted(delta[|s| - 1], s[|s| - 1], l)
  {
  }

  /** Every cell of the row is sorted. */
  predicate AllSorted(s: seq<SVec>)
  {
    forall i :: 0 <= i < |s| ==> Sorted(s[i])
  }

  /** d * (b * ((1 / d) * f)) == b * f and d * (b * ((-1 / d) * f)) == -(b * f). */
  lemma Cancel(d: real, b: real, f: real)
    requires d != 0.0
    ensures d * (b * ((1.0 / d) * f)) == b * f
    ensures d * (b * ((-1.0 / d) * f)) == -(b * f)
  {
    var q := 1.0 / d;
    assert d * q == 1.0;
    assert d * (b * (q * f)) == (d * q) * (b * f);
    assert -1.0 / d == -q;
  }

  /** Adding F / d to a cell of size d adds the flow of F to its amount. */
  lemma GainFlow(s: SVec, F: NormalizedSVector, d: real, l: Label)
    requires Sorted(s) && Sorted(F.base) && d != 0.0
    ensures Sorted(AddNormalized(s, F, 1.0 / d))
    ensures Weighted(d, AddNormalized(s, F, 1.0 / d), l) == Weighted(d, s, l) + Flow(F, l)
  {
    var b, f, v := ValueAt(F.base, l), F.factor, ValueAt(s, l);
    AddNormalizedMeaning(s, F, 1.0 / d, l);
    assert ValueAt(AddNormalized(s, F, 1.0 / d), l) == v + b * ((1.0 / d) * f);
    Cancel(d, b, f);
    assert d * (v + b * ((1.0 / d) * f)) == d * v + d * (b * ((1.0 / d) * f));
  }

  /** Adding -F / d to a cell of size d takes the flow of F from its amount. */
  lemma LoseFlow(s: SVec, F: NormalizedSVector, d: real, l: Label)
    requires Sorted(s) && Sorted(F.base) && d != 0.0
    ensures Sorted(AddNormalized(s, F, -1.0 / d))
    ensures Weighted(d, AddNormalized(s, F, -1.0 / d), l) == Weighted(d, s, l) - Flow(F, l)
  {
    var b, f, v := ValueAt(F.base, l), F.factor, ValueAt(s, l);
    AddNormalizedMeaning(s, F, -1.0 / d, l);
    assert ValueAt(AddNormalized(s, F, -1.0 / d), l) == v + b * ((-1.0 / d) * f);
    Cancel(d, b, f);
    assert d * (v + b * ((-1.0 / d) * f)) == d * v + d * (b * ((-1.0 / d) * f));
  }

  /** The face fluxes of a sorted row have sorted bases: each is empty or an upwind cell. */
  lemma FaceFluxesSorted(s: seq<SVec>, flux: seq<real>)
    requires 2 <= |s| && |flux| == |s| && AllSorted(s)
    ensures forall i :: 0 <= i < |s| - 1 ==> Sorted(FaceFluxes(s, flux)[i].base)
  {
    forall i | 0 <= i < |s| - 1 ensures Sorted(FaceFluxes(s, flux)[i].base) {
      MakeNormalizedMeaning(Upwind(s, flux, i), flux[i], 0);
    }
  }

  /**
   * The balance of one cell: its new amount of label l is its old amount plus
   * the flow through its upper face (when it has one) minus the flow through its
   * lower face (when it has one). The new cell is sorted.
   */
  lemma CellBalance(s: seq<SVec>, flux: seq<real>, delta: seq<real>, i: nat, l: Label)
    requires 2 <= |s| && |flux| == |s| && |delta| == |s| && NonZero(delta) && AllSorted(s) && i < |s|
    ensures Sorted(AdvectRow(s, flux, delta)[i])
    ensures Weighted(delta[i], AdvectRow(s, flux, delta)[i], l) ==
      Weighted(delta[i], s[i], l)
      + (if i < |s| - 1 then Flow(FaceFluxes(s, flux)[i], l) else 0.0)
      - (if i > 0 then Flow(FaceFluxes(s, flux)[i - 1], l) else 0.0)
  {
    var F := FaceFluxes(s, flux);
    FaceFluxesSorted(s, flux);
    assert AdvectRow(s, flux, delta)[i] == UpdateCell(s[i], F, delta[i], i);
    if i == 0 {
      GainFlow(s[0], F[0], delta[0], l);
    } else if i == |s| - 1 {
      LoseFlow(s[i], F[i - 1], delta[i], l);
    } else {
      var t := AddNormalized(s[i], F[i - 1], -1.0 / delta[i]);
      LoseFlow(s[i], F[i - 1], delta[i], l);
      GainFlow(t, F[i], delta[i], l);
    }
  }

  /** The first k cells of the new row hold the old amount plus the flow out through face k - 1. */
  lemma {:induction false} PrefixBalance(s: seq<SVec>, flux: seq<real>, delta: seq<real>, l: Label, k: nat)
    requires 2 <= |s| && |flux| == |s| && |delta| == |s| && NonZero(delta) && AllSorted(s)
    requires 1 <= k < |s|
    ensures WeightedSum(AdvectRow(s, flux, delta), delta, l, k) ==
      WeightedSum(s, delta, l, k) + Flow(FaceFluxes(s, flux)[k - 1], l)
  {
    CellBalance(s, flux, delta, k - 1, l);
    if k > 1 {
      PrefixBalance(s, flux, delta, l, k - 1);
    }
  }

  /** Every cell of a sorted row stays sorted. */
  lemma AdvectRowSorted(s: seq<SVec>, flux: seq<real>, delta: seq<real>)
    requires 2 <= |s| && |flux| == |s| && |delta| == |s| && NonZero(delta) && AllSorted(s)
    ensures AllSorted(AdvectRow(s, flux, delta))
  {
    forall i | 0 <= i < |s| ensures Sorted(AdvectRow(s, flux, delta)[i]) {
      CellBalance(s, flux, delta, i, 0);
    }
  }

  /**
   * Conservation: a row update keeps the total amount of every label, each cell
   * weighted by its size; what leaves a cell through a face enters its neighbour.
   */
  lemma AdvectRowConserves(s: seq<SVec>, flux: seq<real>, delta: seq<real>, l: Label)
    requires 2 <= |s| && |flux| == |s| && |delta| == |s| && NonZero(delta) && AllSorted(s)
    ensures WeightedSum(AdvectRow(s, flux, delta), delta, l, |s|) == WeightedSum(s, delta, l, |s|)
  {
    var r, L := AdvectRow(s, flux, delta), |s|;
    var g := Flow(FaceFluxes(s, flux)[L - 2], l);
    var rHead, sHead := WeightedSum(r, delta, l, L - 1), WeightedSum(s, delta, l, L - 1);
    var rLast, sLast := Weighted(delta[L - 1], r[L - 1], l), Weighted(delta[L - 1], s[L - 1], l);
    assert rHead == sHead + g by {
      PrefixBalance(s, flux, delta, l, L - 1);
    }
    assert rLast == sLast - g by {
      CellBalance(s, flux, delta, L - 1, l);
    }
    assert WeightedSum(r, delta, l, L) == rHead + rLast by {
      WeightedSumLast(r, delta, l);
    }
    assert WeightedSum(s, delta, l, L) == sHead + sLast by {
      WeightedSumLast(s, delta, l);
    }
  }

  /**
   * Upwinding: face i carries cell i + 1 rescaled to the flux when the flux is
   * positive and cell i when it is negative; it carries nothing when the flux or
   * the upwind cell's sum is zero.
   */
  lemma FaceFluxUpwind(s: seq<SVec>, flux: seq<real>, i: nat, l: Label)
    requires 2 <= |s| && |flux| == |s| && i < |s| - 1
    ensures flux[i] == 0.0 || Sum(Upwind(s, flux, i)) == 0.0 ==> FaceFluxes(s, flux)[i] == EMPTY_NORMALIZED
    ensures flux[i] > 0.0 && Sum(s[i + 1]) != 0.0 ==>
      FaceFluxes(s, flux)[i].base == s[i + 1] && Sum(Materialize(FaceFluxes(s, flux)[i])) == flux[i]
    ensures flux[i] < 0.0 && Sum(s[i]) != 0.0 ==>
      FaceFluxes(s, flux)[i].base == s[i] && Sum(Materialize(FaceFluxes(s, flux)[i])) == flux[i]
  {
    MakeNormalizedMeaning(Upwind(s, flux, i), flux[i], l);
  }

  // ---------------------------------------------------------------------------
  // advectRow on views: the row of cells, the row of fluxes and the row of cell sizes

  /** The first loop of advectRow: the vector flux through every face, from the upwind cell of the row before any update. */
  method VectorFluxes(sRow: Helper<SVec>, fluxRow: Helper<real>) returns (F: seq<NormalizedSVector>)
    requires Fields.Valid(sRow) && Fields.Valid(fluxRow) && fluxRow.n == sRow.n && CellCount(sRow.n) >= 2
    ensures F == FaceFluxes(Contents(sRow), Contents(fluxRow))
  {
    ghost var cells, fl := Contents(sRow), Contents(fluxRow);
    var L := Count(sRow.n);
    F := [];
    var i := 0;
    while i < L - 1
      invariant 0 <= i <= L - 1 && |F| == i
      invariant forall q :: 0 <= q < i ==> F[q] == MakeNormalized(Upwind(cells, fl, q), fl[q])
    {
      var f := fluxRow.data[Offset(fluxRow, i)];
      var up := if f > 0.0 then sRow.data[Offset(sRow, i + 1)] else sRow.data[Offset(sRow, i)];
      F := F + [MakeNormalized(up, f)];
      i := i + 1;
    }
  }

  /**
   * The second loop of advectRow: walking the row with the cell sizes, cell i
   * loses F_{i-1} / delta_i unless it is the first and gains F_i / delta_i unless
   * it is the last.
   */
  method UpdateRow(sRow: Helper<SVec>, deltaRow: Helper<real>, F: seq<NormalizedSVector>, ghost fl: seq<real>)
    requires Fields.Valid(sRow) && Fields.Valid(deltaRow) && CellCount(deltaRow.n) == CellCount(sRow.n) >= 2
    requires |fl| == CellCount(sRow.n) && F == FaceFluxes(Contents(sRow), fl) && NonZero(Contents(deltaRow))
    modifies sRow.data
    ensures sRow.data[..] == Overwrite(old(sRow.data[..]), sRow, AdvectRow(old(Contents(sRow)), fl, Contents(deltaRow)))
  {
    ghost var a0, cells, ds := sRow.data[..], Contents(sRow), Contents(deltaRow);
    ghost var vals := AdvectRow(cells, fl, ds);
    var L := Count(sRow.n);
    var i := 0;
    while i < L
      invariant 0 <= i <= L && sRow.data[..] == Overwrite(a0, sRow, vals[..i])
    {
      OverwriteAhead(a0, sRow, vals[..i], i);
      var p := Offset(sRow, i);
      var del := deltaRow.data[Offset(deltaRow, i)];
      var v := UpdateCell(sRow.data[p], F, del, i);
      OverwriteStep(a0, sRow, vals, i);
      sRow.data[p] := v;
      i := i + 1;
    }
    assert vals[..L] == vals;
  }

  /** advectRow(sRow, fluxRow, deltaRow): the row of cells becomes AdvectRow of its old cells. */
  method AdvectRowCells(sRow: Helper<SVec>, fluxRow: Helper<real>, deltaRow: Helper<real>)
    requires Fields.Valid(sRow) && Fields.Valid(fluxRow) && Fields.Valid(deltaRow)
    requires fluxRow.n == sRow.n && CellCount(deltaRow.n) == CellCount(sRow.n) >= 2 && NonZero(Contents(deltaRow))
    modifies sRow.data
    ensures sRow.data[..] == Overwrite(old(sRow.data[..]), sRow,
      AdvectRow(CellsOf(old(sRow.data[..]), sRow), CellsOf(fluxRow.data[..], fluxRow), Contents(deltaRow)))
  {
    var F := VectorFluxes(sRow, fluxRow);
    UpdateRow(sRow, deltaRow, F, Contents(fluxRow));
  }

  // ---------------------------------------------------------------------------
  // Rows of a field

  /** The row through (a, b) along axis d, one ghost cell included at each end: n_d + 2 cells. */
  function RowSlice<T>(h: Helper<T>, d: int, a: int, b: int): (r: Helper<T>)
    requires |h.n| == 3 && |h.pad| == 6 && 0 <= d < 3
    ensures r.data == h.data
  {
    if d == 0 then Slice(h, -1, h.n[0] + 1, a, a + 1, b, b + 1)
    else if d == 1 then Slice(h, a, a + 1, -1, h.n[1] + 1, b, b + 1)
    else Slice(h, a, a + 1, b, b + 1, -1, h.n[2] + 1)
  }

  /** The count of the outer row loop along axis d: j for d = 0, i otherwise. */
  function Outer(n: seq<int>, d: int): nat
    requires |n| == 3 && n[0] >= 0 && n[1] >= 0 && n[2] >= 0 && 0 <= d < 3
  {
    if d == 0 then n[1] else n[0]
  }

  /** The count of the inner row loop along axis d: j for d = 2, k otherwise. */
  function Inner(n: seq<int>, d: int): nat
    requires |n| == 3 && n[0] >= 0 && n[1] >= 0 && n[2] >= 0 && 0 <= d < 3
  {
    if d == 2 then n[1] else n[2]
  }

  /** A view rows along axis d can be cut from: at least one pad cell at both ends of the axis. */
  predicate RowReady<T>(h: Helper<T>, d: int)
  {
    0 <= d < 3 && Shape(h.n, h.pad) && h.pad[2 * d] >= 1 && h.pad[2 * d + 1] >= 1
  }

  /** The row (a, b) to advect: its outer and inner positions are within the loops' counts. */
  predicate RowIn(n: seq<int>, d: int, r: (int, int))
    requires |n| == 3 && n[0] >= 0 && n[1] >= 0 && n[2] >= 0 && 0 <= d < 3
  {
    0 <= r.0 < Outer(n, d) && 0 <= r.1 < Inner(n, d)
  }

  /** A row is a view of the same array with n_d + 2 cells. */
  lemma RowShape<T>(h: Helper<T>, d: int, a: int, b: int)
    requires RowReady(h, d) && RowIn(h.n, d, (a, b))
    ensures Shape(RowSlice(h, d, a, b).n, RowSlice(h, d, a, b).pad)
    ensures GetLength(RowSlice(h, d, a, b).n, RowSlice(h, d, a, b).pad) == GetLength(h.n, h.pad)
    ensures CellCount(RowSlice(h, d, a, b).n) == h.n[d] + 2
  {
    var r := RowSlice(h, d, a, b);
    assert Extent(r.n, r.pad, 0) == Extent(h.n, h.pad, 0);
    assert Extent(r.n, r.pad, 1) == Extent(h.n, h.pad, 1);
    assert Extent(r.n, r.pad, 2) == Extent(h.n, h.pad, 2);
  }

  /** The rows (x, 0), ..., (x, B - 1) of one pass of the inner loop. */
  function Line(x: int, B: nat): (r: seq<(int, int)>)
    ensures |r| == B && forall y :: 0 <= y < B ==> r[y] == (x, y)
  {
    seq(B, y requires 0 <= y < B => (x, y))
  }

  /** The rows in the order the loops visit them: outer position first, inner position second. */
  function Rows(A: nat, B: nat): (r: seq<(int, int)>)
    ensures forall q :: 0 <= q < |r| ==> 0 <= r[q].0 < A && 0 <= r[q].1 < B
  {
    if A == 0 then [] else Rows(A - 1, B) + Line(A - 1, B)
  }

  /** Extending the visited rows by the next row of a line. */
  lemma LineSnoc(rows: seq<(int, int)>, x: int, B: nat, y: nat)
    requires y < B
    ensures rows + Line(x, B)[..y + 1] == (rows + Line(x, B)[..y]) + [(x, y)]
  {
    assert Line(x, B)[..y + 1] == Line(x, B)[..y] + [(x, y)];
  }

  /**
   * What the row updates of one field need: rows can be cut from the field and
   * from the flux view (flux values fa), which has the same cell counts, and the
   * n_d + 2 cell sizes dl can be divided by.
   */
  predicate Setup(h: Helper<SVec>, fh: Helper<real>, fa: seq<real>, dl: seq<real>, d: int)
  {
    RowReady(h, d) && RowReady(fh, d) && fh.n == h.n && |fa| == GetLength(fh.n, fh.pad) &&
    |dl| == h.n[d] + 2 && NonZero(dl)
  }

  /** The field array a after advectRow on row r; the loops never visit a row outside their counts. */
  function RowStep(a: seq<SVec>, h: Helper<SVec>, fh: Helper<real>, fa: seq<real>, dl: seq<real>, d: int, r: (int, int)): (res: seq<SVec>)
    requires Setup(h, fh, fa, dl, d) && |a| == GetLength(h.n, h.pad)
    ensures |res| == |a|
  {
    if !RowIn(h.n, d, r) then a
    else
      RowShape(h, d, r.0, r.1);
      RowShape(fh, d, r.0, r.1);
      var row, frow := RowSlice(h, d, r.0, r.1), RowSlice(fh, d, r.0, r.1);
      Overwrite(a, row, AdvectRow(CellsOf(a, row), CellsOf(fa, frow), dl))
  }

  /** The field array a after advectRow on each of rows, in order. */
  function ApplyRows(a: seq<SVec>, h: Helper<SVec>, fh: Helper<real>, fa: seq<real>, dl: seq<real>, d: int, rows: seq<(int, int)>): (res: seq<SVec>)
    requires Setup(h, fh, fa, dl, d) && |a| == GetLength(h.n, h.pad)
    ensures |res| == |a|
    decreases |rows|
  {
    if rows == [] then a
    else RowStep(ApplyRows(a, h, fh, fa, dl, d, rows[..|rows| - 1]), h, fh, fa, dl, d, rows[|rows| - 1])
  }

  /** One instance after the row loops of ELA_SolverAdvectLabels along axis d. */
  function AdvectedField(a: seq<SVec>, h: Helper<SVec>, fh: Helper<real>, fa: seq<real>, dl: seq<real>, d: int): (res: seq<SVec>)
    requires Setup(h, fh, fa, dl, d) && |a| == GetLength(h.n, h.pad)
    ensures |res| == |a|
  {
    ApplyRows(a, h, fh, fa, dl, d, Rows(Outer(h.n, d), Inner(h.n, d)))
  }

  /** One row of the loops: advectRow on row (x, y) of the field and of the flux view. */
  method AdvectOneRow(sF: Helper<SVec>, fluxF: Helper<real>, deltaRow: Helper<real>, d: int, x: int, y: int,
                      ghost a0: seq<SVec>, ghost fa: seq<real>, ghost dl: seq<real>, ghost rows: seq<(int, int)>)
    requires Fields.Valid(sF) && Fields.Valid(fluxF) && Fields.Valid(deltaRow)
    requires fa == fluxF.data[..] && dl == Contents(deltaRow)
    requires Setup(sF, fluxF, fa, dl, d) && RowIn(sF.n, d, (x, y)) && |a0| == GetLength(sF.n, sF.pad)
    requires sF.data[..] == ApplyRows(a0, sF, fluxF, fa, dl, d, rows)
    modifies sF.data
    ensures sF.data[..] == ApplyRows(a0, sF, fluxF, fa, dl, d, rows + [(x, y)])
  {
    RowShape(sF, d, x, y);
    RowShape(fluxF, d, x, y);
    var sRow := RowSlice(sF, d, x, y);
    var fRow := RowSlice(fluxF, d, x, y);
    AdvectRowCells(sRow, fRow, deltaRow);
    assert (rows + [(x, y)])[..|rows|] == rows;
  }

  /** One pass of the inner row loop: the rows (x, 0), ..., (x, B - 1) in turn. */
  method AdvectLine(sF: Helper<SVec>, fluxF: Helper<real>, deltaRow: Helper<real>, d: int, x: nat,
                    ghost a0: seq<SVec>, ghost fa: seq<real>, ghost dl: seq<real>)
    requires Fields.Valid(sF) && Fields.Valid(fluxF) && Fields.Valid(deltaRow)
    requires fa == fluxF.data[..] && dl == Contents(deltaRow)
    requires Setup(sF, fluxF, fa, dl, d) && x < Outer(sF.n, d) && |a0| == GetLength(sF.n, sF.pad)
    requires sF.data[..] == ApplyRows(a0, sF, fluxF, fa, dl, d, Rows(x, Inner(sF.n, d)))
    modifies sF.data
    ensures sF.data[..] == ApplyRows(a0, sF, fluxF, fa, dl, d, Rows(x + 1, Inner(sF.n, d)))
  {
    var B := Inner(sF.n, d);
    ghost var rows := Rows(x, B);
    ghost var done := rows;
    var y: nat := 0;
    assert rows + Line(x, B)[..0] == rows;
    while y < B
      invariant y <= B && done == rows + Line(x, B)[..y]
      invariant fa == fluxF.data[..] && dl == Contents(deltaRow)
      invariant sF.data[..] == ApplyRows(a0, sF, fluxF, fa, dl, d, done)
    {
      AdvectOneRow(sF, fluxF, deltaRow, d, x, y, a0, fa, dl, done);
      LineSnoc(rows, x, B, y);
      done := done + [(x, y)];
      y := y + 1;
    }
    assert Line(x, B)[..B] == Line(x, B);
    assert Rows(x + 1, B) == done;
  }

  /** The row loops of ELA_SolverAdvectLabels on one instance: every row along axis d in turn. */
  method AdvectField(sF: Helper<SVec>, fluxF: Helper<real>, deltaRow: Helper<real>, d: int)
    requires Fields.Valid(sF) && Fields.Valid(fluxF) && Fields.Valid(deltaRow)
    requires Setup(sF, fluxF, fluxF.data[..], Contents(deltaRow), d)
    modifies sF.data
    ensures sF.data[..] == AdvectedField(old(sF.data[..]), sF, fluxF, fluxF.data[..], Contents(deltaRow), d)
  {
    ghost var a0, fa, dl := sF.data[..], fluxF.data[..], Contents(deltaRow);
    var A, B := Outer(sF.n, d), Inner(sF.n, d);
    var x: nat := 0;
    while x < A
      invariant x <= A && fa == fluxF.data[..] && dl == Contents(deltaRow)
      invariant sF.data[..] == ApplyRows(a0, sF, fluxF, fa, dl, d, Rows(x, B))
    {
      AdvectLine(sF, fluxF, deltaRow, d, x, a0, fa, dl);
      x := x + 1;
    }
  }

  // ---------------------------------------------------------------------------
  // The whole domain

  /** The outcome of ELA_SolverAdvectLabels: done, or the std::invalid_argument it throws. */
  datatype Status = Done | InvalidDirection | DeltaNotNormal

  /** std::isnormal on a finite double: neither zero nor subnormal. */
  predicate IsNormal(x: real)
  {
    DOUBLE_MIN_NORMAL <= x <= DOUBLE_MAX || -DOUBLE_MAX <= x <= -DOUBLE_MIN_NORMAL
  }

  predicate AllNormal(dl: seq<real>)
  {
    forall i :: 0 <= i < |dl| ==> IsNormal(dl[i])
  }

  /** Normal cell sizes can be divided by. */
  lemma NormalIsNonZero(dl: seq<real>)
    requires AllNormal(dl)
    ensures NonZero(dl)
  {
    forall i | 0 <= i < |dl| ensures dl[i] != 0.0 {
      assert IsNormal(dl[i]);
    }
  }

  /**
   * deltaRowSlice: the host's cell sizes along axis d, wrapped with wrapRow and cut
   * to the n_d + 2 cells of a row, one ghost cell included at each end.
   */
  function DeltaSlice(delta: array<real>, d: int, n: seq<int>, inputPad: seq<int>): (r: Helper<real>)
    requires 0 <= d < 3 && Shape(n, inputPad) && inputPad[2 * d] >= 1 && inputPad[2 * d + 1] >= 1
    ensures r.data == delta && Shape(r.n, r.pad) && CellCount(r.n) == n[d] + 2
    ensures GetLength(r.n, r.pad) == GetLength(WrapRow(delta, d, n, inputPad).n, WrapRow(delta, d, n, inputPad).pad)
  {
    var row := WrapRow(delta, d, n, inputPad);
    assert row.n[0] >= 0 && row.n[1] >= 0 && row.n[2] >= 0;
    assert forall q :: 0 <= q < 6 ==> row.pad[q] >= 0;
    assert Outer(row.n, d) == 1 && Inner(row.n, d) == 1;
    RowShape(row, d, 0, 0);
    RowSlice(row, d, 0, 0)
  }

  /** The loop that confirms every cell size of the row slice is normal. */
  method CheckDeltas(deltaRow: Helper<real>) returns (ok: bool)
    requires Fields.Valid(deltaRow)
    ensures ok <==> AllNormal(Contents(deltaRow))
  {
    var N := Count(deltaRow.n);
    var m := 0;
    while m < N
      invariant 0 <= m <= N
      invariant forall q :: 0 <= q < m ==> IsNormal(Contents(deltaRow)[q])
    {
      if !IsNormal(deltaRow.data[Offset(deltaRow, m)]) {
        return false;
      }
      m := m + 1;
    }
    return true;
  }

  /**
   * ELA_SolverAdvectLabels(d, flux, delta): after checking the direction and the
   * cell sizes, every instance's source field has its rows along axis d advected
   * with the flux field. Nothing changes when it throws.
   */
  method AdvectLabels(dom: Domain, d: int, flux: array<real>, delta: array<real>, inputPad: seq<int>) returns (st: Status)
    requires dom.Valid() && Fields.Valid(WrapField(flux, dom.n, inputPad))
    requires 0 <= d < 3 ==> inputPad[2 * d] >= 1 && inputPad[2 * d + 1] >= 1 && Fields.Valid(WrapRow(delta, d, dom.n, inputPad))
    modifies dom.SArrays()
    ensures st == InvalidDirection <==> d < 0 || d > 2
    ensures st == DeltaNotNormal <==> 0 <= d < 3 && !AllNormal(Contents(DeltaSlice(delta, d, dom.n, inputPad)))
    ensures st != Done ==> forall p :: 0 <= p < dom.nn ==> dom.s[p].data[..] == old(dom.s[p].data[..])
    ensures st == Done ==> forall p :: 0 <= p < dom.nn ==>
      dom.s[p].data[..] == AdvectedField(old(dom.s[p].data[..]), dom.s[p], WrapField(flux, dom.n, inputPad), flux[..],
                                         Contents(DeltaSlice(delta, d, dom.n, inputPad)), d)
  {
    if d < 0 || d > 2 {
      return InvalidDirection;
    }
    var fluxField := WrapField(flux, dom.n, inputPad);
    var deltaRowSlice := DeltaSlice(delta, d, dom.n, inputPad);
    var ok := CheckDeltas(deltaRowSlice);
    if !ok {
      return DeltaNotNormal;
    }
    ghost var dl := Contents(deltaRowSlice);
    NormalIsNonZero(dl);
    ghost var olds := seq(dom.nn, q requires 0 <= q < dom.nn reads dom.SArrays() => dom.s[q].data[..]);
    var p := 0;
    while p < dom.nn
      invariant dl == Contents(deltaRowSlice) && flux[..] == fluxField.data[..]
      invariant AdvectedUpTo(dom, olds, fluxField, dl, d, p)
    {
      AdvectInstance(dom, olds, fluxField, deltaRowSlice, d, p);
      p := p + 1;
    }
    return Done;
  }

  /** The instance loop of ELA_SolverAdvectLabels: instances before p are advected, the rest untouched. */
  ghost predicate AdvectedUpTo(dom: Domain, olds: seq<seq<SVec>>, fh: Helper<real>, dl: seq<real>, d: int, p: int)
    requires dom.Valid()
    reads dom.SArrays(), fh.data
  {
    |olds| == dom.nn && 0 <= p <= dom.nn &&
    (forall q :: 0 <= q < dom.nn ==> |olds[q]| == dom.s[q].data.Length && Setup(dom.s[q], fh, fh.data[..], dl, d)) &&
    (forall q :: 0 <= q < p ==> dom.s[q].data[..] == AdvectedField(olds[q], dom.s[q], fh, fh.data[..], dl, d)) &&
    (forall q :: p <= q < dom.nn ==> dom.s[q].data[..] == olds[q])
  }

  /** One turn of the instance loop: instance p is advected, no other source field changes. */
  method AdvectInstance(dom: Domain, ghost olds: seq<seq<SVec>>, fh: Helper<real>, deltaRow: Helper<real>, d: int, p: int)
    requires dom.Valid() && Fields.Valid(fh) && Fields.Valid(deltaRow)
    requires AdvectedUpTo(dom, olds, fh, Contents(deltaRow), d, p) && p < dom.nn
    modifies dom.SArrays()
    ensures AdvectedUpTo(dom, olds, fh, Contents(deltaRow), d, p + 1)
  {
    assert dom.s[p].data in dom.SArrays();
    label Before:
    AdvectField(dom.s[p], fh, deltaRow, d);
    forall q | 0 <= q < dom.nn && q != p ensures dom.s[q].data[..] == old@Before(dom.s[q].data[..]) {
      assert dom.s[q].data != dom.s[p].data;
    }
  }
}
