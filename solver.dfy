// The per-cell steps of the solver: saving the dilation term, applying it,
// normalizing to the volume fraction and filtering near-pure cells. Each step is
// a function on one cell; a field is updated by a loop over its interior cells in
// iteration order, and the domain by a loop over its instances. Host arrays
// (volume fraction, dilation scalar, divergence) are views with the domain's cell
// counts.

module Solver {
  import opened Elements
  import opened Sparse
  import opened Fields
  import opened Traversal
  import opened Domains

  /** The reference chop() compares against: values at most EPSILON are dropped. */
  const CHOP_REF: real := 1.0

  // ---------------------------------------------------------------------------
  // One cell

  /** The dilation term of one cell: s rescaled to 1 - c, or cleared where c is 1. */
  function SaveDilationCell(s: SVec, c: real): NormalizedSVector
  {
    if c != 1.0 then MakeNormalized(s, 1.0 - c) else EMPTY_NORMALIZED
  }

  /** s + cVector * u for one cell. */
  function DilateCell(s: SVec, cv: NormalizedSVector, u: real): SVec
  {
    AddNormalized(s, cv, u)
  }

  /** chop() then normalize(1 - f) for one cell. */
  function NormalizeCell(s: SVec, f: real): SVec
  {
    Normalize(Chop(s, CHOP_REF), 1.0 - f)
  }

  /** The filter of one cell: normalized to 1 where f <= tol, then cleared where 1 - f <= tol. */
  function FilterCell(s: SVec, f: real, tol: real): SVec
  {
    var t := if f <= tol then Normalize(s, 1.0) else s;
    if 1.0 - f <= tol then [] else t
  }

  // ---------------------------------------------------------------------------
  // Facts about one cell

  /** Every stored value of a * C is the stored value of a times C. */
  lemma ScaleEntries(s: SVec, C: real)
    ensures |Scale(s, C)| == |s|
    ensures forall i :: 0 <= i < |s| ==> Scale(s, C)[i].l == s[i].l && Scale(s, C)[i].v == s[i].v * C
  {
  }

  /** A non-empty vector of positive values has a positive sum. */
  lemma {:induction false} PositiveSum(s: SVec)
    requires forall i :: 0 <= i < |s| ==> s[i].v > 0.0
    ensures s != [] ==> Sum(s) > 0.0
    ensures s == [] ==> Sum(s) == 0.0
  {
    if s != [] {
      PositiveSum(s[1..]);
    }
  }

  /** Every value chop(1) keeps exceeds EPSILON, so it is positive. */
  lemma ChopPositive(s: SVec)
    ensures forall i :: 0 <= i < |Chop(s, CHOP_REF)| ==> Chop(s, CHOP_REF)[i].v > EPSILON
  {
    var c := Chop(s, CHOP_REF);
    ChopMembers(s, CHOP_REF);
    forall i | 0 <= i < |c| ensures c[i].v > EPSILON {
      assert c[i] in c;
    }
  }

  /** A label chop(1) keeps belongs to an element of s whose value exceeds EPSILON. */
  lemma ChopLabels(s: SVec)
    ensures forall x :: x in Labels(Chop(s, CHOP_REF)) ==> exists e :: e in s && e.l == x && e.v > EPSILON
  {
    var c := Chop(s, CHOP_REF);
    ChopMembers(s, CHOP_REF);
    forall x | x in Labels(c) ensures exists e :: e in s && e.l == x && e.v > EPSILON {
      var i :| 0 <= i < |c| && c[i].l == x;
      assert c[i] in c;
    }
  }

  /** Rescaling positive values to a positive total keeps them positive. */
  lemma NormalizePositive(c: SVec, t: real)
    requires t > 0.0
    requires forall i :: 0 <= i < |c| ==> c[i].v > 0.0
    ensures Normalize(c, t) == [] <==> c == []
    ensures forall i :: 0 <= i < |Normalize(c, t)| ==> Normalize(c, t)[i].v > 0.0
    ensures c != [] ==> Sum(Normalize(c, t)) == t
  {
    PositiveSum(c);
    NormalizeMeaning(c, t, 0);
    if c != [] {
      var C := t / Sum(c);
      assert C > 0.0;
      ScaleEntries(c, C);
      var r := Normalize(c, t);
      assert r == Scale(c, C);
      forall i | 0 <= i < |r| ensures r[i].v > 0.0 {
        assert r[i].v == c[i].v * C;
      }
    }
  }

  /** normalize keeps no label that was not stored. */
  lemma NormalizeLabels(c: SVec, t: real)
    ensures Labels(Normalize(c, t)) <= Labels(c)
  {
    NormalizeMeaning(c, t, 0);
  }

  /**
   * After chop and normalize(1 - f) with f below 1, the cell holds only positive
   * values and sums to 1 - f, unless nothing survived the chop; with f equal to 1
   * it is empty. It stays sorted and only keeps labels whose value exceeded EPSILON.
   */
  lemma NormalizeCellMeaning(s: SVec, f: real)
    ensures Sorted(s) ==> Sorted(NormalizeCell(s, f))
    ensures f == 1.0 ==> NormalizeCell(s, f) == []
    ensures f < 1.0 ==> (NormalizeCell(s, f) == [] <==> Chop(s, CHOP_REF) == [])
    ensures f < 1.0 ==> forall i :: 0 <= i < |NormalizeCell(s, f)| ==> NormalizeCell(s, f)[i].v > 0.0
    ensures f < 1.0 && NormalizeCell(s, f) != [] ==> Sum(NormalizeCell(s, f)) == 1.0 - f
    ensures forall x :: x in Labels(NormalizeCell(s, f)) ==> exists e :: e in s && e.l == x && e.v > EPSILON
  {
    var c := Chop(s, CHOP_REF);
    if Sorted(s) {
      ChopSorted(s, CHOP_REF);
      NormalizeMeaning(c, 1.0 - f, 0);
    }
    NormalizeMeaning(c, 1.0 - f, 0);
    ChopPositive(s);
    if f < 1.0 {
      NormalizePositive(c, 1.0 - f);
    }
    NormalizeLabels(c, 1.0 - f);
    ChopLabels(s);
  }

  /**
   * The filter: a cell with 1 - f <= tol is emptied; otherwise a cell with
   * f <= tol is rescaled to sum to 1 (or emptied when it sums to zero), and any
   * other cell is left alone. Sorted cells stay sorted.
   */
  lemma FilterCellMeaning(s: SVec, f: real, tol: real, l: Label)
    ensures 1.0 - f <= tol ==> FilterCell(s, f, tol) == []
    ensures 1.0 - f > tol && f > tol ==> FilterCell(s, f, tol) == s
    ensures 1.0 - f > tol && f <= tol && (s == [] || Sum(s) == 0.0) ==> FilterCell(s, f, tol) == []
    ensures 1.0 - f > tol && f <= tol && s != [] && Sum(s) != 0.0 ==>
      Sum(FilterCell(s, f, tol)) == 1.0 && Labels(FilterCell(s, f, tol)) == Labels(s) &&
      ValueAt(FilterCell(s, f, tol), l) == ValueAt(s, l) / Sum(s)
    ensures Sorted(s) ==> Sorted(FilterCell(s, f, tol))
  {
    NormalizeMeaning(s, 1.0, l);
  }

  /**
   * The dilation term of a cell stands for (1 - c) times the normalized vector
   * s / sum(s); it is cleared where c is 1 or s sums to zero.
   */
  lemma SaveDilationCellMeaning(s: SVec, c: real, l: Label)
    ensures c == 1.0 || Sum(s) == 0.0 ==> SaveDilationCell(s, c) == EMPTY_NORMALIZED
    ensures c != 1.0 && Sum(s) != 0.0 ==>
      SaveDilationCell(s, c).base == s &&
      Sum(Materialize(SaveDilationCell(s, c))) == 1.0 - c &&
      ValueAt(Materialize(SaveDilationCell(s, c)), l) == ValueAt(s, l) * ((1.0 - c) / Sum(s))
  {
    MakeNormalizedMeaning(s, 1.0 - c, l);
  }

  /** s + cVector * u adds u times the vector cVector stands for, entry by entry. */
  lemma DilateCellMeaning(s: SVec, cv: NormalizedSVector, u: real, l: Label)
    requires Sorted(s) && Sorted(cv.base)
    ensures Sorted(DilateCell(s, cv, u))
    ensures ValueAt(DilateCell(s, cv, u), l) == ValueAt(s, l) + u * ValueAt(Materialize(cv), l)
  {
    var b, f := ValueAt(cv.base, l), cv.factor;
    AddNormalizedMeaning(s, cv, u, l);
    assert ValueAt(DilateCell(s, cv, u), l) == ValueAt(s, l) + b * (u * f);
    ScaleValueAt(cv.base, f, l);
    assert ValueAt(Materialize(cv), l) == b * f;
    Reassociate(b, u, f);
  }

  /** s + cVector * u adds u times the sum of the vector cVector stands for to the sum. */
  lemma DilateCellSum(s: SVec, cv: NormalizedSVector, u: real)
    ensures Sum(DilateCell(s, cv, u)) == Sum(s) + u * Sum(Materialize(cv))
  {
    DilatedSum(s, cv, u);
    MaterializedSum(cv);
  }

  /** The vector a normalized vector stands for sums to its base's sum times its factor. */
  lemma MaterializedSum(cv: NormalizedSVector)
    ensures Sum(Materialize(cv)) == Sum(cv.base) * cv.factor
  {
    ScaleSum(cv.base, cv.factor);
  }

  /** s + cVector * u adds the base of cVector with the coefficient u times its factor. */
  lemma DilatedSum(s: SVec, cv: NormalizedSVector, u: real)
    ensures Sum(DilateCell(s, cv, u)) == Sum(s) + u * (Sum(cv.base) * cv.factor)
  {
    AddToSum(s, cv.base, Coefficient(cv, u));
    Reassociate(Sum(cv.base), u, cv.factor);
  }

  /** x * (u * f) == u * (x * f). */
  lemma Reassociate(x: real, u: real, f: real)
    ensures x * (u * f) == u * (x * f)
  {
  }

  /**
   * The two halves of the dilation together: with the term saved from s0 and
   * dilation scalar c, a later dilation with u adds u * (1 - c) * s0_l / sum(s0)
   * to every entry s_l.
   */
  lemma SaveThenDilate(s0: SVec, s: SVec, c: real, u: real, l: Label)
    requires Sorted(s0) && Sorted(s) && c != 1.0 && Sum(s0) != 0.0
    ensures ValueAt(DilateCell(s, SaveDilationCell(s0, c), u), l) ==
      ValueAt(s, l) + u * (ValueAt(s0, l) * ((1.0 - c) / Sum(s0)))
  {
    var cv := SaveDilationCell(s0, c);
    SaveDilationCellMeaning(s0, c, l);
    assert ValueAt(Materialize(cv), l) == ValueAt(s0, l) * ((1.0 - c) / Sum(s0));
    DilateCellMeaning(s, cv, u, l);
  }

  // ---------------------------------------------------------------------------
  // Whole fields: the cell functions applied cell by cell

  function SaveDilationCells(ss: seq<SVec>, cs: seq<real>): (r: seq<NormalizedSVector>)
    requires |ss| == |cs|
    ensures |r| == |ss| && forall m :: 0 <= m < |ss| ==> r[m] == SaveDilationCell(ss[m], cs[m])
  {
    seq(|ss|, m requires 0 <= m < |ss| => SaveDilationCell(ss[m], cs[m]))
  }

  function DilateCells(ss: seq<SVec>, cvs: seq<NormalizedSVector>, us: seq<real>): (r: seq<SVec>)
    requires |ss| == |cvs| == |us|
    ensures |r| == |ss| && forall m :: 0 <= m < |ss| ==> r[m] == DilateCell(ss[m], cvs[m], us[m])
  {
    seq(|ss|, m requires 0 <= m < |ss| => DilateCell(ss[m], cvs[m], us[m]))
  }

  function NormalizeCells(ss: seq<SVec>, fs: seq<real>): (r: seq<SVec>)
    requires |ss| == |fs|
    ensures |r| == |ss| && forall m :: 0 <= m < |ss| ==> r[m] == NormalizeCell(ss[m], fs[m])
  {
    seq(|ss|, m requires 0 <= m < |ss| => NormalizeCell(ss[m], fs[m]))
  }

  function FilterCells(ss: seq<SVec>, fs: seq<real>, tol: real): (r: seq<SVec>)
    requires |ss| == |fs|
    ensures |r| == |ss| && forall m :: 0 <= m < |ss| ==> r[m] == FilterCell(ss[m], fs[m], tol)
  {
    seq(|ss|, m requires 0 <= m < |ss| => FilterCell(ss[m], fs[m], tol))
  }

  /** Two views that visit the same number of interior cells. */
  predicate SameCells<T, U>(h: Helper<T>, g: Helper<U>)
    reads h.data, g.data
  {
    Fields.Valid(h) && Fields.Valid(g) && h.n == g.n
  }

  /**
   * One instance of ELA_SolverSaveDilation: every interior dilation cell becomes
   * the dilation term of the source cell at the same step, with the scalar of the
   * host field at that step.
   */
  method SaveDilationField(sF: Helper<SVec>, cF: Helper<NormalizedSVector>, cIn: Helper<real>)
    requires SameCells(sF, cF) && SameCells(sF, cIn)
    modifies cF.data
    ensures cF.data[..] == SavedField(old(cF.data[..]), cF, Contents(sF), Contents(cIn))
  {
    ghost var a0 := cF.data[..];
    ghost var vals := SaveDilationCells(Contents(sF), Contents(cIn));
    var N := Count(cF.n);
    var m := 0;
    while m < N
      invariant 0 <= m <= N && cF.data[..] == Overwrite(a0, cF, vals[..m])
    {
      var v := SaveDilationCell(sF.data[Offset(sF, m)], cIn.data[Offset(cIn, m)]);
      OverwriteStep(a0, cF, vals, m);
      cF.data[Offset(cF, m)] := v;
      m := m + 1;
    }
    assert vals[..N] == vals;
  }

  /** One instance of ELA_SolverDilateLabels: every source cell gets its dilation term times u added. */
  method DilateField(sF: Helper<SVec>, cF: Helper<NormalizedSVector>, uIn: Helper<real>)
    requires SameCells(sF, cF) && SameCells(sF, uIn)
    modifies sF.data
    ensures sF.data[..] == DilatedField(old(sF.data[..]), sF, Contents(cF), Contents(uIn))
  {
    ghost var a0 := sF.data[..];
    ghost var vals := DilateCells(Contents(sF), Contents(cF), Contents(uIn));
    var N := Count(sF.n);
    var m := 0;
    while m < N
      invariant 0 <= m <= N && sF.data[..] == Overwrite(a0, sF, vals[..m])
    {
      OverwriteAhead(a0, sF, vals[..m], m);
      var p := Offset(sF, m);
      var v := DilateCell(sF.data[p], cF.data[Offset(cF, m)], uIn.data[Offset(uIn, m)]);
      OverwriteStep(a0, sF, vals, m);
      sF.data[p] := v;
      m := m + 1;
    }
    assert vals[..N] == vals;
  }

  /** One instance of ELA_SolverNormalizeLabel: every source cell is chopped and normalized to 1 - f. */
  method NormalizeField(sF: Helper<SVec>, vof: Helper<real>)
    requires SameCells(sF, vof)
    modifies sF.data
    ensures sF.data[..] == NormalizedField(old(sF.data[..]), sF, Contents(vof))
  {
    ghost var a0 := sF.data[..];
    ghost var vals := NormalizeCells(Contents(sF), Contents(vof));
    var N := Count(sF.n);
    var m := 0;
    while m < N
      invariant 0 <= m <= N && sF.data[..] == Overwrite(a0, sF, vals[..m])
    {
      OverwriteAhead(a0, sF, vals[..m], m);
      var p := Offset(sF, m);
      var v := NormalizeCell(sF.data[p], vof.data[Offset(vof, m)]);
      OverwriteStep(a0, sF, vals, m);
      sF.data[p] := v;
      m := m + 1;
    }
    assert vals[..N] == vals;
  }

  /** One instance of ELA_SolverFilterLabels: every source cell is filtered against its volume fraction. */
  method FilterField(sF: Helper<SVec>, vof: Helper<real>, tol: real)
    requires SameCells(sF, vof)
    modifies sF.data
    ensures sF.data[..] == FilteredField(old(sF.data[..]), sF, Contents(vof), tol)
  {
    ghost var a0 := sF.data[..];
    ghost var vals := FilterCells(Contents(sF), Contents(vof), tol);
    var N := Count(sF.n);
    var m := 0;
    while m < N
      invariant 0 <= m <= N && sF.data[..] == Overwrite(a0, sF, vals[..m])
    {
      OverwriteAhead(a0, sF, vals[..m], m);
      var p := Offset(sF, m);
      var v := FilterCell(sF.data[p], vof.data[Offset(vof, m)], tol);
      OverwriteStep(a0, sF, vals, m);
      sF.data[p] := v;
      m := m + 1;
    }
    assert vals[..N] == vals;
  }

  // ---------------------------------------------------------------------------
  // The domain: every instance in turn. Each loop writes instance p's field and
  // no other, so the arrays of the later instances still hold their entry values.

  /** A dilation field array after SaveDilationField: every interior cell set to the dilation term of the source cell at its step. */
  function SavedField(a: seq<NormalizedSVector>, h: Helper<NormalizedSVector>, ss: seq<SVec>, cs: seq<real>): seq<NormalizedSVector>
    requires Shape(h.n, h.pad) && |a| == GetLength(h.n, h.pad) && |ss| == |cs| == CellCount(h.n)
  {
    Overwrite(a, h, SaveDilationCells(ss, cs))
  }

  /** SaveDilation has done instances 0 .. p - 1; the later dilation fields still hold their entry values. */
  ghost predicate SavedUpTo(dom: Domain, olds: seq<seq<NormalizedSVector>>, srcs: seq<seq<SVec>>, cs: seq<real>, p: int)
    requires dom.Valid()
    reads dom.SArrays(), dom.CArrays()
  {
    |olds| == |srcs| == dom.nn && 0 <= p <= dom.nn && |cs| == CellCount(dom.n) &&
    (forall q :: 0 <= q < dom.nn ==> |olds[q]| == dom.c[q].data.Length && srcs[q] == Contents(dom.s[q])) &&
    (forall q :: 0 <= q < p ==> dom.c[q].data[..] == SavedField(olds[q], dom.c[q], srcs[q], cs)) &&
    (forall q :: p <= q < dom.nn ==> dom.c[q].data[..] == olds[q])
  }

  /** One turn of SaveDilation: the dilation field of instance p is set, no other dilation field changes. */
  method SaveInstance(dom: Domain, cIn: Helper<real>, ghost olds: seq<seq<NormalizedSVector>>, ghost srcs: seq<seq<SVec>>, ghost cs: seq<real>, p: int)
    requires dom.Valid() && Fields.Valid(cIn) && cIn.n == dom.n && cs == Contents(cIn)
    requires SavedUpTo(dom, olds, srcs, cs, p) && p < dom.nn
    modifies dom.CArrays()
    ensures SavedUpTo(dom, olds, srcs, cs, p + 1)
  {
    assert dom.c[p].data in dom.CArrays();
    label Before:
    SaveDilationField(dom.s[p], dom.c[p], cIn);
    forall q | 0 <= q < dom.nn && q != p ensures dom.c[q].data[..] == old@Before(dom.c[q].data[..]) {
      assert dom.c[q].data != dom.c[p].data;
    }
  }

  /**
   * ELA_SolverSaveDilation(c): every instance's dilation field is set, cell by
   * cell, to the dilation term of its source field; the source fields are only read.
   */
  method SaveDilation(dom: Domain, cIn: Helper<real>)
    requires dom.Valid() && Fields.Valid(cIn) && cIn.n == dom.n
    modifies dom.CArrays()
    ensures forall p :: 0 <= p < dom.nn ==>
      dom.c[p].data[..] == SavedField(old(dom.c[p].data[..]), dom.c[p], Contents(dom.s[p]), Contents(cIn))
  {
    ghost var olds := seq(dom.nn, q requires 0 <= q < dom.nn reads dom.CArrays() => dom.c[q].data[..]);
    ghost var srcs := seq(dom.nn, q requires 0 <= q < dom.nn reads dom.SArrays() => Contents(dom.s[q]));
    ghost var cs := Contents(cIn);
    var p := 0;
    while p < dom.nn
      invariant SavedUpTo(dom, olds, srcs, cs, p)
    {
      SaveInstance(dom, cIn, olds, srcs, cs, p);
      p := p + 1;
    }
  }

  /** A source field array after DilateField: every interior cell gets the dilation term at its step times u added. */
  function DilatedField(a: seq<SVec>, h: Helper<SVec>, cvs: seq<NormalizedSVector>, us: seq<real>): seq<SVec>
    requires Shape(h.n, h.pad) && |a| == GetLength(h.n, h.pad) && |cvs| == |us| == CellCount(h.n)
  {
    Overwrite(a, h, DilateCells(CellsOf(a, h), cvs, us))
  }

  /** DilateLabels has done instances 0 .. p - 1; the later instances still hold their entry values. */
  ghost predicate DilatedUpTo(dom: Domain, olds: seq<seq<SVec>>, dils: seq<seq<NormalizedSVector>>, us: seq<real>, p: int)
    requires dom.Valid()
    reads dom.SArrays(), dom.CArrays()
  {
    |olds| == |dils| == dom.nn && 0 <= p <= dom.nn && |us| == CellCount(dom.n) &&
    (forall q :: 0 <= q < dom.nn ==> |olds[q]| == dom.s[q].data.Length && dils[q] == Contents(dom.c[q])) &&
    (forall q :: 0 <= q < p ==> dom.s[q].data[..] == DilatedField(olds[q], dom.s[q], dils[q], us)) &&
    (forall q :: p <= q < dom.nn ==> dom.s[q].data[..] == olds[q])
  }

  /** One turn of DilateLabels: instance p is dilated, no other source field changes. */
  method DilateInstance(dom: Domain, uIn: Helper<real>, ghost olds: seq<seq<SVec>>, ghost dils: seq<seq<NormalizedSVector>>, ghost us: seq<real>, p: int)
    requires dom.Valid() && Fields.Valid(uIn) && uIn.n == dom.n && us == Contents(uIn)
    requires DilatedUpTo(dom, olds, dils, us, p) && p < dom.nn
    modifies dom.SArrays()
    ensures DilatedUpTo(dom, olds, dils, us, p + 1)
  {
    assert dom.s[p].data in dom.SArrays();
    label Before:
    DilateField(dom.s[p], dom.c[p], uIn);
    forall q | 0 <= q < dom.nn && q != p ensures dom.s[q].data[..] == old@Before(dom.s[q].data[..]) {
      assert dom.s[q].data != dom.s[p].data;
    }
  }

  /** ELA_SolverDilateLabels(u): every instance's source field gets its dilation term times u added, cell by cell. */
  method DilateLabels(dom: Domain, uIn: Helper<real>)
    requires dom.Valid() && Fields.Valid(uIn) && uIn.n == dom.n
    modifies dom.SArrays()
    ensures forall p :: 0 <= p < dom.nn ==>
      dom.s[p].data[..] == DilatedField(old(dom.s[p].data[..]), dom.s[p], Contents(dom.c[p]), Contents(uIn))
  {
    ghost var olds := seq(dom.nn, q requires 0 <= q < dom.nn reads dom.SArrays() => dom.s[q].data[..]);
    ghost var dils := seq(dom.nn, q requires 0 <= q < dom.nn reads dom.CArrays() => Contents(dom.c[q]));
    ghost var us := Contents(uIn);
    var p := 0;
    while p < dom.nn
      invariant DilatedUpTo(dom, olds, dils, us, p)
    {
      DilateInstance(dom, uIn, olds, dils, us, p);
      p := p + 1;
    }
  }

  /** A field array after NormalizeField: every interior cell normalized against the volume fraction at its step. */
  function NormalizedField(a: seq<SVec>, h: Helper<SVec>, fs: seq<real>): seq<SVec>
    requires Shape(h.n, h.pad) && |a| == GetLength(h.n, h.pad) && |fs| == CellCount(h.n)
  {
    Overwrite(a, h, NormalizeCells(CellsOf(a, h), fs))
  }

  /**
   * After NormalizeLabel, cell m of an instance is its old cell chopped and
   * normalized: with f below 1 it sums to 1 - f unless it is empty, and every
   * ghost position keeps its value.
   */
  lemma NormalizedFieldMeaning(a: seq<SVec>, h: Helper<SVec>, fs: seq<real>, m: nat, i: int, j: int, k: int)
    requires Shape(h.n, h.pad) && |a| == GetLength(h.n, h.pad) && |fs| == CellCount(h.n) && m < CellCount(h.n)
    ensures CellsOf(NormalizedField(a, h, fs), h)[m] == NormalizeCell(CellsOf(a, h)[m], fs[m])
    ensures fs[m] < 1.0 && CellsOf(NormalizedField(a, h, fs), h)[m] != [] ==>
      Sum(CellsOf(NormalizedField(a, h, fs), h)[m]) == 1.0 - fs[m]
    ensures InRange(h, i, j, k) && !Interior(h.n, Cell(i, j, k)) ==>
      NormalizedField(a, h, fs)[GetIndex(h, i, j, k)] == a[GetIndex(h, i, j, k)]
  {
    OverwriteAll(a, h, NormalizeCells(CellsOf(a, h), fs), i, j, k);
    NormalizeCellMeaning(CellsOf(a, h)[m], fs[m]);
  }

  /** NormalizeLabel has done instances 0 .. p - 1; the later instances still hold their entry values. */
  ghost predicate NormalizedUpTo(dom: Domain, olds: seq<seq<SVec>>, fs: seq<real>, p: int)
    requires dom.Valid()
    reads dom.SArrays()
  {
    |olds| == dom.nn && 0 <= p <= dom.nn && |fs| == CellCount(dom.n) &&
    (forall q :: 0 <= q < dom.nn ==> |olds[q]| == dom.s[q].data.Length) &&
    (forall q :: 0 <= q < p ==> dom.s[q].data[..] == NormalizedField(olds[q], dom.s[q], fs)) &&
    (forall q :: p <= q < dom.nn ==> dom.s[q].data[..] == olds[q])
  }

  /** One turn of NormalizeLabel: instance p is normalized, no other source field changes. */
  method NormalizeInstance(dom: Domain, vof: Helper<real>, ghost olds: seq<seq<SVec>>, ghost fs: seq<real>, p: int)
    requires dom.Valid() && Fields.Valid(vof) && vof.n == dom.n && fs == Contents(vof)
    requires NormalizedUpTo(dom, olds, fs, p) && p < dom.nn
    modifies dom.SArrays()
    ensures NormalizedUpTo(dom, olds, fs, p + 1)
  {
    assert dom.s[p].data in dom.SArrays();
    label Before:
    NormalizeField(dom.s[p], vof);
    forall q | 0 <= q < dom.nn && q != p ensures dom.s[q].data[..] == old@Before(dom.s[q].data[..]) {
      assert dom.s[q].data != dom.s[p].data;
    }
  }

  /** ELA_SolverNormalizeLabel(f): every instance's source field is chopped and normalized to 1 - f, cell by cell. */
  method NormalizeLabel(dom: Domain, vof: Helper<real>)
    requires dom.Valid() && Fields.Valid(vof) && vof.n == dom.n
    modifies dom.SArrays()
    ensures forall p :: 0 <= p < dom.nn ==>
      dom.s[p].data[..] == NormalizedField(old(dom.s[p].data[..]), dom.s[p], Contents(vof))
  {
    ghost var olds := seq(dom.nn, q requires 0 <= q < dom.nn reads dom.SArrays() => dom.s[q].data[..]);
    ghost var fs := Contents(vof);
    var p := 0;
    while p < dom.nn
      invariant NormalizedUpTo(dom, olds, fs, p)
    {
      NormalizeInstance(dom, vof, olds, fs, p);
      p := p + 1;
    }
  }

  /** A source field array after FilterField: every interior cell filtered against the volume fraction at its step. */
  function FilteredField(a: seq<SVec>, h: Helper<SVec>, fs: seq<real>, tol: real): seq<SVec>
    requires Shape(h.n, h.pad) && |a| == GetLength(h.n, h.pad) && |fs| == CellCount(h.n)
  {
    Overwrite(a, h, FilterCells(CellsOf(a, h), fs, tol))
  }

  /** FilterLabels has done instances 0 .. p - 1; the later instances still hold their entry values. */
  ghost predicate FilteredUpTo(dom: Domain, olds: seq<seq<SVec>>, fs: seq<real>, tol: real, p: int)
    requires dom.Valid()
    reads dom.SArrays()
  {
    |olds| == dom.nn && 0 <= p <= dom.nn && |fs| == CellCount(dom.n) &&
    (forall q :: 0 <= q < dom.nn ==> |olds[q]| == dom.s[q].data.Length) &&
    (forall q :: 0 <= q < p ==> dom.s[q].data[..] == FilteredField(olds[q], dom.s[q], fs, tol)) &&
    (forall q :: p <= q < dom.nn ==> dom.s[q].data[..] == olds[q])
  }

  /** One turn of FilterLabels: instance p is filtered, no other source field changes. */
  method FilterInstance(dom: Domain, tol: real, vof: Helper<real>, ghost olds: seq<seq<SVec>>, ghost fs: seq<real>, p: int)
    requires dom.Valid() && Fields.Valid(vof) && vof.n == dom.n && fs == Contents(vof)
    requires FilteredUpTo(dom, olds, fs, tol, p) && p < dom.nn
    modifies dom.SArrays()
    ensures FilteredUpTo(dom, olds, fs, tol, p + 1)
  {
    assert dom.s[p].data in dom.SArrays();
    label Before:
    FilterField(dom.s[p], vof, tol);
    forall q | 0 <= q < dom.nn && q != p ensures dom.s[q].data[..] == old@Before(dom.s[q].data[..]) {
      assert dom.s[q].data != dom.s[p].data;
    }
  }

  /** ELA_SolverFilterLabels(tol, f): every instance's source field is filtered, cell by cell. */
  method FilterLabels(dom: Domain, tol: real, vof: Helper<real>)
    requires dom.Valid() && Fields.Valid(vof) && vof.n == dom.n
    modifies dom.SArrays()
    ensures forall p :: 0 <= p < dom.nn ==>
      dom.s[p].data[..] == FilteredField(old(dom.s[p].data[..]), dom.s[p], Contents(vof), tol)
  {
    ghost var olds := seq(dom.nn, q requires 0 <= q < dom.nn reads dom.SArrays() => dom.s[q].data[..]);
    ghost var fs := Contents(vof);
    var p := 0;
    while p < dom.nn
      invariant FilteredUpTo(dom, olds, fs, tol, p)
    {
      FilterInstance(dom, tol, vof, olds, fs, p);
      p := p + 1;
    }
  }
}
