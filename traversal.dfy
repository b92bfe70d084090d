// Visiting the interior cells of a view in iteration order. A range-for loop over
// a view (`for (auto& s : view)`) reaches the m-th interior cell at Offset(h, m),
// as ForwardOffsets in module Fields proves for the iterator itself. The loops of
// the solver, the codec and the checkpoint are written over m with these offsets;
// a loop that overwrites every interior cell leaves the array equal to Overwrite.

module Traversal {
  import opened Fields

  /** A view of non-negative shape has a non-negative number of interior cells. */
  lemma CellCountNonNegative(n: seq<int>)
    requires |n| == 3 && n[0] >= 0 && n[1] >= 0 && n[2] >= 0
    ensures CellCount(n) >= 0
  {
    MulMono(0, n[0], n[1]);
    MulMono(0, n[0] * n[1], n[2]);
  }

  /** The number of interior cells, as a nat. */
  function Count(n: seq<int>): (r: nat)
    requires |n| == 3 && n[0] >= 0 && n[1] >= 0 && n[2] >= 0
    ensures r == CellCount(n)
  {
    CellCountNonNegative(n);
    CellCount(n)
  }

  /** The array offset of the m-th interior cell of the iteration; it always lies in the array. */
  function Offset<T>(h: Helper<T>, m: nat): (r: int)
    requires Shape(h.n, h.pad) && m < CellCount(h.n)
    ensures 0 <= r < GetLength(h.n, h.pad)
  {
    CellAtRank(h.n, m);
    var c := CellAt(h.n, m);
    GetIndex(h, c.i, c.j, c.k)
  }

  /** Distinct steps of the iteration land on distinct entries of the array. */
  lemma OffsetInjective<T>(h: Helper<T>, m: nat, m': nat)
    requires Shape(h.n, h.pad) && m < CellCount(h.n) && m' < CellCount(h.n)
    ensures m != m' ==> Offset(h, m) != Offset(h, m')
  {
    if m != m' {
      CellAtRank(h.n, m);
      CellAtRank(h.n, m');
      var c, c' := CellAt(h.n, m), CellAt(h.n, m');
      assert c != c';
      assert InRange(h, c.i, c.j, c.k) && InRange(h, c'.i, c'.j, c'.k);
      if GetIndex(h, c.i, c.j, c.k) == GetIndex(h, c'.i, c'.j, c'.k) {
        IndexInjective(h, c.i, c.j, c.k, c'.i, c'.j, c'.k);
      }
    }
  }

  /** Only interior positions are ever visited: a pad position has no step of its own. */
  lemma OffsetIsInterior<T>(h: Helper<T>, m: nat, i: int, j: int, k: int)
    requires Shape(h.n, h.pad) && m < CellCount(h.n) && InRange(h, i, j, k)
    requires GetIndex(h, i, j, k) == Offset(h, m)
    ensures Interior(h.n, Cell(i, j, k)) && CellAt(h.n, m) == Cell(i, j, k)
  {
    CellAtRank(h.n, m);
    var c := CellAt(h.n, m);
    IndexInjective(h, i, j, k, c.i, c.j, c.k);
  }

  /** The interior cells of an array laid out as h describes, in iteration order. */
  function CellsOf<T>(a: seq<T>, h: Helper<T>): (r: seq<T>)
    requires Shape(h.n, h.pad) && |a| == GetLength(h.n, h.pad)
    ensures |r| == CellCount(h.n)
  {
    var N := Count(h.n);
    seq(N, m requires 0 <= m < N => a[Offset(h, m)])
  }

  /** The interior cells a view shows, in iteration order. */
  function Contents<T>(h: Helper<T>): (r: seq<T>)
    reads h.data
    requires Valid(h)
    ensures |r| == CellCount(h.n) && forall m :: 0 <= m < |r| ==> r[m] == h.data[Offset(h, m)]
  {
    CellsOf(h.data[..], h)
  }

  /** a with the m-th interior cell set to vals[m] for every m < |vals|, written in iteration order. */
  function Overwrite<T>(a: seq<T>, h: Helper<T>, vals: seq<T>): (r: seq<T>)
    requires Shape(h.n, h.pad) && |a| == GetLength(h.n, h.pad) && |vals| <= CellCount(h.n)
    ensures |r| == |a|
  {
    if vals == [] then a
    else Overwrite(a, h, vals[..|vals| - 1])[Offset(h, |vals| - 1) := vals[|vals| - 1]]
  }

  /** Entries no step writes keep their value. */
  lemma {:induction false} OverwriteMiss<T>(a: seq<T>, h: Helper<T>, vals: seq<T>, q: int)
    requires Shape(h.n, h.pad) && |a| == GetLength(h.n, h.pad) && |vals| <= CellCount(h.n)
    requires 0 <= q < |a| && forall m :: 0 <= m < |vals| ==> Offset(h, m) != q
    ensures Overwrite(a, h, vals)[q] == a[q]
  {
    if vals != [] {
      OverwriteMiss(a, h, vals[..|vals| - 1], q);
    }
  }

  /** The cells not yet reached by the loop still hold their old value. */
  lemma OverwriteAhead<T>(a: seq<T>, h: Helper<T>, vals: seq<T>, m: nat)
    requires Shape(h.n, h.pad) && |a| == GetLength(h.n, h.pad) && |vals| <= m < CellCount(h.n)
    ensures Overwrite(a, h, vals)[Offset(h, m)] == a[Offset(h, m)]
  {
    forall m' | 0 <= m' < |vals| ensures Offset(h, m') != Offset(h, m) {
      OffsetInjective(h, m', m);
    }
    OverwriteMiss(a, h, vals, Offset(h, m));
  }

  /** Every written cell holds the value written to it. */
  lemma {:induction false} OverwriteHit<T>(a: seq<T>, h: Helper<T>, vals: seq<T>, m: nat)
    requires Shape(h.n, h.pad) && |a| == GetLength(h.n, h.pad) && |vals| <= CellCount(h.n)
    requires m < |vals|
    ensures Overwrite(a, h, vals)[Offset(h, m)] == vals[m]
  {
    var last := |vals| - 1;
    if m < last {
      OffsetInjective(h, m, last);
      OverwriteHit(a, h, vals[..last], m);
      assert vals[..last][m] == vals[m];
    }
  }

  /**
   * Overwriting every interior cell: the interior then shows exactly vals, and
   * every pad (ghost) position keeps its old value.
   */
  lemma OverwriteAll<T>(a: seq<T>, h: Helper<T>, vals: seq<T>, i: int, j: int, k: int)
    requires Shape(h.n, h.pad) && |a| == GetLength(h.n, h.pad) && |vals| == CellCount(h.n)
    ensures CellsOf(Overwrite(a, h, vals), h) == vals
    ensures InRange(h, i, j, k) && !Interior(h.n, Cell(i, j, k)) ==>
      Overwrite(a, h, vals)[GetIndex(h, i, j, k)] == a[GetIndex(h, i, j, k)]
  {
    var r := Overwrite(a, h, vals);
    forall m | 0 <= m < |vals| ensures CellsOf(r, h)[m] == vals[m] {
      OverwriteHit(a, h, vals, m);
    }
    if InRange(h, i, j, k) && !Interior(h.n, Cell(i, j, k)) {
      forall m | 0 <= m < |vals| ensures Offset(h, m) != GetIndex(h, i, j, k) {
        if Offset(h, m) == GetIndex(h, i, j, k) {
          OffsetIsInterior(h, m, i, j, k);
        }
      }
      OverwriteMiss(a, h, vals, GetIndex(h, i, j, k));
    }
  }

  /** One more step of the loop: writing the next cell extends the overwrite by one value. */
  lemma OverwriteStep<T>(a: seq<T>, h: Helper<T>, vals: seq<T>, m: nat)
    requires Shape(h.n, h.pad) && |a| == GetLength(h.n, h.pad) && |vals| <= CellCount(h.n)
    requires m < |vals|
    ensures Overwrite(a, h, vals[..m])[Offset(h, m) := vals[m]] == Overwrite(a, h, vals[..m + 1])
  {
    assert vals[..m + 1][..m] == vals[..m];
  }

  /** Assign vals[m] to the m-th interior cell, for every m in iteration order. */
  method StoreCells<T>(h: Helper<T>, vals: seq<T>)
    requires Valid(h) && |vals| == CellCount(h.n)
    modifies h.data
    ensures h.data[..] == Overwrite(old(h.data[..]), h, vals)
  {
    ghost var a0 := h.data[..];
    var N := Count(h.n);
    var m := 0;
    while m < N
      invariant 0 <= m <= N && h.data[..] == Overwrite(a0, h, vals[..m])
    {
      OverwriteStep(a0, h, vals, m);
      h.data[Offset(h, m)] := vals[m];
      m := m + 1;
    }
    assert vals[..N] == vals;
  }
}
