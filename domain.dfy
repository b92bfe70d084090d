// The domain: the faces of the box, the per-instance vector fields with one ghost
// cell on every side, and the one-cell-thick ghost and edge slices next to a face.

module Domains {
  import opened Elements
  import opened Sparse
  import opened Fields
  import opened Traversal

  /** The six faces, numbered as the enumeration declares them: iMinus, jMinus, kMinus, iPlus, jPlus, kPlus. */
  type Face = f: int | 0 <= f < 6

  const I_MINUS: Face := 0
  const J_MINUS: Face := 1
  const K_MINUS: Face := 2
  const I_PLUS: Face := 3
  const J_PLUS: Face := 4
  const K_PLUS: Face := 5

  /** The axis a face is normal to. */
  function Axis(f: Face): (r: int)
    ensures 0 <= r < 3
  {
    f % 3
  }

  /** Faces iMinus, jMinus and kMinus lie on the low side of their axis. */
  predicate IsMinus(f: Face)
  {
    f < 3
  }

  /** getOppositeFace(f) = (f + 3) mod 6. */
  function OppositeFace(f: Face): (r: Face)
    ensures Axis(r) == Axis(f) && IsMinus(r) != IsMinus(f)
  {
    (f + 3) % 6
  }

  /** Taking the opposite face twice gives the face back, and no face is its own opposite. */
  lemma OppositeInvolution(f: Face)
    ensures OppositeFace(OppositeFace(f)) == f && OppositeFace(f) != f
  {
  }

  /** static_cast<Face>(d) is the minus face of axis d, and its opposite the plus face. */
  lemma MinusFaceOfAxis(d: int)
    requires 0 <= d < 3
    ensures Axis(d) == d && IsMinus(d) && Axis(OppositeFace(d)) == d && !IsMinus(OppositeFace(d))
  {
  }

  /** hasNeighbor(f): a single domain has no neighbour on any face. */
  function HasNeighbor(f: Face): bool
  {
    false
  }

  /** getMax(x): with one domain, the maximum over all domains is the local value. */
  function GetMax<T>(x: T): T
  {
    x
  }

  /** The padding every field of the domain is allocated with: one ghost cell on each side. */
  const GHOST_PAD: seq<int> := [1, 1, 1, 1, 1, 1]

  // ---------------------------------------------------------------------------
  // Ghost and edge slices, as bounds [iS, iE, jS, jE, kS, kE]

  /** The bounds getGhost slices, exactly as written: the iPlus case uses nj on the i axis. */
  function GhostBoundsAsWritten(n: seq<int>, f: Face): (r: seq<int>)
    requires |n| == 3
    ensures |r| == 6
  {
    var ni, nj, nk := n[0], n[1], n[2];
    if f == I_MINUS then [-1, 0, 0, nj, 0, nk]
    else if f == J_MINUS then [0, ni, -1, 0, 0, nk]
    else if f == K_MINUS then [0, ni, 0, nj, -1, 0]
    else if f == I_PLUS then [nj, nj + 1, 0, nj, 0, nk]
    else if f == J_PLUS then [0, ni, nj, nj + 1, 0, nk]
    else [0, ni, 0, nj, nk, nk + 1]
  }

  /** The bounds getEdge slices, exactly as written: the iPlus case uses nj on the i axis. */
  function EdgeBoundsAsWritten(n: seq<int>, f: Face): (r: seq<int>)
    requires |n| == 3
    ensures |r| == 6
  {
    var ni, nj, nk := n[0], n[1], n[2];
    if f == I_MINUS then [0, 1, 0, nj, 0, nk]
    else if f == J_MINUS then [0, ni, 0, 1, 0, nk]
    else if f == K_MINUS then [0, ni, 0, nj, 0, 1]
    else if f == I_PLUS then [nj - 1, nj, 0, nj, 0, nk]
    else if f == J_PLUS then [0, ni, nj - 1, nj, 0, nk]
    else [0, ni, 0, nj, nk - 1, nk]
  }

  /** The bounds of the ghost layer next to face f, with the iPlus case on n_i as documented. */
  function GhostBounds(n: seq<int>, f: Face): (r: seq<int>)
    requires |n| == 3
    ensures |r| == 6
  {
    var ni, nj, nk := n[0], n[1], n[2];
    if f == I_MINUS then [-1, 0, 0, nj, 0, nk]
    else if f == J_MINUS then [0, ni, -1, 0, 0, nk]
    else if f == K_MINUS then [0, ni, 0, nj, -1, 0]
    else if f == I_PLUS then [ni, ni + 1, 0, nj, 0, nk]
    else if f == J_PLUS then [0, ni, nj, nj + 1, 0, nk]
    else [0, ni, 0, nj, nk, nk + 1]
  }

  /** The bounds of the interior layer next to face f, with the iPlus case on n_i as documented. */
  function EdgeBounds(n: seq<int>, f: Face): (r: seq<int>)
    requires |n| == 3
    ensures |r| == 6
  {
    var ni, nj, nk := n[0], n[1], n[2];
    if f == I_MINUS then [0, 1, 0, nj, 0, nk]
    else if f == J_MINUS then [0, ni, 0, 1, 0, nk]
    else if f == K_MINUS then [0, ni, 0, nj, 0, 1]
    else if f == I_PLUS then [ni - 1, ni, 0, nj, 0, nk]
    else if f == J_PLUS then [0, ni, nj - 1, nj, 0, nk]
    else [0, ni, 0, nj, nk - 1, nk]
  }

  /** The ghost layer next to f: index -1 on its axis for a minus face, n_d for a plus face. */
  function GhostLayer(n: seq<int>, f: Face): int
    requires |n| == 3
  {
    if IsMinus(f) then -1 else n[Axis(f)]
  }

  /** The interior layer next to f: index 0 on its axis for a minus face, n_d - 1 for a plus face. */
  function EdgeLayer(n: seq<int>, f: Face): int
    requires |n| == 3
  {
    if IsMinus(f) then 0 else n[Axis(f)] - 1
  }

  /** A box that is one layer thick at `layer` on axis d and spans the full interior of the other axes. */
  predicate LayerBox(b: seq<int>, n: seq<int>, d: int, layer: int)
    requires |b| == 6 && |n| == 3 && 0 <= d < 3
  {
    forall e :: 0 <= e < 3 ==>
      if e == d then b[2 * e] == layer && b[2 * e + 1] == layer + 1
      else b[2 * e] == 0 && b[2 * e + 1] == n[e]
  }

  /**
   * Every ghost slice is the one-cell layer just outside face f and every edge
   * slice the one-cell layer just inside it, each spanning the interior of the
   * other two axes; the ghost layer is padding and the edge layer is interior.
   */
  lemma GhostAndEdgeAreLayers(n: seq<int>, f: Face)
    requires |n| == 3 && n[0] >= 1 && n[1] >= 1 && n[2] >= 1
    ensures LayerBox(GhostBounds(n, f), n, Axis(f), GhostLayer(n, f))
    ensures LayerBox(EdgeBounds(n, f), n, Axis(f), EdgeLayer(n, f))
    ensures GhostLayer(n, f) == -1 || GhostLayer(n, f) == n[Axis(f)]
    ensures 0 <= EdgeLayer(n, f) < n[Axis(f)]
  {
    GhostIsLayer(n, f);
    EdgeIsLayer(n, f);
  }

  /** The ghost bounds of face f are the layer GhostLayer(n, f). */
  lemma GhostIsLayer(n: seq<int>, f: Face)
    requires |n| == 3
    ensures LayerBox(GhostBounds(n, f), n, Axis(f), GhostLayer(n, f))
  {
  }

  /** The edge bounds of face f are the layer EdgeLayer(n, f). */
  lemma EdgeIsLayer(n: seq<int>, f: Face)
    requires |n| == 3
    ensures LayerBox(EdgeBounds(n, f), n, Axis(f), EdgeLayer(n, f))
  {
  }

  /** The ghost layer and the edge layer next to a face are neighbours on its axis. */
  lemma GhostBesideEdge(n: seq<int>, f: Face)
    requires |n| == 3
    ensures GhostLayer(n, f) == EdgeLayer(n, f) + (if IsMinus(f) then -1 else 1)
  {
  }

  /** The bounds as written agree with the layers next to the face exactly when the face is not iPlus or n_i = n_j. */
  lemma AsWrittenAgreesOnlyWhenSquare(n: seq<int>, f: Face)
    requires |n| == 3
    ensures GhostBoundsAsWritten(n, f) == GhostBounds(n, f) <==> (f != I_PLUS || n[0] == n[1])
    ensures EdgeBoundsAsWritten(n, f) == EdgeBounds(n, f) <==> (f != I_PLUS || n[0] == n[1])
  {
    if f == I_PLUS && n[0] != n[1] {
      assert GhostBoundsAsWritten(n, f)[0] != GhostBounds(n, f)[0];
      assert EdgeBoundsAsWritten(n, f)[0] != EdgeBounds(n, f)[0];
    }
  }

  /**
   * In a field of n = (2, 3, 1) with one ghost cell per side, the iPlus ghost as
   * written starts at i = 3, outside the padded extent [-1, 3) of the i axis, so
   * the slice leaves the array; the iPlus edge as written is the ghost layer
   * i = 2 rather than the last interior layer i = 1.
   */
  lemma IPlusAsWrittenMisplaced<T>(h: Helper<T>)
    requires h.n == [2, 3, 1] && h.pad == GHOST_PAD
    ensures var b := GhostBoundsAsWritten(h.n, I_PLUS); !SliceBounds(h, b[0], b[1], b[2], b[3], b[4], b[5])
    ensures EdgeBoundsAsWritten(h.n, I_PLUS)[0] == 2 && !Interior(h.n, Cell(2, 0, 0))
    ensures var b := GhostBounds(h.n, I_PLUS); SliceBounds(h, b[0], b[1], b[2], b[3], b[4], b[5])
    ensures EdgeBounds(h.n, I_PLUS)[0] == 1 && Interior(h.n, Cell(1, 0, 0))
  {
  }

  /** A slice of a field with one ghost cell per side along the given bounds. */
  function SliceOf<T>(h: Helper<T>, b: seq<int>): (r: Helper<T>)
    requires |h.n| == 3 && |h.pad| == 6 && |b| == 6
    ensures r.data == h.data && r.n == [b[1] - b[0], b[3] - b[2], b[5] - b[4]]
  {
    Slice(h, b[0], b[1], b[2], b[3], b[4], b[5])
  }

  /**
   * A ghost or edge slice of a field with one ghost cell per side is a valid view
   * of the same array, one cell thick, and its size is the product of the other
   * two counts; its position (x0, x1, x2) is the parent's position shifted by the
   * slice's lower bounds.
   */
  lemma LayerSliceValid<T>(h: Helper<T>, f: Face, ghost_: bool, x0: int, x1: int, x2: int)
    requires Valid(h) && h.pad == GHOST_PAD && h.n[0] >= 1 && h.n[1] >= 1 && h.n[2] >= 1
    ensures var b := if ghost_ then GhostBounds(h.n, f) else EdgeBounds(h.n, f);
      var r := SliceOf(h, b);
      Valid(r) && r.n[Axis(f)] == 1 &&
      (forall e :: 0 <= e < 3 && e != Axis(f) ==> r.n[e] == h.n[e]) &&
      (InRange(r, x0, x1, x2) ==> GetIndex(r, x0, x1, x2) == GetIndex(h, x0 + b[0], x1 + b[2], x2 + b[4]))
  {
    GhostAndEdgeAreLayers(h.n, f);
    if ghost_ {
      LayerBoxSlice(h, GhostBounds(h.n, f), Axis(f), GhostLayer(h.n, f), x0, x1, x2);
    } else {
      LayerBoxSlice(h, EdgeBounds(h.n, f), Axis(f), EdgeLayer(h.n, f), x0, x1, x2);
    }
  }

  /** Coordinate x on axis e of a layer of face f: shifted to the layer on the face's axis, unchanged elsewhere. */
  function OnLayer(f: Face, layer: int, x: int, e: int): int
  {
    if e == Axis(f) then layer + x else x
  }

  /**
   * Every position of the ghost (or edge) slice of face f is the parent's
   * position on the layer GhostLayer(n, f) (or EdgeLayer(n, f)) of f's axis, with
   * the other two coordinates unchanged.
   */
  lemma LayerAliases<T>(h: Helper<T>, f: Face, ghost_: bool)
    requires Valid(h) && h.pad == GHOST_PAD
    ensures var layer := if ghost_ then GhostLayer(h.n, f) else EdgeLayer(h.n, f);
      var r := SliceOf(h, if ghost_ then GhostBounds(h.n, f) else EdgeBounds(h.n, f));
      Valid(r) &&
      forall x0, x1, x2 :: InRange(r, x0, x1, x2) ==>
        InRange(h, OnLayer(f, layer, x0, 0), OnLayer(f, layer, x1, 1), OnLayer(f, layer, x2, 2)) &&
        GetIndex(r, x0, x1, x2) == GetIndex(h, OnLayer(f, layer, x0, 0), OnLayer(f, layer, x1, 1), OnLayer(f, layer, x2, 2))
  {
    var layer := if ghost_ then GhostLayer(h.n, f) else EdgeLayer(h.n, f);
    var b := if ghost_ then GhostBounds(h.n, f) else EdgeBounds(h.n, f);
    if ghost_ { GhostIsLayer(h.n, f); } else { EdgeIsLayer(h.n, f); }
    var r := SliceOf(h, b);
    LayerBoxSlice(h, b, Axis(f), layer, 0, 0, 0);
    forall x0, x1, x2 | InRange(r, x0, x1, x2)
      ensures InRange(h, OnLayer(f, layer, x0, 0), OnLayer(f, layer, x1, 1), OnLayer(f, layer, x2, 2))
      ensures GetIndex(r, x0, x1, x2) == GetIndex(h, OnLayer(f, layer, x0, 0), OnLayer(f, layer, x1, 1), OnLayer(f, layer, x2, 2))
    {
      LayerBoxSlice(h, b, Axis(f), layer, x0, x1, x2);
      assert OnLayer(f, layer, x0, 0) == x0 + b[0];
      assert OnLayer(f, layer, x1, 1) == x1 + b[2];
      assert OnLayer(f, layer, x2, 2) == x2 + b[4];
    }
  }

  /** A one-layer box within the padded extent is a valid slice of the same array. */
  lemma LayerBoxSlice<T>(h: Helper<T>, b: seq<int>, d: int, layer: int, x0: int, x1: int, x2: int)
    requires Valid(h) && h.pad == GHOST_PAD && |b| == 6 && 0 <= d < 3 && -1 <= layer <= h.n[d]
    requires LayerBox(b, h.n, d, layer)
    ensures var r := SliceOf(h, b);
      Valid(r) && r.n[d] == 1 &&
      (forall e :: 0 <= e < 3 && e != d ==> r.n[e] == h.n[e]) &&
      (InRange(r, x0, x1, x2) ==> GetIndex(r, x0, x1, x2) == GetIndex(h, x0 + b[0], x1 + b[2], x2 + b[4]))
  {
    assert forall e :: 0 <= e < 3 ==> -1 <= b[2 * e] <= b[2 * e + 1] <= h.n[e] + 1;
    assert SliceBounds(h, b[0], b[1], b[2], b[3], b[4], b[5]);
    SliceAliases(h, b[0], b[1], b[2], b[3], b[4], b[5], x0, x1, x2);
  }

  // ---------------------------------------------------------------------------
  // The domain

  /** Fields of the given counts, one ghost cell per side, each on an array of its own, every cell empty. */
  ghost predicate EmptyFields(fs: seq<Helper<SVec>>, cs: seq<Helper<NormalizedSVector>>, dims: seq<int>)
    reads set p | 0 <= p < |fs| :: fs[p].data
    reads set p | 0 <= p < |cs| :: cs[p].data
  {
    |fs| == |cs| &&
    (forall p :: 0 <= p < |fs| ==> Fields.Valid(fs[p]) && fs[p].n == dims && fs[p].pad == GHOST_PAD) &&
    (forall p :: 0 <= p < |cs| ==> Fields.Valid(cs[p]) && cs[p].n == dims && cs[p].pad == GHOST_PAD) &&
    (forall p, q :: 0 <= p < q < |fs| ==> fs[p].data != fs[q].data && cs[p].data != cs[q].data) &&
    (forall p, q :: 0 <= p < |fs| && 0 <= q < fs[p].data.Length ==> fs[p].data[q] == []) &&
    (forall p, q :: 0 <= p < |cs| && 0 <= q < cs[p].data.Length ==> cs[p].data[q] == EMPTY_NORMALIZED)
  }

  /** One more source field and dilation field, each empty and on an array of its own. */
  lemma EmptyFieldsSnoc(fs: seq<Helper<SVec>>, cs: seq<Helper<NormalizedSVector>>, dims: seq<int>,
                        f: Helper<SVec>, g: Helper<NormalizedSVector>)
    requires EmptyFields(fs, cs, dims)
    requires Fields.Valid(f) && f.n == dims && f.pad == GHOST_PAD && Fields.Valid(g) && g.n == dims && g.pad == GHOST_PAD
    requires forall p :: 0 <= p < |fs| ==> fs[p].data != f.data && cs[p].data != g.data
    requires forall q :: 0 <= q < f.data.Length ==> f.data[q] == []
    requires forall q :: 0 <= q < g.data.Length ==> g.data[q] == EMPTY_NORMALIZED
    ensures EmptyFields(fs + [f], cs + [g], dims)
  {
  }

  /** The allocation loop of the Domain constructor: count fresh source fields and dilation fields. */
  method AllocateFields(dims: seq<int>, count: int) returns (fs: seq<Helper<SVec>>, cs: seq<Helper<NormalizedSVector>>)
    requires |dims| == 3 && dims[0] >= 0 && dims[1] >= 0 && dims[2] >= 0 && count >= 0
    ensures |fs| == count && EmptyFields(fs, cs, dims)
    ensures forall p :: 0 <= p < count ==> fresh(fs[p].data) && fresh(cs[p].data)
  {
    fs, cs := [], [];
    var i := 0;
    while i < count
      invariant 0 <= i <= count && |fs| == i && EmptyFields(fs, cs, dims)
      invariant forall p :: 0 <= p < i ==> fresh(fs[p].data) && fresh(cs[p].data)
    {
      var f := NewOwner(dims, GHOST_PAD, []);
      var g := NewOwner(dims, GHOST_PAD, EMPTY_NORMALIZED);
      EmptyFieldsSnoc(fs, cs, dims, f, g);
      fs := fs + [f];
      cs := cs + [g];
      i := i + 1;
    }
  }

  /** Domain(ni, nj, nk, nn): nn instances of the source field s and the dilation field c. */
  class Domain {
    const n: seq<int>
    const nn: int
    const s: seq<Helper<SVec>>
    const c: seq<Helper<NormalizedSVector>>

    /** Every field has the domain's counts and one ghost cell per side, and no two fields share an array. */
    predicate Valid()
    {
      |n| == 3 && n[0] >= 0 && n[1] >= 0 && n[2] >= 0 && nn >= 0 && |s| == nn && |c| == nn &&
      (forall p :: 0 <= p < nn ==> Fields.Valid(s[p]) && s[p].n == n && s[p].pad == GHOST_PAD) &&
      (forall p :: 0 <= p < nn ==> Fields.Valid(c[p]) && c[p].n == n && c[p].pad == GHOST_PAD) &&
      (forall p, q :: 0 <= p < q < nn ==> s[p].data != s[q].data) &&
      (forall p, q :: 0 <= p < q < nn ==> c[p].data != c[q].data)
    }

    /** The arrays of all source fields. */
    function SArrays(): set<array<SVec>>
    {
      set p | 0 <= p < |s| :: s[p].data
    }

    /** The arrays of all dilation fields. */
    function CArrays(): set<array<NormalizedSVector>>
    {
      set p | 0 <= p < |c| :: c[p].data
    }

    /** Allocates every field, ghost cells included, with every vector empty. */
    constructor(ni: int, nj: int, nk: int, nn': int)
      requires ni >= 0 && nj >= 0 && nk >= 0 && nn' >= 0
      ensures Valid() && n == [ni, nj, nk] && nn == nn'
      ensures forall p :: 0 <= p < nn ==> fresh(s[p].data) && fresh(c[p].data)
      ensures forall p, q :: 0 <= p < nn && 0 <= q < s[p].data.Length ==> s[p].data[q] == []
      ensures forall p, q :: 0 <= p < nn && 0 <= q < c[p].data.Length ==> c[p].data[q] == EMPTY_NORMALIZED
    {
      var dims := [ni, nj, nk];
      var fs, cs := AllocateFields(dims, nn');
      n, nn, s, c := dims, nn', fs, cs;
    }

    /**
     * getGhost(f, p): the ghost layer of instance p just outside face f, a view of
     * the same array whose positions are those of the layer GhostLayer(n, f).
     */
    function GetGhost(f: Face, p: int): (r: Helper<SVec>)
      requires Valid() && 0 <= p < nn
      ensures r.data == s[p].data && |r.n| == 3 && |r.pad| == 6
      ensures forall e :: 0 <= e < 3 ==> r.n[e] == if e == Axis(f) then 1 else n[e]
      ensures Fields.Valid(r) && forall x0, x1, x2 :: InRange(r, x0, x1, x2) ==>
        GetIndex(r, x0, x1, x2) ==
        GetIndex(s[p], OnLayer(f, GhostLayer(n, f), x0, 0), OnLayer(f, GhostLayer(n, f), x1, 1), OnLayer(f, GhostLayer(n, f), x2, 2))
    {
      LayerAliases(s[p], f, true);
      SliceOf(s[p], GhostBounds(n, f))
    }

    /**
     * getEdge(f, p): the interior layer of instance p just inside face f, a view of
     * the same array whose positions are those of the layer EdgeLayer(n, f).
     */
    function GetEdge(f: Face, p: int): (r: Helper<SVec>)
      requires Valid() && 0 <= p < nn
      ensures r.data == s[p].data && |r.n| == 3 && |r.pad| == 6
      ensures forall e :: 0 <= e < 3 ==> r.n[e] == if e == Axis(f) then 1 else n[e]
      ensures Fields.Valid(r) && forall x0, x1, x2 :: InRange(r, x0, x1, x2) ==>
        GetIndex(r, x0, x1, x2) ==
        GetIndex(s[p], OnLayer(f, EdgeLayer(n, f), x0, 0), OnLayer(f, EdgeLayer(n, f), x1, 1), OnLayer(f, EdgeLayer(n, f), x2, 2))
    {
      LayerAliases(s[p], f, false);
      SliceOf(s[p], EdgeBounds(n, f))
    }
  }
}
