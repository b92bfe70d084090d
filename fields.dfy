// A view of padded three-dimensional data stored in one flat array, in C order
// (the last index varies fastest). A view is a value: the array it points into,
// the number of interior cells per axis and the padding on each side. Slicing
// builds a new view over the same array, so two views can alias the same cells.

module Fields {

  /** A view: data, n = [N_i, N_j, N_k], pad = [i-, i+, j-, j+, k-, k+]. */
  datatype Helper<T> = Helper(data: array<T>, n: seq<int>, pad: seq<int>)

  /** Three non-negative counts and six non-negative paddings. */
  predicate Shape(n: seq<int>, pad: seq<int>)
  {
    |n| == 3 && |pad| == 6 &&
    n[0] >= 0 && n[1] >= 0 && n[2] >= 0 &&
    pad[0] >= 0 && pad[1] >= 0 && pad[2] >= 0 && pad[3] >= 0 && pad[4] >= 0 && pad[5] >= 0
  }

  /** The padded extent of axis d: n + padLo + padHi. */
  function Extent(n: seq<int>, pad: seq<int>, d: int): int
    requires |n| == 3 && |pad| == 6 && 0 <= d < 3
  {
    n[d] + pad[2 * d] + pad[2 * d + 1]
  }

  /** 0 <= x < X and 0 <= y < Y place x * Y + y in [0, X * Y). */
  lemma Linear(x: int, X: int, y: int, Y: int)
    requires 0 <= x < X && 0 <= y < Y
    ensures 0 <= x * Y + y < X * Y
  {
    assert x * Y + y < (x + 1) * Y;
    assert (x + 1) * Y <= X * Y;
  }

  /** With 0 <= y, y' < Y, x * Y + y determines x and y. */
  lemma LinearUnique(x: int, y: int, x': int, y': int, Y: int)
    requires 0 <= y < Y && 0 <= y' < Y && x * Y + y == x' * Y + y'
    ensures x == x' && y == y'
  {
    MulAdd(x - x', x', Y);
    assert (x - x') * Y == y' - y;
    MulMono(1, x - x', Y);
    MulMono(1, x' - x, Y);
    MulAdd(x' - x, x, Y);
  }

  lemma MulSucc(x: int, y: int)
    ensures (x + 1) * y == x * y + y && (x - 1) * y == x * y - y
  {
  }

  lemma MulAdd(x: int, y: int, z: int)
    ensures (x + y) * z == x * z + y * z
  {
  }

  lemma MulMono(x: int, y: int, z: int)
    ensures x <= y && z >= 0 ==> x * z <= y * z
  {
    if x <= y && z >= 0 {
      MulAdd(y - x, x, z);
    }
  }

  /** getLength: the number of stored entries, the product of the three padded extents. */
  function GetLength(n: seq<int>, pad: seq<int>): (r: int)
    requires Shape(n, pad)
    ensures r >= 0
    ensures r == 0 <==> Extent(n, pad, 0) == 0 || Extent(n, pad, 1) == 0 || Extent(n, pad, 2) == 0
  {
    var a, b, c := Extent(n, pad, 0), Extent(n, pad, 1), Extent(n, pad, 2);
    assert a * b >= 0;
    assert a * b == 0 <==> a == 0 || b == 0;
    a * b * c
  }

  /** A view whose array has exactly the padded extent it describes. */
  predicate Valid<T>(h: Helper<T>)
  {
    Shape(h.n, h.pad) && h.data.Length == GetLength(h.n, h.pad)
  }

  /** (i, j, k) lies in the view, padding included: -padLo <= x < n + padHi on each axis. */
  predicate InRange<T>(h: Helper<T>, i: int, j: int, k: int)
    requires |h.n| == 3 && |h.pad| == 6
  {
    -h.pad[0] <= i < h.n[0] + h.pad[1] &&
    -h.pad[2] <= j < h.n[1] + h.pad[3] &&
    -h.pad[4] <= k < h.n[2] + h.pad[5]
  }

  /** The offset of (i, j, k) from the first entry of the array (C order). */
  function GetIndex<T>(h: Helper<T>, i: int, j: int, k: int): (r: int)
    requires |h.n| == 3 && |h.pad| == 6
    ensures Shape(h.n, h.pad) && InRange(h, i, j, k) ==> 0 <= r < GetLength(h.n, h.pad)
  {
    var b0, b1, b2 := Extent(h.n, h.pad, 0), Extent(h.n, h.pad, 1), Extent(h.n, h.pad, 2);
    var row := (i + h.pad[0]) * b1 + (j + h.pad[2]);
    var r := row * b2 + k + h.pad[4];
    if Shape(h.n, h.pad) && InRange(h, i, j, k) then
      Linear(i + h.pad[0], b0, j + h.pad[2], b1);
      Linear(row, b0 * b1, k + h.pad[4], b2);
      r
    else
      r
  }

  /** Distinct positions of a view are stored at distinct offsets. */
  lemma IndexInjective<T>(h: Helper<T>, i: int, j: int, k: int, i': int, j': int, k': int)
    requires Shape(h.n, h.pad) && InRange(h, i, j, k) && InRange(h, i', j', k')
    requires GetIndex(h, i, j, k) == GetIndex(h, i', j', k')
    ensures i == i' && j == j' && k == k'
  {
    var b1, b2 := Extent(h.n, h.pad, 1), Extent(h.n, h.pad, 2);
    var row := (i + h.pad[0]) * b1 + (j + h.pad[2]);
    var row' := (i' + h.pad[0]) * b1 + (j' + h.pad[2]);
    LinearUnique(row, k + h.pad[4], row', k' + h.pad[4], b2);
    LinearUnique(i + h.pad[0], j + h.pad[2], i' + h.pad[0], j' + h.pad[2], b1);
  }

  /** at(i, j, k): the entry the view shows at (i, j, k). */
  function At<T>(h: Helper<T>, i: int, j: int, k: int): T
    reads h.data
    requires Valid(h) && InRange(h, i, j, k)
  {
    h.data[GetIndex(h, i, j, k)]
  }

  /** size(): the number of interior cells. */
  function Size<T>(h: Helper<T>): (r: int)
    requires Shape(h.n, h.pad)
    ensures r == CellCount(h.n)
    ensures r >= 0 && r <= GetLength(h.n, h.pad)
  {
    var a, b, c := h.n[0], h.n[1], h.n[2];
    var A, B, C := Extent(h.n, h.pad, 0), Extent(h.n, h.pad, 1), Extent(h.n, h.pad, 2);
    assert 0 <= a * b <= A * B by {
      assert a * b <= A * b <= A * B;
    }
    assert a * b * c <= (A * B) * c <= (A * B) * C;
    a * b * c
  }

  /** slice(iS, iE, jS, jE, kS, kE): the sub-box [iS, iE) x [jS, jE) x [kS, kE) over the same array, padding re-derived. */
  function Slice<T>(h: Helper<T>, iS: int, iE: int, jS: int, jE: int, kS: int, kE: int): (r: Helper<T>)
    requires |h.n| == 3 && |h.pad| == 6
    ensures r.data == h.data && r.n == [iE - iS, jE - jS, kE - kS] && |r.pad| == 6
    ensures forall d :: 0 <= d < 3 ==> Extent(r.n, r.pad, d) == Extent(h.n, h.pad, d)
  {
    Helper(h.data, [iE - iS, jE - jS, kE - kS],
           [h.pad[0] + iS, h.pad[1] + (h.n[0] - iE),
            h.pad[2] + jS, h.pad[3] + (h.n[1] - jE),
            h.pad[4] + kS, h.pad[5] + (h.n[2] - kE)])
  }

  /** The bounds of a slice stay inside the padded view. */
  predicate SliceBounds<T>(h: Helper<T>, iS: int, iE: int, jS: int, jE: int, kS: int, kE: int)
    requires |h.n| == 3 && |h.pad| == 6
  {
    -h.pad[0] <= iS <= iE <= h.n[0] + h.pad[1] &&
    -h.pad[2] <= jS <= jE <= h.n[1] + h.pad[3] &&
    -h.pad[4] <= kS <= kE <= h.n[2] + h.pad[5]
  }

  /**
   * A slice is a valid view of the same array, and its (i', j', k') is the
   * parent's (i' + iS, j' + jS, k' + kS): reads and writes through the slice
   * reach the parent's cells.
   */
  lemma SliceAliases<T>(h: Helper<T>, iS: int, iE: int, jS: int, jE: int, kS: int, kE: int, i: int, j: int, k: int)
    requires Valid(h) && SliceBounds(h, iS, iE, jS, jE, kS, kE)
    ensures Valid(Slice(h, iS, iE, jS, jE, kS, kE))
    ensures GetLength(Slice(h, iS, iE, jS, jE, kS, kE).n, Slice(h, iS, iE, jS, jE, kS, kE).pad) == GetLength(h.n, h.pad)
    ensures InRange(Slice(h, iS, iE, jS, jE, kS, kE), i, j, k) ==>
      InRange(h, i + iS, j + jS, k + kS) &&
      GetIndex(Slice(h, iS, iE, jS, jE, kS, kE), i, j, k) == GetIndex(h, i + iS, j + jS, k + kS)
  {
    var r := Slice(h, iS, iE, jS, jE, kS, kE);
    assert Extent(r.n, r.pad, 0) == Extent(h.n, h.pad, 0);
    assert Extent(r.n, r.pad, 1) == Extent(h.n, h.pad, 1);
    assert Extent(r.n, r.pad, 2) == Extent(h.n, h.pad, 2);
  }

  // ---------------------------------------------------------------------------
  // Cells in iteration order

  /** A position (i, j, k). */
  datatype Cell = Cell(i: int, j: int, k: int)

  /** An interior (non-pad) cell. */
  predicate Interior(n: seq<int>, c: Cell)
    requires |n| == 3
  {
    0 <= c.i < n[0] && 0 <= c.j < n[1] && 0 <= c.k < n[2]
  }

  /** The cell after c in C order: k first, then j, then i. */
  function NextCell(n: seq<int>, c: Cell): Cell
    requires |n| == 3
  {
    if c.k + 1 < n[2] then Cell(c.i, c.j, c.k + 1)
    else if c.j + 1 < n[1] then Cell(c.i, c.j + 1, 0)
    else Cell(c.i + 1, 0, 0)
  }

  /** The m-th interior cell in iteration order. */
  function CellAt(n: seq<int>, m: nat): Cell
    requires |n| == 3
  {
    if m == 0 then Cell(0, 0, 0) else NextCell(n, CellAt(n, m - 1))
  }

  /** The position of an interior cell in iteration order. */
  function Rank(n: seq<int>, c: Cell): int
    requires |n| == 3
  {
    (c.i * n[1] + c.j) * n[2] + c.k
  }

  /** The last interior cell. */
  function LastCell(n: seq<int>): Cell
    requires |n| == 3
  {
    Cell(n[0] - 1, n[1] - 1, n[2] - 1)
  }

  function CellCount(n: seq<int>): int
    requires |n| == 3
  {
    n[0] * n[1] * n[2]
  }

  /** A block with at least one cell along every axis has at least one cell. */
  lemma CellCountPositive(n: seq<int>)
    requires |n| == 3 && n[0] >= 1 && n[1] >= 1 && n[2] >= 1
    ensures CellCount(n) >= 1
  {
    MulMono(1, n[0], n[1]);
    MulMono(1, n[0] * n[1], n[2]);
  }

  /** Stepping from an interior cell other than the last reaches the interior cell of the next rank. */
  lemma NextCellRank(n: seq<int>, c: Cell)
    requires |n| == 3 && Interior(n, c) && c != LastCell(n)
    ensures Interior(n, NextCell(n, c)) && Rank(n, NextCell(n, c)) == Rank(n, c) + 1
  {
    var c' := NextCell(n, c);
    if c.k + 1 < n[2] {
    } else if c.j + 1 < n[1] {
      MulSucc(c.i * n[1] + c.j, n[2]);
    } else {
      assert c.i + 1 < n[0];
      MulSucc(c.i, n[1]);
      MulSucc((c.i + 1) * n[1] - 1, n[2]);
    }
  }

  /** The last cell has the last rank. */
  lemma LastCellRank(n: seq<int>)
    requires |n| == 3 && n[0] >= 1 && n[1] >= 1 && n[2] >= 1
    ensures Interior(n, LastCell(n)) && Rank(n, LastCell(n)) == CellCount(n) - 1
  {
    MulSucc(n[0] - 1, n[1]);
    MulSucc(n[0] * n[1] - 1, n[2]);
  }

  /** Ranks of interior cells are distinct and lie in [0, CellCount). */
  lemma RankBounds(n: seq<int>, c: Cell)
    requires |n| == 3 && Interior(n, c)
    ensures 0 <= Rank(n, c) < CellCount(n)
  {
    Linear(c.i, n[0], c.j, n[1]);
    Linear(c.i * n[1] + c.j, n[0] * n[1], c.k, n[2]);
  }

  lemma RankInjective(n: seq<int>, c: Cell, c': Cell)
    requires |n| == 3 && Interior(n, c) && Interior(n, c') && Rank(n, c) == Rank(n, c')
    ensures c == c'
  {
    LinearUnique(c.i * n[1] + c.j, c.k, c'.i * n[1] + c'.j, c'.k, n[2]);
    LinearUnique(c.i, c.j, c'.i, c'.j, n[1]);
  }

  /** The m-th cell of the iteration is the interior cell of rank m. */
  lemma {:induction false} CellAtRank(n: seq<int>, m: nat)
    requires |n| == 3 && n[0] >= 0 && n[1] >= 0 && n[2] >= 0 && m < CellCount(n)
    ensures Interior(n, CellAt(n, m)) && Rank(n, CellAt(n, m)) == m
  {
    if m > 0 {
      CellAtRank(n, m - 1);
      var c := CellAt(n, m - 1);
      if c == LastCell(n) {
        LastCellRank(n);
        assert false;
      }
      NextCellRank(n, c);
    } else {
      assert n[0] != 0 && n[1] != 0 && n[2] != 0;
    }
  }

  /** Iteration visits every interior cell exactly once: distinct steps give distinct cells, and each cell is reached. */
  lemma VisitsEveryCellOnce(n: seq<int>, m: nat, m': nat, c: Cell)
    requires |n| == 3 && n[0] >= 0 && n[1] >= 0 && n[2] >= 0 && m < CellCount(n) && m' < CellCount(n)
    ensures m != m' ==> CellAt(n, m) != CellAt(n, m')
    ensures Interior(n, c) ==> 0 <= Rank(n, c) < CellCount(n) && CellAt(n, Rank(n, c)) == c
  {
    CellAtRank(n, m);
    CellAtRank(n, m');
    if Interior(n, c) {
      RankBounds(n, c);
      CellAtRank(n, Rank(n, c));
      RankInjective(n, c, CellAt(n, Rank(n, c)));
    }
  }

  // ---------------------------------------------------------------------------
  // Iterators

  /** The changing part of an iterator: pointer offset and the two innermost indices (k, j). */
  datatype Cursor = Cursor(ptr: int, index0: int, index1: int)

  /** The fixed part of an iterator: counts of the two innermost axes and the pad offsets skipped at a wrap. */
  datatype Stride = Stride(n0: int, n1: int, jump0: int, jump1: int)

  /** The stride of every iterator over h. */
  function StrideOf<T>(h: Helper<T>): Stride
    requires |h.n| == 3 && |h.pad| == 6
  {
    Stride(h.n[2], h.n[1], h.pad[4] + h.pad[5], (h.pad[2] + h.pad[3]) * Extent(h.n, h.pad, 2))
  }

  /** Iterator(array, i, j, k): pointing at (i, j, k). */
  function CursorAt<T>(h: Helper<T>, c: Cell): Cursor
    requires |h.n| == 3 && |h.pad| == 6
  {
    Cursor(GetIndex(h, c.i, c.j, c.k), c.k, c.j)
  }

  /** forward_Iterator::operator++: step the pointer, carrying into j and i by jumping over padding. */
  function Forward(c: Cursor, s: Stride): Cursor
  {
    var c1 := Cursor(c.ptr + 1, c.index0 + 1, c.index1);
    if c1.index0 == s.n0 then
      var c2 := Cursor(c1.ptr + s.jump0, 0, c1.index1 + 1);
      if c2.index1 == s.n1 then Cursor(c2.ptr + s.jump1, c2.index0, 0) else c2
    else c1
  }

  /** reverse_Iterator::operator++: step the pointer backwards, borrowing from j and i. */
  function Backward(c: Cursor, s: Stride): Cursor
  {
    var c1 :=
      if c.index0 == 0 then
        var c2 := if c.index1 == 0 then Cursor(c.ptr - s.jump1, s.n0, s.n1) else Cursor(c.ptr, s.n0, c.index1);
        Cursor(c2.ptr - s.jump0, c2.index0, c2.index1 - 1)
      else c;
    Cursor(c1.ptr - 1, c1.index0 - 1, c1.index1)
  }

  /** A view with at least one interior cell on every axis. */
  predicate NonEmpty<T>(h: Helper<T>)
  {
    Shape(h.n, h.pad) && h.n[0] >= 1 && h.n[1] >= 1 && h.n[2] >= 1
  }

  /** begin(): at (0, 0, 0). */
  function Begin<T>(h: Helper<T>): Cursor
    requires |h.n| == 3 && |h.pad| == 6
  {
    CursorAt(h, Cell(0, 0, 0))
  }

  /** end(): one step forward from the last interior cell. */
  function End<T>(h: Helper<T>): Cursor
    requires |h.n| == 3 && |h.pad| == 6
  {
    Forward(CursorAt(h, LastCell(h.n)), StrideOf(h))
  }

  /** rbegin(): at the last interior cell. */
  function RBegin<T>(h: Helper<T>): Cursor
    requires |h.n| == 3 && |h.pad| == 6
  {
    CursorAt(h, LastCell(h.n))
  }

  /** rend(): one reverse step from (0, 0, 0). */
  function REnd<T>(h: Helper<T>): Cursor
    requires |h.n| == 3 && |h.pad| == 6
  {
    Backward(CursorAt(h, Cell(0, 0, 0)), StrideOf(h))
  }

  /** m forward steps. */
  function Steps(c: Cursor, s: Stride, m: nat): Cursor
  {
    if m == 0 then c else Forward(Steps(c, s, m - 1), s)
  }

  /** m reverse steps. */
  function RSteps(c: Cursor, s: Stride, m: nat): Cursor
  {
    if m == 0 then c else Backward(RSteps(c, s, m - 1), s)
  }

  // The three ways a pointer moves between neighbouring cells.

  /** Within a k-run the next cell is the next entry. */
  lemma StepInner<T>(h: Helper<T>, i: int, j: int, k: int)
    requires |h.n| == 3 && |h.pad| == 6
    ensures GetIndex(h, i, j, k) + 1 == GetIndex(h, i, j, k + 1)
  {
  }

  /** From the end of a k-run to the start of the next one, the k padding is skipped. */
  lemma WrapInner<T>(h: Helper<T>, i: int, j: int)
    requires |h.n| == 3 && |h.pad| == 6
    ensures GetIndex(h, i, j, h.n[2] - 1) + 1 + StrideOf(h).jump0 == GetIndex(h, i, j + 1, 0)
  {
    var b1, b2 := Extent(h.n, h.pad, 1), Extent(h.n, h.pad, 2);
    var row := (i + h.pad[0]) * b1 + (j + h.pad[2]);
    assert (i + h.pad[0]) * b1 + (j + 1 + h.pad[2]) == row + 1;
    MulSucc(row, b2);
  }

  /** From the last cell of a (j, k) plane to the first of the next, both j and k paddings are skipped. */
  lemma WrapOuter<T>(h: Helper<T>, i: int)
    requires |h.n| == 3 && |h.pad| == 6
    ensures GetIndex(h, i, h.n[1] - 1, h.n[2] - 1) + 1 + StrideOf(h).jump0 + StrideOf(h).jump1 == GetIndex(h, i + 1, 0, 0)
  {
    var b1, b2 := Extent(h.n, h.pad, 1), Extent(h.n, h.pad, 2);
    var p2, p3 := h.pad[2], h.pad[3];
    var row := (i + h.pad[0]) * b1 + (h.n[1] - 1 + p2);
    var row' := (i + 1 + h.pad[0]) * b1 + (0 + p2);
    MulSucc(i + h.pad[0], b1);
    assert row + 1 + p2 + p3 == row';
    MulSucc(row, b2);
    MulAdd(row + 1, p2 + p3, b2);
    assert GetIndex(h, i, h.n[1] - 1, h.n[2] - 1) == row * b2 + h.n[2] - 1 + h.pad[4];
    assert GetIndex(h, i + 1, 0, 0) == row' * b2 + 0 + h.pad[4];
  }

  /** One forward step from an interior cell other than the last points at the next cell. */
  lemma ForwardStep<T>(h: Helper<T>, c: Cell)
    requires NonEmpty(h) && Interior(h.n, c) && c != LastCell(h.n)
    ensures Forward(CursorAt(h, c), StrideOf(h)) == CursorAt(h, NextCell(h.n, c))
  {
    if c.k + 1 < h.n[2] {
      StepInner(h, c.i, c.j, c.k);
    } else if c.j + 1 < h.n[1] {
      WrapInner(h, c.i, c.j);
    } else {
      WrapOuter(h, c.i);
    }
  }

  /** One reverse step undoes one forward step between interior cells. */
  lemma BackwardStep<T>(h: Helper<T>, c: Cell)
    requires NonEmpty(h) && Interior(h.n, c) && c != LastCell(h.n)
    ensures Backward(CursorAt(h, NextCell(h.n, c)), StrideOf(h)) == CursorAt(h, c)
  {
    if c.k + 1 < h.n[2] {
      StepInner(h, c.i, c.j, c.k);
    } else if c.j + 1 < h.n[1] {
      WrapInner(h, c.i, c.j);
    } else {
      WrapOuter(h, c.i);
    }
  }

  /** end() sits at (n_i, 0, 0), past every interior cell. */
  lemma EndIsPastLast<T>(h: Helper<T>, c: Cell)
    requires NonEmpty(h)
    ensures End(h) == CursorAt(h, Cell(h.n[0], 0, 0))
    ensures Interior(h.n, c) ==> CursorAt(h, c).ptr < End(h).ptr
  {
    WrapOuter(h, h.n[0] - 1);
    if Interior(h.n, c) {
      var b1, b2 := Extent(h.n, h.pad, 1), Extent(h.n, h.pad, 2);
      var row := (c.i + h.pad[0]) * b1 + (c.j + h.pad[2]);
      var rowEnd := (h.n[0] + h.pad[0]) * b1 + (0 + h.pad[2]);
      MulSucc(c.i + h.pad[0], b1);
      MulMono(c.i + h.pad[0] + 1, h.n[0] + h.pad[0], b1);
      assert row + 1 <= rowEnd;
      MulSucc(row, b2);
      MulMono(row + 1, rowEnd, b2);
      assert GetIndex(h, c.i, c.j, c.k) == row * b2 + c.k + h.pad[4];
      assert GetIndex(h, h.n[0], 0, 0) == rowEnd * b2 + 0 + h.pad[4];
    }
  }

  /** The cell before the m-th (m > 0) is not the last one. */
  lemma NotLast(n: seq<int>, m: nat)
    requires |n| == 3 && n[0] >= 1 && n[1] >= 1 && n[2] >= 1 && 0 < m < CellCount(n)
    ensures Interior(n, CellAt(n, m - 1)) && CellAt(n, m - 1) != LastCell(n) && CellAt(n, m) == NextCell(n, CellAt(n, m - 1))
  {
    CellAtRank(n, m - 1);
    LastCellRank(n);
  }

  /** Forward iteration from begin() is at the m-th cell after m < size() steps. */
  lemma {:induction false} ForwardVisits<T>(h: Helper<T>, m: nat)
    requires NonEmpty(h) && m < CellCount(h.n)
    ensures Steps(Begin(h), StrideOf(h), m) == CursorAt(h, CellAt(h.n, m))
  {
    if m > 0 {
      ForwardVisits(h, m - 1);
      NotLast(h.n, m);
      ForwardStep(h, CellAt(h.n, m - 1));
    }
  }

  /** After size() steps forward iteration from begin() equals end(). */
  lemma ForwardReachesEnd<T>(h: Helper<T>)
    requires NonEmpty(h)
    ensures Steps(Begin(h), StrideOf(h), CellCount(h.n)) == End(h)
  {
    var N := CellCount(h.n);
    LastCellRank(h.n);
    ForwardVisits(h, N - 1);
    CellAtRank(h.n, N - 1);
    RankInjective(h.n, CellAt(h.n, N - 1), LastCell(h.n));
  }

  /** The loop `itr != end()` stops exactly after size() steps: no earlier cursor points where end() does. */
  lemma ForwardStopsAtEnd<T>(h: Helper<T>, m: nat)
    requires NonEmpty(h) && m < CellCount(h.n)
    ensures Steps(Begin(h), StrideOf(h), m).ptr != End(h).ptr
  {
    ForwardVisits(h, m);
    CellAtRank(h.n, m);
    EndIsPastLast(h, CellAt(h.n, m));
  }

  /** Reverse iteration from rbegin() visits the cells in the opposite order. */
  lemma {:induction false} ReverseVisits<T>(h: Helper<T>, m: nat)
    requires NonEmpty(h) && m < CellCount(h.n)
    ensures RSteps(RBegin(h), StrideOf(h), m) == CursorAt(h, CellAt(h.n, CellCount(h.n) - 1 - m))
  {
    var N := CellCount(h.n);
    if m == 0 {
      LastCellRank(h.n);
      CellAtRank(h.n, N - 1);
      RankInjective(h.n, LastCell(h.n), CellAt(h.n, N - 1));
    } else {
      ReverseVisits(h, m - 1);
      NotLast(h.n, N - m);
      BackwardStep(h, CellAt(h.n, N - 1 - m));
    }
  }

  /** After size() reverse steps from rbegin() the iterator equals rend(). */
  lemma ReverseReachesEnd<T>(h: Helper<T>)
    requires NonEmpty(h)
    ensures RSteps(RBegin(h), StrideOf(h), CellCount(h.n)) == REnd(h)
  {
    LastCellRank(h.n);
    ReverseVisits(h, CellCount(h.n) - 1);
  }

  /** (0, 0, 0) is the interior cell with the smallest offset. */
  lemma FirstIsLeast<T>(h: Helper<T>, c: Cell)
    requires NonEmpty(h) && Interior(h.n, c)
    ensures CursorAt(h, Cell(0, 0, 0)).ptr <= CursorAt(h, c).ptr
  {
    var b1, b2 := Extent(h.n, h.pad, 1), Extent(h.n, h.pad, 2);
    var row := (c.i + h.pad[0]) * b1 + (c.j + h.pad[2]);
    var row0 := (0 + h.pad[0]) * b1 + (0 + h.pad[2]);
    MulMono(h.pad[0], c.i + h.pad[0], b1);
    MulMono(row0, row, b2);
    assert GetIndex(h, c.i, c.j, c.k) == row * b2 + c.k + h.pad[4];
    assert GetIndex(h, 0, 0, 0) == row0 * b2 + 0 + h.pad[4];
  }

  /** rend() sits at (-1, n_j - 1, n_k - 1), before every interior cell. */
  lemma REndIsBeforeFirst<T>(h: Helper<T>, c: Cell)
    requires NonEmpty(h)
    ensures REnd(h) == CursorAt(h, Cell(-1, h.n[1] - 1, h.n[2] - 1))
    ensures Interior(h.n, c) ==> REnd(h).ptr < CursorAt(h, c).ptr
  {
    WrapOuter(h, -1);
    MulMono(0, h.pad[2] + h.pad[3], Extent(h.n, h.pad, 2));
    if Interior(h.n, c) {
      FirstIsLeast(h, c);
    }
  }

  /** The loop `itr != rend()` stops exactly after size() steps. */
  lemma ReverseStopsAtEnd<T>(h: Helper<T>, m: nat)
    requires NonEmpty(h) && m < CellCount(h.n)
    ensures RSteps(RBegin(h), StrideOf(h), m).ptr != REnd(h).ptr
  {
    ReverseVisits(h, m);
    LastCellRank(h.n);
    CellAtRank(h.n, CellCount(h.n) - 1 - m);
    REndIsBeforeFirst(h, CellAt(h.n, CellCount(h.n) - 1 - m));
  }

  /** An iterator over a view: the pointer and two innermost indices change, the stride is fixed. */
  class FieldIterator {
    var ptr: int
    var index0: int
    var index1: int
    const stride: Stride

    function Cur(): Cursor
      reads this
    {
      Cursor(ptr, index0, index1)
    }

    /** Iterator(array, i, j, k). */
    constructor<T>(h: Helper<T>, c: Cell)
      requires |h.n| == 3 && |h.pad| == 6
      ensures Cur() == CursorAt(h, c) && stride == StrideOf(h)
    {
      ptr := GetIndex(h, c.i, c.j, c.k);
      index0, index1 := c.k, c.j;
      stride := StrideOf(h);
    }

    /** forward_Iterator::operator++. */
    method Increment()
      modifies this
      ensures Cur() == Forward(old(Cur()), stride)
    {
      ptr := ptr + 1;
      index0 := index0 + 1;
      if index0 == stride.n0 {
        index0 := 0;
        ptr := ptr + stride.jump0;
        index1 := index1 + 1;
        if index1 == stride.n1 {
          index1 := 0;
          ptr := ptr + stride.jump1;
        }
      }
    }

    /** reverse_Iterator::operator++. */
    method ReverseIncrement()
      modifies this
      ensures Cur() == Backward(old(Cur()), stride)
    {
      if index0 == 0 {
        index0 := stride.n0;
        if index1 == 0 {
          index1 := stride.n1;
          ptr := ptr - stride.jump1;
        }
        ptr := ptr - stride.jump0;
        index1 := index1 - 1;
      }
      ptr := ptr - 1;
      index0 := index0 - 1;
    }
  }

  /** Run `while (itr != end) ++itr`, recording the pointer at each step; it stops after exactly n steps. */
  method Walk(itr: FieldIterator, endPtr: int, ghost n: nat) returns (ptrs: seq<int>)
    requires forall m :: 0 <= m < n ==> Steps(itr.Cur(), itr.stride, m).ptr != endPtr
    requires Steps(itr.Cur(), itr.stride, n).ptr == endPtr
    modifies itr
    ensures |ptrs| == n && forall m :: 0 <= m < n ==> ptrs[m] == Steps(old(itr.Cur()), itr.stride, m).ptr
  {
    ghost var start := itr.Cur();
    ptrs := [];
    ghost var m := 0;
    while itr.ptr != endPtr
      invariant 0 <= m <= n && |ptrs| == m
      invariant itr.Cur() == Steps(start, itr.stride, m)
      invariant forall q :: 0 <= q < m ==> ptrs[q] == Steps(start, itr.stride, q).ptr
      decreases n - m
    {
      if m == n {
        assert false;
      }
      ptrs := ptrs + [itr.ptr];
      itr.Increment();
      m := m + 1;
    }
    if m < n {
      assert false;
    }
  }

  /** Run `while (itr != rend) ++itr` for a reverse iterator, recording the pointer at each step. */
  method ReverseWalk(itr: FieldIterator, endPtr: int, ghost n: nat) returns (ptrs: seq<int>)
    requires forall m :: 0 <= m < n ==> RSteps(itr.Cur(), itr.stride, m).ptr != endPtr
    requires RSteps(itr.Cur(), itr.stride, n).ptr == endPtr
    modifies itr
    ensures |ptrs| == n && forall m :: 0 <= m < n ==> ptrs[m] == RSteps(old(itr.Cur()), itr.stride, m).ptr
  {
    ghost var start := itr.Cur();
    ptrs := [];
    ghost var m := 0;
    while itr.ptr != endPtr
      invariant 0 <= m <= n && |ptrs| == m
      invariant itr.Cur() == RSteps(start, itr.stride, m)
      invariant forall q :: 0 <= q < m ==> ptrs[q] == RSteps(start, itr.stride, q).ptr
      decreases n - m
    {
      if m == n {
        assert false;
      }
      ptrs := ptrs + [itr.ptr];
      itr.ReverseIncrement();
      m := m + 1;
    }
    if m < n {
      assert false;
    }
  }

  /**
   * The offsets a loop `for (itr = begin(); itr != end(); ++itr)` visits: one per
   * interior cell, in iteration order, and the loop stops after size() steps.
   */
  method ForwardOffsets<T>(h: Helper<T>) returns (ptrs: seq<int>)
    requires NonEmpty(h)
    ensures |ptrs| == CellCount(h.n)
    ensures forall m :: 0 <= m < |ptrs| ==> ptrs[m] == CursorAt(h, CellAt(h.n, m)).ptr
  {
    var itr := new FieldIterator(h, Cell(0, 0, 0));
    var end := new FieldIterator(h, LastCell(h.n));
    end.Increment();
    CellCountPositive(h.n);
    ghost var b, s, e, n := Begin(h), StrideOf(h), End(h), CellCount(h.n);
    assert itr.Cur() == b && itr.stride == s && end.Cur() == e;
    forall m | 0 <= m < n ensures Steps(b, s, m).ptr != e.ptr {
      ForwardStopsAtEnd(h, m);
    }
    ForwardReachesEnd(h);
    ptrs := Walk(itr, end.ptr, n);
    forall m | 0 <= m < |ptrs| ensures ptrs[m] == CursorAt(h, CellAt(h.n, m)).ptr {
      ForwardVisits(h, m);
    }
  }

  /** The offsets a loop from rbegin() to rend() visits: the same cells, last first. */
  method ReverseOffsets<T>(h: Helper<T>) returns (ptrs: seq<int>)
    requires NonEmpty(h)
    ensures |ptrs| == CellCount(h.n)
    ensures forall m :: 0 <= m < |ptrs| ==> ptrs[m] == CursorAt(h, CellAt(h.n, CellCount(h.n) - 1 - m)).ptr
  {
    var itr := new FieldIterator(h, LastCell(h.n));
    var rend := new FieldIterator(h, Cell(0, 0, 0));
    rend.ReverseIncrement();
    CellCountPositive(h.n);
    ghost var b, s, e, n := RBegin(h), StrideOf(h), REnd(h), CellCount(h.n);
    assert itr.Cur() == b && itr.stride == s && rend.Cur() == e;
    forall m | 0 <= m < n ensures RSteps(b, s, m).ptr != e.ptr {
      ReverseStopsAtEnd(h, m);
    }
    ReverseReachesEnd(h);
    ptrs := ReverseWalk(itr, rend.ptr, n);
    forall m | 0 <= m < |ptrs| ensures ptrs[m] == CursorAt(h, CellAt(h.n, CellCount(h.n) - 1 - m)).ptr {
      ReverseVisits(h, m);
    }
  }

  // ---------------------------------------------------------------------------
  // Owners: views that allocate their own array

  /** Owner(n, pad): a fresh array of getLength(n, pad) default entries. */
  method NewOwner<T>(n: seq<int>, pad: seq<int>, default: T) returns (h: Helper<T>)
    requires Shape(n, pad)
    ensures fresh(h.data) && Valid(h) && h.n == n && h.pad == pad
    ensures forall q :: 0 <= q < h.data.Length ==> h.data[q] == default
  {
    var a := new T[GetLength(n, pad)](_ => default);
    h := Helper(a, n, pad);
  }

  /** Owner(const Owner&): a deep copy into a fresh array; writes to the copy never reach the original. */
  method CopyOwner<T>(other: Helper<T>) returns (h: Helper<T>)
    requires Valid(other)
    ensures fresh(h.data) && Valid(h) && h.n == other.n && h.pad == other.pad
    ensures h.data[..] == other.data[..]
  {
    var len := GetLength(other.n, other.pad);
    var a := new T[len](q requires 0 <= q < len reads other.data => other.data[q]);
    h := Helper(a, other.n, other.pad);
  }

  /** Writing one entry of a view changes that entry of the array and nothing else. */
  method Put<T>(h: Helper<T>, i: int, j: int, k: int, x: T)
    requires Valid(h) && InRange(h, i, j, k)
    modifies h.data
    ensures h.data[..] == old(h.data[..])[GetIndex(h, i, j, k) := x]
    ensures At(h, i, j, k) == x
  {
    h.data[GetIndex(h, i, j, k)] := x;
  }
}
