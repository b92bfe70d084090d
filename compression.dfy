// The codec that flattens the vectors of a slice into one element stream, each
// vector followed by the terminator, and reads such a stream back into a slice.
// Sizes are counted in elements.

module Compression {
  import opened Elements
  import opened Sparse
  import opened SVectors
  import opened Fields
  import opened Traversal

  /** The number of elements the stream of cells takes: NNZ + 1 per cell. */
  function CompressedSize(cells: seq<SVec>): nat
  {
    if cells == [] then 0 else |cells[0]| + 1 + CompressedSize(cells[1..])
  }

  /** The stream: every cell's elements followed by the terminator, cells in order. */
  function Encode(cells: seq<SVec>): seq<Element>
  {
    if cells == [] then [] else cells[0] + [END_ELEMENT] + Encode(cells[1..])
  }

  /** k cells can be read from s: each has a terminator, and each run before it ascends (the reader asserts it). */
  predicate Decodable(s: seq<Element>, k: nat)
  {
    k == 0 || (|TakeRun(s)| < |s| && Sorted(TakeRun(s)) && Decodable(s[|TakeRun(s)| + 1..], k - 1))
  }

  /** The k cells read from s: each is the run before the next terminator. */
  function Decode(s: seq<Element>, k: nat): (r: seq<SVec>)
    requires Decodable(s, k)
    ensures |r| == k
  {
    if k == 0 then [] else [TakeRun(s)] + Decode(s[|TakeRun(s)| + 1..], k - 1)
  }

  /** The stream holds exactly CompressedSize elements. */
  lemma {:induction false} EncodeLength(cells: seq<SVec>)
    ensures |Encode(cells)| == CompressedSize(cells)
  {
    if cells != [] {
      EncodeLength(cells[1..]);
    }
  }

  /** An empty cell encodes as the terminator alone. */
  lemma EmptyCellIsTerminator(cells: seq<SVec>)
    ensures Encode([[]] + cells) == [END_ELEMENT] + Encode(cells)
    ensures CompressedSize([[]] + cells) == 1 + CompressedSize(cells)
  {
    assert ([[]] + cells)[1..] == cells;
  }

  /** Appending one cell to the stream appends its elements and a terminator. */
  lemma {:induction false} EncodeSnoc(cells: seq<SVec>, c: SVec)
    ensures Encode(cells + [c]) == Encode(cells) + c + [END_ELEMENT]
    ensures CompressedSize(cells + [c]) == CompressedSize(cells) + |c| + 1
  {
    if cells == [] {
      assert [c][1..] == [];
      assert [] + [c] == [c];
    } else {
      assert (cells + [c])[1..] == cells[1..] + [c];
      EncodeSnoc(cells[1..], c);
    }
  }

  /** Round trip: reading back a stream of storable cells, whatever follows it, gives the cells. */
  lemma {:induction false} DecodeEncode(cells: seq<SVec>, rest: seq<Element>)
    requires forall q :: 0 <= q < |cells| ==> Storable(cells[q])
    ensures Decodable(Encode(cells) + rest, |cells|)
    ensures Decode(Encode(cells) + rest, |cells|) == cells
  {
    if cells != [] {
      var c := cells[0];
      var s := Encode(cells) + rest;
      assert s == c + [END_ELEMENT] + (Encode(cells[1..]) + rest);
      TakeRunWritten(c, Encode(cells[1..]) + rest);
      assert s[|c| + 1..] == Encode(cells[1..]) + rest;
      DecodeEncode(cells[1..], rest);
    }
  }

  /** Reading one more cell: the first run, then the cells after its terminator. */
  lemma DecodeStep(s: seq<Element>, k: nat, cells: seq<SVec>, vals: seq<SVec>)
    requires Decodable(s, k) && k > 0 && cells + Decode(s, k) == vals
    ensures |TakeRun(s)| < |s| && IsEnd(s[|TakeRun(s)|]) && Sorted(TakeRun(s))
    ensures Decodable(s[|TakeRun(s)| + 1..], k - 1)
    ensures (cells + [TakeRun(s)]) + Decode(s[|TakeRun(s)| + 1..], k - 1) == vals
  {
    TakeRunShape(s);
    assert cells + ([TakeRun(s)] + Decode(s[|TakeRun(s)| + 1..], k - 1)) == vals;
  }

  /** getCompressedSize(slice): the stream length, NNZ + 1 summed over the cells of the slice. */
  method GetCompressedSize(slice: Helper<SVec>) returns (len: nat)
    requires Fields.Valid(slice)
    ensures len == CompressedSize(Contents(slice)) && len == |Encode(Contents(slice))|
  {
    var N := Count(slice.n);
    ghost var cells := Contents(slice);
    len := 0;
    var m := 0;
    while m < N
      invariant 0 <= m <= N && len == CompressedSize(cells[..m])
    {
      var s := slice.data[Offset(slice, m)];
      assert cells[..m + 1] == cells[..m] + [s];
      EncodeSnoc(cells[..m], s);
      len := len + |s| + 1;
      m := m + 1;
    }
    assert cells[..N] == cells;
    EncodeLength(cells);
  }

  /** compress(buff, slice): write the stream of the slice's cells at the start of buff; nothing else changes. */
  method Compress(buff: array<Element>, slice: Helper<SVec>)
    requires Fields.Valid(slice) && CompressedSize(Contents(slice)) <= buff.Length
    modifies buff
    ensures buff[..CompressedSize(Contents(slice))] == Encode(Contents(slice))
    ensures buff[CompressedSize(Contents(slice))..] == old(buff[CompressedSize(Contents(slice))..])
  {
    var N := Count(slice.n);
    ghost var cells := Contents(slice);
    ghost var total := CompressedSize(cells);
    EncodeLength(cells);
    var ptr := 0;
    var m := 0;
    while m < N
      invariant 0 <= m <= N && ptr == CompressedSize(cells[..m])
      invariant CompressedSize(cells[..m]) <= total
      invariant buff[..ptr] == Encode(cells[..m])
      invariant buff[total..] == old(buff[total..])
    {
      var s := slice.data[Offset(slice, m)];
      assert cells[..m + 1] == cells[..m] + [s];
      EncodeSnoc(cells[..m], s);
      PrefixSize(cells, m + 1);
      EncodeLength(cells[..m]);
      CopyCell(buff, ptr, s, total, Encode(cells[..m]));
      ptr := ptr + |s| + 1;
      m := m + 1;
    }
    assert cells[..N] == cells;
  }

  /** The body of compress for one cell: memcpy of its NNZ elements at ptr, then the terminator after them. */
  method CopyCell(buff: array<Element>, ptr: nat, s: SVec, ghost total: nat, ghost written: seq<Element>)
    requires ptr == |written| && ptr + |s| + 1 <= total <= buff.Length && buff[..ptr] == written
    modifies buff
    ensures buff[..ptr + |s| + 1] == written + s + [END_ELEMENT]
    ensures buff[total..] == old(buff[total..])
  {
    var q := 0;
    while q < |s|
      invariant 0 <= q <= |s|
      invariant buff[..ptr + q] == written + s[..q]
      invariant buff[total..] == old(buff[total..])
    {
      buff[ptr + q] := s[q];
      assert buff[..ptr + q + 1] == buff[..ptr + q] + [s[q]];
      assert s[..q + 1] == s[..q] + [s[q]];
      q := q + 1;
    }
    assert s[..|s|] == s;
    buff[ptr + |s|] := END_ELEMENT;
    assert buff[..ptr + |s| + 1] == buff[..ptr + |s|] + [END_ELEMENT];
  }

  /** The stream of a prefix of the cells is no longer than the stream of all of them. */
  lemma {:induction false} PrefixSize(cells: seq<SVec>, m: nat)
    requires m <= |cells|
    ensures CompressedSize(cells[..m]) <= CompressedSize(cells)
    decreases |cells| - m
  {
    if m < |cells| {
      PrefixSize(cells, m + 1);
      assert cells[..m + 1] == cells[..m] + [cells[m]];
      EncodeSnoc(cells[..m], cells[m]);
    } else {
      assert cells[..m] == cells;
    }
  }

  /** Decompress has read cells; the k vectors still to come decode from the rest of the stream. */
  ghost predicate ReadSoFar(rest: seq<Element>, k: nat, cells: seq<SVec>, vals: seq<SVec>)
  {
    Decodable(rest, k) && cells + Decode(rest, k) == vals
  }

  /**
   * One step of decompress: construct the vector at buff[ptr] (the constructor
   * asserts that its run ascends) and move past its NNZ + 1 elements.
   */
  method ReadOne(buff: array<Element>, ptr: nat, ghost rest: seq<Element>, ghost k: nat, ghost cells: seq<SVec>, ghost vals: seq<SVec>)
    returns (cell: SVec, next: nat, ghost rest': seq<Element>)
    requires ptr <= buff.Length && rest == buff[ptr..] && k > 0 && ReadSoFar(rest, k, cells, vals)
    ensures next <= buff.Length && cell == TakeRun(rest) && next == ptr + |cell| + 1
    ensures rest' == buff[next..] && ReadSoFar(rest', k - 1, cells + [cell], vals)
  {
    DecodeStep(rest, k, cells, vals);
    assert IsEnd(buff[ptr + |TakeRun(rest)|]);
    var v := new SVector.FromBuffer(buff, ptr);
    cell := v.vec;
    next := ptr + |cell| + 1;
    rest' := rest[|cell| + 1..];
  }

  /**
   * The reading half of decompress: construct k vectors from the buffer, each
   * from the run before the next terminator, moving past NNZ + 1 elements each
   * time.
   */
  method ReadCells(buff: array<Element>, k: nat) returns (cells: seq<SVec>)
    requires Decodable(buff[..], k)
    ensures cells == Decode(buff[..], k)
  {
    ghost var vals := Decode(buff[..], k);
    ghost var rest := buff[..];
    cells := [];
    var ptr: nat := 0;
    var m := 0;
    assert buff[0..] == rest && ReadSoFar(rest, k, cells, vals);
    ghost var left: nat := k;
    while m < k
      invariant 0 <= m <= k && |cells| == m && left == k - m
      invariant ptr <= buff.Length && rest == buff[ptr..] && ReadSoFar(rest, left, cells, vals)
    {
      var cell;
      cell, ptr, rest := ReadOne(buff, ptr, rest, left, cells, vals);
      cells := cells + [cell];
      m := m + 1;
      left := left - 1;
    }
    assert Decode(rest, 0) == [];
  }

  /**
   * decompress(buff, slice): every interior cell of the slice, in iteration
   * order, becomes the next vector read from the buffer; ghost positions of the
   * array keep their value.
   */
  method Decompress(buff: array<Element>, slice: Helper<SVec>)
    requires Fields.Valid(slice) && Decodable(buff[..], CellCount(slice.n))
    modifies slice.data
    ensures slice.data[..] == Overwrite(old(slice.data[..]), slice, Decode(buff[..], CellCount(slice.n)))
  {
    var cells := ReadCells(buff, Count(slice.n));
    StoreCells(slice, cells);
  }

  /**
   * The round trip of the codec on slices: the stream compress writes for a slice
   * of storable cells decompresses into a slice of the same cell count as exactly
   * those cells, and leaves the target's ghost positions alone.
   */
  lemma SliceRoundTrip(src: seq<SVec>, dst: Helper<SVec>, a: seq<SVec>, rest: seq<Element>, i: int, j: int, k: int)
    requires forall q :: 0 <= q < |src| ==> Storable(src[q])
    requires Shape(dst.n, dst.pad) && |a| == GetLength(dst.n, dst.pad) && |src| == CellCount(dst.n)
    ensures Decodable(Encode(src) + rest, CellCount(dst.n))
    ensures CellsOf(Overwrite(a, dst, Decode(Encode(src) + rest, CellCount(dst.n))), dst) == src
    ensures InRange(dst, i, j, k) && !Interior(dst.n, Cell(i, j, k)) ==>
      Overwrite(a, dst, Decode(Encode(src) + rest, CellCount(dst.n)))[GetIndex(dst, i, j, k)] == a[GetIndex(dst, i, j, k)]
  {
    DecodeEncode(src, rest);
    OverwriteAll(a, dst, src, i, j, k);
  }

  /**
   * A ghost refresh between neighbours, as one exchange through the codec: the
   * sending edge slice is measured and compressed into a buffer of that size,
   * and the buffer is decompressed into the receiving ghost slice. The receiving
   * slice then shows exactly the cells the sending slice showed before.
   */
  method TransferSlice(src: Helper<SVec>, dst: Helper<SVec>)
    requires Fields.Valid(src) && Fields.Valid(dst) && CellCount(src.n) == CellCount(dst.n)
    requires forall m :: 0 <= m < CellCount(src.n) ==> Storable(Contents(src)[m])
    modifies dst.data
    ensures dst.data[..] == Overwrite(old(dst.data[..]), dst, old(Contents(src)))
  {
    ghost var cells := Contents(src);
    var size := GetCompressedSize(src);
    var buff := new Element[size](_ => END_ELEMENT);
    Compress(buff, src);
    assert buff[..] == Encode(cells) + [] by {
      assert buff[..] == buff[..size];
    }
    DecodeEncode(cells, []);
    Decompress(buff, dst);
  }
}
