// The volume tracking matrix: row l - 1 accumulates, for every cell of blob l,
// the cell's source vector scaled by its volume. It is written in compressed
// sparse row form: the row count, the number of stored entries, the row index
// without its leading zero, then every column label and every value, row by row.
// The integers written are 32-bit unsigned, so the row index wraps modulo 2^32.

module VolumeTrackingMatrices {
  import opened Elements
  import opened Sparse
  import opened Outputs

  /** The number of stored entries in the rows before row i, before any wrap to 32 bits. */
  function Prefix(rows: seq<SVec>, i: nat): nat
    requires i <= |rows|
  {
    if i == 0 then 0 else Prefix(rows, i - 1) + |rows[i - 1]|
  }

  /** ROW_INDEX never decreases, as long as nothing wraps. */
  lemma {:induction false} PrefixMonotone(rows: seq<SVec>, i: nat, j: nat)
    requires i <= j <= |rows|
    ensures Prefix(rows, i) <= Prefix(rows, j)
    decreases j
  {
    if i < j {
      PrefixMonotone(rows, i, j - 1);
    }
  }

  /** The column labels of one row, in storage order. */
  function Columns(s: SVec): (r: seq<int>)
    ensures |r| == |s| && forall k :: 0 <= k < |s| ==> r[k] == s[k].l
  {
    seq(|s|, k requires 0 <= k < |s| => s[k].l)
  }

  /** The values of one row, in storage order. */
  function Values(s: SVec): (r: seq<real>)
    ensures |r| == |s| && forall k :: 0 <= k < |s| ==> r[k] == s[k].v
  {
    seq(|s|, k requires 0 <= k < |s| => s[k].v)
  }

  /** COLUMN_INDEX for the first i rows. */
  function AllColumns(rows: seq<SVec>, i: nat): (r: seq<int>)
    requires i <= |rows|
    ensures |r| == Prefix(rows, i)
  {
    if i == 0 then [] else AllColumns(rows, i - 1) + Columns(rows[i - 1])
  }

  /** VALUES for the first i rows. */
  function AllValues(rows: seq<SVec>, i: nat): (r: seq<real>)
    requires i <= |rows|
    ensures |r| == Prefix(rows, i)
  {
    if i == 0 then [] else AllValues(rows, i - 1) + Values(rows[i - 1])
  }

  /** The row index entries after the leading zero. */
  function RowIndex(rows: seq<SVec>): (r: seq<int>)
    ensures |r| == |rows| && forall i :: 0 <= i < |rows| ==> r[i] == Prefix(rows, i + 1)
  {
    seq(|rows|, i requires 0 <= i < |rows| => Prefix(rows, i + 1))
  }

  /** The file VolumeTrackingMatrix::write produces for the given rows. */
  function MatrixFile(rows: seq<SVec>): seq<BinToken>
  {
    [UInt(ToUInt32(|rows|)), UInt(ToUInt32(Prefix(rows, |rows|)))] + UIntTokens(RowIndex(rows)) +
    UIntTokens(AllColumns(rows, |rows|)) + FpTokens(AllValues(rows, |rows|))
  }

  /** Rows before j are not moved by the rows after them. */
  lemma {:induction false} AllPrefix(rows: seq<SVec>, i: nat, j: nat)
    requires i <= j <= |rows|
    ensures Prefix(rows, i) <= Prefix(rows, j) && AllColumns(rows, j)[..Prefix(rows, i)] == AllColumns(rows, i)
    ensures Prefix(rows, i) <= Prefix(rows, j) && AllValues(rows, j)[..Prefix(rows, i)] == AllValues(rows, i)
    decreases j
  {
    if i < j {
      AllPrefix(rows, i, j - 1);
      PrefixMonotone(rows, i, j - 1);
    }
  }

  /**
   * Compressed sparse row form: the entries of row i are found between row index i
   * and row index i + 1, columns and values alike.
   */
  lemma RowOfMatrix(rows: seq<SVec>, i: nat)
    requires i < |rows|
    ensures Prefix(rows, i + 1) <= Prefix(rows, |rows|) &&
      AllColumns(rows, |rows|)[Prefix(rows, i)..Prefix(rows, i + 1)] == Columns(rows[i])
    ensures Prefix(rows, i + 1) <= Prefix(rows, |rows|) &&
      AllValues(rows, |rows|)[Prefix(rows, i)..Prefix(rows, i + 1)] == Values(rows[i])
  {
    AllPrefix(rows, i + 1, |rows|);
    var cols, vals := AllColumns(rows, |rows|), AllColumns(rows, i + 1);
    assert AllColumns(rows, i + 1)[Prefix(rows, i)..] == Columns(rows[i]);
    assert AllValues(rows, i + 1)[Prefix(rows, i)..] == Values(rows[i]);
  }

  /** A stretch of a file made of three parts, taken from inside its second or its third part. */
  lemma SliceOfParts<T>(head: seq<T>, mid: seq<T>, tail: seq<T>, a: nat, b: nat)
    requires a <= b <= |mid| && b <= |tail|
    ensures (head + mid + tail)[|head| + a..|head| + b] == mid[a..b]
    ensures (head + mid + tail)[|head| + |mid| + a..|head| + |mid| + b] == tail[a..b]
  {
  }

  /**
   * Reading the written file's header: when nothing wraps, it gives the number of
   * entries, and entry i of the row index is where row i ends.
   */
  lemma MatrixFileCounts(rows: seq<SVec>, i: nat)
    requires i < |rows| && Prefix(rows, |rows|) < 0x1_0000_0000
    ensures var file, nnz := MatrixFile(rows), Prefix(rows, |rows|);
      |file| == 2 + |rows| + 2 * nnz && file[1] == UInt(nnz) && file[2 + i] == UInt(Prefix(rows, i + 1))
  {
    var nnz := Prefix(rows, |rows|);
    var pre, idx := [UInt(ToUInt32(|rows|)), UInt(ToUInt32(nnz))], UIntTokens(RowIndex(rows));
    var body := UIntTokens(AllColumns(rows, |rows|)) + FpTokens(AllValues(rows, |rows|));
    assert MatrixFile(rows) == pre + idx + body;
    PrefixMonotone(rows, i + 1, |rows|);
    assert idx[i] == UInt(Prefix(rows, i + 1));
  }

  /**
   * Reading the written file's body: between the bounds the row index gives for row i
   * lie the row's labels, and at the same offsets in the values block its values.
   */
  lemma MatrixFileRow(rows: seq<SVec>, i: nat)
    requires i < |rows|
    ensures var file, rc, nnz := MatrixFile(rows), |rows|, Prefix(rows, |rows|);
      Prefix(rows, i + 1) <= nnz && |file| == 2 + rc + 2 * nnz &&
      file[2 + rc + Prefix(rows, i)..2 + rc + Prefix(rows, i + 1)] == UIntTokens(Columns(rows[i])) &&
      file[2 + rc + nnz + Prefix(rows, i)..2 + rc + nnz + Prefix(rows, i + 1)] == FpTokens(Values(rows[i]))
  {
    var rc, nnz := |rows|, Prefix(rows, |rows|);
    RowOfMatrix(rows, i);
    var head := [UInt(ToUInt32(rc)), UInt(ToUInt32(nnz))] + UIntTokens(RowIndex(rows));
    TokenSlices(MatrixFile(rows), head, AllColumns(rows, rc), AllValues(rows, rc), 2 + rc, nnz, Prefix(rows, i), Prefix(rows, i + 1));
  }

  /** The columns and values of a stretch of entries, found in a file laid out as header, columns, values. */
  lemma TokenSlices(f: seq<BinToken>, head: seq<BinToken>, cols: seq<int>, vals: seq<real>, h: nat, n: nat, a: nat, b: nat)
    requires f == head + UIntTokens(cols) + FpTokens(vals)
    requires h == |head| && n == |cols| == |vals| && a <= b <= n
    ensures |f| == h + 2 * n
    ensures f[h + a..h + b] == UIntTokens(cols[a..b])
    ensures f[h + n + a..h + n + b] == FpTokens(vals[a..b])
  {
    SliceOfParts(head, UIntTokens(cols), FpTokens(vals), a, b);
    assert UIntTokens(cols)[a..b] == UIntTokens(cols[a..b]);
    assert FpTokens(vals)[a..b] == FpTokens(vals[a..b]);
  }

  /** One record of the time log: the snapshot index, the row count and the time. */
  datatype LogEntry = LogEntry(tNum: nat, rowCount: nat, time: real)

  /** The record writeToLog appends. */
  function LogRecord(tNum: int, rc: int, time: real): seq<BinToken>
  {
    [UInt(ToUInt32(tNum)), UInt(ToUInt32(rc)), Fp(time)]
  }

  /** The records of a time log, read from the start; None when the log is not a whole number of records. */
  function TimeLogEntries(log: seq<BinToken>): Option<seq<LogEntry>>
  {
    if log == [] then Some([])
    else if |log| >= 3 && log[0].UInt? && log[1].UInt? && log[2].Fp? && log[0].u >= 0 && log[1].u >= 0 then
      match TimeLogEntries(log[3..])
      case None => None
      case Some(es) => Some([LogEntry(log[0].u, log[1].u, log[2].x)] + es)
    else None
  }

  datatype Option<T> = None | Some(value: T)

  /** Appending a record to a well-formed log adds exactly that record at the end. */
  lemma {:induction false} TimeLogAppend(log: seq<BinToken>, es: seq<LogEntry>, tNum: int, rc: int, time: real)
    requires TimeLogEntries(log) == Some(es)
    ensures TimeLogEntries(log + LogRecord(tNum, rc, time)) == Some(es + [LogEntry(ToUInt32(tNum), ToUInt32(rc), time)])
    decreases |log|
  {
    var rec := LogRecord(tNum, rc, time);
    if log == [] {
      assert log + rec == rec && rec[3..] == [];
      assert TimeLogEntries(rec[3..]) == Some([]);
      assert rec[0] == UInt(ToUInt32(tNum)) && rec[1] == UInt(ToUInt32(rc)) && rec[2] == Fp(time);
      assert TimeLogEntries(rec) == Some([LogEntry(ToUInt32(tNum), ToUInt32(rc), time)] + []);
      assert es == [];
      assert es + [LogEntry(ToUInt32(tNum), ToUInt32(rc), time)] == [LogEntry(ToUInt32(tNum), ToUInt32(rc), time)] + [];
    } else {
      var rest := TimeLogEntries(log[3..]).value;
      assert es == [LogEntry(log[0].u, log[1].u, log[2].x)] + rest;
      assert (log + rec)[3..] == log[3..] + rec;
      assert (log + rec)[0] == log[0] && (log + rec)[1] == log[1] && (log + rec)[2] == log[2];
      TimeLogAppend(log[3..], rest, tNum, rc, time);
      assert es + [LogEntry(ToUInt32(tNum), ToUInt32(rc), time)] ==
        [LogEntry(log[0].u, log[1].u, log[2].x)] + (rest + [LogEntry(ToUInt32(tNum), ToUInt32(rc), time)]);
    }
  }

  /** VolumeTrackingMatrix: rc rows, row l - 1 for blob l, each a sorted sparse vector. */
  class VolumeTrackingMatrix {
    const rc: nat
    const row: array<SVec>

    predicate Valid()
      reads row
    {
      row.Length == rc && forall i :: 0 <= i < rc ==> Sorted(row[i])
    }

    /** VolumeTrackingMatrix(rowCount): rowCount empty rows. */
    constructor(rowCount: nat)
      ensures Valid() && rc == rowCount && fresh(row)
      ensures forall i :: 0 <= i < rc ==> row[i] == []
    {
      rc := rowCount;
      row := new SVec[rowCount](_ => []);
    }

    /** addCell(label, volume, s): row l - 1 becomes row + volume * s; the source asserts 1 <= l <= rc. */
    method AddCell(l: int, volume: real, s: SVec)
      requires Valid() && 1 <= l <= rc && Sorted(s)
      modifies row
      ensures Valid() && row[..] == old(row[..])[l - 1 := AddTo(old(row[l - 1]), s, volume)]
    {
      AddToMeaning(row[l - 1], s, volume, 0);
      row[l - 1] := AddTo(row[l - 1], s, volume);
    }

    /** finalize(): the entry for label 0 is removed from every row. */
    method Finalize()
      requires Valid()
      modifies row
      ensures Valid() && forall i :: 0 <= i < rc ==> row[i] == ZeroEntry(old(row[i]), 0) && 0 !in Labels(row[i])
    {
      var i := 0;
      while i < rc
        invariant 0 <= i <= rc && Valid()
        invariant forall k :: 0 <= k < i ==> row[k] == ZeroEntry(old(row[k]), 0) && 0 !in Labels(row[k])
        invariant forall k :: i <= k < rc ==> row[k] == old(row[k])
      {
        ZeroEntryMeaning(row[i], 0, 0);
        row[i] := ZeroEntry(row[i], 0);
        i := i + 1;
      }
    }

    /** write(filename): the header and the row index, then the column labels, then the values. */
    method Write() returns (out: seq<BinToken>)
      requires Valid()
      ensures out == MatrixFile(row[..])
    {
      ghost var rows := row[..];
      var ROW_INDEX := RowIndexOf(row, rows);
      var NNZ := ROW_INDEX[rc];
      out := [UInt(ToUInt32(rc)), UInt(NNZ)];
      out := out + seq(rc, k requires 0 <= k < rc reads ROW_INDEX => UInt(ROW_INDEX[k + 1]));
      assert out == [UInt(ToUInt32(rc)), UInt(ToUInt32(Prefix(rows, rc)))] + UIntTokens(RowIndex(rows));
      out := WriteAllColumns(row, rows, out);
      out := WriteAllValues(row, rows, out);
    }

    /** writeToLog(filename, t_num, time): the record (t_num, rc, time) appended to the log. */
    method WriteToLog(log: seq<BinToken>, tNum: int, time: real) returns (log': seq<BinToken>)
      requires 0 <= tNum < 0x1_0000_0000
      ensures log' == log + LogRecord(tNum, rc, time)
      ensures forall es :: TimeLogEntries(log) == Some(es) ==> TimeLogEntries(log') == Some(es + [LogEntry(tNum, ToUInt32(rc), time)])
    {
      var T_NUM := ToUInt32(tNum);
      var ROW_COUNT := ToUInt32(rc);
      log' := log + [UInt(T_NUM), UInt(ROW_COUNT), Fp(time)];
      forall es | TimeLogEntries(log) == Some(es)
        ensures TimeLogEntries(log') == Some(es + [LogEntry(tNum, ToUInt32(rc), time)])
      {
        TimeLogAppend(log, es, tNum, rc, time);
      }
    }
  }

  /** The inner column loop of write: one row's labels, each as an Int_BinType. */
  method WriteColumns(s: SVec, out: seq<BinToken>) returns (out': seq<BinToken>)
    ensures out' == out + UIntTokens(Columns(s))
  {
    out' := out;
    var k := 0;
    while k < |s|
      invariant 0 <= k <= |s| && out' == out + UIntTokens(Columns(s)[..k])
    {
      var column := ToUInt32(s[k].l);
      out' := out' + [UInt(column)];
      assert Columns(s)[..k + 1] == Columns(s)[..k] + [s[k].l];
      UIntTokensAppend(Columns(s)[..k], [s[k].l]);
      k := k + 1;
    }
    assert Columns(s)[..k] == Columns(s);
  }

  /** The inner value loop of write: one row's values, each as an Fp_BinType. */
  method WriteValues(s: SVec, out: seq<BinToken>) returns (out': seq<BinToken>)
    ensures out' == out + FpTokens(Values(s))
  {
    out' := out;
    var k := 0;
    while k < |s|
      invariant 0 <= k <= |s| && out' == out + FpTokens(Values(s)[..k])
    {
      out' := out' + [Fp(s[k].v)];
      assert Values(s)[..k + 1] == Values(s)[..k] + [s[k].v];
      FpTokensAppend(Values(s)[..k], [s[k].v]);
      k := k + 1;
    }
    assert Values(s)[..k] == Values(s);
  }

  /** Summing in 32-bit unsigned: wrapping after each step is wrapping at the end. */
  lemma WrapSum(a: nat, b: nat)
    ensures ToUInt32(ToUInt32(a) + b) == ToUInt32(a + b)
  {
  }

  /** One step of ROW_INDEX: the previous entry plus the row's size, wrapped, is the next prefix wrapped. */
  lemma NextIndex(rows: seq<SVec>, i: nat, prev: nat)
    requires i < |rows| && prev == ToUInt32(Prefix(rows, i))
    ensures ToUInt32(prev + |rows[i]|) == ToUInt32(Prefix(rows, i + 1))
  {
    WrapSum(Prefix(rows, i), |rows[i]|);
  }

  /** ROW_INDEX[0 .. i] hold the running numbers of entries, each taken as an Int_BinType. */
  ghost predicate IndexUpTo(ROW_INDEX: array<nat>, rows: seq<SVec>, i: nat)
    reads ROW_INDEX
  {
    ROW_INDEX.Length == |rows| + 1 && i <= |rows| &&
    forall k :: 0 <= k <= i ==> ROW_INDEX[k] == ToUInt32(Prefix(rows, k))
  }

  /** One turn of the ROW_INDEX loop: entry i + 1 is entry i plus the size of row i. */
  method SetNextIndex(ROW_INDEX: array<nat>, row: array<SVec>, ghost rows: seq<SVec>, i: nat)
    requires rows == row[..] && IndexUpTo(ROW_INDEX, rows, i) && i < |rows|
    modifies ROW_INDEX
    ensures IndexUpTo(ROW_INDEX, rows, i + 1)
  {
    NextIndex(rows, i, ROW_INDEX[i]);
    ROW_INDEX[i + 1] := ToUInt32(ROW_INDEX[i] + |row[i]|);
  }

  /** The ROW_INDEX array of write: the running number of entries, each sum taken as an Int_BinType. */
  method RowIndexOf(row: array<SVec>, ghost rows: seq<SVec>) returns (ROW_INDEX: array<nat>)
    requires rows == row[..]
    ensures fresh(ROW_INDEX) && ROW_INDEX.Length == row.Length + 1
    ensures forall k :: 0 <= k <= row.Length ==> ROW_INDEX[k] == ToUInt32(Prefix(rows, k))
  {
    ROW_INDEX := new nat[row.Length + 1];
    ROW_INDEX[0] := 0;
    var i := 0;
    while i < row.Length
      invariant IndexUpTo(ROW_INDEX, rows, i)
    {
      SetNextIndex(ROW_INDEX, row, rows, i);
      i := i + 1;
    }
  }

  /** The COLUMN_INDEX loop of write: the labels of every row, row by row. */
  method WriteAllColumns(row: array<SVec>, ghost rows: seq<SVec>, out: seq<BinToken>) returns (out': seq<BinToken>)
    requires rows == row[..]
    ensures out' == out + UIntTokens(AllColumns(rows, |rows|))
  {
    out' := out;
    var i := 0;
    assert out' == out + UIntTokens(AllColumns(rows, 0));
    while i < row.Length
      invariant 0 <= i <= row.Length && out' == out + UIntTokens(AllColumns(rows, i))
    {
      out' := WriteColumns(row[i], out');
      UIntTokensAppend(AllColumns(rows, i), Columns(rows[i]));
      i := i + 1;
    }
  }

  /** The VALUES loop of write: the values of every row, row by row. */
  method WriteAllValues(row: array<SVec>, ghost rows: seq<SVec>, out: seq<BinToken>) returns (out': seq<BinToken>)
    requires rows == row[..]
    ensures out' == out + FpTokens(AllValues(rows, |rows|))
  {
    out' := out;
    var i := 0;
    assert out' == out + FpTokens(AllValues(rows, 0));
    while i < row.Length
      invariant 0 <= i <= row.Length && out' == out + FpTokens(AllValues(rows, i))
    {
      out' := WriteValues(row[i], out');
      FpTokensAppend(AllValues(rows, i), Values(rows[i]));
      i := i + 1;
    }
  }
}
