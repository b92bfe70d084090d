// The output entry points. File names are built from a folder, a fixed prefix,
// the snapshot index written in decimal and padded with zeros to six digits, and
// an extension. ELA_OutputWriteV integrates (1 - f) dV over every labelled cell
// into a volume vector; ELA_OutputWriteVTM integrates dV s over every labelled
// cell into the rows of a volume tracking matrix and appends a record to the
// time log. Files are the token sequences their writers produce.

module ElaOutput {
  import opened Elements
  import opened Sparse
  import opened Fields
  import opened Traversal
  import opened Domains
  import opened GlobalVariables
  import opened Outputs
  import opened VolumeVectors
  import opened VolumeTrackingMatrices

  // ---------------------------------------------------------------------------
  // Names

  const T_NUM_DIGITS: nat := 6
  const TRACKING_MATRIX_FILENAME: string := "afwd_"
  const TRACKING_MATRIX_FILENAME_EXT: string := "bin"
  const VOLUME_VECTOR_FILENAME: string := "v_"
  const VOLUME_VECTOR_FILENAME_EXT: string := "bin"
  const TIMELOG_FILENAME: string := "timelog"
  const TIMELOG_FILENAME_EXT: string := "bin"

  predicate IsDigit(c: char)
  {
    '0' <= c <= '9'
  }

  /** The character of a decimal digit. */
  function DigitChar(d: nat): (c: char)
    requires d < 10
    ensures IsDigit(c) && c as int - '0' as int == d
  {
    ('0' as int + d) as char
  }

  /** The decimal digits of x, most significant first, without leading zeros. */
  function DecimalDigits(x: nat): (r: string)
    ensures 1 <= |r| && forall i :: 0 <= i < |r| ==> IsDigit(r[i])
    decreases x
  {
    if x < 10 then [DigitChar(x)] else DecimalDigits(x / 10) + [DigitChar(x % 10)]
  }

  /** std::to_string of an int: a minus sign before the digits of a negative number. */
  function ToDecimal(x: int): string
  {
    if x < 0 then "-" + DecimalDigits(-x) else DecimalDigits(x)
  }

  /** The number a string of decimal digits denotes. */
  function ParseDigits(s: string): int
  {
    if s == [] then 0 else ParseDigits(s[..|s| - 1]) * 10 + (s[|s| - 1] as int - '0' as int)
  }

  function Pow10(k: nat): (r: nat)
    ensures r >= 1
  {
    if k == 0 then 1 else 10 * Pow10(k - 1)
  }

  /** Reading the decimal digits of x gives x back. */
  lemma {:induction false} DecimalRoundTrip(x: nat)
    ensures ParseDigits(DecimalDigits(x)) == x
    decreases x
  {
    if x >= 10 {
      var s := DecimalDigits(x);
      assert s[..|s| - 1] == DecimalDigits(x / 10);
      DecimalRoundTrip(x / 10);
    }
  }

  /** x has at most k decimal digits exactly when x < 10^k. */
  lemma {:induction false} DecimalLength(x: nat, k: nat)
    requires k >= 1
    ensures |DecimalDigits(x)| <= k <==> x < Pow10(k)
    decreases x
  {
    if x >= 10 && k >= 2 {
      DecimalLength(x / 10, k - 1);
      assert x / 10 < Pow10(k - 1) <==> x < 10 * Pow10(k - 1);
    }
  }

  /** k zero characters. */
  function Zeros(k: nat): (r: string)
    ensures |r| == k && forall i :: 0 <= i < k ==> r[i] == '0'
  {
    seq(k, _ => '0')
  }

  /** Leading zeros do not change the number a digit string denotes. */
  lemma {:induction false} LeadingZeros(k: nat, s: string)
    ensures ParseDigits(Zeros(k) + s) == ParseDigits(s)
    decreases |s|
  {
    if s == [] {
      ZerosParse(k);
      assert Zeros(k) + s == Zeros(k);
    } else {
      var s' := s[..|s| - 1];
      LeadingZeros(k, s');
      assert (Zeros(k) + s)[..|Zeros(k) + s| - 1] == Zeros(k) + s';
    }
  }

  lemma {:induction false} ZerosParse(k: nat)
    ensures ParseDigits(Zeros(k)) == 0
  {
    if k > 0 {
      ZerosParse(k - 1);
      assert Zeros(k)[..k - 1] == Zeros(k - 1);
    }
  }

  /** A file name, or the std::length_error of a padding whose length underflows. */
  datatype NameResult = Name(path: string) | LengthError

  /**
   * folder + "/" + prefix + zeros + to_string(t_num) + "." + ext, the zeros filling
   * the number out to T_NUM_DIGITS. When the number is longer, the unsigned padding
   * length wraps around and the string constructor throws.
   */
  function PaddedFileName(folder: string, prefix: string, tNum: int, ext: string): NameResult
  {
    var t := ToDecimal(tNum);
    if |t| > T_NUM_DIGITS then LengthError
    else Name(folder + "/" + prefix + Zeros(T_NUM_DIGITS - |t|) + t + "." + ext)
  }

  /** getNameVVFileName(folder, t_num). */
  function VVFileName(folder: string, tNum: int): NameResult
  {
    PaddedFileName(folder, VOLUME_VECTOR_FILENAME, tNum, VOLUME_VECTOR_FILENAME_EXT)
  }

  /** getNameVTMFileName(folder, t_num). */
  function VTMFileName(folder: string, tNum: int): NameResult
  {
    PaddedFileName(folder, TRACKING_MATRIX_FILENAME, tNum, TRACKING_MATRIX_FILENAME_EXT)
  }

  /** getNameVTMLogFileName(folder). */
  function VTMLogFileName(folder: string): string
  {
    folder + "/" + TIMELOG_FILENAME + "." + TIMELOG_FILENAME_EXT
  }

  /** getNameASCIILogFileName(folder). */
  function ASCIILogFileName(folder: string): string
  {
    folder + "/" + "tracking.log"
  }

  /**
   * A padded name exists exactly for the indices with at most six characters,
   * -99999 to 999999. It is the folder, "/", the prefix, a six-character number
   * segment, "." and the extension; for a non-negative index the segment is all
   * digits and reads back as the index.
   */
  lemma PaddedFileNameShape(folder: string, prefix: string, tNum: int, ext: string)
    ensures PaddedFileName(folder, prefix, tNum, ext).Name? <==> -99999 <= tNum <= 999999
    ensures PaddedFileName(folder, prefix, tNum, ext).Name? ==>
      var p, a := PaddedFileName(folder, prefix, tNum, ext).path, |folder| + 1 + |prefix|;
      |p| == a + T_NUM_DIGITS + 1 + |ext| && p[..a] == folder + "/" + prefix && p[a + T_NUM_DIGITS..] == "." + ext &&
      (tNum >= 0 ==> (forall i :: a <= i < a + T_NUM_DIGITS ==> IsDigit(p[i])) && ParseDigits(p[a..a + T_NUM_DIGITS]) == tNum)
  {
    var t := ToDecimal(tNum);
    if tNum >= 0 {
      DecimalLength(tNum, 6);
      assert Pow10(6) == 1000000;
    } else {
      DecimalLength(-tNum, 5);
      assert Pow10(5) == 100000;
    }
    if |t| <= T_NUM_DIGITS {
      var head, seg, tail := folder + "/" + prefix, Zeros(T_NUM_DIGITS - |t|) + t, "." + ext;
      var p := PaddedFileName(folder, prefix, tNum, ext).path;
      assert p == head + seg + tail;
      assert p[..|head|] == head;
      assert p[|head|..|head| + |seg|] == seg;
      assert p[|head| + |seg|..] == tail;
      if tNum >= 0 {
        LeadingZeros(T_NUM_DIGITS - |t|, t);
        DecimalRoundTrip(tNum);
        forall i | |head| <= i < |head| + T_NUM_DIGITS
          ensures IsDigit(p[i])
        {
          assert p[i] == seg[i - |head|];
        }
      }
    }
  }

  /** Two non-negative indices with the same padded name are the same index. */
  lemma PaddedFileNameInjective(folder: string, prefix: string, t1: int, t2: int, ext: string)
    requires 0 <= t1 && 0 <= t2
    requires PaddedFileName(folder, prefix, t1, ext).Name? && PaddedFileName(folder, prefix, t2, ext).Name?
    requires PaddedFileName(folder, prefix, t1, ext) == PaddedFileName(folder, prefix, t2, ext)
    ensures t1 == t2
  {
    PaddedFileNameShape(folder, prefix, t1, ext);
    PaddedFileNameShape(folder, prefix, t2, ext);
  }

  /**
   * In one folder, the volume vector, the tracking matrix, the time log and the
   * ASCII log never share a name, and snapshots with different non-negative
   * indices get different volume vector and tracking matrix files.
   */
  lemma OutputNamesDistinct(folder: string, t1: int, t2: int)
    ensures VVFileName(folder, t1).Name? && VTMFileName(folder, t2).Name? ==>
      VVFileName(folder, t1).path != VTMFileName(folder, t2).path
    ensures VVFileName(folder, t1).Name? ==>
      VVFileName(folder, t1).path != VTMLogFileName(folder) && VVFileName(folder, t1).path != ASCIILogFileName(folder)
    ensures VTMFileName(folder, t2).Name? ==>
      VTMFileName(folder, t2).path != VTMLogFileName(folder) && VTMFileName(folder, t2).path != ASCIILogFileName(folder)
    ensures VTMLogFileName(folder) != ASCIILogFileName(folder)
    ensures 0 <= t1 && 0 <= t2 && t1 != t2 && VVFileName(folder, t1).Name? && VVFileName(folder, t2).Name? ==>
      VVFileName(folder, t1) != VVFileName(folder, t2)
    ensures 0 <= t1 && 0 <= t2 && t1 != t2 && VTMFileName(folder, t1).Name? && VTMFileName(folder, t2).Name? ==>
      VTMFileName(folder, t1) != VTMFileName(folder, t2)
  {
    var f := |folder|;
    var timelog, tracking := VTMLogFileName(folder), ASCIILogFileName(folder);
    assert timelog[f + 1] == 't' && timelog[f + 2] == 'i';
    assert tracking[f + 1] == 't' && tracking[f + 2] == 'r';
    if VVFileName(folder, t1).Name? {
      PaddedFileNameShape(folder, VOLUME_VECTOR_FILENAME, t1, VOLUME_VECTOR_FILENAME_EXT);
      var p := VVFileName(folder, t1).path;
      assert p[f + 1] == (folder + "/" + VOLUME_VECTOR_FILENAME)[f + 1] == 'v';
    }
    if VTMFileName(folder, t2).Name? {
      PaddedFileNameShape(folder, TRACKING_MATRIX_FILENAME, t2, TRACKING_MATRIX_FILENAME_EXT);
      var p := VTMFileName(folder, t2).path;
      assert p[f + 1] == (folder + "/" + TRACKING_MATRIX_FILENAME)[f + 1] == 'a';
    }
    if 0 <= t1 && 0 <= t2 && t1 != t2 && VVFileName(folder, t1).Name? && VVFileName(folder, t2).Name? &&
       VVFileName(folder, t1) == VVFileName(folder, t2) {
      PaddedFileNameInjective(folder, VOLUME_VECTOR_FILENAME, t1, t2, VOLUME_VECTOR_FILENAME_EXT);
    }
    if 0 <= t1 && 0 <= t2 && t1 != t2 && VTMFileName(folder, t1).Name? && VTMFileName(folder, t2).Name? &&
       VTMFileName(folder, t1) == VTMFileName(folder, t2) {
      PaddedFileNameInjective(folder, TRACKING_MATRIX_FILENAME, t1, t2, TRACKING_MATRIX_FILENAME_EXT);
    }
  }

  // ---------------------------------------------------------------------------
  // Row count

  /** The value std::max_element finds in a non-empty range: a largest element. */
  function MaxElement(ls: seq<int>): (r: int)
    requires ls != []
    ensures r in ls && forall i :: 0 <= i < |ls| ==> ls[i] <= r
  {
    if |ls| == 1 then ls[0]
    else
      var m := MaxElement(ls[..|ls| - 1]);
      assert forall i :: 0 <= i < |ls| - 1 ==> ls[..|ls| - 1][i] == ls[i];
      if ls[|ls| - 1] > m then ls[|ls| - 1] else m
  }

  /** Labels the host can pass: C++ ints that are not negative. */
  predicate HostLabels(ls: seq<int>)
  {
    forall m :: 0 <= m < |ls| ==> 0 <= ls[m] < 0x8000_0000
  }

  // ---------------------------------------------------------------------------
  // Volume vector

  /** The volume a cell with volume fraction f and cell volume dV adds: (1 - f) dV. */
  function CellVolume(f: real, dV: real): real
  {
    (1.0 - f) * dV
  }

  /** The rc volumes after the loop of ELA_OutputWriteV has visited the first m cells. */
  function Volumes(ls: seq<int>, fs: seq<real>, ds: seq<real>, rc: nat, m: nat): (r: seq<real>)
    requires |fs| == |ls| && |ds| == |ls| && m <= |ls|
    ensures |r| == rc
  {
    if m == 0 then seq(rc, _ => 0.0)
    else
      var r := Volumes(ls, fs, ds, rc, m - 1);
      var l := ls[m - 1];
      if l != 0 && fs[m - 1] != 1.0 && 1 <= l <= rc then r[l - 1 := r[l - 1] + CellVolume(fs[m - 1], ds[m - 1])] else r
  }

  /** The volume of blob l over the first m cells: the sum of (1 - f) dV over the cells labelled l. */
  function BlobVolume(ls: seq<int>, fs: seq<real>, ds: seq<real>, l: int, m: nat): real
    requires |fs| == |ls| && |ds| == |ls| && m <= |ls|
  {
    if m == 0 then 0.0
    else BlobVolume(ls, fs, ds, l, m - 1) + (if ls[m - 1] == l then CellVolume(fs[m - 1], ds[m - 1]) else 0.0)
  }

  /**
   * Entry l - 1 of the volume vector is the volume of blob l: skipping the full
   * cells (f = 1) loses nothing, since they would add (1 - 1) dV = 0.
   */
  lemma {:induction false} VolumesMeaning(ls: seq<int>, fs: seq<real>, ds: seq<real>, rc: nat, m: nat, l: int)
    requires |fs| == |ls| && |ds| == |ls| && m <= |ls| && 1 <= l <= rc
    ensures Volumes(ls, fs, ds, rc, m)[l - 1] == BlobVolume(ls, fs, ds, l, m)
  {
    if m > 0 {
      VolumesMeaning(ls, fs, ds, rc, m - 1, l);
      if ls[m - 1] == l && fs[m - 1] == 1.0 {
        assert CellVolume(fs[m - 1], ds[m - 1]) == 0.0;
      }
    }
  }

  /** What an output call produces: a named file, or the length error of its name. */
  datatype Written = Written(name: string, file: seq<BinToken>) | NameTooLong

  /** The loop of ELA_OutputWriteV has visited the first m cells of the three fields. */
  ghost predicate VolumesUpTo(vv: VolumeVector, labelF: Helper<int>, vofF: Helper<real>, dVF: Helper<real>, m: nat,
                              ls: seq<int>, fs: seq<real>, ds: seq<real>)
    reads vv.v, labelF.data, vofF.data, dVF.data
  {
    vv.Valid() && Fields.Valid(labelF) && Fields.Valid(vofF) && Fields.Valid(dVF) &&
    vofF.n == labelF.n && dVF.n == labelF.n && vv.v != vofF.data && vv.v != dVF.data &&
    ls == Contents(labelF) && fs == Contents(vofF) && ds == Contents(dVF) &&
    m <= |ls| && (forall i :: 0 <= i < |ls| ==> 0 <= ls[i] <= vv.rc) &&
    vv.v[..] == Volumes(ls, fs, ds, vv.rc, m)
  }

  /** One pass of the loop of ELA_OutputWriteV: cell m adds its volume to its label's entry. */
  method AddVolume(vv: VolumeVector, labelF: Helper<int>, vofF: Helper<real>, dVF: Helper<real>, m: nat,
                   ghost ls: seq<int>, ghost fs: seq<real>, ghost ds: seq<real>)
    requires VolumesUpTo(vv, labelF, vofF, dVF, m, ls, fs, ds) && m < |ls|
    modifies vv.v
    ensures VolumesUpTo(vv, labelF, vofF, dVF, m + 1, ls, fs, ds)
  {
    var l, f, d := labelF.data[Offset(labelF, m)], vofF.data[Offset(vofF, m)], dVF.data[Offset(dVF, m)];
    assert l == ls[m] && f == fs[m] && d == ds[m];
    if l != 0 && f != 1.0 {
      vv.AddCell(l, CellVolume(f, d));
    }
    assert vv.v[..] == Volumes(ls, fs, ds, vv.rc, m + 1);
  }

  /** The loop of ELA_OutputWriteV over every cell, on a vector whose volumes are all zero. */
  method IntegrateVolumes(vv: VolumeVector, labelF: Helper<int>, vofF: Helper<real>, dVF: Helper<real>,
                          ghost ls: seq<int>, ghost fs: seq<real>, ghost ds: seq<real>)
    requires VolumesUpTo(vv, labelF, vofF, dVF, 0, ls, fs, ds)
    modifies vv.v
    ensures VolumesUpTo(vv, labelF, vofF, dVF, |ls|, ls, fs, ds)
  {
    var N := Count(labelF.n);
    var m: nat := 0;
    while m < N
      invariant N == |ls| && VolumesUpTo(vv, labelF, vofF, dVF, m, ls, fs, ds)
    {
      AddVolume(vv, labelF, vofF, dVF, m, ls, fs, ds);
      m := m + 1;
    }
  }

  /** Every entry of the volume vector is the volume of its blob. */
  lemma VolumeVectorMeaning(ls: seq<int>, fs: seq<real>, ds: seq<real>, rc: nat)
    requires |fs| == |ls| && |ds| == |ls|
    ensures forall l :: 1 <= l <= rc ==> Volumes(ls, fs, ds, rc, |ls|)[l - 1] == BlobVolume(ls, fs, ds, l, |ls|)
  {
    forall l | 1 <= l <= rc
      ensures Volumes(ls, fs, ds, rc, |ls|)[l - 1] == BlobVolume(ls, fs, ds, l, |ls|)
    {
      VolumesMeaning(ls, fs, ds, rc, |ls|, l);
    }
  }

  /** The vector ELA_OutputWriteV builds: maxLabel zero volumes, every cell integrated, then finalize. */
  method BuildVolumes(labelF: Helper<int>, vofF: Helper<real>, dVF: Helper<real>, maxLabel: nat,
                      ghost ls: seq<int>, ghost fs: seq<real>, ghost ds: seq<real>)
    returns (vv: VolumeVector)
    requires Fields.Valid(labelF) && Fields.Valid(vofF) && Fields.Valid(dVF) && vofF.n == labelF.n && dVF.n == labelF.n
    requires ls == Contents(labelF) && fs == Contents(vofF) && ds == Contents(dVF)
    requires maxLabel < 0x8000_0000 && forall i :: 0 <= i < |ls| ==> 0 <= ls[i] <= maxLabel
    ensures fresh(vv.v) && vv.Valid() && vv.rc == maxLabel
    ensures vv.v[..] == Volumes(ls, fs, ds, maxLabel, |ls|)
  {
    vv := new VolumeVector(maxLabel);
    assert vv.v[..] == Volumes(ls, fs, ds, vv.rc, 0);
    IntegrateVolumes(vv, labelF, vofF, dVF, ls, fs, ds);
    vv.Finalize();
  }

  /**
   * ELA_OutputWriteV(vof, labels, dV, t_num, folder): the row count is the largest
   * label; entry l - 1 of the written vector is the volume of blob l, the sum of
   * (1 - f) dV over the cells labelled l; cells labelled 0 add to no entry. The
   * file is named by getNameVVFileName, and nothing is written when that name
   * cannot be built.
   */
  method WriteV(vof: array<real>, labels: array<int>, dV: array<real>, dom: Domain, inputPad: seq<int>, tNum: int, folder: string)
    returns (res: Written)
    requires Fields.Valid(WrapField(vof, dom.n, inputPad)) && Fields.Valid(WrapField(labels, dom.n, inputPad))
    requires Fields.Valid(WrapField(dV, dom.n, inputPad))
    requires Count(dom.n) >= 1 && HostLabels(Contents(WrapField(labels, dom.n, inputPad)))
    ensures var ls, fs, ds := Contents(WrapField(labels, dom.n, inputPad)), Contents(WrapField(vof, dom.n, inputPad)),
                              Contents(WrapField(dV, dom.n, inputPad));
      var rc := MaxElement(ls);
      res == if VVFileName(folder, tNum).LengthError? then NameTooLong
             else Written(VVFileName(folder, tNum).path, VolumeVectorFile(rc, Volumes(ls, fs, ds, rc, |ls|)))
    ensures var ls, fs, ds := Contents(WrapField(labels, dom.n, inputPad)), Contents(WrapField(vof, dom.n, inputPad)),
                              Contents(WrapField(dV, dom.n, inputPad));
      res.Written? ==>
        (|res.file| == MaxElement(ls) + 1 && res.file[0] == UInt(MaxElement(ls)) &&
         forall l :: 1 <= l <= MaxElement(ls) ==> res.file[l] == Fp(BlobVolume(ls, fs, ds, l, |ls|)))
  {
    var vofF, dVF, labelF := WrapField(vof, dom.n, inputPad), WrapField(dV, dom.n, inputPad), WrapField(labels, dom.n, inputPad);
    ghost var ls, fs, ds := Contents(labelF), Contents(vofF), Contents(dVF);
    var maxLabel := GetMax(MaxElement(Contents(labelF)));
    var vv := BuildVolumes(labelF, vofF, dVF, maxLabel, ls, fs, ds);
    var name := VVFileName(folder, tNum);
    if name.LengthError? {
      return NameTooLong;
    }
    var out := vv.Write();
    res := Written(name.path, out);
    VolumeVectorMeaning(ls, fs, ds, maxLabel);
  }

  // ---------------------------------------------------------------------------
  // Volume tracking matrix

  /** The rc rows after the loop of ELA_OutputWriteVTM has visited the first m cells. */
  function Rows(ls: seq<int>, ds: seq<real>, ss: seq<SVec>, rc: nat, m: nat): (r: seq<SVec>)
    requires |ds| == |ls| && |ss| == |ls| && m <= |ls|
    ensures |r| == rc
  {
    if m == 0 then seq(rc, _ => [])
    else
      var r := Rows(ls, ds, ss, rc, m - 1);
      var l := ls[m - 1];
      if l != 0 && 1 <= l <= rc then r[l - 1 := AddTo(r[l - 1], ss[m - 1], ds[m - 1])] else r
  }

  /** The rows after the serial finalize: label 0 removed from each. */
  function Finalized(rows: seq<SVec>): (r: seq<SVec>)
    ensures |r| == |rows|
  {
    seq(|rows|, i requires 0 <= i < |rows| => ZeroEntry(rows[i], 0))
  }

  /** q_lc over the first m cells: the sum of s_c dV over the cells labelled l. */
  function Transfer(ls: seq<int>, ds: seq<real>, ss: seq<SVec>, l: int, c: Label, m: nat): real
    requires |ds| == |ls| && |ss| == |ls| && m <= |ls|
  {
    if m == 0 then 0.0
    else Transfer(ls, ds, ss, l, c, m - 1) + (if ls[m - 1] == l then ValueAt(ss[m - 1], c) * ds[m - 1] else 0.0)
  }

  /** Every vector of a field is sorted, as every SVector keeps itself. */
  predicate AllSorted(ss: seq<SVec>)
  {
    forall m :: 0 <= m < |ss| ==> Sorted(ss[m])
  }

  /** Row l - 1 stays sorted and holds, for every column c, the sum of s_c dV over the cells of blob l. */
  lemma {:induction false} RowsMeaning(ls: seq<int>, ds: seq<real>, ss: seq<SVec>, rc: nat, m: nat, l: int, c: Label)
    requires |ds| == |ls| && |ss| == |ls| && m <= |ls| && AllSorted(ss) && 1 <= l <= rc
    ensures Sorted(Rows(ls, ds, ss, rc, m)[l - 1])
    ensures ValueAt(Rows(ls, ds, ss, rc, m)[l - 1], c) == Transfer(ls, ds, ss, l, c, m)
  {
    if m > 0 {
      RowsMeaning(ls, ds, ss, rc, m - 1, l, c);
      var r := Rows(ls, ds, ss, rc, m - 1);
      if ls[m - 1] == l {
        AddToMeaning(r[l - 1], ss[m - 1], ds[m - 1], c);
      }
    }
  }

  /**
   * After finalize, entry (l, c) of the matrix is q_lc for every column c > 0, and
   * column 0 is no longer stored.
   */
  lemma FinalizedMeaning(ls: seq<int>, ds: seq<real>, ss: seq<SVec>, rc: nat, l: int, c: Label)
    requires |ds| == |ls| && |ss| == |ls| && AllSorted(ss) && 1 <= l <= rc
    ensures var row := Finalized(Rows(ls, ds, ss, rc, |ls|))[l - 1];
      Sorted(row) && 0 !in Labels(row) && ValueAt(row, c) == if c == 0 then 0.0 else Transfer(ls, ds, ss, l, c, |ls|)
  {
    var r := Rows(ls, ds, ss, rc, |ls|)[l - 1];
    RowsMeaning(ls, ds, ss, rc, |ls|, l, c);
    ZeroEntryMeaning(r, 0, c);
  }

  /** Every row of the finalized matrix: no column 0, and q_lc in every other column c. */
  lemma MatrixMeaning(ls: seq<int>, ds: seq<real>, ss: seq<SVec>, rc: nat)
    requires |ds| == |ls| && |ss| == |ls| && AllSorted(ss)
    ensures forall i :: 0 <= i < rc ==> 0 !in Labels(Finalized(Rows(ls, ds, ss, rc, |ls|))[i])
    ensures forall i, c :: 0 <= i < rc && c != 0 ==>
      ValueAt(Finalized(Rows(ls, ds, ss, rc, |ls|))[i], c) == Transfer(ls, ds, ss, i + 1, c, |ls|)
  {
    forall i | 0 <= i < rc
      ensures 0 !in Labels(Finalized(Rows(ls, ds, ss, rc, |ls|))[i])
    {
      FinalizedMeaning(ls, ds, ss, rc, i + 1, 0);
    }
    forall i, c | 0 <= i < rc && c != 0
      ensures ValueAt(Finalized(Rows(ls, ds, ss, rc, |ls|))[i], c) == Transfer(ls, ds, ss, i + 1, c, |ls|)
    {
      FinalizedMeaning(ls, ds, ss, rc, i + 1, c);
    }
  }

  /** The loop of ELA_OutputWriteVTM has visited the first m cells. */
  ghost predicate RowsUpTo(vtm: VolumeTrackingMatrix, labelF: Helper<int>, dVF: Helper<real>, sF: Helper<SVec>, m: nat,
                           ls: seq<int>, ds: seq<real>, ss: seq<SVec>)
    reads vtm.row, labelF.data, dVF.data, sF.data
  {
    vtm.Valid() && Fields.Valid(labelF) && Fields.Valid(dVF) && Fields.Valid(sF) &&
    dVF.n == labelF.n && sF.n == labelF.n && vtm.row != sF.data &&
    ls == Contents(labelF) && ds == Contents(dVF) && ss == Contents(sF) && AllSorted(ss) &&
    m <= |ls| && (forall i :: 0 <= i < |ls| ==> 0 <= ls[i] <= vtm.rc) &&
    vtm.row[..] == Rows(ls, ds, ss, vtm.rc, m)
  }

  /** One pass of the loop of ELA_OutputWriteVTM: a labelled cell adds dV s to its label's row. */
  method AddTransfer(vtm: VolumeTrackingMatrix, labelF: Helper<int>, dVF: Helper<real>, sF: Helper<SVec>, m: nat,
                     ghost ls: seq<int>, ghost ds: seq<real>, ghost ss: seq<SVec>)
    requires RowsUpTo(vtm, labelF, dVF, sF, m, ls, ds, ss) && m < |ls|
    modifies vtm.row
    ensures RowsUpTo(vtm, labelF, dVF, sF, m + 1, ls, ds, ss)
  {
    var l, d, s := labelF.data[Offset(labelF, m)], dVF.data[Offset(dVF, m)], sF.data[Offset(sF, m)];
    assert l == ls[m] && d == ds[m] && s == ss[m];
    if l != 0 {
      vtm.AddCell(l, d, s);
    }
    assert vtm.row[..] == Rows(ls, ds, ss, vtm.rc, m + 1);
  }

  /** The loop of ELA_OutputWriteVTM over every cell, on a matrix with no row filled yet. */
  method IntegrateRows(vtm: VolumeTrackingMatrix, labelF: Helper<int>, dVF: Helper<real>, sF: Helper<SVec>,
                       ghost ls: seq<int>, ghost ds: seq<real>, ghost ss: seq<SVec>)
    requires RowsUpTo(vtm, labelF, dVF, sF, 0, ls, ds, ss)
    modifies vtm.row
    ensures RowsUpTo(vtm, labelF, dVF, sF, |ls|, ls, ds, ss)
  {
    var N := Count(labelF.n);
    var m: nat := 0;
    while m < N
      invariant N == |ls| && RowsUpTo(vtm, labelF, dVF, sF, m, ls, ds, ss)
    {
      AddTransfer(vtm, labelF, dVF, sF, m, ls, ds, ss);
      m := m + 1;
    }
    assert m == |ls|;
  }

  /** The matrix ELA_OutputWriteVTM builds: maxLabel empty rows, every cell integrated, then finalize. */
  method BuildMatrix(labelF: Helper<int>, dVF: Helper<real>, sF: Helper<SVec>, maxLabel: nat,
                     ghost ls: seq<int>, ghost ds: seq<real>, ghost ss: seq<SVec>)
    returns (vtm: VolumeTrackingMatrix)
    requires Fields.Valid(labelF) && Fields.Valid(dVF) && Fields.Valid(sF) && dVF.n == labelF.n && sF.n == labelF.n
    requires ls == Contents(labelF) && ds == Contents(dVF) && ss == Contents(sF) && AllSorted(ss)
    requires maxLabel < 0x8000_0000 && forall i :: 0 <= i < |ls| ==> 0 <= ls[i] <= maxLabel
    ensures fresh(vtm.row) && vtm.Valid() && vtm.rc == maxLabel
    ensures vtm.row[..] == Finalized(Rows(ls, ds, ss, maxLabel, |ls|))
  {
    vtm := new VolumeTrackingMatrix(maxLabel);
    assert vtm.row[..] == Rows(ls, ds, ss, vtm.rc, 0);
    IntegrateRows(vtm, labelF, dVF, sF, ls, ds, ss);
    ghost var rows := Rows(ls, ds, ss, maxLabel, |ls|);
    vtm.Finalize();
    assert vtm.row[..] == Finalized(rows);
  }

  /** What ELA_OutputWriteVTM produces: the matrix file and the time log after the append. */
  datatype MatrixWritten = MatrixWritten(name: string, file: seq<BinToken>, logName: string, log: seq<BinToken>)
                         | MatrixNameTooLong

  /**
   * ELA_OutputWriteVTM(labels, dV, num, t_num, time, folder): the row count is the
   * largest label; row l - 1 of the written matrix holds, for every column c > 0,
   * the sum of s_c dV over the cells labelled l, where s is the source field of
   * instance num; cells labelled 0 add to no row. The time log, in append mode,
   * gains the record (t_num, row count, time). When the matrix file name cannot be
   * built, neither file is written.
   */
  method WriteVTM(labels: array<int>, dV: array<real>, dom: Domain, num: int, inputPad: seq<int>, tNum: int, time: real,
                  folder: string, log: seq<BinToken>) returns (res: MatrixWritten)
    requires dom.Valid() && 0 <= num < dom.nn
    requires Fields.Valid(WrapField(labels, dom.n, inputPad)) && Fields.Valid(WrapField(dV, dom.n, inputPad))
    requires Count(dom.n) >= 1 && HostLabels(Contents(WrapField(labels, dom.n, inputPad)))
    requires AllSorted(Contents(dom.s[num])) && 0 <= tNum
    ensures var ls, ds, ss := Contents(WrapField(labels, dom.n, inputPad)), Contents(WrapField(dV, dom.n, inputPad)),
                              Contents(dom.s[num]);
      var rc := MaxElement(ls);
      res == if VTMFileName(folder, tNum).LengthError? then MatrixNameTooLong
             else MatrixWritten(VTMFileName(folder, tNum).path, MatrixFile(Finalized(Rows(ls, ds, ss, rc, |ls|))),
                                VTMLogFileName(folder), log + LogRecord(tNum, rc, time))
    ensures var ls, ds, ss := Contents(WrapField(labels, dom.n, inputPad)), Contents(WrapField(dV, dom.n, inputPad)),
                              Contents(dom.s[num]);
      var rows := Finalized(Rows(ls, ds, ss, MaxElement(ls), |ls|));
      res.MatrixWritten? ==>
        (forall i :: 0 <= i < MaxElement(ls) ==> 0 !in Labels(rows[i])) &&
        (forall i, c :: 0 <= i < MaxElement(ls) && c != 0 ==> ValueAt(rows[i], c) == Transfer(ls, ds, ss, i + 1, c, |ls|))
  {
    var dVF, labelF, sF := WrapField(dV, dom.n, inputPad), WrapField(labels, dom.n, inputPad), dom.s[num];
    ghost var ls, ds, ss := Contents(labelF), Contents(dVF), Contents(sF);
    var maxLabel := GetMax(MaxElement(Contents(labelF)));
    var vtm := BuildMatrix(labelF, dVF, sF, maxLabel, ls, ds, ss);
    var name := VTMFileName(folder, tNum);
    if name.LengthError? {
      return MatrixNameTooLong;
    }
    PaddedFileNameShape(folder, TRACKING_MATRIX_FILENAME, tNum, TRACKING_MATRIX_FILENAME_EXT);
    var out := vtm.Write();
    var log' := vtm.WriteToLog(log, tNum, time);
    res := MatrixWritten(name.path, out, VTMLogFileName(folder), log');
    MatrixMeaning(ls, ds, ss, maxLabel);
  }
}
