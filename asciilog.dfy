// The ASCII tracking log: running aggregates over the cells of one instance,
// namely the largest label, the largest and smallest stored value, the largest
// number of stored elements, and the volumes carried by the source vectors and by
// the volume fractions.

module AsciiLogs {
  import opened Elements
  import opened Sparse

  /** The six aggregates of an ASCIILog. */
  datatype Totals = Totals(maxLabel: Label, maxValue: real, minValue: real, maxNNZ: nat, volELA: real, volVOF: real)

  /** What the constructor sets: zero, except minValue, which starts at the largest finite double. */
  const INITIAL: Totals := Totals(0, 0.0, DOUBLE_MAX, 0, 0.0, 0.0)

  /** A quantity weighted by a cell volume. */
  function Weighted(dV: real, x: real): real
  {
    dV * x
  }

  /** addCell(s, dV, f) on the aggregates t. */
  function AddCellTo(t: Totals, s: SVec, dV: real, f: real): (r: Totals)
    ensures r.maxLabel >= t.maxLabel && r.maxValue >= t.maxValue && r.minValue <= t.minValue && r.maxNNZ >= t.maxNNZ
    ensures r.maxLabel >= MaxLabel(s) && r.maxValue >= MaxValue(s) && r.minValue <= MinValue(s) && r.maxNNZ >= |s|
    ensures r.maxLabel in {t.maxLabel, MaxLabel(s)} && r.maxNNZ in {t.maxNNZ, |s|}
  {
    Totals(if t.maxLabel >= MaxLabel(s) then t.maxLabel else MaxLabel(s),
           Max(t.maxValue, MaxValue(s)), Min(t.minValue, MinValue(s)),
           if t.maxNNZ >= |s| then t.maxNNZ else |s|,
           t.volELA + Weighted(dV, Sum(s)), t.volVOF + Weighted(dV, f))
  }

  /** The aggregates after addCell on every cell in turn, from the constructor's values. */
  function Accumulate(ss: seq<SVec>, dVs: seq<real>, fs: seq<real>): Totals
    requires |ss| == |dVs| == |fs|
  {
    if ss == [] then INITIAL
    else
      var k := |ss| - 1;
      AddCellTo(Accumulate(ss[..k], dVs[..k], fs[..k]), ss[k], dVs[k], fs[k])
  }

  /** The total of the weighted sums of all cells, dV * sum(s) for each. */
  function ElaVolume(ss: seq<SVec>, dVs: seq<real>): real
    requires |ss| == |dVs|
  {
    if ss == [] then 0.0 else ElaVolume(ss[..|ss| - 1], dVs[..|ss| - 1]) + Weighted(dVs[|ss| - 1], Sum(ss[|ss| - 1]))
  }

  /** The total of the weighted volume fractions of all cells, dV * f for each. */
  function VofVolume(dVs: seq<real>, fs: seq<real>): real
    requires |dVs| == |fs|
  {
    if fs == [] then 0.0 else VofVolume(dVs[..|fs| - 1], fs[..|fs| - 1]) + Weighted(dVs[|fs| - 1], fs[|fs| - 1])
  }

  /**
   * After every cell: maxLabel, maxValue and maxNNZ bound the corresponding quantity of
   * every cell and minValue is below every cell's smallest value; maxLabel and maxNNZ
   * are 0 or attained by some cell; the two volumes are the sums over all cells.
   */
  lemma {:induction false} AccumulateMeaning(ss: seq<SVec>, dVs: seq<real>, fs: seq<real>)
    requires |ss| == |dVs| == |fs|
    ensures var t := Accumulate(ss, dVs, fs);
      forall i :: 0 <= i < |ss| ==>
        MaxLabel(ss[i]) <= t.maxLabel && MaxValue(ss[i]) <= t.maxValue && t.minValue <= MinValue(ss[i]) && |ss[i]| <= t.maxNNZ
    ensures var t := Accumulate(ss, dVs, fs);
      (t.maxLabel == 0 || exists i :: 0 <= i < |ss| && t.maxLabel == MaxLabel(ss[i])) &&
      (t.maxNNZ == 0 || exists i :: 0 <= i < |ss| && t.maxNNZ == |ss[i]|)
    ensures Accumulate(ss, dVs, fs).volELA == ElaVolume(ss, dVs) && Accumulate(ss, dVs, fs).volVOF == VofVolume(dVs, fs)
  {
    if ss != [] {
      var k := |ss| - 1;
      var ss', dVs', fs' := ss[..k], dVs[..k], fs[..k];
      AccumulateMeaning(ss', dVs', fs');
      var t', t := Accumulate(ss', dVs', fs'), Accumulate(ss, dVs, fs);
      assert forall i :: 0 <= i < k ==> ss'[i] == ss[i];
      if t.maxLabel != 0 && t.maxLabel == t'.maxLabel {
        var i :| 0 <= i < k && t'.maxLabel == MaxLabel(ss'[i]);
        assert t.maxLabel == MaxLabel(ss[i]);
      }
      if t.maxNNZ != 0 && t.maxNNZ == t'.maxNNZ {
        var i :| 0 <= i < k && t'.maxNNZ == |ss'[i]|;
        assert t.maxNNZ == |ss[i]|;
      }
    }
  }

  /** ASCIILog: the aggregates, updated in place by addCell. */
  class ASCIILog {
    var maxLabel: Label
    var maxValue: real
    var minValue: real
    var maxNNZ: nat
    var volELA: real
    var volVOF: real

    /** The six fields together. */
    function State(): Totals
      reads this
    {
      Totals(maxLabel, maxValue, minValue, maxNNZ, volELA, volVOF)
    }

    /** ASCIILog(): every aggregate zero except minValue, the largest finite double. */
    constructor()
      ensures State() == INITIAL
    {
      maxLabel, maxValue, minValue, maxNNZ := 0, 0.0, DOUBLE_MAX, 0;
      volELA, volVOF := 0.0, 0.0;
    }

    /** addCell(s, dV, f): each aggregate takes in one more cell; the maxima never decrease and minValue never increases. */
    method AddCell(s: SVec, dV: real, f: real)
      modifies this
      ensures State() == AddCellTo(old(State()), s, dV, f)
      ensures maxLabel >= old(maxLabel) && maxValue >= old(maxValue) && minValue <= old(minValue) && maxNNZ >= old(maxNNZ)
    {
      maxLabel := if maxLabel >= MaxLabel(s) then maxLabel else MaxLabel(s);
      maxValue := Max(maxValue, MaxValue(s));
      minValue := Min(minValue, MinValue(s));
      volELA := volELA + Weighted(dV, Sum(s));
      volVOF := volVOF + Weighted(dV, f);
      maxNNZ := if maxNNZ >= |s| then maxNNZ else |s|;
    }
  }
}
