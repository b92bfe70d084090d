// The volume vector: one running volume per label 1..rc, accumulated cell by
// cell and written as the row count followed by the rc volumes in label order.

module VolumeVectors {
  import opened Outputs

  datatype Option<T> = None | Some(value: T)

  /** The file VolumeVector::write produces for row count rc and volumes vals. */
  function VolumeVectorFile(rc: nat, vals: seq<real>): (r: seq<BinToken>)
    ensures |r| == |vals| + 1 && r[0] == UInt(ToUInt32(rc))
    ensures forall l :: 1 <= l <= |vals| ==> r[l] == Fp(vals[l - 1])
  {
    [UInt(ToUInt32(rc))] + FpTokens(vals)
  }

  /** A volume vector file read back: the row count and the volumes, if the file has that shape. */
  function ReadVolumeVectorFile(file: seq<BinToken>): (r: Option<(nat, seq<real>)>)
  {
    if file == [] || !file[0].UInt? || file[0].u < 0 || |file| != file[0].u + 1 then None
    else if forall i :: 1 <= i < |file| ==> file[i].Fp? then Some((file[0].u, seq(|file| - 1, i requires 0 <= i < |file| - 1 => file[i + 1].x)))
    else None
  }

  /** Reading a written volume vector gives back its row count and volumes. */
  lemma VolumeVectorFileRoundTrip(rc: nat, vals: seq<real>)
    requires |vals| == rc && rc < 0x1_0000_0000
    ensures ReadVolumeVectorFile(VolumeVectorFile(rc, vals)) == Some((rc, vals))
  {
    var file := VolumeVectorFile(rc, vals);
    var back := seq(|file| - 1, i requires 0 <= i < |file| - 1 => file[i + 1].x);
    assert back == vals;
  }

  /** VolumeVector: rc volumes, entry l - 1 for label l. */
  class VolumeVector {
    const rc: nat
    const v: array<real>

    predicate Valid()
    {
      v.Length == rc
    }

    /** VolumeVector(rowCount): rc is rowCount as an Int_BinType, and every volume starts at zero. */
    constructor(rowCount: int)
      ensures Valid() && rc == ToUInt32(rowCount) && fresh(v)
      ensures forall i :: 0 <= i < rc ==> v[i] == 0.0
    {
      rc := ToUInt32(rowCount);
      v := new real[ToUInt32(rowCount)](_ => 0.0);
    }

    /** addCell(label, volume): the volume of label l is increased by volume; the source asserts 1 <= l <= rc. */
    method AddCell(l: int, volume: real)
      requires Valid() && 1 <= l <= rc
      modifies v
      ensures v[..] == old(v[..])[l - 1 := old(v[l - 1]) + volume]
    {
      v[l - 1] := v[l - 1] + volume;
    }

    /** finalize(): without MPI there is nothing to combine, and every volume stays as it is. */
    method Finalize()
      requires Valid()
      ensures v[..] == old(v[..])
    {
    }

    /** write(filename): the row count, then the rc volumes in label order. */
    method Write() returns (out: seq<BinToken>)
      requires Valid()
      ensures out == VolumeVectorFile(rc, v[..])
      ensures |out| == rc + 1 && forall l :: 1 <= l <= rc ==> out[l] == Fp(v[l - 1])
    {
      var ROW_COUNT := ToUInt32(rc);
      out := [UInt(ROW_COUNT)];
      out := out + FpTokens(v[..]);
    }
  }
}
