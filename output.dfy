// The binary output files. Every value the volume-vector, tracking-matrix and
// time-log writers put into a file is an Int_BinType (a 32-bit unsigned) or an
// Fp_BinType (a double); a file is the sequence of those values in the order
// written.

module Outputs {
  /** One value written to an output file. */
  datatype BinToken = UInt(u: int) | Fp(x: real)

  /** static_cast<Int_BinType>(x) of an integer: x taken modulo 2^32. */
  function ToUInt32(x: int): (r: nat)
    ensures r < 0x1_0000_0000
    ensures 0 <= x < 0x1_0000_0000 ==> r == x
  {
    x % 0x1_0000_0000
  }

  /** The doubles of vals, in order. */
  function FpTokens(vals: seq<real>): (r: seq<BinToken>)
    ensures |r| == |vals| && forall i :: 0 <= i < |r| ==> r[i] == Fp(vals[i])
  {
    seq(|vals|, i requires 0 <= i < |vals| => Fp(vals[i]))
  }

  /** The 32-bit unsigned integers of xs, in order. */
  function UIntTokens(xs: seq<int>): (r: seq<BinToken>)
    ensures |r| == |xs| && forall i :: 0 <= i < |r| ==> r[i] == UInt(ToUInt32(xs[i]))
  {
    seq(|xs|, i requires 0 <= i < |xs| => UInt(ToUInt32(xs[i])))
  }

  /** Writing two stretches of doubles one after the other writes their concatenation. */
  lemma FpTokensAppend(a: seq<real>, b: seq<real>)
    ensures FpTokens(a + b) == FpTokens(a) + FpTokens(b)
  {
    assert forall i :: 0 <= i < |a| + |b| ==> (a + b)[i] == if i < |a| then a[i] else b[i - |a|];
  }

  /** Writing two stretches of integers one after the other writes their concatenation. */
  lemma UIntTokensAppend(a: seq<int>, b: seq<int>)
    ensures UIntTokens(a + b) == UIntTokens(a) + UIntTokens(b)
  {
    assert forall i :: 0 <= i < |a| + |b| ==> (a + b)[i] == if i < |a| then a[i] else b[i - |a|];
  }
}
