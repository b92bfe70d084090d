// Wrapping host arrays as views. The host passes flat arrays laid out like the
// domain, with its own padding `inputPad`; a row wrapper views a one-dimensional
// array of per-cell sizes along a single axis. The global domain size and host
// padding are parameters here.

module GlobalVariables {
  import opened Fields

  /** wrapField(in): the host array seen with the domain's cell counts and the host padding. */
  function WrapField<T>(input: array<T>, domN: seq<int>, inputPad: seq<int>): (r: Helper<T>)
    ensures r.data == input && r.n == domN && r.pad == inputPad
  {
    Helper(input, domN, inputPad)
  }

  /** The position that lies x cells along axis d and at 0 on the other two axes. */
  function AxisCell(d: int, x: int): Cell
  {
    if d == 0 then Cell(x, 0, 0) else if d == 1 then Cell(0, x, 0) else Cell(0, 0, x)
  }

  /**
   * wrapRow(in, d): a view with the domain's count and the host's two paddings
   * on axis d, one cell and no padding on the other two axes.
   */
  function WrapRow<T>(input: array<T>, d: int, domN: seq<int>, inputPad: seq<int>): (r: Helper<T>)
    requires 0 <= d < 3 && |domN| == 3 && |inputPad| == 6
    ensures r.data == input && |r.n| == 3 && |r.pad| == 6
    ensures forall e :: 0 <= e < 3 ==> r.n[e] == (if e == d then domN[d] else 1)
    ensures forall q :: 0 <= q < 6 ==> r.pad[q] == (if q == 2 * d || q == 2 * d + 1 then inputPad[q] else 0)
  {
    var n := [1, 1, 1][d := domN[d]];
    var pad := [0, 0, 0, 0, 0, 0][2 * d := inputPad[2 * d]][2 * d + 1 := inputPad[2 * d + 1]];
    Helper(input, n, pad)
  }

  /**
   * Position x along axis d of a row reads entry x + inputPad[2d] of the host
   * array, for every x from -inputPad[2d] up to n_d + inputPad[2d+1].
   */
  lemma RowReadsInput<T>(input: array<T>, d: int, domN: seq<int>, inputPad: seq<int>, x: int)
    requires 0 <= d < 3 && |domN| == 3 && |inputPad| == 6
    requires -inputPad[2 * d] <= x < domN[d] + inputPad[2 * d + 1]
    ensures InRange(WrapRow(input, d, domN, inputPad), AxisCell(d, x).i, AxisCell(d, x).j, AxisCell(d, x).k)
    ensures GetIndex(WrapRow(input, d, domN, inputPad), AxisCell(d, x).i, AxisCell(d, x).j, AxisCell(d, x).k)
            == x + inputPad[2 * d]
  {
    var r := WrapRow(input, d, domN, inputPad);
    assert r.n[0] == (if d == 0 then domN[0] else 1);
    assert r.n[1] == (if d == 1 then domN[1] else 1);
    assert r.n[2] == (if d == 2 then domN[2] else 1);
    assert forall q :: 0 <= q < 6 ==> r.pad[q] == (if q == 2 * d || q == 2 * d + 1 then inputPad[q] else 0);
    var b1, b2 := Extent(r.n, r.pad, 1), Extent(r.n, r.pad, 2);
    if d == 0 {
      assert b1 == 1 && b2 == 1;
    } else if d == 1 {
      assert b2 == 1;
    }
  }
}
