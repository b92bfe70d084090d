// Seeding the label field. ELA_InitLabels reads the host's integer labels and
// volume fractions, cell by cell in iteration order, and turns every interior
// cell of one instance into the single element {label, vof}, keeping a running
// maximum of the labels; ELA_GetLabel reads back the first label of a cell.
// The host integers are C++ ints: a label is their unsigned 32-bit conversion,
// and a label handed back as an int wraps above INT_MAX.

module Init {
  import opened Elements
  import opened Sparse
  import opened Fields
  import opened Traversal
  import opened Domains
  import opened GlobalVariables

  /** A value of the host's 32-bit int. */
  predicate IsInt32(x: int)
  {
    -0x8000_0000 <= x < 0x8000_0000
  }

  /** static_cast<svec::Label>(x): the int taken modulo 2^32. */
  function ToLabel(x: int): (r: Label)
    ensures 0 <= x < 0x1_0000_0000 ==> r == x
    ensures -0x1_0000_0000 <= x < 0 ==> r == x + 0x1_0000_0000
  {
    x % 0x1_0000_0000
  }

  /** A Label returned as a C++ int: labels above INT_MAX wrap to negative values. */
  function ToInt(l: Label): (r: int)
    ensures IsInt32(r) && ToLabel(r) == l
  {
    if l < 0x8000_0000 then l else l - 0x1_0000_0000
  }

  /** Every host int survives the trip to a label and back. */
  lemma LabelRoundTrip(x: int)
    requires IsInt32(x)
    ensures ToInt(ToLabel(x)) == x
  {
  }

  /** The vector ELA_InitLabels stores in a cell: the one element {label x, vof}. */
  function SeedCell(x: int, vof: real): (r: SVec)
  {
    [Element(ToLabel(x), vof)]
  }

  /** A seeded cell is a sorted vector holding vof under the converted label and nothing else. */
  lemma SeedCellMeaning(x: int, vof: real, l: Label)
    ensures Sorted(SeedCell(x, vof)) && Labels(SeedCell(x, vof)) == {ToLabel(x)}
    ensures ValueAt(SeedCell(x, vof), l) == if l == ToLabel(x) then vof else 0.0
    ensures Sum(SeedCell(x, vof)) == vof
  {
    var s := SeedCell(x, vof);
    assert s[1..] == [];
    assert s[0].l in Labels(s);
    assert forall e :: e in Labels(s) ==> e == s[0].l;
  }

  /** The seeded cells, cell m from the m-th label and the m-th volume fraction. */
  function SeedCells(ls: seq<int>, vs: seq<real>): (r: seq<SVec>)
    requires |ls| == |vs|
    ensures |r| == |ls| && forall m :: 0 <= m < |r| ==> r[m] == SeedCell(ls[m], vs[m])
  {
    seq(|ls|, m requires 0 <= m < |ls| => SeedCell(ls[m], vs[m]))
  }

  /** The running maximum of ELA_InitLabels: from 0, replaced by each label that compares greater as unsigned. */
  function MaxLabel(ls: seq<int>): Label
  {
    if ls == [] then 0
    else
      var m := MaxLabel(ls[..|ls| - 1]);
      if ToLabel(ls[|ls| - 1]) > m then ToLabel(ls[|ls| - 1]) else m
  }

  /** The running maximum bounds every label and is one of them, or 0 when there is none above 0. */
  lemma {:induction false} MaxLabelIsMaximum(ls: seq<int>)
    ensures forall i :: 0 <= i < |ls| ==> ToLabel(ls[i]) <= MaxLabel(ls)
    ensures MaxLabel(ls) == 0 || exists i :: 0 <= i < |ls| && MaxLabel(ls) == ToLabel(ls[i])
  {
    if ls != [] {
      var init := ls[..|ls| - 1];
      MaxLabelIsMaximum(init);
      assert forall i :: 0 <= i < |init| ==> init[i] == ls[i];
      if MaxLabel(init) != 0 && MaxLabel(ls) == MaxLabel(init) {
        var i :| 0 <= i < |init| && MaxLabel(init) == ToLabel(init[i]);
        assert MaxLabel(ls) == ToLabel(ls[i]);
      }
    }
  }

  /** The label view ELA_InitLabels wraps around the host's ints. */
  function LabelField(labels: array<int>, n: seq<int>, inputPad: seq<int>): Helper<int>
  {
    WrapField(labels, n, inputPad)
  }

  /** The volume-fraction view ELA_InitLabels wraps around the host's doubles. */
  function VofField(vof: array<real>, n: seq<int>, inputPad: seq<int>): Helper<real>
  {
    WrapField(vof, n, inputPad)
  }

  /** One step of the running maximum. */
  lemma MaxLabelStep(ls: seq<int>, m: nat)
    requires m < |ls|
    ensures MaxLabel(ls[..m + 1]) == if ToLabel(ls[m]) > MaxLabel(ls[..m]) then ToLabel(ls[m]) else MaxLabel(ls[..m])
  {
    assert ls[..m + 1][..m] == ls[..m];
  }

  /** The loop of ELA_InitLabels has seeded the first m cells and taken their labels into the running maximum. */
  ghost predicate SeededUpTo(sF: Helper<SVec>, labelF: Helper<int>, vofF: Helper<real>, maxLabel: array<Label>, num: int,
                             m: nat, a0: seq<SVec>, m0: seq<Label>, ls: seq<int>, vs: seq<real>)
    reads sF.data, labelF.data, vofF.data, maxLabel
  {
    Fields.Valid(sF) && Fields.Valid(labelF) && Fields.Valid(vofF) && labelF.n == sF.n && vofF.n == sF.n &&
    ls == Contents(labelF) && vs == Contents(vofF) && |a0| == sF.data.Length &&
    m <= |ls| && 0 <= num < maxLabel.Length && |m0| == maxLabel.Length &&
    maxLabel[..] == m0[num := MaxLabel(ls[..m])] &&
    sF.data[..] == Overwrite(a0, sF, SeedCells(ls, vs)[..m])
  }

  /** One pass of the loop of ELA_InitLabels: cell m is seeded and the running maximum takes label m into account. */
  method SeedStep(sF: Helper<SVec>, labelF: Helper<int>, vofF: Helper<real>, maxLabel: array<Label>, num: int, m: nat,
                  ghost a0: seq<SVec>, ghost m0: seq<Label>, ghost ls: seq<int>, ghost vs: seq<real>)
    requires SeededUpTo(sF, labelF, vofF, maxLabel, num, m, a0, m0, ls, vs) && m < |ls|
    modifies sF.data, maxLabel
    ensures SeededUpTo(sF, labelF, vofF, maxLabel, num, m + 1, a0, m0, ls, vs)
  {
    var l, v := labelF.data[Offset(labelF, m)], vofF.data[Offset(vofF, m)];
    assert l == ls[m] && v == vs[m];
    MaxLabelStep(ls, m);
    if ToLabel(l) > maxLabel[num] {
      maxLabel[num] := ToLabel(l);
    }
    assert maxLabel[..] == m0[num := MaxLabel(ls[..m + 1])];
    OverwriteStep(a0, sF, SeedCells(ls, vs), m);
    sF.data[Offset(sF, m)] := SeedCell(l, v);
    assert sF.data[..] == Overwrite(a0, sF, SeedCells(ls, vs)[..m + 1]);
  }

  /** The loop of ELA_InitLabels over every cell. */
  method SeedAll(sF: Helper<SVec>, labelF: Helper<int>, vofF: Helper<real>, maxLabel: array<Label>, num: int,
                 ghost a0: seq<SVec>, ghost m0: seq<Label>, ghost ls: seq<int>, ghost vs: seq<real>)
    requires SeededUpTo(sF, labelF, vofF, maxLabel, num, 0, a0, m0, ls, vs)
    modifies sF.data, maxLabel
    ensures SeededUpTo(sF, labelF, vofF, maxLabel, num, |ls|, a0, m0, ls, vs)
  {
    var N := Count(sF.n);
    var m: nat := 0;
    while m < N
      invariant N == |ls| && SeededUpTo(sF, labelF, vofF, maxLabel, num, m, a0, m0, ls, vs)
    {
      SeedStep(sF, labelF, vofF, maxLabel, num, m, a0, m0, ls, vs);
      m := m + 1;
    }
    assert m == |ls|;
  }

  /**
   * ELA_InitLabels(vof, num, labels): every interior cell of instance num is seeded
   * from the label and the volume fraction at the same iteration position, and
   * maxLabel[num] becomes the running maximum passed through getMax. Ghost cells,
   * other instances and the other entries of maxLabel are left alone.
   */
  method InitLabels(dom: Domain, vof: array<real>, num: int, labels: array<int>, inputPad: seq<int>, maxLabel: array<Label>)
    requires dom.Valid() && 0 <= num < dom.nn && maxLabel.Length == dom.nn
    requires Fields.Valid(LabelField(labels, dom.n, inputPad)) && Fields.Valid(VofField(vof, dom.n, inputPad))
    modifies dom.s[num].data, maxLabel
    ensures dom.s[num].data[..] == Overwrite(old(dom.s[num].data[..]), dom.s[num],
      SeedCells(Contents(LabelField(labels, dom.n, inputPad)), Contents(VofField(vof, dom.n, inputPad))))
    ensures maxLabel[..] == old(maxLabel[..])[num := GetMax(MaxLabel(Contents(LabelField(labels, dom.n, inputPad))))]
  {
    var sF := dom.s[num];
    var labelF, vofF := LabelField(labels, dom.n, inputPad), VofField(vof, dom.n, inputPad);
    ghost var a0, ls, vs := sF.data[..], Contents(labelF), Contents(vofF);
    ghost var m0 := maxLabel[..];
    maxLabel[num] := 0;
    assert SeedCells(ls, vs)[..0] == [] && ls[..0] == [];
    SeedAll(sF, labelF, vofF, maxLabel, num, a0, m0, ls, vs);
    assert SeedCells(ls, vs)[..|ls|] == SeedCells(ls, vs) && ls[..|ls|] == ls;
    maxLabel[num] := GetMax(maxLabel[num]);
  }

  /**
   * ELA_Init(N, pad, numELA): the host padding is kept as inputPad, a domain of
   * N[0] x N[1] x N[2] cells with numELA instances is created with every cell
   * empty, and maxLabel gets one entry per instance.
   */
  method Initialize(N: seq<int>, pad: seq<int>, numELA: int) returns (dom: Domain, inputPad: seq<int>, maxLabel: array<Label>)
    requires |N| == 3 && N[0] >= 0 && N[1] >= 0 && N[2] >= 0 && numELA >= 0 && |pad| >= 6
    ensures fresh(dom) && fresh(maxLabel)
    ensures dom.Valid() && dom.n == N && dom.nn == numELA
    ensures forall p, q :: 0 <= p < dom.nn && 0 <= q < dom.s[p].data.Length ==> dom.s[p].data[q] == []
    ensures inputPad == pad[..6]
    ensures maxLabel.Length == numELA
  {
    inputPad := pad[..6];
    dom := new Domain(N[0], N[1], N[2], numELA);
    maxLabel := new Label[numELA];
  }

  /** The label ELA_GetLabel reports for a cell: 0 when it is empty, else its first label as an int. */
  function FirstLabel(s: SVec): (r: int)
    ensures IsInt32(r)
    ensures s == [] ==> r == 0
    ensures s != [] && Sorted(s) ==> ToLabel(r) in Labels(s) && forall l :: l in Labels(s) ==> ToLabel(r) <= l
  {
    if s == [] then 0 else ToInt(s[0].l)
  }

  /** ELA_GetLabel(i, j, k, n): the first label of the cell at (i, j, k) of instance n. */
  function GetLabel(dom: Domain, i: int, j: int, k: int, n: int): (r: int)
    reads dom.SArrays()
    requires dom.Valid() && 0 <= n < dom.nn && InRange(dom.s[n], i, j, k)
    ensures At(dom.s[n], i, j, k) == [] ==> r == 0
    ensures At(dom.s[n], i, j, k) != [] ==> ToLabel(r) == At(dom.s[n], i, j, k)[0].l
  {
    assert dom.s[n].data in dom.SArrays();
    FirstLabel(At(dom.s[n], i, j, k))
  }
}
