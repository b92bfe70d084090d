// The SVector container: a sorted vector of elements updated in place, and the
// free operations that build a fresh vector in a loop. Every method is proved
// against the value-level specification in module Sparse.

module SVectors {
  import opened Elements
  import opened Sparse

  /** Result of scanning a terminated buffer: the run length, and whether its labels ascend. */
  datatype Run = Run(len: nat, ordered: bool)

  /**
   * The elements starting at buff[start] up to the first terminator. The source
   * walks a raw pointer and asserts at every step that the label just reached is
   * larger than the one before; `ordered` is false exactly when one of those
   * assertions fails (the terminator itself never fails it).
   */
  method ScanRun(buff: array<Element>, start: nat) returns (r: Run)
    requires start <= buff.Length
    requires exists i :: start <= i < buff.Length && IsEnd(buff[i])
    ensures start + r.len < buff.Length && IsEnd(buff[start + r.len])
    ensures forall i :: start <= i < start + r.len ==> !IsEnd(buff[i])
    ensures buff[start..start + r.len] == TakeRun(buff[start..])
    ensures r.ordered <==> Sorted(buff[start..start + r.len])
  {
    ghost var b := buff[..];
    var i := start;
    var ordered := true;
    assert b[start..start + 1] == [b[start]];
    while !IsEnd(buff[i])
      invariant Scanning(b, start, i, ordered)
      decreases buff.Length - i
    {
      ScanStep(b, start, i, ordered);
      ordered := ordered && buff[i + 1].l > buff[i].l;
      i := i + 1;
    }
    ScanDone(b, start, i, ordered);
    r := Run(i - start, ordered);
  }

  /** The scan loop: buff[start..i] holds no terminator, one lies at or after i, and `ordered` records sortedness so far. */
  ghost predicate Scanning(b: seq<Element>, start: nat, i: nat, ordered: bool)
  {
    start <= i < |b|
    && (forall k :: start <= k < i ==> !IsEnd(b[k]))
    && (exists k :: i <= k < |b| && IsEnd(b[k]))
    && (ordered <==> Sorted(b[start..i + 1]))
  }

  /** One step of the scan: past a non-terminator there is another element, and sortedness extends by one comparison. */
  lemma ScanStep(b: seq<Element>, start: nat, i: nat, ordered: bool)
    requires Scanning(b, start, i, ordered) && !IsEnd(b[i])
    ensures i + 1 < |b| && Scanning(b, start, i + 1, ordered && b[i + 1].l > b[i].l)
  {
    var k :| i <= k < |b| && IsEnd(b[k]);
    assert k != i;
    assert b[start..i + 2] == b[start..i + 1] + [b[i + 1]];
    SortedSnocLast(b[start..i + 1], b[i + 1]);
  }

  /** End of the scan: the run is b[start..i], and dropping the terminator does not change sortedness. */
  lemma ScanDone(b: seq<Element>, start: nat, i: nat, ordered: bool)
    requires Scanning(b, start, i, ordered) && IsEnd(b[i])
    ensures b[start..i] == TakeRun(b[start..])
    ensures ordered <==> Sorted(b[start..i])
  {
    if start < i {
      assert b[start..i + 1] == b[start..i] + [b[i]];
      SortedSnocLast(b[start..i], b[i]);
      assert !IsEnd(b[i - 1]);
    }
    TakeRunUpTo(b, start, i);
  }

  /** The run of a buffer starting at `start` ends at the first terminator. */
  lemma {:induction false} TakeRunUpTo(b: seq<Element>, start: nat, e: nat)
    requires start <= e < |b| && IsEnd(b[e])
    requires forall k :: start <= k < e ==> !IsEnd(b[k])
    ensures b[start..e] == TakeRun(b[start..])
    decreases e - start
  {
    if start < e {
      TakeRunUpTo(b, start + 1, e);
      assert b[start..][1..] == b[start + 1..];
      assert b[start..e] == [b[start]] + b[start + 1..e];
    }
  }

  /** The merge loop of add: v[..iR] is done, and the rest of the merge of a[iL..] into v[iR..] completes the target. */
  ghost predicate Merging(v: SVec, a: SVec, C: real, iL: int, iR: int, target: SVec)
  {
    0 <= iL <= |a| && 0 <= iR <= |v| && v[..iR] + MergeFma(a[iL..], C, v[iR..]) == target
  }

  /** Equal labels: the stored element becomes fma(a[iL], C, v[iR]) and both cursors move on. */
  lemma MergeEqualStep(v: SVec, a: SVec, C: real, iL: int, iR: int, target: SVec)
    requires Merging(v, a, C, iL, iR, target) && iL < |a| && iR < |v| && a[iL].l == v[iR].l
    ensures Merging(v[iR := Elements.Fma(a[iL], C, v[iR])], a, C, iL + 1, iR + 1, target)
  {
    var done, tailL, tailR := v[..iR], a[iL..], v[iR..];
    var e := Elements.Fma(a[iL], C, v[iR]);
    var v' := v[iR := e];
    assert tailL[1..] == a[iL + 1..] && tailR[1..] == v[iR + 1..];
    MergeFmaEqual(tailL, C, tailR);
    ShiftHead(done, e, MergeFma(tailL, C, tailR), MergeFma(tailL[1..], C, tailR[1..]));
    assert v'[..iR + 1] == done + [e];
    assert v'[iR + 1..] == tailR[1..];
  }

  /** a[iL] comes first: C * a[iL] is inserted before v[iR] and the left cursor moves on. */
  lemma MergeLessStep(v: SVec, a: SVec, C: real, iL: int, iR: int, target: SVec)
    requires Merging(v, a, C, iL, iR, target) && iL < |a| && iR < |v| && a[iL].l < v[iR].l
    ensures Merging(v[..iR] + [Elements.Times(a[iL], C)] + v[iR..], a, C, iL + 1, iR + 1, target)
  {
    var done, tailL, tailR := v[..iR], a[iL..], v[iR..];
    var e := Elements.Times(a[iL], C);
    var v' := v[..iR] + [e] + v[iR..];
    assert tailL[1..] == a[iL + 1..];
    MergeFmaLess(tailL, C, tailR);
    ShiftHead(done, e, MergeFma(tailL, C, tailR), MergeFma(tailL[1..], C, tailR));
    assert v'[..iR + 1] == done + [e];
    assert v'[iR + 1..] == tailR;
  }

  /** v[iR] comes first: it stays where it is and the right cursor moves on. */
  lemma MergeGreaterStep(v: SVec, a: SVec, C: real, iL: int, iR: int, target: SVec)
    requires Merging(v, a, C, iL, iR, target) && iL < |a| && iR < |v| && a[iL].l > v[iR].l
    ensures Merging(v, a, C, iL, iR + 1, target)
  {
    var done, tailL, tailR := v[..iR], a[iL..], v[iR..];
    assert tailR[1..] == v[iR + 1..];
    MergeFmaGreater(tailL, C, tailR);
    ShiftHead(done, v[iR], MergeFma(tailL, C, tailR), MergeFma(tailL, C, tailR[1..]));
    assert v[..iR + 1] == done + [v[iR]];
  }

  /** A sparse vector whose stored elements change in place. */
  class SVector {
    var vec: SVec

    /** SVector(): no stored elements. */
    constructor()
      ensures vec == []
    {
      vec := [];
    }

    /** SVector(elm): exactly the one element. */
    constructor Single(e: Element)
      ensures vec == [e]
    {
      vec := [e];
    }

    /**
     * SVector(buff): copy the elements before the first terminator. The source
     * asserts that those labels ascend strictly.
     */
    constructor FromBuffer(buff: array<Element>, start: nat)
      requires start <= buff.Length
      requires exists i :: start <= i < buff.Length && IsEnd(buff[i])
      requires Sorted(TakeRun(buff[start..]))
      ensures vec == TakeRun(buff[start..])
      ensures Sorted(vec) && start + |vec| < buff.Length && IsEnd(buff[start + |vec|])
    {
      var r := ScanRun(buff, start);
      vec := buff[start..start + r.len];
    }

    /** NNZ(): the number of stored elements, which for a sorted vector is the number of distinct labels. */
    function NNZ(): (r: nat)
      reads this
      ensures Sorted(vec) ==> r == |Labels(vec)|
    {
      SortedLabelsCount(vec);
      |vec|
    }

    /** isEmpty(): no stored element, that is, no label carries an entry. */
    predicate IsEmpty()
      reads this
      ensures IsEmpty() <==> Labels(vec) == {}
    {
      assert vec != [] ==> vec[0].l in Labels(vec);
      NNZ() == 0
    }

    /** clear(): s <- 0. */
    method Clear()
      modifies this
      ensures vec == [] && IsEmpty()
    {
      vec := [];
    }

    /** add(a, C): s <- s + C * a, merging a into the stored elements in place. */
    method Add(a: SVec, C: real)
      modifies this
      ensures vec == AddTo(old(vec), a, C)
    {
      if C == 0.0 || a == [] {
        return;
      }
      ghost var target := MergeFma(a, C, vec);
      var iL, iR := 0, 0;
      assert vec[..0] == [] && a[0..] == a && vec[0..] == vec;
      while iL < |a| && iR < |vec|
        invariant Merging(vec, a, C, iL, iR, target)
        decreases (|a| - iL) + (|vec| - iR)
      {
        var elmL := a[iL];
        var elmR := vec[iR];
        if elmL.l == elmR.l {
          MergeEqualStep(vec, a, C, iL, iR, target);
          vec := vec[iR := Elements.Fma(elmL, C, elmR)];
          iL := iL + 1;
        } else if elmL.l < elmR.l {
          MergeLessStep(vec, a, C, iL, iR, target);
          vec := vec[..iR] + [Elements.Times(elmL, C)] + vec[iR..];
          iL := iL + 1;
        } else {
          MergeGreaterStep(vec, a, C, iL, iR, target);
        }
        iR := iR + 1;
      }
      if iL < |a| {
        assert vec[iR..] == [] && vec[..iR] == vec;
        while iL < |a|
          invariant 0 <= iL <= |a|
          invariant vec + Scale(a[iL..], C) == target
        {
          ScaleCons(a[iL..], C);
          assert a[iL..][1..] == a[iL + 1..];
          ShiftHead(vec, Elements.Times(a[iL], C), Scale(a[iL..], C), Scale(a[iL + 1..], C));
          vec := vec + [Elements.Times(a[iL], C)];
          iL := iL + 1;
        }
        assert vec + [] == vec;
      } else {
        assert a[iL..] == [] && vec[..iR] + vec[iR..] == vec;
      }
    }

    /** add(ns, C) for a normalized vector: add its base with the factor folded into C. */
    method AddNormalized(n: NormalizedSVector, C: real)
      modifies this
      ensures vec == Sparse.AddNormalized(old(vec), n, C)
    {
      Add(n.base, Coefficient(n, C));
    }

    /**
     * normalize(total): nothing for an empty vector; emptied when total or the sum
     * is zero; otherwise every value multiplied by total / sum in place.
     */
    method Normalize(total: real)
      modifies this
      ensures vec == Sparse.Normalize(old(vec), total)
    {
      if vec == [] {
        return;
      }
      var s := Sum(vec);
      if total == 0.0 || s == 0.0 {
        Clear();
        return;
      }
      var factor := total / s;
      ghost var v0 := vec;
      var i := 0;
      while i < |vec|
        invariant 0 <= i <= |vec| == |v0|
        invariant forall k :: 0 <= k < i ==> vec[k] == Elements.Times(v0[k], factor)
        invariant forall k :: i <= k < |vec| ==> vec[k] == v0[k]
      {
        vec := vec[i := TimesAssign(vec[i], factor)];
        i := i + 1;
      }
    }

    /** chop(ref): remove every element whose value is at most EPSILON * ref, keeping the order of the rest. */
    method Chop(ref: real)
      modifies this
      ensures vec == Sparse.Chop(old(vec), ref)
    {
      var minV := EPSILON * ref;
      ghost var v0 := vec;
      var w, i := 0, 0;
      while i < |vec|
        invariant 0 <= w <= i <= |vec| == |v0|
        invariant vec[..w] == Sparse.Chop(v0[..i], ref)
        invariant vec[i..] == v0[i..]
      {
        assert v0[..i + 1][..i] == v0[..i];
        assert vec[i] == v0[i];
        if !(vec[i].v <= minV) {
          vec := vec[w := vec[i]];
          assert vec[..w + 1] == Sparse.Chop(v0[..i], ref) + [v0[i]];
          w := w + 1;
        }
        i := i + 1;
      }
      assert v0[..i] == v0;
      vec := vec[..w];
    }

    /** zeroEntry(l): erase the element labelled l if it is stored before any larger label. */
    method ZeroEntry(l: Label)
      modifies this
      ensures vec == Sparse.ZeroEntry(old(vec), l)
    {
      ghost var v0 := vec;
      var i := 0;
      while i < |vec|
        invariant 0 <= i <= |vec| && vec == v0
        invariant Sparse.ZeroEntry(v0, l) == v0[..i] + Sparse.ZeroEntry(v0[i..], l)
      {
        assert v0[i..][1..] == v0[i + 1..];
        if vec[i].l == l {
          vec := vec[..i] + vec[i + 1..];
          return;
        } else if vec[i].l > l {
          assert v0 == v0[..i] + v0[i..];
          return;
        }
        assert v0[..i + 1] == v0[..i] + [v0[i]];
        i := i + 1;
      }
      assert v0 == v0[..i];
    }
  }

  /** A sorted vector stores as many elements as it has distinct labels. */
  lemma {:induction false} SortedLabelsCount(s: SVec)
    ensures Sorted(s) ==> |s| == |Labels(s)|
  {
    if s != [] && Sorted(s) {
      LabelsCons(s);
      SortedCons(s);
      SortedLabelsCount(s[1..]);
      assert s[0].l !in Labels(s[1..]);
    }
  }

  /** Moving the head of the pending part onto the done part keeps their concatenation. */
  lemma ShiftHead(done: SVec, x: Element, pending: SVec, rest: SVec)
    requires pending == [x] + rest
    ensures (done + [x]) + rest == done + pending
  {
  }

  /** fma(lhs, C, rhs): a fresh vector C * lhs + rhs built by a merge loop; the operands are read only. */
  method Fma(lhs: SVec, C: real, rhs: SVec) returns (out: SVec)
    ensures out == MergeFma(lhs, C, rhs)
  {
    out := [];
    var iL, iR := 0, 0;
    while iL < |lhs| && iR < |rhs|
      invariant 0 <= iL <= |lhs| && 0 <= iR <= |rhs|
      invariant out + MergeFma(lhs[iL..], C, rhs[iR..]) == MergeFma(lhs, C, rhs)
      decreases (|lhs| - iL) + (|rhs| - iR)
    {
      ghost var tailL, tailR := lhs[iL..], rhs[iR..];
      assert tailL[1..] == lhs[iL + 1..] && tailR[1..] == rhs[iR + 1..];
      if lhs[iL].l < rhs[iR].l {
        MergeFmaLess(tailL, C, tailR);
        ShiftHead(out, Elements.Times(lhs[iL], C), MergeFma(tailL, C, tailR), MergeFma(tailL[1..], C, tailR));
        out := out + [Elements.Times(lhs[iL], C)];
        iL := iL + 1;
      } else if lhs[iL].l > rhs[iR].l {
        MergeFmaGreater(tailL, C, tailR);
        ShiftHead(out, rhs[iR], MergeFma(tailL, C, tailR), MergeFma(tailL, C, tailR[1..]));
        out := out + [rhs[iR]];
        iR := iR + 1;
      } else {
        MergeFmaEqual(tailL, C, tailR);
        ShiftHead(out, Elements.Fma(lhs[iL], C, rhs[iR]), MergeFma(tailL, C, tailR), MergeFma(tailL[1..], C, tailR[1..]));
        out := out + [Elements.Fma(lhs[iL], C, rhs[iR])];
        iL, iR := iL + 1, iR + 1;
      }
    }
    if iL < |lhs| {
      assert rhs[iR..] == [];
      while iL < |lhs|
        invariant 0 <= iL <= |lhs|
        invariant out + Scale(lhs[iL..], C) == MergeFma(lhs, C, rhs)
      {
        ScaleCons(lhs[iL..], C);
        assert lhs[iL..][1..] == lhs[iL + 1..];
        ShiftHead(out, Elements.Times(lhs[iL], C), Scale(lhs[iL..], C), Scale(lhs[iL + 1..], C));
        out := out + [Elements.Times(lhs[iL], C)];
        iL := iL + 1;
      }
      assert rhs[iR..] == [] && out + [] == out;
    }
    while iR < |rhs|
      invariant 0 <= iR <= |rhs|
      invariant out + rhs[iR..] == MergeFma(lhs, C, rhs)
    {
      assert rhs[iR..] == [rhs[iR]] + rhs[iR + 1..];
      ShiftHead(out, rhs[iR], rhs[iR..], rhs[iR + 1..]);
      out := out + [rhs[iR]];
      iR := iR + 1;
    }
    assert out + [] == out;
  }

  /** a * C: a fresh copy with every value scaled. */
  method ScaleBy(a: SVec, C: real) returns (out: SVec)
    ensures out == Scale(a, C)
  {
    out := a;
    var i := 0;
    while i < |out|
      invariant 0 <= i <= |out| == |a|
      invariant forall k :: 0 <= k < i ==> out[k] == Elements.Times(a[k], C)
      invariant forall k :: i <= k < |out| ==> out[k] == a[k]
    {
      out := out[i := TimesAssign(out[i], C)];
      i := i + 1;
    }
  }

  /** a / C: a fresh copy with every value divided. */
  method DivideBy(a: SVec, C: real) returns (out: SVec)
    requires C != 0.0
    ensures out == Divide(a, C)
  {
    out := a;
    var i := 0;
    while i < |out|
      invariant 0 <= i <= |out| == |a|
      invariant forall k :: 0 <= k < i ==> out[k] == DivideAssign(a[k], C)
      invariant forall k :: i <= k < |out| ==> out[k] == a[k]
    {
      out := out[i := DivideAssign(out[i], C)];
      i := i + 1;
    }
  }
}
