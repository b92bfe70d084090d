// The value-level meaning of a sparse label vector and of every operation on it.
// A vector is the sequence of its stored elements; the class invariant of the
// source (labels strictly ascending) is the predicate Sorted.

module Sparse {
  import opened Elements

  /** The stored elements of a sparse vector, in storage order. */
  type SVec = seq<Element>

  /** Machine epsilon of a double, 2^-52. */
  const EPSILON: real := 1.0 / 4503599627370496.0

  /** The largest finite double, (2^53 - 1) * 2^971. */
  const DOUBLE_MAX: real := 179769313486231570814527423731704356798070567525844996598917476803157260780028538760589558632766878171540458953514382464234321326889464182768467546703537516986049910576551282076245490090389328944075868508455133942304583236903222948165808559332123348274797826204144723168738177180919299881250404026184124858368.0

  /** The smallest positive normal double, 2^-1022. */
  const DOUBLE_MIN_NORMAL: real := 1.0 / 44942328371557897693232629769725618340449424473557664318357520289433168951375240783177119330601884005280028469967848339414697442203604155623211857659868531094441973356216371319075554900311523529863270738021251442209537670585615720368478277635206809290837627671146574559986811484619929076208839082406056034304.0

  /** Labels strictly ascending: sorted and without repeats. */
  predicate Sorted(s: SVec)
  {
    forall i, j :: 0 <= i < j < |s| ==> s[i].l < s[j].l
  }

  /** The labels that have a stored element. */
  function Labels(s: SVec): set<Label>
  {
    set i | 0 <= i < |s| :: s[i].l
  }

  /** The mathematical entry s_l: the value stored for l, zero when l is not stored. */
  function ValueAt(s: SVec, l: Label): real
  {
    if s == [] then 0.0 else if s[0].l == l then s[0].v else ValueAt(s[1..], l)
  }

  /** sum(): the sum of the stored values. */
  function Sum(s: SVec): real
  {
    if s == [] then 0.0 else s[0].v + Sum(s[1..])
  }

  /** getMaxLabel(): the label of the last stored element, 0 for an empty vector. */
  function MaxLabel(s: SVec): Label
  {
    if s == [] then 0 else s[|s| - 1].l
  }

  function Min(x: real, y: real): real { if x <= y then x else y }

  function Max(x: real, y: real): real { if x >= y then x else y }

  /** getMinValue(): a fold of min starting from the largest finite double. */
  function MinValue(s: SVec): real
  {
    if s == [] then DOUBLE_MAX else Min(s[0].v, MinValue(s[1..]))
  }

  /** getMaxValue(): a fold of max starting from the smallest positive normal double. */
  function MaxValue(s: SVec): real
  {
    if s == [] then DOUBLE_MIN_NORMAL else Max(s[0].v, MaxValue(s[1..]))
  }

  /** a * C: every stored value scaled, labels kept. */
  function Scale(s: SVec, C: real): SVec
  {
    seq(|s|, i requires 0 <= i < |s| => Times(s[i], C))
  }

  /** a / C: every stored value divided, labels kept. */
  function Divide(s: SVec, C: real): SVec
    requires C != 0.0
  {
    seq(|s|, i requires 0 <= i < |s| => DivideAssign(s[i], C))
  }

  /** The merge of fma(a, C, b) = C * a + b, in the order the merge loop emits elements. */
  function MergeFma(a: SVec, C: real, b: SVec): SVec
    decreases |a| + |b|
  {
    if a == [] then b
    else if b == [] then Scale(a, C)
    else if a[0].l < b[0].l then [Times(a[0], C)] + MergeFma(a[1..], C, b)
    else if a[0].l > b[0].l then [b[0]] + MergeFma(a, C, b[1..])
    else [Fma(a[0], C, b[0])] + MergeFma(a[1..], C, b[1..])
  }

  /** add(a, C): s + C * a, with the quick exit that leaves s alone when C is zero or a is empty. */
  function AddTo(s: SVec, a: SVec, C: real): SVec
  {
    if C == 0.0 || a == [] then s else MergeFma(a, C, s)
  }

  /** normalize(total): rescale so the values sum to total; emptied when total or the sum is zero. */
  function Normalize(s: SVec, total: real): SVec
  {
    if s == [] then s
    else if total == 0.0 || Sum(s) == 0.0 then []
    else Scale(s, total / Sum(s))
  }

  /** chop(ref): drop every element whose value is at most EPSILON * ref, keeping the order of the rest. */
  function Chop(s: SVec, ref: real): SVec
  {
    if s == [] then []
    else if s[|s| - 1].v <= EPSILON * ref then Chop(s[..|s| - 1], ref)
    else Chop(s[..|s| - 1], ref) + [s[|s| - 1]]
  }

  /** zeroEntry(l): walk forward, erase the first element labelled l, stop at the first larger label. */
  function ZeroEntry(s: SVec, l: Label): SVec
  {
    if s == [] then []
    else if s[0].l == l then s[1..]
    else if s[0].l > l then s
    else [s[0]] + ZeroEntry(s[1..], l)
  }

  /** The elements of a flat buffer before its first terminator (all of it when there is none). */
  function TakeRun(s: seq<Element>): SVec
  {
    if s == [] || IsEnd(s[0]) then [] else [s[0]] + TakeRun(s[1..])
  }

  /** A vector that can be written to a flat buffer and read back: sorted, never using the terminator label. */
  predicate Storable(s: SVec)
  {
    Sorted(s) && forall i :: 0 <= i < |s| ==> !IsEnd(s[i])
  }

  /** A vector stored as a base vector and a factor, standing for base * factor. */
  datatype NormalizedSVector = NormalizedSVector(base: SVec, factor: real)

  /** NormalizedSVector(a, total): base a with factor total / sum(a); empty with factor 0 when total or sum(a) is zero. */
  function MakeNormalized(a: SVec, total: real): NormalizedSVector
  {
    if total == 0.0 || Sum(a) == 0.0 then NormalizedSVector([], 0.0)
    else NormalizedSVector(a, total / Sum(a))
  }

  /** The cleared normalized vector: nothing stored, factor 0. */
  const EMPTY_NORMALIZED: NormalizedSVector := NormalizedSVector([], 0.0)

  /** The vector a normalized vector stands for. */
  function Materialize(n: NormalizedSVector): SVec
  {
    Scale(n.base, n.factor)
  }

  /** add(n, C) for a normalized vector: add its base with the factor folded into C. */
  function AddNormalized(s: SVec, n: NormalizedSVector, C: real): SVec
  {
    AddTo(s, n.base, Coefficient(n, C))
  }

  /** The coefficient the base of a normalized vector is added with: C times its factor. */
  function Coefficient(n: NormalizedSVector, C: real): real
  {
    C * n.factor
  }

  // ---------------------------------------------------------------------------
  // Basic facts

  lemma {:induction false} ValueAtAbsent(s: SVec, l: Label)
    requires l !in Labels(s)
    ensures ValueAt(s, l) == 0.0
  {
    if s != [] {
      LabelsCons(s);
      ValueAtAbsent(s[1..], l);
    }
  }

  lemma {:induction false} LabelsCons(s: SVec)
    requires s != []
    ensures Labels(s) == {s[0].l} + Labels(s[1..])
  {
    forall x | x in Labels(s) ensures x in {s[0].l} + Labels(s[1..]) {
      var i :| 0 <= i < |s| && s[i].l == x;
      if i > 0 { assert s[1..][i - 1].l == x; }
    }
    forall x | x in Labels(s[1..]) ensures x in Labels(s) {
      var i :| 0 <= i < |s[1..]| && s[1..][i].l == x;
      assert s[i + 1].l == x;
    }
  }

  lemma {:induction false} SortedCons(s: SVec)
    requires s != []
    ensures Sorted(s) <==> Sorted(s[1..]) && forall x :: x in Labels(s[1..]) ==> s[0].l < x
  {
    if Sorted(s) {
      forall x | x in Labels(s[1..]) ensures s[0].l < x {
        var i :| 0 <= i < |s[1..]| && s[1..][i].l == x;
        assert s[i + 1].l == x;
      }
    }
    if Sorted(s[1..]) && forall x :: x in Labels(s[1..]) ==> s[0].l < x {
      forall i, j | 0 <= i < j < |s| ensures s[i].l < s[j].l {
        assert s[j].l == s[1..][j - 1].l;
        if i > 0 { assert s[i].l == s[1..][i - 1].l; }
        else { assert s[j].l in Labels(s[1..]); }
      }
    }
  }

  lemma {:induction false} LabelsAppend(a: SVec, b: SVec)
    ensures Labels(a + b) == Labels(a) + Labels(b)
  {
    forall x | x in Labels(a + b) ensures x in Labels(a) + Labels(b) {
      var i :| 0 <= i < |a + b| && (a + b)[i].l == x;
      if i < |a| { assert a[i].l == x; } else { assert b[i - |a|].l == x; }
    }
    forall x | x in Labels(a) + Labels(b) ensures x in Labels(a + b) {
      if x in Labels(a) {
        var i :| 0 <= i < |a| && a[i].l == x;
        assert (a + b)[i].l == x;
      } else {
        var i :| 0 <= i < |b| && b[i].l == x;
        assert (a + b)[|a| + i].l == x;
      }
    }
  }

  // ---------------------------------------------------------------------------
  // Scaling

  /** a * C keeps the labels and the order. */
  lemma {:induction false} ScaleLabels(s: SVec, C: real)
    ensures Labels(Scale(s, C)) == Labels(s)
    ensures Sorted(s) ==> Sorted(Scale(s, C))
  {
    var r := Scale(s, C);
    forall x | x in Labels(r) ensures x in Labels(s) {
      var i :| 0 <= i < |r| && r[i].l == x;
      assert s[i].l == x;
    }
    forall x | x in Labels(s) ensures x in Labels(r) {
      var i :| 0 <= i < |s| && s[i].l == x;
      assert r[i].l == x;
    }
  }

  /** a * C scales the entry of every label by C. */
  lemma {:induction false} ScaleValueAt(s: SVec, C: real, l: Label)
    ensures ValueAt(Scale(s, C), l) == ValueAt(s, l) * C
  {
    if s != [] {
      assert Scale(s, C)[1..] == Scale(s[1..], C);
      ScaleValueAt(s[1..], C, l);
    }
  }

  /** a * C scales the sum by C. */
  lemma {:induction false} ScaleSum(s: SVec, C: real)
    ensures Sum(Scale(s, C)) == Sum(s) * C
  {
    if s != [] {
      assert Scale(s, C)[1..] == Scale(s[1..], C);
      ScaleSum(s[1..], C);
      Distribute(s[0].v, Sum(s[1..]), C);
    }
  }

  /** x * C + y * C == (x + y) * C. */
  lemma Distribute(x: real, y: real, C: real)
    ensures x * C + y * C == (x + y) * C
  {
  }

  /** a * C keeps the labels and the order and scales every entry and the sum by C. */
  lemma ScaleMeaning(s: SVec, C: real, l: Label)
    ensures Labels(Scale(s, C)) == Labels(s)
    ensures Sorted(s) ==> Sorted(Scale(s, C))
    ensures ValueAt(Scale(s, C), l) == ValueAt(s, l) * C
    ensures Sum(Scale(s, C)) == Sum(s) * C
  {
    ScaleLabels(s, C);
    ScaleValueAt(s, C, l);
    ScaleSum(s, C);
  }

  /** a / C is a * (1 / C). */
  lemma {:induction false} DivideIsScale(s: SVec, C: real)
    requires C != 0.0
    ensures Divide(s, C) == Scale(s, 1.0 / C)
  {
    assert forall i :: 0 <= i < |s| ==> Divide(s, C)[i] == Scale(s, 1.0 / C)[i];
  }

  // ---------------------------------------------------------------------------
  // Fused multiply-add

  /** The merge stores exactly the labels of both operands. */
  lemma {:induction false} MergeFmaLabels(a: SVec, C: real, b: SVec)
    ensures Labels(MergeFma(a, C, b)) == Labels(a) + Labels(b)
    decreases |a| + |b|
  {
    if a == [] {
    } else if b == [] {
      ScaleMeaning(a, C, 0);
    } else if a[0].l < b[0].l {
      MergeFmaLabels(a[1..], C, b);
      LabelsCons(a);
      LabelsCons([Times(a[0], C)] + MergeFma(a[1..], C, b));
      assert ([Times(a[0], C)] + MergeFma(a[1..], C, b))[1..] == MergeFma(a[1..], C, b);
    } else if a[0].l > b[0].l {
      MergeFmaLabels(a, C, b[1..]);
      LabelsCons(b);
      LabelsCons([b[0]] + MergeFma(a, C, b[1..]));
      assert ([b[0]] + MergeFma(a, C, b[1..]))[1..] == MergeFma(a, C, b[1..]);
    } else {
      MergeFmaLabels(a[1..], C, b[1..]);
      LabelsCons(a);
      LabelsCons(b);
      LabelsCons([Fma(a[0], C, b[0])] + MergeFma(a[1..], C, b[1..]));
      assert ([Fma(a[0], C, b[0])] + MergeFma(a[1..], C, b[1..]))[1..] == MergeFma(a[1..], C, b[1..]);
    }
  }

  /** Putting an element in front of a sorted vector whose labels are all larger keeps it sorted. */
  lemma {:induction false} SortedPrepend(e: Element, t: SVec)
    requires Sorted(t) && forall x :: x in Labels(t) ==> e.l < x
    ensures Sorted([e] + t)
  {
    var r := [e] + t;
    assert r[1..] == t;
    SortedCons(r);
  }

  /** One step of the merge when the left head has the smaller label. */
  lemma MergeFmaLess(a: SVec, C: real, b: SVec)
    requires a != [] && b != [] && a[0].l < b[0].l
    ensures MergeFma(a, C, b) == [Times(a[0], C)] + MergeFma(a[1..], C, b)
  {
  }

  /** One step of the merge when the right head has the smaller label. */
  lemma MergeFmaGreater(a: SVec, C: real, b: SVec)
    requires a != [] && b != [] && a[0].l > b[0].l
    ensures MergeFma(a, C, b) == [b[0]] + MergeFma(a, C, b[1..])
  {
  }

  /** One step of the merge when both heads carry the same label. */
  lemma MergeFmaEqual(a: SVec, C: real, b: SVec)
    requires a != [] && b != [] && a[0].l == b[0].l
    ensures MergeFma(a, C, b) == [Fma(a[0], C, b[0])] + MergeFma(a[1..], C, b[1..])
  {
  }

  /** Merging two sorted vectors gives a sorted vector. */
  lemma {:induction false} MergeFmaSorted(a: SVec, C: real, b: SVec)
    requires Sorted(a) && Sorted(b)
    ensures Sorted(MergeFma(a, C, b))
    decreases |a| + |b|
  {
    if a == [] {
    } else if b == [] {
      ScaleLabels(a, C);
    } else {
      SortedCons(a);
      SortedCons(b);
      LabelsCons(a);
      LabelsCons(b);
      if a[0].l < b[0].l {
        MergeFmaSorted(a[1..], C, b);
        MergeFmaLabels(a[1..], C, b);
        SortedPrepend(Times(a[0], C), MergeFma(a[1..], C, b));
      } else if a[0].l > b[0].l {
        MergeFmaSorted(a, C, b[1..]);
        MergeFmaLabels(a, C, b[1..]);
        SortedPrepend(b[0], MergeFma(a, C, b[1..]));
      } else {
        MergeFmaSorted(a[1..], C, b[1..]);
        MergeFmaLabels(a[1..], C, b[1..]);
        SortedPrepend(Fma(a[0], C, b[0]), MergeFma(a[1..], C, b[1..]));
      }
    }
  }

  /** Entry by entry, the merge is C * a + b. */
  lemma {:induction false} MergeFmaValue(a: SVec, C: real, b: SVec, l: Label)
    requires Sorted(a) && Sorted(b)
    ensures ValueAt(MergeFma(a, C, b), l) == ValueAt(a, l) * C + ValueAt(b, l)
    decreases |a| + |b|
  {
    if a == [] {
    } else if b == [] {
      ScaleMeaning(a, C, l);
    } else {
      SortedCons(a);
      SortedCons(b);
      var r := MergeFma(a, C, b);
      if a[0].l < b[0].l {
        MergeFmaValue(a[1..], C, b, l);
        assert r[1..] == MergeFma(a[1..], C, b);
        if l == a[0].l {
          SmallerAbsent(b, l);
        }
      } else if a[0].l > b[0].l {
        MergeFmaValue(a, C, b[1..], l);
        assert r[1..] == MergeFma(a, C, b[1..]);
        if l == b[0].l {
          SmallerAbsent(a, l);
        }
      } else {
        MergeFmaValue(a[1..], C, b[1..], l);
        assert r[1..] == MergeFma(a[1..], C, b[1..]);
      }
    }
  }

  /** A label below the first label of a sorted vector has entry zero. */
  lemma {:induction false} SmallerAbsent(s: SVec, l: Label)
    requires Sorted(s) && s != [] && l < s[0].l
    ensures ValueAt(s, l) == 0.0
  {
    assert l !in Labels(s);
    ValueAtAbsent(s, l);
  }

  lemma {:induction false} ScaleTail(a: SVec, C: real)
    requires a != []
    ensures Scale(a, C)[1..] == Scale(a[1..], C)
    ensures Sum(Scale(a, C)) == a[0].v * C + Sum(Scale(a[1..], C))
  {
    assert Scale(a, C)[1..] == Scale(a[1..], C);
  }

  /** a * C is the scaled head followed by the scaled tail. */
  lemma ScaleCons(a: SVec, C: real)
    requires a != []
    ensures Scale(a, C) == [Times(a[0], C)] + Scale(a[1..], C)
  {
    ScaleTail(a, C);
    assert Scale(a, C) == [Scale(a, C)[0]] + Scale(a, C)[1..];
  }

  /** The merge conserves the sum: sum(C * a + b) = sum(a * C) + sum(b), sorted or not. */
  lemma {:induction false} MergeFmaSumScaled(a: SVec, C: real, b: SVec)
    ensures Sum(MergeFma(a, C, b)) == Sum(Scale(a, C)) + Sum(b)
    decreases |a| + |b|
  {
    if a == [] {
      assert Scale(a, C) == [];
    } else if b == [] {
    } else if a[0].l < b[0].l {
      var rest := MergeFma(a[1..], C, b);
      assert MergeFma(a, C, b) == [Times(a[0], C)] + rest;
      assert ([Times(a[0], C)] + rest)[1..] == rest;
      MergeFmaSumScaled(a[1..], C, b);
      ScaleTail(a, C);
    } else if a[0].l > b[0].l {
      var rest := MergeFma(a, C, b[1..]);
      assert MergeFma(a, C, b) == [b[0]] + rest;
      assert ([b[0]] + rest)[1..] == rest;
      MergeFmaSumScaled(a, C, b[1..]);
    } else {
      var rest := MergeFma(a[1..], C, b[1..]);
      assert MergeFma(a, C, b) == [Fma(a[0], C, b[0])] + rest;
      assert ([Fma(a[0], C, b[0])] + rest)[1..] == rest;
      MergeFmaSumScaled(a[1..], C, b[1..]);
      ScaleTail(a, C);
    }
  }

  /** The merge conserves the sum: sum(C * a + b) = C * sum(a) + sum(b). */
  lemma {:induction false} MergeFmaSum(a: SVec, C: real, b: SVec)
    ensures Sum(MergeFma(a, C, b)) == Sum(a) * C + Sum(b)
  {
    MergeFmaSumScaled(a, C, b);
    ScaleMeaning(a, C, 0);
  }

  /** Two sorted vectors with the same labels and the same entries are the same vector. */
  lemma {:induction false} SortedExtensionality(a: SVec, b: SVec)
    requires Sorted(a) && Sorted(b)
    requires Labels(a) == Labels(b)
    requires forall l: Label :: ValueAt(a, l) == ValueAt(b, l)
    ensures a == b
    decreases |a|
  {
    if a == [] || b == [] {
      if a != [] { LabelsCons(a); } else if b != [] { LabelsCons(b); }
    } else {
      SortedCons(a);
      SortedCons(b);
      LabelsCons(a);
      LabelsCons(b);
      // the heads are the least labels of equal label sets
      assert a[0].l == b[0].l;
      assert a[0].v == b[0].v by {
        assert ValueAt(a, a[0].l) == ValueAt(b, a[0].l);
      }
      assert a[0].l !in Labels(a[1..]) && b[0].l !in Labels(b[1..]);
      assert Labels(a[1..]) == Labels(b[1..]);
      forall l: Label ensures ValueAt(a[1..], l) == ValueAt(b[1..], l) {
        if l == a[0].l {
          ValueAtAbsent(a[1..], l);
          ValueAtAbsent(b[1..], l);
        } else {
          assert ValueAt(a, l) == ValueAt(b, l);
        }
      }
      SortedExtensionality(a[1..], b[1..]);
    }
  }

  /** add(a, C) on sorted vectors keeps them sorted and adds C * a entry by entry. */
  lemma {:induction false} AddToMeaning(s: SVec, a: SVec, C: real, l: Label)
    requires Sorted(s) && Sorted(a)
    ensures Sorted(AddTo(s, a, C))
    ensures ValueAt(AddTo(s, a, C), l) == ValueAt(s, l) + ValueAt(a, l) * C
  {
    if !(C == 0.0 || a == []) {
      MergeFmaSorted(a, C, s);
      MergeFmaValue(a, C, s, l);
    }
  }

  /** add(a, C) adds C * sum(a) to the sum. */
  lemma {:induction false} AddToSum(s: SVec, a: SVec, C: real)
    ensures Sum(AddTo(s, a, C)) == Sum(s) + Sum(a) * C
  {
    if !(C == 0.0 || a == []) {
      MergeFmaSum(a, C, s);
    }
  }

  /** add(a, C) stores the union of the labels, unless the quick exit leaves s alone. */
  lemma {:induction false} AddToLabels(s: SVec, a: SVec, C: real)
    ensures Labels(AddTo(s, a, C)) == if C == 0.0 || a == [] then Labels(s) else Labels(s) + Labels(a)
  {
    if !(C == 0.0 || a == []) {
      MergeFmaLabels(a, C, s);
    }
  }

  // ---------------------------------------------------------------------------
  // Normalization

  /** normalize(total) on a non-empty vector with non-zero total and sum makes the sum equal total. */
  lemma {:induction false} NormalizeMeaning(s: SVec, total: real, l: Label)
    ensures s == [] ==> Normalize(s, total) == []
    ensures s != [] && (total == 0.0 || Sum(s) == 0.0) ==> Normalize(s, total) == []
    ensures s != [] && total != 0.0 && Sum(s) != 0.0 ==>
      Sum(Normalize(s, total)) == total &&
      Labels(Normalize(s, total)) == Labels(s) &&
      ValueAt(Normalize(s, total), l) == ValueAt(s, l) * (total / Sum(s))
    ensures Sorted(s) ==> Sorted(Normalize(s, total))
  {
    if s != [] && total != 0.0 && Sum(s) != 0.0 {
      ScaleMeaning(s, total / Sum(s), l);
      assert Sum(s) * (total / Sum(s)) == total;
    } else if s != [] {
      ScaleMeaning(s, 1.0, l);
    }
  }

  /** A normalized vector stands for its base rescaled to sum to total, or for nothing. */
  lemma {:induction false} MakeNormalizedMeaning(a: SVec, total: real, l: Label)
    ensures total == 0.0 || Sum(a) == 0.0 ==> MakeNormalized(a, total) == EMPTY_NORMALIZED
    ensures total != 0.0 && Sum(a) != 0.0 ==>
      MakeNormalized(a, total).base == a &&
      Sum(Materialize(MakeNormalized(a, total))) == total &&
      ValueAt(Materialize(MakeNormalized(a, total)), l) == ValueAt(a, l) * (total / Sum(a))
  {
    if total != 0.0 && Sum(a) != 0.0 {
      ScaleMeaning(a, total / Sum(a), l);
      assert Sum(a) * (total / Sum(a)) == total;
    }
  }

  /** Adding a normalized vector adds its base with the factor folded into C, entry by entry. */
  lemma AddNormalizedMeaning(s: SVec, n: NormalizedSVector, C: real, l: Label)
    requires Sorted(s) && Sorted(n.base)
    ensures Sorted(AddNormalized(s, n, C))
    ensures ValueAt(AddNormalized(s, n, C), l) == ValueAt(s, l) + ValueAt(n.base, l) * (C * n.factor)
  {
    AddToMeaning(s, n.base, Coefficient(n, C), l);
  }

  // ---------------------------------------------------------------------------
  // Chop

  /** chop keeps exactly the elements above the threshold. */
  lemma {:induction false} ChopMembers(s: SVec, ref: real)
    ensures forall e :: e in Chop(s, ref) <==> e in s && e.v > EPSILON * ref
  {
    if s != [] {
      ChopMembers(s[..|s| - 1], ref);
      assert s == s[..|s| - 1] + [s[|s| - 1]];
    }
  }

  /** chop distributes over concatenation, so it keeps the relative order of what it keeps. */
  lemma {:induction false} ChopAppend(a: SVec, b: SVec, ref: real)
    ensures Chop(a + b, ref) == Chop(a, ref) + Chop(b, ref)
    decreases |b|
  {
    if b == [] {
      assert a + b == a;
    } else {
      ChopAppend(a, b[..|b| - 1], ref);
      assert (a + b)[..|a + b| - 1] == a + b[..|b| - 1];
    }
  }

  /** Appending an element above every stored label keeps a vector sorted. */
  lemma {:induction false} SortedSnoc(s: SVec, e: Element)
    requires Sorted(s) && forall x :: x in Labels(s) ==> x < e.l
    ensures Sorted(s + [e])
  {
    forall i, j | 0 <= i < j < |s + [e]| ensures (s + [e])[i].l < (s + [e])[j].l {
      if j == |s| { assert s[i].l in Labels(s); }
    }
  }

  /** A non-empty vector stays sorted under an appended element exactly when that element's label exceeds the last. */
  lemma {:induction false} SortedSnocLast(s: SVec, e: Element)
    requires s != []
    ensures Sorted(s + [e]) <==> Sorted(s) && s[|s| - 1].l < e.l
  {
    var t := s + [e];
    if Sorted(t) {
      assert t[|s| - 1] == s[|s| - 1] && t[|s|] == e;
      forall i, j | 0 <= i < j < |s| ensures s[i].l < s[j].l {
        assert t[i] == s[i] && t[j] == s[j];
      }
    }
    if Sorted(s) && s[|s| - 1].l < e.l {
      forall i, j | 0 <= i < j < |t| ensures t[i].l < t[j].l {
        if j == |s| && i < |s| - 1 { assert s[i].l < s[|s| - 1].l; }
      }
    }
  }

  /** chop keeps a sorted vector sorted. */
  lemma {:induction false} ChopSorted(s: SVec, ref: real)
    requires Sorted(s)
    ensures Sorted(Chop(s, ref))
  {
    if s != [] {
      var init := s[..|s| - 1];
      var last := s[|s| - 1];
      ChopSorted(init, ref);
      if last.v > EPSILON * ref {
        forall x | x in Labels(Chop(init, ref)) ensures x < last.l {
          var i :| 0 <= i < |Chop(init, ref)| && Chop(init, ref)[i].l == x;
          ChopMembers(init, ref);
          assert Chop(init, ref)[i] in init;
          var k :| 0 <= k < |init| && init[k] == Chop(init, ref)[i];
          assert s[k] == init[k];
        }
        SortedSnoc(Chop(init, ref), last);
      }
    }
  }

  /** chop is idempotent and never lengthens a vector. */
  lemma {:induction false} ChopIdempotent(s: SVec, ref: real)
    ensures Chop(Chop(s, ref), ref) == Chop(s, ref)
    ensures |Chop(s, ref)| <= |s|
  {
    if s != [] {
      var init := s[..|s| - 1];
      var last := s[|s| - 1];
      ChopIdempotent(init, ref);
      if last.v > EPSILON * ref {
        var c := Chop(init, ref);
        assert (c + [last])[..|c + [last]| - 1] == c;
      }
    }
  }

  // ---------------------------------------------------------------------------
  // zeroEntry

  /** On a sorted vector zeroEntry(l) removes the entry l and nothing else. */
  lemma {:induction false} ZeroEntryMeaning(s: SVec, l: Label, m: Label)
    requires Sorted(s)
    ensures Sorted(ZeroEntry(s, l))
    ensures Labels(ZeroEntry(s, l)) == Labels(s) - {l}
    ensures ValueAt(ZeroEntry(s, l), m) == if m == l then 0.0 else ValueAt(s, m)
    ensures l !in Labels(s) ==> ZeroEntry(s, l) == s
  {
    if s != [] {
      SortedCons(s);
      LabelsCons(s);
      var r := ZeroEntry(s, l);
      if s[0].l == l {
        assert l !in Labels(s[1..]);
        if m == l { ValueAtAbsent(s[1..], l); }
      } else if s[0].l > l {
        assert l !in Labels(s);
        if m == l { ValueAtAbsent(s, l); }
      } else {
        ZeroEntryMeaning(s[1..], l, m);
        assert r[1..] == ZeroEntry(s[1..], l);
        LabelsCons(r);
        SortedCons(r);
      }
    }
  }

  // ---------------------------------------------------------------------------
  // Getters

  /** On a sorted vector getMaxLabel is the largest stored label (0 for an empty vector). */
  lemma {:induction false} MaxLabelMeaning(s: SVec)
    requires Sorted(s)
    ensures forall x :: x in Labels(s) ==> x <= MaxLabel(s)
    ensures s != [] ==> MaxLabel(s) in Labels(s)
  {
    forall x | x in Labels(s) ensures x <= MaxLabel(s) {
      var i :| 0 <= i < |s| && s[i].l == x;
      if i < |s| - 1 { assert s[i].l < s[|s| - 1].l; }
    }
    if s != [] { assert s[|s| - 1].l in Labels(s); }
  }

  /** getMinValue and getMaxValue bound every stored value; each is a stored value or its starting sentinel. */
  lemma {:induction false} MinMaxValueMeaning(s: SVec)
    ensures forall i :: 0 <= i < |s| ==> MinValue(s) <= s[i].v && s[i].v <= MaxValue(s)
    ensures MinValue(s) <= DOUBLE_MAX && MaxValue(s) >= DOUBLE_MIN_NORMAL
    ensures MinValue(s) == DOUBLE_MAX || exists i :: 0 <= i < |s| && MinValue(s) == s[i].v
    ensures MaxValue(s) == DOUBLE_MIN_NORMAL || exists i :: 0 <= i < |s| && MaxValue(s) == s[i].v
  {
    if s != [] {
      MinMaxValueMeaning(s[1..]);
      forall i | 0 <= i < |s| ensures MinValue(s) <= s[i].v && s[i].v <= MaxValue(s) {
        if i > 0 { assert s[i] == s[1..][i - 1]; }
      }
      if MinValue(s) != DOUBLE_MAX && MinValue(s) != s[0].v {
        var i :| 0 <= i < |s[1..]| && MinValue(s[1..]) == s[1..][i].v;
        assert MinValue(s) == s[i + 1].v;
      }
      if MaxValue(s) != DOUBLE_MIN_NORMAL && MaxValue(s) != s[0].v {
        var i :| 0 <= i < |s[1..]| && MaxValue(s[1..]) == s[1..][i].v;
        assert MaxValue(s) == s[i + 1].v;
      }
    }
  }

  // ---------------------------------------------------------------------------
  // Flat buffers

  /** A run written with its terminator reads back as itself, whatever follows. */
  lemma {:induction false} TakeRunWritten(s: SVec, rest: seq<Element>)
    requires Storable(s)
    ensures TakeRun(s + [END_ELEMENT] + rest) == s
  {
    if s == [] {
      assert (s + [END_ELEMENT] + rest)[0] == END_ELEMENT;
    } else {
      assert (s + [END_ELEMENT] + rest)[1..] == s[1..] + [END_ELEMENT] + rest;
      TakeRunWritten(s[1..], rest);
    }
  }

  /** What a run reads is a prefix without terminators, followed by a terminator when one exists. */
  lemma {:induction false} TakeRunShape(s: seq<Element>)
    ensures |TakeRun(s)| <= |s| && TakeRun(s) == s[..|TakeRun(s)|]
    ensures forall i :: 0 <= i < |TakeRun(s)| ==> !IsEnd(TakeRun(s)[i])
    ensures |TakeRun(s)| < |s| ==> IsEnd(s[|TakeRun(s)|])
  {
    if s != [] && !IsEnd(s[0]) {
      TakeRunShape(s[1..]);
    }
  }
}
