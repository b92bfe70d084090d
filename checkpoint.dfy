// Checkpoint files. A checkpoint is the header, the domain's three cell counts,
// the number of instances, then for every instance and every interior cell in
// iteration order the number of stored elements followed by each element's
// label and value, and finally two checksums: the labels summed in a wrapping
// 32-bit unsigned and the values summed. The file is a sequence of tokens, one
// per value written; a token of the wrong kind or a missing token is a file that
// cannot be read (Truncated).

module Checkpoint {
  import opened Elements
  import opened Sparse
  import opened SVectors
  import opened Fields
  import opened Traversal
  import opened Domains
  import opened Headers

  /** One value written to or read from the file. */
  datatype Token = HeaderToken(h: Header) | IntToken(i: int) | SizeToken(k: nat) | LabelToken(l: Label) | ValueToken(v: real)

  /** lCheckSum over a stretch of the file: the labels of its label tokens, added in a 32-bit unsigned. */
  function LabelCheck(ts: seq<Token>): Label
  {
    if ts == [] then 0
    else
      var t := ts[|ts| - 1];
      if t.LabelToken? then (LabelCheck(ts[..|ts| - 1]) + t.l) % 0x1_0000_0000 else LabelCheck(ts[..|ts| - 1])
  }

  /** vCheckSum over a stretch of the file: the values of its value tokens, added up. */
  function ValueCheck(ts: seq<Token>): real
  {
    if ts == [] then 0.0
    else
      var t := ts[|ts| - 1];
      if t.ValueToken? then ValueCheck(ts[..|ts| - 1]) + t.v else ValueCheck(ts[..|ts| - 1])
  }

  /** One more token: the running checksums take it into account. */
  lemma ChecksSnoc(ts: seq<Token>, t: Token)
    ensures LabelCheck(ts + [t]) == if t.LabelToken? then (LabelCheck(ts) + t.l) % 0x1_0000_0000 else LabelCheck(ts)
    ensures ValueCheck(ts + [t]) == if t.ValueToken? then ValueCheck(ts) + t.v else ValueCheck(ts)
  {
    assert (ts + [t])[..|ts|] == ts;
  }

  /** The labels of the label tokens of a stretch of the file, added without wrapping. */
  ghost function LabelSum(ts: seq<Token>): int
  {
    if ts == [] then 0
    else
      var t := ts[|ts| - 1];
      if t.LabelToken? then LabelSum(ts[..|ts| - 1]) + t.l else LabelSum(ts[..|ts| - 1])
  }

  /** Reducing before adding does not change a 32-bit unsigned sum. */
  lemma ModAdd(x: int, y: int)
    ensures (x + y) % 0x1_0000_0000 == (x % 0x1_0000_0000 + y % 0x1_0000_0000) % 0x1_0000_0000
  {
  }

  /** The wrapping checksum is the plain sum reduced once. */
  lemma {:induction false} LabelCheckIsSum(ts: seq<Token>)
    ensures LabelCheck(ts) == LabelSum(ts) % 0x1_0000_0000
    decreases |ts|
  {
    if ts != [] {
      var ts', t := ts[..|ts| - 1], ts[|ts| - 1];
      LabelCheckIsSum(ts');
      if t.LabelToken? {
        ModAdd(LabelSum(ts'), t.l);
      }
    }
  }

  /** The plain label sum of two stretches one after the other is the sum of theirs. */
  lemma {:induction false} LabelSumAppend(a: seq<Token>, b: seq<Token>)
    ensures LabelSum(a + b) == LabelSum(a) + LabelSum(b)
    decreases |b|
  {
    if b == [] {
      assert a + b == a;
    } else {
      var b', t := b[..|b| - 1], b[|b| - 1];
      LabelSumAppend(a, b');
      assert (a + b)[..|a + b| - 1] == a + b';
    }
  }

  /** The label checksum is a sum: checksumming two stretches one after the other adds the two checksums. */
  lemma LabelCheckAppend(a: seq<Token>, b: seq<Token>)
    ensures LabelCheck(a + b) == (LabelCheck(a) + LabelCheck(b)) % 0x1_0000_0000
  {
    LabelCheckIsSum(a);
    LabelCheckIsSum(b);
    LabelCheckIsSum(a + b);
    LabelSumAppend(a, b);
    ModAdd(LabelSum(a), LabelSum(b));
  }

  /** The value checksum is a sum: checksumming two stretches one after the other adds the two checksums. */
  lemma {:induction false} ValueCheckAppend(a: seq<Token>, b: seq<Token>)
    ensures ValueCheck(a + b) == ValueCheck(a) + ValueCheck(b)
    decreases |b|
  {
    if b == [] {
      assert a + b == a;
    } else {
      var b', t := b[..|b| - 1], b[|b| - 1];
      ValueCheckAppend(a, b');
      assert a + b == (a + b') + [t];
      ChecksSnoc(a + b', t);
      ChecksSnoc(b', t);
    }
  }

  // ---------------------------------------------------------------------------
  // What create writes

  /** The (label, value) pairs of a cell's elements, in storage order. */
  function ElementTokens(s: SVec): (r: seq<Token>)
    ensures |r| == 2 * |s|
    decreases |s|
  {
    if s == [] then []
    else ElementTokens(s[..|s| - 1]) + [LabelToken(s[|s| - 1].l), ValueToken(s[|s| - 1].v)]
  }

  /** One cell: its number of stored elements, then the elements. */
  function CellTokens(s: SVec): seq<Token>
  {
    [SizeToken(|s|)] + ElementTokens(s)
  }

  /** The cells of one instance, in iteration order. */
  function CellsTokens(cs: seq<SVec>): seq<Token>
    decreases |cs|
  {
    if cs == [] then [] else CellsTokens(cs[..|cs| - 1]) + CellTokens(cs[|cs| - 1])
  }

  /** The cells of every instance, instance by instance. */
  function BodyTokens(fs: seq<seq<SVec>>): seq<Token>
    decreases |fs|
  {
    if fs == [] then [] else BodyTokens(fs[..|fs| - 1]) + CellsTokens(fs[|fs| - 1])
  }

  /** The header, the three cell counts and the number of instances. */
  function Preamble(h: Header, n: seq<int>, nn: int): seq<Token>
    requires |n| == 3
  {
    [HeaderToken(h), IntToken(n[0]), IntToken(n[1]), IntToken(n[2]), IntToken(nn)]
  }

  /** The whole file create writes for instances whose interior cells are fs. */
  function CheckpointFile(h: Header, n: seq<int>, nn: int, fs: seq<seq<SVec>>): seq<Token>
    requires |n| == 3
  {
    var body := BodyTokens(fs);
    Preamble(h, n, nn) + body + [LabelToken(LabelCheck(body)), ValueToken(ValueCheck(body))]
  }

  // ---------------------------------------------------------------------------
  // What load reads

  /** The outcome of load: done, or the std::invalid_argument it throws, or a file it cannot read. */
  datatype LoadStatus =
    | Loaded
    | UnknownVersion
    | OrderingMismatch
    | SizeMismatch
    | CountMismatch
    | LabelChecksumMismatch
    | ValueChecksumMismatch
    | Truncated
    | Aborted

  /** A read from position pos: the value and the position after it, or why it failed. */
  datatype Read<T> = Got(value: T, next: nat) | Failed(status: LoadStatus)

  /** The k (label, value) pairs from position pos on. */
  function ReadElems(file: seq<Token>, pos: nat, k: nat): (r: Read<seq<Element>>)
    ensures r.Got? ==> |r.value| == k && r.next == pos + 2 * k && r.next <= |file|
    ensures r.Failed? ==> r.status == Truncated
  {
    if k == 0 then (if pos <= |file| then Got([], pos) else Failed(Truncated))
    else
      match ReadElems(file, pos, k - 1)
      case Failed(st) => Failed(st)
      case Got(es, p) =>
        if p + 1 < |file| && file[p].LabelToken? && file[p + 1].ValueToken? then
          Got(es + [Element(file[p].l, file[p + 1].v)], p + 2)
        else Failed(Truncated)
  }

  /** The vector SVector(buff) builds from the pairs read followed by the terminator. */
  function Stored(es: seq<Element>): SVec
  {
    TakeRun(es + [END_ELEMENT])
  }

  /**
   * One cell: the element count, the pairs, and the vector built from them; the
   * buffer constructor's assertion that the labels ascend aborts the load otherwise.
   */
  function ReadCell(file: seq<Token>, pos: nat): (r: Read<SVec>)
    ensures r.Got? ==> pos < r.next <= |file| && Sorted(r.value)
    ensures r.Failed? ==> r.status in {Truncated, Aborted}
  {
    if pos < |file| && file[pos].SizeToken? then
      match ReadElems(file, pos + 1, file[pos].k)
      case Failed(st) => Failed(st)
      case Got(es, p) => if Sorted(Stored(es)) then Got(Stored(es), p) else Failed(Aborted)
    else Failed(Truncated)
  }

  /** count cells one after the other from position pos on. */
  function ReadCells(file: seq<Token>, pos: nat, count: nat): (r: Read<seq<SVec>>)
    ensures r.Got? ==> |r.value| == count && pos <= r.next <= |file|
    ensures r.Failed? ==> r.status in {Truncated, Aborted}
  {
    if count == 0 then (if pos <= |file| then Got([], pos) else Failed(Truncated))
    else
      match ReadCells(file, pos, count - 1)
      case Failed(st) => Failed(st)
      case Got(cs, p) =>
        match ReadCell(file, p)
        case Failed(st) => Failed(st)
        case Got(c, q) => Got(cs + [c], q)
  }

  /** nn instances of count cells each from position pos on. */
  function ReadBody(file: seq<Token>, pos: nat, nn: nat, count: nat): (r: Read<seq<seq<SVec>>>)
    ensures r.Got? ==> |r.value| == nn && pos <= r.next <= |file|
    ensures r.Got? ==> forall p :: 0 <= p < nn ==> |r.value[p]| == count
    ensures r.Failed? ==> r.status in {Truncated, Aborted}
  {
    if nn == 0 then (if pos <= |file| then Got([], pos) else Failed(Truncated))
    else
      match ReadBody(file, pos, nn - 1, count)
      case Failed(st) => Failed(st)
      case Got(fs, p) =>
        match ReadCells(file, p, count)
        case Failed(st) => Failed(st)
        case Got(cs, q) => Got(fs + [cs], q)
  }

  /** How far load got: nothing written, some cells written, or every interior cell written. */
  datatype Stage = Rejected | Partial | Complete

  /** The outcome of load, and the cells it wrote when it wrote them all. */
  datatype LoadResult = LoadResult(status: LoadStatus, stage: Stage, fields: seq<seq<SVec>>)

  /** The cells and the two checksums after the counts have been accepted; positions count from the first cell. */
  function LoadBody(rest: seq<Token>, nn: nat, count: nat): (r: LoadResult)
    ensures r.stage != Rejected && r.status !in {UnknownVersion, OrderingMismatch, SizeMismatch, CountMismatch}
    ensures r.stage == Complete ==> |r.fields| == nn && forall p :: 0 <= p < nn ==> |r.fields[p]| == count
  {
    match ReadBody(rest, 0, nn, count)
    case Failed(st) => LoadResult(st, Partial, [])
    case Got(fs, p) =>
      if p >= |rest| || !rest[p].LabelToken? then LoadResult(Truncated, Complete, fs)
      else if rest[p].l != LabelCheck(rest[..p]) then LoadResult(LabelChecksumMismatch, Complete, fs)
      else if p + 1 >= |rest| || !rest[p + 1].ValueToken? then LoadResult(Truncated, Complete, fs)
      else if rest[p + 1].v != ValueCheck(rest[..p]) then LoadResult(ValueChecksumMismatch, Complete, fs)
      else LoadResult(Loaded, Complete, fs)
  }

  /**
   * load_v1 on the file after the header: the array-order flag, the cell counts and
   * the instance count are checked before any cell is read. The MPI flag is not read.
   */
  function LoadV1(h: Header, rest: seq<Token>, n: seq<int>, nn: nat, count: nat, fortran: bool): (r: LoadResult)
    requires |n| == 3
    ensures r.status in {OrderingMismatch, SizeMismatch, CountMismatch} ==> r.stage == Rejected
    ensures r.stage != Rejected ==>
      IsFortranBuild(h) == fortran && |rest| >= 4 && rest[..4] == [IntToken(n[0]), IntToken(n[1]), IntToken(n[2]), IntToken(nn)]
  {
    if IsFortranBuild(h) != fortran then LoadResult(OrderingMismatch, Rejected, [])
    else if |rest| < 3 || !rest[0].IntToken? || !rest[1].IntToken? || !rest[2].IntToken? then
      LoadResult(Truncated, Rejected, [])
    else if n[0] != rest[0].i || n[1] != rest[1].i || n[2] != rest[2].i then LoadResult(SizeMismatch, Rejected, [])
    else if |rest| < 4 || !rest[3].IntToken? then LoadResult(Truncated, Rejected, [])
    else if nn != rest[3].i then LoadResult(CountMismatch, Rejected, [])
    else LoadBody(rest[4..], nn, count)
  }

  /** load: the header's version selects the reader; only version 1 is known. */
  function Load(file: seq<Token>, n: seq<int>, nn: nat, count: nat, fortran: bool): (r: LoadResult)
    requires |n| == 3
    ensures r.status == UnknownVersion ==> r.stage == Rejected
    ensures r.stage == Complete ==> |r.fields| == nn && forall p :: 0 <= p < nn ==> |r.fields[p]| == count
  {
    if file == [] || !file[0].HeaderToken? then LoadResult(Truncated, Rejected, [])
    else if GetVersionNumber(file[0].h) != CURRENT_CHECKPOINT_VERSION_NUMBER then LoadResult(UnknownVersion, Rejected, [])
    else LoadV1(file[0].h, file[1..], n, nn, count, fortran)
  }

  /** Any version other than 1 is refused whatever follows the header. */
  lemma UnknownVersionRefused(h: Header, rest: seq<Token>, n: seq<int>, nn: nat, count: nat, fortran: bool)
    requires |n| == 3 && GetVersionNumber(h) != CURRENT_CHECKPOINT_VERSION_NUMBER
    ensures Load([HeaderToken(h)] + rest, n, nn, count, fortran) == LoadResult(UnknownVersion, Rejected, [])
  {
  }

  /** load reads the version and the array-order flag of the header and nothing else: the MPI bit is ignored. */
  lemma LoadIgnoresMPIBit(h: Header, h': Header, rest: seq<Token>, n: seq<int>, nn: nat, count: nat, fortran: bool)
    requires |n| == 3 && GetVersionNumber(h) == GetVersionNumber(h') && IsFortranBuild(h) == IsFortranBuild(h')
    ensures Load([HeaderToken(h)] + rest, n, nn, count, fortran) == Load([HeaderToken(h')] + rest, n, nn, count, fortran)
  {
    assert ([HeaderToken(h)] + rest)[1..] == rest == ([HeaderToken(h')] + rest)[1..];
  }

  // ---------------------------------------------------------------------------
  // Reading back what was written

  /** ts occurs in file at position pos. */
  predicate IsAt(file: seq<Token>, pos: nat, ts: seq<Token>)
  {
    pos + |ts| <= |file| && file[pos..pos + |ts|] == ts
  }

  lemma IsAtSplit(file: seq<Token>, pos: nat, a: seq<Token>, b: seq<Token>)
    requires IsAt(file, pos, a + b)
    ensures IsAt(file, pos, a) && IsAt(file, pos + |a|, b)
  {
    assert file[pos..pos + |a|] == (a + b)[..|a|];
    assert file[pos + |a|..pos + |a| + |b|] == (a + b)[|a|..];
  }

  lemma {:induction false} ReadElementsWritten(file: seq<Token>, pos: nat, s: SVec)
    requires IsAt(file, pos, ElementTokens(s))
    ensures ReadElems(file, pos, |s|) == Got(s, pos + 2 * |s|)
    decreases |s|
  {
    if s != [] {
      var s', e := s[..|s| - 1], s[|s| - 1];
      IsAtSplit(file, pos, ElementTokens(s'), [LabelToken(e.l), ValueToken(e.v)]);
      ReadElementsWritten(file, pos, s');
      var p := pos + 2 * |s'|;
      assert file[p] == LabelToken(e.l) && file[p + 1] == ValueToken(e.v);
      assert s' + [Element(e.l, e.v)] == s;
    }
  }

  lemma ReadCellWritten(file: seq<Token>, pos: nat, s: SVec)
    requires Storable(s) && IsAt(file, pos, CellTokens(s))
    ensures ReadCell(file, pos) == Got(s, pos + |CellTokens(s)|)
  {
    IsAtSplit(file, pos, [SizeToken(|s|)], ElementTokens(s));
    assert file[pos] == SizeToken(|s|);
    ReadElementsWritten(file, pos + 1, s);
    TakeRunWritten(s, []);
    assert s + [END_ELEMENT] + [] == s + [END_ELEMENT];
  }

  lemma {:induction false} ReadCellsWritten(file: seq<Token>, pos: nat, cs: seq<SVec>)
    requires forall m :: 0 <= m < |cs| ==> Storable(cs[m])
    requires IsAt(file, pos, CellsTokens(cs))
    ensures ReadCells(file, pos, |cs|) == Got(cs, pos + |CellsTokens(cs)|)
    decreases |cs|
  {
    if cs != [] {
      var cs', c := cs[..|cs| - 1], cs[|cs| - 1];
      IsAtSplit(file, pos, CellsTokens(cs'), CellTokens(c));
      ReadCellsWritten(file, pos, cs');
      ReadCellWritten(file, pos + |CellsTokens(cs')|, c);
      assert cs' + [c] == cs;
    }
  }

  lemma {:induction false} ReadBodyWritten(file: seq<Token>, pos: nat, fs: seq<seq<SVec>>, count: nat)
    requires forall p :: 0 <= p < |fs| ==> |fs[p]| == count && forall m :: 0 <= m < count ==> Storable(fs[p][m])
    requires IsAt(file, pos, BodyTokens(fs))
    ensures ReadBody(file, pos, |fs|, count) == Got(fs, pos + |BodyTokens(fs)|)
    decreases |fs|
  {
    if fs != [] {
      var fs', f := fs[..|fs| - 1], fs[|fs| - 1];
      IsAtSplit(file, pos, BodyTokens(fs'), CellsTokens(f));
      ReadBodyWritten(file, pos, fs', count);
      ReadCellsWritten(file, pos + |BodyTokens(fs')|, f);
      assert fs' + [f] == fs;
    }
  }

  /** The body create wrote, followed by its checksums, reads back as the cells it was written from. */
  lemma LoadBodyWritten(rest: seq<Token>, body: seq<Token>, fs: seq<seq<SVec>>, count: nat)
    requires forall p :: 0 <= p < |fs| ==> |fs[p]| == count && forall m :: 0 <= m < count ==> Storable(fs[p][m])
    requires body == BodyTokens(fs) && rest == body + [LabelToken(LabelCheck(body)), ValueToken(ValueCheck(body))]
    ensures LoadBody(rest, |fs|, count) == LoadResult(Loaded, Complete, fs)
  {
    assert IsAt(rest, 0, body) by {
      assert rest[0..|body|] == body;
    }
    ReadBodyWritten(rest, 0, fs, count);
    var p := |body|;
    assert rest[..p] == body;
    assert rest[p] == LabelToken(LabelCheck(body)) && rest[p + 1] == ValueToken(ValueCheck(body));
  }

  /** When the flag and the counts match, load_v1 goes on to the cells, whatever follows the counts. */
  lemma LoadV1Accepts(h: Header, rest: seq<Token>, tail: seq<Token>, n: seq<int>, nn: nat, count: nat, fortran: bool)
    requires |n| == 3 && IsFortranBuild(h) == fortran
    requires rest == [IntToken(n[0]), IntToken(n[1]), IntToken(n[2]), IntToken(nn)] + tail
    ensures LoadV1(h, rest, n, nn, count, fortran) == LoadBody(tail, nn, count)
  {
    assert rest[4..] == tail;
  }

  /**
   * Round trip: loading what create wrote, into a domain of the same shape and
   * build, restores every interior cell, provided every vector is sorted and never
   * uses the terminator label.
   */
  lemma LoadCreated(h: Header, n: seq<int>, fs: seq<seq<SVec>>, count: nat, fortran: bool)
    requires |n| == 3 && GetVersionNumber(h) == CURRENT_CHECKPOINT_VERSION_NUMBER && IsFortranBuild(h) == fortran
    requires forall p :: 0 <= p < |fs| ==> |fs[p]| == count && forall m :: 0 <= m < count ==> Storable(fs[p][m])
    ensures Load(CheckpointFile(h, n, |fs|, fs), n, |fs|, count, fortran) == LoadResult(Loaded, Complete, fs)
  {
    var body := BodyTokens(fs);
    var tail := body + [LabelToken(LabelCheck(body)), ValueToken(ValueCheck(body))];
    var rest := [IntToken(n[0]), IntToken(n[1]), IntToken(n[2]), IntToken(|fs|)] + tail;
    CheckpointFileSplit(h, n, fs, rest, tail);
    LoadV1Accepts(h, rest, tail, n, |fs|, count, fortran);
    LoadBodyWritten(tail, body, fs, count);
  }

  /** The file create writes: the header token, then the counts, then the body and its checksums. */
  lemma CheckpointFileSplit(h: Header, n: seq<int>, fs: seq<seq<SVec>>, rest: seq<Token>, tail: seq<Token>)
    requires |n| == 3
    requires tail == BodyTokens(fs) + [LabelToken(LabelCheck(BodyTokens(fs))), ValueToken(ValueCheck(BodyTokens(fs)))]
    requires rest == [IntToken(n[0]), IntToken(n[1]), IntToken(n[2]), IntToken(|fs|)] + tail
    ensures CheckpointFile(h, n, |fs|, fs) != [] && CheckpointFile(h, n, |fs|, fs)[0] == HeaderToken(h)
    ensures CheckpointFile(h, n, |fs|, fs)[1..] == rest
  {
    var file, body := CheckpointFile(h, n, |fs|, fs), BodyTokens(fs);
    var checks := [LabelToken(LabelCheck(body)), ValueToken(ValueCheck(body))];
    var counts := [IntToken(n[0]), IntToken(n[1]), IntToken(n[2]), IntToken(|fs|)];
    PreambleSplit(h, n, |fs|);
    assert file == ([HeaderToken(h)] + counts) + body + checks;
    AppendAssoc3([HeaderToken(h)], counts, body, checks);
    assert file == [HeaderToken(h)] + rest;
    assert file[1..] == rest;
  }

  /** The preamble is the header token followed by the four counts. */
  lemma PreambleSplit(h: Header, n: seq<int>, nn: int)
    requires |n| == 3
    ensures Preamble(h, n, nn) == [HeaderToken(h)] + [IntToken(n[0]), IntToken(n[1]), IntToken(n[2]), IntToken(nn)]
  {
  }

  /** ((a + b) + c) + d == a + (b + (c + d)). */
  lemma AppendAssoc3(a: seq<Token>, b: seq<Token>, c: seq<Token>, d: seq<Token>)
    ensures ((a + b) + c) + d == a + (b + (c + d))
  {
  }

  // ---------------------------------------------------------------------------
  // A read that failed stays failed

  lemma {:induction false} ReadElemsFails(file: seq<Token>, pos: nat, i: nat, k: nat)
    requires i <= k && ReadElems(file, pos, i).Failed?
    ensures ReadElems(file, pos, k) == ReadElems(file, pos, i)
    decreases k
  {
    if i < k {
      ReadElemsFails(file, pos, i, k - 1);
    }
  }

  lemma {:induction false} ReadCellsFails(file: seq<Token>, pos: nat, i: nat, k: nat)
    requires i <= k && ReadCells(file, pos, i).Failed?
    ensures ReadCells(file, pos, k) == ReadCells(file, pos, i)
    decreases k
  {
    if i < k {
      ReadCellsFails(file, pos, i, k - 1);
    }
  }

  lemma {:induction false} ReadBodyFails(file: seq<Token>, pos: nat, i: nat, k: nat, count: nat)
    requires i <= k && ReadBody(file, pos, i, count).Failed?
    ensures ReadBody(file, pos, k, count) == ReadBody(file, pos, i, count)
    decreases k
  {
    if i < k {
      ReadBodyFails(file, pos, i, k - 1, count);
    }
  }

  // ---------------------------------------------------------------------------
  // The running checksums of create and load_v1

  /** A label token followed by a value token: each checksum takes in its own one. */
  lemma ChecksPairSnoc(ts: seq<Token>, l: Label, v: real)
    ensures LabelCheck(ts + [LabelToken(l), ValueToken(v)]) == (LabelCheck(ts) + l) % 0x1_0000_0000
    ensures ValueCheck(ts + [LabelToken(l), ValueToken(v)]) == ValueCheck(ts) + v
  {
    assert ts + [LabelToken(l), ValueToken(v)] == (ts + [LabelToken(l)]) + [ValueToken(v)];
    ChecksSnoc(ts, LabelToken(l));
    ChecksSnoc(ts + [LabelToken(l)], ValueToken(v));
  }

  /** The pair at positions p and p + 1 of a file, read in order. */
  lemma ChecksPair(ts: seq<Token>, p: nat)
    requires p + 1 < |ts| && ts[p].LabelToken? && ts[p + 1].ValueToken?
    ensures LabelCheck(ts[..p + 2]) == (LabelCheck(ts[..p]) + ts[p].l) % 0x1_0000_0000
    ensures ValueCheck(ts[..p + 2]) == ValueCheck(ts[..p]) + ts[p + 1].v
  {
    assert ts[..p + 2] == ts[..p] + [LabelToken(ts[p].l), ValueToken(ts[p + 1].v)];
    ChecksPairSnoc(ts[..p], ts[p].l, ts[p + 1].v);
  }

  /** An element count is not summed into either checksum. */
  lemma ChecksSize(ts: seq<Token>, p: nat)
    requires p < |ts| && ts[p].SizeToken?
    ensures LabelCheck(ts[..p + 1]) == LabelCheck(ts[..p]) && ValueCheck(ts[..p + 1]) == ValueCheck(ts[..p])
  {
    assert ts[..p + 1] == ts[..p] + [ts[p]];
    ChecksSnoc(ts[..p], ts[p]);
  }

  // ---------------------------------------------------------------------------
  // create

  /** The interior cells of every instance of the domain, in iteration order. */
  function AllCells(dom: Domain): (r: seq<seq<SVec>>)
    reads dom.SArrays()
    requires dom.Valid()
    ensures |r| == dom.nn && forall p :: 0 <= p < dom.nn ==> r[p] == Contents(dom.s[p])
  {
    seq(dom.nn, p requires 0 <= p < dom.nn reads dom.SArrays() => assert dom.s[p].data in dom.SArrays(); Contents(dom.s[p]))
  }

  /** The inner loop of create: each element's label and value, each added to its checksum. */
  method WriteElements(s: SVec, out: seq<Token>, lsum: Label, vsum: real, ghost body: seq<Token>)
    returns (out': seq<Token>, lsum': Label, vsum': real)
    requires lsum == LabelCheck(body) && vsum == ValueCheck(body)
    ensures out' == out + ElementTokens(s)
    ensures lsum' == LabelCheck(body + ElementTokens(s)) && vsum' == ValueCheck(body + ElementTokens(s))
  {
    out', lsum', vsum' := out, lsum, vsum;
    var i := 0;
    assert body + ElementTokens(s[..0]) == body by {
      assert s[..0] == [];
    }
    while i < |s|
      invariant 0 <= i <= |s| && out' == out + ElementTokens(s[..i])
      invariant lsum' == LabelCheck(body + ElementTokens(s[..i])) && vsum' == ValueCheck(body + ElementTokens(s[..i]))
    {
      var l := s[i].l;
      out' := out' + [LabelToken(l)];
      lsum' := (lsum' + l) % 0x1_0000_0000;
      var v := s[i].v;
      out' := out' + [ValueToken(v)];
      vsum' := vsum' + v;
      assert s[..i + 1][..i] == s[..i];
      assert ElementTokens(s[..i + 1]) == ElementTokens(s[..i]) + [LabelToken(l), ValueToken(v)];
      assert body + ElementTokens(s[..i + 1]) == (body + ElementTokens(s[..i])) + [LabelToken(l), ValueToken(v)];
      ChecksPairSnoc(body + ElementTokens(s[..i]), l, v);
      i := i + 1;
    }
    assert s[..i] == s;
  }

  /** One more cell: the tokens of the cells so far, then its own. */
  lemma CellsTokensStep(pre: seq<Token>, cs: seq<SVec>, m: nat)
    requires m < |cs|
    ensures pre + CellsTokens(cs[..m + 1]) == (pre + CellsTokens(cs[..m])) + CellTokens(cs[m])
  {
    assert cs[..m + 1][..m] == cs[..m];
  }

  /** One more instance: the tokens of the instances so far, then its cells. */
  lemma BodyTokensStep(pre: seq<Token>, fs: seq<seq<SVec>>, p: nat)
    requires p < |fs|
    ensures pre + BodyTokens(fs[..p + 1]) == (pre + BodyTokens(fs[..p])) + CellsTokens(fs[p])
  {
    assert fs[..p + 1][..p] == fs[..p];
  }

  /** The body of the cell loop of create: the element count, then the elements. */
  method WriteCell(s: SVec, out: seq<Token>, lsum: Label, vsum: real, ghost body: seq<Token>)
    returns (out': seq<Token>, lsum': Label, vsum': real)
    requires lsum == LabelCheck(body) && vsum == ValueCheck(body)
    ensures out' == out + CellTokens(s)
    ensures lsum' == LabelCheck(body + CellTokens(s)) && vsum' == ValueCheck(body + CellTokens(s))
  {
    var nnz := |s|;
    ChecksSnoc(body, SizeToken(nnz));
    out', lsum', vsum' := WriteElements(s, out + [SizeToken(nnz)], lsum, vsum, body + [SizeToken(nnz)]);
    assert body + [SizeToken(nnz)] + ElementTokens(s) == body + CellTokens(s);
  }

  /** The cell loop of create for one instance, whose interior cells are cs. */
  method WriteInstance(sF: Helper<SVec>, out: seq<Token>, lsum: Label, vsum: real, ghost body: seq<Token>, ghost cs: seq<SVec>)
    returns (out': seq<Token>, lsum': Label, vsum': real)
    requires Fields.Valid(sF) && cs == Contents(sF) && lsum == LabelCheck(body) && vsum == ValueCheck(body)
    ensures out' == out + CellsTokens(cs)
    ensures lsum' == LabelCheck(body + CellsTokens(cs)) && vsum' == ValueCheck(body + CellsTokens(cs))
  {
    out', lsum', vsum' := out, lsum, vsum;
    var N := Count(sF.n);
    var m := 0;
    assert body + CellsTokens(cs[..0]) == body by {
      assert cs[..0] == [];
    }
    while m < N
      invariant 0 <= m <= N && cs == Contents(sF) && out' == out + CellsTokens(cs[..m])
      invariant lsum' == LabelCheck(body + CellsTokens(cs[..m])) && vsum' == ValueCheck(body + CellsTokens(cs[..m]))
    {
      CellsTokensStep(out, cs, m);
      CellsTokensStep(body, cs, m);
      out', lsum', vsum' := WriteCell(sF.data[Offset(sF, m)], out', lsum', vsum', body + CellsTokens(cs[..m]));
      m := m + 1;
    }
    assert cs[..N] == cs;
  }

  /** The instance loop of create: the cells of every instance in turn, with the checksums over all of them. */
  method WriteInstances(dom: Domain, out: seq<Token>, ghost cells: seq<seq<SVec>>) returns (out': seq<Token>, lsum: Label, vsum: real)
    requires dom.Valid() && cells == AllCells(dom)
    ensures out' == out + BodyTokens(cells)
    ensures lsum == LabelCheck(BodyTokens(cells)) && vsum == ValueCheck(BodyTokens(cells))
  {
    out', lsum, vsum := out, 0, 0.0;
    var p := 0;
    assert cells[..0] == [];
    while p < dom.nn
      invariant 0 <= p <= dom.nn && out' == out + BodyTokens(cells[..p])
      invariant lsum == LabelCheck(BodyTokens(cells[..p])) && vsum == ValueCheck(BodyTokens(cells[..p]))
    {
      BodyTokensStep(out, cells, p);
      BodyTokensStep([], cells, p);
      assert [] + BodyTokens(cells[..p]) == BodyTokens(cells[..p]);
      assert [] + BodyTokens(cells[..p + 1]) == BodyTokens(cells[..p + 1]);
      out', lsum, vsum := WriteInstance(dom.s[p], out', lsum, vsum, BodyTokens(cells[..p]), cells[p]);
      p := p + 1;
    }
    assert cells[..p] == cells;
  }

  /**
   * create(filename, dom): the header of this build, the domain's cell counts and
   * instance count, every interior cell of every instance, and the two checksums.
   * The tokens returned stand for the bytes written to the file.
   */
  method Create(dom: Domain, fortran: bool, mpi: bool) returns (out: seq<Token>)
    requires dom.Valid()
    ensures |out| > 0 && out[0].HeaderToken?
    ensures GetVersionNumber(out[0].h) == CURRENT_CHECKPOINT_VERSION_NUMBER
    ensures IsFortranBuild(out[0].h) == fortran && IsMPIBuild(out[0].h) == mpi
    ensures out == CheckpointFile(out[0].h, dom.n, dom.nn, AllCells(dom))
  {
    var header := MakeHeader(fortran, mpi);
    out := [HeaderToken(header)];
    out := out + [IntToken(dom.n[0]), IntToken(dom.n[1]), IntToken(dom.n[2])];
    out := out + [IntToken(dom.nn)];
    assert out == Preamble(header, dom.n, dom.nn);
    ghost var cells := AllCells(dom);
    var lsum: Label, vsum: real;
    out, lsum, vsum := WriteInstances(dom, out, cells);
    ghost var body := BodyTokens(cells);
    assert out == Preamble(header, dom.n, dom.nn) + body;
    out := out + [LabelToken(lsum)];
    out := out + [ValueToken(vsum)];
    assert out == Preamble(header, dom.n, dom.nn) + body + [LabelToken(LabelCheck(body)), ValueToken(ValueCheck(body))];
    assert out[0] == HeaderToken(header);
    assert out == CheckpointFile(header, dom.n, dom.nn, cells);
    assert cells == AllCells(dom);
  }

  // ---------------------------------------------------------------------------
  // load

  /** The element loop of reading one vector: nnz label/value pairs into buff[0..nnz), summed into the checksums. */
  method FillElements(body: seq<Token>, start: nat, buff: array<Element>, nnz: nat, lsum: Label, vsum: real)
    returns (res: Read<seq<Element>>, lsum': Label, vsum': real)
    requires start <= |body| && nnz < buff.Length && lsum == LabelCheck(body[..start]) && vsum == ValueCheck(body[..start])
    modifies buff
    ensures res == ReadElems(body, start, nnz)
    ensures res.Got? ==> buff[..nnz] == res.value && lsum' == LabelCheck(body[..res.next]) && vsum' == ValueCheck(body[..res.next])
  {
    lsum', vsum' := lsum, vsum;
    var i, p := 0, start;
    while i < nnz
      invariant 0 <= i <= nnz && p == start + 2 * i && p <= |body|
      invariant ReadElems(body, start, i) == Got(buff[..i], p)
      invariant lsum' == LabelCheck(body[..p]) && vsum' == ValueCheck(body[..p])
    {
      if p + 1 >= |body| || !body[p].LabelToken? || !body[p + 1].ValueToken? {
        ReadElemsFails(body, start, i + 1, nnz);
        return Failed(Truncated), lsum', vsum';
      }
      ChecksPair(body, p);
      var l := body[p].l;
      lsum' := (lsum' + l) % 0x1_0000_0000;
      var v := body[p + 1].v;
      vsum' := vsum' + v;
      buff[i] := Element(l, v);
      assert buff[..i + 1] == buff[..i] + [Element(l, v)];
      i, p := i + 1, p + 2;
    }
    res := Got(buff[..nnz], p);
  }

  /**
   * Reading one vector: its element count, then the pairs into a buffer closed by
   * the terminator, from which SVector(buff) builds the vector; a buffer out of
   * order aborts.
   */
  method LoadCell(body: seq<Token>, pos: nat, lsum: Label, vsum: real) returns (res: Read<SVec>, lsum': Label, vsum': real)
    requires pos <= |body| && lsum == LabelCheck(body[..pos]) && vsum == ValueCheck(body[..pos])
    ensures res == ReadCell(body, pos)
    ensures res.Got? ==> lsum' == LabelCheck(body[..res.next]) && vsum' == ValueCheck(body[..res.next])
  {
    lsum', vsum' := lsum, vsum;
    if pos >= |body| || !body[pos].SizeToken? {
      return Failed(Truncated), lsum', vsum';
    }
    var nnz := body[pos].k;
    ChecksSize(body, pos);
    var buff := new Element[nnz + 1](_ => END_ELEMENT);
    var elems;
    elems, lsum', vsum' := FillElements(body, pos + 1, buff, nnz, lsum', vsum');
    if elems.Failed? {
      return Failed(elems.status), lsum', vsum';
    }
    buff[nnz] := END_ELEMENT;
    assert buff[0..] == elems.value + [END_ELEMENT];
    var run := ScanRun(buff, 0);
    if !run.ordered {
      return Failed(Aborted), lsum', vsum';
    }
    res := Got(buff[..run.len], elems.next);
  }

  /** The cell loop of load_v1 has read and stored the first m cells of the field. */
  ghost predicate CellsLoaded(body: seq<Token>, pos: nat, sF: Helper<SVec>, a0: seq<SVec>, m: nat, cs: seq<SVec>, p: nat,
                              lsum: Label, vsum: real)
    reads sF.data
  {
    Fields.Valid(sF) && |a0| == sF.data.Length && m <= CellCount(sF.n) && |cs| == m && p <= |body| &&
    ReadCells(body, pos, m) == Got(cs, p) && sF.data[..] == Overwrite(a0, sF, cs) &&
    lsum == LabelCheck(body[..p]) && vsum == ValueCheck(body[..p])
  }

  /** One pass of the cell loop of load_v1: cell m is read and stored. */
  method StoreCell(body: seq<Token>, pos: nat, sF: Helper<SVec>, m: nat, cs: seq<SVec>, p: nat, lsum: Label, vsum: real,
                   ghost a0: seq<SVec>)
    returns (res: Read<seq<SVec>>, lsum': Label, vsum': real)
    requires CellsLoaded(body, pos, sF, a0, m, cs, p, lsum, vsum) && m < CellCount(sF.n)
    modifies sF.data
    ensures res.Failed? ==> res == ReadCells(body, pos, CellCount(sF.n))
    ensures res.Got? ==> CellsLoaded(body, pos, sF, a0, m + 1, res.value, res.next, lsum', vsum')
  {
    var cell;
    cell, lsum', vsum' := LoadCell(body, p, lsum, vsum);
    if cell.Failed? {
      ReadCellsFails(body, pos, m + 1, CellCount(sF.n));
      return Failed(cell.status), lsum', vsum';
    }
    var vals := cs + [cell.value];
    assert vals[..m] == cs && vals[..m + 1] == vals;
    OverwriteStep(a0, sF, vals, m);
    sF.data[Offset(sF, m)] := cell.value;
    res := Got(vals, cell.next);
  }

  /** The cell loop of load_v1 for one instance: every interior cell in iteration order is replaced by the vector read. */
  method LoadField(body: seq<Token>, pos: nat, sF: Helper<SVec>, lsum: Label, vsum: real)
    returns (res: Read<seq<SVec>>, lsum': Label, vsum': real)
    requires Fields.Valid(sF) && pos <= |body| && lsum == LabelCheck(body[..pos]) && vsum == ValueCheck(body[..pos])
    modifies sF.data
    ensures res == ReadCells(body, pos, CellCount(sF.n))
    ensures res.Got? ==> sF.data[..] == Overwrite(old(sF.data[..]), sF, res.value)
    ensures res.Got? ==> lsum' == LabelCheck(body[..res.next]) && vsum' == ValueCheck(body[..res.next])
  {
    ghost var a0 := sF.data[..];
    lsum', vsum' := lsum, vsum;
    var N := Count(sF.n);
    var m: nat, p: nat := 0, pos;
    var cs: seq<SVec> := [];
    while m < N
      invariant N == CellCount(sF.n) && CellsLoaded(body, pos, sF, a0, m, cs, p, lsum', vsum')
    {
      var r;
      r, lsum', vsum' := StoreCell(body, pos, sF, m, cs, p, lsum', vsum', a0);
      if r.Failed? {
        return r, lsum', vsum';
      }
      cs, p, m := r.value, r.next, m + 1;
    }
    res := Got(cs, p);
  }

  /** Instances before p hold the cells read for them, the others are as they were. */
  ghost predicate LoadedUpTo(dom: Domain, olds: seq<seq<SVec>>, fs: seq<seq<SVec>>, p: int)
    reads dom.SArrays()
    requires dom.Valid() && |olds| == dom.nn && 0 <= p <= dom.nn && |fs| == p
    requires forall q :: 0 <= q < dom.nn ==> |olds[q]| == dom.s[q].data.Length
  {
    (forall q :: 0 <= q < p ==> |fs[q]| <= CellCount(dom.n) && dom.s[q].data[..] == Overwrite(olds[q], dom.s[q], fs[q])) &&
    (forall q :: p <= q < dom.nn ==> dom.s[q].data[..] == olds[q])
  }

  /** Where the instance loop of load_v1 stands before instance p: what was read, stored and checksummed. */
  ghost predicate InstancesRead(body: seq<Token>, dom: Domain, olds: seq<seq<SVec>>, fs: seq<seq<SVec>>, p: nat, pos: nat,
                                lsum: Label, vsum: real)
    reads dom.SArrays()
    requires dom.Valid()
  {
    p <= dom.nn && |olds| == dom.nn && |fs| == p && pos <= |body| &&
    (forall q :: 0 <= q < dom.nn ==> |olds[q]| == dom.s[q].data.Length) &&
    ReadBody(body, 0, p, Count(dom.n)) == Got(fs, pos) &&
    lsum == LabelCheck(body[..pos]) && vsum == ValueCheck(body[..pos]) &&
    LoadedUpTo(dom, olds, fs, p)
  }

  /** The body of the instance loop of load_v1: the cells of instance p. */
  method LoadInstance(body: seq<Token>, dom: Domain, p: nat, pos: nat, fs: seq<seq<SVec>>, lsum: Label, vsum: real,
                      ghost olds: seq<seq<SVec>>)
    returns (res: Read<seq<seq<SVec>>>, lsum': Label, vsum': real)
    requires dom.Valid() && p < dom.nn && InstancesRead(body, dom, olds, fs, p, pos, lsum, vsum)
    modifies dom.s[p].data
    ensures res.Failed? ==> res == ReadBody(body, 0, dom.nn, Count(dom.n))
    ensures res.Got? ==> InstancesRead(body, dom, olds, res.value, p + 1, res.next, lsum', vsum')
  {
    var cells;
    cells, lsum', vsum' := LoadField(body, pos, dom.s[p], lsum, vsum);
    if cells.Failed? {
      ReadBodyFails(body, 0, p + 1, dom.nn, Count(dom.n));
      return Failed(cells.status), lsum', vsum';
    }
    forall q | 0 <= q < dom.nn && q != p ensures dom.s[q].data[..] == old(dom.s[q].data[..]) {
      assert dom.s[q].data != dom.s[p].data;
    }
    res := Got(fs + [cells.value], cells.next);
  }

  /** The instance loop of load_v1: instance by instance, the cells of each are read and stored. */
  method LoadInstances(body: seq<Token>, dom: Domain) returns (res: Read<seq<seq<SVec>>>, lsum: Label, vsum: real)
    requires dom.Valid()
    modifies dom.SArrays()
    ensures res == ReadBody(body, 0, dom.nn, Count(dom.n))
    ensures res.Got? ==> forall p :: 0 <= p < dom.nn ==> dom.s[p].data[..] == Overwrite(old(dom.s[p].data[..]), dom.s[p], res.value[p])
    ensures res.Got? ==> lsum == LabelCheck(body[..res.next]) && vsum == ValueCheck(body[..res.next])
  {
    ghost var olds := seq(dom.nn, q requires 0 <= q < dom.nn reads dom.SArrays() => dom.s[q].data[..]);
    lsum, vsum := 0, 0.0;
    var p: nat, pos: nat := 0, 0;
    var fs: seq<seq<SVec>> := [];
    assert body[..0] == [];
    while p < dom.nn
      invariant InstancesRead(body, dom, olds, fs, p, pos, lsum, vsum)
    {
      assert dom.s[p].data in dom.SArrays();
      var r;
      r, lsum, vsum := LoadInstance(body, dom, p, pos, fs, lsum, vsum, olds);
      if r.Failed? {
        return r, lsum, vsum;
      }
      fs, pos, p := r.value, r.next, p + 1;
    }
    res := Got(fs, pos);
  }

  /**
   * load_v1(input, header, dom) on the tokens after the header: the checks on the
   * array-order flag and the counts, then every cell, then the two checksums.
   */
  method LoadVersion1(rest: seq<Token>, header: Header, dom: Domain, fortran: bool) returns (st: LoadStatus)
    requires dom.Valid()
    modifies dom.SArrays()
    ensures st == LoadV1(header, rest, dom.n, dom.nn, Count(dom.n), fortran).status
    ensures LoadV1(header, rest, dom.n, dom.nn, Count(dom.n), fortran).stage == Rejected ==>
      forall p :: 0 <= p < dom.nn ==> dom.s[p].data[..] == old(dom.s[p].data[..])
    ensures LoadV1(header, rest, dom.n, dom.nn, Count(dom.n), fortran).stage == Complete ==>
      forall p :: 0 <= p < dom.nn ==>
        dom.s[p].data[..] == Overwrite(old(dom.s[p].data[..]), dom.s[p], LoadV1(header, rest, dom.n, dom.nn, Count(dom.n), fortran).fields[p])
  {
    if IsFortranBuild(header) != fortran {
      return OrderingMismatch;
    }
    if |rest| < 3 || !rest[0].IntToken? || !rest[1].IntToken? || !rest[2].IntToken? {
      return Truncated;
    }
    if dom.n[0] != rest[0].i || dom.n[1] != rest[1].i || dom.n[2] != rest[2].i {
      return SizeMismatch;
    }
    if |rest| < 4 || !rest[3].IntToken? {
      return Truncated;
    }
    if dom.nn != rest[3].i {
      return CountMismatch;
    }
    st := LoadCheckedBody(rest[4..], dom);
  }

  /** The part of load_v1 after the counts were accepted: every cell, then the two checksums. */
  method LoadCheckedBody(body: seq<Token>, dom: Domain) returns (st: LoadStatus)
    requires dom.Valid()
    modifies dom.SArrays()
    ensures st == LoadBody(body, dom.nn, Count(dom.n)).status
    ensures LoadBody(body, dom.nn, Count(dom.n)).stage == Complete ==>
      forall p :: 0 <= p < dom.nn ==>
        dom.s[p].data[..] == Overwrite(old(dom.s[p].data[..]), dom.s[p], LoadBody(body, dom.nn, Count(dom.n)).fields[p])
  {
    var cells, lsum, vsum := LoadInstances(body, dom);
    if cells.Failed? {
      return cells.status;
    }
    var p := cells.next;
    if p >= |body| || !body[p].LabelToken? {
      return Truncated;
    }
    if lsum != body[p].l {
      return LabelChecksumMismatch;
    }
    if p + 1 >= |body| || !body[p + 1].ValueToken? {
      return Truncated;
    }
    if vsum != body[p + 1].v {
      return ValueChecksumMismatch;
    }
    return Loaded;
  }

  /**
   * load(filename, dom): the header is read and its version selects the reader;
   * every version but 1 is refused before anything is read or written.
   */
  method LoadCheckpoint(file: seq<Token>, dom: Domain, fortran: bool) returns (st: LoadStatus)
    requires dom.Valid()
    modifies dom.SArrays()
    ensures st == Load(file, dom.n, dom.nn, Count(dom.n), fortran).status
    ensures Load(file, dom.n, dom.nn, Count(dom.n), fortran).stage == Rejected ==>
      forall p :: 0 <= p < dom.nn ==> dom.s[p].data[..] == old(dom.s[p].data[..])
    ensures Load(file, dom.n, dom.nn, Count(dom.n), fortran).stage == Complete ==>
      forall p :: 0 <= p < dom.nn ==>
        dom.s[p].data[..] == Overwrite(old(dom.s[p].data[..]), dom.s[p], Load(file, dom.n, dom.nn, Count(dom.n), fortran).fields[p])
  {
    if |file| == 0 || !file[0].HeaderToken? {
      return Truncated;
    }
    var header := file[0].h;
    if GetVersionNumber(header) != CURRENT_CHECKPOINT_VERSION_NUMBER {
      return UnknownVersion;
    }
    st := LoadVersion1(file[1..], header, dom, fortran);
  }
}
