# flexELA core, modelled in Dafny

flexELA tracks labelled blobs of fluid through a volume-of-fluid simulation. Every
cell of a padded three-dimensional grid holds a sparse label vector: pairs of a
32-bit label and a value, kept in strictly increasing label order. This project
models the core of the library and proves what it promises:

- **Elements, Sparse, SVectors** (`element.dfy`, `sparse.dfy`, `svectors.dfy`): the
  element arithmetic and the sparse vector. `Sparse` gives the meaning of every
  operation on the sequence of stored elements: the sorted merge `fma`, `add`,
  `chop`, `zeroEntry`, `normalize`, `NormalizedSVector`, and reading a vector from a
  terminated buffer. Each is related to `ValueAt`, the value stored under a label,
  zero when absent. The class `SVector` keeps its elements in a `seq` field and
  updates it in place. Each method is proved equal to its `Sparse` function:
  `add` is a merge loop with insertion, and the buffer constructor is a scan loop.
- **Fields, Traversal, GlobalVariables** (`fields.dfy`, `traversal.dfy`,
  `global_variables.dfy`): the padded view `Helper` (an array, three cell counts,
  six paddings), with `getIndex`, `getLength`, `slice`, and the forward and reverse
  iterators over the interior cells. The host's field and row wrappers are here too.
  A slice views the same array, so aliasing is explicit. `Traversal` numbers the
  interior cells in iteration order. Loops over a field are proved against
  `Contents` (the interior cells in that order) and `Overwrite` (an array with those
  cells replaced).
- **Domains** (`domain.dfy`): faces, `getOppositeFace`, the ghost and edge layers,
  and the class `Domain` with one source field `s` and one dilation field `c` per
  instance. Both fields have one ghost cell on every side. The solver uses `c` at
  `src/ELA_Solver.cpp:17` and `:43`, but `domain.h` does not declare it. The serial
  `hasNeighbor` and `getMax` are the constant false and the identity.
- **Compression** (`compression.dfy`): `getCompressedSize`, `compress` and
  `decompress` of a slice as a stream of elements, each cell closed by the
  terminator, with the round trip proved.
- **Solver, Advection** (`solver.dfy`, `advection.dfy`): the per-cell rules of
  save-dilation, dilate, normalize and filter, each applied over every instance.
  `advectRow` uses upwind face fluxes and conserves the size-weighted amount of every
  label. `ELA_SolverAdvectLabels` checks the direction and the cell sizes and then
  loops over rows.
- **Init** (`init.dfy`): `ELA_Init`; `ELA_InitLabels`, which seeds each cell with
  one element and keeps a running maximum label; and `ELA_GetLabel`.
- **Headers, Checkpoint** (`header.dfy`, `checkpoint.dfy`): the two-byte header,
  and `create`, `load` and `load_v1` on a file modelled as a sequence of tokens, one
  per value written. This covers the order, size and count checks, the checksums,
  and the round trip from `create` to `load`.
- **Outputs, VolumeVectors, VolumeTrackingMatrices, AsciiLogs, ElaOutput**
  (`output.dfy`, `vv.dfy`, `vtm.dfy`, `asciilog.dfy`, `ela_output.dfy`): the volume
  vector, the volume tracking matrix (compressed sparse rows), the running
  aggregates of the ASCII log, the zero-padded file names, and the per-cell loops of
  `ELA_OutputWriteV` and `ELA_OutputWriteVTM`. Binary files are sequences of tokens:
  one per 32-bit unsigned integer or double written.

Doubles are modelled as reals, so the algebra is exact. Labels are integers in
[0, 2^32); the terminator label is 2^32 - 1. EPSILON is 2^-52. Every 32-bit
conversion and wrap-around in the source (label casts, the wrapping label
checksum, `ROW_INDEX`, `Int_BinType` casts) is written out modulo 2^32.
Arrays are laid out in C order (the last index varies fastest).

Where `svector.h` and `svector.cpp` disagree, the model follows the `.cpp`:
`chop(ref)`, `zeroEntry`, `getMaxLabel` and the `NormalizedSVector(a, total)`
constructor. The solver calls `chop()` with no argument, which is modelled as
`chop(1.0)`.

## Model

| member | source | states |
|---|---|---|
| Elements.FmaIsTimesPlus | src/svector/element.h:114-138 | fma(a, C, b) on a shared label is C * a + b |
| Elements.PlusMinusInverse | src/svector/element.h:76-100 | a + b keeps the common label and subtracting b again gives back a |
| Elements.CompoundAssignmentsKeepLabel | src/svector/element.h:148-179 | +=, -=, *=, /= change only the value; the element forms agree with + and -; /= then *= by a non-zero value is the identity |
| Elements.IsEndOnlyLabel | src/svector/element.h:146-185 | isEnd() holds exactly for the largest label, whatever the value, and END_ELEMENT is an end |
| Sparse.ScaleMeaning | src/svector/svector.cpp:222-229 | a * C keeps the labels and their order and scales every entry and the sum by C |
| Sparse.ScaleLabels | src/svector/svector.cpp:222-229 | a * C keeps the label set and sortedness |
| Sparse.ScaleValueAt | src/svector/svector.cpp:222-229 | entry l of a * C is C times entry l of a |
| Sparse.ScaleSum | src/svector/svector.cpp:222-229 | sum(a * C) = C * sum(a) |
| Sparse.DivideIsScale | src/svector/svector.cpp:213-220 | a / C equals a * (1 / C) for non-zero C |
| Sparse.MergeFmaLabels | src/svector/svector.cpp:177-211 | fma(a, C, b) stores exactly the union of the labels of a and b |
| Sparse.MergeFmaLess | src/svector/svector.cpp:196-197 | a smaller left label emits C * a's head first |
| Sparse.MergeFmaGreater | src/svector/svector.cpp:198-199 | a smaller right label emits b's head first |
| Sparse.MergeFmaEqual | src/svector/svector.cpp:200-201 | equal labels emit fma of both heads |
| Sparse.MergeFmaSorted | src/svector/svector.cpp:177-211 | merging two sorted vectors yields a sorted vector |
| Sparse.MergeFmaValue | src/svector/svector.cpp:177-211 | on sorted operands every entry of the merge is C * a_l + b_l |
| Sparse.MergeFmaSumScaled | src/svector/svector.cpp:177-211 | the merge conserves the sum: sum(fma(a, C, b)) = sum(a * C) + sum(b), sorted or not |
| Sparse.MergeFmaSum | src/svector/svector.cpp:177-211 | sum(fma(a, C, b)) = C * sum(a) + sum(b) |
| Sparse.AddToMeaning | src/svector/svector.cpp:78-117 | add(a, C) on sorted vectors stays sorted and adds C * a_l to every entry |
| Sparse.AddToSum | src/svector/svector.cpp:78-117 | add(a, C) adds C * sum(a) to the sum |
| Sparse.AddToLabels | src/svector/svector.cpp:78-117 | add(a, C) stores the union of the labels, except that the quick exit for C == 0 or empty a leaves the vector as it was |
| Sparse.NormalizeMeaning | src/svector/svector.cpp:124-147 | normalize(total) leaves an empty vector empty, empties it when total or the sum is zero, otherwise scales so the sum becomes total, keeping labels and order |
| Sparse.MakeNormalizedMeaning | src/svector/svector.cpp:231-247 | NormalizedSVector(a, total) is the cleared vector when total or sum(a) is zero, else base a with factor total / sum(a), standing for a vector summing to total |
| Sparse.AddNormalizedMeaning | src/svector/svector.cpp:119-122 | adding a normalized vector adds its base scaled by C * factor, entry by entry, and keeps sortedness |
| Sparse.ChopMembers | src/svector/svector.cpp:149-159 | chop(ref) keeps exactly the elements whose value exceeds EPSILON * ref |
| Sparse.ChopAppend | src/svector/svector.cpp:149-159 | chop distributes over concatenation, so the kept elements stay in their relative order |
| Sparse.ChopSorted | src/svector/svector.cpp:149-159 | chop keeps a sorted vector sorted |
| Sparse.ChopIdempotent | src/svector/svector.cpp:149-159 | chopping twice is chopping once, and chop never lengthens |
| Sparse.ZeroEntryMeaning | src/svector/svector.cpp:161-175 | on a sorted vector zeroEntry(l) removes label l and changes no other entry; an absent l leaves the vector unchanged |
| Sparse.MaxLabelMeaning | src/svector/svector.cpp:48-51 | on a sorted vector getMaxLabel bounds every stored label and is itself stored when the vector is not empty |
| Sparse.MinMaxValueMeaning | src/svector/svector.cpp:32-46 | getMinValue and getMaxValue bound every stored value and are either a stored value or their starting sentinel |
| Sparse.TakeRunWritten | src/svector/svector.cpp:11-25 | a run written with its terminator reads back as itself whatever follows |
| Sparse.TakeRunShape | src/svector/svector.cpp:11-25 | the run read from a buffer is a prefix free of terminators, followed by a terminator when one exists |
| SVectors.ScanRun | src/svector/svector.cpp:13-21 | the scan stops at the first terminator, its length is the run, and `ordered` holds exactly when the labels ascend strictly |
| SVectors.SVector.constructor | src/svector/svector.h:29 | the default vector stores nothing |
| SVectors.SVector.Single | src/svector/svector.h:211 | SVector(elm) stores exactly elm |
| SVectors.SVector.FromBuffer | src/svector/svector.cpp:11-25 | SVector(buff) copies the run before the first terminator, which is sorted |
| SVectors.SVector.NNZ | src/svector/svector.h:213-216 | for a sorted vector NNZ() is the number of distinct labels |
| SVectors.SVector.IsEmpty | src/svector/svector.h:218-220 | isEmpty() holds exactly when no label carries an entry |
| SVectors.SVector.Clear | src/svector/svector.h:236-240 | clear() leaves no element |
| SVectors.SVector.Add | src/svector/svector.cpp:78-117 | the in-place merge with insert leaves exactly add(a, C) of the old vector |
| SVectors.SVector.AddNormalized | src/svector/svector.cpp:119-122 | add(ns, C) is add(base, C * factor) |
| SVectors.SVector.Normalize | src/svector/svector.cpp:124-147 | the loop leaves exactly normalize(total) of the old vector |
| SVectors.SVector.Chop | src/svector/svector.cpp:149-159 | the remove_if/erase pass leaves exactly chop(ref) of the old vector |
| SVectors.SVector.ZeroEntry | src/svector/svector.cpp:161-175 | the forward walk leaves exactly zeroEntry(l) of the old vector |
| SVectors.Fma | src/svector/svector.cpp:177-211 | the merge loop returns fma(lhs, C, rhs) without touching its operands |
| SVectors.ScaleBy | src/svector/svector.cpp:222-229 | operator* returns a * C |
| SVectors.DivideBy | src/svector/svector.cpp:213-220 | operator/ returns a / C |
| Fields.GetLength | src/domain/fields.h:274-277 | getLength is non-negative and zero exactly when a padded extent is zero |
| Fields.GetIndex | src/domain/fields.h:309-320 | in C order every in-range position has an offset inside the array |
| Fields.IndexInjective | src/domain/fields.h:309-320 | distinct in-range positions are stored at distinct offsets |
| Fields.Size | src/domain/fields.h:291-295 | size() is the product of the three interior counts, and at most getLength |
| Fields.Slice | src/domain/fields.h:297-307 | slice shares the array, has the box's counts and keeps every padded extent |
| Fields.SliceAliases | src/domain/fields.h:297-307 | a slice inside the padded view is valid, and its (i, j, k) is the parent's (i + iS, j + jS, k + kS) |
| Fields.CellAtRank | src/domain/fields.h:347-367 | the m-th cell of the iteration is the interior cell of rank m |
| Fields.VisitsEveryCellOnce | src/domain/fields.h:347-367 | iteration visits every interior cell exactly once |
| Fields.WrapInner | src/domain/fields.h:335-340 | jump[0] skips the k padding from the end of one k-run to the start of the next |
| Fields.WrapOuter | src/domain/fields.h:335-340 | jump[0] + jump[1] skip the paddings from one (j, k) plane to the next |
| Fields.ForwardStep | src/domain/fields.h:347-367 | one forward step from an interior cell other than the last points at the next cell |
| Fields.BackwardStep | src/domain/fields.h:369-388 | one reverse step undoes one forward step |
| Fields.EndIsPastLast | src/domain/fields.h:228-229 | end() sits at (n_i, 0, 0), past every interior cell |
| Fields.ForwardVisits | src/domain/fields.h:347-367 | m forward steps from begin() reach the m-th cell |
| Fields.ForwardReachesEnd | src/domain/fields.h:228-229 | size() steps from begin() reach end() |
| Fields.ForwardStopsAtEnd | src/domain/fields.h:126-129 | no earlier step compares equal to end(), so the loop stops after exactly size() steps |
| Fields.ReverseVisits | src/domain/fields.h:369-388 | m reverse steps from rbegin() reach the cell of rank size() - 1 - m |
| Fields.ReverseReachesEnd | src/domain/fields.h:231-232 | size() reverse steps from rbegin() reach rend() |
| Fields.REndIsBeforeFirst | src/domain/fields.h:231 | rend() sits at (-1, n_j - 1, n_k - 1), before every interior cell |
| Fields.ReverseStopsAtEnd | src/domain/fields.h:126-129 | no earlier reverse step compares equal to rend() |
| Fields.FieldIterator.constructor | src/domain/fields.h:322-344 | Iterator(array, i, j, k) points at (i, j, k) with the stride of the view |
| Fields.FieldIterator.Increment | src/domain/fields.h:347-367 | forward operator++ is one Forward step |
| Fields.FieldIterator.ReverseIncrement | src/domain/fields.h:369-388 | reverse operator++ is one Backward step |
| Fields.Walk | src/domain/fields.h:121-150 | `while (itr != end) ++itr` records the pointer of each of exactly n steps |
| Fields.ReverseWalk | src/domain/fields.h:153-166 | the same loop for a reverse iterator |
| Fields.ForwardOffsets | src/domain/fields.h:173-186 | a loop from begin() to end() visits one offset per interior cell, in iteration order |
| Fields.ReverseOffsets | src/domain/fields.h:193-206 | a loop from rbegin() to rend() visits the same cells, last first |
| Fields.NewOwner | src/domain/fields.h:390-394 | Owner(n, pad) allocates a fresh array of getLength entries |
| Fields.CopyOwner | src/domain/fields.h:396-401 | the Owner copy constructor is a deep copy into a fresh array |
| Fields.Put | src/domain/fields.h:285-289 | writing through at(i, j, k) changes that entry and nothing else |
| Traversal.Offset | src/domain/fields.h:173-186 | every step of a range-for over a view lands inside the array |
| Traversal.OffsetInjective | src/domain/fields.h:173-186 | distinct steps land on distinct entries |
| Traversal.OffsetIsInterior | src/domain/fields.h:173-186 | only interior positions are visited |
| Traversal.Contents | src/domain/fields.h:173-186 | the cells a range-for reads, one per interior cell, in iteration order |
| Traversal.OverwriteAll | src/domain/fields.h:173-186 | a range-for that writes every cell leaves the interior equal to the values written and every ghost cell unchanged |
| Traversal.StoreCells | src/domain/fields.h:173-186 | the loop writing vals[m] at the m-th step leaves exactly that overwrite |
| GlobalVariables.WrapField | src/globalVariables.h:25-28 | wrapField views the host array with the domain's counts and the host padding |
| GlobalVariables.WrapRow | src/globalVariables.h:30-42 | wrapRow keeps the count and paddings of axis d and one cell without padding elsewhere |
| GlobalVariables.RowReadsInput | src/globalVariables.h:30-42 | position x along axis d of a row reads host entry x + inputPad[2d] |
| Domains.OppositeFace | src/domain/domain.h:34-37 | the opposite face lies on the same axis, on the other side |
| Domains.OppositeInvolution | src/domain/domain.h:34-37 | taking the opposite twice gives the face back, and no face is its own opposite |
| Domains.MinusFaceOfAxis | src/ELA_Solver.cpp:145 | casting axis d to a face gives the minus face of axis d, whose opposite is the plus face of d |
| Domains.GhostAndEdgeAreLayers | src/domain/domain.cpp:17-67 | with iPlus on n_i, every ghost slice is the layer just outside face f and every edge slice the layer just inside it, spanning the interior of the other axes |
| Domains.GhostBesideEdge | src/domain/domain.cpp:17-67 | the ghost layer and the edge layer of a face are neighbours on its axis |
| Domains.AsWrittenAgreesOnlyWhenSquare | src/domain/domain.cpp:30-57 | the iPlus bounds as written agree with the intended ones exactly when n_i == n_j (every other face always agrees) |
| Domains.IPlusAsWrittenMisplaced | src/domain/domain.cpp:30-31 | for n = (2, 3, 1) the iPlus ghost as written leaves the array and the iPlus edge as written is not interior, while the corrected bounds are |
| Domains.LayerSliceValid | src/domain/domain.cpp:17-67 | a ghost or edge slice is a valid one-cell-thick view of the same array, and its positions alias the parent's shifted by the lower bounds |
| Domains.AllocateFields | src/domain/domain.cpp:8-14 | the allocation loop yields nn fresh fields of the domain's counts, one ghost cell per side, on distinct arrays, every cell empty |
| Domains.Domain.constructor | src/domain/domain.cpp:5-15 | Domain(ni, nj, nk, nn) is valid, with nn empty instances |
| Domains.LayerAliases | src/domain/domain.cpp:17-67 | every position of a ghost (edge) slice of face f is the parent's position on the layer just outside (inside) f, other coordinates unchanged |
| Domains.Domain.GetGhost | src/domain/domain.cpp:17-41 | getGhost(f, p) views instance p's array, one cell thick on f's axis and full on the others; its position x is instance p's cell on the ghost layer just outside f (-1 on a minus face, n on a plus face) |
| Domains.Domain.GetEdge | src/domain/domain.cpp:43-67 | getEdge(f, p) views instance p's array, one cell thick on f's axis and full on the others; its position x is instance p's cell on the interior layer just inside f (0 on a minus face, n - 1 on a plus face) |
| Compression.EncodeLength | src/domain/compression.cpp:7-14 | the stream compress writes holds exactly NNZ + 1 elements per cell, the count getCompressedSize adds up |
| Compression.EmptyCellIsTerminator | src/domain/compression.cpp:23-31 | an empty cell is written as the terminator alone |
| Compression.EncodeSnoc | src/domain/compression.cpp:20-32 | one more cell appends its elements and one terminator |
| Compression.DecodeEncode | src/domain/compression.cpp:16-43 | decompressing what compress wrote, whatever follows it, gives back the cells, provided each is sorted and avoids the terminator label |
| Compression.DecodeStep | src/domain/compression.cpp:39-42 | reading one cell takes the run before the next terminator and continues after it |
| Compression.GetCompressedSize | src/domain/compression.cpp:7-14 | the loop returns the length of the stream of the slice's cells |
| Compression.Compress | src/domain/compression.cpp:16-33 | the start of the buffer becomes the stream of the slice's cells and the rest of the buffer is untouched |
| Compression.CopyCell | src/domain/compression.cpp:21-31 | one pass of the loop copies the cell's elements and then the terminator after what was already written |
| Compression.ReadOne | src/domain/compression.cpp:39-42 | one pass of the loop builds the vector of the next run and moves past NNZ + 1 elements |
| Compression.ReadCells | src/domain/compression.cpp:35-43 | the loop builds exactly the decoded cells |
| Compression.Decompress | src/domain/compression.cpp:35-43 | every interior cell of the slice, in iteration order, becomes the next decoded vector; ghost entries keep their value |
| Compression.SliceRoundTrip | src/domain/compression.cpp:16-43 | decompressing a compressed slice of storable cells into a slice of the same cell count shows exactly those cells and leaves its ghost entries alone |
| Compression.TransferSlice | src/domain/mpidomain.cpp:42-102 | measuring, compressing and decompressing an edge slice into a ghost slice makes the ghost slice show the edge's cells |
| Headers.FromBytes | src/checkpoint/header.h:8-9 | the header is two bytes, byte 0 the low one |
| Headers.MakeHeader | src/checkpoint/header.cpp:3-30 | byte 0 is the current version, bit 0 of byte 1 the Fortran flag, bit 1 the MPI flag, the other bits clear |
| Headers.GetVersionNumber | src/checkpoint/header.cpp:32-36 | the version is byte 0; with byte 1 it makes up the header again |
| Headers.IsFortranBuild | src/checkpoint/header.cpp:38-42 | the Fortran flag is bit 0 of byte 1 |
| Headers.IsMPIBuild | src/checkpoint/header.cpp:44-48 | the MPI flag is bit 1 of byte 1 |
| Headers.VersionIgnoresSecondByte | src/checkpoint/header.cpp:32-36 | changing byte 1 never changes the version |
| Headers.FlagsIgnoreOtherBits | src/checkpoint/header.cpp:38-48 | each flag depends on its own bit only |
| Checkpoint.ChecksSnoc | src/checkpoint/checkpoint.cpp:43-47 | each label token adds to the label checksum modulo 2^32 and each value token adds to the value checksum |
| Checkpoint.LabelCheckIsSum | src/checkpoint/checkpoint.cpp:43 | the wrapping label checksum is the plain sum of the labels reduced once modulo 2^32 |
| Checkpoint.LabelCheckAppend | src/checkpoint/checkpoint.cpp:43 | the label checksum of two stretches one after the other is the sum of theirs modulo 2^32 |
| Checkpoint.ValueCheckAppend | src/checkpoint/checkpoint.cpp:47 | the value checksum of two stretches one after the other is the sum of theirs |
| Checkpoint.ReadElems | src/checkpoint/checkpoint.cpp:110-120 | reading k pairs consumes 2k tokens or fails as truncated |
| Checkpoint.ReadCell | src/checkpoint/checkpoint.cpp:102-125 | a cell read is sorted and consumes at least its count; otherwise the file is truncated or the buffer constructor's assertion aborts |
| Checkpoint.ReadCells | src/checkpoint/checkpoint.cpp:102-125 | count cells are read in order, or the read fails as truncated or aborted |
| Checkpoint.ReadBody | src/checkpoint/checkpoint.cpp:99-126 | nn instances of count cells each are read in order, or the read fails |
| Checkpoint.LoadBody | src/checkpoint/checkpoint.cpp:92-145 | after the counts were accepted the load never reports a header or count error, and a complete load yields nn instances of count cells |
| Checkpoint.LoadV1 | src/checkpoint/checkpoint.cpp:61-146 | an ordering, size or count mismatch rejects before any cell is written; otherwise the flag and the three cell counts and the instance count matched |
| Checkpoint.Load | src/checkpoint/checkpoint.cpp:148-175 | an unknown version is rejected, and a complete load has the domain's shape |
| Checkpoint.UnknownVersionRefused | src/checkpoint/checkpoint.cpp:157-171 | every version other than 1 is refused whatever follows the header |
| Checkpoint.LoadIgnoresMPIBit | src/checkpoint/checkpoint.cpp:61-72 | two headers that agree on the version and the Fortran flag load alike: the MPI bit is never read |
| Checkpoint.ReadElementsWritten | src/checkpoint/checkpoint.cpp:110-120 | the pairs create wrote for a vector read back as that vector's elements |
| Checkpoint.ReadCellWritten | src/checkpoint/checkpoint.cpp:102-125 | a storable vector create wrote reads back as itself |
| Checkpoint.ReadCellsWritten | src/checkpoint/checkpoint.cpp:102-125 | the cells of one instance create wrote read back as those cells |
| Checkpoint.ReadBodyWritten | src/checkpoint/checkpoint.cpp:99-126 | the cells of every instance create wrote read back as those cells |
| Checkpoint.LoadBodyWritten | src/checkpoint/checkpoint.cpp:92-145 | the body create wrote, with its checksums, loads completely and both checksums match |
| Checkpoint.LoadV1Accepts | src/checkpoint/checkpoint.cpp:74-90 | when the flag and the counts match, load_v1 goes on to the cells |
| Checkpoint.LoadCreated | src/checkpoint/checkpoint.cpp:12-175 | round trip: loading what create wrote, into a domain of the same shape and build, restores every interior cell, provided every vector is sorted and avoids the terminator label |
| Checkpoint.WriteElements | src/checkpoint/checkpoint.cpp:40-48 | the element loop writes every pair in order and keeps both checksums equal to the checksums of everything written |
| Checkpoint.WriteCell | src/checkpoint/checkpoint.cpp:34-48 | one cell is its element count followed by its pairs, checksums kept |
| Checkpoint.WriteInstance | src/checkpoint/checkpoint.cpp:34-49 | the cell loop writes every interior cell of one instance in iteration order, checksums kept |
| Checkpoint.WriteInstances | src/checkpoint/checkpoint.cpp:32-50 | the instance loop writes every instance in turn, with checksums over all of it |
| Checkpoint.Create | src/checkpoint/checkpoint.cpp:12-58 | create writes the header of this build, the counts, every interior cell of every instance and the two checksums |
| Checkpoint.FillElements | src/checkpoint/checkpoint.cpp:110-120 | the element loop fills buff[0..nnz) with the pairs read and keeps both checksums equal to the checksums of everything read |
| Checkpoint.LoadCell | src/checkpoint/checkpoint.cpp:102-124 | reading one vector agrees with the specification of a cell read, checksums kept |
| Checkpoint.StoreCell | src/checkpoint/checkpoint.cpp:102-125 | one pass of the cell loop reads and stores cell m, or fails as the whole read does |
| Checkpoint.LoadField | src/checkpoint/checkpoint.cpp:102-125 | the cell loop replaces every interior cell, in iteration order, by the vector read |
| Checkpoint.LoadInstance | src/checkpoint/checkpoint.cpp:100-126 | one pass of the instance loop reads and stores instance p and leaves the other instances alone |
| Checkpoint.LoadInstances | src/checkpoint/checkpoint.cpp:99-126 | the instance loop stores the cells read for every instance, checksums kept |
| Checkpoint.LoadVersion1 | src/checkpoint/checkpoint.cpp:61-146 | load_v1 reports what LoadV1 specifies, writes nothing when it rejects, and leaves every interior cell as read when it completes |
| Checkpoint.LoadCheckedBody | src/checkpoint/checkpoint.cpp:92-145 | the cells and the checksum comparisons report what LoadBody specifies |
| Checkpoint.LoadCheckpoint | src/checkpoint/checkpoint.cpp:148-175 | load reports what Load specifies, writes nothing when it rejects, and leaves every interior cell as read when it completes |
| Solver.ChopPositive | src/ELA_Solver.cpp:63 | every value chop() keeps exceeds EPSILON |
| Solver.ChopLabels | src/ELA_Solver.cpp:63 | chop() keeps only labels whose value exceeded EPSILON |
| Solver.NormalizePositive | src/ELA_Solver.cpp:67 | rescaling positive values to a positive total keeps them positive, empties nothing and reaches that total |
| Solver.NormalizeCellMeaning | src/ELA_Solver.cpp:61-68 | after chop and normalize(1 - f) a cell stays sorted, is empty where f is 1, otherwise is empty exactly when nothing survived the chop, holds positive values only, sums to 1 - f, and keeps only labels whose value exceeded EPSILON |
| Solver.FilterCellMeaning | src/ELA_Solver.cpp:80-85 | a cell with 1 - f <= tol is emptied; a cell with f <= tol is rescaled to sum to 1, keeping its labels and proportions, or emptied when its sum is zero; any other cell is unchanged; sorted cells stay sorted |
| Solver.SaveDilationCellMeaning | src/ELA_Solver.cpp:18-23 | the saved term is cleared where c is 1 or the cell sums to zero; otherwise it keeps the cell as base and stands for (1 - c) s / sum(s) |
| Solver.DilateCellMeaning | src/ELA_Solver.cpp:45-48 | s + cVector * u adds u times the vector cVector stands for to every entry and keeps s sorted |
| Solver.DilateCellSum | src/ELA_Solver.cpp:47 | s + cVector * u adds u times the sum of the vector cVector stands for to the sum of s |
| Solver.SaveThenDilate | src/ELA_Solver.cpp:7-50 | saving the dilation term of s0 with scalar c and dilating s with u adds u (1 - c) s0_l / sum(s0) to every entry s_l |
| Solver.NormalizedFieldMeaning | src/ELA_Solver.cpp:58-69 | cell m of the normalized field is the chopped and normalized old cell m, summing to 1 - f when not empty; ghost cells are untouched |
| Solver.SaveDilationField | src/ELA_Solver.cpp:14-26 | the cell loop sets every interior dilation cell, in iteration order, from the source cell and the scalar at the same position; nothing else changes |
| Solver.DilateField | src/ELA_Solver.cpp:42-48 | the cell loop adds the saved term times u to every interior source cell, in iteration order; nothing else changes |
| Solver.NormalizeField | src/ELA_Solver.cpp:59-68 | the cell loop chops and normalizes every interior source cell to 1 - f; nothing else changes |
| Solver.FilterField | src/ELA_Solver.cpp:79-87 | the cell loop filters every interior source cell against tol; nothing else changes |
| Solver.SaveInstance | src/ELA_Solver.cpp:13-26 | one pass of the instance loop saves the dilation terms of instance p and leaves the other dilation fields alone |
| Solver.SaveDilation | src/ELA_Solver.cpp:7-28 | every instance's dilation field is computed from its source field and the host's dilation scalar |
| Solver.DilateInstance | src/ELA_Solver.cpp:41-49 | one pass of the instance loop dilates instance p and leaves the other source fields alone |
| Solver.DilateLabels | src/ELA_Solver.cpp:35-50 | every instance's source field gains its saved term times the host's divergence |
| Solver.NormalizeInstance | src/ELA_Solver.cpp:58-69 | one pass of the instance loop normalizes instance p and leaves the other source fields alone |
| Solver.NormalizeLabel | src/ELA_Solver.cpp:52-70 | every instance's source field is chopped and normalized to 1 - f |
| Solver.FilterInstance | src/ELA_Solver.cpp:78-88 | one pass of the instance loop filters instance p and leaves the other source fields alone |
| Solver.FilterLabels | src/ELA_Solver.cpp:72-89 | every instance's source field is filtered against tol and the volume fraction |
| Advection.FaceFluxes | src/ELA_Solver.cpp:96-111 | a row of n cells has n - 1 face fluxes, face i the upwind cell rescaled to the flux |
| Advection.FaceFluxUpwind | src/ELA_Solver.cpp:101-111 | a positive flux takes cell i + 1, a negative one cell i; a face carries nothing when the flux or the upwind sum is zero |
| Advection.FaceFluxesSorted | src/ELA_Solver.cpp:101-111 | the face fluxes of a sorted row have sorted bases |
| Advection.AdvectRow | src/ELA_Solver.cpp:113-130 | the row update keeps the number of cells |
| Advection.GainFlow | src/ELA_Solver.cpp:117-127 | adding F / delta to a cell of size delta adds the flow of F to its amount of every label |
| Advection.LoseFlow | src/ELA_Solver.cpp:124-130 | adding -F / delta to a cell of size delta takes the flow of F from its amount of every label |
| Advection.CellBalance | src/ELA_Solver.cpp:113-130 | each new cell holds its old amount plus the inflow through its upper face minus the outflow through its lower face, and stays sorted |
| Advection.PrefixBalance | src/ELA_Solver.cpp:113-130 | the first k cells of the new row hold their old amount plus the flow through face k - 1 |
| Advection.AdvectRowSorted | src/ELA_Solver.cpp:113-130 | every cell of a sorted row stays sorted |
| Advection.AdvectRowConserves | src/ELA_Solver.cpp:91-131 | conservation: the row update keeps the total amount of every label, each cell weighted by its size |
| Advection.VectorFluxes | src/ELA_Solver.cpp:96-111 | the first loop computes the face fluxes from the row before any update |
| Advection.UpdateRow | src/ELA_Solver.cpp:113-130 | the second loop overwrites the row with the row update and nothing else |
| Advection.AdvectRowCells | src/ELA_Solver.cpp:91-131 | advectRow replaces the row by the row update of its old cells |
| Advection.RowSlice | src/ELA_Solver.cpp:180-214 | a row is a view of the same array |
| Advection.RowShape | src/ELA_Solver.cpp:180-214 | a row along axis d has n_d + 2 cells, ghost cells included |
| Advection.Rows | src/ELA_Solver.cpp:177-211 | the rows the loops visit lie within the loops' counts |
| Advection.AdvectedField | src/ELA_Solver.cpp:171-218 | advecting every row keeps the field array's length |
| Advection.AdvectOneRow | src/ELA_Solver.cpp:180-183 | one row is advected after the rows already done |
| Advection.AdvectLine | src/ELA_Solver.cpp:177-185 | one pass of the inner loop advects the rows of one outer position in order |
| Advection.AdvectField | src/ELA_Solver.cpp:171-218 | the row loops advect every row along axis d of one instance, in the loops' order |
| Advection.NormalIsNonZero | src/ELA_Solver.cpp:164-166 | cell sizes that pass the isnormal check can be divided by |
| Advection.DeltaSlice | src/ELA_Solver.cpp:158-161 | the cell-size slice views the host's array with n_d + 2 cells |
| Advection.CheckDeltas | src/ELA_Solver.cpp:164-166 | the check passes exactly when every cell size of the slice is normal |
| Advection.AdvectLabels | src/ELA_Solver.cpp:133-225 | a direction outside 0..2 and a cell size that is not normal are reported, exactly in those cases, with nothing changed; otherwise every instance's source field is advected along d |
| Advection.AdvectInstance | src/ELA_Solver.cpp:168-224 | one pass of the instance loop advects instance p and leaves the other source fields alone |
| Init.ToLabel | src/init.cpp:59 | the cast keeps non-negative ints and adds 2^32 to negative ones |
| Init.ToInt | src/init.cpp:75 | a label returned as an int is a 32-bit int that converts back to the label |
| Init.LabelRoundTrip | src/init.cpp:58-75 | every 32-bit int comes back from a label unchanged |
| Init.SeedCellMeaning | src/init.cpp:57-61 | a seeded cell is sorted and holds vof under the converted label and nothing else |
| Init.MaxLabelIsMaximum | src/init.cpp:49-55 | the running maximum bounds every converted label and is 0 or one of them |
| Init.SeedStep | src/init.cpp:53-62 | one pass of the loop seeds cell m and folds label m into the running maximum |
| Init.SeedAll | src/init.cpp:51-62 | the loop seeds every interior cell and leaves the running maximum of all labels |
| Init.InitLabels | src/init.cpp:39-66 | every interior cell of instance num is seeded from the label and volume fraction at the same position, maxLabel[num] becomes getMax of the running maximum, and nothing else changes |
| Init.Initialize | src/init.cpp:25-30 | the host padding is kept, a domain of the requested size and instance count is created with every cell empty, and maxLabel has one entry per instance |
| Init.FirstLabel | src/init.cpp:72-76 | the label reported is 0 for an empty cell and otherwise the smallest label of a sorted cell, as a 32-bit int |
| Init.GetLabel | src/init.cpp:68-77 | ELA_GetLabel reports 0 for an empty cell and the first label of the cell otherwise |
| Outputs.ToUInt32 | src/output/vv.cpp:58 | the cast to Int_BinType gives a 32-bit value and keeps the values that fit |
| Outputs.FpTokensAppend | src/output/vtm.cpp:145-150 | writing two stretches of doubles one after the other writes their concatenation |
| Outputs.UIntTokensAppend | src/output/vtm.cpp:137-142 | writing two stretches of integers one after the other writes their concatenation |
| VolumeVectors.VolumeVectorFile | src/output/vv.cpp:47-66 | the file is the row count followed by the volumes in label order |
| VolumeVectors.VolumeVectorFileRoundTrip | src/output/vv.cpp:47-66 | reading a written volume vector gives back its row count and volumes |
| VolumeVectors.VolumeVector.constructor | src/output/vv.cpp:9-16 | rc is the row count as an Int_BinType and every volume starts at zero |
| VolumeVectors.VolumeVector.AddCell | src/output/vv.cpp:23-27 | only the entry of label l grows, by volume; the assert on 1 <= label <= rc is the precondition |
| VolumeVectors.VolumeVector.Finalize | src/output/vv.cpp:29-45 | without MPI every volume stays as it is |
| VolumeVectors.VolumeVector.Write | src/output/vv.cpp:47-66 | write produces the row count and then the rc volumes in label order |
| VolumeTrackingMatrices.PrefixMonotone | src/output/vtm.cpp:113-116 | ROW_INDEX never decreases |
| VolumeTrackingMatrices.RowIndex | src/output/vtm.cpp:113-116 | row index entry i is the number of entries in the first i + 1 rows |
| VolumeTrackingMatrices.AllPrefix | src/output/vtm.cpp:137-150 | the columns and values of the first i rows are the start of those of the first j rows |
| VolumeTrackingMatrices.MatrixFileCounts | src/output/vtm.cpp:124-132 | the file holds 2 + rc + 2 NNZ values, NNZ second and the running entry count at position 2 + i |
| VolumeTrackingMatrices.MatrixFileRow | src/output/vtm.cpp:110-150 | the labels and values of row i sit between ROW_INDEX[i] and ROW_INDEX[i + 1] in the column and value stretches: the file can be read back row by row |
| VolumeTrackingMatrices.TimeLogAppend | src/output/vtm.cpp:156-178 | appending a record to a well-formed log adds exactly that record at its end |
| VolumeTrackingMatrices.VolumeTrackingMatrix.constructor | src/output/vtm.cpp:11-16 | rowCount empty rows |
| VolumeTrackingMatrices.VolumeTrackingMatrix.AddCell | src/output/vtm.cpp:23-31 | only row l - 1 changes, to row + volume * s; the assert on 1 <= label <= rc is the precondition |
| VolumeTrackingMatrices.VolumeTrackingMatrix.Finalize | src/output/vtm.cpp:33-38 | label 0 is removed from every row and nothing else changes |
| VolumeTrackingMatrices.VolumeTrackingMatrix.Write | src/output/vtm.cpp:103-154 | write produces the matrix file of the rows |
| VolumeTrackingMatrices.VolumeTrackingMatrix.WriteToLog | src/output/vtm.cpp:156-178 | the record (t_num, rc, time) is appended to the log, and a well-formed log gains exactly that record |
| VolumeTrackingMatrices.WriteColumns | src/output/vtm.cpp:138-141 | the inner loop writes one row's labels in order |
| VolumeTrackingMatrices.WriteValues | src/output/vtm.cpp:146-149 | the inner loop writes one row's values in order |
| VolumeTrackingMatrices.WrapSum | src/output/vtm.cpp:115 | summing in 32-bit unsigned wraps at the end as it wraps after each step |
| VolumeTrackingMatrices.RowIndexOf | src/output/vtm.cpp:111-116 | ROW_INDEX[k] is the number of entries in the first k rows, wrapped to 32 bits |
| VolumeTrackingMatrices.SetNextIndex | src/output/vtm.cpp:115 | one pass sets ROW_INDEX[i + 1] from ROW_INDEX[i] and the size of row i |
| VolumeTrackingMatrices.WriteAllColumns | src/output/vtm.cpp:137-142 | the column loop writes the labels of every row, row by row |
| VolumeTrackingMatrices.WriteAllValues | src/output/vtm.cpp:145-150 | the value loop writes the values of every row, row by row |
| AsciiLogs.AddCellTo | src/output/asciilog.cpp:17-27 | the maxima never decrease and cover the new cell, minValue never increases and covers it, and maxLabel and maxNNZ stay attained |
| AsciiLogs.AccumulateMeaning | src/output/asciilog.cpp:9-27 | after every cell the maxima bound and the minimum undercuts every cell, maxLabel and maxNNZ are 0 or attained, and the volumes are the sums of dV sum(s) and dV f |
| AsciiLogs.ASCIILog.constructor | src/output/asciilog.cpp:9-15 | every aggregate starts at zero except minValue, the largest finite double |
| AsciiLogs.ASCIILog.AddCell | src/output/asciilog.cpp:17-27 | the aggregates take in one more cell; the maxima never decrease and minValue never increases |
| ElaOutput.DigitChar | src/ELA_Output.cpp:15 | the character of a digit is a digit denoting it |
| ElaOutput.DecimalDigits | src/ELA_Output.cpp:15 | to_string of a non-negative number is a non-empty string of digits |
| ElaOutput.DecimalRoundTrip | src/ELA_Output.cpp:15 | the digits of x read back as x |
| ElaOutput.DecimalLength | src/ELA_Output.cpp:18 | x has at most k digits exactly when x < 10^k |
| ElaOutput.LeadingZeros | src/ELA_Output.cpp:18 | padding zeros do not change the number |
| ElaOutput.PaddedFileNameShape | src/ELA_Output.cpp:13-30 | a name exists exactly for indices from -99999 to 999999; it is folder, "/", prefix, six characters, "." and extension, and for a non-negative index the six characters are digits reading back as the index |
| ElaOutput.PaddedFileNameInjective | src/ELA_Output.cpp:13-30 | two non-negative indices with the same name are equal |
| ElaOutput.OutputNamesDistinct | src/ELA_Output.cpp:13-42 | the four kinds of output file never share a name in one folder, and different non-negative indices give different files |
| ElaOutput.MaxElement | src/ELA_Output.cpp:54 | the value found is an element of the range and no element is larger |
| ElaOutput.VolumesMeaning | src/ELA_Output.cpp:64-70 | entry l - 1 after m cells is the sum of (1 - f) dV over the first m cells labelled l |
| ElaOutput.VolumeVectorMeaning | src/ELA_Output.cpp:64-70 | every entry of the volume vector is the volume of its blob |
| ElaOutput.AddVolume | src/ELA_Output.cpp:67-69 | one pass of the loop adds cell m's volume to its label's entry, unless the label is 0 or f is 1 |
| ElaOutput.IntegrateVolumes | src/ELA_Output.cpp:64-70 | the loop visits every cell |
| ElaOutput.BuildVolumes | src/ELA_Output.cpp:54-73 | the vector has maxLabel entries holding the blob volumes |
| ElaOutput.WriteV | src/ELA_Output.cpp:44-77 | the written file is the largest label followed by the volume of every blob in label order, under the getNameVVFileName name, or nothing when the name cannot be built |
| ElaOutput.RowsMeaning | src/ELA_Output.cpp:100-106 | row l - 1 stays sorted and holds, for every column c, the sum of s_c dV over the cells of blob l |
| ElaOutput.FinalizedMeaning | src/ELA_Output.cpp:109 | after finalize a row stays sorted, has no column 0 and holds q_lc in every other column c |
| ElaOutput.MatrixMeaning | src/ELA_Output.cpp:100-109 | every finalized row has no column 0 and holds q_lc in every other column c |
| ElaOutput.AddTransfer | src/ELA_Output.cpp:103-105 | one pass of the loop adds dV s to the row of a labelled cell |
| ElaOutput.IntegrateRows | src/ELA_Output.cpp:100-106 | the loop visits every cell |
| ElaOutput.BuildMatrix | src/ELA_Output.cpp:89-109 | the matrix has maxLabel rows, finalized, holding the transfers |
| ElaOutput.WriteVTM | src/ELA_Output.cpp:79-116 | the written matrix has the largest label as row count, no column 0 and q_lc in every other column, under the getNameVTMFileName name; the time log gains (t_num, row count, time); nothing is written when the name cannot be built |

## Left out

- MPI is not part of this model. That covers `src/domain/mpidomain.cpp`, the ghost updates in `ELA_SolverAdvectLabels` under `ELA_USE_MPI`, the reductions in the `finalize` of the volume vector, the tracking matrix and the ASCII log, and the rank checks in `write`. Only the serial builds are modelled. `Compression.TransferSlice` stands for one ghost exchange between two slices in one address space.
- Domains.Domain.GetGhost, Domains.Domain.GetEdge: slice the intended i+ layer at n_i (ghost) and n_i - 1 (edge), not the `nj` / `nj - 1` written at src/domain/domain.cpp:31 and :57; the as-written bounds are kept as Domains.GhostBoundsAsWritten / Domains.EdgeBoundsAsWritten (see Findings)
- The Fortran entry points, `ELA.cpp` and `ELA_DeInit` are not part of this model. `ELA_DeInit` only frees memory, which Dafny does not model.
- The `F_STYLE` axis order is not modelled. Fields, iterators, wrappers and the row loops of `ELA_SolverAdvectLabels` follow the C order only.
- Files are sequences of tokens, not bytes. The model does not capture opening, truncating or appending on disk, `sizeof`, byte order or the header's in-memory layout; the header is two bytes with byte 0 the low one. A read past the end of a checkpoint, or a token of the wrong kind, is the error `Truncated`. The source reads on without checking.
- Floating point is modelled as exact real arithmetic, so `fma` has no rounding and there are no NaNs or infinities. `containsNaN` and the `std::isfinite` assertions are left out.
- `Sparse.Normalize`: does not model the subnormal guard of `normalize`, because reals have no subnormals. The guard is `abs(sum / total) < numeric_limits<double>::min()`; only `total == 0` and `sum == 0` empty the vector here.
- `Sparse.MakeNormalized`: does not model the same subnormal guard of the `NormalizedSVector` constructor, for the same reason.
- `Advection.IsNormal`: `std::isnormal` is modelled as a magnitude between the smallest positive normal double and the largest finite double, since reals are never NaN or infinite.
- `ELA_SolverClearDilation` does nothing in the source and is not modelled.
- `ASCIILog::write` (text formatting through `snprintf`) and `ELA_OutputLog` are not part of this model. `ASCIILog::finalize` is an MPI reduction only.
- `Compression.GetCompressedSize`: counts elements, not bytes; the source multiplies the count by `sizeof(Element)`.
- `Checkpoint.LoadCheckpoint`: when the file ends or a cell aborts part-way through the cells, the cells already stored are not specified; only the status is.
- `Checkpoint.LoadVersion1`: the same holds for a failure part-way through the cells.
- `Checkpoint.ReadCell`: an unsorted run read from a file trips the `assert` of the buffer constructor; this is modelled as the outcome `Aborted` rather than a crash.
- `ElaOutput.WriteV`: requires that every host label is non-negative and that the field has at least one cell. A negative label wraps to a huge `Int_BinType` that fails the assertion in `addCell`. An empty field makes `std::max_element` return the end iterator, which is then dereferenced.
- `ElaOutput.WriteVTM`: requires the same, plus `0 <= t_num`, because converting a negative `t_num` to `Int_BinType` is undefined behaviour.
- `VolumeTrackingMatrices.VolumeTrackingMatrix.WriteToLog`: takes `t_num` as an integer in [0, 2^32). The source passes a `double` and converts it to `Int_BinType`.
- `VolumeTrackingMatrices.VolumeTrackingMatrix.constructor`: takes a non-negative row count. A negative `int` would make the source's array allocation fail.
- `VolumeVectors.VolumeVector.AddCell`: the assertion `0 < label <= rc` is a precondition, not a crash. The same holds for `VolumeTrackingMatrices.VolumeTrackingMatrix.AddCell`.
- Names the source takes as `const char*` are strings, and a length error when building a name is the outcome `LengthError`. Writing a file is returning its name and its tokens.

## Findings

| source | as written | input that shows it | evidently intended | confidence | as-written member | corrected member |
|---|---|---|---|---|---|---|
| src/domain/domain.cpp:31 | `getGhost(iPlus)` slices i from `nj` to `nj + 1` | n = (2, 3, 1): the slice starts at i = 3, past the one ghost layer at i = 2, so it leaves the array | i from `ni` to `ni + 1`, the layer just past the i+ face | not executed | Domains.GhostBoundsAsWritten (shown by Domains.IPlusAsWrittenMisplaced, Domains.AsWrittenAgreesOnlyWhenSquare) | Domains.GhostBounds, used by Domains.Domain.GetGhost (proved in Domains.GhostAndEdgeAreLayers, Domains.LayerSliceValid, Domains.LayerAliases) |
| src/domain/domain.cpp:57 | `getEdge(iPlus)` slices i from `nj - 1` to `nj` | n = (2, 3, 1): the slice is at i = 2, the ghost layer, not the last interior layer i = 1 | i from `ni - 1` to `ni`, the last interior layer on the i+ side | not executed | Domains.EdgeBoundsAsWritten (shown by Domains.IPlusAsWrittenMisplaced, Domains.AsWrittenAgreesOnlyWhenSquare) | Domains.EdgeBounds, used by Domains.Domain.GetEdge (proved in Domains.GhostAndEdgeAreLayers, Domains.LayerSliceValid, Domains.LayerAliases) |
