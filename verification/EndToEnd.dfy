// The whole way from a linalg.generic to memory: what an accepted, serialized and
// dispatched elementwise op stores is what the linalg op computes.
module EndToEnd {
  import opened Buffers
  import opened Columns
  import opened Commands
  import opened Compile
  import opened Device
  import opened Executables
  import opened Jobs
  import opened Linalg
  import opened Memory
  import opened Offsets
  import opened Status
  import opened Tensors
  import opened Words

  // What the tables of Bitstreams.h do, as their comments state it: the adder pairs
  // columns 0 and 1 and leaves by column 1, relu is on column 0.
  ghost predicate Adds(bitstream: seq<u32>, semantics: Semantics) {
    forall ins: seq<seq<u32>>, k: nat :: |ins| == COLUMN_COUNT && k < |ins[0]| && k < |ins[1]|
      ==> semantics(bitstream, ins, 1, k) == (ins[0][k] as int + ins[1][k]) % 0x1_0000_0000
  }

  ghost predicate Relus(bitstream: seq<u32>, semantics: Semantics) {
    forall ins: seq<seq<u32>>, k: nat :: |ins| == COLUMN_COUNT && k < |ins[0]|
      ==> semantics(bitstream, ins, 0, k) == Relu(ins[0][k])
  }

  ghost predicate TablesRun(bits: Bitstreams, semantics: Semantics) {
    Adds(bits.add, semantics) && Relus(bits.relu, semantics)
  }

  function SomeWord(bits: Bitstreams, bitstream: seq<u32>, ins: seq<seq<u32>>, c: nat, k: nat): (word: u32) {
    if |ins| != COLUMN_COUNT then 7
    else if bitstream == bits.add && c == 1 && k < |ins[0]| && k < |ins[1]| then (ins[0][k] as int + ins[1][k]) % 0x1_0000_0000
    else if bitstream == bits.relu && c == 0 && k < |ins[0]| then Relu(ins[0][k])
    else 7
  }

  // Two different tables can do this, and then not with the tables swapped.
  lemma TablesDiffer(bits: Bitstreams) returns (semantics: Semantics)
    requires bits.add != bits.relu
    ensures TablesRun(bits, semantics)
    ensures !Adds(bits.relu, semantics) && !Relus(bits.add, semantics)
  {
    semantics := (bitstream: seq<u32>, ins: seq<seq<u32>>, c: nat, k: nat) => SomeWord(bits, bitstream, ins, c, k);
    var ins: seq<seq<u32>> := [[0], [0], [], []];
    assert semantics(bits.relu, ins, 1, 0) == 7 && ins[0][0] as int + ins[1][0] == 0;
    assert semantics(bits.add, ins, 0, 0) == 7 != Relu(ins[0][0]);
  }

  // The kernel the dispatch starts holds the bitstream of its export.
  ghost predicate KernelLoaded(d: Dispatch, loaded: map<nat, seq<u32>>) {
    && d.function_ < |d.exports|
    && d.exports[d.function_].kernel.id in loaded
    && loaded[d.exports[d.function_].kernel.id] == d.exports[d.function_].def.bitstream
  }

  // Kernel `id` does what an op of this kind means.
  ghost predicate RunsKernel(kind: Kind, kernels: Kernels, id: nat) {
    match kind
    case AddKind =>
      forall ins: seq<seq<u32>>, k: nat :: |ins| == COLUMN_COUNT && k < |ins[0]| && k < |ins[1]|
        ==> kernels.Word(id, ins, 1, k) == (ins[0][k] as int + ins[1][k]) % 0x1_0000_0000
    case ReluKind =>
      forall ins: seq<seq<u32>>, k: nat :: |ins| == COLUMN_COUNT && k < |ins[0]|
        ==> kernels.Word(id, ins, 0, k) == Relu(ins[0][k])
    case MatvecKind => false
  }

  // A kernel loaded with the table the serializer picks for an op runs the op.
  lemma SerializedKernelRuns(g: Generic, op: KernelOp, m: Materialized, bits: Bitstreams, d: Dispatch, sizes: Shape,
                             kernels: Kernels)
    requires IsDispatchOf(g, op, m, bits, d, sizes)
    requires TablesRun(bits, kernels.semantics) && KernelLoaded(d, kernels.loaded)
    ensures RunsKernel(op.kind, kernels, d.exports[d.function_].kernel.id)
  {
    hide GoodAccess, Analyzable, IsExport, Relu;
  }

  // An access the driver can make good: a static slice that is contiguous in its
  // tensor, in a binding of the dispatch, at an offset whose halves, if it has any,
  // are 64 bits wide.
  ghost predicate GoodAccess(a: Access, d: Dispatch, sizes: Shape) {
    && Matches(a) && |a.shape| == |a.offsets| == |a.strides|
    && a.sizes == Some(sizes) && |a.shape| == |sizes| && SamePositions(sizes, a.shape)
    && a.binding < |d.bindings| && a.binding < U32 && d.bindings[a.binding].buffer.Some?
    && |d.constants| < 0x3FFF_FFFF && InLayout(a.byteOffset, |d.constants|)
    && (HalvesOf(a.byteOffset).Some? ==> HalvesOf(a.byteOffset).value.width >= 64)
  }

  // The byte address of the access in the dispatch, by what the IR computes; zero
  // when the IR has no value for it.
  function AccessByte(a: Access, d: Dispatch, unknown: nat -> nat): (r: nat) {
    if a.binding >= |d.bindings| || d.bindings[a.binding].buffer.None? then 0
    else
      var ref := d.bindings[a.binding];
      var value := OffsetValue(a.byteOffset, d.constants, unknown);
      if value.None? then 0
      else 4 * ref.buffer.value.baseWords + ref.buffer.value.byteOffset + ref.offset + value.value
  }

  // The value of an offset or stride; `unknown` also gives the runtime ones.
  function FoldValue(f: Fold, unknown: nat -> nat): (x: int) {
    match f
    case Known(value) => value
    case Runtime(id) => unknown(id)
  }

  // Where element `index` of the slice is along dimension k of the tensor.
  function Along(a: Access, unknown: nat -> nat, index: Index, k: nat): (x: int)
    requires k < |index| == |a.offsets| == |a.strides|
  {
    FoldValue(a.offsets[k], unknown) + index[k] * FoldValue(a.strides[k], unknown)
  }

  predicate OfTensor(a: Access, unknown: nat -> nat, index: Index) {
    && |index| == |a.shape| == |a.offsets| == |a.strides|
    && forall k :: 0 <= k < |index| ==> Along(a, unknown, index, k) >= 0
  }

  // The element of the accessed slice at this index, zero outside memory.
  function Element(v: Flat, a: Access, d: Dispatch, unknown: nat -> nat, index: Index): (x: u32) {
    if !OfTensor(a, unknown, index) then 0
    else
      var at := seq(|index|, k requires 0 <= k < |index| => Along(a, unknown, index, k) as nat);
      var w := AccessByte(a, d, unknown) / 4 + FlatIndex(a.shape, at);
      if w / 16 < |v| then WordAt(v, w) else 0
  }

  // Element `index` of a slice is the tensor's at `at`, offset plus index times stride
  // along every dimension, in the words of the binding from its byte offset on.
  lemma ElementMeans(v: Flat, a: Access, d: Dispatch, unknown: nat -> nat, index: Index, at: Index, ref: BufferRef, offset: nat)
    requires |at| == |index| == |a.shape| == |a.offsets| == |a.strides|
    requires forall k :: 0 <= k < |at| ==>
               at[k] == (match a.offsets[k] case Known(x) => x case Runtime(id) => unknown(id))
                        + index[k] * (match a.strides[k] case Known(x) => x case Runtime(id) => unknown(id))
    requires a.binding < |d.bindings| && d.bindings[a.binding] == ref && ref.buffer.Some?
    requires OffsetValue(a.byteOffset, d.constants, unknown) == Some(offset)
    ensures var byte := 4 * ref.buffer.value.baseWords + ref.buffer.value.byteOffset + ref.offset + offset;
            var w := byte / 4 + FlatIndex(a.shape, at);
            w / 16 < |v| ==> Element(v, a, d, unknown, index) == WordAt(v, w)
  {
    hide FlatIndex, WordAt, OffsetValue;
    assert forall k :: 0 <= k < |at| ==> at[k] == Along(a, unknown, index, k);
    assert OfTensor(a, unknown, index);
    assert at == seq(|index|, k requires 0 <= k < |index| => Along(a, unknown, index, k) as nat);
  }

  // A slice that covers its tensor has the tensor's elements.
  lemma ElementIsTensors(v: Flat, a: Access, d: Dispatch, unknown: nat -> nat, index: Index)
    requires CoversWholeTensor(a) && |index| == |a.shape| == |a.offsets| == |a.strides|
    ensures Element(v, a, d, unknown, index)
            == var w := AccessByte(a, d, unknown) / 4 + FlatIndex(a.shape, index);
               if w / 16 < |v| then WordAt(v, w) else 0
  {
    hide AccessByte, FlatIndex, WordAt;
    forall k | 0 <= k < |index|
      ensures Along(a, unknown, index, k) == index[k]
    {
      assert a.offsets[k] in a.offsets && a.strides[k] in a.strides;
    }
    assert index == seq(|index|, k requires 0 <= k < |index| => Along(a, unknown, index, k) as nat);
  }

  // The column of an access starts at the address the IR gives the access.
  lemma ColumnIsAccess(a: Access, d: Dispatch, owned: set<nat>, sizes: Shape, isInput: bool, unknown: nat -> nat)
    requires GoodAccess(a, d, sizes) && 0 < Elements(sizes) <= MAX_COLUMN_WORDS
    requires var def := ColumnOf(BindingOf(a), if isInput then 1 else 0);
             SafeColumn(def, isInput, d.constants, d.bindings, owned)
             && Resolve(def, isInput, d.constants, d.bindings).Success?
    ensures OffsetValue(a.byteOffset, d.constants, unknown).Some?
    ensures var def := ColumnOf(BindingOf(a), if isInput then 1 else 0);
            var stream := ToStream(Resolve(def, isInput, d.constants, d.bindings).value, isInput);
            && 4 * stream.offset == AccessByte(a, d, unknown)
            && stream.count == Elements(sizes) && stream.stride == 1
  {
    hide Resolve, MatchOffset, HalvesOf, Eval, IsFootprint, Wrap32, Wrap64, OwnsBuffer, SamePositions, ExactSpan;
    var def := ColumnOf(BindingOf(a), if isInput then 1 else 0);
    NoWrap32(a.binding);
    assert def.binding == a.binding;
    OffsetTranslationIsSound(a.byteOffset, d.constants, unknown);
    Footprint(def, isInput, d.constants, d.bindings, 0);
    StartsAt(def, isInput, d.constants, d.bindings[def.binding], Resolve(def, isInput, d.constants, d.bindings).value);
    NoWrap64(ExactOffset(def, d.constants));
  }

  lemma StartsAt(def: ColumnDef, isInput: bool, constants: seq<u32>, ref: BufferRef, column: Column)
    requires ref.buffer.Some? && Present(def.offsetConstants, constants)
    requires IsFootprint(def, isInput, constants, ref, column, 0)
    ensures 4 * column.wordsFromBase
            == 4 * ref.buffer.value.baseWords + ref.buffer.value.byteOffset + ref.offset + ExactOffset(def, constants)
    ensures column.wordCount == def.wordCount && column.stride == (if isInput then def.stride else 0)
  {
  }

  // A dispatch of the export compiled from `op`, which stands for `g`.
  ghost predicate IsDispatchOf(g: Generic, op: KernelOp, m: Materialized, bits: Bitstreams, d: Dispatch, sizes: Shape) {
    && d.function_ < |d.exports|
    && Convert(g).Some? && op.kind == Convert(g).value.0 && |op.operands| == Convert(g).value.1
    && Analyzable([op])
    && m.kind == op.kind && |m.loads| == |op.operands| && m.store == BindingOf(op.uses[0].access)
    && (forall i :: 0 <= i < |m.loads| ==> OperandAccess(op, i) && m.loads[i] == BindingOf(op.operands[i].access))
    && Exportable(m, bits)
    && d.exports[d.function_].def.bitstream == KernelOf(m.kind, bits).bitstream
    && IsExport(m, bits, d.exports[d.function_].def.inputs, d.exports[d.function_].def.outputs)
    && GoodAccess(op.uses[0].access, d, sizes)
    && forall i :: 0 <= i < |op.operands| ==> OperandAccess(op, i) && GoodAccess(op.operands[i].access, d, sizes)
  }

  predicate OperandAccess(op: KernelOp, i: nat)
    requires i < |op.operands|
  {
    op.operands[i].Load? && Matches(op.operands[i].access)
  }

  ghost predicate IsRowMajor(s: Stream, byte: nat, count: nat) {
    4 * s.offset == byte && s.count == count && s.stride == 1
  }

  // The dispatch reads the words of operand `i` in row-major order.
  lemma OperandStream(g: Generic, op: KernelOp, m: Materialized, bits: Bitstreams, d: Dispatch, sizes: Shape,
                      owned: set<nat>, unknown: nat -> nat, i: nat)
    requires IsDispatchOf(g, op, m, bits, d, sizes) && 0 < Elements(sizes) && i < |op.operands|
    requires SafeDispatch(d, owned) && Resolves(d)
    ensures OperandAccess(op, i) && GoodAccess(op.operands[i].access, d, sizes)
    ensures i < |KernelOf(m.kind, bits).inputColumns| && KernelOf(m.kind, bits).inputColumns[i] < COLUMN_COUNT
    ensures IsRowMajor(DispatchConf(d).inputs[KernelOf(m.kind, bits).inputColumns[i]],
                       AccessByte(op.operands[i].access, d, unknown), Elements(sizes))
  {
    hide Resolve, SafeColumn, MatchOffset, AccessByte, OffsetValue, InLayout, SamePositions, HalvesOf;
    var c := KernelOf(m.kind, bits).inputColumns[i];
    assert OperandAccess(op, i) && m.loads[i] in m.loads && c < COLUMN_COUNT;
    ColumnIsAccess(op.operands[i].access, d, owned, sizes, true, unknown);
  }

  lemma ResultStream(g: Generic, op: KernelOp, m: Materialized, bits: Bitstreams, d: Dispatch, sizes: Shape,
                     owned: set<nat>, unknown: nat -> nat)
    requires IsDispatchOf(g, op, m, bits, d, sizes) && 0 < Elements(sizes)
    requires SafeDispatch(d, owned) && Resolves(d)
    ensures IsRowMajor(DispatchConf(d).outputs[KernelOf(m.kind, bits).outputColumn],
                       AccessByte(op.uses[0].access, d, unknown), Elements(sizes))
  {
    hide Resolve, SafeColumn, MatchOffset, AccessByte, OffsetValue, InLayout, SamePositions, HalvesOf;
    ColumnIsAccess(op.uses[0].access, d, owned, sizes, false, unknown);
  }

  lemma OtherOutputsUnused(g: Generic, op: KernelOp, m: Materialized, bits: Bitstreams, d: Dispatch, sizes: Shape,
                           owned: set<nat>, c: nat)
    requires IsDispatchOf(g, op, m, bits, d, sizes) && c < COLUMN_COUNT && c != KernelOf(m.kind, bits).outputColumn
    requires SafeDispatch(d, owned) && Resolves(d)
    ensures DispatchConf(d).outputs[c].count == 0
  {
    var def := d.exports[d.function_].def;
    ColumnWordsSynced(def.outputs[c], false, d.constants, d.bindings, owned,
                      Resolve(def.outputs[c], false, d.constants, d.bindings).value);
  }

  // Every map of an operand the kernel takes is the map of the result, and the
  // result has `sizes` when the iteration runs to `bounds`.
  ghost predicate MapsAgree(g: Generic, op: KernelOp, sizes: Shape, bounds: Shape) {
    && |g.maps| == |g.inputs| + 1 && |op.operands| <= |g.inputs|
    && (forall i :: 0 <= i < |op.operands| ==> g.maps[i] == OutputMap(g))
    && |bounds| == |g.parallel| && Bounded(OutputMap(g), |bounds|) && ApplyMap(OutputMap(g), bounds) == sizes
  }

  function OutputMap(g: Generic): (m: AffineMap) {
    if |g.maps| > |g.inputs| then g.maps[|g.inputs|] else AffineMap([])
  }

  // For add the matcher has checked the maps: they are all the identity.
  lemma AddMapsAgree(g: Generic, op: KernelOp, bounds: Shape)
    requires MatchesAdd(g) && |g.maps| == 3 && |bounds| == |g.parallel| && |op.operands| == 2
    ensures MapsAgree(g, op, bounds, bounds)
  {
    assert g.maps[0] in g.maps && g.maps[1] in g.maps && g.maps[2] in g.maps;
    assert ApplyMap(IdentityMap(|bounds|), bounds) == bounds;
  }

  lemma IndexInSizes(g: Generic, sizes: Shape, bounds: Shape, index: Index, m: AffineMap)
    requires InShape(index, bounds) && Bounded(m, |bounds|) && ApplyMap(m, bounds) == sizes
    ensures InShape(ApplyMap(m, index), sizes)
    ensures FlatIndex(sizes, ApplyMap(m, index)) < Elements(sizes)
  {
    FlatIndexInRange(sizes, ApplyMap(m, index));
  }

  lemma ElementOfStream(v: Flat, a: Access, d: Dispatch, sizes: Shape, unknown: nat -> nat, at: Index, s: Stream,
                        owned: set<nat>)
    requires GoodAccess(a, d, sizes) && InShape(at, sizes)
    requires IsRowMajor(s, AccessByte(a, d, unknown), Elements(sizes))
    requires LinesExist(owned, |v|) && StreamOn(s, owned)
    ensures var k := FlatIndex(sizes, at);
            k < s.count && StreamWord(s, k) / 16 in owned && Element(v, a, d, unknown, at) == WordAt(v, StreamWord(s, k))
  {
    hide GoodAccess, AccessByte, FlatIndex, Elements, WordAt, IsRowMajor, StreamWord, Element, CoversWholeTensor;
    var k := FlatIndex(sizes, at);
    FlatIndexInRange(sizes, at);
    PositionInTensor(a, d, sizes, at);
    ElementIsTensors(v, a, d, unknown, at);
    RowMajorWord(s, AccessByte(a, d, unknown), Elements(sizes), k);
    assert StreamWord(s, k) / 16 in owned;
  }

  lemma PositionInTensor(a: Access, d: Dispatch, sizes: Shape, at: Index)
    requires GoodAccess(a, d, sizes) && InShape(at, sizes)
    ensures |at| == |a.shape| == |a.offsets| == |a.strides| && FlatIndex(a.shape, at) == FlatIndex(sizes, at)
    ensures CoversWholeTensor(a)
  {
    hide FlatIndex, InLayout, HalvesOf, CoversWholeTensor;
  }

  lemma RowMajorWord(s: Stream, byte: nat, count: nat, k: nat)
    requires IsRowMajor(s, byte, count) && k < count
    ensures k < s.count && StreamWord(s, k) == byte / 4 + k
  {
  }

  // Flat memory after the dispatch.
  ghost function After(v: Flat, d: Dispatch, kernels: Kernels, owned: set<nat>): (r: Flat)
    requires LinesExist(owned, |v|) && SafeDispatch(d, owned) && Resolves(d)
    ensures |r| == |v|
  {
    FlatStep(v, Run(d), kernels, owned)
  }

  // The word the dispatch leaves at an element of the result is the kernel's.
  lemma ResultWord(v: Flat, kernels: Kernels, g: Generic, op: KernelOp, m: Materialized, bits: Bitstreams,
                   d: Dispatch, sizes: Shape, owned: set<nat>, unknown: nat -> nat, at: Index)
    requires IsDispatchOf(g, op, m, bits, d, sizes) && InShape(at, sizes)
    requires LinesExist(owned, |v|) && SafeDispatch(d, owned) && Resolves(d) && ConfOn(DispatchConf(d), owned)
    ensures Element(After(v, d, kernels, owned), op.uses[0].access, d, unknown, at)
            == kernels.Word(d.exports[d.function_].kernel.id, ReadStreams(v, DispatchConf(d).inputs, owned),
                       KernelOf(m.kind, bits).outputColumn, FlatIndex(sizes, at))
  {
    hide Element, FlatIndex, GoodAccess, AccessByte, SafeDispatch, DispatchConf, Resolve, DefsResolve, StreamOn, ReadStream,
      FlatJob, WordAt, IsExport, Exportable;
    var conf, column := DispatchConf(d), KernelOf(m.kind, bits).outputColumn;
    FlatIndexInRange(sizes, at);
    ResultStream(g, op, m, bits, d, sizes, owned, unknown);
    forall c | 0 <= c < |conf.outputs| && c != column
      ensures conf.outputs[c].count == 0
    {
      OtherOutputsUnused(g, op, m, bits, d, sizes, owned, c);
    }
    SingleOutput(v, kernels, d.exports[d.function_].kernel.id, conf, owned, column);
    ElementOfStream(After(v, d, kernels, owned), op.uses[0].access, d, sizes, unknown, at, conf.outputs[column], owned);
  }

  // Word k of input column c is x.
  predicate HasWord(ins: seq<seq<u32>>, c: nat, k: nat, x: u32) {
    |ins| == COLUMN_COUNT && c < COLUMN_COUNT && k < |ins[c]| && ins[c][k] == x
  }

  // The word the kernel reads for an element of operand `i` is that element.
  lemma OperandWord(v: Flat, g: Generic, op: KernelOp, m: Materialized, bits: Bitstreams,
                    d: Dispatch, sizes: Shape, owned: set<nat>, unknown: nat -> nat, at: Index, i: nat)
    requires IsDispatchOf(g, op, m, bits, d, sizes) && InShape(at, sizes) && i < |op.operands|
    requires LinesExist(owned, |v|) && SafeDispatch(d, owned) && Resolves(d) && ConfOn(DispatchConf(d), owned)
    ensures OperandAccess(op, i) && i < |KernelOf(m.kind, bits).inputColumns|
    ensures HasWord(ReadStreams(v, DispatchConf(d).inputs, owned), KernelOf(m.kind, bits).inputColumns[i],
                    FlatIndex(sizes, at), Element(v, op.operands[i].access, d, unknown, at))
  {
    hide Element, FlatIndex, GoodAccess, AccessByte, SafeDispatch, DispatchConf, Resolves, StreamOn, ReadStream,
      WordAt, KernelOf, IsRowMajor, IsExport;
    FlatIndexInRange(sizes, at);
    OperandStream(g, op, m, bits, d, sizes, owned, unknown, i);
    var s := DispatchConf(d).inputs[KernelOf(m.kind, bits).inputColumns[i]];
    assert s in DispatchConf(d).inputs;
    ElementOfStream(v, op.operands[i].access, d, sizes, unknown, at, s, owned);
    StreamElement(v, s, owned, FlatIndex(sizes, at));
  }

  // `args` are payload arguments of iteration `index`: the elements of the operands
  // the kernel takes, and anything for the others.
  ghost predicate ReadsElements(v: Flat, g: Generic, op: KernelOp, d: Dispatch, unknown: nat -> nat, index: Index,
                                args: seq<u32>)
    requires |op.operands| <= |g.inputs|
  {
    && ElementArgs(g, args)
    && forall i :: 0 <= i < |op.operands| ==> OperandElement(v, op, i, d, unknown, ApplyMap(OutputMap(g), index), args[i])
  }

  ghost predicate OperandElement(v: Flat, op: KernelOp, i: nat, d: Dispatch, unknown: nat -> nat, at: Index, x: u32)
    requires i < |op.operands|
  {
    OperandAccess(op, i) && Element(v, op.operands[i].access, d, unknown, at) == x
  }

  // End to end, on flat memory: after the dispatch, the word where the store puts
  // element `index` of its result is what the payload of the linalg op yields for
  // the elements it reads.
  lemma StoresWhatLinalgComputes(v: Flat, kernels: Kernels, g: Generic, op: KernelOp, m: Materialized, bits: Bitstreams,
                                 d: Dispatch, sizes: Shape, owned: set<nat>, unknown: nat -> nat, other: OtherMeaning,
                                 bounds: Shape, index: Index, args: seq<u32>)
    requires IsDispatchOf(g, op, m, bits, d, sizes) && MapsAgree(g, op, sizes, bounds) && InShape(index, bounds)
    requires LinesExist(owned, |v|) && SafeDispatch(d, owned) && Resolves(d)
    requires TablesRun(bits, kernels.semantics) && KernelLoaded(d, kernels.loaded)
    requires ReadsElements(v, g, op, d, unknown, index, args)
    ensures Element(After(v, d, kernels, owned), op.uses[0].access, d, unknown, ApplyMap(OutputMap(g), index))
            == Payload(g, args, other)
  {
    hide Element, FlatIndex, GoodAccess, SafeDispatch, Resolves, After, ReadStreams, DispatchConf, Payload, IsExport,
      TablesRun, KernelLoaded;
    var at := ApplyMap(OutputMap(g), index);
    IndexInSizes(g, sizes, bounds, index, OutputMap(g));
    DispatchOwned(d, owned);
    SerializedKernelRuns(g, op, m, bits, d, sizes, kernels);
    ResultWord(v, kernels, g, op, m, bits, d, sizes, owned, unknown, at);
    OperandWord(v, g, op, m, bits, d, sizes, owned, unknown, at, 0);
    if op.kind.AddKind? {
      OperandWord(v, g, op, m, bits, d, sizes, owned, unknown, at, 1);
      AddMeaning(g, args, other);
    } else {
      ReluMeaning(g, args, other);
    }
  }

  // ---- A dispatch the theorem is about ----

  // A relu of one element in binding 0, stored in binding 1.
  const ONE_RELU: Generic :=
    Generic([Input(true, true, None)], 1, true, [true], [AffineMap([0]), AffineMap([0])],
            [MaxSI(BlockArg(0), Literal(0))], [OpResult(0)])

  function OneElement(binding: nat): (a: Access) {
    Access(binding, None, [1], [Known(0)], Some([1]), [Known(1)])
  }

  function OneLine(line: nat): (r: BufferRef) {
    BufferRef(Some(Buffer(true, 16 * line, 64, 0, 64)), 0, None)
  }

  function OneReluDispatch(bits: Bitstreams): (d: Dispatch) {
    var inputs := [ColumnDef(0, 0, [], 1, 1), UNUSED, UNUSED, UNUSED];
    var outputs := [ColumnDef(1, 0, [], 1, 0), UNUSED, UNUSED, UNUSED];
    Dispatch([Export(ExportDef(Some("relu"), bits.relu, inputs, outputs, 0, 2), Handle(true, 0))], 0, [],
             [OneLine(0), OneLine(1)])
  }

  function OneReluOp(): (op: KernelOp) {
    KernelOp(ReluKind, true, [Load(OneElement(0))], [Store(OneElement(1))])
  }

  lemma OneElementMatches(binding: nat)
    ensures Matches(OneElement(binding))
    ensures BindingOf(OneElement(binding)) == BindingOp(Wrap32(binding), Offset([], None), Some([1]))
  {
  }

  // Every condition of the theorem holds of it.
  lemma OneReluIsCovered(bits: Bitstreams)
    ensures Matches(OneElement(0)) && Matches(OneElement(1))
    ensures var op, d := OneReluOp(), OneReluDispatch(bits);
            var m := Materialized(ReluKind, [BindingOf(OneElement(0))], BindingOf(OneElement(1)));
            && IsDispatchOf(ONE_RELU, op, m, bits, d, [1]) && MapsAgree(ONE_RELU, op, [1], [1])
            && SafeDispatch(d, {0, 1}) && Resolves(d) && KernelLoaded(d, map[0 := bits.relu])
  {
    hide SafeColumn, Resolve, ColumnOf, Readable, IsDispatchOf;
    OneElementMatches(0);
    OneElementMatches(1);
    OneReluIsSafe(bits);
    OneReluIsItsDispatch(bits);
    assert ApplyMap(AffineMap([0]), [1]) == [1];
  }

  lemma OneReluIsSafe(bits: Bitstreams)
    ensures SafeDispatch(OneReluDispatch(bits), {0, 1}) && Resolves(OneReluDispatch(bits))
  {
    hide SafeColumn, Resolve;
    var d, owned := OneReluDispatch(bits), {0, 1};
    var def := d.exports[0].def;
    forall c | 0 <= c < COLUMN_COUNT
      ensures SafeColumn(def.inputs[c], true, [], d.bindings, owned)
      ensures SafeColumn(def.outputs[c], false, [], d.bindings, owned)
      ensures Resolve(def.inputs[c], true, [], d.bindings).Success?
      ensures Resolve(def.outputs[c], false, [], d.bindings).Success?
    {
      UnusedResolves(true, d.bindings, owned);
      UnusedResolves(false, d.bindings, owned);
      OneWordResolves(0, true, d.bindings, owned);
      OneWordResolves(1, false, d.bindings, owned);
    }
  }

  lemma OneReluIsItsDispatch(bits: Bitstreams)
    ensures Matches(OneElement(0)) && Matches(OneElement(1))
    ensures var m := Materialized(ReluKind, [BindingOf(OneElement(0))], BindingOf(OneElement(1)));
            IsDispatchOf(ONE_RELU, OneReluOp(), m, bits, OneReluDispatch(bits), [1])
  {
    hide Matches, BindingOf, FlatIndex, MatchOffset, HalvesOf, GoodAccess;
    OneElementMatches(0);
    OneElementMatches(1);
    OneElementIsGood(bits, 0);
    OneElementIsGood(bits, 1);
    OneIsOne();
  }

  lemma OneIsOne()
    ensures Elements([1]) == 1
  {
    assert [1][1..] == [];
  }

  lemma OneElementIsGood(bits: Bitstreams, binding: nat)
    requires binding < 2
    ensures GoodAccess(OneElement(binding), OneReluDispatch(bits), [1])
  {
    OneElementMatches(binding);
    hide Matches, FlatIndex;
  }

  lemma UnusedResolves(isInput: bool, bindings: seq<BufferRef>, owned: set<nat>)
    ensures SafeColumn(UNUSED, isInput, [], bindings, owned) && Resolve(UNUSED, isInput, [], bindings).Success?
  {
  }

  lemma OneWordResolves(binding: u32, isInput: bool, bindings: seq<BufferRef>, owned: set<nat>)
    requires bindings == [OneLine(0), OneLine(1)] && binding in owned && binding < 2
    ensures var def := ColumnDef(binding, 0, [], 1, if isInput then 1 else 0);
            SafeColumn(def, isInput, [], bindings, owned) && Resolve(def, isInput, [], bindings).Success?
  {
    hide SafeColumn, Resolve;
    var def := ColumnDef(binding, 0, [], 1, if isInput then 1 else 0);
    OneWordIsSafe(def, isInput, bindings, owned);
    OneWordIsPlaced(def, isInput, bindings);
  }

  // A column of one word at the start of line `def.binding`.
  predicate IsOneWord(def: ColumnDef, bindings: seq<BufferRef>) {
    && def.binding < 2 && def.wordCount == 1 && def.stride <= 1 && def.byteOffset == 0 && def.offsetConstants == []
    && bindings == [OneLine(0), OneLine(1)]
  }

  lemma OneWordIsSafe(def: ColumnDef, isInput: bool, bindings: seq<BufferRef>, owned: set<nat>)
    requires IsOneWord(def, bindings) && def.binding in owned
    ensures SafeColumn(def, isInput, [], bindings, owned)
  {
    hide Wrap32, Wrap64, Resolve, OwnsBuffer, SpanBytes, ExactSpan, ValidRef, ConstantSum;
    OneLineIsOwned(def.binding, owned);
    OneWordSpan(def, isInput);
    NoOffset(def);
  }

  lemma OneWordIsPlaced(def: ColumnDef, isInput: bool, bindings: seq<BufferRef>)
    requires IsOneWord(def, bindings)
    ensures Readable(def, []) && Resolve(def, isInput, [], bindings).Success?
  {
    hide Wrap32, Wrap64, Resolve, SpanBytes, ExactOffset, BoundLength, RuntimeOffset;
    OneLineIsOwned(def.binding, {def.binding});
    OneWordSpan(def, isInput);
    NoOffset(def);
    NoWrap64(0);
    NoWrap64(4);
    VerifiedColumnResolves(def, isInput, [], bindings, 2, 0);
  }

  lemma NoOffset(def: ColumnDef)
    requires def.byteOffset == 0 && def.offsetConstants == []
    ensures Readable(def, [])
    ensures !AnyMissing(def.offsetConstants, []) && ExactOffset(def, []) == 0 && RuntimeOffset(def, []) == 0
  {
    NoWrap64(0);
  }

  lemma OneWordSpan(def: ColumnDef, isInput: bool)
    requires def.wordCount == 1 && def.stride <= 1
    ensures SpanBytes(def, isInput) == 4 && ExactSpan(def, isInput) == 1
  {
    CompilerColumnsDoNotWrap(def, isInput);
    assert def.stride == 0 || def.stride == 1;
  }

  lemma OneLineIsOwned(line: nat, owned: set<nat>)
    requires line in owned && line < 2
    ensures OwnsBuffer(OneLine(line).buffer.value, owned) && ValidRef(OneLine(line)) && BoundLength(OneLine(line)) == 64
  {
    NoWrap64(64);
  }

  lemma StreamElement(v: Flat, s: Stream, lines: set<nat>, k: nat)
    requires LinesExist(lines, |v|) && StreamOn(s, lines) && k < s.count
    ensures StreamWord(s, k) / 16 < |v| && |ReadStream(v, s, lines)| == s.count
    ensures ReadStream(v, s, lines)[k] == WordAt(v, StreamWord(s, k))
  {
    assert StreamWord(s, k) / 16 in lines;
  }

  // The memory after computes the linalg op on the memory before, on every iteration.
  ghost predicate Computes(before: Flat, after: Flat, g: Generic, op: KernelOp, d: Dispatch, unknown: nat -> nat,
                           other: OtherMeaning, bounds: Shape)
    requires |g.yielded| > 0 && |op.operands| <= |g.inputs| && |op.uses| > 0 && op.uses[0].Store?
  {
    forall index: Index, args: seq<u32> :: InShape(index, bounds) && ReadsElements(before, g, op, d, unknown, index, args)
      ==> Element(after, op.uses[0].access, d, unknown, ApplyMap(OutputMap(g), index)) == Payload(g, args, other)
  }

  lemma ElementAgrees(v: Flat, w: Flat, a: Access, d: Dispatch, sizes: Shape, unknown: nat -> nat, at: Index,
                      s: Stream, owned: set<nat>)
    requires GoodAccess(a, d, sizes) && InShape(at, sizes) && AgreeOn(v, w, owned)
    requires IsRowMajor(s, AccessByte(a, d, unknown), Elements(sizes))
    requires LinesExist(owned, |v|) && StreamOn(s, owned)
    ensures Element(v, a, d, unknown, at) == Element(w, a, d, unknown, at)
  {
    ElementOfStream(v, a, d, sizes, unknown, at, s, owned);
    ElementOfStream(w, a, d, sizes, unknown, at, s, owned);
  }

  // The whole theorem on flat memory, and on any memory that agrees with it on the
  // lines of the buffers in use.
  lemma DispatchComputes(v: Flat, after: Flat, kernels: Kernels, g: Generic, op: KernelOp, m: Materialized, bits: Bitstreams,
                         d: Dispatch, sizes: Shape, owned: set<nat>, unknown: nat -> nat, other: OtherMeaning, bounds: Shape)
    requires IsDispatchOf(g, op, m, bits, d, sizes) && MapsAgree(g, op, sizes, bounds)
    requires LinesExist(owned, |v|) && SafeDispatch(d, owned) && Resolves(d)
    requires TablesRun(bits, kernels.semantics) && KernelLoaded(d, kernels.loaded)
    requires AgreeOn(after, After(v, d, kernels, owned), owned)
    ensures Computes(v, after, g, op, d, unknown, other, bounds)
  {
    forall index: Index, args: seq<u32> | InShape(index, bounds) && ReadsElements(v, g, op, d, unknown, index, args)
      ensures Element(after, op.uses[0].access, d, unknown, ApplyMap(OutputMap(g), index)) == Payload(g, args, other)
    {
      StoresWhatLinalgComputes(v, kernels, g, op, m, bits, d, sizes, owned, unknown, other, bounds, index, args);
      SameResult(v, after, kernels, g, op, m, bits, d, sizes, owned, unknown, bounds, index);
    }
  }

  lemma SameResult(v: Flat, after: Flat, kernels: Kernels, g: Generic, op: KernelOp, m: Materialized, bits: Bitstreams,
                   d: Dispatch, sizes: Shape, owned: set<nat>, unknown: nat -> nat, bounds: Shape, index: Index)
    requires IsDispatchOf(g, op, m, bits, d, sizes) && MapsAgree(g, op, sizes, bounds) && InShape(index, bounds)
    requires LinesExist(owned, |v|) && SafeDispatch(d, owned) && Resolves(d)
    requires AgreeOn(after, After(v, d, kernels, owned), owned)
    ensures Element(after, op.uses[0].access, d, unknown, ApplyMap(OutputMap(g), index))
            == Element(After(v, d, kernels, owned), op.uses[0].access, d, unknown, ApplyMap(OutputMap(g), index))
  {
    hide Element, FlatIndex, GoodAccess, SafeDispatch, Resolves, After, DispatchConf, IsExport, StreamOn, IsRowMajor;
    var at := ApplyMap(OutputMap(g), index);
    IndexInSizes(g, sizes, bounds, index, OutputMap(g));
    DispatchOwned(d, owned);
    ResultStream(g, op, m, bits, d, sizes, owned, unknown);
    var s := DispatchConf(d).outputs[KernelOf(m.kind, bits).outputColumn];
    assert s in DispatchConf(d).outputs;
    ElementAgrees(after, After(v, d, kernels, owned), op.uses[0].access, d, sizes, unknown, at, s, owned);
  }

  // End to end on the device: a compiled elementwise op dispatched over memory that
  // is not coherent leaves, for the CPU to read, what the linalg op computes.
  method RunElementwise(commands: CommandBuffer, d: Dispatch, ghost g: Generic, ghost op: KernelOp, ghost m: Materialized,
                        ghost bits: Bitstreams, ghost sizes: Shape, ghost unknown: nat -> nat, ghost other: OtherMeaning,
                        ghost bounds: Shape)
    returns (status: Status)
    requires commands.dev.Valid() && commands.dev.stale == {} && SafeDispatch(d, commands.dev.owned)
    requires IsDispatchOf(g, op, m, bits, d, sizes) && MapsAgree(g, op, sizes, bounds)
    requires TablesRun(bits, commands.dev.semantics) && KernelLoaded(d, commands.dev.kernels)
    modifies commands.dev
    ensures status.Ok? ==>
              Computes(CpuView(old(commands.dev.mem)), CpuView(commands.dev.mem), g, op, d, unknown, other, bounds)
  {
    hide IsDispatchOf, MapsAgree, Computes, LineAgrees, FlatStep, After;
    ghost var dev := commands.dev;
    CoherentIff(dev.mem, dev.flat);
    ghost var before := dev.flat;
    ghost var ran: bool;
    status, ran := commands.DispatchFunction(d);
    if status.Ok? {
      assert dev.stale == {};
      CoherentIff(dev.mem, dev.flat);
      AfterIsStep(before, d, dev.Meaning(), dev.owned);
      DispatchComputes(before, dev.flat, dev.Meaning(), g, op, m, bits, d, sizes, dev.owned, unknown, other, bounds);
    }
  }

  lemma AfterIsStep(v: Flat, d: Dispatch, kernels: Kernels, owned: set<nat>)
    requires LinesExist(owned, |v|) && SafeDispatch(d, owned) && Resolves(d)
    ensures After(v, d, kernels, owned) == FlatStep(v, Run(d), kernels, owned)
  {
  }

  // ---- What is stored, without the payload ----

  // Constant operands hold their value where the iteration reads them.
  ghost predicate SplatsHold(v: Flat, g: Generic, op: KernelOp, d: Dispatch, unknown: nat -> nat, index: Index) {
    forall i :: 0 <= i < |op.operands| && i < |g.inputs| && g.inputs[i].splat.Some? && op.operands[i].Load? ==>
      Element(v, op.operands[i].access, d, unknown, ApplyMap(OutputMap(g), index)) == Wrap32(g.inputs[i].splat.value)
  }

  // An add leaves the sums modulo 2^32 of the elements it read.
  lemma StoresSums(before: Flat, after: Flat, g: Generic, op: KernelOp, d: Dispatch, unknown: nat -> nat, other: OtherMeaning,
                   sizes: Shape, bounds: Shape, index: Index)
    requires Convert(g) == Some((AddKind, 2)) && |op.operands| == 2 && |op.uses| > 0 && op.uses[0].Store?
    requires OperandAccess(op, 0) && OperandAccess(op, 1) && MapsAgree(g, op, sizes, bounds)
    requires Computes(before, after, g, op, d, unknown, other, bounds)
    requires InShape(index, bounds) && SplatsHold(before, g, op, d, unknown, index)
    ensures Element(after, op.uses[0].access, d, unknown, index)
            == (Element(before, op.operands[0].access, d, unknown, index) as int
                + Element(before, op.operands[1].access, d, unknown, index)) % 0x1_0000_0000
  {
    hide Element, Payload, CoversWholeTensor, MatchOffset;
    assert g.maps[2] in g.maps;
    assert ApplyMap(OutputMap(g), index) == index;
    var args: seq<u32> := [Element(before, op.operands[0].access, d, unknown, index),
                           Element(before, op.operands[1].access, d, unknown, index), 0];
    assert ReadsElements(before, g, op, d, unknown, index, args);
    AddMeaning(g, args, other);
  }

  // A relu leaves the positive parts, in two's complement.
  lemma StoresPositiveParts(before: Flat, after: Flat, g: Generic, op: KernelOp, d: Dispatch, unknown: nat -> nat,
                            other: OtherMeaning, sizes: Shape, bounds: Shape, index: Index)
    requires Convert(g) == Some((ReluKind, 1)) && |op.operands| == 1 && |op.uses| > 0 && op.uses[0].Store?
    requires OperandAccess(op, 0) && MapsAgree(g, op, sizes, bounds)
    requires Computes(before, after, g, op, d, unknown, other, bounds)
    requires InShape(index, bounds) && SplatsHold(before, g, op, d, unknown, index)
    ensures var at := ApplyMap(OutputMap(g), index);
            var x := Element(before, op.operands[0].access, d, unknown, at);
            Element(after, op.uses[0].access, d, unknown, at) == if x < 0x8000_0000 then x else 0
  {
    hide Element, Payload, CoversWholeTensor, MatchOffset;
    var x := Element(before, op.operands[0].access, d, unknown, ApplyMap(OutputMap(g), index));
    var args: seq<u32> := if |g.inputs| == 1 then [x, 0] else [x, Wrap32(0), 0];
    assert ReadsElements(before, g, op, d, unknown, index, args);
    ReluMeaning(g, args, other);
  }

  // ---- From the linalg op to memory in one go ----

  // Every bound buffer is in its allocation and belongs to this thread.
  ghost predicate UsableBindings(bindings: seq<BufferRef>, owned: set<nat>) {
    forall b :: b in bindings && b.buffer.Some? ==> ValidRef(b) && OwnsBuffer(b.buffer.value, owned)
  }

  // The offset of the access, column included, fits 64 bits.
  ghost predicate OffsetFits(a: Access, constants: seq<u32>) {
    MatchOffset(a.byteOffset).Some? && Present(MatchOffset(a.byteOffset).value.ordinals, constants) ==>
      ExactOffset(OffsetColumn(MatchOffset(a.byteOffset).value, 0, 1, 1), constants) + 0x1_0000 <= U64
  }

  // Constants and bindings the access is good with.
  ghost predicate Supplied(a: Access, constants: seq<u32>, bindings: seq<BufferRef>, sizes: Shape) {
    GoodAccess(a, Dispatch([], 0, constants, bindings), sizes) && OffsetFits(a, constants)
  }

  lemma OffsetPresent(a: Access, constants: seq<u32>, bindings: seq<BufferRef>, sizes: Shape)
    requires Supplied(a, constants, bindings, sizes)
    ensures Present(MatchOffset(a.byteOffset).value.ordinals, constants)
    ensures |MatchOffset(a.byteOffset).value.ordinals| <= 2
  {
    hide MatchOffset, HalvesOf, SamePositions;
    OffsetTranslationIsSound(a.byteOffset, constants, x => x);
    MatchedOffsetsVerify(a.byteOffset);
  }

  lemma AccessIsSafe(a: Access, constants: seq<u32>, bindings: seq<BufferRef>, sizes: Shape, owned: set<nat>, isInput: bool)
    requires Supplied(a, constants, bindings, sizes) && UsableBindings(bindings, owned)
    requires Elements(sizes) <= MAX_COLUMN_WORDS
    ensures SafeColumn(ColumnOf(BindingOf(a), if isInput then 1 else 0), isInput, constants, bindings, owned)
  {
    hide Resolve, MatchOffset, HalvesOf, SamePositions, Wrap32, Wrap64, ValidRef, OwnsBuffer, ExactSpan, ConstantSum,
      ReadsOutside;
    OffsetPresent(a, constants, bindings, sizes);
    PresentIsInside(MatchOffset(a.byteOffset).value.ordinals, constants);
    NoWrap32(a.binding);
    assert bindings[a.binding] in bindings;
    var def := ColumnOf(BindingOf(a), if isInput then 1 else 0);
    assert ExactOffset(def, constants) == ExactOffset(OffsetColumn(MatchOffset(a.byteOffset).value, 0, 1, 1), constants);
    if def.wordCount > 0 {
      CompilerColumnsDoNotWrap(def, isInput);
    }
  }

  lemma ExportIsSafe(op: KernelOp, m: Materialized, bits: Bitstreams, d: Dispatch, sizes: Shape, owned: set<nat>)
    requires d.function_ < |d.exports| && Analyzable([op]) && |m.loads| == |op.operands|
    requires m.store == BindingOf(op.uses[0].access)
    requires forall i :: 0 <= i < |m.loads| ==> OperandAccess(op, i) && m.loads[i] == BindingOf(op.operands[i].access)
    requires Exportable(m, bits)
    requires IsExport(m, bits, d.exports[d.function_].def.inputs, d.exports[d.function_].def.outputs)
    requires forall i :: 0 <= i < |op.operands| ==>
               OperandAccess(op, i) && Supplied(op.operands[i].access, d.constants, d.bindings, sizes)
    requires Supplied(op.uses[0].access, d.constants, d.bindings, sizes) && UsableBindings(d.bindings, owned)
    ensures SafeDispatch(d, owned)
  {
    hide SafeColumn, Resolve, ColumnOf, BindingOf, UsableBindings, Matches, MatchOffset, Readable;
    var def, kernel := d.exports[d.function_].def, KernelOf(m.kind, bits);
    forall c | 0 <= c < COLUMN_COUNT
      ensures SafeColumn(def.inputs[c], true, d.constants, d.bindings, owned)
      ensures SafeColumn(def.outputs[c], false, d.constants, d.bindings, owned)
    {
      UnusedIsSafe(true, d.constants, d.bindings, owned);
      UnusedIsSafe(false, d.constants, d.bindings, owned);
      StoreIsSafe(op, m, bits, d, sizes, owned);
      if c in kernel.inputColumns {
        var i :| 0 <= i < |kernel.inputColumns| && kernel.inputColumns[i] == c;
        LoadIsSafe(op, m, d, sizes, owned, i);
        assert m.loads[i] in m.loads;
      }
    }
    SafeIsReadable(def, d, owned);
  }

  lemma SafeIsReadable(def: ExportDef, d: Dispatch, owned: set<nat>)
    requires |def.inputs| == |def.outputs| == COLUMN_COUNT
    requires forall c :: 0 <= c < COLUMN_COUNT ==>
               && SafeColumn(def.inputs[c], true, d.constants, d.bindings, owned)
               && SafeColumn(def.outputs[c], false, d.constants, d.bindings, owned)
    ensures ReadableExport(def, d.constants)
  {
    hide Resolve, Readable, FitsMachine, ValidRef, OwnsBuffer;
  }

  lemma UnusedIsSafe(isInput: bool, constants: seq<u32>, bindings: seq<BufferRef>, owned: set<nat>)
    ensures SafeColumn(UNUSED, isInput, constants, bindings, owned)
  {
  }

  lemma LoadIsSafe(op: KernelOp, m: Materialized, d: Dispatch, sizes: Shape, owned: set<nat>, i: nat)
    requires i < |m.loads| == |op.operands| && OperandAccess(op, i) && m.loads[i] == BindingOf(op.operands[i].access)
    requires FitsColumn(m.loads[i])
    requires Supplied(op.operands[i].access, d.constants, d.bindings, sizes) && UsableBindings(d.bindings, owned)
    ensures SafeColumn(ColumnOf(m.loads[i], 1), true, d.constants, d.bindings, owned)
  {
    hide SafeColumn, UsableBindings, MatchOffset, SamePositions, HalvesOf;
    AccessIsSafe(op.operands[i].access, d.constants, d.bindings, sizes, owned, true);
  }

  lemma StoreIsSafe(op: KernelOp, m: Materialized, bits: Bitstreams, d: Dispatch, sizes: Shape, owned: set<nat>)
    requires Analyzable([op]) && m.store == BindingOf(op.uses[0].access) && Exportable(m, bits)
    requires Supplied(op.uses[0].access, d.constants, d.bindings, sizes) && UsableBindings(d.bindings, owned)
    ensures SafeColumn(ColumnOf(m.store, 0), false, d.constants, d.bindings, owned)
  {
    hide SafeColumn, UsableBindings, MatchOffset, SamePositions, HalvesOf;
    AccessIsSafe(op.uses[0].access, d.constants, d.bindings, sizes, owned, false);
  }

  // A function of the executable: the kernel ops of its dispatch and its export.
  datatype Source = Source(ordinal: nat, name: string, ops: seq<KernelOp>, constantCount: u32, bindingCount: u32)

  predicate OrdinalsOfSources(sources: seq<Source>) {
    && (forall i :: 0 <= i < |sources| ==> sources[i].ordinal < |sources|)
    && forall i, j :: 0 <= i < j < |sources| ==> sources[i].ordinal != sources[j].ordinal
  }

  // Source `s` as an export of the serializer.
  predicate IsExportOf(s: Source, e: ExportOp) {
    && Analyzable(s.ops) && e.function_.Some? && IsMaterialized(s.ops[0], e.function_.value)
    && e.ordinal == Some(s.ordinal) && e.name == s.name
    && e.constantCount == s.constantCount && e.bindingCount == s.bindingCount
  }

  predicate IsMaterialized(op: KernelOp, m: Materialized)
    requires Analyzable([op])
  {
    && m.kind == op.kind && |m.loads| == |op.operands| && m.store == BindingOf(op.uses[0].access)
    && forall i :: 0 <= i < |m.loads| ==> OperandAccess(op, i) && m.loads[i] == BindingOf(op.operands[i].access)
  }

  // Every function of the module gets its binding ops.
  method MaterializeAll(sources: seq<Source>) returns (r: Option<seq<ExportOp>>)
    ensures r.Some? <==> forall i :: 0 <= i < |sources| ==> Analyzable(sources[i].ops)
    ensures r.Some? ==> |r.value| == |sources| && forall i :: 0 <= i < |sources| ==> IsExportOf(sources[i], r.value[i])
  {
    var exportOps: seq<ExportOp> := [];
    for i := 0 to |sources|
      invariant |exportOps| == i && forall j :: 0 <= j < i ==> IsExportOf(sources[j], exportOps[j])
    {
      var s := sources[i];
      var m := MaterializeBindings(s.ops);
      if m.None? {
        return None;
      }
      assert s.ops == [s.ops[0]];
      exportOps := exportOps + [ExportOp(Some(s.ordinal), s.name, m, s.constantCount, s.bindingCount)];
    }
    return Some(exportOps);
  }

  // What the linalg op g of source `s`, its operands and its tables must be like.
  ghost predicate Covered(s: Source, g: Generic, sizes: Shape, bounds: Shape, constants: seq<u32>, bindings: seq<BufferRef>) {
    Analyzable(s.ops) ==>
      && Convert(g) == Some((s.ops[0].kind, |s.ops[0].operands|)) && MapsAgree(g, s.ops[0], sizes, bounds)
      && (forall i :: 0 <= i < |s.ops[0].operands| ==>
            OperandAccess(s.ops[0], i) && Supplied(s.ops[0].operands[i].access, constants, bindings, sizes))
      && Supplied(s.ops[0].uses[0].access, constants, bindings, sizes)
  }

  // Compiles and loads an executable of several functions, in any order of ordinals.
  method CompileAndLoad(dev: Device, sources: seq<Source>, bits: Bitstreams)
    returns (status: Status, exports: seq<Export>, ghost exportOps: seq<ExportOp>)
    requires dev.Valid() && sources != [] && OrdinalsOfSources(sources)
    modifies dev`err, dev`kernels, dev`next, dev`failedFrees
    ensures dev.Valid()
    ensures status.Ok? ==>
              && |exports| == |exportOps| == |sources| && Loaded(exports, dev.kernels)
              && forall i :: 0 <= i < |sources| ==> IsLoadedSource(sources[i], exportOps[i], bits, exports)
  {
    hide ExportVerifies, Analyzable, IsMaterialized, IsExport, Exportable, Loaded, FreeAll;
    exports, exportOps := [], [];
    var ops := MaterializeAll(sources);
    if ops.None? {
      return Error(Internal), exports, exportOps;
    }
    exportOps := ops.value;
    assert DistinctOrdinals(exportOps);
    var serialized := SerializeExecutable(ops.value, bits);
    if serialized.Failure? {
      return Error(serialized.code), exports, exportOps;
    }
    status := FlatbufferVerify(serialized.value);
    if !status.Ok? {
      return;
    }
    var defs := seq(|serialized.value|, i requires 0 <= i < |serialized.value| => serialized.value[i].value);
    ghost var fails: seq<bool>;
    status, exports, fails := Create(dev, defs);
    forall i | status.Ok? && 0 <= i < |sources|
      ensures IsLoadedSource(sources[i], exportOps[i], bits, exports)
    {
      assert exportOps[i] in exportOps && exports[sources[i].ordinal].def == defs[sources[i].ordinal];
    }
  }

  // The export of the source is in the slot of its ordinal, and was loaded.
  predicate IsLoadedSource(s: Source, e: ExportOp, bits: Bitstreams, exports: seq<Export>) {
    && IsExportOf(s, e) && Serializable(e, bits) && s.ordinal < |exports|
    && exports[s.ordinal].kernel.valid && IsSerialized(e, bits, exports[s.ordinal].def)
  }

  lemma OneElementIsSupplied(binding: nat)
    requires binding < 2
    ensures Supplied(OneElement(binding), [], [OneLine(0), OneLine(1)], [1])
  {
    OneElementMatches(binding);
    OneElementIsGood(Bitstreams([], []), binding);
    GoodAnywhere(OneElement(binding), OneReluDispatch(Bitstreams([], [])), [1]);
    hide Matches, GoodAccess;
  }

  // Only the constants and bindings of a dispatch matter to an access.
  lemma GoodAnywhere(a: Access, d: Dispatch, sizes: Shape)
    requires GoodAccess(a, d, sizes)
    ensures GoodAccess(a, Dispatch([], 0, d.constants, d.bindings), sizes)
  {
    hide Matches, SamePositions, HalvesOf, InLayout;
  }

  lemma OneReluConverts()
    ensures Convert(ONE_RELU) == Some((ReluKind, 1)) && MapsAgree(ONE_RELU, OneReluOp(), [1], [1])
  {
    assert ApplyMap(AffineMap([0]), [1]) == [1];
  }

  // Two sources with their ordinals swapped meet every condition.
  lemma OneReluSourceIsCovered()
    ensures var sources := [Source(1, "relu", [OneReluOp()], 0, 2), Source(0, "other", [OneReluOp()], 0, 2)];
            && OrdinalsOfSources(sources) && Analyzable(sources[0].ops)
            && Covered(sources[0], ONE_RELU, [1], [1], [], [OneLine(0), OneLine(1)])
            && UsableBindings([OneLine(0), OneLine(1)], {0, 1})
  {
    hide Matches, Supplied, MapsAgree, Convert, OneElement, OneLine, OwnsBuffer, ValidRef;
    OneElementMatches(0);
    OneElementMatches(1);
    OneElementIsSupplied(0);
    OneElementIsSupplied(1);
    OneReluConverts();
    OneLinesAreUsable();
  }

  lemma OneLinesAreUsable()
    ensures UsableBindings([OneLine(0), OneLine(1)], {0, 1})
  {
    hide OwnsBuffer, ValidRef;
    OneLineIsOwned(0, {0, 1});
    OneLineIsOwned(1, {0, 1});
  }

  // Compiles and loads an executable of several functions and dispatches one of them, by
  // its ordinal. If every step succeeds the CPU reads what the linalg op of that function
  // computes.
  method CompileAndDispatch(commands: CommandBuffer, sources: seq<Source>, which: nat, bits: Bitstreams,
                            constants: seq<u32>, bindings: seq<BufferRef>, ghost g: Generic, ghost sizes: Shape,
                            ghost unknown: nat -> nat, ghost other: OtherMeaning, ghost bounds: Shape)
    returns (status: Status, ghost d: Dispatch)
    requires commands.dev.Valid() && commands.dev.stale == {}
    requires which < |sources| && OrdinalsOfSources(sources)
    requires Covered(sources[which], g, sizes, bounds, constants, bindings) && TablesRun(bits, commands.dev.semantics)
    requires UsableBindings(bindings, commands.dev.owned)
    modifies commands.dev
    ensures status.Ok? ==> Analyzable(sources[which].ops) && d.constants == constants && d.bindings == bindings
    ensures status.Ok? ==>
              Computes(CpuView(old(commands.dev.mem)), CpuView(commands.dev.mem), g, sources[which].ops[0], d, unknown,
                       other, bounds)
  {
    hide MapsAgree, Supplied, UsableBindings, Computes, TablesRun, IsExport, Exportable, SafeDispatch;
    d := Dispatch([], 0, constants, bindings);
    var exports: seq<Export>;
    ghost var exportOps: seq<ExportOp>;
    status, exports, exportOps := CompileAndLoad(commands.dev, sources, bits);
    if !status.Ok? {
      return;
    }
    var s := sources[which];
    d := Dispatch(exports, s.ordinal, constants, bindings);
    assert IsLoadedSource(s, exportOps[which], bits, exports) && exports[s.ordinal] in exports;
    IsTheDispatch(g, s.ops[0], exportOps[which].function_.value, bits, d, sizes);
    ExportIsSafe(s.ops[0], exportOps[which].function_.value, bits, d, sizes, commands.dev.owned);
    status := RunElementwise(commands, Dispatch(exports, s.ordinal, constants, bindings), g, s.ops[0],
                             exportOps[which].function_.value, bits, sizes, unknown, other, bounds);
  }

  lemma WhatIsStored(before: Flat, after: Flat, g: Generic, op: KernelOp, d: Dispatch, unknown: nat -> nat, other: OtherMeaning,
                     sizes: Shape, bounds: Shape)
    requires Convert(g) == Some((op.kind, |op.operands|)) && |op.uses| > 0 && op.uses[0].Store?
    requires (forall i :: 0 <= i < |op.operands| ==> OperandAccess(op, i)) && MapsAgree(g, op, sizes, bounds)
    requires Computes(before, after, g, op, d, unknown, other, bounds)
    ensures op.kind.AddKind? ==>
              && |op.operands| == 2 && op.operands[0].Load? && op.operands[1].Load?
              && forall index: Index :: InShape(index, bounds) && SplatsHold(before, g, op, d, unknown, index) ==>
                   Element(after, op.uses[0].access, d, unknown, index)
                   == (Element(before, op.operands[0].access, d, unknown, index) as int
                       + Element(before, op.operands[1].access, d, unknown, index)) % 0x1_0000_0000
    ensures op.kind.ReluKind? ==>
              && |op.operands| == 1 && op.operands[0].Load?
              && forall index: Index :: InShape(index, bounds) && SplatsHold(before, g, op, d, unknown, index) ==>
                   var at := ApplyMap(OutputMap(g), index);
                   var x := Element(before, op.operands[0].access, d, unknown, at);
                   Element(after, op.uses[0].access, d, unknown, at) == if x < 0x8000_0000 then x else 0
  {
    assert |op.operands| >= 1 && OperandAccess(op, 0) && (|op.operands| == 2 ==> OperandAccess(op, 1));
    hide Element, Computes, SplatsHold, MapsAgree, MatchesAdd, MatchesRelu, Matches, ApplyMap;
    forall index: Index | InShape(index, bounds) && SplatsHold(before, g, op, d, unknown, index)
      ensures op.kind.AddKind? ==>
                Element(after, op.uses[0].access, d, unknown, index)
                == (Element(before, op.operands[0].access, d, unknown, index) as int
                    + Element(before, op.operands[1].access, d, unknown, index)) % 0x1_0000_0000
      ensures op.kind.ReluKind? ==>
                var at := ApplyMap(OutputMap(g), index);
                var x := Element(before, op.operands[0].access, d, unknown, at);
                Element(after, op.uses[0].access, d, unknown, at) == if x < 0x8000_0000 then x else 0
    {
      if op.kind.AddKind? {
        StoresSums(before, after, g, op, d, unknown, other, sizes, bounds, index);
      } else {
        StoresPositiveParts(before, after, g, op, d, unknown, other, sizes, bounds, index);
      }
    }
  }

  // The same, with what an add and a relu store written out.
  method CompileAndRun(commands: CommandBuffer, sources: seq<Source>, which: nat, bits: Bitstreams, constants: seq<u32>,
                       bindings: seq<BufferRef>, ghost g: Generic, ghost sizes: Shape, ghost unknown: nat -> nat,
                       ghost other: OtherMeaning, ghost bounds: Shape)
    returns (status: Status, ghost d: Dispatch)
    requires commands.dev.Valid() && commands.dev.stale == {}
    requires which < |sources| && OrdinalsOfSources(sources)
    requires Covered(sources[which], g, sizes, bounds, constants, bindings) && TablesRun(bits, commands.dev.semantics)
    requires UsableBindings(bindings, commands.dev.owned)
    modifies commands.dev
    ensures status.Ok? ==> Analyzable(sources[which].ops) && d.constants == constants && d.bindings == bindings
    ensures status.Ok? ==>
              Computes(CpuView(old(commands.dev.mem)), CpuView(commands.dev.mem), g, sources[which].ops[0], d, unknown,
                       other, bounds)
    ensures status.Ok? && sources[which].ops[0].kind.AddKind? ==>
              var before, after, op := CpuView(old(commands.dev.mem)), CpuView(commands.dev.mem), sources[which].ops[0];
              && |op.operands| == 2 && op.operands[0].Load? && op.operands[1].Load?
              && forall index: Index :: InShape(index, bounds) && SplatsHold(before, g, op, d, unknown, index) ==>
                   Element(after, op.uses[0].access, d, unknown, index)
                   == (Element(before, op.operands[0].access, d, unknown, index) as int
                       + Element(before, op.operands[1].access, d, unknown, index)) % 0x1_0000_0000
    ensures status.Ok? && sources[which].ops[0].kind.ReluKind? ==>
              var before, after, op := CpuView(old(commands.dev.mem)), CpuView(commands.dev.mem), sources[which].ops[0];
              && |op.operands| == 1 && op.operands[0].Load?
              && forall index: Index :: InShape(index, bounds) && SplatsHold(before, g, op, d, unknown, index) ==>
                   var at := ApplyMap(OutputMap(g), index);
                   var x := Element(before, op.operands[0].access, d, unknown, at);
                   Element(after, op.uses[0].access, d, unknown, at) == if x < 0x8000_0000 then x else 0
  {
    hide Covered, Computes, Element, SplatsHold, UsableBindings, TablesRun, CpuView, Analyzable, ApplyMap;
    status, d := CompileAndDispatch(commands, sources, which, bits, constants, bindings, g, sizes, unknown, other, bounds);
    if status.Ok? {
      CoveredMeans(sources[which], g, sizes, bounds, constants, bindings);
      WhatIsStored(CpuView(old(commands.dev.mem)), CpuView(commands.dev.mem), g, sources[which].ops[0], d, unknown, other,
                   sizes, bounds);
    }
  }

  lemma CoveredMeans(s: Source, g: Generic, sizes: Shape, bounds: Shape, constants: seq<u32>, bindings: seq<BufferRef>)
    requires Covered(s, g, sizes, bounds, constants, bindings) && Analyzable(s.ops)
    ensures |s.ops| == 1 && Convert(g) == Some((s.ops[0].kind, |s.ops[0].operands|))
    ensures |s.ops[0].uses| > 0 && s.ops[0].uses[0].Store?
    ensures (forall i :: 0 <= i < |s.ops[0].operands| ==> OperandAccess(s.ops[0], i)) && MapsAgree(g, s.ops[0], sizes, bounds)
  {
  }

  lemma IsTheDispatch(g: Generic, op: KernelOp, m: Materialized, bits: Bitstreams, d: Dispatch, sizes: Shape)
    requires d.function_ < |d.exports| && Analyzable([op]) && Convert(g) == Some((op.kind, |op.operands|))
    requires m.kind == op.kind && |m.loads| == |op.operands| && m.store == BindingOf(op.uses[0].access)
    requires forall i :: 0 <= i < |m.loads| ==> OperandAccess(op, i) && m.loads[i] == BindingOf(op.operands[i].access)
    requires Exportable(m, bits) && d.exports[d.function_].def.bitstream == KernelOf(m.kind, bits).bitstream
    requires IsExport(m, bits, d.exports[d.function_].def.inputs, d.exports[d.function_].def.outputs)
    requires forall i :: 0 <= i < |op.operands| ==>
               OperandAccess(op, i) && Supplied(op.operands[i].access, d.constants, d.bindings, sizes)
    requires Supplied(op.uses[0].access, d.constants, d.bindings, sizes)
    ensures IsDispatchOf(g, op, m, bits, d, sizes)
  {
    hide MatchOffset, BindingOf, IsExport, Exportable, Convert, SamePositions, HalvesOf, InLayout, Analyzable, OffsetFits;
  }
}
