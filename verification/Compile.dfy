// From the kernel op of a dispatch to its serialized export: binding ops
// (MaterializeBindingsPass.cpp), columns and exports (StrelaTarget.cpp), kernels
// (Bitstreams.h).
module Compile {
  import opened Columns
  import opened Executables
  import opened Linalg
  import opened Offsets
  import opened Status
  import opened Tensors
  import opened Words

  // An OpFoldResult: a known integer or a runtime value.
  datatype Fold = Known(value: int) | Runtime(id: nat)

  // A dispatch tensor load or store: the binding subspan it views, of a tensor of
  // `shape`, and the slice it takes. `sizes` is None if some size is dynamic.
  datatype Access = Access(
    binding: nat, byteOffset: Option<Expr>, shape: Shape, offsets: seq<Fold>, sizes: Option<Shape>, strides: seq<Fold>)

  datatype Operand = Load(access: Access) | Computed

  datatype Use = Store(access: Access) | OtherUse

  datatype Kind = AddKind | ReluKind | MatvecKind

  // A strela.add, strela.relu or strela.matvec in a dispatch body.
  datatype KernelOp = KernelOp(kind: Kind, ranked: bool, operands: seq<Operand>, uses: seq<Use>)

  // ---- Which kernel a linalg op becomes (ConvertLinalgToStrelaPass.cpp) ----

  // The kernel and the number of leading inputs it takes.
  function Convert(g: Generic): (r: Option<(Kind, nat)>) {
    if MatchesAdd(g) then Some((AddKind, 2))
    else if MatchesRelu(g) then Some((ReluKind, 1))
    else None
  }

  // ---- Binding ops ----

  datatype BindingOp = BindingOp(binding: u32, offset: Offset, sizes: Option<Shape>)

  datatype Materialized = Materialized(kind: Kind, loads: seq<BindingOp>, store: BindingOp)

  // coversWholeTensor: every offset is zero and every stride one.
  predicate CoversWholeTensor(a: Access) {
    (forall o :: o in a.offsets ==> o == Known(0)) && (forall s :: s in a.strides ==> s == Known(1))
  }

  predicate Matches(a: Access) {
    CoversWholeTensor(a) && MatchOffset(a.byteOffset).Some?
  }

  // The sizes of the slice are not looked at: a 2x3 corner of a 4x9 tensor is accepted
  // though its second row is not where the driver will read it. Which slices from the
  // origin are contiguous is settled by Tensors.ContiguousIff.
  lemma CornerIsAccepted()
    ensures var corner := Access(0, None, [4, 9], [Known(0), Known(0)], Some([2, 3]), [Known(1), Known(1)]);
            Matches(corner) && !SamePositions([2, 3], [4, 9])
  {
    var sizes, shape: Shape := [2, 3], [4, 9];
    assert sizes[1..] == [3] && shape[1..] == [9];
    assert Elements([3]) == 3 && Elements(sizes) == 6;
    ContiguousIff(sizes, shape);
  }

  function BindingOf(a: Access): (b: BindingOp)
    requires Matches(a)
  {
    BindingOp(Wrap32(a.binding), MatchOffset(a.byteOffset).value, a.sizes)
  }

  // analyzeEntryPoint accepts the dispatch.
  predicate Analyzable(ops: seq<KernelOp>) {
    && |ops| == 1 && ops[0].ranked
    && (forall o :: o in ops[0].operands ==> o.Load? && Matches(o.access))
    && |ops[0].uses| == 1 && ops[0].uses[0].Store? && Matches(ops[0].uses[0].access)
  }

  // On the fields: one kernel op, and every access takes all of its tensor densely.
  lemma AnalyzableMeans(ops: seq<KernelOp>)
    ensures Analyzable(ops) <==>
            && |ops| == 1 && ops[0].ranked
            && (forall i :: 0 <= i < |ops[0].operands| ==>
                  && ops[0].operands[i].Load? && MatchOffset(ops[0].operands[i].access.byteOffset).Some?
                  && (forall k :: 0 <= k < |ops[0].operands[i].access.offsets| ==>
                        ops[0].operands[i].access.offsets[k] == Known(0))
                  && (forall k :: 0 <= k < |ops[0].operands[i].access.strides| ==>
                        ops[0].operands[i].access.strides[k] == Known(1)))
            && |ops[0].uses| == 1 && ops[0].uses[0].Store? && MatchOffset(ops[0].uses[0].access.byteOffset).Some?
            && (forall k :: 0 <= k < |ops[0].uses[0].access.offsets| ==> ops[0].uses[0].access.offsets[k] == Known(0))
            && (forall k :: 0 <= k < |ops[0].uses[0].access.strides| ==> ops[0].uses[0].access.strides[k] == Known(1))
  {
    hide MatchOffset, CoversWholeTensor;
    if |ops| == 1 {
      assert forall i :: 0 <= i < |ops[0].operands| ==> ops[0].operands[i] in ops[0].operands;
      forall i | 0 <= i < |ops[0].operands| && ops[0].operands[i].Load?
        ensures CoversWholeTensor(ops[0].operands[i].access)
                <==> && (forall k :: 0 <= k < |ops[0].operands[i].access.offsets| ==>
                           ops[0].operands[i].access.offsets[k] == Known(0))
                     && (forall k :: 0 <= k < |ops[0].operands[i].access.strides| ==>
                           ops[0].operands[i].access.strides[k] == Known(1))
      {
        CoversMeans(ops[0].operands[i].access);
      }
      if |ops[0].uses| == 1 && ops[0].uses[0].Store? {
        CoversMeans(ops[0].uses[0].access);
      }
    }
  }

  lemma CoversMeans(a: Access)
    ensures CoversWholeTensor(a)
            <==> && (forall k :: 0 <= k < |a.offsets| ==> a.offsets[k] == Known(0))
                 && (forall k :: 0 <= k < |a.strides| ==> a.strides[k] == Known(1))
  {
    assert forall k :: 0 <= k < |a.offsets| ==> a.offsets[k] in a.offsets;
    assert forall k :: 0 <= k < |a.strides| ==> a.strides[k] in a.strides;
  }

  // A load or store of a slice with a known nonzero offset, a known stride other than
  // one, or a runtime offset or stride is refused.
  lemma SliceIsRefused(ops: seq<KernelOp>, a: Access, k: nat)
    requires |ops| == 1 && (Load(a) in ops[0].operands || Store(a) in ops[0].uses)
    requires || (k < |a.offsets| && (a.offsets[k].Runtime? || a.offsets[k].value != 0))
             || (k < |a.strides| && (a.strides[k].Runtime? || a.strides[k].value != 1))
    ensures !Analyzable(ops)
  {
    hide MatchOffset;
    if k < |a.offsets| {
      assert a.offsets[k] in a.offsets;
    }
    if k < |a.strides| {
      assert a.strides[k] in a.strides;
    }
  }

  // analyzeEntryPoint and the rewrite to binding ops.
  method MaterializeBindings(ops: seq<KernelOp>) returns (r: Option<Materialized>)
    ensures r.Some? <==> Analyzable(ops)
    ensures r.Some? <==>
            && |ops| == 1 && ops[0].ranked
            && (forall i :: 0 <= i < |ops[0].operands| ==>
                  && ops[0].operands[i].Load? && MatchOffset(ops[0].operands[i].access.byteOffset).Some?
                  && (forall k :: 0 <= k < |ops[0].operands[i].access.offsets| ==>
                        ops[0].operands[i].access.offsets[k] == Known(0))
                  && (forall k :: 0 <= k < |ops[0].operands[i].access.strides| ==>
                        ops[0].operands[i].access.strides[k] == Known(1)))
            && |ops[0].uses| == 1 && ops[0].uses[0].Store? && MatchOffset(ops[0].uses[0].access.byteOffset).Some?
            && (forall k :: 0 <= k < |ops[0].uses[0].access.offsets| ==> ops[0].uses[0].access.offsets[k] == Known(0))
            && (forall k :: 0 <= k < |ops[0].uses[0].access.strides| ==> ops[0].uses[0].access.strides[k] == Known(1))
    ensures r.Some? ==>
              && r.value.kind == ops[0].kind && |r.value.loads| == |ops[0].operands|
              && (forall i :: 0 <= i < |r.value.loads| ==>
                    ops[0].operands[i] in ops[0].operands && r.value.loads[i] == BindingOf(ops[0].operands[i].access))
              && r.value.store == BindingOf(ops[0].uses[0].access)
  {
    AnalyzableMeans(ops);
    hide MatchOffset, BindingOf;
    if |ops| != 1 || !ops[0].ranked {
      return None;
    }
    var op := ops[0];
    var loads: seq<BindingOp> := [];
    for i := 0 to |op.operands|
      invariant |loads| == i
      invariant forall j :: 0 <= j < i ==>
                  op.operands[j].Load? && Matches(op.operands[j].access) && loads[j] == BindingOf(op.operands[j].access)
    {
      assert op.operands[i] in op.operands;
      if !op.operands[i].Load? || !CoversWholeTensor(op.operands[i].access) {
        return None;
      }
      if MatchOffset(op.operands[i].access.byteOffset).None? {
        return None;
      }
      loads := loads + [BindingOf(op.operands[i].access)];
    }
    if |op.uses| != 1 || !op.uses[0].Store? || !Matches(op.uses[0].access) {
      return None;
    }
    return Some(Materialized(op.kind, loads, BindingOf(op.uses[0].access)));
  }

  // ---- Columns and exports ----

  // A kernel: its bitstream, and the columns that its operands and its result
  // use. The words of a bitstream are not interpreted.
  datatype Kernel = Kernel(bitstream: seq<u32>, inputCount: nat, inputColumns: seq<nat>, outputColumn: nat)

  datatype Bitstreams = Bitstreams(add: seq<u32>, relu: seq<u32>)

  function KernelOf(kind: Kind, bits: Bitstreams): (k: Kernel)
    requires kind != MatvecKind
  {
    if kind.AddKind? then Kernel(bits.add, 2, [0, 1], 1) else Kernel(bits.relu, 1, [0], 0)
  }

  const UNUSED: ColumnDef := ColumnDef(0, 0, [], 0, 0)

  predicate FitsColumn(b: BindingOp) {
    b.sizes.Some? && Elements(b.sizes.value) <= MAX_COLUMN_WORDS
  }

  // A column moves at most what fits the 16-bit byte count of the size register.
  lemma FitsColumnIff(b: BindingOp)
    ensures FitsColumn(b) <==> b.sizes.Some? && 4 * Elements(b.sizes.value) <= 0xFFFF
    ensures b.sizes == Some([16383]) ==> FitsColumn(b)
    ensures b.sizes == Some([16384]) ==> !FitsColumn(b)
  {
    assert [16383][1..] == [] && [16384][1..] == [];
    assert Elements([16383]) == 16383 * Elements([]) && Elements([16384]) == 16384 * Elements([]);
  }

  // getColumn
  function ColumnOf(b: BindingOp, stride: u32): (column: ColumnDef)
    requires FitsColumn(b)
  {
    OffsetColumn(b.offset, b.binding, Elements(b.sizes.value), stride)
  }

  // getExport accepts the function.
  predicate Exportable(m: Materialized, bits: Bitstreams) {
    && m.kind != MatvecKind && |m.loads| == KernelOf(m.kind, bits).inputCount
    && (forall b :: b in m.loads ==> FitsColumn(b)) && FitsColumn(m.store)
  }

  // Each operand is in its kernel's column and nothing else is used.
  predicate IsExport(m: Materialized, bits: Bitstreams, inputs: seq<ColumnDef>, outputs: seq<ColumnDef>)
    requires Exportable(m, bits)
  {
    var kernel := KernelOf(m.kind, bits);
    && |inputs| == |outputs| == COLUMN_COUNT
    && (forall i :: 0 <= i < |m.loads| ==> m.loads[i] in m.loads && inputs[kernel.inputColumns[i]] == ColumnOf(m.loads[i], 1))
    && (forall c :: 0 <= c < COLUMN_COUNT && c !in kernel.inputColumns ==> inputs[c] == UNUSED)
    && outputs[kernel.outputColumn] == ColumnOf(m.store, 0)
    && (forall c :: 0 <= c < COLUMN_COUNT && c != kernel.outputColumn ==> outputs[c] == UNUSED)
  }

  method GetColumn(b: BindingOp, stride: u32) returns (r: Result<ColumnDef>)
    ensures r == if FitsColumn(b) then Success(ColumnOf(b, stride)) else Failure(InvalidArgument)
  {
    if b.sizes.None? {
      return Failure(InvalidArgument);
    }
    var words := Elements(b.sizes.value);
    if words > MAX_COLUMN_WORDS {
      return Failure(InvalidArgument);
    }
    var offsetConstants: seq<u32> := [];
    for i := 0 to |b.offset.ordinals|
      invariant offsetConstants == b.offset.ordinals[..i]
    {
      offsetConstants := offsetConstants + [b.offset.ordinals[i]];
    }
    assert b.offset.ordinals[..|b.offset.ordinals|] == b.offset.ordinals;
    var byteOffset := if b.offset.static_.Some? then b.offset.static_.value else 0;
    return Success(ColumnDef(b.binding, byteOffset, offsetConstants, words, stride));
  }

  method GetExport(m: Materialized, bits: Bitstreams)
    returns (r: Result<Kernel>, inputs: array<ColumnDef>, outputs: array<ColumnDef>)
    ensures inputs.Length == outputs.Length == COLUMN_COUNT && fresh(inputs) && fresh(outputs)
    ensures r.Success? <==> Exportable(m, bits)
    ensures r.Success? ==> r.value == KernelOf(m.kind, bits) && IsExport(m, bits, inputs[..], outputs[..])
  {
    inputs := new ColumnDef[COLUMN_COUNT](_ => UNUSED);
    outputs := new ColumnDef[COLUMN_COUNT](_ => UNUSED);
    r := Failure(InvalidArgument);
    if m.kind.MatvecKind? {
      return;
    }
    var kernel := KernelOf(m.kind, bits);
    if |m.loads| != kernel.inputCount {
      return;
    }
    for i := 0 to |m.loads|
      invariant forall j :: 0 <= j < i ==> FitsColumn(m.loads[j]) && inputs[kernel.inputColumns[j]] == ColumnOf(m.loads[j], 1)
      invariant forall c :: 0 <= c < COLUMN_COUNT && c !in kernel.inputColumns[..i] ==> inputs[c] == UNUSED
      invariant forall c :: 0 <= c < COLUMN_COUNT ==> outputs[c] == UNUSED
    {
      assert m.loads[i] in m.loads;
      var column := GetColumn(m.loads[i], 1);
      if column.Failure? {
        return;
      }
      inputs[kernel.inputColumns[i]] := column.value;
      assert kernel.inputColumns[..i + 1] == kernel.inputColumns[..i] + [kernel.inputColumns[i]];
    }
    assert kernel.inputColumns[..|m.loads|] == kernel.inputColumns;
    var column := GetColumn(m.store, 0);
    if column.Failure? {
      return;
    }
    outputs[kernel.outputColumn] := column.value;
    r := Success(kernel);
  }

  // ---- Serialization ----

  // A hal.executable.export: its ordinal, the function it names and its layout.
  datatype ExportOp = ExportOp(
    ordinal: Option<nat>, name: string, function_: Option<Materialized>, constantCount: u32, bindingCount: u32)

  predicate Serializable(e: ExportOp, bits: Bitstreams) {
    e.ordinal.Some? && e.function_.Some? && Exportable(e.function_.value, bits)
  }

  predicate IsSerialized(e: ExportOp, bits: Bitstreams, def: ExportDef)
    requires Serializable(e, bits)
  {
    && def.name == Some(e.name) && def.bitstream == KernelOf(e.function_.value.kind, bits).bitstream
    && def.constantCount == e.constantCount && def.bindingCount == e.bindingCount
    && IsExport(e.function_.value, bits, def.inputs, def.outputs)
  }

  predicate DistinctOrdinals(ops: seq<ExportOp>) {
    forall i, j :: 0 <= i < j < |ops| && ops[i].ordinal.Some? ==> ops[i].ordinal != ops[j].ordinal
  }

  // serializeExecutable: exports are scattered to the slots their ordinals name.
  method SerializeExecutable(ops: seq<ExportOp>, bits: Bitstreams) returns (r: Result<seq<Option<ExportDef>>>)
    requires forall e :: e in ops && e.ordinal.Some? ==> e.ordinal.value < |ops|
    ensures r.Success? <==> forall e :: e in ops ==> Serializable(e, bits)
    ensures r.Success? ==> |r.value| == |ops|
    ensures r.Success? && DistinctOrdinals(ops) ==>
              && (forall s :: 0 <= s < |ops| ==> r.value[s].Some?)
              && forall i :: 0 <= i < |ops| ==>
                   && ops[i] in ops
                   && IsSerialized(ops[i], bits, r.value[ops[i].ordinal.value].value)
  {
    var exportRefs := new Option<ExportDef>[|ops|](_ => None);
    for i := 0 to |ops|
      invariant fresh(exportRefs)
      invariant forall k :: 0 <= k < i ==> ops[k] in ops && Serializable(ops[k], bits)
      invariant DistinctOrdinals(ops) ==> forall k :: 0 <= k < i ==>
                  && exportRefs[ops[k].ordinal.value].Some?
                  && IsSerialized(ops[k], bits, exportRefs[ops[k].ordinal.value].value)
    {
      var e := ops[i];
      assert e in ops;
      if e.ordinal.None? || e.function_.None? {
        return Failure(InvalidArgument);
      }
      var kernel: Result<Kernel>, inputs: array<ColumnDef>, outputs: array<ColumnDef>;
      kernel, inputs, outputs := GetExport(e.function_.value, bits);
      if kernel.Failure? {
        return Failure(InvalidArgument);
      }
      exportRefs[e.ordinal.value] :=
        Some(ExportDef(Some(e.name), kernel.value.bitstream, inputs[..], outputs[..], e.constantCount, e.bindingCount));
    }
    if DistinctOrdinals(ops) {
      OrdinalsFillSlots(ops);
      forall s | 0 <= s < |ops|
        ensures exportRefs[s].Some?
      {
        var k :| 0 <= k < |ops| && ops[k].ordinal == Some(s);
        assert exportRefs[ops[k].ordinal.value].Some?;
      }
    }
    return Success(exportRefs[..]);
  }

  // Distinct ordinals below the number of exports name every slot.
  lemma OrdinalsFillSlots(ops: seq<ExportOp>)
    requires DistinctOrdinals(ops)
    requires forall e :: e in ops ==> e.ordinal.Some? && e.ordinal.value < |ops|
    ensures forall s :: 0 <= s < |ops| ==> exists k :: 0 <= k < |ops| && ops[k].ordinal == Some(s)
  {
    var named := Named(ops, |ops|);
    var slots := Below(|ops|);
    assert named <= slots;
    SubsetOfSameSize(named, slots);
    forall s | 0 <= s < |ops|
      ensures exists k :: 0 <= k < |ops| && ops[k].ordinal == Some(s)
    {
      assert s in slots && s in named;
    }
  }

  ghost function Named(ops: seq<ExportOp>, n: nat): (r: set<nat>)
    requires n <= |ops| && DistinctOrdinals(ops) && forall e :: e in ops ==> e.ordinal.Some?
    ensures |r| == n && forall s :: s in r ==> exists k :: 0 <= k < n && ops[k].ordinal == Some(s)
  {
    if n == 0 then {}
    else
      assert ops[n - 1] in ops;
      Named(ops, n - 1) + {ops[n - 1].ordinal.value}
  }

  ghost function Below(n: nat): (r: set<nat>)
    ensures |r| == n && forall s: nat :: s in r <==> s < n
  {
    if n == 0 then {} else Below(n - 1) + {n - 1}
  }

  lemma SubsetOfSameSize(a: set<nat>, b: set<nat>)
    requires a <= b && |a| == |b|
    ensures a == b
  {
    assert |b - a| == |b| - |a|;
  }

  // A serialized export passes verification exactly when every column it uses is in
  // the layout and its static offset is a whole number of words.
  predicate InLayoutColumn(b: BindingOp, e: ExportOp)
    requires FitsColumn(b)
  {
    Elements(b.sizes.value) > 0 ==>
      && b.binding < e.bindingCount
      && (b.offset.static_.Some? ==> b.offset.static_.value % 4 == 0)
      && forall o :: o in b.offset.ordinals ==> o < e.constantCount
  }

  lemma ColumnVerifiesIff(b: BindingOp, stride: u32, e: ExportOp)
    requires FitsColumn(b) && |b.offset.ordinals| <= 2
    ensures ColumnVerifies(ColumnOf(b, stride), e.bindingCount, e.constantCount) <==> InLayoutColumn(b, e)
  {
  }

  lemma SerializedVerifiesIff(e: ExportOp, bits: Bitstreams, def: ExportDef)
    requires |bits.add| == |bits.relu| == KERNEL_SIZE
    requires Serializable(e, bits) && IsSerialized(e, bits, def)
    requires forall b :: b in e.function_.value.loads ==> |b.offset.ordinals| <= 2
    requires |e.function_.value.store.offset.ordinals| <= 2
    ensures ExportVerifies(def) <==>
            && (forall b :: b in e.function_.value.loads ==> InLayoutColumn(b, e))
            && InLayoutColumn(e.function_.value.store, e)
  {
    hide ColumnVerifies, InLayoutColumn, ColumnOf;
    var m := e.function_.value;
    var kernel := KernelOf(m.kind, bits);
    ColumnVerifiesIff(m.store, 0, e);
    UnusedVerifies(e);
    assert ColumnVerifies(def.outputs[kernel.outputColumn], e.bindingCount, e.constantCount) <==> InLayoutColumn(m.store, e);
    ColumnVerifiesIff(m.loads[0], 1, e);
    assert m.loads[0] in m.loads;
    assert def.inputs[0] == ColumnOf(m.loads[0], 1) && kernel.inputColumns[0] == 0;
    if m.kind.AddKind? {
      ColumnVerifiesIff(m.loads[1], 1, e);
      assert m.loads[1] in m.loads;
      assert def.inputs[1] == ColumnOf(m.loads[1], 1) && kernel.inputColumns[1] == 1;
    }
  }

  lemma UnusedVerifies(e: ExportOp)
    ensures ColumnVerifies(UNUSED, e.bindingCount, e.constantCount)
  {
  }
}
