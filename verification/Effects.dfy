// What recorded commands do, byte by byte and word by word, at addresses written out
// (command_buffer.c).
module Effects {
  import opened Buffers
  import opened Columns
  import opened Commands
  import opened Executables
  import opened Jobs
  import opened Memory
  import opened Status
  import opened Words

  // ---- Transfers ----

  // A copy puts byte i of the source range where byte i of the target range is.
  lemma CopyEffect(v: Flat, source: Range, target: Range, kernels: Kernels, owned: set<nat>, i: nat)
    requires LinesExist(owned, |v|) && Recorded(Copy(source, target), owned) && i < target.length
    requires var from := 4 * source.buffer.baseWords + source.buffer.byteOffset + source.offset;
             var to := 4 * target.buffer.baseWords + target.buffer.byteOffset + target.offset;
             from + target.length <= to || to + target.length <= from
    ensures var from := 4 * source.buffer.baseWords + source.buffer.byteOffset + source.offset + i;
            var to := 4 * target.buffer.baseWords + target.buffer.byteOffset + target.offset + i;
            && from / 64 < |v| && to / 64 < |v|
            && FlatStep(v, Copy(source, target), kernels, owned)[to / 64][to % 64] == v[from / 64][from % 64]
  {
    hide CopyBytes;
    RangeOwned(source, owned);
    RangeOwned(target, owned);
    BytesExist(Address(source), source.length, owned, |v|);
    BytesExist(Address(target), target.length, owned, |v|);
    CopyMovesBytes(v, Address(source), Address(target), target.length, i);
  }

  // A fill repeats the pattern over the range.
  lemma FillEffect(v: Flat, target: Range, pattern: seq<byte>, kernels: Kernels, owned: set<nat>, i: nat)
    requires LinesExist(owned, |v|) && Recorded(Fill(target, pattern), owned) && Accepted(Fill(target, pattern))
    requires i < target.length
    ensures var to := 4 * target.buffer.baseWords + target.buffer.byteOffset + target.offset + i;
            && |pattern| > 0 && to / 64 < |v|
            && FlatStep(v, Fill(target, pattern), kernels, owned)[to / 64][to % 64] == pattern[i % |pattern|]
  {
    hide PutBytes;
    PutEffect(v, target, Repeated(pattern, target.length), owned, i);
  }

  // An update writes the data from its offset on.
  lemma UpdateEffect(v: Flat, data: seq<byte>, dataOffset: nat, target: Range, kernels: Kernels, owned: set<nat>, i: nat)
    requires LinesExist(owned, |v|) && Recorded(Update(data, dataOffset, target), owned) && i < target.length
    ensures var to := 4 * target.buffer.baseWords + target.buffer.byteOffset + target.offset + i;
            && dataOffset + i < |data| && to / 64 < |v|
            && FlatStep(v, Update(data, dataOffset, target), kernels, owned)[to / 64][to % 64] == data[dataOffset + i]
  {
    hide PutBytes;
    PutEffect(v, target, data[dataOffset..dataOffset + target.length], owned, i);
  }

  lemma PutEffect(v: Flat, target: Range, bytes: seq<byte>, owned: set<nat>, i: nat)
    requires LinesExist(owned, |v|) && UsableRange(target, owned) && |bytes| == target.length && i < target.length
    ensures (Address(target) + i) / 64 < |v|
    ensures At(PutRange(v, target, bytes, owned), Address(target) + i) == bytes[i]
  {
    RangeOwned(target, owned);
    BytesExist(Address(target), |bytes|, owned, |v|);
    PutBytesAt(v, Address(target), bytes, Address(target) + i);
  }

  // None of them changes a byte outside its target, and the others change no byte.
  lemma TransferFrame(v: Flat, command: Command, target: Range, kernels: Kernels, owned: set<nat>, a: nat)
    requires LinesExist(owned, |v|) && Recorded(command, owned) && Accepted(command) && a / 64 < |v|
    requires match command
             case Copy(_, t) => t == target
             case Fill(t, _) => t == target
             case Update(_, _, t) => t == target
             case _ => false
    requires var to := 4 * target.buffer.baseWords + target.buffer.byteOffset + target.offset;
             a < to || to + target.length <= a
    ensures FlatStep(v, command, kernels, owned)[a / 64][a % 64] == v[a / 64][a % 64]
  {
    hide PutBytes, CopyBytes;
    RangeOwned(target, owned);
    if target.length != 0 {
      BytesExist(Address(target), target.length, owned, |v|);
      match command
      case Copy(source, _) =>
        RangeOwned(source, owned);
        BytesExist(Address(source), source.length, owned, |v|);
        CopyLeavesRest(v, Address(source), Address(target), target.length, a);
      case Fill(_, pattern) => PutBytesAt(v, Address(target), Repeated(pattern, target.length), a);
      case Update(data, dataOffset, _) =>
        PutBytesAt(v, Address(target), data[dataOffset..dataOffset + target.length], a);
    }
  }

  lemma NoEffect(v: Flat, command: Command, kernels: Kernels, owned: set<nat>)
    requires LinesExist(owned, |v|) && Recorded(command, owned) && Accepted(command)
    requires command.Flush? || command.Invalidate? || command.Barrier?
    ensures FlatStep(v, command, kernels, owned) == v
  {
  }

  // Byte i of memory from `start` on, zero outside memory.
  function ByteFrom(v: Flat, start: nat, i: nat): (b: byte) {
    if (start + i) / 64 < |v| then v[(start + i) / 64][(start + i) % 64] else 0
  }

  // What the CPU reads after a transfer command that succeeded.
  method ExecuteTransfer(commands: CommandBuffer, command: Command, target: Range) returns (status: Status)
    requires commands.dev.Valid() && commands.dev.stale == {} && Recorded(command, commands.dev.owned)
    requires match command
             case Copy(_, t) => t == target
             case Fill(t, _) => t == target
             case Update(_, _, t) => t == target
             case _ => false
    modifies commands.dev
    ensures status.Ok? ==>
              var before, after := CpuView(old(commands.dev.mem)), CpuView(commands.dev.mem);
              var to := 4 * target.buffer.baseWords + target.buffer.byteOffset + target.offset;
              && (match command
                  case Copy(source, _) =>
                    var from := 4 * source.buffer.baseWords + source.buffer.byteOffset + source.offset;
                    from + target.length <= to || to + target.length <= from ==>
                      forall i: nat :: i < target.length ==> ByteFrom(after, to, i) == ByteFrom(before, from, i)
                  case Fill(_, pattern) =>
                    |pattern| > 0 && forall i: nat :: i < target.length ==> ByteFrom(after, to, i) == pattern[i % |pattern|]
                  case Update(data, dataOffset, _) =>
                    && dataOffset + target.length <= |data|
                    && forall i: nat :: i < target.length ==> ByteFrom(after, to, i) == data[dataOffset + i]
                  case _ => true)
              && forall a: nat :: a / 64 in commands.dev.owned && !(to <= a < to + target.length) ==>
                   ByteFrom(after, a, 0) == ByteFrom(before, a, 0)
  {
    hide FlatStep, Recorded, Accepted, ByteFrom, LineAgrees, CpuView;
    ghost var dev := commands.dev;
    CoherentIff(dev.mem, dev.flat);
    ghost var before := dev.flat;
    status := commands.Execute(command);
    if status.Ok? {
      CoherentIff(dev.mem, dev.flat);
      TransferSeen(before, dev.flat, command, target, dev.Meaning(), dev.owned);
    }
  }

  lemma TransferSeen(before: Flat, after: Flat, command: Command, target: Range, kernels: Kernels, owned: set<nat>)
    requires LinesExist(owned, |before|) && Recorded(command, owned) && Accepted(command)
    requires match command
             case Copy(_, t) => t == target
             case Fill(t, _) => t == target
             case Update(_, _, t) => t == target
             case _ => false
    requires AgreeOn(after, FlatStep(before, command, kernels, owned), owned)
    ensures var to := 4 * target.buffer.baseWords + target.buffer.byteOffset + target.offset;
            && (match command
                case Copy(source, _) =>
                  var from := 4 * source.buffer.baseWords + source.buffer.byteOffset + source.offset;
                  from + target.length <= to || to + target.length <= from ==>
                    forall i: nat :: i < target.length ==> ByteFrom(after, to, i) == ByteFrom(before, from, i)
                case Fill(_, pattern) =>
                  |pattern| > 0 && forall i: nat :: i < target.length ==> ByteFrom(after, to, i) == pattern[i % |pattern|]
                case Update(data, dataOffset, _) =>
                  && dataOffset + target.length <= |data|
                  && forall i: nat :: i < target.length ==> ByteFrom(after, to, i) == data[dataOffset + i]
                case _ => true)
            && forall a: nat :: a / 64 in owned && !(to <= a < to + target.length) ==>
                 ByteFrom(after, a, 0) == ByteFrom(before, a, 0)
  {
    hide FlatStep, ByteFrom, AgreeOn, Recorded, Accepted, LinesExist;
    match command {
      case Copy(source, _) => CopySeen(before, after, source, target, kernels, owned);
      case Fill(_, pattern) => FillSeen(before, after, target, pattern, kernels, owned);
      case Update(data, dataOffset, _) => UpdateSeen(before, after, data, dataOffset, target, kernels, owned);
    }
    RestSeen(before, after, command, target, kernels, owned);
  }

  lemma TargetSeen(after: Flat, now: Flat, target: Range, owned: set<nat>, i: nat)
    requires LinesExist(owned, |now|) && UsableRange(target, owned) && AgreeOn(after, now, owned) && i < target.length
    ensures var to := 4 * target.buffer.baseWords + target.buffer.byteOffset + target.offset;
            ByteFrom(after, to, i) == ByteFrom(now, to, i)
  {
    RangeOwned(target, owned);
    assert ByteOn(Address(target), i, owned);
  }

  lemma CopySeen(before: Flat, after: Flat, source: Range, target: Range, kernels: Kernels, owned: set<nat>)
    requires LinesExist(owned, |before|) && Recorded(Copy(source, target), owned)
    requires AgreeOn(after, FlatStep(before, Copy(source, target), kernels, owned), owned)
    ensures var from := 4 * source.buffer.baseWords + source.buffer.byteOffset + source.offset;
            var to := 4 * target.buffer.baseWords + target.buffer.byteOffset + target.offset;
            from + target.length <= to || to + target.length <= from ==>
              forall i: nat :: i < target.length ==> ByteFrom(after, to, i) == ByteFrom(before, from, i)
  {
    hide FlatStep, AgreeOn, UsableRange;
    var from := 4 * source.buffer.baseWords + source.buffer.byteOffset + source.offset;
    var to := 4 * target.buffer.baseWords + target.buffer.byteOffset + target.offset;
    if from + target.length <= to || to + target.length <= from {
      forall i: nat | i < target.length
        ensures ByteFrom(after, to, i) == ByteFrom(before, from, i)
      {
        CopyEffect(before, source, target, kernels, owned, i);
        TargetSeen(after, FlatStep(before, Copy(source, target), kernels, owned), target, owned, i);
      }
    }
  }

  lemma FillSeen(before: Flat, after: Flat, target: Range, pattern: seq<byte>, kernels: Kernels, owned: set<nat>)
    requires LinesExist(owned, |before|) && Recorded(Fill(target, pattern), owned) && Accepted(Fill(target, pattern))
    requires AgreeOn(after, FlatStep(before, Fill(target, pattern), kernels, owned), owned)
    ensures var to := 4 * target.buffer.baseWords + target.buffer.byteOffset + target.offset;
            |pattern| > 0 && forall i: nat :: i < target.length ==> ByteFrom(after, to, i) == pattern[i % |pattern|]
  {
    hide FlatStep, AgreeOn, UsableRange;
    var to := 4 * target.buffer.baseWords + target.buffer.byteOffset + target.offset;
    forall i: nat | i < target.length
      ensures ByteFrom(after, to, i) == pattern[i % |pattern|]
    {
      FillEffect(before, target, pattern, kernels, owned, i);
      TargetSeen(after, FlatStep(before, Fill(target, pattern), kernels, owned), target, owned, i);
    }
  }

  lemma UpdateSeen(before: Flat, after: Flat, data: seq<byte>, dataOffset: nat, target: Range, kernels: Kernels,
                   owned: set<nat>)
    requires LinesExist(owned, |before|) && Recorded(Update(data, dataOffset, target), owned)
    requires AgreeOn(after, FlatStep(before, Update(data, dataOffset, target), kernels, owned), owned)
    ensures var to := 4 * target.buffer.baseWords + target.buffer.byteOffset + target.offset;
            && dataOffset + target.length <= |data|
            && forall i: nat :: i < target.length ==> ByteFrom(after, to, i) == data[dataOffset + i]
  {
    hide FlatStep, AgreeOn, UsableRange;
    var to := 4 * target.buffer.baseWords + target.buffer.byteOffset + target.offset;
    forall i: nat | i < target.length
      ensures ByteFrom(after, to, i) == data[dataOffset + i]
    {
      UpdateEffect(before, data, dataOffset, target, kernels, owned, i);
      TargetSeen(after, FlatStep(before, Update(data, dataOffset, target), kernels, owned), target, owned, i);
    }
  }

  lemma RestSeen(before: Flat, after: Flat, command: Command, target: Range, kernels: Kernels, owned: set<nat>)
    requires LinesExist(owned, |before|) && Recorded(command, owned) && Accepted(command)
    requires match command
             case Copy(_, t) => t == target
             case Fill(t, _) => t == target
             case Update(_, _, t) => t == target
             case _ => false
    requires AgreeOn(after, FlatStep(before, command, kernels, owned), owned)
    ensures var to := 4 * target.buffer.baseWords + target.buffer.byteOffset + target.offset;
            forall a: nat :: a / 64 in owned && !(to <= a < to + target.length) ==>
              ByteFrom(after, a, 0) == ByteFrom(before, a, 0)
  {
    hide FlatStep, Recorded, Accepted;
    var to := 4 * target.buffer.baseWords + target.buffer.byteOffset + target.offset;
    forall a: nat | a / 64 in owned && !(to <= a < to + target.length)
      ensures ByteFrom(after, a, 0) == ByteFrom(before, a, 0)
    {
      TransferFrame(before, command, target, kernels, owned, a);
    }
  }

  // ---- Dispatches ----

  // The runtime part of a column's offset: a low and a high half, if it has any.
  function PushedOffset(def: ColumnDef, constants: seq<u32>): (bytes: nat)
    requires |def.offsetConstants| <= 2 && forall o :: o in def.offsetConstants ==> o < |constants|
  {
    if def.offsetConstants == [] then 0
    else
      assert def.offsetConstants[0] in def.offsetConstants;
      var low: nat := constants[def.offsetConstants[0]];
      if |def.offsetConstants| == 1 then low
      else
        assert def.offsetConstants[1] in def.offsetConstants;
        low + 0x1_0000_0000 * constants[def.offsetConstants[1]] as int
  }

  lemma SumIsPushed(def: ColumnDef, constants: seq<u32>)
    requires |def.offsetConstants| <= 2 && Present(def.offsetConstants, constants)
    ensures ConstantSum(def.offsetConstants, constants) == PushedOffset(def, constants)
  {
    var o := def.offsetConstants;
    Pow2Is32();
    assert Pow2(0) == 1;
    if |o| >= 1 {
      assert o[..1][..0] == [] && ConstantSum([], constants) == 0;
      assert o[0] in o && ConstantSum(o[..1], constants) == constants[o[0]] * Pow2(0);
      if |o| == 2 {
        assert o[1] in o && ConstantSum(o, constants) == ConstantSum(o[..1], constants) + constants[o[1]] * Pow2(32);
      } else {
        assert o[..1] == o;
      }
    }
  }

  // The byte address of word k of a column: the buffer, the binding, the column's offset
  // and `stride` words a step.
  function ColumnByte(def: ColumnDef, stride: nat, d: Dispatch, k: nat): (byte: int) {
    if def.binding >= |d.bindings| || d.bindings[def.binding].buffer.None? then -1
    else if |def.offsetConstants| > 2 || exists o :: o in def.offsetConstants && o >= |d.constants| then -1
    else
      var ref := d.bindings[def.binding];
      4 * ref.buffer.value.baseWords + ref.buffer.value.byteOffset + ref.offset
      + def.byteOffset + PushedOffset(def, d.constants) + 4 * (k * stride)
  }

  lemma ColumnWord(def: ColumnDef, isInput: bool, d: Dispatch, owned: set<nat>, k: nat)
    requires SafeColumn(def, isInput, d.constants, d.bindings, owned) && k < def.wordCount
    requires Resolve(def, isInput, d.constants, d.bindings).Success?
    ensures 4 * StreamWord(ToStream(Resolve(def, isInput, d.constants, d.bindings).value, isInput), k)
            == ColumnByte(def, if isInput then def.stride else 1, d, k)
  {
    hide Resolve, ValidRef, FitsMachine, ExactSpan, ConstantSum, PushedOffset, ReadsOutside, BoundLength;
    Resolved(def, isInput, d.constants, d.bindings);
    SumIsPushed(def, d.constants);
    Footprint(def, isInput, d.constants, d.bindings, k);
  }

  // A dispatch with one output column leaves in word k of it what the bitstream in its
  // kernel makes of the words of the input columns.
  lemma RunEffect(v: Flat, d: Dispatch, kernels: Kernels, owned: set<nat>, c: nat, k: nat, ins: seq<seq<u32>>)
    requires LinesExist(owned, |v|) && SafeDispatch(d, owned) && Resolves(d) && c < COLUMN_COUNT
    requires var def := d.exports[d.function_].def;
             && (forall e :: 0 <= e < COLUMN_COUNT && e != c ==> def.outputs[e].wordCount == 0) && k < def.outputs[c].wordCount
             && |ins| == COLUMN_COUNT && (forall e :: 0 <= e < COLUMN_COUNT ==> |ins[e]| == def.inputs[e].wordCount)
             && forall e, i :: 0 <= e < COLUMN_COUNT && 0 <= i < |ins[e]| ==>
                  IsWord(v, ColumnByte(def.inputs[e], def.inputs[e].stride, d, i), ins[e][i])
    requires d.exports[d.function_].kernel.id in kernels.loaded
    ensures IsWord(FlatStep(v, Run(d), kernels, owned), ColumnByte(d.exports[d.function_].def.outputs[c], 1, d, k),
                   kernels.semantics(kernels.loaded[d.exports[d.function_].kernel.id], ins, c, k))
  {
    hide SafeColumn, Resolve, ColumnByte, WordAt, FlatJob;
    var def, id := d.exports[d.function_].def, d.exports[d.function_].kernel.id;
    DispatchOwned(d, owned);
    var conf := DispatchConf(d);
    forall e | 0 <= e < COLUMN_COUNT
      ensures conf.outputs[e].count == def.outputs[e].wordCount && conf.inputs[e].count == def.inputs[e].wordCount
    {
      ColumnWordsSynced(def.outputs[e], false, d.constants, d.bindings, owned,
                        Resolve(def.outputs[e], false, d.constants, d.bindings).value);
      ColumnWordsSynced(def.inputs[e], true, d.constants, d.bindings, owned,
                        Resolve(def.inputs[e], true, d.constants, d.bindings).value);
    }
    ReadsTheColumns(v, d, owned, ins);
    SingleOutput(v, kernels, id, conf, owned, c);
    ColumnWord(def.outputs[c], false, d, owned, k);
    assert StreamWord(conf.outputs[c], k) / 16 in owned;
  }

  // The word at this byte address.
  predicate IsWord(v: Flat, byte: int, x: u32) {
    byte >= 0 && byte % 4 == 0 && byte / 64 < |v| && WordAt(v, byte / 4) == x
  }

  lemma ReadsTheColumns(v: Flat, d: Dispatch, owned: set<nat>, ins: seq<seq<u32>>)
    requires LinesExist(owned, |v|) && SafeDispatch(d, owned) && Resolves(d) && ConfOn(DispatchConf(d), owned)
    requires var def := d.exports[d.function_].def;
             && |ins| == COLUMN_COUNT && (forall e :: 0 <= e < COLUMN_COUNT ==> |ins[e]| == def.inputs[e].wordCount)
             && forall e, i :: 0 <= e < COLUMN_COUNT && 0 <= i < |ins[e]| ==>
                  IsWord(v, ColumnByte(def.inputs[e], def.inputs[e].stride, d, i), ins[e][i])
    ensures ReadStreams(v, DispatchConf(d).inputs, owned) == ins
  {
    hide SafeColumn, Resolve, ColumnByte, WordAt;
    var def, conf := d.exports[d.function_].def, DispatchConf(d);
    forall e | 0 <= e < COLUMN_COUNT
      ensures ReadStream(v, conf.inputs[e], owned) == ins[e]
    {
      var s := conf.inputs[e];
      assert s in conf.inputs;
      ColumnWordsSynced(def.inputs[e], true, d.constants, d.bindings, owned,
                        Resolve(def.inputs[e], true, d.constants, d.bindings).value);
      forall i | 0 <= i < s.count
        ensures ReadStream(v, s, owned)[i] == ins[e][i]
      {
        ColumnWord(def.inputs[e], true, d, owned, i);
      }
    }
  }
}
