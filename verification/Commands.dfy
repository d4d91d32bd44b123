// The command buffer that runs recorded commands on the calling thread
// (command_buffer.c), over the cached, non-coherent memory of a device.
module Commands {
  import opened Buffers
  import opened CacheLines
  import opened Columns
  import opened Device
  import opened Executables
  import opened Jobs
  import opened Memory
  import opened Status
  import opened Words

  // ---- Dispatch ----

  datatype Dispatch = Dispatch(exports: seq<Export>, function_: nat, constants: seq<u32>, bindings: seq<BufferRef>)

  predicate DefsResolve(d: Dispatch, def: ExportDef)
    requires ReadableExport(def, d.constants)
  {
    forall c :: 0 <= c < COLUMN_COUNT ==>
      && Resolve(def.inputs[c], true, d.constants, d.bindings).Success?
      && Resolve(def.outputs[c], false, d.constants, d.bindings).Success?
  }

  predicate ReadableExport(def: ExportDef, constants: seq<u32>) {
    && |def.inputs| == |def.outputs| == COLUMN_COUNT
    && forall c :: 0 <= c < COLUMN_COUNT ==> Readable(def.inputs[c], constants) && Readable(def.outputs[c], constants)
  }

  predicate Resolves(d: Dispatch) {
    && d.function_ < |d.exports| && ReadableExport(d.exports[d.function_].def, d.constants)
    && DefsResolve(d, d.exports[d.function_].def)
  }

  function ToStream(column: Column, isInput: bool): (s: Stream) {
    Stream(column.wordsFromBase, column.wordCount, if isInput then column.stride else 1)
  }

  // The columns of a dispatch whose columns all resolve.
  function DispatchConf(d: Dispatch): (conf: Conf)
    requires Resolves(d)
    ensures |conf.inputs| == |conf.outputs| == COLUMN_COUNT
  {
    var def := d.exports[d.function_].def;
    Conf(seq(COLUMN_COUNT, c requires 0 <= c < COLUMN_COUNT =>
               ToStream(Resolve(def.inputs[c], true, d.constants, d.bindings).value, true)),
         seq(COLUMN_COUNT, c requires 0 <= c < COLUMN_COUNT =>
               ToStream(Resolve(def.outputs[c], false, d.constants, d.bindings).value, false)))
  }

  // The driver reads only constants that are there, the binding of a used column is a
  // usable buffer, and no sum or product of the resolution wraps.
  ghost predicate SafeColumn(def: ColumnDef, isInput: bool, constants: seq<u32>, bindings: seq<BufferRef>, owned: set<nat>) {
    && Readable(def, constants)
    && (def.wordCount > 0 && Resolve(def, isInput, constants, bindings).Success? ==>
          && ValidRef(bindings[def.binding]) && OwnsBuffer(bindings[def.binding].buffer.value, owned)
          && Present(def.offsetConstants, constants) && FitsMachine(def, isInput, constants))
  }

  ghost predicate SafeDispatch(d: Dispatch, owned: set<nat>) {
    d.function_ < |d.exports| ==>
      && ReadableExport(d.exports[d.function_].def, d.constants)
      && forall c :: 0 <= c < COLUMN_COUNT ==>
           && SafeColumn(d.exports[d.function_].def.inputs[c], true, d.constants, d.bindings, owned)
           && SafeColumn(d.exports[d.function_].def.outputs[c], false, d.constants, d.bindings, owned)
  }

  // Every word of a resolved column is on a line that is synced, and owned.
  lemma ColumnWordsSynced(def: ColumnDef, isInput: bool, constants: seq<u32>, bindings: seq<BufferRef>,
                          owned: set<nat>, column: Column)
    requires SafeColumn(def, isInput, constants, bindings, owned)
    requires Resolve(def, isInput, constants, bindings) == Success(column)
    ensures column.buffer.None? <==> def.wordCount == 0
    ensures column.wordCount == def.wordCount
    ensures StreamOn(ToStream(column, isInput), owned)
    ensures column.buffer.Some? ==>
              && column.buffer.value.strela && Usable(column.buffer.value, owned)
              && column.offset + column.length <= column.buffer.value.allocSize
              && forall i :: 0 <= i < column.wordCount ==>
                   InSync(column.buffer.value, column.offset, column.length, StreamWord(ToStream(column, isInput), i) / 16)
  {
    if def.wordCount > 0 {
      Resolved(def, isInput, constants, bindings);
      forall i | 0 <= i < def.wordCount
        ensures InSync(column.buffer.value, column.offset, column.length, StreamWord(ToStream(column, isInput), i) / 16)
        ensures StreamWord(ToStream(column, isInput), i) / 16 in owned
        ensures column.offset + column.length <= column.buffer.value.allocSize
      {
        Footprint(def, isInput, constants, bindings, i);
        WordInSync(column, StreamWord(ToStream(column, isInput), i));
      }
      Footprint(def, isInput, constants, bindings, 0);
    }
  }

  lemma WordInSync(column: Column, w: nat)
    requires column.buffer.Some? && ValidBuffer(column.buffer.value)
    requires var at := 4 * w - 4 * column.buffer.value.baseWords;
             column.offset <= at && at + 4 <= column.offset + column.length <= column.buffer.value.allocSize
    ensures InSync(column.buffer.value, column.offset, column.length, w / 16)
    ensures InSync(column.buffer.value, 0, column.buffer.value.allocSize, w / 16)
  {
  }

  // ---- Commands and their meaning without a cache ----

  datatype Command =
    | Fill(target: Range, pattern: seq<byte>)
    | Update(data: seq<byte>, dataOffset: nat, target: Range)
    | Copy(source: Range, target: Range)
    | Flush(target: Range, whole: bool)
    | Invalidate(target: Range, whole: bool)
    | Barrier
    | Run(dispatch: Dispatch)

  // What the recorder guarantees: in-range lengths on usable buffers, except that the
  // length of a flush or invalidate may be the unresolved whole buffer.
  ghost predicate Recorded(command: Command, owned: set<nat>) {
    match command
    case Fill(target, _) => UsableRange(target, owned)
    case Update(source, sourceOffset, target) =>
      UsableRange(target, owned) && sourceOffset + target.length <= |source|
    case Copy(source, target) =>
      UsableRange(source, owned) && UsableRange(target, owned) && source.length == target.length
    case Flush(target, _) => UsableRange(target, owned)
    case Invalidate(target, _) => UsableRange(target, owned)
    case Barrier => true
    case Run(dispatch) => SafeDispatch(dispatch, owned)
  }

  // Flushing or invalidating the range reaches all its bytes: always when its length is
  // given, else as WholeSyncIff says.
  predicate Reached(target: Range, whole: bool) {
    !whole || WholeCovers(target.buffer.byteOffset + target.offset, target.length)
  }

  // The command can succeed: its own checks pass.
  predicate Accepted(command: Command) {
    match command
    case Fill(target, pattern) => |pattern| > 0 && target.length % |pattern| == 0
    case Run(dispatch) => Resolves(dispatch)
    case _ => true
  }

  lemma DispatchOwned(d: Dispatch, owned: set<nat>)
    requires SafeDispatch(d, owned) && Resolves(d)
    ensures ConfOn(DispatchConf(d), owned)
  {
    var def, conf := d.exports[d.function_].def, DispatchConf(d);
    forall c | 0 <= c < COLUMN_COUNT
      ensures StreamOn(conf.inputs[c], owned) && StreamOn(conf.outputs[c], owned)
    {
      ColumnWordsSynced(def.inputs[c], true, d.constants, d.bindings, owned,
                        Resolve(def.inputs[c], true, d.constants, d.bindings).value);
      ColumnWordsSynced(def.outputs[c], false, d.constants, d.bindings, owned,
                        Resolve(def.outputs[c], false, d.constants, d.bindings).value);
    }
  }

  // The effect of an accepted command on a memory without caches.
  ghost function FlatStep(v: Flat, command: Command, kernels: Kernels, owned: set<nat>): (r: Flat)
    requires LinesExist(owned, |v|) && Recorded(command, owned) && Accepted(command)
    ensures |r| == |v|
  {
    match command
    case Fill(target, pattern) => PutRange(v, target, Repeated(pattern, target.length), owned)
    case Update(source, sourceOffset, target) =>
      PutRange(v, target, source[sourceOffset..sourceOffset + target.length], owned)
    case Copy(source, target) => CopyRange(v, source, target, owned)
    case Run(dispatch) =>
      DispatchOwned(dispatch, owned);
      FlatJob(v, kernels, dispatch.exports[dispatch.function_].kernel.id, DispatchConf(dispatch), owned)
    case _ => v
  }

  ghost function PutRange(v: Flat, target: Range, bytes: seq<byte>, owned: set<nat>): (r: Flat)
    requires LinesExist(owned, |v|) && UsableRange(target, owned) && |bytes| == target.length
    ensures |r| == |v|
  {
    RangeOwned(target, owned);
    if bytes == [] then v
    else
      BytesExist(Address(target), |bytes|, owned, |v|);
      PutBytes(v, Address(target), bytes)
  }

  ghost function CopyRange(v: Flat, source: Range, target: Range, owned: set<nat>): (r: Flat)
    requires LinesExist(owned, |v|) && UsableRange(source, owned) && UsableRange(target, owned)
    requires source.length == target.length
    ensures |r| == |v|
  {
    RangeOwned(source, owned);
    RangeOwned(target, owned);
    if source.length == 0 then v
    else
      BytesExist(Address(source), source.length, owned, |v|);
      BytesExist(Address(target), target.length, owned, |v|);
      CopyBytes(v, Address(source), Address(target), target.length)
  }

  ghost predicate AllRunnable(commands: seq<Command>, owned: set<nat>) {
    forall c :: c in commands ==> Recorded(c, owned) && Accepted(c)
  }

  ghost function FlatRun(v: Flat, commands: seq<Command>, kernels: Kernels, owned: set<nat>): (r: Flat)
    requires LinesExist(owned, |v|) && AllRunnable(commands, owned)
    ensures |r| == |v|
  {
    if commands == [] then v
    else
      var last := |commands| - 1;
      assert commands[last] in commands;
      FlatStep(FlatRun(v, commands[..last], kernels, owned), commands[last], kernels, owned)
  }

  // A command depends on, and changes, only lines this thread owns.
  lemma FlatStepAgrees(v: Flat, w: Flat, command: Command, kernels: Kernels, owned: set<nat>)
    requires LinesExist(owned, |v|) && Recorded(command, owned) && Accepted(command)
    requires AgreeOn(v, w, owned)
    ensures AgreeOn(FlatStep(v, command, kernels, owned), FlatStep(w, command, kernels, owned), owned)
  {
    match command
    case Fill(target, pattern) => PutRangeAgrees(v, w, target, Repeated(pattern, target.length), owned);
    case Update(source, sourceOffset, target) =>
      PutRangeAgrees(v, w, target, source[sourceOffset..sourceOffset + target.length], owned);
    case Copy(source, target) => CopyRangeAgrees(v, w, source, target, owned);
    case Run(dispatch) =>
      DispatchOwned(dispatch, owned);
      FlatJobAgrees(v, w, kernels, dispatch.exports[dispatch.function_].kernel.id, DispatchConf(dispatch), owned);
    case _ =>
  }

  lemma PutRangeAgrees(v: Flat, w: Flat, target: Range, bytes: seq<byte>, owned: set<nat>)
    requires LinesExist(owned, |v|) && UsableRange(target, owned) && |bytes| == target.length
    requires AgreeOn(v, w, owned)
    ensures AgreeOn(PutRange(v, target, bytes, owned), PutRange(w, target, bytes, owned), owned)
  {
    if bytes != [] {
      RangeOwned(target, owned);
      BytesExist(Address(target), |bytes|, owned, |v|);
      PutBytesAgree(v, w, Address(target), bytes, owned);
    }
  }

  lemma CopyRangeAgrees(v: Flat, w: Flat, source: Range, target: Range, owned: set<nat>)
    requires LinesExist(owned, |v|) && UsableRange(source, owned) && UsableRange(target, owned)
    requires source.length == target.length && AgreeOn(v, w, owned)
    ensures AgreeOn(CopyRange(v, source, target, owned), CopyRange(w, source, target, owned), owned)
  {
    if source.length != 0 {
      RangeOwned(source, owned);
      RangeOwned(target, owned);
      BytesExist(Address(source), source.length, owned, |v|);
      BytesExist(Address(target), target.length, owned, |v|);
      CopyBytesAgree(v, w, Address(source), Address(target), target.length, owned);
    }
  }

  // ---- The command buffer ----

  class CommandBuffer {
    const dev: Device

    constructor (device: Device)
      ensures dev == device
    {
      dev := device;
    }

    // iree_hal_strela_buffer_flush_range: what the CPU wrote becomes visible to the
    // device.
    method FlushRange(b: Buffer, offset: nat, length: nat) returns (status: Status)
      requires dev.Valid() && Usable(b, dev.owned) && offset + length <= b.allocSize
      modifies dev`mem, dev`flat, dev`err
      ensures dev.Valid() && dev.NothingDirtied() && dev.err == 0
      ensures AgreeOn(dev.flat, old(dev.flat), dev.owned)
      ensures status.Ok? ==> forall l :: InSync(b, offset, length, l) ==> l !in dev.mem.dirty
    {
      var r := BufferLines(offset, length);
      LinesToSync(b, offset, length, dev.owned);
      dev.BufferFlush((b.baseWords + r.offset) / 16, r.count / 16);
      status := dev.StatusFromDev();
    }

    // iree_hal_strela_buffer_invalidate_range: what the device wrote becomes visible
    // to the CPU. The lines are cleaned first, so nothing the CPU wrote is lost.
    method InvalidateRange(b: Buffer, offset: nat, length: nat) returns (status: Status)
      requires dev.Valid() && Usable(b, dev.owned) && offset + length <= b.allocSize
      modifies dev`mem, dev`flat, dev`err, dev`stale
      ensures dev.Valid() && dev.NothingDirtied() && dev.err == 0
      ensures AgreeOn(dev.flat, old(dev.flat), dev.owned)
      ensures dev.stale <= old(dev.stale)
      ensures status.Ok? ==> forall l :: InSync(b, offset, length, l) ==> l !in dev.stale
    {
      var r := BufferLines(offset, length);
      LinesToSync(b, offset, length, dev.owned);
      dev.BufferFlush((b.baseWords + r.offset) / 16, r.count / 16);
      dev.BufferInval((b.baseWords + r.offset) / 16, r.count / 16);
      status := dev.StatusFromDev();
    }

    // No byte of the range is on a stale line.
    ghost predicate Fresh(r: Range)
      reads dev
    {
      forall i: nat :: i < r.length ==> LineOf(r, i) !in dev.stale
    }

    // iree_hal_buffer_map_fill and map_write, as assumed: the bytes are written
    // through the mapping, and memory that is not coherent may be flushed.
    method MapWrite(target: Range, bytes: seq<byte>) returns (status: Status)
      requires dev.Valid() && Fresh(target)
      requires UsableRange(target, dev.owned) && |bytes| == target.length
      modifies dev`mem, dev`flat, dev`err
      ensures dev.Valid() && (old(dev.err) == 0 ==> dev.err == 0)
      ensures AgreeOn(dev.flat, PutRange(old(dev.flat), target, bytes, dev.owned), dev.owned)
    {
      hide Put, LineAgrees, OwnsBuffer, PutBytes;
      NoBytes(dev.flat, Address(target));
      RangeOwned(target, dev.owned);
      var start := Address(target);
      if bytes != [] {
        BytesExist(start, |bytes|, dev.owned, |dev.flat|);
      }
      for i := 0 to |bytes|
        invariant dev.Valid() && dev.err == old(dev.err)
        invariant bytes != [] ==> AgreeOn(dev.flat, PutBytes(old(dev.flat), start, bytes[..i]), dev.owned)
        invariant bytes == [] ==> dev.flat == old(dev.flat)
      {
        assert ByteOn(start, i, dev.owned) && LineOf(target, i) !in dev.stale;
        ghost var before := dev.flat;
        dev.StoreByte(start + i, bytes[i]);
        PutOneMore(old(dev.flat), start, bytes, i);
        PutAgrees(before, PutBytes(old(dev.flat), start, bytes[..i]), start + i, bytes[i], dev.owned);
      }
      assert bytes[..|bytes|] == bytes;
      status := Ok;
      var coherentType: bool := *;
      if target.buffer.strela && !coherentType {
        status := FlushRange(target.buffer, target.buffer.byteOffset + target.offset, target.length);
      }
    }

    // iree_hal_strela_command_buffer_fill_buffer
    method FillBuffer(target: Range, pattern: seq<byte>) returns (status: Status)
      requires dev.Valid() && Fresh(target)
      requires UsableRange(target, dev.owned)
      modifies dev`mem, dev`flat, dev`err
      ensures dev.Valid() && (old(dev.err) == 0 ==> dev.err == 0)
      ensures status.Ok? ==> Accepted(Fill(target, pattern))
      ensures status.Ok? ==>
                AgreeOn(dev.flat, FlatStep(old(dev.flat), Fill(target, pattern), dev.Meaning(), dev.owned), dev.owned)
    {
      if |pattern| == 0 || target.length % |pattern| != 0 {
        return Error(InvalidArgument);
      }
      status := MapWrite(target, Repeated(pattern, target.length));
    }

    method MoveByte(from: nat, to: nat)
      requires dev.Valid() && from / 64 !in dev.stale && to / 64 !in dev.stale
      requires from / 64 in dev.owned && to / 64 in dev.owned
      modifies dev`mem, dev`flat
      ensures dev.Valid() && from / 64 < |old(dev.flat)| && to / 64 < |old(dev.flat)|
      ensures AgreeOn(dev.flat, Put(old(dev.flat), to, At(old(dev.flat), from)), dev.owned)
    {
      var value := dev.LoadByte(from);
      PutAgrees(dev.flat, old(dev.flat), to, value, dev.owned);
      dev.StoreByte(to, value);
    }

    // iree_hal_strela_command_buffer_copy_buffer
    method CopyBuffer(source: Range, target: Range) returns (status: Status)
      requires dev.Valid() && Fresh(source) && Fresh(target)
      requires UsableRange(source, dev.owned) && UsableRange(target, dev.owned) && source.length == target.length
      modifies dev`mem, dev`flat, dev`err
      ensures dev.Valid() && (old(dev.err) == 0 ==> dev.err == 0)
      ensures AgreeOn(dev.flat, CopyRange(old(dev.flat), source, target, dev.owned), dev.owned)
    {
      hide At, Put, LineAgrees, OwnsBuffer, CopyBytes;
      RangeOwned(source, dev.owned);
      RangeOwned(target, dev.owned);
      var from, to := Address(source), Address(target);
      if source.length != 0 {
        BytesExist(from, source.length, dev.owned, |dev.flat|);
        BytesExist(to, source.length, dev.owned, |dev.flat|);
        CopyNothing(dev.flat, from, to);
      }
      for i := 0 to source.length
        invariant dev.Valid() && dev.err == old(dev.err)
        invariant source.length != 0 ==> AgreeOn(dev.flat, CopyBytes(old(dev.flat), from, to, i), dev.owned)
        invariant source.length == 0 ==> dev.flat == old(dev.flat)
      {
        assert ByteOn(from, i, dev.owned) && ByteOn(to, i, dev.owned);
        assert LineOf(source, i) !in dev.stale && LineOf(target, i) !in dev.stale;
        CopyStepAgrees(dev.flat, old(dev.flat), from, to, i, dev.owned);
        MoveByte(from + i, to + i);
      }
      status := Ok;
      var coherentType: bool := *;
      if target.buffer.strela && !coherentType {
        status := FlushRange(target.buffer, target.buffer.byteOffset + target.offset, target.length);
      }
    }

    // The columns of a dispatch, inputs and outputs in turn.
    method ResolveColumns(d: Dispatch) returns (status: Status, inputs: array<Column>, outputs: array<Column>)
      requires SafeDispatch(d, dev.owned) && d.function_ < |d.exports|
      ensures inputs.Length == outputs.Length == COLUMN_COUNT
      ensures status.Ok? <==> Resolves(d)
      ensures status.Ok? ==> AreColumns(d, inputs[..], outputs[..])
    {
      var def := d.exports[d.function_].def;
      status := Ok;
      inputs := new Column[COLUMN_COUNT](_ => Column(None, 0, 0, 0, 0, 0));
      outputs := new Column[COLUMN_COUNT](_ => Column(None, 0, 0, 0, 0, 0));
      var c := 0;
      while status.Ok? && c < COLUMN_COUNT
        invariant 0 <= c <= COLUMN_COUNT
        invariant status.Ok? ==> forall k :: 0 <= k < c ==>
                    && Resolve(def.inputs[k], true, d.constants, d.bindings) == Success(inputs[k])
                    && Resolve(def.outputs[k], false, d.constants, d.bindings) == Success(outputs[k])
        invariant !status.Ok? ==> !DefsResolve(d, def)
        decreases COLUMN_COUNT - c
      {
        var column: Column;
        ghost var outside: bool;
        status, column, outside := ColumnResolve(def.inputs[c], true, d.constants, d.bindings);
        if status.Ok? {
          inputs[c] := column;
          status, column, outside := ColumnResolve(def.outputs[c], false, d.constants, d.bindings);
          if status.Ok? {
            outputs[c] := column;
          }
        }
        c := c + 1;
      }
    }

    // Cleans the lines of every column: input lines so that DRAM holds the operands,
    // output lines so that no later eviction overwrites results.
    method FlushColumns(d: Dispatch, inputs: seq<Column>, outputs: seq<Column>) returns (status: Status)
      requires dev.Valid()
      requires SafeDispatch(d, dev.owned) && AreColumns(d, inputs, outputs)
      modifies dev`mem, dev`flat, dev`err
      ensures dev.Valid() && dev.NothingDirtied() && (old(dev.err) == 0 ==> dev.err == 0)
      ensures AgreeOn(dev.flat, old(dev.flat), dev.owned)
      ensures status.Ok? ==> forall k :: 0 <= k < COLUMN_COUNT ==> ColumnClean(inputs[k]) && ColumnClean(outputs[k])
    {
      hide LineAgrees, SafeDispatch, InSync;
      status := Ok;
      var c := 0;
      while status.Ok? && c < COLUMN_COUNT
        invariant 0 <= c <= COLUMN_COUNT
        invariant dev.Valid() && dev.NothingDirtied() && (old(dev.err) == 0 ==> dev.err == 0)
        invariant AgreeOn(dev.flat, old(dev.flat), dev.owned)
        invariant status.Ok? ==> forall k :: 0 <= k < c ==> ColumnClean(inputs[k]) && ColumnClean(outputs[k])
        decreases COLUMN_COUNT - c
      {
        ColumnsUsable(d, inputs, outputs, dev.owned);
        if inputs[c].buffer.Some? {
          status := FlushRange(inputs[c].buffer.value, inputs[c].offset, inputs[c].length);
        }
        if status.Ok? && outputs[c].buffer.Some? {
          status := FlushRange(outputs[c].buffer.value, outputs[c].offset, outputs[c].length);
        }
        c := c + 1;
      }
    }

    ghost predicate ColumnClean(column: Column)
      reads dev
    {
      column.buffer.Some? ==>
        forall l :: InSync(column.buffer.value, column.offset, column.length, l) ==> l !in dev.mem.dirty
    }

    // Configures, submits and waits for one job. `ran` tells whether the device got to
    // run it.
    method StartJob(kernel: nat, conf: Conf) returns (job: Handle, ghost ran: bool)
      requires dev.Valid() && ConfOn(conf, dev.owned) && dev.ConfClean(conf)
      modifies dev`mem, dev`flat, dev`stale, dev`err, dev`jobs, dev`next
      ensures dev.Valid() && |dev.flat| == |old(dev.flat)|
      ensures if job.valid then job.id !in old(dev.jobs) && dev.jobs.Keys == old(dev.jobs).Keys + {job.id}
              else dev.jobs == old(dev.jobs)
      ensures forall i :: i in old(dev.jobs) ==> i in dev.jobs && dev.jobs[i] == old(dev.jobs)[i]
      ensures dev.err == 0 ==> job.valid && ran
      ensures !ran ==> dev.stale == old(dev.stale) && AgreeOn(dev.flat, old(dev.flat), dev.owned)
      ensures SameOutside(dev.flat, old(dev.flat), dev.owned, conf.outputs)
      ensures dev.stale <= old(dev.stale) + OutputLines(conf, dev.owned)
      ensures ran && job.valid && dev.jobs[job.id].state == JobOk ==>
                AgreeOn(dev.flat, FlatJob(old(dev.flat), dev.Meaning(), kernel, conf, dev.owned), dev.owned)
    {
      hide LineAgrees, SameOutside, FlatJob, OutputLines, StreamOn, ReadStreams, InStream;
      AgreeIsSameOutside(dev.flat, dev.flat, dev.owned, conf.outputs);
      job := dev.JobConfig(kernel, conf);
      dev.JobSubmit(job);
      ran := dev.err == 0;
      dev.JobWait(job);
      AgreeIsSameOutside(dev.flat, old(dev.flat), dev.owned, conf.outputs);
    }

    // Polls and frees a job that was started, whatever fails.
    method FinishJob(job: Handle) returns (status: Status)
      requires dev.Valid() && (if job.valid then job.id in dev.jobs else dev.err != 0)
      modifies dev`err, dev`jobs
      ensures dev.Valid() && dev.err == 0
      ensures dev.jobs == if job.valid then old(dev.jobs) - {job.id} else old(dev.jobs)
      ensures status.Ok? ==> old(dev.err) == 0 && job.valid && old(dev.jobs)[job.id].state == JobOk
    {
      hide LineAgrees;
      status := dev.StatusFromDev();
      if status.Ok? {
        var state := dev.JobPoll(job);
        status := dev.StatusFromDev();
        if status.Ok? && state != JobOk {
          status := Error(Aborted);
        }
      }
      if job.valid {
        dev.JobFree(job);
        var freed := dev.StatusFromDev();
        status := if status.Ok? then freed else status;
      }
    }

    // Runs one job. Whatever fails, the job is freed and the sticky error is clear
    // again; if the device did not run it, nothing is stale that was not before.
    method RunJob(kernel: nat, conf: Conf) returns (status: Status, ghost ran: bool)
      requires dev.Valid() && ConfOn(conf, dev.owned) && dev.ConfClean(conf)
      modifies dev`mem, dev`flat, dev`stale, dev`err, dev`jobs, dev`next
      ensures dev.Valid() && dev.err == 0 && dev.jobs == old(dev.jobs)
      ensures |dev.flat| == |old(dev.flat)| && SameOutside(dev.flat, old(dev.flat), dev.owned, conf.outputs)
      ensures dev.stale <= old(dev.stale) + OutputLines(conf, dev.owned)
      ensures !ran ==> !status.Ok? && dev.stale == old(dev.stale) && AgreeOn(dev.flat, old(dev.flat), dev.owned)
      ensures status.Ok? ==> AgreeOn(dev.flat, FlatJob(old(dev.flat), dev.Meaning(), kernel, conf, dev.owned), dev.owned)
    {
      hide LineAgrees, SameOutside, FlatJob, OutputLines, StreamOn, ReadStreams, InStream;
      var job: Handle;
      job, ran := StartJob(kernel, conf);
      status := FinishJob(job);
      assert dev.jobs == old(dev.jobs);
    }

    // Drops the lines of every output column, so that reads miss the cache and find the
    // words of the job.
    method InvalidateColumns(d: Dispatch, inputs: seq<Column>, outputs: seq<Column>) returns (status: Status)
      requires dev.Valid()
      requires SafeDispatch(d, dev.owned) && AreColumns(d, inputs, outputs)
      modifies dev`mem, dev`flat, dev`err, dev`stale
      ensures dev.Valid() && (old(dev.err) == 0 ==> dev.err == 0) && dev.stale <= old(dev.stale)
      ensures AgreeOn(dev.flat, old(dev.flat), dev.owned)
      ensures status.Ok? ==> forall k :: 0 <= k < COLUMN_COUNT ==> ColumnFresh(outputs[k])
    {
      status := Ok;
      var c := 0;
      while status.Ok? && c < COLUMN_COUNT
        invariant 0 <= c <= COLUMN_COUNT
        invariant dev.Valid() && (old(dev.err) == 0 ==> dev.err == 0) && dev.stale <= old(dev.stale)
        invariant AgreeOn(dev.flat, old(dev.flat), dev.owned)
        invariant status.Ok? ==> forall k :: 0 <= k < c ==> ColumnFresh(outputs[k])
        decreases COLUMN_COUNT - c
      {
        ColumnsUsable(d, inputs, outputs, dev.owned);
        if outputs[c].buffer.Some? {
          status := InvalidateRange(outputs[c].buffer.value, outputs[c].offset, outputs[c].length);
        }
        c := c + 1;
      }
    }

    ghost predicate ColumnFresh(column: Column)
      reads dev
    {
      column.buffer.Some? ==>
        forall l :: InSync(column.buffer.value, column.offset, column.length, l) ==> l !in dev.stale
    }

    // iree_hal_strela_command_buffer_dispatch. On success the memory the CPU sees is
    // what the job makes of flat memory, and no output line is stale. On failure only
    // output words may have changed and only output lines may have become stale, and not
    // even those if the device did not get to run the job.
    method DispatchFunction(d: Dispatch) returns (status: Status, ghost ran: bool)
      requires dev.Valid() && SafeDispatch(d, dev.owned)
      modifies dev`mem, dev`flat, dev`stale, dev`err, dev`jobs, dev`next
      ensures dev.Valid() && (old(dev.err) == 0 ==> dev.err == 0) && dev.jobs == old(dev.jobs)
      ensures status.Ok? ==>
                && Accepted(Run(d)) && ConfOn(DispatchConf(d), dev.owned)
                && dev.stale <= old(dev.stale) - OutputLines(DispatchConf(d), dev.owned)
      ensures status.Ok? ==>
                AgreeOn(dev.flat, FlatStep(old(dev.flat), Run(d), dev.Meaning(), dev.owned), dev.owned)
      ensures !ran ==> !status.Ok? && dev.stale == old(dev.stale) && AgreeOn(dev.flat, old(dev.flat), dev.owned)
      ensures ran ==> Resolves(d)
      ensures d.function_ >= |d.exports| ==> status == Error(OutOfRange)
      ensures Resolves(d) && NoOutputWord(d) ==> dev.stale <= old(dev.stale)
      ensures Resolves(d) ==>
                && ConfOn(DispatchConf(d), dev.owned) && |dev.flat| == |old(dev.flat)|
                && SameOutside(dev.flat, old(dev.flat), dev.owned, DispatchConf(d).outputs)
                && dev.stale <= old(dev.stale) + OutputLines(DispatchConf(d), dev.owned)
    {
      hide LineAgrees, SameOutside, FlatJob, OutputLines, StreamOn, Resolve, InSync, NoOutputWord;
      ran := false;
      if d.function_ >= |d.exports| {
        return Error(OutOfRange), false;
      }
      var inputs: array<Column>, outputs: array<Column>;
      status, inputs, outputs := ResolveColumns(d);
      if !status.Ok? {
        return;
      }
      DispatchOwned(d, dev.owned);
      NoOutputNoLines(d, dev.owned);
      var conf := Conf(seq(COLUMN_COUNT, c requires 0 <= c < COLUMN_COUNT reads inputs => ToStream(inputs[c], true)),
                       seq(COLUMN_COUNT, c requires 0 <= c < COLUMN_COUNT reads outputs => ToStream(outputs[c], false)));
      ConfOfColumns(d, inputs[..], outputs[..], conf);
      AgreeIsSameOutside(dev.flat, dev.flat, dev.owned, conf.outputs);
      status := FlushColumns(d, inputs[..], outputs[..]);
      ghost var flushed := dev.flat;
      AgreeIsSameOutside(flushed, old(dev.flat), dev.owned, conf.outputs);
      if !status.Ok? {
        return;
      }
      CleanColumnsCleanConf(this, d, inputs[..], outputs[..]);
      status, ran := RunJob(d.exports[d.function_].kernel.id, conf);
      ghost var done := dev.flat;
      SameOutsideTransitive(done, flushed, old(dev.flat), dev.owned, conf.outputs);
      if !status.Ok? {
        return;
      }
      FlatJobAgrees(flushed, old(dev.flat), dev.Meaning(), d.exports[d.function_].kernel.id, conf, dev.owned);
      status := InvalidateColumns(d, inputs[..], outputs[..]);
      AgreeIsSameOutside(dev.flat, done, dev.owned, conf.outputs);
      SameOutsideTransitive(dev.flat, done, old(dev.flat), dev.owned, conf.outputs);
      if status.Ok? {
        FreshColumnsNotStale(this, d, inputs[..], outputs[..]);
      }
    }

    // Dispatches again after a failure. A success makes up for it: nothing is stale any
    // more, and the CPU reads the flat dispatch of what the failure left, which differs
    // from the memory before at most in output words.
    method DispatchAgain(d: Dispatch) returns (status: Status, ghost between: Flat)
      requires dev.Valid() && dev.stale == {} && SafeDispatch(d, dev.owned)
      modifies dev`mem, dev`flat, dev`stale, dev`err, dev`jobs, dev`next
      ensures status.Ok? ==> Accepted(Run(d)) && dev.stale == {} && CleanLinesMatchDram(dev.mem)
      ensures status.Ok? ==>
                && ConfOn(DispatchConf(d), dev.owned)
                && |between| == |CpuView(old(dev.mem))| && LinesExist(dev.owned, |between|)
                && SameOutside(between, CpuView(old(dev.mem)), dev.owned, DispatchConf(d).outputs)
                && AgreeOn(CpuView(dev.mem), FlatStep(between, Run(d), dev.Meaning(), dev.owned), dev.owned)
    {
      hide LineAgrees, SameOutside, FlatStep, OutputLines, StreamOn, Resolves, SafeDispatch, NoOutputWord, DispatchConf;
      CoherentIff(dev.mem, dev.flat);
      between := dev.flat;
      ghost var ran: bool;
      status, ran := DispatchFunction(d);
      if !status.Ok? {
        between := dev.flat;
        status, ran := DispatchFunction(d);
      } else {
        AgreeIsSameOutside(between, between, dev.owned, DispatchConf(d).outputs);
      }
      CoherentIff(dev.mem, dev.flat);
    }

    // iree_hal_strela_command_buffer_flush_buffer. The length `whole` is not resolved: the
    // range wraps to at most one line. The range itself is then what was meant.
    method FlushBuffer(target: Range, whole: bool) returns (status: Status)
      requires dev.Valid() && UsableRange(target, dev.owned)
      modifies dev`mem, dev`flat, dev`err
      ensures dev.Valid() && (old(dev.err) == 0 ==> dev.err == 0) && AgreeOn(dev.flat, old(dev.flat), dev.owned)
      ensures status.Ok? && target.buffer.strela && Reached(target, whole) ==>
                forall i: nat :: i < target.length ==> LineOf(target, i) !in dev.mem.dirty
    {
      hide LineAgrees, InSync, LineOf, WholeCovers, OwnsBuffer;
      if !target.buffer.strela {
        return Ok;
      }
      var offset := target.buffer.byteOffset + target.offset;
      if whole {
        var r := WholeLines(offset);
        WholeLineOwned(target, dev.owned);
        WholeSyncIff(target, dev.owned);
        dev.BufferFlush((target.buffer.baseWords + r.offset) / 16, r.count / 16);
        status := dev.StatusFromDev();
      } else {
        RangeInSync(target);
        status := FlushRange(target.buffer, offset, target.length);
      }
    }

    // iree_hal_strela_command_buffer_invalidate_buffer
    method InvalidateBuffer(target: Range, whole: bool) returns (status: Status)
      requires dev.Valid() && UsableRange(target, dev.owned)
      modifies dev`mem, dev`flat, dev`err, dev`stale
      ensures dev.Valid() && (old(dev.err) == 0 ==> dev.err == 0) && AgreeOn(dev.flat, old(dev.flat), dev.owned)
      ensures dev.stale <= old(dev.stale)
      ensures status.Ok? && target.buffer.strela && Reached(target, whole) ==> Fresh(target)
    {
      hide LineAgrees, InSync, LineOf, WholeCovers, OwnsBuffer;
      if !target.buffer.strela {
        return Ok;
      }
      var offset := target.buffer.byteOffset + target.offset;
      if whole {
        var r := WholeLines(offset);
        WholeLineOwned(target, dev.owned);
        WholeSyncIff(target, dev.owned);
        dev.BufferFlush((target.buffer.baseWords + r.offset) / 16, r.count / 16);
        dev.BufferInval((target.buffer.baseWords + r.offset) / 16, r.count / 16);
        status := dev.StatusFromDev();
      } else {
        RangeInSync(target);
        status := InvalidateRange(target.buffer, offset, target.length);
      }
    }

    // One recorded command.
    method Execute(command: Command) returns (status: Status)
      requires dev.Valid() && dev.stale == {} && Recorded(command, dev.owned)
      modifies dev`mem, dev`flat, dev`stale, dev`err, dev`jobs, dev`next
      ensures dev.Valid() && (old(dev.err) == 0 ==> dev.err == 0) && dev.jobs == old(dev.jobs)
      ensures status.Ok? ==> Accepted(command) && dev.stale == {}
      ensures status.Ok? ==>
                AgreeOn(dev.flat, FlatStep(old(dev.flat), command, dev.Meaning(), dev.owned), dev.owned)
    {
      hide LineAgrees, PutRange, CopyRange, FlatJob, DispatchConf, Resolves, SafeDispatch, UsableRange;
      match command
      case Fill(target, pattern) => status := FillBuffer(target, pattern);
      case Update(data, dataOffset, target) =>
        status := MapWrite(target, data[dataOffset..dataOffset + target.length]);
      case Copy(source, target) => status := CopyBuffer(source, target);
      case Flush(target, whole) => status := FlushBuffer(target, whole);
      case Invalidate(target, whole) => status := InvalidateBuffer(target, whole);
      case Barrier => status := Ok;
      case Run(dispatch) =>
        ghost var ran: bool;
        status, ran := DispatchFunction(dispatch);
    }

    // Replays a recorded list of commands, as iree_hal_deferred_command_buffer_apply
    // does. Whatever the cache and the other threads do meanwhile, after a successful
    // replay the CPU reads what the same commands leave in a memory without caches,
    // on every line of the buffers in use, and every clean line equals DRAM.
    method Replay(commands: seq<Command>) returns (status: Status)
      requires dev.Valid() && dev.stale == {}
      requires forall c :: c in commands ==> Recorded(c, dev.owned)
      modifies dev`mem, dev`flat, dev`stale, dev`err, dev`jobs, dev`next
      ensures dev.Valid() && (old(dev.err) == 0 ==> dev.err == 0) && dev.jobs == old(dev.jobs)
      ensures status.Ok? ==> AllRunnable(commands, dev.owned) && dev.stale == {} && CleanLinesMatchDram(dev.mem)
      ensures status.Ok? ==>
                && LinesExist(dev.owned, |CpuView(old(dev.mem))|)
                && AgreeOn(CpuView(dev.mem),
                           FlatRun(CpuView(old(dev.mem)), commands, dev.Meaning(), dev.owned), dev.owned)
    {
      hide Recorded, FlatStep, LineAgrees;
      status := Ok;
      CoherentIff(dev.mem, dev.flat);
      ghost var start := dev.flat;
      var i := 0;
      while status.Ok? && i < |commands|
        invariant 0 <= i <= |commands|
        invariant dev.Valid() && (old(dev.err) == 0 ==> dev.err == 0) && dev.jobs == old(dev.jobs)
        invariant status.Ok? ==> dev.stale == {}
        invariant status.Ok? ==> AllRunnable(commands[..i], dev.owned)
        invariant status.Ok? ==> AgreeOn(dev.flat, FlatRun(start, commands[..i], dev.Meaning(), dev.owned), dev.owned)
        decreases |commands| - i
      {
        ghost var before := dev.flat;
        assert commands[i] in commands;
        status := Execute(commands[i]);
        if status.Ok? {
          RunExtends(before, start, commands, i, dev.Meaning(), dev.owned);
        }
        i := i + 1;
      }
      if status.Ok? {
        assert commands[..i] == commands;
        CoherentIff(dev.mem, dev.flat);
      }
    }
  }

  lemma RunExtends(v: Flat, start: Flat, commands: seq<Command>, i: nat, kernels: Kernels, owned: set<nat>)
    requires i < |commands| && LinesExist(owned, |start|) && |v| == |start|
    requires AllRunnable(commands[..i], owned) && Recorded(commands[i], owned) && Accepted(commands[i])
    requires AgreeOn(v, FlatRun(start, commands[..i], kernels, owned), owned)
    ensures AllRunnable(commands[..i + 1], owned)
    ensures AgreeOn(FlatStep(v, commands[i], kernels, owned),
                    FlatRun(start, commands[..i + 1], kernels, owned), owned)
  {
    hide Recorded, Accepted, FlatStep;
    var longer := commands[..i + 1];
    assert longer == commands[..i] + [commands[i]];
    assert longer[..i] == commands[..i];
    FlatStepAgrees(v, FlatRun(start, commands[..i], kernels, owned), commands[i], kernels, owned);
  }

  ghost predicate AreColumns(d: Dispatch, inputs: seq<Column>, outputs: seq<Column>) {
    && |inputs| == |outputs| == COLUMN_COUNT && Resolves(d)
    && forall c :: 0 <= c < COLUMN_COUNT ==>
         && Resolve(d.exports[d.function_].def.inputs[c], true, d.constants, d.bindings) == Success(inputs[c])
         && Resolve(d.exports[d.function_].def.outputs[c], false, d.constants, d.bindings) == Success(outputs[c])
  }

  // No output column of the dispatched function has a word.
  predicate NoOutputWord(d: Dispatch)
    requires Resolves(d)
  {
    forall c :: 0 <= c < COLUMN_COUNT ==> d.exports[d.function_].def.outputs[c].wordCount == 0
  }

  lemma NoOutputNoLines(d: Dispatch, owned: set<nat>)
    requires SafeDispatch(d, owned) && Resolves(d) && ConfOn(DispatchConf(d), owned)
    ensures NoOutputWord(d) ==> OutputLines(DispatchConf(d), owned) == {}
    ensures NoOutputWord(d) <==> forall c :: 0 <= c < COLUMN_COUNT ==> DispatchConf(d).outputs[c].count == 0
  {
    hide SafeColumn;
    var def := d.exports[d.function_].def;
    forall c | 0 <= c < COLUMN_COUNT
      ensures DispatchConf(d).outputs[c].count == def.outputs[c].wordCount
    {
      ColumnWordsSynced(def.outputs[c], false, d.constants, d.bindings, owned,
                        Resolve(def.outputs[c], false, d.constants, d.bindings).value);
    }
  }

  lemma ConfOfColumns(d: Dispatch, inputs: seq<Column>, outputs: seq<Column>, conf: Conf)
    requires AreColumns(d, inputs, outputs)
    requires |conf.inputs| == |conf.outputs| == COLUMN_COUNT
    requires forall c :: 0 <= c < COLUMN_COUNT ==>
               conf.inputs[c] == ToStream(inputs[c], true) && conf.outputs[c] == ToStream(outputs[c], false)
    ensures conf == DispatchConf(d)
  {
  }

  ghost predicate ColumnUsable(column: Column, owned: set<nat>) {
    column.buffer.Some? ==>
      && Usable(column.buffer.value, owned) && column.offset + column.length <= column.buffer.value.allocSize
      && forall l :: InSync(column.buffer.value, column.offset, column.length, l) ==> l in owned
  }

  lemma ColumnsUsable(d: Dispatch, inputs: seq<Column>, outputs: seq<Column>, owned: set<nat>)
    requires SafeDispatch(d, owned) && AreColumns(d, inputs, outputs)
    ensures forall c :: 0 <= c < COLUMN_COUNT ==> ColumnUsable(inputs[c], owned) && ColumnUsable(outputs[c], owned)
  {
    var def := d.exports[d.function_].def;
    forall c | 0 <= c < COLUMN_COUNT
      ensures ColumnUsable(inputs[c], owned) && ColumnUsable(outputs[c], owned)
    {
      ColumnWordsSynced(def.inputs[c], true, d.constants, d.bindings, owned, inputs[c]);
      ColumnWordsSynced(def.outputs[c], false, d.constants, d.bindings, owned, outputs[c]);
      if inputs[c].buffer.Some? {
        SyncOwned(inputs[c], owned);
      }
      if outputs[c].buffer.Some? {
        SyncOwned(outputs[c], owned);
      }
    }
  }

  lemma SyncOwned(column: Column, owned: set<nat>)
    requires column.buffer.Some? && Usable(column.buffer.value, owned)
    requires column.offset + column.length <= column.buffer.value.allocSize
    ensures ColumnUsable(column, owned)
  {
    LinesToSync(column.buffer.value, column.offset, column.length, owned);
  }

  lemma CleanColumnsCleanConf(commands: CommandBuffer, d: Dispatch, inputs: seq<Column>, outputs: seq<Column>)
    requires SafeDispatch(d, commands.dev.owned) && AreColumns(d, inputs, outputs)
    requires ConfOn(DispatchConf(d), commands.dev.owned)
    requires forall k :: 0 <= k < COLUMN_COUNT ==> commands.ColumnClean(inputs[k]) && commands.ColumnClean(outputs[k])
    ensures commands.dev.ConfClean(DispatchConf(d))
  {
    var def, conf, owned := d.exports[d.function_].def, DispatchConf(d), commands.dev.owned;
    forall l | l in OutputLines(conf, owned)
      ensures l !in commands.dev.mem.dirty
    {
      var c := OutputLineSynced(d, inputs, outputs, owned, l);
    }
    forall s, i | s in conf.inputs && 0 <= i < s.count
      ensures StreamWord(s, i) / 16 !in commands.dev.mem.dirty
    {
      var c :| 0 <= c < COLUMN_COUNT && conf.inputs[c] == s;
      ColumnWordsSynced(def.inputs[c], true, d.constants, d.bindings, owned, inputs[c]);
    }
  }

  // A line an output column touches is one of those synced for it.
  lemma OutputLineSynced(d: Dispatch, inputs: seq<Column>, outputs: seq<Column>, owned: set<nat>, l: nat) returns (c: nat)
    requires SafeDispatch(d, owned) && AreColumns(d, inputs, outputs)
    requires ConfOn(DispatchConf(d), owned) && l in OutputLines(DispatchConf(d), owned)
    ensures c < COLUMN_COUNT && outputs[c].buffer.Some?
    ensures InSync(outputs[c].buffer.value, outputs[c].offset, outputs[c].length, l)
  {
    var conf := DispatchConf(d);
    var w: nat :| w / 16 == l && InStreams(w, conf.outputs);
    c :| 0 <= c < |conf.outputs| && InStream(w, conf.outputs[c]);
    ColumnWordsSynced(d.exports[d.function_].def.outputs[c], false, d.constants, d.bindings, owned, outputs[c]);
  }

  // Dropping the lines of every output column leaves no output line stale.
  lemma FreshColumnsNotStale(commands: CommandBuffer, d: Dispatch, inputs: seq<Column>, outputs: seq<Column>)
    requires SafeDispatch(d, commands.dev.owned) && AreColumns(d, inputs, outputs)
    requires ConfOn(DispatchConf(d), commands.dev.owned)
    requires forall k :: 0 <= k < COLUMN_COUNT ==> commands.ColumnFresh(outputs[k])
    ensures commands.dev.stale !! OutputLines(DispatchConf(d), commands.dev.owned)
  {
    forall l | l in OutputLines(DispatchConf(d), commands.dev.owned)
      ensures l !in commands.dev.stale
    {
      var c := OutputLineSynced(d, inputs, outputs, commands.dev.owned, l);
    }
  }

  lemma AgreeIsSameOutside(v: Flat, w: Flat, lines: set<nat>, outs: seq<Stream>)
    requires LinesExist(lines, |v|)
    ensures AgreeOn(v, w, lines) ==> SameOutside(v, w, lines, outs)
  {
  }

  lemma SameOutsideTransitive(u: Flat, v: Flat, w: Flat, lines: set<nat>, outs: seq<Stream>)
    requires LinesExist(lines, |u|) && |u| == |v| == |w|
    requires SameOutside(u, v, lines, outs) && SameOutside(v, w, lines, outs)
    ensures SameOutside(u, w, lines, outs)
  {
    hide WordAt;
  }
}
