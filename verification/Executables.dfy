// The executable format and its checks (executable.c): verification at load time,
// loading and freeing kernels, lookup by name.
module Executables {
  import opened Columns
  import opened Device
  import opened Memory
  import opened Status
  import opened Words

  const COLUMN_COUNT: nat := 4

  // STRELA_KERNEL_SIZE, in words.
  const KERNEL_SIZE: nat := 80

  // A missing name is None.
  datatype ExportDef = ExportDef(
    name: Option<string>, bitstream: seq<u32>, inputs: seq<ColumnDef>, outputs: seq<ColumnDef>,
    constantCount: u32, bindingCount: u32)

  // ---- Verification ----

  predicate ColumnVerifies(column: ColumnDef, bindingCount: u32, constantCount: u32) {
    column.wordCount == 0 ||
    (&& column.binding < bindingCount
     && column.byteOffset % 4 == 0
     && |column.offsetConstants| <= 2
     && forall o :: o in column.offsetConstants ==> o < constantCount)
  }

  predicate ExportVerifies(def: ExportDef) {
    && def.name.Some? && |def.bitstream| == KERNEL_SIZE
    && |def.inputs| == COLUMN_COUNT && |def.outputs| == COLUMN_COUNT
    && (forall c :: 0 <= c < COLUMN_COUNT ==>
          && ColumnVerifies(def.inputs[c], def.bindingCount, def.constantCount)
          && ColumnVerifies(def.outputs[c], def.bindingCount, def.constantCount))
  }

  // On the fields: a name, 80 words, four columns each way, and every used column in the
  // layout, word aligned and with at most two ordinals in range.
  lemma ExportVerifiesMeans(def: ExportDef)
    ensures ExportVerifies(def) <==>
            && def.name.Some? && |def.bitstream| == 80 && |def.inputs| == 4 && |def.outputs| == 4
            && forall column :: column in def.inputs + def.outputs && column.wordCount != 0 ==>
                 && column.binding < def.bindingCount && column.byteOffset % 4 == 0 && |column.offsetConstants| <= 2
                 && forall o :: o in column.offsetConstants ==> o < def.constantCount
  {
    if ExportVerifies(def) {
      forall column | column in def.inputs + def.outputs
        ensures ColumnVerifies(column, def.bindingCount, def.constantCount)
      {
      }
    } else if |def.inputs| == 4 && |def.outputs| == 4 {
      assert forall c :: 0 <= c < 4 ==> def.inputs[c] in def.inputs + def.outputs && def.outputs[c] in def.inputs + def.outputs;
    }
  }

  // iree_hal_strela_column_verify
  method ColumnVerify(column: ColumnDef, bindingCount: u32, constantCount: u32) returns (status: Status)
    ensures status == if ColumnVerifies(column, bindingCount, constantCount) then Ok else Error(InvalidArgument)
    ensures status == if || column.wordCount == 0
                         || (&& column.binding < bindingCount && column.byteOffset % 4 == 0
                             && |column.offsetConstants| <= 2
                             && forall k :: 0 <= k < |column.offsetConstants| ==> column.offsetConstants[k] < constantCount)
                      then Ok else Error(InvalidArgument)
  {
    if column.wordCount == 0 {
      return Ok;
    }
    if column.binding >= bindingCount {
      return Error(InvalidArgument);
    }
    if column.byteOffset % 4 != 0 {
      return Error(InvalidArgument);
    }
    if |column.offsetConstants| > 2 {
      return Error(InvalidArgument);
    }
    for i := 0 to |column.offsetConstants|
      invariant forall j :: 0 <= j < i ==> column.offsetConstants[j] < constantCount
    {
      if column.offsetConstants[i] >= constantCount {
        assert column.offsetConstants[i] in column.offsetConstants;
        return Error(InvalidArgument);
      }
    }
    return Ok;
  }

  // iree_hal_strela_executable_flatbuffer_verify; an absent export is None.
  method FlatbufferVerify(exports: seq<Option<ExportDef>>) returns (status: Status)
    ensures status == if (forall i :: 0 <= i < |exports| ==> exports[i].Some? && ExportVerifies(exports[i].value))
                      then Ok else Error(InvalidArgument)
  {
    for i := 0 to |exports|
      invariant forall j :: 0 <= j < i ==> exports[j].Some? && ExportVerifies(exports[j].value)
    {
      if exports[i].None? || exports[i].value.name.None? {
        return Error(InvalidArgument);
      }
      var def := exports[i].value;
      if |def.bitstream| != KERNEL_SIZE {
        return Error(InvalidArgument);
      }
      if |def.inputs| != COLUMN_COUNT || |def.outputs| != COLUMN_COUNT {
        return Error(InvalidArgument);
      }
      for c := 0 to COLUMN_COUNT
        invariant forall d :: 0 <= d < c ==>
                    && ColumnVerifies(def.inputs[d], def.bindingCount, def.constantCount)
                    && ColumnVerifies(def.outputs[d], def.bindingCount, def.constantCount)
      {
        status := ColumnVerify(def.inputs[c], def.bindingCount, def.constantCount);
        if status != Ok {
          return;
        }
        status := ColumnVerify(def.outputs[c], def.bindingCount, def.constantCount);
        if status != Ok {
          return;
        }
      }
    }
    return Ok;
  }

  // A verified column, given the constants and bindings its export declares, can
  // only fail to resolve because of where its binding is: past the bound range,
  // not STRELA memory, or not word aligned.
  lemma VerifiedColumnResolves(def: ColumnDef, isInput: bool, constants: seq<u32>, bindings: seq<BufferRef>,
                               bindingCount: u32, constantCount: u32)
    requires ColumnVerifies(def, bindingCount, constantCount) && def.wordCount > 0
    requires constantCount <= |constants| && FitsMemory(constants)
    requires bindingCount <= |bindings| && forall b :: 0 <= b < bindingCount ==> bindings[b].buffer.Some?
    ensures Readable(def, constants) && Present(def.offsetConstants, constants)
    ensures !AnyMissing(def.offsetConstants, constants)
    ensures var ref := bindings[def.binding];
            var end := Wrap64(RuntimeOffset(def, constants) + SpanBytes(def, isInput));
            var offset := Wrap64(ref.buffer.value.byteOffset + Wrap64(ref.offset + RuntimeOffset(def, constants)));
            Resolve(def, isInput, constants, bindings).Success?
            <==> end <= BoundLength(ref) && ref.buffer.value.strela && offset % 4 == 0
  {
    hide Wrap32, Wrap64, ReadsOutside;
    PresentIsInside(def.offsetConstants, constants);
    forall o | o in def.offsetConstants
      ensures !Missing(o, constants)
    {
      MissingIsOutOfRange(o, constants);
    }
  }

  // What verification leaves to the dispatch: with fewer constants pushed than the
  // export declares, the driver reads none that is not there, whatever is pushed,
  // exactly when no ordinal of the column is 2^30 - 1 or more. Fewer than 2^30 declared
  // constants are enough for that.
  lemma VerifiedColumnIsReadableIff(def: ColumnDef, bindingCount: u32, constantCount: u32)
    requires ColumnVerifies(def, bindingCount, constantCount)
    ensures AlwaysReadable(def) <==> (def.wordCount > 0 ==> forall o :: o in def.offsetConstants ==> o < 0x3FFF_FFFF)
    ensures constantCount < 0x4000_0000 ==> AlwaysReadable(def)
  {
    hide AlwaysReadable;
    AlwaysReadableIff(def);
  }

  // Such a column: with no constant pushed at all, none is found missing.
  lemma WrappedOrdinalIsAccepted()
    ensures var def := ColumnDef(0, 0, [0x3FFF_FFFF], 1, 1);
            && ColumnVerifies(def, 1, 0x4000_0000)
            && !AnyMissing(def.offsetConstants, []) && ReadsOutside(def.offsetConstants, [])
  {
    var ordinals: seq<u32> := [0x3FFF_FFFF];
    assert ordinals[0] >= 0 && FoundTo(ordinals, [], 1);
  }

  // ---- Lookup ----

  // iree_hal_strela_executable_lookup_function_by_name: the first export so named.
  method LookupByName(exports: seq<ExportDef>, name: string) returns (r: Result<nat>)
    ensures r.Success? ==> r.value < |exports| && exports[r.value].name == Some(name)
                           && forall i :: 0 <= i < r.value ==> exports[i].name != Some(name)
    ensures r.Failure? ==> r.code == NotFound && forall i :: 0 <= i < |exports| ==> exports[i].name != Some(name)
  {
    for i := 0 to |exports|
      invariant forall j :: 0 <= j < i ==> exports[j].name != Some(name)
    {
      if exports[i].name == Some(name) {
        return Success(i);
      }
    }
    return Failure(NotFound);
  }

  // ---- Loading ----

  datatype Export = Export(def: ExportDef, kernel: Handle)

  function Handles(exports: seq<Export>): (r: set<nat>) {
    set e | e in exports && e.kernel.valid :: e.kernel.id
  }

  // The valid handles of an executable are distinct.
  ghost predicate DistinctHandles(exports: seq<Export>) {
    forall i, j :: 0 <= i < j < |exports| && exports[i].kernel.valid && exports[j].kernel.valid
      ==> exports[i].kernel.id != exports[j].kernel.id
  }

  lemma HandlesSplit(exports: seq<Export>, i: nat)
    requires i < |exports|
    ensures Handles(exports[..i + 1])
            == Handles(exports[..i]) + if exports[i].kernel.valid then {exports[i].kernel.id} else {}
  {
    assert exports[..i + 1] == exports[..i] + [exports[i]];
  }

  // The ids of the kernel pool and the sticky error.
  datatype PoolState = PoolState(kernels: set<nat>, error: bool)

  // The free loop, when `pending` says whether the sticky error is set before it and
  // `fails[i]` whether the free of export i sets it: the loop does not look at the
  // error, so every later free does nothing.
  function FreeAll(pool: set<nat>, pending: bool, exports: seq<Export>, fails: seq<bool>): (r: PoolState)
    requires |fails| == |exports|
    ensures pool - Handles(exports) <= r.kernels
  {
    if exports == [] then PoolState(pool, pending)
    else
      var last := |exports| - 1;
      HandlesSplit(exports, last);
      assert exports[..last + 1] == exports;
      var before := FreeAll(pool, pending, exports[..last], fails[..last]);
      if before.error || !exports[last].kernel.valid then before
      else PoolState(before.kernels - {exports[last].kernel.id}, fails[last])
  }

  // Export i is the first whose free fails.
  predicate StopsAt(exports: seq<Export>, fails: seq<bool>, i: nat)
    requires |fails| == |exports|
  {
    && i < |exports| && exports[i].kernel.valid && fails[i]
    && forall k :: 0 <= k < i && exports[k].kernel.valid ==> !fails[k]
  }

  predicate NoKernel(exports: seq<Export>) {
    forall i :: 0 <= i < |exports| ==> !exports[i].kernel.valid
  }

  predicate AtMostOneKernel(exports: seq<Export>) {
    forall i, k :: 0 <= i < k < |exports| ==> !(exports[i].kernel.valid && exports[k].kernel.valid)
  }

  // No kernel comes after the error: none at all if it was pending, none after the
  // first free that fails.
  predicate NothingAfterStop(pending: bool, exports: seq<Export>, fails: seq<bool>)
    requires |fails| == |exports|
  {
    && (pending ==> NoKernel(exports))
    && forall i: nat, k: nat :: StopsAt(exports, fails, i) && i < k < |exports| ==> !exports[k].kernel.valid
  }

  lemma {:induction false} ErrorIff(pool: set<nat>, pending: bool, exports: seq<Export>, fails: seq<bool>)
    requires |fails| == |exports|
    ensures FreeAll(pool, pending, exports, fails).error <==> pending || exists i: nat :: StopsAt(exports, fails, i)
  {
    if exports != [] {
      var last := |exports| - 1;
      ErrorIff(pool, pending, exports[..last], fails[..last]);
      StopsInPrefix(exports, fails);
      if i: nat :| StopsAt(exports[..last], fails[..last], i) {
        assert StopsAt(exports, fails, i);
      } else if exports[last].kernel.valid && fails[last] {
        NoStop(exports[..last], fails[..last]);
        assert forall k :: 0 <= k < last && exports[k].kernel.valid ==> exports[..last][k] == exports[k] && !fails[k];
        assert StopsAt(exports, fails, last);
      }
    }
  }

  lemma {:induction false} NoStop(exports: seq<Export>, fails: seq<bool>)
    requires |fails| == |exports| && forall i: nat :: !StopsAt(exports, fails, i)
    ensures forall k :: 0 <= k < |exports| && exports[k].kernel.valid ==> !fails[k]
  {
    if exports != [] {
      var last := |exports| - 1;
      StopsInPrefix(exports, fails);
      NoStop(exports[..last], fails[..last]);
      assert forall k :: 0 <= k < last ==> exports[..last][k] == exports[k] && fails[..last][k] == fails[k];
      assert !StopsAt(exports, fails, last);
    }
  }

  // One run of the loop frees every kernel exactly when no kernel comes after the
  // error.
  lemma {:induction false} AllFreedIff(pool: set<nat>, pending: bool, exports: seq<Export>, fails: seq<bool>)
    requires |fails| == |exports| && DistinctHandles(exports) && Handles(exports) <= pool
    ensures FreeAll(pool, pending, exports, fails).kernels == pool - Handles(exports)
            <==> NothingAfterStop(pending, exports, fails)
  {
    hide Handles, StopsAt, NothingAfterStop;
    if exports == [] {
      NothingStops(pending, exports, fails);
    } else {
      var last := |exports| - 1;
      var most, mostFails := exports[..last], fails[..last];
      HandlesSplit(exports, last);
      assert exports[..last + 1] == exports;
      AllFreedIff(pool, pending, most, mostFails);
      ErrorIff(pool, pending, most, mostFails);
      LastIsDistinct(exports);
      LastStays(pool, exports, FreeAll(pool, pending, most, mostFails).kernels);
      StopExtends(pending, exports, fails);
      RemoveOne(pool, Handles(most), FreeAll(pool, pending, most, mostFails).kernels, exports[last].kernel.id);
    }
  }

  lemma RemoveOne(pool: set<nat>, handles: set<nat>, left: set<nat>, id: nat)
    ensures id in pool && id !in handles && pool - handles <= left ==>
              (left - {id} == pool - (handles + {id}) <==> left == pool - handles)
  {
    if id in pool && id !in handles && pool - handles <= left && left - {id} == pool - (handles + {id}) {
      assert left == left - {id} + {id} == pool - handles;
    }
  }

  lemma NothingStops(pending: bool, exports: seq<Export>, fails: seq<bool>)
    requires |fails| == |exports| && exports == []
    ensures NothingAfterStop(pending, exports, fails) && Handles(exports) == {}
  {
  }

  // One more export: it must hold no kernel if there was an error before it.
  lemma StopExtends(pending: bool, exports: seq<Export>, fails: seq<bool>)
    requires exports != [] && |fails| == |exports|
    ensures var last := |exports| - 1;
            NothingAfterStop(pending, exports, fails)
            <==> && NothingAfterStop(pending, exports[..last], fails[..last])
                 && ((pending || exists i: nat :: StopsAt(exports[..last], fails[..last], i)) ==> !exports[last].kernel.valid)
  {
    hide StopsAt;
    StopsInPrefix(exports, fails);
    StopIsInside(exports, fails);
    StopIsInside(exports[..|exports| - 1], fails[..|exports| - 1]);
  }

  lemma StopIsInside(exports: seq<Export>, fails: seq<bool>)
    requires |fails| == |exports|
    ensures forall i: nat :: StopsAt(exports, fails, i) ==> i < |exports|
  {
  }

  lemma LastIsDistinct(exports: seq<Export>)
    requires exports != [] && DistinctHandles(exports)
    ensures var last := |exports| - 1;
            exports[last].kernel.valid ==> exports[last].kernel.id !in Handles(exports[..last])
  {
  }

  // A kernel that is not reached stays in the pool.
  lemma LastStays(pool: set<nat>, exports: seq<Export>, left: set<nat>)
    requires exports != [] && DistinctHandles(exports) && Handles(exports) <= pool
    requires pool - Handles(exports[..|exports| - 1]) <= left
    ensures exports[|exports| - 1].kernel.valid ==> left != pool - Handles(exports)
  {
    var last := |exports| - 1;
    LastIsDistinct(exports);
    if exports[last].kernel.valid {
      assert exports[last] in exports;
      assert exports[last].kernel.id in Handles(exports);
      assert exports[last].kernel.id in left && exports[last].kernel.id !in pool - Handles(exports);
    }
  }

  lemma StopsInPrefix(exports: seq<Export>, fails: seq<bool>)
    requires exports != [] && |fails| == |exports|
    ensures var last := |exports| - 1;
            forall i: nat :: i < last ==> (StopsAt(exports, fails, i) <==> StopsAt(exports[..last], fails[..last], i))
  {
  }

  // Every kernel is given back, whatever frees fail.
  ghost predicate AlwaysFreed(pool: set<nat>, pending: bool, exports: seq<Export>) {
    forall fails: seq<bool> :: |fails| == |exports| ==>
      FreeAll(pool, pending, exports, fails).kernels == pool - Handles(exports)
  }

  // Whatever frees fail, destroying gives back every kernel exactly when the executable
  // holds none, or no error is pending and it holds at most one.
  lemma DestroyIsNeutralIff(pool: set<nat>, pending: bool, exports: seq<Export>)
    requires DistinctHandles(exports) && Handles(exports) <= pool
    ensures AlwaysFreed(pool, pending, exports) <==> NoKernel(exports) || (!pending && AtMostOneKernel(exports))
  {
    if NoKernel(exports) || (!pending && AtMostOneKernel(exports)) {
      forall fails: seq<bool> | |fails| == |exports|
        ensures FreeAll(pool, pending, exports, fails).kernels == pool - Handles(exports)
      {
        AllFreedIff(pool, pending, exports, fails);
      }
    } else {
      var fails := SomeLeak(pending, exports);
      AllFreedIff(pool, pending, exports, fails);
    }
  }

  // With a pending error nothing has to fail; without one, the first of two frees.
  lemma SomeLeak(pending: bool, exports: seq<Export>) returns (fails: seq<bool>)
    requires !NoKernel(exports) && (pending || !AtMostOneKernel(exports))
    ensures |fails| == |exports| && !NothingAfterStop(pending, exports, fails)
  {
    if pending {
      fails := seq(|exports|, j => false);
    } else {
      var i: nat, k: nat :| i < k < |exports| && exports[i].kernel.valid && exports[k].kernel.valid;
      i := FirstKernel(exports, i);
      fails := seq(|exports|, j => j == i);
      assert StopsAt(exports, fails, i);
    }
  }

  lemma {:induction false} FirstKernel(exports: seq<Export>, i: nat) returns (first: nat)
    requires i < |exports| && exports[i].kernel.valid
    ensures first <= i && exports[first].kernel.valid && forall k :: 0 <= k < first ==> !exports[k].kernel.valid
  {
    first := i;
    if k: nat :| k < i && exports[k].kernel.valid {
      first := FirstKernel(exports, k);
    }
  }

  // With two kernels and a first free that fails, the second kernel stays loaded.
  lemma SecondKernelLeaks(a: ExportDef, b: ExportDef)
    ensures var exports := [Export(a, Handle(true, 0)), Export(b, Handle(true, 1))];
            && FreeAll({0, 1}, false, exports, [true, false]) == PoolState({1}, true)
            && FreeAll({0, 1}, false, exports, [false, true]) == PoolState({}, true)
  {
    var exports := [Export(a, Handle(true, 0)), Export(b, Handle(true, 1))];
    assert exports[..1] == [exports[0]] && [exports[0]][..0] == [];
    assert [true, false][..1] == [true] && [false, true][..1] == [false] && [true][..0] == [] && [false][..0] == [];
    assert FreeAll({0, 1}, false, [exports[0]], [true]) == PoolState({1}, true);
    assert FreeAll({0, 1}, false, [exports[0]], [false]) == PoolState({1}, false);
  }

  // With an error pending the only kernel stays loaded, though no free fails.
  lemma PendingErrorLeaks(a: ExportDef)
    ensures FreeAll({0}, true, [Export(a, Handle(true, 0))], [false]) == PoolState({0}, true)
  {
    assert [Export(a, Handle(true, 0))][..0] == [] && [false][..0] == [];
  }

  // What is left of the pool holds the bitstreams it held.
  predicate IsPart(part: map<nat, seq<u32>>, pool: map<nat, seq<u32>>) {
    forall id :: id in part ==> id in pool && part[id] == pool[id]
  }

  lemma PoolBack(before: map<nat, seq<u32>>, between: map<nat, seq<u32>>, after: map<nat, seq<u32>>, handles: set<nat>)
    requires between - handles == before && IsPart(after, between) && handles <= between.Keys
    ensures between.Keys == before.Keys + handles && between.Keys - handles == before.Keys
    ensures after.Keys == before.Keys ==> after == before
  {
  }

  // iree_hal_strela_executable_destroy: `fails` tells which frees set the error.
  method Destroy(dev: Device, exports: seq<Export>) returns (ghost fails: seq<bool>)
    requires dev.Valid()
    requires DistinctHandles(exports) && Handles(exports) <= dev.kernels.Keys
    modifies dev`err, dev`kernels, dev`failedFrees
    ensures dev.Valid() && dev.err == 0 && |fails| == |exports| && IsPart(dev.kernels, old(dev.kernels))
    ensures dev.kernels.Keys == FreeAll(old(dev.kernels).Keys, old(dev.err) != 0, exports, fails).kernels
    ensures dev.failedFrees == old(dev.failedFrees) ==> forall i :: 0 <= i < |fails| ==> !fails[i]
    ensures NoKernel(exports) || (old(dev.err) == 0 && AtMostOneKernel(exports)) ==>
              dev.kernels == old(dev.kernels) - Handles(exports)
  {
    ghost var pool, pending := dev.kernels.Keys, dev.err != 0;
    fails := [];
    for i := 0 to |exports|
      invariant dev.Valid() && |fails| == i && IsPart(dev.kernels, old(dev.kernels))
      invariant dev.failedFrees >= old(dev.failedFrees)
      invariant dev.failedFrees == old(dev.failedFrees) ==> dev.err == old(dev.err) && forall k :: 0 <= k < i ==> !fails[k]
      invariant FreeAll(pool, pending, exports[..i], fails) == PoolState(dev.kernels.Keys, dev.err != 0)
    {
      ghost var clear := dev.err == 0;
      NextFree(pool, pending, exports, fails, i);
      if exports[i].kernel.valid {
        if clear {
          StillLoaded(pool, exports, dev.kernels.Keys, i);
        }
        dev.KernelFree(exports[i].kernel);
      }
      fails := fails + [clear && dev.err != 0];
    }
    assert exports[..|exports|] == exports;
    var _ := dev.StatusFromDev();
    DestroyIsNeutralIff(pool, pending, exports);
  }

  lemma NextFree(pool: set<nat>, pending: bool, exports: seq<Export>, fails: seq<bool>, i: nat)
    requires i < |exports| && |fails| == i
    ensures forall failed: bool ::
              var before := FreeAll(pool, pending, exports[..i], fails);
              FreeAll(pool, pending, exports[..i + 1], fails + [failed])
              == if before.error || !exports[i].kernel.valid then before
                 else PoolState(before.kernels - {exports[i].kernel.id}, failed)
  {
    assert exports[..i + 1][..i] == exports[..i];
    forall failed: bool
      ensures (fails + [failed])[..i] == fails
    {
    }
  }

  lemma StillLoaded(pool: set<nat>, exports: seq<Export>, left: set<nat>, i: nat)
    requires i < |exports| && DistinctHandles(exports) && Handles(exports) <= pool
    requires pool - Handles(exports[..i]) <= left && exports[i].kernel.valid
    ensures exports[i].kernel.id in left
  {
    assert exports[i] in exports;
  }

  // Every kernel of the executable holds the bitstream of its export.
  predicate Loaded(exports: seq<Export>, kernels: map<nat, seq<u32>>) {
    forall e :: e in exports && e.kernel.valid ==> e.kernel.id in kernels && kernels[e.kernel.id] == e.def.bitstream
  }

  // One round of the loading loop.
  method LoadKernel(dev: Device, bitstream: seq<u32>) returns (status: Status, kernel: Handle)
    requires dev.Valid()
    modifies dev`err, dev`kernels, dev`next
    ensures dev.Valid() && dev.err == 0
    ensures old(dev.err) != 0 ==> !kernel.valid
    ensures if kernel.valid then
              && kernel.id !in old(dev.kernels) && kernel.id in dev.kernels
              && dev.kernels == old(dev.kernels)[kernel.id := dev.kernels[kernel.id]]
            else !status.Ok? && dev.kernels == old(dev.kernels)
    ensures status.Ok? ==> dev.kernels[kernel.id] == bitstream
  {
    kernel := dev.KernelAlloc();
    dev.KernelSet(kernel, bitstream);
    status := dev.StatusFromDev();
  }

  // iree_hal_strela_executable_create, from verified exports on: every kernel is
  // loaded, or the ones that were are freed again as Destroy does.
  method Create(dev: Device, defs: seq<ExportDef>)
    returns (status: Status, exports: seq<Export>, ghost fails: seq<bool>)
    requires dev.Valid()
    requires forall d :: d in defs ==> ExportVerifies(d)
    modifies dev`err, dev`kernels, dev`next, dev`failedFrees
    ensures dev.Valid() && if defs == [] then status.Ok? && dev.err == old(dev.err) else dev.err == 0
    ensures |exports| == |defs| == |fails| && DistinctHandles(exports) && Handles(exports) !! old(dev.kernels).Keys
    ensures forall i :: 0 <= i < |defs| ==> exports[i].def == defs[i]
    ensures status.Ok? ==>
              && (forall i :: 0 <= i < |defs| ==> exports[i].kernel.valid) && Loaded(exports, dev.kernels)
              && Handles(exports) <= dev.kernels.Keys && dev.kernels - Handles(exports) == old(dev.kernels)
              && dev.failedFrees == old(dev.failedFrees)
    ensures !status.Ok? ==>
              dev.kernels.Keys == FreeAll(old(dev.kernels).Keys + Handles(exports), false, exports, fails).kernels
    ensures !status.Ok? && (dev.failedFrees == old(dev.failedFrees) || AtMostOneKernel(exports)) ==>
              dev.kernels == old(dev.kernels)
    ensures old(dev.err) != 0 && defs != [] ==> !status.Ok? && dev.kernels == old(dev.kernels)
  {
    hide FreeAll, ExportVerifies, NothingAfterStop;
    status := Ok;
    exports := seq(|defs|, i requires 0 <= i < |defs| => Export(defs[i], Handle(false, 0)));
    fails := seq(|defs|, _ => false);
    var i := 0;
    while status.Ok? && i < |defs|
      invariant 0 <= i <= |defs| && dev.Valid() && |exports| == |defs|
      invariant if i == 0 then status.Ok? && dev.err == old(dev.err) else dev.err == 0
      invariant dev.failedFrees == old(dev.failedFrees)
      invariant forall k :: 0 <= k < |defs| ==> exports[k].def == defs[k]
      invariant forall k :: i <= k < |defs| ==> !exports[k].kernel.valid
      invariant status.Ok? ==> (forall k :: 0 <= k < i ==> exports[k].kernel.valid) && Loaded(exports, dev.kernels)
      invariant DistinctHandles(exports) && Handles(exports) !! old(dev.kernels).Keys
      invariant dev.kernels.Keys == old(dev.kernels).Keys + Handles(exports) && IsPart(old(dev.kernels), dev.kernels)
      invariant old(dev.err) != 0 && i != 0 ==> !status.Ok? && NoKernel(exports)
    {
      var kernel: Handle;
      status, kernel := LoadKernel(dev, exports[i].def.bitstream);
      HandlesUpdate(exports, i, kernel);
      exports := exports[i := exports[i].(kernel := kernel)];
      i := i + 1;
    }
    if !status.Ok? {
      ghost var loaded := dev.kernels;
      fails := Destroy(dev, exports);
      AllFreedIff(loaded.Keys, false, exports, fails);
      assert loaded.Keys - Handles(exports) == old(dev.kernels).Keys;
      NoFailNoStop(exports, fails);
    }
  }

  lemma NoFailNoStop(exports: seq<Export>, fails: seq<bool>)
    requires |fails| == |exports|
    ensures AtMostOneKernel(exports) || (forall i :: 0 <= i < |fails| ==> !fails[i]) ==> NothingAfterStop(false, exports, fails)
  {
  }

  // A failed create that had loaded these kernels gives them all back, whatever free
  // fails, exactly when it had loaded at most one: the error that made it fail is
  // cleared before.
  lemma FailedCreateIsNeutralIff(pool: set<nat>, exports: seq<Export>)
    requires DistinctHandles(exports) && Handles(exports) !! pool
    ensures AlwaysFreed(pool + Handles(exports), false, exports) <==> AtMostOneKernel(exports)
    ensures pool + Handles(exports) - Handles(exports) == pool
  {
    DestroyIsNeutralIff(pool + Handles(exports), false, exports);
  }

  // After a successful create, destroying is neutral, whatever frees fail, exactly when
  // there is no export, or only one and no error was left pending in between.
  lemma CreateThenDestroyIsNeutralIff(pool: set<nat>, pending: bool, exports: seq<Export>)
    requires DistinctHandles(exports) && Handles(exports) !! pool
    requires forall i :: 0 <= i < |exports| ==> exports[i].kernel.valid
    ensures AlwaysFreed(pool + Handles(exports), pending, exports) <==> |exports| == 0 || (!pending && |exports| == 1)
    ensures pool + Handles(exports) - Handles(exports) == pool
  {
    DestroyIsNeutralIff(pool + Handles(exports), pending, exports);
    if |exports| >= 1 {
      assert exports[0].kernel.valid;
    }
    if |exports| >= 2 {
      assert exports[1].kernel.valid;
    }
  }

  lemma HandlesUpdate(exports: seq<Export>, i: nat, kernel: Handle)
    requires i < |exports| && !exports[i].kernel.valid
    ensures var after := exports[i := exports[i].(kernel := kernel)];
            && Handles(after) == Handles(exports) + (if kernel.valid then {kernel.id} else {})
            && forall e :: e in after ==> e == after[i] || e in exports
  {
    var after := exports[i := exports[i].(kernel := kernel)];
    assert forall e :: e in after ==> e == after[i] || e in exports;
    forall e | e in exports && e.kernel.valid
      ensures e in after
    {
      var k :| 0 <= k < |exports| && exports[k] == e;
      assert after[k] == e;
    }
    assert after[i] in after;
  }

  // Creating and destroying an executable, with a call in between that may leave the
  // sticky error set. The kernel pool is as it was if neither that nor any free fails,
  // and in any case as the condition above says.
  method CreateThenDestroy(dev: Device, defs: seq<ExportDef>)
    returns (status: Status, ghost exports: seq<Export>, ghost pending: bool, ghost fails: seq<bool>)
    requires dev.Valid()
    requires forall d :: d in defs ==> ExportVerifies(d)
    modifies dev`err, dev`kernels, dev`next, dev`failedFrees
    ensures dev.Valid() && dev.err == 0
    ensures |exports| == |fails| == |defs| && DistinctHandles(exports) && Handles(exports) !! old(dev.kernels).Keys
    ensures dev.kernels.Keys == FreeAll(old(dev.kernels).Keys + Handles(exports), pending, exports, fails).kernels
    ensures (dev.failedFrees == old(dev.failedFrees) && !pending) || |defs| == 0 || (!pending && |defs| == 1) ==>
              dev.kernels == old(dev.kernels)
  {
    hide FreeAll, ExportVerifies, NothingAfterStop, IsPart, Loaded, NoKernel, AtMostOneKernel;
    var loaded: seq<Export>;
    status, loaded, fails := Create(dev, defs);
    exports, pending := loaded, false;
    if status.Ok? {
      dev.MayRaise();
      pending := dev.err != 0;
      ghost var pool := dev.kernels;
      fails := Destroy(dev, loaded);
      PoolBack(old(dev.kernels), pool, dev.kernels, Handles(exports));
      AllFreedIff(pool.Keys, pending, exports, fails);
      NoFailNoStop(exports, fails);
      FewKernels(exports);
    } else {
      FewKernels(exports);
    }
  }

  lemma FewKernels(exports: seq<Export>)
    ensures |exports| <= 1 ==> AtMostOneKernel(exports)
    ensures exports == [] ==> NoKernel(exports)
  {
  }
}
