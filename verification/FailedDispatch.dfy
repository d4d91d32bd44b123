// What a dispatch whose job fails leaves behind (command_buffer.c): the columns were
// cleaned, the device may have stored to output words, and nothing was dropped from
// the cache. The allocator promises that the CPU never reads anything stale; after
// such a dispatch this is so exactly when there was no output word.
module FailedDispatch {
  import opened Buffers
  import opened Columns
  import opened Commands
  import opened Executables
  import opened Jobs
  import opened Memory
  import opened Status
  import opened Words

  // What memory goes through: the cache on its own, the driver cleaning a line, the
  // device storing a word, another thread writing a byte.
  datatype Step =
    | Happens(step: Spontaneous)
    | CleanLine(line: nat)
    | DeviceStores(word: nat, value: u32)
    | OthersStore(address: nat, stored: byte)

  function Play(m: Memory, step: Step): (r: Memory)
    ensures |r.dram| == |m.dram|
  {
    match step
    case Happens(s) => Occur(m, s)
    case CleanLine(l) => if l < |m.dram| then Clean(m, l) else m
    case DeviceStores(w, x) => if w / 16 < |m.dram| then DeviceWrite(m, w, x) else m
    case OthersStore(a, b) => if a / 64 < |m.dram| then CpuWrite(m, a, b) else m
  }

  // The same on a memory without caches.
  function PlayFlat(v: Flat, step: Step): (r: Flat)
    ensures |r| == |v|
  {
    match step
    case DeviceStores(w, x) => if w / 16 < |v| then PutWord(v, w, x) else v
    case OthersStore(a, b) => if a / 64 < |v| then Put(v, a, b) else v
    case _ => v
  }

  function PlayAll(m: Memory, steps: seq<Step>): (r: Memory)
    ensures |r.dram| == |m.dram|
    decreases |steps|
  {
    if steps == [] then m else PlayAll(Play(m, steps[0]), steps[1..])
  }

  function PlayAllFlat(v: Flat, steps: seq<Step>): (r: Flat)
    ensures |r| == |v|
    decreases |steps|
  {
    if steps == [] then v else PlayAllFlat(PlayFlat(v, steps[0]), steps[1..])
  }

  lemma {:induction false} PlayConcat(m: Memory, v: Flat, a: seq<Step>, b: seq<Step>)
    ensures PlayAll(m, a + b) == PlayAll(PlayAll(m, a), b)
    ensures PlayAllFlat(v, a + b) == PlayAllFlat(PlayAllFlat(v, a), b)
    decreases |a|
  {
    if a == [] {
      assert a + b == b;
    } else {
      assert (a + b)[1..] == a[1..] + b;
      PlayConcat(Play(m, a[0]), PlayFlat(v, a[0]), a[1..], b);
    }
  }

  // ---- The runs of a dispatch whose job fails ----

  // The line is one the dispatch cleans for a column.
  predicate ColumnSyncs(column: Column, line: nat) {
    column.buffer.Some? && InSync(column.buffer.value, column.offset, column.length, line)
  }

  predicate Syncs(d: Dispatch, line: nat)
    requires Resolves(d)
  {
    exists c :: 0 <= c < COLUMN_COUNT &&
      (|| ColumnSyncs(Resolve(d.exports[d.function_].def.inputs[c], true, d.constants, d.bindings).value, line)
       || ColumnSyncs(Resolve(d.exports[d.function_].def.outputs[c], false, d.constants, d.bindings).value, line))
  }

  // What may happen while the columns are cleaned, and while the job runs.
  ghost predicate WhileCleaning(d: Dispatch, owned: set<nat>, step: Step)
    requires Resolves(d)
  {
    match step
    case Happens(_) => true
    case CleanLine(l) => l in owned && Syncs(d, l)
    case DeviceStores(_, _) => false
    case OthersStore(a, _) => a / 64 !in owned
  }

  ghost predicate WhileRunning(d: Dispatch, owned: set<nat>, step: Step)
    requires Resolves(d)
  {
    match step
    case Happens(_) => true
    case CleanLine(_) => false
    case DeviceStores(w, _) => InStreams(w, DispatchConf(d).outputs)
    case OthersStore(a, _) => a / 64 !in owned
  }

  // Every line of every column is cleaned, then the job stores what it likes to its
  // output words and fails; the dispatch returns there.
  ghost predicate IsFailedRun(d: Dispatch, owned: set<nat>, cleaning: seq<Step>, running: seq<Step>)
    requires Resolves(d)
  {
    && (forall k :: 0 <= k < |cleaning| ==> WhileCleaning(d, owned, cleaning[k]))
    && (forall l :: l in owned && Syncs(d, l) ==> CleanLine(l) in cleaning)
    && forall k :: 0 <= k < |running| ==> WhileRunning(d, owned, running[k])
  }

  // After the run the CPU reads flat memory on the lines of this thread's buffers.
  ghost predicate ReadsFlat(m: Memory, v: Flat, owned: set<nat>, steps: seq<Step>) {
    AgreeOn(CpuView(PlayAll(m, steps)), PlayAllFlat(v, steps), owned)
  }

  // ---- Without an output word nothing is stale ----

  lemma StepRepresents(m: Memory, v: Flat, step: Step)
    requires Represents(m, v, {}) && !step.DeviceStores?
    ensures Represents(Play(m, step), PlayFlat(v, step), {})
  {
    match step
    case Happens(s) => OccurPreserves(m, s, v, {});
    case CleanLine(l) =>
      if l < |v| {
        CleanRepresents(m, l, v, {});
      }
    case OthersStore(a, b) =>
      if a / 64 < |v| {
        CpuWriteRepresents(m, v, {}, a, b);
      }
  }

  lemma {:induction false} RunRepresents(m: Memory, v: Flat, steps: seq<Step>)
    requires Represents(m, v, {}) && forall k :: 0 <= k < |steps| ==> !steps[k].DeviceStores?
    ensures Represents(PlayAll(m, steps), PlayAllFlat(v, steps), {})
    decreases |steps|
  {
    if steps != [] {
      StepRepresents(m, v, steps[0]);
      RunRepresents(Play(m, steps[0]), PlayFlat(v, steps[0]), steps[1..]);
    }
  }

  lemma NoStores(d: Dispatch, owned: set<nat>, step: Step)
    requires SafeDispatch(d, owned) && Resolves(d) && NoOutputWord(d) && WhileRunning(d, owned, step)
    ensures !step.DeviceStores?
  {
    DispatchOwned(d, owned);
    NoOutputNoLines(d, owned);
  }

  lemma NothingStaleWithoutOutput(m: Memory, v: Flat, d: Dispatch, owned: set<nat>, cleaning: seq<Step>, running: seq<Step>)
    requires Represents(m, v, {}) && SafeDispatch(d, owned) && Resolves(d) && NoOutputWord(d)
    requires IsFailedRun(d, owned, cleaning, running)
    ensures ReadsFlat(m, v, owned, cleaning + running)
  {
    var steps := cleaning + running;
    forall k | 0 <= k < |steps|
      ensures !steps[k].DeviceStores?
    {
      if k < |cleaning| {
        assert WhileCleaning(d, owned, cleaning[k]);
      } else {
        NoStores(d, owned, running[k - |cleaning|]);
      }
    }
    RunRepresents(m, v, steps);
    CoherentIff(PlayAll(m, steps), PlayAllFlat(v, steps));
  }

  // ---- With one, some failed run is read stale ----

  // The lines of the columns, one after the other.
  ghost function SeqOf(lines: set<nat>): (r: seq<nat>)
    ensures forall l :: l in r <==> l in lines
  {
    if lines == {} then []
    else
      var l :| l in lines;
      [l] + SeqOf(lines - {l})
  }

  function Cleans(lines: seq<nat>): (steps: seq<Step>)
    ensures |steps| == |lines| && forall k :: 0 <= k < |lines| ==> steps[k] == CleanLine(lines[k])
  {
    seq(|lines|, k requires 0 <= k < |lines| => CleanLine(lines[k]))
  }

  lemma {:induction false} CleansClean(m: Memory, v: Flat, lines: seq<nat>)
    requires Represents(m, v, {}) && forall l :: l in lines ==> l < |v|
    ensures var r := PlayAll(m, Cleans(lines));
            && Represents(r, v, {}) && PlayAllFlat(v, Cleans(lines)) == v
            && r.dirty <= m.dirty && forall l :: l in lines ==> l !in r.dirty
    decreases |lines|
  {
    if lines != [] {
      assert lines[0] in lines && forall l :: l in lines[1..] ==> l in lines;
      var cleaned := Clean(m, lines[0]);
      CleanRepresents(m, lines[0], v, {});
      assert Cleans(lines)[1..] == Cleans(lines[1..]);
      CleansClean(cleaned, v, lines[1..]);
      assert forall l :: l in lines ==> l == lines[0] || l in lines[1..];
    }
  }

  // The first word of an output column, its line, and a value it does not hold.
  lemma OutputWord(d: Dispatch, owned: set<nat>) returns (w: nat)
    requires SafeDispatch(d, owned) && Resolves(d) && !NoOutputWord(d)
    ensures InStreams(w, DispatchConf(d).outputs) && w / 16 in owned && Syncs(d, w / 16)
  {
    var def, conf := d.exports[d.function_].def, DispatchConf(d);
    var c :| 0 <= c < COLUMN_COUNT && def.outputs[c].wordCount != 0;
    var column := Resolve(def.outputs[c], false, d.constants, d.bindings).value;
    ColumnWordsSynced(def.outputs[c], false, d.constants, d.bindings, owned, column);
    w := StreamWord(conf.outputs[c], 0);
    assert InStream(w, conf.outputs[c]);
    assert ColumnSyncs(column, w / 16);
  }

  lemma SomeFailedRunIsStale(m: Memory, v: Flat, d: Dispatch, owned: set<nat>)
    returns (cleaning: seq<Step>, running: seq<Step>)
    requires Represents(m, v, {}) && LinesExist(owned, |v|)
    requires SafeDispatch(d, owned) && Resolves(d) && !NoOutputWord(d)
    ensures IsFailedRun(d, owned, cleaning, running) && !ReadsFlat(m, v, owned, cleaning + running)
  {
    hide Syncs, Represents, InStreams, SafeDispatch, Resolves, WordAt, PutWord, DispatchConf, Occur;
    var w := OutputWord(d, owned);
    var x: u32 := if WordAt(v, w) == 0 then 1 else 0;
    var lines := SeqOf(set l | l in owned && Syncs(d, l));
    cleaning, running := Cleans(lines), [Happens(Prefetch(w / 16)), DeviceStores(w, x)];
    CleansTheColumns(d, owned, lines);
    assert forall k :: 0 <= k < |running| ==> WhileRunning(d, owned, running[k]);
    SkippedDropIsStale(m, v, owned, lines, w, x);
  }

  lemma CleansTheColumns(d: Dispatch, owned: set<nat>, lines: seq<nat>)
    requires Resolves(d) && forall l :: l in lines <==> l in owned && Syncs(d, l)
    ensures forall k :: 0 <= k < |lines| ==> WhileCleaning(d, owned, Cleans(lines)[k])
    ensures forall l :: l in owned && Syncs(d, l) ==> CleanLine(l) in Cleans(lines)
  {
    hide Syncs, Resolves;
    forall l | l in owned && Syncs(d, l)
      ensures CleanLine(l) in Cleans(lines)
    {
      var k :| 0 <= k < |lines| && lines[k] == l;
      assert Cleans(lines)[k] == CleanLine(l);
    }
  }

  // A line that was cleaned is prefetched, then the device stores another word to it.
  lemma SkippedDropIsStale(m: Memory, v: Flat, owned: set<nat>, lines: seq<nat>, w: nat, x: u32)
    requires Represents(m, v, {}) && LinesExist(owned, |v|) && forall l :: l in lines ==> l in owned
    requires w / 16 in lines && x != WordAt(v, w)
    ensures !ReadsFlat(m, v, owned, Cleans(lines) + [Happens(Prefetch(w / 16)), DeviceStores(w, x)])
  {
    hide WordAt, PutWord, Occur;
    CleansClean(m, v, lines);
    var cleaned := PlayAll(m, Cleans(lines));
    SkippingInvalidationIsStale(cleaned, v, w, x);
    PlayConcat(m, v, Cleans(lines), [Happens(Prefetch(w / 16)), DeviceStores(w, x)]);
    PlayTwo(cleaned, v, Happens(Prefetch(w / 16)), DeviceStores(w, x));
  }

  lemma PlayTwo(m: Memory, v: Flat, a: Step, b: Step)
    ensures PlayAll(m, [a, b]) == Play(Play(m, a), b) && PlayAllFlat(v, [a, b]) == PlayFlat(PlayFlat(v, a), b)
  {
    assert [a, b][1..] == [b] && [b][1..] == [];
    assert PlayAll(Play(m, a), [b]) == Play(Play(m, a), b);
    assert PlayAllFlat(PlayFlat(v, a), [b]) == PlayFlat(PlayFlat(v, a), b);
  }

  // From any coherent memory, no failed run leaves anything for the CPU to read stale
  // exactly when no output column of the dispatch has a word.
  lemma FailedDispatchIsCoherentIff(m: Memory, v: Flat, d: Dispatch, owned: set<nat>)
    requires Represents(m, v, {}) && LinesExist(owned, |v|) && SafeDispatch(d, owned) && Resolves(d)
    ensures (forall cleaning, running :: IsFailedRun(d, owned, cleaning, running) ==> ReadsFlat(m, v, owned, cleaning + running))
            <==> NoOutputWord(d)
  {
    if NoOutputWord(d) {
      forall cleaning, running | IsFailedRun(d, owned, cleaning, running)
        ensures ReadsFlat(m, v, owned, cleaning + running)
      {
        NothingStaleWithoutOutput(m, v, d, owned, cleaning, running);
      }
    } else {
      var cleaning, running := SomeFailedRunIsStale(m, v, d, owned);
    }
  }
}
