// The libstrela device as the driver assumes it: memory that is not coherent with
// the CPU cache, one sticky error, kernels and jobs. Each call does nothing while
// the error is set and may itself set it.
//
// Between any two steps the cache may evict or prefetch any line, and other
// threads may write through the CPU to lines outside `owned`, the lines of the
// allocations this thread works on.
module Device {
  import opened Jobs
  import opened Memory
  import opened Status
  import opened Words

  datatype JobState = JobConfigured | JobPending | JobOk | JobFailed

  datatype Job = Job(kernel: nat, conf: Conf, state: JobState)

  // strela_job and strela_kernel: `valid` is false when the call that should have
  // made one failed.
  datatype Handle = Handle(valid: bool, id: nat)

  // STRELA_ERR_NO_MEM and STRELA_ERR_BAD_ARG. The header that numbers them is not part
  // of this model; only that they differ matters.
  const ERR_NO_MEM: int := 1
  const ERR_BAD_ARG: int := 2

  class Device {
    var mem: Memory
    var err: int
    var jobs: map<nat, Job>
    // The bitstream loaded into each kernel.
    var kernels: map<nat, seq<u32>>
    var next: nat

    // The flat memory that `mem` must represent, and the lines the device may have
    // written since the CPU last dropped them.
    ghost var flat: Flat
    ghost var stale: set<nat>

    // Kernel frees that set the sticky error.
    ghost var failedFrees: nat

    const owned: set<nat>
    const semantics: Semantics

    // iree_status_code_from_errno
    const errnoCode: int -> Code

    ghost predicate Valid()
      reads this
    {
      && Represents(mem, flat, stale)
      && stale <= owned && LinesExist(owned, |flat|)
      && (forall j :: j in jobs ==> j < next)
      && (forall k :: k in kernels ==> k < next)
    }

    // What the kernels compute.
    function Meaning(): (r: Kernels)
      reads this`kernels
    {
      Kernels(semantics, kernels)
    }

    // No line of this thread's allocations became dirty.
    twostate predicate NothingDirtied()
      reads this
    {
      forall l :: l in mem.dirty && l in owned ==> l in old(mem.dirty)
    }

    constructor (dram: Flat, ownedLines: set<nat>, bitstreamSemantics: Semantics, codeOfErrno: int -> Code)
      requires LinesExist(ownedLines, |dram|)
      ensures Valid() && flat == dram && stale == {} && err == 0
      ensures owned == ownedLines && semantics == bitstreamSemantics && errnoCode == codeOfErrno
      ensures jobs == map[] && kernels == map[]
    {
      mem := Memory(dram, map[], {});
      err, jobs, kernels, next := 0, map[], map[], 0;
      owned, semantics, errnoCode := ownedLines, bitstreamSemantics, codeOfErrno;
      flat, stale, failedFrees := dram, {}, 0;
    }

    // Whatever happens on its own between two steps of this thread.
    method Interfere()
      requires Valid()
      modifies this`mem, this`flat
      ensures Valid() && NothingDirtied()
      ensures AgreeOn(flat, old(flat), owned)
    {
      var steps: int := *;
      while steps > 0
        invariant Valid() && NothingDirtied()
        invariant AgreeOn(flat, old(flat), owned)
      {
        var line: nat, evict: bool, write: bool := *, *, *;
        if write && line < |mem.dram| && line !in owned {
          var at: nat, value: byte := *, *;
          var address := 64 * line + at % 64;
          CpuWriteRepresents(mem, flat, stale, address, value);
          mem := CpuWrite(mem, address, value);
          flat := Put(flat, address, value);
        } else {
          var step := if evict then Evict(line) else Prefetch(line);
          OccurPreserves(mem, step, flat, stale);
          mem := Occur(mem, step);
        }
        steps := steps - 1;
      }
    }

    // This thread writes one byte through the cache.
    method StoreByte(address: nat, value: byte)
      requires Valid() && address / 64 in owned && address / 64 !in stale
      modifies this`mem, this`flat
      ensures Valid()
      ensures address / 64 < |old(flat)| && AgreeOn(flat, Put(old(flat), address, value), owned)
    {
      Interfere();
      CpuWriteRepresents(mem, flat, stale, address, value);
      mem := CpuWrite(mem, address, value);
      flat := Put(flat, address, value);
    }

    // This thread reads one byte, from the cache or from DRAM.
    method LoadByte(address: nat) returns (value: byte)
      requires Valid() && address / 64 in owned && address / 64 !in stale
      modifies this`mem, this`flat
      ensures Valid() && AgreeOn(flat, old(flat), owned)
      ensures address / 64 < |old(flat)| && value == At(old(flat), address)
    {
      Interfere();
      CpuReadsView(mem, flat, stale, address);
      value := CpuView(mem)[address / 64][address % 64];
    }

    method MayRaise()
      modifies this`err
      ensures old(err) != 0 ==> err == old(err)
    {
      if err == 0 {
        err := *;
      }
    }

    // iree_hal_strela_status_from_dev: the sticky error as a status, cleared.
    method StatusFromDev() returns (status: Status)
      modifies this`err
      ensures err == 0
      ensures status.Ok? <==> old(err) == 0
      ensures old(err) < 0 ==>
                status == Error(if old(err) == -ERR_NO_MEM then ResourceExhausted
                                else if old(err) == -ERR_BAD_ARG then InvalidArgument
                                else Internal)
      ensures old(err) > 0 ==> status == Error(errnoCode(old(err)))
    {
      if err == 0 {
        return Ok;
      }
      var errnum := err;
      err := 0;
      if errnum > 0 {
        return Error(errnoCode(errnum));
      }
      if -errnum == ERR_NO_MEM {
        status := Error(ResourceExhausted);
      } else if -errnum == ERR_BAD_ARG {
        status := Error(InvalidArgument);
      } else {
        status := Error(Internal);
      }
    }

    // ---- Cache maintenance: strela_buffer_flush and strela_buffer_inval ----

    // Writes the dirty lines among [line, line + count) back to DRAM.
    method BufferFlush(line: nat, count: nat)
      requires Valid() && forall l :: line <= l < line + count ==> l in owned
      modifies this`mem, this`flat, this`err
      ensures Valid() && NothingDirtied()
      ensures AgreeOn(flat, old(flat), owned)
      ensures old(err) != 0 ==> err == old(err)
      ensures err == 0 ==> forall l :: line <= l < line + count ==> l !in mem.dirty
    {
      if err != 0 {
        return;
      }
      for i := 0 to count
        invariant Valid() && NothingDirtied()
        invariant AgreeOn(flat, old(flat), owned)
        invariant err == 0 ==> forall l :: line <= l < line + i ==> l !in mem.dirty
      {
        Interfere();
        MayRaise();
        if err != 0 {
          return;
        }
        assert line + i in owned;
        CleanRepresents(mem, line + i, flat, stale);
        mem := Clean(mem, line + i);
      }
      Interfere();
    }

    // Drops the lines [line, line + count) from the cache. The caller cleaned them.
    method BufferInval(line: nat, count: nat)
      requires Valid() && forall l :: line <= l < line + count ==> l in owned
      requires err == 0 ==> forall l :: line <= l < line + count ==> l !in mem.dirty
      modifies this`mem, this`flat, this`err, this`stale
      ensures Valid() && NothingDirtied()
      ensures AgreeOn(flat, old(flat), owned)
      ensures old(err) != 0 ==> err == old(err)
      ensures stale <= old(stale)
      ensures err == 0 ==> forall l :: line <= l < line + count ==> l !in stale
    {
      if err != 0 {
        return;
      }
      for i := 0 to count
        invariant Valid() && NothingDirtied()
        invariant AgreeOn(flat, old(flat), owned)
        invariant stale <= old(stale)
        invariant err == 0 ==> forall l :: line <= l < line + i ==> l !in stale
        invariant forall l :: line <= l < line + count ==> l !in mem.dirty
      {
        Interfere();
        MayRaise();
        if err != 0 {
          return;
        }
        assert line + i in owned;
        DropRepresents(mem, line + i, flat, stale);
        mem := Drop(mem, line + i);
        stale := stale - {line + i};
      }
      Interfere();
    }

    // ---- Kernels ----

    // A fresh kernel, holding any words.
    method KernelAlloc() returns (kernel: Handle)
      requires Valid()
      modifies this`err, this`kernels, this`next
      ensures Valid()
      ensures old(err) != 0 ==> err == old(err) && !kernel.valid
      ensures kernel.valid ==>
                && err == 0 && kernel.id !in old(kernels) && kernel.id >= old(next)
                && kernel.id in kernels && kernels == old(kernels)[kernel.id := kernels[kernel.id]]
      ensures !kernel.valid ==> kernels == old(kernels) && err != 0
      ensures next >= old(next)
    {
      kernel := Handle(false, 0);
      MayRaise();
      if err == 0 {
        kernel := Handle(true, next);
        var words: seq<u32> := *;
        kernels, next := kernels[next := words], next + 1;
      }
    }

    // Loads the bitstream into the kernel; a call that fails may load anything.
    method KernelSet(kernel: Handle, bitstream: seq<u32>)
      requires Valid() && (err == 0 ==> kernel.valid && kernel.id in kernels)
      modifies this`err, this`kernels
      ensures Valid()
      ensures old(err) != 0 ==> err == old(err) && kernels == old(kernels)
      ensures old(err) == 0 ==> kernel.id in kernels && kernels == old(kernels)[kernel.id := kernels[kernel.id]]
      ensures err == 0 ==> kernels[kernel.id] == bitstream
    {
      if err != 0 {
        return;
      }
      var words: seq<u32> := *;
      MayRaise();
      kernels := kernels[kernel.id := if err == 0 then bitstream else words];
    }

    // Frees the kernel, unless an earlier error is still set; may fail afterwards.
    method KernelFree(kernel: Handle)
      requires Valid() && (err == 0 ==> kernel.valid && kernel.id in kernels)
      modifies this`err, this`kernels, this`failedFrees
      ensures Valid()
      ensures failedFrees == old(failedFrees) + if old(err) == 0 && err != 0 then 1 else 0
      ensures old(err) != 0 ==> err == old(err) && kernels == old(kernels)
      ensures old(err) == 0 ==> kernels == old(kernels) - {kernel.id}
    {
      if err == 0 {
        kernels := kernels - {kernel.id};
        MayRaise();
        failedFrees := failedFrees + if err != 0 then 1 else 0;
      }
    }

    // ---- Jobs ----

    method JobConfig(kernel: nat, conf: Conf) returns (job: Handle)
      requires Valid()
      modifies this`err, this`jobs, this`next
      ensures Valid()
      ensures old(err) != 0 ==> err == old(err) && !job.valid
      ensures job.valid ==> err == 0 && job.id !in old(jobs)
                            && jobs == old(jobs)[job.id := Job(kernel, conf, JobConfigured)]
      ensures !job.valid ==> err != 0 && jobs == old(jobs)
    {
      job := Handle(false, 0);
      MayRaise();
      if err == 0 {
        job := Handle(true, next);
        jobs, next := jobs[next := Job(kernel, conf, JobConfigured)], next + 1;
      }
    }

    method JobSubmit(job: Handle)
      requires Valid() && (err == 0 ==> job.valid && job.id in jobs)
      modifies this`err, this`jobs
      ensures Valid()
      ensures old(err) != 0 ==> err == old(err) && jobs == old(jobs)
      ensures err == 0 ==> jobs == old(jobs)[job.id := old(jobs)[job.id].(state := JobPending)]
      ensures err != 0 ==> jobs == old(jobs)
    {
      MayRaise();
      if err == 0 {
        jobs := jobs[job.id := jobs[job.id].(state := JobPending)];
      }
    }

    // Waits for the job to run; it is then done or has failed.
    method JobWait(job: Handle)
      requires Valid()
      requires err == 0 ==>
                 && job.valid && job.id in jobs && jobs[job.id].state == JobPending
                 && ConfOn(jobs[job.id].conf, owned)
                 && ConfClean(jobs[job.id].conf)
      modifies this`mem, this`flat, this`stale, this`err, this`jobs
      ensures Valid() && NothingDirtied()
      ensures old(err) != 0 ==> err == old(err) && jobs == old(jobs) && stale == old(stale) && AgreeOn(flat, old(flat), owned)
      ensures old(err) == 0 ==>
                var j := old(jobs)[job.id];
                && jobs.Keys == old(jobs).Keys
                && (forall i :: i in jobs && i != job.id ==> jobs[i] == old(jobs)[i])
                && stale == old(stale) + OutputLines(j.conf, owned)
                && |flat| == |old(flat)| && SameOutside(flat, old(flat), owned, j.conf.outputs)
                && (jobs[job.id].state == JobOk ==> AgreeOn(flat, FlatJob(old(flat), Meaning(), j.kernel, j.conf, owned), owned))
    {
      hide LineAgrees, SameOutside, OutputLines, FlatJob;
      if err != 0 {
        return;
      }
      var j := jobs[job.id];
      var completes := RunConf(j.kernel, j.conf);
      jobs := jobs[job.id := j.(state := if completes then JobOk else JobFailed)];
      MayRaise();
    }

    // The device reads the inputs of a job from DRAM and writes its outputs to DRAM,
    // word after word, while the cache goes on doing what it likes. A job that does not
    // complete may have written anything to its output words.
    method RunConf(kernel: nat, conf: Conf) returns (completes: bool)
      requires Valid() && ConfOn(conf, owned) && ConfClean(conf)
      modifies this`mem, this`flat, this`stale
      ensures Valid() && NothingDirtied()
      ensures stale == old(stale) + OutputLines(conf, owned)
      ensures |flat| == |old(flat)| && SameOutside(flat, old(flat), owned, conf.outputs)
      ensures completes ==> AgreeOn(flat, FlatJob(old(flat), Meaning(), kernel, conf, owned), owned)
    {
      hide LineAgrees, WordOf, JobWrites, ReadStreams, InStreams, DecodeWord;
      var meaning := Meaning();
      Interfere();
      ghost var start := flat;
      ghost var outLines := OutputLines(conf, owned);
      var ins := ReadInputs(conf);
      var writes := JobWrites(meaning, kernel, ins, conf.outputs, 0);
      WritesStayOn(meaning, kernel, ins, conf, owned);
      MarkStale(mem, flat, stale, outLines);
      stale := stale + outLines;
      completes := *;
      RunWrites(writes, completes, conf.outputs);
      if completes {
        assert AgreeOn(flat, FlatJob(start, meaning, kernel, conf, owned), owned);
      }
      FlatJobAgrees(start, old(flat), meaning, kernel, conf, owned);
      Interfere();
    }

    // The device writes a job's words to DRAM, all of them if the job completes.
    method RunWrites(writes: seq<Write>, completes: bool, ghost outs: seq<Stream>)
      requires Valid()
      requires forall w :: w in writes ==> w.word / 16 in stale && InStreams(w.word, outs)
      modifies this`mem, this`flat
      ensures Valid() && NothingDirtied()
      ensures forall w :: w in writes ==> w.word / 16 < |old(flat)|
      ensures |flat| == |old(flat)| && SameOutside(flat, old(flat), owned, outs)
      ensures completes ==> AgreeOn(flat, ApplyWrites(old(flat), writes), owned)
    {
      hide LineAgrees, PutWord, WordOf, InStreams, DecodeWord;
      assert forall w :: w in writes ==> w.word / 16 in owned;
      var done := 0;
      while done < |writes|
        invariant 0 <= done <= |writes|
        invariant Valid() && NothingDirtied()
        invariant |flat| == |old(flat)| && SameOutside(flat, old(flat), owned, outs)
        invariant forall w :: w in writes[..done] ==> w in writes
        invariant completes ==> AgreeOn(flat, ApplyWrites(old(flat), writes[..done]), owned)
      {
        var stop: bool, value: u32 := *, *;
        if !completes && stop {
          return;
        }
        Interfere();
        var write := writes[done];
        assert write in writes;
        if completes {
          value := write.value;
        }
        DeviceWriteRepresents(mem, flat, stale, write.word, value);
        if completes {
          PutWordAgrees(flat, ApplyWrites(old(flat), writes[..done]), write.word, value, owned);
        }
        mem := DeviceWrite(mem, write.word, value);
        flat := PutWord(flat, write.word, value);
        assert writes[..done + 1][..done] == writes[..done];
        done := done + 1;
      }
      assert writes[..done] == writes;
    }

    // The lines of the job's columns hold nothing the CPU has yet to write back.
    ghost predicate ConfClean(conf: Conf)
      reads this
      requires ConfOn(conf, owned)
    {
      && OutputLines(conf, owned) !! mem.dirty
      && forall s, i :: s in conf.inputs && 0 <= i < s.count ==> StreamWord(s, i) / 16 !in mem.dirty
    }

    // The device reads its input streams from DRAM.
    method ReadInputs(conf: Conf) returns (ins: seq<seq<u32>>)
      requires Valid() && ConfOn(conf, owned) && ConfClean(conf)
      ensures ins == ReadStreams(flat, conf.inputs, owned)
    {
      ins := [];
      for c := 0 to |conf.inputs|
        invariant ins == ReadStreams(flat, conf.inputs, owned)[..c]
      {
        var s := conf.inputs[c];
        assert s in conf.inputs;
        var words: seq<u32> := [];
        for i := 0 to s.count
          invariant words == ReadStream(flat, s, owned)[..i]
        {
          DeviceReads(mem, flat, stale, StreamWord(s, i));
          words := words + [WordAt(mem.dram, StreamWord(s, i))];
        }
        assert words == ReadStream(flat, s, owned);
        ins := ins + [words];
      }
    }

    method JobPoll(job: Handle) returns (state: JobState)
      requires job.id in jobs
      modifies this`err
      ensures old(err) != 0 ==> err == old(err)
      ensures err == 0 ==> state == jobs[job.id].state
    {
      MayRaise();
      state := if err == 0 then jobs[job.id].state else JobPending;
    }

    // Frees the job, unless an earlier error is still set; may fail afterwards.
    method JobFree(job: Handle)
      requires Valid() && (err == 0 ==> job.valid && job.id in jobs)
      modifies this`err, this`jobs
      ensures Valid()
      ensures old(err) != 0 ==> err == old(err) && jobs == old(jobs)
      ensures old(err) == 0 ==> jobs == old(jobs) - {job.id}
    {
      if err == 0 {
        jobs := jobs - {job.id};
        MayRaise();
      }
    }
  }
}
