// Main memory seen by a CPU through a write-back cache and by a device that
// reads and writes DRAM only. Memory is a sequence of 64-byte cache lines; byte
// `a` is byte `a % 64` of line `a / 64`, and word `w` is bytes 4w to 4w + 3.
module Memory {
  import opened Words

  type Line = s: seq<byte> | |s| == 64 witness seq(64, _ => 0)

  // A flat, cache-free memory.
  type Flat = seq<Line>

  function At(v: Flat, a: nat): (b: byte)
    requires a / 64 < |v|
  {
    v[a / 64][a % 64]
  }

  function Put(v: Flat, a: nat, b: byte): (r: Flat)
    requires a / 64 < |v|
    ensures |r| == |v| && At(r, a) == b
    ensures forall l :: 0 <= l < |v| && l != a / 64 ==> r[l] == v[l]
  {
    v[a / 64 := v[a / 64][a % 64 := b]]
  }

  function WordOf(line: Line, k: nat): (x: u32)
    requires k < 16
  {
    DecodeWord(line[4 * k..4 * k + 4])
  }

  function WithWord(line: Line, k: nat, x: u32): (r: Line)
    requires k < 16
    ensures WordOf(r, k) == x
    ensures forall j :: 0 <= j < 16 && j != k ==> WordOf(r, j) == WordOf(line, j)
    ensures forall p :: 0 <= p < 64 && p / 4 != k ==> r[p] == line[p]
  {
    var r := line[..4 * k] + EncodeWord(x) + line[4 * k + 4..];
    assert r[4 * k..4 * k + 4] == EncodeWord(x);
    assert forall j :: 0 <= j < 16 && j != k ==> r[4 * j..4 * j + 4] == line[4 * j..4 * j + 4];
    r
  }

  function WordAt(v: Flat, w: nat): (x: u32)
    requires w / 16 < |v|
  {
    WordOf(v[w / 16], w % 16)
  }

  function PutWord(v: Flat, w: nat, x: u32): (r: Flat)
    requires w / 16 < |v|
    ensures |r| == |v| && WordAt(r, w) == x
    ensures forall u: nat :: u / 16 < |v| && u != w ==> WordAt(r, u) == WordAt(v, u)
    ensures forall l :: 0 <= l < |v| && l != w / 16 ==> r[l] == v[l]
  {
    v[w / 16 := WithWord(v[w / 16], w % 16, x)]
  }

  // ---- DRAM behind a write-back cache ----

  datatype Memory = Memory(dram: Flat, cache: map<nat, Line>, dirty: set<nat>)

  ghost predicate WellFormed(m: Memory) {
    && m.dirty <= m.cache.Keys
    && (forall l :: l in m.cache ==> l < |m.dram|)
  }

  // `v` is what the CPU must read once the clean lines in `stale` are dropped.
  // The lines in `stale` are the ones the device may have written since they were
  // last cleaned: DRAM is right there and a cached copy may not be.
  ghost predicate Represents(m: Memory, v: Flat, stale: set<nat>) {
    && WellFormed(m) && |v| == |m.dram| && m.dirty !! stale
    && forall l :: 0 <= l < |v| ==> LineAgrees(m, v, stale, l)
  }

  ghost predicate LineAgrees(m: Memory, v: Flat, stale: set<nat>, l: nat)
    requires l < |v| == |m.dram| && m.dirty <= m.cache.Keys
  {
    if l in m.dirty then m.cache[l] == v[l]
    else m.dram[l] == v[l] && (l in m.cache && l !in stale ==> m.cache[l] == v[l])
  }

  // What the CPU reads.
  function CpuView(m: Memory): (v: Flat)
    ensures |v| == |m.dram|
  {
    seq(|m.dram|, l requires 0 <= l < |m.dram| => if l in m.cache then m.cache[l] else m.dram[l])
  }

  // Every cached line the CPU has not written equals DRAM.
  ghost predicate CleanLinesMatchDram(m: Memory) {
    forall l :: l in m.cache && l !in m.dirty && l < |m.dram| ==> m.cache[l] == m.dram[l]
  }

  // With nothing stale, `Represents` is exactly: the CPU reads `v` and every clean
  // line equals DRAM.
  lemma CoherentIff(m: Memory, v: Flat)
    requires WellFormed(m)
    ensures Represents(m, v, {}) <==> v == CpuView(m) && CleanLinesMatchDram(m)
  {
    if Represents(m, v, {}) {
      forall l | 0 <= l < |v|
        ensures v[l] == CpuView(m)[l] && (l in m.cache && l !in m.dirty ==> m.cache[l] == m.dram[l])
      {
        assert LineAgrees(m, v, {}, l);
      }
    }
    if v == CpuView(m) && CleanLinesMatchDram(m) {
      forall l | 0 <= l < |v|
        ensures LineAgrees(m, v, {}, l)
      {
        assert v[l] == CpuView(m)[l];
      }
    }
  }

  // ---- What the hardware does on its own ----

  datatype Spontaneous = Evict(line: nat) | Prefetch(line: nat)

  function Clean(m: Memory, l: nat): (r: Memory)
    requires l < |m.dram|
  {
    if l in m.dirty && l in m.cache then m.(dram := m.dram[l := m.cache[l]], dirty := m.dirty - {l}) else m
  }

  // Drops a line without writing it back.
  function Drop(m: Memory, l: nat): (r: Memory) {
    m.(cache := m.cache - {l}, dirty := m.dirty - {l})
  }

  function Fetch(m: Memory, l: nat): (r: Memory)
    requires l < |m.dram|
  {
    if l in m.cache then m else m.(cache := m.cache[l := m.dram[l]])
  }

  function Occur(m: Memory, step: Spontaneous): (r: Memory)
    ensures |r.dram| == |m.dram|
  {
    if step.line >= |m.dram| then m
    else match step
      case Evict(l) => Drop(Clean(m, l), l)
      case Prefetch(l) => Fetch(m, l)
  }

  function OccurAll(m: Memory, steps: seq<Spontaneous>): (r: Memory)
    decreases |steps|
  {
    if steps == [] then m else OccurAll(Occur(m, steps[0]), steps[1..])
  }

  lemma OccurPreserves(m: Memory, step: Spontaneous, v: Flat, stale: set<nat>)
    requires Represents(m, v, stale)
    ensures Represents(Occur(m, step), v, stale)
    ensures Occur(m, step).dirty <= m.dirty
  {
    if step.line < |m.dram| {
      match step
      case Evict(l) =>
        CleanRepresents(m, l, v, stale);
        DropRepresents(Clean(m, l), l, v, stale);
        MarkStale(Drop(Clean(m, l), l), v, stale - {l}, stale);
        assert stale - {l} + stale == stale;
      case Prefetch(l) =>
        forall k | 0 <= k < |v|
          ensures LineAgrees(Fetch(m, l), v, stale, k)
        {
          assert LineAgrees(m, v, stale, k);
        }
    }
  }

  // No run of evictions and prefetches changes what memory represents, and none
  // makes a clean line dirty.
  lemma {:induction false} SpontaneousRunPreserves(m: Memory, steps: seq<Spontaneous>, v: Flat, stale: set<nat>)
    requires Represents(m, v, stale)
    ensures Represents(OccurAll(m, steps), v, stale)
    ensures OccurAll(m, steps).dirty <= m.dirty
    decreases |steps|
  {
    if steps != [] {
      OccurPreserves(m, steps[0], v, stale);
      SpontaneousRunPreserves(Occur(m, steps[0]), steps[1..], v, stale);
    }
  }

  // ---- CPU accesses ----

  // The line is brought in and becomes dirty.
  function CpuWrite(m: Memory, a: nat, b: byte): (r: Memory)
    requires a / 64 < |m.dram|
  {
    var filled := Fetch(m, a / 64);
    filled.(cache := filled.cache[a / 64 := filled.cache[a / 64][a % 64 := b]],
            dirty := filled.dirty + {a / 64})
  }

  lemma CpuWriteRepresents(m: Memory, v: Flat, stale: set<nat>, a: nat, b: byte)
    requires Represents(m, v, stale) && a / 64 < |v| && a / 64 !in stale
    ensures Represents(CpuWrite(m, a, b), Put(v, a, b), stale)
  {
    assert LineAgrees(m, v, stale, a / 64);
    forall l | 0 <= l < |v|
      ensures LineAgrees(CpuWrite(m, a, b), Put(v, a, b), stale, l)
    {
      assert LineAgrees(m, v, stale, l);
    }
  }

  lemma CpuReadsView(m: Memory, v: Flat, stale: set<nat>, a: nat)
    requires Represents(m, v, stale) && a / 64 < |v| && a / 64 !in stale
    ensures At(CpuView(m), a) == At(v, a)
  {
    assert LineAgrees(m, v, stale, a / 64);
  }

  // ---- Cache maintenance ----

  lemma CleanRepresents(m: Memory, l: nat, v: Flat, stale: set<nat>)
    requires Represents(m, v, stale) && l < |v|
    ensures Represents(Clean(m, l), v, stale)
    ensures Clean(m, l).dirty == m.dirty - {l}
  {
    forall k | 0 <= k < |v|
      ensures LineAgrees(Clean(m, l), v, stale, k)
    {
      assert LineAgrees(m, v, stale, k);
    }
  }

  // Dropping a clean line makes it right again.
  lemma DropRepresents(m: Memory, l: nat, v: Flat, stale: set<nat>)
    requires Represents(m, v, stale) && l !in m.dirty
    ensures Represents(Drop(m, l), v, stale - {l})
  {
    forall k | 0 <= k < |v|
      ensures LineAgrees(Drop(m, l), v, stale - {l}, k)
    {
      assert LineAgrees(m, v, stale, k);
    }
  }

  // Dropping a dirty line would lose CPU writes: this is why an invalidation
  // cleans its lines first.
  lemma DropDirtyLosesWrites(m: Memory, l: nat, v: Flat)
    requires Represents(m, v, {}) && l in m.dirty && l < |v| && m.dram[l] != m.cache[l]
    ensures !Represents(Drop(m, l), v, {})
  {
    assert LineAgrees(m, v, {}, l);
    assert !LineAgrees(Drop(m, l), v, {}, l);
  }

  // ---- The device ----

  lemma MarkStale(m: Memory, v: Flat, stale: set<nat>, more: set<nat>)
    requires Represents(m, v, stale) && more !! m.dirty
    ensures Represents(m, v, stale + more)
  {
    forall l | 0 <= l < |v|
      ensures LineAgrees(m, v, stale + more, l)
    {
      assert LineAgrees(m, v, stale, l);
    }
  }

  function DeviceWrite(m: Memory, w: nat, x: u32): (r: Memory)
    requires w / 16 < |m.dram|
  {
    m.(dram := PutWord(m.dram, w, x))
  }

  lemma DeviceWriteRepresents(m: Memory, v: Flat, stale: set<nat>, w: nat, x: u32)
    requires Represents(m, v, stale) && w / 16 < |v| && w / 16 in stale
    ensures Represents(DeviceWrite(m, w, x), PutWord(v, w, x), stale)
  {
    assert LineAgrees(m, v, stale, w / 16);
    forall l | 0 <= l < |v|
      ensures LineAgrees(DeviceWrite(m, w, x), PutWord(v, w, x), stale, l)
    {
      assert LineAgrees(m, v, stale, l);
    }
  }

  // A device reads what the CPU wrote wherever the line is clean.
  lemma DeviceReads(m: Memory, v: Flat, stale: set<nat>, w: nat)
    requires Represents(m, v, stale) && w / 16 < |v| && w / 16 !in m.dirty
    ensures WordAt(m.dram, w) == WordAt(v, w)
  {
    assert LineAgrees(m, v, stale, w / 16);
  }

  // Without the invalidation the CPU goes on reading a prefetched line, whatever
  // the device put in DRAM: nothing but that line has to be cached for it.
  lemma SkippingInvalidationIsStale(m: Memory, v: Flat, w: nat, x: u32)
    requires Represents(m, v, {}) && w / 16 < |v| && w / 16 !in m.dirty && x != WordAt(v, w)
    ensures var after := DeviceWrite(Occur(m, Prefetch(w / 16)), w, x);
            && Represents(after, PutWord(v, w, x), {w / 16})
            && CpuView(after)[w / 16] == v[w / 16] != PutWord(v, w, x)[w / 16]
  {
    OccurPreserves(m, Prefetch(w / 16), v, {});
    var prefetched := Occur(m, Prefetch(w / 16));
    MarkStale(prefetched, v, {}, {w / 16});
    assert {} + {w / 16} == {w / 16};
    DeviceWriteRepresents(prefetched, v, {w / 16}, w, x);
    assert LineAgrees(prefetched, v, {}, w / 16);
    assert WordAt(PutWord(v, w, x), w) == x;
  }
}
