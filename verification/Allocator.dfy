// Buffer allocation (allocator.c): whole cache lines are asked for, so that syncing
// one live buffer never reaches a line of another.
module Allocator {
  import opened Buffers
  import opened CacheLines
  import opened Columns
  import opened Status
  import opened Words

  // Live allocations keep to themselves: line-aligned, disjoint once padded.
  ghost predicate Separate(live: seq<Allocation>) {
    && (forall i :: 0 <= i < |live| ==> live[i].baseWords % 16 == 0 && live[i].size + LINE <= U64)
    && (forall i, j :: 0 <= i < j < |live| ==> DisjointBlocks(live[i], live[j]))
  }

  function End(a: Allocation): (r: nat)
    requires a.size + LINE <= U64
  {
    a.baseWords * WORD + PaddedSize(a.size)
  }

  ghost predicate FreeSpace(live: seq<Allocation>, base: nat, size: nat)
    requires size + LINE <= U64 && forall i :: 0 <= i < |live| ==> live[i].size + LINE <= U64
  {
    base % 16 == 0 && forall i :: 0 <= i < |live| ==> DisjointBlocks(live[i], Allocation(base, size))
  }

  // The words the driver asks libstrela for: the padded size in words, as a 32-bit
  // size_t.
  function RequestedWords(size: nat): (words: u32)
    requires size + LINE <= U64
  {
    Wrap32(PaddedSize(size) / WORD)
  }

  // The block is as large as the buffer exactly when the padded size is below 2^34
  // bytes: a 2^34 byte buffer gets a block of no words.
  lemma RequestCoversIff(size: nat)
    requires size + LINE <= U64
    ensures size <= WORD * RequestedWords(size) <==> PaddedSize(size) < 4 * U32
    ensures PaddedSize(size) < 4 * U32 ==> WORD * RequestedWords(size) == PaddedSize(size)
    ensures WORD * RequestedWords(size) % LINE == 0
  {
    hide Wrap32, PaddedSize;
    PaddedLines(size);
    var lines := PaddedSize(size) / LINE;
    WordsOfLines(lines);
    LinesWrap(lines);
  }

  lemma PaddedLines(size: nat)
    requires size + LINE <= U64
    ensures PaddedSize(size) == LINE * (PaddedSize(size) / LINE)
  {
  }

  lemma WordsOfLines(lines: nat)
    ensures LINE * lines / WORD == 16 * lines
  {
  }

  lemma LinesWrap(lines: nat)
    ensures Wrap32(16 * lines) == 16 * (lines % 0x1000_0000)
  {
    var q, r := lines / 0x1000_0000, lines % 0x1000_0000;
    assert 16 * lines == U32 * q + 16 * r;
    DivUnique(16 * lines, U32, q, 16 * r);
  }

  // The blocks left and the sticky error.
  datatype Released = Released(left: seq<Allocation>, error: bool)

  // Releasing blocks in turn: `pending` says whether the error is set before, `fails[i]`
  // whether the free of block i sets it. A release never clears the error, so every later
  // one does nothing.
  function ReleaseAll(blocks: seq<Allocation>, pending: bool, fails: seq<bool>): (r: Released)
    requires |fails| == |blocks|
    ensures !r.error ==> r.left == []
  {
    if blocks == [] then Released([], pending)
    else
      var last := |blocks| - 1;
      var before := ReleaseAll(blocks[..last], pending, fails[..last]);
      if before.error then Released(before.left + [blocks[last]], true) else Released(before.left, fails[last])
  }

  lemma {:induction false} ReleaseErrorIff(blocks: seq<Allocation>, pending: bool, fails: seq<bool>)
    requires |fails| == |blocks|
    ensures ReleaseAll(blocks, pending, fails).error <==> pending || exists i :: 0 <= i < |fails| && fails[i]
  {
    if blocks != [] {
      var last := |blocks| - 1;
      ReleaseErrorIff(blocks[..last], pending, fails[..last]);
      assert forall i :: 0 <= i < last ==> fails[..last][i] == fails[i];
    }
  }

  lemma NothingReleased(pending: bool)
    ensures ReleaseAll([], pending, []) == Released([], pending)
  {
  }

  lemma NextRelease(blocks: seq<Allocation>, pending: bool, fails: seq<bool>, failed: bool, i: nat)
    requires i < |blocks| && |fails| == i
    ensures var before := ReleaseAll(blocks[..i], pending, fails);
            && ReleaseAll(blocks[..i + 1], pending, fails + [failed])
               == (if before.error then Released(before.left + [blocks[i]], true) else Released([], failed))
            && before.left + blocks[i..] == before.left + [blocks[i]] + blocks[i + 1..]
  {
    assert blocks[..i + 1][..i] == blocks[..i] && (fails + [failed])[..i] == fails;
  }

  // Every block is given back exactly when there is none, or no error is pending and no
  // free before the last one fails.
  lemma AllReleasedIff(blocks: seq<Allocation>, pending: bool, fails: seq<bool>)
    requires |fails| == |blocks|
    ensures ReleaseAll(blocks, pending, fails).left == []
            <==> blocks == [] || (!pending && forall i :: 0 <= i < |blocks| - 1 ==> !fails[i])
  {
    if blocks != [] {
      var last := |blocks| - 1;
      ReleaseErrorIff(blocks[..last], pending, fails[..last]);
      assert forall i :: 0 <= i < last ==> fails[..last][i] == fails[i];
    }
  }

  // Whatever frees fail: exactly when there is none, or one and no error is pending.
  lemma AlwaysReleasedIff(blocks: seq<Allocation>, pending: bool)
    ensures (forall fails: seq<bool> :: |fails| == |blocks| ==> ReleaseAll(blocks, pending, fails).left == [])
            <==> blocks == [] || (!pending && |blocks| == 1)
  {
    hide ReleaseAll;
    forall fails: seq<bool> | |fails| == |blocks|
      ensures ReleaseAll(blocks, pending, fails).left == []
              <==> blocks == [] || (!pending && forall i :: 0 <= i < |blocks| - 1 ==> !fails[i])
    {
      AllReleasedIff(blocks, pending, fails);
    }
    var first: seq<bool> := seq(|blocks|, i => i == 0);
    assert |first| == |blocks| && (|blocks| >= 2 ==> first[0]);
  }

  class BufferAllocator {
    // The allocations libstrela holds for this device.
    var live: seq<Allocation>
    var err: int

    ghost predicate Valid()
      reads this
    {
      Separate(live)
    }

    constructor ()
      ensures Valid() && live == [] && err == 0
    {
      live, err := [], 0;
    }

    // strela_buffer_alloc, as assumed: nothing while an error is set, else a
    // line-aligned block of that many words that overlaps no live one, or an error.
    method BufferAlloc(words: u32) returns (block: Option<Allocation>)
      requires Valid()
      modifies this
      ensures Valid()
      ensures old(err) != 0 ==> err == old(err) && block.None?
      ensures block.None? ==> err != 0 && live == old(live)
      ensures block.Some? ==> err == 0 && block.value.size == WORD * words && live == old(live) + [block.value]
    {
      var size: nat := WORD * words;
      block := None;
      if err == 0 {
        err := *;
      }
      if err == 0 {
        var place := PickSpace(size);
        block := Some(Allocation(place, size));
        live := live + [block.value];
      }
    }

    // Any free place.
    method PickSpace(size: nat) returns (base: nat)
      requires Valid() && size + LINE <= U64
      ensures FreeSpace(live, base, size)
    {
      base := 0;
      for i := 0 to |live|
        invariant base % 16 == 0
        invariant forall j :: 0 <= j < i ==> End(live[j]) <= base * WORD
      {
        if End(live[i]) > base * WORD {
          base := (End(live[i]) + 63) / 64 * 16;
        }
      }
      var skip: int := *;
      base := base + 16 * if skip > 0 then skip else 0;
      forall i | 0 <= i < |live|
        ensures DisjointBlocks(live[i], Allocation(base, size))
      {
        assert End(live[i]) <= base * WORD;
      }
    }

    // strela_buffer_free, also what releasing a buffer comes to. A block survives if
    // an earlier error is still set.
    method BufferFree(i: nat)
      requires Valid() && i < |live|
      modifies this
      ensures Valid()
      ensures old(err) != 0 ==> err == old(err)
      ensures live == if old(err) == 0 then old(live)[..i] + old(live)[i + 1..] else old(live)
    {
      if err == 0 {
        live := live[..i] + live[i + 1..];
        err := *;
      }
    }

    // Releases every live buffer (iree_hal_strela_buffer_release_fn).
    method ReleaseBuffers() returns (ghost fails: seq<bool>)
      requires Valid()
      modifies this
      ensures Valid() && |fails| == |old(live)|
      ensures Released(live, err != 0) == ReleaseAll(old(live), old(err) != 0, fails)
    {
      hide ReleaseAll, Separate;
      ghost var blocks, pending := live, err != 0;
      NothingReleased(pending);
      var count := |live|;
      fails := [];
      for i := 0 to count
        invariant Valid() && |fails| == i
        invariant ReleaseAll(blocks[..i], pending, fails).error == (err != 0)
        invariant live == ReleaseAll(blocks[..i], pending, fails).left + blocks[i..]
      {
        ghost var clear := err == 0;
        BufferFree(|live| - (count - i));
        NextRelease(blocks, pending, fails, clear && err != 0, i);
        fails := fails + [clear && err != 0];
      }
      assert blocks[..count] == blocks;
    }

    // iree_hal_strela_allocator_allocate_buffer: a failure, in libstrela or of the
    // host allocation that wraps the block, leaves nothing allocated. The error of a
    // block that is freed again is not cleared; `cleanup` tells whether there was one.
    method AllocateBuffer(size: nat) returns (status: Status, block: Option<Allocation>, ghost cleanup: bool)
      requires Valid() && size + LINE <= U64
      modifies this
      ensures Valid()
      ensures status.Ok? <==> block.Some?
      ensures status.Ok? ==> block.value.size == WORD * RequestedWords(size) && live == old(live) + [block.value] && err == 0
      ensures status.Ok? ==> (size <= block.value.size <==> PaddedSize(size) < 4 * U32)
      ensures !status.Ok? ==> live == old(live)
      ensures err != 0 ==> !status.Ok? && cleanup
    {
      RequestCoversIff(size);
      cleanup := false;
      block := BufferAlloc(RequestedWords(size));
      status := if err == 0 then Ok else Error(ResourceExhausted);
      err := 0;
      if status.Ok? {
        var wrapped: bool := *;
        if !wrapped {
          status := Error(ResourceExhausted);
        }
      }
      if !status.Ok? && block.Some? {
        BufferFree(|live| - 1);
        block, cleanup := None, true;
      }
    }
  }

  // In every reachable state, syncing a range of one live buffer touches no line of
  // another.
  lemma LiveBuffersAreIsolated(live: seq<Allocation>, i: nat, j: nat, offset: nat, length: nat, line: nat)
    requires Separate(live) && i < |live| && j < |live| && i != j
    requires offset + length <= live[i].size
    requires Synced(live[i], BufferLines(offset, length), line)
    ensures OwnsLine(live[i], line) && !OwnsLine(live[j], line)
  {
    assert DisjointBlocks(live[i], live[j]) || DisjointBlocks(live[j], live[i]);
    SyncIsIsolated(live[i], live[j], offset, length, line);
  }

  // A buffer of the driver in a block of libstrela.
  predicate InBlock(b: Buffer, block: Allocation) {
    b.baseWords == block.baseWords && b.allocSize <= block.size
  }

  // So buffers in different live blocks share no line that a sync of either, or of all of
  // it, touches: the lines that two threads own are disjoint if their blocks are.
  lemma BuffersShareNoLine(live: seq<Allocation>, i: nat, j: nat, a: Buffer, b: Buffer, line: nat)
    requires Separate(live) && i < |live| && j < |live| && i != j
    requires InBlock(a, live[i]) && InBlock(b, live[j])
    ensures !(InSync(a, 0, a.allocSize, line) && InSync(b, 0, b.allocSize, line))
  {
    hide PaddedSize;
    assert DisjointBlocks(live[i], live[j]) || DisjointBlocks(live[j], live[i]);
    if InSync(a, 0, a.allocSize, line) && InSync(b, 0, b.allocSize, line) {
      BufferInBlock(live[i], a, line);
      BufferInBlock(live[j], b, line);
    }
  }

  lemma BufferInBlock(block: Allocation, b: Buffer, line: nat)
    requires block.baseWords % 16 == 0 && block.size + LINE <= U64 && InBlock(b, block)
    requires InSync(b, 0, b.allocSize, line)
    ensures OwnsLine(block, line)
  {
    var base, lines := block.baseWords / 16, PaddedSize(block.size) / LINE;
    assert block.baseWords == 16 * base && PaddedSize(block.size) == LINE * lines;
    BaseShifts(base, 0);
    BaseShifts(base, b.allocSize + 63);
  }

  // Without the padding, two 4-byte buffers side by side share the line that a sync
  // of either touches.
  lemma UnpaddedNeighboursShareALine()
    ensures var a, b := Allocation(0, 4), Allocation(1, 4);
            && a.baseWords * WORD + a.size <= b.baseWords * WORD
            && Synced(a, BufferLines(0, 4), 0)
            && b.baseWords * WORD / LINE == 0
  {
  }
}
