// Buffers as ranges of memory (buffer.c): the lines a sync touches, and what writing
// and copying bytes does to flat memory.
module Buffers {
  import opened CacheLines
  import opened Columns
  import opened Jobs
  import opened Memory
  import opened Words

  // ---- Buffers and their lines ----

  // The line is one that syncing [offset, offset + length) of the buffer touches.
  predicate InSync(b: Buffer, offset: nat, length: nat, line: nat) {
    (4 * b.baseWords + offset) / 64 <= line < (4 * b.baseWords + offset + length + 63) / 64
  }

  ghost predicate OwnsBuffer(b: Buffer, owned: set<nat>) {
    forall l :: InSync(b, 0, b.allocSize, l) ==> l in owned
  }

  ghost predicate Usable(b: Buffer, owned: set<nat>) {
    ValidBuffer(b) && OwnsBuffer(b, owned)
  }

  // A buffer range with an explicit length.
  datatype Range = Range(buffer: Buffer, offset: nat, length: nat)

  ghost predicate UsableRange(r: Range, owned: set<nat>) {
    Usable(r.buffer, owned) && r.offset + r.length <= r.buffer.byteLength
  }

  function Address(r: Range): (a: nat) {
    4 * r.buffer.baseWords + r.buffer.byteOffset + r.offset
  }

  lemma RangeOwned(r: Range, owned: set<nat>)
    requires UsableRange(r, owned)
    ensures BytesOn(Address(r), r.length, owned)
  {
    forall i | 0 <= i < r.length
      ensures ByteOn(Address(r), i, owned)
    {
      assert InSync(r.buffer, 0, r.buffer.allocSize, (Address(r) + i) / 64);
    }
  }

  // The lines libstrela is asked for are those of the byte range.
  lemma SyncedLines(b: Buffer, offset: nat, length: nat, line: nat)
    requires ValidBuffer(b) && offset + length <= b.allocSize
    ensures var r := BufferLines(offset, length);
            var first := (b.baseWords + r.offset) / 16;
            && (InSync(b, offset, length, line) <==> first <= line < first + r.count / 16)
            && (InSync(b, offset, length, line) ==> InSync(b, 0, b.allocSize, line))
  {
    var r, base := BufferLines(offset, length), b.baseWords / 16;
    assert b.baseWords == 16 * base;
    BaseShifts(base, offset);
    BaseShifts(base, offset + length + 63);
    BaseShifts(base, b.allocSize + 63);
    assert (b.baseWords + r.offset) / 16 == base + offset / 64;
  }

  lemma BaseShifts(base: nat, x: nat)
    ensures (64 * base + x) / 64 == base + x / 64
  {
  }

  // The line of byte `i` of the range.
  function LineOf(r: Range, i: nat): (line: nat) {
    (Address(r) + i) / 64
  }

  // The bytes of a range are on the lines that syncing it touches.
  lemma RangeInSync(r: Range)
    ensures forall i: nat :: i < r.length ==> InSync(r.buffer, r.buffer.byteOffset + r.offset, r.length, LineOf(r, i))
  {
  }

  // libstrela syncs this line for an unresolved length.
  predicate InWholeSync(r: Range, line: nat)
    requires r.buffer.byteOffset + r.offset + LINE <= U64
  {
    var words := WholeLines(r.buffer.byteOffset + r.offset);
    var first := (r.buffer.baseWords + words.offset) / 16;
    first <= line < first + words.count / 16
  }

  // Such a line is one of the buffer's.
  lemma WholeLineOwned(r: Range, owned: set<nat>)
    requires UsableRange(r, owned)
    ensures forall l: nat :: InWholeSync(r, l) ==> l in owned
  {
    var b, offset := r.buffer, r.buffer.byteOffset + r.offset;
    var base, words := b.baseWords / 16, WholeLines(offset);
    assert b.baseWords == 16 * base;
    assert (b.baseWords + words.offset) / 16 == base + offset / 64;
    BaseShifts(base, b.allocSize + 63);
    if offset % 64 > 1 {
      assert InSync(b, 0, b.allocSize, base + offset / 64);
    }
  }

  // They hold all bytes of the range exactly when WholeCovers says so.
  lemma WholeSyncIff(r: Range, owned: set<nat>)
    requires UsableRange(r, owned)
    ensures (forall i: nat :: i < r.length ==> InWholeSync(r, LineOf(r, i)))
            <==> WholeCovers(r.buffer.byteOffset + r.offset, r.length)
  {
    hide InWholeSync, OnLines, WholeCovers, LineOf;
    var offset := r.buffer.byteOffset + r.offset;
    forall i: nat | i < r.length
      ensures InWholeSync(r, LineOf(r, i)) <==> OnLines(WholeLines(offset), offset + i)
    {
      ByteInWholeSync(r, i);
    }
    forall a: nat | offset <= a < offset + r.length
      ensures OnLines(WholeLines(offset), a) <==> InWholeSync(r, LineOf(r, a - offset))
    {
      ByteInWholeSync(r, a - offset);
    }
    WholeCoversIff(offset, r.length);
  }

  lemma ByteInWholeSync(r: Range, i: nat)
    requires ValidBuffer(r.buffer) && r.buffer.byteOffset + r.offset + LINE <= U64
    ensures InWholeSync(r, LineOf(r, i))
            <==> OnLines(WholeLines(r.buffer.byteOffset + r.offset), r.buffer.byteOffset + r.offset + i)
  {
    var base, offset := r.buffer.baseWords / 16, r.buffer.byteOffset + r.offset;
    var first := offset / 64;
    assert r.buffer.baseWords == 16 * base;
    BaseShifts(base, offset + i);
    assert LineOf(r, i) == base + (offset + i) / 64;
    ShiftedLine(base, first, (offset + i) / 64, if offset % 64 <= 1 then 0 else 16);
  }

  lemma ShiftedLine(base: nat, first: nat, line: nat, count: nat)
    requires count == 0 || count == 16
    ensures (16 * base + first * 16) / 16 == base + first
    ensures base + first <= base + line < base + first + count / 16
            <==> first * 16 <= line * 16 < first * 16 + count
  {
  }

  // The lines of BufferLines are the ones of the byte range, and are owned.
  lemma LinesToSync(b: Buffer, offset: nat, length: nat, owned: set<nat>)
    requires Usable(b, owned) && offset + length <= b.allocSize
    ensures var r := BufferLines(offset, length);
            var first := (b.baseWords + r.offset) / 16;
            && (forall l: nat :: first <= l < first + r.count / 16 ==> l in owned)
            && (forall l: nat :: InSync(b, offset, length, l) <==> first <= l < first + r.count / 16)
  {
    var r := BufferLines(offset, length);
    var first := (b.baseWords + r.offset) / 16;
    forall l: nat
      ensures InSync(b, offset, length, l) <==> first <= l < first + r.count / 16
      ensures InSync(b, offset, length, l) ==> InSync(b, 0, b.allocSize, l)
    {
      SyncedLines(b, offset, length, l);
    }
  }

  // ---- Flat effects of the transfer commands ----

  function PutBytes(v: Flat, start: nat, bytes: seq<byte>): (r: Flat)
    requires start + |bytes| <= 64 * |v|
    ensures |r| == |v|
  {
    if bytes == [] then v
    else
      var last := |bytes| - 1;
      Put(PutBytes(v, start, bytes[..last]), start + last, bytes[last])
  }

  lemma NoBytes(v: Flat, start: nat)
    ensures start <= 64 * |v| ==> PutBytes(v, start, []) == v
  {
  }

  lemma PutOneMore(v: Flat, start: nat, bytes: seq<byte>, i: nat)
    requires i < |bytes| && start + |bytes| <= 64 * |v|
    ensures PutBytes(v, start, bytes[..i + 1]) == Put(PutBytes(v, start, bytes[..i]), start + i, bytes[i])
  {
    assert bytes[..i + 1][..i] == bytes[..i];
  }

  // Byte after byte, as memcpy with ascending addresses.
  function CopyBytes(v: Flat, source: nat, target: nat, n: nat): (r: Flat)
    requires source + n <= 64 * |v| && target + n <= 64 * |v|
    ensures |r| == |v|
  {
    if n == 0 then v
    else
      var done := CopyBytes(v, source, target, n - 1);
      Put(done, target + n - 1, At(done, source + n - 1))
  }

  lemma CopyNothing(v: Flat, source: nat, target: nat)
    requires source <= 64 * |v| && target <= 64 * |v|
    ensures CopyBytes(v, source, target, 0) == v
  {
  }

  lemma CopyOneMore(v: Flat, source: nat, target: nat, n: nat)
    requires source + n + 1 <= 64 * |v| && target + n + 1 <= 64 * |v|
    ensures var done := CopyBytes(v, source, target, n);
            CopyBytes(v, source, target, n + 1) == Put(done, target + n, At(done, source + n))
  {
  }

  // One more byte, copied on memory that agrees with the copy so far.
  lemma CopyStepAgrees(now: Flat, v: Flat, source: nat, target: nat, n: nat, lines: set<nat>)
    requires source + n + 1 <= 64 * |v| && target + n + 1 <= 64 * |v|
    requires AgreeOn(now, CopyBytes(v, source, target, n), lines)
    requires (source + n) / 64 in lines
    ensures AgreeOn(Put(now, target + n, At(now, source + n)), CopyBytes(v, source, target, n + 1), lines)
  {
    hide At, Put, CopyBytes;
    var done := CopyBytes(v, source, target, n);
    CopyOneMore(v, source, target, n);
    AtAgrees(now, done, source + n, lines);
    PutAgrees(now, done, target + n, At(done, source + n), lines);
  }

  // What the bytes are afterwards.
  lemma {:induction false} PutBytesAt(v: Flat, start: nat, bytes: seq<byte>, a: nat)
    requires start + |bytes| <= 64 * |v| && a < 64 * |v|
    ensures At(PutBytes(v, start, bytes), a) == if start <= a < start + |bytes| then bytes[a - start] else At(v, a)
  {
    if bytes != [] {
      var last := |bytes| - 1;
      PutBytesAt(v, start, bytes[..last], a);
      PutAt(PutBytes(v, start, bytes[..last]), start + last, bytes[last], a);
    }
  }

  lemma PutAt(v: Flat, a: nat, b: byte, other: nat)
    requires a / 64 < |v| && other / 64 < |v|
    ensures At(Put(v, a, b), other) == if other == a then b else At(v, other)
  {
  }

  lemma {:induction false} CopyLeavesRest(v: Flat, source: nat, target: nat, n: nat, a: nat)
    requires source + n <= 64 * |v| && target + n <= 64 * |v| && a < 64 * |v|
    requires a < target || target + n <= a
    ensures At(CopyBytes(v, source, target, n), a) == At(v, a)
  {
    hide At, Put;
    if n != 0 {
      CopyLeavesRest(v, source, target, n - 1, a);
      var done := CopyBytes(v, source, target, n - 1);
      PutAt(done, target + n - 1, At(done, source + n - 1), a);
    }
  }

  // A copy between ranges that do not overlap moves the source bytes.
  lemma {:induction false} CopyMovesBytes(v: Flat, source: nat, target: nat, n: nat, i: nat)
    requires source + n <= 64 * |v| && target + n <= 64 * |v| && i < n
    requires source + n <= target || target + n <= source
    ensures At(CopyBytes(v, source, target, n), target + i) == At(v, source + i)
  {
    hide At, Put;
    var done := CopyBytes(v, source, target, n - 1);
    var from, to := source + n - 1, target + n - 1;
    assert from / 64 < |v| && to / 64 < |v| && (target + i) / 64 < |v|;
    assert CopyBytes(v, source, target, n) == Put(done, to, At(done, from));
    PutAt(done, to, At(done, from), target + i);
    if i == n - 1 {
      CopyLeavesRest(v, source, target, n - 1, source + i);
    } else {
      CopyMovesBytes(v, source, target, n - 1, i);
    }
  }

  predicate ByteOn(start: nat, i: nat, lines: set<nat>) {
    (start + i) / 64 in lines
  }

  predicate BytesOn(start: nat, n: nat, lines: set<nat>) {
    forall i :: 0 <= i < n ==> ByteOn(start, i, lines)
  }

  lemma BytesExist(start: nat, n: nat, lines: set<nat>, count: nat)
    requires BytesOn(start, n, lines) && LinesExist(lines, count) && n > 0
    ensures start + n <= 64 * count
  {
    assert ByteOn(start, n - 1, lines);
  }

  lemma AtAgrees(v: Flat, w: Flat, a: nat, lines: set<nat>)
    requires AgreeOn(v, w, lines) && a / 64 < |v| && a / 64 in lines
    ensures At(v, a) == At(w, a)
  {
  }

  lemma PutAgrees(v: Flat, w: Flat, a: nat, b: byte, lines: set<nat>)
    requires AgreeOn(v, w, lines) && a / 64 < |v|
    ensures AgreeOn(Put(v, a, b), Put(w, a, b), lines)
  {
  }

  lemma {:induction false} PutBytesAgree(v: Flat, w: Flat, start: nat, bytes: seq<byte>, lines: set<nat>)
    requires AgreeOn(v, w, lines) && start + |bytes| <= 64 * |v| && BytesOn(start, |bytes|, lines)
    ensures AgreeOn(PutBytes(v, start, bytes), PutBytes(w, start, bytes), lines)
  {
    if bytes != [] {
      var last := |bytes| - 1;
      PutBytesAgree(v, w, start, bytes[..last], lines);
      assert ByteOn(start, last, lines);
    }
  }

  lemma {:induction false} CopyBytesAgree(v: Flat, w: Flat, source: nat, target: nat, n: nat, lines: set<nat>)
    requires AgreeOn(v, w, lines) && source + n <= 64 * |v| && target + n <= 64 * |v|
    requires BytesOn(source, n, lines) && BytesOn(target, n, lines)
    ensures AgreeOn(CopyBytes(v, source, target, n), CopyBytes(w, source, target, n), lines)
  {
    if n != 0 {
      CopyBytesAgree(v, w, source, target, n - 1, lines);
      assert ByteOn(source, n - 1, lines) && ByteOn(target, n - 1, lines);
    }
  }

  function Repeated(pattern: seq<byte>, n: nat): (r: seq<byte>)
    requires |pattern| > 0
    ensures |r| == n
  {
    seq(n, i requires 0 <= i < n => pattern[i % |pattern|])
  }
}
