// Cache-line rounding of byte ranges: iree_hal_strela_buffer_lines and the
// padding of allocations.
module CacheLines {
  import opened Words

  // IREE_HAL_STRELA_CACHE_LINE and sizeof(strela_word).
  const LINE: nat := 64
  const WORD: nat := 4

  // ~(iree_device_size_t)(IREE_HAL_STRELA_CACHE_LINE - 1)
  const LINE_MASK: nat := U64 - 1 - (LINE - 1)

  function AlignDown(x: nat): (r: nat)
    requires x < U64
    ensures r == x / LINE * LINE
  {
    MaskIsDivMod(x);
    And(x, LINE_MASK)
  }

  // iree_device_align(x, IREE_HAL_STRELA_CACHE_LINE)
  function AlignUp(x: nat): (r: nat)
    requires x + LINE <= U64
    ensures r == (x + 63) / LINE * LINE
  {
    MaskIsDivMod(x + (LINE - 1));
    And(Wrap64(x + (LINE - 1)), LINE_MASK)
  }

  datatype WordRange = WordRange(offset: nat, count: nat)

  // The whole cache lines around [offset, offset + length), in words.
  function BufferLines(offset: nat, length: nat): (r: WordRange)
    requires offset + length + LINE <= U64
    ensures r.offset == offset / LINE * 16
    ensures r.offset + r.count == (offset + length + 63) / LINE * 16
  {
    var start := AlignDown(offset);
    var end := AlignUp(offset + length);
    WordRange(start / WORD, (end - start) / WORD)
  }

  // The same arithmetic on the unresolved IREE_HAL_WHOLE_BUFFER, which is 2^64 - 1: the
  // end of the range wraps around, and at most the line of the offset is synced.
  function WholeLines(offset: nat): (r: WordRange)
    requires offset + LINE <= U64
    ensures r.offset == offset / LINE * 16 && r.count == if offset % LINE <= 1 then 0 else 16
  {
    var last := Wrap64(offset + (U64 - 1));
    MaskIsDivMod(Wrap64(last + (LINE - 1)));
    WholeEnd(offset);
    var start := AlignDown(offset);
    var end := And(Wrap64(last + (LINE - 1)), LINE_MASK);
    WordRange(start / WORD, (end - start) / WORD)
  }

  lemma WholeEnd(offset: nat)
    requires offset + LINE <= U64
    ensures Wrap64(Wrap64(offset + (U64 - 1)) + (LINE - 1)) == offset + (LINE - 2)
    ensures (offset + (LINE - 2)) / LINE == offset / LINE + if offset % LINE <= 1 then 0 else 1
  {
  }

  // Byte `a` of the buffer is on a line of the word range.
  predicate OnLines(r: WordRange, a: nat) {
    r.offset <= a / LINE * 16 < r.offset + r.count
  }

  // The single line synced for the unresolved length has all of [offset, offset + n).
  predicate WholeCovers(offset: nat, n: nat) {
    n == 0 || (offset % LINE > 1 && offset % LINE + n <= LINE)
  }

  // The n bytes of the buffer from the offset on are all on lines synced for the
  // unresolved length exactly when there are none, or the offset is more than one byte
  // into its line and they end in that line.
  lemma WholeCoversIff(offset: nat, n: nat)
    requires offset + LINE <= U64
    ensures (forall a: nat :: offset <= a < offset + n ==> OnLines(WholeLines(offset), a)) <==> WholeCovers(offset, n)
  {
    forall a: nat | offset <= a < offset + n
      ensures OnLines(WholeLines(offset), a) <==> offset % LINE > 1 && offset % LINE + (a - offset) < LINE
    {
      SameLine(offset, a - offset);
      LineWords(a / LINE, offset / LINE);
    }
    if n > 0 {
      assert OnLines(WholeLines(offset), offset + n - 1) <==> WholeCovers(offset, n);
    }
  }

  lemma SameLine(offset: nat, i: nat)
    ensures (offset + i) / LINE == offset / LINE <==> offset % LINE + i < LINE
    ensures (offset + i) / LINE >= offset / LINE
  {
  }

  lemma LineWords(line: nat, first: nat)
    ensures first * 16 <= line * 16 < first * 16 + 16 <==> line == first
    ensures !(first * 16 <= line * 16 < first * 16)
  {
  }

  // So a whole buffer of two lines is not synced at all.
  lemma WholeBufferIsMissed()
    ensures WholeLines(0).count == 0 && BufferLines(0, 2 * LINE) == WordRange(0, 32)
    ensures !WholeCovers(0, 2 * LINE)
  {
    assert BufferLines(0, 2 * LINE).offset == 0;
  }

  // Mask-based rounding agrees with division-based rounding.
  lemma MaskIsDivMod(x: nat)
    requires x < U64
    ensures And(x, LINE_MASK) == x / LINE * LINE == x - x % LINE
  {
    var ones: nat := 0x3FF_FFFF_FFFF_FFFF;
    SixBits(x, ones);
    SixBits(x, And(x / 64, ones));
    AndShifted(x, ones, 6);
    Pow2Is58();
    AndAllOnes(x / 64, 58);
  }

  lemma SixBits(x: nat, y: nat)
    ensures Shl(y, 6) == 64 * y && Shr(x, 6) == x / 64
  {
    assert Shl(y, 1) == 2 * y;
    assert Shl(y, 3) == 8 * y;
    assert Shl(y, 5) == 32 * y;
    var x2, x4 := x / 4, x / 16;
    assert Shr(x, 6) == Shr(x2, 4) == Shr(x4, 2) == Shr(x4 / 2, 1) == Shr(x4 / 4, 0);
  }

  predicate IsCover(start: nat, end: nat, offset: nat, length: nat) {
    && start % LINE == 0 && end % LINE == 0
    && start <= offset && offset + length <= end
  }

  // The range that is synced is the least line-aligned cover of the bytes.
  lemma LeastCover(offset: nat, length: nat)
    requires offset + length + LINE <= U64
    ensures var r := BufferLines(offset, length);
            && IsCover(WORD * r.offset, WORD * (r.offset + r.count), offset, length)
            && forall start: nat, end: nat :: IsCover(start, end, offset, length)
                 ==> start <= WORD * r.offset && WORD * (r.offset + r.count) <= end
  {
    hide BufferLines, IsCover;
    LinesInBytes(offset, length);
    forall start: nat, end: nat | IsCover(start, end, offset, length)
      ensures start <= offset / LINE * LINE && (offset + length + 63) / LINE * LINE <= end
    {
      CoverContainsLines(start, end, offset, length);
    }
  }

  lemma LinesInBytes(offset: nat, length: nat)
    requires offset + length + LINE <= U64
    ensures var r := BufferLines(offset, length);
            && WORD * r.offset == offset / LINE * LINE
            && WORD * (r.offset + r.count) == (offset + length + 63) / LINE * LINE
            && IsCover(WORD * r.offset, WORD * (r.offset + r.count), offset, length)
  {
    hide BufferLines;
  }

  lemma CoverContainsLines(start: nat, end: nat, offset: nat, length: nat)
    requires IsCover(start, end, offset, length)
    ensures start <= offset / LINE * LINE && (offset + length + 63) / LINE * LINE <= end
  {
    assert start == start / LINE * LINE && end == end / LINE * LINE;
  }

  // A live STRELA allocation: where libstrela put it, and its size before padding.
  datatype Allocation = Allocation(baseWords: nat, size: nat)

  // iree_hal_strela_allocator_allocate_buffer asks for whole cache lines.
  function PaddedSize(size: nat): (r: nat)
    requires size + LINE <= U64
    ensures r % LINE == 0 && size <= r < size + LINE
  {
    AlignUp(size)
  }

  // The cache lines of an allocation, padding included.
  ghost predicate OwnsLine(a: Allocation, line: nat)
    requires a.size + LINE <= U64
  {
    a.baseWords * WORD <= line * LINE < a.baseWords * WORD + PaddedSize(a.size)
  }

  // libstrela hands out line-aligned blocks that do not overlap.
  ghost predicate DisjointBlocks(a: Allocation, b: Allocation)
    requires a.size + LINE <= U64 && b.size + LINE <= U64
  {
    || a.baseWords * WORD + PaddedSize(a.size) <= b.baseWords * WORD
    || b.baseWords * WORD + PaddedSize(b.size) <= a.baseWords * WORD
  }

  // A line that the word range `r` of the allocation `a` touches.
  ghost predicate Synced(a: Allocation, r: WordRange, line: nat) {
    a.baseWords + r.offset <= line * 16 < a.baseWords + r.offset + r.count
  }

  // Syncing any in-range bytes stays inside the padded allocation and reaches no
  // line of another live buffer.
  lemma SyncIsIsolated(a: Allocation, b: Allocation, offset: nat, length: nat, line: nat)
    requires a.size + LINE <= U64 && b.size + LINE <= U64
    requires a.baseWords % 16 == 0 && b.baseWords % 16 == 0
    requires offset + length <= a.size
    requires Synced(a, BufferLines(offset, length), line)
    ensures OwnsLine(a, line)
    ensures DisjointBlocks(a, b) ==> !OwnsLine(b, line)
  {
    LeastCover(offset, length);
    assert IsCover(0, PaddedSize(a.size), offset, length);
  }
}
