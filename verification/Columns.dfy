// The words one DMA column moves: the serialized ColumnDef and its
// resolution against push constants and bindings at dispatch time.
module Columns {
  import opened Status
  import opened Words

  // A column of the executable format.
  datatype ColumnDef = ColumnDef(
    binding: u32, byteOffset: u64, offsetConstants: seq<u32>, wordCount: u32, stride: u32)

  // A HAL buffer: a byte range of an allocation. `strela` tells whether the
  // allocation came from the STRELA allocator; `baseWords` is its place in memory.
  datatype Buffer = Buffer(strela: bool, baseWords: nat, allocSize: nat, byteOffset: nat, byteLength: nat)

  // A binding; a length of None is IREE_HAL_WHOLE_BUFFER.
  datatype BufferRef = BufferRef(buffer: Option<Buffer>, offset: u64, length: Option<u64>)

  // What dispatch hands to libstrela.
  datatype Column = Column(
    buffer: Option<Buffer>, offset: nat, length: nat, wordsFromBase: nat, wordCount: u32, stride: u32)

  // A buffer inside its allocation, in the 32-bit address space of the target.
  predicate ValidBuffer(b: Buffer) {
    && b.byteOffset + b.byteLength <= b.allocSize
    && b.baseWords % 16 == 0
    && 4 * b.baseWords + b.allocSize + 64 <= U32
  }

  // The bytes of the buffer that the binding covers.
  function BoundLength(ref: BufferRef): (r: u64)
    requires ref.buffer.Some?
  {
    if ref.length.None? then Wrap64(ref.buffer.value.byteLength - ref.offset) else ref.length.value
  }

  predicate ValidRef(ref: BufferRef) {
    ref.buffer.Some? ==>
      && ValidBuffer(ref.buffer.value)
      && ref.offset <= ref.buffer.value.byteLength
      && ref.offset + BoundLength(ref) <= ref.buffer.value.byteLength
  }

  // The driver's check that a constant was not pushed, in 32-bit size_t arithmetic.
  predicate Missing(ordinal: u32, constants: seq<u32>) {
    Wrap32(4 * Wrap32(ordinal + 1)) > 4 * |constants|
  }

  predicate AnyMissing(ordinals: seq<u32>, constants: seq<u32>) {
    exists o :: o in ordinals && Missing(o, constants)
  }

  predicate Present(ordinals: seq<u32>, constants: seq<u32>) {
    forall o :: o in ordinals ==> o < |constants|
  }

  // The driver finds none of the first n constants missing.
  predicate FoundTo(ordinals: seq<u32>, constants: seq<u32>, n: nat)
    requires n <= |ordinals|
  {
    forall k :: 0 <= k < n ==> !Missing(ordinals[k], constants)
  }

  // Among the first n constants, before it finds one missing, the driver takes one that
  // is not there.
  predicate OutsideTo(ordinals: seq<u32>, constants: seq<u32>, n: nat)
    requires n <= |ordinals|
  {
    exists i :: 0 <= i < n && ordinals[i] >= |constants| && FoundTo(ordinals, constants, i + 1)
  }

  predicate ReadsOutside(ordinals: seq<u32>, constants: seq<u32>) {
    OutsideTo(ordinals, constants, |ordinals|)
  }

  lemma MissingIsOutOfRange(ordinal: u32, constants: seq<u32>)
    requires ordinal < 0x3FFF_FFFF
    ensures Missing(ordinal, constants) <==> ordinal >= |constants|
  {
  }

  // A block of constants in the 32-bit address space.
  predicate FitsMemory(constants: seq<u32>) {
    |constants| < 0x4000_0000
  }

  // How many constants the check takes for enough.
  function Demanded(ordinal: u32): (n: nat)
    ensures n < 0x4000_0000
    ensures ordinal < 0x3FFF_FFFF ==> n == ordinal + 1
    ensures ordinal >= 0x3FFF_FFFF ==> n <= ordinal
    ensures Wrap32(4 * Wrap32(ordinal + 1)) == 4 * n
  {
    var next := Wrap32(ordinal + 1);
    DivUnique(4 * next, U32, next / 0x4000_0000, 4 * (next % 0x4000_0000));
    next % 0x4000_0000
  }

  // The check tells which constants are there, for every block of them, exactly when
  // the ordinal is below 2^30 - 1; from there on it wraps.
  lemma CheckIsExactIff(ordinal: u32)
    ensures (forall constants: seq<u32> :: FitsMemory(constants) ==> (Missing(ordinal, constants) <==> ordinal >= |constants|))
            <==> ordinal < 0x3FFF_FFFF
  {
    var n := Demanded(ordinal);
    if ordinal >= 0x3FFF_FFFF {
      var few: seq<u32> := seq(n, _ => 0);
      assert FitsMemory(few) && !Missing(ordinal, few) && ordinal >= |few|;
    }
  }

  lemma PresentIsInside(ordinals: seq<u32>, constants: seq<u32>)
    requires Present(ordinals, constants)
    ensures !ReadsOutside(ordinals, constants)
  {
    assert forall i :: 0 <= i < |ordinals| ==> ordinals[i] in ordinals;
  }

  lemma FoundIsPresent(ordinals: seq<u32>, constants: seq<u32>)
    requires !AnyMissing(ordinals, constants) && !ReadsOutside(ordinals, constants)
    ensures Present(ordinals, constants)
  {
    forall o | o in ordinals
      ensures o < |constants|
    {
      var i :| 0 <= i < |ordinals| && ordinals[i] == o;
      assert FoundTo(ordinals, constants, i + 1) by {
        assert forall k :: 0 <= k < |ordinals| ==> ordinals[k] in ordinals;
      }
    }
  }

  // No block of constants makes the driver read outside of it exactly when all the
  // ordinals are below 2^30 - 1: with 2^30 - 1 constants none is found missing.
  lemma NeverOutsideIff(ordinals: seq<u32>)
    ensures (forall constants: seq<u32> :: FitsMemory(constants) ==> !ReadsOutside(ordinals, constants))
            <==> forall o :: o in ordinals ==> o < 0x3FFF_FFFF
  {
    forall constants: seq<u32>, o | o in ordinals && o < 0x3FFF_FFFF
      ensures Missing(o, constants) <==> o >= |constants|
    {
      MissingIsOutOfRange(o, constants);
    }
    if forall o :: o in ordinals ==> o < 0x3FFF_FFFF {
      forall constants: seq<u32> | FitsMemory(constants)
        ensures !ReadsOutside(ordinals, constants)
      {
        NothingOutside(ordinals, constants);
      }
    } else {
      var i :| 0 <= i < |ordinals| && ordinals[i] >= 0x3FFF_FFFF;
      var most: seq<u32> := seq(0x3FFF_FFFF, _ => 0);
      forall o | o in ordinals
        ensures !Missing(o, most)
      {
        var n := Demanded(o);
      }
      assert FitsMemory(most) && ReadsOutside(ordinals, most);
    }
  }

  lemma NothingOutside(ordinals: seq<u32>, constants: seq<u32>)
    requires forall o :: o in ordinals ==> o < 0x3FFF_FFFF
    ensures !ReadsOutside(ordinals, constants)
  {
    forall i | 0 <= i < |ordinals| && ordinals[i] >= |constants|
      ensures !FoundTo(ordinals, constants, i + 1)
    {
      assert ordinals[i] in ordinals;
      MissingIsOutOfRange(ordinals[i], constants);
    }
  }

  // The runtime part of the offset, as an unbounded number: constant i holds its
  // i-th 32-bit digit.
  function ConstantSum(ordinals: seq<u32>, constants: seq<u32>): (r: nat)
    requires Present(ordinals, constants)
  {
    if ordinals == [] then 0
    else
      var last := |ordinals| - 1;
      assert ordinals[last] in ordinals;
      assert forall o :: o in ordinals[..last] ==> o in ordinals;
      ConstantSum(ordinals[..last], constants) + Digit(constants[ordinals[last]], last)
  }

  // The value of 32-bit digit `i` of an offset.
  function Digit(value: u32, i: nat): (r: nat) {
    value * Pow2(32 * i)
  }

  // The byte offset of the column in its bound range, before any wrap-around.
  function ExactOffset(def: ColumnDef, constants: seq<u32>): (r: nat)
    requires Present(def.offsetConstants, constants)
  {
    def.byteOffset + ConstantSum(def.offsetConstants, constants)
  }

  // Words between two consecutive words of the column.
  function Step(def: ColumnDef, isInput: bool): (r: nat) {
    if isInput then def.stride else 1
  }

  // Extent of the column, in words.
  function ExactSpan(def: ColumnDef, isInput: bool): (r: nat)
    requires def.wordCount > 0
  {
    (def.wordCount - 1) * Step(def, isInput) + 1
  }

  // The span in bytes as 32-bit size_t arithmetic computes it.
  function SpanBytes(def: ColumnDef, isInput: bool): (r: u32)
    requires def.wordCount > 0
  {
    var words := if isInput && def.stride != 1 then Wrap32(Wrap32((def.wordCount - 1) * def.stride) + 1)
                 else def.wordCount;
    Wrap32(words * 4)
  }

  lemma SpanBytesIsWrappedSpan(def: ColumnDef, isInput: bool)
    requires def.wordCount > 0
    ensures SpanBytes(def, isInput) == Wrap32(4 * ExactSpan(def, isInput))
  {
    if isInput && def.stride != 1 {
      WrapOfWrap((def.wordCount - 1) * def.stride);
    }
  }

  lemma WrapPeriod(x: int, k: int)
    ensures Wrap32(x + U32 * k) == Wrap32(x)
  {
  }

  lemma WrapOfWrap(x: int)
    ensures Wrap32(4 * Wrap32(Wrap32(x) + 1)) == Wrap32(4 * (x + 1))
  {
    var q, r := x / U32, x % U32;
    assert 4 * (x + 1) == 4 * (r + 1) + U32 * (4 * q);
    WrapPeriod(4 * (r + 1), 4 * q);
    if r + 1 < U32 {
      NoWrap32(r + 1);
    }
  }

  // The driver resolves the column from these constants and reads none that is not there.
  predicate Readable(def: ColumnDef, constants: seq<u32>) {
    def.wordCount > 0 ==> |def.offsetConstants| <= 2 && !ReadsOutside(def.offsetConstants, constants)
  }

  // Readable whatever constants are pushed.
  ghost predicate AlwaysReadable(def: ColumnDef) {
    forall constants: seq<u32> :: FitsMemory(constants) ==> Readable(def, constants)
  }

  lemma AlwaysReadableIff(def: ColumnDef)
    ensures AlwaysReadable(def)
            <==> (def.wordCount > 0 ==> |def.offsetConstants| <= 2 && forall o :: o in def.offsetConstants ==> o < 0x3FFF_FFFF)
  {
    hide ReadsOutside;
    NeverOutsideIff(def.offsetConstants);
    assert FitsMemory([]);
  }

  function Resolve(def: ColumnDef, isInput: bool, constants: seq<u32>, bindings: seq<BufferRef>): (r: Result<Column>)
    requires Readable(def, constants)
  {
    var stride := if isInput then def.stride else 0;
    if def.wordCount == 0 then Success(Column(None, 0, 0, 0, 0, stride))
    else if def.binding >= |bindings| || bindings[def.binding].buffer.None? then Failure(InvalidArgument)
    else if AnyMissing(def.offsetConstants, constants) then Failure(InvalidArgument)
    else
      FoundIsPresent(def.offsetConstants, constants);
      var ref := bindings[def.binding];
      var buffer := ref.buffer.value;
      var length := SpanBytes(def, isInput);
      var byteOffset := RuntimeOffset(def, constants);
      if Wrap64(byteOffset + length) > BoundLength(ref) then Failure(OutOfRange)
      else if !buffer.strela then Failure(InvalidArgument)
      else
        var offset := Wrap64(buffer.byteOffset + Wrap64(ref.offset + byteOffset));
        if offset % 4 != 0 then Failure(InvalidArgument)
        else Success(Column(ref.buffer, offset, length, Wrap32(buffer.baseWords + offset / 4), def.wordCount, stride))
  }

  function RuntimeOffset(def: ColumnDef, constants: seq<u32>): (r: u64)
    requires Present(def.offsetConstants, constants)
  {
    Wrap64(ExactOffset(def, constants))
  }

  lemma NextDigit(def: ColumnDef, constants: seq<u32>, i: nat)
    requires i < |def.offsetConstants| && Present(def.offsetConstants[..i], constants)
    requires def.offsetConstants[i] < |constants|
    ensures Present(def.offsetConstants[..i + 1], constants)
    ensures Wrap64(Wrap64(def.byteOffset + ConstantSum(def.offsetConstants[..i], constants))
                   + Wrap64(Digit(constants[def.offsetConstants[i]], i)))
            == Wrap64(def.byteOffset + ConstantSum(def.offsetConstants[..i + 1], constants))
  {
    hide Wrap64, Digit;
    var taken := def.offsetConstants[..i + 1];
    assert taken == def.offsetConstants[..i] + [def.offsetConstants[i]];
    assert taken[..i] == def.offsetConstants[..i];
    Wrap64Adds(def.byteOffset + ConstantSum(def.offsetConstants[..i], constants),
               Digit(constants[def.offsetConstants[i]], i));
  }

  // The loop of iree_hal_strela_column_resolve that adds the push constants to the
  // static offset. `outside` tells whether it reads a constant that was not pushed;
  // what it finds there can be anything.
  method AddConstants(def: ColumnDef, constants: seq<u32>) returns (status: Status, byteOffset: u64, ghost outside: bool)
    requires |def.offsetConstants| <= 2
    ensures status == if AnyMissing(def.offsetConstants, constants) then Error(InvalidArgument) else Ok
    ensures outside <==> ReadsOutside(def.offsetConstants, constants)
    ensures status.Ok? && !outside ==>
              Present(def.offsetConstants, constants) && byteOffset == RuntimeOffset(def, constants)
  {
    hide Wrap32, Digit;
    var ordinals := def.offsetConstants;
    byteOffset := def.byteOffset;
    status, outside := Ok, false;
    NothingRead(def, constants);
    for i := 0 to |ordinals|
      invariant FoundTo(ordinals, constants, i)
      invariant outside <==> OutsideTo(ordinals, constants, i)
      invariant !outside ==>
                  && Present(ordinals[..i], constants)
                  && byteOffset == Wrap64(def.byteOffset + ConstantSum(ordinals[..i], constants))
    {
      var ordinal := ordinals[i];
      assert ordinal in ordinals;
      if Wrap32(4 * Wrap32(ordinal + 1)) > 4 * |constants| {
        status := Error(InvalidArgument);
        return;
      }
      if ordinal < |constants| {
        if !outside {
          NextDigit(def, constants, i);
        }
        byteOffset := Wrap64(byteOffset + Wrap64(Digit(constants[ordinal], i)));
      } else {
        outside := true;
        byteOffset := *;
      }
    }
    assert ordinals[..|ordinals|] == ordinals;
  }

  lemma NothingRead(def: ColumnDef, constants: seq<u32>)
    ensures Wrap64(def.byteOffset + ConstantSum([], constants)) == def.byteOffset
  {
    NoWrap64(def.byteOffset);
  }

  // iree_hal_strela_column_resolve: the checks in the order the driver makes them,
  // writing the fields of `column` as it goes.
  method ColumnResolve(def: ColumnDef, isInput: bool, constants: seq<u32>, bindings: seq<BufferRef>)
    returns (status: Status, column: Column, ghost outside: bool)
    requires def.wordCount > 0 ==> |def.offsetConstants| <= 2
    ensures outside <==>
            && def.wordCount > 0 && def.binding < |bindings| && bindings[def.binding].buffer.Some?
            && ReadsOutside(def.offsetConstants, constants)
    ensures Readable(def, constants) ==>
              status == match Resolve(def, isInput, constants, bindings)
                        case Success(_) => Ok
                        case Failure(code) => Error(code)
    ensures Readable(def, constants) && status.Ok? ==> Resolve(def, isInput, constants, bindings) == Success(column)
  {
    hide Wrap32, Wrap64, ConstantSum, ReadsOutside, AnyMissing;
    column := Column(None, 0, 0, 0, def.wordCount, if isInput then def.stride else 0);
    status, outside := Ok, false;
    if def.wordCount == 0 {
      return;
    }
    if def.binding >= |bindings| || bindings[def.binding].buffer.None? {
      status := Error(InvalidArgument);
      return;
    }
    var ref := bindings[def.binding];
    var byteOffset: u64;
    status, byteOffset, outside := AddConstants(def, constants);
    if status != Ok {
      return;
    }
    var spanWords: u32 := if isInput && column.stride != 1
      then Wrap32(Wrap32((column.wordCount - 1) * column.stride) + 1) else column.wordCount;
    column := column.(length := Wrap32(spanWords * 4));
    if Wrap64(byteOffset + column.length) > BoundLength(ref) {
      status := Error(OutOfRange);
      return;
    }
    var buffer := ref.buffer.value;
    if !buffer.strela {
      status := Error(InvalidArgument);
      return;
    }
    column := column.(offset := Wrap64(buffer.byteOffset + Wrap64(ref.offset + byteOffset)));
    if column.offset % 4 != 0 {
      status := Error(InvalidArgument);
      return;
    }
    column := column.(buffer := ref.buffer, wordsFromBase := Wrap32(buffer.baseWords + column.offset / 4));
  }

  // ---- The footprint of a resolved column ----

  // No 64-bit sum and no 32-bit size_t product of the resolution wraps.
  predicate FitsMachine(def: ColumnDef, isInput: bool, constants: seq<u32>)
    requires def.wordCount > 0
    requires Present(def.offsetConstants, constants)
  {
    && 4 * ExactSpan(def, isInput) < U32
    && ExactOffset(def, constants) + 4 * ExactSpan(def, isInput) < U64
  }

  // The byte of the bound range where word `i` of the column starts.
  function WordStart(def: ColumnDef, isInput: bool, constants: seq<u32>, i: nat): (r: nat)
    requires Present(def.offsetConstants, constants)
  {
    ExactOffset(def, constants) + 4 * (i * Step(def, isInput))
  }

  ghost predicate StaysInBoundRange(def: ColumnDef, isInput: bool, constants: seq<u32>, bound: nat)
    requires Present(def.offsetConstants, constants)
  {
    forall i: nat :: i < def.wordCount ==> WordStart(def, isInput, constants, i) + 4 <= bound
  }

  lemma Wrap64Adds(x: int, y: int)
    ensures Wrap64(Wrap64(x) + Wrap64(y)) == Wrap64(x + y)
  {
  }

  ghost predicate Placed(def: ColumnDef, isInput: bool, constants: seq<u32>, ref: BufferRef, column: Column)
    requires def.wordCount > 0 && ref.buffer.Some? && Present(def.offsetConstants, constants)
  {
    var buffer := ref.buffer.value;
    && buffer.strela && column.buffer == ref.buffer && column.offset % 4 == 0
    && column.length == Wrap32(4 * ExactSpan(def, isInput))
    && Wrap64(Wrap64(ExactOffset(def, constants)) + column.length) <= BoundLength(ref)
    && column.offset == Wrap64(buffer.byteOffset + Wrap64(ref.offset + Wrap64(ExactOffset(def, constants))))
    && column.wordsFromBase == Wrap32(buffer.baseWords + column.offset / 4)
    && column.wordCount == def.wordCount && column.stride == (if isInput then def.stride else 0)
  }

  // What a success tells, without the branches.
  lemma Resolved(def: ColumnDef, isInput: bool, constants: seq<u32>, bindings: seq<BufferRef>)
    requires Readable(def, constants) && def.wordCount > 0
    requires Resolve(def, isInput, constants, bindings).Success?
    ensures def.binding < |bindings| && bindings[def.binding].buffer.Some?
    ensures Present(def.offsetConstants, constants)
    ensures Placed(def, isInput, constants, bindings[def.binding], Resolve(def, isInput, constants, bindings).value)
  {
    SpanBytesIsWrappedSpan(def, isInput);
    FoundIsPresent(def.offsetConstants, constants);
  }

  lemma BoundCheckArithmetic(exact: nat, bytes: nat, bound: nat)
    requires bound < U32 && Wrap64(Wrap64(exact) + Wrap32(bytes)) <= bound
    ensures bytes < U32 && exact + bytes < U64 <==> exact + bytes <= bound
  {
  }

  lemma StaysIffLastWordStays(def: ColumnDef, isInput: bool, constants: seq<u32>, bound: nat)
    requires def.wordCount > 0 && Present(def.offsetConstants, constants)
    ensures StaysInBoundRange(def, isInput, constants, bound)
            <==> ExactOffset(def, constants) + 4 * ExactSpan(def, isInput) <= bound
  {
    assert WordStart(def, isInput, constants, def.wordCount - 1) + 4
        == ExactOffset(def, constants) + 4 * ExactSpan(def, isInput);
    forall i: nat | i < def.wordCount
      ensures WordStart(def, isInput, constants, i) <= WordStart(def, isInput, constants, def.wordCount - 1)
    {
      TimesMonotone(i, def.wordCount - 1, Step(def, isInput));
    }
  }

  // A column that resolves stays in the range it is bound to exactly when none of
  // the driver's sums and products wrapped.
  lemma FootprintIff(def: ColumnDef, isInput: bool, constants: seq<u32>, bindings: seq<BufferRef>)
    requires Readable(def, constants) && def.wordCount > 0
    requires Resolve(def, isInput, constants, bindings).Success?
    requires ValidRef(bindings[def.binding])
    ensures Present(def.offsetConstants, constants)
    ensures FitsMachine(def, isInput, constants)
            <==> StaysInBoundRange(def, isInput, constants, BoundLength(bindings[def.binding]))
  {
    Resolved(def, isInput, constants, bindings);
    var bound := BoundLength(bindings[def.binding]);
    BoundCheckArithmetic(ExactOffset(def, constants), 4 * ExactSpan(def, isInput), bound);
    StaysIffLastWordStays(def, isInput, constants, bound);
  }

  // A 32-bit span product that wraps: 2^30 + 1 words of stride 1 would need
  // 2^32 + 4 bytes, and a 4 byte binding is accepted.
  lemma WrappedSpanIsAccepted()
    ensures var def := ColumnDef(0, 0, [], 0x4000_0001, 1);
            var ref := BufferRef(Some(Buffer(true, 0, 4, 0, 4)), 0, None);
            && ValidRef(ref) && Resolve(def, true, [], [ref]).Success?
            && !StaysInBoundRange(def, true, [], BoundLength(ref))
  {
    var def := ColumnDef(0, 0, [], 0x4000_0001, 1);
    assert WordStart(def, true, [], 1) == 4;
  }

  lemma NoWrap32(x: nat)
    requires x < U32
    ensures Wrap32(x) == x
  {
  }

  lemma NoWrap64(x: nat)
    requires x < U64
    ensures Wrap64(x) == x
  {
  }

  lemma WordsFromBase(baseWords: nat, offset: nat)
    requires offset % 4 == 0 && 4 * baseWords + offset < U32
    ensures 4 * Wrap32(baseWords + offset / 4) == 4 * baseWords + offset
  {
    NoWrap32(baseWords + offset / 4);
  }

  // Word `i` of the column is at the address the executable format gives it, in
  // the bound range, in the span that is synced and in the allocation; and the span
  // starts at the first word and ends at the last.
  ghost predicate IsFootprint(def: ColumnDef, isInput: bool, constants: seq<u32>, ref: BufferRef, column: Column, i: nat)
    requires ref.buffer.Some? && Present(def.offsetConstants, constants)
  {
    var buffer := ref.buffer.value;
    var start := 4 * (column.wordsFromBase + i * Step(def, isInput));
    && column.buffer == Some(buffer) && buffer.strela
    && column.wordCount == def.wordCount && column.stride == (if isInput then def.stride else 0)
    && start == 4 * buffer.baseWords + buffer.byteOffset + ref.offset + WordStart(def, isInput, constants, i)
    && WordStart(def, isInput, constants, i) + 4 <= BoundLength(ref)
    && column.offset <= start - 4 * buffer.baseWords
    && start + 4 - 4 * buffer.baseWords <= column.offset + column.length <= buffer.allocSize
    && (i == 0 ==> start - 4 * buffer.baseWords == column.offset)
    && (i == def.wordCount - 1 ==> start + 4 - 4 * buffer.baseWords == column.offset + column.length)
  }

  lemma PlacedExactly(def: ColumnDef, isInput: bool, constants: seq<u32>, ref: BufferRef, column: Column)
    requires def.wordCount > 0 && ref.buffer.Some? && Present(def.offsetConstants, constants)
    requires ValidRef(ref) && Placed(def, isInput, constants, ref, column)
    requires FitsMachine(def, isInput, constants)
    ensures column.length == 4 * ExactSpan(def, isInput)
    ensures ExactOffset(def, constants) + 4 * ExactSpan(def, isInput) <= BoundLength(ref)
    ensures column.offset == ref.buffer.value.byteOffset + ref.offset + ExactOffset(def, constants)
    ensures 4 * column.wordsFromBase == 4 * ref.buffer.value.baseWords + column.offset
  {
    var buffer, exact := ref.buffer.value, ExactOffset(def, constants);
    NoWrap32(4 * ExactSpan(def, isInput));
    NoWrap64(exact);
    NoWrap64(exact + column.length);
    NoWrap64(ref.offset + exact);
    NoWrap64(buffer.byteOffset + (ref.offset + exact));
    WordsFromBase(buffer.baseWords, column.offset);
  }

  lemma PlacedFootprint(def: ColumnDef, isInput: bool, constants: seq<u32>, ref: BufferRef, column: Column, i: nat)
    requires i < def.wordCount && ref.buffer.Some? && Present(def.offsetConstants, constants)
    requires ValidRef(ref) && Placed(def, isInput, constants, ref, column)
    requires FitsMachine(def, isInput, constants)
    ensures IsFootprint(def, isInput, constants, ref, column, i)
  {
    PlacedExactly(def, isInput, constants, ref, column);
    ExactFootprint(def, isInput, constants, ref, column, i);
  }

  lemma ExactFootprint(def: ColumnDef, isInput: bool, constants: seq<u32>, ref: BufferRef, column: Column, i: nat)
    requires i < def.wordCount && ref.buffer.Some? && Present(def.offsetConstants, constants)
    requires ValidBuffer(ref.buffer.value) && ref.offset + BoundLength(ref) <= ref.buffer.value.byteLength
    requires column.buffer == ref.buffer && ref.buffer.value.strela
    requires column.wordCount == def.wordCount && column.stride == (if isInput then def.stride else 0)
    requires column.length == 4 * ExactSpan(def, isInput)
    requires ExactOffset(def, constants) + 4 * ExactSpan(def, isInput) <= BoundLength(ref)
    requires column.offset == ref.buffer.value.byteOffset + ref.offset + ExactOffset(def, constants)
    requires 4 * column.wordsFromBase == 4 * ref.buffer.value.baseWords + column.offset
    ensures IsFootprint(def, isInput, constants, ref, column, i)
  {
    hide BoundLength, ExactOffset, Wrap32, Wrap64, Step, ValidBuffer, Present;
    var k, last := i * Step(def, isInput), (def.wordCount - 1) * Step(def, isInput);
    assert k <= last by {
      TimesMonotone(i, def.wordCount - 1, Step(def, isInput));
    }
    assert i == 0 ==> k == 0 by {
      SameWord(i, def.wordCount - 1, Step(def, isInput));
    }
    FootprintArithmetic(k, last, ExactOffset(def, constants), BoundLength(ref), ref.offset, ref.buffer.value, column);
  }

  lemma SameWord(i: nat, n: nat, s: nat)
    ensures i == 0 ==> i * s == 0
    ensures i == n ==> i * s == n * s
  {
  }

  // `k` and `last` are the positions of word i and of the last word.
  lemma FootprintArithmetic(k: nat, last: nat, exact: nat, bound: nat, refOffset: nat, buffer: Buffer, column: Column)
    requires k <= last && ValidBuffer(buffer) && refOffset + bound <= buffer.byteLength
    requires column.length == 4 * (last + 1) && exact + 4 * (last + 1) <= bound
    requires column.offset == buffer.byteOffset + refOffset + exact
    requires 4 * column.wordsFromBase == 4 * buffer.baseWords + column.offset
    ensures var start := 4 * (column.wordsFromBase + k);
            && start == 4 * buffer.baseWords + buffer.byteOffset + refOffset + exact + 4 * k
            && exact + 4 * k + 4 <= bound
            && column.offset <= start - 4 * buffer.baseWords
            && start + 4 - 4 * buffer.baseWords <= column.offset + column.length <= buffer.allocSize
            && (k == 0 ==> start - 4 * buffer.baseWords == column.offset)
            && (k == last ==> start + 4 - 4 * buffer.baseWords == column.offset + column.length)
  {
  }

  lemma Footprint(def: ColumnDef, isInput: bool, constants: seq<u32>, bindings: seq<BufferRef>, i: nat)
    requires Readable(def, constants) && i < def.wordCount
    requires Resolve(def, isInput, constants, bindings).Success?
    requires ValidRef(bindings[def.binding])
    requires Present(def.offsetConstants, constants) && FitsMachine(def, isInput, constants)
    ensures IsFootprint(def, isInput, constants, bindings[def.binding],
                        Resolve(def, isInput, constants, bindings).value, i)
  {
    Resolved(def, isInput, constants, bindings);
    PlacedFootprint(def, isInput, constants, bindings[def.binding],
                    Resolve(def, isInput, constants, bindings).value, i);
  }

  // The 0xFFFF / sizeof(uint32_t) words that the compiler lets a column move.
  const MAX_COLUMN_WORDS: nat := 0xFFFF / 4

  // No step of the size_t span computation wraps for columns the compiler emits.
  lemma CompilerColumnsDoNotWrap(def: ColumnDef, isInput: bool)
    requires 0 < def.wordCount <= MAX_COLUMN_WORDS && def.stride <= 1
    ensures (def.wordCount - 1) * def.stride + 1 < U32
    ensures SpanBytes(def, isInput) == 4 * ExactSpan(def, isInput) <= 0xFFFF
  {
    assert def.stride == 0 || def.stride == 1;
    SpanBytesIsWrappedSpan(def, isInput);
  }
}
