// Byte offsets of dispatch bindings: the IR that computes them, the matcher that
// reads them back (MaterializeBindingsPass.cpp), and the value the runtime
// reassembles from push constants.
module Offsets {
  import opened Columns
  import opened Status
  import opened Words

  // SSA values of integer or index type, as the tree of operations that define them.
  // `index` is 64 bits wide and push constants are 32.
  datatype Expr =
    | IntConstant(value: int, width: nat)
    | ConstantLoad(ordinal: nat)
    | ExtUI(operand: Expr, width: nat)
    | ShlI(lhs: Expr, rhs: Expr)
    | OrI(lhs: Expr, rhs: Expr)
    | IndexCastUI(operand: Expr)
    | Assume(operands: seq<Expr>, result: nat)
    | Unknown(id: nat, width: nat)

  function Width(e: Expr): (w: nat) {
    match e
    case IntConstant(_, width) => width
    case ConstantLoad(_) => 32
    case ExtUI(_, width) => width
    case ShlI(lhs, _) => Width(lhs)
    case OrI(lhs, _) => Width(lhs)
    case IndexCastUI(_) => 64
    case Assume(operands, result) => if result < |operands| then Width(operands[result]) else 0
    case Unknown(_, width) => width
  }

  // What the MLIR verifiers guarantee.
  predicate WellTyped(e: Expr) {
    match e
    case IntConstant(value, width) => width > 0 && 0 <= value + Pow2(width - 1) < Pow2(width)
    case ConstantLoad(_) => true
    case ExtUI(operand, width) => Width(operand) < width && WellTyped(operand)
    case ShlI(lhs, rhs) => Width(lhs) == Width(rhs) && WellTyped(lhs) && WellTyped(rhs)
    case OrI(lhs, rhs) => Width(lhs) == Width(rhs) && WellTyped(lhs) && WellTyped(rhs)
    case IndexCastUI(operand) => WellTyped(operand)
    case Assume(operands, result) => result < |operands| && forall o :: o in operands ==> WellTyped(o)
    case Unknown(_, width) => width > 0
  }

  // The unsigned value of an expression; None when a push constant is missing or the
  // value is poison.
  function Eval(e: Expr, constants: seq<u32>, unknown: nat -> nat): (v: Option<nat>) {
    match e
    case IntConstant(value, width) => Some(value % Pow2(width))
    case ConstantLoad(ordinal) => if ordinal < |constants| then Some(constants[ordinal]) else None
    case ExtUI(operand, _) => Eval(operand, constants, unknown)
    case ShlI(lhs, rhs) =>
      var x, k := Eval(lhs, constants, unknown), Eval(rhs, constants, unknown);
      if x.None? || k.None? || k.value >= Width(lhs) then None
      else Some(Shl(x.value, k.value) % Pow2(Width(lhs)))
    case OrI(lhs, rhs) =>
      var x, y := Eval(lhs, constants, unknown), Eval(rhs, constants, unknown);
      if x.None? || y.None? then None else Some(Or(x.value, y.value))
    case IndexCastUI(operand) =>
      var x := Eval(operand, constants, unknown);
      if x.None? then None else Some(Wrap64(x.value))
    case Assume(operands, result) =>
      if result < |operands| then Eval(operands[result], constants, unknown) else None
    case Unknown(id, width) => Some(unknown(id) % Pow2(width))
  }

  // ---- The matcher ----

  // Where the driver finds a byte offset: push constant ordinals, or a constant.
  datatype Offset = Offset(ordinals: seq<u32>, static_: Option<u64>)

  function LookThroughAssume(e: Expr): (r: Expr)
    ensures !r.Assume? || r.result >= |r.operands|
  {
    if e.Assume? && e.result < |e.operands| then LookThroughAssume(e.operands[e.result]) else e
  }

  // The halves of index_castui(or(extui(load LO), shl(extui(load HI), 32))), with the
  // assume ops looked through at the four places the matcher does.
  datatype Halves = Halves(low: nat, high: nat, width: nat)

  function MatchHalves(e: Expr): (r: Option<Halves>) {
    var or_ := LookThroughAssume(e);
    if !or_.OrI? then None
    else
      var lowExt, shift := LookThroughAssume(or_.lhs), LookThroughAssume(or_.rhs);
      if !lowExt.ExtUI? || !shift.ShlI? then None
      else if !shift.rhs.IntConstant? || shift.rhs.value != 32 then None
      else
        var highExt := LookThroughAssume(shift.lhs);
        if !highExt.ExtUI? then None
        else if !lowExt.operand.ConstantLoad? || !highExt.operand.ConstantLoad? then None
        else Some(Halves(lowExt.operand.ordinal, highExt.operand.ordinal, lowExt.width))
  }

  // matchBindingOffset; an absent byte offset is None.
  function MatchOffset(byteOffset: Option<Expr>): (r: Option<Offset>) {
    if byteOffset.None? then Some(Offset([], None))
    else
      var e := LookThroughAssume(byteOffset.value);
      if e.IntConstant? then
        if e.value < 0 || e.value >= U64 then None
        else Some(Offset([], if e.value == 0 then None else Some(e.value)))
      else if !e.IndexCastUI? then None
      else
        var load := LookThroughAssume(e.operand);
        if load.ConstantLoad? then Some(Offset([Wrap32(load.ordinal)], None))
        else
          var halves := MatchHalves(e.operand);
          if halves.None? then None
          else Some(Offset([Wrap32(halves.value.low), Wrap32(halves.value.high)], None))
  }

  // The width the two halves are extended to, when the offset has that form.
  function HalvesOf(byteOffset: Option<Expr>): (r: Option<Halves>) {
    if byteOffset.None? then None
    else
      var e := LookThroughAssume(byteOffset.value);
      if e.IndexCastUI? && !LookThroughAssume(e.operand).ConstantLoad? then MatchHalves(e.operand) else None
  }

  // At most one of the two is set, one or two ordinals, and a static offset is never
  // zero: the verifier of the binding ops (StrelaOps.cpp) accepts what is matched.
  predicate BindingOpVerifies(o: Offset) {
    && |o.ordinals| <= 2
    && !(o.ordinals != [] && o.static_.Some?)
    && o.static_ != Some(0)
  }

  lemma MatchedOffsetsVerify(byteOffset: Option<Expr>)
    requires MatchOffset(byteOffset).Some?
    ensures BindingOpVerifies(MatchOffset(byteOffset).value)
  {
  }

  // The ordinary offsets are accepted: none, a constant, one push constant, and two
  // halves of any width, each with its own ordinals.
  lemma OrdinaryOffsetsAreAccepted(n: nat, width: nat, ordinal: nat, low: nat, high: nat)
    requires 0 < n < U64
    ensures MatchOffset(None) == Some(Offset([], None))
    ensures MatchOffset(Some(IntConstant(n, width))) == Some(Offset([], Some(n)))
    ensures MatchOffset(Some(IndexCastUI(ConstantLoad(ordinal)))) == Some(Offset([ordinal % 0x1_0000_0000], None))
    ensures MatchOffset(Some(IndexCastUI(OrI(ExtUI(ConstantLoad(low), width),
                                             ShlI(ExtUI(ConstantLoad(high), width), IntConstant(32, width))))))
            == Some(Offset([low % 0x1_0000_0000, high % 0x1_0000_0000], None))
  {
  }

  // ---- Soundness ----

  // The column the offset is serialized to (getColumn), and the value the driver
  // computes from it.
  function OffsetColumn(o: Offset, binding: u32, wordCount: u32, stride: u32): (def: ColumnDef) {
    ColumnDef(binding, if o.static_.Some? then o.static_.value else 0, o.ordinals, wordCount, stride)
  }

  function DriverOffset(o: Offset, constants: seq<u32>): (r: u64)
    requires Present(o.ordinals, constants)
  {
    Wrap64(ExactOffset(OffsetColumn(o, 0, 1, 1), constants))
  }

  // Every ordinal of the expression is below the layout's constant count.
  predicate OrdinalsBelow(e: Expr, count: nat) {
    match e
    case ConstantLoad(ordinal) => ordinal < count
    case ExtUI(operand, _) => OrdinalsBelow(operand, count)
    case ShlI(lhs, rhs) => OrdinalsBelow(lhs, count) && OrdinalsBelow(rhs, count)
    case OrI(lhs, rhs) => OrdinalsBelow(lhs, count) && OrdinalsBelow(rhs, count)
    case IndexCastUI(operand) => OrdinalsBelow(operand, count)
    case Assume(operands, _) => forall o :: o in operands ==> OrdinalsBelow(o, count)
    case _ => true
  }

  predicate InLayout(byteOffset: Option<Expr>, count: nat) {
    byteOffset.Some? ==>
      && WellTyped(byteOffset.value) && Width(byteOffset.value) == 64
      && OrdinalsBelow(byteOffset.value, count)
  }

  // The value of the offset in the IR.
  function OffsetValue(byteOffset: Option<Expr>, constants: seq<u32>, unknown: nat -> nat): (v: Option<nat>) {
    if byteOffset.None? then Some(0) else Eval(byteOffset.value, constants, unknown)
  }

  // What the ordinary offsets are worth in the IR: the constant, the push constant, and
  // the two halves put together.
  lemma OrdinaryOffsetsMean(n: nat, ordinal: nat, low: nat, high: nat, constants: seq<u32>, unknown: nat -> nat)
    requires n < U64 && ordinal < |constants| && low < |constants| && high < |constants|
    ensures OffsetValue(None, constants, unknown) == Some(0)
    ensures OffsetValue(Some(IntConstant(n, 64)), constants, unknown) == Some(n)
    ensures OffsetValue(Some(IndexCastUI(ConstantLoad(ordinal))), constants, unknown) == Some(constants[ordinal])
    ensures OffsetValue(Some(IndexCastUI(OrI(ExtUI(ConstantLoad(low), 64),
                                             ShlI(ExtUI(ConstantLoad(high), 64), IntConstant(32, 64))))), constants, unknown)
            == Some(constants[low] as int + 0x1_0000_0000 * constants[high] as int)
  {
    hide Pow2, Or, Shl, Wrap64;
    Pow2Is32();
    Pow2Sum(32, 32);
    NoWrap64(constants[ordinal]);
    assert Eval(ConstantLoad(ordinal), constants, unknown) == Some(constants[ordinal]);
    OrIsSum(constants[low], constants[high], 32);
    ShlIsTimes(constants[high], 32);
    var l, h := ExtUI(ConstantLoad(low), 64), ExtUI(ConstantLoad(high), 64);
    assert Eval(l, constants, unknown) == Some(constants[low]) && Eval(h, constants, unknown) == Some(constants[high]);
    assert Eval(IntConstant(32, 64), constants, unknown) == Some(32);
    var shifted := ShlI(h, IntConstant(32, 64));
    assert Eval(shifted, constants, unknown) == Some(0x1_0000_0000 * constants[high] as int);
    var joined := OrI(l, shifted);
    assert Eval(joined, constants, unknown) == Some(constants[low] as int + 0x1_0000_0000 * constants[high] as int);
    NoWrap64(constants[low] as int + 0x1_0000_0000 * constants[high] as int);
  }

  lemma {:induction false} LookThroughKeeps(e: Expr, constants: seq<u32>, unknown: nat -> nat, count: nat)
    requires WellTyped(e) && OrdinalsBelow(e, count)
    ensures var r := LookThroughAssume(e);
            && WellTyped(r) && Width(r) == Width(e) && OrdinalsBelow(r, count)
            && Eval(r, constants, unknown) == Eval(e, constants, unknown)
  {
    if e.Assume? {
      assert e.operands[e.result] in e.operands;
      LookThroughKeeps(e.operands[e.result], constants, unknown, count);
    }
  }

  // The value of a matched pair of halves in the IR: the high half is cut to the
  // width the halves were extended to.
  lemma HalvesValue(e: Expr, constants: seq<u32>, unknown: nat -> nat)
    requires WellTyped(e) && OrdinalsBelow(e, |constants|) && MatchHalves(e).Some?
    ensures var h := MatchHalves(e).value;
            && h.low < |constants| && h.high < |constants| && h.width > 32
            && Eval(e, constants, unknown)
               == Some(Or(constants[h.low], Shl(constants[h.high], 32) % Pow2(h.width)))
  {
    var count := |constants|;
    var or_ := LookThroughAssume(e);
    LookThroughKeeps(e, constants, unknown, count);
    LookThroughKeeps(or_.lhs, constants, unknown, count);
    LookThroughKeeps(or_.rhs, constants, unknown, count);
    var shift := LookThroughAssume(or_.rhs);
    LookThroughKeeps(shift.lhs, constants, unknown, count);
    ThirtyTwoFits(shift.rhs.width);
  }

  // A literal 32 of a signless type wide enough to hold it.
  lemma ThirtyTwoFits(width: nat)
    ensures width > 0 && 32 + Pow2(width - 1) < Pow2(width) ==> 32 % Pow2(width) == 32
  {
    if width > 0 && 32 + Pow2(width - 1) < Pow2(width) {
      hide Pow2;
      SmallModulus(32, Pow2(width));
    }
  }

  // The 64-bit number with these halves.
  function Joined(low: u32, high: u32): (r: u64) {
    var l: int, h: int := low, high;
    l + 0x1_0000_0000 * h
  }

  lemma ShlThirtyTwo(high: u32, low: u32)
    ensures Shl(high, 32) == Joined(0, high)
    ensures Or(low, Shl(high, 32)) == Joined(low, high)
  {
    Pow2Is32();
    ShlIsTimes(high, 32);
    OrIsSum(low, high, 32);
  }

  lemma PairSum(low: u32, high: u32, constants: seq<u32>)
    requires low < |constants| && high < |constants|
    ensures Present([low, high], constants)
    ensures ConstantSum([low, high], constants) == Joined(constants[low], constants[high])
  {
    Pow2Is32();
    assert Pow2(0) == 1;
    assert [low, high][..1] == [low];
    assert [low][..0] == [];
    assert Digit(constants[low], 0) == constants[low];
    assert ConstantSum([low], constants) == constants[low];
  }

  // The matcher and the driver agree with the IR on this expression and constants.
  ghost predicate Agrees(byteOffset: Option<Expr>, constants: seq<u32>, unknown: nat -> nat)
    requires MatchOffset(byteOffset).Some?
  {
    && Present(MatchOffset(byteOffset).value.ordinals, constants)
    && OffsetValue(byteOffset, constants, unknown) == Some(DriverOffset(MatchOffset(byteOffset).value, constants))
  }

  lemma SimpleOffsetAgrees(byteOffset: Option<Expr>, constants: seq<u32>, unknown: nat -> nat)
    requires MatchOffset(byteOffset).Some? && InLayout(byteOffset, |constants|) && |constants| < U32
    requires HalvesOf(byteOffset).None?
    ensures Agrees(byteOffset, constants, unknown)
  {
    hide Wrap64, Wrap32, ConstantSum;
    if byteOffset.None? {
      NoOrdinals(constants);
    } else {
      LookThroughKeeps(byteOffset.value, constants, unknown, |constants|);
      var e := LookThroughAssume(byteOffset.value);
      if e.IntConstant? {
        NoOrdinals(constants);
        LiteralValue(e.value);
        NoWrap64(e.value);
      } else {
        LookThroughKeeps(e.operand, constants, unknown, |constants|);
        var ordinal := LookThroughAssume(e.operand).ordinal;
        NoWrap32(ordinal);
        OneOrdinal(ordinal, constants);
      }
    }
    NoWrap64(0);
  }

  lemma NoOrdinals(constants: seq<u32>)
    ensures ConstantSum([], constants) == 0
  {
  }

  lemma OneOrdinal(ordinal: u32, constants: seq<u32>)
    requires ordinal < |constants|
    ensures Present([ordinal], constants) && ConstantSum([ordinal], constants) == constants[ordinal]
  {
    assert [ordinal][..0] == [] && Pow2(0) == 1;
    assert Digit(constants[ordinal], 0) == constants[ordinal];
  }

  lemma LiteralValue(value: nat)
    requires value < Pow2(63)
    ensures value < U64 && value % Pow2(64) == value
  {
    Pow2Is32();
    Pow2Sum(32, 31);
    Pow2Sum(32, 32);
    assert Pow2(64) == 2 * Pow2(63);
  }

  lemma HalvesAgree(byteOffset: Option<Expr>, constants: seq<u32>, unknown: nat -> nat)
    requires MatchOffset(byteOffset).Some? && InLayout(byteOffset, |constants|) && |constants| < U32
    requires HalvesOf(byteOffset).Some?
    ensures var h := HalvesOf(byteOffset).value;
            && h.low < |constants| && h.high < |constants| && h.width > 32
            && OffsetValue(byteOffset, constants, unknown)
               == Some(Wrap64(Or(constants[h.low], Shl(constants[h.high], 32) % Pow2(h.width))))
            && Present(MatchOffset(byteOffset).value.ordinals, constants)
            && DriverOffset(MatchOffset(byteOffset).value, constants)
               == Joined(constants[h.low], constants[h.high])
  {
    hide MatchHalves, Shl, Or, Pow2, Wrap64, Joined, DriverOffset;
    LookThroughKeeps(byteOffset.value, constants, unknown, |constants|);
    var e := LookThroughAssume(byteOffset.value);
    HalvesValue(e.operand, constants, unknown);
    var h := HalvesOf(byteOffset).value;
    NoWrap32(h.low);
    NoWrap32(h.high);
    DriverJoins(h.low, h.high, constants);
  }

  lemma DriverJoins(low: u32, high: u32, constants: seq<u32>)
    requires low < |constants| && high < |constants|
    ensures Present([low, high], constants)
    ensures DriverOffset(Offset([low, high], None), constants) == Joined(constants[low], constants[high])
  {
    PairSum(low, high, constants);
  }

  // For every offset the matcher accepts and every value of the push constants, the
  // driver computes the IR value, if the halves of a pair are extended to 64 bits.
  lemma OffsetTranslationIsSound(byteOffset: Option<Expr>, constants: seq<u32>, unknown: nat -> nat)
    requires MatchOffset(byteOffset).Some? && InLayout(byteOffset, |constants|) && |constants| < U32
    requires HalvesOf(byteOffset).Some? ==> HalvesOf(byteOffset).value.width >= 64
    ensures Agrees(byteOffset, constants, unknown)
  {
    if HalvesOf(byteOffset).None? {
      SimpleOffsetAgrees(byteOffset, constants, unknown);
    } else {
      hide HalvesOf, MatchOffset, InLayout, OffsetValue, DriverOffset, Pow2, Shl, Or, Wrap64;
      HalvesAgree(byteOffset, constants, unknown);
      var h := HalvesOf(byteOffset).value;
      ShlThirtyTwo(constants[h.high], constants[h.low]);
      WideModulus(Joined(0, constants[h.high]), h.width);
      NoWrap64(Joined(constants[h.low], constants[h.high]));
    }
  }

  lemma SmallModulus(x: nat, m: nat)
    requires x < m
    ensures x % m == x
  {
  }

  lemma {:induction false} Pow2Grows(k: nat, n: nat)
    requires k <= n
    ensures Pow2(k) <= Pow2(n)
  {
    if k < n {
      Pow2Grows(k, n - 1);
    }
  }

  lemma Pow2Is64()
    ensures Pow2(64) == U64
  {
    Pow2Is32();
    Pow2Sum(32, 32);
  }

  lemma WideModulus(x: nat, width: nat)
    requires x < U64 && width >= 64
    ensures x % Pow2(width) == x
  {
    Pow2Is64();
    Pow2Grows(64, width);
    SmallModulus(x, Pow2(width));
  }

  // The width is not checked by the matcher, and it is exactly what decides: halves
  // extended to fewer than 64 bits lose high bits that the driver keeps.
  lemma OffsetTranslationIff(byteOffset: Option<Expr>, count: nat, unknown: nat -> nat)
    requires MatchOffset(byteOffset).Some? && InLayout(byteOffset, count) && count < U32
    ensures (forall constants: seq<u32> :: |constants| == count ==> Agrees(byteOffset, constants, unknown))
            <==> (HalvesOf(byteOffset).Some? ==> HalvesOf(byteOffset).value.width >= 64)
  {
    if HalvesOf(byteOffset).Some? && HalvesOf(byteOffset).value.width < 64 {
      NarrowHalvesDisagree(byteOffset, count, unknown);
    } else {
      forall constants: seq<u32> | |constants| == count
        ensures Agrees(byteOffset, constants, unknown)
      {
        OffsetTranslationIsSound(byteOffset, constants, unknown);
      }
    }
  }

  lemma NarrowHalvesDisagree(byteOffset: Option<Expr>, count: nat, unknown: nat -> nat)
    requires MatchOffset(byteOffset).Some? && InLayout(byteOffset, count) && count < U32
    requires HalvesOf(byteOffset).Some? && HalvesOf(byteOffset).value.width < 64
    ensures exists constants: seq<u32> :: |constants| == count && !Agrees(byteOffset, constants, unknown)
  {
    hide MatchOffset, InLayout, OffsetValue, DriverOffset, HalvesOf, Pow2, Shl, Or, Wrap64;
    var h := HalvesOf(byteOffset).value;
    var zeros := seq<u32>(count, _ => 0);
    HalvesAgree(byteOffset, zeros, unknown);
    NarrowBit(h.width);
    var bit := Pow2(h.width - 32);
    var constants := seq<u32>(count, _ => bit);
    HalvesAgree(byteOffset, constants, unknown);
    assert constants[h.low] == bit && constants[h.high] == bit;
    NoWrap64(bit);
    assert !Agrees(byteOffset, constants, unknown);
  }

  // Halves extended to 48 bits: with 2^16 in the high half the IR computes 0, and the
  // driver 2^48.
  lemma FortyEightBitsDisagree()
    ensures var e := IndexCastUI(OrI(ExtUI(ConstantLoad(0), 48), ShlI(ExtUI(ConstantLoad(1), 48), IntConstant(32, 48))));
            var constants := [0, 0x1_0000];
            && MatchOffset(Some(e)).Some? && InLayout(Some(e), 2)
            && (forall unknown :: OffsetValue(Some(e), constants, unknown) == Some(0))
            && Present(MatchOffset(Some(e)).value.ordinals, constants)
            && DriverOffset(MatchOffset(Some(e)).value, constants) == 0x1_0000_0000_0000
  {
    var e := IndexCastUI(OrI(ExtUI(ConstantLoad(0), 48), ShlI(ExtUI(ConstantLoad(1), 48), IntConstant(32, 48))));
    var constants: seq<u32> := [0, 0x1_0000];
    SixteenBits();
    hide Pow2;
    forall unknown: nat -> nat
      ensures OffsetValue(Some(e), constants, unknown) == Some(0)
    {
      FortyEightBits(e, constants, unknown);
    }
    FortyEightBits(e, constants, x => x);
  }

  lemma SixteenBits()
    ensures Pow2(16) == 0x1_0000
    ensures 32 + Pow2(47) < Pow2(48)
  {
    assert Pow2(4) == 16;
    Pow2Sum(4, 4);
    Pow2Sum(8, 8);
    assert Pow2(6) == 64;
    Pow2Grows(6, 47);
  }

  lemma FortyEightBits(e: Expr, constants: seq<u32>, unknown: nat -> nat)
    requires e == IndexCastUI(OrI(ExtUI(ConstantLoad(0), 48), ShlI(ExtUI(ConstantLoad(1), 48), IntConstant(32, 48))))
    requires constants == [0, 0x1_0000] && Pow2(16) == 0x1_0000 && 32 + Pow2(47) < Pow2(48)
    ensures MatchOffset(Some(e)).Some? && InLayout(Some(e), 2) && OffsetValue(Some(e), constants, unknown) == Some(0)
    ensures Present(MatchOffset(Some(e)).value.ordinals, constants)
    ensures DriverOffset(MatchOffset(Some(e)).value, constants) == 0x1_0000_0000_0000
  {
    hide Pow2, Shl, Or, Wrap64, Eval, DriverOffset;
    FortyEightBitsMatch(e);
    HalvesAgree(Some(e), constants, unknown);
    NarrowBit(48);
    OrNothing();
    NoWrap64(0);
    assert Joined(0, 0x1_0000) == 0x1_0000_0000_0000;
  }

  lemma FortyEightBitsMatch(e: Expr)
    requires e == IndexCastUI(OrI(ExtUI(ConstantLoad(0), 48), ShlI(ExtUI(ConstantLoad(1), 48), IntConstant(32, 48))))
    requires 32 + Pow2(47) < Pow2(48)
    ensures MatchOffset(Some(e)).Some? && InLayout(Some(e), 2) && HalvesOf(Some(e)) == Some(Halves(0, 1, 48))
  {
    hide Pow2;
    var or_ := e.operand;
    var shift := or_.rhs;
    assert WellTyped(shift.lhs) && WellTyped(shift.rhs) && WellTyped(or_.lhs);
    assert WellTyped(shift) && WellTyped(or_);
    assert OrdinalsBelow(shift.lhs, 2) && OrdinalsBelow(shift, 2) && OrdinalsBelow(or_.lhs, 2) && OrdinalsBelow(or_, 2);
  }

  lemma OrNothing()
    ensures Or(0, 0) == 0
  {
  }

  // Bit `width - 32` of the high half falls off a value of `width` bits.
  lemma NarrowBit(width: nat)
    requires 32 < width < 64
    ensures 0 < Pow2(width - 32) < U32
    ensures Shl(Pow2(width - 32), 32) % Pow2(width) == 0
    ensures Or(Pow2(width - 32), 0) == Pow2(width - 32) != Joined(Pow2(width - 32), Pow2(width - 32))
  {
    Pow2Is32();
    Pow2Grows(width - 32, 31);
    assert Pow2(32) == 2 * Pow2(31);
    Pow2Sum(32, width - 32);
    ShlIsTimes(Pow2(width - 32), 32);
    assert Pow2(width) % Pow2(width) == 0;
  }
}
