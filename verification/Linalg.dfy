// linalg.generic as far as the STRELA matchers look at it (KernelMatchers.cpp), and
// what it computes.
module Linalg {
  import opened Status
  import opened Tensors
  import opened Words

  // A map from iteration indices to tensor indices: result i is dimension dims[i].
  datatype AffineMap = AffineMap(dims: seq<nat>)

  // An operand of a payload operation: a block argument, a literal, or the result of
  // an earlier operation of the payload.
  datatype Arg = BlockArg(n: nat) | Literal(value: int) | OpResult(op: nat)

  datatype PayloadOp =
    | AddI(lhs: Arg, rhs: Arg)
    | MaxSI(lhs: Arg, rhs: Arg)
    | OtherOp(id: nat, lhs: Arg, rhs: Arg)

  // `splat` is the value of an input that is a constant splat.
  datatype Input = Input(rankedTensor: bool, elementsI32: bool, splat: Option<int>)

  // The terminator is not part of `payload`; `yielded` are its operands.
  datatype Generic = Generic(
    inputs: seq<Input>, inits: nat, pureTensors: bool, parallel: seq<bool>, maps: seq<AffineMap>,
    payload: seq<PayloadOp>, yielded: seq<Arg>)

  // ---- Meaning ----

  // Dimensions beyond the index count as zero.
  function ApplyMap(m: AffineMap, index: Index): (r: Index)
    ensures |r| == |m.dims|
    ensures forall i :: 0 <= i < |r| && m.dims[i] < |index| ==> r[i] == index[m.dims[i]]
  {
    seq(|m.dims|, i requires 0 <= i < |m.dims| => if m.dims[i] < |index| then index[m.dims[i]] else 0)
  }

  // The value of an operation that no kernel is known for.
  type OtherMeaning = (nat, u32, u32) -> u32

  function ArgValue(a: Arg, args: seq<u32>, results: seq<u32>): (x: u32) {
    match a
    case BlockArg(n) => if n < |args| then args[n] else 0
    case Literal(value) => Wrap32(value)
    case OpResult(op) => if op < |results| then results[op] else 0
  }

  function PayloadResults(ops: seq<PayloadOp>, args: seq<u32>, other: OtherMeaning): (results: seq<u32>)
    ensures |results| == |ops|
  {
    if ops == [] then []
    else
      var before := PayloadResults(ops[..|ops| - 1], args, other);
      var op := ops[|ops| - 1];
      var x, y := ArgValue(op.lhs, args, before), ArgValue(op.rhs, args, before);
      before + [match op
                case AddI(_, _) => (x + y) % 0x1_0000_0000
                case MaxSI(_, _) => if Signed(x) >= Signed(y) then x else y
                case OtherOp(id, _, _) => other(id, x, y)]
  }

  // The element the payload yields for these input and init elements.
  function Payload(g: Generic, args: seq<u32>, other: OtherMeaning): (x: u32)
    requires |g.yielded| > 0
  {
    ArgValue(g.yielded[0], args, PayloadResults(g.payload, args, other))
  }

  function Relu(x: u32): (r: u32)
    ensures Signed(r) == if Signed(x) > 0 then Signed(x) else 0
  {
    if x < 0x8000_0000 then x else 0
  }

  // ---- The matchers ----

  function IdentityMap(rank: nat): (m: AffineMap) {
    AffineMap(seq(rank, i requires 0 <= i < rank => i))
  }

  predicate AllInputsInteger32(g: Generic) {
    forall i :: i in g.inputs ==> i.rankedTensor && i.elementsI32
  }

  predicate AllParallel(g: Generic) {
    forall p :: p in g.parallel ==> p
  }

  // isStrelaLinalgAdd
  predicate MatchesAdd(g: Generic) {
    && |g.inputs| == 2 && g.inits == 1
    && AllInputsInteger32(g) && g.pureTensors && AllParallel(g)
    && (forall m :: m in g.maps ==> m == IdentityMap(|g.parallel|))
    && |g.payload| == 1 && g.payload[0].AddI?
    && (|| (g.payload[0].lhs == BlockArg(0) && g.payload[0].rhs == BlockArg(1))
        || (g.payload[0].lhs == BlockArg(1) && g.payload[0].rhs == BlockArg(0)))
    && g.yielded == [OpResult(0)]
  }

  // isStrelaLinalgRelu
  predicate MatchesRelu(g: Generic) {
    && (|g.inputs| == 1 || |g.inputs| == 2) && g.inits == 1
    && AllInputsInteger32(g) && g.pureTensors && AllParallel(g)
    && |g.payload| == 1 && g.payload[0].MaxSI?
    && g.payload[0].lhs == BlockArg(0)
    && (if |g.inputs| == 2 then g.payload[0].rhs == BlockArg(1) && g.inputs[1].splat == Some(0)
        else g.payload[0].rhs == Literal(0))
    && g.yielded == [OpResult(0)]
  }

  // The element arguments an iteration can see: a splat input holds its value.
  predicate ElementArgs(g: Generic, args: seq<u32>) {
    && |args| == |g.inputs| + g.inits
    && forall i :: 0 <= i < |g.inputs| && g.inputs[i].splat.Some? ==> args[i] == Wrap32(g.inputs[i].splat.value)
  }

  lemma OneOp(g: Generic, args: seq<u32>, other: OtherMeaning)
    requires |g.payload| == 1 && g.yielded == [OpResult(0)]
    ensures Payload(g, args, other) == PayloadResults(g.payload, args, other)[0]
    ensures PayloadResults(g.payload[..0], args, other) == []
  {
    assert g.payload[..0] == [];
  }

  // What one more op of a payload yields: the sum modulo 2^32, the greater in two's
  // complement, or what nothing is known about.
  lemma PayloadMeans(ops: seq<PayloadOp>, op: PayloadOp, args: seq<u32>, other: OtherMeaning, x: u32, y: u32)
    requires x == ArgValue(op.lhs, args, PayloadResults(ops, args, other))
    requires y == ArgValue(op.rhs, args, PayloadResults(ops, args, other))
    ensures PayloadResults(ops + [op], args, other)[..|ops|] == PayloadResults(ops, args, other)
    ensures var r := PayloadResults(ops + [op], args, other)[|ops|];
            && (op.AddI? ==> r == (x + y) % 0x1_0000_0000)
            && (op.MaxSI? ==> r == if (x + 0x8000_0000) % 0x1_0000_0000 >= (y + 0x8000_0000) % 0x1_0000_0000 then x else y)
            && (op.OtherOp? ==> r == other(op.id, x, y))
  {
    assert (ops + [op])[..|ops|] == ops;
  }

  // What the matchers accept computes the sum modulo 2^32 of its inputs, or the positive
  // part of its input in two's complement, and nothing is accepted as both.
  lemma AddMeaning(g: Generic, args: seq<u32>, other: OtherMeaning)
    requires MatchesAdd(g) && ElementArgs(g, args)
    ensures Payload(g, args, other) == (args[0] as int + args[1]) % 0x1_0000_0000 && !MatchesRelu(g)
  {
    OneOp(g, args, other);
  }

  lemma ReluMeaning(g: Generic, args: seq<u32>, other: OtherMeaning)
    requires MatchesRelu(g) && ElementArgs(g, args)
    ensures Payload(g, args, other) == (if args[0] < 0x8000_0000 then args[0] else 0) && !MatchesAdd(g)
  {
    OneOp(g, args, other);
    assert Wrap32(0) == 0;
  }

  // The ordinary ops are accepted: an add of two tensors of any rank, in either order,
  // and a relu of a tensor against a literal zero or a zero splat, with any maps.
  lemma OrdinaryAddIsAccepted(rank: nat, a: Option<int>, b: Option<int>, swapped: bool)
    ensures var identity := AffineMap(seq(rank, i => i));
            var op := if swapped then AddI(BlockArg(1), BlockArg(0)) else AddI(BlockArg(0), BlockArg(1));
            MatchesAdd(Generic([Input(true, true, a), Input(true, true, b)], 1, true, seq(rank, _ => true),
                               [identity, identity, identity], [op], [OpResult(0)]))
  {
    assert AffineMap(seq(rank, i => i)).dims == IdentityMap(rank).dims;
  }

  lemma OrdinaryReluIsAccepted(rank: nat, a: Option<int>, maps: seq<AffineMap>)
    ensures MatchesRelu(Generic([Input(true, true, a)], 1, true, seq(rank, _ => true), maps,
                                [MaxSI(BlockArg(0), Literal(0))], [OpResult(0)]))
    ensures MatchesRelu(Generic([Input(true, true, a), Input(true, true, Some(0))], 1, true, seq(rank, _ => true), maps,
                                [MaxSI(BlockArg(0), BlockArg(1))], [OpResult(0)]))
  {
  }

  // ---- The maps the relu matcher does not look at ----

  // A kernel that works word by word puts every element where the maps say, in a
  // tensor with these iteration bounds.
  ghost predicate SameWords(input: AffineMap, output: AffineMap, bounds: Shape) {
    forall index: Index :: InShape(index, bounds) ==>
      FlatIndex(ApplyMap(input, bounds), ApplyMap(input, index))
      == FlatIndex(ApplyMap(output, bounds), ApplyMap(output, index))
  }

  // Every result of the map is an iteration dimension.
  predicate Bounded(m: AffineMap, rank: nat) {
    forall i :: 0 <= i < |m.dims| ==> m.dims[i] < rank
  }

  function Twos(rank: nat): (s: Shape)
    ensures |s| == rank && forall d :: 0 <= d < rank ==> s[d] == 2
  {
    seq(rank, _ => 2)
  }

  lemma MapInTwos(m: AffineMap, index: Index, rank: nat)
    requires InShape(index, Twos(rank)) && Bounded(m, rank)
    ensures ApplyMap(m, Twos(rank)) == Twos(|m.dims|)
    ensures InShape(ApplyMap(m, index), Twos(|m.dims|))
  {
  }

  // Word by word on a tensor with two elements per dimension tells the maps apart.
  lemma SameDimension(input: AffineMap, output: AffineMap, rank: nat, p: nat)
    requires |input.dims| == |output.dims| && p < |input.dims|
    requires Bounded(input, rank) && Bounded(output, rank)
    requires SameWords(input, output, Twos(rank))
    ensures input.dims[p] == output.dims[p]
  {
    hide FlatIndex, ApplyMap, Twos;
    var hot := input.dims[p];
    var index: Index := seq(rank, d => if d == hot then 1 else 0);
    MapInTwos(input, index, rank);
    MapInTwos(output, index, rank);
    FlatIndexInjective(Twos(|input.dims|), ApplyMap(input, index), ApplyMap(output, index));
    assert index[hot] == ApplyMap(input, index)[p] == ApplyMap(output, index)[p] == index[output.dims[p]];
  }

  // A longer map sends the index that is one in its first dimension only further than
  // a shorter map can reach.
  lemma LongerMapReachesFurther(long: AffineMap, short: AffineMap, rank: nat)
    requires |long.dims| > |short.dims| && Bounded(long, rank) && Bounded(short, rank)
    ensures !SameWords(long, short, Twos(rank)) && !SameWords(short, long, Twos(rank))
  {
    var n, m := |long.dims|, |short.dims|;
    var index: Index := seq(rank, d => if d == long.dims[0] then 1 else 0);
    assert InShape(index, Twos(rank));
    MapInTwos(long, index, rank);
    MapInTwos(short, index, rank);
    FlatIndexInRange(Twos(m), ApplyMap(short, index));
    assert Twos(n)[1..] == Twos(n - 1);
    TwosGrow(m, n - 1);
    assert FlatIndex(Twos(n), ApplyMap(long, index)) >= Elements(Twos(n - 1));
  }

  lemma {:induction false} TwosGrow(m: nat, n: nat)
    requires m <= n
    ensures Elements(Twos(m)) <= Elements(Twos(n))
  {
    if m < n {
      TwosGrow(m, n - 1);
      assert Twos(n)[1..] == Twos(n - 1);
    }
  }

  // Word by word is right for every shape exactly when the two maps are the same.
  lemma WordByWordIff(input: AffineMap, output: AffineMap, rank: nat)
    requires Bounded(input, rank) && Bounded(output, rank)
    ensures (forall bounds: Shape :: |bounds| == rank ==> SameWords(input, output, bounds)) <==> input == output
  {
    if forall bounds: Shape :: |bounds| == rank ==> SameWords(input, output, bounds) {
      assert SameWords(input, output, Twos(rank));
      if |input.dims| > |output.dims| {
        LongerMapReachesFurther(input, output, rank);
      } else if |input.dims| < |output.dims| {
        LongerMapReachesFurther(output, input, rank);
      } else {
        forall p | 0 <= p < |input.dims|
          ensures input.dims[p] == output.dims[p]
        {
          SameDimension(input, output, rank, p);
        }
      }
    }
  }

  // A relu that transposes its input is accepted.
  lemma TransposingReluIsAccepted()
    ensures var g := Generic([Input(true, true, None)], 1, true, [true, true],
                             [AffineMap([0, 1]), AffineMap([1, 0])], [MaxSI(BlockArg(0), Literal(0))], [OpResult(0)]);
            MatchesRelu(g) && g.maps[0] != g.maps[1]
  {
    var g := Generic([Input(true, true, None)], 1, true, [true, true],
                     [AffineMap([0, 1]), AffineMap([1, 0])], [MaxSI(BlockArg(0), Literal(0))], [OpResult(0)]);
    assert g.maps[0].dims[0] != g.maps[1].dims[0];
  }

  // So is one that broadcasts a row of its input over the result.
  lemma BroadcastReluIsAccepted()
    ensures var g := Generic([Input(true, true, None)], 1, true, [true, true],
                             [AffineMap([1]), AffineMap([0, 1])], [MaxSI(BlockArg(0), Literal(0))], [OpResult(0)]);
            MatchesRelu(g) && exists bounds: Shape :: |bounds| == 2 && !SameWords(g.maps[0], g.maps[1], bounds)
  {
    WordByWordIff(AffineMap([1]), AffineMap([0, 1]), 2);
  }
}
