// NormalizeRescalePass.cpp: a tosa.rescale whose leading dimension is dynamic becomes
// a loop over that dimension, and double rounding becomes single rounding.
module Rescale {
  import opened Status
  import opened Tensors

  // A tensor value, by index; what it says outside its shape means nothing.
  datatype Tensor<!T> = Tensor(shape: Shape, element: Index -> T)

  ghost predicate Same<T(!new)>(a: Tensor<T>, b: Tensor<T>) {
    a.shape == b.shape && forall index: Index :: InShape(index, a.shape) ==> a.element(index) == b.element(index)
  }

  // ---- tosa.rescale ----

  // The channel is the last coordinate; scaling with one multiplier for the whole
  // tensor has channel 0 only.
  function Channel(index: Index, perChannel: bool): (c: nat) {
    if perChannel && |index| > 0 then index[|index| - 1] else 0
  }

  // `scale` is what the multipliers, shifts and zero points make of one element.
  function Rescaled(t: Tensor<int>, perChannel: bool, scale: (int, nat) -> int): (r: Tensor<int>) {
    Tensor(t.shape, index => scale(t.element(index), Channel(index, perChannel)))
  }

  // ---- tensor.empty, tensor.extract_slice, tensor.insert_slice with unit strides ----

  function Empty(shape: Shape): (r: Tensor<Option<int>>) {
    Tensor(shape, index => None)
  }

  function Add(a: Index, b: Index): (r: Index)
    requires |a| == |b|
    ensures |r| == |a|
  {
    seq(|a|, k requires 0 <= k < |a| => a[k] + b[k])
  }

  function ExtractSlice(t: Tensor<int>, offsets: Index, sizes: Shape): (r: Tensor<int>)
    requires |offsets| == |sizes|
  {
    Tensor(sizes, index => if |index| == |offsets| then t.element(Add(offsets, index)) else 0)
  }

  // The index is in the slice.
  predicate Covers(offsets: Index, sizes: Shape, index: Index) {
    |index| == |offsets| == |sizes| && forall k :: 0 <= k < |index| ==> offsets[k] <= index[k] < offsets[k] + sizes[k]
  }

  function Minus(a: Index, b: Index): (r: Index)
    requires |a| == |b| && forall k :: 0 <= k < |a| ==> b[k] <= a[k]
    ensures |r| == |a|
  {
    seq(|a|, k requires 0 <= k < |a| => a[k] - b[k])
  }

  function InsertSlice(t: Tensor<int>, into: Tensor<Option<int>>, offsets: Index, sizes: Shape): (r: Tensor<Option<int>>) {
    Tensor(into.shape,
           index => if Covers(offsets, sizes, index) then Some(t.element(Minus(index, offsets))) else into.element(index))
  }

  // ---- The batch loop ----

  // A ranked type; a dynamic size is None.
  type Dims = seq<Option<nat>>

  predicate HasDims(shape: Shape, dims: Dims) {
    |shape| == |dims| && forall k :: 0 <= k < |shape| ==> dims[k].None? || dims[k].value == shape[k]
  }

  // Sizes read off a type, and off the input where the type is dynamic.
  function SizesOf(dims: Dims, shape: Shape): (r: Shape)
    requires HasDims(shape, dims)
    ensures r == shape
  {
    seq(|dims|, k requires 0 <= k < |dims| => if dims[k].None? then shape[k] else dims[k].value)
  }

  function Offsets(rank: nat, iv: nat): (r: Index)
    requires rank > 0
    ensures |r| == rank
  {
    seq(rank, k requires 0 <= k < rank => if k == 0 then iv else 0)
  }

  // The loop's result is the rescale of the whole tensor.
  ghost predicate IsExact(result: Tensor<Option<int>>, t: Tensor<int>, perChannel: bool, scale: (int, nat) -> int) {
    forall index: Index :: InShape(index, t.shape) ==>
      result.element(index) == Some(Rescaled(t, perChannel, scale).element(index))
  }

  // Every element is defined, and scaled as the channel of the slice it is in, where
  // the batch index is 0.
  ghost predicate IsLoopResult(result: Tensor<Option<int>>, t: Tensor<int>, perChannel: bool, scale: (int, nat) -> int)
    requires |t.shape| > 0
  {
    forall index: Index :: InShape(index, t.shape) ==>
      result.element(index) == Some(scale(t.element(index), Channel(index[0 := 0], perChannel)))
  }

  // The loop the pattern emits, on an input of the matched type.
  method BatchLoop(t: Tensor<int>, input: Dims, output: Dims, perChannel: bool, scale: (int, nat) -> int)
    returns (result: Tensor<Option<int>>)
    requires |t.shape| > 0 && HasDims(t.shape, input) && HasDims(t.shape, output)
    ensures result.shape == t.shape
    ensures IsLoopResult(result, t, perChannel, scale)
    ensures !perChannel || |t.shape| >= 2 ==> IsExact(result, t, perChannel, scale)
    ensures forall index: Index :: InShape(index, t.shape) ==>
              result.element(index)
              == Some(scale(t.element(index), if perChannel && |index| > 1 then index[|index| - 1] else 0))
  {
    var rank, batchSize := |t.shape|, t.shape[0];
    result := Empty(SizesOf(output, t.shape));
    for iv := 0 to batchSize
      invariant result.shape == t.shape
      invariant forall index: Index :: InShape(index, t.shape) ==>
                  result.element(index) == if index[0] < iv
                                           then Some(scale(t.element(index), Channel(index[0 := 0], perChannel)))
                                           else None
    {
      var offsets, sizes := Offsets(rank, iv), SizesOf(input, t.shape)[0 := 1];
      var slice := ExtractSlice(t, offsets, sizes);
      var rescaled := Rescaled(slice, perChannel, scale);
      ghost var before := result;
      result := InsertSlice(rescaled, result, offsets, sizes);
      forall index: Index | InShape(index, t.shape)
        ensures result.element(index) == if index[0] == iv
                                         then Some(scale(t.element(index), Channel(index[0 := 0], perChannel)))
                                         else before.element(index)
      {
        WritesOnlyItsRow(t.shape, iv, index);
        if index[0] == iv {
          SliceIndex(t.shape, iv, index);
        }
      }
    }
    if !perChannel || rank >= 2 {
      LoopIsExact(result, t, perChannel, scale);
    }
  }

  // Iteration iv defines an element exactly when iv is its batch index: every element
  // is defined once.
  lemma WritesOnlyItsRow(shape: Shape, iv: nat, index: Index)
    requires |shape| > 0 && InShape(index, shape)
    ensures Covers(Offsets(|shape|, iv), shape[0 := 1], index) <==> index[0] == iv
  {
    assert Offsets(|shape|, iv)[0] == iv;
  }

  lemma SliceIndex(shape: Shape, iv: nat, index: Index)
    requires |shape| > 0 && InShape(index, shape) && index[0] == iv
    ensures Covers(Offsets(|shape|, iv), shape[0 := 1], index)
    ensures Minus(index, Offsets(|shape|, iv)) == index[0 := 0]
    ensures Add(Offsets(|shape|, iv), index[0 := 0]) == index
  {
    WritesOnlyItsRow(shape, iv, index);
  }

  // For any shape, when there is one scale or the channel is not the batch.
  lemma LoopIsExact(result: Tensor<Option<int>>, t: Tensor<int>, perChannel: bool, scale: (int, nat) -> int)
    requires |t.shape| > 0 && IsLoopResult(result, t, perChannel, scale)
    requires !perChannel || |t.shape| >= 2
    ensures IsExact(result, t, perChannel, scale)
  {
  }

  // When the batch is the channel, the loop scales every element as channel 0. It is
  // exact on every input exactly when all channels scale alike.
  lemma RankOneExactIff(n: nat, scale: (int, nat) -> int)
    ensures (forall x: int, c: nat :: c < n ==> scale(x, c) == scale(x, 0))
            <==> forall t: Tensor<int>, r: Tensor<Option<int>> ::
                   t.shape == [n] && IsLoopResult(r, t, true, scale) ==> IsExact(r, t, true, scale)
  {
    if forall x: int, c: nat :: c < n ==> scale(x, c) == scale(x, 0) {
      forall t: Tensor<int>, r: Tensor<Option<int>> | t.shape == [n] && IsLoopResult(r, t, true, scale)
        ensures IsExact(r, t, true, scale)
      {
        forall index: Index | InShape(index, t.shape)
          ensures r.element(index) == Some(Rescaled(t, true, scale).element(index))
        {
          assert scale(t.element(index), index[0]) == scale(t.element(index), 0);
        }
      }
    }
    if forall t: Tensor<int>, r: Tensor<Option<int>> ::
        t.shape == [n] && IsLoopResult(r, t, true, scale) ==> IsExact(r, t, true, scale)
    {
      forall x: int, c: nat | c < n
        ensures scale(x, c) == scale(x, 0)
      {
        var t := Tensor([n], (index: Index) => x);
        var r := Tensor([n], (index: Index) => Some(scale(x, 0)));
        assert IsLoopResult(r, t, true, scale);
        assert InShape([c], t.shape);
        assert r.element([c]) == Some(Rescaled(t, true, scale).element([c]));
      }
    }
  }

  // ---- The greedy driver ----

  // One tosa.rescale of the function: how many batch loops have been put around it,
  // its rounding mode, and its input type if ranked.
  datatype RescaleOp = RescaleOp(loops: nat, doubleRound: bool, input: Option<Dims>)

  predicate DoubleRound(r: RescaleOp) {
    r.doubleRound
  }

  predicate DynamicBatch(r: RescaleOp) {
    r.input.Some? && |r.input.value| > 0 && r.input.value[0].None?
  }

  // DoubleRoundRewriter and DynamicBatchRewriter.
  function RoundOnce(r: RescaleOp): (s: RescaleOp)
    requires DoubleRound(r)
  {
    r.(doubleRound := false)
  }

  function LoopOverBatch(r: RescaleOp): (s: RescaleOp)
    requires DynamicBatch(r)
  {
    r.(loops := r.loops + 1, input := Some(r.input.value[0 := Some(1)]))
  }

  predicate Stuck(rs: seq<RescaleOp>) {
    forall k :: 0 <= k < |rs| ==> !DoubleRound(rs[k]) && !DynamicBatch(rs[k])
  }

  // One pattern applied to one op.
  ghost predicate Step(a: seq<RescaleOp>, b: seq<RescaleOp>) {
    exists k :: 0 <= k < |a| && StepAt(a, b, k)
  }

  predicate StepAt(a: seq<RescaleOp>, b: seq<RescaleOp>, k: nat)
    requires k < |a|
  {
    || (DoubleRound(a[k]) && b == a[k := RoundOnce(a[k])])
    || (DynamicBatch(a[k]) && b == a[k := LoopOverBatch(a[k])])
  }

  // Patterns that still apply.
  function Work(r: RescaleOp): (n: nat) {
    (if DoubleRound(r) then 1 else 0) + (if DynamicBatch(r) then 1 else 0)
  }

  function TotalWork(rs: seq<RescaleOp>): (n: nat) {
    if rs == [] then 0 else TotalWork(rs[..|rs| - 1]) + Work(rs[|rs| - 1])
  }

  function Normal(r: RescaleOp): (s: RescaleOp) {
    var rounded := if DoubleRound(r) then RoundOnce(r) else r;
    if DynamicBatch(rounded) then LoopOverBatch(rounded) else rounded
  }

  function NormalForm(rs: seq<RescaleOp>): (r: seq<RescaleOp>)
    ensures |r| == |rs|
  {
    seq(|rs|, k requires 0 <= k < |rs| => Normal(rs[k]))
  }

  // The fields of the result: rounded once, and one more loop over a batch of size 1 if
  // the batch was dynamic.
  lemma NormalMeans(rs: seq<RescaleOp>)
    ensures forall k :: 0 <= k < |rs| ==>
              && !NormalForm(rs)[k].doubleRound
              && if rs[k].input.Some? && |rs[k].input.value| > 0 && rs[k].input.value[0] == None then
                   && NormalForm(rs)[k].loops == rs[k].loops + 1
                   && NormalForm(rs)[k].input == Some([Some(1)] + rs[k].input.value[1..])
                 else NormalForm(rs)[k].loops == rs[k].loops && NormalForm(rs)[k].input == rs[k].input
  {
    forall k | 0 <= k < |rs| && rs[k].input.Some? && |rs[k].input.value| > 0
      ensures rs[k].input.value[0 := Some(1)] == [Some(1)] + rs[k].input.value[1..]
    {
    }
  }

  lemma {:induction false} ReplaceWork(rs: seq<RescaleOp>, k: nat, r: RescaleOp)
    requires k < |rs|
    ensures TotalWork(rs[k := r]) == TotalWork(rs) - Work(rs[k]) + Work(r)
  {
    var last := |rs| - 1;
    if k == last {
      assert rs[k := r][..last] == rs[..last];
    } else {
      assert rs[k := r][..last] == rs[..last][k := r];
      ReplaceWork(rs[..last], k, r);
    }
  }

  // Every step does one unit of work and leaves the normal form alone.
  lemma StepDoesOne(a: seq<RescaleOp>, b: seq<RescaleOp>)
    requires Step(a, b)
    ensures TotalWork(b) == TotalWork(a) - 1 && NormalForm(b) == NormalForm(a)
  {
    var k :| 0 <= k < |a| && StepAt(a, b, k);
    ReplaceWork(a, k, b[k]);
    assert Normal(b[k]) == Normal(a[k]);
  }

  lemma StuckIsNormal(rs: seq<RescaleOp>)
    ensures Stuck(rs) ==> NormalForm(rs) == rs
    ensures Stuck(NormalForm(rs))
  {
  }

  // A run of the driver, in any order.
  ghost predicate IsRun(run: seq<seq<RescaleOp>>) {
    |run| > 0 && forall i :: 0 <= i < |run| - 1 ==> Step(run[i], run[i + 1])
  }

  // No run takes more steps than there is work, and every run that cannot go on has
  // done all the work and ends in the one normal form.
  lemma {:induction false} RunsEndInNormalForm(run: seq<seq<RescaleOp>>)
    requires IsRun(run)
    ensures var first, last := run[0], run[|run| - 1];
            && |run| - 1 + TotalWork(last) == TotalWork(first)
            && NormalForm(last) == NormalForm(first)
            && (Stuck(last) ==> last == NormalForm(first) && TotalWork(last) == 0)
  {
    var last := run[|run| - 1];
    if |run| > 1 {
      var shorter := run[..|run| - 1];
      assert forall i :: 0 <= i < |shorter| ==> shorter[i] == run[i];
      RunsEndInNormalForm(shorter);
      StepDoesOne(run[|run| - 2], run[|run| - 1]);
    }
    StuckIsNormal(last);
    if Stuck(last) {
      StuckHasNoWork(last);
    }
  }

  lemma {:induction false} StuckHasNoWork(rs: seq<RescaleOp>)
    requires Stuck(rs)
    ensures TotalWork(rs) == 0
  {
    if rs != [] {
      StuckHasNoWork(rs[..|rs| - 1]);
    }
  }

  // applyPatternsGreedily: whichever op and pattern come next, it ends, and with the
  // same result.
  method Normalize(rs: seq<RescaleOp>) returns (r: seq<RescaleOp>)
    ensures r == NormalForm(rs) && Stuck(r)
    ensures forall k :: 0 <= k < |rs| ==>
              && !r[k].doubleRound
              && if rs[k].input.Some? && |rs[k].input.value| > 0 && rs[k].input.value[0] == None then
                   r[k].loops == rs[k].loops + 1 && r[k].input == Some([Some(1)] + rs[k].input.value[1..])
                 else r[k].loops == rs[k].loops && r[k].input == rs[k].input
  {
    r := rs;
    while exists k :: 0 <= k < |r| && (DoubleRound(r[k]) || DynamicBatch(r[k]))
      invariant NormalForm(r) == NormalForm(rs)
      decreases TotalWork(r)
    {
      var k :| 0 <= k < |r| && (DoubleRound(r[k]) || DynamicBatch(r[k]));
      var roundFirst: bool := *;
      var next := if DoubleRound(r[k]) && (roundFirst || !DynamicBatch(r[k])) then RoundOnce(r[k]) else LoopOverBatch(r[k]);
      assert StepAt(r, r[k := next], k);
      StepDoesOne(r, r[k := next]);
      r := r[k := next];
    }
    StuckIsNormal(r);
    NormalMeans(rs);
  }
}
