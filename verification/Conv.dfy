// FuseConv2DPass.cpp: a quantized convolution becomes a call of the centered GEMM on
// its operands collapsed to two dimensions.
module Conv {
  import opened Gemm
  import opened Status
  import opened Tensors

  // A tensor value, row-major.
  datatype Tensor = Tensor(shape: Shape, data: seq<int>) {
    predicate Valid() {
      |data| == Elements(shape)
    }

    // The element at an index of the tensor, and zero elsewhere.
    function At(index: Index): (r: int)
      requires Valid()
    {
      if InShape(index, shape) then
        FlatIndexInRange(shape, index);
        data[FlatIndex(shape, index)]
      else 0
    }
  }

  // The tensor of the given shape with these elements.
  function Tabulate(shape: Shape, element: Index -> int): (t: Tensor)
    ensures t.shape == shape && t.Valid()
    ensures forall index :: InShape(index, shape) ==> t.At(index) == element(index)
  {
    var t := Tensor(shape, seq(Elements(shape), p requires 0 <= p < Elements(shape) => element(Unflatten(shape, p))));
    TabulatedElements(t, element);
    t
  }

  lemma TabulatedElements(t: Tensor, element: Index -> int)
    requires t.Valid() && forall p :: 0 <= p < |t.data| ==> t.data[p] == element(Unflatten(t.shape, p))
    ensures forall index :: InShape(index, t.shape) ==> t.At(index) == element(index)
  {
    forall index | InShape(index, t.shape)
      ensures t.At(index) == element(index)
    {
      FlatIndexInRange(t.shape, index);
      var k := FlatIndex(t.shape, index);
      FlatIndexInjective(t.shape, index, Unflatten(t.shape, k));
    }
  }

  // ---- linalg.transpose ----

  predicate IsPermutation(perm: seq<nat>) {
    && |perm| == 4 && (forall k :: 0 <= k < 4 ==> perm[k] < 4)
    && forall j, k :: 0 <= j < k < 4 ==> perm[j] != perm[k]
  }

  // Where dimension d of the input goes.
  function PositionOf(perm: seq<nat>, d: nat): (k: nat)
    requires IsPermutation(perm) && d < 4
    ensures k < 4 && perm[k] == d
  {
    if perm[0] == d then 0 else if perm[1] == d then 1 else if perm[2] == d then 2 else 3
  }

  // The input index of a result index: index[perm[k]] of the input is index k.
  function SourceIndex(perm: seq<nat>, index: Index): (r: Index)
    requires IsPermutation(perm) && |index| == 4
    ensures |r| == 4 && forall k :: 0 <= k < 4 ==> r[perm[k]] == index[k]
  {
    [index[PositionOf(perm, 0)], index[PositionOf(perm, 1)], index[PositionOf(perm, 2)], index[PositionOf(perm, 3)]]
  }

  function TransposedShape(shape: Shape, perm: seq<nat>): (r: Shape)
    requires IsPermutation(perm) && |shape| == 4
    ensures |r| == 4 && forall k :: 0 <= k < 4 ==> r[k] == shape[perm[k]]
  {
    [shape[perm[0]], shape[perm[1]], shape[perm[2]], shape[perm[3]]]
  }

  // w is the transpose of the source: element i of w is the source's at SourceIndex.
  ghost predicate IsTranspose(w: Tensor, source: Tensor, perm: seq<nat>) {
    && w.Valid() && source.Valid() && |source.shape| == 4 && IsPermutation(perm)
    && w.shape == TransposedShape(source.shape, perm)
    && forall index :: InShape(index, w.shape) ==> w.At(index) == source.At(SourceIndex(perm, index))
  }

  // ---- linalg.conv_2d_nhwc_hwcf_q ----

  // The window of one result element: its batch, the first row and column it reads,
  // and its feature.
  datatype Window = Window(n: nat, row: nat, column: nat, feature: nat, rowStep: nat, columnStep: nat)

  // Sum over the first c channels at (kh, kw) of the filter.
  function SumChannels(x: Tensor, w: Tensor, zx: int, zw: int, at: Window, kh: nat, kw: nat, c: nat): (r: int)
    requires x.Valid() && w.Valid()
  {
    if c == 0 then 0
    else
      SumChannels(x, w, zx, zw, at, kh, kw, c - 1)
      + (x.At([at.n, at.row + kh * at.rowStep, at.column + kw * at.columnStep, c - 1]) - zx)
        * (w.At([kh, kw, c - 1, at.feature]) - zw)
  }

  function SumColumns(x: Tensor, w: Tensor, zx: int, zw: int, at: Window, kh: nat, kw: nat): (r: int)
    requires x.Valid() && w.Valid() && |w.shape| == 4
  {
    if kw == 0 then 0
    else SumColumns(x, w, zx, zw, at, kh, kw - 1) + SumChannels(x, w, zx, zw, at, kh, kw - 1, w.shape[2])
  }

  function SumRows(x: Tensor, w: Tensor, zx: int, zw: int, at: Window, kh: nat): (r: int)
    requires x.Valid() && w.Valid() && |w.shape| == 4
  {
    if kh == 0 then 0
    else SumRows(x, w, zx, zw, at, kh - 1) + SumColumns(x, w, zx, zw, at, kh - 1, w.shape[1])
  }

  // Element `index` of the result: y there plus the sum over its window.
  function ConvElement(x: Tensor, w: Tensor, y: Tensor, zx: int, zw: int, strides: seq<nat>, dilations: seq<nat>, index: Index)
    : (r: int)
    requires x.Valid() && w.Valid() && y.Valid() && |w.shape| == 4 && |strides| == |dilations| == 2 && |index| == 4
  {
    I32(y.At(index) + SumRows(x, w, zx, zw, WindowOf(index, strides, dilations), w.shape[0]))
  }

  // The result of the op.
  function ConvResult(x: Tensor, w: Tensor, y: Tensor, zx: int, zw: int, strides: seq<nat>, dilations: seq<nat>): (r: Tensor)
    requires x.Valid() && w.Valid() && y.Valid() && |w.shape| == |y.shape| == 4 && |strides| == |dilations| == 2
    ensures r.Valid() && r.shape == y.shape
  {
    Tabulate(y.shape, index => if |index| != 4 then 0 else ConvElement(x, w, y, zx, zw, strides, dilations, index))
  }

  function WindowOf(index: Index, strides: seq<nat>, dilations: seq<nat>): (r: Window)
    requires |index| == 4 && |strides| == |dilations| == 2
  {
    Window(index[0], index[1] * strides[0], index[2] * strides[1], index[3], dilations[0], dilations[1])
  }

  // How many places a filter of k elements has along a dimension.
  function Places(size: nat, k: nat, stride: nat, dilation: nat): (r: nat) {
    if k == 0 || stride == 0 || size < (k - 1) * dilation + 1 then 0
    else (size - (k - 1) * dilation - 1) / stride + 1
  }

  // ---- The pattern ----

  // A ranked tensor type; a dynamic size is None.
  datatype TensorType = TensorType(dims: seq<Option<nat>>, bits: nat)

  // A zero point operand: its integer width, and its value when it is defined by a
  // constant op with an integer attribute.
  datatype ZeroPoint = ZeroPoint(bits: nat, value: Option<int>)

  datatype WeightSource = TransposeOf(permutation: seq<nat>) | OtherSource

  datatype ConvOp = ConvOp(x: TensorType, w: TensorType, y: TensorType, zx: ZeroPoint, zw: ZeroPoint,
                           strides: Option<seq<nat>>, dilations: Option<seq<nat>>, weights: WeightSource)

  datatype Analysis = Analysis(zx: int, zw: int, inChan: nat, permutation: seq<nat>)

  predicate AllOnes(values: Option<seq<nat>>) {
    values.Some? && forall v :: v in values.value ==> v == 1
  }

  predicate IsOne(size: Option<nat>) {
    size == Some(1)
  }

  predicate WellTyped(op: ConvOp) {
    && |op.x.dims| == |op.w.dims| == |op.y.dims| == 4
    && (op.weights.TransposeOf? ==> IsPermutation(op.weights.permutation))
  }

  // isMatmulEquivalent
  function IsMatmulEquivalent(op: ConvOp): (r: Option<Analysis>)
    requires WellTyped(op)
  {
    if op.zx.bits != 32 || op.zx.value.None? || op.zw.bits != 32 || op.zw.value.None? then None
    else if !AllOnes(op.strides) || !AllOnes(op.dilations) then None
    else if op.w.bits != 8 || !IsOne(op.w.dims[0]) || !IsOne(op.w.dims[1]) then None
    else if op.w.dims[2].None? || op.w.dims[2].value > 0xFFFF then None
    else if op.x.bits != 8 || !IsOne(op.x.dims[1]) || !IsOne(op.x.dims[2]) then None
    else if op.y.bits != 32 || op.weights.OtherSource? then None
    else if op.weights.permutation[3] >= op.weights.permutation[2] then None
    else Some(Analysis(I32(op.zx.value.value), I32(op.zw.value.value), op.w.dims[2].value, op.weights.permutation))
  }

  // The ordinary case is matched: one by one filters and images of any batch and feature
  // sizes, with the weights transposed from features-first with the channels last.
  lemma OrdinaryConvIsMatched(n: Option<nat>, c: nat, f: Option<nat>, zx: int, zw: int)
    requires c <= 0xFFFF && -0x8000_0000 <= zx < 0x8000_0000 && -0x8000_0000 <= zw < 0x8000_0000
    ensures var op := ConvOp(TensorType([n, Some(1), Some(1), Some(c)], 8), TensorType([Some(1), Some(1), Some(c), f], 8),
                             TensorType([n, Some(1), Some(1), f], 32), ZeroPoint(32, Some(zx)), ZeroPoint(32, Some(zw)),
                             Some([1, 1]), Some([1, 1]), TransposeOf([1, 2, 3, 0]));
            WellTyped(op) && IsMatmulEquivalent(op) == Some(Analysis(zx, zw, c, [1, 2, 3, 0]))
  {
  }

  predicate HasType(t: Tensor, type_: TensorType) {
    t.Valid() && |t.shape| == |type_.dims|
    && forall i :: 0 <= i < |t.shape| ==> type_.dims[i].None? || t.shape[i] == type_.dims[i].value
  }

  // Operands the op can have when it runs.
  predicate Fits(op: ConvOp, x: Tensor, w: Tensor, y: Tensor) {
    && WellTyped(op) && HasType(x, op.x) && HasType(w, op.w) && HasType(y, op.y)
    && op.strides.Some? && op.dilations.Some? && |op.strides.value| == |op.dilations.value| == 2
    && x.shape[3] == w.shape[2] && y.shape[0] == x.shape[0] && y.shape[3] == w.shape[3]
    && y.shape[1] == Places(x.shape[1], w.shape[0], op.strides.value[0], op.dilations.value[0])
    && y.shape[2] == Places(x.shape[2], w.shape[1], op.strides.value[1], op.dilations.value[1])
  }

  // ---- The rewrite ----

  // collapseTo2D: dimensions 0, 1 and 2 are merged.
  function Collapse(t: Tensor, element: ElementType): (v: View)
    requires t.Valid() && |t.shape| == 4
    ensures |v.dims| == 2 && ViewValid(v)
  {
    CollapsedSize(t.shape);
    View([t.shape[0] * t.shape[1] * t.shape[2], t.shape[3]], element, t.data)
  }

  lemma CollapsedSize(s: Shape)
    requires |s| == 4
    ensures Elements(s) == s[0] * s[1] * s[2] * s[3]
  {
    assert Elements(s[1..][1..][1..][1..]) == 1;
    assert Elements(s[1..][1..][1..]) == s[3];
    assert Elements(s[1..][1..]) == s[2] * s[3];
    assert Elements(s[1..]) == s[1] * (s[2] * s[3]);
    Associate(s[0], s[1], s[2], s[3]);
  }

  lemma Associate(a: nat, b: nat, c: nat, d: nat)
    ensures a * (b * (c * d)) == a * b * c * d
  {
  }

  lemma FlatIndexOfFour(s: Shape, i: Index)
    requires |s| == |i| == 4
    ensures FlatIndex(s, i) == i[0] * (s[1] * (s[2] * s[3])) + (i[1] * (s[2] * s[3]) + (i[2] * s[3] + i[3]))
  {
    var s1, i1 := s[1..], i[1..];
    var s2, i2 := s1[1..], i1[1..];
    var s3, i3 := s2[1..], i2[1..];
    assert s3[1..] == [] && i3[1..] == [];
    assert Elements(s3) == s[3] * 1 && Elements(s2) == s[2] * s[3] && Elements(s1) == s[1] * (s[2] * s[3]);
    assert FlatIndex(s3, i3) == i[3] * 1 + 0;
    assert FlatIndex(s2, i2) == i[2] * s[3] + i[3];
    assert FlatIndex(s1, i1) == i[1] * (s[2] * s[3]) + (i[2] * s[3] + i[3]);
  }

  // A dimension that is neither the channels' nor the features' is a unit dimension.
  lemma UnitDimension(s: Shape, perm: seq<nat>, c: nat, f: nat, d: nat)
    requires |s| == 4 && IsPermutation(perm) && s[perm[0]] == 1 && s[perm[1]] == 1
    requires d < 4 && d != perm[2] && d != perm[3]
    ensures s[d] == 1 && SourceIndex(perm, [0, 0, c, f])[d] == 0
  {
    var k := PositionOf(perm, d);
    assert SourceIndex(perm, [0, 0, c, f])[perm[k]] == [0, 0, c, f][k];
  }

  // s and i have just the values given at dimensions p < q, and are 1 and 0 elsewhere.
  predicate OnlyAt(s: Shape, i: Index, p: nat, q: nat, rows: nat, columns: nat, row: nat, column: nat) {
    && |s| == |i| == 4 && p < q < 4 && s[p] == rows && s[q] == columns && i[p] == row && i[q] == column
    && forall d :: 0 <= d < 4 && d != p && d != q ==> s[d] == 1 && i[d] == 0
  }

  lemma OnlyTwoDimensions(s: Shape, i: Index, p: nat, q: nat, rows: nat, columns: nat, row: nat, column: nat)
    requires OnlyAt(s, i, p, q, rows, columns, row, column)
    ensures FlatIndex(s, i) == row * columns + column
    ensures s[3] == columns <==> q == 3 || columns == 1
    ensures s[3] == columns ==> s[0] * s[1] * s[2] == rows
  {
    hide FlatIndex;
    FlatIndexOfFour(s, i);
  }

  // With height and width one and features before channels, the weights are rows of
  // channels, wherever the unit dimensions are. Merging all dimensions but the last
  // gives those rows exactly when the channels were last or there is one channel.
  lemma SourceLayout(s: Shape, perm: seq<nat>, c: nat, f: nat)
    requires |s| == 4 && IsPermutation(perm) && perm[3] < perm[2] && s[perm[0]] == 1 && s[perm[1]] == 1
    ensures FlatIndex(s, SourceIndex(perm, [0, 0, c, f])) == f * s[perm[2]] + c
    ensures c < s[perm[2]] && f < s[perm[3]] ==> InShape(SourceIndex(perm, [0, 0, c, f]), s)
    ensures s[3] == s[perm[2]] <==> perm[2] == 3 || s[perm[2]] == 1
    ensures s[3] == s[perm[2]] ==> s[0] * s[1] * s[2] == s[perm[3]]
  {
    hide FlatIndex;
    var i := SourceIndex(perm, [0, 0, c, f]);
    forall d | 0 <= d < 4 && d != perm[2] && d != perm[3]
      ensures s[d] == 1 && i[d] == 0
    {
      UnitDimension(s, perm, c, f, d);
    }
    assert i[perm[2]] == c && i[perm[3]] == f by {
      assert [0, 0, c, f][2] == c && [0, 0, c, f][3] == f;
    }
    hide SourceIndex;
    OnlyTwoDimensions(s, i, perm[3], perm[2], s[perm[3]], s[perm[2]], f, c);
  }

  // The operands of the call.
  datatype Call = Call(x: View, w: View, y: View)

  function Rewrite(x: Tensor, source: Tensor, y: Tensor): (call: Call)
    requires x.Valid() && source.Valid() && y.Valid() && |x.shape| == |source.shape| == |y.shape| == 4
    ensures |call.x.dims| == |call.w.dims| == |call.y.dims| == 2
    ensures ViewValid(call.x) && ViewValid(call.w) && ViewValid(call.y)
  {
    Call(Collapse(x, Int8), Collapse(source, Int8), Collapse(y, Int32))
  }

  // The pattern applies, and these are its operands when it runs; the weights w are
  // the transpose of `source`.
  ghost predicate IsRewritten(op: ConvOp, x: Tensor, w: Tensor, source: Tensor, y: Tensor) {
    && WellTyped(op) && IsMatmulEquivalent(op).Some? && op.weights.TransposeOf?
    && Fits(op, x, w, y) && IsTranspose(w, source, op.weights.permutation)
  }

  lemma OnesOfLengthTwo(values: Option<seq<nat>>)
    requires AllOnes(values) && |values.value| == 2
    ensures values == Some([1, 1])
  {
    assert values.value[0] in values.value && values.value[1] in values.value;
    assert values.value == [1, 1];
  }

  lemma MatchedSizes(op: ConvOp, x: Tensor, w: Tensor, y: Tensor)
    requires WellTyped(op) && IsMatmulEquivalent(op).Some? && Fits(op, x, w, y)
    ensures |x.shape| == |w.shape| == |y.shape| == 4
    ensures op.strides == Some([1, 1]) && op.dilations == Some([1, 1])
    ensures op.weights.TransposeOf? && op.weights.permutation[3] < op.weights.permutation[2]
    ensures x.shape[1] == x.shape[2] == 1 && w.shape[0] == w.shape[1] == 1 && y.shape[1] == y.shape[2] == 1
    ensures y.shape[0] == x.shape[0] && y.shape[3] == w.shape[3] && x.shape[3] == w.shape[2]
    ensures IsMatmulEquivalent(op).value.inChan == w.shape[2]
  {
    OnesOfLengthTwo(op.strides);
    OnesOfLengthTwo(op.dilations);
    hide Elements;
  }

  // Shapes of a pointwise convolution whose weights, with features before channels,
  // are transposed by `perm`.
  predicate Pointwise(x: Shape, source: Shape, y: Shape, perm: seq<nat>) {
    && |x| == |source| == |y| == 4 && IsPermutation(perm) && perm[3] < perm[2]
    && source[perm[0]] == 1 && source[perm[1]] == 1
    && x[1] == x[2] == 1 && y[1] == y[2] == 1 && y[0] == x[0]
    && x[3] == source[perm[2]] && y[3] == source[perm[3]]
  }

  lemma RewrittenShapes(op: ConvOp, x: Tensor, w: Tensor, source: Tensor, y: Tensor)
    requires IsRewritten(op, x, w, source, y)
    ensures x.Valid() && y.Valid() && op.weights.TransposeOf?
    ensures Pointwise(x.shape, source.shape, y.shape, op.weights.permutation)
    ensures op.strides == Some([1, 1]) && op.dilations == Some([1, 1])
    ensures w.shape == [1, 1, x.shape[3], y.shape[3]]
    ensures IsMatmulEquivalent(op).value.inChan == x.shape[3]
  {
    hide Elements, IsMatmulEquivalent;
    MatchedSizes(op, x, w, y);
  }

  // my_centered_gemm takes the collapsed operands exactly when the channels were the
  // last dimension of the weight source, or there is one channel; the pattern does
  // not check this.
  lemma CollapsedIsAcceptedIff(op: ConvOp, x: Tensor, w: Tensor, source: Tensor, y: Tensor)
    requires IsRewritten(op, x, w, source, y)
    ensures var call := Rewrite(x, source, y);
            Acceptable(call.x, call.w, |call.y.dims|, call.y.element)
            <==> op.weights.permutation[2] == 3 || IsMatmulEquivalent(op).value.inChan == 1
  {
    hide IsTranspose, Fits, SourceIndex, FlatIndex, IsMatmulEquivalent, Elements;
    RewrittenShapes(op, x, w, source, y);
    SourceLayout(source.shape, op.weights.permutation, 0, 0);
  }

  // [1, 2, 3, 0] and [1, 3, 2, 0] both put features before channels; only the first
  // leaves the channels last.
  lemma ChannelsNotLastAreRejected(op: ConvOp, x: Tensor, w: Tensor, source: Tensor, y: Tensor)
    requires IsRewritten(op, x, w, source, y)
    requires op.weights.permutation == [1, 3, 2, 0] && IsMatmulEquivalent(op).value.inChan == 2
    ensures var call := Rewrite(x, source, y);
            !Acceptable(call.x, call.w, |call.y.dims|, call.y.element)
  {
    CollapsedIsAcceptedIff(op, x, w, source, y);
  }

  // A convolution of one pixel and two channels whose weights are so transposed.
  const UNLUCKY: ConvOp :=
    ConvOp(TensorType([Some(1), Some(1), Some(1), Some(2)], 8), TensorType([Some(1), Some(1), Some(2), Some(1)], 8),
           TensorType([Some(1), Some(1), Some(1), Some(1)], 32), ZeroPoint(32, Some(0)), ZeroPoint(32, Some(0)),
           Some([1, 1]), Some([1, 1]), TransposeOf([1, 3, 2, 0]))

  function Zeros(shape: Shape): (t: Tensor)
    ensures t.Valid() && t.shape == shape
  {
    Tensor(shape, seq(Elements(shape), _ => 0))
  }

  lemma ZerosAt(shape: Shape, index: Index)
    ensures Zeros(shape).At(index) == 0
  {
    if InShape(index, shape) {
      FlatIndexInRange(shape, index);
    }
  }

  lemma ZerosTransposed(shape: Shape, perm: seq<nat>)
    requires |shape| == 4 && IsPermutation(perm)
    ensures IsTranspose(Zeros(TransposedShape(shape, perm)), Zeros(shape), perm)
  {
    hide TransposedShape, SourceIndex, Elements;
    var w := Zeros(TransposedShape(shape, perm));
    forall index | InShape(index, w.shape)
      ensures w.At(index) == Zeros(shape).At(SourceIndex(perm, index))
    {
      ZerosAt(w.shape, index);
      ZerosAt(shape, SourceIndex(perm, index));
    }
  }

  lemma UnluckyFits()
    ensures WellTyped(UNLUCKY)
    ensures Fits(UNLUCKY, Zeros([1, 1, 1, 2]), Zeros([1, 1, 2, 1]), Zeros([1, 1, 1, 1]))
  {
    hide Elements;
    assert Places(1, 1, 1, 1) == 1;
  }

  // It is matched, and rejected when it runs.
  lemma UnluckyIsMatchedAndRejected()
    ensures var x, w, source, y := Zeros([1, 1, 1, 2]), Zeros([1, 1, 2, 1]), Zeros([1, 1, 2, 1]), Zeros([1, 1, 1, 1]);
            && IsRewritten(UNLUCKY, x, w, source, y)
            && var call := Rewrite(x, source, y);
            !Acceptable(call.x, call.w, |call.y.dims|, call.y.element)
  {
    hide Elements, FlatIndex, Fits, Zeros, IsTranspose;
    UnluckyFits();
    ZerosTransposed([1, 1, 2, 1], [1, 3, 2, 0]);
    assert TransposedShape([1, 1, 2, 1], [1, 3, 2, 0]) == [1, 1, 2, 1];
    ChannelsNotLastAreRejected(UNLUCKY, Zeros([1, 1, 1, 2]), Zeros([1, 1, 2, 1]), Zeros([1, 1, 2, 1]), Zeros([1, 1, 1, 1]));
  }

  // ---- What the call computes ----

  // The channel sum of a pointwise window is the dot product of two rows.
  lemma {:induction false} ChannelsAreDot(x: Tensor, w: Tensor, zx: int, zw: int, n: nat, f: nat, c: nat,
                                          xRow: seq<int>, wRow: seq<int>)
    requires x.Valid() && w.Valid() && c <= |xRow| == |wRow|
    requires forall k :: 0 <= k < |xRow| ==> x.At([n, 0, 0, k]) == xRow[k] && w.At([0, 0, k, f]) == wRow[k]
    ensures SumChannels(x, w, zx, zw, Window(n, 0, 0, f, 1, 1), 0, 0, c) == Dot(xRow, wRow, c, zx, zw)
  {
    if c != 0 {
      ChannelsAreDot(x, w, zx, zw, n, f, c - 1, xRow, wRow);
    }
  }

  // A one by one filter has a single place.
  lemma SinglePlace(x: Tensor, w: Tensor, zx: int, zw: int, at: Window)
    requires x.Valid() && w.Valid() && |w.shape| == 4 && w.shape[0] == w.shape[1] == 1
    ensures SumRows(x, w, zx, zw, at, 1) == SumChannels(x, w, zx, zw, at, 0, 0, w.shape[2])
  {
    assert SumRows(x, w, zx, zw, at, 0) == 0;
    assert SumColumns(x, w, zx, zw, at, 0, 0) == 0;
    assert SumColumns(x, w, zx, zw, at, 0, 1) == SumChannels(x, w, zx, zw, at, 0, 0, w.shape[2]);
  }

  // Row n of a collapsed pointwise tensor.
  lemma CollapsedRow(t: Tensor, m: Matrix, n: nat, c: nat)
    requires t.Valid() && |t.shape| == 4 && t.shape[1] == t.shape[2] == 1 && n < t.shape[0] && c < t.shape[3]
    requires m == Matrix(t.shape[0], t.shape[3], t.data) && m.Valid()
    ensures t.At([n, 0, 0, c]) == m.Row(n)[c]
  {
    hide FlatIndex;
    var i := [n, 0, 0, c];
    FlatIndexInRange(t.shape, i);
    FlatIndexOfFour(t.shape, i);
    RowBounds(n, m.rows, m.cols);
    assert FlatIndex(t.shape, i) == n * t.shape[3] + c;
  }

  // Row f of the collapsed weights, in the transposed weights.
  lemma CollapsedWeightRow(w: Tensor, source: Tensor, perm: seq<nat>, m: Matrix, f: nat, c: nat)
    requires IsTranspose(w, source, perm) && perm[3] < perm[2]
    requires w.shape == [1, 1, m.cols, m.rows] && f < m.rows && c < m.cols
    requires m.data == source.data && m.Valid()
    ensures w.At([0, 0, c, f]) == m.Row(f)[c]
  {
    hide FlatIndex, SourceIndex, Elements;
    var i := [0, 0, c, f];
    SourceLayout(source.shape, perm, c, f);
    FlatIndexInRange(source.shape, SourceIndex(perm, i));
    RowBounds(f, m.rows, m.cols);
    assert InShape(i, w.shape);
  }

  // The sum over the window of a result element is the dot product of row n of the
  // collapsed input and row f of the collapsed weights.
  lemma WindowIsDot(x: Tensor, w: Tensor, source: Tensor, perm: seq<nat>, zx: int, zw: int, n: nat, f: nat, X: Matrix, W: Matrix)
    requires x.Valid() && IsTranspose(w, source, perm) && perm[3] < perm[2]
    requires x.shape == [X.rows, 1, 1, X.cols] && w.shape == [1, 1, W.cols, W.rows] && X.cols == W.cols
    requires n < X.rows && f < W.rows
    requires X.data == x.data && X.Valid() && W.data == source.data && W.Valid()
    ensures SumRows(x, w, zx, zw, Window(n, 0, 0, f, 1, 1), 1) == Dot(X.Row(n), W.Row(f), X.cols, zx, zw)
  {
    hide SumRows, SumColumns, SumChannels, Dot, Elements, IsPermutation, Span, InShape;
    SinglePlace(x, w, zx, zw, Window(n, 0, 0, f, 1, 1));
    hide IsTranspose;
    forall k | 0 <= k < X.cols
      ensures x.At([n, 0, 0, k]) == X.Row(n)[k] && w.At([0, 0, k, f]) == W.Row(f)[k]
    {
      CollapsedRow(x, X, n, k);
      CollapsedWeightRow(w, source, perm, W, f, k);
    }
    ChannelsAreDot(x, w, zx, zw, n, f, X.cols, X.Row(n), W.Row(f));
  }

  // Word p of the collapsed result is element (p / F, 0, 0, p % F).
  lemma PointwiseIndex(shape: Shape, p: nat)
    requires |shape| == 4 && shape[1] == shape[2] == 1 && p < Elements(shape)
    ensures var i := Unflatten(shape, p);
            |i| == 4 && i[0] < shape[0] && i[1] == i[2] == 0 && i[3] < shape[3] && p == i[0] * shape[3] + i[3]
  {
    hide FlatIndex, Elements, Unflatten;
    FlatIndexOfFour(shape, Unflatten(shape, p));
  }

  // Element (n, 0, 0, f) of the convolution is y plus cell (n, f) of the product.
  lemma ElementIsCell(x: Tensor, w: Tensor, source: Tensor, y: Tensor, perm: seq<nat>, zx: int, zw: int, index: Index,
                      X: Matrix, W: Matrix)
    requires x.Valid() && y.Valid() && IsTranspose(w, source, perm) && perm[3] < perm[2]
    requires x.shape == [X.rows, 1, 1, X.cols] && w.shape == [1, 1, W.cols, W.rows] && X.cols == W.cols
    requires X.data == x.data && X.Valid() && W.data == source.data && W.Valid()
    requires |index| == 4 && index[0] < X.rows && index[1] == index[2] == 0 && index[3] < W.rows
    ensures ConvElement(x, w, y, zx, zw, [1, 1], [1, 1], index) == I32(y.At(index) + Cell(X, W, zx, zw, index[0], index[3]))
  {
    hide I32, SumRows, Dot, IsTranspose, Elements, InShape, Span;
    WindowIsDot(x, w, source, perm, zx, zw, index[0], index[3], X, W);
    assert WindowOf(index, [1, 1], [1, 1]) == Window(index[0], 0, 0, index[3], 1, 1);
    var dot := Dot(X.Row(index[0]), W.Row(index[3]), X.cols, zx, zw);
    I32Adds(dot, y.At(index));
    assert I32(dot) + y.At(index) == y.At(index) + I32(dot) && dot + y.At(index) == y.At(index) + dot;
  }

  // Every word of the result: the convolution is y plus the product of the collapsed
  // operands, for all batch, channel and feature sizes.
  lemma ConvIsProduct(x: Tensor, w: Tensor, source: Tensor, y: Tensor, perm: seq<nat>, zx: int, zw: int,
                      X: Matrix, W: Matrix, p: nat)
    requires x.Valid() && y.Valid() && IsTranspose(w, source, perm) && perm[3] < perm[2]
    requires x.shape == [X.rows, 1, 1, X.cols] && w.shape == [1, 1, W.cols, W.rows] && X.cols == W.cols
    requires X.data == x.data && X.Valid() && W.data == source.data && W.Valid()
    requires y.shape == [X.rows, 1, 1, W.rows] && p < |y.data|
    ensures p < |Product(X, W, zx, zw, X.rows)|
    ensures ConvResult(x, w, y, zx, zw, [1, 1], [1, 1]).data[p] == I32(y.data[p] + Product(X, W, zx, zw, X.rows)[p])
  {
    hide I32, Product, ConvElement, Cell, Elements, FlatIndex, Unflatten;
    PointwiseIndex(y.shape, p);
    var i := Unflatten(y.shape, p);
    ElementIsCell(x, w, source, y, perm, zx, zw, i, X, W);
    ProductAt(X, W, zx, zw, X.rows, i[0], i[3]);
    SpanIs(i[0], W.rows);
    var r := ConvResult(x, w, y, zx, zw, [1, 1], [1, 1]);
    assert y.At(i) == y.data[p];
    assert r.At(i) == r.data[p];
  }

  lemma SpanIs(n: nat, cols: nat)
    ensures Span(n, cols) == n * cols
  {
  }

  lemma ResultIsConv(x: Tensor, w: Tensor, source: Tensor, y: Tensor, perm: seq<nat>, zx: int, zw: int, X: Matrix, W: Matrix,
                     data: seq<int>)
    requires x.Valid() && y.Valid() && IsTranspose(w, source, perm) && perm[3] < perm[2]
    requires x.shape == [X.rows, 1, 1, X.cols] && w.shape == [1, 1, W.cols, W.rows] && X.cols == W.cols
    requires X.data == x.data && X.Valid() && W.data == source.data && W.Valid()
    requires y.shape == [X.rows, 1, 1, W.rows] && |data| == |y.data| == |Product(X, W, zx, zw, X.rows)|
    requires forall p :: 0 <= p < |data| ==> data[p] == I32(y.data[p] + Product(X, W, zx, zw, X.rows)[p])
    ensures Tensor(y.shape, data) == ConvResult(x, w, y, zx, zw, [1, 1], [1, 1])
  {
    hide I32, Product, ConvResult, Elements;
    var conv := ConvResult(x, w, y, zx, zw, [1, 1], [1, 1]);
    forall p | 0 <= p < |data|
      ensures data[p] == conv.data[p]
    {
      ConvIsProduct(x, w, source, y, perm, zx, zw, X, W, p);
    }
    assert data == conv.data;
  }

  lemma {:induction false} ChannelsAreSum(x: Tensor, w: Tensor, zx: int, zw: int, n: nat, f: nat, terms: seq<int>)
    requires x.Valid() && w.Valid()
    requires forall c :: 0 <= c < |terms| ==> terms[c] == (x.At([n, 0, 0, c]) - zx) * (w.At([0, 0, c, f]) - zw)
    ensures SumChannels(x, w, zx, zw, Window(n, 0, 0, f, 1, 1), 0, 0, |terms|) == SumOf(terms)
  {
    if terms != [] {
      ChannelsAreSum(x, w, zx, zw, n, f, terms[..|terms| - 1]);
    }
  }

  lemma PointwiseElement(t: Tensor, i: nat, j: nat, cols: nat)
    requires t.Valid() && |t.shape| == 4 && t.shape[1] == t.shape[2] == 1
    requires i < t.shape[0] && j < t.shape[3] == cols
    ensures i * cols + j < |t.data| && t.At([i, 0, 0, j]) == t.data[i * cols + j]
  {
    hide FlatIndex;
    FlatIndexInRange(t.shape, [i, 0, 0, j]);
    FlatIndexOfFour(t.shape, [i, 0, 0, j]);
  }

  lemma WeightElement(t: Tensor, i: nat, j: nat, cols: nat)
    requires t.Valid() && |t.shape| == 4 && t.shape[0] == t.shape[1] == 1
    requires i < t.shape[2] && j < t.shape[3] == cols
    ensures i * cols + j < |t.data| && t.At([0, 0, i, j]) == t.data[i * cols + j]
  {
    hide FlatIndex;
    FlatIndexInRange(t.shape, [0, 0, i, j]);
    FlatIndexOfFour(t.shape, [0, 0, i, j]);
  }

  // A pointwise convolution, word by word in two's complement: the word of pixel n and
  // feature f is y's plus the products of the centered channels of both.
  lemma ConvMeans(x: Tensor, w: Tensor, y: Tensor, zx: int, zw: int, N: nat, C: nat, F: nat, n: nat, f: nat, terms: seq<int>)
    requires x.Valid() && w.Valid() && y.Valid() && n < N && f < F && |terms| == C
    requires x.shape == [N, 1, 1, C] && w.shape == [1, 1, C, F] && y.shape == [N, 1, 1, F]
    requires forall c :: 0 <= c < C ==>
               && n * C + c < |x.data| && c * F + f < |w.data|
               && terms[c] == (x.data[n * C + c] - zx) * (w.data[c * F + f] - zw)
    ensures n * F + f < |y.data| == |ConvResult(x, w, y, zx, zw, [1, 1], [1, 1]).data|
    ensures var r := ConvResult(x, w, y, zx, zw, [1, 1], [1, 1]).data[n * F + f];
            && -0x8000_0000 <= r < 0x8000_0000
            && (r - (y.data[n * F + f] + SumOf(terms))) % 0x1_0000_0000 == 0
  {
    hide FlatIndex, Elements, I32, ConvResult, SumOf, InShape;
    forall c | 0 <= c < C
      ensures terms[c] == (x.At([n, 0, 0, c]) - zx) * (w.At([0, 0, c, f]) - zw)
    {
      PointwiseElement(x, n, c, C);
      WeightElement(w, c, f, F);
    }
    ConvWord(x, w, y, zx, zw, N, C, F, n, f, terms);
    I32Means(y.data[n * F + f] + SumOf(terms));
  }

  lemma ConvWord(x: Tensor, w: Tensor, y: Tensor, zx: int, zw: int, N: nat, C: nat, F: nat, n: nat, f: nat, terms: seq<int>)
    requires x.Valid() && w.Valid() && y.Valid() && n < N && f < F && |terms| == C
    requires x.shape == [N, 1, 1, C] && w.shape == [1, 1, C, F] && y.shape == [N, 1, 1, F]
    requires forall c :: 0 <= c < C ==> terms[c] == (x.At([n, 0, 0, c]) - zx) * (w.At([0, 0, c, f]) - zw)
    ensures n * F + f < |y.data| == |ConvResult(x, w, y, zx, zw, [1, 1], [1, 1]).data|
    ensures ConvResult(x, w, y, zx, zw, [1, 1], [1, 1]).data[n * F + f] == I32(y.data[n * F + f] + SumOf(terms))
  {
    hide FlatIndex, Elements, I32, ConvResult, SumOf, InShape;
    InPointwiseShape(y.shape, n, f);
    WindowIsSum(x, w, y, zx, zw, n, f, terms);
    PointwiseElement(y, n, f, F);
    PointwiseElement(ConvResult(x, w, y, zx, zw, [1, 1], [1, 1]), n, f, F);
  }

  lemma InPointwiseShape(shape: Shape, i: nat, j: nat)
    requires |shape| == 4 && shape[1] == shape[2] == 1 && i < shape[0] && j < shape[3]
    ensures InShape([i, 0, 0, j], shape)
  {
  }

  lemma WindowIsSum(x: Tensor, w: Tensor, y: Tensor, zx: int, zw: int, n: nat, f: nat, terms: seq<int>)
    requires x.Valid() && w.Valid() && y.Valid() && |w.shape| == |y.shape| == 4 && InShape([n, 0, 0, f], y.shape)
    requires w.shape[0] == w.shape[1] == 1 && w.shape[2] == |terms|
    requires forall c :: 0 <= c < |terms| ==> terms[c] == (x.At([n, 0, 0, c]) - zx) * (w.At([0, 0, c, f]) - zw)
    ensures ConvResult(x, w, y, zx, zw, [1, 1], [1, 1]).At([n, 0, 0, f]) == I32(y.At([n, 0, 0, f]) + SumOf(terms))
  {
    hide FlatIndex, Elements, I32, SumRows, SumColumns, SumChannels, ConvResult, SumOf, InShape;
    ChannelsAreSum(x, w, zx, zw, n, f, terms);
    SinglePlace(x, w, zx, zw, Window(n, 0, 0, f, 1, 1));
    ResultElement(x, w, y, zx, zw, [n, 0, 0, f]);
    assert WindowOf([n, 0, 0, f], [1, 1], [1, 1]) == Window(n, 0, 0, f, 1, 1);
  }

  lemma ResultElement(x: Tensor, w: Tensor, y: Tensor, zx: int, zw: int, index: Index)
    requires x.Valid() && w.Valid() && y.Valid() && |w.shape| == |y.shape| == 4 && InShape(index, y.shape)
    ensures ConvResult(x, w, y, zx, zw, [1, 1], [1, 1]).At(index) == ConvElement(x, w, y, zx, zw, [1, 1], [1, 1], index)
  {
    hide ConvElement;
  }

  // When the collapsed operands are accepted they are the matrices of the product.
  lemma CollapsedMatrices(op: ConvOp, x: Tensor, w: Tensor, source: Tensor, y: Tensor)
    requires IsRewritten(op, x, w, source, y)
    requires op.weights.permutation[2] == 3 || IsMatmulEquivalent(op).value.inChan == 1
    ensures x.Valid() && y.Valid() && op.strides == Some([1, 1]) && op.dilations == Some([1, 1])
    ensures var call := Rewrite(x, source, y);
            var X, W := MatrixOf(call.x), MatrixOf(call.w);
            && X.Valid() && W.Valid() && X.data == x.data && W.data == source.data
            && x.shape == [X.rows, 1, 1, X.cols] && w.shape == [1, 1, W.cols, W.rows] && X.cols == W.cols
            && y.shape == [X.rows, 1, 1, W.rows] && |y.data| == X.rows * W.rows
  {
    hide IsTranspose, Fits, SourceIndex, FlatIndex, IsMatmulEquivalent, Elements;
    RewrittenShapes(op, x, w, source, y);
    SourceLayout(source.shape, op.weights.permutation, 0, 0);
    CollapsedSize(y.shape);
  }

  // What replaces the convolution when it runs: collapse the operands, call
  // my_centered_gemm, expand the result. If the call is accepted and succeeds, the
  // result is the convolution's.
  method OffloadedConv(op: ConvOp, x: Tensor, ghost w: Tensor, source: Tensor, y: Tensor,
                       mapped: Status, mem: array<int>, layout: Layout)
    returns (status: Status, result: Tensor)
    requires IsRewritten(op, x, w, source, y)
    requires var call := Rewrite(x, source, y);
             Acceptable(call.x, call.w, 2, Int32) ==> Allocated(layout, MatrixOf(call.x), MatrixOf(call.w), mem.Length)
    modifies mem
    ensures if op.weights.permutation[2] == 3 || IsMatmulEquivalent(op).value.inChan == 1
            then (if mapped.Ok? then status in {Ok, Error(Internal)} else status == mapped)
            else status == Error(InvalidArgument)
    ensures status.Ok? ==> result == ConvResult(x, w, y, I32(op.zx.value.value), I32(op.zw.value.value),
                                                op.strides.value, op.dilations.value)
  {
    var analysis, call := IsMatmulEquivalent(op).value, Rewrite(x, source, y);
    CollapsedIsAcceptedIff(op, x, w, source, y);
    if op.weights.permutation[2] == 3 || analysis.inChan == 1 {
      CollapsedMatrices(op, x, w, source, y);
    }
    hide Product, ConvResult, Elements, I32, Allocated, Acceptable, Fits;
    var out := new int[|y.data|](k requires 0 <= k < |y.data| => y.data[k]);
    assert out[..] == y.data;
    ghost var issued: seq<(nat, nat)>;
    status, issued := CenteredGemm(call.x, analysis.zx, call.w, analysis.zw, 2, Int32, out, mapped, mem, layout);
    result := Tensor(y.shape, out[..]);
    if status.Ok? {
      ResultIsConv(x, w, source, y, op.weights.permutation, analysis.zx, analysis.zw, MatrixOf(call.x), MatrixOf(call.w),
                   out[..]);
    }
  }
}
