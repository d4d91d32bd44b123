// Row-major layout of tensors of any rank, and which slices of a tensor are
// contiguous.
module Tensors {
  import opened Words

  type Shape = seq<nat>
  type Index = seq<nat>

  function Elements(shape: Shape): (n: nat) {
    if shape == [] then 1 else shape[0] * Elements(shape[1..])
  }

  predicate InShape(index: Index, shape: Shape) {
    |index| == |shape| && forall i :: 0 <= i < |shape| ==> index[i] < shape[i]
  }

  function FlatIndex(shape: Shape, index: Index): (k: nat)
    requires |index| == |shape|
  {
    if shape == [] then 0 else index[0] * Elements(shape[1..]) + FlatIndex(shape[1..], index[1..])
  }

  lemma {:induction false} FlatIndexInRange(shape: Shape, index: Index)
    requires InShape(index, shape)
    ensures FlatIndex(shape, index) < Elements(shape)
  {
    if shape != [] {
      FlatIndexInRange(shape[1..], index[1..]);
      RowInRange(index[0], shape[0], FlatIndex(shape[1..], index[1..]), Elements(shape[1..]));
    }
  }

  lemma RowInRange(i: nat, rows: nat, k: nat, n: nat)
    requires i < rows && k < n
    ensures i * n + k < rows * n
  {
    TimesMonotone(i + 1, rows, n);
    NextMultiple(i, n);
  }

  // The index whose row-major position is k.
  function Unflatten(shape: Shape, k: nat): (index: Index)
    requires k < Elements(shape)
    ensures InShape(index, shape) && FlatIndex(shape, index) == k
  {
    if shape == [] then []
    else
      var at := RowAndColumn(k, shape[0], Elements(shape[1..]));
      var rest := Unflatten(shape[1..], at.1);
      AddsRow(shape, at.0, rest);
      [at.0] + rest
  }

  // Where element k of a matrix is.
  function RowAndColumn(k: nat, rows: nat, n: nat): (at: (nat, nat))
    requires k < rows * n
    ensures at.0 < rows && at.1 < n && at.0 * n + at.1 == k
  {
    DivInRange(k, rows, n);
    (k / n, k % n)
  }

  lemma AddsRow(shape: Shape, row: nat, rest: Index)
    requires shape != [] && row < shape[0] && InShape(rest, shape[1..])
    ensures InShape([row] + rest, shape)
    ensures FlatIndex(shape, [row] + rest) == row * Elements(shape[1..]) + FlatIndex(shape[1..], rest)
  {
    assert ([row] + rest)[1..] == rest;
    assert forall i :: 1 <= i < |shape| ==> shape[i] == shape[1..][i - 1];
  }

  lemma NothingTimesZero(rows: nat, n: nat)
    ensures n == 0 ==> rows * n == 0
  {
  }

  lemma DivInRange(k: nat, rows: nat, n: nat)
    requires k < rows * n
    ensures n > 0 && k / n < rows && k % n < n && k / n * n + k % n == k
  {
    NothingTimesZero(rows, n);
    if k / n >= rows {
      TimesMonotone(rows, k / n, n);
    }
  }

  // Row-major positions are distinct, so flattening loses nothing.
  lemma {:induction false} FlatIndexInjective(shape: Shape, a: Index, b: Index)
    requires InShape(a, shape) && InShape(b, shape) && FlatIndex(shape, a) == FlatIndex(shape, b)
    ensures a == b
  {
    if shape != [] {
      var n := Elements(shape[1..]);
      var x, y := FlatIndex(shape[1..], a[1..]), FlatIndex(shape[1..], b[1..]);
      FlatIndexInRange(shape[1..], a[1..]);
      FlatIndexInRange(shape[1..], b[1..]);
      RowsEqual(a[0], b[0], x, y, n);
      FlatIndexInjective(shape[1..], a[1..], b[1..]);
      assert a == [a[0]] + a[1..] && b == [b[0]] + b[1..];
    }
  }

  lemma RowsEqual(i: nat, j: nat, x: nat, y: nat, n: nat)
    requires x < n && y < n && i * n + x == j * n + y
    ensures i == j && x == y
  {
    if i < j {
      RowInRange(i, j, x, n);
    } else if j < i {
      RowInRange(j, i, y, n);
    }
  }

  // ---- Slices from the origin ----

  predicate Within(sizes: Shape, shape: Shape) {
    |sizes| == |shape| && forall i :: 0 <= i < |sizes| ==> sizes[i] <= shape[i]
  }

  // Every element of the leading block of `sizes` has the same row-major position in
  // the block as in the whole tensor.
  ghost predicate SamePositions(sizes: Shape, shape: Shape)
    requires |sizes| == |shape|
  {
    forall index: Index :: InShape(index, sizes) ==> FlatIndex(shape, index) == FlatIndex(sizes, index)
  }

  // The block is a run of whole rows: after some dimensions of size one, one
  // dimension may be cut, and all the later ones are full.
  predicate LeadingRun(sizes: Shape, shape: Shape)
    requires |sizes| == |shape|
  {
    sizes == [] || sizes[1..] == shape[1..] || (sizes[0] == 1 && LeadingRun(sizes[1..], shape[1..]))
  }

  // On the sizes: dimension r is the one that may be cut.
  lemma {:induction false} LeadingRunMeans(sizes: Shape, shape: Shape)
    requires |sizes| == |shape|
    ensures LeadingRun(sizes, shape) <==>
            sizes == [] || exists r: nat :: r < |sizes| && RunFrom(sizes, shape, r)
  {
    if sizes != [] {
      LeadingRunMeans(sizes[1..], shape[1..]);
      if sizes[1..] == shape[1..] {
        assert forall k :: 0 < k < |sizes| ==> sizes[k] == sizes[1..][k - 1] == shape[1..][k - 1];
        assert RunFrom(sizes, shape, 0);
      }
      if r: nat :| r < |sizes[1..]| && RunFrom(sizes[1..], shape[1..], r) {
        if sizes[0] == 1 {
          assert RunFrom(sizes, shape, r + 1);
        }
      }
      if r: nat :| r < |sizes| && RunFrom(sizes, shape, r) {
        if r == 0 {
          assert sizes[1..] == shape[1..];
        } else {
          assert RunFrom(sizes[1..], shape[1..], r - 1);
        }
      }
    }
  }

  // Ones before dimension r, whole dimensions after it.
  predicate RunFrom(sizes: Shape, shape: Shape, r: nat)
    requires |sizes| == |shape|
  {
    (forall k :: 0 <= k < r && k < |sizes| ==> sizes[k] == 1) && forall k :: r < k < |sizes| ==> sizes[k] == shape[k]
  }

  lemma {:induction false} LeadingRunSamePositions(sizes: Shape, shape: Shape)
    requires |sizes| == |shape| && LeadingRun(sizes, shape)
    ensures SamePositions(sizes, shape)
  {
    if sizes != [] && sizes[1..] != shape[1..] {
      LeadingRunSamePositions(sizes[1..], shape[1..]);
      forall index: Index | InShape(index, sizes)
        ensures FlatIndex(shape, index) == FlatIndex(sizes, index)
      {
        assert InShape(index[1..], sizes[1..]);
        assert index[0] == 0;
      }
    }
  }

  // A nonempty block from the origin is contiguous exactly when it is a leading run.
  lemma {:induction false} ContiguousIff(sizes: Shape, shape: Shape)
    requires Within(sizes, shape) && Elements(sizes) > 0
    ensures SamePositions(sizes, shape) <==> LeadingRun(sizes, shape)
  {
    if LeadingRun(sizes, shape) {
      LeadingRunSamePositions(sizes, shape);
    }
    if SamePositions(sizes, shape) && sizes != [] {
      PositiveFactors(sizes[0], Elements(sizes[1..]));
      TailSamePositions(sizes, shape);
      ContiguousIff(sizes[1..], shape[1..]);
      if sizes[0] > 1 {
        SameElements(sizes, shape);
        EqualElements(sizes[1..], shape[1..]);
      }
    }
  }

  lemma PositiveFactors(a: nat, b: nat)
    requires a * b > 0
    ensures a > 0 && b > 0
  {
  }

  lemma TailSamePositions(sizes: Shape, shape: Shape)
    requires |sizes| == |shape| > 0 && sizes[0] > 0 && SamePositions(sizes, shape)
    ensures SamePositions(sizes[1..], shape[1..])
  {
    forall rest: Index | InShape(rest, sizes[1..])
      ensures FlatIndex(shape[1..], rest) == FlatIndex(sizes[1..], rest)
    {
      var index := [0] + rest;
      assert index[1..] == rest;
      assert InShape(index, sizes);
      assert FlatIndex(shape, index) == FlatIndex(sizes, index);
    }
  }

  // The first element of the second row is at the same position.
  lemma SameElements(sizes: Shape, shape: Shape)
    requires |sizes| == |shape| > 0 && sizes[0] > 1 && SamePositions(sizes, shape)
    requires Elements(sizes[1..]) > 0
    ensures Elements(sizes[1..]) == Elements(shape[1..])
  {
    var origin := Unflatten(sizes[1..], 0);
    var index := [1] + origin;
    assert index[1..] == origin;
    assert InShape(index, sizes);
    TailSamePositions(sizes, shape);
    assert FlatIndex(shape, index) == FlatIndex(sizes, index);
  }

  lemma {:induction false} EqualElements(sizes: Shape, shape: Shape)
    requires Within(sizes, shape) && Elements(sizes) == Elements(shape) > 0
    ensures sizes == shape
  {
    if sizes != [] {
      var n, m := Elements(sizes[1..]), Elements(shape[1..]);
      PositiveFactors(sizes[0], n);
      PositiveFactors(shape[0], m);
      ElementsMonotone(sizes[1..], shape[1..]);
      EqualProducts(sizes[0], shape[0], n, m);
      EqualElements(sizes[1..], shape[1..]);
      assert sizes == [sizes[0]] + sizes[1..] && shape == [shape[0]] + shape[1..];
    }
  }

  lemma {:induction false} ElementsMonotone(sizes: Shape, shape: Shape)
    requires Within(sizes, shape)
    ensures Elements(sizes) <= Elements(shape)
  {
    if sizes != [] {
      ElementsMonotone(sizes[1..], shape[1..]);
      ProductMonotone(sizes[0], shape[0], Elements(sizes[1..]), Elements(shape[1..]));
    }
  }

  lemma ProductMonotone(a: nat, b: nat, n: nat, m: nat)
    requires a <= b && n <= m
    ensures a * n <= b * m
  {
    assert b * m == a * n + a * (m - n) + (b - a) * m;
  }

  lemma EqualProducts(a: nat, b: nat, n: nat, m: nat)
    requires 0 < a <= b && 0 < n <= m && a * n == b * m
    ensures a == b && n == m
  {
    assert b * m == a * n + a * (m - n) + (b - a) * m;
    assert a * (m - n) == 0 && (b - a) * m == 0;
  }
}
