// The centered GEMM of strela_module.cc: X times the transpose of W', three output
// features per job, and the naive triple loop it must equal.
module Gemm {
  import opened Jobs
  import opened Status
  import opened Words

  // A 32-bit signed result.
  function I32(x: int): (r: int)
    ensures -0x8000_0000 <= r < 0x8000_0000
  {
    Signed(Wrap32(x))
  }

  // Wrapping at every step or once at the end is the same.
  lemma I32Adds(x: int, y: int)
    ensures I32(I32(x) + y) == I32(x + y)
  {
    var k := (x - I32(x)) / U32;
    assert x == I32(x) + U32 * k by {
      assert Wrap32(I32(x)) == Wrap32(x);
    }
    I32Period(I32(x) + y, k);
  }

  lemma I32Period(x: int, k: int)
    ensures I32(x + U32 * k) == I32(x)
  {
    assert Wrap32(x + U32 * k) == Wrap32(x);
  }

  lemma I32Product(x: int, y: int)
    ensures I32(I32(x) * I32(y)) == I32(x * y)
  {
    var j, k := (x - I32(x)) / U32, (y - I32(y)) / U32;
    assert x == I32(x) + U32 * j by {
      assert Wrap32(I32(x)) == Wrap32(x);
    }
    assert y == I32(y) + U32 * k by {
      assert Wrap32(I32(y)) == Wrap32(y);
    }
    assert x * y == I32(x) * I32(y) + U32 * (j * I32(y) + k * I32(x) + U32 * (j * k));
    I32Period(I32(x) * I32(y), j * I32(y) + k * I32(x) + U32 * (j * k));
  }

  // ---- The specification ----

  // Sum over the first n terms of (x[i, k] - zx) * (w[j, k] - zw), over the integers.
  function Dot(x: seq<int>, w: seq<int>, n: nat, zx: int, zw: int): (r: int)
    requires n <= |x| && n <= |w|
  {
    if n == 0 then 0 else Dot(x, w, n - 1, zx, zw) + (x[n - 1] - zx) * (w[n - 1] - zw)
  }

  // The words of n rows of a row-major matrix.
  function Span(n: nat, cols: nat): (r: nat) {
    n * cols
  }

  lemma SpanGrows(n: nat, cols: nat)
    ensures Span(0, cols) == 0 && Span(n + 1, cols) == Span(n, cols) + cols
  {
    NextMultiple(n, cols);
  }

  // A row-major matrix of int8 values.
  datatype Matrix = Matrix(rows: nat, cols: nat, data: seq<int>) {
    predicate Valid() {
      |data| == Span(rows, cols)
    }

    function Row(i: nat): (r: seq<int>)
      requires Valid() && i < rows
      ensures |r| == cols
    {
      RowBounds(i, rows, cols);
      data[Span(i, cols)..Span(i, cols) + cols]
    }
  }

  lemma RowBounds(i: nat, rows: nat, cols: nat)
    requires i < rows
    ensures Span(i, cols) + cols <= Span(rows, cols)
  {
    TimesMonotone(i + 1, rows, cols);
    NextMultiple(i, cols);
  }

  // The word of the product at row i of X and row j of W'.
  function Cell(x: Matrix, w: Matrix, zx: int, zw: int, i: nat, j: nat): (r: int)
    requires x.Valid() && w.Valid() && x.cols == w.cols && i < x.rows && j < w.rows
  {
    I32(Dot(x.Row(i), w.Row(j), x.cols, zx, zw))
  }

  // The first j words of row i, and the first i rows, of the product.
  function RowPrefix(x: Matrix, w: Matrix, zx: int, zw: int, i: nat, j: nat): (r: seq<int>)
    requires x.Valid() && w.Valid() && x.cols == w.cols && i < x.rows && j <= w.rows
    ensures |r| == j
  {
    seq(j, k requires 0 <= k < j => Cell(x, w, zx, zw, i, k))
  }

  function Product(x: Matrix, w: Matrix, zx: int, zw: int, i: nat): (r: seq<int>)
    requires x.Valid() && w.Valid() && x.cols == w.cols && i <= x.rows
    ensures |r| == Span(i, w.rows)
  {
    if i == 0 then [] else Product(x, w, zx, zw, i - 1) + RowPrefix(x, w, zx, zw, i - 1, w.rows)
  }

  lemma {:induction false} ProductAt(x: Matrix, w: Matrix, zx: int, zw: int, rows: nat, i: nat, j: nat)
    requires x.Valid() && w.Valid() && x.cols == w.cols && i < rows <= x.rows && j < w.rows
    ensures Span(i, w.rows) + j < Span(rows, w.rows)
    ensures Product(x, w, zx, zw, rows)[Span(i, w.rows) + j] == Cell(x, w, zx, zw, i, j)
  {
    RowBounds(i, rows, w.rows);
    if i < rows - 1 {
      ProductAt(x, w, zx, zw, rows - 1, i, j);
    }
  }

  // ---- What a word of the product is, term by term ----

  function SumOf(terms: seq<int>): (r: int) {
    if terms == [] then 0 else SumOf(terms[..|terms| - 1]) + terms[|terms| - 1]
  }

  lemma {:induction false} SumOfSplits(a: seq<int>, b: seq<int>, v: int)
    ensures SumOf([v]) == v && SumOf(a + b) == SumOf(a) + SumOf(b)
  {
    assert [v][..0] == [];
    if b == [] {
      assert a + b == a;
    } else {
      assert (a + b)[..|a + b| - 1] == a + b[..|b| - 1];
      SumOfSplits(a, b[..|b| - 1], v);
    }
  }

  lemma {:induction false} DotIsSum(x: seq<int>, w: seq<int>, zx: int, zw: int, terms: seq<int>)
    requires |terms| <= |x| && |terms| <= |w|
    requires forall k :: 0 <= k < |terms| ==> terms[k] == (x[k] - zx) * (w[k] - zw)
    ensures Dot(x, w, |terms|, zx, zw) == SumOf(terms)
  {
    if terms != [] {
      DotIsSum(x, w, zx, zw, terms[..|terms| - 1]);
    }
  }

  lemma I32Means(x: int)
    ensures -0x8000_0000 <= I32(x) < 0x8000_0000 && (I32(x) - x) % 0x1_0000_0000 == 0
  {
    assert Wrap32(I32(x)) == Wrap32(x);
  }

  // y plus a word of the product, in two's complement: the terms are the products of
  // the centered elements of row i of X and row j of W'.
  lemma ProductMeans(x: Matrix, w: Matrix, zx: int, zw: int, y: int, i: nat, j: nat, terms: seq<int>)
    requires x.Valid() && w.Valid() && x.cols == w.cols && i < x.rows && j < w.rows && |terms| == x.cols
    requires forall k :: 0 <= k < x.cols ==>
               && i * x.cols + k < |x.data| && j * x.cols + k < |w.data|
               && terms[k] == (x.data[i * x.cols + k] - zx) * (w.data[j * x.cols + k] - zw)
    ensures i * w.rows + j < |Product(x, w, zx, zw, x.rows)|
    ensures var r := I32(y + Product(x, w, zx, zw, x.rows)[i * w.rows + j]);
            -0x8000_0000 <= r < 0x8000_0000 && (r - (y + SumOf(terms))) % 0x1_0000_0000 == 0
  {
    hide Product, I32, Dot;
    ProductAt(x, w, zx, zw, x.rows, i, j);
    RowBounds(i, x.rows, x.cols);
    RowBounds(j, w.rows, w.cols);
    DotIsSum(x.Row(i), w.Row(j), zx, zw, terms);
    I32Adds(SumOf(terms), y);
    I32Means(SumOf(terms) + y);
    assert y + I32(SumOf(terms)) == I32(SumOf(terms)) + y;
  }

  // ---- The reference loop (the #else branch) ----

  method ReferenceGemm(x: Matrix, w: Matrix, zx: int, zw: int) returns (sy: array<int>)
    requires x.Valid() && w.Valid() && x.cols == w.cols
    ensures fresh(sy) && sy[..] == Product(x, w, zx, zw, x.rows)
  {
    hide RowPrefix, Product, Span;
    SpanGrows(0, w.rows);
    sy := new int[Span(x.rows, w.rows)];
    ProductGrows(x, w, zx, zw);
    for i := 0 to x.rows
      invariant Span(i, w.rows) <= sy.Length
      invariant sy[..Span(i, w.rows)] == Product(x, w, zx, zw, i)
    {
      RowBounds(i, x.rows, w.rows);
      SpanGrows(i, w.rows);
      ReferenceRow(x, w, zx, zw, i, sy, Span(i, w.rows));
    }
    assert sy[..Span(x.rows, w.rows)] == sy[..];
  }

  lemma ProductGrows(x: Matrix, w: Matrix, zx: int, zw: int)
    requires x.Valid() && w.Valid() && x.cols == w.cols
    ensures Product(x, w, zx, zw, 0) == []
    ensures forall i :: 0 <= i < x.rows ==>
              Product(x, w, zx, zw, i + 1) == Product(x, w, zx, zw, i) + RowPrefix(x, w, zx, zw, i, w.rows)
  {
  }

  method ReferenceRow(x: Matrix, w: Matrix, zx: int, zw: int, i: nat, sy: array<int>, start: nat)
    requires x.Valid() && w.Valid() && x.cols == w.cols && i < x.rows
    requires start + w.rows <= sy.Length
    modifies sy
    ensures sy[..start + w.rows] == old(sy[..start]) + RowPrefix(x, w, zx, zw, i, w.rows)
  {
    hide Cell;
    for j := 0 to w.rows
      invariant sy[..start + j] == old(sy[..start]) + RowPrefix(x, w, zx, zw, i, j)
    {
      var acc := ReferenceCell(x, w, zx, zw, i, j);
      RowPrefixGrows(x, w, zx, zw, i, j);
      sy[start + j] := acc;
    }
  }

  lemma RowPrefixGrows(x: Matrix, w: Matrix, zx: int, zw: int, i: nat, j: nat)
    requires x.Valid() && w.Valid() && x.cols == w.cols && i < x.rows && j < w.rows
    ensures RowPrefix(x, w, zx, zw, i, j + 1) == RowPrefix(x, w, zx, zw, i, j) + [Cell(x, w, zx, zw, i, j)]
  {
  }

  // The inner loop, in 32-bit arithmetic at every step.
  method ReferenceCell(x: Matrix, w: Matrix, zx: int, zw: int, i: nat, j: nat) returns (acc: int)
    requires x.Valid() && w.Valid() && x.cols == w.cols && i < x.rows && j < w.rows
    ensures acc == Cell(x, w, zx, zw, i, j)
  {
    hide I32, Span, Dot;
    RowBounds(i, x.rows, x.cols);
    RowBounds(j, w.rows, w.cols);
    DotSteps(x.Row(i), w.Row(j), x.cols, zx, zw);
    var xStart, wStart := Span(i, x.cols), Span(j, x.cols);
    ghost var xRow, wRow := x.Row(i), w.Row(j);
    acc := I32(0);
    for k := 0 to x.cols
      invariant acc == I32(Dot(xRow, wRow, k, zx, zw))
    {
      var xVal := I32(x.data[xStart + k] - zx);
      var wVal := I32(w.data[wStart + k] - zw);
      assert x.data[xStart + k] == xRow[k] && w.data[wStart + k] == wRow[k];
      AccumulateWrapped(Dot(xRow, wRow, k, zx, zw), xRow[k] - zx, wRow[k] - zw);
      acc := I32(acc + I32(xVal * wVal));
    }
  }

  lemma DotSteps(x: seq<int>, w: seq<int>, n: nat, zx: int, zw: int)
    requires n <= |x| && n <= |w|
    ensures Dot(x, w, 0, zx, zw) == 0
    ensures forall k :: 0 <= k < n ==> Dot(x, w, k + 1, zx, zw) == Dot(x, w, k, zx, zw) + (x[k] - zx) * (w[k] - zw)
  {
  }

  // One step of the sum, wrapped everywhere, is the wrapped sum.
  lemma AccumulateWrapped(sum: int, x: int, w: int)
    ensures I32(I32(sum) + I32(I32(x) * I32(w))) == I32(sum + x * w)
  {
    hide I32;
    I32Product(x, w);
    I32Adds(sum, I32(x * w));
    I32Adds(x * w, sum);
    assert sum + I32(x * w) == I32(x * w) + sum;
  }

  // ---- The tiled loop ----

  // The words of the stream are inside the buffer [base, base + size).
  predicate StreamIn(s: Stream, base: nat, size: nat) {
    s.count == 0 || (base <= s.offset && s.offset + s.count <= base + size)
  }

  function Read(mem: seq<int>, s: Stream): (r: seq<int>)
    requires s.count == 0 || s.offset + s.count <= |mem|
    ensures |r| == s.count
  {
    if s.count == 0 then [] else mem[s.offset..s.offset + s.count]
  }

  // Every column of the job is in memory, and the columns that are multiplied have
  // the same length.
  predicate ConfInMemory(conf: Conf, size: nat) {
    && |conf.inputs| == |conf.outputs| == 4
    && (forall c :: 0 <= c < 4 ==> StreamIn(conf.inputs[c], 0, size) && StreamIn(conf.outputs[c], 0, size))
    && (forall c :: 1 <= c < 4 && conf.outputs[c].count == 1 ==> conf.inputs[c].count == conf.inputs[0].count)
  }

  // What output column c gets: the dot product of column 0 and input column c.
  function JobValue(mem: seq<int>, conf: Conf, c: nat, zx: int, zw: int): (r: int)
    requires ConfInMemory(conf, |mem|) && 1 <= c < 4 && conf.outputs[c].count == 1
  {
    I32(Dot(Read(mem, conf.inputs[0]), Read(mem, conf.inputs[c]), conf.inputs[0].count, zx, zw))
  }

  // Memory after output columns 1 to n of the job are written.
  function JobResult(mem: seq<int>, conf: Conf, n: nat, zx: int, zw: int): (r: seq<int>)
    requires ConfInMemory(conf, |mem|) && n < 4
    ensures |r| == |mem|
  {
    if n == 0 then mem
    else
      var before := JobResult(mem, conf, n - 1, zx, zw);
      if conf.outputs[n].count != 1 then before
      else before[conf.outputs[n].offset := JobValue(mem, conf, n, zx, zw)]
  }

  // strela_config and strela_execute on the centered matrix-vector kernel, as
  // assumed: a job that completes writes its output words and nothing else.
  method Execute(mem: array<int>, conf: Conf, zx: int, zw: int) returns (ok: bool)
    requires ConfInMemory(conf, mem.Length)
    modifies mem
    ensures ok ==> mem[..] == JobResult(old(mem[..]), conf, 3, zx, zw)
  {
    var start := mem[..];
    for c := 1 to 4
      invariant mem[..] == JobResult(start, conf, c - 1, zx, zw)
    {
      if conf.outputs[c].count == 1 {
        mem[conf.outputs[c].offset] := JobValue(start, conf, c, zx, zw);
      }
    }
    ok := *;
  }

  // Two word ranges of STRELA memory do not overlap.
  predicate Apart(a: nat, n: nat, b: nat, m: nat) {
    a + n <= b || b + m <= a
  }

  // Where the three STRELA buffers are.
  datatype Layout = Layout(sx: nat, sw: nat, sy: nat)

  ghost predicate Allocated(layout: Layout, x: Matrix, w: Matrix, size: nat) {
    && layout.sx + Span(x.rows, x.cols) <= size && layout.sw + Span(w.rows, w.cols) <= size
    && layout.sy + Span(x.rows, w.rows) <= size
    && Apart(layout.sx, Span(x.rows, x.cols), layout.sy, Span(x.rows, w.rows))
    && Apart(layout.sw, Span(w.rows, w.cols), layout.sy, Span(x.rows, w.rows))
    && Apart(layout.sx, Span(x.rows, x.cols), layout.sw, Span(w.rows, w.cols))
  }

  // The columns of the job for row i of X and rows j, j + 1, j + 2 of W'; a column
  // past the last row is switched off.
  function JobConf(layout: Layout, K: nat, N: nat, i: nat, j: nat): (conf: Conf)
    ensures |conf.inputs| == |conf.outputs| == 4
  {
    var K1, K2 := if j + 1 < N then K else 0, if j + 2 < N then K else 0;
    var O1, O2 := if j + 1 < N then 1 else 0, if j + 2 < N then 1 else 0;
    Conf([Stream(layout.sx + Span(i, K), K, 1),
          Stream(layout.sw + Span(j, K), K, 1),
          Stream(layout.sw + Span(j + 1, K), K1, 1),
          Stream(layout.sw + Span(j + 2, K), K2, 1)],
         [Stream(0, 0, 1),
          Stream(layout.sy + Span(i, N) + j, 1, 1),
          Stream(layout.sy + Span(i, N) + (j + 1), O1, 1),
          Stream(layout.sy + Span(i, N) + (j + 2), O2, 1)])
  }

  // Every enabled column of the job stays inside its buffer.
  lemma JobStaysInside(layout: Layout, x: Matrix, w: Matrix, i: nat, j: nat)
    requires x.cols == w.cols && i < x.rows && j < w.rows
    ensures var conf := JobConf(layout, x.cols, w.rows, i, j);
            && StreamIn(conf.inputs[0], layout.sx, Span(x.rows, x.cols))
            && (forall c :: 1 <= c < 4 ==> StreamIn(conf.inputs[c], layout.sw, Span(w.rows, w.cols)))
            && (forall c :: 1 <= c < 4 ==> StreamIn(conf.outputs[c], layout.sy, Span(x.rows, w.rows)))
  {
    hide Span;
    RowBounds(i, x.rows, x.cols);
    RowBounds(i, x.rows, w.rows);
    RowBounds(j, w.rows, w.cols);
    if j + 1 < w.rows {
      RowBounds(j + 1, w.rows, w.cols);
    }
    if j + 2 < w.rows {
      RowBounds(j + 2, w.rows, w.cols);
    }
  }

  // The inputs are in place.
  ghost predicate Loaded(mem: seq<int>, layout: Layout, x: Matrix, w: Matrix) {
    && Allocated(layout, x, w, |mem|) && x.Valid() && w.Valid() && x.cols == w.cols
    && mem[layout.sx..layout.sx + Span(x.rows, x.cols)] == x.data
    && mem[layout.sw..layout.sw + Span(w.rows, w.cols)] == w.data
  }

  function Min(a: nat, b: nat): (r: nat) {
    if a <= b then a else b
  }

  lemma JobInMemory(mem: seq<int>, layout: Layout, x: Matrix, w: Matrix, i: nat, j: nat)
    requires Loaded(mem, layout, x, w) && i < x.rows && j < w.rows
    ensures ConfInMemory(JobConf(layout, x.cols, w.rows, i, j), |mem|)
  {
    JobStaysInside(layout, x, w, i, j);
  }

  // Reading a row's words where the matrix was loaded gives the row.
  lemma ReadRow(mem: seq<int>, base: nat, m: Matrix, r: nat)
    requires m.Valid() && r < m.rows && base + Span(m.rows, m.cols) <= |mem|
    requires mem[base..base + Span(m.rows, m.cols)] == m.data
    ensures base + Span(r, m.cols) + m.cols <= |mem|
    ensures Read(mem, Stream(base + Span(r, m.cols), m.cols, 1)) == m.Row(r)
  {
    hide Span;
    RowBounds(r, m.rows, m.cols);
    SliceOfSlice(mem, base, Span(m.rows, m.cols), Span(r, m.cols), m.cols);
  }

  lemma SliceOfSlice(mem: seq<int>, base: nat, size: nat, from: nat, n: nat)
    requires base + size <= |mem| && from + n <= size
    ensures mem[base..base + size][from..from + n] == mem[base + from..base + from + n]
  {
    var a, b := mem[base..base + size][from..from + n], mem[base + from..base + from + n];
    assert forall k :: 0 <= k < n ==> a[k] == b[k];
  }

  lemma EnabledColumn(layout: Layout, K: nat, N: nat, i: nat, j: nat, c: nat)
    requires 1 <= c < 4 && j + (c - 1) < N
    ensures var conf := JobConf(layout, K, N, i, j);
            && conf.inputs[0] == Stream(layout.sx + Span(i, K), K, 1)
            && conf.inputs[c] == Stream(layout.sw + Span(j + (c - 1), K), K, 1)
            && conf.outputs[c] == Stream(layout.sy + (Span(i, N) + (j + (c - 1))), 1, 1)
  {
  }

  // A job reads whole rows, so output column c gets the cell of row i and j + c - 1.
  lemma JobReadsRows(mem: seq<int>, layout: Layout, x: Matrix, w: Matrix, zx: int, zw: int, i: nat, j: nat, c: nat)
    requires Loaded(mem, layout, x, w) && i < x.rows && 1 <= c < 4 && j + (c - 1) < w.rows
    ensures var conf := JobConf(layout, x.cols, w.rows, i, j);
            && ConfInMemory(conf, |mem|) && conf.outputs[c].count == 1
            && conf.outputs[c].offset == layout.sy + (Span(i, w.rows) + (j + (c - 1)))
            && JobValue(mem, conf, c, zx, zw) == Cell(x, w, zx, zw, i, j + (c - 1))
  {
    hide JobConf, Read, I32, Dot, Span;
    JobInMemory(mem, layout, x, w, i, j);
    EnabledColumn(layout, x.cols, w.rows, i, j, c);
    ReadRow(mem, layout.sx, x, i);
    ReadRow(mem, layout.sw, w, j + (c - 1));
  }

  // Cells j to j + n of row i.
  function Cells(x: Matrix, w: Matrix, zx: int, zw: int, i: nat, j: nat, n: nat): (r: seq<int>)
    requires x.Valid() && w.Valid() && x.cols == w.cols && i < x.rows && j + n <= w.rows
    ensures |r| == n
  {
    seq(n, k requires 0 <= k < n => Cell(x, w, zx, zw, i, j + k))
  }

  // After n output columns, a job has put the next cells of its row in place and
  // changed nothing else.
  lemma {:induction false} JobWritesCells(mem: seq<int>, layout: Layout, x: Matrix, w: Matrix, zx: int, zw: int,
                                          i: nat, j: nat, n: nat)
    requires Loaded(mem, layout, x, w) && i < x.rows && j < w.rows && n < 4
    ensures ConfInMemory(JobConf(layout, x.cols, w.rows, i, j), |mem|)
    ensures var start, e := layout.sy + (Span(i, w.rows) + j), Min(n, w.rows - j);
            && start + e <= |mem| && start + e <= layout.sy + Span(x.rows, w.rows)
            && JobResult(mem, JobConf(layout, x.cols, w.rows, i, j), n, zx, zw)
               == mem[..start] + Cells(x, w, zx, zw, i, j, e) + mem[start + e..]
  {
    hide Cell, JobValue, Span, Loaded;
    LoadedFits(mem, layout, x, w);
    JobInMemory(mem, layout, x, w, i, j);
    RowBounds(i, x.rows, w.rows);
    var start := layout.sy + (Span(i, w.rows) + j);
    if n != 0 {
      JobWritesCells(mem, layout, x, w, zx, zw, i, j, n - 1);
      if j + (n - 1) < w.rows {
        JobReadsRows(mem, layout, x, w, zx, zw, i, j, n);
        assert Cells(x, w, zx, zw, i, j, n) == Cells(x, w, zx, zw, i, j, n - 1) + [Cell(x, w, zx, zw, i, j + (n - 1))];
      } else {
        assert JobConf(layout, x.cols, w.rows, i, j).outputs[n].count == 0;
      }
    } else {
      assert mem == mem[..start] + [] + mem[start..];
    }
  }

  // Writing between `start` and `end` of the output buffer leaves the inputs loaded.
  lemma StaysLoaded(mem: seq<int>, r: seq<int>, layout: Layout, x: Matrix, w: Matrix, start: nat, end: nat)
    requires Loaded(mem, layout, x, w) && |r| == |mem|
    requires layout.sy <= start <= end <= layout.sy + Span(x.rows, w.rows)
    requires r[..start] == mem[..start] && r[end..] == mem[end..]
    ensures Loaded(r, layout, x, w)
  {
    hide Span;
    SliceKept(mem, r, start, end, layout.sx, Span(x.rows, x.cols));
    SliceKept(mem, r, start, end, layout.sw, Span(w.rows, w.cols));
  }

  lemma SliceKept(mem: seq<int>, r: seq<int>, start: nat, end: nat, base: nat, n: nat)
    requires |r| == |mem| && start <= end <= |mem| && base + n <= |mem|
    requires r[..start] == mem[..start] && r[end..] == mem[end..]
    requires n == 0 || base + n <= start || end <= base
    ensures r[base..base + n] == mem[base..base + n]
  {
    forall k | base <= k < base + n
      ensures r[k] == mem[k]
    {
      if k < start {
        assert r[..start][k] == mem[..start][k];
      } else {
        assert r[end..][k - end] == mem[end..][k - end];
      }
    }
  }

  function CeilDiv(a: nat, b: nat): (r: nat)
    requires b > 0
    ensures (r - 1) * b < a <= r * b || (a == 0 && r == 0)
  {
    (a + b - 1) / b
  }

  // Job t is for row t / c of X and features from 3 * (t % c); c jobs cover one row.
  function JobRow(N: nat, t: nat): (i: nat)
    requires N > 0
  {
    t / CeilDiv(N, 3)
  }

  function JobFeature(N: nat, t: nat): (j: nat)
    requires N > 0
  {
    3 * (t % CeilDiv(N, 3))
  }

  // The first n jobs, in order.
  function JobsUpTo(N: nat, n: nat): (r: seq<(nat, nat)>)
    requires N > 0
    ensures |r| == n
  {
    seq(n, t requires 0 <= t < n => (JobRow(N, t), JobFeature(N, t)))
  }

  // The first n jobs of row i.
  function RowJobs(i: nat, n: nat): (r: seq<(nat, nat)>)
    ensures |r| == n
  {
    seq(n, q requires 0 <= q < n => (i, 3 * q))
  }

  lemma NextRowOfJobs(N: nat, i: nat)
    requires N > 0
    ensures JobsUpTo(N, Span(i + 1, CeilDiv(N, 3))) == JobsUpTo(N, Span(i, CeilDiv(N, 3))) + RowJobs(i, CeilDiv(N, 3))
  {
    var c := CeilDiv(N, 3);
    NextMultiple(i, c);
    var longer, joined := JobsUpTo(N, (i + 1) * c), JobsUpTo(N, i * c) + RowJobs(i, c);
    forall t | 0 <= t < (i + 1) * c
      ensures longer[t] == joined[t]
    {
      if t >= i * c {
        DivUnique(t, c, i, t - i * c);
      }
    }
    assert longer == joined;
  }

  // The job for row i and features from 3q comes after those of the rows before and the
  // q jobs before it in its row, of (N + 2) / 3 jobs a row.
  lemma JobInOrder(M: nat, N: nat, i: nat, q: nat)
    requires N > 0 && i < M && 3 * q < N
    ensures |JobsUpTo(N, Span(M, CeilDiv(N, 3)))| == M * ((N + 2) / 3)
    ensures i * ((N + 2) / 3) + q < M * ((N + 2) / 3)
    ensures JobsUpTo(N, Span(M, CeilDiv(N, 3)))[i * ((N + 2) / 3) + q] == (i, 3 * q)
  {
    var c := (N + 2) / 3;
    RowBounds(i, M, c);
    DivUnique(i * c + q, c, i, q);
  }

  lemma LastJobOfRow(N: nat, j: nat)
    requires j % 3 == 0 && N <= j < N + 3
    ensures j / 3 == CeilDiv(N, 3)
  {
  }

  lemma Splice(mem: seq<int>, start: nat, cells: seq<int>, base: nat)
    requires base <= start && start + |cells| <= |mem|
    ensures var r := mem[..start] + cells + mem[start + |cells|..];
            && |r| == |mem| && r[..start] == mem[..start] && r[start + |cells|..] == mem[start + |cells|..]
            && r[base..start + |cells|] == mem[base..start] + cells
  {
  }

  // One job of the tiled loop.
  method RunJob(mem: array<int>, layout: Layout, x: Matrix, w: Matrix, zx: int, zw: int, i: nat, j: nat) returns (ok: bool)
    requires Loaded(mem[..], layout, x, w) && i < x.rows && j < w.rows
    modifies mem
    ensures ok ==>
              var start, e := layout.sy + (Span(i, w.rows) + j), Min(3, w.rows - j);
              && Loaded(mem[..], layout, x, w) && start + e <= mem.Length
              && mem[layout.sy..start + e] == old(mem[layout.sy..start]) + Cells(x, w, zx, zw, i, j, e)
  {
    hide JobResult, JobConf, Cells, Loaded, Span;
    LoadedFits(mem[..], layout, x, w);
    JobWritesCells(mem[..], layout, x, w, zx, zw, i, j, 3);
    ghost var start, e := layout.sy + (Span(i, w.rows) + j), Min(3, w.rows - j);
    Splice(mem[..], start, Cells(x, w, zx, zw, i, j, e), layout.sy);
    ok := Execute(mem, JobConf(layout, x.cols, w.rows, i, j), zx, zw);
    if ok {
      StaysLoaded(old(mem[..]), mem[..], layout, x, w, start, start + e);
      assert mem[layout.sy..start + e] == mem[..][layout.sy..start + e];
      assert old(mem[layout.sy..start]) == old(mem[..])[layout.sy..start];
    }
  }

  // The jobs of one row of X.
  method RunRow(mem: array<int>, layout: Layout, x: Matrix, w: Matrix, zx: int, zw: int, i: nat)
    returns (ok: bool, ghost issued: seq<(nat, nat)>)
    requires Loaded(mem[..], layout, x, w) && i < x.rows
    modifies mem
    ensures ok ==>
              && layout.sy + (Span(i, w.rows) + w.rows) <= mem.Length && Loaded(mem[..], layout, x, w)
              && mem[layout.sy..layout.sy + (Span(i, w.rows) + w.rows)]
                 == old(mem[layout.sy..layout.sy + Span(i, w.rows)]) + RowPrefix(x, w, zx, zw, i, w.rows)
              && issued == RowJobs(i, CeilDiv(w.rows, 3))
  {
    hide Cell, Cells, RowPrefix, Loaded, CeilDiv, Span;
    LoadedFits(mem[..], layout, x, w);
    EmptyPrefix(x, w, zx, zw, i);
    RowBounds(i, x.rows, w.rows);
    ok, issued := true, [];
    var j := 0;
    ghost var base, done := layout.sy + Span(i, w.rows), 0;
    ghost var above := mem[layout.sy..base];
    while j < w.rows
      invariant j % 3 == 0 && done <= w.rows && (done == j || (done == w.rows && w.rows <= j < w.rows + 3))
      invariant base + done <= mem.Length && Loaded(mem[..], layout, x, w)
      invariant mem[layout.sy..base + done] == above + RowPrefix(x, w, zx, zw, i, done)
      invariant issued == RowJobs(i, j / 3)
      decreases w.rows + 3 - j
    {
      ghost var written, e := mem[layout.sy..base + j], Min(3, w.rows - j);
      ok := RunJob(mem, layout, x, w, zx, zw, i, j);
      if !ok {
        return;
      }
      assert mem[layout.sy..base + (j + e)] == written + Cells(x, w, zx, zw, i, j, e);
      RowPrefixTiles(x, w, zx, zw, i, j, e);
      Regroup(above, RowPrefix(x, w, zx, zw, i, j), Cells(x, w, zx, zw, i, j, e));
      done := j + e;
      issued := issued + [(i, j)];
      j := j + 3;
    }
    LastJobOfRow(w.rows, j);
  }

  lemma Regroup(a: seq<int>, b: seq<int>, c: seq<int>)
    ensures (a + b) + c == a + (b + c)
  {
  }

  lemma LoadedFits(mem: seq<int>, layout: Layout, x: Matrix, w: Matrix)
    requires Loaded(mem, layout, x, w)
    ensures layout.sy + Span(x.rows, w.rows) <= |mem| && x.Valid() && w.Valid() && x.cols == w.cols
  {
  }

  lemma EmptyPrefix(x: Matrix, w: Matrix, zx: int, zw: int, i: nat)
    requires x.Valid() && w.Valid() && x.cols == w.cols && i < x.rows
    ensures RowPrefix(x, w, zx, zw, i, 0) == []
  {
  }

  lemma RowPrefixTiles(x: Matrix, w: Matrix, zx: int, zw: int, i: nat, j: nat, e: nat)
    requires x.Valid() && w.Valid() && x.cols == w.cols && i < x.rows && j + e <= w.rows
    ensures RowPrefix(x, w, zx, zw, i, j + e) == RowPrefix(x, w, zx, zw, i, j) + Cells(x, w, zx, zw, i, j, e)
  {
  }

  // ---- The jobs and the output words ----

  // Word p of the product is in an output column of job t.
  predicate WritesWord(layout: Layout, K: nat, N: nat, t: nat, p: nat)
    requires N > 0
  {
    InStreams(layout.sy + p, JobConf(layout, K, N, JobRow(N, t), JobFeature(N, t)).outputs)
  }

  // The output columns of a job are up to three consecutive words of one row.
  lemma OutputWords(layout: Layout, K: nat, N: nat, i: nat, j: nat, p: nat)
    requires j < N
    ensures InStreams(layout.sy + p, JobConf(layout, K, N, i, j).outputs)
            <==> i * N + j <= p < i * N + j + 3 && p - i * N < N
  {
    var outs := JobConf(layout, K, N, i, j).outputs;
    var first := i * N + j;
    if InStreams(layout.sy + p, outs) {
      var c :| 0 <= c < 4 && InStream(layout.sy + p, outs[c]);
      assert p == first + (c - 1) && outs[c].count == 1;
    }
    if first <= p < first + 3 && p - i * N < N {
      var c := p - first + 1;
      assert StreamWord(outs[c], 0) == layout.sy + p;
      assert InStream(layout.sy + p, outs[c]);
    }
  }

  // Where the word's job is in the order of the jobs.
  function JobOf(N: nat, p: nat): (t: nat)
    requires N > 0
  {
    p / N * CeilDiv(N, 3) + p % N / 3
  }

  // A job for row i and features from 3q writes word (row, f) if it is for them.
  lemma WritesAt(layout: Layout, K: nat, N: nat, i: nat, q: nat, row: nat, f: nat)
    requires 3 * q < N && f < N
    ensures InStreams(layout.sy + (row * N + f), JobConf(layout, K, N, i, 3 * q).outputs) <==> i == row && q == f / 3
  {
    hide JobConf, InStreams;
    OutputWords(layout, K, N, i, 3 * q, row * N + f);
    SameQuotient(i, row, N, f);
  }

  lemma FeatureInRow(N: nat, q: nat)
    requires N > 0 && q < CeilDiv(N, 3)
    ensures 3 * q < N
  {
  }

  lemma WritesItsWords(layout: Layout, K: nat, N: nat, t: nat, p: nat)
    requires N > 0
    ensures WritesWord(layout, K, N, t, p) <==> t == JobOf(N, p)
  {
    hide CeilDiv, JobConf, InStreams;
    var c := CeilDiv(N, 3);
    FeatureInRow(N, t % c);
    WritesAt(layout, K, N, t / c, t % c, p / N, p % N);
    ThirdInRange(p % N, N);
    QuotientOf(t / c, t % c, p / N, p % N / 3, c);
  }

  lemma ThirdInRange(f: nat, N: nat)
    requires f < N
    ensures f / 3 < CeilDiv(N, 3)
  {
  }

  lemma QuotientOf(i: nat, q: nat, row: nat, g: nat, c: nat)
    requires q < c && g < c
    ensures i * c + q == row * c + g <==> i == row && q == g
  {
    SameQuotient(row, i, c, q);
  }

  lemma JobInGrid(M: nat, N: nat, p: nat)
    requires N > 0 && p < M * N
    ensures JobOf(N, p) < M * CeilDiv(N, 3)
  {
    var c, i := CeilDiv(N, 3), p / N;
    if i >= M {
      TimesMonotone(M, i, N);
    }
    TimesMonotone(i + 1, M, c);
    NextMultiple(i, c);
  }

  // The jobs partition the product: each of its words is written by exactly one of
  // the M * ceildiv(N, 3) jobs.
  lemma EachWordWrittenOnce(layout: Layout, K: nat, M: nat, N: nat, p: nat)
    requires N > 0 && p < M * N
    ensures exists t :: 0 <= t < M * CeilDiv(N, 3) && WritesWord(layout, K, N, t, p)
    ensures forall t: nat, u: nat ::
              WritesWord(layout, K, N, t, p) && WritesWord(layout, K, N, u, p) ==> t == u
  {
    JobInGrid(M, N, p);
    WritesItsWords(layout, K, N, JobOf(N, p), p);
    forall t: nat, u: nat | WritesWord(layout, K, N, t, p) && WritesWord(layout, K, N, u, p)
      ensures t == u
    {
      WritesItsWords(layout, K, N, t, p);
      WritesItsWords(layout, K, N, u, p);
    }
  }

  // ---- my_centered_gemm ----

  datatype ElementType = Int8 | Int32 | OtherElement

  // A buffer view; only rank-2 views have data that is looked at.
  datatype View = View(dims: seq<nat>, element: ElementType, data: seq<int>)

  predicate ViewValid(v: View) {
    |v.dims| == 2 ==> |v.data| == v.dims[0] * v.dims[1]
  }

  function MatrixOf(v: View): (m: Matrix)
    requires |v.dims| == 2
  {
    Matrix(v.dims[0], v.dims[1], v.data)
  }

  // The checks my_centered_gemm makes on its operands.
  predicate Acceptable(x: View, w: View, yDims: nat, yElement: ElementType) {
    && |x.dims| == 2 && |w.dims| == 2 && yDims == 2
    && x.element == Int8 && w.element == Int8 && yElement == Int32
    && x.dims[1] == w.dims[1]
  }

  // MyCenteredGemm. On success y has grown by the product that the naive triple loop
  // computes, by running exactly one job per row and three features; otherwise y is
  // unchanged. `mapped` is what IREE says of mapping the three views.
  method CenteredGemm(x: View, zx: int, w: View, zw: int, yDims: nat, yElement: ElementType, y: array<int>,
                      mapped: Status, mem: array<int>, layout: Layout)
    returns (status: Status, ghost issued: seq<(nat, nat)>)
    requires ViewValid(x) && ViewValid(w) && y != mem
    requires Acceptable(x, w, yDims, yElement) ==>
               && Allocated(layout, MatrixOf(x), MatrixOf(w), mem.Length)
               && y.Length == x.dims[0] * w.dims[0]
    modifies y, mem
    ensures || |x.dims| != 2 || |w.dims| != 2 || yDims != 2 || x.element != Int8 || w.element != Int8 || yElement != Int32
            || x.dims[1] != w.dims[1]
            ==> status == Error(InvalidArgument)
    ensures Acceptable(x, w, yDims, yElement) ==> if mapped.Ok? then status in {Ok, Error(Internal)} else status == mapped
    ensures !status.Ok? ==> y[..] == old(y[..])
    ensures status.Ok? ==>
              var product := Product(MatrixOf(x), MatrixOf(w), zx, zw, x.dims[0]);
              && |product| == y.Length
              && (forall p :: 0 <= p < y.Length ==> y[p] == I32(old(y[p]) + product[p]))
              && (w.dims[0] > 0 ==> issued == JobsUpTo(w.dims[0], Span(x.dims[0], CeilDiv(w.dims[0], 3))))
  {
    hide Cell, RowPrefix, Product, JobsUpTo, CeilDiv, Loaded, Dot;
    issued := [];
    if |x.dims| != 2 || |w.dims| != 2 || yDims != 2 {
      return Error(InvalidArgument), issued;
    }
    if x.element != Int8 || w.element != Int8 || yElement != Int32 {
      return Error(InvalidArgument), issued;
    }
    if x.dims[1] != w.dims[1] {
      return Error(InvalidArgument), issued;
    }
    if !mapped.Ok? {
      return mapped, issued;
    }
    // Allocating the STRELA buffers may fail, and so may a job; the device error is looked
    // at again at the end.
    var ready: bool, clear: bool := *, *;
    if !ready {
      return Error(Internal), issued;
    }
    var X, W := MatrixOf(x), MatrixOf(w);
    LoadOperands(mem, layout, X, W);
    var ok: bool;
    ok, issued := TiledGemm(mem, layout, X, W, zx, zw);
    if !ok || !clear {
      return Error(Internal), issued;
    }
    Accumulate(y, mem[layout.sy..layout.sy + X.rows * W.rows]);
    status := Ok;
  }

  // The job loop: afterwards the output buffer holds the product.
  method TiledGemm(mem: array<int>, layout: Layout, x: Matrix, w: Matrix, zx: int, zw: int)
    returns (ok: bool, ghost issued: seq<(nat, nat)>)
    requires Loaded(mem[..], layout, x, w)
    modifies mem
    ensures x.Valid() && w.Valid() && x.cols == w.cols && layout.sy + Span(x.rows, w.rows) <= mem.Length
    ensures ok ==>
              && mem[layout.sy..layout.sy + Span(x.rows, w.rows)] == Product(x, w, zx, zw, x.rows)
              && (w.rows > 0 ==> issued == JobsUpTo(w.rows, Span(x.rows, CeilDiv(w.rows, 3))))
  {
    hide Loaded, RowPrefix, Product, JobsUpTo, CeilDiv, Span, Cell;
    SpanGrows(0, w.rows);
    LoadedFits(mem[..], layout, x, w);
    ProductGrows(x, w, zx, zw);
    issued := [];
    ok := true;
    NoJobs(w.rows);
    for i := 0 to x.rows
      invariant layout.sy + Span(i, w.rows) <= mem.Length && Loaded(mem[..], layout, x, w)
      invariant mem[layout.sy..layout.sy + Span(i, w.rows)] == Product(x, w, zx, zw, i)
      invariant ok && (w.rows > 0 ==> issued == JobsUpTo(w.rows, Span(i, CeilDiv(w.rows, 3))))
    {
      SpanGrows(i, w.rows);
      ghost var row: seq<(nat, nat)>;
      ok, row := RunRow(mem, layout, x, w, zx, zw, i);
      if !ok {
        return;
      }
      issued := issued + row;
      if w.rows > 0 {
        NextRowOfJobs(w.rows, i);
      }
    }
  }

  lemma NoJobs(N: nat)
    ensures N > 0 ==> JobsUpTo(N, Span(0, CeilDiv(N, 3))) == []
  {
  }

  // The += that gives linalg.matmul its accumulation.
  method Accumulate(y: array<int>, sy: seq<int>)
    requires y.Length == |sy|
    modifies y
    ensures forall p :: 0 <= p < y.Length ==> y[p] == I32(old(y[p]) + sy[p])
  {
    for p := 0 to |sy|
      invariant forall q :: 0 <= q < p ==> y[q] == I32(old(y[q]) + sy[q])
      invariant forall q :: p <= q < y.Length ==> y[q] == old(y[q])
    {
      y[p] := I32(y[p] + sy[p]);
    }
  }

  method LoadOperands(mem: array<int>, layout: Layout, x: Matrix, w: Matrix)
    requires Allocated(layout, x, w, mem.Length) && x.Valid() && w.Valid() && x.cols == w.cols
    modifies mem
    ensures Loaded(mem[..], layout, x, w)
  {
    hide Span;
    Load(mem, layout.sx, x.data);
    ghost var first := mem[..];
    Load(mem, layout.sw, w.data);
    SliceKept(first, mem[..], layout.sw, layout.sw + Span(w.rows, w.cols), layout.sx, Span(x.rows, x.cols));
  }

  // Copies the int8 words of an operand into its STRELA buffer.
  method Load(mem: array<int>, base: nat, data: seq<int>)
    requires base + |data| <= mem.Length
    modifies mem
    ensures mem[..] == old(mem[..base]) + data + old(mem[base + |data|..])
  {
    for k := 0 to |data|
      invariant mem[..] == old(mem[..base]) + data[..k] + old(mem[base + k..])
    {
      mem[base + k] := data[k];
    }
  }

  // ---- The grid the compiler announces (ResolveWorkgroupCountPass.cpp) ----

  // One size of the lhs load: static, the workload ordinal it was read from, or
  // something else.
  datatype Size = StaticSize(size: nat) | WorkloadOrdinal(ordinal: nat) | UnknownSize

  // A matvec of 1 x N x C by 1 x C x F, or an elementwise kernel.
  datatype GridOp = Elementwise | MatvecOp(features: Option<nat>, lhsIsLoad: bool, rows: Size)

  // resolveSize: argument 0 of the count region is the device.
  function ResolveSize(size: Size, arguments: seq<nat>): (r: Result<nat>) {
    match size
    case StaticSize(n) => Success(n)
    case WorkloadOrdinal(k) => if 1 + k >= |arguments| then Failure(InvalidArgument) else Success(arguments[1 + k])
    case UnknownSize => Failure(InvalidArgument)
  }

  // buildCount
  function BuildCount(op: GridOp, arguments: seq<nat>): (r: Result<(nat, nat, nat)>) {
    match op
    case Elementwise => Success((1, 1, 1))
    case MatvecOp(features, lhsIsLoad, rows) =>
      if features.None? || features.value < 3 then Failure(InvalidArgument)
      else if !lhsIsLoad then Failure(InvalidArgument)
      else
        var y :- ResolveSize(rows, arguments);
        Success((CeilDiv(features.value, 3), y, 1))
  }

  // The grid on the fields of the op and the arguments: (ceildiv(F, 3), N, 1), where N
  // is the static size or the workload argument, after the device.
  lemma GridSize(op: GridOp, arguments: seq<nat>)
    ensures op.Elementwise? ==> BuildCount(op, arguments) == Success((1, 1, 1))
    ensures op.MatvecOp? ==>
              (BuildCount(op, arguments).Success?
               <==> && op.features.Some? && op.features.value >= 3 && op.lhsIsLoad && !op.rows.UnknownSize?
                    && (op.rows.WorkloadOrdinal? ==> 1 + op.rows.ordinal < |arguments|))
    ensures op.MatvecOp? && BuildCount(op, arguments).Success? ==>
              BuildCount(op, arguments).value
              == ((op.features.value + 2) / 3, if op.rows.StaticSize? then op.rows.size else arguments[1 + op.rows.ordinal], 1)
  {
  }

  // For N rows and F features the grid has one workgroup per job of the loop, and each
  // word of the result is written by exactly one of them.
  lemma GridIsTheJobs(rows: Size, arguments: seq<nat>, layout: Layout, K: nat, N: nat, F: nat, p: nat)
    requires F >= 3 && p < N * F
    requires || rows == StaticSize(N)
             || (rows.WorkloadOrdinal? && 1 + rows.ordinal < |arguments| && arguments[1 + rows.ordinal] == N)
    ensures var (gx, gy, gz) := BuildCount(MatvecOp(Some(F), true, rows), arguments).value;
            && 3 * (gx - 1) < F <= 3 * gx && gy == N && gz == 1
            && |JobsUpTo(F, gy * CeilDiv(F, 3))| == gx * gy * gz
            && exists t :: 0 <= t < gx * gy * gz && WritesWord(layout, K, F, t, p)
    ensures forall t: nat, u: nat :: WritesWord(layout, K, F, t, p) && WritesWord(layout, K, F, u, p) ==> t == u
  {
    EachWordWrittenOnce(layout, K, N, F, p);
  }
}
