// What a STRELA job means on flat memory: streams of words in, streams of words
// out. The kernel itself is a parameter.
module Jobs {
  import opened Words
  import opened Memory

  // One DMA column: `count` words, `stride` words apart, from word `offset`.
  datatype Stream = Stream(offset: nat, count: nat, stride: nat)

  // strela_conf: the columns of a job. Outputs are always consecutive words.
  datatype Conf = Conf(inputs: seq<Stream>, outputs: seq<Stream>)

  // Word `k` of output column `c` that a bitstream makes of the input streams. The words
  // of the bitstream are not interpreted.
  type Semantics = (seq<u32>, seq<seq<u32>>, nat, nat) -> u32

  // Every kernel computes what the bitstream loaded into it does.
  datatype Kernels = Kernels(semantics: Semantics, loaded: map<nat, seq<u32>>) {
    function Word(id: nat, ins: seq<seq<u32>>, c: nat, k: nat): (word: u32) {
      semantics(if id in loaded then loaded[id] else [], ins, c, k)
    }
  }

  datatype Write = Write(word: nat, value: u32)

  // Every word of the stream lies on one of the lines.
  ghost predicate StreamOn(s: Stream, lines: set<nat>) {
    forall i :: 0 <= i < s.count ==> StreamWord(s, i) / 16 in lines
  }

  function StreamWord(s: Stream, i: nat): (w: nat) {
    s.offset + i * s.stride
  }

  ghost predicate ConfOn(conf: Conf, lines: set<nat>) {
    && (forall s :: s in conf.inputs ==> StreamOn(s, lines))
    && (forall s :: s in conf.outputs ==> s.stride == 1 && StreamOn(s, lines))
  }

  predicate LinesExist(lines: set<nat>, n: nat) {
    forall l :: l in lines ==> l < n
  }

  ghost function ReadStream(v: Flat, s: Stream, lines: set<nat>): (r: seq<u32>)
    requires LinesExist(lines, |v|) && StreamOn(s, lines)
  {
    seq(s.count, i requires 0 <= i < s.count => WordAt(v, StreamWord(s, i)))
  }

  ghost function ReadStreams(v: Flat, ss: seq<Stream>, lines: set<nat>): (r: seq<seq<u32>>)
    requires LinesExist(lines, |v|) && forall s :: s in ss ==> StreamOn(s, lines)
  {
    seq(|ss|, c requires 0 <= c < |ss| => ReadStream(v, ss[c], lines))
  }

  function ColumnWrites(kernels: Kernels, id: nat, ins: seq<seq<u32>>, s: Stream, c: nat): (ws: seq<Write>)
    ensures |ws| == s.count
  {
    seq(s.count, k requires 0 <= k < s.count => Write(StreamWord(s, k), kernels.Word(id, ins, c, k)))
  }

  // The words a job writes, column after column, from output column `c` on.
  function JobWrites(kernels: Kernels, id: nat, ins: seq<seq<u32>>, outs: seq<Stream>, c: nat): (ws: seq<Write>)
    requires c <= |outs|
    ensures forall w :: w in ws ==> InStreams(w.word, outs)
    decreases |outs| - c
  {
    if c == |outs| then []
    else ColumnWrites(kernels, id, ins, outs[c], c) + JobWrites(kernels, id, ins, outs, c + 1)
  }

  predicate InStream(w: nat, s: Stream) {
    exists i :: 0 <= i < s.count && StreamWord(s, i) == w
  }

  predicate InStreams(w: nat, ss: seq<Stream>) {
    exists c :: 0 <= c < |ss| && InStream(w, ss[c])
  }

  function ApplyWrites(v: Flat, ws: seq<Write>): (r: Flat)
    requires forall w :: w in ws ==> w.word / 16 < |v|
    ensures |r| == |v|
  {
    if ws == [] then v
    else
      var last := ws[|ws| - 1];
      assert last in ws;
      PutWord(ApplyWrites(v, ws[..|ws| - 1]), last.word, last.value)
  }

  lemma WritesStayOn(kernels: Kernels, id: nat, ins: seq<seq<u32>>, conf: Conf, lines: set<nat>)
    requires ConfOn(conf, lines)
    ensures forall w :: w in JobWrites(kernels, id, ins, conf.outputs, 0) ==> w.word / 16 in lines
  {
    forall w | w in JobWrites(kernels, id, ins, conf.outputs, 0)
      ensures w.word / 16 in lines
    {
      var c :| 0 <= c < |conf.outputs| && InStream(w.word, conf.outputs[c]);
      assert conf.outputs[c] in conf.outputs;
    }
  }

  // The whole job on flat memory.
  ghost function FlatJob(v: Flat, kernels: Kernels, id: nat, conf: Conf, lines: set<nat>): (r: Flat)
    requires LinesExist(lines, |v|) && ConfOn(conf, lines)
    ensures |r| == |v|
  {
    WritesStayOn(kernels, id, ReadStreams(v, conf.inputs, lines), conf, lines);
    ApplyWrites(v, JobWrites(kernels, id, ReadStreams(v, conf.inputs, lines), conf.outputs, 0))
  }

  // The lines the outputs of a job touch.
  ghost function OutputLines(conf: Conf, lines: set<nat>): (r: set<nat>)
    requires ConfOn(conf, lines)
    ensures r <= lines
  {
    set l | l in lines && exists w: nat :: w / 16 == l && InStreams(w, conf.outputs)
  }

  // ---- Framing ----

  ghost predicate AgreeOn(v: Flat, w: Flat, lines: set<nat>) {
    |v| == |w| && forall l :: l in lines && l < |v| ==> v[l] == w[l]
  }

  // v and w hold the same words of `lines`, except perhaps those of `outs`.
  ghost predicate SameOutside(v: Flat, w: Flat, lines: set<nat>, outs: seq<Stream>)
    requires LinesExist(lines, |v|) && |v| == |w|
  {
    forall u: nat :: u / 16 in lines && !InStreams(u, outs) ==> WordAt(v, u) == WordAt(w, u)
  }

  lemma ReadStreamsAgree(v: Flat, w: Flat, ss: seq<Stream>, lines: set<nat>)
    requires LinesExist(lines, |v|) && AgreeOn(v, w, lines)
    requires forall s :: s in ss ==> StreamOn(s, lines)
    ensures ReadStreams(v, ss, lines) == ReadStreams(w, ss, lines)
  {
    forall c | 0 <= c < |ss|
      ensures ReadStream(v, ss[c], lines) == ReadStream(w, ss[c], lines)
    {
      assert ss[c] in ss;
    }
  }

  lemma PutWordAgrees(v: Flat, w: Flat, word: nat, value: u32, lines: set<nat>)
    requires LinesExist(lines, |v|) && AgreeOn(v, w, lines) && word / 16 in lines
    ensures AgreeOn(PutWord(v, word, value), PutWord(w, word, value), lines)
  {
  }

  lemma {:induction false} ApplyWritesAgree(v: Flat, w: Flat, ws: seq<Write>, lines: set<nat>)
    requires LinesExist(lines, |v|) && AgreeOn(v, w, lines)
    requires forall x :: x in ws ==> x.word / 16 in lines
    ensures AgreeOn(ApplyWrites(v, ws), ApplyWrites(w, ws), lines)
  {
    if ws != [] {
      assert ws[|ws| - 1] in ws;
      ApplyWritesAgree(v, w, ws[..|ws| - 1], lines);
    }
  }

  // A job depends on, and changes, nothing outside the lines of its columns.
  lemma FlatJobAgrees(v: Flat, w: Flat, kernels: Kernels, id: nat, conf: Conf, lines: set<nat>)
    requires LinesExist(lines, |v|) && ConfOn(conf, lines) && AgreeOn(v, w, lines)
    ensures AgreeOn(FlatJob(v, kernels, id, conf, lines), FlatJob(w, kernels, id, conf, lines), lines)
  {
    ReadStreamsAgree(v, w, conf.inputs, lines);
    var ins := ReadStreams(v, conf.inputs, lines);
    WritesStayOn(kernels, id, ins, conf, lines);
    ApplyWritesAgree(v, w, JobWrites(kernels, id, ins, conf.outputs, 0), lines);
  }

  // ---- What a job leaves in memory ----

  lemma {:induction false} ApplyWritesElsewhere(v: Flat, ws: seq<Write>, u: nat)
    requires forall x :: x in ws ==> x.word / 16 < |v|
    requires u / 16 < |v| && forall x :: x in ws ==> x.word != u
    ensures WordAt(ApplyWrites(v, ws), u) == WordAt(v, u)
  {
    if ws != [] {
      assert ws[|ws| - 1] in ws;
      ApplyWritesElsewhere(v, ws[..|ws| - 1], u);
    }
  }

  lemma {:induction false} ApplyWritesConcat(v: Flat, xs: seq<Write>, ys: seq<Write>)
    requires forall x :: x in xs + ys ==> x.word / 16 < |v|
    ensures (forall x :: x in xs ==> x.word / 16 < |v|) && (forall x :: x in ys ==> x.word / 16 < |v|)
    ensures ApplyWrites(v, xs + ys) == ApplyWrites(ApplyWrites(v, xs), ys)
  {
    assert forall x :: x in xs ==> x in xs + ys;
    assert forall x :: x in ys ==> x in xs + ys;
    if ys == [] {
      assert xs + ys == xs;
    } else {
      var most := ys[..|ys| - 1];
      assert (xs + ys)[..|xs + ys| - 1] == xs + most;
      assert forall x :: x in xs + most ==> x in xs + ys;
      ApplyWritesConcat(v, xs, most);
    }
  }

  lemma {:induction false} ApplyDistinctWrites(v: Flat, ws: seq<Write>, k: nat)
    requires k < |ws| && forall x :: x in ws ==> x.word / 16 < |v|
    requires forall i, j :: 0 <= i < j < |ws| ==> ws[i].word != ws[j].word
    ensures ws[k] in ws && WordAt(ApplyWrites(v, ws), ws[k].word) == ws[k].value
  {
    var last := |ws| - 1;
    assert ws[last] in ws && ws[k] in ws;
    if k != last {
      ApplyDistinctWrites(v, ws[..last], k);
    }
  }

  // A job with one output column leaves that column's words in memory, and nothing
  // else changes.
  lemma SingleOutput(v: Flat, kernels: Kernels, id: nat, conf: Conf, lines: set<nat>, c: nat)
    requires LinesExist(lines, |v|) && ConfOn(conf, lines) && c < |conf.outputs|
    requires forall d :: 0 <= d < |conf.outputs| && d != c ==> conf.outputs[d].count == 0
    ensures conf.outputs[c] in conf.outputs
    ensures forall k :: 0 <= k < conf.outputs[c].count
              ==> WordAt(FlatJob(v, kernels, id, conf, lines), StreamWord(conf.outputs[c], k))
                  == kernels.Word(id, ReadStreams(v, conf.inputs, lines), c, k)
    ensures SameOutside(v, FlatJob(v, kernels, id, conf, lines), lines, conf.outputs)
  {
    hide PutWord, WordOf, ReadStreams, ApplyWrites;
    var ins := ReadStreams(v, conf.inputs, lines);
    var ws := JobWrites(kernels, id, ins, conf.outputs, 0);
    WritesStayOn(kernels, id, ins, conf, lines);
    OnlyColumn(kernels, id, ins, conf.outputs, c, 0);
    var s := conf.outputs[c];
    assert s in conf.outputs;
    assert forall i :: 0 <= i < s.count ==> ws[i] == Write(s.offset + i, kernels.Word(id, ins, c, i));
    forall k | 0 <= k < s.count
      ensures WordAt(FlatJob(v, kernels, id, conf, lines), StreamWord(s, k)) == kernels.Word(id, ins, c, k)
    {
      ApplyDistinctWrites(v, ws, k);
      assert ws[k].word == StreamWord(s, k);
    }
    forall u: nat | u / 16 in lines && !InStreams(u, conf.outputs)
      ensures WordAt(FlatJob(v, kernels, id, conf, lines), u) == WordAt(v, u)
    {
      ApplyWritesElsewhere(v, ws, u);
    }
  }

  lemma {:induction false} OnlyColumn(kernels: Kernels, id: nat, ins: seq<seq<u32>>, outs: seq<Stream>, c: nat, from: nat)
    requires from <= |outs| && c < |outs|
    requires forall d :: 0 <= d < |outs| && d != c ==> outs[d].count == 0
    ensures JobWrites(kernels, id, ins, outs, from)
            == if from <= c then ColumnWrites(kernels, id, ins, outs[c], c) else []
    decreases |outs| - from
  {
    hide InStreams, StreamWord, ColumnWrites;
    if from < |outs| {
      OnlyColumn(kernels, id, ins, outs, c, from + 1);
      var rest := JobWrites(kernels, id, ins, outs, from + 1);
      if from == c {
        assert rest == [];
        assert ColumnWrites(kernels, id, ins, outs[c], c) + rest == ColumnWrites(kernels, id, ins, outs[c], c);
      } else {
        assert ColumnWrites(kernels, id, ins, outs[from], from) == [];
        assert [] + rest == rest;
      }
    }
  }
}
