// What wrapInTransfers of TransferWrapPass.cpp makes of the code around one op, and why
// the code still does the same.
module Wrapping {
  import opened Ir

  // isInt32Immediate: the value is a splat constant, which becomes part of the kernel.
  predicate IsImmediate(ops: seq<Op>, v: Value) {
    v.Result? && exists k :: 0 <= k < |ops| && ops[k].id == v.op && ops[k].code.SplatI32?
  }

  // ---- What wrapping one op makes of the code ----

  // The transfers made for the first n inputs of the op; their ids are the next free
  // ones.
  function InputTransfers(ops: seq<Op>, op: Op, next: nat, n: nat): (r: seq<Op>)
    requires n <= |op.operands|
  {
    if n == 0 then []
    else
      var before := InputTransfers(ops, op, next, n - 1);
      if IsImmediate(ops, op.operands[n - 1]) then before
      else before + [Op(next + |before|, Transfer(Strela), [op.operands[n - 1]], 1)]
  }

  // The operands when the first n inputs have been replaced.
  function WrappedOperands(ops: seq<Op>, op: Op, next: nat, n: nat): (r: seq<Value>)
    requires n <= |op.operands|
    ensures |r| == |op.operands|
  {
    if n == 0 then op.operands
    else
      var before := WrappedOperands(ops, op, next, n - 1);
      if IsImmediate(ops, op.operands[n - 1]) then before
      else before[n - 1 := Result(next + |InputTransfers(ops, op, next, n - 1)|, 0)]
  }

  // The transfers back of the first n results.
  function ResultTransfers(id: nat, next: nat, n: nat): (r: seq<Op>)
    ensures |r| == n
  {
    seq(n, i requires 0 <= i < n => Op(next + i, Transfer(Host), [Result(id, i)], 1))
  }

  // replaceAllUsesExcept, of the first n results of op `id` by their transfers back.
  function Redirect(v: Value, id: nat, next: nat, n: nat): (r: Value) {
    if v.Result? && v.op == id && v.i < n then Result(next + v.i, 0) else v
  }

  function RedirectOp(op: Op, id: nat, next: nat, n: nat): (r: Op)
    ensures r.id == op.id && r.code == op.code && r.results == op.results && |r.operands| == |op.operands|
  {
    op.(operands := seq(|op.operands|, k requires 0 <= k < |op.operands| => Redirect(op.operands[k], id, next, n)))
  }

  function RedirectAll(ops: seq<Op>, id: nat, next: nat, n: nat): (r: seq<Op>)
    ensures |r| == |ops|
  {
    seq(|ops|, k requires 0 <= k < |ops| => RedirectOp(ops[k], id, next, n))
  }

  // The code in parts: what came before, the transfers in, the op, the transfers back
  // and what follows.
  datatype Wrapping = Wrapping(before: seq<Op>, into: seq<Op>, op: Op, back: seq<Op>, after: seq<Op>)

  function Wrap(ops: seq<Op>, next: nat, p: nat): (w: Wrapping)
    requires p < |ops| && WellFormed(ops[p]) && ops[p].code.Linalg?
  {
    var op := ops[p];
    var into := InputTransfers(ops, op, next, op.code.inputs);
    var free := next + |into|;
    Wrapping(ops[..p], into, op.(operands := WrappedOperands(ops, op, next, op.code.inputs)),
             ResultTransfers(op.id, free, op.results), RedirectAll(ops[p + 1..], op.id, free, op.results))
  }

  function Assembled(w: Wrapping): (r: seq<Op>) {
    w.before + w.into + [w.op] + w.back + w.after
  }

  // ---- Wrapping keeps what the code does ----

  // The results of s are below `bound`; t has them, and no more below `bound`.
  predicate Extends(s: State, t: State, bound: nat) {
    && s.events == t.events
    && (forall id :: id in s.results ==> id < bound && id in t.results && t.results[id] == s.results[id])
    && (forall id :: id in t.results && id < bound ==> id in s.results)
  }

  predicate ValueBelow(v: Value, bound: nat) {
    v.Result? ==> v.op < bound
  }

  predicate AllBelow(values: seq<Value>, bound: nat) {
    forall k :: 0 <= k < |values| ==> ValueBelow(values[k], bound)
  }

  lemma ExtendsLookup(s: State, t: State, bound: nat, args: seq<int>, v: Value)
    requires Extends(s, t, bound) && ValueBelow(v, bound)
    ensures Lookup(t, args, v) == Lookup(s, args, v)
  {
  }

  // A transfer adds one result, which is its operand.
  lemma TransferReads(t: State, id: nat, place: Place, v: Value, args: seq<int>, m: Meaning)
    ensures var r := Run(t, [Op(id, Transfer(place), [v], 1)], args, m);
            && r.events == t.events && r.results == t.results[id := [Lookup(t, args, v)]]
            && Lookup(r, args, Result(id, 0)) == Lookup(t, args, v)
  {
    var op := Op(id, Transfer(place), [v], 1);
    assert [op][1..] == [];
    assert Run(Exec(t, op, args, m), [], args, m) == Exec(t, op, args, m);
    assert OperandValues(t, args, [v]) == [Lookup(t, args, v)];
  }

  lemma OtherLookup(t: State, r: State, id: nat, x: seq<int>, args: seq<int>, v: Value)
    requires r.results == t.results[id := x] && !(v.Result? && v.op == id)
    ensures Lookup(r, args, v) == Lookup(t, args, v)
  {
  }

  // Reading `wrapped` in t gives what reading `values` in s gives.
  predicate ReadsAs(t: State, wrapped: seq<Value>, s: State, values: seq<Value>, args: seq<int>) {
    |wrapped| == |values| && forall k :: 0 <= k < |values| ==> Lookup(t, args, wrapped[k]) == Lookup(s, args, values[k])
  }

  lemma MoveOne(s: State, t: State, values: seq<Value>, wrapped: seq<Value>, k: nat, id: nat, place: Place, bound: nat,
                args: seq<int>, m: Meaning)
    requires Extends(s, t, bound) && ReadsAs(t, wrapped, s, values, args) && bound <= id && AllBelow(wrapped, id)
    requires k < |values|
    ensures var r := Run(t, [Op(id, Transfer(place), [wrapped[k]], 1)], args, m);
            Extends(s, r, bound) && ReadsAs(r, wrapped[k := Result(id, 0)], s, values, args)
  {
    TransferReads(t, id, place, wrapped[k], args, m);
    var x := Lookup(t, args, wrapped[k]);
    var r := Run(t, [Op(id, Transfer(place), [wrapped[k]], 1)], args, m);
    hide Run, Lookup;
    forall i | 0 <= i < |values| && i != k
      ensures Lookup(r, args, wrapped[i]) == Lookup(s, args, values[i])
    {
      OtherLookup(t, r, id, [x], args, wrapped[i]);
    }
  }

  lemma MoveOneMore(s: State, before: seq<Op>, values: seq<Value>, wrapped: seq<Value>, k: nat, next: nat,
                    args: seq<int>, m: Meaning)
    requires var t := Run(s, before, args, m);
             Extends(s, t, next) && ReadsAs(t, wrapped, s, values, args)
    requires AllBelow(wrapped, next + |before|) && k < |values|
    ensures var id := next + |before|;
            var t := Run(s, before + [Op(id, Transfer(Strela), [wrapped[k]], 1)], args, m);
            Extends(s, t, next) && ReadsAs(t, wrapped[k := Result(id, 0)], s, values, args)
  {
    hide Run, Extends, AllBelow;
    var id := next + |before|;
    RunConcat(s, before, [Op(id, Transfer(Strela), [wrapped[k]], 1)], args, m);
    MoveOne(s, Run(s, before, args, m), values, wrapped, k, id, Strela, next, args, m);
  }

  lemma InputStep(ops: seq<Op>, op: Op, next: nat, n: nat)
    requires 0 < n <= |op.operands|
    ensures var before, v := InputTransfers(ops, op, next, n - 1), op.operands[n - 1];
            && (IsImmediate(ops, v) ==>
                  && InputTransfers(ops, op, next, n) == before
                  && WrappedOperands(ops, op, next, n) == WrappedOperands(ops, op, next, n - 1))
            && (!IsImmediate(ops, v) ==>
                  && InputTransfers(ops, op, next, n) == before + [Op(next + |before|, Transfer(Strela), [v], 1)]
                  && WrappedOperands(ops, op, next, n)
                     == WrappedOperands(ops, op, next, n - 1)[n - 1 := Result(next + |before|, 0)])
  {
  }

  // Running the transfers in adds their results only, and the wrapped operands read
  // what the operands read.
  lemma {:induction false} IntoAdds(ops: seq<Op>, op: Op, next: nat, n: nat, s: State, args: seq<int>, m: Meaning)
    requires n <= |op.operands| && AllBelow(op.operands, next) && Extends(s, s, next)
    ensures var t := Run(s, InputTransfers(ops, op, next, n), args, m);
            Extends(s, t, next) && ReadsAs(t, WrappedOperands(ops, op, next, n), s, op.operands, args)
  {
    hide Lookup;
    if n == 0 {
      assert InputTransfers(ops, op, next, 0) == [];
    } else {
      hide Run, IsImmediate, Extends, ReadsAs, AllBelow, InputTransfers, WrappedOperands;
      InputStep(ops, op, next, n);
      IntoAdds(ops, op, next, n - 1, s, args, m);
      var before, v := InputTransfers(ops, op, next, n - 1), op.operands[n - 1];
      WrappedBelow(ops, op, next, n - 1);
      if !IsImmediate(ops, v) {
        assert WrappedOperands(ops, op, next, n - 1)[n - 1] == v;
        MoveOneMore(s, before, op.operands, WrappedOperands(ops, op, next, n - 1), n - 1, next, args, m);
      }
    }
  }

  lemma {:induction false} WrappedBelow(ops: seq<Op>, op: Op, next: nat, n: nat)
    requires n <= |op.operands| && AllBelow(op.operands, next)
    ensures AllBelow(WrappedOperands(ops, op, next, n), next + |InputTransfers(ops, op, next, n)|)
    ensures forall k :: n <= k < |op.operands| ==> WrappedOperands(ops, op, next, n)[k] == op.operands[k]
  {
    if n != 0 {
      WrappedBelow(ops, op, next, n - 1);
    }
  }

  // Running the transfers back adds their results only: what they move.
  lemma {:induction false} BackAdds(t: State, id: nat, free: nat, n: nat, args: seq<int>, m: Meaning)
    requires Extends(t, t, free) && id < free
    ensures var r := Run(t, ResultTransfers(id, free, n), args, m);
            && Extends(t, r, free)
            && forall i :: 0 <= i < n ==> Lookup(r, args, Result(free + i, 0)) == Lookup(t, args, Result(id, i))
  {
    if n != 0 {
      BackAdds(t, id, free, n - 1, args, m);
      var before, back := ResultTransfers(id, free, n - 1), Op(free + (n - 1), Transfer(Host), [Result(id, n - 1)], 1);
      assert ResultTransfers(id, free, n) == before + [back];
      RunConcat(t, before, [back], args, m);
      var r := Run(t, before, args, m);
      TransferReads(r, free + (n - 1), Host, Result(id, n - 1), args, m);
      ExtendsLookup(t, r, free, args, Result(id, n - 1));
    }
  }

  // s and r have done the same, and every value below `bound` of s can be read in r
  // directly or through the transfers back.
  ghost predicate Mirrors(s: State, r: State, id: nat, free: nat, n: nat, bound: nat, args: seq<int>) {
    && s.events == r.events
    && forall v :: ValueBelow(v, bound) ==>
         Lookup(r, args, v) == Lookup(s, args, v) && Lookup(r, args, Redirect(v, id, free, n)) == Lookup(s, args, v)
  }

  lemma ExecMirrors(s: State, r: State, op: Op, id: nat, free: nat, n: nat, bound: nat, args: seq<int>, m: Meaning)
    requires Mirrors(s, r, id, free, n, bound, args) && bound <= free
    requires op.id != id && op.id < bound && AllBelow(op.operands, bound)
    ensures Mirrors(Exec(s, op, args, m), Exec(r, RedirectOp(op, id, free, n), args, m), id, free, n, bound, args)
  {
    var o := RedirectOp(op, id, free, n);
    forall k | 0 <= k < |op.operands|
      ensures Lookup(r, args, o.operands[k]) == Lookup(s, args, op.operands[k])
    {
      assert ValueBelow(op.operands[k], bound);
    }
    assert OperandValues(r, args, o.operands) == OperandValues(s, args, op.operands);
  }

  lemma {:induction false} AfterMirrors(s: State, r: State, ops: seq<Op>, id: nat, free: nat, n: nat, bound: nat,
                                        args: seq<int>, m: Meaning)
    requires Mirrors(s, r, id, free, n, bound, args) && bound <= free
    requires forall k :: 0 <= k < |ops| ==> ops[k].id != id && ops[k].id < bound && AllBelow(ops[k].operands, bound)
    ensures Mirrors(Run(s, ops, args, m), Run(r, RedirectAll(ops, id, free, n), args, m), id, free, n, bound, args)
    decreases |ops|
  {
    if ops != [] {
      ExecMirrors(s, r, ops[0], id, free, n, bound, args, m);
      assert RedirectAll(ops, id, free, n)[1..] == RedirectAll(ops[1..], id, free, n);
      hide Mirrors;
      AfterMirrors(Exec(s, ops[0], args, m), Exec(r, RedirectOp(ops[0], id, free, n), args, m), ops[1..],
                   id, free, n, bound, args, m);
    }
  }

  lemma {:induction false} RunsBelow(s: State, ops: seq<Op>, bound: nat, args: seq<int>, m: Meaning)
    requires Extends(s, s, bound) && forall k :: 0 <= k < |ops| ==> ops[k].id < bound
    ensures var t := Run(s, ops, args, m);
            Extends(t, t, bound)
    decreases |ops|
  {
    if ops != [] {
      RunsBelow(Exec(s, ops[0], args, m), ops[1..], bound, args, m);
    }
  }

  // The transfer of an operand of the op, with this id.
  predicate IsTransferIn(o: Op, op: Op, id: nat) {
    o.id == id && o.code == Transfer(Strela) && o.results == 1 && |o.operands| == 1 && o.operands[0] in op.operands
  }

  lemma {:induction false} IntoIds(ops: seq<Op>, op: Op, next: nat, n: nat)
    requires n <= |op.operands|
    ensures var into := InputTransfers(ops, op, next, n);
            forall k {:trigger into[k]} :: 0 <= k < |into| ==> IsTransferIn(into[k], op, next + k)
  {
    if n != 0 {
      IntoIds(ops, op, next, n - 1);
      var before, v := InputTransfers(ops, op, next, n - 1), op.operands[n - 1];
      var into := InputTransfers(ops, op, next, n);
      InputStep(ops, op, next, n);
      forall k | 0 <= k < |into|
        ensures IsTransferIn(into[k], op, next + k)
      {
        if k < |before| {
          assert into[k] == before[k];
        } else {
          assert v in op.operands && into[k].operands == [v];
        }
      }
    }
  }

  lemma IntoAt(ops: seq<Op>, op: Op, next: nat, n: nat, k: nat)
    requires n <= |op.operands| && k < |InputTransfers(ops, op, next, n)|
    ensures IsTransferIn(InputTransfers(ops, op, next, n)[k], op, next + k)
  {
    IntoIds(ops, op, next, n);
  }

  // The op itself does the same on the wrapped operands.
  lemma OpExtends(s: State, t: State, op: Op, wrapped: seq<Value>, next: nat, args: seq<int>, m: Meaning)
    requires Extends(s, t, next) && ReadsAs(t, wrapped, s, op.operands, args) && op.code.Linalg? && op.id < next
    ensures Extends(Exec(s, op, args, m), Exec(t, op.(operands := wrapped), args, m), next)
  {
    assert OperandValues(s, args, op.operands) == OperandValues(t, args, wrapped);
  }

  lemma BackMirrors(s: State, t: State, r: State, id: nat, free: nat, n: nat, next: nat, args: seq<int>)
    requires Extends(s, t, next) && Extends(t, r, free) && id < next <= free
    requires forall i :: 0 <= i < n ==> Lookup(r, args, Result(free + i, 0)) == Lookup(t, args, Result(id, i))
    ensures Mirrors(s, r, id, free, n, next, args)
  {
    forall v | ValueBelow(v, next)
      ensures Lookup(r, args, v) == Lookup(s, args, v) && Lookup(r, args, Redirect(v, id, free, n)) == Lookup(s, args, v)
    {
      ExtendsLookup(s, t, next, args, v);
      ExtendsLookup(t, r, free, args, v);
    }
  }

  // Ids are distinct, and ids and operands are below `next`.
  predicate UsesBelow(ops: seq<Op>, next: nat) {
    && (forall k :: 0 <= k < |ops| ==> ops[k].id < next && AllBelow(ops[k].operands, next))
    && forall j, k :: 0 <= j < k < |ops| ==> ops[j].id != ops[k].id
  }

  // Reading transfers as the identity, the wrapped code does what the code did.
  lemma WrapMirrors(ops: seq<Op>, next: nat, p: nat, args: seq<int>, m: Meaning)
    requires UsesBelow(ops, next) && p < |ops| && WellFormed(ops[p]) && ops[p].code.Linalg?
    ensures var w := Wrap(ops, next, p);
            Mirrors(Behaviour(ops, args, m), Behaviour(Assembled(w), args, m), ops[p].id, next + |w.into|, ops[p].results,
                    next, args)
  {
    hide Run, Exec, Extends, ReadsAs, Mirrors, InputTransfers, WrappedOperands, ResultTransfers, RedirectAll;
    var op, w := ops[p], Wrap(ops, next, p);
    var free := next + |w.into|;
    var start := State(map[], []);
    var s0 := Run(start, ops[..p], args, m);
    NothingYet(next);
    RunsBelow(start, ops[..p], next, args, m);
    IntoAdds(ops, op, next, op.code.inputs, s0, args, m);
    IntoIds(ops, op, next, op.code.inputs);
    var t1 := Run(s0, w.into, args, m);
    Widen(s0, next, free);
    RunsBelow(s0, w.into, free, args, m);
    OpExtends(s0, t1, op, w.op.operands, next, args, m);
    var s1, t2 := Exec(s0, op, args, m), Exec(t1, w.op, args, m);
    ExecBelow(t1, w.op, free, args, m);
    BackAdds(t2, op.id, free, op.results, args, m);
    var t3 := Run(t2, w.back, args, m);
    BackMirrors(s1, t2, t3, op.id, free, op.results, next, args);
    AfterMirrors(s1, t3, ops[p + 1..], op.id, free, op.results, next, args, m);
    assert ops == ops[..p] + [] + [op] + [] + ops[p + 1..];
    RunParts(start, ops[..p], [], op, [], ops[p + 1..], args, m);
    RunNothing(s0, args, m);
    RunNothing(s1, args, m);
    RunParts(start, ops[..p], w.into, w.op, w.back, w.after, args, m);
  }

  lemma RunNothing(s: State, args: seq<int>, m: Meaning)
    ensures Run(s, [], args, m) == s
  {
  }

  lemma NothingYet(bound: nat)
    ensures Extends(State(map[], []), State(map[], []), bound)
  {
  }

  lemma Widen(s: State, bound: nat, more: nat)
    requires Extends(s, s, bound) && bound <= more
    ensures Extends(s, s, more)
  {
  }

  lemma ExecBelow(s: State, op: Op, bound: nat, args: seq<int>, m: Meaning)
    requires Extends(s, s, bound) && op.id < bound
    ensures Extends(Exec(s, op, args, m), Exec(s, op, args, m), bound)
  {
  }

  lemma RunParts(s: State, a: seq<Op>, b: seq<Op>, op: Op, c: seq<Op>, d: seq<Op>, args: seq<int>, m: Meaning)
    ensures Run(s, a + b + [op] + c + d, args, m)
            == Run(Run(Exec(Run(Run(s, a, args, m), b, args, m), op, args, m), c, args, m), d, args, m)
  {
    hide Run, Exec;
    RunConcat(s, a + b + [op] + c, d, args, m);
    RunConcat(s, a + b + [op], c, args, m);
    RunConcat(s, a + b, [op], args, m);
    RunConcat(s, a, b, args, m);
    RunOne(Run(s, a + b, args, m), op, args, m);
  }

  lemma RunOne(s: State, op: Op, args: seq<int>, m: Meaning)
    ensures Run(s, [op], args, m) == Exec(s, op, args, m)
  {
    assert [op][1..] == [];
    assert Run(Exec(s, op, args, m), [], args, m) == Exec(s, op, args, m);
  }
}
