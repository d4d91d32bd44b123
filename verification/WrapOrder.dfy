// Wrapping an op in transfers keeps every definition before its uses.
module WrapOrder {
  import opened Ir
  import opened Wrapping

  predicate Defined(ops: seq<Op>, v: Value) {
    DefinedBefore(ops, |ops|, v)
  }

  predicate AllDefined(ops: seq<Op>, values: seq<Value>) {
    forall k :: 0 <= k < |values| ==> Defined(ops, values[k])
  }

  predicate Fresh(ops: seq<Op>, id: nat) {
    forall k :: 0 <= k < |ops| ==> ops[k].id != id
  }

  lemma DefinedConcat(a: seq<Op>, b: seq<Op>, v: Value)
    ensures Defined(a, v) ==> Defined(a + b, v)
    ensures Defined(b, v) ==> Defined(a + b, v)
  {
    if v.Result? && Defined(a, v) {
      var j :| 0 <= j < |a| && a[j].id == v.op && v.i < a[j].results;
      assert (a + b)[j] == a[j];
    }
    if v.Result? && Defined(b, v) {
      var j :| 0 <= j < |b| && b[j].id == v.op && v.i < b[j].results;
      assert (a + b)[|a| + j] == b[j];
    }
  }

  lemma Append(ops: seq<Op>, next: nat, o: Op, bound: nat)
    requires Ssa(ops, next) && next <= bound && WellFormed(o) && Fresh(ops, o.id) && o.id < bound
    requires forall k :: 0 <= k < |o.operands| ==> Defined(ops, o.operands[k])
    ensures Ssa(ops + [o], bound)
  {
    var r := ops + [o];
    forall k, v | 0 <= k < |r| && v in r[k].operands
      ensures DefinedBefore(r, k, v)
    {
      if k < |ops| {
        assert DefinedBefore(ops, k, v);
      } else {
        assert DefinedBefore(ops, |ops|, v);
      }
      PrefixDefines(ops, [o], k, v);
    }
  }

  lemma PrefixDefines(a: seq<Op>, b: seq<Op>, k: nat, v: Value)
    requires k <= |a|
    ensures DefinedBefore(a, k, v) <==> DefinedBefore(a + b, k, v)
  {
    assert forall j :: 0 <= j < k ==> (a + b)[j] == a[j];
    if v.Result? && DefinedBefore(a, k, v) {
      var j :| 0 <= j < k && a[j].id == v.op && v.i < a[j].results;
      assert (a + b)[j].id == v.op;
    }
  }

  lemma SsaPrefix(ops: seq<Op>, next: nat, p: nat)
    requires Ssa(ops, next) && p <= |ops|
    ensures Ssa(ops[..p], next)
  {
    var a, b := ops[..p], ops[p..];
    assert a + b == ops;
    forall k, v | 0 <= k < |a| && v in a[k].operands
      ensures DefinedBefore(a, k, v)
    {
      assert v in ops[k].operands;
      PrefixDefines(a, b, k, v);
    }
  }

  // An operand of op k is defined by the ops before it.
  lemma OperandDefined(ops: seq<Op>, next: nat, k: nat, i: nat)
    requires Ssa(ops, next) && k < |ops| && i < |ops[k].operands|
    ensures Defined(ops[..k], ops[k].operands[i])
  {
    assert ops[k].operands[i] in ops[k].operands;
    assert ops[..k] + ops[k..] == ops;
    PrefixDefines(ops[..k], ops[k..], k, ops[k].operands[i]);
  }

  lemma {:induction false} IntoIsSsa(ops: seq<Op>, op: Op, next: nat, n: nat, before: seq<Op>)
    requires n <= |op.operands| && Ssa(before, next) && AllDefined(before, op.operands)
    ensures var into := InputTransfers(ops, op, next, n);
            Ssa(before + into, next + |into|) && AllDefined(before + into, WrappedOperands(ops, op, next, n))
  {
    hide IsImmediate, Ssa, AllDefined;
    if n == 0 {
      assert before + [] == before;
    } else {
      IntoIsSsa(ops, op, next, n - 1, before);
      InputStep(ops, op, next, n);
      hide InputTransfers, WrappedOperands;
      if !IsImmediate(ops, op.operands[n - 1]) {
        OneMoreTransfer(before, InputTransfers(ops, op, next, n - 1), op.operands, WrappedOperands(ops, op, next, n - 1), n - 1,
                        next + |InputTransfers(ops, op, next, n - 1)|);
      }
    }
  }

  lemma OneMoreTransfer(before: seq<Op>, into: seq<Op>, values: seq<Value>, wrapped: seq<Value>, n: nat, id: nat)
    requires Ssa(before + into, id) && AllDefined(before, values) && n < |wrapped| == |values|
    requires AllDefined(before + into, wrapped)
    ensures var more := into + [Op(id, Transfer(Strela), [values[n]], 1)];
            Ssa(before + more, id + 1) && AllDefined(before + more, wrapped[n := Result(id, 0)])
  {
    hide Ssa, Defined;
    var o, after := Op(id, Transfer(Strela), [values[n]], 1), wrapped[n := Result(id, 0)];
    DefinedConcat(before, into, values[n]);
    SsaIsFresh(before + into, id);
    Append(before + into, id, o, id + 1);
    assert before + (into + [o]) == before + into + [o];
    DefinesItself(o, Result(id, 0));
    forall k | 0 <= k < |wrapped|
      ensures Defined(before + into + [o], after[k])
    {
      DefinedConcat(before + into, [o], after[k]);
    }
  }

  lemma SsaIsFresh(ops: seq<Op>, next: nat)
    requires Ssa(ops, next)
    ensures forall id :: id >= next ==> Fresh(ops, id)
  {
  }

  lemma DefinesItself(o: Op, v: Value)
    requires v.Result? && v.op == o.id && v.i < o.results
    ensures Defined([o], v)
  {
    assert [o][0].id == v.op;
  }

  lemma {:induction false} BackIsSsa(head: seq<Op>, j: nat, free: nat, n: nat)
    requires Ssa(head, free) && j < |head| && n <= head[j].results
    ensures Ssa(head + ResultTransfers(head[j].id, free, n), free + n)
  {
    var id := head[j].id;
    if n == 0 {
      assert head + ResultTransfers(id, free, 0) == head;
    } else {
      hide Ssa;
      BackIsSsa(head, j, free, n - 1);
      var before := ResultTransfers(id, free, n - 1);
      var o := Op(free + (n - 1), Transfer(Host), [Result(id, n - 1)], 1);
      assert head + ResultTransfers(id, free, n) == head + before + [o];
      assert Defined(head, Result(id, n - 1));
      DefinedConcat(head, before, Result(id, n - 1));
      SsaIsFresh(head + before, free + (n - 1));
      Append(head + before, free + (n - 1), o, free + n);
    }
  }

  lemma BackDefines(id: nat, free: nat, n: nat, i: nat)
    requires i < n
    ensures Defined(ResultTransfers(id, free, n), Result(free + i, 0))
  {
    assert ResultTransfers(id, free, n)[i].id == free + i;
  }

  // The first i ops after the wrapped one, redirected, keep their definitions.
  lemma {:induction false} AfterIsSsa(ops: seq<Op>, next: nat, p: nat, head: seq<Op>, free: nat, bound: nat, i: nat)
    requires Ssa(ops, next) && p < |ops| && i <= |ops| - p - 1 && Ssa(head, bound) && next <= free <= bound
    requires Carries(head, ops, p, free) && forall k :: 0 <= k < |head| ==> head[k].id >= next || !Fresh(ops[..p + 1], head[k].id)
    ensures Ssa(head + RedirectAll(ops[p + 1..p + 1 + i], ops[p].id, free, ops[p].results), bound)
  {
    var id, n := ops[p].id, ops[p].results;
    hide Ssa, Fresh, Carries;
    if i == 0 {
      assert head + RedirectAll(ops[p + 1..p + 1], id, free, n) == head;
    } else {
      AfterIsSsa(ops, next, p, head, free, bound, i - 1);
      assert ops[p + 1..p + 1 + i] == ops[p + 1..p + i] + [ops[p + i]];
      hide RedirectAll;
      RedirectOneOp(ops[p + 1..p + i], ops[p + i], id, free, n);
      OneMoreAfter(ops, next, p, head, free, bound, i - 1);
      Regroup(head, RedirectAll(ops[p + 1..p + i], id, free, n), RedirectOp(ops[p + i], id, free, n));
    }
  }

  lemma Regroup(a: seq<Op>, b: seq<Op>, o: Op)
    ensures a + b + [o] == a + (b + [o])
  {
  }

  // One more op after the wrapped one.
  lemma OneMoreAfter(ops: seq<Op>, next: nat, p: nat, head: seq<Op>, free: nat, bound: nat, i: nat)
    requires Ssa(ops, next) && p < |ops| && i < |ops| - p - 1 && next <= free <= bound && Carries(head, ops, p, free)
    requires forall k :: 0 <= k < |head| ==> head[k].id >= next || !Fresh(ops[..p + 1], head[k].id)
    requires Ssa(head + RedirectAll(ops[p + 1..p + 1 + i], ops[p].id, free, ops[p].results), bound)
    ensures var id, n := ops[p].id, ops[p].results;
            Ssa(head + RedirectAll(ops[p + 1..p + 1 + i], id, free, n) + [RedirectOp(ops[p + 1 + i], id, free, n)], bound)
  {
    hide Ssa, Fresh, Defined, Carries, Redirect, RedirectAll;
    var id, n, o := ops[p].id, ops[p].results, ops[p + 1 + i];
    var now := head + RedirectAll(ops[p + 1..p + 1 + i], id, free, n);
    SsaMeans(ops, next, p + 1 + i);
    FreshAfter(ops, next, p, head, free, i);
    RedirectOneOp([], o, id, free, n);
    forall k | 0 <= k < |o.operands|
      ensures Defined(now, RedirectOp(o, id, free, n).operands[k])
    {
      OperandDefined(ops, next, p + 1 + i, k);
      RedirectDefined(ops, next, p, head, free, i, o.operands[k]);
    }
    hide RedirectOp;
    Append(now, bound, RedirectOp(o, id, free, n), bound);
  }

  lemma RedirectOneOp(done: seq<Op>, o: Op, id: nat, free: nat, n: nat)
    ensures RedirectAll(done + [o], id, free, n) == RedirectAll(done, id, free, n) + [RedirectOp(o, id, free, n)]
    ensures WellFormed(o) ==> WellFormed(RedirectOp(o, id, free, n))
  {
  }

  // `head` defines what the ops before p define, and the transfers back of the
  // results of op p.
  ghost predicate Carries(head: seq<Op>, ops: seq<Op>, p: nat, free: nat)
    requires p < |ops|
  {
    && (forall v :: Defined(ops[..p], v) ==> Defined(head, v))
    && forall v: Value :: v.Result? && free <= v.op < free + ops[p].results && v.i == 0 ==> Defined(head, v)
  }

  lemma RedirectDefined(ops: seq<Op>, next: nat, p: nat, head: seq<Op>, free: nat, i: nat, v: Value)
    requires Ssa(ops, next) && p < |ops| && i < |ops| - p - 1 && next <= free && Carries(head, ops, p, free)
    requires Defined(ops[..p + 1 + i], v)
    ensures var id, n := ops[p].id, ops[p].results;
            Defined(head + RedirectAll(ops[p + 1..p + 1 + i], id, free, n), Redirect(v, id, free, n))
  {
    var id, n := ops[p].id, ops[p].results;
    var after := RedirectAll(ops[p + 1..p + 1 + i], id, free, n);
    DefinedConcat(head, after, Redirect(v, id, free, n));
    if v.Result? {
      var j :| 0 <= j < p + 1 + i && ops[..p + 1 + i][j].id == v.op && v.i < ops[..p + 1 + i][j].results;
      if j < p {
        assert ops[..p][j].id == v.op;
        assert Defined(ops[..p], v);
      } else if j > p {
        assert after[j - p - 1].id == v.op;
        assert Defined(after, v);
      }
    }
  }

  lemma FreshAfter(ops: seq<Op>, next: nat, p: nat, head: seq<Op>, free: nat, i: nat)
    requires Ssa(ops, next) && p < |ops| && i < |ops| - p - 1
    requires forall k :: 0 <= k < |head| ==> head[k].id >= next || !Fresh(ops[..p + 1], head[k].id)
    ensures Fresh(head + RedirectAll(ops[p + 1..p + 1 + i], ops[p].id, free, ops[p].results), ops[p + 1 + i].id)
  {
  }

  lemma CodeAt(w: Wrapping, k: nat)
    requires k < |Assembled(w)|
    ensures var p, a, n := |w.before|, |w.into|, |w.back|;
            && |Assembled(w)| == p + a + 1 + n + |w.after|
            && Assembled(w)[k] == if k < p then w.before[k]
                              else if k < p + a then w.into[k - p]
                              else if k == p + a then w.op
                              else if k <= p + a + n then w.back[k - p - a - 1]
                              else w.after[k - p - a - n - 1]
  {
  }

  lemma WrapIsSsa(ops: seq<Op>, next: nat, p: nat)
    requires Ssa(ops, next) && p < |ops| && ops[p].code.Linalg?
    ensures var w := Wrap(ops, next, p);
            Ssa(Assembled(w), next + |w.into| + ops[p].results)
  {
    hide InputTransfers, WrappedOperands, Ssa;
    assert WellFormed(ops[p]) by {
      SsaMeans(ops, next, p);
    }
    var op, w := ops[p], Wrap(ops, next, p);
    var free, n := next + |w.into|, op.results;
    SsaPrefix(ops, next, p);
    forall k | 0 <= k < |op.operands|
      ensures Defined(w.before, op.operands[k])
    {
      OperandDefined(ops, next, p, k);
    }
    IntoIsSsa(ops, op, next, op.code.inputs, w.before);
    IntoIds(ops, op, next, op.code.inputs);
    SsaMeans(ops, next, p);
    Append(w.before + w.into, free, w.op, free);
    var head := w.before + w.into + [w.op];
    BackIsSsa(head, |w.before + w.into|, free, n);
    HeadCarries(ops, p, w, free);
    forall k | 0 <= k < |head + w.back|
      ensures (head + w.back)[k].id >= next || !Fresh(ops[..p + 1], (head + w.back)[k].id)
    {
      if k < p {
        assert ops[..p + 1][k].id == (head + w.back)[k].id;
      } else if k == |head| - 1 {
        assert ops[..p + 1][p].id == (head + w.back)[k].id;
      }
    }
    AfterIsSsa(ops, next, p, head + w.back, free, free + n, |ops| - p - 1);
    assert ops[p + 1..p + 1 + (|ops| - p - 1)] == ops[p + 1..];
  }

  lemma SsaMeans(ops: seq<Op>, next: nat, p: nat)
    requires Ssa(ops, next) && p < |ops|
    ensures ops[p].id < next && WellFormed(ops[p]) && Fresh(ops[..p], ops[p].id)
    ensures forall k :: 0 <= k < |ops| && ops[k].id == ops[p].id ==> k == p
  {
  }

  lemma HeadCarries(ops: seq<Op>, p: nat, w: Wrapping, free: nat)
    requires p < |ops| && w.before == ops[..p] && w.back == ResultTransfers(ops[p].id, free, ops[p].results)
    ensures Carries(w.before + w.into + [w.op] + w.back, ops, p, free)
  {
    var head := w.before + w.into + [w.op] + w.back;
    forall v | Defined(ops[..p], v)
      ensures Defined(head, v)
    {
      DefinedConcat(w.before, w.into, v);
      DefinedConcat(w.before + w.into, [w.op], v);
      DefinedConcat(w.before + w.into + [w.op], w.back, v);
    }
    forall v: Value | v.Result? && free <= v.op < free + ops[p].results && v.i == 0
      ensures Defined(head, v)
    {
      BackDefines(ops[p].id, free, ops[p].results, v.op - free);
      DefinedConcat(w.before + w.into + [w.op], w.back, v);
    }
  }
}
