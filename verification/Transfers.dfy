// TransferWrapPass.cpp: the inputs of every candidate op are moved to STRELA, and its
// results are moved back to the host before anything else uses them.
module Transfers {
  import opened Ir
  import opened WrapOrder
  import opened Wrapping

  // ---- Where things end up ----

  predicate IsMoved(ops: seq<Op>, v: Value) {
    v.Result? && exists k :: 0 <= k < |ops| && ops[k].id == v.op && ops[k].code == Transfer(Strela)
  }

  // The value is on STRELA when the kernel runs, or part of the kernel.
  predicate Arrives(ops: seq<Op>, v: Value) {
    IsImmediate(ops, v) || IsMoved(ops, v)
  }

  predicate InputsArrive(ops: seq<Op>, o: Op) {
    o.code.Linalg? && o.code.inputs <= |o.operands| && forall i :: 0 <= i < o.code.inputs ==> Arrives(ops, o.operands[i])
  }

  // Every input of the op arrives on STRELA, and only transfers to the host use its
  // results.
  predicate Placed(ops: seq<Op>, id: nat) {
    && (forall k :: 0 <= k < |ops| && ops[k].id == id ==> InputsArrive(ops, ops[k]))
    && forall k :: 0 <= k < |ops| && Uses(ops[k], id) ==> ops[k].code == Transfer(Host)
  }

  lemma {:induction false} WrappedArrives(ops: seq<Op>, op: Op, next: nat, n: nat, i: nat)
    requires i < n <= |op.operands|
    ensures var v, into := WrappedOperands(ops, op, next, n)[i], InputTransfers(ops, op, next, n);
            IsImmediate(ops, v) || IsMoved(into, v)
  {
    InputStep(ops, op, next, n);
    WrappedFrom(ops, op, next, n - 1);
    var before := InputTransfers(ops, op, next, n - 1);
    if i < n - 1 {
      WrappedArrives(ops, op, next, n - 1, i);
      var v := WrappedOperands(ops, op, next, n)[i];
      if IsMoved(before, v) {
        var k :| 0 <= k < |before| && before[k].id == v.op && before[k].code == Transfer(Strela);
        assert InputTransfers(ops, op, next, n)[k] == before[k];
      }
    } else if !IsImmediate(ops, op.operands[n - 1]) {
      assert InputTransfers(ops, op, next, n)[|before|].code == Transfer(Strela);
    }
  }

  // A wrapped operand is the operand or new; those from n on are the operands.
  lemma {:induction false} WrappedFrom(ops: seq<Op>, op: Op, next: nat, n: nat)
    requires n <= |op.operands|
    ensures var wrapped := WrappedOperands(ops, op, next, n);
            && (forall k :: n <= k < |wrapped| ==> wrapped[k] == op.operands[k])
            && forall k :: 0 <= k < |wrapped| ==>
                 wrapped[k] == op.operands[k] || (wrapped[k].Result? && wrapped[k].op >= next)
  {
    if n != 0 {
      WrappedFrom(ops, op, next, n - 1);
      InputStep(ops, op, next, n);
    }
  }

  // Definitions of constants and transfers survive wrapping.
  lemma DefinitionStays(ops: seq<Op>, next: nat, p: nat, j: nat)
    requires p < |ops| && WellFormed(ops[p]) && ops[p].code.Linalg? && j < |ops|
    ensures var code := Assembled(Wrap(ops, next, p));
            exists k :: 0 <= k < |code| && code[k].id == ops[j].id && code[k].code == ops[j].code
  {
    hide InputTransfers, WrappedOperands;
    var w := Wrap(ops, next, p);
    var k := if j < p then j else if j == p then p + |w.into| else j + |w.into| + |w.back|;
    CodeAt(w, k);
    assert Assembled(w)[k].id == ops[j].id && Assembled(w)[k].code == ops[j].code;
  }

  lemma ArrivesStays(ops: seq<Op>, next: nat, p: nat, v: Value)
    requires p < |ops| && WellFormed(ops[p]) && ops[p].code.Linalg? && Arrives(ops, v)
    ensures Arrives(Assembled(Wrap(ops, next, p)), v)
  {
    hide Wrap;
    if IsImmediate(ops, v) {
      var j :| 0 <= j < |ops| && ops[j].id == v.op && ops[j].code.SplatI32?;
      DefinitionStays(ops, next, p, j);
    } else {
      var j :| 0 <= j < |ops| && ops[j].id == v.op && ops[j].code == Transfer(Strela);
      DefinitionStays(ops, next, p, j);
    }
  }

  lemma MovedIsInCode(w: Wrapping, v: Value)
    requires IsMoved(w.into, v)
    ensures Arrives(Assembled(w), v)
  {
    var k :| 0 <= k < |w.into| && w.into[k].id == v.op && w.into[k].code == Transfer(Strela);
    CodeAt(w, |w.before| + k);
    assert Assembled(w)[|w.before| + k] == w.into[k];
  }

  // Where the op at k comes from: a transfer in, the wrapped op, a transfer back, or
  // an op of the old code.
  lemma CodeOrigin(ops: seq<Op>, next: nat, p: nat, k: nat)
    requires p < |ops| && WellFormed(ops[p]) && ops[p].code.Linalg? && k < |Assembled(Wrap(ops, next, p))|
    ensures var w := Wrap(ops, next, p);
            var o, free, a, n := Assembled(w)[k], next + |w.into|, |w.into|, |w.back|;
            && (k < p ==> o == ops[k])
            && (p <= k < p + a ==> IsTransferIn(o, ops[p], next + (k - p)))
            && (k == p + a ==> o == w.op)
            && (p + a < k <= p + a + n ==>
                  && o.id >= next && o.code == Transfer(Host)
                  && |o.operands| == 1 && o.operands[0] == Result(ops[p].id, k - p - a - 1))
            && (p + a + n < k ==>
                  k - a - n < |ops| && o == RedirectOp(ops[k - a - n], ops[p].id, free, ops[p].results))
  {
    hide RedirectOp;
    var w := Wrap(ops, next, p);
    CodeAt(w, k);
    if p <= k < p + |w.into| {
      IntoAt(ops, ops[p], next, ops[p].code.inputs, k - p);
    }
  }

  // An operand of a later op that is redirected does not name the wrapped op.
  lemma RedirectedUse(ops: seq<Op>, next: nat, p: nat, j: nat, free: nat, id: nat)
    requires Ssa(ops, next) && p < j < |ops| && free >= next > id
    requires Uses(RedirectOp(ops[j], ops[p].id, free, ops[p].results), id)
    ensures id != ops[p].id && Uses(ops[j], id)
  {
    var o := RedirectOp(ops[j], ops[p].id, free, ops[p].results);
    var i :| 0 <= i < |o.operands| && o.operands[i].Result? && o.operands[i].op == id;
    OperandDefined(ops, next, j, i);
    SsaMeans(ops, next, p);
    assert ops[j].operands[i].op == id;
  }

  // What is used by the wrapped op below `next` was used by the op.
  lemma WrappedUse(ops: seq<Op>, op: Op, next: nat, n: nat, id: nat)
    requires n <= |op.operands| && id < next && Uses(op.(operands := WrappedOperands(ops, op, next, n)), id)
    ensures Uses(op, id)
  {
    var wrapped := WrappedOperands(ops, op, next, n);
    WrappedFrom(ops, op, next, n);
    var i :| 0 <= i < |wrapped| && wrapped[i].Result? && wrapped[i].op == id;
    assert op.operands[i] == wrapped[i];
  }

  lemma TransferInUse(o: Op, op: Op, given: nat, id: nat)
    requires IsTransferIn(o, op, given) && Uses(o, id)
    ensures Uses(op, id)
  {
    var k :| 0 <= k < |op.operands| && op.operands[k] == o.operands[0];
  }

  // After wrapping an op, its inputs arrive on STRELA and every other use of its
  // results is through the transfers back.
  lemma WrapIsPlaced(ops: seq<Op>, next: nat, p: nat)
    requires Ssa(ops, next) && p < |ops| && ops[p].code.Linalg?
    requires WellFormed(ops[p])
    ensures Placed(Assembled(Wrap(ops, next, p)), ops[p].id)
  {
    hide InputTransfers, WrappedOperands, IsTransferIn, RedirectOp, Ssa;
    var id, w := ops[p].id, Wrap(ops, next, p);
    var code := Assembled(w);
    SsaMeans(ops, next, p);
    forall k | 0 <= k < |code| && Uses(code[k], id)
      ensures code[k].code == Transfer(Host)
    {
      CodeOrigin(ops, next, p, k);
      UsesAreLater(ops, next, p);
      if p <= k < p + |w.into| {
        TransferInUse(code[k], ops[p], next + (k - p), id);
      } else if k == p + |w.into| {
        WrappedUse(ops, ops[p], next, ops[p].code.inputs, id);
      } else if k > p + |w.into| + |w.back| {
        RedirectedUse(ops, next, p, k - |w.into| - |w.back|, next + |w.into|, id);
      }
    }
    WrapIsSsa(ops, next, p);
    CodeAt(w, p + |w.into|);
    SsaMeans(code, next + |w.into| + ops[p].results, p + |w.into|);
    forall i | 0 <= i < w.op.code.inputs
      ensures Arrives(code, w.op.operands[i])
    {
      WrappedArrives(ops, ops[p], next, ops[p].code.inputs, i);
      if IsMoved(w.into, w.op.operands[i]) {
        MovedIsInCode(w, w.op.operands[i]);
      } else {
        assert Arrives(ops, w.op.operands[i]);
        ArrivesStays(ops, next, p, w.op.operands[i]);
      }
    }
  }

  // Later redirection does not touch a value that arrives: its definition is a
  // constant or a transfer, not the wrapped op.
  lemma ArrivesRedirected(ops: seq<Op>, next: nat, p: nat, free: nat, n: nat, v: Value)
    requires Ssa(ops, next) && p < |ops| && ops[p].code.Linalg? && Arrives(ops, v)
    ensures Redirect(v, ops[p].id, free, n) == v
  {
  }

  lemma InputsStillArrive(ops: seq<Op>, next: nat, p: nat, o: Op, free: nat, n: nat)
    requires Ssa(ops, next) && p < |ops| && WellFormed(ops[p]) && ops[p].code.Linalg? && InputsArrive(ops, o)
    ensures InputsArrive(Assembled(Wrap(ops, next, p)), o)
    ensures InputsArrive(Assembled(Wrap(ops, next, p)), RedirectOp(o, ops[p].id, free, n))
  {
    hide Arrives, Wrap, Ssa;
    forall i | 0 <= i < o.code.inputs
      ensures Arrives(Assembled(Wrap(ops, next, p)), o.operands[i])
      ensures RedirectOp(o, ops[p].id, free, n).operands[i] == o.operands[i]
    {
      ArrivesStays(ops, next, p, o.operands[i]);
      ArrivesRedirected(ops, next, p, free, n, o.operands[i]);
    }
  }

  // Wrapping another op undoes nothing.
  lemma WrapKeepsPlaced(ops: seq<Op>, next: nat, p: nat, other: nat)
    requires Ssa(ops, next) && p < |ops| && ops[p].code.Linalg?
    requires WellFormed(ops[p]) && Placed(ops, other) && other != ops[p].id && other < next
    ensures Placed(Assembled(Wrap(ops, next, p)), other)
  {
    hide InputTransfers, WrappedOperands, IsTransferIn, RedirectOp, Ssa, InputsArrive, Uses;
    var w := Wrap(ops, next, p);
    var code, free, shift := Assembled(w), next + |w.into|, |w.into| + |w.back|;
    forall k | 0 <= k < |code| && Uses(code[k], other)
      ensures code[k].code == Transfer(Host)
    {
      CodeOrigin(ops, next, p, k);
      if p <= k < p + |w.into| {
        TransferInUse(code[k], ops[p], next + (k - p), other);
      } else if k == p + |w.into| {
        WrappedUse(ops, ops[p], next, ops[p].code.inputs, other);
      } else if k > p + shift {
        RedirectedUse(ops, next, p, k - shift, free, other);
      }
    }
    forall k | 0 <= k < |code| && code[k].id == other
      ensures InputsArrive(code, code[k])
    {
      CodeOrigin(ops, next, p, k);
      if p <= k < p + |w.into| {
        TransferInId(code[k], ops[p], next + (k - p));
      } else if k < p {
        InputsStillArrive(ops, next, p, ops[k], free, ops[p].results);
      } else if k > p + shift {
        InputsStillArrive(ops, next, p, ops[k - shift], free, ops[p].results);
      }
    }
  }

  lemma TransferInId(o: Op, op: Op, given: nat)
    requires IsTransferIn(o, op, given)
    ensures o.id == given
  {
  }

  // ---- Where things end up, on the ops themselves ----

  // The inputs of a placed op are results of splat constants or of transfers to STRELA,
  // and what uses its results are transfers to the host.
  lemma PlacedMeans(ops: seq<Op>, id: nat)
    requires Placed(ops, id)
    ensures forall k :: 0 <= k < |ops| && ops[k].id == id ==> ops[k].code.Linalg? && ops[k].code.inputs <= |ops[k].operands|
    ensures forall k, i :: 0 <= k < |ops| && ops[k].id == id && 0 <= i < ops[k].code.inputs ==>
              ops[k].operands[i].Result? && exists j :: 0 <= j < |ops| && ops[j].id == ops[k].operands[i].op
                                              && (ops[j].code.SplatI32? || ops[j].code == Transfer(Strela))
    ensures forall k, v :: 0 <= k < |ops| && v in ops[k].operands && v.Result? && v.op == id ==> ops[k].code == Transfer(Host)
  {
    forall k, i | 0 <= k < |ops| && ops[k].id == id && 0 <= i < ops[k].code.inputs
      ensures ops[k].operands[i].Result? && exists j :: 0 <= j < |ops| && ops[j].id == ops[k].operands[i].op
                                               && (ops[j].code.SplatI32? || ops[j].code == Transfer(Strela))
    {
      assert InputsArrive(ops, ops[k]) && Arrives(ops, ops[k].operands[i]);
    }
    forall k, v | 0 <= k < |ops| && v in ops[k].operands && v.Result? && v.op == id
      ensures ops[k].code == Transfer(Host)
    {
      var i :| 0 <= i < |ops[k].operands| && ops[k].operands[i] == v;
      assert Uses(ops[k], id);
    }
  }

  lemma WrapPlaces(ops: seq<Op>, next: nat, p: nat)
    requires Ssa(ops, next) && p < |ops| && ops[p].code.Linalg? && WellFormed(ops[p])
    ensures Placed(Assembled(Wrap(ops, next, p)), ops[p].id)
    ensures var code, id := Assembled(Wrap(ops, next, p)), ops[p].id;
            && (forall k :: 0 <= k < |code| && code[k].id == id ==>
                  code[k].code.Linalg? && code[k].code.inputs <= |code[k].operands|)
            && (forall k, i :: 0 <= k < |code| && code[k].id == id && 0 <= i < code[k].code.inputs ==>
                  code[k].operands[i].Result? && exists j :: 0 <= j < |code| && code[j].id == code[k].operands[i].op
                                                   && (code[j].code.SplatI32? || code[j].code == Transfer(Strela)))
            && forall k, v :: 0 <= k < |code| && v in code[k].operands && v.Result? && v.op == id ==>
                 code[k].code == Transfer(Host)
  {
    hide Wrap, Placed;
    WrapIsPlaced(ops, next, p);
    PlacedMeans(Assembled(Wrap(ops, next, p)), ops[p].id);
  }

  lemma {:induction false} InputMeans(ops: seq<Op>, op: Op, next: nat, n: nat, i: nat)
    requires i < n <= |op.operands|
    ensures var v, into, wrapped := op.operands[i], InputTransfers(ops, op, next, n), WrappedOperands(ops, op, next, n);
            && (IsImmediate(ops, v) ==> wrapped[i] == v)
            && (!IsImmediate(ops, v) ==>
                  exists t :: 0 <= t < |into| && into[t] == Op(next + t, Transfer(Strela), [v], 1)
                              && wrapped[i] == Result(next + t, 0))
  {
    hide IsImmediate;
    InputStep(ops, op, next, n);
    WrappedFrom(ops, op, next, n - 1);
    var v, before, into := op.operands[i], InputTransfers(ops, op, next, n - 1), InputTransfers(ops, op, next, n);
    if i < n - 1 {
      InputMeans(ops, op, next, n - 1, i);
      if t :| 0 <= t < |before| && before[t] == Op(next + t, Transfer(Strela), [v], 1)
              && WrappedOperands(ops, op, next, n - 1)[i] == Result(next + t, 0) {
        assert into[t] == before[t];
      }
    } else if !IsImmediate(ops, v) {
      assert into[|before|] == Op(next + |before|, Transfer(Strela), [v], 1);
    }
  }

  lemma {:induction false} TransferMeans(ops: seq<Op>, op: Op, next: nat, n: nat, t: nat)
    requires n <= |op.operands| && t < |InputTransfers(ops, op, next, n)|
    ensures exists i :: 0 <= i < n && !IsImmediate(ops, op.operands[i])
                        && InputTransfers(ops, op, next, n)[t] == Op(next + t, Transfer(Strela), [op.operands[i]], 1)
  {
    hide IsImmediate;
    InputStep(ops, op, next, n);
    if t < |InputTransfers(ops, op, next, n - 1)| {
      TransferMeans(ops, op, next, n - 1, t);
    }
  }

  // An input that is a splat constant stays as it is; every other one is read through a
  // new transfer of it to STRELA.
  lemma WrapTransfers(ops: seq<Op>, next: nat, p: nat, i: nat)
    requires p < |ops| && WellFormed(ops[p]) && ops[p].code.Linalg? && i < ops[p].code.inputs
    ensures var v, w := ops[p].operands[i], Wrap(ops, next, p);
            if v.Result? && exists k :: 0 <= k < |ops| && ops[k].id == v.op && ops[k].code.SplatI32?
            then w.op.operands[i] == v
            else exists t :: 0 <= t < |w.into| && w.into[t] == Op(next + t, Transfer(Strela), [v], 1)
                             && w.op.operands[i] == Result(next + t, 0)
  {
    hide InputTransfers, WrappedOperands;
    InputMeans(ops, ops[p], next, ops[p].code.inputs, i);
    var v, w := ops[p].operands[i], Wrap(ops, next, p);
    if !IsImmediate(ops, v) {
      var t :| 0 <= t < |w.into| && w.into[t] == Op(next + t, Transfer(Strela), [v], 1)
               && w.op.operands[i] == Result(next + t, 0);
    }
  }

  // And no other transfer is made for them.
  lemma OnlyTheseTransfers(ops: seq<Op>, next: nat, p: nat, t: nat)
    requires p < |ops| && WellFormed(ops[p]) && ops[p].code.Linalg? && t < |Wrap(ops, next, p).into|
    ensures exists i :: 0 <= i < ops[p].code.inputs
              && Wrap(ops, next, p).into[t] == Op(next + t, Transfer(Strela), [ops[p].operands[i]], 1)
              && !(ops[p].operands[i].Result?
                   && exists k :: 0 <= k < |ops| && ops[k].id == ops[p].operands[i].op && ops[k].code.SplatI32?)
  {
    TransferMeans(ops, ops[p], next, ops[p].code.inputs, t);
  }

  // ---- Constants stay constants ----

  lemma ImmediateStays(ops: seq<Op>, next: nat, p: nat, v: Value)
    requires Ssa(ops, next) && p < |ops| && ops[p].code.Linalg? && WellFormed(ops[p])
    requires v.Result? ==> v.op < next
    ensures IsImmediate(Assembled(Wrap(ops, next, p)), v) <==> IsImmediate(ops, v)
  {
    hide Wrap, Ssa;
    var code := Assembled(Wrap(ops, next, p));
    if IsImmediate(ops, v) {
      var j :| 0 <= j < |ops| && ops[j].id == v.op && ops[j].code.SplatI32?;
      DefinitionStays(ops, next, p, j);
    }
    if IsImmediate(code, v) {
      var k :| 0 <= k < |code| && code[k].id == v.op && code[k].code.SplatI32?;
      ConstantOrigin(ops, next, p, k);
    }
  }

  // A constant of the wrapped code is one of the code.
  lemma ConstantOrigin(ops: seq<Op>, next: nat, p: nat, k: nat)
    requires Ssa(ops, next) && p < |ops| && ops[p].code.Linalg? && WellFormed(ops[p])
    requires k < |Assembled(Wrap(ops, next, p))| && Assembled(Wrap(ops, next, p))[k].code.SplatI32?
    ensures exists j :: 0 <= j < |ops| && ops[j].id == Assembled(Wrap(ops, next, p))[k].id && ops[j].code.SplatI32?
  {
    hide InputTransfers, WrappedOperands, RedirectOp, Ssa;
    var w := Wrap(ops, next, p);
    CodeOrigin(ops, next, p, k);
    var shift := |w.into| + |w.back|;
    if k < p {
      assert ops[k].code.SplatI32?;
    } else if k > p + shift {
      assert ops[k - shift].code.SplatI32?;
    }
  }

  lemma NewIsNotImmediate(ops: seq<Op>, next: nat, p: nat, v: Value)
    requires Ssa(ops, next) && p < |ops| && ops[p].code.Linalg? && WellFormed(ops[p])
    requires v.Result? && v.op >= next
    ensures !IsImmediate(Assembled(Wrap(ops, next, p)), v)
  {
    hide Wrap, Ssa;
    var code := Assembled(Wrap(ops, next, p));
    if k :| 0 <= k < |code| && code[k].id == v.op && code[k].code.SplatI32? {
      ConstantOrigin(ops, next, p, k);
      var j :| 0 <= j < |ops| && ops[j].id == code[k].id;
      SsaMeans(ops, next, j);
    }
  }

  // The constants among the inputs of op `id` are the same in both, and no others are.
  ghost predicate SameConstants(a: seq<Op>, b: seq<Op>, id: nat) {
    forall j, k :: 0 <= j < |a| && 0 <= k < |b| && a[j].id == id && b[k].id == id ==> SameInputs(a, b, a[j], b[k])
  }

  predicate SameInputs(a: seq<Op>, b: seq<Op>, x: Op, y: Op) {
    && y.code == x.code && |y.operands| == |x.operands|
    && forall i :: 0 <= i < |x.operands| && x.code.Linalg? && i < x.code.inputs ==>
         && (IsImmediate(a, x.operands[i]) <==> IsImmediate(b, y.operands[i]))
         && (IsImmediate(a, x.operands[i]) ==> y.operands[i] == x.operands[i])
  }

  lemma WrapKeepsConstants(ops: seq<Op>, next: nat, p: nat, id: nat)
    requires Ssa(ops, next) && p < |ops| && ops[p].code.Linalg? && WellFormed(ops[p]) && id < next
    ensures SameConstants(ops, Assembled(Wrap(ops, next, p)), id)
  {
    hide InputTransfers, WrappedOperands, RedirectOp, Ssa, SameInputs, IsTransferIn;
    var w := Wrap(ops, next, p);
    var code, free, shift := Assembled(w), next + |w.into|, |w.into| + |w.back|;
    forall j, k | 0 <= j < |ops| && 0 <= k < |code| && ops[j].id == id && code[k].id == id
      ensures SameInputs(ops, code, ops[j], code[k])
    {
      SsaMeans(ops, next, j);
      CodeOrigin(ops, next, p, k);
      if k < p {
        UntouchedInputs(ops, next, p, j);
      } else if p <= k < p + |w.into| {
        TransferInId(code[k], ops[p], next + (k - p));
      } else if k == p + |w.into| {
        WrappedInputs(ops, next, p);
      } else if k > p + shift {
        RedirectedInputs(ops, next, p, j, free);
      }
    }
  }

  lemma OperandBelow(ops: seq<Op>, next: nat, k: nat, i: nat)
    requires Ssa(ops, next) && k < |ops| && i < |ops[k].operands|
    ensures ops[k].operands[i].Result? ==> ops[k].operands[i].op < next
  {
    assert DefinedBefore(ops, k, ops[k].operands[i]);
  }

  lemma UntouchedInputs(ops: seq<Op>, next: nat, p: nat, j: nat)
    requires Ssa(ops, next) && p < |ops| && ops[p].code.Linalg? && WellFormed(ops[p]) && j < |ops|
    ensures SameInputs(ops, Assembled(Wrap(ops, next, p)), ops[j], ops[j])
  {
    hide Wrap, IsImmediate;
    forall i | 0 <= i < |ops[j].operands|
      ensures IsImmediate(Assembled(Wrap(ops, next, p)), ops[j].operands[i]) <==> IsImmediate(ops, ops[j].operands[i])
    {
      OperandBelow(ops, next, j, i);
      ImmediateStays(ops, next, p, ops[j].operands[i]);
    }
  }

  lemma WrappedInputs(ops: seq<Op>, next: nat, p: nat)
    requires Ssa(ops, next) && p < |ops| && ops[p].code.Linalg? && WellFormed(ops[p])
    ensures SameInputs(ops, Assembled(Wrap(ops, next, p)), ops[p], Wrap(ops, next, p).op)
  {
    hide InputTransfers, WrappedOperands, IsImmediate, Ssa;
    var w := Wrap(ops, next, p);
    forall i | 0 <= i < ops[p].code.inputs
      ensures IsImmediate(ops, ops[p].operands[i]) <==> IsImmediate(Assembled(w), w.op.operands[i])
      ensures IsImmediate(ops, ops[p].operands[i]) ==> w.op.operands[i] == ops[p].operands[i]
    {
      OperandBelow(ops, next, p, i);
      InputMeans(ops, ops[p], next, ops[p].code.inputs, i);
      if IsImmediate(ops, ops[p].operands[i]) {
        ImmediateStays(ops, next, p, ops[p].operands[i]);
      } else {
        NewIsNotImmediate(ops, next, p, w.op.operands[i]);
      }
    }
  }

  lemma RedirectedInputs(ops: seq<Op>, next: nat, p: nat, j: nat, free: nat)
    requires Ssa(ops, next) && p < |ops| && ops[p].code.Linalg? && WellFormed(ops[p]) && j < |ops| && free >= next
    ensures SameInputs(ops, Assembled(Wrap(ops, next, p)), ops[j], RedirectOp(ops[j], ops[p].id, free, ops[p].results))
  {
    hide Wrap, IsImmediate, Ssa;
    var o := RedirectOp(ops[j], ops[p].id, free, ops[p].results);
    forall i | 0 <= i < |ops[j].operands|
      ensures IsImmediate(ops, ops[j].operands[i]) <==> IsImmediate(Assembled(Wrap(ops, next, p)), o.operands[i])
      ensures IsImmediate(ops, ops[j].operands[i]) ==> o.operands[i] == ops[j].operands[i]
    {
      OperandBelow(ops, next, j, i);
      if o.operands[i] == ops[j].operands[i] {
        ImmediateStays(ops, next, p, ops[j].operands[i]);
      } else {
        NewIsNotImmediate(ops, next, p, o.operands[i]);
        NotTheOp(ops, next, p, ops[j].operands[i]);
      }
    }
  }

  lemma NotTheOp(ops: seq<Op>, next: nat, p: nat, v: Value)
    requires Ssa(ops, next) && p < |ops| && ops[p].code.Linalg? && v.Result? && v.op == ops[p].id
    ensures !IsImmediate(ops, v)
  {
    SsaMeans(ops, next, p);
  }

  lemma SameConstantsTransitive(a: seq<Op>, b: seq<Op>, c: seq<Op>, id: nat)
    requires SameConstants(a, b, id) && SameConstants(b, c, id) && exists k :: 0 <= k < |b| && b[k].id == id
    ensures SameConstants(a, c, id)
  {
    hide IsImmediate;
    var k :| 0 <= k < |b| && b[k].id == id;
    forall j, l | 0 <= j < |a| && 0 <= l < |c| && a[j].id == id && c[l].id == id
      ensures SameInputs(a, c, a[j], c[l])
    {
      assert SameInputs(a, b, a[j], b[k]) && SameInputs(b, c, b[k], c[l]);
    }
  }

  // ---- The pass ----

  // Whatever the ops compute, both leave the same effects and the same value in
  // everything the first defines.
  ghost predicate SameMeaning(a: seq<Op>, b: seq<Op>, bound: nat) {
    forall args: seq<int>, m: Meaning :: SameRun(Behaviour(a, args, m), Behaviour(b, args, m), bound, args)
  }

  ghost predicate SameRun(s: State, t: State, bound: nat, args: seq<int>) {
    s.events == t.events && forall v :: ValueBelow(v, bound) ==> Lookup(t, args, v) == Lookup(s, args, v)
  }

  lemma WrapKeepsMeaning(ops: seq<Op>, next: nat, p: nat)
    requires Ssa(ops, next) && p < |ops| && ops[p].code.Linalg?
    requires WellFormed(ops[p])
    ensures SameMeaning(ops, Assembled(Wrap(ops, next, p)), next)
    ensures forall args: seq<int>, m: Meaning ::
              Behaviour(Assembled(Wrap(ops, next, p)), args, m).events == Behaviour(ops, args, m).events
    ensures forall args: seq<int>, m: Meaning, v: Value {:trigger Lookup(Behaviour(ops, args, m), args, v)} ::
              (v.Result? ==> v.op < next) ==>
                Lookup(Behaviour(Assembled(Wrap(ops, next, p)), args, m), args, v) == Lookup(Behaviour(ops, args, m), args, v)
  {
    hide Wrap, Behaviour, Lookup;
    SsaBelow(ops, next);
    forall args: seq<int>, m: Meaning
      ensures SameRun(Behaviour(ops, args, m), Behaviour(Assembled(Wrap(ops, next, p)), args, m), next, args)
    {
      WrapMirrors(ops, next, p, args, m);
    }
  }

  lemma SsaBelow(ops: seq<Op>, next: nat)
    requires Ssa(ops, next)
    ensures UsesBelow(ops, next)
  {
    forall k | 0 <= k < |ops|
      ensures AllBelow(ops[k].operands, next)
    {
      forall i | 0 <= i < |ops[k].operands|
        ensures ValueBelow(ops[k].operands[i], next)
      {
        assert DefinedBefore(ops, k, ops[k].operands[i]);
      }
    }
  }

  lemma SameMeaningTransitive(a: seq<Op>, b: seq<Op>, c: seq<Op>, bound: nat, more: nat)
    requires SameMeaning(a, b, bound) && SameMeaning(b, c, more) && bound <= more
    ensures SameMeaning(a, c, bound)
  {
    hide Behaviour, Lookup;
    forall args: seq<int>, m: Meaning
      ensures SameRun(Behaviour(a, args, m), Behaviour(c, args, m), bound, args)
    {
      var s, t, r := Behaviour(a, args, m), Behaviour(b, args, m), Behaviour(c, args, m);
      assert SameRun(s, t, bound, args) && SameRun(t, r, more, args);
      forall v | ValueBelow(v, bound)
        ensures Lookup(r, args, v) == Lookup(s, args, v)
      {
        assert ValueBelow(v, more);
      }
    }
  }

  function ReplaceUse(v: Value, id: nat, r: nat, given: nat): (w: Value) {
    if v == Result(id, r) then Result(given, 0) else v
  }

  function ReplaceUses(op: Op, id: nat, r: nat, given: nat): (o: Op) {
    op.(operands := seq(|op.operands|, k requires 0 <= k < |op.operands| => ReplaceUse(op.operands[k], id, r, given)))
  }

  lemma ReplaceNothing(op: Op, id: nat, r: nat, given: nat)
    requires forall k :: 0 <= k < |op.operands| ==> op.operands[k] != Result(id, r)
    ensures ReplaceUses(op, id, r, given) == op
  {
    assert ReplaceUses(op, id, r, given).operands == op.operands;
  }

  // Redirecting one more result.
  lemma RedirectOneMore(op: Op, id: nat, free: nat, r: nat)
    requires id < free
    ensures ReplaceUses(RedirectOp(op, id, free, r), id, r, free + r) == RedirectOp(op, id, free, r + 1)
  {
    assert ReplaceUses(RedirectOp(op, id, free, r), id, r, free + r).operands == RedirectOp(op, id, free, r + 1).operands;
  }

  lemma RedirectNothing(ops: seq<Op>, id: nat, free: nat)
    ensures RedirectAll(ops, id, free, 0) == ops
  {
    forall k | 0 <= k < |ops|
      ensures RedirectOp(ops[k], id, free, 0) == ops[k]
    {
      assert RedirectOp(ops[k], id, free, 0).operands == ops[k].operands;
    }
  }

  class Function {
    var ops: seq<Op>
    var next: nat

    constructor (body: seq<Op>, bound: nat)
      ensures ops == body && next == bound
    {
      ops, next := body, bound;
    }

    // replaceAllUsesExcept(result r of op id, given, except)
    method ReplaceAllUsesExcept(id: nat, r: nat, given: nat, except: nat)
      requires except < |ops|
      modifies this`ops
      ensures |ops| == |old(ops)| && ops[except] == old(ops[except])
      ensures forall k :: 0 <= k < |ops| && k != except ==> ops[k] == ReplaceUses(old(ops[k]), id, r, given)
    {
      for i := 0 to |ops|
        invariant |ops| == |old(ops)| && ops[except] == old(ops[except])
        invariant forall k :: 0 <= k < i && k != except ==> ops[k] == ReplaceUses(old(ops[k]), id, r, given)
        invariant forall k :: i <= k < |ops| ==> ops[k] == old(ops[k])
      {
        if i != except {
          ops := ops[i := ReplaceUses(ops[i], id, r, given)];
        }
      }
    }

    // The transfers of the inputs.
    method WrapInputs(p: nat) returns (at: nat)
      requires Ssa(ops, next) && p < |ops| && ops[p].code.Linalg?
      requires WellFormed(ops[p])
      modifies this
      ensures var op, into := old(ops[p]), InputTransfers(old(ops), old(ops[p]), old(next), old(ops[p]).code.inputs);
              && at == p + |into| && next == old(next) + |into|
              && ops == old(ops[..p]) + into
                        + [op.(operands := WrappedOperands(old(ops), op, old(next), op.code.inputs))] + old(ops[p + 1..])
    {
      hide Ssa, InputTransfers, WrappedOperands, IsImmediate;
      ghost var all, first := ops, next;
      ghost var rest := all[p + 1..];
      var op := ops[p];
      at := p;
      NoInputsYet(all, op, first);
      assert ops == all[..p] + [] + [op] + rest;
      for k := 0 to op.code.inputs
        invariant at == p + |InputTransfers(all, op, first, k)| && next == first + |InputTransfers(all, op, first, k)|
        invariant ops == all[..p] + InputTransfers(all, op, first, k)
                         + [op.(operands := WrappedOperands(all, op, first, k))] + rest
      {
        ghost var into, wrapped := InputTransfers(all, op, first, k), WrappedOperands(all, op, first, k);
        WrappedFrom(all, op, first, k);
        InputStep(all, op, first, k + 1);
        IntoIds(all, op, first, k);
        SameImmediates(all, p, into, op.(operands := wrapped), op.operands[k]);
        assert ops[at] == op.(operands := wrapped);
        var v := ops[at].operands[k];
        if !IsImmediate(ops, v) {
          var transfer := Op(next, Transfer(Strela), [v], 1);
          var user := ops[at].(operands := ops[at].operands[k := Result(next, 0)]);
          ops := ops[..at] + [transfer] + [user] + ops[at + 1..];
          assert ops == all[..p] + (into + [transfer]) + [user] + rest;
          at, next := at + 1, next + 1;
        }
      }
    }

    // The transfers back of the results, for every other use.
    method WrapResults(at: nat)
      requires at < |ops| && forall k :: 0 <= k <= at ==> !Uses(ops[k], ops[at].id)
      requires ops[at].id < next
      modifies this
      ensures var id, n := old(ops[at]).id, old(ops[at]).results;
              && next == old(next) + n
              && ops == old(ops[..at + 1]) + ResultTransfers(id, old(next), n)
                        + RedirectAll(old(ops[at + 1..]), id, old(next), n)
    {
      hide Uses, RedirectOp, ReplaceUses;
      ghost var head, rest, free := ops[..at + 1], ops[at + 1..], next;
      var id, n := ops[at].id, ops[at].results;
      RedirectNothing(rest, id, free);
      assert ops == head + ResultTransfers(id, free, 0) + RedirectAll(rest, id, free, 0);
      for r := 0 to n
        invariant next == free + r
        invariant ops == head + ResultTransfers(id, free, r) + RedirectAll(rest, id, free, r)
      {
        ghost var before := ops;
        var back := Op(next, Transfer(Host), [Result(id, r)], 1);
        ops := ops[..at + 1 + r] + [back] + ops[at + 1 + r..];
        ghost var inserted := ops;
        ReplaceAllUsesExcept(id, r, next, at + 1 + r);
        OneResultBack(head, rest, id, free, r, inserted, ops);
        next := next + 1;
      }
    }

    // wrapInTransfers
    method WrapInTransfers(p: nat)
      requires Ssa(ops, next) && p < |ops| && ops[p].code.Linalg?
      requires WellFormed(ops[p])
      modifies this
      ensures var w := Wrap(old(ops), old(next), p);
              ops == Assembled(w) && next == old(next) + |w.into| + old(ops[p]).results
    {
      ghost var all, first := ops, next;
      ghost var w := Wrap(ops, next, p);
      var at := WrapInputs(p);
      WrappedHasNoUse(all, first, p);
      WrapResults(at);
      assert (w.before + w.into + [w.op] + all[p + 1..])[..at + 1] == w.before + w.into + [w.op];
      assert (w.before + w.into + [w.op] + all[p + 1..])[at + 1..] == all[p + 1..];
    }
  }

  lemma NoInputsYet(ops: seq<Op>, op: Op, next: nat)
    ensures InputTransfers(ops, op, next, 0) == [] && WrappedOperands(ops, op, next, 0) == op.operands
  {
  }

  // What is left of the inputs of a placed op.
  lemma FinalInputs(a: seq<Op>, b: seq<Op>, id: nat)
    requires SameConstants(a, b, id) && Placed(b, id)
    ensures forall j, k, i | 0 <= j < |a| && 0 <= k < |b| && a[j].id == b[k].id == id && b[k].code.Linalg?
                             && 0 <= i < b[k].code.inputs && i < |a[j].operands| && i < |b[k].operands| ::
              var v, w := a[j].operands[i], b[k].operands[i];
              if v.Result? && exists l :: 0 <= l < |a| && a[l].id == v.op && a[l].code.SplatI32? then w == v
              else w.Result? && exists l :: 0 <= l < |b| && b[l].id == w.op && b[l].code == Transfer(Strela)
  {
    forall j, k, i | 0 <= j < |a| && 0 <= k < |b| && a[j].id == b[k].id == id
                     && b[k].code.Linalg? && 0 <= i < b[k].code.inputs && i < |a[j].operands| && i < |b[k].operands|
      ensures IsImmediate(a, a[j].operands[i]) ==> b[k].operands[i] == a[j].operands[i]
      ensures !IsImmediate(a, a[j].operands[i]) ==> IsMoved(b, b[k].operands[i])
    {
      assert SameInputs(a, b, a[j], b[k]);
      assert InputsArrive(b, b[k]) && Arrives(b, b[k].operands[i]);
    }
  }

  lemma ConstantsAtFirst(ops: seq<Op>, next: nat, id: nat)
    requires Ssa(ops, next)
    ensures SameConstants(ops, ops, id)
  {
    hide IsImmediate;
    forall j, k | 0 <= j < |ops| && 0 <= k < |ops| && ops[j].id == id && ops[k].id == id
      ensures j == k
    {
      SsaMeans(ops, next, j);
    }
  }

  // Wraps every candidate, in the order given. Afterwards every input of a candidate is
  // the splat constant it was, or comes through a transfer to STRELA, and only transfers
  // to the host use its results.
  method WrapCandidates(f: Function, candidates: seq<nat>)
    requires Ssa(f.ops, f.next) && forall i, j :: 0 <= i < j < |candidates| ==> candidates[i] != candidates[j]
    requires forall i :: 0 <= i < |candidates| ==> IsLinalg(f.ops, candidates[i])
    modifies f
    ensures Ssa(f.ops, f.next) && SameMeaning(old(f.ops), f.ops, old(f.next))
    ensures forall c :: 0 <= c < |candidates| ==> Placed(f.ops, candidates[c])
    ensures forall c, k :: 0 <= c < |candidates| && 0 <= k < |f.ops| && f.ops[k].id == candidates[c] ==>
              f.ops[k].code.Linalg? && f.ops[k].code.inputs <= |f.ops[k].operands|
    ensures forall c, j, k, i | 0 <= c < |candidates| && 0 <= j < |old(f.ops)| && 0 <= k < |f.ops|
                                && old(f.ops)[j].id == f.ops[k].id == candidates[c]
                                && 0 <= i < f.ops[k].code.inputs && i < |old(f.ops)[j].operands| ::
              var v, w := old(f.ops)[j].operands[i], f.ops[k].operands[i];
              if v.Result? && exists l :: 0 <= l < |old(f.ops)| && old(f.ops)[l].id == v.op && old(f.ops)[l].code.SplatI32?
              then w == v
              else w.Result? && exists l :: 0 <= l < |f.ops| && f.ops[l].id == w.op && f.ops[l].code == Transfer(Strela)
    ensures forall c, k, v | 0 <= c < |candidates| && 0 <= k < |f.ops| && v in f.ops[k].operands
                             && v.Result? && v.op == candidates[c] :: f.ops[k].code == Transfer(Host)
  {
    hide Ssa, Wrap, Placed, SameMeaning, SameConstants;
    ghost var first := f.ops;
    MeansItself(f.ops, f.next);
    forall i | 0 <= i < |candidates|
      ensures SameConstants(first, first, candidates[i])
    {
      ConstantsAtFirst(first, f.next, candidates[i]);
    }
    for c := 0 to |candidates|
      invariant Ssa(f.ops, f.next) && old(f.next) <= f.next && SameMeaning(first, f.ops, old(f.next))
      invariant forall i :: 0 <= i < |candidates| ==> IsLinalg(f.ops, candidates[i])
      invariant forall i :: 0 <= i < |candidates| ==> SameConstants(first, f.ops, candidates[i])
      invariant forall i :: 0 <= i < c ==> Placed(f.ops, candidates[i])
    {
      var p := FindOp(f.ops, candidates[c]);
      ghost var before, next := f.ops, f.next;
      WrapCandidate(first, before, next, p, candidates, c);
      f.WrapInTransfers(p);
      WrapKeepsMeaning(before, next, p);
      SameMeaningTransitive(first, before, f.ops, old(f.next), next);
    }
    forall i | 0 <= i < |candidates|
      ensures Placed(f.ops, candidates[i]) && SameConstants(first, f.ops, candidates[i])
    {
    }
    PlacedMeansAll(first, f.ops, candidates);
  }

  lemma WrapCandidate(first: seq<Op>, ops: seq<Op>, next: nat, p: nat, candidates: seq<nat>, c: nat)
    requires Ssa(ops, next) && c < |candidates| && p < |ops| && ops[p].id == candidates[c] && ops[p].code.Linalg?
    requires forall i, j :: 0 <= i < j < |candidates| ==> candidates[i] != candidates[j]
    requires forall i :: 0 <= i < |candidates| ==> IsLinalg(ops, candidates[i]) && SameConstants(first, ops, candidates[i])
    requires forall i :: 0 <= i < c ==> Placed(ops, candidates[i])
    ensures WellFormed(ops[p])
    ensures var w := Wrap(ops, next, p);
            && Ssa(Assembled(w), next + |w.into| + ops[p].results)
            && (forall i :: 0 <= i < |candidates| ==>
                  IsLinalg(Assembled(w), candidates[i]) && SameConstants(first, Assembled(w), candidates[i]))
            && forall i :: 0 <= i <= c ==> Placed(Assembled(w), candidates[i])
  {
    hide Ssa, Wrap, Placed, SameConstants;
    SsaMeans(ops, next, p);
    LinalgIds(ops, next, candidates);
    WrapIsSsa(ops, next, p);
    WrapIsPlaced(ops, next, p);
    forall i | 0 <= i < |candidates|
      ensures IsLinalg(Assembled(Wrap(ops, next, p)), candidates[i])
      ensures SameConstants(first, Assembled(Wrap(ops, next, p)), candidates[i])
    {
      LinalgStays(ops, next, p, candidates[i]);
      WrapKeepsConstants(ops, next, p, candidates[i]);
      SameConstantsTransitive(first, ops, Assembled(Wrap(ops, next, p)), candidates[i]);
    }
    forall i | 0 <= i < c
      ensures Placed(Assembled(Wrap(ops, next, p)), candidates[i])
    {
      WrapKeepsPlaced(ops, next, p, candidates[i]);
    }
  }

  lemma PlacedMeansAll(a: seq<Op>, b: seq<Op>, candidates: seq<nat>)
    requires forall i :: 0 <= i < |candidates| ==> Placed(b, candidates[i]) && SameConstants(a, b, candidates[i])
    ensures forall c, k :: 0 <= c < |candidates| && 0 <= k < |b| && b[k].id == candidates[c] ==>
              b[k].code.Linalg? && b[k].code.inputs <= |b[k].operands|
    ensures forall c, j, k, i | 0 <= c < |candidates| && 0 <= j < |a| && 0 <= k < |b| && a[j].id == b[k].id == candidates[c]
                                && 0 <= i < b[k].code.inputs && i < |a[j].operands| ::
              var v, w := a[j].operands[i], b[k].operands[i];
              if v.Result? && exists l :: 0 <= l < |a| && a[l].id == v.op && a[l].code.SplatI32? then w == v
              else w.Result? && exists l :: 0 <= l < |b| && b[l].id == w.op && b[l].code == Transfer(Strela)
    ensures forall c, k, v | 0 <= c < |candidates| && 0 <= k < |b| && v in b[k].operands
                             && v.Result? && v.op == candidates[c] :: b[k].code == Transfer(Host)
  {
    hide Placed, SameConstants;
    forall c | 0 <= c < |candidates|
      ensures forall k :: 0 <= k < |b| && b[k].id == candidates[c] ==>
                b[k].code.Linalg? && b[k].code.inputs <= |b[k].operands|
      ensures forall j, k, i | 0 <= j < |a| && 0 <= k < |b| && a[j].id == b[k].id == candidates[c]
                               && 0 <= i < b[k].code.inputs && i < |a[j].operands| ::
                var v, w := a[j].operands[i], b[k].operands[i];
                if v.Result? && exists l :: 0 <= l < |a| && a[l].id == v.op && a[l].code.SplatI32? then w == v
                else w.Result? && exists l :: 0 <= l < |b| && b[l].id == w.op && b[l].code == Transfer(Strela)
      ensures forall k, v :: 0 <= k < |b| && v in b[k].operands && v.Result? && v.op == candidates[c] ==>
                b[k].code == Transfer(Host)
    {
      PlacedMeans(b, candidates[c]);
      FinalInputs(a, b, candidates[c]);
    }
  }

  predicate IsLinalg(ops: seq<Op>, id: nat) {
    exists k :: 0 <= k < |ops| && ops[k].id == id && ops[k].code.Linalg?
  }

  method FindOp(ops: seq<Op>, id: nat) returns (p: nat)
    requires IsLinalg(ops, id)
    ensures p < |ops| && ops[p].id == id && ops[p].code.Linalg?
  {
    p := 0;
    while !(ops[p].id == id && ops[p].code.Linalg?)
      invariant p < |ops| && exists k :: p <= k < |ops| && ops[k].id == id && ops[k].code.Linalg?
      decreases |ops| - p
    {
      p := p + 1;
    }
  }

  lemma MeansItself(ops: seq<Op>, bound: nat)
    ensures SameMeaning(ops, ops, bound)
  {
    hide Behaviour, Lookup;
  }

  lemma LinalgIds(ops: seq<Op>, next: nat, ids: seq<nat>)
    requires Ssa(ops, next) && forall i :: 0 <= i < |ids| ==> IsLinalg(ops, ids[i])
    ensures forall i :: 0 <= i < |ids| ==> ids[i] < next
  {
  }

  lemma LinalgStays(ops: seq<Op>, next: nat, p: nat, id: nat)
    requires p < |ops| && WellFormed(ops[p]) && ops[p].code.Linalg? && IsLinalg(ops, id)
    ensures IsLinalg(Assembled(Wrap(ops, next, p)), id)
  {
    hide Wrap;
    var j :| 0 <= j < |ops| && ops[j].id == id && ops[j].code.Linalg?;
    DefinitionStays(ops, next, p, j);
  }

  // Inserting transfers in changes no constant.
  lemma SameImmediates(ops: seq<Op>, p: nat, into: seq<Op>, op: Op, v: Value)
    requires p < |ops| && ops[p].code.Linalg? && op.code.Linalg?
    requires forall k :: 0 <= k < |into| ==> into[k].code.Transfer?
    ensures IsImmediate(ops[..p] + into + [op] + ops[p + 1..], v) <==> IsImmediate(ops, v)
  {
    var r := ops[..p] + into + [op] + ops[p + 1..];
    if IsImmediate(ops, v) {
      var j :| 0 <= j < |ops| && ops[j].id == v.op && ops[j].code.SplatI32?;
      assert r[if j < p then j else j + |into|] == ops[j];
    }
    if IsImmediate(r, v) {
      var k :| 0 <= k < |r| && r[k].id == v.op && r[k].code.SplatI32?;
      assert r[k] == ops[if k < p then k else k - |into|];
    }
  }

  lemma OneResultBack(head: seq<Op>, rest: seq<Op>, id: nat, free: nat, r: nat, inserted: seq<Op>, after: seq<Op>)
    requires id < free && forall k :: 0 <= k < |head| ==> !Uses(head[k], id)
    requires inserted == head + ResultTransfers(id, free, r) + [Op(free + r, Transfer(Host), [Result(id, r)], 1)]
                         + RedirectAll(rest, id, free, r)
    requires |after| == |inserted| && after[|head| + r] == inserted[|head| + r]
    requires forall k :: 0 <= k < |after| && k != |head| + r ==> after[k] == ReplaceUses(inserted[k], id, r, free + r)
    ensures after == head + ResultTransfers(id, free, r + 1) + RedirectAll(rest, id, free, r + 1)
  {
    hide RedirectOp, ReplaceUses, Uses;
    var expected := head + ResultTransfers(id, free, r + 1) + RedirectAll(rest, id, free, r + 1);
    forall k | 0 <= k < |after|
      ensures after[k] == expected[k]
    {
      if k < |head| {
        NoUseToReplace(head[k], id, r, free + r);
      } else if k < |head| + r {
        ReplaceNothing(inserted[k], id, r, free + r);
      } else if k > |head| + r {
        RedirectOneMore(rest[k - |head| - r - 1], id, free, r);
      }
    }
  }

  lemma NoUseToReplace(op: Op, id: nat, r: nat, given: nat)
    requires !Uses(op, id)
    ensures ReplaceUses(op, id, r, given) == op
  {
    ReplaceNothing(op, id, r, given);
  }

  lemma WrappedHasNoUse(ops: seq<Op>, next: nat, p: nat)
    requires Ssa(ops, next) && p < |ops| && ops[p].code.Linalg?
    requires WellFormed(ops[p])
    ensures var w := Wrap(ops, next, p);
            forall k :: 0 <= k < |w.before + w.into + [w.op]| ==> !Uses((w.before + w.into + [w.op])[k], ops[p].id)
  {
    hide Uses;
    var w, id := Wrap(ops, next, p), ops[p].id;
    var head := w.before + w.into + [w.op];
    UsesAreLater(ops, next, p);
    forall k | 0 <= k < |head|
      ensures !Uses(head[k], id)
    {
      if p <= k < p + |w.into| {
        IntoAt(ops, ops[p], next, ops[p].code.inputs, k - p);
        if Uses(head[k], id) {
          TransferInUse(head[k], ops[p], next + (k - p), id);
        }
      } else if k == p + |w.into| && Uses(w.op, id) {
        WrappedUse(ops, ops[p], next, ops[p].code.inputs, id);
      }
    }
  }
}
