// The sweep at the end of MaterializeBindingsPass: one pass over the ops, last op
// first, erasing those that are trivially dead by then.
module DeadOps {
  import opened Ir

  // Has no side effect, and no use among `ops`.
  predicate TriviallyDead(op: Op, ops: seq<Op>) {
    !HasEffect(op) && forall k :: 0 <= k < |ops| ==> !Uses(ops[k], op.id)
  }

  // The ops that the sweep keeps.
  function Kept(ops: seq<Op>): (r: seq<Op>)
    ensures forall o :: o in r ==> o in ops
  {
    if ops == [] then []
    else
      var rest := Kept(ops[1..]);
      if TriviallyDead(ops[0], rest) then rest else [ops[0]] + rest
  }

  // An effect depends on the op: it has one, or an op that uses it does.
  ghost predicate Needed(ops: seq<Op>, k: nat)
    requires k < |ops|
    decreases |ops| - k
  {
    HasEffect(ops[k]) || exists j :: k < j < |ops| && Uses(ops[j], ops[k].id) && Needed(ops, j)
  }

  class Block {
    var ops: seq<Op>

    constructor (body: seq<Op>)
      ensures ops == body
    {
      ops := body;
    }

    method EraseDeadOps(ghost next: nat)
      requires Ssa(ops, next)
      modifies this
      ensures ops == Kept(old(ops))
    {
      hide Kept, TriviallyDead, Ssa;
      SweepOfNothing();
      var all := ops;
      var i := |all|;
      assert all[i..] == [];
      while i > 0
        invariant 0 <= i <= |all|
        invariant ops == all[..i] + Kept(all[i..])
      {
        i := i - 1;
        SweepStep(all, next, i);
        if TriviallyDead(all[i], ops) {
          ops := ops[..i] + ops[i + 1..];
        }
      }
      assert all[..0] == [] && all[0..] == all;
    }
  }

  // When the ops after `i` have been swept, op `i` has no use before it, so it is
  // dead in the block when it is dead in what was kept after it.
  lemma SweepStep(all: seq<Op>, next: nat, i: nat)
    requires Ssa(all, next) && i < |all|
    ensures var rest, now := Kept(all[i + 1..]), all[..i + 1] + Kept(all[i + 1..]);
            all[..i] + Kept(all[i..]) == if TriviallyDead(all[i], now) then now[..i] + now[i + 1..] else now
  {
    var rest, now := Kept(all[i + 1..]), all[..i + 1] + Kept(all[i + 1..]);
    UsesAreLater(all, next, i);
    assert all[i..][1..] == all[i + 1..];
    assert now[..i] == all[..i] && now[i + 1..] == rest && now == all[..i] + ([all[i]] + rest);
    forall k | 0 <= k < |rest|
      ensures now[i + 1 + k] == rest[k]
    {
    }
    assert TriviallyDead(all[i], now) <==> TriviallyDead(all[i], rest);
  }

  lemma SweepOfNothing()
    ensures Kept([]) == []
  {
  }

  // ---- What the sweep leaves ----

  // Uses come later, and ids are distinct: what the sweep needs of the order.
  predicate Ordered(ops: seq<Op>) {
    && (forall j, k :: 0 <= j < k < |ops| ==> ops[j].id != ops[k].id)
    && forall j, k :: 0 <= j <= k < |ops| ==> !Uses(ops[j], ops[k].id)
  }

  lemma SsaIsOrdered(ops: seq<Op>, next: nat)
    requires Ssa(ops, next)
    ensures Ordered(ops)
  {
    forall j, k | 0 <= j <= k < |ops|
      ensures !Uses(ops[j], ops[k].id)
    {
      UsesAreLater(ops, next, k);
    }
  }

  lemma OrderedTail(ops: seq<Op>)
    requires Ordered(ops) && ops != []
    ensures Ordered(ops[1..])
    ensures forall o :: o in ops[1..] ==> o.id != ops[0].id
  {
    var tail := ops[1..];
    forall j, k | 0 <= j <= k < |tail|
      ensures !Uses(tail[j], tail[k].id)
    {
      assert tail[j] == ops[j + 1] && tail[k] == ops[k + 1];
    }
  }

  // Nothing that is left is trivially dead: one sweep is enough.
  lemma {:induction false} NothingDeadIsLeft(ops: seq<Op>)
    requires Ordered(ops)
    ensures forall o :: o in Kept(ops) ==> !TriviallyDead(o, Kept(ops))
  {
    if ops != [] {
      OrderedTail(ops);
      NothingDeadIsLeft(ops[1..]);
      var rest := Kept(ops[1..]);
      if !TriviallyDead(ops[0], rest) {
        var kept := [ops[0]] + rest;
        forall o | o in kept
          ensures !TriviallyDead(o, kept)
        {
          if o in rest {
            StillUsed(o, rest, ops[0]);
          } else {
            StillUsed(o, rest, ops[0]);
          }
        }
      }
    }
  }

  lemma StillUsed(o: Op, rest: seq<Op>, first: Op)
    requires !TriviallyDead(o, rest)
    ensures !TriviallyDead(o, [first] + rest)
  {
    if !HasEffect(o) {
      var k :| 0 <= k < |rest| && Uses(rest[k], o.id);
      assert ([first] + rest)[k + 1] == rest[k];
    }
  }

  // A block with no dead op is left as it is.
  lemma {:induction false} SweepIsAFixpoint(ops: seq<Op>)
    requires Ordered(ops)
    ensures Kept(Kept(ops)) == Kept(ops)
  {
    if ops != [] {
      OrderedTail(ops);
      SweepIsAFixpoint(ops[1..]);
      var rest := Kept(ops[1..]);
      if !TriviallyDead(ops[0], rest) {
        assert ([ops[0]] + rest)[1..] == rest;
      }
    }
  }

  // The sweep keeps exactly the ops that an effect depends on.
  lemma {:induction false} KeptIsNeeded(ops: seq<Op>, k: nat)
    requires Ordered(ops) && k < |ops|
    ensures ops[k] in Kept(ops) <==> Needed(ops, k)
  {
    OrderedTail(ops);
    var tail := ops[1..];
    if k == 0 {
      forall j | 0 < j < |ops|
        ensures Needed(ops, j) <==> ops[j] in Kept(tail)
      {
        KeptIsNeeded(tail, j - 1);
        NeededInTail(ops, j);
      }
      FirstIsKept(ops);
    } else {
      KeptIsNeeded(tail, k - 1);
      NeededInTail(ops, k);
    }
  }

  lemma FirstIsKept(ops: seq<Op>)
    requires Ordered(ops) && ops != []
    requires forall j :: 0 < j < |ops| ==> (Needed(ops, j) <==> ops[j] in Kept(ops[1..]))
    ensures ops[0] in Kept(ops) <==> Needed(ops, 0)
  {
    var rest := Kept(ops[1..]);
    OrderedTail(ops);
    if !HasEffect(ops[0]) {
      if j :| 0 <= j < |rest| && Uses(rest[j], ops[0].id) {
        assert rest[j] in ops[1..];
        var i :| 0 <= i < |ops[1..]| && ops[1..][i] == rest[j];
        assert ops[i + 1] in rest;
      }
      if j :| 0 < j < |ops| && Uses(ops[j], ops[0].id) && Needed(ops, j) {
        var i :| 0 <= i < |rest| && rest[i] == ops[j];
      }
    }
  }

  lemma {:induction false} NeededInTail(ops: seq<Op>, k: nat)
    requires 0 < k < |ops|
    ensures Needed(ops, k) <==> Needed(ops[1..], k - 1)
    decreases |ops| - k
  {
    var tail := ops[1..];
    forall j | k < j < |ops|
      ensures Needed(ops, j) <==> Needed(tail, j - 1)
    {
      NeededInTail(ops, j);
    }
    if j :| k < j < |ops| && Uses(ops[j], ops[k].id) && Needed(ops, j) {
      assert Uses(tail[j - 1], tail[k - 1].id) && Needed(tail, j - 1);
    }
    if j :| k - 1 < j < |tail| && Uses(tail[j], tail[k - 1].id) && Needed(tail, j) {
      assert Uses(ops[j + 1], ops[k].id) && Needed(ops, j + 1);
    }
  }

  // No operand of an op that is left has lost its definition.
  lemma DefinitionsAreKept(ops: seq<Op>, next: nat, o: Op, v: Value)
    requires Ssa(ops, next) && o in Kept(ops) && v in o.operands && v.Result?
    ensures exists p :: p in Kept(ops) && p.id == v.op && v.i < p.results
  {
    SsaIsOrdered(ops, next);
    var k :| 0 <= k < |ops| && ops[k] == o;
    assert DefinedBefore(ops, k, v);
    var j :| 0 <= j < k && ops[j].id == v.op && v.i < ops[j].results;
    KeptIsNeeded(ops, k);
    KeptIsNeeded(ops, j);
    assert Uses(ops[k], ops[j].id);
  }

  // What is kept, on the ops themselves: every op with the effect flag, with an op
  // everything that defines its operands, and nothing else.
  lemma KeptMeans(ops: seq<Op>, next: nat, o: Op)
    requires Ssa(ops, next) && o in ops
    ensures o.code.Other? && o.code.effect ==> o in Kept(ops)
    ensures o in Kept(ops) ==> forall p, i :: p in ops && Result(p.id, i) in o.operands ==> p in Kept(ops)
    ensures o in Kept(ops) ==>
              || (o.code.Other? && o.code.effect)
              || exists u, i :: u in Kept(ops) && Result(o.id, i) in u.operands
  {
    SsaIsOrdered(ops, next);
    var k :| 0 <= k < |ops| && ops[k] == o;
    KeptIsNeeded(ops, k);
    if o in Kept(ops) {
      forall p, i | p in ops && Result(p.id, i) in o.operands
        ensures p in Kept(ops)
      {
        DefinitionIsKept(ops, k, p, i);
      }
      if !HasEffect(o) {
        UserIsKept(ops, k);
      }
    }
  }

  lemma DefinitionIsKept(ops: seq<Op>, k: nat, p: Op, i: nat)
    requires Ordered(ops) && k < |ops| && Needed(ops, k) && p in ops && Result(p.id, i) in ops[k].operands
    ensures p in Kept(ops)
  {
    var j :| 0 <= j < |ops| && ops[j] == p;
    assert Uses(ops[k], ops[j].id);
    KeptIsNeeded(ops, j);
  }

  lemma UserIsKept(ops: seq<Op>, k: nat)
    requires Ordered(ops) && k < |ops| && Needed(ops, k) && !HasEffect(ops[k])
    ensures exists u, i :: u in Kept(ops) && Result(ops[k].id, i) in u.operands
  {
    var j :| k < j < |ops| && Uses(ops[j], ops[k].id) && Needed(ops, j);
    KeptIsNeeded(ops, j);
    var n :| 0 <= n < |ops[j].operands| && ops[j].operands[n].Result? && ops[j].operands[n].op == ops[k].id;
    assert Result(ops[k].id, ops[j].operands[n].i) in ops[j].operands;
  }

  // ---- What the block does ----

  function ErasedIds(ops: seq<Op>): (r: set<nat>) {
    if ops == [] then {}
    else if TriviallyDead(ops[0], Kept(ops[1..])) then {ops[0].id} + ErasedIds(ops[1..])
    else ErasedIds(ops[1..])
  }

  lemma {:induction false} KeptIsNotErased(ops: seq<Op>, o: Op)
    requires Ordered(ops) && o in ops
    ensures o.id in ErasedIds(ops) <==> o !in Kept(ops)
  {
    OrderedTail(ops);
    if o in ops[1..] {
      KeptIsNotErased(ops[1..], o);
    } else {
      OnlyInOps(ops[1..], o.id);
    }
  }

  lemma {:induction false} OnlyInOps(ops: seq<Op>, id: nat)
    requires forall o :: o in ops ==> o.id != id
    ensures id !in ErasedIds(ops)
  {
    if ops != [] {
      OnlyInOps(ops[1..], id);
    }
  }

  lemma UsesOneLess(o: Op, erased: set<nat>, id: nat)
    requires UsesNone(o, erased) && !Uses(o, id)
    ensures UsesNone(o, erased + {id})
  {
  }

  lemma {:induction false} SameAfterSweep(ops: seq<Op>, s: State, t: State, args: seq<int>, m: Meaning, erased: set<nat>)
    requires Ordered(ops) && AgreeExcept(s, t, erased)
    requires forall o :: o in Kept(ops) ==> UsesNone(o, erased)
    ensures AgreeExcept(Run(s, ops, args, m), Run(t, Kept(ops), args, m), erased + ErasedIds(ops))
  {
    if ops == [] {
      assert erased + {} == erased;
    } else {
      OrderedTail(ops);
      var first, rest := ops[0], Kept(ops[1..]);
      if TriviallyDead(first, rest) {
        forall o | o in rest
          ensures UsesNone(o, erased + {first.id})
        {
          var k :| 0 <= k < |rest| && rest[k] == o;
          assert o in Kept(ops[1..]) && !Uses(rest[k], first.id);
          UsesOneLess(o, erased, first.id);
        }
        SameAfterSweep(ops[1..], Exec(s, first, args, m), t, args, m, erased + {first.id});
        assert erased + {first.id} + ErasedIds(ops[1..]) == erased + ErasedIds(ops);
      } else {
        assert first in Kept(ops) && ([first] + rest)[1..] == rest;
        assert forall o :: o in rest ==> o in Kept(ops);
        ExecAgrees(s, t, first, args, m, erased);
        SameAfterSweep(ops[1..], Exec(s, first, args, m), Exec(t, first, args, m), args, m, erased);
      }
    }
  }

  // Erasing the dead ops changes no side effect, and no result of an op that is left.
  lemma SweepPreservesBehaviour(ops: seq<Op>, next: nat, args: seq<int>, m: Meaning)
    requires Ssa(ops, next)
    ensures Behaviour(Kept(ops), args, m).events == Behaviour(ops, args, m).events
    ensures AgreeExcept(Behaviour(ops, args, m), Behaviour(Kept(ops), args, m), ErasedIds(ops))
    ensures forall o :: o in Kept(ops) ==> o.id !in ErasedIds(ops)
  {
    SsaIsOrdered(ops, next);
    var start := State(map[], []);
    SameAfterSweep(ops, start, start, args, m, {});
    assert {} + ErasedIds(ops) == ErasedIds(ops);
    forall o | o in Kept(ops)
      ensures o.id !in ErasedIds(ops)
    {
      KeptIsNotErased(ops, o);
    }
  }
}
