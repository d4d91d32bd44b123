// Straight-line SSA code and what it does: a block of ops with results, and a run
// that gives every op its results and leaves a list of side effects.
module Ir {

  // Result `i` of the op with id `op`, or a block argument.
  datatype Value = Argument(i: nat) | Result(op: nat, i: nat)

  datatype Place = Strela | Host

  // A linalg op takes its first `inputs` operands as inputs and the others as inits.
  // Any other op may have side effects, or be a terminator: it cannot be erased.
  datatype Code =
    | Linalg(name: nat, inputs: nat)
    | Transfer(to: Place)
    | SplatI32(word: int)
    | Other(name: nat, effect: bool)

  datatype Op = Op(id: nat, code: Code, operands: seq<Value>, results: nat)

  predicate HasEffect(op: Op) {
    op.code.Other? && op.code.effect
  }

  predicate Uses(op: Op, id: nat) {
    exists k :: 0 <= k < |op.operands| && op.operands[k].Result? && op.operands[k].op == id
  }

  // Ids are distinct and below `next`, linalg ops have their inputs, and every
  // operand is a result of an earlier op.
  predicate Ssa(ops: seq<Op>, next: nat) {
    && (forall k :: 0 <= k < |ops| ==> ops[k].id < next && WellFormed(ops[k]))
    && (forall j, k :: 0 <= j < k < |ops| ==> ops[j].id != ops[k].id)
    && forall k, v :: 0 <= k < |ops| && v in ops[k].operands ==> DefinedBefore(ops, k, v)
  }

  predicate WellFormed(op: Op) {
    (op.code.Linalg? ==> op.code.inputs <= |op.operands|) && (op.code.Transfer? ==> |op.operands| > 0)
  }

  predicate DefinedBefore(ops: seq<Op>, k: nat, v: Value)
    requires k <= |ops|
  {
    v.Result? ==> exists j :: 0 <= j < k && ops[j].id == v.op && v.i < ops[j].results
  }

  // No op uses a result of itself or of a later op.
  lemma UsesAreLater(ops: seq<Op>, next: nat, i: nat)
    requires Ssa(ops, next) && i < |ops|
    ensures forall j :: 0 <= j <= i ==> !Uses(ops[j], ops[i].id)
  {
    forall j | 0 <= j <= i
      ensures !Uses(ops[j], ops[i].id)
    {
      if Uses(ops[j], ops[i].id) {
        var k :| 0 <= k < |ops[j].operands| && ops[j].operands[k].Result? && ops[j].operands[k].op == ops[i].id;
        assert ops[j].operands[k] in ops[j].operands;
        if DefinedBefore(ops, j, ops[j].operands[k]) {
          assert false;
        }
      }
    }
  }

  // ---- Runs ----

  // A side effect: an op and the operand values it had.
  datatype Event = Event(name: nat, args: seq<int>)

  // What the ops other than transfers compute, from their operands and what has
  // happened before (a load reads what earlier stores wrote).
  type Meaning = (Code, seq<int>, seq<Event>) -> seq<int>

  datatype State = State(results: map<nat, seq<int>>, events: seq<Event>)

  function Lookup(s: State, args: seq<int>, v: Value): (x: int) {
    match v
    case Argument(i) => if i < |args| then args[i] else 0
    case Result(op, i) => if op in s.results && i < |s.results[op]| then s.results[op][i] else 0
  }

  function OperandValues(s: State, args: seq<int>, operands: seq<Value>): (r: seq<int>)
    ensures |r| == |operands|
  {
    seq(|operands|, k requires 0 <= k < |operands| => Lookup(s, args, operands[k]))
  }

  // A transfer reads as the identity.
  function Exec(s: State, op: Op, args: seq<int>, m: Meaning): (r: State) {
    var values := OperandValues(s, args, op.operands);
    var results := if op.code.Transfer? then values else m(op.code, values, s.events);
    State(s.results[op.id := results],
          if HasEffect(op) then s.events + [Event(op.code.name, values)] else s.events)
  }

  function Run(s: State, ops: seq<Op>, args: seq<int>, m: Meaning): (r: State)
    decreases |ops|
  {
    if ops == [] then s else Run(Exec(s, ops[0], args, m), ops[1..], args, m)
  }

  // What a function does when it is called.
  function Behaviour(ops: seq<Op>, args: seq<int>, m: Meaning): (r: State) {
    Run(State(map[], []), ops, args, m)
  }

  // One op, on the values it reads.
  lemma ExecMeans(s: State, op: Op, args: seq<int>, m: Meaning, values: seq<int>)
    requires |values| == |op.operands|
    requires forall k :: 0 <= k < |values| ==>
               values[k] == match op.operands[k]
                            case Argument(i) => if i < |args| then args[i] else 0
                            case Result(o, i) => if o in s.results && i < |s.results[o]| then s.results[o][i] else 0
    ensures var r := Exec(s, op, args, m);
            && r.results == s.results[op.id := if op.code.Transfer? then values else m(op.code, values, s.events)]
            && r.events == if op.code.Other? && op.code.effect then s.events + [Event(op.code.name, values)] else s.events
  {
    assert OperandValues(s, args, op.operands) == values;
  }

  // The ops run one after the other, from nothing.
  lemma BehaviourMeans(ops: seq<Op>, op: Op, args: seq<int>, m: Meaning)
    ensures Behaviour([], args, m) == State(map[], [])
    ensures Behaviour(ops + [op], args, m) == Exec(Behaviour(ops, args, m), op, args, m)
  {
    RunConcat(State(map[], []), ops, [op], args, m);
    assert [op][1..] == [];
    var s := Run(State(map[], []), ops, args, m);
    assert Run(Exec(s, op, args, m), [op][1..], args, m) == Exec(s, op, args, m);
  }

  lemma {:induction false} RunConcat(s: State, a: seq<Op>, b: seq<Op>, args: seq<int>, m: Meaning)
    ensures Run(s, a + b, args, m) == Run(Run(s, a, args, m), b, args, m)
    decreases |a|
  {
    if a == [] {
      assert a + b == b;
    } else {
      assert (a + b)[1..] == a[1..] + b;
      RunConcat(Exec(s, a[0], args, m), a[1..], b, args, m);
    }
  }

  // The effects are the same, and so is every result but those of `erased`.
  predicate AgreeExcept(s: State, t: State, erased: set<nat>) {
    && s.events == t.events
    && (forall id :: id in s.results && id !in erased ==> id in t.results && s.results[id] == t.results[id])
    && (forall id :: id in t.results && id !in erased ==> id in s.results)
  }

  predicate UsesNone(op: Op, erased: set<nat>) {
    forall k :: 0 <= k < |op.operands| && op.operands[k].Result? ==> op.operands[k].op !in erased
  }

  lemma ExecAgrees(s: State, t: State, op: Op, args: seq<int>, m: Meaning, erased: set<nat>)
    requires AgreeExcept(s, t, erased) && UsesNone(op, erased)
    ensures AgreeExcept(Exec(s, op, args, m), Exec(t, op, args, m), erased)
  {
    assert OperandValues(s, args, op.operands) == OperandValues(t, args, op.operands);
  }
}
