// The synchronous queue of device.c on the semaphores of semaphore.c, for any number
// of submitting threads: every call waits for its wait list, does its work on its own
// thread, and signals or fails its signal list.
module Queue {

  // ---- Submissions and semaphores ----

  datatype Entry = Entry(sem: nat, value: nat)

  // queue_execute of a command buffer, if any, which has to be a deferred one;
  // queue_alloca; queue_dealloca.
  datatype Call = Execute(commands: nat, deferred: bool) | Barrier | Alloca | Dealloca

  datatype Submission = Submission(call: Call, waits: seq<Entry>, signals: seq<Entry>)

  // Steps of the call between its wait and its signal.
  function Work(call: Call): (n: nat) {
    match call
    case Execute(commands, _) => commands
    case Barrier => 0
    case Alloca => 1
    case Dealloca => 0
  }

  predicate CanStart(call: Call) {
    call.Execute? ==> call.deferred
  }

  // Once failed, a semaphore stays failed.
  datatype Semaphore = Semaphore(value: nat, failed: bool)

  datatype Phase =
    | Waiting(waited: nat)
    | Working(worked: nat)
    | Signaling(signaled: nat)
    | Failing(failed: nat)
    | Succeeded
    | Failed

  // Step j of submission s was done; submission s signaled entry k of its list.
  datatype Event = Ran(s: nat, j: nat) | Signaled(s: nat, k: nat)

  datatype State = State(sems: seq<Semaphore>, phases: seq<Phase>, log: seq<Event>)

  // All submissions ever made, and the initial values of the semaphores.
  datatype System = System(subs: seq<Submission>, initial: seq<nat>)

  predicate InRange(entries: seq<Entry>, sems: nat) {
    forall k :: 0 <= k < |entries| ==> entries[k].sem < sems
  }

  predicate ValidSystem(sys: System) {
    forall s :: 0 <= s < |sys.subs| ==>
      InRange(sys.subs[s].waits, |sys.initial|) && InRange(sys.subs[s].signals, |sys.initial|)
  }

  predicate ValidState(sys: System, st: State) {
    ValidSystem(sys) && |st.sems| == |sys.initial| && |st.phases| == |sys.subs|
  }

  function Init(sys: System): (st: State) {
    State(seq(|sys.initial|, i requires 0 <= i < |sys.initial| => Semaphore(sys.initial[i], false)),
          seq(|sys.subs|, s => Waiting(0)), [])
  }

  // ---- Steps ----

  function Move(st: State, s: nat, phase: Phase): (r: State)
    requires s < |st.phases|
  {
    st.(phases := st.phases[s := phase])
  }

  function Note(st: State, event: Event): (r: State) {
    st.(log := st.log + [event])
  }

  // The timeline of the entry comes to its value.
  function Raise(st: State, e: Entry): (r: State)
    requires e.sem < |st.sems|
  {
    st.(sems := st.sems[e.sem := Semaphore(e.value, false)])
  }

  function Break(st: State, e: Entry): (r: State)
    requires e.sem < |st.sems|
  {
    st.(sems := st.sems[e.sem := st.sems[e.sem].(failed := true)])
  }

  // The next step of submission s is to wait for an entry: it is over when the
  // timeline has come that far, or the wait fails.
  predicate WaitStep(sys: System, a: State, b: State, s: nat)
    requires ValidState(sys, a) && s < |sys.subs|
  {
    && a.phases[s].Waiting? && a.phases[s].waited < |sys.subs[s].waits|
    && var e := sys.subs[s].waits[a.phases[s].waited];
    || (!a.sems[e.sem].failed && a.sems[e.sem].value >= e.value && b == Move(a, s, Waiting(a.phases[s].waited + 1)))
    || b == Move(a, s, Failing(0))
  }

  predicate StartStep(sys: System, a: State, b: State, s: nat)
    requires ValidState(sys, a) && s < |sys.subs|
  {
    a.phases[s] == Waiting(|sys.subs[s].waits|) && b == Move(a, s, Working(0))
  }

  // The work goes on, fails or is over. Before its first command an execute call also
  // makes the command buffer that runs them, which may fail.
  predicate WorkStep(sys: System, a: State, b: State, s: nat)
    requires ValidState(sys, a) && s < |sys.subs|
  {
    && a.phases[s].Working?
    && var j, call := a.phases[s].worked, sys.subs[s].call;
    || (CanStart(call) && j < Work(call) && b == Note(Move(a, s, Working(j + 1)), Ran(s, j)))
    || ((j < Work(call) || !CanStart(call) || (call.Execute? && j == 0)) && b == Move(a, s, Failing(0)))
    || (CanStart(call) && j == Work(call) && b == Move(a, s, Signaling(0)))
  }

  // A timeline only advances, and not once failed.
  predicate SignalStep(sys: System, a: State, b: State, s: nat)
    requires ValidState(sys, a) && s < |sys.subs|
  {
    && a.phases[s].Signaling?
    && var k, signals := a.phases[s].signaled, sys.subs[s].signals;
    || (k < |signals| && !a.sems[signals[k].sem].failed && a.sems[signals[k].sem].value < signals[k].value
        && b == Raise(Note(Move(a, s, Signaling(k + 1)), Signaled(s, k)), signals[k]))
    || (k < |signals| && b == Move(a, s, Failing(0)))
    || (k == |signals| && b == Move(a, s, Succeeded))
  }

  predicate FailStep(sys: System, a: State, b: State, s: nat)
    requires ValidState(sys, a) && s < |sys.subs|
  {
    && a.phases[s].Failing?
    && var k, signals := a.phases[s].failed, sys.subs[s].signals;
    || (k < |signals| && b == Break(Move(a, s, Failing(k + 1)), signals[k]))
    || (k == |signals| && b == Move(a, s, Failed))
  }

  predicate StepOf(sys: System, a: State, b: State, s: nat)
    requires ValidState(sys, a) && s < |sys.subs|
  {
    || WaitStep(sys, a, b, s) || StartStep(sys, a, b, s) || WorkStep(sys, a, b, s)
    || SignalStep(sys, a, b, s) || FailStep(sys, a, b, s)
  }

  ghost predicate Step(sys: System, a: State, b: State) {
    ValidState(sys, a) && exists s :: 0 <= s < |sys.subs| && StepOf(sys, a, b, s)
  }

  // Any interleaving.
  ghost predicate IsRun(sys: System, run: seq<State>) {
    |run| > 0 && forall i :: 0 < i < |run| ==> Step(sys, run[i - 1], run[i])
  }

  // ---- What every interleaving keeps ----

  // The timeline of the entry has come to its value: by the start, or by a signal.
  predicate Reached(sys: System, log: seq<Event>, e: Entry)
    requires ValidSystem(sys)
  {
    || (e.sem < |sys.initial| && sys.initial[e.sem] >= e.value)
    || exists n :: 0 <= n < |log| && Reaches(sys, log[n], e)
  }

  predicate Reaches(sys: System, event: Event, e: Entry) {
    && event.Signaled? && event.s < |sys.subs| && event.k < |sys.subs[event.s].signals|
    && sys.subs[event.s].signals[event.k].sem == e.sem && sys.subs[event.s].signals[event.k].value >= e.value
  }

  predicate WaitsReached(sys: System, log: seq<Event>, s: nat)
    requires ValidSystem(sys) && s < |sys.subs|
  {
    forall i :: 0 <= i < |sys.subs[s].waits| ==> Reached(sys, log, sys.subs[s].waits[i])
  }

  predicate AllRan(sys: System, log: seq<Event>, s: nat)
    requires s < |sys.subs|
  {
    forall j :: 0 <= j < Work(sys.subs[s].call) ==> Ran(s, j) in log
  }

  // What has to come before an event: the waits of the submission and the earlier work
  // before a piece of work, and the waits and all of the work before the signals.
  predicate Justified(sys: System, before: seq<Event>, event: Event)
    requires ValidSystem(sys)
  {
    && event.s < |sys.subs| && WaitsReached(sys, before, event.s)
    && (event.Ran? ==> forall i :: 0 <= i < event.j ==> Ran(event.s, i) in before)
    && (event.Signaled? ==>
          event.k < |sys.subs[event.s].signals| && CanStart(sys.subs[event.s].call) && AllRan(sys, before, event.s))
  }

  predicate OrderedLog(sys: System, log: seq<Event>)
    requires ValidSystem(sys)
  {
    forall n :: 0 <= n < |log| ==> Justified(sys, log[..n], log[n])
  }

  // What a submission has done by its phase.
  ghost predicate PhaseInv(sys: System, st: State, s: nat)
    requires ValidState(sys, st) && s < |sys.subs|
  {
    var sub := sys.subs[s];
    match st.phases[s]
    case Waiting(n) =>
      && n <= |sub.waits| && (forall i :: 0 <= i < n ==> Reached(sys, st.log, sub.waits[i]))
      && (forall j :: Ran(s, j) !in st.log) && forall k :: Signaled(s, k) !in st.log
    case Working(n) =>
      && n <= Work(sub.call) && WaitsReached(sys, st.log, s)
      && (forall j :: 0 <= j < n ==> Ran(s, j) in st.log) && forall k :: Signaled(s, k) !in st.log
    case Signaling(n) =>
      && n <= |sub.signals| && CanStart(sub.call) && WaitsReached(sys, st.log, s) && AllRan(sys, st.log, s)
      && forall k :: 0 <= k < n ==> Signaled(s, k) in st.log
    case Failing(n) =>
      n <= |sub.signals| && forall k :: 0 <= k < n ==> st.sems[sub.signals[k].sem].failed
    case Succeeded =>
      && CanStart(sub.call) && WaitsReached(sys, st.log, s) && AllRan(sys, st.log, s)
      && forall k :: 0 <= k < |sub.signals| ==> Signaled(s, k) in st.log
    case Failed => forall k :: 0 <= k < |sub.signals| ==> st.sems[sub.signals[k].sem].failed
  }

  ghost predicate Inv(sys: System, st: State) {
    && ValidState(sys, st) && OrderedLog(sys, st.log)
    && (forall i :: 0 <= i < |st.sems| ==> Reached(sys, st.log, Entry(i, st.sems[i].value)))
    && (forall s :: 0 <= s < |sys.subs| ==> PhaseInv(sys, st, s))
    && forall event :: event in st.log ==> Holds(sys, st, event)
  }

  // The timeline of a signal stays at its value or above.
  predicate Holds(sys: System, st: State, event: Event)
    requires ValidState(sys, st)
  {
    event.Signaled? && event.s < |sys.subs| && event.k < |sys.subs[event.s].signals| ==>
      st.sems[sys.subs[event.s].signals[event.k].sem].value >= sys.subs[event.s].signals[event.k].value
  }

  lemma InitInv(sys: System)
    requires ValidSystem(sys)
    ensures Inv(sys, Init(sys))
  {
  }

  lemma ReachedMore(sys: System, log: seq<Event>, event: Event, e: Entry)
    requires ValidSystem(sys)
    ensures Reached(sys, log, e) ==> Reached(sys, log + [event], e)
  {
    if n :| 0 <= n < |log| && Reaches(sys, log[n], e) {
      assert (log + [event])[n] == log[n];
    }
  }

  lemma OrderedMore(sys: System, log: seq<Event>, event: Event)
    requires ValidSystem(sys) && OrderedLog(sys, log) && Justified(sys, log, event)
    ensures OrderedLog(sys, log + [event])
  {
    var more := log + [event];
    forall n | 0 <= n < |more|
      ensures Justified(sys, more[..n], more[n])
    {
      assert more[..n] == if n < |log| then log[..n] else log;
    }
  }

  // What a step of submission s leaves to the others: one more event of its own at
  // most, and semaphores that stay failed.
  ghost predicate Extends(a: State, b: State, s: nat) {
    && |b.sems| == |a.sems| && (forall i :: 0 <= i < |a.sems| && a.sems[i].failed ==> b.sems[i].failed)
    && (b.log == a.log || exists event :: b.log == a.log + [event] && event.s == s)
  }

  lemma PhaseKept(sys: System, a: State, b: State, s: nat, t: nat)
    requires ValidState(sys, a) && ValidState(sys, b) && t < |sys.subs| && t != s && Extends(a, b, s)
    requires PhaseInv(sys, a, t) && b.phases[t] == a.phases[t]
    ensures PhaseInv(sys, b, t)
  {
    if b.log != a.log {
      var event :| b.log == a.log + [event] && event.s == s;
      forall e: Entry
        ensures Reached(sys, a.log, e) ==> Reached(sys, b.log, e)
      {
        ReachedMore(sys, a.log, event, e);
      }
      forall e: Event | e.s == t
        ensures e in b.log <==> e in a.log
      {
      }
    }
  }

  lemma StepExtends(sys: System, a: State, b: State, s: nat)
    requires ValidState(sys, a) && s < |sys.subs| && StepOf(sys, a, b, s)
    ensures ValidState(sys, b) && Extends(a, b, s)
    ensures forall t :: 0 <= t < |sys.subs| && t != s ==> b.phases[t] == a.phases[t]
  {
  }

  // The invariant for the submission that moves, and for the semaphores.
  ghost predicate OwnInv(sys: System, b: State, s: nat) {
    && ValidState(sys, b) && s < |sys.subs| && PhaseInv(sys, b, s) && OrderedLog(sys, b.log)
    && forall i :: 0 <= i < |b.sems| ==> Reached(sys, b.log, Entry(i, b.sems[i].value))
  }

  lemma ReachedLess(sys: System, log: seq<Event>, e: Entry, value: nat)
    requires ValidSystem(sys) && Reached(sys, log, Entry(e.sem, value))
    ensures value >= e.value ==> Reached(sys, log, e)
  {
    if n :| 0 <= n < |log| && Reaches(sys, log[n], Entry(e.sem, value)) {
      assert value >= e.value ==> Reaches(sys, log[n], e);
    }
  }

  lemma WaitInv(sys: System, a: State, b: State, s: nat)
    requires Inv(sys, a) && s < |sys.subs| && WaitStep(sys, a, b, s)
    ensures OwnInv(sys, b, s)
  {
    assert PhaseInv(sys, a, s);
    var e := sys.subs[s].waits[a.phases[s].waited];
    assert Reached(sys, a.log, Entry(e.sem, a.sems[e.sem].value));
    ReachedLess(sys, a.log, e, a.sems[e.sem].value);
  }

  lemma WorkInv(sys: System, a: State, b: State, s: nat)
    requires Inv(sys, a) && s < |sys.subs| && (WorkStep(sys, a, b, s) || StartStep(sys, a, b, s))
    ensures OwnInv(sys, b, s)
  {
    assert PhaseInv(sys, a, s);
    if b.log != a.log {
      var event := Ran(s, a.phases[s].worked);
      LogGrows(sys, a.log, event);
    }
  }

  lemma SignalInv(sys: System, a: State, b: State, s: nat)
    requires Inv(sys, a) && s < |sys.subs| && SignalStep(sys, a, b, s)
    ensures OwnInv(sys, b, s)
  {
    assert PhaseInv(sys, a, s);
    if b.log != a.log {
      var event := Signaled(s, a.phases[s].signaled);
      LogGrows(sys, a.log, event);
      var e := sys.subs[s].signals[a.phases[s].signaled];
      assert b.log[|a.log|] == event && Reaches(sys, event, e);
    }
  }

  lemma FailInv(sys: System, a: State, b: State, s: nat)
    requires Inv(sys, a) && s < |sys.subs| && FailStep(sys, a, b, s)
    ensures OwnInv(sys, b, s)
  {
    assert PhaseInv(sys, a, s);
    forall i | 0 <= i < |b.sems|
      ensures Reached(sys, b.log, Entry(i, b.sems[i].value))
    {
      assert Reached(sys, a.log, Entry(i, a.sems[i].value));
    }
  }

  lemma LogGrows(sys: System, log: seq<Event>, event: Event)
    requires ValidSystem(sys) && OrderedLog(sys, log) && Justified(sys, log, event)
    ensures OrderedLog(sys, log + [event])
    ensures forall e: Entry :: Reached(sys, log, e) ==> Reached(sys, log + [event], e)
  {
    OrderedMore(sys, log, event);
    forall e: Entry
      ensures Reached(sys, log, e) ==> Reached(sys, log + [event], e)
    {
      ReachedMore(sys, log, event, e);
    }
  }

  lemma OwnStep(sys: System, a: State, b: State, s: nat)
    requires Inv(sys, a) && s < |sys.subs| && StepOf(sys, a, b, s)
    ensures OwnInv(sys, b, s)
  {
    hide PhaseInv, OwnInv, OrderedLog;
    if WaitStep(sys, a, b, s) {
      WaitInv(sys, a, b, s);
    } else if SignalStep(sys, a, b, s) {
      SignalInv(sys, a, b, s);
    } else if FailStep(sys, a, b, s) {
      FailInv(sys, a, b, s);
    } else {
      WorkInv(sys, a, b, s);
    }
  }

  lemma StepHolds(sys: System, a: State, b: State, s: nat)
    requires Inv(sys, a) && s < |sys.subs| && StepOf(sys, a, b, s) && ValidState(sys, b)
    ensures forall event :: event in b.log ==> Holds(sys, b, event)
  {
    hide OrderedLog, PhaseInv;
    forall event | event in b.log
      ensures Holds(sys, b, event)
    {
      assert event in a.log ==> Holds(sys, a, event);
    }
  }

  lemma StepInv(sys: System, a: State, b: State)
    requires Inv(sys, a) && Step(sys, a, b)
    ensures Inv(sys, b)
  {
    var s :| 0 <= s < |sys.subs| && StepOf(sys, a, b, s);
    OwnStep(sys, a, b, s);
    StepExtends(sys, a, b, s);
    StepHolds(sys, a, b, s);
    hide StepOf, OrderedLog, Holds, Extends;
    forall t | 0 <= t < |sys.subs|
      ensures PhaseInv(sys, b, t)
    {
      if t != s {
        PhaseKept(sys, a, b, s, t);
      }
    }
  }

  lemma {:induction false} RunInv(sys: System, run: seq<State>)
    requires IsRun(sys, run) && Inv(sys, run[0])
    ensures forall i :: 0 <= i < |run| ==> Inv(sys, run[i])
    decreases |run|
  {
    hide Inv;
    if |run| > 1 {
      var shorter := run[..|run| - 1];
      assert forall i :: 0 <= i < |shorter| ==> shorter[i] == run[i];
      RunInv(sys, shorter);
      assert Step(sys, run[|run| - 2], run[|run| - 1]) && Inv(sys, shorter[|run| - 2]);
      StepInv(sys, run[|run| - 2], run[|run| - 1]);
    }
  }

  // ---- What this means for submitters ----

  // In every interleaving a signal comes after all of the work: every command of a
  // deferred command buffer, or the allocation.
  lemma SignalsComeLast(sys: System, run: seq<State>, x: nat, m: nat)
    requires ValidSystem(sys) && IsRun(sys, run) && run[0] == Init(sys) && x < |run| && m < |run[x].log|
    requires run[x].log[m].Signaled?
    ensures run[x].log[m].s < |sys.subs| && run[x].log[m].k < |sys.subs[run[x].log[m].s].signals|
    ensures var s := run[x].log[m].s;
            match sys.subs[s].call
            case Execute(n, deferred) => deferred && forall j :: 0 <= j < n ==> Ran(s, j) in run[x].log[..m]
            case Alloca => Ran(s, 0) in run[x].log[..m]
            case _ => true
  {
    InitInv(sys);
    RunInv(sys, run);
    assert Justified(sys, run[x].log[..m], run[x].log[m]);
  }

  // The commands of a submission run in order.
  lemma CommandsInOrder(sys: System, run: seq<State>, x: nat, m: nat, i: nat)
    requires ValidSystem(sys) && IsRun(sys, run) && run[0] == Init(sys) && x < |run| && m < |run[x].log|
    requires run[x].log[m].Ran? && i < run[x].log[m].j
    ensures Ran(run[x].log[m].s, i) in run[x].log[..m]
  {
    InitInv(sys);
    RunInv(sys, run);
    assert Justified(sys, run[x].log[..m], run[x].log[m]);
  }

  // In every interleaving a step comes after each wait of its submission was satisfied,
  // from the start or by signal m, of a submission that had done its work.
  lemma WorkComesAfterItsWaits(sys: System, run: seq<State>, x: nat, n: nat, i: nat) returns (m: nat)
    requires ValidSystem(sys) && IsRun(sys, run) && run[0] == Init(sys) && x < |run| && n < |run[x].log|
    ensures run[x].log[n].s < |sys.subs|
    ensures i < |sys.subs[run[x].log[n].s].waits| ==>
              var e := sys.subs[run[x].log[n].s].waits[i];
              || (e.sem < |sys.initial| && sys.initial[e.sem] >= e.value)
              || (m < n && run[x].log[m].Signaled?
                  && var s, k := run[x].log[m].s, run[x].log[m].k;
                     && s < |sys.subs| && k < |sys.subs[s].signals|
                     && sys.subs[s].signals[k].sem == e.sem && sys.subs[s].signals[k].value >= e.value
                     && match sys.subs[s].call
                        case Execute(c, deferred) => deferred && forall j :: 0 <= j < c ==> Ran(s, j) in run[x].log[..m]
                        case Alloca => Ran(s, 0) in run[x].log[..m]
                        case _ => true)
  {
    InitInv(sys);
    RunInv(sys, run);
    var log := run[x].log;
    assert Justified(sys, log[..n], log[n]);
    m := 0;
    if i < |sys.subs[log[n].s].waits| {
      var e := sys.subs[log[n].s].waits[i];
      assert Reached(sys, log[..n], e);
      if l: nat :| l < n && Reaches(sys, log[..n][l], e) {
        m := l;
        SignalsComeLast(sys, run, x, m);
      }
    }
  }

  // A submission that has not done all its work has signaled nothing; one that ends in
  // failure has failed its whole signal list.
  lemma FailureFailsTheSignals(sys: System, run: seq<State>, x: nat, s: nat)
    requires ValidSystem(sys) && IsRun(sys, run) && run[0] == Init(sys) && x < |run| && s < |sys.subs|
    ensures |run[x].phases| == |sys.subs| && |run[x].sems| == |sys.initial|
    ensures (match sys.subs[s].call
             case Execute(n, deferred) => !deferred || exists j :: 0 <= j < n && Ran(s, j) !in run[x].log
             case Alloca => Ran(s, 0) !in run[x].log
             case _ => false)
            ==> forall k :: Signaled(s, k) !in run[x].log
    ensures run[x].phases[s].Failed? ==>
              forall k :: 0 <= k < |sys.subs[s].signals| ==> run[x].sems[sys.subs[s].signals[k].sem].failed
  {
    InitInv(sys);
    RunInv(sys, run);
    assert PhaseInv(sys, run[x], s);
    var log := run[x].log;
    forall k | Signaled(s, k) in log
      ensures match sys.subs[s].call
              case Execute(n, deferred) => deferred && forall j :: 0 <= j < n ==> Ran(s, j) in log
              case Alloca => Ran(s, 0) in log
              case _ => true
    {
      var m :| 0 <= m < |log| && log[m] == Signaled(s, k);
      SignalsComeLast(sys, run, x, m);
      assert forall e :: e in log[..m] ==> e in log;
    }
  }

  // A submission that has succeeded has done all its work, and every timeline of its
  // signal list has come to its value and stays there.
  lemma SuccessSignals(sys: System, run: seq<State>, x: nat, s: nat)
    requires ValidSystem(sys) && IsRun(sys, run) && run[0] == Init(sys) && x < |run| && s < |sys.subs|
    requires |run[x].phases| == |sys.subs| && run[x].phases[s].Succeeded?
    ensures |run[x].sems| == |sys.initial|
    ensures match sys.subs[s].call
            case Execute(n, deferred) => deferred && forall j :: 0 <= j < n ==> Ran(s, j) in run[x].log
            case Alloca => Ran(s, 0) in run[x].log
            case _ => true
    ensures forall k :: 0 <= k < |sys.subs[s].signals| ==>
              && Signaled(s, k) in run[x].log
              && run[x].sems[sys.subs[s].signals[k].sem].value >= sys.subs[s].signals[k].value
  {
    InitInv(sys);
    RunInv(sys, run);
    assert PhaseInv(sys, run[x], s);
    forall k | 0 <= k < |sys.subs[s].signals|
      ensures run[x].sems[sys.subs[s].signals[k].sem].value >= sys.subs[s].signals[k].value
    {
      assert Holds(sys, run[x], Signaled(s, k));
    }
  }

  predicate Stopped(phase: Phase) {
    phase.Failing? || phase.Failed?
  }

  // d has not passed entry i of its wait list, which is on a failed semaphore, and has
  // done nothing.
  ghost predicate Blocked(sys: System, st: State, d: nat, i: nat)
    requires ValidState(sys, st) && d < |sys.subs| && i < |sys.subs[d].waits|
  {
    && st.sems[sys.subs[d].waits[i].sem].failed
    && ((st.phases[d].Waiting? && st.phases[d].waited <= i) || Stopped(st.phases[d]))
    && forall event :: event in st.log ==> event.s != d
  }

  lemma BlockedStays(sys: System, a: State, b: State, d: nat, i: nat)
    requires ValidState(sys, a) && Step(sys, a, b) && d < |sys.subs| && i < |sys.subs[d].waits|
    requires Blocked(sys, a, d, i)
    ensures ValidState(sys, b) && Blocked(sys, b, d, i)
  {
    var s :| 0 <= s < |sys.subs| && StepOf(sys, a, b, s);
    StepExtends(sys, a, b, s);
    if s == d {
      BlockedStep(sys, a, b, d, i);
    }
  }

  lemma BlockedStep(sys: System, a: State, b: State, d: nat, i: nat)
    requires ValidState(sys, a) && d < |sys.subs| && i < |sys.subs[d].waits|
    requires StepOf(sys, a, b, d) && Blocked(sys, a, d, i)
    ensures b.log == a.log && ((b.phases[d].Waiting? && b.phases[d].waited <= i) || Stopped(b.phases[d]))
  {
  }

  // Once a semaphore has failed, a submission that has still to wait for it does no
  // work and signals nothing, in every interleaving that follows.
  lemma {:induction false} DependentsNeverRun(sys: System, run: seq<State>, d: nat, i: nat)
    requires IsRun(sys, run) && Inv(sys, run[0]) && d < |sys.subs| && i < |sys.subs[d].waits|
    requires run[0].phases[d].Waiting? && run[0].phases[d].waited <= i
    requires run[0].sems[sys.subs[d].waits[i].sem].failed
    ensures var last := run[|run| - 1];
            && ValidState(sys, last) && last.sems[sys.subs[d].waits[i].sem].failed
            && ((last.phases[d].Waiting? && last.phases[d].waited <= i) || Stopped(last.phases[d]))
            && forall event :: event in last.log ==> event.s != d
    decreases |run|
  {
    assert PhaseInv(sys, run[0], d);
    if |run| > 1 {
      var shorter := run[..|run| - 1];
      assert forall k :: 0 <= k < |shorter| ==> shorter[k] == run[k];
      DependentsNeverRun(sys, shorter, d, i);
      assert Step(sys, run[|run| - 2], run[|run| - 1]);
      BlockedStays(sys, run[|run| - 2], run[|run| - 1], d, i);
    }
  }

  // One producer that ends in failure is enough: whoever has still to wait for a
  // semaphore of its signal list never runs.
  lemma FailedProducerStopsDependents(sys: System, run: seq<State>, p: nat, k: nat, d: nat, i: nat)
    requires IsRun(sys, run) && Inv(sys, run[0])
    requires p < |sys.subs| && k < |sys.subs[p].signals| && run[0].phases[p].Failed?
    requires d < |sys.subs| && i < |sys.subs[d].waits|
    requires sys.subs[d].waits[i].sem == sys.subs[p].signals[k].sem
    requires run[0].phases[d].Waiting? && run[0].phases[d].waited <= i
    ensures var last := run[|run| - 1];
            && |last.phases| == |sys.subs| && !last.phases[d].Succeeded?
            && forall event :: event in last.log ==> event.s != d
  {
    assert PhaseInv(sys, run[0], p);
    DependentsNeverRun(sys, run, d, i);
  }

  // ---- Before the signal list has been failed ----

  predicate WaitsFor(sys: System, s: nat, e: Entry)
    requires s < |sys.subs|
  {
    exists i :: 0 <= i < |sys.subs[s].waits| && sys.subs[s].waits[i] == e
  }

  // No submission that could bring the timeline to the entry has, and each of them
  // has failed or waits for the entry itself.
  ghost predicate Abandoned(sys: System, st: State, e: Entry)
    requires ValidState(sys, st)
  {
    && (e.sem < |sys.initial| ==> sys.initial[e.sem] < e.value)
    && forall event: Event :: Reaches(sys, event, e) ==>
         event !in st.log && (Stopped(st.phases[event.s]) || WaitsFor(sys, event.s, e))
  }

  lemma AbandonedStays(sys: System, a: State, b: State, e: Entry)
    requires Inv(sys, a) && Step(sys, a, b) && Abandoned(sys, a, e)
    ensures ValidState(sys, b) && Abandoned(sys, b, e)
  {
    hide OrderedLog, Holds;
    var s :| 0 <= s < |sys.subs| && StepOf(sys, a, b, s);
    NotReached(sys, a, e);
    assert PhaseInv(sys, a, s);
    forall event: Event | Reaches(sys, event, e)
      ensures event !in b.log && (Stopped(b.phases[event.s]) || WaitsFor(sys, event.s, e))
    {
      assert event !in a.log && (Stopped(a.phases[event.s]) || WaitsFor(sys, event.s, e));
    }
  }

  // An entry whose producers have failed, or wait for it, is not reached in any
  // interleaving, even before a semaphore is marked: whoever waits for it does no
  // work and signals nothing.
  lemma {:induction false} AbandonedIsNeverReached(sys: System, run: seq<State>, e: Entry, d: nat)
    requires IsRun(sys, run) && Inv(sys, run[0]) && Abandoned(sys, run[0], e)
    requires d < |sys.subs| && WaitsFor(sys, d, e)
    ensures var last := run[|run| - 1];
            && ValidState(sys, last) && Abandoned(sys, last, e)
            && (last.phases[d].Waiting? || Stopped(last.phases[d]))
            && forall event :: event in last.log ==> event.s != d
    decreases |run|
  {
    hide PhaseInv, OrderedLog, Holds;
    RunInv(sys, run);
    var last := run[|run| - 1];
    if |run| > 1 {
      var shorter := run[..|run| - 1];
      assert forall k :: 0 <= k < |shorter| ==> shorter[k] == run[k];
      AbandonedIsNeverReached(sys, shorter, e, d);
      AbandonedStays(sys, run[|run| - 2], last, e);
    }
    NotReached(sys, last, e);
    UnreachedStopsDependents(sys, last, e, d);
  }

  lemma UnreachedStopsDependents(sys: System, st: State, e: Entry, d: nat)
    requires Inv(sys, st) && !Reached(sys, st.log, e) && d < |sys.subs| && WaitsFor(sys, d, e)
    ensures st.phases[d].Waiting? || Stopped(st.phases[d])
    ensures forall event :: event in st.log ==> event.s != d
  {
    assert PhaseInv(sys, st, d);
    forall event | event in st.log
      ensures event.s != d
    {
      var n :| 0 <= n < |st.log| && st.log[n] == event;
      assert Justified(sys, st.log[..n], st.log[n]);
      if event.s == d {
        assert Reached(sys, st.log[..n], e);
        PrefixReached(sys, st.log, n, e);
      }
    }
  }

  lemma NotReached(sys: System, st: State, e: Entry)
    requires ValidState(sys, st) && Abandoned(sys, st, e)
    ensures !Reached(sys, st.log, e)
  {
  }

  lemma PrefixReached(sys: System, log: seq<Event>, n: nat, e: Entry)
    requires ValidSystem(sys) && n <= |log| && Reached(sys, log[..n], e)
    ensures Reached(sys, log, e)
  {
    if m :| 0 <= m < n && Reaches(sys, log[..n][m], e) {
      assert Reaches(sys, log[m], e);
    }
  }

  // ---- The queue functions ----

  // The next step of submission s, by whether what it tries goes well.
  function Next(sys: System, st: State, s: nat, ok: bool): (r: State)
    requires ValidState(sys, st) && s < |sys.subs| && !st.phases[s].Succeeded? && !st.phases[s].Failed?
    requires Bounded(sys, st, s)
  {
    var sub := sys.subs[s];
    match st.phases[s]
    case Waiting(n) =>
      if n == |sub.waits| then Move(st, s, Working(0))
      else if ok && !st.sems[sub.waits[n].sem].failed && st.sems[sub.waits[n].sem].value >= sub.waits[n].value
      then Move(st, s, Waiting(n + 1))
      else Move(st, s, Failing(0))
    case Working(n) =>
      if !CanStart(sub.call) || ((n < Work(sub.call) || (sub.call.Execute? && n == 0)) && !ok) then Move(st, s, Failing(0))
      else if n < Work(sub.call) then Note(Move(st, s, Working(n + 1)), Ran(s, n))
      else Move(st, s, Signaling(0))
    case Signaling(n) =>
      if n == |sub.signals| then Move(st, s, Succeeded)
      else if ok && !st.sems[sub.signals[n].sem].failed && st.sems[sub.signals[n].sem].value < sub.signals[n].value
      then Raise(Note(Move(st, s, Signaling(n + 1)), Signaled(s, n)), sub.signals[n])
      else Move(st, s, Failing(0))
    case Failing(n) =>
      if n == |sub.signals| then Move(st, s, Failed)
      else Break(Move(st, s, Failing(n + 1)), sub.signals[n])
    case _ => st
  }

  predicate Bounded(sys: System, st: State, s: nat)
    requires ValidState(sys, st) && s < |sys.subs|
  {
    match st.phases[s]
    case Waiting(n) => n <= |sys.subs[s].waits|
    case Working(n) => n <= Work(sys.subs[s].call)
    case Signaling(n) => n <= |sys.subs[s].signals|
    case Failing(n) => n <= |sys.subs[s].signals|
    case _ => true
  }

  predicate AllBounded(sys: System, st: State) {
    ValidState(sys, st) && forall s :: 0 <= s < |sys.subs| ==> Bounded(sys, st, s)
  }

  lemma NextIsStep(sys: System, st: State, s: nat, ok: bool)
    requires AllBounded(sys, st) && s < |sys.subs| && !st.phases[s].Succeeded? && !st.phases[s].Failed?
    ensures StepOf(sys, st, Next(sys, st, s, ok), s) && AllBounded(sys, Next(sys, st, s, ok))
    ensures forall t :: 0 <= t < |sys.subs| && t != s ==> Next(sys, st, s, ok).phases[t] == st.phases[t]
    ensures Grows(st, Next(sys, st, s, ok))
  {
    var r := Next(sys, st, s, ok);
    StepExtends(sys, st, r, s);
    forall t | 0 <= t < |sys.subs|
      ensures Bounded(sys, r, t)
    {
      assert Bounded(sys, st, t);
    }
  }

  // Nothing is forgotten and no timeline goes back.
  predicate Grows(a: State, b: State) {
    && a.log <= b.log && |a.sems| == |b.sems|
    && forall i :: 0 <= i < |a.sems| ==> b.sems[i].value >= a.sems[i].value && (a.sems[i].failed ==> b.sems[i].failed)
  }

  // b can follow a.
  ghost predicate Follows(sys: System, a: State, b: State) {
    exists run :: IsRun(sys, run) && run[0] == a && run[|run| - 1] == b
  }

  lemma FollowsItself(sys: System, a: State)
    ensures Follows(sys, a, a)
  {
    assert IsRun(sys, [a]);
  }

  lemma FollowsStep(sys: System, a: State, b: State, c: State)
    requires Follows(sys, a, b) && Step(sys, b, c)
    ensures Follows(sys, a, c)
  {
    var run :| IsRun(sys, run) && run[0] == a && run[|run| - 1] == b;
    var more := run + [c];
    forall i | 0 < i < |more|
      ensures Step(sys, more[i - 1], more[i])
    {
      assert i < |run| ==> more[i] == run[i];
    }
    assert IsRun(sys, more) && more[0] == a && more[|more| - 1] == c;
  }

  class Device {
    const sys: System
    var st: State

    constructor (system: System)
      requires ValidSystem(system)
      ensures sys == system && st == Init(system)
    {
      sys, st := system, Init(system);
    }

    method Advance(s: nat, ok: bool)
      requires AllBounded(sys, st) && s < |sys.subs| && !st.phases[s].Succeeded? && !st.phases[s].Failed?
      modifies this
      ensures AllBounded(sys, st) && st == Next(sys, old(st), s, ok) && Grows(old(st), st)
      ensures forall a :: Follows(sys, a, old(st)) ==> Follows(sys, a, st)
    {
      NextIsStep(sys, st, s, ok);
      ghost var before := st;
      st := Next(sys, st, s, ok);
      forall a | Follows(sys, a, before)
        ensures Follows(sys, a, st)
      {
        FollowsStep(sys, a, before, st);
      }
    }

    // Steps of other threads, however many.
    method Others(s: nat)
      requires AllBounded(sys, st) && s < |sys.subs|
      modifies this
      ensures AllBounded(sys, st) && st.phases[s] == old(st).phases[s] && Grows(old(st), st)
      ensures forall a :: Follows(sys, a, old(st)) ==> Follows(sys, a, st)
    {
      hide Follows, Next, Bounded;
      var steps: int := *;
      for k := 0 to if steps > 0 then steps else 0
        invariant AllBounded(sys, st) && st.phases[s] == old(st).phases[s] && Grows(old(st), st)
        invariant forall a :: Follows(sys, a, old(st)) ==> Follows(sys, a, st)
      {
        var t: int, ok: bool := *, *;
        if 0 <= t < |sys.subs| && t != s && !st.phases[t].Succeeded? && !st.phases[t].Failed? {
          NextIsStep(sys, st, t, ok);
          Advance(t, ok);
        }
      }
    }

    // iree_hal_semaphore_list_wait, without a time limit: other threads run until the
    // wait is over.
    method ListWait(s: nat) returns (ok: bool)
      requires AllBounded(sys, st) && s < |sys.subs| && st.phases[s] == Waiting(0)
      modifies this
      ensures AllBounded(sys, st) && st.phases[s] == if ok then Waiting(|sys.subs[s].waits|) else Failing(0)
      ensures forall a :: Follows(sys, a, old(st)) ==> Follows(sys, a, st)
    {
      hide Follows;
      ok := true;
      for i := 0 to |sys.subs[s].waits|
        invariant AllBounded(sys, st) && ok && st.phases[s] == Waiting(i)
        invariant forall a :: Follows(sys, a, old(st)) ==> Follows(sys, a, st)
      {
        Others(s);
        var over: bool := *;
        Advance(s, over);
        ok := !st.phases[s].Failing?;
        if !ok {
          return;
        }
      }
    }

    // The work of the call: the commands of a deferred command buffer in order, or the
    // allocation.
    method Apply(s: nat) returns (ok: bool)
      requires AllBounded(sys, st) && s < |sys.subs| && st.phases[s] == Working(0)
      modifies this
      ensures AllBounded(sys, st) && st.phases[s] == if ok then Signaling(0) else Failing(0)
      ensures Grows(old(st), st)
      ensures ok ==> match sys.subs[s].call
                     case Execute(n, deferred) => deferred && forall j :: 0 <= j < n ==> Ran(s, j) in st.log
                     case Alloca => Ran(s, 0) in st.log
                     case _ => true
      ensures forall a :: Follows(sys, a, old(st)) ==> Follows(sys, a, st)
    {
      hide Follows;
      ok := true;
      for j := 0 to Work(sys.subs[s].call)
        invariant AllBounded(sys, st) && ok && st.phases[s] == Working(j) && Grows(old(st), st)
        invariant forall k :: 0 <= k < j ==> Ran(s, k) in st.log
        invariant forall a :: Follows(sys, a, old(st)) ==> Follows(sys, a, st)
      {
        Others(s);
        var done: bool := *;
        Advance(s, done);
        ok := !st.phases[s].Failing?;
        if !ok {
          return;
        }
      }
      var created: bool := *;
      Advance(s, created);
      ok := !st.phases[s].Failing?;
    }

    method ListSignal(s: nat) returns (ok: bool)
      requires AllBounded(sys, st) && s < |sys.subs| && st.phases[s] == Signaling(0)
      modifies this
      ensures AllBounded(sys, st) && st.phases[s] == if ok then Succeeded else Failing(0)
      ensures Grows(old(st), st)
      ensures ok ==> forall k :: 0 <= k < |sys.subs[s].signals| ==>
                       st.sems[sys.subs[s].signals[k].sem].value >= sys.subs[s].signals[k].value
      ensures forall a :: Follows(sys, a, old(st)) ==> Follows(sys, a, st)
    {
      hide Follows;
      ok := true;
      for k := 0 to |sys.subs[s].signals|
        invariant AllBounded(sys, st) && ok && st.phases[s] == Signaling(k) && Grows(old(st), st)
        invariant forall l :: 0 <= l < k ==> st.sems[sys.subs[s].signals[l].sem].value >= sys.subs[s].signals[l].value
        invariant forall a :: Follows(sys, a, old(st)) ==> Follows(sys, a, st)
      {
        Others(s);
        var done: bool := *;
        Advance(s, done);
        ok := !st.phases[s].Failing?;
        if !ok {
          return;
        }
      }
      Advance(s, true);
    }

    method ListFail(s: nat)
      requires AllBounded(sys, st) && s < |sys.subs| && st.phases[s] == Failing(0)
      modifies this
      ensures AllBounded(sys, st) && st.phases[s] == Failed
      ensures forall k :: 0 <= k < |sys.subs[s].signals| ==> st.sems[sys.subs[s].signals[k].sem].failed
      ensures forall a :: Follows(sys, a, old(st)) ==> Follows(sys, a, st)
    {
      hide Follows;
      for k := 0 to |sys.subs[s].signals|
        invariant AllBounded(sys, st) && st.phases[s] == Failing(k)
        invariant forall l :: 0 <= l < k ==> st.sems[sys.subs[s].signals[l].sem].failed
        invariant forall a :: Follows(sys, a, old(st)) ==> Follows(sys, a, st)
      {
        Others(s);
        Advance(s, true);
      }
      Advance(s, true);
    }

    // queue_execute, queue_alloca and queue_dealloca: in every interleaving with other
    // submitters, a call that returns has taken steps of the protocol only. It has either
    // succeeded, with all of its work done and every timeline of its signal list at its
    // value, or failed its signal list.
    method Submit(s: nat) returns (ok: bool)
      requires AllBounded(sys, st) && s < |sys.subs| && st.phases[s] == Waiting(0)
      modifies this
      ensures AllBounded(sys, st) && Follows(sys, old(st), st)
      ensures st.phases[s] == if ok then Succeeded else Failed
      ensures ok ==> match sys.subs[s].call
                     case Execute(n, deferred) => deferred && forall j :: 0 <= j < n ==> Ran(s, j) in st.log
                     case Alloca => Ran(s, 0) in st.log
                     case _ => true
      ensures ok ==> forall k :: 0 <= k < |sys.subs[s].signals| ==>
                       st.sems[sys.subs[s].signals[k].sem].value >= sys.subs[s].signals[k].value
      ensures !ok ==> forall k :: 0 <= k < |sys.subs[s].signals| ==> st.sems[sys.subs[s].signals[k].sem].failed
    {
      FollowsItself(sys, st);
      hide Follows;
      ok := ListWait(s);
      if ok {
        Advance(s, true);
        ok := Apply(s);
      }
      if ok {
        ok := ListSignal(s);
      }
      if !ok {
        ListFail(s);
      }
    }
  }
}
