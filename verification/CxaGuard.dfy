/** One-time construction guards (src/runtime/cxx_support.cpp): any number of threads, any
    interleaving of the atomic steps of `__cxa_guard_acquire` and `__cxa_guard_release`. The contract
    is section 3.3.2, "One-time Construction API", of the Itanium C++ ABI. */
module CxaGuard {
  type Thread = nat

  /** What a thread does next. */
  datatype Pc =
    | Outside     // not in a call; may enter at any time
    | FirstLoad   // load `done`
    | Exchange    // exchange `pending` with 1
    | SpinLoad    // the exchange gave 1: load `done`
    | LastLoad    // the exchange gave 0: load `done`
    | GiveBack    // store 0 to `pending`, then return 0
    | Building    // acquire returned 1: the initialiser runs
    | StoreDone   // release: store 1 to `done`
    | StoreFree   // release: store 0 to `pending`

  /** `winners` counts the calls that returned 1, `losers` those that returned 0; `built` says that
      an initialiser has finished. */
  datatype State = State(done: bool, pending: bool, pc: map<Thread, Pc>, winners: nat, losers: nat, built: bool)

  const START := State(false, false, map[], 0, 0, false)

  function At(s: State, t: Thread): Pc {
    if t in s.pc then s.pc[t] else Outside
  }

  function Goto(s: State, t: Thread, pc: Pc): State {
    s.(pc := s.pc[t := pc])
  }

  /** The next atomic step of thread `t`. */
  function Step(s: State, t: Thread): State {
    match At(s, t)
    case Outside => Goto(s, t, FirstLoad)
    case FirstLoad => if s.done then Goto(s, t, Outside).(losers := s.losers + 1) else Goto(s, t, Exchange)
    case Exchange => Goto(s, t, if s.pending then SpinLoad else LastLoad).(pending := true)
    case SpinLoad => if s.done then Goto(s, t, Outside).(losers := s.losers + 1) else Goto(s, t, Exchange)
    case LastLoad => if s.done then Goto(s, t, GiveBack) else Goto(s, t, Building).(winners := s.winners + 1)
    case GiveBack => Goto(s, t, Outside).(pending := false, losers := s.losers + 1)
    case Building => Goto(s, t, StoreDone).(built := true)
    case StoreDone => Goto(s, t, StoreFree).(done := true)
    case StoreFree => Goto(s, t, Outside).(pending := false)
  }

  function Run(s: State, schedule: seq<Thread>): State
    decreases |schedule|
  {
    if schedule == [] then s else Run(Step(s, schedule[0]), schedule[1..])
  }

  /** The thread between its successful exchange and the store that clears `pending`. */
  predicate Holds(s: State, t: Thread) {
    var pc := At(s, t);
    pc.LastLoad? || pc.GiveBack? || pc.Building? || pc.StoreDone? || pc.StoreFree?
  }

  predicate Constructs(s: State, t: Thread) {
    At(s, t).Building? || At(s, t).StoreDone?
  }

  ghost predicate Inv(s: State) {
    && (forall t, u :: Holds(s, t) && Holds(s, u) ==> t == u)
    && (s.pending <==> exists t :: Holds(s, t))
    && s.winners <= 1
    && (s.winners == 0 ==> !s.done && forall t :: Holds(s, t) ==> At(s, t).LastLoad?)
    && (s.winners == 1 ==> s.done || exists t :: Constructs(s, t))
    && (s.done ==> s.built && forall t :: !Constructs(s, t))
    && (forall t :: At(s, t).GiveBack? || At(s, t).StoreFree? ==> s.done)
    && (forall t :: At(s, t) == StoreDone ==> s.built)
    && (s.built ==> s.winners == 1)
    && (s.losers > 0 ==> s.done)
  }

  lemma OthersStay(s: State, t: Thread, u: Thread)
    requires u != t
    ensures At(Step(s, t), u) == At(s, u)
  {
    var s' := Step(s, t);
    assert forall pc :: At(Goto(s, t, pc), u) == At(s, u);
    assert exists pc :: s'.pc == Goto(s, t, pc).pc;
  }

  lemma StepKeeps(s: State, t: Thread)
    requires Inv(s)
    ensures Inv(Step(s, t))
  {
    var s' := Step(s, t);
    forall u | u != t
      ensures At(s', u) == At(s, u) && (Holds(s', u) <==> Holds(s, u)) && (Constructs(s', u) <==> Constructs(s, u))
    {
      OthersStay(s, t, u);
    }
    forall u | u != t ensures !(Holds(s', u) && Holds(s', t)) {
      assert Holds(s, u) ==> s.pending;
      assert s.pending && Holds(s', t) ==> Holds(s, t);
    }
    PendingKept(s, t);
    if s.winners == 1 && !s.done && !Constructs(s, t) {
      var c :| Constructs(s, c);
      assert Holds(s, c) && Constructs(s', c);
    }
    if At(s, t).LastLoad? || At(s, t).Building? {
      assert Holds(s, t);
      assert s'.winners == 1 ==> s'.done || Constructs(s', t);
    }
    if Constructs(s, t) {
      assert Holds(s, t);
      forall u | u != t ensures !Constructs(s', u) {
        assert Constructs(s, u) ==> Holds(s, u);
      }
    }
  }

  lemma PendingKept(s: State, t: Thread)
    requires Inv(s)
    ensures Step(s, t).pending <==> exists u :: Holds(Step(s, t), u)
  {
    var s' := Step(s, t);
    if Holds(s', t) {
      assert s'.pending by { if Holds(s, t) { assert s.pending; } }
    } else if Holds(s, t) {
      forall u ensures !Holds(s', u) {
        assert Holds(s, u) ==> u == t;
        if u != t { OthersStay(s, t, u); }
      }
    } else {
      assert s'.pending == s.pending || At(s, t).Exchange?;
      if s.pending {
        var h :| Holds(s, h);
        OthersStay(s, t, h);
        assert Holds(s', h);
      } else {
        forall u ensures !Holds(s', u) {
          if u != t { OthersStay(s, t, u); assert !Holds(s, u); }
        }
      }
    }
  }

  lemma {:induction false} RunKeeps(s: State, schedule: seq<Thread>)
    requires Inv(s)
    ensures Inv(Run(s, schedule))
    decreases |schedule|
  {
    if schedule != [] {
      StepKeeps(s, schedule[0]);
      RunKeeps(Step(s, schedule[0]), schedule[1..]);
    }
  }

  /** For every number of threads and every schedule: at most one call returns 1; a call returns 0
      only after that one's initialiser has finished; at most one thread is between a successful
      exchange and the store that frees `pending`. */
  lemma GuardsAreOneTime(schedule: seq<Thread>)
    ensures var s := Run(START, schedule);
      && s.winners <= 1
      && (s.losers > 0 ==> s.winners == 1 && s.built)
      && (forall t, u :: Holds(s, t) && Holds(s, u) ==> t == u)
      && (forall t :: At(s, t) == Building ==> s.winners == 1 && !s.done)
  {
    assert Inv(START);
    RunKeeps(START, schedule);
    var s := Run(START, schedule);
    forall t | At(s, t) == Building ensures s.winners == 1 && !s.done {
      assert Constructs(s, t);
    }
  }

  /** Spinning is not in vain: whenever no thread is inside the construction and none is done, the
      next thread to exchange either wins at once or `done` is already set. */
  lemma SomeoneProceeds(schedule: seq<Thread>, t: Thread)
    requires var s := Run(START, schedule); At(s, t) == Exchange && (forall u :: !Holds(s, u))
    ensures var s := Run(START, schedule);
      if s.done then At(Step(Step(s, t), t), t) == GiveBack
      else At(Step(Step(s, t), t), t) == Building && s.winners == 0
  {
    assert Inv(START);
    RunKeeps(START, schedule);
    var s := Run(START, schedule);
    if c :| Constructs(s, c) {
      assert Holds(s, c);
    }
  }

  // ---- Every call is accounted for ------------------------------------------------------------

  /** The threads inside `__cxa_guard_acquire`. */
  function Acquiring(s: State): set<Thread> {
    set t | t in s.pc && (s.pc[t].FirstLoad? || s.pc[t].Exchange? || s.pc[t].SpinLoad? || s.pc[t].LastLoad? || s.pc[t].GiveBack?)
  }

  /** The calls to acquire that a schedule starts. */
  function Calls(s: State, schedule: seq<Thread>): nat
    decreases |schedule|
  {
    if schedule == [] then 0
    else (if At(s, schedule[0]) == Outside then 1 else 0) + Calls(Step(s, schedule[0]), schedule[1..])
  }

  predicate InAcquire(pc: Pc) {
    pc.FirstLoad? || pc.Exchange? || pc.SpinLoad? || pc.LastLoad? || pc.GiveBack?
  }

  lemma AcquiringOthers(s: State, t: Thread)
    ensures Acquiring(Step(s, t)) - {t} == Acquiring(s) - {t}
    ensures forall u :: u in Acquiring(s) <==> InAcquire(At(s, u))
  {
    forall u | u != t ensures u in Acquiring(Step(s, t)) <==> u in Acquiring(s) {
      OthersStay(s, t, u);
    }
  }

  lemma OwnCount(s: State, t: Thread)
    ensures var s' := Step(s, t);
      Returned(s') + (if InAcquire(At(s', t)) then 1 else 0)
      == Returned(s) + (if InAcquire(At(s, t)) then 1 else 0) + if At(s, t) == Outside then 1 else 0
  {
  }

  lemma SizeWith(a: set<Thread>, t: Thread)
    ensures |a| == |a - {t}| + if t in a then 1 else 0
  {
    if t in a { assert a == (a - {t}) + {t}; } else { assert a == a - {t}; }
  }

  lemma AcquiringStep(s: State, t: Thread)
    ensures var s' := Step(s, t);
      |Acquiring(s')| + Returned(s') == |Acquiring(s)| + Returned(s) + if At(s, t) == Outside then 1 else 0
  {
    AcquiringOthers(s, t);
    AcquiringOthers(Step(s, t), t);
    OwnCount(s, t);
    SizeWith(Acquiring(s), t);
    SizeWith(Acquiring(Step(s, t)), t);
  }

  /** The calls to acquire that have returned, with 1 or with 0. */
  function Returned(s: State): nat {
    s.winners + s.losers
  }

  /** Every call that was started is still inside, has returned 1 or has returned 0. */
  lemma {:induction false} EveryCallCounts(s: State, schedule: seq<Thread>)
    ensures var s' := Run(s, schedule);
      |Acquiring(s')| + Returned(s') == |Acquiring(s)| + Returned(s) + Calls(s, schedule)
    decreases |schedule|
  {
    if schedule != [] {
      AcquiringStep(s, schedule[0]);
      EveryCallCounts(Step(s, schedule[0]), schedule[1..]);
    }
  }

  /** Once the guard is done it stays done, and a call that looks at it then returns 0 in that same
      step and does not touch `pending`. */
  lemma {:induction false} DoneReturnsAtOnce(s: State, schedule: seq<Thread>, t: Thread)
    requires s.done
    ensures var s' := Run(s, schedule);
      && s'.done
      && (At(s', t).FirstLoad? || At(s', t).SpinLoad? ==>
            && At(Step(s', t), t) == Outside && Step(s', t).pending == s'.pending
            && Step(s', t).losers == s'.losers + 1 && Step(s', t).winners == s'.winners)
    decreases |schedule|
  {
    if schedule != [] {
      DoneReturnsAtOnce(Step(s, schedule[0]), schedule[1..], t);
    }
  }

  // ---- No thread is ever locked in ------------------------------------------------------------

  function Inside(s: State): set<Thread> {
    set t | t in s.pc && s.pc[t] != Outside
  }

  /** How many steps a thread is from returning when nobody else holds `pending`. */
  function Distance(pc: Pc): nat {
    match pc
    case Outside => 0
    case FirstLoad => 6
    case SpinLoad => 6
    case Exchange => 5
    case LastLoad => 4
    case Building => 3
    case StoreDone => 2
    case GiveBack => 1
    case StoreFree => 1
  }

  ghost predicate NoOtherHolder(s: State, t: Thread) {
    forall u :: u != t ==> !Holds(s, u)
  }

  lemma SoloStep(s: State, t: Thread)
    requires Inv(s) && NoOtherHolder(s, t) && At(s, t) != Outside
    ensures var s' := Step(s, t);
      && Inv(s') && NoOtherHolder(s', t) && Inside(s') - {t} == Inside(s) - {t}
      && Distance(At(s', t)) < Distance(At(s, t)) && (At(s', t) == Outside ==> s'.done)
  {
    var s' := Step(s, t);
    StepKeeps(s, t);
    forall u | u != t ensures !Holds(s', u) && (u in Inside(s') <==> u in Inside(s)) {
      OthersStay(s, t, u);
      assert !Holds(s, u);
    }
    assert At(s, t) == Exchange ==> !s.pending;
  }

  /** A thread that runs alone returns from its call, and the guard is then done. */
  lemma {:induction false} SoloReturns(s: State, t: Thread) returns (schedule: seq<Thread>)
    requires Inv(s) && NoOtherHolder(s, t) && t in Inside(s)
    ensures var s' := Run(s, schedule); Inv(s') && Inside(s') == Inside(s) - {t} && s'.done
    decreases Distance(At(s, t))
  {
    var m := Step(s, t);
    SoloStep(s, t);
    if At(m, t) == Outside {
      schedule := [t];
      assert Run(m, []) == m && t !in Inside(m);
    } else {
      var rest := SoloReturns(m, t);
      schedule := [t] + rest;
      assert schedule[1..] == rest;
    }
  }

  lemma {:induction false} RunAppend(s: State, a: seq<Thread>, b: seq<Thread>)
    ensures Run(s, a + b) == Run(Run(s, a), b)
    decreases |a|
  {
    if a == [] {
      assert a + b == b;
    } else {
      assert (a + b)[1..] == a[1..] + b;
      RunAppend(Step(s, a[0]), a[1..], b);
    }
  }

  lemma {:induction false} AllReturn(s: State) returns (schedule: seq<Thread>)
    requires Inv(s)
    ensures Inside(Run(s, schedule)) == {} && (s.done || Inside(s) != {} ==> Run(s, schedule).done)
    decreases Inside(s)
  {
    schedule := [];
    if Inside(s) != {} {
      var t :| t in Inside(s) && NoOtherHolder(s, t) by { NextToReturn(s); }
      var first := SoloReturns(s, t);
      var rest := AllReturn(Run(s, first));
      schedule := first + rest;
      RunAppend(s, first, rest);
    }
  }

  lemma NextToReturn(s: State)
    requires Inv(s) && Inside(s) != {}
    ensures exists t :: t in Inside(s) && NoOtherHolder(s, t)
  {
    if h :| Holds(s, h) {
      assert h in Inside(s) && NoOtherHolder(s, h);
    } else {
      var t :| t in Inside(s);
      assert NoOtherHolder(s, t);
    }
  }

  /** A thread that has entered is inside, or the guard is done. */
  lemma {:induction false} EnteredOrDone(s: State, schedule: seq<Thread>)
    requires Inv(s) && (schedule == [] ==> s.done || Inside(s) != {})
    ensures var s' := Run(s, schedule); s'.done || Inside(s') != {}
    decreases |schedule|
  {
    if schedule != [] {
      var t, m := schedule[0], Step(s, schedule[0]);
      StepKeeps(s, t);
      assert m.done || t in Inside(m);
      EnteredOrDone(m, schedule[1..]);
    }
  }

  ghost predicate EveryoneOut(s: State) {
    forall t :: At(s, t) == Outside
  }

  /** From every state that any schedule reaches, some continuation lets every thread that is inside
      a call return; the guard is then done, and exactly one initialiser has run. */
  lemma EveryoneCanReturn(schedule: seq<Thread>)
    requires schedule != []
    ensures exists more :: var s := Run(START, schedule + more);
      EveryoneOut(s) && s.done && s.built && s.winners == 1
  {
    assert Inv(START);
    RunKeeps(START, schedule);
    EnteredOrDone(START, schedule);
    var more := AllReturn(Run(START, schedule));
    RunAppend(START, schedule, more);
    RunKeeps(START, schedule + more);
    var s := Run(START, schedule + more);
    assert forall t :: At(s, t) != Outside ==> t in Inside(s);
    assert EveryoneOut(s);
  }
}
