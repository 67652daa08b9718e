/** The submission protocol of src/winsys/submit.c: the CPU side of `oops_winsys_cs` and
    `oops_winsys_wait_cs`, step by step, interleaved in any way with a GPU that retires one in-order
    queue. Clocks and polls are choices; refusals are parameters of the steps. */
module FenceProtocol {
  import opened Wrappers

  /** What sits on the GPU's queue, labelled with the call that queued it. */
  datatype Item = Work(call: nat) | FenceWrite(call: nat)

  datatype FenceWord = Blank | Armed | Fired

  /** `QueueOnly`: the queue exists, but allocating the fence or its stream failed. */
  datatype Setup = NoQueue | QueueOnly | Ready

  datatype Slot = Slot(buffer: nat, offset: nat)

  /** Where the CPU is inside a call. */
  datatype Phase =
    | Idle
    | Walking(submitted: nat, slot: Option<Slot>)
    | Arming(slot: Option<Slot>)
    | Waiting(slot: Option<Slot>)
    | Crashed

  /** `handed[k - 1]` is the call that was given sequence `k`; `hangs` are the contexts of the calls
      that timed out; `published` is what user-fence slots hold. */
  datatype State = State(
    setup: Setup, phase: Phase, ctx: nat, calls: nat, sequence: nat, fence: FenceWord,
    queue: seq<Item>, handed: seq<nat>, hangs: seq<nat>, published: map<Slot, nat>)

  const START := State(NoQueue, Idle, 0, 0, 0, Blank, [], [], [], map[])

  datatype Step =
    | Begin(ctx: nat, queueOk: bool, fenceOk: bool, chunksOk: bool)
    | SubmitIb(segments: nat, accepted: bool) // `segments` were queued before success or refusal
    | NoteSlot(slot: Slot)
    | EndWalk
    | SubmitFence(accepted: bool)
    | Poll(slotOk: bool)
    | TimeOut
    | Retire // the GPU

  predicate Enabled(s: State, st: Step) {
    match st
    case Begin(_, _, _, _) => s.phase.Idle?
    case SubmitIb(_, _) => s.phase.Walking?
    case NoteSlot(_) => s.phase.Walking?
    case EndWalk => s.phase.Walking?
    case SubmitFence(_) => s.phase.Arming?
    case Poll(_) => s.phase.Waiting?
    case TimeOut => s.phase.Waiting? && s.fence != Fired
    case Retire => s.queue != []
  }

  function Works(n: nat, call: nat): seq<Item> {
    seq(n, _ => Work(call))
  }

  function Do(s: State, st: Step): State
    requires Enabled(s, st)
  {
    match st
    case Begin(ctx, queueOk, fenceOk, chunksOk) =>
      var setup := if s.setup != NoQueue then s.setup else if !queueOk then NoQueue
                   else if fenceOk then Ready else QueueOnly;
      if setup == NoQueue || (s.setup == NoQueue && setup == QueueOnly) then s.(setup := setup) // -ENODEV
      else if !chunksOk then s.(setup := setup) // -EINVAL
      else s.(setup := setup, phase := Walking(0, None), ctx := ctx, calls := s.calls + 1)
    case SubmitIb(n, accepted) =>
      var q := s.queue + Works(n, s.calls);
      if accepted then s.(queue := q, phase := s.phase.(submitted := s.phase.submitted + 1))
      else s.(queue := q, phase := Idle) // -EIO
    case NoteSlot(slot) => s.(phase := s.phase.(slot := Some(slot)))
    case EndWalk =>
      if s.phase.submitted == 0 then s.(phase := Idle) // -EINVAL
      else if s.setup != Ready then s.(phase := Crashed) // writes through a null fence pointer
      else s.(fence := Armed, phase := Arming(s.phase.slot))
    case SubmitFence(accepted) =>
      if accepted then s.(queue := s.queue + [FenceWrite(s.calls)], phase := Waiting(s.phase.slot))
      else s.(phase := Idle) // -EIO
    case Poll(slotOk) =>
      if s.fence != Fired then s else
      var k := s.sequence + 1;
      var published := if s.phase.slot.Some? && slotOk then s.published[s.phase.slot.value := k] else s.published;
      s.(sequence := k, handed := s.handed + [s.calls], published := published, phase := Idle)
    case TimeOut => s.(hangs := s.hangs + [s.ctx], phase := Idle) // -ETIMEDOUT
    case Retire =>
      s.(queue := s.queue[1..], fence := if s.queue[0].FenceWrite? then Fired else s.fence)
  }

  ghost predicate Possible(s: State, run: seq<Step>)
    decreases |run|
  {
    run != [] ==> Enabled(s, run[0]) && Possible(Do(s, run[0]), run[1..])
  }

  function After(s: State, run: seq<Step>): State
    requires Possible(s, run)
    decreases |run|
  {
    if run == [] then s else After(Do(s, run[0]), run[1..])
  }

  // ---- What every step keeps ------------------------------------------------------------------

  /** Sequence numbers are handed out one by one, to later and later calls. */
  ghost predicate Numbered(s: State) {
    && s.sequence == |s.handed|
    && (forall k :: 0 <= k < |s.handed| ==> s.handed[k] <= s.calls)
    && (forall j, k :: 0 <= j < k < |s.handed| ==> s.handed[j] < s.handed[k])
    && (s.phase.Walking? || s.phase.Arming? || s.phase.Waiting? ==>
          forall k :: 0 <= k < |s.handed| ==> s.handed[k] < s.calls)
    && (forall slot :: slot in s.published ==> 1 <= s.published[slot] <= s.sequence)
    && (forall i :: 0 <= i < |s.queue| ==> s.queue[i].call <= s.calls)
    && (s.setup != Ready ==> !s.phase.Arming? && !s.phase.Waiting?)
  }

  lemma NumberedKept(s: State, st: Step)
    requires Numbered(s) && Enabled(s, st)
    ensures Numbered(Do(s, st))
  {
  }

  /** What a number may not run ahead of: everything that was queued, or the streams only. */
  datatype Watch = Everything | WorkOnly

  predicate Matters(item: Item, watch: Watch) {
    watch == Everything || item.Work?
  }

  predicate NothingMatters(q: seq<Item>, watch: Watch) {
    forall i :: 0 <= i < |q| ==> !Matters(q[i], watch)
  }

  /** Some fence write will fire the word while something that matters is pending behind it. */
  predicate Overtaken(q: seq<Item>, watch: Watch) {
    exists p, w :: 0 <= p < w < |q| && q[p].FenceWrite? && Matters(q[w], watch)
  }

  /** The step writes the armed value into the fence word. */
  predicate Arms(s: State, st: Step) {
    st.EndWalk? && s.phase.Walking? && s.phase.submitted > 0 && s.setup == Ready
  }

  /** With this call's own fence write at its end, the queue holds no fence write that fires early. */
  predicate CleanArming(s: State, watch: Watch) {
    !Overtaken(s.queue + [FenceWrite(s.calls)], watch)
  }

  /** The condition in terms of what is pending: no fence write at all; or none ahead of a stream. */
  lemma CleanArmingMeans(s: State)
    ensures CleanArming(s, Everything) <==> forall p :: 0 <= p < |s.queue| ==> s.queue[p].Work?
    ensures CleanArming(s, WorkOnly) <==>
      forall p, w :: 0 <= p < w < |s.queue| && s.queue[p].FenceWrite? ==> s.queue[w].FenceWrite?
    ensures CleanArming(s, Everything) ==> CleanArming(s, WorkOnly)
  {
    var q := s.queue + [FenceWrite(s.calls)];
    var n := |s.queue|;
    forall p | 0 <= p < n && s.queue[p].FenceWrite? ensures Overtaken(q, Everything) {
      assert q[p].FenceWrite? && Matters(q[n], Everything);
    }
    forall p, w | 0 <= p < w < n && s.queue[p].FenceWrite? && s.queue[w].Work? ensures Overtaken(q, WorkOnly) {
      assert q[p].FenceWrite? && Matters(q[w], WorkOnly);
    }
  }

  ghost predicate CleanArmings(s: State, run: seq<Step>, watch: Watch)
    requires Possible(s, run)
    decreases |run|
  {
    run != [] ==>
      (Arms(s, run[0]) ==> CleanArming(s, watch)) && CleanArmings(Do(s, run[0]), run[1..], watch)
  }

  /** What the word being waited for will have seen: the queue, up to this call's own fence write. */
  function Ahead(s: State): seq<Item> {
    if s.phase.Arming? then s.queue + [FenceWrite(s.calls)] else s.queue
  }

  /** While a call waits, the word fires only once nothing that matters is left; and nothing that
      matters is pending of a call that was given a number, or of any call before it. */
  ghost predicate InStep(s: State, watch: Watch) {
    && (s.phase.Arming? || s.phase.Waiting? ==>
          !Overtaken(Ahead(s), watch) && (s.fence == Fired ==> NothingMatters(Ahead(s), watch)))
    && (forall i, k :: 0 <= i < |s.queue| && 0 <= k < |s.handed| && Matters(s.queue[i], watch) ==>
          s.handed[k] < s.queue[i].call)
  }

  lemma TailNotOvertaken(q: seq<Item>, watch: Watch)
    requires q != [] && !Overtaken(q, watch)
    ensures !Overtaken(q[1..], watch)
    ensures q[0].FenceWrite? ==> NothingMatters(q[1..], watch)
  {
    var r := q[1..];
    forall p, w | 0 <= p < w < |r| && r[p].FenceWrite? ensures !Matters(r[w], watch) {
      assert q[p + 1] == r[p] && q[w + 1] == r[w];
    }
    forall w | 0 <= w < |r| && q[0].FenceWrite? ensures !Matters(r[w], watch) {
      assert q[w + 1] == r[w];
    }
  }

  lemma RetireInStep(s: State, watch: Watch)
    requires Numbered(s) && InStep(s, watch) && s.queue != []
    ensures InStep(Do(s, Retire), watch)
  {
    var s' := Do(s, Retire);
    if s.phase.Arming? || s.phase.Waiting? {
      TailNotOvertaken(Ahead(s), watch);
      assert Ahead(s') == Ahead(s)[1..];
    }
  }

  lemma InStepKept(s: State, st: Step, watch: Watch)
    requires Numbered(s) && InStep(s, watch) && Enabled(s, st)
    requires Arms(s, st) ==> CleanArming(s, watch)
    ensures InStep(Do(s, st), watch)
  {
    match st
    case Retire => RetireInStep(s, watch);
    case EndWalk => assert Arms(s, st) ==> Ahead(Do(s, st)) == s.queue + [FenceWrite(s.calls)];
    case SubmitFence(accepted) => assert accepted ==> Ahead(Do(s, st)) == Ahead(s);
    case _ =>
  }

  lemma {:induction false} RunKeeps(s: State, run: seq<Step>, watch: Watch)
    requires Numbered(s) && InStep(s, watch) && Possible(s, run) && CleanArmings(s, run, watch)
    ensures Numbered(After(s, run)) && InStep(After(s, run), watch)
    decreases |run|
  {
    if run != [] {
      NumberedKept(s, run[0]);
      InStepKept(s, run[0], watch);
      RunKeeps(Do(s, run[0]), run[1..], watch);
    }
  }

  // ---- Guarantees over whole runs -------------------------------------------------------------

  /** DRM_AMDGPU_WAIT_CS: signalled, or refused as never handed out. */
  function WaitCs(s: State, handle: nat): Option<bool> {
    if handle > s.sequence then None else Some(true)
  }

  /** Nothing that matters, queued by call `call` or by any call before it, is still pending. */
  ghost predicate RetiredUpTo(s: State, call: nat, watch: Watch) {
    forall i :: 0 <= i < |s.queue| && Matters(s.queue[i], watch) ==> call < s.queue[i].call
  }

  /** Sequence `k` was handed out, and what was queued up to the call it names has retired. */
  ghost predicate Truthful(s: State, k: nat, watch: Watch) {
    1 <= k <= |s.handed| && RetiredUpTo(s, s.handed[k - 1], watch)
  }

  ghost predicate SomeLie(s: State, watch: Watch) {
    exists k: nat :: 1 <= k <= s.sequence && !Truthful(s, k, watch)
  }

  /** Fence safety: if every arming is clean, whatever timed out before, every number that was
      returned, published in a user-fence slot or is answered as signalled belongs to work that has
      retired, together with everything queued before it. */
  lemma FenceSafety(run: seq<Step>, watch: Watch)
    requires Possible(START, run) && CleanArmings(START, run, watch)
    ensures var s := After(START, run);
      && s.sequence == |s.handed|
      && (forall k :: 1 <= k <= s.sequence ==> Truthful(s, k, watch))
      && (forall h: nat :: h > 0 && WaitCs(s, h) == Some(true) ==> Truthful(s, h, watch))
      && (forall slot :: slot in s.published ==> Truthful(s, s.published[slot], watch))
  {
    RunKeeps(START, run, watch);
  }

  /** The moment a number is handed out, the queue is empty. */
  lemma NothingPendingAtHandOut(run: seq<Step>, slotOk: bool)
    requires Possible(START, run) && CleanArmings(START, run, Everything)
    requires var s := After(START, run); Enabled(s, Poll(slotOk)) && Do(s, Poll(slotOk)).sequence != s.sequence
    ensures After(START, run).queue == []
  {
    RunKeeps(START, run, Everything);
    var q := After(START, run).queue;
    assert q != [] ==> Matters(q[0], Everything);
  }

  /** Successful calls get 1, 2, 3, ...; every other step leaves the numbers alone. */
  lemma {:induction false} NumbersAreConsecutive(s: State, run: seq<Step>)
    requires Numbered(s) && Possible(s, run)
    ensures After(s, run).sequence == s.sequence + Successes(s, run)
    ensures After(s, run).sequence == |After(s, run).handed|
    decreases |run|
  {
    if run != [] {
      NumberedKept(s, run[0]);
      NumbersAreConsecutive(Do(s, run[0]), run[1..]);
    }
  }

  /** How many calls return success in a run. */
  function Successes(s: State, run: seq<Step>): nat
    requires Possible(s, run)
    decreases |run|
  {
    if run == [] then 0 else
    (if run[0].Poll? && s.fence == Fired then 1 else 0) + Successes(Do(s, run[0]), run[1..])
  }

  // ---- An unclean arming can always be made to lie --------------------------------------------

  function Retires(n: nat): seq<Step> {
    seq(n, _ => Retire)
  }

  predicate HasFence(q: seq<Item>) {
    exists i :: 0 <= i < |q| && q[i].FenceWrite?
  }

  lemma {:induction false} RetireMany(s: State, n: nat)
    requires n <= |s.queue|
    ensures Possible(s, Retires(n))
    ensures After(s, Retires(n)) ==
      s.(queue := s.queue[n..], fence := if HasFence(s.queue[..n]) then Fired else s.fence)
    decreases n
  {
    if n > 0 {
      var m := Do(s, Retire);
      assert Retires(n)[1..] == Retires(n - 1);
      RetireMany(m, n - 1);
      assert m.queue[n - 1..] == s.queue[n..];
      assert HasFence(s.queue[..n]) <==> s.queue[0].FenceWrite? || HasFence(m.queue[..n - 1]) by {
        assert s.queue[..n] == [s.queue[0]] + m.queue[..n - 1];
        if s.queue[0].FenceWrite? { assert s.queue[..n][0].FenceWrite?; }
        if HasFence(m.queue[..n - 1]) {
          var i :| 0 <= i < n - 1 && m.queue[..n - 1][i].FenceWrite?;
          assert s.queue[..n][i + 1].FenceWrite?;
        }
      }
    }
  }

  /** The rest of a call whose fence is armed: submit it, let the GPU retire `n` items, poll. */
  function Finish(n: nat): (steps: seq<Step>)
    ensures EndWalk !in steps
  {
    [SubmitFence(true)] + (Retires(n) + [Poll(true)])
  }

  lemma {:induction false} NoArming(s: State, run: seq<Step>, watch: Watch)
    requires Possible(s, run) && EndWalk !in run
    ensures CleanArmings(s, run, watch)
    decreases |run|
  {
    if run != [] {
      assert run[0] in run;
      NoArming(Do(s, run[0]), run[1..], watch);
    }
  }

  lemma FinishAfter(s: State, n: nat)
    requires s.phase.Arming? && n <= |s.queue| + 1 && HasFence((s.queue + [FenceWrite(s.calls)])[..n])
    ensures Possible(s, Finish(n))
    ensures var e := After(s, Finish(n));
      && e.queue == (s.queue + [FenceWrite(s.calls)])[n..]
      && e.sequence == s.sequence + 1 && e.handed == s.handed + [s.calls]
  {
    var m := Do(s, SubmitFence(true));
    RetireMany(m, n);
    var r := After(m, Retires(n));
    Steps1(r, Poll(true));
    Joined(m, Retires(n), [Poll(true)]);
    Steps1(s, SubmitFence(true));
    Joined(s, [SubmitFence(true)], Retires(n) + [Poll(true)]);
  }

  /** The run hands out a number too early, although it arms no fence uncleanly. */
  ghost predicate LiesOnlyNow(s: State, run: seq<Step>, watch: Watch) {
    Possible(s, run) && CleanArmings(s, run, watch) && SomeLie(After(s, run), watch)
  }

  lemma TooEarly(s: State, i: nat, watch: Watch)
    requires s.sequence == |s.handed| > 0 && i < |s.queue|
    requires Matters(s.queue[i], watch) && s.queue[i].call <= s.handed[s.sequence - 1]
    ensures SomeLie(s, watch)
  {
    assert !Truthful(s, s.sequence, watch);
  }

  lemma EarlyFinish(s: State, p: nat, w: nat, watch: Watch)
    requires s.phase.Arming? && s.sequence == |s.handed| && p < w <= |s.queue|
    requires var q := s.queue + [FenceWrite(s.calls)];
      q[p].FenceWrite? && Matters(q[w], watch) && q[w].call <= s.calls
    ensures Possible(s, Finish(p + 1)) && SomeLie(After(s, Finish(p + 1)), watch)
  {
    var q := s.queue + [FenceWrite(s.calls)];
    assert q[..p + 1][p].FenceWrite?;
    FinishAfter(s, p + 1);
    assert q[p + 1..][w - p - 1] == q[w];
    TooEarly(After(s, Finish(p + 1)), w - p - 1, watch);
  }

  /** By some pace of the GPU, an unclean arming ends with a number handed out too early. */
  lemma UncleanLies(s: State, watch: Watch) returns (rest: seq<Step>)
    requires Numbered(s) && Arms(s, EndWalk) && !CleanArming(s, watch)
    ensures LiesOnlyNow(Do(s, EndWalk), rest, watch)
  {
    var m := Do(s, EndWalk);
    var q := s.queue + [FenceWrite(s.calls)];
    var p, w :| 0 <= p < w < |q| && q[p].FenceWrite? && Matters(q[w], watch);
    rest := Finish(p + 1);
    EarlyFinish(m, p, w, watch);
    NoArming(m, rest, watch);
  }

  lemma {:induction false} NumberedOverRuns(s: State, run: seq<Step>)
    requires Numbered(s) && Possible(s, run)
    ensures Numbered(After(s, run))
    decreases |run|
  {
    if run != [] {
      NumberedKept(s, run[0]);
      NumberedOverRuns(Do(s, run[0]), run[1..]);
    }
  }

  /** Every unclean arming of every run, whatever came before it, can end in a number handed out too
      early. */
  lemma EveryUncleanArmingLies(run: seq<Step>, watch: Watch)
    requires Possible(START, run) && Arms(After(START, run), EndWalk) && !CleanArming(After(START, run), watch)
    ensures exists rest :: LiesOnlyNow(Do(After(START, run), EndWalk), rest, watch)
  {
    NumberedOverRuns(START, run);
    var rest := UncleanLies(After(START, run), watch);
  }

  /** The verdict on every arming that any run reaches, time-outs or not: it is unclean if and only
      if some continuation hands out a number too early, with every later arming clean. */
  lemma ArmingVerdict(run: seq<Step>, watch: Watch)
    requires Possible(START, run) && CleanArmings(START, run, watch) && Arms(After(START, run), EndWalk)
    ensures var s := After(START, run);
      !CleanArming(s, watch) <==> exists rest :: LiesOnlyNow(Do(s, EndWalk), rest, watch)
  {
    RunKeeps(START, run, watch);
    var s := After(START, run);
    var m := Do(s, EndWalk);
    if CleanArming(s, watch) {
      NumberedKept(s, EndWalk);
      InStepKept(s, EndWalk, watch);
      forall rest | Possible(m, rest) && CleanArmings(m, rest, watch) ensures !LiesOnlyNow(m, rest, watch) {
        RunKeeps(m, rest, watch);
      }
    } else {
      var rest := UncleanLies(s, watch);
      assert LiesOnlyNow(m, rest, watch);
    }
  }

  // ---- Only a time-out leaves a fence write behind --------------------------------------------

  predicate AllWork(q: seq<Item>) {
    forall i :: 0 <= i < |q| ==> q[i].Work?
  }

  /** The only fence write that can be pending is the one being waited for. */
  ghost predicate NoStale(s: State) {
    if !s.phase.Waiting? then AllWork(s.queue) && (s.phase.Arming? ==> s.fence == Armed) else
    || (s.fence != Fired && s.queue != [] && s.queue[|s.queue| - 1].FenceWrite? && AllWork(s.queue[..|s.queue| - 1]))
    || (s.fence == Fired && s.queue == [])
  }

  lemma NoStaleKept(s: State, st: Step)
    requires NoStale(s) && Enabled(s, st) && !st.TimeOut?
    ensures NoStale(Do(s, st))
  {
  }

  lemma {:induction false} HangsGrow(s: State, run: seq<Step>)
    requires Possible(s, run)
    ensures |s.hangs| <= |After(s, run).hangs|
    decreases |run|
  {
    if run != [] { HangsGrow(Do(s, run[0]), run[1..]); }
  }

  /** As long as nothing has timed out every arming is clean, so every number is truthful. */
  lemma {:induction false} CleanWithoutTimeOut(s: State, run: seq<Step>, watch: Watch)
    requires NoStale(s) && Possible(s, run) && After(s, run).hangs == []
    ensures CleanArmings(s, run, watch)
    decreases |run|
  {
    if run != [] {
      HangsGrow(Do(s, run[0]), run[1..]);
      NoStaleKept(s, run[0]);
      CleanArmingMeans(s);
      CleanWithoutTimeOut(Do(s, run[0]), run[1..], watch);
    }
  }

  /** A call with one instruction buffer, up to its wait. */
  const CALL := [Begin(1, true, true, true), SubmitIb(1, true), EndWalk, SubmitFence(true)]

  /** One time-out is enough: the second call returns sequence 1 with its work still pending. */
  lemma TimeOutThenLie()
    ensures var run := (CALL + [TimeOut]) + (CALL + [Retire, Retire, Poll(true)]);
      && Possible(START, run)
      && After(START, run).sequence == 1 && After(START, run).handed == [2]
      && Work(2) in After(START, run).queue
  {
    var s1 := START.(setup := Ready, ctx := 1, calls := 1, fence := Armed, queue := [Work(1), FenceWrite(1)], hangs := [1]);
    FirstCall(START, s1);
    SecondCall(s1);
    Joined(START, CALL + [TimeOut], CALL + [Retire, Retire, Poll(true)]);
  }

  lemma Steps1(s: State, a: Step)
    requires Enabled(s, a)
    ensures Possible(s, [a]) && After(s, [a]) == Do(s, a)
  {
  }

  lemma Steps2(s: State, a: Step, b: Step)
    requires Enabled(s, a) && Enabled(Do(s, a), b)
    ensures Possible(s, [a, b]) && After(s, [a, b]) == Do(Do(s, a), b)
  {
    Steps1(Do(s, a), b);
    assert [a, b][1..] == [b];
  }

  lemma {:induction false} Joined(s: State, a: seq<Step>, b: seq<Step>)
    requires Possible(s, a) && Possible(After(s, a), b)
    ensures Possible(s, a + b) && After(s, a + b) == After(After(s, a), b)
    decreases |a|
  {
    if a == [] {
      assert a + b == b;
    } else {
      assert (a + b)[1..] == a[1..] + b;
      Joined(Do(s, a[0]), a[1..], b);
    }
  }

  lemma OneCall(s: State)
    requires s.phase.Idle? && s.setup != QueueOnly
    ensures Possible(s, CALL)
    ensures After(s, CALL) == s.(setup := Ready, phase := Waiting(None), ctx := 1, calls := s.calls + 1, fence := Armed,
                                 queue := s.queue + [Work(s.calls + 1), FenceWrite(s.calls + 1)])
  {
  }

  lemma FirstCall(s: State, s': State)
    requires s == START
    requires s' == s.(setup := Ready, ctx := 1, calls := 1, fence := Armed, queue := [Work(1), FenceWrite(1)], hangs := [1])
    ensures Possible(s, CALL + [TimeOut]) && After(s, CALL + [TimeOut]) == s'
  {
    OneCall(s);
    assert s.queue + [Work(1), FenceWrite(1)] == [Work(1), FenceWrite(1)];
    Steps1(After(s, CALL), TimeOut);
    Joined(s, CALL, [TimeOut]);
  }

  lemma SecondCall(s: State)
    requires s.phase.Idle? && s.setup == Ready && s.queue == [Work(1), FenceWrite(1)] && s.calls == 1
    requires s.sequence == 0 && s.handed == []
    ensures var run := CALL + [Retire, Retire, Poll(true)];
      && Possible(s, run)
      && After(s, run).sequence == 1 && After(s, run).handed == [2] && Work(2) in After(s, run).queue
  {
    OneCall(s);
    var w := After(s, CALL);
    assert w.queue == [Work(1), FenceWrite(1), Work(2), FenceWrite(2)];
    var r := Do(Do(w, Retire), Retire);
    assert r.queue == [Work(2), FenceWrite(2)] && r.queue[0] == Work(2);
    Steps2(w, Retire, Retire);
    Steps1(r, Poll(true));
    Joined(w, [Retire, Retire], [Poll(true)]);
    assert [Retire, Retire] + [Poll(true)] == [Retire, Retire, Poll(true)];
    Joined(s, CALL, [Retire, Retire, Poll(true)]);
  }

  // ---- The fence that was never allocated -----------------------------------------------------

  /** Whether the first request for a queue that was granted was also granted its fence. */
  function FirstGrant(run: seq<Step>): Option<bool> {
    if run == [] then None
    else if run[0].Begin? && run[0].queueOk then Some(run[0].fenceOk)
    else FirstGrant(run[1..])
  }

  /** The run comes to the end of a call that has submitted an instruction buffer; `queued` says
      whether the call it starts in has. */
  predicate ReachesFence(run: seq<Step>, queued: bool) {
    run != [] &&
    match run[0]
    case EndWalk => queued || ReachesFence(run[1..], queued)
    case Begin(_, _, _, _) => ReachesFence(run[1..], false)
    case SubmitIb(_, accepted) => ReachesFence(run[1..], queued || accepted)
    case _ => ReachesFence(run[1..], queued)
  }

  /** The queue and its fence are settled by the platform's first grant and never revisited. */
  function Settled(setup: Setup, run: seq<Step>): Setup {
    if setup != NoQueue then setup else
    match FirstGrant(run) case None => NoQueue case Some(fenceOk) => if fenceOk then Ready else QueueOnly
  }

  lemma {:induction false} SetupSettled(s: State, run: seq<Step>)
    requires Possible(s, run)
    ensures After(s, run).setup == Settled(s.setup, run)
    decreases |run|
  {
    if run != [] { SetupSettled(Do(s, run[0]), run[1..]); }
  }

  ghost predicate Unfenced(s: State) {
    && (s.setup != Ready ==>
          s.sequence == 0 && s.handed == [] && s.published == map[] && !s.phase.Arming? && !s.phase.Waiting?)
    && (s.setup == NoQueue ==> s.phase.Idle?)
  }

  lemma {:induction false} UnfencedKept(s: State, run: seq<Step>)
    requires Unfenced(s) && Possible(s, run)
    ensures Unfenced(After(s, run))
    decreases |run|
  {
    if run != [] { UnfencedKept(Do(s, run[0]), run[1..]); }
  }

  /** The queue stays without a fence for ever if and only if the platform refused the fence when it
      granted the queue; then no number is ever returned or published. */
  lemma FenceRefusedForEver(run: seq<Step>, more: seq<Step>)
    requires Possible(START, run) && Possible(After(START, run), more)
    ensures var s, e := After(START, run), After(After(START, run), more);
      && (s.setup == QueueOnly <==> FirstGrant(run) == Some(false))
      && (s.setup == QueueOnly ==> e.setup == QueueOnly && e.sequence == 0 && e.published == map[])
  {
    SetupSettled(START, run);
    UnfencedKept(START, run);
    SetupSettled(After(START, run), more);
    UnfencedKept(After(START, run), more);
  }

  predicate Queued(s: State) {
    s.phase.Walking? && s.phase.submitted > 0
  }

  lemma {:induction false} CrashedStays(s: State, run: seq<Step>)
    requires s.phase.Crashed? && Possible(s, run)
    ensures After(s, run).phase.Crashed?
    decreases |run|
  {
    if run != [] { CrashedStays(Do(s, run[0]), run[1..]); }
  }

  lemma {:induction false} CrashFrom(s: State, run: seq<Step>, queued: bool)
    requires Unfenced(s) && Possible(s, run) && !s.phase.Crashed? && (s.phase.Walking? ==> queued == Queued(s))
    ensures After(s, run).phase.Crashed? <==> Settled(s.setup, run) == QueueOnly && ReachesFence(run, queued)
    decreases |run|
  {
    if run != [] {
      var m := Do(s, run[0]);
      UnfencedKept(s, run[..1]);
      if m.phase.Crashed? {
        CrashedStays(m, run[1..]);
      } else {
        CrashFrom(m, run[1..],
                  match run[0]
                  case Begin(_, _, _, _) => false
                  case SubmitIb(_, accepted) => queued || accepted
                  case _ => queued);
      }
    }
  }

  /** A run ends in the write through the null pointer if and only if the platform refused the fence
      when it granted the queue, and some later call got as far as its fence. */
  lemma CrashIff(run: seq<Step>)
    requires Possible(START, run)
    ensures After(START, run).phase.Crashed? <==> FirstGrant(run) == Some(false) && ReachesFence(run, false)
  {
    CrashFrom(START, run, false);
  }

  /** The refused first call and the crashing second one. */
  lemma SecondCallCrashes()
    ensures var run := [Begin(1, true, false, true), Begin(1, true, true, true), SubmitIb(1, true), EndWalk];
      Possible(START, run) && After(START, run).phase.Crashed?
  {
  }
}
