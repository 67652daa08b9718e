/** What a caller of `oops_winsys_cs` and `oops_winsys_wait_cs` gets (src/winsys/submit.c): which
    calls start, which end without a number, what user-fence slots hold, and what a wait answers. */
module FenceOutcomes {
  import opened Wrappers
  import opened FenceProtocol

  predicate InCall(s: State) {
    s.phase.Walking? || s.phase.Arming? || s.phase.Waiting?
  }

  // ---- The beginning and the end of a call ----------------------------------------------------

  /** A call gets past its checks if and only if its chunk list is readable and the queue exists
      already, or is granted now together with its fence. A call turned away leaves nothing but, at
      most, the queue. */
  lemma CallStartsIff(s: State, ctx: nat, queueOk: bool, fenceOk: bool, chunksOk: bool)
    requires s.phase.Idle?
    ensures var s' := Do(s, Begin(ctx, queueOk, fenceOk, chunksOk));
      && (s'.phase == Walking(0, None) <==> chunksOk && (s.setup != NoQueue || (queueOk && fenceOk)))
      && (s'.phase == Walking(0, None) ==> s'.calls == s.calls + 1 && s'.ctx == ctx)
      && (s'.phase != Walking(0, None) ==> s' == s.(setup := s'.setup))
  {
  }

  /** A call ends without a number if and only if the driver refuses a stream or the fence, the wait
      times out, or no instruction buffer was in it. */
  lemma CallFailsIff(s: State, st: Step)
    requires InCall(s) && Enabled(s, st)
    ensures !InCall(Do(s, st)) && !Do(s, st).phase.Crashed? && Do(s, st).sequence == s.sequence <==>
      || (st.SubmitIb? && !st.accepted) || (st.SubmitFence? && !st.accepted) || st.TimeOut?
      || (st.EndWalk? && s.phase.submitted == 0)
  {
  }

  /** Call `c` is over and has no number. */
  ghost predicate GivenUp(s: State, c: nat) {
    c <= s.calls && c !in s.handed && (InCall(s) ==> c < s.calls)
  }

  lemma {:induction false} GivenUpStays(s: State, run: seq<Step>, c: nat)
    requires GivenUp(s, c) && Possible(s, run)
    ensures GivenUp(After(s, run), c)
    decreases |run|
  {
    if run != [] {
      assert GivenUp(Do(s, run[0]), c) by {
        if Do(s, run[0]).handed != s.handed { assert c != s.calls; }
      }
      GivenUpStays(Do(s, run[0]), run[1..], c);
    }
  }

  /** A call that ends so never gets a number, whatever happens later: one refused instruction buffer
      is enough. */
  lemma FailedCallHasNoNumber(run: seq<Step>, st: Step, more: seq<Step>)
    requires Possible(START, run) && InCall(After(START, run)) && Enabled(After(START, run), st)
    requires var s := After(START, run); !InCall(Do(s, st)) && Do(s, st).sequence == s.sequence
    requires Possible(Do(After(START, run), st), more)
    ensures After(START, run).calls !in After(Do(After(START, run), st), more).handed
  {
    var s := After(START, run);
    NumberedOverRuns(START, run);
    assert s.calls !in s.handed;
    NumberedKept(s, st);
    assert Do(s, st).handed == s.handed;
    GivenUpStays(Do(s, st), more, s.calls);
  }

  /** The word is armed only by a call that has queued something and has a fence, and fires only when
      the GPU retires a fence write, of whichever call; nothing else touches it. */
  lemma WordChangesOnly(s: State, st: Step)
    requires Enabled(s, st)
    ensures var s' := Do(s, st);
      && (Arms(s, st) ==> s'.fence == Armed && s'.phase == Arming(s.phase.slot))
      && (st.Retire? && s.queue[0].FenceWrite? ==> s'.fence == Fired)
      && (!Arms(s, st) && !(st.Retire? && s.queue[0].FenceWrite?) ==> s'.fence == s.fence)
      && (st.Retire? ==> s' == s.(queue := s'.queue, fence := s'.fence))
  {
  }

  // ---- What is queued -------------------------------------------------------------------------

  /** What a step puts on the queue. */
  function Queues(s: State, st: Step): seq<Item> {
    match st
    case SubmitIb(n, _) => seq(n, _ => Work(s.calls))
    case SubmitFence(accepted) => if accepted then [FenceWrite(s.calls)] else []
    case _ => []
  }

  function Queued(s: State, run: seq<Step>): seq<Item>
    requires Possible(s, run)
    decreases |run|
  {
    if run == [] then [] else Queues(s, run[0]) + Queued(Do(s, run[0]), run[1..])
  }

  function Retired(run: seq<Step>): nat {
    if run == [] then 0 else (if run[0].Retire? then 1 else 0) + Retired(run[1..])
  }

  lemma QueueStep(s: State, st: Step)
    requires Enabled(s, st)
    ensures st.Retire? ==> s.queue != [] && Do(s, st).queue == s.queue[1..] && Queues(s, st) == []
    ensures !st.Retire? ==> Do(s, st).queue == s.queue + Queues(s, st)
  {
    assert s.queue + [] == s.queue;
  }

  lemma DropAfterOne(q: seq<Item>, rest: seq<Item>, k: nat)
    requires q != [] && k <= |q| - 1 + |rest|
    ensures (q[1..] + rest)[k..] == (q + ([] + rest))[1 + k..]
  {
  }

  lemma DropAppended(q: seq<Item>, now: seq<Item>, rest: seq<Item>)
    ensures (q + now) + rest == q + (now + rest)
  {
  }

  /** Nothing is lost, added or reordered on the queue: what is pending is what the calls queued, in
      order, without what the GPU has retired. */
  lemma {:induction false} QueueAccount(s: State, run: seq<Step>)
    requires Possible(s, run)
    ensures Retired(run) <= |s.queue| + |Queued(s, run)|
    ensures After(s, run).queue == (s.queue + Queued(s, run))[Retired(run)..]
    decreases |run|
  {
    if run == [] {
      assert s.queue + [] == s.queue;
    } else {
      var m := Do(s, run[0]);
      var rest := Queued(m, run[1..]);
      QueueStep(s, run[0]);
      QueueAccount(m, run[1..]);
      if run[0].Retire? {
        DropAfterOne(s.queue, rest, Retired(run[1..]));
      } else {
        DropAppended(s.queue, Queues(s, run[0]), rest);
      }
    }
  }

  // ---- User fences ----------------------------------------------------------------------------

  /** A call that returned a number: the slot its last FENCE chunk named, and whether it could be
      written. */
  datatype Success = Success(slot: Option<Slot>, writable: bool)

  /** Only a step that hands out the next number publishes, and it publishes that number in the slot
      the call named, if it can be written, and nowhere else. */
  lemma PublishStep(s: State, st: Step)
    requires Numbered(s) && Enabled(s, st)
    ensures var s' := Do(s, st);
      if s'.sequence == s.sequence then s'.published == s.published && s'.handed == s.handed
      else
        && st.Poll? && s'.phase.Idle? && s'.sequence == s.sequence + 1 && s'.handed == s.handed + [s.calls]
        && (forall slot :: s.phase.slot == Some(slot) && st.slotOk ==> slot in s'.published && s'.published[slot] == s'.sequence)
        && (forall slot :: s.phase.slot != Some(slot) || !st.slotOk ==>
              (slot in s'.published <==> slot in s.published)
              && (slot in s.published ==> s'.published[slot] == s.published[slot]))
  {
  }

  /** The slot named by the call in progress, read off the steps: that of the last FENCE chunk since
      the call began. */
  function Named(st: Step, named: Option<Slot>): Option<Slot> {
    if st.Begin? then None else if st.NoteSlot? then Some(st.slot) else named
  }

  /** The calls that returned a number, in order. */
  function Successful(s: State, run: seq<Step>, named: Option<Slot>): seq<Success>
    requires Possible(s, run)
    decreases |run|
  {
    if run == [] then [] else
    (if run[0].Poll? && s.fence == Fired then [Success(named, run[0].slotOk)] else [])
    + Successful(Do(s, run[0]), run[1..], Named(run[0], named))
  }

  predicate Wrote(done: seq<Success>, k: nat, slot: Slot) {
    1 <= k <= |done| && done[k - 1] == Success(Some(slot), true)
  }

  /** A slot holds the number of the last successful call that named it and could write it. */
  ghost predicate Shows(published: map<Slot, nat>, done: seq<Success>) {
    && (forall slot :: slot in published ==> Wrote(done, published[slot], slot))
    && (forall slot, k: nat :: Wrote(done, k, slot) ==> slot in published && k <= published[slot])
  }

  ghost predicate Tracks(s: State, done: seq<Success>, named: Option<Slot>) {
    && Shows(s.published, done) && s.sequence == |done|
    && (InCall(s) ==> s.phase.slot == named)
  }

  lemma ShowsOneMore(published: map<Slot, nat>, done: seq<Success>, next: Success)
    requires Shows(published, done)
    ensures Shows(if next.slot.Some? && next.writable then published[next.slot.value := |done| + 1] else published, done + [next])
  {
    var done' := done + [next];
    forall slot, k: nat | k <= |done| ensures Wrote(done', k, slot) <==> Wrote(done, k, slot) {}
  }

  lemma TracksStep(s: State, st: Step, done: seq<Success>, named: Option<Slot>)
    requires Tracks(s, done, named) && Enabled(s, st)
    ensures var now := if st.Poll? && s.fence == Fired then [Success(named, st.slotOk)] else [];
      Tracks(Do(s, st), done + now, Named(st, named))
  {
    assert done + [] == done;
    if st.Poll? && s.fence == Fired {
      ShowsOneMore(s.published, done, Success(named, st.slotOk));
    }
  }

  lemma {:induction false} TracksRun(s: State, run: seq<Step>, done: seq<Success>, named: Option<Slot>)
    requires Tracks(s, done, named) && Possible(s, run)
    ensures Shows(After(s, run).published, done + Successful(s, run, named))
    ensures After(s, run).sequence == |done| + |Successful(s, run, named)|
    decreases |run|
  {
    if run == [] {
      assert done + [] == done;
    } else {
      var now := if run[0].Poll? && s.fence == Fired then [Success(named, run[0].slotOk)] else [];
      TracksStep(s, run[0], done, named);
      TracksRun(Do(s, run[0]), run[1..], done + now, Named(run[0], named));
      assert done + (now + Successful(Do(s, run[0]), run[1..], Named(run[0], named)))
          == done + now + Successful(Do(s, run[0]), run[1..], Named(run[0], named));
    }
  }

  /** Over every run, user fences show the last number published to them, and every success got the
      next number. */
  lemma UserFencesOverRuns(run: seq<Step>)
    requires Possible(START, run)
    ensures Shows(After(START, run).published, Successful(START, run, None))
    ensures After(START, run).sequence == |Successful(START, run, None)|
  {
    TracksRun(START, run, [], None);
    assert [] + Successful(START, run, None) == Successful(START, run, None);
  }

  // ---- Waiting --------------------------------------------------------------------------------

  /** Over every run a wait answers "signalled" if and only if the handle was handed out, refuses
      every larger one, and never answers "timed out"; handle 0 counts as signalled. */
  lemma WaitAnswersIff(run: seq<Step>, handle: nat)
    requires Possible(START, run)
    ensures var s := After(START, run); var answer := WaitCs(s, handle);
      && (handle > 0 ==> (answer == Some(true) <==> handle <= |s.handed|))
      && (answer == None <==> handle > |s.handed|)
      && answer != Some(false)
      && |s.handed| == |Successful(START, run, None)|
  {
    NumberedOverRuns(START, run);
    UserFencesOverRuns(run);
  }
}
