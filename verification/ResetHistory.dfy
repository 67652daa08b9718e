/** Submission and contexts together (src/winsys/submit.c with src/winsys/context.c): what a reset
    query answers after any run of both, GPU included. */
module ResetHistory {
  import opened Wrappers
  import opened Contexts
  import Fence = FenceProtocol

  datatype World = World(gpu: Fence.State, table: seq<Context>)

  const START := World(Fence.START, seq(MAX_CTX, _ => DEAD))

  datatype Move =
    | Submission(step: Fence.Step)
    | AllocContext(priority: int)
    | FreeContext(id: nat)

  predicate Enabled(w: World, move: Move) {
    move.Submission? ==> Fence.Enabled(w.gpu, move.step)
  }

  /** A submission that gives up waiting tells the context its call named. */
  function Do(w: World, move: Move): World
    requires Enabled(w, move)
  {
    match move
    case Submission(step) =>
      World(Fence.Do(w.gpu, step), if step.TimeOut? then Hung(w.table, w.gpu.ctx) else w.table)
    case AllocContext(priority) => w.(table := Given(w.table, priority))
    case FreeContext(id) => w.(table := Dropped(w.table, id))
  }

  ghost predicate Possible(w: World, run: seq<Move>)
    decreases |run|
  {
    run != [] ==> Enabled(w, run[0]) && Possible(Do(w, run[0]), run[1..])
  }

  function After(w: World, run: seq<Move>): World
    requires Possible(w, run)
    decreases |run|
  {
    if run == [] then w else After(Do(w, run[0]), run[1..])
  }

  // ---- The history of a run -------------------------------------------------------------------

  /** The context named by the call in progress, read off the moves: that of the last request. */
  function Named(move: Move, named: nat): nat {
    if move.Submission? && move.step.Begin? then move.step.ctx else named
  }

  /** What a move adds to the history, while `named` is the context of the last request. */
  function Adds(w: World, move: Move, named: nat): seq<Event> {
    match move
    case Submission(step) => if step.TimeOut? then [TimedOut(named)] else []
    case AllocContext(_) =>
      if FirstFree(w.table, 0) < |w.table| then [Allocated(FirstFree(w.table, 0) + 1)] else []
    case FreeContext(id) => if Live(w.table, id) then [Freed(id)] else []
  }

  function History(w: World, run: seq<Move>, named: nat): seq<Event>
    requires Possible(w, run)
    decreases |run|
  {
    if run == [] then []
    else Adds(w, run[0], named) + History(Do(w, run[0]), run[1..], Named(run[0], named))
  }

  /** The contexts of the time-outs in a history, in order. */
  function Hangs(log: seq<Event>): seq<nat> {
    if log == [] then [] else (if log[0].TimedOut? then [log[0].id] else []) + Hangs(log[1..])
  }

  /** The submission side of a run. */
  function Steps(run: seq<Move>): seq<Fence.Step> {
    if run == [] then [] else (if run[0].Submission? then [run[0].step] else []) + Steps(run[1..])
  }

  // ---- The two sides agree --------------------------------------------------------------------

  /** Inside a call, the protocol remembers the context of the last request. */
  ghost predicate Remembers(w: World, named: nat) {
    w.gpu.phase.Walking? || w.gpu.phase.Arming? || w.gpu.phase.Waiting? ==> w.gpu.ctx == named
  }

  lemma MoveKeeps(w: World, move: Move, named: nat, log: seq<Event>)
    requires Enabled(w, move) && Remembers(w, named) && TableTold(w.table, log)
    ensures Remembers(Do(w, move), Named(move, named)) && TableTold(Do(w, move).table, log + Adds(w, move, named))
  {
    assert log + [] == log;
    match move
    case Submission(step) =>
      if step.TimeOut? { HungTold(w.table, log, named); }
    case AllocContext(priority) =>
      if FirstFree(w.table, 0) < |w.table| { GivenTold(w.table, log, priority); }
    case FreeContext(id) =>
      if Live(w.table, id) { DroppedTold(w.table, log, id); }
  }

  lemma MoveHangs(w: World, move: Move, named: nat)
    requires Enabled(w, move) && Remembers(w, named)
    ensures Remembers(Do(w, move), Named(move, named))
    ensures Do(w, move).gpu.hangs == w.gpu.hangs + Hangs(Adds(w, move, named))
  {
    assert Hangs([TimedOut(named)]) == [named] + Hangs([]);
  }

  lemma {:induction false} HangsAppend(a: seq<Event>, b: seq<Event>)
    ensures Hangs(a + b) == Hangs(a) + Hangs(b)
  {
    if a == [] {
      assert a + b == b;
    } else {
      var head: seq<nat> := if a[0].TimedOut? then [a[0].id] else [];
      HangsAppend(a[1..], b);
      assert (a + b)[1..] == a[1..] + b && (a + b)[0] == a[0];
      assert head + (Hangs(a[1..]) + Hangs(b)) == (head + Hangs(a[1..])) + Hangs(b);
    }
  }

  lemma {:induction false} RunKeeps(w: World, run: seq<Move>, named: nat, log: seq<Event>)
    requires Possible(w, run) && Remembers(w, named) && TableTold(w.table, log)
    ensures TableTold(After(w, run).table, log + History(w, run, named))
    decreases |run|
  {
    if run == [] {
      assert log + [] == log;
    } else {
      var a, m := Adds(w, run[0], named), Do(w, run[0]);
      MoveKeeps(w, run[0], named, log);
      RunKeeps(m, run[1..], Named(run[0], named), log + a);
      assert log + a + History(m, run[1..], Named(run[0], named)) == log + History(w, run, named);
    }
  }

  lemma {:induction false} RunHangs(w: World, run: seq<Move>, named: nat)
    requires Possible(w, run) && Remembers(w, named)
    ensures After(w, run).gpu.hangs == w.gpu.hangs + Hangs(History(w, run, named))
    decreases |run|
  {
    if run != [] {
      var a, m := Adds(w, run[0], named), Do(w, run[0]);
      var rest := History(m, run[1..], Named(run[0], named));
      MoveHangs(w, run[0], named);
      RunHangs(m, run[1..], Named(run[0], named));
      HangsAppend(a, rest);
      assert w.gpu.hangs + Hangs(a) + Hangs(rest) == w.gpu.hangs + (Hangs(a) + Hangs(rest));
    }
  }

  lemma {:induction false} SubmissionSide(w: World, run: seq<Move>)
    requires Possible(w, run)
    ensures Fence.Possible(w.gpu, Steps(run)) && Fence.After(w.gpu, Steps(run)) == After(w, run).gpu
    decreases |run|
  {
    if run != [] {
      SubmissionSide(Do(w, run[0]), run[1..]);
      if run[0].Submission? {
        assert Steps(run)[1..] == Steps(run[1..]);
      } else {
        assert Steps(run) == Steps(run[1..]);
      }
    }
  }

  /** Over every run of submissions, GPU and context calls, a reset query answers for live contexts
      only, and the count is the time-outs since that context was allocated whose call named it,
      modulo 2^32. */
  lemma ResetCountsTimeOuts(run: seq<Move>, id: nat)
    requires Possible(START, run)
    ensures var log := History(START, run, 0);
      ResetCount(After(START, run).table, id) ==
      if 1 <= id <= MAX_CTX && LiveAfter(log, id) then Some(TimeOutsSince(log, id) % TWO32) else None
  {
    RunKeeps(START, run, 0, []);
    var log, table := History(START, run, 0), After(START, run).table;
    assert [] + log == log;
    ToldLive(table, log);
    assert 1 <= id <= MAX_CTX ==> Told(table[id - 1], log, id);
  }

  /** The time-outs of that history are exactly those of the submission protocol, in order. */
  lemma HistoryIsTheProtocols(run: seq<Move>)
    requires Possible(START, run)
    ensures Fence.Possible(Fence.START, Steps(run))
    ensures Hangs(History(START, run, 0)) == Fence.After(Fence.START, Steps(run)).hangs
  {
    RunHangs(START, run, 0);
    SubmissionSide(START, run);
  }
}
