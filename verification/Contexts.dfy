/** Contexts and their reset history (src/winsys/context.c): the table against the history of the
    calls that shaped it. */
module Contexts {
  import opened Wrappers

  const MAX_CTX: nat := 64
  const TWO32: nat := 0x1_0000_0000

  datatype Context = Context(live: bool, priority: int, hangs: nat)

  const DEAD := Context(false, 0, 0)

  /** What has happened: allocations, frees, and submissions that did not retire, by the context id
      they named, dead or alive. */
  datatype Event = Allocated(id: nat) | Freed(id: nat) | TimedOut(id: nat)

  predicate LiveAfter(log: seq<Event>, id: nat) {
    log != [] &&
    var last := log[|log| - 1];
    if last == Allocated(id) then true else if last == Freed(id) then false
    else LiveAfter(log[..|log| - 1], id)
  }

  /** Submissions naming `id` that timed out since `id` was last allocated. */
  function TimeOutsSince(log: seq<Event>, id: nat): nat {
    if log == [] || log[|log| - 1] == Allocated(id) then 0
    else TimeOutsSince(log[..|log| - 1], id) + if log[|log| - 1] == TimedOut(id) then 1 else 0
  }

  lemma LogStep(log: seq<Event>, e: Event, id: nat)
    ensures LiveAfter(log + [e], id) == if e == Allocated(id) then true else if e == Freed(id) then false else LiveAfter(log, id)
    ensures TimeOutsSince(log + [e], id) ==
      if e == Allocated(id) then 0 else TimeOutsSince(log, id) + if e == TimedOut(id) then 1 else 0
  {
  }

  /** An entry is what the history makes it; the count is a uint32_t. */
  ghost predicate Told(c: Context, log: seq<Event>, id: nat) {
    c.live == LiveAfter(log, id) && (c.live ==> c.hangs == TimeOutsSince(log, id) % TWO32)
  }

  lemma OneMore(n: nat)
    ensures (n % TWO32 + 1) % TWO32 == (n + 1) % TWO32
  {
  }

  // ---- The table as a value -------------------------------------------------------------------

  predicate Live(table: seq<Context>, id: nat) {
    1 <= id <= |table| && table[id - 1].live
  }

  /** The first slot from `i` on that is not live, or the size of the table. */
  function FirstFree(table: seq<Context>, i: nat): (r: nat)
    requires i <= |table|
    ensures i <= r <= |table| && (r < |table| ==> !table[r].live)
    ensures forall k :: i <= k < r ==> table[k].live
    decreases |table| - i
  {
    if i == |table| || !table[i].live then i else FirstFree(table, i + 1)
  }

  function Given(table: seq<Context>, priority: int): seq<Context> {
    var i := FirstFree(table, 0);
    if i < |table| then table[i := Context(true, priority, 0)] else table
  }

  function Dropped(table: seq<Context>, id: nat): seq<Context> {
    if Live(table, id) then table[id - 1 := DEAD] else table
  }

  function Hung(table: seq<Context>, id: nat): seq<Context> {
    if Live(table, id) then table[id - 1 := table[id - 1].(hangs := (table[id - 1].hangs + 1) % TWO32)] else table
  }

  /** What a reset query is told; nothing for an id that is not live. */
  function ResetCount(table: seq<Context>, id: nat): Option<nat> {
    if Live(table, id) then Some(table[id - 1].hangs) else None
  }

  ghost predicate TableTold(table: seq<Context>, log: seq<Event>) {
    |table| == MAX_CTX && forall i :: 0 <= i < MAX_CTX ==> Told(table[i], log, i + 1)
  }

  lemma ToldLive(table: seq<Context>, log: seq<Event>)
    requires TableTold(table, log)
    ensures forall id: nat :: 1 <= id <= MAX_CTX ==> (Live(table, id) <==> LiveAfter(log, id))
  {
    forall id: nat | 1 <= id <= MAX_CTX ensures Live(table, id) <==> LiveAfter(log, id) {
      assert Told(table[id - 1], log, id);
    }
  }

  lemma GivenTold(table: seq<Context>, log: seq<Event>, priority: int)
    requires TableTold(table, log) && FirstFree(table, 0) < |table|
    ensures TableTold(Given(table, priority), log + [Allocated(FirstFree(table, 0) + 1)])
  {
    forall k: nat { LogStep(log, Allocated(FirstFree(table, 0) + 1), k); }
  }

  lemma DroppedTold(table: seq<Context>, log: seq<Event>, id: nat)
    requires TableTold(table, log) && Live(table, id)
    ensures TableTold(Dropped(table, id), log + [Freed(id)])
  {
    forall k: nat { LogStep(log, Freed(id), k); }
  }

  lemma HungTold(table: seq<Context>, log: seq<Event>, id: nat)
    requires TableTold(table, log)
    ensures TableTold(Hung(table, id), log + [TimedOut(id)])
  {
    forall k: nat { LogStep(log, TimedOut(id), k); }
    OneMore(TimeOutsSince(log, id));
  }

  // ---- The table in place ---------------------------------------------------------------------

  datatype Status = Ok | EINVAL | ENOMEM

  class ContextTable {
    const entries: array<Context>
    ghost var log: seq<Event>

    ghost predicate Valid()
      reads this, entries
    {
      TableTold(entries[..], log)
    }

    constructor ()
      ensures Valid() && fresh(entries) && log == [] && forall id :: !Live(entries[..], id)
    {
      entries := new Context[MAX_CTX](_ => DEAD);
      log := [];
    }

    /** The lowest free id, unless all 64 are live. */
    method Alloc(priority: int) returns (status: Status, id: nat)
      requires Valid()
      modifies this, entries
      ensures Valid() && entries[..] == Given(old(entries[..]), priority)
      ensures status == Ok ==>
        && 1 <= id <= MAX_CTX && !LiveAfter(old(log), id) && log == old(log) + [Allocated(id)]
        && (forall k :: 1 <= k < id ==> LiveAfter(old(log), k))
        && entries[id - 1] == Context(true, priority, 0)
        && forall k :: 0 <= k < MAX_CTX && k != id - 1 ==> entries[k] == old(entries[k])
      ensures status != Ok ==>
        status == ENOMEM && entries[..] == old(entries[..]) && log == old(log) && forall k :: 1 <= k <= MAX_CTX ==> LiveAfter(log, k)
    {
      ToldLive(entries[..], log);
      var i := 0;
      while i < entries.Length && entries[i].live
        invariant i <= entries.Length && FirstFree(entries[..], i) == FirstFree(entries[..], 0)
      {
        i := i + 1;
      }
      ghost var first := FirstFree(entries[..], 0);
      assert i == first;
      assert forall k :: 1 <= k <= first ==> Live(entries[..], k);
      if i == entries.Length {
        return ENOMEM, 0;
      }
      assert !Live(entries[..], i + 1);
      GivenTold(entries[..], log, priority);
      entries[i] := Context(true, priority, 0);
      log := log + [Allocated(i + 1)];
      return Ok, i + 1;
    }

    method Free(id: nat) returns (status: Status)
      requires Valid()
      modifies this, entries
      ensures Valid() && entries[..] == Dropped(old(entries[..]), id)
      ensures status == if 1 <= id <= MAX_CTX && LiveAfter(old(log), id) then Ok else EINVAL
      ensures log == if status == Ok then old(log) + [Freed(id)] else old(log)
      ensures forall k :: 0 <= k < MAX_CTX && !(status == Ok && k == id - 1) ==> entries[k] == old(entries[k])
    {
      ToldLive(entries[..], log);
      if id == 0 || id > MAX_CTX || !entries[id - 1].live {
        return EINVAL;
      }
      DroppedTold(entries[..], log, id);
      entries[id - 1] := DEAD;
      log := log + [Freed(id)];
      return Ok;
    }

    /** Called by submission when a stream fails to retire. */
    method NoteHang(id: nat)
      requires Valid()
      modifies this, entries
      ensures Valid() && entries[..] == Hung(old(entries[..]), id) && log == old(log) + [TimedOut(id)]
      ensures forall k :: 0 <= k < MAX_CTX ==> entries[k].(hangs := old(entries[k]).hangs) == old(entries[k])
    {
      HungTold(entries[..], log, id);
      if 1 <= id <= MAX_CTX && entries[id - 1].live {
        entries[id - 1] := entries[id - 1].(hangs := (entries[id - 1].hangs + 1) % TWO32);
      }
      log := log + [TimedOut(id)];
    }

    /** The answer is the number of time-outs since the current allocation, modulo 2^32; guilty
        exactly when that is not zero, so exactly when there was one, short of 2^32 of them. */
    method QueryState(id: nat) returns (status: Status, hangs: nat, guilty: bool)
      requires Valid()
      ensures status == if 1 <= id <= MAX_CTX && LiveAfter(log, id) then Ok else EINVAL
      ensures ResetCount(entries[..], id) == if status == Ok then Some(hangs) else None
      ensures status == Ok ==> hangs == TimeOutsSince(log, id) % TWO32
      ensures status == Ok ==> (guilty <==> TimeOutsSince(log, id) % TWO32 != 0)
      ensures status == Ok && TimeOutsSince(log, id) < TWO32 ==> (guilty <==> TimeOutsSince(log, id) > 0)
    {
      ToldLive(entries[..], log);
      assert 1 <= id <= MAX_CTX ==> Told(entries[..][id - 1], log, id);
      if id == 0 || id > MAX_CTX || !entries[id - 1].live {
        return EINVAL, 0, false;
      }
      hangs := entries[id - 1].hangs;
      return Ok, hangs, hangs != 0;
    }
  }

  /** A reused id starts clean: nothing from before its allocation counts. */
  lemma {:induction false} ReuseForgets(before: seq<Event>, after: seq<Event>, id: nat)
    ensures TimeOutsSince(before + [Allocated(id)] + after, id) == TimeOutsSince([Allocated(id)] + after, id)
  {
    if after == [] {
      LogStep(before, Allocated(id), id);
      LogStep([], Allocated(id), id);
      assert before + [Allocated(id)] + after == before + [Allocated(id)];
      assert [Allocated(id)] + after == [] + [Allocated(id)];
    } else {
      var n, e := |after| - 1, after[|after| - 1];
      ReuseForgets(before, after[..n], id);
      LogStep(before + [Allocated(id)] + after[..n], e, id);
      LogStep([Allocated(id)] + after[..n], e, id);
      assert before + [Allocated(id)] + after == (before + [Allocated(id)] + after[..n]) + [e];
      assert [Allocated(id)] + after == ([Allocated(id)] + after[..n]) + [e];
    }
  }
}
