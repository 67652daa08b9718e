/** Emulated thread-local storage (src/runtime/emutls.c): index assignment under double-checked
    locking and per-thread arrays of objects, for any threads, any control records and any
    interleaving. Key creation is taken as done before the first access. */
module EmuTls {
  import opened Wrappers

  type Thread = nat
  type Control = nat
  type Address = nat // 0 is null

  /** Where a thread is inside `__emutls_get_address`. */
  datatype Pc =
    | Outside
    | FirstRead(c: Control)              // read the index without the lock
    | WantLock(c: Control)
    | SecondRead(c: Control)             // holds the lock: read it again, assign if still zero
    | Unlock(c: Control, index: nat)
    | NeedArray(c: Control, index: nat)  // emutls_array_for
    | NeedObject(c: Control, index: nat) // allocate the slot's object on first use, and return it

  /** An array block, labelled with the thread it was allocated for; `slots[i - 1]` is slot `i`. */
  datatype Block = Block(t: Thread, slots: seq<Address>)

  /** `key` is what pthread_getspecific answers, where it is not null; `arrays` are the array blocks
      that are allocated; `owner` says which slot each allocated object was allocated for. */
  datatype Heap = Heap(
    key: map<Thread, Address>, arrays: map<Address, Block>, owner: map<Address, (Thread, nat)>, badFrees: nat)

  /** `answers` is the address a thread was last told for a control; `returned` is what the thread's
      last call returned, null included. */
  datatype State = State(
    index: map<Control, nat>, next: nat, lock: Option<Thread>, heap: Heap,
    answers: map<(Thread, Control), Address>, returned: map<Thread, Address>, pc: map<Thread, Pc>)

  const START := State(map[], 0, None, Heap(map[], map[], map[], 0), map[], map[], map[])

  /** `memory`: does allocation succeed, at `block`? `keyOk`: does pthread_setspecific? */
  datatype Step =
    | Enter(t: Thread, c: Control)
    | Go(t: Thread, block: Address, memory: bool, keyOk: bool) // one atomic step
    | Exit(t: Thread)                                          // the thread ends: emutls_thread_cleanup

  function At(s: State, t: Thread): Pc {
    if t in s.pc then s.pc[t] else Outside
  }

  function SlotsOf(h: Heap, t: Thread): seq<Address> {
    if t in h.key && h.key[t] in h.arrays then h.arrays[h.key[t]].slots else []
  }

  /** The array grown to hold `n` slots; new slots start empty. */
  function Grow(slots: seq<Address>, n: nat): (r: seq<Address>)
    ensures slots <= r && n <= |r|
    ensures forall i :: |slots| <= i < |r| ==> r[i] == 0
  {
    if |slots| >= n then slots else slots + seq(n - |slots|, _ => 0)
  }

  function Goto(s: State, t: Thread, pc: Pc): State {
    s.(pc := s.pc[t := pc])
  }

  /** The call returns `a`, which may be null. */
  function Return(s: State, t: Thread, a: Address): State {
    s.(pc := s.pc[t := Outside], returned := s.returned[t := a])
  }

  // ---- What happens to the heap ---------------------------------------------------------------

  function OwnArray(h: Heap, t: Thread): set<Address> {
    if t in h.key then {h.key[t]} else {}
  }

  /** The thread's array reallocated at `a` to hold `n` slots. The old block goes back with the
      realloc; a grown block that the key does not take is freed. */
  function Grown(h: Heap, t: Thread, n: nat, a: Address, memory: bool, keyOk: bool): Heap {
    if !memory then h
    else if !keyOk then h.(arrays := h.arrays - OwnArray(h, t))
    else h.(key := h.key[t := a], arrays := (h.arrays - OwnArray(h, t))[a := Block(t, Grow(SlotsOf(h, t), n))])
  }

  /** A new object at `a` in slot `i` of the thread's array. */
  function WithObject(h: Heap, t: Thread, i: nat, a: Address): Heap
    requires 1 <= i <= |SlotsOf(h, t)|
  {
    h.(arrays := h.arrays[h.key[t] := Block(t, SlotsOf(h, t)[i - 1 := a])], owner := h.owner[a := (t, i)])
  }

  /** Frees every object of the thread, slot by slot; `free` of null does nothing. */
  function FreeAll(owner: map<Address, (Thread, nat)>, slots: seq<Address>, bad: nat): (map<Address, (Thread, nat)>, nat)
    decreases |slots|
  {
    if slots == [] then (owner, bad)
    else if slots[0] == 0 then FreeAll(owner, slots[1..], bad)
    else if slots[0] in owner then FreeAll(owner - {slots[0]}, slots[1..], bad)
    else FreeAll(owner, slots[1..], bad + 1)
  }

  /** emutls_thread_cleanup, which the key calls with the thread's array: the objects, then the array
      itself, and that is a wrong free if the array is already gone. */
  function Cleanup(h: Heap, t: Thread): Heap {
    var (owner, bad) := FreeAll(h.owner, SlotsOf(h, t), h.badFrees);
    Heap(h.key - {t}, h.arrays - OwnArray(h, t), owner, if OwnArray(h, t) <= h.arrays.Keys then bad else bad + 1)
  }

  // ---- The steps ------------------------------------------------------------------------------

  /** The platform's allocator hands out neither null nor memory that is still allocated; a realloc
      may give the thread's own array back where it was. */
  predicate Enabled(s: State, st: Step) {
    match st
    case Enter(t, _) => At(s, t).Outside?
    case Go(t, a, _, _) =>
      && !At(s, t).Outside? && (At(s, t).WantLock? ==> s.lock == None)
      && (At(s, t).NeedArray? ==> a != 0 && a !in s.heap.owner && a !in s.heap.arrays.Keys - OwnArray(s.heap, t))
      && (At(s, t).NeedObject? ==> a != 0 && a !in s.heap.owner && a !in s.heap.arrays)
    case Exit(t) => At(s, t).Outside?
  }

  /** emutls_array_for: grow the thread's array to hold slot `i`, or return null. */
  function ArrayFor(s: State, t: Thread, c: Control, i: nat, a: Address, memory: bool, keyOk: bool): State {
    if |SlotsOf(s.heap, t)| >= i then Goto(s, t, NeedObject(c, i))
    else
      var s' := s.(heap := Grown(s.heap, t, i, a, memory, keyOk));
      if memory && keyOk then Goto(s', t, NeedObject(c, i)) else Return(s', t, 0)
  }

  /** The object in slot `i`, allocated on first use at `a`, or null. */
  function ObjectFor(s: State, t: Thread, c: Control, i: nat, a: Address, memory: bool): State {
    var slots := SlotsOf(s.heap, t);
    if i == 0 || i > |slots| then s
    else if slots[i - 1] != 0 then Return(s, t, slots[i - 1]).(answers := s.answers[(t, c) := slots[i - 1]])
    else if !memory then Return(s, t, 0)
    else Return(s, t, a).(heap := WithObject(s.heap, t, i, a), answers := s.answers[(t, c) := a])
  }

  /** The index under the lock: read again, and assigned if there is still none. */
  function AssignIndex(s: State, t: Thread, c: Control): State {
    if c in s.index then Goto(s, t, Unlock(c, s.index[c]))
    else Goto(s, t, Unlock(c, s.next + 1)).(next := s.next + 1, index := s.index[c := s.next + 1])
  }

  function Do(s: State, st: Step): State {
    match st
    case Enter(t, c) => Goto(s, t, FirstRead(c))
    case Exit(t) => s.(heap := Cleanup(s.heap, t), answers := map k | k in s.answers && k.0 != t :: s.answers[k])
    case Go(t, a, memory, keyOk) =>
      match At(s, t)
      case Outside => s
      case FirstRead(c) => Goto(s, t, if c in s.index then NeedArray(c, s.index[c]) else WantLock(c))
      case WantLock(c) => Goto(s, t, SecondRead(c)).(lock := Some(t))
      case SecondRead(c) => AssignIndex(s, t, c)
      case Unlock(c, i) => Goto(s, t, NeedArray(c, i)).(lock := None)
      case NeedArray(c, i) => ArrayFor(s, t, c, i, a, memory, keyOk)
      case NeedObject(c, i) => ObjectFor(s, t, c, i, a, memory)
  }

  ghost predicate Possible(s: State, run: seq<Step>)
    decreases |run|
  {
    run != [] ==> Enabled(s, run[0]) && Possible(Do(s, run[0]), run[1..])
  }

  function After(s: State, run: seq<Step>): State
    decreases |run|
  {
    if run == [] then s else After(Do(s, run[0]), run[1..])
  }

  // ---- The invariant --------------------------------------------------------------------------

  ghost predicate Indexed(s: State) {
    && (forall c :: c in s.index ==> 1 <= s.index[c] <= s.next)
    && (forall c, d :: c in s.index && d in s.index && s.index[c] == s.index[d] ==> c == d)
  }

  predicate HoldsLock(pc: Pc) {
    pc.SecondRead? || pc.Unlock?
  }

  ghost predicate Locked(s: State) {
    forall t: Thread :: s.lock == Some(t) <==> HoldsLock(At(s, t))
  }

  /** A thread past the index read knows the control's index, and then has a slot for it. */
  predicate Ready(s: State, t: Thread) {
    match At(s, t)
    case Unlock(c, i) => c in s.index && s.index[c] == i
    case NeedArray(c, i) => c in s.index && s.index[c] == i
    case NeedObject(c, i) => c in s.index && s.index[c] == i && i <= |SlotsOf(s.heap, t)|
    case _ => true
  }

  /** Objects and filled slots correspond one to one. */
  ghost predicate OneToOne(h: Heap) {
    && (forall t: Thread, i: nat :: i < |SlotsOf(h, t)| && SlotsOf(h, t)[i] != 0 ==>
          SlotsOf(h, t)[i] in h.owner && h.owner[SlotsOf(h, t)[i]] == (t, i + 1))
    && (forall a :: a in h.owner ==> Filled(h, a))
  }

  predicate Filled(h: Heap, a: Address)
    requires a in h.owner
  {
    var (t, i) := h.owner[a];
    a != 0 && 1 <= i <= |SlotsOf(h, t)| && SlotsOf(h, t)[i - 1] == a
  }

  /** Keys and array blocks correspond one to one, and no block is also an object. */
  ghost predicate Blocks(h: Heap) {
    && (forall t: Thread :: t in h.key ==> h.key[t] in h.arrays && h.arrays[h.key[t]].t == t)
    && (forall b :: b in h.arrays ==> b != 0 && b !in h.owner && h.arrays[b].t in h.key && h.key[h.arrays[b].t] == b)
  }

  ghost predicate HeapInv(h: Heap) {
    OneToOne(h) && Blocks(h) && h.badFrees == 0
  }

  predicate Kept(s: State, t: Thread, c: Control)
    requires (t, c) in s.answers
  {
    && c in s.index && 1 <= s.index[c] <= |SlotsOf(s.heap, t)|
    && SlotsOf(s.heap, t)[s.index[c] - 1] == s.answers[(t, c)] != 0
  }

  ghost predicate Inv(s: State) {
    && Indexed(s) && Locked(s) && (forall t :: Ready(s, t)) && HeapInv(s.heap)
    && (forall t, c :: (t, c) in s.answers ==> Kept(s, t, c))
  }

  // ---- The heap keeps its invariant -----------------------------------------------------------

  /** Nobody's slots change but `t`'s. */
  ghost predicate OthersKeepSlots(h: Heap, h': Heap, t: Thread) {
    forall u: Thread :: u != t ==> SlotsOf(h', u) == SlotsOf(h, u)
  }

  lemma GrownSlots(h: Heap, t: Thread, n: nat, a: Address)
    requires Blocks(h) && a != 0 && a !in h.owner && a !in h.arrays.Keys - OwnArray(h, t)
    ensures var h' := Grown(h, t, n, a, true, true);
      Blocks(h') && SlotsOf(h', t) == Grow(SlotsOf(h, t), n) && OthersKeepSlots(h, h', t)
  {
  }

  lemma GrownKeeps(h: Heap, t: Thread, n: nat, a: Address)
    requires HeapInv(h) && a != 0 && a !in h.owner && a !in h.arrays.Keys - OwnArray(h, t)
    ensures HeapInv(Grown(h, t, n, a, true, true))
  {
    var h' := Grown(h, t, n, a, true, true);
    GrownSlots(h, t, n, a);
    forall u: Thread, i: nat | i < |SlotsOf(h', u)| && SlotsOf(h', u)[i] != 0
      ensures SlotsOf(h', u)[i] in h'.owner && h'.owner[SlotsOf(h', u)[i]] == (u, i + 1)
    {
      assert i < |SlotsOf(h, u)| && SlotsOf(h', u)[i] == SlotsOf(h, u)[i];
    }
    forall b | b in h'.owner ensures Filled(h', b) { assert Filled(h, b); }
  }

  lemma FillSlots(h: Heap, t: Thread, i: nat, a: Address)
    requires Blocks(h) && 1 <= i <= |SlotsOf(h, t)| && a != 0 && a !in h.owner && a !in h.arrays
    ensures var h' := WithObject(h, t, i, a);
      Blocks(h') && SlotsOf(h', t) == SlotsOf(h, t)[i - 1 := a] && OthersKeepSlots(h, h', t)
  {
  }

  lemma FillKeeps(h: Heap, t: Thread, i: nat, a: Address)
    requires HeapInv(h) && 1 <= i <= |SlotsOf(h, t)| && SlotsOf(h, t)[i - 1] == 0
    requires a != 0 && a !in h.owner && a !in h.arrays
    ensures HeapInv(WithObject(h, t, i, a))
  {
    var h' := WithObject(h, t, i, a);
    FillSlots(h, t, i, a);
    forall u: Thread, k: nat | k < |SlotsOf(h', u)| && SlotsOf(h', u)[k] != 0
      ensures SlotsOf(h', u)[k] in h'.owner && h'.owner[SlotsOf(h', u)[k]] == (u, k + 1)
    {
      if u != t || k != i - 1 {
        assert SlotsOf(h', u)[k] == SlotsOf(h, u)[k];
      }
    }
    forall b | b in h'.owner ensures Filled(h', b) {
      if b != a { assert Filled(h, b); }
    }
  }

  /** Freeing a thread's slots frees exactly its objects, each once. */
  lemma {:induction false} FreeAllRight(owner: map<Address, (Thread, nat)>, slots: seq<Address>, bad: nat)
    requires forall i :: 0 <= i < |slots| && slots[i] != 0 ==> slots[i] in owner
    requires forall i, j :: 0 <= i < j < |slots| && slots[i] != 0 ==> slots[i] != slots[j]
    ensures var (o, b) := FreeAll(owner, slots, bad);
      && b == bad
      && (forall a :: a in o ==> a in owner && o[a] == owner[a])
      && (forall a :: a in owner ==> (a in o <==> a == 0 || a !in slots))
    decreases |slots|
  {
    if slots != [] {
      var rest := slots[1..];
      assert forall i :: 0 <= i < |rest| ==> rest[i] == slots[i + 1];
      assert forall a :: a in slots <==> a == slots[0] || a in rest;
      if slots[0] == 0 {
        FreeAllRight(owner, rest, bad);
      } else {
        FreeAllRight(owner - {slots[0]}, rest, bad);
      }
    }
  }

  /** Cleanup frees exactly the thread's objects and its array, each once. */
  lemma CleanupRight(h: Heap, t: Thread)
    requires OneToOne(h) && Blocks(h)
    ensures var h' := Cleanup(h, t);
      && h'.badFrees == h.badFrees
      && (forall a :: a in h'.owner ==> a in h.owner && h'.owner[a] == h.owner[a])
      && (forall a :: a in h.owner ==> (a in h'.owner <==> h.owner[a].0 != t))
      && (forall b :: b in h'.arrays <==> b in h.arrays && h.arrays[b].t != t)
  {
    var slots := SlotsOf(h, t);
    forall i, j | 0 <= i < j < |slots| && slots[i] != 0 ensures slots[i] != slots[j] {
      assert h.owner[slots[i]] == (t, i + 1);
    }
    FreeAllRight(h.owner, slots, h.badFrees);
    forall a | a in h.owner ensures (a == 0 || a !in slots) <==> h.owner[a].0 != t {
      assert Filled(h, a);
      if a in slots {
        var i :| 0 <= i < |slots| && slots[i] == a;
        assert h.owner[slots[i]] == (t, i + 1);
      }
    }
  }

  lemma CleanupSlots(h: Heap, t: Thread)
    requires Blocks(h) && OneToOne(h)
    ensures var h' := Cleanup(h, t); Blocks(h') && SlotsOf(h', t) == [] && OthersKeepSlots(h, h', t)
  {
    CleanupRight(h, t);
  }

  lemma CleanupKeeps(h: Heap, t: Thread)
    requires HeapInv(h)
    ensures HeapInv(Cleanup(h, t))
  {
    CleanupRight(h, t);
    CleanupSlots(h, t);
    WithoutThread(h, Cleanup(h, t), t);
  }

  lemma WithoutThread(h: Heap, h': Heap, t: Thread)
    requires OneToOne(h) && SlotsOf(h', t) == [] && OthersKeepSlots(h, h', t)
    requires forall a :: a in h'.owner ==> a in h.owner && h'.owner[a] == h.owner[a]
    requires forall a :: a in h.owner ==> (a in h'.owner <==> h.owner[a].0 != t)
    ensures OneToOne(h')
  {
    forall u: Thread, i: nat | i < |SlotsOf(h', u)| && SlotsOf(h', u)[i] != 0
      ensures SlotsOf(h', u)[i] in h'.owner && h'.owner[SlotsOf(h', u)[i]] == (u, i + 1)
    {
      assert SlotsOf(h', u) == SlotsOf(h, u);
    }
    forall a | a in h'.owner ensures Filled(h', a) { assert Filled(h, a); }
  }

  // ---- What a step changes --------------------------------------------------------------------

  lemma PcStays(s: State, st: Step, u: Thread)
    requires u != st.t
    ensures At(Do(s, st), u) == At(s, u)
  {
  }

  /** The one way indices change: a control without one gets the next. */
  lemma IndexEffect(s: State, st: Step)
    ensures var s' := Do(s, st);
      || (s'.index == s.index && s'.next == s.next)
      || exists c: Control :: c !in s.index && s'.index == s.index[c := s.next + 1] && s'.next == s.next + 1
  {
    if st.Go? && At(s, st.t).SecondRead? {
      var c := At(s, st.t).c;
      assert c in s.index || Do(s, st).index == s.index[c := s.next + 1];
    }
  }

  /** The lock changes hands only at its own two steps. */
  lemma LockEffect(s: State, st: Step)
    requires Enabled(s, st)
    ensures var s', t := Do(s, st), st.t;
      || (s'.lock == s.lock && HoldsLock(At(s', t)) == HoldsLock(At(s, t)))
      || (s.lock == None && s'.lock == Some(t) && HoldsLock(At(s', t)))
      || (HoldsLock(At(s, t)) && s'.lock == None && !HoldsLock(At(s', t)))
  {
  }

  /** The thread's grown array is freed because the key does not take it, and its old one is gone. */
  predicate LosesArray(s: State, st: Step) {
    && st.Go? && At(s, st.t).NeedArray? && |SlotsOf(s.heap, st.t)| < At(s, st.t).index
    && st.memory && !st.keyOk && st.t in s.heap.key
  }

  /** The step grows the thread's array, which may move it. */
  predicate Grows(s: State, st: Step) {
    st.Go? && At(s, st.t).NeedArray? && |SlotsOf(s.heap, st.t)| < At(s, st.t).index && st.memory && st.keyOk
  }

  /** The step fills an empty slot with a new object. */
  predicate Fills(s: State, st: Step) {
    && st.Go? && At(s, st.t).NeedObject? && 1 <= At(s, st.t).index <= |SlotsOf(s.heap, st.t)|
    && SlotsOf(s.heap, st.t)[At(s, st.t).index - 1] == 0 && st.memory
  }

  lemma HeapEffect(s: State, st: Step)
    requires !LosesArray(s, st)
    ensures Do(s, st).heap ==
      if st.Exit? then Cleanup(s.heap, st.t)
      else if Grows(s, st) then Grown(s.heap, st.t, At(s, st.t).index, st.block, true, true)
      else if Fills(s, st) then WithObject(s.heap, st.t, At(s, st.t).index, st.block)
      else s.heap
  {
    assert st.t !in s.heap.key ==> s.heap.arrays - OwnArray(s.heap, st.t) == s.heap.arrays;
  }

  lemma HeapInvKept(s: State, st: Step)
    requires HeapInv(s.heap) && Enabled(s, st) && !LosesArray(s, st)
    ensures HeapInv(Do(s, st).heap)
  {
    HeapEffect(s, st);
    if st.Exit? {
      CleanupKeeps(s.heap, st.t);
    } else if Grows(s, st) {
      GrownKeeps(s.heap, st.t, At(s, st.t).index, st.block);
    } else if Fills(s, st) {
      FillKeeps(s.heap, st.t, At(s, st.t).index, st.block);
    }
  }

  /** The slots of the step's own thread afterwards. */
  function NextSlots(s: State, st: Step): seq<Address> {
    var slots := SlotsOf(s.heap, st.t);
    if st.Exit? then []
    else if Grows(s, st) then Grow(slots, At(s, st.t).index)
    else if Fills(s, st) then slots[At(s, st.t).index - 1 := st.block]
    else slots
  }

  lemma SlotsMove(s: State, st: Step)
    requires HeapInv(s.heap) && Enabled(s, st) && !LosesArray(s, st)
    ensures SlotsOf(Do(s, st).heap, st.t) == NextSlots(s, st) && OthersKeepSlots(s.heap, Do(s, st).heap, st.t)
  {
    HeapEffect(s, st);
    if st.Exit? {
      CleanupSlots(s.heap, st.t);
    } else if Grows(s, st) {
      GrownSlots(s.heap, st.t, At(s, st.t).index, st.block);
    } else if Fills(s, st) {
      FillSlots(s.heap, st.t, At(s, st.t).index, st.block);
    }
  }

  /** Filled slots keep their objects, and no slot goes away. */
  predicate Extends(slots: seq<Address>, slots': seq<Address>) {
    |slots| <= |slots'| && forall k :: 0 <= k < |slots| && slots[k] != 0 ==> slots'[k] == slots[k]
  }

  lemma NextSlotsExtend(s: State, st: Step)
    requires !st.Exit?
    ensures Extends(SlotsOf(s.heap, st.t), NextSlots(s, st))
  {
  }

  lemma SlotsExtend(s: State, st: Step, t: Thread)
    requires HeapInv(s.heap) && Enabled(s, st) && !LosesArray(s, st) && st != Exit(t)
    ensures Extends(SlotsOf(s.heap, t), SlotsOf(Do(s, st).heap, t))
  {
    SlotsMove(s, st);
    if t == st.t { NextSlotsExtend(s, st); }
  }

  // ---- Every step keeps it --------------------------------------------------------------------

  /** Indices are never taken back or changed. */
  lemma IndexStays(s: State, st: Step, c: Control)
    requires c in s.index
    ensures c in Do(s, st).index && Do(s, st).index[c] == s.index[c]
  {
    IndexEffect(s, st);
  }

  lemma IndexedKept(s: State, st: Step)
    requires Indexed(s)
    ensures Indexed(Do(s, st))
  {
    IndexEffect(s, st);
  }

  lemma LockedKept(s: State, st: Step)
    requires Locked(s) && Enabled(s, st)
    ensures Locked(Do(s, st))
  {
    var s' := Do(s, st);
    LockEffect(s, st);
    forall u: Thread ensures s'.lock == Some(u) <==> HoldsLock(At(s', u)) {
      if u != st.t { PcStays(s, st, u); }
      assert s.lock == Some(u) <==> HoldsLock(At(s, u));
      assert s.lock == Some(st.t) <==> HoldsLock(At(s, st.t));
    }
  }

  lemma ReadyKept(s: State, st: Step, u: Thread)
    requires Inv(s) && Enabled(s, st) && !LosesArray(s, st)
    ensures Ready(Do(s, st), u)
  {
    assert Ready(s, u);
    SlotsMove(s, st);
    if u != st.t {
      PcStays(s, st, u);
      match At(s, u)
      case Unlock(c, i) => IndexStays(s, st, c);
      case NeedArray(c, i) => IndexStays(s, st, c);
      case NeedObject(c, i) => IndexStays(s, st, c);
      case _ =>
    }
  }

  /** Answers change only when their own thread gets its object. */
  lemma AnswerEffect(s: State, st: Step, t: Thread, c: Control)
    requires (t, c) in Do(s, st).answers
    ensures
      || ((t, c) in s.answers && Do(s, st).answers[(t, c)] == s.answers[(t, c)] && st != Exit(t))
      || (st.Go? && st.t == t && exists i :: At(s, t) == NeedObject(c, i))
  {
  }

  lemma ObjectAnswer(s: State, t: Thread, c: Control, i: nat, a: Address, memory: bool)
    requires Blocks(s.heap) && a != 0 && a !in s.heap.owner && a !in s.heap.arrays
    requires c in s.index && s.index[c] == i && 1 <= i <= |SlotsOf(s.heap, t)|
    requires (t, c) in s.answers ==> Kept(s, t, c)
    ensures var s' := ObjectFor(s, t, c, i, a, memory);
      (t, c) in s'.answers ==> Kept(s', t, c) && ((t, c) in s.answers ==> s'.answers[(t, c)] == s.answers[(t, c)])
  {
    FillSlots(s.heap, t, i, a);
  }

  lemma NewAnswerKept(s: State, st: Step, t: Thread, c: Control, i: nat)
    requires Inv(s) && Enabled(s, st) && (t, c) in Do(s, st).answers
    requires st.Go? && st.t == t && At(s, t) == NeedObject(c, i)
    ensures Kept(Do(s, st), t, c)
    ensures (t, c) in s.answers ==> Do(s, st).answers[(t, c)] == s.answers[(t, c)]
  {
    assert Ready(s, t);
    ObjectAnswer(s, t, c, i, st.block, st.memory);
  }

  lemma OldAnswerKept(s: State, st: Step, t: Thread, c: Control)
    requires Inv(s) && Enabled(s, st) && !LosesArray(s, st) && st != Exit(t)
    requires (t, c) in s.answers && (t, c) in Do(s, st).answers && Do(s, st).answers[(t, c)] == s.answers[(t, c)]
    ensures Kept(Do(s, st), t, c)
  {
    assert Kept(s, t, c);
    IndexStays(s, st, c);
    SlotsExtend(s, st, t);
  }

  /** What a thread was told for a control stays in its slot, until the thread ends. */
  lemma AnswerKept(s: State, st: Step, t: Thread, c: Control)
    requires Inv(s) && Enabled(s, st) && !LosesArray(s, st) && (t, c) in Do(s, st).answers
    ensures Kept(Do(s, st), t, c)
    ensures (t, c) in s.answers ==> Do(s, st).answers[(t, c)] == s.answers[(t, c)]
  {
    AnswerEffect(s, st, t, c);
    if i :| st.Go? && st.t == t && At(s, t) == NeedObject(c, i) {
      NewAnswerKept(s, st, t, c, i);
    } else {
      OldAnswerKept(s, st, t, c);
    }
  }

  lemma StepKeeps(s: State, st: Step)
    requires Inv(s) && Enabled(s, st) && !LosesArray(s, st)
    ensures Inv(Do(s, st))
  {
    IndexedKept(s, st);
    LockedKept(s, st);
    HeapInvKept(s, st);
    forall u ensures Ready(Do(s, st), u) { ReadyKept(s, st, u); }
    forall t, c | (t, c) in Do(s, st).answers ensures Kept(Do(s, st), t, c) { AnswerKept(s, st, t, c); }
  }

  lemma LossBreaks(s: State, st: Step)
    requires LosesArray(s, st)
    ensures !Blocks(Do(s, st).heap)
  {
    assert st.t in Do(s, st).heap.key && s.heap.key[st.t] !in Do(s, st).heap.arrays;
  }

  /** One step keeps the invariant if and only if it does not lose an array. */
  lemma StepKeepsIff(s: State, st: Step)
    requires Inv(s) && Enabled(s, st)
    ensures Inv(Do(s, st)) <==> !LosesArray(s, st)
  {
    if LosesArray(s, st) { LossBreaks(s, st); } else { StepKeeps(s, st); }
  }

  ghost predicate Lossless(s: State, run: seq<Step>)
    requires Possible(s, run)
    decreases |run|
  {
    run != [] ==> !LosesArray(s, run[0]) && Lossless(Do(s, run[0]), run[1..])
  }

  ghost predicate GoodThroughout(s: State, run: seq<Step>)
    decreases |run|
  {
    Inv(s) && (run != [] ==> GoodThroughout(Do(s, run[0]), run[1..]))
  }

  /** Over runs: the invariant holds after every step if and only if no step loses an array. */
  lemma {:induction false} GoodThroughoutIff(s: State, run: seq<Step>)
    requires Inv(s) && Possible(s, run)
    ensures GoodThroughout(s, run) <==> Lossless(s, run)
    decreases |run|
  {
    if run != [] {
      StepKeepsIff(s, run[0]);
      if Inv(Do(s, run[0])) {
        GoodThroughoutIff(Do(s, run[0]), run[1..]);
      }
    }
  }

  lemma {:induction false} RunKeeps(s: State, run: seq<Step>)
    requires Inv(s) && Possible(s, run) && Lossless(s, run)
    ensures Inv(After(s, run))
    decreases |run|
  {
    if run != [] {
      StepKeeps(s, run[0]);
      RunKeeps(Do(s, run[0]), run[1..]);
    }
  }

  // ---- Guarantees over every interleaving -----------------------------------------------------

  lemma {:induction false} IndicesStay(s: State, run: seq<Step>)
    requires Indexed(s)
    ensures Indexed(After(s, run))
    ensures forall c :: c in s.index ==> c in After(s, run).index && After(s, run).index[c] == s.index[c]
    decreases |run|
  {
    if run != [] {
      IndexedKept(s, run[0]);
      forall c | c in s.index ensures c in Do(s, run[0]).index && Do(s, run[0]).index[c] == s.index[c] {
        IndexStays(s, run[0], c);
      }
      IndicesStay(Do(s, run[0]), run[1..]);
    }
  }

  /** Each control has one nonzero index for ever, distinct controls have distinct ones, whatever is
      refused. */
  lemma IndicesOverRuns(run: seq<Step>, more: seq<Step>)
    ensures var s, s' := After(START, run), After(After(START, run), more);
      && (forall c :: c in s.index ==> c in s'.index && s'.index[c] == s.index[c] > 0)
      && (forall c, d :: c in s'.index && d in s'.index && c != d ==> s'.index[c] != s'.index[d])
  {
    IndicesStay(START, run);
    IndicesStay(After(START, run), more);
  }

  /** Different (thread, control) pairs were told different, still allocated objects; no free was
      ever wrong; and when no thread has an array any more nothing is left. */
  lemma ObjectsOverRuns(run: seq<Step>)
    requires Possible(START, run) && Lossless(START, run)
    ensures var s := After(START, run);
      && (forall k, l :: k in s.answers && l in s.answers && k != l ==> s.answers[k] != s.answers[l])
      && (forall k :: k in s.answers ==> s.answers[k] in s.heap.owner)
      && s.heap.badFrees == 0
      && (s.heap.key == map[] ==> s.heap.owner == map[] && s.heap.arrays == map[])
  {
    RunKeeps(START, run);
    var s := After(START, run);
    forall k | k in s.answers
      ensures s.answers[k] in s.heap.owner && k.1 in s.index && s.heap.owner[s.answers[k]] == (k.0, s.index[k.1])
    {
      assert Kept(s, k.0, k.1);
    }
    assert s.heap.key == map[] ==> forall a :: a in s.heap.owner ==> !Filled(s.heap, a);
  }

  lemma AnswersStay(s: State, st: Step, t: Thread, c: Control)
    requires (t, c) in s.answers && st != Exit(t)
    ensures (t, c) in Do(s, st).answers
  {
  }

  predicate Stays(run: seq<Step>, t: Thread) {
    forall i :: 0 <= i < |run| ==> run[i] != Exit(t)
  }

  /** A thread that stays is always told the same address for a control. */
  lemma {:induction false} SameAnswerAlways(s: State, run: seq<Step>, t: Thread, c: Control)
    requires Inv(s) && Possible(s, run) && Lossless(s, run) && Stays(run, t) && (t, c) in s.answers
    ensures (t, c) in After(s, run).answers && After(s, run).answers[(t, c)] == s.answers[(t, c)]
    decreases |run|
  {
    if run != [] {
      assert run[0] != Exit(t);
      StepKeeps(s, run[0]);
      AnswersStay(s, run[0], t, c);
      AnswerKept(s, run[0], t, c);
      assert Stays(run[1..], t);
      SameAnswerAlways(Do(s, run[0]), run[1..], t, c);
    }
  }

  // ---- What an access returns -----------------------------------------------------------------

  /** A control that has its index is accessed without the lock. */
  lemma IndexedSkipsTheLock(s: State, st: Step, c: Control)
    requires Enabled(s, st) && st.Go? && At(s, st.t) == FirstRead(c) && c in s.index
    ensures Do(s, st) == Goto(s, st.t, NeedArray(c, s.index[c]))
  {
  }

  /** The array step goes on exactly when the slot exists or memory and key are granted; otherwise
      the call returns null. */
  lemma ArrayStepIff(s: State, st: Step, c: Control, i: nat)
    requires Enabled(s, st) && st.Go? && At(s, st.t) == NeedArray(c, i)
    ensures var s' := Do(s, st); var granted := |SlotsOf(s.heap, st.t)| >= i || (st.memory && st.keyOk);
      && (At(s', st.t) == NeedObject(c, i) <==> granted)
      && (!granted ==> At(s', st.t) == Outside && st.t in s'.returned && s'.returned[st.t] == 0)
      && s'.answers == s.answers
  {
  }

  /** The object step always returns: the slot's address exactly when the slot was filled or memory
      is granted, and null otherwise. */
  lemma ObjectStepIff(s: State, st: Step, c: Control, i: nat)
    requires Inv(s) && Enabled(s, st) && st.Go? && At(s, st.t) == NeedObject(c, i)
    ensures 1 <= i <= |SlotsOf(s.heap, st.t)|
    ensures var s', t := Do(s, st), st.t; var granted := SlotsOf(s.heap, t)[i - 1] != 0 || st.memory;
      && At(s', t) == Outside && t in s'.returned && (s'.returned[t] != 0 <==> granted)
      && (granted ==>
            && (t, c) in s'.answers && s'.answers[(t, c)] == s'.returned[t]
            && i <= |SlotsOf(s'.heap, t)| && SlotsOf(s'.heap, t)[i - 1] == s'.returned[t])
      && (!granted ==> s'.answers == s.answers && s'.heap == s.heap)
  {
    assert Ready(s, st.t);
    FillSlots(s.heap, st.t, i, st.block);
  }

  /** The thread is inside a call for control `c`. */
  predicate Accessing(s: State, t: Thread, c: Control) {
    !At(s, t).Outside? && At(s, t).c == c
  }

  /** The thread's call returned the address it is told for `c`, not null. */
  predicate Answered(s: State, t: Thread, c: Control) {
    && At(s, t).Outside? && (t, c) in s.answers && t in s.returned
    && s.returned[t] == s.answers[(t, c)] != 0
  }

  /** How many steps of its own a call still takes, at most. */
  function Distance(pc: Pc): nat {
    match pc
    case Outside => 0
    case FirstRead(_) => 6
    case WantLock(_) => 5
    case SecondRead(_) => 4
    case Unlock(_, _) => 3
    case NeedArray(_, _) => 2
    case NeedObject(_, _) => 1
  }

  lemma OwnStep(s: State, st: Step, c: Control)
    requires Inv(s) && Enabled(s, st) && st.Go? && Accessing(s, st.t, c)
    ensures var s' := Do(s, st);
      && Distance(At(s', st.t)) < Distance(At(s, st.t))
      && (st.memory && st.keyOk ==> Accessing(s', st.t, c) || Answered(s', st.t, c))
  {
    match At(s, st.t)
    case NeedArray(_, i) => ArrayStepIff(s, st, c, i);
    case NeedObject(_, i) => ObjectStepIff(s, st, c, i);
    case _ =>
  }

  lemma OthersStep(s: State, st: Step, t: Thread, c: Control)
    requires Inv(s) && Enabled(s, st) && !LosesArray(s, st) && st.t != t
    ensures At(Do(s, st), t) == At(s, t)
    ensures Accessing(s, t, c) ==> Accessing(Do(s, st), t, c)
    ensures Answered(s, t, c) ==> Answered(Do(s, st), t, c)
  {
    PcStays(s, st, t);
    OthersReturn(s, st, t);
    if Answered(s, t, c) {
      AnswersStay(s, st, t, c);
      AnswerKept(s, st, t, c);
    }
  }

  lemma OthersReturn(s: State, st: Step, t: Thread)
    requires st.t != t
    ensures t in s.returned ==> t in Do(s, st).returned && Do(s, st).returned[t] == s.returned[t]
  {
  }

  /** The steps of thread `t` in a run are those of one call, and none is refused anything. */
  predicate OneGrantedCall(run: seq<Step>, t: Thread) {
    forall i :: 0 <= i < |run| && run[i].t == t ==> run[i].Go? && run[i].memory && run[i].keyOk
  }

  function OwnSteps(run: seq<Step>, t: Thread): nat {
    if run == [] then 0 else (if run[0].t == t then 1 else 0) + OwnSteps(run[1..], t)
  }

  /** A call that is refused nothing returns the thread's address for the control after at most six
      steps of its own, and never null, whatever the other threads do. */
  lemma {:induction false} AccessIsAnswered(s: State, run: seq<Step>, t: Thread, c: Control)
    requires Inv(s) && Possible(s, run) && Lossless(s, run) && OneGrantedCall(run, t)
    requires Accessing(s, t, c) || Answered(s, t, c)
    ensures Accessing(After(s, run), t, c) || Answered(After(s, run), t, c)
    ensures Distance(At(After(s, run), t)) + OwnSteps(run, t) <= Distance(At(s, t))
    decreases |run|
  {
    if run != [] {
      var st, m := run[0], Do(s, run[0]);
      StepKeeps(s, st);
      if st.t == t { OwnStep(s, st, c); } else { OthersStep(s, st, t, c); }
      assert OneGrantedCall(run[1..], t);
      AccessIsAnswered(m, run[1..], t, c);
    }
  }

  /** From every state that a run without a loss reaches: a call that is refused nothing has at most
      six steps, and when it has returned, it has returned the thread's address for the control. */
  lemma GrantedCallReturns(run: seq<Step>, t: Thread, c: Control, more: seq<Step>)
    requires Possible(START, run) && Lossless(START, run) && Enabled(After(START, run), Enter(t, c))
    requires var s := Do(After(START, run), Enter(t, c)); Possible(s, more) && Lossless(s, more)
    requires OneGrantedCall(more, t)
    ensures var end := After(Do(After(START, run), Enter(t, c)), more);
      && OwnSteps(more, t) <= 6 && (OwnSteps(more, t) == 6 ==> At(end, t) == Outside)
      && (At(end, t) == Outside ==> Answered(end, t, c))
  {
    RunKeeps(START, run);
    StepKeeps(After(START, run), Enter(t, c));
    AccessIsAnswered(Do(After(START, run), Enter(t, c)), more, t, c);
  }

  // ---- When the key refuses the array ---------------------------------------------------------

  /** Every loss is fatal: once its thread ends, a freed block is freed again, and the thread's
      objects stay allocated although nothing names them. */
  lemma LossIsFatal(s: State, st: Step)
    requires Inv(s) && Enabled(s, st) && LosesArray(s, st)
    ensures At(Do(s, st), st.t) == Outside
    ensures var end := Do(Do(s, st), Exit(st.t)).heap;
      end.badFrees == 1 && end.owner == s.heap.owner && st.t !in end.key
  {
    var h := Do(s, st).heap;
    assert h.key[st.t] !in h.arrays && SlotsOf(h, st.t) == [];
  }

  /** A first access up to the array: the index is assigned under the lock. */
  function Access(t: Thread, c: Control): seq<Step> {
    [Enter(t, c), Go(t, 0, true, true), Go(t, 0, true, true), Go(t, 0, true, true), Go(t, 0, true, true)]
  }

  function Accessed(s: State, t: Thread, c: Control): State {
    Goto(s, t, NeedArray(c, s.next + 1)).(next := s.next + 1, index := s.index[c := s.next + 1])
  }

  lemma {:induction false} Joined(s: State, a: seq<Step>, b: seq<Step>)
    requires Possible(s, a) && Lossless(s, a) && Possible(After(s, a), b) && Lossless(After(s, a), b)
    ensures Possible(s, a + b) && Lossless(s, a + b) && After(s, a + b) == After(After(s, a), b)
    decreases |a|
  {
    if a == [] {
      assert a + b == b;
    } else {
      assert (a + b)[1..] == a[1..] + b;
      Joined(Do(s, a[0]), a[1..], b);
    }
  }

  /** The step is possible, loses nothing and leads from `s` to `s'`. */
  ghost predicate Leads(s: State, st: Step, s': State) {
    Enabled(s, st) && !LosesArray(s, st) && Do(s, st) == s'
  }

  /** `states` are the states of a run, one more than it has steps. */
  lemma {:induction false} Trace(states: seq<State>, run: seq<Step>)
    requires |states| == |run| + 1 && forall i :: 0 <= i < |run| ==> Leads(states[i], run[i], states[i + 1])
    ensures Possible(states[0], run) && Lossless(states[0], run) && After(states[0], run) == states[|run|]
    decreases |run|
  {
    if run != [] {
      assert Leads(states[0], run[0], states[1]);
      forall i | 0 <= i < |run[1..]| ensures Leads(states[1..][i], run[1..][i], states[1..][i + 1]) {
        assert Leads(states[i + 1], run[i + 1], states[i + 2]);
      }
      Trace(states[1..], run[1..]);
    }
  }

  lemma FirstHalf(s: State, t: Thread, c: Control)
    requires At(s, t) == Outside && s.lock == None && c !in s.index
    ensures Leads(s, Enter(t, c), Goto(s, t, FirstRead(c)))
    ensures Leads(Goto(s, t, FirstRead(c)), Go(t, 0, true, true), Goto(s, t, WantLock(c)))
    ensures Leads(Goto(s, t, WantLock(c)), Go(t, 0, true, true), Goto(s, t, SecondRead(c)).(lock := Some(t)))
  {
    assert forall p, q :: Goto(Goto(s, t, p), t, q) == Goto(s, t, q);
  }

  /** The lock held, and the next index given to `c`. */
  function Numbered(s: State, t: Thread, c: Control): State {
    Goto(s, t, Unlock(c, s.next + 1)).(lock := Some(t), next := s.next + 1, index := s.index[c := s.next + 1])
  }

  lemma AssignLeads(s: State, t: Thread, c: Control, locked: State)
    requires c !in s.index && locked == Goto(s, t, SecondRead(c)).(lock := Some(t))
    ensures Leads(locked, Go(t, 0, true, true), Numbered(s, t, c))
  {
    assert At(locked, t) == SecondRead(c);
    assert Goto(Goto(s, t, SecondRead(c)), t, Unlock(c, s.next + 1)) == Goto(s, t, Unlock(c, s.next + 1));
  }

  lemma UnlockLeads(s: State, t: Thread, c: Control)
    requires s.lock == None
    ensures Leads(Numbered(s, t, c), Go(t, 0, true, true), Accessed(s, t, c))
  {
    var i := s.next + 1;
    assert At(Numbered(s, t, c), t) == Unlock(c, i);
    assert Goto(Goto(s, t, Unlock(c, i)), t, NeedArray(c, i)) == Goto(s, t, NeedArray(c, i));
  }

  lemma AccessRuns(s: State, t: Thread, c: Control)
    requires At(s, t) == Outside && s.lock == None && c !in s.index
    ensures Possible(s, Access(t, c)) && Lossless(s, Access(t, c)) && After(s, Access(t, c)) == Accessed(s, t, c)
  {
    var locked := Goto(s, t, SecondRead(c)).(lock := Some(t));
    FirstHalf(s, t, c);
    AssignLeads(s, t, c, locked);
    UnlockLeads(s, t, c);
    Trace([s, Goto(s, t, FirstRead(c)), Goto(s, t, WantLock(c)), locked, Numbered(s, t, c), Accessed(s, t, c)], Access(t, c));
  }

  /** One thread uses one control, its array at 100 and its object at 200, and then another. */
  const TWO_USES: seq<Step> := Access(0, 1) + ([Go(0, 100, true, true), Go(0, 200, true, true)] + Access(0, 2))

  /** The thread after its first use of control 1. */
  const USED_ONCE := State(map[1 := 1], 1, None, Heap(map[0 := 100], map[100 := Block(0, [200])], map[200 := (0, 1)], 0),
                           map[(0, 1) := 200], map[0 := 200], map[0 := Outside])

  lemma FirstUse()
    ensures var s1 := Accessed(START, 0, 1); var s2 := Do(s1, Go(0, 100, true, true));
      Leads(s1, Go(0, 100, true, true), s2) && Leads(s2, Go(0, 200, true, true), USED_ONCE)
  {
    var s2 := Do(Accessed(START, 0, 1), Go(0, 100, true, true));
    assert s2.heap.arrays[100].slots == [0] && SlotsOf(s2.heap, 0) == [0];
    assert [0][0 := 200] == [200];
  }

  lemma TwoUses()
    ensures Possible(START, TWO_USES) && Lossless(START, TWO_USES) && After(START, TWO_USES) == Accessed(USED_ONCE, 0, 2)
  {
    var s1 := Accessed(START, 0, 1);
    var uses := [Go(0, 100, true, true), Go(0, 200, true, true)];
    AccessRuns(START, 0, 1);
    FirstUse();
    Trace([s1, Do(s1, Go(0, 100, true, true)), USED_ONCE], uses);
    AccessRuns(USED_ONCE, 0, 2);
    Joined(s1, uses, Access(0, 2));
    Joined(START, Access(0, 1), uses + Access(0, 2));
  }

  /** A run from the start in which the second use is refused its key: the thread's end frees the
      block at 100 again, and the object at 200 is never freed. */
  lemma RefusedKeyRun()
    ensures Possible(START, TWO_USES) && Lossless(START, TWO_USES)
    ensures var s, st := After(START, TWO_USES), Go(0, 101, true, false);
      && Enabled(s, st) && LosesArray(s, st) && Enabled(Do(s, st), Exit(0))
      && var end := Do(Do(s, st), Exit(0)).heap;
         end.badFrees == 1 && end.key == map[] && 200 in end.owner
  {
    TwoUses();
    RunKeeps(START, TWO_USES);
    Refused(After(START, TWO_USES), Go(0, 101, true, false));
  }

  lemma Refused(s: State, st: Step)
    requires Inv(s) && s == Accessed(USED_ONCE, 0, 2) && st == Go(0, 101, true, false)
    ensures Enabled(s, st) && LosesArray(s, st) && Enabled(Do(s, st), Exit(0))
    ensures var end := Do(Do(s, st), Exit(0)).heap; end.badFrees == 1 && end.key == map[] && 200 in end.owner
  {
    LossIsFatal(s, st);
    assert Do(s, st).heap.key == s.heap.key && s.heap.key - {0} == map[];
  }

  // ---- The arrays in place --------------------------------------------------------------------

  /** A thread's array: element 0 is the number of slots, slot `i` is element `i`. */
  ghost predicate IsSlotArray(a: array<Address>)
    reads a
  {
    a.Length >= 1 && a[0] == a.Length - 1
  }

  /** emutls_array_for: nothing is copied when the slot exists; otherwise the old slots are kept, the
      new ones are empty and the count is right, unless memory or the key refuses. `key` is what the
      key holds afterwards; it is a freed block exactly when `dangling`. */
  method ArrayForIndex(a: array?<Address>, index: nat, memory: bool, keyOk: bool)
    returns (r: array?<Address>, key: array?<Address>, dangling: bool)
    requires index > 0 && (a != null ==> IsSlotArray(a))
    ensures r == null <==> (a == null || index > a[0]) && !(memory && keyOk)
    ensures r != null ==> IsSlotArray(r) && index <= r[0] && r[1..] == Grow(if a == null then [] else old(a[1..]), index)
    ensures r != null ==> if a != null && index <= a[0] then r == a else fresh(r)
    ensures key == if r == null then a else r
    ensures dangling <==> a != null && index > a[0] && memory && !keyOk
  {
    key, dangling := a, false;
    var have := if a != null then a[0] else 0;
    if have >= index {
      return a, a, false;
    }
    if !memory {
      return null, a, false;
    }
    var grown := new Address[index + 1](_ => 0); // realloc: from here on the block `a` is gone
    dangling := a != null;
    for i := 1 to have + 1
      invariant a != null ==> a[..] == old(a[..])
      invariant forall k :: 1 <= k < i ==> grown[k] == a[k]
      invariant forall k :: i <= k < grown.Length ==> grown[k] == 0
    {
      grown[i] := a[i];
    }
    grown[0] := index;
    assert grown[1..] == Grow(if a == null then [] else a[1..], index);
    if !keyOk {
      return null, key, dangling;
    }
    return grown, grown, false;
  }

  /** emutls_thread_cleanup: one free per slot, in slot order. */
  method ThreadCleanup(a: array<Address>, owner: map<Address, (Thread, nat)>)
    returns (left: map<Address, (Thread, nat)>, bad: nat)
    requires IsSlotArray(a)
    ensures (left, bad) == FreeAll(owner, a[1..], 0)
  {
    left, bad := owner, 0;
    for i := 1 to a[0] + 1
      invariant FreeAll(left, a[i..], bad) == FreeAll(owner, a[1..], 0)
    {
      assert a[i..][1..] == a[i + 1..];
      if a[i] != 0 {
        if a[i] in left {
          left := left - {a[i]};
        } else {
          bad := bad + 1;
        }
      }
    }
  }
}
