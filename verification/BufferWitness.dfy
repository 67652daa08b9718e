/** Runs of the buffer manager in which every call but the last is safe, one for each way in which a
    map can break the invariant. */
module BufferWitness {
  import opened Wrappers
  import opened PlatformMemory
  import opened BufferModel
  import opened BufferInvariant
  import opened BufferTheorems

  const HERE: nat := 0x10_0000
  const THERE: nat := 0x20_0000
  const RO := Prot(true, false, true, false)

  function Want(va: nat): Op {
    GemVaOp(1, 0, MapOp, va, 0, true, false, true)
  }

  /** A buffer is mapped at HERE and closed; another is mapped at THERE and unmapped. */
  const SETUP: seq<Op> := [
    CreateOp(PAGE, PAGE, 0, 0, Some(0)), Want(HERE), CloseOp(1),
    CreateOp(PAGE, PAGE, 0, 0, Some(PAGE)), Want(THERE), GemVaOp(1, 0, UnmapOp, 0, 0, true, false, true)]

  function Bo(phys: int, va: nat, prot: Prot): Buffer {
    Buffer(true, PAGE, PAGE, 0, phys, va, 0, 0, prot)
  }

  function M0(): Memory { Allocate(FRESH_MEMORY, 0, PAGE) }
  function M1(): Memory { Map(M0(), HERE, PAGE, 0, RO) }
  function M2(): Memory { Allocate(M1(), PAGE, PAGE) }
  function M3(): Memory { Map(M2(), THERE, PAGE, PAGE, RO) }

  const R0 := Range(true, true, RO, HERE, PAGE, 0, 1)
  const R1 := Range(true, false, RO, THERE, PAGE, PAGE, 2)

  const S1 := START.(bos := START.bos[0 := Bo(0, 0, NO_PROT)], mem := M0())
  const S2 := START.(bos := START.bos[0 := Bo(0, HERE, RO)], mem := M1())
  const S3 := START.(kept := START.kept[0 := R0], lastSeq := 1, bytes := PAGE, mem := M1())
  const S4 := S3.(bos := START.bos[0 := Bo(PAGE, 0, NO_PROT)], mem := M2())
  const S5 := S3.(bos := START.bos[0 := Bo(PAGE, THERE, RO)], mem := M3())
  const S6 := S3.(bos := START.bos[0 := Bo(PAGE, 0, RO)], kept := START.kept[0 := R0][1 := R1],
                  lastSeq := 2, bytes := 2 * PAGE, mem := M3())

  lemma Step1()
    ensures Lawful(START, SETUP[0]) && Behaved(START, SETUP[0]) && Apply(START, SETUP[0]) == S1
  {
  }

  lemma Step2()
    ensures Lawful(S1, SETUP[1]) && Behaved(S1, SETUP[1]) && Apply(S1, SETUP[1]) == S2
  {
    assert FirstKeepable(S1.kept, S1.bos[0], HERE, PAGE, RO) == |S1.kept|;
    NothingOverlaps(S1, 0, HERE, PAGE);
    assert ClearOfLive(S1, HERE, PAGE);
    assert S2.bos == S1.bos[0 := Bo(0, HERE, RO)];
  }

  lemma Step3()
    ensures Lawful(S2, SETUP[2]) && Behaved(S2, SETUP[2]) && Apply(S2, SETUP[2]) == S3
  {
  }

  lemma Step4()
    ensures Lawful(S3, SETUP[3]) && Behaved(S3, SETUP[3]) && Apply(S3, SETUP[3]) == S4
  {
  }

  lemma Step5()
    ensures Lawful(S4, SETUP[4]) && Behaved(S4, SETUP[4]) && Apply(S4, SETUP[4]) == S5
  {
    assert FirstKeepable(S4.kept, S4.bos[0], THERE, PAGE, RO) == |S4.kept|;
    NothingOverlaps(S4, 0, THERE, PAGE);
    assert ClearOfLive(S4, THERE, PAGE);
    assert S5.bos == S4.bos[0 := Bo(PAGE, THERE, RO)];
  }

  lemma Step6()
    ensures Lawful(S5, SETUP[5]) && Behaved(S5, SETUP[5]) && Apply(S5, SETUP[5]) == S6
  {
    assert S5.kept[0] == R0 && !S5.kept[1].used;
    assert FirstFree(S5.kept) == 1;
    assert S6.bos == S5.bos[0 := Bo(PAGE, 0, RO)];
  }

  /** The last map takes the retained range at HERE over, and frees the block the retained range
      at THERE still maps. */
  lemma LastStep()
    ensures var s := Apply(S6, Want(HERE));
      && s.kept[1] == R1 && THERE in s.mem.table
      && forall p :: p in s.mem.blocks ==> !(p <= s.mem.table[THERE].frame < p + s.mem.blocks[p])
  {
  }

  lemma RunUnfold(s: State, op: Op, ops: seq<Op>)
    ensures Run(s, [op] + ops) == Run(Apply(s, op), ops)
    ensures AllLawful(s, [op] + ops) <==> Lawful(s, op) && AllLawful(Apply(s, op), ops)
    ensures AllBehaved(s, [op] + ops) <==> Behaved(s, op) && AllBehaved(Apply(s, op), ops)
  {
  }

  lemma SetupRuns()
    ensures AllLawful(START, SETUP) && AllBehaved(START, SETUP) && Run(START, SETUP) == S6
  {
    Step1(); Step2(); Step3(); Step4(); Step5(); Step6();
    RunUnfold(S5, SETUP[5], []);
    RunUnfold(S4, SETUP[4], [SETUP[5]]);
    RunUnfold(S3, SETUP[3], [SETUP[4], SETUP[5]]);
    RunUnfold(S2, SETUP[2], [SETUP[3], SETUP[4], SETUP[5]]);
    RunUnfold(S1, SETUP[1], [SETUP[2], SETUP[3], SETUP[4], SETUP[5]]);
    RunUnfold(START, SETUP[0], [SETUP[1], SETUP[2], SETUP[3], SETUP[4], SETUP[5]]);
  }

  /** A lawful, harmless run after which one more map leaves a mapped byte on a freed page. */
  lemma TakeOverByAnOldBuffer()
    ensures AllLawful(START, SETUP) && AllBehaved(START, SETUP)
    ensures var s := Apply(Run(START, SETUP), Want(HERE));
      && THERE in s.mem.table
      && forall p :: p in s.mem.blocks ==> !(p <= s.mem.table[THERE].frame < p + s.mem.blocks[p])
  {
    SetupRuns();
    LastStep();
  }

  // ---- Fresh maps with nothing retained -------------------------------------------------------

  lemma FreshMapIs(s: State, handle: nat, va: nat, n: nat, writeable: bool)
    requires LiveHandle(s, handle) && MapSize(s.bos[handle - 1], n) <= s.bos[handle - 1].size
    requires va + MapSize(s.bos[handle - 1], n) < TWO64 && forall j :: 0 <= j < |s.kept| ==> !s.kept[j].used
    ensures Apply(s, GemVaOp(handle, 0, MapOp, va, n, true, writeable, true))
         == MapFresh(s, handle - 1, va, MapSize(s.bos[handle - 1], n), ProtOf(true, writeable))
  {
    var b := s.bos[handle - 1];
    assert FirstKeepable(s.kept, b, va, MapSize(b, n), ProtOf(true, writeable)) == |s.kept|;
    NothingOverlaps(s, 0, va, MapSize(b, n));
  }

  /** A buffer of two pages. */
  const TWO_PAGES: seq<Op> := [CreateOp(2 * PAGE, PAGE, 0, 0, Some(0))]

  /** The map of one page of it leaves its second page claimed but not mapped. */
  lemma ShortMapRun()
    ensures AllLawful(START, TWO_PAGES) && AllBehaved(START, TWO_PAGES)
    ensures var s := Apply(Run(START, TWO_PAGES), GemVaOp(1, 0, MapOp, HERE, PAGE, true, false, true));
      Mapped(s, Gpu(0)) && Covers(WindowOf(s, Gpu(0)), HERE + PAGE) && HERE + PAGE !in s.mem.table
  {
    RunUnfold(START, TWO_PAGES[0], []);
    var s := Apply(START, TWO_PAGES[0]);
    assert s.bos[0] == Bo(0, 0, NO_PROT).(size := 2 * PAGE);
    FreshMapIs(s, 1, HERE, PAGE, false);
  }

  const S1W := START.(bos := START.bos[0 := Bo(0, 0, NO_PROT).(size := 2 * PAGE)], mem := Allocate(FRESH_MEMORY, 0, 2 * PAGE))
  const S2W := START.(bos := START.bos[0 := Bo(0, HERE, RO).(size := 2 * PAGE)],
                      mem := Map(Allocate(FRESH_MEMORY, 0, 2 * PAGE), HERE, 2 * PAGE, 0, RO))

  lemma WholeMap()
    ensures Lawful(S1W, Want(HERE)) && Behaved(S1W, Want(HERE)) && Apply(S1W, Want(HERE)) == S2W
  {
    FreshMapIs(S1W, 1, HERE, 0, false);
    assert ClearOfLive(S1W, HERE, 2 * PAGE);
    assert S2W.bos == S1W.bos[0 := S2W.bos[0]];
  }

  /** Mapped whole and then in part with other rights, the rest of the buffer keeps the old ones. */
  lemma PartialRightsRun()
    ensures var ops := TWO_PAGES + [Want(HERE)]; AllLawful(START, ops) && AllBehaved(START, ops)
    ensures var s := Apply(Run(START, TWO_PAGES + [Want(HERE)]), GemVaOp(1, 0, MapOp, HERE, PAGE, true, true, true));
      && Mapped(s, Gpu(0)) && Covers(WindowOf(s, Gpu(0)), HERE + PAGE) && WindowOf(s, Gpu(0)).prot.gpuWrite
      && HERE + PAGE in s.mem.table && !s.mem.table[HERE + PAGE].prot.gpuWrite
  {
    RunUnfold(START, TWO_PAGES[0], []);
    assert Run(START, TWO_PAGES) == S1W;
    WholeMap();
    RunSnoc(START, TWO_PAGES, Want(HERE));
    FreshMapIs(S2W, 1, HERE, PAGE, true);
  }

  lemma ZeroAddressRun()
    ensures AllLawful(START, SETUP[..1]) && AllBehaved(START, SETUP[..1])
    ensures var s := Apply(Run(START, SETUP[..1]), Want(0));
      0 in s.mem.table && forall x :: !Mapped(s, x)
  {
    Step1();
    RunUnfold(START, SETUP[0], []);
    assert SETUP[..1] == [SETUP[0]] + [];
    FreshMapIs(S1, 1, 0, 0, false);
  }

  lemma MappedHere()
    ensures AllLawful(START, SETUP[..2]) && AllBehaved(START, SETUP[..2]) && Run(START, SETUP[..2]) == S2
  {
    Step1();
    Step2();
    RunUnfold(S1, SETUP[1], []);
    RunUnfold(START, SETUP[0], [SETUP[1]]);
    assert SETUP[..2] == [SETUP[0]] + [SETUP[1]];
  }

  /** Mapped elsewhere without an unmap, a buffer forgets a range that stays mapped. */
  lemma RemapRun()
    ensures AllLawful(START, SETUP[..2]) && AllBehaved(START, SETUP[..2])
    ensures var s := Apply(Run(START, SETUP[..2]), Want(THERE));
      HERE in s.mem.table && forall x :: Mapped(s, x) ==> !Covers(WindowOf(s, x), HERE)
  {
    MappedHere();
    FreshMapIs(S2, 1, THERE, 0, false);
    OnlyThere(MapFresh(S2, 0, THERE, PAGE, RO));
  }

  lemma OnlyThere(s: State)
    requires s == MapFresh(S2, 0, THERE, PAGE, RO)
    ensures HERE in s.mem.table && forall x :: Mapped(s, x) ==> !Covers(WindowOf(s, x), HERE)
  {
    assert HERE in S2.mem.table;
    forall x | Mapped(s, x) ensures x == Gpu(0) {
      assert !x.Kept?;
    }
  }

  /** A second buffer beside the one mapped at HERE. */
  const TWO_BUFFERS: seq<Op> := SETUP[..2] + [CreateOp(PAGE, PAGE, 0, 0, Some(PAGE))]

  const S2B := S2.(bos := S2.bos[1 := Bo(PAGE, 0, NO_PROT)], mem := M2())

  lemma SecondBuffer()
    ensures var op := CreateOp(PAGE, PAGE, 0, 0, Some(PAGE)); Lawful(S2, op) && Behaved(S2, op) && Apply(S2, op) == S2B
  {
    assert S2.bos[0].live && !S2.bos[1].live;
    assert FirstDead(S2.bos) == 1;
  }

  lemma {:induction false} RunSnoc(s: State, ops: seq<Op>, op: Op)
    requires AllLawful(s, ops) && AllBehaved(s, ops) && Lawful(Run(s, ops), op) && Behaved(Run(s, ops), op)
    ensures AllLawful(s, ops + [op]) && AllBehaved(s, ops + [op]) && Run(s, ops + [op]) == Apply(Run(s, ops), op)
    decreases |ops|
  {
    if ops == [] {
      RunUnfold(s, op, []);
      assert ops + [op] == [op] + [];
    } else {
      RunSnoc(Apply(s, ops[0]), ops[1..], op);
      RunUnfold(s, ops[0], ops[1..] + [op]);
      assert ops + [op] == [ops[0]] + (ops[1..] + [op]);
    }
  }

  /** Mapped at the same address, a second buffer takes the first one's bytes away: both claim HERE,
      and it shows the second one's pages. */
  lemma CollisionRun()
    ensures AllLawful(START, TWO_BUFFERS) && AllBehaved(START, TWO_BUFFERS)
    ensures var s := Apply(Run(START, TWO_BUFFERS), GemVaOp(2, 0, MapOp, HERE, 0, true, false, true));
      && Mapped(s, Gpu(0)) && Covers(WindowOf(s, Gpu(0)), HERE) && !TranslatedBy(s, WindowOf(s, Gpu(0)), HERE)
      && Mapped(s, Gpu(1)) && Covers(WindowOf(s, Gpu(1)), HERE) && TranslatedBy(s, WindowOf(s, Gpu(1)), HERE)
  {
    MappedHere();
    SecondBuffer();
    RunSnoc(START, SETUP[..2], CreateOp(PAGE, PAGE, 0, 0, Some(PAGE)));
    FreshMapIs(S2B, 2, HERE, 0, false);
  }
}
