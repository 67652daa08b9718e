/** What stays the same: translations, eviction order, accounting, and the agreement of the CPU's
    and the GPU's view of a buffer. */
module BufferStability {
  import opened Wrappers
  import opened PlatformMemory
  import opened BufferModel
  import opened BufferInvariant
  import opened BufferSteps
  import opened BufferTheorems

  // ---- Eviction order -------------------------------------------------------------------------

  /** `s'` keeps a subset of the ranges of `s`, and every range it lost is older than every range
      it kept. */
  ghost predicate YoungestSurvive(s: State, s': State) {
    && |s'.kept| == |s.kept|
    && (forall k :: 0 <= k < |s.kept| && s'.kept[k].used ==>
          s.kept[k].used && s'.kept[k].(ownsPhys := true) == s.kept[k].(ownsPhys := true))
    && (forall j, k :: 0 <= j < |s.kept| && 0 <= k < |s.kept| && s.kept[j].used && !s'.kept[j].used && s'.kept[k].used ==>
          s.kept[j].seqNo < s.kept[k].seqNo)
  }

  lemma ReleaseOldestOrder(s: State)
    requires Counted(s)
    ensures YoungestSurvive(s, ReleaseOldest(s)) && Counted(ReleaseOldest(s))
  {
    var j := Oldest(s.kept);
    if j < |s.kept| {
      ReleaseKept(s, j);
      ReleaseCounted(s, j);
    }
  }

  lemma SurviveTrans(s: State, m: State, s': State)
    requires YoungestSurvive(s, m) && YoungestSurvive(m, s')
    ensures YoungestSurvive(s, s')
  {
  }

  lemma {:induction false} EvictOrder(s: State, size: nat)
    requires Counted(s)
    ensures YoungestSurvive(s, EvictFor(s, size)) && Counted(EvictFor(s, size))
    decreases UsedCount(s.kept)
  {
    if Add64(s.bytes, size) > RETAINED_BYTES && s.bytes > 0 && Oldest(s.kept) < |s.kept| {
      ReleaseOldestOrder(s);
      ReleaseCount(s, Oldest(s.kept));
      EvictOrder(ReleaseOldest(s), size);
      SurviveTrans(s, ReleaseOldest(s), EvictFor(s, size));
    }
  }

  /** Making room evicts strictly in the order of retention. */
  lemma RoomOrder(s: State, size: nat)
    requires Counted(s)
    ensures YoungestSurvive(s, MakeRoom(s, size))
  {
    EvictOrder(s, size);
    ReleaseOldestOrder(EvictFor(s, size));
    SurviveTrans(s, EvictFor(s, size), MakeRoom(s, size));
  }

  /** Nothing was evicted, or with one of the evicted ranges the new bytes would not have fitted. */
  ghost predicate NoneNeedless(s: State, s': State, size: nat) {
    s' == s || exists j :: 0 <= j < |s.kept| && Victim(s, s', j) && s'.bytes + s.kept[j].size + size > RETAINED_BYTES
  }

  lemma NeedlessStep(s: State, s': State, size: nat)
    requires Counted(s) && Oldest(s.kept) < |s.kept| && size < TWO63 && Add64(s.bytes, size) > RETAINED_BYTES
    requires NoneNeedless(ReleaseOldest(s), s', size) && YoungestSurvive(ReleaseOldest(s), s')
    ensures NoneNeedless(s, s', size)
  {
    var j, m := Oldest(s.kept), ReleaseOldest(s);
    CountedBound(s);
    ReleaseKept(s, j);
    ReleaseCounted(s, j);
    if s' == m {
      assert Victim(s, s', j);
    } else {
      var k :| 0 <= k < |m.kept| && Victim(m, s', k) && s'.bytes + m.kept[k].size + size > RETAINED_BYTES;
      assert Victim(s, s', k) && s.kept[k].size == m.kept[k].size;
    }
  }

  /** The eviction loop does not go on for longer than needed: with the last range it evicted the new
      bytes would not have fitted. */
  lemma {:induction false} EvictOnlyIfNeeded(s: State, size: nat)
    requires Counted(s) && size < TWO63
    ensures NoneNeedless(s, EvictFor(s, size), size)
    decreases UsedCount(s.kept)
  {
    if Add64(s.bytes, size) > RETAINED_BYTES && s.bytes > 0 && Oldest(s.kept) < |s.kept| {
      ReleaseCount(s, Oldest(s.kept));
      ReleaseOldestOrder(s);
      EvictOnlyIfNeeded(ReleaseOldest(s), size);
      EvictOrder(ReleaseOldest(s), size);
      NeedlessStep(s, EvictFor(s, size), size);
    }
  }

  lemma NothingEvictedThatFits(s: State, size: nat)
    requires s.bytes + size <= RETAINED_BYTES && FirstFree(s.kept) < |s.kept|
    ensures MakeRoom(s, size) == s
  {
  }

  predicate Victim(s: State, s': State, j: nat) {
    j < |s.kept| && j < |s'.kept| && s.kept[j].used && !s'.kept[j].used
  }

  // ---- Handles --------------------------------------------------------------------------------

  /** Buffer `i` aside, the handle table is the same. */
  ghost predicate OnlyBufferChanged(s: State, s': State, i: int) {
    |s'.bos| == |s.bos| && forall k :: 0 <= k < |s.bos| && k != i ==> s'.bos[k] == s.bos[k]
  }

  /** A create succeeds exactly when the rounded size is not zero, a handle is free and the platform
      has memory; it takes the lowest free handle for a new, unmapped buffer of at least that size. */
  lemma CreateOutcome(s: State, boSize: nat, alignment: nat, domains: nat, flags: nat, block: Option<int>)
    requires boSize < TWO64
    ensures var (s', status, h) := Create(s, boSize, alignment, domains, flags, block);
      && (status == Ok <==> 0 < boSize <= TWO64 - PAGE && (exists i :: 0 <= i < |s.bos| && !s.bos[i].live) && block.Some?)
      && (status != Ok ==> s' == s && h == 0)
      && (status == EINVAL <==> boSize == 0 || boSize > TWO64 - PAGE) && status != ENOSYS
      && (status == Ok ==>
            && 0 < h <= |s.bos| && !LiveHandle(s, h) && (forall k :: 0 < k < h ==> LiveHandle(s, k))
            && LiveHandle(s', h) && OnlyBufferChanged(s, s', h - 1) && s'.kept == s.kept
            && boSize <= s'.bos[h - 1].size < boSize + PAGE
            && s'.bos[h - 1].alignment == (if alignment > PAGE then alignment else PAGE)
            && s'.bos[h - 1].domain == domains % 0x1_0000_0000 && s'.bos[h - 1].domainFlags == flags
            && s'.bos[h - 1].gpuProt == s.bos[h - 1].gpuProt
            && s'.bos[h - 1].gpuVa == 0 && s'.bos[h - 1].cpuPtr == 0 && s'.bos[h - 1].phys == block.value
            && s'.mem == Allocate(s.mem, block.value, s'.bos[h - 1].size))
  {
    var i := FirstDead(s.bos);
    assert i < |s.bos| ==> !s.bos[i].live;
    assert boSize > TWO64 - PAGE ==> RoundUpPage(boSize) == 0;
  }

  /** Close and unmap touch no other buffer, whatever they evict. */
  lemma CloseOutcome(s: State, handle: nat)
    requires LiveHandle(s, handle)
    ensures var s' := Close(s, handle).0; s'.bos[handle - 1] == DEAD && OnlyBufferChanged(s, s', handle - 1)
    ensures var s' := VaUnmap(s, handle).0;
      && OnlyBufferChanged(s, s', handle - 1) && s'.bos[handle - 1] == s.bos[handle - 1].(gpuVa := 0)
  {
  }

  // ---- Accounting, whatever the driver does ---------------------------------------------------

  ghost predicate Sane(s: State) {
    Tables(s) && Counted(s) && forall i :: 0 <= i < |s.bos| ==> Sized(s.bos[i])
  }

  predicate Sized(b: Buffer) {
    b.live ==> 0 < b.size < TWO63
  }

  lemma RetainSane(s: State, i: nat, va: nat, phys: int, prot: Prot, owns: bool)
    requires Sane(s) && i < |s.bos| && s.bos[i].live
    ensures Sane(Retain(s, va, s.bos[i].size, phys, prot, owns))
  {
    RoomMade(s, s.bos[i].size);
    var m := MakeRoom(s, s.bos[i].size);
    PutCounted(m, FirstFree(m.kept), va, s.bos[i].size, phys, prot, owns);
  }

  lemma {:induction false} ReleaseOverlapsCounted(s: State, k: nat, va: nat, size: nat)
    requires Counted(s)
    ensures Counted(ReleaseOverlaps(s, k, va, size))
    decreases |s.kept| - k
  {
    if k < |s.kept| {
      if Overlaps64(s.kept[k], va, size) {
        ReleaseCounted(s, k);
        ReleaseKept(s, k);
        ReleaseOverlapsCounted(Release(s, k), k + 1, va, size);
      } else {
        ReleaseOverlapsCounted(s, k + 1, va, size);
      }
    }
  }

  lemma VaMapSane(s: State, handle: nat, va: nat, mapSize: nat, prot: Prot, accepted: bool)
    requires Sane(s)
    ensures Sane(VaMap(s, handle, va, mapSize, prot, accepted).0)
  {
    if LiveHandle(s, handle) {
      var b := s.bos[handle - 1];
      var size := MapSize(b, mapSize);
      var j := FirstKeepable(s.kept, b, va, size, prot);
      if j < |s.kept| {
        DropCounted(s, j);
      } else {
        ReleaseOverlapsCounted(s, 0, va, size);
      }
    }
  }

  lemma CloseSane(s: State, handle: nat)
    requires Sane(s)
    ensures Sane(Close(s, handle).0)
  {
    if LiveHandle(s, handle) {
      var i, b := handle - 1, s.bos[handle - 1];
      var d := DropCpu(s, i);
      assert Sized(b) && d.kept == s.kept && Sane(d);
      if b.gpuVa != 0 {
        RetainSane(d, i, b.gpuVa, b.phys, b.gpuProt, true);
      } else if FirstSharing(d.kept, b.phys) < |d.kept| {
        AdoptCounted(d, FirstSharing(d.kept, b.phys));
      }
    }
  }

  lemma VaUnmapSane(s: State, handle: nat)
    requires Sane(s)
    ensures Sane(VaUnmap(s, handle).0)
  {
    if LiveHandle(s, handle) && s.bos[handle - 1].gpuVa != 0 {
      var b := s.bos[handle - 1];
      assert Sized(b);
      RetainSane(s, handle - 1, b.gpuVa, b.phys, b.gpuProt, false);
    }
  }

  lemma ApplySane(s: State, op: Op)
    requires Sane(s) && Lawful(s, op)
    ensures Sane(Apply(s, op))
  {
    match op
    case CreateOp(n, al, d, f, block) => CreateSane(s, n, al, d, f, block);
    case CloseOp(h) => CloseSane(s, h);
    case CpuMapOp(h, address) => CpuMapSane(s, h, address);
    case GemVaOp(h, o, op, va, n, rd, wr, acc) =>
      GemVaSane(s, h, o, op, va, n, rd, wr, acc);
  }

  lemma GemVaSane(s: State, h: nat, o: nat, op: VaOp, va: nat, n: nat, rd: bool, wr: bool, acc: bool)
    requires Sane(s)
    ensures Sane(GemVa(s, h, o, op, va, n, rd, wr, acc).0)
  {
    if op.MapOp? { VaMapSane(s, h, va, n, ProtOf(rd, wr), acc); }
    if op.UnmapOp? { VaUnmapSane(s, h); }
  }

  lemma CpuMapSane(s: State, handle: nat, address: Option<nat>)
    requires Sane(s)
    ensures Sane(CpuMap(s, handle, address))
  {
  }

  lemma CreateSane(s: State, boSize: nat, alignment: nat, domains: nat, flags: nat, block: Option<int>)
    requires Sane(s) && (block.Some? ==> Grantable(s.mem, block.value, RoundUpPage(boSize)))
    ensures Sane(Create(s, boSize, alignment, domains, flags, block).0)
  {
  }

  lemma {:induction false} RunSane(s: State, ops: seq<Op>)
    requires Sane(s) && AllLawful(s, ops)
    ensures Sane(Run(s, ops))
    decreases |ops|
  {
    if ops != [] {
      ApplySane(s, ops[0]);
      RunSane(Apply(s, ops[0]), ops[1..]);
    }
  }

  /** For every run whatsoever the retained byte count is the exact sum, and exceeds 256 MiB only
      while a single range is retained. */
  lemma RetentionOverRuns(ops: seq<Op>)
    requires AllLawful(START, ops)
    ensures var s := Run(START, ops);
      && s.bytes == SumUsed(s.kept)
      && (s.bytes > RETAINED_BYTES ==> exists j :: 0 <= j < |s.kept| && Alone(s.kept, j))
  {
    StartHolds();
    RunSane(START, ops);
  }

  // ---- Translation stability ------------------------------------------------------------------

  /** `s'` translates like `s`, except for bytes of ranges retained in `s` and not in `s'`. */
  ghost predicate OnlyEvicted(s: State, s': State) {
    && |s'.kept| == |s.kept|
    && (forall a :: a in s'.mem.table ==> a in s.mem.table && s'.mem.table[a] == s.mem.table[a])
    && (forall a :: a in s.mem.table && a !in s'.mem.table ==>
          exists j :: 0 <= j < |s.kept| && Lost(s, s', j) && Within(a, s.kept[j].va, s.kept[j].size))
  }

  predicate Lost(s: State, s': State, j: nat)
    requires j < |s.kept| == |s'.kept|
  {
    s.kept[j].used && !s'.kept[j].used
  }

  lemma ReleaseOnlyEvicts(s: State, j: nat)
    requires j < |s.kept| && s.kept[j].used
    ensures OnlyEvicted(s, Release(s, j))
  {
  }

  lemma OnlyEvictedTrans(s: State, m: State, s': State)
    requires OnlyEvicted(s, m) && OnlyEvicted(m, s')
    requires forall k :: 0 <= k < |s.kept| && m.kept[k].used ==>
      s.kept[k].used && m.kept[k].(ownsPhys := true) == s.kept[k].(ownsPhys := true)
    requires forall k :: 0 <= k < |s.kept| && s'.kept[k].used ==> m.kept[k].used
    ensures OnlyEvicted(s, s')
  {
  }

  lemma {:induction false} EvictOnlyEvicts(s: State, size: nat)
    requires Counted(s)
    ensures OnlyEvicted(s, EvictFor(s, size))
    decreases UsedCount(s.kept)
  {
    if Add64(s.bytes, size) > RETAINED_BYTES && s.bytes > 0 && Oldest(s.kept) < |s.kept| {
      ReleaseOldestOrder(s);
      ReleaseOnlyEvicts(s, Oldest(s.kept));
      ReleaseCount(s, Oldest(s.kept));
      EvictOnlyEvicts(ReleaseOldest(s), size);
      EvictOrder(ReleaseOldest(s), size);
      OnlyEvictedTrans(s, ReleaseOldest(s), EvictFor(s, size));
    }
  }

  lemma RoomOnlyEvicts(s: State, size: nat)
    requires Counted(s)
    ensures OnlyEvicted(s, MakeRoom(s, size))
  {
    var e := EvictFor(s, size);
    EvictOnlyEvicts(s, size);
    EvictOrder(s, size);
    if FirstFree(e.kept) == |e.kept| && Oldest(e.kept) < |e.kept| {
      ReleaseOnlyEvicts(e, Oldest(e.kept));
      ReleaseOldestOrder(e);
      OnlyEvictedTrans(s, e, ReleaseOldest(e));
    }
  }

  /** Range `r` was evicted: its retention order number is no longer in the table. */
  ghost predicate Evicted(s: State, r: Range) {
    forall k :: 0 <= k < |s.kept| && s.kept[k].used ==> s.kept[k].seqNo != r.seqNo
  }

  lemma LostIsEvicted(s: State, size: nat, va: nat, phys: int, prot: Prot, owns: bool, j: nat)
    requires Counted(s) && |s.kept| > 0 && 0 < size < TWO63 && j < |s.kept|
    requires s.kept[j].used && !MakeRoom(s, size).kept[j].used
    ensures Evicted(Retain(s, va, size, phys, prot, owns), s.kept[j])
  {
    RoomOrder(s, size);
    RoomMade(s, size);
    var m := MakeRoom(s, size);
    EvictSeq(s, size);
    assert forall k :: 0 <= k < |m.kept| && m.kept[k].used ==> m.kept[k].seqNo == s.kept[k].seqNo != s.kept[j].seqNo;
  }

  lemma {:induction false} EvictSeq(s: State, size: nat)
    ensures MakeRoom(s, size).lastSeq == s.lastSeq == EvictFor(s, size).lastSeq
    decreases UsedCount(s.kept)
  {
    if Add64(s.bytes, size) > RETAINED_BYTES && s.bytes > 0 && Oldest(s.kept) < |s.kept| {
      ReleaseKept(s, Oldest(s.kept));
      ReleaseCount(s, Oldest(s.kept));
      EvictSeq(ReleaseOldest(s), size);
    }
    var e := EvictFor(s, size);
    if Oldest(e.kept) < |e.kept| { ReleaseKept(e, Oldest(e.kept)); }
  }

  /** An unmap changes no translation: a byte keeps its page or is lost with a retained range that
      was evicted to make room. */
  lemma UnmapTranslations(s: State, handle: nat, a: nat)
    requires Inv(s)
    ensures var s' := VaUnmap(s, handle).0;
      && (a in s'.mem.table ==> a in s.mem.table && s'.mem.table[a] == s.mem.table[a])
      && (a in s.mem.table && a !in s'.mem.table ==>
            exists j :: 0 <= j < |s.kept| && s.kept[j].used && Within(a, s.kept[j].va, s.kept[j].size) && Evicted(s', s.kept[j]))
  {
    if LiveHandle(s, handle) && s.bos[handle - 1].gpuVa != 0 {
      var b := s.bos[handle - 1];
      LiveSize(s, handle - 1);
      RetainTranslations(s, b.gpuVa, b.size, b.phys, b.gpuProt, false, a);
    }
  }

  lemma RetainTranslations(s: State, va: nat, size: nat, phys: int, prot: Prot, owns: bool, a: nat)
    requires Counted(s) && |s.kept| > 0 && 0 < size < TWO63
    ensures var s' := Retain(s, va, size, phys, prot, owns);
      && (a in s'.mem.table ==> a in s.mem.table && s'.mem.table[a] == s.mem.table[a])
      && (a in s.mem.table && a !in s'.mem.table ==>
            exists j :: 0 <= j < |s.kept| && s.kept[j].used && Within(a, s.kept[j].va, s.kept[j].size) && Evicted(s', s.kept[j]))
  {
    RoomOnlyEvicts(s, size);
    var m, s' := MakeRoom(s, size), Retain(s, va, size, phys, prot, owns);
    assert s'.mem == m.mem;
    if a in s.mem.table && a !in m.mem.table {
      var j :| 0 <= j < |s.kept| && Lost(s, m, j) && Within(a, s.kept[j].va, s.kept[j].size);
      LostIsEvicted(s, size, va, phys, prot, owns, j);
    }
  }

  /** A close takes away the buffer's own CPU window and whatever is evicted, and nothing else. */
  lemma CloseTranslations(s: State, handle: nat, a: nat)
    requires Inv(s) && LiveHandle(s, handle)
    ensures var s' := Close(s, handle).0;
      && (a in s'.mem.table ==> a in s.mem.table && s'.mem.table[a] == s.mem.table[a])
      && (a in s.mem.table && a !in s'.mem.table ==>
            || (s.bos[handle - 1].cpuPtr != 0 && Within(a, s.bos[handle - 1].cpuPtr, s.bos[handle - 1].size))
            || exists j :: 0 <= j < |s.kept| && s.kept[j].used && Within(a, s.kept[j].va, s.kept[j].size) && Evicted(s', s.kept[j]))
  {
    var b, d := s.bos[handle - 1], DropCpu(s, handle - 1);
    LiveSize(s, handle - 1);
    if b.gpuVa != 0 {
      RetainTranslations(d, b.gpuVa, b.size, b.phys, b.gpuProt, true, a);
    }
  }

  /** A map that keeps a retained range, its own or a closed buffer's, changes no translation. */
  lemma KeepingMapTranslations(s: State, handle: nat, va: nat, mapSize: nat, prot: Prot, accepted: bool)
    requires LiveHandle(s, handle)
    requires var b := s.bos[handle - 1]; var size := MapSize(b, mapSize);
      size <= b.size && exists j ::
        && 0 <= j < |s.kept| && s.kept[j].used && s.kept[j].va == va && s.kept[j].size == size && s.kept[j].prot == prot
        && (s.kept[j].phys == b.phys || (s.kept[j].ownsPhys && b.cpuPtr == 0 && b.size == size))
    ensures VaMap(s, handle, va, mapSize, prot, accepted).0.mem.table == s.mem.table
    ensures VaMap(s, handle, va, mapSize, prot, accepted).1 == Ok
  {
    var b := s.bos[handle - 1];
    assert FirstKeepable(s.kept, b, va, MapSize(b, mapSize), prot) < |s.kept|;
  }

  /** An address changes the page it stands for only when a fresh map covers a retained range
      that could not be kept. */
  lemma PagesChangeOnlyByFreshMap(s: State, op: Op, a: nat)
    requires Inv(s) && Lawful(s, op) && Behaved(s, op)
    requires a in s.mem.table && a in Apply(s, op).mem.table
    requires Apply(s, op).mem.table[a].frame != s.mem.table[a].frame
    ensures op.GemVaOp? && op.op.MapOp? && LiveHandle(s, op.handle)
    ensures var b := s.bos[op.handle - 1]; var size := MapSize(b, op.mapSize);
      && FirstKeepable(s.kept, b, op.va, size, ProtOf(op.readable, op.writeable)) == |s.kept|
      && Within(a, op.va, size)
      && exists j :: 0 <= j < |s.kept| && s.kept[j].used && Within(a, s.kept[j].va, s.kept[j].size)
  {
    if op.GemVaOp? && op.op.MapOp? {
      var prot := ProtOf(op.readable, op.writeable);
      MapTranslations(s, op.handle, op.va, op.mapSize, prot, op.accepted, a);
    } else {
      OtherTranslations(s, op, a);
    }
  }

  lemma OtherTranslations(s: State, op: Op, a: nat)
    requires Inv(s) && Lawful(s, op) && !(op.GemVaOp? && op.op.MapOp?)
    requires a in s.mem.table && a in Apply(s, op).mem.table
    ensures Apply(s, op).mem.table[a] == s.mem.table[a]
  {
    match op
    case CreateOp(_, _, _, _, _) =>
    case CloseOp(h) => if LiveHandle(s, h) { CloseTranslations(s, h, a); }
    case CpuMapOp(h, address) =>
    case GemVaOp(h, _, _, _, _, _, _, _) => UnmapTranslations(s, h, a);
  }

  lemma MapTranslations(s: State, handle: nat, va: nat, mapSize: nat, prot: Prot, accepted: bool, a: nat)
    requires Inv(s) && LiveHandle(s, handle)
    requires VaMap(s, handle, va, mapSize, prot, accepted).1 == Ok ==> SafeMap(s, handle, va, mapSize, prot, accepted)
    requires var s' := VaMap(s, handle, va, mapSize, prot, accepted).0;
      a in s.mem.table && a in s'.mem.table && s'.mem.table[a].frame != s.mem.table[a].frame
    ensures var b := s.bos[handle - 1]; var size := MapSize(b, mapSize);
      && FirstKeepable(s.kept, b, va, size, prot) == |s.kept| && Within(a, va, size)
      && exists j :: 0 <= j < |s.kept| && s.kept[j].used && Within(a, s.kept[j].va, s.kept[j].size)
  {
    var i, b := handle - 1, s.bos[handle - 1];
    ReleaseOverlapsTable(s, 0, va, MapSize(b, mapSize));
    if b.gpuVa == 0 {
      FreshMapTranslations(s, handle, va, mapSize, prot, accepted, a);
    } else {
      InPlaceTranslations(s, handle, mapSize, prot, accepted, a);
    }
  }

  /** Mapping a buffer again where it is moves no byte to another page. */
  lemma InPlaceTranslations(s: State, handle: nat, mapSize: nat, prot: Prot, accepted: bool, a: nat)
    requires Inv(s) && LiveHandle(s, handle) && s.bos[handle - 1].gpuVa != 0 && a in s.mem.table
    requires VaMap(s, handle, s.bos[handle - 1].gpuVa, mapSize, prot, accepted).1 == Ok
    ensures var s' := VaMap(s, handle, s.bos[handle - 1].gpuVa, mapSize, prot, accepted).0;
      a in s'.mem.table && s'.mem.table[a].frame == s.mem.table[a].frame
  {
    var i, b := handle - 1, s.bos[handle - 1];
    RemapInPlace(s, handle, mapSize, prot, accepted);
    assert Mapped(s, Gpu(i));
    if Covers(WindowOf(s, Gpu(i)), a) { InItsWindow(s, Gpu(i), a); }
  }

  lemma FreshMapTranslations(s: State, handle: nat, va: nat, mapSize: nat, prot: Prot, accepted: bool, a: nat)
    requires Inv(s) && LiveHandle(s, handle) && s.bos[handle - 1].gpuVa == 0
    requires VaMap(s, handle, va, mapSize, prot, accepted).1 == Ok ==> SafeMap(s, handle, va, mapSize, prot, accepted)
    requires var s' := VaMap(s, handle, va, mapSize, prot, accepted).0;
      a in s.mem.table && a in s'.mem.table && s'.mem.table[a].frame != s.mem.table[a].frame
    ensures var b := s.bos[handle - 1]; var size := MapSize(b, mapSize);
      && FirstKeepable(s.kept, b, va, size, prot) == |s.kept| && Within(a, va, size)
      && exists j :: 0 <= j < |s.kept| && s.kept[j].used && Within(a, s.kept[j].va, s.kept[j].size)
  {
    var size := MapSize(s.bos[handle - 1], mapSize);
    ReleaseOverlapsTable(s, 0, va, size);
    var x :| Mapped(s, x) && Covers(WindowOf(s, x), a);
    NotCoveredByLive(s, x, va, size, a);
  }

  lemma NotCoveredByLive(s: State, x: Place, va: nat, size: nat, a: nat)
    requires Mapped(s, x)
    ensures ClearOfLive(s, va, size) && Covers(WindowOf(s, x), a) && Within(a, va, size) ==>
      x.Kept? && Within(a, s.kept[x.j].va, s.kept[x.j].size)
  {
  }

  lemma {:induction false} ReleaseOverlapsTable(s: State, k: nat, va: nat, size: nat)
    ensures var s' := ReleaseOverlaps(s, k, va, size);
      forall a :: a in s'.mem.table ==> a in s.mem.table && s'.mem.table[a] == s.mem.table[a]
    decreases |s.kept| - k
  {
    if k < |s.kept| {
      ReleaseKept(s, k);
      ReleaseOverlapsTable(Release(s, k), k + 1, va, size);
      ReleaseOverlapsTable(s, k + 1, va, size);
    }
  }

  // ---- One buffer, two addresses --------------------------------------------------------------

  /** The CPU pointer and the GPU address of a live buffer name the same bytes. */
  lemma CpuSeesWhatGpuSees(s: State, i: nat, k: nat)
    requires Inv(s) && i < |s.bos| && s.bos[i].live && s.bos[i].gpuVa != 0 && s.bos[i].cpuPtr != 0
    requires k < s.bos[i].size
    ensures var b := s.bos[i];
      && b.cpuPtr + k in s.mem.table && b.gpuVa + k in s.mem.table
      && s.mem.table[b.cpuPtr + k].frame == s.mem.table[b.gpuVa + k].frame == b.phys + k
  {
    var b := s.bos[i];
    assert Mapped(s, Gpu(i)) && Covers(WindowOf(s, Gpu(i)), b.gpuVa + k);
    assert Mapped(s, Cpu(i)) && Covers(WindowOf(s, Cpu(i)), b.cpuPtr + k);
    assert TranslatedBy(s, WindowOf(s, Gpu(i)), b.gpuVa + k);
    assert TranslatedBy(s, WindowOf(s, Cpu(i)), b.cpuPtr + k);
  }

  predicate HoldsVa(b: Buffer, va: nat) {
    b.live && b.gpuVa != 0 && b.gpuVa <= va < Add64(b.gpuVa, b.size)
  }

  function FirstReadable(bos: seq<Buffer>, va: nat): (i: nat)
    ensures i <= |bos|
    ensures forall k :: 0 <= k < i ==> !(bos[k].cpuPtr != 0 && HoldsVa(bos[k], va))
    ensures i < |bos| ==> bos[i].cpuPtr != 0 && HoldsVa(bos[i], va)
  {
    First(bos, (b: Buffer) => b.cpuPtr != 0 && HoldsVa(b, va))
  }

  function FirstHolding(bos: seq<Buffer>, va: nat): (i: nat)
    ensures i <= |bos|
    ensures forall k :: 0 <= k < i ==> !HoldsVa(bos[k], va)
    ensures i < |bos| ==> HoldsVa(bos[i], va)
  {
    First(bos, (b: Buffer) => HoldsVa(b, va))
  }

  /** The CPU address for a GPU address, with the source's wrapping bounds test. */
  function CpuForVa(s: State, va: nat, bytes: nat): Option<nat> {
    var i := FirstReadable(s.bos, va);
    if i == |s.bos| then None else
    var off := va - s.bos[i].gpuVa;
    if Add64(off, bytes) > s.bos[i].size then None else Some(s.bos[i].cpuPtr + off)
  }

  /** The same, after giving the buffer its CPU mapping; `grant` is the platform's answer. */
  function CpuMapVa(s: State, va: nat, bytes: nat, grant: Option<nat>): (State, Option<nat>) {
    var i := FirstHolding(s.bos, va);
    if i == |s.bos| then (s, CpuForVa(s, va, bytes)) else
    if s.bos[i].cpuPtr == 0 && grant.None? then (s, None) else
    var s' := CpuMap(s, i + 1, grant);
    (s', CpuForVa(s', va, bytes))
  }

  /** On good states the wrapping test says which live, mapped buffer the address lies in. */
  lemma HoldsMeans(s: State, i: nat, va: nat)
    requires Inv(s) && i < |s.bos|
    ensures HoldsVa(s.bos[i], va) <==> s.bos[i].live && s.bos[i].gpuVa != 0 && Within(va, s.bos[i].gpuVa, s.bos[i].size)
  {
    assert BufferBacked(s.mem.blocks, s.bos[i]);
  }

  /** At most one live buffer holds an address. */
  lemma OneHolder(s: State, i: nat, k: nat, va: nat)
    requires Inv(s) && i < |s.bos| && k < |s.bos| && HoldsVa(s.bos[i], va) && HoldsVa(s.bos[k], va)
    ensures i == k
  {
    assert BufferBacked(s.mem.blocks, s.bos[i]) && BufferBacked(s.mem.blocks, s.bos[k]);
    assert Mapped(s, Gpu(i)) && Mapped(s, Gpu(k));
    OneWindow(s, Gpu(i), Gpu(k), va);
  }

  /** A non-null answer addresses exactly the bytes the GPU sees at `va`, and stays inside the
      buffer, if and only if the offset plus the byte count does not wrap. */
  lemma CpuForVaCoherent(s: State, va: nat, bytes: nat, p: nat)
    requires Inv(s) && bytes < TWO64 && CpuForVa(s, va, bytes) == Some(p)
    ensures var b := s.bos[FirstReadable(s.bos, va)];
      && (va - b.gpuVa + bytes <= b.size <==> va - b.gpuVa + bytes < TWO64)
      && (va - b.gpuVa + bytes < TWO64 ==> forall k :: 0 <= k < bytes ==> SameByte(s.mem, p, va, k))
  {
    var i := FirstReadable(s.bos, va);
    LiveSize(s, i);
    assert BufferBacked(s.mem.blocks, s.bos[i]);
    if va - s.bos[i].gpuVa + bytes < TWO64 {
      forall k: nat | k < bytes ensures SameByte(s.mem, p, va, k) {
        SameByteInside(s, i, va, k);
      }
    }
  }

  lemma SameByteInside(s: State, i: nat, va: nat, k: nat)
    requires Inv(s) && i < |s.bos| && s.bos[i].live && s.bos[i].gpuVa != 0 && s.bos[i].cpuPtr != 0
    requires s.bos[i].gpuVa <= va && va - s.bos[i].gpuVa + k < s.bos[i].size
    ensures SameByte(s.mem, s.bos[i].cpuPtr + (va - s.bos[i].gpuVa), va, k)
  {
    var b := s.bos[i];
    CpuSeesWhatGpuSees(s, i, va - b.gpuVa + k);
    assert b.gpuVa + (va - b.gpuVa + k) == va + k;
  }

  /** The `k`th bytes at `a` and at `a'` are one physical byte. */
  predicate SameByte(m: Memory, a: nat, a': nat, k: nat) {
    a + k in m.table && a' + k in m.table && m.table[a + k].frame == m.table[a' + k].frame
  }

  /** When the holder of `va` has a CPU mapping, the answer is null exactly if the wrapping test
      says that the range leaves it. */
  lemma CpuForVaComplete(s: State, va: nat, bytes: nat, i: nat)
    requires Inv(s) && i < |s.bos| && s.bos[i].live && s.bos[i].gpuVa != 0 && s.bos[i].cpuPtr != 0
    requires Within(va, s.bos[i].gpuVa, s.bos[i].size)
    ensures CpuForVa(s, va, bytes) ==
      if Add64(va - s.bos[i].gpuVa, bytes) > s.bos[i].size then None else Some(s.bos[i].cpuPtr + (va - s.bos[i].gpuVa))
    ensures FirstReadable(s.bos, va) == i
  {
    HoldsMeans(s, i, va);
    OneHolder(s, i, FirstReadable(s.bos, va), va);
  }

  /** And null for every address that no live buffer with a CPU mapping holds. */
  lemma CpuForVaNone(s: State, va: nat, bytes: nat)
    requires Inv(s)
    requires forall k :: 0 <= k < |s.bos| && s.bos[k].live && s.bos[k].gpuVa != 0 && s.bos[k].cpuPtr != 0 ==>
      !Within(va, s.bos[k].gpuVa, s.bos[k].size)
    ensures CpuForVa(s, va, bytes) == None
  {
    var i := FirstReadable(s.bos, va);
    if i < |s.bos| { HoldsMeans(s, i, va); }
  }

  lemma CpuMapKeepsHolder(s: State, va: nat, i: nat, grant: Option<nat>)
    requires Inv(s) && i < |s.bos| && HoldsVa(s.bos[i], va)
    requires grant.Some? ==> Vacant(s.mem, grant.value, s.bos[i].size)
    ensures var s' := CpuMap(s, i + 1, grant);
      && Inv(s') && i < |s'.bos| && HoldsVa(s'.bos[i], va) && s'.bos[i].gpuVa == s.bos[i].gpuVa
      && s'.bos[i].size == s.bos[i].size && (s'.bos[i].cpuPtr == 0 <==> s.bos[i].cpuPtr == 0 && grant.None?)
  {
    if s.bos[i].cpuPtr == 0 && grant.Some? { CpuMapKeeps(s, i + 1, grant.value); }
  }

  /** `CpuMapVa` for every address: null without effect if no live buffer holds it; else null exactly
      if the platform refused or the range leaves the buffer in the source's wrapping test, and a
      non-null answer for a count that does not wrap addresses the bytes the GPU sees. */
  lemma CpuMapVaComplete(s: State, va: nat, bytes: nat, grant: Option<nat>)
    requires Inv(s) && bytes < TWO64
    requires var i := FirstHolding(s.bos, va);
      i < |s.bos| && grant.Some? ==> Vacant(s.mem, grant.value, s.bos[i].size)
    ensures var i := FirstHolding(s.bos, va); var (s', p) := CpuMapVa(s, va, bytes, grant);
      if i == |s.bos| then
        && s' == s && p == None
        && forall k :: 0 <= k < |s.bos| && s.bos[k].live && s.bos[k].gpuVa != 0 ==> !Within(va, s.bos[k].gpuVa, s.bos[k].size)
      else
        var b := s.bos[i];
        && Inv(s') && b.live && b.gpuVa != 0 && Within(va, b.gpuVa, b.size)
        && (p.None? <==> (b.cpuPtr == 0 && grant.None?) || Add64(va - b.gpuVa, bytes) > b.size)
        && (p.Some? && va - b.gpuVa + bytes < TWO64 ==> forall k :: 0 <= k < bytes ==> SameByte(s'.mem, p.value, va, k))
  {
    var i := FirstHolding(s.bos, va);
    forall k | 0 <= k < |s.bos|
      ensures HoldsVa(s.bos[k], va) <==> s.bos[k].live && s.bos[k].gpuVa != 0 && Within(va, s.bos[k].gpuVa, s.bos[k].size)
    {
      HoldsMeans(s, k, va);
    }
    if i < |s.bos| {
      CpuMapKeepsHolder(s, va, i, grant);
      var s' := CpuMap(s, i + 1, grant);
      if s'.bos[i].cpuPtr != 0 {
        HoldsMeans(s', i, va);
        CpuForVaComplete(s', va, bytes, i);
        if CpuForVa(s', va, bytes).Some? { CpuForVaCoherent(s', va, bytes, CpuForVa(s', va, bytes).value); }
      }
    }
  }
}
