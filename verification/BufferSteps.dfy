/** Each elementary change of the buffer manager keeps the invariant. */
module BufferSteps {
  import opened Wrappers
  import opened PlatformMemory
  import opened BufferModel
  import opened BufferInvariant

  // ---- Releasing retained ranges --------------------------------------------------------------

  /** What a release leaves in the table: slot `j` is empty, the others keep everything but,
      perhaps, a gain of ownership. */
  lemma ReleaseKept(s: State, j: nat)
    requires j < |s.kept|
    ensures var s' := Release(s, j);
      && |s'.kept| == |s.kept| && s'.kept[j] == EMPTY && s'.bos == s.bos && s'.lastSeq == s.lastSeq
      && (forall k :: 0 <= k < |s.kept| && k != j ==>
            s'.kept[k] == s.kept[k] || (s.kept[k].used && s'.kept[k] == s.kept[k].(ownsPhys := true)))
      && s'.mem.table == Unmap(s.mem, s.kept[j].va, s.kept[j].size).table
      && s'.bytes == Sub64(s.bytes, s.kept[j].size)
  {
  }

  lemma CountedBound(s: State)
    requires Counted(s)
    ensures s.bytes < TWO63
  {
  }

  lemma ReleaseSum(s: State, j: nat)
    requires j < |s.kept| && s.kept[j].used
    ensures SumUsed(Release(s, j).kept) == SumUsed(s.kept) - s.kept[j].size
  {
    UpdateSums(s.kept, j, EMPTY);
    var q := FirstSharing(s.kept[j := EMPTY], s.kept[j].phys);
    if s.kept[j].ownsPhys && q < |s.kept| {
      var handed := s.kept[q := s.kept[q].(ownsPhys := true)];
      UpdateSums(s.kept, q, s.kept[q].(ownsPhys := true));
      UpdateSums(handed, j, EMPTY);
    }
  }

  lemma ReleaseCounted(s: State, j: nat)
    requires Counted(s) && j < |s.kept| && s.kept[j].used
    ensures Counted(Release(s, j))
    ensures Release(s, j).bytes == s.bytes - s.kept[j].size
  {
    CountedBound(s);
    ReleaseSum(s, j);
    ReleaseKept(s, j);
  }

  lemma ReleaseClaims(s: State, j: nat)
    requires j < |s.kept| && s.kept[j].used
    ensures SameClaims(s, Release(s, j), {Kept(j)})
  {
  }

  lemma ReleaseExact(s: State, j: nat)
    requires Exact(s) && j < |s.kept| && s.kept[j].used
    ensures Exact(Release(s, j))
  {
    ReleaseKept(s, j);
    ReleaseClaims(s, j);
    assert Mapped(s, Kept(j));
    ExactRemoved(s, Release(s, j), Kept(j));
  }

  /** Nobody else maps or owns the pages a release frees. */
  lemma LastUser(s: State, j: nat)
    requires Backed(s) && OneOwner(s) && j < |s.kept| && s.kept[j].used && s.kept[j].ownsPhys
    requires FirstSharing(s.kept[j := EMPTY], s.kept[j].phys) == |s.kept|
    ensures forall k :: 0 <= k < |s.kept| && k != j && s.kept[k].used ==> s.kept[k].phys != s.kept[j].phys
    ensures forall i :: 0 <= i < |s.bos| && s.bos[i].live ==> s.bos[i].phys != s.kept[j].phys
  {
    forall k | 0 <= k < |s.kept| && k != j && s.kept[k].used ensures s.kept[k].phys != s.kept[j].phys {
      assert !Shares(s.kept[j := EMPTY][k], s.kept[j].phys);
    }
    forall i | 0 <= i < |s.bos| && s.bos[i].live ensures s.bos[i].phys != s.kept[j].phys {
      assert Owns(s, Gpu(i)) && Owns(s, Kept(j));
    }
  }

  lemma ReleaseHandsOn(s: State, j: nat, q: nat)
    requires OneOwner(s) && j < |s.kept| && s.kept[j].used && s.kept[j].ownsPhys
    requires q == FirstSharing(s.kept[j := EMPTY], s.kept[j].phys) < |s.kept|
    ensures OneOwner(Release(s, j))
  {
    assert Shares(s.kept[j := EMPTY][q], s.kept[j].phys);
    assert q != j;
    if s.kept[q].ownsPhys {
      assert Owns(s, Kept(q)) && Owns(s, Kept(j));
      assert false;
    }
    OwnerMoved(s, Release(s, j), Kept(j), Kept(q));
  }

  lemma ReleaseOwned(s: State, j: nat)
    requires Backed(s) && BlocksApart(s.mem) && OneOwner(s) && j < |s.kept| && s.kept[j].used
    ensures OneOwner(Release(s, j)) && BlocksApart(Release(s, j).mem)
  {
    var s', r := Release(s, j), s.kept[j];
    assert RangeBacked(s.mem.blocks, r);
    if !r.ownsPhys {
      OwnersSame(s, s');
    } else if FirstSharing(s.kept[j := EMPTY], r.phys) < |s.kept| {
      ReleaseHandsOn(s, j, FirstSharing(s.kept[j := EMPTY], r.phys));
    } else {
      assert Owns(s, Kept(j));
      OwnerFreed(s, s', Kept(j));
    }
  }

  lemma ReleaseBacked(s: State, j: nat)
    requires Backed(s) && OneOwner(s) && j < |s.kept| && s.kept[j].used
    ensures Backed(Release(s, j))
  {
    ReleaseKept(s, j);
    var r := s.kept[j];
    if r.ownsPhys && FirstSharing(s.kept[j := EMPTY], r.phys) == |s.kept| {
      LastUser(s, j);
    }
  }

  lemma ReleaseKeeps(s: State, j: nat)
    requires Inv(s) && j < |s.kept| && s.kept[j].used
    ensures Inv(Release(s, j)) && Release(s, j).bos == s.bos
  {
    ReleaseKept(s, j);
    ReleaseCounted(s, j);
    ReleaseExact(s, j);
    ReleaseOwned(s, j);
    ReleaseBacked(s, j);
  }

  lemma {:induction false} EvictKeeps(s: State, size: nat)
    requires Inv(s)
    ensures Inv(EvictFor(s, size))
    decreases UsedCount(s.kept)
  {
    var j := Oldest(s.kept);
    if Add64(s.bytes, size) > RETAINED_BYTES && s.bytes > 0 && j < |s.kept| {
      ReleaseKeeps(s, j);
      ReleaseCount(s, j);
      EvictKeeps(Release(s, j), size);
    }
  }

  lemma SomeUsed(kept: seq<Range>)
    requires SumUsed(kept) > 0
    ensures Oldest(kept) < |kept|
  {
  }

  lemma {:induction false} NoneUsed(kept: seq<Range>)
    requires forall k :: 0 <= k < |kept| ==> !kept[k].used
    ensures SumUsed(kept) == 0
  {
    if kept != [] {
      NoneUsed(kept[..|kept| - 1]);
    }
  }

  /** The eviction loop stops only when the new bytes fit or nothing is retained. */
  lemma {:induction false} EvictFits(s: State, size: nat)
    requires Counted(s) && size < TWO63
    ensures var s' := EvictFor(s, size); Counted(s') && (s'.bytes + size <= RETAINED_BYTES || s'.bytes == 0)
    decreases UsedCount(s.kept)
  {
    var j := Oldest(s.kept);
    CountedBound(s);
    if s.bytes > 0 {
      SomeUsed(s.kept);
    }
    if Add64(s.bytes, size) > RETAINED_BYTES && s.bytes > 0 {
      ReleaseCounted(s, j);
      ReleaseCount(s, j);
      EvictFits(Release(s, j), size);
    }
  }

  /** After making room the cache is counted, has a free slot, and will hold the new range. */
  lemma RoomMade(s: State, size: nat)
    requires Counted(s) && size < TWO63 && |s.kept| > 0
    ensures var s' := MakeRoom(s, size);
      && Counted(s') && |s'.kept| == |s.kept| && FirstFree(s'.kept) < |s'.kept|
      && (s'.bytes + size <= RETAINED_BYTES || s'.bytes == 0)
  {
    EvictFits(s, size);
    var e := EvictFor(s, size);
    if FirstFree(e.kept) == |e.kept| {
      assert e.kept[0].used;
      assert Oldest(e.kept) < |e.kept|;
      ReleaseCounted(e, Oldest(e.kept));
      ReleaseKept(e, Oldest(e.kept));
      assert !ReleaseOldest(e).kept[Oldest(e.kept)].used;
    }
  }

  lemma RoomKeeps(s: State, size: nat)
    requires Inv(s) && size < TWO63
    ensures Inv(MakeRoom(s, size)) && MakeRoom(s, size).bos == s.bos
  {
    EvictKeeps(s, size);
    var e := EvictFor(s, size);
    if FirstFree(e.kept) == |e.kept| {
      assert e.kept[0].used;
      ReleaseKeeps(e, Oldest(e.kept));
    }
  }

  lemma EmptyOrMore(kept: seq<Range>, j: nat)
    requires j < |kept| && kept[j].used
    ensures kept[j].size <= SumUsed(kept)
  {
  }

  lemma PutCounted(s: State, j: nat, va: nat, size: nat, phys: int, prot: Prot, owns: bool)
    requires Counted(s) && j < |s.kept| && !s.kept[j].used && 0 < size < TWO63
    requires s.bytes + size <= RETAINED_BYTES || s.bytes == 0
    ensures Counted(Put(s, j, va, size, phys, prot, owns))
    ensures Put(s, j, va, size, phys, prot, owns).bytes == s.bytes + size
  {
    var s' := Put(s, j, va, size, phys, prot, owns);
    UpdateSums(s.kept, j, s'.kept[j]);
    if s.bytes == 0 {
      forall k | 0 <= k < |s'.kept| && s'.kept[k].used ensures k == j {
        if k != j { EmptyOrMore(s.kept, k); }
      }
      assert Alone(s'.kept, j);
    }
  }

  // ---- Buffers give windows and pages up ------------------------------------------------------

  /** A window moves from a buffer to a retained slot. */
  lemma MoveExact(s: State, s': State, i: nat, j: nat)
    requires Exact(s) && |s'.bos| == |s.bos| && |s'.kept| == |s.kept| && i < |s.bos| && j < |s.kept|
    requires s'.mem.table == s.mem.table
    requires forall k :: 0 <= k < |s.bos| && k != i ==> s'.bos[k] == s.bos[k]
    requires forall k :: 0 <= k < |s.kept| && k != j ==> s'.kept[k] == s.kept[k]
    requires Mapped(s, Gpu(i)) && !Mapped(s, Kept(j)) && !Mapped(s', Gpu(i)) && Mapped(s', Kept(j))
    requires WindowOf(s', Kept(j)) == WindowOf(s, Gpu(i))
    requires Mapped(s', Cpu(i)) == Mapped(s, Cpu(i))
    requires Mapped(s, Cpu(i)) ==> WindowOf(s', Cpu(i)) == WindowOf(s, Cpu(i))
    ensures Exact(s')
  {
    ExactMoved(s, s', Gpu(i), Kept(j));
  }

  /** An unmap's last step: the window moves from the buffer to slot `j`, the pages stay. */
  lemma UnmapKeeps(s: State, i: nat, j: nat)
    requires Inv(s) && i < |s.bos| && s.bos[i].live && s.bos[i].gpuVa != 0
    requires j < |s.kept| && !s.kept[j].used
    requires s.bytes + s.bos[i].size <= RETAINED_BYTES || s.bytes == 0
    ensures var b := s.bos[i];
      Inv(SetBo(Put(s, j, b.gpuVa, b.size, b.phys, b.gpuProt, false), i, b.(gpuVa := 0)))
  {
    var b := s.bos[i];
    var s' := SetBo(Put(s, j, b.gpuVa, b.size, b.phys, b.gpuProt, false), i, b.(gpuVa := 0));
    PutCounted(s, j, b.gpuVa, b.size, b.phys, b.gpuProt, false);
    MoveExact(s, s', i, j);
    OwnersSame(s, s');
  }

  /** A close of a mapped buffer: the window and the pages both move to slot `j`. */
  lemma CloseMappedKeeps(s: State, i: nat, j: nat)
    requires Inv(s) && i < |s.bos| && s.bos[i].live && s.bos[i].gpuVa != 0 && s.bos[i].cpuPtr == 0
    requires j < |s.kept| && !s.kept[j].used
    requires s.bytes + s.bos[i].size <= RETAINED_BYTES || s.bytes == 0
    ensures var b := s.bos[i];
      Inv(SetBo(Put(s, j, b.gpuVa, b.size, b.phys, b.gpuProt, true), i, DEAD))
  {
    var b := s.bos[i];
    var s' := SetBo(Put(s, j, b.gpuVa, b.size, b.phys, b.gpuProt, true), i, DEAD);
    PutCounted(s, j, b.gpuVa, b.size, b.phys, b.gpuProt, true);
    MoveExact(s, s', i, j);
    OwnerMoved(s, s', Gpu(i), Kept(j));
  }

  lemma AdoptCounted(s: State, j: nat)
    requires Counted(s) && j < |s.kept| && s.kept[j].used
    ensures Counted(Adopt(s, j))
  {
    var s' := Adopt(s, j);
    UpdateSums(s.kept, j, s'.kept[j]);
    if k :| 0 <= k < |s.kept| && Alone(s.kept, k) {
      assert Alone(s'.kept, k);
    }
  }

  lemma AdoptOwned(s: State, i: nat, j: nat)
    requires OneOwner(s) && i < |s.bos| && s.bos[i].live && j < |s.kept| && Shares(s.kept[j], s.bos[i].phys)
    ensures OneOwner(SetBo(Adopt(s, j), i, DEAD))
  {
    assert Owns(s, Gpu(i));
    if s.kept[j].ownsPhys {
      assert Owns(s, Kept(j));
      assert false;
    }
    OwnerMoved(s, SetBo(Adopt(s, j), i, DEAD), Gpu(i), Kept(j));
  }

  lemma AdoptExact(s: State, i: nat, j: nat)
    requires Exact(s) && i < |s.bos| && s.bos[i].live && s.bos[i].gpuVa == 0 && s.bos[i].cpuPtr == 0
    requires j < |s.kept| && s.kept[j].used
    ensures Exact(SetBo(Adopt(s, j), i, DEAD))
  {
    ExactSame(s, SetBo(Adopt(s, j), i, DEAD));
  }

  /** A close of an unmapped buffer whose pages a retained range still maps. */
  lemma AdoptKeeps(s: State, i: nat, j: nat)
    requires Inv(s) && i < |s.bos| && s.bos[i].live && s.bos[i].gpuVa == 0 && s.bos[i].cpuPtr == 0
    requires j < |s.kept| && Shares(s.kept[j], s.bos[i].phys)
    ensures Inv(SetBo(Adopt(s, j), i, DEAD))
  {
    AdoptCounted(s, j);
    AdoptOwned(s, i, j);
    AdoptExact(s, i, j);
    assert RangeBacked(s.mem.blocks, s.kept[j]);
  }

  /** A close of an unmapped buffer nobody else maps. */
  lemma FreeKeeps(s: State, i: nat)
    requires Inv(s) && i < |s.bos| && s.bos[i].live && s.bos[i].gpuVa == 0 && s.bos[i].cpuPtr == 0
    requires FirstSharing(s.kept, s.bos[i].phys) == |s.kept|
    ensures Inv(SetBo(s.(mem := Free(s.mem, s.bos[i].phys, s.bos[i].size)), i, DEAD))
  {
    var b := s.bos[i];
    var s' := SetBo(s.(mem := Free(s.mem, b.phys, b.size)), i, DEAD);
    ExactSame(s, s');
    assert Owns(s, Gpu(i));
    OwnerFreed(s, s', Gpu(i));
    forall k | 0 <= k < |s'.bos| && s'.bos[k].live ensures s'.bos[k].phys != b.phys {
      assert Owns(s, Gpu(k));
    }
    assert forall k :: 0 <= k < |s.kept| && s.kept[k].used ==> !Shares(s.kept[k], b.phys);
  }

  lemma DropCpuKeeps(s: State, i: nat)
    requires Inv(s) && i < |s.bos| && s.bos[i].live
    ensures Inv(DropCpu(s, i))
  {
    if s.bos[i].cpuPtr != 0 {
      assert Mapped(s, Cpu(i));
      ExactRemoved(s, DropCpu(s, i), Cpu(i));
      OwnersSame(s, DropCpu(s, i));
    }
  }

  // ---- Buffers gain windows and pages ---------------------------------------------------------

  lemma DropCounted(s: State, j: nat)
    requires Counted(s) && j < |s.kept| && s.kept[j].used
    ensures Counted(Drop(s, j)) && Drop(s, j).bytes == s.bytes - s.kept[j].size
  {
    CountedBound(s);
    UpdateSums(s.kept, j, EMPTY);
  }

  /** The same buffer comes back to its own pages. */
  lemma ReclaimKeeps(s: State, i: nat, j: nat)
    requires Inv(s) && i < |s.bos| && s.bos[i].live && s.bos[i].gpuVa == 0
    requires j < |s.kept| && Shares(s.kept[j], s.bos[i].phys)
    ensures Inv(Reclaim(s, i, j)) && Reclaim(s, i, j).mem == s.mem
  {
    var s' := Reclaim(s, i, j);
    if s.kept[j].ownsPhys {
      assert Owns(s, Gpu(i)) && Owns(s, Kept(j));
    }
    DropCounted(s, j);
    assert Mapped(s, Kept(j));
    assert Mapped(s', Gpu(i));
    ExactMoved(s, s', Kept(j), Gpu(i));
    OwnersSame(s, s');
  }

  /** The half of a take-over that gives the buffer's own pages back. */
  lemma GiveBackKeeps(s: State, i: nat)
    requires Inv(s) && i < |s.bos| && s.bos[i].live && s.bos[i].gpuVa == 0 && s.bos[i].cpuPtr == 0
    requires FirstSharing(s.kept, s.bos[i].phys) == |s.kept|
    ensures var m := SetBo(s.(mem := Free(s.mem, s.bos[i].phys, s.bos[i].size)), i, DEAD);
      Inv(m) && m.mem.table == s.mem.table
  {
    FreeKeeps(s, i);
  }

  lemma TakeOverKeeps(s: State, i: nat, j: nat)
    requires Inv(s) && i < |s.bos| && s.bos[i].live && s.bos[i].gpuVa == 0 && s.bos[i].cpuPtr == 0
    requires j < |s.kept| && s.kept[j].used && s.kept[j].ownsPhys && s.kept[j].size == s.bos[i].size
    requires FirstSharing(s.kept, s.bos[i].phys) == |s.kept|
    ensures Inv(TakeOver(s, i, j)) && TakeOver(s, i, j).mem.table == s.mem.table
  {
    GiveBackKeeps(s, i);
    var m := SetBo(s.(mem := Free(s.mem, s.bos[i].phys, s.bos[i].size)), i, DEAD);
    HandOver(m, TakeOver(s, i, j), i, j);
  }

  /** The other half: a closed buffer's retained range becomes buffer `i`. */
  lemma HandOver(m: State, s': State, i: nat, j: nat)
    requires Inv(m) && i < |m.bos| && !m.bos[i].live && j < |m.kept| && m.kept[j].used && m.kept[j].ownsPhys
    requires |s'.bos| == |m.bos| && s'.bos == m.bos[i := s'.bos[i]] && s'.bos[i].live && s'.bos[i].cpuPtr == 0
    requires s'.bos[i].gpuVa == m.kept[j].va && s'.bos[i].gpuProt == m.kept[j].prot
    requires s'.bos[i].phys == m.kept[j].phys && s'.bos[i].size == m.kept[j].size
    requires s' == Drop(m, j).(bos := s'.bos)
    ensures Inv(s')
  {
    DropCounted(m, j);
    assert RangeBacked(m.mem.blocks, m.kept[j]);
    HandOverExact(m, s', i, j);
    assert OneOwner(s') by {
      assert Owns(m, Kept(j));
      OwnerMoved(m, s', Kept(j), Gpu(i));
    }
  }

  lemma HandOverExact(m: State, s': State, i: nat, j: nat)
    requires Exact(m) && i < |m.bos| && !m.bos[i].live && j < |m.kept| && m.kept[j].used && m.kept[j].va != 0
    requires |s'.bos| == |m.bos| && s'.bos == m.bos[i := s'.bos[i]] && s'.bos[i].live && s'.bos[i].cpuPtr == 0
    requires s'.bos[i].gpuVa == m.kept[j].va && s'.bos[i].gpuProt == m.kept[j].prot
    requires s'.bos[i].phys == m.kept[j].phys && s'.bos[i].size == m.kept[j].size
    requires s'.kept == m.kept[j := EMPTY] && s'.mem.table == m.mem.table
    ensures Exact(s')
  {
    assert Mapped(m, Kept(j)) && Mapped(s', Gpu(i));
    ExactMoved(m, s', Kept(j), Gpu(i));
  }

  lemma MapFreshKeeps(s: State, i: nat, va: nat, prot: Prot)
    requires Inv(s) && i < |s.bos| && s.bos[i].live && s.bos[i].gpuVa == 0
    requires 0 < va && va + s.bos[i].size < TWO64
    requires forall x :: Mapped(s, x) ==> Apart(WindowOf(s, x).lo, WindowOf(s, x).size, va, s.bos[i].size)
    ensures Inv(MapFresh(s, i, va, s.bos[i].size, prot))
  {
    var s' := MapFresh(s, i, va, s.bos[i].size, prot);
    assert Mapped(s', Gpu(i));
    ExactAdded(s, s', Gpu(i));
    OwnersSame(s, s');
  }

  /** A range in which nothing is mapped is apart from every claimed window. */
  lemma VacantApart(s: State, lo: nat, size: nat)
    requires Inv(s) && 0 < size && Vacant(s.mem, lo, size)
    ensures forall x :: Mapped(s, x) ==> Apart(WindowOf(s, x).lo, WindowOf(s, x).size, lo, size)
  {
    forall x | Mapped(s, x) ensures Apart(WindowOf(s, x).lo, WindowOf(s, x).size, lo, size) {
      var w := WindowOf(s, x);
      assert 0 < w.size;
      if !Apart(w.lo, w.size, lo, size) {
        var a := if w.lo < lo then lo else w.lo;
        assert Covers(w, a) && TranslatedBy(s, w, a);
        assert Within(a, lo, size);
      }
    }
  }

  lemma CpuMapExact(s: State, i: nat, lo: nat)
    requires Exact(s) && i < |s.bos| && s.bos[i].live && s.bos[i].cpuPtr == 0 && 0 < lo
    requires forall x :: Mapped(s, x) ==> Apart(WindowOf(s, x).lo, WindowOf(s, x).size, lo, s.bos[i].size)
    ensures Exact(CpuMap(s, i + 1, Some(lo)))
  {
    assert Mapped(CpuMap(s, i + 1, Some(lo)), Cpu(i));
    ExactAdded(s, CpuMap(s, i + 1, Some(lo)), Cpu(i));
  }

  lemma CpuMapKeeps(s: State, handle: nat, lo: nat)
    requires Inv(s) && LiveHandle(s, handle) && s.bos[handle - 1].cpuPtr == 0
    requires Vacant(s.mem, lo, s.bos[handle - 1].size)
    ensures Inv(CpuMap(s, handle, Some(lo)))
  {
    var i, s' := handle - 1, CpuMap(s, handle, Some(lo));
    assert BufferBacked(s.mem.blocks, s.bos[i]);
    VacantApart(s, lo, s.bos[i].size);
    CpuMapExact(s, i, lo);
    OwnersSame(s, s');
  }

  lemma CreateKeeps(s: State, boSize: nat, alignment: nat, domains: nat, flags: nat, phys: int)
    requires Inv(s) && Grantable(s.mem, phys, RoundUpPage(boSize))
    ensures Inv(Create(s, boSize, alignment, domains, flags, Some(phys)).0)
  {
    var s' := Create(s, boSize, alignment, domains, flags, Some(phys)).0;
    var i := FirstDead(s.bos);
    if s' != s {
      assert phys !in s.mem.blocks;
      CreateExact(s, s', i);
      CreateOwned(s, s', i);
    }
  }

  lemma CreateExact(s: State, s': State, i: nat)
    requires Exact(s) && i < |s.bos| && !s.bos[i].live && s'.kept == s.kept && s'.mem.table == s.mem.table
    requires |s'.bos| == |s.bos| && s'.bos == s.bos[i := s'.bos[i]] && s'.bos[i].gpuVa == 0 && s'.bos[i].cpuPtr == 0
    ensures Exact(s')
  {
    ExactSame(s, s');
  }

  lemma CreateOwned(s: State, s': State, i: nat)
    requires OneOwner(s) && Backed(s) && i < |s.bos| && !s.bos[i].live && s'.kept == s.kept
    requires |s'.bos| == |s.bos| && s'.bos == s.bos[i := s'.bos[i]] && s'.bos[i].live && s'.bos[i].phys !in s.mem.blocks
    requires s'.mem.blocks.Keys == s.mem.blocks.Keys + {s'.bos[i].phys}
    ensures OneOwner(s')
  {
    forall y | Owns(s, y) ensures PagesOf(s, y) in s.mem.blocks {
      match y
      case Gpu(k) => assert BufferBacked(s.mem.blocks, s.bos[k]);
      case Kept(k) => assert RangeBacked(s.mem.blocks, s.kept[k]);
    }
    assert Owns(s', Gpu(i));
    OwnerAdded(s, s', Gpu(i));
  }
}
