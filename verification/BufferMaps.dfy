/** What the requests on buffers promise their callers, field by field (src/winsys/buffers.c): which
    maps keep which pages, which retained ranges survive a map, and every answer. */
module BufferMaps {
  import opened Wrappers
  import opened PlatformMemory
  import opened BufferModel
  import opened BufferInvariant
  import opened BufferSteps
  import opened BufferTheorems
  import opened BufferStability

  /** The bytes a map asks for: the whole buffer, or the rounded size. */
  predicate Asks(b: Buffer, mapSize: nat, size: nat) {
    if mapSize == 0 then size == b.size else size == RoundUpPage(mapSize)
  }

  // ---- A freed address keeps its pages --------------------------------------------------------

  /** The buffer is mapped at `va` by taking entry `j` out of the cache, memory untouched but for the
      pages of its own that it gives up when the entry brings others. */
  ghost predicate KeepsEntry(s: State, s': State, i: nat, j: nat, va: nat, prot: Prot) {
    && i < |s.bos| && j < |s.kept| && s'.lastSeq == s.lastSeq
    && s'.bos == s.bos[i := s.bos[i].(gpuVa := va, gpuProt := prot, phys := s.kept[j].phys)]
    && s'.kept == s.kept[j := EMPTY] && s'.bytes == Sub64(s.bytes, s.kept[j].size)
    && s'.mem == (if s.kept[j].phys == s.bos[i].phys then s.mem else Free(s.mem, s.bos[i].phys, s.bos[i].size))
    && s'.mem.table == s.mem.table
  }

  /** If some retained range has this address, size and rights, and either the buffer's own pages, or
      pages it owns while the buffer has no CPU mapping and the same size, then the map succeeds,
      changes no translation, and takes over the first such range with its pages. */
  lemma MapKeepsPages(s: State, handle: nat, va: nat, mapSize: nat, size: nat, prot: Prot, accepted: bool, j: nat)
    requires LiveHandle(s, handle) && Asks(s.bos[handle - 1], mapSize, size) && size <= s.bos[handle - 1].size
    requires j < |s.kept| && s.kept[j].used && s.kept[j].va == va && s.kept[j].size == size && s.kept[j].prot == prot
    requires var b := s.bos[handle - 1];
      s.kept[j].phys == b.phys || (s.kept[j].ownsPhys && b.cpuPtr == 0 && b.size == size)
    ensures var (s', status) := VaMap(s, handle, va, mapSize, prot, accepted); var b := s.bos[handle - 1];
      && status == Ok
      && exists k :: 0 <= k <= j && KeepsEntry(s, s', handle - 1, k, va, prot)
           && s.kept[k].used && s.kept[k].va == va && s.kept[k].size == size && s.kept[k].prot == prot
           && (s.kept[k].phys == b.phys || (s.kept[k].ownsPhys && b.cpuPtr == 0 && b.size == size))
  {
    var b := s.bos[handle - 1];
    var k := FirstKeepable(s.kept, b, va, size, prot);
    assert k <= j;
    var s' := VaMap(s, handle, va, mapSize, prot, accepted).0;
    assert s'.bos == s.bos[handle - 1 := b.(gpuVa := va, gpuProt := prot, phys := s.kept[k].phys)];
    assert KeepsEntry(s, s', handle - 1, k, va, prot);
  }

  /** In particular a buffer none of whose own pages are retained takes over the pages of a closed
      one at this address: what the address showed before, it shows afterwards. */
  lemma ClosedPagesAreTakenOver(s: State, handle: nat, va: nat, mapSize: nat, size: nat, prot: Prot, accepted: bool, j: nat)
    requires LiveHandle(s, handle) && Asks(s.bos[handle - 1], mapSize, size)
    requires j < |s.kept| && s.kept[j].used && s.kept[j].va == va && s.kept[j].size == size && s.kept[j].prot == prot
    requires var b := s.bos[handle - 1]; s.kept[j].ownsPhys && b.cpuPtr == 0 && b.size == size
    requires forall k :: 0 <= k < |s.kept| && s.kept[k].used ==> s.kept[k].phys != s.bos[handle - 1].phys
    ensures var (s', status) := VaMap(s, handle, va, mapSize, prot, accepted); var b := s.bos[handle - 1];
      && status == Ok && s'.mem == Free(s.mem, b.phys, b.size) && s'.mem.table == s.mem.table
      && exists k :: 0 <= k <= j && s.kept[k].used && s.kept[k].va == va && s.kept[k].size == size
           && s.kept[k].prot == prot && s.kept[k].ownsPhys && s'.bos[handle - 1].phys == s.kept[k].phys
  {
    MapKeepsPages(s, handle, va, mapSize, size, prot, accepted, j);
  }

  // ---- Otherwise the map is fresh -------------------------------------------------------------

  /** The same range, except that it may have been handed its pages. */
  predicate SameRange(r: Range, r': Range) {
    r'.(ownsPhys := r.ownsPhys) == r && (r.ownsPhys ==> r'.ownsPhys)
  }

  /** Range `r` meets the addresses from `va` on, in the 64-bit arithmetic of the test. */
  predicate Meets(r: Range, va: nat, size: nat) {
    va < (r.va + r.size) % TWO64 && r.va < (va + size) % TWO64
  }

  lemma ReleaseOne(s: State, j: nat)
    requires j < |s.kept|
    ensures var s' := Release(s, j);
      && |s'.kept| == |s.kept| && !s'.kept[j].used
      && forall q :: 0 <= q < |s.kept| && q != j ==> SameRange(s.kept[q], s'.kept[q])
    ensures forall a :: a in s.mem.table && !Within(a, s.kept[j].va, s.kept[j].size) ==>
      a in Release(s, j).mem.table && Release(s, j).mem.table[a] == s.mem.table[a]
  {
  }

  /** Every retained range the map meets goes, with its translations, and every other stays. */
  lemma {:induction false} MetRangeGoes(s: State, k: nat, va: nat, size: nat, j: nat)
    requires j < |s.kept|
    ensures var s' := ReleaseOverlaps(s, k, va, size);
      if j >= k && s.kept[j].used && Meets(s.kept[j], va, size) then !s'.kept[j].used
      else SameRange(s.kept[j], s'.kept[j])
    decreases |s.kept| - k
  {
    if k < |s.kept| {
      if s.kept[k].used && Meets(s.kept[k], va, size) {
        ReleaseOne(s, k);
        MetRangeGoes(Release(s, k), k + 1, va, size, j);
      } else {
        MetRangeGoes(s, k + 1, va, size, j);
      }
    }
  }

  /** A translation goes only with a range that the map meets. */
  lemma {:induction false} TranslationsStay(s: State, k: nat, va: nat, size: nat, a: nat)
    requires a in s.mem.table
    requires forall j :: k <= j < |s.kept| && s.kept[j].used && Meets(s.kept[j], va, size) ==>
      !Within(a, s.kept[j].va, s.kept[j].size)
    ensures var s' := ReleaseOverlaps(s, k, va, size); a in s'.mem.table && s'.mem.table[a] == s.mem.table[a]
    decreases |s.kept| - k
  {
    if k < |s.kept| {
      if s.kept[k].used && Meets(s.kept[k], va, size) {
        ReleaseOne(s, k);
        TranslationsStay(Release(s, k), k + 1, va, size, a);
      } else {
        TranslationsStay(s, k + 1, va, size, a);
      }
    }
  }

  /** No retained range qualifies: each differs in address, size or rights, or has pages the buffer may
      not take. */
  ghost predicate NothingToKeep(s: State, b: Buffer, va: nat, size: nat, prot: Prot) {
    forall j :: 0 <= j < |s.kept| && s.kept[j].used && s.kept[j].va == va && s.kept[j].size == size && s.kept[j].prot == prot ==>
      s.kept[j].phys != b.phys && (!s.kept[j].ownsPhys || b.cpuPtr != 0 || b.size != size)
  }

  /** Then nothing is kept. The map succeeds exactly when the platform accepts it, and then shows the
      buffer's own pages, byte for byte, with the rights asked for. The retained ranges it meets are
      gone even if it is refused; all others, all other buffers and all other translations stay. */
  lemma FreshMapOutcome(s: State, handle: nat, va: nat, mapSize: nat, size: nat, prot: Prot, accepted: bool)
    requires LiveHandle(s, handle) && Asks(s.bos[handle - 1], mapSize, size) && size <= s.bos[handle - 1].size
    requires NothingToKeep(s, s.bos[handle - 1], va, size, prot)
    ensures var (s', status) := VaMap(s, handle, va, mapSize, prot, accepted); var b := s.bos[handle - 1];
      && status == (if accepted && va + size < TWO64 then Ok else ENOMEM)
      && s'.bos == (if status == Ok then s.bos[handle - 1 := b.(gpuVa := va, gpuProt := prot)] else s.bos)
      && (forall j :: 0 <= j < |s.kept| ==>
            if s.kept[j].used && Meets(s.kept[j], va, size) then !s'.kept[j].used else SameRange(s.kept[j], s'.kept[j]))
    ensures FreshTranslations(s, VaMap(s, handle, va, mapSize, prot, accepted).0, s.bos[handle - 1].phys, va, size, prot,
                              accepted && va + size < TWO64)
  {
    var b := s.bos[handle - 1];
    assert FirstKeepable(s.kept, b, va, size, prot) == |s.kept|;
    forall j | 0 <= j < |s.kept|
      ensures var r' := ReleaseOverlaps(s, 0, va, size).kept[j];
        if s.kept[j].used && Meets(s.kept[j], va, size) then !r'.used else SameRange(s.kept[j], r')
    {
      MetRangeGoes(s, 0, va, size, j);
    }
    ReleaseOverlapsTable(s, 0, va, size);
    var s' := VaMap(s, handle, va, mapSize, prot, accepted).0;
    forall a | a in s.mem.table && !MetAt(s, va, size, a) && !(accepted && va + size < TWO64 && Within(a, va, size))
      ensures a in s'.mem.table && s'.mem.table[a] == s.mem.table[a]
    {
      TranslationsStay(s, 0, va, size, a);
    }
  }

  /** Byte `a` belongs to a retained range that the map meets. */
  ghost predicate MetAt(s: State, va: nat, size: nat, a: nat) {
    exists j :: 0 <= j < |s.kept| && s.kept[j].used && Meets(s.kept[j], va, size) && Within(a, s.kept[j].va, s.kept[j].size)
  }

  ghost predicate FreshTranslations(s: State, s': State, phys: int, va: nat, size: nat, prot: Prot, mapped: bool) {
    && (mapped ==> forall a: nat :: Within(a, va, size) ==> a in s'.mem.table && s'.mem.table[a] == To(phys + (a - va), prot))
    && (forall a :: a in s'.mem.table && !(mapped && Within(a, va, size)) ==> a in s.mem.table && s'.mem.table[a] == s.mem.table[a])
    && (forall a :: a in s.mem.table && !MetAt(s, va, size, a) && !(mapped && Within(a, va, size)) ==> a in s'.mem.table)
  }

  // ---- Answers --------------------------------------------------------------------------------

  /** Every refusal and every success of the request on addresses; a refused request other than a map
      that the platform declined changes nothing, and so does the unmap of an unmapped buffer. */
  lemma RequestAnswers(s: State, h: nat, offset: nat, op: VaOp, va: nat, mapSize: nat, size: nat, rd: bool, wr: bool, accepted: bool)
    requires LiveHandle(s, h) ==> Asks(s.bos[h - 1], mapSize, size)
    ensures var (s', status) := GemVa(s, h, offset, op, va, mapSize, rd, wr, accepted);
      && (!LiveHandle(s, h) ==> status == EINVAL && s' == s)
      && (LiveHandle(s, h) && offset != 0 ==> status == ENOSYS && s' == s)
      && (LiveHandle(s, h) && offset == 0 && (op.ClearOp? || op.ReplaceOp?) ==> status == ENOSYS && s' == s)
      && (LiveHandle(s, h) && offset == 0 && op.OtherOp? ==> status == EINVAL && s' == s)
      && (LiveHandle(s, h) && offset == 0 && op.UnmapOp? ==> status == Ok && (s.bos[h - 1].gpuVa == 0 ==> s' == s))
      && (LiveHandle(s, h) && offset == 0 && op.MapOp? ==>
            && (status == EINVAL <==> size > s.bos[h - 1].size) && (status == EINVAL ==> s' == s)
            && (status == ENOMEM ==> NothingToKeep(s, s.bos[h - 1], va, size, ProtOf(rd, wr)) && !(accepted && va + size < TWO64))
            && status != ENOSYS)
  {
  }

  /** A close succeeds exactly for a live handle, and a refused one changes nothing. */
  lemma CloseAnswers(s: State, h: nat)
    ensures var (s', status) := Close(s, h);
      && (status == Ok <==> LiveHandle(s, h)) && (status != Ok ==> status == EINVAL && s' == s)
  {
  }

  /** An unmapped buffer's window becomes the newest retained range, of pages that stay the buffer's. */
  lemma UnmapRetains(s: State, h: nat)
    requires Inv(s) && LiveHandle(s, h) && s.bos[h - 1].gpuVa != 0
    ensures RetainedNewest(VaUnmap(s, h).0, s.bos[h - 1], false)
  {
    var j := RetainedBy(s, h, false);
    assert IsRetained(VaUnmap(s, h).0, j, s.bos[h - 1], false);
  }

  /** A closed buffer's window becomes the newest retained range, and owns the pages. */
  lemma CloseRetains(s: State, h: nat)
    requires Inv(s) && LiveHandle(s, h) && s.bos[h - 1].gpuVa != 0
    ensures RetainedNewest(Close(s, h).0, s.bos[h - 1], true)
  {
    DropCpuKeeps(s, h - 1);
    var d := DropCpu(s, h - 1);
    assert LiveHandle(d, h) && d.bos[h - 1] == s.bos[h - 1].(cpuPtr := 0);
    var j := RetainedBy(d, h, true);
    assert IsRetained(Close(s, h).0, j, s.bos[h - 1], true);
  }

  ghost predicate RetainedNewest(s: State, b: Buffer, owns: bool) {
    exists j :: IsRetained(s, j, b, owns)
  }

  ghost predicate IsRetained(s: State, j: nat, b: Buffer, owns: bool) {
    && j < |s.kept|
    && s.kept[j] == Range(true, owns, b.gpuProt, b.gpuVa, b.size, b.phys, s.lastSeq)
    && forall k :: 0 <= k < |s.kept| && k != j && s.kept[k].used ==> s.kept[k].seqNo < s.lastSeq
  }

  lemma RetainedBy(s: State, h: nat, owns: bool) returns (j: nat)
    requires Inv(s) && LiveHandle(s, h) && s.bos[h - 1].gpuVa != 0
    ensures var b := s.bos[h - 1]; IsRetained(Retain(s, b.gpuVa, b.size, b.phys, b.gpuProt, owns), j, b, owns)
  {
    var b := s.bos[h - 1];
    LiveSize(s, h - 1);
    RoomKeeps(s, b.size);
    RoomMade(s, b.size);
    var m := MakeRoom(s, b.size);
    j := FirstFree(m.kept);
    assert Put(m, j, b.gpuVa, b.size, b.phys, b.gpuProt, owns) == Retain(s, b.gpuVa, b.size, b.phys, b.gpuProt, owns);
  }
}
