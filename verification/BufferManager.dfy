/** The buffer manager as src/winsys/buffers.c runs it: two fixed tables and two counters, changed
    in place. Every method is proved to compute its function of BufferModel. */
module BufferManager {
  import opened Wrappers
  import opened PlatformMemory
  import opened BufferModel
  import opened BufferInvariant
  import opened BufferSteps
  import opened BufferTheorems
  import opened BufferStability

  lemma {:induction false} EvictIgnoresBuffers(s: State, size: nat, bos: seq<Buffer>)
    ensures EvictFor(s.(bos := bos), size) == EvictFor(s, size).(bos := bos)
    decreases UsedCount(s.kept)
  {
    if Add64(s.bytes, size) > RETAINED_BYTES && s.bytes > 0 && Oldest(s.kept) < |s.kept| {
      ReleaseCount(s, Oldest(s.kept));
      assert ReleaseOldest(s.(bos := bos)) == ReleaseOldest(s).(bos := bos);
      EvictIgnoresBuffers(ReleaseOldest(s), size, bos);
    }
  }

  lemma RoomIgnoresBuffers(s: State, size: nat, bos: seq<Buffer>)
    ensures MakeRoom(s.(bos := bos), size) == MakeRoom(s, size).(bos := bos)
  {
    EvictIgnoresBuffers(s, size, bos);
    var e := EvictFor(s, size);
    assert MakeSlot(e.(bos := bos)) == MakeSlot(e).(bos := bos);
  }

  /** Closing a mapped buffer, in the order of the source: CPU unmap, retain, clear the entry. */
  lemma CloseMappedOrder(s: State, handle: nat)
    requires LiveHandle(s, handle) && s.bos[handle - 1].gpuVa != 0
    ensures var b := s.bos[handle - 1];
      var u := if b.cpuPtr != 0 then s.(mem := Unmap(s.mem, b.cpuPtr, b.size)) else s;
      Close(s, handle).0 == SetBo(Retain(u, b.gpuVa, b.size, b.phys, b.gpuProt, true), handle - 1, DEAD)
  {
    var b, d := s.bos[handle - 1], DropCpu(s, handle - 1);
    var u := if b.cpuPtr != 0 then s.(mem := Unmap(s.mem, b.cpuPtr, b.size)) else s;
    assert u == d.(bos := s.bos);
    RoomIgnoresBuffers(d, b.size, s.bos);
    assert d.bos[handle - 1 := DEAD] == s.bos[handle - 1 := DEAD];
  }

  lemma CloseUnmappedOrder(s: State, handle: nat)
    requires LiveHandle(s, handle) && s.bos[handle - 1].gpuVa == 0
    ensures var b := s.bos[handle - 1];
      var u := if b.cpuPtr != 0 then s.(mem := Unmap(s.mem, b.cpuPtr, b.size)) else s;
      var j := FirstSharing(u.kept, b.phys);
      Close(s, handle).0 ==
        SetBo(if j < |u.kept| then Adopt(u, j) else u.(mem := Free(u.mem, b.phys, b.size)), handle - 1, DEAD)
  {
  }

  class Manager {
    const bos: array<Buffer>
    const kept: array<Range>
    var lastSeq: nat
    var bytes: nat
    ghost var mem: Memory

    ghost function Abs(): State
      reads this, bos, kept
    {
      State(bos[..], kept[..], lastSeq, bytes, mem)
    }

    ghost predicate Valid()
      reads this, bos, kept
    {
      bos.Length == MAX_BO && kept.Length == MAX_RETAINED && Sane(Abs())
    }

    constructor ()
      ensures Valid() && fresh(bos) && fresh(kept) && Abs() == START
    {
      bos := new Buffer[MAX_BO](_ => DEAD);
      kept := new Range[MAX_RETAINED](_ => EMPTY);
      lastSeq, bytes, mem := 0, 0, FRESH_MEMORY;
      new;
      assert bos[..] == START.bos && kept[..] == START.kept;
      StartHolds();
    }

    method RetainedDrop(j: nat)
      requires j < kept.Length
      modifies this, kept
      ensures Abs() == Drop(old(Abs()), j)
    {
      bytes := Sub64(bytes, kept[j].size);
      kept[j] := EMPTY;
    }

    method RetainedRelease(j: nat)
      requires j < kept.Length
      modifies this, kept
      ensures Abs() == Release(old(Abs()), j)
    {
      var r := kept[j];
      mem := Unmap(mem, r.va, r.size);
      if r.ownsPhys {
        var handedOn, i := false, 0;
        ghost var was, others := kept[..], kept[..][j := EMPTY];
        ghost var q: nat := kept.Length;
        while i < kept.Length && !handedOn
          invariant i <= kept.Length == |was|
          invariant forall k :: 0 <= k < i && k != q ==> !Shares(others[k], r.phys)
          invariant !handedOn ==> q == kept.Length && kept[..] == was
          invariant handedOn ==> q == i - 1 && q != j && Shares(others[q], r.phys)
          invariant handedOn ==> kept[..] == was[q := was[q].(ownsPhys := true)]
          invariant bytes == old(bytes) && lastSeq == old(lastSeq) && mem == Unmap(old(mem), r.va, r.size)
        {
          if i != j && kept[i].used && kept[i].phys == r.phys {
            q := i;
            kept[i] := kept[i].(ownsPhys := true);
            handedOn := true;
          }
          i := i + 1;
        }
        assert q == FirstSharing(others, r.phys);
        if !handedOn {
          mem := Free(mem, r.phys, r.size);
        }
      }
      RetainedDrop(j);
    }

    method RetainedReleaseOldest()
      modifies this, kept
      ensures Abs() == ReleaseOldest(old(Abs()))
    {
      var oldest := kept.Length;
      for i := 0 to kept.Length
        invariant oldest == OldestAmong(kept[..], i)
      {
        if kept[i].used && (oldest == kept.Length || kept[i].seqNo < kept[oldest].seqNo) {
          oldest := i;
        }
      }
      if oldest < kept.Length {
        RetainedRelease(oldest);
      }
    }

    method Evict(size: nat)
      requires kept.Length > 0 && Counted(Abs()) && size < TWO63
      modifies this, kept
      ensures Abs() == EvictFor(old(Abs()), size) && Counted(Abs())
    {
      while Add64(bytes, size) > RETAINED_BYTES && bytes > 0
        invariant Counted(Abs()) && EvictFor(Abs(), size) == EvictFor(old(Abs()), size)
        decreases UsedCount(kept[..])
      {
        SomeUsed(kept[..]);
        ReleaseCount(Abs(), Oldest(kept[..]));
        ReleaseCounted(Abs(), Oldest(kept[..]));
        RetainedReleaseOldest();
      }
    }

    method FindSlot() returns (slot: nat)
      requires kept.Length > 0 && Counted(Abs())
      modifies this, kept
      ensures Abs() == MakeSlot(old(Abs()))
      ensures slot == FirstFree(kept[..]) < kept.Length
    {
      slot := kept.Length;
      ghost var first := true;
      while slot == kept.Length
        invariant slot <= kept.Length
        invariant first ==> Abs() == old(Abs()) && slot == kept.Length
        invariant !first ==> Abs() == MakeSlot(old(Abs())) && FirstFree(kept[..]) < kept.Length
        invariant slot < kept.Length ==> slot == FirstFree(kept[..])
        decreases first, if slot == kept.Length then 1 else 0
      {
        ghost var before := kept[..];
        var i := 0;
        while i < kept.Length && slot == kept.Length
          invariant i <= kept.Length && slot <= kept.Length
          invariant slot == kept.Length ==> forall k :: 0 <= k < i ==> before[k].used
          invariant slot < kept.Length ==> slot == FirstFree(before)
        {
          if !kept[i].used {
            slot := i;
          }
          i := i + 1;
        }
        if slot == kept.Length {
          assert kept[0].used;
          ReleaseKept(Abs(), Oldest(kept[..]));
          assert !Release(Abs(), Oldest(kept[..])).kept[Oldest(kept[..])].used;
          RetainedReleaseOldest();
        }
        first := false;
      }
    }

    method RetainRange(va: nat, size: nat, phys: int, prot: Prot, owns: bool)
      requires Valid() && 0 < size < TWO63
      modifies this, kept
      ensures Abs() == Retain(old(Abs()), va, size, phys, prot, owns)
    {
      Evict(size);
      var slot := FindSlot();
      lastSeq := lastSeq + 1;
      kept[slot] := Range(true, owns, prot, va, size, phys, lastSeq);
      bytes := Add64(bytes, size);
    }

    method RetainedAdoptPages(phys: int) returns (adopted: bool)
      modifies kept
      ensures adopted == (FirstSharing(old(kept[..]), phys) < kept.Length)
      ensures adopted ==> Abs() == Adopt(old(Abs()), FirstSharing(old(kept[..]), phys))
      ensures !adopted ==> Abs() == old(Abs())
    {
      for i := 0 to kept.Length
        invariant kept[..] == old(kept[..])
        invariant forall k :: 0 <= k < i ==> !Shares(kept[k], phys)
      {
        if kept[i].used && kept[i].phys == phys {
          assert FirstSharing(old(kept[..]), phys) == i;
          kept[i] := kept[i].(ownsPhys := true);
          return true;
        }
      }
      return false;
    }

    /** GEM_CREATE; `block` is the offset the platform allocates, if it does. */
    method GemCreate(boSize: nat, alignment: nat, domains: nat, domainFlags: nat, block: Option<int>)
      returns (status: Status, handle: nat)
      requires Valid() && (block.Some? ==> Grantable(mem, block.value, RoundUpPage(boSize)))
      modifies this, bos
      ensures Valid() && (Abs(), status, handle) == Create(old(Abs()), boSize, alignment, domains, domainFlags, block)
    {
      CreateSane(Abs(), boSize, alignment, domains, domainFlags, block);
      var size := RoundUpPage(boSize);
      var align := if alignment < PAGE then PAGE else alignment;
      if size == 0 {
        return EINVAL, 0;
      }
      handle := 0;
      for i := 0 to bos.Length
        invariant handle == 0 && forall k :: 0 <= k < i ==> bos[k].live
      {
        if !bos[i].live {
          handle := i + 1;
          break;
        }
      }
      assert handle > 0 ==> FirstDead(bos[..]) == handle - 1;
      if handle == 0 {
        return ENOMEM, 0;
      }
      if block.None? {
        return ENOMEM, 0;
      }
      mem := Allocate(mem, block.value, size);
      bos[handle - 1] := bos[handle - 1].(live := true, size := size, alignment := align, domainFlags := domainFlags,
                                          phys := block.value, gpuVa := 0, cpuPtr := 0, domain := domains % 0x1_0000_0000);
      return Ok, handle;
    }

    method CloseBuffer(handle: nat)
      requires Valid() && LiveHandle(Abs(), handle)
      modifies this, bos, kept
      ensures Abs() == Close(old(Abs()), handle).0
    {
      var b := bos[handle - 1];
      assert Sized(Abs().bos[handle - 1]);
      if b.cpuPtr != 0 {
        mem := Unmap(mem, b.cpuPtr, b.size);
      }
      if b.gpuVa != 0 {
        CloseMappedOrder(old(Abs()), handle);
        RetainRange(b.gpuVa, b.size, b.phys, b.gpuProt, true);
      } else {
        CloseUnmappedOrder(old(Abs()), handle);
        var adopted := RetainedAdoptPages(b.phys);
        if !adopted {
          mem := Free(mem, b.phys, b.size);
        }
      }
      bos[handle - 1] := DEAD;
    }

    /** GEM_CLOSE. */
    method GemClose(handle: nat) returns (status: Status)
      requires Valid()
      modifies this, bos, kept
      ensures Valid() && (Abs(), status) == Close(old(Abs()), handle)
      ensures old(Inv(Abs())) ==> Inv(Abs())
    {
      if Inv(Abs()) { CloseKeeps(Abs(), handle); }
      CloseSane(Abs(), handle);
      if handle == 0 || handle > bos.Length || !bos[handle - 1].live {
        return EINVAL;
      }
      CloseBuffer(handle);
      return Ok;
    }

    /** The first CPU mapping of a live buffer; `address` is where the platform puts it. */
    method EnsureCpu(handle: nat, address: Option<nat>) returns (ok: bool)
      requires Valid() && LiveHandle(Abs(), handle)
      modifies this, bos
      ensures Valid() && Abs() == CpuMap(old(Abs()), handle, address)
      ensures ok == (old(bos[handle - 1].cpuPtr) != 0 || address.Some?)
    {
      assert Sized(bos[..][handle - 1]);
      if bos[handle - 1].cpuPtr == 0 {
        if address.None? {
          return false;
        }
        mem := Map(mem, address.value, bos[handle - 1].size, bos[handle - 1].phys, CPU_RW);
        bos[handle - 1] := bos[handle - 1].(cpuPtr := address.value);
      }
      return true;
    }

    /** The CPU address of a range inside a live buffer. A non-null answer lies inside the
        buffer's CPU window, so the write it is used for stays on the buffer's own pages. */
    method BoCpuRange(handle: nat, offset: nat, length: nat, address: Option<nat>) returns (p: Option<nat>)
      requires Valid() && offset < TWO64 && length < TWO64
      modifies this, bos
      ensures Valid()
      ensures p.Some? ==>
        && LiveHandle(old(Abs()), handle) && Abs() == CpuMap(old(Abs()), handle, address)
        && bos[handle - 1].cpuPtr + offset == p.value
        && p.value + length <= bos[handle - 1].cpuPtr + bos[handle - 1].size
      ensures p.None? ==> Abs() == old(Abs())
      ensures p.None? <==>
        || !LiveHandle(old(Abs()), handle) || offset + length > old(bos[..])[handle - 1].size
        || (old(bos[..])[handle - 1].cpuPtr == 0 && address.None?)
    {
      if handle == 0 || handle > bos.Length || !bos[handle - 1].live {
        return None;
      }
      if offset > bos[handle - 1].size || length > bos[handle - 1].size - offset {
        return None;
      }
      var ok := EnsureCpu(handle, address);
      if !ok {
        return None;
      }
      return Some(bos[handle - 1].cpuPtr + offset);
    }

    /** GEM_MMAP: the token of a live buffer, which names that buffer and no other to `Mmap`. */
    method GemMmap(handle: nat) returns (token: Option<nat>)
      requires Valid() && handle < 0x1_0000_0000
      ensures token.Some? <==> LiveHandle(Abs(), handle)
      ensures token.Some? ==> token.value % PAGE == 0 && HandleOf(token.value) == handle
    {
      if handle == 0 || handle > bos.Length || !bos[handle - 1].live {
        return None;
      }
      TokenRoundTrip(handle);
      return Some(TokenOf(handle));
    }

    /** mmap: the offset carries the handle, and the answer is the CPU address of that buffer. */
    method Mmap(length: nat, offset: nat, address: Option<nat>) returns (p: Option<nat>)
      requires Valid() && address != Some(0)
      modifies this, bos
      ensures Valid()
      ensures var handle := HandleOf(offset);
        && (p.Some? ==> LiveHandle(old(Abs()), handle) && length <= old(bos[..])[handle - 1].size
                        && Abs() == CpuMap(old(Abs()), handle, address) && p.value == bos[handle - 1].cpuPtr != 0)
        && (p.None? ==> Abs() == old(Abs()))
        && (p.None? <==> || !LiveHandle(old(Abs()), handle) || length > old(bos[..])[handle - 1].size
                         || (old(bos[..])[handle - 1].cpuPtr == 0 && address.None?))
    {
      var handle := HandleOf(offset);
      if handle == 0 || handle > bos.Length || !bos[handle - 1].live || length > bos[handle - 1].size {
        return None;
      }
      var ok := EnsureCpu(handle, address);
      if !ok {
        return None;
      }
      return Some(bos[handle - 1].cpuPtr);
    }

    /** The first of the two searches of a map: keep a retained range if one qualifies. */
    method KeepRetained(handle: nat, va: nat, size: nat, prot: Prot) returns (done: bool)
      requires LiveHandle(Abs(), handle)
      modifies this, bos, kept
      ensures var s := old(Abs()); var j := FirstKeepable(s.kept, s.bos[handle - 1], va, size, prot);
        && done == (j < kept.Length)
        && (done <==> exists k ::
              && 0 <= k < |s.kept| && s.kept[k].used && s.kept[k].va == va && s.kept[k].size == size && s.kept[k].prot == prot
              && (s.kept[k].phys == s.bos[handle - 1].phys
                  || (s.kept[k].ownsPhys && s.bos[handle - 1].cpuPtr == 0 && s.bos[handle - 1].size == size)))
        && Abs() == if !done then s
                    else if s.kept[j].phys == s.bos[handle - 1].phys then Reclaim(s, handle - 1, j)
                    else TakeOver(s, handle - 1, j)
    {
      var b := bos[handle - 1];
      for i := 0 to kept.Length
        invariant Abs() == old(Abs())
        invariant forall k :: 0 <= k < i ==> !Keepable(kept[..][k], b, va, size, prot)
      {
        var r := kept[i];
        if r.used && r.va == va && r.size == size && r.prot == prot {
          if r.phys == b.phys {
            assert FirstKeepable(kept[..], b, va, size, prot) == i;
            RetainedDrop(i);
            bos[handle - 1] := bos[handle - 1].(gpuVa := va, gpuProt := prot);
            return true;
          }
          if r.ownsPhys && b.cpuPtr == 0 && b.size == size {
            assert FirstKeepable(kept[..], b, va, size, prot) == i;
            mem := Free(mem, b.phys, b.size);
            bos[handle - 1] := bos[handle - 1].(phys := r.phys);
            RetainedDrop(i);
            bos[handle - 1] := bos[handle - 1].(gpuVa := va, gpuProt := prot);
            assert bos[..] == TakeOver(old(Abs()), handle - 1, i).bos;
            return true;
          }
        }
      }
      return false;
    }

    method MapBuffer(handle: nat, va: nat, mapSize: nat, prot: Prot, accepted: bool) returns (status: Status)
      requires Valid() && LiveHandle(Abs(), handle)
      modifies this, bos, kept
      ensures (Abs(), status) == VaMap(old(Abs()), handle, va, mapSize, prot, accepted)
    {
      var size := if mapSize != 0 then RoundUpPage(mapSize) else bos[handle - 1].size;
      if size > bos[handle - 1].size {
        return EINVAL;
      }
      var done := KeepRetained(handle, va, size, prot);
      if done {
        return Ok;
      }
      for i := 0 to kept.Length
        invariant bos[..] == old(bos[..])
        invariant ReleaseOverlaps(Abs(), i, va, size) == ReleaseOverlaps(old(Abs()), 0, va, size)
      {
        if kept[i].used && va < Add64(kept[i].va, kept[i].size) && kept[i].va < Add64(va, size) {
          RetainedRelease(i);
        }
      }
      if !(accepted && va + size < TWO64) {
        return ENOMEM;
      }
      mem := Map(mem, va, size, bos[handle - 1].phys, prot);
      bos[handle - 1] := bos[handle - 1].(gpuVa := va, gpuProt := prot);
      return Ok;
    }

    /** DRM_AMDGPU_GEM_VA. The invariant survives a call if and only if the call behaves. */
    method GemVaCall(handle: nat, offsetInBo: nat, op: VaOp, va: nat, mapSize: nat,
                     readable: bool, writeable: bool, accepted: bool) returns (status: Status)
      requires Valid()
      modifies this, bos, kept
      ensures Valid()
      ensures (Abs(), status) == GemVa(old(Abs()), handle, offsetInBo, op, va, mapSize, readable, writeable, accepted)
      ensures old(Inv(Abs())) ==>
        (Inv(Abs()) <==>
         Behaved(old(Abs()), GemVaOp(handle, offsetInBo, op, va, mapSize, readable, writeable, accepted)))
    {
      ghost var s := Abs();
      VaMapSane(s, handle, va, mapSize, ProtOf(readable, writeable), accepted);
      VaUnmapSane(s, handle);
      if Inv(s) { GemVaKeepsIff(s, handle, offsetInBo, op, va, mapSize, readable, writeable, accepted); }
      if handle == 0 || handle > bos.Length || !bos[handle - 1].live {
        return EINVAL;
      }
      if offsetInBo != 0 {
        return ENOSYS;
      }
      match op {
        case MapOp =>
          status := MapBuffer(handle, va, mapSize, ProtOf(readable, writeable), accepted);
        case UnmapOp =>
          var b := bos[handle - 1];
          assert Sized(bos[..][handle - 1]);
          if b.gpuVa != 0 {
            RetainRange(b.gpuVa, b.size, b.phys, b.gpuProt, false);
            bos[handle - 1] := bos[handle - 1].(gpuVa := 0);
          }
          status := Ok;
        case ClearOp => status := ENOSYS;
        case ReplaceOp => status := ENOSYS;
        case OtherOp => status := EINVAL;
      }
    }

    /** The CPU address behind a GPU address, or nothing. */
    method CpuAddressFor(va: nat, length: nat) returns (p: Option<nat>)
      ensures p == CpuForVa(Abs(), va, length)
    {
      for i := 0 to bos.Length
        invariant forall k :: 0 <= k < i ==> !(bos[k].cpuPtr != 0 && HoldsVa(bos[k], va))
      {
        var b := bos[i];
        if !b.live || b.cpuPtr == 0 || b.gpuVa == 0 {
          continue;
        }
        if va < b.gpuVa || va >= Add64(b.gpuVa, b.size) {
          continue;
        }
        assert FirstReadable(bos[..], va) == i;
        var off := va - b.gpuVa;
        if Add64(off, length) > b.size {
          return None;
        }
        return Some(b.cpuPtr + off);
      }
      return None;
    }

    /** The same, giving the buffer its CPU mapping first. */
    method CpuMapAddressFor(va: nat, length: nat, address: Option<nat>) returns (p: Option<nat>)
      requires Valid()
      modifies this, bos
      ensures Valid() && (Abs(), p) == CpuMapVa(old(Abs()), va, length, address)
    {
      for i := 0 to bos.Length
        invariant bos[..] == old(bos[..]) && Abs() == old(Abs())
        invariant forall k :: 0 <= k < i ==> !HoldsVa(bos[..][k], va)
      {
        var b := bos[i];
        if !b.live || b.gpuVa == 0 || va < b.gpuVa || va >= Add64(b.gpuVa, b.size) {
          continue;
        }
        assert FirstHolding(bos[..], va) == i;
        var ok := EnsureCpu(i + 1, address);
        if !ok {
          return None;
        }
        p := CpuAddressFor(va, length);
        return;
      }
      p := CpuAddressFor(va, length);
    }
  }
}
