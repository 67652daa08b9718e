/** Buffer objects, their GPU addresses and the cache of retained ranges (src/winsys/buffers.c),
    as a state and one function per operation. BufferManager.dfy holds the in-place code that is
    proved to compute these functions. */
module BufferModel {
  import opened Wrappers
  import opened PlatformMemory

  const PAGE: nat := 0x4000
  const MAX_BO: nat := 4096
  const MAX_RETAINED: nat := 512
  const RETAINED_BYTES: nat := 0x1000_0000 // 256 MiB

  /** One entry of `s_bo`. */
  datatype Buffer = Buffer(
    live: bool, size: nat, alignment: nat, domainFlags: nat, phys: int,
    gpuVa: nat, cpuPtr: nat, domain: nat, gpuProt: Prot)

  /** One entry of `s_retained`. */
  datatype Range = Range(
    used: bool, ownsPhys: bool, prot: Prot, va: nat, size: nat, phys: int, seqNo: nat)

  const DEAD := Buffer(false, 0, 0, 0, 0, 0, 0, 0, NO_PROT)
  const EMPTY := Range(false, false, NO_PROT, 0, 0, 0, 0)

  datatype State = State(bos: seq<Buffer>, kept: seq<Range>, lastSeq: nat, bytes: nat, mem: Memory)

  const START := State(seq(MAX_BO, _ => DEAD), seq(MAX_RETAINED, _ => EMPTY), 0, 0, FRESH_MEMORY)

  datatype Status = Ok | EINVAL | ENOMEM | ENOSYS

  function RoundUpPage(n: nat): (r: nat)
    ensures r % PAGE == 0
    ensures n + PAGE - 1 < TWO64 ==> n <= r < n + PAGE
    ensures n < TWO64 ==> (r == 0 <==> n == 0 || n > TWO64 - PAGE)
  {
    Add64(n, PAGE - 1) / PAGE * PAGE
  }

  /** The offset that names a buffer to mmap, and the uint32_t handle read back from one. */
  function TokenOf(handle: nat): nat { handle * PAGE % TWO64 }
  function HandleOf(offset: nat): nat { offset / PAGE % 0x1_0000_0000 }

  /** Every 32-bit handle survives the way through its token, so no two share one. */
  lemma TokenRoundTrip(handle: nat)
    requires handle < 0x1_0000_0000
    ensures HandleOf(TokenOf(handle)) == handle
  {
    assert handle * PAGE < TWO64 && handle * PAGE / PAGE == handle;
  }

  // ---- Searches -------------------------------------------------------------------------------

  /** The index of the first element satisfying `p`, or the length when there is none. */
  function First<T>(xs: seq<T>, p: T -> bool): (i: nat)
    ensures i <= |xs|
    ensures forall k :: 0 <= k < i ==> !p(xs[k])
    ensures i < |xs| ==> p(xs[i])
  {
    if xs == [] || p(xs[0]) then 0 else 1 + First(xs[1..], p)
  }

  function FirstDead(bos: seq<Buffer>): (i: nat)
    ensures i <= |bos|
    ensures forall k :: 0 <= k < i ==> bos[k].live
    ensures i < |bos| ==> !bos[i].live
  {
    First(bos, (b: Buffer) => !b.live)
  }

  function FirstFree(kept: seq<Range>): (i: nat)
    ensures i <= |kept|
    ensures forall k :: 0 <= k < i ==> kept[k].used
    ensures i < |kept| ==> !kept[i].used
  {
    First(kept, (r: Range) => !r.used)
  }

  predicate Shares(r: Range, phys: int) {
    r.used && r.phys == phys
  }

  function FirstSharing(kept: seq<Range>, phys: int): (i: nat)
    ensures i <= |kept|
    ensures forall k :: 0 <= k < i ==> !Shares(kept[k], phys)
    ensures i < |kept| ==> Shares(kept[i], phys)
  {
    First(kept, (r: Range) => Shares(r, phys))
  }

  /** The used entry with the least sequence number among the first `n`; the length if none. */
  function OldestAmong(kept: seq<Range>, n: nat): (i: nat)
    requires n <= |kept|
    ensures i == |kept| || (i < n && kept[i].used)
    ensures i == |kept| ==> forall k :: 0 <= k < n ==> !kept[k].used
    ensures i < |kept| ==> forall k :: 0 <= k < n && kept[k].used ==> kept[i].seqNo <= kept[k].seqNo
  {
    if n == 0 then |kept| else
      var i := OldestAmong(kept, n - 1);
      if kept[n - 1].used && (i == |kept| || kept[n - 1].seqNo < kept[i].seqNo) then n - 1 else i
  }

  function Oldest(kept: seq<Range>): nat {
    OldestAmong(kept, |kept|)
  }

  // ---- The retained-range cache ---------------------------------------------------------------

  function Drop(s: State, j: nat): State
    requires j < |s.kept|
  {
    s.(kept := s.kept[j := EMPTY], bytes := Sub64(s.bytes, s.kept[j].size))
  }

  /** Unmaps range `j`. Pages it owns go to the first other range that maps them, or are freed. */
  function Release(s: State, j: nat): State
    requires j < |s.kept|
  {
    var r := s.kept[j];
    var unmapped := s.(mem := Unmap(s.mem, r.va, r.size));
    if !r.ownsPhys then Drop(unmapped, j) else
    var q := FirstSharing(s.kept[j := EMPTY], r.phys);
    if q < |s.kept| then Drop(unmapped.(kept := s.kept[q := s.kept[q].(ownsPhys := true)]), j)
    else Drop(unmapped.(mem := Free(unmapped.mem, r.phys, r.size)), j)
  }

  function ReleaseOldest(s: State): State {
    if Oldest(s.kept) < |s.kept| then Release(s, Oldest(s.kept)) else s
  }

  function UsedCount(kept: seq<Range>): nat {
    if kept == [] then 0
    else UsedCount(kept[..|kept| - 1]) + if kept[|kept| - 1].used then 1 else 0
  }

  function SumUsed(kept: seq<Range>): nat {
    if kept == [] then 0
    else SumUsed(kept[..|kept| - 1]) + if kept[|kept| - 1].used then kept[|kept| - 1].size else 0
  }

  lemma {:induction false} UpdateSums(kept: seq<Range>, j: nat, r: Range)
    requires j < |kept|
    ensures UsedCount(kept[j := r]) + (if kept[j].used then 1 else 0)
         == UsedCount(kept) + (if r.used then 1 else 0)
    ensures SumUsed(kept[j := r]) + (if kept[j].used then kept[j].size else 0)
         == SumUsed(kept) + (if r.used then r.size else 0)
  {
    var n := |kept| - 1;
    if j == n {
      assert kept[j := r][..n] == kept[..n];
    } else {
      assert kept[j := r][..n] == kept[..n][j := r];
      UpdateSums(kept[..n], j, r);
    }
  }

  lemma ReleaseCount(s: State, j: nat)
    requires j < |s.kept| && s.kept[j].used
    ensures |Release(s, j).kept| == |s.kept|
    ensures UsedCount(Release(s, j).kept) == UsedCount(s.kept) - 1
  {
    UpdateSums(s.kept, j, EMPTY);
    var q := FirstSharing(s.kept[j := EMPTY], s.kept[j].phys);
    if s.kept[j].ownsPhys && q < |s.kept| {
      var handed := s.kept[q := s.kept[q].(ownsPhys := true)];
      UpdateSums(s.kept, q, s.kept[q].(ownsPhys := true));
      UpdateSums(handed, j, EMPTY);
    }
  }

  /** Evicts oldest first until `size` more bytes fit, or nothing is retained. */
  function EvictFor(s: State, size: nat): (s': State)
    ensures s'.bos == s.bos && |s'.kept| == |s.kept|
    decreases UsedCount(s.kept)
  {
    if Add64(s.bytes, size) > RETAINED_BYTES && s.bytes > 0 && Oldest(s.kept) < |s.kept| then
      ReleaseCount(s, Oldest(s.kept));
      EvictFor(ReleaseOldest(s), size)
    else s
  }

  function MakeSlot(s: State): State {
    if FirstFree(s.kept) < |s.kept| then s else ReleaseOldest(s)
  }

  /** Writes a new range into the free slot `j`. */
  function Put(s: State, j: nat, va: nat, size: nat, phys: int, prot: Prot, owns: bool): State
    requires j < |s.kept|
  {
    s.(kept := s.kept[j := Range(true, owns, prot, va, size, phys, s.lastSeq + 1)],
       lastSeq := s.lastSeq + 1, bytes := Add64(s.bytes, size))
  }

  function MakeRoom(s: State, size: nat): State {
    MakeSlot(EvictFor(s, size))
  }

  function Retain(s: State, va: nat, size: nat, phys: int, prot: Prot, owns: bool): (s': State)
    ensures s'.bos == s.bos
  {
    var s' := MakeRoom(s, size);
    if FirstFree(s'.kept) < |s'.kept| then Put(s', FirstFree(s'.kept), va, size, phys, prot, owns)
    else s'
  }

  // ---- Operations -----------------------------------------------------------------------------

  predicate LiveHandle(s: State, handle: nat) {
    0 < handle <= |s.bos| && s.bos[handle - 1].live
  }

  function SetBo(s: State, i: nat, b: Buffer): State
    requires i < |s.bos|
  {
    s.(bos := s.bos[i := b])
  }

  /** GEM_CREATE. `grant` is the offset the platform allocates, if it allocates at all. */
  function Create(s: State, boSize: nat, alignment: nat, domains: nat, domainFlags: nat,
                  grant: Option<int>): (State, Status, nat)
  {
    var size := RoundUpPage(boSize);
    var i := FirstDead(s.bos);
    if size == 0 then (s, EINVAL, 0)
    else if i == |s.bos| then (s, ENOMEM, 0)
    else if grant.None? then (s, ENOMEM, 0)
    else
      var align := if alignment < PAGE then PAGE else alignment;
      var b := Buffer(true, size, align, domainFlags, grant.value, 0, 0, domains % 0x1_0000_0000,
                      s.bos[i].gpuProt);
      (SetBo(s, i, b).(mem := Allocate(s.mem, grant.value, size)), Ok, i + 1)
  }

  function DropCpu(s: State, i: nat): State
    requires i < |s.bos|
  {
    var b := s.bos[i];
    if b.cpuPtr == 0 then s else
    SetBo(s, i, b.(cpuPtr := 0)).(mem := Unmap(s.mem, b.cpuPtr, b.size))
  }

  function Adopt(s: State, j: nat): State
    requires j < |s.kept|
  {
    s.(kept := s.kept[j := s.kept[j].(ownsPhys := true)])
  }

  /** GEM_CLOSE. */
  function Close(s: State, handle: nat): (State, Status) {
    if !LiveHandle(s, handle) then (s, EINVAL) else
    var i := handle - 1;
    var b := s.bos[i];
    var s1 := DropCpu(s, i);
    var s2 :=
      if b.gpuVa != 0 then Retain(s1, b.gpuVa, b.size, b.phys, b.gpuProt, true)
      else
        var j := FirstSharing(s1.kept, b.phys);
        if j < |s1.kept| then Adopt(s1, j) else s1.(mem := Free(s1.mem, b.phys, b.size));
    (SetBo(s2, i, DEAD), Ok)
  }

  /** A first CPU mapping at the address the platform chose, if it granted one. */
  function CpuMap(s: State, handle: nat, grant: Option<nat>): State {
    if !LiveHandle(s, handle) || s.bos[handle - 1].cpuPtr != 0 || grant.None? then s else
    var i := handle - 1;
    var b := s.bos[i];
    SetBo(s, i, b.(cpuPtr := grant.value)).(mem := Map(s.mem, grant.value, b.size, b.phys, CPU_RW))
  }

  /** CPU and GPU get the same rights at the one address, and never none at all. */
  function ProtOf(readable: bool, writeable: bool): (p: Prot)
    ensures p.gpuRead == p.cpuRead && p.gpuWrite == p.cpuWrite == writeable
    ensures p != NO_PROT && (readable ==> p.gpuRead) && (p.gpuRead && !readable ==> !writeable)
  {
    if !readable && !writeable then Prot(true, false, true, false)
    else Prot(readable, writeable, readable, writeable)
  }

  predicate SameSpot(r: Range, va: nat, size: nat, prot: Prot) {
    r.used && r.va == va && r.size == size && r.prot == prot
  }

  /** A retained range the buffer may keep: its own pages, or pages of a closed buffer. */
  predicate Keepable(r: Range, b: Buffer, va: nat, size: nat, prot: Prot) {
    && SameSpot(r, va, size, prot)
    && (r.phys == b.phys || (r.ownsPhys && b.cpuPtr == 0 && b.size == size))
  }

  function FirstKeepable(kept: seq<Range>, b: Buffer, va: nat, size: nat, prot: Prot): (i: nat)
    ensures i <= |kept|
    ensures forall k :: 0 <= k < i ==> !Keepable(kept[k], b, va, size, prot)
    ensures i < |kept| ==> Keepable(kept[i], b, va, size, prot)
  {
    First(kept, (r: Range) => Keepable(r, b, va, size, prot))
  }

  /** The overlap test of the source, in uint64_t arithmetic. */
  predicate Overlaps64(r: Range, va: nat, size: nat) {
    r.used && va < Add64(r.va, r.size) && r.va < Add64(va, size)
  }

  function ReleaseOverlaps(s: State, k: nat, va: nat, size: nat): (s': State)
    ensures s'.bos == s.bos && |s'.kept| == |s.kept|
    decreases |s.kept| - k
  {
    if k >= |s.kept| then s
    else if Overlaps64(s.kept[k], va, size) then ReleaseOverlaps(Release(s, k), k + 1, va, size)
    else ReleaseOverlaps(s, k + 1, va, size)
  }

  function Reclaim(s: State, i: nat, j: nat): State
    requires i < |s.bos| && j < |s.kept|
  {
    SetBo(Drop(s, j), i, s.bos[i].(gpuVa := s.kept[j].va, gpuProt := s.kept[j].prot))
  }

  function TakeOver(s: State, i: nat, j: nat): State
    requires i < |s.bos| && j < |s.kept|
  {
    var b, r := s.bos[i], s.kept[j];
    SetBo(Drop(s.(mem := Free(s.mem, b.phys, b.size)), j), i,
          b.(phys := r.phys, gpuVa := r.va, gpuProt := r.prot))
  }

  function MapFresh(s: State, i: nat, va: nat, size: nat, prot: Prot): State
    requires i < |s.bos|
  {
    SetBo(s, i, s.bos[i].(gpuVa := va, gpuProt := prot))
      .(mem := Map(s.mem, va, size, s.bos[i].phys, prot))
  }

  function MapSize(b: Buffer, mapSize: nat): nat {
    if mapSize != 0 then RoundUpPage(mapSize) else b.size
  }

  /** AMDGPU_VA_OP_MAP. `accepted` is the platform's answer to the page-table request; it never
      accepts a range whose end is not an address. */
  function VaMap(s: State, handle: nat, va: nat, mapSize: nat, prot: Prot, accepted: bool): (State, Status) {
    if !LiveHandle(s, handle) then (s, EINVAL) else
    var i := handle - 1;
    var b := s.bos[i];
    var size := MapSize(b, mapSize);
    if size > b.size then (s, EINVAL) else
    var j := FirstKeepable(s.kept, b, va, size, prot);
    if j < |s.kept| then
      (if s.kept[j].phys == b.phys then Reclaim(s, i, j) else TakeOver(s, i, j), Ok)
    else
      var s' := ReleaseOverlaps(s, 0, va, size);
      if accepted && va + size < TWO64 then (MapFresh(s', i, va, size, prot), Ok)
      else (s', ENOMEM)
  }

  /** AMDGPU_VA_OP_UNMAP. */
  function VaUnmap(s: State, handle: nat): (State, Status) {
    if !LiveHandle(s, handle) then (s, EINVAL) else
    var i := handle - 1;
    var b := s.bos[i];
    if b.gpuVa == 0 then (s, Ok) else
    var s' := Retain(s, b.gpuVa, b.size, b.phys, b.gpuProt, false);
    (SetBo(s', i, b.(gpuVa := 0)), Ok)
  }

  datatype VaOp = MapOp | UnmapOp | ClearOp | ReplaceOp | OtherOp

  /** DRM_AMDGPU_GEM_VA. */
  function GemVa(s: State, handle: nat, offsetInBo: nat, op: VaOp, va: nat, mapSize: nat,
                 readable: bool, writeable: bool, accepted: bool): (State, Status) {
    if !LiveHandle(s, handle) then (s, EINVAL)
    else if offsetInBo != 0 then (s, ENOSYS)
    else match op
      case MapOp => VaMap(s, handle, va, mapSize, ProtOf(readable, writeable), accepted)
      case UnmapOp => VaUnmap(s, handle)
      case ClearOp => (s, ENOSYS)
      case ReplaceOp => (s, ENOSYS)
      case OtherOp => (s, EINVAL)
  }
}
