/** Whole-run guarantees of the buffer manager. */
module BufferTheorems {
  import opened Wrappers
  import opened PlatformMemory
  import opened BufferModel
  import opened BufferInvariant
  import opened BufferSteps

  // ---- One map call ---------------------------------------------------------------------------

  lemma Overlap64IsOverlap(r: Range, va: nat, size: nat)
    requires r.used && Addressable(r.va, r.size) && va + size < TWO64
    ensures Overlaps64(r, va, size) <==> !Apart(r.va, r.size, va, size)
  {
  }

  /** Releasing what overlaps a range keeps the invariant and leaves only survivors outside it. */
  lemma {:induction false} ReleaseOverlapsKeeps(s: State, k: nat, va: nat, size: nat)
    requires Inv(s)
    ensures var s' := ReleaseOverlaps(s, k, va, size);
      && Inv(s') && s'.bos == s.bos
      && forall j :: 0 <= j < |s.kept| && s'.kept[j].used ==>
           && s.kept[j].used && s'.kept[j].(ownsPhys := true) == s.kept[j].(ownsPhys := true)
           && (j >= k ==> !Overlaps64(s.kept[j], va, size))
    decreases |s.kept| - k
  {
    if k < |s.kept| {
      if Overlaps64(s.kept[k], va, size) {
        ReleaseKeeps(s, k);
        ReleaseKept(s, k);
        ReleaseOverlapsKeeps(Release(s, k), k + 1, va, size);
      } else {
        ReleaseOverlapsKeeps(s, k + 1, va, size);
      }
    }
  }

  /** No live buffer's GPU or CPU window meets the range. */
  ghost predicate ClearOfLive(s: State, va: nat, size: nat) {
    forall x: Place :: !x.Kept? && Mapped(s, x) ==> Apart(WindowOf(s, x).lo, WindowOf(s, x).size, va, size)
  }

  lemma FreshIsClear(s: State, va: nat, size: nat)
    requires Inv(s) && va + size < TWO64 && ClearOfLive(s, va, size)
    ensures var s' := ReleaseOverlaps(s, 0, va, size);
      forall x :: Mapped(s', x) ==> Apart(WindowOf(s', x).lo, WindowOf(s', x).size, va, size)
  {
    ReleaseOverlapsKeeps(s, 0, va, size);
    var s' := ReleaseOverlaps(s, 0, va, size);
    forall x | Mapped(s', x) ensures Apart(WindowOf(s', x).lo, WindowOf(s', x).size, va, size) {
      if x.Kept? {
        assert RangeBacked(s.mem.blocks, s.kept[x.j]);
        Overlap64IsOverlap(s.kept[x.j], va, size);
      } else {
        assert Mapped(s, x);
      }
    }
  }

  /** What a caller can check before a map of an unmapped buffer: a take-over finds no other
      retained range on the buffer's own pages, and a fresh mapping covers the whole buffer and
      meets no live window. */
  ghost predicate HarmlessMap(s: State, handle: nat, va: nat, mapSize: nat, prot: Prot, accepted: bool)
    requires LiveHandle(s, handle)
  {
    var b := s.bos[handle - 1];
    var size := MapSize(b, mapSize);
    var j := FirstKeepable(s.kept, b, va, size, prot);
    || size > b.size
    || (if j < |s.kept| then s.kept[j].phys == b.phys || FirstSharing(s.kept, b.phys) == |s.kept|
        else accepted && va + size < TWO64 ==> size == b.size && ClearOfLive(s, va, size))
  }

  lemma HarmlessMapKeeps(s: State, handle: nat, va: nat, mapSize: nat, prot: Prot, accepted: bool)
    requires Inv(s) && LiveHandle(s, handle) && s.bos[handle - 1].gpuVa == 0 && va != 0
    requires HarmlessMap(s, handle, va, mapSize, prot, accepted)
    ensures Inv(VaMap(s, handle, va, mapSize, prot, accepted).0)
  {
    var i, b := handle - 1, s.bos[handle - 1];
    var size := MapSize(b, mapSize);
    var j := FirstKeepable(s.kept, b, va, size, prot);
    if size <= b.size {
      if j < |s.kept| {
        if s.kept[j].phys == b.phys { ReclaimKeeps(s, i, j); } else { TakeOverKeeps(s, i, j); }
      } else {
        ReleaseOverlapsKeeps(s, 0, va, size);
        if accepted && va + size < TWO64 {
          FreshIsClear(s, va, size);
          MapFreshKeeps(ReleaseOverlaps(s, 0, va, size), i, va, prot);
        }
      }
    }
  }

  /** A take-over frees pages that another retained range still maps. */
  lemma BadTakeOver(s: State, i: nat, j: nat)
    requires Inv(s) && i < |s.bos| && s.bos[i].live && j < |s.kept|
    requires s.kept[j].phys != s.bos[i].phys && FirstSharing(s.kept, s.bos[i].phys) < |s.kept|
    ensures !Inv(TakeOver(s, i, j))
  {
    var k, s' := FirstSharing(s.kept, s.bos[i].phys), TakeOver(s, i, j);
    assert BufferBacked(s.mem.blocks, s.bos[i]);
    assert s'.kept[k] == s.kept[k] && !RangeBacked(s'.mem.blocks, s'.kept[k]);
  }

  /** A mapping shorter than its buffer claims bytes it did not map. */
  lemma ShortMap(s: State, i: nat, va: nat, size: nat, prot: Prot)
    requires Exact(s) && i < |s.bos| && s.bos[i].live && s.bos[i].gpuVa == 0 && va != 0 && size < s.bos[i].size
    ensures !Exact(MapFresh(s, i, va, size, prot))
  {
    var s' := MapFresh(s, i, va, size, prot);
    assert Mapped(s', Gpu(i)) && Covers(WindowOf(s', Gpu(i)), va + size);
    if va + size in s.mem.table {
      var x :| Mapped(s, x) && Covers(WindowOf(s, x), va + size);
      OtherWindow(s, s', i, x);
      assert !Disjoint(WindowOf(s', x), WindowOf(s', Gpu(i)));
    } else {
      assert va + size !in s'.mem.table;
      assert !TranslatedBy(s', WindowOf(s', Gpu(i)), va + size);
    }
  }

  lemma OtherWindow(s: State, s': State, i: nat, x: Place)
    requires i < |s.bos| && s.bos[i].gpuVa == 0 && Mapped(s, x)
    requires s'.kept == s.kept && |s'.bos| == |s.bos| && forall k :: 0 <= k < |s.bos| && k != i ==> s'.bos[k] == s.bos[k]
    requires s'.bos[i] == s.bos[i].(gpuVa := s'.bos[i].gpuVa, gpuProt := s'.bos[i].gpuProt)
    ensures x != Gpu(i) && Mapped(s', x) && WindowOf(s', x) == WindowOf(s, x)
  {
  }

  lemma CollidingMap(s: State, i: nat, va: nat, prot: Prot)
    requires Inv(s) && i < |s.bos| && s.bos[i].live && s.bos[i].gpuVa == 0 && va != 0
    requires !ClearOfLive(s, va, s.bos[i].size)
    ensures !Inv(MapFresh(s, i, va, s.bos[i].size, prot))
  {
    var s' := MapFresh(s, i, va, s.bos[i].size, prot);
    var x: Place :| !x.Kept? && Mapped(s, x) && !Apart(WindowOf(s, x).lo, WindowOf(s, x).size, va, s.bos[i].size);
    assert Mapped(s', x) && WindowOf(s', x) == WindowOf(s, x) && Mapped(s', Gpu(i));
    assert !Disjoint(WindowOf(s', x), WindowOf(s', Gpu(i)));
  }

  /** Mapping an unmapped buffer at a nonzero address keeps the invariant exactly when the map
      is harmless. */
  lemma MapKeepsIff(s: State, handle: nat, va: nat, mapSize: nat, prot: Prot, accepted: bool)
    requires Inv(s) && LiveHandle(s, handle) && s.bos[handle - 1].gpuVa == 0 && va != 0
    ensures Inv(VaMap(s, handle, va, mapSize, prot, accepted).0)
       <==> HarmlessMap(s, handle, va, mapSize, prot, accepted)
  {
    var i, b := handle - 1, s.bos[handle - 1];
    var size := MapSize(b, mapSize);
    if HarmlessMap(s, handle, va, mapSize, prot, accepted) {
      HarmlessMapKeeps(s, handle, va, mapSize, prot, accepted);
    } else if FirstKeepable(s.kept, b, va, size, prot) < |s.kept| {
      BadTakeOver(s, i, FirstKeepable(s.kept, b, va, size, prot));
    } else {
      ReleaseOverlapsKeeps(s, 0, va, size);
      var s' := ReleaseOverlaps(s, 0, va, size);
      if size < b.size {
        ShortMap(s', i, va, size, prot);
      } else {
        var x: Place :| !x.Kept? && Mapped(s, x) && !Apart(WindowOf(s, x).lo, WindowOf(s, x).size, va, size);
        assert Mapped(s', x) && WindowOf(s', x) == WindowOf(s, x);
        CollidingMap(s', i, va, prot);
      }
    }
  }

  lemma {:induction false} ReleaseOverlapsClaims(s: State, k: nat, va: nat, size: nat)
    ensures var s' := ReleaseOverlaps(s, k, va, size);
      forall j :: 0 <= j < |s.kept| && s'.kept[j].used ==>
        s.kept[j].used && s'.kept[j].(ownsPhys := true) == s.kept[j].(ownsPhys := true)
    decreases |s.kept| - k
  {
    if k < |s.kept| {
      ReleaseKept(s, k);
      ReleaseOverlapsClaims(Release(s, k), k + 1, va, size);
      ReleaseOverlapsClaims(s, k + 1, va, size);
    }
  }

  /** A map leaves the windows of all other places alone, or removes them. */
  lemma MapClaims(s: State, handle: nat, va: nat, mapSize: nat, prot: Prot, accepted: bool, x: Place)
    requires LiveHandle(s, handle) && x != Gpu(handle - 1)
    requires Mapped(VaMap(s, handle, va, mapSize, prot, accepted).0, x)
    ensures Mapped(s, x)
    ensures WindowOf(VaMap(s, handle, va, mapSize, prot, accepted).0, x) == WindowOf(s, x)
  {
    ReleaseOverlapsClaims(s, 0, va, MapSize(s.bos[handle - 1], mapSize));
  }

  /** A byte of buffer `i` that stays mapped but that no place claims any more. */
  lemma OrphanedByte(s: State, s': State, i: nat, a: nat)
    requires Exact(s) && Mapped(s, Gpu(i)) && Covers(WindowOf(s, Gpu(i)), a) && a in s'.mem.table
    requires forall x :: x != Gpu(i) && Mapped(s', x) ==> Mapped(s, x) && WindowOf(s', x) == WindowOf(s, x)
    requires Mapped(s', Gpu(i)) ==> !Covers(WindowOf(s', Gpu(i)), a)
    ensures !Exact(s')
  {
  }

  lemma MapKeepsOwnBytes(s: State, handle: nat, va: nat, mapSize: nat, prot: Prot, accepted: bool, a: nat)
    requires Inv(s) && LiveHandle(s, handle) && s.bos[handle - 1].gpuVa != 0
    requires Covers(WindowOf(s, Gpu(handle - 1)), a)
    ensures a in VaMap(s, handle, va, mapSize, prot, accepted).0.mem.table
  {
    var x, size := Gpu(handle - 1), MapSize(s.bos[handle - 1], mapSize);
    ReleaseOverlapsKeeps(s, 0, va, size);
    InItsWindow(s, x, a);
    InItsWindow(ReleaseOverlaps(s, 0, va, size), x, a);
  }

  lemma InItsWindow(s: State, x: Place, a: nat)
    requires Exact(s) && Mapped(s, x) && Covers(WindowOf(s, x), a)
    ensures a in s.mem.table && TranslatedBy(s, WindowOf(s, x), a)
  {
  }

  /** Mapping a buffer that is already mapped elsewhere always loses the old range. */
  lemma RemapLosesTheOldRange(s: State, handle: nat, va: nat, mapSize: nat, prot: Prot, accepted: bool)
    requires Inv(s) && LiveHandle(s, handle) && s.bos[handle - 1].gpuVa != 0 && va != s.bos[handle - 1].gpuVa
    requires VaMap(s, handle, va, mapSize, prot, accepted).1 == Ok
    ensures !Inv(VaMap(s, handle, va, mapSize, prot, accepted).0)
  {
    var i, b := handle - 1, s.bos[handle - 1];
    var s' := VaMap(s, handle, va, mapSize, prot, accepted).0;
    LiveSize(s, i);
    var a := if va < b.gpuVa then b.gpuVa + b.size - 1 else b.gpuVa;
    assert Mapped(s, Gpu(i)) && Covers(WindowOf(s, Gpu(i)), a);
    MapKeepsOwnBytes(s, handle, va, mapSize, prot, accepted, a);
    forall x | x != Gpu(i) && Mapped(s', x) ensures Mapped(s, x) && WindowOf(s', x) == WindowOf(s, x) {
      MapClaims(s, handle, va, mapSize, prot, accepted, x);
    }
    MapSetsAddress(s, handle, va, mapSize, prot, accepted);
    OrphanedByte(s, s', i, a);
  }

  lemma MapSetsAddress(s: State, handle: nat, va: nat, mapSize: nat, prot: Prot, accepted: bool)
    requires LiveHandle(s, handle) && VaMap(s, handle, va, mapSize, prot, accepted).1 == Ok
    ensures var b, b' := s.bos[handle - 1], VaMap(s, handle, va, mapSize, prot, accepted).0.bos[handle - 1];
      b'.live && b'.gpuVa == va && b'.size == b.size && b'.gpuProt == prot && b'.cpuPtr == b.cpuPtr
  {
  }

  /** A map at address zero is forgotten at once. */
  lemma ZeroAddressIsForgotten(s: State, handle: nat, mapSize: nat, prot: Prot, accepted: bool)
    requires Inv(s) && LiveHandle(s, handle) && MapSize(s.bos[handle - 1], mapSize) > 0
    requires VaMap(s, handle, 0, mapSize, prot, accepted).1 == Ok
    ensures !Inv(VaMap(s, handle, 0, mapSize, prot, accepted).0)
  {
    var s' := VaMap(s, handle, 0, mapSize, prot, accepted).0;
    var j := FirstKeepable(s.kept, s.bos[handle - 1], 0, MapSize(s.bos[handle - 1], mapSize), prot);
    assert j < |s.kept| ==> RangeBacked(s.mem.blocks, s.kept[j]);
    assert 0 in s'.mem.table;
    MapSetsAddress(s, handle, 0, mapSize, prot, accepted);
    forall x | Mapped(s', x) ensures !Covers(WindowOf(s', x), 0) {
      MapClaims(s, handle, 0, mapSize, prot, accepted, x);
      assert x.Kept? ==> RangeBacked(s.mem.blocks, s.kept[x.j]);
    }
    assert !(exists x :: Mapped(s', x) && Covers(WindowOf(s', x), 0));
  }

  /** Nothing retained meets a window that a live buffer holds, so a map inside it releases nothing. */
  lemma OwnWindowIsClear(s: State, i: nat, size: nat)
    requires Inv(s) && i < |s.bos| && s.bos[i].live && s.bos[i].gpuVa != 0 && size <= s.bos[i].size
    ensures forall j :: 0 <= j < |s.kept| ==> !Overlaps64(s.kept[j], s.bos[i].gpuVa, size)
    ensures forall j :: 0 <= j < |s.kept| && s.kept[j].used ==> s.kept[j].va != s.bos[i].gpuVa
  {
    var b := s.bos[i];
    assert BufferBacked(s.mem.blocks, b) && Mapped(s, Gpu(i));
    forall j | 0 <= j < |s.kept| && s.kept[j].used
      ensures !Overlaps64(s.kept[j], b.gpuVa, size) && s.kept[j].va != b.gpuVa
    {
      assert Mapped(s, Kept(j)) && RangeBacked(s.mem.blocks, s.kept[j]);
      assert Disjoint(WindowOf(s, Gpu(i)), WindowOf(s, Kept(j)));
    }
  }

  lemma {:induction false} NothingOverlaps(s: State, k: nat, va: nat, size: nat)
    requires forall j :: k <= j < |s.kept| ==> !Overlaps64(s.kept[j], va, size)
    ensures ReleaseOverlaps(s, k, va, size) == s
    decreases |s.kept| - k
  {
    if k < |s.kept| {
      NothingOverlaps(s, k + 1, va, size);
    }
  }

  /** Mapping a buffer again where it already is comes down to rewriting part of its window. */
  lemma RemapInPlace(s: State, handle: nat, mapSize: nat, prot: Prot, accepted: bool)
    requires Inv(s) && LiveHandle(s, handle) && s.bos[handle - 1].gpuVa != 0
    requires VaMap(s, handle, s.bos[handle - 1].gpuVa, mapSize, prot, accepted).1 == Ok
    ensures var b := s.bos[handle - 1]; var size := MapSize(b, mapSize);
      size <= b.size && VaMap(s, handle, b.gpuVa, mapSize, prot, accepted).0 == MapFresh(s, handle - 1, b.gpuVa, size, prot)
  {
    var b := s.bos[handle - 1];
    var size := MapSize(b, mapSize);
    if size <= b.size {
      OwnWindowIsClear(s, handle - 1, size);
      NothingOverlaps(s, 0, b.gpuVa, size);
      assert FirstKeepable(s.kept, b, b.gpuVa, size, prot) == |s.kept|;
    }
  }

  lemma SameMap<K, V>(m: map<K, V>, m': map<K, V>)
    requires forall k :: k in m <==> k in m'
    requires forall k :: k in m && k in m' ==> m[k] == m'[k]
    ensures m == m'
  {
  }

  lemma RewriteSameTable(s: State, i: nat, size: nat)
    requires Exact(s) && i < |s.bos| && s.bos[i].live && s.bos[i].gpuVa != 0 && size <= s.bos[i].size
    ensures Map(s.mem, s.bos[i].gpuVa, size, s.bos[i].phys, s.bos[i].gpuProt).table == s.mem.table
  {
    var b := s.bos[i];
    assert Mapped(s, Gpu(i));
    forall a: nat | Within(a, b.gpuVa, size) ensures a in s.mem.table && s.mem.table[a] == To(b.phys + (a - b.gpuVa), b.gpuProt) {
      InItsWindow(s, Gpu(i), a);
    }
    SameMap(Map(s.mem, b.gpuVa, size, b.phys, b.gpuProt).table, s.mem.table);
  }

  lemma RewriteSame(s: State, i: nat, size: nat)
    requires Inv(s) && i < |s.bos| && s.bos[i].live && s.bos[i].gpuVa != 0 && size <= s.bos[i].size
    ensures MapFresh(s, i, s.bos[i].gpuVa, size, s.bos[i].gpuProt) == s
  {
    var b, s' := s.bos[i], MapFresh(s, i, s.bos[i].gpuVa, size, s.bos[i].gpuProt);
    RewriteSameTable(s, i, size);
    assert s'.bos == s.bos;
  }

  lemma RewriteExact(s: State, i: nat, prot: Prot)
    requires Exact(s) && i < |s.bos| && s.bos[i].live && s.bos[i].gpuVa != 0
    ensures Exact(MapFresh(s, i, s.bos[i].gpuVa, s.bos[i].size, prot))
  {
    var b, s' := s.bos[i], MapFresh(s, i, s.bos[i].gpuVa, s.bos[i].size, prot);
    var m := SetBo(s, i, b.(gpuVa := 0)).(mem := Unmap(s.mem, b.gpuVa, b.size));
    assert Mapped(s, Gpu(i)) && Mapped(s', Gpu(i));
    assert Exact(m) by { ExactRemoved(s, m, Gpu(i)); }
    forall x | Mapped(m, x) ensures Disjoint(WindowOf(m, x), WindowOf(s', Gpu(i))) {
      assert Mapped(s, x) && Disjoint(WindowOf(s, x), WindowOf(s, Gpu(i)));
    }
    assert s'.mem.table == Map(m.mem, b.gpuVa, b.size, b.phys, prot).table;
    ExactAdded(m, s', Gpu(i));
  }

  lemma RewriteWhole(s: State, i: nat, prot: Prot)
    requires Inv(s) && i < |s.bos| && s.bos[i].live && s.bos[i].gpuVa != 0
    ensures Inv(MapFresh(s, i, s.bos[i].gpuVa, s.bos[i].size, prot))
  {
    var s' := MapFresh(s, i, s.bos[i].gpuVa, s.bos[i].size, prot);
    assert BufferBacked(s.mem.blocks, s.bos[i]);
    RewriteExact(s, i, prot);
    assert OneOwner(s') by { OwnersSame(s, s'); }
  }

  lemma RewritePart(s: State, i: nat, size: nat, prot: Prot)
    requires Inv(s) && i < |s.bos| && s.bos[i].live && s.bos[i].gpuVa != 0
    requires size < s.bos[i].size && prot != s.bos[i].gpuProt
    ensures !Inv(MapFresh(s, i, s.bos[i].gpuVa, size, prot))
  {
    var b, s' := s.bos[i], MapFresh(s, i, s.bos[i].gpuVa, size, prot);
    var a := b.gpuVa + size;
    assert Mapped(s, Gpu(i)) && Mapped(s', Gpu(i));
    InItsWindow(s, Gpu(i), a);
    assert s'.mem.table[a] == s.mem.table[a];
    assert Covers(WindowOf(s', Gpu(i)), a) && !TranslatedBy(s', WindowOf(s', Gpu(i)), a);
  }

  /** When a map that succeeds keeps the invariant: decided by what is known before the call. */
  ghost predicate SafeMap(s: State, handle: nat, va: nat, mapSize: nat, prot: Prot, accepted: bool)
    requires LiveHandle(s, handle)
  {
    var b := s.bos[handle - 1];
    var size := MapSize(b, mapSize);
    if va == 0 then b.gpuVa == 0 && size == 0
    else if b.gpuVa == 0 then HarmlessMap(s, handle, va, mapSize, prot, accepted)
    else va == b.gpuVa && (size == b.size || prot == b.gpuProt)
  }

  lemma ZeroMap(s: State, handle: nat, mapSize: nat, prot: Prot, accepted: bool)
    requires Inv(s) && LiveHandle(s, handle) && s.bos[handle - 1].gpuVa == 0
    requires MapSize(s.bos[handle - 1], mapSize) == 0
    requires VaMap(s, handle, 0, mapSize, prot, accepted).1 == Ok
    ensures Inv(VaMap(s, handle, 0, mapSize, prot, accepted).0)
  {
    var i, b := handle - 1, s.bos[handle - 1];
    var s' := VaMap(s, handle, 0, mapSize, prot, accepted).0;
    var j := FirstKeepable(s.kept, b, 0, 0, prot);
    assert j < |s.kept| ==> RangeBacked(s.mem.blocks, s.kept[j]);
    NothingOverlaps(s, 0, 0, 0);
    assert s' == MapFresh(s, i, 0, 0, prot);
    assert s'.mem.table == s.mem.table;
    assert BufferBacked(s.mem.blocks, b);
    ExactSame(s, s');
    OwnersSame(s, s');
  }

  /** The exact condition, for every map call on every good state: a refused map always keeps the
      invariant, a successful one keeps it if and only if it is safe. */
  lemma MapVerdict(s: State, handle: nat, va: nat, mapSize: nat, prot: Prot, accepted: bool)
    requires Inv(s) && LiveHandle(s, handle)
    ensures Inv(VaMap(s, handle, va, mapSize, prot, accepted).0) <==>
      (VaMap(s, handle, va, mapSize, prot, accepted).1 == Ok ==> SafeMap(s, handle, va, mapSize, prot, accepted))
  {
    var i, b := handle - 1, s.bos[handle - 1];
    var size := MapSize(b, mapSize);
    if VaMap(s, handle, va, mapSize, prot, accepted).1 != Ok {
      ReleaseOverlapsKeeps(s, 0, va, size);
    } else if va != 0 && b.gpuVa == 0 {
      MapKeepsIff(s, handle, va, mapSize, prot, accepted);
    } else if va != b.gpuVa {
      RemapLosesTheOldRange(s, handle, va, mapSize, prot, accepted);
    } else if va == 0 {
      if size == 0 { ZeroMap(s, handle, mapSize, prot, accepted); }
      else { ZeroAddressIsForgotten(s, handle, mapSize, prot, accepted); }
    } else {
      RemapInPlace(s, handle, mapSize, prot, accepted);
      if prot == b.gpuProt { RewriteSame(s, i, size); }
      else if size == b.size { RewriteWhole(s, i, prot); }
      else { RewritePart(s, i, size, prot); }
    }
  }

  // ---- Other calls ----------------------------------------------------------------------------

  lemma LiveSize(s: State, i: nat)
    requires Inv(s) && i < |s.bos| && s.bos[i].live
    ensures 0 < s.bos[i].size < TWO63
  {
  }

  lemma VaUnmapKeeps(s: State, handle: nat)
    requires Inv(s)
    ensures Inv(VaUnmap(s, handle).0)
  {
    if LiveHandle(s, handle) && s.bos[handle - 1].gpuVa != 0 {
      var i, b := handle - 1, s.bos[handle - 1];
      LiveSize(s, i);
      RoomKeeps(s, b.size);
      RoomMade(s, b.size);
      var m := MakeRoom(s, b.size);
      UnmapKeeps(m, i, FirstFree(m.kept));
    }
  }

  lemma CloseKeeps(s: State, handle: nat)
    requires Inv(s)
    ensures Inv(Close(s, handle).0)
  {
    if LiveHandle(s, handle) {
      var i, b := handle - 1, s.bos[handle - 1];
      LiveSize(s, i);
      DropCpuKeeps(s, i);
      var d := DropCpu(s, i);
      if b.gpuVa != 0 {
        RoomKeeps(d, b.size);
        RoomMade(d, b.size);
        var m := MakeRoom(d, b.size);
        CloseMappedKeeps(m, i, FirstFree(m.kept));
      } else if FirstSharing(d.kept, b.phys) < |d.kept| {
        AdoptKeeps(d, i, FirstSharing(d.kept, b.phys));
      } else {
        FreeKeeps(d, i);
      }
    }
  }

  // ---- Whole runs -----------------------------------------------------------------------------

  datatype Op =
    | CreateOp(boSize: nat, alignment: nat, domains: nat, domainFlags: nat, block: Option<int>)
    | CloseOp(handle: nat)
    | GemVaOp(handle: nat, offsetInBo: nat, op: VaOp, va: nat, mapSize: nat,
              readable: bool, writeable: bool, accepted: bool)
    | CpuMapOp(handle: nat, address: Option<nat>)

  function Apply(s: State, op: Op): State {
    match op
    case CreateOp(n, al, d, f, block) => Create(s, n, al, d, f, block).0
    case CloseOp(h) => Close(s, h).0
    case GemVaOp(h, o, op, va, n, rd, wr, acc) => GemVa(s, h, o, op, va, n, rd, wr, acc).0
    case CpuMapOp(h, address) => CpuMap(s, h, address)
  }

  /** The platform grants only memory and addresses that are free. */
  ghost predicate Lawful(s: State, op: Op) {
    match op
    case CreateOp(n, _, _, _, Some(p)) => Grantable(s.mem, p, RoundUpPage(n))
    case CpuMapOp(h, Some(lo)) => LiveHandle(s, h) ==> Vacant(s.mem, lo, s.bos[h - 1].size)
    case _ => true
  }

  /** A map that succeeds is safe; every other call is always allowed. */
  ghost predicate Behaved(s: State, op: Op) {
    op.GemVaOp? && op.op.MapOp? && op.offsetInBo == 0 && LiveHandle(s, op.handle) ==>
      var prot := ProtOf(op.readable, op.writeable);
      VaMap(s, op.handle, op.va, op.mapSize, prot, op.accepted).1 == Ok ==>
        SafeMap(s, op.handle, op.va, op.mapSize, prot, op.accepted)
  }

  function Run(s: State, ops: seq<Op>): State
    decreases |ops|
  {
    if ops == [] then s else Run(Apply(s, ops[0]), ops[1..])
  }

  ghost predicate AllLawful(s: State, ops: seq<Op>)
    decreases |ops|
  {
    ops != [] ==> Lawful(s, ops[0]) && AllLawful(Apply(s, ops[0]), ops[1..])
  }

  ghost predicate AllBehaved(s: State, ops: seq<Op>)
    decreases |ops|
  {
    ops != [] ==> Behaved(s, ops[0]) && AllBehaved(Apply(s, ops[0]), ops[1..])
  }

  /** One call keeps the invariant if and only if it behaves. */
  lemma ApplyKeepsIff(s: State, op: Op)
    requires Inv(s) && Lawful(s, op)
    ensures Inv(Apply(s, op)) <==> Behaved(s, op)
  {
    match op
    case CreateOp(n, al, d, f, block) =>
      if block.Some? { CreateKeeps(s, n, al, d, f, block.value); }
    case CloseOp(h) => CloseKeeps(s, h);
    case CpuMapOp(h, address) =>
      if LiveHandle(s, h) && s.bos[h - 1].cpuPtr == 0 && address.Some? { CpuMapKeeps(s, h, address.value); }
    case GemVaOp(h, o, op, va, n, rd, wr, acc) => GemVaKeepsIff(s, h, o, op, va, n, rd, wr, acc);
  }

  lemma GemVaKeepsIff(s: State, h: nat, o: nat, op: VaOp, va: nat, n: nat, rd: bool, wr: bool, acc: bool)
    requires Inv(s)
    ensures Inv(GemVa(s, h, o, op, va, n, rd, wr, acc).0) <==> Behaved(s, GemVaOp(h, o, op, va, n, rd, wr, acc))
  {
    if LiveHandle(s, h) && o == 0 {
      if op.MapOp? { MapVerdict(s, h, va, n, ProtOf(rd, wr), acc); }
      else if op.UnmapOp? { VaUnmapKeeps(s, h); }
    }
  }

  lemma StartHolds()
    ensures Inv(START)
  {
    NoneUsed(START.kept);
  }

  lemma {:induction false} RunKeeps(s: State, ops: seq<Op>)
    requires Inv(s) && AllLawful(s, ops) && AllBehaved(s, ops)
    ensures Inv(Run(s, ops))
    decreases |ops|
  {
    if ops != [] {
      ApplyKeepsIff(s, ops[0]);
      RunKeeps(Apply(s, ops[0]), ops[1..]);
    }
  }

  /** The invariant holds now and after every call of the run. */
  ghost predicate GoodThroughout(s: State, ops: seq<Op>)
    decreases |ops|
  {
    Inv(s) && (ops != [] ==> GoodThroughout(Apply(s, ops[0]), ops[1..]))
  }

  /** A run keeps the invariant throughout if and only if each of its maps is safe when it is made. */
  lemma {:induction false} GoodThroughoutIff(s: State, ops: seq<Op>)
    requires Inv(s) && AllLawful(s, ops)
    ensures GoodThroughout(s, ops) <==> AllBehaved(s, ops)
    decreases |ops|
  {
    if ops != [] {
      ApplyKeepsIff(s, ops[0]);
      if Behaved(s, ops[0]) { GoodThroughoutIff(Apply(s, ops[0]), ops[1..]); }
    }
  }

  /** Ownership over whole runs: every allocated block has exactly one owner, no free was ever
      wrong (so none was repeated), and once nothing is live or retained nothing is left. */
  lemma OwnershipOverRuns(ops: seq<Op>)
    requires AllLawful(START, ops) && AllBehaved(START, ops)
    ensures var s := Run(START, ops);
      && s.mem.badFrees == 0
      && (forall p :: p in s.mem.blocks ==>
            exists x :: Owns(s, x) && PagesOf(s, x) == p
                     && forall y :: Owns(s, y) && PagesOf(s, y) == p ==> y == x)
      && (forall x :: Owns(s, x) ==> PagesOf(s, x) in s.mem.blocks)
      && ((forall x :: !Owns(s, x)) ==> s.mem.blocks == map[])
      && ((forall x :: !Mapped(s, x)) ==> s.mem.table == map[])
  {
    StartHolds();
    RunKeeps(START, ops);
    var s := Run(START, ops);
    forall p | p in s.mem.blocks
      ensures exists x :: Owns(s, x) && PagesOf(s, x) == p && forall y :: Owns(s, y) && PagesOf(s, y) == p ==> y == x
    {
      var x :| Owns(s, x) && PagesOf(s, x) == p;
    }
    forall x | Owns(s, x) ensures PagesOf(s, x) in s.mem.blocks {
      if x.Gpu? { assert BufferBacked(s.mem.blocks, s.bos[x.i]); }
      else { assert RangeBacked(s.mem.blocks, s.kept[x.j]); }
    }
  }

  lemma OneWindow(s: State, x: Place, y: Place, a: nat)
    requires Exact(s) && Mapped(s, x) && Mapped(s, y)
    ensures Covers(WindowOf(s, x), a) && Covers(WindowOf(s, y), a) ==> x == y
  {
  }

  /** The address space over whole runs: every mapped byte belongs to exactly one window, and
      translates into the allocated block behind that window. */
  lemma AddressSpaceOverRuns(ops: seq<Op>, a: nat)
    requires AllLawful(START, ops) && AllBehaved(START, ops)
    requires a in Run(START, ops).mem.table
    ensures var s := Run(START, ops);
      exists x ::
        && Mapped(s, x) && Covers(WindowOf(s, x), a)
        && (forall y :: Mapped(s, y) && Covers(WindowOf(s, y), a) ==> y == x)
        && TranslatedBy(s, WindowOf(s, x), a)
        && WindowOf(s, x).phys in s.mem.blocks && s.mem.blocks[WindowOf(s, x).phys] == WindowOf(s, x).size
  {
    StartHolds();
    RunKeeps(START, ops);
    var s := Run(START, ops);
    var x :| Mapped(s, x) && Covers(WindowOf(s, x), a);
    if x.Kept? { assert RangeBacked(s.mem.blocks, s.kept[x.j]); }
    else { assert BufferBacked(s.mem.blocks, s.bos[x.i]); }
    assert TranslatedBy(s, WindowOf(s, x), a);
    forall y | Mapped(s, y) && Covers(WindowOf(s, y), a) ensures y == x {
      OneWindow(s, x, y, a);
    }
  }
}
