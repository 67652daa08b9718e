/** What every operation of the buffer manager keeps: the tables describe the address space
    exactly, and every allocated block has exactly one owner. */
module BufferInvariant {
  import opened PlatformMemory
  import opened BufferModel

  // ---- Who maps what, who owns what -----------------------------------------------------------

  /** The three ways an address range can be claimed: a live buffer's GPU address, its CPU
      mapping, and a retained range. */
  datatype Place = Gpu(i: nat) | Cpu(i: nat) | Kept(j: nat)

  datatype Window = Window(lo: nat, size: nat, phys: int, prot: Prot)

  predicate Mapped(s: State, x: Place) {
    match x
    case Gpu(i) => i < |s.bos| && s.bos[i].live && s.bos[i].gpuVa != 0
    case Cpu(i) => i < |s.bos| && s.bos[i].live && s.bos[i].cpuPtr != 0
    case Kept(j) => j < |s.kept| && s.kept[j].used
  }

  function WindowOf(s: State, x: Place): Window
    requires Mapped(s, x)
  {
    match x
    case Gpu(i) => Window(s.bos[i].gpuVa, s.bos[i].size, s.bos[i].phys, s.bos[i].gpuProt)
    case Cpu(i) => Window(s.bos[i].cpuPtr, s.bos[i].size, s.bos[i].phys, CPU_RW)
    case Kept(j) => Window(s.kept[j].va, s.kept[j].size, s.kept[j].phys, s.kept[j].prot)
  }

  predicate Covers(w: Window, a: nat) {
    Within(a, w.lo, w.size)
  }

  predicate Disjoint(w: Window, w': Window) {
    Apart(w.lo, w.size, w'.lo, w'.size)
  }

  /** A buffer owns its pages while it is live; a retained range once it has been given them. */
  predicate Owns(s: State, x: Place) {
    match x
    case Gpu(i) => i < |s.bos| && s.bos[i].live
    case Cpu(_) => false
    case Kept(j) => j < |s.kept| && s.kept[j].used && s.kept[j].ownsPhys
  }

  function PagesOf(s: State, x: Place): int
    requires Owns(s, x)
  {
    match x
    case Gpu(i) => s.bos[i].phys
    case Kept(j) => s.kept[j].phys
  }

  // ---- The invariant --------------------------------------------------------------------------

  ghost predicate Tables(s: State) {
    |s.bos| == MAX_BO && |s.kept| == MAX_RETAINED
  }

  predicate Addressable(lo: nat, size: nat) {
    lo + size < TWO64
  }

  predicate BufferBacked(blocks: map<int, nat>, b: Buffer) {
    b.live ==>
      && 0 < b.size && b.phys in blocks && blocks[b.phys] == b.size
      && (b.gpuVa != 0 ==> Addressable(b.gpuVa, b.size))
      && (b.cpuPtr != 0 ==> Addressable(b.cpuPtr, b.size))
  }

  predicate RangeBacked(blocks: map<int, nat>, r: Range) {
    r.used ==>
      && 0 < r.size && r.phys in blocks && blocks[r.phys] == r.size
      && 0 < r.va && Addressable(r.va, r.size)
  }

  /** Every entry is backed by a whole allocated block. */
  ghost predicate Backed(s: State) {
    && (forall i :: 0 <= i < |s.bos| ==> BufferBacked(s.mem.blocks, s.bos[i]))
    && (forall j :: 0 <= j < |s.kept| ==> RangeBacked(s.mem.blocks, s.kept[j]))
  }

  ghost predicate BlocksApart(m: Memory) {
    && m.badFrees == 0
    && (forall p :: p in m.blocks ==> 0 <= p && 0 < m.blocks[p] && p + m.blocks[p] < TWO63)
    && (forall p, q :: p in m.blocks && q in m.blocks && p != q ==> Apart(p, m.blocks[p], q, m.blocks[q]))
  }

  /** Exactly one owner per allocated block. */
  ghost predicate OneOwner(s: State) {
    && (forall x, y :: Owns(s, x) && Owns(s, y) && PagesOf(s, x) == PagesOf(s, y) ==> x == y)
    && (forall p :: p in s.mem.blocks ==> exists x :: Owns(s, x) && PagesOf(s, x) == p)
  }

  /** The address space is exactly the disjoint union of the claimed windows. */
  ghost predicate Exact(s: State) {
    && (forall x, y :: Mapped(s, x) && Mapped(s, y) && x != y ==> Disjoint(WindowOf(s, x), WindowOf(s, y)))
    && (forall x, a :: Mapped(s, x) && Covers(WindowOf(s, x), a) ==> TranslatedBy(s, WindowOf(s, x), a))
    && (forall a :: a in s.mem.table ==> exists x :: Mapped(s, x) && Covers(WindowOf(s, x), a))
  }

  predicate TranslatedBy(s: State, w: Window, a: nat) {
    a in s.mem.table && s.mem.table[a] == To(w.phys + (a - w.lo), w.prot)
  }

  /** Retention accounting: the byte count is the sum of the sizes, sequence numbers are distinct
      and issued, and the bound is exceeded by a lone range only. */
  ghost predicate Counted(s: State) {
    CacheCounted(s.kept, s.lastSeq, s.bytes)
  }

  ghost predicate CacheCounted(kept: seq<Range>, lastSeq: nat, bytes: nat) {
    && bytes == SumUsed(kept)
    && (forall j :: 0 <= j < |kept| && kept[j].used ==>
          0 < kept[j].size < TWO63 && 0 < kept[j].seqNo <= lastSeq)
    && (forall j, k :: 0 <= j < k < |kept| && kept[j].used && kept[k].used ==>
          kept[j].seqNo != kept[k].seqNo)
    && (bytes <= RETAINED_BYTES || exists j :: 0 <= j < |kept| && Alone(kept, j))
  }

  ghost predicate Alone(kept: seq<Range>, j: nat)
    requires j < |kept|
  {
    && kept[j].used && SumUsed(kept) == kept[j].size
    && forall k :: 0 <= k < |kept| && kept[k].used ==> k == j
  }

  ghost predicate Inv(s: State) {
    Tables(s) && Backed(s) && BlocksApart(s.mem) && OneOwner(s) && Exact(s) && Counted(s)
  }

  // ---- Moving windows and ownership -----------------------------------------------------------

  /** Outside `except`, the same places claim the same windows. */
  ghost predicate SameClaims(s: State, s': State, except: set<Place>) {
    forall x :: x !in except ==>
      Mapped(s', x) == Mapped(s, x) && (Mapped(s, x) ==> WindowOf(s', x) == WindowOf(s, x))
  }

  ghost predicate SameOwners(s: State, s': State, except: set<Place>) {
    forall x :: x !in except ==>
      Owns(s', x) == Owns(s, x) && (Owns(s, x) ==> PagesOf(s', x) == PagesOf(s, x))
  }

  /** A window changes hands; the address space does not. */
  lemma ExactMoved(s: State, s': State, x: Place, y: Place)
    requires Exact(s) && SameClaims(s, s', {x, y})
    requires Mapped(s, x) && !Mapped(s, y) && !Mapped(s', x) && Mapped(s', y)
    requires WindowOf(s', y) == WindowOf(s, x) && s'.mem.table == s.mem.table
    ensures Exact(s')
  {
  }

  /** A window is unmapped and no longer claimed. */
  lemma ExactRemoved(s: State, s': State, x: Place)
    requires Exact(s) && SameClaims(s, s', {x})
    requires Mapped(s, x) && !Mapped(s', x)
    requires s'.mem.table == Unmap(s.mem, WindowOf(s, x).lo, WindowOf(s, x).size).table
    ensures Exact(s')
  {
    var w := WindowOf(s, x);
    forall a | a in s'.mem.table ensures exists z :: Mapped(s', z) && Covers(WindowOf(s', z), a) {
      var z :| Mapped(s, z) && Covers(WindowOf(s, z), a);
      assert z != x;
      assert Mapped(s', z);
    }
    forall z, a | Mapped(s', z) && Covers(WindowOf(s', z), a) ensures TranslatedBy(s', WindowOf(s', z), a) {
      assert z != x && Mapped(s, z) && TranslatedBy(s, WindowOf(s, z), a);
      assert Disjoint(WindowOf(s, z), w);
    }
    forall z, y | Mapped(s', z) && Mapped(s', y) && z != y ensures Disjoint(WindowOf(s', z), WindowOf(s', y)) {
      assert Mapped(s, z) && Mapped(s, y);
    }
  }

  /** A window is mapped where nobody claimed anything. */
  lemma ExactAdded(s: State, s': State, x: Place)
    requires Exact(s) && SameClaims(s, s', {x})
    requires !Mapped(s, x) && Mapped(s', x)
    requires var w := WindowOf(s', x); s'.mem.table == Map(s.mem, w.lo, w.size, w.phys, w.prot).table
    requires forall y :: Mapped(s, y) ==> Disjoint(WindowOf(s, y), WindowOf(s', x))
    ensures Exact(s')
  {
    var w := WindowOf(s', x);
    forall a | a in s'.mem.table ensures exists z :: Mapped(s', z) && Covers(WindowOf(s', z), a) {
      if !Covers(w, a) {
        var z :| Mapped(s, z) && Covers(WindowOf(s, z), a);
        assert z != x;
        assert Mapped(s', z);
      }
    }
    forall z, a | Mapped(s', z) && Covers(WindowOf(s', z), a) ensures TranslatedBy(s', WindowOf(s', z), a) {
      if z != x {
        AddedElsewhere(s, s', x, z, a);
      }
    }
    forall z, y | Mapped(s', z) && Mapped(s', y) && z != y ensures Disjoint(WindowOf(s', z), WindowOf(s', y)) {
      assert z == x || Mapped(s, z);
      assert y == x || Mapped(s, y);
    }
  }

  lemma AddedElsewhere(s: State, s': State, x: Place, z: Place, a: nat)
    requires Exact(s) && SameClaims(s, s', {x}) && Mapped(s', x) && z != x
    requires var w := WindowOf(s', x); s'.mem.table == Map(s.mem, w.lo, w.size, w.phys, w.prot).table
    requires Mapped(s, z) && Disjoint(WindowOf(s, z), WindowOf(s', x)) && Covers(WindowOf(s, z), a)
    ensures TranslatedBy(s', WindowOf(s, z), a)
  {
  }

  /** Nothing is claimed differently and nothing is mapped differently. */
  lemma ExactSame(s: State, s': State)
    requires Exact(s) && SameClaims(s, s', {}) && s'.mem.table == s.mem.table
    ensures Exact(s')
  {
  }

  lemma OwnerMoved(s: State, s': State, x: Place, y: Place)
    requires OneOwner(s) && SameOwners(s, s', {x, y})
    requires Owns(s, x) && (x == y || !Owns(s, y)) && (x == y || !Owns(s', x)) && Owns(s', y)
    requires PagesOf(s', y) == PagesOf(s, x) && s'.mem.blocks == s.mem.blocks
    ensures OneOwner(s')
  {
  }

  /** An owner gives its block back to the platform. */
  lemma OwnerFreed(s: State, s': State, x: Place)
    requires OneOwner(s) && SameOwners(s, s', {x})
    requires Owns(s, x) && !Owns(s', x)
    requires s'.mem.blocks == s.mem.blocks - {PagesOf(s, x)}
    ensures OneOwner(s')
  {
  }

  lemma OwnerAdded(s: State, s': State, x: Place)
    requires OneOwner(s) && SameOwners(s, s', {x})
    requires forall y :: Owns(s, y) ==> PagesOf(s, y) in s.mem.blocks
    requires !Owns(s, x) && Owns(s', x) && PagesOf(s', x) !in s.mem.blocks
    requires s'.mem.blocks.Keys == s.mem.blocks.Keys + {PagesOf(s', x)}
    ensures OneOwner(s')
  {
  }

  lemma OwnersSame(s: State, s': State)
    requires OneOwner(s) && SameOwners(s, s', {}) && s'.mem.blocks == s.mem.blocks
    ensures OneOwner(s')
  {
  }
}
