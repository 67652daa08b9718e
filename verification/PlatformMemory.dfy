/** The platform's direct memory and the one virtual address space the CPU and the GPU share.

    The buffer manager only touches it through `oops_mem_alloc_direct`, `oops_mem_free_direct`,
    `oops_mem_batch_map`, `oops_mem_map_direct` and `oops_mem_unmap`. What those calls do to the
    machine is modelled here; whether the platform grants a request is decided by the caller of
    these functions. Translation is kept per byte, so no page arithmetic is needed. */
module PlatformMemory {
  const TWO63: nat := 0x8000_0000_0000_0000
  const TWO64: nat := 0x1_0000_0000_0000_0000

  /** The four OOPS_PROT_* bits. */
  datatype Prot = Prot(gpuRead: bool, gpuWrite: bool, cpuRead: bool, cpuWrite: bool)

  const NO_PROT := Prot(false, false, false, false)
  const CPU_RW := Prot(false, false, true, true)

  /** What one mapped virtual byte stands for. */
  datatype Translation = To(frame: int, prot: Prot)

  /** `blocks` holds every allocated direct-memory block (offset to size), `table` every mapped
      byte. `badFrees` counts frees that did not name an allocated block with its own size. */
  datatype Memory = Memory(blocks: map<int, nat>, table: map<nat, Translation>, badFrees: nat)

  const FRESH_MEMORY := Memory(map[], map[], 0)

  predicate Within(a: nat, lo: nat, size: nat) {
    lo <= a < lo + size
  }

  predicate Apart(lo: int, size: nat, lo': int, size': nat) {
    lo + size <= lo' || lo' + size' <= lo
  }

  /** uint64_t addition and subtraction. */
  function Add64(a: nat, b: nat): nat {
    (a + b) % TWO64
  }

  function Sub64(a: nat, b: nat): nat {
    (a - b) % TWO64
  }

  function Allocate(m: Memory, phys: int, size: nat): Memory {
    m.(blocks := m.blocks[phys := size])
  }

  function Free(m: Memory, phys: int, size: nat): Memory {
    if phys in m.blocks && m.blocks[phys] == size then m.(blocks := m.blocks - {phys})
    else m.(badFrees := m.badFrees + 1)
  }

  function Unmap(m: Memory, lo: nat, size: nat): Memory {
    m.(table := map a | a in m.table && !Within(a, lo, size) :: m.table[a])
  }

  function Map(m: Memory, lo: nat, size: nat, phys: int, prot: Prot): (m': Memory)
    ensures forall a :: a in m'.table <==> a in m.table || Within(a, lo, size)
    ensures forall a :: a in m'.table ==>
      m'.table[a] == if Within(a, lo, size) then To(phys + (a - lo), prot) else m.table[a]
  {
    m.(table := m.table + map a: nat | lo <= a < lo + size && Within(a, lo, size) :: To(phys + (a - lo), prot))
  }

  /** An offset the platform may hand out for a new block of `size` bytes: it overlaps no block,
      and its end is still an int64_t. */
  ghost predicate Grantable(m: Memory, phys: int, size: nat) {
    && 0 <= phys && phys + size < TWO63
    && forall p :: p in m.blocks ==> Apart(p, m.blocks[p], phys, size)
  }

  /** An address range in which nothing is mapped, whose end is still a uint64_t. */
  ghost predicate Vacant(m: Memory, lo: nat, size: nat) {
    && 0 < lo && lo + size < TWO64
    && forall a :: a in m.table ==> !Within(a, lo, size)
  }
}
