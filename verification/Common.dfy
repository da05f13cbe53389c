/** What several parts of the kernel share: optional values, bytes, CEIL_DIV, sizes of sets. */
module Common {

  datatype Option<+T> = None | Some(value: T)

  type byte = x: int | 0 <= x < 256

  const WORD32: nat := 0x1_0000_0000

  // ----- the kernel's layout, and what several parts keep in memory -----

  const PAGE_SIZE: nat := 4096
  /** Entries of a page directory or a page table. */
  const ENTRIES: nat := 1024
  const KERNBASE: nat := 0xC000_0000
  const NULL: nat := 0
  /** sizeof(block_header_t), with what kmalloc and vmalloc write there. */
  const HEADER_SIZE: nat := 12
  const MAGIC: nat := 0xDEADBEEF
  const MEM_TYPE_KMALLOC: nat := 0
  const MEM_TYPE_VMALLOC: nat := 1
  const NUM_PROC: nat := 32

  /** CEIL_DIV(a, b). */
  function CeilDiv(a: nat, b: nat): (r: nat)
    requires b > 0
  {
    (a + b - 1) / b
  }

  lemma SubsetSize(s: set<nat>, t: set<nat>)
    requires s <= t
    ensures |s| <= |t| && (s != t ==> |s| < |t|)
  {
    assert t == s + (t - s);
    assert s != t ==> t - s != {};
  }

  lemma UnionSize(s: set<nat>, t: set<nat>)
    ensures |s + t| == |s| + |t - s|
  {
    assert s + t == s + (t - s);
  }
}
