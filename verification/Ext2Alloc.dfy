/** The ext2 block and inode allocators: bitmaps on the disk, counts in the group descriptors and the
    superblock, changed in place. */
module Ext2Alloc {
  import opened Common
  import opened Bitmap
  import opened GroupSpace

  /** 0 with ENOSPC; the two -1 exits with ENOSPC; a number. */
  datatype Result = NoSpace | NoGroup | NoBit | Got(number: nat)

  /** The bitmaps that lie in the blocks named by at. */
  function BitsAt(disk: seq<seq<bv8>>, at: seq<nat>): (r: seq<seq<bool>>)
    requires forall g :: 0 <= g < |at| ==> at[g] < |disk|
    ensures |r| == |at| && forall g :: 0 <= g < |at| ==> r[g] == Bits(disk[at[g]])
  {
    seq(|at|, g requires 0 <= g < |at| => Bits(disk[at[g]]))
  }

  lemma StoreBitmap(disk: seq<seq<bv8>>, at: seq<nat>, g: nat, block: seq<bv8>)
    requires forall i :: 0 <= i < |at| ==> at[i] < |disk|
    requires forall i, j :: 0 <= i < j < |at| ==> at[i] != at[j]
    requires g < |at|
    ensures BitsAt(disk[at[g] := block], at) == BitsAt(disk, at)[g := Bits(block)]
  {
  }

  lemma StoreElsewhere(disk: seq<seq<bv8>>, at: seq<nat>, n: nat, block: seq<bv8>)
    requires forall i :: 0 <= i < |at| ==> at[i] < |disk| && at[i] != n
    requires n < |disk|
    ensures BitsAt(disk[n := block], at) == BitsAt(disk, at)
  {
    assert forall i :: 0 <= i < |at| ==> disk[n := block][at[i]] == disk[at[i]];
  }

  /** Reading a bit, as atomic_clear_bit returns it. */
  method GetBit(bitmap: array<bv8>, x: nat) returns (v: bool)
    requires x < 8 * bitmap.Length
    ensures v == Bits(bitmap[..])[x]
  {
    v := TestBit(bitmap[x / 8], x % 8);
  }

  lemma FullByte(b: bv8)
    requires b == 0xFF
    ensures forall j :: 0 <= j < 8 ==> TestBit(b, j)
  {
  }

  lemma FirstClearIs(bits: seq<bool>, b: nat)
    requires b < |bits| && !bits[b] && forall i :: 0 <= i < b ==> bits[i]
    ensures FirstClear(bits) == Some(b)
  {
  }

  /** find_free_bit_in_bitmap; -1 when every bit is set. */
  method FindFreeBit(bitmap: array<bv8>) returns (bit: int)
    ensures bit == match FirstClear(Bits(bitmap[..])) case None => -1 case Some(b) => b
  {
    ghost var bits: seq<bool> := Bits(bitmap[..]);
    var i := 0;
    while i < bitmap.Length
      invariant 0 <= i <= bitmap.Length
      invariant forall x :: 0 <= x < 8 * i ==> bits[x]
    {
      var b := bitmap[i];
      if b != 0xFF {
        var j := 0;
        while j < 8
          invariant 0 <= j <= 8
          invariant forall x :: 0 <= x < 8 * i + j ==> bits[x]
        {
          assert bits[8 * i + j] == TestBit(b, j);
          if !TestBit(b, j) {
            FirstClearIs(bits, 8 * i + j);
            return 8 * i + j;
          }
          j := j + 1;
        }
      } else {
        FullByte(b);
        assert forall x :: 8 * i <= x < 8 * i + 8 ==> bits[x] == TestBit(b, x % 8);
      }
      i := i + 1;
    }
    bit := -1;
  }

  /** The bitmaps' blocks: they exist, are all different, and lie in the numbered range. */
  predicate Placed(l: Layout, size: nat, bb: seq<nat>, ib: seq<nat>) {
    && l.limit <= size && |bb| == |ib|
    && (forall g :: 0 <= g < |bb| ==> Unit(l, bb[g]))
    && (forall g :: 0 <= g < |ib| ==> Unit(l, ib[g]))
    && (forall g, h :: 0 <= g < h < |bb| ==> bb[g] != bb[h])
    && (forall g, h :: 0 <= g < h < |ib| ==> ib[g] != ib[h])
    && (forall g, h :: 0 <= g < |bb| && 0 <= h < |ib| ==> bb[g] != ib[h])
  }

  /** They are marked in use themselves. */
  ghost predicate Reserved(l: Layout, s: Space, bb: seq<nat>, ib: seq<nat>)
    requires Consistent(l, s) && Placed(l, l.limit, bb, ib)
  {
    forall g :: 0 <= g < |bb| ==> IsSet(l, s, bb[g]) && IsSet(l, s, ib[g])
  }

  lemma PlacedInside(l: Layout, size: nat, bb: seq<nat>, ib: seq<nat>)
    requires Placed(l, size, bb, ib)
    ensures forall g :: 0 <= g < |bb| ==> bb[g] < size && ib[g] < size
    ensures Placed(l, l.limit, bb, ib)
  {
  }

  /** Storing the bitmap with the new bit and then zeroing the new block, which is no bitmap's. */
  lemma NewBlockStored(l: Layout, s: Space, d0: seq<seq<bv8>>, bb: seq<nat>, ib: seq<nat>, g: nat, b: nat,
                       bytes: seq<bv8>, zeros: seq<bv8>)
    requires Placed(l, |d0|, bb, ib) && Placed(l, l.limit, bb, ib)
    requires forall i :: 0 <= i < |bb| ==> bb[i] < |d0| && ib[i] < |d0|
    requires Consistent(l, s) && s.bits == BitsAt(d0, bb) && Reserved(l, s, bb, ib)
    requires FirstNonzero(s.free) == Some(g) && g < |bb| && FirstClear(s.bits[g]) == Some(b)
    requires Bits(bytes) == s.bits[g][b := true]
    ensures
      var n := Number(l, g, b);
      && Allocate(l, s).1 == Some(n) && l.base <= n < |d0|
      && s.free[g] > 0 && s.total > 0
      && var d := d0[bb[g] := bytes][n := zeros];
      && Allocate(l, s).0 == Space(BitsAt(d, bb), s.free[g := s.free[g] - 1], s.total - 1)
      && BitsAt(d, ib) == BitsAt(d0, ib)
      && Consistent(l, Allocate(l, s).0) && Reserved(l, Allocate(l, s).0, bb, ib)
  {
    hide IsSet, Bits, FirstNonzero, FirstClear, Consistent;
    AllocateKeeps(l, s);
    var n := Number(l, g, b);
    CountPositive(l, s, g);
    StoreBitmap(d0, bb, g, bytes);
    StoreElsewhere(d0, ib, bb[g], bytes);
    StoreElsewhere(d0[bb[g] := bytes], bb, n, zeros);
    StoreElsewhere(d0[bb[g] := bytes], ib, n, zeros);
  }

  /** With the total positive the group loop stops at a group with a clear bit. */
  lemma GroupFound(l: Layout, s: Space, counts: seq<nat>, count: nat, g: nat)
    requires Consistent(l, s) && s.total > 0 && count == |counts| && s.free == counts
    requires g == match FirstNonzero(counts[..count]) case None => count case Some(i) => i
    ensures g < count && g < |s.bits| && FirstNonzero(s.free) == Some(g) && FirstClear(s.bits[g]).Some?
  {
    assert counts[..count] == counts;
    CountPositive(l, s, g);
  }

  /** s' is s after the release of unit u. */
  ghost predicate Released(l: Layout, s: Space, u: nat, s': Space)
    requires Consistent(l, s) && Unit(l, u)
  {
    ReleaseKeeps(l, s, u);
    Release(l, s, u) == Some(s')
  }

  /** One directory more in group g, on a 16-bit count, or one fewer; every other group's count is as it was. */
  ghost predicate DirsMoved(was: seq<nat>, g: nat, now: seq<nat>, more: bool) {
    && |now| == |was| && g < |was|
    && (more ==> now[g] == (was[g] + 1) % 0x1_0000)
    && (!more ==> now[g] < 0x1_0000 && (now[g] + 1) % 0x1_0000 == was[g] % 0x1_0000)
    && forall h :: 0 <= h < |was| && h != g ==> now[h] == was[h]
  }

  /** Making a directory and freeing it again gives every group's count back, on counts of 16 bits. */
  lemma DirsComeBack(was: seq<nat>, g: nat, made: seq<nat>, now: seq<nat>)
    requires forall h :: 0 <= h < |was| ==> was[h] < 0x1_0000
    requires DirsMoved(was, g, made, true) && DirsMoved(made, g, now, false)
    ensures now == was
  {
    assert now[g] == was[g];
  }

  lemma LocateUnit(l: Layout, u: nat)
    requires l.perGroup > 0 && Unit(l, u)
    ensures GroupOf(l, u) == (u - l.base) / l.perGroup && BitOf(l, u) == (u - l.base) % l.perGroup
  {
  }

  lemma FreedBlockStored(l: Layout, s: Space, d0: seq<seq<bv8>>, bb: seq<nat>, ib: seq<nat>, u: nat, g: nat, b: nat,
                         bytes: seq<bv8>, s': Space)
    requires Placed(l, |d0|, bb, ib) && Placed(l, l.limit, bb, ib)
    requires forall i :: 0 <= i < |bb| ==> bb[i] < |d0| && ib[i] < |d0|
    requires Consistent(l, s) && s.bits == BitsAt(d0, bb) && Reserved(l, s, bb, ib)
    requires Unit(l, u) && IsSet(l, s, u) && g == GroupOf(l, u) && b == BitOf(l, u)
    requires g < |bb| && b < |s.bits[g]| && Bits(bytes) == s.bits[g][b := false]
    requires g < |s.free| && s' == Space(BitsAt(d0[bb[g] := bytes], bb), s.free[g := s.free[g] + 1], s.total + 1)
    ensures Released(l, s, u, s')
    ensures Consistent(l, s')
    ensures Reserved(l, s', bb, ib) <==> u !in bb && u !in ib
    ensures BitsAt(d0[bb[g] := bytes], ib) == BitsAt(d0, ib)
  {
    hide IsSet, Bits, GroupOf, BitOf, Clear, Sum;
    ReleaseKeeps(l, s, u);
    StoreBitmap(d0, bb, g, bytes);
    StoreElsewhere(d0, ib, bb[g], bytes);
  }

  lemma ReservedAreSet(l: Layout, s: Space, bb: seq<nat>, ib: seq<nat>, u: nat)
    requires Consistent(l, s) && Placed(l, l.limit, bb, ib) && Reserved(l, s, bb, ib) && Unit(l, u) && !IsSet(l, s, u)
    ensures u !in bb && u !in ib
  {
  }

  lemma NewInodeStored(l: Layout, s: Space, d0: seq<seq<bv8>>, ib: seq<nat>, bb: seq<nat>, g: nat, b: nat,
                       bytes: seq<bv8>)
    requires forall i :: 0 <= i < |ib| ==> ib[i] < |d0|
    requires forall i :: 0 <= i < |bb| ==> bb[i] < |d0|
    requires forall i, j :: 0 <= i < j < |ib| ==> ib[i] != ib[j]
    requires forall i, j :: 0 <= i < |bb| && 0 <= j < |ib| ==> bb[i] != ib[j]
    requires Consistent(l, s) && s.bits == BitsAt(d0, ib)
    requires FirstNonzero(s.free) == Some(g) && g < |ib| && FirstClear(s.bits[g]) == Some(b)
    requires Bits(bytes) == s.bits[g][b := true]
    ensures
      var d := d0[ib[g] := bytes];
      && g < |s.free| && s.free[g] > 0 && s.total > 0
      && Allocate(l, s) == (Space(BitsAt(d, ib), s.free[g := s.free[g] - 1], s.total - 1), Some(Number(l, g, b)))
      && BitsAt(d, bb) == BitsAt(d0, bb) && Consistent(l, Allocate(l, s).0)
    ensures GroupOf(l, Number(l, g, b)) == g
  {
    hide IsSet, Bits, FirstNonzero, FirstClear;
    AllocateKeeps(l, s);
    CountPositive(l, s, g);
    NumberingInverts(l, g, b);
    StoreBitmap(d0, ib, g, bytes);
    StoreElsewhere(d0, bb, ib[g], bytes);
  }

  lemma FreedInodeStored(l: Layout, s: Space, d0: seq<seq<bv8>>, ib: seq<nat>, bb: seq<nat>, u: nat, bytes: seq<bv8>)
    requires forall i :: 0 <= i < |ib| ==> ib[i] < |d0|
    requires forall i :: 0 <= i < |bb| ==> bb[i] < |d0|
    requires forall i, j :: 0 <= i < j < |ib| ==> ib[i] != ib[j]
    requires forall i, j :: 0 <= i < |bb| && 0 <= j < |ib| ==> bb[i] != ib[j]
    requires Consistent(l, s) && s.bits == BitsAt(d0, ib) && Unit(l, u) && IsSet(l, s, u)
    requires
      var g, b := GroupOf(l, u), BitOf(l, u);
      g < |ib| && b < |s.bits[g]| && Bits(bytes) == s.bits[g][b := false]
    ensures
      var g := GroupOf(l, u);
      var d := d0[ib[g] := bytes];
      var s' := Space(BitsAt(d, ib), s.free[g := s.free[g] + 1], s.total + 1);
      Released(l, s, u, s') && Consistent(l, s') && BitsAt(d, bb) == BitsAt(d0, bb)
  {
    hide IsSet, Bits, Consistent, GroupOf, BitOf;
    ReleaseKeeps(l, s, u);
    StoreBitmap(d0, ib, GroupOf(l, u), bytes);
    StoreElsewhere(d0, bb, ib[GroupOf(l, u)], bytes);
  }

  lemma NoGroupMeansNone(l: Layout, s: Space, g: nat)
    requires Consistent(l, s) && |s.free| == |s.bits|
    requires g == match FirstNonzero(s.free) case None => |s.free| case Some(i) => i
    ensures g == |s.free| <==> s.total == 0
  {
    if FirstNonzero(s.free).Some? {
      CountPositive(l, s, g);
    }
  }

  lemma CountPositive(l: Layout, s: Space, g: nat)
    requires Consistent(l, s) && FirstNonzero(s.free) == Some(g)
    ensures g < |s.bits| && g < |s.free| && s.free[g] > 0 && s.total > 0 && FirstClear(s.bits[g]).Some?
  {
    SumAtLeast(s.free, g);
  }

  class Ext2 {
    const blockSize: nat
    const blocksCount: nat
    const inodesCount: nat
    const blocksPerGroup: nat
    const inodesPerGroup: nat
    const firstDataBlock: nat
    const disk: array<seq<bv8>>
    const blockBitmap: seq<nat>
    const inodeBitmap: seq<nat>
    const freeBlocks: array<nat>
    const freeInodes: array<nat>
    const usedDirs: array<nat>
    var totalBlocks: nat
    var totalInodes: nat

    function BlockLayout(): Layout {
      Layout(blocksPerGroup, firstDataBlock, blocksCount)
    }

    function InodeLayout(): Layout {
      Layout(inodesPerGroup, 1, inodesCount + 1)
    }

    ghost predicate Shape()
      reads this, disk, freeBlocks, freeInodes, usedDirs
    {
      && blocksPerGroup > 0 && inodesPerGroup > 0 && Placed(BlockLayout(), disk.Length, blockBitmap, inodeBitmap)
      && freeBlocks != freeInodes && freeBlocks != usedDirs && freeInodes != usedDirs
      && |blockBitmap| <= freeBlocks.Length == CeilDiv(blocksCount, blocksPerGroup)
      && CeilDiv(inodesCount, inodesPerGroup) == |inodeBitmap|
      && freeInodes.Length == usedDirs.Length == freeBlocks.Length
      && (forall k :: 0 <= k < disk.Length ==> |disk[k]| == blockSize)
    }

    ghost function Blocks(): (s: Space)
      requires Shape()
      reads this, disk, freeBlocks, freeInodes, usedDirs
    {
      PlacedInside(BlockLayout(), disk.Length, blockBitmap, inodeBitmap);
      Space(BitsAt(disk[..], blockBitmap), freeBlocks[..], totalBlocks)
    }

    ghost function Inodes(): (s: Space)
      requires Shape()
      reads this, disk, freeBlocks, freeInodes, usedDirs
    {
      PlacedInside(BlockLayout(), disk.Length, blockBitmap, inodeBitmap);
      Space(BitsAt(disk[..], inodeBitmap), freeInodes[..|inodeBitmap|], totalInodes)
    }

    /** Both accounts are exact. */
    ghost predicate Exact()
      reads this, disk, freeBlocks, freeInodes, usedDirs
    {
      && Shape() && Consistent(BlockLayout(), Blocks()) && Consistent(InodeLayout(), Inodes())
      && Placed(BlockLayout(), BlockLayout().limit, blockBitmap, inodeBitmap)
    }

    /** And the bitmaps' own blocks are marked in use. */
    ghost predicate Valid()
      reads this, disk, freeBlocks, freeInodes, usedDirs
    {
      Exact() && Reserved(BlockLayout(), Blocks(), blockBitmap, inodeBitmap)
    }

    method ReadBlock(n: nat) returns (buff: array<bv8>)
      requires n < disk.Length
      ensures fresh(buff) && buff[..] == disk[n]
    {
      var content := disk[n];
      buff := new bv8[|content|](k requires 0 <= k < |content| => content[k]);
      assert buff[..] == content;
    }

    /** A write to the disk. */
    method StoreBlock(n: nat, content: seq<bv8>)
      requires Shape() && n < disk.Length && |content| == blockSize
      modifies disk
      ensures Shape() && disk[..] == old(disk[..])[n := content]
    {
      disk[n] := content;
    }

    /** The first group whose count is not zero, or count. */
    method FindGroup(counts: array<nat>, count: nat) returns (g: nat)
      requires count <= counts.Length
      ensures g == match FirstNonzero(counts[..count]) case None => count case Some(i) => i
    {
      g := 0;
      while g < count
        invariant 0 <= g <= count && forall i :: 0 <= i < g ==> counts[i] == 0
      {
        if counts[g] != 0 {
          return;
        }
        g := g + 1;
      }
    }

    /** d more free blocks, in the group and in all. */
    method CountBlock(group: nat, d: int)
      requires Shape() && group < freeBlocks.Length && freeBlocks[group] + d >= 0 && totalBlocks + d >= 0
      modifies freeBlocks, this`totalBlocks
      ensures Shape() && totalBlocks == old(totalBlocks) + d
      ensures freeBlocks[..] == old(freeBlocks[..])[group := old(freeBlocks[group]) + d]
    {
      freeBlocks[group] := freeBlocks[group] + d;
      totalBlocks := totalBlocks + d;
    }

    /** d more free inodes, and as many directories fewer if it is one. */
    method CountInode(group: nat, d: int, isDir: bool)
      requires Shape() && group < |inodeBitmap| && freeInodes[group] + d >= 0 && totalInodes + d >= 0
      requires d == 1 || d == -1
      modifies freeInodes, usedDirs, this`totalInodes
      ensures Shape() && totalInodes == old(totalInodes) + d
      ensures freeInodes[..|inodeBitmap|] == old(freeInodes[..|inodeBitmap|])[group := old(freeInodes[group]) + d]
      ensures isDir ==> DirsMoved(old(usedDirs[..]), group, usedDirs[..], d < 0)
      ensures !isDir ==> usedDirs[..] == old(usedDirs[..])
    {
      freeInodes[group] := freeInodes[group] + d;
      totalInodes := totalInodes + d;
      if isDir {
        var dirs: int := usedDirs[group];
        usedDirs[group] := (dirs - d) % 0x1_0000;
      }
    }

    method NewBlock() returns (r: Result)
      requires Valid()
      modifies disk, freeBlocks, this`totalBlocks
      ensures Valid()
      ensures r == match Allocate(BlockLayout(), old(Blocks())).1 case None => NoSpace case Some(n) => Got(n)
      ensures Blocks() == Allocate(BlockLayout(), old(Blocks())).0 && Inodes() == old(Inodes())
      ensures r.Got? ==> r.number < disk.Length && disk[r.number] == seq(blockSize, _ => 0)
      ensures forall k :: 0 <= k < disk.Length && k !in blockBitmap && r != Got(k) ==> disk[k] == old(disk[k])
    {
      hide Consistent, IsSet, Reserved, CeilDiv, Placed, BitsAt, FirstNonzero, FirstClear, Allocate, Bits, Number,
           DirsMoved;
      PlacedInside(BlockLayout(), disk.Length, blockBitmap, inodeBitmap);
      ghost var s: Space := Blocks();
      AllocateKeeps(BlockLayout(), s);
      if totalBlocks == 0 {
        return NoSpace;
      }
      var count := CeilDiv(blocksCount, blocksPerGroup);
      var group := FindGroup(freeBlocks, count);
      GroupFound(BlockLayout(), s, freeBlocks[..], count, group);
      if group == count {
        return NoGroup;
      }
      var bitmap := ReadBlock(blockBitmap[group]);
      var bit := FindFreeBit(bitmap);
      if bit < 0 {
        return NoBit;
      }
      SetBit(bitmap, bit);
      var number := TakeBlock(group, bit, bitmap[..]);
      r := Got(number);
    }

    /** The new bitmap and the counts stored, and the block zeroed. */
    method TakeBlock(group: nat, bit: nat, bytes: seq<bv8>) returns (number: nat)
      requires Valid() && FirstNonzero(Blocks().free) == Some(group) && group < |blockBitmap|
      requires FirstClear(Blocks().bits[group]) == Some(bit) && Bits(bytes) == Blocks().bits[group][bit := true]
      requires |bytes| == blockSize
      modifies disk, freeBlocks, this`totalBlocks
      ensures Valid()
      ensures (Blocks(), Some(number)) == Allocate(BlockLayout(), old(Blocks())) && Inodes() == old(Inodes())
      ensures number < disk.Length && disk[number] == seq(blockSize, _ => 0)
      ensures forall k :: 0 <= k < disk.Length && k !in blockBitmap && k != number ==> disk[k] == old(disk[k])
    {
      hide Consistent, IsSet, Reserved, CeilDiv, Placed, BitsAt, FirstNonzero, FirstClear, Allocate, Bits, Number;
      PlacedInside(BlockLayout(), disk.Length, blockBitmap, inodeBitmap);
      number := Number(BlockLayout(), group, bit);
      var zeros: seq<bv8> := seq(blockSize, _ => 0);
      NewBlockStored(BlockLayout(), Blocks(), disk[..], blockBitmap, inodeBitmap, group, bit, bytes, zeros);
      CountBlock(group, -1);
      StoreBlock(blockBitmap[group], bytes);
      StoreBlock(number, zeros);
    }

    /** 0 as true, EINVAL as false. The bitmaps stay reserved unless one of their own blocks is freed. */
    method FreeBlock(number: nat) returns (ok: bool)
      requires Valid() && Unit(BlockLayout(), number)
      modifies disk, freeBlocks, this`totalBlocks
      ensures Exact() && Inodes() == old(Inodes())
      ensures Valid() <==> number !in blockBitmap && number !in inodeBitmap
      ensures ok <==> old(IsSet(BlockLayout(), Blocks(), number))
      ensures ok ==> Released(BlockLayout(), old(Blocks()), number, Blocks())
      ensures !ok ==> Blocks() == old(Blocks())
      ensures forall k :: 0 <= k < disk.Length && k !in blockBitmap ==> disk[k] == old(disk[k])
    {
      hide Consistent, IsSet, Reserved, CeilDiv, Placed, BitsAt, Bits, GroupOf, BitOf, DirsMoved;
      PlacedInside(BlockLayout(), disk.Length, blockBitmap, inodeBitmap);
      ghost var s: Space := Blocks();
      ReleaseKeeps(BlockLayout(), s, number);
      LocateUnit(BlockLayout(), number);
      var group := (number - firstDataBlock) / blocksPerGroup;
      var bit := (number - firstDataBlock) % blocksPerGroup;
      var bitmap := ReadBlock(blockBitmap[group]);
      var was := GetBit(bitmap, bit);
      if !was {
        ReservedAreSet(BlockLayout(), s, blockBitmap, inodeBitmap, number);
        return false;
      }
      ClearBit(bitmap, bit);
      ReturnBlock(number, group, bit, bitmap[..]);
      ok := true;
    }

    /** The counts and the new bitmap stored. */
    method ReturnBlock(ghost number: nat, group: nat, ghost bit: nat, bytes: seq<bv8>)
      requires Valid() && Unit(BlockLayout(), number) && IsSet(BlockLayout(), Blocks(), number)
      requires group == GroupOf(BlockLayout(), number) < |blockBitmap| && bit == BitOf(BlockLayout(), number)
      requires bit < |Blocks().bits[group]| && Bits(bytes) == Blocks().bits[group][bit := false] && |bytes| == blockSize
      modifies disk, freeBlocks, this`totalBlocks
      ensures Exact() && Inodes() == old(Inodes())
      ensures Valid() <==> number !in blockBitmap && number !in inodeBitmap
      ensures Released(BlockLayout(), old(Blocks()), number, Blocks())
      ensures forall k :: 0 <= k < disk.Length && k !in blockBitmap ==> disk[k] == old(disk[k])
    {
      hide Consistent, IsSet, Reserved, CeilDiv, Placed, BitsAt, Bits, GroupOf, BitOf, Released;
      PlacedInside(BlockLayout(), disk.Length, blockBitmap, inodeBitmap);
      ghost var s: Space := Blocks();
      ghost var s': Space := Space(BitsAt(disk[..][blockBitmap[group] := bytes], blockBitmap),
                                   s.free[group := s.free[group] + 1], s.total + 1);
      FreedBlockStored(BlockLayout(), s, disk[..], blockBitmap, inodeBitmap, number, group, bit, bytes, s');
      CountBlock(group, 1);
      StoreBlock(blockBitmap[group], bytes);
    }

    /** The bitmap and counter part of inode creation; NoSpace is ENOSPC. */
    method NewInode(isDir: bool) returns (r: Result)
      requires Valid()
      modifies disk, freeInodes, usedDirs, this`totalInodes
      ensures Valid() && Blocks() == old(Blocks())
      ensures r == match Allocate(InodeLayout(), old(Inodes())).1 case None => NoSpace case Some(n) => Got(n)
      ensures Inodes() == Allocate(InodeLayout(), old(Inodes())).0
      ensures r.Got? ==> r.number >= 1
      ensures r.Got? && isDir ==>
        DirsMoved(old(usedDirs[..]), GroupOf(InodeLayout(), r.number), usedDirs[..], true)
      ensures !(r.Got? && isDir) ==> usedDirs[..] == old(usedDirs[..])
      ensures forall k :: 0 <= k < disk.Length && k !in inodeBitmap ==> disk[k] == old(disk[k])
    {
      hide Consistent, IsSet, Reserved, CeilDiv, Placed, BitsAt, FirstNonzero, FirstClear, Allocate, Bits, Number,
           DirsMoved;
      PlacedInside(BlockLayout(), disk.Length, blockBitmap, inodeBitmap);
      ghost var s: Space := Inodes();
      AllocateKeeps(InodeLayout(), s);
      var count := CeilDiv(inodesCount, inodesPerGroup);
      var group := FindGroup(freeInodes, count);
      NoGroupMeansNone(InodeLayout(), s, group);
      if group == count {
        return NoSpace;
      }
      GroupFound(InodeLayout(), s, s.free, count, group);
      var bitmap := ReadBlock(inodeBitmap[group]);
      var bit := FindFreeBit(bitmap);
      if bit < 0 {
        return NoBit;
      }
      SetBit(bitmap, bit);
      var number := TakeInode(group, bit, bitmap[..], isDir);
      r := Got(number);
    }

    /** The counts and the new bitmap stored. */
    method TakeInode(group: nat, bit: nat, bytes: seq<bv8>, isDir: bool) returns (number: nat)
      requires Valid() && FirstNonzero(Inodes().free) == Some(group) && group < |inodeBitmap|
      requires FirstClear(Inodes().bits[group]) == Some(bit)
      requires Bits(bytes) == Inodes().bits[group][bit := true] && |bytes| == blockSize
      modifies disk, freeInodes, usedDirs, this`totalInodes
      ensures Valid() && Blocks() == old(Blocks())
      ensures (Inodes(), Some(number)) == Allocate(InodeLayout(), old(Inodes())) && number >= 1
      ensures isDir ==> DirsMoved(old(usedDirs[..]), GroupOf(InodeLayout(), number), usedDirs[..], true)
      ensures !isDir ==> usedDirs[..] == old(usedDirs[..])
      ensures forall k :: 0 <= k < disk.Length && k !in inodeBitmap ==> disk[k] == old(disk[k])
    {
      hide Consistent, IsSet, Reserved, CeilDiv, Placed, BitsAt, FirstNonzero, FirstClear, Allocate, Bits, Number,
           DirsMoved;
      PlacedInside(BlockLayout(), disk.Length, blockBitmap, inodeBitmap);
      number := Number(InodeLayout(), group, bit);
      NewInodeStored(InodeLayout(), Inodes(), disk[..], inodeBitmap, blockBitmap, group, bit, bytes);
      CountInode(group, -1, isDir);
      StoreBlock(inodeBitmap[group], bytes);
    }

    method FreeInode(number: nat, isDir: bool) returns (ok: bool)
      requires Valid() && Unit(InodeLayout(), number)
      modifies disk, freeInodes, usedDirs, this`totalInodes
      ensures Valid() && Blocks() == old(Blocks())
      ensures ok <==> old(IsSet(InodeLayout(), Inodes(), number))
      ensures ok ==> Released(InodeLayout(), old(Inodes()), number, Inodes())
      ensures !ok ==> Inodes() == old(Inodes())
      ensures ok && isDir ==> DirsMoved(old(usedDirs[..]), GroupOf(InodeLayout(), number), usedDirs[..], false)
      ensures !(ok && isDir) ==> usedDirs[..] == old(usedDirs[..])
      ensures forall k :: 0 <= k < disk.Length && k !in inodeBitmap ==> disk[k] == old(disk[k])
    {
      hide Consistent, IsSet, Reserved, CeilDiv, Placed, BitsAt, Bits, GroupOf, BitOf, DirsMoved;
      PlacedInside(BlockLayout(), disk.Length, blockBitmap, inodeBitmap);
      ghost var s: Space := Inodes();
      ReleaseKeeps(InodeLayout(), s, number);
      LocateUnit(InodeLayout(), number);
      var group := (number - 1) / inodesPerGroup;
      var bit := (number - 1) % inodesPerGroup;
      var bitmap := ReadBlock(inodeBitmap[group]);
      var was := GetBit(bitmap, bit);
      if !was {
        return false;
      }
      ClearBit(bitmap, bit);
      FreedInodeStored(InodeLayout(), s, disk[..], inodeBitmap, blockBitmap, number, bitmap[..]);
      CountInode(group, 1, isDir);
      StoreBlock(inodeBitmap[group], bitmap[..]);
      ok := true;
    }
  }
}
