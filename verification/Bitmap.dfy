/** A bitmap held as an array of bytes, bit x being bit x % 8 of byte x / 8: the layout of both
    the page allocator's map and the ext2 block and inode bitmaps. */
module Bitmap {

  /** 1 << k for a bit position inside a byte. */
  function Mask(k: nat): (m: bv8)
    requires k < 8
  {
    if k == 0 then 1 else if k == 1 then 2 else if k == 2 then 4 else if k == 3 then 8
    else if k == 4 then 16 else if k == 5 then 32 else if k == 6 then 64 else 128
  }

  predicate TestBit(b: bv8, k: nat)
    requires k < 8
  {
    b & Mask(k) != 0
  }

  lemma SetBitInByte(b: bv8, k: nat, j: nat)
    requires k < 8 && j < 8
    ensures TestBit(b | Mask(k), j) == (j == k || TestBit(b, j))
  {
    SetBitOther(b, Mask(k), Mask(j));
  }

  lemma SetBitOther(b: bv8, m: bv8, n: bv8)
    ensures m & n == 0 ==> (b | m) & n == b & n
    ensures (b | m) & m == m
  {
  }

  lemma ClearBitInByte(b: bv8, k: nat, j: nat)
    requires k < 8 && j < 8
    ensures TestBit(b & !Mask(k), j) == (j != k && TestBit(b, j))
  {
    ClearBitOther(b, Mask(k), Mask(j));
  }

  lemma ClearBitOther(b: bv8, m: bv8, n: bv8)
    ensures m & n == 0 ==> (b & !m) & n == b & n
    ensures (b & !m) & m == 0
  {
  }

  /** The bits a byte sequence stands for. */
  function Bits(bytes: seq<bv8>): (s: seq<bool>)
    ensures |s| == 8 * |bytes|
    ensures forall x :: 0 <= x < |s| ==> s[x] == TestBit(bytes[x / 8], x % 8)
  {
    seq(8 * |bytes|, x requires 0 <= x < 8 * |bytes| => TestBit(bytes[x / 8], x % 8))
  }

  /** s with v written at every index of [i, i + n) that s has. */
  function Fill<T>(s: seq<T>, i: nat, n: nat, v: T): (r: seq<T>)
    ensures |r| == |s|
    ensures forall x :: 0 <= x < |s| ==> r[x] == if i <= x < i + n then v else s[x]
  {
    seq(|s|, x requires 0 <= x < |s| => if i <= x < i + n then v else s[x])
  }

  /** A byte that differs in one bit makes bits that differ in one place. */
  lemma ByteForBit(bytes: seq<bv8>, x: nat, c: bv8, v: bool)
    requires x < 8 * |bytes|
    requires forall j: nat :: j < 8 ==> TestBit(c, j) == if j == x % 8 then v else TestBit(bytes[x / 8], j)
    ensures Bits(bytes[x / 8 := c]) == Bits(bytes)[x := v]
  {
    hide TestBit;
    var after := bytes[x / 8 := c];
    forall y | 0 <= y < 8 * |bytes|
      ensures Bits(after)[y] == Bits(bytes)[x := v][y]
    {
      assert after[y / 8] == if y / 8 == x / 8 then c else bytes[y / 8];
      assert y / 8 == x / 8 && y % 8 == x % 8 <==> y == x;
    }
  }

  lemma SetByte(bytes: seq<bv8>, x: nat)
    requires x < 8 * |bytes|
    ensures Bits(bytes[x / 8 := bytes[x / 8] | Mask(x % 8)]) == Bits(bytes)[x := true]
  {
    hide TestBit, Bits, Mask;
    var k: nat, b: bv8 := x % 8, bytes[x / 8];
    var c: bv8 := b | Mask(k);
    forall j: nat | j < 8
      ensures TestBit(c, j) == if j == k then true else TestBit(b, j)
    {
      SetBitInByte(b, k, j);
    }
    ByteForBit(bytes, x, c, true);
  }

  lemma ClearByte(bytes: seq<bv8>, x: nat)
    requires x < 8 * |bytes|
    ensures Bits(bytes[x / 8 := bytes[x / 8] & !Mask(x % 8)]) == Bits(bytes)[x := false]
  {
    hide TestBit, Bits, Mask;
    var k: nat, b: bv8 := x % 8, bytes[x / 8];
    var c: bv8 := b & !Mask(k);
    forall j: nat | j < 8
      ensures TestBit(c, j) == if j == k then false else TestBit(b, j)
    {
      ClearBitInByte(b, k, j);
    }
    ByteForBit(bytes, x, c, false);
  }

  method SetBit(bitmap: array<bv8>, x: nat)
    requires x < 8 * bitmap.Length
    modifies bitmap
    ensures Bits(bitmap[..]) == old(Bits(bitmap[..]))[x := true]
  {
    SetByte(bitmap[..], x);
    bitmap[x / 8] := bitmap[x / 8] | Mask(x % 8);
    assert bitmap[..] == old(bitmap[..])[x / 8 := old(bitmap[..])[x / 8] | Mask(x % 8)];
  }

  method ClearBit(bitmap: array<bv8>, x: nat)
    requires x < 8 * bitmap.Length
    modifies bitmap
    ensures Bits(bitmap[..]) == old(Bits(bitmap[..]))[x := false]
  {
    ClearByte(bitmap[..], x);
    bitmap[x / 8] := bitmap[x / 8] & !Mask(x % 8);
    assert bitmap[..] == old(bitmap[..])[x / 8 := old(bitmap[..])[x / 8] & !Mask(x % 8)];
  }
}
