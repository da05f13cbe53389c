/** The inode cache: a table of counted references, at most one live slot for an inode. */
module InodeCache {
  import opened Common

  const MAX_INODES: nat := 256

  /** A superblock and an inode number; superblock 0 is NULL. */
  datatype Key = Key(sb: nat, ino: nat)

  datatype Inode = Inode(key: Key, count: nat)

  const EMPTY: Inode := Inode(Key(0, 0), 0)

  type Cache = seq<Inode>

  /** Slots without references name no inode; no inode has two slots. */
  predicate Clean(c: Cache) {
    && |c| == MAX_INODES
    && (forall i :: 0 <= i < |c| ==> if c[i].count == 0 then c[i] == EMPTY else c[i].key.sb != 0)
    && (forall i, j :: 0 <= i < j < |c| && c[i].count != 0 ==> c[i].key != c[j].key)
  }

  predicate Cached(c: Cache, k: Key) {
    exists i :: 0 <= i < |c| && c[i].key == k
  }

  /** c' is c with one more reference to k, in slot s. */
  predicate Gained(c: Cache, c': Cache, s: nat, k: Key) {
    && s < |c| && k.sb != 0 && c' == c[s := Inode(k, c[s].count + 1)]
    && (if c[s].count != 0 then c[s].key == k else !Cached(c, k))
  }

  function Dropped(c: Cache, s: nat): (r: Cache)
    requires s < |c| && c[s].count != 0
  {
    c[s := if c[s].count == 1 then EMPTY else c[s].(count := c[s].count - 1)]
  }

  lemma GainedClean(c: Cache, c': Cache, s: nat, k: Key)
    requires Clean(c) && Gained(c, c', s, k)
    ensures Clean(c') && c'[s].count == c[s].count + 1 && c'[s].key == k
  {
  }

  lemma DroppedClean(c: Cache, s: nat)
    requires Clean(c) && s < |c| && c[s].count != 0
    ensures Clean(Dropped(c, s))
  {
  }

  /** Dropping undoes gaining. */
  lemma DropUndoesGain(c: Cache, c': Cache, s: nat, k: Key)
    requires Clean(c) && Gained(c, c', s, k)
    ensures c'[s].count != 0 && Dropped(c', s) == c
  {
  }

  /** Gaining one, then another, then dropping the first leaves the second gained. */
  lemma DropFirst(c: Cache, c1: Cache, c2: Cache, s1: nat, k1: Key, s2: nat, k2: Key)
    requires Clean(c) && Gained(c, c1, s1, k1) && Gained(c1, c2, s2, k2)
    ensures c2[s1].count != 0 && Gained(c, Dropped(c2, s1), s2, k2)
  {
    GainedClean(c, c1, s1, k1);
    if s1 != s2 {
      if Cached(c, k2) {
        var i :| 0 <= i < |c| && c[i].key == k2;
        assert c1[i].key == k2;
      }
      assert Dropped(c2, s1) == c[s2 := Inode(k2, c[s2].count + 1)];
    } else {
      assert Dropped(c2, s1) == c[s2 := Inode(k2, c[s2].count + 1)];
    }
  }

  class Table {
    /** The superblock's root node. */
    const rootNode: nat
    var slots: Cache

    constructor (rootNode: nat)
      ensures this.rootNode == rootNode && Clean(slots) && slots == seq(MAX_INODES, _ => EMPTY)
    {
      this.rootNode := rootNode;
      slots := seq(MAX_INODES, _ => EMPTY);
    }

    method InodeGetEmpty(k: Key) returns (s: Option<nat>)
      requires Clean(slots) && k.sb != 0 && !Cached(slots, k)
      modifies this
      ensures s.Some? ==> Gained(old(slots), slots, s.value, k) && old(slots)[s.value].count == 0
      ensures s.Some? ==> forall j :: 0 <= j < s.value ==> old(slots)[j].count != 0
      ensures s.None? ==> slots == old(slots) && forall i :: 0 <= i < |slots| ==> slots[i].count != 0
    {
      var i := 0;
      while i < MAX_INODES
        invariant 0 <= i <= MAX_INODES && slots == old(slots)
        invariant forall j :: 0 <= j < i ==> slots[j].count != 0
      {
        if slots[i].count == 0 {
          slots := slots[i := Inode(k, 1)];
          return Some(i);
        }
        i := i + 1;
      }
      s := None;
    }

    /** One more reference to k; none only when k is not there and no slot is free. */
    method InodeGet(k: Key) returns (s: Option<nat>)
      requires Clean(slots) && k.sb != 0
      modifies this
      ensures s.Some? ==> Gained(old(slots), slots, s.value, k)
      ensures s.None? ==>
        slots == old(slots) && !Cached(slots, k) && forall i :: 0 <= i < |slots| ==> slots[i].count != 0
    {
      var i := 0;
      while i < MAX_INODES
        invariant 0 <= i <= MAX_INODES && slots == old(slots)
        invariant forall j :: 0 <= j < i ==> slots[j].key != k
      {
        if slots[i].key == k {
          slots := slots[i := slots[i].(count := slots[i].count + 1)];
          return Some(i);
        }
        i := i + 1;
      }
      s := InodeGetEmpty(k);
    }

    /** False stands for the abort: the root node lost its last reference. */
    method InodePut(s: nat) returns (ok: bool)
      requires Clean(slots) && s < MAX_INODES
      modifies this
      ensures Clean(slots)
      ensures slots == if old(slots)[s].count == 0 then old(slots) else Dropped(old(slots), s)
      ensures ok <==> !(old(slots)[s].count == 1 && s == rootNode)
    {
      if slots[s].count == 0 {
        return true;
      }
      DroppedClean(slots, s);
      ok := true;
      slots := slots[s := slots[s].(count := slots[s].count - 1)];
      if slots[s].count == 0 {
        if rootNode == s {
          ok := false;
        }
        slots := slots[s := EMPTY];
      }
    }
  }
}
