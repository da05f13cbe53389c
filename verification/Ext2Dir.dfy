/** A directory of several blocks: entry.c's find, write and delete on the disk, and what they mean for
    the directory's names. */
module Ext2Dir {
  import opened Common
  import opened DirBlock
  import opened DirTheorems

  const MAX_DIRECT: nat := 12

  // ----- the directory as the list of its blocks -----

  predicate AllWellFormed(bs: seq<seq<byte>>) {
    forall i :: 0 <= i < |bs| ==> WellFormed(bs[i])
  }

  function LookupIn(bs: seq<seq<byte>>, name: seq<byte>): (r: Option<Entry>)
    requires AllWellFormed(bs)
  {
    if bs == [] then None
    else if Lookup(Records(bs[0], 0), name).Some? then Lookup(Records(bs[0], 0), name)
    else LookupIn(bs[1..], name)
  }

  /** NoRoom: no record of any block has slack. Overrun: the copy would pass the end of the buffer.
      Beyond: the walk passes the directory's size inside its last block, and the record goes behind the one the
      walk stopped after. Stray: it goes on into block 0 for a hole, into an indirect block, or past the pointers. */
  datatype Outcome = NoRoom | Overrun | Stored | Beyond | Stray

  /** What a write comes to, and the blocks after it. */
  datatype WriteResult = WriteResult(outcome: Outcome, blocks: seq<seq<byte>>)

  function WriteIn(bs: seq<seq<byte>>, e: Entry): (r: WriteResult)
    requires AllWellFormed(bs) && e.Proper()
    ensures |r.blocks| == |bs| && (!r.outcome.Stored? ==> r.blocks == bs)
  {
    if bs == [] then WriteResult(NoRoom, bs)
    else
      var s := FirstSlack(bs[0], 0);
      if s == |bs[0]| then
        var later := WriteIn(bs[1..], e);
        WriteResult(later.outcome, [bs[0]] + later.blocks)
      else if s + MinLen(NameLen(bs[0], s)) + HEADER + |e.name| > |bs[0]| then WriteResult(Overrun, bs)
      else WriteResult(Stored, [Insert(bs[0], s, e)] + bs[1..])
  }

  function RemoveIn(bs: seq<seq<byte>>, name: seq<byte>): (r: Option<seq<seq<byte>>>)
    requires AllWellFormed(bs)
    ensures r.Some? ==> |r.value| == |bs|
  {
    if bs == [] then None
    else match Remove(bs[0], name)
      case Some(b) => Some([b] + bs[1..])
      case None =>
        match RemoveIn(bs[1..], name)
        case Some(rest) => Some([bs[0]] + rest)
        case None => None
  }

  /** The first record with slack, over all blocks, has room for the name. */
  predicate Fits(bs: seq<seq<byte>>, e: Entry)
    requires AllWellFormed(bs)
  {
    bs != [] &&
    var s := FirstSlack(bs[0], 0);
    if s == |bs[0]| then Fits(bs[1..], e) else HasRoom(bs[0], s, e)
  }

  function AllRecords(bs: seq<seq<byte>>): (r: seq<seq<Record>>)
    requires AllWellFormed(bs)
  {
    if bs == [] then [] else [Records(bs[0], 0)] + AllRecords(bs[1..])
  }

  /** Record j of block k has the name, and none before it has. */
  ghost predicate FirstNamed(bs: seq<seq<byte>>, k: nat, j: nat, name: seq<byte>)
    requires AllWellFormed(bs)
  {
    && k < |bs| && j < |Records(bs[k], 0)| && Records(bs[k], 0)[j].entry.name == name
    && (forall i :: 0 <= i < j ==> Records(bs[k], 0)[i].entry.name != name)
    && forall h :: 0 <= h < k ==> Unnamed(bs[h], name)
  }

  ghost predicate Unnamed(b: seq<byte>, name: seq<byte>)
    requires WellFormed(b)
  {
    forall i :: 0 <= i < |Records(b, 0)| ==> Records(b, 0)[i].entry.name != name
  }

  /** A lookup gives the entry of the first record with that name, and nothing exactly when no record has it. */
  lemma {:induction false} LookupIsFirst(bs: seq<seq<byte>>, name: seq<byte>) returns (k: nat, j: nat)
    requires AllWellFormed(bs)
    ensures LookupIn(bs, name).None? <==> forall h :: 0 <= h < |bs| ==> Unnamed(bs[h], name)
    ensures LookupIn(bs, name).Some? ==>
      FirstNamed(bs, k, j, name) && LookupIn(bs, name) == Some(Records(bs[k], 0)[j].entry)
  {
    hide Records, Chain;
    k, j := 0, 0;
    if bs != [] {
      LookupAbsent(Records(bs[0], 0), name);
      if Lookup(Records(bs[0], 0), name).Some? {
        j := LookupFirst(Records(bs[0], 0), name);
      } else {
        k, j := LookupIsFirst(bs[1..], name);
        assert forall h :: 1 <= h < |bs| ==> bs[h] == bs[1..][h - 1];
        assert LookupIn(bs[1..], name).Some? ==> bs[k + 1] == bs[1..][k];
        k := k + 1;
      }
    }
  }

  lemma {:induction false} LookupFirst(rs: seq<Record>, name: seq<byte>) returns (j: nat)
    requires Lookup(rs, name).Some?
    ensures j < |rs| && rs[j].entry.name == name && Lookup(rs, name) == Some(rs[j].entry)
    ensures forall i :: 0 <= i < j ==> rs[i].entry.name != name
  {
    j := 0;
    if rs[0].entry.name != name {
      j := LookupFirst(rs[1..], name);
      assert forall i :: 1 <= i < |rs| ==> rs[i] == rs[1..][i - 1];
      j := j + 1;
    }
  }

  lemma RoomFitsBuffer(b: seq<byte>, s: nat, e: Entry)
    requires WellFormed(b) && s == FirstSlack(b, 0) < |b| && e.Proper() && HasRoom(b, s, e)
    ensures CanInsert(b, s, e)
  {
  }

  /** A write is a complete directory again exactly when the first record with slack has the room. */
  lemma {:induction false} WriteKeepsDirectoryExactly(bs: seq<seq<byte>>, e: Entry)
    requires AllWellFormed(bs) && e.Proper()
    ensures (WriteIn(bs, e).outcome.Stored? && AllWellFormed(WriteIn(bs, e).blocks)) <==> Fits(bs, e)
  {
    hide Insert, HasRoom, Chain;
    if bs != [] {
      var b, s := bs[0], FirstSlack(bs[0], 0);
      if s == |b| {
        WriteKeepsDirectoryExactly(bs[1..], e);
        if WriteIn(bs, e).outcome.Stored? {
          ConsWellFormed(b, WriteIn(bs[1..], e).blocks);
        }
      } else {
        ChainNext(b, s);
        if HasRoom(b, s, e) {
          RoomFitsBuffer(b, s, e);
        }
        if CanInsert(b, s, e) {
          InsertKeepsWellFormedExactly(b, s, e);
          ConsWellFormed(Insert(b, s, e), bs[1..]);
        }
      }
    }
  }

  lemma ConsWellFormed(b: seq<byte>, rest: seq<seq<byte>>)
    ensures AllWellFormed([b] + rest) <==> WellFormed(b) && AllWellFormed(rest)
  {
    hide WellFormed;
    var bs := [b] + rest;
    assert bs[0] == b;
    if AllWellFormed(bs) {
      assert forall i :: 0 <= i < |rest| ==> rest[i] == bs[i + 1];
    }
  }

  /** After a write that fits, all other names are found as before, and a fresh name finds its entry. */
  lemma {:induction false} WriteThenFind(bs: seq<seq<byte>>, e: Entry, name: seq<byte>)
    requires AllWellFormed(bs) && e.Proper() && Fits(bs, e) && (name == e.name ==> LookupIn(bs, name).None?)
    ensures WriteIn(bs, e).outcome.Stored? && AllWellFormed(WriteIn(bs, e).blocks)
    ensures LookupIn(WriteIn(bs, e).blocks, name) == if name == e.name then Some(e) else LookupIn(bs, name)
  {
    hide Insert, HasRoom, Chain, Lookup, Records;
    var b, s := bs[0], FirstSlack(bs[0], 0);
    WriteKeepsDirectoryExactly(bs, e);
    var after := WriteIn(bs, e).blocks;
    if s == |b| {
      WriteThenFind(bs[1..], e, name);
      assert after[1..] == WriteIn(bs[1..], e).blocks;
    } else {
      RoomFitsBuffer(b, s, e);
      InsertThenLookup(b, s, e, name);
      assert after[1..] == bs[1..];
    }
  }

  lemma {:induction false} RemoveMissing(b: seq<byte>, name: seq<byte>)
    requires WellFormed(b)
    ensures Remove(b, name).None? <==> Lookup(Records(b, 0), name).None?
  {
    FindBefore(b, 0, 0, name);
  }

  lemma {:induction false} RemoveInMissing(bs: seq<seq<byte>>, name: seq<byte>)
    requires AllWellFormed(bs)
    ensures RemoveIn(bs, name).None? <==> LookupIn(bs, name).None?
  {
    hide Remove, Records, Lookup, WellFormed;
    if bs != [] {
      RemoveMissing(bs[0], name);
      RemoveInMissing(bs[1..], name);
    }
  }

  /** No name twice, in a block or across blocks. */
  ghost predicate DistinctNames(bs: seq<seq<byte>>)
    requires AllWellFormed(bs)
  {
    bs == [] || (
      && UniqueNames(Records(bs[0], 0)) && DistinctNames(bs[1..])
      && forall name :: Lookup(Records(bs[0], 0), name).Some? ==> LookupIn(bs[1..], name).None?)
  }

  /** The record a deletion would remove is the first of its block. */
  predicate MatchIsFirst(bs: seq<seq<byte>>, name: seq<byte>)
    requires AllWellFormed(bs)
  {
    bs != [] && if Remove(bs[0], name).Some? then Find(bs[0], 0, 0, name).1 == 0 else MatchIsFirst(bs[1..], name)
  }

  /** Over all blocks: in a directory with distinct names a deletion leaves a well-formed directory without
      the name exactly when its record is not the first of a block; every other name is then found as before. */
  lemma {:induction false} DeleteWorksExactly(bs: seq<seq<byte>>, name: seq<byte>)
    requires AllWellFormed(bs) && DistinctNames(bs) && RemoveIn(bs, name).Some?
    ensures
      var r := RemoveIn(bs, name).value;
      (AllWellFormed(r) && LookupIn(r, name).None?) <==> !MatchIsFirst(bs, name)
    ensures
      var r := RemoveIn(bs, name).value;
      !MatchIsFirst(bs, name) ==> forall other :: other != name ==> LookupIn(r, other) == LookupIn(bs, other)
  {
    hide Remove, Find, Records, Lookup, WellFormed, UniqueNames;
    var b := bs[0];
    RemoveMissing(b, name);
    if Remove(b, name).Some? {
      var b' := Remove(b, name).value;
      RemoveWorksExactly(b, name);
      ConsWellFormed(b', bs[1..]);
      assert ([b'] + bs[1..])[1..] == bs[1..];
    } else {
      var rest := RemoveIn(bs[1..], name).value;
      DeleteWorksExactly(bs[1..], name);
      ConsWellFormed(b, rest);
      assert ([b] + rest)[1..] == rest;
    }
  }

  /** Creating a name that was not there and deleting it again gives every block its old records back. */
  lemma {:induction false} WriteThenRemove(bs: seq<seq<byte>>, e: Entry)
    requires AllWellFormed(bs) && e.Proper() && Fits(bs, e) && LookupIn(bs, e.name).None?
    ensures WriteIn(bs, e).outcome.Stored? && AllWellFormed(WriteIn(bs, e).blocks)
    ensures RemoveIn(WriteIn(bs, e).blocks, e.name).Some?
    ensures
      var back := RemoveIn(WriteIn(bs, e).blocks, e.name).value;
      AllWellFormed(back) && AllRecords(back) == AllRecords(bs)
  {
    hide Insert, HasRoom, Chain, Lookup, Records, Remove;
    WriteKeepsDirectoryExactly(bs, e);
    var b, s, after := bs[0], FirstSlack(bs[0], 0), WriteIn(bs, e).blocks;
    if s == |b| {
      WriteThenRemove(bs[1..], e);
      assert after[1..] == WriteIn(bs[1..], e).blocks;
      RemoveMissing(b, e.name);
      var rest := RemoveIn(after[1..], e.name).value;
      ConsWellFormed(b, rest);
      assert ([b] + rest)[1..] == rest;
    } else {
      ChainNext(b, s);
      RoomFitsBuffer(b, s, e);
      InsertThenRemove(b, s, e);
      var r := Remove(Insert(b, s, e), e.name).value;
      assert after[1..] == bs[1..];
      ConsWellFormed(r, bs[1..]);
      assert ([r] + bs[1..])[1..] == bs[1..];
    }
  }

  /** The record at s has slack and none before it has. */
  ghost predicate WithSlackFirst(rs: seq<Record>, s: nat) {
    exists j :: 0 <= j < |rs| && rs[j].offset == s && !Tight(rs[j]) && forall i :: 0 <= i < j ==> Tight(rs[i])
  }

  /** The new record went behind the first one with slack, which lies at s. */
  ghost predicate CutsFirstSlack(b: seq<byte>, s: nat, e: Entry, b': seq<byte>) {
    CanInsert(b, s, e) && WithSlackFirst(Records(b, 0), s) && b' == Insert(b, s, e)
  }

  /** The bytes that would go behind the first record with slack, cut to its least length, reach past the block. */
  ghost predicate CopyPassesEnd(b: seq<byte>, s: nat, e: Entry) {
    && WellFormed(b) && WithSlackFirst(Records(b, 0), s) && RecordOk(b, s)
    && s + MinLen(NameLen(b, s)) + 8 + |e.name| > |b|
  }

  /** A write cuts the first record with slack of the first block that has one, and touches no other block; without
      any slack there is no room. */
  lemma {:induction false} WriteTakesFirstSlack(bs: seq<seq<byte>>, e: Entry) returns (k: nat, s: nat)
    requires AllWellFormed(bs) && e.Proper()
    ensures WriteIn(bs, e).outcome in {NoRoom, Overrun, Stored}
    ensures WriteIn(bs, e).outcome == NoRoom <==> AllFull(bs)
    ensures WriteIn(bs, e).outcome == Stored ==>
      && k < |bs| && AllFull(bs[..k]) && CutsFirstSlack(bs[k], s, e, WriteIn(bs, e).blocks[k])
      && WriteIn(bs, e).blocks == bs[k := WriteIn(bs, e).blocks[k]]
    ensures WriteIn(bs, e).outcome == Overrun ==> k < |bs| && AllFull(bs[..k]) && CopyPassesEnd(bs[k], s, e)
  {
    hide CopyPassesEnd, Chain, Full, Insert, CutsFirstSlack, FirstSlack, WithSlackFirst, MinLen, RecordOk, NameLen;
    k, s := 0, 0;
    if bs != [] {
      FirstSlackByRecords(bs[0]);
      if FirstSlack(bs[0], 0) == |bs[0]| {
        k, s := WriteTakesFirstSlack(bs[1..], e);
        WriteFurther(bs, e);
        FullFurther(bs, if k < |bs| then k else 0);
        k := k + 1;
      } else {
        s := FirstSlack(bs[0], 0);
        assert bs[..0] == [];
        if WriteIn(bs, e).outcome == Stored {
          InsertFits(bs[0], s, e);
        } else {
          InsertPassesEnd(bs[0], s, e);
        }
      }
    }
  }

  lemma InsertPassesEnd(b: seq<byte>, s: nat, e: Entry)
    requires WellFormed(b) && s == FirstSlack(b, 0) < |b| && WithSlackFirst(Records(b, 0), s)
    requires s + MinLen(NameLen(b, s)) + HEADER + |e.name| > |b|
    ensures CopyPassesEnd(b, s, e)
  {
    hide WithSlackFirst;
  }

  lemma WriteFurther(bs: seq<seq<byte>>, e: Entry)
    requires AllWellFormed(bs) && e.Proper() && bs != [] && FirstSlack(bs[0], 0) == |bs[0]|
    ensures WriteIn(bs, e).outcome == WriteIn(bs[1..], e).outcome
    ensures WriteIn(bs, e).blocks == [bs[0]] + WriteIn(bs[1..], e).blocks
  {
    hide Chain, Insert, FirstSlack;
  }

  lemma FullFurther(bs: seq<seq<byte>>, k: nat)
    requires AllWellFormed(bs) && k < |bs| && Full(bs[0])
    ensures AllFull(bs) <==> AllFull(bs[1..])
    ensures AllFull(bs[1..][..k]) ==> AllFull(bs[..k + 1])
  {
    hide Chain, Full;
    AllFullCons(bs);
    var some := bs[..k + 1];
    assert some[1..] == bs[1..][..k] && some[0] == bs[0];
    AllFullCons(some);
  }

  lemma AllFullCons(bs: seq<seq<byte>>)
    requires AllWellFormed(bs) && bs != [] && Full(bs[0])
    ensures AllFull(bs) <==> AllFull(bs[1..])
  {
    hide Chain, Full;
    if AllFull(bs) {
      assert forall h :: 0 <= h < |bs| - 1 ==> bs[1..][h] == bs[h + 1];
    }
    if AllFull(bs[1..]) {
      forall h | 0 <= h < |bs|
        ensures Full(bs[h])
      {
        assert h > 0 ==> Full(bs[1..][h - 1]);
      }
    }
  }

  lemma InsertFits(b: seq<byte>, s: nat, e: Entry)
    requires WellFormed(b) && s == FirstSlack(b, 0) < |b| && e.Proper()
    requires WithSlackFirst(Records(b, 0), s) && s + MinLen(NameLen(b, s)) + HEADER + |e.name| <= |b|
    ensures CutsFirstSlack(b, s, e, Insert(b, s, e))
  {
    hide WithSlackFirst;
  }

  lemma {:induction false} FirstSlackByRecords(b: seq<byte>)
    requires WellFormed(b)
    ensures FirstSlack(b, 0) == |b| <==> Full(b)
    ensures FirstSlack(b, 0) < |b| ==> WithSlackFirst(Records(b, 0), FirstSlack(b, 0))
  {
    hide FirstSlack, AllTight, WithSlackFirst, Records;
    SlackByRecords(b, 0);
  }

  lemma {:induction false} SlackByRecords(b: seq<byte>, o: nat)
    requires o <= |b| && Chain(b, o)
    ensures FirstSlack(b, o) == |b| <==> AllTight(Records(b, o))
    ensures FirstSlack(b, o) < |b| ==> WithSlackFirst(Records(b, o), FirstSlack(b, o))
    decreases |b| - o
  {
    hide WithSlackFirst, Tight, MinLen, EntryAt, RecordAt, RecordOk, RecLen, NameLen, Chain;
    if o < |b| {
      ChainNext(b, o);
      SlackHere(b, o);
      TightHere(b, o);
      SlackByRecords(b, o + RecLen(b, o));
      hide FirstSlack, Records;
      SlackCons(RecordAt(b, o), Records(b, o + RecLen(b, o)), FirstSlack(b, o));
    }
  }

  lemma TightHere(b: seq<byte>, o: nat)
    requires RecordOk(b, o)
    ensures Tight(RecordAt(b, o)) <==> RecLen(b, o) <= MinLen(NameLen(b, o))
    ensures RecordAt(b, o).offset == o
  {
  }

  lemma SlackCons(r: Record, rest: seq<Record>, s: nat)
    ensures !Tight(r) ==> WithSlackFirst([r] + rest, r.offset)
    ensures Tight(r) && WithSlackFirst(rest, s) ==> WithSlackFirst([r] + rest, s)
    ensures AllTight([r] + rest) <==> Tight(r) && AllTight(rest)
  {
    hide Tight;
    var rs := [r] + rest;
    assert rs[0] == r;
    assert forall i :: 0 <= i < |rest| ==> rest[i] == rs[i + 1];
    if Tight(r) && WithSlackFirst(rest, s) {
      var j :| 0 <= j < |rest| && rest[j].offset == s && !Tight(rest[j]) && forall i :: 0 <= i < j ==> Tight(rest[i]);
      assert rs[j + 1].offset == s && forall i :: 0 <= i < j + 1 ==> Tight(rs[i]);
    }
  }

  /** A deletion changes the block of the first record with that name and no other. */
  lemma {:induction false} RemoveTakesFirstMatch(bs: seq<seq<byte>>, name: seq<byte>) returns (k: nat)
    requires AllWellFormed(bs) && RemoveIn(bs, name).Some?
    ensures k < |bs| && !Unnamed(bs[k], name) && forall h :: 0 <= h < k ==> Unnamed(bs[h], name)
    ensures Remove(bs[k], name).Some? && RemoveIn(bs, name).value == bs[k := Remove(bs[k], name).value]
  {
    hide Chain, Records, Lookup, Remove;
    k := 0;
    RemoveMissing(bs[0], name);
    LookupAbsent(Records(bs[0], 0), name);
    if Remove(bs[0], name).None? {
      k := RemoveTakesFirstMatch(bs[1..], name);
      assert forall h :: 1 <= h < |bs| ==> bs[h] == bs[1..][h - 1];
      var b := Remove(bs[1..][k], name).value;
      assert [bs[0]] + bs[1..][k := b] == bs[k + 1 := b];
      k := k + 1;
    } else {
      assert [Remove(bs[0], name).value] + bs[1..] == bs[0 := Remove(bs[0], name).value];
    }
  }

  // ----- passing over the first i blocks -----

  ghost predicate RemoveGoesOn(bs: seq<seq<byte>>, i: nat, name: seq<byte>)
    requires AllWellFormed(bs) && i <= |bs|
  {
    RemoveIn(bs, name) == match RemoveIn(bs[i..], name) case Some(rest) => Some(bs[..i] + rest) case None => None
  }

  lemma GoesOnFromTheStart(bs: seq<seq<byte>>, name: seq<byte>, e: Entry)
    requires AllWellFormed(bs)
    ensures RemoveGoesOn(bs, 0, name) && (e.Proper() ==> WriteGoesOn(bs, 0, e))
  {
    assert bs[0..] == bs && bs[..0] == [];
    var r := RemoveIn(bs, name);
    assert r.Some? ==> [] + r.value == r.value;
    if e.Proper() {
      assert [] + WriteIn(bs, e).blocks == WriteIn(bs, e).blocks;
    }
  }

  lemma RemoveSkips(bs: seq<seq<byte>>, i: nat, name: seq<byte>)
    requires AllWellFormed(bs) && i < |bs| && RemoveGoesOn(bs, i, name) && Find(bs[i], 0, 0, name).1 == |bs[i]|
    ensures RemoveGoesOn(bs, i + 1, name)
  {
    hide Chain, Find, WellFormed;
    assert bs[i..][1..] == bs[i + 1..] && bs[..i + 1] == bs[..i] + [bs[i]];
    assert RemoveIn(bs[i + 1..], name).Some? ==>
      bs[..i + 1] + RemoveIn(bs[i + 1..], name).value == bs[..i] + ([bs[i]] + RemoveIn(bs[i + 1..], name).value);
  }

  lemma RemoveHere(bs: seq<seq<byte>>, i: nat, name: seq<byte>)
    requires AllWellFormed(bs) && i < |bs| && RemoveGoesOn(bs, i, name) && Find(bs[i], 0, 0, name).1 < |bs[i]|
    ensures Remove(bs[i], name).Some?
    ensures RemoveIn(bs, name) == Some(bs[..i] + ([Remove(bs[i], name).value] + bs[i..][1..]))
    ensures
      var (p, z) := Find(bs[i], 0, 0, name);
      RecordOk(bs[i], p) && RecordOk(bs[i], z) && Remove(bs[i], name) == Some(Join(bs[i], p, z))
  {
    var (p, z) := Find(bs[i], 0, 0, name);
    FindPrev(bs[i], 0, 0, name);
    ChainNext(bs[i], z);
  }

  lemma RemoveEnds(bs: seq<seq<byte>>, i: nat, name: seq<byte>)
    requires AllWellFormed(bs) && i <= |bs| && RemoveGoesOn(bs, i, name) && bs[i..] == []
    ensures RemoveIn(bs, name).None?
  {
  }

  ghost predicate WriteGoesOn(bs: seq<seq<byte>>, i: nat, e: Entry)
    requires AllWellFormed(bs) && i <= |bs| && e.Proper()
  {
    WriteIn(bs, e) == WriteResult(WriteIn(bs[i..], e).outcome, bs[..i] + WriteIn(bs[i..], e).blocks)
  }

  lemma WriteSkips(bs: seq<seq<byte>>, i: nat, e: Entry)
    requires AllWellFormed(bs) && i < |bs| && e.Proper() && WriteGoesOn(bs, i, e) && FirstSlack(bs[i], 0) == |bs[i]|
    ensures WriteGoesOn(bs, i + 1, e)
  {
    hide Chain, FirstSlack;
    assert bs[i..][1..] == bs[i + 1..] && bs[..i + 1] == bs[..i] + [bs[i]];
    var rest := WriteIn(bs[i + 1..], e).blocks;
    assert bs[..i + 1] + rest == bs[..i] + ([bs[i]] + rest);
  }

  lemma WriteHere(bs: seq<seq<byte>>, i: nat, e: Entry)
    requires AllWellFormed(bs) && i < |bs| && e.Proper() && WriteGoesOn(bs, i, e) && FirstSlack(bs[i], 0) < |bs[i]|
    ensures
      var b, s := bs[i], FirstSlack(bs[i], 0);
      && RecordOk(b, s)
      && WriteIn(bs, e) == if s + MinLen(NameLen(b, s)) + HEADER + |e.name| > |b| then WriteResult(Overrun, bs)
                           else WriteResult(Stored, bs[..i] + ([Insert(b, s, e)] + bs[i..][1..]))
  {
    hide FirstSlack, Chain, Insert, MinLen, RecordOk, NameLen;
    ChainNext(bs[i], FirstSlack(bs[i], 0));
    assert WriteIn(bs[i..], e) ==
      if FirstSlack(bs[i], 0) + MinLen(NameLen(bs[i], FirstSlack(bs[i], 0))) + HEADER + |e.name| > |bs[i]|
      then WriteResult(Overrun, bs[i..])
      else WriteResult(Stored, [Insert(bs[i], FirstSlack(bs[i], 0), e)] + bs[i..][1..]);
    assert bs[..i] + bs[i..] == bs;
  }

  lemma WriteEnds(bs: seq<seq<byte>>, i: nat, e: Entry)
    requires AllWellFormed(bs) && i <= |bs| && e.Proper() && WriteGoesOn(bs, i, e) && bs[i..] == []
    ensures WriteIn(bs, e) == WriteResult(NoRoom, bs)
  {
    assert bs[..i] + [] == bs;
  }

  // ----- the directory on the disk -----

  /** The blocks the loops of find and delete reach: they stop at twelve and at a zero pointer. */
  function Reached(disk: seq<seq<byte>>, iBlock: seq<nat>, count: nat, i: nat): (r: seq<seq<byte>>)
    requires |iBlock| >= MAX_DIRECT && forall k :: 0 <= k < |iBlock| ==> iBlock[k] < |disk|
    decreases MAX_DIRECT - i
  {
    if i < count && i < MAX_DIRECT && iBlock[i] != 0 then [disk[iBlock[i]]] + Reached(disk, iBlock, count, i + 1)
    else []
  }

  /** Storing a new block content where pointer k leads changes only the k-th block reached. */
  lemma {:induction false} ReachedStore(disk: seq<seq<byte>>, iBlock: seq<nat>, count: nat, i: nat, k: nat,
                                        b: seq<byte>)
    requires |iBlock| >= MAX_DIRECT && forall j :: 0 <= j < |iBlock| ==> iBlock[j] < |disk|
    requires forall x, y :: 0 <= x < y < |iBlock| && iBlock[x] == iBlock[y] ==> iBlock[x] == 0
    requires k < |iBlock| && iBlock[k] != 0
    ensures
      var was, now := Reached(disk, iBlock, count, i), Reached(disk[iBlock[k] := b], iBlock, count, i);
      now == if i <= k < i + |was| then was[k - i := b] else was
    decreases MAX_DIRECT - i
  {
    hide Reached;
    var disk' := disk[iBlock[k] := b];
    ReachedFirst(disk, iBlock, count, i);
    ReachedFirst(disk', iBlock, count, i);
    if i < count && i < MAX_DIRECT && iBlock[i] != 0 {
      ReachedStore(disk, iBlock, count, i + 1, k, b);
      var rest := Reached(disk, iBlock, count, i + 1);
      if i < k {
        assert iBlock[i] != iBlock[k] && disk'[iBlock[i]] == disk[iBlock[i]];
        if k < i + 1 + |rest| {
          StoredBehind(disk[iBlock[i]], rest, k - i - 1, b);
        }
      } else if k < i {
        assert iBlock[k] != iBlock[i] && disk'[iBlock[i]] == disk[iBlock[i]];
      } else {
        assert ([disk[iBlock[i]]] + rest)[0 := b] == [b] + rest;
      }
    }
  }

  lemma ReachedFirst(disk: seq<seq<byte>>, iBlock: seq<nat>, count: nat, i: nat)
    requires |iBlock| >= MAX_DIRECT && forall j :: 0 <= j < |iBlock| ==> iBlock[j] < |disk|
    ensures Reached(disk, iBlock, count, i) ==
      if i < count && i < MAX_DIRECT && iBlock[i] != 0 then [disk[iBlock[i]]] + Reached(disk, iBlock, count, i + 1)
      else []
  {
  }

  lemma StoredBehind(x: seq<byte>, rest: seq<seq<byte>>, j: nat, b: seq<byte>)
    requires j < |rest|
    ensures ([x] + rest)[j + 1 := b] == [x] + rest[j := b]
  {
  }

  class Directory {
    const blockSize: nat
    const disk: array<seq<byte>>
    const iBlock: seq<nat>
    const size: nat

    constructor (blockSize: nat, disk: array<seq<byte>>, iBlock: seq<nat>, size: nat)
      ensures this.blockSize == blockSize && this.disk == disk && this.iBlock == iBlock && this.size == size
    {
      this.blockSize, this.disk, this.iBlock, this.size := blockSize, disk, iBlock, size;
    }

    /** The number of blocks the size stands for. */
    function Count(): (n: nat)
      requires blockSize > 0
    {
      (size + blockSize - 1) / blockSize
    }

    ghost predicate Sane()
      reads disk
    {
      && 0 < blockSize < 0x1_0000 && |iBlock| == 15
      && (forall k :: 0 <= k < |iBlock| ==> iBlock[k] < disk.Length)
      && (forall x, y :: 0 <= x < y < |iBlock| && iBlock[x] == iBlock[y] ==> iBlock[x] == 0)
      && (forall k :: 0 <= k < disk.Length ==> |disk[k]| == blockSize)
    }

    ghost function Blocks(): (bs: seq<seq<byte>>)
      requires Sane()
      reads disk
    {
      Reached(disk[..], iBlock, Count(), 0)
    }

    /** Every block reached is a chain of records; without this the walks would not end. */
    ghost predicate Valid()
      reads disk
    {
      Sane() && AllWellFormed(Blocks())
    }

    /** The directory fills whole blocks, all of them direct and present. */
    ghost predicate Whole() {
      blockSize > 0 && size % blockSize == 0 && Count() <= 12 && |iBlock| == 15
      && forall k :: 0 <= k < Count() ==> iBlock[k] != 0
    }

    /** The last offset in block i that the size still covers. */
    function Limit(i: nat): (n: int) {
      size - i * blockSize
    }

    /** The walk of write passes the first k blocks. */
    ghost predicate Passed(bs: seq<seq<byte>>, k: nat)
      requires AllWellFormed(bs) && k <= |bs|
    {
      forall j :: 0 <= j < k ==> Stop(bs[j], 0, Limit(j)) == |bs[j]|
    }

    /** It ends beyond the size in some block. */
    ghost predicate GoesBeyond(bs: seq<seq<byte>>)
      requires AllWellFormed(bs)
    {
      exists k :: 0 <= k < |bs| && Passed(bs, k) && Limit(k) < Stop(bs[k], 0, Limit(k)) < |bs[k]|
    }

    lemma PassedFirst(bs: seq<seq<byte>>)
      requires AllWellFormed(bs)
      ensures Passed(bs, 0)
    {
    }

    lemma PassedNext(bs: seq<seq<byte>>, k: nat)
      requires AllWellFormed(bs) && k < |bs| && Passed(bs, k) && Stop(bs[k], 0, Limit(k)) == |bs[k]|
      ensures Passed(bs, k + 1)
    {
    }

    /** The first block the walk does not pass decides. */
    lemma StopsOnce(bs: seq<seq<byte>>, k: nat)
      requires AllWellFormed(bs) && k <= |bs| && Passed(bs, k)
      ensures k == |bs| ==> !GoesBeyond(bs)
      ensures k < |bs| && Stop(bs[k], 0, Limit(k)) < |bs[k]| ==>
        !Passed(bs, |bs|) && (GoesBeyond(bs) <==> Limit(k) < Stop(bs[k], 0, Limit(k)))
    {
    }

    /** No block but the last has a record with slack, nor has the last one at an offset that the size covers, and
        records of it start behind those. */
    ghost predicate RunsBeyond(bs: seq<seq<byte>>)
      requires AllWellFormed(bs) && blockSize > 0
    {
      && |bs| == Count() > 0 && AllFull(bs[..|bs| - 1])
      && EndsBehind(Records(bs[|bs| - 1], 0), Limit(|bs| - 1))
    }

    /** Where the walk goes, read off the records. */
    lemma WalkByRecords()
      requires Valid()
      ensures |Blocks()| <= Count()
      ensures |Blocks()| < Count() ==> (Passed(Blocks(), |Blocks()|) <==> AllFull(Blocks()))
      ensures GoesBeyond(Blocks()) <==> RunsBeyond(Blocks())
    {
      hide Reached, Stop, Records, Limit, Count, Full, EndsBehind;
      ghost var bs := Blocks();
      ReachedAtMost(disk[..], iBlock, Count(), 0);
      ReachedSize(disk[..], iBlock, Count(), 0, blockSize);
      forall k | 0 <= k < |bs|
        ensures k + 1 < Count() ==> (Stop(bs[k], 0, Limit(k)) == |bs[k]| <==> Full(bs[k]))
        ensures k + 1 < Count() ==> !(Limit(k) < Stop(bs[k], 0, Limit(k)) < |bs[k]|)
        ensures Limit(k) < Stop(bs[k], 0, Limit(k)) < |bs[k]| <==> EndsBehind(Records(bs[k], 0), Limit(k))
      {
        StopInBlock(bs[k], k);
      }
    }

    lemma StopInBlock(b: seq<byte>, k: nat)
      requires blockSize > 0 && |b| == blockSize && Chain(b, 0)
      ensures k + 1 < Count() ==> (Stop(b, 0, Limit(k)) == |b| <==> Full(b)) && !(Limit(k) < Stop(b, 0, Limit(k)) < |b|)
      ensures Limit(k) < Stop(b, 0, Limit(k)) < |b| <==> EndsBehind(Records(b, 0), Limit(k))
    {
      hide Stop, Records, Limit, Count, Chain, Tight;
      StopByRecords(b, 0, Limit(k));
      if k + 1 < Count() {
        CoversBlock(k);
      }
    }

    /** Only the last block is cut short by the size. */
    lemma CoversBlock(i: nat)
      requires blockSize > 0 && i + 1 < Count()
      ensures Limit(i) >= blockSize
    {
      BlockBefore(size, blockSize, i);
    }

    /** In a directory of whole, direct and present blocks the walk stays inside. */
    lemma WholeStaysInside()
      requires Valid() && Whole()
      ensures |Blocks()| == Count()
      ensures !GoesBeyond(Blocks())
    {
      ReachedAll(disk[..], iBlock, Count(), 0);
      forall k | 0 <= k < |Blocks()|
        ensures Limit(k) >= blockSize
      {
        WholeBlock(size, blockSize, k);
      }
      ReachedSize(disk[..], iBlock, Count(), 0, blockSize);
    }

    /** Block k belongs to the directory and find and delete come to it: it is one of the twelve direct ones, the
        size counts it, and no pointer up to it is zero. */
    ghost predicate InReach(k: nat)
      requires Sane()
      reads disk
    {
      k < 12 && k * blockSize < size && forall j :: 0 <= j <= k ==> iBlock[j] != 0
    }

    /** The blocks searched are exactly those, in order. */
    lemma SearchedExactly()
      requires Sane()
      ensures forall k: nat :: k < |Blocks()| <==> InReach(k)
      ensures forall k: nat :: InReach(k) ==> k < |Blocks()| && Blocks()[k] == disk[iBlock[k]]
    {
      hide Reached, Count;
      forall k: nat
        ensures k < |Blocks()| <==> InReach(k)
        ensures InReach(k) ==> k < |Blocks()| && Blocks()[k] == disk[iBlock[k]]
      {
        ReachedAt(disk[..], iBlock, Count(), 0, k);
        CountedExactly(k);
      }
    }

    lemma CountedExactly(k: nat)
      requires blockSize > 0
      ensures k < Count() <==> k * blockSize < size
    {
      QuotientUp(size, blockSize, k);
    }

    /** A directory of twelve full blocks is searched to the last of them, and so is a larger one. */
    lemma TwelveBlocksSearched(name: seq<byte>)
      requires Valid() && size >= 12 * blockSize && forall k :: 0 <= k < 12 ==> iBlock[k] != 0
      requires forall k :: 0 <= k < 12 ==> WellFormed(disk[iBlock[k]])
      requires forall k :: 0 <= k < 11 ==> Unnamed(disk[iBlock[k]], name)
      ensures |Blocks()| == 12
      ensures
        var last := disk[iBlock[11]];
        WellFormed(last) && LookupIn(Blocks(), name) == Lookup(Records(last, 0), name)
    {
      hide Reached, Records, Chain, Lookup, Count;
      ghost var bs := Blocks();
      SearchedExactly();
      forall k: nat | k < 12
        ensures InReach(k)
      {
        assert (12 - k) * blockSize > 0;
        assert 12 * blockSize == k * blockSize + (12 - k) * blockSize;
      }
      assert InReach(11) && !InReach(12);
      LookupSkips(bs, 11, name);
      assert bs[11..] == [bs[11]];
      LookupOne(bs[11], name);
    }

    /** d_op->read: a block into the local buffer. */
    method ReadBlock(i: nat) returns (buff: array<byte>)
      requires Sane() && i < 15
      ensures fresh(buff) && buff[..] == disk[iBlock[i]]
    {
      var content := disk[iBlock[i]];
      buff := new byte[blockSize](k requires 0 <= k < |content| => content[k]);
      assert buff[..] == content;
    }

    method FindEntry(name: seq<byte>) returns (found: Option<Entry>)
      requires Valid() && ProperName(name)
      ensures found == LookupIn(Blocks(), name)
    {
      hide Chain, Records, Lookup, Find, Reached, EntryAt;
      var i := 0;
      ghost var bs: seq<seq<byte>> := Blocks();
      while i < Count() && i < MAX_DIRECT
        invariant 0 <= i <= MAX_DIRECT
        invariant bs == Reached(disk[..], iBlock, Count(), i) && AllWellFormed(bs)
        invariant LookupIn(bs, name) == LookupIn(Blocks(), name)
      {
        ReachedNext(disk[..], iBlock, Count(), i);
        if iBlock[i] == 0 {
          break;
        }
        var buff := ReadBlock(i);
        var _, o := WalkBlock(buff, name);
        FindBefore(buff[..], 0, 0, name);
        if o < blockSize {
          RecordIsReadable(buff[..], o);
          found := Some(Entry(buff[o..o + 4], buff[o + 7], buff[o + HEADER..o + HEADER + buff[o + 6] as nat]));
          EntryIsRead(buff[..], o);
          return;
        }
        bs := bs[1..];
        i := i + 1;
      }
      ReachedNext(disk[..], iBlock, Count(), i);
      found := None;
    }

    /** 0 as true, -1 as false. */
    method DeleteEntry(name: seq<byte>) returns (ok: bool)
      requires Valid() && ProperName(name)
      modifies disk
      ensures Sane()
      ensures ok <==> RemoveIn(old(Blocks()), name).Some?
      ensures Blocks() == if ok then RemoveIn(old(Blocks()), name).value else old(Blocks())
      ensures forall k :: 0 <= k < disk.Length && k !in iBlock ==> disk[k] == old(disk[k])
    {
      hide Chain, Find, Reached, Join, RemoveIn, Remove, RemoveGoesOn, RecordOk;
      var i := 0;
      ghost var all: seq<seq<byte>> := Blocks();
      ghost var bs: seq<seq<byte>> := all;
      GoesOnFromTheStart(all, name, Entry([], 0, []));
      while i < Count() && i < MAX_DIRECT
        invariant 0 <= i <= MAX_DIRECT && i <= |all| && AllWellFormed(all)
        invariant bs == Reached(disk[..], iBlock, Count(), i) == all[i..] && AllWellFormed(bs)
        invariant RemoveGoesOn(all, i, name)
        invariant disk[..] == old(disk[..])
      {
        ReachedNext(disk[..], iBlock, Count(), i);
        if iBlock[i] == 0 {
          break;
        }
        var buff := ReadBlock(i);
        ghost var b: seq<byte> := buff[..];
        var prev, o := WalkBlock(buff, name);
        if o < blockSize {
          FindPrev(b, 0, 0, name);
          RecordIsReadable(b, o);
          JoinRecords(buff, prev, o);
          RemoveHere(all, i, name);
          Store(i, buff, all);
          return true;
        }
        RemoveSkips(all, i, name);
        bs := bs[1..];
        i := i + 1;
      }
      ReachedNext(disk[..], iBlock, Count(), i);
      RemoveEnds(all, i, name);
      ok := false;
    }

    /** Any directory. Where the walk leaves the directory's own bytes, the model stops with the outcome that says
        so; otherwise the blocks become those specified. */
    method WriteEntry(e: Entry) returns (outcome: Outcome)
      requires Valid() && e.Proper()
      modifies disk
      ensures Sane()
      ensures outcome == Beyond <==> RunsBeyond(old(Blocks()))
      ensures outcome == Stray <==> |old(Blocks())| < Count() && AllFull(old(Blocks()))
      ensures outcome in {Beyond, Stray} ==> Blocks() == old(Blocks())
      ensures outcome !in {Beyond, Stray} ==> WriteResult(outcome, Blocks()) == WriteIn(old(Blocks()), e)
      ensures Whole() ==> outcome !in {Beyond, Stray}
      ensures forall k :: 0 <= k < disk.Length && k !in iBlock ==> disk[k] == old(disk[k])
    {
      hide Chain, FirstSlack, Reached, Insert, WriteIn, WriteGoesOn, Whole, Count, Passed, GoesBeyond, AllWellFormed,
           AllFull, RunsBeyond;
      if Whole() {
        WholeStaysInside();
      }
      WalkByRecords();
      var found, i, offset, buff := FindSlack(e);
      outcome := found;
      if found == Stored {
        outcome := WriteAt(e, i, offset, buff, Blocks());
      }
    }

    /** The loops of write up to the record with slack, Stored when there is one inside the directory. */
    method FindSlack(ghost e: Entry) returns (outcome: Outcome, i: nat, offset: nat, buff: array<byte>)
      requires Valid() && e.Proper()
      ensures outcome != Overrun && fresh(buff)
      ensures outcome == Beyond <==> GoesBeyond(Blocks())
      ensures outcome == Stray <==> |Blocks()| < Count() && Passed(Blocks(), |Blocks()|)
      ensures outcome == NoRoom ==> WriteIn(Blocks(), e) == WriteResult(NoRoom, Blocks())
      ensures outcome == Stored ==>
        && i < |Blocks()| && i < MAX_DIRECT && iBlock[i] != 0 && WriteGoesOn(Blocks(), i, e)
        && buff[..] == Blocks()[i] && |Blocks()[i]| == blockSize && offset == FirstSlack(Blocks()[i], 0) < blockSize
    {
      hide Chain, FirstSlack, Reached, Insert, WriteIn, WriteGoesOn, RecordOk, MinLen, NameLen, RecLen, Whole, Count,
           Stop, Limit, Passed, GoesBeyond;
      var maxBlock := Count();
      ghost var all: seq<seq<byte>> := Blocks();
      GoesOnFromTheStart(all, e.name, e);
      PassedFirst(all);
      i, offset := 0, 0;
      buff := new byte[blockSize];
      while i < maxBlock
        invariant 0 <= i <= maxBlock && i <= |all|
        invariant Reached(disk[..], iBlock, Count(), i) == all[i..]
        invariant WriteGoesOn(all, i, e) && Passed(all, i)
        invariant fresh(buff)
      {
        ReachedNext(disk[..], iBlock, Count(), i);
        StopsOnce(all, i);
        if i >= MAX_DIRECT || iBlock[i] == 0 {
          outcome := Stray;
          return;
        }
        buff := ReadBlock(i);
        assert buff[..] == all[i] && |all[i]| == blockSize;
        offset := WalkToSlack(buff, i);
        StopsAtSlack(all[i], 0, Limit(i));
        if offset < blockSize {
          outcome := if Covers(i, offset) then Stored else Beyond;
          return;
        }
        WriteSkips(all, i, e);
        PassedNext(all, i);
        i := i + 1;
      }
      StopsOnce(all, i);
      ReachedNext(disk[..], iBlock, Count(), i);
      WriteEnds(all, i, e);
      outcome := NoRoom;
    }

    /** The size covers this offset of block i. */
    predicate Covers(i: nat, offset: nat)
      ensures Covers(i, offset) <==> offset <= Limit(i)
    {
      i * blockSize + offset <= size
    }

    /** The record with slack cut and the new one behind it, in the buffer and then on disk. */
    method WriteAt(e: Entry, i: nat, offset: nat, buff: array<byte>, ghost all: seq<seq<byte>>)
      returns (outcome: Outcome)
      requires Valid() && e.Proper() && all == Blocks() && i < |all| && i < MAX_DIRECT && iBlock[i] != 0
      requires buff[..] == all[i] && |all[i]| == blockSize && offset == FirstSlack(all[i], 0) < blockSize
      requires WriteGoesOn(all, i, e)
      modifies disk, buff
      ensures Sane() && WriteResult(outcome, Blocks()) == WriteIn(all, e) && outcome !in {Beyond, Stray}
      ensures forall k :: 0 <= k < disk.Length && k !in iBlock ==> disk[k] == old(disk[k])
    {
      hide Chain, FirstSlack, Reached, Insert, WriteIn, WriteGoesOn, RecordOk, MinLen, NameLen, RecLen, Whole, Count;
      ghost var b: seq<byte> := buff[..];
      WriteHere(all, i, e);
      RecordIsReadable(b, offset);
      assert MinLen(buff[offset + 6]) == MinLen(NameLen(b, offset)) by {
        HeaderIsRead(b, offset);
      }
      if offset + MinLen(buff[offset + 6]) + HEADER + |e.name| > blockSize {
        return Overrun;
      }
      InsertRecord(buff, offset, e);
      Store(i, buff, all);
      outcome := Stored;
    }

    /** d_op->write of the buffer to the block it came from. */
    method Store(i: nat, buff: array<byte>, ghost all: seq<seq<byte>>)
      requires Sane() && i < |all| && i < 15 && iBlock[i] != 0 && buff.Length == blockSize && all == Blocks()
      modifies disk
      ensures Sane() && Blocks() == all[..i] + ([buff[..]] + all[i..][1..])
      ensures forall k :: 0 <= k < disk.Length && k != iBlock[i] ==> disk[k] == old(disk[k])
    {
      hide Reached;
      disk[iBlock[i]] := buff[..];
      assert disk[..] == old(disk[..])[iBlock[i] := buff[..]];
      ReachedStore(old(disk[..]), iBlock, Count(), 0, i, buff[..]);
      assert all[i := buff[..]] == all[..i] + ([buff[..]] + all[i..][1..]);
    }

    /** The inner loop of find and of delete: the first record with that name and the offset before it. */
    method WalkBlock(buff: array<byte>, name: seq<byte>) returns (prev: nat, offset: nat)
      requires buff.Length == blockSize && WellFormed(buff[..]) && ProperName(name)
      ensures (prev, offset) == Find(buff[..], 0, 0, name)
    {
      hide Chain, Find, RecordOk, MinLen, EntryAt;
      ghost var b: seq<byte> := buff[..];
      prev, offset := 0, 0;
      while offset < blockSize
        invariant 0 <= prev <= offset <= blockSize && Chain(b, offset)
        invariant Find(b, 0, 0, name) == Find(b, prev, offset, name)
        decreases blockSize - offset
      {
        RecordIsReadable(b, offset);
        EntryIsRead(b, offset);
        FindStep(b, prev, offset, name);
        var nameLen := buff[offset + 6] as nat;
        if |name| == nameLen {
          var same := SameName(name, buff, offset + HEADER, nameLen);
          if same {
            return;
          }
        }
        prev, offset := offset, offset + ReadLength(buff, offset);
      }
      FindEnd(b, prev, name);
    }

    /** The inner loop of write. */
    method WalkToSlack(buff: array<byte>, i: nat) returns (offset: nat)
      requires buff.Length == blockSize && WellFormed(buff[..])
      ensures offset == Stop(buff[..], 0, Limit(i)) <= blockSize
    {
      hide Chain, RecordOk, MinLen, NameLen, RecLen, Stop, Limit;
      ghost var b: seq<byte> := buff[..];
      offset := 0;
      while offset < blockSize && Covers(i, offset)
        invariant 0 <= offset <= blockSize && Chain(b, offset)
        invariant Stop(b, offset, Limit(i)) == Stop(b, 0, Limit(i))
        decreases blockSize - offset
      {
        RecordIsReadable(b, offset);
        HeaderIsRead(b, offset);
        StopNext(b, offset, Limit(i));
        if ReadLength(buff, offset) > MinLen(buff[offset + 6]) {
          return;
        }
        offset := offset + ReadLength(buff, offset);
      }
      StopNext(b, offset, Limit(i));
    }
  }

  function ReadLength(buff: array<byte>, o: nat): (n: nat)
    requires HasHeader(buff[..], o)
    reads buff
    ensures n == RecLen(buff[..], o)
  {
    buff[o + 4] as nat + 256 * buff[o + 5] as nat
  }

  method WriteLength(buff: array<byte>, o: nat, n: nat)
    requires HasHeader(buff[..], o) && n < 0x1_0000
    modifies buff
    ensures buff[..] == WithRecLen(old(buff[..]), o, n)
  {
    buff[o + 4] := n % 256;
    buff[o + 5] := n / 256;
  }

  method JoinRecords(buff: array<byte>, prev: nat, o: nat)
    requires HasHeader(buff[..], prev) && HasHeader(buff[..], o)
    modifies buff
    ensures buff[..] == Join(old(buff[..]), prev, o)
  {
    WriteLength(buff, prev, (ReadLength(buff, prev) + ReadLength(buff, o)) % 0x1_0000);
  }

  method InsertRecord(buff: array<byte>, s: nat, e: Entry)
    requires RecordOk(buff[..], s) && |e.inode| == 4 && |e.name| < 256 && buff.Length < 0x1_0000
    requires s + MinLen(NameLen(buff[..], s)) + HEADER + |e.name| <= buff.Length
    modifies buff
    ensures buff[..] == Insert(old(buff[..]), s, e)
  {
    var original, least := ReadLength(buff, s), MinLen(buff[s + 6]);
    WriteLength(buff, s, least);
    CopyInto(buff, s + least, Encode(e, original - least));
  }

  lemma {:induction false} ReachedAll(disk: seq<seq<byte>>, iBlock: seq<nat>, count: nat, i: nat)
    requires |iBlock| >= MAX_DIRECT && forall k :: 0 <= k < |iBlock| ==> iBlock[k] < |disk|
    requires i <= count <= MAX_DIRECT && forall k :: 0 <= k < count ==> iBlock[k] != 0
    ensures |Reached(disk, iBlock, count, i)| == count - i
    decreases count - i
  {
    if i < count {
      ReachedAll(disk, iBlock, count, i + 1);
    }
  }

  lemma {:induction false} ReachedSize(disk: seq<seq<byte>>, iBlock: seq<nat>, count: nat, i: nat, n: nat)
    requires |iBlock| >= MAX_DIRECT && forall k :: 0 <= k < |iBlock| ==> iBlock[k] < |disk|
    requires forall k :: 0 <= k < |disk| ==> |disk[k]| == n
    ensures forall k :: 0 <= k < |Reached(disk, iBlock, count, i)| ==> |Reached(disk, iBlock, count, i)[k]| == n
    decreases MAX_DIRECT - i
  {
    if i < count && i < MAX_DIRECT && iBlock[i] != 0 {
      ReachedSize(disk, iBlock, count, i + 1, n);
    }
  }

  /** Where the walk of write stops in a block: at slack, behind the last offset it may look at, or at the end. */
  function Stop(b: seq<byte>, o: nat, limit: int): (s: nat)
    requires o <= |b| && Chain(b, o)
    ensures o <= s <= |b| && Chain(b, s)
    decreases |b| - o
  {
    if o == |b| || o > limit || RecLen(b, o) > MinLen(NameLen(b, o)) then o else Stop(b, o + RecLen(b, o), limit)
  }

  /** A record without slack. */
  predicate Tight(r: Record) {
    r.recLen <= MinLen(|r.entry.name|)
  }

  predicate AllTight(rs: seq<Record>) {
    forall k :: 0 <= k < |rs| ==> Tight(rs[k])
  }

  predicate Full(b: seq<byte>)
    requires Chain(b, 0)
  {
    AllTight(Records(b, 0))
  }

  predicate AllFull(bs: seq<seq<byte>>)
    requires AllWellFormed(bs)
  {
    forall k :: 0 <= k < |bs| ==> Full(bs[k])
  }

  /** No record up to an offset has slack, and some record starts behind it. */
  predicate EndsBehind(rs: seq<Record>, limit: int) {
    && (forall k :: 0 <= k < |rs| && rs[k].offset <= limit ==> Tight(rs[k]))
    && exists k :: 0 <= k < |rs| && rs[k].offset > limit
  }

  lemma {:induction false} StopByRecords(b: seq<byte>, o: nat, limit: int)
    requires o <= |b| && Chain(b, o)
    ensures forall k :: 0 <= k < |Records(b, o)| ==> o <= Records(b, o)[k].offset < |b|
    ensures Stop(b, o, limit) == |b|
      <==> forall k :: 0 <= k < |Records(b, o)| ==> Tight(Records(b, o)[k]) && Records(b, o)[k].offset <= limit
    ensures limit < Stop(b, o, limit) < |b| <==> EndsBehind(Records(b, o), limit)
    decreases |b| - o
  {
    if o < |b| {
      var rs, next := Records(b, o), o + RecLen(b, o);
      StopNext(b, o, limit);
      StopByRecords(b, next, limit);
      var rest := Records(b, next);
      assert rs == [RecordAt(b, o)] + rest && rs[0].offset == o;
      assert Tight(rs[0]) <==> RecLen(b, o) <= MinLen(NameLen(b, o));
      hide Stop, Records, Tight, RecordOk, RecLen, NameLen, MinLen, EntryAt, Chain;
      TightCons(rs, rest, limit);
    }
  }

  lemma TightCons(rs: seq<Record>, rest: seq<Record>, limit: int)
    requires rs != [] && rs == [rs[0]] + rest
    ensures (forall k :: 0 <= k < |rs| ==> Tight(rs[k]) && rs[k].offset <= limit)
      <==> Tight(rs[0]) && rs[0].offset <= limit
           && forall k :: 0 <= k < |rest| ==> Tight(rest[k]) && rest[k].offset <= limit
    ensures rs[0].offset <= limit ==> (EndsBehind(rs, limit) <==> Tight(rs[0]) && EndsBehind(rest, limit))
    ensures forall k :: 0 <= k < |rs| ==> rs[k] == if k == 0 then rs[0] else rest[k - 1]
  {
    hide Tight;
    assert forall k :: 0 <= k < |rest| ==> rs[k + 1] == rest[k];
  }

  lemma {:induction false} ReachedAtMost(disk: seq<seq<byte>>, iBlock: seq<nat>, count: nat, i: nat)
    requires |iBlock| >= MAX_DIRECT && forall k :: 0 <= k < |iBlock| ==> iBlock[k] < |disk|
    ensures |Reached(disk, iBlock, count, i)| <= if i < count then count - i else 0
    decreases MAX_DIRECT - i
  {
    if i < count && i < MAX_DIRECT && iBlock[i] != 0 {
      ReachedAtMost(disk, iBlock, count, i + 1);
    }
  }

  lemma {:induction false} ReachedAt(disk: seq<seq<byte>>, iBlock: seq<nat>, count: nat, i: nat, k: nat)
    requires |iBlock| >= 12 && forall j :: 0 <= j < |iBlock| ==> iBlock[j] < |disk|
    requires i <= k
    ensures
      var bs := Reached(disk, iBlock, count, i);
      && (k - i < |bs| <==> k < count && k < 12 && forall j :: i <= j <= k ==> iBlock[j] != 0)
      && (k - i < |bs| ==> bs[k - i] == disk[iBlock[k]])
    decreases k - i
  {
    hide Reached;
    ReachedFirst(disk, iBlock, count, i);
    if i < k && i < count && i < MAX_DIRECT && iBlock[i] != 0 {
      ReachedAt(disk, iBlock, count, i + 1, k);
    }
  }

  lemma QuotientUp(size: nat, blockSize: nat, k: nat)
    requires blockSize > 0
    ensures k < (size + blockSize - 1) / blockSize <==> k * blockSize < size
  {
    var c := (size + blockSize - 1) / blockSize;
    assert c * blockSize <= size + blockSize - 1 < c * blockSize + blockSize;
    if k < c {
      Times(k + 1, c, blockSize);
      Times(k, k, blockSize);
    } else {
      Times(c, k, blockSize);
    }
  }

  /** Blocks without the name are passed over. */
  lemma {:induction false} LookupSkips(bs: seq<seq<byte>>, n: nat, name: seq<byte>)
    requires AllWellFormed(bs) && n <= |bs| && forall k :: 0 <= k < n ==> Unnamed(bs[k], name)
    ensures LookupIn(bs, name) == LookupIn(bs[n..], name)
  {
    hide Records, Chain;
    if n > 0 {
      LookupAbsent(Records(bs[0], 0), name);
      assert bs[1..][n - 1..] == bs[n..];
      LookupSkips(bs[1..], n - 1, name);
    } else {
      assert bs[0..] == bs;
    }
  }

  lemma LookupOne(b: seq<byte>, name: seq<byte>)
    requires WellFormed(b)
    ensures LookupIn([b], name) == Lookup(Records(b, 0), name)
  {
    var bs := [b];
    assert bs[1..] == [];
  }

  lemma BlockBefore(size: nat, k: nat, i: nat)
    requires k > 0 && i + 1 < (size + k - 1) / k
    ensures i * k + k <= size
  {
    var c := (size + k - 1) / k;
    assert c * k <= size + k - 1;
    TwoBefore(i, c, k);
  }

  lemma TwoBefore(i: nat, c: nat, k: nat)
    requires i + 2 <= c
    ensures i * k + 2 * k <= c * k
  {
    var d := c - i - 2;
    assert d * k >= 0 && c * k == (d + i + 2) * k == d * k + i * k + 2 * k;
  }

  lemma StopNext(b: seq<byte>, o: nat, limit: int)
    requires o <= |b| && Chain(b, o)
    ensures o == |b| || o > limit ==> Stop(b, o, limit) == o
    ensures o < |b| ==> RecordOk(b, o) && o + RecLen(b, o) <= |b| && Chain(b, o + RecLen(b, o)) && RecLen(b, o) > 0
    ensures o < |b| && o <= limit ==>
      Stop(b, o, limit) == if RecLen(b, o) > MinLen(NameLen(b, o)) then o else Stop(b, o + RecLen(b, o), limit)
  {
  }

  lemma {:induction false} StopsAtSlack(b: seq<byte>, o: nat, limit: int)
    requires o <= |b| && Chain(b, o)
    ensures Stop(b, o, limit) <= limit || Stop(b, o, limit) == |b| ==> Stop(b, o, limit) == FirstSlack(b, o)
    decreases |b| - o
  {
    if o < |b| && o <= limit && RecLen(b, o) <= MinLen(NameLen(b, o)) {
      StopsAtSlack(b, o + RecLen(b, o), limit);
    }
  }

  lemma ReachedNext(disk: seq<seq<byte>>, iBlock: seq<nat>, count: nat, i: nat)
    requires |iBlock| >= MAX_DIRECT && forall k :: 0 <= k < |iBlock| ==> iBlock[k] < |disk|
    ensures
      var bs := Reached(disk, iBlock, count, i);
      if i < count && i < MAX_DIRECT && iBlock[i] != 0 then
        bs != [] && bs[0] == disk[iBlock[i]] && bs[1..] == Reached(disk, iBlock, count, i + 1)
      else bs == []
  {
  }

  lemma HeaderIsRead(b: seq<byte>, o: nat)
    requires HasHeader(b, o)
    ensures NameLen(b, o) == b[o + 6]
  {
  }

  lemma FindStep(b: seq<byte>, prev: nat, o: nat, name: seq<byte>)
    requires o < |b| && Chain(b, o)
    ensures RecordOk(b, o) && Chain(b, o + RecLen(b, o)) && o + RecLen(b, o) <= |b|
    ensures Find(b, prev, o, name) ==
      if EntryAt(b, o).name == name then (prev, o) else Find(b, o, o + RecLen(b, o), name)
  {
  }

  lemma FindEnd(b: seq<byte>, prev: nat, name: seq<byte>)
    requires Chain(b, |b|)
    ensures Find(b, prev, |b|, name) == (prev, |b|)
  {
  }

  lemma EntryIsRead(b: seq<byte>, o: nat)
    requires o < |b| && Chain(b, o)
    ensures HasHeader(b, o) && o + HEADER + NameLen(b, o) <= |b|
    ensures EntryAt(b, o) == Entry(b[o..o + 4], b[o + 7], b[o + HEADER..o + HEADER + NameLen(b, o)])
  {
  }

  lemma WholeBlock(size: nat, blockSize: nat, i: nat)
    requires blockSize > 0 && size % blockSize == 0 && i < (size + blockSize - 1) / blockSize
    ensures i * blockSize + blockSize <= size
  {
    var q, c := size / blockSize, (size + blockSize - 1) / blockSize;
    assert size == q * blockSize && c * blockSize <= size + blockSize - 1;
    BlockBelow(size, blockSize, i, q, c);
  }

  lemma BlockBelow(size: nat, k: nat, i: nat, q: nat, c: nat)
    requires size == q * k && c * k <= size + k - 1 && i < c
    ensures i * k + k <= size
  {
    if i < q {
      Times(i + 1, q, k);
      Times(i, i, k);
    } else {
      Times(q + 1, c, k);
      Times(q, q, k);
    }
  }

  lemma Times(a: nat, b: nat, k: nat)
    requires a <= b
    ensures a * k <= b * k && (a + 1) * k == a * k + k
  {
  }

  lemma RecordIsReadable(b: seq<byte>, o: nat)
    requires o < |b| && Chain(b, o)
    ensures RecordOk(b, o) && Chain(b, o + RecLen(b, o)) && 0 < RecLen(b, o)
    ensures o + RecLen(b, o) <= |b| && o + HEADER + NameLen(b, o) <= |b|
  {
  }

  /** strncmp(name, e->name, n) == 0: it stops early at a NUL common to both, which a proper name has not. */
  method SameName(name: seq<byte>, buff: array<byte>, o: nat, n: nat) returns (same: bool)
    requires ProperName(name) && |name| == n && o + n <= buff.Length
    ensures same <==> buff[o..o + n] == name
  {
    var k := 0;
    while k < n
      invariant 0 <= k <= n
      invariant forall j :: 0 <= j < k ==> name[j] == buff[o + j]
    {
      if name[k] != buff[o + k] {
        assert buff[o..o + n][k] != name[k];
        return false;
      }
      if name[k] == 0 {
        return true;
      }
      k := k + 1;
    }
    same := true;
  }

  /** memcpy(&buff[o], bytes, |bytes|). */
  method CopyInto(buff: array<byte>, o: nat, bytes: seq<byte>)
    requires o + |bytes| <= buff.Length
    modifies buff
    ensures buff[..] == Overwrite(old(buff[..]), o, bytes)
  {
    var k := 0;
    ghost var was: seq<byte> := buff[..];
    assert Overwrite(was, o, []) == was;
    while k < |bytes|
      invariant 0 <= k <= |bytes| && buff[..] == Overwrite(was, o, bytes[..k])
    {
      OverwriteNext(was, o, bytes, k);
      buff[o + k] := bytes[k];
      k := k + 1;
    }
    assert bytes[..k] == bytes;
  }

  lemma OverwriteNext(b: seq<byte>, o: nat, bytes: seq<byte>, k: nat)
    requires k < |bytes| && o + |bytes| <= |b|
    ensures Overwrite(b, o, bytes[..k])[o + k := bytes[k]] == Overwrite(b, o, bytes[..k + 1])
  {
  }

  // ----- directories the walk leaves -----

  /** A block of 1024 bytes with four records, each filled by a name of 248 letters. */
  function FourNames(): (b: seq<byte>)
    ensures |b| == 1024
  {
    seq(1024, i requires 0 <= i < 1024 =>
      if i % 256 == 5 then 1 else if i % 256 == 6 then 248 else if i % 256 < 8 then 0 else 97 + i / 256)
  }

  lemma FourRecords()
    ensures WellFormed(FourNames()) && Full(FourNames())
    ensures var rs := Records(FourNames(), 0); |rs| == 4 && forall k :: 0 <= k < 4 ==> rs[k].offset == 256 * k
  {
    hide FourNames, Chain, Records, RecordOk, RecLen, RecordAt, Tight;
    var b := FourNames();
    ChainEnds(b);
    QuarterRecord(768);
    ChainStep(b, 768);
    QuarterRecord(512);
    ChainStep(b, 512);
    QuarterRecord(256);
    ChainStep(b, 256);
    QuarterRecord(0);
    ChainStep(b, 0);
    var r0, r1, r2, r3 := RecordAt(b, 0), RecordAt(b, 256), RecordAt(b, 512), RecordAt(b, 768);
    assert Records(b, 0) == [r0, r1, r2, r3];
  }

  lemma ChainEnds(b: seq<byte>)
    ensures Chain(b, |b|) && Records(b, |b|) == []
  {
  }

  lemma QuarterRecord(o: nat)
    requires o in {0, 256, 512, 768}
    ensures RecordOk(FourNames(), o) && RecLen(FourNames(), o) == 256
    ensures RecordAt(FourNames(), o).offset == o && Tight(RecordAt(FourNames(), o))
  {
    var b := FourNames();
    assert b[o + 4] == 0 && b[o + 5] == 1 && b[o + 6] == 248;
  }

  /** A full first block and a hole behind it: the walk goes on into block 0. */
  method DirectoryWithHole() returns (d: Directory)
    ensures fresh(d) && fresh(d.disk) && d.Valid() && d.size == 2048 && d.blockSize == 1024
    ensures |d.Blocks()| < d.Count() && AllFull(d.Blocks())
  {
    hide FourNames;
    FourRecords();
    d := OneBlock(FourNames(), 2048);
  }

  /** A size of 700: the walk ends at 768, where the last record starts. */
  method DirectoryCutShort() returns (d: Directory)
    ensures fresh(d) && fresh(d.disk) && d.Valid() && d.size == 700 && d.blockSize == 1024
    ensures d.RunsBeyond(d.Blocks())
  {
    hide FourNames, Records, EndsBehind, Chain;
    FourRecords();
    FourEndBehind();
    d := OneBlock(FourNames(), 700);
  }

  lemma FourEndBehind()
    ensures WellFormed(FourNames()) && EndsBehind(Records(FourNames(), 0), 700)
  {
    hide FourNames, Chain, Records, Tight;
    FourRecords();
    assert Records(FourNames(), 0)[3].offset == 768;
  }

  method OneBlock(b: seq<byte>, size: nat) returns (d: Directory)
    requires size > 0 && |b| == 1024 && WellFormed(b)
    ensures fresh(d) && fresh(d.disk) && d.size == size && d.blockSize == 1024
    ensures d.Valid() && d.Blocks() == [b]
  {
    hide Chain;
    var disk := new seq<byte>[2](_ => b);
    var iBlock := [1] + seq(14, _ => 0);
    d := new Directory(1024, disk, iBlock, size);
    assert disk[..] == [b, b];
    OneReached(b, iBlock, d.Count());
  }

  lemma OneReached(b: seq<byte>, iBlock: seq<nat>, count: nat)
    requires iBlock == [1] + seq(14, _ => 0) && count > 0
    ensures Reached([b, b], iBlock, count, 0) == [b]
  {
    ReachedNext([b, b], iBlock, count, 0);
    ReachedNext([b, b], iBlock, count, 1);
  }
}
