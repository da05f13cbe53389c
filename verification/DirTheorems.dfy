/** What writing and deleting a directory record do to the chain of a block and to lookups. */
module DirTheorems {
  import opened Common
  import opened DirBlock

  /** The records before p and those from next on can be read off the block. */
  predicate Around(b: seq<byte>, p: nat, next: nat) {
    Leads(b, 0, p) && Chain(b, next)
  }

  /** The block's records with others between p and next. */
  function Spliced(b: seq<byte>, p: nat, middle: seq<Record>, next: nat): (r: seq<Record>)
    requires Around(b, p, next)
  {
    RecordsTo(b, 0, p) + middle + Records(b, next)
  }

  // ----- inserting -----

  /** A record of b that the insertion leaves alone, and the length of the rest. */
  predicate CanInsert(b: seq<byte>, s: nat, e: Entry) {
    && WellFormed(b) && s < |b| && s == FirstSlack(b, 0) && e.Proper()
    && s + MinLen(NameLen(b, s)) + HEADER + |e.name| <= |b|
  }

  /** The new record has room: the slack of the first record with any is enough. */
  predicate HasRoom(b: seq<byte>, s: nat, e: Entry)
    requires RecordOk(b, s)
  {
    HEADER + |e.name| <= Slack(b, s)
  }

  /** The two records the insertion leaves where there was one. */
  lemma InsertedRecords(b: seq<byte>, s: nat, e: Entry)
    requires CanInsert(b, s, e) && HasRoom(b, s, e)
    ensures
      var r, m, next := Insert(b, s, e), MinLen(NameLen(b, s)), s + RecLen(b, s);
      && RecordOk(r, s) && RecordAt(r, s) == Record(s, m, EntryAt(b, s)) && RecLen(r, s) == m
      && RecordOk(r, s + m) && RecordAt(r, s + m) == Record(s + m, Slack(b, s), e) && RecLen(r, s + m) == Slack(b, s)
      && s + m < next <= |b| && AgreeOn(b, r, 0, s) && AgreeOn(b, r, next, |b|)
  {
    hide Chain, Insert, EntryAt, RecordAt, RecordOk, MinLen, AgreeOn, RecLen, NameLen, FirstSlack;
    SlackFacts(b, s);
    var r, m := Insert(b, s, e), MinLen(NameLen(b, s));
    InsertFields(b, s, e);
    RoomIsEnough(|e.name|, Slack(b, s));
    NewRecord(r, s + m, e, Slack(b, s));
    InsertAgrees(b, s, e);
  }

  lemma SlackFacts(b: seq<byte>, s: nat)
    requires s < |b| && Chain(b, s)
    ensures RecordOk(b, s) && s % 4 == 0 && HasHeader(b, s)
    ensures var m := MinLen(NameLen(b, s));
      m % 4 == 0 && Slack(b, s) % 4 == 0 && m + Slack(b, s) == RecLen(b, s) && s + RecLen(b, s) <= |b|
  {
  }

  lemma InsertAgrees(b: seq<byte>, s: nat, e: Entry)
    requires CanInsert(b, s, e) && HasRoom(b, s, e)
    ensures AgreeOn(b, Insert(b, s, e), 0, s) && AgreeOn(b, Insert(b, s, e), s + RecLen(b, s), |b|)
  {
    hide Chain, RecordAt, EntryAt, Encode, MinLen;
    SlackFacts(b, s);
  }

  lemma InsertWithRoom(b: seq<byte>, s: nat, e: Entry)
    requires CanInsert(b, s, e) && HasRoom(b, s, e)
    ensures
      var r, m := Insert(b, s, e), MinLen(NameLen(b, s));
      && WellFormed(r) && Around(b, s, s + RecLen(b, s))
      && Records(r, 0) == Spliced(b, s, [Record(s, m, EntryAt(b, s)), Record(s + m, Slack(b, s), e)], s + RecLen(b, s))
  {
    hide Chain, Records, Leads, RecordsTo, RecordOk, RecordAt, Insert, MinLen, HasRoom, EntryAt, AgreeOn;
    ChainNext(b, s);
    var r, m, next := Insert(b, s, e), MinLen(NameLen(b, s)), s + RecLen(b, s);
    InsertedRecords(b, s, e);
    LeadsLocal(b, r, 0, s);
    ChainLocal(b, r, next);
    ChainStep(r, s + m);
    ChainStep(r, s);
    SplitAt(r, 0, s);
    var x, y, rest := RecordAt(r, s), RecordAt(r, s + m), Records(b, next);
    assert RecordsTo(b, 0, s) + ([x] + ([y] + rest)) == RecordsTo(b, 0, s) + [x, y] + rest;
  }

  lemma NewRecord(r: seq<byte>, o: nat, e: Entry, n: nat)
    requires HasHeader(r, o) && RecLen(r, o) == n && NameLen(r, o) == |e.name|
    requires o % 4 == 0 && n % 4 == 0 && MinLen(|e.name|) <= n && o + n <= |r|
    requires EntryAt(r, o) == e
    ensures RecordOk(r, o) && RecordAt(r, o) == Record(o, n, e)
  {
  }

  /** Lengths are multiples of four, so room for the bytes is room for the aligned record. */
  lemma RoomIsEnough(nameLen: nat, slack: nat)
    requires slack % 4 == 0
    ensures MinLen(nameLen) <= slack <==> HEADER + nameLen <= slack
  {
  }

  /** ext2_write_entry keeps the block well formed exactly when the first record with any slack has room
      for the new name: it never looks further. */
  lemma InsertKeepsWellFormedExactly(b: seq<byte>, s: nat, e: Entry)
    requires CanInsert(b, s, e)
    ensures WellFormed(Insert(b, s, e)) <==> HasRoom(b, s, e)
  {
    if HasRoom(b, s, e) {
      InsertWithRoom(b, s, e);
    } else {
      InsertWithoutRoom(b, s, e);
    }
  }

  lemma InsertWithoutRoom(b: seq<byte>, s: nat, e: Entry)
    requires CanInsert(b, s, e) && !HasRoom(b, s, e)
    ensures !WellFormed(Insert(b, s, e))
  {
    hide Chain, Records, Leads, RecordsTo, RecordAt, Insert, EntryAt;
    SlackFacts(b, s);
    ChainNext(b, s);
    var r, m := Insert(b, s, e), MinLen(NameLen(b, s));
    InsertFields(b, s, e);
    RoomIsEnough(|e.name|, Slack(b, s));
    LeadsLocal(b, r, 0, s);
    LeadsOneMore(r, 0, s);
    SplitAt(r, 0, s + m);
    if Chain(r, s + m) {
      ChainNext(r, s + m);
    }
  }

  lemma FirstSlackSplits(b: seq<byte>, s: nat)
    requires WellFormed(b) && s < |b| && s == FirstSlack(b, 0)
    ensures Around(b, s, s + RecLen(b, s)) && Records(b, 0) == Spliced(b, s, [RecordAt(b, s)], s + RecLen(b, s))
  {
    hide Chain, Records, Leads, RecordsTo, RecordOk, RecordAt;
    SplitAt(b, 0, s);
    ChainNext(b, s);
    assert RecordsTo(b, 0, s) + ([RecordAt(b, s)] + Records(b, s + RecLen(b, s)))
      == RecordsTo(b, 0, s) + [RecordAt(b, s)] + Records(b, s + RecLen(b, s));
  }

  lemma LookupThree(a: seq<Record>, x: seq<Record>, c: seq<Record>, name: seq<byte>)
    ensures Lookup(a + x + c, name) ==
      if Lookup(a, name).Some? then Lookup(a, name) else if Lookup(x, name).Some? then Lookup(x, name)
      else Lookup(c, name)
  {
    LookupConcat(a + x, c, name);
    LookupConcat(a, x, name);
  }

  /** After the insertion every other name is found as before, and a fresh name finds the new entry. */
  lemma InsertThenLookup(b: seq<byte>, s: nat, e: Entry, name: seq<byte>)
    requires CanInsert(b, s, e) && HasRoom(b, s, e)
    ensures WellFormed(Insert(b, s, e))
    ensures name != e.name ==> Lookup(Records(Insert(b, s, e), 0), name) == Lookup(Records(b, 0), name)
    ensures Lookup(Records(b, 0), e.name).None? ==> Lookup(Records(Insert(b, s, e), 0), e.name) == Some(e)
  {
    hide Chain, Records, Leads, RecordsTo, RecordOk, Insert, MinLen, HasRoom, EntryAt;
    ChainNext(b, s);
    InsertWithRoom(b, s, e);
    FirstSlackSplits(b, s);
    var m := MinLen(NameLen(b, s));
    var a, c := RecordsTo(b, 0, s), Records(b, s + RecLen(b, s));
    var x, y := [RecordAt(b, s)], [Record(s, m, EntryAt(b, s)), Record(s + m, Slack(b, s), e)];
    assert y[1..] == [y[1]] && y[1..][1..] == [] && x[1..] == [];
    LookupThree(a, x, c, name);
    LookupThree(a, y, c, name);
    LookupThree(a, x, c, e.name);
    LookupThree(a, y, c, e.name);
  }

  // ----- deleting -----

  /** The walk of ext2_delete_entry from record o: the previous offset and that of the first match, |b| if none. */
  function Find(b: seq<byte>, prev: nat, o: nat, name: seq<byte>): (r: (nat, nat))
    requires o <= |b| && Chain(b, o)
    ensures o <= r.1 <= |b| && Leads(b, o, r.1) && Chain(b, r.1)
    ensures r.1 < |b| ==> EntryAt(b, r.1).name == name
    decreases |b| - o
  {
    if o == |b| || EntryAt(b, o).name == name then (prev, o)
    else Find(b, o, o + RecLen(b, o), name)
  }

  /** prev->rec_len += e->rec_len, in 16 bits. */
  function Join(b: seq<byte>, prev: nat, o: nat): (r: seq<byte>)
    requires HasHeader(b, prev) && HasHeader(b, o)
    ensures |r| == |b|
  {
    WithRecLen(b, prev, (RecLen(b, prev) + RecLen(b, o)) % 0x1_0000)
  }

  lemma JoinedRecord(b: seq<byte>, p: nat, z: nat)
    requires RecordOk(b, p) && RecordOk(b, z) && p + RecLen(b, p) == z && |b| < 0x1_0000
    ensures
      var r, n := Join(b, p, z), RecLen(b, p) + RecLen(b, z);
      && RecordOk(r, p) && RecLen(r, p) == n && RecordAt(r, p) == Record(p, n, EntryAt(b, p))
      && AgreeOn(b, r, 0, p) && AgreeOn(b, r, z + RecLen(b, z), |b|)
  {
    hide EntryAt, MinLen, AgreeOn, RecordAt, NameLen;
    assert (RecLen(b, p) + RecLen(b, z)) % 4 == 0;
    CutKeepsRest(b, p, RecLen(b, p) + RecLen(b, z));
    AtFields(b, p);
    AtFields(Join(b, p, z), p);
    AgreeTail(b, Join(b, p, z), p + 6, z + RecLen(b, z));
  }

  lemma AgreeTail(b: seq<byte>, b': seq<byte>, i: nat, j: nat)
    requires AgreeOn(b, b', i, |b|) && i <= j <= |b|
    ensures AgreeOn(b, b', j, |b|)
  {
  }

  lemma {:induction false} FindBefore(b: seq<byte>, prev: nat, o: nat, name: seq<byte>)
    requires o <= |b| && Chain(b, o)
    ensures Lookup(Records(b, o), name) ==
      if Find(b, prev, o, name).1 < |b| then Some(EntryAt(b, Find(b, prev, o, name).1)) else None
    ensures Lookup(RecordsTo(b, o, Find(b, prev, o, name).1), name).None?
    decreases |b| - o
  {
    if o < |b| && EntryAt(b, o).name != name {
      var q := o + RecLen(b, o);
      FindBefore(b, o, q, name);
      assert Records(b, o)[1..] == Records(b, q);
      var z := Find(b, o, q, name).1;
      LeadsBounds(b, q, z);
      assert RecordsTo(b, o, z) == [RecordAt(b, o)] + RecordsTo(b, q, z);
      assert RecordsTo(b, o, z)[1..] == RecordsTo(b, q, z);
    }
  }

  /** Unless the match is where the walk began, prev is the record that ends where the match starts. */
  lemma {:induction false} FindPrev(b: seq<byte>, prev: nat, o: nat, name: seq<byte>)
    requires o <= |b| && Chain(b, o)
    ensures
      var (p, z) := Find(b, prev, o, name);
      if z == o then p == prev
      else o <= p && RecordOk(b, p) && p + RecLen(b, p) == z && Leads(b, o, p)
    decreases |b| - o
  {
    if o < |b| && EntryAt(b, o).name != name {
      var q := o + RecLen(b, o);
      FindPrev(b, o, q, name);
      var (p, z) := Find(b, o, q, name);
      LeadsBounds(b, q, z);
      if z > q {
        LeadsBounds(b, q, p);
      }
    }
  }

  /** The block after ext2_delete_entry, None when no record matches. A match in the first record takes
      that record itself for the previous one. */
  function Remove(b: seq<byte>, name: seq<byte>): (r: Option<seq<byte>>)
    requires WellFormed(b)
  {
    var (p, z) := Find(b, 0, 0, name);
    if z == |b| then None
    else
      FindPrev(b, 0, 0, name);
      Some(Join(b, p, z))
  }

  /** Record z of a block follows record p. */
  predicate Adjacent(b: seq<byte>, p: nat, z: nat) {
    && Chain(b, 0) && RecordOk(b, p) && RecordOk(b, z) && Around(b, p, z + RecLen(b, z))
    && Records(b, 0) == Spliced(b, p, [RecordAt(b, p), RecordAt(b, z)], z + RecLen(b, z))
  }

  /** The block's records with those two as one. */
  function WithJoined(b: seq<byte>, p: nat, z: nat): (r: seq<Record>)
    requires Adjacent(b, p, z)
  {
    Spliced(b, p, [Record(p, RecLen(b, p) + RecLen(b, z), EntryAt(b, p))], z + RecLen(b, z))
  }

  /** Deleting a record that is not the block's first joins it to the one before and leaves the rest. */
  lemma RemoveLater(b: seq<byte>, name: seq<byte>)
    requires WellFormed(b) && 0 < Find(b, 0, 0, name).1 < |b|
    ensures
      var (p, z) := Find(b, 0, 0, name);
      && Adjacent(b, p, z)
      && var r := Join(b, p, z);
      && Remove(b, name) == Some(r) && WellFormed(r) && Records(r, 0) == WithJoined(b, p, z)
  {
    hide Chain, Records, Leads, RecordsTo, RecordAt, EntryAt, MinLen, RecordOk, Find;
    var (p, z) := Find(b, 0, 0, name);
    FindPrev(b, 0, 0, name);
    ChainNext(b, z);
    JoinedRecord(b, p, z);
    var next, n := z + RecLen(b, z), RecLen(b, p) + RecLen(b, z);
    var r := Remove(b, name).value;
    LeadsLocal(b, r, 0, p);
    ChainLocal(b, r, next);
    ChainStep(b, p);
    ChainStep(r, p);
    SplitAt(b, 0, p);
    SplitAt(r, 0, p);
    var x, y, rest := RecordAt(b, p), RecordAt(b, z), Records(b, next);
    assert RecordsTo(b, 0, p) + ([x] + ([y] + rest)) == RecordsTo(b, 0, p) + [x, y] + rest;
    assert RecordsTo(b, 0, p) + ([RecordAt(r, p)] + rest) == RecordsTo(b, 0, p) + [RecordAt(r, p)] + rest;
  }

  predicate UniqueNames(rs: seq<Record>) {
    forall i, j :: 0 <= i < j < |rs| ==> rs[i].entry.name != rs[j].entry.name
  }

  lemma {:induction false} LookupAbsent(rs: seq<Record>, name: seq<byte>)
    ensures Lookup(rs, name).None? <==> forall i :: 0 <= i < |rs| ==> rs[i].entry.name != name
  {
    if rs != [] {
      LookupAbsent(rs[1..], name);
      assert forall i :: 1 <= i < |rs| ==> rs[i] == rs[1..][i - 1];
    }
  }

  /** In a block with distinct names, deleting a name makes it unfindable in a block that is still well
      formed exactly when its record is not the block's first. Every other name is then found as before. */
  lemma RemoveWorksExactly(b: seq<byte>, name: seq<byte>)
    requires WellFormed(b) && UniqueNames(Records(b, 0)) && Remove(b, name).Some?
    ensures
      (WellFormed(Remove(b, name).value) && Lookup(Records(Remove(b, name).value, 0), name).None?)
      <==> Find(b, 0, 0, name).1 != 0
    ensures Find(b, 0, 0, name).1 != 0 ==>
      forall other :: other != name ==> Lookup(Records(Remove(b, name).value, 0), other) == Lookup(Records(b, 0), other)
  {
    hide Chain, Records, Leads, RecordsTo, RecordAt, RecordOk, Remove, MinLen, UniqueNames, Lookup, Find, Join, AgreeOn;
    var (p, z) := Find(b, 0, 0, name);
    if z == 0 {
      RemoveFirst(b, name);
    } else {
      RemoveMatches(b, name);
      RemoveLater(b, name);
      ChainNext(b, z);
      AtFields(b, p);
      AtFields(b, z);
      var a, c := RecordsTo(b, 0, p), Records(b, z + RecLen(b, z));
      DropSecond(a, RecordAt(b, p), RecordAt(b, z), Record(p, RecLen(b, p) + RecLen(b, z), EntryAt(b, p)), c);
    }
  }

  lemma RemoveMatches(b: seq<byte>, name: seq<byte>)
    requires WellFormed(b) && Remove(b, name).Some?
    ensures var z := Find(b, 0, 0, name).1; z < |b| && RecordOk(b, z) && EntryAt(b, z).name == name
  {
    ChainNext(b, Find(b, 0, 0, name).1);
  }

  /** A match in the first record: it is still there afterwards. */
  lemma RemoveFirst(b: seq<byte>, name: seq<byte>)
    requires WellFormed(b) && Find(b, 0, 0, name).1 == 0
    ensures
      var r := Remove(b, name).value;
      WellFormed(r) ==> Lookup(Records(r, 0), name).Some?
  {
    var r := Remove(b, name).value;
    FirstEntryStays(b, (RecLen(b, 0) + RecLen(b, 0)) % 0x1_0000);
    if WellFormed(r) {
      assert Records(r, 0)[0] == RecordAt(r, 0);
    }
  }

  /** Dropping y, with x grown in place: names stay distinct, so y's is gone and the others are found. */
  lemma DropSecond(a: seq<Record>, x: Record, y: Record, grown: Record, c: seq<Record>)
    requires UniqueNames(a + [x, y] + c) && grown.entry == x.entry
    ensures Lookup(a + [grown] + c, y.entry.name).None?
    ensures forall other :: other != y.entry.name ==> Lookup(a + [grown] + c, other) == Lookup(a + [x, y] + c, other)
  {
    var before, after := a + [x, y] + c, a + [grown] + c;
    assert before[|a| + 1] == y;
    forall i | 0 <= i < |after|
      ensures after[i].entry.name != y.entry.name
    {
      if i > |a| {
        assert after[i] == before[i + 1];
      } else {
        assert after[i].entry == before[i].entry;
      }
    }
    LookupAbsent(after, y.entry.name);
    forall other | other != y.entry.name
      ensures Lookup(after, other) == Lookup(before, other)
    {
      assert [x, y][1..] == [y] && [y][1..] == [] && [grown][1..] == [];
      LookupThree(a, [x, y], c, other);
      LookupThree(a, [grown], c, other);
    }
  }

  lemma FirstEntryStays(b: seq<byte>, n: nat)
    requires RecordOk(b, 0) && n < 0x1_0000
    ensures
      var r := WithRecLen(b, 0, n);
      NameLen(r, 0) == NameLen(b, 0) && EntryAt(r, 0) == EntryAt(b, 0)
  {
    var r := WithRecLen(b, 0, n);
    assert r[0..4] == b[0..4];
    assert r[HEADER..HEADER + NameLen(b, 0)] == b[HEADER..HEADER + NameLen(b, 0)];
  }

  /** A block of one record, inode 2, named ".": deleting "." leaves it findable. */
  lemma RemoveFirstExample()
    ensures
      var b: seq<byte> := [2, 0, 0, 0, 12, 0, 1, 2, 46, 0, 0, 0];
      && WellFormed(b) && UniqueNames(Records(b, 0)) && Remove(b, [46]).Some?
      && Find(b, 0, 0, [46]).1 == 0 && EntryAt(Remove(b, [46]).value, 0).name == [46]
  {
    var b: seq<byte> := [2, 0, 0, 0, 12, 0, 1, 2, 46, 0, 0, 0];
    assert RecLen(b, 0) == 12 && NameLen(b, 0) == 1 && MinLen(1) == 12;
    assert Chain(b, 12);
    assert b[8..9] == [46];
    FirstEntryStays(b, 24);
  }

  /** Writing a fresh name and deleting it again restores every record of the block, lengths included. */
  lemma InsertThenRemove(b: seq<byte>, s: nat, e: Entry)
    requires CanInsert(b, s, e) && HasRoom(b, s, e) && Lookup(Records(b, 0), e.name).None?
    ensures WellFormed(Insert(b, s, e)) && Remove(Insert(b, s, e), e.name).Some?
    ensures
      var r := Remove(Insert(b, s, e), e.name).value;
      WellFormed(r) && Records(r, 0) == Records(b, 0)
  {
    hide Chain, Records, Leads, RecordsTo, RecordOk, RecordAt, Insert, MinLen, EntryAt, AgreeOn;
    ChainNext(b, s);
    var r, m := Insert(b, s, e), MinLen(NameLen(b, s));
    var next := s + RecLen(b, s);
    InsertWithRoom(b, s, e);
    FirstSlackSplits(b, s);
    InsertedRecords(b, s, e);
    InsertMatch(b, s, e);
    RemoveLater(r, e.name);
    LeadsLocal(b, r, 0, s);
    ChainLocal(b, r, next);
    AtFields(b, s);
    AtFields(r, s);
  }

  lemma AtFields(b: seq<byte>, s: nat)
    requires RecordOk(b, s)
    ensures HasHeader(b, s) && s + HEADER + NameLen(b, s) <= |b|
    ensures RecordAt(b, s) == Record(s, RecLen(b, s), EntryAt(b, s))
  {
  }

  /** The walk of the delete finds the new record, with the cut one before it. */
  lemma InsertMatch(b: seq<byte>, s: nat, e: Entry)
    requires CanInsert(b, s, e) && HasRoom(b, s, e) && Lookup(Records(b, 0), e.name).None?
    ensures WellFormed(Insert(b, s, e))
    ensures Find(Insert(b, s, e), 0, 0, e.name) == (s, s + MinLen(NameLen(b, s)))
  {
    hide Records, RecordsTo, Insert, MinLen, AgreeOn, Chain, RecordOk, EntryAt, RecordAt, Leads, Find, HasRoom;
    ChainNext(b, s);
    var r, m := Insert(b, s, e), MinLen(NameLen(b, s));
    InsertWithRoom(b, s, e);
    FirstSlackSplits(b, s);
    InsertedRecords(b, s, e);
    LeadsLocal(b, r, 0, s);
    SplitAt(r, 0, s);
    LookupThree(RecordsTo(b, 0, s), [RecordAt(b, s)], Records(b, s + RecLen(b, s)), e.name);
    AtFields(b, s);
    AtFields(r, s);
    AtFields(r, s + m);
    assert Lookup([RecordAt(b, s)], e.name).None?;
    FindReaches(r, 0, 0, s, e.name);
    ChainNext(r, s);
    FindHere(r, s, s + m, e.name);
  }

  lemma FindHere(b: seq<byte>, prev: nat, o: nat, name: seq<byte>)
    requires o < |b| && Chain(b, o) && EntryAt(b, o).name == name
    ensures Find(b, prev, o, name) == (prev, o)
  {
  }

  /** When no record between o and s has the name, the walk arrives at s; a record that does not match
      there is passed too. */
  lemma {:induction false} FindReaches(b: seq<byte>, prev: nat, o: nat, s: nat, name: seq<byte>)
    requires Leads(b, o, s) && Chain(b, o) && Chain(b, s) && s < |b| && o <= s
    requires Lookup(RecordsTo(b, o, s), name).None? && EntryAt(b, s).name != name
    ensures Find(b, prev, o, name) == Find(b, s, s + RecLen(b, s), name)
    decreases s - o
  {
    if o < s {
      var q := o + RecLen(b, o);
      LeadsBounds(b, q, s);
      assert RecordsTo(b, o, s)[1..] == RecordsTo(b, q, s);
      FindReaches(b, o, q, s, name);
    }
  }

  // ----- a write that breaks the block -----

  const DOT: Entry := Entry([2, 0, 0, 0], 2, [46])
  const A: Entry := Entry([3, 0, 0, 0], 1, [97])
  const B: Entry := Entry([4, 0, 0, 0], 1, [98])
  const HELLO: Entry := Entry([5, 0, 0, 0], 1, [104, 101, 108, 108, 111])

  /** A block of 40 bytes with one record, ".". */
  const ONLY_DOT: seq<byte> := [2, 0, 0, 0, 40, 0, 1, 2, 46] + seq(31, _ => 0)

  lemma OnlyDot()
    ensures WellFormed(ONLY_DOT) && Records(ONLY_DOT, 0) == [Record(0, 40, DOT)]
  {
    assert RecLen(ONLY_DOT, 0) == 40 && NameLen(ONLY_DOT, 0) == 1;
    assert Chain(ONLY_DOT, 40) && Records(ONLY_DOT, 40) == [];
    assert ONLY_DOT[0..4] == [2, 0, 0, 0] && ONLY_DOT[8..9] == [46];
  }

  /** What the list of records says of the block at o. */
  lemma HeadRecord(b: seq<byte>, o: nat)
    requires o < |b| && Chain(b, o)
    ensures RecordOk(b, o) && Chain(b, o + RecLen(b, o)) && Records(b, o) != []
    ensures var r := Records(b, o)[0];
      && RecLen(b, o) == r.recLen && NameLen(b, o) == |r.entry.name| && RecordAt(b, o) == r && EntryAt(b, o) == r.entry
    ensures Records(b, o)[1..] == Records(b, o + RecLen(b, o))
  {
  }

  lemma SlackHere(b: seq<byte>, o: nat)
    requires o < |b| && Chain(b, o)
    ensures RecordOk(b, o) && Chain(b, o + RecLen(b, o)) && o + RecLen(b, o) <= |b|
    ensures FirstSlack(b, o) ==
      if RecLen(b, o) > MinLen(NameLen(b, o)) then o else FirstSlack(b, o + RecLen(b, o))
  {
  }

  lemma FindsHere(b: seq<byte>, prev: nat, o: nat, name: seq<byte>)
    requires o < |b| && Chain(b, o)
    ensures RecordOk(b, o) && Chain(b, o + RecLen(b, o)) && o + RecLen(b, o) <= |b|
    ensures Find(b, prev, o, name) ==
      if EntryAt(b, o).name == name then (prev, o) else Find(b, o, o + RecLen(b, o), name)
  {
  }

  lemma ShortNames()
    ensures MinLen(1) == 12 && DOT.Proper() && A.Proper() && B.Proper() && HELLO.Proper()
  {
  }

  /** Writing "a": it goes behind ".", which is cut. */
  lemma WithA() returns (b: seq<byte>)
    ensures CanInsert(ONLY_DOT, 0, A) && HasRoom(ONLY_DOT, 0, A) && b == Insert(ONLY_DOT, 0, A)
    ensures WellFormed(b) && |b| == 40 && Records(b, 0) == [Record(0, 12, DOT), Record(12, 28, A)]
  {
    hide Chain, Records, RecordOk, Insert, MinLen, FirstSlack, RecordAt, EntryAt, RecLen, NameLen;
    OnlyDot();
    ShortNames();
    HeadRecord(ONLY_DOT, 0);
    SlackHere(ONLY_DOT, 0);
    b := Insert(ONLY_DOT, 0, A);
    InsertWithRoom(ONLY_DOT, 0, A);
    assert Records(ONLY_DOT, 40) == [];
    assert RecordsTo(ONLY_DOT, 0, 0) == [];
  }

  /** Writing "b": "." has no slack left, "a" has. */
  lemma WithB(b1: seq<byte>) returns (b: seq<byte>)
    requires WellFormed(b1) && |b1| == 40 && Records(b1, 0) == [Record(0, 12, DOT), Record(12, 28, A)]
    ensures CanInsert(b1, 12, B) && HasRoom(b1, 12, B) && b == Insert(b1, 12, B)
    ensures WellFormed(b) && |b| == 40 && Records(b, 0) == [Record(0, 12, DOT), Record(12, 12, A), Record(24, 16, B)]
  {
    hide Chain, Records, RecordOk, Insert, MinLen, FirstSlack, RecordAt, EntryAt, RecLen, NameLen;
    ShortNames();
    HeadRecord(b1, 0);
    SlackHere(b1, 0);
    HeadRecord(b1, 12);
    SlackHere(b1, 12);
    b := Insert(b1, 12, B);
    InsertWithRoom(b1, 12, B);
    assert RecordsTo(b1, 12, 12) == [];
    assert RecordsTo(b1, 0, 12) == [RecordAt(b1, 0)] + RecordsTo(b1, 12, 12);
    assert Records(b1, 40) == [];
  }

  /** Deleting "a": its length goes to ".", which then has twelve bytes of slack. */
  lemma WithoutA(b2: seq<byte>) returns (b: seq<byte>)
    requires WellFormed(b2) && |b2| == 40
    requires Records(b2, 0) == [Record(0, 12, DOT), Record(12, 12, A), Record(24, 16, B)]
    ensures Remove(b2, [97]) == Some(b) && WellFormed(b) && |b| == 40
    ensures Records(b, 0) == [Record(0, 24, DOT), Record(24, 16, B)]
  {
    hide Chain, Records, RecordOk, MinLen, RecordAt, EntryAt, RecLen, NameLen, Find, Remove;
    HeadRecord(b2, 0);
    HeadRecord(b2, 12);
    FindsHere(b2, 0, 0, [97]);
    FindsHere(b2, 0, 12, [97]);
    RemoveLater(b2, [97]);
    b := Remove(b2, [97]).value;
    assert RecordsTo(b2, 0, 0) == [];
  }

  /** The input, reached by the program's own writes and one delete, on which a write breaks the block: a name of
      five letters does not fit into the twelve bytes behind ".", and no later record is tried. */
  lemma WriteBreaksBlock() returns (b1: seq<byte>, b2: seq<byte>, b3: seq<byte>)
    ensures WellFormed(ONLY_DOT) && CanInsert(ONLY_DOT, 0, A) && b1 == Insert(ONLY_DOT, 0, A)
    ensures WellFormed(b1) && CanInsert(b1, 12, B) && b2 == Insert(b1, 12, B)
    ensures WellFormed(b2) && Remove(b2, [97]) == Some(b3)
    ensures WellFormed(b3) && CanInsert(b3, 0, HELLO) && !HasRoom(b3, 0, HELLO) && !WellFormed(Insert(b3, 0, HELLO))
  {
    hide Chain, Records, RecordOk, Insert, MinLen, FirstSlack, RecordAt, EntryAt, RecLen, NameLen, Remove;
    OnlyDot();
    b1 := WithA();
    b2 := WithB(b1);
    b3 := WithoutA(b2);
    ShortNames();
    HeadRecord(b3, 0);
    SlackHere(b3, 0);
    InsertKeepsWellFormedExactly(b3, 0, HELLO);
  }
}
