/** One block of an ext2 directory: records chained by their length fields, as entry.c reads and
    rewrites them. A record is inode (4 bytes), rec_len (2, little endian), name_len, file_type, name. */
module DirBlock {
  import opened Common

  const HEADER: nat := 8

  /** What a caller gets from a record. */
  datatype Entry = Entry(inode: seq<byte>, fileType: byte, name: seq<byte>) {
    /** A name of one to 255 bytes without NUL, as a path component is. */
    predicate Proper() {
      |inode| == 4 && ProperName(name)
    }
  }

  predicate ProperName(name: seq<byte>) {
    0 < |name| < 256 && forall i :: 0 <= i < |name| ==> name[i] != 0
  }

  datatype Record = Record(offset: nat, recLen: nat, entry: Entry)

  // ----- the fields of the record at offset o -----

  predicate HasHeader(b: seq<byte>, o: nat) {
    o + HEADER <= |b|
  }

  function RecLen(b: seq<byte>, o: nat): (n: nat)
    requires HasHeader(b, o)
  {
    b[o + 4] as int + 256 * (b[o + 5] as int)
  }

  function NameLen(b: seq<byte>, o: nat): (n: nat)
    requires HasHeader(b, o)
  {
    b[o + 6]
  }

  function EntryAt(b: seq<byte>, o: nat): (e: Entry)
    requires HasHeader(b, o) && o + HEADER + NameLen(b, o) <= |b|
  {
    Entry(b[o..o + 4], b[o + 7], b[o + HEADER..o + HEADER + NameLen(b, o)])
  }

  function WithRecLen(b: seq<byte>, o: nat, n: nat): (r: seq<byte>)
    requires HasHeader(b, o) && n < 0x1_0000
    ensures |r| == |b| && RecLen(r, o) == n
    ensures forall i :: 0 <= i < |b| && i != o + 4 && i != o + 5 ==> r[i] == b[i]
  {
    b[o + 4 := n % 256][o + 5 := n / 256]
  }

  /** ALIGN(sizeof(ext2_entry_t) + name_len, 4): the least length of a record with that name. */
  function MinLen(nameLen: nat): (n: nat)
    ensures HEADER + nameLen <= n < HEADER + nameLen + 4 && n % 4 == 0
  {
    (HEADER + nameLen + 3) / 4 * 4
  }

  predicate RecordOk(b: seq<byte>, o: nat) {
    && o % 4 == 0 && HasHeader(b, o)
    && MinLen(NameLen(b, o)) <= RecLen(b, o) && RecLen(b, o) % 4 == 0 && o + RecLen(b, o) <= |b|
  }

  /** From o on, the records tile the rest of the block. */
  predicate Chain(b: seq<byte>, o: nat)
    decreases |b| - o
  {
    o == |b| || (o < |b| && RecordOk(b, o) && Chain(b, o + RecLen(b, o)))
  }

  predicate WellFormed(b: seq<byte>) {
    0 < |b| < 0x1_0000 && |b| % 4 == 0 && Chain(b, 0)
  }

  function RecordAt(b: seq<byte>, o: nat): (r: Record)
    requires RecordOk(b, o)
  {
    Record(o, RecLen(b, o), EntryAt(b, o))
  }

  function Records(b: seq<byte>, o: nat): (r: seq<Record>)
    requires Chain(b, o)
    decreases |b| - o
  {
    if o == |b| then [] else [RecordAt(b, o)] + Records(b, o + RecLen(b, o))
  }

  /** Following records from p leads to o. */
  predicate Leads(b: seq<byte>, p: nat, o: nat)
    decreases o - p
  {
    p == o <= |b| || (p < o && RecordOk(b, p) && Leads(b, p + RecLen(b, p), o))
  }

  function RecordsTo(b: seq<byte>, p: nat, o: nat): (r: seq<Record>)
    requires Leads(b, p, o)
    decreases o - p
  {
    if p == o then [] else [RecordAt(b, p)] + RecordsTo(b, p + RecLen(b, p), o)
  }

  // ----- locality -----

  predicate AgreeOn(b: seq<byte>, b': seq<byte>, p: nat, o: nat) {
    |b'| == |b| && p <= o <= |b| && forall i :: p <= i < o ==> b'[i] == b[i]
  }

  lemma RecordLocal(b: seq<byte>, b': seq<byte>, o: nat)
    requires RecordOk(b, o) && AgreeOn(b, b', o, o + RecLen(b, o))
    ensures RecordOk(b', o) && RecordAt(b', o) == RecordAt(b, o)
  {
    assert b'[o..o + 4] == b[o..o + 4];
    var n := NameLen(b, o);
    assert b'[o + HEADER..o + HEADER + n] == b[o + HEADER..o + HEADER + n];
  }

  lemma {:induction false} LeadsBounds(b: seq<byte>, p: nat, o: nat)
    requires Leads(b, p, o)
    ensures p <= o <= |b|
    decreases o - p
  {
    if p < o {
      LeadsBounds(b, p + RecLen(b, p), o);
    }
  }

  lemma {:induction false} ChainLocal(b: seq<byte>, b': seq<byte>, o: nat)
    requires o <= |b| && Chain(b, o) && AgreeOn(b, b', o, |b|)
    ensures Chain(b', o) && Records(b', o) == Records(b, o)
    decreases |b| - o
  {
    hide RecordAt, MinLen;
    if o < |b| {
      RecordLocal(b, b', o);
      ChainLocal(b, b', o + RecLen(b, o));
    }
  }

  lemma {:induction false} LeadsLocal(b: seq<byte>, b': seq<byte>, p: nat, o: nat)
    requires Leads(b, p, o) && p <= o && AgreeOn(b, b', p, o)
    ensures Leads(b', p, o) && RecordsTo(b', p, o) == RecordsTo(b, p, o)
    decreases o - p
  {
    if p < o {
      LeadsBounds(b, p + RecLen(b, p), o);
      RecordLocal(b, b', p);
      LeadsLocal(b, b', p + RecLen(b, p), o);
    }
  }

  lemma {:induction false} SplitAt(b: seq<byte>, p: nat, o: nat)
    requires Leads(b, p, o)
    ensures Chain(b, p) <==> Chain(b, o)
    ensures Chain(b, p) ==> Records(b, p) == RecordsTo(b, p, o) + Records(b, o)
    decreases o - p
  {
    hide RecordAt, MinLen, RecordsTo;
    if p < o {
      var q := p + RecLen(b, p);
      LeadsBounds(b, q, o);
      SplitAt(b, q, o);
      LeadsStep(b, p, o);
      if Chain(b, q) {
        assert [RecordAt(b, p)] + (RecordsTo(b, q, o) + Records(b, o)) == RecordsTo(b, p, o) + Records(b, o);
      }
    } else {
      LeadsNowhere(b, o);
    }
  }

  lemma LeadsNowhere(b: seq<byte>, p: nat)
    requires p <= |b|
    ensures Leads(b, p, p) && RecordsTo(b, p, p) == []
  {
  }

  lemma LeadsStep(b: seq<byte>, p: nat, o: nat)
    requires p < o && RecordOk(b, p) && Leads(b, p + RecLen(b, p), o)
    ensures Leads(b, p, o) && RecordsTo(b, p, o) == [RecordAt(b, p)] + RecordsTo(b, p + RecLen(b, p), o)
  {
  }

  lemma {:induction false} LeadsOneMore(b: seq<byte>, p: nat, o: nat)
    requires Leads(b, p, o) && RecordOk(b, o)
    ensures Leads(b, p, o + RecLen(b, o))
    ensures RecordsTo(b, p, o + RecLen(b, o)) == RecordsTo(b, p, o) + [RecordAt(b, o)]
    decreases o - p
  {
    hide RecordAt, MinLen, RecordsTo;
    LeadsBounds(b, p, o);
    var next := o + RecLen(b, o);
    if p < o {
      var q := p + RecLen(b, p);
      LeadsBounds(b, q, o);
      LeadsOneMore(b, q, o);
      LeadsStep(b, p, next);
      LeadsStep(b, p, o);
      assert [RecordAt(b, p)] + (RecordsTo(b, q, o) + [RecordAt(b, o)]) == RecordsTo(b, p, o) + [RecordAt(b, o)];
    } else {
      LeadsNowhere(b, o);
      LeadsNowhere(b, next);
      LeadsStep(b, o, next);
    }
  }

  lemma ChainNext(b: seq<byte>, o: nat)
    requires o < |b| && Chain(b, o)
    ensures RecordOk(b, o) && Chain(b, o + RecLen(b, o)) && 0 < RecLen(b, o) && o + RecLen(b, o) <= |b|
    ensures Records(b, o) == [RecordAt(b, o)] + Records(b, o + RecLen(b, o))
  {
  }

  lemma ChainStep(b: seq<byte>, o: nat)
    requires o < |b| && RecordOk(b, o) && Chain(b, o + RecLen(b, o))
    ensures Chain(b, o) && Records(b, o) == [RecordAt(b, o)] + Records(b, o + RecLen(b, o))
  {
  }

  // ----- finding -----

  function Lookup(rs: seq<Record>, name: seq<byte>): (r: Option<Entry>) {
    if rs == [] then None else if rs[0].entry.name == name then Some(rs[0].entry) else Lookup(rs[1..], name)
  }

  lemma {:induction false} LookupConcat(a: seq<Record>, b: seq<Record>, name: seq<byte>)
    ensures Lookup(a + b, name) == if Lookup(a, name).Some? then Lookup(a, name) else Lookup(b, name)
  {
    if a == [] {
      assert a + b == b;
    } else {
      assert (a + b)[1..] == a[1..] + b;
      LookupConcat(a[1..], b, name);
    }
  }

  // ----- writing -----

  /** The first record with more room than it needs; |b| if there is none. */
  function FirstSlack(b: seq<byte>, o: nat): (s: nat)
    requires o <= |b| && Chain(b, o)
    ensures o <= s <= |b| && Leads(b, o, s) && Chain(b, s)
    ensures s < |b| ==> RecLen(b, s) > MinLen(NameLen(b, s))
    decreases |b| - o
  {
    if o == |b| || RecLen(b, o) > MinLen(NameLen(b, o)) then o
    else FirstSlack(b, o + RecLen(b, o))
  }

  /** The bytes of a record. */
  function Encode(e: Entry, recLen: nat): (r: seq<byte>)
    requires |e.inode| == 4 && |e.name| < 256 && recLen < 0x1_0000
    ensures |r| == HEADER + |e.name|
  {
    e.inode + [recLen % 256, recLen / 256, |e.name|, e.fileType] + e.name
  }

  function Overwrite(b: seq<byte>, o: nat, bytes: seq<byte>): (r: seq<byte>)
    requires o + |bytes| <= |b|
    ensures |r| == |b|
    ensures forall i :: 0 <= i < |b| ==> r[i] == if o <= i < o + |bytes| then bytes[i - o] else b[i]
  {
    b[..o] + bytes + b[o + |bytes|..]
  }

  /** What is left of record s once it is cut to its least length. */
  function Slack(b: seq<byte>, s: nat): (n: nat)
    requires RecordOk(b, s)
  {
    RecLen(b, s) - MinLen(NameLen(b, s))
  }

  /** ext2_write_entry on the block: cut record s to its least length and put the new record behind it. */
  function Insert(b: seq<byte>, s: nat, e: Entry): (r: seq<byte>)
    requires RecordOk(b, s) && |e.inode| == 4 && |e.name| < 256
    requires s + MinLen(NameLen(b, s)) + HEADER + |e.name| <= |b|
    ensures |r| == |b|
  {
    var m := MinLen(NameLen(b, s));
    Overwrite(WithRecLen(b, s, m), s + m, Encode(e, Slack(b, s)))
  }

  /** The cut record and the new one, whatever the room. */
  lemma InsertFields(b: seq<byte>, s: nat, e: Entry)
    requires RecordOk(b, s) && |e.inode| == 4 && |e.name| < 256
    requires s + MinLen(NameLen(b, s)) + HEADER + |e.name| <= |b|
    ensures
      var r, m := Insert(b, s, e), MinLen(NameLen(b, s));
      && RecordOk(r, s) && RecordAt(r, s) == Record(s, m, EntryAt(b, s)) && RecLen(r, s) == m
      && RecLen(r, s + m) == Slack(b, s) && NameLen(r, s + m) == |e.name| && EntryAt(r, s + m) == e
      && AgreeOn(b, r, 0, s)
  {
    var m := MinLen(NameLen(b, s));
    CutKeepsRest(b, s, m);
    var c := WithRecLen(b, s, m);
    var r := Insert(b, s, e);
    assert AgreeOn(c, r, s, s + m);
    RecordLocal(c, r, s);
    EncodeFields(c, s + m, e, Slack(b, s));
  }

  /** Changing a record's length field changes nothing else in it. */
  lemma CutKeepsRest(b: seq<byte>, s: nat, m: nat)
    requires RecordOk(b, s) && MinLen(NameLen(b, s)) <= m < 0x1_0000 && m % 4 == 0 && s + m <= |b|
    ensures
      var c := WithRecLen(b, s, m);
      && RecordOk(c, s) && RecordAt(c, s) == Record(s, m, EntryAt(b, s)) && NameLen(c, s) == NameLen(b, s)
      && AgreeOn(b, c, 0, s) && AgreeOn(b, c, s + 6, |b|)
  {
    var c, n := WithRecLen(b, s, m), NameLen(b, s);
    assert NameLen(c, s) == n;
    assert c[s..s + 4] == b[s..s + 4];
    assert c[s + HEADER..s + HEADER + n] == b[s + HEADER..s + HEADER + n];
  }

  /** Reading back an encoded record. */
  lemma EncodeFields(b: seq<byte>, o: nat, e: Entry, recLen: nat)
    requires |e.inode| == 4 && |e.name| < 256 && recLen < 0x1_0000 && o + HEADER + |e.name| <= |b|
    ensures
      var r := Overwrite(b, o, Encode(e, recLen));
      RecLen(r, o) == recLen && NameLen(r, o) == |e.name| && EntryAt(r, o) == e
  {
    var bytes := Encode(e, recLen);
    var r := Overwrite(b, o, bytes);
    assert r[o + 4] == bytes[4] && r[o + 5] == bytes[5] && r[o + 6] == bytes[6] && r[o + 7] == bytes[7];
    assert r[o..o + 4] == e.inode by {
      assert forall i :: 0 <= i < 4 ==> r[o + i] == bytes[i] == e.inode[i];
    }
    assert r[o + HEADER..o + HEADER + |e.name|] == e.name by {
      assert forall i :: 0 <= i < |e.name| ==> r[o + HEADER + i] == bytes[HEADER + i] == e.name[i];
    }
  }
}
