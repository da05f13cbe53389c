/** References to inodes and open files: every count is the number of its holders. */
module FileRefs {
  import opened Common
  import opened InodeCache

  const MAX_OPEN_FILES: nat := 64

  datatype Life = Unused | Embryo | Alive | Zombie

  /** root, pwd and the descriptor slots hold numbers of cache slots and of open files. */
  datatype Proc = Proc(life: Life, root: Option<nat>, pwd: Option<nat>, fds: seq<Option<nat>>)

  datatype File = File(inode: nat, count: nat)

  /** Open files by number; None once freed. Numbers are not used again. */
  datatype Sys = Sys(cache: Cache, files: seq<Option<File>>, procs: seq<Proc>, rootNode: nat)

  // ----- holders -----

  function One(o: Option<nat>, x: nat): (n: nat) {
    if o == Some(x) then 1 else 0
  }

  /** How many of os are x. */
  function Count(os: seq<Option<nat>>, x: nat): (n: nat) {
    if os == [] then 0 else One(os[0], x) + Count(os[1..], x)
  }

  /** How many roots and working directories are slot x. */
  function ProcInodes(procs: seq<Proc>, x: nat): (n: nat) {
    if procs == [] then 0 else One(procs[0].root, x) + One(procs[0].pwd, x) + ProcInodes(procs[1..], x)
  }

  /** How many descriptors of all processes are open file f. */
  function ProcFiles(procs: seq<Proc>, f: nat): (n: nat) {
    if procs == [] then 0 else Count(procs[0].fds, f) + ProcFiles(procs[1..], f)
  }

  function InodeOf(f: Option<File>): (o: Option<nat>) {
    if f.Some? then Some(f.value.inode) else None
  }

  /** How many open files are on slot x. */
  function FileInodes(files: seq<Option<File>>, x: nat): (n: nat) {
    if files == [] then 0 else One(InodeOf(files[0]), x) + FileInodes(files[1..], x)
  }

  /** Who holds cache slot x: the superblock its root node, every process its root and working directory,
      every open file its inode. */
  function InodeHolders(s: Sys, x: nat): (n: nat) {
    One(Some(s.rootNode), x) + ProcInodes(s.procs, x) + FileInodes(s.files, x)
  }

  function InodeCount(s: Sys, x: nat): (n: nat) {
    if x < |s.cache| then s.cache[x].count else 0
  }

  function FileCount(s: Sys, f: nat): (n: nat) {
    if f < |s.files| && s.files[f].Some? then s.files[f].value.count else 0
  }

  predicate Shape(s: Sys) {
    && Clean(s.cache) && s.rootNode < MAX_INODES && |s.procs| == NUM_PROC
    && (forall p :: 0 <= p < |s.procs| ==> |s.procs[p].fds| == MAX_OPEN_FILES)
    && (forall f :: 0 <= f < |s.files| && s.files[f].Some? ==> s.files[f].value.count != 0)
  }

  /** Every count is the number of holders, those the running code has in its variables counted in. A file
      without holders is freed. */
  ghost predicate Inv(s: Sys, inodes: multiset<nat>, files: multiset<nat>) {
    && Shape(s)
    && (forall x: nat :: InodeCount(s, x) == InodeHolders(s, x) + inodes[x])
    && (forall f: nat :: FileCount(s, f) == ProcFiles(s.procs, f) + files[f])
  }

  predicate HoldsNothing(p: Proc) {
    p.root.None? && p.pwd.None? && forall fd :: 0 <= fd < |p.fds| ==> p.fds[fd].None?
  }

  /** Between system calls: live processes have a root and a working directory, others hold nothing. */
  predicate Settled(s: Sys) {
    forall p :: 0 <= p < |s.procs| ==>
      if s.procs[p].life == Alive then s.procs[p].root.Some? && s.procs[p].pwd.Some? else HoldsNothing(s.procs[p])
  }

  // ----- sums -----

  lemma {:induction false} CountUpdate(os: seq<Option<nat>>, i: nat, o: Option<nat>, x: nat)
    requires i < |os|
    ensures Count(os[i := o], x) + One(os[i], x) == Count(os, x) + One(o, x)
  {
    if i == 0 {
      assert os[i := o][1..] == os[1..];
    } else {
      assert os[i := o][1..] == os[1..][i - 1 := o];
      CountUpdate(os[1..], i - 1, o, x);
    }
  }

  lemma {:induction false} ProcUpdate(procs: seq<Proc>, i: nat, p: Proc, x: nat)
    requires i < |procs|
    ensures ProcInodes(procs[i := p], x) + One(procs[i].root, x) + One(procs[i].pwd, x)
         == ProcInodes(procs, x) + One(p.root, x) + One(p.pwd, x)
    ensures ProcFiles(procs[i := p], x) + Count(procs[i].fds, x) == ProcFiles(procs, x) + Count(p.fds, x)
  {
    if i == 0 {
      assert procs[i := p][1..] == procs[1..];
    } else {
      assert procs[i := p][1..] == procs[1..][i - 1 := p];
      ProcUpdate(procs[1..], i - 1, p, x);
    }
  }

  lemma {:induction false} FileUpdate(files: seq<Option<File>>, i: nat, f: Option<File>, x: nat)
    requires i < |files|
    ensures FileInodes(files[i := f], x) + One(InodeOf(files[i]), x) == FileInodes(files, x) + One(InodeOf(f), x)
  {
    if i == 0 {
      assert files[i := f][1..] == files[1..];
    } else {
      assert files[i := f][1..] == files[1..][i - 1 := f];
      FileUpdate(files[1..], i - 1, f, x);
    }
  }

  lemma {:induction false} FileAppend(files: seq<Option<File>>, f: Option<File>, x: nat)
    ensures FileInodes(files + [f], x) == FileInodes(files, x) + One(InodeOf(f), x)
  {
    if files == [] {
      assert (files + [f])[1..] == [];
    } else {
      assert (files + [f])[1..] == files[1..] + [f];
      FileAppend(files[1..], f, x);
    }
  }

  // ----- single steps -----

  /** A reference more to a cache slot. */
  lemma GainKeeps(s: Sys, inodes: multiset<nat>, files: multiset<nat>, c: Cache, x: nat, k: Key)
    requires Inv(s, inodes, files) && Gained(s.cache, c, x, k)
    ensures Inv(s.(cache := c), inodes + multiset{x}, files)
  {
    var s' := s.(cache := c);
    GainedClean(s.cache, c, x, k);
    forall y: nat
      ensures InodeCount(s', y) == InodeHolders(s', y) + (inodes + multiset{x})[y]
    {
      assert InodeCount(s, y) == InodeHolders(s, y) + inodes[y];
    }
    assert forall f: nat :: FileCount(s', f) == FileCount(s, f);
  }

  /** A reference given up; it is never the root node's last, for the superblock holds one. */
  lemma DropKeeps(s: Sys, inodes: multiset<nat>, files: multiset<nat>, x: nat)
    requires Inv(s, inodes, files) && x in inodes
    ensures x < |s.cache| && s.cache[x].count != 0 && !(s.cache[x].count == 1 && x == s.rootNode)
    ensures Inv(s.(cache := Dropped(s.cache, x)), inodes - multiset{x}, files)
  {
    assert InodeCount(s, x) == InodeHolders(s, x) + inodes[x];
    DroppedClean(s.cache, x);
    var s' := s.(cache := Dropped(s.cache, x));
    forall y: nat
      ensures InodeCount(s', y) == InodeHolders(s', y) + (inodes - multiset{x})[y]
    {
      assert InodeCount(s, y) == InodeHolders(s, y) + inodes[y];
    }
    assert forall f: nat :: FileCount(s', f) == FileCount(s, f);
  }

  /** References moved between the running code and a process. */
  lemma ProcKeeps(s: Sys, inodes: multiset<nat>, files: multiset<nat>, i: nat, p: Proc, inodes': multiset<nat>,
                  files': multiset<nat>)
    requires Inv(s, inodes, files) && i < |s.procs| && |p.fds| == MAX_OPEN_FILES
    requires forall x: nat ::
      One(p.root, x) + One(p.pwd, x) + inodes'[x] == One(s.procs[i].root, x) + One(s.procs[i].pwd, x) + inodes[x]
    requires forall f: nat :: Count(p.fds, f) + files'[f] == Count(s.procs[i].fds, f) + files[f]
    ensures Inv(s.(procs := s.procs[i := p]), inodes', files')
  {
    hide Count, One;
    var s' := s.(procs := s.procs[i := p]);
    forall x: nat
      ensures InodeCount(s', x) == InodeHolders(s', x) + inodes'[x]
    {
      ProcUpdate(s.procs, i, p, x);
      assert InodeCount(s, x) == InodeHolders(s, x) + inodes[x];
    }
    forall f: nat
      ensures FileCount(s', f) == ProcFiles(s'.procs, f) + files'[f]
    {
      ProcUpdate(s.procs, i, p, f);
      assert FileCount(s, f) == ProcFiles(s.procs, f) + files[f];
    }
  }

  /** The same for one descriptor slot. */
  lemma FdKeeps(s: Sys, inodes: multiset<nat>, files: multiset<nat>, i: nat, fd: nat, o: Option<nat>,
                files': multiset<nat>)
    requires Inv(s, inodes, files) && i < |s.procs| && fd < MAX_OPEN_FILES && fd < |s.procs[i].fds|
    requires forall f: nat :: One(o, f) + files'[f] == One(s.procs[i].fds[fd], f) + files[f]
    ensures Inv(s.(procs := s.procs[i := s.procs[i].(fds := s.procs[i].fds[fd := o])]), inodes, files')
  {
    var p := s.procs[i].(fds := s.procs[i].fds[fd := o]);
    forall f: nat
      ensures Count(p.fds, f) + files'[f] == Count(s.procs[i].fds, f) + files[f]
    {
      CountUpdate(s.procs[i].fds, fd, o, f);
    }
    ProcKeeps(s, inodes, files, i, p, inodes, files');
  }

  /** The file's count after a change of its count alone, or of its life. */
  lemma FileChange(s: Sys, inodes: multiset<nat>, files: multiset<nat>, f: nat, g: Option<File>,
                   inodes': multiset<nat>, files': multiset<nat>)
    requires Inv(s, inodes, files) && f < |s.files| && s.files[f].Some? && (g.Some? ==> g.value.count != 0)
    requires forall x: nat :: One(InodeOf(g), x) + inodes'[x] == One(InodeOf(s.files[f]), x) + inodes[x]
    requires (if g.Some? then g.value.count else 0) + files[f] == s.files[f].value.count + files'[f]
    requires forall h: nat :: h != f ==> files'[h] == files[h]
    ensures Inv(s.(files := s.files[f := g]), inodes', files')
  {
    var s' := s.(files := s.files[f := g]);
    forall x: nat
      ensures InodeCount(s', x) == InodeHolders(s', x) + inodes'[x]
    {
      FileUpdate(s.files, f, g, x);
      assert InodeCount(s, x) == InodeHolders(s, x) + inodes[x];
    }
    forall h: nat
      ensures FileCount(s', h) == ProcFiles(s'.procs, h) + files'[h]
    {
      assert FileCount(s, h) == ProcFiles(s.procs, h) + files[h];
    }
  }

  /** The running code takes another reference to an open file that someone holds. */
  lemma FileUpKeeps(s: Sys, inodes: multiset<nat>, files: multiset<nat>, f: nat)
    requires Inv(s, inodes, files) && ProcFiles(s.procs, f) > 0
    ensures f < |s.files| && s.files[f].Some?
    ensures
      var more := s.files[f].value.(count := s.files[f].value.count + 1);
      Inv(s.(files := s.files[f := Some(more)]), inodes, files + multiset{f})
  {
    assert FileCount(s, f) == ProcFiles(s.procs, f) + files[f];
    var more := s.files[f].value.(count := s.files[f].value.count + 1);
    FileChange(s, inodes, files, f, Some(more), inodes, files + multiset{f});
  }

  /** The running code lets go of f: with the last holder the file is freed, and its inode reference is left
      to give up. */
  lemma FileDownKeeps(s: Sys, inodes: multiset<nat>, files: multiset<nat>, f: nat)
    requires Inv(s, inodes, files) && f in files
    ensures f < |s.files| && s.files[f].Some? && s.files[f].value.count >= 1
    ensures
      var g := s.files[f].value;
      if g.count == 1 then Inv(s.(files := s.files[f := None]), inodes + multiset{g.inode}, files - multiset{f})
      else Inv(s.(files := s.files[f := Some(g.(count := g.count - 1))]), inodes, files - multiset{f})
  {
    assert FileCount(s, f) == ProcFiles(s.procs, f) + files[f];
    var g := s.files[f].value;
    if g.count == 1 {
      FileChange(s, inodes, files, f, None, inodes + multiset{g.inode}, files - multiset{f});
    } else {
      FileChange(s, inodes, files, f, Some(g.(count := g.count - 1)), inodes, files - multiset{f});
    }
  }

  /** A new open file takes over a reference the running code holds. */
  lemma FileNewKeeps(s: Sys, inodes: multiset<nat>, files: multiset<nat>, x: nat)
    requires Inv(s, inodes, files) && x in inodes
    ensures Inv(s.(files := s.files + [Some(File(x, 1))]), inodes - multiset{x}, files + multiset{|s.files|})
  {
    var g: Option<File> := Some(File(x, 1));
    var s' := s.(files := s.files + [g]);
    forall y: nat
      ensures InodeCount(s', y) == InodeHolders(s', y) + (inodes - multiset{x})[y]
    {
      FileAppend(s.files, g, y);
      assert InodeCount(s, y) == InodeHolders(s, y) + inodes[y];
    }
    forall h: nat
      ensures FileCount(s', h) == ProcFiles(s'.procs, h) + (files + multiset{|s.files|})[h]
    {
      assert FileCount(s, h) == ProcFiles(s.procs, h) + files[h];
    }
  }

  // ----- the counts fit their sixteen bits -----

  lemma {:induction false} CountAtMost(os: seq<Option<nat>>, x: nat)
    ensures Count(os, x) <= |os|
  {
    if os != [] {
      CountAtMost(os[1..], x);
    }
  }

  lemma {:induction false} ProcsAtMost(procs: seq<Proc>, x: nat)
    requires forall p :: 0 <= p < |procs| ==> |procs[p].fds| == MAX_OPEN_FILES
    ensures ProcInodes(procs, x) <= 2 * |procs| && ProcFiles(procs, x) <= MAX_OPEN_FILES * |procs|
  {
    if procs != [] {
      ProcsAtMost(procs[1..], x);
      CountAtMost(procs[0].fds, x);
    }
  }

  /** The descriptors among os that are file number from or above. */
  function From(os: seq<Option<nat>>, from: nat): (n: nat)
    ensures n <= |os|
  {
    if os == [] then 0 else (if os[0].Some? && os[0].value >= from then 1 else 0) + From(os[1..], from)
  }

  function AllFrom(procs: seq<Proc>, from: nat): (n: nat) {
    if procs == [] then 0 else From(procs[0].fds, from) + AllFrom(procs[1..], from)
  }

  lemma {:induction false} FromSplits(os: seq<Option<nat>>, from: nat)
    ensures From(os, from) == Count(os, from) + From(os, from + 1)
  {
    if os != [] {
      FromSplits(os[1..], from);
    }
  }

  lemma {:induction false} AllFromSplits(procs: seq<Proc>, from: nat)
    ensures AllFrom(procs, from) == ProcFiles(procs, from) + AllFrom(procs, from + 1)
  {
    if procs != [] {
      FromSplits(procs[0].fds, from);
      AllFromSplits(procs[1..], from);
    }
  }

  lemma {:induction false} AllFromAtMost(procs: seq<Proc>, from: nat)
    requires forall p :: 0 <= p < |procs| ==> |procs[p].fds| == MAX_OPEN_FILES
    ensures AllFrom(procs, from) <= MAX_OPEN_FILES * |procs|
  {
    if procs != [] {
      AllFromAtMost(procs[1..], from);
    }
  }

  /** There are no more open files than descriptors, so no more of them on one slot. */
  lemma {:induction false} FilesAtMost(files: seq<Option<File>>, procs: seq<Proc>, from: nat, x: nat)
    requires forall f :: 0 <= f < |files| && files[f].Some? ==> ProcFiles(procs, from + f) >= 1
    ensures FileInodes(files, x) <= AllFrom(procs, from)
  {
    if files != [] {
      AllFromSplits(procs, from);
      assert files[0].Some? ==> ProcFiles(procs, from + 0) >= 1;
      forall f | 0 <= f < |files[1..]| && files[1..][f].Some?
        ensures ProcFiles(procs, from + 1 + f) >= 1
      {
        assert files[f + 1].Some? && from + (f + 1) == from + 1 + f;
      }
      FilesAtMost(files[1..], procs, from + 1, x);
    }
  }

  /** No 16-bit count overflows. */
  lemma CountsFit(s: Sys, inodes: multiset<nat>, i: nat)
    requires Inv(s, inodes, multiset{}) && inodes[i] <= 1000
    ensures InodeCount(s, i) < 0x1_0000 && FileCount(s, i) < 0x1_0000
  {
    ProcsAtMost(s.procs, i);
    forall f | 0 <= f < |s.files| && s.files[f].Some?
      ensures ProcFiles(s.procs, 0 + f) >= 1
    {
      assert FileCount(s, f) == ProcFiles(s.procs, f) + multiset{}[f];
    }
    FilesAtMost(s.files, s.procs, 0, i);
    AllFromAtMost(s.procs, 0);
  }
}
