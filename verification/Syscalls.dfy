/** The system calls that take and give up references: open, close, chdir, fchdir, fork, exit and wait, each
    keeping every count equal to the number of holders. */
module Syscalls {
  import opened Common
  import opened InodeCache
  import opened PathWalk
  import opened FileRefs

  /** PastTable: the field behind the descriptor table was taken for a file; nothing is said of what follows. */
  datatype Code = Done | NoEntry | NotDirectory | Denied | BadFile | TooMany | Faulted | PastTable

  /** fd_get's check of the index. */
  predicate GuardPasses(fd: int) {
    0 <= fd <= MAX_OPEN_FILES
  }

  /** A descriptor that leads to an open file. */
  predicate IsOpen(p: Proc, fd: int) {
    0 <= fd < |p.fds| && p.fds[fd].Some?
  }

  const NO_PROC: Proc := Proc(Unused, None, None, seq(MAX_OPEN_FILES, _ => None))

  lemma {:induction false} NothingCounted(procs: seq<Proc>, x: nat)
    requires forall i :: 0 <= i < |procs| ==> HoldsNothing(procs[i])
    ensures ProcInodes(procs, x) == 0 && ProcFiles(procs, x) == 0
  {
    if procs != [] {
      NoFds(procs[0].fds, x);
      NothingCounted(procs[1..], x);
    }
  }

  lemma {:induction false} NoFds(fds: seq<Option<nat>>, x: nat)
    requires forall fd :: 0 <= fd < |fds| ==> fds[fd].None?
    ensures Count(fds, x) == 0
  {
    if fds != [] {
      NoFds(fds[1..], x);
    }
  }

  /** Whatever a process or the superblock holds has a count. */
  lemma {:induction false} HolderCounts(procs: seq<Proc>, i: nat, x: nat)
    requires i < |procs|
    ensures procs[i].root == Some(x) || procs[i].pwd == Some(x) ==> ProcInodes(procs, x) > 0
    ensures forall fd :: 0 <= fd < |procs[i].fds| && procs[i].fds[fd] == Some(x) ==> ProcFiles(procs, x) > 0
  {
    if i > 0 {
      HolderCounts(procs[1..], i - 1, x);
      assert procs[1..][i - 1] == procs[i];
    }
    forall fd | 0 <= fd < |procs[i].fds| && procs[i].fds[fd] == Some(x)
      ensures ProcFiles(procs, x) > 0
    {
      if i == 0 {
        FdCounts(procs[0].fds, fd, x);
      }
    }
  }

  lemma {:induction false} FdCounts(os: seq<Option<nat>>, i: nat, x: nat)
    requires i < |os| && os[i] == Some(x)
    ensures Count(os, x) > 0
  {
    if i > 0 {
      FdCounts(os[1..], i - 1, x);
    }
  }

  lemma {:induction false} FileHolderCounts(files: seq<Option<File>>, f: nat)
    requires f < |files| && files[f].Some?
    ensures FileInodes(files, files[f].value.inode) > 0
  {
    if f > 0 {
      FileHolderCounts(files[1..], f - 1);
    }
  }

  /** Root node, root and working directory of a live process are live slots. */
  lemma HeldIsLive(s: Sys, inodes: multiset<nat>, files: multiset<nat>, i: nat)
    requires Inv(s, inodes, files) && i < |s.procs| && s.procs[i].root.Some? && s.procs[i].pwd.Some?
    ensures s.cache[s.rootNode].count != 0
    ensures var x := s.procs[i].root.value; x < MAX_INODES && s.cache[x].count != 0
    ensures var x := s.procs[i].pwd.value; x < MAX_INODES && s.cache[x].count != 0
  {
    var a, b := s.procs[i].root.value, s.procs[i].pwd.value;
    HolderCounts(s.procs, i, a);
    HolderCounts(s.procs, i, b);
    assert InodeCount(s, s.rootNode) == InodeHolders(s, s.rootNode) + inodes[s.rootNode];
    assert InodeCount(s, a) == InodeHolders(s, a) + inodes[a];
    assert InodeCount(s, b) == InodeHolders(s, b) + inodes[b];
  }

  /** An open file, and its inode, that a descriptor leads to. */
  lemma FdIsLive(s: Sys, inodes: multiset<nat>, files: multiset<nat>, i: nat, fd: nat)
    requires Inv(s, inodes, files) && i < |s.procs| && fd < |s.procs[i].fds| && s.procs[i].fds[fd].Some?
    ensures var f := s.procs[i].fds[fd].value;
      && ProcFiles(s.procs, f) > 0 && f < |s.files| && s.files[f].Some?
      && var x := s.files[f].value.inode; x < MAX_INODES && s.cache[x].count != 0
  {
    var f := s.procs[i].fds[fd].value;
    HolderCounts(s.procs, i, f);
    assert FileCount(s, f) == ProcFiles(s.procs, f) + files[f];
    var x := s.files[f].value.inode;
    FileHolderCounts(s.files, f);
    assert InodeCount(s, x) == InodeHolders(s, x) + inodes[x];
  }

  /** An open file lives exactly as long as some descriptor leads to it. */
  lemma FileLivesExactly(s: Sys, f: nat)
    requires Inv(s, multiset{}, multiset{})
    ensures (f < |s.files| && s.files[f].Some?) <==> ProcFiles(s.procs, f) > 0
  {
    assert FileCount(s, f) == ProcFiles(s.procs, f) + multiset{}[f];
  }

  /** The descriptors with the first n dropped. */
  function Cleared(fds: seq<Option<nat>>, n: nat): (r: seq<Option<nat>>)
    ensures |r| == |fds| && forall k :: 0 <= k < |r| ==> r[k] == if k < n then None else fds[k]
  {
    seq(|fds|, k requires 0 <= k < |fds| => if k < n then None else fds[k])
  }

  lemma ClearedFirst(fds: seq<Option<nat>>)
    ensures Cleared(fds, 0) == fds
  {
  }

  lemma ClearedNext(fds: seq<Option<nat>>, n: nat)
    requires n < |fds|
    ensures Cleared(fds, n)[n := None] == Cleared(fds, n + 1)
  {
  }

  /** The first n descriptors of a, the others of b. */
  function Taken(a: seq<Option<nat>>, b: seq<Option<nat>>, n: nat): (r: seq<Option<nat>>)
    requires |a| == |b|
    ensures |r| == |a| && forall k :: 0 <= k < |r| ==> r[k] == if k < n then a[k] else b[k]
  {
    seq(|a|, k requires 0 <= k < |a| => if k < n then a[k] else b[k])
  }

  lemma TakenNext(a: seq<Option<nat>>, b: seq<Option<nat>>, n: nat)
    requires n < |a| == |b|
    ensures Taken(a, b, n)[n := a[n]] == Taken(a, b, n + 1)
  {
  }

  lemma TakenAll(a: seq<Option<nat>>, b: seq<Option<nat>>)
    requires |a| == |b|
    ensures Taken(a, b, |a|) == a
  {
  }

  /** An unused slot has no descriptors, whatever it is to be given. */
  lemma NothingYet(s: Sys, i: nat, fds: seq<Option<nat>>)
    requires Settled(s) && i < |s.procs| && s.procs[i].life != Alive && |s.procs[i].fds| == |fds|
    ensures Taken(fds, s.procs[i].fds, 0) == s.procs[i].fds
    ensures forall fd :: 0 <= fd < |fds| ==> s.procs[i].fds[fd].None?
  {
  }

  lemma SettledCopy(s: Sys, s': Sys, i: nat, j: nat)
    requires Settled(s) && i < |s.procs| && j < |s.procs| && s.procs[j].life == Alive
    requires s'.procs == s.procs[i := s.procs[j]]
    ensures Settled(s')
  {
  }

  lemma SettledAfter(s: Sys, s': Sys, i: nat)
    requires Settled(s) && i < |s.procs| == |s'.procs| && s'.procs == s.procs[i := s'.procs[i]]
    requires s'.procs[i] == Proc(Zombie, None, None, Cleared(s.procs[i].fds, |s.procs[i].fds|))
    ensures Settled(s')
  {
  }

  function Releasing(files: seq<Option<File>>, f: nat): (r: seq<Option<File>>)
    requires f < |files| && files[f].Some? && files[f].value.count > 0
  {
    files[f := if files[f].value.count == 1 then None else Some(files[f].value.(count := files[f].value.count - 1))]
  }

  /** Open files that are still there are on the inode they were on. */
  predicate FilesKept(was: seq<Option<File>>, now: seq<Option<File>>) {
    |now| == |was| && forall f :: 0 <= f < |now| && now[f].Some? ==>
      was[f].Some? && now[f].value.inode == was[f].value.inode
  }

  /** Live cache slots hold the inode they held. */
  predicate KeysKept(was: Cache, now: Cache) {
    |now| == |was| && forall x :: 0 <= x < |now| && now[x].count != 0 ==> was[x].count != 0 && now[x].key == was[x].key
  }

  class Vfs {
    const table: Table
    var files: seq<Option<File>>
    var procs: seq<Proc>
    var current: nat

    ghost function Value(): (s: Sys)
      reads this, table
    {
      Sys(table.slots, files, procs, table.rootNode)
    }

    /** Between system calls, whoever runs. */
    ghost predicate Consistent()
      reads this, table
    {
      Inv(Value(), multiset{}, multiset{}) && Settled(Value())
    }

    ghost predicate Valid()
      reads this, table
    {
      Consistent() && current < |procs| && procs[current].life == Alive
    }

    /** The system after the first process was made: the superblock's reference and the process's two. */
    constructor (root: Key)
      requires root.sb != 0
      ensures Valid() && fresh(table) && files == [] && current == 0
      ensures table.slots == seq(MAX_INODES, _ => EMPTY)[0 := Inode(root, 3)]
      ensures procs == seq(NUM_PROC, _ => NO_PROC)[0 := Proc(Alive, Some(0), Some(0), NO_PROC.fds)]
    {
      var t := new Table(0);
      table := t;
      files := [];
      ghost var none: seq<Proc> := seq(NUM_PROC, _ => NO_PROC);
      procs := seq(NUM_PROC, _ => NO_PROC)[0 := NO_PROC.(life := Alive, root := Some(0), pwd := Some(0))];
      current := 0;
      new;
      table.slots := table.slots[0 := Inode(root, 3)];
      ghost var s: Sys := Value();
      forall x: nat
        ensures InodeCount(s, x) == InodeHolders(s, x) + multiset{}[x]
        ensures FileCount(s, x) == ProcFiles(s.procs, x) + multiset{}[x]
      {
        NothingCounted(none, x);
        ProcUpdate(none, 0, procs[0], x);
      }
    }

    /** inode_put of a reference the code holds: the abort is out of reach. */
    method Put(x: nat, ghost inodes: multiset<nat>, ghost fs: multiset<nat>)
      requires Inv(Value(), inodes, fs) && x in inodes
      modifies table
      ensures Inv(Value(), inodes - multiset{x}, fs)
      ensures x < |old(table.slots)| && old(table.slots)[x].count != 0 && table.slots == Dropped(old(table.slots), x)
    {
      hide InodeHolders;
      DropKeeps(Value(), inodes, fs, x);
      var ok := table.InodePut(x);
      assert ok;
    }

    method FilePut(f: nat, ghost inodes: multiset<nat>, ghost fs: multiset<nat>)
      requires Inv(Value(), inodes, fs) && f in fs
      modifies this`files, table
      ensures Inv(Value(), inodes, fs - multiset{f})
      ensures f < |old(files)| && old(files)[f].Some? && old(files)[f].value.count > 0
      ensures files == Releasing(old(files), f)
      ensures KeysKept(old(table.slots), table.slots)
    {
      hide Inv;
      FileDownKeeps(Value(), inodes, fs, f);
      var g := files[f].value;
      if g.count == 1 {
        files := files[f := None];
        Put(g.inode, inodes + multiset{g.inode}, fs - multiset{f});
        assert inodes + multiset{g.inode} - multiset{g.inode} == inodes;
      } else {
        files := files[f := Some(g.(count := g.count - 1))];
      }
    }

    /** The open file behind a descriptor; past says that the check let an index past the table through. */
    method FdGet(fd: int) returns (f: Option<nat>, past: bool)
      requires current < |procs| && |procs[current].fds| == MAX_OPEN_FILES
      ensures past <==> GuardPasses(fd) && !(0 <= fd < |procs[current].fds|)
      ensures f == if IsOpen(procs[current], fd) then procs[current].fds[fd] else None
    {
      if fd < 0 || fd > MAX_OPEN_FILES {
        return None, false;
      }
      if fd == MAX_OPEN_FILES {
        return None, true;
      }
      return procs[current].fds[fd], false;
    }

    /** The first free descriptor; the open file itself is made by the caller. */
    method FdAlloc() returns (fd: Option<nat>)
      requires current < |procs|
      ensures fd.Some? ==> fd.value < |procs[current].fds| && procs[current].fds[fd.value].None?
      ensures fd.Some? ==> forall k :: 0 <= k < fd.value ==> procs[current].fds[k].Some?
      ensures fd.None? ==> forall k :: 0 <= k < |procs[current].fds| ==> procs[current].fds[k].Some?
    {
      var i := 0;
      while i < |procs[current].fds|
        invariant 0 <= i <= |procs[current].fds| && forall k :: 0 <= k < i ==> procs[current].fds[k].Some?
      {
        if procs[current].fds[i].None? {
          return Some(i);
        }
        i := i + 1;
      }
      fd := None;
    }

    ghost function RootKey(): (k: Key)
      requires Valid()
      reads this, table
    {
      HeldIsLive(Value(), multiset{}, multiset{}, current);
      table.slots[procs[current].root.value].key
    }

    ghost function PwdKey(): (k: Key)
      requires Valid()
      reads this, table
    {
      HeldIsLive(Value(), multiset{}, multiset{}, current);
      table.slots[procs[current].pwd.value].key
    }

    /** vfs_lookup from a system call: a reference the code then holds, or none. */
    method Find(t: Tree, path: seq<char>) returns (r: Result)
      requires Valid()
      modifies table
      ensures
        var what := ResolveIn(old(table.slots), t, old(RootKey()), old(PwdKey()), path);
        && (r.Slot? ==> what.Reaches? && Gained(old(table.slots), table.slots, r.slot, what.key)
                        && Inv(Value(), multiset{r.slot}, multiset{}))
        && (r.Null? ==> what.Nowhere? && table.slots == old(table.slots))
        && (r.Fault? ==> what.Faults?)
    {
      ghost var s: Sys := Value();
      HeldIsLive(s, multiset{}, multiset{}, current);
      ghost var what: Found := ResolveIn(table.slots, t, RootKey(), PwdKey(), path);
      r := Lookup(table, t, procs[current].root.value, procs[current].pwd.value, path);
      if r.Slot? {
        GainKeeps(s, multiset{}, multiset{}, table.slots, r.slot, what.key);
        assert multiset{} + multiset{r.slot} == multiset{r.slot};
      }
    }

    /** The descriptor of the running process set to o. */
    function WithFd(fd: nat, o: Option<nat>): (r: seq<Proc>)
      requires current < |procs| && fd < |procs[current].fds|
      reads this
    {
      procs[current := procs[current].(fds := procs[current].fds[fd := o])]
    }

    /** sys_close: the descriptor's reference is given up, and with the last one the open file. */
    method Close(fd: int) returns (code: Code)
      requires Valid()
      modifies this`procs, this`files, table
      ensures Valid()
      ensures code == if fd == 64 then PastTable else if IsOpen(old(procs)[old(current)], fd) then Done else BadFile
      ensures code != Done ==> procs == old(procs) && files == old(files) && table.slots == old(table.slots)
      ensures code == Done ==> procs == old(WithFd(fd, None))
      ensures code == Done ==> var f := old(procs[current].fds[fd]).value;
        && f < |old(files)| && old(files)[f].Some? && old(files)[f].value.count > 0 && files == Releasing(old(files), f)
      ensures KeysKept(old(table.slots), table.slots)
    {
      hide Inv;
      ShapeOf(Value(), multiset{}, multiset{});
      var f, past := FdGet(fd);
      if past {
        return PastTable;
      }
      if f.None? {
        return BadFile;
      }
      FdKeeps(Value(), multiset{}, multiset{}, current, fd, None, multiset{f.value});
      procs := WithFd(fd, None);
      Singleton(f.value);
      FilePut(f.value, multiset{}, multiset{f.value});
      code := Done;
    }

    /** sys_open of a path that exists; granted and memory are what the permission check and kmalloc say. */
    method OpenPath(t: Tree, path: seq<char>, granted: bool, memory: bool) returns (code: Code, fd: nat)
      requires Valid()
      modifies this`procs, this`files, table
      ensures code != Faulted ==> Valid()
      ensures
        var what := ResolveIn(old(table.slots), t, old(RootKey()), old(PwdKey()), path);
        var room := memory && exists k :: 0 <= k < MAX_OPEN_FILES && old(procs[current].fds[k]).None?;
        code == match what
          case Nowhere => NoEntry
          case Faults => Faulted
          case Reaches(_) => if !granted then Denied else if !room then TooMany else Done
      ensures code != Done && code != Faulted ==>
        procs == old(procs) && files == old(files) && table.slots == old(table.slots)
      ensures code == Done ==>
        fd < MAX_OPEN_FILES && old(procs[current].fds[fd]).None? && procs == old(WithFd(fd, Some(|files|)))
      ensures code == Done ==> forall k :: 0 <= k < fd ==> old(procs[current].fds[k]).Some?
      ensures code == Done ==>
        var what := ResolveIn(old(table.slots), t, old(RootKey()), old(PwdKey()), path);
        && what.Reaches? && |files| == |old(files)| + 1 && files[..|old(files)|] == old(files)
        && files[|old(files)|].Some?
        && files[|old(files)|].value.count == 1
        && Gained(old(table.slots), table.slots, files[|old(files)|].value.inode, what.key)
    {
      hide Inv, ResolveIn;
      ShapeOf(Value(), multiset{}, multiset{});
      fd := 0;
      var r := Find(t, path);
      if r.Fault? {
        return Faulted, 0;
      }
      if r.Null? {
        return NoEntry, 0;
      }
      ghost var x: nat := r.slot;
      Singleton(x);
      ghost var what: Found := ResolveIn(old(table.slots), t, old(RootKey()), old(PwdKey()), path);
      DropUndoesGain(old(table.slots), table.slots, x, what.key);
      if !granted {
        Put(r.slot, multiset{r.slot}, multiset{});
        return Denied, 0;
      }
      var slot := FdAlloc();
      if slot.None? || !memory {
        Put(r.slot, multiset{r.slot}, multiset{});
        return TooMany, 0;
      }
      fd := slot.value;
      FileNewKeeps(Value(), multiset{r.slot}, multiset{}, r.slot);
      var f := |files|;
      files := files + [Some(File(r.slot, 1))];
      Singleton(f);
      FdKeeps(Value(), multiset{}, multiset{f}, current, fd, Some(f), multiset{});
      procs := WithFd(fd, Some(f));
      code := Done;
    }

    /** The running process's working directory becomes slot x, a reference to which the code holds. */
    method MovePwd(x: nat, ghost old_: nat)
      requires Inv(Value(), multiset{x}, multiset{}) && Settled(Value()) && current < |procs|
      requires procs[current].life == Alive
      requires procs[current].pwd == Some(old_)
      modifies this`procs, table
      ensures Valid() && procs == old(procs)[current := old(procs)[current].(pwd := Some(x))]
      ensures old_ < |old(table.slots)| && old(table.slots)[old_].count != 0
      ensures table.slots == Dropped(old(table.slots), old_)
    {
      hide Inv;
      ShapeOf(Value(), multiset{x}, multiset{});
      Singleton(old_);
      PwdKeeps(Value(), current, multiset{x}, Some(x));
      var was := procs[current].pwd.value;
      procs := procs[current := procs[current].(pwd := Some(x))];
      Put(was, multiset{old_}, multiset{});
    }

    /** sys_chdir. */
    method Chdir(t: Tree, path: seq<char>) returns (code: Code)
      requires Valid()
      modifies this`procs, table
      ensures code != Faulted ==> Valid()
      ensures
        var what := ResolveIn(old(table.slots), t, old(RootKey()), old(PwdKey()), path);
        code == match what
          case Nowhere => NoEntry
          case Faults => Faulted
          case Reaches(k) => if k !in t.dirs then NotDirectory else if k !in t.searchable then Denied else Done
      ensures code != Done && code != Faulted ==> procs == old(procs) && table.slots == old(table.slots)
      ensures code == Done ==> exists x :: procs == old(procs)[current := old(procs)[current].(pwd := Some(x))]
      ensures code == Done ==>
        var what := ResolveIn(old(table.slots), t, old(RootKey()), old(PwdKey()), path);
        what.Reaches? && what.key in t.dirs && what.key in t.searchable && PwdKey() == what.key
      ensures code == Done ==>
        forall x :: 0 <= x < |table.slots| && table.slots[x].count != 0 && procs[current].pwd != Some(x) ==>
          x < |old(table.slots)| && table.slots[x].key == old(table.slots)[x].key
    {
      var r := Find(t, path);
      if r.Fault? {
        return Faulted;
      }
      if r.Null? {
        return NoEntry;
      }
      ghost var x: nat := r.slot;
      ghost var what: Found := ResolveIn(old(table.slots), t, old(RootKey()), old(PwdKey()), path);
      ghost var c: Cache := table.slots;
      DropUndoesGain(old(table.slots), c, x, what.key);
      assert multiset{x} - multiset{x} == multiset{};
      assert c[x].key == what.key;
      if table.slots[r.slot].key !in t.dirs {
        Put(r.slot, multiset{x}, multiset{});
        return NotDirectory;
      }
      if table.slots[r.slot].key !in t.searchable {
        Put(r.slot, multiset{x}, multiset{});
        return Denied;
      }
      MovePwd(r.slot, procs[current].pwd.value);
      KeyStays(c, old(procs)[current].pwd.value, x, Value(), current);
      code := Done;
    }

    /** sys_fchdir: the old directory's reference is given up before the new one's is taken. */
    method Fchdir(t: Tree, fd: int) returns (code: Code)
      requires Valid()
      modifies this`procs, table
      ensures Valid()
      ensures IsOpen(old(procs)[old(current)], fd) ==>
        var f := old(procs[current].fds[fd]).value;
        && f < |files| && files[f].Some? && files[f].value.inode < |old(table.slots)|
        && var k := old(table.slots)[files[f].value.inode].key;
        code == if k !in t.dirs then NotDirectory else if k !in t.searchable then Denied else Done
      ensures !IsOpen(old(procs)[old(current)], fd) ==> code == if fd == 64 then PastTable else BadFile
      ensures code != Done ==> procs == old(procs) && table.slots == old(table.slots)
      ensures code == Done ==> var f := old(procs[current].fds[fd]).value;
        && f < |files| && files[f].Some?
        && procs == old(procs)[current := old(procs)[current].(pwd := Some(files[f].value.inode))]
      ensures KeysKept(old(table.slots), table.slots)
    {
      hide Inv;
      ShapeOf(Value(), multiset{}, multiset{});
      var d, past := FdGet(fd);
      if past {
        return PastTable;
      }
      if d.None? {
        return BadFile;
      }
      FdIsLive(Value(), multiset{}, multiset{}, current, fd);
      var x := files[d.value].value.inode;
      if table.slots[x].key !in t.dirs {
        return NotDirectory;
      }
      if table.slots[x].key !in t.searchable {
        return Denied;
      }
      LeavePwd();
      FileInodeIsLive(Value(), multiset{}, multiset{}, d.value);
      Take(x, multiset{}, multiset{});
      Singleton(x);
      PwdKeeps(Value(), current, multiset{x}, Some(x));
      procs := procs[current := procs[current].(pwd := Some(x))];
      code := Done;
    }

    /** inode_put(pwd), and the pointer forgotten. */
    method LeavePwd()
      requires Inv(Value(), multiset{}, multiset{}) && current < |procs| && procs[current].pwd.Some?
      modifies this`procs, table
      ensures Inv(Value(), multiset{}, multiset{}) && |procs| == NUM_PROC
      ensures procs == old(procs)[current := old(procs)[current].(pwd := None)]
      ensures KeysKept(old(table.slots), table.slots)
    {
      hide Inv;
      ShapeOf(Value(), multiset{}, multiset{});
      var was := procs[current].pwd.value;
      Singleton(was);
      PwdKeeps(Value(), current, multiset{}, None);
      procs := procs[current := procs[current].(pwd := None)];
      Put(was, multiset{was}, multiset{});
    }

    method LeaveRoot()
      requires Inv(Value(), multiset{}, multiset{}) && current < |procs| && procs[current].root.Some?
      modifies this`procs, table
      ensures Inv(Value(), multiset{}, multiset{}) && |procs| == NUM_PROC
      ensures procs == old(procs)[current := old(procs)[current].(root := None)]
      ensures KeysKept(old(table.slots), table.slots)
    {
      hide Inv;
      ShapeOf(Value(), multiset{}, multiset{});
      var was := procs[current].root.value;
      Singleton(was);
      RootKeeps(Value(), current, multiset{}, None);
      procs := procs[current := procs[current].(root := None)];
      Put(was, multiset{was}, multiset{});
    }

    /** i_count += 1 on a slot that is live. */
    method Take(x: nat, ghost inodes: multiset<nat>, ghost fs: multiset<nat>)
      requires Inv(Value(), inodes, fs) && x < MAX_INODES && table.slots[x].count != 0
      modifies table
      ensures Inv(Value(), inodes + multiset{x}, fs)
      ensures Gained(old(table.slots), table.slots, x, old(table.slots)[x].key)
    {
      ghost var s: Sys := Value();
      table.slots := table.slots[x := table.slots[x].(count := table.slots[x].count + 1)];
      GainKeeps(s, inodes, fs, table.slots, x, s.cache[x].key);
    }

    /** __alloc_proc and what do_fork adds, with memory for stack and tables or without; None is -1. */
    method Fork(memory: bool) returns (child: Option<nat>)
      requires Valid()
      modifies this`procs, this`files, table
      ensures Valid()
      ensures child.None? ==> procs == old(procs) && files == old(files) && table.slots == old(table.slots)
      ensures child.None? <==> !memory || forall i :: 0 <= i < NUM_PROC ==> old(procs)[i].life != Unused
      ensures child.Some? ==> child.value < NUM_PROC && old(procs)[child.value].life == Unused
      ensures child.Some? ==> forall k :: 0 <= k < child.value ==> old(procs)[k].life != Unused
      ensures child.Some? ==> procs == old(procs)[child.value := old(procs)[current]]
      ensures FilesKept(old(files), files) && KeysKept(old(table.slots), table.slots)
    {
      var i := 0;
      while i < NUM_PROC && procs[i].life != Unused
        invariant 0 <= i <= NUM_PROC && forall k :: 0 <= k < i ==> procs[k].life != Unused
      {
        i := i + 1;
      }
      if i == NUM_PROC || !memory {
        return None;
      }
      FillChild(i);
      child := Some(i);
    }

    /** The rest of __alloc_proc and of do_fork for the slot found. */
    method FillChild(i: nat)
      requires Valid() && i < NUM_PROC && procs[i].life == Unused
      modifies this`procs, this`files, table
      ensures Valid() && procs == old(procs)[i := old(procs)[current]]
      ensures FilesKept(old(files), files) && KeysKept(old(table.slots), table.slots)
    {
      ghost var s0: Sys, me: Proc, it: Proc := Value(), procs[current], procs[i];
      hide Inv, Settled, HoldsNothing, Taken;
      ShapeOf(s0, multiset{}, multiset{});
      NothingYet(s0, i, me.fds);
      ShareDirectories(i);
      var fd := 0;
      while fd < MAX_OPEN_FILES
        invariant 0 <= fd <= MAX_OPEN_FILES && |procs| == NUM_PROC
        invariant Inv(Value(), multiset{}, multiset{})
        invariant procs == s0.procs[i := Proc(Embryo, me.root, me.pwd, Taken(me.fds, it.fds, fd))]
        invariant FilesKept(old(files), files) && KeysKept(old(table.slots), table.slots)
      {
        NothingYet(s0, i, me.fds);
        ShareFile(i, fd);
        TakenNext(me.fds, it.fds, fd);
        fd := fd + 1;
      }
      TakenAll(me.fds, it.fds);
      LifeKeeps(Value(), i, Alive);
      procs := procs[i := procs[i].(life := Alive)];
      SettledCopy(s0, Value(), i, current);
    }

    method ShareDirectories(i: nat)
      requires Valid() && i < NUM_PROC && procs[i].life == Unused
      modifies this`procs, table
      ensures |procs| == NUM_PROC && Inv(Value(), multiset{}, multiset{})
      ensures
        var parent := old(procs)[current];
        procs == old(procs)[i := Proc(Embryo, parent.root, parent.pwd, old(procs)[i].fds)]
      ensures KeysKept(old(table.slots), table.slots)
    {
      hide Inv;
      ShapeOf(Value(), multiset{}, multiset{});
      HeldIsLive(Value(), multiset{}, multiset{}, current);
      var root := procs[current].root.value;
      Take(root, multiset{}, multiset{});
      Singleton(root);
      RootKeeps(Value(), i, multiset{root}, Some(root));
      procs := procs[i := procs[i].(root := Some(root))];
      HeldIsLive(Value(), multiset{}, multiset{}, current);
      var pwd := procs[current].pwd.value;
      Take(pwd, multiset{}, multiset{});
      Singleton(pwd);
      PwdKeeps(Value(), i, multiset{pwd}, Some(pwd));
      procs := procs[i := procs[i].(pwd := Some(pwd))];
      LifeKeeps(Value(), i, Embryo);
      procs := procs[i := procs[i].(life := Embryo)];
    }

    /** One turn of the descriptor loop. */
    method ShareFile(i: nat, fd: nat)
      requires Inv(Value(), multiset{}, multiset{}) && i < NUM_PROC && current < NUM_PROC && i != current
      requires fd < MAX_OPEN_FILES
      requires procs[i].fds[fd].None?
      modifies this`procs, this`files
      ensures |procs| == NUM_PROC && Inv(Value(), multiset{}, multiset{})
      ensures procs == old(procs)[i := old(procs)[i].(fds := old(procs)[i].fds[fd := old(procs)[current].fds[fd]])]
      ensures FilesKept(old(files), files)
    {
      hide Inv;
      ShapeOf(Value(), multiset{}, multiset{});
      if procs[current].fds[fd].Some? {
        var f := procs[current].fds[fd].value;
        FdIsLive(Value(), multiset{}, multiset{}, current, fd);
        FileUpKeeps(Value(), multiset{}, multiset{}, f);
        files := files[f := Some(files[f].value.(count := files[f].value.count + 1))];
        Singleton(f);
        FdKeeps(Value(), multiset{}, multiset{f}, i, fd, Some(f), multiset{});
        procs := procs[i := procs[i].(fds := procs[i].fds[fd := Some(f)])];
      } else {
        assert procs[i].fds[fd := None] == procs[i].fds;
        assert procs[i := procs[i]] == procs;
      }
    }

    /** do_exit: every reference of the process is given up, and it becomes a zombie without any. */
    method Exit()
      requires Valid()
      modifies this`procs, this`files, table
      ensures Consistent()
      ensures |old(procs)[current].fds| == MAX_OPEN_FILES
      ensures procs == old(procs)[current := Proc(Zombie, None, None, Cleared(old(procs)[current].fds, MAX_OPEN_FILES))]
      ensures FilesKept(old(files), files) && KeysKept(old(table.slots), table.slots)
    {
      ghost var me: Proc := procs[current];
      ghost var before: seq<Proc> := procs;
      ghost var s0: Sys := Value();
      hide Inv, Settled, HoldsNothing, Cleared;
      ShapeOf(Value(), multiset{}, multiset{});
      LeavePwd();
      LeaveRoot();
      ClearedFirst(me.fds);
      var fd := 0;
      while fd < MAX_OPEN_FILES
        invariant 0 <= fd <= MAX_OPEN_FILES && |procs| == NUM_PROC && current < NUM_PROC
        invariant Inv(Value(), multiset{}, multiset{})
        invariant procs == before[current := Proc(Alive, None, None, Cleared(me.fds, fd))]
        invariant FilesKept(old(files), files) && KeysKept(old(table.slots), table.slots)
      {
        DropFile(fd);
        ClearedNext(me.fds, fd);
        fd := fd + 1;
      }
      LifeKeeps(Value(), current, Zombie);
      procs := procs[current := procs[current].(life := Zombie)];
      SettledAfter(s0, Value(), current);
    }

    /** One turn of the descriptor loop of do_exit. */
    method DropFile(fd: nat)
      requires Inv(Value(), multiset{}, multiset{}) && current < NUM_PROC && fd < MAX_OPEN_FILES
      requires |procs| == NUM_PROC && |procs[current].fds| == MAX_OPEN_FILES
      modifies this`procs, this`files, table
      ensures Inv(Value(), multiset{}, multiset{}) && |procs| == NUM_PROC
      ensures procs == old(procs)[current := old(procs)[current].(fds := old(procs)[current].fds[fd := None])]
      ensures FilesKept(old(files), files) && KeysKept(old(table.slots), table.slots)
    {
      hide Inv;
      if procs[current].fds[fd].Some? {
        var f := procs[current].fds[fd].value;
        Singleton(f);
        FdKeeps(Value(), multiset{}, multiset{}, current, fd, None, multiset{f});
        procs := WithFd(fd, None);
        FilePut(f, multiset{}, multiset{f});
      } else {
        assert procs[current].fds[fd := None] == procs[current].fds;
        assert procs[current := procs[current]] == procs;
      }
    }

    /** The end of do_wait: a zombie's slot is free again. */
    method Reap(i: nat)
      requires Consistent() && i < NUM_PROC && procs[i].life == Zombie
      modifies this`procs
      ensures Consistent() && procs == old(procs)[i := old(procs)[i].(life := Unused)]
    {
      LifeKeeps(Value(), i, Unused);
      procs := procs[i := procs[i].(life := Unused)];
    }

    /** Another live process runs. */
    method Switch(i: nat)
      requires Consistent() && i < NUM_PROC && procs[i].life == Alive
      modifies this`current
      ensures Valid() && current == i
    {
      current := i;
    }
  }

  lemma ShapeOf(s: Sys, inodes: multiset<nat>, files: multiset<nat>)
    requires Inv(s, inodes, files)
    ensures |s.procs| == NUM_PROC && |s.cache| == MAX_INODES && Clean(s.cache) && s.rootNode < MAX_INODES
    ensures forall p :: 0 <= p < NUM_PROC ==> |s.procs[p].fds| == MAX_OPEN_FILES
  {
  }

  lemma Singleton(x: nat)
    ensures multiset{x} - multiset{x} == multiset{} && multiset{} + multiset{x} == multiset{x}
  {
  }

  /** The working directory of process i passes to the running code and, if x is given, x from it. */
  lemma PwdKeeps(s: Sys, i: nat, inodes: multiset<nat>, x: Option<nat>)
    requires Inv(s, inodes, multiset{}) && i < |s.procs|
    requires inodes == (if x.Some? then multiset{x.value} else multiset{})
    ensures
      var was := s.procs[i].pwd;
      var inodes' := if was.Some? then multiset{was.value} else multiset{};
      Inv(s.(procs := s.procs[i := s.procs[i].(pwd := x)]), inodes', multiset{})
  {
    var was := s.procs[i].pwd;
    var inodes': multiset<nat> := if was.Some? then multiset{was.value} else multiset{};
    ProcKeeps(s, inodes, multiset{}, i, s.procs[i].(pwd := x), inodes', multiset{});
  }

  lemma RootKeeps(s: Sys, i: nat, inodes: multiset<nat>, x: Option<nat>)
    requires Inv(s, inodes, multiset{}) && i < |s.procs|
    requires inodes == (if x.Some? then multiset{x.value} else multiset{})
    ensures
      var was := s.procs[i].root;
      var inodes' := if was.Some? then multiset{was.value} else multiset{};
      Inv(s.(procs := s.procs[i := s.procs[i].(root := x)]), inodes', multiset{})
  {
    var was := s.procs[i].root;
    var inodes': multiset<nat> := if was.Some? then multiset{was.value} else multiset{};
    ProcKeeps(s, inodes, multiset{}, i, s.procs[i].(root := x), inodes', multiset{});
  }

  lemma LifeKeeps(s: Sys, i: nat, life: Life)
    requires Inv(s, multiset{}, multiset{}) && i < |s.procs|
    ensures Inv(s.(procs := s.procs[i := s.procs[i].(life := life)]), multiset{}, multiset{})
  {
    ProcKeeps(s, multiset{}, multiset{}, i, s.procs[i].(life := life), multiset{}, multiset{});
  }

  lemma FileInodeIsLive(s: Sys, inodes: multiset<nat>, files: multiset<nat>, f: nat)
    requires Inv(s, inodes, files) && f < |s.files| && s.files[f].Some?
    ensures var x := s.files[f].value.inode; x < MAX_INODES && s.cache[x].count != 0
  {
    var x := s.files[f].value.inode;
    FileHolderCounts(s.files, f);
    assert InodeCount(s, x) == InodeHolders(s, x) + inodes[x];
  }

  /** After the old directory is given up the new one still has its key. */
  lemma KeyStays(c: Cache, was: nat, x: nat, s: Sys, i: nat)
    requires Inv(s, multiset{}, multiset{}) && i < |s.procs| && s.procs[i].root.Some? && s.procs[i].pwd == Some(x)
    requires was < |c| && c[was].count != 0 && s.cache == Dropped(c, was) && x < |c|
    ensures s.cache[x].key == c[x].key
  {
    HeldIsLive(s, multiset{}, multiset{}, i);
  }
}
