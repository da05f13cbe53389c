/** Path lookup: the words of a path, the walk over the tree, and the references it takes and gives back. */
module PathWalk {
  import opened Common
  import opened InodeCache

  // ----- words -----

  /** The maximal runs of s without c: a word is closed by c or by the end. */
  function Words(s: seq<char>, c: char): (r: seq<seq<char>>)
    decreases |s|
  {
    if s == [] then []
    else if s[0] == c then Words(s[1..], c)
    else
      var n := WordLength(s, c);
      [s[..n]] + Words(s[n..], c)
  }

  function WordLength(s: seq<char>, c: char): (n: nat)
    ensures n <= |s| && (forall i :: 0 <= i < n ==> s[i] != c) && (n < |s| ==> s[n] == c)
    ensures s != [] && s[0] != c ==> n > 0
  {
    if s == [] || s[0] == c then 0 else 1 + WordLength(s[1..], c)
  }

  /** [i, j) is a maximal stretch of s without c. */
  predicate MaximalRun(s: seq<char>, c: char, i: nat, j: nat) {
    && i < j <= |s| && (forall k :: i <= k < j ==> s[k] != c)
    && (i == 0 || s[i - 1] == c) && (j == |s| || s[j] == c)
  }

  /** Where each word lies in s, from offset o on. */
  function WordSpans(s: seq<char>, c: char, o: nat): (r: seq<(nat, nat)>)
    requires o <= |s|
    decreases |s| - o
  {
    if o == |s| then []
    else if s[o] == c then WordSpans(s, c, o + 1)
    else
      var n := WordLength(s[o..], c);
      [(o, o + n)] + WordSpans(s, c, o + n)
  }

  /** The words are exactly the maximal runs, in order: each span is one, and each one is a span. */
  lemma {:induction false} SpansAreMaximalRuns(s: seq<char>, c: char, o: nat)
    requires o <= |s| && (o == 0 || o == |s| || s[o - 1] == c || s[o] == c)
    ensures forall k :: 0 <= k < |WordSpans(s, c, o)| ==>
      var (i, j) := WordSpans(s, c, o)[k]; o <= i && MaximalRun(s, c, i, j)
    ensures forall i: nat, j: nat :: o <= i && MaximalRun(s, c, i, j) ==> (i, j) in WordSpans(s, c, o)
    decreases |s| - o
  {
    hide MaximalRun;
    NoRunAtTheEnd(s, c);
    if o < |s| {
      if s[o] == c {
        SpansAreMaximalRuns(s, c, o + 1);
      } else {
        OneRun(s, c, o);
        SpansAreMaximalRuns(s, c, o + WordLength(s[o..], c));
      }
    }
  }

  /** A run begins at a character that is no separator. */
  lemma NoRunAtTheEnd(s: seq<char>, c: char)
    ensures forall i: nat, j: nat :: MaximalRun(s, c, i, j) ==> i < |s| && s[i] != c
  {
  }

  /** The word that begins at o is a maximal run, and every later run begins behind it. */
  lemma OneRun(s: seq<char>, c: char, o: nat)
    requires o < |s| && s[o] != c && (o == 0 || s[o - 1] == c)
    ensures var e := o + WordLength(s[o..], c);
      && MaximalRun(s, c, o, e) && (e == |s| || s[e] == c)
      && forall i: nat, j: nat :: o <= i && MaximalRun(s, c, i, j) ==> (i, j) == (o, e) || e <= i
  {
    var n := WordLength(s[o..], c);
    assert forall k :: o <= k < o + n ==> s[k] == s[o..][k - o];
    assert o + n < |s| ==> s[o + n] == s[o..][n];
  }

  lemma {:induction false} WordsAreSpans(s: seq<char>, c: char, o: nat)
    requires o <= |s|
    ensures |Words(s[o..], c)| == |WordSpans(s, c, o)|
    ensures forall k :: 0 <= k < |WordSpans(s, c, o)| ==>
      var (i, j) := WordSpans(s, c, o)[k]; i <= j <= |s| && Words(s[o..], c)[k] == s[i..j]
    decreases |s| - o
  {
    if o < |s| {
      if s[o] == c {
        assert s[o..][1..] == s[o + 1..];
        WordsAreSpans(s, c, o + 1);
      } else {
        var n := WordLength(s[o..], c);
        assert s[o..][n..] == s[o + n..] && s[o..][..n] == s[o..o + n];
        WordsAreSpans(s, c, o + n);
      }
    }
  }

  /** words are the maximal runs of s, all of them, each once and in order. */
  ghost predicate AreItsWords(s: seq<char>, c: char, words: seq<seq<char>>) {
    exists spans: seq<(nat, nat)> ::
      && |spans| == |words|
      && (forall k :: 0 <= k < |spans| ==>
            MaximalRun(s, c, spans[k].0, spans[k].1) && words[k] == s[spans[k].0..spans[k].1])
      && (forall j, k :: 0 <= j < k < |spans| ==> spans[j].1 < spans[k].0)
      && (forall i: nat, j: nat :: MaximalRun(s, c, i, j) ==> (i, j) in spans)
  }

  lemma {:induction false} SpansAfter(s: seq<char>, c: char, o: nat)
    requires o <= |s|
    ensures forall k :: 0 <= k < |WordSpans(s, c, o)| ==> o <= WordSpans(s, c, o)[k].0
    decreases |s| - o
  {
    if o < |s| {
      SpansAfter(s, c, if s[o] == c then o + 1 else o + WordLength(s[o..], c));
    }
  }

  lemma {:induction false} SpansInOrder(s: seq<char>, c: char, o: nat)
    requires o <= |s| && (o == 0 || o == |s| || s[o - 1] == c || s[o] == c)
    ensures forall j, k :: 0 <= j < k < |WordSpans(s, c, o)| ==> WordSpans(s, c, o)[j].1 < WordSpans(s, c, o)[k].0
    decreases |s| - o
  {
    hide MaximalRun;
    if o < |s| {
      if s[o] == c {
        SpansInOrder(s, c, o + 1);
      } else {
        OneRun(s, c, o);
        var e := o + WordLength(s[o..], c);
        var rest := WordSpans(s, c, e);
        assert WordSpans(s, c, o) == [(o, e)] + rest && (e < |s| ==> rest == WordSpans(s, c, e + 1));
        hide WordSpans;
        SpansInOrder(s, c, e);
        if e < |s| {
          SpansAfter(s, c, e + 1);
        } else {
          NoSpans(s, c);
        }
        FirstInOrder((o, e), rest);
      }
    }
  }

  lemma NoSpans(s: seq<char>, c: char)
    ensures WordSpans(s, c, |s|) == []
  {
  }

  lemma FirstInOrder(x: (nat, nat), rest: seq<(nat, nat)>)
    requires forall j, k :: 0 <= j < k < |rest| ==> rest[j].1 < rest[k].0
    requires forall k :: 0 <= k < |rest| ==> x.1 < rest[k].0
    ensures var r := [x] + rest; forall j, k :: 0 <= j < k < |r| ==> r[j].1 < r[k].0
  {
  }

  /** What split returns: exactly the maximal stretches without the separator, in order. */
  lemma WordsAreMaximalRuns(s: seq<char>, c: char)
    ensures AreItsWords(s, c, Words(s, c))
  {
    assert s[0..] == s;
    WordsAreSpans(s, c, 0);
    SpansAreMaximalRuns(s, c, 0);
    SpansInOrder(s, c, 0);
    var spans := WordSpans(s, c, 0);
    assert forall k :: 0 <= k < |spans| ==>
      MaximalRun(s, c, spans[k].0, spans[k].1) && Words(s, c)[k] == s[spans[k].0..spans[k].1];
  }

  /** The words that begin in s, when s begins inside a word or not. */
  function Beginnings(s: seq<char>, c: char, inside: bool): (n: nat) {
    if s == [] then 0
    else if s[0] == c then Beginnings(s[1..], c, false)
    else (if inside then 0 else 1) + Beginnings(s[1..], c, true)
  }

  lemma {:induction false} BeginningsAreWords(s: seq<char>, c: char)
    ensures Beginnings(s, c, false) == |Words(s, c)|
    ensures Beginnings(s, c, true) == |Words(s[WordLength(s, c)..], c)|
    decreases |s|
  {
    if s != [] {
      BeginningsAreWords(s[1..], c);
      var n := WordLength(s, c);
      if n > 0 {
        assert s[n..] == s[1..][n - 1..];
      } else {
        assert s[0..] == s;
      }
    }
  }

  /** countwords: a word begins where state turns from 0 to 1. */
  method CountWords(s: seq<char>, c: char) returns (counter: nat)
    ensures counter == |Words(s, c)|
  {
    var state, i := 0, 0;
    counter := 0;
    assert s[0..] == s;
    BeginningsAreWords(s, c);
    while i < |s|
      invariant 0 <= i <= |s| && (state == 0 || state == 1)
      invariant |Words(s, c)| == counter + Beginnings(s[i..], c, state == 1)
    {
      assert s[i..][1..] == s[i + 1..];
      if s[i] == c {
        state := 0;
      } else if state == 0 {
        state := 1;
        counter := counter + 1;
      }
      i := i + 1;
    }
  }

  /** The inner loops of split: past the separators, then to the end of the word. */
  method NextWord(s: seq<char>, c: char, from: nat) returns (start: nat, len: nat)
    requires from <= |s| && Words(s[from..], c) != []
    ensures start <= len <= |s| && Words(s[from..], c) == [s[start..len]] + Words(s[len..], c)
  {
    hide Words, WordLength;
    start := from;
    SkipSeparator(s, c, start);
    while s[start] == c
      invariant from <= start < |s| && Words(s[from..], c) == Words(s[start..], c) != []
      decreases |s| - start
    {
      SkipSeparator(s, c, start);
      start := start + 1;
      SkipSeparator(s, c, start);
    }
    FirstWord(s, c, start);
    ghost var n: nat := WordLength(s[start..], c);
    len := start;
    while len < |s| && s[len] != c
      invariant start <= len <= start + n <= |s|
    {
      len := len + 1;
    }
  }

  lemma SkipSeparator(s: seq<char>, c: char, k: nat)
    requires k <= |s| && Words(s[k..], c) != []
    ensures k < |s| && (s[k] == c ==> Words(s[k..], c) == Words(s[k + 1..], c))
  {
    assert k < |s| ==> s[k..][1..] == s[k + 1..];
  }

  lemma FirstWord(s: seq<char>, c: char, k: nat)
    requires k < |s| && s[k] != c
    ensures var e := k + WordLength(s[k..], c);
      && e <= |s| && (forall m :: k <= m < e ==> s[m] != c) && (e < |s| ==> s[e] == c)
      && Words(s[k..], c) == [s[k..e]] + Words(s[e..], c)
  {
    var n := WordLength(s[k..], c);
    assert forall m :: k <= m < k + n ==> s[m] == s[k..][m - k];
    assert k + n < |s| ==> s[k + n] == s[k..][n];
    assert s[k..][n..] == s[k + n..] && s[k..][..n] == s[k..k + n];
  }

  /** split, with memory for every copy. */
  method Split(s: seq<char>, c: char) returns (str: array<seq<char>>)
    ensures fresh(str) && str[..] == Words(s, c) && AreItsWords(s, c, str[..])
  {
    hide Words, AreItsWords;
    var wordCount := CountWords(s, c);
    str := new seq<char>[wordCount];
    var len, i := 0, 0;
    assert s[0..] == s;
    while i < wordCount
      invariant 0 <= i <= wordCount && len <= |s|
      invariant Words(s, c) == str[..i] + Words(s[len..], c)
    {
      var start, end := NextWord(s, c, len);
      len := end;
      str[i] := s[start..len];
      assert str[..i + 1] == str[..i] + [s[start..len]];
      i := i + 1;
    }
    assert str[..wordCount] == str[..];
    WordsAreMaximalRuns(s, c);
  }

  // ----- the walk -----

  /** The tree as lookups see it: names in directories, and the inodes the caller may search. */
  datatype Tree = Tree(child: map<(Key, seq<char>), nat>, dirs: set<Key>, searchable: set<Key>)

  /** Faults: a name is looked up in an inode that is no directory, whose lookup pointer is NULL. */
  datatype Found = Reaches(key: Key) | Nowhere | Faults

  function Walk(t: Tree, k: Key, words: seq<seq<char>>): (r: Found)
    decreases |words|
  {
    if words == [] then Reaches(k)
    else if k !in t.dirs then Faults
    else if (k, words[0]) !in t.child then Nowhere
    else
      var next := Key(k.sb, t.child[(k, words[0])]);
      if next in t.dirs && |words| > 1 && next !in t.searchable then Nowhere
      else Walk(t, next, words[1..])
  }

  function SkipSlashes(path: seq<char>): (r: seq<char>)
    ensures r == [] || r[0] != '/'
    ensures Words(r, '/') == Words(path, '/')
  {
    if path != [] && path[0] == '/' then SkipSlashes(path[1..]) else path
  }

  /** What a path names, from the root for a leading slash, from the working directory otherwise. */
  function Resolve(t: Tree, root: Key, pwd: Key, path: seq<char>): (r: Found) {
    if path == [] then Nowhere
    else
      var base := if path[0] == '/' then root else pwd;
      if SkipSlashes(path) == [] then Reaches(base)
      else if base !in t.searchable then Nowhere
      else Walk(t, base, Words(path, '/'))
  }

  // ----- what a path means -----

  /** The places lie on the way: each is a directory that may be searched and has the next word's entry, which the
      next place is. */
  predicate Way(t: Tree, places: seq<Key>, words: seq<seq<char>>) {
    && |places| == |words| + 1
    && forall n :: 0 <= n < |words| ==>
         && places[n] in t.dirs && places[n] in t.searchable && (places[n], words[n]) in t.child
         && places[n + 1] == Key(places[n].sb, t.child[(places[n], words[n])])
  }

  lemma {:induction false} WalkIsWay(t: Tree, k: Key, words: seq<seq<char>>, places: seq<Key>)
    requires Way(t, places, words) && places[0] == k
    ensures Walk(t, k, words) == Reaches(places[|words|])
    decreases |words|
  {
    if words != [] {
      var rest := places[1..];
      assert forall n :: 0 <= n < |words| - 1 ==> rest[n] == places[n + 1] && words[1..][n] == words[n + 1];
      assert |words| > 1 ==> places[1] in t.searchable;
      WalkIsWay(t, places[1], words[1..], rest);
    }
  }

  lemma {:induction false} WayOfWalk(t: Tree, k: Key, words: seq<seq<char>>) returns (places: seq<Key>)
    requires Walk(t, k, words).Reaches? && (words == [] || k in t.searchable)
    ensures Way(t, places, words) && places[0] == k && places[|words|] == Walk(t, k, words).key
    decreases |words|
  {
    if words == [] {
      places := [k];
    } else {
      var next := Key(k.sb, t.child[(k, words[0])]);
      assert |words| > 1 ==> next in t.dirs;
      var rest := WayOfWalk(t, next, words[1..]);
      places := [k] + rest;
      assert forall n :: 1 <= n < |words| ==> places[n] == rest[n - 1] && words[n] == words[1..][n - 1];
    }
  }

  /** From place start the words lead to k. */
  ghost predicate LeadsTo(t: Tree, start: Key, words: seq<seq<char>>, k: Key) {
    exists places :: Way(t, places, words) && places[0] == start && places[|words|] == k
  }

  lemma WalkReachesExactly(t: Tree, start: Key, words: seq<seq<char>>, k: Key)
    requires words == [] || start in t.searchable
    ensures Walk(t, start, words) == Reaches(k) <==> LeadsTo(t, start, words, k)
  {
    if LeadsTo(t, start, words, k) {
      var places :| Way(t, places, words) && places[0] == start && places[|words|] == k;
      WalkIsWay(t, start, words, places);
    }
    if Walk(t, start, words) == Reaches(k) {
      var places := WayOfWalk(t, start, words);
    }
  }

  lemma {:induction false} SlashesOnly(path: seq<char>)
    ensures SkipSlashes(path) == [] <==> Words(path, '/') == []
  {
    var r := SkipSlashes(path);
    if r != [] {
      assert Words(r, '/') == [r[..WordLength(r, '/')]] + Words(r[WordLength(r, '/')..], '/');
    }
  }

  /** With two free slots: an absolute path reaches k exactly when its words lead there from the root, any other
      exactly when they do from the working directory, the empty one nothing. */
  lemma ResolveReachesExactly(c: Cache, t: Tree, root: Key, pwd: Key, path: seq<char>, k: Key)
    requires TwoFree(c)
    ensures ResolveIn(c, t, root, pwd, path) == Reaches(k)
      <==> path != [] && LeadsTo(t, if path[0] == '/' then root else pwd, Words(path, '/'), k)
  {
    hide Walk, WalkIn, Words, SkipSlashes;
    TwoSlotsSuffice(c, t, root, pwd, path);
    SlashesOnly(path);
    if path != [] {
      var base, words := if path[0] == '/' then root else pwd, Words(path, '/');
      if words == [] {
        NoWords(t, base, k);
      } else if base in t.searchable {
        WalkReachesExactly(t, base, words, k);
      } else {
        NotSearched(t, base, words, k);
      }
    }
  }

  lemma NoWords(t: Tree, start: Key, k: Key)
    ensures LeadsTo(t, start, [], k) <==> k == start
  {
    assert Way(t, [start], []);
  }

  lemma NotSearched(t: Tree, start: Key, words: seq<seq<char>>, k: Key)
    requires words != [] && start !in t.searchable
    ensures !LeadsTo(t, start, words, k)
  {
  }

  /** Some words lead to what is no directory, and more follow. */
  ghost predicate Faulty(t: Tree, start: Key, words: seq<seq<char>>) {
    exists n, k :: 0 <= n < |words| && LeadsTo(t, start, words[..n], k) && k !in t.dirs
  }

  /** A name is looked up in something that is no directory: exactly then the lookup pointer is NULL. */
  lemma {:induction false} WalkFaultsExactly(t: Tree, start: Key, words: seq<seq<char>>)
    requires words == [] || start in t.searchable
    ensures Walk(t, start, words) == Faults <==> Faulty(t, start, words)
    decreases |words|
  {
    hide LeadsTo;
    if words != [] {
      NoWords(t, start, start);
      assert words[..0] == [];
      if start in t.dirs && (start, words[0]) in t.child {
        var next, rest := Key(start.sb, t.child[(start, words[0])]), words[1..];
        FaultyNext(t, start, next, words);
        if next in t.dirs && next !in t.searchable {
          NotFaulty(t, next, rest);
        } else if next in t.dirs || rest == [] {
          WalkFaultsExactly(t, next, rest);
        } else {
          NoWords(t, next, next);
          assert rest[..0] == [];
        }
      } else if start in t.dirs {
        NoEntry(t, start, words);
      }
    }
  }

  lemma FaultyNext(t: Tree, start: Key, next: Key, words: seq<seq<char>>)
    requires words != [] && start in t.dirs && start in t.searchable && (start, words[0]) in t.child
    requires next == Key(start.sb, t.child[(start, words[0])])
    ensures Faulty(t, start, words) <==> Faulty(t, next, words[1..])
  {
    hide LeadsTo;
    var rest := words[1..];
    if Faulty(t, next, rest) {
      var n, k :| 0 <= n < |rest| && LeadsTo(t, next, rest[..n], k) && k !in t.dirs;
      assert words[..n + 1][1..] == rest[..n];
      OneWordFirst(t, start, next, words[..n + 1], k);
    }
    if Faulty(t, start, words) {
      var n, k :| 0 <= n < |words| && LeadsTo(t, start, words[..n], k) && k !in t.dirs;
      NoWords(t, start, k);
      assert words[..0] == [] && n > 0;
      assert words[..n][1..] == rest[..n - 1];
      OneWordFirst(t, start, next, words[..n], k);
    }
  }

  /** Nothing is looked up in a directory that may not be searched. */
  lemma NotFaulty(t: Tree, start: Key, words: seq<seq<char>>)
    requires start in t.dirs && start !in t.searchable
    ensures !Faulty(t, start, words)
  {
    hide LeadsTo;
    forall n, k | 0 <= n < |words| && LeadsTo(t, start, words[..n], k)
      ensures k in t.dirs
    {
      if n > 0 {
        NotSearched(t, start, words[..n], k);
      } else {
        NoWords(t, start, k);
        assert words[..0] == [];
      }
    }
  }

  lemma NoEntry(t: Tree, start: Key, words: seq<seq<char>>)
    requires words != [] && start in t.dirs && (start, words[0]) !in t.child
    ensures !Faulty(t, start, words)
  {
    forall n, k | 0 <= n < |words| && LeadsTo(t, start, words[..n], k)
      ensures k in t.dirs
    {
      if n == 0 {
        NoWords(t, start, k);
        assert words[..0] == [];
      }
    }
  }

  lemma OneWordFirst(t: Tree, start: Key, next: Key, words: seq<seq<char>>, k: Key)
    requires words != [] && start in t.dirs && start in t.searchable && (start, words[0]) in t.child
    requires next == Key(start.sb, t.child[(start, words[0])])
    ensures LeadsTo(t, next, words[1..], k) <==> LeadsTo(t, start, words, k)
  {
    if LeadsTo(t, next, words[1..], k) {
      var rest :| Way(t, rest, words[1..]) && rest[0] == next && rest[|words| - 1] == k;
      hide Way;
      LongerWay(t, start, words, rest);
      assert ([start] + rest)[|words|] == k;
    }
    if LeadsTo(t, start, words, k) {
      var places :| Way(t, places, words) && places[0] == start && places[|words|] == k;
      hide Way;
      ShorterWay(t, places, words);
      assert places[1..][|words| - 1] == k;
    }
  }

  lemma LongerWay(t: Tree, start: Key, words: seq<seq<char>>, rest: seq<Key>)
    requires words != [] && start in t.dirs && start in t.searchable && (start, words[0]) in t.child
    requires Way(t, rest, words[1..]) && rest[0] == Key(start.sb, t.child[(start, words[0])])
    ensures Way(t, [start] + rest, words) && |rest| == |words|
  {
    var places := [start] + rest;
    assert forall n :: 1 <= n < |words| ==> places[n] == rest[n - 1] && words[n] == words[1..][n - 1];
  }

  lemma ShorterWay(t: Tree, places: seq<Key>, words: seq<seq<char>>)
    requires words != [] && Way(t, places, words)
    ensures Way(t, places[1..], words[1..]) && |places| == |words| + 1
    ensures places[1] == Key(places[0].sb, t.child[(places[0], words[0])])
  {
    var rest := places[1..];
    assert forall n :: 0 <= n < |words| - 1 ==> rest[n] == places[n + 1] && words[1..][n] == words[n + 1];
  }

  /** With two free slots a lookup faults exactly when, with the start searched, some words of the path lead to what
      is no directory and more follow. */
  lemma ResolveFaultsExactly(c: Cache, t: Tree, root: Key, pwd: Key, path: seq<char>)
    requires TwoFree(c)
    ensures ResolveIn(c, t, root, pwd, path) == Faults
      <==> path != [] &&
           var base := if path[0] == '/' then root else pwd;
           base in t.searchable && Faulty(t, base, Words(path, '/'))
  {
    hide Walk, WalkIn, Words, SkipSlashes;
    TwoSlotsSuffice(c, t, root, pwd, path);
    SlashesOnly(path);
    if path != [] {
      var base, words := if path[0] == '/' then root else pwd, Words(path, '/');
      if base in t.searchable {
        WalkFaultsExactly(t, base, words);
      }
    }
  }

  /** Whatever the cache: the working directory does not matter to an absolute path, nor the root to another. */
  lemma OneBaseMatters(c: Cache, t: Tree, base: Key, other: Key, another: Key, path: seq<char>)
    requires path != []
    ensures path[0] == '/' ==> ResolveIn(c, t, base, other, path) == ResolveIn(c, t, base, another, path)
    ensures path[0] != '/' ==> ResolveIn(c, t, other, base, path) == ResolveIn(c, t, another, base, path)
  {
  }

  /** One name in the root and one in the working directory, each found by its own kind of path only. */
  lemma RootAndWorkingDirectory(c: Cache)
    requires TwoFree(c)
    ensures
      var root, pwd := Key(1, 2), Key(1, 5);
      var t := Tree(map[(root, "f") := 3, (pwd, "g") := 4], {root, pwd}, {root, pwd});
      && ResolveIn(c, t, root, pwd, "/f") == Reaches(Key(1, 3)) && ResolveIn(c, t, root, pwd, "f") == Nowhere
      && ResolveIn(c, t, root, pwd, "g") == Reaches(Key(1, 4)) && ResolveIn(c, t, root, pwd, "/g") == Nowhere
  {
    var root, pwd := Key(1, 2), Key(1, 5);
    var t := Tree(map[(root, "f") := 3, (pwd, "g") := 4], {root, pwd}, {root, pwd});
    OneLetter('f');
    OneLetter('g');
    assert "f" == ['f'] && "g" == ['g'] && "/f" == ['/', 'f'] && "/g" == ['/', 'g'];
    assert ["f"][1..] == [] && ["g"][1..] == [];
    hide Words, SkipSlashes;
    assert Walk(t, root, ["f"]) == Reaches(Key(1, 3)) && Walk(t, pwd, ["f"]) == Nowhere;
    assert Walk(t, pwd, ["g"]) == Reaches(Key(1, 4)) && Walk(t, root, ["g"]) == Nowhere;
    TwoSlotsSuffice(c, t, root, pwd, "/f");
    TwoSlotsSuffice(c, t, root, pwd, "f");
    TwoSlotsSuffice(c, t, root, pwd, "g");
    TwoSlotsSuffice(c, t, root, pwd, "/g");
  }

  lemma OneLetter(a: char)
    requires a != '/'
    ensures Words([a], '/') == [[a]] && Words(['/', a], '/') == [[a]]
    ensures SkipSlashes([a]) == [a] && SkipSlashes(['/', a]) == [a]
  {
    assert ['/', a][1..] == [a] && [a][1..] == [] && [a][..1] == [a];
    assert WordLength([a], '/') == 1;
  }

  /** Inode 3 is a file: looking for a name in it calls the NULL pointer, whatever the cache. */
  lemma FaultExample(c: Cache)
    requires TwoFree(c)
    ensures
      var root := Key(1, 2);
      var t := Tree(map[(root, "f") := 3], {root}, {root});
      Resolve(t, root, root, "/f/x") == ResolveIn(c, t, root, root, "/f/x") == Faults
  {
    var root := Key(1, 2);
    var t := Tree(map[(root, "f") := 3], {root}, {root});
    assert "/f/x"[1..] == "f/x" && "f/x"[1..] == "/x" && "/x"[1..] == "x" && "x"[1..] == "";
    assert WordLength("f/x", '/') == 1 && "f/x"[..1] == "f" && WordLength("x", '/') == 1 && "x"[..1] == "x";
    assert Words("/f/x", '/') == Words("f/x", '/') == ["f"] + Words("/x", '/');
    assert Words("/x", '/') == Words("x", '/') == ["x"] + Words("", '/');
    assert Words("/f/x", '/') == ["f", "x"] && ["f", "x"][1..] == ["x"];
    assert SkipSlashes("/f/x") == "f/x";
    TwoSlotsSuffice(c, t, root, root, "/f/x");
  }

  datatype Result = Slot(slot: nat) | Null | Fault

  predicate OneFree(c: Cache) {
    exists i :: 0 <= i < |c| && c[i].count == 0
  }

  predicate TwoFree(c: Cache) {
    exists i, j :: 0 <= i < j < |c| && c[i].count == 0 && c[j].count == 0
  }

  /** Besides what c holds there is room for k and, while k is held, for next. */
  predicate CanGet(c: Cache, k: Key, next: Key) {
    next == k || Cached(c, next) || if Cached(c, k) then OneFree(c) else TwoFree(c)
  }

  /** The walk as far as the inode cache lets it go: from one place to the next, one reference held. */
  function WalkIn(c: Cache, t: Tree, k: Key, words: seq<seq<char>>): (r: Found)
    decreases |words|
  {
    if words == [] then Reaches(k)
    else if k !in t.dirs then Faults
    else if (k, words[0]) !in t.child then Nowhere
    else
      var next := Key(k.sb, t.child[(k, words[0])]);
      if !CanGet(c, k, next) then Nowhere
      else if next in t.dirs && |words| > 1 && next !in t.searchable then Nowhere
      else WalkIn(c, t, next, words[1..])
  }

  /** What a path leads to from the root or the working directory, which are both in the cache. */
  function ResolveIn(c: Cache, t: Tree, root: Key, pwd: Key, path: seq<char>): (r: Found) {
    if path == [] then Nowhere
    else
      var base := if path[0] == '/' then root else pwd;
      if SkipSlashes(path) == [] then Reaches(base)
      else if base !in t.searchable then Nowhere
      else WalkIn(c, t, base, Words(path, '/'))
  }

  /** The places a walk comes through. */
  function Places(t: Tree, k: Key, words: seq<seq<char>>): (r: seq<Key>)
    ensures r != [] && r[0] == k
    decreases |words|
  {
    if words == [] || k !in t.dirs || (k, words[0]) !in t.child then [k]
    else [k] + Places(t, Key(k.sb, t.child[(k, words[0])]), words[1..])
  }

  /** Each place can be got while the one before is held. */
  predicate AllFit(c: Cache, p: seq<Key>) {
    forall i :: 0 <= i < |p| - 1 ==> CanGet(c, p[i], p[i + 1])
  }

  lemma FirstFits(c: Cache, k: Key, rest: seq<Key>)
    requires rest != []
    ensures AllFit(c, [k] + rest) <==> CanGet(c, k, rest[0]) && AllFit(c, rest)
  {
    hide CanGet;
    var p := [k] + rest;
    assert forall i :: 0 <= i < |rest| ==> p[i + 1] == rest[i];
    if CanGet(c, k, rest[0]) && AllFit(c, rest) {
      forall i | 0 <= i < |p| - 1
        ensures CanGet(c, p[i], p[i + 1])
      {
        assert i > 0 ==> p[i] == rest[i - 1] && p[i + 1] == rest[i - 1 + 1];
      }
    }
    if AllFit(c, p) {
      assert CanGet(c, p[0], p[1]);
      forall i | 0 <= i < |rest| - 1
        ensures CanGet(c, rest[i], rest[i + 1])
      {
        assert CanGet(c, p[i + 1], p[i + 1 + 1]);
      }
    }
  }

  /** A walk that leads somewhere is cut short by the cache exactly when, at some step, the next place is neither
      cached nor finds a free slot. */
  lemma {:induction false} WalkInExactly(c: Cache, t: Tree, k: Key, words: seq<seq<char>>)
    ensures Walk(t, k, words).Nowhere? ==> WalkIn(c, t, k, words).Nowhere?
    ensures !Walk(t, k, words).Nowhere? ==>
      WalkIn(c, t, k, words) == if AllFit(c, Places(t, k, words)) then Walk(t, k, words) else Nowhere
    decreases |words|
  {
    hide CanGet, AllFit;
    assert AllFit(c, [k]) by { OneFits(c, k); }
    if words != [] && k in t.dirs && (k, words[0]) in t.child {
      var next := Key(k.sb, t.child[(k, words[0])]);
      WalkInExactly(c, t, next, words[1..]);
      FirstFits(c, k, Places(t, next, words[1..]));
    }
  }

  lemma OneFits(c: Cache, k: Key)
    ensures AllFit(c, [k])
  {
  }

  /** With two free slots the cache never cuts a lookup short. */
  lemma TwoSlotsSuffice(c: Cache, t: Tree, root: Key, pwd: Key, path: seq<char>)
    requires TwoFree(c)
    ensures ResolveIn(c, t, root, pwd, path) == Resolve(t, root, pwd, path)
  {
    forall k, next
      ensures CanGet(c, k, next)
    {
    }
    if path != [] {
      WalkInExactly(c, t, if path[0] == '/' then root else pwd, Words(path, '/'));
    }
  }

  /** With two free slots, one is left whatever single reference is added. */
  lemma StillFree(c: Cache, c': Cache, s: nat, k: Key)
    requires TwoFree(c) && Gained(c, c', s, k)
    ensures exists i :: 0 <= i < |c'| && c'[i].count == 0
  {
    var i, j :| 0 <= i < j < |c| && c[i].count == 0 && c[j].count == 0;
    assert c'[if i == s then j else i].count == 0;
  }

  lemma AlreadyCached(c: Cache, s: nat)
    requires s < |c|
    ensures Cached(c, c[s].key)
  {
  }

  lemma WalkStep(c: Cache, t: Tree, k: Key, words: seq<seq<char>>, i: nat)
    requires i < |words|
    ensures WalkIn(c, t, k, words[i..]) ==
      if k !in t.dirs then Faults
      else if (k, words[i]) !in t.child then Nowhere
      else
        var next := Key(k.sb, t.child[(k, words[i])]);
        if !CanGet(c, k, next) then Nowhere
        else if next in t.dirs && i + 1 < |words| && next !in t.searchable then Nowhere
        else WalkIn(c, t, next, words[i + 1..])
  {
    assert words[i..][1..] == words[i + 1..];
  }

  /** vfs_lookup gains exactly one reference when it finds, to what the path names, and none when it does not:
      every slot is then as it was. Which of them is decided by the path, the tree and the cache. */
  method Lookup(table: Table, t: Tree, root: nat, pwd: nat, path: seq<char>) returns (r: Result)
    requires Clean(table.slots) && root < MAX_INODES && pwd < MAX_INODES && table.rootNode < MAX_INODES
    requires table.slots[root].count != 0 && table.slots[pwd].count != 0 && table.slots[table.rootNode].count != 0
    modifies table
    ensures Clean(table.slots)
    ensures
      var what := ResolveIn(old(table.slots), t, old(table.slots)[root].key, old(table.slots)[pwd].key, path);
      && (r.Slot? ==> what.Reaches? && Gained(old(table.slots), table.slots, r.slot, what.key))
      && (r.Null? ==> what.Nowhere? && table.slots == old(table.slots))
      && (r.Fault? ==> what.Faults?)
  {
    if path == [] {
      return Null;
    }
    ghost var before: Cache := table.slots;
    var base := if path[0] == '/' then root else pwd;
    var searchPath := path;
    assert path[0] != '/' ==> SkipSlashes(path) == path;
    while searchPath != [] && searchPath[0] == '/'
      invariant SkipSlashes(searchPath) == SkipSlashes(path)
      invariant path[0] != '/' ==> searchPath == path
    {
      searchPath := searchPath[1..];
    }
    var key := table.slots[base].key;
    AlreadyCached(table.slots, base);
    if searchPath == [] {
      var s := table.InodeGet(key);
      GainedClean(before, table.slots, s.value, key);
      return Slot(s.value);
    }
    if key !in t.searchable {
      return Null;
    }
    var components := Split(searchPath, '/');
    ghost var words: seq<seq<char>> := Words(path, '/');
    var got := table.InodeGet(key);
    r := WalkDown(table, t, components, got.value, before, key);
  }

  /** The loop of vfs_lookup, holding one reference to the slot it has come to. */
  method WalkDown(table: Table, t: Tree, components: array<seq<char>>, from: nat, ghost before: Cache,
                  ghost start: Key) returns (r: Result)
    requires Clean(before) && Gained(before, table.slots, from, start) && table.rootNode < MAX_INODES
    requires before[table.rootNode].count != 0
    modifies table
    ensures Clean(table.slots)
    ensures
      var what := WalkIn(before, t, start, components[..]);
      && (r.Slot? ==> what.Reaches? && Gained(before, table.slots, r.slot, what.key))
      && (r.Null? ==> what.Nowhere? && table.slots == before)
      && (r.Fault? ==> what.Faults?)
  {
    hide Clean, Gained, Cached, Dropped, CanGet, WalkIn;
    var words := components[..];
    var current, i := from, 0;
    ghost var key: Key := start;
    assert words[0..] == words;
    GainedClean(before, table.slots, current, key);
    while i < components.Length
      invariant 0 <= i <= |words| && components[..] == words && |words| == components.Length
      invariant Gained(before, table.slots, current, key) && Clean(table.slots)
      invariant WalkIn(before, t, key, words[i..]) == WalkIn(before, t, start, words)
    {
      ghost var c1: Cache := table.slots;
      GainedFacts(before, c1, current, key);
      WalkStep(before, t, key, words, i);
      if table.slots[current].key !in t.dirs {
        return Fault;
      }
      if (table.slots[current].key, components[i]) !in t.child {
        var _ := table.InodePut(current);
        return Null;
      }
      ghost var next: Key := Key(key.sb, t.child[(key, words[i])]);
      var found := table.InodeGet(Key(table.slots[current].key.sb, t.child[(table.slots[current].key, components[i])]));
      if found.None? {
        CannotGet(before, c1, current, key, next);
        var _ := table.InodePut(current);
        return Null;
      }
      CouldGet(before, c1, table.slots, current, key, found.value, next);
      PutAfterGet(before, c1, table.slots, current, key, found.value, next, table.rootNode);
      var ok := table.InodePut(current);
      assert ok;
      current := found.value;
      key := next;
      GainedFacts(before, table.slots, current, key);
      if table.slots[current].key in t.dirs && i + 1 < components.Length {
        if table.slots[current].key !in t.searchable {
          var _ := table.InodePut(current);
          return Null;
        }
      }
      i := i + 1;
    }
    assert words[i..] == [];
    WalkEnds(before, t, key);
    r := Slot(current);
  }

  lemma WalkEnds(c: Cache, t: Tree, k: Key)
    ensures WalkIn(c, t, k, []) == Reaches(k)
  {
  }

  lemma GainedFacts(c: Cache, c': Cache, s: nat, k: Key)
    requires Clean(c) && Gained(c, c', s, k)
    ensures |c| == MAX_INODES == |c'| && Clean(c') && s < MAX_INODES && k.sb != 0 && c'[s].key == k
    ensures c'[s].count != 0 && Dropped(c', s) == c
  {
    GainedClean(c, c', s, k);
    DropUndoesGain(c, c', s, k);
  }

  lemma CannotGet(c: Cache, c': Cache, s: nat, k: Key, next: Key)
    requires Clean(c) && Gained(c, c', s, k) && next.sb != 0 && !Cached(c', next)
    requires forall i :: 0 <= i < |c'| ==> c'[i].count != 0
    ensures !CanGet(c, k, next)
  {
    if TwoFree(c) {
      StillFree(c, c', s, k);
    }
    assert c'[s].key == k;
    forall i | 0 <= i < |c| && i != s
      ensures c[i].count != 0 && c[i].key != next
    {
      assert c'[i] == c[i];
    }
  }

  lemma CouldGet(c: Cache, c1: Cache, c2: Cache, s1: nat, k: Key, s2: nat, next: Key)
    requires Clean(c) && Gained(c, c1, s1, k) && Gained(c1, c2, s2, next)
    ensures CanGet(c, k, next)
  {
    if s1 != s2 && c[s2].count == 0 {
      assert OneFree(c);
      if !Cached(c, k) {
        assert c[s1].count == 0;
        var i, j := if s1 < s2 then s1 else s2, if s1 < s2 then s2 else s1;
        assert i < j && c[i].count == 0 && c[j].count == 0;
      }
    } else if s1 != s2 {
      assert c[s2].key == next;
    }
  }

  /** Putting the old place after getting the new one: the abort cannot fire. */
  lemma PutAfterGet(c: Cache, c1: Cache, c2: Cache, s1: nat, k1: Key, s2: nat, k2: Key, rootNode: nat)
    requires Clean(c) && Gained(c, c1, s1, k1) && Gained(c1, c2, s2, k2) && rootNode < |c| && c[rootNode].count != 0
    ensures |c2| == MAX_INODES && Clean(c2) && s1 < MAX_INODES && c2[s1].count != 0
    ensures Gained(c, Dropped(c2, s1), s2, k2)
    ensures Clean(Dropped(c2, s1)) && !(c2[s1].count == 1 && s1 == rootNode)
  {
    GainedClean(c, c1, s1, k1);
    GainedClean(c1, c2, s2, k2);
    DropFirst(c, c1, c2, s1, k1, s2, k2);
    DroppedClean(c2, s1);
  }
}
