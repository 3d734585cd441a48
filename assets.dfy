/**
 * Resolving and concatenating the asset files: `getFiles`, `concatenateFiles` and
 * `getDayContent` (build/build.js:85-162).
 */
module Assets {
  import opened JsText
  import opened Sorting
  import opened StringOrder
  import opened FileCache

  // ---------------------------------------------------------------------------
  // Sequences used as insertion-ordered sets (the JavaScript `Set`)
  // ---------------------------------------------------------------------------

  predicate NoDup(s: seq<string>)
  {
    forall i, j :: 0 <= i < j < |s| ==> s[i] != s[j]
  }

  /** `new Set(s)` read back in iteration order: first occurrences, in order. */
  function Dedup(s: seq<string>): (r: seq<string>)
    ensures NoDup(r)
    ensures forall x :: x in r <==> x in s
  {
    if s == [] then []
    else
      var d := Dedup(s[..|s| - 1]);
      var x := s[|s| - 1];
      assert forall y :: y in s <==> y in s[..|s| - 1] || y == x;
      if x in d then d else d + [x]
  }

  /** `set.delete(x)`. */
  function Remove(s: seq<string>, x: string): (r: seq<string>)
    ensures forall y :: y in r <==> y in s && y != x
    ensures NoDup(s) ==> NoDup(r)
  {
    if s == [] then []
    else
      var rest := Remove(s[1..], x);
      assert forall y :: y in s <==> y == s[0] || y in s[1..];
      assert NoDup(s) ==> NoDup(s[1..]) && s[0] !in s[1..];
      if s[0] == x then rest
      else
        assert NoDup(s) ==> NoDup([s[0]] + rest) by {
          if NoDup(s) { NoDupCons(s[0], rest); }
        }
        [s[0]] + rest
  }

  lemma NoDupCons(x: string, s: seq<string>)
    requires NoDup(s) && x !in s
    ensures NoDup([x] + s)
  {
    forall i, j | 0 <= i < j < |[x] + s| ensures ([x] + s)[i] != ([x] + s)[j] {
      assert ([x] + s)[j] == s[j - 1];
      if i > 0 { assert ([x] + s)[i] == s[i - 1]; }
    }
  }

  /** A duplicate-free sequence holds each element once in its multiset. */
  lemma {:induction false} NoDupMultiset(s: seq<string>)
    requires NoDup(s)
    ensures forall x :: multiset(s)[x] <= 1
  {
    if s != [] {
      NoDupMultiset(s[1..]);
      assert s == [s[0]] + s[1..];
      assert s[0] !in s[1..];
    }
  }

  /** A sequence with the same multiset as a duplicate-free one is duplicate free. */
  lemma NoDupPermutation(a: seq<string>, b: seq<string>)
    requires NoDup(a) && multiset(a) == multiset(b)
    ensures NoDup(b)
  {
    NoDupMultiset(a);
    forall i, j | 0 <= i < j < |b| ensures b[i] != b[j] {
      var bi, bj := b[i], b[j];
      assert b == b[..i] + [bi] + b[i + 1..j] + [bj] + b[j + 1..];
      assert multiset(b)[bi] >= 1 + multiset([bj])[bi];
    }
  }

  // ---------------------------------------------------------------------------
  // getFiles
  // ---------------------------------------------------------------------------

  /** The pattern `/\.css$/`. */
  predicate IsCssName(name: string)
  {
    EndsWith(name, ".css")
  }

  /** The pattern `/\.js$/`. */
  predicate IsJsName(name: string)
  {
    EndsWith(name, ".js")
  }

  /** The pattern `/^day\d+\.html$/`. */
  predicate IsDayFileName(name: string)
  {
    && |name| > 8
    && name[..3] == "day"
    && name[|name| - 5..] == ".html"
    && forall i :: 3 <= i < |name| - 5 ==> IsDigit(name[i])
  }

  /** The names of `names` that match, each joined with `dir`, in listing order. */
  function MatchingPaths(dir: string, names: seq<string>, pattern: string -> bool): (r: seq<string>)
    ensures |r| <= |names|
    ensures forall p :: p in r <==> exists n :: n in names && pattern(n) && p == PathJoin(dir, n)
  {
    if names == [] then []
    else
      var r := (if pattern(names[0]) then [PathJoin(dir, names[0])] else []) + MatchingPaths(dir, names[1..], pattern);
      assert forall n :: n in names <==> n == names[0] || n in names[1..];
      r
  }

  /** `getFiles(dir, pattern)`: nothing for a directory that is missing or cannot be
      listed; otherwise the matching entry names, each joined with the directory. */
  function GetFiles(disk: Disk, dir: string, pattern: string -> bool): (r: seq<string>)
    ensures dir !in disk.listings ==> r == []
    ensures dir in disk.listings ==>
              forall p :: p in r <==> exists n :: n in disk.listings[dir] && pattern(n) && p == PathJoin(dir, n)
  {
    if dir !in disk.listings then [] else MatchingPaths(dir, disk.listings[dir], pattern)
  }

  /** The filter keeps listing order: a split listing gives the matches of the first
      part, then those of the second; one name gives its path exactly when it matches. */
  lemma {:induction false} MatchingPathsAppend(dir: string, a: seq<string>, b: seq<string>, n: string,
                                               pattern: string -> bool)
    ensures MatchingPaths(dir, a + b, pattern) == MatchingPaths(dir, a, pattern) + MatchingPaths(dir, b, pattern)
    ensures MatchingPaths(dir, [n], pattern) == if pattern(n) then [PathJoin(dir, n)] else []
    decreases |a|
  {
    if a != [] {
      assert (a + b)[0] == a[0] && (a + b)[1..] == a[1..] + b;
      MatchingPathsAppend(dir, a[1..], b, n, pattern);
    } else {
      assert a + b == b;
    }
  }

  /** `getFiles` keeps the directory's listing order. */
  lemma GetFilesSplit(disk: Disk, dir: string, pattern: string -> bool, a: seq<string>, b: seq<string>)
    requires dir in disk.listings && disk.listings[dir] == a + b
    ensures GetFiles(disk, dir, pattern) == MatchingPaths(dir, a, pattern) + MatchingPaths(dir, b, pattern)
  {
    MatchingPathsAppend(dir, a, b, "", pattern);
  }

  // ---------------------------------------------------------------------------
  // The two-phase order of concatenateFiles
  // ---------------------------------------------------------------------------

  /** The index of the first order-list entry that names `p`; |order| if none does. */
  function FirstMention(dir: string, order: seq<string>, p: string): (r: nat)
    ensures r <= |order|
  {
    if order == [] then 0
    else if PathJoin(dir, order[0]) == p then 0
    else 1 + FirstMention(dir, order[1..], p)
  }

  /** The first mention is the least index of an entry naming `p`. */
  lemma {:induction false} FirstMentionIsFirst(dir: string, order: seq<string>, p: string)
    ensures var r := FirstMention(dir, order, p);
            && (r < |order| ==> PathJoin(dir, order[r]) == p)
            && (forall i :: 0 <= i < r ==> PathJoin(dir, order[i]) != p)
  {
    if order != [] && PathJoin(dir, order[0]) != p {
      FirstMentionIsFirst(dir, order[1..], p);
      var r := FirstMention(dir, order[1..], p);
      assert forall i :: 1 <= i < r + 1 ==> order[i] == order[1..][i - 1];
    }
  }

  /** Some order-list entry names `p`. */
  predicate Listed(dir: string, order: seq<string>, p: string)
  {
    FirstMention(dir, order, p) < |order|
  }

  /** The loop over `order` (build/build.js:116-122): the files taken in order-list
      sequence, and what is left of the set afterwards. */
  function Walk(avail: seq<string>, dir: string, order: seq<string>): (r: (seq<string>, seq<string>))
    requires NoDup(avail)
    ensures NoDup(r.0) && NoDup(r.1)
    ensures forall p :: p in r.0 <==> p in avail && Listed(dir, order, p)
    ensures forall p :: p in r.1 <==> p in avail && !Listed(dir, order, p)
    decreases |order|
  {
    if order == [] then ([], avail)
    else
      var p := PathJoin(dir, order[0]);
      if p in avail then
        var w := Walk(Remove(avail, p), dir, order[1..]);
        NoDupCons(p, w.0);
        ([p] + w.0, w.1)
      else
        Walk(avail, dir, order[1..])
  }

  /** The files listed in `order` are taken in order-list sequence: each one's first
      mention comes before the next one's. */
  lemma {:induction false} WalkFollowsOrderList(avail: seq<string>, dir: string, order: seq<string>)
    requires NoDup(avail)
    ensures IncreasingMentions(dir, order, Walk(avail, dir, order).0)
    decreases |order|
  {
    if order != [] {
      var p := PathJoin(dir, order[0]);
      if p in avail {
        var rest := Remove(avail, p);
        var t' := Walk(rest, dir, order[1..]).0;
        WalkFollowsOrderList(rest, dir, order[1..]);
        assert forall x :: x in t' ==> x in rest;
        ShiftMentions(dir, order, t');
      } else {
        var t' := Walk(avail, dir, order[1..]).0;
        WalkFollowsOrderList(avail, dir, order[1..]);
        assert forall x :: x in t' ==> x in avail;
        ShiftMentions(dir, order, t');
      }
    }
  }

  /** Each element's first mention comes before the next one's. */
  predicate IncreasingMentions(dir: string, order: seq<string>, t: seq<string>)
  {
    forall i, j :: 0 <= i < j < |t| ==> FirstMention(dir, order, t[i]) < FirstMention(dir, order, t[j])
  }

  lemma ShiftMentions(dir: string, order: seq<string>, t: seq<string>)
    requires order != []
    requires forall x :: x in t ==> x != PathJoin(dir, order[0])
    requires IncreasingMentions(dir, order[1..], t)
    ensures IncreasingMentions(dir, order, t)
    ensures IncreasingMentions(dir, order, [PathJoin(dir, order[0])] + t)
  {
    var p := PathJoin(dir, order[0]);
    forall i | 0 <= i < |t| ensures FirstMention(dir, order, t[i]) == 1 + FirstMention(dir, order[1..], t[i]) {
      assert t[i] in t;
    }
    var u := [p] + t;
    forall i, j | 0 <= i < j < |u| ensures FirstMention(dir, order, u[i]) < FirstMention(dir, order, u[j]) {
      assert u[j] == t[j - 1];
      if i > 0 { assert u[i] == t[i - 1]; }
    }
  }

  /** The full order of concatenateFiles (build/build.js:112-129): the listed files,
      then the rest sorted by the default string order. */
  function OrderedFiles(files: seq<string>, dir: string, order: seq<string>): (r: seq<string>)
    ensures forall p :: p in r <==> p in files
  {
    var w := Walk(Dedup(files), dir, order);
    var sorted := SortBy(w.1, StrLe);
    assert forall p :: p in sorted <==> p in w.1 by {
      forall p ensures p in sorted <==> p in w.1 {
        assert p in sorted <==> p in multiset(sorted);
        assert p in w.1 <==> p in multiset(w.1);
      }
    }
    w.0 + sorted
  }

  /** The number of files that come first because the order list names them. */
  function ListedCount(files: seq<string>, dir: string, order: seq<string>): nat
  {
    |Walk(Dedup(files), dir, order).0|
  }

  /** The ordering guarantees of concatenateFiles: every matching file appears exactly
      once; the files the order list names come first, in order-list sequence (absent
      names and repeats skipped); the other files follow in ascending path order. */
  lemma ConcatenationOrder(files: seq<string>, dir: string, order: seq<string>)
    ensures var r := OrderedFiles(files, dir, order);
            var k := ListedCount(files, dir, order);
            && k <= |r|
            && NoDup(r)
            && (forall p :: p in r <==> p in files)
            && (forall i :: 0 <= i < k ==> Listed(dir, order, r[i]))
            && (forall i :: k <= i < |r| ==> !Listed(dir, order, r[i]))
            && IncreasingMentions(dir, order, r[..k])
            && StrictlyAscending(r[k..])
  {
    OrderedFilesPermute(files, dir, order);
    OrderedFilesListedFirst(files, dir, order);
    OrderedFilesUnlistedAscending(files, dir, order);
  }

  lemma OrderedFilesPermute(files: seq<string>, dir: string, order: seq<string>)
    ensures var r := OrderedFiles(files, dir, order);
            NoDup(r) && forall p :: p in r <==> p in files
  {
    var w := Walk(Dedup(files), dir, order);
    var sorted := SortBy(w.1, StrLe);
    var r := w.0 + sorted;
    SortedRest(w.1);
    AppendNoDup(w.0, sorted);
    forall p ensures p in r <==> p in files {
      assert p in r <==> p in w.0 || p in sorted;
    }
  }

  lemma OrderedFilesListedFirst(files: seq<string>, dir: string, order: seq<string>)
    ensures var r := OrderedFiles(files, dir, order);
            var k := ListedCount(files, dir, order);
            && k <= |r|
            && (forall i :: 0 <= i < k ==> Listed(dir, order, r[i]))
            && (forall i :: k <= i < |r| ==> !Listed(dir, order, r[i]))
            && IncreasingMentions(dir, order, r[..k])
  {
    var avail := Dedup(files);
    var w := Walk(avail, dir, order);
    var sorted := SortBy(w.1, StrLe);
    var r := w.0 + sorted;
    var k := |w.0|;
    WalkFollowsOrderList(avail, dir, order);
    SameMembers(w.1, sorted);
    ListedThenUnlisted(dir, order, w.0, sorted);
  }

  /** Listed files followed by unlisted ones: the split point is the length of the first
      part. */
  lemma ListedThenUnlisted(dir: string, order: seq<string>, a: seq<string>, b: seq<string>)
    requires forall x :: x in a ==> Listed(dir, order, x)
    requires forall x :: x in b ==> !Listed(dir, order, x)
    ensures forall i :: 0 <= i < |a| ==> Listed(dir, order, (a + b)[i])
    ensures forall i :: |a| <= i < |a + b| ==> !Listed(dir, order, (a + b)[i])
    ensures (a + b)[..|a|] == a
  {
    var r := a + b;
    forall i | 0 <= i < |a| ensures Listed(dir, order, r[i]) {
      assert r[i] == a[i] && a[i] in a;
    }
    forall i | |a| <= i < |r| ensures !Listed(dir, order, r[i]) {
      assert r[i] == b[i - |a|] && b[i - |a|] in b;
    }
  }

  lemma OrderedFilesUnlistedAscending(files: seq<string>, dir: string, order: seq<string>)
    ensures var r := OrderedFiles(files, dir, order);
            ListedCount(files, dir, order) <= |r| && StrictlyAscending(r[ListedCount(files, dir, order)..])
  {
    var w := Walk(Dedup(files), dir, order);
    var r := w.0 + SortBy(w.1, StrLe);
    SortedRest(w.1);
    assert r[|w.0|..] == SortBy(w.1, StrLe);
  }

  /** Strictly ascending in the default string order. */
  predicate StrictlyAscending(s: seq<string>)
  {
    forall i, j :: 0 <= i < j < |s| ==> StrLe(s[i], s[j]) && s[i] != s[j]
  }

  /** The unlisted files, sorted: still duplicate free, the same files, strictly ascending. */
  lemma SortedRest(rest: seq<string>)
    requires NoDup(rest)
    ensures var sorted := SortBy(rest, StrLe);
            && NoDup(sorted)
            && (forall p :: p in sorted <==> p in rest)
            && StrictlyAscending(sorted)
  {
    var sorted := SortBy(rest, StrLe);
    StrLeIsTotalPreorder();
    SortBySorted(rest, StrLe);
    NoDupPermutation(rest, sorted);
    SameMembers(rest, sorted);
  }

  /** Sequences with the same multiset have the same members. */
  lemma SameMembers(a: seq<string>, b: seq<string>)
    requires multiset(a) == multiset(b)
    ensures forall p :: p in a <==> p in b
  {
    forall p ensures p in a <==> p in b {
      assert p in a <==> p in multiset(a);
      assert p in b <==> p in multiset(b);
    }
  }

  lemma AppendNoDup(a: seq<string>, b: seq<string>)
    requires NoDup(a) && NoDup(b)
    requires forall x :: x in a ==> x !in b
    ensures NoDup(a + b)
  {
    forall i, j | 0 <= i < j < |a + b| ensures (a + b)[i] != (a + b)[j] {
      if j < |a| {
        assert (a + b)[i] == a[i] && (a + b)[j] == a[j];
      } else if i >= |a| {
        assert (a + b)[i] == b[i - |a|] && (a + b)[j] == b[j - |a|];
      } else {
        var ai, bj := a[i], b[j - |a|];
        assert (a + b)[i] == ai && (a + b)[j] == bj && ai in a && bj in b;
      }
    }
  }

  // ---------------------------------------------------------------------------
  // Reading the ordered files
  // ---------------------------------------------------------------------------

  /** The paths among `ps` that read successfully, in order. */
  function Readable(ps: seq<string>, cache: map<string, string>, files: map<string, string>): (r: seq<string>)
    ensures |r| <= |ps|
    ensures forall p :: p in r <==> p in ps && Lookup(cache, files, p).Some?
  {
    if ps == [] then []
    else
      var init := ps[..|ps| - 1];
      var last := ps[|ps| - 1];
      assert forall p :: p in ps <==> p in init || p == last;
      Readable(init, cache, files) + (if Lookup(cache, files, last).Some? then [last] else [])
  }

  /** The readable paths keep their order: those of a split list are those of the first
      part, then those of the second. */
  lemma {:induction false} ReadableAppend(a: seq<string>, b: seq<string>,
                                          cache: map<string, string>, files: map<string, string>)
    ensures Readable(a + b, cache, files) == Readable(a, cache, files) + Readable(b, cache, files)
    decreases |b|
  {
    if b == [] {
      assert a + b == a;
    } else {
      var init, last := b[..|b| - 1], b[|b| - 1];
      assert b == init + [last];
      ReadableAppend(a, init, cache, files);
      ConcatAssoc(a, init, [last]);
      ReadableSnoc(a + init, last, cache, files);
      ReadableSnoc(init, last, cache, files);
      var tail := if Lookup(cache, files, last).Some? then [last] else [];
      ConcatAssoc(Readable(a, cache, files), Readable(init, cache, files), tail);
    }
  }

  lemma ReadableSnoc(ps: seq<string>, q: string, cache: map<string, string>, files: map<string, string>)
    ensures Readable(ps + [q], cache, files)
         == Readable(ps, cache, files) + (if Lookup(cache, files, q).Some? then [q] else [])
  {
    assert (ps + [q])[..|ps|] == ps;
  }

  /** One path is kept exactly when its read succeeds. */
  lemma ReadableOne(q: string, cache: map<string, string>, files: map<string, string>)
    ensures Readable([q], cache, files) == if Lookup(cache, files, q).Some? then [q] else []
  {
    assert [q][..0] == [];
  }

  /** One block per readable path: `separator(basename, text)`, in path order. Unreadable
      files are skipped (build/build.js:133-138). */
  function Blocks(ps: seq<string>, cache: map<string, string>, files: map<string, string>,
                  separator: (string, string) -> string): (r: seq<string>)
    ensures |r| == |Readable(ps, cache, files)|
    ensures forall k :: 0 <= k < |r| ==>
              var p := Readable(ps, cache, files)[k];
              r[k] == separator(Basename(p), Lookup(cache, files, p).value)
  {
    if ps == [] then []
    else
      var last := ps[|ps| - 1];
      var t := Lookup(cache, files, last);
      Blocks(ps[..|ps| - 1], cache, files, separator) + (if t.Some? then [separator(Basename(last), t.value)] else [])
  }

  /** The loop that reads each ordered file and keeps the readable ones. */
  method ReadBlocks(cache: Cache, files: map<string, string>, ordered: seq<string>,
                    separator: (string, string) -> string) returns (parts: seq<string>)
    modifies cache
    ensures parts == Blocks(ordered, old(cache.entries), files, separator)
    ensures cache.entries == CacheAfter(old(cache.entries), files, ordered)
  {
    ghost var c0 := cache.entries;
    parts := [];
    for i := 0 to |ordered|
      invariant parts == Blocks(ordered[..i], c0, files, separator)
      invariant cache.entries == CacheAfter(c0, files, ordered[..i])
    {
      var filePath := ordered[i];
      LookupAfterReads(c0, files, ordered[..i], filePath);
      var content := cache.ReadFile(files, filePath, true);
      if content.Some? {
        parts := parts + [separator(Basename(filePath), content.value)];
      }
      assert ordered[..i + 1][..i] == ordered[..i];
    }
    assert ordered[..|ordered|] == ordered;
  }

  // ---------------------------------------------------------------------------
  // concatenateFiles
  // ---------------------------------------------------------------------------

  /** `concatenateFiles(dir, order, pattern, separatorFn)`: the blocks of the readable
      files, in the two-phase order, joined with a blank line, and their number. */
  method ConcatenateFiles(cache: Cache, disk: Disk, dir: string, order: seq<string>,
                          pattern: string -> bool, separator: (string, string) -> string)
    returns (content: string, fileCount: nat)
    modifies cache
    ensures var ordered := OrderedFiles(GetFiles(disk, dir, pattern), dir, order);
            var parts := Blocks(ordered, old(cache.entries), disk.files, separator);
            && content == JoinWith(parts, "\n\n")
            && fileCount == |parts|
            && cache.entries == CacheAfter(old(cache.entries), disk.files, ordered)
  {
    var orderedFiles := OrderFiles(GetFiles(disk, dir, pattern), dir, order);
    var parts := ReadBlocks(cache, disk.files, orderedFiles, separator);
    content := JoinWith(parts, "\n\n");
    fileCount := |parts|;
  }

  /** The ordering half of concatenateFiles (build/build.js:112-129): the loop over the
      order list, then the remaining files sorted. */
  method OrderFiles(files: seq<string>, dir: string, order: seq<string>) returns (orderedFiles: seq<string>)
    ensures orderedFiles == OrderedFiles(files, dir, order)
  {
    var availableFiles := Dedup(files);
    ghost var whole := Walk(availableFiles, dir, order);
    orderedFiles := [];
    assert order[0..] == order;
    for i := 0 to |order|
      invariant NoDup(availableFiles)
      invariant whole.0 == orderedFiles + Walk(availableFiles, dir, order[i..]).0
      invariant whole.1 == Walk(availableFiles, dir, order[i..]).1
    {
      var filePath := PathJoin(dir, order[i]);
      WalkAdvance(whole, availableFiles, orderedFiles, dir, order, i);
      if filePath in availableFiles {
        orderedFiles := orderedFiles + [filePath];
        availableFiles := Remove(availableFiles, filePath);
      }
    }
    WalkFinished(whole, availableFiles, orderedFiles, dir, order);
    var remaining := SortBy(availableFiles, StrLe);
    orderedFiles := orderedFiles + remaining;
  }

  /** Once the order list is used up, the walk has put every listed file first. */
  lemma WalkFinished(whole: (seq<string>, seq<string>), avail: seq<string>, ordered: seq<string>,
                     dir: string, order: seq<string>)
    requires NoDup(avail)
    requires whole.0 == ordered + Walk(avail, dir, order[|order|..]).0
    requires whole.1 == Walk(avail, dir, order[|order|..]).1
    ensures whole == (ordered, avail)
  {
    assert order[|order|..] == [];
    assert Walk(avail, dir, []) == ([], avail);
    assert ordered + [] == ordered;
  }

  /** The loop invariant of OrderFiles carried over one turn. */
  lemma WalkAdvance(whole: (seq<string>, seq<string>), avail: seq<string>, ordered: seq<string>,
                    dir: string, order: seq<string>, i: nat)
    requires NoDup(avail) && i < |order|
    requires whole.0 == ordered + Walk(avail, dir, order[i..]).0
    requires whole.1 == Walk(avail, dir, order[i..]).1
    ensures var p := PathJoin(dir, order[i]);
            var avail' := if p in avail then Remove(avail, p) else avail;
            var ordered' := if p in avail then ordered + [p] else ordered;
            && NoDup(avail')
            && whole.0 == ordered' + Walk(avail', dir, order[i + 1..]).0
            && whole.1 == Walk(avail', dir, order[i + 1..]).1
  {
    var p := PathJoin(dir, order[i]);
    WalkStep(avail, dir, order, i);
    if p in avail {
      var w := Walk(Remove(avail, p), dir, order[i + 1..]);
      assert ordered + ([p] + w.0) == (ordered + [p]) + w.0;
    }
  }

  /** One turn of the loop over the order list. */
  lemma WalkStep(avail: seq<string>, dir: string, order: seq<string>, i: nat)
    requires NoDup(avail) && i < |order|
    ensures var p := PathJoin(dir, order[i]);
            Walk(avail, dir, order[i..])
              == if p in avail then
                   var w := Walk(Remove(avail, p), dir, order[i + 1..]); ([p] + w.0, w.1)
                 else Walk(avail, dir, order[i + 1..])
  {
    assert order[i..][0] == order[i] && order[i..][1..] == order[i + 1..];
  }

  /** A missing directory gives no blocks: `("", 0)`. */
  lemma MissingDirectoryGivesNothing(disk: Disk, dir: string, order: seq<string>, pattern: string -> bool,
                                     cache: map<string, string>, separator: (string, string) -> string)
    requires dir !in disk.listings
    ensures Blocks(OrderedFiles(GetFiles(disk, dir, pattern), dir, order), cache, disk.files, separator) == []
  {
    WalkOfNothing(dir, order);
  }

  lemma {:induction false} WalkOfNothing(dir: string, order: seq<string>)
    ensures Walk([], dir, order) == ([], [])
    decreases |order|
  {
    if order != [] {
      WalkOfNothing(dir, order[1..]);
    }
  }

  // ---------------------------------------------------------------------------
  // getDayContent
  // ---------------------------------------------------------------------------

  /** The leading run of digits. */
  function DigitPrefix(s: string): (r: string)
    ensures |r| <= |s| && r == s[..|r|]
    ensures forall i :: 0 <= i < |r| ==> IsDigit(r[i])
    ensures |r| < |s| ==> !IsDigit(s[|r|])
  {
    if s == [] || !IsDigit(s[0]) then [] else [s[0]] + DigitPrefix(s[1..])
  }

  /** `name.match(/\d+/)?.[0]`: the first run of digits, empty when there is none. */
  function FirstDigitRun(name: string): (r: string)
    ensures forall i :: 0 <= i < |r| ==> IsDigit(r[i])
    ensures r == [] <==> forall i :: 0 <= i < |name| ==> !IsDigit(name[i])
  {
    if name == [] then []
    else if IsDigit(name[0]) then DigitPrefix(name)
    else
      var r := FirstDigitRun(name[1..]);
      assert (forall i :: 0 <= i < |name| ==> !IsDigit(name[i]))
         <==> (forall i :: 0 <= i < |name[1..]| ==> !IsDigit(name[1..][i])) by {
        forall i | 0 <= i < |name[1..]| ensures name[1..][i] == name[i + 1] { }
        if exists i :: 0 <= i < |name| && IsDigit(name[i]) {
          var i :| 0 <= i < |name| && IsDigit(name[i]);
          assert name[1..][i - 1] == name[i];
        }
      }
      r
  }

  /** `getNum`: the numeric value of the first digit run; a name without a digit gives
      `parseInt('0', 10)`, that is 0. */
  function DayKey(name: string): (r: nat)
    ensures (forall i :: 0 <= i < |name| ==> !IsDigit(name[i])) ==> r == 0
  {
    DigitsValue(FirstDigitRun(name))
  }

  /** The comparator of build/build.js:147-150: the difference of the day numbers. */
  function DayCompare(a: string, b: string): int
  {
    DayKey(Basename(a)) - DayKey(Basename(b))
  }

  /** "Sorts before or with": the comparator gives no positive value. */
  predicate DayLe(a: string, b: string)
    ensures DayLe(a, b) <==> DayCompare(a, b) <= 0
  {
    DayKey(Basename(a)) <= DayKey(Basename(b))
  }

  lemma DayLeIsTotalPreorder()
    ensures TotalPreorder(DayLe)
  {
  }

  /** The block of one day file (build/build.js:156-157). */
  function DayBlock(name: string, content: string): (r: string)
    ensures Contains(r, FirstDigitRun(name)) && EndsWith(r, content)
  {
    var d := FirstDigitRun(name);
    MarkedBlock("    <!-- Day ", d, " -->\n", content);
    "    <!-- Day " + d + " -->\n" + content
  }

  /** A marker before a text names what it holds and ends with the text. */
  lemma MarkedBlock(a: string, d: string, b: string, c: string)
    ensures Contains(a + d + b + c, d) && EndsWith(a + d + b + c, c)
  {
    var r := a + d + b + c;
    assert r[|a|..|a| + |d|] == d;
    assert OccursAt(r, d, |a|);
    assert r[|r| - |c|..] == c;
  }

  /** A digit run ends at the first character that is not a digit. */
  lemma {:induction false} DigitPrefixOfDigits(d: string, rest: string)
    requires forall i :: 0 <= i < |d| ==> IsDigit(d[i])
    requires rest == [] || !IsDigit(rest[0])
    ensures DigitPrefix(d + rest) == d
  {
    if d == [] {
      assert d + rest == rest;
    } else {
      assert (d + rest)[1..] == d[1..] + rest;
      DigitPrefixOfDigits(d[1..], rest);
    }
  }

  /** Characters that are not digits are skipped on the way to the first digit run. */
  lemma {:induction false} FirstDigitRunSkips(x: string, t: string)
    requires forall i :: 0 <= i < |x| ==> !IsDigit(x[i])
    ensures FirstDigitRun(x + t) == FirstDigitRun(t)
  {
    if x == [] {
      assert x + t == t;
    } else {
      assert (x + t)[1..] == x[1..] + t;
      FirstDigitRunSkips(x[1..], t);
    }
  }

  /** A nonempty digit run after characters that are not digits, and before one that is
      not a digit, is the first digit run. */
  lemma FirstDigitRunBetween(head: string, d: string, tail: string)
    requires forall i :: 0 <= i < |head| ==> !IsDigit(head[i])
    requires |d| > 0 && forall i :: 0 <= i < |d| ==> IsDigit(d[i])
    requires tail == [] || !IsDigit(tail[0])
    ensures FirstDigitRun(head + (d + tail)) == d
  {
    FirstDigitRunSkips(head, d + tail);
    DigitPrefixOfDigits(d, tail);
    assert (d + tail)[0] == d[0];
  }

  lemma DayPrefixHasNoDigit(head: string)
    requires head == "day"
    ensures forall i :: 0 <= i < |head| ==> !IsDigit(head[i])
  {
    assert head[0] == 'd' && head[1] == 'a' && head[2] == 'y';
  }

  /** The digits of a `day<digits>.html` name are its first digit run. */
  lemma DayNameDigits(name: string)
    requires IsDayFileName(name)
    ensures FirstDigitRun(name) == name[3..|name| - 5]
    ensures DayKey(name) == DigitsValue(name[3..|name| - 5])
  {
    var head, d, tail := DayNameParts(name);
    DayPrefixHasNoDigit(head);
    FirstDigitRunBetween(head, d, tail);
  }

  /** A day file name cut into "day", its digits and ".html". */
  lemma DayNameParts(name: string) returns (head: string, d: string, tail: string)
    requires IsDayFileName(name)
    ensures head == "day" && d == name[3..|name| - 5] && tail == ".html"
    ensures name == head + (d + tail)
    ensures |d| > 0 && forall i :: 0 <= i < |d| ==> IsDigit(d[i])
    ensures tail == [] || !IsDigit(tail[0])
  {
    head, d, tail := name[..3], name[3..|name| - 5], name[|name| - 5..];
    assert name == head + (d + tail);
    forall i | 0 <= i < |d| ensures IsDigit(d[i]) { assert d[i] == name[3 + i]; }
    assert tail[0] == '.';
  }

  /** The file name of day `n`. */
  function DayName(n: nat): (r: string)
    ensures IsDayFileName(r) && '/' !in r
  {
    var d := NatToString(n);
    var r := "day" + d + ".html";
    assert r[..3] == "day" && r[|r| - 5..] == ".html";
    assert forall i :: 3 <= i < |r| - 5 ==> r[i] == d[i - 3];
    assert forall i :: 0 <= i < |r| ==> r[i] != '/' by {
      forall i | 0 <= i < |r| ensures r[i] != '/' {
        if i < 3 { assert r[i] == "day"[i]; }
        else if i < |r| - 5 { assert r[i] == d[i - 3]; }
        else { assert r[i] == ".html"[i - 3 - |d|]; }
      }
    }
    r
  }

  /** Day files sort by their number: day `m` goes before or with day `n` exactly when
      m <= n, whatever the number of digits. */
  lemma DayOrderIsNumeric(dir: string, m: nat, n: nat)
    ensures DayLe(PathJoin(dir, DayName(m)), PathJoin(dir, DayName(n))) <==> m <= n
  {
    BasenameOfJoin(dir, DayName(m));
    BasenameOfJoin(dir, DayName(n));
    DayKeyOfDayName(m);
    DayKeyOfDayName(n);
  }

  lemma DayKeyOfDayName(n: nat)
    ensures DayKey(DayName(n)) == n
  {
    var name := DayName(n);
    DayNameDigits(name);
    assert name[3..|name| - 5] == NatToString(n);
    DigitsValueOfNatToString(n);
  }

  /** The default string order would put day 10 before day 9; the numeric order does not. */
  lemma NineBeforeTen(dir: string)
    ensures DayLe(PathJoin(dir, DayName(9)), PathJoin(dir, DayName(10)))
    ensures !DayLe(PathJoin(dir, DayName(10)), PathJoin(dir, DayName(9)))
    ensures StrLe(PathJoin(dir, DayName(10)), PathJoin(dir, DayName(9)))
    ensures !StrLe(PathJoin(dir, DayName(9)), PathJoin(dir, DayName(10)))
  {
    DayOrderIsNumeric(dir, 9, 10);
    DayOrderIsNumeric(dir, 10, 9);
    TenBeforeNineAsStrings(dir);
  }

  lemma TenBeforeNineAsStrings(dir: string)
    ensures StrLe(PathJoin(dir, DayName(10)), PathJoin(dir, DayName(9)))
    ensures !StrLe(PathJoin(dir, DayName(9)), PathJoin(dir, DayName(10)))
  {
    var prefix := dir + "/day";
    var ten, nine := "10.html", "9.html";
    assert PathJoin(dir, DayName(10)) == prefix + ten by {
      assert NatToString(10) == "10";
    }
    assert PathJoin(dir, DayName(9)) == prefix + nine by {
      assert NatToString(9) == "9";
    }
    assert StrLe(prefix + ten, prefix + nine) && !StrLe(prefix + nine, prefix + ten) by {
      StrLeCommonPrefix(prefix, ten, nine);
      StrLeCommonPrefix(prefix, nine, ten);
    }
  }

  /** The files getDayContent reads, in the order it reads them. */
  function DayFiles(disk: Disk, contentDir: string): (r: seq<string>)
    ensures multiset(r) == multiset(GetFiles(disk, contentDir, IsDayFileName))
  {
    SortBy(GetFiles(disk, contentDir, IsDayFileName), DayLe)
  }

  /** The guarantees of the day order: only `day<digits>.html` entries are taken, all of
      them, in nondecreasing numeric day order, and files with the same day number keep
      their listing order. */
  lemma DayContentOrder(disk: Disk, contentDir: string, x: string)
    requires ValidListings(disk)
    ensures var files := DayFiles(disk, contentDir);
            var listed := GetFiles(disk, contentDir, IsDayFileName);
            && (forall p :: p in files ==> IsDayFileName(Basename(p)))
            && (forall p :: p in files <==> p in listed)
            && (forall i, j :: 0 <= i < j < |files| ==> DayKey(Basename(files[i])) <= DayKey(Basename(files[j])))
            && EquivTo(files, DayLe, x) == EquivTo(listed, DayLe, x)
  {
    var listed := GetFiles(disk, contentDir, IsDayFileName);
    var files := DayFiles(disk, contentDir);
    DayLeIsTotalPreorder();
    SortBySorted(listed, DayLe);
    SortByStable(listed, DayLe, x);
    forall p ensures p in files <==> p in listed {
      assert p in files <==> p in multiset(files);
      assert p in listed <==> p in multiset(listed);
    }
    forall p | p in files ensures IsDayFileName(Basename(p)) {
      var n :| n in disk.listings[contentDir] && IsDayFileName(n) && p == PathJoin(contentDir, n);
      BasenameOfJoin(contentDir, n);
    }
  }

  /** `getDayContent(contentDir)`: the day blocks of the readable files, in day order,
      joined with a blank line, and their number. */
  method GetDayContent(cache: Cache, disk: Disk, contentDir: string) returns (content: string, dayCount: nat)
    modifies cache
    ensures var files := DayFiles(disk, contentDir);
            var parts := Blocks(files, old(cache.entries), disk.files, DayBlock);
            && content == JoinWith(parts, "\n\n")
            && dayCount == |parts|
            && cache.entries == CacheAfter(old(cache.entries), disk.files, files)
  {
    var files := GetFiles(disk, contentDir, IsDayFileName);
    files := SortBy(files, DayLe);
    var parts := ReadBlocks(cache, disk.files, files, DayBlock);
    content := JoinWith(parts, "\n\n");
    dayCount := |parts|;
  }
}
