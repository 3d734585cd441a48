/**
 * The build script's file operations: the disk it reads, `path.join`/`path.basename`,
 * and `readFile` with the module-level `fileCache` Map (build/build.js:66-83).
 */
module FileCache {
  import opened JsText

  /** The file system as the build sees it: the entries of every directory that can be
      listed (in `readdirSync` order), and the text of every file that can be read. A
      directory that is missing, or cannot be listed, has no listing; a file that is
      missing, or cannot be read, has no text. */
  datatype Disk = Disk(listings: map<string, seq<string>>, files: map<string, string>)

  /** Directory entries never contain the path separator. */
  ghost predicate ValidListings(disk: Disk)
  {
    forall dir, name :: dir in disk.listings && name in disk.listings[dir] ==> '/' !in name
  }

  /** `path.join(dir, name)` for a normalised directory and a plain entry name. */
  function PathJoin(dir: string, name: string): string
  {
    dir + "/" + name
  }

  /** `path.basename(p)`: what follows the last separator. */
  function Basename(p: string): (r: string)
    ensures '/' !in r
    ensures EndsWith(p, r)
    ensures |r| == |p| || p[|p| - |r| - 1] == '/'
  {
    if p == [] || p[|p| - 1] == '/' then []
    else
      var r := Basename(p[..|p| - 1]) + [p[|p| - 1]];
      assert p[|p| - |r|..] == p[..|p| - 1][|p| - |r|..] + [p[|p| - 1]];
      r
  }

  /** The base name of a joined path is the entry name it was joined from. */
  lemma {:induction false} BasenameOfJoin(dir: string, name: string)
    requires '/' !in name
    ensures Basename(PathJoin(dir, name)) == name
    decreases |name|
  {
    if name != [] {
      var init := name[..|name| - 1];
      assert '/' !in init by {
        forall k | 0 <= k < |init| ensures init[k] != '/' { assert init[k] == name[k]; }
      }
      BasenameOfJoin(dir, init);
      assert PathJoin(dir, name)[..|PathJoin(dir, name)| - 1] == PathJoin(dir, init);
      assert name == init + [name[|name| - 1]];
    }
  }

  /** What `readFile(p)` yields with the cache consulted: the cached text on a hit,
      otherwise the text on disk, otherwise nothing. */
  function Lookup(cache: map<string, string>, files: map<string, string>, p: string): (r: Option<string>)
    ensures r.None? <==> p !in cache && p !in files
  {
    if p in cache then Some(cache[p]) else if p in files then Some(files[p]) else None
  }

  /** The cache after `readFile(p)` with the cache consulted. */
  function AfterRead(cache: map<string, string>, files: map<string, string>, p: string): (c: map<string, string>)
    ensures c.Keys == cache.Keys + (if p in files then {p} else {})
    ensures forall q :: q in cache ==> q in c && c[q] == cache[q]
  {
    if p in cache then cache else if p in files then cache[p := files[p]] else cache
  }

  /** The cache after reading `ps` one after another, with the cache consulted. */
  function CacheAfter(cache: map<string, string>, files: map<string, string>, ps: seq<string>): map<string, string>
  {
    if ps == [] then cache else AfterRead(CacheAfter(cache, files, ps[..|ps| - 1]), files, ps[|ps| - 1])
  }

  /** Reads through the cache never change what a later read of any path yields: a
      cached entry is never overwritten, and a missed path is stored with its disk text. */
  lemma {:induction false} LookupAfterReads(cache: map<string, string>, files: map<string, string>, ps: seq<string>, p: string)
    ensures Lookup(CacheAfter(cache, files, ps), files, p) == Lookup(cache, files, p)
    decreases |ps|
  {
    if ps != [] {
      LookupAfterReads(cache, files, ps[..|ps| - 1], p);
    }
  }

  /** The module-level `fileCache` Map. */
  class Cache {
    var entries: map<string, string>

    constructor ()
      ensures entries == map[]
    {
      entries := map[];
    }

    /** `fileCache.clear()`, run before every rebuild in watch mode. */
    method Clear()
      modifies this
      ensures entries == map[]
    {
      entries := map[];
    }

    /** `readFile(filePath, useCache)`. A hit (only looked for when `useCache`) returns the
        stored text and does not touch the disk; otherwise the disk is read, and a successful
        read is stored even when `useCache` is false; a failed read yields nothing and leaves
        the cache as it was. */
    method ReadFile(files: map<string, string>, filePath: string, useCache: bool) returns (r: Option<string>)
      modifies this
      ensures useCache && filePath in old(entries) ==>
                r == Some(old(entries)[filePath]) && entries == old(entries)
      ensures !(useCache && filePath in old(entries)) && filePath in files ==>
                r == Some(files[filePath]) && entries == old(entries)[filePath := files[filePath]]
      ensures !(useCache && filePath in old(entries)) && filePath !in files ==>
                r == None && entries == old(entries)
      ensures useCache ==> r == Lookup(old(entries), files, filePath)
      ensures useCache ==> entries == AfterRead(old(entries), files, filePath)
    {
      if useCache && filePath in entries {
        return Some(entries[filePath]);
      }
      if filePath in files {
        var content := files[filePath];
        entries := entries[filePath := content];
        return Some(content);
      }
      return None;
    }
  }
}
