/** `ReplicaHTTPServer.do_GET` (httpserver.py): serve a request path from the disk cache when
    the file is there, otherwise fetch it from the origin, pass the reply on and store the
    body. What the origin answers and whether a body decodes as UTF-8 are inputs; what the
    handler sends is the list of responses it writes to the client, in order. */
module HttpServer {

  import opened Wrappers
  import opened Paths
  import opened DiskStore

  /** `DISK_SIZE_LIMIT`, in bytes. */
  const DiskSizeLimit: nat := 20000000

  const OkStatus: int := 200
  const ErrorStatus: int := 400

  /** One response written to the client: the status line and the body. The header set is
      the same for every response and is not modelled. */
  datatype Response = Response(status: int, body: seq<byte>)

  /** What `urlopen` on the origin URL gives: the status and body it read, or an exception
      (a connection failure, or an HTTP error status, which `urlopen` raises). */
  datatype OriginReply = Fetched(status: int, body: seq<byte>) | OriginFailed

  /** `self.path[1:]`: the request path without its leading character. */
  function RequestKey(path: string): (key: string)
    ensures path != [] ==> [path[0]] + key == path
    ensures path == [] ==> key == []
  {
    if path == [] then [] else path[1..]
  }

  /** `f'{CACHE_DIRECTORY}/{self.path[1:]}'` */
  function CacheFile(key: string): string
  {
    CacheDirectory + "/" + key
  }

  /** `mk_dir(f'{CACHE_DIRECTORY}/{dir_path}')` for the head of the key. */
  function CacheDirOf(key: string): string
  {
    CacheDirectory + "/" + Head(key)
  }

  lemma CacheFileUnder(key: string)
    ensures Under(CacheDirectory, CacheFile(key))
  {
    assert CacheFile(key)[..|CacheDirectory|] == CacheDirectory;
  }

  /** `do_GET` as written. On a miss, line 77 evaluates `size_of_cache_directory() +
      headers['Content-Length']`, an integer plus a header string (or `None`), which raises
      `TypeError` every time: the client receives the origin's reply followed by a 400, and
      the body is never stored. `decodes` tells whether bytes decode as UTF-8: the hit path
      reads the file in text mode outside the `try`, so a failure there sends nothing, while
      `data.decode()` on a miss fails inside it and sends only the 400. */
  method DoGetAsWritten(store: Store, path: string, reply: OriginReply, decodes: seq<byte> -> bool)
    returns (sent: seq<Response>)
    ensures var file := CacheFile(RequestKey(path));
      file in store.files ==>
        sent == if decodes(store.files[file]) then [Response(OkStatus, store.files[file])] else []
    ensures (CacheFile(RequestKey(path)) !in store.files && (reply.OriginFailed? || !decodes(reply.body))) ==>
              sent == [Response(ErrorStatus, [])]
    ensures (CacheFile(RequestKey(path)) !in store.files && reply.Fetched? && decodes(reply.body)) ==>
              sent == [Response(reply.status, reply.body), Response(ErrorStatus, [])]
  {
    var key := RequestKey(path);
    if store.DoesFileExist(CacheFile(key)) {
      var contents := store.files[CacheFile(key)];
      if !decodes(contents) {
        return [];
      }
      return [Response(OkStatus, contents)];
    }
    if reply.OriginFailed? || !decodes(reply.body) {
      return [Response(ErrorStatus, [])];
    }
    sent := [Response(reply.status, reply.body)];
    // the budget test adds a header string to an integer and raises TypeError
    sent := sent + [Response(ErrorStatus, [])];
  }

  /** `do_GET` with the budget test comparing the occupancy plus the body length with the
      limit. A body that fits is stored under the cache root, after `mk_dir` of its
      directory; a body that does not fit is served without being stored (the eviction the
      loop was meant to perform is not written in the source). */
  method DoGet(store: Store, path: string, reply: OriginReply, decodes: seq<byte> -> bool)
    returns (sent: seq<Response>)
    requires store.Valid()
    modifies store
    ensures store.Valid()
    ensures var file := CacheFile(RequestKey(path));
      file in old(store.files) ==>
        && store.files == old(store.files) && store.dirs == old(store.dirs)
        && sent == if decodes(store.files[file]) then [Response(OkStatus, store.files[file])] else []
    ensures var file := CacheFile(RequestKey(path));
      file !in old(store.files) && (reply.OriginFailed? || !decodes(reply.body)) ==>
        && store.files == old(store.files) && store.dirs == old(store.dirs)
        && sent == [Response(ErrorStatus, [])]
    ensures var file := CacheFile(RequestKey(path));
      file !in old(store.files) && reply.Fetched? && decodes(reply.body)
      && old(store.Occupancy()) + |reply.body| > DiskSizeLimit ==>
        && store.files == old(store.files) && store.dirs == old(store.dirs)
        && sent == [Response(reply.status, reply.body)]
    ensures var key := RequestKey(path);
      var file := CacheFile(key);
      var dir := CacheDirOf(key);
      file !in old(store.files) && reply.Fetched? && decodes(reply.body)
      && old(store.Occupancy()) + |reply.body| <= DiskSizeLimit ==>
        var made := PathExists(old(store.files), old(store.dirs), dir) || !MkDirFails(old(store.files), dir);
        var written := made && CanWrite(store.dirs, file);
        && store.dirs == DirsAfterMkDir(old(store.files), old(store.dirs), dir)
        && store.files == (if written then old(store.files)[file := reply.body] else old(store.files))
        && sent == [Response(reply.status, reply.body)] + (if written then [] else [Response(ErrorStatus, [])])
    ensures old(store.Occupancy()) <= DiskSizeLimit ==> store.Occupancy() <= DiskSizeLimit
  {
    var key := RequestKey(path);
    var file := CacheFile(key);
    if store.DoesFileExist(file) {
      var contents := store.files[file];
      if !decodes(contents) {
        return [];
      }
      return [Response(OkStatus, contents)];
    }
    if reply.OriginFailed? || !decodes(reply.body) {
      return [Response(ErrorStatus, [])];
    }
    sent := ServeFetched(store, key, reply.status, reply.body);
  }

  /** The answered-miss branch of `do_GET`: forward the origin's reply, then cache the body
      when it fits the budget, adding a 400 where the caching raises. */
  method ServeFetched(store: Store, key: string, status: int, body: seq<byte>)
    returns (sent: seq<Response>)
    requires store.Valid()
    modifies store
    ensures store.Valid()
    ensures old(store.Occupancy()) + |body| > DiskSizeLimit ==>
              && store.files == old(store.files) && store.dirs == old(store.dirs)
              && sent == [Response(status, body)]
    ensures var file := CacheFile(key);
      var dir := CacheDirOf(key);
      old(store.Occupancy()) + |body| <= DiskSizeLimit ==>
        var made := PathExists(old(store.files), old(store.dirs), dir) || !MkDirFails(old(store.files), dir);
        var written := made && CanWrite(store.dirs, file);
        && store.dirs == DirsAfterMkDir(old(store.files), old(store.dirs), dir)
        && store.files == (if written then old(store.files)[file := body] else old(store.files))
        && sent == [Response(status, body)] + (if written then [] else [Response(ErrorStatus, [])])
    ensures old(store.Occupancy()) <= DiskSizeLimit ==> store.Occupancy() <= DiskSizeLimit
  {
    sent := [Response(status, body)];
    var used := store.SizeOfCacheDirectory();
    if used + |body| > DiskSizeLimit {
      return;
    }
    var written := StoreBody(store, key, body);
    if !written {
      sent := sent + [Response(ErrorStatus, [])];
    }
  }

  /** The caching step of `do_GET`: `mk_dir` of the key's directory under the cache root,
      then `open(..., "wb").write(body)`. `written` is false where either raises. */
  method StoreBody(store: Store, key: string, body: seq<byte>) returns (written: bool)
    requires store.Valid()
    modifies store
    ensures store.Valid()
    ensures var dir := CacheDirOf(key);
      && store.dirs == DirsAfterMkDir(old(store.files), old(store.dirs), dir)
      && written == ((PathExists(old(store.files), old(store.dirs), dir) || !MkDirFails(old(store.files), dir))
                     && CanWrite(store.dirs, CacheFile(key)))
      && store.files == (if written then old(store.files)[CacheFile(key) := body] else old(store.files))
    ensures store.Occupancy() <= old(store.Occupancy()) + |body|
  {
    var made := store.MkDir(CacheDirOf(key));
    if !made {
      return false;
    }
    CacheFileUnder(key);
    written := store.WriteFile(CacheFile(key), body);
  }

  /** As written, a second request for a path that missed is again a miss: the client keeps
      receiving the origin's reply followed by a 400, and the cache never changes. */
  method RepeatedMissAsWritten(store: Store, path: string, reply: OriginReply, decodes: seq<byte> -> bool)
    returns (first: seq<Response>, second: seq<Response>)
    requires CacheFile(RequestKey(path)) !in store.files
    requires reply.Fetched? && decodes(reply.body)
    ensures first == second == [Response(reply.status, reply.body), Response(ErrorStatus, [])]
  {
    first := DoGetAsWritten(store, path, reply, decodes);
    second := DoGetAsWritten(store, path, reply, decodes);
  }

  /** With the corrected budget test, a top-level article that misses, fits and is fetched is
      stored, and the next request for it is served from the cache with the origin's body,
      whatever the origin would answer then. */
  method MissThenHit(store: Store, path: string, reply: OriginReply, later: OriginReply,
                     decodes: seq<byte> -> bool)
    returns (first: seq<Response>, second: seq<Response>)
    requires store.Valid() && CacheDirectory in store.dirs
    requires RequestKey(path) != "" && '/' !in RequestKey(path)
    requires CacheFile(RequestKey(path)) !in store.files && CacheFile(RequestKey(path)) !in store.dirs
    requires reply.Fetched? && decodes(reply.body)
    requires store.Occupancy() + |reply.body| <= DiskSizeLimit
    modifies store
    ensures first == [Response(reply.status, reply.body)]
    ensures second == [Response(OkStatus, reply.body)]
    ensures store.files == old(store.files)[CacheFile(RequestKey(path)) := reply.body]
  {
    var key := RequestKey(path);
    TopLevelKeyWritable(store.files, store.dirs, key);
    first := DoGet(store, path, reply, decodes);
    second := DoGet(store, path, later, decodes);
  }

  /** For a key without slashes and an existing cache root, `mk_dir` of the key's directory
      finds the root, and the cache file can then be opened for writing. */
  lemma TopLevelKeyWritable(files: Files, dirs: set<string>, key: string)
    requires WellFormed(files, dirs) && CacheDirectory in dirs
    requires key != "" && '/' !in key
    requires CacheFile(key) !in dirs
    ensures TrimmedName(CacheDirOf(key)) == CacheDirectory
    ensures DirsAfterMkDir(files, dirs, CacheDirOf(key)) == dirs
    ensures CanWrite(dirs, CacheFile(key))
  {
    CacheDirectoryIsName();
    TailHasNoSlash(key);
    ChildSplit(CacheDirectory, key);
    var d := CacheDirOf(key);
    assert d == CacheDirectory + "/";
    assert d[0] != '/' by { assert CacheDirectory[0] in CacheDirectory; }
    assert d[..|d| - 1] == CacheDirectory;
    assert CacheDirectory[|CacheDirectory| - 1] != '/' by {
      assert CacheDirectory[|CacheDirectory| - 1] in CacheDirectory;
    }
  }
}
