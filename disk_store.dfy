/** The disk cache store: the files and directories the helpers in utils.py and
    http_server_utils.py inspect and change (both files carry the same helpers; one class
    models both). Files are byte strings keyed by path; directories are a set of paths. */
module DiskStore {

  import opened Paths

  newtype byte = x: int | 0 <= x < 256

  /** `CACHE_DIRECTORY`: the root that every component reads and fills. */
  const CacheDirectory: string := "bitbusters_cache"

  type Files = map<string, seq<byte>>

  lemma CacheDirectoryIsName()
    ensures IsName(CacheDirectory)
    ensures TrimmedName(CacheDirectory) == CacheDirectory
  {
    assert forall i :: 0 <= i < |CacheDirectory| ==> CacheDirectory[i] != '/';
    assert CacheDirectory[0] in CacheDirectory;
    assert CacheDirectory[|CacheDirectory| - 1] in CacheDirectory;
  }

  /** The files `os.walk(root)` reaches, at any depth. */
  function UnderKeys(files: Files, root: string): (r: set<string>)
    ensures forall p :: p in r <==> p in files && Under(root, p)
  {
    set p | p in files && Under(root, p)
  }

  /** The total size of the files named by `ks`. */
  ghost function SumOver(files: Files, ks: set<string>): nat
    requires ks <= files.Keys
    decreases ks
  {
    if ks == {} then 0 else var k :| k in ks; |files[k]| + SumOver(files, ks - {k})
  }

  /** Any file of the set can be taken out first: the sum does not depend on the order. */
  lemma {:induction false} SumOverRemove(files: Files, ks: set<string>, k: string)
    requires ks <= files.Keys && k in ks
    ensures SumOver(files, ks) == |files[k]| + SumOver(files, ks - {k})
    decreases ks
  {
    var j :| j in ks && SumOver(files, ks) == |files[j]| + SumOver(files, ks - {j});
    if j != k {
      SumOverRemove(files, ks - {j}, k);
      SumOverRemove(files, ks - {k}, j);
      assert ks - {j} - {k} == ks - {k} - {j};
    }
  }

  /** The sum only looks at the sizes of the files it names. */
  lemma {:induction false} SumOverAgree(f: Files, g: Files, ks: set<string>)
    requires ks <= f.Keys && ks <= g.Keys
    requires forall k :: k in ks ==> |f[k]| == |g[k]|
    ensures SumOver(f, ks) == SumOver(g, ks)
    decreases ks
  {
    if ks != {} {
      var k :| k in ks;
      SumOverRemove(f, ks, k);
      SumOverRemove(g, ks, k);
      SumOverAgree(f, g, ks - {k});
    }
  }

  /** `size_of_cache_directory()` as a value: the sum of the sizes of every file under
      `root`. */
  ghost function Occupied(files: Files, root: string): nat
  {
    SumOver(files, UnderKeys(files, root))
  }

  /** Removing a file lowers the occupancy by exactly its size when it lies under the root,
      and leaves it alone otherwise. */
  lemma OccupiedDelete(files: Files, root: string, p: string)
    requires p in files
    ensures Occupied(files - {p}, root)
            == Occupied(files, root) - (if Under(root, p) then |files[p]| else 0)
  {
    var u := UnderKeys(files, root);
    var g := files - {p};
    assert UnderKeys(g, root) == u - {p};
    if Under(root, p) {
      SumOverRemove(files, u, p);
    } else {
      assert u - {p} == u;
    }
    SumOverAgree(g, files, u - {p});
  }

  /** Writing `data` at `p` replaces the size of what was there (nothing, if it was absent) by
      the size of `data` when `p` lies under the root. */
  lemma OccupiedWrite(files: Files, root: string, p: string, data: seq<byte>)
    ensures Occupied(files[p := data], root)
            == if Under(root, p)
               then Occupied(files, root) - (if p in files then |files[p]| else 0) + |data|
               else Occupied(files, root)
  {
    var u := UnderKeys(files, root);
    var g := files[p := data];
    var v := UnderKeys(g, root);
    if Under(root, p) {
      assert v == (u - {p}) + {p};
      SumOverRemove(g, v, p);
      assert v - {p} == u - {p};
      SumOverAgree(g, files, u - {p});
      if p in files {
        SumOverRemove(files, u, p);
      } else {
        assert u - {p} == u;
      }
    } else {
      assert v == u;
      SumOverAgree(g, files, u);
    }
  }

  /** What the file system guarantees of its own shape: nothing is both a file and a
      directory, no entry has an empty name, a file name never ends in a slash, and every
      file and every directory sits in an existing directory (or at the top, with an empty
      head). */
  ghost predicate WellFormed(files: Files, dirs: set<string>)
  {
    && files.Keys !! dirs
    && (forall p :: p in files ==> p != "" && p[|p| - 1] != '/')
    && "" !in dirs
    && (forall p :: p in files ==> Head(p) == "" || Head(p) in dirs)
    && (forall d :: d in dirs ==> Head(d) == "" || Head(d) in dirs)
  }

  lemma {:induction false} NoDirUnderMissingDir(files: Files, dirs: set<string>, root: string, d: string)
    requires WellFormed(files, dirs) && IsName(root) && root !in dirs
    requires d in dirs
    ensures !Under(root, d)
    decreases |d|
  {
    if Under(root, d) {
      HeadUnder(root, d);
      NoDirUnderMissingDir(files, dirs, root, Head(d));
    }
  }

  /** A directory that does not exist holds no file at any depth, so its occupancy is 0: this
      is why a freshly created cache directory starts empty. */
  lemma NothingUnderMissingDir(files: Files, dirs: set<string>, root: string)
    requires WellFormed(files, dirs) && IsName(root) && root !in dirs
    ensures UnderKeys(files, root) == {}
    ensures Occupied(files, root) == 0
  {
    forall p | p in files && Under(root, p) ensures false {
      HeadUnder(root, p);
      NoDirUnderMissingDir(files, dirs, root, Head(p));
    }
  }

  /** `d` without its trailing slashes (a name made only of slashes is kept): the entry
      that `os.makedirs(d)` creates last. A trailing slash does matter to `os.path.exists`,
      which then accepts a directory only (see `PathExists`). */
  function TrimmedName(d: string): string
  {
    if d != [] && !AllSlashes(d) then TrimSlashes(d) else d
  }

  /** `os.path.exists(d)`: a directory called `d` (trailing slashes aside), or a file called
      exactly `d`; `stat("f/")` fails with `ENOTDIR` when `f` is a file. */
  predicate PathExists(files: Files, dirs: set<string>, d: string)
  {
    TrimmedName(d) in dirs || (d == TrimmedName(d) && d in files)
  }

  /** `os.makedirs(d)` raises: the name is empty, or one of the directories it would create is
      already a file. */
  predicate MkDirFails(files: Files, d: string)
  {
    TrimmedName(d) == "" || !(Ancestors(TrimmedName(d)) !! files.Keys)
  }

  /** `open(p, 'wb')` succeeds: `p` names a file (no trailing slash), is not a directory, and
      its head is an existing directory (or empty: the working directory). */
  predicate CanWrite(dirs: set<string>, p: string)
  {
    Tail(p) != "" && p !in dirs && (Head(p) == "" || Head(p) in dirs)
  }

  /** One line of `find_recently_modified_files`: path, size in bytes, content. */
  datatype FileRecord = FileRecord(path: string, size: nat, content: seq<byte>)

  function PathsOf(s: seq<FileRecord>): set<string>
  {
    set i | 0 <= i < |s| :: s[i].path
  }

  predicate NoDup(s: seq<FileRecord>)
  {
    forall i, j :: 0 <= i < j < |s| ==> s[i].path != s[j].path
  }

  predicate SortedBy(s: seq<FileRecord>, mtime: string -> int)
  {
    forall i, j :: 0 <= i < j < |s| ==> mtime(s[i].path) <= mtime(s[j].path)
  }

  lemma PathsOfCons(x: FileRecord, s: seq<FileRecord>)
    ensures PathsOf([x] + s) == {x.path} + PathsOf(s)
  {
    var r := [x] + s;
    forall y | y in PathsOf(r) ensures y in {x.path} + PathsOf(s) {
      var i :| 0 <= i < |r| && r[i].path == y;
      if i > 0 { assert s[i - 1].path == y; }
    }
    forall y | y in PathsOf(s) ensures y in PathsOf(r) {
      var i :| 0 <= i < |s| && s[i].path == y;
      assert r[i + 1].path == y;
    }
    assert r[0].path == x.path;
  }

  lemma NoDupCons(x: FileRecord, s: seq<FileRecord>)
    requires NoDup(s) && x.path !in PathsOf(s)
    ensures NoDup([x] + s)
  {
    var r := [x] + s;
    forall i, j | 0 <= i < j < |r| ensures r[i].path != r[j].path {
      assert r[j] == s[j - 1];
      if i > 0 { assert r[i] == s[i - 1]; }
    }
  }

  lemma SortedCons(x: FileRecord, s: seq<FileRecord>, mtime: string -> int)
    requires SortedBy(s, mtime)
    requires forall y :: y in s ==> mtime(x.path) <= mtime(y.path)
    ensures SortedBy([x] + s, mtime)
  {
    var r := [x] + s;
    forall i, j | 0 <= i < j < |r| ensures mtime(r[i].path) <= mtime(r[j].path) {
      assert r[j] == s[j - 1];
      if i > 0 { assert r[i] == s[i - 1]; }
    }
  }

  /** One step of a stable sort by modification time: `e` goes after every record of the
      sorted `s` that is not newer. */
  function InsertByTime(s: seq<FileRecord>, e: FileRecord, mtime: string -> int): (r: seq<FileRecord>)
    ensures multiset(r) == multiset(s) + multiset{e}
  {
    if s == [] || mtime(e.path) < mtime(s[0].path) then [e] + s
    else
      assert s == [s[0]] + s[1..];
      [s[0]] + InsertByTime(s[1..], e, mtime)
  }

  /** Insertion adds `e` and keeps every record of `s`, and nothing else. */
  lemma {:induction false} InsertByTimeMembers(s: seq<FileRecord>, e: FileRecord, mtime: string -> int)
    ensures |InsertByTime(s, e, mtime)| == |s| + 1
    ensures forall x :: x in InsertByTime(s, e, mtime) <==> x == e || x in s
    ensures PathsOf(InsertByTime(s, e, mtime)) == PathsOf(s) + {e.path}
  {
    if s == [] || mtime(e.path) < mtime(s[0].path) {
      PathsOfCons(e, s);
    } else {
      var rest := InsertByTime(s[1..], e, mtime);
      InsertByTimeMembers(s[1..], e, mtime);
      assert s == [s[0]] + s[1..];
      PathsOfCons(s[0], s[1..]);
      PathsOfCons(s[0], rest);
    }
  }

  /** Insertion into a sequence sorted by modification time keeps it sorted. */
  lemma {:induction false} InsertByTimeSorted(s: seq<FileRecord>, e: FileRecord, mtime: string -> int)
    requires SortedBy(s, mtime)
    ensures SortedBy(InsertByTime(s, e, mtime), mtime)
  {
    if s == [] || mtime(e.path) < mtime(s[0].path) {
      assert forall y :: y in s ==> mtime(e.path) <= mtime(y.path) by {
        forall y | y in s ensures mtime(e.path) <= mtime(y.path) {
          var k :| 0 <= k < |s| && s[k] == y;
          assert k == 0 || mtime(s[0].path) <= mtime(s[k].path);
        }
      }
      SortedCons(e, s, mtime);
    } else {
      var rest := InsertByTime(s[1..], e, mtime);
      assert SortedBy(s[1..], mtime) by {
        forall i, j | 0 <= i < j < |s[1..]| ensures mtime(s[1..][i].path) <= mtime(s[1..][j].path) {
          assert s[1..][i] == s[i + 1] && s[1..][j] == s[j + 1];
        }
      }
      InsertByTimeSorted(s[1..], e, mtime);
      InsertByTimeMembers(s[1..], e, mtime);
      assert forall y :: y in rest ==> mtime(s[0].path) <= mtime(y.path) by {
        forall y | y in rest ensures mtime(s[0].path) <= mtime(y.path) {
          if y != e {
            var k :| 0 <= k < |s[1..]| && s[1..][k] == y;
            assert s[k + 1] == y;
          }
        }
      }
      SortedCons(s[0], rest, mtime);
    }
  }

  /** Inserting a record with a path not yet present keeps the paths distinct. */
  lemma {:induction false} InsertByTimeNoDup(s: seq<FileRecord>, e: FileRecord, mtime: string -> int)
    requires NoDup(s) && e.path !in PathsOf(s)
    ensures NoDup(InsertByTime(s, e, mtime))
  {
    if s == [] || mtime(e.path) < mtime(s[0].path) {
      NoDupCons(e, s);
    } else {
      var rest := InsertByTime(s[1..], e, mtime);
      assert s == [s[0]] + s[1..];
      PathsOfCons(s[0], s[1..]);
      assert NoDup(s[1..]) by {
        forall i, j | 0 <= i < j < |s[1..]| ensures s[1..][i].path != s[1..][j].path {
          assert s[1..][i] == s[i + 1] && s[1..][j] == s[j + 1];
        }
      }
      assert s[0].path !in PathsOf(s[1..]) by {
        forall y | y in PathsOf(s[1..]) ensures y != s[0].path {
          var i :| 0 <= i < |s[1..]| && s[1..][i].path == y;
          assert s[1..][i] == s[i + 1];
        }
      }
      InsertByTimeNoDup(s[1..], e, mtime);
      InsertByTimeMembers(s[1..], e, mtime);
      NoDupCons(s[0], rest);
    }
  }

  /** The cache store on disk. */
  class Store {
    var files: Files
    var dirs: set<string>

    ghost predicate Valid()
      reads this
    {
      WellFormed(files, dirs)
    }

    /** An empty file system. */
    constructor ()
      ensures Valid() && files == map[] && dirs == {}
    {
      files := map[];
      dirs := {};
    }

    /** `does_file_exist(p)` (`os.path.isfile`): a directory does not count. */
    predicate DoesFileExist(p: string): (r: bool)
      reads this
      ensures Valid() && p in dirs ==> !r
      ensures Valid() && r ==> Exists(p)
    {
      p in files
    }

    /** `os.path.exists(p)` in this state. A name with a trailing slash exists only as a
        directory. */
    predicate Exists(p: string): (r: bool)
      reads this
      ensures TrimmedName(p) == p ==> (r <==> p in files || p in dirs)
      ensures TrimmedName(p) != p ==> (r <==> TrimmedName(p) in dirs)
    {
      PathExists(files, dirs, p)
    }

    /** The occupancy of the cache root in this state. */
    ghost function Occupancy(): nat
      reads this
    {
      Occupied(files, CacheDirectory)
    }

    /** `size_of_cache_directory()`: walk every file under the cache root and add up the
        sizes. */
    method SizeOfCacheDirectory() returns (n: nat)
      ensures n == Occupied(files, CacheDirectory)
    {
      var remaining := UnderKeys(files, CacheDirectory);
      n := 0;
      while remaining != {}
        invariant remaining <= UnderKeys(files, CacheDirectory)
        invariant n + SumOver(files, remaining) == Occupied(files, CacheDirectory)
        decreases remaining
      {
        var p :| p in remaining;
        SumOverRemove(files, remaining, p);
        n := n + |files[p]|;
        remaining := remaining - {p};
      }
    }

    /** `delete_file(p)` (`os.remove`): `ok` is false where Python raises, because `p` is not
        a file. */
    method DeleteFile(p: string) returns (ok: bool)
      requires Valid()
      modifies this
      ensures Valid()
      ensures ok == (p in old(files))
      ensures files == old(files) - {p} && dirs == old(dirs)
      ensures !DoesFileExist(p)
      ensures Occupancy() == old(Occupancy())
                             - (if ok && Under(CacheDirectory, p) then |old(files)[p]| else 0)
    {
      ok := p in files;
      if ok {
        OccupiedDelete(files, CacheDirectory, p);
        files := files - {p};
      }
    }

    /** `mk_dir(d)`: create `d` and its missing parents unless something called `d` already
        exists. `ok` is false where `os.makedirs` raises. */
    method MkDir(d: string) returns (ok: bool)
      requires Valid()
      modifies this
      ensures Valid() && files == old(files)
      ensures ok == (PathExists(files, old(dirs), d) || !MkDirFails(files, d))
      ensures dirs == DirsAfterMkDir(files, old(dirs), d)
    {
      var n := TrimmedName(d);
      ghost var target := DirsAfterMkDir(files, dirs, d);
      if n in dirs || (d == n && d in files) {
        ok := true;
      } else if MkDirFails(files, d) {
        ok := false;
      } else {
        MkDirKeepsWellFormed(files, dirs, n);
        var made := Ancestors(n);
        assert target == dirs + made;
        dirs := dirs + made;
        ok := true;
      }
      assert dirs == target;
    }

    /** `open(p, 'wb').write(data)`: `ok` is false where `open` raises. */
    method WriteFile(p: string, data: seq<byte>) returns (ok: bool)
      requires Valid()
      modifies this
      ensures Valid() && dirs == old(dirs)
      ensures ok == CanWrite(dirs, p)
      ensures files == if ok then old(files)[p := data] else old(files)
      ensures Occupancy() == if ok && Under(CacheDirectory, p)
                             then old(Occupancy()) - (if p in old(files) then |old(files)[p]| else 0) + |data|
                             else old(Occupancy())
    {
      ok := CanWrite(dirs, p);
      if ok {
        OccupiedWrite(files, CacheDirectory, p, data);
        files := files[p := data];
      }
    }

    /** `find_recently_modified_files()`: every file under the cache root with its size and
        content, oldest first by modification time `mtime`. */
    method FindRecentlyModifiedFiles(mtime: string -> int) returns (r: seq<FileRecord>)
      ensures PathsOf(r) == UnderKeys(files, CacheDirectory)
      ensures NoDup(r)
      ensures forall i :: 0 <= i < |r| ==>
                r[i].path in files && r[i].size == |files[r[i].path]| && r[i].content == files[r[i].path]
      ensures SortedBy(r, mtime)
    {
      var remaining := UnderKeys(files, CacheDirectory);
      var listing: seq<FileRecord> := [];
      while remaining != {}
        invariant remaining <= UnderKeys(files, CacheDirectory)
        invariant PathsOf(listing) == UnderKeys(files, CacheDirectory) - remaining
        invariant NoDup(listing)
        invariant forall x :: x in listing ==> x.path in files && x.size == |files[x.path]| && x.content == files[x.path]
        decreases remaining
      {
        var p :| p in remaining;
        var e := FileRecord(p, |files[p]|, files[p]);
        assert PathsOf(listing + [e]) == PathsOf(listing) + {p} by {
          var l := listing + [e];
          forall y | y in PathsOf(listing) ensures y in PathsOf(l) {
            var i :| 0 <= i < |listing| && listing[i].path == y;
            assert l[i].path == y;
          }
          assert l[|listing|].path == p;
        }
        listing := listing + [e];
        remaining := remaining - {p};
      }
      r := [];
      var i := 0;
      while i < |listing|
        invariant 0 <= i <= |listing|
        invariant SortedBy(r, mtime) && NoDup(r)
        invariant PathsOf(r) == PathsOf(listing[..i])
        invariant forall x :: x in r ==> x in listing
      {
        assert listing[i].path !in PathsOf(listing[..i]);
        assert PathsOf(listing[..i + 1]) == PathsOf(listing[..i]) + {listing[i].path} by {
          assert listing[..i + 1] == listing[..i] + [listing[i]];
          forall y | y in PathsOf(listing[..i]) ensures y in PathsOf(listing[..i + 1]) {
            var k :| 0 <= k < i && listing[..i][k].path == y;
            assert listing[..i + 1][k].path == y;
          }
          assert listing[..i + 1][i].path == listing[i].path;
        }
        InsertByTimeMembers(r, listing[i], mtime);
        InsertByTimeSorted(r, listing[i], mtime);
        InsertByTimeNoDup(r, listing[i], mtime);
        r := InsertByTime(r, listing[i], mtime);
        i := i + 1;
      }
      assert listing[..i] == listing;
    }
  }

  /** Adding the chain of directories `makedirs` creates keeps the file system well formed,
      provided none of them is already a file. */
  lemma MkDirKeepsWellFormed(files: Files, dirs: set<string>, n: string)
    requires n != ""
    requires WellFormed(files, dirs) && Ancestors(n) !! files.Keys
    ensures WellFormed(files, dirs + Ancestors(n))
  {
    AncestorsClosed(n);
    AncestorsNonEmpty(n);
  }

  /** The directories after `mk_dir(d)` succeeded, failed or found `d` already there. */
  ghost function DirsAfterMkDir(files: Files, dirs: set<string>, d: string): set<string>
  {
    if PathExists(files, dirs, d) || MkDirFails(files, d) then dirs
    else dirs + Ancestors(TrimmedName(d))
  }

  /** After a `mk_dir` that did not raise, `os.path.exists(d)` holds, and `d` is a directory
      unless a file had exactly that name already. */
  lemma MkDirCreates(files: Files, dirs: set<string>, d: string)
    requires PathExists(files, dirs, d) || !MkDirFails(files, d)
    ensures PathExists(files, DirsAfterMkDir(files, dirs, d), d)
    ensures d !in files ==> TrimmedName(d) in DirsAfterMkDir(files, dirs, d)
  {
  }

  /** `mk_dir` of a single name that does not exist yet creates exactly that directory. */
  lemma MkDirMissingName(files: Files, dirs: set<string>, root: string)
    requires IsName(root) && root !in files && root !in dirs
    ensures TrimmedName(root) == root && !MkDirFails(files, root)
    ensures DirsAfterMkDir(files, dirs, root) == dirs + {root}
  {
    assert root[0] in root && root[|root| - 1] in root;
    NameAlone(root);
  }

  /** `mk_dir` is idempotent: a second call with the same name changes nothing more. */
  lemma MkDirIdempotent(files: Files, dirs: set<string>, d: string)
    ensures DirsAfterMkDir(files, DirsAfterMkDir(files, dirs, d), d) == DirsAfterMkDir(files, dirs, d)
  {
  }
}
