/** `main` of populate_cache.py: on first start, create the cache root and fill it with the
    articles listed in pageviews.csv, in order, for as long as each next article fits in the
    disk budget. The CSV rows and what the origin server answers for each row are inputs. */
module PopulateCache {

  import opened Wrappers
  import opened Text
  import opened Paths
  import opened DiskStore

  /** `DISK_SIZE_LIMIT`, in bytes. */
  const DiskSizeLimit: nat := 20000000

  /** One CSV row: its `article` column and the body the origin returned for it, or `None`
      when `urlopen` raised. */
  datatype Row = Row(article: string, fetched: Option<seq<byte>>)

  /** How `main` ended: the cache root already existed, every row was stored, the loop
      stopped with `break` at row `row`, or an exception escaped at row `row`. */
  datatype Outcome = Skipped | Finished | OverBudget(row: nat) | Aborted(row: nat)

  datatype FillResult = FillResult(outcome: Outcome, files: Files)

  /** `current_row['article'].replace(' ', '_')` */
  function Key(article: string): (k: string)
    ensures |k| == |article| && ' ' !in k
  {
    ReplaceChar(article, ' ', '_');
    Replace(article, " ", "_")
  }

  /** `f"{CACHE_DIRECTORY}/{current_row['article']}"` */
  function CachePath(article: string): string
  {
    CacheDirectory + "/" + Key(article)
  }

  /** The row at which the loop stopped, or the number of rows. */
  function StopRow(o: Outcome, n: nat): nat
  {
    match o
    case OverBudget(k) => k
    case Aborted(k) => k
    case _ => n
  }

  /** The admission loop from row `i` on, over the files `files` and the fixed directories
      `dirs`: stored rows overwrite earlier bodies at the same path. */
  ghost function Fill(files: Files, dirs: set<string>, rows: seq<Row>, i: nat): (r: FillResult)
    requires i <= |rows|
    ensures !r.outcome.Skipped?
    ensures i <= StopRow(r.outcome, |rows|) <= |rows|
    ensures r.outcome.Finished? || StopRow(r.outcome, |rows|) < |rows|
    decreases |rows| - i
  {
    if i == |rows| then FillResult(Finished, files)
    else
      var row := rows[i];
      match row.fetched
      case None => FillResult(Aborted(i), files)
      case Some(data) =>
        if Occupied(files, CacheDirectory) + |data| > DiskSizeLimit then FillResult(OverBudget(i), files)
        else if !CanWrite(dirs, CachePath(row.article)) then FillResult(Aborted(i), files)
        else Fill(files[CachePath(row.article) := data], dirs, rows, i + 1)
  }

  /** Every row before the one the loop stops at was fetched and could be written. */
  lemma {:induction false} FillRowStored(files: Files, dirs: set<string>, rows: seq<Row>, i: nat, j: nat)
    requires i <= |rows| && i <= j < StopRow(Fill(files, dirs, rows, i).outcome, |rows|)
    ensures rows[j].fetched.Some? && CanWrite(dirs, CachePath(rows[j].article))
    decreases |rows| - i
  {
    var p := CachePath(rows[i].article);
    if i < j && rows[i].fetched.Some? && CanWrite(dirs, p)
       && Occupied(files, CacheDirectory) + |rows[i].fetched.value| <= DiskSizeLimit {
      FillRowStored(files[p := rows[i].fetched.value], dirs, rows, i + 1, j);
    }
  }

  /** Every row before the one the loop stops at passed the budget test: its body, added to
      the occupancy the rows before it left (the loop over `rows[..j]`), stays within the
      limit. With `FillOverBudget`, the first body that does not fit ends the loop. */
  lemma {:induction false} FillStoredFit(files: Files, dirs: set<string>, rows: seq<Row>, i: nat, j: nat)
    requires i <= |rows| && i <= j < StopRow(Fill(files, dirs, rows, i).outcome, |rows|)
    ensures rows[j].fetched.Some?
    ensures Occupied(Fill(files, dirs, rows[..j], i).files, CacheDirectory) + |rows[j].fetched.value|
              <= DiskSizeLimit
    decreases |rows| - i
  {
    var p := CachePath(rows[i].article);
    if i < j && rows[i].fetched.Some? && CanWrite(dirs, p)
       && Occupied(files, CacheDirectory) + |rows[i].fetched.value| <= DiskSizeLimit {
      assert rows[..j][i] == rows[i];
      FillStoredFit(files[p := rows[i].fetched.value], dirs, rows, i + 1, j);
    }
  }

  /** The loop stops for the budget exactly where the next body would push the occupancy
      past the limit. */
  lemma {:induction false} FillOverBudget(files: Files, dirs: set<string>, rows: seq<Row>, i: nat)
    requires i <= |rows|
    requires Fill(files, dirs, rows, i).outcome.OverBudget?
    ensures var r := Fill(files, dirs, rows, i);
      rows[r.outcome.row].fetched.Some?
      && Occupied(r.files, CacheDirectory) + |rows[r.outcome.row].fetched.value| > DiskSizeLimit
    decreases |rows| - i
  {
    var p := CachePath(rows[i].article);
    var data := rows[i].fetched.value;
    if Occupied(files, CacheDirectory) + |data| <= DiskSizeLimit {
      FillOverBudget(files[p := data], dirs, rows, i + 1);
    }
  }

  /** The loop aborts where the fetch or the `open` raises. */
  lemma {:induction false} FillAborted(files: Files, dirs: set<string>, rows: seq<Row>, i: nat)
    requires i <= |rows|
    requires Fill(files, dirs, rows, i).outcome.Aborted?
    ensures var row := rows[Fill(files, dirs, rows, i).outcome.row];
      row.fetched.None? || !CanWrite(dirs, CachePath(row.article))
    decreases |rows| - i
  {
    if rows[i].fetched.Some? {
      var p := CachePath(rows[i].article);
      var data := rows[i].fetched.value;
      if Occupied(files, CacheDirectory) + |data| <= DiskSizeLimit && CanWrite(dirs, p) {
        FillAborted(files[p := data], dirs, rows, i + 1);
      }
    }
  }

  /** `main(origin_server)` over the store `store`. */
  method Populate(store: Store, rows: seq<Row>) returns (outcome: Outcome)
    requires store.Valid()
    modifies store
    ensures store.Valid()
    ensures old(store.Exists(CacheDirectory)) ==>
              outcome == Skipped && store.files == old(store.files) && store.dirs == old(store.dirs)
    ensures !old(store.Exists(CacheDirectory)) ==>
              store.dirs == old(store.dirs) + {CacheDirectory}
              && FillResult(outcome, store.files) == Fill(old(store.files), store.dirs, rows, 0)
    ensures store.Occupancy() <= DiskSizeLimit || old(store.Exists(CacheDirectory))
  {
    CacheDirectoryIsName();
    if store.Exists(CacheDirectory) {
      return Skipped;
    }
    MkDirMissingName(store.files, store.dirs, CacheDirectory);
    NothingUnderMissingDir(store.files, store.dirs, CacheDirectory);
    var _ := store.MkDir(CacheDirectory);
    ghost var start := store.files;
    var i := 0;
    while i < |rows|
      invariant 0 <= i <= |rows|
      invariant store.Valid() && store.dirs == old(store.dirs) + {CacheDirectory}
      invariant Fill(start, store.dirs, rows, 0) == Fill(store.files, store.dirs, rows, i)
      invariant store.Occupancy() <= DiskSizeLimit
      decreases |rows| - i
    {
      var row := rows[i];
      if row.fetched.None? {
        return Aborted(i);
      }
      var data := row.fetched.value;
      var used := store.SizeOfCacheDirectory();
      if used + |data| <= DiskSizeLimit {
        var ok := store.WriteFile(CachePath(row.article), data);
        if !ok {
          return Aborted(i);
        }
      } else {
        return OverBudget(i);
      }
      i := i + 1;
    }
    outcome := Finished;
  }

  /** The loop never takes the occupancy of the cache root past the limit it started under. */
  lemma {:induction false} FillWithinBudget(files: Files, dirs: set<string>, rows: seq<Row>, i: nat)
    requires i <= |rows|
    requires Occupied(files, CacheDirectory) <= DiskSizeLimit
    ensures Occupied(Fill(files, dirs, rows, i).files, CacheDirectory) <= DiskSizeLimit
    decreases |rows| - i
  {
    if i < |rows| && rows[i].fetched.Some? {
      var p := CachePath(rows[i].article);
      var data := rows[i].fetched.value;
      OccupiedWrite(files, CacheDirectory, p, data);
      if Occupied(files, CacheDirectory) + |data| <= DiskSizeLimit && CanWrite(dirs, p) {
        FillWithinBudget(files[p := data], dirs, rows, i + 1);
      }
    }
  }

  /** The loop only adds or overwrites the cache paths of the rows before the one it stops
      at: nothing after that row is written, every other file is left as it was, and no file
      disappears. */
  lemma {:induction false} FillOnlyTouchesPrefix(files: Files, dirs: set<string>, rows: seq<Row>, i: nat)
    requires i <= |rows|
    ensures var r := Fill(files, dirs, rows, i);
      var stop := StopRow(r.outcome, |rows|);
      files.Keys <= r.files.Keys
      && (forall p :: p in r.files && p !in files ==>
            exists j :: i <= j < stop && p == CachePath(rows[j].article))
      && (forall p :: p in files && (forall j :: i <= j < stop ==> p != CachePath(rows[j].article))
            ==> r.files[p] == files[p])
    decreases |rows| - i
  {
    if i < |rows| && rows[i].fetched.Some? {
      var p := CachePath(rows[i].article);
      var data := rows[i].fetched.value;
      if Occupied(files, CacheDirectory) + |data| <= DiskSizeLimit && CanWrite(dirs, p) {
        FillOnlyTouchesPrefix(files[p := data], dirs, rows, i + 1);
      }
    }
  }

  /** Each row the loop got past is stored with exactly the fetched body, unless a later
      stored row maps to the same cache path. */
  lemma {:induction false} StoredIsFetched(files: Files, dirs: set<string>, rows: seq<Row>, i: nat, j: nat)
    requires i <= |rows| && i <= j < StopRow(Fill(files, dirs, rows, i).outcome, |rows|)
    requires forall k :: j < k < StopRow(Fill(files, dirs, rows, i).outcome, |rows|) ==>
               CachePath(rows[k].article) != CachePath(rows[j].article)
    ensures rows[j].fetched.Some?
    ensures var r := Fill(files, dirs, rows, i).files;
      CachePath(rows[j].article) in r && r[CachePath(rows[j].article)] == rows[j].fetched.value
    decreases |rows| - i
  {
    var p := CachePath(rows[i].article);
    var data := rows[i].fetched.value;
    var next := files[p := data];
    assert Fill(files, dirs, rows, i) == Fill(next, dirs, rows, i + 1);
    if i < j {
      StoredIsFetched(next, dirs, rows, i + 1, j);
    } else {
      FillOnlyTouchesPrefix(next, dirs, rows, i + 1);
    }
  }

  /** The key keeps the article's length and letters, with every space turned into an
      underscore. */
  lemma KeyReplacesSpaces(article: string)
    ensures |Key(article)| == |article|
    ensures forall i :: 0 <= i < |article| ==>
              Key(article)[i] == if article[i] == ' ' then '_' else article[i]
    ensures ' ' !in Key(article)
    ensures '/' in Key(article) <==> '/' in article
  {
    ReplaceChar(article, ' ', '_');
  }

  /** Right after the cache root was created, the path of every non-empty article without a
      slash can be opened for writing. */
  lemma FreshPathWritable(files: Files, dirs: set<string>, article: string)
    requires WellFormed(files, dirs) && CacheDirectory !in dirs
    requires article != "" && '/' !in article
    ensures CanWrite(dirs + {CacheDirectory}, CachePath(article))
  {
    CacheDirectoryIsName();
    KeyReplacesSpaces(article);
    ChildSplit(CacheDirectory, Key(article));
    var p := CachePath(article);
    assert Under(CacheDirectory, p) by {
      assert p[..|CacheDirectory|] == CacheDirectory;
    }
    if p in dirs {
      NoDirUnderMissingDir(files, dirs, CacheDirectory, p);
    }
  }

  /** On a first start, the loop aborts only at a row whose fetch raised or whose article is
      empty or holds a slash. */
  lemma FreshAbortCause(files: Files, dirs: set<string>, rows: seq<Row>)
    requires WellFormed(files, dirs) && CacheDirectory !in dirs
    requires Fill(files, dirs + {CacheDirectory}, rows, 0).outcome.Aborted?
    ensures var row := rows[Fill(files, dirs + {CacheDirectory}, rows, 0).outcome.row];
      row.fetched.None? || row.article == "" || '/' in row.article
  {
    FillAborted(files, dirs + {CacheDirectory}, rows, 0);
    var row := rows[Fill(files, dirs + {CacheDirectory}, rows, 0).outcome.row];
    if row.article != "" && '/' !in row.article {
      FreshPathWritable(files, dirs, row.article);
    }
  }
}
