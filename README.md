# Verified model of the CDN replica's cache core

This project models the disk-cache core of a small CDN replica written in Python. The model
covers:

- the start-up script, which fills the cache with popular articles within a 20 MB budget;
- the HTTP replica's `do_GET`, which serves a request from the disk cache or fetches it from
  the origin and stores it;
- the disk helpers both of them use. These appear twice, in utils.py and
  http_server_utils.py, and are modelled once, as the `DiskStore.Store` class.
- two routines of the DNS side:
  - the parsing of scamper's RTT summary line;
  - the memoised geolocation lookup behind `get_dist_between`.

Modules, in dependency order:

- `Wrappers`: `Option`.
- `Text`: Python's `str.split`, `str.join`, `str.replace` and `str.strip` on `seq<char>`,
  with the `isspace` character set.
- `Paths`: `os.path.split` as `posixpath` computes it (`Head`, `Tail`). Also "lies under a
  directory at any depth", which is what `os.walk` reaches, and the chain of directories
  `os.makedirs` creates.
- `DiskStore`: class `Store`, whose fields are a map of byte files and a set of directories.
  Its methods are the disk helpers. The ghost `Occupancy` is the sum of file sizes under
  `bitbusters_cache`.
- `Rtt`: the parsing half of `get_rtt`.
- `Geo`: class `GeoCache`, holding `GEO_DATA`, with `get_geo_ip` and `get_dist_between`.
- `PopulateCache`: `main` of populate_cache.py as a loop over the CSV rows. It is specified
  by the ghost function `Fill`.
- `HttpServer`: `do_GET`. `DoGetAsWritten` follows the code as written and `DoGet` the
  corrected version (see Findings).

The OS and network are inputs to the model:

- the origin's answers, scamper's output and ip-api.com's replies;
- clock readings and file modification times;
- whether bytes decode as UTF-8;
- whether `float` accepts a field;
- the haversine computation.

Points where the code does something other than its comments or its description say. The
model follows the code each time.

- `find_recently_modified_files`:
  - Its docstring says "descending (oldest file to youngest file)".
  - The code sorts with `reverse=False`, oldest first.
  - The model returns the files oldest first. Files with equal modification times come out
    in an unspecified order.
- `get_rtt`:
  - `stats.split(" = ")[1]` is the piece between the first and the second `" = "`, not all
    the text after the first one.
  - White space is Python's `isspace` set.
- `os.path.split`:
  - It strips every trailing slash from the head, unless the head is made only of slashes.
  - So head + `/` + tail rebuilds the key only when the last slash stands alone and has
    something before it (`Paths.SplitRebuild`).
  - A key such as `a//b` splits into `a` and `b`.
- `get_geo_ip`:
  - A memo hit whose time stamp exceeds 3600 calls `GEO_DATA.pop(ts)` with the time stamp
    as key. That raises `KeyError`, and the distance becomes infinite.
  - Every real `time.time()` exceeds 3600, so a looked-up address is in effect never served
    from the memo again (`Geo.RepeatLookupRaises`).
  - For the same reason, the distance from a new address to itself is infinite
    (`Geo.SameAddressIsInfinite`).

## Model

| member | source | states |
|---|---|---|
| `DiskStore.Store.SizeOfCacheDirectory` | utils.py:14-25 | the result is the sum of the sizes of every file at any depth under `bitbusters_cache`, the ghost `Occupied` (duplicate at http_server_utils.py:18-28) |
| `DiskStore.SumOverRemove` | utils.py:21-25 | the total size splits into one file's size plus the rest, whichever file is taken first |
| `DiskStore.OccupiedDelete` | utils.py:38-45 | removing a file lowers the occupancy by exactly its size if it lies under the root, otherwise not at all |
| `DiskStore.OccupiedWrite` | populate_cache.py:22-24 | writing a file under the root replaces its old size with the new one in the occupancy; writing elsewhere leaves it |
| `DiskStore.Store.DoesFileExist` | http_server_utils.py:6-15 | `does_file_exist(p)` is `os.path.isfile(p)`: true for a file called `p`; in a well-formed store a directory never counts, and a file found also exists for `os.path.exists` |
| `DiskStore.Store.DeleteFile` | http_server_utils.py:41-48 | `os.remove(p)`: succeeds exactly when `p` is a file; afterwards it is gone, every other file and every directory is unchanged, and the occupancy drops by its size (duplicate at utils.py:38-45) |
| `DiskStore.Store.Exists` | populate_cache.py:13 | `os.path.exists(p)`: a name without a trailing slash exists as a file or a directory; a name with one exists only as a directory |
| `DiskStore.Store.MkDir` | http_server_utils.py:51-61 | `mk_dir(d)`: nothing happens when `os.path.exists(d)` holds (a directory `d`, trailing slashes aside, or a file named exactly `d`; `"f/"` with `f` a file does not exist); otherwise `makedirs` adds `d` and its missing parents, or raises when the name is empty or a needed directory is a file; files never change and the store stays well formed (duplicate at utils.py:48-58) |
| `DiskStore.MkDirCreates` | utils.py:57-58 | after a `mk_dir` that did not raise, `os.path.exists(d)` holds, and `d` is a directory unless a file has exactly that name |
| `DiskStore.MkDirMissingName` | populate_cache.py:13-14 | `makedirs` of a single missing name succeeds and creates exactly that directory |
| `DiskStore.MkDirIdempotent` | http_server_utils.py:60-61 | a second `mk_dir` of the same name changes nothing more |
| `DiskStore.MkDirKeepsWellFormed` | utils.py:57-58 | the directories `makedirs` creates keep every file and directory inside an existing directory |
| `DiskStore.NothingUnderMissingDir` | populate_cache.py:13-14 | a root that is not a directory holds no file at any depth, so a freshly created cache is empty (occupancy 0) |
| `DiskStore.Store.WriteFile` | populate_cache.py:22-24 | `open(p, 'wb').write(data)`: succeeds exactly when `p`'s tail is non-empty, `p` is not a directory, and its head is empty (the working directory) or an existing directory; afterwards `p` holds exactly `data` and no other file changes; the occupancy changes by the size difference |
| `DiskStore.Store.FindRecentlyModifiedFiles` | utils.py:61-82 | every file under the root exactly once, each with its own size and full content, ordered by modification time ascending (oldest first) |
| `DiskStore.InsertByTime` | utils.py:80 | one step of `file_list.sort` by modification time: the result holds the records of the list plus the new one, each as often as before (a permutation) |
| `DiskStore.InsertByTimeMembers` | utils.py:80 | one insertion step of the sort adds exactly one record and loses none |
| `DiskStore.InsertByTimeSorted` | utils.py:80 | an insertion step keeps the list ordered by modification time |
| `DiskStore.InsertByTimeNoDup` | utils.py:80 | an insertion step keeps every path listed once |
| `Paths.Split` | httpserver.py:90 | `os.path.split(p)`: the head is a prefix and the tail a suffix of `p`, together no longer than `p`; the tail holds no `/`; a path without `/` splits into `""` and itself |
| `Paths.TailHasNoSlash` | httpserver.py:90 | the tail of `os.path.split` holds no `/`; a key without `/` has an empty head and is its own tail |
| `Paths.SplitShape` | httpserver.py:90 | head, the slashes of the split point and the tail rebuild the key; the head is non-empty when the key has a `/` |
| `Paths.SplitRebuild` | httpserver.py:90 | head + `/` + tail is the key when its last slash is single and preceded by something |
| `Paths.HeadUnder` | utils.py:71-73 | the head of a path under the root is the root or again under it, and shorter |
| `Paths.AncestorsNonEmpty` | utils.py:58 | `makedirs` of a non-empty name never creates an entry with an empty name |
| `Paths.AncestorsClosed` | utils.py:58 | the directories `makedirs` creates are closed under taking the head |
| `Paths.ChildSplit` | httpserver.py:90-93 | `root/name` splits back into `root` and `name` |
| `Text.JoinSplit` | utils.py:200 | `sep.join(s.split(sep)) == s`, the identity behind `str.replace` |
| `Text.SplitOn` | utils.py:200 | `str.split(sep)` gives at least one piece and no piece holds the separator |
| `Text.ReplaceChar` | populate_cache.py:18 | `s.replace(a, b)` for single characters keeps the length and maps each `a` to `b`, leaving every other character |
| `Text.StripPadded` | utils.py:200 | `strip()` removes exactly the surrounding white space of a padded core |
| `Rtt.ParseRtt` | utils.py:196-204 | a result is produced only for non-empty output holding `" = "`, and it is a slash-free field `float` accepts |
| `Rtt.NoEqualsIsInfinite` | utils.py:199-204 | output without `" = "` gives the sentinel |
| `Rtt.SentinelCases` | utils.py:199-204 | empty output, a single `" = "`-piece, or anything but four fields give the sentinel |
| `Rtt.ScamperLine` | utils.py:200-201 | a scamper summary line `prefix = a/b/c/d ms` with trailing white space yields its second field `b` exactly when `float` accepts it |
| `Geo.LookupOf` | utils.py:141-153 | a memo hit returns the stored entry, or raises when its time stamp exceeds 3600; on a miss, a `'success'` reply with both coordinates gives exactly those coordinates and the clock reading, a `'success'` reply missing one raises, any other status gives `None`, and a failed fetch raises |
| `Geo.StoreAfter` | utils.py:149-153 | on a miss, a `'success'` reply with both coordinates stores them with the clock reading at the URL; every other case leaves the memo as it was |
| `Geo.GeoCache.GetGeoIp` | utils.py:141-153 | `get_geo_ip(url)` returns `LookupOf` of the memo and leaves the memo as `StoreAfter` says |
| `Geo.GeoCache.GetDistBetween` | utils.py:139-184 | `get_dist_between` returns `DistanceOf` and leaves the memo as `StoreAfterDistance` says |
| `Geo.DistanceOf` | utils.py:155-184 | the distance `get_dist_between` returns: infinite when the first lookup does not locate its address; a finite distance only when both lookups located theirs and is then the haversine value of their coordinates |
| `Geo.StoreAfterDistance` | utils.py:155-167 | the memo after `get_dist_between`: it keeps every entry, adds at most the two URLs, and is unchanged when the first lookup fails |
| `Geo.StoreOnlyGrows` | utils.py:142-153 | a lookup never removes or alters an entry and adds at most its own URL |
| `Geo.StoredIsReturned` | utils.py:150-152 | after a lookup the URL is memoised exactly when it was before or the lookup located it, and then with what was returned |
| `Geo.HitIgnoresNetwork` | utils.py:142-146 | a memoised URL is answered without the network or the clock and leaves the memo unchanged |
| `Geo.RepeatLookupRaises` | utils.py:144-151 | after a successful fetch at a clock reading past 3600, every later lookup of that URL raises |
| `Geo.FiniteExactly` | utils.py:155-184 | the distance is finite exactly when both lookups located their address and the haversine step did not raise, and is then that step's value |
| `Geo.SameAddressIsInfinite` | utils.py:155-184 | the distance from a new address to itself, fetched at a real clock reading, is infinite |
| `Geo.CachedDistance` | utils.py:142-146 | two memoised entries stamped at most 3600 give the haversine value of their coordinates and leave the memo |
| `Geo.FirstFailureShortCircuits` | utils.py:157-159 | when the first lookup fails the distance is infinite, the second address is never looked up and the memo is unchanged |
| `PopulateCache.Populate` | populate_cache.py:13-27 | an existing cache root means nothing changes; otherwise the root is created and the files end as `Fill` from the empty cache says, within the 20000000-byte budget |
| `PopulateCache.Fill` | populate_cache.py:17-27 | the loop stops at a row, or finishes after the last one |
| `PopulateCache.FillRowStored` | populate_cache.py:19-25 | every row before the stop was fetched and its cache path could be written |
| `PopulateCache.FillOverBudget` | populate_cache.py:21-27 | the loop breaks exactly at a row whose body would push the occupancy past 20000000 |
| `PopulateCache.FillStoredFit` | populate_cache.py:19-24 | every row before the stop passed the budget test: its body plus the occupancy the earlier rows left is at most 20000000, so the first body that does not fit ends the loop |
| `PopulateCache.FillAborted` | populate_cache.py:19-22 | an abort happens at a row whose fetch raised or whose file could not be opened |
| `PopulateCache.FillWithinBudget` | populate_cache.py:21-25 | the occupancy never exceeds `DISK_SIZE_LIMIT` = 20000000 once it starts within it |
| `PopulateCache.FillOnlyTouchesPrefix` | populate_cache.py:17-27 | only cache paths of rows before the stop are written; every other file is unchanged and none disappears |
| `PopulateCache.StoredIsFetched` | populate_cache.py:20-24 | each stored row's cache path holds exactly the fetched body, unless a later stored row has the same path |
| `PopulateCache.Key` | populate_cache.py:18 | `article.replace(' ', '_')`: the key is as long as the article and holds no space |
| `PopulateCache.KeyReplacesSpaces` | populate_cache.py:18 | the key is the article with every space turned into `_` and nothing else changed |
| `PopulateCache.FreshPathWritable` | populate_cache.py:14-22 | right after the root is created, a non-empty article without `/` can be written |
| `PopulateCache.FreshAbortCause` | populate_cache.py:19-22 | on first start the loop aborts only at a fetch that raised or an article that is empty or holds `/` |
| `HttpServer.RequestKey` | httpserver.py:51 | the key is the request path with its first character dropped |
| `HttpServer.CacheFileUnder` | httpserver.py:93 | the path looked up and written is under the cache root |
| `HttpServer.DoGetAsWritten` | httpserver.py:40-105 | a hit sends the stored bytes with 200, without the origin; a miss with a failed or undecodable fetch sends 400; a fetched miss forwards the origin's status and body, then sends 400, and stores nothing |
| `HttpServer.RepeatedMissAsWritten` | httpserver.py:63-105 | as written, a path that missed misses again and gets the same two responses |
| `HttpServer.DoGet` | httpserver.py:40-105 | as `DoGetAsWritten` on a hit or a failed fetch; a fetched miss forwards the origin's reply, and if it fits the budget it runs `mk_dir` on the key's head under the root and writes the body under the key, adding a 400 when either raises; the occupancy stays within 20000000 |
| `HttpServer.ServeFetched` | httpserver.py:63-96 | an answered miss forwards the origin's reply; a body over the budget is served without being stored; otherwise the store changes as `mk_dir` and the write define and a 400 follows where either raises; the occupancy stays within 20000000 |
| `HttpServer.StoreBody` | httpserver.py:90-96 | `mk_dir` of the head's directory, then the write of exactly the body at the key's path, each as the store defines them |
| `HttpServer.MissThenHit` | httpserver.py:51-96 | with the corrected budget test, a top-level key that misses and fits is stored, and the next request hits and gets the origin's body with 200 |
| `HttpServer.TopLevelKeyWritable` | httpserver.py:90-93 | for a key without `/` the directory made is the cache root itself, and the cache file can be opened |

## Left out

- Network, processes and clocks are not modelled: `urlopen`, `os.popen("scamper ...")`,
  `socket.gethostbyname`, `time.time()` and `os.path.getmtime`. Their results are
  parameters of the operations that use them.
- `get_current_directory` (`os.getcwd`) is left out. Paths are relative to the working
  directory, and the `f'{current_directory}/...'` path at httpserver.py:53 is taken to name
  the same file as the relative one.
- Rtt.ParseRtt: `float(avg)` is the predicate `floatOk`. The result is the text of the
  field, not a number.
- Geo.DistanceOf: the haversine arithmetic (utils.py:170-179) is an uninterpreted
  parameter, because it is floating-point trigonometry. So no symmetry or bound on
  distances is stated.
- DiskStore.Store.FindRecentlyModifiedFiles: the order of files with equal modification
  times is not stated, because the order `os.walk` visits entries in is not modelled.
- Geo.LookupOf: the JSON decoding is not modelled. A reply is the decoded object's
  `status`, `lat` and `lon`. A body that is not JSON, and a decoded object without a
  `status` key (where `data['status']` raises `KeyError` at utils.py:149), are both passed
  in as `None`, a raised fetch.
- `get_rtt_from_http`, `is_valid_ip` and `get_server_ip_address` are left out. They are a
  network call and wrappers of the `ipaddress` and `socket` libraries.
- `process_monitor` is left out. It is a retry loop that never ends and has no result to
  state.
- Not modelled: the server plumbing (`TCPServer`, `argparse`, `_send_information_over`'s
  headers, the `main` functions' start-up), the `HTTPCache` import, and reading
  pageviews.csv. That file's rows are the input `rows`, and missing or malformed CSV files
  are not modelled.
- HttpServer.DoGet: text-mode reading on a hit is taken as handing back the stored bytes.
  Universal-newline translation (`\r\n` read as `\n`) is not modelled. `decodes` only
  says whether UTF-8 decoding succeeds, and a successfully decoded body is re-encoded to
  the same bytes.
- HttpServer.DoGet: the body of the eviction loop at httpserver.py:77-86 is an empty todo,
  and the corrected model evicts nothing. A body that does not fit is served without being
  stored.
- HttpServer.MissThenHit: has been proved only for keys without a `/`, where the
  directory made is the cache root itself. Keys with sub-directories are covered only by
  `DoGet`'s general contract.
- Path names are plain strings: `.` and `..` segments are not resolved, and repeated
  slashes only count where `os.path.split` itself strips them.
- Permissions, disk-full errors and file-system concurrency between the two processes are
  not modelled.

## Findings

| source | as written | input that shows it | evidently intended | confidence | as-written member | corrected member |
|---|---|---|---|---|---|---|
| httpserver.py:77 | `size_of_cache_directory() + headers['Content-Length']` adds an integer to a header value, which is a string (or `None` when the header is absent). This raises `TypeError`, the `except` at line 101 sends a 400 after the origin's reply was already sent, and lines 90-96 never run | any request that misses the cache and that the origin answers, e.g. `GET /Main_Page` on an empty cache: the handler writes a 400 status line after the origin's reply; the next request for the same path misses again | compare the occupancy plus the body length, as integers, with `DISK_SIZE_LIMIT`, then store the body under the key, so the next request is a hit | high (not executed) | `HttpServer.DoGetAsWritten`, `HttpServer.RepeatedMissAsWritten` | `HttpServer.DoGet`, `HttpServer.MissThenHit` |
