# trustix: log storage and dashboard diff requests in Dafny

This project models two small components of trustix and proves properties of them.

1. **The level-indexed log storage** (`log/storage.go`). A log lives inside one key-value
   transaction. Bucket `"log-root"` has one key per level, so its size is the number of
   levels. Bucket `"log-<level>"` holds the marshalled leaves of a level, keyed by the decimal
   leaf index. `LogStorage.Storage` is a class whose field `txn` is the transaction. Its
   methods `Size`, `LevelSize`, `Get` and `Append` are proved against the functions `RootSize`,
   `LevelSizeOf`, `GetOf` and `AppendOf` on transaction values, and the lemmas beside them
   state what the code promises.
2. **The diff-request logic of the web dashboard**
   (`contrib/ui-dashboard/trustix_dash/app.py`). This covers:
   - the page title and template context;
   - the two-entry check of the diff form;
   - Base16 decoding of the two path segments (section 8 of RFC 4648);
   - the NAR hash, store base, store prefix, NAR URL and unpack directory that
     `process_result` derives;
   - the relative slot directories handed to diffoscope;
   - the rule that any stderr output is a failure;
   - the loop that pins every walked path's times to `(1, 1)`.

Files:
- `wrappers.dfy`: `Option` and `Result`. They carry Go panics and Python exceptions as values.
- `go_fmt.dfy`: what Go's `fmt.Sprintf("%d", n)` prints, with its parse-back round trip.
- `transaction.dfy`: the storage transaction the log runs in. It is stated as assumptions,
  listed below.
- `log_storage.dfy`: the log storage.
- `py_str.dfy`: Python `str.split`, `str.join` and `posixpath.join`, `basename`, `dirname`.
- `hex.dfy`: `codecs.decode(s, "hex")`, which is `binascii.a2b_hex`.
- `dashboard.dfy`: the dashboard logic.

Assumptions about the storage transaction. The storage package is not part of this model, so
the model assumes the following:
- A transaction maps each bucket name to a bucket, and a bucket maps each key to bytes.
- `Size` of a bucket is its number of keys. It is `ObjectNotFound` when the bucket is absent.
- `Get` fails with `ObjectNotFound` when the bucket or the key is absent.
- `Set` creates a missing bucket, and adds or overwrites one key.
- Every other storage failure is modelled by a set `broken` of buckets. Every operation on a
  broken bucket fails with `IoError`.

A Go `panic` is modelled as an `Err(Panic)` result or a `Panicked` status. Changes made before
the panic stay in the transaction value. Leaf marshalling is not modelled: `Append` receives
the marshalled bytes or the marshalling error as a parameter. `Get` receives `LeafFromBytes`
as a function argument.

The dashboard unpacks the two NARs into `<tmpdir>/<store_base>/A` and
`<tmpdir>/<store_base>/B`, and diffoscope, run in `<tmpdir>`, compares the relative paths
`<store_base>/A` and `<store_base>/B`. `UnpackDir`, `RelativeDir` and `RelativeDirOfUnpackDir`
model this layout.

## Model

| member | source | states |
|---|---|---|
| GoFmt.DecimalRoundTrip | log/storage.go:60 | parsing the "%d" rendering of any int gives the int back |
| GoFmt.DecimalInjective | log/storage.go:92 | distinct ints render as distinct key strings |
| GoFmt.Decimal | log/storage.go:59-60 | "%d" of an int is non-empty, starts with '-' exactly for negative ints, has only digits otherwise, and has no leading zero except in "0" |
| LogStorage.LevelBucket | log/storage.go:59 | the bucket name of a level is "log-" followed by a rendering from which the level is read back |
| LogStorage.RootSize | log/storage.go:47-56 | Size() is the key count of "log-root"; it is 1 when that bucket is missing; any other storage error panics |
| LogStorage.LevelSizeOf | log/storage.go:35-45 | LevelSize reads bucket "log-%!d(MISSING)" for every level, because the format has no argument; it is 1 when that bucket is missing; any other storage error panics |
| LogStorage.GetOf | log/storage.go:58-72 | Get succeeds exactly when bucket "log-<level>" holds key "<idx>" and that value decodes; the result is the decoded leaf |
| LogStorage.AppendOf | log/storage.go:75-99 | Append keeps the broken buckets, removes no bucket, and creates none but "log-root" and "log-<level>"; when it completes, "log-<level>" exists |
| LogStorage.Storage.Size | log/storage.go:47-56 | returns RootSize of the current transaction and changes nothing |
| LogStorage.Storage.LevelSize | log/storage.go:35-45 | returns LevelSizeOf of the current transaction and changes nothing |
| LogStorage.Storage.Get | log/storage.go:58-72 | returns GetOf of the current transaction; it has no modifies clause, so it never changes storage |
| LogStorage.Storage.Append | log/storage.go:75-99 | the new transaction and status are AppendOf of the old one; broken buckets and every bucket other than "log-root" and "log-<level>" are unchanged |
| LogStorage.LevelBucketDistinct | log/storage.go:59 | a level bucket name is never "log-root" and never the bucket LevelSize reads |
| LogStorage.LevelBucketInjective | log/storage.go:91 | distinct levels use distinct buckets |
| LogStorage.AppendFrame | log/storage.go:75-99 | Append changes only "log-root" and "log-<level>" |
| LogStorage.AppendRootGrowth | log/storage.go:76-82 | "log-root" gains key decimal(level) with an empty value exactly when Size() == level, and is untouched otherwise; when Size() panics, nothing changes |
| LogStorage.AppendWritesLeaf | log/storage.go:84-94 | Append completes exactly when Size, marshalling, LevelSize and the level bucket all succeed; "log-<level>" then gets key decimal(LevelSize - 1) set to the leaf bytes, using the LevelSize from before the call, and keeps all its other keys |
| LogStorage.AppendThenGet | log/storage.go:89-94 | after Append completes, Get at index LevelSize - 1 returns the decoded leaf |
| LogStorage.AppendKeepsLevelSize | log/storage.go:36 | as written, no Append changes LevelSize, so every Append writes the same index |
| LogStorage.AppendOverwritesFirstLeaf | log/storage.go:89 | concrete input: level 0 holds three leaves, but LevelSize(0) is 1, and Append(0, leaf) overwrites leaf "0" |
| LogStorage.LevelSizeFixedOf | log/storage.go:35-45 | corrected LevelSize: the key count of "log-<level>", or 1 when that bucket is missing |
| LogStorage.LevelSizeFixedTracksLevel | log/storage.go:35-45 | corrected LevelSize: adding a new key to a level's bucket raises that level's size by one, and leaves every other level's size unchanged |
| PyStr.Split | contrib/ui-dashboard/trustix_dash/app.py:225 | str.split always yields at least one piece |
| PyStr.Join | contrib/ui-dashboard/trustix_dash/app.py:234 | str.join of no pieces is ""; otherwise the result starts with the first piece and, for a one-character separator, is as long as the pieces plus one separator between each pair |
| PyStr.PathJoin | contrib/ui-dashboard/trustix_dash/app.py:233 | os.path.join(a, b) ends in b, which is either the whole result or preceded by '/' |
| PyStr.Basename | contrib/ui-dashboard/trustix_dash/app.py:249 | os.path.basename is the '/'-free tail of the path, either the whole path or preceded by '/' |
| PyStr.Dirname | contrib/ui-dashboard/trustix_dash/app.py:249 | os.path.dirname is a prefix of the path, and "" for a path without '/' |
| PyStr.BasenameOfJoin | contrib/ui-dashboard/trustix_dash/app.py:233 | the basename of os.path.join(a, b) is b when b holds no '/' |
| PyStr.JoinSplit | contrib/ui-dashboard/trustix_dash/app.py:225 | joining the pieces of str.split with the separator gives the string back |
| PyStr.SplitAt | contrib/ui-dashboard/trustix_dash/app.py:234 | splitting at a separator splits the two sides independently |
| PyStr.SplitLast | contrib/ui-dashboard/trustix_dash/app.py:225 | split(sep)[-1] is the separator-free suffix that follows the last separator |
| PyStr.SplitFirst | contrib/ui-dashboard/trustix_dash/app.py:231 | split(sep)[0] is the separator-free prefix that precedes the first separator |
| PyStr.DirnameBasenameOfJoin | contrib/ui-dashboard/trustix_dash/app.py:249-250 | dirname and basename undo os.path.join of names that contain no '/' |
| PyStr.JoinNested | contrib/ui-dashboard/trustix_dash/app.py:233 | joining a name and then a child equals joining "name/child" |
| Hex.HexRoundTrip | contrib/ui-dashboard/trustix_dash/app.py:181-182 | decoding the hex encoding of any byte string returns that byte string |
| Hex.HexDecode | contrib/ui-dashboard/trustix_dash/app.py:181-182 | decoding succeeds exactly on even-length strings of hex digits, with one byte per two digits; non-ASCII input and odd length are the first two errors |
| Hex.DecodeThenEncode | contrib/ui-dashboard/trustix_dash/app.py:181-182 | encoding what was decoded gives the input back, with its letters in lower case |
| Dashboard.PageTitle | contrib/ui-dashboard/trustix_dash/app.py:83 | the title is "Trustix R13Y" for an empty title, and "Trustix R13Y -  " + title otherwise |
| Dashboard.PageTitleRoundTrip | contrib/ui-dashboard/trustix_dash/app.py:83 | the caller's title can be read back from the page title |
| Dashboard.MakeContext | contrib/ui-dashboard/trustix_dash/app.py:75-90 | the loop of ctx.update leaves the base context overridden by extra |
| Dashboard.ContextEntries | contrib/ui-dashboard/trustix_dash/app.py:81-90 | the context always has request, title and drv_placeholder; every entry of extra is present with extra's value; base entries not in extra keep their values |
| Dashboard.DiffForm | contrib/ui-dashboard/trustix_dash/app.py:162-174 | only a list of exactly two entries reaches the redirect; an empty list and a list of more than two raise ValueError; a one-entry list fails on output_hash[1] |
| Dashboard.DiffFormOneEntry | contrib/ui-dashboard/trustix_dash/app.py:165-172 | one entry gives an IndexError as written, and the "at least 2 entries" error when corrected |
| Dashboard.DiffFormFixed | contrib/ui-dashboard/trustix_dash/app.py:165-166 | corrected guard: fewer than two entries is the "at least 2" error, more than two is the "more than 2" error, and exactly two redirects |
| Dashboard.DecodeSegments | contrib/ui-dashboard/trustix_dash/app.py:181-182 | both segments are decoded, the first one's error is reported first, and the decoded hashes encode back to the segments in lower case |
| Dashboard.DecodeSegmentsRoundTrip | contrib/ui-dashboard/trustix_dash/app.py:181-182 | path segments that encode two hashes decode to those hashes |
| Dashboard.NarHash | contrib/ui-dashboard/trustix_dash/app.py:225 | the NAR hash is the text after the last ':' of narHash and contains no ':' |
| Dashboard.StoreBase | contrib/ui-dashboard/trustix_dash/app.py:230 | store_path.split("/")[-1] is os.path.basename(store_path) |
| Dashboard.StorePrefix | contrib/ui-dashboard/trustix_dash/app.py:231 | the store prefix is the text before the first '-' of the store base and contains neither '-' nor '/' |
| Dashboard.NarUrl | contrib/ui-dashboard/trustix_dash/app.py:234 | the URL is proxy + "/nar/" + store_prefix + "/" + nar_hash |
| Dashboard.UnpackDir | contrib/ui-dashboard/trustix_dash/app.py:233 | the unpack directory ends in outbase, which is the whole path or preceded by '/' |
| Dashboard.ProcessResult | contrib/ui-dashboard/trustix_dash/app.py:220-240 | the NAR URL is proxy + "/nar/" + store_prefix + "/" + nar_hash, and the unpack directory's basename is outbase |
| Dashboard.NarUrlComponents | contrib/ui-dashboard/trustix_dash/app.py:225-234 | when the NAR hash holds no '/', the URL splits into the proxy's components, then "nar", the store prefix and the NAR hash |
| Dashboard.RelativeDir | contrib/ui-dashboard/trustix_dash/app.py:249-250 | the relative slot directory ends in the slot, and is the slot alone for a directory without '/' |
| Dashboard.RelativeDirOfUnpackDir | contrib/ui-dashboard/trustix_dash/app.py:233-250 | with a non-empty store base, the relative dir is store_base + "/A" (or "/B"); joined onto tmpdir it is the unpack dir again |
| Dashboard.SlotsDisjoint | contrib/ui-dashboard/trustix_dash/app.py:243-247 | for non-empty store bases without '/', as StoreBase yields, the two slot directories differ and neither lies inside the other |
| Dashboard.ClassifyDiff | contrib/ui-dashboard/trustix_dash/app.py:260-265 | the result is an error, carrying stderr, exactly when stderr is non-empty; otherwise it is stdout unchanged; the exit code is not an input, as the code never reads it |
| Dashboard.PinTimes | contrib/ui-dashboard/trustix_dash/app.py:211-218 | after the loop, location and every walked path have times (1, 1) and no path is added or removed; a vanished path stops the loop with FileNotFoundError, and paths outside the walk are never touched |
| Dashboard.PinAll | contrib/ui-dashboard/trustix_dash/app.py:211-218 | pinning keeps every path, sets each pinned path's times to (1, 1), and leaves every other path's times unchanged |
| Dashboard.PinAllIdempotent | contrib/ui-dashboard/trustix_dash/app.py:211-218 | pinning the same paths twice changes nothing more |
| Dashboard.PinAllForgetsTimes | contrib/ui-dashboard/trustix_dash/app.py:211-218 | two trees that differ only in the times of the pinned paths are identical after pinning |

## Left out

- Leaf.Marshal and LeafFromBytes: not modelled. They come in as a parameter and a function argument. No marshal/unmarshal round trip is assumed.
- The storage package's transaction implementation: replaced by the assumptions listed above.
- LogStorage.Storage.Append: Go's 64-bit int is modelled as an unbounded int. LevelSize - 1 cannot overflow for any bucket size a transaction can hold.
- Go panics: modelled as error values. Whether the caller rolls back the transaction after a panic is not modelled.
- FastAPI app setup, static files, templates, startup and shutdown hooks, and the index, attr, drv, search, search_form and suggest routes: framework glue and calls into modules not shown here.
- Dashboard.DiffForm: returns the two hashes of the redirect. It does not model Starlette's url_path_for rendering of the route.
- The RPC GetValue call, the JSON parsing of the narinfo and the awaiting of result.output: narHash and store_path are inputs.
- The streaming HTTP download, the nix-nar-unpack subprocess, the 512-byte chunk writes, the 0.5 s wait timeout, and the mkdir of the slot's parent: network and process I/O.
- asyncio.gather, run_in_executor, create_subprocess_shell and the shlex quoting of the diffoscope command line: concurrency and process lifecycle.
- TemporaryDirectory creation and cleanup: library-managed filesystem state. tmpdir is an input.
- Dashboard.PinTimes: the os.walk output is a parameter (its dirpath, dirnames, filenames triples), and the filesystem is a map from path to (atime, mtime). It does not model symlinks, permissions or how os.walk orders or discovers entries.
- Dashboard.MakeContext: Python dicts keep insertion order; the model's map does not. Request objects and other context values are opaque handles.

## Findings

| source | as written | input that shows it | evidently intended | confidence | as-written member | corrected member |
|---|---|---|---|---|---|---|
| log/storage.go:36 | `fmt.Sprintf("log-%d")` has no argument, so LevelSize always reads bucket "log-%!d(MISSING)" | level 0 whose bucket "log-0" holds keys "0", "1", "2": LevelSize(0) is 1, and Append(0, leaf) overwrites leaf "0" | `fmt.Sprintf("log-%d", level)`, the size of bucket "log-<level>" | high (go vet flags the missing argument); not executed. The corrected format alone still writes at LevelSize - 1, the last existing index: on this input it overwrites leaf "2" instead of "0" | LogStorage.AppendOverwritesFirstLeaf | LogStorage.LevelSizeFixedTracksLevel |
| contrib/ui-dashboard/trustix_dash/app.py:165 | the guard is `len(output_hash) < 1`, but its message says "Need at least 2 entries to diff" | a one-entry list: it passes both checks and fails with IndexError at `output_hash[1]` | `len(output_hash) < 2`, which raises the ValueError | medium; not executed | Dashboard.DiffFormOneEntry | Dashboard.DiffFormFixed |

The model uses the code as written: `Append` calls the as-written LevelSize, and `DiffForm` has
the as-written guard. The corrected members stand beside them.
