/** The diff-request logic of the dashboard (contrib/ui-dashboard/trustix_dash/app.py): page
    context, the diff form check, decoding of the two hex path segments, the derivations of
    process_result, the relative slot directories handed to diffoscope, the stderr rule that
    classifies its result, and the timestamp pinning after unpacking. Network, subprocess and
    filesystem effects are not modelled: their inputs and outputs are parameters. */
module Dashboard {
  import opened Wrappers
  import opened PyStr
  import Hex

  type Bytes = seq<bv8>

  // ---------------------------------------------------------------- make_context

  const Brand: string := "Trustix R13Y"

  /** The page title: "Trustix R13Y" + " ".join((" - ", title)) when title is non-empty. */
  function PageTitle(title: string): (r: string)
    ensures title == "" ==> r == Brand
    ensures title != "" ==> r == Brand + " -  " + title
  {
    var parts := [" - ", title];
    assert parts[1..] == [title];
    assert Join(" ", parts) == " - " + " " + title;
    assert " - " + " " + title == " -  " + title;
    Brand + (if title != "" then Join(" ", parts) else "")
  }

  /** Reads the caller's title back out of a page title. */
  function TitleOf(pageTitle: string): string
  {
    if |pageTitle| >= |Brand + " -  "| && pageTitle[..|Brand + " -  "|] == Brand + " -  "
    then pageTitle[|Brand + " -  "|..]
    else ""
  }

  /** Distinct titles give distinct page titles. */
  lemma PageTitleRoundTrip(title: string)
    ensures TitleOf(PageTitle(title)) == title
  {
    if title != "" {
      var r := PageTitle(title);
      assert r[..|Brand + " -  "|] == Brand + " -  ";
      assert r[|Brand + " -  "|..] == title;
    }
  }

  /** A context value: the request object, a string, or any other object passed in extra. */
  datatype Value = RequestObject(id: nat) | Text(s: string) | Object(id: nat)

  function BaseContext(request: Value, title: string, placeholder: Value): map<string, Value>
  {
    map["request" := request, "title" := Text(PageTitle(title)), "drv_placeholder" := placeholder]
  }

  /** make_context: the three base entries, then ctx.update(extra) when extra is truthy
      (present and non-empty): every entry of extra is added, replacing a base entry of the
      same key, and no base entry is removed. */
  method MakeContext(request: Value, title: string, placeholder: Value, extra: Option<map<string, Value>>)
    returns (ctx: map<string, Value>)
    ensures extra.None? ==> ctx == BaseContext(request, title, placeholder)
    ensures extra.Some? ==> ctx == BaseContext(request, title, placeholder) + extra.value
  {
    ctx := BaseContext(request, title, placeholder);
    if extra.Some? && |extra.value| > 0 {
      ghost var base := ctx;
      var updates := extra.value;
      var pending := updates.Keys;
      while pending != {}
        invariant pending <= updates.Keys
        invariant ctx == base + map k | k in updates && k !in pending :: updates[k]
        decreases pending
      {
        var k :| k in pending;
        ctx := ctx[k := updates[k]];
        pending := pending - {k};
      }
      assert (map k | k in updates && k !in pending :: updates[k]) == updates;
    } else if extra.Some? {
      assert extra.value == map[];
    }
  }

  /** What the context holds: the keys "request", "title" and "drv_placeholder" always, every
      key of extra with extra's value, and the base entries extra does not override. */
  lemma ContextEntries(request: Value, title: string, placeholder: Value, extra: map<string, Value>)
    ensures var ctx := BaseContext(request, title, placeholder) + extra;
            && ctx.Keys == {"request", "title", "drv_placeholder"} + extra.Keys
            && (forall k :: k in extra ==> ctx[k] == extra[k])
            && ("title" !in extra ==> ctx["title"] == Text(PageTitle(title)))
            && ("request" !in extra ==> ctx["request"] == request)
            && ("drv_placeholder" !in extra ==> ctx["drv_placeholder"] == placeholder)
  {
  }

  // ---------------------------------------------------------------- diff_form

  /** ValueError("Need at least 2 entries to diff"), ValueError("Received more than 2 entries
      to diff"), and the IndexError of output_hash[1] on a one-entry list. */
  datatype FormError = TooFewEntries | TooManyEntries | MissingSecondEntry

  /** diff_form: the two hex hashes the redirect to the diff route carries. */
  function DiffForm(outputHash: seq<string>): (r: Result<(string, string), FormError>)
    ensures r.Ok? <==> |outputHash| == 2
    ensures r.Ok? ==> r.value == (outputHash[0], outputHash[1])
    ensures |outputHash| == 0 ==> r == Err(TooFewEntries)
    ensures |outputHash| == 1 ==> r == Err(MissingSecondEntry)
    ensures |outputHash| > 2 ==> r == Err(TooManyEntries)
  {
    if |outputHash| < 1 then Err(TooFewEntries)
    else if |outputHash| > 2 then Err(TooManyEntries)
    else if |outputHash| < 2 then Err(MissingSecondEntry)
    else Ok((outputHash[0], outputHash[1]))
  }

  /** An input that shows the guard's off-by-one: a single entry passes both length checks
      and fails only when the second entry is read, with an IndexError instead of the
      "Need at least 2 entries to diff" error. */
  lemma DiffFormOneEntry(h: string)
    ensures DiffForm([h]) == Err(MissingSecondEntry)
    ensures DiffFormFixed([h]) == Err(TooFewEntries)
  {
  }

  /** diff_form with the guard its message describes (fewer than 2 entries). */
  function DiffFormFixed(outputHash: seq<string>): (r: Result<(string, string), FormError>)
    ensures r.Ok? <==> |outputHash| == 2
    ensures r.Ok? ==> r.value == (outputHash[0], outputHash[1])
    ensures r == Err(TooFewEntries) <==> |outputHash| < 2
    ensures r == Err(TooManyEntries) <==> |outputHash| > 2
    ensures r != Err(MissingSecondEntry)
  {
    if |outputHash| < 2 then Err(TooFewEntries)
    else if |outputHash| > 2 then Err(TooManyEntries)
    else Ok((outputHash[0], outputHash[1]))
  }

  // ---------------------------------------------------------------- diff: path segments

  /** codecs.decode of both path segments, the first one first: it succeeds exactly when both
      segments decode, an error in the first segment is the one reported, and the decoded
      hashes encode back to the segments in lower case. */
  function DecodeSegments(hex1: string, hex2: string): (r: Result<(Bytes, Bytes), Hex.HexError>)
    ensures r.Ok? <==> Hex.HexDecode(hex1).Ok? && Hex.HexDecode(hex2).Ok?
    ensures Hex.HexDecode(hex1).Err? ==> r == Err(Hex.HexDecode(hex1).error)
    ensures r.Ok? ==> Hex.HexEncode(r.value.0) == Hex.LowerAll(hex1) && Hex.HexEncode(r.value.1) == Hex.LowerAll(hex2)
  {
    match Hex.HexDecode(hex1)
    case Err(e) => Err(e)
    case Ok(h1) =>
      match Hex.HexDecode(hex2)
      case Err(e) => Err(e)
      case Ok(h2) =>
        Hex.DecodeThenEncode(hex1);
        Hex.DecodeThenEncode(hex2);
        Ok((h1, h2))
  }

  /** The segments of a redirect built from two encoded hashes decode to those hashes. */
  lemma DecodeSegmentsRoundTrip(h1: Bytes, h2: Bytes)
    ensures DecodeSegments(Hex.HexEncode(h1), Hex.HexEncode(h2)) == Ok((h1, h2))
  {
    Hex.HexRoundTrip(h1);
    Hex.HexRoundTrip(h2);
  }

  // ---------------------------------------------------------------- process_result

  /** narinfo["narHash"].split(":")[-1]: the text after the last ':'. */
  function NarHash(narHashField: string): (h: string)
    ensures ':' !in h
    ensures |h| <= |narHashField| && narHashField[|narHashField| - |h|..] == h
    ensures |h| == |narHashField| || narHashField[|narHashField| - |h| - 1] == ':'
  {
    SplitLast(narHashField, ':');
    Last(Split(narHashField, ':'))
  }

  /** output.store_path.split("/")[-1]: the last path component, which is what
      os.path.basename gives for the same path. */
  function StoreBase(storePath: string): (b: string)
    ensures b == Basename(storePath)
  {
    SplitLast(storePath, '/');
    var b := Last(Split(storePath, '/'));
    NoSlashSuffix(storePath, b);
    b
  }

  /** store_base.split("-")[0]: the text before the first '-'. */
  function StorePrefix(storeBase: string): (p: string)
    ensures '-' !in p
    ensures '/' !in storeBase ==> '/' !in p
    ensures |p| <= |storeBase| && storeBase[..|p|] == p
    ensures |p| == |storeBase| || storeBase[|p|] == '-'
  {
    SplitFirst(storeBase, '-');
    Split(storeBase, '-')[0]
  }

  /** "/".join((binary_cache_proxy, "nar", store_prefix, nar_hash)). */
  function NarUrl(proxy: string, storePrefix: string, narHash: string): (url: string)
    ensures url == proxy + "/nar/" + storePrefix + "/" + narHash
  {
    var parts := [proxy, "nar", storePrefix, narHash];
    assert parts[1..] == ["nar", storePrefix, narHash];
    assert parts[1..][1..] == [storePrefix, narHash];
    assert parts[1..][1..][1..] == [narHash];
    assert Join("/", parts[1..][1..]) == storePrefix + "/" + narHash;
    assert Join("/", parts[1..]) == "nar" + "/" + (storePrefix + "/" + narHash);
    assert Join("/", parts) == proxy + "/" + ("nar" + "/" + (storePrefix + "/" + narHash));
    assert proxy + "/" + ("nar" + "/" + (storePrefix + "/" + narHash)) == proxy + "/nar/" + storePrefix + "/" + narHash;
    Join("/", parts)
  }

  /** os.path.join(tmpdir, store_base, outbase): a path whose last component is outbase,
      either the whole path or preceded by '/'. */
  function UnpackDir(tmpdir: string, storeBase: string, outbase: string): (d: string)
    ensures |outbase| <= |d| && d[|d| - |outbase|..] == outbase
    ensures |outbase| == |d| || d[|d| - |outbase| - 1] == '/'
  {
    PathJoin(PathJoin(tmpdir, storeBase), outbase)
  }

  datatype NarJob = NarJob(url: string, unpackDir: string)

  /** What process_result computes from the narinfo's narHash and the output's store path
      before it hands the URL and directory to fetch_unpack_nar: the URL of the NAR under the
      proxy, and a directory whose last component is outbase. */
  function ProcessResult(proxy: string, narHashField: string, storePath: string, tmpdir: string, outbase: string): (job: NarJob)
    ensures job.url == proxy + "/nar/" + StorePrefix(StoreBase(storePath)) + "/" + NarHash(narHashField)
    ensures '/' !in outbase ==> Basename(job.unpackDir) == outbase
  {
    var storeBase := StoreBase(storePath);
    var job := NarJob(NarUrl(proxy, StorePrefix(storeBase), NarHash(narHashField)), UnpackDir(tmpdir, storeBase, outbase));
    if '/' !in outbase then BasenameOfJoin(PathJoin(tmpdir, storeBase), outbase); job else job
  }

  /** The URL's last two '/'-components are the store prefix and the NAR hash, after the
      proxy's own components and "nar" (when the hash holds no '/'). */
  lemma NarUrlComponents(proxy: string, narHashField: string, storePath: string, tmpdir: string, outbase: string)
    requires '/' !in NarHash(narHashField)
    ensures var prefix := StorePrefix(StoreBase(storePath));
            Split(ProcessResult(proxy, narHashField, storePath, tmpdir, outbase).url, '/')
            == Split(proxy, '/') + ["nar", prefix, NarHash(narHashField)]
  {
    var prefix := StorePrefix(StoreBase(storePath));
    assert '/' !in prefix;
    UrlPieces(proxy, prefix, NarHash(narHashField));
  }

  lemma UrlPieces(proxy: string, prefix: string, hash: string)
    requires '/' !in prefix && '/' !in hash
    ensures Split(proxy + "/nar/" + prefix + "/" + hash, '/') == Split(proxy, '/') + ["nar", prefix, hash]
  {
    var url := proxy + "/nar/" + prefix + "/" + hash;
    assert url == proxy + ['/'] + ("nar" + ['/'] + (prefix + ['/'] + hash));
    SplitAt(proxy, "nar" + ['/'] + (prefix + ['/'] + hash), '/');
    SplitAt("nar", prefix + ['/'] + hash, '/');
    SplitAt(prefix, hash, '/');
    SplitSingle("nar", '/');
    SplitSingle(prefix, '/');
    SplitSingle(hash, '/');
    JoinSplit("nar", '/');
    JoinSplit(prefix, '/');
    JoinSplit(hash, '/');
  }

  // ---------------------------------------------------------------- diff: relative slots

  /** os.path.join(os.path.basename(os.path.dirname(dir)), slot): it ends in slot, and for a
      bare name (no '/') it is the slot alone. */
  function RelativeDir(dir: string, slot: string): (r: string)
    ensures |slot| <= |r| && r[|r| - |slot|..] == slot
    ensures '/' !in dir && '/' !in slot ==> r == slot
  {
    PathJoin(Basename(Dirname(dir)), slot)
  }

  /** With a non-empty store base, the relative directory diffoscope gets is
      "<store_base>/<slot>", and joined onto the temporary directory (diffoscope's working
      directory) it names the unpack directory again. */
  lemma RelativeDirOfUnpackDir(tmpdir: string, storePath: string, slot: string)
    requires StoreBase(storePath) != ""
    requires slot == "A" || slot == "B"
    ensures RelativeDir(UnpackDir(tmpdir, StoreBase(storePath), slot), slot) == StoreBase(storePath) + "/" + slot
    ensures PathJoin(tmpdir, StoreBase(storePath) + "/" + slot) == UnpackDir(tmpdir, StoreBase(storePath), slot)
  {
    var base := StoreBase(storePath);
    assert '/' !in base;
    assert '/' !in slot;
    DirnameBasenameOfJoin(tmpdir, base, slot);
    JoinNested(tmpdir, base, slot);
  }

  /** For the non-empty, '/'-free store bases StoreBase yields, the two slot directories of
      one request are distinct and neither lies inside the other. */
  lemma SlotsDisjoint(tmpdir: string, baseA: string, baseB: string)
    requires baseA != "" && '/' !in baseA
    requires baseB != "" && '/' !in baseB
    ensures var a, b := UnpackDir(tmpdir, baseA, "A"), UnpackDir(tmpdir, baseB, "B");
            && a != b && !(a + "/" <= b) && !(b + "/" <= a)
  {
    var j := JoinPrefix(tmpdir);
    SlotPath(tmpdir, baseA, "A");
    SlotPath(tmpdir, baseB, "B");
    LastDiffers(j + baseA + "/", j + baseB + "/", 'A', 'B');
    NotNested(j, baseA, baseB, "A", "B");
    NotNested(j, baseB, baseA, "B", "A");
  }

  lemma LastDiffers(x: string, y: string, c: char, d: char)
    requires c != d
    ensures x + [c] != y + [d]
  {
    assert (x + [c])[|x|] != (y + [d])[|y|];
  }

  /** The unpack directory of a '/'-free base is the joined prefix, the base, '/' and the slot. */
  lemma SlotPath(tmpdir: string, base: string, slot: string)
    requires base != "" && '/' !in base && slot != "" && '/' !in slot
    ensures UnpackDir(tmpdir, base, slot) == JoinPrefix(tmpdir) + base + "/" + slot
  {
    assert base[0] != '/' && slot[0] != '/';
    var x := JoinPrefix(tmpdir) + base;
    assert PathJoin(tmpdir, base) == x;
    assert x[|x| - 1] == base[|base| - 1] != '/';
    assert JoinPrefix(x) == x + "/";
  }

  /** j + x + "/" + s + "/" is never a prefix of j + y + "/" + t for '/'-free names x and y
      and one-character slots: the first '/' after j would have to sit at the same place. */
  lemma NotNested(j: string, x: string, y: string, s: string, t: string)
    requires '/' !in x && '/' !in y && |s| == 1 && |t| == 1
    ensures !(j + x + "/" + s + "/" <= j + y + "/" + t)
  {
    var p, q := j + x + "/" + s + "/", j + y + "/" + t;
    if |p| <= |q| {
      assert |x| < |y|;
      assert p[|j| + |x|] == '/';
      assert q[|j| + |x|] == y[|x|] != '/';
    }
  }

  // ---------------------------------------------------------------- diff: result

  /** The diffoscope outcome: any stderr output is an error (ValueError(stderr)) whatever the
      exit code; otherwise stdout is the report. */
  function ClassifyDiff(stdout: Bytes, stderr: Bytes): (r: Result<Bytes, Bytes>)
    ensures r.Err? <==> |stderr| > 0
    ensures r.Ok? ==> r.value == stdout
    ensures r.Err? ==> r.error == stderr
  {
    if |stderr| > 0 then Err(stderr) else Ok(stdout)
  }

  // ---------------------------------------------------------------- fetch_unpack_nar: mtimes

  /** (atime, mtime) of a path. */
  datatype Times = Times(atime: int, mtime: int)

  const PinnedTimes: Times := Times(1, 1)

  /** One triple yielded by os.walk. */
  datatype WalkStep = WalkStep(dirpath: string, dirnames: seq<string>, filenames: seq<string>)

  /** The paths os.path.join(dir, name) for the given names. */
  function EntryPaths(dir: string, names: seq<string>): set<string>
    decreases |names|
  {
    if |names| == 0 then {} else EntryPaths(dir, names[..|names| - 1]) + {PathJoin(dir, names[|names| - 1])}
  }

  /** Every path the nested loops visit, walk step by walk step. */
  function WalkedPaths(walk: seq<WalkStep>): set<string>
    decreases |walk|
  {
    if |walk| == 0 then {}
    else
      var step := walk[|walk| - 1];
      WalkedPaths(walk[..|walk| - 1]) + EntryPaths(step.dirpath, step.dirnames + step.filenames)
  }

  /** The file map with every path of `paths` set to (1, 1). */
  function PinAll(fs: map<string, Times>, paths: set<string>): (r: map<string, Times>)
    ensures r.Keys == fs.Keys
    ensures forall p :: p in fs && p in paths ==> r[p] == PinnedTimes
    ensures forall p :: p in fs && p !in paths ==> r[p] == fs[p]
  {
    map p | p in fs :: if p in paths then PinnedTimes else fs[p]
  }

  lemma PinOne(fs: map<string, Times>, paths: set<string>, p: string)
    requires p in fs
    ensures PinAll(fs, paths)[p := PinnedTimes] == PinAll(fs, paths + {p})
  {
  }

  /** The mtime loop of fetch_unpack_nar: os.utime(path, (1, 1)) for every path the walk
      yields, then for location itself. A path that no longer exists raises
      FileNotFoundError; `missing` is that path. `pinned` is the set of paths set to (1, 1)
      by then: all of them on success, and only walked paths in any case. */
  method PinTimes(fs: map<string, Times>, location: string, walk: seq<WalkStep>)
    returns (fs': map<string, Times>, missing: Option<string>, ghost pinned: set<string>)
    ensures fs'.Keys == fs.Keys
    ensures fs' == PinAll(fs, pinned)
    ensures pinned <= WalkedPaths(walk) + {location}
    ensures missing.None? <==> WalkedPaths(walk) + {location} <= fs.Keys
    ensures missing.None? ==> pinned == WalkedPaths(walk) + {location}
    ensures missing.Some? ==> missing.value in WalkedPaths(walk) + {location} && missing.value !in fs
  {
    ghost var all := WalkedPaths(walk) + {location};
    fs', pinned := fs, {};
    var i := 0;
    while i < |walk|
      invariant 0 <= i <= |walk|
      invariant pinned == WalkedPaths(walk[..i])
      invariant pinned <= fs.Keys && pinned <= all
      invariant fs' == PinAll(fs, pinned)
    {
      var step := walk[i];
      var names := step.dirnames + step.filenames;
      WalkedPathsStep(walk, i);
      ghost var done := pinned;
      var j := 0;
      while j < |names|
        invariant 0 <= j <= |names|
        invariant pinned == done + EntryPaths(step.dirpath, names[..j])
        invariant pinned <= fs.Keys && pinned <= all
        invariant fs' == PinAll(fs, pinned)
      {
        var path := PathJoin(step.dirpath, names[j]);
        EntryPathsStep(step.dirpath, names, j);
        WalkedPathsGrow(walk, i, j);
        if path !in fs' {
          return fs', Some(path), pinned;
        }
        PinOne(fs, pinned, path);
        fs', pinned := fs'[path := PinnedTimes], pinned + {path};
        j := j + 1;
      }
      assert names[..j] == names;
      i := i + 1;
    }
    assert walk[..i] == walk;
    if location !in fs' {
      return fs', Some(location), pinned;
    }
    PinOne(fs, pinned, location);
    fs', pinned := fs'[location := PinnedTimes], pinned + {location};
    missing := None;
  }

  lemma EntryPathsStep(dir: string, names: seq<string>, j: nat)
    requires j < |names|
    ensures EntryPaths(dir, names[..j + 1]) == EntryPaths(dir, names[..j]) + {PathJoin(dir, names[j])}
  {
    assert names[..j + 1][..j] == names[..j];
  }

  lemma WalkedPathsStep(walk: seq<WalkStep>, i: nat)
    requires i < |walk|
    ensures WalkedPaths(walk[..i + 1])
            == WalkedPaths(walk[..i]) + EntryPaths(walk[i].dirpath, walk[i].dirnames + walk[i].filenames)
  {
    assert walk[..i + 1][..i] == walk[..i];
  }

  /** The paths visited so far are among all walked paths. */
  lemma WalkedPathsGrow(walk: seq<WalkStep>, i: nat, j: nat)
    requires i < |walk| && j < |walk[i].dirnames + walk[i].filenames|
    ensures var names := walk[i].dirnames + walk[i].filenames;
            WalkedPaths(walk[..i]) + EntryPaths(walk[i].dirpath, names[..j + 1]) <= WalkedPaths(walk)
            && PathJoin(walk[i].dirpath, names[j]) in WalkedPaths(walk)
  {
    var dir, names := walk[i].dirpath, walk[i].dirnames + walk[i].filenames;
    var visited := EntryPaths(dir, names[..j + 1]);
    EntryPathsStep(dir, names, j);
    assert PathJoin(dir, names[j]) in visited;
    EntryPathsPrefix(dir, names, j + 1);
    WalkedPathsStep(walk, i);
    WalkedPathsPrefix(walk, i + 1);
    assert visited <= WalkedPaths(walk[..i + 1]);
  }

  lemma {:induction false} EntryPathsPrefix(dir: string, names: seq<string>, n: nat)
    requires n <= |names|
    ensures EntryPaths(dir, names[..n]) <= EntryPaths(dir, names)
    decreases |names| - n
  {
    if n < |names| {
      EntryPathsPrefix(dir, names, n + 1);
      assert names[..n + 1][..n] == names[..n];
    } else {
      assert names[..n] == names;
    }
  }

  lemma {:induction false} WalkedPathsPrefix(walk: seq<WalkStep>, n: nat)
    requires n <= |walk|
    ensures WalkedPaths(walk[..n]) <= WalkedPaths(walk)
    decreases |walk| - n
  {
    if n < |walk| {
      WalkedPathsPrefix(walk, n + 1);
      assert walk[..n + 1][..n] == walk[..n];
    } else {
      assert walk[..n] == walk;
    }
  }

  /** Pinning is idempotent: a second pass over the same paths changes nothing. */
  lemma PinAllIdempotent(fs: map<string, Times>, paths: set<string>)
    ensures PinAll(PinAll(fs, paths), paths) == PinAll(fs, paths)
  {
  }

  /** Pinning forgets when the files were written: two trees with the same paths that differ
      only in the times of pinned paths are identical after pinning. */
  lemma PinAllForgetsTimes(fs1: map<string, Times>, fs2: map<string, Times>, paths: set<string>)
    requires fs1.Keys == fs2.Keys
    requires forall p :: p in fs1 && p !in paths ==> fs1[p] == fs2[p]
    ensures PinAll(fs1, paths) == PinAll(fs2, paths)
  {
  }
}
