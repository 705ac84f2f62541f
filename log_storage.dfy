/** The level-indexed log storage of log/storage.go. The log lives in one transaction:
    bucket "log-root" has one key per level (its size is the number of levels) and bucket
    "log-<level>" holds the marshalled leaves of a level, keyed by the decimal leaf index.
    A Go panic is a Panic value; leaf marshalling and unmarshalling are not part of this model
    and come in as a parameter (the marshalled bytes or the marshalling error) and as a
    function argument (LeafFromBytes). */
module LogStorage {
  import opened Wrappers
  import opened GoFmt
  import opened Transaction

  const RootBucket: string := "log-root"

  /** The bucket name Go's fmt.Sprintf("log-%d") renders when its argument is missing. */
  const UnformattedLevelBucket: string := "log-%!d(MISSING)"

  /** fmt.Sprintf("log-%d", level): the level can be read back from the name. */
  function LevelBucket(level: int): (b: string)
    ensures |b| > 4 && b[..4] == "log-"
    ensures ParseDecimal(b[4..]) == level
  {
    DecimalRoundTrip(level);
    var b := "log-" + Decimal(level);
    assert b[4..] == Decimal(level);
    b
  }

  datatype Panic = StoragePanic(err: StorageError) | MarshalPanic(msg: string) | DecodePanic(msg: string)

  datatype Status = Completed | Panicked(reason: Panic)

  datatype AppendResult = AppendResult(txn: Txn, status: Status)

  /** Size(): the size of "log-root", 1 when that bucket does not exist; other errors panic. */
  function RootSize(t: Txn): (r: Result<int, Panic>)
    ensures RootBucket in t.broken ==> r == Err(StoragePanic(IoError(RootBucket)))
    ensures RootBucket !in t.broken && RootBucket !in t.buckets ==> r == Ok(1)
    ensures RootBucket !in t.broken && RootBucket in t.buckets ==> r == Ok(|t.buckets[RootBucket]|)
  {
    match Transaction.Size(t, RootBucket)
    case Ok(n) => Ok(n)
    case Err(ObjectNotFound) => Ok(1)
    case Err(e) => Err(StoragePanic(e))
  }

  /** LevelSize(level) as written: the bucket name is formatted without its argument, so the
      bucket read is "log-%!d(MISSING)" whatever the level; 1 when it does not exist. */
  function LevelSizeOf(t: Txn, level: int): (r: Result<int, Panic>)
    ensures UnformattedLevelBucket in t.broken ==> r == Err(StoragePanic(IoError(UnformattedLevelBucket)))
    ensures UnformattedLevelBucket !in t.broken && UnformattedLevelBucket !in t.buckets ==> r == Ok(1)
    ensures UnformattedLevelBucket !in t.broken && UnformattedLevelBucket in t.buckets
            ==> r == Ok(|t.buckets[UnformattedLevelBucket]|)
  {
    match Transaction.Size(t, UnformattedLevelBucket)
    case Ok(n) => Ok(n)
    case Err(ObjectNotFound) => Ok(1)
    case Err(e) => Err(StoragePanic(e))
  }

  /** LevelSize(level) as evidently intended: the size of bucket "log-<level>". */
  function LevelSizeFixedOf(t: Txn, level: int): (r: Result<int, Panic>)
    ensures LevelBucket(level) !in t.broken && LevelBucket(level) !in t.buckets ==> r == Ok(1)
    ensures LevelBucket(level) !in t.broken && LevelBucket(level) in t.buckets
            ==> r == Ok(|t.buckets[LevelBucket(level)]|)
  {
    match Transaction.Size(t, LevelBucket(level))
    case Ok(n) => Ok(n)
    case Err(ObjectNotFound) => Ok(1)
    case Err(e) => Err(StoragePanic(e))
  }

  /** Get(level, idx): the leaf decoded from bucket "log-<level>", key "<idx>"; a missing
      bucket or key, a storage error and a decoding error all panic. */
  function GetOf<L>(t: Txn, level: int, idx: int, fromBytes: Bytes -> Result<L, string>): (r: Result<L, Panic>)
    ensures r.Ok? <==> LevelBucket(level) !in t.broken && LevelBucket(level) in t.buckets
                       && Decimal(idx) in t.buckets[LevelBucket(level)]
                       && fromBytes(t.buckets[LevelBucket(level)][Decimal(idx)]).Ok?
    ensures r.Ok? ==> r.value == fromBytes(t.buckets[LevelBucket(level)][Decimal(idx)]).value
  {
    match Transaction.Get(t, LevelBucket(level), Decimal(idx))
    case Err(e) => Err(StoragePanic(e))
    case Ok(v) =>
      match fromBytes(v)
      case Err(m) => Err(DecodePanic(m))
      case Ok(leaf) => Ok(leaf)
  }

  /** Append(level, leaf): grows "log-root" when Size() == level, then stores the marshalled
      leaf in "log-<level>" under the decimal of LevelSize(level) - 1. Changes made before a
      panic stay in the transaction. */
  function AppendOf(t: Txn, level: int, encoded: Result<Bytes, string>): (r: AppendResult)
    ensures r.txn.broken == t.broken
    ensures t.buckets.Keys <= r.txn.buckets.Keys <= t.buckets.Keys + {RootBucket, LevelBucket(level)}
    ensures r.status.Completed? ==> LevelBucket(level) in r.txn.buckets
  {
    match RootSize(t)
    case Err(p) => AppendResult(t, Panicked(p))
    case Ok(size) =>
      match GrowRoot(t, size, level)
      case Err(e) => AppendResult(t, Panicked(StoragePanic(e)))
      case Ok(t1) =>
        match encoded
        case Err(m) => AppendResult(t1, Panicked(MarshalPanic(m)))
        case Ok(v) =>
          match LevelSizeOf(t1, level)
          case Err(p) => AppendResult(t1, Panicked(p))
          case Ok(n) =>
            match Transaction.Set(t1, LevelBucket(level), Decimal(n - 1), v)
            case Err(e) => AppendResult(t1, Panicked(StoragePanic(e)))
            case Ok(t2) => AppendResult(t2, Completed)
  }

  /** The root growth step of Append: when Size() == level, key "<size>" is added to
      "log-root". */
  function GrowRoot(t: Txn, size: int, level: int): Result<Txn, StorageError>
  {
    if size == level then Transaction.Set(t, RootBucket, Decimal(size), []) else Ok(t)
  }

  /** logStorage: its methods act on the shared transaction. */
  class Storage {
    var txn: Txn

    constructor (t: Txn)
      ensures txn == t
    {
      txn := t;
    }

    method Size() returns (r: Result<int, Panic>)
      ensures r == RootSize(txn)
    {
      r := RootSize(txn);
    }

    method LevelSize(level: int) returns (r: Result<int, Panic>)
      ensures r == LevelSizeOf(txn, level)
    {
      r := LevelSizeOf(txn, level);
    }

    method Get<L>(level: int, idx: int, fromBytes: Bytes -> Result<L, string>) returns (r: Result<L, Panic>)
      ensures r == GetOf(txn, level, idx, fromBytes)
    {
      r := GetOf(txn, level, idx, fromBytes);
    }

    method Append(level: int, encoded: Result<Bytes, string>) returns (status: Status)
      modifies this
      ensures AppendResult(txn, status) == AppendOf(old(txn), level, encoded)
      ensures txn.broken == old(txn.broken)
      ensures txn.buckets - {RootBucket, LevelBucket(level)} == old(txn.buckets) - {RootBucket, LevelBucket(level)}
    {
      AppendFrame(txn, level, encoded);
      ghost var t0 := txn;
      var size := Size();
      if size.Err? {
        return Panicked(size.error);
      }
      if size.value == level {
        // "Grow" the root level: Go's Append reads Size() a second time for the key.
        // Nothing changed in between, so it reads the same value.
        var again := Size();
        assert again == size;
        var grown := Transaction.Set(txn, RootBucket, Decimal(again.value), []);
        // The set cannot fail: Size() has just read "log-root" without error.
        assert grown.Ok?;
        txn := grown.value;
      }
      assert txn == GrowRoot(t0, size.value, level).value;
      if encoded.Err? {
        return Panicked(MarshalPanic(encoded.error));
      }
      var n := LevelSize(level);
      if n.Err? {
        return Panicked(n.error);
      }
      var written := Transaction.Set(txn, LevelBucket(level), Decimal(n.value - 1), encoded.value);
      if written.Err? {
        return Panicked(StoragePanic(written.error));
      }
      txn := written.value;
      status := Completed;
    }
  }

  /** Level bucket names differ from each other and from the two other buckets in use. */
  lemma LevelBucketDistinct(level: int)
    ensures LevelBucket(level) != RootBucket
    ensures LevelBucket(level) != UnformattedLevelBucket
  {
    assert LevelBucket(level)[4] == Decimal(level)[0];
    assert RootBucket[4] == 'r';
    assert UnformattedLevelBucket[4] == '%';
  }

  lemma LevelBucketInjective(a: int, b: int)
    requires LevelBucket(a) == LevelBucket(b)
    ensures a == b
  {
    assert Decimal(a) == LevelBucket(a)[4..];
    assert Decimal(b) == LevelBucket(b)[4..];
    DecimalInjective(a, b);
  }

  lemma AppendFrame(t: Txn, level: int, encoded: Result<Bytes, string>)
    ensures AppendOf(t, level, encoded).txn.broken == t.broken
    ensures AppendOf(t, level, encoded).txn.buckets - {RootBucket, LevelBucket(level)}
            == t.buckets - {RootBucket, LevelBucket(level)}
  {
    if RootSize(t).Ok? {
      var t1 := GrowRoot(t, RootSize(t).value, level).value;
      SetFrame(t, RootBucket, Decimal(level), [], {RootBucket});
      assert t1.broken == t.broken && t1.buckets - {RootBucket} == t.buckets - {RootBucket};
      AppendLeafFrame(t, level, encoded);
      MinusBoth(AppendOf(t, level, encoded).txn.buckets, t1.buckets, t.buckets, RootBucket, LevelBucket(level));
    }
  }

  /** Two frames, one excluding b and one excluding a, compose into a frame excluding both. */
  lemma MinusBoth(m: map<string, Bucket>, n: map<string, Bucket>, p: map<string, Bucket>, a: string, b: string)
    requires m - {b} == n - {b}
    requires n - {a} == p - {a}
    ensures m - {a, b} == p - {a, b}
  {
    forall k | k != a && k != b
      ensures k in m <==> k in p
      ensures k in m ==> m[k] == p[k]
    {
      assert k in m - {b} <==> k in n - {b};
      assert k in n - {a} <==> k in p - {a};
      if k in m {
        assert (m - {b})[k] == (n - {b})[k];
        assert (n - {a})[k] == (p - {a})[k];
      }
    }
  }

  /** A set touches only its own bucket. */
  lemma SetFrame(t: Txn, bucket: string, key: string, v: Bytes, touched: set<string>)
    requires bucket !in t.broken && bucket in touched
    ensures Transaction.Set(t, bucket, key, v).Ok?
    ensures Transaction.Set(t, bucket, key, v).value.broken == t.broken
    ensures Transaction.Set(t, bucket, key, v).value.buckets - touched == t.buckets - touched
  {
  }

  /** "log-root" gains the key "<level>" with an empty value exactly when Size() == level
      (the key written is the decimal of Size(), which is then level); otherwise it is
      untouched. When Size() panics nothing changes at all. */
  /** Once the root has grown, Append touches only "log-<level>". */
  lemma AppendLeafFrame(t: Txn, level: int, encoded: Result<Bytes, string>)
    requires RootSize(t).Ok? && GrowRoot(t, RootSize(t).value, level).Ok?
    ensures var t1 := GrowRoot(t, RootSize(t).value, level).value;
            && AppendOf(t, level, encoded).txn.broken == t1.broken
            && AppendOf(t, level, encoded).txn.buckets - {LevelBucket(level)} == t1.buckets - {LevelBucket(level)}
  {
    var t1 := GrowRoot(t, RootSize(t).value, level).value;
    if encoded.Ok? && LevelSizeOf(t1, level).Ok? && LevelBucket(level) !in t1.broken {
      SetFrame(t1, LevelBucket(level), Decimal(LevelSizeOf(t1, level).value - 1), encoded.value, {LevelBucket(level)});
    }
  }

  lemma AppendRootGrowth(t: Txn, level: int, encoded: Result<Bytes, string>)
    ensures RootSize(t).Err? ==> AppendOf(t, level, encoded) == AppendResult(t, Panicked(RootSize(t).error))
    ensures RootSize(t) == Ok(level) ==>
              RootBucket in AppendOf(t, level, encoded).txn.buckets &&
              Contents(AppendOf(t, level, encoded).txn, RootBucket) == Contents(t, RootBucket)[Decimal(level) := []]
    ensures RootSize(t).Ok? && RootSize(t).value != level ==>
              (RootBucket in AppendOf(t, level, encoded).txn.buckets <==> RootBucket in t.buckets) &&
              Contents(AppendOf(t, level, encoded).txn, RootBucket) == Contents(t, RootBucket)
  {
    LevelBucketDistinct(level);
    if RootSize(t).Ok? {
      assert RootBucket !in t.broken;
      AppendLeafFrame(t, level, encoded);
      var t1 := GrowRoot(t, RootSize(t).value, level).value;
      var after := AppendOf(t, level, encoded).txn;
      assert RootBucket in after.buckets - {LevelBucket(level)} <==> RootBucket in t1.buckets - {LevelBucket(level)};
      if RootBucket in t1.buckets {
        assert (after.buckets - {LevelBucket(level)})[RootBucket] == (t1.buckets - {LevelBucket(level)})[RootBucket];
      }
      assert Contents(after, RootBucket) == Contents(t1, RootBucket);
    }
  }

  /** A successful Append stores the marshalled leaf in "log-<level>" under the decimal of
      LevelSize(level) - 1, where LevelSize is the value before the call (root growth cannot
      change it); no other key of that bucket changes. It succeeds exactly when marshalling
      succeeds and none of the three buckets it touches fails. */
  lemma AppendWritesLeaf(t: Txn, level: int, encoded: Result<Bytes, string>)
    ensures AppendOf(t, level, encoded).status.Completed? <==>
              RootSize(t).Ok? && encoded.Ok? && LevelSizeOf(t, level).Ok? && LevelBucket(level) !in t.broken
    ensures AppendOf(t, level, encoded).status.Completed? ==>
              LevelBucket(level) in AppendOf(t, level, encoded).txn.buckets &&
              Contents(AppendOf(t, level, encoded).txn, LevelBucket(level))
              == Contents(t, LevelBucket(level))[Decimal(LevelSizeOf(t, level).value - 1) := encoded.value]
  {
    if RootSize(t).Ok? {
      GrowRootKeepsLevel(t, level);
    }
  }

  /** Root growth leaves what the leaf step reads unchanged: LevelSize and "log-<level>". */
  lemma GrowRootKeepsLevel(t: Txn, level: int)
    requires RootSize(t).Ok?
    ensures GrowRoot(t, RootSize(t).value, level).Ok?
    ensures var t1 := GrowRoot(t, RootSize(t).value, level).value;
            && t1.broken == t.broken
            && LevelSizeOf(t1, level) == LevelSizeOf(t, level)
            && (LevelBucket(level) in t1.buckets <==> LevelBucket(level) in t.buckets)
            && Contents(t1, LevelBucket(level)) == Contents(t, LevelBucket(level))
  {
    LevelBucketDistinct(level);
    if RootSize(t).value == level {
      var t1 := Transaction.Set(t, RootBucket, Decimal(level), []).value;
      assert t1.buckets == t.buckets[RootBucket := Contents(t, RootBucket)[Decimal(level) := []]];
    }
  }

  /** Reading back the index just written returns the decoding of the stored leaf. */
  lemma AppendThenGet<L>(t: Txn, level: int, v: Bytes, fromBytes: Bytes -> Result<L, string>)
    requires AppendOf(t, level, Ok(v)).status.Completed?
    ensures GetOf(AppendOf(t, level, Ok(v)).txn, level, LevelSizeOf(t, level).value - 1, fromBytes)
            == (match fromBytes(v) case Ok(leaf) => Ok(leaf) case Err(m) => Err(DecodePanic(m)))
  {
    AppendWritesLeaf(t, level, Ok(v));
    AppendFrame(t, level, Ok(v));
  }

  /** As written, no Append changes what LevelSize reports, for any level: the bucket it reads
      is written by nobody. So every successful Append, whatever its level, writes the same
      index. */
  lemma AppendKeepsLevelSize(t: Txn, level: int, encoded: Result<Bytes, string>, other: int)
    ensures LevelSizeOf(AppendOf(t, level, encoded).txn, other) == LevelSizeOf(t, other)
  {
    LevelBucketDistinct(level);
    AppendFrame(t, level, encoded);
    var t' := AppendOf(t, level, encoded).txn;
    var touched := {RootBucket, LevelBucket(level)};
    assert UnformattedLevelBucket !in touched;
    assert UnformattedLevelBucket in t'.buckets - touched <==> UnformattedLevelBucket in t.buckets - touched;
    if UnformattedLevelBucket in t.buckets {
      assert (t'.buckets - touched)[UnformattedLevelBucket] == (t.buckets - touched)[UnformattedLevelBucket];
    }
  }

  /** An input that shows the discrepancy: level 0 holds three leaves, yet LevelSize(0)
      reports 1 where the intended size is 3, and Append(0, leaf) overwrites leaf "0". */
  lemma AppendOverwritesFirstLeaf()
    ensures var t := Txn(map["log-0" := map["0" := [1], "1" := [2], "2" := [3]]], {});
            && LevelSizeOf(t, 0) == Ok(1)
            && LevelSizeFixedOf(t, 0) == Ok(3)
            && AppendOf(t, 0, Ok([9])).status == Completed
            && AppendOf(t, 0, Ok([9])).txn.buckets["log-0"] == map["0" := [9], "1" := [2], "2" := [3]]
  {
    var t := Txn(map["log-0" := map["0" := [1], "1" := [2], "2" := [3]]], {});
    assert Decimal(0) == "0";
    assert LevelBucket(0) == "log-0";
    assert UnformattedLevelBucket !in t.buckets;
    var b := t.buckets["log-0"];
    assert b.Keys == {"0", "1", "2"};
    assert |b.Keys| == 3;
    assert RootSize(t) == Ok(1);
  }

  /** The corrected LevelSize tracks its own level: adding a new key to "log-<level>" raises
      that level's size by one (from the fallback 1 to 1 for a new bucket), and leaves the
      size of every other level unchanged. */
  lemma LevelSizeFixedTracksLevel(t: Txn, level: int, key: string, v: Bytes, other: int)
    requires LevelBucket(level) !in t.broken
    requires key !in Contents(t, LevelBucket(level))
    ensures var t' := Transaction.Set(t, LevelBucket(level), key, v).value;
            && LevelSizeFixedOf(t', level)
               == Ok(if LevelBucket(level) in t.buckets then |t.buckets[LevelBucket(level)]| + 1 else 1)
            && (other != level ==> LevelSizeFixedOf(t', other) == LevelSizeFixedOf(t, other))
  {
    if other != level && LevelBucket(other) == LevelBucket(level) {
      LevelBucketInjective(other, level);
    }
  }
}
