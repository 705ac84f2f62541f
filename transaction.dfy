/** The key-value transaction the log storage runs in. The storage package is not part of this
    model, so its behaviour is stated here as explicit assumptions:
    - a transaction is a map from bucket name to a bucket, and a bucket a map from key to bytes;
    - Size of a bucket is its number of keys, and ObjectNotFound when the bucket is absent;
    - Get fails with ObjectNotFound when the bucket or the key is absent;
    - Set creates the bucket when it is absent, and adds or overwrites one key;
    - any other failure (an I/O error, a corrupt page) is represented by the set `broken` of
      buckets on which every operation fails with IoError. */
module Transaction {
  import opened Wrappers

  type Bytes = seq<bv8>

  type Bucket = map<string, Bytes>

  datatype StorageError = ObjectNotFound | IoError(bucket: string)

  datatype Txn = Txn(buckets: map<string, Bucket>, broken: set<string>)

  /** The contents of a bucket, empty when it does not exist. */
  function Contents(t: Txn, bucket: string): Bucket
  {
    if bucket in t.buckets then t.buckets[bucket] else map[]
  }

  function Size(t: Txn, bucket: string): Result<nat, StorageError>
  {
    if bucket in t.broken then Err(IoError(bucket))
    else if bucket !in t.buckets then Err(ObjectNotFound)
    else Ok(|t.buckets[bucket]|)
  }

  function Get(t: Txn, bucket: string, key: string): Result<Bytes, StorageError>
  {
    if bucket in t.broken then Err(IoError(bucket))
    else if bucket !in t.buckets || key !in t.buckets[bucket] then Err(ObjectNotFound)
    else Ok(t.buckets[bucket][key])
  }

  function Set(t: Txn, bucket: string, key: string, value: Bytes): Result<Txn, StorageError>
  {
    if bucket in t.broken then Err(IoError(bucket))
    else Ok(t.(buckets := t.buckets[bucket := Contents(t, bucket)[key := value]]))
  }
}
