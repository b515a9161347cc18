/**
 * The S3 request handlers of `crates/api/src/handlers.rs` over the catalog
 * tables and the storage engine. Each handler is one atomic step. For the
 * handlers that change state, `trace` records, in order, every catalog table
 * and storage operation they reach, so the order in which such a handler
 * touches the two stores is part of its contract. The read-only handlers
 * (`ListBuckets`, `ListObjects`, `HeadObject`, `GetObject`) record nothing.
 *
 * The `multipart_uploads` and `multipart_parts` repositories are not part of
 * this model; their tables are kept here as plain state: uploads by their
 * UNIQUE `upload_id`, parts as rows whose (upload, part number) is UNIQUE,
 * with an insert on a taken key failing as the other repositories' inserts do.
 */
module Handlers {
  import opened Wrappers
  import opened Text
  import opened Encoding
  import opened Sequences
  import Engine
  import Catalog
  import opened Errors
  import opened Requests

  /** A row of `multipart_uploads`. */
  datatype UploadRow = UploadRow(id: Catalog.Uuid, bucketId: Catalog.Uuid, objectKey: string, uploadId: string)

  /** A row of `multipart_parts`; `uploadRowId` is the `multipart_uploads.id` it belongs to. */
  datatype PartRow = PartRow(uploadRowId: Catalog.Uuid, partNumber: int, etag: string, size: int, storagePath: string)

  /** One step a handler takes against the catalog or the storage engine. */
  datatype Touch =
    | CatalogRead(table: string)
    | CatalogWrite(table: string)
    | StorageCall(op: string)

  /** The steps of a multipart completion: its checks, the engine's assembly, and the catalog's bookkeeping. */
  const CheckingTouches: seq<Touch> := [CatalogRead("multipart_uploads"), CatalogRead("buckets")]
  const AssemblingTouches: seq<Touch> := [StorageCall("complete_multipart_upload")]
  const RecordingTouches: seq<Touch> :=
    [CatalogRead("multipart_parts"), CatalogWrite("objects"), CatalogWrite("multipart_parts"), CatalogWrite("multipart_uploads")]

  datatype InitiateResponse = InitiateResponse(bucket: string, key: string, uploadId: string)

  datatype BucketInfo = BucketInfo(name: string, creationDate: int)

  datatype ListObjectsResponse = ListObjectsResponse(
    name: string,
    prefix: Option<string>,
    keyCount: nat,
    maxKeys: nat,
    isTruncated: bool,
    contents: seq<Catalog.CatalogObject>)

  datatype CompleteResponse = CompleteResponse(location: string, bucket: string, key: string, etag: string)

  const DefaultRegion := "us-east-1"

  /** A `u32` query value. */
  type U32 = k: nat | k < 0x1_0000_0000

  /** `k as i32`: the two's-complement reading of the same 32 bits. */
  function AsI32(k: U32): (r: int)
    ensures I32_MIN <= r <= I32_MAX
    ensures k <= I32_MAX ==> r == k
    ensures k > I32_MAX ==> r == k - 0x1_0000_0000 && r < 0
  {
    if k <= I32_MAX then k else k - 0x1_0000_0000
  }

  /** The limit `list_objects` passes to the catalog, as written: `max_keys.map(|k| k as i32)`. */
  function ListLimitAsWritten(maxKeys: Option<U32>): (r: Option<int>)
    ensures maxKeys.None? <==> r.None?
    ensures maxKeys.Some? ==> r == Some(AsI32(maxKeys.value))
  {
    match maxKeys
    case None => None
    case Some(k) => Some(AsI32(k))
  }

  /**
   * A `max-keys` of 2^31 or more wraps to a negative LIMIT, which the catalog
   * reads as no limit at all: the listing is no longer capped at 1000. Below
   * 2^31 the limit always holds.
   */
  lemma WrappedMaxKeysListsEverything(k: U32)
    ensures Catalog.EffectiveLimit(ListLimitAsWritten(Some(k))).None? <==> k >= 0x8000_0000
  {
  }

  /** The corrected limit: clamp to 1000 while still unsigned, then convert. */
  function ListLimit(maxKeys: Option<U32>): (r: Option<int>)
    ensures Catalog.EffectiveLimit(r).Some?
    ensures Catalog.EffectiveLimit(r).value == if maxKeys.Some? && maxKeys.value < 1000 then maxKeys.value else 1000
  {
    match maxKeys
    case None => None
    case Some(k) => Some(AsI32(if k < 1000 then k else 1000))
  }

  /** Below 2^31 the correction changes nothing. */
  lemma ListLimitAgreesBelowWrap(maxKeys: Option<U32>)
    requires maxKeys.Some? ==> maxKeys.value <= I32_MAX
    ensures Catalog.EffectiveLimit(ListLimit(maxKeys)) == Catalog.EffectiveLimit(ListLimitAsWritten(maxKeys))
  {
  }

  function Quoted(s: string): string {
    "\"" + s + "\""
  }

  function IntText(n: int): string {
    if n < 0 then "-" + DecimalString(-n) else DecimalString(n)
  }

  /** The text of an engine error, as `local.rs` formats it; the I/O error of a failed stream is not modelled. */
  function StorageText(e: Engine.StorageError): string {
    match e
    case StreamFailed => "stream error"
    case InvalidRange(start, end) => "Invalid range: " + DecimalString(start) + "-" + DecimalString(end)
    case SourceNotFound => "Source object not found"
    case UploadNotFound(id) => "Multipart upload not found: " + id
    case BucketKeyMismatch => "Bucket/key mismatch in multipart upload"
    case PartNotFound(n) => "Part " + IntText(n) + " not found"
  }

  const UploadsConstraint := "multipart_uploads.upload_id"
  const PartsConstraint := "multipart_parts.upload_id, multipart_parts.part_number"

  /**
   * A repository failure as a handler reports it: the repositories return `anyhow::Result`,
   * so `?` converts the SQLite error into `ApiError::Internal`, whose text is the sqlx message.
   */
  function DbFailure(e: Catalog.DbError): ApiError {
    Internal(SqlxDatabasePrefix + SqliteUniquePrefix + e.constraint)
  }

  /** A UNIQUE violation reaches the client as a generic 500, never as a 4xx conflict. */
  lemma DbFailureIsServerError(e: Catalog.DbError)
    ensures DbFailure(e).Internal? && IsServerError(DbFailure(e))
    ensures IntoResponse(DbFailure(e)) == ErrorResponse(500, "InternalError", "Internal server error", NilRequestId)
  {
  }

  const SqlxDatabasePrefix := "error returned from database: "
  const SqliteUniquePrefix := "UNIQUE constraint failed: "

  /** The body of `put_object` and `upload_part`: the request bytes as a one-chunk stream. */
  lemma OneChunk(body: Bytes)
    ensures Engine.AllChunks([Engine.Chunk(body)])
    ensures Engine.Received([Engine.Chunk(body)]) == body
  {
    assert [Engine.Chunk(body)][1..] == [];
  }

  /** `list_by_upload`: the part rows of one upload. */
  function PartsOf(rows: seq<PartRow>, uploadRowId: Catalog.Uuid): (r: seq<PartRow>)
    ensures forall p :: p in r <==> p in rows && p.uploadRowId == uploadRowId
  {
    if |rows| == 0 then []
    else
      var rest := PartsOf(rows[1..], uploadRowId);
      assert forall p :: p in rows <==> p == rows[0] || p in rows[1..];
      if rows[0].uploadRowId == uploadRowId then [rows[0]] + rest else rest
  }

  /** `delete_by_upload`: every other row, in order. */
  function WithoutParts(rows: seq<PartRow>, uploadRowId: Catalog.Uuid): (r: seq<PartRow>)
    ensures forall p :: p in r <==> p in rows && p.uploadRowId != uploadRowId
  {
    if |rows| == 0 then []
    else
      var rest := WithoutParts(rows[1..], uploadRowId);
      assert forall p :: p in rows <==> p == rows[0] || p in rows[1..];
      if rows[0].uploadRowId == uploadRowId then rest else [rows[0]] + rest
  }

  /** The row ids of one bucket's uploads. */
  function UploadIdsOf(uploads: map<string, UploadRow>, bucketId: Catalog.Uuid): set<Catalog.Uuid> {
    set u | u in uploads && uploads[u].bucketId == bucketId :: uploads[u].id
  }

  /** What the `ON DELETE CASCADE` of `multipart_uploads.bucket_id` leaves: the other buckets' uploads. */
  function UploadsOutside(uploads: map<string, UploadRow>, bucketId: Catalog.Uuid): (r: map<string, UploadRow>)
    ensures forall u :: u in r <==> u in uploads && uploads[u].bucketId != bucketId
    ensures forall u :: u in r ==> r[u] == uploads[u]
  {
    map u | u in uploads && uploads[u].bucketId != bucketId :: uploads[u]
  }

  /** What the `ON DELETE CASCADE` of `multipart_parts.upload_id` leaves once the uploads `ids` are gone. */
  function PartsOutside(rows: seq<PartRow>, ids: set<Catalog.Uuid>): (r: seq<PartRow>)
    ensures forall p :: p in r <==> p in rows && p.uploadRowId !in ids
  {
    if |rows| == 0 then []
    else
      var rest := PartsOutside(rows[1..], ids);
      assert forall p :: p in rows <==> p == rows[0] || p in rows[1..];
      if rows[0].uploadRowId in ids then rest else [rows[0]] + rest
  }

  lemma {:induction false} PartsOutsideUnique(rows: seq<PartRow>, ids: set<Catalog.Uuid>)
    requires PartsUnique(rows)
    ensures PartsUnique(PartsOutside(rows, ids))
  {
    if |rows| > 0 {
      PartsOutsideUnique(rows[1..], ids);
      var tail := PartsOutside(rows[1..], ids);
      forall p | p in tail
        ensures p.uploadRowId != rows[0].uploadRowId || p.partNumber != rows[0].partNumber
      {
        var j :| 0 <= j < |rows[1..]| && rows[1..][j] == p;
        assert rows[j + 1] == p;
      }
    }
  }

  /** `parts_list.iter().map(|p| p.size).sum()`. */
  function SumSizes(rows: seq<PartRow>): int {
    if |rows| == 0 then 0 else rows[0].size + SumSizes(rows[1..])
  }

  lemma {:induction false} SumSizesAppend(a: seq<PartRow>, b: seq<PartRow>)
    ensures SumSizes(a + b) == SumSizes(a) + SumSizes(b)
  {
    if |a| > 0 {
      assert (a + b)[1..] == a[1..] + b;
      SumSizesAppend(a[1..], b);
    } else {
      assert a + b == b;
    }
  }

  /**
   * The size `complete` records counts every part row of the upload, listed
   * in the request or not: one more stored part adds its size.
   */
  lemma {:induction false} RecordedSizeCountsEveryPart(rows: seq<PartRow>, extra: PartRow)
    ensures SumSizes(PartsOf(rows + [extra], extra.uploadRowId)) == SumSizes(PartsOf(rows, extra.uploadRowId)) + extra.size
  {
    if |rows| == 0 {
      assert rows + [extra] == [extra];
      assert [extra][1..] == [];
    } else {
      assert (rows + [extra])[1..] == rows[1..] + [extra];
      RecordedSizeCountsEveryPart(rows[1..], extra);
      if rows[0].uploadRowId == extra.uploadRowId {
        SumSizesAppend([rows[0]], PartsOf(rows[1..] + [extra], extra.uploadRowId));
        SumSizesAppend([rows[0]], PartsOf(rows[1..], extra.uploadRowId));
      }
    }
  }

  predicate PartTaken(rows: seq<PartRow>, uploadRowId: Catalog.Uuid, partNumber: int) {
    exists i :: 0 <= i < |rows| && rows[i].uploadRowId == uploadRowId && rows[i].partNumber == partNumber
  }

  /** `UNIQUE(upload_id, part_number)`. */
  ghost predicate PartsUnique(rows: seq<PartRow>) {
    forall i, j :: 0 <= i < j < |rows| ==>
      rows[i].uploadRowId != rows[j].uploadRowId || rows[i].partNumber != rows[j].partNumber
  }

  lemma {:induction false} WithoutPartsUnique(rows: seq<PartRow>, uploadRowId: Catalog.Uuid)
    requires PartsUnique(rows)
    ensures PartsUnique(WithoutParts(rows, uploadRowId))
  {
    if |rows| > 0 {
      WithoutPartsUnique(rows[1..], uploadRowId);
      var tail := WithoutParts(rows[1..], uploadRowId);
      forall p | p in tail
        ensures p.uploadRowId != rows[0].uploadRowId || p.partNumber != rows[0].partNumber
      {
        var j :| 0 <= j < |rows[1..]| && rows[1..][j] == p;
        assert rows[j + 1] == p;
      }
    }
  }

  function UploadRowIds(uploads: map<string, UploadRow>): set<Catalog.Uuid> {
    set u | u in uploads :: uploads[u].id
  }

  /** The client's parts as the engine receives them: quotes stripped, size 0. */
  function ClientParts(requested: seq<(int, string)>): (parts: seq<Engine.MultipartUploadPart>)
    ensures |parts| == |requested|
    ensures forall i :: 0 <= i < |requested| ==>
      parts[i] == Engine.MultipartUploadPart(requested[i].0, TrimMatches(requested[i].1, '"'), 0)
  {
    Map((p: (int, string)) => Engine.MultipartUploadPart(p.0, TrimMatches(p.1, '"'), 0), requested)
  }

  /**
   * The object the engine assembles for a client's part list from an
   * upload's staged files: the parts in ascending part-number order, or
   * nothing when one of them is not staged.
   */
  function Assembled(requested: seq<(int, string)>, files: map<string, Bytes>): (r: Option<Bytes>)
    ensures r.Some? <==> Engine.AllStaged(Engine.PartNumbers(Engine.SortedParts(ClientParts(requested))), files)
  {
    var numbers := Engine.PartNumbers(Engine.SortedParts(ClientParts(requested)));
    if Engine.AllStaged(numbers, files) then Some(Engine.Assemble(numbers, files)) else None
  }

  /**
   * When the engine's `complete_multipart_upload` succeeds: it holds the
   * upload, under this bucket and key, with every listed part staged.
   */
  ghost predicate Assemblable(uploadId: string, bucketName: string, key: string, requested: seq<(int, string)>,
                              staged: map<string, Engine.Upload>)
  {
    uploadId in staged && staged[uploadId].bucket == bucketName && staged[uploadId].key == key
    && Assembled(requested, staged[uploadId].parts).Some?
  }

  /** The engine checks the client's parts in the order given; whether they are all staged does not depend on it. */
  lemma AssemblableIff(uploadId: string, bucketName: string, key: string, requested: seq<(int, string)>,
                       staged: map<string, Engine.Upload>)
    ensures Assemblable(uploadId, bucketName, key, requested, staged) <==>
      uploadId in staged && staged[uploadId].bucket == bucketName && staged[uploadId].key == key
      && Engine.AllStaged(Engine.PartNumbers(ClientParts(requested)), staged[uploadId].parts)
  {
    if uploadId in staged {
      var clientParts := ClientParts(requested);
      Engine.StagedIsOrderFree(clientParts, Engine.SortedParts(clientParts), staged[uploadId].parts);
    }
  }

  /** Each upload row is stored under its own `upload_id`, and the rows' primary keys differ. */
  predicate UploadsKeyed(uploads: map<string, UploadRow>) {
    && (forall u :: u in uploads ==> uploads[u].uploadId == u)
    && (forall u, v :: u in uploads && v in uploads && u != v ==> uploads[u].id != uploads[v].id)
  }

  class Gateway {
    const buckets: Catalog.BucketRepository
    const objects: Catalog.ObjectRepository
    const storage: Engine.LocalStorageEngine
    /** `multipart_uploads`, by `upload_id`. */
    var uploads: map<string, UploadRow>
    /** `multipart_parts`. */
    var parts: seq<PartRow>
    ghost var trace: seq<Touch>

    ghost predicate Valid()
      reads this, buckets, objects, storage
    {
      buckets.Valid() && objects.Valid() && storage.Valid() && PartsUnique(parts)
      && UploadsKeyed(uploads)
    }

    constructor (md5: Bytes -> Engine.Digest)
      ensures Valid() && fresh(buckets) && fresh(objects) && fresh(storage)
      ensures buckets.rows == [] && objects.rows == [] && storage.md5 == md5
      ensures storage.objects == map[] && storage.uploads == map[] && uploads == map[] && parts == []
      ensures trace == []
    {
      buckets := new Catalog.BucketRepository();
      objects := new Catalog.ObjectRepository();
      storage := new Engine.LocalStorageEngine(md5);
      uploads := map[];
      parts := [];
      trace := [];
    }

    /**
     * The catalog row of an object agrees with its stored bytes: both exist,
     * and the row's size and ETag are those of the bytes.
     */
    ghost predicate RowMatchesStore(bucketName: string, key: string)
      requires Valid()
      reads this, buckets, objects, storage
    {
      buckets.FindByName(bucketName).Some?
      && objects.FindByBucketAndKey(buckets.FindByName(bucketName).value.id, key).Some?
      && Engine.Location(bucketName, key) in storage.objects
      && var row := objects.FindByBucketAndKey(buckets.FindByName(bucketName).value.id, key).value;
         var data := storage.objects[Engine.Location(bucketName, key)].data;
         row.size == |data| && row.etag == Engine.ContentEtag(storage.md5, data)
    }

    /** `list_buckets`: every bucket's name and creation time, oldest first. */
    method ListBuckets() returns (infos: seq<BucketInfo>)
      requires Valid()
      ensures |infos| == |buckets.rows|
      ensures forall b :: b in buckets.rows ==> BucketInfo(b.name, b.createdAt) in infos
      ensures forall i :: 0 <= i < |infos| ==> exists b :: b in buckets.rows && infos[i] == BucketInfo(b.name, b.createdAt)
      ensures forall i, j :: 0 <= i < j < |infos| ==> infos[i].creationDate <= infos[j].creationDate
    {
      var listed := buckets.List();
      assert |listed| == |buckets.rows| by {
        assert |listed| == |multiset(listed)| == |multiset(buckets.rows)| == |buckets.rows|;
      }
      infos := [];
      var i := 0;
      while i < |listed|
        invariant i <= |listed| && |infos| == i
        invariant forall k :: 0 <= k < i ==> infos[k] == BucketInfo(listed[k].name, listed[k].createdAt)
      {
        infos := infos + [BucketInfo(listed[i].name, listed[i].createdAt)];
        i := i + 1;
      }
      forall b | b in buckets.rows
        ensures BucketInfo(b.name, b.createdAt) in infos
      {
        assert b in multiset(listed);
        var k :| 0 <= k < |listed| && listed[k] == b;
        assert infos[k] == BucketInfo(b.name, b.createdAt);
      }
      forall i | 0 <= i < |infos|
        ensures exists b :: b in buckets.rows && infos[i] == BucketInfo(b.name, b.createdAt)
      {
        assert listed[i] in multiset(buckets.rows);
      }
    }

    /**
     * `create_bucket`: the name is validated before the catalog is read; a
     * taken name is `BucketAlreadyExists`; otherwise the bucket is created in
     * "us-east-1" and its Location is "/name".
     */
    method CreateBucket(name: string, now: int) returns (r: Result<string, ApiError>)
      requires Valid()
      modifies this, buckets
      ensures Valid() && uploads == old(uploads) && parts == old(parts)
      ensures !IsBucketName(name) ==>
        r == Err(ValidateBucketName(name).error) && buckets.rows == old(buckets.rows) && trace == old(trace)
      ensures IsBucketName(name) && old(buckets.FindByName(name)).Some? ==>
        r == Err(BucketAlreadyExists(name)) && buckets.rows == old(buckets.rows)
        && trace == old(trace) + [CatalogRead("buckets")]
      ensures IsBucketName(name) && old(buckets.FindByName(name)).None? ==>
        r == Ok("/" + name) && |buckets.rows| == |old(buckets.rows)| + 1
        && buckets.rows[..|old(buckets.rows)|] == old(buckets.rows)
        && buckets.rows[|old(buckets.rows)|].name == name
        && buckets.rows[|old(buckets.rows)|].region == DefaultRegion
        && !buckets.rows[|old(buckets.rows)|].versioningEnabled
        && buckets.rows[|old(buckets.rows)|].createdAt == now
        && trace == old(trace) + [CatalogRead("buckets")] + [CatalogWrite("buckets")]
    {
      var valid := ValidateBucketName(name);
      if valid.Err? {
        return Err(valid.error);
      }
      trace := trace + [CatalogRead("buckets")];
      if buckets.FindByName(name).Some? {
        return Err(BucketAlreadyExists(name));
      }
      trace := trace + [CatalogWrite("buckets")];
      // The name was just found free, so the INSERT succeeds.
      var _ := buckets.Create(name, DefaultRegion, now);
      r := Ok("/" + name);
    }

    /**
     * `delete_bucket`: `NoSuchBucket` when nothing was deleted; the bucket's
     * objects are not checked first. SQLite's `ON DELETE CASCADE` then drops
     * the bucket's object rows, its upload rows and their part rows; the
     * engine's files are not touched.
     */
    method DeleteBucket(name: string) returns (r: Result<(), ApiError>)
      requires Valid()
      modifies this, buckets, objects
      ensures Valid()
      ensures buckets.rows == Catalog.WithoutBucket(old(buckets.rows), name)
      ensures r.Err? <==> old(buckets.FindByName(name)).None?
      ensures r.Err? ==>
        r.error == BucketNotFound(name)
        && objects.rows == old(objects.rows) && uploads == old(uploads) && parts == old(parts)
      ensures r.Ok? ==>
        var id := old(buckets.FindByName(name)).value.id;
        objects.rows == Catalog.OutsideBucket(old(objects.rows), id)
        && uploads == UploadsOutside(old(uploads), id)
        && parts == PartsOutside(old(parts), UploadIdsOf(old(uploads), id))
      ensures trace == old(trace) + [CatalogWrite("buckets")]
    {
      trace := trace + [CatalogWrite("buckets")];
      var found := buckets.FindByName(name);
      var deleted := buckets.Delete(name);
      if !deleted {
        return Err(BucketNotFound(name));
      }
      objects.CascadeBucket(found.value.id);
      PartsOutsideUnique(parts, UploadIdsOf(uploads, found.value.id));
      parts := PartsOutside(parts, UploadIdsOf(uploads, found.value.id));
      uploads := UploadsOutside(uploads, found.value.id);
      r := Ok(());
    }

    /**
     * `list_objects`: the bucket's objects under the prefix in key order, at
     * most `max-keys` of them and never more than 1000 (with the limit
     * clamped before the signed conversion); `max-keys` is echoed as given,
     * 1000 when absent, and the listing is never marked truncated.
     */
    method ListObjects(bucketName: string, prefix: Option<string>, maxKeys: Option<U32>)
      returns (r: Result<ListObjectsResponse, ApiError>)
      requires Valid()
      ensures old(buckets.FindByName(bucketName)).None? <==> r.Err?
      ensures r.Err? ==> r.error == BucketNotFound(bucketName)
      ensures r.Ok? ==>
        var bucketId := buckets.FindByName(bucketName).value.id;
        var contents := r.value.contents;
        r.value.name == bucketName && r.value.prefix == prefix && !r.value.isTruncated
        && r.value.keyCount == |contents| && r.value.maxKeys == maxKeys.GetOr(1000)
        && |contents| <= 1000 && (maxKeys.Some? ==> |contents| <= maxKeys.value)
        && (forall o :: o in contents ==> o in objects.rows && Catalog.Listed(o, bucketId, prefix))
        && (forall i, j :: 0 <= i < j < |contents| ==> LexLe(contents[i].key, contents[j].key) && contents[i].key != contents[j].key)
        && (forall o :: o in objects.rows && Catalog.Listed(o, bucketId, prefix) && o !in contents ==>
              |contents| == Catalog.EffectiveLimit(ListLimit(maxKeys)).value
              && forall x :: x in contents ==> LexLe(x.key, o.key))
    {
      var bucket := buckets.FindByName(bucketName);
      if bucket.None? {
        return Err(BucketNotFound(bucketName));
      }
      var found := objects.ListByBucket(bucket.value.id, prefix, ListLimit(maxKeys));
      r := Ok(ListObjectsResponse(bucketName, prefix, |found|, maxKeys.GetOr(1000), false, found));
    }

    /**
     * `put_object`, as written: the bucket must exist; the bytes are stored
     * first, then the catalog row is inserted. An existing row for the key
     * makes that INSERT fail after the stored bytes were already replaced,
     * leaving the old row describing the new bytes.
     */
    method PutObjectAsWritten(bucketName: string, key: string, headers: HeaderMap, body: Bytes, now: int)
      returns (r: Result<string, ApiError>)
      requires Valid()
      modifies this, objects, storage
      ensures Valid() && uploads == old(uploads) && parts == old(parts)
      ensures storage.uploads == old(storage.uploads) && storage.temps == old(storage.temps)
      ensures old(buckets.FindByName(bucketName)).None? ==>
        r == Err(BucketNotFound(bucketName)) && objects.rows == old(objects.rows)
        && storage.objects == old(storage.objects) && trace == old(trace) + [CatalogRead("buckets")]
      ensures old(buckets.FindByName(bucketName)).Some? ==>
        storage.objects == old(storage.objects)[Engine.Location(bucketName, key) := Engine.StoredObject(body, now)]
        && trace == old(trace) + [CatalogRead("buckets")] + [StorageCall("put_object")] + [CatalogWrite("objects")]
      ensures old(buckets.FindByName(bucketName)).Some? &&
              old(objects.FindByBucketAndKey(buckets.FindByName(bucketName).value.id, key)).Some? ==>
        r == Err(DbFailure(Catalog.UniqueViolation(Catalog.ObjectsConstraint)))
        && objects.rows == old(objects.rows)
        && (old(objects.FindByBucketAndKey(buckets.FindByName(bucketName).value.id, key)).value.size != |body| ==>
              !RowMatchesStore(bucketName, key))
      ensures old(buckets.FindByName(bucketName)).Some? &&
              old(objects.FindByBucketAndKey(buckets.FindByName(bucketName).value.id, key)).None? ==>
        r == Ok(Quoted(Engine.ContentEtag(storage.md5, body)))
        && |objects.rows| == |old(objects.rows)| + 1 && objects.rows[..|old(objects.rows)|] == old(objects.rows)
        && NewRow(objects.rows[|old(objects.rows)|], buckets.FindByName(bucketName).value.id, bucketName, key,
                  ContentTypeOf(headers), body)
        && RowMatchesStore(bucketName, key)
    {
      trace := trace + [CatalogRead("buckets")];
      var bucket := buckets.FindByName(bucketName);
      if bucket.None? {
        return Err(BucketNotFound(bucketName));
      }
      var contentType := ContentTypeOf(headers);
      // The body is a single chunk, so the engine's write cannot fail.
      OneChunk(body);
      trace := trace + [StorageCall("put_object")];
      var etag, _ := storage.PutObject(bucketName, key, [Engine.Chunk(body)], now);
      trace := trace + [CatalogWrite("objects")];
      var request := Catalog.CreateObjectRequest(bucket.value.id, key, contentType, |body|, bucketName + "/" + key, None);
      var created := objects.Create(request, etag.value, now);
      if created.Err? {
        return Err(DbFailure(created.error));
      }
      assert created.value in objects.rows && Catalog.IsAt(created.value, bucket.value.id, key);
      r := Ok(Quoted(etag.value));
    }

    /** The row `put_object` records for a body: its size, its content ETag, the content type, no metadata. */
    ghost predicate NewRow(o: Catalog.CatalogObject, bucketId: Catalog.Uuid, bucketName: string, key: string,
                           contentType: string, body: Bytes)
      reads storage
    {
      o.bucketId == bucketId && o.key == key && o.etag == Engine.ContentEtag(storage.md5, body)
      && o.size == |body| && o.contentType == contentType
      && o.storagePath == bucketName + "/" + key && o.metadata.None?
    }

    /**
     * The catalog step of the corrected `put_object`: the key's previous row,
     * if any, is deleted and the new one inserted, so the insert cannot fail.
     */
    method ReplaceObjectRow(req: Catalog.CreateObjectRequest, etag: string, now: int) returns (o: Catalog.CatalogObject)
      requires Valid()
      modifies objects
      ensures Valid()
      ensures objects.rows == Catalog.WithoutObject(old(objects.rows), req.bucketId, req.key) + [o]
      ensures o == Catalog.CatalogObject(o.id, req.bucketId, req.key, None, etag, req.size,
                                         req.contentType, now, now, req.storagePath, req.metadata)
      ensures objects.FindByBucketAndKey(req.bucketId, req.key) == Some(o)
    {
      var _ := objects.Delete(req.bucketId, req.key);
      assert Catalog.ObjectAt(objects.rows, req.bucketId, req.key).None?;
      var created := objects.Create(req, etag, now);
      o := created.value;
      assert o in objects.rows && Catalog.IsAt(o, req.bucketId, req.key);
    }

    /**
     * `put_object`, corrected: the same steps, with the key's previous row
     * replaced rather than inserted over, so that a PUT over an existing
     * object replaces it in the catalog as it does in storage.
     */
    method PutObject(bucketName: string, key: string, headers: HeaderMap, body: Bytes, now: int)
      returns (r: Result<string, ApiError>)
      requires Valid()
      modifies this, objects, storage
      ensures Valid() && uploads == old(uploads) && parts == old(parts)
      ensures storage.uploads == old(storage.uploads) && storage.temps == old(storage.temps)
      ensures old(buckets.FindByName(bucketName)).None? ==>
        r == Err(BucketNotFound(bucketName)) && objects.rows == old(objects.rows)
        && storage.objects == old(storage.objects) && trace == old(trace) + [CatalogRead("buckets")]
      ensures old(buckets.FindByName(bucketName)).Some? ==>
        r == Ok(Quoted(Engine.ContentEtag(storage.md5, body)))
        && storage.objects == old(storage.objects)[Engine.Location(bucketName, key) := Engine.StoredObject(body, now)]
        && |objects.rows| > 0
        && objects.rows == Catalog.WithoutObject(old(objects.rows), buckets.FindByName(bucketName).value.id, key)
                           + [objects.rows[|objects.rows| - 1]]
        && NewRow(objects.rows[|objects.rows| - 1], buckets.FindByName(bucketName).value.id, bucketName, key,
                  ContentTypeOf(headers), body)
        && RowMatchesStore(bucketName, key)
        && trace == old(trace) + [CatalogRead("buckets")] + [StorageCall("put_object")] + [CatalogWrite("objects")]
    {
      trace := trace + [CatalogRead("buckets")];
      var bucket := buckets.FindByName(bucketName);
      if bucket.None? {
        return Err(BucketNotFound(bucketName));
      }
      var contentType := ContentTypeOf(headers);
      OneChunk(body);
      trace := trace + [StorageCall("put_object")];
      var etag, _ := storage.PutObject(bucketName, key, [Engine.Chunk(body)], now);
      trace := trace + [CatalogWrite("objects")];
      var request := Catalog.CreateObjectRequest(bucket.value.id, key, contentType, |body|, bucketName + "/" + key, None);
      var o := ReplaceObjectRow(request, etag.value, now);
      r := Ok(Quoted(etag.value));
    }

    /**
     * `head_object`: the bucket, then the catalog row, then the stored file
     * must all be there; the metadata is the engine's.
     */
    function HeadObject(bucketName: string, key: string): (r: Result<Engine.ObjectMetadata, ApiError>)
      requires Valid()
      reads this, buckets, objects, storage
      ensures buckets.FindByName(bucketName).None? ==> r == Err(BucketNotFound(bucketName))
      ensures buckets.FindByName(bucketName).Some? && r.Err? ==> r == Err(ObjectNotFound(key))
      ensures r.Ok? <==> (buckets.FindByName(bucketName).Some?
        && objects.FindByBucketAndKey(buckets.FindByName(bucketName).value.id, key).Some?
        && Engine.Location(bucketName, key) in storage.objects)
      ensures r.Ok? ==> Some(r.value) == storage.HeadObject(bucketName, key)
    {
      match buckets.FindByName(bucketName)
      case None => Err(BucketNotFound(bucketName))
      case Some(bucket) =>
        if objects.FindByBucketAndKey(bucket.id, key).None? then Err(ObjectNotFound(key))
        else match storage.HeadObject(bucketName, key)
          case None => Err(ObjectNotFound(key))
          case Some(meta) => Ok(meta)
    }

    /** The range `get_object` passes on: a `range` header that is text and parses, else none. */
    static function RequestedRange(headers: HeaderMap): (r: Option<(nat, Option<nat>)>)
      ensures r.Some? ==> (HeaderGet(headers, "range").Some?
        && HeaderText(HeaderGet(headers, "range").value).Some?
        && r == ParseRangeHeader(HeaderText(HeaderGet(headers, "range").value).value))
      ensures HeaderGet(headers, "range").Some? && HeaderText(HeaderGet(headers, "range").value).Some? ==>
        r == ParseRangeHeader(HeaderText(HeaderGet(headers, "range").value).value)
    {
      match HeaderGet(headers, "range")
      case None => None
      case Some(v) =>
        match HeaderText(v)
        case None => None
        case Some(text) => ParseRangeHeader(text)
    }

    /**
     * `get_object`: like `head_object`, with the range handed to the engine.
     * A range the engine refuses becomes a storage error.
     */
    function GetObject(bucketName: string, key: string, headers: HeaderMap): (r: Result<Engine.GetObjectResponse, ApiError>)
      requires Valid()
      reads this, buckets, objects, storage
      ensures r.Ok? ==> HeadObject(bucketName, key) == Ok(r.value.metadata)
      ensures HeadObject(bucketName, key).Err? ==> r == Err(HeadObject(bucketName, key).error)
      ensures HeadObject(bucketName, key).Ok? ==>
        (storage.GetObject(bucketName, key, RequestedRange(headers)).Err? ==>
           r == Err(Storage(StorageText(storage.GetObject(bucketName, key, RequestedRange(headers)).error))))
        && (storage.GetObject(bucketName, key, RequestedRange(headers)).Ok? ==>
           r.Ok? && storage.GetObject(bucketName, key, RequestedRange(headers)).value == Some(r.value))
    {
      match buckets.FindByName(bucketName)
      case None => Err(BucketNotFound(bucketName))
      case Some(bucket) =>
        if objects.FindByBucketAndKey(bucket.id, key).None? then Err(ObjectNotFound(key))
        else match storage.GetObject(bucketName, key, RequestedRange(headers))
          case Err(e) => Err(Storage(StorageText(e)))
          case Ok(None) => Err(ObjectNotFound(key))
          case Ok(Some(resp)) => Ok(resp)
    }

    /**
     * `delete_object`: the bucket must exist; the catalog row goes first, then
     * the stored file, and the answer is success whether or not either existed.
     */
    method DeleteObject(bucketName: string, key: string) returns (r: Result<(), ApiError>)
      requires Valid()
      modifies this, objects, storage`objects
      ensures Valid() && uploads == old(uploads) && parts == old(parts)
      ensures old(buckets.FindByName(bucketName)).None? ==>
        r == Err(BucketNotFound(bucketName)) && objects.rows == old(objects.rows)
        && storage.objects == old(storage.objects) && trace == old(trace) + [CatalogRead("buckets")]
      ensures old(buckets.FindByName(bucketName)).Some? ==>
        r == Ok(())
        && objects.rows == Catalog.WithoutObject(old(objects.rows), buckets.FindByName(bucketName).value.id, key)
        && storage.objects == old(storage.objects) - {Engine.Location(bucketName, key)}
        && trace == old(trace) + [CatalogRead("buckets")] + [CatalogWrite("objects")] + [StorageCall("delete_object")]
    {
      trace := trace + [CatalogRead("buckets")];
      var bucket := buckets.FindByName(bucketName);
      if bucket.None? {
        return Err(BucketNotFound(bucketName));
      }
      trace := trace + [CatalogWrite("objects")];
      var _ := objects.Delete(bucket.value.id, key);
      trace := trace + [StorageCall("delete_object")];
      var _ := storage.DeleteObject(bucketName, key);
      r := Ok(());
    }

    /**
     * The upload the engine opens for `create_multipart_upload`: no parts yet,
     * the request's content type, and its `x-amz-meta-` headers, or none when
     * it has no such header.
     */
    static function OpenedUpload(bucketName: string, key: string, headers: HeaderMap): Engine.Upload {
      var metadata := MetadataOf(headers);
      Engine.Upload(bucketName, key, ContentTypeOf(headers), if |metadata| == 0 then None else Some(metadata), map[])
    }

    /**
     * `create_multipart_upload`: the bucket must exist; the engine opens the
     * upload with the content type and the `x-amz-meta-` headers (none when
     * there are no such headers), then the catalog records it under the
     * engine's upload id.
     */
    method CreateMultipartUpload(bucketName: string, key: string, headers: HeaderMap)
      returns (r: Result<InitiateResponse, ApiError>, ghost uploadId: string)
      requires Valid()
      modifies this, storage`uploads
      ensures Valid() && parts == old(parts)
      ensures old(buckets.FindByName(bucketName)).None? ==>
        r == Err(BucketNotFound(bucketName)) && uploads == old(uploads)
        && storage.uploads == old(storage.uploads) && trace == old(trace) + [CatalogRead("buckets")]
      ensures old(buckets.FindByName(bucketName)).Some? ==>
        trace == old(trace) + [CatalogRead("buckets")] + [StorageCall("create_multipart_upload")] + [CatalogWrite("multipart_uploads")]
        && StorageOpened(uploadId, bucketName, key, headers, old(storage.uploads))
      ensures old(buckets.FindByName(bucketName)).Some? && uploadId in old(uploads) ==>
        r == Err(DbFailure(Catalog.UniqueViolation(UploadsConstraint))) && uploads == old(uploads)
      ensures old(buckets.FindByName(bucketName)).Some? && uploadId !in old(uploads) ==>
        r == Ok(InitiateResponse(bucketName, key, uploadId))
        && uploadId in uploads && uploads == old(uploads)[uploadId := uploads[uploadId]]
        && uploads[uploadId].id !in UploadRowIds(old(uploads))
        && uploads[uploadId].bucketId == buckets.FindByName(bucketName).value.id
        && uploads[uploadId].objectKey == key
    {
      trace := trace + [CatalogRead("buckets")];
      var bucket := buckets.FindByName(bucketName);
      if bucket.None? {
        return Err(BucketNotFound(bucketName)), "";
      }
      var id := OpenUpload(bucketName, key, headers);
      uploadId := id;
      trace := trace + [CatalogWrite("multipart_uploads")];
      var inserted := InsertUpload(bucket.value.id, key, id);
      if inserted.Err? {
        return Err(inserted.error), id;
      }
      r := Ok(InitiateResponse(bucketName, key, id));
    }

    /** The engine has opened a new upload with a fresh `mpu_` id, and nothing else of its uploads changed. */
    ghost predicate StorageOpened(uploadId: string, bucketName: string, key: string, headers: HeaderMap,
                                  oldUploads: map<string, Engine.Upload>)
      reads storage
    {
      uploadId !in oldUploads && StartsWith(uploadId, "mpu_")
      && storage.uploads == oldUploads[uploadId := OpenedUpload(bucketName, key, headers)]
    }

    /** The engine side of `create_multipart_upload`: content type and user metadata taken from the headers. */
    method OpenUpload(bucketName: string, key: string, headers: HeaderMap) returns (uploadId: string)
      requires storage.Valid()
      modifies this`trace, storage`uploads
      ensures storage.Valid()
      ensures StorageOpened(uploadId, bucketName, key, headers, old(storage.uploads))
      ensures trace == old(trace) + [StorageCall("create_multipart_upload")]
    {
      var contentType := ContentTypeOf(headers);
      var metadata := CollectMetadata(headers);
      trace := trace + [StorageCall("create_multipart_upload")];
      var userMetadata := if |metadata| == 0 then None else Some(metadata);
      assert Engine.Upload(bucketName, key, contentType, userMetadata, map[]) == OpenedUpload(bucketName, key, headers);
      uploadId := storage.CreateMultipartUpload(bucketName, key, contentType, userMetadata);
    }

    /**
     * The `multipart_uploads` insert: a fresh primary key, refused when the
     * UNIQUE `upload_id` is taken.
     */
    method InsertUpload(bucketId: Catalog.Uuid, key: string, uploadId: string) returns (r: Result<(), ApiError>)
      requires UploadsKeyed(uploads)
      modifies this`uploads
      ensures UploadsKeyed(uploads)
      ensures uploadId in old(uploads) ==>
        r == Err(DbFailure(Catalog.UniqueViolation(UploadsConstraint))) && uploads == old(uploads)
      ensures uploadId !in old(uploads) ==>
        r == Ok(()) && uploadId in uploads && uploads == old(uploads)[uploadId := uploads[uploadId]]
        && uploads[uploadId].id !in UploadRowIds(old(uploads))
        && uploads[uploadId].bucketId == bucketId && uploads[uploadId].objectKey == key
    {
      if uploadId in uploads {
        return Err(DbFailure(Catalog.UniqueViolation(UploadsConstraint)));
      }
      FreshName(UploadRowIds(uploads), "");
      var rowId :| rowId !in UploadRowIds(uploads) && StartsWith(rowId, "");
      uploads := uploads[uploadId := UploadRow(rowId, bucketId, key, uploadId)];
      r := Ok(());
    }

    /**
     * `upload_part`: the parameters are checked before anything is read; the
     * upload must be recorded; the engine stores the part, then the catalog
     * records it. The path's bucket and key are never compared with the
     * upload's.
     */
    method UploadPart(bucketName: string, key: string, params: map<string, string>, body: Bytes)
      returns (r: Result<string, ApiError>)
      requires Valid()
      modifies this, storage`uploads
      ensures Valid() && uploads == old(uploads)
      ensures PartRequest(params).Err? ==>
        r == Err(PartRequest(params).error) && parts == old(parts)
        && storage.uploads == old(storage.uploads) && trace == old(trace)
      ensures PartRequest(params).Ok? && PartRequest(params).value.0 !in old(uploads) ==>
        r == Err(BadRequest("Upload not found")) && parts == old(parts)
        && storage.uploads == old(storage.uploads) && trace == old(trace) + [CatalogRead("multipart_uploads")]
      ensures PartRequest(params).Ok? && PartRequest(params).value.0 in old(uploads)
              && PartRequest(params).value.0 !in old(storage.uploads) ==>
        r == Err(Storage(StorageText(Engine.UploadNotFound(PartRequest(params).value.0)))) && parts == old(parts)
        && storage.uploads == old(storage.uploads)
        && trace == old(trace) + [CatalogRead("multipart_uploads")] + [StorageCall("upload_part")]
      ensures PartRequest(params).Ok? && PartRequest(params).value.0 in old(uploads)
              && PartRequest(params).value.0 in old(storage.uploads) ==>
        var uploadId := PartRequest(params).value.0;
        var n := PartRequest(params).value.1;
        var staged := old(storage.uploads)[uploadId];
        storage.uploads == old(storage.uploads)[uploadId := staged.(parts := staged.parts[Engine.PartFileName(n) := body])]
        && trace == old(trace) + [CatalogRead("multipart_uploads")] + [StorageCall("upload_part")] + [CatalogWrite("multipart_parts")]
      ensures PartRequest(params).Ok? && PartRequest(params).value.0 in old(uploads)
              && PartRequest(params).value.0 in old(storage.uploads) ==>
        var uploadId := PartRequest(params).value.0;
        var n := PartRequest(params).value.1;
        var rowId := old(uploads)[uploadId].id;
        (PartTaken(old(parts), rowId, n) ==>
           r == Err(DbFailure(Catalog.UniqueViolation(PartsConstraint))) && parts == old(parts))
        && (!PartTaken(old(parts), rowId, n) ==>
           r == Ok(Quoted(Engine.ContentEtag(storage.md5, body)))
           && parts == old(parts) + [PartRow(rowId, n, Engine.ContentEtag(storage.md5, body), |body|,
                                             uploadId + "/" + Engine.PartFileName(n))])
    {
      var request := PartRequest(params);
      if request.Err? {
        return Err(request.error);
      }
      var uploadId := request.value.0;
      var n := request.value.1;
      trace := trace + [CatalogRead("multipart_uploads")];
      if uploadId !in uploads {
        return Err(BadRequest("Upload not found"));
      }
      var upload := uploads[uploadId];
      OneChunk(body);
      trace := trace + [StorageCall("upload_part")];
      var etag := storage.UploadPart(uploadId, n, [Engine.Chunk(body)]);
      if etag.Err? {
        return Err(Storage(StorageText(etag.error)));
      }
      trace := trace + [CatalogWrite("multipart_parts")];
      if PartTaken(parts, upload.id, n) {
        return Err(DbFailure(Catalog.UniqueViolation(PartsConstraint)));
      }
      var row := PartRow(upload.id, n, etag.value, |body|, uploadId + "/" + Engine.PartFileName(n));
      parts := parts + [row];
      r := Ok(Quoted(etag.value));
    }

    /**
     * The storage side of a successful `complete_multipart_upload`, given the
     * engine's state before it: the parts the client listed were all staged,
     * their concatenation is stored at the key, and the upload's directory is
     * gone.
     */
    ghost predicate StorageCompleted(uploadId: string, bucketName: string, key: string, requested: seq<(int, string)>,
                                     now: int, oldObjects: map<Engine.Location, Engine.StoredObject>,
                                     oldStaged: map<string, Engine.Upload>)
      reads storage
    {
      uploadId in oldStaged
      && Assembled(requested, oldStaged[uploadId].parts).Some?
      && storage.objects == oldObjects[Engine.Location(bucketName, key) :=
           Engine.StoredObject(Assembled(requested, oldStaged[uploadId].parts).value, now)]
      && storage.uploads == oldStaged - {uploadId}
    }

    /**
     * The catalog side of a successful `complete_multipart_upload` of
     * `upload`, given the tables before it: one new object row whose size is
     * the sum of every recorded part of the upload, and the upload's part
     * rows and upload row deleted.
     */
    ghost predicate CatalogCompleted(upload: UploadRow, bucketName: string, key: string, etag: string, now: int,
                                     oldRows: seq<Catalog.CatalogObject>, oldParts: seq<PartRow>,
                                     oldUploads: map<string, UploadRow>, row: Catalog.CatalogObject)
      reads this, objects
    {
      objects.rows == oldRows + [row]
      && row == Catalog.CatalogObject(row.id, upload.bucketId, key, None, etag, SumSizes(PartsOf(oldParts, upload.id)),
           DefaultContentType, now, now, bucketName + "/" + key, None)
      && parts == WithoutParts(oldParts, upload.id)
      && uploads == oldUploads - {upload.uploadId}
    }

    /**
     * The catalog steps of `complete_multipart_upload` once the engine has
     * assembled the object: read the upload's part rows, insert the object
     * row with their summed size, then delete the part rows and the upload.
     */
    method RecordCompletion(upload: UploadRow, bucketName: string, key: string, etag: string, now: int)
      returns (r: Result<(), ApiError>, ghost row: Catalog.CatalogObject)
      requires Valid() && upload.uploadId in uploads && uploads[upload.uploadId] == upload
      modifies this, objects
      ensures Valid()
      ensures Catalog.ObjectAt(old(objects.rows), upload.bucketId, key).Some? ==>
        r == Err(DbFailure(Catalog.UniqueViolation(Catalog.ObjectsConstraint)))
        && objects.rows == old(objects.rows) && uploads == old(uploads) && parts == old(parts)
        && trace == old(trace) + [CatalogRead("multipart_parts")] + [CatalogWrite("objects")]
      ensures Catalog.ObjectAt(old(objects.rows), upload.bucketId, key).None? ==>
        r == Ok(())
        && CatalogCompleted(upload, bucketName, key, etag, now, old(objects.rows), old(parts), old(uploads), row)
        && trace == old(trace) + RecordingTouches
    {
      row :| true;
      trace := trace + [CatalogRead("multipart_parts")];
      var listed := PartsOf(parts, upload.id);
      var totalSize := SumSizes(listed);
      trace := trace + [CatalogWrite("objects")];
      var request := Catalog.CreateObjectRequest(upload.bucketId, key, DefaultContentType, totalSize, bucketName + "/" + key, None);
      var created := objects.Create(request, etag, now);
      if created.Err? {
        r := Err(DbFailure(created.error));
        return;
      }
      row := created.value;
      DropUploadRecords(upload.uploadId, upload.id);
      r := Ok(());
      assert trace == old(trace) + RecordingTouches;
    }

    /** `delete_by_upload` on the part rows, then `delete` on the upload row. */
    method DropUploadRecords(uploadId: string, id: Catalog.Uuid)
      requires Valid()
      modifies this
      ensures Valid()
      ensures parts == WithoutParts(old(parts), id) && uploads == old(uploads) - {uploadId}
      ensures trace == old(trace) + [CatalogWrite("multipart_parts")] + [CatalogWrite("multipart_uploads")]
    {
      trace := trace + [CatalogWrite("multipart_parts")];
      WithoutPartsUnique(parts, id);
      parts := WithoutParts(parts, id);
      trace := trace + [CatalogWrite("multipart_uploads")];
      uploads := uploads - {uploadId};
    }

    /** The engine step of `complete_multipart_upload`, with the client's ETags unquoted and sizes zeroed. */
    method AssembleUpload(uploadId: string, bucketName: string, key: string, requested: seq<(int, string)>, now: int)
      returns (r: Result<string, ApiError>)
      requires Valid()
      modifies this, storage`objects, storage`uploads
      ensures Valid() && uploads == old(uploads) && parts == old(parts)
      ensures trace == old(trace) + AssemblingTouches
      ensures r.Err? ==>
        r.error.Storage? && storage.objects == old(storage.objects) && storage.uploads == old(storage.uploads)
        && (uploadId !in old(storage.uploads) ==> r.error == Storage(StorageText(Engine.UploadNotFound(uploadId))))
      ensures r.Ok? <==> Assemblable(uploadId, bucketName, key, requested, old(storage.uploads))
      ensures r.Ok? ==>
        StorageCompleted(uploadId, bucketName, key, requested, now, old(storage.objects), old(storage.uploads))
        && r.value == Engine.CompositeEtag(storage.md5, Engine.SortedParts(ClientParts(requested)))
    {
      var clientParts := ClientParts(requested);
      trace := trace + AssemblingTouches;
      AssemblableIff(uploadId, bucketName, key, requested, storage.uploads);
      var etag := storage.CompleteMultipartUpload(bucketName, key, uploadId, clientParts, now);
      if etag.Err? {
        return Err(Storage(StorageText(etag.error)));
      }
      r := Ok(etag.value);
    }

    /**
     * The steps of `complete_multipart_upload` after its checks: the engine
     * assembles the object from the client's part list, then the catalog
     * records the completion.
     */
    method FinishCompletion(upload: UploadRow, bucketName: string, key: string, requested: seq<(int, string)>, now: int)
      returns (r: Result<CompleteResponse, ApiError>, ghost row: Catalog.CatalogObject)
      requires Valid() && upload.uploadId in uploads && uploads[upload.uploadId] == upload
      modifies this, objects, storage`objects, storage`uploads
      ensures Valid()
      ensures r.Err? && !r.error.Internal? ==>
        r.error.Storage? && uploads == old(uploads) && parts == old(parts) && objects.rows == old(objects.rows)
        && storage.objects == old(storage.objects) && storage.uploads == old(storage.uploads)
        && (upload.uploadId !in old(storage.uploads) ==>
              r.error == Storage(StorageText(Engine.UploadNotFound(upload.uploadId))))
        && trace == old(trace) + AssemblingTouches
      ensures r.Err? && r.error.Internal? ==>
        r.error == DbFailure(Catalog.UniqueViolation(Catalog.ObjectsConstraint))
        && StorageCompleted(upload.uploadId, bucketName, key, requested, now, old(storage.objects), old(storage.uploads))
        && uploads == old(uploads) && parts == old(parts) && objects.rows == old(objects.rows)
        && trace == old(trace) + AssemblingTouches + [CatalogRead("multipart_parts")] + [CatalogWrite("objects")]
      ensures r.Err? && r.error.Storage? <==> !Assemblable(upload.uploadId, bucketName, key, requested, old(storage.uploads))
      ensures r.Ok? <==>
        Assemblable(upload.uploadId, bucketName, key, requested, old(storage.uploads))
        && Catalog.ObjectAt(old(objects.rows), upload.bucketId, key).None?
      ensures r.Ok? ==>
        r.value == CompleteResponse("https://" + bucketName + ".s3.amazonaws.com/" + key, bucketName, key,
                                    Quoted(Engine.CompositeEtag(storage.md5, Engine.SortedParts(ClientParts(requested)))))
        && StorageCompleted(upload.uploadId, bucketName, key, requested, now, old(storage.objects), old(storage.uploads))
        && CatalogCompleted(upload, bucketName, key, Engine.CompositeEtag(storage.md5, Engine.SortedParts(ClientParts(requested))),
                            now, old(objects.rows), old(parts), old(uploads), row)
        && trace == old(trace) + AssemblingTouches + RecordingTouches
    {
      row :| true;
      var etag := AssembleUpload(upload.uploadId, bucketName, key, requested, now);
      if etag.Err? {
        r := Err(etag.error);
        return;
      }
      var recorded;
      recorded, row := RecordCompletion(upload, bucketName, key, etag.value, now);
      if recorded.Err? {
        r := Err(recorded.error);
        return;
      }
      r := Ok(CompleteResponse("https://" + bucketName + ".s3.amazonaws.com/" + key, bucketName, key, Quoted(etag.value)));
    }

    /**
     * The checks `complete_multipart_upload` makes before touching storage,
     * in order: the `uploadId` parameter, the recorded upload, the bucket, and
     * that the upload belongs to that bucket and key.
     */
    function CompletionTarget(params: map<string, string>, bucketName: string, key: string): (r: Result<UploadRow, ApiError>)
      requires Valid()
      reads this, buckets, objects, storage
      ensures "uploadId" !in params ==> r == Err(BadRequest("Missing uploadId parameter"))
      ensures "uploadId" in params && params["uploadId"] !in uploads ==> r == Err(BadRequest("Upload not found"))
      ensures "uploadId" in params && params["uploadId"] in uploads && buckets.FindByName(bucketName).None? ==>
        r == Err(BucketNotFound(bucketName))
      ensures "uploadId" in params && params["uploadId"] in uploads && buckets.FindByName(bucketName).Some?
              && (uploads[params["uploadId"]].bucketId != buckets.FindByName(bucketName).value.id
                  || uploads[params["uploadId"]].objectKey != key) ==>
        r == Err(BadRequest("Upload bucket/key mismatch"))
      ensures r.Ok? ==>
        "uploadId" in params && params["uploadId"] in uploads && r.value == uploads[params["uploadId"]]
        && r.value.uploadId == params["uploadId"] && r.value.objectKey == key
        && buckets.FindByName(bucketName).Some? && r.value.bucketId == buckets.FindByName(bucketName).value.id
    {
      if "uploadId" !in params then Err(BadRequest("Missing uploadId parameter"))
      else if params["uploadId"] !in uploads then Err(BadRequest("Upload not found"))
      else
        var upload := uploads[params["uploadId"]];
        match buckets.FindByName(bucketName)
        case None => Err(BucketNotFound(bucketName))
        case Some(bucket) =>
          if upload.bucketId != bucket.id || upload.objectKey != key then Err(BadRequest("Upload bucket/key mismatch"))
          else Ok(upload)
    }

    /** The catalog tables those checks read: uploads once `uploadId` is present, buckets once the upload is found. */
    ghost function CheckTrace(params: map<string, string>): seq<Touch>
      reads this
    {
      if "uploadId" !in params then []
      else if params["uploadId"] !in uploads then [CatalogRead("multipart_uploads")]
      else CheckingTouches
    }

    /**
     * `complete_multipart_upload`: after the checks above, the engine
     * assembles the object from the client's part list with the ETags
     * unquoted; the catalog row is then inserted with the summed size of
     * every recorded part of the upload, and the upload's records are
     * removed.
     */
    method CompleteMultipartUpload(bucketName: string, key: string, params: map<string, string>,
                                   requested: seq<(int, string)>, now: int)
      returns (r: Result<CompleteResponse, ApiError>, ghost row: Catalog.CatalogObject)
      requires Valid()
      modifies this, objects, storage`objects, storage`uploads
      ensures Valid()
      ensures old(CompletionTarget(params, bucketName, key)).Err? ==>
        r == Err(old(CompletionTarget(params, bucketName, key)).error)
        && trace == old(trace) + old(CheckTrace(params))
        && uploads == old(uploads) && parts == old(parts) && objects.rows == old(objects.rows)
        && storage.objects == old(storage.objects) && storage.uploads == old(storage.uploads)
      ensures old(CompletionTarget(params, bucketName, key)).Ok? && r.Err? && !r.error.Internal? ==>
        r.error.Storage? && uploads == old(uploads) && parts == old(parts) && objects.rows == old(objects.rows)
        && storage.objects == old(storage.objects) && storage.uploads == old(storage.uploads)
        && (params["uploadId"] !in old(storage.uploads) ==>
              r.error == Storage(StorageText(Engine.UploadNotFound(params["uploadId"]))))
        && trace == old(trace) + CheckingTouches + AssemblingTouches
      ensures old(CompletionTarget(params, bucketName, key)).Ok? && r.Err? && r.error.Internal? ==>
        r.error == DbFailure(Catalog.UniqueViolation(Catalog.ObjectsConstraint))
        && StorageCompleted(params["uploadId"], bucketName, key, requested, now, old(storage.objects), old(storage.uploads))
        && uploads == old(uploads) && parts == old(parts) && objects.rows == old(objects.rows)
        && trace == old(trace) + CheckingTouches + AssemblingTouches + [CatalogRead("multipart_parts")] + [CatalogWrite("objects")]
      ensures old(CompletionTarget(params, bucketName, key)).Ok? ==>
        (r.Err? && r.error.Storage? <==> !Assemblable(params["uploadId"], bucketName, key, requested, old(storage.uploads)))
        && (r.Ok? <==>
              Assemblable(params["uploadId"], bucketName, key, requested, old(storage.uploads))
              && Catalog.ObjectAt(old(objects.rows), old(CompletionTarget(params, bucketName, key)).value.bucketId, key).None?)
      ensures r.Ok? ==>
        old(CompletionTarget(params, bucketName, key)).Ok?
        && r.value == CompleteResponse("https://" + bucketName + ".s3.amazonaws.com/" + key, bucketName, key,
                                       Quoted(Engine.CompositeEtag(storage.md5, Engine.SortedParts(ClientParts(requested)))))
        && StorageCompleted(params["uploadId"], bucketName, key, requested, now, old(storage.objects), old(storage.uploads))
        && CatalogCompleted(old(CompletionTarget(params, bucketName, key)).value, bucketName, key,
                            Engine.CompositeEtag(storage.md5, Engine.SortedParts(ClientParts(requested))),
                            now, old(objects.rows), old(parts), old(uploads), row)
        && trace == old(trace) + CheckingTouches + AssemblingTouches + RecordingTouches
    {
      row :| true;
      var target := CompletionTarget(params, bucketName, key);
      trace := trace + CheckTrace(params);
      if target.Err? {
        r := Err(target.error);
        return;
      }
      var upload := target.value;
      assert trace == old(trace) + CheckingTouches;
      r, row := FinishCompletion(upload, bucketName, key, requested, now);
    }

    /**
     * `abort_multipart_upload`: the upload must be recorded; the engine drops
     * its directory, then the catalog drops its parts and the upload. A second
     * abort of the same upload is a `BadRequest`.
     */
    method AbortMultipartUpload(bucketName: string, key: string, params: map<string, string>)
      returns (r: Result<(), ApiError>)
      requires Valid()
      modifies this, storage`uploads
      ensures Valid()
      ensures "uploadId" !in params ==>
        r == Err(BadRequest("Missing uploadId parameter")) && trace == old(trace)
        && uploads == old(uploads) && parts == old(parts) && storage.uploads == old(storage.uploads)
      ensures "uploadId" in params && params["uploadId"] !in old(uploads) ==>
        r == Err(BadRequest("Upload not found")) && trace == old(trace) + [CatalogRead("multipart_uploads")]
        && uploads == old(uploads) && parts == old(parts) && storage.uploads == old(storage.uploads)
      ensures "uploadId" in params && params["uploadId"] in old(uploads) ==>
        r == Ok(())
        && storage.uploads == old(storage.uploads) - {params["uploadId"]}
        && parts == WithoutParts(old(parts), old(uploads)[params["uploadId"]].id)
        && uploads == old(uploads) - {params["uploadId"]}
        && trace == old(trace) + [CatalogRead("multipart_uploads")] + [StorageCall("abort_multipart_upload")]
             + [CatalogWrite("multipart_parts")] + [CatalogWrite("multipart_uploads")]
    {
      if "uploadId" !in params {
        return Err(BadRequest("Missing uploadId parameter"));
      }
      var uploadId := params["uploadId"];
      trace := trace + [CatalogRead("multipart_uploads")];
      if uploadId !in uploads {
        return Err(BadRequest("Upload not found"));
      }
      var upload := uploads[uploadId];
      trace := trace + [StorageCall("abort_multipart_upload")];
      storage.AbortMultipartUpload(bucketName, key, uploadId);
      DropUploadRecords(uploadId, upload.id);
      r := Ok(());
    }
  }
}
