/**
 * The metadata catalog: the `buckets` and `objects` tables and the two
 * repositories that read and write them. Each table is a sequence of rows in
 * insertion order; the schema's UNIQUE constraints are class invariants, and
 * an INSERT that would break one fails and leaves the table as it was.
 *
 * Timestamps are nanoseconds since the epoch. They are stored as RFC 3339
 * text with 0, 3, 6 or 9 fraction digits and offset "+00:00", whose byte
 * order agrees with time order, so `ORDER BY created_at` sorts by time.
 */
module Catalog {
  import opened Wrappers
  import opened Text
  import opened Sorting

  type Uuid = string

  datatype Bucket = Bucket(
    id: Uuid,
    name: string,
    createdAt: int,
    updatedAt: int,
    versioningEnabled: bool,
    region: string)

  datatype CatalogObject = CatalogObject(
    id: Uuid,
    bucketId: Uuid,
    key: string,
    versionId: Option<Uuid>,
    etag: string,
    size: int,
    contentType: string,
    createdAt: int,
    updatedAt: int,
    storagePath: string,
    metadata: Option<string>)

  /** The fields of a new object row the caller supplies; `metadata` is the serialized JSON. */
  datatype CreateObjectRequest = CreateObjectRequest(
    bucketId: Uuid,
    key: string,
    contentType: string,
    size: int,
    storagePath: string,
    metadata: Option<string>)

  /** The only database failure modelled: an INSERT that violates a UNIQUE constraint. */
  datatype DbError = UniqueViolation(constraint: string)

  /** The UNIQUE key of the objects table, as SQLite names it in a violation. */
  const ObjectsConstraint := "objects.bucket_id, objects.key"
  const BucketsConstraint := "buckets.name"

  // ---------------------------------------------------------------------
  // SQLite `LIKE`

  /**
   * SQLite's `LIKE` without an ESCAPE clause: '%' matches any run of
   * characters, '_' any single character, and other characters match up to
   * ASCII case.
   */
  predicate Like(s: string, pattern: string)
    ensures Like(s, pattern) && '%' !in pattern ==> |s| == |pattern|
    decreases |s| + |pattern|
  {
    if |pattern| == 0 then |s| == 0
    else if pattern[0] == '%' then Like(s, pattern[1..]) || (|s| > 0 && Like(s[1..], pattern))
    else |s| > 0 && (pattern[0] == '_' || LowerChar(pattern[0]) == LowerChar(s[0]))
         && Like(s[1..], pattern[1..])
  }

  lemma {:induction false} PercentMatchesAll(s: string)
    ensures Like(s, "%")
    decreases |s|
  {
    if |s| > 0 {
      PercentMatchesAll(s[1..]);
    } else {
      assert Like(s, "%"[1..]);
    }
  }

  predicate HasWildcard(p: string) {
    '%' in p || '_' in p
  }

  /** `s` starts with `prefix` when ASCII case is ignored. */
  predicate StartsWithIgnoringAsciiCase(s: string, prefix: string) {
    |prefix| <= |s| && Lowercase(s[..|prefix|]) == Lowercase(prefix)
  }

  /**
   * The filter `key LIKE '{prefix}%'` is an ASCII-case-insensitive prefix
   * test, as long as the prefix holds neither wildcard.
   */
  lemma {:induction false} LikePrefix(s: string, prefix: string)
    requires !HasWildcard(prefix)
    ensures Like(s, prefix + "%") <==> StartsWithIgnoringAsciiCase(s, prefix)
    decreases |prefix|
  {
    if |prefix| == 0 {
      assert prefix + "%" == "%";
      PercentMatchesAll(s);
    } else {
      var p := prefix + "%";
      assert p[0] == prefix[0] && p[1..] == prefix[1..] + "%";
      assert !HasWildcard(prefix[1..]) by {
        assert forall c :: c in prefix[1..] ==> c in prefix;
      }
      assert prefix[0] in prefix;
      if |s| > 0 {
        LikePrefix(s[1..], prefix[1..]);
        if |prefix| <= |s| {
          assert s[1..][..|prefix| - 1] == s[..|prefix|][1..];
          LowercaseCons(s[..|prefix|]);
          LowercaseCons(prefix);
          assert StartsWithIgnoringAsciiCase(s, prefix) <==>
            LowerChar(s[0]) == LowerChar(prefix[0]) && StartsWithIgnoringAsciiCase(s[1..], prefix[1..]);
        }
      }
    }
  }

  lemma LowercaseCons(a: string)
    requires |a| > 0
    ensures Lowercase(a) == [LowerChar(a[0])] + Lowercase(a[1..])
  {
  }

  /** Two strings that agree up to ASCII case match exactly the same LIKE patterns. */
  lemma {:induction false} LikeIgnoresCase(s1: string, s2: string, pattern: string)
    requires Lowercase(s1) == Lowercase(s2)
    ensures Like(s1, pattern) <==> Like(s2, pattern)
    decreases |s1| + |pattern|
  {
    if |pattern| > 0 {
      if |s1| > 0 {
        LowercaseCons(s1);
        LowercaseCons(s2);
        assert LowerChar(s1[0]) == LowerChar(s2[0]) && Lowercase(s1[1..]) == Lowercase(s2[1..]);
        LikeIgnoresCase(s1[1..], s2[1..], pattern[1..]);
        if pattern[0] == '%' {
          LikeIgnoresCase(s1[1..], s2[1..], pattern);
        }
      }
      if pattern[0] == '%' {
        LikeIgnoresCase(s1, s2, pattern[1..]);
      }
    }
  }

  /** The LIKE filter is looser than a literal prefix test: it ignores ASCII case. */
  lemma LikeLooserThanPrefix()
    ensures Like("Photos/a.jpg", "photos/" + "%")
    ensures !StartsWith("Photos/a.jpg", "photos/")
  {
    LikePrefix("Photos/a.jpg", "photos/");
    assert "Photos/a.jpg"[..7] == "Photos/";
    assert Lowercase("Photos/") == "photos/";
    assert Lowercase("photos/") == "photos/";
    assert "Photos/a.jpg"[0] != "photos/"[0];
  }

  // ---------------------------------------------------------------------
  // The buckets table

  predicate CreatedNoLater(a: Bucket, b: Bucket) {
    a.createdAt <= b.createdAt
  }

  function BucketIds(rows: seq<Bucket>): (ids: set<Uuid>)
    ensures forall b :: b in rows ==> b.id in ids
  {
    set b | b in rows :: b.id
  }

  /** The row with the given name, if any. */
  function BucketNamed(rows: seq<Bucket>, name: string): (r: Option<Bucket>)
    ensures r.Some? ==> r.value in rows && r.value.name == name
    ensures r.None? <==> forall b :: b in rows ==> b.name != name
  {
    if |rows| == 0 then None
    else if rows[0].name == name then Some(rows[0])
    else
      var r := BucketNamed(rows[1..], name);
      assert forall b :: b in rows ==> b == rows[0] || b in rows[1..];
      r
  }

  /** Keeps the rows whose name differs from `name`, in order. */
  function WithoutBucket(rows: seq<Bucket>, name: string): (r: seq<Bucket>)
    ensures forall b :: b in r <==> b in rows && b.name != name
    ensures |r| <= |rows|
  {
    if |rows| == 0 then []
    else if rows[0].name == name then WithoutBucket(rows[1..], name)
    else [rows[0]] + WithoutBucket(rows[1..], name)
  }

  /** `id` is the primary key and `name` is UNIQUE. */
  ghost predicate UniqueBuckets(rows: seq<Bucket>) {
    forall i, j :: 0 <= i < j < |rows| ==> rows[i].id != rows[j].id && rows[i].name != rows[j].name
  }

  class BucketRepository {
    var rows: seq<Bucket>

    ghost predicate Valid()
      reads this
    {
      UniqueBuckets(rows)
    }

    constructor ()
      ensures Valid() && rows == []
    {
      rows := [];
    }

    /**
     * `create`: inserts a bucket with a fresh id, the given name and region,
     * both timestamps `now` and versioning off; a taken name violates the
     * UNIQUE constraint and inserts nothing.
     */
    method Create(name: string, region: string, now: int) returns (r: Result<Bucket, DbError>)
      requires Valid()
      modifies this
      ensures Valid()
      ensures BucketNamed(old(rows), name).Some? ==> r == Err(UniqueViolation(BucketsConstraint)) && rows == old(rows)
      ensures BucketNamed(old(rows), name).None? ==>
        r.Ok? && r.value.id !in BucketIds(old(rows))
        && r.value == Bucket(r.value.id, name, now, now, false, region)
        && rows == old(rows) + [r.value]
    {
      if BucketNamed(rows, name).Some? {
        return Err(UniqueViolation(BucketsConstraint));
      }
      FreshName(BucketIds(rows), "");
      var id :| id !in BucketIds(rows) && StartsWith(id, "");
      var bucket := Bucket(id, name, now, now, false, region);
      rows := rows + [bucket];
      r := Ok(bucket);
    }

    /** `find_by_name`: the one bucket with exactly that name, or None. */
    function FindByName(name: string): (r: Option<Bucket>)
      requires Valid()
      reads this
      ensures r.Some? ==> r.value in rows && r.value.name == name
      ensures r.None? <==> forall b :: b in rows ==> b.name != name
      ensures forall b :: b in rows && b.name == name ==> r == Some(b)
    {
      var r := BucketNamed(rows, name);
      assert forall b :: b in rows && b.name == name ==> r == Some(b) by {
        forall b | b in rows && b.name == name
          ensures r == Some(b)
        {
          var i :| 0 <= i < |rows| && rows[i] == b;
          var j :| 0 <= j < |rows| && rows[j] == r.value;
          assert i == j;
        }
      }
      r
    }

    /**
     * `list`: every bucket, ordered by creation time; rows created at the same
     * instant come back in an order SQLite leaves open.
     */
    method List() returns (buckets: seq<Bucket>)
      ensures multiset(buckets) == multiset(rows)
      ensures forall i, j :: 0 <= i < j < |buckets| ==> buckets[i].createdAt <= buckets[j].createdAt
    {
      assert OldestFirstOf(SortBy(rows, CreatedNoLater), rows) by {
        SortBySorted(rows, CreatedNoLater);
      }
      var ordered :| OldestFirstOf(ordered, rows);
      buckets := [];
      var i := 0;
      while i < |ordered|
        invariant i <= |ordered|
        invariant buckets == ordered[..i]
      {
        assert ordered[..i + 1] == ordered[..i] + [ordered[i]];
        buckets := buckets + [ordered[i]];
        i := i + 1;
      }
      assert buckets == ordered;
      OldestFirst(buckets, rows);
    }

    /** `delete`: true iff a bucket with that name existed; afterwards none does. No emptiness check. */
    method Delete(name: string) returns (deleted: bool)
      requires Valid()
      modifies this
      ensures Valid()
      ensures deleted <==> BucketNamed(old(rows), name).Some?
      ensures rows == WithoutBucket(old(rows), name)
      ensures BucketNamed(rows, name).None?
    {
      deleted := BucketNamed(rows, name).Some?;
      assert deleted <==> BucketNamed(old(rows), name).Some?;
      WithoutBucketKeepsUnique(rows, name);
      rows := WithoutBucket(rows, name);
      assert forall b :: b in rows ==> b.name != name;
    }
  }

  /** Deleting the rows with one name keeps the others, so ids and names stay unique. */
  lemma {:induction false} WithoutBucketKeepsUnique(rows: seq<Bucket>, name: string)
    requires UniqueBuckets(rows)
    ensures UniqueBuckets(WithoutBucket(rows, name))
  {
    if |rows| > 0 {
      WithoutBucketKeepsUnique(rows[1..], name);
      var tail := WithoutBucket(rows[1..], name);
      forall b | b in tail
        ensures b.id != rows[0].id && b.name != rows[0].name
      {
        var k :| 0 <= k < |rows[1..]| && rows[1..][k] == b;
        assert rows[k + 1] == b;
      }
      if rows[0].name != name {
        var r := [rows[0]] + tail;
        forall i, j | 0 <= i < j < |r|
          ensures r[i].id != r[j].id && r[i].name != r[j].name
        {
          assert r[j] == tail[j - 1] && tail[j - 1] in tail;
          if i == 0 {
            assert r[i] == rows[0];
          } else {
            assert r[i] == tail[i - 1];
            assert UniqueBuckets(tail);
          }
        }
        assert WithoutBucket(rows, name) == r;
      }
    }
  }

  // ---------------------------------------------------------------------
  // The objects table

  predicate KeyNoLater(a: CatalogObject, b: CatalogObject) {
    LexLe(a.key, b.key)
  }

  function ObjectIds(rows: seq<CatalogObject>): (ids: set<Uuid>)
    ensures forall o :: o in rows ==> o.id in ids
  {
    set o | o in rows :: o.id
  }

  predicate IsAt(o: CatalogObject, bucketId: Uuid, key: string) {
    o.bucketId == bucketId && o.key == key
  }

  /** The row for (bucket_id, key), if any. */
  function ObjectAt(rows: seq<CatalogObject>, bucketId: Uuid, key: string): (r: Option<CatalogObject>)
    ensures r.Some? ==> r.value in rows && IsAt(r.value, bucketId, key)
    ensures r.None? <==> forall o :: o in rows ==> !IsAt(o, bucketId, key)
  {
    if |rows| == 0 then None
    else if IsAt(rows[0], bucketId, key) then Some(rows[0])
    else
      var r := ObjectAt(rows[1..], bucketId, key);
      assert forall o :: o in rows ==> o == rows[0] || o in rows[1..];
      r
  }

  function WithoutObject(rows: seq<CatalogObject>, bucketId: Uuid, key: string): (r: seq<CatalogObject>)
    ensures forall o :: o in r <==> o in rows && !IsAt(o, bucketId, key)
  {
    if |rows| == 0 then []
    else if IsAt(rows[0], bucketId, key) then WithoutObject(rows[1..], bucketId, key)
    else [rows[0]] + WithoutObject(rows[1..], bucketId, key)
  }

  /** What the `ON DELETE CASCADE` of `objects.bucket_id` leaves: every row of the other buckets, in order. */
  function OutsideBucket(rows: seq<CatalogObject>, bucketId: Uuid): (r: seq<CatalogObject>)
    ensures forall o :: o in r <==> o in rows && o.bucketId != bucketId
  {
    if |rows| == 0 then []
    else if rows[0].bucketId == bucketId then OutsideBucket(rows[1..], bucketId)
    else [rows[0]] + OutsideBucket(rows[1..], bucketId)
  }

  predicate MatchesPrefix(key: string, prefix: Option<string>) {
    prefix.None? || Like(key, prefix.value + "%")
  }

  predicate Listed(o: CatalogObject, bucketId: Uuid, prefix: Option<string>) {
    o.bucketId == bucketId && MatchesPrefix(o.key, prefix)
  }

  /** The rows the WHERE clause of `list_by_bucket` selects, in table order. */
  function Selected(rows: seq<CatalogObject>, bucketId: Uuid, prefix: Option<string>): (r: seq<CatalogObject>)
    ensures forall o :: o in r <==> o in rows && Listed(o, bucketId, prefix)
    ensures |r| <= |rows|
  {
    if |rows| == 0 then []
    else if Listed(rows[0], bucketId, prefix) then [rows[0]] + Selected(rows[1..], bucketId, prefix)
    else Selected(rows[1..], bucketId, prefix)
  }

  /**
   * `limit.unwrap_or(1000).min(1000)` bound as the SQL LIMIT, where SQLite
   * reads a negative LIMIT as no limit at all (None).
   */
  function EffectiveLimit(limit: Option<int>): (r: Option<nat>)
    ensures limit.None? ==> r == Some(1000)
    ensures r.None? <==> limit.Some? && limit.value < 0
    ensures r.Some? ==> r.value <= 1000 && (limit.Some? ==> r.value == if limit.value < 1000 then limit.value else 1000)
  {
    var l := if limit.GetOr(1000) < 1000 then limit.GetOr(1000) else 1000;
    if l < 0 then None else Some(l)
  }

  function TakeAtMost<T>(s: seq<T>, n: Option<nat>): (r: seq<T>)
    ensures n.None? ==> r == s
    ensures n.Some? ==> r == s[..if n.value < |s| then n.value else |s|]
  {
    match n
    case None => s
    case Some(k) => if k < |s| then s[..k] else s
  }

  /** Distinct rows of one bucket have distinct keys. */
  ghost predicate KeysUnique(rows: seq<CatalogObject>) {
    forall i, j :: 0 <= i < j < |rows| ==> !IsAt(rows[j], rows[i].bucketId, rows[i].key)
  }

  class ObjectRepository {
    var rows: seq<CatalogObject>

    /** `id` is the primary key and `(bucket_id, key)` is UNIQUE. */
    ghost predicate Valid()
      reads this
    {
      KeysUnique(rows) && forall i, j :: 0 <= i < j < |rows| ==> rows[i].id != rows[j].id
    }

    constructor ()
      ensures Valid() && rows == []
    {
      rows := [];
    }

    /**
     * `create`: inserts a row with a fresh id, the request's fields, the given
     * ETag, no version and both timestamps `now`. An existing row for the same
     * (bucket_id, key) makes the INSERT fail; it is never replaced.
     */
    method Create(req: CreateObjectRequest, etag: string, now: int) returns (r: Result<CatalogObject, DbError>)
      requires Valid()
      modifies this
      ensures Valid()
      ensures ObjectAt(old(rows), req.bucketId, req.key).Some? ==>
        r == Err(UniqueViolation(ObjectsConstraint)) && rows == old(rows)
      ensures ObjectAt(old(rows), req.bucketId, req.key).None? ==>
        r.Ok? && r.value.id !in ObjectIds(old(rows))
        && r.value == CatalogObject(r.value.id, req.bucketId, req.key, None, etag, req.size,
                                    req.contentType, now, now, req.storagePath, req.metadata)
        && rows == old(rows) + [r.value]
    {
      if ObjectAt(rows, req.bucketId, req.key).Some? {
        return Err(UniqueViolation(ObjectsConstraint));
      }
      FreshName(ObjectIds(rows), "");
      var id :| id !in ObjectIds(rows) && StartsWith(id, "");
      var o := CatalogObject(id, req.bucketId, req.key, None, etag, req.size,
                             req.contentType, now, now, req.storagePath, req.metadata);
      rows := rows + [o];
      r := Ok(o);
    }

    /** `find_by_bucket_and_key`: the unique row matching both fields, or None. */
    function FindByBucketAndKey(bucketId: Uuid, key: string): (r: Option<CatalogObject>)
      requires Valid()
      reads this
      ensures r.None? <==> forall o :: o in rows ==> !IsAt(o, bucketId, key)
      ensures forall o :: o in rows && IsAt(o, bucketId, key) ==> r == Some(o)
    {
      var r := ObjectAt(rows, bucketId, key);
      assert forall o :: o in rows && IsAt(o, bucketId, key) ==> r == Some(o) by {
        forall o | o in rows && IsAt(o, bucketId, key)
          ensures r == Some(o)
        {
          var i :| 0 <= i < |rows| && rows[i] == o;
          var j :| 0 <= j < |rows| && rows[j] == r.value;
          assert i == j;
        }
      }
      r
    }

    /**
     * `list_by_bucket`: the bucket's rows whose key matches `LIKE '{prefix}%'`
     * when a prefix is given, ordered by key, at most the effective limit of
     * them, and always the ones with the smallest keys.
     */
    method ListByBucket(bucketId: Uuid, prefix: Option<string>, limit: Option<int>) returns (objects: seq<CatalogObject>)
      requires Valid()
      ensures forall o :: o in objects ==> o in rows && Listed(o, bucketId, prefix)
      ensures forall i, j :: 0 <= i < j < |objects| ==> LexLe(objects[i].key, objects[j].key) && objects[i].key != objects[j].key
      ensures EffectiveLimit(limit).Some? ==> |objects| <= EffectiveLimit(limit).value
      ensures forall o :: o in rows && Listed(o, bucketId, prefix) && o !in objects ==>
        EffectiveLimit(limit).Some? && |objects| == EffectiveLimit(limit).value
        && forall x :: x in objects ==> LexLe(x.key, o.key)
    {
      var n := EffectiveLimit(limit);
      var selected := Selected(rows, bucketId, prefix);
      assert KeyOrderOf(SortBy(selected, KeyNoLater), selected) by {
        LexOrderIsTotalPreorder();
        SortBySorted(selected, KeyNoLater);
      }
      var ordered :| KeyOrderOf(ordered, selected);
      var page := TakeAtMost(ordered, n);
      objects := [];
      var i := 0;
      while i < |page|
        invariant i <= |page|
        invariant objects == page[..i]
      {
        assert page[..i + 1] == page[..i] + [page[i]];
        objects := objects + [page[i]];
        i := i + 1;
      }
      assert objects == page;
      SelectedFacts(rows, bucketId, prefix, ordered, page, n);
    }

    /** `delete`: true iff the (bucket_id, key) row existed; only that row goes. */
    method Delete(bucketId: Uuid, key: string) returns (deleted: bool)
      requires Valid()
      modifies this
      ensures Valid()
      ensures deleted <==> ObjectAt(old(rows), bucketId, key).Some?
      ensures rows == WithoutObject(old(rows), bucketId, key)
    {
      deleted := ObjectAt(rows, bucketId, key).Some?;
      WithoutObjectKeepsUnique(rows, bucketId, key);
      rows := WithoutObject(rows, bucketId, key);
    }

    /**
     * The `ON DELETE CASCADE` on `objects.bucket_id`, which SQLite runs when
     * the bucket row goes: every row of that bucket is deleted with it.
     */
    method CascadeBucket(bucketId: Uuid)
      requires Valid()
      modifies this
      ensures Valid()
      ensures rows == OutsideBucket(old(rows), bucketId)
      ensures forall o :: o in rows ==> o.bucketId != bucketId
    {
      OutsideBucketKeepsUnique(rows, bucketId);
      rows := OutsideBucket(rows, bucketId);
    }
  }

  /** `buckets` holds the rows, oldest first. */
  predicate OldestFirstOf(buckets: seq<Bucket>, rows: seq<Bucket>) {
    multiset(buckets) == multiset(rows) && SortedBy(buckets, CreatedNoLater)
  }

  lemma OldestFirst(buckets: seq<Bucket>, rows: seq<Bucket>)
    requires OldestFirstOf(buckets, rows)
    ensures forall i, j :: 0 <= i < j < |buckets| ==> buckets[i].createdAt <= buckets[j].createdAt
  {
    var le := CreatedNoLater;
    forall i, j | 0 <= i < j < |buckets|
      ensures buckets[i].createdAt <= buckets[j].createdAt
    {
      assert le(buckets[i], buckets[j]);
    }
  }

  lemma LexOrderIsTotalPreorder()
    ensures Total(KeyNoLater) && Transitive(KeyNoLater)
  {
    forall a, b
      ensures KeyNoLater(a, b) || KeyNoLater(b, a)
    {
      LexLeTotal(a.key, b.key);
    }
    forall a, b, c | KeyNoLater(a, b) && KeyNoLater(b, c)
      ensures KeyNoLater(a, c)
    {
      LexLeTransitive(a.key, b.key, c.key);
    }
  }

  /** The facts `ListByBucket` promises, about the sorted selection and its first page. */
  /** `ordered` holds the selected rows, by ascending key. */
  predicate KeyOrderOf(ordered: seq<CatalogObject>, selected: seq<CatalogObject>) {
    multiset(ordered) == multiset(selected) && SortedBy(ordered, KeyNoLater)
  }

  lemma SelectedFacts(rows: seq<CatalogObject>, bucketId: Uuid, prefix: Option<string>,
                      ordered: seq<CatalogObject>, page: seq<CatalogObject>, n: Option<nat>)
    requires KeysUnique(rows)
    requires KeyOrderOf(ordered, Selected(rows, bucketId, prefix))
    requires page == TakeAtMost(ordered, n)
    ensures forall o :: o in page ==> o in rows && Listed(o, bucketId, prefix)
    ensures forall i, j :: 0 <= i < j < |page| ==> LexLe(page[i].key, page[j].key) && page[i].key != page[j].key
    ensures n.Some? ==> |page| <= n.value
    ensures forall o :: o in rows && Listed(o, bucketId, prefix) && o !in page ==>
      n.Some? && |page| == n.value && forall x :: x in page ==> LexLe(x.key, o.key)
  {
    var sel := Selected(rows, bucketId, prefix);
    assert forall o :: o in ordered <==> o in sel by {
      forall o ensures o in ordered <==> o in sel {
        assert o in ordered <==> o in multiset(ordered);
        assert o in sel <==> o in multiset(sel);
      }
    }
    assert forall k :: 0 <= k < |page| ==> page[k] == ordered[k];
    forall i, j | 0 <= i < j < |page|
      ensures LexLe(page[i].key, page[j].key) && page[i].key != page[j].key
    {
      assert ordered[i] in sel && ordered[j] in sel;
      DistinctSelected(rows, bucketId, prefix, ordered, i, j);
    }
    forall o | o in rows && Listed(o, bucketId, prefix) && o !in page
      ensures n.Some? && |page| == n.value && forall x :: x in page ==> LexLe(x.key, o.key)
    {
      assert o in sel;
      var k :| 0 <= k < |ordered| && ordered[k] == o;
      assert k >= |page|;
      forall x | x in page
        ensures LexLe(x.key, o.key)
      {
        var m :| 0 <= m < |page| && page[m] == x;
        assert ordered[m] == x;
      }
    }
  }

  /** Two positions of the sorted selection hold rows with different keys. */
  lemma DistinctSelected(rows: seq<CatalogObject>, bucketId: Uuid, prefix: Option<string>,
                         ordered: seq<CatalogObject>, i: nat, j: nat)
    requires KeysUnique(rows)
    requires multiset(ordered) == multiset(Selected(rows, bucketId, prefix))
    requires i < j < |ordered|
    ensures ordered[i].key != ordered[j].key
  {
    var sel := Selected(rows, bucketId, prefix);
    assert ordered[i] in multiset(sel) && ordered[j] in multiset(sel);
    assert ordered[i] in rows && ordered[j] in rows;
    assert ordered[i].bucketId == bucketId == ordered[j].bucketId;
    if ordered[i] == ordered[j] {
      MultisetCount(ordered, i, j);
      SelectedHasNoDuplicates(rows, bucketId, prefix);
    } else {
      var a :| 0 <= a < |rows| && rows[a] == ordered[i];
      var b :| 0 <= b < |rows| && rows[b] == ordered[j];
      assert a != b;
    }
  }

  lemma MultisetCount<T>(s: seq<T>, i: nat, j: nat)
    requires i < j < |s| && s[i] == s[j]
    ensures multiset(s)[s[i]] >= 2
  {
    assert s == s[..j] + [s[j]] + s[j + 1..];
    assert s[..j] == s[..i] + [s[i]] + s[i + 1..j];
    assert multiset(s[..j])[s[i]] >= 1;
  }

  lemma {:induction false} SelectedHasNoDuplicates(rows: seq<CatalogObject>, bucketId: Uuid, prefix: Option<string>)
    requires KeysUnique(rows)
    ensures forall o :: multiset(Selected(rows, bucketId, prefix))[o] <= 1
  {
    if |rows| > 0 {
      assert KeysUnique(rows[1..]) by {
        forall i, j | 0 <= i < j < |rows[1..]|
          ensures !IsAt(rows[1..][j], rows[1..][i].bucketId, rows[1..][i].key)
        {
          assert rows[1..][i] == rows[i + 1] && rows[1..][j] == rows[j + 1];
        }
      }
      SelectedHasNoDuplicates(rows[1..], bucketId, prefix);
      assert rows[0] !in rows[1..] by {
        forall k | 0 <= k < |rows[1..]|
          ensures rows[1..][k] != rows[0]
        {
          assert rows[1..][k] == rows[k + 1];
          assert !IsAt(rows[k + 1], rows[0].bucketId, rows[0].key);
        }
      }
      assert rows[0] !in Selected(rows[1..], bucketId, prefix);
    }
  }

  lemma {:induction false} WithoutObjectKeepsUnique(rows: seq<CatalogObject>, bucketId: Uuid, key: string)
    requires KeysUnique(rows) && forall i, j :: 0 <= i < j < |rows| ==> rows[i].id != rows[j].id
    ensures var r := WithoutObject(rows, bucketId, key);
      KeysUnique(r) && forall i, j :: 0 <= i < j < |r| ==> r[i].id != r[j].id
  {
    if |rows| > 0 {
      assert KeysUnique(rows[1..]) by {
        forall i, j | 0 <= i < j < |rows[1..]|
          ensures !IsAt(rows[1..][j], rows[1..][i].bucketId, rows[1..][i].key)
        {
          assert rows[1..][i] == rows[i + 1] && rows[1..][j] == rows[j + 1];
        }
      }
      WithoutObjectKeepsUnique(rows[1..], bucketId, key);
      var tail := WithoutObject(rows[1..], bucketId, key);
      forall o | o in tail
        ensures o.id != rows[0].id && !IsAt(o, rows[0].bucketId, rows[0].key)
      {
        var k :| 0 <= k < |rows[1..]| && rows[1..][k] == o;
        assert rows[k + 1] == o;
      }
    }
  }

  lemma {:induction false} OutsideBucketKeepsUnique(rows: seq<CatalogObject>, bucketId: Uuid)
    requires KeysUnique(rows) && forall i, j :: 0 <= i < j < |rows| ==> rows[i].id != rows[j].id
    ensures var r := OutsideBucket(rows, bucketId);
      KeysUnique(r) && forall i, j :: 0 <= i < j < |r| ==> r[i].id != r[j].id
  {
    if |rows| > 0 {
      assert KeysUnique(rows[1..]) by {
        forall i, j | 0 <= i < j < |rows[1..]|
          ensures !IsAt(rows[1..][j], rows[1..][i].bucketId, rows[1..][i].key)
        {
          assert rows[1..][i] == rows[i + 1] && rows[1..][j] == rows[j + 1];
        }
      }
      OutsideBucketKeepsUnique(rows[1..], bucketId);
      var tail := OutsideBucket(rows[1..], bucketId);
      forall o | o in tail
        ensures o.id != rows[0].id && !IsAt(o, rows[0].bucketId, rows[0].key)
      {
        var k :| 0 <= k < |rows[1..]| && rows[1..][k] == o;
        assert rows[k + 1] == o;
      }
    }
  }

  /** The sorted selection is unique: the listing does not depend on the table's row order. */
  lemma ListingIsDeterministic(rows: seq<CatalogObject>, bucketId: Uuid, prefix: Option<string>,
                               a: seq<CatalogObject>, b: seq<CatalogObject>)
    requires KeysUnique(rows)
    requires multiset(a) == multiset(Selected(rows, bucketId, prefix)) && SortedBy(a, KeyNoLater)
    requires multiset(b) == multiset(Selected(rows, bucketId, prefix)) && SortedBy(b, KeyNoLater)
    ensures a == b
  {
    forall i, j | 0 <= i < |a| && 0 <= j < |a| && KeyNoLater(a[i], a[j]) && KeyNoLater(a[j], a[i])
      ensures a[i] == a[j]
    {
      LexLeAntisymmetric(a[i].key, a[j].key);
      if i < j {
        DistinctSelected(rows, bucketId, prefix, a, i, j);
      } else if j < i {
        DistinctSelected(rows, bucketId, prefix, a, j, i);
      }
    }
    SortedUnique(a, b, KeyNoLater);
  }
}
