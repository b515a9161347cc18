/**
 * The `access_keys` table and `AccessKeyRepository` of `crates/auth/src/keys.rs`,
 * with the two random generators. The table is a sequence of rows in insertion
 * order; the primary key `id` and the UNIQUE `access_key_id` are the class
 * invariant. The generators pick each character nondeterministically from
 * their alphabet; a UUID is any id not yet in the table; the clock is a
 * parameter (nanoseconds since the epoch).
 */
module Keys {
  import opened Wrappers
  import opened Text
  import opened Sorting
  import Catalog

  datatype AccessKey = AccessKey(
    id: Catalog.Uuid,
    accessKeyId: string,
    secretAccessKey: string,
    createdAt: int,
    expiresAt: Option<int>,
    isActive: bool,
    policies: seq<string>,
    description: Option<string>)

  datatype CreateAccessKeyRequest = CreateAccessKeyRequest(
    policies: seq<string>,
    description: Option<string>,
    expiresAt: Option<int>)

  const KeyIdPrefix := "AKIA"
  const KeyIdAlphabet := "ABCDEFGHIJKLMNOPQRSTUVWXYZ0123456789"
  const SecretAlphabet := "ABCDEFGHIJKLMNOPQRSTUVWXYZabcdefghijklmnopqrstuvwxyz0123456789+/"

  /** "AKIA" and 16 characters from A-Z0-9: 20 characters in all. */
  predicate IsAccessKeyId(s: string) {
    |s| == 20 && StartsWith(s, KeyIdPrefix) && forall i :: 4 <= i < 20 ==> s[i] in KeyIdAlphabet
  }

  /** 40 characters from A-Za-z0-9+/. */
  predicate IsSecretKey(s: string) {
    |s| == 40 && forall i :: 0 <= i < 40 ==> s[i] in SecretAlphabet
  }

  /** `generate_access_key_id`: "AKIA" then 16 random picks from A-Z0-9. */
  method GenerateAccessKeyId() returns (s: string)
    ensures IsAccessKeyId(s)
  {
    var part := "";
    var i := 0;
    while i < 16
      invariant 0 <= i <= 16 && |part| == i
      invariant forall j :: 0 <= j < i ==> part[j] in KeyIdAlphabet
    {
      var k: nat :| k < 36;
      var c := KeyIdAlphabet[k];
      part := part + [c];
      i := i + 1;
    }
    s := KeyIdPrefix + part;
    assert s[..4] == KeyIdPrefix;
    assert forall j :: 4 <= j < 20 ==> s[j] == part[j - 4];
  }

  /** `generate_secret_access_key`: 40 random picks from A-Za-z0-9+/. */
  method GenerateSecretAccessKey() returns (s: string)
    ensures IsSecretKey(s)
  {
    s := "";
    while |s| < 40
      invariant |s| <= 40
      invariant forall j :: 0 <= j < |s| ==> s[j] in SecretAlphabet
    {
      var k: nat :| k < 64;
      var c := SecretAlphabet[k];
      s := s + [c];
    }
  }

  function Ids(rows: seq<AccessKey>): (ids: set<Catalog.Uuid>)
    ensures forall k :: k in rows ==> k.id in ids
  {
    set k | k in rows :: k.id
  }

  function KeyIds(rows: seq<AccessKey>): (ids: set<string>)
    ensures forall k :: k in rows ==> k.accessKeyId in ids
  {
    set k | k in rows :: k.accessKeyId
  }

  /** `id` is the primary key and `access_key_id` is UNIQUE. */
  ghost predicate UniqueKeys(rows: seq<AccessKey>) {
    forall i, j :: 0 <= i < j < |rows| ==>
      rows[i].id != rows[j].id && rows[i].accessKeyId != rows[j].accessKeyId
  }

  /** The active row with that access key id, if any. */
  function ActiveKey(rows: seq<AccessKey>, accessKeyId: string): (r: Option<AccessKey>)
    ensures r.Some? ==> r.value in rows && r.value.accessKeyId == accessKeyId && r.value.isActive
    ensures r.None? <==> forall k :: k in rows ==> k.accessKeyId != accessKeyId || !k.isActive
  {
    if |rows| == 0 then None
    else if rows[0].accessKeyId == accessKeyId && rows[0].isActive then Some(rows[0])
    else
      var r := ActiveKey(rows[1..], accessKeyId);
      assert forall k :: k in rows ==> k == rows[0] || k in rows[1..];
      r
  }

  /** The rows `list` selects: all of them, or only the active ones. */
  function Visible(rows: seq<AccessKey>, includeInactive: bool): (r: seq<AccessKey>)
    ensures forall k :: k in r <==> k in rows && (includeInactive || k.isActive)
    ensures includeInactive ==> r == rows
  {
    if |rows| == 0 then []
    else
      var rest := Visible(rows[1..], includeInactive);
      assert forall k :: k in rows <==> k == rows[0] || k in rows[1..];
      if includeInactive || rows[0].isActive then
        assert rows == [rows[0]] + rows[1..];
        [rows[0]] + rest
      else rest
  }

  predicate CreatedNoEarlier(a: AccessKey, b: AccessKey) {
    a.createdAt >= b.createdAt
  }

  /** `keys` holds the rows of `selected`, newest first. */
  predicate NewestFirstOf(keys: seq<AccessKey>, selected: seq<AccessKey>) {
    multiset(keys) == multiset(selected) && SortedBy(keys, CreatedNoEarlier)
  }

  lemma NewestFirst(keys: seq<AccessKey>, selected: seq<AccessKey>)
    requires NewestFirstOf(keys, selected)
    ensures forall k :: k in keys <==> k in selected
    ensures forall i, j :: 0 <= i < j < |keys| ==> keys[i].createdAt >= keys[j].createdAt
  {
    SameElements(keys, selected);
    var le := CreatedNoEarlier;
    forall i, j | 0 <= i < j < |keys|
      ensures keys[i].createdAt >= keys[j].createdAt
    {
      assert le(keys[i], keys[j]);
    }
  }

  /** `UPDATE … SET is_active = false WHERE access_key_id = ?`. */
  function Deactivated(rows: seq<AccessKey>, accessKeyId: string): (r: seq<AccessKey>)
    ensures |r| == |rows|
    ensures forall i :: 0 <= i < |rows| ==>
      r[i] == if rows[i].accessKeyId == accessKeyId then rows[i].(isActive := false) else rows[i]
  {
    if |rows| == 0 then []
    else
      var head := if rows[0].accessKeyId == accessKeyId then rows[0].(isActive := false) else rows[0];
      [head] + Deactivated(rows[1..], accessKeyId)
  }

  /** `DELETE … WHERE access_key_id = ?`: the other rows, in order. */
  function WithoutKey(rows: seq<AccessKey>, accessKeyId: string): (r: seq<AccessKey>)
    ensures forall k :: k in r <==> k in rows && k.accessKeyId != accessKeyId
    ensures |r| <= |rows|
  {
    if |rows| == 0 then []
    else if rows[0].accessKeyId == accessKeyId then WithoutKey(rows[1..], accessKeyId)
    else [rows[0]] + WithoutKey(rows[1..], accessKeyId)
  }

  /** `UPDATE … SET secret_access_key = ?, created_at = ? WHERE access_key_id = ?`. */
  function Rotated(rows: seq<AccessKey>, accessKeyId: string, secret: string, now: int): (r: seq<AccessKey>)
    ensures |r| == |rows|
    ensures forall i :: 0 <= i < |rows| ==>
      r[i] == if rows[i].accessKeyId == accessKeyId
              then rows[i].(secretAccessKey := secret, createdAt := now) else rows[i]
  {
    if |rows| == 0 then []
    else
      var head := if rows[0].accessKeyId == accessKeyId
                  then rows[0].(secretAccessKey := secret, createdAt := now) else rows[0];
      [head] + Rotated(rows[1..], accessKeyId, secret, now)
  }

  /** `expires_at IS NOT NULL AND expires_at < now`. */
  predicate ExpiredBefore(k: AccessKey, now: int) {
    k.expiresAt.Some? && k.expiresAt.value < now
  }

  /** The rows `cleanup_expired` updates set inactive; the others are left alone. */
  function ExpireBefore(rows: seq<AccessKey>, now: int): (r: seq<AccessKey>)
    ensures |r| == |rows|
    ensures forall i :: 0 <= i < |rows| ==>
      r[i] == if ExpiredBefore(rows[i], now) then rows[i].(isActive := false) else rows[i]
  {
    if |rows| == 0 then []
    else
      var head := if ExpiredBefore(rows[0], now) then rows[0].(isActive := false) else rows[0];
      [head] + ExpireBefore(rows[1..], now)
  }

  /** How many rows the WHERE clause matches: SQLite counts them whether or not they were active. */
  function ExpiredCount(rows: seq<AccessKey>, now: int): (n: nat)
    ensures n <= |rows|
    ensures n == 0 <==> forall i :: 0 <= i < |rows| ==> !ExpiredBefore(rows[i], now)
  {
    if |rows| == 0 then 0
    else
      var rest := ExpiredCount(rows[1..], now);
      assert forall i :: 1 <= i < |rows| ==> rows[i] == rows[1..][i - 1];
      (if ExpiredBefore(rows[0], now) then 1 else 0) + rest
  }

  /** An UPDATE that changes neither `id` nor `access_key_id` keeps both unique. */
  lemma SameKeysStayUnique(before: seq<AccessKey>, after: seq<AccessKey>)
    requires UniqueKeys(before) && |after| == |before|
    requires forall i :: 0 <= i < |before| ==>
      after[i].id == before[i].id && after[i].accessKeyId == before[i].accessKeyId
    ensures UniqueKeys(after)
  {
  }

  lemma {:induction false} WithoutKeyStaysUnique(rows: seq<AccessKey>, accessKeyId: string)
    requires UniqueKeys(rows)
    ensures UniqueKeys(WithoutKey(rows, accessKeyId))
  {
    if |rows| > 0 {
      WithoutKeyStaysUnique(rows[1..], accessKeyId);
      var tail := WithoutKey(rows[1..], accessKeyId);
      forall k | k in tail
        ensures k.id != rows[0].id && k.accessKeyId != rows[0].accessKeyId
      {
        var j :| 0 <= j < |rows[1..]| && rows[1..][j] == k;
        assert rows[j + 1] == k;
      }
    }
  }

  /**
   * Cleaning up twice matches the same rows: the second run sets nothing new
   * but still reports the expired keys it matched.
   */
  lemma {:induction false} CleanupCountsMatches(rows: seq<AccessKey>, now: int)
    ensures ExpireBefore(ExpireBefore(rows, now), now) == ExpireBefore(rows, now)
    ensures ExpiredCount(ExpireBefore(rows, now), now) == ExpiredCount(rows, now)
  {
    if |rows| > 0 {
      CleanupCountsMatches(rows[1..], now);
      assert ExpireBefore(rows, now)[1..] == ExpireBefore(rows[1..], now);
    }
  }

  /**
   * After a cleanup the active key for an access key id is the one before,
   * unless that one had expired; uniqueness of `access_key_id` rules out a
   * second row taking its place.
   */
  lemma {:induction false} ActiveAfterCleanup(rows: seq<AccessKey>, now: int, accessKeyId: string)
    requires UniqueKeys(rows)
    ensures ActiveKey(ExpireBefore(rows, now), accessKeyId) ==
      if ActiveKey(rows, accessKeyId).Some? && !ExpiredBefore(ActiveKey(rows, accessKeyId).value, now)
      then ActiveKey(rows, accessKeyId) else None
  {
    if |rows| > 0 {
      var after := ExpireBefore(rows, now);
      assert after[1..] == ExpireBefore(rows[1..], now);
      if rows[0].accessKeyId == accessKeyId && rows[0].isActive {
        if ExpiredBefore(rows[0], now) {
          forall k | k in after[1..]
            ensures k.accessKeyId != accessKeyId
          {
            var j :| 0 <= j < |after[1..]| && after[1..][j] == k;
            assert rows[j + 1].accessKeyId != rows[0].accessKeyId;
          }
        }
      } else {
        ActiveAfterCleanup(rows[1..], now, accessKeyId);
      }
    }
  }

  /** After a cleanup no active key has expired before `now`. */
  lemma CleanupLeavesNoExpiredActive(rows: seq<AccessKey>, now: int)
    ensures forall k :: k in ExpireBefore(rows, now) && ExpiredBefore(k, now) ==> !k.isActive
  {
    var r := ExpireBefore(rows, now);
    forall k | k in r && ExpiredBefore(k, now)
      ensures !k.isActive
    {
      var i :| 0 <= i < |r| && r[i] == k;
    }
  }

  lemma SameElements<T>(a: seq<T>, b: seq<T>)
    requires multiset(a) == multiset(b)
    ensures forall x :: x in a <==> x in b
  {
    forall x
      ensures x in a <==> x in b
    {
      assert x in a <==> x in multiset(a);
      assert x in b <==> x in multiset(b);
    }
  }

  class AccessKeyRepository {
    var rows: seq<AccessKey>

    ghost predicate Valid()
      reads this
    {
      UniqueKeys(rows)
    }

    constructor ()
      ensures Valid() && rows == []
    {
      rows := [];
    }

    /**
     * `create`: a fresh id, a generated key id and secret, `created_at = now`
     * and `is_active`; the request's policies, description and expiry. A
     * generated key id that is already taken violates the UNIQUE constraint.
     */
    method Create(req: CreateAccessKeyRequest, now: int)
      returns (r: Result<AccessKey, Catalog.DbError>, ghost generated: string)
      requires Valid()
      modifies this
      ensures Valid()
      ensures IsAccessKeyId(generated)
      ensures r.Err? <==> generated in KeyIds(old(rows))
      ensures r.Ok? ==> r.value.accessKeyId == generated
      ensures r.Ok? ==>
        && rows == old(rows) + [r.value]
        && r.value.id !in Ids(old(rows))
        && r.value.accessKeyId !in KeyIds(old(rows))
        && IsAccessKeyId(r.value.accessKeyId) && IsSecretKey(r.value.secretAccessKey)
        && r.value.createdAt == now && r.value.isActive
        && r.value.expiresAt == req.expiresAt
        && r.value.policies == req.policies && r.value.description == req.description
      ensures r.Err? ==> rows == old(rows) && r.error == Catalog.UniqueViolation("access_keys.access_key_id")
    {
      FreshName(Ids(rows), "");
      var id :| id !in Ids(rows) && StartsWith(id, "");
      var accessKeyId := GenerateAccessKeyId();
      generated := accessKeyId;
      var secret := GenerateSecretAccessKey();
      if accessKeyId in KeyIds(rows) {
        r := Err(Catalog.UniqueViolation("access_keys.access_key_id"));
        return;
      }
      var key := AccessKey(id, accessKeyId, secret, now, req.expiresAt, true, req.policies, req.description);
      rows := rows + [key];
      r := Ok(key);
    }

    /** `find_by_access_key_id`: only an active key is found. */
    function FindByAccessKeyId(accessKeyId: string): (r: Option<AccessKey>)
      requires Valid()
      reads this
      ensures r.Some? ==> r.value in rows && r.value.accessKeyId == accessKeyId && r.value.isActive
      ensures r.None? <==> forall k :: k in rows && k.accessKeyId == accessKeyId ==> !k.isActive
    {
      ActiveKey(rows, accessKeyId)
    }

    /**
     * `list`: all keys, or only the active ones, newest first; keys created
     * at the same instant come back in an order SQLite leaves open.
     */
    method List(includeInactive: bool) returns (keys: seq<AccessKey>)
      ensures multiset(keys) == multiset(Visible(rows, includeInactive))
      ensures forall k :: k in keys <==> k in rows && (includeInactive || k.isActive)
      ensures forall i, j :: 0 <= i < j < |keys| ==> keys[i].createdAt >= keys[j].createdAt
    {
      var selected := Visible(rows, includeInactive);
      assert NewestFirstOf(SortBy(selected, CreatedNoEarlier), selected) by {
        SortBySorted(selected, CreatedNoEarlier);
      }
      var ordered :| NewestFirstOf(ordered, selected);
      keys := [];
      var i := 0;
      while i < |ordered|
        invariant i <= |ordered|
        invariant keys == ordered[..i]
      {
        assert ordered[..i + 1] == ordered[..i] + [ordered[i]];
        keys := keys + [ordered[i]];
        i := i + 1;
      }
      assert keys == ordered;
      NewestFirst(keys, selected);
    }

    /** `deactivate`: true iff the key exists, active or not; only `is_active` changes. */
    method Deactivate(accessKeyId: string) returns (updated: bool)
      requires Valid()
      modifies this
      ensures Valid()
      ensures updated <==> accessKeyId in KeyIds(old(rows))
      ensures rows == Deactivated(old(rows), accessKeyId)
      ensures FindByAccessKeyId(accessKeyId).None?
    {
      updated := accessKeyId in KeyIds(rows);
      var before := rows;
      rows := Deactivated(rows, accessKeyId);
      SameKeysStayUnique(before, rows);
      forall k | k in rows && k.accessKeyId == accessKeyId
        ensures !k.isActive
      {
        var i :| 0 <= i < |rows| && rows[i] == k;
      }
    }

    /** `delete`: true iff the key existed, active or not; only that row goes. */
    method Delete(accessKeyId: string) returns (deleted: bool)
      requires Valid()
      modifies this
      ensures Valid()
      ensures deleted <==> accessKeyId in KeyIds(old(rows))
      ensures rows == WithoutKey(old(rows), accessKeyId)
      ensures accessKeyId !in KeyIds(rows)
    {
      deleted := accessKeyId in KeyIds(rows);
      WithoutKeyStaysUnique(rows, accessKeyId);
      rows := WithoutKey(rows, accessKeyId);
    }

    /**
     * `rotate`: nothing unless the key is active; then a new generated secret
     * and `created_at = now`, everything else about the key kept.
     */
    method Rotate(accessKeyId: string, now: int) returns (r: Option<AccessKey>)
      requires Valid()
      modifies this
      ensures Valid()
      ensures r.None? <==> old(FindByAccessKeyId(accessKeyId)).None?
      ensures r.None? ==> rows == old(rows)
      ensures r.Some? ==>
        && IsSecretKey(r.value.secretAccessKey)
        && r.value == old(FindByAccessKeyId(accessKeyId)).value.(secretAccessKey := r.value.secretAccessKey, createdAt := now)
        && rows == Rotated(old(rows), accessKeyId, r.value.secretAccessKey, now)
    {
      var existing := FindByAccessKeyId(accessKeyId);
      if existing.None? {
        return None;
      }
      var secret := GenerateSecretAccessKey();
      var before := rows;
      rows := Rotated(rows, accessKeyId, secret, now);
      SameKeysStayUnique(before, rows);
      r := Some(existing.value.(secretAccessKey := secret, createdAt := now));
    }

    /**
     * `cleanup_expired`: every key whose expiry is set and before `now` is made
     * inactive; the count is the number of rows matched.
     */
    method CleanupExpired(now: int) returns (count: nat)
      requires Valid()
      modifies this
      ensures Valid()
      ensures rows == ExpireBefore(old(rows), now)
      ensures count == ExpiredCount(old(rows), now)
    {
      count := ExpiredCount(rows, now);
      var before := rows;
      rows := ExpireBefore(rows, now);
      SameKeysStayUnique(before, rows);
    }
  }
}
