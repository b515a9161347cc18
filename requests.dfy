/**
 * The request-level helpers of `crates/api/src/handlers.rs`: bucket-name
 * validation, the `Range` header parser, the `uploadId`/`partNumber` checks of
 * `upload_part`, header lookups with the content-type default, the
 * `x-amz-meta-` collection loop, ETag unquoting and the routing of PUT, POST
 * and DELETE requests by their query keys.
 *
 * A header map is its (lower-case name, value bytes) entries in iteration
 * order; a query string is the map axum decodes it into.
 */
module Requests {
  import opened Wrappers
  import opened Text
  import opened Encoding
  import opened Errors

  // ------------------------------------------------------------ bucket names

  predicate IsBucketNameChar(c: char) {
    IsAsciiLower(c) || IsAsciiDigit(c) || c == '-'
  }

  predicate IsBucketName(name: string) {
    3 <= |name| <= 63 && forall i :: 0 <= i < |name| ==> IsBucketNameChar(name[i])
  }

  const NameLengthMessage := "Bucket name must be between 3 and 63 characters long"
  const NameCharsMessage := "Bucket name can only contain lowercase letters, numbers, and hyphens"

  lemma BucketNameCharsAreAscii(name: string)
    requires forall i :: 0 <= i < |name| ==> IsBucketNameChar(name[i])
    ensures |Utf8(name)| == |name|
  {
    Utf8LengthOfAscii(name);
  }

  /**
   * `validate_bucket_name`: the length is checked in UTF-8 bytes first, then
   * every character must be a lower-case ASCII letter, a digit or '-'. Since
   * those are one byte each, the name is accepted exactly when it has 3 to 63
   * such characters.
   */
  function ValidateBucketName(name: string): (r: Result<(), ApiError>)
    ensures r.Ok? <==> IsBucketName(name)
    ensures r.Err? ==> r.error == InvalidBucketName(
      if 3 <= |Utf8(name)| <= 63 then NameCharsMessage else NameLengthMessage)
  {
    var len := |Utf8(name)|;
    assert (forall i | 0 <= i < |name| :: IsBucketNameChar(name[i])) ==> len == |name| by {
      if forall i | 0 <= i < |name| :: IsBucketNameChar(name[i]) {
        BucketNameCharsAreAscii(name);
      }
    }
    if len == 0 || len < 3 || len > 63 then Err(InvalidBucketName(NameLengthMessage))
    else if !(forall i | 0 <= i < |name| :: IsBucketNameChar(name[i])) then Err(InvalidBucketName(NameCharsMessage))
    else Ok(())
  }

  /** A name of 3 to 63 bytes with a character outside the set is refused for its characters, not its length. */
  lemma MultiByteNameRefusedForCharacters()
    ensures ValidateBucketName("éé") == Err(InvalidBucketName(NameCharsMessage))
  {
    var name := "éé";
    assert !IsAscii(name[0]);
    assert |Utf8(name)| == |Utf8Char(name[0])| + |Utf8Char(name[1])| by {
      assert name[1..][1..] == [];
    }
    assert !IsBucketNameChar(name[0]);
  }

  // ------------------------------------------------------------ Range header

  const RangePrefix := "bytes="

  /**
   * `parse_range_header`: after "bytes=", the rest must split on '-' into
   * exactly two pieces and the first must parse as a `u64`; an empty or
   * unparseable second piece leaves the end open.
   */
  function ParseRangeHeader(range: string): (r: Option<(nat, Option<nat>)>)
    ensures r.Some? ==> StartsWith(range, RangePrefix)
    ensures r.Some? ==> r.value.0 < U64_LIMIT && (r.value.1.Some? ==> r.value.1.value < U64_LIMIT)
    ensures r.Some? <==> StartsWith(range, RangePrefix) && |Split(range[6..], "-")| == 2
                         && ParseU64(Split(range[6..], "-")[0]).Some?
  {
    if !StartsWith(range, RangePrefix) then None
    else
      var parts := Split(range[6..], "-");
      if |parts| != 2 then None
      else
        match ParseU64(parts[0])
        case None => None
        case Some(start) => Some((start, if parts[1] == "" then None else ParseU64(parts[1])))
  }

  /** The header a client sends for bytes `start` to `end`, or from `start` on. */
  function RangeText(start: nat, end: Option<nat>): string {
    RangePrefix + DecimalString(start) + "-" + (if end.Some? then DecimalString(end.value) else "")
  }

  lemma DigitsHaveNoDash(s: string)
    requires AllDigits(s)
    ensures '-' !in s
  {
    forall i | 0 <= i < |s|
      ensures s[i] != '-'
    {
    }
  }

  /** Every range of `u64` offsets survives formatting and parsing. */
  lemma RangeRoundTrip(start: nat, end: Option<nat>)
    requires start < U64_LIMIT && (end.Some? ==> end.value < U64_LIMIT)
    ensures ParseRangeHeader(RangeText(start, end)) == Some((start, end))
  {
    var a := DecimalString(start);
    var b := if end.Some? then DecimalString(end.value) else "";
    var text := RangeText(start, end);
    assert text[..6] == RangePrefix;
    assert text[6..] == Join([a, b], "-");
    DigitsHaveNoDash(a);
    if end.Some? {
      DigitsHaveNoDash(b);
      DecimalParsesBack(end.value);
    }
    SplitJoinChar([a, b], '-');
    DecimalParsesBack(start);
  }

  /** A suffix range ("the last n bytes") is not understood: its first piece is empty. */
  lemma SuffixRangeRejected(n: nat)
    ensures ParseRangeHeader(RangePrefix + "-" + DecimalString(n)).None?
  {
    var text := RangePrefix + "-" + DecimalString(n);
    assert text[..6] == RangePrefix;
    assert text[6..] == Join(["", DecimalString(n)], "-");
    DigitsHaveNoDash(DecimalString(n));
    SplitJoinChar(["", DecimalString(n)], '-');
  }

  /** An end that is not a number is dropped and the range runs to the end of the object. */
  lemma UnparseableEndIgnored(start: nat, b: string)
    requires start < U64_LIMIT && b != "" && '-' !in b && ParseU64(b).None?
    ensures ParseRangeHeader(RangePrefix + DecimalString(start) + "-" + b) == Some((start, None))
  {
    var a := DecimalString(start);
    var text := RangePrefix + a + "-" + b;
    assert text[..6] == RangePrefix;
    assert text[6..] == Join([a, b], "-");
    DigitsHaveNoDash(a);
    SplitJoinChar([a, b], '-');
    DecimalParsesBack(start);
  }

  // ---------------------------------------------------------- part numbers

  const MaxPartNumber := 10000

  /**
   * The parameter checks of `upload_part`, in order: `uploadId` present,
   * `partNumber` present, parses as an `i32`, and lies in 1..=10000.
   */
  function PartRequest(params: map<string, string>): (r: Result<(string, int), ApiError>)
    ensures r.Err? ==> r.error.BadRequest?
    ensures r.Ok? <==>
      "uploadId" in params && "partNumber" in params && ParseI32(params["partNumber"]).Some?
      && 1 <= ParseI32(params["partNumber"]).value <= MaxPartNumber
    ensures r.Ok? ==> r.value == (params["uploadId"], ParseI32(params["partNumber"]).value)
    ensures r.Ok? ==> 1 <= r.value.1 <= MaxPartNumber
  {
    if "uploadId" !in params then Err(BadRequest("Missing uploadId parameter"))
    else if "partNumber" !in params then Err(BadRequest("Missing partNumber parameter"))
    else match ParseI32(params["partNumber"])
      case None => Err(BadRequest("Invalid partNumber"))
      case Some(n) =>
        if n < 1 || n > MaxPartNumber then Err(BadRequest("Part number must be between 1 and 10000"))
        else Ok((params["uploadId"], n))
  }

  /** Every part number in 1..=10000 written in decimal is accepted as itself. */
  lemma PartNumberAccepted(params: map<string, string>, n: nat)
    requires 1 <= n <= MaxPartNumber && "uploadId" in params
    requires "partNumber" in params && params["partNumber"] == DecimalString(n)
    ensures PartRequest(params) == Ok((params["uploadId"], n))
  {
    I32ParsesBack(n);
  }

  // -------------------------------------------------------------- headers

  /** A header map: lower-case names with their raw values, in iteration order. */
  type HeaderMap = seq<(string, Bytes)>

  /** The bytes `HeaderValue::to_str` accepts: visible ASCII and tab. */
  predicate IsVisibleByte(b: byte) {
    b == 9 || (32 <= b < 127)
  }

  /** `HeaderValue::to_str`: the value as text when every byte is visible ASCII or tab. */
  function HeaderText(v: Bytes): (r: Option<string>)
    ensures r.Some? <==> forall i :: 0 <= i < |v| ==> IsVisibleByte(v[i])
    ensures r.Some? ==> Utf8(r.value) == v
  {
    if |v| == 0 then Some("")
    else if !IsVisibleByte(v[0]) then None
    else
      match HeaderText(v[1..])
      case None => None
      case Some(rest) =>
        var c := v[0] as int as char;
        assert IsAscii(c);
        assert v == [v[0]] + v[1..];
        Some([c] + rest)
  }

  /** `HeaderMap::get`: the first value under that name. */
  function HeaderGet(headers: HeaderMap, name: string): (r: Option<Bytes>)
    ensures r.None? <==> forall i :: 0 <= i < |headers| ==> headers[i].0 != name
    ensures r.Some? ==> exists i :: (0 <= i < |headers| && headers[i] == (name, r.value)
      && forall j :: 0 <= j < i ==> headers[j].0 != name)
  {
    if |headers| == 0 then None
    else if headers[0].0 == name then Some(headers[0].1)
    else
      var r := HeaderGet(headers[1..], name);
      if r.Some? then
        var i :| 0 <= i < |headers[1..]| && headers[1..][i] == (name, r.value)
          && forall j :: 0 <= j < i ==> headers[1..][j].0 != name;
        assert headers[i + 1] == (name, r.value);
        r
      else r
  }

  const DefaultContentType := "binary/octet-stream"

  /**
   * The content type `put_object` and `create_multipart_upload` record: the
   * first `content-type` value when it is text, else "binary/octet-stream".
   */
  function ContentTypeOf(headers: HeaderMap): (r: string)
    ensures HeaderGet(headers, "content-type").None? ==> r == DefaultContentType
    ensures HeaderGet(headers, "content-type").Some? && HeaderText(HeaderGet(headers, "content-type").value).None?
      ==> r == DefaultContentType
    ensures r != DefaultContentType ==> Utf8(r) == HeaderGet(headers, "content-type").value
  {
    match HeaderGet(headers, "content-type")
    case None => DefaultContentType
    case Some(v) => HeaderText(v).GetOr(DefaultContentType)
  }

  const MetaPrefix := "x-amz-meta-"

  /** The metadata entry one header contributes: its name after "x-amz-meta-" and its text. */
  function MetaEntry(h: (string, Bytes)): (r: Option<(string, string)>)
    ensures r.Some? <==> StartsWith(h.0, MetaPrefix) && HeaderText(h.1).Some?
    ensures r.Some? ==> h.0 == MetaPrefix + r.value.0 && r.value.1 == HeaderText(h.1).value
  {
    if StartsWith(h.0, MetaPrefix) && HeaderText(h.1).Some? then
      assert h.0 == h.0[..11] + h.0[11..];
      Some((h.0[11..], HeaderText(h.1).value))
    else None
  }

  /** The metadata map after inserting the entries of `headers` from first to last. */
  function MetadataOf(headers: HeaderMap): (m: map<string, string>)
    ensures forall k :: k in m <==> exists i :: 0 <= i < |headers| && MetaEntry(headers[i]).Some? && MetaEntry(headers[i]).value.0 == k
  {
    if |headers| == 0 then map[]
    else
      var last := headers[|headers| - 1];
      var before := MetadataOf(headers[..|headers| - 1]);
      assert forall i :: 0 <= i < |headers| - 1 ==> headers[..|headers| - 1][i] == headers[i];
      match MetaEntry(last)
      case None => before
      case Some((k, v)) => before[k := v]
  }

  /** A later header under the same metadata name overwrites an earlier one. */
  lemma {:induction false} MetadataLastWins(headers: HeaderMap, i: nat)
    requires i < |headers| && MetaEntry(headers[i]).Some?
    requires forall j :: i < j < |headers| ==> MetaEntry(headers[j]).None? || MetaEntry(headers[j]).value.0 != MetaEntry(headers[i]).value.0
    ensures MetadataOf(headers)[MetaEntry(headers[i]).value.0] == MetaEntry(headers[i]).value.1
  {
    if i < |headers| - 1 {
      var init := headers[..|headers| - 1];
      assert init[i] == headers[i];
      MetadataLastWins(init, i);
    }
  }

  /** The loop of `create_multipart_upload` over the request headers. */
  method CollectMetadata(headers: HeaderMap) returns (m: map<string, string>)
    ensures m == MetadataOf(headers)
  {
    m := map[];
    var i := 0;
    while i < |headers|
      invariant i <= |headers|
      invariant m == MetadataOf(headers[..i])
    {
      assert headers[..i + 1][..i] == headers[..i];
      var entry := MetaEntry(headers[i]);
      if entry.Some? {
        m := m[entry.value.0 := entry.value.1];
      }
      i := i + 1;
    }
    assert headers[..i] == headers;
  }

  // ------------------------------------------------------------------ ETags

  /** The first index at or after `i` whose character is not `c`. */
  function SkipForward(s: string, c: char, i: nat): (k: nat)
    requires i <= |s|
    ensures i <= k <= |s|
    ensures forall j :: i <= j < k ==> s[j] == c
    ensures k < |s| ==> s[k] != c
    decreases |s| - i
  {
    if i < |s| && s[i] == c then SkipForward(s, c, i + 1) else i
  }

  /** The end of `s[lo..hi]` once its trailing `c`s are dropped. */
  function SkipBackward(s: string, c: char, lo: nat, hi: nat): (k: nat)
    requires lo <= hi <= |s|
    ensures lo <= k <= hi
    ensures forall j :: k <= j < hi ==> s[j] == c
    ensures k > lo ==> s[k - 1] != c
  {
    if hi > lo && s[hi - 1] == c then SkipBackward(s, c, lo, hi - 1) else hi
  }

  /**
   * `str::trim_matches(c)`: every leading `c` removed, then every trailing
   * one from what is left.
   */
  function TrimMatches(s: string, c: char): (r: string)
    ensures exists a, b :: (0 <= a <= b <= |s| && r == s[a..b]
      && (forall i :: 0 <= i < a ==> s[i] == c) && (forall i :: b <= i < |s| ==> s[i] == c))
    ensures |r| > 0 ==> r[0] != c && r[|r| - 1] != c
  {
    var a := SkipForward(s, c, 0);
    s[a..SkipBackward(s, c, a, |s|)]
  }

  /** The quotes the server puts around an ETag come off again on the way back. */
  lemma QuotedEtagRoundTrip(e: string)
    requires |e| > 0 ==> e[0] != '"' && e[|e| - 1] != '"'
    ensures TrimMatches("\"" + e + "\"", '"') == e
  {
    var q := "\"" + e + "\"";
    if |e| == 0 {
      assert SkipForward(q, '"', 0) == 2;
    } else {
      assert q[1] == e[0] && q[|q| - 2] == e[|e| - 1];
      assert SkipForward(q, '"', 0) == 1;
      assert SkipBackward(q, '"', 1, |q|) == |q| - 1;
      assert q[1..|q| - 1] == e;
    }
  }

  // --------------------------------------------------------------- routing

  datatype Verb = Put | Post | Delete

  datatype Route =
    | UploadPartRoute
    | PutObjectRoute
    | CreateUploadRoute
    | CompleteUploadRoute
    | AbortUploadRoute
    | DeleteObjectRoute

  /**
   * `put_object_or_part`, `create_multipart_upload_or_complete` and
   * `delete_object_or_abort_upload`: the handler a request goes to, by the
   * keys of its query string.
   */
  function Dispatch(verb: Verb, query: set<string>): (r: Result<Route, ApiError>)
    ensures r == Ok(UploadPartRoute) <==> verb == Put && "uploadId" in query && "partNumber" in query
    ensures r == Ok(PutObjectRoute) <==> verb == Put && !("uploadId" in query && "partNumber" in query)
    ensures r == Ok(CreateUploadRoute) <==> verb == Post && "uploads" in query
    ensures r == Ok(CompleteUploadRoute) <==> verb == Post && "uploads" !in query && "uploadId" in query
    ensures r.Err? <==> verb == Post && "uploads" !in query && "uploadId" !in query
    ensures r.Err? ==> r.error == BadRequest("Invalid POST operation")
    ensures r == Ok(AbortUploadRoute) <==> verb == Delete && "uploadId" in query
    ensures r == Ok(DeleteObjectRoute) <==> verb == Delete && "uploadId" !in query
  {
    match verb
    case Put => if "uploadId" in query && "partNumber" in query then Ok(UploadPartRoute) else Ok(PutObjectRoute)
    case Post =>
      if "uploads" in query then Ok(CreateUploadRoute)
      else if "uploadId" in query then Ok(CompleteUploadRoute)
      else Err(BadRequest("Invalid POST operation"))
    case Delete => if "uploadId" in query then Ok(AbortUploadRoute) else Ok(DeleteObjectRoute)
  }

  /** Routing looks only at the keys "uploads", "uploadId" and "partNumber". */
  lemma DispatchIgnoresOtherKeys(verb: Verb, q1: set<string>, q2: set<string>)
    requires q1 * {"uploads", "uploadId", "partNumber"} == q2 * {"uploads", "uploadId", "partNumber"}
    ensures Dispatch(verb, q1) == Dispatch(verb, q2)
  {
    assert "uploads" in q1 <==> "uploads" in q1 * {"uploads", "uploadId", "partNumber"};
    assert "uploads" in q2 <==> "uploads" in q2 * {"uploads", "uploadId", "partNumber"};
    assert "uploadId" in q1 <==> "uploadId" in q1 * {"uploads", "uploadId", "partNumber"};
    assert "uploadId" in q2 <==> "uploadId" in q2 * {"uploads", "uploadId", "partNumber"};
    assert "partNumber" in q1 <==> "partNumber" in q1 * {"uploads", "uploadId", "partNumber"};
    assert "partNumber" in q2 <==> "partNumber" in q2 * {"uploads", "uploadId", "partNumber"};
  }
}
