/**
 * The local storage engine: objects stored as files under their bucket, a
 * temp directory holding single-shot upload files ("tmp_<uuid>") and one
 * directory per multipart upload ("mpu_<uuid>") with a metadata record and
 * one file per part ("part_<n:05>").
 *
 * The filesystem is abstract state: `objects` maps a (bucket, key) location to
 * the stored file, `temps` holds the temp files by name and `uploads` the
 * multipart upload directories by upload id. MD5 is a function the engine is
 * constructed with; UUIDs are fresh names chosen nondeterministically.
 */
module Engine {
  import opened Wrappers
  import opened Text
  import opened Encoding
  import opened Sorting

  type Digest = d: Bytes | |d| == 16 witness seq(16, _ => 0)

  datatype Location = Location(bucket: string, key: string)

  /** A file under the data directory: its bytes and its modification time (ns since the epoch). */
  datatype StoredObject = StoredObject(data: Bytes, modified: int)

  /** A multipart upload directory: the metadata record and the staged part files by name. */
  datatype Upload = Upload(
    bucket: string,
    key: string,
    contentType: string,
    userMetadata: Option<map<string, string>>,
    parts: map<string, Bytes>)

  /** One item of a request body stream: a chunk of bytes or a read error. */
  datatype StreamItem = Chunk(bytes: Bytes) | StreamError

  datatype ObjectMetadata = ObjectMetadata(
    contentType: string,
    contentLength: nat,
    etag: string,
    lastModified: int)

  /**
   * The body of a GET: the whole file, or the stream of the file's read
   * chunks with `skip` chunks dropped and at most `take` kept.
   */
  datatype Body = WholeFile | ChunkWindow(skip: nat, take: nat)

  datatype GetObjectResponse = GetObjectResponse(metadata: ObjectMetadata, body: Body)

  /** One entry of a complete request: part number (an i32), client ETag, client size. */
  datatype MultipartUploadPart = MultipartUploadPart(partNumber: int, etag: string, size: nat)

  datatype StorageError =
    | StreamFailed
    | InvalidRange(start: nat, end: nat)
    | SourceNotFound
    | UploadNotFound(uploadId: string)
    | BucketKeyMismatch
    | PartNotFound(partNumber: int)

  // ---------------------------------------------------------------------
  // Request bodies

  predicate AllChunks(items: seq<StreamItem>) {
    forall i :: 0 <= i < |items| ==> items[i].Chunk?
  }

  /** The bytes a stream delivers before its first error. */
  function Received(items: seq<StreamItem>): Bytes {
    if |items| == 0 then []
    else match items[0]
      case StreamError => []
      case Chunk(b) => b + Received(items[1..])
  }

  lemma {:induction false} ReceivedExtend(items: seq<StreamItem>, b: Bytes)
    requires AllChunks(items)
    ensures Received(items + [Chunk(b)]) == Received(items) + b
  {
    if |items| > 0 {
      assert (items + [Chunk(b)])[1..] == items[1..] + [Chunk(b)];
      ReceivedExtend(items[1..], b);
    }
  }

  lemma {:induction false} ReceivedStopsAtError(items: seq<StreamItem>, i: nat)
    requires i < |items| && items[i].StreamError? && AllChunks(items[..i])
    ensures Received(items) == Received(items[..i])
  {
    if i > 0 {
      assert items[1..][..i - 1] == items[..i][1..];
      ReceivedStopsAtError(items[1..], i - 1);
    }
  }

  /** One more chunk of a stream read so far without error. */
  lemma ChunkStep(body: seq<StreamItem>, i: nat, b: Bytes)
    requires i < |body| && body[i] == Chunk(b) && AllChunks(body[..i])
    ensures AllChunks(body[..i + 1])
    ensures Received(body[..i + 1]) == Received(body[..i]) + b
  {
    assert body[..i + 1] == body[..i] + [Chunk(b)];
    ReceivedExtend(body[..i], b);
  }

  /** The first error of a stream: it fails, and delivered what came before. */
  lemma ErrorStep(body: seq<StreamItem>, i: nat)
    requires i < |body| && body[i].StreamError? && AllChunks(body[..i])
    ensures !AllChunks(body)
    ensures Received(body) == Received(body[..i])
  {
    ReceivedStopsAtError(body, i);
  }

  // ---------------------------------------------------------------------
  // Names and derived values

  /**
   * `format!("part_{:05}", n)`: the sign counts toward the width of five and
   * the zeros go after it, written out case by case; `PartFileNameIsPadded`
   * proves it is the prefix followed by `Pad5`.
   */
  function PartFileName(partNumber: int): (name: string)
    ensures StartsWith(name, "part_")
  {
    if partNumber < 0 then "part_-" + ZeroPad(DecimalString(-partNumber), 4)
    else "part_" + ZeroPad(DecimalString(partNumber), 5)
  }

  lemma PartFileNameIsPadded(n: int)
    ensures PartFileName(n) == "part_" + Pad5(n)
  {
    if n < 0 {
      assert "part_-" + ZeroPad(DecimalString(-n), 4) == "part_" + ("-" + ZeroPad(DecimalString(-n), 4));
    }
  }

  /** Distinct part numbers are staged in distinct files. */
  lemma PartFileNameInjective(a: int, b: int)
    requires PartFileName(a) == PartFileName(b)
    ensures a == b
  {
    PartFileNameIsPadded(a);
    PartFileNameIsPadded(b);
    assert PartFileName(a)[5..] == Pad5(a);
    assert PartFileName(b)[5..] == Pad5(b);
    Pad5Injective(a, b);
  }

  /** The ETag `get`, `head` and `copy` report: the file size in decimal, in double quotes. */
  function SizeEtag(len: nat): (etag: string)
    ensures |etag| >= 3 && etag[0] == '"' && etag[|etag| - 1] == '"'
    ensures ParseU64(etag[1..|etag| - 1]) == if len < U64_LIMIT then Some(len) else None
  {
    var e := "\"" + DecimalString(len) + "\"";
    assert e[1..|e| - 1] == DecimalString(len);
    DecimalRoundTrip(len);
    e
  }

  /** The ETag `put` and `upload_part` return: the lowercase hex MD5 of the bytes. */
  function ContentEtag(md5: Bytes -> Digest, data: Bytes): (etag: string)
    ensures |etag| == 32 && forall i :: 0 <= i < 32 ==> IsLowerHexDigit(etag[i])
  {
    HexLower(md5(data))
  }

  function Min(a: nat, b: nat): nat {
    if a <= b then a else b
  }

  /**
   * The range arithmetic of `get_object`: the last index is `len - 1` computed
   * in u64, so it wraps to 2^64 - 1 for an empty file; the requested end is
   * clamped to it; the request fails when the start lies past the clamped end
   * or past the file.
   */
  function RangeWindow(start: nat, end: Option<nat>, len: nat): (r: Result<(nat, nat), StorageError>)
    ensures r.Ok? <==> start < len && (end.None? || start <= end.value)
    ensures r.Ok? ==> r.value.0 == start && start <= r.value.1 < len
    ensures r.Ok? && end.Some? ==> r.value.1 == Min(end.value, len - 1)
    ensures r.Ok? && end.None? ==> r.value.1 == len - 1
  {
    var last := if len == 0 then U64_LIMIT - 1 else len - 1;
    var effectiveEnd := Min(end.GetOr(last), last);
    if start > effectiveEnd || start >= len then Err(InvalidRange(start, effectiveEnd))
    else Ok((start, effectiveEnd))
  }

  /**
   * An empty file rejects every range: `start >= len` always holds. The
   * wrapped last index only lets a release build reach that test; a debug
   * build panics on the subtraction first.
   */
  lemma EmptyFileRejectsRanges(start: nat, end: Option<nat>)
    ensures RangeWindow(start, end, 0).Err?
  {
  }

  // ---------------------------------------------------------------------
  // Serving a ranged body from the file's read stream

  /** The bytes a stream of chunks delivers, in order. */
  function Concat(chunks: seq<Bytes>): Bytes {
    if |chunks| == 0 then [] else chunks[0] + Concat(chunks[1..])
  }

  /**
   * The stream `get_object` returns for a body: the whole read stream, or,
   * as written, `.skip(skip).take(take)` applied to it, which counts the
   * reader's chunks rather than bytes.
   */
  function ChunkSkipTake(chunks: seq<Bytes>, body: Body): (r: seq<Bytes>)
    ensures body.WholeFile? ==> r == chunks
    ensures body.ChunkWindow? ==> |r| == Min(body.take, |chunks| - Min(body.skip, |chunks|))
    ensures body.ChunkWindow? ==> forall i :: 0 <= i < |r| ==> r[i] == chunks[body.skip + i]
  {
    match body
    case WholeFile => chunks
    case ChunkWindow(skip, take) =>
      var rest := chunks[Min(skip, |chunks|)..];
      rest[..Min(take, |rest|)]
  }

  /**
   * Ranges count chunks: the range `1-1` of a file read in chunks longer
   * than one byte delivers the whole second chunk, not the file's second byte.
   */
  lemma ChunkWindowCountsChunks(chunks: seq<Bytes>)
    requires |chunks| >= 2 && |chunks[0]| >= 1 && |chunks[1]| >= 2
    ensures RangeWindow(1, Some(1), |Concat(chunks)|) == Ok((1, 1))
    ensures Concat(ChunkSkipTake(chunks, ChunkWindow(1, 1))) == chunks[1]
    ensures Concat(ChunkSkipTake(chunks, ChunkWindow(1, 1))) != Concat(chunks)[1..2]
  {
    assert |Concat(chunks)| >= 3 by {
      assert Concat(chunks) == chunks[0] + (chunks[1] + Concat(chunks[2..])) by {
        assert chunks[1..][0] == chunks[1] && chunks[1..][1..] == chunks[2..];
      }
    }
    var r := ChunkSkipTake(chunks, ChunkWindow(1, 1));
    assert r == [chunks[1]];
    assert Concat(r) == chunks[1] + Concat([]);
  }

  /** Drops the first `n` bytes of the stream, splitting the chunk the cut falls in. */
  function DropBytes(chunks: seq<Bytes>, n: nat): (r: seq<Bytes>)
    ensures Concat(r) == if n <= |Concat(chunks)| then Concat(chunks)[n..] else []
  {
    if |chunks| == 0 then []
    else if n >= |chunks[0]| then
      var r := DropBytes(chunks[1..], n - |chunks[0]|);
      assert n <= |Concat(chunks)| ==> Concat(chunks)[n..] == Concat(chunks[1..])[n - |chunks[0]|..];
      r
    else
      var r := [chunks[0][n..]] + chunks[1..];
      assert r[1..] == chunks[1..];
      assert Concat(chunks)[n..] == chunks[0][n..] + Concat(chunks[1..]);
      r
  }

  /** Keeps the first `n` bytes of the stream, cutting the chunk the end falls in. */
  function TakeBytes(chunks: seq<Bytes>, n: nat): (r: seq<Bytes>)
    ensures Concat(r) == Concat(chunks)[..Min(n, |Concat(chunks)|)]
  {
    if |chunks| == 0 || n == 0 then []
    else if n >= |chunks[0]| then
      var r := [chunks[0]] + TakeBytes(chunks[1..], n - |chunks[0]|);
      assert r[0] == chunks[0] && r[1..] == TakeBytes(chunks[1..], n - |chunks[0]|);
      assert Concat(chunks)[..Min(n, |Concat(chunks)|)]
        == chunks[0] + Concat(chunks[1..])[..Min(n - |chunks[0]|, |Concat(chunks[1..])|)];
      r
    else
      var r := [chunks[0][..n]];
      assert r[1..] == [];
      assert Concat(chunks)[..n] == chunks[0][..n];
      r
  }

  /**
   * The intended ranged body: skip and take counted in bytes, whatever the
   * chunking, so the client receives exactly bytes `first..=last` of the file.
   */
  function ByteWindow(chunks: seq<Bytes>, first: nat, last: nat): (r: seq<Bytes>)
    requires first <= last < |Concat(chunks)|
    ensures Concat(r) == Concat(chunks)[first..last + 1]
    ensures |Concat(r)| == last - first + 1
  {
    var rest := DropBytes(chunks, first);
    var r := TakeBytes(rest, last - first + 1);
    assert Concat(chunks)[first..][..last - first + 1] == Concat(chunks)[first..last + 1];
    r
  }

  // ---------------------------------------------------------------------
  // Content type from the key's extension, with `Path::extension` semantics

  /** The components of a '/'-separated path that are neither empty nor ".". */
  function NormalComponents(parts: seq<string>): (r: seq<string>)
    ensures forall i :: 0 <= i < |r| ==> r[i] != "" && r[i] != "."
    ensures |r| <= |parts|
  {
    if |parts| == 0 then []
    else if parts[0] == "" || parts[0] == "." then NormalComponents(parts[1..])
    else [parts[0]] + NormalComponents(parts[1..])
  }

  /** `Path::file_name`: the last component, unless it is "..". */
  function FileName(key: string): (r: Option<string>)
    ensures r.Some? ==> r.value != "" && r.value != "." && r.value != ".."
  {
    var comps := NormalComponents(Split(key, "/"));
    if |comps| == 0 || comps[|comps| - 1] == ".." then None else Some(comps[|comps| - 1])
  }

  /** The index of the last occurrence of `c`. */
  function LastIndexOf(s: string, c: char): (r: Option<nat>)
    ensures r.None? <==> c !in s
    ensures r.Some? ==> r.value < |s| && s[r.value] == c && c !in s[r.value + 1..]
  {
    if |s| == 0 then None
    else if s[|s| - 1] == c then Some(|s| - 1)
    else
      var r := LastIndexOf(s[..|s| - 1], c);
      assert s == s[..|s| - 1] + [s[|s| - 1]];
      if r.Some? then assert s[r.value + 1..] == s[..|s| - 1][r.value + 1..] + [s[|s| - 1]]; r
      else r
  }

  /** `Path::extension` of a file name: the text after the last '.', unless that dot starts the name. */
  function ExtensionOf(name: string): (r: Option<string>)
    ensures r.Some? ==> '.' !in r.value
  {
    if name == ".." then None
    else match LastIndexOf(name, '.')
      case None => None
      case Some(i) => if i == 0 then None else Some(name[i + 1..])
  }

  function Extension(key: string): Option<string> {
    match FileName(key)
    case None => None
    case Some(name) => ExtensionOf(name)
  }

  function ContentTypeFor(ext: string): string {
    match ext
    case "txt" => "text/plain"
    case "html" => "text/html"
    case "htm" => "text/html"
    case "css" => "text/css"
    case "js" => "application/javascript"
    case "json" => "application/json"
    case "xml" => "application/xml"
    case "jpg" => "image/jpeg"
    case "jpeg" => "image/jpeg"
    case "png" => "image/png"
    case "gif" => "image/gif"
    case "svg" => "image/svg+xml"
    case "pdf" => "application/pdf"
    case "zip" => "application/zip"
    case _ => "binary/octet-stream"
  }

  const DefaultContentType: string := "binary/octet-stream"

  /** `guess_content_type`: the media type for the key's extension, or the default. */
  function GuessContentType(key: string): (r: string)
    ensures Extension(key).None? ==> r == DefaultContentType
  {
    ContentTypeFor(Extension(key).GetOr(""))
  }

  /** A key with no '.' at all gets the default type. */
  lemma NoDotMeansDefault(key: string)
    requires '.' !in key
    ensures GuessContentType(key) == DefaultContentType
  {
    match FileName(key)
    case None =>
    case Some(name) =>
      assert '.' !in name by {
        NameIsComponentOf(key);
        var comps := NormalComponents(Split(key, "/"));
        JoinSplit(key, "/");
        ComponentInKey(Split(key, "/"), comps[|comps| - 1]);
      }
  }

  lemma NameIsComponentOf(key: string)
    requires FileName(key).Some?
    ensures FileName(key).value in NormalComponents(Split(key, "/"))
  {
  }

  lemma {:induction false} NormalComponentsFrom(parts: seq<string>, c: string)
    requires c in NormalComponents(parts)
    ensures c in parts
  {
    if parts[0] != "" && parts[0] != "." && c == parts[0] {
    } else {
      NormalComponentsFrom(parts[1..], c);
    }
  }

  /** A character of a component of `Split(key, "/")` occurs in `key`. */
  lemma ComponentInKey(parts: seq<string>, c: string)
    requires c in NormalComponents(parts)
    ensures forall ch :: ch in c ==> ch in Join(parts, "/")
  {
    NormalComponentsFrom(parts, c);
    forall ch | ch in c
      ensures ch in Join(parts, "/")
    {
      var k :| 0 <= k < |parts| && parts[k] == c;
      PartInJoin(parts, "/", k, ch);
    }
  }

  lemma {:induction false} PartInJoin(parts: seq<string>, sep: string, k: nat, ch: char)
    requires k < |parts| && ch in parts[k]
    ensures ch in Join(parts, sep)
  {
    if |parts| > 1 {
      if k == 0 {
        assert Join(parts, sep) == parts[0] + sep + Join(parts[1..], sep);
      } else {
        PartInJoin(parts[1..], sep, k - 1, ch);
        assert Join(parts, sep) == parts[0] + sep + Join(parts[1..], sep);
      }
    }
  }

  /** A plain file name "stem.ext" has extension "ext" and gets that extension's type. */
  lemma SimpleNameType(stem: string, ext: string)
    requires |stem| > 0 && |ext| > 0 && '/' !in stem && '/' !in ext && '.' !in ext
    ensures Extension(stem + "." + ext) == Some(ext)
    ensures GuessContentType(stem + "." + ext) == ContentTypeFor(ext)
  {
    var name := stem + "." + ext;
    assert NoOccurrence(name, "/") by {
      forall j: nat
        ensures !OccursAt(name, "/", j)
      {
        if j + 1 <= |name| {
          assert name[j..j + 1] == [name[j]];
          if j < |stem| {
            assert name[j] == stem[j] && stem[j] in stem;
          } else if j > |stem| {
            assert name[j] == ext[j - |stem| - 1] && ext[j - |stem| - 1] in ext;
          }
        }
      }
    }
    var single: seq<string> := [name];
    assert Split(name, "/") == single;
    assert NormalComponents(single) == single by {
      assert name != "" && name != "." && single[1..] == [];
    }
    assert name != ".." by { assert |name| >= 3; }
    assert name[..|name| - 1][..|stem| + 1] == stem + ".";
    LastDotIsBeforeExt(stem, ext);
    assert name[|stem| + 1..] == ext;
  }

  lemma LastDotIsBeforeExt(stem: string, ext: string)
    requires '.' !in ext
    ensures LastIndexOf(stem + "." + ext, '.') == Some(|stem|)
  {
    var name := stem + "." + ext;
    assert name[|stem|] == '.';
    forall k | |stem| < k < |name|
      ensures name[k] != '.'
    {
      assert name[k] == ext[k - |stem| - 1];
    }
    LastIndexOfAt(name, '.', |stem|);
  }

  /** An occurrence with none after it is the last one. */
  lemma LastIndexOfAt(s: string, c: char, j: nat)
    requires j < |s| && s[j] == c
    requires forall k :: j < k < |s| ==> s[k] != c
    ensures LastIndexOf(s, c) == Some(j)
  {
    assert s[j] in s;
    var i := LastIndexOf(s, c).value;
    forall k | i < k < |s|
      ensures s[k] != c
    {
      assert s[k] == s[i + 1..][k - i - 1];
    }
  }

  // ---------------------------------------------------------------------
  // Multipart assembly

  function PartNumbers(parts: seq<MultipartUploadPart>): (ns: seq<int>)
    ensures |ns| == |parts|
    ensures forall i :: 0 <= i < |parts| ==> ns[i] == parts[i].partNumber
  {
    if |parts| == 0 then [] else [parts[0].partNumber] + PartNumbers(parts[1..])
  }

  predicate ByPartNumber(a: MultipartUploadPart, b: MultipartUploadPart) {
    a.partNumber <= b.partNumber
  }

  predicate IntLe(a: int, b: int) {
    a <= b
  }

  /** `sort_by_key(|p| p.part_number)`: stable, ascending by part number. */
  function SortedParts(parts: seq<MultipartUploadPart>): (r: seq<MultipartUploadPart>)
    ensures multiset(r) == multiset(parts) && |r| == |parts|
  {
    SortBy(parts, ByPartNumber)
  }

  lemma SortedPartsAscending(parts: seq<MultipartUploadPart>)
    ensures forall i, j :: 0 <= i < j < |parts| ==>
      SortedParts(parts)[i].partNumber <= SortedParts(parts)[j].partNumber
  {
    SortBySorted(parts, ByPartNumber);
  }

  lemma {:induction false} InsertNumbers(x: MultipartUploadPart, s: seq<MultipartUploadPart>)
    ensures PartNumbers(Insert(x, s, ByPartNumber)) == Insert(x.partNumber, PartNumbers(s), IntLe)
  {
    if |s| > 0 && !ByPartNumber(x, s[0]) {
      InsertNumbers(x, s[1..]);
      assert PartNumbers(s)[1..] == PartNumbers(s[1..]);
    }
  }

  /** Sorting parts by number and then reading the numbers is sorting the numbers. */
  lemma {:induction false} SortedPartNumbers(parts: seq<MultipartUploadPart>)
    ensures PartNumbers(SortedParts(parts)) == SortBy(PartNumbers(parts), IntLe)
  {
    if |parts| > 0 {
      SortedPartNumbers(parts[1..]);
      InsertNumbers(parts[0], SortBy(parts[1..], ByPartNumber));
      assert PartNumbers(parts)[1..] == PartNumbers(parts[1..]);
    }
  }

  predicate AllStaged(numbers: seq<int>, files: map<string, Bytes>) {
    forall i :: 0 <= i < |numbers| ==> PartFileName(numbers[i]) in files
  }

  /** The final object: the staged files of the listed numbers, concatenated in list order. */
  function Assemble(numbers: seq<int>, files: map<string, Bytes>): Bytes
    requires AllStaged(numbers, files)
  {
    if |numbers| == 0 then []
    else Assemble(numbers[..|numbers| - 1], files) + files[PartFileName(numbers[|numbers| - 1])]
  }

  /**
   * The assembled object does not depend on the order in which the request
   * lists its parts: any two requests naming the same part numbers (with the
   * same repetitions) produce the same bytes.
   */
  lemma AssemblyIgnoresRequestOrder(a: seq<MultipartUploadPart>, b: seq<MultipartUploadPart>, files: map<string, Bytes>)
    requires multiset(PartNumbers(a)) == multiset(PartNumbers(b))
    ensures PartNumbers(SortedParts(a)) == PartNumbers(SortedParts(b))
  {
    SortedPartNumbers(a);
    SortedPartNumbers(b);
    var sa := SortBy(PartNumbers(a), IntLe);
    var sb := SortBy(PartNumbers(b), IntLe);
    SortBySorted(PartNumbers(a), IntLe);
    SortBySorted(PartNumbers(b), IntLe);
    SortedUnique(sa, sb, IntLe);
  }

  /** The client ETags of the parts, concatenated. */
  function ConcatEtags(parts: seq<MultipartUploadPart>): string {
    if |parts| == 0 then "" else ConcatEtags(parts[..|parts| - 1]) + parts[|parts| - 1].etag
  }

  /** The multipart ETag: hex MD5 of the concatenated part ETag strings, a '-', the part count. */
  function CompositeEtag(md5: Bytes -> Digest, sorted: seq<MultipartUploadPart>): string {
    HexLower(md5(Utf8(ConcatEtags(sorted)))) + "-" + DecimalString(|sorted|)
  }

  /** A composite ETag splits at its one '-' into a 32-digit hash and the listed part count. */
  lemma CompositeEtagShape(md5: Bytes -> Digest, sorted: seq<MultipartUploadPart>)
    requires |sorted| < U64_LIMIT
    ensures SplitOnce(CompositeEtag(md5, sorted), "-").Some?
    ensures |SplitOnce(CompositeEtag(md5, sorted), "-").value.0| == 32
    ensures ParseU64(SplitOnce(CompositeEtag(md5, sorted), "-").value.1) == Some(|sorted|)
  {
    var hex := HexLower(md5(Utf8(ConcatEtags(sorted))));
    var count := DecimalString(|sorted|);
    var e := hex + "-" + count;
    assert OccursAt(e, "-", 32) by { assert e[32..33] == "-"; }
    forall k: nat | k < 32
      ensures !OccursAt(e, "-", k)
    {
      assert e[k..k + 1] == [hex[k]];
    }
    assert IndexOf(e, "-").value == 32;
    assert e[33..] == count;
    DecimalParsesBack(|sorted|);
  }

  // ---------------------------------------------------------------------
  // The engine

  class LocalStorageEngine {
    const md5: Bytes -> Digest
    var objects: map<Location, StoredObject>
    var temps: map<string, Bytes>
    var uploads: map<string, Upload>
    /** Every rename performed: which temp file became which object. */
    ghost var renames: seq<(string, Location)>

    /** Temp files and upload directories share one directory and never collide by name. */
    ghost predicate Valid()
      reads this
    {
      (forall t :: t in temps ==> StartsWith(t, "tmp_"))
      && (forall id :: id in uploads ==> StartsWith(id, "mpu_"))
    }

    constructor (md5: Bytes -> Digest)
      ensures Valid() && this.md5 == md5
      ensures objects == map[] && temps == map[] && uploads == map[] && renames == []
    {
      this.md5 := md5;
      objects := map[];
      temps := map[];
      uploads := map[];
      renames := [];
    }

    /**
     * `put_object`: stream the body into a fresh temp file, then rename it onto
     * the object's location. A stream error leaves the partial temp file behind
     * and the object untouched.
     */
    method PutObject(bucket: string, key: string, body: seq<StreamItem>, now: int)
      returns (r: Result<string, StorageError>, ghost tmp: string)
      requires Valid()
      modifies this
      ensures Valid() && uploads == old(uploads)
      ensures tmp !in old(temps) && StartsWith(tmp, "tmp_")
      ensures r.Ok? <==> AllChunks(body)
      ensures r.Ok? ==> r.value == ContentEtag(md5, Received(body))
      ensures r.Ok? ==> objects == old(objects)[Location(bucket, key) := StoredObject(Received(body), now)]
      ensures r.Ok? ==> temps == old(temps) && renames == old(renames) + [(tmp, Location(bucket, key))]
      ensures r.Err? ==> r.error == StreamFailed && objects == old(objects) && renames == old(renames)
      ensures r.Err? ==> temps == old(temps)[tmp := Received(body)]
    {
      FreshName(temps.Keys, "tmp_");
      var t :| t !in temps && StartsWith(t, "tmp_");
      tmp := t;
      temps := temps[t := []];
      var written: Bytes := [];
      var i := 0;
      while i < |body|
        invariant i <= |body| && AllChunks(body[..i])
        invariant written == Received(body[..i])
        invariant temps == old(temps)[tmp := written]
        invariant objects == old(objects) && uploads == old(uploads) && renames == old(renames)
      {
        match body[i]
        case StreamError =>
          ErrorStep(body, i);
          return Err(StreamFailed), t;
        case Chunk(b) =>
          ChunkStep(body, i, b);
          written := written + b;
          temps := temps[t := written];
        i := i + 1;
      }
      assert body[..i] == body;
      temps := temps - {t};
      assert temps == old(temps);
      objects := objects[Location(bucket, key) := StoredObject(written, now)];
      renames := renames + [(t, Location(bucket, key))];
      r := Ok(ContentEtag(md5, written));
    }

    /** `head_object`: the file's size, the size ETag and the guessed content type. */
    function HeadObject(bucket: string, key: string): (r: Option<ObjectMetadata>)
      reads this
      ensures r.None? <==> Location(bucket, key) !in objects
      ensures r.Some? ==> r.value.contentLength == |objects[Location(bucket, key)].data|
      ensures r.Some? ==> r.value.etag == SizeEtag(r.value.contentLength)
      ensures r.Some? ==> r.value.lastModified == objects[Location(bucket, key)].modified
      ensures r.Some? ==> r.value.contentType == GuessContentType(key)
    {
      var loc := Location(bucket, key);
      if loc !in objects then None
      else
        var f := objects[loc];
        Some(ObjectMetadata(GuessContentType(key), |f.data|, SizeEtag(|f.data|), f.modified))
    }

    /** `get_object`: absence is `Ok(None)`; a range is checked before anything is read. */
    function GetObject(bucket: string, key: string, range: Option<(nat, Option<nat>)>)
      : (r: Result<Option<GetObjectResponse>, StorageError>)
      reads this
      ensures Location(bucket, key) !in objects ==> r == Ok(None)
      ensures Location(bucket, key) in objects && range.None? ==> r.Ok? && r.value.Some?
      ensures Location(bucket, key) in objects && r.Ok? ==> r.value.Some?
      ensures r.Ok? && r.value.Some? ==> Some(r.value.value.metadata) == HeadObject(bucket, key)
      ensures Location(bucket, key) in objects && range.Some? ==>
        var len := |objects[Location(bucket, key)].data|;
        var (start, end) := range.value;
        (r.Ok? <==> start < len && (end.None? || start <= end.value))
    {
      var loc := Location(bucket, key);
      if loc !in objects then Ok(None)
      else
        var f := objects[loc];
        var meta := HeadObject(bucket, key).value;
        match range
        case None => Ok(Some(GetObjectResponse(meta, WholeFile)))
        case Some((start, end)) =>
          match RangeWindow(start, end, |f.data|)
          case Err(e) => Err(e)
          case Ok((first, last)) => Ok(Some(GetObjectResponse(meta, ChunkWindow(first, last - first + 1))))
    }

    /**
     * The body `get_object` streams: the whole file without a range; with
     * one, the read stream's chunks from index `start`, as many as the
     * clamped range is long.
     */
    lemma GetObjectBody(bucket: string, key: string, range: Option<(nat, Option<nat>)>)
      ensures var r := GetObject(bucket, key, range);
        r.Ok? && r.value.Some? && range.None? ==> r.value.value.body == WholeFile
      ensures var r := GetObject(bucket, key, range);
        r.Ok? && r.value.Some? && range.Some? ==>
          var len := |objects[Location(bucket, key)].data|;
          var (start, end) := range.value;
          start < len && (end.Some? ==> start <= end.value)
          && r.value.value.body == ChunkWindow(start, (if end.Some? && end.value < len then end.value else len - 1) - start + 1)
    {
    }

    /** `delete_object`: reports whether the object existed; removes exactly that one. */
    method DeleteObject(bucket: string, key: string) returns (existed: bool)
      modifies this`objects
      ensures existed <==> Location(bucket, key) in old(objects)
      ensures objects == old(objects) - {Location(bucket, key)}
    {
      var loc := Location(bucket, key);
      existed := loc in objects;
      if existed {
        objects := objects - {loc};
      }
    }

    /**
     * `copy_object`: the destination becomes a copy of the source's bytes.
     * `fs::copy` opens the destination truncated before it reads the source,
     * so copying an object onto itself leaves it empty.
     */
    method CopyObject(srcBucket: string, srcKey: string, dstBucket: string, dstKey: string, now: int)
      returns (r: Result<string, StorageError>)
      modifies this`objects
      ensures Location(srcBucket, srcKey) !in old(objects) <==> r == Err(SourceNotFound)
      ensures r.Err? ==> objects == old(objects)
      ensures r.Ok? && Location(srcBucket, srcKey) != Location(dstBucket, dstKey) ==>
        var data := old(objects)[Location(srcBucket, srcKey)].data;
        objects == old(objects)[Location(dstBucket, dstKey) := StoredObject(data, now)]
        && r.value == SizeEtag(|data|)
      ensures r.Ok? && Location(srcBucket, srcKey) == Location(dstBucket, dstKey) ==>
        objects == old(objects)[Location(dstBucket, dstKey) := StoredObject([], now)]
        && r.value == SizeEtag(0)
    {
      var src := Location(srcBucket, srcKey);
      var dst := Location(dstBucket, dstKey);
      if src !in objects {
        return Err(SourceNotFound);
      }
      var data := if src == dst then [] else objects[src].data;
      objects := objects[dst := StoredObject(data, now)];
      r := Ok(SizeEtag(|data|));
    }

    /** `create_multipart_upload`: a fresh "mpu_" directory holding the upload's record and no parts. */
    method CreateMultipartUpload(bucket: string, key: string, contentType: string,
                                 userMetadata: Option<map<string, string>>)
      returns (uploadId: string)
      requires Valid()
      modifies this`uploads
      ensures Valid()
      ensures uploadId !in old(uploads) && StartsWith(uploadId, "mpu_")
      ensures uploads == old(uploads)[uploadId := Upload(bucket, key, contentType, userMetadata, map[])]
    {
      FreshName(uploads.Keys, "mpu_");
      uploadId :| uploadId !in uploads && StartsWith(uploadId, "mpu_");
      uploads := uploads[uploadId := Upload(bucket, key, contentType, userMetadata, map[])];
    }

    /**
     * `upload_part`: (re)creates the part's file and streams the body into it in
     * place; a stream error leaves the bytes received so far as the part.
     */
    method UploadPart(uploadId: string, partNumber: int, body: seq<StreamItem>)
      returns (r: Result<string, StorageError>)
      requires Valid()
      modifies this`uploads
      ensures Valid()
      ensures uploadId !in old(uploads) ==> r == Err(UploadNotFound(uploadId)) && uploads == old(uploads)
      ensures uploadId in old(uploads) ==>
        var up := old(uploads)[uploadId];
        uploads == old(uploads)[uploadId := up.(parts := up.parts[PartFileName(partNumber) := Received(body)])]
        && (r.Ok? <==> AllChunks(body))
        && (r.Ok? ==> r.value == ContentEtag(md5, Received(body)))
        && (r.Err? ==> r.error == StreamFailed)
    {
      if uploadId !in uploads {
        return Err(UploadNotFound(uploadId));
      }
      var up := uploads[uploadId];
      var name := PartFileName(partNumber);
      uploads := uploads[uploadId := up.(parts := up.parts[name := []])];
      var written: Bytes := [];
      var i := 0;
      while i < |body|
        invariant i <= |body| && AllChunks(body[..i])
        invariant written == Received(body[..i])
        invariant uploads == old(uploads)[uploadId := up.(parts := up.parts[name := written])]
      {
        match body[i]
        case StreamError =>
          ErrorStep(body, i);
          return Err(StreamFailed);
        case Chunk(b) =>
          ChunkStep(body, i, b);
          written := written + b;
          uploads := uploads[uploadId := up.(parts := up.parts[name := written])];
        i := i + 1;
      }
      assert body[..i] == body;
      r := Ok(ContentEtag(md5, written));
    }

    /**
     * `complete_multipart_upload`: checks the upload, its bucket and key, and
     * that every listed part is staged, all before touching any object; then
     * writes the final file in place, part by part in ascending part-number
     * order, removes the upload directory and returns the composite ETag.
     * Client ETags are never compared with the staged parts.
     */
    method CompleteMultipartUpload(bucket: string, key: string, uploadId: string,
                                   parts: seq<MultipartUploadPart>, now: int)
      returns (r: Result<string, StorageError>)
      requires Valid()
      modifies this`objects, this`uploads
      ensures Valid()
      ensures uploadId !in old(uploads) ==> r == Err(UploadNotFound(uploadId))
      ensures uploadId in old(uploads) ==>
        var up := old(uploads)[uploadId];
        ((up.bucket != bucket || up.key != key) ==> r == Err(BucketKeyMismatch))
        && (up.bucket == bucket && up.key == key && !AllStaged(PartNumbers(parts), up.parts) ==>
              r.Err? && r.error.PartNotFound?)
        && (r.Ok? <==> up.bucket == bucket && up.key == key && AllStaged(PartNumbers(parts), up.parts))
      ensures r.Err? ==> objects == old(objects) && uploads == old(uploads)
      ensures r.Err? && r.error.PartNotFound? ==>
        var up := old(uploads)[uploadId];
        r.error.partNumber in PartNumbers(parts) && PartFileName(r.error.partNumber) !in up.parts
        && forall i :: 0 <= i < |parts| && parts[i].partNumber < r.error.partNumber ==>
             PartFileName(parts[i].partNumber) in up.parts
      ensures r.Ok? ==>
        var up := old(uploads)[uploadId];
        var sorted := SortedParts(parts);
        AllStaged(PartNumbers(sorted), up.parts)
        && objects == old(objects)[Location(bucket, key) :=
             StoredObject(Assemble(PartNumbers(sorted), up.parts), now)]
        && uploads == old(uploads) - {uploadId}
        && r.value == CompositeEtag(md5, sorted)
    {
      if uploadId !in uploads {
        return Err(UploadNotFound(uploadId));
      }
      var up := uploads[uploadId];
      if up.bucket != bucket || up.key != key {
        return Err(BucketKeyMismatch);
      }
      var sorted := SortedParts(parts);
      var numbers := PartNumbers(sorted);
      StagedIsOrderFree(parts, sorted, up.parts);
      var missing := FirstUnstaged(numbers, up.parts);
      if missing.Some? {
        FirstMissingIsSmallest(parts, missing.value, up.parts);
        return Err(PartNotFound(numbers[missing.value]));
      }
      WriteConcatenation(Location(bucket, key), numbers, up.parts, now);
      uploads := uploads - {uploadId};
      var etagText := JoinEtags(sorted);
      r := Ok(HexLower(md5(Utf8(etagText))) + "-" + DecimalString(|sorted|));
    }

    /** The append loop of `complete`: create the final file, then append each part's bytes. */
    method WriteConcatenation(loc: Location, numbers: seq<int>, files: map<string, Bytes>, now: int)
      requires AllStaged(numbers, files)
      modifies this`objects
      ensures objects == old(objects)[loc := StoredObject(Assemble(numbers, files), now)]
    {
      objects := objects[loc := StoredObject([], now)];
      var data: Bytes := [];
      var i := 0;
      while i < |numbers|
        invariant i <= |numbers|
        invariant data == Assemble(numbers[..i], files)
        invariant objects == old(objects)[loc := StoredObject(data, now)]
      {
        assert numbers[..i + 1][..i] == numbers[..i];
        data := data + files[PartFileName(numbers[i])];
        objects := objects[loc := StoredObject(data, now)];
        i := i + 1;
      }
      assert numbers[..i] == numbers;
    }

    /** `abort_multipart_upload`: afterwards the upload is gone, whether or not it existed. */
    method AbortMultipartUpload(bucket: string, key: string, uploadId: string)
      requires Valid()
      modifies this`uploads
      ensures Valid()
      ensures uploads == old(uploads) - {uploadId}
    {
      if uploadId in uploads {
        uploads := uploads - {uploadId};
      }
    }
  }

  /** The validation loop of `complete`: the first listed part number whose file is not staged. */
  method FirstUnstaged(numbers: seq<int>, files: map<string, Bytes>) returns (missing: Option<nat>)
    ensures missing.None? <==> AllStaged(numbers, files)
    ensures missing.Some? ==> missing.value < |numbers| && PartFileName(numbers[missing.value]) !in files
    ensures missing.Some? ==> forall j :: 0 <= j < missing.value ==> PartFileName(numbers[j]) in files
  {
    var i := 0;
    while i < |numbers| && PartFileName(numbers[i]) in files
      invariant i <= |numbers|
      invariant forall j :: 0 <= j < i ==> PartFileName(numbers[j]) in files
    {
      i := i + 1;
    }
    missing := if i < |numbers| then Some(i) else None;
  }

  /** The loop gathering the part ETags of `complete`, in the sorted order. */
  method JoinEtags(sorted: seq<MultipartUploadPart>) returns (text: string)
    ensures text == ConcatEtags(sorted)
  {
    text := "";
    var i := 0;
    while i < |sorted|
      invariant i <= |sorted|
      invariant text == ConcatEtags(sorted[..i])
    {
      assert sorted[..i + 1][..i] == sorted[..i];
      text := text + sorted[i].etag;
      i := i + 1;
    }
    assert sorted[..i] == sorted;
  }

  /** Whether every listed part is staged does not depend on the listing order. */
  lemma StagedIsOrderFree(parts: seq<MultipartUploadPart>, sorted: seq<MultipartUploadPart>, files: map<string, Bytes>)
    requires multiset(sorted) == multiset(parts)
    ensures AllStaged(PartNumbers(sorted), files) <==> AllStaged(PartNumbers(parts), files)
  {
    forall i | 0 <= i < |parts| && AllStaged(PartNumbers(sorted), files)
      ensures PartFileName(parts[i].partNumber) in files
    {
      assert parts[i] in multiset(sorted);
      var k :| 0 <= k < |sorted| && sorted[k] == parts[i];
    }
    forall i | 0 <= i < |sorted| && AllStaged(PartNumbers(parts), files)
      ensures PartFileName(sorted[i].partNumber) in files
    {
      assert sorted[i] in multiset(parts);
      var k :| 0 <= k < |parts| && parts[k] == sorted[i];
    }
  }

  /** The first unstaged part met in ascending order is the smallest unstaged number listed. */
  lemma FirstMissingIsSmallest(parts: seq<MultipartUploadPart>, i: nat, files: map<string, Bytes>)
    requires i < |parts|
    requires forall j :: 0 <= j < i ==> PartFileName(PartNumbers(SortedParts(parts))[j]) in files
    ensures PartNumbers(SortedParts(parts))[i] in PartNumbers(parts)
    ensures forall j :: 0 <= j < |parts| && parts[j].partNumber < PartNumbers(SortedParts(parts))[i] ==>
      PartFileName(parts[j].partNumber) in files
  {
    var numbers := PartNumbers(parts);
    var sorted := PartNumbers(SortedParts(parts));
    SortedPartNumbers(parts);
    SortedPartsAscending(parts);
    assert Ascending(sorted);
    assert sorted[i] in multiset(numbers);
    forall j | 0 <= j < |parts| && parts[j].partNumber < sorted[i]
      ensures PartFileName(parts[j].partNumber) in files
    {
      var m := EarlierIndex(numbers, sorted, i, numbers[j]);
    }
  }

  predicate Ascending(s: seq<int>) {
    forall a, b :: 0 <= a < b < |s| ==> s[a] <= s[b]
  }

  /** In an ascending permutation, a listed number below the one at `i` sits before `i`. */
  lemma EarlierIndex(numbers: seq<int>, sorted: seq<int>, i: nat, n: int) returns (m: nat)
    requires multiset(sorted) == multiset(numbers) && Ascending(sorted)
    requires i < |sorted| && n in numbers && n < sorted[i]
    ensures m < i && sorted[m] == n
  {
    assert n in multiset(sorted);
    m := IndexOfMember(n, sorted);
  }

  lemma IndexOfMember<T>(x: T, s: seq<T>) returns (k: nat)
    requires x in multiset(s)
    ensures k < |s| && s[k] == x
  {
    k :| 0 <= k < |s| && s[k] == x;
  }
}
