/**
 * AWS Signature Version 4 as `crates/auth/src/sigv4.rs` computes it: the
 * canonical request, the string to sign, the signing-key chain, the 15-minute
 * timestamp window, and the parsing of the `Authorization` header.
 *
 * Percent-encoding, SHA-256, HMAC-SHA256 and the two `chrono` date formats are
 * foreign; they are the fields of a `Primitives` value, constrained only by the
 * alphabet of what they return. Timestamps are nanoseconds since the epoch.
 */
module SigV4 {
  import opened Wrappers
  import opened Text
  import opened Sorting
  import opened Encoding
  import opened Sequences

  /** The characters `urlencoding::encode` emits: the unreserved set, and '%' for escapes. */
  predicate IsEncodedChar(c: char) {
    IsAsciiLower(c) || IsAsciiUpper(c) || IsAsciiDigit(c) || c == '-' || c == '_' || c == '.' || c == '~' || c == '%'
  }

  type Encoded = s: string | forall i :: 0 <= i < |s| ==> IsEncodedChar(s[i]) witness ""

  /** The characters of a canonical path: those of an encoded segment, and '/'. */
  predicate IsPathChar(c: char) {
    IsEncodedChar(c) || c == '/'
  }

  /** The characters of a canonical or built query: those of an encoded key or value, '=' and '&'. */
  predicate IsQueryChar(c: char) {
    IsEncodedChar(c) || c == '=' || c == '&'
  }

  type Digest32 = d: Bytes | |d| == 32 witness seq(32, _ => 0)

  /** The characters of `%Y%m%d` and `%Y%m%dT%H%M%SZ` for years 0 to 9999. */
  predicate IsStampChar(c: char) {
    IsAsciiDigit(c) || c == 'T' || c == 'Z'
  }

  type Stamp = s: string | forall i :: 0 <= i < |s| ==> IsStampChar(s[i]) witness ""

  datatype Primitives = Primitives(
    urlEncode: string -> Encoded,
    sha256: Bytes -> Digest32,
    hmacSha256: (Bytes, Bytes) -> Digest32,  // (key, message)
    dateStamp: int -> Stamp,                 // `format("%Y%m%d")`
    amzDate: int -> Stamp)                   // `format("%Y%m%dT%H%M%SZ")`

  datatype SigV4Error =
    | TimestampTooOld
    | InvalidHeaderFormat
    | MissingCredential
    | MissingSignedHeaders
    | MissingSignature
    | InvalidCredentialFormat

  const Algorithm := "AWS4-HMAC-SHA256"
  const AuthPrefix := "AWS4-HMAC-SHA256 "
  /** Fifteen minutes, in nanoseconds. */
  const MaxAge: int := 15 * 60 * 1_000_000_000

  lemma EncodedExcludes(s: Encoded, c: char)
    requires !IsEncodedChar(c)
    ensures c !in s
  {
    forall i | 0 <= i < |s|
      ensures s[i] != c
    {
    }
  }

  lemma StampExcludes(s: Stamp, c: char)
    requires !IsStampChar(c)
    ensures c !in s
  {
    forall i | 0 <= i < |s|
      ensures s[i] != c
    {
    }
  }

  // ---------------------------------------------------------------- URI

  /** `canonical_uri_encode`: each '/'-separated segment encoded; the path is URL-safe. */
  function CanonicalUriEncode(enc: string -> Encoded, uri: string): (r: string)
    ensures uri == "" ==> r == "/"
    ensures forall i :: 0 <= i < |r| ==> IsPathChar(r[i])
  {
    if uri == "" then "/"
    else
      var segments := Map(enc, Split(uri, "/"));
      assert forall k, i :: 0 <= k < |segments| && 0 <= i < |segments[k]| ==> IsPathChar(segments[k][i]) by {
        forall k, i | 0 <= k < |segments| && 0 <= i < |segments[k]|
          ensures IsPathChar(segments[k][i])
        {
          var e: Encoded := enc(Split(uri, "/")[k]);
          assert segments[k] == e;
        }
      }
      JoinKeeps(segments, "/", IsPathChar);
      Join(segments, "/")
  }

  /** Each '/'-separated segment is encoded on its own and the slashes are kept. */
  lemma UriSegmentsPreserved(enc: string -> Encoded, uri: string)
    ensures uri == "" ==> CanonicalUriEncode(enc, uri) == "/"
    ensures uri != "" ==> Split(CanonicalUriEncode(enc, uri), "/") == Map(enc, Split(uri, "/"))
    ensures uri != "" ==> |Split(CanonicalUriEncode(enc, uri), "/")| == |Split(uri, "/")|
  {
    if uri != "" {
      var segments := Map(enc, Split(uri, "/"));
      forall k | 0 <= k < |segments|
        ensures SafePart(segments[k], "/")
      {
        EncodedExcludes(enc(Split(uri, "/")[k]), '/');
        SafeCharPart(segments[k], '/');
      }
      SplitJoin(segments, "/");
    }
  }

  // -------------------------------------------------------------- query

  /** One query parameter: `enc(k)=enc(v)` split at the first '=', or `enc(p)=` without one. */
  function EncodeParam(enc: string -> Encoded, param: string): string {
    match SplitOnce(param, "=")
    case Some((k, v)) => enc(k) + "=" + enc(v)
    case None => enc(param) + "="
  }

  /** `canonical_query_string`: the encoded parameters, sorted; the query is URL-safe. */
  function CanonicalQueryString(enc: string -> Encoded, query: string): (r: string)
    ensures query == "" <==> r == ""
    ensures forall i :: 0 <= i < |r| ==> IsQueryChar(r[i])
  {
    if query == "" then ""
    else
      var encoded := Map(p => EncodeParam(enc, p), Split(query, "&"));
      var sorted := SortBy(encoded, LexLe);
      assert forall k, i :: 0 <= k < |sorted| && 0 <= i < |sorted[k]| ==> IsQueryChar(sorted[k][i]) by {
        forall k | 0 <= k < |sorted|
          ensures forall i :: 0 <= i < |sorted[k]| ==> IsQueryChar(sorted[k][i])
        {
          assert sorted[k] in multiset(encoded);
          var j :| 0 <= j < |encoded| && encoded[j] == sorted[k];
          ParamChars(enc, Split(query, "&")[j]);
        }
      }
      JoinKeeps(sorted, "&", IsQueryChar);
      assert |sorted| > 0 && |sorted[0]| > 0 by {
        assert sorted[0] in multiset(encoded);
        var j :| 0 <= j < |encoded| && encoded[j] == sorted[0];
        ParamChars(enc, Split(query, "&")[j]);
      }
      Join(sorted, "&")
  }

  /** An encoded parameter is non-empty and URL-safe. */
  lemma ParamChars(enc: string -> Encoded, param: string)
    ensures |EncodeParam(enc, param)| > 0
    ensures forall i :: 0 <= i < |EncodeParam(enc, param)| ==> IsQueryChar(EncodeParam(enc, param)[i])
  {
    match SplitOnce(param, "=")
    case Some((k, v)) =>
      var ek: Encoded := enc(k);
      var ev: Encoded := enc(v);
      assert EncodeParam(enc, param) == ek + "=" + ev;
    case None =>
      var ep: Encoded := enc(param);
      assert EncodeParam(enc, param) == ep + "=";
  }

  lemma LexLeOrders()
    ensures Total(LexLe) && Transitive(LexLe)
  {
    forall a, b
      ensures LexLe(a, b) || LexLe(b, a)
    {
      LexLeTotal(a, b);
    }
    forall a, b, c | LexLe(a, b) && LexLe(b, c)
      ensures LexLe(a, c)
    {
      LexLeTransitive(a, b, c);
    }
  }

  lemma ParamExcludes(enc: string -> Encoded, param: string, c: char)
    requires !IsEncodedChar(c) && c != '='
    ensures c !in EncodeParam(enc, param)
  {
    match SplitOnce(param, "=")
    case Some((k, v)) =>
      EncodedExcludes(enc(k), c);
      EncodedExcludes(enc(v), c);
    case None =>
      EncodedExcludes(enc(param), c);
  }

  /** The first '=' of an encoded parameter separates the encoded key from the encoded value. */
  lemma EncodedParamSplitsBack(enc: string -> Encoded, param: string)
    ensures SplitOnce(param, "=").Some? ==>
      SplitOnce(EncodeParam(enc, param), "=")
        == Some((enc(SplitOnce(param, "=").value.0), enc(SplitOnce(param, "=").value.1)))
    ensures SplitOnce(param, "=").None? ==>
      SplitOnce(EncodeParam(enc, param), "=") == Some((enc(param), ""))
  {
    match SplitOnce(param, "=")
    case Some((k, v)) =>
      EncodedExcludes(enc(k), '=');
      SplitOnceAfterKey(enc(k), enc(v), '=');
    case None =>
      EncodedExcludes(enc(param), '=');
      SplitOnceAfterKey(enc(param), "", '=');
      assert enc(param) + ['='] + "" == enc(param) + "=";
  }

  /**
   * The canonical query holds every parameter of the query, encoded, once per
   * occurrence, in ascending order, separated by '&'.
   */
  lemma QueryParamsSorted(enc: string -> Encoded, query: string)
    requires query != ""
    ensures var params := Split(CanonicalQueryString(enc, query), "&");
      && multiset(params) == multiset(Map(p => EncodeParam(enc, p), Split(query, "&")))
      && SortedBy(params, LexLe)
  {
    var encoded := Map(p => EncodeParam(enc, p), Split(query, "&"));
    var sorted := SortBy(encoded, LexLe);
    forall k | 0 <= k < |sorted|
      ensures SafePart(sorted[k], "&")
    {
      assert sorted[k] in multiset(encoded);
      var i :| 0 <= i < |encoded| && encoded[i] == sorted[k];
      ParamExcludes(enc, Split(query, "&")[i], '&');
      SafeCharPart(sorted[k], '&');
    }
    SplitJoin(sorted, "&");
    LexLeOrders();
    SortBySorted(encoded, LexLe);
  }

  /** Reordering the parameters of a query does not change its canonical form. */
  lemma QueryOrderIrrelevant(enc: string -> Encoded, q1: string, q2: string)
    requires q1 != "" && q2 != ""
    requires multiset(Split(q1, "&")) == multiset(Split(q2, "&"))
    ensures CanonicalQueryString(enc, q1) == CanonicalQueryString(enc, q2)
  {
    var f := p => EncodeParam(enc, p);
    var e1 := Map(f, Split(q1, "&"));
    var e2 := Map(f, Split(q2, "&"));
    MapMultiset(f, Split(q1, "&"), Split(q2, "&"));
    LexLeOrders();
    forall i, j | 0 <= i < |e1| && 0 <= j < |e1| && LexLe(e1[i], e1[j]) && LexLe(e1[j], e1[i])
      ensures e1[i] == e1[j]
    {
      LexLeAntisymmetric(e1[i], e1[j]);
    }
    SortByOrderFree(e1, e2, LexLe);
  }

  // ------------------------------------------------------------ headers

  /** `(k.to_lowercase(), v.trim())`. */
  function CanonicalPair(h: (string, string)): (string, string) {
    (Lowercase(h.0), Trim(h.1))
  }

  predicate NameLe(a: (string, string), b: (string, string)) {
    LexLe(a.0, b.0)
  }

  function HeaderLine(h: (string, string)): string {
    h.0 + ":" + h.1
  }

  function HeaderName(h: (string, string)): string {
    h.0
  }

  /** The headers as the map hands them out, canonicalised and stably sorted by name. */
  function SortedHeaders(headers: seq<(string, string)>): seq<(string, string)> {
    SortBy(Map(CanonicalPair, headers), NameLe)
  }

  /** (canonical headers, signed headers); the signed-header list is already lower-case. */
  function CanonicalHeaders(headers: seq<(string, string)>): (r: (string, string))
    ensures Lowercase(r.1) == r.1
  {
    var sorted := SortedHeaders(headers);
    var signed := Join(Map(HeaderName, sorted), ";");
    SignedNamesLowercase(headers);
    (Join(Map(HeaderLine, sorted), "\n") + "\n", signed)
  }

  lemma SignedNamesLowercase(headers: seq<(string, string)>)
    ensures var j := Join(Map(HeaderName, SortedHeaders(headers)), ";");
      Lowercase(j) == j
  {
    var names := Map(HeaderName, SortedHeaders(headers));
    SortedNamesLowercase(headers);
    JoinKeeps(names, ";", c => !IsAsciiUpper(c));
    var j := Join(names, ";");
    assert forall i :: 0 <= i < |j| ==> Lowercase(j)[i] == j[i];
  }

  /** Every sorted header name is lower-cased. */
  lemma SortedNamesLowercase(headers: seq<(string, string)>)
    ensures var names := Map(HeaderName, SortedHeaders(headers));
      forall k, i :: 0 <= k < |names| && 0 <= i < |names[k]| ==> !IsAsciiUpper(names[k][i])
  {
    var sorted := SortedHeaders(headers);
    var canon := Map(CanonicalPair, headers);
    forall k | 0 <= k < |sorted|
      ensures exists j :: 0 <= j < |headers| && sorted[k].0 == Lowercase(headers[j].0)
    {
      assert sorted[k] in multiset(canon);
      var j :| 0 <= j < |canon| && canon[j] == sorted[k];
    }
  }

  lemma NameLeOrders()
    ensures Total(NameLe) && Transitive(NameLe)
  {
    LexLeOrders();
    forall a: (string, string), b: (string, string)
      ensures NameLe(a, b) || NameLe(b, a)
    {
      LexLeTotal(a.0, b.0);
    }
  }

  /**
   * Every header appears once, with a lowercased name and a trimmed value, the
   * headers are in ascending name order, and the canonical block ends in '\n'.
   */
  lemma CanonicalHeadersShape(headers: seq<(string, string)>)
    ensures var sorted := SortedHeaders(headers);
      && multiset(sorted) == multiset(Map(CanonicalPair, headers))
      && SortedBy(sorted, NameLe)
      && (forall i, j :: 0 <= i < |sorted| && 0 <= j < |sorted[i].0| ==> !IsAsciiUpper(sorted[i].0[j]))
      && (forall i :: 0 <= i < |sorted| && |sorted[i].1| > 0 ==>
            !IsWhitespace(sorted[i].1[0]) && !IsWhitespace(sorted[i].1[|sorted[i].1| - 1]))
    ensures var ch := CanonicalHeaders(headers).0; |ch| > 0 && ch[|ch| - 1] == '\n'
  {
    var canon := Map(CanonicalPair, headers);
    var sorted := SortedHeaders(headers);
    NameLeOrders();
    SortBySorted(canon, NameLe);
    forall i | 0 <= i < |sorted|
      ensures (forall j :: 0 <= j < |sorted[i].0| ==> !IsAsciiUpper(sorted[i].0[j]))
      ensures |sorted[i].1| > 0 ==> !IsWhitespace(sorted[i].1[0]) && !IsWhitespace(sorted[i].1[|sorted[i].1| - 1])
    {
      assert sorted[i] in multiset(canon);
      var k :| 0 <= k < |canon| && canon[k] == sorted[i];
      var t := Trim(headers[k].1);
      if |t| > 0 {
        assert t == TrimEnd(TrimStart(headers[k].1));
        assert t[0] == TrimStart(headers[k].1)[0];
      }
    }
  }

  /**
   * With the names free of '\n', ';' and ':' and the values free of '\n', the
   * canonical block splits back into one "name:value" line per header, and the
   * signed-header list into the same names in the same order.
   */
  lemma CanonicalHeadersSplitBack(headers: seq<(string, string)>)
    requires |headers| > 0
    requires forall k :: 0 <= k < |headers| ==> CleanHeader(headers[k])
    ensures var sorted := SortedHeaders(headers);
      var ch := CanonicalHeaders(headers);
      && Split(ch.0[..|ch.0| - 1], "\n") == Map(HeaderLine, sorted)
      && Split(ch.1, ";") == Map(HeaderName, sorted)
      && forall i :: 0 <= i < |sorted| ==> SplitOnce(HeaderLine(sorted[i]), ":") == Some(sorted[i])
  {
    var sorted := SortedHeaders(headers);
    var lines := Map(HeaderLine, sorted);
    var names := Map(HeaderName, sorted);
    SortedHeadersClean(headers);
    forall k | 0 <= k < |lines|
      ensures SafePart(lines[k], "\n")
    {
      SafeCharPart(lines[k], '\n');
    }
    forall k | 0 <= k < |names|
      ensures SafePart(names[k], ";")
    {
      SafeCharPart(names[k], ';');
    }
    SplitJoin(lines, "\n");
    SplitJoin(names, ";");
    var ch := CanonicalHeaders(headers).0;
    assert ch[..|ch| - 1] == Join(lines, "\n");
    forall i | 0 <= i < |sorted|
      ensures SplitOnce(HeaderLine(sorted[i]), ":") == Some(sorted[i])
    {
      SplitOnceAfterKey(sorted[i].0, sorted[i].1, ':');
    }
  }

  /** A name free of '\n', ';' and ':' and a value free of '\n'. */
  predicate CleanHeader(h: (string, string)) {
    '\n' !in h.0 && ';' !in h.0 && ':' !in h.0 && '\n' !in h.1
  }

  lemma CanonicalPairClean(h: (string, string))
    requires CleanHeader(h)
    ensures CleanHeader(CanonicalPair(h))
  {
    var name := h.0;
    forall j | 0 <= j < |name|
      ensures Lowercase(name)[j] != '\n' && Lowercase(name)[j] != ';' && Lowercase(name)[j] != ':'
    {
      assert name[j] in name;
    }
    var v := h.1;
    var s := TrimStart(v);
    var t := Trim(v);
    assert s == v[|v| - |s|..];
    assert t == s[..|t|];
    forall j | 0 <= j < |t|
      ensures t[j] != '\n'
    {
      assert t[j] == v[|v| - |s| + j];
      assert v[|v| - |s| + j] in v;
    }
  }

  /** Canonicalising keeps names and values free of the characters they were free of. */
  lemma SortedHeadersClean(headers: seq<(string, string)>)
    requires forall k :: 0 <= k < |headers| ==> CleanHeader(headers[k])
    ensures var sorted := SortedHeaders(headers);
      forall i :: 0 <= i < |sorted| ==> CleanHeader(sorted[i]) && '\n' !in HeaderLine(sorted[i])
  {
    var canon := Map(CanonicalPair, headers);
    var sorted := SortedHeaders(headers);
    forall i | 0 <= i < |sorted|
      ensures CleanHeader(sorted[i])
    {
      assert sorted[i] in multiset(canon);
      var k :| 0 <= k < |canon| && canon[k] == sorted[i];
      CanonicalPairClean(headers[k]);
    }
  }

  /**
   * The map's iteration order does not matter as long as no two headers share
   * a name once lowercased.
   */
  lemma HeaderOrderIrrelevant(h1: seq<(string, string)>, h2: seq<(string, string)>)
    requires multiset(h1) == multiset(h2)
    requires forall i, j :: 0 <= i < j < |h1| ==> Lowercase(h1[i].0) != Lowercase(h1[j].0)
    ensures CanonicalHeaders(h1) == CanonicalHeaders(h2)
  {
    var c1 := Map(CanonicalPair, h1);
    var c2 := Map(CanonicalPair, h2);
    MapMultiset(CanonicalPair, h1, h2);
    NameLeOrders();
    forall i, j | 0 <= i < |c1| && 0 <= j < |c1| && NameLe(c1[i], c1[j]) && NameLe(c1[j], c1[i])
      ensures c1[i] == c1[j]
    {
      LexLeAntisymmetric(c1[i].0, c1[j].0);
    }
    SortByOrderFree(c1, c2, NameLe);
  }

  // ------------------------------------------------------ query builder

  predicate KeyLe(a: (string, string), b: (string, string)) {
    LexLe(a.0, b.0)
  }

  function EncodePair(enc: string -> Encoded, kv: (string, string)): string {
    enc(kv.0) + "=" + enc(kv.1)
  }

  /** `build_query_string` over the map's entries, in the order the map hands them out. */
  function BuildQueryString(enc: string -> Encoded, params: seq<(string, string)>): (r: string)
    ensures |params| == 0 <==> r == ""
    ensures forall i :: 0 <= i < |r| ==> IsQueryChar(r[i])
  {
    var pairs := Map(kv => EncodePair(enc, kv), SortBy(params, KeyLe));
    assert forall k, i :: 0 <= k < |pairs| && 0 <= i < |pairs[k]| ==> IsQueryChar(pairs[k][i]) by {
      forall k | 0 <= k < |pairs|
        ensures forall i :: 0 <= i < |pairs[k]| ==> IsQueryChar(pairs[k][i])
      {
        var kv := SortBy(params, KeyLe)[k];
        var ek: Encoded := enc(kv.0);
        var ev: Encoded := enc(kv.1);
        assert pairs[k] == ek + "=" + ev;
      }
    }
    JoinKeeps(pairs, "&", IsQueryChar);
    assert |pairs| > 0 ==> |pairs[0]| > 0;
    Join(pairs, "&")
  }

  /** Every parameter is emitted exactly once, encoded, in ascending key order. */
  lemma BuiltQueryShape(enc: string -> Encoded, params: seq<(string, string)>)
    requires |params| > 0
    ensures var sorted := SortBy(params, KeyLe);
      && multiset(sorted) == multiset(params)
      && SortedBy(sorted, KeyLe)
      && Split(BuildQueryString(enc, params), "&") == Map(kv => EncodePair(enc, kv), sorted)
  {
    var sorted := SortBy(params, KeyLe);
    var pieces := Map(kv => EncodePair(enc, kv), sorted);
    LexLeOrders();
    forall a: (string, string), b: (string, string)
      ensures KeyLe(a, b) || KeyLe(b, a)
    {
      LexLeTotal(a.0, b.0);
    }
    SortBySorted(params, KeyLe);
    forall k | 0 <= k < |pieces|
      ensures SafePart(pieces[k], "&")
    {
      EncodedExcludes(enc(sorted[k].0), '&');
      EncodedExcludes(enc(sorted[k].1), '&');
      SafeCharPart(pieces[k], '&');
    }
    SplitJoin(pieces, "&");
  }

  /** A map has distinct keys, so its iteration order does not change the query. */
  lemma BuiltQueryOrderIrrelevant(enc: string -> Encoded, p1: seq<(string, string)>, p2: seq<(string, string)>)
    requires multiset(p1) == multiset(p2)
    requires forall i, j :: 0 <= i < j < |p1| ==> p1[i].0 != p1[j].0
    ensures BuildQueryString(enc, p1) == BuildQueryString(enc, p2)
  {
    LexLeOrders();
    forall a: (string, string), b: (string, string)
      ensures KeyLe(a, b) || KeyLe(b, a)
    {
      LexLeTotal(a.0, b.0);
    }
    forall i, j | 0 <= i < |p1| && 0 <= j < |p1| && KeyLe(p1[i], p1[j]) && KeyLe(p1[j], p1[i])
      ensures p1[i] == p1[j]
    {
      LexLeAntisymmetric(p1[i].0, p1[j].0);
    }
    SortByOrderFree(p1, p2, KeyLe);
  }

  // -------------------------------------------------- canonical request

  /** `create_canonical_request`: it opens with the method's line and closes with the payload hash's. */
  function CanonicalRequest(
    enc: string -> Encoded, verb: string, uri: string, query: string,
    headers: seq<(string, string)>, payloadHash: string): (r: string)
    ensures StartsWith(r, verb + "\n") && EndsWith(r, "\n" + payloadHash)
  {
    var (canonicalHeaders, signedHeaders) := CanonicalHeaders(headers);
    var fields := [verb, CanonicalUriEncode(enc, uri), CanonicalQueryString(enc, query),
                   canonicalHeaders, signedHeaders, payloadHash];
    JoinEnds(fields, "\n");
    Join(fields, "\n")
  }

  /**
   * The canonical request reads back line by line: verb, URI, query, one
   * line per header, the blank line that closes the header block, the signed
   * headers and the payload hash.
   */
  lemma CanonicalRequestLines(
    enc: string -> Encoded, verb: string, uri: string, query: string,
    headers: seq<(string, string)>, payloadHash: string)
    requires '\n' !in verb && '\n' !in payloadHash && |headers| > 0
    requires forall k :: 0 <= k < |headers| ==> CleanHeader(headers[k])
    ensures Split(CanonicalRequest(enc, verb, uri, query, headers, payloadHash), "\n")
      == [verb, CanonicalUriEncode(enc, uri), CanonicalQueryString(enc, query)]
         + (Map(HeaderLine, SortedHeaders(headers)) + [""])
         + [CanonicalHeaders(headers).1, payloadHash]
  {
    var u := CanonicalUriEncode(enc, uri);
    var q := CanonicalQueryString(enc, query);
    var lines := Map(HeaderLine, SortedHeaders(headers));
    var sh := CanonicalHeaders(headers).1;
    assert CanonicalHeaders(headers).0 == Join(lines, "\n") + "\n";
    UriHasNoNewline(enc, uri);
    QueryHasNoNewline(enc, query);
    SortedHeadersClean(headers);
    SignedHeadersHaveNoNewline(headers);
    RequestFieldsSplit(verb, u, q, lines, sh, payloadHash);
  }

  lemma UriHasNoNewline(enc: string -> Encoded, uri: string)
    ensures '\n' !in CanonicalUriEncode(enc, uri)
  {
    if uri != "" {
      var segments := Map(enc, Split(uri, "/"));
      forall k | 0 <= k < |segments|
        ensures '\n' !in segments[k]
      {
        EncodedExcludes(enc(Split(uri, "/")[k]), '\n');
      }
      NotInJoin(segments, "/", '\n');
    }
  }

  lemma QueryHasNoNewline(enc: string -> Encoded, query: string)
    ensures '\n' !in CanonicalQueryString(enc, query)
  {
    if query != "" {
      var encoded := Map(p => EncodeParam(enc, p), Split(query, "&"));
      var sorted := SortBy(encoded, LexLe);
      forall k | 0 <= k < |sorted|
        ensures '\n' !in sorted[k]
      {
        assert sorted[k] in multiset(encoded);
        var i :| 0 <= i < |encoded| && encoded[i] == sorted[k];
        ParamExcludes(enc, Split(query, "&")[i], '\n');
      }
      NotInJoin(sorted, "&", '\n');
    }
  }

  /** Six '\n'-joined fields, the fourth a '\n'-terminated block of lines, split back into their lines. */
  lemma RequestFieldsSplit(verb: string, u: string, q: string, lines: seq<string>, sh: string, payloadHash: string)
    requires '\n' !in verb && '\n' !in u && '\n' !in q && '\n' !in sh && '\n' !in payloadHash
    requires |lines| > 0 && forall k :: 0 <= k < |lines| ==> '\n' !in lines[k]
    ensures Split(Join([verb, u, q, Join(lines, "\n") + "\n", sh, payloadHash], "\n"), "\n")
      == [verb, u, q] + (lines + [""]) + [sh, payloadHash]
  {
    var a, b := [verb, u, q], [sh, payloadHash];
    forall k | 0 <= k < |a| ensures '\n' !in a[k] {
      if k == 0 { assert a[k] == verb; } else if k == 1 { assert a[k] == u; } else { assert a[k] == q; }
    }
    forall k | 0 <= k < |b| ensures '\n' !in b[k] {
      if k == 0 { assert b[k] == sh; } else { assert b[k] == payloadHash; }
    }
    BlockLinesSplitBack(a, lines, b);
    SixFields(verb, u, q, Join(lines, "\n") + "\n", sh, payloadHash);
  }

  lemma SixFields(f0: string, f1: string, f2: string, f3: string, f4: string, f5: string)
    ensures [f0, f1, f2, f3, f4, f5] == [f0, f1, f2] + [f3] + [f4, f5]
  {
  }

  /** Lines, then a '\n'-terminated block of lines, then more lines: splitting gives all the lines back. */
  lemma BlockLinesSplitBack(a: seq<string>, lines: seq<string>, b: seq<string>)
    requires |a| > 0 && |lines| > 0 && |b| > 0
    requires forall k :: 0 <= k < |a| ==> '\n' !in a[k]
    requires forall k :: 0 <= k < |lines| ==> '\n' !in lines[k]
    requires forall k :: 0 <= k < |b| ==> '\n' !in b[k]
    ensures Split(Join(a + [Join(lines, "\n") + "\n"] + b, "\n"), "\n") == a + (lines + [""]) + b
  {
    var all := a + (lines + [""]) + b;
    assert Split(Join(all, "\n"), "\n") == all by {
      LinesFree(a, lines, b);
      SplitJoinChar(all, '\n');
    }
    BlockAsLines(a, lines, b, "\n");
  }

  lemma LinesFree(a: seq<string>, lines: seq<string>, b: seq<string>)
    requires forall k :: 0 <= k < |a| ==> '\n' !in a[k]
    requires forall k :: 0 <= k < |lines| ==> '\n' !in lines[k]
    requires forall k :: 0 <= k < |b| ==> '\n' !in b[k]
    ensures var all := a + (lines + [""]) + b; forall k :: 0 <= k < |all| ==> '\n' !in all[k]
  {
    var block := lines + [""];
    var all := a + block + b;
    forall k | 0 <= k < |all|
      ensures '\n' !in all[k]
    {
      if k < |a| {
        assert all[k] == a[k];
      } else if k < |a| + |lines| {
        assert all[k] == block[k - |a|] == lines[k - |a|];
      } else if k >= |a| + |block| {
        assert all[k] == b[k - |a| - |block|];
      }
    }
  }

  /** The header block ends in a separator, so it contributes its lines and then one empty line. */
  lemma BlockAsLines(a: seq<string>, lines: seq<string>, b: seq<string>, sep: string)
    requires |a| > 0 && |lines| > 0 && |b| > 0
    ensures Join(a + [Join(lines, sep) + sep] + b, sep) == Join(a + (lines + [""]) + b, sep)
  {
    BlockJoin(lines, sep);
    JoinFlatten(a, lines + [""], b, sep);
  }

  lemma BlockJoin(lines: seq<string>, sep: string)
    requires |lines| > 0
    ensures Join(lines + [""], sep) == Join(lines, sep) + sep
  {
    JoinAppend(lines, [""], sep);
    assert Join([""], sep) == "";
  }

  /** Joining a joined block among other parts is joining all the parts. */
  lemma JoinFlatten(a: seq<string>, m: seq<string>, b: seq<string>, sep: string)
    requires |a| > 0 && |m| > 0 && |b| > 0
    ensures Join(a + [Join(m, sep)] + b, sep) == Join(a + m + b, sep)
  {
    JoinAppend(a + [Join(m, sep)], b, sep);
    JoinAppend(a, [Join(m, sep)], sep);
    JoinAppend(a + m, b, sep);
    JoinAppend(a, m, sep);
  }

  lemma SignedHeadersHaveNoNewline(headers: seq<(string, string)>)
    requires forall k :: 0 <= k < |headers| ==> CleanHeader(headers[k])
    ensures '\n' !in CanonicalHeaders(headers).1
  {
    SortedHeadersClean(headers);
    var names := Map(HeaderName, SortedHeaders(headers));
    NotInJoin(names, ";", '\n');
  }

  // ------------------------------------------------------ string to sign

  function CredentialScope(p: Primitives, timestamp: int, region: string, service: string): string {
    Join([p.dateStamp(timestamp), region, service, "aws4_request"], "/")
  }

  /** `create_string_to_sign`: the algorithm's line first, the request's SHA-256 in 64 hex digits last. */
  function StringToSign(p: Primitives, canonicalRequest: string, timestamp: int, region: string, service: string): (r: string)
    ensures StartsWith(r, Algorithm + "\n")
    ensures EndsWith(r, "\n" + HexLower(p.sha256(Utf8(canonicalRequest))))
  {
    var hex := HexLower(p.sha256(Utf8(canonicalRequest)));
    var fields := [Algorithm, p.amzDate(timestamp), CredentialScope(p, timestamp, region, service), hex];
    JoinEnds(fields, "\n");
    Join(fields, "\n")
  }

  /**
   * Four lines: the algorithm, the timestamp, the scope (which splits back
   * into date, region, service and "aws4_request") and 64 hex digits of the
   * request's SHA-256.
   */
  lemma StringToSignLines(p: Primitives, canonicalRequest: string, timestamp: int, region: string, service: string)
    requires '\n' !in region && '\n' !in service && '/' !in region && '/' !in service
    ensures var lines := Split(StringToSign(p, canonicalRequest, timestamp, region, service), "\n");
      && |lines| == 4
      && lines[0] == Algorithm
      && lines[1] == p.amzDate(timestamp)
      && Split(lines[2], "/") == [p.dateStamp(timestamp), region, service, "aws4_request"]
      && |lines[3]| == 64
      && DecodeHex(lines[3]) == Some(p.sha256(Utf8(canonicalRequest)))
  {
    var date := p.dateStamp(timestamp);
    StampExcludes(p.amzDate(timestamp), '\n');
    ScopeSplitsBack(date, region, service);
    var hex := HexLower(p.sha256(Utf8(canonicalRequest)));
    HexHasNoNewline(p.sha256(Utf8(canonicalRequest)));
    HexRoundTrip(p.sha256(Utf8(canonicalRequest)));
    FourFieldsSplit(Algorithm, p.amzDate(timestamp), CredentialScope(p, timestamp, region, service), hex, '\n');
  }

  lemma ScopeSplitsBack(date: Stamp, region: string, service: string)
    requires '\n' !in region && '\n' !in service && '/' !in region && '/' !in service
    ensures Split(Join([date, region, service, "aws4_request"], "/"), "/") == [date, region, service, "aws4_request"]
    ensures '\n' !in Join([date, region, service, "aws4_request"], "/")
  {
    StampExcludes(date, '/');
    StampExcludes(date, '\n');
    FourFieldsSplit(date, region, service, "aws4_request", '/');
    FourFieldsFree(date, region, service, "aws4_request", "/", '\n');
  }

  /** Four fields free of the separator, joined with it, split back into the same four fields. */
  lemma FourFieldsSplit(f0: string, f1: string, f2: string, f3: string, c: char)
    requires c !in f0 && c !in f1 && c !in f2 && c !in f3
    ensures Split(Join([f0, f1, f2, f3], [c]), [c]) == [f0, f1, f2, f3]
  {
    var fields := [f0, f1, f2, f3];
    forall k | 0 <= k < |fields| ensures c !in fields[k] {
      if k == 0 { assert fields[k] == f0; }
      else if k == 1 { assert fields[k] == f1; }
      else if k == 2 { assert fields[k] == f2; }
      else { assert fields[k] == f3; }
    }
    SplitJoinChar(fields, c);
  }

  /** Joining four fields free of a character with a separator free of it gives a string free of it. */
  lemma FourFieldsFree(f0: string, f1: string, f2: string, f3: string, sep: string, c: char)
    requires c !in f0 && c !in f1 && c !in f2 && c !in f3 && c !in sep
    ensures c !in Join([f0, f1, f2, f3], sep)
  {
    var fields := [f0, f1, f2, f3];
    forall k | 0 <= k < |fields| ensures c !in fields[k] {
      if k == 0 { assert fields[k] == f0; }
      else if k == 1 { assert fields[k] == f1; }
      else if k == 2 { assert fields[k] == f2; }
      else { assert fields[k] == f3; }
    }
    NotInJoin(fields, sep, c);
  }

  lemma HexHasNoNewline(d: Bytes)
    ensures '\n' !in HexLower(d)
  {
    var hex := HexLower(d);
    forall k | 0 <= k < |hex|
      ensures hex[k] != '\n'
    {
      assert IsLowerHexDigit(hex[k]);
    }
  }

  // --------------------------------------------------------- signing

  /** kSigning = HMAC(HMAC(HMAC(HMAC("AWS4" + secret, date), region), service), "aws4_request"). */
  function SigningKey(p: Primitives, secret: string, timestamp: int, region: string, service: string): Digest32 {
    var kDate := p.hmacSha256(Utf8("AWS4" + secret), Utf8(p.dateStamp(timestamp)));
    var kRegion := p.hmacSha256(kDate, Utf8(region));
    var kService := p.hmacSha256(kRegion, Utf8(service));
    p.hmacSha256(kService, Utf8("aws4_request"))
  }

  /**
   * The signing key depends on the timestamp only through its date: every
   * request of one day, region and service is signed with the same key.
   */
  lemma SigningKeyPerDay(p: Primitives, secret: string, t1: int, t2: int, region: string, service: string)
    ensures p.dateStamp(t1) == p.dateStamp(t2) ==>
      SigningKey(p, secret, t1, region, service) == SigningKey(p, secret, t2, region, service)
  {
  }

  /** Lowercase hex of HMAC(key, string to sign): always 64 hex digits that decode to the MAC. */
  function CalculateSignature(p: Primitives, key: Bytes, stringToSign: string): (r: string)
    ensures |r| == 64 && forall i :: 0 <= i < |r| ==> IsLowerHexDigit(r[i])
    ensures DecodeHex(r) == Some(p.hmacSha256(key, Utf8(stringToSign)))
  {
    HexRoundTrip(p.hmacSha256(key, Utf8(stringToSign)));
    HexLower(p.hmacSha256(key, Utf8(stringToSign)))
  }

  function Abs(x: int): nat {
    if x < 0 then -x else x
  }

  /** The signature the server expects for a request. */
  function ExpectedSignature(
    p: Primitives, secret: string, verb: string, uri: string, query: string,
    headers: seq<(string, string)>, payloadHash: string, timestamp: int,
    region: string, service: string): (r: string)
    ensures |r| == 64 && forall i :: 0 <= i < |r| ==> IsLowerHexDigit(r[i])
  {
    var canonical := CanonicalRequest(p.urlEncode, verb, uri, query, headers, payloadHash);
    var toSign := StringToSign(p, canonical, timestamp, region, service);
    CalculateSignature(p, SigningKey(p, secret, timestamp, region, service), toSign)
  }

  /**
   * `SigV4Validator::validate_signature`, with the clock reading `now` as a
   * parameter: a timestamp more than 15 minutes away from `now`, in either
   * direction, is an error; otherwise the answer is whether the supplied
   * signature is the expected one.
   */
  function ValidateSignature(
    p: Primitives, now: int, secret: string, verb: string, uri: string, query: string,
    headers: seq<(string, string)>, payloadHash: string, signature: string, timestamp: int,
    region: string, service: string): (r: Result<bool, SigV4Error>)
    ensures r.Err? <==> Abs(now - timestamp) > MaxAge
    ensures r.Err? ==> r.error == TimestampTooOld
    ensures r == Ok(true) ==>
      signature == ExpectedSignature(p, secret, verb, uri, query, headers, payloadHash, timestamp, region, service)
    ensures r.Ok? && !(|signature| == 64 && forall i :: 0 <= i < |signature| ==> IsLowerHexDigit(signature[i]))
      ==> r == Ok(false)
  {
    if Abs(now - timestamp) > MaxAge then Err(TimestampTooOld)
    else Ok(ExpectedSignature(p, secret, verb, uri, query, headers, payloadHash, timestamp, region, service) == signature)
  }

  /** A request signed with the same secret inside the window is accepted, whatever header order either side saw. */
  lemma SignedRequestAccepted(
    p: Primitives, now: int, secret: string, verb: string, uri: string, query: string,
    h1: seq<(string, string)>, h2: seq<(string, string)>, payloadHash: string, timestamp: int,
    region: string, service: string)
    requires Abs(now - timestamp) <= MaxAge
    requires multiset(h1) == multiset(h2)
    requires forall i, j :: 0 <= i < j < |h1| ==> Lowercase(h1[i].0) != Lowercase(h1[j].0)
    ensures ValidateSignature(p, now, secret, verb, uri, query, h2, payloadHash,
      ExpectedSignature(p, secret, verb, uri, query, h1, payloadHash, timestamp, region, service),
      timestamp, region, service) == Ok(true)
  {
    HeaderOrderIrrelevant(h1, h2);
  }

  // ----------------------------------------------- Authorization header

  datatype AuthInfo = AuthInfo(
    accessKeyId: string,
    date: string,
    region: string,
    service: string,
    signedHeaders: seq<string>,
    signature: string)

  /** The value of the last `key=value` part whose key is `key`; later parts overwrite earlier ones. */
  function LastValue(parts: seq<string>, key: string): Option<string> {
    if |parts| == 0 then None
    else match SplitOnce(parts[|parts| - 1], "=")
      case Some((k, v)) => if k == key then Some(v) else LastValue(parts[..|parts| - 1], key)
      case None => LastValue(parts[..|parts| - 1], key)
  }

  /** The checks after the loop, in the order the code makes them. */
  function FromFields(credential: Option<string>, signedHeaders: Option<string>, signature: Option<string>): Result<AuthInfo, SigV4Error> {
    if credential.None? then Err(MissingCredential)
    else if signedHeaders.None? then Err(MissingSignedHeaders)
    else if signature.None? then Err(MissingSignature)
    else
      var parts := Split(credential.value, "/");
      if |parts| != 5 then Err(InvalidCredentialFormat)
      else Ok(AuthInfo(parts[0], parts[1], parts[2], parts[3], Split(signedHeaders.value, ";"), signature.value))
  }

  /** What `parse_authorization_header` returns for a header. */
  function AuthorizationFields(header: string): (r: Result<AuthInfo, SigV4Error>)
    ensures !StartsWith(header, AuthPrefix) ==> r == Err(InvalidHeaderFormat)
    ensures r.Ok? ==>
      var parts := Split(header[|AuthPrefix|..], ", ");
      && StartsWith(header, AuthPrefix)
      && LastValue(parts, "Signature") == Some(r.value.signature)
      && LastValue(parts, "Credential").Some?
      && |Split(LastValue(parts, "Credential").value, "/")| == 5
      && Split(LastValue(parts, "Credential").value, "/")[0] == r.value.accessKeyId
  {
    if !StartsWith(header, AuthPrefix) then Err(InvalidHeaderFormat)
    else
      var parts := Split(header[|AuthPrefix|..], ", ");
      FromFields(LastValue(parts, "Credential"), LastValue(parts, "SignedHeaders"), LastValue(parts, "Signature"))
  }

  /** `parse_authorization_header`: one pass over the ", "-separated parts. */
  method ParseAuthorizationHeader(header: string) returns (r: Result<AuthInfo, SigV4Error>)
    ensures r == AuthorizationFields(header)
    ensures r.Ok? ==> StartsWith(header, AuthPrefix)
  {
    if !StartsWith(header, AuthPrefix) {
      return Err(InvalidHeaderFormat);
    }
    var parts := Split(header[|AuthPrefix|..], ", ");
    var credential: Option<string> := None;
    var signedHeaders: Option<string> := None;
    var signature: Option<string> := None;
    var i := 0;
    while i < |parts|
      invariant 0 <= i <= |parts|
      invariant credential == LastValue(parts[..i], "Credential")
      invariant signedHeaders == LastValue(parts[..i], "SignedHeaders")
      invariant signature == LastValue(parts[..i], "Signature")
    {
      assert parts[..i + 1][..i] == parts[..i];
      match SplitOnce(parts[i], "=") {
        case Some((k, v)) =>
          if k == "Credential" {
            credential := Some(v);
          } else if k == "SignedHeaders" {
            signedHeaders := Some(v);
          } else if k == "Signature" {
            signature := Some(v);
          }
        case None =>
      }
      i := i + 1;
    }
    assert parts[..|parts|] == parts;
    r := FromFields(credential, signedHeaders, signature);
  }

  /** The header a client sends for the given fields. */
  function FormatAuthorization(info: AuthInfo): string {
    AuthPrefix + Join([
      "Credential=" + CredentialText(info),
      "SignedHeaders=" + Join(info.signedHeaders, ";"),
      "Signature=" + info.signature], ", ")
  }

  function CredentialText(info: AuthInfo): string {
    Join([info.accessKeyId, info.date, info.region, info.service, "aws4_request"], "/")
  }

  /** Fields that survive the round trip: no ',' anywhere, no '/' in the credential, no ';' in a header name. */
  predicate Formattable(info: AuthInfo) {
    && |info.signedHeaders| > 0
    && (forall s :: s in [info.accessKeyId, info.date, info.region, info.service] ==> ',' !in s && '/' !in s)
    && (forall s :: s in info.signedHeaders ==> ',' !in s && ';' !in s)
    && ',' !in info.signature
  }

  /** A header built from its fields parses back to them. */
  lemma ParseFormatted(info: AuthInfo)
    requires Formattable(info)
    ensures AuthorizationFields(FormatAuthorization(info)) == Ok(info)
  {
    var credential := CredentialText(info);
    var signed := Join(info.signedHeaders, ";");
    var rest := Join(["Credential=" + credential, "SignedHeaders=" + signed, "Signature=" + info.signature], ", ");
    var header := FormatAuthorization(info);
    assert StartsWith(header, AuthPrefix) && header[|AuthPrefix|..] == rest;
    CredentialSplitsBack(info);
    SignedHeadersSplitBack(info.signedHeaders);
    FieldsFound(credential, signed, info.signature);
  }

  lemma CredentialSplitsBack(info: AuthInfo)
    requires Formattable(info)
    ensures Split(CredentialText(info), "/") == [info.accessKeyId, info.date, info.region, info.service, "aws4_request"]
    ensures ',' !in CredentialText(info)
  {
    var parts := [info.accessKeyId, info.date, info.region, info.service, "aws4_request"];
    forall k | 0 <= k < 5
      ensures '/' !in parts[k] && ',' !in parts[k]
    {
      if k < 4 {
        assert parts[k] in [info.accessKeyId, info.date, info.region, info.service];
      }
    }
    SplitJoinChar(parts, '/');
    NotInJoin(parts, "/", ',');
  }

  lemma SignedHeadersSplitBack(names: seq<string>)
    requires |names| > 0 && forall s :: s in names ==> ',' !in s && ';' !in s
    ensures Split(Join(names, ";"), ";") == names && ',' !in Join(names, ";")
  {
    forall k | 0 <= k < |names|
      ensures ';' !in names[k] && ',' !in names[k]
    {
      assert names[k] in names;
    }
    SplitJoinChar(names, ';');
    NotInJoin(names, ";", ',');
  }

  /** Each of the three fields is found under its key. */
  lemma FieldsFound(credential: string, signed: string, signature: string)
    requires ',' !in credential && ',' !in signed && ',' !in signature
    ensures var parts := Split(Join(["Credential=" + credential, "SignedHeaders=" + signed, "Signature=" + signature], ", "), ", ");
      && LastValue(parts, "Credential") == Some(credential)
      && LastValue(parts, "SignedHeaders") == Some(signed)
      && LastValue(parts, "Signature") == Some(signature)
  {
    var c := "Credential=" + credential;
    var h := "SignedHeaders=" + signed;
    var g := "Signature=" + signature;
    KeyLiterals();
    assert Split(Join([c, h, g], ", "), ", ") == [c, h, g] by {
      ThreePartsSplitBack(c, h, g);
    }
    assert SplitOnce(c, "=") == Some(("Credential", credential)) by {
      KeyValueSplits("Credential", "Credential=", credential);
    }
    assert SplitOnce(h, "=") == Some(("SignedHeaders", signed)) by {
      KeyValueSplits("SignedHeaders", "SignedHeaders=", signed);
    }
    assert SplitOnce(g, "=") == Some(("Signature", signature)) by {
      KeyValueSplits("Signature", "Signature=", signature);
    }
    LastValueOfThree(c, h, g, "Credential", "SignedHeaders", "Signature", credential, signed, signature);
  }

  lemma KeyLiterals()
    ensures '=' !in "Credential" && '=' !in "SignedHeaders" && '=' !in "Signature"
    ensures ',' !in "Credential=" && ',' !in "SignedHeaders=" && ',' !in "Signature="
    ensures "Credential=" == "Credential" + "=" && "SignedHeaders=" == "SignedHeaders" + "="
    ensures "Signature=" == "Signature" + "="
    ensures "Credential" != "SignedHeaders" && "SignedHeaders" != "Signature" && "Credential" != "Signature"
  {
  }

  lemma ThreePartsSplitBack(c: string, h: string, g: string)
    requires ',' !in c && ',' !in h && ',' !in g
    ensures Split(Join([c, h, g], ", "), ", ") == [c, h, g]
  {
    CommaFreeIsSafe(c);
    CommaFreeIsSafe(h);
    CommaFreeIsSafe(g);
    SplitJoin([c, h, g], ", ");
  }

  /** `split_once('=')` on "key=value" with a key free of '='. */
  lemma KeyValueSplits(key: string, keyEq: string, value: string)
    requires '=' !in key && keyEq == key + "="
    ensures SplitOnce(keyEq + value, "=") == Some((key, value))
  {
    SplitOnceAfterKey(key, value, '=');
    assert key + ['='] + value == keyEq + value;
  }

  /** With three parts under three different keys, each key finds its own part. */
  lemma LastValueOfThree(x: string, y: string, z: string, kx: string, ky: string, kz: string, vx: string, vy: string, vz: string)
    requires SplitOnce(x, "=") == Some((kx, vx)) && SplitOnce(y, "=") == Some((ky, vy)) && SplitOnce(z, "=") == Some((kz, vz))
    requires kx != ky && ky != kz && kx != kz
    ensures LastValue([x, y, z], kx) == Some(vx)
    ensures LastValue([x, y, z], ky) == Some(vy)
    ensures LastValue([x, y, z], kz) == Some(vz)
  {
    assert [x, y, z] == [x, y] + [z];
    assert [x, y] == [x] + [y];
    LastValueSkips([x, y], z, kz, vz, kx);
    LastValueSkips([x, y], z, kz, vz, ky);
    LastValueSkips([x], y, ky, vy, kx);
    assert [x] == [] + [x];
    LastValueSkips([], x, kx, vx, kx);
    LastValueSkips([x], y, ky, vy, ky);
    LastValueSkips([x, y], z, kz, vz, kz);
  }

  lemma LastValueSkips(parts: seq<string>, last: string, k: string, v: string, key: string)
    requires SplitOnce(last, "=") == Some((k, v))
    ensures LastValue(parts + [last], key) == if k == key then Some(v) else LastValue(parts, key)
  {
    assert (parts + [last])[..|parts|] == parts;
  }
}
