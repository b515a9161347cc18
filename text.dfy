/**
 * String helpers with Rust's meaning: `starts_with`, `split` on a separator
 * (non-overlapping matches, leftmost first), `split_once`, `join`, `trim`,
 * ASCII lowercasing, and the ordering Rust uses to compare `String`s.
 */
module Text {
  import opened Wrappers

  predicate StartsWith(s: string, prefix: string) {
    |prefix| <= |s| && s[..|prefix|] == prefix
  }

  predicate EndsWith(s: string, suffix: string) {
    |suffix| <= |s| && s[|s| - |suffix|..] == suffix
  }

  /** `sep` occurs in `s` starting at index `i`. */
  predicate OccursAt(s: string, sep: string, i: nat) {
    i + |sep| <= |s| && s[i..i + |sep|] == sep
  }

  ghost predicate NoOccurrence(s: string, sep: string) {
    forall j: nat :: !OccursAt(s, sep, j)
  }

  /** The index of the leftmost occurrence of `sep` at or after `k`. */
  function IndexFrom(s: string, sep: string, k: nat): (r: Option<nat>)
    requires |sep| > 0
    requires forall j: nat :: j < k ==> !OccursAt(s, sep, j)
    ensures r.Some? ==> k <= r.value && OccursAt(s, sep, r.value)
    ensures r.Some? ==> forall j: nat :: j < r.value ==> !OccursAt(s, sep, j)
    ensures r.None? ==> NoOccurrence(s, sep)
    decreases |s| - k
  {
    if k + |sep| > |s| then None
    else if s[k..k + |sep|] == sep then Some(k)
    else IndexFrom(s, sep, k + 1)
  }

  /** The index of the leftmost occurrence of `sep` in `s`, if any. */
  function IndexOf(s: string, sep: string): (r: Option<nat>)
    requires |sep| > 0
    ensures r.Some? ==> OccursAt(s, sep, r.value)
    ensures r.Some? ==> forall j: nat :: j < r.value ==> !OccursAt(s, sep, j)
    ensures r.None? ==> NoOccurrence(s, sep)
  {
    IndexFrom(s, sep, 0)
  }

  lemma PrefixBeforeFirst(s: string, sep: string, i: nat)
    requires |sep| > 0 && i <= |s|
    requires forall j: nat :: j < i ==> !OccursAt(s, sep, j)
    ensures NoOccurrence(s[..i], sep)
  {
    forall j: nat | OccursAt(s[..i], sep, j)
      ensures false
    {
      assert s[..i][j..j + |sep|] == s[j..j + |sep|];
      assert OccursAt(s, sep, j);
    }
  }

  /** `str::split` with a non-empty pattern: the pieces between the matches. */
  function Split(s: string, sep: string): (parts: seq<string>)
    requires |sep| > 0
    ensures |parts| >= 1
    ensures forall k :: 0 <= k < |parts| ==> NoOccurrence(parts[k], sep)
    decreases |s|
  {
    match IndexOf(s, sep)
    case None => [s]
    case Some(i) =>
      PrefixBeforeFirst(s, sep, i);
      [s[..i]] + Split(s[i + |sep|..], sep)
  }

  /** `str::split_once`: the text before and after the first match. */
  function SplitOnce(s: string, sep: string): (r: Option<(string, string)>)
    requires |sep| > 0
    ensures r.None? <==> NoOccurrence(s, sep)
    ensures r.Some? ==> r.value.0 + sep + r.value.1 == s && NoOccurrence(r.value.0, sep)
  {
    match IndexOf(s, sep)
    case None => None
    case Some(i) =>
      PrefixBeforeFirst(s, sep, i);
      assert s[..i] + sep + s[i + |sep|..] == s by {
        assert s[i..i + |sep|] == sep;
        assert s == s[..i] + s[i..i + |sep|] + s[i + |sep|..];
      }
      Some((s[..i], s[i + |sep|..]))
  }

  /** `[String]::join`. */
  function Join(parts: seq<string>, sep: string): string {
    if |parts| == 0 then ""
    else if |parts| == 1 then parts[0]
    else parts[0] + sep + Join(parts[1..], sep)
  }

  /** Splitting and joining again on the same separator gives back the text. */
  lemma {:induction false} JoinSplit(s: string, sep: string)
    requires |sep| > 0
    ensures Join(Split(s, sep), sep) == s
    decreases |s|
  {
    match IndexOf(s, sep)
    case None =>
    case Some(i) =>
      var rest := s[i + |sep|..];
      var tail := Split(rest, sep);
      JoinSplit(rest, sep);
      var parts := [s[..i]] + tail;
      assert Split(s, sep) == parts;
      assert parts[1..] == tail;
      assert Join(parts, sep) == s[..i] + sep + Join(tail, sep);
      assert s[i..i + |sep|] == sep;
      assert s == s[..i] + s[i..i + |sep|] + rest;
  }

  /** A part that neither contains `sep` nor completes one with a proper prefix of `sep`. */
  ghost predicate SafePart(p: string, sep: string)
    requires |sep| > 0
  {
    NoOccurrence(p + sep[..|sep| - 1], sep)
  }

  lemma SafePartHasNoSep(p: string, sep: string)
    requires |sep| > 0 && SafePart(p, sep)
    ensures NoOccurrence(p, sep)
  {
    forall j: nat | OccursAt(p, sep, j)
      ensures false
    {
      assert (p + sep[..|sep| - 1])[j..j + |sep|] == p[j..j + |sep|];
      assert OccursAt(p + sep[..|sep| - 1], sep, j);
    }
  }

  lemma FirstOccurrenceAfterSafePart(p: string, sep: string, rest: string)
    requires |sep| > 0 && SafePart(p, sep)
    ensures IndexOf(p + sep + rest, sep) == Some(|p|)
  {
    var s := p + sep + rest;
    var q := p + sep[..|sep| - 1];
    assert s[|p|..|p| + |sep|] == sep;
    assert OccursAt(s, sep, |p|);
    assert s[..|q|] == q;
    forall j: nat | j < |p|
      ensures !OccursAt(s, sep, j)
    {
      assert j + |sep| <= |q|;
      assert forall t :: j <= t < j + |sep| ==> s[t] == q[t];
      assert s[j..j + |sep|] == q[j..j + |sep|];
      assert !OccursAt(q, sep, j);
    }
  }

  /** Joining parts that are safe for `sep` and splitting again gives back the parts. */
  lemma {:induction false} SplitJoin(parts: seq<string>, sep: string)
    requires |sep| > 0 && |parts| >= 1
    requires forall k :: 0 <= k < |parts| ==> SafePart(parts[k], sep)
    ensures Split(Join(parts, sep), sep) == parts
  {
    if |parts| == 1 {
      SafePartHasNoSep(parts[0], sep);
      assert IndexOf(parts[0], sep).None?;
    } else {
      var p := parts[0];
      var rest := Join(parts[1..], sep);
      FirstOccurrenceAfterSafePart(p, sep, rest);
      var s := p + sep + rest;
      assert s[..|p|] == p;
      assert s[|p| + |sep|..] == rest;
      SplitJoin(parts[1..], sep);
      assert parts == [p] + parts[1..];
    }
  }

  lemma {:induction false} JoinAppend(xs: seq<string>, ys: seq<string>, sep: string)
    requires |xs| > 0 && |ys| > 0
    ensures Join(xs + ys, sep) == Join(xs, sep) + sep + Join(ys, sep)
  {
    if |xs| == 1 {
      assert (xs + ys)[1..] == ys;
    } else {
      assert (xs + ys)[1..] == xs[1..] + ys;
      JoinAppend(xs[1..], ys, sep);
    }
  }

  /** A join of two or more parts opens with the first part and a separator, and closes with a separator and the last part. */
  lemma JoinEnds(parts: seq<string>, sep: string)
    requires |parts| >= 2
    ensures StartsWith(Join(parts, sep), parts[0] + sep)
    ensures EndsWith(Join(parts, sep), sep + parts[|parts| - 1])
  {
    var last := parts[|parts| - 1];
    JoinAppend(parts[..|parts| - 1], [last], sep);
    assert parts[..|parts| - 1] + [last] == parts;
    assert Join(parts, sep) == parts[0] + sep + Join(parts[1..], sep);
  }

  /** A character found in neither the parts nor the separator is not in their join. */
  lemma {:induction false} NotInJoin(parts: seq<string>, sep: string, c: char)
    requires c !in sep && forall k :: 0 <= k < |parts| ==> c !in parts[k]
    ensures c !in Join(parts, sep)
  {
    if |parts| > 1 {
      NotInJoin(parts[1..], sep, c);
    }
  }

  /** When every character of the parts and of the separator has a property, so does every character of their join. */
  lemma {:induction false} JoinKeeps(parts: seq<string>, sep: string, ok: char -> bool)
    requires forall i :: 0 <= i < |sep| ==> ok(sep[i])
    requires forall k, i :: 0 <= k < |parts| && 0 <= i < |parts[k]| ==> ok(parts[k][i])
    ensures forall i :: 0 <= i < |Join(parts, sep)| ==> ok(Join(parts, sep)[i])
  {
    if |parts| > 1 {
      JoinKeeps(parts[1..], sep, ok);
      var rest := Join(parts[1..], sep);
      assert Join(parts, sep) == parts[0] + sep + rest;
      forall i | 0 <= i < |Join(parts, sep)|
        ensures ok(Join(parts, sep)[i])
      {
        if i < |parts[0]| {
        } else if i < |parts[0]| + |sep| {
          assert Join(parts, sep)[i] == sep[i - |parts[0]|];
        } else {
          assert Join(parts, sep)[i] == rest[i - |parts[0]| - |sep|];
        }
      }
    }
  }

  /** With the separator ", ", every part free of ',' is safe. */
  lemma CommaFreeIsSafe(p: string)
    requires ',' !in p
    ensures SafePart(p, ", ")
  {
    var q := p + ", "[..1];
    forall j: nat
      ensures !OccursAt(q, ", ", j)
    {
      if j + 2 <= |q| {
        assert q[j] == p[j] && p[j] in p;
        assert q[j..j + 2][0] == q[j];
      }
    }
  }

  /** `split_once` on a key that does not contain the separator character. */
  lemma SplitOnceAfterKey(k: string, v: string, c: char)
    requires c !in k
    ensures SplitOnce(k + [c] + v, [c]) == Some((k, v))
  {
    var s := k + [c] + v;
    assert OccursAt(s, [c], |k|) by { assert s[|k|..|k| + 1] == [c]; }
    forall j: nat | j < |k|
      ensures !OccursAt(s, [c], j)
    {
      assert s[j..j + 1] == [k[j]] && k[j] in k;
    }
    assert IndexOf(s, [c]) == Some(|k|);
    assert s[..|k|] == k && s[|k| + 1..] == v;
  }

  /** A one-character separator: every part without that character is safe. */
  lemma SafeCharPart(p: string, c: char)
    requires c !in p
    ensures SafePart(p, [c])
  {
    assert p + [c][..0] == p;
    forall j: nat
      ensures !OccursAt(p, [c], j)
    {
      if j + 1 <= |p| {
        assert p[j] in p;
        assert p[j..j + 1] == [p[j]];
      }
    }
  }

  /** Joining parts free of a character `c` on `c` and splitting again gives back the parts. */
  lemma SplitJoinChar(parts: seq<string>, c: char)
    requires |parts| >= 1 && forall k :: 0 <= k < |parts| ==> c !in parts[k]
    ensures Split(Join(parts, [c]), [c]) == parts
  {
    forall k | 0 <= k < |parts|
      ensures SafePart(parts[k], [c])
    {
      SafeCharPart(parts[k], c);
    }
    SplitJoin(parts, [c]);
  }

  /** Strings are compared as `Ord for str` does: lexicographically by code point. */
  predicate LexLe(a: string, b: string)
    decreases |a|
  {
    |a| == 0 || (|b| > 0 && (a[0] < b[0] || (a[0] == b[0] && LexLe(a[1..], b[1..]))))
  }

  lemma {:induction false} LexLeTotal(a: string, b: string)
    ensures LexLe(a, b) || LexLe(b, a)
    decreases |a|
  {
    if |a| > 0 && |b| > 0 && a[0] == b[0] {
      LexLeTotal(a[1..], b[1..]);
    }
  }

  lemma {:induction false} LexLeTransitive(a: string, b: string, c: string)
    requires LexLe(a, b) && LexLe(b, c)
    ensures LexLe(a, c)
    decreases |a|
  {
    if |a| > 0 && a[0] == b[0] && b[0] == c[0] {
      LexLeTransitive(a[1..], b[1..], c[1..]);
    }
  }

  lemma {:induction false} LexLeAntisymmetric(a: string, b: string)
    requires LexLe(a, b) && LexLe(b, a)
    ensures a == b
    decreases |a|
  {
    if |a| > 0 {
      LexLeAntisymmetric(a[1..], b[1..]);
      assert a == [a[0]] + a[1..];
      assert b == [b[0]] + b[1..];
    }
  }

  predicate IsAsciiLower(c: char) { 'a' <= c <= 'z' }
  predicate IsAsciiUpper(c: char) { 'A' <= c <= 'Z' }
  predicate IsAsciiDigit(c: char) { '0' <= c <= '9' }
  predicate IsAscii(c: char) { c < 128 as char }

  /** ASCII lowercasing of one character; other characters are kept. */
  function LowerChar(c: char): (r: char)
    ensures !IsAsciiUpper(r)
    ensures IsAsciiUpper(c) ==> r as int == c as int + 32
    ensures !IsAsciiUpper(c) ==> r == c
  {
    if IsAsciiUpper(c) then (c as int + 32) as char else c
  }

  function Lowercase(s: string): (r: string)
    ensures |r| == |s|
    ensures forall i :: 0 <= i < |s| ==> r[i] == LowerChar(s[i])
  {
    if |s| == 0 then "" else [LowerChar(s[0])] + Lowercase(s[1..])
  }

  /** `char::is_whitespace`: the Unicode White_Space property. */
  predicate IsWhitespace(c: char) {
    ('\t' <= c <= '\r') || c == ' ' || c == '\U{0085}' || c == '\U{00A0}' || c == '\U{1680}'
    || ('\U{2000}' <= c <= '\U{200A}') || c == '\U{2028}' || c == '\U{2029}' || c == '\U{202F}'
    || c == '\U{205F}' || c == '\U{3000}'
  }

  function TrimStart(s: string): (r: string)
    ensures |r| <= |s| && r == s[|s| - |r|..]
    ensures |r| > 0 ==> !IsWhitespace(r[0])
    ensures forall i :: 0 <= i < |s| - |r| ==> IsWhitespace(s[i])
  {
    if |s| > 0 && IsWhitespace(s[0]) then TrimStart(s[1..]) else s
  }

  function TrimEnd(s: string): (r: string)
    ensures |r| <= |s| && r == s[..|r|]
    ensures |r| > 0 ==> !IsWhitespace(r[|r| - 1])
    ensures forall i :: |r| <= i < |s| ==> IsWhitespace(s[i])
  {
    if |s| > 0 && IsWhitespace(s[|s| - 1]) then TrimEnd(s[..|s| - 1]) else s
  }

  /** `str::trim`: no whitespace at either end, and only whitespace was removed. */
  function Trim(s: string): string {
    TrimEnd(TrimStart(s))
  }

  lemma TrimIdempotent(s: string)
    ensures Trim(Trim(s)) == Trim(s)
  {
    var t := Trim(s);
    if |t| > 0 {
      assert TrimStart(t) == t;
      assert TrimEnd(t) == t;
    }
  }

  /** An upper bound on the lengths of the strings in a finite set. */
  ghost function MaxLength(used: set<string>): (m: nat)
    ensures forall u :: u in used ==> |u| <= m
    decreases used
  {
    if used == {} then 0
    else
      var x :| x in used;
      var rest := MaxLength(used - {x});
      if |x| > rest then |x| else rest
  }

  /** A finite set of names never exhausts the names with a given prefix. */
  lemma FreshName(used: set<string>, prefix: string)
    ensures exists t :: t !in used && StartsWith(t, prefix)
  {
    var t := prefix + seq(MaxLength(used) + 1, _ => 'x');
    assert t[..|prefix|] == prefix;
    assert t !in used;
  }
}
