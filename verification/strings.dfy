/**
 The few pieces of the .NET string library the emulator manager relies on,
 written out over `seq<char>`: `Char.IsWhiteSpace`, `String.Trim`,
 `String.StartsWith`, `String.Split` (separator kept as a string, empty
 entries kept) and the ASCII case folding `Boolean.Parse` uses.
 */
module Strings {

  /** `Char.IsWhiteSpace`: U+0009..U+000D, U+0085 and the Unicode categories
      Zs, Zl and Zp. */
  predicate IsWhiteSpace(c: char): (ws: bool)
    ensures ws ==> c != ':' && c != '\0'
    ensures ws ==> !('A' <= c <= 'Z') && !('a' <= c <= 'z')
  {
    var n := c as int;
    || (0x09 <= n <= 0x0D)
    || n == 0x20 || n == 0x85 || n == 0xA0 || n == 0x1680
    || (0x2000 <= n <= 0x200A)
    || n == 0x2028 || n == 0x2029 || n == 0x202F || n == 0x205F || n == 0x3000
  }

  /** What `Boolean.Parse` strips before comparing: white space and NUL. */
  predicate IsWhiteSpaceOrNull(c: char) {
    IsWhiteSpace(c) || c == '\0'
  }

  predicate AllDropped(s: string, drop: char -> bool) {
    forall i :: 0 <= i < |s| ==> drop(s[i])
  }

  /** A string that `Trim` leaves alone: empty, or neither end is dropped. */
  predicate Untrimmable(s: string, drop: char -> bool) {
    s == [] || (!drop(s[0]) && !drop(s[|s| - 1]))
  }

  /** Ordinal `String.StartsWith`. */
  predicate StartsWith(s: string, prefix: string): (b: bool)
    ensures b <==> |prefix| <= |s| && s == prefix + s[|prefix|..]
  {
    |prefix| <= |s| && s[..|prefix|] == prefix
  }

  /** Removes the leading characters `drop` selects. */
  function TrimStart(s: string, drop: char -> bool): (r: string)
    ensures |r| <= |s| && r == s[|s| - |r|..]
    ensures AllDropped(s[..|s| - |r|], drop)
    ensures r == [] || !drop(r[0])
    decreases |s|
  {
    if |s| > 0 && drop(s[0]) then
      var r := TrimStart(s[1..], drop);
      assert s[..|s| - |r|] == [s[0]] + s[1..][..|s| - 1 - |r|];
      r
    else s
  }

  /** Removes the trailing characters `drop` selects. */
  function TrimEnd(s: string, drop: char -> bool): (r: string)
    ensures |r| <= |s| && r == s[..|r|]
    ensures AllDropped(s[|r|..], drop)
    ensures r == [] || !drop(r[|r| - 1])
    decreases |s|
  {
    if |s| > 0 && drop(s[|s| - 1]) then
      var t := s[..|s| - 1];
      var r := TrimEnd(t, drop);
      assert s[..|r|] == t[..|r|];
      assert s[|r|..] == t[|r|..] + [s[|s| - 1]];
      r
    else s
  }

  /** `String.Trim()` when `drop` is `IsWhiteSpace`. */
  function Trim(s: string, drop: char -> bool): (r: string)
    ensures Untrimmable(r, drop)
  {
    var left := TrimStart(s, drop);
    var r := TrimEnd(left, drop);
    assert r != [] ==> r[0] == left[0];
    r
  }

  /** `Trim` cuts out an infix: the text is the result with dropped
      characters around it, `i` of them in front. */
  lemma TrimRemovesPadding(s: string, drop: char -> bool) returns (i: nat)
    ensures i + |Trim(s, drop)| <= |s|
    ensures s[i..i + |Trim(s, drop)|] == Trim(s, drop)
    ensures AllDropped(s[..i], drop) && AllDropped(s[i + |Trim(s, drop)|..], drop)
  {
    var left := TrimStart(s, drop);
    var r := Trim(s, drop);
    i := |s| - |left|;
    assert r == left[..|r|];
    assert s[i..i + |r|] == left[..|r|];
    assert s[i + |r|..] == left[|r|..];
  }

  /** Trimming only removes characters. */
  lemma TrimKeepsInputChars(s: string, drop: char -> bool, c: char)
    requires c in Trim(s, drop)
    ensures c in s
  {
    var left := TrimStart(s, drop);
    var r := Trim(s, drop);
    var i :| 0 <= i < |r| && r[i] == c;
    assert r[i] == left[i];
    assert left[i] == s[|s| - |left| + i];
  }

  lemma {:induction false} TrimStartOfPadded(a: string, t: string, drop: char -> bool)
    requires AllDropped(a, drop)
    requires t == [] || !drop(t[0])
    ensures TrimStart(a + t, drop) == t
    decreases |a|
  {
    if a == [] {
      assert a + t == t;
    } else {
      assert (a + t)[1..] == a[1..] + t;
      TrimStartOfPadded(a[1..], t, drop);
    }
  }

  lemma {:induction false} TrimEndOfPadded(t: string, b: string, drop: char -> bool)
    requires AllDropped(b, drop)
    requires t == [] || !drop(t[|t| - 1])
    ensures TrimEnd(t + b, drop) == t
    decreases |b|
  {
    if b == [] {
      assert t + b == t;
    } else {
      var b' := b[..|b| - 1];
      assert (t + b)[..|t + b| - 1] == t + b';
      TrimEndOfPadded(t, b', drop);
    }
  }

  /** `Trim` is determined by its result: whatever is padded with dropped
      characters on both sides trims back to itself. */
  lemma TrimOfPadded(a: string, m: string, b: string, drop: char -> bool)
    requires AllDropped(a, drop) && AllDropped(b, drop)
    requires Untrimmable(m, drop)
    ensures Trim(a + m + b, drop) == m
  {
    if m == [] {
      assert a + m + b == a + b;
      assert AllDropped(a + b, drop);
      TrimStartOfPadded(a + b, [], drop);
      assert a + b + [] == a + b;
    } else {
      assert a + m + b == a + (m + b);
      TrimStartOfPadded(a, m + b, drop);
      TrimEndOfPadded(m, b, drop);
    }
  }

  lemma TrimIdempotent(s: string, drop: char -> bool)
    ensures Trim(Trim(s, drop), drop) == Trim(s, drop)
  {
    var t := Trim(s, drop);
    TrimOfPadded([], t, [], drop);
    assert [] + t + [] == t;
  }

  /** `String.Split(separator)` with no options: every occurrence of `sep`,
      scanned left to right without overlap, ends a piece; empty pieces are
      kept. */
  function Split(s: string, sep: string): (r: seq<string>)
    requires |sep| > 0
    ensures |r| >= 1
    decreases |s|
  {
    if |s| == 0 then [""]
    else if StartsWith(s, sep) then [""] + Split(s[|sep|..], sep)
    else
      var rest := Split(s[1..], sep);
      [[s[0]] + rest[0]] + rest[1..]
  }

  /** No piece contains a one-character separator. */
  lemma {:induction false} SplitPiecesAvoidSeparator(s: string, c: char)
    ensures forall i :: 0 <= i < |Split(s, [c])| ==> c !in Split(s, [c])[i]
    decreases |s|
  {
    if |s| > 0 {
      SplitPiecesAvoidSeparator(s[1..], c);
      if !StartsWith(s, [c]) {
        assert s[0] != c;
      }
    }
  }

  /** `sep` occurs in `t` starting at index `k`. */
  predicate OccursAt(t: string, sep: string, k: int) {
    0 <= k && k + |sep| <= |t| && t[k..k + |sep|] == sep
  }

  /** The first piece is a prefix of the text. */
  lemma {:induction false} FirstPieceIsPrefix(s: string, sep: string)
    requires |sep| > 0
    ensures var first := Split(s, sep)[0]; |first| <= |s| && first == s[..|first|]
    decreases |s|
  {
    if |s| > 0 && !StartsWith(s, sep) {
      SplitAtOtherChar(s, sep);
      FirstPieceIsPrefix(s[1..], sep);
      var first := Split(s[1..], sep)[0];
      assert [s[0]] + first == s[..1 + |first|];
    }
  }

  /** No piece contains the separator anywhere, whatever its length: in
      particular no line cut at "\r\n" still holds a "\r\n". */
  lemma {:induction false} SplitPiecesHoldNoSeparator(s: string, sep: string)
    requires |sep| > 0
    ensures forall i, k :: 0 <= i < |Split(s, sep)| ==> !OccursAt(Split(s, sep)[i], sep, k)
    decreases |s|
  {
    if |s| > 0 {
      if StartsWith(s, sep) {
        SplitAtSeparator(s, sep);
        SplitPiecesHoldNoSeparator(s[|sep|..], sep);
        var rest := Split(s[|sep|..], sep);
        forall i, k | 0 <= i < |Split(s, sep)|
          ensures !OccursAt(Split(s, sep)[i], sep, k)
        {
          if i > 0 {
            assert Split(s, sep)[i] == rest[i - 1];
          }
        }
      } else {
        SplitAtOtherChar(s, sep);
        SplitPiecesHoldNoSeparator(s[1..], sep);
        FirstPieceIsPrefix(s[1..], sep);
        var rest := Split(s[1..], sep);
        var first := [s[0]] + rest[0];
        forall i, k | 0 <= i < |Split(s, sep)|
          ensures !OccursAt(Split(s, sep)[i], sep, k)
        {
          if i > 0 {
            assert Split(s, sep)[i] == rest[i];
          } else if k > 0 {
            assert !OccursAt(rest[0], sep, k - 1);
            assert first[1..] == rest[0];
          } else {
            assert first == s[..|first|];
          }
        }
      }
    }
  }

  /** `String.Join(sep, parts)`. */
  function Join(parts: seq<string>, sep: string): string
    requires |parts| >= 1
    decreases |parts|
  {
    if |parts| == 1 then parts[0] else parts[0] + sep + Join(parts[1..], sep)
  }

  lemma JoinCons(c: char, parts: seq<string>, sep: string)
    requires |parts| >= 1
    ensures Join([[c] + parts[0]] + parts[1..], sep) == [c] + Join(parts, sep)
  {
    var q := [[c] + parts[0]] + parts[1..];
    assert q[1..] == parts[1..];
  }

  lemma SplitAtSeparator(s: string, sep: string)
    requires |sep| > 0 && |s| > 0 && StartsWith(s, sep)
    ensures Split(s, sep) == [""] + Split(s[|sep|..], sep)
  {
  }

  lemma SplitAtOtherChar(s: string, sep: string)
    requires |sep| > 0 && |s| > 0 && !StartsWith(s, sep)
    ensures var rest := Split(s[1..], sep); Split(s, sep) == [[s[0]] + rest[0]] + rest[1..]
  {
  }

  /** Joining the pieces with the separator gives back the text. */
  lemma {:induction false} JoinSplit(s: string, sep: string)
    requires |sep| > 0
    ensures Join(Split(s, sep), sep) == s
    decreases |s|
  {
    if |s| == 0 {
    } else if StartsWith(s, sep) {
      var rest := Split(s[|sep|..], sep);
      SplitAtSeparator(s, sep);
      JoinSplit(s[|sep|..], sep);
      var parts := [""] + rest;
      assert parts[1..] == rest;
      assert Join(parts, sep) == "" + sep + Join(rest, sep);
      assert s == sep + s[|sep|..];
    } else {
      var rest := Split(s[1..], sep);
      SplitAtOtherChar(s, sep);
      JoinSplit(s[1..], sep);
      JoinCons(s[0], rest, sep);
      assert s == [s[0]] + s[1..];
    }
  }

  /** A separator none of whose proper suffixes is also a prefix, such as
      "\r\n" or any single character: an occurrence can never start inside
      the text before it. */
  predicate NoSelfOverlap(sep: string) {
    forall k :: 0 < k < |sep| ==> sep[k..] != sep[..|sep| - k]
  }

  lemma NoMatchAcrossBoundary(a: string, sep: string, b: string)
    requires |sep| > 0 && NoSelfOverlap(sep)
    requires |a| > 0 && !StartsWith(a, sep)
    ensures !StartsWith(a + sep + b, sep)
  {
    var s := a + sep + b;
    if |a| >= |sep| {
      assert s[..|sep|] == a[..|sep|];
    } else {
      var k := |a|;
      assert sep[k..] != sep[..|sep| - k];
      assert s[..|sep|] == a + sep[..|sep| - k];
      assert s[..|sep|][k..] == sep[..|sep| - k];
    }
  }

  /** Splitting text joined by one separator splits each side separately. */
  lemma {:induction false} SplitConcat(a: string, sep: string, b: string)
    requires |sep| > 0 && NoSelfOverlap(sep)
    ensures Split(a + sep + b, sep) == Split(a, sep) + Split(b, sep)
    decreases |a|
  {
    var s := a + sep + b;
    if |a| == 0 {
      assert s == sep + b;
      assert s[..|sep|] == sep && s[|sep|..] == b;
      SplitAtSeparator(s, sep);
    } else if StartsWith(a, sep) {
      SplitConcatAtSeparator(a, sep, b);
    } else {
      SplitConcatAtOtherChar(a, sep, b);
    }
  }

  lemma {:induction false} SplitConcatAtSeparator(a: string, sep: string, b: string)
    requires |sep| > 0 && NoSelfOverlap(sep)
    requires |a| > 0 && StartsWith(a, sep)
    ensures Split(a + sep + b, sep) == Split(a, sep) + Split(b, sep)
    decreases |a|, 0
  {
    var s := a + sep + b;
    var a' := a[|sep|..];
    assert s[..|sep|] == a[..|sep|];
    assert s[|sep|..] == a' + sep + b;
    SplitAtSeparator(s, sep);
    SplitAtSeparator(a, sep);
    SplitConcat(a', sep, b);
    assert [""] + (Split(a', sep) + Split(b, sep)) == ([""] + Split(a', sep)) + Split(b, sep);
  }

  lemma {:induction false} SplitConcatAtOtherChar(a: string, sep: string, b: string)
    requires |sep| > 0 && NoSelfOverlap(sep)
    requires |a| > 0 && !StartsWith(a, sep)
    ensures Split(a + sep + b, sep) == Split(a, sep) + Split(b, sep)
    decreases |a|, 0
  {
    var s := a + sep + b;
    NoMatchAcrossBoundary(a, sep, b);
    assert s[1..] == a[1..] + sep + b;
    SplitAtOtherChar(s, sep);
    SplitAtOtherChar(a, sep);
    SplitConcat(a[1..], sep, b);
    assert s[0] == a[0];
    PrependToFirstPiece(a[0], Split(a[1..], sep), Split(b, sep));
  }

  lemma PrependToFirstPiece(c: char, r: seq<string>, q: seq<string>)
    requires |r| >= 1
    ensures [[c] + (r + q)[0]] + (r + q)[1..] == ([[c] + r[0]] + r[1..]) + q
  {
    assert (r + q)[0] == r[0];
    assert (r + q)[1..] == r[1..] + q;
  }

  /** Text in which the separator's first character never occurs is a
      single piece. */
  lemma {:induction false} SplitWithoutSeparator(s: string, sep: string)
    requires |sep| > 0 && sep[0] !in s
    ensures Split(s, sep) == [s]
    decreases |s|
  {
    if |s| > 0 {
      assert s[0] in s;
      assert forall c :: c in s[1..] ==> c in s;
      SplitWithoutSeparator(s[1..], sep);
      assert s == [s[0]] + s[1..];
    }
  }

  /** The other round trip: pieces free of a one-character separator come
      back unchanged from splitting their join. */
  lemma {:induction false} SplitJoin(parts: seq<string>, sep: string)
    requires |sep| == 1 && |parts| >= 1
    requires forall i :: 0 <= i < |parts| ==> sep[0] !in parts[i]
    ensures Split(Join(parts, sep), sep) == parts
    decreases |parts|
  {
    SplitWithoutSeparator(parts[0], sep);
    if |parts| > 1 {
      SplitJoin(parts[1..], sep);
      SplitConcat(parts[0], sep, Join(parts[1..], sep));
      assert parts == [parts[0]] + parts[1..];
    }
  }

  /** A character found in neither the pieces nor the separator is not in
      their join. */
  lemma {:induction false} JoinAvoids(parts: seq<string>, sep: string, c: char)
    requires |parts| >= 1 && c !in sep
    requires forall i :: 0 <= i < |parts| ==> c !in parts[i]
    ensures c !in Join(parts, sep)
    decreases |parts|
  {
    if |parts| > 1 {
      JoinAvoids(parts[1..], sep, c);
    }
  }

  /** Two or more pieces joined put the separator into the text. */
  lemma JoinShowsSeparator(parts: seq<string>, c: char)
    requires |parts| >= 2
    ensures c in Join(parts, [c])
  {
    var j := Join(parts, [c]);
    assert j == parts[0] + [c] + Join(parts[1..], [c]);
    assert j[|parts[0]|] == c;
  }

  /** LINQ `Last()`. */
  function LastPiece(parts: seq<string>): (last: string)
    requires |parts| >= 1
    ensures last in parts
  {
    parts[|parts| - 1]
  }

  /** `Last()` is the piece appended last, whatever came before it. */
  lemma LastPieceOfAppend(parts: seq<string>, t: string)
    ensures LastPiece(parts + [t]) == t
  {
  }

  /** The last piece is the text after the final occurrence of a
      one-character separator. */
  lemma LastPieceAfterFinalSeparator(p: string, c: char, t: string)
    requires c !in t
    ensures LastPiece(Split(p + [c] + t, [c])) == t
  {
    SplitConcat(p, [c], t);
    SplitWithoutSeparator(t, [c]);
  }

  function AsciiLower(c: char): char {
    if 'A' <= c <= 'Z' then (c as int + 32) as char else c
  }

  /** Ordinal comparison that ignores the case of ASCII letters only. */
  predicate EqualsIgnoreAsciiCase(a: string, b: string) {
    |a| == |b| && forall i :: 0 <= i < |a| ==> AsciiLower(a[i]) == AsciiLower(b[i])
  }
}
