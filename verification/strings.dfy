/** Rust `str` behaviour the model depends on: Unicode and ASCII whitespace,
    `trim`, UTF-8 byte lengths (`str::len`), byte-offset slicing (`&s[..k]`,
    which panics off a character boundary) and the `split` family. */
module Strings {
  import opened Outcomes

  /** `char::is_whitespace`: the Unicode White_Space property. */
  predicate IsWhitespace(c: char) {
    ('\t' <= c <= '\r') || c == ' ' || c == '\U{85}' || c == '\U{A0}' || c == '\U{1680}'
    || ('\U{2000}' <= c <= '\U{200A}') || c == '\U{2028}' || c == '\U{2029}'
    || c == '\U{202F}' || c == '\U{205F}' || c == '\U{3000}'
  }

  /** `u8::is_ascii_whitespace` (as used by `split_ascii_whitespace`); unlike
      the Unicode property it leaves out the vertical tab U+000B. */
  predicate IsAsciiWhitespace(c: char) {
    c == ' ' || c == '\t' || c == '\n' || c == '\U{C}' || c == '\r'
  }

  predicate IsAscii(s: string) {
    forall i :: 0 <= i < |s| ==> s[i] as int < 0x80
  }

  /** Length of the run of whitespace that `s` starts with. */
  function LeadingWhitespace(s: string): (k: nat)
    ensures k <= |s|
    ensures forall i :: 0 <= i < k ==> IsWhitespace(s[i])
    ensures k < |s| ==> !IsWhitespace(s[k])
  {
    if |s| > 0 && IsWhitespace(s[0]) then 1 + LeadingWhitespace(s[1..]) else 0
  }

  /** Length of the run of whitespace that `s` ends with. */
  function TrailingWhitespace(s: string): (k: nat)
    ensures k <= |s|
    ensures forall i :: |s| - k <= i < |s| ==> IsWhitespace(s[i])
    ensures k < |s| ==> !IsWhitespace(s[|s| - 1 - k])
  {
    if |s| > 0 && IsWhitespace(s[|s| - 1]) then 1 + TrailingWhitespace(s[..|s| - 1]) else 0
  }

  /** `str::trim_start`. */
  function TrimStart(s: string): string {
    s[LeadingWhitespace(s)..]
  }

  /** `str::trim_end`. */
  function TrimEnd(s: string): string {
    s[..|s| - TrailingWhitespace(s)]
  }

  /** `str::trim`. */
  function Trim(s: string): string {
    TrimEnd(TrimStart(s))
  }

  /** Only whitespace (and possibly nothing at all). */
  predicate IsBlank(s: string) {
    forall i :: 0 <= i < |s| ==> IsWhitespace(s[i])
  }

  /** `s.trim().is_empty()` holds exactly for strings made only of whitespace. */
  lemma TrimEmptyIffBlank(s: string)
    ensures Trim(s) == [] <==> IsBlank(s)
  {
    var t := TrimStart(s);
    if Trim(s) == [] {
      assert |t| == 0;
    }
  }

  /** A string with no whitespace at either end is its own trimmed form. */
  lemma TrimNoWhitespace(s: string)
    requires forall i :: 0 <= i < |s| ==> !IsWhitespace(s[i])
    ensures Trim(s) == s
  {
  }

  /** Number of bytes in the UTF-8 encoding of `c`. */
  function Utf8Width(c: char): nat {
    if c as int < 0x80 then 1
    else if c as int < 0x800 then 2
    else if c as int < 0x10000 then 3
    else 4
  }

  /** `str::len`: the UTF-8 byte length. */
  function ByteLen(s: string): nat {
    if |s| == 0 then 0 else Utf8Width(s[0]) + ByteLen(s[1..])
  }

  lemma {:induction false} AsciiByteLen(s: string)
    requires IsAscii(s)
    ensures ByteLen(s) == |s|
  {
    if |s| > 0 {
      AsciiByteLen(s[1..]);
    }
  }

  /** `(&s[..k], &s[k..])`: `None` where Rust panics because `k` is not a
      character boundary or lies past the end. */
  function SplitAtByte(s: string, k: nat): (r: Option<(string, string)>)
    ensures r.Some? ==> r.value.0 + r.value.1 == s && ByteLen(r.value.0) == k
  {
    if k == 0 then Some(([], s))
    else if |s| == 0 || Utf8Width(s[0]) > k then None
    else match SplitAtByte(s[1..], k - Utf8Width(s[0]))
      case None => None
      case Some(parts) =>
        assert s == [s[0]] + s[1..];
        Some(([s[0]] + parts.0, parts.1))
  }

  lemma {:induction false} AsciiSplitAtByte(s: string, k: nat)
    requires IsAscii(s) && k <= |s|
    ensures SplitAtByte(s, k) == Some((s[..k], s[k..]))
  {
    if k > 0 {
      AsciiSplitAtByte(s[1..], k - 1);
      assert [s[0]] + s[1..][..k - 1] == s[..k];
      assert s[1..][k - 1..] == s[k..];
    }
  }

  /** `char::to_ascii_lowercase`. */
  function AsciiLower(c: char): char {
    if 'A' <= c <= 'Z' then (c as int + 32) as char else c
  }

  function StartsWith(s: string, prefix: string): bool {
    |prefix| <= |s| && s[..|prefix|] == prefix
  }

  /** Maximal runs of characters outside `sep`, as `split_whitespace` and
      `split_ascii_whitespace` yield them; `current` is the run in progress. */
  function WordsFrom(s: string, sep: char -> bool, current: string): (words: seq<string>)
    requires forall i :: 0 <= i < |current| ==> !sep(current[i])
    ensures forall w :: w in words ==> |w| > 0 && forall i :: 0 <= i < |w| ==> !sep(w[i])
    decreases |s|
  {
    if |s| == 0 then (if |current| > 0 then [current] else [])
    else if sep(s[0]) then (if |current| > 0 then [current] else []) + WordsFrom(s[1..], sep, [])
    else WordsFrom(s[1..], sep, current + [s[0]])
  }

  /** `str::split_ascii_whitespace`. */
  function SplitAsciiWhitespace(s: string): seq<string> {
    WordsFrom(s, IsAsciiWhitespace, [])
  }

  /** `str::split_whitespace`. */
  function SplitWhitespace(s: string): seq<string> {
    WordsFrom(s, IsWhitespace, [])
  }

  /** `str::split` with a string pattern: matches are taken left to right
      without overlap; `current` is the piece in progress. */
  function SplitOnFrom(s: string, sep: string, current: string): (pieces: seq<string>)
    requires |sep| > 0
    ensures |pieces| >= 1
    decreases |s|
  {
    if |s| < |sep| then [current + s]
    else if s[..|sep|] == sep then [current] + SplitOnFrom(s[|sep|..], sep, [])
    else SplitOnFrom(s[1..], sep, current + [s[0]])
  }

  function SplitOn(s: string, sep: string): seq<string>
    requires |sep| > 0
  {
    SplitOnFrom(s, sep, [])
  }

  /** `pieces.join(sep)`. */
  function Join(pieces: seq<string>, sep: string): string {
    if |pieces| == 0 then []
    else if |pieces| == 1 then pieces[0]
    else pieces[0] + sep + Join(pieces[1..], sep)
  }

  /** Splitting loses nothing: joining the pieces with the separator gives
      back the original string. */
  lemma {:induction false} SplitOnJoin(s: string, sep: string, current: string)
    requires |sep| > 0
    ensures Join(SplitOnFrom(s, sep, current), sep) == current + s
    decreases |s|
  {
    if |s| < |sep| {
    } else if s[..|sep|] == sep {
      var rest := SplitOnFrom(s[|sep|..], sep, []);
      SplitOnJoin(s[|sep|..], sep, []);
      assert [current] + rest == SplitOnFrom(s, sep, current);
      assert ([current] + rest)[1..] == rest;
      assert s == sep + s[|sep|..];
    } else {
      SplitOnJoin(s[1..], sep, current + [s[0]]);
      assert s == [s[0]] + s[1..];
    }
  }

  /** Text free of the separator's first character holds no match, so the
      scan just carries it into the piece in progress. */
  lemma {:induction false} SplitOnWalk(w: string, rest: string, sep: string, current: string)
    requires |sep| > 0
    requires forall i :: 0 <= i < |w| ==> w[i] != sep[0]
    ensures SplitOnFrom(w + rest, sep, current) == SplitOnFrom(rest, sep, current + w)
    decreases |w|
  {
    if |w| > 0 {
      var s := w + rest;
      assert s[0] == w[0] && s[1..] == w[1..] + rest;
      assert current + [w[0]] + w[1..] == current + w;
      if |s| >= |sep| {
        assert s[..|sep|][0] == w[0];
        SplitOnWalk(w[1..], rest, sep, current + [w[0]]);
      } else {
        assert current + s == current + w + rest;
      }
    } else {
      assert w + rest == rest;
      assert current + w == current;
    }
  }

  /** Splitting at a one-character separator leaves no piece holding it. */
  lemma {:induction false} SplitPiecesFree(s: string, c: char, current: string)
    requires forall i :: 0 <= i < |current| ==> current[i] != c
    ensures forall k, i :: 0 <= k < |SplitOnFrom(s, [c], current)| && 0 <= i < |SplitOnFrom(s, [c], current)[k]| ==>
              SplitOnFrom(s, [c], current)[k][i] != c
    decreases |s|
  {
    if |s| >= 1 {
      if s[..1] == [c] {
        SplitPiecesFree(s[1..], c, []);
      } else {
        assert s[0] != c by { assert s[..1][0] == s[0]; }
        SplitPiecesFree(s[1..], c, current + [s[0]]);
      }
    }
  }

  /** Splitting words joined by a one-character separator that none of them
      contains gives back the words. */
  lemma {:induction false} SplitOnJoinedWords(ws: seq<string>, sep: string)
    requires |ws| > 0 && |sep| == 1
    requires forall k, i :: 0 <= k < |ws| && 0 <= i < |ws[k]| ==> ws[k][i] != sep[0]
    ensures SplitOn(Join(ws, sep), sep) == ws
  {
    if |ws| == 1 {
      SplitOnWalk(ws[0], [], sep, []);
      assert ws[0] + [] == ws[0] && [] + ws[0] == ws[0];
    } else {
      var tail := Join(ws[1..], sep);
      assert Join(ws, sep) == ws[0] + (sep + tail);
      SplitOnWalk(ws[0], sep + tail, sep, []);
      assert (sep + tail)[..|sep|] == sep && (sep + tail)[|sep|..] == tail;
      SplitOnJoinedWords(ws[1..], sep);
      assert [] + ws[0] == ws[0];
      assert [ws[0]] + ws[1..] == ws;
    }
  }

  /** Non-empty words without spaces, joined by single spaces, contain no
      double space. */
  lemma {:induction false} JoinedWordsUnsplit(ws: seq<string>, current: string)
    requires forall k :: 0 <= k < |ws| ==> |ws[k]| > 0 && forall i :: 0 <= i < |ws[k]| ==> ws[k][i] != ' '
    ensures SplitOnFrom(Join(ws, " "), "  ", current) == [current + Join(ws, " ")]
  {
    if |ws| == 0 {
    } else if |ws| == 1 {
      SplitOnWalk(ws[0], [], "  ", current);
      assert ws[0] + [] == ws[0];
      assert current + ws[0] + [] == current + ws[0];
    } else {
      var tail := Join(ws[1..], " ");
      calc {
        SplitOnFrom(Join(ws, " "), "  ", current);
        { assert Join(ws, " ") == ws[0] + (" " + tail); }
        SplitOnFrom(ws[0] + (" " + tail), "  ", current);
        { SplitOnWalk(ws[0], " " + tail, "  ", current); }
        SplitOnFrom(" " + tail, "  ", current + ws[0]);
        { JoinHead(ws[1..], " "); SingleSpaceStep(tail, current + ws[0]); }
        SplitOnFrom(tail, "  ", current + ws[0] + " ");
        { JoinedWordsUnsplit(ws[1..], current + ws[0] + " "); }
        [current + ws[0] + " " + tail];
        { assert current + ws[0] + " " + tail == current + Join(ws, " "); }
        [current + Join(ws, " ")];
      }
    }
  }

  /** A single space followed by a non-space is no double-space match. */
  lemma SingleSpaceStep(tail: string, current: string)
    requires |tail| > 0 && tail[0] != ' '
    ensures SplitOnFrom(" " + tail, "  ", current) == SplitOnFrom(tail, "  ", current + " ")
  {
    var s := " " + tail;
    assert s[..2][1] == tail[0];
    assert s[1..] == tail;
  }

  /** A join starts with its first word. */
  lemma JoinHead(ws: seq<string>, sep: string)
    requires |ws| > 0 && |ws[0]| > 0
    ensures |Join(ws, sep)| > 0 && Join(ws, sep)[0] == ws[0][0]
  {
  }
}
