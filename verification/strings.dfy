/** A value that may be absent: the model's stand-in for Python's `None` results and
    for parse failures signalled by `ValueError`. */
module Options {

  datatype Option<+T> = None | Some(value: T)
}

/**
 The handful of Python `str` operations the attribute table relies on, written out
 so that their edge cases are explicit: `strip()`, `split(sep)`, `sep.join(parts)`,
 `lower()` and the substring test `needle in text`.
 */
module Strings {

  /** The characters Python's `str.isspace()` accepts, which are exactly the ones
      `str.strip()` with no argument removes. */
  predicate IsSpace(c: char) {
    || c == ' '
    || '\t' <= c <= '\r'
    || '\U{1C}' <= c <= '\U{1F}'
    || c == '\U{85}' || c == '\U{A0}' || c == '\U{1680}'
    || '\U{2000}' <= c <= '\U{200A}'
    || c == '\U{2028}' || c == '\U{2029}' || c == '\U{202F}' || c == '\U{205F}'
    || c == '\U{3000}'
  }

  /** `s` is non-empty and does not start with whitespace. */
  predicate StartsWithNonSpace(s: string) {
    |s| > 0 && !IsSpace(s[0])
  }

  /** `s` is non-empty and does not end with whitespace. */
  predicate EndsWithNonSpace(s: string) {
    |s| > 0 && !IsSpace(s[|s| - 1])
  }

  /** The end of the whitespace run in `s` that starts at `i`. */
  function SpaceRunEnd(s: string, i: nat): (e: nat)
    requires i <= |s|
    ensures i <= e <= |s|
    ensures forall k :: i <= k < e ==> IsSpace(s[k])
    ensures e < |s| ==> !IsSpace(s[e])
    decreases |s| - i
  {
    if i < |s| && IsSpace(s[i]) then SpaceRunEnd(s, i + 1) else i
  }

  /** The start of the whitespace run in `s` that ends at `j`, not going below `lo`. */
  function SpaceRunStart(s: string, lo: nat, j: nat): (b: nat)
    requires lo <= j <= |s|
    ensures lo <= b <= j
    ensures forall k :: b <= k < j ==> IsSpace(s[k])
    ensures b > lo ==> !IsSpace(s[b - 1])
    decreases j
  {
    if j > lo && IsSpace(s[j - 1]) then SpaceRunStart(s, lo, j - 1) else j
  }

  /** `s.strip()`: the middle of `s` left once whitespace is removed from both ends. */
  function Strip(s: string): (r: string)
    ensures |r| <= |s|
    ensures forall c :: c in r ==> c in s
    ensures |r| > 0 ==> !IsSpace(r[0]) && !IsSpace(r[|r| - 1])
    ensures r == "" <==> forall k :: 0 <= k < |s| ==> IsSpace(s[k])
    ensures StartsWithNonSpace(s) && EndsWithNonSpace(s) ==> r == s
    ensures exists i, j ::
      && 0 <= i <= j <= |s| && r == s[i..j]
      && (forall k :: 0 <= k < i ==> IsSpace(s[k]))
      && (forall k :: j <= k < |s| ==> IsSpace(s[k]))
  {
    var i := SpaceRunEnd(s, 0);
    var j := SpaceRunStart(s, i, |s|);
    var r := s[i..j];
    assert |r| > 0 ==> r[0] == s[i] && r[|r| - 1] == s[j - 1];
    assert forall c :: c in r ==> c in s;
    r
  }

  /** `strip()` removes exactly the whitespace around a text whose own edges are not
      whitespace (or that is empty). */
  lemma StripExact(pre: string, core: string, post: string)
    requires forall k :: 0 <= k < |pre| ==> IsSpace(pre[k])
    requires forall k :: 0 <= k < |post| ==> IsSpace(post[k])
    requires |core| > 0 ==> StartsWithNonSpace(core) && EndsWithNonSpace(core)
    ensures Strip(pre + core + post) == core
  {
    var s := pre + core + post;
    if |core| == 0 {
      assert s == pre + post;
      assert forall k :: 0 <= k < |s| ==> IsSpace(s[k]);
    } else {
      var i := SpaceRunEnd(s, 0);
      var j := SpaceRunStart(s, i, |s|);
      assert Strip(s) == s[i..j];
      assert i == |pre| by {
        assert forall k :: 0 <= k < |pre| ==> IsSpace(s[k]);
        assert !IsSpace(s[|pre|]);
      }
      assert j == |pre| + |core| by {
        assert forall k :: |pre| + |core| <= k < |s| ==> IsSpace(s[k]);
        assert !IsSpace(s[|pre| + |core| - 1]);
      }
      assert s[i..j] == core;
    }
  }

  /** Whitespace around a text without edge whitespace is exactly what `strip()` removes. */
  lemma StripPadded(pre: string, core: string, post: string)
    requires forall k :: 0 <= k < |pre| ==> IsSpace(pre[k])
    requires forall k :: 0 <= k < |post| ==> IsSpace(post[k])
    requires StartsWithNonSpace(core) && EndsWithNonSpace(core)
    ensures Strip(pre + core + post) == core
  {
    StripExact(pre, core, post);
  }

  /** Stripping twice is stripping once. */
  lemma StripIdempotent(s: string)
    ensures Strip(Strip(s)) == Strip(s)
  {
    var r := Strip(s);
    StripExact("", r, "");
    assert "" + r + "" == r;
  }

  /** `sep.join(parts)`; joining no parts gives the empty string. */
  function Join(parts: seq<string>, sep: char): string {
    if |parts| == 0 then ""
    else if |parts| == 1 then parts[0]
    else parts[0] + [sep] + Join(parts[1..], sep)
  }

  /** `s.split(sep)` for a one-character separator: never empty, no piece holds the
      separator, and joining the pieces back with the separator gives `s` again. */
  function Split(s: string, sep: char): (parts: seq<string>)
    ensures |parts| >= 1
    ensures forall i :: 0 <= i < |parts| ==> sep !in parts[i]
    ensures Join(parts, sep) == s
  {
    if |s| == 0 then [""]
    else
      var rest := Split(s[1..], sep);
      if s[0] == sep then
        assert Join([""] + rest, sep) == "" + [sep] + Join(rest, sep) by {
          assert ([""] + rest)[1..] == rest;
        }
        [""] + rest
      else
        var parts := [[s[0]] + rest[0]] + rest[1..];
        assert Join(parts, sep) == [s[0]] + Join(rest, sep) by {
          if |rest| > 1 {
            assert parts[1..] == rest[1..];
          }
        }
        parts
  }

  /** Splitting a text that starts with a separator-free piece and a separator yields
      that piece first, followed by the split of the remainder. */
  lemma {:induction false} SplitAfterPiece(piece: string, rest: string, sep: char)
    requires sep !in piece
    ensures Split(piece + [sep] + rest, sep) == [piece] + Split(rest, sep)
    decreases |piece|
  {
    var s := piece + [sep] + rest;
    if |piece| == 0 {
      assert s[1..] == rest;
    } else {
      assert s[1..] == piece[1..] + [sep] + rest;
      SplitAfterPiece(piece[1..], rest, sep);
      assert [piece[0]] + piece[1..] == piece;
    }
  }

  /** A separator-free text splits into itself alone. */
  lemma {:induction false} SplitWithoutSeparator(s: string, sep: char)
    requires sep !in s
    ensures Split(s, sep) == [s]
    decreases |s|
  {
    if |s| > 0 {
      SplitWithoutSeparator(s[1..], sep);
      assert [s[0]] + s[1..] == s;
    }
  }

  /** `split` undoes `join` when no part holds the separator and there is at least one part. */
  lemma {:induction false} SplitJoin(parts: seq<string>, sep: char)
    requires |parts| >= 1
    requires forall i :: 0 <= i < |parts| ==> sep !in parts[i]
    ensures Split(Join(parts, sep), sep) == parts
    decreases |parts|
  {
    if |parts| == 1 {
      SplitWithoutSeparator(parts[0], sep);
    } else {
      SplitAfterPiece(parts[0], Join(parts[1..], sep), sep);
      SplitJoin(parts[1..], sep);
      assert [parts[0]] + parts[1..] == parts;
    }
  }

  /** The first character of a join is the first character of its first part. */
  lemma JoinStartsWithFirstPart(parts: seq<string>, sep: char)
    requires |parts| >= 1 && |parts[0]| >= 1
    ensures |Join(parts, sep)| >= 1 && Join(parts, sep)[0] == parts[0][0]
  {
  }

  /** A join ends with its last part. */
  lemma {:induction false} JoinEndsWithLastPart(parts: seq<string>, sep: char)
    requires |parts| >= 1
    ensures var j := Join(parts, sep); var last := parts[|parts| - 1];
      |j| >= |last| && j[|j| - |last|..] == last
    decreases |parts|
  {
    if |parts| > 1 {
      JoinEndsWithLastPart(parts[1..], sep);
    }
  }

  /** The last character of a join is the last character of its last part. */
  lemma JoinLastChar(parts: seq<string>, sep: char)
    requires |parts| >= 1 && |parts[|parts| - 1]| >= 1
    ensures var j := Join(parts, sep); var last := parts[|parts| - 1];
      |j| >= 1 && j[|j| - 1] == last[|last| - 1]
  {
    var j := Join(parts, sep);
    var last := parts[|parts| - 1];
    JoinEndsWithLastPart(parts, sep);
    assert j[|j| - |last|..][|last| - 1] == last[|last| - 1];
  }

  /** A join keeps the non-space edges of its first and last parts. */
  lemma JoinKeepsEdges(parts: seq<string>, sep: char)
    requires |parts| >= 1
    ensures StartsWithNonSpace(parts[0]) ==> StartsWithNonSpace(Join(parts, sep))
    ensures EndsWithNonSpace(parts[|parts| - 1]) ==> EndsWithNonSpace(Join(parts, sep))
  {
    if StartsWithNonSpace(parts[0]) {
      JoinStartsWithFirstPart(parts, sep);
    }
    if EndsWithNonSpace(parts[|parts| - 1]) {
      JoinLastChar(parts, sep);
    }
  }

  /** Python's `lower()` restricted to ASCII letters. */
  function Lower(c: char): char {
    if 'A' <= c <= 'Z' then (c as int - 'A' as int + 'a' as int) as char else c
  }

  function ToLower(s: string): (r: string)
    ensures |r| == |s|
    ensures forall k :: 0 <= k < |s| ==> r[k] == Lower(s[k])
  {
    seq(|s|, k requires 0 <= k < |s| => Lower(s[k]))
  }

  /** Python's `needle in text` for strings: `needle` occurs contiguously in `text`
      (the empty needle occurs everywhere). */
  predicate IsInfix(needle: string, text: string) {
    exists k :: 0 <= k <= |text| - |needle| && needle <= text[k..]
  }
}
