/**
 * The string primitives the source relies on: `startsWith`, `split`, `join`
 * and the handful of regular-expression shapes used by the categorizer
 * (a literal infix, a suffix, a segment at the start or after a `/`, and
 * the ASCII case folding of the `i` flag).
 */
module Strings {
  import opened Wrappers

  /** `p` occurs in `s` starting at index `i`. */
  predicate OccursAt(s: string, p: string, i: int) {
    0 <= i && i + |p| <= |s| && s[i..i + |p|] == p
  }

  /** The first index at or after `from` where `p` occurs in `s`: the
      left-to-right scan that `indexOf` and `split` perform. */
  function FindFrom(s: string, p: string, from: nat): (r: Option<nat>)
    decreases |s| - from
    ensures r.Some? ==> from <= r.value && OccursAt(s, p, r.value)
    ensures r.Some? ==> forall j :: from <= j < r.value ==> !OccursAt(s, p, j)
    ensures r.None? ==> forall j :: from <= j ==> !OccursAt(s, p, j)
  {
    if from + |p| > |s| then None
    else if s[from..from + |p|] == p then Some(from)
    else FindFrom(s, p, from + 1)
  }

  /** An unanchored literal match: `/p/.test(s)` for a pattern without metacharacters. */
  function Contains(s: string, p: string): (r: bool)
    ensures r <==> exists i :: OccursAt(s, p, i)
  {
    FindFrom(s, p, 0).Some?
  }

  /** A match anchored at the end: `/p$/.test(s)`. */
  predicate EndsWith(s: string, p: string) {
    |p| <= |s| && s[|s| - |p|..] == p
  }

  /** Index `i` begins a path segment: `(^|\/)` matches just before it. */
  predicate SegmentStart(s: string, i: int) {
    i == 0 || (0 < i <= |s| && s[i - 1] == '/')
  }

  function SegmentFrom(s: string, seg: string, from: nat): (r: bool)
    decreases |s| - from
    ensures r <==> exists j :: from <= j && SegmentStart(s, j) && OccursAt(s, seg, j)
  {
    if from + |seg| > |s| then false
    else (SegmentStart(s, from) && s[from..from + |seg|] == seg) || SegmentFrom(s, seg, from + 1)
  }

  /** `/(^|\/)seg/.test(s)`: `seg` occurs at the start of `s` or right after a `/`. */
  function HasSegment(s: string, seg: string): (r: bool)
    ensures r <==> exists j :: SegmentStart(s, j) && OccursAt(s, seg, j)
  {
    SegmentFrom(s, seg, 0)
  }

  function LowerChar(c: char): char {
    if 'A' <= c <= 'Z' then (c as int + 32) as char else c
  }

  /** ASCII lower-casing. A regular expression with the `i` flag (and no `u`
      flag) folds case only between ASCII letters when the pattern is ASCII,
      so matching a lower-case ASCII pattern against `Lower(s)` is exactly
      the case-insensitive match. */
  function Lower(s: string): string {
    seq(|s|, i requires 0 <= i < |s| => LowerChar(s[i]))
  }

  /** `parts.join(sep)`. */
  function Join(parts: seq<string>, sep: string): string {
    if |parts| == 0 then ""
    else if |parts| == 1 then parts[0]
    else parts[0] + sep + Join(parts[1..], sep)
  }

  /** `s.split(sep)` for a non-empty separator: cut at every occurrence found
      by a left-to-right, non-overlapping scan; always at least one part. */
  function Split(s: string, sep: string): (parts: seq<string>)
    requires |sep| > 0
    ensures |parts| >= 1
    decreases |s|
  {
    match FindFrom(s, sep, 0)
    case None => [s]
    case Some(k) => [s[..k]] + Split(s[k + |sep|..], sep)
  }

  /** The first occurrence is the one `FindFrom` reports. */
  lemma FirstOccurrence(s: string, p: string, m: nat)
    requires OccursAt(s, p, m)
    requires forall j :: 0 <= j < m ==> !OccursAt(s, p, j)
    ensures FindFrom(s, p, 0) == Some(m)
  {
    var r := FindFrom(s, p, 0);
    assert r.Some?;
  }

  /** Joining the parts of a split with the same separator gives back the text. */
  lemma {:induction false} SplitJoin(s: string, sep: string)
    requires |sep| > 0
    ensures Join(Split(s, sep), sep) == s
    decreases |s|
  {
    var found := FindFrom(s, sep, 0);
    if found.Some? {
      var k := found.value;
      var rest := s[k + |sep|..];
      var tail := Split(rest, sep);
      SplitJoin(rest, sep);
      var parts := [s[..k]] + tail;
      assert Split(s, sep) == parts;
      assert parts[1..] == tail;
      calc {
        Join(parts, sep);
        s[..k] + sep + Join(tail, sep);
        s[..k] + sep + rest;
        { assert s[k..k + |sep|] == sep; }
        s;
      }
    }
  }

  /** No part of a split contains the separator. */
  lemma {:induction false} SplitPartsFree(s: string, sep: string)
    requires |sep| > 0
    ensures forall part :: part in Split(s, sep) ==> !Contains(part, sep)
    decreases |s|
  {
    match FindFrom(s, sep, 0)
    case None =>
      forall i | OccursAt(s, sep, i) ensures false { }
    case Some(k) =>
      var rest := s[k + |sep|..];
      SplitPartsFree(rest, sep);
      var head := s[..k];
      forall i | OccursAt(head, sep, i) ensures false {
        assert s[i..i + |sep|] == head[i..i + |sep|];
        assert OccursAt(s, sep, i);
      }
      assert Split(s, sep) == [head] + Split(rest, sep);
  }

  /** Splitting text made by joining separator-free parts on a one-character
      separator gives back exactly those parts. */
  lemma {:induction false} JoinSplit(parts: seq<string>, c: char)
    requires |parts| >= 1
    requires forall i :: 0 <= i < |parts| ==> c !in parts[i]
    ensures Split(Join(parts, [c]), [c]) == parts
  {
    var s := Join(parts, [c]);
    if |parts| == 1 {
      forall i | 0 <= i < |s| ensures s[i] != c { }
      forall i ensures !OccursAt(s, [c], i) {
        if 0 <= i < |s| { assert s[i..i + 1][0] == s[i]; }
      }
    } else {
      var rest := Join(parts[1..], [c]);
      JoinSplit(parts[1..], c);
      var k := |parts[0]|;
      assert s == parts[0] + [c] + rest;
      assert OccursAt(s, [c], k);
      forall j | 0 <= j < k ensures !OccursAt(s, [c], j) {
        assert s[j] == parts[0][j];
      }
      FirstOccurrence(s, [c], k);
      assert s[k + 1..] == rest;
      assert s[..k] == parts[0];
      assert parts == [parts[0]] + parts[1..];
    }
  }
}
