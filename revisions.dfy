/**
 * Revision handling: the `--diff base..head` option of the `assess`
 * command (index.js:202-207), the defaults of `assessDiff`
 * (lib/agent.js:74-75, index.js:75-76) and the library's three-tier base
 * resolution (lib/agent.js:73-97). The version-control service is an
 * oracle: which references verify, whether the fetch succeeds, and what
 * each diff view returns for a range.
 */
module Revisions {
  import opened Wrappers
  import opened Strings

  const DefaultBase: string := "origin/main"
  const DefaultHead: string := "HEAD"
  const DefaultRange: string := "origin/main..HEAD"

  /** Git's well-known identifier of the empty tree. */
  const EmptyTree: string := "4b825dc642cb6eb9a060e54bf8d69288fbee4904"

  /** `x || d` for a string that may be missing: a missing or empty value
      falls back to `d`. */
  function OrDefault(x: Option<string>, d: string): (r: string)
    ensures x.Some? && x.value != "" ==> r == x.value
    ensures x.None? || x.value == "" ==> r == d
    ensures d != "" ==> r != ""
  {
    if x.Some? && x.value != "" then x.value else d
  }

  /** The references handed from the command line to `assessDiff`. */
  datatype RefArgs = RefArgs(baseRef: Option<string>, headRef: Option<string>)

  /** `const [baseRef, headRef] = (options.diff || 'origin/main..HEAD').split('..')`:
      the first two parts of the split; a missing second part is undefined. */
  function ParseRange(diff: Option<string>): RefArgs {
    var parts := Split(OrDefault(diff, DefaultRange), "..");
    RefArgs(Some(parts[0]), if |parts| > 1 then Some(parts[1]) else None)
  }

  /** `head~1`, the revision before the head. */
  function ParentOf(head: string): string {
    head + "~1"
  }

  /** `resolveBase`: the requested base if it verifies, else `head~1` if
      that verifies, else the empty tree. */
  function ResolveBase(base: string, head: string, verified: set<string>): (r: string)
    ensures r in verified || r == EmptyTree
    ensures base in verified ==> r == base
    ensures base !in verified && ParentOf(head) in verified ==> r == ParentOf(head)
    ensures base !in verified && ParentOf(head) !in verified ==> r == EmptyTree
  {
    if base in verified then base
    else if ParentOf(head) in verified then ParentOf(head)
    else EmptyTree
  }

  /** A range written `a..b`, where `a` neither contains `..` nor ends in a
      dot and `b` does not contain `..`, parses back into `a` and `b`. */
  lemma ParseRangeOfPair(a: string, b: string)
    requires !Contains(a, "..") && !Contains(b, "..")
    requires a == [] || a[|a| - 1] != '.'
    ensures ParseRange(Some(a + ".." + b)) == RefArgs(Some(a), Some(b))
  {
    var s := a + ".." + b;
    assert OccursAt(s, "..", |a|) by { assert s[|a|..|a| + 2] == ".."; }
    forall j | 0 <= j < |a| ensures !OccursAt(s, "..", j) {
      if j + 2 <= |a| {
        assert s[j..j + 2] == a[j..j + 2];
        assert !OccursAt(a, "..", j);
      } else {
        assert s[j..j + 2][0] == s[j] == a[|a| - 1];
      }
    }
    FirstOccurrence(s, "..", |a|);
    assert s[|a| + 2..] == b;
    assert FindFrom(b, "..", 0).None?;
    assert s[..|a|] == a;
    assert Split(s, "..") == [a] + Split(b, "..");
    assert Split(b, "..") == [b];
  }

  /** A range without `..` is all base; the head stays undefined. */
  lemma ParseRangeWithoutSeparator(s: string)
    requires s != "" && !Contains(s, "..")
    ensures ParseRange(Some(s)) == RefArgs(Some(s), None)
  {
    assert FindFrom(s, "..", 0).None?;
  }

  /** A missing or empty `--diff` means `origin/main..HEAD`. */
  lemma ParseRangeDefault()
    ensures ParseRange(None) == RefArgs(Some(DefaultBase), Some(DefaultHead))
    ensures ParseRange(Some("")) == ParseRange(None)
  {
    assert DefaultRange == DefaultBase + ".." + DefaultHead;
    forall i | 0 <= i < |DefaultBase| ensures DefaultBase[i] != '.' { }
    forall i | 0 <= i < |DefaultHead| ensures DefaultHead[i] != '.' { }
    NoDotNoDoubleDot(DefaultBase);
    NoDotNoDoubleDot(DefaultHead);
    ParseRangeOfPair(DefaultBase, DefaultHead);
  }

  lemma NoDotNoDoubleDot(s: string)
    requires forall i :: 0 <= i < |s| ==> s[i] != '.'
    ensures !Contains(s, "..")
  {
    forall i ensures !OccursAt(s, "..", i) {
      if 0 <= i && i + 2 <= |s| { assert s[i..i + 2][0] == s[i]; }
    }
  }
}
