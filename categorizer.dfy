/**
 * The change categorizer: the name-only diff text is cut into lines, empty
 * lines are dropped, and the remaining paths are filtered into six buckets
 * by fixed path predicates (lib/agent.js:103-120, index.js:81-98). The two
 * copies differ only in the config pattern, where the command-line copy
 * also recognises `go.mod`.
 */
module Categorizer {
  import opened Strings

  /** Which copy of the logic runs: the exported library or the CLI entry point. */
  datatype Variant = Library | Cli

  /** `xs.filter(keep)`: the elements that satisfy `keep`, in their order. */
  function Filter(xs: seq<string>, keep: string -> bool): (r: seq<string>)
    ensures |r| <= |xs|
    ensures forall x :: x in r <==> x in xs && keep(x)
  {
    if xs == [] then []
    else Filter(xs[..|xs| - 1], keep) + (if keep(xs[|xs| - 1]) then [xs[|xs| - 1]] else [])
  }

  /** The positions of `xs` whose element satisfies `keep`, in increasing order. */
  ghost function Hits(xs: seq<string>, keep: string -> bool): seq<nat> {
    if xs == [] then []
    else Hits(xs[..|xs| - 1], keep) + (if keep(xs[|xs| - 1]) then [|xs| - 1] else [])
  }

  /** The positions `Hits` are strictly increasing and are exactly the
      positions whose element satisfies `keep`. */
  lemma {:induction false} HitsAreTheSatisfyingPositions(xs: seq<string>, keep: string -> bool)
    ensures forall k :: 0 <= k < |Hits(xs, keep)| ==> Hits(xs, keep)[k] < |xs|
    ensures forall k, l :: 0 <= k < l < |Hits(xs, keep)| ==> Hits(xs, keep)[k] < Hits(xs, keep)[l]
    ensures forall i :: 0 <= i < |xs| ==> (keep(xs[i]) <==> i in Hits(xs, keep))
  {
    if xs != [] {
      var n := |xs| - 1;
      var init := xs[..n];
      HitsAreTheSatisfyingPositions(init, keep);
      var h0 := Hits(init, keep);
      var h := Hits(xs, keep);
      assert h == h0 + (if keep(xs[n]) then [n] else []);
      forall i | 0 <= i < n ensures xs[i] == init[i] && (i in h <==> i in h0) { }
      assert n !in h0;
    }
  }

  /** Filtering keeps exactly the satisfying elements and keeps them in
      order: the result is the subsequence of `xs` at the positions `Hits`. */
  lemma {:induction false} FilterIsOrderedSubsequence(xs: seq<string>, keep: string -> bool)
    ensures |Filter(xs, keep)| == |Hits(xs, keep)|
    ensures forall k :: 0 <= k < |Hits(xs, keep)| ==>
              Hits(xs, keep)[k] < |xs| && Filter(xs, keep)[k] == xs[Hits(xs, keep)[k]]
  {
    HitsAreTheSatisfyingPositions(xs, keep);
    if xs != [] {
      var n := |xs| - 1;
      var init := xs[..n];
      FilterIsOrderedSubsequence(init, keep);
      var h0, r0 := Hits(init, keep), Filter(init, keep);
      var h, r := Hits(xs, keep), Filter(xs, keep);
      HitsAreTheSatisfyingPositions(init, keep);
      if keep(xs[n]) {
        assert h == h0 + [n] && r == r0 + [xs[n]];
      } else {
        assert h == h0 && r == r0;
      }
      forall k | 0 <= k < |h0| ensures r[k] == xs[h[k]] {
        assert r[k] == r0[k] && h[k] == h0[k];
        assert init[h0[k]] == xs[h0[k]];
      }
    }
  }

  predicate IsNonEmpty(line: string) {
    line != ""
  }

  /** `changedFiles.split('\n').filter(Boolean)`. */
  function ChangedFiles(nameOnly: string): seq<string> {
    Filter(Split(nameOnly, "\n"), IsNonEmpty)
  }

  /** Every changed file is a non-empty line of the name-only text: it holds
      no line break, and in order the files are exactly the non-empty
      lines. */
  lemma ChangedFilesAreLines(nameOnly: string)
    ensures forall f :: f in ChangedFiles(nameOnly) ==> f != "" && '\n' !in f
    ensures forall f :: f in Split(nameOnly, "\n") ==> (f in ChangedFiles(nameOnly) <==> f != "")
  {
    SplitPartsFree(nameOnly, "\n");
    forall f | f in ChangedFiles(nameOnly) ensures '\n' !in f {
      if '\n' in f {
        var i :| 0 <= i < |f| && f[i] == '\n';
        assert f[i..i + 1] == "\n";
        assert OccursAt(f, "\n", i);
      }
    }
  }

  // The six bucket predicates, one per regular expression of the source.

  /** `f.startsWith('src/') || f.startsWith('app/') || f.startsWith('lib/')` */
  predicate IsSource(f: string) {
    "src/" <= f || "app/" <= f || "lib/" <= f
  }

  /** `/(^|\/)tests?\//.test(f) || /\.(spec|test)\./.test(f)` */
  predicate IsTest(f: string) {
    HasSegment(f, "test/") || HasSegment(f, "tests/") || Contains(f, ".spec.") || Contains(f, ".test.")
  }

  /** `/(^|\/)(openapi|proto|contracts)\//.test(f)` */
  predicate IsContract(f: string) {
    HasSegment(f, "openapi/") || HasSegment(f, "proto/") || HasSegment(f, "contracts/")
  }

  /** The alternatives of the library's config expression, lower-cased
      (`docker-compose\.ya?ml` gives two of them). */
  const LibraryConfigPatterns: seq<string> :=
    ["package.json", "pyproject.toml", "pom.xml", "dockerfile",
     "docker-compose.yml", "docker-compose.yaml", ".github/workflows/"]

  /** The command-line copy's alternatives: `go.mod` after `pom.xml`. */
  const CliConfigPatterns: seq<string> :=
    ["package.json", "pyproject.toml", "pom.xml", "go.mod", "dockerfile",
     "docker-compose.yml", "docker-compose.yaml", ".github/workflows/"]

  /** An unanchored case-insensitive alternation of literal patterns. */
  predicate MatchesAnyIgnoringCase(f: string, patterns: seq<string>) {
    exists p :: p in patterns && Contains(Lower(f), p)
  }

  predicate IsLibraryConfig(f: string) {
    MatchesAnyIgnoringCase(f, LibraryConfigPatterns)
  }

  predicate IsCliConfig(f: string) {
    MatchesAnyIgnoringCase(f, CliConfigPatterns)
  }

  /** `/(^|\/)migrations?\//i.test(f)` */
  predicate IsMigration(f: string) {
    HasSegment(Lower(f), "migration/") || HasSegment(Lower(f), "migrations/")
  }

  /** `/(^|\/)test-specs\//.test(f) || /\.(feature|csv|xml|json)$/i.test(f)` */
  predicate IsSpec(f: string) {
    HasSegment(f, "test-specs/")
    || EndsWith(Lower(f), ".feature") || EndsWith(Lower(f), ".csv")
    || EndsWith(Lower(f), ".xml") || EndsWith(Lower(f), ".json")
  }

  function ConfigRule(v: Variant): string -> bool {
    if v == Library then IsLibraryConfig else IsCliConfig
  }

  /** The bucket set: one ordered list of paths per category. */
  datatype Buckets = Buckets(
    source: seq<string>,
    tests: seq<string>,
    contracts: seq<string>,
    config: seq<string>,
    migrations: seq<string>,
    specs: seq<string>)

  /** The `buckets` object of `assessDiff`: every bucket filters the whole
      list independently, so buckets may overlap. */
  function Categorize(v: Variant, files: seq<string>): Buckets {
    Buckets(
      Filter(files, IsSource),
      Filter(files, IsTest),
      Filter(files, IsContract),
      Filter(files, ConfigRule(v)),
      Filter(files, IsMigration),
      Filter(files, IsSpec))
  }

  /** The command-line copy accepts exactly what the library accepts, plus
      any path containing `go.mod` in any letter case. */
  lemma CliConfigAddsGoMod(f: string)
    ensures IsCliConfig(f) <==> IsLibraryConfig(f) || Contains(Lower(f), "go.mod")
  {
    if IsCliConfig(f) {
      var p :| p in CliConfigPatterns && Contains(Lower(f), p);
      if p != "go.mod" {
        assert p in LibraryConfigPatterns;
      }
    }
    if IsLibraryConfig(f) {
      var p :| p in LibraryConfigPatterns && Contains(Lower(f), p);
      assert p in CliConfigPatterns;
    }
    if Contains(Lower(f), "go.mod") {
      assert "go.mod" in CliConfigPatterns;
    }
  }

  /** Outside the config bucket the two copies categorise identically. */
  lemma VariantsDifferOnlyInConfig(files: seq<string>)
    ensures Categorize(Cli, files) == Categorize(Library, files).(config := Filter(files, IsCliConfig))
    ensures forall f :: f in Categorize(Cli, files).config <==>
              f in files && (IsLibraryConfig(f) || Contains(Lower(f), "go.mod"))
  {
    forall f | f in files ensures IsCliConfig(f) <==> IsLibraryConfig(f) || Contains(Lower(f), "go.mod") {
      CliConfigAddsGoMod(f);
    }
  }
}
