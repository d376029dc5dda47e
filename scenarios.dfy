/**
 * The examples of the repository's unit tests, stated about the model:
 * the `formatList` cases and the six-path categorisation case of
 * test/unit/utils.test.js, whose `categorizeFiles` helper repeats the
 * library's regular expressions.
 */
module Scenarios {
  import opened Wrappers
  import opened Strings
  import opened Categorizer
  import opened Report
  import opened FileSystem
  import opened Persistence

  /** `p` cannot occur in `s` when one of its characters is missing from `s`. */
  lemma AbsentChar(s: string, p: string, k: nat)
    requires k < |p| && p[k] !in s
    ensures !Contains(s, p) && !HasSegment(s, p) && !EndsWith(s, p)
  {
    forall i ensures !OccursAt(s, p, i) {
      if 0 <= i && i + |p| <= |s| {
        assert s[i..i + |p|][k] == s[i + k];
      }
    }
    if |p| <= |s| {
      assert s[|s| - |p|..][k] == s[|s| - |p| + k];
    }
  }

  /** A differing character rules out an occurrence at `i`. */
  lemma Mismatch(s: string, p: string, i: int, k: nat)
    requires k < |p| && 0 <= i && i + k < |s| && s[i + k] != p[k]
    ensures !OccursAt(s, p, i)
  {
    if i + |p| <= |s| {
      assert s[i..i + |p|][k] == s[i + k];
    }
  }

  /** A path without upper-case letters is its own lower-case form. */
  lemma LowerIdentity(s: string)
    requires forall i :: 0 <= i < |s| ==> !('A' <= s[i] <= 'Z')
    ensures Lower(s) == s
  {
  }

  /** `formatList` on the test suite's empty cases: an empty or missing
      list renders as `none`. */
  lemma FormatListEmptyExamples()
    ensures FormatList("Source", Some([])) == "- Source: none"
    ensures FormatList("Tests", None) == "- Tests: none"
  {
  }

  /** A two-item list renders as the title line and the two bullets. */
  lemma FormatListPair(title: string, x: string, y: string)
    ensures FormatList(title, Some([x, y])) == "- " + title + ":\n" + Bullet(x) + "\n" + Bullet(y)
  {
    var b := Bullets([x, y]);
    assert b == [Bullet(x), Bullet(y)];
    assert b[1..] == [Bullet(y)];
    assert Join(b, "\n") == Bullet(x) + "\n" + Bullet(y);
  }

  /** `formatList` with two items: one indented bullet per item, in order. */
  lemma FormatListTwoItems()
    ensures FormatList("Source", Some(["file1.js", "file2.js"])) == "- Source:\n  - file1.js\n  - file2.js"
  {
    FormatListPair("Source", "file1.js", "file2.js");
    assert Bullet("file1.js") == "  - file1.js" && Bullet("file2.js") == "  - file2.js";
    assert "- " + "Source" + ":\n" == "- Source:\n";
  }

  /** `formatList` with a single item. */
  lemma FormatListOneItem()
    ensures FormatList("Config", Some(["package.json"])) == "- Config:\n  - package.json"
  {
    var b := Bullets(["package.json"]);
    assert b == [Bullet("package.json")];
  }

  // Generic facts for ruling a pattern out on a concrete path.

  /** The only `.` of `f` is at index `d`. */
  predicate OneDot(f: string, d: nat) {
    forall i :: 0 <= i < |f| && f[i] == '.' ==> i == d
  }

  /** Every `/` of `f` is at one of the indices `slashes`. */
  predicate SlashesAt(f: string, slashes: seq<nat>) {
    forall j :: 0 <= j < |f| && f[j] == '/' ==> j in slashes
  }

  /** No character of `f` lower-cases to one of `cs`. */
  predicate LacksFolded(f: string, cs: string) {
    forall i :: 0 <= i < |f| ==> LowerChar(f[i]) !in cs
  }

  /** A character of `cs` occurs neither in `Lower(f)` nor, when it is not
      an upper-case letter, in `f`. */
  lemma FoldedAbsent(f: string, cs: string, c: char)
    requires LacksFolded(f, cs) && c in cs && !('A' <= c <= 'Z')
    ensures c !in Lower(f) && c !in f
  {
    forall i | 0 <= i < |f| ensures Lower(f)[i] != c && f[i] != c {
      if f[i] == c {
        assert LowerChar(f[i]) == c;
      }
    }
  }

  /** A pattern holding a character that `s` lacks occurs nowhere in `s`. */
  lemma Lacks(s: string, p: string, c: char)
    requires c in p && c !in s
    ensures !Contains(s, p) && !HasSegment(s, p) && !EndsWith(s, p)
  {
    var k :| 0 <= k < |p| && p[k] == c;
    AbsentChar(s, p, k);
  }

  /** `p` is not a segment of `f` when it mismatches at offset `k0` at the
      start and its first character differs from what follows each `/`. */
  lemma NoSegmentBy(f: string, p: string, slashes: seq<nat>, k0: nat)
    requires |p| > 0 && k0 < |p| && SlashesAt(f, slashes)
    requires k0 < |f| ==> f[k0] != p[k0]
    requires forall i :: 0 <= i < |slashes| && slashes[i] + 1 < |f| ==> f[slashes[i] + 1] != p[0]
    ensures !HasSegment(f, p)
  {
    forall j | SegmentStart(f, j) ensures !OccursAt(f, p, j) {
      if j == 0 {
        if k0 < |f| {
          Mismatch(f, p, 0, k0);
        }
      } else if j < |f| {
        assert f[j - 1] == '/';
        var i :| 0 <= i < |slashes| && slashes[i] == j - 1;
        Mismatch(f, p, j, 0);
      }
    }
  }

  /** A path with a single dot contains neither `.spec.` nor `.test.`. */
  lemma NoDottedInfix(f: string, d: nat)
    requires OneDot(f, d)
    ensures !Contains(f, ".spec.") && !Contains(f, ".test.")
  {
    SingleDotMismatch(f, ".spec.", d, 5);
    SingleDotMismatch(f, ".test.", d, 5);
  }

  /** The case-insensitive suffix `p` is ruled out by one differing character. */
  lemma NoSuffixBy(f: string, p: string, k: nat)
    requires k < |p| && (|p| <= |f| ==> LowerChar(f[|f| - |p| + k]) != p[k])
    ensures !EndsWith(Lower(f), p)
  {
    if |p| <= |f| {
      assert Lower(f)[|f| - |p|..][k] == Lower(f)[|f| - |p| + k];
    }
  }

  /** None of the spec suffixes ends `f` in any case: its last character
      rules out all four, or it is `l` and the third-last rules out `.xml`. */
  lemma NoSpecSuffix(f: string)
    requires |f| >= 8
    requires LowerChar(f[|f| - 1]) !in "evln" || (f[|f| - 1] == 'l' && LowerChar(f[|f| - 3]) != 'x')
    ensures !EndsWith(Lower(f), ".feature") && !EndsWith(Lower(f), ".csv")
    ensures !EndsWith(Lower(f), ".xml") && !EndsWith(Lower(f), ".json")
  {
    NoSuffixBy(f, ".feature", 7);
    NoSuffixBy(f, ".csv", 3);
    NoSuffixBy(f, ".json", 4);
    if LowerChar(f[|f| - 1]) !in "evln" {
      NoSuffixBy(f, ".xml", 3);
    } else {
      NoSuffixBy(f, ".xml", 1);
    }
  }

  /** None of the library's config alternatives occurs in `f` in any case
      when `f` lacks `k`, a character of `pyproject.toml` and one of
      `pom.xml` in both cases. */
  lemma NoConfigBy(f: string, cs: string, a: char, b: char)
    requires LacksFolded(f, cs) && 'k' in cs && a in cs && b in cs
    requires a in "pyproject.toml" && b in "pom.xml"
    ensures !IsLibraryConfig(f)
  {
    var g := Lower(f);
    FoldedAbsent(f, cs, 'k');
    FoldedAbsent(f, cs, a);
    FoldedAbsent(f, cs, b);
    Lacks(g, "package.json", 'k');
    Lacks(g, "pyproject.toml", a);
    Lacks(g, "pom.xml", b);
    Lacks(g, "dockerfile", 'k');
    Lacks(g, "docker-compose.yml", 'k');
    Lacks(g, "docker-compose.yaml", 'k');
    Lacks(g, ".github/workflows/", 'k');
  }

  /** `migrations?/` does not occur in `f` in any case when `f` lacks a
      character of `migration` in both cases. */
  lemma NoMigrationBy(f: string, cs: string, k: nat)
    requires k < 9 && LacksFolded(f, cs) && "migration/"[k] in cs
    ensures !IsMigration(f)
  {
    FoldedAbsent(f, cs, "migration/"[k]);
    AbsentChar(Lower(f), "migration/", k);
    assert "migrations/"[k] == "migration/"[k];
    AbsentChar(Lower(f), "migrations/", k);
  }

  lemma SingleDotMismatch(f: string, p: string, d: nat, k: nat)
    requires |p| > 0 && p[0] == '.' && 0 < k < |p|
    requires OneDot(f, d)
    requires d + k < |f| ==> f[d + k] != p[k]
    ensures !Contains(f, p)
  {
    forall i ensures !OccursAt(f, p, i) {
      if 0 <= i < |f| {
        if i == d {
          if d + k < |f| {
            Mismatch(f, p, d, k);
          }
        } else {
          Mismatch(f, p, i, 0);
        }
      }
    }
  }

  // The case "should handle complex file categorization"
  // (test/unit/utils.test.js:191-208), one lemma per path.

  const Button: string := "src/components/Button.tsx"
  const ButtonTest: string := "test/Button.test.js"
  const Package: string := "package.json"
  const Migration: string := "migrations/001_add_users.sql"
  const OpenApi: string := "openapi/api.yaml"
  const Feature: string := "test-specs/login.feature"

  const TestPaths: seq<string> := [Button, ButtonTest, Package, Migration, OpenApi, Feature]

  /** The positions of `Button` the bucket lemmas below use: its slashes, its
      dot, the first character of each segment and its last characters. */
  lemma ButtonLayout()
    ensures |Button| == 25 && Button[24] == 'x'
    ensures Button[0] == 's' && Button[4] == 'c' && Button[15] == 'B'
    ensures SlashesAt(Button, [3, 14]) && OneDot(Button, 21)
  {
  }

  /** Letters `Button` lacks in either case. */
  lemma ButtonLetters()
    ensures LacksFolded(Button, "kylga")
  {
  }

  /** The positions of `ButtonTest` the bucket lemmas below use: its slashes, its
      dot, the first character of each segment and its last characters. */
  lemma ButtonTestLayout()
    ensures |ButtonTest| == 19 && ButtonTest[18] == 's'
    ensures ButtonTest[0] == 't' && ButtonTest[4] == '/' && ButtonTest[5] == 'B'
    ensures SlashesAt(ButtonTest, [4])
  {
  }

  /** Letters `ButtonTest` lacks in either case. */
  lemma ButtonTestLetters()
    ensures LacksFolded(ButtonTest, "kylm")
  {
  }

  /** The positions of `Package` the bucket lemmas below use: its slashes, its
      dot, the first character of each segment and its last characters. */
  lemma PackageLayout()
    ensures SlashesAt(Package, []) && OneDot(Package, 7)
  {
  }

  /** Letters `Package` lacks in either case. */
  lemma PackageLetters()
    ensures LacksFolded(Package, "m")
  {
  }

  /** The positions of `Migration` the bucket lemmas below use: its slashes, its
      dot, the first character of each segment and its last characters. */
  lemma MigrationLayout()
    ensures |Migration| == 28 && Migration[27] == 'l' && Migration[25] == 's'
    ensures Migration[0] == 'm' && Migration[11] == '0'
    ensures SlashesAt(Migration, [10]) && OneDot(Migration, 24)
  {
  }

  /** Letters `Migration` lacks in either case. */
  lemma MigrationLetters()
    ensures LacksFolded(Migration, "kyp")
  {
  }

  /** The positions of `OpenApi` the bucket lemmas below use: its slashes, its
      dot, the first character of each segment and its last characters. */
  lemma OpenApiLayout()
    ensures |OpenApi| == 16 && OpenApi[15] == 'l' && OpenApi[13] == 'a'
    ensures OpenApi[0] == 'o' && OpenApi[8] == 'a'
    ensures SlashesAt(OpenApi, [7]) && OneDot(OpenApi, 11)
  {
  }

  /** Letters `OpenApi` lacks in either case. */
  lemma OpenApiLetters()
    ensures LacksFolded(OpenApi, "krxg")
  {
  }

  /** The positions of `Feature` the bucket lemmas below use: its slashes, its
      dot, the first character of each segment and its last characters. */
  lemma FeatureLayout()
    ensures Feature[0] == 't' && Feature[4] == '-' && Feature[11] == 'l'
    ensures SlashesAt(Feature, [10]) && OneDot(Feature, 16)
  {
  }

  /** Letters `Feature` lacks in either case. */
  lemma FeatureLetters()
    ensures LacksFolded(Feature, "kyxm")
  {
  }

  // `src/components/Button.tsx` is a source path and nothing else.

  lemma ButtonTestsRule()
    ensures !IsTest(Button)
  {
    ButtonLayout();
    NoSegmentBy(Button, "test/", [3, 14], 0);
    NoSegmentBy(Button, "tests/", [3, 14], 0);
    NoDottedInfix(Button, 21);
  }

  lemma ButtonContractsRule()
    ensures !IsContract(Button)
  {
    ButtonLayout();
    NoSegmentBy(Button, "openapi/", [3, 14], 0);
    NoSegmentBy(Button, "proto/", [3, 14], 0);
    ButtonLetters();
    FoldedAbsent(Button, "kylga", 'a');
    Lacks(Button, "contracts/", 'a');
  }

  lemma ButtonConfigRule()
    ensures !IsLibraryConfig(Button)
  {
    ButtonLetters();
    NoConfigBy(Button, "kylga", 'y', 'l');
  }

  lemma ButtonMigrationsRule()
    ensures !IsMigration(Button)
  {
    ButtonLetters();
    NoMigrationBy(Button, "kylga", 2);
  }

  lemma ButtonSpecsRule()
    ensures !IsSpec(Button)
  {
    ButtonLayout();
    NoSegmentBy(Button, "test-specs/", [3, 14], 0);
    NoSpecSuffix(Button);
  }

  // `test/Button.test.js` is a test and nothing else.

  lemma ButtonTestTestsRule()
    ensures IsTest(ButtonTest)
  {
    assert SegmentStart(ButtonTest, 0) && OccursAt(ButtonTest, "test/", 0);
  }

  lemma ButtonTestContractsRule()
    ensures !IsContract(ButtonTest)
  {
    ButtonTestLayout();
    NoSegmentBy(ButtonTest, "openapi/", [4], 0);
    NoSegmentBy(ButtonTest, "proto/", [4], 0);
    NoSegmentBy(ButtonTest, "contracts/", [4], 0);
  }

  lemma ButtonTestConfigRule()
    ensures !IsLibraryConfig(ButtonTest)
  {
    ButtonTestLetters();
    NoConfigBy(ButtonTest, "kylm", 'y', 'l');
  }

  lemma ButtonTestMigrationsRule()
    ensures !IsMigration(ButtonTest)
  {
    ButtonTestLetters();
    NoMigrationBy(ButtonTest, "kylm", 0);
  }

  lemma ButtonTestSpecsRule()
    ensures !IsSpec(ButtonTest)
  {
    ButtonTestLayout();
    NoSegmentBy(ButtonTest, "test-specs/", [4], 4);
    NoSpecSuffix(ButtonTest);
  }

  // `package.json` is config and, by its `.json` suffix, an external spec.

  lemma PackageTestsRule()
    ensures !IsTest(Package)
  {
    PackageLayout();
    Lacks(Package, "test/", 't');
    Lacks(Package, "tests/", 't');
    NoDottedInfix(Package, 7);
  }

  lemma PackageContractsRule()
    ensures !IsContract(Package)
  {
    Lacks(Package, "openapi/", '/');
    Lacks(Package, "proto/", '/');
    Lacks(Package, "contracts/", '/');
  }

  lemma PackageConfigRule()
    ensures IsLibraryConfig(Package)
  {
    LowerIdentity(Package);
    assert OccursAt(Package, "package.json", 0);
    assert "package.json" in LibraryConfigPatterns;
  }

  lemma PackageMigrationsRule()
    ensures !IsMigration(Package)
  {
    PackageLetters();
    NoMigrationBy(Package, "m", 0);
  }

  lemma PackageSpecsRule()
    ensures IsSpec(Package)
  {
    LowerIdentity(Package);
    assert Package[|Package| - 5..] == ".json";
  }

  // `migrations/001_add_users.sql` is a migration and nothing else.

  lemma MigrationTestsRule()
    ensures !IsTest(Migration)
  {
    MigrationLayout();
    NoSegmentBy(Migration, "test/", [10], 0);
    NoSegmentBy(Migration, "tests/", [10], 0);
    NoDottedInfix(Migration, 24);
  }

  lemma MigrationContractsRule()
    ensures !IsContract(Migration)
  {
    MigrationLayout();
    NoSegmentBy(Migration, "openapi/", [10], 0);
    NoSegmentBy(Migration, "proto/", [10], 0);
    NoSegmentBy(Migration, "contracts/", [10], 0);
  }

  lemma MigrationConfigRule()
    ensures !IsLibraryConfig(Migration)
  {
    MigrationLetters();
    NoConfigBy(Migration, "kyp", 'y', 'p');
  }

  lemma MigrationMigrationsRule()
    ensures IsMigration(Migration)
  {
    LowerIdentity(Migration);
    assert SegmentStart(Migration, 0) && OccursAt(Migration, "migrations/", 0);
  }

  lemma MigrationSpecsRule()
    ensures !IsSpec(Migration)
  {
    MigrationLayout();
    NoSegmentBy(Migration, "test-specs/", [10], 0);
    NoSpecSuffix(Migration);
  }

  // `openapi/api.yaml` is a contract and nothing else.

  lemma OpenApiTestsRule()
    ensures !IsTest(OpenApi)
  {
    OpenApiLayout();
    NoSegmentBy(OpenApi, "test/", [7], 0);
    NoSegmentBy(OpenApi, "tests/", [7], 0);
    NoDottedInfix(OpenApi, 11);
  }

  lemma OpenApiContractsRule()
    ensures IsContract(OpenApi)
  {
    assert SegmentStart(OpenApi, 0) && OccursAt(OpenApi, "openapi/", 0);
  }

  lemma OpenApiConfigRule()
    ensures !IsLibraryConfig(OpenApi)
  {
    OpenApiLetters();
    NoConfigBy(OpenApi, "krxg", 'r', 'x');
  }

  lemma OpenApiMigrationsRule()
    ensures !IsMigration(OpenApi)
  {
    OpenApiLetters();
    NoMigrationBy(OpenApi, "krxg", 2);
  }

  lemma OpenApiSpecsRule()
    ensures !IsSpec(OpenApi)
  {
    OpenApiLayout();
    NoSegmentBy(OpenApi, "test-specs/", [7], 0);
    NoSpecSuffix(OpenApi);
  }

  // `test-specs/login.feature` is an external spec and nothing else.

  lemma FeatureTestsRule()
    ensures !IsTest(Feature)
  {
    FeatureLayout();
    NoSegmentBy(Feature, "test/", [10], 4);
    NoSegmentBy(Feature, "tests/", [10], 4);
    NoDottedInfix(Feature, 16);
  }

  lemma FeatureContractsRule()
    ensures !IsContract(Feature)
  {
    FeatureLayout();
    NoSegmentBy(Feature, "openapi/", [10], 0);
    NoSegmentBy(Feature, "proto/", [10], 0);
    NoSegmentBy(Feature, "contracts/", [10], 0);
  }

  lemma FeatureConfigRule()
    ensures !IsLibraryConfig(Feature)
  {
    FeatureLetters();
    NoConfigBy(Feature, "kyxm", 'y', 'x');
  }

  lemma FeatureMigrationsRule()
    ensures !IsMigration(Feature)
  {
    FeatureLetters();
    NoMigrationBy(Feature, "kyxm", 0);
  }

  lemma FeatureSpecsRule()
    ensures IsSpec(Feature)
  {
    assert SegmentStart(Feature, 0) && OccursAt(Feature, "test-specs/", 0);
  }

  function Keep(keep: string -> bool, f: string): seq<string> {
    if keep(f) then [f] else []
  }

  /** Filtering one more path appends it when it satisfies the predicate. */
  lemma FilterSnoc(xs: seq<string>, x: string, keep: string -> bool)
    ensures Filter(xs + [x], keep) == Filter(xs, keep) + Keep(keep, x)
  {
    assert (xs + [x])[..|xs|] == xs;
  }

  /** Filtering six paths keeps each one that satisfies the predicate, in order. */
  lemma FilterSix(a: string, b: string, c: string, d: string, e: string, g: string, keep: string -> bool)
    ensures Filter([a, b, c, d, e, g], keep) ==
      Keep(keep, a) + Keep(keep, b) + Keep(keep, c) + Keep(keep, d) + Keep(keep, e) + Keep(keep, g)
  {
    assert [a] == [] + [a];
    FilterSnoc([], a, keep);
    assert [a, b] == [a] + [b];
    FilterSnoc([a], b, keep);
    assert [a, b, c] == [a, b] + [c];
    FilterSnoc([a, b], c, keep);
    assert [a, b, c, d] == [a, b, c] + [d];
    FilterSnoc([a, b, c], d, keep);
    assert [a, b, c, d, e] == [a, b, c, d] + [e];
    FilterSnoc([a, b, c, d], e, keep);
    assert [a, b, c, d, e, g] == [a, b, c, d, e] + [g];
    FilterSnoc([a, b, c, d, e], g, keep);
  }

  /** A path starting with none of `s`, `a`, `l` is not a source path. */
  lemma NotSource(f: string)
    requires |f| > 0 && f[0] != 's' && f[0] != 'a' && f[0] != 'l'
    ensures !IsSource(f)
  {
  }

  lemma SourceBucket()
    ensures Filter(TestPaths, IsSource) == [Button]
  {
    assert IsSource(Button);
    NotSource(ButtonTest); NotSource(Package); NotSource(Migration);
    NotSource(OpenApi); NotSource(Feature);
    FilterSix(Button, ButtonTest, Package, Migration, OpenApi, Feature, IsSource);
  }

  lemma TestsBucket()
    ensures Filter(TestPaths, IsTest) == [ButtonTest]
  {
    ButtonTestsRule(); ButtonTestTestsRule(); PackageTestsRule(); MigrationTestsRule(); OpenApiTestsRule(); FeatureTestsRule();
    FilterSix(Button, ButtonTest, Package, Migration, OpenApi, Feature, IsTest);
  }

  lemma ContractsBucket()
    ensures Filter(TestPaths, IsContract) == [OpenApi]
  {
    ButtonContractsRule(); ButtonTestContractsRule(); PackageContractsRule();
    MigrationContractsRule(); OpenApiContractsRule(); FeatureContractsRule();
    FilterSix(Button, ButtonTest, Package, Migration, OpenApi, Feature, IsContract);
  }

  lemma ConfigBucket()
    ensures Filter(TestPaths, IsLibraryConfig) == [Package]
  {
    ButtonConfigRule(); ButtonTestConfigRule(); PackageConfigRule(); MigrationConfigRule(); OpenApiConfigRule(); FeatureConfigRule();
    FilterSix(Button, ButtonTest, Package, Migration, OpenApi, Feature, IsLibraryConfig);
  }

  lemma MigrationsBucket()
    ensures Filter(TestPaths, IsMigration) == [Migration]
  {
    ButtonMigrationsRule(); ButtonTestMigrationsRule(); PackageMigrationsRule();
    MigrationMigrationsRule(); OpenApiMigrationsRule(); FeatureMigrationsRule();
    FilterSix(Button, ButtonTest, Package, Migration, OpenApi, Feature, IsMigration);
  }

  lemma SpecsBucket()
    ensures Filter(TestPaths, IsSpec) == [Package, Feature]
  {
    ButtonSpecsRule(); ButtonTestSpecsRule(); PackageSpecsRule(); MigrationSpecsRule(); OpenApiSpecsRule(); FeatureSpecsRule();
    FilterSix(Button, ButtonTest, Package, Migration, OpenApi, Feature, IsSpec);
  }

  /** The test's expectations: every bucket filters the whole list, so
      `package.json` is both config and an external spec, and each other
      path lands in exactly one bucket. */
  lemma ComplexCategorization()
    ensures Categorize(Library, TestPaths) ==
      Buckets([Button], [ButtonTest], [OpenApi], [Package], [Migration], [Package, Feature])
  {
    SourceBucket(); TestsBucket(); ContractsBucket();
    ConfigBucket(); MigrationsBucket(); SpecsBucket();
  }

  /** The assessment separator depends on the file existing, not on its
      content: an existing empty assessment still gets it. */
  lemma EmptyAssessmentGetsSeparator(report: string)
    ensures var s := Snapshot(map[AssessmentPath := ""], {});
      PersistSpec(s, report, []).files[AssessmentPath] == Separator + report
  {
    var s := Snapshot(map[AssessmentPath := ""], {});
    PersistAssessment(s, report, []);
    assert Exists(s, AssessmentPath);
  }
}
