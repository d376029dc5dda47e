/**
 * The markdown rendered by `assessDiff`: `formatList` for one bucket, the
 * report with its fixed sections (lib/agent.js:66-70, 122-147;
 * index.js:68-72, 100-125) and the block appended to the spec index
 * (lib/agent.js:160-168, index.js:139-147).
 */
module Report {
  import opened Wrappers
  import opened Strings
  import opened Categorizer

  /** `  - item`, one bullet of a non-empty list. */
  function Bullet(item: string): string {
    "  - " + item
  }

  function Bullets(items: seq<string>): seq<string> {
    seq(|items|, i requires 0 <= i < |items| => Bullet(items[i]))
  }

  /** `formatList(title, items)`; `None` is a missing (null or undefined) list. */
  function FormatList(title: string, items: Option<seq<string>>): string {
    if items.None? || items.value == [] then "- " + title + ": none"
    else "- " + title + ":\n" + Join(Bullets(items.value), "\n")
  }

  /** The lines a rendered list is made of: a `none` line for an empty list,
      otherwise the title line and one bullet per item, in order. */
  function ListLines(title: string, items: seq<string>): seq<string> {
    if items == [] then ["- " + title + ": none"]
    else ["- " + title + ":"] + Bullets(items)
  }

  predicate SingleLine(s: string) {
    '\n' !in s
  }

  predicate AllSingleLine(xs: seq<string>) {
    forall i :: 0 <= i < |xs| ==> SingleLine(xs[i])
  }

  /** Joining two non-empty line lists puts one separator between them. */
  lemma {:induction false} JoinAppend(a: seq<string>, b: seq<string>, sep: string)
    requires |a| > 0 && |b| > 0
    ensures Join(a + b, sep) == Join(a, sep) + sep + Join(b, sep)
  {
    if |a| > 1 {
      JoinAppend(a[1..], b, sep);
      assert (a + b)[1..] == a[1..] + b;
    } else {
      assert (a + b)[1..] == b;
    }
  }

  /** A rendered list is its lines joined with line breaks; with a
      single-line title and items, every such line is a single line. */
  lemma FormatListIsJoin(title: string, items: seq<string>)
    requires SingleLine(title) && AllSingleLine(items)
    ensures FormatList(title, Some(items)) == Join(ListLines(title, items), "\n")
    ensures |ListLines(title, items)| > 0 && AllSingleLine(ListLines(title, items))
  {
    var lines := ListLines(title, items);
    var head := "- " + title + ":";
    if items != [] {
      var bs := Bullets(items);
      JoinAppend([head], bs, "\n");
      assert lines == [head] + bs;
      assert ":" + "\n" == ":\n";
      assert FormatList(title, Some(items)) == head + "\n" + Join(bs, "\n");
      forall i | 0 <= i < |bs| ensures SingleLine(bs[i]) {
        assert SingleLine(items[i]);
        assert bs[i] == "  - " + items[i];
      }
      assert SingleLine(head);
    } else {
      assert SingleLine("- " + title + ": none");
    }
  }

  /** A rendered list, cut at its line breaks, gives back its title line and
      one `  - x` line per item in order, or the single `: none` line; the
      missing list renders like the empty one. */
  lemma FormatListLines(title: string, items: seq<string>)
    requires SingleLine(title) && AllSingleLine(items)
    ensures Split(FormatList(title, Some(items)), "\n") == ListLines(title, items)
    ensures FormatList(title, None) == FormatList(title, Some([]))
  {
    FormatListIsJoin(title, items);
    JoinSplit(ListLines(title, items), '\n');
  }

  const Labels: seq<string> :=
    ["Source", "Tests", "Contracts/Schemas", "Config/CI", "Migrations", "External Specs"]

  /** The six lines of the Categorization section, in their fixed order. */
  function CategoryLines(b: Buckets): seq<string> {
    [FormatList(Labels[0], Some(b.source)),
     FormatList(Labels[1], Some(b.tests)),
     FormatList(Labels[2], Some(b.contracts)),
     FormatList(Labels[3], Some(b.config)),
     FormatList(Labels[4], Some(b.migrations)),
     FormatList(Labels[5], Some(b.specs))]
  }

  function Preamble(range: string, stats: string, nameStatus: string): seq<string> {
    ["# Change Delta " + range, "", "## Summary", "```", stats, "```", "",
     "## Changed Files (name-status)", "```", nameStatus, "```", "", "## Categorization"]
  }

  const FocusAreas: seq<string> :=
    ["", "## Suggested Focus Areas",
     "- Add/Update tests for changed public APIs and critical paths",
     "- Prefer integration/contract tests for boundary changes; unit tests for pure logic",
     "- If migrations/config changed, include smoke checks and rollback paths"]

  /** The report of `assessDiff`: the lines joined with `\n`. */
  function RenderReport(range: string, stats: string, nameStatus: string, b: Buckets): string {
    Join(Preamble(range, stats, nameStatus) + CategoryLines(b) + FocusAreas, "\n")
  }

  /** The report opens with its title line and holds the Categorization
      section, the six bucket lists in fixed order, between the name-status
      block and the suggested focus areas. */
  lemma ReportLayout(range: string, stats: string, nameStatus: string, b: Buckets)
    ensures RenderReport(range, stats, nameStatus, b) ==
              "# Change Delta " + range + "\n" + Join(Preamble(range, stats, nameStatus)[1..], "\n")
              + "\n" + Join(CategoryLines(b), "\n") + "\n" + Join(FocusAreas, "\n")
    ensures Preamble(range, stats, nameStatus)[|Preamble(range, stats, nameStatus)| - 1] == "## Categorization"
  {
    var pre, cats := Preamble(range, stats, nameStatus), CategoryLines(b);
    JoinAppend(pre, cats, "\n");
    JoinAppend(pre + cats, FocusAreas, "\n");
    assert Join(pre, "\n") == pre[0] + "\n" + Join(pre[1..], "\n");
  }

  /** The six bucket lists of a bucket set as lines, in report order. */
  function SectionLines(b: Buckets): seq<seq<string>> {
    [ListLines(Labels[0], b.source), ListLines(Labels[1], b.tests),
     ListLines(Labels[2], b.contracts), ListLines(Labels[3], b.config),
     ListLines(Labels[4], b.migrations), ListLines(Labels[5], b.specs)]
  }

  function Concat(ls: seq<seq<string>>): seq<string> {
    if ls == [] then [] else ls[0] + Concat(ls[1..])
  }

  /** With single-line paths, the Categorization section reads back as the
      six lists in the order Source, Tests, Contracts/Schemas, Config/CI,
      Migrations, External Specs. */
  lemma CategorizationLines(b: Buckets)
    requires AllSingleLine(b.source) && AllSingleLine(b.tests) && AllSingleLine(b.contracts)
    requires AllSingleLine(b.config) && AllSingleLine(b.migrations) && AllSingleLine(b.specs)
    ensures Split(Join(CategoryLines(b), "\n"), "\n") == Concat(SectionLines(b))
  {
    var cats, ls := CategoryLines(b), SectionLines(b);
    FormatListIsJoin(Labels[0], b.source);
    FormatListIsJoin(Labels[1], b.tests);
    FormatListIsJoin(Labels[2], b.contracts);
    FormatListIsJoin(Labels[3], b.config);
    FormatListIsJoin(Labels[4], b.migrations);
    FormatListIsJoin(Labels[5], b.specs);
    assert cats == JoinEach(ls, "\n");
    JoinConcat(ls, "\n");
    ConcatSingleLine(ls);
    ConcatNonEmpty(ls);
    JoinSplit(Concat(ls), '\n');
  }

  /** A split part free of the separator holds no line break. */
  lemma NoBreakInPart(part: string)
    requires !Contains(part, "\n")
    ensures SingleLine(part)
  {
    if '\n' in part {
      var i :| 0 <= i < |part| && part[i] == '\n';
      assert OccursAt(part, "\n", i);
    }
  }

  function JoinEach(ls: seq<seq<string>>, sep: string): seq<string> {
    seq(|ls|, i requires 0 <= i < |ls| => Join(ls[i], sep))
  }

  lemma {:induction false} ConcatNonEmpty(ls: seq<seq<string>>)
    requires |ls| > 0 && |ls[0]| > 0
    ensures |Concat(ls)| > 0
  {
  }

  lemma {:induction false} ConcatSingleLine(ls: seq<seq<string>>)
    requires forall i :: 0 <= i < |ls| ==> AllSingleLine(ls[i])
    ensures AllSingleLine(Concat(ls))
  {
    if ls != [] {
      ConcatSingleLine(ls[1..]);
      assert Concat(ls) == ls[0] + Concat(ls[1..]);
    }
  }

  /** Joining the joined groups equals joining all lines at once. */
  lemma {:induction false} JoinConcat(ls: seq<seq<string>>, sep: string)
    requires |ls| > 0
    requires forall i :: 0 <= i < |ls| ==> |ls[i]| > 0
    ensures Join(JoinEach(ls, sep), sep) == Join(Concat(ls), sep)
  {
    if |ls| == 1 {
      assert Concat(ls) == ls[0] + Concat(ls[1..]) == ls[0];
    } else {
      JoinConcat(ls[1..], sep);
      assert JoinEach(ls, sep)[1..] == JoinEach(ls[1..], sep);
      ConcatNonEmpty(ls[1..]);
      JoinAppend(ls[0], Concat(ls[1..]), sep);
    }
  }

  /** With no changed files every bucket renders as its `: none` line. */
  lemma EmptyChangeRendersNone(v: Variant)
    ensures CategoryLines(Categorize(v, [])) ==
              ["- Source: none", "- Tests: none", "- Contracts/Schemas: none",
               "- Config/CI: none", "- Migrations: none", "- External Specs: none"]
  {
    var b := Categorize(v, []);
    assert b == Buckets([], [], [], [], [], []);
    assert "- " + "Source" + ": none" == "- Source: none";
    assert "- " + "Tests" + ": none" == "- Tests: none";
    assert "- " + "Contracts/Schemas" + ": none" == "- Contracts/Schemas: none";
    assert "- " + "Config/CI" + ": none" == "- Config/CI: none";
    assert "- " + "Migrations" + ": none" == "- Migrations: none";
    assert "- " + "External Specs" + ": none" == "- External Specs: none";
  }

  const SpecIndexTitle: string := "# Spec Sources\n\n## Index\n"

  function SpecBullets(specs: seq<string>): seq<string> {
    seq(|specs|, i requires 0 <= i < |specs| => "- " + specs[i])
  }

  /** The block appended to the spec index: a title when the index is still
      empty, a blank line otherwise, then the section heading, one `- p`
      line per spec path and a final line break. */
  function SpecIndexBlock(existing: string, specs: seq<string>): string {
    var header := if existing != "" then "\n" else SpecIndexTitle;
    Join([header, "### Added/Changed (from diff)"] + SpecBullets(specs) + [""], "\n")
  }

  function SpecHeaderLines(existing: string): seq<string> {
    if existing != "" then ["", ""] else ["# Spec Sources", "", "## Index", ""]
  }

  lemma SpecHeaderJoin(existing: string)
    ensures Join(SpecHeaderLines(existing), "\n") == (if existing != "" then "\n" else SpecIndexTitle)
    ensures AllSingleLine(SpecHeaderLines(existing)) && |SpecHeaderLines(existing)| > 0
  {
    if existing == "" {
      assert Join(["## Index", ""], "\n") == "## Index" + "\n" + "";
      assert Join(["", "## Index", ""], "\n") == "" + "\n" + "## Index\n";
      assert Join(["# Spec Sources", "", "## Index", ""], "\n") == "# Spec Sources" + "\n" + "\n## Index\n";
    } else {
      assert Join(["", ""], "\n") == "" + "\n" + "";
    }
  }

  lemma SpecBulletsSingleLine(specs: seq<string>)
    requires AllSingleLine(specs)
    ensures AllSingleLine(SpecBullets(specs))
  {
    forall i | 0 <= i < |specs| ensures SingleLine(SpecBullets(specs)[i]) {
      assert SingleLine(specs[i]);
      assert SpecBullets(specs)[i] == "- " + specs[i];
    }
  }

  function SpecBlockLines(existing: string, specs: seq<string>): seq<string> {
    SpecHeaderLines(existing) + (["### Added/Changed (from diff)"] + SpecBullets(specs) + [""])
  }

  lemma SpecIndexBlockIsJoin(existing: string, specs: seq<string>)
    ensures SpecIndexBlock(existing, specs) == Join(SpecBlockLines(existing, specs), "\n")
  {
    var hs := SpecHeaderLines(existing);
    var header := if existing != "" then "\n" else SpecIndexTitle;
    var rest := ["### Added/Changed (from diff)"] + SpecBullets(specs) + [""];
    SpecHeaderJoin(existing);
    var full := [header, "### Added/Changed (from diff)"] + SpecBullets(specs) + [""];
    assert SpecIndexBlock(existing, specs) == Join(full, "\n");
    assert full == [header] + rest;
    JoinAppend([header], rest, "\n");
    JoinAppend(hs, rest, "\n");
  }

  lemma SpecBlockLinesSingle(existing: string, specs: seq<string>)
    requires AllSingleLine(specs)
    ensures forall i :: 0 <= i < |SpecBlockLines(existing, specs)| ==> '\n' !in SpecBlockLines(existing, specs)[i]
  {
    var hs := SpecHeaderLines(existing);
    var rest := ["### Added/Changed (from diff)"] + SpecBullets(specs) + [""];
    var all := SpecBlockLines(existing, specs);
    SpecHeaderJoin(existing);
    SpecBulletsSingleLine(specs);
    assert AllSingleLine(rest);
    forall i | 0 <= i < |all| ensures '\n' !in all[i] {
      if i >= |hs| {
        assert all[i] == rest[i - |hs|];
        assert SingleLine(rest[i - |hs|]);
      } else {
        assert SingleLine(hs[i]);
      }
    }
  }

  /** Cut at its line breaks, the spec-index block is the header lines, the
      heading, the spec paths as `- p` in order, and an empty last line. */
  lemma SpecIndexBlockLines(existing: string, specs: seq<string>)
    requires AllSingleLine(specs)
    ensures Split(SpecIndexBlock(existing, specs), "\n") ==
              SpecHeaderLines(existing) + ["### Added/Changed (from diff)"] + SpecBullets(specs) + [""]
  {
    SpecIndexBlockIsJoin(existing, specs);
    SpecBlockLinesSingle(existing, specs);
    JoinSplit(SpecBlockLines(existing, specs), '\n');
  }
}
