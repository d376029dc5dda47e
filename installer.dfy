/**
 * What `init` writes: the rule templates copied into `.cursor/rules`, then
 * the twelve memory-bank core files copied one by one into `memory-bank`.
 * Each step is a function from the snapshot before to the snapshot after;
 * the class in workspace.dfy performs the same steps in place.
 */
module Installer {
  import opened Wrappers
  import opened FileSystem

  const RulesDest := ".cursor/rules"
  const MemoryDest := "memory-bank"

  /** The core files `ensureMemoryCoreFiles` guarantees, in the order it copies them. */
  const CoreFiles: seq<string> := [
    "projectbrief.md", "productContext.md", "activeContext.md",
    "systemPatterns.md", "techContext.md", "progress.md",
    "testPlan.md", "testInventory.md", "coverageGaps.md",
    "riskMatrix.md", "assessment.md", "specSources.md"
  ]

  /** The packaged templates: the rules tree and the memory-bank files, each
      keyed by its path relative to its template directory. */
  datatype Templates = Templates(rules: map<string, string>, memory: map<string, string>)

  // ---------------------------------------------------------------- copyDirectory

  /** The destination path of every template file that the copy writes: all
      of them, or, when merging, only those whose destination is absent. */
  function CopiedFiles(s: Snapshot, tree: map<string, string>, dest: string, merge: bool): map<string, string>
  {
    map rel | rel in tree && !(merge && Exists(s, PathJoin(dest, rel))) :: PathJoin(dest, rel) := tree[rel]
  }

  /** `copyDirectory`: ensure the parent of `dest`; when `dest` already exists
      and `force` is off, merge (write only absent files) and report
      `created: false`; otherwise copy every file over and report `created: true`. */
  function CopyDirectorySpec(s: Snapshot, tree: map<string, string>, dest: string, force: bool): (bool, Snapshot)
  {
    var s1 := EnsureDir(s, Dirname(dest));
    if Exists(s1, dest) && !force then
      (false, s1.(files := s1.files + CopiedFiles(s1, tree, dest, true)))
    else
      (true, Snapshot(s1.files + CopiedFiles(s1, tree, dest, false), s1.dirs + {dest}))
  }

  /** Every path the copy may add: the parent, the destination and the
      destination of each template file. */
  function CopyFootprint(tree: map<string, string>, dest: string): set<string> {
    {Dirname(dest), dest} + set rel | rel in tree :: PathJoin(dest, rel)
  }

  /** Creating the parent of `dest` does not make `dest` exist. */
  lemma ParentKeepsExistence(s: Snapshot, dest: string, p: string)
    requires p == dest || (dest + "/" <= p)
    requires dest != "." && dest != "/"
    ensures Exists(EnsureDir(s, Dirname(dest)), p) == Exists(s, p)
  {
    var d := Dirname(dest);
    var t := EnsureDir(s, d);
    if p != dest {
      assert p[|dest|] == '/';
    }
    if |p| <= 1 {
      assert d != p by {
        if p != dest {
          assert |dest| == 0 && p == "/";
        }
      }
      if |p| == 1 {
        assert |p + "/"| > |d|;
      } else {
        assert (p + "/")[0] == '/';
      }
    } else {
      assert |d| < |p|;
    }
    assert d != p;
    assert !Below(p, d);
    assert t.files.Keys + t.dirs == s.files.Keys + s.dirs + {d};
    ExistsIgnoresUnrelated(s, t, p, {d});
  }

  /** The shape of `copyDirectory`: `created` is false exactly when the
      destination already existed and `force` was off; the files gain the
      copied templates, merged or not; the parent and, when created, the
      destination become directories. */
  lemma {:induction false} CopyDirectoryShape(s: Snapshot, tree: map<string, string>, dest: string, force: bool)
    requires dest != "." && dest != "/"
    ensures var (created, t) := CopyDirectorySpec(s, tree, dest, force);
      && (created <==> !(Exists(s, dest) && !force))
      && t.files == s.files + CopiedFiles(EnsureDir(s, Dirname(dest)), tree, dest, !created)
      && t.dirs == s.dirs + {Dirname(dest)} + (if created then {dest} else {})
  {
    ParentKeepsExistence(s, dest, dest);
  }

  /** Each template file lands at its destination when the directory is
      created or forced, or when nothing is at that path yet. */
  lemma {:induction false} CopyDirectoryWrites(s: Snapshot, tree: map<string, string>, dest: string, force: bool, rel: string)
    requires dest != "." && dest != "/"
    requires rel in tree
    ensures var (created, t) := CopyDirectorySpec(s, tree, dest, force);
      (created || !Exists(s, PathJoin(dest, rel))) ==>
        PathJoin(dest, rel) in t.files && t.files[PathJoin(dest, rel)] == tree[rel]
  {
    CopyDirectoryShape(s, tree, dest, force);
    ParentKeepsExistence(s, dest, PathJoin(dest, rel));
    var (created, t) := CopyDirectorySpec(s, tree, dest, force);
    var added := CopiedFiles(EnsureDir(s, Dirname(dest)), tree, dest, !created);
    if created || !Exists(s, PathJoin(dest, rel)) {
      assert PathJoin(dest, rel) in added;
    }
  }

  /** When merging, a template file whose destination path already exists
      leaves that path as it was. */
  lemma {:induction false} CopyDirectoryMergeSkips(s: Snapshot, tree: map<string, string>, dest: string, force: bool, rel: string)
    requires dest != "." && dest != "/"
    requires rel in tree
    ensures var (created, t) := CopyDirectorySpec(s, tree, dest, force);
      (!created && Exists(s, PathJoin(dest, rel))) ==> Unchanged(s, t, PathJoin(dest, rel))
  {
    CopyDirectoryShape(s, tree, dest, force);
    ParentKeepsExistence(s, dest, PathJoin(dest, rel));
    var (created, t) := CopyDirectorySpec(s, tree, dest, force);
    var added := CopiedFiles(EnsureDir(s, Dirname(dest)), tree, dest, !created);
    if !created && Exists(s, PathJoin(dest, rel)) {
      forall other | other in tree && PathJoin(dest, other) == PathJoin(dest, rel)
        ensures other == rel
      {
      }
      assert PathJoin(dest, rel) !in added;
    }
  }

  /** Nothing outside the parent, the destination and the template files'
      destinations changes, and no file disappears. */
  lemma {:induction false} CopyDirectoryFrame(s: Snapshot, tree: map<string, string>, dest: string, force: bool)
    requires dest != "." && dest != "/"
    ensures var (_, t) := CopyDirectorySpec(s, tree, dest, force);
      && (forall p :: p !in CopyFootprint(tree, dest) ==> Unchanged(s, t, p))
      && s.files.Keys <= t.files.Keys
  {
    CopyDirectoryShape(s, tree, dest, force);
  }

  /** Without `force`, `copyDirectory` never rewrites a file that exists:
      when the destination is new, no file can lie below it. */
  lemma {:induction false} CopyWithoutForceKeepsFiles(s: Snapshot, tree: map<string, string>, dest: string)
    requires dest != "." && dest != "/"
    ensures var (_, t) := CopyDirectorySpec(s, tree, dest, false);
      forall p :: p in s.files ==> p in t.files && t.files[p] == s.files[p]
  {
    CopyDirectoryFrame(s, tree, dest, false);
    var (created, t) := CopyDirectorySpec(s, tree, dest, false);
    forall p | p in s.files
      ensures p in t.files && t.files[p] == s.files[p]
    {
      if p in CopyFootprint(tree, dest) && p != Dirname(dest) && p != dest {
        var rel :| rel in tree && p == PathJoin(dest, rel);
        assert Below(dest, p);
        CopyDirectoryMergeSkips(s, tree, dest, false, rel);
        CopyDirectoryShape(s, tree, dest, false);
      }
    }
  }

  /** A destination that does not exist yet is copied the same way with or
      without `force`. */
  lemma FreshDestinationIgnoresForce(s: Snapshot, tree: map<string, string>, dest: string)
    requires dest != "." && dest != "/"
    requires !Exists(s, dest)
    ensures CopyDirectorySpec(s, tree, dest, false) == CopyDirectorySpec(s, tree, dest, true)
  {
    ParentKeepsExistence(s, dest, dest);
  }

  // ---------------------------------------------------------------- ensureMemoryCoreFiles

  function CorePath(name: string): string {
    PathJoin(MemoryDest, name)
  }

  function CorePaths(names: seq<string>): set<string> {
    set n | n in names :: CorePath(n)
  }

  /** Whether the loop copies `name`: its destination is absent or `force` is on. */
  predicate NeedsCopy(s: Snapshot, name: string, force: bool) {
    !Exists(s, CorePath(name)) || force
  }

  predicate SlashFree(names: seq<string>) {
    forall i :: 0 <= i < |names| ==> '/' !in names[i]
  }

  predicate Distinct(names: seq<string>) {
    forall i, j :: 0 <= i < j < |names| ==> names[i] != names[j]
  }

  /** One iteration of the loop. `None` when the file must be copied but the
      template is missing, which makes the copy throw. */
  function CoreStep(s: Snapshot, template: map<string, string>, force: bool, name: string): Option<Snapshot>
  {
    if !NeedsCopy(s, name, force) then Some(s)
    else if name !in template then None
    else Some(s.(files := s.files[CorePath(name) := template[name]]))
  }

  /** The loop over `names`, stopping at the first failing copy. The flag
      says whether every iteration finished. */
  function CoreFold(s: Snapshot, template: map<string, string>, force: bool, names: seq<string>): (bool, Snapshot)
    decreases |names|
  {
    if names == [] then (true, s)
    else match CoreStep(s, template, force, names[0])
      case None => (false, s)
      case Some(s') => CoreFold(s', template, force, names[1..])
  }

  /** `ensureMemoryCoreFiles`: ensure the memory-bank directory, then run the loop. */
  function EnsureMemoryCoreFilesSpec(s: Snapshot, template: map<string, string>, force: bool): (bool, Snapshot)
  {
    CoreFold(EnsureDir(s, MemoryDest), template, force, CoreFiles)
  }

  /** Writing one core file does not change whether another exists. */
  lemma CoreWriteIsLocal(s: Snapshot, m: string, n: string, c: string)
    requires '/' !in m && m != n
    ensures Exists(s.(files := s.files[CorePath(m) := c]), CorePath(n)) == Exists(s, CorePath(n))
  {
    var t := s.(files := s.files[CorePath(m) := c]);
    assert t.files.Keys + t.dirs == s.files.Keys + s.dirs + {CorePath(m)};
    var k := |MemoryDest| + 1;
    assert CorePath(m)[k..] == m && CorePath(n)[k..] == n;
    if |CorePath(n) + "/"| <= |CorePath(m)| {
      assert CorePath(m)[k + |n|] == m[|n|];
      assert (CorePath(n) + "/")[k + |n|] == '/';
    }
    ExistsIgnoresUnrelated(s, t, CorePath(n), {CorePath(m)});
  }

  /** Existence only grows when files and directories are only added. */
  lemma ExistsMonotone(s: Snapshot, t: Snapshot, p: string)
    requires s.files.Keys <= t.files.Keys && s.dirs <= t.dirs
    ensures Exists(s, p) ==> Exists(t, p)
  {
    if Exists(s, p) {
      if q :| q in s.files && Below(p, q) {
        assert q in t.files;
      } else if q :| q in s.dirs && Below(p, q) {
        assert q in t.dirs;
      }
    }
  }

  /** The first name of a distinct slash-free list, and the rest of it. */
  lemma SplitNames(names: seq<string>)
    requires names != [] && SlashFree(names) && Distinct(names)
    ensures SlashFree(names[1..]) && Distinct(names[1..])
    ensures '/' !in names[0]
    ensures forall m :: m in names[1..] ==> m != names[0] && CorePath(m) != CorePath(names[0])
    ensures forall m :: m in names <==> m == names[0] || m in names[1..]
    ensures CorePaths(names) == {CorePath(names[0])} + CorePaths(names[1..])
    ensures CorePath(names[0]) !in CorePaths(names[1..])
  {
    var n, rest := names[0], names[1..];
    forall i | 0 <= i < |rest| ensures '/' !in rest[i] { assert rest[i] == names[i + 1]; }
    forall i, j | 0 <= i < j < |rest| ensures rest[i] != rest[j] {
      assert rest[i] == names[i + 1] && rest[j] == names[j + 1];
    }
    var k := |MemoryDest| + 1;
    forall m | m in rest ensures m != n && CorePath(m) != CorePath(n) {
      var i :| 0 <= i < |rest| && rest[i] == m;
      assert names[i + 1] == m;
      assert CorePath(m)[k..] == m && CorePath(n)[k..] == n;
    }
    assert names == [n] + rest;
  }

  /** Copying the first name leaves the other names' need for a copy as it was. */
  lemma StepKeepsNeeds(s: Snapshot, template: map<string, string>, force: bool, names: seq<string>)
    requires names != [] && SlashFree(names) && Distinct(names)
    requires CoreStep(s, template, force, names[0]).Some?
    ensures forall m :: m in names[1..] ==>
      NeedsCopy(CoreStep(s, template, force, names[0]).value, m, force) == NeedsCopy(s, m, force)
  {
    SplitNames(names);
    var s1 := CoreStep(s, template, force, names[0]).value;
    if s1 != s {
      forall m | m in names[1..]
        ensures NeedsCopy(s1, m, force) == NeedsCopy(s, m, force)
      {
        CoreWriteIsLocal(s, names[0], m, template[names[0]]);
      }
    }
  }

  /** The loop only adds core files: directories stay, no file disappears,
      and no path outside the names' destinations changes. */
  lemma {:induction false} CoreFoldFrame(s: Snapshot, template: map<string, string>, force: bool, names: seq<string>)
    ensures var (_, t) := CoreFold(s, template, force, names);
      && t.dirs == s.dirs
      && s.files.Keys <= t.files.Keys
      && (forall p :: p !in CorePaths(names) ==> Unchanged(s, t, p))
    decreases |names|
  {
    if names != [] {
      match CoreStep(s, template, force, names[0])
      case None =>
      case Some(s1) =>
        CoreFoldFrame(s1, template, force, names[1..]);
        assert CorePaths(names) == {CorePath(names[0])} + CorePaths(names[1..]) by {
          assert names == [names[0]] + names[1..];
        }
    }
  }

  /** The loop finishes exactly when every name that needs a copy has a template. */
  lemma {:induction false} CoreFoldOutcome(s: Snapshot, template: map<string, string>, force: bool, names: seq<string>)
    requires SlashFree(names) && Distinct(names)
    ensures CoreFold(s, template, force, names).0 <==>
      forall n :: n in names && NeedsCopy(s, n, force) ==> n in template
    decreases |names|
  {
    if names != [] {
      SplitNames(names);
      match CoreStep(s, template, force, names[0])
      case None =>
      case Some(s1) =>
        StepKeepsNeeds(s, template, force, names);
        CoreFoldOutcome(s1, template, force, names[1..]);
    }
  }

  /** When the loop finishes, every name that needed a copy holds its template. */
  lemma {:induction false} CoreFoldWrites(s: Snapshot, template: map<string, string>, force: bool, names: seq<string>)
    requires SlashFree(names) && Distinct(names)
    ensures var (ok, t) := CoreFold(s, template, force, names);
      ok ==> forall n :: n in names && NeedsCopy(s, n, force) ==>
        CorePath(n) in t.files && n in template && t.files[CorePath(n)] == template[n]
    decreases |names|
  {
    if names != [] {
      SplitNames(names);
      match CoreStep(s, template, force, names[0])
      case None =>
      case Some(s1) =>
        StepKeepsNeeds(s, template, force, names);
        CoreFoldWrites(s1, template, force, names[1..]);
        CoreFoldFrame(s1, template, force, names[1..]);
    }
  }

  /** A name that needed no copy keeps what it had. */
  lemma {:induction false} CoreFoldKeeps(s: Snapshot, template: map<string, string>, force: bool, names: seq<string>)
    requires SlashFree(names) && Distinct(names)
    ensures var (_, t) := CoreFold(s, template, force, names);
      forall n :: n in names && !NeedsCopy(s, n, force) ==> Unchanged(s, t, CorePath(n))
    decreases |names|
  {
    if names != [] {
      SplitNames(names);
      match CoreStep(s, template, force, names[0])
      case None =>
      case Some(s1) =>
        StepKeepsNeeds(s, template, force, names);
        CoreFoldKeeps(s1, template, force, names[1..]);
        CoreFoldFrame(s1, template, force, names[1..]);
    }
  }

  lemma CoreFilesWellFormed()
    ensures SlashFree(CoreFiles) && Distinct(CoreFiles)
  {
  }

  /** Creating the memory-bank directory does not change which core files
      need a copy. */
  lemma MemoryDirKeepsNeeds(s: Snapshot, force: bool)
    ensures forall n :: NeedsCopy(EnsureDir(s, MemoryDest), n, force) == NeedsCopy(s, n, force)
  {
    var s1 := EnsureDir(s, MemoryDest);
    forall n
      ensures NeedsCopy(s1, n, force) == NeedsCopy(s, n, force)
    {
      assert s1.files.Keys + s1.dirs == s.files.Keys + s.dirs + {MemoryDest};
      assert |MemoryDest| < |CorePath(n)|;
      ExistsIgnoresUnrelated(s, s1, CorePath(n), {MemoryDest});
    }
  }

  /** `ensureMemoryCoreFiles` finishes exactly when every core file it must
      copy has a template. */
  lemma EnsureMemoryCoreFilesOutcome(s: Snapshot, template: map<string, string>, force: bool)
    ensures EnsureMemoryCoreFilesSpec(s, template, force).0 <==>
      forall n :: n in CoreFiles && NeedsCopy(s, n, force) ==> n in template
  {
    CoreFilesWellFormed();
    MemoryDirKeepsNeeds(s, force);
    CoreFoldOutcome(EnsureDir(s, MemoryDest), template, force, CoreFiles);
  }

  /** After a finished `ensureMemoryCoreFiles`, each core file that was
      absent before the call, or every one when `force` is on, holds its
      template. */
  lemma EnsureMemoryCoreFilesWrites(s: Snapshot, template: map<string, string>, force: bool)
    ensures var (ok, t) := EnsureMemoryCoreFilesSpec(s, template, force);
      ok ==> forall n :: n in CoreFiles && NeedsCopy(s, n, force) ==>
        CorePath(n) in t.files && n in template && t.files[CorePath(n)] == template[n]
  {
    CoreFilesWellFormed();
    MemoryDirKeepsNeeds(s, force);
    CoreFoldWrites(EnsureDir(s, MemoryDest), template, force, CoreFiles);
  }

  /** A core file that already existed is left as it was without `force`. */
  lemma EnsureMemoryCoreFilesKeeps(s: Snapshot, template: map<string, string>, force: bool)
    ensures var (_, t) := EnsureMemoryCoreFilesSpec(s, template, force);
      forall n :: n in CoreFiles && !NeedsCopy(s, n, force) ==>
        (CorePath(n) in t.files <==> CorePath(n) in s.files) &&
        (CorePath(n) in s.files ==> t.files[CorePath(n)] == s.files[CorePath(n)])
  {
    CoreFilesWellFormed();
    MemoryDirKeepsNeeds(s, force);
    CoreFoldKeeps(EnsureDir(s, MemoryDest), template, force, CoreFiles);
  }

  /** After a finished `ensureMemoryCoreFiles` all twelve core files exist. */
  lemma EnsureMemoryCoreFilesComplete(s: Snapshot, template: map<string, string>, force: bool)
    ensures var (ok, t) := EnsureMemoryCoreFilesSpec(s, template, force);
      ok ==> forall n :: n in CoreFiles ==> Exists(t, CorePath(n))
  {
    EnsureMemoryCoreFilesWrites(s, template, force);
    CoreFoldFrame(EnsureDir(s, MemoryDest), template, force, CoreFiles);
    var (ok, t) := EnsureMemoryCoreFilesSpec(s, template, force);
    forall n | n in CoreFiles && !NeedsCopy(s, n, force)
      ensures Exists(t, CorePath(n))
    {
      ExistsMonotone(s, t, CorePath(n));
    }
  }

  /** `ensureMemoryCoreFiles` adds the memory-bank directory and otherwise
      touches only the core files' paths, never removing a file. */
  lemma EnsureMemoryCoreFilesFrame(s: Snapshot, template: map<string, string>, force: bool)
    ensures var (_, t) := EnsureMemoryCoreFilesSpec(s, template, force);
      && t.dirs == s.dirs + {MemoryDest}
      && s.files.Keys <= t.files.Keys
      && (forall p :: p !in CorePaths(CoreFiles) && p != MemoryDest ==> Unchanged(s, t, p))
  {
    CoreFoldFrame(EnsureDir(s, MemoryDest), template, force, CoreFiles);
  }

  // ---------------------------------------------------------------- init

  /** `init`: install the rules, then, unless `skipMemory`, the memory-bank
      core files. The flag is false when a copy failed, which ends the
      process with status 1 after whatever was already written. */
  function InitSpec(s: Snapshot, templates: Templates, force: bool, skipMemory: bool): (bool, Snapshot)
  {
    var (_, s1) := CopyDirectorySpec(s, templates.rules, RulesDest, force);
    if skipMemory then (true, s1)
    else EnsureMemoryCoreFilesSpec(s1, templates.memory, force)
  }

  /** `p` is the memory-bank directory or lies inside it. */
  predicate InMemoryBank(p: string) {
    p == MemoryDest || Below(MemoryDest, p)
  }

  /** Installing the rules touches nothing in the memory bank: every path
      there keeps its file, its directory and whether it exists. */
  lemma {:induction false} RulesAvoidMemoryBank(s: Snapshot, rules: map<string, string>, force: bool)
    ensures var (_, t) := CopyDirectorySpec(s, rules, RulesDest, force);
      forall p :: InMemoryBank(p) ==> Unchanged(s, t, p) && Exists(t, p) == Exists(s, p)
  {
    CopyDirectoryShape(s, rules, RulesDest, force);
    CopyDirectoryFrame(s, rules, RulesDest, force);
    var (_, t) := CopyDirectorySpec(s, rules, RulesDest, force);
    var fp := CopyFootprint(rules, RulesDest);
    forall a | a in fp ensures |a| > 0 && (a[0] == '.' || a[0] == '/') {
      if a != Dirname(RulesDest) && a != RulesDest {
        var rel :| rel in rules && a == PathJoin(RulesDest, rel);
        assert a[..|RulesDest|] == RulesDest;
        assert a[0] == RulesDest[0];
      } else if a == Dirname(RulesDest) && a != "." && a != "/" {
        assert a[0] == RulesDest[0];
      }
    }
    forall p | InMemoryBank(p)
      ensures Unchanged(s, t, p) && Exists(t, p) == Exists(s, p)
    {
      assert p[0] == 'm' by {
        if p != MemoryDest {
          assert p[0] == (MemoryDest + "/")[0];
        }
      }
      forall a | a in fp ensures a != p && !Below(p, a) {
        if |p + "/"| <= |a| {
          assert (p + "/")[0] == p[0];
        }
      }
      assert s.files.Keys + s.dirs <= t.files.Keys + t.dirs;
      assert t.files.Keys + t.dirs <= s.files.Keys + s.dirs + fp;
      ExistsIgnoresUnrelated(s, t, p, fp);
    }
  }

  /** `init` with `skipMemory` installs the rules and leaves the memory bank
      exactly as it was; in particular it never creates it. */
  lemma SkipMemoryLeavesMemoryBank(s: Snapshot, templates: Templates, force: bool)
    ensures var (ok, t) := InitSpec(s, templates, force, true);
      && ok
      && (forall p :: InMemoryBank(p) ==> Unchanged(s, t, p))
      && Exists(t, MemoryDest) == Exists(s, MemoryDest)
  {
    RulesAvoidMemoryBank(s, templates.rules, force);
  }

  /** `init` without `skipMemory` succeeds exactly when every core file that
      was absent before it ran, or every core file under `force`, has a
      template: installing the rules first changes no core file's need. */
  lemma InitOutcome(s: Snapshot, templates: Templates, force: bool)
    ensures InitSpec(s, templates, force, false).0 <==>
      forall n :: n in CoreFiles && NeedsCopy(s, n, force) ==> n in templates.memory
  {
    RulesAvoidMemoryBank(s, templates.rules, force);
    var (_, s1) := CopyDirectorySpec(s, templates.rules, RulesDest, force);
    EnsureMemoryCoreFilesOutcome(s1, templates.memory, force);
    forall n ensures NeedsCopy(s1, n, force) == NeedsCopy(s, n, force) {
      assert InMemoryBank(CorePath(n));
    }
  }

  /** The rules are installed before the memory bank, and a failing
      memory-bank copy does not undo them: outside the memory bank the
      result is what installing the rules produced. */
  lemma RulesSurviveMemoryFailure(s: Snapshot, templates: Templates, force: bool)
    ensures var (_, s1) := CopyDirectorySpec(s, templates.rules, RulesDest, force);
      var (_, t) := InitSpec(s, templates, force, false);
      forall p :: !InMemoryBank(p) ==> Unchanged(s1, t, p)
  {
    var (_, s1) := CopyDirectorySpec(s, templates.rules, RulesDest, force);
    EnsureMemoryCoreFilesFrame(s1, templates.memory, force);
    forall n | n in CoreFiles ensures InMemoryBank(CorePath(n)) { }
  }
}
