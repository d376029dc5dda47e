/**
 * The working directory the commands change in place. Each method performs
 * the source's steps on the fields and is proved to end in the state the
 * matching function of Installer or Persistence describes; the properties
 * proved about those functions therefore hold for the methods.
 */
module Workspace {
  import opened Wrappers
  import opened FileSystem
  import opened Installer
  import opened Persistence
  import opened Categorizer
  import opened Report
  import opened Assess

  class Workspace {
    var files: map<string, string>
    var dirs: set<string>

    function State(): Snapshot
      reads this
    {
      Snapshot(files, dirs)
    }

    constructor (s: Snapshot)
      ensures State() == s
    {
      files := s.files;
      dirs := s.dirs;
    }

    /** `fs.ensureDir(d)`. */
    method EnsureDirectory(d: string)
      modifies this
      ensures State() == EnsureDir(old(State()), d)
    {
      dirs := dirs + {d};
    }

    /** `fs.appendFile(p, text)`. */
    method AppendFile(p: string, text: string)
      modifies this
      ensures State() == AppendTo(old(State()), p, text)
    {
      var current := if p in files then files[p] else "";
      files := files[p := current + text];
    }

    /** `copyDirectory({source, destination, force})`, the template tree
        given by its files; returns `created`. */
    method CopyDirectory(tree: map<string, string>, dest: string, force: bool) returns (created: bool)
      modifies this
      ensures (created, State()) == CopyDirectorySpec(old(State()), tree, dest, force)
    {
      EnsureDirectory(Dirname(dest));
      var present := Exists(State(), dest);
      if present && !force {
        files := files + CopiedFiles(State(), tree, dest, true);
        return false;
      }
      files := files + CopiedFiles(State(), tree, dest, false);
      dirs := dirs + {dest};
      return true;
    }

    /** `ensureMemoryCoreFiles(force)`: the loop over the twelve core files.
        Returns false when a copy fails for a missing template; the files
        copied before that stay. */
    method EnsureMemoryCoreFiles(template: map<string, string>, force: bool) returns (ok: bool)
      modifies this
      ensures (ok, State()) == EnsureMemoryCoreFilesSpec(old(State()), template, force)
    {
      EnsureDirectory(MemoryDest);
      ghost var start := State();
      var i := 0;
      while i < |CoreFiles|
        invariant 0 <= i <= |CoreFiles|
        invariant CoreFold(start, template, force, CoreFiles) == CoreFold(State(), template, force, CoreFiles[i..])
      {
        var name := CoreFiles[i];
        assert CoreFiles[i..][0] == name && CoreFiles[i..][1..] == CoreFiles[i + 1..];
        var present := Exists(State(), CorePath(name));
        if !present || force {
          if name !in template {
            return false;
          }
          files := files[CorePath(name) := template[name]];
        }
        i := i + 1;
      }
      return true;
    }

    /** `init({force, skipMemory})`: rules first, then the memory bank unless
        skipped. Returns false when the process would exit with status 1. */
    method Init(templates: Templates, force: bool, skipMemory: bool) returns (ok: bool)
      modifies this
      ensures (ok, State()) == InitSpec(old(State()), templates, force, skipMemory)
    {
      var _ := CopyDirectory(templates.rules, RulesDest, force);
      if skipMemory {
        return true;
      }
      ok := EnsureMemoryCoreFiles(templates.memory, force);
    }

    /** The write branch of `assessDiff`. */
    method PersistReport(report: string, specs: seq<string>)
      modifies this
      ensures State() == PersistSpec(old(State()), report, specs)
    {
      EnsureDirectory(MemoryDest);
      var present := Exists(State(), AssessmentPath);
      var header := if present then Separator else "";
      AppendFile(AssessmentPath, header + report);
      if |specs| > 0 {
        if SpecIndexPath !in files {
          files := files[SpecIndexPath := ""];
        }
        var existing := files[SpecIndexPath];
        AppendFile(SpecIndexPath, SpecIndexBlock(existing, specs));
      }
    }

    /** `assessDiff({baseRef, headRef, write})` of the given variant: the
        assessment, persisted when `write` is set and otherwise only
        returned for printing. A failed command writes nothing. */
    method AssessDiff(v: Variant, baseRef: Option<string>, headRef: Option<string>, write: bool, git: Git)
      returns (r: Result<Assessment, AssessError>)
      modifies this
      ensures r == Assess.Assess(v, baseRef, headRef, git)
      ensures write && r.Success? ==> State() == PersistSpec(old(State()), r.value.report, r.value.buckets.specs)
      ensures !(write && r.Success?) ==> State() == old(State())
    {
      r := Assess.Assess(v, baseRef, headRef, git);
      if write && r.Success? {
        PersistReport(r.value.report, r.value.buckets.specs);
      }
    }
  }
}
