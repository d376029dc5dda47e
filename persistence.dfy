/**
 * The write mode of `assessDiff`: the report is appended to
 * `memory-bank/assessment.md`, and the changed spec files, if any, to the
 * index in `memory-bank/specSources.md`.
 */
module Persistence {
  import opened FileSystem
  import opened Installer
  import opened Report

  const AssessmentPath: string := PathJoin(MemoryDest, "assessment.md")
  const SpecIndexPath: string := PathJoin(MemoryDest, "specSources.md")

  /** Put between an earlier assessment and the next one. */
  const Separator: string := "\n\n---\n"

  /** What the write mode leaves behind, starting from `s`. */
  function PersistSpec(s: Snapshot, report: string, specs: seq<string>): Snapshot
  {
    var s1 := EnsureDir(s, MemoryDest);
    var header := if Exists(s1, AssessmentPath) then Separator else "";
    var s2 := AppendTo(s1, AssessmentPath, header + report);
    if |specs| == 0 then s2
    else
      var s3 := EnsureFile(s2, SpecIndexPath);
      AppendTo(s3, SpecIndexPath, SpecIndexBlock(Content(s3, SpecIndexPath), specs))
  }

  lemma PathsDiffer()
    ensures AssessmentPath != SpecIndexPath
    ensures AssessmentPath != MemoryDest && !Below(AssessmentPath, MemoryDest)
  {
    assert AssessmentPath[12] != SpecIndexPath[12];
  }

  /** Creating the memory-bank directory does not make the assessment exist. */
  lemma MemoryDirKeepsAssessment(s: Snapshot)
    ensures Exists(EnsureDir(s, MemoryDest), AssessmentPath) == Exists(s, AssessmentPath)
  {
    PathsDiffer();
    var s1 := EnsureDir(s, MemoryDest);
    assert s1.files.Keys + s1.dirs == s.files.Keys + s.dirs + {MemoryDest};
    ExistsIgnoresUnrelated(s, s1, AssessmentPath, {MemoryDest});
  }

  /** The assessment file ends up as what it held before, the separator when
      a file was already there (even an empty one), and the new report. */
  lemma PersistAssessment(s: Snapshot, report: string, specs: seq<string>)
    ensures var t := PersistSpec(s, report, specs);
      AssessmentPath in t.files &&
      t.files[AssessmentPath] ==
        Content(s, AssessmentPath) + (if Exists(s, AssessmentPath) then Separator else "") + report
  {
    PathsDiffer();
    MemoryDirKeepsAssessment(s);
  }

  /** The spec index is untouched when no spec file changed; otherwise it
      gains the block listing them, headed by the index title when it was
      missing or empty. */
  lemma PersistSpecIndex(s: Snapshot, report: string, specs: seq<string>)
    ensures var t := PersistSpec(s, report, specs);
      && (|specs| == 0 ==> Unchanged(s, t, SpecIndexPath))
      && (|specs| > 0 ==>
            && SpecIndexPath in t.files
            && t.files[SpecIndexPath] ==
                 Content(s, SpecIndexPath) + SpecIndexBlock(Content(s, SpecIndexPath), specs))
  {
    PathsDiffer();
    assert SpecIndexPath != MemoryDest by {
      assert |SpecIndexPath| != |MemoryDest|;
    }
  }

  /** Writing only appends: every file keeps its old content as a prefix,
      no file other than the two memory-bank files changes, and the only new
      directory is the memory bank. */
  lemma PersistAppendOnly(s: Snapshot, report: string, specs: seq<string>)
    ensures var t := PersistSpec(s, report, specs);
      && t.dirs == s.dirs + {MemoryDest}
      && (forall p :: p in s.files ==> p in t.files && s.files[p] <= t.files[p])
      && (forall p :: p != AssessmentPath && p != SpecIndexPath ==>
            (p in t.files <==> p in s.files) && (p in s.files ==> t.files[p] == s.files[p]))
  {
    PathsDiffer();
  }

  /** Two writes in a row keep both reports, in order, with the separator
      between them. */
  lemma {:induction false} PersistTwice(s: Snapshot, r1: string, specs1: seq<string>, r2: string, specs2: seq<string>)
    ensures var t := PersistSpec(PersistSpec(s, r1, specs1), r2, specs2);
      t.files[AssessmentPath] ==
        Content(s, AssessmentPath) + (if Exists(s, AssessmentPath) then Separator else "")
          + r1 + Separator + r2
  {
    var t1 := PersistSpec(s, r1, specs1);
    PersistAssessment(s, r1, specs1);
    PersistAssessment(t1, r2, specs2);
    assert Exists(t1, AssessmentPath);
  }
}
