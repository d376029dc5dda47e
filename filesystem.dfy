/**
 * The part of the working directory the tool touches, as a flat map from
 * path to file content plus the directories it created. Paths are relative
 * to the working directory and use `/`.
 */
module FileSystem {
  import opened Wrappers

  /** File contents by path, and the directories created explicitly. A
      directory also exists when a file or directory lies below it. */
  datatype Snapshot = Snapshot(files: map<string, string>, dirs: set<string>)

  /** `q` lies strictly below the directory `p`. */
  predicate Below(p: string, q: string) {
    p + "/" <= q
  }

  /** `fs.pathExists(p)`: a file, a created directory, or an ancestor of one. */
  predicate Exists(s: Snapshot, p: string) {
    || p in s.files
    || p in s.dirs
    || (exists q :: q in s.files && Below(p, q))
    || (exists q :: q in s.dirs && Below(p, q))
  }

  /** `path.join(dir, name)` for a relative name. */
  function PathJoin(dir: string, name: string): (r: string)
    ensures |r| == |dir| + 1 + |name| && r[..|dir|] == dir && r[|dir|] == '/' && r[|dir| + 1..] == name
  {
    dir + "/" + name
  }

  /** The index of the last `/` among the first `n` characters of `p`. */
  function LastSlashBefore(p: string, n: nat): (r: Option<nat>)
    requires n <= |p|
    ensures r.Some? ==> r.value < n && p[r.value] == '/'
    ensures r.Some? ==> forall j :: r.value < j < n ==> p[j] != '/'
    ensures r.None? ==> forall j :: 0 <= j < n ==> p[j] != '/'
  {
    if n == 0 then None
    else if p[n - 1] == '/' then Some(n - 1)
    else LastSlashBefore(p, n - 1)
  }

  /** `path.dirname(p)` for a path without a trailing slash: everything
      before the last `/`, `/` for a top-level absolute path, `.` when there
      is no `/`. It is never the path itself unless that is `.` or `/`. */
  function Dirname(p: string): (r: string)
    ensures r == "." || r == "/" || (0 < |r| < |p| && r == p[..|r|])
    ensures '/' !in p ==> r == "."
    ensures forall k :: 0 < k < |p| && p[k] == '/' && '/' !in p[k + 1..] ==> r == p[..k]
  {
    match LastSlashBefore(p, |p|)
    case None => "."
    case Some(k) => if k == 0 then "/" else p[..k]
  }

  /** `path.dirname` undoes `path.join` for a relative directory and a
      plain file name. */
  lemma DirnameOfJoin(dir: string, name: string)
    requires dir != "" && dir[0] != '/' && '/' !in name
    ensures Dirname(PathJoin(dir, name)) == dir
  {
    var p := PathJoin(dir, name);
    assert p[|dir|] == '/';
    forall j | |dir| < j < |p| ensures p[j] != '/' {
      assert p[j] == name[j - |dir| - 1];
    }
    assert p[|dir| + 1..] == name;
  }

  /** `fs.ensureDir(d)`. */
  function EnsureDir(s: Snapshot, d: string): Snapshot {
    s.(dirs := s.dirs + {d})
  }

  /** The content of `p`, empty when there is no such file. */
  function Content(s: Snapshot, p: string): string {
    if p in s.files then s.files[p] else ""
  }

  /** `fs.appendFile(p, text)`: creates the file when it is missing. */
  function AppendTo(s: Snapshot, p: string, text: string): Snapshot {
    s.(files := s.files[p := Content(s, p) + text])
  }

  /** `fs.ensureFile(p)`: creates an empty file when there is none. */
  function EnsureFile(s: Snapshot, p: string): Snapshot {
    if p in s.files then s else s.(files := s.files[p := ""])
  }

  /** `t` agrees with `s` on path `p`: same file or same absence, and the
      same explicit directory. */
  predicate Unchanged(s: Snapshot, t: Snapshot, p: string) {
    (p in s.files <==> p in t.files)
    && (p in s.files ==> s.files[p] == t.files[p])
    && (p in s.dirs <==> p in t.dirs)
  }

  /** Adding paths none of which is `p` or lies below it does not change
      whether `p` exists. */
  lemma ExistsIgnoresUnrelated(s: Snapshot, t: Snapshot, p: string, added: set<string>)
    requires s.files.Keys + s.dirs <= t.files.Keys + t.dirs <= s.files.Keys + s.dirs + added
    requires forall a :: a in added ==> a != p && !Below(p, a)
    ensures Exists(t, p) == Exists(s, p)
  {
    if Exists(t, p) {
      if q :| q in t.files && Below(p, q) {
        assert q in s.files || q in s.dirs;
      } else if q :| q in t.dirs && Below(p, q) {
        assert q in s.files || q in s.dirs;
      }
    }
    if Exists(s, p) {
      if q :| q in s.files && Below(p, q) {
        assert q in t.files || q in t.dirs;
      } else if q :| q in s.dirs && Below(p, q) {
        assert q in t.files || q in t.dirs;
      }
    }
  }
}
