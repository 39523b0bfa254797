/**
 * The `posixpath` functions used to name things: the report number is the part
 * of a report's file name after its last `_`, and the epoch is the name of the
 * directory that directly contains the report.
 */
module Paths {

  import opened Text

  /** `os.path.basename`: everything after the last `/`. */
  function Basename(p: string): string {
    AfterLast(p, '/')
  }

  predicate AllSlashes(s: string) { forall i :: 0 <= i < |s| ==> s[i] == '/' }

  /** `s.rstrip("/")` */
  function StripTrailingSlashes(s: string): (r: string)
    ensures |r| <= |s| && r == s[..|r|] && (r == [] || r[|r| - 1] != '/')
    ensures AllSlashes(s[|r|..])
    decreases |s|
  {
    if s != [] && s[|s| - 1] == '/' then
      var t := StripTrailingSlashes(s[..|s| - 1]);
      assert s[|t|..] == s[..|s| - 1][|t|..] + ['/'];
      t
    else s
  }

  /**
   * `os.path.dirname`: everything up to and including the last `/`, with the
   * trailing slashes removed unless the head consists of slashes only.
   */
  function Dirname(p: string): string {
    var head := p[..LastIndex(p, '/') + 1];
    if head != [] && !AllSlashes(head) then StripTrailingSlashes(head) else head
  }

  /**
   * `os.path.normpath` on a `dirname` result: the empty path becomes ".". The
   * other rewrites of `normpath` (repeated separators, "." and ".." components)
   * leave the last component, which is all `Epoch` reads, alone on the paths
   * `glob` returns under an absolute root.
   */
  function NormPath(p: string): string {
    if p == [] then "." else p
  }

  /** `os.path.basename(file).split("_")[-1]` */
  function ReportNumber(file: string): string {
    AfterLast(Basename(file), '_')
  }

  /**
   * `r` is the last field of `s` split at `c1` and at `c2`: a suffix of `s`
   * holding neither, and either all of `s` or preceded by one of them.
   */
  predicate LastField(s: string, r: string, c1: char, c2: char) {
    && |r| <= |s| && r == s[|s| - |r|..] && c1 !in r && c2 !in r
    && (|r| < |s| ==> s[|s| - |r| - 1] == c1 || s[|s| - |r| - 1] == c2)
  }

  /** The report number is the last field of the path split at `/` and at `_`. */
  lemma ReportNumberIsLastField(file: string)
    ensures LastField(file, ReportNumber(file), '/', '_')
  {
    var b := Basename(file);
    AfterLastIsLastField(file, '/');
    AfterLastIsLastField(b, '_');
    LastFieldOfLastField(file, b, AfterLast(b, '_'), '/', '_');
  }

  lemma AfterLastIsLastField(s: string, c: char)
    ensures LastField(s, AfterLast(s, c), c, c)
  {
  }

  /**
   * The last field at `c2` of the last field at `c1` of `s` is the last field
   * of `s` split at both.
   */
  lemma LastFieldOfLastField(s: string, b: string, r: string, c1: char, c2: char)
    requires LastField(s, b, c1, c1) && LastField(b, r, c2, c2)
    ensures LastField(s, r, c1, c2)
  {
    forall k | 0 <= k < |r| ensures r[k] == s[|s| - |r| + k] && r[k] != c1 {
      assert r[k] == b[|b| - |r| + k];
    }
    if |r| < |b| {
      assert s[|s| - |r| - 1] == b[|b| - |r| - 1];
    }
  }

  /** `os.path.basename(os.path.normpath(os.path.dirname(file)))` */
  function Epoch(file: string): (r: string)
    ensures '/' !in r
    ensures '/' !in file ==> r == "."
  {
    Basename(NormPath(Dirname(file)))
  }

  /**
   * For a report `dir/name`, the report number is the part of `name` after its
   * last `_`, and the epoch is the last component of `dir`.
   */
  lemma ReportPathParts(dir: string, name: string)
    requires dir != [] && dir[|dir| - 1] != '/'
    requires '/' !in name
    ensures ReportNumber(dir + "/" + name) == AfterLast(name, '_')
    ensures Epoch(dir + "/" + name) == Basename(dir)
  {
    LastSlashOfJoin(dir, name);
    var p := dir + "/" + name;
    assert p[|dir| + 1..] == name;
    DirnameOfJoin(dir, name);
  }

  /** In `dir/name` with no `/` in `name`, the last `/` is the joining one. */
  lemma LastSlashOfJoin(dir: string, name: string)
    requires '/' !in name
    ensures LastIndex(dir + "/" + name, '/') == |dir|
  {
    LastIndexSkips(dir + "/", name, '/');
  }

  /** Characters other than `c` appended at the end do not move its last occurrence. */
  lemma {:induction false} LastIndexSkips(s: string, t: string, c: char)
    requires c !in t
    ensures LastIndex(s + t, c) == LastIndex(s, c)
    decreases |t|
  {
    if t == [] {
      assert s + t == s;
    } else {
      var u := t[..|t| - 1];
      assert (s + t)[..|s + t| - 1] == s + u;
      assert (s + t)[|s + t| - 1] == t[|t| - 1];
      LastIndexSkips(s, u, c);
    }
  }

  lemma DirnameOfJoin(dir: string, name: string)
    requires dir != [] && dir[|dir| - 1] != '/'
    requires LastIndex(dir + "/" + name, '/') == |dir|
    ensures Dirname(dir + "/" + name) == dir
  {
    var head := dir + "/";
    assert (dir + "/" + name)[..|dir| + 1] == head;
    assert head[|dir| - 1] != '/';
    assert head[..|head| - 1] == dir;
  }
}
