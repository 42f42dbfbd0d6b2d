/** The parts of `os.path` that shape a search result: `join` builds a
    result's full path and `splitext` gives its extension. Both follow the
    POSIX flavour of `os.path` (separator `/`). */
module Paths {
  import opened Strings

  /** `s.rfind(c)`: the index of the last `c` in `s`, or -1 when there is none. */
  function LastIndexOf(s: string, c: char): (i: int)
    ensures -1 <= i < |s|
    ensures i >= 0 ==> s[i] == c
    ensures forall k :: i < k < |s| ==> s[k] != c
  {
    if s == [] then -1
    else if s[|s| - 1] == c then |s| - 1
    else LastIndexOf(s[..|s| - 1], c)
  }

  /** `os.path.join(dir, name)`: an absolute `name` replaces `dir`; otherwise a
      `/` is put between the two unless `dir` is empty or already ends in one.
      The result always ends with `name`, and starts with `dir` unless `name`
      is absolute. */
  function PathJoin(dir: string, name: string): (r: string)
    ensures EndsWith(r, name)
    ensures (name == [] || name[0] != '/') ==> |dir| <= |r| && r[..|dir|] == dir
  {
    if name != [] && name[0] == '/' then name
    else if dir == [] || dir[|dir| - 1] == '/' then dir + name
    else dir + "/" + name
  }

  /** `os.path.basename(path)`: what follows the last `/`. */
  function BaseName(path: string): (r: string)
    ensures EndsWith(path, r) && '/' !in r
  {
    var i := LastIndexOf(path, '/');
    var r := path[i + 1..];
    forall k | 0 <= k < |r| ensures r[k] != '/' {
      assert r[k] == path[i + 1 + k];
    }
    r
  }

  lemma LastSlashBefore(front: string, name: string)
    requires front != [] && front[|front| - 1] == '/'
    requires '/' !in name
    ensures LastIndexOf(front + name, '/') == |front| - 1
  {
    var s := front + name;
    var i := LastIndexOf(s, '/');
    assert s[|front| - 1] == '/';
    forall k | |front| <= k < |s| ensures s[k] != '/' {
      assert s[k] == name[k - |front|];
    }
  }

  /** A plain file name survives `join` followed by `basename`: the file name
      column of a result and the last component of its path agree. */
  lemma BaseNameOfJoin(dir: string, name: string)
    requires '/' !in name
    ensures BaseName(PathJoin(dir, name)) == name
  {
    if dir == [] {
      assert PathJoin(dir, name) == name;
      assert forall k :: 0 <= k < |name| ==> name[k] != '/';
    } else if dir[|dir| - 1] == '/' {
      LastSlashBefore(dir, name);
      assert (dir + name)[|dir|..] == name;
    } else {
      LastSlashBefore(dir + "/", name);
      assert dir + "/" + name == (dir + "/") + name;
      assert (dir + "/" + name)[|dir| + 1..] == name;
    }
  }

  /** A stretch at the end of `s` past every `c` holds no `c`. */
  lemma NoneFrom(s: string, i: nat, c: char)
    requires i <= |s|
    requires forall k :: i <= k < |s| ==> s[k] != c
    ensures c !in s[i..]
  {
    assert forall m :: 0 <= m < |s[i..]| ==> s[i..][m] == s[i + m];
  }

  /** The test `splitext` makes before it cuts at the last `.`: the dot lies
      in the last path component, and a character other than `.` precedes it
      there. */
  predicate NamedDot(path: string, sep: int, dot: int)
    requires -1 <= sep && dot < |path|
  {
    dot > sep && exists k :: sep < k < dot && path[k] != '.'
  }

  /** `os.path.splitext(path)[1]`: from the last `.` of the last path
      component to the end, provided a character other than `.` comes before
      that dot in the component (so `.bashrc` and `..x` have no extension);
      otherwise empty. */
  function Extension(path: string): (ext: string)
    ensures EndsWith(path, ext)
    ensures ext == [] || (ext[0] == '.' && '.' !in ext[1..] && '/' !in ext)
  {
    var sep := LastIndexOf(path, '/');
    var dot := LastIndexOf(path, '.');
    if NamedDot(path, sep, dot) then
      NoneFrom(path, dot + 1, '.');
      NoneFrom(path, dot, '/');
      assert path[dot..][1..] == path[dot + 1..];
      path[dot..]
    else []
  }

  /** A path has an extension exactly when its last component holds a dot
      with some character other than a dot before it. */
  lemma ExtensionExists(path: string)
    ensures Extension(path) != [] <==>
      exists i, j :: 0 <= i < j < |path| && path[i] != '.' && path[j] == '.' && '/' !in path[i..]
  {
    var sep := LastIndexOf(path, '/');
    var dot := LastIndexOf(path, '.');
    if NamedDot(path, sep, dot) {
      var k :| sep < k < dot && path[k] != '.';
      NoneFrom(path, k, '/');
    }
    if exists i, j :: 0 <= i < j < |path| && path[i] != '.' && path[j] == '.' && '/' !in path[i..] {
      var i, j :| 0 <= i < j < |path| && path[i] != '.' && path[j] == '.' && '/' !in path[i..];
      forall m | i <= m < |path| ensures path[m] != '/' {
        assert path[i..][m - i] == path[m];
      }
      assert sep < i < dot;
    }
  }
}
