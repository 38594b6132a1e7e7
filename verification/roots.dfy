/** Package-root discovery (pyast.go, `CalculatePythonRoots`): from a file's
    directory, climb while the directory holds an `__init__.py`. The file
    system is seen through two oracles: `hasInit(d)` for
    `file.FileExists(filepath.Join(d, "__init__.py"))` and `dirExists(d)` for
    `file.DirExists(d)`. */
module Roots {
  import opened GoStrings
  import opened Wrappers

  datatype RootError =
    | MissingParent(dir: string)  // line 435 ends the process
    | NoTopLevel(dir: string)     // the loop of lines 426-437 never ends

  /** `filepath.Dir` on a clean path: everything before the last '/', with the
      root "/" and the current directory "." as fixed points. */
  function Dir(p: string): (r: string)
    ensures '/' !in p ==> r == "."
    ensures '/' in p ==> exists i :: 0 <= i < |p| && p[i] == '/' && '/' !in p[i + 1..]
                                     && r == (if i == 0 then "/" else p[..i])
  {
    var i := LastIndex(p, '/');
    if i < 0 then "."
    else if i == 0 then "/"
    else p[..i]
  }

  /** A measure that every real step up decreases. */
  function Height(d: string): nat {
    if d == "/" || d == "." then 0 else |d| + 1
  }

  /** The directory `n` levels above `d`. */
  function Up(d: string, n: nat): string
    decreases n
  {
    if n == 0 then d else Up(Dir(d), n - 1)
  }

  /** The first `n` steps of the walk from `d` all happen: each directory holds an
      `__init__.py`, its parent exists and is a different directory. */
  ghost predicate Climbs(d: string, n: nat, hasInit: string -> bool, dirExists: string -> bool) {
    forall m :: 0 <= m < n ==>
      hasInit(Up(d, m)) && dirExists(Dir(Up(d, m))) && Dir(Up(d, m)) != Up(d, m)
  }

  lemma UpStep(d: string, n: nat)
    ensures Up(d, n + 1) == Dir(Up(d, n))
    decreases n
  {
    if n > 0 {
      UpStep(Dir(d), n - 1);
    }
  }

  lemma {:induction false} ClimbsStep(d: string, n: nat, hasInit: string -> bool, dirExists: string -> bool)
    requires hasInit(d) && dirExists(Dir(d)) && Dir(d) != d
    ensures Climbs(Dir(d), n, hasInit, dirExists) <==> Climbs(d, n + 1, hasInit, dirExists)
  {
    forall m | 0 <= m < n
      ensures Up(d, m + 1) == Up(Dir(d), m)
    {
    }
    if Climbs(Dir(d), n, hasInit, dirExists) {
      forall m | 0 <= m < n + 1
        ensures hasInit(Up(d, m)) && dirExists(Dir(Up(d, m))) && Dir(Up(d, m)) != Up(d, m)
      {
        if m > 0 {
          assert Up(d, m) == Up(Dir(d), m - 1);
        }
      }
    }
    if Climbs(d, n + 1, hasInit, dirExists) {
      forall m | 0 <= m < n
        ensures hasInit(Up(Dir(d), m)) && dirExists(Dir(Up(Dir(d), m))) && Dir(Up(Dir(d), m)) != Up(Dir(d), m)
      {
        assert Up(d, m + 1) == Up(Dir(d), m);
      }
    }
  }

  /** Lines 425-438 for one directory. The walk stops at the first directory
      without an `__init__.py`; a missing parent is fatal; a directory that is
      its own parent but still holds an `__init__.py` keeps the code looping,
      which is reported here as `NoTopLevel`. */
  function FindRoot(dir: string, hasInit: string -> bool, dirExists: string -> bool): (r: Result<string, RootError>)
    ensures r.Ok? ==> !hasInit(r.value)
    ensures r.Ok? ==> exists n: nat :: Climbs(dir, n, hasInit, dirExists) && r.value == Up(dir, n)
    ensures r.Err? ==> exists n: nat :: Climbs(dir, n, hasInit, dirExists) && hasInit(Up(dir, n))
                                      && (!dirExists(Dir(Up(dir, n))) || Dir(Up(dir, n)) == Up(dir, n))
    ensures r.Err? ==> (r.error.NoTopLevel? <==> dirExists(r.error.dir))
    decreases Height(dir)
  {
    if !hasInit(dir) then
      assert Climbs(dir, 0, hasInit, dirExists) && dir == Up(dir, 0);
      Ok(dir)
    else
      var up := Dir(dir);
      if !dirExists(up) then
        assert Climbs(dir, 0, hasInit, dirExists) && dir == Up(dir, 0);
        Err(MissingParent(up))
      else if up == dir then
        assert Climbs(dir, 0, hasInit, dirExists) && dir == Up(dir, 0);
        Err(NoTopLevel(up))
      else
        var r := FindRoot(up, hasInit, dirExists);
        if r.Ok? then
          ClimbFound(dir, r.value, hasInit, dirExists);
          r
        else
          ClimbStuck(dir, hasInit, dirExists);
          r
  }

  /** A root reached from the parent is reached from `dir` one step later. */
  lemma ClimbFound(dir: string, root: string, hasInit: string -> bool, dirExists: string -> bool)
    requires hasInit(dir) && dirExists(Dir(dir)) && Dir(dir) != dir
    requires exists n: nat :: Climbs(Dir(dir), n, hasInit, dirExists) && root == Up(Dir(dir), n)
    ensures exists n: nat :: Climbs(dir, n, hasInit, dirExists) && root == Up(dir, n)
  {
    var n: nat :| Climbs(Dir(dir), n, hasInit, dirExists) && root == Up(Dir(dir), n);
    ClimbsStep(dir, n, hasInit, dirExists);
    assert Up(dir, n + 1) == Up(Dir(dir), n);
    assert Climbs(dir, n + 1, hasInit, dirExists) && root == Up(dir, n + 1);
  }

  /** A walk from the parent that gets stuck gets stuck from `dir` one step later. */
  lemma ClimbStuck(dir: string, hasInit: string -> bool, dirExists: string -> bool)
    requires hasInit(dir) && dirExists(Dir(dir)) && Dir(dir) != dir
    requires exists n: nat :: Climbs(Dir(dir), n, hasInit, dirExists) && hasInit(Up(Dir(dir), n))
                              && (!dirExists(Dir(Up(Dir(dir), n))) || Dir(Up(Dir(dir), n)) == Up(Dir(dir), n))
    ensures exists n: nat :: Climbs(dir, n, hasInit, dirExists) && hasInit(Up(dir, n))
                             && (!dirExists(Dir(Up(dir, n))) || Dir(Up(dir, n)) == Up(dir, n))
  {
    var n: nat :| Climbs(Dir(dir), n, hasInit, dirExists) && hasInit(Up(Dir(dir), n))
                  && (!dirExists(Dir(Up(Dir(dir), n))) || Dir(Up(Dir(dir), n)) == Up(Dir(dir), n));
    ClimbsStep(dir, n, hasInit, dirExists);
    assert Up(dir, n + 1) == Up(Dir(dir), n);
    assert Climbs(dir, n + 1, hasInit, dirExists);
  }

  /** On an absolute path every step up stays a prefix, so the root found
      contains the directory the walk started from. */
  lemma {:induction false} RootContainsDir(dir: string, hasInit: string -> bool, dirExists: string -> bool)
    requires HasPrefix(dir, "/")
    requires FindRoot(dir, hasInit, dirExists).Ok?
    ensures HasPrefix(dir, FindRoot(dir, hasInit, dirExists).value)
    decreases Height(dir)
  {
    if hasInit(dir) {
      var up := Dir(dir);
      AbsoluteParent(dir);
      RootContainsDir(up, hasInit, dirExists);
      var root := FindRoot(dir, hasInit, dirExists).value;
      assert root == FindRoot(up, hasInit, dirExists).value;
      PrefixTrans(dir, up, root);
    }
  }

  /** The parent of an absolute path is an absolute prefix of it. */
  lemma AbsoluteParent(dir: string)
    requires HasPrefix(dir, "/")
    ensures HasPrefix(Dir(dir), "/") && HasPrefix(dir, Dir(dir))
  {
    var up := Dir(dir);
    assert dir[0] == '/';
    assert '/' in dir;
    if up == "/" {
      assert dir[..1] == "/";
    } else {
      assert up == dir[..|up|];
    }
  }

  lemma PrefixTrans(a: string, b: string, c: string)
    requires HasPrefix(a, b) && HasPrefix(b, c)
    ensures HasPrefix(a, c)
  {
    assert a[..|c|] == b[..|c|];
  }

  /** The roots each `.py` file's walk finds. `abs(p)` stands for
      `filepath.Abs(p)`, `None` when it fails. */
  ghost function FoundRoots(paths: set<string>, abs: string -> Option<string>,
                            hasInit: string -> bool, dirExists: string -> bool): set<string> {
    set p | p in paths && abs(p).Some? && FindRoot(Dir(abs(p).value), hasInit, dirExists).Ok?
      :: FindRoot(Dir(abs(p).value), hasInit, dirExists).value
  }

  /** The walk of path `p` fails. */
  ghost predicate Fails(p: string, abs: string -> Option<string>, hasInit: string -> bool, dirExists: string -> bool) {
    abs(p).Some? && FindRoot(Dir(abs(p).value), hasInit, dirExists).Err?
  }

  /** Lines 417-442. Every path is walked whatever its suffix (a missing ".py"
      is only logged); a path `filepath.Abs` refuses is skipped; the first walk
      that fails ends the process. */
  method CalculatePythonRoots(paths: set<string>, abs: string -> Option<string>,
                              hasInit: string -> bool, dirExists: string -> bool)
    returns (r: Result<set<string>, RootError>)
    ensures r.Err? <==> exists p :: p in paths && Fails(p, abs, hasInit, dirExists)
    ensures r.Err? ==> exists p :: p in paths && Fails(p, abs, hasInit, dirExists)
                                   && r.error == FindRoot(Dir(abs(p).value), hasInit, dirExists).error
    ensures r.Ok? ==> r.value == FoundRoots(paths, abs, hasInit, dirExists)
  {
    var result: set<string> := {};
    var todo := paths;
    while todo != {}
      invariant todo <= paths
      invariant forall p :: p in paths - todo ==> !Fails(p, abs, hasInit, dirExists)
      invariant result == FoundRoots(paths - todo, abs, hasInit, dirExists)
      decreases todo
    {
      var path :| path in todo;
      ghost var done := paths - todo;
      todo := todo - {path};
      assert paths - todo == done + {path};
      match abs(path)
      case None =>
        assert FoundRoots(paths - todo, abs, hasInit, dirExists) == FoundRoots(done, abs, hasInit, dirExists);
      case Some(absolutePath) =>
        var found := FindRoot(Dir(absolutePath), hasInit, dirExists);
        if found.Err? {
          return Err(found.error);
        }
        assert FoundRoots(paths - todo, abs, hasInit, dirExists) == FoundRoots(done, abs, hasInit, dirExists) + {found.value};
        result := result + {found.value};
    }
    assert paths - todo == paths;
    return Ok(result);
  }
}
