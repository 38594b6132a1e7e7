/** Conversion between a file path relative to a package root and its dotted
    "class" identifier (pyast.go, `PathToClass` and `ClassToPath`). */
module Codec {
  import opened GoStrings
  import opened Wrappers

  datatype CodecError = NotPythonFile(path: string)

  /** `filepath.Join(root, rel)` for a clean root and a clean relative path. */
  function Join(root: string, rel: string): string {
    root + "/" + rel
  }

  /** A path ending in ".py" maps to the same text with every '/' turned into '.'
      and the ".py" suffix dropped; `__init__` stays as the last segment. Any other
      path is refused. */
  function PathToClass(path: string): (r: Result<string, CodecError>)
    ensures r.Err? <==> !HasSuffix(path, ".py")
    ensures r.Err? ==> r.error == NotPythonFile(path)
    ensures r.Ok? ==> |r.value| == |path| - 3 && '/' !in r.value
    ensures r.Ok? ==> forall i :: 0 <= i < |r.value| ==> r.value[i] == (if path[i] == '/' then '.' else path[i])
  {
    if !HasSuffix(path, ".py") then
      Err(NotPythonFile(path))
    else
      var x := ReplaceChar(path, '/', '.');
      var cls := x[..|x| - 3];
      assert forall i :: 0 <= i < |cls| ==> cls[i] != '/';
      Ok(cls)
  }

  /** The directory form of a class: every '.' becomes '/'. */
  function Base(cls: string): string {
    ReplaceChar(cls, '.', '/')
  }

  /** Maps a class back to a file under `root`: the package's `__init__.py` when
      `isDir` reports the cls's directory form as a directory, otherwise the
      module file. `isDir` stands for `file.DirExists`, which the code applies to
      the directory form alone, so it is resolved against the working directory
      rather than against `root`. */
  function ClassToPath(root: string, cls: string, isDir: string -> bool): (r: string)
    ensures HasPrefix(r, root + "/") && HasSuffix(r, ".py")
    ensures isDir(Base(cls)) <==> HasSuffix(r, "/__init__.py") && |r| == |root| + |cls| + 13
    ensures |r| == |root| + 1 + |cls| + (if isDir(Base(cls)) then 12 else 3)
    ensures forall i :: 0 <= i < |cls| ==> r[|root| + 1 + i] == (if cls[i] == '.' then '/' else cls[i])
  {
    var base := Base(cls);
    if isDir(base) then Join(root, base + "/__init__.py") else Join(root, base + ".py")
  }

  /** Path -> cls -> path is the identity for a ".py" path whose only '.' is the
      one of its suffix, as long as its directory form is not a directory. */
  lemma PathRoundTrip(root: string, path: string, isDir: string -> bool)
    requires HasSuffix(path, ".py")
    requires '.' !in path[..|path| - 3]
    requires !isDir(path[..|path| - 3])
    ensures PathToClass(path).Ok?
    ensures ClassToPath(root, PathToClass(path).value, isDir) == Join(root, path)
  {
    var cls := PathToClass(path).value;
    var stem := path[..|path| - 3];
    assert Base(cls) == stem by {
      forall i | 0 <= i < |stem|
        ensures Base(cls)[i] == stem[i]
      {
        assert stem[i] != '.';
      }
    }
    assert path == stem + ".py";
  }

  /** The directory form of a class followed by a file suffix maps back to the class. */
  lemma ClassOfBase(cls: string, suffix: string, tail: string)
    requires '/' !in cls
    requires HasSuffix(suffix, ".py")
    requires ReplaceChar(suffix, '/', '.') == tail + ".py"
    ensures PathToClass(Base(cls) + suffix) == Ok(cls + tail)
  {
    var rel := Base(cls) + suffix;
    ReplaceCharAppend(Base(cls), suffix, '/', '.');
    ReplaceCharInverse(cls, '.', '/');
    var x := ReplaceChar(rel, '/', '.');
    assert x == (cls + tail) + ".py";
    assert rel[|rel| - 3..] == suffix[|suffix| - 3..];
    assert x[..|x| - 3] == cls + tail;
  }

  /** Class -> path -> class gives back the class, with the `.__init__` suffix put
      back exactly when the class named a directory. */
  lemma ClassRoundTrip(root: string, cls: string, isDir: string -> bool)
    requires '/' !in cls
    ensures var p := ClassToPath(root, cls, isDir);
            PathToClass(p[|root| + 1..]) == Ok(if isDir(Base(cls)) then cls + ".__init__" else cls)
  {
    var base := Base(cls);
    var p := ClassToPath(root, cls, isDir);
    if isDir(base) {
      assert p[|root| + 1..] == base + "/__init__.py";
      assert ReplaceChar("/__init__.py", '/', '.') == ".__init__" + ".py" by {
        ReplaceCharAppend("/", "__init__.py", '/', '.');
        ReplaceCharAbsent("__init__.py", '/', '.');
      }
      ClassOfBase(cls, "/__init__.py", ".__init__");
    } else {
      assert p[|root| + 1..] == base + ".py";
      assert ReplaceChar(".py", '/', '.') == "" + ".py" by {
        ReplaceCharAbsent(".py", '/', '.');
      }
      ClassOfBase(cls, ".py", "");
      assert cls + "" == cls;
    }
  }

  /** A '.' inside a directory name is indistinguishable from a separator: two
      different paths map to the same cls. */
  lemma DottedDirectoryCollides()
    ensures PathToClass("a.b/c.py") == PathToClass("a/b/c.py") == Ok("a.b.c")
  {
    var r1 := PathToClass("a.b/c.py").value;
    var r2 := PathToClass("a/b/c.py").value;
    assert |r1| == 5 && r1[0] == 'a' && r1[1] == '.' && r1[2] == 'b' && r1[3] == '.' && r1[4] == 'c';
    assert |r2| == 5 && r2[0] == 'a' && r2[1] == '.' && r2[2] == 'b' && r2[3] == '.' && r2[4] == 'c';
    assert r1 == "a.b.c" && r2 == "a.b.c";
  }
}
