/** The reverse import graph of one package root and the dependee closure over
    it (pyast.go: `node`, `tree`, `depPair`, the fold in `BuildTree`,
    `seen.AddClass`, `getClassDependencies`, `tree.GetDependees`,
    `trees.GetDependees`). The concurrent fan-out of the code is modelled as a
    sequential worklist; its result is pinned down by reachability, so it is
    the same under every schedule. */
module Graph {
  import opened GoStrings
  import opened Wrappers
  import opened Codec
  import Classes

  /** Who imports one class. `isClass` is false only for a raw filesystem path. */
  datatype Node = Node(importers: set<string>, isClass: bool)

  /** One edge: `importerClass`'s source text references `imported`. */
  datatype DepPair = DepPair(importerClass: string, imported: string, isClass: bool)

  /** One package root and its reverse adjacency: imported class -> importers. */
  datatype Tree = Tree(root: string, nodes: map<string, Node>)

  // ---------------------------------------------------------------------------
  // Building the node map

  /** Lines 186-191 for one pair: the imported class's node is created on first
      sight, carrying that pair's `isClass`, and gains the importer. */
  function AddPair(nodes: map<string, Node>, p: DepPair): (r: map<string, Node>)
    ensures r.Keys == nodes.Keys + {p.imported}
    ensures forall c :: c in r ==>
              r[c].importers == ImportersOf(nodes, c) + (if c == p.imported then {p.importerClass} else {})
    ensures forall c :: c in nodes ==> r[c].isClass == nodes[c].isClass
    ensures p.imported !in nodes ==> r[p.imported].isClass == p.isClass
  {
    if p.imported in nodes then
      nodes[p.imported := Node(nodes[p.imported].importers + {p.importerClass}, nodes[p.imported].isClass)]
    else
      nodes[p.imported := Node({p.importerClass}, p.isClass)]
  }

  /** Pair `i` is the first one importing its class. */
  predicate IsFirst(pairs: seq<DepPair>, i: int)
    requires 0 <= i < |pairs|
  {
    forall j :: 0 <= j < i ==> pairs[j].imported != pairs[i].imported
  }

  /** The classes some pair imports. */
  function ImportedBy(pairs: seq<DepPair>): set<string> {
    set i | 0 <= i < |pairs| :: pairs[i].imported
  }

  /** The importers the pairs record for `c`. */
  function RecordedImporters(pairs: seq<DepPair>, c: string): set<string> {
    set i | 0 <= i < |pairs| && pairs[i].imported == c :: pairs[i].importerClass
  }

  lemma SnocPair(pairs: seq<DepPair>)
    requires pairs != []
    ensures var init, last := pairs[..|pairs| - 1], pairs[|pairs| - 1];
            && ImportedBy(pairs) == ImportedBy(init) + {last.imported}
            && forall c :: RecordedImporters(pairs, c)
                           == RecordedImporters(init, c) + (if c == last.imported then {last.importerClass} else {})
  {
    var init, last := pairs[..|pairs| - 1], pairs[|pairs| - 1];
    assert forall i :: 0 <= i < |init| ==> init[i] == pairs[i];
    assert ImportedBy(pairs) == ImportedBy(init) + {last.imported} by {
      assert pairs[|pairs| - 1].imported == last.imported;
    }
    forall c
      ensures RecordedImporters(pairs, c)
              == RecordedImporters(init, c) + (if c == last.imported then {last.importerClass} else {})
    {
      if c == last.imported {
        assert pairs[|pairs| - 1].importerClass in RecordedImporters(pairs, c);
      }
    }
  }

  lemma UnrecordedIsEmpty(pairs: seq<DepPair>, c: string)
    requires c !in ImportedBy(pairs)
    ensures RecordedImporters(pairs, c) == {}
  {
    assert forall i :: 0 <= i < |pairs| ==> pairs[i].imported in ImportedBy(pairs);
  }

  lemma FirstPairDecides(pairs: seq<DepPair>, before: map<string, Node>, i: int)
    requires 0 <= i < |pairs| && IsFirst(pairs, i)
    requires var init := pairs[..|pairs| - 1];
             && before.Keys == ImportedBy(init)
             && forall k :: 0 <= k < |init| && IsFirst(init, k) ==> before[init[k].imported].isClass == init[k].isClass
    ensures AddPair(before, pairs[|pairs| - 1])[pairs[i].imported].isClass == pairs[i].isClass
  {
    var init := pairs[..|pairs| - 1];
    var last := pairs[|pairs| - 1];
    if i < |init| {
      assert init[i] == pairs[i];
      assert IsFirst(init, i);
      assert init[i].imported in before;
    } else {
      forall k | 0 <= k < |init|
        ensures init[k].imported != last.imported
      {
        assert pairs[k] == init[k];
      }
      assert last.imported !in ImportedBy(init);
    }
  }

  /** The fold of lines 184-192 over the pairs in arrival order. The keys are
      exactly the imported classes, each key's importers are exactly the
      importers of the pairs naming it, and the first such pair decides `isClass`. */
  function BuildNodes(pairs: seq<DepPair>): (nodes: map<string, Node>)
    ensures nodes.Keys == ImportedBy(pairs)
    ensures forall c :: c in nodes ==> nodes[c].importers == RecordedImporters(pairs, c)
    ensures forall i :: 0 <= i < |pairs| && IsFirst(pairs, i) ==> nodes[pairs[i].imported].isClass == pairs[i].isClass
    decreases |pairs|
  {
    if pairs == [] then map[]
    else
      var init := pairs[..|pairs| - 1];
      var last := pairs[|pairs| - 1];
      var before := BuildNodes(init);
      SnocPair(pairs);
      var nodes := AddPair(before, last);
      forall c | c in nodes
        ensures nodes[c].importers == RecordedImporters(pairs, c)
      {
        if c !in before {
          UnrecordedIsEmpty(init, c);
        }
      }
      forall i | 0 <= i < |pairs| && IsFirst(pairs, i)
        ensures nodes[pairs[i].imported].isClass == pairs[i].isClass
      {
        FirstPairDecides(pairs, before, i);
      }
      nodes
  }

  /** Arrival order does not matter: pairs that agree on `isClass` give the same
      node map whatever order, and however often, they arrive in. */
  lemma BuildNodesOrderInsensitive(a: seq<DepPair>, b: seq<DepPair>)
    requires forall p :: p in a <==> p in b
    requires forall i, j :: 0 <= i < |a| && 0 <= j < |a| ==> a[i].isClass == a[j].isClass
    ensures BuildNodes(a) == BuildNodes(b)
  {
    var na := BuildNodes(a);
    var nb := BuildNodes(b);
    SameElementsSameEdges(a, b);
    forall c | c in na
      ensures na[c] == nb[c]
    {
      SameElementsSameEdges(a, b, c);
      var i := FirstFor(a, c);
      var j := FirstFor(b, c);
      var k := PositionOf(a, b[j]);
      assert na[c].isClass == a[i].isClass == a[k].isClass == nb[c].isClass;
    }
  }

  /** Sequences with the same elements record the same edges. */
  lemma SameElementsSameEdges(a: seq<DepPair>, b: seq<DepPair>, c: string := "")
    requires forall p :: p in a <==> p in b
    ensures ImportedBy(a) == ImportedBy(b)
    ensures RecordedImporters(a, c) == RecordedImporters(b, c)
  {
    forall x | x in ImportedBy(a) ensures x in ImportedBy(b) {
      var i :| 0 <= i < |a| && a[i].imported == x;
      assert a[i] in b;
    }
    forall x | x in ImportedBy(b) ensures x in ImportedBy(a) {
      var j :| 0 <= j < |b| && b[j].imported == x;
      assert b[j] in a;
    }
    forall x | x in RecordedImporters(a, c) ensures x in RecordedImporters(b, c) {
      var i :| 0 <= i < |a| && a[i].imported == c && a[i].importerClass == x;
      assert a[i] in b;
    }
    forall x | x in RecordedImporters(b, c) ensures x in RecordedImporters(a, c) {
      var j :| 0 <= j < |b| && b[j].imported == c && b[j].importerClass == x;
      assert b[j] in a;
    }
  }

  /** Some position of `p` in `pairs`. */
  lemma PositionOf(pairs: seq<DepPair>, p: DepPair) returns (k: nat)
    requires p in pairs
    ensures k < |pairs| && pairs[k] == p
  {
    k :| 0 <= k < |pairs| && pairs[k] == p;
  }

  /** The index of the first pair importing `c`. */
  lemma FirstFor(pairs: seq<DepPair>, c: string) returns (i: nat)
    requires exists k :: 0 <= k < |pairs| && pairs[k].imported == c
    ensures i < |pairs| && pairs[i].imported == c && IsFirst(pairs, i)
  {
    var k :| 0 <= k < |pairs| && pairs[k].imported == c;
    i := 0;
    while pairs[i].imported != c
      invariant i <= k
      invariant forall j :: 0 <= j < i ==> pairs[j].imported != c
      decreases k - i
    {
      i := i + 1;
    }
  }

  // ---------------------------------------------------------------------------
  // Reachability

  /** The importers of `c`, none when no node exists for it. */
  function ImportersOf(nodes: map<string, Node>, c: string): set<string> {
    if c in nodes then nodes[c].importers else {}
  }

  /** Every class that imports something. */
  function AllImporters(nodes: map<string, Node>): set<string> {
    set c, x | c in nodes && x in nodes[c].importers :: x
  }

  /** `p` follows reverse edges: each class is imported by the next. */
  ghost predicate IsChain(nodes: map<string, Node>, p: seq<string>) {
    |p| >= 1 && forall i :: 0 <= i < |p| - 1 ==> p[i + 1] in ImportersOf(nodes, p[i])
  }

  /** A chain of zero or more reverse edges leads from a seed to `x`. */
  ghost predicate Reaches(nodes: map<string, Node>, seeds: set<string>, x: string) {
    exists p :: IsChain(nodes, p) && p[0] in seeds && p[|p| - 1] == x
  }

  /** No reverse edge leaves `s`. */
  predicate Closed(nodes: map<string, Node>, s: set<string>) {
    forall c :: c in s ==> ImportersOf(nodes, c) <= s
  }

  /** The dependees of `seeds`: everything a chain reaches. */
  ghost function Dependees(nodes: map<string, Node>, seeds: set<string>): set<string> {
    set x | x in seeds + AllImporters(nodes) && Reaches(nodes, seeds, x)
  }

  lemma {:induction false} ChainStaysInside(nodes: map<string, Node>, s: set<string>, p: seq<string>)
    requires Closed(nodes, s) && IsChain(nodes, p) && p[0] in s
    ensures p[|p| - 1] in s
    decreases |p|
  {
    if |p| > 1 {
      var q := p[..|p| - 1];
      assert IsChain(nodes, q);
      ChainStaysInside(nodes, s, q);
      assert p[|p| - 1] in ImportersOf(nodes, p[|p| - 2]);
    }
  }

  /** Every closed set holding the seeds holds all their dependees: the
      dependees are the least such set. */
  lemma ClosedContainsDependees(nodes: map<string, Node>, seeds: set<string>, s: set<string>)
    requires seeds <= s && Closed(nodes, s)
    ensures Dependees(nodes, seeds) <= s
  {
    forall x | x in Dependees(nodes, seeds)
      ensures x in s
    {
      var p :| IsChain(nodes, p) && p[0] in seeds && p[|p| - 1] == x;
      ChainStaysInside(nodes, s, p);
    }
  }

  /** The dependees of the seeds hold the seeds and are themselves closed. */
  lemma DependeesClosed(nodes: map<string, Node>, seeds: set<string>)
    ensures seeds <= Dependees(nodes, seeds)
    ensures Closed(nodes, Dependees(nodes, seeds))
  {
    var d := Dependees(nodes, seeds);
    forall x | x in seeds
      ensures x in d
    {
      assert IsChain(nodes, [x]);
    }
    forall c, y | c in d && y in ImportersOf(nodes, c)
      ensures y in d
    {
      var p :| IsChain(nodes, p) && p[0] in seeds && p[|p| - 1] == c;
      var q := p + [y];
      assert IsChain(nodes, q);
      assert y in AllImporters(nodes);
    }
  }

  /** A closed set of reachable classes holding the seeds is the dependees. */
  lemma ClosedReachableIsDependees(nodes: map<string, Node>, seeds: set<string>, s: set<string>)
    requires seeds <= s <= seeds + AllImporters(nodes) && Closed(nodes, s)
    requires forall x :: x in s ==> Reaches(nodes, seeds, x)
    ensures s == Dependees(nodes, seeds)
  {
    ClosedContainsDependees(nodes, seeds, s);
    assert s <= Dependees(nodes, seeds);
  }

  /** Expanding the dependees again adds nothing. */
  lemma DependeesIdempotent(nodes: map<string, Node>, seeds: set<string>)
    ensures Dependees(nodes, Dependees(nodes, seeds)) == Dependees(nodes, seeds)
  {
    var d := Dependees(nodes, seeds);
    DependeesClosed(nodes, seeds);
    DependeesClosed(nodes, d);
    ClosedContainsDependees(nodes, d, d);
  }

  // ---------------------------------------------------------------------------
  // The closure

  /** `seen.AddClass`: reports whether the class was absent, and inserts it. */
  function AddClass(seen: set<string>, cls: string): (r: (set<string>, bool))
    ensures r.1 <==> cls !in seen
    ensures r.0 == seen + {cls}
  {
    if cls in seen then (seen, false) else (seen + {cls}, true)
  }

  /** `chains` holds a chain from a seed to `x`. */
  ghost predicate Witnessed(nodes: map<string, Node>, seeds: set<string>, chains: map<string, seq<string>>, x: string) {
    x in chains && IsChain(nodes, chains[x]) && chains[x][0] in seeds && chains[x][|chains[x]| - 1] == x
  }

  /** A chain to `c` followed by an importer `d` of `c` is a chain to `d`. */
  lemma ExtendWitness(nodes: map<string, Node>, seeds: set<string>, chains: map<string, seq<string>>, c: string, d: string)
    requires Witnessed(nodes, seeds, chains, c) && d in ImportersOf(nodes, c)
    ensures Witnessed(nodes, seeds, chains[d := chains[c] + [d]], d)
  {
    var p := chains[c] + [d];
    assert forall i :: 0 <= i < |chains[c]| ==> p[i] == chains[c][i];
    assert IsChain(nodes, p);
  }

  /** Lines 98-119 as a worklist: every seed is emitted and expanded; expanding
      a class emits and schedules each importer that `AddClass` reports as new.
      The emitted classes are exactly the dependees of the seeds. */
  method Closure(nodes: map<string, Node>, seeds: set<string>) returns (emitted: set<string>)
    ensures seeds <= emitted
    ensures Closed(nodes, emitted)
    ensures forall x :: x in emitted ==> Reaches(nodes, seeds, x)
    ensures emitted == Dependees(nodes, seeds)
  {
    var seen: set<string> := {};
    var work := seeds;
    ghost var chains: map<string, seq<string>> := map x | x in seeds :: [x];
    forall x | x in seeds
      ensures Witnessed(nodes, seeds, chains, x)
    {
      assert chains[x] == [x];
    }
    while work != {}
      invariant seen <= AllImporters(nodes)
      invariant work <= seeds + seen
      invariant forall c {:trigger ImportersOf(nodes, c)} :: c in seeds + seen && c !in work ==> ImportersOf(nodes, c) <= seen
      invariant forall x {:trigger Witnessed(nodes, seeds, chains, x)} :: x in seeds + seen ==> Witnessed(nodes, seeds, chains, x)
      decreases AllImporters(nodes) - seen, work
    {
      var c :| c in work;
      ghost var seen0, work0 := seen, work;
      work := work - {c};
      seen, work, chains := Expand(nodes, seeds, c, seen, work, chains);
      ExpandSettles(nodes, seeds, c, seen0, work0, seen, work);
    }
    emitted := seeds + seen;
    forall x | x in emitted
      ensures Reaches(nodes, seeds, x)
    {
      assert Witnessed(nodes, seeds, chains, x);
    }
    forall c | c in emitted
      ensures ImportersOf(nodes, c) <= emitted
    {
      assert ImportersOf(nodes, c) <= seen;
    }
    ClosedReachableIsDependees(nodes, seeds, emitted);
  }

  /** After expanding `c`, every class that is no longer scheduled has all its
      importers seen. */
  lemma ExpandSettles(nodes: map<string, Node>, seeds: set<string>, c: string,
                      seen0: set<string>, work0: set<string>, seen: set<string>, work: set<string>)
    requires c in work0
    requires forall x {:trigger ImportersOf(nodes, x)} :: x in seeds + seen0 && x !in work0 ==> ImportersOf(nodes, x) <= seen0
    requires seen == seen0 + ImportersOf(nodes, c)
    requires work == (work0 - {c}) + (seen - seen0)
    ensures forall x {:trigger ImportersOf(nodes, x)} :: x in seeds + seen && x !in work ==> ImportersOf(nodes, x) <= seen
  {
    forall x | x in seeds + seen && x !in work
      ensures ImportersOf(nodes, x) <= seen
    {
      if x != c {
        assert x in seeds + seen0 && x !in work0;
      }
    }
  }

  /** Lines 106-117 for one class `c`: each importer of `c` that `AddClass`
      reports as new is emitted and scheduled. */
  method Expand(nodes: map<string, Node>, seeds: set<string>, c: string, seen: set<string>, work: set<string>,
                ghost chains: map<string, seq<string>>)
    returns (seen': set<string>, work': set<string>, ghost chains': map<string, seq<string>>)
    requires c in seeds + seen && seen <= AllImporters(nodes)
    requires forall x {:trigger Witnessed(nodes, seeds, chains, x)} :: x in seeds + seen ==> Witnessed(nodes, seeds, chains, x)
    ensures seen <= seen' <= AllImporters(nodes)
    ensures seen' == seen + ImportersOf(nodes, c)
    ensures work' == work + (seen' - seen)
    ensures forall x {:trigger Witnessed(nodes, seeds, chains', x)} :: x in seeds + seen' ==> Witnessed(nodes, seeds, chains', x)
  {
    seen', work', chains' := seen, work, chains;
    var todo := ImportersOf(nodes, c);
    while todo != {}
      invariant todo <= ImportersOf(nodes, c)
      invariant seen' == seen + (ImportersOf(nodes, c) - todo)
      invariant work' == work + (seen' - seen)
      invariant forall x {:trigger Witnessed(nodes, seeds, chains', x)} :: x in seeds + seen' ==> Witnessed(nodes, seeds, chains', x)
      decreases todo
    {
      var d :| d in todo;
      todo := todo - {d};
      var added: bool;
      seen', added := AddClass(seen', d).0, AddClass(seen', d).1;
      if added {
        work' := work' + {d};
        ghost var prev := chains';
        assert Witnessed(nodes, seeds, prev, c);
        chains' := prev[d := prev[c] + [d]];
        forall x | x in seeds + seen'
          ensures Witnessed(nodes, seeds, chains', x)
        {
          if x == d {
            ExtendWitness(nodes, seeds, prev, c, d);
          } else {
            assert Witnessed(nodes, seeds, prev, x);
          }
        }
      }
    }
    forall x | x in ImportersOf(nodes, c)
      ensures x in AllImporters(nodes)
    {
      assert c in nodes && x in nodes[c].importers;
    }
  }

  // ---------------------------------------------------------------------------
  // Dependees of changed files

  datatype GraphError =
    | NotAbsolute(path: string)   // lines 101-104 end the process
    | SliceOutOfRange(path: string) // line 110 slices past the end of the path

  /** Lines 106-116 as written: the containment test is a bare prefix test, so
      a path in a sibling directory sharing the root's name as a prefix passes
      it, and a path equal to the root passes it and is sliced past its end. */
  function SeedClassAsWritten(root: string, path: string): (r: Result<Option<string>, GraphError>)
    ensures r.Err? <==> path == root
    ensures !HasPrefix(path, root) ==> r == Ok(None)
    ensures r.Ok? && r.value.Some? ==> HasPrefix(path, root) && Ok(r.value.value) == PathToClass(path[|root| + 1..])
    ensures HasPrefix(path, root) && path != root && HasSuffix(path[|root| + 1..], ".py") ==> r.Ok? && r.value.Some?
  {
    if !HasPrefix(path, root) then Ok(None)
    else if |path| < |root| + 1 then Err(SliceOutOfRange(path))
    else
      match PathToClass(path[|root| + 1..])
      case Ok(cls) => Ok(Some(cls))
      case Err(_) => Ok(None)
  }

  /** The class a changed file seeds in a tree: only a ".py" file under the
      root directory itself does. */
  function SeedClass(root: string, path: string): (r: Option<string>)
    ensures r.Some? <==> HasPrefix(path, root + "/") && HasSuffix(path[|root| + 1..], ".py")
    ensures r.Some? ==> PathToClass(path[|root| + 1..]) == Ok(r.value)
  {
    if HasPrefix(path, root + "/") then
      match PathToClass(path[|root| + 1..])
      case Ok(cls) => Some(cls)
      case Err(_) => None
    else None
  }

  /** The correction agrees with the code whenever the path is inside the root. */
  lemma SeedClassAgrees(root: string, path: string)
    requires HasPrefix(path, root + "/")
    ensures SeedClassAsWritten(root, path) == Ok(SeedClass(root, path))
  {
    assert path[..|root|] == (root + "/")[..|root|] == root;
  }

  /** A file in the sibling directory "/src/app2" seeds the class ".mod" in the
      tree rooted at "/src/app" as written; the correction seeds nothing. */
  lemma SiblingDirectorySeeds(root: string, path: string)
    requires root == "/src/app" && path == "/src/app2/mod.py"
    ensures SeedClassAsWritten(root, path) == Ok(Some(".mod"))
    ensures SeedClass(root, path) == None
  {
    assert path[..|root|] == root;
    var rel := path[|root| + 1..];
    assert rel == "/mod.py";
    var x := ReplaceChar(rel, '/', '.');
    assert x == ".mod.py" by {
      assert |x| == 7 && x[0] == '.' && x[1] == 'm' && x[2] == 'o' && x[3] == 'd';
      assert x[4] == '.' && x[5] == 'p' && x[6] == 'y';
    }
    assert x[..|x| - 3] == ".mod";
    assert path[|root|] != (root + "/")[|root|];
  }

  /** The classes that the changed files seed, as written: every path with the
      root as a bare prefix and a ".py" suffix after the separator position. */
  function Seeds(root: string, paths: set<string>): (r: set<string>)
    ensures forall p :: p in paths && HasPrefix(p, root) && |root| < |p| && PathToClass(p[|root| + 1..]).Ok?
                        ==> PathToClass(p[|root| + 1..]).value in r
    ensures forall c :: c in r ==> exists p :: p in paths && HasPrefix(p, root) && |root| < |p|
                                              && PathToClass(p[|root| + 1..]) == Ok(c)
  {
    set p | p in paths && SeedClassAsWritten(root, p).Ok? && SeedClassAsWritten(root, p).value.Some?
      :: SeedClassAsWritten(root, p).value.value
  }

  /** The classes that the changed files seed under the corrected `SeedClass`. */
  function IntendedSeeds(root: string, paths: set<string>): (r: set<string>)
    ensures forall p :: p in paths && SeedClass(root, p).Some? ==> SeedClass(root, p).value in r
    ensures forall c :: c in r ==> exists p :: p in paths && SeedClass(root, p) == Some(c)
  {
    set p | p in paths && SeedClass(root, p).Some? :: SeedClass(root, p).value
  }

  /** The code and its correction seed the same classes when every changed file
      that has the root as a prefix really lies under the root directory. */
  lemma SeedsAgree(root: string, paths: set<string>)
    requires forall p :: p in paths && HasPrefix(p, root) ==> HasPrefix(p, root + "/")
    ensures Seeds(root, paths) == IntendedSeeds(root, paths)
  {
    forall p | p in paths && HasPrefix(p, root)
      ensures SeedClassAsWritten(root, p) == Ok(SeedClass(root, p))
    {
      SeedClassAgrees(root, p);
    }
  }

  /** The sibling directory of `SiblingDirectorySeeds` carried to the seeds of a
      tree: the code seeds ".mod", the correction nothing. */
  lemma SiblingDirectorySeedsTree(root: string, path: string)
    requires root == "/src/app" && path == "/src/app2/mod.py"
    ensures ".mod" in Seeds(root, {path})
    ensures IntendedSeeds(root, {path}) == {}
  {
    SiblingDirectorySeeds(root, path);
  }

  /** What `tree.GetDependees` reports: the file of every dependee of the seeds. */
  ghost function TreeResult(t: Tree, paths: set<string>, isDir: string -> bool): set<string> {
    set c | c in Dependees(t.nodes, Seeds(t.root, paths)) :: ClassToPath(t.root, c, isDir)
  }

  /** Lines 94-127. `isAbs(p)` stands for `filepath.Abs(p)` succeeding with `p`
      itself; a path failing it ends the process, and so does a path equal to
      the root, which line 110 slices past its end. The paths are a Go map, so
      which of two failing paths is met first is not determined; the model
      reports a path that is not absolute first. */
  method TreeDependees(t: Tree, paths: set<string>, isAbs: string -> bool, isDir: string -> bool)
    returns (r: Result<set<string>, GraphError>)
    ensures r.Err? <==> !AllAbsolute(paths, isAbs) || t.root in paths
    ensures r.Err? ==> (r.error.NotAbsolute? && r.error.path in paths && !isAbs(r.error.path))
                       || r.error == SliceOutOfRange(t.root)
    ensures r.Ok? ==> r.value == TreeResult(t, paths, isDir)
  {
    if p :| p in paths && !isAbs(p) {
      return Err(NotAbsolute(p));
    }
    if t.root in paths {
      return Err(SliceOutOfRange(t.root));
    }
    var seeds := Seeds(t.root, paths);
    var emitted := Closure(t.nodes, seeds);
    return Ok(set c | c in emitted :: ClassToPath(t.root, c, isDir));
  }

  lemma PathSeeds(root: string, paths: set<string>, path: string)
    requires path in paths && HasPrefix(path, root + "/") && PathToClass(path[|root| + 1..]).Ok?
    ensures PathToClass(path[|root| + 1..]).value in Seeds(root, paths)
  {
    assert path[..|root|] == (root + "/")[..|root|];
  }

  /** A changed module file whose path maps back to itself is reported. */
  lemma ChangedFileReported(t: Tree, paths: set<string>, isDir: string -> bool, path: string)
    requires path in paths && HasPrefix(path, t.root + "/")
    requires var rel := path[|t.root| + 1..];
             HasSuffix(rel, ".py") && '.' !in rel[..|rel| - 3] && !isDir(rel[..|rel| - 3])
    ensures path in TreeResult(t, paths, isDir)
  {
    var rel := path[|t.root| + 1..];
    PathRoundTrip(t.root, rel, isDir);
    var cls := PathToClass(rel).value;
    SeedReported(t, paths, isDir, path);
    assert Join(t.root, rel) == path by {
      assert path == path[..|t.root| + 1] + rel;
    }
  }

  lemma SeedReported(t: Tree, paths: set<string>, isDir: string -> bool, path: string)
    requires path in paths && HasPrefix(path, t.root + "/") && PathToClass(path[|t.root| + 1..]).Ok?
    ensures ClassToPath(t.root, PathToClass(path[|t.root| + 1..]).value, isDir) in TreeResult(t, paths, isDir)
  {
    var seeds := Seeds(t.root, paths);
    PathSeeds(t.root, paths, path);
    DependeesClosed(t.nodes, seeds);
  }

  /** An importer of a reported class is reported too. */
  lemma ImporterReported(t: Tree, paths: set<string>, cls: string, importer: string)
    requires cls in Dependees(t.nodes, Seeds(t.root, paths))
    requires importer in ImportersOf(t.nodes, cls)
    ensures importer in Dependees(t.nodes, Seeds(t.root, paths))
  {
    DependeesClosed(t.nodes, Seeds(t.root, paths));
  }

  /** What each tree reports. */
  ghost function TreeResults(forest: seq<Tree>, paths: set<string>, isDir: string -> bool): (r: seq<set<string>>)
    ensures |r| == |forest|
    ensures forall i :: 0 <= i < |forest| ==> r[i] == TreeResult(forest[i], paths, isDir)
  {
    MapTrees(forest, t => TreeResult(t, paths, isDir))
  }

  /** `f` of each tree, in order. */
  function MapTrees(forest: seq<Tree>, f: Tree -> set<string>): (r: seq<set<string>>)
    ensures |r| == |forest|
    ensures forall i :: 0 <= i < |forest| ==> r[i] == f(forest[i])
  {
    seq(|forest|, i requires 0 <= i < |forest| => f(forest[i]))
  }

  lemma MapTreesSnoc(forest: seq<Tree>, i: int, f: Tree -> set<string>)
    requires 0 <= i < |forest|
    ensures MapTrees(forest[..i + 1], f) == MapTrees(forest[..i], f) + [f(forest[i])]
  {
    var a, b := MapTrees(forest[..i + 1], f), MapTrees(forest[..i], f) + [f(forest[i])];
    forall j | 0 <= j < |a|
      ensures a[j] == b[j]
    {
      assert forest[..i + 1][j] == forest[j];
      if j < i {
        assert forest[..i][j] == forest[j];
      }
    }
  }

  /** What `trees.GetDependees` reports for the trees in order. */
  ghost function ForestResult(forest: seq<Tree>, paths: set<string>, isDir: string -> bool): set<string> {
    Classes.UnionAll(TreeResults(forest, paths, isDir))
  }

  /** Lines 81-92: the union over the trees; the first tree's error ends it. */
  method ForestDependees(forest: seq<Tree>, paths: set<string>, isAbs: string -> bool, isDir: string -> bool)
    returns (r: Result<set<string>, GraphError>)
    ensures r.Err? <==> (|forest| > 0 && !AllAbsolute(paths, isAbs)) || RootChanged(forest, paths)
    ensures r.Ok? ==> r.value == ForestResult(forest, paths, isDir)
  {
    var result: set<string> := {};
    for i := 0 to |forest|
      invariant result == Classes.UnionAll(TreeResults(forest[..i], paths, isDir))
      invariant i > 0 ==> AllAbsolute(paths, isAbs)
      invariant !RootChanged(forest[..i], paths)
    {
      var deps := TreeDependees(forest[i], paths, isAbs, isDir);
      if deps.Err? {
        if forest[i].root in paths {
          RootChangedAt(forest, paths, i);
        }
        return Err(deps.error);
      }
      RootChangedSnoc(forest, paths, i);
      MapTreesSnoc(forest, i, t => TreeResult(t, paths, isDir));
      Classes.UnionAllSnoc(TreeResults(forest[..i], paths, isDir), deps.value);
      result := result + deps.value;
    }
    assert forest[..|forest|] == forest;
    return Ok(result);
  }

  /** Every changed path passes `filepath.Abs` unchanged. */
  predicate AllAbsolute(paths: set<string>, isAbs: string -> bool) {
    forall p :: p in paths ==> isAbs(p)
  }

  /** Some tree's root is itself one of the changed paths. */
  ghost predicate RootChanged(forest: seq<Tree>, paths: set<string>) {
    exists i :: 0 <= i < |forest| && forest[i].root in paths
  }

  lemma RootChangedAt(forest: seq<Tree>, paths: set<string>, i: int)
    requires 0 <= i < |forest| && forest[i].root in paths
    ensures RootChanged(forest, paths)
  {
  }

  lemma RootChangedSnoc(forest: seq<Tree>, paths: set<string>, i: int)
    requires 0 <= i < |forest| && !RootChanged(forest[..i], paths) && forest[i].root !in paths
    ensures !RootChanged(forest[..i + 1], paths)
  {
    var pre, before := forest[..i + 1], forest[..i];
    forall j | 0 <= j < |pre|
      ensures pre[j].root !in paths
    {
      assert pre[j] == forest[j];
      if j < i {
        assert before[j] == forest[j];
      }
    }
  }

  /** Every tree's dependees are in the forest's result, and nothing else is. */
  lemma ForestResultIsUnion(forest: seq<Tree>, paths: set<string>, isDir: string -> bool, x: string)
    ensures x in ForestResult(forest, paths, isDir) <==> exists i :: 0 <= i < |forest| && x in TreeResult(forest[i], paths, isDir)
  {
    var rs := TreeResults(forest, paths, isDir);
    Classes.UnionAllMembers(rs, x);
    if i :| 0 <= i < |rs| && x in rs[i] {
      assert x in TreeResult(forest[i], paths, isDir);
    }
    if i :| 0 <= i < |forest| && x in TreeResult(forest[i], paths, isDir) {
      assert x in rs[i];
    }
  }
}
