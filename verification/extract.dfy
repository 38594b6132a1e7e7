/** The part of `extractImportsFromModule` (pyast.go) that runs after the import
    pattern has matched: splitting the imported names, resolving relative
    packages against the importing class, and expanding every dependency into
    the candidate classes it may denote. The matches themselves are an input. */
module Extract {
  import opened GoStrings
  import opened Wrappers
  import Classes

  /** One match of the import pattern: group 1, the package after `from` (empty
      for a plain `import`), and group 2, the imported names. */
  datatype ImportMatch = ImportMatch(packageName: string, names: string)

  datatype ImportError =
    | MalformedRelativeImport(cls: string)   // the importer has no '.' at all: `log.Fatalf`
    | RelativeImportBeyondTop(cls: string)   // more dots than ancestors: slice-bounds panic

  // ---------------------------------------------------------------------------
  // Names

  /** Group 2 is split on ',' (after trimming parentheses) only when it holds a
      comma; otherwise it is a single name, parentheses and all. */
  function SplitNames(text: string): (names: seq<string>)
    ensures ',' !in text ==> names == [text]
    ensures ',' in text ==> |names| >= 2 && JoinWith(names, ',') == Trim(text, "()")
    ensures forall i :: 0 <= i < |names| ==> ',' !in names[i]
  {
    if ',' in text then
      var trimmed := Trim(text, "()");
      CommaSurvivesTrim(text);
      CountZero(trimmed, ',');
      Split(trimmed, ',')
    else [text]
  }

  lemma CommaSurvivesTrim(text: string)
    requires ',' in text
    ensures ',' in Trim(text, "()")
  {
    var r := Trim(text, "()");
    var i :| FramedBy(text, r, i, c => c in "()");
    var k :| 0 <= k < |text| && text[k] == ',';
    assert !(k < i) && !(i + |r| <= k);
    assert r[k - i] == ',';
  }

  /** The dependency a name denotes: the trimmed name, under the package if any.
      A dot-free name under a package has that package as its parent. */
  function Dependency(pkg: string, name: string): (r: string)
    ensures pkg == "" ==> r == TrimSpace(name)
    ensures pkg != "" ==> HasPrefix(r, pkg + ".") && r[|pkg| + 1..] == TrimSpace(name)
    ensures pkg != "" && '.' !in name ==> IsParent(pkg, r)
  {
    if pkg == "" then TrimSpace(name) else pkg + "." + TrimSpace(name)
  }

  /** `p` is `dep` without its last dotted segment, and not empty. */
  ghost predicate IsParent(p: string, dep: string) {
    0 < |p| < |dep| && dep[..|p|] == p && dep[|p|] == '.' && '.' !in dep[|p| + 1..]
  }

  /** `from foo import bar` may name module `foo.bar` or attribute `bar` of `foo`,
      so a dependency stands for itself, its package's `__init__`, and its parent
      when it has a non-empty one. */
  function Candidates(dep: string): (r: set<string>)
    ensures dep in r && dep + ".__init__" in r
    ensures |r| <= 3
  {
    var i := LastIndex(dep, '.');
    var base := {dep, dep + ".__init__"};
    if i > 0 then base + {dep[..i]} else base
  }

  /** The candidates of a dependency are exactly itself, its `__init__` and its
      parent. */
  lemma CandidatesMembers(dep: string, x: string)
    ensures x in Candidates(dep) <==> x == dep || x == dep + ".__init__" || IsParent(x, dep)
  {
    var i := LastIndex(dep, '.');
    if i > 0 {
      assert IsParent(dep[..i], dep);
      if IsParent(x, dep) {
        assert dep[|x|] == '.';
        assert |x| <= i;
        assert x == dep[..i];
      }
    } else {
      assert !IsParent(x, dep);
    }
  }

  // ---------------------------------------------------------------------------
  // Relative packages

  /** Number of leading '.' of a package name. */
  function LeadingDots(pkg: string): (k: nat)
    ensures k <= |pkg|
    ensures forall i :: 0 <= i < k ==> pkg[i] == '.'
    ensures k < |pkg| ==> pkg[k] != '.'
  {
    if HasPrefix(pkg, ".") then 1 + LeadingDots(pkg[1..]) else 0
  }

  /** `a` is `full` with its last `k` dotted segments removed. */
  ghost predicate DropsSegments(full: string, a: string, k: nat) {
    && |a| <= |full|
    && full[..|a|] == a
    && (if k == 0 then a == full else |a| < |full| && full[|a|] == '.' && Count(full[|a|..], '.') == k)
  }

  /** A relative package resolves when the importer has at least as many dots as
      the package has leading dots. */
  predicate Resolvable(cls: string, pkg: string) {
    !HasPrefix(pkg, ".") || LeadingDots(pkg) <= Count(cls, '.')
  }

  lemma LastSegment(parent: string, i: int)
    requires 0 <= i < |parent| && parent[i] == '.' && '.' !in parent[i + 1..]
    ensures DropsSegments(parent, parent[..i], 1)
    ensures Count(parent[..i], '.') + 1 == Count(parent, '.')
  {
    var a, rest := parent[..i], parent[i..];
    assert Count(rest, '.') == 1 by {
      var tail := parent[i + 1..];
      assert rest == [parent[i]] + tail;
      assert Count([parent[i]], '.') == 1 by { assert [parent[i]][1..] == []; }
      CountZero(tail, '.');
      CountAppend([parent[i]], tail, '.');
    }
    assert parent == a + rest;
    CountAppend(a, rest, '.');
  }

  lemma DropsSegmentsCompose(full: string, mid: string, a: string, k: nat)
    requires DropsSegments(full, mid, 1) && DropsSegments(mid, a, k)
    ensures DropsSegments(full, a, k + 1)
  {
    assert full[..|a|] == mid[..|a|];
    if k == 0 {
    } else {
      assert full[|a|] == mid[|a|];
      assert full[|a|..] == mid[|a|..] + full[|mid|..];
      CountAppend(mid[|a|..], full[|mid|..], '.');
    }
  }

  /** The loop of lines 363-369: one trailing segment of `parent` goes per
      leading dot; the emptiness test looks at the importer `cls`, the slice at
      `parent`. */
  function Ascend(cls: string, parent: string, pkg: string): (r: Result<(string, string), ImportError>)
    ensures r.Ok? <==> LeadingDots(pkg) == 0 || (Count(cls, '.') > 0 && LeadingDots(pkg) <= Count(parent, '.'))
    ensures r.Err? ==> (r.error == MalformedRelativeImport(cls) <==> Count(cls, '.') == 0)
    ensures r.Err? ==> r.error in {MalformedRelativeImport(cls), RelativeImportBeyondTop(cls)}
    ensures r.Ok? ==> r.value.1 == pkg[LeadingDots(pkg)..] && DropsSegments(parent, r.value.0, LeadingDots(pkg))
    decreases |pkg|
  {
    if HasPrefix(pkg, ".") then
      if LastIndex(cls, '.') == -1 then
        CountZero(cls, '.');
        Err(MalformedRelativeImport(cls))
      else
        var i := LastIndex(parent, '.');
        if i == -1 then
          CountZero(cls, '.');
          CountZero(parent, '.');
          Err(RelativeImportBeyondTop(cls))
        else
          var up := parent[..i];
          LastSegment(parent, i);
          CountZero(cls, '.');
          var r := Ascend(cls, up, pkg[1..]);
          if r.Ok? then
            DropsSegmentsCompose(parent, up, r.value.0, LeadingDots(pkg[1..]));
            r
          else r
    else
      Ok((parent, pkg))
  }

  /** Lines 361-375 with `len(packageName) > 0`: a relative package becomes the
      ancestor of the importer that its dots designate, followed by the rest of
      the package name when there is one. An absolute package is unchanged. */
  function ResolvePackage(cls: string, pkg: string): (r: Result<string, ImportError>)
    ensures r.Ok? <==> Resolvable(cls, pkg)
    ensures r.Err? ==> (r.error == MalformedRelativeImport(cls) <==> Count(cls, '.') == 0)
    ensures !HasPrefix(pkg, ".") ==> r == Ok(pkg)
    ensures HasPrefix(pkg, ".") && r.Ok? ==>
              var rest := pkg[LeadingDots(pkg)..];
              exists a :: DropsSegments(cls, a, LeadingDots(pkg))
                          && r.value == (if rest == "" then a else a + "." + rest)
  {
    if HasPrefix(pkg, ".") then
      var (parent, rest) :- Ascend(cls, cls, pkg);
      Ok(if |rest| > 0 then parent + "." + rest else parent)
    else Ok(pkg)
  }

  /** A relative package whose name after the dots is a single byte, that is
      one ASCII character, as in `from .x import y`: the case the code as
      written resolves differently. */
  predicate OneByteRest(pkg: string) {
    HasPrefix(pkg, ".") && Utf8Len(pkg[LeadingDots(pkg)..]) == 1
  }

  /** Lines 361-375 as written: the rest of the package name is appended only
      when its UTF-8 encoding is LONGER than one byte, so a one-byte rest is
      dropped and the ancestor alone is named. */
  function ResolvePackageAsWritten(cls: string, pkg: string): (r: Result<string, ImportError>)
    ensures r.Ok? <==> Resolvable(cls, pkg)
    ensures !OneByteRest(pkg) ==> r == ResolvePackage(cls, pkg)
    ensures OneByteRest(pkg) && r.Ok? ==> DropsSegments(cls, r.value, LeadingDots(pkg))
  {
    if HasPrefix(pkg, ".") then
      var (parent, rest) :- Ascend(cls, cls, pkg);
      Ok(if Utf8Len(rest) > 1 then parent + "." + rest else parent)
    else Ok(pkg)
  }

  /** One leading dot strips the last segment of the parent. */
  lemma AscendOne(cls: string, a: string, last: string, pkg: string)
    requires '.' in cls && '.' !in last && HasPrefix(pkg, ".")
    ensures Ascend(cls, a + "." + last, pkg) == Ascend(cls, a, pkg[1..])
  {
    var parent := a + "." + last;
    var i := LastIndex(parent, '.');
    assert parent[|a|] == '.';
    assert i == |a|;
    assert parent[..i] == a;
    assert LastIndex(cls, '.') != -1;
  }

  /** `from .rest import ...` in module `a.last` names the sibling `a.rest`; the
      code as written agrees unless `rest` is a single byte. */
  lemma ResolveSibling(a: string, last: string, rest: string)
    requires '.' !in last && rest != [] && rest[0] != '.'
    ensures ResolvePackage(a + "." + last, "." + rest) == Ok(a + "." + rest)
    ensures Utf8Len(rest) != 1 ==> ResolvePackageAsWritten(a + "." + last, "." + rest) == Ok(a + "." + rest)
  {
    var cls := a + "." + last;
    assert cls[|a|] == '.';
    assert ("." + rest)[1..] == rest;
    AscendOne(cls, a, last, "." + rest);
    assert Ascend(cls, a, rest) == Ok((a, rest));
    assert LeadingDots("." + rest) == 1;
  }

  /** `from ..rest import ...` in module `a.mid.last` names `a.rest`; the code as
      written agrees unless `rest` is a single byte. */
  lemma ResolveAunt(a: string, mid: string, last: string, rest: string)
    requires '.' !in mid && '.' !in last && rest != [] && rest[0] != '.'
    ensures ResolvePackage(a + "." + mid + "." + last, ".." + rest) == Ok(a + "." + rest)
    ensures Utf8Len(rest) != 1 ==> ResolvePackageAsWritten(a + "." + mid + "." + last, ".." + rest) == Ok(a + "." + rest)
  {
    var cls := a + "." + mid + "." + last;
    assert cls[|a|] == '.';
    assert (".." + rest)[1..] == "." + rest && ("." + rest)[1..] == rest;
    AscendOne(cls, a + "." + mid, last, ".." + rest);
    AscendOne(cls, a, mid, "." + rest);
    assert Ascend(cls, a, rest) == Ok((a, rest));
    assert LeadingDots("." + rest) == 1;
    assert LeadingDots(".." + rest) == 2;
  }

  /** The discrepancy: a sibling module named by one ASCII letter is lost, the
      importer's own package named instead. */
  lemma SingleLetterSiblingDropped(a: string, last: string, x: char)
    requires '.' !in last && x != '.' && (x as int) < 0x80
    ensures ResolvePackageAsWritten(a + "." + last, ['.', x]) == Ok(a)
    ensures ResolvePackage(a + "." + last, ['.', x]) == Ok(a + "." + [x])
  {
    var cls := a + "." + last;
    assert cls[|a|] == '.';
    assert ['.', x] == "." + [x] && ['.', x][1..] == [x];
    AscendOne(cls, a, last, ['.', x]);
    assert Ascend(cls, a, [x]) == Ok((a, [x]));
    ResolveSibling(a, last, [x]);
  }

  /** A one-character sibling whose character takes several bytes is kept,
      since Go measures the rest in bytes. */
  lemma MultiByteSiblingKept(a: string, last: string, x: char)
    requires '.' !in last && (x as int) >= 0x80
    ensures ResolvePackageAsWritten(a + "." + last, ['.', x]) == Ok(a + "." + [x])
  {
    assert ['.', x] == "." + [x];
    ResolveSibling(a, last, [x]);
  }

  // ---------------------------------------------------------------------------
  // Whole matches

  /** The candidates of each name under one package. */
  function NameCandidates(pkg: string, names: seq<string>): (r: seq<set<string>>)
    ensures |r| == |names|
    ensures forall i :: 0 <= i < |names| ==> r[i] == Candidates(Dependency(pkg, names[i]))
  {
    seq(|names|, i requires 0 <= i < |names| => Candidates(Dependency(pkg, names[i])))
  }

  /** Every candidate of every name of one match, under the package as the code
      resolves it. */
  function ExtractMatch(cls: string, m: ImportMatch): (r: Result<set<string>, ImportError>)
    ensures r.Ok? <==> Resolvable(cls, m.packageName)
  {
    var pkg :- ResolvePackageAsWritten(cls, m.packageName);
    Ok(Classes.UnionAll(NameCandidates(pkg, SplitNames(m.names))))
  }

  /** A statement yields exactly the candidates of its names under the resolved
      package. */
  lemma ExtractMatchMembers(cls: string, m: ImportMatch, x: string)
    requires Resolvable(cls, m.packageName)
    ensures x in ExtractMatch(cls, m).value <==>
              exists i :: 0 <= i < |SplitNames(m.names)|
                          && x in Candidates(Dependency(ResolvePackageAsWritten(cls, m.packageName).value, SplitNames(m.names)[i]))
  {
    var names := SplitNames(m.names);
    var sets := NameCandidates(ResolvePackageAsWritten(cls, m.packageName).value, names);
    Classes.UnionAllMembers(sets, x);
  }

  /** One match under the corrected resolution of `ResolvePackage`. */
  function ExtractMatchIntended(cls: string, m: ImportMatch): (r: Result<set<string>, ImportError>)
    ensures r.Ok? <==> Resolvable(cls, m.packageName)
    ensures !OneByteRest(m.packageName) ==> r == ExtractMatch(cls, m)
  {
    var pkg :- ResolvePackage(cls, m.packageName);
    Ok(Classes.UnionAll(NameCandidates(pkg, SplitNames(m.names))))
  }

  /** The discrepancy carried through a whole statement: `from .x import y` in
      module `a.last` yields the candidates of `a.y` as written, and those of
      `a.x.y` under the correction. */
  lemma SingleLetterSiblingExtract(a: string, last: string, x: char, y: string)
    requires '.' !in last && x != '.' && (x as int) < 0x80 && ',' !in y
    ensures ExtractMatch(a + "." + last, ImportMatch(['.', x], y)) == Ok(Candidates(Dependency(a, y)))
    ensures ExtractMatchIntended(a + "." + last, ImportMatch(['.', x], y))
            == Ok(Candidates(Dependency(a + "." + [x], y)))
  {
    SingleLetterSiblingDropped(a, last, x);
    OneNameCandidates(a, y);
    OneNameCandidates(a + "." + [x], y);
  }

  lemma OneNameCandidates(pkg: string, y: string)
    requires ',' !in y
    ensures Classes.UnionAll(NameCandidates(pkg, SplitNames(y))) == Candidates(Dependency(pkg, y))
  {
    assert SplitNames(y) == [y];
    assert NameCandidates(pkg, [y]) == [Candidates(Dependency(pkg, y))];
    Classes.UnionAllOne(Candidates(Dependency(pkg, y)));
  }

  /** The loop over the matches: the union of their classes, or the error of
      the first match that fails. */
  function {:induction false} Gather(results: seq<Result<set<string>, ImportError>>): (r: Result<set<string>, ImportError>)
    ensures r.Ok? <==> forall i :: 0 <= i < |results| ==> results[i].Ok?
    ensures r.Ok? ==> forall i :: 0 <= i < |results| ==> results[i].value <= r.value
    ensures r.Ok? ==> forall x :: x in r.value ==> exists i :: 0 <= i < |results| && x in results[i].value
    ensures r.Err? ==> exists i :: 0 <= i < |results| && results[i] == r && forall j :: 0 <= j < i ==> results[j].Ok?
    decreases |results|
  {
    if results == [] then Ok({})
    else
      TailIndex(results);
      var first :- results[0];
      var rest :- Gather(results[1..]);
      GatherStep(results, first, rest);
      Ok(first + rest)
  }

  lemma TailIndex<T>(s: seq<T>)
    requires s != []
    ensures forall i :: 1 <= i < |s| ==> s[i] == s[1..][i - 1]
  {
  }

  /** The first result's classes joined to those of the others are the classes
      of the whole list. */
  lemma GatherStep(results: seq<Result<set<string>, ImportError>>, first: set<string>, rest: set<string>)
    requires results != [] && results[0] == Ok(first)
    requires forall i :: 1 <= i < |results| ==> results[i].Ok? && results[i].value <= rest
    requires forall x :: x in rest ==> exists i :: 1 <= i < |results| && x in results[i].value
    ensures forall i :: 0 <= i < |results| ==> results[i].value <= first + rest
    ensures forall x :: x in first + rest ==> exists i :: 0 <= i < |results| && x in results[i].value
  {
    forall x | x in first + rest
      ensures exists i :: 0 <= i < |results| && x in results[i].value
    {
      if x in first {
        assert x in results[0].value;
      }
    }
  }

  lemma GatherOne(rs: seq<Result<set<string>, ImportError>>)
    requires |rs| == 1
    ensures Gather(rs) == rs[0]
  {
    assert rs[1..] == [];
    if rs[0].Ok? {
      assert rs[0].value + {} == rs[0].value;
    }
  }

  lemma GatherTwo(rs: seq<Result<set<string>, ImportError>>)
    requires |rs| == 2 && rs[0].Ok? && rs[1].Ok?
    ensures Gather(rs) == Ok(rs[0].value + rs[1].value)
  {
    GatherOne(rs[1..]);
  }

  /** The result of every match, in order. */
  function Results(cls: string, matches: seq<ImportMatch>): (rs: seq<Result<set<string>, ImportError>>)
    ensures |rs| == |matches|
    ensures forall i :: 0 <= i < |matches| ==> rs[i] == ExtractMatch(cls, matches[i])
  {
    seq(|matches|, i requires 0 <= i < |matches| => ExtractMatch(cls, matches[i]))
  }

  /** `extractImportsFromModule` after matching: the union of every match's
      candidates, or the error of the first match whose relative package cannot
      be resolved. */
  function ExtractImports(cls: string, matches: seq<ImportMatch>): (r: Result<set<string>, ImportError>)
    ensures r.Ok? <==> forall i :: 0 <= i < |matches| ==> Resolvable(cls, matches[i].packageName)
    ensures r.Ok? ==> forall i :: 0 <= i < |matches| ==> ExtractMatch(cls, matches[i]).value <= r.value
  {
    Gather(Results(cls, matches))
  }

  /** The result of every match under the corrected resolution, in order. */
  function IntendedResults(cls: string, matches: seq<ImportMatch>): (rs: seq<Result<set<string>, ImportError>>)
    ensures |rs| == |matches|
    ensures forall i :: 0 <= i < |matches| ==> rs[i] == ExtractMatchIntended(cls, matches[i])
  {
    seq(|matches|, i requires 0 <= i < |matches| => ExtractMatchIntended(cls, matches[i]))
  }

  /** The whole extraction under the corrected resolution. */
  function ExtractImportsIntended(cls: string, matches: seq<ImportMatch>): (r: Result<set<string>, ImportError>)
    ensures r.Ok? <==> forall i :: 0 <= i < |matches| ==> Resolvable(cls, matches[i].packageName)
  {
    var rs := IntendedResults(cls, matches);
    assert forall i :: 0 <= i < |rs| ==> (rs[i].Ok? <==> Resolvable(cls, matches[i].packageName));
    Gather(rs)
  }

  /** The code and its correction extract the same classes from any module
      without a one-byte relative package. */
  lemma ExtractImportsAgree(cls: string, matches: seq<ImportMatch>)
    requires forall i :: 0 <= i < |matches| ==> !OneByteRest(matches[i].packageName)
    ensures ExtractImports(cls, matches) == ExtractImportsIntended(cls, matches)
  {
    var a, b := Results(cls, matches), IntendedResults(cls, matches);
    assert forall i :: 0 <= i < |a| ==> a[i] == b[i];
    assert a == b;
  }

  /** Extraction succeeds exactly when every match resolves; it then yields
      every class of every match and nothing else, and otherwise the error of
      the first match that does not resolve. */
  lemma ExtractImportsMeaning(cls: string, matches: seq<ImportMatch>)
    ensures ExtractImports(cls, matches).Ok? <==>
              forall i :: 0 <= i < |matches| ==> Resolvable(cls, matches[i].packageName)
    ensures ExtractImports(cls, matches).Ok? ==>
              forall x :: x in ExtractImports(cls, matches).value <==>
                exists i :: 0 <= i < |matches| && x in ExtractMatch(cls, matches[i]).value
    ensures ExtractImports(cls, matches).Err? ==>
              exists i :: 0 <= i < |matches| && !Resolvable(cls, matches[i].packageName)
                          && ExtractImports(cls, matches) == ExtractMatch(cls, matches[i])
                          && forall j :: 0 <= j < i ==> Resolvable(cls, matches[j].packageName)
  {
    var rs := Results(cls, matches);
    var r := Gather(rs);
    if r.Ok? {
      forall x | x in r.value
        ensures exists i :: 0 <= i < |matches| && x in ExtractMatch(cls, matches[i]).value
      {
        var i :| 0 <= i < |rs| && x in rs[i].value;
      }
      forall x, i | 0 <= i < |matches| && x in ExtractMatch(cls, matches[i]).value
        ensures x in r.value
      {
        assert rs[i].value <= r.value;
      }
    } else {
      var i :| 0 <= i < |rs| && rs[i] == r && forall j :: 0 <= j < i ==> rs[j].Ok?;
      assert ExtractMatch(cls, matches[i]) == r;
      forall j | 0 <= j < i
        ensures Resolvable(cls, matches[j].packageName)
      {
        assert rs[j].Ok?;
      }
      assert !Resolvable(cls, matches[i].packageName);
    }
  }

  /** Only which results occur matters, not their order or repetition. */
  lemma GatherSameMembers(a: seq<Result<set<string>, ImportError>>, b: seq<Result<set<string>, ImportError>>)
    requires forall i :: 0 <= i < |a| ==> a[i] in b
    requires forall j :: 0 <= j < |b| ==> b[j] in a
    ensures Gather(a).Ok? <==> Gather(b).Ok?
    ensures Gather(a).Ok? ==> Gather(a) == Gather(b)
  {
    var ra := Gather(a);
    var rb := Gather(b);
    if ra.Ok? {
      forall j | 0 <= j < |b|
        ensures b[j].Ok?
      {
        var i :| 0 <= i < |a| && a[i] == b[j];
      }
      forall x | x in ra.value
        ensures x in rb.value
      {
        var i :| 0 <= i < |a| && x in a[i].value;
        var j :| 0 <= j < |b| && b[j] == a[i];
        assert b[j].value <= rb.value;
      }
      forall x | x in rb.value
        ensures x in ra.value
      {
        var j :| 0 <= j < |b| && x in b[j].value;
        var i :| 0 <= i < |a| && a[i] == b[j];
        assert a[i].value <= ra.value;
      }
      assert ra.value == rb.value;
      assert ra == Ok(ra.value) && rb == Ok(rb.value);
    } else {
      var i :| 0 <= i < |a| && a[i] == ra;
      var j :| 0 <= j < |b| && b[j] == a[i];
    }
  }

  /** An index at which an element of a list occurs. */
  lemma Position(b: seq<ImportMatch>, x: ImportMatch) returns (j: int)
    requires x in b
    ensures 0 <= j < |b| && b[j] == x
  {
    j :| 0 <= j < |b| && b[j] == x;
  }

  /** Only which statements occur matters, not their order or repetition:
      success and the extracted classes agree. */
  lemma ExtractOrderInsensitive(cls: string, a: seq<ImportMatch>, b: seq<ImportMatch>)
    requires forall m :: m in a <==> m in b
    ensures ExtractImports(cls, a).Ok? <==> ExtractImports(cls, b).Ok?
    ensures ExtractImports(cls, a).Ok? ==> ExtractImports(cls, a) == ExtractImports(cls, b)
  {
    var ra, rb := Results(cls, a), Results(cls, b);
    forall i | 0 <= i < |a|
      ensures ra[i] in rb
    {
      assert a[i] in a;
      var j := Position(b, a[i]);
      assert rb[j] == ra[i];
    }
    forall j | 0 <= j < |b|
      ensures rb[j] in ra
    {
      assert b[j] in b;
      var i := Position(a, b[j]);
      assert ra[i] == rb[j];
    }
    GatherSameMembers(ra, rb);
  }

  /** The loop over a list that succeeds on the whole succeeds on each part and
      collects the union of the parts. */
  lemma GatherAppend(a: seq<Result<set<string>, ImportError>>, b: seq<Result<set<string>, ImportError>>)
    requires Gather(a + b).Ok?
    ensures Gather(a).Ok? && Gather(b).Ok?
    ensures Gather(a + b).value == Gather(a).value + Gather(b).value
  {
    var ab := a + b;
    assert forall i :: 0 <= i < |a| ==> a[i] == ab[i];
    assert forall i :: 0 <= i < |b| ==> b[i] == ab[|a| + i];
    var r := Gather(ab).value;
    var ra := Gather(a);
    var rb := Gather(b);
    forall x | x in r
      ensures x in ra.value + rb.value
    {
      var i :| 0 <= i < |ab| && x in ab[i].value;
      if i < |a| {
        assert a[i].value <= ra.value;
      } else {
        assert b[i - |a|].value <= rb.value;
      }
    }
    forall x | x in ra.value + rb.value
      ensures x in r
    {
      if x in ra.value {
        var i :| 0 <= i < |a| && x in a[i].value;
        assert ab[i].value <= r;
      } else {
        var i :| 0 <= i < |b| && x in b[i].value;
        assert ab[|a| + i].value <= r;
      }
    }
  }

  lemma ResultsAppend(cls: string, a: seq<ImportMatch>, b: seq<ImportMatch>)
    ensures Results(cls, a + b) == Results(cls, a) + Results(cls, b)
  {
    var ab, ra, rb := Results(cls, a + b), Results(cls, a), Results(cls, b);
    forall i | 0 <= i < |ab|
      ensures ab[i] == (ra + rb)[i]
    {
      if i < |a| {
        assert (a + b)[i] == a[i];
        assert (ra + rb)[i] == ra[i];
      } else {
        assert (a + b)[i] == b[i - |a|];
        assert (ra + rb)[i] == rb[i - |a|];
      }
    }
    assert |ab| == |ra + rb|;
  }

  /** Extraction distributes over concatenation of the statement list. */
  lemma ExtractAppend(cls: string, a: seq<ImportMatch>, b: seq<ImportMatch>)
    requires ExtractImports(cls, a + b).Ok?
    ensures ExtractImports(cls, a).Ok? && ExtractImports(cls, b).Ok?
    ensures ExtractImports(cls, a + b).value == ExtractImports(cls, a).value + ExtractImports(cls, b).value
  {
    ResultsAppend(cls, a, b);
    GatherAppend(Results(cls, a), Results(cls, b));
  }
}
