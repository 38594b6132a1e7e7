/** The expected outputs of pyast_test.go and pants_test.go, stated as lemmas
    about the model. Each literal input is a parameter pinned by `requires`, and
    each step names the general lemma it rests on. */
module Scenarios {
  import opened GoStrings
  import opened Wrappers
  import opened Strip
  import opened Extract
  import Classes
  import Pants

  // ---------------------------------------------------------------------------
  // stripComments (pyast_test.go:9-40). Literals longer than a few characters
  // are written as concatenations of shorter ones; the string is the same.

  /** Text without quotes is untouched by both block passes. */
  lemma BlocksKeepPlain(a: string)
    requires forall i :: 0 <= i < |a| ==> !IsQuote(a[i])
    ensures DropBlocks(a, '\'') == a && DropBlocks(a, '"') == a
  {
    assert a + [] == a;
    assert DropBlocks([], '\'') == [] && DropBlocks([], '"') == [];
    BlocksSkipPlain(a, [], '\'');
    BlocksSkipPlain(a, [], '"');
  }

  /** Trailing blanks go, nothing else does. */
  lemma {:induction false} TrimTrailingBlank(a: string, x: string)
    requires a == x + " " && x != [] && !IsSpace(x[0]) && !IsSpace(x[|x| - 1])
    ensures TrimSpace(a) == x
  {
    assert a == [] + x + " ";
    TrimPadded([], x, " ", IsSpace);
  }

  lemma ImportFooInert(a: string)
    requires a == "import foo "
    ensures Inert(a)
  {
    assert forall i :: 0 <= i < |a| ==> a[i] in "import f";
  }

  lemma ImportFooTrim(a: string, x: string)
    requires a == "import foo " && x == "import foo"
    ensures TrimSpace(a) == x
  {
    assert a == x + " ";
    assert x[0] == 'i' && x[|x| - 1] == 'o';
    TrimTrailingBlank(a, x);
  }

  lemma {:induction false} ImportFooBlank(a: string)
    requires a == "import foo "
    ensures DropBlocks(a, '"') == a && DropComments(a) == a
    ensures TrimSpace(a) == "import foo"
  {
    ImportFooInert(a);
    BlocksKeepPlain(a);
    PlainTextKept(a);
    ImportFooTrim(a, "import foo");
  }

  /** A single-line block after a quote-free prefix is deleted. */
  lemma BlockTailDeleted(q: char, a: string, middle: string)
    requires IsQuote(q) && q !in a && middle != [] && q !in middle && '\n' !in middle
    ensures DropBlocks(a + [q, q, q] + middle + [q, q, q], q) == a
  {
    var blk := [q, q, q] + middle + [q, q, q] + [];
    assert a + [q, q, q] + middle + [q, q, q] == a + blk;
    BlockDeleted(q, middle, []);
    BlocksSkipPlain(a, blk, q);
    assert a + [] == a;
  }

  /** A text without quote `q` is untouched by the block pass of `q`. */
  lemma BlocksKeepUnquoted(s: string, q: char)
    requires IsQuote(q) && q !in s
    ensures DropBlocks(s, q) == s
  {
    BlocksSkipPlain(s, [], q);
    assert s + [] == s;
  }

  /** `import foo ` followed by a one-line block of quote `q`: the block goes. */
  lemma {:induction false} ImportFooBlock(source: string, q: char, a: string, middle: string)
    requires IsQuote(q) && a == "import foo " && middle == " or not"
    requires source == a + [q, q, q] + middle + [q, q, q]
    ensures DropBlocks(source, q) == a
  {
    assert q !in a && q !in middle;
    BlockTailDeleted(q, a, middle);
  }

  /** A triple-single-quoted tail is removed (pyast_test.go:12). */
  lemma {:induction false} StripTripleSingle(source: string)
    requires source == "import foo " + "'''" + " or not" + "'''"
    ensures StripComments(source) == "import foo"
  {
    var a, middle := "import foo ", " or not";
    ImportFooBlock(source, '\'', a, middle);
    ImportFooBlank(a);
  }

  /** A triple-double-quoted tail is removed (pyast_test.go:16). */
  lemma {:induction false} StripTripleDouble(source: string)
    requires source == "import foo " + "\"\"\"" + " or not" + "\"\"\""
    ensures StripComments(source) == "import foo"
  {
    var a, middle := "import foo ", " or not";
    assert '\'' !in a && '\'' !in middle;
    BlocksKeepUnquoted(source, '\'');
    ImportFooBlock(source, '"', a, middle);
    ImportFooBlank(a);
  }

  lemma Regroup(a: string, h: string, c: string, b: string)
    ensures a + h + c + b == a + (h + c + b)
  {
  }

  /** A comment after a quote-free, `#`-free prefix is deleted up to the line
      break that ends it. */
  lemma CommentThenRest(a: string, comment: string, b: string)
    requires Inert(a)
    requires '\n' !in comment && '\r' !in comment
    requires b == [] || b[0] == '\n'
    ensures DropComments(a + "#" + comment + b) == a + DropComments(b)
  {
    Regroup(a, "#", comment, b);
    CommentsSkipPlain(a, "#" + comment + b);
    CommentDeleted(comment, b);
  }

  /** A trailing `#` comment is removed (pyast_test.go:21). */
  lemma {:induction false} StripHashComment(source: string)
    requires source == "import foo " + "#" + " or not"
    ensures StripComments(source) == "import foo"
  {
    var a, comment := "import foo ", " or not";
    assert Inert(a) && '\n' !in comment && '\r' !in comment;
    assert !IsQuote('#') && '\'' !in comment && '"' !in comment;
    BlocksKeepUnquoted(source, '\'');
    BlocksKeepUnquoted(source, '"');
    assert source == a + "#" + comment + [];
    CommentThenRest(a, comment, []);
    assert a + [] == a;
    ImportFooBlank(a);
  }

  /** A text without quotes, `#` or outer white space is kept whole. */
  lemma PlainLineKept(s: string)
    requires Inert(s)
    requires s != [] && !IsSpace(s[0]) && !IsSpace(s[|s| - 1])
    ensures StripComments(s) == s
  {
    PlainTextKept(s);
    assert s == [] + s + [];
    TrimPadded([], s, [], IsSpace);
  }

  lemma {:induction false} NothingInert(s: string)
    requires s == "from aiven.deplo" + "y.sw_services im" + "port DeploySWSer"
                  + "vice, DeploySWSe" + "rviceFileLookupR" + "ule, SwServices"
    ensures Inert(s)
  {
    var a, b, c := "from aiven.deplo", "y.sw_services im", "port DeploySWSer";
    var d, e, f := "vice, DeploySWSe", "rviceFileLookupR", "ule, SwServices";
    assert Inert(a) && Inert(b) && Inert(c) && Inert(d) && Inert(e) && Inert(f);
    InertConcat(a, b);
    InertConcat(a + b, c);
    InertConcat(a + b + c, d);
    InertConcat(a + b + c + d, e);
    InertConcat(a + b + c + d + e, f);
  }

  /** A line with neither quotes nor comments is kept (pyast_test.go:26). */
  lemma {:induction false} StripNothing(source: string)
    requires source == "from aiven.deplo" + "y.sw_services im" + "port DeploySWSer"
                       + "vice, DeploySWSe" + "rviceFileLookupR" + "ule, SwServices"
    ensures StripComments(source) == source
  {
    NothingInert(source);
    PlainLineKept(source);
  }

  /** Two comments, each ending at a line break, between texts without quotes
      or `#`. */
  lemma TwoCommentsDeleted(p: string, c1: string, q: string, c2: string, r: string)
    requires Inert(p) && Inert(q) && Inert(r)
    requires q != [] && q[0] == '\n' && r != [] && r[0] == '\n'
    requires '\n' !in c1 && '\r' !in c1 && '\n' !in c2 && '\r' !in c2
    ensures DropComments(p + "#" + c1 + (q + "#" + c2 + r)) == p + q + r
  {
    CommentThenRest(q, c2, r);
    PlainTextKept(r);
    BlocksKeepPlain(r);
    var tail := q + "#" + c2 + r;
    assert tail[0] == q[0];
    CommentThenRest(p, c1, tail);
    assert p + (q + r) == p + q + r;
  }

  lemma AbsentFromPieces(x: char, p: string, c1: string, q: string, c2: string, r: string)
    requires x != '#' && x !in p && x !in c1 && x !in q && x !in c2 && x !in r
    ensures x !in p + "#" + c1 + (q + "#" + c2 + r)
  {
  }

  lemma QuotesAbsent(s: string)
    requires Inert(s)
    ensures '\'' !in s && '"' !in s
  {
  }

  /** Five texts without quotes joined by two `#` hold no quote. */
  lemma UnquotedPieces(p: string, c1: string, q: string, c2: string, r: string)
    requires Inert(p) && Inert(c1) && Inert(q) && Inert(c2) && Inert(r)
    ensures '\'' !in p + "#" + c1 + (q + "#" + c2 + r)
    ensures '"' !in p + "#" + c1 + (q + "#" + c2 + r)
  {
    QuotesAbsent(p);
    QuotesAbsent(c1);
    QuotesAbsent(q);
    QuotesAbsent(c2);
    QuotesAbsent(r);
    AbsentFromPieces('\'', p, c1, q, c2, r);
    AbsentFromPieces('"', p, c1, q, c2, r);
  }

  lemma MultiLineInertParts(p: string, c1: string, q: string, c2: string, r: string)
    requires p == "\nfrom foo import (" && q == "\n    bar," && r == "\n    baz)\n    "
    requires c1 == " or not" && c2 == " another comment"
    ensures Inert(p) && Inert(c1) && Inert(q) && Inert(c2) && Inert(r)
  {
    assert Inert(p);
    assert Inert(c1);
    assert Inert(q);
    assert Inert(c2);
    assert Inert(r);
  }

  /** The multi-line example, from its pieces: two comments between three
      texts, none of them holding a quote. */
  lemma {:induction false} MultiLinePieces(source: string, p: string, c1: string, q: string, c2: string, r: string)
    requires p == "\nfrom foo import (" && q == "\n    bar," && r == "\n    baz)\n    "
    requires c1 == " or not" && c2 == " another comment"
    requires source == p + "#" + c1 + (q + "#" + c2 + r)
    ensures DropComments(DropBlocks(DropBlocks(source, '\''), '"')) == p + q + r
  {
    MultiLineInertParts(p, c1, q, c2, r);
    UnquotedPieces(p, c1, q, c2, r);
    BlocksKeepUnquoted(source, '\'');
    BlocksKeepUnquoted(source, '"');
    assert '\n' !in c1 && '\r' !in c1 && '\n' !in c2 && '\r' !in c2;
    TwoCommentsDeleted(p, c1, q, c2, r);
  }

  lemma {:induction false} MultiLineTrimmed(kept: string)
    requires kept == "\nfrom foo import (" + "\n    bar," + "\n    baz)\n    "
    ensures TrimSpace(kept) == "from foo import (" + "\n    bar," + "\n    baz)"
  {
    var x := "from foo import (" + "\n    bar," + "\n    baz)";
    assert "\nfrom foo import (" == "\n" + "from foo import (";
    assert "\n    baz)\n    " == "\n    baz)" + "\n    ";
    assert kept == "\n" + x + "\n    ";
    TrimPadded("\n", x, "\n    ", IsSpace);
  }

  /** Comments inside a parenthesised multi-line import are removed, the line
      breaks stay, and the surrounding blank space is trimmed (pyast_test.go:31-39). */
  lemma {:induction false} StripMultiLine(source: string)
    requires source == "\nfrom foo import (" + "#" + " or not" + ("\n    bar," + "#" + " another comment" + "\n    baz)\n    ")
    ensures StripComments(source) == "from foo import (" + "\n    bar," + "\n    baz)"
  {
    var p, q, r := "\nfrom foo import (", "\n    bar,", "\n    baz)\n    ";
    MultiLinePieces(source, p, " or not", q, " another comment", r);
    MultiLineTrimmed(p + q + r);
  }

  // ---------------------------------------------------------------------------
  // extractImportsFromModule (pyast_test.go:42-96), from the matches the import
  // pattern finds in the stripped text

  /** One statement contributes exactly its own classes. */
  lemma ExtractOne(cls: string, m: ImportMatch)
    ensures ExtractImports(cls, [m]) == ExtractMatch(cls, m)
  {
    assert [m][0] == m;
    GatherOne(Results(cls, [m]));
  }

  /** Two statements that both resolve contribute the union of their classes. */
  lemma ExtractTwo(cls: string, m: ImportMatch, m': ImportMatch)
    requires Resolvable(cls, m.packageName) && Resolvable(cls, m'.packageName)
    ensures ExtractImports(cls, [m, m']) == Ok(ExtractMatch(cls, m).value + ExtractMatch(cls, m').value)
  {
    assert [m, m'][0] == m && [m, m'][1] == m';
    GatherTwo(Results(cls, [m, m']));
  }

  /** A name list without a comma is one dependency. */
  lemma OneName(cls: string, m: ImportMatch, pkg: string)
    requires ',' !in m.names && ResolvePackageAsWritten(cls, m.packageName) == Ok(pkg)
    ensures ExtractMatch(cls, m) == Ok(Candidates(Dependency(pkg, m.names)))
  {
    assert NameCandidates(pkg, [m.names]) == [Candidates(Dependency(pkg, m.names))];
    Classes.UnionAllOne(Candidates(Dependency(pkg, m.names)));
  }

  /** A name list with commas is one dependency per comma-separated name. */
  lemma ManyNames(cls: string, m: ImportMatch, pkg: string, names: seq<string>)
    requires ',' in m.names && |names| >= 1
    requires forall i :: 0 <= i < |names| ==> ',' !in names[i]
    requires Trim(m.names, "()") == JoinWith(names, ',')
    requires ResolvePackageAsWritten(cls, m.packageName) == Ok(pkg)
    ensures ExtractMatch(cls, m).Ok?
    ensures forall x :: x in ExtractMatch(cls, m).value <==>
              exists i :: 0 <= i < |names| && x in Candidates(Dependency(pkg, names[i]))
  {
    SplitJoin(names, ',');
    forall x
      ensures x in ExtractMatch(cls, m).value <==>
              exists i :: 0 <= i < |names| && x in Candidates(Dependency(pkg, names[i]))
    {
      ExtractMatchMembers(cls, m, x);
    }
  }

  lemma UnionOfThree(sets: seq<set<string>>)
    requires |sets| == 3
    ensures Classes.UnionAll(sets) == sets[0] + (sets[1] + sets[2])
  {
    assert sets[1..][1..] == [sets[2]];
    Classes.UnionAllOne(sets[2]);
  }

  /** A list of three names yields the union of their candidates. */
  lemma ThreeNamesSplit(text: string, a: string, b: string, c: string)
    requires ',' in text && ',' !in a && ',' !in b && ',' !in c
    requires Trim(text, "()") == JoinWith([a, b, c], ',')
    ensures SplitNames(text) == [a, b, c]
  {
    SplitJoin([a, b, c], ',');
  }

  lemma ThreeCandidates(pkg: string, names: seq<string>)
    requires |names| == 3
    ensures Classes.UnionAll(NameCandidates(pkg, names))
            == Candidates(Dependency(pkg, names[0]))
               + (Candidates(Dependency(pkg, names[1])) + Candidates(Dependency(pkg, names[2])))
  {
    UnionOfThree(NameCandidates(pkg, names));
  }

  lemma ThreeNames(cls: string, m: ImportMatch, pkg: string, a: string, b: string, c: string)
    requires ',' in m.names && ',' !in a && ',' !in b && ',' !in c
    requires Trim(m.names, "()") == JoinWith([a, b, c], ',')
    requires ResolvePackageAsWritten(cls, m.packageName) == Ok(pkg)
    ensures ExtractMatch(cls, m)
            == Ok(Candidates(Dependency(pkg, a)) + (Candidates(Dependency(pkg, b)) + Candidates(Dependency(pkg, c))))
  {
    ThreeNamesSplit(m.names, a, b, c);
    var names := SplitNames(m.names);
    ThreeCandidates(pkg, names);
    assert names[0] == a && names[1] == b && names[2] == c;
  }

  /** A dotless dependency stands for itself and its package's `__init__`. */
  lemma TopLevelCandidates(dep: string)
    requires '.' !in dep
    ensures Candidates(dep) == {dep, dep + ".__init__"}
  {
  }

  /** A dependency under a package also stands for that package. */
  lemma NestedCandidates(pkg: string, name: string)
    requires pkg != [] && '.' !in name
    ensures Candidates(pkg + "." + name) == {pkg + "." + name, pkg + "." + name + ".__init__", pkg}
  {
    var dep := pkg + "." + name;
    assert dep[|pkg|] == '.' && dep[..|pkg|] == pkg && dep[|pkg| + 1..] == name;
    assert LastIndex(dep, '.') == |pkg|;
  }

  /** A name as it appears in an import list: no outer white space, and none
      of the characters the list syntax gives a meaning to. */
  predicate SimpleName(n: string) {
    && n != [] && !IsSpace(n[0]) && !IsSpace(n[|n| - 1])
    && ',' !in n && '.' !in n && '(' !in n && ')' !in n
  }

  /** `import name` yields the module and its package `__init__`. */
  lemma PlainImport(cls: string, m: ImportMatch)
    requires m.packageName == "" && SimpleName(m.names)
    ensures ExtractMatch(cls, m) == Ok({m.names, m.names + ".__init__"})
  {
    assert ResolvePackageAsWritten(cls, "") == Ok("");
    TrimSpaceUntouched(m.names);
    OneName(cls, m, "");
    TopLevelCandidates(m.names);
  }

  /** `from pkg import name`, with `pkg` resolving to `p`: the module or package
      `p.name`, its `__init__`, and `p` itself. */
  lemma FromImportOne(cls: string, m: ImportMatch, p: string)
    requires SimpleName(m.names) && p != [] && ResolvePackageAsWritten(cls, m.packageName) == Ok(p)
    ensures ExtractMatch(cls, m) == Ok({p + "." + m.names, p + "." + m.names + ".__init__", p})
  {
    TrimSpaceUntouched(m.names);
    OneName(cls, m, p);
    NestedCandidates(p, m.names);
  }

  /** The name list `a, b,c`: split at the commas, the second name keeps its
      leading blank. */
  lemma ThreeNameText(text: string, a: string, b: string, c: string)
    requires SimpleName(a) && SimpleName(b) && SimpleName(c)
    requires text == a + ", " + b + "," + c
    ensures ',' in text && Trim(text, "()") == JoinWith([a, " " + b, c], ',')
  {
    assert text == a + [','] + (" " + b + [','] + c);
    assert text[|a|] == ',';
    assert text[0] == a[0] && text[|text| - 1] == c[|c| - 1];
    TrimUntouched(text, "()");
    assert JoinWith([c], ',') == c;
    assert [" " + b, c][1..] == [c];
    assert JoinWith([" " + b, c], ',') == " " + b + [','] + c;
    assert [a, " " + b, c][1..] == [" " + b, c];
  }

  lemma LeadingBlankDropped(b: string)
    requires SimpleName(b)
    ensures TrimSpace(" " + b) == b
  {
    assert " " + b == " " + b + [];
    TrimPadded(" ", b, [], IsSpace);
  }

  /** `import a, b,c` or `from pkg import a, b,c` with `pkg` resolving to `p`:
      the candidates of the three trimmed names. */
  lemma ListImport(cls: string, m: ImportMatch, p: string, a: string, b: string, c: string)
    requires SimpleName(a) && SimpleName(b) && SimpleName(c)
    requires m.names == a + ", " + b + "," + c && ResolvePackageAsWritten(cls, m.packageName) == Ok(p)
    ensures ExtractMatch(cls, m)
            == Ok(Candidates(Dependency(p, a)) + (Candidates(Dependency(p, b)) + Candidates(Dependency(p, c))))
  {
    ThreeNameText(m.names, a, b, c);
    ThreeNames(cls, m, p, a, " " + b, c);
    LeadingBlankDropped(b);
    TrimSpaceUntouched(a);
    TrimSpaceUntouched(b);
    TrimSpaceUntouched(c);
    assert Dependency(p, " " + b) == Dependency(p, b);
  }

  /** `import a, b,c`: each name with its `__init__`. */
  lemma TopLevelList(cls: string, m: ImportMatch, a: string, b: string, c: string)
    requires SimpleName(a) && SimpleName(b) && SimpleName(c)
    requires m.packageName == "" && m.names == a + ", " + b + "," + c
    ensures ExtractMatch(cls, m) == Ok({a, a + ".__init__"} + ({b, b + ".__init__"} + {c, c + ".__init__"}))
  {
    assert ResolvePackageAsWritten(cls, "") == Ok("");
    ListImport(cls, m, "", a, b, c);
    TopLevelCandidates(a);
    TopLevelCandidates(b);
    TopLevelCandidates(c);
  }

  /** `from pkg import a, b,c` with `pkg` resolving to `p`: each `p.name` with its
      `__init__`, and `p`. */
  lemma NestedList(cls: string, m: ImportMatch, p: string, a: string, b: string, c: string)
    requires SimpleName(a) && SimpleName(b) && SimpleName(c) && p != []
    requires m.names == a + ", " + b + "," + c && ResolvePackageAsWritten(cls, m.packageName) == Ok(p)
    ensures ExtractMatch(cls, m)
            == Ok({p + "." + a, p + "." + a + ".__init__", p}
                  + ({p + "." + b, p + "." + b + ".__init__", p} + {p + "." + c, p + "." + c + ".__init__", p}))
  {
    ListImport(cls, m, p, a, b, c);
    NestedCandidates(p, a);
    NestedCandidates(p, b);
    NestedCandidates(p, c);
  }

  /** The name list `a, b`: split at the comma, the second name keeps its
      leading blank. */
  lemma TwoNameText(text: string, a: string, b: string)
    requires SimpleName(a) && SimpleName(b)
    requires text == a + ", " + b
    ensures ',' in text && Trim(text, "()") == JoinWith([a, " " + b], ',')
  {
    assert text == a + [','] + (" " + b);
    assert text[|a|] == ',';
    assert text[0] == a[0] && text[|text| - 1] == b[|b| - 1];
    TrimUntouched(text, "()");
    assert [a, " " + b][1..] == [" " + b];
  }

  lemma UnionOfTwo(sets: seq<set<string>>)
    requires |sets| == 2
    ensures Classes.UnionAll(sets) == sets[0] + sets[1]
  {
    assert sets[1..] == [sets[1]];
    Classes.UnionAllOne(sets[1]);
  }

  /** `from pkg import a, b` with `pkg` resolving to `p`: each `p.name` with its
      `__init__`, and `p`. */
  lemma NestedPair(cls: string, m: ImportMatch, p: string, a: string, b: string)
    requires SimpleName(a) && SimpleName(b) && p != []
    requires m.names == a + ", " + b && ResolvePackageAsWritten(cls, m.packageName) == Ok(p)
    ensures ExtractMatch(cls, m)
            == Ok({p + "." + a, p + "." + a + ".__init__", p} + {p + "." + b, p + "." + b + ".__init__", p})
  {
    TwoNameText(m.names, a, b);
    SplitJoin([a, " " + b], ',');
    var names := SplitNames(m.names);
    assert names == [a, " " + b];
    UnionOfTwo(NameCandidates(p, names));
    LeadingBlankDropped(b);
    TrimSpaceUntouched(a);
    assert Dependency(p, names[0]) == p + "." + a;
    assert Dependency(p, names[1]) == p + "." + b;
    NestedCandidates(p, a);
    NestedCandidates(p, b);
  }

  // The expected outputs of pyast_test.go. Each lemma states the result with
  // the names as parameters pinned by `requires`; where it is cheap, a second
  // lemma spells the literals out.

  lemma ImportModuleSteps(cls: string, ms: seq<ImportMatch>, foo: string)
    requires foo == "foo" && ms == [ImportMatch("", foo)]
    ensures ExtractImports(cls, ms) == Ok({foo, foo + ".__init__"})
  {
    assert SimpleName(foo);
    ExtractOne(cls, ms[0]);
    PlainImport(cls, ms[0]);
  }

  lemma FooInit()
    ensures "foo" + ".__init__" == "foo.__init__"
  {
  }

  /** `import foo` (pyast_test.go:43-47). */
  lemma ImportModule(cls: string, ms: seq<ImportMatch>)
    requires cls == "" && ms == [ImportMatch("", "foo")]
    ensures ExtractImports(cls, ms) == Ok({"foo", "foo.__init__"})
  {
    ImportModuleSteps(cls, ms, "foo");
    FooInit();
  }

  /** `import foo` and `import bar` on two lines (pyast_test.go:49-54). */
  lemma ImportTwo(cls: string, ms: seq<ImportMatch>, foo: string, bar: string)
    requires foo == "foo" && bar == "bar" && ms == [ImportMatch("", foo), ImportMatch("", bar)]
    ensures ExtractImports(cls, ms) == Ok({foo, foo + ".__init__"} + {bar, bar + ".__init__"})
  {
    assert SimpleName(foo) && SimpleName(bar);
    PlainImport(cls, ms[0]);
    PlainImport(cls, ms[1]);
    ExtractTwo(cls, ms[0], ms[1]);
  }

  /** `import foo, bar,baz`: every name is a dependency (pyast_test.go:56-60). */
  lemma ImportList(cls: string, ms: seq<ImportMatch>, foo: string, bar: string, baz: string)
    requires foo == "foo" && bar == "bar" && baz == "baz"
    requires ms == [ImportMatch("", foo + ", " + bar + "," + baz)]
    ensures ExtractImports(cls, ms)
            == Ok({foo, foo + ".__init__"} + ({bar, bar + ".__init__"} + {baz, baz + ".__init__"}))
  {
    assert SimpleName(foo) && SimpleName(bar) && SimpleName(baz);
    ExtractOne(cls, ms[0]);
    TopLevelList(cls, ms[0], foo, bar, baz);
  }

  lemma FromImportSteps(cls: string, ms: seq<ImportMatch>, foo: string, baz: string)
    requires foo == "foo" && baz == "baz" && ms == [ImportMatch(foo, baz)]
    ensures ExtractImports(cls, ms) == Ok({foo + "." + baz, foo + "." + baz + ".__init__", foo})
  {
    assert SimpleName(baz);
    assert foo[..1][0] == 'f';
    ExtractOne(cls, ms[0]);
    FromImportOne(cls, ms[0], foo);
  }

  lemma FooBazSpelled()
    ensures "foo" + "." + "baz" == "foo.baz" && "foo" + "." + "baz" + ".__init__" == "foo.baz.__init__"
  {
  }

  /** `from foo import baz`: `foo.baz` as module or package, and `foo` in case
      `baz` is defined in it (pyast_test.go:62-66). */
  lemma FromImport(cls: string, ms: seq<ImportMatch>)
    requires cls == "" && ms == [ImportMatch("foo", "baz")]
    ensures ExtractImports(cls, ms) == Ok({"foo.baz", "foo.baz.__init__", "foo"})
  {
    FromImportSteps(cls, ms, "foo", "baz");
    FooBazSpelled();
  }

  /** `from .sibling import foo, bar,baz` in `myapp/__init__.py`: the package
      of the importer plus "sibling" (pyast_test.go:78-84). */
  lemma SiblingImport(cls: string, ms: seq<ImportMatch>, a: string, last: string, rest: string, p: string,
                     foo: string, bar: string, baz: string)
    requires a == "myapp" && last == "__init__" && rest == "sibling" && p == a + "." + rest
    requires foo == "foo" && bar == "bar" && baz == "baz"
    requires cls == a + "." + last && ms == [ImportMatch("." + rest, foo + ", " + bar + "," + baz)]
    ensures ExtractImports(cls, ms)
            == Ok({p + "." + foo, p + "." + foo + ".__init__", p}
                  + ({p + "." + bar, p + "." + bar + ".__init__", p} + {p + "." + baz, p + "." + baz + ".__init__", p}))
  {
    assert SimpleName(foo) && SimpleName(bar) && SimpleName(baz);
    assert '.' !in last && rest[0] != '.';
    ResolveSibling(a, last, rest);
    ExtractOne(cls, ms[0]);
    NestedList(cls, ms[0], p, foo, bar, baz);
  }

  lemma AuntSteps(cls: string, ms: seq<ImportMatch>, a: string, mid: string, last: string, rest: string,
                  p: string, foo: string)
    requires a == "myapp" && mid == "utils" && last == "__init__" && rest == "aunt" && p == a + "." + rest
    requires foo == "foo" && cls == a + "." + mid + "." + last && ms == [ImportMatch(".." + rest, foo)]
    ensures ExtractImports(cls, ms) == Ok({p + "." + foo, p + "." + foo + ".__init__", p})
  {
    assert SimpleName(foo);
    assert '.' !in mid && '.' !in last && rest[0] != '.';
    ResolveAunt(a, mid, last, rest);
    ExtractOne(cls, ms[0]);
    FromImportOne(cls, ms[0], p);
  }

  lemma AuntSpelled()
    ensures "myapp" + "." + "utils" + "." + "__init__" == "myapp.utils.__init__" && ".." + "aunt" == "..aunt"
    ensures "myapp" + "." + "aunt" == "myapp.aunt"
    ensures "myapp.aunt" + "." + "foo" == "myapp.aunt.foo"
    ensures "myapp.aunt" + "." + "foo" + ".__init__" == "myapp.aunt.foo.__init__"
  {
  }

  /** `from ..aunt import foo` in `myapp/utils/__init__.py`: two dots climb to
      `myapp` (pyast_test.go:86-90). */
  lemma AuntImport(cls: string, ms: seq<ImportMatch>)
    requires cls == "myapp.utils.__init__" && ms == [ImportMatch("..aunt", "foo")]
    ensures ExtractImports(cls, ms) == Ok({"myapp.aunt.foo", "myapp.aunt.foo.__init__", "myapp.aunt"})
  {
    AuntSpelled();
    AuntSteps(cls, ms, "myapp", "utils", "__init__", "aunt", "myapp.aunt", "foo");
  }

  /** `from myapp.deploy.services import foo, bar` in `myapp/utils/__init__.py`:
      an absolute package is taken as it is (pyast_test.go:92-96). */
  lemma ServicesImport(cls: string, ms: seq<ImportMatch>, p: string, foo: string, bar: string)
    requires p == "myapp.deploy.services" && foo == "foo" && bar == "bar"
    requires cls == "myapp.utils.__init__" && ms == [ImportMatch(p, foo + ", " + bar)]
    ensures ExtractImports(cls, ms)
            == Ok({p + "." + foo, p + "." + foo + ".__init__", p} + {p + "." + bar, p + "." + bar + ".__init__", p})
  {
    assert SimpleName(foo) && SimpleName(bar);
    assert p[..1][0] == 'm';
    ExtractOne(cls, ms[0]);
    NestedPair(cls, ms[0], p, foo, bar);
  }

  // ---------------------------------------------------------------------------
  // Pants.Overrides (pants_test.go:9-29), from the parsed BUILD file

  /** The `python_sources(overrides={...})` directive of the example file. */
  lemma OverridesDirective(d: Pants.Directive, deps: Pants.Value, key: string)
    requires d == Pants.Directive(Pants.PythonSources,
                                  [Pants.Arg(Pants.OverridesArg,
                                             Pants.Value(None, Some(Pants.Dict([Pants.DictElement(key, deps)])), None))])
    ensures Pants.DirectivesReadable([d])
    ensures Pants.DirectivesOverrides([d]) == [key]
  {
    var es := d.args[0].value.dict.value.elements;
    assert Pants.ArgReadable(d.args[0]);
    assert Pants.Keys(es) == [key];
    assert Pants.ArgOverrides(d.args[0]) == [key];
    assert d.args[1..] == [];
    assert Pants.ArgsOverrides(d.args) == [key] + [];
    assert [d][1..] == [];
    assert Pants.DirectivesOverrides([d]) == Pants.DirectiveOverrides(d) + [];
  }

  /** Two `files(...)` directives and one `python_sources` directive overriding
      "admplugin.py": only that key is listed. */
  lemma BuildFileOverrides(p: Pants.Pants, f1: Pants.Directive, f2: Pants.Directive, d: Pants.Directive,
                           deps: Pants.Value, key: string)
    requires f1.name == "files" && f2.name == "files" && key == "admplugin.py"
    requires d == Pants.Directive(Pants.PythonSources,
                                  [Pants.Arg(Pants.OverridesArg,
                                             Pants.Value(None, Some(Pants.Dict([Pants.DictElement(key, deps)])), None))])
    requires p == Pants.Pants(Some([f1, f2, d]))
    ensures Pants.Readable(p)
    ensures Pants.Overrides(p) == [key]
  {
    OverridesDirective(d, deps, key);
    assert f1.name != Pants.PythonSources && f2.name != Pants.PythonSources;
    Pants.OtherDirectivesIgnored([d], f2);
    Pants.OtherDirectivesIgnored([f2] + [d], f1);
    assert [f1] + ([f2] + [d]) == [f1, f2, d];
  }
}
