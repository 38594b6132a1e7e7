/** The parsed form of a Pants BUILD file and the names it overrides
    (pants.go, `Pants.Overrides`). Parsing itself is not modelled: the
    datatypes below are the parser's output. */
module Pants {
  import opened Wrappers

  /** A BUILD file: its top-level calls, `None` for a nil slice. */
  datatype Pants = Pants(directives: Option<seq<Directive>>)

  /** A call such as `python_sources(overrides={...})`. */
  datatype Directive = Directive(name: string, args: seq<Arg>)

  /** A keyword argument `name=value`. */
  datatype Arg = Arg(name: string, value: Value)

  /** One of a string, a dict or a list; the parser sets exactly one, the type
      allows any combination, as the nil-able `*Dict`-style fields of the code do. */
  datatype Value = Value(str: Option<string>, dict: Option<Dict>, list: Option<List>)

  datatype Dict = Dict(elements: seq<DictElement>)

  /** `"name": value` inside a dict. */
  datatype DictElement = DictElement(name: string, value: Value)

  datatype List = List(elements: seq<ListElement>)

  datatype ListElement = ListElement(value: Value)

  const PythonSources := "python_sources"
  const OverridesArg := "overrides"

  /** An "overrides" argument must carry a dict: line 24 dereferences it. */
  predicate ArgReadable(a: Arg) {
    a.name == OverridesArg ==> a.value.dict.Some?
  }

  predicate DirectiveReadable(d: Directive) {
    d.name == PythonSources ==> forall j :: 0 <= j < |d.args| ==> ArgReadable(d.args[j])
  }

  predicate DirectivesReadable(ds: seq<Directive>) {
    forall i :: 0 <= i < |ds| ==> DirectiveReadable(ds[i])
  }

  predicate Readable(p: Pants) {
    p.directives.Some? ==> DirectivesReadable(p.directives.value)
  }

  /** The keys of a dict, in order. */
  function Keys(es: seq<DictElement>): (r: seq<string>)
    ensures |r| == |es|
    ensures forall k :: 0 <= k < |es| ==> r[k] == es[k].name
  {
    seq(|es|, k requires 0 <= k < |es| => es[k].name)
  }

  /** Lines 23-26 for one argument. */
  function ArgOverrides(a: Arg): (r: seq<string>)
    requires ArgReadable(a)
    ensures a.name != OverridesArg ==> r == []
    ensures a.name == OverridesArg ==> |r| == |a.value.dict.value.elements|
    ensures a.name == OverridesArg ==> forall k :: 0 <= k < |r| ==> r[k] == a.value.dict.value.elements[k].name
  {
    if a.name == OverridesArg then Keys(a.value.dict.value.elements) else []
  }

  /** Lines 22-28 over the arguments of one directive. */
  function ArgsOverrides(args: seq<Arg>): (r: seq<string>)
    requires forall j :: 0 <= j < |args| ==> ArgReadable(args[j])
    ensures (forall j :: 0 <= j < |args| ==> args[j].name != OverridesArg) ==> r == []
  {
    if args == [] then [] else ArgOverrides(args[0]) + ArgsOverrides(args[1..])
  }

  /** Lines 21-29 for one directive. */
  function DirectiveOverrides(d: Directive): (r: seq<string>)
    requires DirectiveReadable(d)
    ensures d.name != PythonSources ==> r == []
  {
    if d.name == PythonSources then ArgsOverrides(d.args) else []
  }

  /** Lines 20-30 over a list of directives. */
  function DirectivesOverrides(ds: seq<Directive>): (r: seq<string>)
    requires DirectivesReadable(ds)
    ensures (forall i :: 0 <= i < |ds| ==> ds[i].name != PythonSources) ==> r == []
  {
    if ds == [] then [] else DirectiveOverrides(ds[0]) + DirectivesOverrides(ds[1..])
  }

  /** `Pants.Overrides`: the keys of every "overrides" dict of every
      "python_sources" directive, in order, duplicates kept. A nil directive
      list gives the empty list. */
  function Overrides(p: Pants): (r: seq<string>)
    requires Readable(p)
    ensures p.directives.None? ==> r == []
  {
    match p.directives
    case None => []
    case Some(ds) => DirectivesOverrides(ds)
  }

  /** `x` is the key of element `k` of the dict of argument `j` of directive `i`,
      which is an "overrides" argument of a "python_sources" directive. */
  ghost predicate OverrideAt(ds: seq<Directive>, i: int, j: int, k: int, x: string) {
    && 0 <= i < |ds| && ds[i].name == PythonSources
    && 0 <= j < |ds[i].args| && ds[i].args[j].name == OverridesArg
    && ds[i].args[j].value.dict.Some?
    && 0 <= k < |ds[i].args[j].value.dict.value.elements|
    && ds[i].args[j].value.dict.value.elements[k].name == x
  }

  lemma {:induction false} ArgsOverridesMembers(args: seq<Arg>, x: string)
    requires forall j :: 0 <= j < |args| ==> ArgReadable(args[j])
    ensures x in ArgsOverrides(args) <==>
            exists j, k :: 0 <= j < |args| && args[j].name == OverridesArg
                           && 0 <= k < |args[j].value.dict.value.elements|
                           && args[j].value.dict.value.elements[k].name == x
    decreases |args|
  {
    if args != [] {
      ArgsOverridesMembers(args[1..], x);
      var es0 := if args[0].name == OverridesArg then args[0].value.dict.value.elements else [];
      if x in ArgOverrides(args[0]) {
        var k :| 0 <= k < |es0| && Keys(es0)[k] == x;
        assert args[0].value.dict.value.elements[k].name == x;
      }
      forall j | 1 <= j < |args|
        ensures args[j] == args[1..][j - 1]
      {
      }
      if j, k :| 0 <= j < |args| && args[j].name == OverridesArg
                 && 0 <= k < |args[j].value.dict.value.elements|
                 && args[j].value.dict.value.elements[k].name == x {
        if j == 0 {
          assert ArgOverrides(args[0])[k] == x;
        } else {
          assert args[1..][j - 1] == args[j];
        }
      }
    }
  }

  lemma {:induction false} DirectivesOverridesMembers(ds: seq<Directive>, x: string)
    requires DirectivesReadable(ds)
    ensures x in DirectivesOverrides(ds) <==> exists i, j, k :: OverrideAt(ds, i, j, k, x)
    decreases |ds|
  {
    if ds != [] {
      DirectivesOverridesMembers(ds[1..], x);
      var d := ds[0];
      if d.name == PythonSources {
        ArgsOverridesMembers(d.args, x);
      }
      if x in DirectiveOverrides(d) {
        var j, k :| 0 <= j < |d.args| && d.args[j].name == OverridesArg
                    && 0 <= k < |d.args[j].value.dict.value.elements|
                    && d.args[j].value.dict.value.elements[k].name == x;
        assert OverrideAt(ds, 0, j, k, x);
      }
      if x in DirectivesOverrides(ds[1..]) {
        var i, j, k :| OverrideAt(ds[1..], i, j, k, x);
        assert ds[1..][i] == ds[i + 1];
        assert OverrideAt(ds, i + 1, j, k, x);
      }
      if i, j, k :| OverrideAt(ds, i, j, k, x) {
        if i == 0 {
          assert x in DirectiveOverrides(d);
        } else {
          assert ds[1..][i - 1] == ds[i];
          assert OverrideAt(ds[1..], i - 1, j, k, x);
        }
      }
    }
  }

  /** A name is listed exactly when it is a key of an "overrides" dict of a
      "python_sources" directive. */
  lemma OverridesMembers(p: Pants, x: string)
    requires Readable(p) && p.directives.Some?
    ensures x in Overrides(p) <==> exists i, j, k :: OverrideAt(p.directives.value, i, j, k, x)
  {
    DirectivesOverridesMembers(p.directives.value, x);
  }

  /** The listing of a file is the listing of its first part followed by that of
      the rest: order is directive order, and nothing is deduplicated. */
  lemma {:induction false} DirectivesOverridesAppend(a: seq<Directive>, b: seq<Directive>)
    requires DirectivesReadable(a) && DirectivesReadable(b)
    ensures DirectivesReadable(a + b)
    ensures DirectivesOverrides(a + b) == DirectivesOverrides(a) + DirectivesOverrides(b)
    decreases |a|
  {
    assert forall i :: 0 <= i < |a + b| ==> (a + b)[i] == if i < |a| then a[i] else b[i - |a|];
    if a != [] {
      assert (a + b)[1..] == a[1..] + b;
      DirectivesOverridesAppend(a[1..], b);
    } else {
      assert a + b == b;
    }
  }

  /** The listing of a directive's arguments is that of its first part followed
      by that of the rest: order is argument order, and nothing is deduplicated. */
  lemma {:induction false} ArgsOverridesAppend(a: seq<Arg>, b: seq<Arg>)
    requires forall j :: 0 <= j < |a| ==> ArgReadable(a[j])
    requires forall j :: 0 <= j < |b| ==> ArgReadable(b[j])
    ensures forall j :: 0 <= j < |a + b| ==> ArgReadable((a + b)[j])
    ensures ArgsOverrides(a + b) == ArgsOverrides(a) + ArgsOverrides(b)
    decreases |a|
  {
    var ab := a + b;
    assert forall j :: 0 <= j < |ab| ==> ab[j] == if j < |a| then a[j] else b[j - |a|];
    if a != [] {
      assert ab[0] == a[0] && ab[1..] == a[1..] + b;
      ArgsOverridesAppend(a[1..], b);
      assert ArgsOverrides(ab) == ArgOverrides(a[0]) + ArgsOverrides(a[1..] + b);
      assert ArgsOverrides(a) == ArgOverrides(a[0]) + ArgsOverrides(a[1..]);
    } else {
      assert ab == b;
    }
  }

  /** Directives other than "python_sources" can be dropped without changing the
      listing. */
  lemma {:induction false} OtherDirectivesIgnored(ds: seq<Directive>, d: Directive)
    requires DirectivesReadable(ds) && d.name != PythonSources
    ensures DirectivesReadable([d] + ds)
    ensures DirectivesOverrides([d] + ds) == DirectivesOverrides(ds)
  {
    assert ([d] + ds)[0] == d && ([d] + ds)[1..] == ds;
    assert forall i :: 1 <= i < |[d] + ds| ==> ([d] + ds)[i] == ds[i - 1];
  }
}
