/** The set of dotted class names (set.go, `Classes`). The code's map from name
    to an empty struct is a set; every operation that mutates the receiver in
    place is modelled as returning the new value, and every loop over a map
    visits the elements in an arbitrary order, chosen here by `:|`. */
module Classes {

  /** `CreateClasses(xs...)`: the elements of `xs`, duplicates collapsed. */
  function CreateClasses(xs: seq<string>): (r: set<string>)
    ensures forall x :: x in r <==> x in xs
    ensures |r| <= |xs|
  {
    if xs == [] then {}
    else
      var rest := CreateClasses(xs[1..]);
      assert forall x :: x in xs <==> x == xs[0] || x in xs[1..];
      {xs[0]} + rest
  }

  /** No element occurs twice. */
  predicate Distinct(xs: seq<string>) {
    forall i, j :: 0 <= i < j < |xs| ==> xs[i] != xs[j]
  }

  /** A list without duplicates loses nothing when made into a set. */
  lemma {:induction false} CreateClassesDistinct(xs: seq<string>)
    requires Distinct(xs)
    ensures |CreateClasses(xs)| == |xs|
  {
    if xs != [] {
      CreateClassesDistinct(xs[1..]);
      assert xs[0] !in xs[1..] by {
        forall k | 0 <= k < |xs[1..]|
          ensures xs[1..][k] != xs[0]
        {
          assert xs[1..][k] == xs[k + 1];
        }
      }
      assert xs[0] !in CreateClasses(xs[1..]);
    }
  }

  /** `Lister`: every member exactly once, in the map's iteration order. */
  method Lister(c: set<string>) returns (r: seq<string>)
    ensures |r| == |c|
    ensures Distinct(r)
    ensures forall x :: x in r <==> x in c
    ensures CreateClasses(r) == c
  {
    r := [];
    var todo := c;
    while todo != {}
      invariant todo <= c
      invariant Distinct(r)
      invariant forall x :: x in r <==> x in c - todo
      invariant |r| + |todo| == |c|
      decreases todo
    {
      var x :| x in todo;
      assert x !in r;
      assert forall i :: 0 <= i < |r| ==> r[i] in r;
      r := r + [x];
      todo := todo - {x};
    }
  }

  /** `SameAs`: equal membership. */
  predicate SameAs(c: set<string>, o: set<string>)
  {
    c == o
  }

  lemma SameAsMembers(c: set<string>, o: set<string>)
    ensures SameAs(c, o) <==> forall x :: x in c <==> x in o
  {
  }

  /** `Add`: inserts every item, keeping the prior members. */
  method Add(c: set<string>, items: seq<string>) returns (r: set<string>)
    ensures forall x :: x in r <==> x in c || x in items
    ensures (forall i :: 0 <= i < |items| ==> items[i] in c) ==> r == c
  {
    r := c;
    for i := 0 to |items|
      invariant forall x :: x in r <==> x in c || x in items[..i]
    {
      r := r + {items[i]};
    }
    assert items[..|items|] == items;
  }

  /** `Discard`: removes exactly the members of `other`. */
  method Discard(c: set<string>, other: set<string>) returns (r: set<string>)
    ensures forall x :: x in r <==> x in c && x !in other
    ensures r <= c
  {
    r := c;
    var todo := other;
    while todo != {}
      invariant todo <= other
      invariant forall x :: x in r <==> x in c && x !in other - todo
      decreases todo
    {
      var o :| o in todo;
      r := r - {o};
      todo := todo - {o};
    }
  }

  /** `Union`: adds the members of `other`. */
  method Union(c: set<string>, other: set<string>) returns (r: set<string>)
    ensures forall x :: x in r <==> x in c || x in other
  {
    r := c;
    var todo := other;
    while todo != {}
      invariant todo <= other
      invariant forall x :: x in r <==> x in c || x in other - todo
      decreases todo
    {
      var o :| o in todo;
      r := r + {o};
      todo := todo - {o};
    }
  }

  /** `Intersection`: keeps the members also in `other`, deleting the others
      while iterating over the receiver. */
  method Intersection(c: set<string>, other: set<string>) returns (r: set<string>)
    ensures forall x :: x in r <==> x in c && x in other
  {
    r := c;
    var todo := c;
    while todo != {}
      invariant todo <= c
      invariant forall x :: x in r <==> x in c && (x in todo || x in other)
      decreases todo
    {
      var mine :| mine in todo;
      if mine !in other {
        r := r - {mine};
      }
      todo := todo - {mine};
    }
  }

  /** The union of a list of sets, as the loops that `Union` each result into
      an accumulator build it. */
  function UnionAll(sets: seq<set<string>>): set<string>
    decreases |sets|
  {
    if sets == [] then {} else sets[0] + UnionAll(sets[1..])
  }

  lemma {:induction false} UnionAllMembers(sets: seq<set<string>>, x: string)
    ensures x in UnionAll(sets) <==> exists i :: 0 <= i < |sets| && x in sets[i]
    decreases |sets|
  {
    if sets != [] {
      UnionAllMembers(sets[1..], x);
      if i :| 1 <= i < |sets| && x in sets[i] {
        assert sets[1..][i - 1] == sets[i];
      }
      if i :| 0 <= i < |sets| - 1 && x in sets[1..][i] {
        assert sets[1..][i] == sets[i + 1];
      }
    }
  }

  lemma UnionAllOne(s: set<string>)
    ensures UnionAll([s]) == s
  {
    assert [s][1..] == [];
  }

  /** Adding one more set to the list adds its members to the union. */
  lemma {:induction false} UnionAllSnoc(sets: seq<set<string>>, s: set<string>)
    ensures UnionAll(sets + [s]) == UnionAll(sets) + s
    decreases |sets|
  {
    if sets == [] {
      assert [] + [s] == [s];
      assert UnionAll([s][1..]) == {};
    } else {
      assert (sets + [s])[1..] == sets[1..] + [s];
      UnionAllSnoc(sets[1..], s);
    }
  }

  /** `Copy`: a fresh set with the same members. */
  method Copy(c: set<string>) returns (r: set<string>)
    ensures forall x :: x in r <==> x in c
  {
    r := {};
    var todo := c;
    while todo != {}
      invariant todo <= c
      invariant forall x :: x in r <==> x in c - todo
      decreases todo
    {
      var o :| o in todo;
      r := r + {o};
      todo := todo - {o};
    }
  }
}
