/**
 * Query depth and complexity with fragment spreads resolved in place, against the same measures
 * of the query with every fragment inlined (sections 2.8 and 5.5.2.2 of the GraphQL
 * specification, October 2021).
 */
module GraphQLCost {

  type Name = string

  datatype Selection =
    | Field(name: Name, sub: SelectionSet)
    | Spread(fragment: Name)
    | Inline(body: SelectionSet)

  /** NoSet is a missing selection set, as on a leaf field. */
  datatype SelectionSet = NoSet | Selections(items: seq<Selection>)

  datatype Definition =
    | Fragment(name: Name, body: SelectionSet)
    | Operation(body: SelectionSet)

  type Fragments = map<Name, SelectionSet>

  const LIST_FIELD_NAMES := {"donations", "wallets", "recentDonations", "dailyStats"}

  function Cost(field: Name, listCost: nat): nat {
    if field in LIST_FIELD_NAMES then listCost else 1
  }

  function Max(a: nat, b: nat): nat { if a > b then a else b }

  /** The spread is followed: the fragment exists and is not already on the stack. */
  predicate Follows(frags: Fragments, visited: set<Name>, f: Name) {
    f !in visited && f in frags && frags[f].Selections?
  }

  lemma StackGrows(frags: Fragments, visited: set<Name>, f: Name)
    requires Follows(frags, visited, f)
    ensures frags.Keys - (visited + {f}) < frags.Keys - visited
  {
    assert f in frags.Keys - visited;
  }

  // ---------------------------------------------------------------- the inlined query

  /** A query without fragments: fields and their sub-fields. */
  datatype Tree = Tree(name: Name, children: seq<Tree>)

  /** Resolving spreads as the visitors do, cutting those already on the stack. */
  function Expand(s: SelectionSet, frags: Fragments, visited: set<Name>): seq<Tree>
    decreases frags.Keys - visited, s, 1
  {
    match s
    case NoSet => []
    case Selections(items) => ExpandItems(items, frags, visited)
  }

  function ExpandItems(items: seq<Selection>, frags: Fragments, visited: set<Name>): seq<Tree>
    decreases frags.Keys - visited, items, 0
  {
    if items == [] then [] else ExpandOne(items[0], frags, visited) + ExpandItems(items[1..], frags, visited)
  }

  function ExpandOne(sel: Selection, frags: Fragments, visited: set<Name>): seq<Tree>
    decreases frags.Keys - visited, sel, 1
  {
    match sel
    case Field(name, sub) => [Tree(name, Expand(sub, frags, visited))]
    case Inline(body) => Expand(body, frags, visited)
    case Spread(f) =>
      if Follows(frags, visited, f) then
        StackGrows(frags, visited, f);
        Expand(frags[f], frags, visited + {f})
      else []
  }

  /** Every field of the query, as the list of field names from the root down to it. */
  function Paths(forest: seq<Tree>): seq<seq<Name>>
    decreases forest, 0
  {
    if forest == [] then [] else TreePaths(forest[0]) + Paths(forest[1..])
  }

  function TreePaths(t: Tree): seq<seq<Name>>
    decreases t, 1
  {
    [[t.name]] + Under(t.name, Paths(t.children))
  }

  function Under(name: Name, paths: seq<seq<Name>>): seq<seq<Name>> {
    if paths == [] then [] else [[name] + paths[0]] + Under(name, paths[1..])
  }

  /** The deepest field. */
  function Longest(paths: seq<seq<Name>>): nat {
    if paths == [] then 0 else Max(|paths[0]|, Longest(paths[1..]))
  }

  /** Own cost times the costs of all ancestors. */
  function Weight(path: seq<Name>, listCost: nat): nat {
    if path == [] then 1 else Cost(path[0], listCost) * Weight(path[1..], listCost)
  }

  function TotalWeight(paths: seq<seq<Name>>, listCost: nat): nat {
    if paths == [] then 0 else Weight(paths[0], listCost) + TotalWeight(paths[1..], listCost)
  }

  // ------------------------------------------------------------- the two visitors

  function Depth(s: SelectionSet, frags: Fragments, depth: nat, visited: set<Name>): nat
    decreases frags.Keys - visited, s, 1
  {
    match s
    case NoSet => depth
    case Selections(items) => DepthItems(items, frags, depth, visited)
  }

  function DepthItems(items: seq<Selection>, frags: Fragments, depth: nat, visited: set<Name>): nat
    decreases frags.Keys - visited, items, 0
  {
    if items == [] then depth
    else Max(DepthOne(items[0], frags, depth, visited), DepthItems(items[1..], frags, depth, visited))
  }

  function DepthOne(sel: Selection, frags: Fragments, depth: nat, visited: set<Name>): nat
    decreases frags.Keys - visited, sel, 1
  {
    match sel
    case Field(_, sub) => Depth(sub, frags, depth + 1, visited)
    case Inline(body) => Depth(body, frags, depth, visited)
    case Spread(f) =>
      if Follows(frags, visited, f) then
        StackGrows(frags, visited, f);
        Depth(frags[f], frags, depth, visited + {f})
      else depth
  }

  method GetQueryDepth(s: SelectionSet, frags: Fragments, depth: nat, visited: set<Name>) returns (max: nat)
    ensures max == Depth(s, frags, depth, visited)
    decreases frags.Keys - visited, s
  {
    if s.NoSet? {
      return depth;
    }
    var items := s.items;
    max := depth;
    for i := 0 to |items|
      invariant max >= depth
      invariant Max(max, DepthItems(items[i..], frags, depth, visited))
                == Max(depth, DepthItems(items, frags, depth, visited))
    {
      var sel := items[i];
      assert items[i..][0] == sel && items[i..][1..] == items[i + 1..];
      var d := depth;
      match sel {
        case Spread(f) =>
          if f !in visited && f in frags && frags[f].Selections? {
            StackGrows(frags, visited, f);
            d := GetQueryDepth(frags[f], frags, depth, visited + {f});
          }
        case Inline(body) =>
          d := GetQueryDepth(body, frags, depth, visited);
        case Field(_, sub) =>
          d := GetQueryDepth(sub, frags, depth + 1, visited);
      }
      assert d == DepthOne(sel, frags, depth, visited);
      if d > max {
        max := d;
      }
    }
    DepthAtLeast(items, frags, depth, visited);
  }

  lemma {:induction false} DepthAtLeast(items: seq<Selection>, frags: Fragments, depth: nat, visited: set<Name>)
    ensures DepthItems(items, frags, depth, visited) >= depth
  {
    if items != [] {
      DepthAtLeast(items[1..], frags, depth, visited);
    }
  }

  function Complexity(s: SelectionSet, frags: Fragments, listCost: nat, visited: set<Name>): nat
    decreases frags.Keys - visited, s, 1
  {
    match s
    case NoSet => 0
    case Selections(items) => ComplexityItems(items, frags, listCost, visited)
  }

  function ComplexityItems(items: seq<Selection>, frags: Fragments, listCost: nat, visited: set<Name>): nat
    decreases frags.Keys - visited, items, 0
  {
    if items == [] then 0
    else ComplexityOne(items[0], frags, listCost, visited) + ComplexityItems(items[1..], frags, listCost, visited)
  }

  function ComplexityOne(sel: Selection, frags: Fragments, listCost: nat, visited: set<Name>): nat
    decreases frags.Keys - visited, sel, 1
  {
    match sel
    case Field(name, sub) => Cost(name, listCost) + Complexity(sub, frags, listCost, visited) * Cost(name, listCost)
    case Inline(body) => Complexity(body, frags, listCost, visited)
    case Spread(f) =>
      if Follows(frags, visited, f) then
        StackGrows(frags, visited, f);
        Complexity(frags[f], frags, listCost, visited + {f})
      else 0
  }

  method ComputeComplexity(s: SelectionSet, frags: Fragments, listCost: nat, visited: set<Name>) returns (total: nat)
    ensures total == Complexity(s, frags, listCost, visited)
    decreases frags.Keys - visited, s
  {
    if s.NoSet? {
      return 0;
    }
    var items := s.items;
    total := 0;
    for i := 0 to |items|
      invariant total + ComplexityItems(items[i..], frags, listCost, visited)
                == ComplexityItems(items, frags, listCost, visited)
    {
      var sel := items[i];
      ghost var before := total;
      assert items[i..][0] == sel && items[i..][1..] == items[i + 1..];
      match sel {
        case Spread(f) =>
          if f !in visited && f in frags && frags[f].Selections? {
            StackGrows(frags, visited, f);
            var c := ComputeComplexity(frags[f], frags, listCost, visited + {f});
            total := total + c;
          }
        case Inline(body) =>
          var c := ComputeComplexity(body, frags, listCost, visited);
          total := total + c;
        case Field(name, sub) =>
          var fieldCost := if name in LIST_FIELD_NAMES then listCost else 1;
          total := total + fieldCost;
          if sub.Selections? {
            var childCost := ComputeComplexity(sub, frags, listCost, visited);
            total := total + childCost * fieldCost;
          }
      }
      assert total == before + ComplexityOne(sel, frags, listCost, visited);
    }
  }

  // ----------------------------------------- the measures are those of the expansion

  lemma {:induction false} LongestAppend(a: seq<seq<Name>>, b: seq<seq<Name>>)
    ensures Longest(a + b) == Max(Longest(a), Longest(b))
  {
    if a == [] {
      assert a + b == b;
    } else {
      assert (a + b)[1..] == a[1..] + b;
      LongestAppend(a[1..], b);
    }
  }

  lemma {:induction false} PathsAppend(a: seq<Tree>, b: seq<Tree>)
    ensures Paths(a + b) == Paths(a) + Paths(b)
  {
    if a == [] {
      assert a + b == b;
    } else {
      assert (a + b)[1..] == a[1..] + b;
      PathsAppend(a[1..], b);
      assert TreePaths(a[0]) + (Paths(a[1..]) + Paths(b)) == TreePaths(a[0]) + Paths(a[1..]) + Paths(b);
    }
  }

  lemma {:induction false} LongestUnder(name: Name, paths: seq<seq<Name>>)
    ensures Longest(Under(name, paths)) == if paths == [] then 0 else 1 + Longest(paths)
  {
    if paths != [] {
      LongestUnder(name, paths[1..]);
    }
  }

  lemma {:induction false} TotalAppend(a: seq<seq<Name>>, b: seq<seq<Name>>, listCost: nat)
    ensures TotalWeight(a + b, listCost) == TotalWeight(a, listCost) + TotalWeight(b, listCost)
  {
    if a == [] {
      assert a + b == b;
    } else {
      assert (a + b)[1..] == a[1..] + b;
      TotalAppend(a[1..], b, listCost);
    }
  }

  lemma Distribute(c: nat, w: nat, t: nat)
    ensures c * (w + t) == c * w + c * t
  {
  }

  lemma WeightOfChild(name: Name, path: seq<Name>, listCost: nat)
    ensures Weight([name] + path, listCost) == Cost(name, listCost) * Weight(path, listCost)
  {
    assert ([name] + path)[1..] == path;
  }

  lemma {:induction false} TotalUnder(name: Name, paths: seq<seq<Name>>, listCost: nat)
    ensures TotalWeight(Under(name, paths), listCost) == Cost(name, listCost) * TotalWeight(paths, listCost)
  {
    if paths != [] {
      TotalUnder(name, paths[1..], listCost);
      WeightOfChild(name, paths[0], listCost);
      Distribute(Cost(name, listCost), Weight(paths[0], listCost), TotalWeight(paths[1..], listCost));
    }
  }

  lemma TreeMeasures(t: Tree, listCost: nat)
    ensures Longest(Paths([t])) == 1 + Longest(Paths(t.children))
    ensures TotalWeight(Paths([t]), listCost)
            == Cost(t.name, listCost) + Cost(t.name, listCost) * TotalWeight(Paths(t.children), listCost)
  {
    var below := Under(t.name, Paths(t.children));
    assert Paths([t]) == TreePaths(t) + Paths([]);
    assert Paths([t]) == [[t.name]] + below;
    LongestAppend([[t.name]], below);
    LongestUnder(t.name, Paths(t.children));
    TotalAppend([[t.name]], below, listCost);
    TotalUnder(t.name, Paths(t.children), listCost);
    assert Weight([t.name], listCost) == Cost(t.name, listCost);
  }

  /** Depth is the length of the longest path and complexity the total weight of all paths. */
  ghost predicate Measures(forest: seq<Tree>, depth: nat, base: nat, complexity: nat, listCost: nat) {
    depth == base + Longest(Paths(forest)) && complexity == TotalWeight(Paths(forest), listCost)
  }

  lemma {:induction false} SetMeasures(s: SelectionSet, frags: Fragments, listCost: nat, base: nat, visited: set<Name>)
    ensures Measures(Expand(s, frags, visited), Depth(s, frags, base, visited), base,
                     Complexity(s, frags, listCost, visited), listCost)
    decreases frags.Keys - visited, s, 1
  {
    if s.Selections? {
      ItemsMeasures(s.items, frags, listCost, base, visited);
    }
  }

  lemma {:induction false} ItemsMeasures(items: seq<Selection>, frags: Fragments, listCost: nat, base: nat,
                                         visited: set<Name>)
    ensures Measures(ExpandItems(items, frags, visited), DepthItems(items, frags, base, visited), base,
                     ComplexityItems(items, frags, listCost, visited), listCost)
    decreases frags.Keys - visited, items, 0
  {
    if items != [] {
      OneMeasures(items[0], frags, listCost, base, visited);
      ItemsMeasures(items[1..], frags, listCost, base, visited);
      var a, b := ExpandOne(items[0], frags, visited), ExpandItems(items[1..], frags, visited);
      PathsAppend(a, b);
      LongestAppend(Paths(a), Paths(b));
      TotalAppend(Paths(a), Paths(b), listCost);
    }
  }

  /** A field adds a level and its own cost, and multiplies what lies below it. */
  lemma FieldMeasures(name: Name, below: seq<Tree>, depth: nat, base: nat, complexity: nat, listCost: nat)
    requires Measures(below, depth, base + 1, complexity, listCost)
    ensures Measures([Tree(name, below)], depth, base, Cost(name, listCost) + complexity * Cost(name, listCost),
            listCost)
  {
    TreeMeasures(Tree(name, below), listCost);
    assert complexity * Cost(name, listCost) == Cost(name, listCost) * complexity;
  }

  lemma {:induction false} OneMeasures(sel: Selection, frags: Fragments, listCost: nat, base: nat, visited: set<Name>)
    ensures Measures(ExpandOne(sel, frags, visited), DepthOne(sel, frags, base, visited), base,
                     ComplexityOne(sel, frags, listCost, visited), listCost)
    decreases frags.Keys - visited, sel, 1
  {
    match sel
    case Field(name, sub) =>
      SetMeasures(sub, frags, listCost, base + 1, visited);
      FieldMeasures(name, Expand(sub, frags, visited), Depth(sub, frags, base + 1, visited), base,
                    Complexity(sub, frags, listCost, visited), listCost);
    case Inline(body) => SetMeasures(body, frags, listCost, base, visited);
    case Spread(f) =>
      if Follows(frags, visited, f) {
        StackGrows(frags, visited, f);
        SetMeasures(frags[f], frags, listCost, base, visited + {f});
      }
  }

  // ------------------------------------------------- acyclic documents: true inlining

  /** Every fragment spread in the selection set that exists has a rank below `bound`. */
  ghost predicate Below(s: SelectionSet, frags: Fragments, rank: Name -> nat, bound: nat)
    decreases s, 1
  {
    s.NoSet? || BelowItems(s.items, frags, rank, bound)
  }

  ghost predicate BelowItems(items: seq<Selection>, frags: Fragments, rank: Name -> nat, bound: nat)
    decreases items, 0
  {
    items == [] || (BelowOne(items[0], frags, rank, bound) && BelowItems(items[1..], frags, rank, bound))
  }

  ghost predicate BelowOne(sel: Selection, frags: Fragments, rank: Name -> nat, bound: nat)
    decreases sel, 1
  {
    match sel
    case Field(_, sub) => Below(sub, frags, rank, bound)
    case Inline(body) => Below(body, frags, rank, bound)
    case Spread(f) => f in frags ==> rank(f) < bound
  }

  /** No fragment spreads itself, directly or through others: each spreads only lower ones. */
  ghost predicate Acyclic(frags: Fragments, rank: Name -> nat) {
    forall f :: f in frags ==> Below(frags[f], frags, rank, rank(f))
  }

  /** Replacing every spread by the fragment's own selections, with no guard at all. */
  ghost function Inlined(s: SelectionSet, frags: Fragments, rank: Name -> nat, bound: nat): seq<Tree>
    requires Acyclic(frags, rank) && Below(s, frags, rank, bound)
    decreases bound, s, 1
  {
    match s
    case NoSet => []
    case Selections(items) => InlinedItems(items, frags, rank, bound)
  }

  ghost function InlinedItems(items: seq<Selection>, frags: Fragments, rank: Name -> nat, bound: nat): seq<Tree>
    requires Acyclic(frags, rank) && BelowItems(items, frags, rank, bound)
    decreases bound, items, 0
  {
    if items == [] then []
    else InlinedOne(items[0], frags, rank, bound) + InlinedItems(items[1..], frags, rank, bound)
  }

  ghost function InlinedOne(sel: Selection, frags: Fragments, rank: Name -> nat, bound: nat): seq<Tree>
    requires Acyclic(frags, rank) && BelowOne(sel, frags, rank, bound)
    decreases bound, sel, 1
  {
    match sel
    case Field(name, sub) => [Tree(name, Inlined(sub, frags, rank, bound))]
    case Inline(body) => Inlined(body, frags, rank, bound)
    case Spread(f) => if f in frags then Inlined(frags[f], frags, rank, rank(f)) else []
  }

  /** The fragments on the stack are all ranked at or above the one being read. */
  ghost predicate StackAbove(visited: set<Name>, frags: Fragments, rank: Name -> nat, bound: nat) {
    forall f :: f in visited && f in frags ==> rank(f) >= bound
  }

  lemma {:induction false} SetInlines(s: SelectionSet, frags: Fragments, rank: Name -> nat, bound: nat,
                                      visited: set<Name>)
    requires Acyclic(frags, rank) && Below(s, frags, rank, bound) && StackAbove(visited, frags, rank, bound)
    ensures Expand(s, frags, visited) == Inlined(s, frags, rank, bound)
    decreases frags.Keys - visited, s, 1
  {
    if s.Selections? {
      ItemsInline(s.items, frags, rank, bound, visited);
    }
  }

  lemma {:induction false} ItemsInline(items: seq<Selection>, frags: Fragments, rank: Name -> nat, bound: nat,
                                       visited: set<Name>)
    requires Acyclic(frags, rank) && BelowItems(items, frags, rank, bound) && StackAbove(visited, frags, rank, bound)
    ensures ExpandItems(items, frags, visited) == InlinedItems(items, frags, rank, bound)
    decreases frags.Keys - visited, items, 0
  {
    if items != [] {
      OneInlines(items[0], frags, rank, bound, visited);
      ItemsInline(items[1..], frags, rank, bound, visited);
    }
  }

  /** The visited guard never fires on an acyclic document. */
  lemma {:induction false} OneInlines(sel: Selection, frags: Fragments, rank: Name -> nat, bound: nat,
                                      visited: set<Name>)
    requires Acyclic(frags, rank) && BelowOne(sel, frags, rank, bound) && StackAbove(visited, frags, rank, bound)
    ensures ExpandOne(sel, frags, visited) == InlinedOne(sel, frags, rank, bound)
    decreases frags.Keys - visited, sel, 1
  {
    match sel
    case Field(_, sub) => SetInlines(sub, frags, rank, bound, visited);
    case Inline(body) => SetInlines(body, frags, rank, bound, visited);
    case Spread(f) =>
      if Follows(frags, visited, f) {
        StackGrows(frags, visited, f);
        SetInlines(frags[f], frags, rank, rank(f), visited + {f});
      }
  }

  /** On an acyclic document, depth is the length of the longest path of the inlined query and
      complexity the sum over its fields of own cost times the costs of the ancestors. */
  lemma MeasuresOfInlinedQuery(s: SelectionSet, frags: Fragments, rank: Name -> nat, bound: nat, listCost: nat)
    requires Acyclic(frags, rank) && Below(s, frags, rank, bound)
    ensures Depth(s, frags, 0, {}) == Longest(Paths(Inlined(s, frags, rank, bound)))
    ensures Complexity(s, frags, listCost, {}) == TotalWeight(Paths(Inlined(s, frags, rank, bound)), listCost)
  {
    SetInlines(s, frags, rank, bound, {});
    SetMeasures(s, frags, listCost, 0, {});
  }

  // ------------------------------------------------------------------ whole documents

  /** Fragment name to body; a later definition of a name replaces an earlier one. */
  function FragmentMap(document: seq<Definition>): Fragments {
    if document == [] then map[]
    else
      var n := |document| - 1;
      var m := FragmentMap(document[..n]);
      if document[n].Fragment? then m[document[n].name := document[n].body] else m
  }

  /** Definition i is a fragment that no later definition replaces. */
  predicate IsLastOf(document: seq<Definition>, i: int) {
    && 0 <= i < |document| && document[i].Fragment?
    && forall j :: i < j < |document| && document[j].Fragment? ==> document[j].name != document[i].name
  }

  lemma {:induction false} LastDefinitionWins(document: seq<Definition>)
    ensures var frags := FragmentMap(document);
            && (forall i :: IsLastOf(document, i) ==>
              document[i].name in frags && frags[document[i].name] == document[i].body)
            && (forall name :: name in frags ==> exists i :: IsLastOf(document, i) && document[i].name == name)
    decreases |document|
  {
    if document != [] {
      var n := |document| - 1;
      var before, frags := document[..n], FragmentMap(document);
      LastDefinitionWins(before);
      forall i | IsLastOf(document, i) ensures document[i].name in frags
        && frags[document[i].name] == document[i].body {
        assert i < n ==> IsLastOf(before, i);
      }
      forall name | name in frags ensures exists i :: IsLastOf(document, i) && document[i].name == name {
        if document[n].Fragment? && document[n].name == name {
          assert IsLastOf(document, n);
        } else {
          assert name in FragmentMap(before);
          var i :| IsLastOf(before, i) && before[i].name == name;
          assert IsLastOf(document, i);
        }
      }
    }
  }

  method BuildFragmentMap(document: seq<Definition>) returns (frags: Fragments)
    ensures frags == FragmentMap(document)
    ensures forall i :: IsLastOf(document, i) ==>
            document[i].name in frags && frags[document[i].name] == document[i].body
    ensures forall name :: name in frags ==> exists i :: IsLastOf(document, i) && document[i].name == name
  {
    LastDefinitionWins(document);
    frags := map[];
    for i := 0 to |document|
      invariant frags == FragmentMap(document[..i])
    {
      assert document[..i + 1][..i] == document[..i];
      if document[i].Fragment? {
        frags := frags[document[i].name := document[i].body];
      }
    }
    assert document[..|document|] == document;
  }

  /** Every field of every operation, with its fragments resolved. */
  function DocumentPaths(document: seq<Definition>, frags: Fragments): seq<seq<Name>> {
    if document == [] then []
    else
      var n := |document| - 1;
      DocumentPaths(document[..n], frags)
      + if document[n].Operation? then Paths(Expand(document[n].body, frags, {})) else []
  }

  predicate PathOf(def: Definition, frags: Fragments, p: seq<Name>) {
    def.Operation? && p in Paths(Expand(def.body, frags, {}))
  }

  lemma LastDefinitionPaths(document: seq<Definition>, frags: Fragments, p: seq<Name>)
    requires document != []
    ensures p in DocumentPaths(document, frags)
            <==> p in DocumentPaths(document[..|document| - 1], frags) || PathOf(document[|document| - 1], frags, p)
  {
  }

  /** The paths of a document are those of its operations, each of them, and of nothing else. */
  lemma {:induction false} DocumentPathsAre(document: seq<Definition>, frags: Fragments, p: seq<Name>)
    ensures p in DocumentPaths(document, frags) <==> exists i :: 0 <= i < |document| && PathOf(document[i], frags, p)
    decreases |document|
  {
    if document != [] {
      var n := |document| - 1;
      var before := document[..n];
      LastDefinitionPaths(document, frags, p);
      DocumentPathsAre(before, frags, p);
      assert forall i :: 0 <= i < n ==> before[i] == document[i];
      if i :| 0 <= i < n && PathOf(before[i], frags, p) {
        assert PathOf(document[i], frags, p);
      }
      if i :| 0 <= i < |document| && PathOf(document[i], frags, p) {
        assert i < n ==> PathOf(before[i], frags, p);
      }
    }
  }

  function Power(base: nat, n: nat): nat { if n == 0 then 1 else base * Power(base, n - 1) }

  /** How many fields of the path, itself included, are lists. */
  function ListFields(path: seq<Name>): nat {
    if path == [] then 0
    else
      (if path[0] in ["donations", "wallets", "recentDonations", "dailyStats"] then 1 else 0) + ListFields(path[1..])
  }

  /** A field weighs one, times the list cost for itself and for each field above it that is a list. */
  lemma {:induction false} WeightIsPower(path: seq<Name>, listCost: nat)
    ensures Weight(path, listCost) == Power(listCost, ListFields(path))
  {
    if path != [] {
      WeightIsPower(path[1..], listCost);
    }
  }

  lemma {:induction false} LongestIsBound(paths: seq<seq<Name>>, max: nat)
    ensures Longest(paths) <= max <==> forall p :: p in paths ==> |p| <= max
  {
    if paths != [] {
      LongestIsBound(paths[1..], max);
      assert forall p :: p in paths <==> p == paths[0] || p in paths[1..];
    }
  }

  /** A document passes exactly when no field of any operation, fragments resolved, lies deeper
      than the limit: chaining fragments cannot hide depth. */
  method CheckDepth(document: seq<Definition>, maxQueryDepth: nat) returns (valid: bool, depth: nat)
    ensures depth == Longest(DocumentPaths(document, FragmentMap(document)))
    ensures valid <==> forall p :: p in DocumentPaths(document, FragmentMap(document)) ==> |p| <= maxQueryDepth
  {
    var frags := BuildFragmentMap(document);
    depth := 0;
    for i := 0 to |document|
      invariant depth == Longest(DocumentPaths(document[..i], frags))
    {
      var def := document[i];
      assert document[..i + 1][..i] == document[..i];
      if def.Operation? {
        var d := GetQueryDepth(def.body, frags, 0, {});
        SetMeasures(def.body, frags, 1, 0, {});
        LongestAppend(DocumentPaths(document[..i], frags), Paths(Expand(def.body, frags, {})));
        if d > depth {
          depth := d;
        }
      } else {
        assert DocumentPaths(document[..i + 1], frags) == DocumentPaths(document[..i], frags);
      }
    }
    assert document[..|document|] == document;
    LongestIsBound(DocumentPaths(document, frags), maxQueryDepth);
    valid := depth <= maxQueryDepth;
  }

  /** A document passes exactly when its fields, each weighted by the list fields above it, cost
      no more than the budget. */
  method CheckComplexity(document: seq<Definition>, listCost: nat, budget: nat) returns (valid: bool, complexity: nat)
    ensures complexity == TotalWeight(DocumentPaths(document, FragmentMap(document)), listCost)
    ensures valid <==> complexity <= budget
  {
    var frags := BuildFragmentMap(document);
    complexity := 0;
    for i := 0 to |document|
      invariant complexity == TotalWeight(DocumentPaths(document[..i], frags), listCost)
    {
      var def := document[i];
      assert document[..i + 1][..i] == document[..i];
      if def.Operation? {
        var c := ComputeComplexity(def.body, frags, listCost, {});
        SetMeasures(def.body, frags, listCost, 0, {});
        TotalAppend(DocumentPaths(document[..i], frags), Paths(Expand(def.body, frags, {})), listCost);
        complexity := complexity + c;
      } else {
        assert DocumentPaths(document[..i + 1], frags) == DocumentPaths(document[..i], frags);
      }
    }
    assert document[..|document|] == document;
    valid := complexity <= budget;
  }
}
