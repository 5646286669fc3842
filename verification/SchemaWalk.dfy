// internal/contract/schema.go: collecting every maxLength and inline enum a schema declares or
// inherits, by a depth-first walk of its allOf graph.
module SchemaWalk {
  import opened Basics
  import opened Permutations
  import opened SchemaGraph
  import opened SchemaOrder

  /** Schemas: the records collected so far. */
  class Schemas {
    var bounds: seq<Bound>
    var propEnums: seq<PropEnum>

    constructor ()
      ensures bounds == [] && propEnums == []
    {
      bounds, propEnums := [], [];
    }
  }

  /** The seen set of one walk; the ghost order lists its members in the order they were entered. */
  class Seen {
    var nodes: set<nat>
    ghost var order: seq<nat>

    constructor ()
      ensures nodes == {} && order == [] && Valid()
    {
      nodes, order := {}, [];
    }

    ghost predicate Valid()
      reads this
    {
      NoRepeats(order) && nodes == Members(order)
    }

    method Add(n: nat)
      requires Valid() && n !in nodes
      modifies this
      ensures Valid() && nodes == old(nodes) + {n} && order == old(order) + [n]
    {
      nodes := nodes + {n};
      order := order + [n];
    }
  }

  /** splitEnum: strings and a bare null apart, anything else refused. */
  method SplitEnum(members: seq<Member>) returns (values: seq<string>, hasNull: bool, err: bool)
    ensures err <==> Other in members
    ensures !err ==> values == Strings(members) && (hasNull <==> Null in members)
  {
    values, hasNull := [], false;
    for i := 0 to |members|
      invariant Other !in members[..i]
      invariant values == Strings(members[..i]) && (hasNull <==> Null in members[..i])
    {
      var v := members[i];
      assert members[..i + 1][..i] == members[..i];
      match v {
        case Null => hasNull := true;
        case Str(s) => values := values + [s];
        case Other => return [], false, true;
      }
    }
    assert members[..|members|] == members;
    err := false;
  }

  /** One turn of collectProps's property loop. */
  method CollectProperty(name: string, p: Property, out: Schemas) returns (err: bool)
    modifies out
    ensures err <==> BadProperty(p)
    ensures !err ==> out.bounds == old(out.bounds) + BoundsOf(name, p)
    ensures !err ==> out.propEnums == old(out.propEnums) + EnumsOf(name, p)
  {
    if p.value.None? {
      return false;
    }
    if p.value.value.maxLength.Some? {
      var n := p.value.value.maxLength.value;
      if n <= MAX_INT {
        out.bounds := out.bounds + [Bound(name, p.name, n)];
      }
    }
    if p.ref == "" && |p.value.value.enum| > 0 {
      var values, hasNull, bad := SplitEnum(p.value.value.enum);
      if bad {
        return true;
      }
      out.propEnums := out.propEnums + [PropEnum(name, p.name, values, hasNull)];
    }
    return false;
  }

  /** The records grew by what the properties declare, in their order, and none of those is bad. */
  ghost predicate Declared(name: string, ps: seq<Property>,
                           bounds0: seq<Bound>, enums0: seq<PropEnum>, bounds: seq<Bound>, enums: seq<PropEnum>) {
    && (forall p | p in ps :: !BadProperty(p))
    && bounds == bounds0 + AllBounds(name, ps)
    && enums == enums0 + AllEnums(name, ps)
  }

  lemma DeclaredThen(name: string, ps: seq<Property>, i: nat,
                     bounds0: seq<Bound>, enums0: seq<PropEnum>, bounds: seq<Bound>, enums: seq<PropEnum>)
    requires i < |ps| && !BadProperty(ps[i]) && Declared(name, ps[..i], bounds0, enums0, bounds, enums)
    ensures Declared(name, ps[..i + 1], bounds0, enums0, bounds + BoundsOf(name, ps[i]), enums + EnumsOf(name, ps[i]))
  {
    var longer := ps[..i + 1];
    assert longer == ps[..i] + [ps[i]] && longer[..i] == ps[..i];
    Associate(bounds0, AllBounds(name, ps[..i]), BoundsOf(name, ps[i]));
    Associate(enums0, AllEnums(name, ps[..i]), EnumsOf(name, ps[i]));
  }

  /** The property loop of collectProps on one schema. */
  method CollectOwn(name: string, s: Schema, out: Schemas) returns (err: bool)
    modifies out
    ensures err <==> Bad(s)
    ensures !err ==> out.bounds == old(out.bounds) + AllBounds(name, s.properties)
    ensures !err ==> out.propEnums == old(out.propEnums) + AllEnums(name, s.properties)
  {
    var ps := s.properties;
    ghost var bounds0, enums0 := out.bounds, out.propEnums;
    for i := 0 to |ps|
      invariant Declared(name, ps[..i], bounds0, enums0, out.bounds, out.propEnums)
    {
      ghost var bounds1, enums1 := out.bounds, out.propEnums;
      err := CollectProperty(name, ps[i], out);
      if err {
        return;
      }
      DeclaredThen(name, ps, i, bounds0, enums0, bounds1, enums1);
    }
    assert ps[..|ps|] == ps;
    return false;
  }

  // ----- the walk

  /** The records grew by exactly what the schemas in `added` declare, one schema after the other. */
  ghost predicate Gathered(g: Graph, name: string, added: seq<nat>,
                           bounds0: seq<Bound>, enums0: seq<PropEnum>, bounds: seq<Bound>, enums: seq<PropEnum>) {
    && Entered(g, added)
    && bounds == bounds0 + ListedBounds(g, name, added)
    && enums == enums0 + ListedEnums(g, name, added)
  }

  lemma GatheredThen(g: Graph, name: string, a: seq<nat>, b: seq<nat>,
                     bounds0: seq<Bound>, enums0: seq<PropEnum>,
                     bounds1: seq<Bound>, enums1: seq<PropEnum>, bounds2: seq<Bound>, enums2: seq<PropEnum>)
    requires Gathered(g, name, a, bounds0, enums0, bounds1, enums1)
    requires Gathered(g, name, b, bounds1, enums1, bounds2, enums2)
    ensures Gathered(g, name, a + b, bounds0, enums0, bounds2, enums2)
  {
    ListedConcat(g, name, a, b);
    Associate(bounds0, ListedBounds(g, name, a), ListedBounds(g, name, b));
    Associate(enums0, ListedEnums(g, name, a), ListedEnums(g, name, b));
  }

  lemma GatheredOne(g: Graph, name: string, n: nat, bounds0: seq<Bound>, enums0: seq<PropEnum>)
    requires n in g
    ensures Gathered(g, name, [n], bounds0, enums0,
                     bounds0 + AllBounds(name, g[n].properties), enums0 + AllEnums(name, g[n].properties))
  {
    assert [n][..0] == [];
    assert ListedBounds(g, name, [n]) == AllBounds(name, g[n].properties);
    assert ListedEnums(g, name, [n]) == AllEnums(name, g[n].properties);
  }

  /** Some schema of the list declares an inline enum that is not all strings and nulls. */
  ghost predicate AnyBad(g: Graph, nodes: seq<nat>) { exists n :: n in nodes && n in g && Bad(g[n]) }

  /**
   * collectProps, as a refinement of Visit: it fails exactly when one of the schemas it has to enter is
   * bad, and otherwise enters them in Visit's order and records what each declares. A nil schema or
   * one already seen adds nothing.
   */
  method CollectProps(g: Graph, name: string, s: Option<nat>, out: Schemas, seen: Seen) returns (err: bool)
    requires Closed(g) && seen.Valid() && Entered(g, seen.order) && (s.Some? ==> s.value in g)
    modifies out, seen
    ensures err <==> AnyBad(g, Since(old(seen.order), Visit(g, s, old(seen.order))))
    ensures !err ==> seen.Valid() && seen.order == Visit(g, s, old(seen.order))
    ensures !err ==> Gathered(g, name, Since(old(seen.order), Visit(g, s, old(seen.order))),
                              old(out.bounds), old(out.propEnums), out.bounds, out.propEnums)
    decreases g.Keys - seen.nodes, 1
  {
    if s.None? {
      return false;
    }
    var node := s.value;
    if node in seen.nodes {
      return false;
    }
    ghost var order0, bounds0, enums0 := seen.order, out.bounds, out.propEnums;
    seen.Add(node);
    EnteredFirst(g, node, order0);
    err := CollectOwn(name, g[node], out);
    if err {
      return;
    }
    GatheredOne(g, name, node, bounds0, enums0);
    ghost var bounds1, enums1 := out.bounds, out.propEnums;
    err := CollectBranches(g, name, g[node].allOf, out, seen);
    if !err {
      GatheredThen(g, name, [node], Since(order0 + [node], seen.order),
                   bounds0, enums0, bounds1, enums1, out.bounds, out.propEnums);
    }
  }

  lemma EnteredFirst(g: Graph, node: nat, order: seq<nat>)
    requires Closed(g) && Entered(g, order) && node in g && node !in order
    ensures Members(order + [node]) == Members(order) + {node} && Branches(g, g[node].allOf)
    ensures var entered, r := order + [node], Visit(g, Some(node), order);
            && r == VisitAll(g, g[node].allOf, entered)
            && Since(order, r) == [node] + Since(entered, r)
            && (AnyBad(g, Since(order, r)) <==> Bad(g[node]) || AnyBad(g, Since(entered, r)))
  {
    var entered, r := order + [node], Visit(g, Some(node), order);
    SinceThen(order, entered, r);
    AnyBadConcat(g, [node], Since(entered, r));
    assert Since(order, entered) == [node];
  }

  lemma AnyBadConcat(g: Graph, a: seq<nat>, b: seq<nat>)
    ensures AnyBad(g, a + b) <==> AnyBad(g, a) || AnyBad(g, b)
  {
  }

  /** The allOf loop of collectProps. */
  method CollectBranches(g: Graph, name: string, branches: seq<Option<nat>>, out: Schemas, seen: Seen)
    returns (err: bool)
    requires Closed(g) && seen.Valid() && Entered(g, seen.order) && Branches(g, branches)
    modifies out, seen
    ensures err <==> AnyBad(g, Since(old(seen.order), VisitAll(g, branches, old(seen.order))))
    ensures !err ==> seen.Valid() && seen.order == VisitAll(g, branches, old(seen.order))
    ensures !err ==> Gathered(g, name, Since(old(seen.order), VisitAll(g, branches, old(seen.order))),
                              old(out.bounds), old(out.propEnums), out.bounds, out.propEnums)
    decreases g.Keys - seen.nodes, 2
  {
    ghost var order0, bounds0, enums0 := seen.order, out.bounds, out.propEnums;
    for i := 0 to |branches|
      invariant seen.Valid() && seen.order == VisitAll(g, branches[..i], order0)
      invariant Progress(g, name, order0, seen.order, bounds0, enums0, out.bounds, out.propEnums)
    {
      ghost var order1, bounds1, enums1 := seen.order, out.bounds, out.propEnums;
      NextBranch(g, branches, i, order0);
      err := CollectProps(g, name, branches[i], out, seen);
      if err {
        return;
      }
      ProgressThen(g, name, order0, order1, seen.order, bounds0, enums0, bounds1, enums1, out.bounds, out.propEnums);
    }
    assert branches[..|branches|] == branches;
    return false;
  }

  /** Between two moments of a walk without failure: the records grew by what was entered, none of it bad. */
  ghost predicate Progress(g: Graph, name: string, order0: seq<nat>, order: seq<nat>,
                           bounds0: seq<Bound>, enums0: seq<PropEnum>, bounds: seq<Bound>, enums: seq<PropEnum>) {
    && order0 <= order && !AnyBad(g, Since(order0, order))
    && Gathered(g, name, Since(order0, order), bounds0, enums0, bounds, enums)
  }

  lemma ProgressThen(g: Graph, name: string, order0: seq<nat>, order1: seq<nat>, order2: seq<nat>,
                     bounds0: seq<Bound>, enums0: seq<PropEnum>,
                     bounds1: seq<Bound>, enums1: seq<PropEnum>, bounds2: seq<Bound>, enums2: seq<PropEnum>)
    requires Progress(g, name, order0, order1, bounds0, enums0, bounds1, enums1)
    requires Progress(g, name, order1, order2, bounds1, enums1, bounds2, enums2)
    ensures Progress(g, name, order0, order2, bounds0, enums0, bounds2, enums2)
  {
    SinceThen(order0, order1, order2);
    AnyBadConcat(g, Since(order0, order1), Since(order1, order2));
    GatheredThen(g, name, Since(order0, order1), Since(order1, order2),
                 bounds0, enums0, bounds1, enums1, bounds2, enums2);
  }

  lemma NextBranch(g: Graph, branches: seq<Option<nat>>, i: nat, order: seq<nat>)
    requires Closed(g) && Entered(g, order) && Branches(g, branches) && i < |branches|
    ensures branches[i] in branches && Branches(g, branches[..i]) && Branches(g, branches[..i + 1])
    ensures var before, after, all := VisitAll(g, branches[..i], order), VisitAll(g, branches[..i + 1], order),
                                      VisitAll(g, branches, order);
            && after == Visit(g, branches[i], before)
            && (AnyBad(g, Since(before, after)) ==> AnyBad(g, Since(order, all)))
  {
    var before, after, all := VisitAll(g, branches[..i], order), VisitAll(g, branches[..i + 1], order),
                              VisitAll(g, branches, order);
    assert branches[..i + 1][..i] == branches[..i];
    VisitAllGrows(g, branches, i + 1, order);
    SinceThen(order, before, all);
    SinceThen(before, after, all);
    AnyBadConcat(g, Since(order, before), Since(before, all));
    AnyBadConcat(g, Since(before, after), Since(after, all));
  }

  lemma {:induction false} VisitAllGrows(g: Graph, branches: seq<Option<nat>>, k: nat, order: seq<nat>)
    requires Closed(g) && Entered(g, order) && Branches(g, branches) && k <= |branches|
    ensures VisitAll(g, branches[..k], order) <= VisitAll(g, branches, order)
  {
    if k == |branches| {
      assert branches[..k] == branches;
    } else {
      var init := branches[..|branches| - 1];
      VisitAllGrows(g, init, k, order);
      assert init[..k] == branches[..k];
    }
  }
}
