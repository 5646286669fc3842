// ScanSchemas's loop over the named components, and its independence of Go's map iteration order.
module SchemaScan {
  import opened Basics
  import opened Permutations
  import opened SchemaGraph
  import opened SchemaOrder
  import opened SchemaWalk

  // ----- one named schema

  /** Some schema reachable from s declares an inline enum that is not all strings and nulls. */
  ghost predicate ReachesBad(g: Graph, s: nat) { exists n :: n in g && Reaches(g, s, n) && Bad(g[n]) }

  /**
   * One named schema: a walk with a fresh seen set. It terminates on every finite graph, fails
   * exactly when some reachable schema has a bad inline enum, and otherwise records every reachable
   * schema's declarations exactly once, in depth-first order.
   */
  method WalkSchema(g: Graph, name: string, root: nat, out: Schemas) returns (err: bool)
    requires Closed(g) && root in g
    modifies out
    ensures Enumerates(g, root, WalkOrder(g, root))
    ensures err <==> ReachesBad(g, root)
    ensures !err ==> out.bounds == old(out.bounds) + ListedBounds(g, name, WalkOrder(g, root))
    ensures !err ==> out.propEnums == old(out.propEnums) + ListedEnums(g, name, WalkOrder(g, root))
  {
    var seen := new Seen();
    err := CollectProps(g, name, Some(root), out, seen);
    WalkEnumerates(g, root);
    assert Since([], WalkOrder(g, root)) == WalkOrder(g, root);
  }

  // ----- the whole document

  datatype Enum = Enum(schema: string, values: seq<string>, hasNull: bool)

  /** A named component: its name and the schema it resolves to, if any. */
  datatype Component = Component(name: string, root: Option<nat>)

  ghost predicate WellFormed(g: Graph, doc: seq<Component>) {
    Closed(g) && forall c | c in doc :: c.root.Some? ==> c.root.value in g
  }

  /** The scan must refuse this component: a bad inline enum within reach, or a bad enum of its own. */
  ghost predicate Refused(g: Graph, c: Component) {
    c.root.Some? && c.root.value in g && (ReachesBad(g, c.root.value) || Other in g[c.root.value].enum)
  }

  /** enumOf: the enum a component declares itself. */
  function OwnEnum(g: Graph, c: Component): seq<Enum> {
    if c.root.Some? && c.root.value in g && g[c.root.value].enum != []
    then [Enum(c.name, Strings(g[c.root.value].enum), Null in g[c.root.value].enum)] else []
  }

  function OwnEnums(g: Graph, doc: seq<Component>): seq<Enum> {
    if doc == [] then [] else OwnEnums(g, doc[..|doc| - 1]) + OwnEnum(g, doc[|doc| - 1])
  }

  /** What one component adds to the bounds: those of each reachable schema, once each. */
  ghost function ComponentBounds(g: Graph, c: Component): seq<Bound> {
    if Closed(g) && c.root.Some? && c.root.value in g
    then ListedBounds(g, c.name, WalkOrder(g, c.root.value)) else []
  }

  ghost function ComponentEnums(g: Graph, c: Component): seq<PropEnum> {
    if Closed(g) && c.root.Some? && c.root.value in g
    then ListedEnums(g, c.name, WalkOrder(g, c.root.value)) else []
  }

  ghost function DocBounds(g: Graph, doc: seq<Component>): seq<Bound> {
    if doc == [] then [] else DocBounds(g, doc[..|doc| - 1]) + ComponentBounds(g, doc[|doc| - 1])
  }

  ghost function DocEnums(g: Graph, doc: seq<Component>): seq<PropEnum> {
    if doc == [] then [] else DocEnums(g, doc[..|doc| - 1]) + ComponentEnums(g, doc[|doc| - 1])
  }

  /** The loop's body: a fresh walk, then the component's own enum; a component that resolves to nothing is skipped. */
  method ScanComponent(g: Graph, c: Component, out: Schemas) returns (err: bool, own: seq<Enum>)
    requires Closed(g) && (c.root.Some? ==> c.root.value in g)
    modifies out
    ensures err <==> Refused(g, c)
    ensures !err ==> out.bounds == old(out.bounds) + ComponentBounds(g, c)
    ensures !err ==> out.propEnums == old(out.propEnums) + ComponentEnums(g, c)
    ensures !err ==> own == OwnEnum(g, c)
  {
    own := [];
    if c.root.None? {
      return false, own;
    }
    err := WalkSchema(g, c.name, c.root.value, out);
    if err {
      return;
    }
    if |g[c.root.value].enum| > 0 {
      var values, hasNull, bad := SplitEnum(g[c.root.value].enum);
      if bad {
        return true, own;
      }
      own := [Enum(c.name, values, hasNull)];
    }
  }

  /**
   * ScanSchemas's loop over the named components. It fails exactly when some component must be
   * refused; otherwise it has recorded, component by component, every reachable schema's
   * declarations exactly once, and every component's own enum.
   */
  method Scan(g: Graph, doc: seq<Component>) returns (err: bool, out: Schemas, enums: seq<Enum>)
    requires WellFormed(g, doc)
    ensures fresh(out)
    ensures err <==> exists c | c in doc :: Refused(g, c)
    ensures !err ==> out.bounds == DocBounds(g, doc) && out.propEnums == DocEnums(g, doc)
    ensures !err ==> enums == OwnEnums(g, doc)
  {
    out := new Schemas();
    enums := [];
    for i := 0 to |doc|
      invariant fresh(out)
      invariant forall c | c in doc[..i] :: !Refused(g, c)
      invariant out.bounds == DocBounds(g, doc[..i]) && out.propEnums == DocEnums(g, doc[..i])
      invariant enums == OwnEnums(g, doc[..i])
    {
      assert doc[..i + 1] == doc[..i] + [doc[i]] && doc[i] in doc;
      var own;
      err, own := ScanComponent(g, doc[i], out);
      if err {
        return;
      }
      enums := enums + own;
    }
    assert doc[..|doc|] == doc;
    err := false;
  }

  // ----- membership

  /** A component declares a bound, itself or through allOf. */
  ghost predicate Declares(g: Graph, c: Component, b: Bound) {
    && c.root.Some?
    && exists n, p :: n in g && Reaches(g, c.root.value, n) && p in g[n].properties && RecordsBound(c.name, p, b)
  }

  /** A component declares an inline property enum, itself or through allOf. */
  ghost predicate DeclaresEnum(g: Graph, c: Component, e: PropEnum) {
    && c.root.Some?
    && exists n, p :: n in g && Reaches(g, c.root.value, n) && p in g[n].properties && RecordsEnum(c.name, p, e)
  }

  lemma {:induction false} AllMembers(name: string, ps: seq<Property>, b: Bound, e: PropEnum)
    ensures b in AllBounds(name, ps) <==> exists p | p in ps :: RecordsBound(name, p, b)
    ensures e in AllEnums(name, ps) <==> exists p | p in ps :: RecordsEnum(name, p, e)
  {
    if ps != [] {
      AllMembers(name, ps[..|ps| - 1], b, e);
      var last := ps[|ps| - 1];
      assert ps == ps[..|ps| - 1] + [last];
      RecordsIff(name, last, b, e);
      assert b in BoundsOf(name, last) <==> BoundsOf(name, last) == [b];
      assert e in EnumsOf(name, last) <==> EnumsOf(name, last) == [e];
    }
  }

  lemma {:induction false} ListedMembers(g: Graph, name: string, order: seq<nat>, b: Bound, e: PropEnum)
    requires forall n | n in order :: n in g
    ensures b in ListedBounds(g, name, order) <==>
            exists n, p | n in order && p in g[n].properties :: RecordsBound(name, p, b)
    ensures e in ListedEnums(g, name, order) <==>
            exists n, p | n in order && p in g[n].properties :: RecordsEnum(name, p, e)
  {
    if order != [] {
      var init, last := order[..|order| - 1], order[|order| - 1];
      assert order == init + [last];
      ListedMembers(g, name, init, b, e);
      AllMembers(name, g[last].properties, b, e);
    }
  }

  lemma ComponentMembers(g: Graph, c: Component, b: Bound, e: PropEnum)
    requires Closed(g) && (c.root.Some? ==> c.root.value in g)
    ensures b in ComponentBounds(g, c) <==> Declares(g, c, b)
    ensures e in ComponentEnums(g, c) <==> DeclaresEnum(g, c, e)
  {
    if c.root.Some? {
      WalkEnumerates(g, c.root.value);
      ListedMembers(g, c.name, WalkOrder(g, c.root.value), b, e);
    }
  }

  /** What a scan recorded is what the components declare or inherit, nothing missing and nothing else. */
  lemma {:induction false} ScannedMembers(g: Graph, doc: seq<Component>, b: Bound, e: PropEnum)
    requires WellFormed(g, doc)
    ensures b in DocBounds(g, doc) <==> exists c | c in doc :: Declares(g, c, b)
    ensures e in DocEnums(g, doc) <==> exists c | c in doc :: DeclaresEnum(g, c, e)
  {
    if doc != [] {
      var init, last := doc[..|doc| - 1], doc[|doc| - 1];
      assert doc == init + [last];
      ScannedMembers(g, init, b, e);
      ComponentMembers(g, last, b, e);
    }
  }

  lemma BoundInDocument(g: Graph, doc: seq<Component>, b: Bound)
    ensures (exists c | c in doc :: Declares(g, c, b)) <==>
            exists c, n, p ::
              && c in doc && c.root.Some? && n in g && Reaches(g, c.root.value, n) && p in g[n].properties
              && p.value.Some? && p.value.value.maxLength == Some(b.maxLength)
              && b.maxLength <= 0x7FFF_FFFF_FFFF_FFFF
              && b.schema == c.name && b.property == p.name
  {
    if c :| c in doc && Declares(g, c, b) {
      var n, p :| n in g && Reaches(g, c.root.value, n) && p in g[n].properties && RecordsBound(c.name, p, b);
    }
    if c, n, p :| && c in doc && c.root.Some? && n in g && Reaches(g, c.root.value, n) && p in g[n].properties
                  && p.value.Some? && p.value.value.maxLength == Some(b.maxLength)
                  && b.maxLength <= 0x7FFF_FFFF_FFFF_FFFF
                  && b.schema == c.name && b.property == p.name {
      assert RecordsBound(c.name, p, b);
    }
  }

  lemma EnumInDocument(g: Graph, doc: seq<Component>, e: PropEnum)
    ensures (exists c | c in doc :: DeclaresEnum(g, c, e)) <==>
            exists c, n, p ::
              && c in doc && c.root.Some? && n in g && Reaches(g, c.root.value, n) && p in g[n].properties
              && p.ref == "" && p.value.Some? && p.value.value.enum != []
              && e.schema == c.name && e.property == p.name
              && e.values == Strings(p.value.value.enum) && (e.hasNull <==> Null in p.value.value.enum)
  {
    if c :| c in doc && DeclaresEnum(g, c, e) {
      var n, p :| n in g && Reaches(g, c.root.value, n) && p in g[n].properties && RecordsEnum(c.name, p, e);
    }
    if c, n, p :| && c in doc && c.root.Some? && n in g && Reaches(g, c.root.value, n) && p in g[n].properties
                  && p.ref == "" && p.value.Some? && p.value.value.enum != []
                  && e.schema == c.name && e.property == p.name
                  && e.values == Strings(p.value.value.enum) && (e.hasNull <==> Null in p.value.value.enum) {
      assert RecordsEnum(c.name, p, e);
    }
  }

  /**
   * The bounds a scan recorded, in terms of the document: one for every property with a maxLength that an
   * int holds, of every schema a component reaches; nothing missing and nothing else.
   */
  lemma ScannedBounds(g: Graph, doc: seq<Component>, b: Bound)
    requires WellFormed(g, doc)
    ensures b in DocBounds(g, doc) <==>
            exists c, n, p ::
              && c in doc && c.root.Some? && n in g && Reaches(g, c.root.value, n) && p in g[n].properties
              && p.value.Some? && p.value.value.maxLength == Some(b.maxLength)
              && b.maxLength <= 0x7FFF_FFFF_FFFF_FFFF
              && b.schema == c.name && b.property == p.name
  {
    ScannedMembers(g, doc, b, PropEnum("", "", [], false));
    BoundInDocument(g, doc, b);
  }

  /** The property enums a scan recorded: one for every non-empty enum declared inline, not through a $ref. */
  lemma ScannedEnums(g: Graph, doc: seq<Component>, e: PropEnum)
    requires WellFormed(g, doc)
    ensures e in DocEnums(g, doc) <==>
            exists c, n, p ::
              && c in doc && c.root.Some? && n in g && Reaches(g, c.root.value, n) && p in g[n].properties
              && p.ref == "" && p.value.Some? && p.value.value.enum != []
              && e.schema == c.name && e.property == p.name
              && e.values == Strings(p.value.value.enum) && (e.hasNull <==> Null in p.value.value.enum)
  {
    ScannedMembers(g, doc, Bound("", "", 0), e);
    EnumInDocument(g, doc, e);
  }

  /** What a scan refuses, in terms of the document. */
  lemma RefusedIff(g: Graph, c: Component)
    ensures Refused(g, c) <==>
            && c.root.Some? && c.root.value in g
            && (|| Other in g[c.root.value].enum
                || exists n, p :: && n in g && Reaches(g, c.root.value, n) && p in g[n].properties
                                  && p.ref == "" && p.value.Some? && Other in p.value.value.enum)
  {
    if c.root.Some? && ReachesBad(g, c.root.value) {
      var n :| n in g && Reaches(g, c.root.value, n) && Bad(g[n]);
      var p :| p in g[n].properties && BadProperty(p);
    }
  }

  /** A component's own enum is recorded under its name, with its strings in order and null told apart. */
  ghost predicate DeclaresOwn(g: Graph, c: Component, e: Enum) {
    && c.root.Some? && c.root.value in g && g[c.root.value].enum != [] && e.schema == c.name
    && e.values == Strings(g[c.root.value].enum) && (e.hasNull <==> Null in g[c.root.value].enum)
  }

  lemma {:induction false} OwnEnumMembers(g: Graph, doc: seq<Component>, e: Enum)
    ensures e in OwnEnums(g, doc) <==> exists c | c in doc :: DeclaresOwn(g, c, e)
  {
    if doc != [] {
      var init, last := doc[..|doc| - 1], doc[|doc| - 1];
      assert doc == init + [last];
      OwnEnumMembers(g, init, e);
      assert e in OwnEnum(g, last) <==> DeclaresOwn(g, last, e);
    }
  }

  // ----- Go's map order does not matter

  /** The same schemas, with their property maps iterated in another order. */
  ghost predicate Reordered(g: Graph, h: Graph) {
    && SameBranches(g, h)
    && forall n | n in g :: multiset(g[n].properties) == multiset(h[n].properties) && g[n].enum == h[n].enum
  }

  ghost function BoundsMaker(name: string): Property -> multiset<Bound> { p => multiset(BoundsOf(name, p)) }

  ghost function EnumsMaker(name: string): Property -> multiset<PropEnum> { p => multiset(EnumsOf(name, p)) }

  lemma {:induction false} AllAsSums(name: string, ps: seq<Property>)
    ensures multiset(AllBounds(name, ps)) == SumOver(ps, BoundsMaker(name))
    ensures multiset(AllEnums(name, ps)) == SumOver(ps, EnumsMaker(name))
  {
    if ps != [] { AllAsSums(name, ps[..|ps| - 1]); }
  }

  /** One schema's records, counted with multiplicity, do not depend on the order of its properties. */
  lemma AllPermuted(name: string, ps: seq<Property>, qs: seq<Property>)
    requires multiset(ps) == multiset(qs)
    ensures multiset(AllBounds(name, ps)) == multiset(AllBounds(name, qs))
    ensures multiset(AllEnums(name, ps)) == multiset(AllEnums(name, qs))
  {
    AllAsSums(name, ps);
    AllAsSums(name, qs);
    SumPermuted(ps, qs, BoundsMaker(name));
    SumPermuted(ps, qs, EnumsMaker(name));
  }

  lemma {:induction false} ListedReordered(g: Graph, h: Graph, name: string, order: seq<nat>)
    requires Reordered(g, h) && Entered(g, order)
    ensures multiset(ListedBounds(g, name, order)) == multiset(ListedBounds(h, name, order))
    ensures multiset(ListedEnums(g, name, order)) == multiset(ListedEnums(h, name, order))
  {
    if order != [] {
      var last := order[|order| - 1];
      assert last in order;
      ListedReordered(g, h, name, order[..|order| - 1]);
      AllPermuted(name, g[last].properties, h[last].properties);
    }
  }

  lemma ComponentReordered(g: Graph, h: Graph, c: Component)
    requires Reordered(g, h)
    ensures multiset(ComponentBounds(g, c)) == multiset(ComponentBounds(h, c))
    ensures multiset(ComponentEnums(g, c)) == multiset(ComponentEnums(h, c))
    ensures OwnEnum(g, c) == OwnEnum(h, c)
  {
    assert Closed(g) <==> Closed(h);
    if Closed(g) && c.root.Some? && c.root.value in g {
      WalkSame(g, h, c.root.value);
      ListedReordered(g, h, c.name, WalkOrder(g, c.root.value));
    }
  }

  ghost function ComponentBoundsMaker(g: Graph): Component -> multiset<Bound> { c => multiset(ComponentBounds(g, c)) }

  ghost function ComponentEnumsMaker(g: Graph): Component -> multiset<PropEnum> { c => multiset(ComponentEnums(g, c)) }

  ghost function OwnEnumMaker(g: Graph): Component -> multiset<Enum> { c => multiset(OwnEnum(g, c)) }

  lemma {:induction false} DocAsSums(g: Graph, doc: seq<Component>)
    ensures multiset(DocBounds(g, doc)) == SumOver(doc, ComponentBoundsMaker(g))
    ensures multiset(DocEnums(g, doc)) == SumOver(doc, ComponentEnumsMaker(g))
    ensures multiset(OwnEnums(g, doc)) == SumOver(doc, OwnEnumMaker(g))
  {
    if doc != [] { DocAsSums(g, doc[..|doc| - 1]); }
  }

  lemma DocPermuted(g: Graph, doc: seq<Component>, doc': seq<Component>)
    requires multiset(doc) == multiset(doc')
    ensures multiset(DocBounds(g, doc)) == multiset(DocBounds(g, doc'))
    ensures multiset(DocEnums(g, doc)) == multiset(DocEnums(g, doc'))
    ensures multiset(OwnEnums(g, doc)) == multiset(OwnEnums(g, doc'))
  {
    DocAsSums(g, doc);
    DocAsSums(g, doc');
    SumPermuted(doc, doc', ComponentBoundsMaker(g));
    SumPermuted(doc, doc', ComponentEnumsMaker(g));
    SumPermuted(doc, doc', OwnEnumMaker(g));
  }

  lemma DocReordered(g: Graph, h: Graph, doc: seq<Component>)
    requires Reordered(g, h)
    ensures multiset(DocBounds(g, doc)) == multiset(DocBounds(h, doc))
    ensures multiset(DocEnums(g, doc)) == multiset(DocEnums(h, doc))
    ensures multiset(OwnEnums(g, doc)) == multiset(OwnEnums(h, doc))
  {
    DocAsSums(g, doc);
    DocAsSums(h, doc);
    forall c | c in doc
      ensures ComponentBoundsMaker(g)(c) == ComponentBoundsMaker(h)(c)
      ensures ComponentEnumsMaker(g)(c) == ComponentEnumsMaker(h)(c)
      ensures OwnEnumMaker(g)(c) == OwnEnumMaker(h)(c)
    {
      ComponentReordered(g, h, c);
    }
    SumAgrees(doc, ComponentBoundsMaker(g), ComponentBoundsMaker(h));
    SumAgrees(doc, ComponentEnumsMaker(g), ComponentEnumsMaker(h));
    SumAgrees(doc, OwnEnumMaker(g), OwnEnumMaker(h));
  }

  lemma RefusedReordered(g: Graph, h: Graph, c: Component)
    requires Reordered(g, h) && Refused(g, c)
    ensures Refused(h, c)
  {
    if Other !in g[c.root.value].enum {
      var n :| n in g && Reaches(g, c.root.value, n) && Bad(g[n]);
      var p :| IsPath(g, p) && p[0] == c.root.value && p[|p| - 1] == n;
      assert IsPath(h, p) by {
        forall i | 0 <= i < |p| - 1 ensures Child(h, p[i], p[i + 1]) { assert Child(g, p[i], p[i + 1]); }
      }
      assert Bad(h[n]) by { SameMembers(g[n].properties, h[n].properties); }
    }
  }

  /**
   * Go iterates the component map and every property map in an order of its own choosing. Whatever
   * the orders, a scan fails or not alike, and records the same bounds, property enums and own
   * enums, counted with multiplicity.
   */
  lemma ScansAgree(g: Graph, h: Graph, doc: seq<Component>, doc': seq<Component>)
    requires Reordered(g, h) && multiset(doc) == multiset(doc')
    ensures (exists c | c in doc :: Refused(g, c)) <==> (exists c | c in doc' :: Refused(h, c))
    ensures multiset(DocBounds(g, doc)) == multiset(DocBounds(h, doc'))
    ensures multiset(DocEnums(g, doc)) == multiset(DocEnums(h, doc'))
    ensures multiset(OwnEnums(g, doc)) == multiset(OwnEnums(h, doc'))
  {
    DocReordered(g, h, doc);
    DocPermuted(h, doc, doc');
    SameMembers(doc, doc');
    forall c ensures Refused(g, c) <==> Refused(h, c) {
      if Refused(g, c) { RefusedReordered(g, h, c); }
      if Refused(h, c) { RefusedReordered(h, g, c); }
    }
  }
}
