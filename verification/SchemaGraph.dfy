// The component schemas internal/contract/schema.go walks, as a finite graph, and what they declare.
module SchemaGraph {
  import opened Basics

  /** One member of an enum list: a bare null, a string, or any other YAML scalar. */
  datatype Member = Null | Str(text: string) | Other

  /** A property's resolved schema, as far as the walk reads it. */
  datatype PropertySchema = PropertySchema(maxLength: Option<nat>, enum: seq<Member>)

  /** A property: its $ref, empty when declared inline, and the schema it resolves to, if any. */
  datatype Property = Property(name: string, ref: string, value: Option<PropertySchema>)

  /** A schema object; allOf branches point at other nodes, or at nothing. */
  datatype Schema = Schema(properties: seq<Property>, allOf: seq<Option<nat>>, enum: seq<Member>)

  /** Schema objects by identity. Cycles and diamonds are allowed. */
  type Graph = map<nat, Schema>

  ghost predicate Closed(g: Graph) {
    forall n | n in g :: forall i | 0 <= i < |g[n].allOf| :: g[n].allOf[i].Some? ==> g[n].allOf[i].value in g
  }

  datatype Bound = Bound(schema: string, property: string, maxLength: nat)

  datatype PropEnum = PropEnum(schema: string, property: string, values: seq<string>, hasNull: bool)

  const MAX_INT: int := 0x7FFF_FFFF_FFFF_FFFF

  // ----- what one schema declares

  function Strings(members: seq<Member>): seq<string> {
    if members == [] then []
    else
      var last := members[|members| - 1];
      Strings(members[..|members| - 1]) + if last.Str? then [last.text] else []
  }

  /** The maxLength a property declares, unless it is past what an int holds. */
  function BoundsOf(name: string, p: Property): seq<Bound> {
    if p.value.Some? && p.value.value.maxLength.Some? && p.value.value.maxLength.value <= MAX_INT
    then [Bound(name, p.name, p.value.value.maxLength.value)] else []
  }

  /** An enum counts only when declared inline. */
  predicate InlineEnum(p: Property) { p.value.Some? && p.ref == "" && p.value.value.enum != [] }

  function EnumsOf(name: string, p: Property): seq<PropEnum> {
    if InlineEnum(p)
    then [PropEnum(name, p.name, Strings(p.value.value.enum), Null in p.value.value.enum)] else []
  }

  /** An inline enum with a member that is neither a string nor null. */
  predicate BadProperty(p: Property) { p.ref == "" && p.value.Some? && Other in p.value.value.enum }

  predicate Bad(s: Schema) { exists p | p in s.properties :: BadProperty(p) }

  function AllBounds(name: string, ps: seq<Property>): seq<Bound> {
    if ps == [] then [] else AllBounds(name, ps[..|ps| - 1]) + BoundsOf(name, ps[|ps| - 1])
  }

  function AllEnums(name: string, ps: seq<Property>): seq<PropEnum> {
    if ps == [] then [] else AllEnums(name, ps[..|ps| - 1]) + EnumsOf(name, ps[|ps| - 1])
  }

  /** The strings are the members that are strings, in their order. */
  lemma StringsOf(a: seq<Member>, b: seq<Member>)
    ensures Strings(a + b) == Strings(a) + Strings(b)
    ensures Strings([Null]) == [] && Strings([Other]) == [] && forall text :: Strings([Str(text)]) == [text]
  {
    StringsConcat(a, b);
    forall m: Member ensures Strings([m]) == if m.Str? then [m.text] else [] { assert [m][..0] == []; }
  }

  lemma {:induction false} StringsConcat(a: seq<Member>, b: seq<Member>)
    ensures Strings(a + b) == Strings(a) + Strings(b)
  {
    if b == [] {
      assert a + b == a;
    } else {
      assert (a + b)[..|a + b| - 1] == a + b[..|b| - 1];
      StringsConcat(a, b[..|b| - 1]);
    }
  }

  /** b is the maxLength the property declares, under the schema's name. */
  ghost predicate RecordsBound(name: string, p: Property, b: Bound) {
    && p.value.Some? && p.value.value.maxLength == Some(b.maxLength) && b.maxLength <= 0x7FFF_FFFF_FFFF_FFFF
    && b.schema == name && b.property == p.name
  }

  /** e is the enum the property declares inline: not through a $ref, and not an empty one. */
  ghost predicate RecordsEnum(name: string, p: Property, e: PropEnum) {
    && p.value.Some? && p.ref == "" && p.value.value.enum != []
    && e.schema == name && e.property == p.name
    && e.values == Strings(p.value.value.enum) && (e.hasNull <==> Null in p.value.value.enum)
  }

  lemma RecordsIff(name: string, p: Property, b: Bound, e: PropEnum)
    ensures BoundsOf(name, p) == [b] <==> RecordsBound(name, p, b)
    ensures EnumsOf(name, p) == [e] <==> RecordsEnum(name, p, e)
  {
    assert forall c: Bound :: [c] == [b] ==> [c][0] == b;
    assert forall d: PropEnum :: [d] == [e] ==> [d][0] == e;
  }

  // ----- what a list of schemas declares, one after the other

  function ListedBounds(g: Graph, name: string, nodes: seq<nat>): seq<Bound>
    requires forall n | n in nodes :: n in g
  {
    if nodes == [] then []
    else
      assert nodes[|nodes| - 1] in nodes;
      ListedBounds(g, name, nodes[..|nodes| - 1]) + AllBounds(name, g[nodes[|nodes| - 1]].properties)
  }

  function ListedEnums(g: Graph, name: string, nodes: seq<nat>): seq<PropEnum>
    requires forall n | n in nodes :: n in g
  {
    if nodes == [] then []
    else
      assert nodes[|nodes| - 1] in nodes;
      ListedEnums(g, name, nodes[..|nodes| - 1]) + AllEnums(name, g[nodes[|nodes| - 1]].properties)
  }

  lemma {:induction false} ListedBoundsConcat(g: Graph, name: string, a: seq<nat>, b: seq<nat>)
    requires forall n | n in a + b :: n in g
    ensures ListedBounds(g, name, a + b) == ListedBounds(g, name, a) + ListedBounds(g, name, b)
  {
    if b == [] {
      assert a + b == a;
    } else {
      assert (a + b)[..|a + b| - 1] == a + b[..|b| - 1];
      ListedBoundsConcat(g, name, a, b[..|b| - 1]);
    }
  }

  lemma {:induction false} ListedEnumsConcat(g: Graph, name: string, a: seq<nat>, b: seq<nat>)
    requires forall n | n in a + b :: n in g
    ensures ListedEnums(g, name, a + b) == ListedEnums(g, name, a) + ListedEnums(g, name, b)
  {
    if b == [] {
      assert a + b == a;
    } else {
      assert (a + b)[..|a + b| - 1] == a + b[..|b| - 1];
      ListedEnumsConcat(g, name, a, b[..|b| - 1]);
    }
  }

  lemma ListedConcat(g: Graph, name: string, a: seq<nat>, b: seq<nat>)
    requires (forall n | n in a :: n in g) && (forall n | n in b :: n in g)
    ensures forall n | n in a + b :: n in g
    ensures ListedBounds(g, name, a + b) == ListedBounds(g, name, a) + ListedBounds(g, name, b)
    ensures ListedEnums(g, name, a + b) == ListedEnums(g, name, a) + ListedEnums(g, name, b)
  {
    ListedBoundsConcat(g, name, a, b);
    ListedEnumsConcat(g, name, a, b);
  }

  // ----- reachability through allOf

  predicate Child(g: Graph, a: nat, b: nat) { a in g && Some(b) in g[a].allOf }

  ghost predicate IsPath(g: Graph, p: seq<nat>) {
    p != [] && forall i | 0 <= i < |p| - 1 :: Child(g, p[i], p[i + 1])
  }

  /** b can be reached from a through zero or more allOf branches. */
  ghost predicate Reaches(g: Graph, a: nat, b: nat) {
    exists p :: IsPath(g, p) && p[0] == a && p[|p| - 1] == b
  }

  lemma ReachesSelf(g: Graph, a: nat)
    ensures Reaches(g, a, a)
  {
    assert IsPath(g, [a]);
  }

  lemma ReachesThrough(g: Graph, a: nat, b: nat, c: nat)
    requires Child(g, a, b) && Reaches(g, b, c)
    ensures Reaches(g, a, c)
  {
    var p :| IsPath(g, p) && p[0] == b && p[|p| - 1] == c;
    var q := [a] + p;
    forall i | 0 <= i < |q| - 1 ensures Child(g, q[i], q[i + 1]) {
      if i > 0 { assert Child(g, p[i - 1], p[i - 1 + 1]); }
    }
    assert IsPath(g, q) && q[|q| - 1] == c;
  }

  /** A set closed under allOf that holds a holds everything reachable from a. */
  lemma ClosedHoldsReachable(g: Graph, nodes: set<nat>, a: nat, b: nat)
    requires a in nodes && Reaches(g, a, b)
    requires forall x, y | x in nodes && Child(g, x, y) :: y in nodes
    ensures b in nodes
  {
    var p :| IsPath(g, p) && p[0] == a && p[|p| - 1] == b;
    PathStays(g, nodes, p);
  }

  lemma {:induction false} PathStays(g: Graph, nodes: set<nat>, p: seq<nat>)
    requires IsPath(g, p) && p[0] in nodes
    requires forall x, y | x in nodes && Child(g, x, y) :: y in nodes
    ensures p[|p| - 1] in nodes
  {
    if |p| > 1 {
      var q := p[..|p| - 1];
      assert IsPath(g, q);
      PathStays(g, nodes, q);
      assert Child(g, p[|p| - 2], p[|p| - 2 + 1]);
    }
  }
}
