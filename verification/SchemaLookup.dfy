// The lookups over a scan's records, after its sorts.
module SchemaLookup {
  import opened Basics
  import opened Permutations
  import opened SchemaGraph
  import opened SchemaOrder
  import opened SchemaScan

  // ----- BoundFor

  predicate IsFor(b: Bound, schema: string, property: string) { b.schema == schema && b.property == property }

  function FirstBound(bounds: seq<Bound>, schema: string, property: string): Option<nat> {
    if bounds == [] then None
    else if IsFor(bounds[0], schema, property) then Some(bounds[0].maxLength)
    else FirstBound(bounds[1..], schema, property)
  }

  /** BoundFor: the first record for the pair. */
  method BoundFor(bounds: seq<Bound>, schema: string, property: string) returns (r: Option<nat>)
    ensures r == FirstBound(bounds, schema, property)
  {
    for i := 0 to |bounds|
      invariant FirstBound(bounds, schema, property) == FirstBound(bounds[i..], schema, property)
    {
      if IsFor(bounds[i], schema, property) {
        return Some(bounds[i].maxLength);
      }
      assert bounds[i..][1..] == bounds[i + 1..];
    }
    return None;
  }

  lemma {:induction false} FirstBoundFinds(bounds: seq<Bound>, schema: string, property: string)
    ensures match FirstBound(bounds, schema, property)
            case None => forall b | b in bounds :: !IsFor(b, schema, property)
            case Some(m) => Bound(schema, property, m) in bounds
  {
    if bounds != [] && !IsFor(bounds[0], schema, property) { FirstBoundFinds(bounds[1..], schema, property); }
  }

  /** On a scan's records, in any order: BoundFor finds a declared bound, and fails only if there is none. */
  lemma BoundForSound(g: Graph, doc: seq<Component>, sorted: seq<Bound>, schema: string, property: string)
    requires WellFormed(g, doc) && multiset(sorted) == multiset(DocBounds(g, doc))
    ensures match FirstBound(sorted, schema, property)
            case Some(m) => exists c | c in doc :: Declares(g, c, Bound(schema, property, m))
            case None => forall c, m | c in doc :: !Declares(g, c, Bound(schema, property, m))
  {
    FirstBoundFinds(sorted, schema, property);
    SameMembers(sorted, DocBounds(g, doc));
    forall m: nat
      ensures Bound(schema, property, m) in sorted <==>
              exists c | c in doc :: Declares(g, c, Bound(schema, property, m))
    {
      ScannedMembers(g, doc, Bound(schema, property, m), PropEnum("", "", [], false));
    }
    if FirstBound(sorted, schema, property).None? {
      forall m: nat ensures Bound(schema, property, m) !in sorted {
        assert IsFor(Bound(schema, property, m), schema, property);
      }
    }
  }

  // ----- what the unstable sort leaves open

  /** The sort key of a record. */
  datatype Pair = Pair(schema: string, property: string)

  function KeyOf(b: Bound): Pair { Pair(b.schema, b.property) }

  function Keys(bounds: seq<Bound>): (keys: seq<Pair>)
    ensures |keys| == |bounds| && forall i | 0 <= i < |keys| :: keys[i] == KeyOf(bounds[i])
  {
    seq(|bounds|, i requires 0 <= i < |bounds| => KeyOf(bounds[i]))
  }

  /** The sort's order on keys: any total order will do. */
  ghost predicate TotalOrder(leq: (Pair, Pair) -> bool) {
    && (forall a, b :: leq(a, b) || leq(b, a))
    && (forall a, b | leq(a, b) && leq(b, a) :: a == b)
    && (forall a, b, c | leq(a, b) && leq(b, c) :: leq(a, c))
  }

  ghost predicate Ascending(keys: seq<Pair>, leq: (Pair, Pair) -> bool) {
    forall i, j | 0 <= i < j < |keys| :: leq(keys[i], keys[j])
  }

  lemma {:induction false} AscendingUnique(a: seq<Pair>, b: seq<Pair>, leq: (Pair, Pair) -> bool)
    requires TotalOrder(leq) && Ascending(a, leq) && Ascending(b, leq) && multiset(a) == multiset(b)
    ensures a == b
  {
    if a == [] {
      assert |multiset(b)| == 0;
    } else {
      assert |multiset(a)| == |multiset(b)|;
      LastsEqual(a, b, leq);
      WithoutLast(a);
      WithoutLast(b);
      PrefixAscending(a, leq);
      PrefixAscending(b, leq);
      AscendingUnique(a[..|a| - 1], b[..|b| - 1], leq);
    }
  }

  lemma PrefixAscending(a: seq<Pair>, leq: (Pair, Pair) -> bool)
    requires a != [] && Ascending(a, leq)
    ensures Ascending(a[..|a| - 1], leq)
  {
  }

  lemma LastsEqual(a: seq<Pair>, b: seq<Pair>, leq: (Pair, Pair) -> bool)
    requires TotalOrder(leq) && Ascending(a, leq) && Ascending(b, leq)
    requires multiset(a) == multiset(b) && a != [] && b != []
    ensures a[|a| - 1] == b[|b| - 1]
  {
    LastIsGreatest(a, b, leq);
    LastIsGreatest(b, a, leq);
  }

  lemma WithoutLast(a: seq<Pair>)
    requires a != []
    ensures a == a[..|a| - 1] + [a[|a| - 1]] && multiset(a[..|a| - 1]) == multiset(a) - multiset{a[|a| - 1]}
  {
    assert a == a[..|a| - 1] + [a[|a| - 1]];
  }

  lemma LastIsGreatest(a: seq<Pair>, b: seq<Pair>, leq: (Pair, Pair) -> bool)
    requires TotalOrder(leq) && Ascending(a, leq) && multiset(a) == multiset(b) && a != [] && b != []
    ensures leq(b[|b| - 1], a[|a| - 1])
  {
    SameMembers(a, b);
    assert b[|b| - 1] in a;
    var i :| 0 <= i < |a| && a[i] == b[|b| - 1];
    assert leq(a[i], a[i]);
  }

  ghost function KeyMaker(): Bound -> multiset<Pair> { b => multiset{KeyOf(b)} }

  lemma {:induction false} KeysAsSum(bounds: seq<Bound>)
    ensures multiset(Keys(bounds)) == SumOver(bounds, KeyMaker())
  {
    if bounds != [] {
      var n := |bounds| - 1;
      KeysAsSum(bounds[..n]);
      assert Keys(bounds) == Keys(bounds[..n]) + [KeyOf(bounds[n])];
    }
  }

  /** Another possible outcome of the sort: the same records, with only records of equal keys exchanged. */
  ghost predicate SortedAlike(other: seq<Bound>, bounds: seq<Bound>) {
    multiset(other) == multiset(bounds) && Keys(other) == Keys(bounds)
  }

  /** The orderings of sorted records that are sorted too are exactly those. */
  lemma SortOutcomes(bounds: seq<Bound>, other: seq<Bound>, leq: (Pair, Pair) -> bool)
    requires TotalOrder(leq) && Ascending(Keys(bounds), leq)
    ensures multiset(other) == multiset(bounds) && Ascending(Keys(other), leq) <==> SortedAlike(other, bounds)
  {
    if multiset(other) == multiset(bounds) && Ascending(Keys(other), leq) {
      KeysAsSum(bounds);
      KeysAsSum(other);
      SumPermuted(other, bounds, KeyMaker());
      AscendingUnique(Keys(other), Keys(bounds), leq);
    }
  }

  /** Every outcome of the sort gives BoundFor the same answer. */
  ghost predicate OrderProof(bounds: seq<Bound>, schema: string, property: string) {
    forall other | SortedAlike(other, bounds) ::
      FirstBound(other, schema, property) == FirstBound(bounds, schema, property)
  }

  /** All records for the pair are the same. */
  ghost predicate Unanimous(bounds: seq<Bound>, schema: string, property: string) {
    forall b, c | b in bounds && c in bounds && IsFor(b, schema, property) && IsFor(c, schema, property) :: b == c
  }

  /**
   * The records are sorted by an unstable sort on (schema, property), so BoundFor's answer is
   * determined if and only if all records for the pair carry the same maxLength.
   */
  lemma BoundForDetermined(bounds: seq<Bound>, schema: string, property: string)
    ensures OrderProof(bounds, schema, property) <==> Unanimous(bounds, schema, property)
  {
    if OrderProof(bounds, schema, property) {
      forall b, c | b in bounds && c in bounds && IsFor(b, schema, property) && IsFor(c, schema, property)
        ensures b == c
      {
        CanComeFirst(bounds, b, schema, property);
        CanComeFirst(bounds, c, schema, property);
      }
    }
    if Unanimous(bounds, schema, property) {
      forall other | SortedAlike(other, bounds)
        ensures FirstBound(other, schema, property) == FirstBound(bounds, schema, property)
      {
        SameMembers(other, bounds);
        FirstBoundFinds(other, schema, property);
        FirstBoundFinds(bounds, schema, property);
      }
    }
  }

  /** Where the first record for a pair stands. */
  lemma {:induction false} FirstBoundAt(bounds: seq<Bound>, k: nat, schema: string, property: string)
    requires k < |bounds| && IsFor(bounds[k], schema, property)
    requires forall j | 0 <= j < k :: !IsFor(bounds[j], schema, property)
    ensures FirstBound(bounds, schema, property) == Some(bounds[k].maxLength)
  {
    if k > 0 { FirstBoundAt(bounds[1..], k - 1, schema, property); }
  }

  lemma FirstIndex(bounds: seq<Bound>, i: nat, schema: string, property: string) returns (k: nat)
    requires i < |bounds| && IsFor(bounds[i], schema, property)
    ensures k <= i && IsFor(bounds[k], schema, property)
    ensures forall j | 0 <= j < k :: !IsFor(bounds[j], schema, property)
  {
    k := 0;
    while !IsFor(bounds[k], schema, property)
      invariant k <= i && forall j | 0 <= j < k :: !IsFor(bounds[j], schema, property)
      decreases i - k
    {
      k := k + 1;
    }
  }

  lemma Exchanged(bounds: seq<Bound>, i: nat, k: nat)
    requires i < |bounds| && k < |bounds| && KeyOf(bounds[i]) == KeyOf(bounds[k])
    ensures SortedAlike(bounds[i := bounds[k]][k := bounds[i]], bounds)
  {
    assert Keys(bounds[i := bounds[k]][k := bounds[i]]) == Keys(bounds);
  }

  /** A record can change places with the first of its pair, and then it is the answer. */
  lemma CanComeFirst(bounds: seq<Bound>, b: Bound, schema: string, property: string)
    requires b in bounds && IsFor(b, schema, property) && OrderProof(bounds, schema, property)
    ensures FirstBound(bounds, schema, property) == Some(b.maxLength)
  {
    var i :| 0 <= i < |bounds| && bounds[i] == b;
    var k := FirstIndex(bounds, i, schema, property);
    Exchanged(bounds, i, k);
    FirstBoundAt(bounds[i := bounds[k]][k := bounds[i]], k, schema, property);
  }

  /** A component of the document declares or inherits maxLength m for the pair. */
  ghost predicate HasBound(g: Graph, doc: seq<Component>, schema: string, property: string, m: nat) {
    exists c | c in doc :: Declares(g, c, Bound(schema, property, m))
  }

  /**
   * For a scan: whatever the sorts made of its records, BoundFor's answer is fixed if and only if the
   * document gives the pair one maxLength at most.
   */
  lemma BoundForUnambiguousIff(g: Graph, doc: seq<Component>, sorted: seq<Bound>, schema: string, property: string)
    requires WellFormed(g, doc) && multiset(sorted) == multiset(DocBounds(g, doc))
    ensures OrderProof(sorted, schema, property) <==>
            forall m, m' | HasBound(g, doc, schema, property, m) && HasBound(g, doc, schema, property, m') :: m == m'
  {
    SameMembers(sorted, DocBounds(g, doc));
    forall m: nat
      ensures Bound(schema, property, m) in sorted <==> HasBound(g, doc, schema, property, m)
    {
      ScannedMembers(g, doc, Bound(schema, property, m), PropEnum("", "", [], false));
    }
    BoundForDetermined(sorted, schema, property);
    if Unanimous(sorted, schema, property) {
      forall m, m' | HasBound(g, doc, schema, property, m) && HasBound(g, doc, schema, property, m') ensures m == m' {
        var b, c := Bound(schema, property, m), Bound(schema, property, m');
        assert IsFor(b, schema, property) && IsFor(c, schema, property);
      }
    } else {
      var b, c :| b in sorted && c in sorted && IsFor(b, schema, property) && IsFor(c, schema, property) && b != c;
      assert b == Bound(schema, property, b.maxLength) && c == Bound(schema, property, c.maxLength);
    }
  }

  function Memo(maxLength: nat): Schema {
    Schema([Property("memo", "", Some(PropertySchema(Some(maxLength), [])))], [], [])
  }

  /** A schema composed of two branches that declare the same property with different lengths. */
  function TwoBranches(): Graph { map[0 := Schema([], [Some(1), Some(2)], []), 1 := Memo(5), 2 := Memo(6)] }

  const COMPOSED := Component("s", Some(0))

  lemma TwoBranchesShape()
    ensures WellFormed(TwoBranches(), [COMPOSED])
    ensures Child(TwoBranches(), 0, 1) && TwoBranches()[1] == Memo(5)
    ensures Child(TwoBranches(), 0, 2) && TwoBranches()[2] == Memo(6)
  {
    var all := TwoBranches()[0].allOf;
    assert all[0] == Some(1) && all[1] == Some(2);
  }

  /** Scanning it records both lengths, and which one BoundFor answers is up to the sort. */
  lemma TwoBranchesAmbiguous(sorted: seq<Bound>)
    requires multiset(sorted) == multiset(DocBounds(TwoBranches(), [COMPOSED]))
    ensures !OrderProof(sorted, "s", "memo")
  {
    var g := TwoBranches();
    TwoBranchesShape();
    BranchDeclares(g, COMPOSED, 1, 5);
    BranchDeclares(g, COMPOSED, 2, 6);
    assert COMPOSED in [COMPOSED];
    assert HasBound(g, [COMPOSED], "s", "memo", 5) && HasBound(g, [COMPOSED], "s", "memo", 6);
    BoundForUnambiguousIff(g, [COMPOSED], sorted, "s", "memo");
  }

  lemma BranchDeclares(g: Graph, c: Component, n: nat, m: nat)
    requires c.root == Some(0) && n in g && Child(g, 0, n) && m <= MAX_INT && g[n] == Memo(m)
    ensures Declares(g, c, Bound(c.name, "memo", m))
  {
    ReachesSelf(g, n);
    ReachesThrough(g, 0, n, n);
    var p := g[n].properties[0];
    assert p in g[n].properties && RecordsBound(c.name, p, Bound(c.name, "memo", m));
  }

  // ----- PropEnumFor

  predicate IsEnumFor(e: PropEnum, schema: string, property: string) { e.schema == schema && e.property == property }

  function FirstEnum(enums: seq<PropEnum>, schema: string, property: string): Option<PropEnum> {
    if enums == [] then None
    else if IsEnumFor(enums[0], schema, property) then Some(enums[0])
    else FirstEnum(enums[1..], schema, property)
  }

  /** PropEnumFor: the members of the first record for the pair. */
  method PropEnumFor(enums: seq<PropEnum>, schema: string, property: string) returns (r: Option<seq<string>>)
    ensures match FirstEnum(enums, schema, property)
            case None => r == None
            case Some(e) => r == Some(e.values)
  {
    for i := 0 to |enums|
      invariant FirstEnum(enums, schema, property) == FirstEnum(enums[i..], schema, property)
    {
      if IsEnumFor(enums[i], schema, property) {
        return Some(enums[i].values);
      }
      assert enums[i..][1..] == enums[i + 1..];
    }
    return None;
  }

  lemma {:induction false} FirstEnumFinds(enums: seq<PropEnum>, schema: string, property: string)
    ensures match FirstEnum(enums, schema, property)
            case None => forall e | e in enums :: !IsEnumFor(e, schema, property)
            case Some(e) => e in enums && IsEnumFor(e, schema, property)
  {
    if enums != [] && !IsEnumFor(enums[0], schema, property) { FirstEnumFinds(enums[1..], schema, property); }
  }

  lemma {:induction false} FirstEnumConcat(a: seq<PropEnum>, b: seq<PropEnum>, schema: string, property: string)
    ensures FirstEnum(a + b, schema, property) ==
            if FirstEnum(a, schema, property).Some? then FirstEnum(a, schema, property)
            else FirstEnum(b, schema, property)
  {
    if a == [] {
      assert a + b == b;
    } else {
      assert (a + b)[1..] == a[1..] + b;
      FirstEnumConcat(a[1..], b, schema, property);
    }
  }

  /** The records for one pair, in their order. */
  function RecordsFor(enums: seq<PropEnum>, schema: string, property: string): seq<PropEnum> {
    if enums == [] then []
    else (if IsEnumFor(enums[0], schema, property) then [enums[0]] else []) + RecordsFor(enums[1..], schema, property)
  }

  /** What a stable sort on (schema, property) does: records of the same pair keep their relative order. */
  ghost predicate Stable(before: seq<PropEnum>, after: seq<PropEnum>) {
    forall schema, property :: RecordsFor(after, schema, property) == RecordsFor(before, schema, property)
  }

  lemma {:induction false} FirstOfRecords(enums: seq<PropEnum>, schema: string, property: string)
    ensures var records := RecordsFor(enums, schema, property);
            FirstEnum(enums, schema, property) == if records == [] then None else Some(records[0])
  {
    if enums != [] { FirstOfRecords(enums[1..], schema, property); }
  }

  /** The schema declares an enum of the property inline. */
  ghost predicate DeclaresInline(g: Graph, n: nat, property: string) {
    && n in g
    && exists p | p in g[n].properties ::
         p.name == property && p.ref == "" && p.value.Some? && p.value.value.enum != []
  }

  /** e records an inline enum the schema declares for the property. */
  ghost predicate RecordedAt(g: Graph, name: string, n: nat, property: string, e: PropEnum) {
    n in g && exists p | p in g[n].properties :: p.name == property && RecordsEnum(name, p, e)
  }

  /** r records the declaration of the first schema of the list that declares the property inline. */
  ghost predicate FirstDeclaration(g: Graph, name: string, order: seq<nat>, property: string, r: Option<PropEnum>) {
    match r
    case None => forall i | 0 <= i < |order| :: !DeclaresInline(g, order[i], property)
    case Some(e) =>
      exists i :: && 0 <= i < |order| && RecordedAt(g, name, order[i], property, e)
                  && forall j | 0 <= j < i :: !DeclaresInline(g, order[j], property)
  }

  lemma FirstOfSchema(g: Graph, name: string, n: nat, property: string)
    requires n in g
    ensures match FirstEnum(AllEnums(name, g[n].properties), name, property)
            case None => !DeclaresInline(g, n, property)
            case Some(e) => RecordedAt(g, name, n, property, e)
  {
    var ps := g[n].properties;
    FirstEnumFinds(AllEnums(name, ps), name, property);
    match FirstEnum(AllEnums(name, ps), name, property)
    case Some(e) => AllMembers(name, ps, Bound("", "", 0), e);
    case None =>
      forall p | p in ps && p.name == property ensures !InlineEnum(p) {
        if InlineEnum(p) {
          var e := EnumsOf(name, p)[0];
          AllMembers(name, ps, Bound("", "", 0), e);
          assert IsEnumFor(e, name, property);
        }
      }
  }

  lemma {:induction false} FirstOfWalk(g: Graph, name: string, order: seq<nat>, property: string)
    requires Entered(g, order)
    ensures FirstDeclaration(g, name, order, property, FirstEnum(ListedEnums(g, name, order), name, property))
  {
    if order != [] {
      var init, last := order[..|order| - 1], order[|order| - 1];
      assert last in order;
      FirstOfWalk(g, name, init, property);
      FirstOfSchema(g, name, last, property);
      var before, own := ListedEnums(g, name, init), AllEnums(name, g[last].properties);
      FirstEnumConcat(before, own, name, property);
      assert forall i | 0 <= i < |init| :: order[i] == init[i];
      assert order[|order| - 1] == last;
      DeclarationThen(g, name, init, last, property, FirstEnum(before, name, property), FirstEnum(own, name, property));
    }
  }

  lemma DeclarationThen(g: Graph, name: string, init: seq<nat>, last: nat, property: string,
                        before: Option<PropEnum>, own: Option<PropEnum>)
    requires FirstDeclaration(g, name, init, property, before)
    requires match own
             case None => !DeclaresInline(g, last, property)
             case Some(e) => RecordedAt(g, name, last, property, e)
    ensures FirstDeclaration(g, name, init + [last], property, if before.Some? then before else own)
  {
    var order := init + [last];
    if before.Some? {
      var i :| && 0 <= i < |init| && RecordedAt(g, name, init[i], property, before.value)
               && forall j | 0 <= j < i :: !DeclaresInline(g, init[j], property);
      assert order[i] == init[i] && forall j | 0 <= j < i :: order[j] == init[j];
    } else {
      assert order[|init|] == last && forall j | 0 <= j < |init| :: order[j] == init[j];
    }
  }

  /** The components are the entries of a map: no two share a name. */
  ghost predicate DistinctNames(doc: seq<Component>) {
    forall i, j | 0 <= i < j < |doc| :: doc[i].name != doc[j].name
  }

  lemma {:induction false} RecordsConcat(a: seq<PropEnum>, b: seq<PropEnum>, schema: string, property: string)
    ensures RecordsFor(a + b, schema, property) == RecordsFor(a, schema, property) + RecordsFor(b, schema, property)
  {
    if a == [] {
      assert a + b == b;
    } else {
      assert (a + b)[1..] == a[1..] + b;
      RecordsConcat(a[1..], b, schema, property);
      Associate(if IsEnumFor(a[0], schema, property) then [a[0]] else [],
                RecordsFor(a[1..], schema, property), RecordsFor(b, schema, property));
    }
  }

  lemma ComponentSilent(g: Graph, c: Component, schema: string, property: string)
    requires Closed(g) && (c.root.Some? ==> c.root.value in g) && c.name != schema
    ensures RecordsFor(ComponentEnums(g, c), schema, property) == []
  {
    FirstEnumFinds(ComponentEnums(g, c), schema, property);
    FirstOfRecords(ComponentEnums(g, c), schema, property);
    if FirstEnum(ComponentEnums(g, c), schema, property).Some? {
      var e := FirstEnum(ComponentEnums(g, c), schema, property).value;
      ComponentMembers(g, c, Bound("", "", 0), e);
    }
  }

  lemma {:induction false} OthersSilent(g: Graph, doc: seq<Component>, schema: string, property: string)
    requires WellFormed(g, doc) && forall c | c in doc :: c.name != schema
    ensures RecordsFor(DocEnums(g, doc), schema, property) == []
  {
    if doc != [] {
      var init, last := doc[..|doc| - 1], doc[|doc| - 1];
      assert last in doc;
      OthersSilent(g, init, schema, property);
      ComponentSilent(g, last, schema, property);
      RecordsConcat(DocEnums(g, init), ComponentEnums(g, last), schema, property);
    }
  }

  lemma {:induction false} DocRecords(g: Graph, doc: seq<Component>, c: Component, property: string)
    requires WellFormed(g, doc) && DistinctNames(doc) && c in doc
    ensures RecordsFor(DocEnums(g, doc), c.name, property) == RecordsFor(ComponentEnums(g, c), c.name, property)
  {
    var init, last := doc[..|doc| - 1], doc[|doc| - 1];
    OtherNames(doc, c);
    RecordsConcat(DocEnums(g, init), ComponentEnums(g, last), c.name, property);
    if c == last {
      OthersSilent(g, init, c.name, property);
    } else {
      DocRecords(g, init, c, property);
      ComponentSilent(g, last, c.name, property);
    }
  }

  lemma OtherNames(doc: seq<Component>, c: Component)
    requires DistinctNames(doc) && c in doc
    ensures var init, last := doc[..|doc| - 1], doc[|doc| - 1];
            && DistinctNames(init) && last in doc && (forall d | d in init :: d in doc)
            && (c == last ==> forall d | d in init :: d.name != c.name)
            && (c != last ==> c in init && last.name != c.name)
  {
    var init, last := doc[..|doc| - 1], doc[|doc| - 1];
    assert doc == init + [last];
  }

  /**
   * After any stable sort the lookup answers with the first schema in depth-first allOf order that
   * declares the property inline, and with nothing only if no reachable schema declares it.
   */
  lemma PropEnumForFirst(g: Graph, doc: seq<Component>, sorted: seq<PropEnum>, c: Component, property: string)
    requires WellFormed(g, doc) && DistinctNames(doc) && Stable(DocEnums(g, doc), sorted)
    requires c in doc && c.root.Some?
    ensures Enumerates(g, c.root.value, WalkOrder(g, c.root.value))
    ensures FirstDeclaration(g, c.name, WalkOrder(g, c.root.value), property, FirstEnum(sorted, c.name, property))
  {
    WalkEnumerates(g, c.root.value);
    FirstOfRecords(sorted, c.name, property);
    FirstOfRecords(ComponentEnums(g, c), c.name, property);
    DocRecords(g, doc, c, property);
    FirstOfWalk(g, c.name, WalkOrder(g, c.root.value), property);
  }

  /** Property lists are the entries of maps: no two properties of a schema share a name. */
  ghost predicate DistinctProperties(g: Graph) {
    forall n | n in g :: forall p, q | p in g[n].properties && q in g[n].properties && p.name == q.name :: p == q
  }

  lemma {:induction false} RecordsMembers(enums: seq<PropEnum>, schema: string, property: string)
    ensures forall e :: multiset(RecordsFor(enums, schema, property))[e] ==
                        if IsEnumFor(e, schema, property) then multiset(enums)[e] else 0
  {
    if enums != [] {
      RecordsMembers(enums[1..], schema, property);
      assert enums == [enums[0]] + enums[1..];
    }
  }

  lemma RecordsPermuted(a: seq<PropEnum>, b: seq<PropEnum>, schema: string, property: string)
    requires multiset(a) == multiset(b)
    ensures multiset(RecordsFor(a, schema, property)) == multiset(RecordsFor(b, schema, property))
  {
    RecordsMembers(a, schema, property);
    RecordsMembers(b, schema, property);
  }

  lemma AllAlike(a: seq<PropEnum>, b: seq<PropEnum>)
    requires multiset(a) == multiset(b) && forall d, e | d in a && e in a :: d == e
    ensures a == b
  {
    SameMembers(a, b);
    assert |a| == |multiset(a)| == |multiset(b)| == |b|;
    forall i | 0 <= i < |a| ensures a[i] == b[i] { assert a[i] in a && b[i] in a; }
  }

  /** One schema's records for a property: the same whatever the order of its properties. */
  lemma SchemaRecords(g: Graph, h: Graph, name: string, n: nat, property: string)
    requires Reordered(g, h) && DistinctProperties(g) && n in g
    ensures RecordsFor(AllEnums(name, g[n].properties), name, property) ==
            RecordsFor(AllEnums(name, h[n].properties), name, property)
  {
    var mine, yours := AllEnums(name, g[n].properties), AllEnums(name, h[n].properties);
    AllPermuted(name, g[n].properties, h[n].properties);
    RecordsPermuted(mine, yours, name, property);
    RecordsMembers(mine, name, property);
    var a, b := RecordsFor(mine, name, property), RecordsFor(yours, name, property);
    forall d, e | d in a && e in a ensures d == e {
      assert multiset(a)[d] > 0 && multiset(a)[e] > 0;
      OneRecord(g, name, n, d, e);
    }
    AllAlike(a, b);
  }

  lemma OneRecord(g: Graph, name: string, n: nat, d: PropEnum, e: PropEnum)
    requires DistinctProperties(g) && n in g && d.property == e.property
    requires d in AllEnums(name, g[n].properties) && e in AllEnums(name, g[n].properties)
    ensures d == e
  {
    AllMembers(name, g[n].properties, Bound("", "", 0), d);
    AllMembers(name, g[n].properties, Bound("", "", 0), e);
    var p :| p in g[n].properties && RecordsEnum(name, p, d);
    var q :| q in g[n].properties && RecordsEnum(name, q, e);
  }

  lemma {:induction false} WalkRecords(g: Graph, h: Graph, name: string, order: seq<nat>, property: string)
    requires Reordered(g, h) && DistinctProperties(g) && Entered(g, order)
    ensures RecordsFor(ListedEnums(g, name, order), name, property) ==
            RecordsFor(ListedEnums(h, name, order), name, property)
  {
    if order != [] {
      var init, last := order[..|order| - 1], order[|order| - 1];
      assert last in order;
      WalkRecords(g, h, name, init, property);
      SchemaRecords(g, h, name, last, property);
      RecordsConcat(ListedEnums(g, name, init), AllEnums(name, g[last].properties), name, property);
      RecordsConcat(ListedEnums(h, name, init), AllEnums(name, h[last].properties), name, property);
    }
  }

  /**
   * Whatever order Go iterates its maps in, and whatever stable sort is used, the records of a pair come out
   * as the same list, and so the lookup gives one answer.
   */
  lemma PropEnumForDetermined(g: Graph, h: Graph, doc: seq<Component>, doc': seq<Component>,
                              sorted: seq<PropEnum>, sorted': seq<PropEnum>, schema: string, property: string)
    requires Reordered(g, h) && DistinctProperties(g) && WellFormed(g, doc)
    requires multiset(doc) == multiset(doc') && DistinctNames(doc) && DistinctNames(doc')
    requires Stable(DocEnums(g, doc), sorted) && Stable(DocEnums(h, doc'), sorted')
    ensures RecordsFor(sorted, schema, property) == RecordsFor(sorted', schema, property)
    ensures FirstEnum(sorted, schema, property) == FirstEnum(sorted', schema, property)
  {
    SameMembers(doc, doc');
    assert WellFormed(h, doc');
    if c :| c in doc && c.name == schema {
      DocRecords(g, doc, c, property);
      DocRecords(h, doc', c, property);
      if c.root.Some? {
        WalkSame(g, h, c.root.value);
        WalkRecords(g, h, schema, WalkOrder(g, c.root.value), property);
      }
    } else {
      OthersSilent(g, doc, schema, property);
      OthersSilent(h, doc', schema, property);
    }
    FirstOfRecords(sorted, schema, property);
    FirstOfRecords(sorted', schema, property);
  }
}
