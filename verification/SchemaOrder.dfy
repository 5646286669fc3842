// The order in which a depth-first walk over allOf enters the schemas, as a function of the graph.
module SchemaOrder {
  import opened Basics
  import opened SchemaGraph

  ghost function Members(order: seq<nat>): set<nat> { set n | n in order }

  /** The schemas entered so far, all of them in the graph. */
  ghost predicate Entered(g: Graph, order: seq<nat>) { forall n | n in order :: n in g }

  ghost predicate Branches(g: Graph, branches: seq<Option<nat>>) {
    forall b | b in branches :: b.Some? ==> b.value in g
  }

  /** The schemas entered once the walk has been through s, given those entered before. */
  ghost function Visit(g: Graph, s: Option<nat>, order: seq<nat>): (r: seq<nat>)
    requires Closed(g) && Entered(g, order) && (s.Some? ==> s.value in g)
    ensures Entered(g, r) && order <= r
    decreases g.Keys - Members(order), 0
  {
    if s.None? || s.value in order then order
    else
      assert Members(order + [s.value]) == Members(order) + {s.value};
      VisitAll(g, g[s.value].allOf, order + [s.value])
  }

  /** ... and through each branch of a list in turn. */
  ghost function VisitAll(g: Graph, branches: seq<Option<nat>>, order: seq<nat>): (r: seq<nat>)
    requires Closed(g) && Entered(g, order) && Branches(g, branches)
    ensures Entered(g, r) && order <= r
    decreases g.Keys - Members(order), 1 + |branches|
  {
    if branches == [] then order
    else
      var init, last := branches[..|branches| - 1], branches[|branches| - 1];
      assert last in branches;
      var before := VisitAll(g, init, order);
      Visit(g, last, before)
  }

  /** The order of a whole walk, which starts with nothing entered. */
  ghost function WalkOrder(g: Graph, root: nat): (r: seq<nat>)
    requires Closed(g) && root in g
    ensures Entered(g, r)
  {
    Visit(g, Some(root), [])
  }

  // ----- a walk enters each reachable schema once, and nothing else

  ghost predicate NoRepeats(s: seq<nat>) { forall i, j | 0 <= i < j < |s| :: s[i] != s[j] }

  /** The schemas entered between two moments of a walk. */
  ghost function Since(before: seq<nat>, now: seq<nat>): seq<nat>
    requires before <= now
  {
    now[|before|..]
  }

  /** Everything in `added` is reachable from s and has its branches among the schemas entered. */
  ghost predicate Explored(g: Graph, s: nat, added: seq<nat>, entered: seq<nat>) {
    forall n | n in added :: n in g && Reaches(g, s, n) && forall c | Child(g, n, c) :: c in entered
  }

  lemma SinceThen(a: seq<nat>, b: seq<nat>, c: seq<nat>)
    requires a <= b <= c
    ensures Since(a, c) == Since(a, b) + Since(b, c)
  {
  }

  lemma ExploredThen(g: Graph, node: nat, branch: nat, order0: seq<nat>, order1: seq<nat>, order2: seq<nat>)
    requires Child(g, node, branch) && order0 <= order1 <= order2
    requires Explored(g, node, Since(order0, order1), order1)
    requires Explored(g, branch, Since(order1, order2), order2)
    ensures Explored(g, node, Since(order0, order2), order2)
  {
    SinceThen(order0, order1, order2);
    forall n | n in Since(order1, order2) ensures Reaches(g, node, n) { ReachesThrough(g, node, branch, n); }
  }

  lemma {:induction false} VisitExplores(g: Graph, s: nat, order: seq<nat>)
    requires Closed(g) && Entered(g, order) && s in g
    ensures s in Visit(g, Some(s), order) && (NoRepeats(order) ==> NoRepeats(Visit(g, Some(s), order)))
    ensures Explored(g, s, Since(order, Visit(g, Some(s), order)), Visit(g, Some(s), order))
    decreases g.Keys - Members(order), 0
  {
    if s !in order {
      var entered, r := order + [s], Visit(g, Some(s), order);
      assert Members(entered) == Members(order) + {s};
      VisitAllExplores(g, s, g[s].allOf, entered);
      ReachesSelf(g, s);
      SinceThen(order, entered, r);
      assert Since(order, entered) == [s] && r[|order|] == s;
    }
  }

  lemma {:induction false} VisitAllExplores(g: Graph, node: nat, branches: seq<Option<nat>>, order: seq<nat>)
    requires Closed(g) && Entered(g, order)
    requires forall b | b in branches && b.Some? :: b.value in g && Child(g, node, b.value)
    ensures var r := VisitAll(g, branches, order);
            && (forall b | b in branches && b.Some? :: b.value in r)
            && (NoRepeats(order) ==> NoRepeats(r))
            && Explored(g, node, Since(order, r), r)
    decreases g.Keys - Members(order), 1 + |branches|
  {
    if branches != [] {
      var init, last := branches[..|branches| - 1], branches[|branches| - 1];
      assert branches == init + [last];
      var before := VisitAll(g, init, order);
      VisitAllExplores(g, node, init, order);
      if last.Some? {
        VisitExplores(g, last.value, before);
        ExploredThen(g, node, last.value, order, before, VisitAll(g, branches, order));
      }
    }
  }

  /** order lists each schema reachable from root exactly once, and nothing else. */
  ghost predicate Enumerates(g: Graph, root: nat, order: seq<nat>) {
    && NoRepeats(order)
    && (forall n | n in order :: n in g && Reaches(g, root, n))
    && (forall n | Reaches(g, root, n) :: n in order)
  }

  /** On every finite graph, cycles and diamonds included, the walk from a root enters exactly what is reachable. */
  lemma WalkEnumerates(g: Graph, root: nat)
    requires Closed(g) && root in g
    ensures Enumerates(g, root, WalkOrder(g, root))
  {
    var order := WalkOrder(g, root);
    VisitExplores(g, root, []);
    assert Since([], order) == order;
    var nodes := Members(order);
    forall n | Reaches(g, root, n) ensures n in order { ClosedHoldsReachable(g, nodes, root, n); }
  }

  function Composed(allOf: seq<Option<nat>>): Schema { Schema([], allOf, []) }

  /** A diamond with a cycle back to its top and an unresolved branch. */
  function Diamond(): Graph {
    map[0 := Composed([Some(1), None, Some(2)]), 1 := Composed([Some(3)]), 2 := Composed([Some(3)]),
        3 := Composed([Some(0)])]
  }

  lemma DiamondSides()
    ensures Closed(Diamond())
    ensures Visit(Diamond(), Some(1), [0]) == [0, 1, 3]
    ensures Visit(Diamond(), Some(2), [0, 1, 3]) == [0, 1, 3, 2]
  {
    var g := Diamond();
    assert [0] + [1] == [0, 1] && [0, 1] + [3] == [0, 1, 3] && [0, 1, 3] + [2] == [0, 1, 3, 2];
    OneBranch(g, Some(0), [0, 1, 3]);
    OneBranch(g, Some(3), [0, 1]);
    OneBranch(g, Some(3), [0, 1, 3, 2]);
  }

  /** Depth first, branches from the left, each schema before what it is composed of. */
  lemma DiamondOrder()
    ensures Closed(Diamond()) && WalkOrder(Diamond(), 0) == [0, 1, 3, 2]
  {
    DiamondSides();
    ThreeBranches(Diamond(), Some(1), None, Some(2), [0]);
    assert [] + [0] == [0];
  }

  lemma ThreeBranches(g: Graph, a: Option<nat>, b: Option<nat>, c: Option<nat>, order: seq<nat>)
    requires Closed(g) && Entered(g, order)
    requires (a.Some? ==> a.value in g) && (b.Some? ==> b.value in g) && (c.Some? ==> c.value in g)
    ensures VisitAll(g, [a, b, c], order) == Visit(g, c, Visit(g, b, Visit(g, a, order)))
  {
    OneBranch(g, a, order);
    assert [a, b, c][..2] == [a, b] && [a, b][..1] == [a];
    assert VisitAll(g, [a, b], order) == Visit(g, b, Visit(g, a, order));
  }

  lemma OneBranch(g: Graph, s: Option<nat>, order: seq<nat>)
    requires Closed(g) && Entered(g, order) && (s.Some? ==> s.value in g)
    ensures VisitAll(g, [s], order) == Visit(g, s, order)
  {
    assert [s][..0] == [];
    assert VisitAll(g, [], order) == order;
  }

  // ----- the order is decided by allOf alone

  /** The same schemas with the same branches; what they declare may differ. */
  ghost predicate SameBranches(g: Graph, h: Graph) { g.Keys == h.Keys && forall n | n in g :: g[n].allOf == h[n].allOf }

  lemma {:induction false} VisitSame(g: Graph, h: Graph, s: Option<nat>, order: seq<nat>)
    requires SameBranches(g, h) && Closed(g) && Closed(h) && Entered(g, order) && (s.Some? ==> s.value in g)
    ensures Visit(g, s, order) == Visit(h, s, order)
    decreases g.Keys - Members(order), 0
  {
    if s.Some? && s.value !in order {
      assert Members(order + [s.value]) == Members(order) + {s.value};
      VisitAllSame(g, h, g[s.value].allOf, order + [s.value]);
    }
  }

  lemma {:induction false} VisitAllSame(g: Graph, h: Graph, branches: seq<Option<nat>>, order: seq<nat>)
    requires SameBranches(g, h) && Closed(g) && Closed(h) && Entered(g, order) && Branches(g, branches)
    ensures VisitAll(g, branches, order) == VisitAll(h, branches, order)
    decreases g.Keys - Members(order), 1 + |branches|
  {
    if branches != [] {
      var init, last := branches[..|branches| - 1], branches[|branches| - 1];
      assert last in branches;
      VisitAllSame(g, h, init, order);
      VisitSame(g, h, last, VisitAll(g, init, order));
    }
  }

  /** Reordering what the schemas declare, as Go's map iteration may, leaves the walk as it is. */
  lemma WalkSame(g: Graph, h: Graph, root: nat)
    requires SameBranches(g, h) && Closed(g) && Closed(h) && root in g
    ensures WalkOrder(g, root) == WalkOrder(h, root)
  {
    VisitSame(g, h, Some(root), []);
  }
}
