// sync.go: folding delta batches into a local store.
module Sync {
  import opened Basics
  import opened Permutations

  /** A synced entity: its store key, the tombstone mark and the rest of it. */
  datatype Entity = Entity(id: string, deleted: bool, body: string)

  type Entries = map<string, Entity>

  /** The caller's Go map: a reference, so that a merge is seen through every alias of it. */
  class Store {
    var entries: Entries

    constructor ()
      ensures entries == map[]
    {
      entries := map[];
    }
  }

  /** What one change does. */
  function Merged1(m: Entries, c: Entity): Entries {
    if c.deleted then m - {c.id} else m[c.id := c]
  }

  function Merged(m: Entries, changes: seq<Entity>): Entries {
    if changes == [] then m
    else Merged1(Merged(m, changes[..|changes| - 1]), changes[|changes| - 1])
  }

  /** MergeByID: deletes and upserts in the caller's map, allocating one only for nil. */
  method MergeByID(local: Store?, changes: seq<Entity>) returns (r: Store)
    modifies if local == null then {} else {local}
    ensures local != null ==> r == local && r.entries == Merged(old(local.entries), changes)
    ensures local == null ==> fresh(r) && r.entries == Merged(map[], changes)
  {
    if local == null {
      r := new Store();
    } else {
      r := local;
    }
    ghost var start := r.entries;
    for i := 0 to |changes|
      invariant r.entries == Merged(start, changes[..i])
      invariant local == null ==> fresh(r)
    {
      var change := changes[i];
      assert changes[..i + 1][..i] == changes[..i];
      if change.deleted {
        r.entries := r.entries - {change.id};
        continue;
      }
      r.entries := r.entries[change.id := change];
    }
    assert changes[..|changes|] == changes;
  }

  // ----- last writer wins

  function Lookup(m: Entries, id: string): Option<Entity> { if id in m then Some(m[id]) else None }

  predicate Mentions(changes: seq<Entity>, id: string) { exists i | 0 <= i < |changes| :: changes[i].id == id }

  /** The last change that names id. */
  function LastWord(changes: seq<Entity>, id: string): (e: Entity)
    requires Mentions(changes, id)
    ensures e.id == id && e in changes
  {
    var last := changes[|changes| - 1];
    if last.id == id then last else LastWord(changes[..|changes| - 1], id)
  }

  /** An id's final entry is decided by its last change, and untouched if none names it. */
  lemma {:induction false} LastWriterWins(m: Entries, changes: seq<Entity>, id: string)
    ensures Lookup(Merged(m, changes), id) ==
            if !Mentions(changes, id) then Lookup(m, id)
            else if LastWord(changes, id).deleted then None
            else Some(LastWord(changes, id))
  {
    if changes != [] {
      var init, last := changes[..|changes| - 1], changes[|changes| - 1];
      LastWriterWins(m, init, id);
      if last.id == id {
        assert changes[|changes| - 1].id == id;
      } else {
        assert Mentions(changes, id) ==> Mentions(init, id) by {
          if i :| 0 <= i < |changes| && changes[i].id == id { assert init[i].id == id; }
        }
        assert Mentions(init, id) ==> Mentions(changes, id) by {
          if i :| 0 <= i < |init| && init[i].id == id { assert changes[i].id == id; }
        }
      }
    }
  }

  lemma EqualByLookup(a: Entries, b: Entries)
    requires forall id :: Lookup(a, id) == Lookup(b, id)
    ensures a == b
  {
    forall id | id in a ensures id in b && a[id] == b[id] { assert Lookup(a, id) == Lookup(b, id); }
    forall id | id in b ensures id in a { assert Lookup(a, id) == Lookup(b, id); }
  }

  /** Merging two batches in turn is merging their concatenation. */
  lemma {:induction false} MergeConcat(m: Entries, a: seq<Entity>, b: seq<Entity>)
    ensures Merged(Merged(m, a), b) == Merged(m, a + b)
  {
    if b == [] {
      assert a + b == a;
    } else {
      MergeConcat(m, a, b[..|b| - 1]);
      assert (a + b)[..|a + b| - 1] == a + b[..|b| - 1];
    }
  }

  /** A batch already merged changes nothing when merged again. */
  lemma MergeIdempotent(m: Entries, changes: seq<Entity>)
    ensures Merged(Merged(m, changes), changes) == Merged(m, changes)
  {
    forall id ensures Lookup(Merged(Merged(m, changes), changes), id) == Lookup(Merged(m, changes), id) {
      LastWriterWins(m, changes, id);
      LastWriterWins(Merged(m, changes), changes, id);
    }
    EqualByLookup(Merged(Merged(m, changes), changes), Merged(m, changes));
  }

  predicate DistinctIds(changes: seq<Entity>) {
    forall i, j | 0 <= i < j < |changes| :: changes[i].id != changes[j].id
  }

  /** Batches with the same changes and distinct ids merge to the same store, whatever the order. */
  lemma MergeOrderIrrelevant(m: Entries, a: seq<Entity>, b: seq<Entity>)
    requires DistinctIds(a) && multiset(a) == multiset(b)
    ensures Merged(m, a) == Merged(m, b)
  {
    forall id ensures Lookup(Merged(m, a), id) == Lookup(Merged(m, b), id) {
      LastWriterWins(m, a, id);
      LastWriterWins(m, b, id);
      SameMembers(a, b);
      if Mentions(a, id) {
        assert LastWord(a, id) in b;
        MentionedIn(b, LastWord(a, id));
        assert LastWord(b, id) in a;
        OnlyOne(a, LastWord(a, id), LastWord(b, id));
      } else if Mentions(b, id) {
        MentionedIn(a, LastWord(b, id));
      }
    }
    EqualByLookup(Merged(m, a), Merged(m, b));
  }

  lemma MentionedIn(changes: seq<Entity>, e: Entity)
    requires e in changes
    ensures Mentions(changes, e.id)
  {
    var i :| 0 <= i < |changes| && changes[i] == e;
    assert changes[i].id == e.id;
  }

  lemma OnlyOne(changes: seq<Entity>, d: Entity, e: Entity)
    requires DistinctIds(changes) && d in changes && e in changes && d.id == e.id
    ensures d == e
  {
    var i :| 0 <= i < |changes| && changes[i] == d;
    var j :| 0 <= j < |changes| && changes[j] == e;
  }
}
