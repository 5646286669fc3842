// plan.go's Delta and Export against a server with a growing change log: one plan's cursor and the
// local store folded from its deltas.
module DeltaSync {
  import opened Basics
  import opened Routes
  import opened Sync

  // ----- the server

  /** One server-side change set, stamped with the knowledge it brings the plan to. */
  datatype Commit = Commit(at: int, changes: seq<Entity>)

  type PlanLog = seq<Commit>

  ghost predicate ValidLog(log: PlanLog) {
    && (forall i | 0 <= i < |log| :: log[i].at > 0)
    && (forall i, j | 0 <= i < j < |log| :: log[i].at < log[j].at)
  }

  /** server_knowledge: monotone, and zero only while nothing has happened. */
  function Knowledge(log: PlanLog): int { if log == [] then 0 else log[|log| - 1].at }

  /** The live entities as of knowledge k. */
  function LiveAt(log: PlanLog, k: int): Entries {
    if log == [] then map[]
    else
      var m := LiveAt(log[..|log| - 1], k);
      if log[|log| - 1].at <= k then Merged(m, log[|log| - 1].changes) else m
  }

  function Live(log: PlanLog): Entries { LiveAt(log, Knowledge(log)) }

  ghost predicate ChangedAfter(log: PlanLog, k: int, id: string) {
    exists i | 0 <= i < |log| :: log[i].at > k && Mentions(log[i].changes, id)
  }

  /** Everything a batch says about an id is the id's current state, a tombstone if it is gone. */
  ghost predicate Truthful(log: PlanLog, batch: seq<Entity>) {
    forall id | Mentions(batch, id) ::
      Lookup(Live(log), id) == if LastWord(batch, id).deleted then None else Some(LastWord(batch, id))
  }

  /**
   * A correct answer: truthful, and complete for what was asked. A full read names every live
   * entity (tombstones optional), a delta every entity changed after the cursor.
   */
  ghost predicate Answers(log: PlanLog, since: Option<int>, batch: seq<Entity>) {
    && Truthful(log, batch)
    && match since
       case None => forall id | id in Live(log) :: Mentions(batch, id)
       case Some(k) => forall id | ChangedAfter(log, k, id) :: Mentions(batch, id)
  }

  // ----- the client

  /** SyncState's fields. */
  datatype Cursors = Cursors(
    planID: Text,
    plan: int,
    accounts: int, categories: int, months: int, payees: int, transactions: int, scheduled: int)

  const ZERO_CURSORS := Cursors("", 0, 0, 0, 0, 0, 0, 0)

  class SyncState {
    var planID: Text
    var plan: int
    var accounts: int
    var categories: int
    var months: int
    var payees: int
    var transactions: int
    var scheduled: int

    function Value(): Cursors
      reads this
    {
      Cursors(planID, plan, accounts, categories, months, payees, transactions, scheduled)
    }
  }

  /** The Export request; since is the last_knowledge_of_server parameter, if sent. */
  datatype Request = Request(plan: Text, since: Option<int>)

  /** What the transport brings back: an error, or the plan's entities with the new knowledge. */
  datatype Reply = Refused(error: string) | Served(batch: seq<Entity>, knowledge: int)

  datatype DeltaError = NilState | WrongPlan | Unattributed | EmptyID | CallFailed(error: string)

  /** The request Delta makes for a handle and a state, if its checks let it get that far. */
  function RequestFor(st: Cursors, planID: Text): Result<Request, DeltaError> {
    if st.planID != "" && st.planID != planID then Err(WrongPlan)
    else if st.planID == "" && st.plan != 0 then Err(Unattributed)
    else if planID == "" then Err(EmptyID)
    else Ok(Request(planID, if st.plan != 0 then Some(st.plan) else None))
  }

  /**
   * A state is accepted through its own handle, or through any handle while it is all zero; one restored
   * with a cursor but no plan is refused through every handle. A zero cursor is not sent.
   */
  lemma RequestForIff(st: Cursors, planID: Text)
    ensures RequestFor(st, planID).Ok? <==>
            planID != "" && (st.planID == planID || (st.planID == "" && st.plan == 0))
    ensures RequestFor(st, planID) == Err(Unattributed) <==> st.planID == "" && st.plan != 0
    ensures RequestFor(st, planID) == Err(WrongPlan) <==> st.planID != "" && st.planID != planID
    ensures RequestFor(st, planID).Ok? ==>
              && RequestFor(st, planID).value.plan == planID
              && RequestFor(st, planID).value.since == if st.plan == 0 then None else Some(st.plan)
  {
  }

  /** Plan.Delta: the three checks, then Export behind do's path guard, then the state advances. */
  method Delta(planID: Text, st: SyncState?, answer: Request -> Reply)
    returns (r: Result<seq<Entity>, DeltaError>, sent: Option<Request>)
    modifies if st == null then {} else {st}
    ensures st == null ==> r == Err(NilState) && sent == None
    ensures st != null && r.Err? ==> st.Value() == old(st.Value())
    ensures st != null ==>
              match RequestFor(old(st.Value()), planID)
              case Err(e) => r == Err(e) && sent == None
              case Ok(request) =>
                && sent == Some(request)
                && match answer(request)
                   case Refused(e) => r == Err(CallFailed(e))
                   case Served(batch, k) =>
                     r == Ok(batch) && st.Value() == old(st.Value()).(planID := planID, plan := k)
  {
    sent := None;
    if st == null {
      return Err(NilState), None;
    }
    if st.planID != "" && st.planID != planID {
      return Err(WrongPlan), None;
    }
    if st.planID == "" && st.plan != 0 {
      return Err(Unattributed), None;
    }
    var since := None;
    if st.plan != 0 {
      since := Some(st.plan);
    }
    var path := JoinPath(["plans", planID]);
    PlanPathGuard(planID);
    if GuardFires(path) {
      return Err(EmptyID), None;
    }
    sent := Some(Request(planID, since));
    match answer(Request(planID, since)) {
      case Refused(e) =>
        return Err(CallFailed(e)), sent;
      case Served(batch, k) =>
        st.planID := planID;
        st.plan := k;
        return Ok(batch), sent;
    }
  }

  /** Among plan paths the guard stops exactly the one with an empty id. */
  lemma PlanPathGuard(planID: Text)
    ensures GuardFires(PathOf(["plans", planID])) <==> planID == ""
  {
    var segments: seq<Text> := ["plans", planID];
    GuardIff(segments);
    assert segments[1] == planID;
  }

  // ----- one successful delta

  lemma {:induction false} UnchangedStays(log: PlanLog, k: int, id: string)
    requires !ChangedAfter(log, k, id)
    ensures forall k' | k' >= k :: Lookup(LiveAt(log, k'), id) == Lookup(LiveAt(log, k), id)
  {
    if log != [] {
      var init, last := log[..|log| - 1], log[|log| - 1];
      UnchangedStays(init, k, id);
      assert log[|log| - 1].at > k ==> !Mentions(last.changes, id);
      forall k' | k' >= k ensures Lookup(LiveAt(log, k'), id) == Lookup(LiveAt(log, k), id) {
        LastWriterWins(LiveAt(init, k'), last.changes, id);
        LastWriterWins(LiveAt(init, k), last.changes, id);
      }
    }
  }

  lemma {:induction false} NothingAtZero(log: PlanLog)
    requires ValidLog(log)
    ensures LiveAt(log, 0) == map[]
  {
    if log != [] { NothingAtZero(log[..|log| - 1]); }
  }

  /**
   * A store that holds the live entities as of its cursor holds, after merging a correct answer, the
   * live entities as of now.
   */
  lemma DeltaCatchesUp(log: PlanLog, cursor: int, batch: seq<Entity>)
    requires ValidLog(log) && 0 <= cursor <= Knowledge(log)
    requires Answers(log, if cursor != 0 then Some(cursor) else None, batch)
    ensures Merged(LiveAt(log, cursor), batch) == Live(log)
  {
    forall id ensures Lookup(Merged(LiveAt(log, cursor), batch), id) == Lookup(Live(log), id) {
      LastWriterWins(LiveAt(log, cursor), batch, id);
      if !Mentions(batch, id) {
        if cursor == 0 { NothingAtZero(log); } else { UnchangedStays(log, cursor, id); }
      }
    }
    EqualByLookup(Merged(LiveAt(log, cursor), batch), Live(log));
  }

  /**
   * A full read, which need not carry tombstones, brings a store up to date if and only if it names
   * every entry of the store that is no longer live. An empty store always qualifies.
   */
  lemma FullReadExact(log: PlanLog, store: Entries, batch: seq<Entity>)
    requires Answers(log, None, batch)
    ensures Merged(store, batch) == Live(log) <==> forall id | id in store && id !in Live(log) :: Mentions(batch, id)
  {
    forall id
      ensures Lookup(Merged(store, batch), id) ==
              if Mentions(batch, id) then Lookup(Live(log), id) else Lookup(store, id)
    {
      LastWriterWins(store, batch, id);
    }
    if forall id | id in store && id !in Live(log) :: Mentions(batch, id) {
      forall id ensures Lookup(Merged(store, batch), id) == Lookup(Live(log), id) {
        if !Mentions(batch, id) { assert id !in Live(log) && id !in store; }
      }
      EqualByLookup(Merged(store, batch), Live(log));
    } else {
      var id :| id in store && id !in Live(log) && !Mentions(batch, id);
      assert Lookup(Merged(store, batch), id) == Some(store[id]);
    }
  }

  // ----- correct answers exist

  /** The plainest server: replay every change made after k. */
  function ReplayAfter(log: PlanLog, k: int): seq<Entity> {
    if log == [] then []
    else ReplayAfter(log[..|log| - 1], k) + if log[|log| - 1].at > k then log[|log| - 1].changes else []
  }

  lemma {:induction false} ReplayMerges(log: PlanLog, k: int, k': int)
    requires ValidLog(log) && k <= k' && (log != [] ==> Knowledge(log) <= k')
    ensures Merged(LiveAt(log, k), ReplayAfter(log, k)) == LiveAt(log, k')
  {
    if log != [] {
      var init, last := log[..|log| - 1], log[|log| - 1];
      ReplayMerges(init, k, k');
      if last.at > k {
        MergeConcat(LiveAt(init, k), ReplayAfter(init, k), last.changes);
      } else {
        NothingReplayed(init, k);
        assert ReplayAfter(log, k) == [];
      }
    }
  }

  lemma {:induction false} NothingReplayed(log: PlanLog, k: int)
    requires ValidLog(log) && forall i | 0 <= i < |log| :: log[i].at <= k
    ensures ReplayAfter(log, k) == []
  {
    if log != [] { NothingReplayed(log[..|log| - 1], k); }
  }

  lemma {:induction false} ReplayMentions(log: PlanLog, k: int, id: string)
    ensures Mentions(ReplayAfter(log, k), id) <==> ChangedAfter(log, k, id)
  {
    if log != [] {
      var init, last := log[..|log| - 1], log[|log| - 1];
      ReplayMentions(init, k, id);
      MentionsConcat(ReplayAfter(init, k), if last.at > k then last.changes else [], id);
      if ChangedAfter(init, k, id) {
        var i :| 0 <= i < |init| && init[i].at > k && Mentions(init[i].changes, id);
        assert log[i].at > k && Mentions(log[i].changes, id);
      }
      if ChangedAfter(log, k, id) {
        var i :| 0 <= i < |log| && log[i].at > k && Mentions(log[i].changes, id);
        if i < |init| { assert init[i].at > k && Mentions(init[i].changes, id); }
      }
    }
  }

  lemma MentionsConcat(a: seq<Entity>, b: seq<Entity>, id: string)
    ensures Mentions(a + b, id) <==> Mentions(a, id) || Mentions(b, id)
  {
    if Mentions(a, id) { var i :| 0 <= i < |a| && a[i].id == id; assert (a + b)[i].id == id; }
    if Mentions(b, id) { var i :| 0 <= i < |b| && b[i].id == id; assert (a + b)[|a| + i].id == id; }
  }

  /** Whatever the log and the cursor, some batch is a correct answer. */
  lemma ReplayAnswers(log: PlanLog, cursor: int)
    requires ValidLog(log) && 0 <= cursor <= Knowledge(log)
    ensures Answers(log, if cursor != 0 then Some(cursor) else None, ReplayAfter(log, cursor))
  {
    var batch := ReplayAfter(log, cursor);
    ReplayMerges(log, cursor, Knowledge(log));
    forall id | Mentions(batch, id)
      ensures Lookup(Live(log), id) == if LastWord(batch, id).deleted then None else Some(LastWord(batch, id))
    {
      LastWriterWins(LiveAt(log, cursor), batch, id);
    }
    if cursor == 0 {
      NothingAtZero(log);
      forall id | id in Live(log) ensures Mentions(batch, id) { LastWriterWins(map[], batch, id); }
    } else {
      forall id | ChangedAfter(log, cursor, id) ensures Mentions(batch, id) { ReplayMentions(log, cursor, id); }
    }
  }
}
