// Whole runs of delta sync: server changes, alias moves and Delta calls on any handles, in any order.
module DeltaRuns {
  import opened Basics
  import opened Routes
  import opened Sync
  import opened DeltaSync

  /**
   * The server's plans and aliases (last-used, default), one client state with its store, and the
   * cursors each handle has returned so far.
   */
  datatype World = World(
    logs: map<Text, PlanLog>,
    alias: map<Text, Text>,
    st: Cursors,
    store: Entries,
    issued: set<(Text, int)>)

  datatype Action =
    | CommitTo(plan: Text, commit: Commit)
    | Retarget(name: Text, plan: Text)
    | Call(handle: Text, served: Option<seq<Entity>>)   // None: the request failed

  function Resolve(w: World, handle: Text): Text { if handle in w.alias then w.alias[handle] else handle }

  function LogOf(w: World, handle: Text): PlanLog {
    if Resolve(w, handle) in w.logs then w.logs[Resolve(w, handle)] else []
  }

  /** What the server does with a request, given the batch it chose. */
  function Serve(w: World, request: Request, served: Option<seq<Entity>>): Reply {
    match served
    case None => Refused("")
    case Some(batch) => Served(batch, Knowledge(LogOf(w, request.plan)))
  }

  /** A Delta call followed, on success, by MergeByID into the store. */
  function AfterCall(w: World, handle: Text, served: Option<seq<Entity>>): World {
    match RequestFor(w.st, handle)
    case Err(_) => w
    case Ok(request) =>
      match Serve(w, request, served)
      case Refused(_) => w
      case Served(batch, k) =>
        w.(st := w.st.(planID := handle, plan := k),
           store := Merged(w.store, batch),
           issued := w.issued + {(handle, k)})
  }

  /** One sync step as a caller writes it: Delta, then MergeByID with what came back. */
  method SyncOnce(w: World, handle: Text, served: Option<seq<Entity>>, st: SyncState, local: Store)
    returns (r: Result<Store, DeltaError>)
    requires st.Value() == w.st && local.entries == w.store
    modifies st, local
    ensures st.Value() == AfterCall(w, handle, served).st
    ensures local.entries == AfterCall(w, handle, served).store
    ensures r.Ok? ==> r.value == local
    ensures r.Ok? <==> RequestFor(w.st, handle).Ok? && served.Some?
  {
    var changes, sent := Delta(handle, st, request => Serve(w, request, served));
    match changes {
      case Err(e) =>
        return Err(e);
      case Ok(batch) =>
        var merged := MergeByID(local, batch);
        return Ok(merged);
    }
  }

  function After(w: World, a: Action): World {
    match a
    case CommitTo(plan, commit) => if plan in w.logs then w.(logs := w.logs[plan := w.logs[plan] + [commit]]) else w
    case Retarget(name, plan) => w.(alias := w.alias[name := plan])
    case Call(handle, served) => AfterCall(w, handle, served)
  }

  /** Server knowledge only grows, aliases point at plans, and a served request is answered correctly. */
  ghost predicate Possible(w: World, a: Action) {
    match a
    case CommitTo(plan, commit) => plan in w.logs && commit.at > Knowledge(w.logs[plan])
    case Retarget(name, plan) => name in w.alias && plan in w.logs
    case Call(handle, served) =>
      RequestFor(w.st, handle).Ok? && served.Some? ==>
        && Resolve(w, handle) in w.logs
        && Answers(LogOf(w, handle), RequestFor(w.st, handle).value.since, served.value)
  }

  function Run(w: World, actions: seq<Action>): World {
    if actions == [] then w else After(Run(w, actions[..|actions| - 1]), actions[|actions| - 1])
  }

  ghost predicate PossibleRun(w: World, actions: seq<Action>) {
    forall i | 0 <= i < |actions| :: Possible(Run(w, actions[..i]), actions[i])
  }

  /** No alias comes to stand for another plan while it is the one the client's state is recorded under. */
  ghost predicate Steady(w: World, actions: seq<Action>) {
    forall i | 0 <= i < |actions| :: Still(Run(w, actions[..i]), actions[i])
  }

  ghost predicate Still(w: World, a: Action) {
    a.Retarget? && a.name in w.alias && a.name == w.st.planID != "" ==> w.alias[a.name] == a.plan
  }

  /** Before the first sync: a zero state, an empty store, any plans and aliases. */
  ghost predicate Start(w: World) {
    && w.st == ZERO_CURSORS && w.store == map[] && w.issued == {}
    && (forall p | p in w.logs :: ValidLog(w.logs[p]))
    && (forall n | n in w.alias :: w.alias[n] in w.logs)
  }

  // ----- the store follows the server

  /** Store and cursor agree with the server: the store is the plan's live entities as of the cursor. */
  ghost predicate Agrees(w: World) {
    if w.st.planID == "" then w.st.plan == 0 && w.store == map[]
    else
      && Resolve(w, w.st.planID) in w.logs
      && 0 <= w.st.plan <= Knowledge(LogOf(w, w.st.planID))
      && w.store == LiveAt(LogOf(w, w.st.planID), w.st.plan)
  }

  ghost predicate ServerValid(w: World) {
    && (forall p | p in w.logs :: ValidLog(w.logs[p]))
    && (forall n | n in w.alias :: w.alias[n] in w.logs)
  }

  lemma KnowledgeNonNegative(log: PlanLog)
    requires ValidLog(log)
    ensures Knowledge(log) >= 0
  {
  }

  lemma CommitKeepsPast(log: PlanLog, commit: Commit, k: int)
    requires ValidLog(log) && commit.at > Knowledge(log) && k <= Knowledge(log)
    ensures ValidLog(log + [commit]) && Knowledge(log + [commit]) == commit.at
    ensures LiveAt(log + [commit], k) == LiveAt(log, k)
  {
    LongerIsValid(log, commit);
    PastKept(log, commit, k);
  }

  lemma PastKept(log: PlanLog, commit: Commit, k: int)
    requires commit.at > k
    ensures LiveAt(log + [commit], k) == LiveAt(log, k)
  {
    assert (log + [commit])[..|log|] == log;
  }

  lemma LongerIsValid(log: PlanLog, commit: Commit)
    requires ValidLog(log) && commit.at > Knowledge(log)
    ensures ValidLog(log + [commit])
  {
    var longer := log + [commit];
    KnowledgeNonNegative(log);
    KnowledgeIsGreatest(log);
    forall i, j | 0 <= i < j < |longer| ensures longer[i].at < longer[j].at {
      assert longer[i] == log[i];
      if j < |log| { assert longer[j] == log[j]; } else { assert longer[j] == commit; }
    }
  }

  lemma KnowledgeIsGreatest(log: PlanLog)
    requires ValidLog(log)
    ensures forall i | 0 <= i < |log| :: log[i].at <= Knowledge(log)
  {
  }

  lemma StepAgrees(w: World, a: Action)
    requires ServerValid(w) && Agrees(w) && Possible(w, a)
    requires Still(w, a)
    ensures ServerValid(After(w, a)) && Agrees(After(w, a))
  {
    match a
    case Retarget(name, plan) => if name == w.st.planID != "" { assert After(w, a).alias == w.alias; }
    case CommitTo(plan, commit) => CommitAgrees(w, plan, commit);
    case Call(handle, served) => CallAgrees(w, handle, served);
  }

  lemma CommitStaysValid(w: World, plan: Text, commit: Commit)
    requires ServerValid(w) && plan in w.logs && commit.at > Knowledge(w.logs[plan])
    ensures ServerValid(w.(logs := w.logs[plan := w.logs[plan] + [commit]]))
  {
    KnowledgeNonNegative(w.logs[plan]);
    CommitKeepsPast(w.logs[plan], commit, 0);
  }

  lemma CommitAgrees(w: World, plan: Text, commit: Commit)
    requires ServerValid(w) && Agrees(w) && Possible(w, CommitTo(plan, commit))
    ensures ServerValid(After(w, CommitTo(plan, commit))) && Agrees(After(w, CommitTo(plan, commit)))
  {
    CommitStaysValid(w, plan, commit);
    if w.st.planID != "" {
      var log, after := LogOf(w, w.st.planID), After(w, CommitTo(plan, commit));
      if Resolve(w, w.st.planID) == plan {
        CommitKeepsPast(log, commit, w.st.plan);
        assert LogOf(after, w.st.planID) == log + [commit];
      } else {
        assert LogOf(after, w.st.planID) == log;
      }
    }
  }

  lemma CallAgrees(w: World, handle: Text, served: Option<seq<Entity>>)
    requires ServerValid(w) && Agrees(w) && Possible(w, Call(handle, served))
    ensures ServerValid(AfterCall(w, handle, served)) && Agrees(AfterCall(w, handle, served))
    ensures AfterCall(w, handle, served) != w ==>
              AfterCall(w, handle, served).store == Live(LogOf(w, handle))
  {
    if RequestFor(w.st, handle).Ok? && served.Some? {
      var log := LogOf(w, handle);
      KnowledgeNonNegative(log);
      if w.st.plan == 0 { NothingAtZero(log); }
      assert w.store == LiveAt(log, w.st.plan) by { if w.st.planID != "" { assert w.st.planID == handle; } }
      DeltaCatchesUp(log, w.st.plan, served.value);
    }
  }

  lemma PossibleInit(w: World, init: seq<Action>, last: Action)
    requires PossibleRun(w, init + [last])
    ensures PossibleRun(w, init) && Possible(Run(w, init), last)
  {
    var actions := init + [last];
    assert actions[..|init|] == init;
    forall i | 0 <= i < |init| ensures Possible(Run(w, init[..i]), init[i]) { assert actions[..i] == init[..i]; }
  }

  lemma SteadyInit(w: World, init: seq<Action>, last: Action)
    requires Steady(w, init + [last])
    ensures Steady(w, init) && Still(Run(w, init), last)
  {
    var actions := init + [last];
    assert actions[..|init|] == init;
    forall i | 0 <= i < |init| ensures Still(Run(w, init[..i]), init[i]) { assert actions[..i] == init[..i]; }
  }

  /**
   * Convergence: after any interleaving of server changes, alias moves and successful, failed or
   * misdirected Delta calls, the store is exactly the plan's live entities as of the saved cursor.
   */
  lemma {:induction false} SyncConverges(w: World, actions: seq<Action>)
    requires Start(w) && PossibleRun(w, actions) && Steady(w, actions)
    ensures ServerValid(Run(w, actions)) && Agrees(Run(w, actions))
  {
    if actions != [] {
      var init, last := actions[..|actions| - 1], actions[|actions| - 1];
      assert actions == init + [last];
      PossibleInit(w, init, last);
      SteadyInit(w, init, last);
      SyncConverges(w, init);
      StepAgrees(Run(w, init), last);
    }
  }

  // ----- for which handles that is certain

  /** Known before the first call: the handle is a plan id, or an alias of the only plan there is. */
  ghost predicate Anchored(w: World, handle: Text) {
    handle != "" && handle in w.alias ==> forall p | p in w.logs :: p == w.alias[handle]
  }

  /** A possible run after which the state is recorded under no handle but this one. */
  ghost predicate RunOf(w: World, handle: Text, actions: seq<Action>) {
    PossibleRun(w, actions) && Run(w, actions).st.planID in {"", handle}
  }

  ghost predicate AllThrough(handle: Text, actions: seq<Action>) {
    forall a | a in actions && a.Call? :: a.handle == handle
  }

  /** Calls through one handle record the state under no other. */
  lemma {:induction false} ThroughIsRunOf(w: World, handle: Text, actions: seq<Action>)
    requires w.st.planID == "" && AllThrough(handle, actions)
    ensures Run(w, actions).st.planID in {"", handle}
  {
    if actions != [] {
      assert actions[|actions| - 1] in actions;
      ThroughIsRunOf(w, handle, actions[..|actions| - 1]);
    }
  }

  /** Store and cursor agree with the server after every possible run of calls through the handle. */
  ghost predicate AlwaysAgrees(w: World, handle: Text) {
    forall actions | PossibleRun(w, actions) && AllThrough(handle, actions) :: Agrees(Run(w, actions))
  }

  /** Every possible successful call through the handle leaves the store equal to the live entities. */
  ghost predicate AlwaysCatchesUp(w: World, handle: Text) {
    forall actions, batch |
      && PossibleRun(w, actions) && AllThrough(handle, actions) && RequestFor(Run(w, actions).st, handle).Ok?
      && Possible(Run(w, actions), Call(handle, Some(batch))) ::
      CaughtUp(Run(w, actions), handle, AfterCall(Run(w, actions), handle, Some(batch)))
  }

  ghost predicate CaughtUp(before: World, handle: Text, after: World) {
    after.store == Live(LogOf(before, handle)) && after.st.plan == Knowledge(LogOf(before, handle))
  }

  lemma StepKeeps(w: World, handle: Text, a: Action)
    requires ServerValid(w) && Anchored(w, handle) && Possible(w, a)
    ensures Anchored(After(w, a), handle)
    ensures After(w, a).st.planID in {"", handle} ==> w.st.planID in {"", handle}
    ensures w.st.planID in {"", handle} ==> Still(w, a)
    ensures ServerValid(After(w, a))
  {
    match a
    case Retarget(name, plan) =>
    case CommitTo(plan, commit) => CommitStaysValid(w, plan, commit);
    case Call(h, served) =>
  }

  lemma SteadyThen(w: World, actions: seq<Action>, a: Action)
    requires Steady(w, actions) && Still(Run(w, actions), a)
    ensures Steady(w, actions + [a])
  {
    var longer := actions + [a];
    assert longer[..|actions|] == actions;
    forall i | 0 <= i < |longer| ensures Still(Run(w, longer[..i]), longer[i]) {
      if i < |actions| { assert longer[..i] == actions[..i]; }
    }
  }

  lemma {:induction false} AnchoredIsSteady(w: World, handle: Text, actions: seq<Action>)
    requires Start(w) && Anchored(w, handle) && RunOf(w, handle, actions)
    ensures Steady(w, actions) && Anchored(Run(w, actions), handle) && ServerValid(Run(w, actions))
  {
    if actions != [] {
      var init, last := actions[..|actions| - 1], actions[|actions| - 1];
      assert actions == init + [last];
      PossibleInit(w, init, last);
      AnchoredRunValid(w, handle, init);
      StepKeeps(Run(w, init), handle, last);
      AnchoredIsSteady(w, handle, init);
      SteadyThen(w, init, last);
    }
  }

  lemma {:induction false} AnchoredRunValid(w: World, handle: Text, actions: seq<Action>)
    requires Start(w) && Anchored(w, handle) && PossibleRun(w, actions)
    ensures Anchored(Run(w, actions), handle) && ServerValid(Run(w, actions))
  {
    if actions != [] {
      var init, last := actions[..|actions| - 1], actions[|actions| - 1];
      assert actions == init + [last];
      PossibleInit(w, init, last);
      AnchoredRunValid(w, handle, init);
      StepKeeps(Run(w, init), handle, last);
    }
  }

  /** An anchored handle always agrees, also when calls through other handles fail or are refused on the way. */
  lemma AnchoredConverges(w: World, handle: Text, actions: seq<Action>)
    requires Start(w) && Anchored(w, handle) && RunOf(w, handle, actions)
    ensures ServerValid(Run(w, actions)) && Agrees(Run(w, actions))
  {
    AnchoredIsSteady(w, handle, actions);
    SyncConverges(w, actions);
  }

  /** A call that is made and answered leaves the store equal to the live entities; any other leaves the world alone. */
  lemma CallConverges(w: World, actions: seq<Action>, handle: Text, served: Option<seq<Entity>>)
    requires Start(w) && PossibleRun(w, actions) && (Anchored(w, handle) || Steady(w, actions))
    requires Possible(Run(w, actions), Call(handle, served))
    ensures var before := Run(w, actions);
            var after := AfterCall(before, handle, served);
            if RequestFor(before.st, handle).Ok? && served.Some? then CaughtUp(before, handle, after)
            else after == before
  {
    var before := Run(w, actions);
    if RequestFor(before.st, handle).Ok? && served.Some? {
      if Anchored(w, handle) { AnchoredConverges(w, handle, actions); } else { SyncConverges(w, actions); }
      CallAgrees(before, handle, served);
      if AfterCall(before, handle, served) == before { assert before.st.planID == handle; }
    }
  }

  // ----- and for which it is not

  lemma RunThen(w: World, actions: seq<Action>, a: Action)
    ensures Run(w, actions + [a]) == After(Run(w, actions), a)
    ensures PossibleRun(w, actions) && Possible(Run(w, actions), a) ==> PossibleRun(w, actions + [a])
  {
    var longer := actions + [a];
    assert longer[..|actions|] == actions;
    if PossibleRun(w, actions) && Possible(Run(w, actions), a) {
      forall i | 0 <= i < |longer| ensures Possible(Run(w, longer[..i]), longer[i]) {
        if i < |actions| { assert longer[..i] == actions[..i]; }
      }
    }
  }

  /** An entity the entries do not hold in this form. */
  function Unlike(m: Entries): (e: Entity)
    ensures !e.deleted && Lookup(m, e.id) != Some(e)
  {
    Entity("t", false, if "t" in m then m["t"].body + "'" else "")
  }

  /** A change to p that q's entities do not reflect, later than anything in either log. */
  function Apart(p: PlanLog, q: PlanLog): Commit {
    Commit(1 + if Knowledge(p) > Knowledge(q) then Knowledge(p) else Knowledge(q), [Unlike(Live(q))])
  }

  /** The alias's plan changes, and the client syncs; then the alias comes to stand for q. */
  function AliasMove(w: World, name: Text, q: Text): seq<Action>
    requires name in w.alias && w.alias[name] in w.logs && q in w.logs
  {
    var p := w.alias[name];
    var commit := Apart(w.logs[p], w.logs[q]);
    [CommitTo(p, commit), Call(name, Some(ReplayAfter(w.logs[p] + [commit], 0))), Retarget(name, q)]
  }

  lemma ApartLive(p: PlanLog, q: PlanLog)
    requires ValidLog(p) && ValidLog(q)
    ensures var log := p + [Apart(p, q)];
            && ValidLog(log) && Knowledge(log) > Knowledge(p) && Knowledge(log) > Knowledge(q)
            && Live(log) != Live(q)
  {
    var commit := Apart(p, q);
    var log, e := p + [commit], Unlike(Live(q));
    KnowledgeNonNegative(p);
    CommitKeepsPast(p, commit, 0);
    assert commit.changes == [e] && [e][..0] == [] && log[..|p|] == p;
    assert Live(log) == Merged(LiveAt(p, commit.at), [e]);
    assert Lookup(Live(log), e.id) == Some(e);
  }

  /** After the move the next call may be answered with nothing at all, and correctly so. */
  lemma NothingAfter(log: PlanLog, k: int)
    requires ValidLog(log) && k > Knowledge(log) && k != 0
    ensures Answers(log, Some(k), [])
  {
    forall id ensures !ChangedAfter(log, k, id) {
      assert forall i | 0 <= i < |log| :: log[i].at <= Knowledge(log);
    }
  }

  /** The world after an alias move: the store holds the old plan's entities, the cursor is the old plan's. */
  ghost predicate Stranded(w: World, name: Text, q: Text) {
    && Resolve(w, name) == q && q in w.logs && ValidLog(w.logs[q])
    && w.st.planID == name && w.st.plan > Knowledge(w.logs[q])
    && w.store != Live(w.logs[q])
  }

  /** A first sync against a server that replays its log. */
  lemma FirstCall(w: World, handle: Text)
    requires w.st == ZERO_CURSORS && w.store == map[] && handle != ""
    requires Resolve(w, handle) in w.logs && ValidLog(LogOf(w, handle))
    ensures var log := LogOf(w, handle);
            var call := Call(handle, Some(ReplayAfter(log, 0)));
            && Possible(w, call) && After(w, call).store == Live(log)
            && After(w, call).st == ZERO_CURSORS.(planID := handle, plan := Knowledge(log))
  {
    var log := LogOf(w, handle);
    KnowledgeNonNegative(log);
    ReplayAnswers(log, 0);
    NothingAtZero(log);
    DeltaCatchesUp(log, 0, ReplayAfter(log, 0));
  }

  lemma FirstSync(w: World, name: Text, q: Text)
    requires Start(w) && name in w.alias && name != "" && q in w.logs && q != w.alias[name]
    ensures var acts := AliasMove(w, name, q);
            PossibleRun(w, acts[..2]) && Stranded(After(Run(w, acts[..2]), acts[2]), name, q)
  {
    var p, acts := w.alias[name], AliasMove(w, name, q);
    ApartLive(w.logs[p], w.logs[q]);
    assert acts[..1] == [] + [acts[0]] && acts[..2] == acts[..1] + [acts[1]];
    RunThen(w, [], acts[0]);
    FirstCall(After(w, acts[0]), name);
    RunThen(w, acts[..1], acts[1]);
  }

  /**
   * If an alias can come to stand for a second plan, some run through that alias alone leaves the
   * store with entities the plan does not have, and the next successful call does not repair it.
   */
  lemma AliasMoveDiverges(w: World, name: Text, q: Text)
    requires Start(w) && name in w.alias && name != "" && q in w.logs && q != w.alias[name]
    ensures var acts := AliasMove(w, name, q);
            && PossibleRun(w, acts) && AllThrough(name, acts) && !Agrees(Run(w, acts))
            && RequestFor(Run(w, acts).st, name).Ok? && Possible(Run(w, acts), Call(name, Some([])))
            && !CaughtUp(Run(w, acts), name, AfterCall(Run(w, acts), name, Some([])))
            && !Agrees(AfterCall(Run(w, acts), name, Some([])))
  {
    var acts := AliasMove(w, name, q);
    MoveStrands(w, name, q);
    StrandedStays(Run(w, acts), name, q);
  }

  lemma MoveStrands(w: World, name: Text, q: Text)
    requires Start(w) && name in w.alias && name != "" && q in w.logs && q != w.alias[name]
    ensures PossibleRun(w, AliasMove(w, name, q)) && Stranded(Run(w, AliasMove(w, name, q)), name, q)
  {
    var acts := AliasMove(w, name, q);
    FirstSync(w, name, q);
    assert acts == acts[..2] + [acts[2]];
    RunThen(w, acts[..2], acts[2]);
  }

  lemma StrandedStays(w: World, name: Text, q: Text)
    requires Stranded(w, name, q) && name != ""
    ensures !Agrees(w) && RequestFor(w.st, name).Ok? && Possible(w, Call(name, Some([])))
    ensures var after := AfterCall(w, name, Some([]));
            !CaughtUp(w, name, after) && !Agrees(after)
  {
    KnowledgeNonNegative(w.logs[q]);
    NothingAfter(w.logs[q], w.st.plan);
    assert Merged(w.store, []) == w.store;
  }

  /**
   * Exactly when delta sync is safe through a handle: it is no alias, or there is only one plan it
   * can stand for. For those handles every run agrees and every successful call catches up; for any
   * other handle both can fail although every check passes and every answer is correct.
   */
  lemma ConvergesIff(w: World, handle: Text)
    requires Start(w)
    ensures AlwaysAgrees(w, handle) <==> Anchored(w, handle)
    ensures AlwaysCatchesUp(w, handle) <==> Anchored(w, handle)
  {
    if Anchored(w, handle) {
      forall actions | PossibleRun(w, actions) && AllThrough(handle, actions) ensures Agrees(Run(w, actions)) {
        ThroughIsRunOf(w, handle, actions);
        AnchoredConverges(w, handle, actions);
      }
      forall actions, batch |
        && PossibleRun(w, actions) && AllThrough(handle, actions) && RequestFor(Run(w, actions).st, handle).Ok?
        && Possible(Run(w, actions), Call(handle, Some(batch)))
        ensures CaughtUp(Run(w, actions), handle, AfterCall(Run(w, actions), handle, Some(batch)))
      {
        CallConverges(w, actions, handle, Some(batch));
      }
    } else {
      var q :| q in w.logs && q != w.alias[handle];
      AliasMoveDiverges(w, handle, q);
    }
  }

  // ----- cursors stay attributed

  ghost predicate Attributed(w: World) {
    && (w.st.plan != 0 ==> w.st.planID != "" && (w.st.planID, w.st.plan) in w.issued)
    && w.st.(planID := "", plan := 0) == ZERO_CURSORS
  }

  lemma {:induction false} RunAttributed(w: World, actions: seq<Action>)
    requires w.st == ZERO_CURSORS
    ensures Attributed(Run(w, actions))
  {
    if actions != [] { RunAttributed(w, actions[..|actions| - 1]); }
  }

  /**
   * From a zero state, and whatever the server does, a cursor is sent through a handle only if an
   * earlier call through that same handle returned it; the per-service cursors never move.
   */
  lemma CursorsAttributed(w: World, actions: seq<Action>, handle: Text)
    requires w.st == ZERO_CURSORS
    ensures var now := Run(w, actions);
            && (RequestFor(now.st, handle).Ok? && RequestFor(now.st, handle).value.since.Some? ==>
                  (handle, RequestFor(now.st, handle).value.since.value) in now.issued)
            && now.st == ZERO_CURSORS.(planID := now.st.planID, plan := now.st.plan)
  {
    RunAttributed(w, actions);
  }

  // ----- a concrete case

  const P: Text := "p"
  const Q: Text := "q"
  const LAST_USED: Text := "last-used"

  /** Two plans that have seen no change, and an alias for the first. */
  function TwoPlans(): World { World(map[P := [], Q := []], map[LAST_USED := P], ZERO_CURSORS, map[], {}) }

  /** The alias is not safe to sync through, and the plan's own id is. */
  lemma AliasSwitchDiverges()
    ensures Start(TwoPlans())
    ensures !AlwaysAgrees(TwoPlans(), LAST_USED) && !AlwaysCatchesUp(TwoPlans(), LAST_USED)
    ensures AlwaysAgrees(TwoPlans(), P) && AlwaysCatchesUp(TwoPlans(), P)
  {
    var w := TwoPlans();
    assert LAST_USED[0] != P[0] && P[0] != Q[0];
    assert LAST_USED in w.alias && P !in w.alias && Q in w.logs;
    ConvergesIff(w, LAST_USED);
    ConvergesIff(w, P);
  }
}
