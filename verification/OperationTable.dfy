// internal/contract/table.go: the operation table's path templates and the patterns made of them.
module OperationTable {
  import opened Basics
  import opened Routes

  datatype Verb = GET | POST | PUT | PATCH | DELETE

  /** The literal words that occur in the templates. */
  datatype Word =
    | User | Plans | Settings | Months | Accounts | Categories | CategoryGroups | Payees | PayeeLocations
    | MoneyMovements | MoneyMovementGroups | Transactions | Import | ScheduledTransactions

  function Spelling(w: Word): Text {
    match w
    case User => "user"
    case Plans => "plans"
    case Settings => "settings"
    case Months => "months"
    case Accounts => "accounts"
    case Categories => "categories"
    case CategoryGroups => "category_groups"
    case Payees => "payees"
    case PayeeLocations => "payee_locations"
    case MoneyMovements => "money_movements"
    case MoneyMovementGroups => "money_movement_groups"
    case Transactions => "transactions"
    case Import => "import"
    case ScheduledTransactions => "scheduled_transactions"
  }

  /** The parameters that occur in the templates. */
  datatype Name =
    | PlanID | Month | AccountID | CategoryID | CategoryGroupID | PayeeID | PayeeLocationID
    | TransactionID | ScheduledTransactionID

  function ParamText(n: Name): Text {
    match n
    case PlanID => "{plan_id}"
    case Month => "{month}"
    case AccountID => "{account_id}"
    case CategoryID => "{category_id}"
    case CategoryGroupID => "{category_group_id}"
    case PayeeID => "{payee_id}"
    case PayeeLocationID => "{payee_location_id}"
    case TransactionID => "{transaction_id}"
    case ScheduledTransactionID => "{scheduled_transaction_id}"
  }

  datatype Segment = Lit(word: Word) | Param(name: Name)

  /** The operations, named by their ids. */
  datatype Operation =
    | getUser | getPlans | getPlanById | getPlanSettingsById | getPlanMonths | getPlanMonth
    | getAccounts | createAccount | getAccountById
    | getCategories | createCategory | getCategoryById | updateCategory
    | getMonthCategoryById | updateMonthCategory | createCategoryGroup | updateCategoryGroup
    | getPayees | createPayee | getPayeeById | updatePayee
    | getPayeeLocations | getPayeeLocationById | getPayeeLocationsByPayee
    | getMoneyMovements | getMoneyMovementsByMonth | getMoneyMovementGroups | getMoneyMovementGroupsByMonth
    | getTransactions | createTransaction | updateTransactions | importTransactions
    | getTransactionById | updateTransaction | deleteTransaction
    | getTransactionsByAccount | getTransactionsByCategory | getTransactionsByPayee | getTransactionsByMonth
    | getScheduledTransactions | createScheduledTransaction | getScheduledTransactionById
    | updateScheduledTransaction | deleteScheduledTransaction

  function VerbOf(op: Operation): Verb {
    match op
    case createAccount | createCategory | createCategoryGroup | createPayee | createTransaction
       | importTransactions | createScheduledTransaction => POST
    case updateCategory | updateMonthCategory | updateCategoryGroup | updatePayee | updateTransactions => PATCH
    case updateTransaction | updateScheduledTransaction => PUT
    case deleteTransaction | deleteScheduledTransaction => DELETE
    case _ => GET
  }

  const PLANS := Lit(Plans)
  const PLAN_ID := Param(PlanID)

  /** Each operation's path template, segment by segment. */
  function Template(op: Operation): seq<Segment> {
    match op
    case getUser => [Lit(User)]
    case getPlans => [Lit(Plans)]
    case getPlanById => [PLANS, PLAN_ID]
    case getPlanSettingsById => [PLANS, PLAN_ID, Lit(Settings)]
    case getPlanMonths => [PLANS, PLAN_ID, Lit(Months)]
    case getPlanMonth => [PLANS, PLAN_ID, Lit(Months), Param(Month)]
    case getAccounts | createAccount => [PLANS, PLAN_ID, Lit(Accounts)]
    case getAccountById => [PLANS, PLAN_ID, Lit(Accounts), Param(AccountID)]
    case getCategories | createCategory => [PLANS, PLAN_ID, Lit(Categories)]
    case getCategoryById | updateCategory => [PLANS, PLAN_ID, Lit(Categories), Param(CategoryID)]
    case getMonthCategoryById | updateMonthCategory =>
      [PLANS, PLAN_ID, Lit(Months), Param(Month), Lit(Categories), Param(CategoryID)]
    case createCategoryGroup => [PLANS, PLAN_ID, Lit(CategoryGroups)]
    case updateCategoryGroup => [PLANS, PLAN_ID, Lit(CategoryGroups), Param(CategoryGroupID)]
    case getPayees | createPayee => [PLANS, PLAN_ID, Lit(Payees)]
    case getPayeeById | updatePayee => [PLANS, PLAN_ID, Lit(Payees), Param(PayeeID)]
    case getPayeeLocations => [PLANS, PLAN_ID, Lit(PayeeLocations)]
    case getPayeeLocationById => [PLANS, PLAN_ID, Lit(PayeeLocations), Param(PayeeLocationID)]
    case getPayeeLocationsByPayee => [PLANS, PLAN_ID, Lit(Payees), Param(PayeeID), Lit(PayeeLocations)]
    case getMoneyMovements => [PLANS, PLAN_ID, Lit(MoneyMovements)]
    case getMoneyMovementsByMonth => [PLANS, PLAN_ID, Lit(Months), Param(Month), Lit(MoneyMovements)]
    case getMoneyMovementGroups => [PLANS, PLAN_ID, Lit(MoneyMovementGroups)]
    case getMoneyMovementGroupsByMonth => [PLANS, PLAN_ID, Lit(Months), Param(Month), Lit(MoneyMovementGroups)]
    case getTransactions | createTransaction | updateTransactions => [PLANS, PLAN_ID, Lit(Transactions)]
    case importTransactions => [PLANS, PLAN_ID, Lit(Transactions), Lit(Import)]
    case getTransactionById | updateTransaction | deleteTransaction =>
      [PLANS, PLAN_ID, Lit(Transactions), Param(TransactionID)]
    case getTransactionsByAccount => [PLANS, PLAN_ID, Lit(Accounts), Param(AccountID), Lit(Transactions)]
    case getTransactionsByCategory => [PLANS, PLAN_ID, Lit(Categories), Param(CategoryID), Lit(Transactions)]
    case getTransactionsByPayee => [PLANS, PLAN_ID, Lit(Payees), Param(PayeeID), Lit(Transactions)]
    case getTransactionsByMonth => [PLANS, PLAN_ID, Lit(Months), Param(Month), Lit(Transactions)]
    case getScheduledTransactions | createScheduledTransaction => [PLANS, PLAN_ID, Lit(ScheduledTransactions)]
    case getScheduledTransactionById | updateScheduledTransaction | deleteScheduledTransaction =>
      [PLANS, PLAN_ID, Lit(ScheduledTransactions), Param(ScheduledTransactionID)]
  }

  // ----- template text and the pattern made from it

  function SegmentText(s: Segment): Text {
    match s
    case Lit(w) => Spelling(w)
    case Param(name) => ParamText(name)
  }

  function SegmentTexts(segs: seq<Segment>): (r: seq<Text>)
    ensures |r| == |segs| && forall i | 0 <= i < |r| :: r[i] == SegmentText(segs[i])
  {
    seq(|segs|, i requires 0 <= i < |segs| => SegmentText(segs[i]))
  }

  /** The template as the table spells it. */
  function TemplateText(op: Operation): Text { "/" + Join(SegmentTexts(Template(op))) }

  /** One piece of the pattern between slashes: a quoted literal or [^/]+. */
  datatype Piece = Quoted(text: Text) | Wild

  function PieceOf(seg: Text): Piece {
    if seg != "" && seg[0] == '{' && seg[|seg| - 1] == '}' then Wild else Quoted(seg)
  }

  /** Only a segment in braces, both of them, is a parameter. */
  lemma PieceExamples()
    ensures PieceOf("{plan_id}") == Wild && PieceOf("{}") == Wild
    ensures PieceOf("{plan_id") == Quoted("{plan_id") && PieceOf("plan_id}") == Quoted("plan_id}")
    ensures PieceOf("{") == Quoted("{") && PieceOf("") == Quoted("")
  {
  }

  /** PathRegexp: the template's segments are overwritten in place, each by its piece. */
  method PathRegexp(template: Text) returns (pieces: seq<Piece>)
    ensures |pieces| == |Split(template)|
    ensures forall i | 0 <= i < |pieces| :: pieces[i] == PieceOf(Split(template)[i])
  {
    var segments := Split(template);
    var out := new Piece[|segments|](i requires 0 <= i < |segments| => Quoted(segments[i]));
    for i := 0 to |segments|
      invariant forall j | 0 <= j < i :: out[j] == PieceOf(segments[j])
      invariant forall j | i <= j < |segments| :: out[j] == Quoted(segments[j])
    {
      var seg := out[i].text;
      if |seg| > 0 && seg[0] == '{' && seg[|seg| - 1] == '}' {
        out[i] := Wild;
      } else {
        out[i] := Quoted(seg);
      }
    }
    pieces := out[..];
  }

  predicate PieceMatches(p: Piece, part: Text) {
    match p
    case Quoted(text) => part == text
    case Wild => part != "" && SlashFree(part)
  }

  function PiecesOf(template: Text): (r: seq<Piece>)
    ensures |r| == |Split(template)| && forall i | 0 <= i < |r| :: r[i] == PieceOf(Split(template)[i])
  {
    seq(|Split(template)|, i requires 0 <= i < |Split(template)| => PieceOf(Split(template)[i]))
  }

  /** The language of the anchored pattern: some text for each piece, slashes between. */
  ghost predicate Matches(pieces: seq<Piece>, path: Text) {
    exists parts: seq<Text> ::
      && |parts| == |pieces| && path == Join(parts)
      && forall i | 0 <= i < |parts| :: PieceMatches(pieces[i], parts[i])
  }

  /** Matching a template's pattern is comparing path and template segment by segment. */
  lemma MatchesIff(template: Text, path: Text)
    ensures Matches(PiecesOf(template), path) <==>
            && |Split(path)| == |Split(template)|
            && forall i | 0 <= i < |Split(path)| :: PieceMatches(PieceOf(Split(template)[i]), Split(path)[i])
  {
    var pieces := PiecesOf(template);
    SplitSlashFree(template);
    if Matches(pieces, path) {
      var parts: seq<Text> :| && |parts| == |pieces| && path == Join(parts)
                   && forall i | 0 <= i < |parts| :: PieceMatches(pieces[i], parts[i]);
      forall i | 0 <= i < |parts| ensures SlashFree(parts[i]) {
        assert PieceMatches(pieces[i], parts[i]);
        assert Split(template)[i] in Split(template);
      }
      SplitJoin(parts);
      assert forall i | 0 <= i < |parts| :: PieceMatches(PieceOf(Split(template)[i]), parts[i]);
    }
    if |Split(path)| == |Split(template)|
       && forall i | 0 <= i < |Split(path)| :: PieceMatches(PieceOf(Split(template)[i]), Split(path)[i]) {
      JoinSplit(path);
      assert forall i | 0 <= i < |pieces| :: PieceMatches(pieces[i], Split(path)[i]);
    }
  }

  // ----- an operation's own requests match its own row

  /** Letters, digits and underscores only: nothing to escape. */
  predicate Plain(s: Text) { forall i | 0 <= i < |s| :: Alphanumeric(s[i]) || s[i] == '_' }

  predicate IsShort(w: Word) {
    w.User? || w.Plans? || w.Settings? || w.Months? || w.Accounts? || w.Categories? || w.Payees? || w.Import?
  }

  lemma ShortPlain(w: Word)
    requires IsShort(w)
    ensures Spelling(w) != "" && Plain(Spelling(w))
  {
  }

  lemma LongPlain(w: Word)
    requires w.CategoryGroups? || w.PayeeLocations? || w.Transactions?
    ensures Spelling(w) != "" && Plain(Spelling(w))
  {
  }

  lemma MoneyPlain(w: Word)
    requires w.MoneyMovements? || w.MoneyMovementGroups?
    ensures Spelling(w) != "" && Plain(Spelling(w))
  {
  }

  lemma ScheduledPlain()
    ensures Spelling(ScheduledTransactions) != "" && Plain(Spelling(ScheduledTransactions))
  {
  }

  lemma SpellingPlain(w: Word)
    ensures Spelling(w) != "" && Plain(Spelling(w))
  {
    match w
    case CategoryGroups | PayeeLocations | Transactions => LongPlain(w);
    case MoneyMovements | MoneyMovementGroups => MoneyPlain(w);
    case ScheduledTransactions => ScheduledPlain();
    case _ => ShortPlain(w);
  }

  lemma {:induction false} EscapePlain(s: Text)
    requires Plain(s)
    ensures Escape(s) == s
  {
    if s != "" {
      EscapePlain(s[1..]);
      assert s == [s[0]] + s[1..];
    }
  }

  lemma EscapePlainSegment(s: Text)
    requires s != "" && Plain(s)
    ensures EscapeSegment(s) == s && SlashFree(s) && PieceOf(s) == Quoted(s)
  {
    EscapePlain(s);
    assert s[0] != '.' && s[0] != '{';
  }

  lemma EscapeWord(w: Word)
    ensures EscapeSegment(Spelling(w)) == Spelling(w)
    ensures SlashFree(Spelling(w)) && PieceOf(Spelling(w)) == Quoted(Spelling(w))
  {
    SpellingPlain(w);
    EscapePlainSegment(Spelling(w));
  }

  /** The segments a request uses: the template with an id in place of each parameter. */
  function Filled(segs: seq<Segment>, ids: seq<Text>): (r: seq<Text>)
    requires |ids| == |segs|
    ensures |r| == |segs| && forall i | 0 <= i < |r| :: r[i] == if segs[i].Lit? then Spelling(segs[i].word) else ids[i]
  {
    seq(|segs|, i requires 0 <= i < |segs| => if segs[i].Lit? then Spelling(segs[i].word) else ids[i])
  }

  /** The path part of the request URL. */
  function RequestPath(op: Operation, ids: seq<Text>): Text
    requires |ids| == |Template(op)|
  {
    "/" + PathOf(Filled(Template(op), ids))
  }

  lemma TemplateNonEmpty(op: Operation)
    ensures |Template(op)| > 0
  {
  }

  lemma NameSlashFree(n: Name)
    ensures SlashFree(ParamText(n))
  {
  }

  lemma SegmentSlashFree(seg: Segment)
    ensures SlashFree(SegmentText(seg))
  {
    match seg
    case Lit(w) => EscapeWord(w);
    case Param(n) => NameSlashFree(n);
  }

  lemma SplitTemplate(op: Operation)
    ensures Split(TemplateText(op)) == [""] + SegmentTexts(Template(op))
  {
    TemplateNonEmpty(op);
    SplitSegments(Template(op));
  }

  lemma SplitSegments(segs: seq<Segment>)
    requires |segs| > 0
    ensures Split("/" + Join(SegmentTexts(segs))) == [""] + SegmentTexts(segs)
  {
    var texts := SegmentTexts(segs);
    forall i | 0 <= i < |texts| ensures SlashFree(texts[i]) { SegmentSlashFree(segs[i]); }
    SplitJoin(texts);
    var t: Text := "/" + Join(texts);
    assert t[1..] == Join(texts);
  }

  lemma SplitRequest(op: Operation, ids: seq<Text>)
    requires |ids| == |Template(op)|
    ensures Split(RequestPath(op, ids)) == [""] + EscapedAll(Filled(Template(op), ids))
  {
    TemplateNonEmpty(op);
    RouteRoundTrip(Filled(Template(op), ids));
    assert RequestPath(op, ids)[1..] == PathOf(Filled(Template(op), ids));
  }

  predicate NoEmptyId(segs: seq<Segment>, ids: seq<Text>)
    requires |ids| == |segs|
  {
    forall i | 0 <= i < |ids| :: segs[i].Param? ==> ids[i] != ""
  }

  /** A filled template matches its own row if and only if no id is empty. */
  lemma OwnRowMatchesIff(op: Operation, ids: seq<Text>)
    requires |ids| == |Template(op)|
    ensures Matches(PiecesOf(TemplateText(op)), RequestPath(op, ids)) <==>
            NoEmptyId(Template(op), ids)
  {
    MatchesIff(TemplateText(op), RequestPath(op, ids));
    SplitTemplate(op);
    SplitRequest(op, ids);
    OwnSegments(Template(op), ids);
  }

  lemma OwnSegments(segs: seq<Segment>, ids: seq<Text>)
    requires |ids| == |segs|
    ensures var own, got := [""] + SegmentTexts(segs), [""] + EscapedAll(Filled(segs, ids));
            (forall k | 0 <= k < |got| :: PieceMatches(PieceOf(own[k]), got[k])) <==>
            NoEmptyId(segs, ids)
  {
    forall i | 0 <= i < |ids|
      ensures PieceMatches(PieceOf(SegmentTexts(segs)[i]), EscapedAll(Filled(segs, ids))[i]) <==>
              (segs[i].Param? ==> ids[i] != "")
    {
      OwnSegment(segs[i], ids[i]);
    }
    LeadingEmpty(SegmentTexts(segs), EscapedAll(Filled(segs, ids)));
  }

  /** The empty piece before the leading slash always matches. */
  lemma LeadingEmpty(own: seq<Text>, got: seq<Text>)
    requires |own| == |got|
    ensures (forall k | 0 <= k < |[""] + got| :: PieceMatches(PieceOf(([""] + own)[k]), ([""] + got)[k])) <==>
            (forall i | 0 <= i < |got| :: PieceMatches(PieceOf(own[i]), got[i]))
  {
    var own', got' := [""] + own, [""] + got;
    if forall k | 0 <= k < |got'| :: PieceMatches(PieceOf(own'[k]), got'[k]) {
      forall i | 0 <= i < |got| ensures PieceMatches(PieceOf(own[i]), got[i]) {
        assert PieceMatches(PieceOf(own'[i + 1]), got'[i + 1]);
      }
    }
  }

  lemma OwnSegment(seg: Segment, id: Text)
    ensures PieceMatches(PieceOf(SegmentText(seg)), EscapeSegment(if seg.Lit? then Spelling(seg.word) else id))
            <==> (seg.Param? ==> id != "")
  {
    if seg.Lit? {
      EscapeWord(seg.word);
    } else {
      ParamIsWild(seg.name);
      SegmentFaithful(id);
    }
  }

  lemma ParamIsWild(n: Name)
    ensures PieceOf(ParamText(n)) == Wild
  {
  }

  // ----- and no other row of the same verb

  /** Path pieces (without the leading empty one) fit a template. */
  predicate Fits(segs: seq<Segment>, parts: seq<Text>) {
    && |parts| == |segs|
    && forall i | 0 <= i < |segs| :: segs[i].Lit? ==> parts[i] == Spelling(segs[i].word)
  }

  lemma MatchFits(op: Operation, path: Text)
    requires Matches(PiecesOf(TemplateText(op)), path)
    ensures Split(path)[0] == "" && Fits(Template(op), Split(path)[1..])
  {
    MatchesIff(TemplateText(op), path);
    SplitTemplate(op);
    var segs, own, parts := Template(op), Split(TemplateText(op)), Split(path);
    assert PieceMatches(PieceOf(own[0]), parts[0]);
    forall i | 0 <= i < |segs| && segs[i].Lit? ensures parts[1..][i] == Spelling(segs[i].word) {
      EscapeWord(segs[i].word);
      assert PieceMatches(PieceOf(own[i + 1]), parts[i + 1]);
    }
  }

  /** Spelling read backwards. */
  function WordOf(t: Text): Option<Word> {
    if t == "user" then Some(User)
    else if t == "plans" then Some(Plans)
    else if t == "settings" then Some(Settings)
    else if t == "months" then Some(Months)
    else if t == "accounts" then Some(Accounts)
    else if t == "categories" then Some(Categories)
    else if t == "category_groups" then Some(CategoryGroups)
    else if t == "payees" then Some(Payees)
    else if t == "payee_locations" then Some(PayeeLocations)
    else if t == "money_movements" then Some(MoneyMovements)
    else if t == "money_movement_groups" then Some(MoneyMovementGroups)
    else if t == "transactions" then Some(Transactions)
    else if t == "import" then Some(Import)
    else if t == "scheduled_transactions" then Some(ScheduledTransactions)
    else None
  }

  lemma WordOfSpelling(w: Word)
    ensures WordOf(Spelling(w)) == Some(w)
  {
  }

  function Words(parts: seq<Text>): (r: seq<Option<Word>>)
    ensures |r| == |parts| && forall i | 0 <= i < |r| :: r[i] == WordOf(parts[i])
  {
    seq(|parts|, i requires 0 <= i < |parts| => WordOf(parts[i]))
  }

  /** A router that looks at the verb, the number of segments and the literal words only. */
  function Router(v: Verb, w: seq<Option<Word>>): Option<Operation> {
    match v
    case GET => RouteGet(w)
    case POST =>
      if |w| == 4 then Some(importTransactions)
      else if |w| == 3 then
        match w[2]
        case Some(Accounts) => Some(createAccount)
        case Some(Categories) => Some(createCategory)
        case Some(CategoryGroups) => Some(createCategoryGroup)
        case Some(Payees) => Some(createPayee)
        case Some(Transactions) => Some(createTransaction)
        case Some(ScheduledTransactions) => Some(createScheduledTransaction)
        case _ => None
      else None
    case PATCH =>
      if |w| == 3 then Some(updateTransactions)
      else if |w| == 6 then Some(updateMonthCategory)
      else if |w| == 4 then
        match w[2]
        case Some(Categories) => Some(updateCategory)
        case Some(CategoryGroups) => Some(updateCategoryGroup)
        case Some(Payees) => Some(updatePayee)
        case _ => None
      else None
    case PUT =>
      if |w| != 4 then None
      else if w[2] == Some(Transactions) then Some(updateTransaction) else Some(updateScheduledTransaction)
    case DELETE =>
      if |w| != 4 then None
      else if w[2] == Some(Transactions) then Some(deleteTransaction) else Some(deleteScheduledTransaction)
  }

  function RouteGet(w: seq<Option<Word>>): Option<Operation> {
    if |w| == 1 then if w[0] == Some(User) then Some(getUser) else Some(getPlans)
    else if |w| == 2 then Some(getPlanById)
    else if |w| == 3 then
      match w[2]
      case Some(Settings) => Some(getPlanSettingsById)
      case Some(Months) => Some(getPlanMonths)
      case Some(Accounts) => Some(getAccounts)
      case Some(Categories) => Some(getCategories)
      case Some(Payees) => Some(getPayees)
      case Some(PayeeLocations) => Some(getPayeeLocations)
      case Some(MoneyMovements) => Some(getMoneyMovements)
      case Some(MoneyMovementGroups) => Some(getMoneyMovementGroups)
      case Some(Transactions) => Some(getTransactions)
      case Some(ScheduledTransactions) => Some(getScheduledTransactions)
      case _ => None
    else if |w| == 4 then
      match w[2]
      case Some(Months) => Some(getPlanMonth)
      case Some(Accounts) => Some(getAccountById)
      case Some(Categories) => Some(getCategoryById)
      case Some(Payees) => Some(getPayeeById)
      case Some(PayeeLocations) => Some(getPayeeLocationById)
      case Some(Transactions) => Some(getTransactionById)
      case Some(ScheduledTransactions) => Some(getScheduledTransactionById)
      case _ => None
    else if |w| == 5 then
      match (w[2], w[4])
      case (Some(Payees), Some(PayeeLocations)) => Some(getPayeeLocationsByPayee)
      case (Some(Months), Some(MoneyMovements)) => Some(getMoneyMovementsByMonth)
      case (Some(Months), Some(MoneyMovementGroups)) => Some(getMoneyMovementGroupsByMonth)
      case (Some(Accounts), _) => Some(getTransactionsByAccount)
      case (Some(Categories), _) => Some(getTransactionsByCategory)
      case (Some(Payees), _) => Some(getTransactionsByPayee)
      case (Some(Months), _) => Some(getTransactionsByMonth)
      case _ => None
    else if |w| == 6 then Some(getMonthCategoryById)
    else None
  }

  /** Words in the literal positions of a template. */
  predicate FitsWords(segs: seq<Segment>, w: seq<Option<Word>>) {
    && |w| == |segs|
    && forall i | 0 <= i < |segs| :: segs[i].Lit? ==> w[i] == Some(segs[i].word)
  }

  lemma FitsToWords(segs: seq<Segment>, parts: seq<Text>)
    requires Fits(segs, parts)
    ensures FitsWords(segs, Words(parts))
  {
    forall i | 0 <= i < |segs| && segs[i].Lit? ensures Words(parts)[i] == Some(segs[i].word) {
      WordOfSpelling(segs[i].word);
    }
  }

  lemma RouterFindsRow(op: Operation, w: seq<Option<Word>>)
    requires FitsWords(Template(op), w)
    ensures Router(VerbOf(op), w) == Some(op)
  {
    if VerbOf(op) == GET { RouterFindsGet(op, w); } else { RouterFindsWrite(op, w); }
  }

  lemma RouterFindsGet(op: Operation, w: seq<Option<Word>>)
    requires VerbOf(op) == GET && FitsWords(Template(op), w)
    ensures Router(GET, w) == Some(op)
  {
    if |w| <= 2 {
      RouterFindsShort(op, w);
    } else if |w| == 3 {
      RouterFindsCollection(op, w);
    } else {
      RouterFindsLong(op, w);
    }
  }

  lemma RouterFindsShort(op: Operation, w: seq<Option<Word>>)
    requires VerbOf(op) == GET && FitsWords(Template(op), w) && |w| <= 2
    ensures RouteGet(w) == Some(op)
  {
    var segs := Template(op);
    assert segs[0].Lit? && w[0] == Some(segs[0].word);
  }

  lemma RouterFindsCollection(op: Operation, w: seq<Option<Word>>)
    requires VerbOf(op) == GET && FitsWords(Template(op), w) && |w| == 3
    ensures RouteGet(w) == Some(op)
  {
    var segs := Template(op);
    assert segs[2].Lit? && w[2] == Some(segs[2].word);
  }

  lemma RouterFindsLong(op: Operation, w: seq<Option<Word>>)
    requires VerbOf(op) == GET && FitsWords(Template(op), w) && |w| > 3
    ensures RouteGet(w) == Some(op)
  {
    var segs := Template(op);
    assert forall i | 0 <= i < |segs| :: segs[i].Lit? ==> w[i] == Some(segs[i].word);
  }

  lemma RouterFindsWrite(op: Operation, w: seq<Option<Word>>)
    requires VerbOf(op) != GET && FitsWords(Template(op), w)
    ensures Router(VerbOf(op), w) == Some(op)
  {
    var segs := Template(op);
    assert forall i | 0 <= i < |segs| :: segs[i].Lit? ==> w[i] == Some(segs[i].word);
  }

  /** No path matches two rows of the same verb. */
  lemma RowsDisjoint(op1: Operation, op2: Operation, path: Text)
    requires VerbOf(op1) == VerbOf(op2)
    requires Matches(PiecesOf(TemplateText(op1)), path) && Matches(PiecesOf(TemplateText(op2)), path)
    ensures op1 == op2
  {
    MatchFits(op1, path);
    MatchFits(op2, path);
    var parts := Split(path)[1..];
    FitsToWords(Template(op1), parts);
    FitsToWords(Template(op2), parts);
    RouterFindsRow(op1, Words(parts));
    RouterFindsRow(op2, Words(parts));
  }

  /** A request with non-empty ids is matched by its own row and by no other row of its verb. */
  lemma RequestRoutes(op: Operation, ids: seq<Text>, other: Operation)
    requires |ids| == |Template(op)| && NoEmptyId(Template(op), ids)
    requires VerbOf(other) == VerbOf(op)
    ensures Matches(PiecesOf(TemplateText(other)), RequestPath(op, ids)) <==> other == op
  {
    OwnRowMatchesIff(op, ids);
    OnlyRow(op, other, RequestPath(op, ids));
  }

  lemma OnlyRow(op: Operation, other: Operation, path: Text)
    requires VerbOf(other) == VerbOf(op) && Matches(PiecesOf(TemplateText(op)), path)
    ensures Matches(PiecesOf(TemplateText(other)), path) <==> other == op
  {
    if other != op {
      if Matches(PiecesOf(TemplateText(other)), path) { RowsDisjoint(op, other, path); }
    }
  }
}
