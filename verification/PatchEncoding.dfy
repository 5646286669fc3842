// transactions.go's patches and optional.go's tri-state on the wire: what the emitted JSON object
// means to a server that keeps absent keys, clears null ones and sets the rest.
module PatchEncoding {
  import opened Basics
  import opened GoInt
  import opened Optional
  import opened Calendar
  import D = Dates

  /** A JSON value, as far as patches use it. */
  datatype Json = JNull | JText(text: string) | JNumber(number: int) | JBool(flag: bool)

  type Object = map<string, Json>

  /** TransactionUpdate; cleared is a plain string that the empty value leaves out. */
  datatype Update = Update(
    accountID: Optional<string>,
    date: Optional<Date>,
    amount: Optional<int64>,
    payeeID: Optional<string>,
    payeeName: Optional<string>,
    categoryID: Optional<string>,
    memo: Optional<string>,
    cleared: string,
    approved: Optional<bool>,
    flagColor: Optional<string>)

  ghost predicate ProperUpdate(u: Update) { u.date.Value? ==> D.Proper(u.date.value) }

  /** TransactionPatch: an update and its identity. */
  datatype Patch = Patch(id: string, importID: string, update: Update)

  function PatchByID(id: string, u: Update): Patch { Patch(id, "", u) }

  function PatchByImportID(importID: string, u: Update): Patch { Patch("", importID, u) }

  /** The fields are unexported, so a patch comes from one of the two constructors (or is the zero value). */
  ghost predicate Built(p: Patch) {
    || (exists id, u :: p == PatchByID(id, u))
    || (exists importID, u :: p == PatchByImportID(importID, u))
  }

  /**
   * What the constructors guarantee: never two identities. That there is one is not theirs to
   * guarantee; it takes a key that is not empty.
   */
  lemma OneIdentityByConstruction(p: Patch)
    ensures Built(p) <==> p.id == "" || p.importID == ""
    ensures forall key, u :: (PatchByID(key, u).id != "" <==> key != "") && PatchByID(key, u).importID == ""
    ensures forall key, u :: (PatchByImportID(key, u).importID != "" <==> key != "") && PatchByImportID(key, u).id == ""
  {
    if p.importID == "" { assert p == PatchByID(p.id, p.update); }
    if p.id == "" { assert p == PatchByImportID(p.importID, p.update); }
  }

  // ----- keys

  datatype Field = AccountID | Day | Amount | PayeeID | PayeeName | CategoryID | Memo | Cleared | Approved | FlagColor

  const FIELDS := [AccountID, Day, Amount, PayeeID, PayeeName, CategoryID, Memo, Cleared, Approved, FlagColor]

  function Key(f: Field): string {
    match f
    case AccountID => "account_id"
    case Day => "date"
    case Amount => "amount"
    case PayeeID => "payee_id"
    case PayeeName => "payee_name"
    case CategoryID => "category_id"
    case Memo => "memo"
    case Cleared => "cleared"
    case Approved => "approved"
    case FlagColor => "flag_color"
  }

  function FieldOf(key: string): Option<Field> {
    if key == "account_id" then Some(AccountID)
    else if key == "date" then Some(Day)
    else if key == "amount" then Some(Amount)
    else if key == "payee_id" then Some(PayeeID)
    else if key == "payee_name" then Some(PayeeName)
    else if key == "category_id" then Some(CategoryID)
    else if key == "memo" then Some(Memo)
    else if key == "cleared" then Some(Cleared)
    else if key == "approved" then Some(Approved)
    else if key == "flag_color" then Some(FlagColor)
    else None
  }

  /** No two fields share a key, and none uses an identity key. */
  lemma KeysDistinct(f: Field)
    ensures FieldOf(Key(f)) == Some(f)
    ensures Key(f) != "id" && Key(f) != "import_id"
  {
    assert FieldOf("id") == None && FieldOf("import_id") == None;
  }

  // ----- encoding

  function DateJson(d: Date): Json
    requires D.Proper(d)
  {
    if d == D.NO_DATE then JNull else JText(D.Text(d))
  }

  /** What Optional.MarshalJSON emits for a field that is not unset. */
  function TextJson(o: Optional<string>): Optional<Json> {
    match o
    case Unset => Unset
    case Null => Value(JNull)
    case Value(v) => Value(JText(v))
  }

  /** The JSON value emitted under a field's key; Unset when omitzero leaves the key out. */
  function Emitted(u: Update, f: Field): Optional<Json>
    requires ProperUpdate(u)
  {
    match f
    case AccountID => TextJson(u.accountID)
    case Day =>
      (match u.date
       case Unset => Unset
       case Null => Value(JNull)
       case Value(d) => Value(DateJson(d)))
    case Amount =>
      (match u.amount
       case Unset => Unset
       case Null => Value(JNull)
       case Value(m) => Value(JNumber(m)))
    case PayeeID => TextJson(u.payeeID)
    case PayeeName => TextJson(u.payeeName)
    case CategoryID => TextJson(u.categoryID)
    case Memo => TextJson(u.memo)
    case Cleared => if u.cleared == "" then Unset else Value(JText(u.cleared))
    case Approved =>
      (match u.approved
       case Unset => Unset
       case Null => Value(JNull)
       case Value(b) => Value(JBool(b)))
    case FlagColor => TextJson(u.flagColor)
  }

  /** obj carries exactly the emitted fields of u, apart from keys that are no field's. */
  ghost predicate Carries(obj: Object, u: Update)
    requires ProperUpdate(u)
  {
    forall f :: match Emitted(u, f)
                case Value(j) => Key(f) in obj && obj[Key(f)] == j
                case _ => Key(f) !in obj
  }

  /** A field on the wire: absent when unset, null when cleared, the value when set. */
  ghost predicate HoldsText(obj: Object, key: string, o: Optional<string>) {
    match o
    case Unset => key !in obj
    case Null => key in obj && obj[key] == JNull
    case Value(v) => key in obj && obj[key] == JText(v)
  }

  ghost predicate HoldsNumber(obj: Object, key: string, o: Optional<int64>) {
    match o
    case Unset => key !in obj
    case Null => key in obj && obj[key] == JNull
    case Value(v) => key in obj && obj[key] == JNumber(v)
  }

  ghost predicate HoldsBool(obj: Object, key: string, o: Optional<bool>) {
    match o
    case Unset => key !in obj
    case Null => key in obj && obj[key] == JNull
    case Value(v) => key in obj && obj[key] == JBool(v)
  }

  /** "No date" is null as well. */
  ghost predicate HoldsDate(obj: Object, key: string, o: Optional<Date>)
    requires o.Value? ==> D.Proper(o.value)
  {
    match o
    case Unset => key !in obj
    case Null => key in obj && obj[key] == JNull
    case Value(d) => key in obj && obj[key] == if d == D.NO_DATE then JNull else JText(D.Text(d))
  }

  ghost predicate Slot(obj: Object, u: Update, f: Field)
    requires ProperUpdate(u)
  {
    match Emitted(u, f)
    case Value(j) => Key(f) in obj && obj[Key(f)] == j
    case _ => Key(f) !in obj
  }

  /** Each field under the name the API gives it. */
  lemma CarriesIff(obj: Object, u: Update)
    requires ProperUpdate(u)
    ensures Carries(obj, u) <==>
            && HoldsText(obj, "account_id", u.accountID)
            && HoldsDate(obj, "date", u.date)
            && HoldsNumber(obj, "amount", u.amount)
            && HoldsText(obj, "payee_id", u.payeeID)
            && HoldsText(obj, "payee_name", u.payeeName)
            && HoldsText(obj, "category_id", u.categoryID)
            && HoldsText(obj, "memo", u.memo)
            && (if u.cleared == "" then "cleared" !in obj else "cleared" in obj && obj["cleared"] == JText(u.cleared))
            && HoldsBool(obj, "approved", u.approved)
            && HoldsText(obj, "flag_color", u.flagColor)
  {
    TextSlots(obj, u);
    MoreTextSlots(obj, u);
    OtherSlots(obj, u);
    AllSlots(obj, u);
  }

  lemma AllSlots(obj: Object, u: Update)
    requires ProperUpdate(u)
    ensures Carries(obj, u) <==>
            && Slot(obj, u, AccountID) && Slot(obj, u, Day) && Slot(obj, u, Amount) && Slot(obj, u, PayeeID)
            && Slot(obj, u, PayeeName) && Slot(obj, u, CategoryID) && Slot(obj, u, Memo) && Slot(obj, u, Cleared)
            && Slot(obj, u, Approved) && Slot(obj, u, FlagColor)
  {
    SlotBySlot(obj, u);
    if && Slot(obj, u, AccountID) && Slot(obj, u, Day) && Slot(obj, u, Amount) && Slot(obj, u, PayeeID)
       && Slot(obj, u, PayeeName) && Slot(obj, u, CategoryID) && Slot(obj, u, Memo) && Slot(obj, u, Cleared)
       && Slot(obj, u, Approved) && Slot(obj, u, FlagColor) {
      forall f ensures Slot(obj, u, f) {
        match f {
          case AccountID | Day | Amount | PayeeID | PayeeName =>
          case CategoryID | Memo | Cleared | Approved | FlagColor =>
        }
      }
    }
  }

  lemma SlotBySlot(obj: Object, u: Update)
    requires ProperUpdate(u)
    ensures Carries(obj, u) <==> forall f :: Slot(obj, u, f)
  {
    if Carries(obj, u) {
      forall f ensures Slot(obj, u, f) { var e := Emitted(u, f); }
    }
    if forall f :: Slot(obj, u, f) {
      forall f
        ensures match Emitted(u, f)
                case Value(j) => Key(f) in obj && obj[Key(f)] == j
                case _ => Key(f) !in obj
      {
        assert Slot(obj, u, f);
      }
    }
  }

  lemma TextSlots(obj: Object, u: Update)
    requires ProperUpdate(u)
    ensures Slot(obj, u, AccountID) <==> HoldsText(obj, "account_id", u.accountID)
    ensures Slot(obj, u, PayeeID) <==> HoldsText(obj, "payee_id", u.payeeID)
    ensures Slot(obj, u, PayeeName) <==> HoldsText(obj, "payee_name", u.payeeName)
  {
  }

  lemma MoreTextSlots(obj: Object, u: Update)
    requires ProperUpdate(u)
    ensures Slot(obj, u, CategoryID) <==> HoldsText(obj, "category_id", u.categoryID)
    ensures Slot(obj, u, Memo) <==> HoldsText(obj, "memo", u.memo)
    ensures Slot(obj, u, FlagColor) <==> HoldsText(obj, "flag_color", u.flagColor)
  {
  }

  lemma OtherSlots(obj: Object, u: Update)
    requires ProperUpdate(u)
    ensures Slot(obj, u, Day) <==> HoldsDate(obj, "date", u.date)
    ensures Slot(obj, u, Amount) <==> HoldsNumber(obj, "amount", u.amount)
    ensures Slot(obj, u, Approved) <==> HoldsBool(obj, "approved", u.approved)
    ensures Slot(obj, u, Cleared) <==>
            if u.cleared == "" then "cleared" !in obj else "cleared" in obj && obj["cleared"] == JText(u.cleared)
  {
  }

  /** The keys of obj that are no field's. */
  ghost predicate OnlyIdentity(obj: Object, key: string, value: string) {
    forall k | k in obj && FieldOf(k).None? :: k == key && obj[k] == JText(value)
  }

  /** json.Marshal of the update, read back as a map. */
  method MarshalUpdate(u: Update) returns (fields: Object)
    requires ProperUpdate(u)
    ensures Carries(fields, u) && forall k | k in fields :: FieldOf(k).Some?
  {
    fields := map[];
    for i := 0 to |FIELDS|
      invariant forall k | k in fields :: FieldOf(k).Some?
      invariant forall f | f !in FIELDS[..i] :: Key(f) !in fields
      invariant forall f | f in FIELDS[..i] ::
                  match Emitted(u, f)
                  case Value(j) => Key(f) in fields && fields[Key(f)] == j
                  case _ => Key(f) !in fields
    {
      var f := FIELDS[i];
      assert FIELDS[..i + 1] == FIELDS[..i] + [f];
      forall g ensures FieldOf(Key(g)) == Some(g) { KeysDistinct(g); }
      FieldsDistinct(i);
      if Emitted(u, f).Value? {
        fields := fields[Key(f) := Emitted(u, f).value];
      }
    }
    assert FIELDS[..|FIELDS|] == FIELDS;
    forall f ensures f in FIELDS { FieldsComplete(f); }
  }

  lemma FieldsComplete(f: Field)
    ensures f in FIELDS
  {
    var i := match f
      case AccountID => 0
      case Day => 1
      case Amount => 2
      case PayeeID => 3
      case PayeeName => 4
      case CategoryID => 5
      case Memo => 6
      case Cleared => 7
      case Approved => 8
      case FlagColor => 9;
    assert FIELDS[i] == f;
  }

  lemma FieldsDistinct(i: nat)
    requires i < |FIELDS|
    ensures FIELDS[i] !in FIELDS[..i]
  {
  }

  /** The object carries the patch's update and exactly its identity. */
  ghost predicate Encodes(obj: Object, p: Patch)
    requires ProperUpdate(p.update)
  {
    && Carries(obj, p.update)
    && if p.id != "" then "id" in obj && "import_id" !in obj && OnlyIdentity(obj, "id", p.id)
       else "import_id" in obj && "id" !in obj && OnlyIdentity(obj, "import_id", p.importID)
  }

  /** TransactionPatch.MarshalJSON; None stands for its "needs an identity" error. */
  method MarshalPatch(p: Patch) returns (r: Option<Object>)
    requires ProperUpdate(p.update)
    ensures r.None? <==> p.id == "" && p.importID == ""
    ensures r.Some? ==> Encodes(r.value, p)
    ensures r.Some? && p.id != "" ==> "id" in r.value && r.value["id"] == JText(p.id) && "import_id" !in r.value
    ensures r.Some? && p.id == "" ==>
              "import_id" in r.value && r.value["import_id"] == JText(p.importID) && "id" !in r.value
  {
    var fields := MarshalUpdate(p.update);
    assert FieldOf("id") == None && FieldOf("import_id") == None;
    forall f ensures Key(f) != "id" && Key(f) != "import_id" { KeysDistinct(f); }
    if p.id != "" {
      fields := fields["id" := JText(p.id)];
    } else if p.importID != "" {
      fields := fields["import_id" := JText(p.importID)];
    } else {
      return None;
    }
    return Some(fields);
  }

  // ----- meaning

  /** The server's record; None is a cleared field. */
  datatype Record = Record(
    accountID: Option<string>,
    date: Option<Date>,
    amount: Option<int64>,
    payeeID: Option<string>,
    payeeName: Option<string>,
    categoryID: Option<string>,
    memo: Option<string>,
    cleared: Option<string>,
    approved: Option<bool>,
    flagColor: Option<string>)

  /** Unset keeps, null clears, a value sets. */
  function Taken<T>(o: Optional<T>, current: Option<T>): (r: Option<T>)
    ensures o == Unset ==> r == current
    ensures o == Null ==> r == None
    ensures o.Value? ==> r == Some(o.value)
  {
    match o
    case Unset => current
    case Null => None
    case Value(v) => Some(v)
  }

  /** Setting "no date" means clearing. */
  function DateTaken(o: Optional<Date>, current: Option<Date>): Option<Date> {
    if o == Value(D.NO_DATE) then None else Taken(o, current)
  }

  /** The update applied directly. */
  function Applied(u: Update, r: Record): Record {
    Record(
      Taken(u.accountID, r.accountID),
      DateTaken(u.date, r.date),
      Taken(u.amount, r.amount),
      Taken(u.payeeID, r.payeeID),
      Taken(u.payeeName, r.payeeName),
      Taken(u.categoryID, r.categoryID),
      Taken(u.memo, r.memo),
      if u.cleared == "" then r.cleared else Some(u.cleared),
      Taken(u.approved, r.approved),
      Taken(u.flagColor, r.flagColor))
  }

  function DecodeText(j: Json): Option<string> { if j.JText? then Some(j.text) else None }

  function DecodeNumber(j: Json): Option<int64> { if j.JNumber? && Fits64(j.number) then Some(j.number) else None }

  function DecodeBool(j: Json): Option<bool> { if j.JBool? then Some(j.flag) else None }

  function DecodeDate(j: Json): Option<Date> { if j.JText? then D.ParseDate(j.text) else None }

  /** One key read from the object: absent keeps, null clears, a value must decode. */
  function Read<T>(obj: Object, f: Field, current: Option<T>, decode: Json -> Option<T>): (r: Option<Option<T>>)
    ensures Key(f) !in obj ==> r == Some(current)
    ensures Key(f) in obj && obj[Key(f)] == JNull ==> r == Some(None)
    ensures Key(f) in obj && obj[Key(f)] != JNull ==>
              r == match decode(obj[Key(f)]) case None => None case Some(v) => Some(Some(v))
  {
    if Key(f) !in obj then Some(current)
    else if obj[Key(f)] == JNull then Some(None)
    else
      match decode(obj[Key(f)])
      case None => None
      case Some(v) => Some(Some(v))
  }

  /** The server's reading of the object; None when some value has the wrong shape. */
  function Received(obj: Object, r: Record): Option<Record> {
    var accountID := Read(obj, AccountID, r.accountID, DecodeText);
    var date := Read(obj, Day, r.date, DecodeDate);
    var amount := Read(obj, Amount, r.amount, DecodeNumber);
    var payeeID := Read(obj, PayeeID, r.payeeID, DecodeText);
    var payeeName := Read(obj, PayeeName, r.payeeName, DecodeText);
    var categoryID := Read(obj, CategoryID, r.categoryID, DecodeText);
    var memo := Read(obj, Memo, r.memo, DecodeText);
    var cleared := Read(obj, Cleared, r.cleared, DecodeText);
    var approved := Read(obj, Approved, r.approved, DecodeBool);
    var flagColor := Read(obj, FlagColor, r.flagColor, DecodeText);
    if accountID.None? || date.None? || amount.None? || payeeID.None? || payeeName.None?
       || categoryID.None? || memo.None? || cleared.None? || approved.None? || flagColor.None? then None
    else
      Some(Record(accountID.value, date.value, amount.value, payeeID.value, payeeName.value,
                  categoryID.value, memo.value, cleared.value, approved.value, flagColor.value))
  }

  lemma TextRead(obj: Object, u: Update, f: Field, o: Optional<string>, current: Option<string>)
    requires ProperUpdate(u) && Carries(obj, u) && Emitted(u, f) == TextJson(o)
    ensures Read(obj, f, current, DecodeText) == Some(Taken(o, current))
  {
  }

  lemma DateRead(obj: Object, u: Update, current: Option<Date>)
    requires ProperUpdate(u) && Carries(obj, u)
    ensures Read(obj, Day, current, DecodeDate) == Some(DateTaken(u.date, current))
            <==> (u.date.Value? && u.date.value != D.NO_DATE ==> D.WireYear(u.date.value.year))
    ensures u.date.Value? && u.date.value != D.NO_DATE && !D.WireYear(u.date.value.year) ==>
              Read(obj, Day, current, DecodeDate) == None
  {
    match u.date
    case Value(d) =>
      if d != D.NO_DATE {
        D.DateRoundTripIff(d);
        assert Emitted(u, Day) == Value(JText(D.Text(d)));
        match D.ParseDate(D.Text(d))
        case None =>
        case Some(e) => D.ParseDateIff(D.Text(d), e); SameText(d, e);
      }
    case Unset => assert Emitted(u, Day) == Unset;
    case Null => assert Emitted(u, Day) == Value(JNull);
  }

  /** A date that renders like one the wire can carry is that date. */
  lemma SameText(d: Date, e: Date)
    requires Real(d) && Real(e) && D.WireYear(e.year) && D.Text(d) == D.Text(e)
    ensures d == e
  {
    D.TextInjective(d, e);
  }

  /**
   * Reading the emitted object gives the record the update describes, for every record, exactly when
   * the date it sets (if it sets one) has a year the wire form can carry; otherwise it is refused.
   */
  lemma MeaningPreservedIff(obj: Object, u: Update, r: Record)
    requires ProperUpdate(u) && Carries(obj, u)
    ensures Received(obj, r) == Some(Applied(u, r))
            <==> (u.date.Value? && u.date.value != D.NO_DATE ==> D.WireYear(u.date.value.year))
  {
    TextRead(obj, u, AccountID, u.accountID, r.accountID);
    DateRead(obj, u, r.date);
    TextRead(obj, u, PayeeID, u.payeeID, r.payeeID);
    TextRead(obj, u, PayeeName, u.payeeName, r.payeeName);
    TextRead(obj, u, CategoryID, u.categoryID, r.categoryID);
    TextRead(obj, u, Memo, u.memo, r.memo);
    TextRead(obj, u, FlagColor, u.flagColor, r.flagColor);
    ScalarReads(obj, u, r);
  }

  lemma ScalarReads(obj: Object, u: Update, r: Record)
    requires ProperUpdate(u) && Carries(obj, u)
    ensures Read(obj, Amount, r.amount, DecodeNumber) == Some(Taken(u.amount, r.amount))
    ensures Read(obj, Cleared, r.cleared, DecodeText) == Some(if u.cleared == "" then r.cleared else Some(u.cleared))
    ensures Read(obj, Approved, r.approved, DecodeBool) == Some(Taken(u.approved, r.approved))
  {
    var amount, cleared, approved := Emitted(u, Amount), Emitted(u, Cleared), Emitted(u, Approved);
  }

  /** Setting a date to "no date" and clearing it emit the same value. */
  lemma ZeroDateClears(u: Update)
    requires u.date == Value(D.NO_DATE)
    ensures Emitted(u, Day) == Emitted(u.(date := Null), Day) == Value(JNull)
  {
  }
}
