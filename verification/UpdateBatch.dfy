// transactions.go's UpdateBatch: the pre-flight over its patches, and the payload they become.
module UpdateBatch {
  import opened Basics
  import opened Decimal
  import opened Optional
  import opened PatchEncoding
  import opened Permutations
  import opened TransactionSpec

  function PatchError(p: Patch, op: string): Option<ArgumentError> {
    ErrFirst([CheckRuneMax(op, "import_id", p.importID, IMPORT_ID_MAX),
              CheckOptRuneMax(op, "payee_name", p.update.payeeName, PAYEE_NAME_MAX),
              CheckOptRuneMax(op, "memo", p.update.memo, MEMO_MAX)])
  }

  /** What the pre-flight holds against the patch at index i: no identity, or a text too long. */
  function PatchFault(p: Patch, i: nat): Option<ArgumentError> {
    if p.id == "" && p.importID == "" then
      Some(ArgumentError("Transactions.UpdateBatch", "id",
                         "patch " + Numeral(i) + " has an empty identity — use PatchByID or PatchByImportID"))
    else match PatchError(p, "Transactions.UpdateBatch")
      case Some(e) => Some(WithSuffix(e, "patch", i))
      case None => None
  }

  lemma PatchFaultIff(p: Patch, i: nat)
    ensures PatchFault(p, i).None? <==>
            && (p.id != "" || p.importID != "") && |p.importID| <= 36
            && WithinMax(p.update.payeeName, 200) && WithinMax(p.update.memo, 500)
  {
    var op := "Transactions.UpdateBatch";
    var errs := [CheckRuneMax(op, "import_id", p.importID, IMPORT_ID_MAX),
                 CheckOptRuneMax(op, "payee_name", p.update.payeeName, PAYEE_NAME_MAX),
                 CheckOptRuneMax(op, "memo", p.update.memo, MEMO_MAX)];
    ErrFirstNone(errs);
    assert errs[0].None? && errs[1].None? && errs[2].None? <==> forall i | 0 <= i < 3 :: errs[i].None?;
  }

  function TooLongAt(field: string, limit: string, i: nat): ArgumentError {
    ArgumentError("Transactions.UpdateBatch", field,
                  "must be at most " + limit + " characters" + (" (patch " + Numeral(i) + ")"))
  }

  /** What a patch's fault names: the missing identity first, then import id, payee name and memo. */
  lemma PatchFaultNames(p: Patch, i: nat)
    requires PatchFault(p, i).Some?
    ensures PatchFault(p, i).value ==
            if p.id == "" && p.importID == "" then
              ArgumentError("Transactions.UpdateBatch", "id",
                            "patch " + Numeral(i) + " has an empty identity — use PatchByID or PatchByImportID")
            else if |p.importID| > 36 then TooLongAt("import_id", "36", i)
            else if !WithinMax(p.update.payeeName, 200) then TooLongAt("payee_name", "200", i)
            else TooLongAt("memo", "500", i)
  {
    PatchErrorIs(p, "Transactions.UpdateBatch");
    if PatchError(p, "Transactions.UpdateBatch").Some? {
      PatchSuffix(PatchError(p, "Transactions.UpdateBatch").value, i);
    }
  }

  lemma PatchErrorIs(p: Patch, op: string)
    ensures PatchError(p, op) ==
            if |p.importID| > 36 then TooLong(op, "import_id", "36")
            else if !WithinMax(p.update.payeeName, 200) then TooLong(op, "payee_name", "200")
            else if !WithinMax(p.update.memo, 500) then TooLong(op, "memo", "500")
            else None
  {
    LimitTexts();
    FirstOfThree(CheckRuneMax(op, "import_id", p.importID, IMPORT_ID_MAX),
                 CheckOptRuneMax(op, "payee_name", p.update.payeeName, PAYEE_NAME_MAX),
                 CheckOptRuneMax(op, "memo", p.update.memo, MEMO_MAX));
  }

  lemma PatchSuffix(e: ArgumentError, i: nat)
    ensures WithSuffix(e, "patch", i) == ArgumentError(e.op, e.field, e.reason + (" (patch " + Numeral(i) + ")"))
  {
    assert " (" + "patch" + " " == " (patch ";
    Associate(e.reason, " (patch ", Numeral(i));
    Associate(e.reason, " (patch " + Numeral(i), ")");
  }

  /** UpdateBatch's loop: identity first, then bounds, patch by patch. */
  method CheckUpdateBatch(patches: seq<Patch>) returns (err: Option<ArgumentError>)
    ensures err.None? <==> forall i | 0 <= i < |patches| :: PatchFault(patches[i], i).None?
    ensures err.Some? ==> exists i ::
              && 0 <= i < |patches| && err == PatchFault(patches[i], i)
              && forall j | 0 <= j < i :: PatchFault(patches[j], j).None?
  {
    for i := 0 to |patches|
      invariant forall j | 0 <= j < i :: PatchFault(patches[j], j).None?
    {
      var p := patches[i];
      if p.id == "" && p.importID == "" {
        return PatchFault(p, i);
      }
      var e := PatchError(p, "Transactions.UpdateBatch");
      if e.Some? {
        return Some(WithSuffix(e.value, "patch", i));
      }
    }
    return None;
  }

  /**
   * UpdateBatch up to the request. A batch that passes the pre-flight is always encoded: no patch of
   * it is refused for want of an identity, and each object carries its patch and one identity.
   */
  method Payload(patches: seq<Patch>) returns (r: Result<seq<Object>, ArgumentError>)
    requires forall p | p in patches :: ProperUpdate(p.update)
    ensures r.Ok? <==> forall i | 0 <= i < |patches| :: PatchFault(patches[i], i).None?
    ensures r.Ok? ==> |r.value| == |patches| && forall i | 0 <= i < |patches| :: Encodes(r.value[i], patches[i])
    ensures r.Err? ==> exists i ::
              && 0 <= i < |patches| && Some(r.error) == PatchFault(patches[i], i)
              && forall j | 0 <= j < i :: PatchFault(patches[j], j).None?
  {
    var err := CheckUpdateBatch(patches);
    if err.Some? {
      return Err(err.value);
    }
    var objects: seq<Object> := [];
    for i := 0 to |patches|
      invariant |objects| == i && forall j | 0 <= j < i :: Encodes(objects[j], patches[j])
    {
      assert patches[i] in patches;
      PatchFaultIff(patches[i], i);
      var obj := MarshalPatch(patches[i]);
      objects := objects + [obj.value];
    }
    return Ok(objects);
  }
}
