// transactions.go: the checks a transaction payload passes before any request is sent.
module TransactionSpec {
  import opened Basics
  import opened GoInt
  import opened Decimal
  import opened Optional
  import opened Permutations
  import opened SplitEven
  import Milliunits

  const IMPORT_ID_MAX := 36
  const PAYEE_NAME_MAX := 200
  const MEMO_MAX := 500

  datatype Leg = Leg(amount: int64, payeeName: Optional<string>, memo: Optional<string>)

  datatype Spec = Spec(
    amount: int64,
    payeeName: Optional<string>,
    memo: Optional<string>,
    importID: Optional<string>,
    splits: seq<Leg>)

  function WithSuffix(e: ArgumentError, kind: string, i: nat): ArgumentError {
    e.(reason := e.reason + " (" + kind + " " + Numeral(i) + ")")
  }

  function HeaderError(s: Spec, op: string): Option<ArgumentError> {
    ErrFirst([CheckOptRuneMax(op, "import_id", s.importID, IMPORT_ID_MAX),
              CheckOptRuneMax(op, "payee_name", s.payeeName, PAYEE_NAME_MAX),
              CheckOptRuneMax(op, "memo", s.memo, MEMO_MAX)])
  }

  function LegError(leg: Leg, op: string): Option<ArgumentError> {
    ErrFirst([CheckOptRuneMax(op, "payee_name", leg.payeeName, PAYEE_NAME_MAX),
              CheckOptRuneMax(op, "memo", leg.memo, MEMO_MAX)])
  }

  function SumError(op: string): ArgumentError {
    ArgumentError(op, "", "split amounts must sum exactly to Amount")
  }

  function Amounts(legs: seq<Leg>): (a: seq<int64>)
    ensures |a| == |legs| && forall i | 0 <= i < |legs| :: a[i] == legs[i].amount
  {
    seq(|legs|, i requires 0 <= i < |legs| => legs[i].amount)
  }

  ghost predicate LegsClean(legs: seq<Leg>, op: string) {
    forall i | 0 <= i < |legs| :: LegError(legs[i], op).None?
  }

  /**
   * What validate answers: no error, the header's, that of the first bad leg with its index, or
   * the sum's when everything else is clean.
   */
  ghost predicate Verdict(s: Spec, op: string, err: Option<ArgumentError>) {
    if HeaderError(s, op).Some? then err == HeaderError(s, op)
    else if s.splits == [] then err == None
    else if LegsClean(s.splits, op) then
      err == if (Sum(Amounts(s.splits)) - s.amount) % TWO64 == 0 then None else Some(SumError(op))
    else
      exists i :: && 0 <= i < |s.splits| && LegsClean(s.splits[..i], op)
                  && LegError(s.splits[i], op).Some?
                  && err == Some(WithSuffix(LegError(s.splits[i], op).value, "split", i))
  }

  /** TransactionSpec.validate. The running total wraps. */
  method Validate(s: Spec, op: string) returns (err: Option<ArgumentError>)
    ensures Verdict(s, op, err)
  {
    err := HeaderError(s, op);
    if err.Some? {
      return;
    }
    if s.splits == [] {
      return None;
    }
    var sum: int64 := 0;
    var amounts := Amounts(s.splits);
    for i := 0 to |s.splits|
      invariant LegsClean(s.splits[..i], op)
      invariant sum == Wrap(Sum(amounts[..i]))
    {
      var leg := s.splits[i];
      err := LegError(leg, op);
      if err.Some? {
        BadLegDecides(s, op, i);
        return Some(WithSuffix(err.value, "split", i));
      }
      sum := Milliunits.Add(sum, leg.amount);
      RunningSum(amounts, i);
    }
    assert s.splits[..|s.splits|] == s.splits && amounts[..|amounts|] == amounts;
    SumDecides(s, op, sum);
    if sum != s.amount {
      return Some(SumError(op));
    }
    return None;
  }

  lemma SumDecides(s: Spec, op: string, sum: int64)
    requires HeaderError(s, op).None? && s.splits != [] && LegsClean(s.splits, op)
    requires sum == Wrap(Sum(Amounts(s.splits)))
    ensures Verdict(s, op, if sum == s.amount then None else Some(SumError(op)))
  {
    Congruence(Sum(Amounts(s.splits)), s.amount);
  }

  lemma BadLegDecides(s: Spec, op: string, i: nat)
    requires HeaderError(s, op).None? && i < |s.splits| && LegsClean(s.splits[..i], op)
    requires LegError(s.splits[i], op).Some?
    ensures Verdict(s, op, Some(WithSuffix(LegError(s.splits[i], op).value, "split", i)))
  {
  }

  lemma RunningSum(amounts: seq<int64>, i: nat)
    requires i < |amounts|
    ensures Wrap(Wrap(Sum(amounts[..i])) + amounts[i]) == Wrap(Sum(amounts[..i + 1]))
  {
    assert amounts[..i + 1][..i] == amounts[..i];
    WrapAdd(Sum(amounts[..i]), amounts[i]);
  }

  lemma Congruence(exact: int, m: int64)
    ensures Wrap(exact) == m <==> (exact - m) % TWO64 == 0
  {
  }

  // ----- what acceptance means

  ghost predicate WithinBounds(s: Spec) {
    && WithinMax(s.importID, 36) && WithinMax(s.payeeName, 200) && WithinMax(s.memo, 500)
    && forall i | 0 <= i < |s.splits| :: WithinMax(s.splits[i].payeeName, 200) && WithinMax(s.splits[i].memo, 500)
  }

  /** The error of a text past its limit. */
  function TooLong(op: string, field: string, limit: string): Option<ArgumentError> {
    Some(ArgumentError(op, field, "must be at most " + limit + " characters"))
  }

  lemma LimitTexts()
    ensures Numeral(36) == "36" && Numeral(200) == "200" && Numeral(500) == "500"
  {
    assert Numeral(20) == "20" && Numeral(50) == "50";
  }

  /** Which field a spec's own error names: import id before payee name before memo. */
  lemma HeaderErrorIs(s: Spec, op: string)
    ensures HeaderError(s, op) ==
            if !WithinMax(s.importID, 36) then TooLong(op, "import_id", "36")
            else if !WithinMax(s.payeeName, 200) then TooLong(op, "payee_name", "200")
            else if !WithinMax(s.memo, 500) then TooLong(op, "memo", "500")
            else None
  {
    LimitTexts();
    FirstOfThree(CheckOptRuneMax(op, "import_id", s.importID, IMPORT_ID_MAX),
                 CheckOptRuneMax(op, "payee_name", s.payeeName, PAYEE_NAME_MAX),
                 CheckOptRuneMax(op, "memo", s.memo, MEMO_MAX));
  }

  lemma FirstOfThree(a: Option<ArgumentError>, b: Option<ArgumentError>, c: Option<ArgumentError>)
    ensures ErrFirst([a, b, c]) == if a.Some? then a else if b.Some? then b else c
  {
    var errs := [a, b, c];
    ErrFirstNone(errs);
    if a.Some? {
      ErrFirstIs(errs, 0);
    } else if b.Some? {
      ErrFirstIs(errs, 1);
    } else if c.Some? {
      ErrFirstIs(errs, 2);
    }
  }

  /** A leg's error: payee name before memo. */
  lemma LegErrorIs(leg: Leg, op: string)
    ensures LegError(leg, op) ==
            if !WithinMax(leg.payeeName, 200) then TooLong(op, "payee_name", "200")
            else if !WithinMax(leg.memo, 500) then TooLong(op, "memo", "500")
            else None
  {
    LimitTexts();
    var errs := [CheckOptRuneMax(op, "payee_name", leg.payeeName, PAYEE_NAME_MAX),
                 CheckOptRuneMax(op, "memo", leg.memo, MEMO_MAX)];
    ErrFirstNone(errs);
    if errs[0].Some? { ErrFirstIs(errs, 0); } else if errs[1].Some? { ErrFirstIs(errs, 1); }
  }

  /** With a clean header, the first bad leg's error is the answer, with the leg's index behind the reason. */
  lemma FirstBadLegAnswers(s: Spec, op: string, err: Option<ArgumentError>, i: nat)
    requires Verdict(s, op, err) && HeaderError(s, op).None? && i < |s.splits| && LegsClean(s.splits[..i], op)
    requires !WithinMax(s.splits[i].payeeName, 200) || !WithinMax(s.splits[i].memo, 500)
    ensures err.Some? && err.value.op == op
    ensures var tooLong := !WithinMax(s.splits[i].payeeName, 200);
            && err.value.field == (if tooLong then "payee_name" else "memo")
            && err.value.reason == "must be at most " + (if tooLong then "200" else "500") + " characters"
                                   + " (split " + Numeral(i) + ")"
  {
    LegErrorIs(s.splits[i], op);
    BadLegDecides(s, op, i);
    var e := LegError(s.splits[i], op).value;
    VerdictDecides(s, op, err, Some(WithSuffix(e, "split", i)));
    SplitSuffix(e, i);
  }

  lemma SplitSuffix(e: ArgumentError, i: nat)
    ensures WithSuffix(e, "split", i).reason == e.reason + " (split " + Numeral(i) + ")"
    ensures WithSuffix(e, "split", i).op == e.op && WithSuffix(e, "split", i).field == e.field
  {
    assert " (" + "split" + " " == " (split ";
    Associate(e.reason, " (split ", Numeral(i));
    Associate(e.reason, " (split " + Numeral(i), ")");
  }

  /** With header and legs clean, amounts that do not add up are the answer. */
  lemma BadSumAnswers(s: Spec, op: string, err: Option<ArgumentError>)
    requires Verdict(s, op, err) && HeaderError(s, op).None? && s.splits != [] && LegsClean(s.splits, op)
    requires (Sum(Amounts(s.splits)) - s.amount) % 0x1_0000_0000_0000_0000 != 0
    ensures err == Some(ArgumentError(op, "", "split amounts must sum exactly to Amount"))
  {
  }

  lemma LegErrorIff(leg: Leg, op: string)
    ensures LegError(leg, op).None? <==> WithinMax(leg.payeeName, PAYEE_NAME_MAX) && WithinMax(leg.memo, MEMO_MAX)
  {
    var errs := [CheckOptRuneMax(op, "payee_name", leg.payeeName, PAYEE_NAME_MAX),
                 CheckOptRuneMax(op, "memo", leg.memo, MEMO_MAX)];
    ErrFirstNone(errs);
    assert errs[0].None? && errs[1].None? <==> forall i | 0 <= i < 2 :: errs[i].None?;
  }

  lemma HeaderErrorIff(s: Spec, op: string)
    ensures HeaderError(s, op).None? <==>
            && WithinMax(s.importID, IMPORT_ID_MAX)
            && WithinMax(s.payeeName, PAYEE_NAME_MAX)
            && WithinMax(s.memo, MEMO_MAX)
  {
    var errs := [CheckOptRuneMax(op, "import_id", s.importID, IMPORT_ID_MAX),
                 CheckOptRuneMax(op, "payee_name", s.payeeName, PAYEE_NAME_MAX),
                 CheckOptRuneMax(op, "memo", s.memo, MEMO_MAX)];
    ErrFirstNone(errs);
    assert errs[0].None? && errs[1].None? && errs[2].None? <==> forall i | 0 <= i < 3 :: errs[i].None?;
  }

  /** A spec is accepted exactly when its texts fit and its legs agree with Amount modulo 2^64. */
  lemma AcceptedIff(s: Spec, op: string, err: Option<ArgumentError>)
    requires Verdict(s, op, err)
    ensures err.None? <==>
            && WithinBounds(s)
            && (s.splits == [] || (Sum(Amounts(s.splits)) - s.amount) % TWO64 == 0)
  {
    HeaderErrorIff(s, op);
    forall i | 0 <= i < |s.splits|
      ensures LegError(s.splits[i], op).None? <==>
              WithinMax(s.splits[i].payeeName, PAYEE_NAME_MAX) && WithinMax(s.splits[i].memo, MEMO_MAX)
    {
      LegErrorIff(s.splits[i], op);
    }
  }

  /** The documented exact equality holds of an accepted split if and only if the exact total fits int64. */
  lemma AcceptedSumExact(s: Spec, op: string)
    requires Verdict(s, op, None) && s.splits != []
    ensures Sum(Amounts(s.splits)) == s.amount <==> Fits64(Sum(Amounts(s.splits)))
  {
    AcceptedIff(s, op, None);
    if Fits64(Sum(Amounts(s.splits))) { CongruentEqual(Sum(Amounts(s.splits)), s.amount); }
  }

  /** Three legs that pass as a split of zero although they total 2^64. */
  lemma WrappedLegsAccepted(op: string)
    ensures var s := Spec(0, Unset, Unset, Unset,
                          [Leg(MAX_INT64, Unset, Unset), Leg(MAX_INT64, Unset, Unset), Leg(2, Unset, Unset)]);
            Verdict(s, op, None) && Sum(Amounts(s.splits)) == TWO64
  {
    var legs := [Leg(MAX_INT64, Unset, Unset), Leg(MAX_INT64, Unset, Unset), Leg(2, Unset, Unset)];
    var s := Spec(0, Unset, Unset, Unset, legs);
    var a: seq<int> := Amounts(legs);
    assert a == [MAX_INT64, MAX_INT64, 2];
    assert a[..2] == [MAX_INT64, MAX_INT64] && a[..2][..1] == [MAX_INT64] && a[..2][..1][..0] == [];
    assert Sum(a[..2][..1]) == MAX_INT64;
    assert Sum(a[..2]) == MAX_INT64 + MAX_INT64;
    HeaderErrorIff(s, op);
    forall i | 0 <= i < |legs| ensures LegError(legs[i], op).None? { LegErrorIff(legs[i], op); }
  }

  /**
   * The legs SplitEven deals out always pass, for every amount and every number of parts, and the
   * running total never wraps on the way.
   */
  lemma EvenLegsAccepted(s: Spec, op: string, err: Option<ArgumentError>)
    requires Verdict(s, op, err) && WithinBounds(s)
    requires |s.splits| > 0 && IsEvenSplit(s.amount, |s.splits|, Amounts(s.splits))
    ensures err.None?
    ensures forall k | 0 <= k <= |s.splits| :: Fits64(Sum(Amounts(s.splits)[..k]))
  {
    AcceptedIff(s, op, err);
    forall k | 0 <= k <= |s.splits| ensures Fits64(Sum(Amounts(s.splits)[..k])) {
      PartialSums(s.amount, |s.splits|, Amounts(s.splits), k);
    }
  }

  // ----- CreateBatch's pre-flight

  /** CreateBatch's loop: the first spec that fails decides, and its index is appended. */
  method CheckCreateBatch(specs: seq<Spec>) returns (err: Option<ArgumentError>)
    ensures err.None? <==> forall s | s in specs :: Verdict(s, "Transactions.CreateBatch", None)
    ensures err.Some? ==> exists i, e ::
              && 0 <= i < |specs| && Verdict(specs[i], "Transactions.CreateBatch", Some(e))
              && (forall j | 0 <= j < i :: Verdict(specs[j], "Transactions.CreateBatch", None))
              && err == Some(WithSuffix(e, "spec", i))
  {
    for i := 0 to |specs|
      invariant forall j | 0 <= j < i :: Verdict(specs[j], "Transactions.CreateBatch", None)
    {
      var e := Validate(specs[i], "Transactions.CreateBatch");
      if e.Some? {
        if Verdict(specs[i], "Transactions.CreateBatch", None) {
          VerdictDecides(specs[i], "Transactions.CreateBatch", e, None);
        }
        return Some(WithSuffix(e.value, "spec", i));
      }
    }
    return None;
  }

  /** A spec cannot be both accepted and refused. */
  lemma VerdictDecides(s: Spec, op: string, e1: Option<ArgumentError>, e2: Option<ArgumentError>)
    requires Verdict(s, op, e1) && Verdict(s, op, e2)
    ensures e1 == e2
  {
    if HeaderError(s, op).None? && s.splits != [] && !LegsClean(s.splits, op) {
      var i :| && 0 <= i < |s.splits| && LegsClean(s.splits[..i], op) && LegError(s.splits[i], op).Some?
               && e1 == Some(WithSuffix(LegError(s.splits[i], op).value, "split", i));
      var j :| && 0 <= j < |s.splits| && LegsClean(s.splits[..j], op) && LegError(s.splits[j], op).Some?
               && e2 == Some(WithSuffix(LegError(s.splits[j], op).value, "split", j));
      FirstBadLeg(s.splits, op, i, j);
      FirstBadLeg(s.splits, op, j, i);
    }
  }

  lemma FirstBadLeg(legs: seq<Leg>, op: string, i: nat, j: nat)
    requires i < |legs| && j < |legs| && LegsClean(legs[..i], op) && LegError(legs[j], op).Some?
    ensures i <= j
  {
  }
}
