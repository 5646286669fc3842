// optional.go: the tri-state of a write field, and errors.go's bound checks over it.
module Optional {
  import opened Basics
  import opened Decimal

  datatype Optional<+T> = Unset | Null | Value(value: T) {
    /** Get: the held value, if one was set. */
    function Get(): Option<T> { if Value? then Some(value) else None }
  }

  datatype ArgumentError = ArgumentError(op: string, field: string, reason: string)

  /** errFirst: the first error that is not nil. */
  function ErrFirst(errs: seq<Option<ArgumentError>>): Option<ArgumentError> {
    if errs == [] then None else if errs[0].Some? then errs[0] else ErrFirst(errs[1..])
  }

  lemma {:induction false} ErrFirstNone(errs: seq<Option<ArgumentError>>)
    ensures ErrFirst(errs).None? <==> forall i | 0 <= i < |errs| :: errs[i].None?
  {
    if errs != [] {
      ErrFirstNone(errs[1..]);
      assert forall i | 1 <= i < |errs| :: errs[i] == errs[1..][i - 1];
    }
  }

  /** The answer is the first error there is, not a later one. */
  lemma {:induction false} ErrFirstIs(errs: seq<Option<ArgumentError>>, i: nat)
    requires i < |errs| && errs[i].Some? && forall j | 0 <= j < i :: errs[j].None?
    ensures ErrFirst(errs) == errs[i]
  {
    if i > 0 { ErrFirstIs(errs[1..], i - 1); }
  }

  /** checkRuneMax; a string is a sequence of code points here, which is what the bound counts. */
  function CheckRuneMax(op: string, field: string, v: string, limit: nat): Option<ArgumentError> {
    if |v| > limit then
      Some(ArgumentError(op, field, "must be at most " + Numeral(limit) + " characters"))
    else None
  }

  function CheckOptRuneMax(op: string, field: string, o: Optional<string>, limit: nat): (r: Option<ArgumentError>)
    ensures r.None? <==> !o.Value? || |o.value| <= limit
    ensures r.Some? ==> r.value.op == op && r.value.field == field
  {
    match o.Get()
    case Some(v) => CheckRuneMax(op, field, v, limit)
    case None => None
  }

  predicate WithinMax(o: Optional<string>, limit: nat) { o.Value? ==> |o.value| <= limit }
}
