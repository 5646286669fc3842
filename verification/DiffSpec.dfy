// internal/contract/diff.go: comparing the operation table with the scanned spec, both ways.
module DiffSpec {
  /** A table row, as far as the comparison reads it. */
  datatype Operation = Operation(id: string, verb: string, path: string, query: seq<string>)

  /** An operation scanned from the spec. */
  datatype SpecOp = SpecOp(id: string, verb: string, path: string, query: seq<string>, hasBody: bool)

  /** isBodiless. */
  predicate IsBodiless(id: string) {
    id == "deleteTransaction" || id == "deleteScheduledTransaction" || id == "importTransactions"
  }

  /** One reported discrepancy; the text of the report is its data. */
  datatype Problem =
    | DuplicateInTable(id: string)
    | DuplicateInSpec(id: string)
    | Phantom(id: string)
    | Unimplemented(id: string)
    | VerbDiffers(id: string, table: string, spec: string)
    | PathDiffers(id: string, table: string, spec: string)
    | BodyContradicts(id: string, hasBody: bool)
    | IllegalParam(id: string, param: string)
    | MissingParam(id: string, param: string)

  // ----- what counts as a discrepancy

  ghost predicate Repeated(ids: seq<string>, id: string) {
    exists i, j :: 0 <= i < j < |ids| && ids[i] == id && ids[j] == id
  }

  function TableIDs(table: seq<Operation>): (r: seq<string>)
    ensures |r| == |table| && forall i | 0 <= i < |r| :: r[i] == table[i].id
  {
    seq(|table|, i requires 0 <= i < |table| => table[i].id)
  }

  function SpecIDs(spec: seq<SpecOp>): (r: seq<string>)
    ensures |r| == |spec| && forall i | 0 <= i < |r| :: r[i] == spec[i].id
  {
    seq(|spec|, i requires 0 <= i < |spec| => spec[i].id)
  }

  /** The spec operation a row is compared with: the last of that id. */
  ghost predicate Counterpart(spec: seq<SpecOp>, id: string, s: SpecOp) {
    exists i :: && 0 <= i < |spec| && spec[i] == s && s.id == id
                && forall j | i < j < |spec| :: spec[j].id != id
  }

  /** The discrepancies between one row and its counterpart. */
  ghost predicate RowProblem(op: Operation, s: SpecOp, p: Problem) {
    || (p == VerbDiffers(op.id, op.verb, s.verb) && op.verb != s.verb)
    || (p == PathDiffers(op.id, op.path, s.path) && op.path != s.path)
    || (p == BodyContradicts(op.id, s.hasBody) && op.verb != "GET" && s.hasBody == IsBodiless(op.id))
    || (p.IllegalParam? && p.id == op.id && p.param in op.query && p.param !in s.query)
    || (p.MissingParam? && p.id == op.id && p.param in s.query && p.param !in op.query)
  }

  ghost predicate IsProblem(table: seq<Operation>, spec: seq<SpecOp>, p: Problem) {
    match p
    case DuplicateInTable(id) => Repeated(TableIDs(table), id)
    case DuplicateInSpec(id) => Repeated(SpecIDs(spec), id)
    case Phantom(id) => id in TableIDs(table) && id !in SpecIDs(spec)
    case Unimplemented(id) => id in SpecIDs(spec) && id !in TableIDs(table)
    case _ => exists op, s | op in table && s in spec :: Counterpart(spec, op.id, s) && RowProblem(op, s, p)
  }

  // ----- the comparison

  /** diffParams. */
  method DiffParams(id: string, table: seq<string>, spec: seq<string>) returns (problems: seq<Problem>)
    ensures forall p :: p in problems <==>
              || (p.IllegalParam? && p.id == id && p.param in table && p.param !in spec)
              || (p.MissingParam? && p.id == id && p.param in spec && p.param !in table)
  {
    problems := [];
    for i := 0 to |table|
      invariant forall p :: p in problems <==>
                  p.IllegalParam? && p.id == id && p.param in table[..i] && p.param !in spec
    {
      if table[i] !in spec {
        problems := problems + [IllegalParam(id, table[i])];
      }
    }
    for i := 0 to |spec|
      invariant forall p :: p in problems <==>
                  || (p.IllegalParam? && p.id == id && p.param in table && p.param !in spec)
                  || (p.MissingParam? && p.id == id && p.param in spec[..i] && p.param !in table)
    {
      if spec[i] !in table {
        problems := problems + [MissingParam(id, spec[i])];
      }
    }
  }

  /** The body of DiffSpec's loop over the table, for a row that has a counterpart. */
  method DiffRow(op: Operation, s: SpecOp) returns (problems: seq<Problem>)
    ensures forall p :: p in problems <==> RowProblem(op, s, p)
  {
    problems := [];
    if op.verb != s.verb {
      problems := problems + [VerbDiffers(op.id, op.verb, s.verb)];
    }
    if op.path != s.path {
      problems := problems + [PathDiffers(op.id, op.path, s.path)];
    }
    if op.verb != "GET" && s.hasBody == IsBodiless(op.id) {
      problems := problems + [BodyContradicts(op.id, s.hasBody)];
    }
    var params := DiffParams(op.id, op.query, s.query);
    problems := problems + params;
  }

  /** The id map built from the table, with the duplicates met on the way. */
  method IndexTable(table: seq<Operation>) returns (ids: set<string>, problems: seq<Problem>)
    ensures forall id :: id in ids <==> id in TableIDs(table)
    ensures forall p :: p in problems <==> p.DuplicateInTable? && Repeated(TableIDs(table), p.id)
  {
    ids, problems := {}, [];
    var all := TableIDs(table);
    for i := 0 to |table|
      invariant forall id :: id in ids <==> id in all[..i]
      invariant forall p :: p in problems <==> p.DuplicateInTable? && Repeated(all[..i], p.id)
    {
      RepeatedStep(all, i);
      if table[i].id in ids {
        problems := problems + [DuplicateInTable(table[i].id)];
      }
      ids := ids + {table[i].id};
    }
    assert all[..|table|] == all;
  }

  /** The id map built from the spec: later operations overwrite earlier ones. */
  method IndexSpec(spec: seq<SpecOp>) returns (byID: map<string, SpecOp>, problems: seq<Problem>)
    ensures Indexed(spec, byID)
    ensures forall p :: p in problems <==> p.DuplicateInSpec? && Repeated(SpecIDs(spec), p.id)
  {
    byID, problems := map[], [];
    var all := SpecIDs(spec);
    for i := 0 to |spec|
      invariant Indexed(spec[..i], byID)
      invariant forall p :: p in problems <==> p.DuplicateInSpec? && Repeated(all[..i], p.id)
    {
      RepeatedStep(all, i);
      IndexedStep(spec[..i], spec[i], byID);
      assert spec[..i + 1] == spec[..i] + [spec[i]] && SpecIDs(spec[..i]) == all[..i];
      if spec[i].id in byID {
        problems := problems + [DuplicateInSpec(spec[i].id)];
      }
      byID := byID[spec[i].id := spec[i]];
    }
    assert all[..|spec|] == all && spec[..|spec|] == spec;
  }

  lemma RepeatedStep(ids: seq<string>, i: nat)
    requires i < |ids|
    ensures forall id :: id in ids[..i + 1] <==> id in ids[..i] || id == ids[i]
    ensures forall id :: Repeated(ids[..i + 1], id) <==> Repeated(ids[..i], id) || (id == ids[i] && id in ids[..i])
  {
    var old', new' := ids[..i], ids[..i + 1];
    assert new' == old' + [ids[i]];
    forall id ensures Repeated(new', id) <==> Repeated(old', id) || (id == ids[i] && id in old') {
      if Repeated(old', id) {
        var a, b :| 0 <= a < b < |old'| && old'[a] == id && old'[b] == id;
        assert new'[a] == id && new'[b] == id;
      }
      if id == ids[i] && id in old' {
        var a :| 0 <= a < |old'| && old'[a] == id;
        assert new'[a] == id && new'[i] == id;
      }
      if Repeated(new', id) {
        var a, b :| 0 <= a < b < |new'| && new'[a] == id && new'[b] == id;
        assert old'[a] == id;
        if b < i { assert old'[b] == id; }
      }
    }
  }

  /** The map holds each id's counterpart. */
  ghost predicate Indexed(spec: seq<SpecOp>, byID: map<string, SpecOp>) {
    && (forall id :: id in byID <==> id in SpecIDs(spec))
    && (forall id | id in byID :: Counterpart(spec, id, byID[id]))
  }

  lemma CounterpartStep(spec: seq<SpecOp>, op: SpecOp, id: string, s: SpecOp)
    ensures Counterpart(spec + [op], id, s) <==> if op.id == id then s == op else Counterpart(spec, id, s)
  {
    var all := spec + [op];
    if op.id == id {
      assert all[|spec|] == op;
    } else if Counterpart(spec, id, s) {
      var k :| && 0 <= k < |spec| && spec[k] == s && s.id == id && forall j | k < j < |spec| :: spec[j].id != id;
      assert all[k] == s;
    } else if Counterpart(all, id, s) {
      var k :| && 0 <= k < |all| && all[k] == s && s.id == id && forall j | k < j < |all| :: all[j].id != id;
      assert spec[k] == s;
      forall j | k < j < |spec| ensures spec[j].id != id { assert all[j].id != id; }
    }
  }

  lemma IndexedStep(spec: seq<SpecOp>, op: SpecOp, byID: map<string, SpecOp>)
    requires Indexed(spec, byID)
    ensures Indexed(spec + [op], byID[op.id := op])
  {
    var next := byID[op.id := op];
    assert SpecIDs(spec + [op]) == SpecIDs(spec) + [op.id];
    forall id | id in next ensures Counterpart(spec + [op], id, next[id]) {
      CounterpartStep(spec, op, id, next[id]);
    }
  }

  /** DiffSpec: every discrepancy is reported, and nothing else. */
  method Diff(table: seq<Operation>, spec: seq<SpecOp>) returns (problems: seq<Problem>)
    ensures forall p :: p in problems <==> IsProblem(table, spec, p)
    ensures forall id :: Phantom(id) in problems <==> id in TableIDs(table) && id !in SpecIDs(spec)
    ensures forall id :: Unimplemented(id) in problems <==> id in SpecIDs(spec) && id !in TableIDs(table)
    ensures problems == [] <==> Agrees(table, spec)
  {
    var tableIDs, fromTable := IndexTable(table);
    var byID, fromSpec := IndexSpec(spec);
    var rows := [];
    for i := 0 to |table|
      invariant forall p :: p in rows <==> FromRows(spec, table[..i], p)
    {
      var op := table[i];
      assert table[..i + 1] == table[..i] + [op];
      FromRowsStep(spec, table[..i], op);
      if op.id !in byID {
        rows := rows + [Phantom(op.id)];
        continue;
      }
      var more := DiffRow(op, byID[op.id]);
      RowWithCounterpart(spec, op, byID[op.id]);
      rows := rows + more;
    }
    var missing := [];
    for i := 0 to |spec|
      invariant forall p :: p in missing <==>
                  exists s | s in spec[..i] :: p == Unimplemented(s.id) && s.id !in tableIDs
    {
      assert spec[..i + 1] == spec[..i] + [spec[i]];
      if spec[i].id !in tableIDs {
        missing := missing + [Unimplemented(spec[i].id)];
      }
    }
    problems := fromTable + fromSpec + rows + missing;
    assert table[..|table|] == table && spec[..|spec|] == spec;
    forall p ensures p in problems <==> IsProblem(table, spec, p) {
      AllKinds(table, spec, p);
    }
    NoProblemsIff(table, spec);
    EmptyIff(problems);
  }

  lemma EmptyIff(problems: seq<Problem>)
    ensures problems == [] <==> forall p :: p !in problems
  {
    if problems != [] { assert problems[0] in problems; }
  }

  /** What one turn of the table loop reports. */
  ghost predicate FromRow(spec: seq<SpecOp>, op: Operation, p: Problem) {
    if op.id !in SpecIDs(spec) then p == Phantom(op.id)
    else exists s | s in spec :: Counterpart(spec, op.id, s) && RowProblem(op, s, p)
  }

  ghost predicate FromRows(spec: seq<SpecOp>, table: seq<Operation>, p: Problem) {
    exists op | op in table :: FromRow(spec, op, p)
  }

  lemma FromRowsStep(spec: seq<SpecOp>, table: seq<Operation>, op: Operation)
    ensures forall p :: FromRows(spec, table + [op], p) <==> FromRows(spec, table, p) || FromRow(spec, op, p)
  {
    assert op in table + [op];
  }

  lemma CounterpartUnique(spec: seq<SpecOp>, id: string, s: SpecOp, t: SpecOp)
    requires Counterpart(spec, id, s) && Counterpart(spec, id, t)
    ensures s == t && s in spec
  {
  }

  lemma RowWithCounterpart(spec: seq<SpecOp>, op: Operation, s: SpecOp)
    requires Counterpart(spec, op.id, s)
    ensures op.id in SpecIDs(spec)
    ensures forall p :: FromRow(spec, op, p) <==> RowProblem(op, s, p)
  {
    var i :| 0 <= i < |spec| && spec[i] == s && s.id == op.id;
    assert SpecIDs(spec)[i] == op.id && s in spec;
    forall t | t in spec && Counterpart(spec, op.id, t) ensures t == s { CounterpartUnique(spec, op.id, s, t); }
  }

  lemma IDMembers(table: seq<Operation>, spec: seq<SpecOp>)
    ensures forall id :: id in TableIDs(table) <==> exists op | op in table :: op.id == id
    ensures forall id :: id in SpecIDs(spec) <==> exists s | s in spec :: s.id == id
  {
    forall id | id in TableIDs(table) ensures exists op | op in table :: op.id == id {
      var i :| 0 <= i < |table| && TableIDs(table)[i] == id;
      assert table[i] in table;
    }
    forall op | op in table ensures op.id in TableIDs(table) {
      var i :| 0 <= i < |table| && table[i] == op;
      assert TableIDs(table)[i] == op.id;
    }
    forall id | id in SpecIDs(spec) ensures exists s | s in spec :: s.id == id {
      var i :| 0 <= i < |spec| && SpecIDs(spec)[i] == id;
      assert spec[i] in spec;
    }
    forall s | s in spec ensures s.id in SpecIDs(spec) {
      var i :| 0 <= i < |spec| && spec[i] == s;
      assert SpecIDs(spec)[i] == s.id;
    }
  }

  lemma AllKinds(table: seq<Operation>, spec: seq<SpecOp>, p: Problem)
    ensures IsProblem(table, spec, p) <==>
            || (p.DuplicateInTable? && Repeated(TableIDs(table), p.id))
            || (p.DuplicateInSpec? && Repeated(SpecIDs(spec), p.id))
            || FromRows(spec, table, p)
            || (exists s | s in spec :: p == Unimplemented(s.id) && s.id !in TableIDs(table))
  {
    IDMembers(table, spec);
  }

  // ----- when nothing is reported

  ghost predicate Distinct(ids: seq<string>) { forall i, j | 0 <= i < j < |ids| :: ids[i] != ids[j] }

  /** A row and its spec operation say the same. */
  ghost predicate RowAgrees(op: Operation, s: SpecOp) {
    && op.verb == s.verb && op.path == s.path
    && (forall q :: q in op.query <==> q in s.query)
    && (op.verb != "GET" ==>
          s.hasBody == (op.id !in {"importTransactions", "deleteTransaction", "deleteScheduledTransaction"}))
  }

  /** The contract the comparison is meant to establish. */
  ghost predicate Agrees(table: seq<Operation>, spec: seq<SpecOp>) {
    && Distinct(TableIDs(table)) && Distinct(SpecIDs(spec))
    && (forall id :: id in TableIDs(table) <==> id in SpecIDs(spec))
    && (forall op, s | op in table && s in spec && op.id == s.id :: RowAgrees(op, s))
  }

  lemma RowAgreesIff(op: Operation, s: SpecOp)
    ensures RowAgrees(op, s) <==> forall p :: !RowProblem(op, s, p)
  {
    if forall p :: !RowProblem(op, s, p) {
      assert !RowProblem(op, s, VerbDiffers(op.id, op.verb, s.verb));
      assert !RowProblem(op, s, PathDiffers(op.id, op.path, s.path));
      assert !RowProblem(op, s, BodyContradicts(op.id, s.hasBody));
      forall q ensures q in op.query <==> q in s.query {
        assert !RowProblem(op, s, IllegalParam(op.id, q));
        assert !RowProblem(op, s, MissingParam(op.id, q));
      }
    }
  }

  lemma DistinctCounterpart(spec: seq<SpecOp>, s: SpecOp)
    requires Distinct(SpecIDs(spec)) && s in spec
    ensures Counterpart(spec, s.id, s)
  {
    var i :| 0 <= i < |spec| && spec[i] == s;
    forall j | i < j < |spec| ensures spec[j].id != s.id { assert SpecIDs(spec)[i] != SpecIDs(spec)[j]; }
  }

  /** The report is empty exactly when table and spec agree. */
  lemma NoProblemsIff(table: seq<Operation>, spec: seq<SpecOp>)
    ensures (forall p :: !IsProblem(table, spec, p)) <==> Agrees(table, spec)
  {
    if forall p :: !IsProblem(table, spec, p) {
      DistinctIDs(table, spec);
      forall id ensures id in TableIDs(table) <==> id in SpecIDs(spec) {
        assert !IsProblem(table, spec, Phantom(id)) && !IsProblem(table, spec, Unimplemented(id));
      }
      forall op, s | op in table && s in spec && op.id == s.id ensures RowAgrees(op, s) {
        DistinctCounterpart(spec, s);
        forall p ensures !RowProblem(op, s, p) {
          assert !IsProblem(table, spec, p);
        }
        RowAgreesIff(op, s);
      }
    }
    if Agrees(table, spec) {
      forall p ensures !IsProblem(table, spec, p) { AgreementIsClean(table, spec, p); }
    }
  }

  lemma DistinctIDs(table: seq<Operation>, spec: seq<SpecOp>)
    requires forall p :: !IsProblem(table, spec, p)
    ensures Distinct(TableIDs(table)) && Distinct(SpecIDs(spec))
  {
    forall i, j | 0 <= i < j < |table| ensures TableIDs(table)[i] != TableIDs(table)[j] {
      assert !IsProblem(table, spec, DuplicateInTable(TableIDs(table)[i]));
    }
    forall i, j | 0 <= i < j < |spec| ensures SpecIDs(spec)[i] != SpecIDs(spec)[j] {
      assert !IsProblem(table, spec, DuplicateInSpec(SpecIDs(spec)[i]));
    }
  }

  lemma AgreementIsClean(table: seq<Operation>, spec: seq<SpecOp>, p: Problem)
    requires Agrees(table, spec)
    ensures !IsProblem(table, spec, p)
  {
    forall op, s | op in table && s in spec && Counterpart(spec, op.id, s) ensures !RowProblem(op, s, p) {
      RowAgreesIff(op, s);
    }
  }
}
