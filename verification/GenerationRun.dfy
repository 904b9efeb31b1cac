/** Generation runs: the table `specification_generation_runs`, its constraints and its guard trigger,
    migrations/versions/c31a76d9e845_add_specification_engineering_platform.py. */
module GenerationRun {
  import opened Values

  // ----- three-valued logic: a comparison with NULL is unknown, and `IF` acts on true alone

  datatype Truth = True | False | Unknown

  function Not(a: Truth): Truth {
    match a case True => False case False => True case Unknown => Unknown
  }

  function And(a: Truth, b: Truth): Truth {
    if a == False || b == False then False else if a == True && b == True then True else Unknown
  }

  function Or(a: Truth, b: Truth): Truth {
    Not(And(Not(a), Not(b)))
  }

  function Equals(a: Option<string>, value: string): Truth {
    if a == None then Unknown else if a.value == value then True else False
  }

  function Holds(b: bool): Truth {
    if b then True else False
  }

  // ----- rows; a cell is `None` when it is NULL

  datatype Row = Row(
    id: Option<string>, specificationId: Option<string>, specificationHash: Option<string>,
    generatorKey: Option<string>, generatorVersion: Option<string>, inputHash: Option<string>,
    status: Option<string>, requestDocument: Option<Json>, outputManifest: Option<Json>,
    outputManifestHash: Option<string>, failureDocument: Option<Json>, requestedBy: Option<string>,
    startedAt: Option<string>, completedAt: Option<string>, createdAt: Option<string>)

  datatype Outcome = Accepted | Rejected(message: string)

  /** The columns a run is requested with; the guard compares each with `IS DISTINCT FROM`. */
  predicate SameInputs(a: Row, b: Row) {
    && a.id == b.id
    && a.specificationId == b.specificationId
    && a.specificationHash == b.specificationHash
    && a.generatorKey == b.generatorKey
    && a.generatorVersion == b.generatorVersion
    && a.inputHash == b.inputHash
    && a.requestDocument == b.requestDocument
    && a.requestedBy == b.requestedBy
    && a.createdAt == b.createdAt
  }

  function TransitionAllowed(before: Row, after: Row): Truth {
    Or(And(Equals(before.status, "pending"), Equals(after.status, "running")),
       And(Equals(before.status, "running"), Or(Equals(after.status, "completed"), Equals(after.status, "failed"))))
  }

  function ManifestMissing(after: Row): Truth {
    And(Equals(after.status, "completed"), Holds(after.outputManifest == None || after.outputManifestHash == None))
  }

  /** `guard_specification_generation_run` on an update. */
  function Guard(before: Row, after: Row): Outcome {
    if !SameInputs(before, after) then Rejected("generation run input is immutable")
    else if Not(TransitionAllowed(before, after)) == True then Rejected("invalid generation run transition")
    else if ManifestMissing(after) == True then Rejected("completed generation requires immutable output manifest")
    else Accepted
  }

  predicate NotNullColumnsSet(r: Row) {
    && r.id.Some? && r.specificationId.Some? && r.specificationHash.Some? && r.generatorKey.Some?
    && r.generatorVersion.Some? && r.inputHash.Some? && r.status.Some? && r.requestDocument.Some?
    && r.requestedBy.Some? && r.createdAt.Some?
  }

  /** The two rows agree on no unique column: the key, the input hash, and the manifest hash where there is one. */
  predicate Apart(a: Row, b: Row) {
    && a.id != b.id
    && a.inputHash != b.inputHash
    && (a.outputManifestHash == None || a.outputManifestHash != b.outputManifestHash)
  }

  predicate Constrained(rows: seq<Row>) {
    && (forall i :: 0 <= i < |rows| ==> NotNullColumnsSet(rows[i]))
    && (forall i, j :: 0 <= i < |rows| && 0 <= j < |rows| && i != j ==> Apart(rows[i], rows[j]))
  }

  // ----- attempts on the table

  datatype Attempt = Insert(row: Row) | Update(at: nat, to: Row) | Delete(at: nat)

  function Decide(rows: seq<Row>, a: Attempt): Outcome {
    match a
    case Insert(row) => if Constrained(rows + [row]) then Accepted else Rejected("constraint")
    case Update(i, row) =>
      if i >= |rows| then Rejected("no such row")
      else if Guard(rows[i], row) != Accepted then Guard(rows[i], row)
      else if Constrained(rows[i := row]) then Accepted
      else Rejected("constraint")
    case Delete(i) => Rejected(if i < |rows| then "generation runs cannot be deleted" else "no such row")
  }

  function Step(rows: seq<Row>, a: Attempt): seq<Row> {
    if Decide(rows, a) != Accepted then rows
    else match a
      case Insert(row) => rows + [row]
      case Update(i, row) => if i < |rows| then rows[i := row] else rows
      case Delete(_) => rows
  }

  function Run(rows: seq<Row>, attempts: seq<Attempt>): seq<Row>
    decreases |attempts|
  {
    if attempts == [] then rows else Run(Step(rows, attempts[0]), attempts[1..])
  }

  /** The table as an object. */
  class RunTable {
    var rows: seq<Row>

    constructor ()
      ensures rows == [] && Constrained(rows)
    {
      rows := [];
    }

    method InsertRow(row: Row) returns (outcome: Outcome)
      requires Constrained(rows)
      modifies this
      ensures Constrained(rows)
      ensures outcome == Decide(old(rows), Insert(row)) && rows == Step(old(rows), Insert(row))
    {
      if forall i :: 0 <= i < |rows| ==> Apart(rows[i], row) && Apart(row, rows[i]) {
        if NotNullColumnsSet(row) {
          ghost var before := rows;
          rows := rows + [row];
          assert forall i :: 0 <= i < |before| ==> rows[i] == before[i];
          return Accepted;
        }
      }
      assert (rows + [row])[|rows|] == row;
      assert forall i :: 0 <= i < |rows| ==> (rows + [row])[i] == rows[i];
      return Rejected("constraint");
    }

    /** The trigger runs before the constraints are checked. */
    method UpdateRow(i: nat, row: Row) returns (outcome: Outcome)
      requires Constrained(rows)
      modifies this
      ensures Constrained(rows)
      ensures outcome == Decide(old(rows), Update(i, row)) && rows == Step(old(rows), Update(i, row))
    {
      if i >= |rows| {
        return Rejected("no such row");
      }
      outcome := Guard(rows[i], row);
      if outcome == Accepted {
        if && NotNullColumnsSet(row)
           && forall j :: 0 <= j < |rows| && j != i ==> Apart(rows[j], row) && Apart(row, rows[j])
        {
          rows := rows[i := row];
        } else {
          assert forall j :: 0 <= j < |rows| ==> rows[i := row][j] == if j == i then row else rows[j];
          outcome := Rejected("constraint");
        }
      }
    }

    method DeleteRow(i: nat) returns (outcome: Outcome)
      ensures outcome == Decide(rows, Delete(i)) && rows == Step(rows, Delete(i))
    {
      return Rejected(if i < |rows| then "generation runs cannot be deleted" else "no such row");
    }
  }

  // ----- the status machine

  predicate Follows(a: string, b: string) {
    (a == "pending" && b == "running") || (a == "running" && b in {"completed", "failed"})
  }

  /** How many updates a status has behind it. A status outside the machine cannot move, like a final one. */
  function Rank(status: Option<string>): nat {
    if status == Some("pending") then 0 else if status == Some("running") then 1 else 2
  }

  /** With both statuses present the guard is the intended machine. */
  lemma GuardOnPresentStatuses(before: Row, after: Row)
    requires before.status.Some? && after.status.Some?
    ensures Guard(before, after) == Accepted
      <==> (&& SameInputs(before, after)
            && Follows(before.status.value, after.status.value)
            && (after.status.value == "completed" ==> after.outputManifest.Some? && after.outputManifestHash.Some?))
  {
  }

  predicate Fills(status: Option<string>, s: string) {
    status == None || status == Some(s)
  }

  predicate FillableTransition(o: Option<string>, n: Option<string>) {
    || (Fills(o, "pending") && Fills(n, "running"))
    || (Fills(o, "running") && (Fills(n, "completed") || Fills(n, "failed")))
  }

  lemma FillableIff(o: Option<string>, n: Option<string>)
    ensures FillableTransition(o, n) <==> exists a, b :: Fills(o, a) && Fills(n, b) && Follows(a, b)
  {
    assert Follows("pending", "running") && Follows("running", "completed") && Follows("running", "failed");
  }

  lemma NotRefutedIff(before: Row, after: Row)
    ensures Not(TransitionAllowed(before, after)) != True <==> FillableTransition(before.status, after.status)
  {
  }

  /** In general it lets through every transition that some reading of the NULLs would make legal, and asks for the
      manifest only of a status that is present. */
  lemma GuardReadsNullAsAnyStatus(before: Row, after: Row)
    ensures Guard(before, after) == Accepted
      <==> (&& SameInputs(before, after)
            && (exists a, b :: Fills(before.status, a) && Fills(after.status, b) && Follows(a, b))
            && (after.status == Some("completed") ==> after.outputManifest.Some? && after.outputManifestHash.Some?))
  {
    FillableIff(before.status, after.status);
    NotRefutedIff(before, after);
  }

  /** So the guard alone would let a run go back from running to running through a NULL status, any number of times. It
      is the NOT NULL constraint that refuses the first of the two updates. */
  lemma GuardAloneLetsARunGoBack(running: Row, blank: Row)
    requires running.status == Some("running") && blank == running.(status := None)
    ensures Guard(running, blank) == Accepted && Guard(blank, running) == Accepted
    ensures forall rows, i: nat :: i < |rows| && rows[i] == running ==> Decide(rows, Update(i, blank)) != Accepted
  {
    forall rows: seq<Row>, i: nat | i < |rows| && rows[i] == running
      ensures Decide(rows, Update(i, blank)) != Accepted
    {
      assert rows[i := blank][i] == blank;
    }
  }

  // ----- every sequence of attempts

  lemma StepKeepsConstraints(rows: seq<Row>, a: Attempt)
    requires Constrained(rows)
    ensures Constrained(Step(rows, a))
  {
  }

  /** What one attempt can do to one row: nothing, or one step of the status machine with the inputs unchanged. */
  lemma StepOnRow(rows: seq<Row>, a: Attempt, i: nat)
    requires Constrained(rows) && i < |rows|
    ensures |rows| <= |Step(rows, a)| && Step(rows, a)[i].status.Some?
    ensures !Updates(rows, a, i) ==> Step(rows, a)[i] == rows[i]
    ensures Updates(rows, a, i) ==> LegalStep(rows[i], Step(rows, a)[i])
  {
    StepKeepsConstraints(rows, a);
    if Updates(rows, a, i) {
      assert rows[i := a.to][i] == a.to;
      GuardOnPresentStatuses(rows[i], a.to);
    }
  }

  predicate Updates(rows: seq<Row>, a: Attempt, i: nat) {
    a.Update? && a.at == i && Decide(rows, a) == Accepted
  }

  predicate LegalStep(before: Row, after: Row) {
    && SameInputs(before, after)
    && before.status.Some? && after.status.Some?
    && Follows(before.status.value, after.status.value)
    && (after.status.value == "completed" ==> after.outputManifest.Some? && after.outputManifestHash.Some?)
  }

  function AcceptedUpdates(rows: seq<Row>, attempts: seq<Attempt>, i: nat): nat
    decreases |attempts|
  {
    if attempts == [] then 0
    else (if Updates(rows, attempts[0], i) then 1 else 0) + AcceptedUpdates(Step(rows, attempts[0]), attempts[1..], i)
  }

  /** The statuses of row `i`: the one it starts with, then one more for each accepted update. */
  function StatusHistory(rows: seq<Row>, attempts: seq<Attempt>, i: nat): seq<Option<string>>
    decreases |attempts|
  {
    if attempts == [] then if i < |rows| then [rows[i].status] else []
    else
      (if Updates(rows, attempts[0], i) && i < |rows| then [rows[i].status] else [])
      + StatusHistory(Step(rows, attempts[0]), attempts[1..], i)
  }

  lemma {:induction false} RunKeepsConstraints(rows: seq<Row>, attempts: seq<Attempt>)
    requires Constrained(rows)
    ensures Constrained(Run(rows, attempts))
    decreases |attempts|
  {
    if attempts != [] {
      StepKeepsConstraints(rows, attempts[0]);
      RunKeepsConstraints(Step(rows, attempts[0]), attempts[1..]);
    }
  }

  /** Whatever is attempted, a row stays, keeps its inputs, moves through the machine one rank per accepted update, is
      otherwise untouched, and has a manifest if it was completed by an update. */
  lemma {:induction false} RunSafety(rows: seq<Row>, attempts: seq<Attempt>, i: nat)
    requires Constrained(rows) && i < |rows|
    ensures |rows| <= |Run(rows, attempts)|
    ensures var before, after := rows[i], Run(rows, attempts)[i];
      && SameInputs(before, after)
      && Rank(after.status) == Rank(before.status) + AcceptedUpdates(rows, attempts, i)
      && (AcceptedUpdates(rows, attempts, i) == 0 ==> after == before)
      && (before.status != Some("completed") && after.status == Some("completed")
          ==> after.outputManifest.Some? && after.outputManifestHash.Some?)
    decreases |attempts|
  {
    if attempts != [] {
      StepKeepsConstraints(rows, attempts[0]);
      StepOnRow(rows, attempts[0], i);
      RunSafety(Step(rows, attempts[0]), attempts[1..], i);
    }
  }

  /** At most two updates of a row are ever accepted, and a completed or failed row never changes again. */
  lemma FinishedRowsNeverChange(rows: seq<Row>, attempts: seq<Attempt>, i: nat)
    requires Constrained(rows) && i < |rows|
    ensures AcceptedUpdates(rows, attempts, i) <= 2 - Rank(rows[i].status)
    ensures |rows| <= |Run(rows, attempts)|
    ensures rows[i].status in {Some("completed"), Some("failed")} ==> Run(rows, attempts)[i] == rows[i]
  {
    RunSafety(rows, attempts, i);
  }

  predicate MachinePath(h: seq<Option<string>>) {
    |h| > 1 ==> h[0].Some? && h[1].Some? && Follows(h[0].value, h[1].value) && MachinePath(h[1..])
  }

  lemma HistoryStep(rows: seq<Row>, attempts: seq<Attempt>, i: nat)
    requires Constrained(rows) && i < |rows| && attempts != []
    ensures var rest := StatusHistory(Step(rows, attempts[0]), attempts[1..], i);
      if Updates(rows, attempts[0], i) then StatusHistory(rows, attempts, i) == [rows[i].status] + rest
      else StatusHistory(rows, attempts, i) == rest
  {
  }

  lemma PathCons(a: Option<string>, h: seq<Option<string>>)
    requires h != [] && MachinePath(h) && a.Some? && h[0].Some? && Follows(a.value, h[0].value)
    ensures MachinePath([a] + h)
  {
    assert ([a] + h)[1..] == h;
  }

  /** The statuses a row goes through form a path of the machine that starts with the status it had, ends in the status
      it has, and is as long as the accepted updates say. */
  lemma {:induction false} HistoryFollowsTheMachine(rows: seq<Row>, attempts: seq<Attempt>, i: nat)
    requires Constrained(rows) && i < |rows|
    ensures var h := StatusHistory(rows, attempts, i);
      && |h| == AcceptedUpdates(rows, attempts, i) + 1
      && h[0] == rows[i].status
      && |rows| <= |Run(rows, attempts)| && h[|h| - 1] == Run(rows, attempts)[i].status
      && MachinePath(h)
    decreases |attempts|
  {
    if attempts != [] {
      var next := Step(rows, attempts[0]);
      StepKeepsConstraints(rows, attempts[0]);
      StepOnRow(rows, attempts[0], i);
      HistoryFollowsTheMachine(next, attempts[1..], i);
      HistoryStep(rows, attempts, i);
      if Updates(rows, attempts[0], i) {
        PathCons(rows[i].status, StatusHistory(next, attempts[1..], i));
      }
    }
  }

  lemma UpdateAccepted(rows: seq<Row>, i: nat, row: Row)
    requires Constrained(rows) && i < |rows| && Guard(rows[i], row) == Accepted && NotNullColumnsSet(row)
    requires row.id == rows[i].id && row.inputHash == rows[i].inputHash
    requires row.outputManifestHash.Some? ==>
      forall j :: 0 <= j < |rows| && j != i ==> rows[j].outputManifestHash != row.outputManifestHash
    ensures Constrained(rows[i := row])
    ensures Step(rows, Update(i, row)) == rows[i := row] && Updates(rows, Update(i, row), i)
  {
    var next := rows[i := row];
    assert forall j :: 0 <= j < |rows| ==> next[j] == if j == i then row else rows[j];
    assert Constrained(next);
  }

  lemma TwoSteps(rows: seq<Row>, a: Attempt, b: Attempt, i: nat)
    requires Updates(rows, a, i) && Updates(Step(rows, a), b, i)
    ensures Run(rows, [a, b]) == Step(Step(rows, a), b)
    ensures AcceptedUpdates(rows, [a, b], i) == 2
  {
    assert [a, b][1..] == [b] && [b][1..] == [];
    var middle := Step(rows, a);
    assert Run(middle, [b]) == Run(Step(middle, b), []);
    assert AcceptedUpdates(middle, [b], i) == 1;
  }

  /** The bound of two is met: any row inserted as pending can be run and completed. */
  lemma PendingRowsCanComplete(rows: seq<Row>, i: nat, manifest: Json, hash: string)
    requires Constrained(rows) && i < |rows| && rows[i].status == Some("pending")
    requires forall j :: 0 <= j < |rows| && j != i ==> rows[j].outputManifestHash != Some(hash)
    ensures exists attempts ::
      && |attempts| == 2
      && AcceptedUpdates(rows, attempts, i) == 2
      && i < |Run(rows, attempts)|
      && Run(rows, attempts)[i] ==
           rows[i].(status := Some("completed"), outputManifest := Some(manifest), outputManifestHash := Some(hash))
  {
    var started := rows[i].(status := Some("running"));
    var done := started.(status := Some("completed"), outputManifest := Some(manifest),
                         outputManifestHash := Some(hash));
    var a, b := Update(i, started), Update(i, done);
    GuardOnPresentStatuses(rows[i], started);
    GuardOnPresentStatuses(started, done);
    UpdateAccepted(rows, i, started);
    UpdateAccepted(rows[i := started], i, done);
    TwoSteps(rows, a, b, i);
  }

  // ----- what the table accepts, column by column

  /** The two rows differ at most in the six columns a run writes. */
  predicate OnlyOutputsDiffer(a: Row, b: Row) {
    b == a.(status := b.status, outputManifest := b.outputManifest, outputManifestHash := b.outputManifestHash,
            failureDocument := b.failureDocument, startedAt := b.startedAt, completedAt := b.completedAt)
  }

  /** The whole effect of any attempts on a row is in those six columns. */
  lemma OnlyOutputsMove(rows: seq<Row>, attempts: seq<Attempt>, i: nat)
    requires Constrained(rows) && i < |rows|
    ensures i < |Run(rows, attempts)| && OnlyOutputsDiffer(rows[i], Run(rows, attempts)[i])
  {
    RunSafety(rows, attempts, i);
  }

  predicate Moves(before: Row, after: Row) {
    || (before.status == Some("pending") && after.status == Some("running"))
    || (before.status == Some("running") && after.status in {Some("completed"), Some("failed")})
  }

  /** An update of a row is accepted exactly when it starts a pending run or ends a running one, writes no more than the
      six columns, gives a completed run its manifest and the manifest's hash, and takes no hash of another run. */
  lemma UpdateAcceptedIff(rows: seq<Row>, i: nat, row: Row)
    requires Constrained(rows) && i < |rows|
    ensures Decide(rows, Update(i, row)) == Accepted <==>
      && OnlyOutputsDiffer(rows[i], row)
      && Moves(rows[i], row)
      && (row.status == Some("completed") ==> row.outputManifest != None && row.outputManifestHash != None)
      && (row.outputManifestHash != None ==>
            forall j :: 0 <= j < |rows| && j != i ==> rows[j].outputManifestHash != row.outputManifestHash)
  {
    assert rows[i := row][i] == row;
    if row.status.Some? {
      GuardOnPresentStatuses(rows[i], row);
    }
    if Decide(rows, Update(i, row)) == Accepted {
      var next := rows[i := row];
      assert forall j :: 0 <= j < |rows| && j != i ==> next[j] == rows[j] && Apart(row, next[j]);
    } else if && Guard(rows[i], row) == Accepted && row.status.Some?
              && (row.outputManifestHash.Some? ==>
                    forall j :: 0 <= j < |rows| && j != i ==> rows[j].outputManifestHash != row.outputManifestHash)
    {
      UpdateAccepted(rows, i, row);
    }
  }

  /** A new run is accepted exactly when its ten required columns are set and no run has its key, its input hash or, if
      it has one, its manifest hash. Its status is not looked at. */
  lemma InsertAcceptedIff(rows: seq<Row>, row: Row)
    requires Constrained(rows)
    ensures Decide(rows, Insert(row)) == Accepted <==>
      && None !in {row.id, row.specificationId, row.specificationHash, row.generatorKey, row.generatorVersion,
                   row.inputHash, row.status, row.requestedBy, row.createdAt}
      && row.requestDocument != None
      && forall other :: other in rows ==>
           && other.id != row.id && other.inputHash != row.inputHash
           && (row.outputManifestHash != None ==> other.outputManifestHash != row.outputManifestHash)
  {
    var all := rows + [row];
    assert all[|rows|] == row && forall i :: 0 <= i < |rows| ==> all[i] == rows[i];
    if Constrained(all) {
      assert forall i :: 0 <= i < |rows| ==> Apart(all[i], all[|rows|]) && Apart(all[|rows|], all[i]);
    }
  }

  /** The key, the input hash and the manifest hashes identify runs, whatever was attempted on an empty table. */
  lemma RunsStayUnique(attempts: seq<Attempt>, i: nat, j: nat)
    requires i < j < |Run([], attempts)|
    ensures var a, b := Run([], attempts)[i], Run([], attempts)[j];
      && a.id.Some? && a.inputHash.Some? && a.status.Some?
      && a.id != b.id && a.inputHash != b.inputHash
      && (a.outputManifestHash == b.outputManifestHash ==> a.outputManifestHash == None)
  {
    RunKeepsConstraints([], attempts);
    assert Apart(Run([], attempts)[i], Run([], attempts)[j]);
  }

  /** The trigger names the first of its three rules that is broken. */
  lemma MessageIff(before: Row, after: Row)
    requires before.status != None && after.status != None
    ensures Guard(before, after) == Rejected("generation run input is immutable") <==> !OnlyOutputsDiffer(before, after)
    ensures Guard(before, after) == Rejected("invalid generation run transition") <==>
      OnlyOutputsDiffer(before, after) && !Moves(before, after)
    ensures Guard(before, after) == Rejected("completed generation requires immutable output manifest") <==>
      && OnlyOutputsDiffer(before, after) && Moves(before, after)
      && after.status == Some("completed") && (after.outputManifest == None || after.outputManifestHash == None)
  {
    var i, t, m := "generation run input is immutable", "invalid generation run transition",
      "completed generation requires immutable output manifest";
    assert i[0] == 'g' && t[0] == 'i';
    assert |i| == |t| == 33 && |m| == 55;
  }

  /** And any run under way can fail, with any failure document. */
  lemma RunningRowsCanFail(rows: seq<Row>, i: nat, failure: Json)
    requires Constrained(rows) && i < |rows| && rows[i].status == Some("running")
    ensures var row := rows[i].(status := Some("failed"), failureDocument := Some(failure));
      Decide(rows, Update(i, row)) == Accepted && Run(rows, [Update(i, row)]) == rows[i := row]
  {
    var row := rows[i].(status := Some("failed"), failureDocument := Some(failure));
    assert forall j :: 0 <= j < |rows| && j != i ==> Apart(rows[i], rows[j]);
    UpdateAcceptedIff(rows, i, row);
    assert [Update(i, row)][1..] == [];
    assert Run(rows, [Update(i, row)]) == Run(Step(rows, Update(i, row)), []);
  }
}
