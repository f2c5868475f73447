/**
 * Workspace leases: idempotent allocation (insert on conflict do nothing, then the canonical select, in one
 * transaction) and state transitions, interleaved by any number of workers on one table.
 */
module WorkspaceLease {
  import opened Options

  type Id = string
  type AttemptId = nat

  datatype LeaseState = ALLOCATED | RELEASE_REQUESTED | RELEASED | ORPHANED | FAILED_CLEANUP

  /** A lease row; the three flags say which of its timestamps are set. */
  datatype Row = Row(run: Id, installation: Id, state: LeaseState,
                     releaseRequestedAt: bool, releasedAt: bool, cleanupFailedAt: bool)

  predicate IsActive(state: LeaseState) {
    state.ALLOCATED? || state.RELEASE_REQUESTED?
  }

  /** The CHECK constraints of core.workspace_leases. */
  predicate Checks(r: Row) {
    && (r.state.FAILED_CLEANUP? <==> r.cleanupFailedAt)
    && (r.state.RELEASE_REQUESTED? || r.state.RELEASED? || r.state.FAILED_CLEANUP? ==> r.releaseRequestedAt)
    && (r.state.RELEASED? <==> r.releasedAt)
  }

  /** An allocation attempt: not yet inserted, inserted (with its own uncommitted row, if it made one), over. */
  datatype Phase = Started | Inserted(own: Option<Row>) | Returned(id: Id) | Threw

  datatype Attempt = Attempt(run: Id, installation: Id, candidate: Id, phase: Phase)

  datatype Db = Db(rows: map<Id, Row>, attempts: map<AttemptId, Attempt>, events: seq<(Id, LeaseState)>)

  datatype Outcome = Applied | AlreadyApplied | StateDrift | CrossInstallation | Violation | Blocked

  // ----- what one statement sees and does

  predicate ActiveFor(rows: map<Id, Row>, id: Id, run: Id) {
    id in rows && rows[id].run == run && IsActive(rows[id].state)
  }

  /** An uncommitted row of the run makes every writer of the same index entry wait. */
  predicate HasPending(db: Db, run: Id) {
    exists a :: a in db.attempts && db.attempts[a].run == run
                && db.attempts[a].phase.Inserted? && db.attempts[a].phase.own.Some?
  }

  predicate Taken(db: Db, id: Id) {
    id in db.rows || exists a :: a in db.attempts && db.attempts[a].candidate == id
                                 && db.attempts[a].phase.Inserted? && db.attempts[a].phase.own.Some?
  }

  ghost predicate SomeActive(rows: map<Id, Row>, run: Id) {
    exists id :: ActiveFor(rows, id, run)
  }

  function NewRow(a: Attempt): Row {
    Row(a.run, a.installation, ALLOCATED, false, false, false)
  }

  ghost function SetPhase(db: Db, a: AttemptId, phase: Phase): Db
    requires a in db.attempts
  {
    db.(attempts := db.attempts[a := db.attempts[a].(phase := phase)])
  }

  /** INSERT ... ON CONFLICT (run_id) WHERE active DO NOTHING; a duplicate primary key still fails. */
  ghost function Insert(db: Db, a: AttemptId): Db
    requires a in db.attempts
  {
    var t := db.attempts[a];
    if HasPending(db, t.run) then db
    else if SomeActive(db.rows, t.run) then SetPhase(db, a, Inserted(None))
    else if Taken(db, t.candidate) then SetPhase(db, a, Threw)
    else SetPhase(db, a, Inserted(Some(NewRow(t))))
  }

  /** The canonical select; the transaction commits with its answer, or rolls back when there is none. */
  ghost function Select(db: Db, a: AttemptId): Db
    requires a in db.attempts && db.attempts[a].phase.Inserted?
  {
    var t := db.attempts[a];
    if t.phase.own.Some? then
      SetPhase(db, a, Returned(t.candidate)).(rows := db.rows[t.candidate := t.phase.own.value])
    else if SomeActive(db.rows, t.run) then
      var id :| ActiveFor(db.rows, id, t.run);
      SetPhase(db, a, Returned(id))
    else SetPhase(db, a, Threw)
  }

  /** The one UPDATE of a transition: the state, its timestamp, and the cleared cleanup mark. */
  function Moved(r: Row, to: LeaseState): Row {
    Row(r.run, r.installation, to,
        r.releaseRequestedAt || to.RELEASE_REQUESTED?,
        r.releasedAt || to.RELEASED?,
        if to.FAILED_CLEANUP? then true else if r.state.FAILED_CLEANUP? then false else r.cleanupFailedAt)
  }

  /** Whether the partial unique index admits `id` becoming active. */
  ghost predicate IndexAdmits(db: Db, id: Id, r: Row) {
    IsActive(r.state) ==> forall other :: other != id ==> !ActiveFor(db.rows, other, r.run)
  }

  ghost function TransitionOutcome(db: Db, id: Id, from: LeaseState, to: LeaseState, expected: Option<Id>): Outcome {
    if id !in db.rows then StateDrift
    else
      var r := db.rows[id];
      if expected.Some? && expected.value != r.installation then CrossInstallation
      else if r.state == to then AlreadyApplied
      else if r.state != from then StateDrift
      else if IsActive(to) && !IsActive(r.state) && HasPending(db, r.run) then Blocked
      else if !Checks(Moved(r, to)) || !IndexAdmits(db, id, Moved(r, to)) then Violation
      else Applied
  }

  ghost function Transition(db: Db, id: Id, from: LeaseState, to: LeaseState, expected: Option<Id>): Db {
    if TransitionOutcome(db, id, from, to, expected).Applied?
    then db.(rows := db.rows[id := Moved(db.rows[id], to)], events := db.events + [(id, to)])
    else db
  }

  // ----- interleavings

  datatype Action =
    | Begin(a: AttemptId, run: Id, installation: Id, candidate: Id)
    | DoInsert(a: AttemptId)
    | DoSelect(a: AttemptId)
    | DoTransition(id: Id, from: LeaseState, to: LeaseState, expected: Option<Id>)

  /** One step of one worker; a step that is not that worker's turn changes nothing. */
  ghost function Next(db: Db, x: Action): Db {
    match x
    case Begin(a, run, installation, candidate) =>
      if a in db.attempts then db
      else db.(attempts := db.attempts[a := Attempt(run, installation, candidate, Started)])
    case DoInsert(a) =>
      if a in db.attempts && db.attempts[a].phase.Started? then Insert(db, a) else db
    case DoSelect(a) =>
      if a in db.attempts && db.attempts[a].phase.Inserted? then Select(db, a) else db
    case DoTransition(id, from, to, expected) => Transition(db, id, from, to, expected)
  }

  ghost function Run(db: Db, xs: seq<Action>): Db
    decreases |xs|
  {
    if xs == [] then db else Run(Next(db, xs[0]), xs[1..])
  }

  const EMPTY: Db := Db(map[], map[], [])

  // ----- safety over every run

  predicate OwnsPending(db: Db, a: AttemptId) {
    a in db.attempts && db.attempts[a].phase.Inserted? && db.attempts[a].phase.own.Some?
  }

  ghost predicate RowsSafe(rows: map<Id, Row>) {
    && (forall id :: id in rows ==> Checks(rows[id]))
    && (forall i, j, run :: ActiveFor(rows, i, run) && ActiveFor(rows, j, run) ==> i == j)
  }

  ghost predicate PendingSafe(db: Db, a: AttemptId)
    requires OwnsPending(db, a)
  {
    && db.attempts[a].phase.own.value == NewRow(db.attempts[a])
    && db.attempts[a].candidate !in db.rows
    && !SomeActive(db.rows, db.attempts[a].run)
  }

  ghost predicate PendingApart(db: Db, a: AttemptId, b: AttemptId)
    requires OwnsPending(db, a) && OwnsPending(db, b)
  {
    db.attempts[a].run != db.attempts[b].run && db.attempts[a].candidate != db.attempts[b].candidate
  }

  /** At most one active row for a run, counting the uncommitted ones; every row passes the checks. */
  ghost predicate Safe(db: Db) {
    && RowsSafe(db.rows)
    && (forall a :: OwnsPending(db, a) ==> PendingSafe(db, a))
    && (forall a, b :: OwnsPending(db, a) && OwnsPending(db, b) && a != b ==> PendingApart(db, a, b))
  }

  lemma {:induction false} InsertSafe(db: Db, a: AttemptId)
    requires Safe(db) && a in db.attempts && db.attempts[a].phase.Started?
    ensures Safe(Insert(db, a))
  {
    var t, after := db.attempts[a], Insert(db, a);
    forall b | OwnsPending(after, b)
      ensures PendingSafe(after, b)
    {
      if b != a { assert OwnsPending(db, b); }
    }
    forall b, c | OwnsPending(after, b) && OwnsPending(after, c) && b != c
      ensures PendingApart(after, b, c)
    {
      assert b != a ==> OwnsPending(db, b);
      assert c != a ==> OwnsPending(db, c);
    }
  }

  lemma {:induction false} SelectOwnSafe(db: Db, a: AttemptId)
    requires Safe(db) && OwnsPending(db, a)
    ensures Safe(Select(db, a))
  {
    var t, after := db.attempts[a], Select(db, a);
    assert PendingSafe(db, a);
    forall b | OwnsPending(after, b)
      ensures PendingSafe(after, b)
    {
      assert OwnsPending(db, b) && PendingApart(db, a, b) && PendingSafe(db, b);
      StillInactive(db.rows, t.candidate, NewRow(t), db.attempts[b].run);
    }
    forall b, c | OwnsPending(after, b) && OwnsPending(after, c) && b != c
      ensures PendingApart(after, b, c)
    {
      assert OwnsPending(db, b) && OwnsPending(db, c) && PendingApart(db, b, c);
    }
    AddActive(db.rows, t.candidate, NewRow(t));
  }

  lemma {:induction false} AddActive(rows: map<Id, Row>, id: Id, r: Row)
    requires RowsSafe(rows) && id !in rows && Checks(r) && !SomeActive(rows, r.run)
    ensures RowsSafe(rows[id := r])
  {
    var after := rows[id := r];
    forall i, j, run | ActiveFor(after, i, run) && ActiveFor(after, j, run)
      ensures i == j
    {
      assert i != id ==> ActiveFor(rows, i, run);
      assert j != id ==> ActiveFor(rows, j, run);
    }
  }

  lemma {:induction false} StillInactive(rows: map<Id, Row>, id: Id, r: Row, run: Id)
    requires !SomeActive(rows, run) && r.run != run
    ensures !SomeActive(rows[id := r], run)
  {
    var after := rows[id := r];
    assert forall i :: ActiveFor(after, i, run) ==> ActiveFor(rows, i, run);
  }

  lemma {:induction false} SelectSafe(db: Db, a: AttemptId)
    requires Safe(db) && a in db.attempts && db.attempts[a].phase.Inserted?
    ensures Safe(Select(db, a))
  {
    if OwnsPending(db, a) {
      SelectOwnSafe(db, a);
    } else {
      var after := Select(db, a);
      forall b | OwnsPending(after, b)
        ensures PendingSafe(after, b)
      {
        assert OwnsPending(db, b) && PendingSafe(db, b);
      }
      forall b, c | OwnsPending(after, b) && OwnsPending(after, c) && b != c
        ensures PendingApart(after, b, c)
      {
        assert OwnsPending(db, b) && OwnsPending(db, c) && PendingApart(db, b, c);
      }
    }
  }

  lemma {:induction false} TransitionSafe(db: Db, id: Id, from: LeaseState, to: LeaseState, expected: Option<Id>)
    requires Safe(db)
    ensures Safe(Transition(db, id, from, to, expected))
  {
    if TransitionOutcome(db, id, from, to, expected).Applied? {
      var after := Transition(db, id, from, to, expected);
      forall i, run | ActiveFor(after.rows, i, run) && i != id
        ensures ActiveFor(db.rows, i, run)
      {
      }
      forall a | OwnsPending(after, a)
        ensures PendingSafe(after, a)
      {
        assert OwnsPending(db, a) && PendingSafe(db, a);
        forall i | ActiveFor(after.rows, i, db.attempts[a].run)
          ensures ActiveFor(db.rows, i, db.attempts[a].run)
        {
          assert HasPending(db, db.attempts[a].run);
        }
      }
      forall a, b | OwnsPending(after, a) && OwnsPending(after, b) && a != b
        ensures PendingApart(after, a, b)
      {
        assert OwnsPending(db, a) && OwnsPending(db, b) && PendingApart(db, a, b);
      }
    }
  }

  lemma {:induction false} BeginSafe(db: Db, x: Action)
    requires Safe(db) && x.Begin?
    ensures Safe(Next(db, x))
  {
    var after := Next(db, x);
    forall b | OwnsPending(after, b)
      ensures PendingSafe(after, b)
    {
      assert OwnsPending(db, b) && PendingSafe(db, b);
    }
    forall b, c | OwnsPending(after, b) && OwnsPending(after, c) && b != c
      ensures PendingApart(after, b, c)
    {
      assert OwnsPending(db, b) && OwnsPending(db, c) && PendingApart(db, b, c);
    }
  }

  lemma {:induction false} NextSafe(db: Db, x: Action)
    requires Safe(db)
    ensures Safe(Next(db, x))
  {
    match x {
      case Begin(_, _, _, _) => BeginSafe(db, x);
      case DoInsert(a) => if a in db.attempts && db.attempts[a].phase.Started? { InsertSafe(db, a); }
      case DoSelect(a) => if a in db.attempts && db.attempts[a].phase.Inserted? { SelectSafe(db, a); }
      case DoTransition(id, from, to, expected) => TransitionSafe(db, id, from, to, expected);
    }
  }

  lemma {:induction false} RunSafe(db: Db, xs: seq<Action>)
    requires Safe(db)
    ensures Safe(Run(db, xs))
    decreases |xs|
  {
    if xs != [] {
      NextSafe(db, xs[0]);
      RunSafe(Next(db, xs[0]), xs[1..]);
    }
  }

  /** In every reachable state a run has at most one active lease. */
  lemma {:induction false} AtMostOneActive(xs: seq<Action>, i: Id, j: Id, run: Id)
    requires ActiveFor(Run(EMPTY, xs).rows, i, run) && ActiveFor(Run(EMPTY, xs).rows, j, run)
    ensures i == j
  {
    RunSafe(EMPTY, xs);
  }

  // ----- idempotence

  /** The step takes row `id` out of the active set. */
  ghost predicate Deactivates(db: Db, x: Action, id: Id) {
    x.DoTransition? && x.id == id && !IsActive(x.to)
    && TransitionOutcome(db, x.id, x.from, x.to, x.expected).Applied?
  }

  /** No step of the run takes row `id` out of the active set. */
  ghost predicate NeverDeactivated(db: Db, xs: seq<Action>, id: Id)
    decreases |xs|
  {
    xs == [] || (!Deactivates(db, xs[0], id) && NeverDeactivated(Next(db, xs[0]), xs[1..], id))
  }

  function RowsOf(rows: map<Id, Row>, run: Id): set<Id> {
    set id | id in rows && rows[id].run == run
  }

  /** While a run's lease stays active no step gives the run another row, pending or committed. */
  lemma {:induction false} ActiveStays(db: Db, x: Action, id: Id, run: Id)
    requires Safe(db) && ActiveFor(db.rows, id, run) && !Deactivates(db, x, id)
    ensures ActiveFor(Next(db, x).rows, id, run)
    ensures RowsOf(Next(db, x).rows, run) == RowsOf(db.rows, run)
  {
    if x.DoSelect? && OwnsPending(db, x.a) {
      assert PendingSafe(db, x.a);
    }
  }

  lemma {:induction false} ActiveStaysLong(db: Db, xs: seq<Action>, id: Id, run: Id)
    requires Safe(db) && ActiveFor(db.rows, id, run) && NeverDeactivated(db, xs, id)
    ensures ActiveFor(Run(db, xs).rows, id, run) && Safe(Run(db, xs))
    ensures RowsOf(Run(db, xs).rows, run) == RowsOf(db.rows, run)
    decreases |xs|
  {
    if xs != [] {
      ActiveStays(db, xs[0], id, run);
      NextSafe(db, xs[0]);
      ActiveStaysLong(Next(db, xs[0]), xs[1..], id, run);
    }
  }

  /** A select while the run's lease is active answers with that lease, whatever the attempt's candidate was. */
  lemma {:induction false} SelectFinds(db: Db, a: AttemptId, id: Id)
    requires Safe(db) && a in db.attempts && db.attempts[a].phase.Inserted?
    requires ActiveFor(db.rows, id, db.attempts[a].run)
    ensures Select(db, a).attempts[a].phase == Returned(id)
    ensures Select(db, a).rows == db.rows
  {
    assert OwnsPending(db, a) ==> PendingSafe(db, a);
  }

  /** What an attempt returns is the run's active lease at that moment. */
  lemma {:induction false} ReturnedIsActive(db: Db, a: AttemptId)
    requires Safe(db) && a in db.attempts && db.attempts[a].phase.Inserted?
    requires Select(db, a).attempts[a].phase.Returned?
    ensures ActiveFor(Select(db, a).rows, Select(db, a).attempts[a].phase.id, db.attempts[a].run)
  {
    if OwnsPending(db, a) {
      assert PendingSafe(db, a);
    }
  }

  /**
   * Two allocations of one run: if the first one's lease is not deactivated before the second one's select,
   * they return the same workspace, and nothing between the two adds a row to the run.
   */
  lemma {:induction false} SameWorkspace(db: Db, a: AttemptId, xs: seq<Action>, b: AttemptId)
    requires Safe(db) && a in db.attempts && db.attempts[a].phase.Inserted?
    requires Select(db, a).attempts[a].phase.Returned?
    requires var id := Select(db, a).attempts[a].phase.id; NeverDeactivated(Select(db, a), xs, id)
    requires var later := Run(Select(db, a), xs);
      && b in later.attempts && later.attempts[b].phase.Inserted?
      && later.attempts[b].run == db.attempts[a].run
    ensures var later := Run(Select(db, a), xs);
      && Select(later, b).attempts[b].phase == Returned(Select(db, a).attempts[a].phase.id)
      && RowsOf(Select(later, b).rows, db.attempts[a].run) == RowsOf(Select(db, a).rows, db.attempts[a].run)
  {
    var id, run := Select(db, a).attempts[a].phase.id, db.attempts[a].run;
    SelectSafe(db, a);
    ReturnedIsActive(db, a);
    ActiveStaysLong(Select(db, a), xs, id, run);
    SelectFinds(Run(Select(db, a), xs), b, id);
  }

  /** An allocation adds at most its own candidate, and only to its own run. */
  lemma {:induction false} AddsAtMostOne(db: Db, a: AttemptId, run: Id)
    requires a in db.attempts && db.attempts[a].phase.Inserted? && Safe(db)
    ensures RowsOf(Select(db, a).rows, run) <= RowsOf(db.rows, run) + {db.attempts[a].candidate}
    ensures run != db.attempts[a].run ==> RowsOf(Select(db, a).rows, run) == RowsOf(db.rows, run)
  {
    if OwnsPending(db, a) {
      assert PendingSafe(db, a);
    }
  }

  // ----- the error that "should be impossible"

  /** What an attempt knows between its insert and its select: its own row, or someone's active row. */
  lemma {:induction false} AfterInsert(db: Db, a: AttemptId)
    requires a in db.attempts && db.attempts[a].phase.Started? && Insert(db, a).attempts[a].phase.Inserted?
    ensures var after := Insert(db, a);
      OwnsPending(after, a) || SomeActive(after.rows, db.attempts[a].run)
  {
    if SomeActive(db.rows, db.attempts[a].run) {
      var id :| ActiveFor(db.rows, id, db.attempts[a].run);
      assert ActiveFor(Insert(db, a).rows, id, db.attempts[a].run);
    }
  }

  /** An attempt's own phase moves only when it is that attempt's turn. */
  ghost predicate NotTurnOf(xs: seq<Action>, a: AttemptId) {
    forall x :: x in xs ==> x != DoSelect(a)
  }

  lemma {:induction false} PhaseStays(db: Db, xs: seq<Action>, a: AttemptId)
    requires a in db.attempts && db.attempts[a].phase.Inserted? && NotTurnOf(xs, a)
    ensures a in Run(db, xs).attempts && Run(db, xs).attempts[a] == db.attempts[a]
    decreases |xs|
  {
    if xs != [] {
      assert xs[0] in xs && forall x :: x in xs[1..] ==> x in xs;
      PhaseStays(Next(db, xs[0]), xs[1..], a);
    }
  }

  /**
   * "No active lease after insert" is thrown only if the lease that made the insert a no-op was deactivated
   * between that insert and the select.
   */
  lemma {:induction false} ThrowsOnlyAfterDeactivation(db: Db, a: AttemptId, xs: seq<Action>)
    requires Safe(db) && a in db.attempts && db.attempts[a].phase.Started? && Insert(db, a).attempts[a].phase.Inserted?
    requires NotTurnOf(xs, a)
    requires var later := Run(Insert(db, a), xs);
      a in later.attempts && later.attempts[a].phase.Inserted? && Select(later, a).attempts[a].phase.Threw?
    ensures exists id :: ActiveFor(db.rows, id, db.attempts[a].run) && !NeverDeactivated(Insert(db, a), xs, id)
  {
    var after, run := Insert(db, a), db.attempts[a].run;
    InsertSafe(db, a);
    AfterInsert(db, a);
    PhaseStays(after, xs, a);
    RunSafe(after, xs);
    var id :| ActiveFor(after.rows, id, run);
    if NeverDeactivated(after, xs, id) {
      ActiveStaysLong(after, xs, id, run);
      SelectFinds(Run(after, xs), a, id);
    }
  }

  /** The step takes the run's active lease away. */
  ghost predicate TakesLease(db: Db, x: Action, run: Id) {
    x.DoTransition? && ActiveFor(db.rows, x.id, run) && Deactivates(db, x, x.id)
  }

  /** The step makes a lease of the run active: a transition into the active set, or another allocation's commit. */
  ghost predicate GivesLease(db: Db, x: Action, run: Id) {
    match x
    case DoTransition(id, from, to, expected) =>
      && id in db.rows && db.rows[id].run == run && IsActive(to)
      && TransitionOutcome(db, id, from, to, expected).Applied?
    case DoSelect(a) => OwnsPending(db, a) && db.attempts[a].run == run
    case _ => false
  }

  ghost predicate NoneGives(db: Db, xs: seq<Action>, run: Id)
    decreases |xs|
  {
    xs == [] || (!GivesLease(db, xs[0], run) && NoneGives(Next(db, xs[0]), xs[1..], run))
  }

  /** Some step takes the run's lease away, and no step after it gives the run another. */
  ghost predicate LeaseLost(db: Db, xs: seq<Action>, run: Id)
    decreases |xs|
  {
    && xs != []
    && (|| (TakesLease(db, xs[0], run) && NoneGives(Next(db, xs[0]), xs[1..], run))
        || LeaseLost(Next(db, xs[0]), xs[1..], run))
  }

  lemma {:induction false} NextActive(db: Db, x: Action, run: Id)
    requires Safe(db)
    ensures SomeActive(Next(db, x).rows, run)
       <==> GivesLease(db, x, run) || (SomeActive(db.rows, run) && !TakesLease(db, x, run))
  {
    var after := Next(db, x);
    if GivesLease(db, x, run) {
      var id := if x.DoTransition? then x.id else db.attempts[x.a].candidate;
      assert x.DoSelect? ==> PendingSafe(db, x.a);
      assert ActiveFor(after.rows, id, run);
    } else if SomeActive(db.rows, run) {
      var id :| ActiveFor(db.rows, id, run);
      if TakesLease(db, x, run) {
        assert x.id == id;
        assert forall i :: ActiveFor(after.rows, i, run) ==> ActiveFor(db.rows, i, run);
      } else {
        ActiveStays(db, x, id, run);
      }
    } else {
      assert x.DoSelect? && OwnsPending(db, x.a) ==> PendingSafe(db, x.a);
      assert forall i :: ActiveFor(after.rows, i, run) ==> ActiveFor(db.rows, i, run);
    }
  }

  lemma {:induction false} InactiveExactly(db: Db, xs: seq<Action>, run: Id)
    requires Safe(db)
    ensures !SomeActive(Run(db, xs).rows, run)
       <==> (!SomeActive(db.rows, run) && NoneGives(db, xs, run)) || LeaseLost(db, xs, run)
    decreases |xs|
  {
    if xs != [] {
      NextActive(db, xs[0], run);
      NextSafe(db, xs[0]);
      InactiveExactly(Next(db, xs[0]), xs[1..], run);
    }
  }

  /**
   * When the error is thrown: if and only if the insert was a no-op, a later step took the run's lease away, and
   * no step after that gave the run another one before the select.
   */
  lemma {:induction false} ThrowsExactly(db: Db, a: AttemptId, xs: seq<Action>)
    requires Safe(db) && a in db.attempts && db.attempts[a].phase.Started? && Insert(db, a).attempts[a].phase.Inserted?
    requires NotTurnOf(xs, a)
    ensures var after, later := Insert(db, a), Run(Insert(db, a), xs);
      && a in later.attempts && later.attempts[a].phase.Inserted?
      && (Select(later, a).attempts[a].phase.Threw?
          <==> !OwnsPending(after, a) && LeaseLost(after, xs, db.attempts[a].run))
  {
    var after, run := Insert(db, a), db.attempts[a].run;
    InsertSafe(db, a);
    AfterInsert(db, a);
    PhaseStays(after, xs, a);
    InactiveExactly(after, xs, run);
  }

  /** A run in which it is thrown: the lease of the first attempt is orphaned inside the transaction of the second. */
  function OrphanedInBetween(run: Id, installation: Id, w: Id, w': Id): seq<Action> {
    [Begin(1, run, installation, w), DoInsert(1), DoSelect(1),
     Begin(2, run, installation, w'), DoInsert(2),
     DoTransition(w, ALLOCATED, ORPHANED, Some(installation)), DoSelect(2)]
  }

  lemma {:induction false} RunStep(db: Db, xs: seq<Action>)
    requires xs != []
    ensures Run(db, xs) == Run(Next(db, xs[0]), xs[1..])
  {
  }

  /** The first attempt has returned with workspace `w`, and the second has begun. */
  ghost function OneAllocated(run: Id, installation: Id, w: Id, w': Id): Db {
    var first, second := Attempt(run, installation, w, Started), Attempt(run, installation, w', Started);
    Db(map[w := NewRow(first)], map[1 := first.(phase := Returned(w)), 2 := second], [])
  }

  lemma {:induction false} FirstAllocates(run: Id, installation: Id, w: Id, w': Id)
    ensures var xs := OrphanedInBetween(run, installation, w, w');
      Run(EMPTY, xs) == Run(OneAllocated(run, installation, w, w'), xs[4..])
  {
    var xs := OrphanedInBetween(run, installation, w, w');
    var first := Attempt(run, installation, w, Started);
    var db1 := Db(map[], map[1 := first], []);
    assert Next(EMPTY, xs[0]) == db1;
    var db2 := SetPhase(db1, 1, Inserted(Some(NewRow(first))));
    assert Next(db1, xs[1]) == db2 by { assert !SomeActive(db1.rows, run); }
    var db3 := SetPhase(db2, 1, Returned(w)).(rows := map[w := NewRow(first)]);
    assert Next(db2, xs[2]) == db3;
    assert Next(db3, xs[3]) == OneAllocated(run, installation, w, w');
    RunStep(EMPTY, xs);
    RunStep(db1, xs[1..]);
    RunStep(db2, xs[2..]);
    RunStep(db3, xs[3..]);
    assert xs[1..][1..] == xs[2..] && xs[2..][1..] == xs[3..] && xs[3..][1..] == xs[4..];
  }

  lemma {:induction false} SecondThrows(run: Id, installation: Id, w: Id, w': Id)
    ensures var xs := OrphanedInBetween(run, installation, w, w');
      var db := Run(OneAllocated(run, installation, w, w'), xs[4..]);
      2 in db.attempts && db.attempts[2].phase.Threw?
  {
    var xs, db4 := OrphanedInBetween(run, installation, w, w'), OneAllocated(run, installation, w, w');
    var db5 := SetPhase(db4, 2, Inserted(None));
    assert Next(db4, xs[4]) == db5 by { assert ActiveFor(db4.rows, w, run); }
    var db6 := Next(db5, xs[5]);
    assert db6.rows == map[w := Moved(db4.rows[w], ORPHANED)] && db6.attempts == db5.attempts;
    assert Next(db6, xs[6]).attempts[2].phase == Threw by { assert !SomeActive(db6.rows, run); }
    RunStep(db4, xs[4..]);
    RunStep(db5, xs[5..]);
    RunStep(db6, xs[6..]);
    assert xs[4..][1..] == xs[5..] && xs[5..][1..] == xs[6..] && xs[6..][1..] == [];
  }

  lemma {:induction false} ThrowsExample(run: Id, installation: Id, w: Id, w': Id)
    ensures var db := Run(EMPTY, OrphanedInBetween(run, installation, w, w'));
      2 in db.attempts && db.attempts[2].phase.Threw?
  {
    FirstAllocates(run, installation, w, w');
    SecondThrows(run, installation, w, w');
  }

  // ----- a whole allocation, from its beginning

  /** An open transaction holds an uncommitted row of the run, or under the workspace id. */
  ghost predicate Pends(db: Db, b: AttemptId, run: Id, id: Id) {
    && b in db.attempts && db.attempts[b].phase.Inserted? && db.attempts[b].phase.own.Some?
    && (db.attempts[b].run == run || db.attempts[b].candidate == id)
  }

  ghost predicate PendsRun(db: Db, b: AttemptId, run: Id) {
    b in db.attempts && db.attempts[b].phase.Inserted? && db.attempts[b].phase.own.Some? && db.attempts[b].run == run
  }

  /** Row `id` is the run's and stands in the partial unique index. */
  ghost predicate Leases(db: Db, id: Id, run: Id) {
    && id in db.rows && db.rows[id].run == run
    && (db.rows[id].state == ALLOCATED || db.rows[id].state == RELEASE_REQUESTED)
  }

  /** All of the insert's outcomes; committed rows and events never change. */
  lemma {:induction false} InsertExactly(db: Db, a: AttemptId)
    requires a in db.attempts
    ensures var t, after := db.attempts[a], Insert(db, a);
      && after.rows == db.rows && after.events == db.events && after.attempts.Keys == db.attempts.Keys
      && (forall b :: b in db.attempts && b != a ==> after.attempts[b] == db.attempts[b])
      && (after.attempts[a].run, after.attempts[a].installation, after.attempts[a].candidate)
         == (t.run, t.installation, t.candidate)
      && ((exists b :: PendsRun(db, b, t.run)) ==> after == db)
      && ((forall b :: !PendsRun(db, b, t.run)) && (exists id :: Leases(db, id, t.run))
          ==> after.attempts[a].phase == Inserted(None))
      && ((forall b :: !PendsRun(db, b, t.run)) && (forall id :: !Leases(db, id, t.run))
          && (t.candidate in db.rows || exists b :: Pends(db, b, t.run, t.candidate))
          ==> after.attempts[a].phase == Threw)
      && ((forall b :: !Pends(db, b, t.run, t.candidate)) && (forall id :: !Leases(db, id, t.run))
          && t.candidate !in db.rows
          ==> after.attempts[a].phase == Inserted(Some(Row(t.run, t.installation, ALLOCATED, false, false, false))))
  {
    var t := db.attempts[a];
    PendingIs(db, t.run, t.candidate);
    LeasesIs(db, t.run);
  }

  lemma {:induction false} PendingIs(db: Db, run: Id, id: Id)
    ensures HasPending(db, run) <==> exists b :: PendsRun(db, b, run)
    ensures HasPending(db, run) || Taken(db, id) <==> id in db.rows || exists b :: Pends(db, b, run, id)
  {
    if b :| PendsRun(db, b, run) {
      assert Pends(db, b, run, id);
    }
    forall b
      ensures PendsRun(db, b, run) || (OwnsPending(db, b) && db.attempts[b].candidate == id) <==> Pends(db, b, run, id)
    {
    }
    if HasPending(db, run) {
      var b :| b in db.attempts && db.attempts[b].run == run && OwnsPending(db, b);
      assert PendsRun(db, b, run);
    }
  }

  lemma {:induction false} LeasesIs(db: Db, run: Id)
    ensures SomeActive(db.rows, run) <==> exists id :: Leases(db, id, run)
  {
    forall id
      ensures ActiveFor(db.rows, id, run) <==> Leases(db, id, run)
    {
    }
  }

  /** The attempt's insert, whatever steps others take, and its select. */
  function Allocation(a: AttemptId, xs: seq<Action>): seq<Action> {
    [DoInsert(a)] + xs + [DoSelect(a)]
  }

  lemma {:induction false} RunAppend(db: Db, xs: seq<Action>, ys: seq<Action>)
    ensures Run(db, xs + ys) == Run(Run(db, xs), ys)
    decreases |xs|
  {
    if xs == [] {
      assert xs + ys == ys;
    } else {
      assert (xs + ys)[0] == xs[0] && (xs + ys)[1..] == xs[1..] + ys;
      RunAppend(Next(db, xs[0]), xs[1..], ys);
    }
  }

  lemma {:induction false} RunOne(db: Db, x: Action)
    ensures Run(db, [x]) == Next(db, x)
  {
    RunStep(db, [x]);
  }

  lemma {:induction false} AllocationIs(db: Db, a: AttemptId, xs: seq<Action>)
    requires a in db.attempts && db.attempts[a].phase.Started?
    ensures Run(db, Allocation(a, xs)) == Next(Run(Insert(db, a), xs), DoSelect(a))
  {
    RunAppend(db, [DoInsert(a)] + xs, [DoSelect(a)]);
    RunAppend(db, [DoInsert(a)], xs);
    RunOne(db, DoInsert(a));
    RunOne(Run(Insert(db, a), xs), DoSelect(a));
  }

  /**
   * A retry: an attempt that begins while the run has a lease, and no open transaction holds a row of the run, answers
   * that lease's workspace and adds no row, whatever the others do, unless they take the lease away.
   */
  lemma {:induction false} RetryReturns(db: Db, a: AttemptId, xs: seq<Action>, id: Id)
    requires Safe(db) && a in db.attempts && db.attempts[a].phase.Started?
    requires Leases(db, id, db.attempts[a].run) && forall b :: !PendsRun(db, b, db.attempts[a].run)
    requires NotTurnOf(xs, a) && NeverDeactivated(Next(db, DoInsert(a)), xs, id)
    ensures var later := Run(db, Allocation(a, xs));
      && a in later.attempts && later.attempts[a].phase == Returned(id)
      && RowsOf(later.rows, db.attempts[a].run) == RowsOf(db.rows, db.attempts[a].run)
  {
    var after, run := Insert(db, a), db.attempts[a].run;
    InsertExactly(db, a);
    InsertSafe(db, a);
    PhaseStays(after, xs, a);
    ActiveStaysLong(after, xs, id, run);
    SelectFinds(Run(after, xs), a, id);
    AllocationIs(db, a, xs);
  }

  /** While an attempt's own row is uncommitted, the others' steps give the run no row. */
  lemma {:induction false} PendingStays(db: Db, xs: seq<Action>, a: AttemptId)
    requires Safe(db) && OwnsPending(db, a) && NotTurnOf(xs, a)
    ensures Safe(Run(db, xs)) && OwnsPending(Run(db, xs), a) && Run(db, xs).attempts[a] == db.attempts[a]
    ensures RowsOf(Run(db, xs).rows, db.attempts[a].run) == RowsOf(db.rows, db.attempts[a].run)
    decreases |xs|
  {
    if xs != [] {
      var x := xs[0];
      assert x in xs && forall y :: y in xs[1..] ==> y in xs;
      PendingStaysOnce(db, x, a);
      NextSafe(db, x);
      PendingStays(Next(db, x), xs[1..], a);
    }
  }

  lemma {:induction false} PendingStaysOnce(db: Db, x: Action, a: AttemptId)
    requires Safe(db) && OwnsPending(db, a) && x != DoSelect(a)
    ensures OwnsPending(Next(db, x), a) && Next(db, x).attempts[a] == db.attempts[a]
    ensures RowsOf(Next(db, x).rows, db.attempts[a].run) == RowsOf(db.rows, db.attempts[a].run)
  {
    if x.DoSelect? && OwnsPending(db, x.a) {
      assert PendingApart(db, a, x.a);
      assert PendingSafe(db, x.a);
    }
  }

  /**
   * A first allocation: an attempt that begins while its run has no lease, with a workspace id that nobody has, answers
   * that id, and the run gains that one row, ALLOCATED and without timestamps.
   */
  lemma {:induction false} FreshAllocates(db: Db, a: AttemptId, xs: seq<Action>)
    requires Safe(db) && a in db.attempts && db.attempts[a].phase.Started?
    requires var t := db.attempts[a];
      && (forall id :: !Leases(db, id, t.run)) && t.candidate !in db.rows
      && forall b :: !Pends(db, b, t.run, t.candidate)
    requires NotTurnOf(xs, a)
    ensures var t, later := db.attempts[a], Run(db, Allocation(a, xs));
      && a in later.attempts && later.attempts[a].phase == Returned(t.candidate)
      && t.candidate in later.rows
      && later.rows[t.candidate] == Row(t.run, t.installation, ALLOCATED, false, false, false)
      && RowsOf(later.rows, t.run) == RowsOf(db.rows, t.run) + {t.candidate}
  {
    InsertExactly(db, a);
    InsertSafe(db, a);
    PendingStays(Insert(db, a), xs, a);
    AllocationIs(db, a, xs);
  }

  // ----- the state machine of one lease

  /** Which transitions the row's constraints let through, given a row that passes them. */
  lemma {:induction false} MovesExactly(r: Row, to: LeaseState)
    requires Checks(r) && to != r.state
    ensures Checks(Moved(r, to))
       <==> !r.state.RELEASED? && (to.RELEASED? || to.FAILED_CLEANUP? ==> r.releaseRequestedAt)
  {
  }

  /**
   * Which transitions are applied: the row is the caller's and in the state named, RELEASED is final, the release
   * was requested before it is completed or fails, and a return to the active set finds the run without a lease.
   */
  lemma {:induction false} AppliedExactly(db: Db, id: Id, from: LeaseState, to: LeaseState, expected: Option<Id>)
    requires Safe(db) && id in db.rows
    ensures var r := db.rows[id];
      TransitionOutcome(db, id, from, to, expected).Applied? <==>
        && (expected.Some? ==> expected.value == r.installation)
        && r.state == from != to && !from.RELEASED?
        && (to.RELEASED? || to.FAILED_CLEANUP? ==> r.releaseRequestedAt)
        && (IsActive(to) && !IsActive(from) ==> !HasPending(db, r.run) && !SomeActive(db.rows, r.run))
  {
    var r := db.rows[id];
    if r.state == from != to {
      MovesExactly(r, to);
      AdmitsExactly(db, id, to);
    }
  }

  /** Every other answer of a transition, and that it then changes nothing. */
  lemma {:induction false} RefusedExactly(db: Db, id: Id, from: LeaseState, to: LeaseState, expected: Option<Id>)
    requires Safe(db)
    ensures var o := TransitionOutcome(db, id, from, to, expected);
      && (o.CrossInstallation? <==> id in db.rows && expected.Some? && expected.value != db.rows[id].installation)
      && (o.AlreadyApplied? <==> id in db.rows && db.rows[id].state == to
                                 && (expected == None || expected == Some(db.rows[id].installation)))
      && (o.StateDrift? <==> id !in db.rows
                             || (db.rows[id].state != from && db.rows[id].state != to
                                 && (expected == None || expected == Some(db.rows[id].installation))))
      && (!o.Applied? ==> Transition(db, id, from, to, expected) == db)
  {
  }

  /** What an applied transition does: one row and one event, and in the row the state and its timestamps. */
  lemma {:induction false} AppliedEffect(db: Db, id: Id, from: LeaseState, to: LeaseState, expected: Option<Id>)
    requires TransitionOutcome(db, id, from, to, expected).Applied?
    ensures var after := Transition(db, id, from, to, expected);
      && after.attempts == db.attempts && after.events == db.events + [(id, to)]
      && id in db.rows && after.rows.Keys == db.rows.Keys
      && (forall other :: other in db.rows && other != id ==> after.rows[other] == db.rows[other])
      && var r, r' := db.rows[id], after.rows[id];
         && r'.run == r.run && r'.installation == r.installation && r'.state == to
         && (r'.releaseRequestedAt <==> r.releaseRequestedAt || to == RELEASE_REQUESTED)
         && (r'.releasedAt <==> r.releasedAt || to == RELEASED)
         && (r'.cleanupFailedAt <==> to == FAILED_CLEANUP || (r.cleanupFailedAt && from != FAILED_CLEANUP))
  {
    var r := db.rows[id];
    assert r.state == from;
  }

  lemma {:induction false} AdmitsExactly(db: Db, id: Id, to: LeaseState)
    requires Safe(db) && id in db.rows
    ensures IndexAdmits(db, id, Moved(db.rows[id], to)) <==>
            (IsActive(to) && !IsActive(db.rows[id].state) ==> !SomeActive(db.rows, db.rows[id].run))
  {
    var r := db.rows[id];
    if IsActive(to) && IsActive(r.state) {
      assert ActiveFor(db.rows, id, r.run);
    }
  }

  /** A released lease is released for ever. */
  lemma {:induction false} ReleasedForEver(db: Db, xs: seq<Action>, id: Id)
    requires Safe(db) && id in db.rows && db.rows[id].state.RELEASED?
    ensures id in Run(db, xs).rows && Run(db, xs).rows[id] == db.rows[id]
    decreases |xs|
  {
    if xs != [] {
      var x := xs[0];
      if x.DoSelect? && OwnsPending(db, x.a) {
        assert PendingSafe(db, x.a);
      }
      if x.DoTransition? && x.id == id && x.to != RELEASED {
        MovesExactly(db.rows[id], x.to);
      }
      NextSafe(db, x);
      ReleasedForEver(Next(db, x), xs[1..], id);
    }
  }

  /** The state that the last event of a row leaves it in; a row without events is as its insert made it. */
  function Logged(events: seq<(Id, LeaseState)>, id: Id): LeaseState {
    if events == [] then ALLOCATED
    else if events[|events| - 1].0 == id then events[|events| - 1].1
    else Logged(events[..|events| - 1], id)
  }

  ghost predicate LogAgrees(db: Db) {
    forall id :: Logged(db.events, id) == if id in db.rows then db.rows[id].state else ALLOCATED
  }

  /** In every reachable state the log of events, read back, gives every row's state. */
  lemma {:induction false} LogReplays(xs: seq<Action>)
    ensures LogAgrees(Run(EMPTY, xs))
  {
    LogStays(EMPTY, xs);
  }

  lemma {:induction false} LogStays(db: Db, xs: seq<Action>)
    requires Safe(db) && LogAgrees(db)
    ensures LogAgrees(Run(db, xs))
    decreases |xs|
  {
    if xs != [] {
      LogNext(db, xs[0]);
      NextSafe(db, xs[0]);
      LogStays(Next(db, xs[0]), xs[1..]);
    }
  }

  lemma {:induction false} LogNext(db: Db, x: Action)
    requires Safe(db) && LogAgrees(db)
    ensures LogAgrees(Next(db, x))
  {
    var after := Next(db, x);
    assert x.DoSelect? && OwnsPending(db, x.a) ==> PendingSafe(db, x.a);
    forall id
      ensures Logged(after.events, id) == if id in after.rows then after.rows[id].state else ALLOCATED
    {
      if after.events != db.events {
        assert after.events[..|after.events| - 1] == db.events;
      }
    }
  }
}
