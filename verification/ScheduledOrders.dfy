/** Scheduled and recurring orders: creating, cancelling, firing and failing the
    rows of the scheduled_orders table.  A transaction works on a copy of the
    tables; COMMIT stores the copy and ROLLBACK drops it. */
module ScheduledOrders {
  import opened Common
  import opened Calendar

  const MAX_ACTIVE_PER_CUSTOMER := 20
  const MIN_FUTURE_MS := 2 * 3_600_000

  datatype Status = Scheduled | Processing | Placed | Failed | Cancelled

  datatype Row = Row(
    user: nat,
    scheduledFor: int,
    repeat: Repeat,
    repeatUntil: Option<int>,
    status: Status,
    placedOrder: Option<nat>,
    failure: Option<string>)

  /** The tables, and three things the tables do not record: which row each real
      order was placed for, which row is the successor of which, and the rows of
      create calls that have passed their checks but not inserted yet. */
  datatype Db = Db(
    rows: seq<Row>,
    orders: seq<nat>,
    links: seq<(nat, nat)>,
    pending: seq<Row>)

  const EMPTY := Db([], [], [], [])

  /** How a fire attempt gets on with the catalogue and the order splitter. */
  datatype Outcome =
    | Created
    | Unavailable(reason: string)
    | Crashed

  // ----- successors -----

  datatype Successor = NoSuccessor | NextAt(time: int) | BadDate

  /** The date of the successor of a row that has just been placed.  A date out
      of range compares as later than any repeat_until, but without one it is
      inserted, which the database refuses. */
  function SuccessorOf(row: Row): Successor
  {
    match ComputeNextScheduledFor(TimeClip(row.scheduledFor), row.repeat)
    case None => NoSuccessor
    case Some(Invalid) => if row.repeatUntil.Some? then NoSuccessor else BadDate
    case Some(Time(next)) =>
      if row.repeatUntil == None || next <= row.repeatUntil.value then NextAt(next) else NoSuccessor
  }

  /** The row that createSuccessor inserts. */
  function SuccessorRow(parent: Row, next: int): Row
  {
    parent.(scheduledFor := next, status := Scheduled, placedOrder := None, failure := None)
  }

  // ----- the committed effect of each call -----

  predicate CanCustomerCancelFrom(s: Status)
  {
    s == Scheduled || s == Failed
  }

  function Active(user: nat): Row -> int
  {
    (r: Row) => if r.user == user && r.status == Scheduled then 1 else 0
  }

  function ActiveCount(db: Db, user: nat): int
  {
    SumBy(db.rows, Active(user))
  }

  /** The row a create call would insert, or None when a check fails. */
  function CheckedRow(db: Db, user: nat, time: int, repeat: Repeat, until: Option<int>, now: int, inAllocation: bool)
    : Option<Row>
  {
    if !(-MAX_TIME <= time <= MAX_TIME) || time < now + MIN_FUTURE_MS then None
    else if !inAllocation then None
    else if ActiveCount(db, user) >= MAX_ACTIVE_PER_CUSTOMER then None
    else Some(Row(user, time, repeat, until, Scheduled, None, None))
  }

  /** The row is placed with a new order, and gets its successor if it has one. */
  function Place(db: Db, id: nat): Db
    requires id < |db.rows|
  {
    var row := db.rows[id];
    var placed := db.rows[id := row.(status := Placed, placedOrder := Some(|db.orders|))];
    match SuccessorOf(row)
    case NextAt(next) =>
      db.(rows := placed + [SuccessorRow(row, next)], orders := db.orders + [id], links := db.links + [(id, |db.rows|)])
    case _ => db.(rows := placed, orders := db.orders + [id])
  }

  predicate Fires(db: Db, id: nat, outcome: Outcome)
  {
    id < |db.rows| && db.rows[id].status == Scheduled && outcome == Created && SuccessorOf(db.rows[id]) != BadDate
  }

  function FireTx(db: Db, id: nat, outcome: Outcome): Db
  {
    if Fires(db, id, outcome) then Place(db, id) else db
  }

  /** An empty reason leaves the column as it was. */
  function FailedRow(row: Row, reason: string): Row
  {
    row.(status := Failed, failure := if reason == "" then row.failure else Some(reason))
  }

  function RecordFailureTx(db: Db, id: nat, reason: string): Db
  {
    if id < |db.rows| && (db.rows[id].status == Scheduled || db.rows[id].status == Processing) then
      db.(rows := db.rows[id := FailedRow(db.rows[id], reason)])
    else db
  }

  function CancelTx(db: Db, user: nat, id: nat): Db
  {
    if id < |db.rows| && db.rows[id].user == user && CanCustomerCancelFrom(db.rows[id].status) then
      db.(rows := db.rows[id := db.rows[id].(status := Cancelled)])
    else db
  }

  /** The steps that calls of any number of clients and workers interleave.  A
      create call counts and inserts in two steps; a failing fire rolls back in
      one step and records the failure in another. */
  datatype Step =
    | BeginCreate(user: nat, time: int, repeat: Repeat, until: Option<int>, now: int, inAllocation: bool)
    | FinishCreate(index: nat)
    | Fire(id: nat, outcome: Outcome)
    | RecordFailure(id: nat, reason: string)
    | Cancel(user: nat, id: nat)

  function Apply(db: Db, step: Step): Db
  {
    match step
    case BeginCreate(user, time, repeat, until, now, inAllocation) =>
      (match CheckedRow(db, user, time, repeat, until, now, inAllocation)
       case None => db
       case Some(row) => db.(pending := db.pending + [row]))
    case FinishCreate(i) =>
      if i < |db.pending| then
        db.(rows := db.rows + [db.pending[i]], pending := db.pending[..i] + db.pending[i + 1..])
      else db
    case Fire(id, outcome) => FireTx(db, id, outcome)
    case RecordFailure(id, reason) => RecordFailureTx(db, id, reason)
    case Cancel(user, id) => CancelTx(db, user, id)
  }

  function Run(db: Db, steps: seq<Step>): Db
    decreases |steps|
  {
    if steps == [] then db else Run(Apply(db, steps[0]), steps[1..])
  }

  // ----- the invariant -----

  ghost predicate RowsValid(rows: seq<Row>)
  {
    forall i :: 0 <= i < |rows| ==>
      && -MAX_TIME <= rows[i].scheduledFor <= MAX_TIME
      && rows[i].status != Processing
      && (rows[i].status == Placed <==> rows[i].placedOrder.Some?)
  }

  /** Real orders and placed rows correspond one to one. */
  ghost predicate OrdersValid(rows: seq<Row>, orders: seq<nat>)
  {
    && (forall k :: 0 <= k < |orders| ==> orders[k] < |rows| && rows[orders[k]].placedOrder == Some(k))
    && (forall i :: 0 <= i < |rows| && rows[i].placedOrder.Some? ==>
          rows[i].placedOrder.value < |orders| && orders[rows[i].placedOrder.value] == i)
  }

  /** The link joins a placed row to a row that continues it at its next date. */
  ghost predicate LinkValid(rows: seq<Row>, link: (nat, nat))
  {
    && link.0 < link.1 < |rows|
    && rows[link.0].status == Placed
    && SuccessorOf(rows[link.0]) == NextAt(rows[link.1].scheduledFor)
    && rows[link.1].user == rows[link.0].user
    && rows[link.1].repeat == rows[link.0].repeat
    && rows[link.1].repeatUntil == rows[link.0].repeatUntil
  }

  /** Every link is valid, no row has two successors or two predecessors, and
      every placed row whose next date is within repeat_until has a successor. */
  ghost predicate LinksValid(rows: seq<Row>, links: seq<(nat, nat)>)
  {
    && (forall a :: 0 <= a < |links| ==> LinkValid(rows, links[a]))
    && (forall a, b :: 0 <= a < b < |links| ==> links[a].0 != links[b].0 && links[a].1 != links[b].1)
    && (forall i :: 0 <= i < |rows| && rows[i].status == Placed && SuccessorOf(rows[i]).NextAt? ==>
          HasSuccessor(links, i))
  }

  ghost predicate HasSuccessor(links: seq<(nat, nat)>, i: nat)
  {
    exists a :: 0 <= a < |links| && links[a].0 == i
  }

  ghost predicate PendingValid(pending: seq<Row>)
  {
    forall i :: 0 <= i < |pending| ==>
      && -MAX_TIME <= pending[i].scheduledFor <= MAX_TIME
      && pending[i].status == Scheduled
      && pending[i].placedOrder == None
  }

  ghost predicate Inv(db: Db)
  {
    && RowsValid(db.rows)
    && OrdersValid(db.rows, db.orders)
    && LinksValid(db.rows, db.links)
    && PendingValid(db.pending)
  }

  // ----- every step keeps the invariant -----

  /** A row that is not placed may change to another status that is not placed. */
  lemma ChangeKeepsInv(db: Db, id: nat, row: Row)
    requires Inv(db) && id < |db.rows| && db.rows[id].status != Placed
    requires row.status != Placed && row.status != Processing
    requires row == db.rows[id].(status := row.status, failure := row.failure)
    ensures Inv(db.(rows := db.rows[id := row]))
  {
    hide ComputeNextScheduledFor;
    var rows := db.rows[id := row];
    forall a | 0 <= a < |db.links|
      ensures LinkValid(rows, db.links[a])
    {
      assert LinkValid(db.rows, db.links[a]);
    }
  }

  lemma InsertKeepsInv(db: Db, row: Row)
    requires Inv(db) && PendingValid([row])
    ensures Inv(db.(rows := db.rows + [row]))
  {
    hide ComputeNextScheduledFor;
    assert [row][0] == row;
    var rows := db.rows + [row];
    forall a | 0 <= a < |db.links|
      ensures LinkValid(rows, db.links[a])
    {
      assert LinkValid(db.rows, db.links[a]);
    }
  }

  lemma SuccessorInRange(row: Row, next: int)
    requires SuccessorOf(row) == NextAt(next)
    requires -MAX_TIME <= row.scheduledFor <= MAX_TIME
    ensures row.scheduledFor + MS_PER_DAY <= next <= MAX_TIME
    ensures row.repeatUntil.Some? ==> next <= row.repeatUntil.value
  {
    hide NextMonthly;
    NextIsLater(row.scheduledFor, row.repeat);
  }

  lemma PlaceKeepsRowsAndOrders(db: Db, id: nat)
    requires Inv(db) && id < |db.rows| && db.rows[id].status == Scheduled
    ensures RowsValid(Place(db, id).rows) && OrdersValid(Place(db, id).rows, Place(db, id).orders)
  {
    hide SuccessorOf;
    match SuccessorOf(db.rows[id])
    case NextAt(next) => SuccessorInRange(db.rows[id], next);
    case _ =>
  }

  /** The links of the other rows stay valid. */
  lemma PlaceKeepsOldLinks(db: Db, id: nat)
    requires Inv(db) && id < |db.rows| && db.rows[id].status == Scheduled
    ensures forall a :: 0 <= a < |db.links| ==>
              LinkValid(Place(db, id).rows, db.links[a]) && db.links[a].0 != id && db.links[a].1 < |db.rows|
  {
    hide ComputeNextScheduledFor;
    forall a | 0 <= a < |db.links|
      ensures LinkValid(Place(db, id).rows, db.links[a]) && db.links[a].0 != id && db.links[a].1 < |db.rows|
    {
      assert LinkValid(db.rows, db.links[a]);
    }
  }

  /** Placing a row does not change its next date. */
  lemma NextDateUnchanged(row: Row, order: nat)
    ensures SuccessorOf(row.(status := Placed, placedOrder := Some(order))) == SuccessorOf(row)
  {
  }

  lemma PlaceKeepsLinks(db: Db, id: nat)
    requires Inv(db) && id < |db.rows| && db.rows[id].status == Scheduled
    ensures LinksValid(Place(db, id).rows, Place(db, id).links)
  {
    hide SuccessorOf, RowsValid, OrdersValid;
    var row, db' := db.rows[id], Place(db, id);
    PlaceKeepsOldLinks(db, id);
    NextDateUnchanged(row, |db.orders|);
    forall i | 0 <= i < |db'.rows| && db'.rows[i].status == Placed && SuccessorOf(db'.rows[i]).NextAt?
      ensures HasSuccessor(db'.links, i)
    {
      if i == id {
        assert db'.links[|db.links|].0 == id;
      } else {
        assert HasSuccessor(db.links, i);
        var a :| 0 <= a < |db.links| && db.links[a].0 == i;
        assert db'.links[a].0 == i;
      }
    }
  }

  lemma PlaceKeepsInv(db: Db, id: nat)
    requires Inv(db) && id < |db.rows| && db.rows[id].status == Scheduled
    ensures Inv(Place(db, id))
  {
    hide RowsValid, OrdersValid, LinksValid;
    PlaceKeepsRowsAndOrders(db, id);
    PlaceKeepsLinks(db, id);
  }

  lemma ApplyKeepsInv(db: Db, step: Step)
    requires Inv(db)
    ensures Inv(Apply(db, step))
  {
    hide SuccessorOf, RowsValid, OrdersValid, LinksValid, Place;
    match step
    case BeginCreate(_, _, _, _, _, _) =>
    case FinishCreate(i) =>
      if i < |db.pending| {
        InsertKeepsInv(db, db.pending[i]);
      }
    case Fire(id, outcome) =>
      if Fires(db, id, outcome) {
        PlaceKeepsInv(db, id);
      }
    case RecordFailure(id, reason) =>
      if id < |db.rows| && db.rows[id].status == Scheduled {
        ChangeKeepsInv(db, id, FailedRow(db.rows[id], reason));
      }
      NoneProcessing(db);
    case Cancel(user, id) =>
      if id < |db.rows| && CanCustomerCancelFrom(db.rows[id].status) {
        ChangeKeepsInv(db, id, db.rows[id].(status := Cancelled));
      }
  }

  lemma NoneProcessing(db: Db)
    requires Inv(db)
    ensures forall i :: 0 <= i < |db.rows| ==> db.rows[i].status != Processing
  {
  }

  lemma {:induction false} RunKeepsInv(db: Db, steps: seq<Step>)
    requires Inv(db)
    ensures Inv(Run(db, steps))
    decreases |steps|
  {
    hide Inv, Apply;
    if steps != [] {
      ApplyKeepsInv(db, steps[0]);
      RunKeepsInv(Apply(db, steps[0]), steps[1..]);
    }
  }

  // ----- what holds over whole runs -----

  /** A step changes no row's schedule, and leaves PLACED and CANCELLED rows alone. */
  ghost predicate RowKept(before: Row, after: Row)
  {
    && after.user == before.user
    && after.scheduledFor == before.scheduledFor
    && after.repeat == before.repeat
    && after.repeatUntil == before.repeatUntil
    && (before.status == Placed || before.status == Cancelled ==> after == before)
  }

  ghost predicate RowsKept(before: seq<Row>, after: seq<Row>)
  {
    && |before| <= |after|
    && forall i :: 0 <= i < |before| ==> RowKept(before[i], after[i])
  }

  lemma ApplyKeepsRows(db: Db, step: Step)
    ensures RowsKept(db.rows, Apply(db, step).rows)
  {
    hide SuccessorOf, CheckedRow;
  }

  /** PLACED and CANCELLED are never left, whatever runs after. */
  lemma {:induction false} RunKeepsRows(db: Db, steps: seq<Step>)
    ensures RowsKept(db.rows, Run(db, steps).rows)
    decreases |steps|
  {
    hide Apply;
    if steps != [] {
      ApplyKeepsRows(db, steps[0]);
      RunKeepsRows(Apply(db, steps[0]), steps[1..]);
    }
  }

  lemma EmptyIsValid()
    ensures Inv(EMPTY)
  {
  }

  /** In every reachable state: no row is PROCESSING, a row is PLACED exactly
      when its placed order is set, and two real orders never come from the
      same row. */
  lemma PlacedOnce(steps: seq<Step>)
    ensures var db := Run(EMPTY, steps);
            && (forall i :: 0 <= i < |db.rows| ==> db.rows[i].status != Processing)
            && (forall i :: 0 <= i < |db.rows| ==> (db.rows[i].status == Placed <==> db.rows[i].placedOrder.Some?))
            && (forall j, k :: 0 <= j < k < |db.orders| ==> db.orders[j] != db.orders[k])
  {
    hide Run, LinksValid;
    EmptyIsValid();
    RunKeepsInv(EMPTY, steps);
    var db := Run(EMPTY, steps);
    assert Inv(db);
  }

  /** In every reachable state a row has a successor exactly when it is PLACED
      and its next date is within repeat_until, and then it has just one. */
  lemma SuccessorIffPlacedInTime(steps: seq<Step>, i: nat)
    requires i < |Run(EMPTY, steps).rows|
    ensures var db := Run(EMPTY, steps);
            && (HasSuccessor(db.links, i) <==> db.rows[i].status == Placed && SuccessorOf(db.rows[i]).NextAt?)
            && (forall a, b :: 0 <= a < b < |db.links| && db.links[a].0 == i ==> db.links[b].0 != i)
  {
    hide Run, SuccessorOf, OrdersValid, RowsValid;
    EmptyIsValid();
    RunKeepsInv(EMPTY, steps);
    var db := Run(EMPTY, steps);
    assert LinksValid(db.rows, db.links);
    if HasSuccessor(db.links, i) {
      var a :| 0 <= a < |db.links| && db.links[a].0 == i;
      assert LinkValid(db.rows, db.links[a]);
    }
  }

  // ----- chains of successors -----

  ghost predicate Linked(links: seq<(nat, nat)>, parent: nat, child: nat)
  {
    exists a :: 0 <= a < |links| && links[a] == (parent, child)
  }

  ghost predicate IsChain(db: Db, chain: seq<nat>)
  {
    && (forall i :: 0 <= i < |chain| ==> chain[i] < |db.rows|)
    && (forall i :: 0 <= i < |chain| - 1 ==> Linked(db.links, chain[i], chain[i + 1]))
  }

  lemma LinkRises(db: Db, parent: nat, child: nat)
    requires Inv(db) && Linked(db.links, parent, child)
    ensures parent < |db.rows| && child < |db.rows|
    ensures db.rows[parent].scheduledFor + MS_PER_DAY <= db.rows[child].scheduledFor
    ensures db.rows[child].repeatUntil == db.rows[parent].repeatUntil
    ensures db.rows[child].repeatUntil.Some? ==> db.rows[child].scheduledFor <= db.rows[child].repeatUntil.value
  {
    hide SuccessorOf;
    var a :| 0 <= a < |db.links| && db.links[a] == (parent, child);
    assert LinkValid(db.rows, db.links[a]);
    SuccessorInRange(db.rows[parent], db.rows[child].scheduledFor);
  }

  /** The dates of a chain rise by at least a day per link. */
  lemma {:induction false} ChainRises(db: Db, chain: seq<nat>)
    requires Inv(db) && IsChain(db, chain) && chain != []
    ensures var first, last := db.rows[chain[0]], db.rows[chain[|chain| - 1]];
            && first.scheduledFor + (|chain| - 1) * MS_PER_DAY <= last.scheduledFor
            && last.repeatUntil == first.repeatUntil
            && (|chain| > 1 && first.repeatUntil.Some? ==> last.scheduledFor <= first.repeatUntil.value)
    decreases |chain|
  {
    hide Inv;
    if |chain| > 1 {
      var shorter := chain[..|chain| - 1];
      assert IsChain(db, shorter);
      ChainRises(db, shorter);
      assert Linked(db.links, chain[|chain| - 2], chain[|chain| - 1]);
      LinkRises(db, chain[|chain| - 2], chain[|chain| - 1]);
    }
  }

  /** With repeat_until set, a chain of successors has at most one more row
      than there are days between its first date and repeat_until. */
  lemma ChainBounded(steps: seq<Step>, chain: seq<nat>)
    requires chain != [] && IsChain(Run(EMPTY, steps), chain)
    requires Run(EMPTY, steps).rows[chain[0]].repeatUntil.Some?
    ensures var first := Run(EMPTY, steps).rows[chain[0]];
            |chain| == 1 || (|chain| - 1) * MS_PER_DAY <= first.repeatUntil.value - first.scheduledFor
  {
    hide Run, Inv;
    EmptyIsValid();
    RunKeepsInv(EMPTY, steps);
    ChainRises(Run(EMPTY, steps), chain);
  }

  // ----- the cap on active rows -----

  function OfUser(user: nat): Row -> int
  {
    (r: Row) => if r.user == user then 1 else 0
  }

  /** How many create calls of a user are between their check and their insert. */
  function InFlight(db: Db, user: nat): int
  {
    SumBy(db.pending, OfUser(user))
  }

  /** At no point of the run does the user have more than k creates in flight. */
  ghost predicate AtMostInFlight(db: Db, steps: seq<Step>, user: nat, k: nat)
    decreases |steps|
  {
    && InFlight(db, user) <= k
    && (steps == [] || AtMostInFlight(Apply(db, steps[0]), steps[1..], user, k))
  }

  lemma UpdateCounts(rows: seq<Row>, id: nat, row: Row, user: nat)
    requires id < |rows| && row.user == rows[id].user && row.status != Scheduled
    ensures SumBy(rows[id := row], Active(user)) <= SumBy(rows, Active(user))
    ensures rows[id].status == Scheduled && rows[id].user == user ==>
              SumBy(rows[id := row], Active(user)) == SumBy(rows, Active(user)) - 1
  {
    SumByUpdate(rows, id, row, Active(user));
  }

  /** A fire takes the row out of the count, and its successor takes its place:
      the count stays the same with a successor and drops by one without. */
  lemma PlaceCounts(db: Db, id: nat, user: nat)
    requires id < |db.rows| && db.rows[id].status == Scheduled
    ensures ActiveCount(Place(db, id), user)
         == ActiveCount(db, user) - (if user == db.rows[id].user && !SuccessorOf(db.rows[id]).NextAt? then 1 else 0)
    ensures Place(db, id).pending == db.pending
  {
    hide SuccessorOf;
    var row := db.rows[id];
    var placed := db.rows[id := row.(status := Placed, placedOrder := Some(|db.orders|))];
    SumByUpdate(db.rows, id, placed[id], Active(user));
    match SuccessorOf(row)
    case NextAt(next) => SumByAppend(placed, SuccessorRow(row, next), Active(user));
    case _ =>
  }

  lemma FinishCounts(db: Db, i: nat, user: nat)
    requires i < |db.pending| && db.pending[i].status == Scheduled
    ensures var db' := Apply(db, FinishCreate(i));
            ActiveCount(db', user) + InFlight(db', user) == ActiveCount(db, user) + InFlight(db, user)
  {
    var row := db.pending[i];
    SumByAppend(db.rows, row, Active(user));
    assert db.pending == db.pending[..i] + [row] + db.pending[i + 1..];
    SumByConcat(db.pending[..i] + [row], db.pending[i + 1..], OfUser(user));
    SumByAppend(db.pending[..i], row, OfUser(user));
    SumByConcat(db.pending[..i], db.pending[i + 1..], OfUser(user));
  }

  /** A step raises the active and in-flight rows together only while the
      customer has fewer than 20 active rows, and then the active ones not yet. */
  lemma ApplyCounts(db: Db, step: Step, user: nat)
    requires PendingValid(db.pending)
    ensures var db' := Apply(db, step);
            || ActiveCount(db', user) + InFlight(db', user) <= ActiveCount(db, user) + InFlight(db, user)
            || (ActiveCount(db', user) == ActiveCount(db, user) < MAX_ACTIVE_PER_CUSTOMER)
  {
    hide SuccessorOf, Place;
    match step
    case BeginCreate(u, time, repeat, until, now, inAllocation) =>
      var checked := CheckedRow(db, u, time, repeat, until, now, inAllocation);
      if checked.Some? {
        SumByAppend(db.pending, checked.value, OfUser(user));
      }
    case FinishCreate(i) =>
      if i < |db.pending| {
        FinishCounts(db, i, user);
      }
    case Fire(id, outcome) =>
      if Fires(db, id, outcome) {
        PlaceCounts(db, id, user);
      }
    case RecordFailure(id, reason) =>
      if id < |db.rows| {
        UpdateCounts(db.rows, id, FailedRow(db.rows[id], reason), user);
      }
    case Cancel(u, id) =>
      if id < |db.rows| {
        UpdateCounts(db.rows, id, db.rows[id].(status := Cancelled), user);
      }
  }

  lemma InFlightNonNegative(db: Db, user: nat)
    ensures 0 <= InFlight(db, user)
  {
    SumByNonNegative(db.pending, OfUser(user));
  }

  /** As long as a customer never has more than k creates in flight at once, the
      customer never has more than 19 + k SCHEDULED rows: 20 when creates do
      not overlap. */
  lemma {:induction false} ActiveCapped(db: Db, steps: seq<Step>, user: nat, k: nat)
    requires PendingValid(db.pending) && AtMostInFlight(db, steps, user, k)
    requires ActiveCount(db, user) + InFlight(db, user) <= MAX_ACTIVE_PER_CUSTOMER - 1 + k
    ensures ActiveCount(Run(db, steps), user) <= MAX_ACTIVE_PER_CUSTOMER - 1 + k
    decreases |steps|
  {
    hide Apply, ActiveCount, InFlight, PendingValid;
    if steps == [] {
      InFlightNonNegative(db, user);
    } else {
      ApplyCounts(db, steps[0], user);
      ApplyKeepsPending(db, steps[0]);
      ActiveCapped(Apply(db, steps[0]), steps[1..], user, k);
    }
  }

  lemma ApplyKeepsPending(db: Db, step: Step)
    requires PendingValid(db.pending)
    ensures PendingValid(Apply(db, step).pending)
  {
    hide SuccessorOf;
  }

  // ----- the cap is exact -----

  const ROW := Row(0, MIN_FUTURE_MS, Once, None, Scheduled, None, None)
  const BEGIN := BeginCreate(0, MIN_FUTURE_MS, Once, None, 0, true)
  const FINISH := FinishCreate(0)

  /** Customer 0 has n SCHEDULED rows and p creates in flight. */
  function Creating(n: nat, p: nat): Db
  {
    Db(seq(n, _ => ROW), [], [], seq(p, _ => ROW))
  }

  lemma {:induction false} RepeatedCounts(n: nat)
    ensures SumBy(seq(n, _ => ROW), Active(0)) == n
    ensures SumBy(seq(n, _ => ROW), OfUser(0)) == n
  {
    if n > 0 {
      RepeatedCounts(n - 1);
      assert seq(n, _ => ROW) == seq(n - 1, _ => ROW) + [ROW];
      SumByAppend(seq(n - 1, _ => ROW), ROW, Active(0));
      SumByAppend(seq(n - 1, _ => ROW), ROW, OfUser(0));
    }
  }

  lemma CreatingCounts(n: nat, p: nat)
    ensures ActiveCount(Creating(n, p), 0) == n && InFlight(Creating(n, p), 0) == p
  {
    RepeatedCounts(n);
    RepeatedCounts(p);
  }

  lemma BeginStep(n: nat, p: nat)
    requires n < MAX_ACTIVE_PER_CUSTOMER
    ensures Apply(Creating(n, p), BEGIN) == Creating(n, p + 1)
  {
    CreatingCounts(n, p);
    assert CheckedRow(Creating(n, p), 0, MIN_FUTURE_MS, Once, None, 0, true) == Some(ROW);
    assert Creating(n, p).pending + [ROW] == Creating(n, p + 1).pending;
  }

  lemma FinishStep(n: nat, p: nat)
    ensures Apply(Creating(n, p + 1), FINISH) == Creating(n + 1, p)
  {
    var db := Creating(n, p + 1);
    assert db.rows + [ROW] == Creating(n + 1, p).rows;
    assert db.pending[..0] + db.pending[1..] == Creating(n + 1, p).pending;
  }

  /** Some run takes customer 0 to exactly n SCHEDULED rows, with never more
      than k creates in flight. */
  ghost predicate Reaches(db: Db, k: nat, n: int)
  {
    exists steps :: AtMostInFlight(db, steps, 0, k) && ActiveCount(Run(db, steps), 0) == n
  }

  lemma StepReaches(db: Db, step: Step, k: nat, n: int)
    requires InFlight(db, 0) <= k && Reaches(Apply(db, step), k, n)
    ensures Reaches(db, k, n)
  {
    hide Apply, ActiveCount, InFlight;
    var rest :| AtMostInFlight(Apply(db, step), rest, 0, k) && ActiveCount(Run(Apply(db, step), rest), 0) == n;
    var steps := [step] + rest;
    assert steps[0] == step && steps[1..] == rest;
    assert AtMostInFlight(db, steps, 0, k);
  }

  /** The creates in flight all insert their rows. */
  lemma {:induction false} FinishAll(n: nat, p: nat, k: nat)
    requires p <= k
    ensures Reaches(Creating(n, p), k, n + p)
    decreases p
  {
    hide Apply, ActiveCount, InFlight, Creating;
    CreatingCounts(n, p);
    if p == 0 {
      assert AtMostInFlight(Creating(n, p), [], 0, k);
    } else {
      FinishStep(n, p - 1);
      FinishAll(n + 1, p - 1, k);
      StepReaches(Creating(n, p), FINISH, k, n + p);
    }
  }

  /** With 19 rows, k creates pass the check before one of them inserts. */
  lemma {:induction false} BeginAll(p: nat, k: nat)
    requires p <= k
    ensures Reaches(Creating(MAX_ACTIVE_PER_CUSTOMER - 1, p), k, MAX_ACTIVE_PER_CUSTOMER - 1 + k)
    decreases k - p
  {
    hide Reaches, Apply, ActiveCount, InFlight, Creating;
    if p == k {
      FinishAll(MAX_ACTIVE_PER_CUSTOMER - 1, k, k);
    } else {
      CreatingCounts(MAX_ACTIVE_PER_CUSTOMER - 1, p);
      BeginStep(MAX_ACTIVE_PER_CUSTOMER - 1, p);
      BeginAll(p + 1, k);
      StepReaches(Creating(MAX_ACTIVE_PER_CUSTOMER - 1, p), BEGIN, k, MAX_ACTIVE_PER_CUSTOMER - 1 + k);
    }
  }

  /** Creates one after the other up to 19 rows, then k that overlap. */
  lemma {:induction false} CreateUpTo(n: nat, k: nat)
    requires n <= MAX_ACTIVE_PER_CUSTOMER - 1 && k >= 1
    ensures Reaches(Creating(n, 0), k, MAX_ACTIVE_PER_CUSTOMER - 1 + k)
    decreases MAX_ACTIVE_PER_CUSTOMER - n
  {
    hide Reaches, Apply, ActiveCount, InFlight, Creating;
    if n == MAX_ACTIVE_PER_CUSTOMER - 1 {
      BeginAll(0, k);
    } else {
      CreatingCounts(n, 0);
      CreatingCounts(n, 1);
      BeginStep(n, 0);
      FinishStep(n, 0);
      CreateUpTo(n + 1, k);
      StepReaches(Creating(n, 1), FINISH, k, MAX_ACTIVE_PER_CUSTOMER - 1 + k);
      StepReaches(Creating(n, 0), BEGIN, k, MAX_ACTIVE_PER_CUSTOMER - 1 + k);
    }
  }

  /** The bound of ActiveCapped is reached for every k: k creates that overlap
      can take a customer to 19 + k SCHEDULED rows. */
  lemma Tight(k: nat)
    requires k >= 1
    ensures exists steps ::
              AtMostInFlight(EMPTY, steps, 0, k) && ActiveCount(Run(EMPTY, steps), 0) == MAX_ACTIVE_PER_CUSTOMER - 1 + k
  {
    hide ActiveCount, AtMostInFlight, Run;
    assert Creating(0, 0) == EMPTY;
    CreateUpTo(0, k);
  }

  /** Two overlapping creates of a customer with 19 active rows both pass the
      check, and the customer ends with 21. */
  lemma OverlappingCreatesPassTheCap()
    ensures exists steps ::
              AtMostInFlight(EMPTY, steps, 0, 2) && ActiveCount(Run(EMPTY, steps), 0) == MAX_ACTIVE_PER_CUSTOMER + 1
  {
    hide ActiveCount, AtMostInFlight, Run;
    Tight(2);
  }

  /** The cap holds in every run with at most k creates of a customer in flight
      if and only if k is at most one, that is, when creates do not overlap. */
  lemma CapIff(k: nat)
    ensures (forall steps, user :: AtMostInFlight(EMPTY, steps, user, k) ==>
               ActiveCount(Run(EMPTY, steps), user) <= MAX_ACTIVE_PER_CUSTOMER)
            <==> k <= 1
  {
    hide AtMostInFlight, Run;
    if k <= 1 {
      forall steps, user | AtMostInFlight(EMPTY, steps, user, k)
        ensures ActiveCount(Run(EMPTY, steps), user) <= MAX_ACTIVE_PER_CUSTOMER
      {
        ActiveCapped(EMPTY, steps, user, k);
      }
    } else {
      Tight(k);
    }
  }

  // ----- what each call does to the table -----

  /** How many SCHEDULED rows a customer has. */
  ghost function ScheduledRows(rows: seq<Row>, user: nat): nat
  {
    |set i | 0 <= i < |rows| && rows[i].user == user && rows[i].status == Scheduled|
  }

  lemma ActiveIsScheduled(db: Db, user: nat)
    ensures ActiveCount(db, user) == ScheduledRows(db.rows, user)
  {
    SumByCounts(db.rows, Active(user));
    assert Ones(db.rows, Active(user))
        == set i | 0 <= i < |db.rows| && db.rows[i].user == user && db.rows[i].status == Scheduled;
  }

  /** A create call passes its checks for a date in range, at least two hours
      away, from an allocated shop, for a customer with fewer than 20 SCHEDULED rows. */
  predicate MayCreate(scheduled: nat, time: int, now: int, inAllocation: bool)
  {
    && -8_640_000_000_000_000 <= time <= 8_640_000_000_000_000
    && now + 2 * 60 * 60 * 1000 <= time
    && inAllocation
    && scheduled < 20
  }

  lemma CheckedRowIs(db: Db, user: nat, time: int, repeat: Repeat, until: Option<int>, now: int, inAllocation: bool)
    ensures CheckedRow(db, user, time, repeat, until, now, inAllocation)
         == if MayCreate(ScheduledRows(db.rows, user), time, now, inAllocation)
            then Some(Row(user, time, repeat, until, Scheduled, None, None)) else None
  {
    hide ActiveCount, ScheduledRows;
    ActiveIsScheduled(db, user);
  }

  /** The date of the row is one that a JavaScript date can hold. */
  predicate DateValid(row: Row)
  {
    -8_640_000_000_000_000 <= row.scheduledFor <= 8_640_000_000_000_000
  }

  /** The row is due and can be placed: it is SCHEDULED, and it is ONCE, or has a
      repeat_until, or its next date is in range (or its own date is not one). */
  ghost predicate Placeable(rows: seq<Row>, id: nat)
  {
    && id < |rows| && rows[id].status == Scheduled
    && (rows[id].repeat == Once || rows[id].repeatUntil.Some? || !DateValid(rows[id])
        || NextTime(rows[id].scheduledFor, rows[id].repeat).Some?)
  }

  /** The placed row is followed by another: its next date is within repeat_until. */
  ghost predicate Continues(row: Row)
  {
    var next := NextTime(row.scheduledFor, row.repeat);
    DateValid(row) && next.Some? && (row.repeatUntil == None || next.value <= row.repeatUntil.value)
  }

  /** The row is PLACED with the new order, and a row for its next date follows if it continues. */
  ghost predicate IsPlacedIn(db: Db, db': Db, id: nat)
    requires id < |db.rows|
  {
    var row := db.rows[id];
    var rows := db.rows[id := Row(row.user, row.scheduledFor, row.repeat, row.repeatUntil,
                                  Placed, Some(|db.orders|), row.failure)];
    && db'.orders == db.orders + [id] && db'.pending == db.pending
    && if Continues(row) then
         && db'.rows == rows + [Row(row.user, NextTime(row.scheduledFor, row.repeat).value, row.repeat, row.repeatUntil,
                                    Scheduled, None, None)]
         && db'.links == db.links + [(id, |db.rows|)]
       else db'.rows == rows && db'.links == db.links
  }

  lemma SuccessorIs(row: Row)
    ensures Continues(row) <==> SuccessorOf(row).NextAt?
    ensures Continues(row) ==> SuccessorOf(row) == NextAt(NextTime(row.scheduledFor, row.repeat).value)
    ensures SuccessorOf(row) == BadDate
       <==> row.repeat != Once && row.repeatUntil == None && DateValid(row)
            && NextTime(row.scheduledFor, row.repeat) == None
  {
    hide NextMonthly;
  }

  /** A fire places the row if and only if the order could be created and the row
      can be placed; otherwise it changes nothing. */
  lemma FirePlaces(db: Db, id: nat, outcome: Outcome)
    ensures if outcome == Created && Placeable(db.rows, id) then IsPlacedIn(db, FireTx(db, id, outcome), id)
            else FireTx(db, id, outcome) == db
    ensures Fires(db, id, outcome) <==> outcome == Created && Placeable(db.rows, id)
  {
    hide SuccessorOf, NextTime, Continues, DateValid;
    if id < |db.rows| {
      SuccessorIs(db.rows[id]);
    }
  }

  /** A recorded failure makes a SCHEDULED or PROCESSING row FAILED, with its reason. */
  ghost predicate IsFailedIn(rows: seq<Row>, rows': seq<Row>, id: nat, reason: string)
    requires id < |rows|
  {
    var row := rows[id];
    rows' == rows[id := Row(row.user, row.scheduledFor, row.repeat, row.repeatUntil, Failed, row.placedOrder,
                            if reason == "" then row.failure else Some(reason))]
  }

  // ----- the repository and the service -----

  /** The guarded UPDATE: nothing happens unless the row is in the expected status. */
  function UpdateStatusIfCurrent(rows: seq<Row>, id: nat, expected: Status, next: Status, order: Option<nat>): seq<Row>
  {
    if id < |rows| && rows[id].status == expected then
      rows[id := rows[id].(status := next, placedOrder := if order.Some? then order else rows[id].placedOrder)]
    else rows
  }

  function LinkPlacedOrder(rows: seq<Row>, id: nat, order: nat): seq<Row>
  {
    if id < |rows| then rows[id := rows[id].(placedOrder := Some(order))] else rows
  }

  datatype CreateReply = CreatedRow(row: Row) | InvalidDate | NoAllocation | ScheduleLimit

  datatype FireReply =
    | Noop
    | PlacedReply(order: nat, successor: Option<nat>)
    | FailedReply(reason: string)
    | Thrown

  class ScheduledOrdersService {
    var db: Db

    constructor ()
      ensures db == EMPTY
    {
      db := EMPTY;
    }

    /** A create call that is not interleaved with another of the same customer. */
    method Create(user: nat, time: int, repeat: Repeat, until: Option<int>, now: int, inAllocation: bool)
      returns (reply: CreateReply)
      modifies this
      ensures db == Apply(Apply(old(db), BeginCreate(user, time, repeat, until, now, inAllocation)),
                          FinishCreate(|old(db).pending|))
      ensures reply.CreatedRow? <==> MayCreate(ScheduledRows(old(db).rows, user), time, now, inAllocation)
      ensures reply == ScheduleLimit ==> ScheduledRows(old(db).rows, user) >= 20
      ensures db == if reply.CreatedRow? then old(db).(rows := old(db).rows + [reply.row]) else old(db)
      ensures reply.CreatedRow? ==> reply.row == Row(user, time, repeat, until, Scheduled, None, None)
    {
      hide ActiveCount, ScheduledRows;
      ActiveIsScheduled(db, user);
      if !(-MAX_TIME <= time <= MAX_TIME) || time < now + MIN_FUTURE_MS {
        return InvalidDate;
      }
      if !inAllocation {
        return NoAllocation;
      }
      var activeCount := ActiveCount(db, user);
      if activeCount >= MAX_ACTIVE_PER_CUSTOMER {
        return ScheduleLimit;
      }
      var inserted := Row(user, time, repeat, until, Scheduled, None, None);
      ghost var pending := db.pending + [inserted];
      assert pending[..|db.pending|] + pending[|db.pending| + 1..] == db.pending;
      db := db.(rows := db.rows + [inserted]);
      return CreatedRow(inserted);
    }

    method Cancel(user: nat, id: nat) returns (cancelled: bool)
      modifies this
      ensures db == CancelTx(old(db), user, id)
      ensures cancelled <==> id < |old(db).rows| && old(db).rows[id].user == user
                             && (old(db).rows[id].status == Scheduled || old(db).rows[id].status == Failed)
      ensures db == if cancelled then old(db).(rows := old(db).rows[id := old(db).rows[id].(status := Cancelled)])
                    else old(db)
    {
      if id >= |db.rows| || db.rows[id].user != user {
        return false;
      }
      var row := db.rows[id];
      if !CanCustomerCancelFrom(row.status) {
        return false;
      }
      db := db.(rows := db.rows[id := row.(status := Cancelled)]);
      return true;
    }

    method RecordFailure(id: nat, reason: string)
      modifies this
      ensures db == RecordFailureTx(old(db), id, reason)
      ensures var rows := old(db).rows;
              if id < |rows| && (rows[id].status == Scheduled || rows[id].status == Processing)
              then IsFailedIn(rows, db.rows, id, reason) && db == old(db).(rows := db.rows)
              else db == old(db)
    {
      if id >= |db.rows| {
        return;
      }
      var locked := db.rows[id];
      if locked.status != Scheduled && locked.status != Processing {
        return;
      }
      var tx := UpdateStatusIfCurrent(db.rows, id, locked.status, Failed, None);
      if reason != "" {
        tx := tx[id := tx[id].(failure := Some(reason))];
      }
      db := db.(rows := tx);
    }

    /** A fire attempt: claim the row, place the order, link it, insert the
        successor, commit; or roll back, and record a catalogue failure. */
    method ProcessFire(id: nat, outcome: Outcome) returns (reply: FireReply)
      modifies this
      ensures db == if outcome.Unavailable? then RecordFailureAfterClaim(old(db), id, outcome.reason)
                    else FireTx(old(db), id, outcome)
      ensures reply.PlacedReply? <==> outcome == Created && Placeable(old(db).rows, id)
      ensures reply.PlacedReply? ==>
                && reply.order == |old(db).orders| && IsPlacedIn(old(db), db, id)
                && reply.successor == if Continues(old(db).rows[id]) then Some(|old(db).rows|) else None
      ensures reply.FailedReply?
         <==> outcome.Unavailable? && id < |old(db).rows| && old(db).rows[id].status == Scheduled
      ensures reply.FailedReply? ==>
                IsFailedIn(old(db).rows, db.rows, id, outcome.reason) && db == old(db).(rows := db.rows)
      ensures !reply.PlacedReply? && !reply.FailedReply? ==> db == old(db)
    {
      hide SuccessorOf, NextTime, Continues, DateValid;
      FirePlaces(db, id, outcome);
      if id < |db.rows| {
        SuccessorIs(db.rows[id]);
      }
      var tx := db;
      if id >= |tx.rows| {
        return Noop;
      }
      var parent := tx.rows[id];
      if parent.status != Scheduled {
        return Noop;
      }
      tx := tx.(rows := UpdateStatusIfCurrent(tx.rows, id, Scheduled, Processing, None));
      if outcome.Unavailable? {
        RecordFailure(id, outcome.reason);
        return FailedReply(outcome.reason);
      }
      if outcome.Crashed? {
        return Thrown;
      }
      var placed := |tx.orders|;
      tx := tx.(orders := tx.orders + [id]);
      tx := tx.(rows := LinkPlacedOrder(tx.rows, id, placed));
      tx := tx.(rows := UpdateStatusIfCurrent(tx.rows, id, Processing, Placed, Some(placed)));
      assert tx.rows == db.rows[id := parent.(status := Placed, placedOrder := Some(placed))];

      var successor: Option<nat> := None;
      match SuccessorOf(parent) {
        case BadDate =>
          return Thrown;
        case NoSuccessor =>
        case NextAt(next) =>
          successor := Some(|tx.rows|);
          tx := tx.(rows := tx.rows + [SuccessorRow(parent, next)], links := tx.links + [(id, |tx.rows|)]);
      }
      db := tx;
      return PlacedReply(placed, successor);
    }
  }

  /** The failure is recorded only after the row was claimed. */
  function RecordFailureAfterClaim(db: Db, id: nat, reason: string): Db
  {
    if id < |db.rows| && db.rows[id].status == Scheduled then RecordFailureTx(db, id, reason) else db
  }
}
