/** The auto-assign job: offering an order to the least busy employee of its
    vendor, and the offer table it shares with the riders' answers. */
module AutoAssign {
  import opened Common
  import L = OrderLifecycle

  datatype OfferStatus = Assigned | Accepted | PickedUp | InTransit | Delivered | Cancelled

  datatype OfferType = PickupOffer | DeliveryOffer

  /** A row of order_assignments; reason is "" when there is no cancel reason. */
  datatype Offer = Offer(
    order: nat,
    rider: nat,
    status: OfferStatus,
    reason: string,
    kind: OfferType,
    distance: Option<int>)

  datatype Order = Order(status: L.Status, rider: Option<nat>)

  datatype Event = Event(order: nat, oldStatus: L.Status, newStatus: L.Status, role: L.Role)

  datatype Db = Db(orders: seq<Order>, offers: seq<Offer>, events: seq<Event>)

  predicate Assignable(s: L.Status)
  {
    s in {L.Unknown("CONFIRMED"), L.Unknown("PREPARING"), L.Packed, L.VendorAccepted}
  }

  /** The shorter list of the riders' side: a rider cannot accept in VENDOR_ACCEPTED. */
  predicate Acceptable(s: L.Status)
  {
    s in {L.Unknown("CONFIRMED"), L.Unknown("PREPARING"), L.Packed}
  }

  predicate Claimed(s: OfferStatus)
  {
    s in {Accepted, PickedUp, InTransit}
  }

  predicate Open(s: OfferStatus)
  {
    s == Assigned || Claimed(s)
  }

  // ----- cancel reasons -----

  predicate IsSpace(c: char)
  {
    c in {' ', '\t', '\n', '\r', 11 as char, 12 as char}
  }

  function TrimStart(s: string): string
  {
    if s != "" && IsSpace(s[0]) then TrimStart(s[1..]) else s
  }

  function TrimEnd(s: string): string
  {
    if s != "" && IsSpace(s[|s| - 1]) then TrimEnd(s[..|s| - 1]) else s
  }

  function UpperCase(c: char): char
  {
    if 'a' <= c <= 'z' then ((c as int) - 32) as char else c
  }

  /** Every run of white space becomes one underscore, every letter upper case. */
  function Underscored(s: string): string
  {
    if s == "" then ""
    else if !IsSpace(s[0]) then [UpperCase(s[0])] + Underscored(s[1..])
    else if |s| > 1 && IsSpace(s[1]) then Underscored(s[1..])
    else "_" + Underscored(s[1..])
  }

  function Normalize(reason: string): string
  {
    Underscored(TrimEnd(TrimStart(reason)))
  }

  predicate CanReopen(reason: string)
  {
    Normalize(reason) == "OFFER_EXPIRED"
  }

  predicate IsPermanentDecline(reason: string)
  {
    Normalize(reason) in {"TOO_FAR", "VEHICLE_ISSUE", "PERSONAL_REASON", "OTHER"}
  }

  predicate AllSpace(s: string)
  {
    forall k :: 0 <= k < |s| ==> IsSpace(s[k])
  }

  predicate IsWord(s: string)
  {
    s != "" && forall k :: 0 <= k < |s| ==> !IsSpace(s[k])
  }

  lemma {:induction false} TrimmedStart(space: string, rest: string)
    requires AllSpace(space) && rest != "" && !IsSpace(rest[0])
    ensures TrimStart(space + rest) == rest
  {
    if space == "" {
      assert space + rest == rest;
    } else {
      assert (space + rest)[0] == space[0] && (space + rest)[1..] == space[1..] + rest;
      TrimmedStart(space[1..], rest);
    }
  }

  lemma {:induction false} TrimmedEnd(rest: string, space: string)
    requires AllSpace(space) && rest != "" && !IsSpace(rest[|rest| - 1])
    ensures TrimEnd(rest + space) == rest
  {
    if space == "" {
      assert rest + space == rest;
    } else {
      var last := |space| - 1;
      assert (rest + space)[..|rest| + last] == rest + space[..last];
      TrimmedEnd(rest, space[..last]);
    }
  }

  function Upper(s: string): string
  {
    seq(|s|, i requires 0 <= i < |s| => UpperCase(s[i]))
  }

  lemma {:induction false} UnderscoredWord(word: string, rest: string)
    requires forall k :: 0 <= k < |word| ==> !IsSpace(word[k])
    ensures Underscored(word + rest) == Upper(word) + Underscored(rest)
  {
    if word == "" {
      assert word + rest == rest;
    } else {
      assert (word + rest)[0] == word[0] && (word + rest)[1..] == word[1..] + rest;
      UnderscoredWord(word[1..], rest);
      assert Upper(word) == [UpperCase(word[0])] + Upper(word[1..]);
    }
  }

  lemma {:induction false} UnderscoredSpace(space: string, word: string)
    requires AllSpace(space) && space != "" && IsWord(word)
    ensures Underscored(space + word) == "_" + Underscored(word)
  {
    assert (space + word)[0] == space[0] && (space + word)[1..] == space[1..] + word;
    if |space| == 1 {
      assert (space + word)[1] == word[0] && space[1..] + word == word;
    } else {
      assert (space + word)[1] == space[1];
      UnderscoredSpace(space[1..], word);
    }
  }

  lemma Trimmed(before: string, core: string, after: string)
    requires AllSpace(before) && AllSpace(after)
    requires core != "" && !IsSpace(core[0]) && !IsSpace(core[|core| - 1])
    ensures TrimEnd(TrimStart(before + core + after)) == core
  {
    hide TrimStart, TrimEnd, IsSpace;
    assert before + core + after == before + (core + after);
    TrimmedStart(before, core + after);
    TrimmedEnd(core, after);
  }

  lemma UnderscoredWords(a: string, between: string, b: string)
    requires AllSpace(between) && between != "" && IsWord(a) && IsWord(b)
    ensures Underscored(a + between + b) == Upper(a) + "_" + Upper(b)
  {
    hide IsSpace, UpperCase;
    assert a + between + b == a + (between + b);
    UnderscoredWord(a, between + b);
    UnderscoredSpace(between, b);
    UnderscoredWord(b, "");
    assert b + "" == b && Upper(b) + "" == Upper(b);
  }

  /** Two words, whatever white space is around and between them. */
  lemma NormalWords(before: string, a: string, between: string, b: string, after: string)
    requires AllSpace(before) && AllSpace(between) && AllSpace(after) && between != "" && IsWord(a) && IsWord(b)
    ensures Normalize(before + (a + between + b) + after) == Upper(a) + "_" + Upper(b)
  {
    hide IsSpace, TrimStart, TrimEnd, Underscored, Upper;
    var core := a + between + b;
    assert core[0] == a[0] && core[|core| - 1] == b[|b| - 1];
    Trimmed(before, core, after);
    UnderscoredWords(a, between, b);
  }

  // ----- choosing the rider -----

  datatype Candidate = Candidate(rider: nat, workload: nat, distance: Option<int>)

  /** a sorts strictly before b: fewer open jobs, then closer, unknown last. */
  predicate Before(a: Candidate, b: Candidate)
  {
    a.workload < b.workload
    || (a.workload == b.workload && a.distance.Some? && (b.distance == None || a.distance.value < b.distance.value))
  }

  /** The first element of the stable sort of the candidates. */
  method SelectCandidate(candidates: seq<Candidate>) returns (best: nat)
    requires candidates != []
    ensures best < |candidates|
    ensures forall i :: 0 <= i < |candidates| ==> !Before(candidates[i], candidates[best])
    ensures forall i :: 0 <= i < best ==> Before(candidates[best], candidates[i])
    ensures forall i :: 0 <= i < |candidates| ==>
              var a, b := candidates[best], candidates[i];
              && a.workload <= b.workload
              && (a.workload == b.workload && b.distance.Some? ==>
                    a.distance.Some? && a.distance.value <= b.distance.value)
  {
    best := 0;
    for n := 1 to |candidates|
      invariant best < n
      invariant forall i :: 0 <= i < n ==> !Before(candidates[i], candidates[best])
      invariant forall i :: 0 <= i < best ==> Before(candidates[best], candidates[i])
    {
      if Before(candidates[n], candidates[best]) {
        best := n;
      }
    }
  }

  // ----- the committed effect of a job -----

  /** The latest offer of an order to a rider. */
  function OfferTo(offers: seq<Offer>, order: nat, rider: nat): (i: Option<nat>)
    ensures i.Some? ==> i.value < |offers| && offers[i.value].order == order && offers[i.value].rider == rider
    ensures i == None ==> forall k :: 0 <= k < |offers| ==> offers[k].order != order || offers[k].rider != rider
  {
    if offers == [] then None
    else if offers[|offers| - 1].order == order && offers[|offers| - 1].rider == rider then Some(|offers| - 1)
    else OfferTo(offers[..|offers| - 1], order, rider)
  }

  /** No later offer is to the same rider. */
  lemma {:induction false} LatestOffer(offers: seq<Offer>, order: nat, rider: nat, k: nat)
    requires k < |offers| && offers[k].order == order && offers[k].rider == rider
    ensures OfferTo(offers, order, rider).Some? && k <= OfferTo(offers, order, rider).value
  {
    if k < |offers| - 1 {
      LatestOffer(offers[..|offers| - 1], order, rider, k);
    }
  }

  predicate AnyClaimed(offers: seq<Offer>, order: nat)
  {
    exists i :: 0 <= i < |offers| && offers[i].order == order && Claimed(offers[i].status)
  }

  /** The unique constraint on (order_id, assignment_type): the job inserts
      delivery offers. */
  predicate InsertRefused(offers: seq<Offer>, order: nat)
  {
    exists i :: 0 <= i < |offers| && offers[i].order == order && offers[i].kind == DeliveryOffer
  }

  function NextStatus(s: L.Status): Option<L.Status>
  {
    if s == L.VendorAccepted then Some(L.PickupAssigned)
    else if s == L.Packed then Some(L.DeliveryAssigned)
    else None
  }

  /** The order moves on, and the step is recorded. */
  function MoveOn(db: Db, order: nat): Db
    requires order < |db.orders|
  {
    var current := db.orders[order].status;
    match NextStatus(current)
    case None => db
    case Some(next) =>
      db.(orders := db.orders[order := db.orders[order].(status := next)],
          events := db.events + [Event(order, current, next, L.System)])
  }

  /** A new offer, and an old one offered again. */
  function NewOffer(order: nat, chosen: Candidate): Offer
  {
    Offer(order, chosen.rider, Assigned, "", DeliveryOffer, chosen.distance)
  }

  function Reopened(offer: Offer, chosen: Candidate): Offer
  {
    offer.(status := Assigned, reason := "", distance := chosen.distance)
  }

  /** The transaction of a job for the chosen candidate. */
  function Offering(db: Db, order: nat, chosen: Candidate): Db
  {
    if order >= |db.orders| || !Assignable(db.orders[order].status) || db.orders[order].rider.Some?
       || AnyClaimed(db.offers, order) then db
    else
      match OfferTo(db.offers, order, chosen.rider)
      case None =>
        if InsertRefused(db.offers, order) then db
        else MoveOn(db.(offers := db.offers + [NewOffer(order, chosen)]), order)
      case Some(i) =>
        var existing := db.offers[i];
        if Open(existing.status) || IsPermanentDecline(existing.reason) || !CanReopen(existing.reason) then db
        else MoveOn(db.(offers := db.offers[i := Reopened(existing, chosen)]), order)
  }

  // ----- the riders' answers -----

  function Reject(db: Db, i: nat, reason: string): Db
  {
    if i < |db.offers| && db.offers[i].status == Assigned then
      db.(offers := db.offers[i := db.offers[i].(status := Cancelled, reason := reason)])
    else db
  }

  /** The other open offers of an order that has been accepted. */
  function CancelOthers(offers: seq<Offer>, i: nat): (r: seq<Offer>)
    requires i < |offers|
    ensures |r| == |offers|
  {
    seq(|offers|, k requires 0 <= k < |offers| =>
      if k == i then offers[k].(status := Accepted)
      else if offers[k].order == offers[i].order && offers[k].status == Assigned then
        offers[k].(status := Cancelled, reason := "Accepted by another rider")
      else offers[k])
  }

  function Accept(db: Db, i: nat): Db
  {
    if i >= |db.offers| || db.offers[i].status != Assigned || db.offers[i].order >= |db.orders| then db
    else
      var offer, order := db.offers[i], db.orders[db.offers[i].order];
      if !Acceptable(order.status) || (order.rider.Some? && order.rider.value != offer.rider) then db
      else
        db.(orders := db.orders[offer.order := order.(rider := Some(offer.rider))],
            offers := CancelOthers(db.offers, i))
  }

  /** Jobs, whatever candidate they chose on what they read before locking, and
      the answers of riders. */
  datatype Step =
    | Job(order: nat, chosen: Candidate)
    | RejectOffer(index: nat, reason: string)
    | AcceptOffer(index: nat)

  function Apply(db: Db, step: Step): Db
  {
    match step
    case Job(order, chosen) => Offering(db, order, chosen)
    case RejectOffer(i, reason) => Reject(db, i, reason)
    case AcceptOffer(i) => Accept(db, i)
  }

  function Run(db: Db, steps: seq<Step>): Db
    decreases |steps|
  {
    if steps == [] then db else Run(Apply(db, steps[0]), steps[1..])
  }

  // ----- what holds over whole runs -----

  /** At most one offer for each order and rider. */
  ghost predicate OneOfferEach(offers: seq<Offer>)
  {
    forall i, j :: 0 <= i < j < |offers| ==> offers[i].order != offers[j].order || offers[i].rider != offers[j].rider
  }

  /** At most one offer for each order and assignment type. */
  ghost predicate OneOfEachKind(offers: seq<Offer>)
  {
    forall i, j :: 0 <= i < j < |offers| ==> offers[i].order != offers[j].order || offers[i].kind != offers[j].kind
  }

  /** An offer keeps its order, rider and type.  It becomes ASSIGNED again only
      after OFFER_EXPIRED, and stays as it is after a permanent decline. */
  ghost predicate OfferKept(before: Offer, after: Offer)
  {
    && after.order == before.order && after.rider == before.rider && after.kind == before.kind
    && (before.status != Assigned && after.status == Assigned ==> CanReopen(before.reason))
    && (before.status == Cancelled && IsPermanentDecline(before.reason) ==> after == before)
  }

  ghost predicate OffersKept(before: seq<Offer>, after: seq<Offer>)
  {
    && |before| <= |after|
    && forall i :: 0 <= i < |before| ==> OfferKept(before[i], after[i])
  }

  /** An order's status changes only by a step the lifecycle allows the system. */
  ghost predicate OrdersKept(before: seq<Order>, after: seq<Order>)
  {
    && |before| == |after|
    && forall i :: 0 <= i < |before| ==> L.ValidateTransition(before[i].status, after[i].status, L.System) == L.Valid
  }

  /** Every recorded event is a real step the lifecycle allows the system. */
  ghost predicate EventsValid(events: seq<Event>)
  {
    forall i :: 0 <= i < |events| ==>
      && events[i].role == L.System
      && events[i].oldStatus != events[i].newStatus
      && L.ValidateTransition(events[i].oldStatus, events[i].newStatus, L.System) == L.Valid
  }

  /** All that a step keeps. */
  ghost predicate Keeps(db: Db, db': Db)
  {
    && OffersKept(db.offers, db'.offers)
    && OrdersKept(db.orders, db'.orders)
    && (OneOfferEach(db.offers) ==> OneOfferEach(db'.offers))
    && (OneOfEachKind(db.offers) ==> OneOfEachKind(db'.offers))
    && (EventsValid(db.events) ==> EventsValid(db'.events))
  }

  lemma MoveOnKeeps(db: Db, order: nat)
    requires order < |db.orders|
    ensures OrdersKept(db.orders, MoveOn(db, order).orders) && MoveOn(db, order).offers == db.offers
    ensures EventsValid(db.events) ==> EventsValid(MoveOn(db, order).events)
  {
  }

  lemma JobKeeps(db: Db, order: nat, chosen: Candidate)
    ensures Keeps(db, Offering(db, order, chosen))
  {
    hide MoveOn, OrdersKept, EventsValid, Normalize;
    NoChange(db);
    if order < |db.orders| {
      MoveOnKeeps(db, order);
      var i := OfferTo(db.offers, order, chosen.rider);
      if i == None {
        MoveOnKeeps(db.(offers := db.offers + [NewOffer(order, chosen)]), order);
      } else {
        MoveOnKeeps(db.(offers := db.offers[i.value := Reopened(db.offers[i.value], chosen)]), order);
      }
    }
  }

  lemma NoChange(db: Db)
    ensures Keeps(db, db)
  {
  }

  lemma RejectKeeps(db: Db, i: nat, reason: string)
    ensures Keeps(db, Reject(db, i, reason))
  {
    hide CanReopen, IsPermanentDecline, EventsValid;
  }

  lemma AcceptKeeps(db: Db, i: nat)
    ensures Keeps(db, Accept(db, i))
  {
    hide CanReopen, IsPermanentDecline, EventsValid, Acceptable;
  }

  lemma StepKeeps(db: Db, step: Step)
    ensures Keeps(db, Apply(db, step))
  {
    hide Keeps, Offering, Reject, Accept;
    match step
    case Job(order, chosen) => JobKeeps(db, order, chosen);
    case RejectOffer(i, reason) => RejectKeeps(db, i, reason);
    case AcceptOffer(i) => AcceptKeeps(db, i);
  }

  /** Over any run, an order never has two offers to the same rider, nor two
      offers of the same type, and every status the jobs wrote is a step the
      lifecycle allows the system. */
  lemma {:induction false} RunKeepsOffersUnique(db: Db, steps: seq<Step>)
    requires OneOfferEach(db.offers) && OneOfEachKind(db.offers) && EventsValid(db.events)
    ensures var db' := Run(db, steps); OneOfferEach(db'.offers) && OneOfEachKind(db'.offers) && EventsValid(db'.events)
    decreases |steps|
  {
    hide OneOfferEach, OneOfEachKind, EventsValid, Apply;
    if steps != [] {
      StepKeeps(db, steps[0]);
      RunKeepsOffersUnique(Apply(db, steps[0]), steps[1..]);
    }
  }

  /** An offer cancelled for a permanent reason is never touched again. */
  lemma {:induction false} PermanentDeclineStays(db: Db, steps: seq<Step>, i: nat)
    requires i < |db.offers| && db.offers[i].status == Cancelled && IsPermanentDecline(db.offers[i].reason)
    ensures i < |Run(db, steps).offers| && Run(db, steps).offers[i] == db.offers[i]
    decreases |steps|
  {
    hide Apply, IsPermanentDecline, CanReopen;
    if steps != [] {
      StepKeeps(db, steps[0]);
      assert OfferKept(db.offers[i], Apply(db, steps[0]).offers[i]);
      PermanentDeclineStays(Apply(db, steps[0]), steps[1..], i);
    }
  }

  // ----- what a job and the answers do -----

  /** The job may offer the order to the rider: the order is CONFIRMED, PREPARING,
      PACKED or VENDOR_ACCEPTED, has no rider and no offer under way, and either
      had no delivery offer and none to this rider, or its latest offer to this
      rider is closed and expired. */
  predicate MayOffer(db: Db, order: nat, rider: nat)
  {
    && order < |db.orders| && db.orders[order].rider == None
    && db.orders[order].status in {L.Unknown("CONFIRMED"), L.Unknown("PREPARING"), L.Packed, L.VendorAccepted}
    && (forall k :: 0 <= k < |db.offers| && db.offers[k].order == order ==>
          db.offers[k].status !in {Accepted, PickedUp, InTransit})
    && match OfferTo(db.offers, order, rider)
       case None => forall k :: 0 <= k < |db.offers| && db.offers[k].order == order ==> db.offers[k].kind == PickupOffer
       case Some(i) =>
         db.offers[i].status in {Delivered, Cancelled} && Normalize(db.offers[i].reason) == "OFFER_EXPIRED"
  }

  /** The rider has the offer, and a VENDOR_ACCEPTED or PACKED order has moved on
      with a recorded step. */
  ghost predicate IsOfferedIn(db: Db, db': Db, order: nat, chosen: Candidate)
    requires order < |db.orders|
  {
    && (match OfferTo(db.offers, order, chosen.rider)
        case None =>
          db'.offers == db.offers + [Offer(order, chosen.rider, Assigned, "", DeliveryOffer, chosen.distance)]
        case Some(i) =>
          db'.offers == db.offers[i := Offer(order, chosen.rider, Assigned, "", db.offers[i].kind, chosen.distance)])
    && (match db.orders[order].status
        case VendorAccepted =>
          && db'.orders == db.orders[order := Order(L.PickupAssigned, None)]
          && db'.events == db.events + [Event(order, L.VendorAccepted, L.PickupAssigned, L.System)]
        case Packed =>
          && db'.orders == db.orders[order := Order(L.DeliveryAssigned, None)]
          && db'.events == db.events + [Event(order, L.Packed, L.DeliveryAssigned, L.System)]
        case _ => db'.orders == db.orders && db'.events == db.events)
  }

  /** A job makes the offer exactly when it may, and otherwise changes nothing. */
  lemma JobOffers(db: Db, order: nat, chosen: Candidate)
    ensures if MayOffer(db, order, chosen.rider) then IsOfferedIn(db, Offering(db, order, chosen), order, chosen)
            else Offering(db, order, chosen) == db
  {
    hide Normalize;
    var i := OfferTo(db.offers, order, chosen.rider);
    if i.Some? {
      DeclineIsNotExpiry(db.offers[i.value].reason);
    }
  }

  /** Rejecting closes exactly an offer that is still open to an answer. */
  lemma RejectIs(db: Db, i: nat, reason: string)
    ensures var db' := Reject(db, i, reason);
            if i < |db.offers| && db.offers[i].status == Assigned then
              var o := db.offers[i];
              && db'.offers == db.offers[i := Offer(o.order, o.rider, Cancelled, reason, o.kind, o.distance)]
              && db' == db.(offers := db'.offers)
            else db' == db
  {
  }

  /** A rider accepts exactly an open offer of an order that is CONFIRMED,
      PREPARING or PACKED and has no other rider: the rider gets the order, and
      its other open offers are cancelled. */
  lemma AcceptIs(db: Db, i: nat)
    ensures var db' := Accept(db, i);
            if && i < |db.offers| && db.offers[i].status == Assigned && db.offers[i].order < |db.orders|
               && var o := db.orders[db.offers[i].order];
                  o.status in {L.Unknown("CONFIRMED"), L.Unknown("PREPARING"), L.Packed}
                  && (o.rider == None || o.rider == Some(db.offers[i].rider))
            then
              var n, rider := db.offers[i].order, db.offers[i].rider;
              && db'.orders == db.orders[n := Order(db.orders[n].status, Some(rider))] && db'.events == db.events
              && |db'.offers| == |db.offers|
              && forall k :: 0 <= k < |db.offers| ==>
                   var o := db.offers[k];
                   db'.offers[k] ==
                     if k == i then Offer(n, rider, Accepted, o.reason, o.kind, o.distance)
                     else if o.order == n && o.status == Assigned then
                       Offer(n, o.rider, Cancelled, "Accepted by another rider", o.kind, o.distance)
                     else o
            else db' == db
  {
  }

  // ----- what becomes of an offer -----

  predicate OnlyOffer(offers: seq<Offer>, order: nat, i: nat)
  {
    && i < |offers| && offers[i].order == order
    && forall k :: 0 <= k < |offers| && k != i ==> offers[k].order != order
  }

  /** After a decline the job is queued again for the order. */
  predicate Requeues(db: Db, order: nat)
  {
    && order < |db.orders|
    && Acceptable(db.orders[order].status) && db.orders[order].rider == None
    && forall k :: 0 <= k < |db.offers| && db.offers[k].order == order ==> !Open(db.offers[k].status)
  }

  /** The job may offer the order. */
  predicate Offerable(order: Order)
  {
    Assignable(order.status) && order.rider == None
  }

  /** The order and its only offer are as they were. */
  ghost predicate Unmoved(db: Db, db': Db, order: nat, i: nat)
    requires order < |db.orders| && i < |db.offers|
  {
    && order < |db'.orders| && db'.orders[order] == db.orders[order]
    && OnlyOffer(db'.offers, order, i) && db'.offers[i] == db.offers[i]
  }

  /** No run of jobs and answers ever changes the order or its offer. */
  ghost predicate NeverMoves(db: Db, order: nat, i: nat)
  {
    && order < |db.orders| && i < |db.offers|
    && forall steps :: Unmoved(db, Run(db, steps), order, i)
  }

  /** The only offer of the order is closed, and no job can make another or open
      it again: it is a delivery offer whose reason forbids it, or the job passes
      over the order. */
  predicate Stranded(db: Db, order: nat, i: nat)
  {
    && order < |db.orders| && OnlyOffer(db.offers, order, i)
    && !Open(db.offers[i].status)
    && ((db.offers[i].kind == DeliveryOffer && !CanReopen(db.offers[i].reason)) || !Offerable(db.orders[order]))
  }

  lemma ApplyLeavesUnmoved(db: Db, step: Step, order: nat, i: nat)
    requires Stranded(db, order, i)
    ensures Unmoved(db, Apply(db, step), order, i)
  {
    hide Assignable, Acceptable, CanReopen, IsPermanentDecline;
    if step.Job? && step.order == order {
      assert db.offers[i].kind == DeliveryOffer ==> InsertRefused(db.offers, order);
    }
  }

  /** A stranded order stays as it is, and its offer is its last one, over any
      run: the unique constraint refuses every other. */
  lemma {:induction false} RunLeavesUnmoved(db: Db, steps: seq<Step>, order: nat, i: nat)
    requires Stranded(db, order, i)
    ensures Unmoved(db, Run(db, steps), order, i)
    decreases |steps|
  {
    hide Apply, CanReopen, Offerable;
    if steps != [] {
      ApplyLeavesUnmoved(db, steps[0], order, i);
      RunLeavesUnmoved(Apply(db, steps[0]), steps[1..], order, i);
    }
  }

  /** A permanent decline and an expired offer are never the same reason. */
  lemma DeclineIsNotExpiry(reason: string)
    ensures !(CanReopen(reason) && IsPermanentDecline(reason))
  {
    hide Normalize;
  }

  /** An expired offer can be offered again to the same rider. */
  lemma ExpiredIsReoffered(db: Db, order: nat, i: nat)
    requires order < |db.orders| && Offerable(db.orders[order])
    requires OnlyOffer(db.offers, order, i) && !Open(db.offers[i].status) && CanReopen(db.offers[i].reason)
    ensures !Unmoved(db, Run(db, [Job(order, Candidate(db.offers[i].rider, 0, None))]), order, i)
  {
    hide CanReopen, IsPermanentDecline, MoveOn, Run;
    var chosen := Candidate(db.offers[i].rider, 0, None);
    DeclineIsNotExpiry(db.offers[i].reason);
    assert OfferTo(db.offers, order, chosen.rider) == Some(i);
    var reopened := db.(offers := db.offers[i := Reopened(db.offers[i], chosen)]);
    MoveOnKeeps(reopened, order);
    assert Apply(db, Job(order, chosen)).offers == reopened.offers;
    OneStep(db, Job(order, chosen));
  }

  /** Beside a closed pickup offer the job can make a delivery offer to another rider. */
  lemma PickupLeavesRoom(db: Db, order: nat, i: nat)
    requires order < |db.orders| && Offerable(db.orders[order])
    requires OnlyOffer(db.offers, order, i) && !Open(db.offers[i].status) && db.offers[i].kind == PickupOffer
    ensures !Unmoved(db, Run(db, [Job(order, Candidate(db.offers[i].rider + 1, 0, None))]), order, i)
  {
    hide CanReopen, IsPermanentDecline, MoveOn, Run;
    var chosen := Candidate(db.offers[i].rider + 1, 0, None);
    var offered := db.(offers := db.offers + [NewOffer(order, chosen)]);
    MoveOnKeeps(offered, order);
    assert Apply(db, Job(order, chosen)).offers == offered.offers;
    assert offered.offers[|db.offers|].order == order;
    OneStep(db, Job(order, chosen));
  }

  lemma OneStep(db: Db, step: Step)
    ensures Run(db, [step]) == Apply(db, step)
  {
    hide Apply;
  }

  /** A rider declines the only offer of an order.  The job is queued again for
      the order if and only if riders could accept it and it has no rider.  No
      run of jobs and answers ever changes the order or its offer again if and
      only if it was a delivery offer and the reason is not OFFER_EXPIRED, or the
      job passes over the order. */
  lemma DeclineStrands(db: Db, order: nat, i: nat, reason: string)
    requires order < |db.orders| && OnlyOffer(db.offers, order, i) && db.offers[i].status == Assigned
    ensures var db' := Reject(db, i, reason);
            && (Requeues(db', order) <==> Acceptable(db.orders[order].status) && db.orders[order].rider == None)
            && (NeverMoves(db', order, i)
                <==> (db.offers[i].kind == DeliveryOffer && !CanReopen(reason)) || !Offerable(db.orders[order]))
            && (IsPermanentDecline(reason) ==> !CanReopen(reason))
  {
    hide Run, CanReopen, IsPermanentDecline, Acceptable, Offerable, Unmoved;
    DeclineIsNotExpiry(reason);
    var db' := Reject(db, i, reason);
    if Offerable(db.orders[order]) && CanReopen(reason) {
      ExpiredIsReoffered(db', order, i);
    } else if Offerable(db.orders[order]) && db.offers[i].kind == PickupOffer {
      PickupLeavesRoom(db', order, i);
    } else {
      forall steps
        ensures Unmoved(db', Run(db', steps), order, i)
      {
        RunLeavesUnmoved(db', steps, order, i);
      }
    }
  }

  /** The statuses in which the job offers an order and leaves its status alone. */
  predicate StaysPut(s: L.Status)
  {
    s in {L.Unknown("CONFIRMED"), L.Unknown("PREPARING")}
  }

  predicate NoOffer(offers: seq<Offer>, order: nat)
  {
    forall k :: 0 <= k < |offers| ==> offers[k].order != order
  }

  /** What a job that changed anything has done: the order was offerable, and now
      has an offer to the chosen rider in a status that riders can accept if and
      only if the job did not have to move the order on. */
  lemma OfferMade(db: Db, order: nat, chosen: Candidate) returns (i: nat)
    requires Offering(db, order, chosen) != db
    ensures order < |db.orders| && Offerable(db.orders[order])
    ensures var db' := Offering(db, order, chosen);
            && |db'.orders| == |db.orders| && db'.orders[order].rider == None
            && i < |db'.offers| && db'.offers[i].order == order && db'.offers[i].status == Assigned
            && (Acceptable(db'.orders[order].status) <==> StaysPut(db.orders[order].status))
            && (Assignable(db'.orders[order].status) <==> StaysPut(db.orders[order].status))
    ensures NoOffer(db.offers, order) ==>
              var db' := Offering(db, order, chosen);
              i == |db.offers| && OnlyOffer(db'.offers, order, i) && db'.offers[i].kind == DeliveryOffer
  {
    hide Normalize;
    var found := OfferTo(db.offers, order, chosen.rider);
    i := if found == None then |db.offers| else found.value;
  }

  lemma ApplyKeepsUnassigned(db: Db, step: Step, order: nat)
    requires order < |db.orders| && !Assignable(db.orders[order].status) && !Acceptable(db.orders[order].status)
    ensures order < |Apply(db, step).orders| && Apply(db, step).orders[order] == db.orders[order]
  {
    hide Assignable, Acceptable, CanReopen, IsPermanentDecline;
  }

  lemma {:induction false} RunKeepsUnassigned(db: Db, steps: seq<Step>, order: nat)
    requires order < |db.orders| && !Assignable(db.orders[order].status) && !Acceptable(db.orders[order].status)
    ensures order < |Run(db, steps).orders| && Run(db, steps).orders[order] == db.orders[order]
    decreases |steps|
  {
    hide Apply, Assignable, Acceptable;
    if steps != [] {
      ApplyKeepsUnassigned(db, steps[0], order);
      RunKeepsUnassigned(Apply(db, steps[0]), steps[1..], order);
    }
  }

  ghost predicate HasRider(db: Db, order: nat)
  {
    order < |db.orders| && db.orders[order].rider.Some?
  }

  /** Once a job has made an offer, some run of jobs and answers gives the order a
      rider if and only if its status was CONFIRMED or PREPARING.  The offers of
      VENDOR_ACCEPTED and PACKED orders are refused in the status that the job
      itself has just written. */
  lemma OfferCanBeAccepted(db: Db, order: nat, chosen: Candidate)
    requires Offering(db, order, chosen) != db
    ensures (exists steps :: HasRider(Run(Offering(db, order, chosen), steps), order))
       <==> StaysPut(db.orders[order].status)
  {
    hide Offering, Run, Acceptable, Assignable, StaysPut;
    var i := OfferMade(db, order, chosen);
    var db' := Offering(db, order, chosen);
    if StaysPut(db.orders[order].status) {
      OneStep(db', AcceptOffer(i));
      assert HasRider(Run(db', [AcceptOffer(i)]), order);
    } else {
      forall steps
        ensures !HasRider(Run(db', steps), order)
      {
        RunKeepsUnassigned(db', steps, order);
      }
    }
  }

  /** The first offer of an order, made by the job and then declined: the job is
      queued again if and only if the order was CONFIRMED or PREPARING, and the
      order is stranded if and only if it was not or the reason is not OFFER_EXPIRED. */
  lemma FirstOfferDeclined(db: Db, order: nat, chosen: Candidate, reason: string)
    requires NoOffer(db.offers, order) && Offering(db, order, chosen) != db
    ensures order < |db.orders|
    ensures var i, requeued := |db.offers|, StaysPut(db.orders[order].status);
            var db' := Reject(Offering(db, order, chosen), i, reason);
            && (Requeues(db', order) <==> requeued)
            && (NeverMoves(db', order, i) <==> !CanReopen(reason) || !requeued)
  {
    hide Offering, Acceptable, Assignable, StaysPut, CanReopen, NeverMoves, Reject, NoOffer;
    var i := OfferMade(db, order, chosen);
    DeclineStrands(Offering(db, order, chosen), order, i, reason);
  }

  /** Upper-case text without white space is normal already. */
  lemma {:induction false} AlreadyNormal(s: string)
    requires forall k :: 0 <= k < |s| ==> s[k] == '_' || 'A' <= s[k] <= 'Z'
    ensures Normalize(s) == s
    decreases |s|
  {
    if s != "" {
      AlreadyNormal(s[1..]);
      assert Underscored(s) == [s[0]] + Underscored(s[1..]);
    }
  }

  lemma SomeReasons()
    ensures CanReopen("OFFER_EXPIRED") && IsPermanentDecline("TOO_FAR")
    ensures CanReopen(" Offer\t expired\n")
  {
    hide Normalize;
    NormalWords(" ", "Offer", "\t ", "expired", "\n");
    assert " " + ("Offer" + "\t " + "expired") + "\n" == " Offer\t expired\n";
    assert Upper("Offer") == "OFFER" && Upper("expired") == "EXPIRED";
    AlreadyNormal("OFFER_EXPIRED");
    AlreadyNormal("TOO_FAR");
  }

  lemma OneOrder(s: L.Status, rider: nat)
    requires Assignable(s)
    ensures Offering(Db([Order(s, None)], [], []), 0, Candidate(rider, 0, None)) != Db([Order(s, None)], [], [])
  {
    hide Assignable;
    var db := Db([Order(s, None)], [], []);
    assert Offering(db, 0, Candidate(rider, 0, None)).offers != [];
  }

  /** A CONFIRMED order is requeued after its first offer is declined with TOO_FAR,
      yet stranded; a PACKED one is stranded even when its offer expires. */
  lemma StrandedOrders(rider: nat)
    ensures var db := Db([Order(L.Unknown("CONFIRMED"), None)], [], []);
            var db' := Reject(Offering(db, 0, Candidate(rider, 0, None)), 0, "TOO_FAR");
            Requeues(db', 0) && NeverMoves(db', 0, 0)
    ensures var db := Db([Order(L.Packed, None)], [], []);
            var db' := Reject(Offering(db, 0, Candidate(rider, 0, None)), 0, "OFFER_EXPIRED");
            !Requeues(db', 0) && NeverMoves(db', 0, 0)
  {
    hide NeverMoves, CanReopen, IsPermanentDecline, Requeues, Offering, Reject;
    SomeReasons();
    DeclineIsNotExpiry("TOO_FAR");
    var chosen := Candidate(rider, 0, None);
    OneOrder(L.Unknown("CONFIRMED"), rider);
    OneOrder(L.Packed, rider);
    FirstOfferDeclined(Db([Order(L.Unknown("CONFIRMED"), None)], [], []), 0, chosen, "TOO_FAR");
    FirstOfferDeclined(Db([Order(L.Packed, None)], [], []), 0, chosen, "OFFER_EXPIRED");
  }

  // ----- the job -----

  datatype JobReply = NotAssigned | OfferedTo(rider: nat)

  class AutoAssigner {
    var db: Db

    constructor (db: Db)
      ensures this.db == db
    {
      this.db := db;
    }

    /** One job: pick the best candidate, lock the order, and offer it to that
        candidate if no rule forbids it. */
    method HandleAutoAssign(order: nat, shopHasCoordinates: bool, candidates: seq<Candidate>) returns (reply: JobReply)
      modifies this
      ensures if order >= |old(db).orders| || !Offerable(old(db).orders[order])
                 || !shopHasCoordinates || candidates == []
              then db == old(db)
              else exists best :: 0 <= best < |candidates| && IsBest(candidates, best)
                                  && db == Offering(old(db), order, candidates[best])
      ensures reply.OfferedTo? ==> exists i :: 0 <= i < |db.offers| && db.offers[i].order == order
                                               && db.offers[i].rider == reply.rider && db.offers[i].status == Assigned
      ensures reply == NotAssigned ==> db == old(db)
    {
      if order >= |db.orders| || !Assignable(db.orders[order].status) || db.orders[order].rider.Some? {
        return NotAssigned;
      }
      if !shopHasCoordinates || |candidates| == 0 {
        return NotAssigned;
      }
      hide Assignable, Normalize, Before;
      var best := SelectCandidate(candidates);
      var chosen := candidates[best];
      assert IsBest(candidates, best);

      var tx := db;
      if AnyClaimed(tx.offers, order) {
        return NotAssigned;
      }
      var existing := OfferTo(tx.offers, order, chosen.rider);
      if existing.Some? && Open(tx.offers[existing.value].status) {
        return NotAssigned;
      }
      if existing.Some? && IsPermanentDecline(tx.offers[existing.value].reason) {
        return NotAssigned;
      }
      ghost var at: nat;
      if existing.Some? && CanReopen(tx.offers[existing.value].reason) {
        var i := existing.value;
        at := i;
        var reopened := tx.offers[i].(status := Assigned, reason := "", distance := chosen.distance);
        tx := tx.(offers := tx.offers[i := reopened]);
      } else if existing == None {
        if InsertRefused(tx.offers, order) {
          return NotAssigned;
        }
        at := |tx.offers|;
        tx := tx.(offers := tx.offers + [Offer(order, chosen.rider, Assigned, "", DeliveryOffer, chosen.distance)]);
      } else {
        return NotAssigned;
      }
      var current := tx.orders[order].status;
      var next := NextStatus(current);
      if next.Some? {
        tx := tx.(orders := tx.orders[order := tx.orders[order].(status := next.value)]);
        tx := tx.(events := tx.events + [Event(order, current, next.value, L.System)]);
      }
      db := tx;
      assert db.offers[at].rider == chosen.rider;
      return OfferedTo(chosen.rider);
    }
  }

  /** The first of the candidates that no other one is before. */
  ghost predicate IsBest(candidates: seq<Candidate>, best: nat)
    requires best < |candidates|
  {
    && (forall i :: 0 <= i < |candidates| ==> !Before(candidates[i], candidates[best]))
    && (forall i :: 0 <= i < best ==> Before(candidates[best], candidates[i]))
  }
}
