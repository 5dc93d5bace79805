/** The order lifecycle: which status may follow which, and which role may ask
    for it. */
module OrderLifecycle {
  /** The statuses of the state machine, and older ones it does not know. */
  datatype Status =
    | PaymentPending | PaymentConfirmed | WaitingVendorConfirmation | VendorAccepted
    | PickupAssigned | GoingForPickup | PickupOtpVerified | PickedUp
    | ReceivedAtVendor | Washing | Drying | Ironing | Packed
    | DeliveryAssigned | OutForDelivery | DeliveryOtpVerified | Delivered
    | PaymentFailed | VendorRejected | AutoRejected | CustomerCancelled | AdminCancelled | Refunded
    | Unknown(name: string)

  /** Roles after upper-casing; a role the rules do not name is Other. */
  datatype Role =
    | Customer | VendorOwner | VendorStaff | Rider | System | Admin | SuperAdmin | FinanceAdmin
    | Other(name: string)

  function TransitionRules(s: Status): set<Status>
  {
    match s
    case PaymentPending => {PaymentConfirmed, PaymentFailed, CustomerCancelled, AdminCancelled}
    case PaymentConfirmed => {WaitingVendorConfirmation, CustomerCancelled, AdminCancelled}
    case WaitingVendorConfirmation => {VendorAccepted, VendorRejected, AutoRejected, CustomerCancelled, AdminCancelled}
    case VendorAccepted => {PickupAssigned, GoingForPickup, ReceivedAtVendor, CustomerCancelled, AdminCancelled}
    case PickupAssigned => {GoingForPickup, PickupOtpVerified, ReceivedAtVendor, AdminCancelled}
    case GoingForPickup => {PickupOtpVerified, PickedUp, ReceivedAtVendor, AdminCancelled}
    case PickupOtpVerified => {PickedUp, ReceivedAtVendor, AdminCancelled}
    case PickedUp => {ReceivedAtVendor, AdminCancelled}
    case ReceivedAtVendor => {Washing, Drying, Ironing, Packed, AdminCancelled}
    case Washing => {Drying, Ironing, Packed, AdminCancelled}
    case Drying => {Ironing, Packed, AdminCancelled}
    case Ironing => {Packed, AdminCancelled}
    case Packed => {DeliveryAssigned, OutForDelivery, Delivered, AdminCancelled}
    case DeliveryAssigned => {OutForDelivery, DeliveryOtpVerified, Delivered, AdminCancelled}
    case OutForDelivery => {DeliveryOtpVerified, Delivered, AdminCancelled}
    case DeliveryOtpVerified => {Delivered, AdminCancelled}
    case Delivered => {Refunded}
    case VendorRejected => {Refunded}
    case AutoRejected => {Refunded}
    case CustomerCancelled => {Refunded}
    case AdminCancelled => {Refunded}
    case PaymentFailed => {}
    case Refunded => {}
    case Unknown(_) => {}
  }

  function RoleRules(next: Status): set<Role>
  {
    var vendor := {VendorOwner, VendorStaff, Admin, SuperAdmin};
    match next
    case PaymentConfirmed => {System, Admin, SuperAdmin}
    case CustomerCancelled => {Customer, Admin, SuperAdmin}
    case VendorAccepted => vendor
    case VendorRejected => vendor
    case ReceivedAtVendor => vendor
    case Washing => vendor
    case Drying => vendor
    case Ironing => vendor
    case Packed => vendor
    case PickupAssigned => vendor + {System}
    case GoingForPickup => vendor + {Rider}
    case PickupOtpVerified => vendor + {Rider}
    case PickedUp => vendor + {Rider}
    case DeliveryAssigned => vendor + {System}
    case OutForDelivery => vendor + {Rider}
    case DeliveryOtpVerified => vendor + {Rider}
    case Delivered => vendor + {Rider}
    case WaitingVendorConfirmation => {System, Admin, SuperAdmin}
    case PaymentFailed => {System, Admin, SuperAdmin}
    case AutoRejected => {System, Admin, SuperAdmin}
    case AdminCancelled => {Admin, SuperAdmin}
    case Refunded => {FinanceAdmin, SuperAdmin, Admin}
    case PaymentPending => {}
    case Unknown(_) => {}
  }

  datatype Verdict = Valid | InvalidTransition | Forbidden

  function ValidateTransition(current: Status, next: Status, role: Role): Verdict
  {
    if current == next then Valid
    else if next !in TransitionRules(current) then InvalidTransition
    else if RoleRules(next) != {} && role !in RoleRules(next) then Forbidden
    else Valid
  }

  // ----- runs -----

  /** A history of accepted transitions: the status after each, and who asked. */
  ghost predicate IsRun(history: seq<Status>, roles: seq<Role>)
  {
    && |history| == |roles| + 1
    && history[0] == PaymentPending
    && forall i :: 0 <= i < |roles| ==> ValidateTransition(history[i], history[i + 1], roles[i]) == Valid
  }

  /** How often the status really changes. */
  function Changes(history: seq<Status>): nat
  {
    if |history| <= 1 then 0
    else Changes(history[..|history| - 1]) + if history[|history| - 2] == history[|history| - 1] then 0 else 1
  }

  /** The most status changes a run can have behind it. */
  function Rank(s: Status): nat
  {
    match s
    case PaymentPending => 0
    case PaymentConfirmed => 1
    case WaitingVendorConfirmation => 2
    case VendorAccepted => 3
    case PickupAssigned => 4
    case GoingForPickup => 5
    case PickupOtpVerified => 6
    case PickedUp => 7
    case ReceivedAtVendor => 8
    case Washing => 9
    case Drying => 10
    case Ironing => 11
    case Packed => 12
    case DeliveryAssigned => 13
    case OutForDelivery => 14
    case DeliveryOtpVerified => 15
    case Delivered => 16
    case AdminCancelled => 16
    case Refunded => 17
    case _ => 4
  }

  lemma RankRises(s: Status, t: Status)
    requires t in TransitionRules(s)
    ensures Rank(s) < Rank(t) <= 17
  {
  }

  lemma {:induction false} ChangesWithinRank(history: seq<Status>, roles: seq<Role>)
    requires IsRun(history, roles)
    ensures Changes(history) <= Rank(history[|history| - 1]) <= 17
    decreases |history|
  {
    hide TransitionRules, RoleRules, Rank;
    if roles == [] {
      assert Rank(PaymentPending) == 0 by {
        StartRank();
      }
    } else {
      var n := |roles|;
      ChangesWithinRank(history[..n], roles[..n - 1]);
      assert ValidateTransition(history[n - 1], history[n], roles[n - 1]) == Valid;
      if history[n - 1] != history[n] {
        RankRises(history[n - 1], history[n]);
      }
    }
  }

  lemma StartRank()
    ensures Rank(PaymentPending) == 0
  {
  }

  /** Every run changes the status at most 17 times. */
  lemma AtMost17Changes(history: seq<Status>, roles: seq<Role>)
    requires IsRun(history, roles)
    ensures Changes(history) <= 17
  {
    hide Rank;
    ChangesWithinRank(history, roles);
  }

  /** The next status on the longest way to a refund. */
  function Onward(s: Status): Status
  {
    match s
    case PaymentPending => PaymentConfirmed
    case PaymentConfirmed => WaitingVendorConfirmation
    case WaitingVendorConfirmation => VendorAccepted
    case VendorAccepted => PickupAssigned
    case PickupAssigned => GoingForPickup
    case GoingForPickup => PickupOtpVerified
    case PickupOtpVerified => PickedUp
    case PickedUp => ReceivedAtVendor
    case ReceivedAtVendor => Washing
    case Washing => Drying
    case Drying => Ironing
    case Ironing => Packed
    case Packed => DeliveryAssigned
    case DeliveryAssigned => OutForDelivery
    case OutForDelivery => DeliveryOtpVerified
    case DeliveryOtpVerified => Delivered
    case _ => Refunded
  }

  function Path(n: nat): (p: seq<Status>)
    ensures |p| == n + 1
  {
    if n == 0 then [PaymentPending] else Path(n - 1) + [Onward(Path(n - 1)[n - 1])]
  }

  predicate OnTheWay(s: Status)
  {
    Onward(s) != Refunded || s == Delivered
  }

  lemma OnwardIsAllowed(s: Status)
    requires OnTheWay(s)
    ensures ValidateTransition(s, Onward(s), SuperAdmin) == Valid && s != Onward(s)
    ensures Rank(Onward(s)) == Rank(s) + 1
    ensures Rank(Onward(s)) < 17 ==> OnTheWay(Onward(s))
  {
  }

  lemma StartOfTheWay()
    ensures OnTheWay(PaymentPending) && Rank(PaymentPending) == 0
  {
  }

  /** The bound is reached: a super admin can walk an order through 17 changes. */
  lemma {:induction false} LongestRun(n: nat)
    requires n <= 17
    ensures IsRun(Path(n), seq(n, _ => SuperAdmin)) && Changes(Path(n)) == n
    ensures Rank(Path(n)[n]) == n && (n < 17 ==> OnTheWay(Path(n)[n]))
  {
    hide ValidateTransition, Onward, OnTheWay, Rank;
    if n == 0 {
      StartOfTheWay();
    } else {
      LongestRun(n - 1);
      OnwardIsAllowed(Path(n - 1)[n - 1]);
      assert Path(n)[..n] == Path(n - 1);
      forall i | 0 <= i < n
        ensures ValidateTransition(Path(n)[i], Path(n)[i + 1], SuperAdmin) == Valid
      {
        if i < n - 1 {
          assert Path(n)[i] == Path(n - 1)[i] && Path(n)[i + 1] == Path(n - 1)[i + 1];
          assert ValidateTransition(Path(n - 1)[i], Path(n - 1)[i + 1], seq(n - 1, _ => SuperAdmin)[i]) == Valid;
        }
      }
    }
  }

  // ----- the stages a delivered order has passed -----

  /** The milestones behind an order in this status. */
  function Milestones(s: Status): seq<Status>
  {
    match s
    case WaitingVendorConfirmation => [WaitingVendorConfirmation]
    case VendorAccepted => [WaitingVendorConfirmation, VendorAccepted]
    case PickupAssigned => [WaitingVendorConfirmation, VendorAccepted]
    case GoingForPickup => [WaitingVendorConfirmation, VendorAccepted]
    case PickupOtpVerified => [WaitingVendorConfirmation, VendorAccepted]
    case PickedUp => [WaitingVendorConfirmation, VendorAccepted]
    case ReceivedAtVendor => [WaitingVendorConfirmation, VendorAccepted, ReceivedAtVendor]
    case Washing => [WaitingVendorConfirmation, VendorAccepted, ReceivedAtVendor]
    case Drying => [WaitingVendorConfirmation, VendorAccepted, ReceivedAtVendor]
    case Ironing => [WaitingVendorConfirmation, VendorAccepted, ReceivedAtVendor]
    case Packed => [WaitingVendorConfirmation, VendorAccepted, ReceivedAtVendor, Packed]
    case DeliveryAssigned => [WaitingVendorConfirmation, VendorAccepted, ReceivedAtVendor, Packed]
    case OutForDelivery => [WaitingVendorConfirmation, VendorAccepted, ReceivedAtVendor, Packed]
    case DeliveryOtpVerified => [WaitingVendorConfirmation, VendorAccepted, ReceivedAtVendor, Packed]
    case Delivered => [WaitingVendorConfirmation, VendorAccepted, ReceivedAtVendor, Packed]
    case _ => []
  }

  /** at gives increasing positions of the milestones in the history. */
  ghost predicate Passed(history: seq<Status>, milestones: seq<Status>, at: seq<nat>)
  {
    && |at| == |milestones|
    && (forall i :: 0 <= i < |at| ==> at[i] < |history| && history[at[i]] == milestones[i])
    && (forall i, j :: 0 <= i < j < |at| ==> at[i] < at[j])
  }

  /** A step keeps the milestones, adds its own, or leaves the way to delivery. */
  lemma MilestoneStep(s: Status, t: Status)
    requires t in TransitionRules(s)
    ensures Milestones(t) == [] || Milestones(t) == Milestones(s) || Milestones(t) == Milestones(s) + [t]
  {
  }

  lemma {:induction false} MilestonesPassed(history: seq<Status>, roles: seq<Role>) returns (at: seq<nat>)
    requires IsRun(history, roles)
    ensures Passed(history, Milestones(history[|history| - 1]), at)
    decreases |history|
  {
    hide TransitionRules, RoleRules, Milestones;
    var n := |roles|;
    if n == 0 {
      at := [];
      assert Milestones(PaymentPending) == [] by {
        NoMilestonesYet();
      }
    } else {
      at := MilestonesPassed(history[..n], roles[..n - 1]);
      var s, t := history[n - 1], history[n];
      assert ValidateTransition(s, t, roles[n - 1]) == Valid;
      if s != t {
        MilestoneStep(s, t);
        if Milestones(t) == [] {
          at := [];
        } else if Milestones(t) == Milestones(s) + [t] {
          at := at + [n];
        }
      }
    }
  }

  lemma NoMilestonesYet()
    ensures Milestones(PaymentPending) == []
  {
  }

  lemma DeliveredMilestones()
    ensures Milestones(Delivered) == [WaitingVendorConfirmation, VendorAccepted, ReceivedAtVendor, Packed]
  {
  }

  /** A delivered order has waited for the vendor, been accepted, been received
      at the vendor and been packed, in that order. */
  lemma DeliveredHasPassed(history: seq<Status>, roles: seq<Role>)
    requires IsRun(history, roles) && history[|history| - 1] == Delivered
    ensures exists i, j, k, l :: 0 <= i < j < k < l < |history|
              && history[i] == WaitingVendorConfirmation && history[j] == VendorAccepted
              && history[k] == ReceivedAtVendor && history[l] == Packed
  {
    hide TransitionRules, RoleRules, ValidateTransition, Milestones;
    var at := MilestonesPassed(history, roles);
    DeliveredMilestones();
    assert Milestones(Delivered) == [WaitingVendorConfirmation, VendorAccepted, ReceivedAtVendor, Packed];
    assert history[at[0]] == WaitingVendorConfirmation && history[at[1]] == VendorAccepted;
    assert history[at[2]] == ReceivedAtVendor && history[at[3]] == Packed;
  }

  // ----- the rules by stage and by role -----

  const PICKUP_STEPS :=
    [VendorAccepted, PickupAssigned, GoingForPickup, PickupOtpVerified, PickedUp, ReceivedAtVendor]
  const SHOP_STEPS := [ReceivedAtVendor, Washing, Drying, Ironing, Packed]
  const DELIVERY_STEPS := [Packed, DeliveryAssigned, OutForDelivery, DeliveryOtpVerified, Delivered]

  /** On the way to the vendor and to the customer an order may go to the next
      step, leave one out, or go straight to the end of the stage; in the shop it
      may leave out any steps.  It never goes back. */
  lemma StageSteps(i: nat, j: nat)
    ensures i < 5 && j < 6 ==>
              (PICKUP_STEPS[j] in TransitionRules(PICKUP_STEPS[i]) <==> i < j && (j <= i + 2 || j == 5))
    ensures i < 4 && j < 5 ==> (SHOP_STEPS[j] in TransitionRules(SHOP_STEPS[i]) <==> i < j)
    ensures i < 4 && j < 5 ==>
              (DELIVERY_STEPS[j] in TransitionRules(DELIVERY_STEPS[i]) <==> i < j && (j <= i + 2 || j == 4))
  {
    hide TransitionRules;
    if i < 5 && j < 6 {
      PickupStep(i, j);
    }
    if i < 4 && j < 5 {
      ShopStep(i, j);
      DeliveryStep(i, j);
    }
  }

  lemma PickupStep(i: nat, j: nat)
    requires i < 5 && j < 6
    ensures PICKUP_STEPS[j] in TransitionRules(PICKUP_STEPS[i]) <==> i < j && (j <= i + 2 || j == 5)
  {
    assert i == 0 || i == 1 || i == 2 || i == 3 || i == 4;
    assert j == 0 || j == 1 || j == 2 || j == 3 || j == 4 || j == 5;
  }

  lemma ShopStep(i: nat, j: nat)
    requires i < 4 && j < 5
    ensures SHOP_STEPS[j] in TransitionRules(SHOP_STEPS[i]) <==> i < j
  {
    assert i == 0 || i == 1 || i == 2 || i == 3;
    assert j == 0 || j == 1 || j == 2 || j == 3 || j == 4;
  }

  lemma DeliveryStep(i: nat, j: nat)
    requires i < 4 && j < 5
    ensures DELIVERY_STEPS[j] in TransitionRules(DELIVERY_STEPS[i]) <==> i < j && (j <= i + 2 || j == 4)
  {
    assert i == 0 || i == 1 || i == 2 || i == 3;
    assert j == 0 || j == 1 || j == 2 || j == 3 || j == 4;
  }

  /** How an order gets to the vendor, and how it can be lost: to a failed
      payment, a rejection, a cancellation by the customer before fulfilment or
      by an admin before delivery, and from those (and delivery) to a refund. */
  lemma OtherSteps(s: Status)
    ensures PaymentPending !in TransitionRules(s)
    ensures PaymentConfirmed in TransitionRules(s) <==> s == PaymentPending
    ensures PaymentFailed in TransitionRules(s) <==> s == PaymentPending
    ensures WaitingVendorConfirmation in TransitionRules(s) <==> s == PaymentConfirmed
    ensures VendorAccepted in TransitionRules(s) <==> s == WaitingVendorConfirmation
    ensures VendorRejected in TransitionRules(s) <==> s == WaitingVendorConfirmation
    ensures AutoRejected in TransitionRules(s) <==> s == WaitingVendorConfirmation
    ensures CustomerCancelled in TransitionRules(s)
       <==> s in {PaymentPending, PaymentConfirmed, WaitingVendorConfirmation, VendorAccepted}
    ensures AdminCancelled in TransitionRules(s)
       <==> s in {PaymentPending, PaymentConfirmed, WaitingVendorConfirmation, VendorAccepted}
            || (InFulfilment(s) && s != Delivered)
    ensures Refunded in TransitionRules(s)
       <==> s in {Delivered, VendorRejected, AutoRejected, CustomerCancelled, AdminCancelled}
  {
  }

  /** The statuses that a role may take an order to. */
  predicate MayTake(role: Role, t: Status)
  {
    match role
    case Customer => t == CustomerCancelled
    case Rider => t in {GoingForPickup, PickupOtpVerified, PickedUp, OutForDelivery, DeliveryOtpVerified, Delivered}
    case System => t in {PaymentConfirmed, PaymentFailed, WaitingVendorConfirmation, AutoRejected,
                         PickupAssigned, DeliveryAssigned}
    case VendorOwner => t in {VendorAccepted, VendorRejected} || InFulfilment(t)
    case VendorStaff => t in {VendorAccepted, VendorRejected} || InFulfilment(t)
    case FinanceAdmin => t == Refunded
    case Admin => true
    case SuperAdmin => true
    case Other(_) => false
  }

  /** Asking for the current status is always accepted, a step that the table does
      not have is invalid for everyone, and a step that it has is forbidden to
      exactly the roles that may not take it. */
  lemma RoleSteps(s: Status, t: Status, role: Role)
    ensures ValidateTransition(s, t, role)
         == if s == t then Valid
            else if t !in TransitionRules(s) then InvalidTransition
            else if MayTake(role, t) then Valid else Forbidden
  {
    hide TransitionRules, RoleRules, MayTake;
    if t in TransitionRules(s) {
      KnownTarget(s, t);
      RolesOf(t, role);
    }
  }

  lemma KnownTarget(s: Status, t: Status)
    requires t in TransitionRules(s)
    ensures t != PaymentPending && !t.Unknown?
  {
  }

  lemma RolesOf(t: Status, role: Role)
    requires t != PaymentPending && !t.Unknown?
    ensures RoleRules(t) != {}
    ensures role in RoleRules(t) <==> MayTake(role, t)
  {
    assert Admin in RoleRules(t);
  }

  /** Who takes an order to a status on the way to delivery. */
  function StaffFor(t: Status): Role
  {
    if t in {PaymentConfirmed, WaitingVendorConfirmation, PickupAssigned, DeliveryAssigned} then System
    else if t in {GoingForPickup, PickupOtpVerified, PickedUp,
                  OutForDelivery, DeliveryOtpVerified, Delivered} then Rider
    else VendorOwner
  }

  function Staff(n: nat): (r: seq<Role>)
    ensures |r| == n
    ensures forall i :: 0 <= i < n ==> r[i] in {System, VendorOwner, Rider}
  {
    if n == 0 then [] else Staff(n - 1) + [StaffFor(Path(n)[n])]
  }

  lemma StaffMayStep(s: Status)
    requires OnTheWay(s) && s != Delivered
    ensures ValidateTransition(s, Onward(s), StaffFor(Onward(s))) == Valid
  {
  }

  lemma {:induction false} StaffRun(n: nat)
    requires n <= 16
    ensures IsRun(Path(n), Staff(n))
  {
    hide ValidateTransition, Onward, OnTheWay, Rank, StaffFor;
    if n > 0 {
      StaffRun(n - 1);
      LongestRun(n - 1);
      NotDeliveredYet(Path(n - 1)[n - 1]);
      StaffMayStep(Path(n - 1)[n - 1]);
      forall i | 0 <= i < n
        ensures ValidateTransition(Path(n)[i], Path(n)[i + 1], Staff(n)[i]) == Valid
      {
        if i < n - 1 {
          assert Path(n)[i] == Path(n - 1)[i] && Path(n)[i + 1] == Path(n - 1)[i + 1] && Staff(n)[i] == Staff(n - 1)[i];
        }
      }
    }
  }

  lemma NotDeliveredYet(s: Status)
    ensures Rank(s) < 16 ==> s != Delivered
    ensures Rank(s) == 16 && OnTheWay(s) ==> s == Delivered
  {
  }

  /** Without any admin: the system, the vendor and a rider take an order from
      payment to delivery. */
  lemma DeliveredWithoutAdmin()
    ensures exists history, roles ::
              && IsRun(history, roles) && history[|history| - 1] == Delivered
              && forall i :: 0 <= i < |roles| ==> roles[i] in {System, VendorOwner, Rider}
  {
    hide IsRun, Staff, Rank, OnTheWay, Path;
    StaffRun(16);
    LongestRun(16);
    NotDeliveredYet(Path(16)[16]);
  }

  /** The least number of changes that lead to a status on the way to delivery. */
  function Depth(s: Status): nat
  {
    match s
    case PaymentConfirmed => 1
    case WaitingVendorConfirmation => 2
    case VendorAccepted => 3
    case PickupAssigned => 4
    case GoingForPickup => 4
    case PickupOtpVerified => 5
    case PickedUp => 5
    case ReceivedAtVendor => 4
    case Washing => 5
    case Drying => 5
    case Ironing => 5
    case Packed => 5
    case DeliveryAssigned => 6
    case OutForDelivery => 6
    case DeliveryOtpVerified => 7
    case Delivered => 6
    case _ => 0
  }

  lemma DepthRises(s: Status, t: Status)
    requires t in TransitionRules(s)
    ensures Depth(t) <= Depth(s) + 1
  {
  }

  lemma {:induction false} ChangesAtLeastDepth(history: seq<Status>, roles: seq<Role>)
    requires IsRun(history, roles)
    ensures Changes(history) >= Depth(history[|history| - 1])
    decreases |history|
  {
    hide TransitionRules, RoleRules, Depth;
    var n := |roles|;
    if n == 0 {
      assert Depth(PaymentPending) == 0 by {
        StartDepth();
      }
    } else {
      ChangesAtLeastDepth(history[..n], roles[..n - 1]);
      assert ValidateTransition(history[n - 1], history[n], roles[n - 1]) == Valid;
      if history[n - 1] != history[n] {
        DepthRises(history[n - 1], history[n]);
      }
    }
  }

  lemma StartDepth()
    ensures Depth(PaymentPending) == 0 && Depth(Delivered) == 6
  {
  }

  /** No order is delivered in fewer than six changes, and six are enough. */
  lemma ShortestDelivery()
    ensures forall history, roles ::
              IsRun(history, roles) && history[|history| - 1] == Delivered ==> Changes(history) >= 6
    ensures exists history, roles ::
              IsRun(history, roles) && history[|history| - 1] == Delivered && Changes(history) == 6
  {
    hide Depth, Changes, TransitionRules, RoleRules;
    StartDepth();
    forall history, roles | IsRun(history, roles) && history[|history| - 1] == Delivered
      ensures Changes(history) >= 6
    {
      ChangesAtLeastDepth(history, roles);
    }
    SixChanges();
  }

  lemma SixChanges()
    ensures exists history, roles ::
              IsRun(history, roles) && history[|history| - 1] == Delivered && Changes(history) == 6
  {
    var history := [PaymentPending, PaymentConfirmed, WaitingVendorConfirmation, VendorAccepted, ReceivedAtVendor,
                    Packed, Delivered];
    var roles := [System, System, VendorOwner, VendorOwner, VendorOwner, Rider];
    hide ValidateTransition, Changes;
    SixSteps();
    assert IsRun(history, roles);
    SixDifferent();
  }

  lemma SixSteps()
    ensures ValidateTransition(PaymentPending, PaymentConfirmed, System) == Valid
    ensures ValidateTransition(PaymentConfirmed, WaitingVendorConfirmation, System) == Valid
    ensures ValidateTransition(WaitingVendorConfirmation, VendorAccepted, VendorOwner) == Valid
    ensures ValidateTransition(VendorAccepted, ReceivedAtVendor, VendorOwner) == Valid
    ensures ValidateTransition(ReceivedAtVendor, Packed, VendorOwner) == Valid
    ensures ValidateTransition(Packed, Delivered, Rider) == Valid
  {
  }

  lemma SixDifferent()
    ensures Changes([PaymentPending, PaymentConfirmed, WaitingVendorConfirmation, VendorAccepted, ReceivedAtVendor,
                     Packed, Delivered]) == 6
  {
    var h := [PaymentPending, PaymentConfirmed, WaitingVendorConfirmation, VendorAccepted, ReceivedAtVendor,
              Packed, Delivered];
    assert forall n :: 0 < n < 7 ==> h[..n + 1][..n] == h[..n];
    assert h[..7] == h;
    assert Changes(h[..1]) == 0;
    assert Changes(h[..2]) == 1;
    assert Changes(h[..3]) == 2;
    assert Changes(h[..4]) == 3;
    assert Changes(h[..5]) == 4;
    assert Changes(h[..6]) == 5;
  }

  // ----- customers -----

  /** Pickup has been assigned, or a later fulfilment status reached. */
  predicate InFulfilment(s: Status)
  {
    s in {PickupAssigned, GoingForPickup, PickupOtpVerified, PickedUp, ReceivedAtVendor, Washing, Drying, Ironing,
          Packed, DeliveryAssigned, OutForDelivery, DeliveryOtpVerified, Delivered}
  }

  /** A customer's only real step is to cancel, and only from the first four statuses. */
  lemma CustomerOnlyCancels(s: Status, t: Status)
    requires ValidateTransition(s, t, Customer) == Valid && s != t
    ensures t == CustomerCancelled && Rank(s) < 4
  {
  }

  lemma {:induction false} RanksRise(history: seq<Status>, roles: seq<Role>, i: nat, j: nat)
    requires IsRun(history, roles) && i <= j < |history|
    ensures Rank(history[i]) <= Rank(history[j])
    decreases j
  {
    hide TransitionRules, RoleRules, Rank;
    if i < j {
      RanksRise(history, roles, i, j - 1);
      assert ValidateTransition(history[j - 1], history[j - 1 + 1], roles[j - 1]) == Valid;
      if history[j - 1] != history[j] {
        RankRises(history[j - 1], history[j]);
      }
    }
  }

  lemma FulfilmentRank(s: Status)
    requires InFulfilment(s)
    ensures Rank(s) >= 4
  {
  }

  /** Once fulfilment has begun, no customer step changes the status any more. */
  lemma CustomerCannotInterfere(history: seq<Status>, roles: seq<Role>, i: nat, j: nat)
    requires IsRun(history, roles) && i <= j < |roles|
    requires InFulfilment(history[i]) && roles[j] == Customer
    ensures history[j + 1] == history[j]
  {
    hide TransitionRules, RoleRules, Rank, InFulfilment;
    FulfilmentRank(history[i]);
    RanksRise(history, roles, i, j);
    assert ValidateTransition(history[j], history[j + 1], roles[j]) == Valid;
    if history[j] != history[j + 1] {
      CustomerOnlyCancels(history[j], history[j + 1]);
    }
  }
}
