/** Bulk orders: their lifecycle, and the stock that confirming takes and
    cancelling after confirmation gives back. */
module BulkOrders {
  import opened Common
  import opened Stock

  datatype Status = Draft | Submitted | Confirmed | Processing | Ready | Delivered | Cancelled

  /** product is None when garment_rate_id is missing. */
  datatype Line = Line(product: Option<nat>, quantity: int)

  datatype Order = Order(vendor: nat, user: nat, items: seq<Line>, status: Status)

  /** The unique key of a vendor_services row: its vendor and its product. */
  type Key = (nat, nat)

  type StockTable = map<Key, StockRow>

  /** An updateStatus call that has read the order and authorised the step, but
      not yet started its locked transaction. */
  datatype Pending = Pending(id: nat, row: Order, target: Status)

  datatype Db = Db(orders: seq<Order>, stock: StockTable, pending: seq<Pending>)

  // ----- the lifecycle -----

  function Successors(s: Status): set<Status>
  {
    match s
    case Draft => {Submitted, Cancelled}
    case Submitted => {Confirmed, Cancelled}
    case Confirmed => {Processing, Cancelled}
    case Processing => {Ready}
    case Ready => {Delivered}
    case Delivered => {}
    case Cancelled => {}
  }

  predicate IsValidTransition(from: Status, to: Status)
  {
    from != to && to in Successors(from)
  }

  /** The order holds stock. */
  predicate Committed(s: Status)
  {
    s == Confirmed || s == Processing || s == Ready || s == Delivered
  }

  // ----- quantities -----

  predicate Counted(line: Line)
  {
    line.product.Some? && line.quantity > 0
  }

  function QuantityOf(product: nat): Line -> int
  {
    (line: Line) => if Counted(line) && line.product.value == product then line.quantity else 0
  }

  /** The quantity of a product in an order, over all its lines. */
  function Requested(items: seq<Line>, product: nat): (q: int)
    ensures 0 <= q
  {
    SumByNonNegative(items, QuantityOf(product));
    SumBy(items, QuantityOf(product))
  }

  /** Sum the quantities by product, in the order of first appearance. */
  method AggregateByProduct(items: seq<Line>) returns (products: seq<nat>, quantity: map<nat, int>)
    ensures forall p :: p in products <==> Requested(items, p) > 0
    ensures forall p :: p in quantity <==> p in products
    ensures forall p :: p in products ==> quantity[p] == Requested(items, p)
    ensures forall i, j :: 0 <= i < j < |products| ==> products[i] != products[j]
  {
    products, quantity := [], map[];
    for n := 0 to |items|
      invariant forall p :: p in products <==> Requested(items[..n], p) > 0
      invariant forall p :: p in quantity <==> p in products
      invariant forall p :: p in products ==> quantity[p] == Requested(items[..n], p)
      invariant forall i, j :: 0 <= i < j < |products| ==> products[i] != products[j]
    {
      var it := items[n];
      RequestedStep(items, n);
      if it.product.Some? && it.quantity > 0 {
        var pid := it.product.value;
        if pid in quantity {
          quantity := quantity[pid := quantity[pid] + it.quantity];
        } else {
          quantity := quantity[pid := it.quantity];
          products := products + [pid];
        }
      }
    }
    assert items[..|items|] == items;
  }

  lemma RequestedStep(items: seq<Line>, n: nat)
    requires n < |items|
    ensures forall p: nat :: Requested(items[..n + 1], p) == Requested(items[..n], p) + QuantityOf(p)(items[n])
  {
    assert items[..n + 1] == items[..n] + [items[n]];
    forall p: nat
      ensures Requested(items[..n + 1], p) == Requested(items[..n], p) + QuantityOf(p)(items[n])
    {
      SumByAppend(items[..n], items[n], QuantityOf(p));
    }
  }

  // ----- the committed effect of the two stock transactions -----

  predicate Listed(stock: StockTable, k: Key)
  {
    k in stock && !stock[k].deleted
  }

  /** The product is listed with enough stock for the order. */
  predicate Enough(stock: StockTable, vendor: nat, items: seq<Line>, product: nat)
  {
    Listed(stock, (vendor, product)) && Requested(items, product) <= stock[(vendor, product)].quantity
  }

  predicate AllEnough(stock: StockTable, vendor: nat, items: seq<Line>)
  {
    forall line :: line in items && Counted(line) ==> Enough(stock, vendor, items, line.product.value)
  }

  /** A stock table in which each listed product of the order has `sign` times
      its requested quantity more than before. */
  function Shift(stock: StockTable, vendor: nat, items: seq<Line>, sign: int): (s: StockTable)
    ensures s.Keys == stock.Keys
  {
    map k | k in stock :: ShiftedRow(stock, vendor, items, sign, k)
  }

  function ShiftedRow(stock: StockTable, vendor: nat, items: seq<Line>, sign: int, k: Key): StockRow
    requires k in stock
  {
    if k.0 == vendor && Requested(items, k.1) > 0 && !stock[k].deleted then
      ApplyStock(stock[k], stock[k].quantity + sign * Requested(items, k.1))
    else stock[k]
  }

  function SetStatus(orders: seq<Order>, id: nat, s: Status): seq<Order>
    requires id < |orders|
  {
    orders[id := orders[id].(status := s)]
  }

  predicate Confirms(db: Db, id: nat, items: seq<Line>)
  {
    && id < |db.orders|
    && IsValidTransition(db.orders[id].status, Confirmed)
    && AllEnough(db.stock, db.orders[id].vendor, items)
  }

  /** Confirm: all products are deducted, or nothing changes. */
  function ConfirmTx(db: Db, id: nat, items: seq<Line>): Db
  {
    if Confirms(db, id, items) then
      db.(orders := SetStatus(db.orders, id, Confirmed), stock := Shift(db.stock, db.orders[id].vendor, items, -1))
    else db
  }

  /** Cancel: stock is given back exactly when the locked order is CONFIRMED. */
  function CancelTx(db: Db, id: nat, items: seq<Line>): Db
  {
    if id >= |db.orders| || !IsValidTransition(db.orders[id].status, Cancelled) then db
    else if db.orders[id].status == Confirmed then
      db.(orders := SetStatus(db.orders, id, Cancelled), stock := Shift(db.stock, db.orders[id].vendor, items, 1))
    else db.(orders := SetStatus(db.orders, id, Cancelled))
  }

  // ----- steps -----

  /** The steps that any number of calls interleave.  Confirming, and cancelling
      a confirmed order, read the order in one step and lock it in another. */
  datatype Step =
    | Create(vendor: nat, user: nat, items: seq<Line>)
    | Submit(user: nat, id: nat)
    | CustomerCancel(user: nat, id: nat)
    | Update(id: nat, next: Status, authorised: bool)
    | Execute(index: nat)

  /** Every line of the order is listed, available and in stock. */
  predicate CanSubmit(stock: StockTable, vendor: nat, items: seq<Line>)
  {
    forall line :: line in items && Counted(line) ==>
      Enough(stock, vendor, items, line.product.value) && stock[(vendor, line.product.value)].available
  }

  predicate NeedsTransaction(from: Status, to: Status)
  {
    (from == Submitted && to == Confirmed) || (from == Confirmed && to == Cancelled)
  }

  function Apply(db: Db, step: Step): Db
  {
    match step
    case Create(vendor, user, items) => db.(orders := db.orders + [Order(vendor, user, items, Draft)])
    case Submit(user, id) =>
      if id < |db.orders| && db.orders[id].user == user && IsValidTransition(db.orders[id].status, Submitted)
         && CanSubmit(db.stock, db.orders[id].vendor, db.orders[id].items)
      then db.(orders := SetStatus(db.orders, id, Submitted))
      else db
    case CustomerCancel(user, id) =>
      if id < |db.orders| && db.orders[id].user == user && IsValidTransition(db.orders[id].status, Cancelled)
         && db.orders[id].status != Confirmed
      then db.(orders := SetStatus(db.orders, id, Cancelled))
      else db
    case Update(id, next, authorised) =>
      if id >= |db.orders| || !authorised || !IsValidTransition(db.orders[id].status, next) then db
      else if NeedsTransaction(db.orders[id].status, next) then
        db.(pending := db.pending + [Pending(id, db.orders[id], next)])
      else db.(orders := SetStatus(db.orders, id, next))
    case Execute(i) =>
      if i >= |db.pending| then db
      else
        var p := db.pending[i];
        var rest := db.(pending := db.pending[..i] + db.pending[i + 1..]);
        if p.target == Confirmed then ConfirmTx(rest, p.id, p.row.items) else CancelTx(rest, p.id, p.row.items)
  }

  function Run(db: Db, steps: seq<Step>): Db
    decreases |steps|
  {
    if steps == [] then db else Run(Apply(db, steps[0]), steps[1..])
  }

  // ----- conservation of stock -----

  /** The stock of k that an order holds. */
  function HeldBy(k: Key): Order -> int
  {
    (o: Order) => if o.vendor == k.0 && Committed(o.status) then Requested(o.items, k.1) else 0
  }

  function Held(orders: seq<Order>, k: Key): int
  {
    SumBy(orders, HeldBy(k))
  }

  ghost predicate StockValid(stock: StockTable)
  {
    forall k :: k in stock ==> Consistent(stock[k])
  }

  /** What a stale read still gets right: the vendor and the items of an order
      never change. */
  ghost predicate PendingValid(orders: seq<Order>, pending: seq<Pending>)
  {
    forall i :: 0 <= i < |pending| ==>
      && pending[i].id < |orders|
      && pending[i].row.items == orders[pending[i].id].items
      && pending[i].row.vendor == orders[pending[i].id].vendor
  }

  ghost predicate Inv(db: Db)
  {
    StockValid(db.stock) && PendingValid(db.orders, db.pending)
  }

  /** Stock in the shop plus stock held by orders. */
  function Total(db: Db, k: Key): int
    requires k in db.stock
  {
    db.stock[k].quantity + Held(db.orders, k)
  }

  /** The products of db' are listed as in db, and none has gained or lost stock. */
  ghost predicate Conserves(db: Db, db': Db)
  {
    && db'.stock.Keys == db.stock.Keys
    && forall k :: k in db.stock ==>
         && db'.stock[k].deleted == db.stock[k].deleted
         && (Listed(db.stock, k) ==> Total(db', k) == Total(db, k))
  }

  lemma StatusHeld(orders: seq<Order>, id: nat, s: Status, k: Key)
    requires id < |orders|
    ensures Held(SetStatus(orders, id, s), k)
         == Held(orders, k) - HeldBy(k)(orders[id]) + HeldBy(k)(orders[id].(status := s))
  {
    SumByUpdate(orders, id, orders[id].(status := s), HeldBy(k));
  }

  /** A status change between two committed or two uncommitted states holds the
      same stock. */
  lemma PlainUpdateConserves(db: Db, id: nat, s: Status)
    requires Inv(db) && id < |db.orders| && Committed(db.orders[id].status) == Committed(s)
    ensures var db' := db.(orders := SetStatus(db.orders, id, s)); Inv(db') && Conserves(db, db')
  {
    hide Requested;
    forall k | k in db.stock
      ensures Held(SetStatus(db.orders, id, s), k) == Held(db.orders, k)
    {
      StatusHeld(db.orders, id, s, k);
    }
  }

  lemma RequestedWithin(stock: StockTable, vendor: nat, items: seq<Line>, k: Key)
    requires AllEnough(stock, vendor, items) && k.0 == vendor && Requested(items, k.1) > 0
    ensures Enough(stock, vendor, items, k.1)
  {
    var n := CountedLine(items, k.1);
    assert items[n] in items;
  }

  lemma {:induction false} CountedLine(items: seq<Line>, product: nat) returns (n: nat)
    requires Requested(items, product) > 0
    ensures n < |items| && Counted(items[n]) && items[n].product.value == product
  {
    var last := |items| - 1;
    if Counted(items[last]) && items[last].product.value == product {
      n := last;
    } else {
      n := CountedLine(items[..last], product);
    }
  }

  lemma ConfirmConserves(db: Db, id: nat)
    requires Inv(db) && id < |db.orders|
    ensures var db' := ConfirmTx(db, id, db.orders[id].items); Inv(db') && Conserves(db, db')
  {
    hide Requested, AllEnough;
    var order := db.orders[id];
    if Confirms(db, id, order.items) {
      forall k | k in db.stock
        ensures Held(SetStatus(db.orders, id, Confirmed), k)
             == Held(db.orders, k) + if k.0 == order.vendor then Requested(order.items, k.1) else 0
        ensures k.0 == order.vendor && Requested(order.items, k.1) > 0 ==>
                  Requested(order.items, k.1) <= db.stock[k].quantity
      {
        StatusHeld(db.orders, id, Confirmed, k);
        if k.0 == order.vendor && Requested(order.items, k.1) > 0 {
          RequestedWithin(db.stock, order.vendor, order.items, k);
        }
      }
    }
  }

  lemma CancelReleases(orders: seq<Order>, id: nat, k: Key)
    requires id < |orders|
    ensures Held(SetStatus(orders, id, Cancelled), k) == Held(orders, k) - HeldBy(k)(orders[id])
  {
    hide SumBy, Requested;
    StatusHeld(orders, id, Cancelled, k);
  }

  /** Giving the stock of a confirmed order back and no longer holding it. */
  lemma RestoreConserves(db: Db, id: nat)
    requires Inv(db) && id < |db.orders| && db.orders[id].status == Confirmed
    ensures var db' := db.(orders := SetStatus(db.orders, id, Cancelled),
                           stock := Shift(db.stock, db.orders[id].vendor, db.orders[id].items, 1));
            Inv(db') && Conserves(db, db')
  {
    hide Requested, Held;
    forall k | k in db.stock
      ensures Held(SetStatus(db.orders, id, Cancelled), k) == Held(db.orders, k) - HeldBy(k)(db.orders[id])
    {
      CancelReleases(db.orders, id, k);
    }
  }

  lemma CancelConserves(db: Db, id: nat)
    requires Inv(db) && id < |db.orders|
    ensures var db' := CancelTx(db, id, db.orders[id].items); Inv(db') && Conserves(db, db')
  {
    hide Inv, Total, Shift;
    if db.orders[id].status == Confirmed {
      RestoreConserves(db, id);
    } else if IsValidTransition(db.orders[id].status, Cancelled) {
      PlainUpdateConserves(db, id, Cancelled);
    }
  }

  lemma DraftHoldsNothing(orders: seq<Order>, order: Order, k: Key)
    requires order.status == Draft
    ensures Held(orders + [order], k) == Held(orders, k)
  {
    hide SumBy;
    SumByAppend(orders, order, HeldBy(k));
  }

  lemma CreateConserves(db: Db, order: Order)
    requires Inv(db) && order.status == Draft
    ensures var db' := db.(orders := db.orders + [order]); Inv(db') && Conserves(db, db')
  {
    hide Held;
    forall k | k in db.stock
      ensures Held(db.orders + [order], k) == Held(db.orders, k)
    {
      DraftHoldsNothing(db.orders, order, k);
    }
  }

  lemma ReadConserves(db: Db, id: nat, next: Status)
    requires Inv(db) && id < |db.orders|
    ensures var db' := db.(pending := db.pending + [Pending(id, db.orders[id], next)]); Inv(db') && Conserves(db, db')
  {
    hide Requested, Held;
  }

  /** Executing a pending call acts as if it had read the order just now. */
  lemma ExecuteConserves(db: Db, i: nat)
    requires Inv(db) && i < |db.pending|
    ensures Inv(Apply(db, Execute(i))) && Conserves(db, Apply(db, Execute(i)))
  {
    hide Requested, ConfirmTx, CancelTx, Held;
    var rest := db.(pending := db.pending[..i] + db.pending[i + 1..]);
    var id := db.pending[i].id;
    assert rest.orders[id].items == db.pending[i].row.items;
    ConfirmConserves(rest, id);
    CancelConserves(rest, id);
  }

  lemma ApplyConserves(db: Db, step: Step)
    requires Inv(db)
    ensures Inv(Apply(db, step)) && Conserves(db, Apply(db, step))
  {
    hide Requested, CanSubmit, Inv, Held, SetStatus;
    match step
    case Create(vendor, user, items) =>
      CreateConserves(db, Order(vendor, user, items, Draft));
    case Submit(user, id) =>
      if id < |db.orders| && IsValidTransition(db.orders[id].status, Submitted) {
        PlainUpdateConserves(db, id, Submitted);
      }
    case CustomerCancel(user, id) =>
      if id < |db.orders| && IsValidTransition(db.orders[id].status, Cancelled) && db.orders[id].status != Confirmed {
        PlainUpdateConserves(db, id, Cancelled);
      }
    case Update(id, next, authorised) =>
      if id < |db.orders| && IsValidTransition(db.orders[id].status, next) {
        if NeedsTransaction(db.orders[id].status, next) {
          ReadConserves(db, id, next);
        } else {
          PlainUpdateConserves(db, id, next);
        }
      }
    case Execute(i) =>
      if i < |db.pending| {
        ExecuteConserves(db, i);
      }
  }

  /** Over any run, however the calls interleave, the stock of every listed
      product plus what confirmed and later orders hold of it stays the same,
      and every stock row stays consistent (in particular, not negative). */
  lemma {:induction false} StockConserved(db: Db, steps: seq<Step>)
    requires Inv(db)
    ensures Inv(Run(db, steps)) && Conserves(db, Run(db, steps))
    decreases |steps|
  {
    hide Apply, Inv, Held;
    if steps != [] {
      ApplyConserves(db, steps[0]);
      StockConserved(Apply(db, steps[0]), steps[1..]);
    }
  }

  /** A second confirm or a second cancel of the same order changes nothing,
      even if it was authorised on a stale read. */
  lemma SecondCallDoesNothing(db: Db, id: nat, items: seq<Line>)
    ensures Confirms(db, id, items) ==> ConfirmTx(ConfirmTx(db, id, items), id, items) == ConfirmTx(db, id, items)
    ensures CancelTx(CancelTx(db, id, items), id, items) == CancelTx(db, id, items)
  {
  }

  /** Cancelling right after confirming gives every quantity back.  The row of a
      product comes back exactly as it was unless the product was switched off
      by hand and the order took the last of it. */
  lemma ConfirmThenCancel(db: Db, id: nat, items: seq<Line>, k: Key)
    requires StockValid(db.stock) && Confirms(db, id, items) && k in db.stock
    ensures var back := CancelTx(ConfirmTx(db, id, items), id, items).stock;
            && k in back
            && back[k].quantity == db.stock[k].quantity
            && (back[k] == db.stock[k]
                <==> !Listed(db.stock, k) || k.0 != db.orders[id].vendor || Requested(items, k.1) == 0
                     || db.stock[k].available || db.stock[k].quantity != Requested(items, k.1))
  {
    hide Requested, AllEnough;
    if k.0 == db.orders[id].vendor && Requested(items, k.1) > 0 {
      RequestedWithin(db.stock, k.0, items, k);
      TakeAndReturn(db.stock[k], Requested(items, k.1));
    }
  }

  // ----- what the transactions do, row by row -----

  /** The quantity of a product that an order asks for: the positive quantities of
      the lines with that product, summed up. */
  lemma {:induction false} RequestedIs(items: seq<Line>, product: nat)
    ensures Requested(items, product)
         == Sum(seq(|items|, i requires 0 <= i < |items| =>
                  if items[i].product == Some(product) && items[i].quantity > 0 then items[i].quantity else 0))
  {
    var amounts := seq(|items|, i requires 0 <= i < |items| =>
                     if items[i].product == Some(product) && items[i].quantity > 0 then items[i].quantity else 0);
    if items != [] {
      var last := |items| - 1;
      RequestedIs(items[..last], product);
      assert amounts[..last] == seq(last, i requires 0 <= i < last =>
                                  if items[..last][i].product == Some(product) && items[..last][i].quantity > 0
                                  then items[..last][i].quantity else 0);
    }
  }

  /** Every product that the lines ask for is listed in the shop with at least
      the quantity that they ask for together. */
  ghost predicate InStock(stock: StockTable, vendor: nat, items: seq<Line>)
  {
    forall p: nat :: Requested(items, p) > 0 ==>
      && (vendor, p) in stock && !stock[(vendor, p)].deleted
      && Requested(items, p) <= stock[(vendor, p)].quantity
  }

  lemma AllEnoughIs(stock: StockTable, vendor: nat, items: seq<Line>)
    ensures AllEnough(stock, vendor, items) <==> InStock(stock, vendor, items)
  {
    hide Requested;
    forall line | line in items && Counted(line)
      ensures Requested(items, line.product.value) > 0
    {
      LineIsRequested(items, line);
    }
    if AllEnough(stock, vendor, items) {
      forall p: nat | Requested(items, p) > 0
        ensures Enough(stock, vendor, items, p)
      {
        RequestedWithin(stock, vendor, items, (vendor, p));
      }
    }
  }

  /** The order has the status, and nothing else of any order has changed. */
  predicate OnlyStatus(orders: seq<Order>, orders': seq<Order>, id: nat, s: Status)
  {
    && id < |orders|
    && orders' == orders[id := Order(orders[id].vendor, orders[id].user, orders[id].items, s)]
  }

  /** Each listed product of the order has its quantity less (sign -1) or more
      (sign 1), is sold out and unavailable exactly when nothing is left, and
      becomes available when it was sold out; no other row has changed. */
  ghost predicate StockMoved(stock: StockTable, stock': StockTable, vendor: nat, items: seq<Line>, sign: int)
  {
    && stock'.Keys == stock.Keys
    && forall k :: k in stock ==>
         if k.0 == vendor && Requested(items, k.1) > 0 && !stock[k].deleted then
           var left := stock[k].quantity + sign * Requested(items, k.1);
           stock'[k] == StockRow(left, left != 0 && (stock[k].available || stock[k].quantity == 0), left == 0, false)
         else stock'[k] == stock[k]
  }

  lemma ShiftMoves(stock: StockTable, vendor: nat, items: seq<Line>, sign: int)
    requires StockValid(stock)
    requires forall k :: k in stock && k.0 == vendor && Requested(items, k.1) > 0 && !stock[k].deleted ==>
               0 <= stock[k].quantity + sign * Requested(items, k.1)
    ensures StockMoved(stock, Shift(stock, vendor, items, sign), vendor, items, sign)
  {
    hide Requested;
  }

  /** A confirm takes effect exactly on a SUBMITTED order whose products are all
      in stock, and takes exactly their quantities. */
  lemma ConfirmIs(db: Db, id: nat, items: seq<Line>)
    requires StockValid(db.stock)
    ensures Confirms(db, id, items)
       <==> id < |db.orders| && db.orders[id].status == Submitted && InStock(db.stock, db.orders[id].vendor, items)
    ensures var db' := ConfirmTx(db, id, items);
            if Confirms(db, id, items) then
              && OnlyStatus(db.orders, db'.orders, id, Confirmed) && db'.pending == db.pending
              && StockMoved(db.stock, db'.stock, db.orders[id].vendor, items, -1)
            else db' == db
  {
    hide Requested, AllEnough, Shift, StockMoved, StockValid;
    if id < |db.orders| {
      AllEnoughIs(db.stock, db.orders[id].vendor, items);
      if Confirms(db, id, items) {
        ShiftMoves(db.stock, db.orders[id].vendor, items, -1);
      }
    }
  }

  /** A cancel takes effect exactly on a DRAFT, SUBMITTED or CONFIRMED order, and
      gives the quantities back exactly from CONFIRMED. */
  lemma CancelIs(db: Db, id: nat, items: seq<Line>)
    requires StockValid(db.stock)
    ensures var db' := CancelTx(db, id, items);
            if id < |db.orders| && db.orders[id].status in {Draft, Submitted, Confirmed} then
              && OnlyStatus(db.orders, db'.orders, id, Cancelled) && db'.pending == db.pending
              && if db.orders[id].status == Confirmed
                 then StockMoved(db.stock, db'.stock, db.orders[id].vendor, items, 1) else db'.stock == db.stock
            else db' == db
  {
    hide Requested, Shift, StockMoved;
    if id < |db.orders| && db.orders[id].status == Confirmed {
      forall k | k in db.stock && Requested(items, k.1) > 0
        ensures 0 <= db.stock[k].quantity + 1 * Requested(items, k.1)
      {
      }
      ShiftMoves(db.stock, db.orders[id].vendor, items, 1);
    }
  }

  /** An order can be submitted exactly by its customer, from DRAFT, when all its
      products are in stock and available. */
  lemma SubmitIs(db: Db, user: nat, id: nat)
    ensures var db' := Apply(db, Submit(user, id));
            if && id < |db.orders| && db.orders[id].user == user && db.orders[id].status == Draft
               && var o := db.orders[id];
                  InStock(db.stock, o.vendor, o.items)
                  && forall p: nat :: Requested(o.items, p) > 0 ==> db.stock[(o.vendor, p)].available
            then OnlyStatus(db.orders, db'.orders, id, Submitted) && db' == db.(orders := db'.orders)
            else db' == db
  {
    hide Requested, AllEnough, InStock;
    if id < |db.orders| {
      var o := db.orders[id];
      AllEnoughIs(db.stock, o.vendor, o.items);
      CanSubmitIs(db.stock, o.vendor, o.items);
    }
  }

  /** The customer cancels exactly the own orders that are still DRAFT or SUBMITTED. */
  lemma CustomerCancelIs(db: Db, user: nat, id: nat)
    ensures var db' := Apply(db, CustomerCancel(user, id));
            if id < |db.orders| && db.orders[id].user == user && db.orders[id].status in {Draft, Submitted}
            then OnlyStatus(db.orders, db'.orders, id, Cancelled) && db' == db.(orders := db'.orders)
            else db' == db
  {
  }

  /** The shop takes an order from DRAFT to DELIVERED one status at a time, or
      cancels it up to CONFIRMED; the two changes that move stock are left to a
      transaction of their own. */
  lemma UpdateIs(db: Db, id: nat, next: Status, authorised: bool)
    ensures var db' := Apply(db, Update(id, next, authorised));
            if id >= |db.orders| || !authorised then db' == db
            else
              var step := (db.orders[id].status, next);
              if step in {(Submitted, Confirmed), (Confirmed, Cancelled)} then
                db' == db.(pending := db.pending + [Pending(id, db.orders[id], next)])
              else if step in {(Draft, Submitted), (Confirmed, Processing), (Processing, Ready), (Ready, Delivered),
                               (Draft, Cancelled), (Submitted, Cancelled)} then
                OnlyStatus(db.orders, db'.orders, id, next) && db' == db.(orders := db'.orders)
              else db' == db
  {
  }

  lemma CanSubmitIs(stock: StockTable, vendor: nat, items: seq<Line>)
    ensures CanSubmit(stock, vendor, items)
       <==> InStock(stock, vendor, items)
            && forall p: nat :: Requested(items, p) > 0 ==> stock[(vendor, p)].available
  {
    hide Requested;
    AllEnoughIs(stock, vendor, items);
    forall line | line in items && Counted(line)
      ensures Requested(items, line.product.value) > 0
    {
      LineIsRequested(items, line);
    }
    if CanSubmit(stock, vendor, items) {
      assert AllEnough(stock, vendor, items);
      forall p: nat | Requested(items, p) > 0
        ensures stock[(vendor, p)].available
      {
        var n := CountedLine(items, p);
        assert items[n] in items;
      }
    }
  }

  // ----- what can become of an order -----

  lemma RunConcat(db: Db, step: Step, rest: seq<Step>)
    ensures Run(db, [step] + rest) == Run(Apply(db, step), rest)
  {
    hide Apply;
    assert ([step] + rest)[1..] == rest;
  }

  ghost predicate CanReach(db: Db, id: nat, s: Status)
  {
    exists steps :: HasStatus(Run(db, steps), id, s)
  }

  predicate HasStatus(db: Db, id: nat, s: Status)
  {
    id < |db.orders| && db.orders[id].status == s
  }

  lemma ReachNow(db: Db, id: nat, s: Status)
    requires HasStatus(db, id, s)
    ensures CanReach(db, id, s)
  {
    assert HasStatus(Run(db, []), id, s);
  }

  lemma ReachThen(db: Db, step: Step, id: nat, s: Status)
    requires CanReach(Apply(db, step), id, s)
    ensures CanReach(db, id, s)
  {
    hide Apply;
    var rest :| HasStatus(Run(Apply(db, step), rest), id, s);
    RunConcat(db, step, rest);
  }

  /** A plain change by the shop. */
  lemma PlainStep(db: Db, id: nat, next: Status)
    requires id < |db.orders|
    requires (db.orders[id].status, next) in {(Confirmed, Processing), (Processing, Ready), (Ready, Delivered),
                                              (Draft, Cancelled), (Submitted, Cancelled)}
    ensures HasStatus(Apply(db, Update(id, next, true)), id, next)
  {
  }

  /** From CONFIRMED the shop can take an order to DELIVERED whatever happens to the stock. */
  lemma ConfirmedIsDelivered(db: Db, id: nat)
    requires id < |db.orders| && db.orders[id].status in {Confirmed, Processing, Ready, Delivered}
    ensures CanReach(db, id, Delivered)
    decreases match db.orders[id].status
              case Confirmed => 3
              case Processing => 2
              case Ready => 1
              case _ => 0
  {
    hide Apply, CanReach;
    if db.orders[id].status == Delivered {
      ReachNow(db, id, Delivered);
    } else {
      var next := match db.orders[id].status
        case Confirmed => Processing
        case Processing => Ready
        case _ => Delivered;
      PlainStep(db, id, next);
      ConfirmedIsDelivered(Apply(db, Update(id, next, true)), id);
      ReachThen(db, Update(id, next, true), id, Delivered);
    }
  }

  /** Reading and locking without a call in between. */
  lemma TransactionSteps(db: Db, id: nat, next: Status)
    requires id < |db.orders|
    requires (db.orders[id].status, next) in {(Submitted, Confirmed), (Confirmed, Cancelled)}
    ensures Apply(Apply(db, Update(id, next, true)), Execute(|db.pending|))
         == if next == Confirmed then ConfirmTx(db, id, db.orders[id].items) else CancelTx(db, id, db.orders[id].items)
  {
    hide ConfirmTx, CancelTx;
    var pending := db.pending + [Pending(id, db.orders[id], next)];
    assert pending[..|db.pending|] + pending[|db.pending| + 1..] == db.pending;
  }

  /** A SUBMITTED order whose products are in stock can be confirmed and delivered. */
  lemma SubmittedIsDelivered(db: Db, id: nat)
    requires StockValid(db.stock) && id < |db.orders| && db.orders[id].status == Submitted
    requires InStock(db.stock, db.orders[id].vendor, db.orders[id].items)
    ensures CanReach(db, id, Delivered)
  {
    hide Apply, CanReach, InStock, StockMoved, ConfirmTx, Confirms, StockValid;
    var items := db.orders[id].items;
    ConfirmIs(db, id, items);
    TransactionSteps(db, id, Confirmed);
    ConfirmedIsDelivered(ConfirmTx(db, id, items), id);
    ReachThen(Apply(db, Update(id, Confirmed, true)), Execute(|db.pending|), id, Delivered);
    ReachThen(db, Update(id, Confirmed, true), id, Delivered);
  }

  /** In preparation or delivered: too late to cancel. */
  predicate UnderWay(db: Db, id: nat)
  {
    id < |db.orders| && db.orders[id].status in {Processing, Ready, Delivered}
  }

  lemma ApplyKeepsUnderWay(db: Db, step: Step, id: nat)
    requires UnderWay(db, id)
    ensures UnderWay(Apply(db, step), id)
  {
    hide AllEnough, CanSubmit, Shift;
  }

  lemma {:induction false} RunKeepsUnderWay(db: Db, steps: seq<Step>, id: nat)
    requires UnderWay(db, id)
    ensures UnderWay(Run(db, steps), id)
    decreases |steps|
  {
    hide Apply, UnderWay;
    if steps != [] {
      ApplyKeepsUnderWay(db, steps[0], id);
      RunKeepsUnderWay(Apply(db, steps[0]), steps[1..], id);
    }
  }

  /** An order can be cancelled if and only if it is not yet in preparation: from
      then on no run of calls, however stale what they have read, cancels it. */
  lemma CancelledIff(db: Db, id: nat)
    requires StockValid(db.stock) && id < |db.orders|
    ensures CanReach(db, id, Cancelled) <==> db.orders[id].status !in {Processing, Ready, Delivered}
  {
    hide Apply, Run, CancelTx, StockMoved, StockValid;
    match db.orders[id].status
    case Draft =>
      PlainStep(db, id, Cancelled);
      ReachNow(Apply(db, Update(id, Cancelled, true)), id, Cancelled);
      ReachThen(db, Update(id, Cancelled, true), id, Cancelled);
    case Submitted =>
      PlainStep(db, id, Cancelled);
      ReachNow(Apply(db, Update(id, Cancelled, true)), id, Cancelled);
      ReachThen(db, Update(id, Cancelled, true), id, Cancelled);
    case Confirmed =>
      CancelIs(db, id, db.orders[id].items);
      TransactionSteps(db, id, Cancelled);
      ReachNow(CancelTx(db, id, db.orders[id].items), id, Cancelled);
      ReachThen(Apply(db, Update(id, Cancelled, true)), Execute(|db.pending|), id, Cancelled);
      ReachThen(db, Update(id, Cancelled, true), id, Cancelled);
    case Cancelled => ReachNow(db, id, Cancelled);
    case _ =>
      forall steps
        ensures !HasStatus(Run(db, steps), id, Cancelled)
      {
        RunKeepsUnderWay(db, steps, id);
      }
  }

  // ----- the service -----

  datatype Reason = NotListed | InsufficientStock

  datatype Failure = Failure(product: nat, requested: int, available: int, reason: Reason)

  datatype Reply =
    | Done(order: Order)
    | NotFound
    | InvalidTransition
    | OutOfStock(failed: seq<Failure>)

  /** How a product of the order fails, if it does. */
  function FailureOf(stock: StockTable, vendor: nat, items: seq<Line>, product: nat): Option<Failure>
  {
    var requested := Requested(items, product);
    if requested == 0 then None
    else if !Listed(stock, (vendor, product)) then Some(Failure(product, requested, 0, NotListed))
    else if stock[(vendor, product)].quantity < requested then
      Some(Failure(product, requested, stock[(vendor, product)].quantity, InsufficientStock))
    else None
  }

  /** The list holds each deficient product exactly once, and nothing else. */
  ghost predicate ExactlyTheDeficient(stock: StockTable, vendor: nat, items: seq<Line>, failed: seq<Failure>)
  {
    && (forall i :: 0 <= i < |failed| ==> FailureOf(stock, vendor, items, failed[i].product) == Some(failed[i]))
    && (forall i, j :: 0 <= i < j < |failed| ==> failed[i].product != failed[j].product)
    && (forall p: nat :: FailureOf(stock, vendor, items, p).Some? ==>
          FailureOf(stock, vendor, items, p).value in failed)
  }

  /** A failure says why: the product is not listed, or less is left than asked for. */
  ghost predicate FailureIs(stock: StockTable, vendor: nat, items: seq<Line>, f: Failure)
  {
    && f.requested == Requested(items, f.product) > 0
    && if (vendor, f.product) !in stock || stock[(vendor, f.product)].deleted
       then f.reason == NotListed && f.available == 0
       else f.reason == InsufficientStock && f.available == stock[(vendor, f.product)].quantity < f.requested
  }

  lemma NoneDeficientIffAllEnough(stock: StockTable, vendor: nat, items: seq<Line>, failed: seq<Failure>)
    requires ExactlyTheDeficient(stock, vendor, items, failed)
    ensures failed == [] <==> AllEnough(stock, vendor, items)
  {
    hide Requested;
    forall line | line in items && Counted(line)
      ensures Requested(items, line.product.value) > 0
    {
      LineIsRequested(items, line);
    }
    if failed == [] {
      assert forall line :: line in items && Counted(line) ==>
               FailureOf(stock, vendor, items, line.product.value) == None;
    } else if AllEnough(stock, vendor, items) {
      var p := failed[0].product;
      assert FailureOf(stock, vendor, items, p).Some?;
      RequestedWithin(stock, vendor, items, (vendor, p));
    }
  }

  lemma LineIsRequested(items: seq<Line>, line: Line)
    requires line in items && Counted(line)
    ensures Requested(items, line.product.value) > 0
  {
    var i :| 0 <= i < |items| && items[i] == line;
    SumByAtLeast(items, QuantityOf(line.product.value), i);
  }

  class BulkOrdersService {
    var db: Db

    constructor (stock: StockTable)
      ensures db == Db([], stock, [])
    {
      db := Db([], stock, []);
    }

    /** Confirm: lock every product in turn, deduct those with enough stock,
        and roll everything back if any of them failed. */
    method ConfirmAndDeductStock(id: nat, row: Order) returns (reply: Reply)
      modifies this
      ensures db == ConfirmTx(old(db), id, row.items)
      ensures reply.Done? <==> Confirms(old(db), id, row.items)
      ensures reply.Done? <==> && id < |old(db).orders| && old(db).orders[id].status == Submitted
                               && InStock(old(db).stock, old(db).orders[id].vendor, row.items)
      ensures reply.NotFound? <==> id >= |old(db).orders|
      ensures reply.InvalidTransition? <==> id < |old(db).orders| && old(db).orders[id].status != Submitted
      ensures reply.OutOfStock? ==>
                forall f :: f in reply.failed ==> FailureIs(old(db).stock, old(db).orders[id].vendor, row.items, f)
      ensures reply.OutOfStock? ==>
                id < |db.orders| && ExactlyTheDeficient(db.stock, db.orders[id].vendor, row.items, reply.failed)
    {
      if id >= |db.orders| {
        return NotFound;
      }
      var products, quantity := AggregateByProduct(row.items);
      var locked := db.orders[id];
      if !IsValidTransition(locked.status, Confirmed) {
        return InvalidTransition;
      }
      var tx, failed := DeductEach(db.stock, locked.vendor, row.items, products, quantity);
      NoneDeficientIffAllEnough(db.stock, locked.vendor, row.items, failed);
      AllEnoughIs(db.stock, locked.vendor, row.items);
      if |failed| > 0 {
        return OutOfStock(failed);
      }
      assert tx == Shift(db.stock, locked.vendor, row.items, -1);
      db := db.(orders := SetStatus(db.orders, id, Confirmed), stock := tx);
      return Done(db.orders[id]);
    }

    /** Cancel: give back the stock of each product that is still listed, if the
        locked order was CONFIRMED. */
    method CancelAndRestoreStock(id: nat, row: Order) returns (reply: Reply)
      modifies this
      ensures db == CancelTx(old(db), id, row.items)
      ensures reply.Done? <==> id < |old(db).orders| && old(db).orders[id].status in {Draft, Submitted, Confirmed}
    {
      if id >= |db.orders| {
        return NotFound;
      }
      var products, quantity := AggregateByProduct(row.items);
      var locked := db.orders[id];
      if !IsValidTransition(locked.status, Cancelled) {
        return InvalidTransition;
      }
      var tx := db.stock;
      if locked.status == Confirmed {
        tx := RestoreEach(db.stock, locked.vendor, row.items, products, quantity);
      }
      db := db.(orders := SetStatus(db.orders, id, Cancelled), stock := tx);
      return Done(db.orders[id]);
    }

    /** A status change by the shop, not interleaved with another call: one step
        for a plain change, two for those that move stock. */
    method UpdateStatus(id: nat, next: Status, authorised: bool) returns (reply: Reply)
      modifies this
      ensures var read := Apply(old(db), Update(id, next, authorised));
              db == if |read.pending| > |old(db).pending| then Apply(read, Execute(|old(db).pending|)) else read
      ensures reply.Done? ==> authorised && id < |old(db).orders| && IsValidTransition(old(db).orders[id].status, next)
                              && db.orders[id].status == next
    {
      if id >= |db.orders| {
        return NotFound;
      }
      var row := db.orders[id];
      if !authorised || !IsValidTransition(row.status, next) {
        return InvalidTransition;
      }
      ghost var pending := db.pending + [Pending(id, row, next)];
      assert pending[..|db.pending|] + pending[|db.pending| + 1..] == db.pending;
      if row.status == Submitted && next == Confirmed {
        reply := ConfirmAndDeductStock(id, row);
      } else if row.status == Confirmed && next == Cancelled {
        reply := CancelAndRestoreStock(id, row);
      } else {
        db := db.(orders := SetStatus(db.orders, id, next));
        reply := Done(db.orders[id]);
      }
    }
  }

  /** The failures of a list of products, in order. */
  function Failures(stock: StockTable, vendor: nat, items: seq<Line>, products: seq<nat>): seq<Failure>
  {
    if products == [] then []
    else
      var last := |products| - 1;
      Failures(stock, vendor, items, products[..last])
      + match FailureOf(stock, vendor, items, products[last])
        case None => []
        case Some(f) => [f]
  }

  lemma FailureNamesProduct(stock: StockTable, vendor: nat, items: seq<Line>, product: nat)
    ensures FailureOf(stock, vendor, items, product).Some? ==>
              FailureOf(stock, vendor, items, product).value.product == product
  {
  }

  lemma {:induction false} FailuresListed(stock: StockTable, vendor: nat, items: seq<Line>, products: seq<nat>)
    requires forall i, j :: 0 <= i < j < |products| ==> products[i] != products[j]
    ensures var failed := Failures(stock, vendor, items, products);
            && (forall i :: 0 <= i < |failed| ==>
                  && failed[i].product in products
                  && FailureOf(stock, vendor, items, failed[i].product) == Some(failed[i]))
            && (forall i, j :: 0 <= i < j < |failed| ==> failed[i].product != failed[j].product)
            && (forall p :: p in products && FailureOf(stock, vendor, items, p).Some? ==>
                  FailureOf(stock, vendor, items, p).value in failed)
  {
    hide FailureOf;
    if products != [] {
      var last := |products| - 1;
      FailuresListed(stock, vendor, items, products[..last]);
      FailureNamesProduct(stock, vendor, items, products[last]);
      assert products == products[..last] + [products[last]];
    }
  }

  /** The stock after the products in `done` have been gone through. */
  ghost function Deducted(stock: StockTable, vendor: nat, items: seq<Line>, done: seq<nat>): (s: StockTable)
    ensures s.Keys == stock.Keys
  {
    map k | k in stock ::
      if k.0 == vendor && k.1 in done && FailureOf(stock, vendor, items, k.1) == None
      then ShiftedRow(stock, vendor, items, -1, k) else stock[k]
  }

  lemma DeductStep(stock: StockTable, vendor: nat, items: seq<Line>, done: seq<nat>, pid: nat)
    requires pid !in done
    ensures var k, tx := (vendor, pid), Deducted(stock, vendor, items, done);
            && (k in stock ==> tx[k] == stock[k])
            && Deducted(stock, vendor, items, done + [pid])
            == if k in stock && FailureOf(stock, vendor, items, pid) == None
               then tx[k := ShiftedRow(stock, vendor, items, -1, k)] else tx
  {
    hide Requested, ShiftedRow, FailureOf;
    assert forall p :: p in done + [pid] <==> p in done || p == pid;
  }

  /** The loop of a confirm over the aggregated products. */
  method DeductEach(stock: StockTable, vendor: nat, ghost items: seq<Line>, products: seq<nat>, quantity: map<nat, int>)
    returns (tx: StockTable, failed: seq<Failure>)
    requires forall p :: p in products <==> Requested(items, p) > 0
    requires forall p :: p in products ==> p in quantity && quantity[p] == Requested(items, p)
    requires forall i, j :: 0 <= i < j < |products| ==> products[i] != products[j]
    ensures ExactlyTheDeficient(stock, vendor, items, failed)
    ensures failed == [] ==> tx == Shift(stock, vendor, items, -1)
  {
    hide Requested, Deducted;
    tx, failed := stock, [];
    assert tx == Deducted(stock, vendor, items, []) by {
      NoneDeducted(stock, vendor, items);
    }
    for n := 0 to |products|
      invariant tx == Deducted(stock, vendor, items, products[..n])
      invariant failed == Failures(stock, vendor, items, products[..n])
    {
      var pid := products[n];
      assert products[..n + 1] == products[..n] + [pid];
      assert pid in products && pid !in products[..n];
      var k := (vendor, pid);
      DeductStep(stock, vendor, items, products[..n], pid);
      if !Listed(tx, k) {
        failed := failed + [Failure(pid, quantity[pid], 0, NotListed)];
      } else if tx[k].quantity < quantity[pid] {
        failed := failed + [Failure(pid, quantity[pid], tx[k].quantity, InsufficientStock)];
      } else {
        tx := tx[k := ApplyStock(tx[k], tx[k].quantity - quantity[pid])];
      }
    }
    assert products[..|products|] == products;
    AllDeducted(stock, vendor, items, products, failed);
  }

  lemma NoneDeducted(stock: StockTable, vendor: nat, items: seq<Line>)
    ensures Deducted(stock, vendor, items, []) == stock
  {
  }

  lemma AllDeducted(stock: StockTable, vendor: nat, items: seq<Line>, products: seq<nat>, failed: seq<Failure>)
    requires forall p :: p in products <==> Requested(items, p) > 0
    requires forall i, j :: 0 <= i < j < |products| ==> products[i] != products[j]
    requires failed == Failures(stock, vendor, items, products)
    ensures ExactlyTheDeficient(stock, vendor, items, failed)
    ensures failed == [] ==> Deducted(stock, vendor, items, products) == Shift(stock, vendor, items, -1)
  {
    hide Requested, Failures;
    FailuresListed(stock, vendor, items, products);
  }

  /** The stock after the products in `done` have been given back. */
  ghost function Restored(stock: StockTable, vendor: nat, items: seq<Line>, done: seq<nat>): (s: StockTable)
    ensures s.Keys == stock.Keys
  {
    map k | k in stock :: if k.0 == vendor && k.1 in done then ShiftedRow(stock, vendor, items, 1, k) else stock[k]
  }

  lemma RestoreStep(stock: StockTable, vendor: nat, items: seq<Line>, done: seq<nat>, pid: nat)
    requires pid !in done
    ensures var k, tx := (vendor, pid), Restored(stock, vendor, items, done);
            && (k in stock ==> tx[k] == stock[k])
            && Restored(stock, vendor, items, done + [pid])
            == if k in stock then tx[k := ShiftedRow(stock, vendor, items, 1, k)] else tx
  {
    hide ShiftedRow;
    assert forall p :: p in done + [pid] <==> p in done || p == pid;
  }

  /** The loop of a cancel over the aggregated products. */
  method RestoreEach(stock: StockTable, vendor: nat, ghost items: seq<Line>, products: seq<nat>,
                     quantity: map<nat, int>)
    returns (tx: StockTable)
    requires forall p :: p in products <==> Requested(items, p) > 0
    requires forall p :: p in products ==> p in quantity && quantity[p] == Requested(items, p)
    requires forall i, j :: 0 <= i < j < |products| ==> products[i] != products[j]
    ensures tx == Shift(stock, vendor, items, 1)
  {
    hide Requested, Restored;
    tx := stock;
    assert tx == Restored(stock, vendor, items, []) by {
      NoneRestored(stock, vendor, items);
    }
    for n := 0 to |products|
      invariant tx == Restored(stock, vendor, items, products[..n])
    {
      var pid := products[n];
      assert products[..n + 1] == products[..n] + [pid];
      assert pid in products && pid !in products[..n];
      var k := (vendor, pid);
      RestoreStep(stock, vendor, items, products[..n], pid);
      if Listed(tx, k) {
        tx := tx[k := ApplyStock(tx[k], tx[k].quantity + quantity[pid])];
      } else {
        assert k in stock ==> tx[k := tx[k]] == tx;
      }
    }
    assert products[..|products|] == products;
    AllRestored(stock, vendor, items, products);
  }

  lemma NoneRestored(stock: StockTable, vendor: nat, items: seq<Line>)
    ensures Restored(stock, vendor, items, []) == stock
  {
  }

  lemma AllRestored(stock: StockTable, vendor: nat, items: seq<Line>, products: seq<nat>)
    requires forall p :: p in products <==> Requested(items, p) > 0
    ensures Restored(stock, vendor, items, products) == Shift(stock, vendor, items, 1)
  {
    hide Requested;
  }
}
