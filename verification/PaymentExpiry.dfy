/** The payment expiry worker: one transaction that expires a batch of unpaid
    orders and returns their stock. */
module PaymentExpiry {
  import opened Common
  import opened Stock

  datatype OrderStatus = Pending | Cancelled | OtherOrder(name: string)

  datatype PaymentStatus = PaymentPending | Expired | OtherPayment(name: string)

  /** An order line.  Newer lines carry the id of their vendor_services row, older
      ones the product and the shop; a quantity that is not a number reads as 0. */
  datatype Line = Line(quantity: int, shopProduct: Option<nat>, product: Option<nat>, shop: Option<nat>)

  datatype Order = Order(status: OrderStatus, payment: PaymentStatus, items: seq<Line>)

  datatype Payment = Payment(order: nat, status: PaymentStatus)

  datatype Listing = Listing(vendor: nat, product: nat, row: StockRow)

  datatype Db = Db(orders: seq<Order>, payments: seq<Payment>, listings: seq<Listing>)

  /** One entry of a batch: from an expired payment, or a legacy order without one. */
  datatype Entry = Entry(payment: Option<nat>, order: nat, legacy: bool)

  predicate Open(o: Order)
  {
    o.status == Pending && o.payment == PaymentPending
  }

  // ----- returning the stock of one order -----

  /** The WHERE clause of the UPDATE that a line runs. */
  predicate Matches(id: nat, l: Listing, line: Line)
  {
    && line.quantity > 0
    && !l.row.deleted
    && (if line.shopProduct.Some? then line.shopProduct.value == id
        else line.product == Some(l.product) && line.shop == Some(l.vendor))
  }

  function ReturnLine(listings: seq<Listing>, line: Line): (r: seq<Listing>)
    ensures |r| == |listings|
  {
    seq(|listings|, id requires 0 <= id < |listings| =>
      var l := listings[id];
      if Matches(id, l, line) then l.(row := AddStock(l.row, line.quantity)) else l)
  }

  /** The listing gains the quantity; one that was empty is available again. */
  ghost predicate Restocked(before: Listing, after: Listing, quantity: int)
  {
    && after.vendor == before.vendor && after.product == before.product
    && after.row == StockRow(before.row.quantity + quantity,
                             before.row.available || before.row.quantity == 0,
                             before.row.soldOut && before.row.quantity != 0,
                             before.row.deleted)
  }

  /** The line names the listing: by its own id, or, without one, by its shop and product. */
  predicate Names(line: Line, id: nat, vendor: nat, product: nat)
  {
    || line.shopProduct == Some(id)
    || (line.shopProduct == None && line.shop == Some(vendor) && line.product == Some(product))
  }

  /** A line restocks exactly the listings that it names and that are not deleted:
      by the id of the listing the one listing, by shop and product those of that
      shop and product, and none without either or without a positive quantity. */
  lemma LineRestocks(listings: seq<Listing>, line: Line, id: nat)
    requires id < |listings|
    ensures var before, after := listings[id], ReturnLine(listings, line)[id];
            if line.quantity > 0 && !before.row.deleted && Names(line, id, before.vendor, before.product)
            then Restocked(before, after, line.quantity) else after == before
  {
  }

  function ReturnLines(listings: seq<Listing>, items: seq<Line>): (r: seq<Listing>)
    ensures |r| == |listings|
  {
    if items == [] then listings
    else ReturnLine(ReturnLines(listings, items[..|items| - 1]), items[|items| - 1])
  }

  /** What a line returns to a listing. */
  function QuantityFor(id: nat, l: Listing): Line -> int
  {
    (line: Line) => if Matches(id, l, line) then line.quantity else 0
  }

  /** The row keeps its identity, and gains stock. */
  ghost predicate Gains(before: Listing, after: Listing, quantity: int)
  {
    && after.vendor == before.vendor && after.product == before.product
    && after.row.deleted == before.row.deleted
    && after.row.quantity == before.row.quantity + quantity
    && (Consistent(before.row) ==> Consistent(after.row))
  }

  /** The quantity of a line if it names the listing. */
  function NamedQuantity(line: Line, id: nat, l: Listing): int
  {
    if line.quantity > 0 && Names(line, id, l.vendor, l.product) then line.quantity else 0
  }

  /** What the lines hold of a listing: the quantities of those that name it. */
  lemma {:induction false} HeldQuantity(items: seq<Line>, id: nat, l: Listing)
    ensures SumBy(items, QuantityFor(id, l))
         == if l.row.deleted then 0
            else Sum(seq(|items|, i requires 0 <= i < |items| => NamedQuantity(items[i], id, l)))
  {
    var amounts := seq(|items|, i requires 0 <= i < |items| => NamedQuantity(items[i], id, l));
    if items != [] {
      var last := |items| - 1;
      HeldQuantity(items[..last], id, l);
      assert amounts[..last] == seq(last, i requires 0 <= i < last => NamedQuantity(items[..last][i], id, l));
    }
  }

  lemma {:induction false} LinesReturned(listings: seq<Listing>, items: seq<Line>, id: nat)
    requires id < |listings|
    ensures Gains(listings[id], ReturnLines(listings, items)[id], SumBy(items, QuantityFor(id, listings[id])))
  {
    if items != [] {
      var last := |items| - 1;
      LinesReturned(listings, items[..last], id);
      var l := ReturnLines(listings, items[..last])[id];
      assert Matches(id, l, items[last]) <==> Matches(id, listings[id], items[last]);
    }
  }

  // ----- one entry of the batch -----

  function ExpireOrder(o: Order): Order
  {
    if Open(o) then o.(status := Cancelled, payment := Expired) else o
  }

  /** The payment is the entry's own, or a pending one of its legacy order. */
  predicate ExpiresPayment(e: Entry, k: nat, p: Payment)
  {
    e.payment == Some(k) || (e.legacy && p.order == e.order && p.status == PaymentPending)
  }

  function ExpirePayments(payments: seq<Payment>, e: Entry): (r: seq<Payment>)
    ensures |r| == |payments|
  {
    seq(|payments|, k requires 0 <= k < |payments| =>
      if ExpiresPayment(e, k, payments[k]) then payments[k].(status := Expired) else payments[k])
  }

  function ProcessEntry(db: Db, e: Entry): Db
  {
    if e.order >= |db.orders| then db
    else
      var o := db.orders[e.order];
      Db(db.orders[e.order := ExpireOrder(o)],
         ExpirePayments(db.payments, e),
         if Open(o) then ReturnLines(db.listings, o.items) else db.listings)
  }

  function ProcessBatch(db: Db, batch: seq<Entry>): Db
  {
    if batch == [] then db else ProcessEntry(ProcessBatch(db, batch[..|batch| - 1]), batch[|batch| - 1])
  }

  // ----- conservation -----

  /** The quantity of a listing that an open order holds. */
  function HeldBy(id: nat, l: Listing): Order -> int
  {
    (o: Order) => if Open(o) then SumBy(o.items, QuantityFor(id, l)) else 0
  }

  /** The stock of a listing, plus what open orders hold of it. */
  function Total(db: Db, id: nat): int
    requires id < |db.listings|
  {
    db.listings[id].row.quantity + SumBy(db.orders, HeldBy(id, db.listings[id]))
  }

  ghost predicate Conserves(db: Db, db': Db)
  {
    && |db'.listings| == |db.listings|
    && forall id :: 0 <= id < |db.listings| ==>
         Total(db', id) == Total(db, id)
         && Gains(db.listings[id], db'.listings[id], db'.listings[id].row.quantity - db.listings[id].row.quantity)
  }

  /** Only the vendor, the product and the deletion of a listing matter to what
      orders hold of it. */
  lemma SameHolding(orders: seq<Order>, id: nat, l: Listing, l': Listing)
    requires l'.vendor == l.vendor && l'.product == l.product && l'.row.deleted == l.row.deleted
    ensures SumBy(orders, HeldBy(id, l')) == SumBy(orders, HeldBy(id, l))
  {
    forall i | 0 <= i < |orders|
      ensures HeldBy(id, l')(orders[i]) == HeldBy(id, l)(orders[i])
    {
      SumByAgree(orders[i].items, orders[i].items, QuantityFor(id, l'), QuantityFor(id, l));
    }
    SumByAgree(orders, orders, HeldBy(id, l'), HeldBy(id, l));
  }

  lemma EntryConserves(db: Db, e: Entry)
    ensures Conserves(db, ProcessEntry(db, e))
  {
    var db' := ProcessEntry(db, e);
    forall id | 0 <= id < |db.listings|
      ensures Total(db', id) == Total(db, id)
           && Gains(db.listings[id], db'.listings[id], db'.listings[id].row.quantity - db.listings[id].row.quantity)
    {
      EntryConservesListing(db, e, id);
    }
  }

  lemma EntryConservesListing(db: Db, e: Entry, id: nat)
    requires id < |db.listings|
    ensures var db' := ProcessEntry(db, e);
            && Total(db', id) == Total(db, id)
            && Gains(db.listings[id], db'.listings[id], db'.listings[id].row.quantity - db.listings[id].row.quantity)
  {
    hide Matches, ReturnLines, SumBy;
    if e.order < |db.orders| {
      var o, l := db.orders[e.order], db.listings[id];
      LinesReturned(db.listings, o.items, id);
      SumByUpdate(db.orders, e.order, ExpireOrder(o), HeldBy(id, l));
      SameHolding(db.orders[e.order := ExpireOrder(o)], id, l, ProcessEntry(db, e).listings[id]);
    }
  }

  /** For any batch, whatever it repeats: the stock of every listing plus what
      open orders hold of it stays the same. */
  lemma {:induction false} BatchConserves(db: Db, batch: seq<Entry>)
    ensures Conserves(db, ProcessBatch(db, batch))
  {
    hide Total, ProcessEntry;
    if batch != [] {
      BatchConserves(db, batch[..|batch| - 1]);
      EntryConserves(ProcessBatch(db, batch[..|batch| - 1]), batch[|batch| - 1]);
    }
  }

  /** The same over any number of polls. */
  lemma {:induction false} PollsConserve(db: Db, polls: seq<seq<Entry>>)
    ensures Conserves(db, Polls(db, polls))
  {
    hide Total, ProcessBatch;
    if polls != [] {
      PollsConserve(db, polls[..|polls| - 1]);
      BatchConserves(Polls(db, polls[..|polls| - 1]), polls[|polls| - 1]);
    }
  }

  function Polls(db: Db, polls: seq<seq<Entry>>): Db
  {
    if polls == [] then db else ProcessBatch(Polls(db, polls[..|polls| - 1]), polls[|polls| - 1])
  }

  // ----- what a batch does to each row -----

  predicate InBatch(batch: seq<Entry>, order: nat)
  {
    exists e :: e in batch && e.order == order
  }

  ghost predicate PaymentInBatch(batch: seq<Entry>, orders: nat, k: nat, p: Payment)
  {
    exists e :: e in batch && e.order < orders
                && (e.payment == Some(k) || (e.legacy && e.order == p.order && p.status == PaymentPending))
  }

  /** A batch cancels exactly the open orders it lists, and leaves every other
      order as it was. */
  lemma {:induction false} BatchOrders(db: Db, batch: seq<Entry>)
    ensures var orders := ProcessBatch(db, batch).orders;
            && |orders| == |db.orders|
            && forall i :: 0 <= i < |db.orders| ==>
                 orders[i] == if InBatch(batch, i) then ExpireOrder(db.orders[i]) else db.orders[i]
  {
    hide ReturnLines, ExpirePayments;
    if batch != [] {
      var last := batch[|batch| - 1];
      BatchOrders(db, batch[..|batch| - 1]);
      assert batch == batch[..|batch| - 1] + [last];
      forall i | 0 <= i < |db.orders|
        ensures InBatch(batch, i) <==> InBatch(batch[..|batch| - 1], i) || last.order == i
      {
        assert last in batch;
      }
    }
  }

  /** A batch turns exactly the orders it lists that are PENDING and unpaid into
      CANCELLED and EXPIRED ones, keeps their lines, and leaves every other order
      as it was. */
  lemma BatchCancels(db: Db, batch: seq<Entry>, i: nat)
    requires i < |db.orders|
    ensures |ProcessBatch(db, batch).orders| == |db.orders|
    ensures var before, after := db.orders[i], ProcessBatch(db, batch).orders[i];
            after == if before.status == Pending && before.payment == PaymentPending
                        && exists e :: e in batch && e.order == i
                     then Order(Cancelled, Expired, before.items) else before
  {
    hide ProcessBatch;
    BatchOrders(db, batch);
  }

  /** A batch expires exactly its own payments and the pending payments of its
      legacy orders, as far as the orders exist. */
  lemma {:induction false} BatchPayments(db: Db, batch: seq<Entry>)
    ensures var payments := ProcessBatch(db, batch).payments;
            && |payments| == |db.payments|
            && forall k :: 0 <= k < |db.payments| ==>
                 payments[k] == if PaymentInBatch(batch, |db.orders|, k, db.payments[k])
                                then Payment(db.payments[k].order, Expired) else db.payments[k]
  {
    hide ReturnLines, ExpireOrder;
    if batch != [] {
      var last, before := batch[|batch| - 1], batch[..|batch| - 1];
      BatchPayments(db, before);
      BatchOrders(db, before);
      assert batch == before + [last];
      forall k | 0 <= k < |db.payments|
        ensures PaymentInBatch(batch, |db.orders|, k, db.payments[k])
           <==> PaymentInBatch(before, |db.orders|, k, db.payments[k])
                || (last.order < |db.orders| && ExpiresPayment(last, k, db.payments[k]))
      {
        assert last in batch;
      }
    }
  }

  /** What the first n orders release to a listing when the batch expires. */
  function Released(orders: seq<Order>, batch: seq<Entry>, id: nat, l: Listing, n: nat): int
    requires n <= |orders|
  {
    if n == 0 then 0
    else Released(orders, batch, id, l, n - 1) + if InBatch(batch, n - 1) then HeldBy(id, l)(orders[n - 1]) else 0
  }

  lemma {:induction false} ReleasedIsDifference(before: seq<Order>, after: seq<Order>, batch: seq<Entry>,
                                                id: nat, l: Listing, n: nat)
    requires n <= |before| == |after|
    requires forall i :: 0 <= i < |before| ==>
               after[i] == if InBatch(batch, i) then ExpireOrder(before[i]) else before[i]
    ensures SumBy(before[..n], HeldBy(id, l)) == SumBy(after[..n], HeldBy(id, l)) + Released(before, batch, id, l, n)
  {
    hide QuantityFor, InBatch;
    if n > 0 {
      ReleasedIsDifference(before, after, batch, id, l, n - 1);
      assert before[..n] == before[..n - 1] + [before[n - 1]];
      assert after[..n] == after[..n - 1] + [after[n - 1]];
      SumByAppend(before[..n - 1], before[n - 1], HeldBy(id, l));
      SumByAppend(after[..n - 1], after[n - 1], HeldBy(id, l));
    }
  }

  /** Every listing gets back, exactly once, what the open orders of the batch
      held of it, however often the batch repeats an order. */
  lemma ReturnedOnce(db: Db, batch: seq<Entry>, id: nat)
    requires id < |db.listings|
    ensures |ProcessBatch(db, batch).listings| == |db.listings|
    ensures ProcessBatch(db, batch).listings[id].row.quantity
         == db.listings[id].row.quantity + Released(db.orders, batch, id, db.listings[id], |db.orders|)
  {
    hide ProcessBatch, QuantityFor, Released;
    var db', l := ProcessBatch(db, batch), db.listings[id];
    BatchConserves(db, batch);
    BatchOrders(db, batch);
    ReleasedIsDifference(db.orders, db'.orders, batch, id, l, |db.orders|);
    assert db.orders[..|db.orders|] == db.orders && db'.orders[..|db.orders|] == db'.orders;
    SameHolding(db'.orders, id, l, db'.listings[id]);
  }

  /** A batch reaches a listing: one of its orders is still open and has a line
      with a positive quantity that names the listing. */
  ghost predicate Reaches(db: Db, batch: seq<Entry>, id: nat, l: Listing)
  {
    exists e, n :: e in batch && e.order < |db.orders| && ReachesThrough(db.orders[e.order], n, id, l)
  }

  ghost predicate ReachesThrough(o: Order, n: nat, id: nat, l: Listing)
  {
    && o.status == Pending && o.payment == PaymentPending
    && n < |o.items| && o.items[n].quantity > 0 && Names(o.items[n], id, l.vendor, l.product)
  }

  lemma {:induction false} LinesLeaveOthers(listings: seq<Listing>, items: seq<Line>, id: nat)
    requires id < |listings|
    requires forall n :: 0 <= n < |items| ==>
               items[n].quantity <= 0 || !Names(items[n], id, listings[id].vendor, listings[id].product)
    ensures ReturnLines(listings, items)[id] == listings[id]
  {
    if items != [] {
      var last := |items| - 1;
      LinesLeaveOthers(listings, items[..last], id);
      LineRestocks(ReturnLines(listings, items[..last]), items[last], id);
    }
  }

  /** The stock of a listing stays as it is in a batch that does not reach it: in
      particular a line that names another shop changes nothing in this one. */
  lemma {:induction false} OthersUntouched(db: Db, batch: seq<Entry>, id: nat)
    requires id < |db.listings| && !Reaches(db, batch, id, db.listings[id])
    ensures |ProcessBatch(db, batch).listings| == |db.listings|
    ensures ProcessBatch(db, batch).listings[id] == db.listings[id]
  {
    hide Names, ReturnLines;
    if batch != [] {
      var e, shorter := batch[|batch| - 1], batch[..|batch| - 1];
      forall f | f in shorter
        ensures f in batch
      {
      }
      OthersUntouched(db, shorter, id);
      BatchOrders(db, shorter);
      assert e in batch;
      if e.order < |db.orders| && Open(ProcessBatch(db, shorter).orders[e.order]) {
        var items := db.orders[e.order].items;
        forall n | 0 <= n < |items|
          ensures items[n].quantity <= 0 || !Names(items[n], id, db.listings[id].vendor, db.listings[id].product)
        {
          assert !ReachesThrough(db.orders[e.order], n, id, db.listings[id]);
        }
        LinesLeaveOthers(ProcessBatch(db, shorter).listings, items, id);
      }
    }
  }

  // ----- the worker -----

  class PaymentExpiryWorker {
    var db: Db

    constructor (db: Db)
      ensures this.db == db
    {
      this.db := db;
    }

    /** The batch transaction: for each entry, if its order is still open return
        its stock line by line, then expire the payments and the order. */
    method ProcessExpiredPayments(batch: seq<Entry>)
      modifies this
      ensures db == ProcessBatch(old(db), batch)
    {
      var tx := db;
      for n := 0 to |batch|
        invariant tx == ProcessBatch(db, batch[..n])
        invariant db == old(db)
      {
        assert batch[..n + 1][..n] == batch[..n];
        var e := batch[n];
        if e.order >= |tx.orders| {
          continue;
        }
        var order := tx.orders[e.order];
        var listings := tx.listings;
        if Open(order) {
          for m := 0 to |order.items|
            invariant listings == ReturnLines(tx.listings, order.items[..m])
          {
            assert order.items[..m + 1][..m] == order.items[..m];
            listings := ReturnLine(listings, order.items[m]);
          }
          assert order.items[..|order.items|] == order.items;
        }
        var payments := ExpirePayments(tx.payments, e);
        if Open(order) {
          order := order.(status := Cancelled, payment := Expired);
        }
        tx := Db(tx.orders[e.order := order], payments, listings);
      }
      assert batch[..|batch|] == batch;
      db := tx;
    }
  }
}
