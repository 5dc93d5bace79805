/** The wallet: balances, and the ledger of transactions they must agree with.
    Amounts are whole cents.  A transaction works on a copy of the tables. */
module Wallet {
  import opened Common

  /** The largest DECIMAL(10,2), in cents. */
  const MAX_BALANCE := 9_999_999_999

  const MIN_TOP_UP := 1_000
  const MAX_TOP_UP := 1_000_000

  datatype Wallet = Wallet(user: nat, balance: int)

  datatype Kind = Credit | Debit

  datatype TxStatus = Pending | Completed | Failed

  datatype Tx = Tx(
    wallet: nat,
    kind: Kind,
    amount: int,
    reference: Option<string>,
    status: TxStatus,
    balanceAfter: Option<int>)

  /** An order to be paid, as far as the wallet looks at it. */
  datatype Bill = Bill(user: nat, byWallet: bool, paid: bool, total: int, id: string)

  datatype Db = Db(wallets: seq<Wallet>, ledger: seq<Tx>, bills: seq<Bill>)

  // ----- lookups -----

  function WalletOf(wallets: seq<Wallet>, user: nat): (w: Option<nat>)
    ensures w.Some? ==> w.value < |wallets| && wallets[w.value].user == user
    ensures w == None ==> forall i :: 0 <= i < |wallets| ==> wallets[i].user != user
  {
    if wallets == [] then None
    else if wallets[|wallets| - 1].user == user then Some(|wallets| - 1)
    else WalletOf(wallets[..|wallets| - 1], user)
  }

  /** The latest credit with a reference. */
  function TopUpByReference(ledger: seq<Tx>, reference: string): (i: Option<nat>)
    ensures i.Some? ==>
              && i.value < |ledger|
              && ledger[i.value].kind == Credit && ledger[i.value].reference == Some(reference)
  {
    if ledger == [] then None
    else
      var last := |ledger| - 1;
      if ledger[last].kind == Credit && ledger[last].reference == Some(reference) then Some(last)
      else TopUpByReference(ledger[..last], reference)
  }

  /** It is found whenever there is one, and no later credit has the reference. */
  lemma {:induction false} LatestCredit(ledger: seq<Tx>, reference: string, k: nat)
    requires k < |ledger| && ledger[k].kind == Credit && ledger[k].reference == Some(reference)
    ensures TopUpByReference(ledger, reference).Some? && k <= TopUpByReference(ledger, reference).value
  {
    if k < |ledger| - 1 {
      LatestCredit(ledger[..|ledger| - 1], reference, k);
    }
  }

  // ----- single statements; None when the database refuses -----

  /** INSERT ... ON CONFLICT DO NOTHING. */
  function EnsureWallet(db: Db, user: nat): (r: Db)
    ensures WalletOf(r.wallets, user).Some?
  {
    if WalletOf(db.wallets, user).Some? then db else db.(wallets := db.wallets + [Wallet(user, 0)])
  }

  /** A change of balance within the CHECK constraint and the column's range. */
  function ChangeBalance(db: Db, w: nat, delta: int): Option<Db>
    requires w < |db.wallets|
  {
    var balance := db.wallets[w].balance + delta;
    if 0 <= balance <= MAX_BALANCE then
      Some(db.(wallets := db.wallets[w := db.wallets[w].(balance := balance)]))
    else None
  }

  /** A ledger row, whose amount must be positive. */
  function Insert(db: Db, tx: Tx): Option<Db>
  {
    if tx.amount > 0 then Some(db.(ledger := db.ledger + [tx])) else None
  }

  lemma OverdraftFails(db: Db, w: nat, amount: int, reference: Option<string>)
    requires w < |db.wallets| && db.wallets[w].balance < amount
    ensures Post(db, w, Debit, amount, reference) == None
  {
  }

  /** A change of balance together with its completed ledger row. */
  function Post(db: Db, w: nat, kind: Kind, amount: int, reference: Option<string>): Option<Db>
    requires w < |db.wallets|
  {
    match ChangeBalance(db, w, if kind == Credit then amount else -amount)
    case None => None
    case Some(changed) =>
      Insert(changed, Tx(w, kind, amount, reference, Completed, Some(changed.wallets[w].balance)))
  }

  /** A pending top-up is credited to its wallet and completed. */
  function Complete(db: Db, i: nat): Option<Db>
    requires i < |db.ledger| && db.ledger[i].wallet < |db.wallets|
  {
    var t := db.ledger[i];
    match ChangeBalance(db, t.wallet, t.amount)
    case None => None
    case Some(changed) =>
      var balance := changed.wallets[t.wallet].balance;
      Some(changed.(ledger := changed.ledger[i := t.(status := Completed, balanceAfter := Some(balance))]))
  }

  function MarkFailed(db: Db, i: nat): Db
    requires i < |db.ledger|
  {
    db.(ledger := db.ledger[i := db.ledger[i].(status := Failed)])
  }

  // ----- calls -----

  datatype Call =
    | GetWallet(user: nat)
    | CreateTopUp(user: nat, amount: int, reference: string, gatewayOk: bool)
    | VerifyTopUp(user: nat, reference: string, detailsGiven: bool, signatureOk: bool)
    | AddMoney(user: nat, amount: int, referenceId: Option<string>)
    | PayFromWallet(user: nat, bill: nat)
    | Transfer(user: nat, recipient: Option<nat>, amount: int)

  datatype Reply = Success | Rejected(reason: string)

  function OrRollback(db: Db, result: Option<Db>): (Db, Reply)
  {
    match result
    case None => (db, Rejected("transaction failed"))
    case Some(committed) => (committed, Success)
  }

  function CreateTopUpTx(db: Db, user: nat, amount: int, reference: string, gatewayOk: bool): (Db, Reply)
  {
    if !(MIN_TOP_UP <= amount <= MAX_TOP_UP) then (db, Rejected("amount out of range"))
    else
      var ensured := EnsureWallet(db, user);
      if !gatewayOk then (ensured, Rejected("gateway failed"))
      else
        var w := WalletOf(ensured.wallets, user).value;
        (ensured.(ledger := ensured.ledger + [Tx(w, Credit, amount, Some(reference), Pending, None)]), Success)
  }

  function VerifyTopUpTx(db: Db, user: nat, reference: string, detailsGiven: bool, signatureOk: bool): (Db, Reply)
  {
    var found := TopUpByReference(db.ledger, reference);
    if !detailsGiven then (db, Rejected("missing details"))
    else if found == None || db.ledger[found.value].wallet >= |db.wallets| then (db, Rejected("not found"))
    else
      var i, t := found.value, db.ledger[found.value];
      if db.wallets[t.wallet].user != user then (db, Rejected("unauthorized"))
      else if t.status == Completed then (db, Success)
      else if t.status == Failed then (db, Rejected("already failed"))
      else if !signatureOk then (MarkFailed(db, i), Rejected("verification failed"))
      else OrRollback(db, Complete(db, i))
  }

  function AddMoneyTx(db: Db, user: nat, amount: int, reference: Option<string>): (Db, Reply)
  {
    var ensured := EnsureWallet(db, user);
    OrRollback(db, Post(ensured, WalletOf(ensured.wallets, user).value, Credit, amount, reference))
  }

  function PayTx(db: Db, user: nat, bill: nat): (Db, Reply)
  {
    if bill >= |db.bills| || db.bills[bill].user != user || !db.bills[bill].byWallet || db.bills[bill].paid then
      (db, Rejected("not payable"))
    else
      match WalletOf(db.wallets, user)
      case None => (db, Rejected("wallet not found"))
      case Some(w) =>
        match Post(db, w, Debit, db.bills[bill].total, Some(db.bills[bill].id))
        case None => (db, Rejected("insufficient balance"))
        case Some(paid) => (paid.(bills := paid.bills[bill := paid.bills[bill].(paid := true)]), Success)
  }

  /** The text of a user's id. */
  function IdText(user: nat): string
  {
    var digit := ['0' + (user % 10) as char];
    if user < 10 then digit else IdText(user / 10) + digit
  }

  lemma {:induction false} IdsDiffer(a: nat, b: nat)
    requires IdText(a) == IdText(b)
    ensures a == b
  {
    var s, t := IdText(a), IdText(b);
    assert s[|s| - 1] == '0' + (a % 10) as char && t[|t| - 1] == '0' + (b % 10) as char;
    if a >= 10 && b >= 10 {
      assert s[..|s| - 1] == IdText(a / 10) && t[..|t| - 1] == IdText(b / 10);
      IdsDiffer(a / 10, b / 10);
    } else {
      IdTextLength(a);
      IdTextLength(b);
    }
  }

  lemma IdTextLength(user: nat)
    ensures |IdText(user)| >= 1 && (user >= 10 <==> |IdText(user)| >= 2)
  {
  }

  /** The ledger rows of a transfer name the other user. */
  function TransferReference(user: nat): Option<string>
  {
    Some("transfer:" + IdText(user))
  }

  function TransferTx(db: Db, user: nat, recipient: Option<nat>, amount: int): (Db, Reply)
  {
    if recipient == None || recipient.value == user then (db, Rejected("no recipient"))
    else
      match WalletOf(db.wallets, user)
      case None => (db, Rejected("wallet not found"))
      case Some(from) =>
        var ensured := EnsureWallet(db, recipient.value);
        var to := WalletOf(ensured.wallets, recipient.value).value;
        match Post(ensured, from, Debit, amount, TransferReference(recipient.value))
        case None => (db, Rejected("insufficient balance"))
        case Some(debited) => OrRollback(db, Post(debited, to, Credit, amount, TransferReference(user)))
  }

  function Apply(db: Db, call: Call): (Db, Reply)
  {
    match call
    case GetWallet(user) => (EnsureWallet(db, user), Success)
    case CreateTopUp(user, amount, reference, gatewayOk) => CreateTopUpTx(db, user, amount, reference, gatewayOk)
    case VerifyTopUp(user, reference, detailsGiven, signatureOk) =>
      VerifyTopUpTx(db, user, reference, detailsGiven, signatureOk)
    case AddMoney(user, amount, reference) => AddMoneyTx(db, user, amount, reference)
    case PayFromWallet(user, bill) => PayTx(db, user, bill)
    case Transfer(user, recipient, amount) => TransferTx(db, user, recipient, amount)
  }

  function Run(db: Db, calls: seq<Call>): Db
    decreases |calls|
  {
    if calls == [] then db else Run(Apply(db, calls[0]).0, calls[1..])
  }

  // ----- the invariant -----

  /** What a ledger row adds to the balance of a wallet. */
  function EffectOn(w: nat): Tx -> int
  {
    (t: Tx) => if t.wallet == w && t.status == Completed then (if t.kind == Credit then t.amount else -t.amount) else 0
  }

  ghost predicate WalletsValid(wallets: seq<Wallet>)
  {
    && (forall i, j :: 0 <= i < j < |wallets| ==> wallets[i].user != wallets[j].user)
    && (forall i :: 0 <= i < |wallets| ==> 0 <= wallets[i].balance <= MAX_BALANCE)
  }

  ghost predicate LedgerValid(ledger: seq<Tx>, wallets: nat)
  {
    forall i :: 0 <= i < |ledger| ==> ledger[i].wallet < wallets && ledger[i].amount > 0
  }

  /** Every balance is its completed credits minus its completed debits. */
  ghost predicate Agrees(wallets: seq<Wallet>, ledger: seq<Tx>)
  {
    forall w :: 0 <= w < |wallets| ==> wallets[w].balance == SumBy(ledger, EffectOn(w))
  }

  ghost predicate Inv(db: Db)
  {
    WalletsValid(db.wallets) && LedgerValid(db.ledger, |db.wallets|) && Agrees(db.wallets, db.ledger)
  }

  lemma {:induction false} NoEffect(ledger: seq<Tx>, w: nat)
    requires forall i :: 0 <= i < |ledger| ==> ledger[i].wallet != w
    ensures SumBy(ledger, EffectOn(w)) == 0
  {
    if ledger != [] {
      NoEffect(ledger[..|ledger| - 1], w);
    }
  }

  lemma EnsureKeepsInv(db: Db, user: nat)
    requires Inv(db)
    ensures Inv(EnsureWallet(db, user))
  {
    hide SumBy;
    NoEffect(db.ledger, |db.wallets|);
  }

  /** The effect of a new ledger row, wallet by wallet. */
  lemma InsertEffect(ledger: seq<Tx>, t: Tx)
    ensures forall w: nat :: SumBy(ledger + [t], EffectOn(w)) == SumBy(ledger, EffectOn(w)) + EffectOn(w)(t)
  {
    forall w: nat
      ensures SumBy(ledger + [t], EffectOn(w)) == SumBy(ledger, EffectOn(w)) + EffectOn(w)(t)
    {
      SumByAppend(ledger, t, EffectOn(w));
    }
  }

  lemma UpdateEffect(ledger: seq<Tx>, i: nat, t: Tx)
    requires i < |ledger|
    ensures forall w: nat ::
              SumBy(ledger[i := t], EffectOn(w)) == SumBy(ledger, EffectOn(w)) - EffectOn(w)(ledger[i]) + EffectOn(w)(t)
  {
    forall w: nat
      ensures SumBy(ledger[i := t], EffectOn(w)) == SumBy(ledger, EffectOn(w)) - EffectOn(w)(ledger[i]) + EffectOn(w)(t)
    {
      SumByUpdate(ledger, i, t, EffectOn(w));
    }
  }

  lemma PostKeepsInv(db: Db, w: nat, kind: Kind, amount: int, reference: Option<string>)
    requires Inv(db) && w < |db.wallets|
    ensures Post(db, w, kind, amount, reference).Some? ==> Inv(Post(db, w, kind, amount, reference).value)
  {
    hide SumBy;
    var posted := Post(db, w, kind, amount, reference);
    if posted.Some? {
      InsertEffect(db.ledger, posted.value.ledger[|db.ledger|]);
    }
  }

  lemma InsertPendingKeepsInv(db: Db, t: Tx)
    requires Inv(db) && t.wallet < |db.wallets| && t.amount > 0 && t.status == Pending
    ensures Inv(db.(ledger := db.ledger + [t]))
  {
    hide SumBy;
    InsertEffect(db.ledger, t);
  }

  lemma SettleKeepsInv(db: Db, i: nat)
    requires Inv(db) && i < |db.ledger| && db.ledger[i].status == Pending && db.ledger[i].kind == Credit
    ensures Inv(MarkFailed(db, i))
    ensures db.ledger[i].wallet < |db.wallets|
    ensures Complete(db, i).Some? ==> Inv(Complete(db, i).value)
  {
    hide SumBy;
    UpdateEffect(db.ledger, i, db.ledger[i].(status := Failed));
    var done := Complete(db, i);
    if done.Some? {
      UpdateEffect(db.ledger, i, done.value.ledger[i]);
    }
  }

  lemma ApplyKeepsInv(db: Db, call: Call)
    requires Inv(db)
    ensures Inv(Apply(db, call).0)
  {
    hide WalletsValid, LedgerValid, Agrees, Post, Complete, MarkFailed, TransferReference;
    match call
    case GetWallet(user) => EnsureKeepsInv(db, user);
    case CreateTopUp(user, amount, reference, gatewayOk) =>
      var ensured := EnsureWallet(db, user);
      EnsureKeepsInv(db, user);
      if MIN_TOP_UP <= amount {
        var w := WalletOf(ensured.wallets, user).value;
        InsertPendingKeepsInv(ensured, Tx(w, Credit, amount, Some(reference), Pending, None));
      }
    case VerifyTopUp(user, reference, detailsGiven, signatureOk) =>
      var found := TopUpByReference(db.ledger, reference);
      if found.Some? && db.ledger[found.value].status == Pending {
        SettleKeepsInv(db, found.value);
      }
    case AddMoney(user, amount, reference) =>
      var ensured := EnsureWallet(db, user);
      EnsureKeepsInv(db, user);
      PostKeepsInv(ensured, WalletOf(ensured.wallets, user).value, Credit, amount, reference);
    case PayFromWallet(user, bill) =>
      var w := WalletOf(db.wallets, user);
      if w.Some? && bill < |db.bills| {
        PostKeepsInv(db, w.value, Debit, db.bills[bill].total, Some(db.bills[bill].id));
        BillsDoNotMatter();
      }
    case Transfer(user, recipient, amount) =>
      var from := WalletOf(db.wallets, user);
      if from.Some? && recipient.Some? {
        var ensured := EnsureWallet(db, recipient.value);
        EnsureKeepsInv(db, recipient.value);
        PostKeepsInv(ensured, from.value, Debit, amount, TransferReference(recipient.value));
        var debited := Post(ensured, from.value, Debit, amount, TransferReference(recipient.value));
        if debited.Some? {
          PostKeepsWallets(ensured, from.value, Debit, amount, TransferReference(recipient.value));
          PostKeepsInv(debited.value, WalletOf(ensured.wallets, recipient.value).value, Credit, amount,
                       TransferReference(user));
        }
      }
  }

  lemma PostKeepsWallets(db: Db, w: nat, kind: Kind, amount: int, reference: Option<string>)
    requires w < |db.wallets|
    ensures var posted := Post(db, w, kind, amount, reference);
            posted.Some? ==> |posted.value.wallets| == |db.wallets| && posted.value.bills == db.bills
  {
  }

  lemma BillsDoNotMatter()
    ensures forall db': Db, bills: seq<Bill> :: Inv(db') ==> Inv(db'.(bills := bills))
  {
  }

  /** In every state that calls can reach, every balance is non-negative and
      equals its completed credits minus its completed debits. */
  lemma {:induction false} RunKeepsInv(db: Db, calls: seq<Call>)
    requires Inv(db)
    ensures Inv(Run(db, calls))
    decreases |calls|
  {
    hide Inv, Apply;
    if calls != [] {
      ApplyKeepsInv(db, calls[0]);
      RunKeepsInv(Apply(db, calls[0]).0, calls[1..]);
    }
  }

  // ----- the recorded balances -----

  /** A row has a balance_after exactly when it is COMPLETED. */
  ghost predicate AftersValid(ledger: seq<Tx>)
  {
    forall i :: 0 <= i < |ledger| ==> (ledger[i].status == Completed <==> ledger[i].balanceAfter.Some?)
  }

  predicate Records(t: Tx, w: nat, balance: int)
  {
    t.wallet == w && t.status == Completed && t.balanceAfter == Some(balance)
  }

  predicate Unused(ledger: seq<Tx>, w: nat)
  {
    forall i :: 0 <= i < |ledger| ==> ledger[i].wallet != w || ledger[i].status != Completed
  }

  /** The balance of a wallet is the balance_after of one of its COMPLETED rows,
      or zero while there is none. */
  ghost predicate BalanceRecorded(db: Db, w: nat)
    requires w < |db.wallets|
  {
    || (db.wallets[w].balance == 0 && Unused(db.ledger, w))
    || exists i :: 0 <= i < |db.ledger| && Records(db.ledger[i], w, db.wallets[w].balance)
  }

  ghost predicate Recorded(db: Db)
  {
    AftersValid(db.ledger) && forall w: nat :: w < |db.wallets| ==> BalanceRecorded(db, w)
  }

  lemma EnsureKeepsRecorded(db: Db, user: nat)
    requires Recorded(db) && LedgerValid(db.ledger, |db.wallets|)
    ensures Recorded(EnsureWallet(db, user))
  {
    var db' := EnsureWallet(db, user);
    forall w: nat | w < |db'.wallets|
      ensures BalanceRecorded(db', w)
    {
      if w < |db.wallets| {
        assert BalanceRecorded(db, w);
      }
    }
  }

  lemma PostKeepsRecorded(db: Db, w: nat, kind: Kind, amount: int, reference: Option<string>)
    requires Recorded(db) && w < |db.wallets|
    ensures var posted := Post(db, w, kind, amount, reference); posted.Some? ==> Recorded(posted.value)
  {
    var posted := Post(db, w, kind, amount, reference);
    if posted.Some? {
      var db' := posted.value;
      assert Records(db'.ledger[|db.ledger|], w, db'.wallets[w].balance);
      forall v: nat | v < |db'.wallets|
        ensures BalanceRecorded(db', v)
      {
        assert BalanceRecorded(db, v);
        assert forall i :: 0 <= i < |db.ledger| ==> db'.ledger[i] == db.ledger[i];
      }
    }
  }

  /** A row that is not COMPLETED may be appended, or take the place of one that is not. */
  lemma OpenKeepsRecorded(db: Db, i: nat, t: Tx)
    requires Recorded(db) && t.status != Completed && t.balanceAfter == None
    requires i < |db.ledger| ==> db.ledger[i].status != Completed
    ensures Recorded(db.(ledger := if i < |db.ledger| then db.ledger[i := t] else db.ledger + [t]))
  {
    var db' := db.(ledger := if i < |db.ledger| then db.ledger[i := t] else db.ledger + [t]);
    forall v: nat | v < |db'.wallets|
      ensures BalanceRecorded(db', v)
    {
      assert BalanceRecorded(db, v);
      assert forall k :: 0 <= k < |db.ledger| && db.ledger[k].status == Completed ==> db'.ledger[k] == db.ledger[k];
    }
  }

  lemma CompleteKeepsRecorded(db: Db, i: nat)
    requires Recorded(db) && i < |db.ledger| && db.ledger[i].status == Pending && db.ledger[i].wallet < |db.wallets|
    ensures Complete(db, i).Some? ==> Recorded(Complete(db, i).value)
  {
    if Complete(db, i).Some? {
      var db' := Complete(db, i).value;
      var w := db.ledger[i].wallet;
      assert Records(db'.ledger[i], w, db'.wallets[w].balance);
      forall v: nat | v < |db'.wallets|
        ensures BalanceRecorded(db', v)
      {
        assert BalanceRecorded(db, v);
        assert forall k :: 0 <= k < |db.ledger| && k != i ==> db'.ledger[k] == db.ledger[k];
      }
    }
  }

  lemma ApplyKeepsRecorded(db: Db, call: Call)
    requires Inv(db) && Recorded(db)
    ensures Recorded(Apply(db, call).0)
  {
    hide WalletsValid, Agrees, Recorded, Post, Complete, WalletOf, TransferReference;
    match call
    case GetWallet(user) => EnsureKeepsRecorded(db, user);
    case CreateTopUp(user, amount, reference, gatewayOk) =>
      var ensured := EnsureWallet(db, user);
      EnsureKeepsRecorded(db, user);
      OpenKeepsRecorded(ensured, |ensured.ledger|,
                        Tx(WalletOf(ensured.wallets, user).value, Credit, amount, Some(reference), Pending, None));
    case VerifyTopUp(user, reference, detailsGiven, signatureOk) =>
      var found := TopUpByReference(db.ledger, reference);
      if found.Some? && db.ledger[found.value].status == Pending {
        CompleteKeepsRecorded(db, found.value);
        PendingHasNoBalance(db, found.value);
        OpenKeepsRecorded(db, found.value, db.ledger[found.value].(status := Failed));
      }
    case AddMoney(user, amount, reference) =>
      var ensured := EnsureWallet(db, user);
      EnsureKeepsRecorded(db, user);
      PostKeepsRecorded(ensured, WalletOf(ensured.wallets, user).value, Credit, amount, reference);
    case PayFromWallet(user, bill) =>
      var w := WalletOf(db.wallets, user);
      if w.Some? && bill < |db.bills| {
        PostKeepsRecorded(db, w.value, Debit, db.bills[bill].total, Some(db.bills[bill].id));
        BillsAreNotRecorded();
      }
    case Transfer(user, recipient, amount) =>
      var from := WalletOf(db.wallets, user);
      if from.Some? && recipient.Some? {
        var ensured := EnsureWallet(db, recipient.value);
        EnsureKeepsRecorded(db, recipient.value);
        PostKeepsRecorded(ensured, from.value, Debit, amount, TransferReference(recipient.value));
        var debited := Post(ensured, from.value, Debit, amount, TransferReference(recipient.value));
        if debited.Some? {
          PostKeepsWallets(ensured, from.value, Debit, amount, TransferReference(recipient.value));
          PostKeepsRecorded(debited.value, WalletOf(ensured.wallets, recipient.value).value, Credit, amount,
                            TransferReference(user));
        }
      }
  }

  lemma PendingHasNoBalance(db: Db, i: nat)
    requires Recorded(db) && i < |db.ledger| && db.ledger[i].status == Pending
    ensures db.ledger[i].balanceAfter == None
  {
  }

  lemma BillsAreNotRecorded()
    ensures forall db': Db, bills: seq<Bill> :: Recorded(db') ==> Recorded(db'.(bills := bills))
  {
    forall db': Db, bills: seq<Bill> | Recorded(db')
      ensures Recorded(db'.(bills := bills))
    {
      assert forall w: nat :: w < |db'.wallets| && BalanceRecorded(db', w) ==> BalanceRecorded(db'.(bills := bills), w);
    }
  }

  /** In every state that calls can reach, every balance is the balance_after of
      a COMPLETED row of its wallet, and no other row has a balance_after. */
  lemma {:induction false} RunKeepsRecorded(db: Db, calls: seq<Call>)
    requires Inv(db) && Recorded(db)
    ensures Recorded(Run(db, calls))
    decreases |calls|
  {
    hide Inv, Recorded, Apply;
    if calls != [] {
      ApplyKeepsInv(db, calls[0]);
      ApplyKeepsRecorded(db, calls[0]);
      RunKeepsRecorded(Apply(db, calls[0]).0, calls[1..]);
    }
  }

  // ----- totals -----

  function BalanceOf(): Wallet -> int
  {
    (w: Wallet) => w.balance
  }

  function TotalBalance(db: Db): int
  {
    SumBy(db.wallets, BalanceOf())
  }

  function CompletedOf(kind: Kind): Tx -> int
  {
    (t: Tx) => if t.kind == kind && t.status == Completed then t.amount else 0
  }

  function TotalAdded(db: Db): int
  {
    SumBy(db.ledger, CompletedOf(Credit))
  }

  function TotalUsed(db: Db): int
  {
    SumBy(db.ledger, CompletedOf(Debit))
  }

  /** What a ledger row adds to the first n wallets. */
  function EffectBelow(n: nat): Tx -> int
  {
    (t: Tx) => if t.wallet < n then EffectOn(t.wallet)(t) else 0
  }

  /** Summing the ledger wallet by wallet is summing it once. */
  lemma {:induction false} BalancesSum(db: Db, n: nat)
    requires Inv(db) && n <= |db.wallets|
    ensures SumBy(db.wallets[..n], BalanceOf()) == SumBy(db.ledger, EffectBelow(n))
  {
    hide WalletsValid;
    if n == 0 {
      ZeroEffect(db.ledger);
    } else {
      BalancesSum(db, n - 1);
      assert db.wallets[..n] == db.wallets[..n - 1] + [db.wallets[n - 1]];
      SumByAppend(db.wallets[..n - 1], db.wallets[n - 1], BalanceOf());
      SumByPlus(db.ledger, EffectBelow(n - 1), EffectOn(n - 1), EffectBelow(n));
    }
  }

  lemma {:induction false} ZeroEffect(ledger: seq<Tx>)
    ensures SumBy(ledger, EffectBelow(0)) == 0
  {
    if ledger != [] {
      ZeroEffect(ledger[..|ledger| - 1]);
      var t := ledger[|ledger| - 1];
      assert 0 <= t.wallet;
      assert EffectBelow(0)(t) == 0;
    }
  }

  /** The admin totals always balance: money held is money added minus money used. */
  lemma StatsBalance(db: Db)
    requires Inv(db)
    ensures TotalBalance(db) == TotalAdded(db) - TotalUsed(db)
  {
    hide SumBy, WalletsValid, Agrees;
    var n := |db.wallets|;
    BalancesSum(db, n);
    assert db.wallets[..n] == db.wallets;
    forall i | 0 <= i < |db.ledger|
      ensures CompletedOf(Credit)(db.ledger[i]) == EffectBelow(n)(db.ledger[i]) + CompletedOf(Debit)(db.ledger[i])
    {
      var t := db.ledger[i];
      assert t.wallet < n;
      assert EffectBelow(n)(t) == EffectOn(t.wallet)(t);
    }
    SumByPlus(db.ledger, EffectBelow(n), CompletedOf(Debit), CompletedOf(Credit));
  }

  /** A transfer leaves the sum of all balances unchanged, whether it succeeds or not. */
  lemma TransferConserves(db: Db, user: nat, recipient: Option<nat>, amount: int)
    ensures TotalBalance(TransferTx(db, user, recipient, amount).0) == TotalBalance(db)
  {
    hide SumBy;
    var sender := WalletOf(db.wallets, user);
    if sender.Some? && recipient.Some? {
      var ensured := EnsureWallet(db, recipient.value);
      SumByAppend(db.wallets, Wallet(recipient.value, 0), BalanceOf());
      var to := WalletOf(ensured.wallets, recipient.value).value;
      PostTotal(ensured, sender.value, Debit, amount, TransferReference(recipient.value));
      var debited := Post(ensured, sender.value, Debit, amount, TransferReference(recipient.value));
      if debited.Some? {
        PostTotal(debited.value, to, Credit, amount, TransferReference(user));
      }
    }
  }

  lemma PostTotal(db: Db, w: nat, kind: Kind, amount: int, reference: Option<string>)
    requires w < |db.wallets|
    ensures var posted := Post(db, w, kind, amount, reference);
            posted.Some? ==>
              && |posted.value.wallets| == |db.wallets|
              && TotalBalance(posted.value) == TotalBalance(db) + if kind == Credit then amount else -amount
  {
    hide SumBy;
    var balance := db.wallets[w].balance + if kind == Credit then amount else -amount;
    SumByUpdate(db.wallets, w, db.wallets[w].(balance := balance), BalanceOf());
  }

  /** A successful transfer moves a positive amount from the one wallet to the other. */
  lemma TransferMoves(db: Db, user: nat, recipient: nat, amount: int)
    requires Inv(db) && TransferTx(db, user, Some(recipient), amount).1 == Success
    ensures var db' := TransferTx(db, user, Some(recipient), amount).0;
            && 0 < amount && user != recipient
            && Balance(db', user) == Balance(db, user) - amount
            && Balance(db', recipient) == Balance(db, recipient) + amount
            && forall other :: other != user && other != recipient ==> Balance(db', other) == Balance(db, other)
  {
    hide Inv;
    var ensured := EnsureWallet(db, recipient);
    EnsureKeepsInv(db, recipient);
    EnsureKeepsBalances(db, recipient);
    var sender := WalletOf(db.wallets, user).value;
    var to := WalletOf(ensured.wallets, recipient).value;
    var debited := Post(ensured, sender, Debit, amount, TransferReference(recipient)).value;
    PostKeepsInv(ensured, sender, Debit, amount, TransferReference(recipient));
    PostBalances(ensured, sender, Debit, amount, TransferReference(recipient));
    PostBalances(debited, to, Credit, amount, TransferReference(user));
  }

  /** The balance of a user, 0 without a wallet. */
  function Balance(db: Db, user: nat): int
  {
    match WalletOf(db.wallets, user)
    case None => 0
    case Some(w) => db.wallets[w].balance
  }

  lemma EnsureKeepsBalances(db: Db, user: nat)
    ensures forall u :: Balance(EnsureWallet(db, user), u) == Balance(db, u)
  {
    hide WalletOf;
    var ensured := EnsureWallet(db, user);
    if WalletOf(db.wallets, user) == None {
      forall u
        ensures Balance(ensured, u) == Balance(db, u)
      {
        WalletAppended(db.wallets, Wallet(user, 0), u);
      }
    }
  }

  lemma WalletAppended(wallets: seq<Wallet>, w: Wallet, user: nat)
    ensures WalletOf(wallets + [w], user) == if w.user == user then Some(|wallets|) else WalletOf(wallets, user)
  {
    assert (wallets + [w])[..|wallets|] == wallets;
  }

  lemma WalletIsUnique(wallets: seq<Wallet>, user: nat, w: nat)
    requires WalletsValid(wallets) && w < |wallets| && wallets[w].user == user
    ensures WalletOf(wallets, user) == Some(w)
  {
  }

  lemma PostBalances(db: Db, w: nat, kind: Kind, amount: int, reference: Option<string>)
    requires Inv(db) && w < |db.wallets|
    ensures var posted := Post(db, w, kind, amount, reference);
            posted.Some? ==>
              && 0 < amount
              && Moved(db, posted.value, db.wallets[w].user, if kind == Credit then amount else -amount)
  {
    hide Agrees, LedgerValid;
    var posted := Post(db, w, kind, amount, reference);
    if posted.Some? {
      var wallets := posted.value.wallets;
      forall u
        ensures WalletOf(wallets, u) == WalletOf(db.wallets, u)
      {
        var found := WalletOf(db.wallets, u);
        if found.Some? {
          WalletIsUnique(wallets, u, found.value);
        }
      }
      WalletIsUnique(db.wallets, db.wallets[w].user, w);
    }
  }

  /** Exactly this user's balance changes, by this amount. */
  ghost predicate Moved(db: Db, db': Db, user: nat, delta: int)
  {
    forall u :: Balance(db', u) == Balance(db, u) + if u == user then delta else 0
  }

  /** Adding money credits exactly the amount to the user, or changes nothing. */
  lemma AddMoneyCredits(db: Db, user: nat, amount: int, referenceId: Option<string>)
    requires Inv(db)
    ensures var (db', reply) := AddMoneyTx(db, user, amount, referenceId);
            if reply == Success then 0 < amount && Moved(db, db', user, amount) else db' == db
  {
    hide Inv, Post, Balance, WalletOf;
    var ensured := EnsureWallet(db, user);
    EnsureKeepsInv(db, user);
    EnsureKeepsBalances(db, user);
    PostBalances(ensured, WalletOf(ensured.wallets, user).value, Credit, amount, referenceId);
  }

  /** A payment debits exactly the total and marks the bill paid, or changes
      nothing; a paid bill is never charged again. */
  lemma PaymentDebitsOnce(db: Db, user: nat, bill: nat, again: nat)
    requires Inv(db)
    ensures var (db', reply) := PayTx(db, user, bill);
            if reply == Success then
              && bill < |db.bills| && Moved(db, db', user, -db.bills[bill].total)
              && db'.bills == db.bills[bill := db.bills[bill].(paid := true)]
              && PayTx(db', again, bill).0 == db'
            else db' == db
  {
    hide Inv, Post;
    var w := WalletOf(db.wallets, user);
    if w.Some? && bill < |db.bills| {
      var total, reference := db.bills[bill].total, Some(db.bills[bill].id);
      PostBalances(db, w.value, Debit, total, reference);
      PostKeepsWallets(db, w.value, Debit, total, reference);
      var posted := Post(db, w.value, Debit, total, reference);
      if posted.Some? {
        BillsKeepBalances(posted.value, posted.value.bills[bill := posted.value.bills[bill].(paid := true)]);
      }
    }
  }

  lemma BillsKeepBalances(db: Db, bills: seq<Bill>)
    ensures forall u :: Balance(db.(bills := bills), u) == Balance(db, u)
  {
  }

  // ----- when the calls succeed -----

  predicate HasWallet(db: Db, user: nat)
  {
    exists w :: 0 <= w < |db.wallets| && db.wallets[w].user == user
  }

  /** A new row of the user's wallet, with the balance that the wallet has after it. */
  ghost predicate Appends(ledger: seq<Tx>, db': Db, user: nat, kind: Kind, amount: int, reference: Option<string>)
  {
    exists w: nat :: w < |db'.wallets| && db'.wallets[w].user == user
              && db'.ledger == ledger + [Tx(w, kind, amount, reference, Completed, Some(Balance(db', user)))]
  }

  lemma PostSucceeds(db: Db, w: nat, kind: Kind, amount: int, reference: Option<string>)
    requires Inv(db) && w < |db.wallets|
    ensures var posted, user := Post(db, w, kind, amount, reference), db.wallets[w].user;
            && (posted.Some? <==>
                  0 < amount && if kind == Credit then Balance(db, user) + amount <= 9_999_999_999
                                else amount <= Balance(db, user))
            && (posted.Some? ==> Appends(db.ledger, posted.value, user, kind, amount, reference))
  {
    hide Agrees, LedgerValid, SumBy;
    WalletIsUnique(db.wallets, db.wallets[w].user, w);
    var posted, user := Post(db, w, kind, amount, reference), db.wallets[w].user;
    if posted.Some? {
      var db' := posted.value;
      PostKeepsInv(db, w, kind, amount, reference);
      WalletIsUnique(db'.wallets, user, w);
      assert db'.ledger == db.ledger + [Tx(w, kind, amount, reference, Completed, Some(Balance(db', user)))];
    }
  }

  lemma EnsureKeepsLedger(db: Db, user: nat)
    ensures EnsureWallet(db, user).ledger == db.ledger && EnsureWallet(db, user).bills == db.bills
  {
  }

  /** Money can be added exactly if it is positive and the balance stays within
      the column, and it leaves one ledger row. */
  lemma AddMoneySucceeds(db: Db, user: nat, amount: int, referenceId: Option<string>)
    requires Inv(db)
    ensures var (db', reply) := AddMoneyTx(db, user, amount, referenceId);
            && (reply == Success <==> 0 < amount && Balance(db, user) + amount <= 9_999_999_999)
            && (reply == Success ==> Appends(db.ledger, db', user, Credit, amount, referenceId))
  {
    hide Inv, Post, Balance, WalletOf;
    var ensured := EnsureWallet(db, user);
    EnsureKeepsInv(db, user);
    EnsureKeepsBalances(db, user);
    EnsureKeepsLedger(db, user);
    PostSucceeds(ensured, WalletOf(ensured.wallets, user).value, Credit, amount, referenceId);
  }

  /** Looking at a wallet opens an empty one if there is none, and changes nothing else. */
  lemma WalletOpened(db: Db, user: nat)
    ensures var db' := Apply(db, GetWallet(user)).0;
            && HasWallet(db', user) && (HasWallet(db, user) ==> db' == db)
            && (forall u :: Balance(db', u) == Balance(db, u))
            && db'.ledger == db.ledger && db'.bills == db.bills
  {
    hide Balance, WalletOf, HasWallet;
    WalletFound(db, user);
    WalletFound(EnsureWallet(db, user), user);
    EnsureKeepsBalances(db, user);
    EnsureKeepsLedger(db, user);
  }

  lemma WalletFound(db: Db, user: nat)
    ensures WalletOf(db.wallets, user).Some? <==> HasWallet(db, user)
  {
  }

  /** A payment succeeds exactly for the user's own unpaid wallet bill of a
      positive total within the balance, down to the last cent. */
  lemma PaymentSucceeds(db: Db, user: nat, bill: nat)
    requires Inv(db)
    ensures var (db', reply) := PayTx(db, user, bill);
            && (reply == Success <==>
                  && bill < |db.bills| && db.bills[bill].user == user && db.bills[bill].byWallet && !db.bills[bill].paid
                  && HasWallet(db, user) && 0 < db.bills[bill].total <= Balance(db, user))
            && (reply == Success ==>
                  Appends(db.ledger, db', user, Debit, db.bills[bill].total, Some(db.bills[bill].id)))
  {
    hide Inv, Post, Balance, WalletOf, HasWallet;
    WalletFound(db, user);
    var w := WalletOf(db.wallets, user);
    if w.Some? && bill < |db.bills| {
      var total, reference := db.bills[bill].total, Some(db.bills[bill].id);
      PostSucceeds(db, w.value, Debit, total, reference);
      PostKeepsWallets(db, w.value, Debit, total, reference);
      var posted := Post(db, w.value, Debit, total, reference);
      if posted.Some? {
        BillsKeepBalances(posted.value, posted.value.bills[bill := posted.value.bills[bill].(paid := true)]);
      }
    }
  }

  /** A transfer succeeds exactly to another user, with a positive amount that the
      sender has and the recipient's balance has room for. */
  lemma TransferSucceeds(db: Db, user: nat, recipient: Option<nat>, amount: int)
    requires Inv(db)
    ensures TransferTx(db, user, recipient, amount).1 == Success
       <==> && recipient.Some? && recipient.value != user && HasWallet(db, user)
            && 0 < amount <= Balance(db, user) && Balance(db, recipient.value) + amount <= 9_999_999_999
  {
    hide Inv, Post, Balance, WalletOf, HasWallet, TransferReference;
    WalletFound(db, user);
    var sender := WalletOf(db.wallets, user);
    if sender.Some? && recipient.Some? {
      var ensured := EnsureWallet(db, recipient.value);
      EnsureKeepsInv(db, recipient.value);
      EnsureKeepsBalances(db, recipient.value);
      PostSucceeds(ensured, sender.value, Debit, amount, TransferReference(recipient.value));
      PostBalances(ensured, sender.value, Debit, amount, TransferReference(recipient.value));
      var debited := Post(ensured, sender.value, Debit, amount, TransferReference(recipient.value));
      if debited.Some? {
        PostKeepsInv(ensured, sender.value, Debit, amount, TransferReference(recipient.value));
        PostKeepsWallets(ensured, sender.value, Debit, amount, TransferReference(recipient.value));
        PostKeepsUsers(ensured, sender.value, Debit, amount, TransferReference(recipient.value));
        PostSucceeds(debited.value, WalletOf(ensured.wallets, recipient.value).value, Credit, amount,
                     TransferReference(user));
      }
    }
  }

  /** It leaves a debit of the sender and a credit of the recipient, each naming the other. */
  lemma TransferRecords(db: Db, user: nat, recipient: nat, amount: int)
    requires Inv(db) && TransferTx(db, user, Some(recipient), amount).1 == Success
    ensures var db' := TransferTx(db, user, Some(recipient), amount).0;
            exists w: nat, v: nat :: w < |db'.wallets| && v < |db'.wallets|
              && db'.wallets[w].user == user && db'.wallets[v].user == recipient
              && db'.ledger == db.ledger
                 + [Tx(w, Debit, amount, Some("transfer:" + IdText(recipient)), Completed, Some(Balance(db', user))),
                    Tx(v, Credit, amount, Some("transfer:" + IdText(user)), Completed, Some(Balance(db', recipient)))]
  {
    hide Inv, Post, Balance, WalletOf, IdText;
    var ensured := EnsureWallet(db, recipient);
    EnsureKeepsInv(db, recipient);
    EnsureKeepsLedger(db, recipient);
    var sender, to := WalletOf(db.wallets, user).value, WalletOf(ensured.wallets, recipient).value;
    var debited := Post(ensured, sender, Debit, amount, TransferReference(recipient)).value;
    PostKeepsInv(ensured, sender, Debit, amount, TransferReference(recipient));
    PostSucceeds(ensured, sender, Debit, amount, TransferReference(recipient));
    PostKeepsUsers(ensured, sender, Debit, amount, TransferReference(recipient));
    PostSucceeds(debited, to, Credit, amount, TransferReference(user));
    PostBalances(debited, to, Credit, amount, TransferReference(user));
    PostKeepsUsers(debited, to, Credit, amount, TransferReference(user));
    var db' := TransferTx(db, user, Some(recipient), amount).0;
    var w: nat :| w < |debited.wallets| && debited.wallets[w].user == user
      && debited.ledger == db.ledger
         + [Tx(w, Debit, amount, TransferReference(recipient), Completed, Some(Balance(debited, user)))];
    var v: nat :| v < |db'.wallets| && db'.wallets[v].user == recipient
      && db'.ledger == debited.ledger
         + [Tx(v, Credit, amount, TransferReference(user), Completed, Some(Balance(db', recipient)))];
    assert Balance(db', user) == Balance(debited, user);
    assert db'.ledger == db.ledger
         + [Tx(w, Debit, amount, Some("transfer:" + IdText(recipient)), Completed, Some(Balance(db', user))),
            Tx(v, Credit, amount, Some("transfer:" + IdText(user)), Completed, Some(Balance(db', recipient)))];
    assert db'.wallets[w].user == user;
  }

  lemma PostKeepsUsers(db: Db, w: nat, kind: Kind, amount: int, reference: Option<string>)
    requires w < |db.wallets|
    ensures var posted := Post(db, w, kind, amount, reference);
            posted.Some? ==>
              && |posted.value.wallets| == |db.wallets|
              && forall i :: 0 <= i < |db.wallets| ==> posted.value.wallets[i].user == db.wallets[i].user
  {
  }

  /** A top-up is created exactly for an amount from 10 to 10,000 with the
      gateway's consent: one PENDING credit of that amount to the user's own
      wallet, which its reference leads to.  No balance changes. */
  lemma TopUpCreated(db: Db, user: nat, amount: int, reference: string, gatewayOk: bool)
    requires Inv(db)
    ensures var (db', reply) := CreateTopUpTx(db, user, amount, reference, gatewayOk);
            && (forall u :: Balance(db', u) == Balance(db, u))
            && (reply == Success <==> 10_00 <= amount <= 10_000_00 && gatewayOk)
            && (if reply == Success then
                  && TopUpByReference(db'.ledger, reference) == Some(|db.ledger|)
                  && exists w: nat :: w < |db'.wallets| && db'.wallets[w].user == user
                       && db'.ledger == db.ledger + [Tx(w, Credit, amount, Some(reference), Pending, None)]
                else db'.ledger == db.ledger)
  {
    hide Inv, Balance, WalletOf, EnsureWallet;
    var ensured := EnsureWallet(db, user);
    EnsureKeepsBalances(db, user);
    EnsureKeepsLedger(db, user);
    LedgerKeepsBalances(ensured);
    if MIN_TOP_UP <= amount <= MAX_TOP_UP && gatewayOk {
      var db' := CreateTopUpTx(db, user, amount, reference, gatewayOk).0;
      var w := WalletOf(ensured.wallets, user).value;
      assert db'.ledger == db.ledger + [Tx(w, Credit, amount, Some(reference), Pending, None)];
    }
  }

  lemma LedgerKeepsBalances(db: Db)
    ensures forall ledger: seq<Tx>, u :: Balance(db.(ledger := ledger), u) == Balance(db, u)
  {
  }

  /** The verification of a PENDING top-up: refused without its details, to anyone
      but its owner, and while the balance has no room for it; FAILED on a bad
      signature; and otherwise credited to its owner and COMPLETED. */
  lemma PendingVerified(db: Db, i: nat, user: nat, reference: string, detailsGiven: bool, signatureOk: bool)
    requires Inv(db) && TopUpByReference(db.ledger, reference) == Some(i) && db.ledger[i].status == Pending
    ensures db.ledger[i].wallet < |db.wallets|
    ensures var t := db.ledger[i];
            var owner := db.wallets[t.wallet].user;
            var (db', reply) := VerifyTopUpTx(db, user, reference, detailsGiven, signatureOk);
            if !detailsGiven || user != owner then reply != Success && db' == db
            else if !signatureOk then
              && reply != Success && db' == db.(ledger := db.ledger[i := t.(status := Failed)])
            else if Balance(db, owner) + t.amount > 9_999_999_999 then reply != Success && db' == db
            else
              && reply == Success && Moved(db, db', owner, t.amount)
              && db'.ledger == db.ledger[i := t.(status := Completed, balanceAfter := Some(Balance(db', owner)))]
  {
    hide Agrees, SumBy;
    var t := db.ledger[i];
    WalletIsUnique(db.wallets, db.wallets[t.wallet].user, t.wallet);
    if Complete(db, i).Some? {
      CompleteMoves(db, i);
    }
  }

  lemma CompleteMoves(db: Db, i: nat)
    requires WalletsValid(db.wallets) && i < |db.ledger| && db.ledger[i].wallet < |db.wallets|
    requires Complete(db, i).Some?
    ensures var db' := Complete(db, i).value;
            Moved(db, db', db.wallets[db.ledger[i].wallet].user, db.ledger[i].amount)
  {
    var db' := Complete(db, i).value;
    var w := db.ledger[i].wallet;
    forall u
      ensures WalletOf(db'.wallets, u) == WalletOf(db.wallets, u)
    {
      var found := WalletOf(db.wallets, u);
      if found.Some? {
        WalletIsUnique(db'.wallets, u, found.value);
      }
    }
    WalletIsUnique(db.wallets, db.wallets[w].user, w);
  }

  // ----- top-ups -----

  /** A row keeps what it records, and COMPLETED and FAILED rows do not change at all. */
  ghost predicate TxKept(before: Tx, after: Tx)
  {
    && after.wallet == before.wallet && after.kind == before.kind
    && after.amount == before.amount && after.reference == before.reference
    && (before.status != Pending ==> after == before)
  }

  ghost predicate LedgerKept(before: seq<Tx>, after: seq<Tx>)
  {
    && |before| <= |after|
    && forall i :: 0 <= i < |before| ==> TxKept(before[i], after[i])
  }

  lemma ApplyKeepsLedger(db: Db, call: Call)
    ensures LedgerKept(db.ledger, Apply(db, call).0.ledger)
  {
    hide WalletOf, TopUpByReference, TransferReference;
  }

  /** The ledger only grows, and COMPLETED and FAILED are never left. */
  lemma {:induction false} RunKeepsLedger(db: Db, calls: seq<Call>)
    ensures LedgerKept(db.ledger, Run(db, calls).ledger)
    decreases |calls|
  {
    hide Apply;
    if calls != [] {
      ApplyKeepsLedger(db, calls[0]);
      RunKeepsLedger(Apply(db, calls[0]).0, calls[1..]);
    }
  }

  datatype Attempt = Attempt(user: nat, detailsGiven: bool, signatureOk: bool)

  function VerifyRun(db: Db, reference: string, attempts: seq<Attempt>): Db
    decreases |attempts|
  {
    if attempts == [] then db
    else
      var a := attempts[0];
      VerifyRun(VerifyTopUpTx(db, a.user, reference, a.detailsGiven, a.signatureOk).0, reference, attempts[1..])
  }

  /** The first attempt by the owner that fails on its signature, or can be credited. */
  predicate Decisive(db: Db, i: nat, a: Attempt)
    requires i < |db.ledger| && db.ledger[i].wallet < |db.wallets|
  {
    a.detailsGiven && a.user == db.wallets[db.ledger[i].wallet].user && (!a.signatureOk || Complete(db, i).Some?)
  }

  /** The top-up is settled by the first decisive attempt, and by no other. */
  function Settled(db: Db, i: nat, attempts: seq<Attempt>): Db
    requires i < |db.ledger| && db.ledger[i].wallet < |db.wallets|
    decreases |attempts|
  {
    if attempts == [] then db
    else if !Decisive(db, i, attempts[0]) then Settled(db, i, attempts[1..])
    else if attempts[0].signatureOk then Complete(db, i).value
    else MarkFailed(db, i)
  }

  lemma {:induction false} LookupStable(ledger: seq<Tx>, i: nat, t: Tx, reference: string)
    requires i < |ledger| && t.kind == ledger[i].kind && t.reference == ledger[i].reference
    ensures TopUpByReference(ledger[i := t], reference) == TopUpByReference(ledger, reference)
  {
    var last := |ledger| - 1;
    if i == last {
      assert ledger[i := t][..last] == ledger[..last];
    } else {
      assert ledger[i := t][..last] == ledger[..last][i := t];
      LookupStable(ledger[..last], i, t, reference);
    }
  }

  /** Once settled, no further attempt changes anything. */
  lemma {:induction false} SettledStays(db: Db, i: nat, reference: string, attempts: seq<Attempt>)
    requires TopUpByReference(db.ledger, reference) == Some(i) && db.ledger[i].status != Pending
    ensures VerifyRun(db, reference, attempts) == db
    decreases |attempts|
  {
    if attempts != [] {
      SettledStays(db, i, reference, attempts[1..]);
    }
  }

  /** Any sequence of verifications of a pending top-up, by anyone and with good
      or bad signatures, has exactly the effect of the first decisive one. */
  lemma {:induction false} VerifiedOnce(db: Db, i: nat, reference: string, attempts: seq<Attempt>)
    requires TopUpByReference(db.ledger, reference) == Some(i) && db.ledger[i].status == Pending
    requires db.ledger[i].wallet < |db.wallets|
    ensures VerifyRun(db, reference, attempts) == Settled(db, i, attempts)
    decreases |attempts|
  {
    if attempts != [] {
      var a := attempts[0];
      if !Decisive(db, i, a) {
        VerifiedOnce(db, i, reference, attempts[1..]);
      } else {
        var db' := VerifyTopUpTx(db, a.user, reference, a.detailsGiven, a.signatureOk).0;
        LookupStable(db.ledger, i, db'.ledger[i], reference);
        SettledStays(db', i, reference, attempts[1..]);
      }
    }
  }

  /** Completing a top-up credits exactly its amount to its wallet, and nothing else. */
  lemma CompletionCredits(db: Db, i: nat, w: nat)
    requires i < |db.ledger| && db.ledger[i].wallet < |db.wallets| && w < |db.wallets|
    requires Complete(db, i).Some?
    ensures var db' := Complete(db, i).value;
            && |db'.wallets| == |db.wallets|
            && db'.wallets[w].balance
            == db.wallets[w].balance + (if w == db.ledger[i].wallet then db.ledger[i].amount else 0)
            && db'.ledger[i].status == Completed
            && db'.ledger[i].balanceAfter == Some(db'.wallets[db.ledger[i].wallet].balance)
  {
  }

  /** The call may insert a credit with the reference. */
  predicate CreditsAs(call: Call, reference: string)
  {
    || (call.CreateTopUp? && call.reference == reference)
    || (call.AddMoney? && call.referenceId == Some(reference))
    || (call.Transfer? && TransferReference(call.user) == Some(reference))
  }

  lemma LookupBehind(ledger: seq<Tx>, t: Tx, reference: string)
    requires t.kind == Debit || t.reference != Some(reference)
    ensures TopUpByReference(ledger + [t], reference) == TopUpByReference(ledger, reference)
  {
    assert (ledger + [t])[..|ledger|] == ledger;
  }

  lemma PostKeepsLookup(db: Db, w: nat, kind: Kind, amount: int, reference: Option<string>, looked: string)
    requires w < |db.wallets| && (kind == Debit || reference != Some(looked))
    ensures var posted := Post(db, w, kind, amount, reference);
            posted.Some? ==> TopUpByReference(posted.value.ledger, looked) == TopUpByReference(db.ledger, looked)
  {
    hide TopUpByReference;
    var posted := Post(db, w, kind, amount, reference);
    if posted.Some? {
      LookupBehind(db.ledger, posted.value.ledger[|db.ledger|], looked);
    }
  }

  /** The same row is found by the reference after any call that credits with another. */
  lemma ApplyKeepsLookup(db: Db, call: Call, reference: string)
    requires !CreditsAs(call, reference)
    ensures TopUpByReference(Apply(db, call).0.ledger, reference) == TopUpByReference(db.ledger, reference)
  {
    hide TopUpByReference, WalletOf, Post, TransferReference;
    match call
    case GetWallet(_) =>
    case CreateTopUp(user, amount, r, _) =>
      var ensured := EnsureWallet(db, user);
      var w := WalletOf(ensured.wallets, user).value;
      LookupBehind(ensured.ledger, Tx(w, Credit, amount, Some(r), Pending, None), reference);
    case VerifyTopUp(_, r, _, _) =>
      var found := TopUpByReference(db.ledger, r);
      if found.Some? {
        var db' := Apply(db, call).0;
        assert db'.ledger == db.ledger[found.value := db'.ledger[found.value]];
        LookupStable(db.ledger, found.value, db'.ledger[found.value], reference);
      }
    case AddMoney(user, amount, r) =>
      var ensured := EnsureWallet(db, user);
      PostKeepsLookup(ensured, WalletOf(ensured.wallets, user).value, Credit, amount, r, reference);
    case PayFromWallet(user, bill) =>
      var w := WalletOf(db.wallets, user);
      if w.Some? && bill < |db.bills| {
        PostKeepsLookup(db, w.value, Debit, db.bills[bill].total, Some(db.bills[bill].id), reference);
      }
    case Transfer(user, recipient, amount) =>
      var from := WalletOf(db.wallets, user);
      if from.Some? && recipient.Some? {
        var ensured := EnsureWallet(db, recipient.value);
        PostKeepsLookup(ensured, from.value, Debit, amount, TransferReference(recipient.value), reference);
        var debited := Post(ensured, from.value, Debit, amount, TransferReference(recipient.value));
        if debited.Some? {
          PostKeepsWallets(ensured, from.value, Debit, amount, TransferReference(recipient.value));
          PostKeepsLookup(debited.value, WalletOf(ensured.wallets, recipient.value).value, Credit, amount,
                          TransferReference(user), reference);
        }
      }
  }

  ghost predicate OwnersKept(before: seq<Wallet>, after: seq<Wallet>)
  {
    |before| <= |after| && forall i :: 0 <= i < |before| ==> after[i].user == before[i].user
  }

  lemma ApplyKeepsOwners(db: Db, call: Call)
    ensures OwnersKept(db.wallets, Apply(db, call).0.wallets)
  {
    hide WalletOf, TopUpByReference, TransferReference;
  }

  /** Once a top-up is COMPLETED, and whatever is called after it as long as no
      call credits with the same reference, a repeat by its owner reports
      success and changes nothing. */
  lemma {:induction false} RepeatReportsSuccess(db: Db, calls: seq<Call>, i: nat, reference: string, signatureOk: bool)
    requires TopUpByReference(db.ledger, reference) == Some(i) && db.ledger[i].status == Completed
    requires db.ledger[i].wallet < |db.wallets|
    requires forall k :: 0 <= k < |calls| ==> !CreditsAs(calls[k], reference)
    ensures var db', owner := Run(db, calls), db.wallets[db.ledger[i].wallet].user;
            VerifyTopUpTx(db', owner, reference, true, signatureOk) == (db', Success)
    decreases |calls|
  {
    hide Apply, TopUpByReference;
    if calls != [] {
      var db' := Apply(db, calls[0]).0;
      ApplyKeepsLookup(db, calls[0], reference);
      ApplyKeepsLedger(db, calls[0]);
      assert TxKept(db.ledger[i], db'.ledger[i]);
      ApplyKeepsOwners(db, calls[0]);
      RepeatReportsSuccess(db', calls[1..], i, reference, signatureOk);
    }
  }

  // ----- the service -----

  class WalletService {
    var db: Db

    constructor (bills: seq<Bill>)
      ensures db == Db([], [], bills) && Inv(db) && Recorded(db)
    {
      db := Db([], [], bills);
    }

    method CreateTopUp(user: nat, amount: int, reference: string, gatewayOk: bool) returns (reply: Reply)
      modifies this
      ensures (db, reply) == CreateTopUpTx(old(db), user, amount, reference, gatewayOk)
    {
      if amount < MIN_TOP_UP || amount > MAX_TOP_UP {
        return Rejected("amount out of range");
      }
      db := EnsureWallet(db, user);
      if !gatewayOk {
        return Rejected("gateway failed");
      }
      var w := WalletOf(db.wallets, user).value;
      db := db.(ledger := db.ledger + [Tx(w, Credit, amount, Some(reference), Pending, None)]);
      return Success;
    }

    method VerifyTopUp(user: nat, reference: string, detailsGiven: bool, signatureOk: bool) returns (reply: Reply)
      requires Inv(db)
      modifies this
      ensures Inv(db) && (db, reply) == VerifyTopUpTx(old(db), user, reference, detailsGiven, signatureOk)
    {
      ApplyKeepsInv(db, Call.VerifyTopUp(user, reference, detailsGiven, signatureOk));
      if !detailsGiven {
        return Rejected("missing details");
      }
      var found := TopUpByReference(db.ledger, reference);
      if found == None {
        return Rejected("not found");
      }
      var topup := db.ledger[found.value];
      if db.wallets[topup.wallet].user != user {
        return Rejected("unauthorized");
      }
      if topup.status == Completed {
        return Success;
      }
      if topup.status == Failed {
        return Rejected("already failed");
      }
      var tx := db;
      if !signatureOk {
        tx := tx.(ledger := tx.ledger[found.value := topup.(status := Failed)]);
        db := tx;
        return Rejected("verification failed");
      }
      var balance := tx.wallets[topup.wallet].balance + topup.amount;
      if !(0 <= balance <= MAX_BALANCE) {
        return Rejected("transaction failed");
      }
      tx := tx.(wallets := tx.wallets[topup.wallet := tx.wallets[topup.wallet].(balance := balance)]);
      tx := tx.(ledger := tx.ledger[found.value := topup.(status := Completed, balanceAfter := Some(balance))]);
      db := tx;
      return Success;
    }

    method AddMoney(user: nat, amount: int, referenceId: Option<string>) returns (reply: Reply)
      requires Inv(db)
      modifies this
      ensures Inv(db) && (db, reply) == AddMoneyTx(old(db), user, amount, referenceId)
    {
      hide Inv, Post, WalletOf;
      ApplyKeepsInv(db, Call.AddMoney(user, amount, referenceId));
      var tx := EnsureWallet(db, user);
      var result := Post(tx, WalletOf(tx.wallets, user).value, Credit, amount, referenceId);
      if result == None {
        return Rejected("transaction failed");
      }
      db := result.value;
      return Success;
    }

    method PayFromWallet(user: nat, bill: nat) returns (reply: Reply)
      requires Inv(db)
      modifies this
      ensures Inv(db) && (db, reply) == PayTx(old(db), user, bill)
    {
      hide Inv, Post, WalletOf;
      ApplyKeepsInv(db, Call.PayFromWallet(user, bill));
      if bill >= |db.bills| || db.bills[bill].user != user || !db.bills[bill].byWallet || db.bills[bill].paid {
        return Rejected("not payable");
      }
      var wallet := WalletOf(db.wallets, user);
      if wallet == None {
        return Rejected("wallet not found");
      }
      var total := db.bills[bill].total;
      if db.wallets[wallet.value].balance < total {
        OverdraftFails(db, wallet.value, total, Some(db.bills[bill].id));
        return Rejected("insufficient balance");
      }
      var result := Post(db, wallet.value, Debit, total, Some(db.bills[bill].id));
      PostKeepsWallets(db, wallet.value, Debit, total, Some(db.bills[bill].id));
      if result == None {
        return Rejected("insufficient balance");
      }
      var tx := result.value;
      db := tx.(bills := tx.bills[bill := tx.bills[bill].(paid := true)]);
      return Success;
    }

    method Transfer(user: nat, recipient: Option<nat>, amount: int) returns (reply: Reply)
      requires Inv(db)
      modifies this
      ensures Inv(db) && (db, reply) == TransferTx(old(db), user, recipient, amount)
    {
      hide Inv, Post, WalletOf;
      ApplyKeepsInv(db, Call.Transfer(user, recipient, amount));
      if recipient == None || recipient.value == user {
        return Rejected("no recipient");
      }
      var sender := WalletOf(db.wallets, user);
      if sender == None {
        return Rejected("wallet not found");
      }
      if db.wallets[sender.value].balance < amount {
        OverdraftFails(EnsureWallet(db, recipient.value), sender.value, amount, TransferReference(recipient.value));
        return Rejected("insufficient balance");
      }
      var tx := EnsureWallet(db, recipient.value);
      var to := WalletOf(tx.wallets, recipient.value).value;
      var debited := Post(tx, sender.value, Debit, amount, TransferReference(recipient.value));
      PostKeepsWallets(tx, sender.value, Debit, amount, TransferReference(recipient.value));
      if debited == None {
        return Rejected("insufficient balance");
      }
      var credited := Post(debited.value, to, Credit, amount, TransferReference(user));
      if credited == None {
        return Rejected("transaction failed");
      }
      db := credited.value;
      return Success;
    }

    method GetAdminStats() returns (totalBalance: int, totalAdded: int, totalUsed: int)
      requires Inv(db)
      ensures totalBalance == TotalBalance(db) && totalAdded == TotalAdded(db) && totalUsed == TotalUsed(db)
      ensures totalBalance == totalAdded - totalUsed
    {
      totalBalance := TotalBalance(db);
      totalAdded := TotalAdded(db);
      totalUsed := TotalUsed(db);
      StatsBalance(db);
    }
  }
}
