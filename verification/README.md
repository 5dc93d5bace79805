# Commerce backend: verified model

A Dafny model of the algorithms and transactional state machines of the LNDRY
commerce backend, with proofs of what they promise. `dafny verify dfyconfig.toml`
checks everything.

| file | what it models |
|---|---|
| `Common.dfy` | options, rounding, sums over tables |
| `Coupons.dfy` | largest-remainder split of a platform coupon; the per-shop coupons |
| `Calendar.dfy` | JavaScript UTC dates and the next date of a recurring order |
| `ScheduledOrders.dfy` | creating, cancelling, firing and failing scheduled orders |
| `Stock.dfy`, `BulkOrders.dfy` | stock rows; bulk orders and the stock they take and give back |
| `PaymentExpiry.dfy` | the batch transaction that expires unpaid orders |
| `Wallet.dfy` | wallet balances, ledger, transfers and top-ups |
| `AllocationMerge.dfy`, `AllocationFanout.dfy` | merging the shops of a customer; the paged recompute job |
| `OrderLifecycle.dfy`, `AutoAssign.dfy` | order statuses and roles; offering orders to employees |
| `Csv.dfy` | the CSV printer, against a reader of section 2 of RFC 4180 |
| `Totals.dfy` | delivery and other fees, the payable total |

How things are modelled. Money is whole cents; percentages, ideal shares and
kilometres are exact reals. A table is a sequence of rows whose ids are their
positions (stock of bulk orders: a map on its unique key). A `BEGIN … COMMIT`
block works on a copy of the tables that is stored on commit and dropped on
rollback. Interleaving is a run of steps: where the code reads in one statement
and locks in another, these are two steps. Services that change rows are classes
whose methods are proved against functions on the tables, and the promises are
proved about those functions over every run.

Where the code and its comments part. Each of these is proved, with the exact
condition under which the promise holds:

- The monthly step reads years 0 to 99 as 1900 to 1999 (`Date.UTC`), and gives an
  invalid date when the target month ends past the range of dates, so it advances
  by one month exactly outside those cases (`Calendar.MonthlyAdvancesByOne`; from
  January of year 50 it leads to 1950: `Calendar.YearFiftyIsPassedOver`).
- The cap of 20 scheduled orders counts and inserts in separate statements; it
  holds if and only if creates of a customer do not overlap (`ScheduledOrders.CapIff`),
  and with k in flight the largest reachable count is 19 + k
  (`ScheduledOrders.ActiveCapped`, `ScheduledOrders.Tight`).
- The split of a platform coupon adds up to `Math.round` of the discount, the
  total is rounded by `toFixed`; they differ exactly on negative half cents
  (`Coupons.RoundingsAgree`). The other coupons round shop by shop; their shares add
  up to their total if and only if the rounding excesses of the shops total at least
  -1/2 and less than 1/2 cent (`Coupons.SharesAddUp`, `Coupons.ApplyPerGroup`; two
  half cents do not: `Coupons.PerGroupSharesMayExceedTotal`).
- Cancelling a confirmed bulk order gives back the quantity but not a product's
  manual "unavailable" flag if the order had emptied it (`BulkOrders.ConfirmThenCancel`).
- An export without rows loses its header (`Csv.ExportRoundTrip`), and a reader
  that allows a final line break loses a last row that is one empty cell
  (`Csv.EndedExportRoundTrip`).
- `amountToUnlock` unlocks nothing while the delivery fee is off (`Totals.AmountToUnlockIsLeast`).
- The recompute job stops after a million rows (`AllocationFanout.VisitsEveryoneUpToAMillion`),
  and no user is visited twice if and only if no page holds two default addresses of
  one user, which no constraint forbids (`AllocationFanout.OncePerUser`; a user with two
  is visited twice: `AllocationFanout.TwoAddresses`).
- When a rider declines the only offer of an order, the job is queued again if and only
  if the order has no rider and is CONFIRMED, PREPARING or PACKED. But UNIQUE (order_id,
  assignment_type) refuses the job every other delivery offer: no job or answer ever
  changes the order or its offer again if and only if it was a delivery offer and the
  reason is not OFFER_EXPIRED, or the job passes over the order, because it has a rider
  or is not CONFIRMED, PREPARING, PACKED or VENDOR_ACCEPTED (`AutoAssign.DeclineStrands`;
  after a first offer: `AutoAssign.FirstOfferDeclined`; a CONFIRMED and a PACKED order:
  `AutoAssign.StrandedOrders`).
- The offer of a job can be accepted if and only if the order was CONFIRMED or PREPARING:
  riders are refused in the status the job writes for VENDOR_ACCEPTED and PACKED orders
  (`AutoAssign.OfferCanBeAccepted`).

## Model

| member | source | states |
|---|---|---|
| Coupons.ResidueBound | archived_modules/coupons/coupons.service.js:318-325 | the cents left after rounding every ideal down are between 0 and the number of groups with a non-zero remainder, so the distribution loop never runs out of groups |
| Coupons.DistributeProportional | archived_modules/coupons/coupons.service.js:314-342 | for any group totals with a non-zero sum, the shares are a largest-remainder split and add up to exactly the rounded discount |
| Coupons.GiveResidue | archived_modules/coupons/coupons.service.js:333-335 | in place, exactly the first `residue` groups of the order gain one cent each |
| Coupons.SortedIndices | archived_modules/coupons/coupons.service.js:328-331 | the indices are a permutation in stable descending order of remainder |
| Coupons.LargestRemainderUnique | archived_modules/coupons/coupons.service.js:314-342 | a largest-remainder split of a total is unique |
| Coupons.ShareIsQuota | archived_modules/coupons/coupons.service.js:318-335 | every share is less than one cent from its ideal, and a group with zero remainder never gets the extra cent |
| Coupons.ShareWithinTotal | archived_modules/coupons/coupons.service.js:158-176 | with whole-cent totals and a discount from zero to the cart total, no share is negative or above its group's total |
| Coupons.LargerIdealLargerShare | archived_modules/coupons/coupons.service.js:314-342 | a group with a larger ideal never gets a smaller share |
| Coupons.LeastDeviation | archived_modules/coupons/coupons.service.js:314-342 | among all integer splits with the same sum, this one has the least total absolute deviation from the ideals |
| Coupons.RaisedBefore | archived_modules/coupons/coupons.service.js:328-335 | of two groups the one with the larger fraction of a cent gets the extra cent first, of equal ones the earlier |
| Coupons.ApplyPlatformCoupon | archived_modules/coupons/coupons.service.js:158-176 | the base is the sum of price times quantity, and a cart of no positive base gets nothing; the total is the least of the coupon's amount, its cap and the base, to the nearest cent; the shares add up to it, none is negative or above its group's total, and each is within a cent of its group's part |
| Coupons.RoundingsAgree | archived_modules/coupons/coupons.service.js:172-319 | `Math.round` in cents and `toFixed(2)` agree exactly except on negative half cents |
| Coupons.DiscountBounds | archived_modules/coupons/coupons.service.js:350-360 | a discount stays within its base, a percentage discount within its cap |
| Coupons.ApplyPerGroup | archived_modules/coupons/coupons.service.js:182-309 | every group's share is the least of the coupon's amount, its cap and the group's base, to the nearest cent, in the column of the coupon; the total misses the shares by exactly the rounded total of the groups' rounding excesses; with bases and terms that are not negative every share is between zero and its base, and the shares add up to the total if and only if those excesses total at least -1/2 and less than 1/2 cent |
| Coupons.BaseIs | archived_modules/coupons/coupons.service.js:182-309 | a coupon reduces the cost of all items of its shops, of the items of its categories or products if that is positive, or a positive delivery fee; the cost is price times quantity, summed up |
| Coupons.QuantitiesAdd | archived_modules/coupons/coupons.service.js:345-347 | an item of quantity m + n costs as much as two of quantities m and n |
| Coupons.DiscountIsLeast | archived_modules/coupons/coupons.service.js:350-360 | a discount is the least of the flat or percentage amount, the cap if there is one, and the base |
| Coupons.NearestCent | archived_modules/coupons/coupons.service.js:172-174 | `toFixed(2)` is the nearest cent, and of two equally near ones the one further from zero |
| Coupons.SharesAddUp | archived_modules/coupons/coupons.service.js:182-309 | for any discounts that are not negative: rounded one by one they add up to the rounded sum if and only if their signed distances from the nearest cent total at least -1/2 and less than 1/2 |
| Coupons.PerGroupDrift | archived_modules/coupons/coupons.service.js:182-309 | the shares are off by at most half a cent per fractional group plus one half, and exact with at most one fractional group |
| Coupons.PerGroupSharesMayExceedTotal | archived_modules/coupons/coupons.service.js:181-206 | a 50% coupon on one cent in each of two shops returns shares of two cents and a total of one |
| Calendar.DecomposeCompose | archived_modules/scheduled-orders/scheduled-orders.service.js:139-160 | every valid date is the UTC decomposition of its own time value |
| Calendar.MonthStartFormula | archived_modules/scheduled-orders/scheduled-orders.service.js:139-160 | counting days month by month from the epoch agrees with the closed formula of the ECMAScript specification |
| Calendar.MonthBoundary | archived_modules/scheduled-orders/scheduled-orders.service.js:139-162 | each month starts on the day within the year that the ECMAScript specification lists: 0, 31, 59, 90, 120, 151, 181, 212, 243, 273, 304, 334, one more from March on in a leap year |
| Calendar.GregorianCycle | archived_modules/scheduled-orders/scheduled-orders.service.js:139-160 | the calendar repeats every 400 years of 146,097 days |
| Calendar.NextMonthlyIs | archived_modules/scheduled-orders/scheduled-orders.service.js:138-162 | the monthly step lands in the target month with the day clamped to its length and the same time of day, and is an invalid date exactly when that month ends out of range |
| Calendar.MonthlyStepIs | archived_modules/scheduled-orders/scheduled-orders.service.js:138-162 | the same in years, months and days against the boundaries of the specification: the following month, the day clamped to the number of days in it, years 0 to 99 read as 1900 to 1999, nothing after August 275760 |
| Calendar.ClampedSteps | archived_modules/scheduled-orders/scheduled-orders.service.js:147-162 | 31 March 2025 leads to 30 April and 31 January 2024 to 29 February |
| Calendar.MonthlyStep | archived_modules/scheduled-orders/scheduled-orders.service.js:138-162 | a monthly step is at least 28 days, and at most 31 when it reaches the following month |
| Calendar.MonthlyAdvancesByOne | archived_modules/scheduled-orders/scheduled-orders.service.js:138-162 | the step reaches the following month if and only if that month is in range and its year is not 0 to 99 |
| Calendar.YearFiftyIsPassedOver | archived_modules/scheduled-orders/scheduled-orders.service.js:138-162 | the step from midnight on 1 January of year 50 leads to 1 February 1950 |
| Calendar.MonthlyIterates | archived_modules/scheduled-orders/scheduled-orders.service.js:128-164 | k monthly steps advance the month index by exactly k and keep the time of day |
| Calendar.ClampedDayIsLeast | archived_modules/scheduled-orders/scheduled-orders.service.js:147-150 | the day after k steps is the minimum of the start day and the lengths of all months entered |
| Calendar.NextIsLater | archived_modules/scheduled-orders/scheduled-orders.service.js:128-164 | every next date is at least one day later |
| Calendar.NextKeepsTimeOfDay | archived_modules/scheduled-orders/scheduled-orders.service.js:133-138 | daily and weekly dates are exactly 1 and 7 days later, and all rules keep the time of day |
| Calendar.NextExists | archived_modules/scheduled-orders/scheduled-orders.service.js:128-164 | a next daily or weekly date exists as long as it is in range, a monthly one from before August 275760, and ONCE has none |
| ScheduledOrders.RunKeepsInv | archived_modules/scheduled-orders/scheduled-orders.service.js:636-841 | every interleaving of creates, fires, failures and cancels keeps the table consistent: statuses, placed orders and successor links |
| ScheduledOrders.PlacedOnce | archived_modules/scheduled-orders/scheduled-orders.service.js:653-743 | no reachable state has a PROCESSING row, a row is PLACED exactly when its placed order is set, and no row places two orders |
| ScheduledOrders.RunKeepsRows | archived_modules/scheduled-orders/scheduled-orders.service.js:378-412 | PLACED and CANCELLED rows never change again and no row's schedule ever changes |
| ScheduledOrders.SuccessorIffPlacedInTime | archived_modules/scheduled-orders/scheduled-orders.service.js:745-760 | a row has a successor exactly when it is PLACED and its next date is within repeat_until, and never two |
| ScheduledOrders.ChainRises | archived_modules/scheduled-orders/scheduled-orders.repository.js:331-372 | dates along a chain of successors rise by at least a day per link and repeat_until is inherited |
| ScheduledOrders.ChainBounded | archived_modules/scheduled-orders/scheduled-orders.service.js:745-760 | with repeat_until set, a chain has at most as many links as days from its first date to repeat_until |
| ScheduledOrders.PlaceCounts | archived_modules/scheduled-orders/scheduled-orders.repository.js:331-372 | a successor takes its parent's place in the count of active rows |
| ScheduledOrders.ActiveCapped | archived_modules/scheduled-orders/scheduled-orders.service.js:276-296 | with at most k creates of a customer in flight at once, the customer never has more than 19 + k SCHEDULED rows |
| ScheduledOrders.Tight | archived_modules/scheduled-orders/scheduled-orders.service.js:276-296 | for every k from 1 on, some run with never more than k creates of a customer in flight ends with exactly 19 + k SCHEDULED rows |
| ScheduledOrders.CapIff | archived_modules/scheduled-orders/scheduled-orders.service.js:276-296 | every run with at most k creates of a customer in flight keeps the cap of 20 if and only if k is at most one |
| ScheduledOrders.OverlappingCreatesPassTheCap | archived_modules/scheduled-orders/scheduled-orders.service.js:276-296 | two creates in flight at once can take a customer to 21 |
| ScheduledOrders.ScheduledOrdersService.Create | archived_modules/scheduled-orders/scheduled-orders.service.js:249-317 | a create inserts exactly the given row, SCHEDULED, if and only if its date is in range and two hours away, the shop is allocated and the customer has fewer than 20 SCHEDULED rows |
| ScheduledOrders.ScheduledOrdersService.Cancel | archived_modules/scheduled-orders/scheduled-orders.service.js:378-412 | the owner cancels exactly from SCHEDULED and FAILED, and nothing else changes |
| ScheduledOrders.ScheduledOrdersService.RecordFailure | archived_modules/scheduled-orders/scheduled-orders.service.js:515-559 | exactly a SCHEDULED or PROCESSING row becomes FAILED, and keeps everything but its failure reason |
| ScheduledOrders.ScheduledOrdersService.ProcessFire | archived_modules/scheduled-orders/scheduled-orders.service.js:636-841 | with the order created, a SCHEDULED row becomes PLACED with exactly one new order, followed by a row for its next date if that is within repeat_until, if and only if it is ONCE, or repeat_until is set, or its next date is in range; otherwise nothing changes but a recorded failure |
| ScheduledOrders.FirePlaces | archived_modules/scheduled-orders/scheduled-orders.service.js:653-760 | the same of the firing step in every run |
| ScheduledOrders.CheckedRowIs | archived_modules/scheduled-orders/scheduled-orders.service.js:249-296 | the same checks as in Create for the first of the two steps of a create in a run |
| Stock.ApplyStock | archived_modules/bulk-orders/bulk-orders.repository.js:317-337 | every stock write keeps: zero stock iff sold_out_at is set, and zero stock is unavailable |
| Stock.AddStock | src/workers/payment-expiry.worker.js:120-134 | the worker's UPDATE adds exactly the quantity and acts as that stock write |
| Stock.TakeAndReturn | archived_modules/bulk-orders/bulk-orders.repository.js:317-337 | taking stock out and back restores the quantity, and the whole row iff it was available or not emptied |
| BulkOrders.AggregateByProduct | archived_modules/bulk-orders/bulk-orders.service.js:896-905 | each product with a positive total appears once, with the sum of its counted lines |
| BulkOrders.DeductEach | archived_modules/bulk-orders/bulk-orders.service.js:668-704 | the loop's failed list is exactly the deficient products, and without failures every product drops by exactly its sum |
| BulkOrders.RestoreEach | archived_modules/bulk-orders/bulk-orders.service.js:805-825 | every product still listed rises by exactly its sum and nothing else changes |
| BulkOrders.BulkOrdersService.ConfirmAndDeductStock | archived_modules/bulk-orders/bulk-orders.service.js:639-768 | confirm is all or nothing, succeeds if and only if the locked order is SUBMITTED and every product is listed with at least the quantity asked for, and otherwise names exactly the deficient products, with the quantity asked for, the quantity left and the reason |
| BulkOrders.BulkOrdersService.CancelAndRestoreStock | archived_modules/bulk-orders/bulk-orders.service.js:779-868 | cancel succeeds exactly from DRAFT, SUBMITTED and CONFIRMED and gives stock back exactly when the locked order is CONFIRMED |
| BulkOrders.BulkOrdersService.UpdateStatus | archived_modules/bulk-orders/bulk-orders.service.js:468-512 | a status change is one step, or a read followed by its locked transaction |
| BulkOrders.ExecuteConserves | archived_modules/bulk-orders/bulk-orders.service.js:639-868 | a confirm or cancel acting on a stale read conserves stock all the same |
| BulkOrders.StockConserved | archived_modules/bulk-orders/bulk-orders.service.js:349-868 | over every interleaving, the stock of each listed product plus what CONFIRMED to DELIVERED orders hold of it is constant, and stock rows stay consistent and non-negative |
| BulkOrders.SecondCallDoesNothing | archived_modules/bulk-orders/bulk-orders.service.js:648-666 | a second confirm or cancel of an order changes nothing |
| BulkOrders.ConfirmThenCancel | archived_modules/bulk-orders/bulk-orders.service.js:639-868 | confirming and cancelling restores every quantity, and every row but those switched off by hand and emptied |
| BulkOrders.RequestedIs | archived_modules/bulk-orders/bulk-orders.service.js:896-905 | the quantity asked for of a product is the sum of the positive quantities of its lines |
| BulkOrders.ConfirmIs | archived_modules/bulk-orders/bulk-orders.service.js:639-768 | a confirm sets exactly the status and takes exactly the quantities asked for, with the sold-out and availability flags that follow |
| BulkOrders.CancelIs | archived_modules/bulk-orders/bulk-orders.service.js:779-868 | a cancel sets exactly the status and, from CONFIRMED, gives exactly the quantities back |
| BulkOrders.SubmitIs | archived_modules/bulk-orders/bulk-orders.service.js:349-400 | an order is submitted exactly by its customer, from DRAFT, with all products available and in stock |
| BulkOrders.CustomerCancelIs | archived_modules/bulk-orders/bulk-orders.service.js:525-580 | the customer cancels exactly own orders in DRAFT or SUBMITTED |
| BulkOrders.UpdateIs | archived_modules/bulk-orders/bulk-orders.service.js:468-512 | the shop moves an order on one status at a time, or cancels it up to CONFIRMED |
| BulkOrders.SubmittedIsDelivered | archived_modules/bulk-orders/bulk-orders.service.js:468-768 | a SUBMITTED order whose products are in stock can be brought to DELIVERED |
| BulkOrders.ConfirmedIsDelivered | archived_modules/bulk-orders/bulk-orders.service.js:468-512 | an order from CONFIRMED on can be brought to DELIVERED whatever the stock |
| BulkOrders.CancelledIff | archived_modules/bulk-orders/bulk-orders.service.js:468-868 | some run cancels an order if and only if it is not PROCESSING, READY or DELIVERED |
| PaymentExpiry.PaymentExpiryWorker.ProcessExpiredPayments | src/workers/payment-expiry.worker.js:86-183 | the nested loops process the entries of a batch one after the other, each at most once per open order |
| PaymentExpiry.BatchConserves | src/workers/payment-expiry.worker.js:86-183 | for any batch, the stock of each listing plus what PENDING orders hold of it is conserved |
| PaymentExpiry.PollsConserve | src/workers/payment-expiry.worker.js:18-35 | the same over any number of polls |
| PaymentExpiry.BatchOrders | src/workers/payment-expiry.worker.js:97-181 | exactly the open orders of the batch end CANCELLED and EXPIRED, all others are unchanged |
| PaymentExpiry.BatchCancels | src/workers/payment-expiry.worker.js:97-181 | exactly the PENDING orders with PENDING payment that the batch lists become CANCELLED and EXPIRED |
| PaymentExpiry.BatchPayments | src/workers/payment-expiry.worker.js:157-172 | exactly the batch's own payments and the pending payments of its legacy orders are EXPIRED |
| PaymentExpiry.ReturnedOnce | src/workers/payment-expiry.worker.js:97-154 | each listing gains exactly once what the open orders of the batch held of it, however often an order is repeated |
| PaymentExpiry.LineRestocks | src/workers/payment-expiry.worker.js:108-154 | a line with a positive quantity restocks exactly the undeleted listing with its id, or without an id the undeleted listings of its shop and product, and makes an empty one available |
| PaymentExpiry.HeldQuantity | src/workers/payment-expiry.worker.js:108-154 | what the lines of an order hold of a listing is the sum of the positive quantities of the lines that name it |
| PaymentExpiry.OthersUntouched | src/workers/payment-expiry.worker.js:97-154 | a listing that no line of an open order of the batch names keeps its stock; a line of one shop never changes another |
| Wallet.RunKeepsInv | archived_modules/wallet/wallet.repository.js:45-94 | in every reachable state each balance is non-negative and equals its COMPLETED credits minus its COMPLETED debits |
| Wallet.StatsBalance | archived_modules/wallet/wallet.service.js:435-455 | total balance is total added minus total used |
| Wallet.WalletService.GetAdminStats | archived_modules/wallet/wallet.service.js:435-455 | the reported totals satisfy that equation |
| Wallet.TransferConserves | archived_modules/wallet/wallet.service.js:350-419 | a transfer leaves the sum of all balances unchanged |
| Wallet.TransferMoves | archived_modules/wallet/wallet.service.js:350-419 | a successful transfer moves a positive amount between two different users and touches no one else |
| Wallet.TransferSucceeds | archived_modules/wallet/wallet.service.js:350-419 | a transfer succeeds if and only if there is a recipient other than the sender, the sender has a wallet, and the amount is positive, at most the balance, and within the room of the recipient |
| Wallet.TransferRecords | archived_modules/wallet/wallet.service.js:389-402 | it leaves one debit and one credit row, each with the balance after it and naming the other user |
| Wallet.AddMoneyCredits | archived_modules/wallet/wallet.service.js:206-237 | adding money credits exactly the amount, or changes nothing at all |
| Wallet.AddMoneySucceeds | archived_modules/wallet/wallet.service.js:206-237 | adding money succeeds if and only if the amount is positive and the balance has room, and leaves one credit row with the balance after it |
| Wallet.PaymentDebitsOnce | archived_modules/wallet/wallet.service.js:242-345 | a payment debits exactly the bill and marks it paid, and a paid bill is never charged again |
| Wallet.PaymentSucceeds | archived_modules/wallet/wallet.service.js:242-345 | a payment succeeds if and only if the bill is the user's, by wallet and unpaid, and its total is positive and at most the balance; it leaves one debit row with the order's id |
| Wallet.RunKeepsRecorded | archived_modules/wallet/wallet.repository.js:45-94 | in every reachable state each balance is the balance_after of a COMPLETED row of its wallet (or zero without one), and exactly the COMPLETED rows have one |
| Wallet.RunKeepsLedger | archived_modules/wallet/wallet.repository.js:167-202 | the ledger only grows and COMPLETED and FAILED rows never change |
| Wallet.VerifiedOnce | archived_modules/wallet/wallet.service.js:132-200 | any sequence of verifications of a top-up has exactly the effect of its first decisive one |
| Wallet.CompletionCredits | archived_modules/wallet/wallet.repository.js:167-187 | completing a top-up credits exactly its amount to its wallet |
| Wallet.PendingVerified | archived_modules/wallet/wallet.service.js:132-200 | a PENDING top-up is refused without details or to others, FAILED on a bad signature, and otherwise COMPLETED and credited to its owner while the balance has room |
| Wallet.TopUpCreated | archived_modules/wallet/wallet.service.js:89-127 | a top-up is created if and only if its amount is from 10 to 10,000 and the gateway agrees: one PENDING credit of the user's own wallet, found by its reference |
| Wallet.WalletOpened | archived_modules/wallet/wallet.service.js:26-28 | looking at a wallet opens an empty one if there is none and changes nothing else |
| Wallet.RepeatReportsSuccess | archived_modules/wallet/wallet.service.js:152-156 | once a top-up is COMPLETED, and after any calls none of which (top-up, added money or transfer) credits with the same reference, a repeat by its owner reports success and changes nothing |
| Wallet.WalletService.VerifyTopUp | archived_modules/wallet/wallet.service.js:132-200 | the verification code keeps the ledger agreement and has the effect described above |
| Wallet.WalletService.Transfer | archived_modules/wallet/wallet.service.js:350-419 | the transfer code keeps the ledger agreement and has the effect described above |
| AllocationMerge.MergeAndMarkPrimary | src/modules/allocation/allocation.service.js:129-229 | every shop of the union exactly once, matched_pincode set exactly for pincode matches, and exactly one primary which no other shop precedes |
| AllocationMerge.ClosestIsLeast | src/modules/allocation/allocation.service.js:147-172 | a merged distance is the smallest known one, or unknown if none is known |
| AllocationMerge.MergedRow | src/modules/allocation/allocation.service.js:129-172 | matched_pincode is set exactly for shops of the pincode list, and the distance is the least that any row of either list has |
| AllocationMerge.PrimaryIsBest | src/modules/allocation/allocation.service.js:174-225 | no shop is closer than the primary one, none as close is older, and it has an unknown distance only when all have |
| AllocationMerge.OrderIndependent | src/modules/allocation/allocation.service.js:129-229 | with distinct ids per list and no ties, any order of the input gives the same allocations |
| AllocationFanout.HandleRecomputeByShop | src/workers/allocation.worker.js:76-163 | for any table, the paged, sliced loop visits at most 5000 pages of 200 rows, each behind the last user of the one before, and counts the successful recomputations |
| AllocationFanout.AfterCursor | src/modules/allocation/allocation.repository.js:281-333 | what comes after a cursor is exactly the rest of the table from the first row above it |
| AllocationFanout.PageLimit | src/modules/allocation/allocation.repository.js:281-288 | a page holds the first rows after the cursor, 200 without a limit and at most 1000 |
| AllocationFanout.EveryoneVisited | src/workers/allocation.worker.js:86-155 | with at most 1,000,000 rows every affected user is visited, however many default addresses users have and wherever the pages cut them |
| AllocationFanout.SameUserSamePage | src/workers/allocation.worker.js:86-155 | the visited ids never fall, and a user visited twice is visited twice on one page |
| AllocationFanout.OncePerUser | src/workers/allocation.worker.js:86-155 | no user is visited twice if and only if no page holds two rows of one user |
| AllocationFanout.TwoAddresses | src/workers/allocation.worker.js:86-155 | a lone user with two default addresses is visited twice |
| AllocationFanout.VisitsEveryoneUpToAMillion | src/workers/allocation.worker.js:86-155 | with one default address each, no user is visited twice, and all are visited if and only if there are at most 1,000,000 |
| OrderLifecycle.AtMost17Changes | src/utils/state-machine.js:38-138 | every run of accepted transitions changes the status at most 17 times |
| OrderLifecycle.LongestRun | src/utils/state-machine.js:38-138 | for every n up to 17 some run makes exactly n changes |
| OrderLifecycle.DeliveredHasPassed | src/utils/state-machine.js:38-138 | a delivered order has passed WAITING_VENDOR_CONFIRMATION, VENDOR_ACCEPTED, RECEIVED_AT_VENDOR and PACKED in that order |
| OrderLifecycle.CustomerCannotInterfere | src/utils/state-machine.js:142-202 | from PICKUP_ASSIGNED on, no CUSTOMER step changes the status |
| OrderLifecycle.StageSteps | src/utils/state-machine.js:38-138 | pickup and delivery go to the next step, over one, or to the end of the stage; shop work may leave out any steps; nothing goes back |
| OrderLifecycle.OtherSteps | src/utils/state-machine.js:38-138 | which statuses lead to payment, acceptance, rejection, cancellation by customer or admin, and refund |
| OrderLifecycle.RoleSteps | src/utils/state-machine.js:142-202 | a step is accepted exactly from the roles that may take an order to that status, and the verdict on every other |
| OrderLifecycle.DeliveredWithoutAdmin | src/utils/state-machine.js:38-202 | the system, the vendor and a rider alone can take an order from PAYMENT_PENDING to DELIVERED |
| OrderLifecycle.ShortestDelivery | src/utils/state-machine.js:38-138 | a delivered order has changed its status at least six times, and six are enough |
| AutoAssign.SelectCandidate | src/workers/processors.js:681-692 | the chosen rider is minimal by workload and then distance, unknown last, and the first such |
| AutoAssign.AutoAssigner.HandleAutoAssign | src/workers/processors.js:545-836 | a job offers the order to the best candidate or changes nothing |
| AutoAssign.JobOffers | src/workers/processors.js:573-817 | a job makes the offer if and only if the order is in one of the four statuses without rider or claimed offer and the rider has no offer but an expired one (and, without any, the order no delivery offer); the new or reopened row, the status and the recorded step are exact |
| AutoAssign.NormalWords | src/workers/processors.js:1138-1143 | a reason of two words is normalised to upper case with one underscore, whatever white space is around and between them |
| AutoAssign.RunKeepsOffersUnique | src/workers/processors.js:741-836 | over any run of jobs and answers there is at most one offer per order and rider, and every recorded status step is allowed for SYSTEM |
| AutoAssign.StepKeeps | src/workers/processors.js:747-836 | an offer is reopened only after OFFER_EXPIRED, and an order's status changes only by a step allowed for SYSTEM |
| AutoAssign.PermanentDeclineStays | src/workers/processors.js:751-753 | an offer cancelled for a permanent reason is never changed again |
| AutoAssign.RunLeavesUnmoved | src/workers/processors.js:741-786 | an order whose only offer is closed stays as it is in any run of jobs and answers, when that is a delivery offer with a reason other than OFFER_EXPIRED or the job passes over the order |
| AutoAssign.DeclineStrands | src/modules/delivery/delivery.repository.js:253-292 | after a rider declines the only offer of an order, in whatever status: the job is queued again if and only if the order has no rider and a status riders can accept in; no run of jobs and answers changes order or offer if and only if it was a delivery offer and the reason is not OFFER_EXPIRED, or the job passes over the order; every permanent decline is such a reason |
| AutoAssign.FirstOfferDeclined | src/workers/processors.js:774-817 | after the job's first offer of an order is declined: queued again if and only if the order was CONFIRMED or PREPARING; stranded if and only if it was not, or the reason is not OFFER_EXPIRED |
| AutoAssign.StrandedOrders | src/modules/delivery/delivery.service.js:226-303 | a CONFIRMED order declined with TOO_FAR is queued again and stranded; a PACKED order whose offer expires is stranded without being queued |
| AutoAssign.OfferCanBeAccepted | src/modules/delivery/delivery.repository.js:173-196 | once a job has made an offer, some run gives the order a rider if and only if the order was CONFIRMED or PREPARING |
| AutoAssign.AcceptIs | src/modules/delivery/delivery.repository.js:173-239 | a rider accepts exactly an open offer of a CONFIRMED, PREPARING or PACKED order without another rider: the order gets the rider and its other open offers are cancelled |
| AutoAssign.RejectIs | src/modules/delivery/delivery.repository.js:253-269 | rejecting closes exactly an open offer, with its reason |
| Csv.FileRoundTrip | src/utils/csv-stream.js:19-47 | reading the printed lines gives back the records, whatever commas, quotes, CR or LF they hold |
| Csv.PlainFields | src/utils/csv-stream.js:19-47 | fields without commas, quotes or line breaks are printed as they are, with a comma between them |
| Csv.ExportIsRead | src/utils/csv-stream.js:35-47 | an export with rows, with given columns or those of its first row, reads back as the header and, for the first 10,000 rows, each cell's value, or nothing for null and missing ones |
| Csv.ExportRoundTrip | src/utils/csv-stream.js:35-47 | it reads back as the whole table if and only if there are at most 10,000 rows and at least one (or a header that is one empty name) |
| Csv.EndedExportRoundTrip | src/utils/csv-stream.js:35-47 | a reader that allows a final line feed gets the table iff the last row is not one empty cell |
| Totals.ComputeBreakdown | archived_modules/cart/totals-engine.service.js:164-348 | the fee lines are the delivery line and each positive handling, platform, small-cart, surge and packaging fee, in this order; they add up to the charged fees iff no fee is negative, and the payable total is the non-negative part of subtotal, coupon, fees, tax and tip |
| Totals.DeliveryFeeMonotone | archived_modules/cart/totals-engine.service.js:76-104 | the unwaived delivery fee is monotone in distance and bounded by the fee at the capped distance |
| Totals.FeeByDistance | archived_modules/cart/totals-engine.service.js:76-104 | the unwaived fee is the minimum up to the base distance and one per-km fee more for each kilometre begun beyond it, up to the maximum distance |
| Totals.DeliveryIs | archived_modules/cart/totals-engine.service.js:63-140 | the fee is charged when delivery is on and waived exactly from the free-delivery amount on |
| Totals.AmountToUnlockIsLeast | archived_modules/cart/totals-engine.service.js:289-316 | amountToUnlock is the least addition to the subtotal that waives the fee, if and only if the delivery fee is enabled |
| Totals.PercentFeeWithinHalfCent | archived_modules/cart/totals-engine.service.js:143-148 | a percentage fee is within half a cent of the exact percentage |
| Totals.FlatFeeWithinHalfCent | archived_modules/cart/totals-engine.service.js:143-148 | a flat fee is charged to the nearest cent, a rule that is off not at all |

## Left out

- Coupon eligibility, usage limits and coupon administration.
- Notifications, queues, logging, HTTP and permissions: no effect on the tables modelled here; a queue delivers a job any number of times.
- The order splitter, the catalogue lookup, the payment gateway and signature checks are parameters: their outcome is arbitrary.
- Floating point: amounts are whole cents, so sub-cent wallet amounts (which the columns would round) are not modelled.
- Scheduled-order cancel, bulk-order plain updates, wallet calls and payFromWallet's status update after its commit have no second check, so each call is one step.
- ScheduledOrders.ScheduledOrdersService.Create: not interleaved with other creates; the two-step create is the step `BeginCreate` followed by `FinishCreate`.
- BulkOrders.StockConserved: listings are neither added nor removed during the run, and stock has no other writers.
- PaymentExpiry: the selection of a batch is arbitrary, and a failing statement (which rolls the whole batch back) is not a step.
- AllocationMerge.MergeAndMarkPrimary: creation times are valid dates, as the column requires; the order of the returned rows is not specified.
- AutoAssign: earnings, timestamps and the manual-assignment flag of an order without shop coordinates; cancel reasons are normalised for ASCII only; a rider's further progress after accepting and other changes of an order's status are not steps; nor are the other writers of order_assignments, the vendor's own assignment (vendor-orders.service.js, which sets a row back to ASSIGNED) and the admin's inserts.
- AllocationFanout: users and addresses do not change while a job runs.
- Totals: labels, descriptions and metadata of fee lines; rounding of amounts that are not whole cents, except percentage and flat fees.
- Csv: conversion of values to strings; cells are given as strings or null.
- Bulk-order submit reports its failed lines like confirm does; only whether it succeeds is modelled.
- The cart service, the allocation cache, auto-reject and report queries: they would only add easier facts of the same kinds.
