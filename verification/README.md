# ApniMandi core, modelled in Dafny

ApniMandi is a marketplace for street-food vendors. Vendors order produce. A
delivery partner buys it at the market, records what each product cost, and
delivers the orders. This project models the part of the system that handles
money and state:

- **The price ledger.** `procurement_prices` is append-only. Reading it gives
  the latest observation per product, the price map built from that list, and
  the average price of one day (`server/storage.ts`).
- **Reconciliation.** After a new price is recorded, every open order's items
  take the current price and the order total is recomputed as the convenience
  fee of 40.00 plus the sum of price × quantity (`updateOrderItemPrices` and
  the set-price handler).
- **The state-changing handlers** of `server/routes.ts`: order creation, set
  price, mark delivered, and the status PATCH. Each is one step from a database
  to a database and a response, with the same status codes and messages.
- **The partner's read queries:** demand per product over PLACED orders, the
  product list with its current price, and the earnings summary.
- **The column types** of `shared/schema.ts`. A decimal(10,2) value is held as
  whole cents and an `integer` as a 32-bit value.
- **JavaScript number handling**, in the plain-decimal fragment the system
  uses: `parseFloat`, `Number.prototype.toString`, and `Math.round`.
- **The client components:**
  - the vendor's order form, order tracker, and order history (market total,
    newest-ten list, reorder);
  - the partner's procurement and delivery screens, including the amount check
    they apply before submitting.

Files, one module each:

| file | module | models |
|---|---|---|
| wrappers.dfy | Wrappers | `Option`, `Result` |
| assoc.dfy | Assoc | insertion-ordered maps: JavaScript `Map` and string-keyed objects |
| decimal.dfy | Decimal | `parseFloat`, `toString`, rounding to the cent, `Math.round` |
| schema.dfy | Schema | tables, column limits, the status enum, `registerSchema` |
| ledger.dfy | Ledger | latest price per product, price map, average price of a day |
| reconcile.dfy | Reconcile | `updateOrderItemPrices` and the loop over open orders |
| aggregates.dfy | Aggregates | procurement list, products with prices, partner earnings |
| routes.dfy | Routes | the POST/PATCH handlers |
| order_form.dfy | OrderForm | vendor order form |
| order_status.dfy | OrderTracker | vendor order tracker |
| order_history.dfy | OrderHistory | vendor order history |
| amount_input.dfy | AmountInput | the partner screens' amount fields |
| procurement_list.dfy | ProcurementList | partner procurement screen |
| delivery_management.dfy | DeliveryManagement | partner delivery screen |
| consistency.dfy | Consistency | stored totals against the history's market total |

Where the written requirements and the code disagree, the model follows the code:

- No status transition is checked. A DELIVERED order can be PATCHed back to
  PLACED (`Routes.BackwardTransitionAccepted`).
- An order can be marked delivered any number of times, and each time adds a
  delivery row (`Routes.DuplicateDeliveryAccepted`).
- The server does not require a price to be positive. "-5" is recorded as
  -5.00 (`Routes.NegativePriceAccepted`). Only the client screens refuse
  non-positive amounts.
- In the status PATCH, a label outside the enum makes the database update fail
  before the handler checks whether the order exists. The answer is 500, not 404.
- The status PATCH accepts a JSON `null` status and clears the column
  (`Routes.NullStatusClears`).
- Order creation never stores the total it computes (see Findings).

## Model

| member | source | states |
|---|---|---|
| Schema.ParseStatus | shared/schema.ts:8 | A text is accepted into the status column only as one of the four enum labels, and it reads back as that label. |
| Schema.ParseStatusExact | shared/schema.ts:8 | A text reads as status s exactly when it is s's label, in both directions. |
| Schema.DecimalColumn | shared/schema.ts:58 | A text stored in a decimal(10,2) column is accepted exactly when it parses to a finite number whose value rounded to the cent has at most eight integer digits; the stored value is that rounded value. |
| Schema.StoredNumberIsRounded | server/routes.ts:213 | Writing `x.toString()` into a decimal(10,2) column stores x itself rounded to the cent. Printing and re-reading loses nothing the column keeps, and an x too large for the column is an error. The NaN text is refused here; see Left out. |
| Schema.RegistrationAccepted | shared/schema.ts:80-85 | Registration is accepted only when password and confirmation are equal and not empty; unequal passwords are always refused. |
| Assoc.Set | client/src/components/vendor/order-form.tsx:89 | Assigning a key gives it the new value and leaves every other key's value alone. An existing key keeps its place in key order and a new key is appended. Unique keys stay unique. |
| Assoc.FromEntries | client/src/components/partner/procurement-list.tsx:29-32 | A map built from entries has unique keys, and each key maps to the value of its last entry. |
| Decimal.ParseToStringRoundTrip | server/routes.ts:213 | `parseFloat` of a printed number gives the number back with trailing fraction zeros dropped. |
| Decimal.ToStringStable | client/src/components/partner/delivery-management.tsx:26 | Parsing and printing an amount already printed once changes nothing, so the client's and the server's `parseFloat(p).toString()` send the same text. |
| Decimal.RoundToCents | shared/schema.ts:58 | The stored cents are within half a cent of the exact value. A tie goes away from zero. |
| Decimal.RoundToCentsNormalize | shared/schema.ts:58 | Rounding to the cent depends only on the value, not on how many trailing zeros the text had. |
| Decimal.RoundHalfUp | server/storage.ts:373 | `Math.round` of a quotient is within one half of it, with a tie going up. |
| Ledger.LatestPrices | server/storage.ts:225-233 | The grouping of price rows by product has one entry per product. |
| Ledger.LatestList | server/storage.ts:233 | The values of the latest-price Map in key order. What each entry holds is stated by Ledger.CurrentPriceIsLatest. |
| Ledger.PriceMap | server/storage.ts:384 | `new Map(list.map(p => [p.productId, price]))` maps each product to the price of its last entry in the list, with unique keys. |
| Ledger.CurrentPrice | server/storage.ts:383-384 | A product's server-side price: the price map over the latest list. Its meaning is stated by Ledger.CurrentPriceIsLatest. |
| Ledger.LatestCoversObserved | server/storage.ts:226-231 | Every product with at least one price row has an entry. |
| Ledger.LatestIsLatestRow | server/storage.ts:227-230 | A product's entry is one of its own rows. No row of that product is dated later, and every earlier-scanned row of it is dated strictly earlier, so among equal dates the first row scanned wins. |
| Ledger.LatestRowUnique | server/storage.ts:228 | At most one row per product is the latest in that sense. |
| Ledger.CurrentPriceIsLatest | server/storage.ts:383-384 | The price map built from the latest list has an entry for a product exactly when that product was ever priced, and the entry is the price of its latest row. |
| Ledger.AveragePriceForDay | server/storage.ts:357-378 | With no observation of the product in the day window the average is 0. Otherwise it is the mean price rounded to the cent, a tie going up. |
| Ledger.AverageWithinDayRange | server/storage.ts:370-373 | The average lies between the day's lowest and highest price. |
| Ledger.AverageExample | server/storage.ts:365-373 | Prices 10.00, 20.00 and 30.00 in one day average 20.00, and a day without observations averages 0. |
| Reconcile.RepriceItem | server/storage.ts:387-393 | An item changes exactly when its product has a known, non-zero current price that differs from its stored price (null read as 0). It then takes that price, and nothing but the price changes. |
| Reconcile.RepricedCarriesCurrent | server/storage.ts:387-393 | After repricing, an item whose product has a non-zero current price carries that price. |
| Reconcile.RepriceIdempotent | server/storage.ts:386-394 | Repricing an item twice against the same prices is the same as once. |
| Reconcile.ItemsOf | server/storage.ts:382 | An order's items are exactly the item rows with its id, in table order. |
| Reconcile.WithTotal | server/storage.ts:402-408 | A total that fits the column is written. One that does not fit makes the update fail, the error is swallowed, and the row keeps its old total. |
| Reconcile.UpdateOrderItemPrices | server/storage.ts:380-409 | Only the order's own items are repriced. The order's total becomes 40.00 plus Σ price × quantity of its repriced items, and every other row and table is untouched. |
| Reconcile.OpenOrderIds | server/routes.ts:219-222 | The set-price pass visits exactly the orders that are PLACED, PROCURING or ON_THE_WAY. |
| Reconcile.ReconcileAll | server/routes.ts:224-226 | The loop over the open orders changes only items and orders. Items and orders of orders it does not visit stay as they were, and the ledger is unchanged. |
| Reconcile.ReconcileAllMatchesReference | server/routes.ts:224-226 | Updating the orders one after another is the same as reconciling all of them at once against the same ledger. |
| Reconcile.ReconciledCompose | server/storage.ts:380-409 | Reconciling one set of orders and then another equals reconciling their union. |
| Reconcile.ReconcileIdempotent | server/routes.ts:224-226 | A second pass over the same orders, with the ledger unchanged, changes nothing. |
| Reconcile.ClosedOrdersFrozen | server/routes.ts:219-226 | An order that is not open (DELIVERED or without status) keeps its row and all its items through a set-price pass. |
| Reconcile.TotalAfterReconcile | server/storage.ts:396-405 | After the pass, each visited order's items carry their non-zero current price. Its total is 40.00 plus the sum over its items, unless that does not fit the column. |
| Routes.InsertedCount | server/routes.ts:135-146 | The insertion loop gets through exactly the items before the first one the database refuses: an unknown product, or a quantity beyond the integer column. |
| Routes.CreatedItems | server/routes.ts:135-145 | Each requested item becomes one row, in request order, with its product, its quantity, and its product's current price (0 when never priced). |
| Routes.CreateOrder | server/routes.ts:112-156 | Order creation succeeds exactly when all quantities are at least 1, a known user id is sent, and every item can be inserted. An invalid body is a 500, a missing user a 401, and only orders and items change. On success the new order and its items are appended and the stored total is 0. |
| Routes.RunningTotalIsOrderTotal | server/routes.ts:125-138 | The handler's running total equals the recomputed total of the items it creates. |
| Routes.RunningTotal | server/routes.ts:124-137 | The `total` the handler accumulates, starting from the 40.00 fee. Routes.RunningTotalIsOrderTotal relates it to the stored-total formula. |
| Routes.CreatedItemPrice | server/routes.ts:122-136 | Each created item carries the price of its product's latest ledger row, or 0 when the product has none. |
| Routes.CreateOrderPersistingTotal | server/routes.ts:125-149 | The corrected handler succeeds exactly when the as-written one does and the total fits the column. It stores 40.00 plus Σ price × quantity of the created items as the order total. |
| Routes.CreateOrderStoresZeroTotal | server/routes.ts:128-149 | For two kilos at 30.00 the handler computes 100.00 but stores 0, while the corrected handler stores 100.00. |
| Routes.SetPrice | server/routes.ts:202-236 | A missing product id or price is a 400 with its own message. A price that does not fit, or that names an unknown product, is a 400 "Invalid price data" and changes nothing. The model also refuses a non-numeric price that way; see Left out. Otherwise the observation is appended and every open order is reconciled. |
| Routes.SetPriceRecordsRoundedValue | server/routes.ts:211-216 | The recorded price is the submitted number rounded to the cent, and zero or negative prices are recorded too. |
| Routes.NegativePriceAccepted | server/routes.ts:207-216 | A price of "-5" is accepted and recorded as -5.00. |
| Routes.SetPriceFreezesDelivered | server/routes.ts:219-226 | Setting a price leaves DELIVERED orders and their items exactly as they were. |
| Routes.SetStatus | server/storage.ts:175-182 | Exactly the rows with the given id get the new status, and nothing else changes. |
| Routes.MarkDelivered | server/routes.ts:248-268 | A missing order id is a 400. Otherwise the call succeeds exactly when the payment text parses and fits (the model refuses a non-numeric payment; see Left out), the order exists, and the partner (when sent) is a user. It then appends the delivery row and sets the order DELIVERED; a failure changes nothing. |
| Routes.DeliveryPaymentRecorded | server/routes.ts:261 | A missing payment is recorded as 0.00, and a given one as its value rounded to the cent. |
| Routes.PaymentText | server/routes.ts:261 | The payment text written: "0" for an empty value, otherwise the number printed again. Routes.DeliveryPaymentRecorded states what the column then holds. |
| Routes.DuplicateDeliveryAccepted | server/routes.ts:248-268 | Marking the same order delivered twice succeeds both times and leaves two delivery rows for it. |
| Routes.PatchStatus | server/routes.ts:176-188 | A missing status or a label outside the enum is a 500 whether or not the order exists. A valid label or a JSON `null` for an unknown order is a 404. Otherwise the order gets that status, or no status for `null`, and is returned. |
| Routes.NullStatusClears | server/storage.ts:175-182 | A `null` status is written as NULL: the existing order is answered with no status and is no longer among the open orders. |
| Routes.BackwardTransitionAccepted | server/routes.ts:176-188 | A DELIVERED order can be moved back to PLACED. |
| Aggregates.PlacedItems | server/storage.ts:263-266 | An item is joined exactly when it belongs to an order whose status is PLACED. |
| Aggregates.Aggregate | server/storage.ts:269-282 | The `forEach` into the aggregation Map. Its contract is proved separately in Aggregates.AggregateCorrect. |
| Aggregates.AggregateCorrect | server/storage.ts:269-282 | The aggregation has one entry per product that has a row, and that entry's quantity is the sum of the product's rows. |
| Aggregates.JoinKeepsKnownProducts | server/storage.ts:265 | The product join drops only items of unknown products. A known product keeps its whole quantity and is present exactly when some item names it. |
| Aggregates.AggregatedListIsPlacedDemand | server/storage.ts:253-292 | A known product is listed exactly when some item of a PLACED order names it, with the total quantity over all such items. |
| Aggregates.DemandRows | server/storage.ts:284-287 | Each aggregated entry becomes one result row, in key order, carrying the product id, name, quantity and unit. |
| Aggregates.AggregatedProcurementList | server/storage.ts:253-292 | No product appears in two rows. Which products appear, and with what quantity, is stated by Aggregates.AggregatedListIsPlacedDemand. |
| Aggregates.QuantityMap | server/storage.ts:338-342 | Each product's entry, with a missing one read as 0, is the sum of its items' quantities. |
| Aggregates.AllProductsWithPrices | server/storage.ts:316-355 | There is one row per product, in table order. Each row carries the product's current price (absent when it was never priced) and its demand from PLACED orders. |
| Aggregates.ProductViewsAgree | server/storage.ts:344-350 | The product list and the aggregated list agree on every product's demand, and a product missing from the aggregated list needs 0. |
| Aggregates.PartnerEarnings | server/storage.ts:294-314 | The delivery count is the number of delivery rows. Earnings are a tenth of all payments (null read as 0), rounded to the cent with a tie going up. |
| Aggregates.EarningsIgnorePartner | server/storage.ts:294-296 | Every partner sees the same figures: the partner id is not used. |
| Aggregates.EarningsExample | server/storage.ts:298-305 | Payments of 100.00 and 50.00, plus one unpaid delivery, give three deliveries and 15.00. |
| OrderForm.UpdateQuantity | client/src/components/vendor/order-form.tsx:85-91 | The new count is the old one (a missing count reads as 0) plus the step when that is not negative, and 0 otherwise. Other products are untouched, and non-negativity and unique keys are kept. |
| OrderForm.IncrementThenDecrement | client/src/components/vendor/order-form.tsx:85-91 | "+" then "−" restores the count. |
| OrderForm.DecrementAtZero | client/src/components/vendor/order-form.tsx:88 | "−" on a count of 0 keeps it at 0. |
| OrderForm.PlaceOrderItems | client/src/components/vendor/order-form.tsx:94-96 | Exactly the entries with a positive count are submitted, each with its count. |
| OrderForm.PlaceOrderItemsAppend | client/src/components/vendor/order-form.tsx:94-96 | The items of two records laid end to end are the first record's items followed by the second's, so items keep the record's key order. |
| OrderForm.PlaceOrderItemsSingle | client/src/components/vendor/order-form.tsx:95-96 | One entry gives one item with its product and count when the count is positive, and no item otherwise. |
| OrderForm.PlaceOrderItemsDistinct | client/src/components/vendor/order-form.tsx:94-96 | A record with unique keys never submits two items for the same product. |
| OrderForm.HandlePlaceOrder | client/src/components/vendor/order-form.tsx:93-107 | Nothing is submitted exactly when no count is positive; otherwise the positive entries are. |
| OrderForm.SubmittedItemsValid | client/src/components/vendor/order-form.tsx:94-96 | What the form submits passes the server's quantity check, and each item carries the count the form holds for its product. |
| OrderForm.TouchedProductSubmitted | client/src/components/vendor/order-form.tsx:85-96 | A product just set above 0 is submitted with its new count. |
| OrderTracker.Rank | client/src/components/vendor/order-status.tsx:37 | Each status sits at its own place in the four-step lifecycle list. |
| OrderTracker.IndexOf | client/src/components/vendor/order-status.tsx:96 | `indexOf` gives the first position of the label, or -1 exactly when the label is absent. |
| OrderTracker.StatusIndex | client/src/components/vendor/order-status.tsx:96 | The position of the status's label in `statusOrder`, a missing status read as PLACED. OrderTracker.StatusIndexIsRank proves it is the status's rank. |
| OrderTracker.FirstActive | client/src/components/vendor/order-status.tsx:47 | The first position whose order is not DELIVERED, or the length when every order is DELIVERED. |
| OrderTracker.StatusIndexIsRank | client/src/components/vendor/order-status.tsx:96 | The tracked order's index is its lifecycle position and never -1. An order without a status is drawn as PLACED. |
| OrderTracker.CurrentOrder | client/src/components/vendor/order-status.tsx:47 | The tracker follows the first order that is not DELIVERED, and shows nothing exactly when every order is delivered. |
| OrderTracker.Steps | client/src/components/vendor/order-status.tsx:115-118 | Four steps are drawn, each as completed, current or pending relative to the order's position. |
| OrderTracker.StepAt | client/src/components/vendor/order-status.tsx:117-118 | A step is completed exactly when it comes before the current index, current exactly at it, and pending exactly after it. |
| OrderTracker.TrackedOrderSteps | client/src/components/vendor/order-status.tsx:115-142 | Exactly the steps before the tracked order's status are ticked and its own step is current. The DELIVERED step is never reached. |
| OrderHistory.MarketTotal | client/src/components/vendor/order-history.tsx:22-31 | No items cost the 40.00 fee. One item costs the fee plus its product's latest price (0 when unpriced) times its quantity. With OrderHistory.MarketTotalAppend this fixes the total of any list. |
| OrderHistory.MarketTotalAppend | client/src/components/vendor/order-history.tsx:22-32 | The market total of two item lists together charges the fee once. |
| OrderHistory.UnpricedItemAddsNothing | client/src/components/vendor/order-history.tsx:27 | An item whose product has no current price adds nothing to the market total. |
| OrderHistory.SortNewestFirst | client/src/components/vendor/order-history.tsx:69 | Sorting is a permutation of the orders. |
| OrderHistory.SortIsStable | client/src/components/vendor/order-history.tsx:69 | The sort puts the newest order first, and orders with equal timestamps keep their relative order. |
| OrderHistory.PreviousOrders | client/src/components/vendor/order-history.tsx:68-70 | The history shows min(n, 10) of the orders, newest first, and no order left out is newer than one shown. |
| OrderHistory.ReorderItems | client/src/components/vendor/order-history.tsx:72-78 | A reorder requests each original line's product and quantity, in item order. |
| OrderHistory.Reorder | client/src/components/vendor/order-history.tsx:158-162 | The reorder action exists exactly for DELIVERED orders, and it submits each line's product and quantity in item order. |
| OrderHistory.ReorderRecreatesLines | client/src/components/vendor/order-history.tsx:72-78 | A reorder the server accepts creates one line per original line, with the same product and quantity, in the same order. |
| AmountInput.Change | client/src/components/partner/delivery-management.tsx:63-65 | Typing changes only that row's text. |
| AmountInput.Refuses | client/src/components/partner/delivery-management.tsx:51-52 | The refusal check: a missing or empty text, or one whose `parseFloat` is at most 0. AmountInput.Submitted proves that exactly the refused texts are not sent. |
| AmountInput.Submitted | client/src/components/partner/delivery-management.tsx:52 | Nothing is sent exactly when the text is missing, empty, or a number ≤ 0. A non-number is not refused. |
| AmountInput.SubmittedAmountStored | client/src/components/partner/delivery-management.tsx:26 | A submitted amount reaches a money column as the typed number rounded to the cent, never negative. Re-printing it on the server changes nothing. |
| AmountInput.TinyAmountStoredAsZero | client/src/components/partner/delivery-management.tsx:52 | "0.001" passes the screen's check and is stored as 0.00. |
| ProcurementList.CurrentLabelShowsLatest | client/src/components/partner/procurement-list.tsx:164-167 | The "Current" label appears exactly for products ever priced, and shows the price of the product's latest observation. |
| ProcurementList.ShowsCurrent | client/src/components/partner/procurement-list.tsx:164-166 | Whether the "Current" label is drawn. ProcurementList.CurrentLabelShowsLatest states exactly when. |
| ProcurementList.HandleUpdatePrice | client/src/components/partner/procurement-list.tsx:61-71 | Nothing is sent exactly when the screen's check refuses the typed text. Otherwise the re-printed text is sent with the product id. |
| ProcurementList.NewerObservationIsLatest | server/storage.ts:228-229 | An observation dated after every earlier one of its product becomes that product's latest. |
| ProcurementList.SubmittedPriceRecorded | client/src/components/partner/procurement-list.tsx:34-39 | The server accepts a submitted price exactly when the product exists and the amount fits. It records the typed price rounded to the cent, never negative, and a newest observation is then shown as current. |
| ProcurementList.TinyPriceRecordedAsZero | client/src/components/partner/procurement-list.tsx:61-71 | A price of "0.001" passes the screen's check and is recorded as 0.00. |
| DeliveryManagement.ActiveOrders | client/src/components/partner/delivery-management.tsx:48 | The active list holds exactly the orders that are not DELIVERED. |
| DeliveryManagement.ActiveOrdersAppend | client/src/components/partner/delivery-management.tsx:48 | Filtering a concatenation filters each part, keeping order. |
| DeliveryManagement.HandleMarkDelivered | client/src/components/partner/delivery-management.tsx:50-61 | Nothing is sent exactly when the typed payment is refused. Otherwise the re-printed text is sent for that order. |
| DeliveryManagement.SubmittedPaymentRecorded | client/src/components/partner/delivery-management.tsx:22-28 | The server accepts a submitted payment exactly when the order exists, the partner is a user and the amount fits. The stored payment is the typed amount rounded to the cent, never negative. |
| DeliveryManagement.TinyPaymentRecordedAsZero | client/src/components/partner/delivery-management.tsx:50-61 | A payment of "0.001" passes the check and is stored as 0.00. |
| DeliveryManagement.BadgeDistinguishesStatuses | client/src/components/partner/delivery-management.tsx:67-78 | Each status gets its own badge colour, and the grey default is drawn exactly for DELIVERED. |
| DeliveryManagement.ActiveOrdersColoured | client/src/components/partner/delivery-management.tsx:177 | No order on the active list is drawn with the grey badge. |
| DeliveryManagement.BadgeClass | client/src/components/partner/delivery-management.tsx:67-78 | The badge colour for a status name, grey for any other text. DeliveryManagement.BadgeDistinguishesStatuses states which colours differ. |
| DeliveryManagement.OrderBadge | client/src/components/partner/delivery-management.tsx:177 | The badge for the order's status, a missing status drawn as PLACED. DeliveryManagement.BadgeDistinguishesStatuses states which statuses share a colour. |
| Consistency.LineSumMatches | client/src/components/vendor/order-history.tsx:26-29 | When each item's stored price is its current price (0 when none), the stored-total sum and the market-total sum agree. |
| Consistency.CorrectedCreateStoresMarketTotal | client/src/components/vendor/order-history.tsx:22-32 | The corrected order creation stores exactly the market total the history shows for the new order. |
| Consistency.MarketLinesNonNegative | client/src/components/vendor/order-history.tsx:26-29 | With non-negative prices and quantities the market lines sum to at least 0. |
| Consistency.PriceFromLedger | server/storage.ts:384 | Every price in the server's price map occurs in the ledger. |
| Consistency.AsWrittenCreateDisagrees | server/routes.ts:128-149 | As written, a new order is stored with total 0. While no ledger price is negative, the history shows a market total of at least 40.00 next to it. |
| Consistency.ReconciledTotalIsMarketTotal | server/storage.ts:396-405 | After a set-price pass over an order whose products all have a non-zero current price, the stored total is the history's market total, unless that does not fit the column. |

## Left out

- I/O, HTTP framing, logging, toasts, rendering and query caching are not modelled. Each handler is one step from a database to a database and a reply.
- Concurrency and transactions are not modelled. Each handler runs alone, and writes made before a failing statement stay, as the code does not use transactions.
- Fresh ids and the current time are parameters.
- Database read failures are not modelled. The catch blocks that turn them into empty lists or 0 are left out.
- Authentication, sessions, bcrypt, OTP and the login and registration handlers are left out. Only `registerSchema`'s check is modelled.
- `initializeDefaultData` (seeding) is left out.
- Decimal.ParseFloat: handles plain decimal literals only. Exponents, "Infinity", hexadecimal-looking prefixes and the Unicode space separators beyond U+00A0 are not modelled.
- Decimal.ToString: prints plain decimals only. It does not switch to exponent form for very large or very small numbers.
- Schema.DecimalColumn: rejects the text "NaN", which a PostgreSQL numeric column would accept. Prices and payments are modelled as cents, which have no NaN value.
- Schema.StoredNumberIsRounded: calls a NaN x an error, whereas the column stores NaN.
- Routes.SetPrice: answers 400 for a non-numeric price. The code sends `parseFloat(price).toString()`, which is "NaN", so the observation is stored with a 200 and becomes the product's latest price. This NaN path is not modelled.
- Routes.MarkDelivered: answers 400 for a non-numeric payment. The code stores the payment "NaN" with a 200, and `getPartnerEarnings` then totals NaN. This NaN path is not modelled.
- Ledger.LatestPrices: scans the rows in insertion order. The query at server/storage.ts:220-222 has no ORDER BY, so which of two rows with the same date wins depends on PostgreSQL's scan order.
- Row order of the other reads is modelled as insertion order, although none of them has an ORDER BY: an order's items (server/storage.ts:192-206, read by `Reconcile.ItemsOf` and the `OrderHistory.Reorder` rows), the orders of a user (server/storage.ts:148-159), and the aggregation join (server/storage.ts:256-266, whose Map key order `Aggregates.DemandRows` follows). The item updates of a set-price pass rewrite rows, so PostgreSQL may return an order's items in another order afterwards.
- The order list the tracker searches is a parameter; its order is not pinned. The history screen sorts the same cached array in place (client/src/components/vendor/order-history.tsx:68-69), so the tracker's first active order is in server order before the history renders and newest first after.
- Aggregates.PartnerEarnings: computes exactly, whereas the code multiplies floating-point values by 0.1. Half-cent ties may round differently.
- Ledger.AveragePriceForDay: computes the mean exactly, not in floating point. The day window is passed as two timestamps because the server's local time zone is not modelled.
- The market total, the running total, the reconciliation total (a floating-point `reduce` printed with `toString()`, server/storage.ts:397-400) and item prices use exact cents rather than floating-point sums.
- Order quantities are integers. A fractional JSON quantity passes `createOrderSchema` and then fails at the integer column; that path is not modelled.
- Prices and payments arrive as text. A JSON number body (where `!price` is also true for 0) is not modelled.
- The read endpoints `GET /api/orders`, `GET /api/orders/user/:userId` and `GET /api/procurement-prices` are modelled as the lists they return. The average-price endpoint is modelled as `Ledger.AveragePriceForDay`; its date parsing is not.
- The procurement screen reads `totalQuantity` from a list that carries `totalQuantityNeeded`. This display mismatch is not modelled.
- The procurement and delivery screens keep the raw price text from `/api/procurement-prices`. The model shows the stored cents, which carry the same value.
- Clearing the typed amounts after a successful submission (`setPaymentAmounts({})`) is not modelled.
- client/src/components/partner/earnings-summary.tsx is not part of this model; it only displays `getPartnerEarnings`.
- Object keys that look like array indices, which JavaScript enumerates first, are not modelled. Row ids are UUID text.
- The bundled copy of the server in dist/ is not part of this model.

## Findings

| source | as written | input that shows it | evidently intended | confidence | as-written member | corrected member |
|---|---|---|---|---|---|---|
| server/routes.ts:125-149 | The handler accumulates `total` over the created items but never writes it. The order keeps the total "0" it was inserted with, and line 149 only re-sets the status. | One item of a product priced 30.00, quantity 2: the running total is 100.00, but the stored total is 0. | Store 40.00 plus Σ price × quantity as the order total, as the comment at line 148 says. | not executed | Routes.CreateOrderStoresZeroTotal | Routes.CreateOrderPersistingTotal |
