# Verified model of the trading core

This project models the parts of a stone-trading platform on which money and
commitments rest, and proves what they keep. Every file is one module.

* **The per-contact ledger.** A business keeps an append-only book for each of its
  contacts. `post_entry`, `post_trade_entry` and `reverse_entry` add rows with a signed
  delta and a running balance, under a lock on the contact; a reversal adds a negating
  row and stamps the original. `Ledger` specifies the calls, `LedgerBook` performs them
  step by step on stored rows, `LedgerInvariant` proves what every run keeps, `Outcomes`
  what one call means afterwards, `Undo` that a reversal erases a posting from every
  report, `Correction` that afterwards every call is answered as if it had never been
  made, `Concurrency` that every interleaving of transactions is a serial run, `Races`
  what the loser of a race is told, and `Interleavings` what all that means for the
  reports and for trades on one request.
* **The reports.** `Aging` holds the first-in-first-out allocation loop and its closed
  form, `Reports` the per-contact and business-wide reports and their agreement with the
  balances, `Statement` the statement footer, `Money` the rounding.
* **Offers.** `PurchaseRequests` is the private-offer state machine; `Composition` says
  what it and the ledger guarantee together, and under which condition.
* **Around them.** `Contacts` (one contact per linked business, and the migration that
  established it), `Backfill` (the migration that stamped older reversals), `Pricing`
  and `Viewers` (which price a viewer sees), `Freshness` (the hourly stock scan), `Otp`
  (login codes), `Catalog` (replacing the lots of a catalog), `Slug` (finding a free
  slug). `Sequences` is the shared list and summation library.

## How to read it

Money is an integer number of cents; a caller's raw amount is a real number or no number.
Dates and clock readings are integers. Ids of contacts, lots, offers, requests and
challenges are positions in their tables; ledger ids are the UUIDs the services draw, as
numbers. The place of a ledger row in its sequence is its place in `created_at` order. A
capability check is a boolean of the acting member. `createdAt`, `now`, `id` and similar
parameters stand for what the program draws from the clock or the random generator.

Where the source changes state, a class does so too (`LedgerBook.Book`,
`PurchaseRequests.OfferDesk`, `Contacts.ContactList`, `Pricing.PriceBook`,
`Freshness.Inventory`, `Otp.OtpService`, `Catalog.CustomCatalog`, `Slug.SlugTable`). Its
methods are proved equal to a function from old state to new state, and the properties
below are proved of that function and of runs of it, so they hold of the methods.

The store is a small model of PostgreSQL under READ COMMITTED: column widths and unique
indexes refuse an insert; a row lock is held to the end of its transaction; a unique index
waits for a conflicting row that is not yet committed before it judges; a savepoint rolls
back an insert that failed.

## Where code and documentation part

* An offer that was not accepted cannot be recorded at all (`docs/accounting.md:110`).
  `post_trade_entry` looks at the offer's status, `post_entry` with an offer and a trade
  type does not (`apps/accounting/services.py:113-117`). A successful call keeps all
  recorded trades on accepted offers if and only if it is not a direct trade post that
  names another offer (`Composition.StepKeepsAcceptedTrades`). The failing input exists
  only at the service interface: the program's own call of `post_entry` outside
  `post_trade_entry` passes no offer (`apps/accounting/views.py:173-182`).
* `set_catalog_lots` promises that nothing is silently dropped. A lot id in a
  non-canonical spelling passes the ownership test and is then skipped
  (`apps/catalog/services.py:125-132`); `Catalog.NothingDroppedIff` says exactly when
  nothing is lost and `Catalog.AnAcceptedRequestCanAttachNothing` shows a loss.

## Properties that hold under a condition

No document claims the following without reservation; the model says when each is so.

* A request has one accepted offer, so one would expect at most one live trade per
  business and request. That rule survives a call if and only if the call is not an
  accepted posting of a trade for a request of which the business already holds a live
  trade, and it holds all along a run if and only if no call of the run is one
  (`Composition.StepKeepsOneTradeIff`, `Composition.EveryRunKeepsOneTradeIff`);
  `Composition.PostEntryCanRecordASecondTrade` is a run that breaks it. As long as only
  accepted offers have been recorded, `post_trade_entry` never breaks it
  (`Composition.TradesAloneNeverDouble`).
* A date window of a statement telescopes exactly when the rows hidden between its first
  and last row add up to nothing (`Statement.FooterGap`); a back-dated entry can break
  this, as `docs/accounting.md:186-189` warns (`Statement.BackDatingBreaksTheFooter`).
* A cancelled request stays cancelled exactly until one of its open offers is accepted
  (`PurchaseRequests.CancelledUntilAccepted`).
* The freshness scan may be missed without harm only while nobody confirms stock in
  between: confirming brings a lot back from "needs confirmation" but not from "hidden"
  (`Freshness.ConfirmationForgetsATransition`, `Freshness.HiddenStaysHidden`).
* A balance is sure to fit its 18 digits on an account of fewer than 10^4 rows, however
  large the table (`LedgerInvariant.BalancesFit`).

## Model

| member | source | states |
|---|---|---|
| LedgerInvariant.EveryRunIsValid | apps/accounting/services.py:79-337 | over every run of posts, trades, reversals, contact edits and offer decisions: running balances chain exactly, reversals are a partial matching recorded by the stamps, each business has at most one live trade per offer, and no posted figure ever changes |
| LedgerInvariant.EmptyBooksAreValid | apps/accounting/services.py:70-76 | runs can start: books without any rows satisfy the invariant |
| LedgerInvariant.StepKeepsValid | apps/accounting/services.py:79-337 | one step of that: whatever call comes next, the invariant holds after it, old rows at most gain a stamp, and decided offers stay decided |
| LedgerInvariant.AcceptedKeepsSound | apps/accounting/services.py:118-337 | any row the services accept extends sound books to sound books, the original's stamp included |
| LedgerInvariant.ThreeBalancesAgree | apps/accounting/selectors.py:40-106 | the last running balance, the SQL sum of all deltas and the sum over live entries are one number |
| LedgerInvariant.BalanceIsSum | apps/accounting/selectors.py:63-68 | the running balance of the newest row is the sum of every delta, each counted once |
| LedgerInvariant.LiveSumIsSum | apps/accounting/reports.py:83-100 | dropping reversed entries with their reversals changes no account's sum |
| LedgerInvariant.ChainAt | apps/accounting/services.py:120-130 | row by row, the stored balance is the account's previous balance plus the row's delta |
| LedgerInvariant.ReversalFreesTheSlot | apps/accounting/models.py:118-134 | after the live trade of an offer is reversed, a permitted new trade for it succeeds exactly when its figures fit their columns |
| LedgerInvariant.DuplicateLeavesBooksUnchanged | apps/accounting/services.py:224-235 | a trade for a taken slot is refused with the live entry that holds it, and changes nothing |
| LedgerInvariant.BalancesFit | apps/accounting/models.py:54-61 | on an account of fewer than 10^4 rows of column-sized amounts, in a table of any size, one more posting keeps the balance inside its 18 digits |
| Outcomes.PostingMovesOneBalance | apps/accounting/services.py:26-33 | a post moves its own account by the rounded amount, up for sale, payment made and debit adjustment, down for the others, and moves no other account |
| Outcomes.PostedRowIs | apps/accounting/services.py:124-137 | an accepted posting or trade appends one row and touches no other: the business, contact, kind and offer asked for, dated on the day given and on the day of the call only when none is, with the rounded amount, its sign by kind, and the balance before it plus that |
| Outcomes.PostIsAcceptedIff | apps/accounting/services.py:92-137 | a posting is accepted if and only if a manager of the business posts more than half a cent, of a kind that is no reversal, with a reason if it is an adjustment, on an own contact, for an own lot and an offer the business is party to, the figures fit, the id is new and a trade's offer is not recorded yet |
| Outcomes.PostIsRefusedFor | apps/accounting/services.py:92-117 | which of these a refused posting is told |
| Outcomes.PostFailsInTheStore | apps/accounting/services.py:118-137 | a posting that passes the checks and is not accepted overflows its columns or, if it fits, violates an index |
| Outcomes.TradeIsAcceptedIff | apps/accounting/services.py:205-257 | a trade is accepted if and only if it is a sale or purchase that could be posted, and its offer, if any, was accepted |
| Outcomes.TradeIsRefusedFor | apps/accounting/services.py:205-221 | what a trade is told that fails before the contact is locked |
| Outcomes.PermittedTradeFailsWith | apps/accounting/services.py:223-264 | what a permitted trade is told: the entry recorded for its offer, the check of a posting it fails, an overflow, or a duplicate |
| Outcomes.ReversalMovesOneBalance | apps/accounting/services.py:300-327 | a reversal takes back exactly what its original moved, on that account only |
| Outcomes.ReversalIs | apps/accounting/services.py:300-327 | an accepted reversal stamps the original with the moment, leaves every other row alone and appends the negated row, dated on the day of the reversal, naming the original and no offer |
| Outcomes.ReversalIsAnsweredBy | apps/accounting/services.py:292-329 | a reversal is accepted if and only if a manager of the business reverses an entry that is no reversal and has none, the figures fit and the id is new; otherwise which of these it is told |
| Outcomes.UnknownEntryIsMissing | apps/accounting/services.py:278-292 | an id that no entry has cannot be reversed |
| Outcomes.ReversedOnceForAll | apps/accounting/services.py:290-298 | once reversed, an entry can never be reversed again, after any run |
| Outcomes.RecordedUntilReversed | apps/accounting/services.py:193-235 | through any run, until somebody reverses it, a recorded trade is what every second attempt for its offer is answered with, on any contact |
| LedgerBook.Book.PostEntry | apps/accounting/services.py:79-147 | the step-by-step service refines the specified call, whose row and refusals `Outcomes` states in full, and keeps the invariant |
| LedgerBook.Book.PostTradeEntry | apps/accounting/services.py:169-275 | the same for trades, with the duplicate check and the savepoint |
| LedgerBook.Book.ReverseEntry | apps/accounting/services.py:278-337 | the same for reversals, stamp first and rolled back when the insert fails |
| Concurrency.EveryInterleavingIsSerial | apps/accounting/services.py:118-137 | every interleaving of transactions leaves valid books, those of its committed calls run one after the other, each accepted; the log holds all of them and no others; so no update is lost |
| Interleavings.EveryInterleavingReconciles | apps/accounting/selectors.py:109-162 | at any point of any interleaving the reports over the committed books agree on receivables, payables, net and debtors |
| Interleavings.EveryInterleavingKeepsOneTradeIff | apps/accounting/services.py:239-264 | an interleaving shows at most one live trade per business and request all along if and only if none of its transactions commits a second one |
| Concurrency.StepKeepsGood | apps/accounting/services.py:223-257 | every step keeps what each open transaction has checked and read, including racing trades on different contacts and a racing reversal |
| Concurrency.CommitIsApply | apps/accounting/services.py:296-337 | at commit a transaction's row is exactly what the call would give on the committed books of that moment |
| Concurrency.VerdictStays | apps/accounting/services.py:239-264 | a commit on another contact changes nothing for a pending call that competes for no slot or id with it |
| Concurrency.LosersAreRefusedSerially | apps/accounting/services.py:221-264 | a transaction that fails leaves the ledger unchanged and would have been refused alone with the same error, except that a trade losing at the insert learns of the duplicate without the entry, or that its figures do not fit |
| Races.InsertingAPosting | apps/accounting/services.py:239-264 | how an insert ends, from the committed rows of that moment: it overflows, or clashes on id or offer, which a trade is told as a duplicate and a plain post as the violation itself, or goes in |
| Races.TheSecondOfARaceIsADuplicate | apps/accounting/services.py:239-264 | of two trades of one business for one offer, both past their checks, the one that inserts after the other has committed ends as a duplicate or does not fit |
| Races.NoTradeEndsInAViolation | apps/accounting/services.py:258-264 | over every interleaving no trade ends with the raw violation of an index |
| Concurrency.WaitingIsAcyclic | apps/accounting/services.py:118-119 | whoever is waited for is further along, so no cycle of waits exists |
| Concurrency.SomebodyCanMove | apps/accounting/services.py:221-223 | while a transaction is open some transaction can take a step of its own |
| Undo.ReversedLaterIsNeverPosted | apps/accounting/services.py:278-337 | post an entry, let any number of calls follow that neither name it, nor draw its id, nor record a competing trade for its offer, reverse it: the money is that of the same calls without the post, provided that the entry's own account stays below 10^4 rows, so that its balance fits its column; all other accounts may be of any size |
| Undo.PostedAndReversedIsNeverPosted | apps/accounting/services.py:278-337 | the same for any calls that succeed or fail alike with and without the entry |
| Undo.SameMoneySameReports | apps/accounting/reports.py:83-142 | books with the same money show the same balance, aging buckets and recorded trades |
| Undo.ReversalErases | apps/accounting/reports.py:83-100 | reversing an entry gives the money of the books with its row taken out and later balances rebased |
| Undo.StepErases | apps/accounting/services.py:79-337 | taking a live entry out of the books commutes with every call indifferent to it |
| Correction.TwinStep | apps/accounting/services.py:278-337 | books that differ by a reversed entry and its reversal answer every call that spares the two alike, with the same row or the same error, and stay so |
| Correction.ReversalMakesTwins | apps/accounting/services.py:296-329 | after a reversal the books differ from those without the entry by that pair only |
| Correction.ReversalIsForgotten | apps/accounting/services.py:278-337 | once a posting is reversed, every later run goes on as if it had never been made, with the same money and two rows more; until the reversal the posting's own account stays below 10^4 rows |
| Correction.CorrectionEqualsPostingRight | apps/accounting/services.py:189-193 | wrong trade, other calls, reversal, other calls, right trade: the right trade is accepted exactly as in the history without the wrong one, with the identical row, and the money is the same; until the reversal the wrong trade's own account stays below 10^4 rows |
| Aging.Allocate | apps/accounting/reports.py:122-132 | the allocation loop: in date order, the amount left older than 30, 60 and 90 days is the older debits less all credits, never below zero |
| Aging.AgingFromEntries | apps/accounting/reports.py:103-132 | the whole report equals its closed form when entries come in date order; its totals do in any order |
| Aging.ClosedForm | apps/accounting/reports.py:103-132 | the closed form's buckets add up to older-than amounts, total less unapplied credit is debits less credits, and one of the two is zero |
| Aging.BucketOf | apps/accounting/reports.py:68-80 | the bucket is above 30, 60 or 90 exactly as the age is; negative ages count as current |
| Aging.FifoLeavesLeastOldDebt | apps/accounting/reports.py:106-109 | no way of spending the credits leaves less debt past any threshold than oldest-first |
| Aging.AgingDependsOnAmountsAndDates | apps/accounting/reports.py:92-100 | the report depends only on the multiset of amounts and dates, not on posting order or ties |
| Reports.AgingIsTheBalance | apps/accounting/reports.py:135-142 | a contact's aging total is its balance when positive, its unapplied credit the balance when negative |
| Reports.OverdueIs | apps/accounting/reports.py:83-142 | what a contact owes from more than 30, 60 or 90 days ago is the sum of its older debits less all its credits, reversed rows and reversals left out, never below zero |
| Reports.GroupByContact | apps/accounting/reports.py:165-170 | the one-pass grouping gives each contact its own ordered live entries |
| Reports.BusinessAging | apps/accounting/reports.py:145-188 | the one-pass report's total is the sum of the per-contact reports over all contacts, its rows are those of exactly the contacts with debt, largest first |
| Reports.LiveOfContact | apps/accounting/reports.py:83-100 | filtering the business-wide live entries by contact gives the contact's own query, order included |
| Reports.ReportsReconcile | apps/accounting/selectors.py:109-162 | aging total is receivables, summed unapplied credit is payables, their difference the net balance, and the aging rows are the debtors |
| Reports.ListedContacts | apps/accounting/selectors.py:59-93 | the balance list holds exactly the business's active contacts, settled ones included, and its archived contacts with a balance |
| Reports.ContactCallsHideNoMoney | apps/accounting/selectors.py:68-74 | whatever contact rows are changed or added, valid books keep every total and every debtor row |
| Reports.OneCallHidesNoMoney | apps/contacts/services.py:61-161 | creating, editing, archiving or restoring a contact changes no total and no debtor row |
| Statement.FooterGap | apps/accounting/selectors.py:226-260 | for any filter, closing less the balance before the first row shown is debit less credit plus exactly the hidden rows in between, so the window telescopes if and only if those sum to zero |
| Statement.StatementShows | apps/accounting/selectors.py:201-222 | a row is on the statement exactly when it is of the account, dated inside the window, both ends counted, and of the kind asked for |
| Statement.ColumnsAre | apps/accounting/selectors.py:225-259 | every row shown counts in one column, by what it raised or lowered the balance |
| Statement.WholeStatementBalances | apps/accounting/selectors.py:226-260 | unfiltered, debit less credit is the closing balance is the current balance |
| Statement.DateWindowTelescopes | apps/accounting/selectors.py:205-260 | when business dates follow posting order, a date window closes at opening plus debit less credit |
| Statement.BackDatingBreaksTheFooter | docs/accounting.md:186-189 | three calls of the posting service, the middle one back-dated: a window whose columns add up to 20 closes at 30 |
| Backfill.BackfillReversedAt | apps/accounting/migrations/0003_ledgerentry_reversed_at.py:4-18 | each unstamped original gets the time of its first reversal, nothing else changes |
| Backfill.BackfilledIs | apps/accounting/migrations/0003_ledgerentry_reversed_at.py:4-18 | a row stamped before or never reversed stays as it was; any other gets the creation time of its first reversal |
| Backfill.BackfillEstablishesMatching | apps/accounting/migrations/0003_ledgerentry_reversed_at.py:4-18 | afterwards the stamps mark exactly the reversed entries, and pointers that matched still match |
| Money.HalfEvenIsNearest | apps/accounting/services.py:63-67 | quantizing is off by at most half a cent, and ties land on even cents |
| Money.HalfEvenMonotone | apps/accounting/services.py:63-67 | of two amounts the larger is never rounded to less |
| Money.SmallestAmount | apps/accounting/services.py:103-105 | an amount counts as greater than zero exactly when it is above half a cent |
| Outcomes.RefusedAsTooSmall | apps/accounting/services.py:103-105 | a posting is accepted only for more than half a cent, and a number is called a bad amount only up to that |
| Outcomes.LargerAmountsPostMore | apps/accounting/services.py:103-137 | of two accepted postings alike but for the amount, the larger amount posts no smaller row |
| Money.BalanceIsExact | apps/accounting/services.py:121-122 | quantizing a balance never rounds |
| Money.SuggestedAmountIsFair | apps/accounting/selectors.py:328-339 | an offer without a price suggests nothing; any other suggests the cent nearest to price times quantity, the upper of two, grows with the quantity, and passes the second quantize unchanged |
| Money.SuggestedAmountGrowsWithPrice | apps/accounting/selectors.py:328-339 | a dearer offer never suggests less |
| PurchaseRequests.EveryRunIsConsistent | apps/purchase_requests/services.py:91-235 | over every run one open quote per request and seller, one accepted offer per request and no open quote beside it, accepted implies the request ended, closed implies accepted, and accepted terms never change |
| PurchaseRequests.ClosedMeansExactlyOneAccepted | apps/purchase_requests/services.py:189-201 | a closed request has exactly one accepted offer and no open one |
| PurchaseRequests.SubmissionLeavesOneQuote | apps/purchase_requests/services.py:113-143 | after a submission the seller has exactly one open quote, on the new terms, which is the open one from before if there was one; every other offer and request is as before and the request counts as offered |
| PurchaseRequests.AcceptanceSettlesTheRequest | apps/purchase_requests/services.py:189-201 | accepting closes the request, rejects every open rival on it, keeps the terms, and touches no other offer or request |
| PurchaseRequests.RejectionLeavesTheRest | apps/purchase_requests/services.py:189-193 | rejecting rejects that offer on its terms and touches no other offer and no request |
| PurchaseRequests.DecisionIsFinal | apps/purchase_requests/services.py:189-193 | through any later run a decided offer keeps its decision and terms, so a rejected one is never accepted |
| PurchaseRequests.DecidedIff | apps/purchase_requests/services.py:172-190 | a call settles an offer if and only if a member who responds for the requesting business decides an open offer while both businesses are active; what the others are told, and that nothing moves for them |
| PurchaseRequests.QuotedIff | apps/purchase_requests/services.py:102-122 | who may quote on which request and on which terms, if and only if, and what the others are told |
| PurchaseRequests.CreatedIff | apps/purchase_requests/services.py:47-84 | who may open a request, and that it starts open and moves nothing else |
| PurchaseRequests.CancelledIff | apps/purchase_requests/services.py:227-235 | who may cancel a request, whatever its status, and that nothing else moves |
| PurchaseRequests.CancelledUntilAccepted | apps/purchase_requests/services.py:165-235 | on consistent tables a cancelled request stays cancelled over a call if and only if the call is not a permitted acceptance of one of its open offers |
| PurchaseRequests.ACancelledRequestCanStillBeAccepted | apps/purchase_requests/services.py:227-235 | on all consistent tables cancelling leaves the open quotes, and any of them between active businesses can then be accepted, which closes the request |
| PurchaseRequests.OfferDesk.SubmitPrivateOffer | apps/purchase_requests/services.py:91-162 | the service refines the specified step and keeps the desk consistent |
| PurchaseRequests.OfferDesk.DecideOffer | apps/purchase_requests/services.py:165-206 | the same for accepting, with the bulk rejection of rivals, and for rejecting |
| PurchaseRequests.OfferDesk.ClosePurchaseRequest | apps/purchase_requests/services.py:227-235 | the same for cancelling |
| Composition.PostingKeepsOneTradeIff | apps/accounting/services.py:113-137 | an accepted posting keeps "one live trade per business and request" if and only if it is no trade for a request the business has a live trade of |
| Composition.DoublesMeans | apps/accounting/services.py:113-137 | such a posting, said of the rows: an accepted sale or purchase for an offer, while an unreversed sale or purchase of the business names an offer on the same request |
| Composition.StepKeepsOneTradeIff | apps/accounting/services.py:79-337 | any call keeps that rule if and only if it is no such posting; reversals, contact edits and offer calls always do |
| Composition.EveryRunKeepsOneTradeIff | apps/accounting/services.py:79-337 | the rule holds at every point of a run if and only if no call of the run is such a posting |
| Composition.TradesAloneNeverDouble | apps/accounting/services.py:214-235 | while only accepted offers have been recorded, an accepted trade posting never is one |
| Composition.StepKeepsAcceptedTrades | apps/accounting/services.py:113-117 | a successful call keeps all recorded trades on accepted offers if and only if it is not a direct trade post naming another offer |
| Composition.EveryGuardedRunHasOneTradePerRequest | apps/accounting/services.py:214-235 | over every run whose direct posts name no offer or an accepted one, as all calls of the program do, only accepted offers are recorded and a business holds at most one live trade per request |
| Composition.PostEntryCanRecordASecondTrade | apps/accounting/services.py:113-137 | a run in which a direct post for a rejected offer gives the buyer two live trades for one request |
| Composition.CounterpartyIsMutual | apps/accounting/selectors.py:301-307 | the parties of an offer are each other's counterparty and nobody is their own |
| Composition.CounterpartyIs | apps/accounting/selectors.py:301-307 | the seller's counterparty is the requesting business, that one's is the seller, and nobody else has one |
| Composition.LinkedContactIsSuggested | apps/accounting/selectors.py:310-325 | a contact is suggested exactly when it is the business's own, active and linked to the counterparty; the case of several never arises |
| Contacts.StepKeeps | apps/contacts/services.py:34-161 | every call keeps one contact per business and linked business, and moves no contact to another business |
| Contacts.LinkIsHeldByOne | apps/contacts/services.py:62-137 | after an accepted create or update the contact holds exactly the link asked for, nobody else holds it, and other rows are untouched; a new contact starts active |
| Contacts.EditedIff | apps/contacts/services.py:24-121 | who may create or edit a contact with which name and link, if and only if, and what the others are told; a link needs another active business that no other own contact carries |
| Contacts.ArchivedIff | apps/contacts/services.py:140-161 | who may archive or restore a contact, and that only its flag moves |
| Contacts.RestoreUndoesArchive | apps/contacts/services.py:140-161 | restoring gives back the very rows from before archiving, and archiving is idempotent |
| Contacts.ContactList.UpdateContact | apps/contacts/services.py:98-137 | the service refines the specified step and keeps links unique |
| Contacts.ContactList.CreateContact | apps/contacts/services.py:61-95 | the same for creating |
| Contacts.UnlinkDuplicatePartnerLinks | apps/contacts/migrations/0002_uniq_linked_business_per_business.py:4-28 | exactly the contacts that are not the oldest of their pair lose their link, and no other field changes |
| Contacts.MigrationEstablishesUniqueness | apps/contacts/migrations/0002_uniq_linked_business_per_business.py:4-28 | afterwards no pair has two contacts |
| Contacts.MigrationKeepsEveryPair | apps/contacts/migrations/0002_uniq_linked_business_per_business.py:4-28 | every pair linked before is still linked by its oldest contact, the lower id among equals, and all its others lose the link and nothing else |
| Contacts.MigrationSparesUnlinkedContacts | apps/contacts/migrations/0002_uniq_linked_business_per_business.py:4-28 | contacts without a link are untouched |
| Pricing.CollectVisible | apps/pricing/services.py:70-101 | whatever order the rows were fetched in, the loop builds the right price map exactly when no visible row is missing from the fetch, and never shows a tier the audience may not see |
| Pricing.TierPrefetchCovers | apps/marketplace/selectors.py:27-58 | a tier prefetch serves an audience exactly when the lot has no visible price on a tier left out |
| Pricing.ContactPriceRow | apps/pricing/services.py:104-131 | the first-match loop finds the viewer's override in the viewer's own fetch in any order, and never another's in any fetch |
| Pricing.AtMostOneApplies | apps/pricing/services.py:112-131 | at most one override row applies to a lot and viewer |
| Pricing.ResolvePricesForViewer | apps/pricing/services.py:156-172 | prefetched or queried, the result is a price map of the viewer |
| Pricing.PriceMapIsUnique | apps/pricing/services.py:156-172 | the viewer's price map is determined by the rows, so both paths return the same |
| Pricing.OverrideShownExactlyToItsPartner | apps/pricing/services.py:134-153 | an override is in the map exactly for a signed-in partner it was made for |
| Pricing.PartnerPaysOwnOverride | apps/pricing/services.py:175-183 | a partner with an override is charged the override |
| Pricing.PublicSeesOnlyRetail | apps/catalog/services.py:30-44 | the public price is the lot's active retail row, or none |
| Viewers.PartnerSees | apps/pricing/services.py:38-43 | a partner's map holds `b2b` exactly when the lot has an active partner price, with that row's figures, and nothing but it and the override: never `b2c` |
| Viewers.PublicSees | apps/pricing/services.py:38-43 | the public's map holds `b2c` exactly when the lot has an active retail price, and nothing else |
| Viewers.StaffSee | apps/pricing/services.py:70-101 | staff who may view prices, and the platform's own, see both active tiers and no override; other staff see nothing |
| Viewers.PartnerPays | apps/pricing/services.py:53-58 | a partner's price is the override made for it, else the active partner price, else none, which the marketplace shows as an inquiry |
| Viewers.StaffPriceIs | apps/pricing/services.py:175-183 | staff are shown the partner price before the retail price |
| Viewers.PublicPriceIs | apps/pricing/services.py:175-183 | the public is shown the retail price or none |
| Viewers.MarketplacePrefetchCovers | apps/marketplace/selectors.py:27-58 | prefetching partner prices only is enough for every partner, and for staff exactly on lots without an active retail price |
| Pricing.OthersKeepTheirPrices | apps/pricing/services.py:207-269 | setting or removing one contact's override changes no other viewer's price map, anonymous ones included, and no other lot's |
| Pricing.OtherAudiencesKeepTheirPrices | apps/pricing/services.py:272-301 | pricing a lot on one tier changes no map of an audience without that tier |
| Pricing.PriceBook.SetContactPrice | apps/pricing/services.py:207-253 | succeeds exactly for a permitted member, own lot and contact and a positive amount, replaces the one row of that contact and lot, and keeps the price constraints |
| Viewers.MayPriceIff | apps/pricing/services.py:186-204 | overrides are set and removed by members who edit prices, on own lots, for own contacts; what the others are told |
| Viewers.OverrideIsStoredAs | apps/pricing/services.py:219-234 | an override is stored to the nearest cent if above half a cent and within its column, and as nothing for inquiry |
| Pricing.PriceBook.SetLotPrice | apps/pricing/services.py:272-301 | the same for tier prices, with the default tiers |
| Viewers.DefaultTiersAreEnsured | apps/pricing/services.py:65-67 | both default tiers exist afterwards, a missing one switched on, and a tier that was there is as it was |
| Freshness.TransitionMeaning | apps/inventory/freshness.py:59-104 | however the thresholds are ordered, a lot is hidden past the longest, asks for confirmation from the first to the longest, and never returns from hidden |
| Freshness.ScanMeaning | apps/inventory/tasks.py:16-39 | what a scan makes of each lot: archived, unconfirmed, finished and reserved lots and those of inactive businesses stay; others are hidden past all three thresholds, need confirmation past the first, are on offer up to it |
| Freshness.CountedLots | apps/inventory/tasks.py:22-33 | the lots a scan counts: unarchived ones of active businesses that are not sold, in draft or expired |
| Freshness.LevelMeaning | apps/inventory/freshness.py:59-76 | which level a lot shows, for thresholds in any order |
| Freshness.ConfirmationLasts | apps/inventory/models.py:159-163 | a confirmed lot is on offer again if it was waiting for that, and no scan touches it for the first days of the policy |
| Freshness.ScansCollapse | apps/inventory/tasks.py:16-39 | scanning and scanning again later is scanning once, later |
| Freshness.OnlyTheLastScanCounts | apps/inventory/tasks.py:16-39 | of any number of scans in a row only the last one counts |
| Freshness.RescanUpdatesNothing | apps/inventory/tasks.py:16-39 | an immediate second scan visits the same lots and updates none |
| Freshness.ConfirmationForgetsATransition | apps/inventory/models.py:159-163 | when a confirmation comes between, exactly which missed transition can be noticed later |
| Freshness.HiddenStaysHidden | apps/inventory/models.py:159-163 | no run of scans and confirmations brings a hidden lot back |
| Freshness.Inventory.EvaluateInventoryFreshness | apps/inventory/tasks.py:16-39 | the nested loops apply the transition to every eligible lot once; the counters are the numbers of eligible and of changed lots |
| Otp.EveryHourIsRationed | apps/accounts/services.py:76-83 | over every run any hour, both ends counted, holds at most the configured number of challenges of a phone |
| Otp.ChallengesAreSpaced | apps/accounts/services.py:66-74 | over every run two challenges of a phone are at least the cooldown apart |
| Otp.GuessesAreBoundedAndLoginsSingle | apps/accounts/services.py:138-155 | over every run a challenge takes at most the configured number of wrong codes and yields at most one login |
| Otp.EveryRunIsTallied | apps/accounts/services.py:141-155 | the stored counters are the answers given: attempts counts wrong codes, used marks the one login |
| Otp.LoginsWereRequested | apps/accounts/services.py:124-155 | every login was preceded by a request of that phone for that code, within its lifetime |
| Otp.LoginIff | apps/accounts/services.py:118-155 | a code logs in if and only if it is of digits and is that of the phone's newest unused challenge, in time, with attempts left, and the account is not switched off; what the others are told |
| Otp.VerifyLeaves | apps/accounts/services.py:138-155 | a login uses the challenge up and leaves an active account logged in now, a wrong code costs one attempt, anything else changes nothing |
| Otp.RequestedIff | apps/accounts/services.py:61-101 | a request gets a code if and only if the number is a mobile one, its last challenge is a cooldown ago and its last hour is not full; then one unused challenge with all attempts is added, otherwise nothing |
| Otp.OtpService.RequestLoginOtp | apps/accounts/services.py:61-115 | the service refines the specified step; a code that could not be sent is stored all the same |
| Otp.OtpService.VerifyLoginOtp | apps/accounts/services.py:118-156 | the same, with the rollback for an inactive account |
| Catalog.CardinalityTest | apps/catalog/services.py:121-124 | comparing two counts decides whether every id is an own unarchived lot and none is spelled twice |
| Catalog.CustomCatalog.SetCatalogLots | apps/catalog/services.py:87-141 | on failure the catalog is unchanged; on success it holds the first occurrences of canonical ids, numbered from 0 |
| Catalog.AcceptedIff | apps/catalog/services.py:101-124 | a call is accepted if and only if a manager of the business's catalogs asks for own unarchived lots only, none in two spellings and nothing that is no id; what the others are told |
| Catalog.AttachedInOrder | apps/catalog/services.py:126-139 | the lots are numbered in the order in which the request first names each |
| Catalog.CustomCatalog.KeepFirst | apps/catalog/services.py:126-132 | the loop keeps the first occurrence of each canonical id |
| Catalog.FirstOccurrencesKeepOrder | apps/catalog/services.py:126-132 | the lots come in the order in which each was asked for first |
| Catalog.FirstOccurrencesAreTheMembers | apps/catalog/services.py:126-132 | each requested lot once, none missing |
| Catalog.CanonicalIdsAreAttached | apps/catalog/services.py:94-99 | for canonical ids a permitted call succeeds exactly when every lot is own and unarchived, and attaches exactly those, each once |
| Catalog.NothingDroppedIff | apps/catalog/services.py:121-132 | a successful call attached all it was asked for exactly when every id was canonical |
| Catalog.AnAcceptedRequestCanAttachNothing | apps/catalog/services.py:121-132 | one owned lot in another spelling is accepted and leaves the catalog empty |
| Slug.FindSlug | apps/businesses/models.py:54-63 | the loop ends within one probe more than there are taken slugs, with a free slug of the smallest suffix |
| Slug.FirstFreeIs | apps/businesses/models.py:54-63 | that is the base itself when free, and otherwise the base with the smallest decimal numeral from 2 on that makes it free |
| Slug.FirstFreeIsUnique | apps/businesses/models.py:54-63 | that slug is determined by the base and the taken slugs |
| Slug.TakenCandidatesAreFew | apps/businesses/models.py:54-63 | n taken candidates need n taken slugs |
| Slug.CandidatesDiffer | apps/businesses/models.py:58-62 | different counters give different candidates |
| Slug.ParseOfDecimal | apps/businesses/models.py:60 | the printed counter can be read back |
| Slug.DecimalOfParse | apps/businesses/models.py:60 | every numeral without a leading zero is the print of the number it stands for |
| Slug.TakenMeans | apps/inventory/models.py:53 | a slug is taken by another row of the same scope, never by the row being saved |
| Slug.SlugTable.Save | apps/inventory/models.py:48-57 | a first save without a slug always succeeds with the first free one; slugs stay unique within their scope |

## Left out

- PurchaseRequests.OfferDesk.DecideOffer: each offer call is one atomic step on current rows; the source takes no lock there, so races between offer calls are not modelled.
- Concurrency.EveryInterleavingIsSerial: contact edits and offer calls interleave as single steps; their own row writes do not contend with the posting lock in the model, and clock order per contact is assumed to be commit order.
- Contacts.UnlinkDuplicatePartnerLinks: the ordered query is a precondition on the rows it returns; ties in creation time fall to the lower id.
- Otp.OtpService.VerifyLoginOtp: calls run one at a time; two verifications racing on one challenge are not modelled. Codes stand for their hashes, and whether a code consists of digits, Unicode ones included, is a parameter.
- Pricing.PriceBook.SetContactPrice: an unknown unit code cannot be written in the model, and an empty currency is not replaced by the default.
- Pricing.PriceBook.SetLotPrice: the amount is already in cents when it arrives.
- Freshness.Inventory.EvaluateInventoryFreshness: thresholds arrive as integers; settings that are no numbers, or days beyond the range of a time difference (999999999), either of which would abort the scan, are left out.
- Slug.SlugTable.Save: slugifying, and the column's maximum length, are left out.
- Money.HalfEvenIsNearest: NaN and infinite amounts are not modelled; a number too long for the decimal context or its column is an error.
- Deleting rows, cascades, SET_NULL and edits through the admin site bypass the services and are not modelled.
- Descriptions, references, currencies of ledger rows, labels, notifications, messages and logging have no effect on what is proved.
- Role tables: a capability is a boolean of the member.
- The display order of contact balances, the settled and creditor filters, and the row counts of the summary would only add easy members.
- Views, forms, sessions, SMS delivery, share tokens, media, search filters and storefront pages are not part of this model.
- The visibility gate of the marketplace query is a plain filter; only its prefetch of prices is modelled.
