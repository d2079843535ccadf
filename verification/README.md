# Rent management backend: lease, limiter, payment and reminder models

This project models the stateful core of the rent management backend in Dafny and proves what
that code keeps over every run, for all inputs.

- **Leases** (`LeaseRanges`, `LeaseModel`, `LeaseSteps`, `LeaseTheorems`, `LeaseReplies`,
  `LeaseRows`, `LeaseOffers`, `RenewalTheorems`, `LeaseWitnesses`, `LeaseService`, `LeaseViews`, `LeaseList`). The nine lifecycle requests are a state
  machine over the leases, renewal offers, closeouts and units tables, write by write; any database
  call may fail, and what the earlier writes of the request left behind is part of the state. The store
  comes in two kinds: with the EXCLUDE and CHECK constraints that the lease model documents, and without
  them, as the development auto-migration creates it. `LeaseService` holds the service and the
  repository as objects whose methods are proved to be the steps of the machine.
- **Rate limiter** (`RateLimit`, `RateLimitTheorems`). The swept map of token buckets against one
  never-evicted bucket per client.
- **Payments** (`PaymentModel`, `PaymentSummary`, `ProviderEvents`, `PaymentService`, `Ledger`). Query
  results and their Go merges against direct sums, the provider's status machine, tenant balances.
- **Reminders** (`Calendar`, `ReminderQuery`, `ReminderWorker`). The two-branch candidates query with its
  calendar arithmetic, and the worker's log.
- **Supporting pieces** (`ManagerAssignments`, `Phone`, `Template`, `Text`, `Common`).

Instants are nanoseconds on one UTC time line and money is in whole minor units. A request carries its
clock reading, the verdicts of the role and building gates, the ids the database will choose and the
calls that fail.

## Where the code stops short of its promise

Each of these has a lemma with the exact condition, on what is there before the request, and a lemma at
an input that meets it; the code is modelled as it is. "Taken" (`Takes`) means that the request
goes through its gates and checks (`GoesThrough`) and, in the store with constraints, that these permit
it (`Permitted`).

- `Approve` and `AcceptRenewalOffer` make no overlap check. Without the constraints a request keeps
  leases disjoint exactly when it is `Safe` (`UncheckedStepExact`, `UncheckedRunExact`). Input:
  `ApprovalCanOverlap`.
- `Create` checks the primary flag that was asked for, but the ORM stores a false flag as the column's
  default, true. So a request for an active secondary lease skips the overlap check and is stored as
  primary. It is unsafe exactly when its range meets a live lease of the unit (`CheckedRequestsExact`);
  with the constraints it is then refused as an internal error (`SkippedCheckOutcome`). Input:
  `SecondaryCreateCanOverlap`.
- "No end" is the last nanosecond of the year 9999, so the overlap check is blind to a clash between an
  unbounded range and one that starts at or after it (`RangesOverlapExact`). Input:
  `FarFutureCreateCanOverlap`.
- The occupancy column can be wrong after a request that did not succeed. `ColumnExact` says exactly
  when, for every request, both stores and any failing calls. Input, with the constraints and no failing
  call: `AcceptanceCanStrandUnit`.
- With the constraints an acceptance succeeds exactly when the offered range is well ordered and meets no
  live lease but one it retires, and a hasty offer, at most a second after the lease's start, retires
  nothing (`AcceptanceOutcome`). Otherwise the offer is spent for good (`AcceptanceSettlesOffer`). Input:
  `AcceptanceCanStrandUnit`.
- A tenant can reject an offer after accepting it. The request succeeds, the offer reads declined, and
  the lease it gave rise to stands; no other request changes a decided offer (`SpentOfferChanges`). Input:
  `AcceptedOfferCanBeRejected`.
- A closeout leaves its row without ending the lease, which can then never be closed out, exactly when
  the lease's update fails or the constraints refuse a move-out no later than the start (`CloseoutExact`).
  Input: `BackdatedCloseoutJams`.
- An ended lease is not final. It leaves that status exactly by an approval, a rejection, or a patch that
  names another status (`EndedLeavesExactly`, `EndedForGood`). Input: `ApprovalRevivesEndedLease`.
- The summary window is one month short exactly when the month it should start in lacks today's day
  number (`WindowLength`). Input: `ShortWindow`.
- A patch that changes only a manager's building ids changes nothing, and a patch of a manager that
  names no ids removes all assignments; either request can store part of what it asks for and report an
  error (`RequestExact`, `PatchedAssignments`). Inputs: `PatchesMislead`.
- A tenant statement counts payments that are pending or failed. It shows the charges less the money
  received exactly when every payment of the tenant is completed (`StatementIsMoneyReceived`). It also
  adds amounts of different currencies; they are of one exactly when the tenant's charged leases and
  payments are (`StatementCurrency`). Input: `StatementCanMislead`.
- A page number whose offset is no int64 wraps, and can return rows from a page past the end; which ones,
  and when none, `PagePastEnd` says. Input: `HugePageWraps`.
- After an initiated payment an event reaches it exactly when it quotes a reference of the stored row and
  no payment earlier in key order matches it (`Initiate`). The stored row has the gateway's references
  only if storing them did not fail, and otherwise, as where the gateway gives none, a placeholder that
  payments of one second share. Input: `SharedReferenceReachesFirst`.
- The worker ignores failing log calls. A reminder goes out at most once exactly when there is one attempt
  at most, or the first is logged and every later one reads the log (`DeliveriesExact`), and one run alone
  never repeats it (`OneRunNeverRepeats`). Input: `LostLogWriteRepeats`.

## Model

| member | source | states |
|---|---|---|
| LeaseRanges.MeetsIffSharedInstant | internal/modules/leases/model.go:23-26 | the constraint's range test is true exactly when some instant lies in both half-open ranges, no end meaning unbounded |
| LeaseRanges.RangesOverlapExact | internal/modules/leases/validator.go:11-35 | on any two ranges: the service's test and the date-order check of both hold iff the ranges share an instant and neither is unbounded while the other starts past the sentinel |
| LeaseRanges.SentinelDate | internal/modules/leases/validator.go:8-15 | the service's stand-in for no end is the last instant of December 9999 |
| LeaseRanges.ActiveOnDayExact | internal/modules/leases/repository.go:76-81 | the active_on filter selects exactly the leases covering an instant of the day, and equals the service's overlap test with that day |
| LeaseModel.LeaseToUpdates | internal/modules/leases/service.go:772-847 | for every row, applying the column map gives the merged row that was validated, up to the audit column; the map is empty iff the patch and the user are |
| LeaseService.OverlapsActivePrimaryLease | internal/modules/leases/validator.go:37-50 | the loop answers whether some live lease of the list overlaps the candidate |
| LeaseService.Repository.ActivePrimaryLeasesForUnit | internal/modules/leases/repository.go:137-150 | returns exactly the live leases of the unit in the organization other than the excluded id |
| LeaseService.Repository.CountActiveLeasesOnUnit | internal/modules/leases/repository.go:152-159 | the count, positive iff the unit has an active lease |
| LeaseService.Repository.Update | internal/modules/leases/repository.go:130-135 | writes the named columns of the one row; nothing when the call fails or a constraint refuses the row, and success with nothing written when no row matches |
| LeaseService.Repository.Create | internal/modules/leases/repository.go:114-117 | inserts the row with column defaults in place of zero values, so never as secondary; nothing when the call fails, the id exists or a constraint refuses it |
| LeaseService.Service.AssertNoPrimaryActiveOverlap | internal/modules/leases/service.go:743-755 | clear iff no other live lease of the unit overlaps the candidate |
| LeaseService.Service.SyncUnitOccupancy | internal/modules/leases/service.go:757-770 | rederives the unit's status from the leases, or fails and writes nothing |
| LeaseService.Service.Create | internal/modules/leases/service.go:88-169 | the imperative request is the Create step of the state machine, replies and partial writes included |
| LeaseService.Service.Patch | internal/modules/leases/service.go:210-285 | the same for Patch, through the column map; the second unit resync is unreachable |
| LeaseService.Service.End | internal/modules/leases/service.go:287-343 | the same for End |
| LeaseService.Service.Approve | internal/modules/leases/service.go:345-380 | the same for Approve |
| LeaseService.Service.Reject | internal/modules/leases/service.go:382-417 | the same for Reject |
| LeaseService.Service.CreateRenewalOffer | internal/modules/leases/service.go:463-511 | the same for CreateRenewalOffer |
| LeaseService.Service.AcceptRenewalOffer | internal/modules/leases/service.go:513-590 | the same for AcceptRenewalOffer, with the ignored failure of the old lease's update |
| LeaseService.Service.RejectRenewalOffer | internal/modules/leases/service.go:592-640 | the same for RejectRenewalOffer |
| LeaseService.Service.Closeout | internal/modules/leases/service.go:642-705 | the same for Closeout |
| LeaseTheorems.DisjointIffOneLeaseAtATime | internal/modules/leases/model.go:23-26 | pairwise disjointness means no unit has two live leases at any instant |
| LeaseTheorems.OneWrite | internal/modules/leases/service.go:88-417 | every request but an acceptance writes at most one lease row, after its checks |
| LeaseTheorems.EnforcedRun | internal/modules/leases/model.go:23-26 | with the constraints, every run keeps live leases of a unit disjoint and all rows well ordered, whatever fails on the way |
| LeaseTheorems.CheckLeavesBlindClashes | internal/modules/leases/service.go:743-755 | a row that passed the overlap check clashes with a live lease iff it does so past the sentinel |
| LeaseTheorems.UncheckedStepExact | internal/modules/leases/service.go:345-380 | without the constraints a request keeps disjointness iff it is safe: if it goes through, the live lease it leaves meets no other of the unit, which for an approval or acceptance is about the activated range and for a Create about the row as stored |
| LeaseTheorems.OneRowExact | internal/modules/leases/service.go:88-705 | a request other than an acceptance writes its lease row iff it is taken, and succeeds iff the unit can be rederived too, in both stores |
| LeaseTheorems.AcceptanceExact | internal/modules/leases/service.go:541-576 | an acceptance that spends its offer retires the old lease and adds the new one, each iff the tables before it say so |
| LeaseTheorems.UncheckedRunExact | internal/modules/leases/service.go:513-590 | without the constraints a run is disjoint throughout iff each request is safe at its time |
| LeaseTheorems.CheckedRequestsExact | internal/modules/leases/service.go:135-137 | a request other than an approval or acceptance is safe iff it is no Create that skips the check on an occupied range and its row does not clash past the sentinel, which no row does while all starts lie before the year 10000 |
| LeaseTheorems.LeasesStayPut | internal/modules/leases/service.go:809-847 | no request deletes a lease, changes its organization, unit or tenant, or touches another unit's leases |
| LeaseTheorems.UnitsStep | internal/modules/leases/service.go:757-770 | a failed request changes no unit row; a successful one changes at most its subject's, whose status it derives |
| LeaseTheorems.OccupancyRun | internal/modules/leases/service.go:757-770 | over every run of successful requests a unit is occupied iff an active lease is on it |
| LeaseReplies.RepliesExact | internal/modules/leases/service.go:88-705 | for all nine requests, both stores and any failing calls: success iff taken and the unit rederived, or a patch with nothing to write |
| LeaseReplies.ConstraintsRefuseTheUnlawful | internal/modules/leases/model.go:23-26 | of the requests that go through, the constraints refuse exactly those after which the other store would be unlawful |
| LeaseReplies.SkippedCheckOutcome | internal/modules/leases/service.go:126-139 | every Create that skips the check on an occupied range is refused with the constraints, and stored as an overlap without them |
| LeaseReplies.ColumnExact | internal/modules/leases/service.go:757-770 | after any reply of any request the column agrees with the leases iff a condition on the tables before it holds, and after every success it does |
| LeaseReplies.StandingAfter | internal/modules/leases/service.go:88-705 | a request leaves each lease at the unit, tenant, status, range and primary flag it asks for it, or as it stood |
| LeaseReplies.SecondaryOnlyByPatch | internal/modules/leases/model.go:41 | over every run a lease that ends up secondary was so at the start or was named by a patch with a false flag |
| LeaseReplies.EndedLeavesExactly | internal/modules/leases/service.go:345-417 | an ended lease leaves that status iff an approval, a rejection or a patch naming another status is taken |
| LeaseReplies.EndedForGood | internal/modules/leases/service.go:345-417 | over every run without such a request for it an ended lease stays ended |
| LeaseRows.StatusWords | internal/modules/leases/service.go:894-902 | a requested status is each of the six exactly when its trimmed lower-case form is that word |
| LeaseRows.CreateStores | internal/modules/leases/service.go:122-160 | a taken Create stores the status its word names, pending approval for any other word, and every other column as asked or defaulted; nothing else changes |
| LeaseRows.PatchStores | internal/modules/leases/service.go:236-285 | a taken Patch that names a status names one of the six words and stores it; each column is the named value or the old one |
| LeaseRows.DecisionStores | internal/modules/leases/service.go:313-417 | a taken approval or rejection sets that status alone, and an End the status and a later end |
| LeaseRows.SuccessIsAllowed | internal/modules/leases/service.go:88-705 | success needs the gates: role and organization always, the lease's own tenant for a tenant's decisions, the building gate otherwise, and for a decision the offer of that lease |
| LeaseRows.ActivatesExactly | internal/modules/leases/service.go:88-590 | a lease becomes active iff an approval, an acceptance adding it, or a Create or Patch whose word reads active is taken |
| LeaseRows.ActiveOnlyByWord | internal/modules/leases/service.go:88-590 | over every run an active lease was so at the start or was named by such a request |
| LeaseRows.UnitStores | internal/modules/leases/service.go:757-770 | a success that wrote a lease leaves its unit occupied or vacant as an active lease is on it or not, and every other unit as it was |
| LeaseOffers.OfferStores | internal/modules/leases/service.go:486-511 | a successful request adds exactly one open offer for the lease, with the requested range and rent and the requested or the lease's currency |
| LeaseOffers.OfferTermsKept | internal/modules/leases/service.go:463-640 | no request removes an offer or changes its lease, range, rent or currency |
| LeaseOffers.OffersAreAsRequested | internal/modules/leases/service.go:486-511 | over every run each new offer has the terms of the request that made it |
| LeaseOffers.RenewalIsAsRequested | internal/modules/leases/service.go:558-573 | over every run a lease that an acceptance adds has the range and rent of the request that made the offer, for the lease that request named, on its unit and for its tenant |
| RenewalTheorems.OneLeasePerOffer | internal/modules/leases/service.go:541-573 | in every run, with any failures, an offer gives rise to at most one lease, and none once decided |
| RenewalTheorems.SpentOfferChanges | internal/modules/leases/service.go:592-620 | a decided offer changes status iff it was accepted and its tenant's rejection goes through, which succeeds and changes no lease |
| RenewalTheorems.RetiredLeaseEndsBeforeRenewal | internal/modules/leases/service.go:552-557 | retiring sets status, acting user and range alone; a later offer shares no instant with the retired lease, which stays well ordered iff the starts differ by more than a second |
| RenewalTheorems.AcceptanceOutcome | internal/modules/leases/service.go:541-576 | after an acceptance the offer is accepted, the old lease retired iff that update does not fail and the offer is not hasty, and a live lease on the offered range added iff the insert does not fail and the range is well ordered and meets no live lease but a retired one |
| RenewalTheorems.AcceptanceSettlesOffer | internal/modules/leases/service.go:541-573 | whatever follows, an offer whose acceptance began yields one lease iff that acceptance is taken, and otherwise none |
| RenewalTheorems.HastyRenewalIsRefused | internal/modules/leases/service.go:552-573 | with the constraints, a hasty offer on a range the live lease covers fails and changes no lease |
| RenewalTheorems.OneCloseoutPerLease | internal/modules/leases/model.go:72-86 | in every run a lease is closed out successfully at most once |
| RenewalTheorems.CloseoutExact | internal/modules/leases/service.go:662-690 | in both stores, a first closeout always leaves its row as asked and blocks later ones; it changes no lease iff the update fails or CHECK refuses the move-out, and succeeds iff neither and the unit is rederived |
| LeaseWitnesses.ApprovalCanOverlap | internal/modules/leases/service.go:364-367 | an approval that reports success and puts two live leases on one unit, without the constraints |
| LeaseWitnesses.SecondaryCreateCanOverlap | internal/modules/leases/model.go:41 | a Create of an active secondary lease that succeeds and overlaps without the constraints, and is refused with them |
| LeaseWitnesses.AcceptanceCanStrandUnit | internal/modules/leases/service.go:557-576 | an acceptance that loses its offer and leaves the column wrong, with the constraints and no database failure |
| LeaseWitnesses.FarFutureCreateCanOverlap | internal/modules/leases/validator.go:8-24 | a Create of a lease from the sentinel on passes the check and overlaps, without the constraints |
| LeaseWitnesses.BackdatedCloseoutJams | internal/modules/leases/service.go:669-690 | a closeout dated at the start fails with the constraints, and so does the corrected retry |
| LeaseWitnesses.ApprovalRevivesEndedLease | internal/modules/leases/service.go:357-367 | an ended lease is approved with success and is no longer ended |
| LeaseWitnesses.AcceptedOfferCanBeRejected | internal/modules/leases/service.go:592-620 | an accepted offer is rejected with success and its lease stands |
| LeaseViews.ActiveLeasesByUnitIDs | internal/modules/units/repository.go:98-119 | the loop computes the first-wins map of the rows |
| LeaseViews.UnitView | internal/modules/units/repository.go:98-119 | on newest-first rows a unit has an entry iff asked for and actively leased, and the entry is a latest-updated active lease |
| LeaseViews.CountsByTenant | internal/modules/tenants/repository.go:160-171 | the loop over the grouped rows computes each tenant's active count |
| LeaseViews.ActiveLeaseStats | internal/modules/tenants/repository.go:146-208 | the counts, and the loop that computes the labelled first-wins map |
| LeaseViews.TenantView | internal/modules/tenants/repository.go:146-208 | a tenant has a current unit iff its active count is positive, that of a latest-updated active lease, with the label found for it or a blank one |
| LeaseViews.ViewsAgreeWithOccupancy | internal/modules/units/repository.go:98-119 | after a run of successful requests the unit map has an entry iff the unit was asked for and is marked occupied, and every tenant's current unit is marked occupied |
| LeaseList.FromQuery | internal/api/pagination/pagination.go:21-35 | page and size are clamped into range and kept when already there |
| LeaseList.OffsetExact | internal/api/pagination/pagination.go:37-40 | the 64-bit offset is the number of earlier rows iff that number is an int64 |
| LeaseList.ListIsUnique | internal/modules/leases/repository.go:107-111 | the order is total: two answers to one query are equal and as long as the count |
| LeaseList.ListedInOrder | internal/modules/leases/repository.go:107-111 | the list runs from the latest start to the earliest, rows of one start in dictionary order of their ids |
| LeaseList.WantedExact | internal/modules/leases/repository.go:58-82 | a row is listed iff it passes each filter that is set |
| LeaseList.PagesPartition | internal/modules/leases/repository.go:58-112 | pages 1 to ceil(total/size), each cut by the code's offset from its own query, join to the whole list; later pages are empty while their offset is an int64; total is the filtered count |
| LeaseList.PagePastEnd | internal/api/pagination/pagination.go:37-40 | what any page past the end returns: rows at the wrapped offset, or the first page where that is negative; empty iff there are no rows or the wrapped offset is at least the total |
| LeaseList.HugePageWraps | internal/api/pagination/pagination.go:37-40 | the largest page number at the default size returns the first page |
| RateLimit.IpRateLimiter.Handle | internal/middleware/ratelimit.go:44-72 | one request sweeps, looks up or creates the bucket, stamps it and draws from it; without a positive rate everything passes |
| RateLimit.IpRateLimiter.SweepIdle | internal/middleware/ratelimit.go:49-56 | the loop drops exactly the entries idle for more than fifteen minutes, if there are more than 20000 |
| RateLimitTheorems.CallSitesAreSafe | internal/modules/sms/routes.go:9-14 | every call site's burst is at most what fifteen idle minutes refill, at every rate |
| RateLimitTheorems.CallSiteBursts | internal/middleware/ratelimit.go:23-42 | the burst each call site works with, in numbers |
| RateLimitTheorems.SweptExactly | internal/middleware/ratelimit.go:49-56 | with more than 20000 entries one is dropped iff it was last seen more than fifteen minutes ago, and otherwise none |
| RateLimitTheorems.BurstThenWait | internal/middleware/ratelimit.go:36-64 | requests made at once pass up to the burst, and the next one passes iff a whole token was refilled at rpm tokens in sixty seconds |
| RateLimitTheorems.IdleBucketsFullIffSafe | internal/middleware/ratelimit.go:49-56 | every evictable bucket is full again iff the burst bound holds |
| RateLimitTheorems.SweepIsInvisible | internal/middleware/ratelimit.go:44-64 | on every run with a steady clock each decision is that of the client's own never-evicted bucket |
| RateLimitTheorems.SweepIsInvisibleOnlyIfSafe | internal/middleware/ratelimit.go:44-64 | without the bound some run gets a different decision |
| RateLimitTheorems.WindowBound | internal/middleware/ratelimit.go:36-64 | in any window of any run a client is let through at most burst plus the window's refill times |
| Calendar.AddMonthsLands | internal/modules/payments/repository.go:181-182 | AddDate reaches the intended month iff that month has the day, and otherwise the month after |
| PaymentSummary.MergeByMonth | internal/modules/payments/service.go:239-255 | one point per month of the rows, each figure the sum over the month's rows |
| PaymentSummary.SummaryIsExact | internal/modules/payments/repository.go:184-208 | the de-duplicated rows of a month add up to the direct sums, and a month has a row iff it has a payment or charge |
| PaymentSummary.ChargeMoves | internal/modules/payments/repository.go:198-204 | a charge adds its amount to its month's outstanding figure alone, iff it is the organization's, due in the window and by now, and scheduled or posted |
| PaymentSummary.PaymentMoves | internal/modules/payments/repository.go:189-196 | a payment adds its amount to its month's collected figure if completed and pending figure if pending, iff it is the organization's and received in the window |
| PaymentSummary.ShownMonths | internal/modules/payments/repository.go:189-204 | a month is shown iff a payment of the organization was received or a charge due in it within the window |
| PaymentSummary.WindowExact | internal/modules/payments/repository.go:181-182 | an instant lies in the window iff its month is the window's first or a later one |
| PaymentSummary.Summary | internal/modules/payments/service.go:227-256 | one item per month with a payment or charge in the window, each figure equal to the direct sum |
| PaymentSummary.WindowLength | internal/modules/payments/repository.go:177-182 | the window has the requested number of months iff its first month has today's day number, and otherwise one less |
| PaymentSummary.ShortWindow | internal/modules/payments/repository.go:177-182 | on 31 May 2025 a four-month summary covers three months |
| ReminderQuery.LastDayIsMonthLength | internal/modules/payments/repository.go:276 | the SQL expression for the last day is the length of the month, leap years included |
| ReminderQuery.DueDayExists | internal/modules/payments/repository.go:270-284 | for every due day and month the clamped date is accepted, lies in the month, and is the wanted day, the first for less than one and the last for more than the month has |
| ReminderQuery.OpenChargesOnly | internal/modules/payments/repository.go:246-251 | a charge has a row iff it, its lease and tenant are the organization's, it is due before the month ends, and its status is blank or reads scheduled, posted, pending or unpaid |
| ReminderQuery.ChargeRowsExact | internal/modules/payments/repository.go:227-252 | the charge branch has the row of each such charge and no other |
| ReminderQuery.ChargeRowSays | internal/modules/payments/repository.go:227-242 | that row's amount, due time, level by days overdue, and channel |
| ReminderQuery.LeaseDueRowsSay | internal/modules/payments/repository.go:253-268 | a lease-due row's lease, amount, clamped due day, level and channel |
| ReminderQuery.ChargeRowsCount | internal/modules/payments/repository.go:227-252 | the charge branch counts one row per qualifying charge |
| ReminderQuery.ClosedChargeChangesNothing | internal/modules/payments/repository.go:246-295 | a charge of any other status changes no answer of the query |
| ReminderQuery.EveryLiveLeaseIsCovered | internal/modules/payments/repository.go:224-304 | the query never fails, covers every active or pending lease with a tenant row, and gives it exactly one lease-due row iff no charge of it due in the month is blank or reads one of the four words |
| ReminderQuery.OnlyLiveLeasesGetDueRows | internal/modules/payments/repository.go:268-284 | any other lease gets no lease-due row |
| ProviderEvents.Find | internal/modules/payments/repository.go:83-99 | the first payment in key order matching a non-blank reference, or none if there is none |
| ProviderEvents.StatusIsLastVerdict | internal/modules/payments/service.go:549-575 | after any events a payment has the status of the last event that decided about it and was stored, else its initial one |
| ProviderEvents.VerdictWords | internal/modules/payments/service.go:549-575 | which codes and words decide which status, and that nothing else decides |
| ProviderEvents.StatusIsAsLastRead | internal/modules/payments/service.go:444-478 | after any events a payment is completed, failed or pending as the last event stored for it with a known code or word reads, and otherwise has its initial status |
| ProviderEvents.EventStores | internal/modules/payments/repository.go:71-109 | what an event leaves in the provider's columns of the payment it reaches, and no other payment changes |
| ProviderEvents.EventsKeepMoney | internal/modules/payments/repository.go:71-109 | no events change a payment's id, organization, lease, amount, currency, method or receipt time |
| ProviderEvents.ReplayChangesNothing | internal/modules/payments/service.go:444-478 | delivering an event twice in a row, with the same updates failing, equals delivering it once |
| ProviderEvents.TargetExact | internal/modules/payments/repository.go:83-99 | an event reaches a payment iff that one matches and no earlier one does |
| ProviderEvents.SharedReferenceReachesFirst | internal/modules/payments/service.go:97 | of two payments with one placeholder reference an event that quotes it reaches the earlier in key order and leaves the later |
| ProviderEvents.EventMovesOneAmount | internal/modules/payments/repository.go:101-109 | an event moves at most one payment's whole amount between two status totals |
| PaymentService.Service.RecordManual | internal/modules/payments/service.go:151-225 | inserts a completed payment for a stored lease unless the insert fails, each column as asked or defaulted, received now if no time or the zero time is given, lowering that tenant's balance by its amount and no other |
| PaymentService.Service.Initiate | internal/modules/payments/service.go:46-149 | inserts a pending payment; the reply carries the gateway's references even if storing them fails; an event reaches the stored payment iff it quotes a stored reference and matches no earlier payment |
| PaymentService.Service.HandlePesapalIPN | internal/modules/payments/service.go:444-460 | the in-place update is the notification event, and a failing update is reported |
| PaymentService.Service.GetTransactionStatus | internal/modules/payments/service.go:469-478 | the two in-place updates, either of which may fail unnoticed, are the status-reply event |
| Ledger.TenantStatement | internal/modules/leases/service.go:731-739 | the loop's totals by kind and their difference |
| Ledger.TotalOfPermutation | internal/modules/leases/repository.go:304-306 | totals do not depend on the order of the rows |
| Ledger.StatementIsExact | internal/modules/leases/repository.go:273-315 | the outstanding amount is the signed sum of the tenant's ledger rows |
| Ledger.PaymentLowersOneBalance | internal/modules/leases/repository.go:291-303 | a new payment of any status lowers its lease's tenant's balance in that organization by its amount and no other balance |
| Ledger.ChargeRaisesOneBalance | internal/modules/leases/repository.go:281-290 | a new charge raises that one balance by its amount and no other; with no rows nothing is owed |
| Ledger.EventsMoveNoBalance | internal/modules/payments/service.go:444-478 | no provider events move any balance |
| Ledger.StatementIsMoneyReceived | internal/modules/leases/repository.go:291-303 | after any provider events a statement equals charges less completed payments iff the tenant's other payments sum to zero; with positive amounts, iff all are completed |
| Ledger.StatementCurrency | internal/modules/leases/service.go:731-739 | the rows are of one currency iff the tenant's charged leases and payments are, and then the outstanding amount is the difference of that currency's totals |
| Ledger.StatementCanMislead | internal/modules/leases/service.go:731-739 | a charge in dollars and a pending payment in shillings show nothing outstanding |
| Ledger.LeaseRunsMoveNoBalance | internal/modules/leases/service.go:88-705 | no run of lease requests moves any balance or detaches a ledger row |
| ReminderWorker.Worker.RunDueSoonReminders | internal/modules/billing/reminders.go:50-94 | the loop handles the rows one by one: skip if logged or not addressable, send, then log |
| ReminderWorker.PickChannelExact | internal/modules/billing/reminders.go:98-114 | which rows are sent as text messages |
| ReminderWorker.LogKeyInjective | internal/modules/billing/reminders.go:116-134 | the log key determines organization, charge and day |
| ReminderWorker.AtMostOneReminder | internal/modules/billing/reminders.go:50-94 | over any runs with a reliable log no charge is reminded of twice for one day |
| ReminderWorker.DeliveriesExact | internal/modules/billing/reminders.go:50-134 | over any runs with any failures a reminder goes out at most once iff every attempt after the first reads the log and, if there is one, the first wrote it; at all iff there is an attempt |
| ReminderWorker.OneRunNeverRepeats | internal/modules/billing/reminders.go:34-47 | a run that sees each charge once delivers a reminder at most once, whatever the log does |
| ReminderWorker.FailedReminderStaysEligible | internal/modules/billing/reminders.go:58-94 | over any runs without an attempt at it an unlogged reminder stays unlogged and undelivered, and the next attempt delivers it |
| ReminderWorker.LostLogWriteRepeats | internal/modules/billing/reminders.go:124-134 | with its log write lost a reminder goes out again in a second run of the day |
| ManagerAssignments.NormalizeStringIDs | internal/modules/users/service.go:386-398 | the loop computes the normal form |
| ManagerAssignments.NormalizedIsCanonical | internal/modules/users/service.go:386-398 | the normal form has the same non-blank trimmed ids, each once, in order of first mention |
| ManagerAssignments.NormalizedIdempotent | internal/modules/users/service.go:386-398 | normalising twice is normalising once |
| ManagerAssignments.CountDecidesMembership | internal/modules/users/service.go:400-409 | for any ids, count equals length iff they are distinct and all are buildings of the organization |
| ManagerAssignments.RequestExact | internal/modules/users/service.go:100-273 | for both requests with any failing calls: exactly when the user's row is stored, when the assignments are replaced and by what, and when the reply is success |
| ManagerAssignments.Service.Replace | internal/modules/users/repository.go:106-130 | for any ids: the user's rows become one per trimmed non-blank id, other rows kept in order, unless a call fails or such an id repeats, and then nothing changes |
| ManagerAssignments.Service.Create | internal/modules/users/service.go:121-142 | the imperative request is the Create step, user row stored before validation, failing calls included |
| ManagerAssignments.Service.Patch | internal/modules/users/service.go:204-273 | the imperative request is the Patch step, with its early return, failing calls included |
| ManagerAssignments.RunKeepsSound | internal/modules/users/repository.go:106-130 | over every run, whatever calls fail and buildings are added, assignment rows are duplicate free and name buildings of their own organization |
| ManagerAssignments.PatchedAssignments | internal/modules/users/service.go:220-263 | what a patch's ids come to, including that ids alone change nothing and missing ids clear a manager; a failed patch leaves the rows unless only its listing failed |
| ManagerAssignments.PatchesMislead | internal/modules/users/service.go:229-263 | an ids-only patch that succeeds and changes nothing, and a patch without ids that clears the manager and reports an error |
| Phone.NormalizePhone | internal/modules/sms/service.go:152-182 | the step-by-step rewriting computes the normal form |
| Phone.AcceptedExactly | internal/modules/sms/service.go:152-182 | an input is accepted as v iff v is + and 8 to 15 digits (section 6 of ITU-T E.164) and the stripped input writes v in one of four ways |
| Phone.NormalizedTwice | internal/modules/sms/service.go:152-182 | normalising is idempotent on success |
| Phone.SeparatorsDoNotMatter | internal/modules/sms/service.go:157-160 | inputs equal up to spaces, dashes and parentheses, with no other white space, have one outcome |
| Phone.InsertionIsHarmless | internal/modules/sms/service.go:152-182 | a separator inserted anywhere in a plainly spaced input leaves its outcome as it was |
| Template.MatchExact | internal/modules/sms/service.go:18 | the pattern matches at the start of a string exactly the well-formed placeholder printed there |
| Template.ParsePrints | internal/modules/sms/service.go:135-145 | every string is the print of its segments, and replacing gives their values in order |
| Template.ParseOfPrint | internal/modules/sms/service.go:135-145 | parsing undoes printing for brace-free literals and placeholders |
| Template.RenderExact | internal/modules/sms/service.go:130-150 | for every template: blank is refused, else the values of its segments, refused iff that holds both double braces, as a missing value always does |
| Template.RenderPrinted | internal/modules/sms/service.go:130-150 | a trimmed template of brace-free literals and placeholders with brace-free values renders iff every placeholder has a value, to literals and values in order |

## Left out

- Handlers, routes, configuration, logging and the audit log: input, output and wiring.
- Role and organization gates: their verdict is part of a request's context.
- The provider, SMS and mail clients: their replies are arbitrary inputs.
- Soft deletion, the microsecond rounding of stored timestamps, and any session time zone other than UTC.
- Letter case outside ASCII, white-space trimming of identifiers, and different spellings of one UUID.
- Floating-point rounding in the limiter: tokens are real numbers, with one clock reading per request.
- `to_char` month labels: a summary row carries the month itself.
- MethodSplit, SendReminders, ReminderHistory, lease history and the SMS bulk counters: they would add easy members.
- Buildings, organizations, tenants and users beyond assignments: field copies behind a gate.
- Direct writes of the unit status column by the units module, which the occupancy runs exclude.
- Concurrency between requests: each request is one step.
