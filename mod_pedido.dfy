/**
 * Order modification: requests to edit a confirmed order are queued by
 * priority, checked locally, applied to the `orders` table through its
 * time-gated atomic update with a bounded retry loop, fanned out to the
 * kitchen and the client, and counted in the outcome metrics.
 *
 * The worker is sequential. The clock readings, the latency of each request
 * and whether each notification succeeded are parameters.
 */
module ModPedido {

  import opened Wrappers
  import opened Text
  import opened Orders
  import opened Retry

  const MAX_RETRIES := 3
  const INITIAL_BACKOFF_MS := 250
  /** The quantity a request without a usable quantity sorts as. */
  const NO_QTY_KEY := 9999
  /** The order id of the shutdown signal. */
  const SENTINEL_ID := -1

  /** A modification request; `None` stands for a field the request leaves alone. */
  datatype ModEvent = ModEvent(
    urgent: bool,
    orderId: int,
    newClientName: Option<string>,
    newProduct: Option<string>,
    newSize: Option<string>,
    newQty: Option<int>,
    newPaymentMethod: Option<string>,
    reqId: string,
    requestedAt: int)

  // ---------------------------------------------------------------------
  // Priority
  // ---------------------------------------------------------------------

  /** The `sort_index` pair; tuples compare lexicographically. */
  datatype Key = Key(prio: int, qty: int)

  predicate KeyLe(a: Key, b: Key) {
    a.prio < b.prio || (a.prio == b.prio && a.qty <= b.qty)
  }

  predicate KeyLt(a: Key, b: Key) {
    a.prio < b.prio || (a.prio == b.prio && a.qty < b.qty)
  }

  function SortKey(ev: ModEvent): Key {
    var qty := if ev.newQty.Some? && ev.newQty.value > 0 then ev.newQty.value else NO_QTY_KEY;
    Key(if ev.urgent then 0 else 1, qty)
  }

  /** An urgent request is taken before any non-urgent one, whatever the quantities. */
  lemma UrgentFirst(a: ModEvent, b: ModEvent)
    requires a.urgent && !b.urgent
    ensures KeyLt(SortKey(a), SortKey(b))
  {
  }

  /** Among requests of equal urgency, the smaller positive quantity is taken first. */
  lemma SmallerQtyFirst(a: ModEvent, b: ModEvent, x: int, y: int)
    requires a.urgent == b.urgent && a.newQty == Some(x) && b.newQty == Some(y)
    requires 0 < x < y
    ensures KeyLt(SortKey(a), SortKey(b))
  {
  }

  /**
   * A request without a positive quantity sorts as quantity 9999: after every
   * request of equal urgency with a smaller quantity, but before one asking
   * for 10000 or more.
   */
  lemma MissingQtySortsAs9999(a: ModEvent, b: ModEvent)
    requires a.urgent == b.urgent
    requires a.newQty.None? || a.newQty.value <= 0
    requires b.newQty.Some? && b.newQty.value > NO_QTY_KEY
    ensures SortKey(a).qty == NO_QTY_KEY
    ensures KeyLt(SortKey(a), SortKey(b))
  {
  }

  /**
   * The position of an entry with the smallest key: what the priority queue
   * hands out next. Which of several equal keys is taken is not specified.
   */
  method MinKeyIndex(items: seq<ModEvent>) returns (k: nat)
    requires items != []
    ensures k < |items|
    ensures forall i | 0 <= i < |items| :: KeyLe(SortKey(items[k]), SortKey(items[i]))
  {
    k := 0;
    var i := 1;
    while i < |items|
      invariant 0 <= k < i <= |items|
      invariant forall j | 0 <= j < i :: KeyLe(SortKey(items[k]), SortKey(items[j]))
    {
      if KeyLt(SortKey(items[i]), SortKey(items[k])) {
        k := i;
      }
      i := i + 1;
    }
  }

  // ---------------------------------------------------------------------
  // Change set and local validation
  // ---------------------------------------------------------------------

  /** Python truthiness of an optional string: present and not empty. */
  predicate Truthy(s: Option<string>) {
    s.Some? && s.value != []
  }

  /**
   * What a text field holds once stored: the request's text with its
   * surrounding whitespace cut off, and no whitespace left at either end.
   */
  predicate StoredStripped(v: string, input: string) {
    IsTrimOf(v, input) && (v == [] || (!IsSpace(v[0]) && !IsSpace(v[|v| - 1])))
  }

  function StrippedIfTruthy(s: Option<string>): (r: Option<string>)
    ensures r.Some? <==> Truthy(s)
    ensures r.Some? ==> StoredStripped(r.value, s.value)
  {
    if Truthy(s) then
      StripIsTrim(s.value);
      Some(Strip(s.value))
    else None
  }

  /**
   * The change set of a request: a text field when the request's value is
   * truthy, stored stripped; the quantity only when it is positive.
   */
  function BuildChanges(ev: ModEvent): (c: ChangeSet)
    ensures c.clientName.Some? <==> Truthy(ev.newClientName)
    ensures c.product.Some? <==> Truthy(ev.newProduct)
    ensures c.size.Some? <==> Truthy(ev.newSize)
    ensures c.paymentMethod.Some? <==> Truthy(ev.newPaymentMethod)
    ensures c.qty.Some? <==> ev.newQty.Some? && ev.newQty.value > 0
    ensures c.qty.Some? ==> c.qty == ev.newQty
    ensures RespectsQtyCheck(c)
  {
    ChangeSet(
      StrippedIfTruthy(ev.newClientName),
      StrippedIfTruthy(ev.newProduct),
      StrippedIfTruthy(ev.newSize),
      if ev.newQty.Some? && ev.newQty.value > 0 then ev.newQty else None,
      StrippedIfTruthy(ev.newPaymentMethod))
  }

  /** Whitespace around a text value never reaches the table. */
  lemma ChangesAreStripped(ev: ModEvent)
    ensures var c := BuildChanges(ev);
      && (c.product.Some? ==> StoredStripped(c.product.value, ev.newProduct.value))
      && (c.size.Some? ==> StoredStripped(c.size.value, ev.newSize.value))
      && (c.paymentMethod.Some? ==> StoredStripped(c.paymentMethod.value, ev.newPaymentMethod.value))
      && (c.clientName.Some? ==> StoredStripped(c.clientName.value, ev.newClientName.value))
  {
  }

  datatype Outcome = ModOk | TimeExpired | SyncFail | ModFail

  datatype Reason =
    | InvalidProduct
    | InvalidSize
    | InvalidPayment
    | NotFoundOrUnconfirmed
    | EditWindowPassed

  predicate FieldIn(f: Option<string>, valid: seq<string>) {
    f.Some? ==> f.value in valid
  }

  /** The closed-set checks, product then size then payment; the first failure is reported. */
  function LocalCheck(c: ChangeSet): (r: Option<Reason>)
    ensures r.None? <==>
      FieldIn(c.product, VALID_PRODUCTS) && FieldIn(c.size, VALID_SIZES) && FieldIn(c.paymentMethod, VALID_PAYMENTS)
    ensures r == Some(InvalidProduct) <==> !FieldIn(c.product, VALID_PRODUCTS)
    ensures r == Some(InvalidSize) <==> FieldIn(c.product, VALID_PRODUCTS) && !FieldIn(c.size, VALID_SIZES)
    ensures r.Some? ==> r.value in {InvalidProduct, InvalidSize, InvalidPayment}
  {
    if !FieldIn(c.product, VALID_PRODUCTS) then Some(InvalidProduct)
    else if !FieldIn(c.size, VALID_SIZES) then Some(InvalidSize)
    else if !FieldIn(c.paymentMethod, VALID_PAYMENTS) then Some(InvalidPayment)
    else None
  }

  // ---------------------------------------------------------------------
  // The retry loop, as a specification
  // ---------------------------------------------------------------------

  /**
   * The clock as read during one attempt: once inside the store's
   * transaction, and once more when a rejection is re-checked.
   */
  datatype Attempt = Attempt(applyAt: int, recheckAt: int)

  datatype Verdict = Applied | GiveUp(code: Outcome, reason: Reason) | Again

  /**
   * One pass of the loop body against the table as it stands: the store's
   * decision, then the re-read. The re-read only tells a missing or
   * unconfirmed order and an expired window apart from the rest; any other
   * rejection (locked state, empty change set) is tried again.
   */
  function AttemptVerdict(rows: map<int, Order>, id: int, c: ChangeSet, t: Attempt): Verdict {
    if Admits(rows, id, c, t.applyAt) then Applied
    else if id !in rows || rows[id].confirmedAt.None? then GiveUp(ModFail, NotFoundOrUnconfirmed)
    else if t.recheckAt - rows[id].confirmedAt.value > EDIT_WINDOW_SECONDS then GiveUp(TimeExpired, EditWindowPassed)
    else Again
  }

  datatype RetryResult = RetryResult(
    applied: bool,
    code: Outcome,
    reason: Option<Reason>,
    attempts: nat,
    sleeps: seq<int>)

  /** The `count` pauses taken after attempts `from`, `from + 1`, ... */
  function Pauses(from: nat, count: nat): (ms: seq<int>)
    requires 1 <= from
    ensures |ms| == count
    ensures forall i | 0 <= i < count :: ms[i] == DoublingPause(INITIAL_BACKOFF_MS, from + i)
    decreases count
  {
    if count == 0 then [] else [DoublingPause(INITIAL_BACKOFF_MS, from)] + Pauses(from + 1, count - 1)
  }

  /** The whole schedule: 250, 500 and 1000 ms. */
  lemma PauseSchedule()
    ensures Pauses(1, MAX_RETRIES) == [250, 500, 1000]
  {
    assert DoublingPause(INITIAL_BACKOFF_MS, 1) == 250;
    assert DoublingPause(INITIAL_BACKOFF_MS, 2) == 500;
    assert DoublingPause(INITIAL_BACKOFF_MS, 3) == 1000;
  }

  /** Whether the loop ran out of attempts, as opposed to applying or stopping early. */
  predicate Exhausted(r: RetryResult) {
    !r.applied && r.reason.None?
  }

  /**
   * The loop from attempt number `attempt` on. A failed attempt leaves the
   * table as it was, so every attempt is judged against the same `rows`.
   */
  function RetryLoop(rows: map<int, Order>, id: int, c: ChangeSet, times: seq<Attempt>, attempt: nat): RetryResult
    requires 1 <= attempt && |times| >= MAX_RETRIES
    decreases MAX_RETRIES + 1 - attempt
  {
    if attempt > MAX_RETRIES then RetryResult(false, ModFail, None, MAX_RETRIES, [])
    else
      match AttemptVerdict(rows, id, c, times[attempt - 1])
      case Applied => RetryResult(true, ModOk, None, attempt, [])
      case GiveUp(code, reason) => RetryResult(false, code, Some(reason), attempt, [])
      case Again =>
        var r := RetryLoop(rows, id, c, times, attempt + 1);
        r.(sleeps := [DoublingPause(INITIAL_BACKOFF_MS, attempt)] + r.sleeps)
  }
  /**
   * What the loop can end with: at most three attempts; the change applied
   * only by an attempt whose clock the store admits; TIME_EXPIRED exactly
   * when the re-read found the window passed; running out of attempts is
   * MOD_FAIL after the third.
   */
  lemma {:induction false} RetryLoopOutcomes(rows: map<int, Order>, id: int, c: ChangeSet, times: seq<Attempt>, attempt: nat)
    requires 1 <= attempt && |times| >= MAX_RETRIES
    ensures var r := RetryLoop(rows, id, c, times, attempt);
      && (r.applied ==> id in rows && r.code == ModOk && r.reason.None?)
      && (r.applied ==> 1 <= r.attempts <= MAX_RETRIES && Admits(rows, id, c, times[r.attempts - 1].applyAt))
      && (!r.applied ==> r.code in {ModFail, TimeExpired})
      && (r.code == TimeExpired <==> r.reason == Some(EditWindowPassed))
      && (r.reason.Some? ==> r.reason.value in {NotFoundOrUnconfirmed, EditWindowPassed})
      && (attempt <= MAX_RETRIES ==> attempt <= r.attempts <= MAX_RETRIES)
      && (attempt > MAX_RETRIES ==> Exhausted(r))
      && (Exhausted(r) ==> r.attempts == MAX_RETRIES)
    decreases MAX_RETRIES + 1 - attempt
  {
    if attempt <= MAX_RETRIES && AttemptVerdict(rows, id, c, times[attempt - 1]) == Again {
      RetryLoopOutcomes(rows, id, c, times, attempt + 1);
    }
  }

  /**
   * The pauses the loop takes from attempt `attempt` on: one per attempt that
   * neither applied nor stopped, the doubling schedule from that attempt.
   */
  lemma {:induction false} RetryLoopPauses(rows: map<int, Order>, id: int, c: ChangeSet, times: seq<Attempt>, attempt: nat)
    requires 1 <= attempt <= MAX_RETRIES + 1 && |times| >= MAX_RETRIES
    ensures var r := RetryLoop(rows, id, c, times, attempt);
      r.sleeps == Pauses(attempt, if Exhausted(r) then MAX_RETRIES + 1 - attempt else r.attempts - attempt)
    decreases MAX_RETRIES + 1 - attempt
  {
    if attempt <= MAX_RETRIES && AttemptVerdict(rows, id, c, times[attempt - 1]) == Again {
      RetryLoopPauses(rows, id, c, times, attempt + 1);
    }
  }

  /** The loop's state after `sleeps`: what is left to run, with the pauses taken so far in front. */
  predicate RetryProgress(total: RetryResult, rows: map<int, Order>, id: int, c: ChangeSet, times: seq<Attempt>,
                          attempt: nat, sleeps: seq<int>)
    requires 1 <= attempt && |times| >= MAX_RETRIES
  {
    var rest := RetryLoop(rows, id, c, times, attempt);
    total == rest.(sleeps := sleeps + rest.sleeps)
  }

  /** A rejection inside the window moves the loop to the next attempt after one more pause. */
  lemma RetryLoopAgain(total: RetryResult, rows: map<int, Order>, id: int, c: ChangeSet, times: seq<Attempt>,
                       attempt: nat, sleeps: seq<int>)
    requires 1 <= attempt <= MAX_RETRIES && |times| >= MAX_RETRIES
    requires AttemptVerdict(rows, id, c, times[attempt - 1]) == Again
    requires RetryProgress(total, rows, id, c, times, attempt, sleeps)
    ensures RetryProgress(total, rows, id, c, times, attempt + 1, sleeps + [DoublingPause(INITIAL_BACKOFF_MS, attempt)])
    ensures 2 * DoublingPause(INITIAL_BACKOFF_MS, attempt) == DoublingPause(INITIAL_BACKOFF_MS, attempt + 1)
  {
    var next := RetryLoop(rows, id, c, times, attempt + 1);
    var b := DoublingPause(INITIAL_BACKOFF_MS, attempt);
    assert RetryLoop(rows, id, c, times, attempt) == next.(sleeps := [b] + next.sleeps);
    assert sleeps + ([b] + next.sleeps) == (sleeps + [b]) + next.sleeps;
  }

  /** An attempt that applies or gives up ends the loop with the pauses taken so far. */
  lemma RetryLoopStops(total: RetryResult, rows: map<int, Order>, id: int, c: ChangeSet, times: seq<Attempt>,
                       attempt: nat, sleeps: seq<int>, v: Verdict)
    requires 1 <= attempt <= MAX_RETRIES && |times| >= MAX_RETRIES
    requires RetryProgress(total, rows, id, c, times, attempt, sleeps)
    requires v == AttemptVerdict(rows, id, c, times[attempt - 1])
    ensures v == Applied ==> total == RetryResult(true, ModOk, None, attempt, sleeps)
    ensures v.GiveUp? ==> total == RetryResult(false, v.code, Some(v.reason), attempt, sleeps)
  {
    assert sleeps + [] == sleeps;
  }

  /** Past the last attempt the loop has given up, with every pause taken. */
  lemma RetryLoopRunsOut(total: RetryResult, rows: map<int, Order>, id: int, c: ChangeSet, times: seq<Attempt>,
                         sleeps: seq<int>)
    requires |times| >= MAX_RETRIES
    requires RetryProgress(total, rows, id, c, times, MAX_RETRIES + 1, sleeps)
    ensures total == RetryResult(false, ModFail, None, MAX_RETRIES, sleeps)
  {
    assert sleeps + [] == sleeps;
  }


  /** What a request's processing leaves in the log's `info` field. */
  datatype Info = NoInfo | Because(reason: Reason) | Changes(changes: ChangeSet)

  datatype Processing = Processing(
    code: Outcome,
    info: Info,
    applied: bool,
    attempts: nat,
    sleeps: seq<int>)

  /**
   * The whole treatment of one (non-sentinel) request against the table
   * `rows`: local validation, the retry loop, then the two notifications.
   */
  function Process(rows: map<int, Order>, ev: ModEvent, times: seq<Attempt>,
                   kitchenOk: bool, clientOk: bool): (p: Processing)
    requires |times| >= MAX_RETRIES
    ensures p.applied <==> p.code in {ModOk, SyncFail}
    ensures p.applied ==> 1 <= p.attempts <= MAX_RETRIES && Admits(rows, ev.orderId, BuildChanges(ev), times[p.attempts - 1].applyAt)
    ensures p.applied ==> (p.code == ModOk <==> kitchenOk && clientOk) && p.info == Changes(BuildChanges(ev))
    ensures p.attempts == 0 <==> LocalCheck(BuildChanges(ev)).Some?
    ensures p.attempts <= MAX_RETRIES && p.sleeps == Pauses(1, |p.sleeps|) && |p.sleeps| <= p.attempts
    ensures p.code == TimeExpired <==> p.info == Because(EditWindowPassed)
    ensures p.code == ModFail <==> !p.applied && p.info != Because(EditWindowPassed)
  {
    var c := BuildChanges(ev);
    match LocalCheck(c)
    case Some(reason) => Processing(ModFail, Because(reason), false, 0, [])
    case None =>
      RetryLoopOutcomes(rows, ev.orderId, c, times, 1);
      RetryLoopPauses(rows, ev.orderId, c, times, 1);
      var rr := RetryLoop(rows, ev.orderId, c, times, 1);
      if !rr.applied then
        Processing(rr.code, if rr.reason.Some? then Because(rr.reason.value) else NoInfo, false, rr.attempts, rr.sleeps)
      else
        Processing(if kitchenOk && clientOk then ModOk else SyncFail, Changes(c), true, rr.attempts, rr.sleeps)
  }

  // ---------------------------------------------------------------------
  // Properties of the per-request treatment
  // ---------------------------------------------------------------------

  /** A request naming a value outside a closed set fails with the first such reason, before any store call. */
  lemma InvalidFieldSkipsStore(rows: map<int, Order>, ev: ModEvent, times: seq<Attempt>,
                                                  kitchenOk: bool, clientOk: bool)
    requires |times| >= MAX_RETRIES
    requires LocalCheck(BuildChanges(ev)).Some?
    ensures Process(rows, ev, times, kitchenOk, clientOk)
         == Processing(ModFail, Because(LocalCheck(BuildChanges(ev)).value), false, 0, [])
  {
  }

  /** A request for an order that is not in the table fails after one attempt and no pause. */
  lemma MissingOrderFailsAtOnce(rows: map<int, Order>, ev: ModEvent, times: seq<Attempt>,
                                                   kitchenOk: bool, clientOk: bool)
    requires |times| >= MAX_RETRIES
    requires LocalCheck(BuildChanges(ev)).None? && ev.orderId !in rows
    ensures Process(rows, ev, times, kitchenOk, clientOk)
         == Processing(ModFail, Because(NotFoundOrUnconfirmed), false, 1, [])
  {
  }

  /**
   * A request whose first attempt comes more than five minutes after the
   * confirmation ends as TIME_EXPIRED after that attempt, whatever the
   * order's state, and changes nothing.
   */
  lemma LateRequestExpires(rows: map<int, Order>, ev: ModEvent, times: seq<Attempt>,
                                              kitchenOk: bool, clientOk: bool)
    requires |times| >= MAX_RETRIES
    requires LocalCheck(BuildChanges(ev)).None? && ev.orderId in rows && rows[ev.orderId].confirmedAt.Some?
    requires times[0].applyAt - rows[ev.orderId].confirmedAt.value > EDIT_WINDOW_SECONDS
    requires times[0].recheckAt >= times[0].applyAt
    ensures Process(rows, ev, times, kitchenOk, clientOk)
         == Processing(TimeExpired, Because(EditWindowPassed), false, 1, [])
  {
  }

  /**
   * A rejection the re-read cannot explain (locked state or empty change
   * set) while the window is still open burns all three attempts, pauses
   * 250, 500 and 1000 ms, and ends as MOD_FAIL with no reason recorded.
   */
  lemma UnexplainedRejectionExhaustsRetries(rows: map<int, Order>, ev: ModEvent, times: seq<Attempt>,
                                                               kitchenOk: bool, clientOk: bool)
    requires |times| >= MAX_RETRIES
    requires LocalCheck(BuildChanges(ev)).None? && ev.orderId in rows && rows[ev.orderId].confirmedAt.Some?
    requires IsLocked(rows[ev.orderId].state) || IsEmpty(BuildChanges(ev))
    requires forall i | 0 <= i < MAX_RETRIES :: times[i].recheckAt - rows[ev.orderId].confirmedAt.value <= EDIT_WINDOW_SECONDS
    ensures Process(rows, ev, times, kitchenOk, clientOk)
         == Processing(ModFail, NoInfo, false, MAX_RETRIES, [250, 500, 1000])
  {
    var c := BuildChanges(ev);
    forall i | 0 <= i < MAX_RETRIES
      ensures AttemptVerdict(rows, ev.orderId, c, times[i]) == Again
    {
    }
    assert RetryLoop(rows, ev.orderId, c, times, 4) == RetryResult(false, ModFail, None, MAX_RETRIES, []);
    PauseSchedule();
  }

  /** A request with no usable field reaches the store, which always refuses it. */
  lemma NothingToChangeIsNeverApplied(rows: map<int, Order>, ev: ModEvent, times: seq<Attempt>,
                                      kitchenOk: bool, clientOk: bool)
    requires |times| >= MAX_RETRIES
    requires !Truthy(ev.newClientName) && !Truthy(ev.newProduct) && !Truthy(ev.newSize)
    requires !Truthy(ev.newPaymentMethod) && (ev.newQty.None? || ev.newQty.value <= 0)
    ensures IsEmpty(BuildChanges(ev)) && LocalCheck(BuildChanges(ev)).None?
    ensures !Process(rows, ev, times, kitchenOk, clientOk).applied
  {
  }

  /**
   * A request the store admits at the first attempt is applied at once; the
   * outcome is MOD_OK when both notifications go through and SYNC_FAIL
   * otherwise, the change being kept either way.
   */
  lemma AdmittedRequestApplies(rows: map<int, Order>, ev: ModEvent, times: seq<Attempt>,
                                                  kitchenOk: bool, clientOk: bool)
    requires |times| >= MAX_RETRIES
    requires LocalCheck(BuildChanges(ev)).None? && Admits(rows, ev.orderId, BuildChanges(ev), times[0].applyAt)
    ensures Process(rows, ev, times, kitchenOk, clientOk)
         == Processing(if kitchenOk && clientOk then ModOk else SyncFail, Changes(BuildChanges(ev)), true, 1, [])
  {
  }

  /**
   * Order confirmed at `t`, a request for quantity 3 at `t + 299`: applied,
   * the stored quantity becomes 3 and nothing else but the quantity changes.
   */
  lemma QuantityChangeWithinWindow(rows: map<int, Order>, id: int, t: int, times: seq<Attempt>, reqId: string)
    requires |times| >= MAX_RETRIES && id in rows
    requires rows[id].confirmedAt == Some(t) && !IsLocked(rows[id].state) && times[0].applyAt == t + 299
    ensures var ev := ModEvent(false, id, None, None, None, Some(3), None, reqId, t + 299);
      && Process(rows, ev, times, true, true).code == ModOk
      && Apply(rows[id], BuildChanges(ev)) == rows[id].(qty := 3)
  {
    var ev := ModEvent(false, id, None, None, None, Some(3), None, reqId, t + 299);
    AdmittedRequestApplies(rows, ev, times, true, true);
  }

  // ---------------------------------------------------------------------
  // Metrics
  // ---------------------------------------------------------------------

  /** The `metrics` dictionary: four outcome counters, the latency average and the total. */
  datatype Metrics = Metrics(
    modOk: nat,
    timeExpired: nat,
    syncFail: nat,
    modFail: nat,
    avgLatencyMs: real,
    processed: nat)

  const NoMetrics := Metrics(0, 0, 0, 0, 0.0, 0)

  function Count(m: Metrics, code: Outcome): nat {
    match code
    case ModOk => m.modOk
    case TimeExpired => m.timeExpired
    case SyncFail => m.syncFail
    case ModFail => m.modFail
  }

  predicate CountsAddUp(m: Metrics) {
    m.processed == m.modOk + m.timeExpired + m.syncFail + m.modFail
  }

  /** `processed += 1` and one more for `code`. */
  function Bump(m: Metrics, code: Outcome): (r: Metrics)
    ensures r.processed == m.processed + 1 && r.avgLatencyMs == m.avgLatencyMs
    ensures Count(r, code) == Count(m, code) + 1
    ensures forall other | other != code :: Count(r, other) == Count(m, other)
    ensures CountsAddUp(m) ==> CountsAddUp(r)
  {
    var m' := m.(processed := m.processed + 1);
    match code
    case ModOk => m'.(modOk := m.modOk + 1)
    case TimeExpired => m'.(timeExpired := m.timeExpired + 1)
    case SyncFail => m'.(syncFail := m.syncFail + 1)
    case ModFail => m'.(modFail := m.modFail + 1)
  }

  /** `_update_latency`: folds one latency into the average of `processed` earlier ones. */
  function UpdateLatency(m: Metrics, ms: real): (r: Metrics)
    ensures r.avgLatencyMs * (m.processed as real + 1.0) == m.avgLatencyMs * m.processed as real + ms
    ensures r.(avgLatencyMs := m.avgLatencyMs) == m
  {
    var n := m.processed as real;
    m.(avgLatencyMs := (m.avgLatencyMs * n + ms) / (n + 1.0))
  }

  /**
   * `_finish` as written: the counter is bumped BEFORE the average is
   * updated, so the average is divided by one more than the number of
   * latencies it has seen.
   */
  function FinishAsWritten(m: Metrics, code: Outcome, ms: real): (r: Metrics)
    ensures r.processed == m.processed + 1
    ensures r.avgLatencyMs * (r.processed as real + 1.0) == m.avgLatencyMs * (m.processed as real + 1.0) + ms
  {
    UpdateLatency(Bump(m, code), ms)
  }

  /** One request of 100 ms gives an "average" of 50 ms under `_finish` as written. */
  lemma FinishAsWrittenHalvesFirstLatency()
    ensures FinishAsWritten(NoMetrics, ModOk, 100.0).avgLatencyMs == 50.0
    ensures Finish(NoMetrics, ModOk, 100.0).avgLatencyMs == 100.0
  {
    var bumped := Bump(NoMetrics, ModOk);
    assert bumped.processed == 1 && bumped.avgLatencyMs == 0.0;
    assert UpdateLatency(bumped, 100.0).avgLatencyMs == 100.0 / 2.0;
    assert UpdateLatency(NoMetrics, 100.0).avgLatencyMs == 100.0 / 1.0;
  }

  /**
   * `_finish` with the average updated before the counter: one more
   * processed request, one more for exactly its outcome, and the average
   * stays the mean of all latencies seen.
   */
  function Finish(m: Metrics, code: Outcome, ms: real): (r: Metrics)
    ensures r.processed == m.processed + 1
    ensures Count(r, code) == Count(m, code) + 1
    ensures forall other | other != code :: Count(r, other) == Count(m, other)
    ensures CountsAddUp(m) ==> CountsAddUp(r)
    ensures r.avgLatencyMs * r.processed as real == m.avgLatencyMs * m.processed as real + ms
  {
    Bump(UpdateLatency(m, ms), code)
  }

  function Sum(xs: seq<real>): real {
    if xs == [] then 0.0 else Sum(xs[..|xs| - 1]) + xs[|xs| - 1]
  }

  /** `avg_latency_ms` is the mean of `latencies`, one per processed request. */
  ghost predicate IsMeanOf(m: Metrics, latencies: seq<real>) {
    m.processed == |latencies| && m.avgLatencyMs * m.processed as real == Sum(latencies)
  }

  /** The corrected `_finish` keeps the average the mean of every latency seen. */
  lemma FinishKeepsMean(m: Metrics, latencies: seq<real>, code: Outcome, ms: real)
    requires IsMeanOf(m, latencies)
    ensures IsMeanOf(Finish(m, code, ms), latencies + [ms])
  {
    assert (latencies + [ms])[..|latencies|] == latencies;
  }

  // ---------------------------------------------------------------------
  // The service
  // ---------------------------------------------------------------------

  /** What the kitchen screen and the client view receive. */
  datatype Notice = KitchenUpdate(orderId: int, changes: ChangeSet) | ClientUpdate(orderId: int, changes: ChangeSet)

  /** The notices of an applied change: kitchen first, then client; a failed delivery shows nothing. */
  function Notices(id: int, c: ChangeSet, kitchenOk: bool, clientOk: bool): seq<Notice> {
    (if kitchenOk then [KitchenUpdate(id, c)] else []) + (if clientOk then [ClientUpdate(id, c)] else [])
  }

  /** One structured log line per finished request. */
  datatype LogRecord = LogRecord(
    txId: string,
    orderId: int,
    urgent: bool,
    requestedAt: int,
    finishedAt: int,
    code: Outcome,
    latencyMs: real,
    info: Info)

  datatype Step = Idle | Halted | Finished(code: Outcome)

  class ModService {
    const repo: OrderRepository
    /** The pending requests (`self.pq`). */
    var pq: seq<ModEvent>
    /** The `_stop` event. */
    var stopRequested: bool
    /** Whether the worker loop is still running. */
    var running: bool
    var metrics: Metrics
    /** Everything the kitchen and client buses displayed, in order. */
    var notices: seq<Notice>
    var log: seq<LogRecord>
    /** Every metrics snapshot pushed to the metrics observer. */
    var snapshots: seq<Metrics>
    ghost var latencies: seq<real>

    ghost predicate Valid()
      reads this, repo
    {
      && repo.Valid()
      && metrics.processed == metrics.modOk + metrics.timeExpired + metrics.syncFail + metrics.modFail
      && metrics.processed == |log| == |snapshots|
      && IsMeanOf(metrics, latencies)
    }

    constructor (repo: OrderRepository)
      requires repo.Valid()
      ensures Valid() && this.repo == repo
      ensures pq == [] && !stopRequested && running && metrics == NoMetrics
      ensures notices == [] && log == [] && snapshots == []
    {
      this.repo := repo;
      pq := [];
      stopRequested := false;
      running := true;
      metrics := NoMetrics;
      notices := [];
      log := [];
      snapshots := [];
      latencies := [];
      assert IsMeanOf(NoMetrics, []);
    }

    /** `enqueue`. */
    method Enqueue(ev: ModEvent)
      modifies this
      ensures pq == old(pq) + [ev]
      ensures stopRequested == old(stopRequested) && running == old(running) && metrics == old(metrics)
      ensures notices == old(notices) && log == old(log) && snapshots == old(snapshots) && latencies == old(latencies)
    {
      pq := pq + [ev];
    }

    /** `stop`: raises the stop flag and queues the sentinel request. */
    method Stop(reqId: string, now: int)
      modifies this
      ensures stopRequested
      ensures pq == old(pq) + [ModEvent(false, SENTINEL_ID, None, None, None, None, None, reqId, now)]
      ensures running == old(running) && metrics == old(metrics)
      ensures notices == old(notices) && log == old(log) && snapshots == old(snapshots) && latencies == old(latencies)
    {
      stopRequested := true;
      pq := pq + [ModEvent(false, SENTINEL_ID, None, None, None, None, None, reqId, now)];
    }

    /** `_finish`: counts the outcome, folds in the latency, logs and pushes a snapshot. */
    method FinishRequest(ev: ModEvent, code: Outcome, info: Info, latencyMs: real, finishedAt: int)
      requires Valid()
      modifies this
      ensures Valid()
      ensures metrics == Finish(old(metrics), code, latencyMs)
      ensures log == old(log) + [LogRecord(ev.reqId, ev.orderId, ev.urgent, ev.requestedAt, finishedAt, code, latencyMs, info)]
      ensures snapshots == old(snapshots) + [metrics]
      ensures pq == old(pq) && stopRequested == old(stopRequested) && running == old(running)
      ensures notices == old(notices)
    {
      FinishKeepsMean(metrics, latencies, code, latencyMs);
      metrics := Finish(metrics, code, latencyMs);
      latencies := latencies + [latencyMs];
      log := log + [LogRecord(ev.reqId, ev.orderId, ev.urgent, ev.requestedAt, finishedAt, code, latencyMs, info)];
      snapshots := snapshots + [metrics];
    }

    /**
     * One attempt of the retry loop: the store's atomic update at `t.applyAt`
     * and, when it is rejected, the re-read of the order and the window check
     * at `t.recheckAt`.
     */
    method TryOnce(id: int, c: ChangeSet, t: Attempt) returns (v: Verdict)
      requires repo.Valid() && RespectsQtyCheck(c)
      modifies repo
      ensures repo.Valid() && repo.nextId == old(repo.nextId)
      ensures v == AttemptVerdict(old(repo.rows), id, c, t)
      ensures repo.rows == if v == Applied then old(repo.rows)[id := Apply(old(repo.rows)[id], c)] else old(repo.rows)
    {
      var ok := repo.ApplyModificationAtomic(id, c, t.applyAt);
      if ok {
        return Applied;
      }
      var current := repo.FetchOne(id);
      if current.None? || current.value.confirmedAt.None? {
        return GiveUp(ModFail, NotFoundOrUnconfirmed);
      }
      if t.recheckAt - current.value.confirmedAt.value > EDIT_WINDOW_SECONDS {
        return GiveUp(TimeExpired, EditWindowPassed);
      }
      return Again;
    }

    /**
     * The bounded retry loop: up to three attempts, each rejection inside the
     * window followed by a pause, doubling from 250 ms. Only the table changes.
     */
    method ApplyWithRetry(id: int, c: ChangeSet, times: seq<Attempt>) returns (r: RetryResult)
      requires repo.Valid() && RespectsQtyCheck(c) && |times| >= MAX_RETRIES
      modifies repo
      ensures repo.Valid() && repo.nextId == old(repo.nextId)
      ensures r == RetryLoop(old(repo.rows), id, c, times, 1)
      ensures repo.rows == if r.applied then old(repo.rows)[id := Apply(old(repo.rows)[id], c)] else old(repo.rows)
    {
      ghost var rows0 := repo.rows;
      ghost var total := RetryLoop(rows0, id, c, times, 1);
      var backoff := INITIAL_BACKOFF_MS;
      var sleeps: seq<int> := [];
      var attempt := 1;
      assert RetryProgress(total, rows0, id, c, times, 1, []) by {
        assert total == total.(sleeps := [] + total.sleeps);
      }
      while attempt <= MAX_RETRIES
        invariant 1 <= attempt <= MAX_RETRIES + 1
        invariant backoff == DoublingPause(INITIAL_BACKOFF_MS, attempt)
        invariant repo.Valid() && repo.rows == rows0 && repo.nextId == old(repo.nextId)
        invariant RetryProgress(total, rows0, id, c, times, attempt, sleeps)
      {
        var v := TryOnce(id, c, times[attempt - 1]);
        match v
        case Applied =>
          RetryLoopStops(total, rows0, id, c, times, attempt, sleeps, v);
          return RetryResult(true, ModOk, None, attempt, sleeps);
        case GiveUp(code, reason) =>
          RetryLoopStops(total, rows0, id, c, times, attempt, sleeps, v);
          return RetryResult(false, code, Some(reason), attempt, sleeps);
        case Again =>
        RetryLoopAgain(total, rows0, id, c, times, attempt, sleeps);
        sleeps := sleeps + [backoff];
        backoff := backoff * 2;
        attempt := attempt + 1;
      }
      RetryLoopRunsOut(total, rows0, id, c, times, sleeps);
      r := RetryResult(false, ModFail, None, MAX_RETRIES, sleeps);
    }

    /** Both notifications of an applied change; true when both went through. */
    method Notify(id: int, c: ChangeSet, kitchenOk: bool, clientOk: bool) returns (synced: bool)
      modifies this
      ensures synced <==> kitchenOk && clientOk
      ensures notices == old(notices) + Notices(id, c, kitchenOk, clientOk)
      ensures pq == old(pq) && stopRequested == old(stopRequested) && running == old(running)
      ensures metrics == old(metrics) && log == old(log) && snapshots == old(snapshots) && latencies == old(latencies)
    {
      synced := true;
      if kitchenOk {
        notices := notices + [KitchenUpdate(id, c)];
      } else {
        synced := false;
      }
      if clientOk {
        notices := notices + [ClientUpdate(id, c)];
      } else {
        synced := false;
      }
    }

    /**
     * The loop body for one popped, non-sentinel request. `times` gives the
     * clock readings of each possible attempt, `kitchenOk`/`clientOk` whether
     * each notification goes through, `latencyMs` and `finishedAt` what the
     * clock says when the request is finished.
     */
    method ProcessEvent(ev: ModEvent, times: seq<Attempt>, kitchenOk: bool, clientOk: bool,
                        latencyMs: real, finishedAt: int) returns (code: Outcome, sleeps: seq<int>)
      requires Valid() && |times| >= MAX_RETRIES
      modifies this, repo
      ensures Valid()
      ensures var p := Process(old(repo.rows), ev, times, kitchenOk, clientOk);
        && code == p.code
        && sleeps == p.sleeps
        && repo.rows == (if p.applied then old(repo.rows)[ev.orderId := Apply(old(repo.rows)[ev.orderId], BuildChanges(ev))]
                         else old(repo.rows))
        && notices == old(notices) + (if p.applied then Notices(ev.orderId, BuildChanges(ev), kitchenOk, clientOk) else [])
        && log == old(log) + [LogRecord(ev.reqId, ev.orderId, ev.urgent, ev.requestedAt, finishedAt, code, latencyMs, p.info)]
      ensures metrics == Finish(old(metrics), code, latencyMs)
      ensures snapshots == old(snapshots) + [metrics]
      ensures pq == old(pq) && stopRequested == old(stopRequested) && running == old(running)
    {
      var c := BuildChanges(ev);
      var check := LocalCheck(c);
      if check.Some? {
        code, sleeps := ModFail, [];
        FinishRequest(ev, code, Because(check.value), latencyMs, finishedAt);
        return;
      }
      var r := ApplyWithRetry(ev.orderId, c, times);
      sleeps := r.sleeps;
      if !r.applied {
        code := r.code;
        FinishRequest(ev, code, if r.reason.Some? then Because(r.reason.value) else NoInfo, latencyMs, finishedAt);
        return;
      }
      var synced := Notify(ev.orderId, c, kitchenOk, clientOk);
      code := if synced then ModOk else SyncFail;
      FinishRequest(ev, code, Changes(c), latencyMs, finishedAt);
    }

    /**
     * One turn of the worker loop. A raised stop flag ends the loop before
     * anything is taken; an empty queue leaves everything as it is; otherwise
     * an entry with the smallest key is taken out, and the sentinel ends the
     * loop uncounted while any other request is processed and counted once.
     */
    method WorkerStep(times: seq<Attempt>, kitchenOk: bool, clientOk: bool, latencyMs: real, finishedAt: int)
      returns (step: Step, taken: Option<ModEvent>)
      requires Valid() && running && |times| >= MAX_RETRIES
      modifies this, repo
      ensures Valid()
      ensures old(stopRequested) ==> step == Halted && taken.None?
      ensures !old(stopRequested) && old(pq) == [] ==> step == Idle && taken.None?
      ensures taken.None? ==> pq == old(pq) && metrics == old(metrics) && repo.rows == old(repo.rows)
      ensures taken.None? ==> notices == old(notices) && log == old(log) && snapshots == old(snapshots)
      ensures taken.None? <==> old(stopRequested) || old(pq) == []
      ensures taken.Some? ==>
        && taken.value in old(pq)
        && (forall e | e in old(pq) :: KeyLe(SortKey(taken.value), SortKey(e)))
        && multiset(pq) + multiset{taken.value} == multiset(old(pq))
      ensures taken.Some? && taken.value.orderId == SENTINEL_ID ==>
        && step == Halted && metrics == old(metrics) && repo.rows == old(repo.rows)
        && notices == old(notices) && log == old(log) && snapshots == old(snapshots)
      ensures taken.Some? && taken.value.orderId != SENTINEL_ID ==>
        var ev := taken.value;
        var p := Process(old(repo.rows), ev, times, kitchenOk, clientOk);
        && step == Finished(p.code)
        && repo.rows == (if p.applied then old(repo.rows)[ev.orderId := Apply(old(repo.rows)[ev.orderId], BuildChanges(ev))]
                         else old(repo.rows))
        && notices == old(notices) + (if p.applied then Notices(ev.orderId, BuildChanges(ev), kitchenOk, clientOk) else [])
        && log == old(log) + [LogRecord(ev.reqId, ev.orderId, ev.urgent, ev.requestedAt, finishedAt, p.code, latencyMs, p.info)]
        && metrics == Finish(old(metrics), p.code, latencyMs)
        && snapshots == old(snapshots) + [metrics]
      ensures stopRequested == old(stopRequested)
      ensures running <==> step != Halted
    {
      if stopRequested {
        running := false;
        return Halted, None;
      }
      if pq == [] {
        return Idle, None;
      }
      var k := MinKeyIndex(pq);
      var ev := pq[k];
      assert pq == pq[..k] + [ev] + pq[k + 1..];
      pq := pq[..k] + pq[k + 1..];
      taken := Some(ev);
      if ev.orderId == SENTINEL_ID {
        running := false;
        return Halted, taken;
      }
      var code, _ := ProcessEvent(ev, times, kitchenOk, clientOk, latencyMs, finishedAt);
      step := Finished(code);
    }
  }
}
