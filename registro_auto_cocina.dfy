/**
 * Automatic kitchen registration: a confirmed order is queued for the
 * kitchen screen; a failed transport is retried up to three times with a
 * doubling pause, and after that the order is delivered anyway and marked
 * late. Every delivery slower than five seconds after the order's creation
 * raises an SLA warning.
 *
 * Transport outcomes and the arrival time are parameters; the confirmation
 * itself is `Orders.OrderRepository.ConfirmOrder`.
 */
module RegistroAutoCocina {

  import opened Wrappers
  import opened Orders
  import opened Retry

  const MAX_RETRIES := 3
  const INITIAL_BACKOFF_MS := 800
  /** The delivery target, in seconds. */
  const MAX_TARGET_S: real := 5.0
  /** The order id of the shutdown signal. */
  const SENTINEL_ID := -1

  /** What the kitchen screen shows of an order. */
  datatype Payload = Payload(id: int, name: string, product: string, size: string, qty: int, createdAt: int)

  /** A queued message: the order id, its creation time in seconds, and the payload. */
  datatype Message = Message(orderId: int, createdTs: int, payload: Payload)

  datatype DeliveryStatus =
    | Ok                          // first try
    | OkAfterRetry(retries: nat)  // "OK (reintento xN)"
    | Late(retries: nat)          // "TARDÍO (xN reintentos)", delivered after giving up

  /** One line on the kitchen screen, with the SLA warning when it follows. */
  datatype Delivery = Delivery(payload: Payload, delta: real, status: DeliveryStatus, slaWarning: bool)

  /** `_deliver`'s status rule: a forced delivery is late, a retried one is OK after that many retries. */
  function StatusOf(retried: bool, retries: nat, forced: bool): (s: DeliveryStatus)
    ensures s.Late? <==> forced
    ensures s == Ok <==> !retried && !forced
    ensures !s.Ok? ==> s.retries == retries
  {
    if forced then Late(retries)
    else if retried then OkAfterRetry(retries)
    else Ok
  }

  /** The SLA check: strictly more than five seconds. */
  predicate SlaExceeded(delta: real) {
    delta > MAX_TARGET_S
  }

  /** The pauses before the first `n` retries. */
  function RetryPauses(n: nat): (ms: seq<int>)
    ensures |ms| == n
    ensures forall i | 0 <= i < n :: ms[i] == DoublingPause(INITIAL_BACKOFF_MS, i + 1)
  {
    if n == 0 then [] else RetryPauses(n - 1) + [DoublingPause(INITIAL_BACKOFF_MS, n)]
  }

  lemma RetryScheduleIsDoubling()
    ensures RetryPauses(MAX_RETRIES) == [800, 1600, 3200]
  {
  }

  /** The index of the first successful retry at or after `i`, or `MAX_RETRIES` if none succeeds. */
  function FirstOk(retryOk: seq<bool>, i: nat): (k: nat)
    requires |retryOk| >= MAX_RETRIES && i <= MAX_RETRIES
    ensures i <= k <= MAX_RETRIES
    ensures forall j | i <= j < k :: !retryOk[j]
    ensures k < MAX_RETRIES ==> retryOk[k]
    decreases MAX_RETRIES - i
  {
    if i == MAX_RETRIES || retryOk[i] then i else FirstOk(retryOk, i + 1)
  }

  /**
   * The status after a failed first transport, when retry `j` (0-based)
   * succeeds exactly if `retryOk[j]`: OK after the first successful retry,
   * or late after three failed ones.
   */
  function RetryStatus(retryOk: seq<bool>): (s: DeliveryStatus)
    requires |retryOk| >= MAX_RETRIES
    ensures s.OkAfterRetry? || s.Late?
    ensures s.OkAfterRetry? ==>
      1 <= s.retries <= MAX_RETRIES && retryOk[s.retries - 1] && forall j | 0 <= j < s.retries - 1 :: !retryOk[j]
    ensures s.Late? <==> forall j | 0 <= j < MAX_RETRIES :: !retryOk[j]
    ensures s.Late? ==> s.retries == MAX_RETRIES
  {
    var k := FirstOk(retryOk, 0);
    if k < MAX_RETRIES then StatusOf(true, k + 1, false) else StatusOf(true, k, true)
  }

  /** How many retries are made: up to and including the first successful one, at most three. */
  function RetriesMade(retryOk: seq<bool>): (n: nat)
    requires |retryOk| >= MAX_RETRIES
    ensures 1 <= n <= MAX_RETRIES
    ensures n == RetryStatus(retryOk).retries
  {
    var k := FirstOk(retryOk, 0);
    if k < MAX_RETRIES then k + 1 else MAX_RETRIES
  }

  /** The delivery `_deliver` produces for a message arriving at `receivedAt`. */
  function MakeDelivery(m: Message, receivedAt: real, status: DeliveryStatus): (d: Delivery)
    ensures d.slaWarning <==> receivedAt - m.createdTs as real > MAX_TARGET_S
    ensures d.payload == m.payload && d.status == status
  {
    var delta := receivedAt - m.createdTs as real;
    Delivery(m.payload, delta, status, SlaExceeded(delta))
  }

  /** `send_confirmed`'s payload for an order created at `createdAt` seconds. */
  function MessageFor(o: Order): (m: Message)
    ensures m.orderId == o.id && m.payload.id == o.id && m.createdTs == o.createdAt
  {
    Message(o.id, o.createdAt, Payload(o.id, o.clientName, o.product, o.size, o.qty, o.createdAt))
  }

  datatype Step = Idle | Halted | Delivered

  class KitchenSyncService {
    /** The FIFO of messages waiting for the kitchen. */
    var queue: seq<Message>
    var stopRequested: bool
    var running: bool
    /** Everything the kitchen screen received, in order. */
    var deliveries: seq<Delivery>

    constructor ()
      ensures queue == [] && !stopRequested && running && deliveries == []
    {
      queue := [];
      stopRequested := false;
      running := true;
      deliveries := [];
    }

    /** `stop`: raises the stop flag and queues the sentinel. */
    method Stop()
      modifies this
      ensures stopRequested && queue == old(queue) + [Message(SENTINEL_ID, 0, Payload(SENTINEL_ID, "", "", "", 0, 0))]
      ensures running == old(running) && deliveries == old(deliveries)
    {
      stopRequested := true;
      queue := queue + [Message(SENTINEL_ID, 0, Payload(SENTINEL_ID, "", "", "", 0, 0))];
    }

    /** `send_confirmed`: queues a confirmed order for the kitchen. */
    method SendConfirmed(o: Order)
      modifies this
      ensures queue == old(queue) + [MessageFor(o)]
      ensures stopRequested == old(stopRequested) && running == old(running) && deliveries == old(deliveries)
    {
      queue := queue + [MessageFor(o)];
    }

    /** `_deliver`: one line on the kitchen screen. */
    method Deliver(m: Message, receivedAt: real, retried: bool, retries: nat, forced: bool)
      modifies this
      ensures deliveries == old(deliveries) + [MakeDelivery(m, receivedAt, StatusOf(retried, retries, forced))]
      ensures queue == old(queue) && stopRequested == old(stopRequested) && running == old(running)
    {
      deliveries := deliveries + [MakeDelivery(m, receivedAt, StatusOf(retried, retries, forced))];
    }

    /**
     * `_retry_send`: pause, retry, and stop at the first success; after
     * three failures deliver anyway, marked late. Exactly one delivery is made.
     */
    method RetrySend(m: Message, retryOk: seq<bool>, receivedAt: real) returns (sleeps: seq<int>)
      requires |retryOk| >= MAX_RETRIES
      modifies this
      ensures deliveries == old(deliveries) + [MakeDelivery(m, receivedAt, RetryStatus(retryOk))]
      ensures sleeps == RetryPauses(RetriesMade(retryOk))
      ensures queue == old(queue) && stopRequested == old(stopRequested) && running == old(running)
    {
      var backoff := INITIAL_BACKOFF_MS;
      var retries := 0;
      sleeps := [];
      while retries < MAX_RETRIES
        invariant 0 <= retries <= MAX_RETRIES
        invariant backoff == DoublingPause(INITIAL_BACKOFF_MS, retries + 1)
        invariant sleeps == RetryPauses(retries)
        invariant FirstOk(retryOk, 0) == FirstOk(retryOk, retries)
        invariant deliveries == old(deliveries)
        invariant queue == old(queue) && stopRequested == old(stopRequested) && running == old(running)
      {
        sleeps := sleeps + [backoff];
        if retryOk[retries] {
          Deliver(m, receivedAt, true, retries + 1, false);
          return;
        }
        retries := retries + 1;
        backoff := backoff * 2;
      }
      Deliver(m, receivedAt, true, retries, true);
    }

    /**
     * One turn of the worker loop: nothing when stopped or when the queue is
     * empty; the sentinel stops the loop; any other message is taken from the
     * front and delivered exactly once, first-try or through the retries.
     */
    method WorkerStep(transportFails: bool, retryOk: seq<bool>, receivedAt: real)
      returns (step: Step, sleeps: seq<int>)
      requires running && |retryOk| >= MAX_RETRIES
      modifies this
      ensures old(stopRequested) ==> step == Halted && queue == old(queue) && deliveries == old(deliveries)
      ensures !old(stopRequested) && old(queue) == [] ==> step == Idle && queue == [] && deliveries == old(deliveries)
      ensures !old(stopRequested) && old(queue) != [] ==> queue == old(queue)[1..]
      ensures !old(stopRequested) && old(queue) != [] && old(queue)[0].orderId == SENTINEL_ID ==>
        step == Halted && deliveries == old(deliveries)
      ensures !old(stopRequested) && old(queue) != [] && old(queue)[0].orderId != SENTINEL_ID ==>
        && step == Delivered
        && deliveries == old(deliveries) + [MakeDelivery(old(queue)[0], receivedAt, if transportFails then RetryStatus(retryOk) else Ok)]
        && sleeps == (if transportFails then RetryPauses(RetriesMade(retryOk)) else [])
      ensures running <==> step != Halted
      ensures stopRequested == old(stopRequested)
    {
      sleeps := [];
      if stopRequested {
        running := false;
        return Halted, sleeps;
      }
      if queue == [] {
        return Idle, sleeps;
      }
      var m := queue[0];
      queue := queue[1..];
      if m.orderId == SENTINEL_ID {
        running := false;
        return Halted, sleeps;
      }
      if transportFails {
        sleeps := RetrySend(m, retryOk, receivedAt);
      } else {
        Deliver(m, receivedAt, false, 0, false);
      }
      step := Delivered;
    }
  }
}
