/**
 * Overcooking alerts. Each oven runs a timer that samples the clock; the
 * first sample past the size's threshold raises one alert, CRITICO when it is
 * more than three minutes past, ALTO otherwise. Oven ids come from a shared
 * counter. Clock readings are parameters (seconds, exact reals).
 */
module Alertas {

  import opened Wrappers

  /** Cooking threshold per size, in minutes. */
  const COOKING_THRESHOLDS_MIN: map<string, int> := map["personal" := 10, "mediana" := 12, "grande" := 15]

  /** Minutes past the threshold beyond which an alert is critical. */
  const CRITICAL_EXTRA_MIN: real := 3.0

  const CRITICO: string := "CRITICO"
  const ALTO: string := "ALTO"

  /** The severity of an alert raised at `elapsedMin` minutes against `thresholdMin`. */
  function SeverityOf(elapsedMin: real, thresholdMin: int): (sev: string)
    ensures sev == CRITICO || sev == ALTO
  {
    if elapsedMin - thresholdMin as real > CRITICAL_EXTRA_MIN then CRITICO else ALTO
  }

  /**
   * An alert: its severity (a string, as in the queue protocol), the oven it
   * concerns, the elapsed minutes when raised, and the start and creation
   * instants (seconds).
   */
  datatype AlertEvent = AlertEvent(
    severity: string,
    pizzaType: string,
    size: string,
    elapsedMin: real,
    startedAt: real,
    createdAt: real,
    ovenId: int)

  /** The priority key set after construction: CRITICO events first. */
  function SortIndex(e: AlertEvent): int {
    if e.severity == CRITICO then 0 else 1
  }

  /** Under the key, an event precedes another exactly when it is critical and the other is not. */
  lemma CriticalSortsFirst(e1: AlertEvent, e2: AlertEvent)
    ensures SortIndex(e1) < SortIndex(e2) <==> e1.severity == CRITICO && e2.severity != CRITICO
    ensures SortIndex(e1) == SortIndex(e2) <==> (e1.severity == CRITICO <==> e2.severity == CRITICO)
  {
  }

  /** The state column of the ovens table: CRÍTICO past threshold + 3, ALTO past the threshold, else OK. */
  function DisplayState(elapsedMin: real, thresholdMin: int): string {
    if elapsedMin > thresholdMin as real + CRITICAL_EXTRA_MIN then "CRÍTICO"
    else if elapsedMin > thresholdMin as real then "ALTO"
    else "OK"
  }

  /**
   * Over exact arithmetic the table's state agrees with the alert rule: OK
   * exactly when no alert is due, and otherwise the critical/high split of
   * the severity.
   */
  lemma DisplayAgreesWithSeverity(elapsedMin: real, thresholdMin: int)
    ensures DisplayState(elapsedMin, thresholdMin) == "OK" <==> elapsedMin <= thresholdMin as real
    ensures elapsedMin > thresholdMin as real ==>
      (DisplayState(elapsedMin, thresholdMin) == "CRÍTICO" <==> SeverityOf(elapsedMin, thresholdMin) == CRITICO)
    ensures elapsedMin > thresholdMin as real ==>
      (DisplayState(elapsedMin, thresholdMin) == "ALTO" <==> SeverityOf(elapsedMin, thresholdMin) == ALTO)
  {
  }

  // ---------------------------------------------------------------------
  // The timer's alert decision, as a function of the clock readings
  // ---------------------------------------------------------------------

  /** What a timer fixes at creation: its id, the pizza, the size's threshold and the start instant. */
  datatype Oven = Oven(ovenId: int, pizzaType: string, size: string, thresholdMin: int, startedAtTs: real)

  function ElapsedMin(o: Oven, now: real): real {
    (now - o.startedAtTs) / 60.0
  }

  predicate Overdue(o: Oven, now: real) {
    ElapsedMin(o, now) > o.thresholdMin as real
  }

  /** The event a timer emits at the reading `now`. */
  function AlertAt(o: Oven, now: real): AlertEvent {
    var m := ElapsedMin(o, now);
    AlertEvent(SeverityOf(m, o.thresholdMin), o.pizzaType, o.size, m, o.startedAtTs, now, o.ovenId)
  }

  /** The events the loop emits over successive readings, `sent` being the latch's value before the first. */
  function Alerts(o: Oven, sent: bool, readings: seq<real>): seq<AlertEvent>
    decreases |readings|
  {
    if readings == [] then []
    else if !sent && Overdue(o, readings[0]) then [AlertAt(o, readings[0])] + Alerts(o, true, readings[1..])
    else Alerts(o, sent, readings[1..])
  }

  /** Once the latch is set, the timer stays silent. */
  lemma {:induction false} LatchedTimerIsSilent(o: Oven, readings: seq<real>)
    ensures Alerts(o, true, readings) == []
  {
    if readings != [] {
      LatchedTimerIsSilent(o, readings[1..]);
    }
  }

  /**
   * A timer emits at most one alert: none when its latch was already set or
   * no reading is overdue, and otherwise the alert for the first overdue
   * reading.
   */
  lemma {:induction false} OneAlertAtFirstOverdue(o: Oven, sent: bool, readings: seq<real>)
    ensures |Alerts(o, sent, readings)| <= 1
    ensures Alerts(o, sent, readings) != [] <==> !sent && exists i | 0 <= i < |readings| :: Overdue(o, readings[i])
    ensures Alerts(o, sent, readings) != [] ==> exists i | 0 <= i < |readings| ::
      && Overdue(o, readings[i])
      && (forall j | 0 <= j < i :: !Overdue(o, readings[j]))
      && Alerts(o, sent, readings) == [AlertAt(o, readings[i])]
  {
    if readings != [] {
      var rest := readings[1..];
      assert forall i | 1 <= i < |readings| :: readings[i] == rest[i - 1];
      if !sent && Overdue(o, readings[0]) {
        LatchedTimerIsSilent(o, rest);
        assert Alerts(o, sent, readings) == [AlertAt(o, readings[0])];
      } else {
        OneAlertAtFirstOverdue(o, sent, rest);
        if Alerts(o, sent, readings) != [] {
          var i :| 0 <= i < |rest| && Overdue(o, rest[i])
            && (forall j | 0 <= j < i :: !Overdue(o, rest[j]))
            && Alerts(o, sent, rest) == [AlertAt(o, rest[i])];
          assert readings[i + 1] == rest[i];
        }
      }
    }
  }

  /** Every emitted alert is past the threshold and carries the severity rule. */
  lemma AlertsAreOverdue(o: Oven, sent: bool, readings: seq<real>)
    ensures forall e | e in Alerts(o, sent, readings) ::
      && e.elapsedMin > o.thresholdMin as real
      && e.ovenId == o.ovenId
      && (e.severity == CRITICO <==> e.elapsedMin - o.thresholdMin as real > CRITICAL_EXTRA_MIN)
  {
    OneAlertAtFirstOverdue(o, sent, readings);
  }

  // ---------------------------------------------------------------------
  // Oven ids and timers
  // ---------------------------------------------------------------------

  /** The class-wide counter oven ids are drawn from. */
  class OvenIdSequence {
    var next: int

    constructor ()
      ensures next == 1
    {
      next := 1;
    }

    /** Takes the current value and advances the counter. */
    method Draw() returns (id: int)
      modifies this
      ensures id == old(next) && next == old(next) + 1
    {
      id := next;
      next := next + 1;
    }
  }

  class BakeTimer {
    const oven: Oven
    /** The latch that keeps a second alert from being emitted. */
    var alertSent: bool
    var elapsedS: real
    var stopped: bool

    constructor (oven: Oven)
      ensures this.oven == oven && !alertSent && elapsedS == 0.0 && !stopped
    {
      this.oven := oven;
      alertSent := false;
      elapsedS := 0.0;
      stopped := false;
    }

    /** Asks the loop to end before its next sample. */
    method Stop()
      modifies this
      ensures stopped && alertSent == old(alertSent) && elapsedS == old(elapsedS)
    {
      stopped := true;
    }

    /** One pass of the timer loop at clock reading `now`. */
    method Tick(now: real) returns (alert: Option<AlertEvent>)
      modifies this
      ensures elapsedS == now - oven.startedAtTs
      ensures alert == if !old(alertSent) && Overdue(oven, now) then Some(AlertAt(oven, now)) else None
      ensures alertSent == (old(alertSent) || alert.Some?)
      ensures stopped == old(stopped)
    {
      elapsedS := now - oven.startedAtTs;
      var elapsedMin := elapsedS / 60.0;
      alert := None;
      if !alertSent && elapsedMin > oven.thresholdMin as real {
        var sev := if elapsedMin - oven.thresholdMin as real > CRITICAL_EXTRA_MIN then CRITICO else ALTO;
        alert := Some(AlertEvent(sev, oven.pizzaType, oven.size, elapsedMin, oven.startedAtTs, now, oven.ovenId));
        alertSent := true;
      }
    }

    /**
     * The timer loop over successive clock readings, unless stopped: the
     * events it emits are those of `Alerts`, and the latch ends set exactly
     * when it was set before or an event was emitted.
     */
    method Run(readings: seq<real>) returns (alerts: seq<AlertEvent>)
      modifies this
      ensures old(stopped) ==> alerts == [] && alertSent == old(alertSent) && elapsedS == old(elapsedS)
      ensures !old(stopped) ==> alerts == Alerts(oven, old(alertSent), readings)
      ensures alertSent == (old(alertSent) || alerts != [])
      ensures !old(stopped) && readings != [] ==> elapsedS == readings[|readings| - 1] - oven.startedAtTs
      ensures stopped == old(stopped)
    {
      alerts := [];
      var i := 0;
      while i < |readings| && !stopped
        invariant 0 <= i <= |readings|
        invariant stopped == old(stopped) && (stopped ==> i == 0 && alerts == [])
        invariant alertSent == (old(alertSent) || alerts != [])
        invariant alerts + Alerts(oven, alertSent, readings[i..]) == Alerts(oven, old(alertSent), readings)
        invariant i == 0 ==> elapsedS == old(elapsedS)
        invariant i > 0 ==> elapsedS == readings[i - 1] - oven.startedAtTs
      {
        assert readings[i..][1..] == readings[i + 1..];
        var a := Tick(readings[i]);
        if a.Some? {
          alerts := alerts + [a.value];
        }
        i := i + 1;
      }
      if !stopped {
        assert readings[i..] == [];
        assert alerts + [] == alerts;
      }
    }
  }

  /**
   * Creating a timer: an id is drawn first, then the size's threshold is
   * looked up; an unknown size fails after the id was consumed.
   */
  method NewBakeTimer(ids: OvenIdSequence, pizzaType: string, size: string, now: real) returns (t: Option<BakeTimer>)
    modifies ids
    ensures ids.next == old(ids.next) + 1
    ensures t.Some? <==> size in COOKING_THRESHOLDS_MIN
    ensures t.Some? ==> fresh(t.value)
    ensures t.Some? ==> t.value.oven == Oven(old(ids.next), pizzaType, size, COOKING_THRESHOLDS_MIN[size], now)
    ensures t.Some? ==> !t.value.alertSent && t.value.elapsedS == 0.0 && !t.value.stopped
  {
    var id := ids.Draw();
    if size !in COOKING_THRESHOLDS_MIN {
      return None;
    }
    var timer := new BakeTimer(Oven(id, pizzaType, size, COOKING_THRESHOLDS_MIN[size], now));
    t := Some(timer);
  }

  /**
   * Starting several timers in a row, one per start instant: they receive
   * successive, hence strictly increasing and distinct, oven ids.
   */
  method StartMany(ids: OvenIdSequence, pizzaType: string, size: string, starts: seq<real>)
    returns (timers: seq<BakeTimer>)
    requires size in COOKING_THRESHOLDS_MIN
    modifies ids
    ensures |timers| == |starts| && ids.next == old(ids.next) + |starts|
    ensures forall i | 0 <= i < |timers| :: timers[i].oven.ovenId == old(ids.next) + i
    ensures forall i, j | 0 <= i < j < |timers| :: timers[i].oven.ovenId < timers[j].oven.ovenId
  {
    timers := [];
    for k := 0 to |starts|
      invariant |timers| == k && ids.next == old(ids.next) + k
      invariant forall i | 0 <= i < k :: timers[i].oven.ovenId == old(ids.next) + i
    {
      var t := NewBakeTimer(ids, pizzaType, size, starts[k]);
      timers := timers + [t.value];
    }
  }
}
