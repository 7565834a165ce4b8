/**
 * The event countdown of src/js/script.js: a list of named events, each with
 * a target time and a `reminded` flag, which a once-a-second tick labels
 * with the time left and, once, reminds about in its last minute.
 * Times are milliseconds since the epoch; the clock reading and the parsed
 * date are parameters.
 */
module Countdown {

  /** What `new Date(dateInput).getTime()` yields: a millisecond count, or NaN for an unparsable date. */
  datatype Instant = At(ms: int) | InvalidDate

  /** One entry of `events`. */
  datatype Event = Event(name: string, eventDate: Instant, reminded: bool)

  /** The four numbers of the `"{d}d {h}h {m}m {s}s left"` label. */
  datatype Remaining = Remaining(days: nat, hours: nat, minutes: nat, seconds: nat)

  /** What the countdown element of an event shows. */
  datatype Label = Left(remaining: Remaining) | Started

  /** `1000 * 60 * 60 * 24`, `1000 * 60 * 60`, `1000 * 60` and `1000`. */
  const MS_PER_DAY := 86400000
  const MS_PER_HOUR := 3600000
  const MS_PER_MINUTE := 60000
  const MS_PER_SECOND := 1000
  /** The reminder window: `distance < 60000`. */
  const REMINDER_WINDOW := 60000

  /**
   * The split of a positive `distance` into days, hours, minutes and seconds,
   * each by `Math.floor` of a quotient of a remainder. The parts are in
   * range and add back up to `distance` short of its last milliseconds.
   */
  function Decompose(distance: int): (r: Remaining)
    requires distance > 0
    ensures r.hours < 24 && r.minutes < 60 && r.seconds < 60
    ensures r.days * MS_PER_DAY + r.hours * MS_PER_HOUR + r.minutes * MS_PER_MINUTE
            + r.seconds * MS_PER_SECOND + distance % MS_PER_SECOND == distance
  {
    var days := distance / MS_PER_DAY;
    var hours := (distance % MS_PER_DAY) / MS_PER_HOUR;
    var minutes := (distance % MS_PER_HOUR) / MS_PER_MINUTE;
    var seconds := (distance % MS_PER_MINUTE) / MS_PER_SECOND;
    assert distance / MS_PER_HOUR == 24 * days + hours;
    assert distance / MS_PER_MINUTE == 60 * (distance / MS_PER_HOUR) + minutes;
    assert distance / MS_PER_SECOND == 60 * (distance / MS_PER_MINUTE) + seconds;
    Remaining(days, hours, minutes, seconds)
  }

  /** `event.eventDate - now > 0`; false when the date is NaN. */
  predicate Upcoming(e: Event, now: int) {
    e.eventDate.At? && e.eventDate.ms - now > 0
  }

  /** The label the tick at `now` writes for `e`. */
  function LabelOf(e: Event, now: int): (r: Label)
    ensures r == Started <==> !(e.eventDate.At? && e.eventDate.ms > now)
  {
    if Upcoming(e, now) then Left(Decompose(e.eventDate.ms - now)) else Started
  }

  /** The event is less than a minute away (and not yet due). */
  predicate InWindow(e: Event, now: int) {
    Upcoming(e, now) && e.eventDate.ms - now < REMINDER_WINDOW
  }

  /** The tick at `now` plays the sound and alerts for `e`. */
  predicate Fires(e: Event, now: int) {
    InWindow(e, now) && !e.reminded
  }

  /** The event after the tick at `now`: `reminded` is set when it fires. */
  function Tick(e: Event, now: int): (r: Event)
    ensures r.name == e.name && r.eventDate == e.eventDate
    ensures r.reminded <==> e.reminded || InWindow(e, now)
  {
    if Fires(e, now) then e.(reminded := true) else e
  }

  /** The indices, in order, of the events the tick at `now` alerts about. */
  function Reminders(evs: seq<Event>, now: int): (r: seq<nat>)
    ensures |r| <= |evs|
  {
    if evs == [] then []
    else
      var last := |evs| - 1;
      Reminders(evs[..last], now) + (if Fires(evs[last], now) then [last] else [])
  }

  /**
   * The alerts of one tick are the positions of exactly the events that fire,
   * in increasing order, so each event is alerted about at most once.
   */
  lemma {:induction false} RemindersSpec(evs: seq<Event>, now: int)
    ensures forall i :: i in Reminders(evs, now) <==> 0 <= i < |evs| && Fires(evs[i], now)
    ensures forall j, k :: 0 <= j < k < |Reminders(evs, now)| ==> Reminders(evs, now)[j] < Reminders(evs, now)[k]
  {
    if evs != [] {
      var last := |evs| - 1;
      RemindersSpec(evs[..last], now);
      var r := Reminders(evs[..last], now);
      assert forall i :: 0 <= i < last ==> evs[..last][i] == evs[i];
      forall j | 0 <= j < |r| ensures r[j] < last {
        assert r[j] in r;
      }
    }
  }

  /** The alerts of a tick over one more event: those of the events before it, then its own. */
  lemma RemindersSnoc(evs: seq<Event>, i: nat, now: int)
    requires i < |evs|
    ensures Reminders(evs[..i + 1], now) == Reminders(evs[..i], now) + (if Fires(evs[i], now) then [i] else [])
  {
    assert evs[..i + 1][..i] == evs[..i];
  }

  /**
   * A label says "Event Started!" exactly when the date is NaN or not after
   * `now`; otherwise it counts down. A tick that labels an event started
   * never alerts about it, and an event it alerts about is labelled with no
   * whole minutes left.
   */
  lemma LabelStartedIff(e: Event, now: int)
    ensures LabelOf(e, now) == Started <==> !(e.eventDate.At? && e.eventDate.ms > now)
    ensures LabelOf(e, now) == Started ==> !Fires(e, now)
    ensures Fires(e, now) ==>
              var r := LabelOf(e, now).remaining;
              LabelOf(e, now).Left? && r.days == 0 && r.hours == 0 && r.minutes == 0
  {
    if Fires(e, now) {
      var d := e.eventDate.ms - now;
      var r := Decompose(d);
      assert r.days * MS_PER_DAY <= d < MS_PER_MINUTE;
    }
  }

  /** A tick changes nothing but `reminded`, only ever from false to true, and a second tick at the same time does nothing. */
  lemma TickKeepsEvent(e: Event, now: int)
    ensures Tick(e, now).name == e.name && Tick(e, now).eventDate == e.eventDate
    ensures e.reminded ==> Tick(e, now) == e
    ensures Tick(e, now).reminded <==> e.reminded || InWindow(e, now)
    ensures !Fires(Tick(e, now), now)
  {
  }

  /** Ticks at the clock readings `nows`, in order: the event afterwards and how many alerts it raised. */
  function Run(e: Event, nows: seq<int>): (Event, nat)
    decreases |nows|
  {
    if nows == [] then (e, 0)
    else
      var rest := Run(Tick(e, nows[0]), nows[1..]);
      (rest.0, rest.1 + (if Fires(e, nows[0]) then 1 else 0))
  }

  /** Some tick of `nows` falls in the event's last minute. */
  predicate SomeTickInWindow(e: Event, nows: seq<int>) {
    exists k :: 0 <= k < |nows| && InWindow(e, nows[k])
  }

  /**
   * However many ticks there are, an event raises at most one alert: exactly
   * one when it was not yet reminded and some tick falls in its last minute,
   * none otherwise; and it ends up reminded exactly when it started so or
   * such a tick came.
   */
  lemma {:induction false} RemindsAtMostOnce(e: Event, nows: seq<int>)
    ensures Run(e, nows).1 == (if !e.reminded && SomeTickInWindow(e, nows) then 1 else 0)
    ensures Run(e, nows).0.reminded <==> e.reminded || SomeTickInWindow(e, nows)
    ensures Run(e, nows).0.name == e.name && Run(e, nows).0.eventDate == e.eventDate
    decreases |nows|
  {
    if nows != [] {
      var t := Tick(e, nows[0]);
      RemindsAtMostOnce(t, nows[1..]);
      assert SomeTickInWindow(e, nows) <==> InWindow(e, nows[0]) || SomeTickInWindow(t, nows[1..]) by {
        if SomeTickInWindow(e, nows) {
          var k :| 0 <= k < |nows| && InWindow(e, nows[k]);
          if k > 0 { assert nows[1..][k - 1] == nows[k]; }
        }
        if SomeTickInWindow(t, nows[1..]) {
          var k :| 0 <= k < |nows[1..]| && InWindow(t, nows[1..][k]);
          assert InWindow(e, nows[k + 1]);
        }
      }
    }
  }

  /** The `events` list of the page. */
  class Tracker {
    var events: seq<Event>

    constructor ()
      ensures events == []
    {
      events := [];
    }

    /**
     * `addEvent()`: both inputs must be non-empty (a blank name is accepted);
     * the new event goes at the end, not yet reminded. `parsed` stands for
     * `new Date(dateInput).getTime()`.
     */
    method AddEvent(name: string, dateInput: string, parsed: Instant) returns (added: bool)
      modifies this
      ensures added <==> name != [] && dateInput != []
      ensures events == if added then old(events) + [Event(name, parsed, false)] else old(events)
    {
      if name == [] || dateInput == [] {
        return false;
      }
      events := events + [Event(name, parsed, false)];
      return true;
    }

    /**
     * `updateCountdowns()` at the clock reading `now`: every event gets its
     * label, the events in their last minute that were not yet reminded are
     * alerted about in list order and marked reminded, and nothing else
     * changes.
     */
    method UpdateCountdowns(now: int) returns (labels: seq<Label>, alerts: seq<nat>)
      modifies this
      ensures |events| == |old(events)| && |labels| == |events|
      ensures forall i :: 0 <= i < |events| ==>
                events[i] == Tick(old(events)[i], now) && labels[i] == LabelOf(old(events)[i], now)
      ensures alerts == Reminders(old(events), now)
    {
      labels := [];
      alerts := [];
      var i := 0;
      while i < |events|
        invariant 0 <= i <= |events| == |old(events)| && |labels| == i
        invariant forall j :: 0 <= j < i ==>
                    events[j] == Tick(old(events)[j], now) && labels[j] == LabelOf(old(events)[j], now)
        invariant forall j :: i <= j < |events| ==> events[j] == old(events)[j]
        invariant alerts == Reminders(old(events)[..i], now)
      {
        var event := events[i];
        assert event == old(events)[i];
        var distance := if event.eventDate.At? then event.eventDate.ms - now else 0;
        RemindersSnoc(old(events), i, now);
        if event.eventDate.At? && distance > 0 {
          labels := labels + [Left(Decompose(distance))];
          if distance < REMINDER_WINDOW && !event.reminded {
            alerts := alerts + [i];
            events := events[i := event.(reminded := true)];
          } else {
            assert Tick(event, now) == event;
          }
        } else {
          labels := labels + [Started];
          assert Tick(event, now) == event;
        }
        i := i + 1;
      }
      assert old(events)[..i] == old(events);
    }
  }
}
