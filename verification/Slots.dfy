/**
 * Pairing a scheduled run with its cron slot (`experiments/37-schedule-delay.py`): every slot of
 * an interval, and the one a firing belongs to. Instants are seconds in UTC.
 */
module Slots {
  import opened Order

  const HOUR := 3600
  const DAY := 86400

  function Midnight(t: int): int { t - t % DAY }

  /** On the hour, at one of the scheduled hours. */
  predicate IsSlot(t: int, hours: seq<nat>) {
    t % HOUR == 0 && (t % DAY) / HOUR in hours
  }

  predicate Earlier(a: int, b: int) { a < b }

  ghost predicate Hours(hours: seq<nat>) {
    && (forall h :: h in hours ==> h < 24)
    && (forall i, j :: 0 <= i < j < |hours| ==> hours[i] != hours[j])
  }

  lemma {:induction false} MidnightBefore(t: int)
    ensures Midnight(t) % DAY == 0 && Midnight(t) <= t < Midnight(t) + DAY
  {
    var q := t / DAY;
    assert t == q * DAY + t % DAY;
    assert Midnight(t) == q * DAY;
  }

  lemma {:induction false} DayOf(t: int, day: int)
    requires day % DAY == 0 && day <= t < day + DAY
    ensures Midnight(t) == day
  {
    assert t % DAY == t - day;
  }

  lemma {:induction false} SlotOfDay(day: int, h: nat, hours: seq<nat>)
    requires day % DAY == 0 && h < 24
    ensures IsSlot(day + h * HOUR, hours) <==> h in hours
    ensures Midnight(day + h * HOUR) == day
  {
    var t := day + h * HOUR;
    assert t % DAY == h * HOUR;
  }

  lemma {:induction false} SlotHasHour(t: int, hours: seq<nat>) returns (h: nat)
    requires IsSlot(t, hours) && Hours(hours)
    ensures h in hours && t == Midnight(t) + h * HOUR
  {
    h := (t % DAY) / HOUR;
    assert t % DAY % HOUR == 0;
  }

  predicate AtHour(t: int, day: int, h: nat) { t == 86400 * day + 3600 * h }

  /** A slot is a scheduled hour of some day, days of 86400 seconds and hours of 3600. */
  lemma {:induction false} SlotIs(t: int, hours: seq<nat>)
    requires Hours(hours)
    ensures IsSlot(t, hours) <==> exists day: int, h: nat :: h in hours && AtHour(t, day, h)
  {
    hide IsSlot;
    if IsSlot(t, hours) {
      var h := SlotHasHour(t, hours);
      MidnightBefore(t);
      var day := Midnight(t) / DAY;
      assert Midnight(t) == 86400 * day;
      assert h in hours && AtHour(t, day, h);
    }
    forall day: int, h: nat | h in hours && AtHour(t, day, h) ensures IsSlot(t, hours) {
      SlotOfDay(86400 * day, h, hours);
    }
  }

  /** What the loops have collected by a day, and by an hour within it. */
  ghost predicate Collected(t: int, start: int, end: int, hours: seq<nat>, day: int, i: nat)
    requires i <= |hours|
  {
    start <= t <= end && IsSlot(t, hours) && (t < day || exists j :: 0 <= j < i && t == day + hours[j] * HOUR)
  }

  lemma {:induction false} DayDone(t: int, start: int, end: int, hours: seq<nat>, day: int)
    requires day % DAY == 0 && Hours(hours)
    ensures Collected(t, start, end, hours, day, |hours|) <==> Collected(t, start, end, hours, day + DAY, 0)
  {
    hide IsSlot, Midnight;
    if Collected(t, start, end, hours, day + DAY, 0) && t >= day {
      var h := SlotHasHour(t, hours);
      DayOf(t, day);
      var j :| 0 <= j < |hours| && hours[j] == h;
    }
    if Collected(t, start, end, hours, day, |hours|) && t >= day {
      var j :| 0 <= j < |hours| && t == day + hours[j] * HOUR;
      assert hours[j] in hours;
    }
  }

  lemma {:induction false} HourDone(t: int, start: int, end: int, hours: seq<nat>, day: int, i: nat)
    requires day % DAY == 0 && Hours(hours) && i < |hours|
    ensures var moment := day + hours[i] * HOUR;
            && (Collected(t, start, end, hours, day, i + 1) <==>
                  Collected(t, start, end, hours, day, i) || (t == moment && start <= moment <= end))
            && !Collected(moment, start, end, hours, day, i)
  {
    assert hours[i] in hours;
    SlotOfDay(day, hours[i], hours);
    hide IsSlot;
  }

  /** Before the first day nothing of the interval has been passed, and after the last all of it. */
  lemma {:induction false} AllDays(start: int, end: int, hours: seq<nat>)
    requires Hours(hours)
    ensures forall t :: !Collected(t, start, end, hours, Midnight(start), 0)
    ensures forall t, day: int :: day > end ==>
              (Collected(t, start, end, hours, day, 0) <==> start <= t <= end && IsSlot(t, hours))
  {
    hide IsSlot, Hours;
  }

  /** `slots_between`: exactly the slots of the interval, each once, oldest first. */
  method SlotsBetween(start: int, end: int, hours: seq<nat>) returns (out: seq<int>)
    requires Hours(hours)
    ensures forall t :: t in out <==> start <= t <= end && IsSlot(t, hours)
    ensures forall i, j :: 0 <= i < j < |out| ==> out[i] < out[j]
  {
    hide IsSlot, Hours, Collected;
    AllDays(start, end, hours);
    out := [];
    var day := Midnight(start);
    while day <= end
      invariant day % DAY == 0 && day >= Midnight(start)
      invariant forall t :: t in out <==> Collected(t, start, end, hours, day, 0)
      invariant forall i, j :: 0 <= i < j < |out| ==> out[i] != out[j]
      decreases end - day
    {
      for i := 0 to |hours|
        invariant forall t :: t in out <==> Collected(t, start, end, hours, day, i)
        invariant forall k, j :: 0 <= k < j < |out| ==> out[k] != out[j]
      {
        var moment := day + hours[i] * HOUR;
        forall t
          ensures Collected(t, start, end, hours, day, i + 1) <==>
                    Collected(t, start, end, hours, day, i) || (t == moment && start <= moment <= end)
        {
          HourDone(t, start, end, hours, day, i);
        }
        HourDone(moment, start, end, hours, day, i);
        if start <= moment <= end {
          out := out + [moment];
        }
      }
      forall t
        ensures Collected(t, start, end, hours, day, |hours|) <==> Collected(t, start, end, hours, day + DAY, 0)
      {
        DayDone(t, start, end, hours, day);
      }
      day := day + DAY;
    }
    SortStrictlyAscends(out, Earlier);
    SameElements(out, Sort(out, Earlier));
    out := Sort(out, Earlier);
  }

  // ---- the slot of a firing ------------------------------------------------------------------------

  const LOOK_BACK := 2 * DAY

  /** Every scheduled hour comes round within a day. */
  lemma {:induction false} SlotWithinADay(fired: int, h: nat, hours: seq<nat>) returns (t: int)
    requires h in hours && h < 24
    ensures IsSlot(t, hours) && fired - DAY < t <= fired
  {
    hide IsSlot, Midnight;
    var today := Midnight(fired);
    MidnightBefore(fired);
    assert (today - DAY) % DAY == 0;
    SlotOfDay(today, h, hours);
    SlotOfDay(today - DAY, h, hours);
    t := if today + h * HOUR <= fired then today + h * HOUR else today - DAY + h * HOUR;
  }

  /**
   * The choice in `main`: of all slots there have ever been, the last one not after the firing.
   * Looking back two days is enough, and the delay is less than one.
   */
  method SlotOf(fired: int, hours: seq<nat>) returns (slot: int, found: bool)
    requires Hours(hours)
    ensures found <==> hours != []
    ensures found ==> IsSlot(slot, hours) && 0 <= fired - slot < DAY
    ensures found ==> forall t :: IsSlot(t, hours) && t <= fired ==> t <= slot
  {
    var candidates := SlotsBetween(fired - LOOK_BACK, fired, hours);
    assert candidates != [] ==> candidates[0] in candidates;
    if hours != [] {
      assert hours[0] in hours;
      ghost var recent := SlotWithinADay(fired, hours[0], hours);
      assert recent in candidates;
    }
    if candidates == [] {
      return 0, false;
    }
    slot, found := candidates[|candidates| - 1], true;
    assert slot in candidates;
    forall t | IsSlot(t, hours) && t <= fired ensures t <= slot {
      if t >= fired - LOOK_BACK {
        var i :| 0 <= i < |candidates| && candidates[i] == t;
        assert i < |candidates| - 1 ==> Earlier(candidates[i], slot);
      }
    }
  }
}
