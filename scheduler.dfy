/** The scheduler state machine (`Scheduler`, utils.py lines 171-212): it
    recomputes and applies the state as of now whenever the date changes, and
    fires each event edge-triggered, on an exact minute match, at most once
    per date.  The clock is injected: `Tick` takes the local minute and the
    date that `local_minutes_since_midnight()` would return. */
module Scheduling {
  import opened Wrappers
  import opened Schedule
  import opened LocalTime
  import opened Relays

  /** The fields `_triggered`, `_last_date` and `_last_min`. */
  datatype SchedState = SchedState(triggered: seq<bool>, lastDate: Option<Date>, lastMin: int)

  function AllFalse(n: nat): (r: seq<bool>)
    ensures |r| == n && forall k :: 0 <= k < n ==> !r[k]
  {
    seq(n, _ => false)
  }

  /** The state `__init__` leaves: no flag set, no date seen, `_last_min = -1`. */
  function InitialSchedState(n: nat): SchedState {
    SchedState(AllFalse(n), None, -1)
  }

  // ---------- initial_state ----------

  /** How many events the loop of `initial_state` takes before it breaks at
      the first event after `now`. */
  function CoveredPrefix(s: seq<Event>, now: int): (n: nat)
    ensures n <= |s|
    ensures forall k :: 0 <= k < n ==> s[k].minute <= now
    ensures n < |s| ==> s[n].minute > now
    decreases |s|
  {
    if |s| == 0 || s[0].minute > now then 0
    else 1 + CoveredPrefix(s[1..], now)
  }

  lemma CoveredPrefixUnique(s: seq<Event>, now: int, i: nat)
    requires i <= |s|
    requires forall k :: 0 <= k < i ==> s[k].minute <= now
    requires i < |s| ==> s[i].minute > now
    ensures CoveredPrefix(s, now) == i
  {
  }

  /** What `initial_state` returns: the value of the last event it scanned
      before breaking, `None` when it took none. */
  function StateAsOf(s: seq<Event>, now: int): (r: Option<bool>)
    ensures r.Some? <==> |s| > 0 && s[0].minute <= now
    ensures r.Some? ==> exists k :: 0 <= k < |s| && s[k].minute <= now && r.value == s[k].disconnect
  {
    var n := CoveredPrefix(s, now);
    if n == 0 then None else Some(s[n - 1].disconnect)
  }

  /** On a schedule sorted by minute, the state as of `now` is unset exactly
      when there is no event or the first is after `now`, and otherwise is
      the value of the last event at or before `now`. */
  lemma StateAsOfLatest(s: seq<Event>, now: int)
    requires SortedByMinute(s)
    ensures StateAsOf(s, now).None? <==> (|s| == 0 || s[0].minute > now)
    ensures forall k :: 0 <= k < |s| && s[k].minute <= now && (k + 1 == |s| || s[k + 1].minute > now) ==>
      StateAsOf(s, now) == Some(s[k].disconnect)
  {
    var n := CoveredPrefix(s, now);
    forall k | 0 <= k < |s| && s[k].minute <= now && (k + 1 == |s| || s[k + 1].minute > now)
      ensures n == k + 1
    {
    }
  }

  // ---------- tick ----------

  /** The flags `tick` starts firing from: all cleared by `reset_day` on a new
      date, otherwise the current ones. */
  function DayFlags(s: seq<Event>, st: SchedState, date: Date): (t: seq<bool>)
    requires |st.triggered| == |s|
    ensures |t| == |s|
  {
    if st.lastDate != Some(date) then AllFalse(|s|) else st.triggered
  }

  /** The indices below `n` that the firing loop applies, in schedule order:
      those at minute `now` whose flag is clear. */
  function Fired(s: seq<Event>, t0: seq<bool>, now: int, n: nat): (f: seq<nat>)
    requires n <= |s| && |t0| == |s|
    ensures forall k :: 0 <= k < |f| ==> f[k] < n
  {
    if n == 0 then []
    else Fired(s, t0, now, n - 1) + (if s[n - 1].minute == now && !t0[n - 1] then [n - 1] else [])
  }

  /** Strictly increasing indices. */
  predicate Ascending(f: seq<nat>) {
    forall j, k :: 0 <= j < k < |f| ==> f[j] < f[k]
  }

  /** The firing loop takes exactly the clear-flagged events at minute `now`,
      in ascending order. */
  lemma {:induction false} FiredMembers(s: seq<Event>, t0: seq<bool>, now: int, n: nat)
    requires n <= |s| && |t0| == |s|
    ensures Ascending(Fired(s, t0, now, n))
    ensures forall i :: 0 <= i < n ==> (i in Fired(s, t0, now, n) <==> s[i].minute == now && !t0[i])
  {
    if n > 0 {
      FiredMembers(s, t0, now, n - 1);
      var f0 := Fired(s, t0, now, n - 1);
      if s[n - 1].minute == now && !t0[n - 1] {
        assert Ascending(f0 + [n - 1]);
      } else {
        assert f0 + [] == f0;
      }
    }
  }

  /** The flags after the firing loop. */
  function MarkFired(s: seq<Event>, t0: seq<bool>, now: int): (t: seq<bool>)
    requires |t0| == |s|
    ensures |t| == |s|
  {
    seq(|s|, k requires 0 <= k < |s| => t0[k] || s[k].minute == now)
  }

  /** The flags after the firing loop has visited the indices below `n`. */
  function MarkUpTo(s: seq<Event>, t0: seq<bool>, now: int, n: nat): (t: seq<bool>)
    requires |t0| == |s|
    ensures |t| == |s|
  {
    seq(|s|, k requires 0 <= k < |s| => if k < n then t0[k] || s[k].minute == now else t0[k])
  }

  lemma MarkUpToStep(s: seq<Event>, t0: seq<bool>, now: int, n: nat)
    requires n < |s| && |t0| == |s|
    ensures MarkUpTo(s, t0, now, n)[n] == t0[n]
    ensures MarkUpTo(s, t0, now, n + 1)
         == if s[n].minute == now && !t0[n] then MarkUpTo(s, t0, now, n)[n := true] else MarkUpTo(s, t0, now, n)
  {
  }

  lemma MarkUpToAll(s: seq<Event>, t0: seq<bool>, now: int)
    requires |t0| == |s|
    ensures MarkUpTo(s, t0, now, 0) == t0
    ensures MarkUpTo(s, t0, now, |s|) == MarkFired(s, t0, now)
  {
  }

  /** The values the firing loop hands to the relay for the indices below
      `n`, in firing order. */
  function FiredIntents(s: seq<Event>, t0: seq<bool>, now: int, n: nat): (v: seq<bool>)
    requires n <= |s| && |t0| == |s|
  {
    if n == 0 then []
    else FiredIntents(s, t0, now, n - 1) + (if s[n - 1].minute == now && !t0[n - 1] then [s[n - 1].disconnect] else [])
  }

  lemma {:induction false} FiredIntentsAreIntents(s: seq<Event>, t0: seq<bool>, now: int, n: nat)
    requires n <= |s| && |t0| == |s|
    ensures FiredIntents(s, t0, now, n) == Intents(s, Fired(s, t0, now, n))
  {
    if n > 0 {
      FiredIntentsAreIntents(s, t0, now, n - 1);
      var f := Fired(s, t0, now, n - 1);
      if s[n - 1].minute == now && !t0[n - 1] {
        assert Intents(s, f + [n - 1]) == Intents(s, f) + [s[n - 1].disconnect];
      } else {
        assert f + [] == f;
        assert FiredIntents(s, t0, now, n - 1) + [] == FiredIntents(s, t0, now, n - 1);
      }
    }
  }

  /** The values of the fired events, in firing order. */
  function Intents(s: seq<Event>, f: seq<nat>): (v: seq<bool>)
    requires forall k :: 0 <= k < |f| ==> f[k] < |s|
    ensures |v| == |f|
  {
    seq(|f|, k requires 0 <= k < |f| => s[f[k]].disconnect)
  }

  /** The state after one tick, the indices it fired and every value it
      handed to `relay.set_disconnect`, in order. */
  datatype TickResult = TickResult(state: SchedState, fired: seq<nat>, applied: seq<bool>)

  /** One call of `tick(relay)` at local minute `now` on `date`. */
  function TickStep(s: seq<Event>, st: SchedState, now: int, date: Date): (r: TickResult)
    requires |st.triggered| == |s|
    ensures |r.state.triggered| == |s|
  {
    var rollover := st.lastDate != Some(date);
    var t0 := DayFlags(s, st, date);
    var init := if rollover then [StateAsOf(s, now).GetOr(false)] else [];
    if now != st.lastMin then
      TickResult(SchedState(MarkFired(s, t0, now), Some(date), now), Fired(s, t0, now, |s|),
                 init + FiredIntents(s, t0, now, |s|))
    else
      TickResult(SchedState(t0, Some(date), st.lastMin), [], init)
  }

  /** What one tick does.  It records the date and the minute.  It fires
      event `i` exactly when the minute differs from the last one processed,
      the event's minute is exactly `now` and its flag (cleared on a new
      date) is not yet set; it fires in schedule order and sets the flag.  On
      a new date it first applies the state as of now, `False` when unset. */
  lemma TickFiresExactly(s: seq<Event>, st: SchedState, now: int, date: Date)
    requires |st.triggered| == |s|
    ensures var r := TickStep(s, st, now, date);
      && r.state.lastDate == Some(date)
      && r.state.lastMin == now
      && Ascending(r.fired)
      && (forall i :: 0 <= i < |s| ==>
            (i in r.fired <==> now != st.lastMin && s[i].minute == now && !DayFlags(s, st, date)[i]))
      && (forall i :: 0 <= i < |s| ==>
            r.state.triggered[i] == (DayFlags(s, st, date)[i] || (now != st.lastMin && s[i].minute == now)))
  {
    FiredMembers(s, DayFlags(s, st, date), now, |s|);
  }

  /** The relay calls of one tick: on a new date the state as of now (or
      connected), then the fired events' values in firing order. */
  lemma TickApplies(s: seq<Event>, st: SchedState, now: int, date: Date)
    requires |st.triggered| == |s|
    ensures var r := TickStep(s, st, now, date);
      var lead := if st.lastDate != Some(date) then 1 else 0;
      && |r.applied| == lead + |r.fired|
      && (lead == 1 ==> r.applied[0] == StateAsOf(s, now).GetOr(false))
      && forall k :: 0 <= k < |r.fired| ==> r.applied[lead + k] == s[r.fired[k]].disconnect
  {
    FiredIntentsAreIntents(s, DayFlags(s, st, date), now, |s|);
  }

  /** A new date clears every flag the tick did not just set and re-applies
      the state as of now, even when the schedule is unchanged. */
  lemma RolloverResets(s: seq<Event>, st: SchedState, now: int, date: Date)
    requires |st.triggered| == |s|
    requires st.lastDate != Some(date)
    ensures var r := TickStep(s, st, now, date);
      && |r.applied| > 0 && r.applied[0] == StateAsOf(s, now).GetOr(false)
      && forall i :: 0 <= i < |s| ==> (r.state.triggered[i] <==> i in r.fired)
  {
    TickApplies(s, st, now, date);
    TickFiresExactly(s, st, now, date);
  }

  /** A second tick in the same minute of the same date changes nothing and
      drives nothing. */
  lemma SameMinuteIsIdle(s: seq<Event>, st: SchedState, now: int, date: Date)
    requires |st.triggered| == |s|
    ensures var r1 := TickStep(s, st, now, date);
      var r2 := TickStep(s, r1.state, now, date);
      r2.fired == [] && r2.applied == [] && r2.state == r1.state
  {
  }

  /** Event minutes outside `[0, 1439]` (such as "25:00") never fire when
      ticks are driven by the local clock. */
  lemma OutOfDayEventNeverFires(s: seq<Event>, st: SchedState, t: UtcTime, i: nat)
    requires |st.triggered| == |s| && i < |s|
    requires ValidUtc(t)
    requires s[i].minute < 0 || s[i].minute >= 1440
    ensures i !in TickStep(s, st, LocalMinutes(t).0, LocalMinutes(t).1).fired
  {
    TickFiresExactly(s, st, LocalMinutes(t).0, LocalMinutes(t).1);
  }

  // ---------- runs of ticks ----------

  /** Ticks at the minutes `mins`, all on `date`: the final state and every
      index fired, in order. */
  function RunDay(s: seq<Event>, st: SchedState, mins: seq<int>, date: Date): (r: (SchedState, seq<nat>))
    requires |st.triggered| == |s|
    ensures |r.0.triggered| == |s|
    decreases |mins|
  {
    if |mins| == 0 then (st, [])
    else
      var prev := RunDay(s, st, mins[..|mins| - 1], date);
      var t := TickStep(s, prev.0, mins[|mins| - 1], date);
      (t.state, prev.1 + t.fired)
  }

  lemma {:induction false} AscendingCount(f: seq<nat>, i: nat)
    requires Ascending(f)
    ensures multiset(f)[i] == if i in f then 1 else 0
    decreases |f|
  {
    if |f| > 0 {
      var f0 := f[..|f| - 1];
      assert f == f0 + [f[|f| - 1]];
      AscendingCount(f0, i);
      if i == f[|f| - 1] {
        assert i !in f0;
      }
    }
  }

  /** However the ticks of one date repeat or skip minutes, no event fires
      twice on that date. */
  lemma {:induction false} AtMostOncePerDate(s: seq<Event>, st: SchedState, mins: seq<int>, date: Date, i: nat)
    requires |st.triggered| == |s| && i < |s|
    ensures multiset(RunDay(s, st, mins, date).1)[i] <= 1
    ensures |mins| > 0 ==> RunDay(s, st, mins, date).0.lastDate == Some(date)
    ensures |mins| > 0 && multiset(RunDay(s, st, mins, date).1)[i] == 1 ==> RunDay(s, st, mins, date).0.triggered[i]
    decreases |mins|
  {
    if |mins| > 0 {
      var prefix := mins[..|mins| - 1];
      var now := mins[|mins| - 1];
      AtMostOncePerDate(s, st, prefix, date, i);
      var prev := RunDay(s, st, prefix, date);
      var t := TickStep(s, prev.0, now, date);
      TickFiresExactly(s, prev.0, now, date);
      AscendingCount(t.fired, i);
      assert RunDay(s, st, mins, date).1 == prev.1 + t.fired;
      if |prefix| > 0 && multiset(prev.1)[i] == 1 {
        assert DayFlags(s, prev.0, date) == prev.0.triggered;
        assert i !in t.fired;
      }
    }
  }

  /** Every event fired exactly once if its minute is in `seen`, and never
      otherwise. */
  predicate FiredOncePerMinute(s: seq<Event>, f: seq<nat>, seen: seq<int>) {
    forall i :: 0 <= i < |s| ==> multiset(f)[i] == if s[i].minute in seen then 1 else 0
  }

  /** The flags are set exactly for the events whose minute is in `seen`. */
  predicate FlagsSeen(s: seq<Event>, t: seq<bool>, seen: seq<int>)
    requires |t| == |s|
  {
    forall i :: 0 <= i < |s| ==> (t[i] <==> s[i].minute in seen)
  }

  /** From a new date, ticks at any minutes (polls that repeat a minute, a
      wrap from 1439 to 0, a local hour seen twice when summer time ends)
      fire each event exactly once if its minute is among them and never
      otherwise, provided the first differs from the last minute processed:
      there is no catch-up for a minute that no tick observed.  Afterwards
      the flags are set exactly for those events. */
  lemma {:induction false} ExactlyOncePerDate(s: seq<Event>, st: SchedState, mins: seq<int>, date: Date)
    requires |st.triggered| == |s|
    requires st.lastDate != Some(date)
    requires |mins| > 0 ==> mins[0] != st.lastMin
    ensures FiredOncePerMinute(s, RunDay(s, st, mins, date).1, mins)
    ensures |mins| > 0 ==>
      var r := RunDay(s, st, mins, date).0;
      && r.lastDate == Some(date) && r.lastMin == mins[|mins| - 1]
      && FlagsSeen(s, r.triggered, mins)
    decreases |mins|
  {
    if |mins| > 0 {
      var prefix := mins[..|mins| - 1];
      assert |prefix| > 0 ==> prefix[0] == mins[0];
      ExactlyOncePerDate(s, st, prefix, date);
      ExactlyOnceRun(s, st, mins, date);
    }
  }

  /** `ExactlyOncePerDate` for `mins` from its conclusion for all but the
      last minute. */
  lemma ExactlyOnceRun(s: seq<Event>, st: SchedState, mins: seq<int>, date: Date)
    requires |st.triggered| == |s| && |mins| > 0
    requires st.lastDate != Some(date)
    requires mins[0] != st.lastMin
    requires var prefix := mins[..|mins| - 1];
      var r := RunDay(s, st, prefix, date);
      && FiredOncePerMinute(s, r.1, prefix)
      && (|prefix| > 0 ==>
            && r.0.lastDate == Some(date) && r.0.lastMin == prefix[|prefix| - 1]
            && FlagsSeen(s, r.0.triggered, prefix))
    ensures var r := RunDay(s, st, mins, date);
      && FiredOncePerMinute(s, r.1, mins)
      && r.0.lastDate == Some(date) && r.0.lastMin == mins[|mins| - 1]
      && FlagsSeen(s, r.0.triggered, mins)
  {
    var prefix := mins[..|mins| - 1];
    var now := mins[|mins| - 1];
    assert mins == prefix + [now];
    var prev := RunDay(s, st, prefix, date);
    if |prefix| > 0 && prefix[|prefix| - 1] == now {
      RepeatedMinuteIsIdle(s, prev.0, prev.1, prefix, now, date);
    } else {
      ExactlyOnceStep(s, prev.0, prev.1, prefix, now, date);
    }
  }

  /** Another tick in the minute the previous tick saw fires nothing and
      keeps the flags, and that minute was already seen. */
  lemma RepeatedMinuteIsIdle(s: seq<Event>, st: SchedState, f: seq<nat>, prefix: seq<int>, now: int, date: Date)
    requires |st.triggered| == |s| && |prefix| > 0 && prefix[|prefix| - 1] == now
    requires st.lastDate == Some(date) && st.lastMin == now && FlagsSeen(s, st.triggered, prefix)
    requires FiredOncePerMinute(s, f, prefix)
    ensures var t := TickStep(s, st, now, date);
      && t.state.lastDate == Some(date) && t.state.lastMin == now
      && FiredOncePerMinute(s, f + t.fired, prefix + [now])
      && FlagsSeen(s, t.state.triggered, prefix + [now])
  {
    var t := TickStep(s, st, now, date);
    assert t.fired == [] && t.state.triggered == st.triggered;
    assert f + [] == f;
    forall i | 0 <= i < |s|
      ensures (s[i].minute in prefix + [now]) <==> s[i].minute in prefix
    {
    }
  }

  /** The inductive step of `ExactlyOncePerDate`: a tick at a minute other
      than the last one processed fires exactly the events at that minute
      not yet fired that date, which is none when the minute was seen before. */
  lemma ExactlyOnceStep(s: seq<Event>, st: SchedState, f: seq<nat>, prefix: seq<int>, now: int, date: Date)
    requires |st.triggered| == |s|
    requires now != st.lastMin
    requires |prefix| == 0 ==> st.lastDate != Some(date)
    requires |prefix| > 0 ==>
      st.lastDate == Some(date) && st.lastMin == prefix[|prefix| - 1] && FlagsSeen(s, st.triggered, prefix)
    requires FiredOncePerMinute(s, f, prefix)
    ensures var t := TickStep(s, st, now, date);
      && t.state.lastDate == Some(date) && t.state.lastMin == now
      && FiredOncePerMinute(s, f + t.fired, prefix + [now])
      && FlagsSeen(s, t.state.triggered, prefix + [now])
  {
    var t := TickStep(s, st, now, date);
    var t0 := DayFlags(s, st, date);
    assert forall i :: 0 <= i < |s| ==> (t0[i] <==> s[i].minute in prefix);
    TickFiresExactly(s, st, now, date);
    forall i | 0 <= i < |s|
      ensures multiset(f + t.fired)[i] == if s[i].minute in prefix + [now] then 1 else 0
      ensures t.state.triggered[i] <==> s[i].minute in prefix + [now]
    {
      assert (s[i].minute in prefix + [now]) <==> (s[i].minute in prefix || s[i].minute == now);
      CountStep(f, t.fired, i, s[i].minute in prefix, s[i].minute == now && s[i].minute !in prefix);
    }
  }

  /** The count of `i` after one more tick whose fired list is ascending. */
  lemma CountStep(f0: seq<nat>, f: seq<nat>, i: nat, before: bool, fires: bool)
    requires multiset(f0)[i] == if before then 1 else 0
    requires Ascending(f)
    requires i in f <==> fires
    requires !(before && fires)
    ensures multiset(f0 + f)[i] == if before || fires then 1 else 0
  {
    AscendingCount(f, i);
  }

  lemma FiredIntentsStep(s: seq<Event>, t0: seq<bool>, now: int, n: nat)
    requires n < |s| && |t0| == |s|
    ensures FiredIntents(s, t0, now, n + 1)
         == if s[n].minute == now && !t0[n] then FiredIntents(s, t0, now, n) + [s[n].disconnect]
            else FiredIntents(s, t0, now, n)
  {
    var v := FiredIntents(s, t0, now, n);
    assert v + [] == v;
  }

  /** The pin levels the firing loop writes for the indices below `n`. */
  function FireWrites(s: seq<Event>, t0: seq<bool>, now: int, activeHigh: bool, clickMs: int, n: nat): seq<int>
    requires n <= |s| && |t0| == |s|
  {
    if n == 0 then []
    else FireWrites(s, t0, now, activeHigh, clickMs, n - 1)
         + (if s[n - 1].minute == now && !t0[n - 1] then PinWrites(activeHigh, clickMs, s[n - 1].disconnect) else [])
  }

  /** Those levels are the writes of the fired values. */
  lemma {:induction false} FireWritesAreWrites(s: seq<Event>, t0: seq<bool>, now: int, activeHigh: bool, clickMs: int, n: nat)
    requires n <= |s| && |t0| == |s|
    ensures FireWrites(s, t0, now, activeHigh, clickMs, n) == WritesFor(activeHigh, clickMs, FiredIntents(s, t0, now, n))
  {
    if n > 0 {
      FireWritesAreWrites(s, t0, now, activeHigh, clickMs, n - 1);
      FiredIntentsStep(s, t0, now, n - 1);
      var v := FiredIntents(s, t0, now, n - 1);
      var w := FireWrites(s, t0, now, activeHigh, clickMs, n - 1);
      if s[n - 1].minute == now && !t0[n - 1] {
        var x := s[n - 1].disconnect;
        assert FiredIntents(s, t0, now, n) == v + [x];
        WritesForSnoc(activeHigh, clickMs, v, x);
        assert FireWrites(s, t0, now, activeHigh, clickMs, n) == w + PinWrites(activeHigh, clickMs, x);
      } else {
        assert FiredIntents(s, t0, now, n) == v;
        assert w + [] == w;
        assert FireWrites(s, t0, now, activeHigh, clickMs, n) == w;
      }
    }
  }

  lemma FireStepFires(s: seq<Event>, t0: seq<bool>, now: int, n: nat, activeHigh: bool, clickMs: int,
                      levels0: seq<int>, trig: seq<bool>, levels: seq<int>)
    requires n < |s| && |t0| == |s|
    requires trig == MarkUpTo(s, t0, now, n)
    requires levels == levels0 + FireWrites(s, t0, now, activeHigh, clickMs, n)
    requires s[n].minute == now && !trig[n]
    ensures trig[n := true] == MarkUpTo(s, t0, now, n + 1)
    ensures levels + PinWrites(activeHigh, clickMs, s[n].disconnect)
         == levels0 + FireWrites(s, t0, now, activeHigh, clickMs, n + 1)
  {
    MarkUpToStep(s, t0, now, n);
    SeqAssoc(levels0, FireWrites(s, t0, now, activeHigh, clickMs, n), PinWrites(activeHigh, clickMs, s[n].disconnect));
  }

  lemma FireStepSkips(s: seq<Event>, t0: seq<bool>, now: int, n: nat, activeHigh: bool, clickMs: int,
                      levels0: seq<int>, trig: seq<bool>, levels: seq<int>)
    requires n < |s| && |t0| == |s|
    requires trig == MarkUpTo(s, t0, now, n)
    requires levels == levels0 + FireWrites(s, t0, now, activeHigh, clickMs, n)
    requires !(s[n].minute == now && !trig[n])
    ensures trig == MarkUpTo(s, t0, now, n + 1)
    ensures levels == levels0 + FireWrites(s, t0, now, activeHigh, clickMs, n + 1)
  {
    MarkUpToStep(s, t0, now, n);
    var w := FireWrites(s, t0, now, activeHigh, clickMs, n);
    assert w + [] == w;
  }

  /** Two batches of writes, one after the other, are the writes of the
      concatenated intents. */
  lemma WritesThenWrites(activeHigh: bool, clickMs: int, l0: seq<int>, l1: seq<int>, l2: seq<int>, a: seq<bool>, b: seq<bool>)
    requires l1 == l0 + WritesFor(activeHigh, clickMs, a)
    requires l2 == l1 + WritesFor(activeHigh, clickMs, b)
    ensures l2 == l0 + WritesFor(activeHigh, clickMs, a + b)
  {
    WritesForAppend(activeHigh, clickMs, a, b);
    SeqAssoc(l0, WritesFor(activeHigh, clickMs, a), WritesFor(activeHigh, clickMs, b));
  }

  // ---------- the object ----------

  class Scheduler {
    const schedule: seq<Event>
    var triggered: seq<bool>
    var lastDate: Option<Date>
    var lastMin: int

    /** `_triggered` runs parallel to `schedule`. */
    ghost predicate Valid()
      reads this
    {
      |triggered| == |schedule|
    }

    function State(): SchedState
      reads this
    {
      SchedState(triggered, lastDate, lastMin)
    }

    /** `Scheduler(schedule_minutes)`. */
    constructor (schedule: seq<Event>)
      ensures Valid()
      ensures this.schedule == schedule
      ensures State() == InitialSchedState(|schedule|)
    {
      this.schedule := schedule;
      triggered := AllFalse(|schedule|);
      lastDate := None;
      lastMin := -1;
    }

    /** `reset_day()`: a fresh all-false flag list. */
    method ResetDay()
      modifies this`triggered
      ensures Valid()
      ensures triggered == AllFalse(|schedule|)
    {
      triggered := AllFalse(|schedule|);
    }

    /** `initial_state()` at local minute `now`: scan in schedule order,
        remembering the value of each event at or before `now`, and stop at
        the first event after it. */
    method InitialState(now: int) returns (st: Option<bool>)
      ensures st == StateAsOf(schedule, now)
      ensures SortedByMinute(schedule) ==>
        forall k :: 0 <= k < |schedule| && schedule[k].minute <= now && (k + 1 == |schedule| || schedule[k + 1].minute > now) ==>
          st == Some(schedule[k].disconnect)
    {
      st := None;
      var i := 0;
      while i < |schedule|
        invariant 0 <= i <= |schedule|
        invariant forall k :: 0 <= k < i ==> schedule[k].minute <= now
        invariant st == if i == 0 then None else Some(schedule[i - 1].disconnect)
      {
        if schedule[i].minute <= now {
          st := Some(schedule[i].disconnect);
        } else {
          break;
        }
        i := i + 1;
      }
      CoveredPrefixUnique(schedule, now, i);
      if SortedByMinute(schedule) {
        StateAsOfLatest(schedule, now);
      }
    }

    /** The firing loop of `tick`: every event at minute `now` whose flag is
        clear is applied, in schedule order, and its flag set in place. */
    method FireDue(now: int, relay: Relay)
      requires Valid()
      modifies this`triggered, relay`levels
      ensures Valid()
      ensures triggered == MarkFired(schedule, old(triggered), now)
      ensures relay.levels == old(relay.levels)
        + WritesFor(relay.activeHigh, relay.clickMs, FiredIntents(schedule, old(triggered), now, |schedule|))
    {
      ghost var t0 := triggered;
      ghost var levels0 := relay.levels;
      var i := 0;
      while i < |schedule|
        invariant 0 <= i <= |schedule|
        invariant triggered == MarkUpTo(schedule, t0, now, i)
        invariant relay.levels == levels0 + FireWrites(schedule, t0, now, relay.activeHigh, relay.clickMs, i)
      {
        if schedule[i].minute == now && !triggered[i] {
          FireStepFires(schedule, t0, now, i, relay.activeHigh, relay.clickMs, levels0, triggered, relay.levels);
          FireOne(i, relay);
        } else {
          FireStepSkips(schedule, t0, now, i, relay.activeHigh, relay.clickMs, levels0, triggered, relay.levels);
        }
        i := i + 1;
      }
      MarkUpToAll(schedule, t0, now);
      FireWritesAreWrites(schedule, t0, now, relay.activeHigh, relay.clickMs, |schedule|);
    }

    /** One pass of the firing loop that fires: apply the event, set its flag. */
    method FireOne(i: nat, relay: Relay)
      requires i < |triggered| == |schedule|
      modifies this`triggered, relay`levels
      ensures triggered == old(triggered)[i := true]
      ensures relay.levels == old(relay.levels) + PinWrites(relay.activeHigh, relay.clickMs, schedule[i].disconnect)
    {
      relay.SetDisconnect(schedule[i].disconnect);
      triggered := triggered[i := true];
    }

    /** The date check at the head of `tick`: on a new date, record it, clear
        the flags and apply the state as of now (`False` when unset). */
    method StartDay(now: int, date: Date, relay: Relay)
      requires Valid()
      modifies this`triggered, this`lastDate, relay`levels
      ensures Valid()
      ensures lastDate == Some(date)
      ensures triggered == DayFlags(schedule, old(State()), date)
      ensures relay.levels == old(relay.levels) + WritesFor(relay.activeHigh, relay.clickMs,
        if old(lastDate) != Some(date) then [StateAsOf(schedule, now).GetOr(false)] else [])
    {
      if lastDate != Some(date) {
        lastDate := Some(date);
        ResetDay();
        var st := InitialState(now);
        WritesForSnoc(relay.activeHigh, relay.clickMs, [], st.GetOr(false));
        relay.SetDisconnect(st.GetOr(false));
      }
    }

    /** `tick(relay)` at local minute `now` on `date`. */
    method Tick(now: int, date: Date, relay: Relay)
      requires Valid()
      modifies this`triggered, this`lastDate, this`lastMin, relay`levels
      ensures Valid()
      ensures State() == TickStep(schedule, old(State()), now, date).state
      ensures relay.levels == old(relay.levels)
        + WritesFor(relay.activeHigh, relay.clickMs, TickStep(schedule, old(State()), now, date).applied)
    {
      ghost var r := TickStep(schedule, State(), now, date);
      ghost var init := if lastDate != Some(date) then [StateAsOf(schedule, now).GetOr(false)] else [];
      ghost var levels0 := relay.levels;
      StartDay(now, date, relay);
      ghost var levels1 := relay.levels;
      if now != lastMin {
        lastMin := now;
        ghost var t0 := triggered;
        ghost var fired := FiredIntents(schedule, t0, now, |schedule|);
        assert r.applied == init + fired;
        FireDue(now, relay);
        WritesThenWrites(relay.activeHigh, relay.clickMs, levels0, levels1, relay.levels, init, fired);
      } else {
        assert r.applied == init;
      }
    }
  }
}
