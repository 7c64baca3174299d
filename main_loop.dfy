/** The program around the engine (main.py): drive the relay to the state as
    of now at startup, then loop forever ticking the scheduler and, at local
    23:55, try once to replace the plan with a freshly fetched one.  The
    clock, the fetched configuration and whether a new `Relay` can be built
    are inputs of each step. */
module MainLoop {
  import opened Wrappers
  import opened Schedule
  import opened LocalTime
  import opened Relays
  import opened Scheduling

  /** `REFETCH_MIN`, the local minute of the nightly refetch. */
  const RefetchMin: int := Mins(23, 55)

  /** The guard of the refetch block: the refetch minute, not yet handled. */
  predicate ShouldRefetch(nowMin: int, lastMin: int) {
    nowMin == RefetchMin && nowMin != lastMin
  }

  /** The outcome of the refetch block: the new `last_min`, whether a fetch
      was attempted, and the plan that replaces the running one, if any.
      `fetched` is what `load_config` returned (`None` when it raised) and
      `relayOk` whether `Relay(...)` could be constructed. */
  datatype Refetch = Refetch(lastMin: int, attempted: bool, plan: Option<ParsedConfig>)

  function RefetchStep(lastMin: int, nowMin: int, fetched: Option<Config>, relayOk: bool): (r: Refetch)
    ensures r.attempted <==> ShouldRefetch(nowMin, lastMin)
    ensures r.lastMin == if r.attempted then RefetchMin else lastMin
    ensures r.plan.Some? <==>
      r.attempted && fetched.Some? && ParseConfig(fetched.value).Success? && relayOk
    ensures r.plan.Some? ==> r.plan.value == ParseConfig(fetched.value).value
    ensures r.plan.Some? ==> StrictlyIncreasing(r.plan.value.schedule)
  {
    if !ShouldRefetch(nowMin, lastMin) then Refetch(lastMin, false, None)
    else if fetched.None? then Refetch(nowMin, true, None)
    else
      var parsed := ParseConfig(fetched.value);
      if parsed.Failure? || !relayOk then Refetch(nowMin, true, None)
      else
        ParseConfigOutcome(fetched.value);
        Refetch(nowMin, true, Some(parsed.value))
  }

  /** The `last_min` and the number of fetch attempts after the refetch
      block has seen the local minutes `mins`, whatever each fetch returned:
      neither depends on the fetch, so each step is `RefetchStep` with a
      failed one. */
  function RefetchRun(lastMin: int, mins: seq<int>): (r: (int, nat))
    ensures r.1 <= 1
    ensures r.0 == if r.1 == 1 then RefetchMin else lastMin
    decreases |mins|
  {
    if |mins| == 0 then (lastMin, 0)
    else
      var prev := RefetchRun(lastMin, mins[..|mins| - 1]);
      var step := RefetchStep(prev.0, mins[|mins| - 1], None, false);
      (step.lastMin, if step.attempted then prev.1 + 1 else prev.1)
  }

  /** One more minute of a run is one refetch block, whatever the fetch
      returns: `last_min` becomes that block's, and the count rises exactly
      when the block attempts a fetch. */
  lemma RefetchRunStep(lastMin: int, mins: seq<int>, now: int, fetched: Option<Config>, relayOk: bool)
    ensures var prev := RefetchRun(lastMin, mins);
      var step := RefetchStep(prev.0, now, fetched, relayOk);
      && RefetchRun(lastMin, mins + [now]).0 == step.lastMin
      && RefetchRun(lastMin, mins + [now]).1 == if step.attempted then prev.1 + 1 else prev.1
  {
    assert (mins + [now])[..|mins + [now]| - 1] == mins;
  }

  /** `last_min` starts at -1 and is only ever set to 23:55, so over the whole
      life of the process at most one refetch is attempted: exactly one if
      the loop ever observes 23:55, none otherwise.  A failed attempt is not
      retried. */
  lemma {:induction false} AtMostOneRefetch(lastMin: int, mins: seq<int>)
    requires lastMin == -1 || lastMin == RefetchMin
    ensures var r := RefetchRun(lastMin, mins);
      && (r.0 == -1 || r.0 == RefetchMin)
      && r.1 == (if lastMin == -1 && RefetchMin in mins then 1 else 0)
      && (r.0 == RefetchMin <==> lastMin == RefetchMin || RefetchMin in mins)
    decreases |mins|
  {
    if |mins| > 0 {
      var prefix := mins[..|mins| - 1];
      AtMostOneRefetch(lastMin, prefix);
      assert mins == prefix + [mins[|mins| - 1]];
      assert RefetchMin in mins <==> RefetchMin in prefix || mins[|mins| - 1] == RefetchMin;
    }
  }

  /** After a successful refetch the new scheduler has no date, so its first
      tick takes the new-date path: it applies the state as of now first and
      then fires every event at the current minute. */
  lemma FreshSchedulerRollsOver(s: seq<Event>, now: int, date: Date)
    requires now >= 0
    ensures var r := TickStep(s, InitialSchedState(|s|), now, date);
      && |r.applied| == 1 + |r.fired|
      && r.applied[0] == StateAsOf(s, now).GetOr(false)
      && forall i :: 0 <= i < |s| ==> (i in r.fired <==> s[i].minute == now)
  {
    TickApplies(s, InitialSchedState(|s|), now, date);
    TickFiresExactly(s, InitialSchedState(|s|), now, date);
  }

  /** A new relay and scheduler for a parsed configuration, with the relay
      driven to the state as of the local minute `nowMin` (connected when it
      is unset), as at startup and after a successful refetch. */
  method Install(pc: ParsedConfig, nowMin: int) returns (sch: Scheduler, relay: Relay)
    ensures fresh(sch) && fresh(relay)
    ensures sch.Valid()
    ensures sch.schedule == pc.schedule && sch.State() == InitialSchedState(|pc.schedule|)
    ensures relay.pin == pc.pin && relay.activeHigh == pc.activeHigh && relay.clickMs == pc.clickMs
    ensures relay.levels == PinWrites(pc.activeHigh, pc.clickMs, StateAsOf(pc.schedule, nowMin).GetOr(false))
  {
    relay := new Relay(pc.pin, pc.activeHigh, pc.clickMs);
    sch := new Scheduler(pc.schedule);
    var st := sch.InitialState(nowMin);
    relay.SetDisconnect(st.GetOr(false));
  }

  /** The running program: `last_min`, the active scheduler and relay. */
  class Controller {
    var lastMin: int
    var sch: Scheduler
    var relay: Relay

    ghost predicate Valid()
      reads this, sch
    {
      sch.Valid() && (lastMin == -1 || lastMin == RefetchMin)
    }

    /** Startup (main.py lines 19-30) from an already parsed configuration:
        build the relay and the scheduler, drive the relay to the state as of
        the local minute `nowMin`, or connected when it is unset. */
    constructor (pc: ParsedConfig, nowMin: int)
      ensures Valid()
      ensures fresh(sch) && fresh(relay)
      ensures lastMin == -1
      ensures sch.schedule == pc.schedule && sch.State() == InitialSchedState(|pc.schedule|)
      ensures relay.pin == pc.pin && relay.activeHigh == pc.activeHigh && relay.clickMs == pc.clickMs
      ensures relay.levels == PinWrites(pc.activeHigh, pc.clickMs, StateAsOf(pc.schedule, nowMin).GetOr(false))
    {
      var s, r := Install(pc, nowMin);
      sch, relay := s, r;
      lastMin := -1;
    }

    /** The refetch block on its own (main.py lines 35-50) at local minute
        `nowMin`. */
    method RefetchBlock(nowMin: int, fetched: Option<Config>, relayOk: bool) returns (refreshed: bool)
      requires Valid()
      modifies this
      ensures Valid()
      ensures var r := RefetchStep(old(lastMin), nowMin, fetched, relayOk);
        && lastMin == r.lastMin
        && refreshed == r.plan.Some?
        && (!refreshed ==>
              && sch == old(sch) && relay == old(relay)
              && sch.State() == old(sch.State()) && relay.levels == old(relay.levels))
        && (refreshed ==>
              && fresh(sch) && fresh(relay)
              && sch.schedule == r.plan.value.schedule
              && sch.State() == InitialSchedState(|sch.schedule|)
              && relay.pin == r.plan.value.pin
              && relay.activeHigh == r.plan.value.activeHigh
              && relay.clickMs == r.plan.value.clickMs
              && relay.levels == PinWrites(relay.activeHigh, relay.clickMs,
                                           StateAsOf(sch.schedule, nowMin).GetOr(false)))
    {
      refreshed := false;
      if ShouldRefetch(nowMin, lastMin) {
        lastMin := nowMin;
        if fetched.Some? {
          var parsed := ParseEvents(fetched.value);
          if parsed.Success? && relayOk {
            var s, r := Install(parsed.value, nowMin);
            sch, relay := s, r;
            refreshed := true;
          }
        }
      }
    }

    /** One pass of `while True` at the UTC instant `utc`: tick the active
        scheduler with the active relay, then run the refetch block at the
        same local minute.  Returns whether a fetch was attempted and whether
        the plan was replaced. */
    method Step(utc: UtcTime, fetched: Option<Config>, relayOk: bool) returns (attempted: bool, refreshed: bool)
      requires Valid()
      modifies this, sch`triggered, sch`lastDate, sch`lastMin, relay`levels
      ensures Valid()
      ensures var now := LocalMinutes(utc);
        var t := TickStep(old(sch.schedule), old(sch.State()), now.0, now.1);
        var r := RefetchStep(old(lastMin), now.0, fetched, relayOk);
        && attempted == r.attempted
        && refreshed == r.plan.Some?
        && lastMin == r.lastMin
        && old(sch).State() == t.state
        && old(relay).levels == old(relay.levels) + WritesFor(old(relay.activeHigh), old(relay.clickMs), t.applied)
        && (!refreshed ==> sch == old(sch) && relay == old(relay))
        && (refreshed ==>
              && fresh(sch) && fresh(relay)
              && sch.schedule == r.plan.value.schedule
              && sch.State() == InitialSchedState(|sch.schedule|)
              && relay.pin == r.plan.value.pin
              && relay.activeHigh == r.plan.value.activeHigh
              && relay.clickMs == r.plan.value.clickMs
              && relay.levels == PinWrites(relay.activeHigh, relay.clickMs,
                                           StateAsOf(sch.schedule, now.0).GetOr(false)))
    {
      var now := LocalMinutes(utc);
      sch.Tick(now.0, now.1, relay);
      attempted := ShouldRefetch(now.0, lastMin);
      refreshed := RefetchBlock(now.0, fetched, relayOk);
    }
  }
}
