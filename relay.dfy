/** The relay driver: from the logical "disconnect" intent to the pin levels
    written, under the `active_high` polarity and the optional `click_ms`
    pulse (`Relay`, utils.py lines 143-168).  The pin is a log of the levels
    written to it. */
module Relays {

  /** The level `_apply(energize)` writes: 1 exactly when `energize` agrees
      with the polarity. */
  function Level(activeHigh: bool, energize: bool): (v: int)
    ensures v == 0 || v == 1
    ensures v == 1 <==> energize == activeHigh
  {
    if activeHigh then (if energize then 1 else 0)
    else (if energize then 0 else 1)
  }

  /** Whether a written level energises the coil under the polarity. */
  predicate Energized(activeHigh: bool, level: int) {
    (level == 1) == activeHigh
  }

  /** The levels one `set_disconnect(disconnect)` writes, in order.  The
      first energises the coil exactly when disconnecting; the last leaves it
      energised only when holding (no click) a disconnect, so in click mode
      the coil always ends de-energised. */
  function PinWrites(activeHigh: bool, clickMs: int, disconnect: bool): (w: seq<int>)
    ensures |w| == if clickMs <= 0 then 1 else 2
    ensures forall k :: 0 <= k < |w| ==> w[k] == 0 || w[k] == 1
    ensures Energized(activeHigh, w[0]) == disconnect
    ensures Energized(activeHigh, w[|w| - 1]) == (disconnect && clickMs <= 0)
  {
    var energize := disconnect;
    if clickMs <= 0 then [Level(activeHigh, energize)]
    else [Level(activeHigh, energize), Level(activeHigh, false)]
  }

  /** The levels of a sequence of `set_disconnect` calls, in order. */
  function WritesFor(activeHigh: bool, clickMs: int, intents: seq<bool>): (w: seq<int>)
    ensures |w| == if clickMs <= 0 then |intents| else 2 * |intents|
  {
    WritesUpTo(activeHigh, clickMs, intents, |intents|)
  }

  /** The levels of the first `n` calls. */
  function WritesUpTo(activeHigh: bool, clickMs: int, intents: seq<bool>, n: nat): (w: seq<int>)
    requires n <= |intents|
    ensures |w| == if clickMs <= 0 then n else 2 * n
  {
    if n == 0 then []
    else WritesUpTo(activeHigh, clickMs, intents, n - 1) + PinWrites(activeHigh, clickMs, intents[n - 1])
  }

  /** The first calls' levels depend only on the first intents. */
  lemma {:induction false} WritesUpToPrefix(activeHigh: bool, clickMs: int, a: seq<bool>, b: seq<bool>, n: nat)
    requires n <= |a|
    ensures WritesUpTo(activeHigh, clickMs, a + b, n) == WritesUpTo(activeHigh, clickMs, a, n)
  {
    if n > 0 {
      WritesUpToPrefix(activeHigh, clickMs, a, b, n - 1);
      assert (a + b)[n - 1] == a[n - 1];
    }
  }

  /** One more call appends its levels. */
  lemma WritesForSnoc(activeHigh: bool, clickMs: int, v: seq<bool>, x: bool)
    ensures WritesFor(activeHigh, clickMs, v + [x]) == WritesFor(activeHigh, clickMs, v) + PinWrites(activeHigh, clickMs, x)
  {
    WritesUpToPrefix(activeHigh, clickMs, v, [x], |v|);
    assert (v + [x])[|v|] == x;
  }

  lemma {:induction false} WritesForAppend(activeHigh: bool, clickMs: int, a: seq<bool>, b: seq<bool>)
    ensures WritesFor(activeHigh, clickMs, a + b) == WritesFor(activeHigh, clickMs, a) + WritesFor(activeHigh, clickMs, b)
    decreases |b|
  {
    if |b| == 0 {
      assert a + b == a;
    } else {
      var b0, x := b[..|b| - 1], b[|b| - 1];
      assert b == b0 + [x];
      assert a + b == (a + b0) + [x];
      WritesForAppend(activeHigh, clickMs, a, b0);
      WritesForSnoc(activeHigh, clickMs, a + b0, x);
      WritesForSnoc(activeHigh, clickMs, b0, x);
      SeqAssoc(WritesFor(activeHigh, clickMs, a), WritesFor(activeHigh, clickMs, b0), PinWrites(activeHigh, clickMs, x));
    }
  }

  lemma SeqAssoc(a: seq<int>, b: seq<int>, c: seq<int>)
    ensures a + b + c == a + (b + c)
  {
  }

  /** Without click mode the pin ends at the level of the last intent, so the
      coil is energised exactly when the last intent was a disconnect. */
  lemma HoldModeEndsAtLastIntent(activeHigh: bool, clickMs: int, intents: seq<bool>)
    requires clickMs <= 0 && |intents| > 0
    ensures var w := WritesFor(activeHigh, clickMs, intents);
      Energized(activeHigh, w[|w| - 1]) == intents[|intents| - 1]
  {
  }

  class Relay {
    const pin: int
    const activeHigh: bool
    const clickMs: int
    /** Every level written to the pin, oldest first. */
    ghost var levels: seq<int>

    /** `Relay(pin_no, active_high, click_ms)`; the pin is configured as an
        output and nothing is written yet. */
    constructor (pinNo: int, activeHigh: bool, clickMs: int)
      ensures pin == pinNo && this.activeHigh == activeHigh && this.clickMs == clickMs
      ensures levels == []
    {
      pin := pinNo;
      this.activeHigh := activeHigh;
      this.clickMs := clickMs;
      levels := [];
    }

    /** `_apply(energize)`: one write to the pin. */
    method Apply(energize: bool)
      modifies this`levels
      ensures levels == old(levels) + [Level(activeHigh, energize)]
    {
      levels := levels + [Level(activeHigh, energize)];
    }

    /** `set_disconnect(disconnect)`; the `click_ms` sleep between the two
        writes is not modelled. */
    method SetDisconnect(disconnect: bool)
      modifies this`levels
      ensures levels == old(levels) + PinWrites(activeHigh, clickMs, disconnect)
    {
      var energize := disconnect;
      if clickMs <= 0 {
        Apply(energize);
      } else {
        Apply(energize);
        Apply(false);
      }
    }
  }
}
