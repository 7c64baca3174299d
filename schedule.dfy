/** The schedule data model: configuration entries `{"t": "HH:MM", "state": ...}`
    turned into a list of `(minute, disconnect)` events, sorted by minute with
    one event per minute, the last entry at a minute winning
    (`mins` and `parse_events`, utils.py lines 100-140). */
module Schedule {
  import opened Wrappers

  /** One normalised event: at local minute `minute`, drive the relay to
      `disconnect`. */
  datatype Event = Event(minute: int, disconnect: bool)

  /** One entry of the configuration's `events` list; a missing key is `None`. */
  datatype RawEvent = RawEvent(t: Option<string>, state: Option<string>)

  /** The configuration object; a missing key is `None`. */
  datatype Config = Config(
    relayPin: Option<int>,
    activeHigh: Option<bool>,
    clickMs: Option<int>,
    events: Option<seq<RawEvent>>)

  /** What `parse_events` returns: `(pin, active_high, click_ms, compact)`. */
  datatype ParsedConfig = ParsedConfig(pin: int, activeHigh: bool, clickMs: int, schedule: seq<Event>)

  /** The exceptions `parse_events` can raise. */
  datatype ParseError =
    | NotTwoFields(t: string)      // `hh, mm = t.split(":")` does not unpack
    | NotAnInteger(field: string)  // `int(hh)` or `int(mm)` fails

  const DefaultPin: int := 5
  const DefaultTime: string := "00:00"
  const DefaultState: string := "off"

  // ---------- mins ----------

  /** Minute-of-day of `h:m`, with no range check on either field. */
  function Mins(h: int, m: int): int {
    h * 60 + m
  }

  /** For a minute field in range, the minute-of-day splits back into hour
      and minute. */
  lemma MinsSplits(h: int, m: int)
    requires 0 <= m < 60
    ensures Mins(h, m) / 60 == h && Mins(h, m) % 60 == m
  {
  }

  // ---------- str.split(":") ----------

  function ColonCount(s: string): nat {
    if |s| == 0 then 0 else (if s[0] == ':' then 1 else 0) + ColonCount(s[1..])
  }

  /** `s.split(":")`: the pieces between colons, one more than there are colons. */
  function SplitColon(s: string): (parts: seq<string>)
    ensures |parts| >= 1
    ensures forall k :: 0 <= k < |parts| ==> ':' !in parts[k]
    decreases |s|
  {
    if |s| == 0 then [""]
    else
      var rest := SplitColon(s[1..]);
      if s[0] == ':' then [""] + rest
      else [[s[0]] + rest[0]] + rest[1..]
  }

  /** One more piece than there are colons. */
  lemma {:induction false} SplitColonCount(s: string)
    ensures |SplitColon(s)| == ColonCount(s) + 1
    decreases |s|
  {
    if |s| > 0 {
      SplitColonCount(s[1..]);
    }
  }

  /** `":".join(parts)`, the inverse of `SplitColon`. */
  function JoinColon(parts: seq<string>): string
    requires |parts| >= 1
  {
    if |parts| == 1 then parts[0] else parts[0] + ":" + JoinColon(parts[1..])
  }

  lemma {:induction false} JoinSplitColon(s: string)
    ensures JoinColon(SplitColon(s)) == s
    decreases |s|
  {
    if |s| > 0 {
      var rest := SplitColon(s[1..]);
      JoinSplitColon(s[1..]);
      if s[0] == ':' {
        assert ([""] + rest)[1..] == rest;
      } else {
        var parts := [[s[0]] + rest[0]] + rest[1..];
        if |rest| == 1 {
          assert parts == [[s[0]] + rest[0]];
        } else {
          assert parts[1..] == rest[1..];
          assert JoinColon(rest) == rest[0] + ":" + JoinColon(rest[1..]);
        }
        assert s == [s[0]] + s[1..];
      }
    }
  }

  lemma {:induction false} SplitColonOfNoColon(a: string)
    requires ':' !in a
    ensures SplitColon(a) == [a]
    decreases |a|
  {
    if |a| > 0 {
      assert ':' !in a[1..];
      SplitColonOfNoColon(a[1..]);
      assert [a[0]] + a[1..] == a;
    }
  }

  lemma {:induction false} SplitColonPair(a: string, b: string)
    requires ':' !in a && ':' !in b
    ensures SplitColon(a + ":" + b) == [a, b]
    decreases |a|
  {
    if |a| == 0 {
      assert a + ":" + b == [':'] + b;
      assert (a + ":" + b)[1..] == b;
      SplitColonOfNoColon(b);
    } else {
      var s := a + ":" + b;
      assert s[1..] == a[1..] + ":" + b;
      assert ':' !in a[1..];
      SplitColonPair(a[1..], b);
      assert [a[0]] + a[1..] == a;
    }
  }

  // ---------- str.lower() and the state field ----------

  function LowerChar(c: char): char {
    if 'A' <= c <= 'Z' then (c as int + 32) as char else c
  }

  /** `s.lower()` on ASCII letters. */
  function Lower(s: string): (r: string)
    ensures |r| == |s|
    ensures forall k :: 0 <= k < |s| ==> r[k] == LowerChar(s[k])
  {
    seq(|s|, k requires 0 <= k < |s| => LowerChar(s[k]))
  }

  /** `st.lower() == "off"`: the entry asks to disconnect. */
  predicate IsOff(state: string) {
    Lower(state) == "off"
  }

  /** Exactly the eight spellings of "off" in any letter case disconnect. */
  lemma IsOffSpellings(state: string)
    ensures IsOff(state) <==>
      |state| == 3 && state[0] in "oO" && state[1] in "fF" && state[2] in "fF"
  {
    if |state| == 3 && IsOff(state) {
      assert LowerChar(state[0]) == 'o' && LowerChar(state[1]) == 'f' && LowerChar(state[2]) == 'f';
    }
    if |state| == 3 && state[0] in "oO" && state[1] in "fF" && state[2] in "fF" {
      assert Lower(state) == "off";
    }
  }

  // ---------- int(str) ----------

  predicate IsDigit(c: char) {
    '0' <= c <= '9'
  }

  predicate AllDigits(s: string) {
    forall k :: 0 <= k < |s| ==> IsDigit(s[k])
  }

  predicate IsSpace(c: char) {
    c == ' ' || c == '\t' || c == '\n' || c == '\r' || c as int == 11 || c as int == 12
  }

  /** `s` without leading and trailing white space, as `int()` skips it. */
  function Trim(s: string): (r: string)
    ensures |r| <= |s|
    ensures |r| > 0 ==> !IsSpace(r[0]) && !IsSpace(r[|r| - 1])
    decreases |s|
  {
    if |s| > 0 && IsSpace(s[0]) then Trim(s[1..])
    else if |s| > 0 && IsSpace(s[|s| - 1]) then Trim(s[..|s| - 1])
    else s
  }

  /** What `Trim` keeps is a slice of `s` with only white space cut off on
      either side; with `Trim`'s own contract, the cut is as large as it can be. */
  lemma {:induction false} TrimSlice(s: string) returns (i: nat, j: nat)
    ensures i <= j <= |s| && Trim(s) == s[i..j]
    ensures forall k :: 0 <= k < i ==> IsSpace(s[k])
    ensures forall k :: j <= k < |s| ==> IsSpace(s[k])
    decreases |s|
  {
    if |s| > 0 && IsSpace(s[0]) {
      var i', j' := TrimSlice(s[1..]);
      i, j := i' + 1, j' + 1;
      SpaceSliceFront(s, s[1..], i', j');
    } else if |s| > 0 && IsSpace(s[|s| - 1]) {
      i, j := TrimSlice(s[..|s| - 1]);
      SpaceSliceBack(s, s[..|s| - 1], i, j);
    } else {
      i, j := 0, |s|;
    }
  }

  /** A white-space cut of `u == s[1..]`, widened by the white space `s[0]`. */
  lemma SpaceSliceFront(s: string, u: string, i: nat, j: nat)
    requires |s| > 0 && IsSpace(s[0]) && u == s[1..] && i <= j <= |u|
    requires forall k :: 0 <= k < i ==> IsSpace(u[k])
    requires forall k :: j <= k < |u| ==> IsSpace(u[k])
    ensures u[i..j] == s[i + 1..j + 1]
    ensures forall k :: 0 <= k < i + 1 ==> IsSpace(s[k])
    ensures forall k :: j + 1 <= k < |s| ==> IsSpace(s[k])
  {
    assert forall k :: 0 < k < |s| ==> s[k] == u[k - 1];
  }

  /** A white-space cut of `u == s[..|s| - 1]`, widened by the white space at the end. */
  lemma SpaceSliceBack(s: string, u: string, i: nat, j: nat)
    requires |s| > 0 && IsSpace(s[|s| - 1]) && u == s[..|s| - 1] && i <= j <= |u|
    requires forall k :: 0 <= k < i ==> IsSpace(u[k])
    requires forall k :: j <= k < |u| ==> IsSpace(u[k])
    ensures u[i..j] == s[i..j]
    ensures forall k :: 0 <= k < i ==> IsSpace(s[k])
    ensures forall k :: j <= k < |s| ==> IsSpace(s[k])
  {
    assert forall k :: 0 <= k < |u| ==> s[k] == u[k];
  }

  function DigitsValue(s: string): nat
    requires AllDigits(s)
  {
    if |s| == 0 then 0
    else DigitsValue(s[..|s| - 1]) * 10 + DigitValue(s[|s| - 1])
  }

  /** `int(s)` in base 10: optional white space around an optional sign and at
      least one decimal digit; anything else raises `ValueError`. */
  function ParseInt(s: string): (r: Option<int>)
    ensures r.Some? <==>
      var u := Trim(s);
      var body := if |u| > 0 && (u[0] == '+' || u[0] == '-') then u[1..] else u;
      |body| > 0 && AllDigits(body)
  {
    var u := Trim(s);
    var negative := |u| > 0 && u[0] == '-';
    var body := if |u| > 0 && (u[0] == '+' || u[0] == '-') then u[1..] else u;
    if |body| > 0 && AllDigits(body) then
      var v: int := DigitsValue(body);
      Some(if negative then -v else v)
    else None
  }

  /** Decimal digits of `n`, without leading zeros. */
  function NatToString(n: nat): (s: string)
    ensures |s| > 0 && AllDigits(s)
  {
    if n < 10 then [('0' as int + n) as char]
    else NatToString(n / 10) + [('0' as int + n % 10) as char]
  }

  /** `str(n)`. */
  function IntToString(n: int): string {
    if n < 0 then "-" + NatToString(-n) else NatToString(n)
  }

  lemma {:induction false} DigitsOfNatToString(n: nat)
    ensures DigitsValue(NatToString(n)) == n
  {
    if n >= 10 {
      DigitsOfNatToString(n / 10);
      var s := NatToString(n);
      assert s[..|s| - 1] == NatToString(n / 10);
    }
  }

  lemma TrimOfNoSpace(s: string)
    requires |s| > 0 && !IsSpace(s[0]) && !IsSpace(s[|s| - 1])
    ensures Trim(s) == s
  {
  }

  /** What `str` prints, `int` reads back. */
  lemma ParseIntOfIntToString(n: int)
    ensures ParseInt(IntToString(n)) == Some(n)
  {
    var s := IntToString(n);
    var digits := NatToString(if n < 0 then -n else n);
    DigitsOfNatToString(if n < 0 then -n else n);
    assert IsDigit(digits[0]) && IsDigit(digits[|digits| - 1]);
    TrimOfNoSpace(s);
    if n < 0 {
      assert s[1..] == digits;
    }
  }

  lemma NoColonInIntToString(n: int)
    ensures ':' !in IntToString(n)
  {
    var digits := NatToString(if n < 0 then -n else n);
    assert forall k :: 0 <= k < |digits| ==> digits[k] != ':';
    if n < 0 {
      assert forall k :: 0 <= k < |IntToString(n)| ==> IntToString(n)[k] == (['-'] + digits)[k];
    }
  }

  // ---------- one entry ----------

  /** `hh, mm = t.split(":")` followed by `mins(int(hh), int(mm))`. */
  function ParseTime(t: string): Result<int, ParseError> {
    var parts := SplitColon(t);
    if |parts| != 2 then Failure(NotTwoFields(t))
    else
      match ParseInt(parts[0])
      case None => Failure(NotAnInteger(parts[0]))
      case Some(hh) =>
        match ParseInt(parts[1])
        case None => Failure(NotAnInteger(parts[1]))
        case Some(mm) => Success(Mins(hh, mm))
  }

  /** Unless there is exactly one colon, `hh, mm = t.split(":")` fails. */
  lemma ParseTimeNotTwoFields(t: string)
    ensures ColonCount(t) != 1 <==> ParseTime(t) == Failure(NotTwoFields(t))
  {
    SplitColonCount(t);
  }

  /** Two colon-free fields: the time is `mins` of their integers, and the
      first field that is not an integer is the error. */
  lemma ParseTimeFields(a: string, b: string)
    requires ':' !in a && ':' !in b
    ensures ParseTime(a + ":" + b) ==
      if ParseInt(a).None? then Failure(NotAnInteger(a))
      else if ParseInt(b).None? then Failure(NotAnInteger(b))
      else Success(Mins(ParseInt(a).value, ParseInt(b).value))
  {
    SplitColonPair(a, b);
  }

  /** A time with exactly one colon is `a + ":" + b` for colon-free `a` and
      `b`, so `ParseTimeFields` decides it; with `ParseTimeNotTwoFields` this
      fixes `ParseTime` on every string. */
  lemma ParseTimeOneColon(t: string) returns (a: string, b: string)
    requires ColonCount(t) == 1
    ensures t == a + ":" + b && ':' !in a && ':' !in b
    ensures ParseTime(t) ==
      if ParseInt(a).None? then Failure(NotAnInteger(a))
      else if ParseInt(b).None? then Failure(NotAnInteger(b))
      else Success(Mins(ParseInt(a).value, ParseInt(b).value))
  {
    var parts := SplitColon(t);
    SplitColonCount(t);
    JoinSplitColon(t);
    a, b := parts[0], parts[1];
    assert JoinColon(parts) == a + ":" + JoinColon(parts[1..]);
    ParseTimeFields(a, b);
  }

  function DigitValue(c: char): int {
    c as int - '0' as int
  }

  /** A well-formed `"HH:MM"` with two digits on each side. */
  lemma ParseTimeTwoByTwo(a: string, b: string)
    requires |a| == 2 && IsDigit(a[0]) && IsDigit(a[1])
    requires |b| == 2 && IsDigit(b[0]) && IsDigit(b[1])
    ensures ParseTime(a + ":" + b) == Success(Mins(DigitValue(a[0]) * 10 + DigitValue(a[1]),
                                                   DigitValue(b[0]) * 10 + DigitValue(b[1])))
  {
    assert ':' !in a && ':' !in b;
    ParseIntTwoDigits(a);
    ParseIntTwoDigits(b);
    ParseTimeOfInts(a, b, DigitValue(a[0]) * 10 + DigitValue(a[1]), DigitValue(b[0]) * 10 + DigitValue(b[1]));
  }

  lemma ParseTimeOfInts(a: string, b: string, h: int, m: int)
    requires ':' !in a && ':' !in b
    requires ParseInt(a) == Some(h) && ParseInt(b) == Some(m)
    ensures ParseTime(a + ":" + b) == Success(Mins(h, m))
  {
    ParseTimeFields(a, b);
  }

  /** One pass of the first loop of `parse_events`: the defaults for missing
      keys, the time of day and `disconnect = (state.lower() == "off")`. */
  function ParseEntry(e: RawEvent): (r: Result<Event, ParseError>)
    ensures r.Success? ==> r.value.disconnect == IsOff(e.state.GetOr(DefaultState))
  {
    var disconnect := IsOff(e.state.GetOr(DefaultState));
    match ParseTime(e.t.GetOr(DefaultTime))
    case Failure(err) => Failure(err)
    case Success(m) => Success(Event(m, disconnect))
  }

  /** `"HH:MM"` as `str(h) + ":" + str(m)`. */
  function FormatTime(h: int, m: int): string {
    IntToString(h) + ":" + IntToString(m)
  }

  /** An entry written from `h` and `m` parses to minute `h * 60 + m`, with no
      range check on either field. */
  lemma ParseEntryOfFormatTime(h: int, m: int, state: Option<string>)
    ensures ParseEntry(RawEvent(Some(FormatTime(h, m)), state))
         == Success(Event(h * 60 + m, IsOff(state.GetOr(DefaultState))))
  {
    NoColonInIntToString(h);
    NoColonInIntToString(m);
    ParseIntOfIntToString(h);
    ParseIntOfIntToString(m);
    ParseEntryOfFields(IntToString(h), IntToString(m), h, m, state);
  }

  lemma ParseEntryOfFields(a: string, b: string, h: int, m: int, state: Option<string>)
    requires ':' !in a && ':' !in b
    requires ParseInt(a) == Some(h) && ParseInt(b) == Some(m)
    ensures ParseEntry(RawEvent(Some(a + ":" + b), state))
         == Success(Event(h * 60 + m, IsOff(state.GetOr(DefaultState))))
  {
    ParseTimeOfInts(a, b, h, m);
  }

  /** A missing `t` is midnight and a missing `state` disconnects. */
  lemma ParseEntryDefaults()
    ensures ParseEntry(RawEvent(None, None)) == Success(Event(0, true))
  {
    ParseTimeTwoByTwo("00", "00");
    assert "00" + ":" + "00" == "00:00";
    assert Lower("off") == "off";
  }

  lemma ParseIntTwoDigits(s: string)
    requires |s| == 2 && IsDigit(s[0]) && IsDigit(s[1])
    ensures ParseInt(s) == Some(DigitValue(s[0]) * 10 + DigitValue(s[1]))
  {
    TrimOfNoSpace(s);
    assert s[..|s| - 1] == s[..1];
    assert s[..1][..0] == [];
    assert DigitsValue(s[..1]) == DigitValue(s[0]);
  }

  /** "25:00" is accepted and gives minute 1500. */
  lemma ParseEntryOutOfRange()
    ensures ParseEntry(RawEvent(Some("25:00"), Some("on"))) == Success(Event(1500, false))
  {
    ParseTimeTwoByTwo("25", "00");
    assert "25" + ":" + "00" == "25:00";
    assert Lower("on") != "off" by { assert |Lower("on")| == 2; }
  }

  /** "8" has one field only, and "1:2:3" three: both are errors. */
  lemma ParseEntryNotTwoFields()
    ensures ParseEntry(RawEvent(Some("8"), None)) == Failure(NotTwoFields("8"))
    ensures ParseEntry(RawEvent(Some("1:2:3"), None)) == Failure(NotTwoFields("1:2:3"))
  {
    assert "8"[1..] == "";
    assert ColonCount("8") == 0;
    assert "1:2:3"[1..] == ":2:3";
    assert ":2:3"[1..] == "2:3";
    assert "2:3"[1..] == ":3";
    assert ":3"[1..] == "3";
    assert "3"[1..] == "";
    assert ColonCount("1:2:3") == 2;
    ParseTimeNotTwoFields("8");
    ParseTimeNotTwoFields("1:2:3");
  }

  // ---------- the list of entries ----------

  /** The first loop of `parse_events`: every entry parsed in order; the first
      entry that fails ends the whole call with its error. */
  function ParseAll(events: seq<RawEvent>): (r: Result<seq<Event>, ParseError>)
    ensures r.Success? ==> |r.value| == |events|
    ensures r.Success? ==> forall k :: 0 <= k < |events| ==> ParseEntry(events[k]) == Success(r.value[k])
  {
    if |events| == 0 then Success([])
    else
      match ParseAll(events[..|events| - 1])
      case Failure(err) => Failure(err)
      case Success(prefix) =>
        match ParseEntry(events[|events| - 1])
        case Failure(err) => Failure(err)
        case Success(e) => Success(prefix + [e])
  }

  /** The whole list parses exactly when every entry does. */
  lemma {:induction false} ParseAllSucceeds(events: seq<RawEvent>)
    ensures ParseAll(events).Success? <==> forall k :: 0 <= k < |events| ==> ParseEntry(events[k]).Success?
    decreases |events|
  {
    if |events| > 0 {
      var prefix := events[..|events| - 1];
      ParseAllSucceeds(prefix);
      assert forall k :: 0 <= k < |prefix| ==> prefix[k] == events[k];
    }
  }

  /** A failing entry fails the whole list with the first error. */
  lemma {:induction false} ParseAllFails(events: seq<RawEvent>, i: nat)
    requires i < |events|
    requires ParseAll(events[..i]).Success?
    requires ParseEntry(events[i]).Failure?
    ensures ParseAll(events) == Failure(ParseEntry(events[i]).error)
    decreases |events|
  {
    if i + 1 == |events| {
      assert events[..|events| - 1] == events[..i];
    } else {
      assert events[..|events| - 1][..i] == events[..i];
      ParseAllFails(events[..|events| - 1], i);
    }
  }

  // ---------- parsed.sort(key=lambda x: x[0]) ----------

  predicate SortedByMinute(s: seq<Event>) {
    forall j, k :: 0 <= j < k < |s| ==> s[j].minute <= s[k].minute
  }

  predicate StrictlyIncreasing(s: seq<Event>) {
    forall j, k :: 0 <= j < k < |s| ==> s[j].minute < s[k].minute
  }

  function MinuteSet(s: seq<Event>): set<int> {
    set k | 0 <= k < |s| :: s[k].minute
  }

  /** `x` alone when it is at minute `m`, nothing otherwise. */
  function Own(x: Event, m: int): seq<Event> {
    if x.minute == m then [x] else []
  }

  /** The entries at minute `m`, in order. */
  function AtMinute(s: seq<Event>, m: int): (r: seq<Event>)
    ensures |r| <= |s|
  {
    if |s| == 0 then []
    else AtMinute(s[..|s| - 1], m) + Own(s[|s| - 1], m)
  }

  /** `t` with `x` placed after every event whose minute is at most `x`'s. */
  function Insert(t: seq<Event>, x: Event): (r: seq<Event>)
    ensures multiset(r) == multiset(t) + multiset{x}
    decreases |t|
  {
    if |t| == 0 then [x]
    else if t[|t| - 1].minute <= x.minute then t + [x]
    else
      var r0 := Insert(t[..|t| - 1], x);
      assert t == t[..|t| - 1] + [t[|t| - 1]];
      r0 + [t[|t| - 1]]
  }

  /** The stable sort by minute this model assumes for `list.sort`. */
  function SortByMinute(s: seq<Event>): (r: seq<Event>)
    ensures multiset(r) == multiset(s)
    decreases |s|
  {
    if |s| == 0 then []
    else
      assert s == s[..|s| - 1] + [s[|s| - 1]];
      Insert(SortByMinute(s[..|s| - 1]), s[|s| - 1])
  }

  lemma SortedSnoc(a: seq<Event>, y: Event)
    requires SortedByMinute(a)
    requires forall k :: 0 <= k < |a| ==> a[k].minute <= y.minute
    ensures SortedByMinute(a + [y])
  {
  }

  lemma {:induction false} InsertSorted(t: seq<Event>, x: Event)
    requires SortedByMinute(t)
    ensures SortedByMinute(Insert(t, x))
    ensures |Insert(t, x)| == |t| + 1
    decreases |t|
  {
    if |t| == 0 {
    } else if t[|t| - 1].minute <= x.minute {
      SortedSnoc(t, x);
    } else {
      var t0, y := t[..|t| - 1], t[|t| - 1];
      InsertSorted(t0, x);
      var r0 := Insert(t0, x);
      forall k | 0 <= k < |r0|
        ensures r0[k].minute <= y.minute
      {
        assert r0[k] in multiset(r0);
        if r0[k] != x {
          assert r0[k] in multiset(t0);
          var j :| 0 <= j < |t0| && t0[j] == r0[k];
          assert t[j] == r0[k];
        }
      }
      SortedSnoc(r0, y);
    }
  }

  lemma {:induction false} SortByMinuteSorted(s: seq<Event>)
    ensures SortedByMinute(SortByMinute(s))
    ensures |SortByMinute(s)| == |s|
    decreases |s|
  {
    if |s| > 0 {
      SortByMinuteSorted(s[..|s| - 1]);
      InsertSorted(SortByMinute(s[..|s| - 1]), s[|s| - 1]);
    }
  }

  /** One more event adds itself to its own minute's run. */
  lemma AtMinuteSnoc(a: seq<Event>, y: Event, m: int)
    ensures AtMinute(a + [y], m) == AtMinute(a, m) + Own(y, m)
  {
    assert (a + [y])[..|a + [y]| - 1] == a;
  }

  /** Inserting `x` puts it after every earlier entry at its minute. */
  lemma {:induction false} AtMinuteInsert(t: seq<Event>, x: Event, m: int)
    ensures AtMinute(Insert(t, x), m) == AtMinute(t, m) + Own(x, m)
    decreases |t|
  {
    if |t| == 0 {
      AtMinuteSnoc([], x, m);
      assert [] + [x] == [x];
    } else if t[|t| - 1].minute <= x.minute {
      AtMinuteSnoc(t, x, m);
    } else {
      var t0, y := t[..|t| - 1], t[|t| - 1];
      assert t == t0 + [y];
      assert Insert(t, x) == Insert(t0, x) + [y];
      AtMinuteInsert(t0, x, m);
      AtMinuteBehind(t0, Insert(t0, x), x, y, m);
    }
  }

  /** An event after `x` at a later minute does not disturb `x`'s place. */
  lemma AtMinuteBehind(t0: seq<Event>, r0: seq<Event>, x: Event, y: Event, m: int)
    requires x.minute < y.minute
    requires AtMinute(r0, m) == AtMinute(t0, m) + Own(x, m)
    ensures AtMinute(r0 + [y], m) == AtMinute(t0 + [y], m) + Own(x, m)
  {
    AtMinuteSnoc(r0, y, m);
    AtMinuteSnoc(t0, y, m);
    SwapOneEmpty(AtMinute(t0, m), Own(x, m), Own(y, m));
  }

  lemma SwapOneEmpty(a: seq<Event>, b: seq<Event>, c: seq<Event>)
    requires b == [] || c == []
    ensures a + b + c == a + c + b
  {
    if b == [] {
      assert a + b == a;
      assert a + c + b == a + c;
    } else {
      assert a + c == a;
      assert a + b + c == a + b;
    }
  }

  /** The sort is stable: at every minute the entries keep their input order. */
  lemma {:induction false} SortByMinuteStable(s: seq<Event>, m: int)
    ensures AtMinute(SortByMinute(s), m) == AtMinute(s, m)
    decreases |s|
  {
    if |s| > 0 {
      SortByMinuteStable(s[..|s| - 1], m);
      SortByMinuteSorted(s[..|s| - 1]);
      AtMinuteInsert(SortByMinute(s[..|s| - 1]), s[|s| - 1], m);
    }
  }

  // ---------- compact ----------

  /** The second loop of `parse_events`: a run of equal minutes collapses to its
      last entry.  Each step compares with the previous input entry's minute
      (`last_m`), which is always the minute of the last kept event. */
  function Compact(s: seq<Event>): (c: seq<Event>)
    ensures |c| <= |s|
    ensures |s| > 0 ==> |c| > 0 && c[|c| - 1] == s[|s| - 1]
    decreases |s|
  {
    if |s| == 0 then []
    else
      var c0 := Compact(s[..|s| - 1]);
      var x := s[|s| - 1];
      if |s| > 1 && s[|s| - 2].minute == x.minute then c0[|c0| - 1 := x]
      else c0 + [x]
  }

  /** Compacting keeps exactly the input's minutes. */
  lemma {:induction false} CompactMinutes(s: seq<Event>)
    ensures MinuteSet(Compact(s)) == MinuteSet(s)
    decreases |s|
  {
    if |s| > 0 {
      var s0, x := s[..|s| - 1], s[|s| - 1];
      CompactMinutes(s0);
      var c0, c := Compact(s0), Compact(s);
      assert MinuteSet(s) == MinuteSet(s0) + {x.minute} by {
        forall v | v in MinuteSet(s) ensures v in MinuteSet(s0) + {x.minute} {
          var k :| 0 <= k < |s| && s[k].minute == v;
          if k < |s0| { assert s0[k] == s[k]; }
        }
        forall v | v in MinuteSet(s0) ensures v in MinuteSet(s) {
          var k :| 0 <= k < |s0| && s0[k].minute == v;
          assert s[k] == s0[k];
        }
        assert s[|s| - 1] == x;
      }
      if |s| > 1 && s[|s| - 2].minute == x.minute {
        assert c0[|c0| - 1] == s0[|s0| - 1];
        assert MinuteSet(c) == MinuteSet(c0) by {
          forall v | v in MinuteSet(c) ensures v in MinuteSet(c0) {
            var k :| 0 <= k < |c| && c[k].minute == v;
          }
          forall v | v in MinuteSet(c0) ensures v in MinuteSet(c) {
            var k :| 0 <= k < |c0| && c0[k].minute == v;
            if k == |c0| - 1 { assert c[k] == x; } else { assert c[k] == c0[k]; }
          }
        }
        assert x.minute in MinuteSet(s0) by { assert s0[|s0| - 1].minute == x.minute; }
      } else {
        assert MinuteSet(c) == MinuteSet(c0) + {x.minute} by {
          forall v | v in MinuteSet(c) ensures v in MinuteSet(c0) + {x.minute} {
            var k :| 0 <= k < |c| && c[k].minute == v;
            if k < |c0| { assert c0[k] == c[k]; }
          }
          forall v | v in MinuteSet(c0) ensures v in MinuteSet(c) {
            var k :| 0 <= k < |c0| && c0[k].minute == v;
            assert c[k] == c0[k];
          }
          assert c[|c| - 1] == x;
        }
      }
    }
  }

  /** Compacting a sorted list leaves strictly increasing minutes. */
  lemma {:induction false} CompactStrict(s: seq<Event>)
    requires SortedByMinute(s)
    ensures StrictlyIncreasing(Compact(s))
    decreases |s|
  {
    if |s| > 1 {
      var s0, x := s[..|s| - 1], s[|s| - 1];
      assert SortedByMinute(s0);
      CompactStrict(s0);
      var c0, c := Compact(s0), Compact(s);
      assert c0[|c0| - 1] == s[|s| - 2];
      assert forall k :: 0 <= k < |c0| ==> c0[k].minute <= c0[|c0| - 1].minute;
    }
  }

  /** Compacting a sorted list keeps, at every minute, the last input entry
      at that minute. */
  lemma {:induction false} CompactLastWins(s: seq<Event>)
    requires SortedByMinute(s)
    ensures forall k :: 0 <= k < |Compact(s)| ==>
      var run := AtMinute(s, Compact(s)[k].minute);
      |run| > 0 && Compact(s)[k] == run[|run| - 1]
    decreases |s|
  {
    if |s| > 0 {
      var s0, x := s[..|s| - 1], s[|s| - 1];
      assert SortedByMinute(s0);
      CompactLastWins(s0);
      CompactStrict(s);
      var c0, c := Compact(s0), Compact(s);
      forall k | 0 <= k < |c|
        ensures var run := AtMinute(s, c[k].minute); |run| > 0 && c[k] == run[|run| - 1]
      {
        var m := c[k].minute;
        if k < |c| - 1 {
          assert c[k] == c0[k];
          assert m < x.minute by { assert c[|c| - 1] == x; }
          assert AtMinute(s, m) == AtMinute(s0, m);
        }
      }
    }
  }

  // ---------- parse_events ----------

  /** The whole of `parse_events`: defaults, entries parsed in order, stable
      sort, compaction. */
  function ParseConfig(cfg: Config): Result<ParsedConfig, ParseError> {
    match ParseAll(cfg.events.GetOr([]))
    case Failure(err) => Failure(err)
    case Success(parsed) =>
      Success(ParsedConfig(
        cfg.relayPin.GetOr(DefaultPin),
        cfg.activeHigh.GetOr(true),
        cfg.clickMs.GetOr(0),
        Compact(SortByMinute(parsed))))
  }

  /** The schedule `parse_events` returns for entries that all parse: strictly
      increasing minutes, the same minutes as the input, and at every minute
      the value of the last input entry there. */
  lemma NormalizedSchedule(raw: seq<Event>)
    ensures StrictlyIncreasing(Compact(SortByMinute(raw)))
    ensures MinuteSet(Compact(SortByMinute(raw))) == MinuteSet(raw)
    ensures forall k :: 0 <= k < |Compact(SortByMinute(raw))| ==>
      var run := AtMinute(raw, Compact(SortByMinute(raw))[k].minute);
      |run| > 0 && Compact(SortByMinute(raw))[k] == run[|run| - 1]
  {
    var sorted := SortByMinute(raw);
    SortByMinuteSorted(raw);
    CompactStrict(sorted);
    CompactLastWins(sorted);
    CompactMinutes(sorted);
    MinuteSetOfPermutation(sorted, raw);
    forall m {
      SortByMinuteStable(raw, m);
    }
  }

  lemma MinuteSetOfPermutation(a: seq<Event>, b: seq<Event>)
    requires multiset(a) == multiset(b)
    ensures MinuteSet(a) == MinuteSet(b)
  {
    forall v | v in MinuteSet(a) ensures v in MinuteSet(b) {
      var k :| 0 <= k < |a| && a[k].minute == v;
      assert a[k] in multiset(b);
      var j :| 0 <= j < |b| && b[j] == a[k];
    }
    forall v | v in MinuteSet(b) ensures v in MinuteSet(a) {
      var k :| 0 <= k < |b| && b[k].minute == v;
      assert b[k] in multiset(a);
      var j :| 0 <= j < |a| && a[j] == b[k];
    }
  }

  /** Whatever order a sort leaves equal minutes in, compaction still gives
      strictly increasing minutes and the input's minutes; only which value
      survives at a minute depends on stability. */
  lemma CompactOfAnySort(raw: seq<Event>, sorted: seq<Event>)
    requires SortedByMinute(sorted) && multiset(sorted) == multiset(raw)
    ensures StrictlyIncreasing(Compact(sorted))
    ensures MinuteSet(Compact(sorted)) == MinuteSet(raw)
  {
    CompactStrict(sorted);
    CompactMinutes(sorted);
    MinuteSetOfPermutation(sorted, raw);
  }

  /** `parse_events` succeeds exactly when every entry parses.  Then the
      missing keys take their defaults and the schedule is strictly
      increasing and no longer than the entry list. */
  lemma ParseConfigOutcome(cfg: Config)
    ensures ParseConfig(cfg).Success? <==>
      forall k :: 0 <= k < |cfg.events.GetOr([])| ==> ParseEntry(cfg.events.GetOr([])[k]).Success?
    ensures ParseConfig(cfg).Success? ==>
      && ParseConfig(cfg).value.pin == cfg.relayPin.GetOr(DefaultPin)
      && ParseConfig(cfg).value.activeHigh == cfg.activeHigh.GetOr(true)
      && ParseConfig(cfg).value.clickMs == cfg.clickMs.GetOr(0)
      && StrictlyIncreasing(ParseConfig(cfg).value.schedule)
      && |ParseConfig(cfg).value.schedule| <= |cfg.events.GetOr([])|
  {
    var events := cfg.events.GetOr([]);
    ParseAllSucceeds(events);
    if ParseAll(events).Success? {
      var raw := ParseAll(events).value;
      NormalizedSchedule(raw);
      assert |SortByMinute(raw)| == |multiset(SortByMinute(raw))| == |multiset(raw)| == |raw|;
    }
  }

  /** A configuration with no keys gives pin 5, active high, no click and no
      events. */
  lemma ParseConfigDefaults()
    ensures ParseConfig(Config(None, None, None, None)) == Success(ParsedConfig(5, true, 0, []))
  {
  }

  /** The first loop of `parse_events` (`for e in events: ... parsed.append`). */
  method ParseEntries(events: seq<RawEvent>) returns (r: Result<seq<Event>, ParseError>)
    ensures r == ParseAll(events)
  {
    var parsed: seq<Event> := [];
    var i := 0;
    while i < |events|
      invariant 0 <= i <= |events|
      invariant ParseAll(events[..i]) == Success(parsed)
    {
      var e := ParseEntry(events[i]);
      if e.Failure? {
        ParseAllFails(events, i);
        return Failure(e.error);
      }
      assert events[..i + 1][..i] == events[..i];
      parsed := parsed + [e.value];
      i := i + 1;
    }
    assert events[..i] == events;
    return Success(parsed);
  }

  /** The second loop of `parse_events`: append a new minute, overwrite
      `compact[-1]` when the minute repeats `last_m`. */
  method CompactRuns(parsed: seq<Event>) returns (compact: seq<Event>)
    ensures compact == Compact(parsed)
  {
    compact := [];
    var lastM: Option<int> := None;
    var i := 0;
    while i < |parsed|
      invariant 0 <= i <= |parsed|
      invariant compact == Compact(parsed[..i])
      invariant lastM == if i == 0 then None else Some(parsed[i - 1].minute)
    {
      var e := parsed[i];
      assert parsed[..i + 1][..i] == parsed[..i];
      if lastM == Some(e.minute) {
        compact := compact[|compact| - 1 := e];
      } else {
        compact := compact + [e];
      }
      lastM := Some(e.minute);
      i := i + 1;
    }
    assert parsed[..i] == parsed;
  }

  /** `parse_events`: the defaults, the two loops and the sort between them. */
  method ParseEvents(cfg: Config) returns (r: Result<ParsedConfig, ParseError>)
    ensures r == ParseConfig(cfg)
    ensures r.Success? ==> StrictlyIncreasing(r.value.schedule)
  {
    var pin := cfg.relayPin.GetOr(DefaultPin);
    var activeHigh := cfg.activeHigh.GetOr(true);
    var clickMs := cfg.clickMs.GetOr(0);
    var parsed := ParseEntries(cfg.events.GetOr([]));
    if parsed.Failure? {
      return Failure(parsed.error);
    }
    // list.sort, modelled as the stable sort
    var sorted := SortByMinute(parsed.value);
    var compact := CompactRuns(sorted);
    NormalizedSchedule(parsed.value);
    r := Success(ParsedConfig(pin, activeHigh, clickMs, compact));
  }
}
