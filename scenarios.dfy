/** The worked examples of the configuration format: two events on either
    side of boot, and two entries at the same minute. */
module Scenarios {
  import opened Wrappers
  import opened Schedule
  import opened Scheduling

  const OffAtEight: RawEvent := RawEvent(Some("08:00"), Some("off"))
  const OnAtEight: RawEvent := RawEvent(Some("08:00"), Some("on"))
  const OnAtTwenty: RawEvent := RawEvent(Some("20:00"), Some("on"))

  lemma ParseEightOff()
    ensures ParseEntry(OffAtEight) == Success(Event(480, true))
  {
    ParseTimeTwoByTwo("08", "00");
    assert "08" + ":" + "00" == "08:00";
    assert Lower("off") == "off";
  }

  lemma ParseEightOn()
    ensures ParseEntry(OnAtEight) == Success(Event(480, false))
  {
    ParseTimeTwoByTwo("08", "00");
    assert "08" + ":" + "00" == "08:00";
    assert Lower("on") != "off" by { assert |Lower("on")| == 2; }
  }

  lemma ParseTwentyOn()
    ensures ParseEntry(OnAtTwenty) == Success(Event(1200, false))
  {
    ParseTimeTwoByTwo("20", "00");
    assert "20" + ":" + "00" == "20:00";
    assert Lower("on") != "off" by { assert |Lower("on")| == 2; }
  }

  /** Two entries that parse give their two events, in order. */
  lemma ParseTwo(a: RawEvent, b: RawEvent)
    requires ParseEntry(a).Success? && ParseEntry(b).Success?
    ensures ParseAll([a, b]) == Success([ParseEntry(a).value, ParseEntry(b).value])
  {
    var one := [a];
    var two := [a, b];
    assert one[..|one| - 1] == [];
    assert ParseAll(one) == Success([] + [ParseEntry(a).value]);
    assert [] + [ParseEntry(a).value] == [ParseEntry(a).value];
    assert two[..|two| - 1] == one && two[|two| - 1] == b;
    assert ParseAll(two) == Success([ParseEntry(a).value] + [ParseEntry(b).value]);
    assert [ParseEntry(a).value] + [ParseEntry(b).value] == [ParseEntry(a).value, ParseEntry(b).value];
  }

  /** Two events already in order are left as they are by the sort. */
  lemma SortTwo(x: Event, y: Event)
    requires x.minute <= y.minute
    ensures SortByMinute([x, y]) == [x, y]
  {
    var s := [x, y];
    assert s[..1] == [x] && s[..1][..0] == [];
    assert SortByMinute([x]) == [x];
  }

  /** Two events at the same minute compact to the later one; at different
      minutes both stay. */
  lemma CompactTwo(x: Event, y: Event)
    ensures Compact([x, y]) == if x.minute == y.minute then [y] else [x, y]
  {
    var s := [x, y];
    assert s[..1] == [x] && s[..1][..0] == [];
    assert Compact([x]) == [x];
  }

  /** Off at 08:00 and on at 20:00 normalise to minutes 480 and 1200; at
      local minute 500 the state is disconnected, at minute 50 it is unset. */
  lemma TwoEventScenario()
    ensures ParseConfig(Config(None, None, None, Some([OffAtEight, OnAtTwenty])))
         == Success(ParsedConfig(5, true, 0, [Event(480, true), Event(1200, false)]))
    ensures StateAsOf([Event(480, true), Event(1200, false)], 500) == Some(true)
    ensures StateAsOf([Event(480, true), Event(1200, false)], 50) == None
  {
    ParseEightOff();
    ParseTwentyOn();
    ParseTwo(OffAtEight, OnAtTwenty);
    var sorted := [Event(480, true), Event(1200, false)];
    SortTwo(sorted[0], sorted[1]);
    CompactTwo(sorted[0], sorted[1]);
    assert sorted[1..] == [Event(1200, false)];
    assert CoveredPrefix(sorted, 500) == 1;
    assert CoveredPrefix(sorted, 50) == 0;
  }

  /** Off then on at 08:00: the later entry wins. */
  lemma DuplicateMinuteScenario()
    ensures ParseConfig(Config(None, None, None, Some([OffAtEight, OnAtEight])))
         == Success(ParsedConfig(5, true, 0, [Event(480, false)]))
  {
    ParseEightOff();
    ParseEightOn();
    ParseTwo(OffAtEight, OnAtEight);
    SortTwo(Event(480, true), Event(480, false));
    CompactTwo(Event(480, true), Event(480, false));
  }
}
