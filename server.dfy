/** The server process's state and the two operations on it
    (server/src/server.py): the refresh that fetch_data_threaded runs on the
    module-level dictionary weather_data, and what send_data_threaded writes
    to a connected dashboard. */
module Server {
  import opened Strings
  import opened Ascii
  import opened Forecast
  import opened Messages

  /** Assignment n of a run sets l's temperature: when it succeeds, the
      first n + 1 assignments store NewTemp(l, c) over what the first n store. */
  lemma WriteTemp(t0: Table, ss: seq<Slot>, n: nat, c: Cycle, l: Label)
    requires Complete(t0) && n < |ss| && ss[n] == TempOf(l)
    requires AllOk(ss[..n], c) && TempReadable(l, c)
    ensures AllOk(ss[..n + 1], c)
    ensures var t := StoreAll(t0, ss[..n], c);
      StoreAll(t0, ss[..n + 1], c) == Table(t.temp[l := NewTemp(l, c)], t.code)
  {
    assert ss[..n + 1][..n] == ss[..n];
  }

  /** Assignment n of a run sets l's category. */
  lemma WriteCode(t0: Table, ss: seq<Slot>, n: nat, c: Cycle, l: Label)
    requires Complete(t0) && n < |ss| && ss[n] == CodeOf(l)
    requires AllOk(ss[..n], c) && CodeReadable(l, c)
    ensures AllOk(ss[..n + 1], c)
    ensures var t := StoreAll(t0, ss[..n], c);
      StoreAll(t0, ss[..n + 1], c) == Table(t.temp, t.code[l := NewCode(l, c)])
  {
    assert ss[..n + 1][..n] == ss[..n];
  }

  /** Where the hourly loop's k-th pass over the hours 1, 2, 4, 8 sits in the schedule. */
  lemma ScheduleHourly(hours: seq<int>, k: nat)
    requires hours == [1, 2, 4, 8] && k < 4
    ensures hours[k] == 1 || hours[k] == 2 || hours[k] == 4 || hours[k] == 8
    ensures |Schedule| == 20
    ensures Schedule[2 + 2 * k] == TempOf(HourLabel(hours[k]))
    ensures Schedule[3 + 2 * k] == CodeOf(HourLabel(hours[k]))
  {
    var l := HourLabel(hours[k]);
    assert l.Position() == k + 1;
    ScheduleAt(l);
  }

  /** Where the daily loop's pass for day i sits in the schedule. */
  lemma ScheduleDaily(i: nat)
    requires 1 <= i <= 5
    ensures |Schedule| == 20
    ensures Schedule[8 + 2 * i] == TempOf(DayLabel(i))
    ensures Schedule[9 + 2 * i] == CodeOf(DayLabel(i))
  {
    assert DayLabel(i).Position() == i + 4;
    ScheduleAt(DayLabel(i));
  }

  /** The two dictionaries of weather_data, which the fetch thread rewrites
      entry by entry and the send threads read. */
  class WeatherData {
    var temp: map<Label, Temp>
    var code: map<Label, string>

    function Snapshot(): Table
      reads this
    {
      Table(temp, code)
    }

    ghost predicate Valid()
      reads this
    {
      Wellformed(Snapshot())
    }

    /** The table at process start: every temperature -9999, every category "unknown". */
    constructor ()
      ensures Valid() && Snapshot() == Initial()
    {
      temp := InitialTemp;
      code := InitialCode;
      new;
      InitialWellformed();
    }

    /** One pass of fetch_data_threaded's loop body, given the clock reading,
        the HTTP status and the decoded reply: nothing happens unless the
        status is 200; reading sunrise[0] raises when the list is empty;
        otherwise the assignments of the try block run. `raised` reports
        that the exception handler ended the pass. */
    method Refresh(now: DateTime, status: int, r: Reply) returns (raised: bool)
      requires Valid() && ValidDateTime(now)
      modifies this
      ensures Valid()
      ensures Snapshot() == Refreshed(old(Snapshot()), now, status, r)
      ensures raised <==> status == 200 && Written(now, status, r) < 20
    {
      var offset := now.hour + now.minute / 30;
      if status != 200 {
        return false;
      }
      if |r.sunrise| == 0 {
        return true;
      }
      var sunrise := r.sunrise[0];
      var sunset := r.sunrise[0];
      var sun := Before(sunrise, now) && Before(now, sunset);
      ghost var t0 := Snapshot();
      assert CycleOf(now, r) == Cycle(offset, sun, r);
      ghost var n;
      raised, n := Assign(offset, sun, r);
      RefreshStopsAt(now, r, n);
      ghost var t' := Refreshed(t0, now, status, r);
      assert Snapshot() == t';
    }

    /** The assignments of the try block, for the offset, the day flag and
        the reply of one cycle: the first series index that does not exist
        raises and ends the block after n assignments. */
    method Assign(offset: nat, sun: bool, r: Reply) returns (raised: bool, ghost n: nat)
      requires Complete(Snapshot())
      modifies this
      ensures n <= 20 && AllOk(Schedule[..n], Cycle(offset, sun, r))
      ensures n < 20 ==> !SlotOk(Schedule[n], Cycle(offset, sun, r))
      ensures raised <==> n < 20
      ensures Snapshot() == StoreAll(old(Snapshot()), Schedule[..n], Cycle(offset, sun, r))
    {
      ghost var t0 := Snapshot();
      var c := Cycle(offset, sun, r);
      // Current weather: the same two reads as an hourly label, at offset + 0
      ScheduleAt(Now);
      assert Schedule[..0] == [];
      raised, n := AssignHour(Now, offset, c, t0, 0);
      if raised {
        return;
      }
      raised, n := AssignHourly(offset, sun, r, t0, n);
      if raised {
        return;
      }
      raised, n := AssignDaily(offset, sun, r, t0, n);
    }

    /** The "hourly forecast" block: the entries of "1h", "2h", "4h" and "8h". */
    method AssignHourly(offset: nat, sun: bool, r: Reply, ghost t0: Table, ghost start: nat) returns (raised: bool, ghost n: nat)
      requires start == 2 && Complete(t0) && AllOk(Schedule[..start], Cycle(offset, sun, r))
      requires Snapshot() == StoreAll(t0, Schedule[..start], Cycle(offset, sun, r))
      modifies this
      ensures 2 <= n <= 10 && AllOk(Schedule[..n], Cycle(offset, sun, r))
      ensures n < 10 ==> !SlotOk(Schedule[n], Cycle(offset, sun, r))
      ensures raised <==> n < 10
      ensures Snapshot() == StoreAll(t0, Schedule[..n], Cycle(offset, sun, r))
    {
      var c := Cycle(offset, sun, r);
      n := start;
      var hours := [1, 2, 4, 8];
      for k := 0 to 4
        invariant n == 2 + 2 * k
        invariant AllOk(Schedule[..n], c) && Snapshot() == StoreAll(t0, Schedule[..n], c)
      {
        ScheduleHourly(hours, k);
        var i := hours[k];
        raised, n := AssignHour(HourLabel(i), offset + i, c, t0, n);
        if raised {
          return;
        }
      }
      raised := false;
    }

    /** The "daily forecast" block: the entries of "1d" to "5d". */
    method AssignDaily(offset: nat, sun: bool, r: Reply, ghost t0: Table, ghost start: nat) returns (raised: bool, ghost n: nat)
      requires start == 10 && Complete(t0) && AllOk(Schedule[..start], Cycle(offset, sun, r))
      requires Snapshot() == StoreAll(t0, Schedule[..start], Cycle(offset, sun, r))
      modifies this
      ensures 10 <= n <= 20 && AllOk(Schedule[..n], Cycle(offset, sun, r))
      ensures n < 20 ==> !SlotOk(Schedule[n], Cycle(offset, sun, r))
      ensures raised <==> n < 20
      ensures Snapshot() == StoreAll(t0, Schedule[..n], Cycle(offset, sun, r))
    {
      var c := Cycle(offset, sun, r);
      n := start;
      for i := 1 to 6
        invariant n == 8 + 2 * i
        invariant AllOk(Schedule[..n], c) && Snapshot() == StoreAll(t0, Schedule[..n], c)
      {
        ScheduleDaily(i);
        raised, n := AssignDay(DayLabel(i), i, c, t0, n);
        if raised {
          return;
        }
      }
      raised := false;
    }

    /** One pass of the hourly loop: the temperature and then the category
        of the hourly label l, read at series index `at` = offset + hours. */
    method AssignHour(l: Label, at: nat, c: Cycle, ghost t0: Table, ghost start: nat) returns (raised: bool, ghost n: nat)
      requires l.IsHourly() && at == c.offset + l.Hours()
      requires Complete(t0) && start + 1 < |Schedule| && Schedule[start] == TempOf(l) && Schedule[start + 1] == CodeOf(l)
      requires AllOk(Schedule[..start], c) && Snapshot() == StoreAll(t0, Schedule[..start], c)
      modifies this
      ensures start <= n <= start + 2 && AllOk(Schedule[..n], c)
      ensures n < start + 2 ==> !SlotOk(Schedule[n], c)
      ensures raised <==> n < start + 2
      ensures Snapshot() == StoreAll(t0, Schedule[..n], c)
    {
      var r := c.reply;
      n := start;
      HourlyTemp(l, c, at);
      HourlyCode(l, c, at);
      if at >= |r.hourlyTemp| {
        return true, n;
      }
      SetTemp(l, Str(IntToString(r.hourlyTemp[at])), t0, n, c);
      n := n + 1;
      if at >= |r.hourlyCode| {
        return true, n;
      }
      SetCode(l, WeatherLookup(r.hourlyCode[at], c.sun), t0, n, c);
      n := n + 1;
      raised := false;
    }

    /** One pass of the daily loop: "min-max" and then the day-time category
        of the daily label l, read at series index `at`, its day. */
    method AssignDay(l: Label, at: nat, c: Cycle, ghost t0: Table, ghost start: nat) returns (raised: bool, ghost n: nat)
      requires !l.IsHourly() && at == l.Day()
      requires Complete(t0) && start + 1 < |Schedule| && Schedule[start] == TempOf(l) && Schedule[start + 1] == CodeOf(l)
      requires AllOk(Schedule[..start], c) && Snapshot() == StoreAll(t0, Schedule[..start], c)
      modifies this
      ensures start <= n <= start + 2 && AllOk(Schedule[..n], c)
      ensures n < start + 2 ==> !SlotOk(Schedule[n], c)
      ensures raised <==> n < start + 2
      ensures Snapshot() == StoreAll(t0, Schedule[..n], c)
    {
      var r := c.reply;
      n := start;
      DailyValues(l, c, at);
      if at >= |r.dailyMin| || at >= |r.dailyMax| {
        return true, n;
      }
      SetTemp(l, Str(IntToString(r.dailyMin[at]) + "-" + IntToString(r.dailyMax[at])), t0, n, c);
      n := n + 1;
      if at >= |r.dailyCode| {
        return true, n;
      }
      SetCode(l, WeatherLookup(r.dailyCode[at], true), t0, n, c);
      n := n + 1;
      raised := false;
    }

    /** `weather_data["temp"][l] = v`, as assignment n of the cycle c. */
    method SetTemp(l: Label, v: Temp, ghost t0: Table, ghost n: nat, ghost c: Cycle)
      requires Complete(t0) && n < |Schedule| && Schedule[n] == TempOf(l)
      requires AllOk(Schedule[..n], c) && TempReadable(l, c) && v == NewTemp(l, c)
      requires Snapshot() == StoreAll(t0, Schedule[..n], c)
      modifies this
      ensures AllOk(Schedule[..n + 1], c) && Snapshot() == StoreAll(t0, Schedule[..n + 1], c)
    {
      WriteTemp(t0, Schedule, n, c, l);
      temp := temp[l := v];
    }

    /** `weather_data["code"][l] = v`, as assignment n of the cycle c. */
    method SetCode(l: Label, v: string, ghost t0: Table, ghost n: nat, ghost c: Cycle)
      requires Complete(t0) && n < |Schedule| && Schedule[n] == CodeOf(l)
      requires AllOk(Schedule[..n], c) && CodeReadable(l, c) && v == NewCode(l, c)
      requires Snapshot() == StoreAll(t0, Schedule[..n], c)
      modifies this
      ensures AllOk(Schedule[..n + 1], c) && Snapshot() == StoreAll(t0, Schedule[..n + 1], c)
    {
      WriteCode(t0, Schedule, n, c, l);
      code := code[l := v];
    }

    /** generate_message_weather: "WEATHER", then "|temp|code" for each label
        in order, then "]". */
    method GenerateMessageWeather() returns (message: string)
      requires Complete(Snapshot())
      ensures message == WeatherMessage(Snapshot())
    {
      message := "WEATHER";
      var labels := Order;
      for k := 0 to |labels|
        invariant message == "WEATHER" + Pairs(Snapshot(), labels[..k])
      {
        var l := labels[k];
        assert labels[..k + 1][..k] == labels[..k];
        message := message + "|" + Show(temp[l]) + "|" + code[l];
      }
      assert labels[..|labels|] == labels;
      message := message + "]";
    }

    /** send_data_threaded: the bytes the connection carries, the time
        message (composed at `now`) and then the weather message, each
        encoded as ASCII with no length prefix or other framing. */
    method SendData(now: DateTime) returns (wire: seq<Byte>)
      requires Valid() && ValidDateTime(now)
      ensures |wire| == 22 + |WeatherMessage(Snapshot())|
      ensures Chars(wire[..22]) == TimeMessage(now)
      ensures Chars(wire[22..]) == WeatherMessage(Snapshot())
    {
      wire := [];
      var msgTime := TimeMessage(now);
      wire := wire + Encode(msgTime);
      var msgWeather := GenerateMessageWeather();
      WeatherMessageFrame(Snapshot());
      wire := wire + Encode(msgWeather);
      assert wire[..22] == Encode(msgTime) && wire[22..] == Encode(msgWeather);
      CharsEncode(msgTime);
      CharsEncode(msgWeather);
    }
  }
}
