/** The server's forecast table (server/src/server.py): its ten labels, the
    weather-code lookup, and what one refresh cycle of fetch_data_threaded
    writes into the table, as functions of the decoded reply. */
module Forecast {
  import opened Strings
  import opened Ascii

  /** The ten forecast horizons; server.py keys its dictionaries "now", "1h",
      "2h", "4h", "8h", "1d", "2d", "3d", "4d" and "5d". */
  datatype Label = Now | H1 | H2 | H4 | H8 | D1 | D2 | D3 | D4 | D5
  {
    /** Place in the order in which a refresh writes the labels and the weather message lists them. */
    function Position(): (p: nat)
      ensures p < 10
    {
      match this
      case Now => 0 case H1 => 1 case H2 => 2 case H4 => 3 case H8 => 4
      case D1 => 5 case D2 => 6 case D3 => 7 case D4 => 8 case D5 => 9
    }

    predicate IsHourly() { Position() < 5 }

    /** Hours ahead of the current hour, for the hourly labels. */
    function Hours(): (h: nat)
      ensures h <= 8
    {
      match this
      case H1 => 1 case H2 => 2 case H4 => 4 case H8 => 8
      case _ => 0
    }

    /** Days ahead, for the daily labels; 0 for the hourly ones. */
    function Day(): (d: nat)
      ensures d <= 5 && (d == 0 <==> IsHourly())
    {
      match this
      case D1 => 1 case D2 => 2 case D3 => 3 case D4 => 4 case D5 => 5
      case _ => 0
    }
  }

  const Order: seq<Label> := [Now, H1, H2, H4, H8, D1, D2, D3, D4, D5]

  /** Each label sits at its position in Order. */
  lemma PositionInOrder(l: Label)
    ensures Order[l.Position()] == l
  {
    match l
    case Now => case H1 => case H2 => case H4 => case H8 =>
    case D1 => case D2 => case D3 => case D4 => case D5 =>
  }

  /** Order lists every label. */
  lemma LabelsInOrder()
    ensures forall l: Label :: l in Order
  {
    forall l: Label ensures l in Order {
      PositionInOrder(l);
    }
  }

  /** The label f"{i}h" names in the hourly loop. */
  function HourLabel(i: nat): (l: Label)
    requires i == 1 || i == 2 || i == 4 || i == 8
    ensures l.IsHourly() && l.Hours() == i
  {
    if i == 1 then H1 else if i == 2 then H2 else if i == 4 then H4 else H8
  }

  /** The label f"{i}d" names in the daily loop. */
  function DayLabel(i: nat): (l: Label)
    requires 1 <= i <= 5
    ensures !l.IsHourly() && l.Day() == i
  {
    if i == 1 then D1 else if i == 2 then D2 else if i == 3 then D3 else if i == 4 then D4 else D5
  }

  /** A temperature entry: the int sentinel the table starts with, or the
      text a refresh stores. */
  datatype Temp = Int(value: int) | Str(text: string)

  /** How an f-string renders the entry. */
  function Show(t: Temp): string
  {
    match t
    case Int(n) => IntToString(n)
    case Str(s) => s
  }

  const Sentinel: int := -9999
  const Unknown: string := "unknown"

  /** Text that can stand between the separators of a message: ASCII, and
      neither the field separator '|' nor the message terminator ']'. */
  predicate Plain(s: string)
  {
    forall i :: 0 <= i < |s| ==> s[i] as int < 128 && s[i] != '|' && s[i] != ']'
  }

  const Categories: set<string> :=
    {"sun", "moon", "sun_cloud", "moon_cloud", "cloud", "fog", "drizzle", "hail", "rain", "snow", "thunder", "unknown"}

  /** The categories that only a day-time lookup yields. */
  const DaySymbols: set<string> := {"sun", "sun_cloud"}

  /** The weather codes the lookup has a case for. */
  const MappedCodes: set<int> :=
    {0, 1, 2, 3, 45, 48, 51, 53, 55, 56, 57, 61, 63, 65, 80, 81, 82, 66, 67, 71, 73, 75, 77, 85, 86, 95, 96, 99}

  /** weather_lookup: the category shown for a WMO weather code by day (sun) or night. */
  function WeatherLookup(code: int, sun: bool): (r: string)
    ensures r in Categories && Plain(r)
    ensures r == Unknown <==> code !in MappedCodes
    ensures r in DaySymbols ==> sun
    ensures (r == "moon" || r == "moon_cloud") ==> !sun
  {
    match code
    case 0 => if sun then "sun" else "moon"
    case 1 => if sun then "sun_cloud" else "moon_cloud"
    case 2 | 3 => "cloud"
    case 45 | 48 => "fog"
    case 51 | 53 | 55 => "drizzle"
    case 56 | 57 => "hail"
    case 61 | 63 | 65 | 80 | 81 | 82 => "rain"
    case 66 | 67 => "hail"
    case 71 | 73 | 75 | 77 | 85 | 86 => "snow"
    case 95 | 96 | 99 => "thunder"
    case _ => "unknown"
  }

  /** The day flag changes the category only for codes 0 and 1. */
  lemma DayFlagMattersOnlyForClearSky(code: int)
    ensures WeatherLookup(code, true) != WeatherLookup(code, false) <==> code == 0 || code == 1
  {
  }

  /** The two dictionaries of weather_data: temperature and category per label. */
  datatype Table = Table(temp: map<Label, Temp>, code: map<Label, string>)

  predicate Complete(t: Table)
  {
    forall l: Label :: l in t.temp && l in t.code
  }

  /** What every table the server ever holds satisfies: all labels present,
      each rendered value Plain, each category from the lookup's set, and no
      hourly label showing a day-time symbol. */
  predicate Wellformed(t: Table)
  {
    && Complete(t)
    && forall l: Label ::
         && Plain(Show(t.temp[l]))
         && Plain(t.code[l])
         && t.code[l] in Categories
         && (l.IsHourly() ==> t.code[l] !in DaySymbols)
  }

  /** weather_data's two dictionaries as the module defines them. */
  const InitialTemp: map<Label, Temp> := map[
    Now := Int(Sentinel), H1 := Int(Sentinel), H2 := Int(Sentinel), H4 := Int(Sentinel), H8 := Int(Sentinel),
    D1 := Int(Sentinel), D2 := Int(Sentinel), D3 := Int(Sentinel), D4 := Int(Sentinel), D5 := Int(Sentinel)]

  const InitialCode: map<Label, string> := map[
    Now := Unknown, H1 := Unknown, H2 := Unknown, H4 := Unknown, H8 := Unknown,
    D1 := Unknown, D2 := Unknown, D3 := Unknown, D4 := Unknown, D5 := Unknown]

  lemma InitialEntries(l: Label)
    ensures l in InitialTemp && InitialTemp[l] == Int(Sentinel)
    ensures l in InitialCode && InitialCode[l] == Unknown
  {
    match l
    case Now => case H1 => case H2 => case H4 => case H8 =>
    case D1 => case D2 => case D3 => case D4 => case D5 =>
  }

  /** The table at process start: the sentinel temperature and "unknown" everywhere. */
  function Initial(): (t: Table)
    ensures Wellformed(t)
    ensures forall l: Label :: t.temp[l] == Int(Sentinel) && t.code[l] == Unknown
  {
    InitialWellformed();
    Table(InitialTemp, InitialCode)
  }

  lemma InitialWellformed()
    ensures var t := Table(InitialTemp, InitialCode);
      && Wellformed(t)
      && forall l: Label :: t.temp[l] == Int(Sentinel) && t.code[l] == Unknown
  {
    var t := Table(InitialTemp, InitialCode);
    assert Plain(Show(Int(Sentinel))) && Plain(Unknown);
    forall l: Label
      ensures l in t.temp && l in t.code && t.temp[l] == Int(Sentinel) && t.code[l] == Unknown
    {
      InitialEntries(l);
    }
  }

  /** A naive datetime with the fields Python compares. */
  datatype DateTime = DateTime(year: int, month: int, day: int, hour: int, minute: int, second: int, microsecond: int)

  /** The ranges Python's datetime enforces (the day is not checked against the month's length). */
  predicate ValidDateTime(t: DateTime)
  {
    && 1 <= t.year <= 9999 && 1 <= t.month <= 12 && 1 <= t.day <= 31
    && 0 <= t.hour < 24 && 0 <= t.minute < 60 && 0 <= t.second < 60 && 0 <= t.microsecond < 1000000
  }

  function Fields(t: DateTime): seq<int>
  {
    [t.year, t.month, t.day, t.hour, t.minute, t.second, t.microsecond]
  }

  /** Lexicographic order of equally long integer sequences. */
  predicate LexLess(a: seq<int>, b: seq<int>)
    requires |a| == |b|
  {
    |a| > 0 && (a[0] < b[0] || (a[0] == b[0] && LexLess(a[1..], b[1..])))
  }

  lemma {:induction false} LexLessIrreflexive(a: seq<int>)
    ensures !LexLess(a, a)
  {
    if |a| > 0 {
      LexLessIrreflexive(a[1..]);
    }
  }

  lemma {:induction false} LexLessTransitive(a: seq<int>, b: seq<int>, c: seq<int>)
    requires |a| == |b| == |c|
    requires LexLess(a, b) && LexLess(b, c)
    ensures LexLess(a, c)
  {
    if a[0] == b[0] && b[0] == c[0] {
      LexLessTransitive(a[1..], b[1..], c[1..]);
    }
  }

  /** `a < b` on datetimes. */
  predicate Before(a: DateTime, b: DateTime)
  {
    LexLess(Fields(a), Fields(b))
  }

  /** The day flag: `current_time > sunrise and current_time < sunset`. */
  predicate DayFlag(now: DateTime, sunrise: DateTime, sunset: DateTime)
  {
    Before(sunrise, now) && Before(now, sunset)
  }

  /** It is day only between a sunrise and a later sunset; so with the sunset
      parsed from the sunrise field, as the refresh does, it is never day. */
  lemma DayOnlyBetweenSunriseAndSunset(now: DateTime, sunrise: DateTime, sunset: DateTime)
    ensures DayFlag(now, sunrise, sunset) ==> Before(sunrise, sunset)
    ensures !DayFlag(now, sunrise, sunrise)
  {
    if DayFlag(now, sunrise, sunset) {
      LexLessTransitive(Fields(sunrise), Fields(now), Fields(sunset));
    }
    if DayFlag(now, sunrise, sunrise) {
      LexLessTransitive(Fields(sunrise), Fields(now), Fields(sunrise));
      LexLessIrreflexive(Fields(sunrise));
    }
  }

  /** The parts of the Open-Meteo reply a refresh reads, decoded: the hourly
      series start at 00:00 today, the daily ones at today, temperatures are
      already rounded. `sunset` is fetched but never read. */
  datatype Reply = Reply(
    hourlyTemp: seq<int>, hourlyCode: seq<int>,
    dailyMin: seq<int>, dailyMax: seq<int>, dailyCode: seq<int>,
    sunrise: seq<DateTime>, sunset: seq<DateTime>)

  /** `hour + minute // 30`: the index of the current hour in the hourly series, rounded to the nearer hour. */
  function Offset(now: DateTime): (off: nat)
    requires ValidDateTime(now)
    ensures now.hour <= off <= now.hour + 1 && off <= 24
    ensures off == now.hour + 1 <==> now.minute >= 30
  {
    now.hour + now.minute / 30
  }

  /** What one refresh cycle works from: the offset, the day flag and the reply. */
  datatype Cycle = Cycle(offset: nat, sun: bool, reply: Reply)

  /** The cycle a refresh at `now` runs; the day flag compares against
      sunrise[0] twice, as server.py does. */
  function CycleOf(now: DateTime, r: Reply): (c: Cycle)
    requires ValidDateTime(now)
    ensures !c.sun
  {
    var sun := |r.sunrise| > 0 && DayFlag(now, r.sunrise[0], r.sunrise[0]);
    assert !sun by {
      if |r.sunrise| > 0 { DayOnlyBetweenSunriseAndSunset(now, r.sunrise[0], r.sunrise[0]); }
    }
    Cycle(Offset(now), sun, r)
  }

  /** Whether the series indices the temperature of l reads exist; where
      they do not, the read raises IndexError. */
  predicate TempReadable(l: Label, c: Cycle)
  {
    var r := c.reply;
    if l.IsHourly() then c.offset + l.Hours() < |r.hourlyTemp|
    else l.Day() < |r.dailyMin| && l.Day() < |r.dailyMax|
  }

  /** The temperature a cycle stores for l: the hourly value, or the daily
      minimum and maximum joined by '-'. */
  function NewTemp(l: Label, c: Cycle): (v: Temp)
    requires TempReadable(l, c)
    ensures v.Str? && |v.text| >= 1
  {
    var r := c.reply;
    if l.IsHourly() then Str(IntToString(r.hourlyTemp[c.offset + l.Hours()]))
    else Str(IntToString(r.dailyMin[l.Day()]) + "-" + IntToString(r.dailyMax[l.Day()]))
  }

  /** Whether the series index the category of l reads exists. */
  predicate CodeReadable(l: Label, c: Cycle)
  {
    var r := c.reply;
    if l.IsHourly() then c.offset + l.Hours() < |r.hourlyCode| else l.Day() < |r.dailyCode|
  }

  /** The category a cycle stores for l; daily labels always use the day-time variant. */
  function NewCode(l: Label, c: Cycle): (s: string)
    requires CodeReadable(l, c)
    ensures s in Categories
  {
    var r := c.reply;
    if l.IsHourly() then WeatherLookup(r.hourlyCode[c.offset + l.Hours()], c.sun)
    else WeatherLookup(r.dailyCode[l.Day()], true)
  }

  /** The temperature of an hourly label, read at the offset plus its hours. */
  lemma HourlyTemp(l: Label, c: Cycle, at: nat)
    requires l.IsHourly() && at == c.offset + l.Hours()
    ensures TempReadable(l, c) <==> at < |c.reply.hourlyTemp|
    ensures TempReadable(l, c) ==> NewTemp(l, c) == Str(IntToString(c.reply.hourlyTemp[at]))
  {
  }

  /** The category of an hourly label, read at the same index. */
  lemma HourlyCode(l: Label, c: Cycle, at: nat)
    requires l.IsHourly() && at == c.offset + l.Hours()
    ensures CodeReadable(l, c) <==> at < |c.reply.hourlyCode|
    ensures CodeReadable(l, c) ==> NewCode(l, c) == WeatherLookup(c.reply.hourlyCode[at], c.sun)
  {
  }

  /** The values of a daily label, read at its day. */
  lemma DailyValues(l: Label, c: Cycle, at: nat)
    requires !l.IsHourly() && at == l.Day()
    ensures TempReadable(l, c) <==> at < |c.reply.dailyMin| && at < |c.reply.dailyMax|
    ensures CodeReadable(l, c) <==> at < |c.reply.dailyCode|
    ensures TempReadable(l, c) ==> NewTemp(l, c) == Str(IntToString(c.reply.dailyMin[at]) + "-" + IntToString(c.reply.dailyMax[at]))
    ensures CodeReadable(l, c) ==> NewCode(l, c) == WeatherLookup(c.reply.dailyCode[at], true)
  {
  }

  /** One assignment of the refresh: the temperature or the category of a label. */
  datatype Slot = TempOf(key: Label) | CodeOf(key: Label)

  /** Per label its temperature, then its category, labels in the given order. */
  function SlotsOf(ls: seq<Label>): (ss: seq<Slot>)
    ensures |ss| == 2 * |ls|
  {
    seq(2 * |ls|, i requires 0 <= i < 2 * |ls| => if i % 2 == 0 then TempOf(ls[i / 2]) else CodeOf(ls[i / 2]))
  }

  /** The 20 assignments of a refresh, in the order server.py makes them. */
  const Schedule: seq<Slot> := SlotsOf(Order)

  /** Where label l's two assignments sit in the schedule. */
  lemma ScheduleAt(l: Label)
    ensures |Schedule| == 20
    ensures Schedule[2 * l.Position()] == TempOf(l) && Schedule[2 * l.Position() + 1] == CodeOf(l)
  {
    PositionInOrder(l);
  }

  /** Whether the assignment computes its value without raising. */
  predicate SlotOk(s: Slot, c: Cycle)
  {
    match s
    case TempOf(l) => TempReadable(l, c)
    case CodeOf(l) => CodeReadable(l, c)
  }

  predicate AllOk(ss: seq<Slot>, c: Cycle)
  {
    forall i :: 0 <= i < |ss| ==> SlotOk(ss[i], c)
  }

  /** The table after one assignment. */
  function Store(t: Table, s: Slot, c: Cycle): (t': Table)
    requires Complete(t) && SlotOk(s, c)
    ensures Complete(t')
  {
    match s
    case TempOf(l) => Table(t.temp[l := NewTemp(l, c)], t.code)
    case CodeOf(l) => Table(t.temp, t.code[l := NewCode(l, c)])
  }

  /** The table after the assignments ss, in order. */
  function StoreAll(t: Table, ss: seq<Slot>, c: Cycle): (t': Table)
    requires Complete(t) && AllOk(ss, c)
    ensures Complete(t')
  {
    if ss == [] then t
    else
      assert AllOk(ss[..|ss| - 1], c);
      Store(StoreAll(t, ss[..|ss| - 1], c), ss[|ss| - 1], c)
  }

  /** After a run of assignments, an entry holds the cycle's value when one of
      them assigned it and its earlier value otherwise. */
  lemma {:induction false} StoreAllAt(t: Table, ss: seq<Slot>, c: Cycle, l: Label)
    requires Complete(t) && AllOk(ss, c)
    ensures TempOf(l) in ss ==> TempReadable(l, c)
    ensures CodeOf(l) in ss ==> CodeReadable(l, c)
    ensures StoreAll(t, ss, c).temp[l] == if TempOf(l) in ss then NewTemp(l, c) else t.temp[l]
    ensures StoreAll(t, ss, c).code[l] == if CodeOf(l) in ss then NewCode(l, c) else t.code[l]
  {
    if ss != [] {
      var front := ss[..|ss| - 1];
      assert ss == front + [ss[|ss| - 1]];
      assert AllOk(front, c);
      StoreAllAt(t, front, c, l);
    }
  }

  /** The index of the first assignment from j on that raises, or 20 when none does. */
  function WritesFrom(j: nat, c: Cycle): (k: nat)
    requires j <= 20
    ensures j <= k <= 20
    ensures forall i :: j <= i < k ==> SlotOk(Schedule[i], c)
    ensures k < 20 ==> !SlotOk(Schedule[k], c)
    decreases 20 - j
  {
    if j == 20 || !SlotOk(Schedule[j], c) then j else WritesFrom(j + 1, c)
  }

  /** How many assignments a refresh at `now` with HTTP status `status`
      performs: none for a non-200 status or an empty sunrise list (reading
      sunrise[0] raises before any assignment), otherwise every assignment
      before the first that raises. */
  function Written(now: DateTime, status: int, r: Reply): (k: nat)
    requires ValidDateTime(now)
    ensures k <= 20 && AllOk(Schedule[..k], CycleOf(now, r))
    ensures k < 20 && status == 200 && |r.sunrise| > 0 ==> !SlotOk(Schedule[k], CycleOf(now, r))
    ensures status != 200 || |r.sunrise| == 0 ==> k == 0
  {
    if status != 200 || |r.sunrise| == 0 then 0 else WritesFrom(0, CycleOf(now, r))
  }

  /** The table after a refresh at `now` that got HTTP status `status` and reply r. */
  function Refreshed(t: Table, now: DateTime, status: int, r: Reply): (t': Table)
    requires Complete(t) && ValidDateTime(now)
    ensures Complete(t')
    ensures status != 200 || |r.sunrise| == 0 ==> t' == t
    ensures Wellformed(t) ==> Wellformed(t')
  {
    var c := CycleOf(now, r);
    var done := Schedule[..Written(now, status, r)];
    assert Wellformed(t) ==> Wellformed(StoreAll(t, done, c)) by {
      if Wellformed(t) { StoreAllWellformed(t, done, c); }
    }
    StoreAll(t, done, c)
  }

  /** Every label's temperature and category both have a place in the schedule. */
  lemma ScheduleCovers(l: Label)
    ensures TempOf(l) in Schedule && CodeOf(l) in Schedule
  {
    ScheduleAt(l);
  }

  /** With status 200, a sunrise, and every series long enough, no
      assignment raises. */
  lemma RefreshWritesAll(now: DateTime, r: Reply)
    requires ValidDateTime(now) && |r.sunrise| > 0
    requires Offset(now) + 8 < |r.hourlyTemp| && Offset(now) + 8 < |r.hourlyCode|
    requires 5 < |r.dailyMin| && 5 < |r.dailyMax| && 5 < |r.dailyCode|
    ensures Written(now, 200, r) == 20
  {
    var c := CycleOf(now, r);
    ScheduleAt(Now);
    forall i | 0 <= i < 20 ensures SlotOk(Schedule[i], c) {
      var l := Schedule[i].key;
      assert TempReadable(l, c) && CodeReadable(l, c);
    }
  }

  /** ... and then it stores each hourly label's temperature and night-time
      category from hourly index offset + hours, and each daily label's
      "min-max" and day-time category from daily index d. */
  lemma RefreshSucceeds(t: Table, now: DateTime, r: Reply)
    requires Complete(t) && ValidDateTime(now) && |r.sunrise| > 0
    requires Offset(now) + 8 < |r.hourlyTemp| && Offset(now) + 8 < |r.hourlyCode|
    requires 5 < |r.dailyMin| && 5 < |r.dailyMax| && 5 < |r.dailyCode|
    ensures forall l: Label :: l.IsHourly() ==>
      && Refreshed(t, now, 200, r).temp[l] == Str(IntToString(r.hourlyTemp[Offset(now) + l.Hours()]))
      && Refreshed(t, now, 200, r).code[l] == WeatherLookup(r.hourlyCode[Offset(now) + l.Hours()], false)
    ensures forall l: Label :: !l.IsHourly() ==>
      && Refreshed(t, now, 200, r).temp[l] == Str(IntToString(r.dailyMin[l.Day()]) + "-" + IntToString(r.dailyMax[l.Day()]))
      && Refreshed(t, now, 200, r).code[l] == WeatherLookup(r.dailyCode[l.Day()], true)
  {
    var c := CycleOf(now, r);
    RefreshWritesAll(now, r);
    ScheduleAt(Now);
    assert Schedule[..20] == Schedule;
    var t' := Refreshed(t, now, 200, r);
    assert t' == StoreAll(t, Schedule, c);
    assert c == Cycle(Offset(now), false, r);
    forall l: Label ensures t'.temp[l] == NewTemp(l, c) && t'.code[l] == NewCode(l, c)
    {
      ScheduleCovers(l);
      StoreAllAt(t, Schedule, c, l);
    }
    forall l: Label | l.IsHourly()
      ensures t'.temp[l] == Str(IntToString(r.hourlyTemp[Offset(now) + l.Hours()]))
      ensures t'.code[l] == WeatherLookup(r.hourlyCode[Offset(now) + l.Hours()], false)
    {
      var i := Offset(now) + l.Hours();
      assert NewTemp(l, c) == Str(IntToString(r.hourlyTemp[i]));
      assert NewCode(l, c) == WeatherLookup(r.hourlyCode[i], false);
    }
  }

  /** When assignment j is the first that raises, the refresh stops there:
      exactly the assignments before it have been made; when none raises,
      all 20 are made. */
  lemma RefreshStopsAt(now: DateTime, r: Reply, j: nat)
    requires ValidDateTime(now) && |r.sunrise| > 0 && j <= 20
    requires AllOk(Schedule[..j], CycleOf(now, r))
    requires j < 20 ==> !SlotOk(Schedule[j], CycleOf(now, r))
    ensures Written(now, 200, r) == j
  {
    var c := CycleOf(now, r);
    var k := Written(now, 200, r);
    forall i | 0 <= i < j ensures SlotOk(Schedule[i], c) {
      assert Schedule[..j][i] == Schedule[i];
    }
    forall i | 0 <= i < k ensures SlotOk(Schedule[i], c) {
      assert Schedule[..k][i] == Schedule[i];
    }
  }

  /** A refresh whose assignment j raises keeps what it stored before j and
      leaves every entry that comes at or after j with its earlier value. */
  lemma RefreshFailsAt(t: Table, now: DateTime, r: Reply, j: nat, l: Label)
    requires Complete(t) && ValidDateTime(now) && |r.sunrise| > 0 && j < 20
    requires AllOk(Schedule[..j], CycleOf(now, r)) && !SlotOk(Schedule[j], CycleOf(now, r))
    ensures var t' := Refreshed(t, now, 200, r);
      && (TempOf(l) in Schedule[..j] ==> TempReadable(l, CycleOf(now, r)) && t'.temp[l] == NewTemp(l, CycleOf(now, r)))
      && (TempOf(l) !in Schedule[..j] ==> t'.temp[l] == t.temp[l])
      && (CodeOf(l) in Schedule[..j] ==> CodeReadable(l, CycleOf(now, r)) && t'.code[l] == NewCode(l, CycleOf(now, r)))
      && (CodeOf(l) !in Schedule[..j] ==> t'.code[l] == t.code[l])
  {
    RefreshStopsAt(now, r, j);
    StoreAllAt(t, Schedule[..j], CycleOf(now, r), l);
  }

  /** Every value a night-time cycle stores keeps the table well formed. */
  lemma StoreAllWellformed(t: Table, ss: seq<Slot>, c: Cycle)
    requires Wellformed(t) && AllOk(ss, c) && !c.sun
    ensures Wellformed(StoreAll(t, ss, c))
  {
    var t' := StoreAll(t, ss, c);
    forall l: Label
      ensures Plain(Show(t'.temp[l])) && Plain(t'.code[l]) && t'.code[l] in Categories && (l.IsHourly() ==> t'.code[l] !in DaySymbols)
    {
      StoreAllAt(t, ss, c, l);
      if TempOf(l) in ss {
        NewTempPlain(l, c);
      }
    }
  }

  lemma NewTempPlain(l: Label, c: Cycle)
    requires TempReadable(l, c)
    ensures Plain(Show(NewTemp(l, c)))
  {
    var r := c.reply;
    if l.IsHourly() {
      IntTextPlain(r.hourlyTemp[c.offset + l.Hours()]);
    } else {
      var d := l.Day();
      var lo, hi := IntToString(r.dailyMin[d]), IntToString(r.dailyMax[d]);
      assert Show(NewTemp(l, c)) == lo + "-" + hi;
      IntTextPlain(r.dailyMin[d]);
      IntTextPlain(r.dailyMax[d]);
      PlainConcat(lo, "-");
      PlainConcat(lo + "-", hi);
    }
  }

  /** str() of an integer is a sign and digits. */
  lemma IntTextPlain(i: int)
    ensures Plain(IntToString(i))
  {
    var s := IntToString(i);
    forall k | 0 <= k < |s| ensures s[k] as int < 128 && s[k] != '|' && s[k] != ']' {
      assert IsDigit(s[k]) || s[k] == '-';
    }
  }

  lemma PlainConcat(a: string, b: string)
    requires Plain(a) && Plain(b)
    ensures Plain(a + b)
  {
    forall k | 0 <= k < |a + b| ensures (a + b)[k] as int < 128 && (a + b)[k] != '|' && (a + b)[k] != ']' {
      if k < |a| { assert (a + b)[k] == a[k]; } else { assert (a + b)[k] == b[k - |a|]; }
    }
  }
}
