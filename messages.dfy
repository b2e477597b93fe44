/** The two messages the server composes (server/src/server.py): the time
    message "TIME|DD-MM-YYYY HH:MM]" and the weather message "WEATHER", ten
    "|temp|code" pairs and "]". */
module Messages {
  import opened Strings
  import opened Ascii
  import opened Forecast

  lemma PowersUsed()
    ensures Pow10(2) == 100 && Pow10(4) == 10000
  {
    assert Pow10(1) == 10;
    assert Pow10(3) == 1000;
  }

  lemma DigitsArePlain(s: string)
    requires AllDigits(s)
    ensures Plain(s)
  {
  }

  /** strftime('%d-%m-%Y %H:%M'): each field zero-padded, the year to four digits. */
  function DateText(t: DateTime): (s: string)
    requires ValidDateTime(t)
    ensures |s| == 16 && Plain(s)
  {
    PowersUsed();
    var dd, mm, yyyy, hh, mi := Padded(t.day, 2), Padded(t.month, 2), Padded(t.year, 4), Padded(t.hour, 2), Padded(t.minute, 2);
    DigitsArePlain(dd); DigitsArePlain(mm); DigitsArePlain(yyyy); DigitsArePlain(hh); DigitsArePlain(mi);
    PlainConcat(dd, "-"); PlainConcat(dd + "-", mm); PlainConcat(dd + "-" + mm, "-");
    PlainConcat(dd + "-" + mm + "-", yyyy); PlainConcat(dd + "-" + mm + "-" + yyyy, " ");
    PlainConcat(dd + "-" + mm + "-" + yyyy + " ", hh); PlainConcat(dd + "-" + mm + "-" + yyyy + " " + hh, ":");
    PlainConcat(dd + "-" + mm + "-" + yyyy + " " + hh + ":", mi);
    dd + "-" + mm + "-" + yyyy + " " + hh + ":" + mi
  }

  /** The date text has '-', '-', ' ' and ':' at fixed places, and its digit
      fields hold the day, month, year, hour and minute. */
  lemma DateTextFields(t: DateTime)
    requires ValidDateTime(t)
    ensures var s := DateText(t);
      && s[2] == '-' && s[5] == '-' && s[10] == ' ' && s[13] == ':'
      && AllDigits(s[0..2]) && DigitsValue(s[0..2]) == t.day
      && AllDigits(s[3..5]) && DigitsValue(s[3..5]) == t.month
      && AllDigits(s[6..10]) && DigitsValue(s[6..10]) == t.year
      && AllDigits(s[11..13]) && DigitsValue(s[11..13]) == t.hour
      && AllDigits(s[14..16]) && DigitsValue(s[14..16]) == t.minute
  {
    PowersUsed();
    var dd, mm, yyyy, hh, mi := Padded(t.day, 2), Padded(t.month, 2), Padded(t.year, 4), Padded(t.hour, 2), Padded(t.minute, 2);
    var s := DateText(t);
    assert s == dd + "-" + mm + "-" + yyyy + " " + hh + ":" + mi;
    assert s[0..2] == dd && s[3..5] == mm && s[6..10] == yyyy && s[11..13] == hh && s[14..16] == mi;
  }

  /** generate_message_time, for the clock reading t. */
  function TimeMessage(t: DateTime): (m: string)
    requires ValidDateTime(t)
    ensures |m| == 22 && IsAscii(m)
    ensures m[..5] == "TIME|" && m[5..21] == DateText(t) && m[21] == ']'
  {
    var d := DateText(t);
    var m := "TIME|" + d + "]";
    assert m[..5] == "TIME|" && m[5..21] == d;
    m
  }

  /** The "|temp|code" pairs of the labels ls, as the loop of
      generate_message_weather appends them. */
  function Pairs(t: Table, ls: seq<Label>): string
    requires Complete(t)
  {
    if ls == [] then ""
    else
      var l := ls[|ls| - 1];
      Pairs(t, ls[..|ls| - 1]) + "|" + Show(t.temp[l]) + "|" + t.code[l]
  }

  /** generate_message_weather, for the table t. */
  function WeatherMessage(t: Table): string
    requires Complete(t)
  {
    "WEATHER" + Pairs(t, Order) + "]"
  }

  /** The values the weather message carries: per label, in order, the rendered
      temperature and then the category. */
  function Values(t: Table, ls: seq<Label>): (vs: seq<string>)
    requires Complete(t)
    ensures |vs| == 2 * |ls|
  {
    if ls == [] then []
    else
      var l := ls[|ls| - 1];
      Values(t, ls[..|ls| - 1]) + [Show(t.temp[l]), t.code[l]]
  }

  /** Label k's rendered temperature sits at 2 * k, its category right after. */
  lemma {:induction false} ValuesAt(t: Table, ls: seq<Label>, k: nat)
    requires Complete(t) && k < |ls|
    ensures Values(t, ls)[2 * k] == Show(t.temp[ls[k]])
    ensures Values(t, ls)[2 * k + 1] == t.code[ls[k]]
  {
    if k < |ls| - 1 {
      ValuesAt(t, ls[..|ls| - 1], k);
    }
  }

  lemma {:induction false} PairsAreJoin(t: Table, ls: seq<Label>)
    requires Complete(t)
    ensures "WEATHER" + Pairs(t, ls) == Join(["WEATHER"] + Values(t, ls), '|')
  {
    if ls != [] {
      var front := ls[..|ls| - 1];
      var l := ls[|ls| - 1];
      PairsAreJoin(t, front);
      var fs := ["WEATHER"] + Values(t, front);
      JoinSnoc(fs, Show(t.temp[l]), '|');
      JoinSnoc(fs + [Show(t.temp[l])], t.code[l], '|');
      assert ["WEATHER"] + Values(t, ls) == fs + [Show(t.temp[l])] + [t.code[l]];
    }
  }

  lemma {:induction false} ValuesArePlain(t: Table, ls: seq<Label>)
    requires Wellformed(t)
    ensures forall k :: 0 <= k < |Values(t, ls)| ==> Plain(Values(t, ls)[k])
  {
    if ls != [] {
      ValuesArePlain(t, ls[..|ls| - 1]);
    }
  }

  /** ASCII text without the terminator ']'. */
  predicate Unterminated(s: string)
  {
    forall i :: 0 <= i < |s| ==> s[i] as int < 128 && s[i] != ']'
  }

  lemma UnterminatedAppend(a: string, b: string)
    requires Unterminated(a) && Unterminated(b)
    ensures Unterminated(a + b)
  {
  }

  lemma {:induction false} PairsUnterminated(t: Table, ls: seq<Label>)
    requires Wellformed(t)
    ensures Unterminated(Pairs(t, ls))
  {
    if ls != [] {
      var l := ls[|ls| - 1];
      var front := Pairs(t, ls[..|ls| - 1]);
      PairsUnterminated(t, ls[..|ls| - 1]);
      assert Plain(Show(t.temp[l])) && Plain(t.code[l]);
      UnterminatedAppend(front, "|");
      UnterminatedAppend(front + "|", Show(t.temp[l]));
      UnterminatedAppend(front + "|" + Show(t.temp[l]), "|");
      UnterminatedAppend(front + "|" + Show(t.temp[l]) + "|", t.code[l]);
    }
  }

  /** The weather message of a well formed table is ASCII, starts with
      "WEATHER" and ends in its only ']'. */
  lemma WeatherMessageFrame(t: Table)
    requires Wellformed(t)
    ensures var m := WeatherMessage(t);
      && IsAscii(m) && m[..7] == "WEATHER" && m[|m| - 1] == ']' && Lacks(m[..|m| - 1], ']')
  {
    var body := "WEATHER" + Pairs(t, Order);
    assert WeatherMessage(t)[..|WeatherMessage(t)| - 1] == body;
    PairsUnterminated(t, Order);
    KeywordUnterminated();
    UnterminatedAppend("WEATHER", Pairs(t, Order));
    assert Unterminated(body);
  }

  lemma KeywordUnterminated()
    ensures Unterminated("WEATHER")
  {
  }

  /** Splitting the weather message before its ']' at '|' gives back "WEATHER"
      and the twenty values in label order; the message holds exactly 20 '|'. */
  lemma WeatherMessageFields(t: Table)
    requires Wellformed(t)
    ensures var m := WeatherMessage(t);
      && Split(m[..|m| - 1], '|') == ["WEATHER"] + Values(t, Order)
      && Count(m, '|') == 20
  {
    var m := WeatherMessage(t);
    var body := "WEATHER" + Pairs(t, Order);
    assert m[..|m| - 1] == body;
    var fs := ["WEATHER"] + Values(t, Order);
    FieldsHaveNoBar(t);
    PairsAreJoin(t, Order);
    SplitJoin(fs, '|');
    assert |Split(body, '|')| == 21;
    assert m == body + "]";
    CountAppend(body, "]", '|');
  }

  lemma FieldsHaveNoBar(t: Table)
    requires Wellformed(t)
    ensures var fs := ["WEATHER"] + Values(t, Order);
      |fs| == 21 && forall k :: 0 <= k < |fs| ==> Lacks(fs[k], '|')
  {
    ValuesArePlain(t, Order);
    var fs := ["WEATHER"] + Values(t, Order);
    forall k | 0 <= k < |fs| ensures Lacks(fs[k], '|') {
      if k > 0 {
        assert fs[k] == Values(t, Order)[k - 1];
      }
    }
  }
}
