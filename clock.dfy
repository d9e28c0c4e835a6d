/**
 * Times of day: the 12-hour rendering used for every recommendation
 * ("hh:mm AM" / "hh:mm PM") and `parseTimeString`, which turns such a
 * string back into a 24-hour hour and a minute.
 */
module Clock {
  import opened Wrappers
  import opened Text

  const MinutesPerDay: int := 1440

  /** A time of day as minutes since midnight. */
  type MinuteOfDay = m: int | 0 <= m < 1440

  /** The value of an `<input type="time">`: empty, or a time of day. */
  datatype TimeInput = Empty | At(minute: MinuteOfDay)

  /**
   * What `parseTimeString` returns. Nothing bounds the fields: "25:70 PM"
   * parses to hour 37, minute 70, and `Date.setHours` carries the excess
   * into the following days.
   */
  datatype ClockTime = ClockTime(hours: nat, minutes: nat) {
    /** The instant `setHours(hours, minutes, 0, 0)` denotes, in minutes after the day's midnight. */
    function MinutesFromMidnight(): nat {
      hours * 60 + minutes
    }
  }

  /** The hour on a 12-hour dial: 12 for midnight and noon. */
  function Hour12(hour24: nat): (h: nat)
    ensures 1 <= h <= 12
  {
    if hour24 % 12 == 0 then 12 else hour24 % 12
  }

  /** The displayed form "hh:mm modifier". */
  function Render(hh: string, mm: string, modifier: string): string
  {
    hh + ":" + mm + " " + modifier
  }

  /** `toLocaleTimeString` with two-digit hour and minute on a 12-hour clock. */
  function Format12(t: MinuteOfDay): (s: string)
    ensures |s| == 8 && s[2] == ':' && s[5] == ' ' && s[7] == 'M'
    ensures s[6] == (if t < 720 then 'A' else 'P')
  {
    var h := t / 60;
    Render(TwoDigits(Hour12(h)), TwoDigits(t % 60), if h < 12 then "AM" else "PM")
  }

  /**
   * The fields of the rendering: the hour is the 12-hour dial hour, from
   * 01 to 12 (midnight and noon show as 12), and the minute is the minute
   * of the hour.
   */
  lemma Format12Dial(t: MinuteOfDay)
    ensures AllDigits(Format12(t)[..2]) && 1 <= DigitsValue(Format12(t)[..2]) <= 12
    ensures DigitsValue(Format12(t)[..2]) == Hour12(t / 60)
    ensures AllDigits(Format12(t)[3..5]) && DigitsValue(Format12(t)[3..5]) == t % 60
  {
    var h := t / 60;
    var hh, mm := TwoDigits(Hour12(h)), TwoDigits(t % 60);
    TwoDigitsRoundTrip(Hour12(h));
    TwoDigitsRoundTrip(t % 60);
    RenderFields(hh, mm, if h < 12 then "AM" else "PM");
  }

  /** Where the two-digit fields sit in a rendering. */
  lemma RenderFields(hh: string, mm: string, modifier: string)
    requires |hh| == 2 && |mm| == 2
    ensures Render(hh, mm, modifier)[..2] == hh && Render(hh, mm, modifier)[3..5] == mm
  {
    var s := Render(hh, mm, modifier);
    assert s == hh + (":" + (mm + (" " + modifier)));
    assert s[..2] == hh;
    assert s[3..5] == mm by {
      assert forall i :: 0 <= i < 2 ==> s[3 + i] == mm[i];
    }
  }

  /**
   * The 24-hour hour for `hours` read with the given modifier: the position
   * on the 12-hour dial is kept, "PM" puts it in the afternoon, "AM" puts
   * an hour up to 12 in the morning, and anything else leaves it as it is.
   */
  function Meridiem(hours: nat, modifier: string): (r: nat)
    ensures r % 12 == hours % 12
    ensures modifier == "PM" ==> 12 <= r
    ensures modifier == "AM" && hours <= 12 ==> r < 12
    ensures modifier != "AM" && modifier != "PM" ==> r == hours
  {
    if modifier == "PM" && hours != 12 then hours + 12
    else if modifier == "AM" && hours == 12 then 0
    else hours
  }

  /**
   * `parseTimeString`: split the trimmed string at spaces into the time and
   * the modifier, split the time at colons into hours and minutes, convert
   * both with `Number`, then apply the AM/PM rule. `None` is a NaN field.
   */
  function ParseTime(s: string): (r: Option<ClockTime>)
    ensures s == [] ==> r == None
  {
    var parts := Split(Trim(s), ' ');
    var modifier := if |parts| >= 2 then parts[1] else "";
    match HoursAndMinutes(parts[0])
    case None => None
    case Some(hm) => Some(ClockTime(Meridiem(hm.0, modifier), hm.1))
  }

  /** `time.split(":").map(Number)`, keeping the first two fields; a missing minute is NaN. */
  function HoursAndMinutes(time: string): (r: Option<(nat, nat)>)
    ensures ':' !in time ==> r == None
  {
    assert ':' !in time ==> Split(time, ':') == [time] by {
      if ':' !in time {
        SplitWithout(time, ':');
      }
    }
    var fields := Split(time, ':');
    var hours := ToNumber(fields[0]);
    var minutes := if |fields| >= 2 then ToNumber(fields[1]) else None;
    if hours.None? || minutes.None? then None else Some((hours.value, minutes.value))
  }

  /** The general shape: digits, a colon, digits, one space, a modifier. */
  lemma ParseShape(hh: string, mm: string, modifier: string)
    requires AllDigits(hh) && AllDigits(mm)
    requires modifier != [] && ' ' !in modifier && !IsWhitespace(modifier[|modifier| - 1])
    ensures ParseTime(Render(hh, mm, modifier))
         == Some(ClockTime(Meridiem(DigitsValue(hh), modifier), DigitsValue(mm)))
  {
    var time := hh + ":" + mm;
    var s := Render(hh, mm, modifier);
    assert s == time + " " + modifier;
    assert s[0] == if hh == [] then ':' else hh[0];
    assert s[|s| - 1] == modifier[|modifier| - 1];
    PrintableNotWhitespace(s[0]);
    TrimUnchanged(s);
    assert Split(Trim(s), ' ') == [time, modifier] by {
      assert ' ' !in time by {
        assert forall i :: 0 <= i < |time| ==> time[i] == ':' || IsDigit(time[i]);
      }
      SplitTwo(time, modifier, ' ');
    }
    assert Split(time, ':') == [hh, mm] by {
      assert ':' !in hh && ':' !in mm by {
        assert forall i :: 0 <= i < |hh| ==> IsDigit(hh[i]);
        assert forall i :: 0 <= i < |mm| ==> IsDigit(mm[i]);
      }
      SplitTwo(hh, mm, ':');
    }
    ToNumberDigits(hh);
    ToNumberDigits(mm);
    ParseFields(s, time, modifier, hh, mm);
  }

  /** `ParseTime` from the results of its two splits. */
  lemma ParseFields(s: string, time: string, modifier: string, hh: string, mm: string)
    requires Split(Trim(s), ' ') == [time, modifier]
    requires Split(time, ':') == [hh, mm]
    requires ToNumber(hh).Some? && ToNumber(mm).Some?
    ensures ParseTime(s) == Some(ClockTime(Meridiem(ToNumber(hh).value, modifier), ToNumber(mm).value))
  {
  }

  /**
   * The AM/PM rule of `parseTimeString`: "12 AM" is hour 0, "12 PM" is hour
   * 12, every other PM hour gains 12, and the minute is kept.
   */
  lemma ParseTwelveHour(hh: string, mm: string)
    requires AllDigits(hh) && AllDigits(mm)
    ensures ParseTime(Render(hh, mm, "AM"))
         == Some(ClockTime(if DigitsValue(hh) == 12 then 0 else DigitsValue(hh), DigitsValue(mm)))
    ensures ParseTime(Render(hh, mm, "PM"))
         == Some(ClockTime(if DigitsValue(hh) == 12 then 12 else DigitsValue(hh) + 12, DigitsValue(mm)))
  {
    assert "AM" != "PM" by {
      assert "AM"[0] != "PM"[0];
    }
    PrintableNotWhitespace('M');
    ParseShape(hh, mm, "AM");
    ParseShape(hh, mm, "PM");
  }

  /** Parsing the rendering of a time of day gives back its hour and minute. */
  lemma ParseFormat(t: MinuteOfDay)
    ensures ParseTime(Format12(t)) == Some(ClockTime(t / 60, t % 60))
    ensures ParseTime(Format12(t)).value.MinutesFromMidnight() == t
  {
    var h, m := t / 60, t % 60;
    var hh, mm := TwoDigits(Hour12(h)), TwoDigits(m);
    var s := Format12(t);
    TwoDigitsRoundTrip(Hour12(h));
    TwoDigitsRoundTrip(m);
    ParseTwelveHour(hh, mm);
    if h < 12 {
      assert s == Render(hh, mm, "AM");
      assert ParseTime(s) == Some(ClockTime(if Hour12(h) == 12 then 0 else Hour12(h), m));
      Hour12Inverse(h);
    } else {
      assert s == Render(hh, mm, "PM");
      assert ParseTime(s) == Some(ClockTime(if Hour12(h) == 12 then 12 else Hour12(h) + 12, m));
      Hour12Inverse(h);
    }
  }

  /** The AM/PM rule undoes the 12-hour dial. */
  lemma Hour12Inverse(h: nat)
    requires h < 24
    ensures h < 12 ==> (if Hour12(h) == 12 then 0 else Hour12(h)) == h
    ensures h >= 12 ==> (if Hour12(h) == 12 then 12 else Hour12(h) + 12) == h
  {
    if h < 12 {
      assert h % 12 == h;
    } else {
      assert h % 12 == h - 12;
    }
  }

  /** Distinct times of day have distinct renderings. */
  lemma FormatInjective(a: MinuteOfDay, b: MinuteOfDay)
    ensures Format12(a) == Format12(b) ==> a == b
  {
    ParseFormat(a);
    ParseFormat(b);
  }
}
