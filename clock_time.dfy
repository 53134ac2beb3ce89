/** `"HH:MM"` clock strings: splitting on a separator, reading a time and the end-time
    arithmetic of `_calculate_end_time` (tk_auto_time_table_gen_.py:55-58). */
module ClockTime {
  import opened Wrappers
  import opened Decimal

  /** Python's `s.split(sep)` with an explicit one-character separator: never empty,
      and an empty field stands between two adjacent separators. */
  function Split(s: string, sep: char): (parts: seq<string>)
    ensures |parts| >= 1
    ensures forall i :: 0 <= i < |parts| ==> sep !in parts[i]
  {
    if s == [] then [""]
    else
      var rest := Split(s[1..], sep);
      if s[0] == sep then [""] + rest
      else [[s[0]] + rest[0]] + rest[1..]
  }

  /** `sep.join(parts)`. */
  function Join(parts: seq<string>, sep: char): string
    requires |parts| >= 1
  {
    if |parts| == 1 then parts[0] else parts[0] + [sep] + Join(parts[1..], sep)
  }

  /** Joining the fields again gives back the original string. */
  lemma {:induction false} JoinSplit(s: string, sep: char)
    ensures Join(Split(s, sep), sep) == s
  {
    if s != [] {
      var rest := Split(s[1..], sep);
      JoinSplit(s[1..], sep);
      if s[0] != sep {
        var parts := Split(s, sep);
        if |rest| == 1 {
          assert parts == [[s[0]] + rest[0]];
        } else {
          assert parts[1..] == rest[1..];
          assert Join(parts, sep) == [s[0]] + rest[0] + [sep] + Join(rest[1..], sep);
        }
      }
    }
  }

  lemma {:induction false} SplitNoSeparator(a: string, sep: char)
    requires sep !in a
    ensures Split(a, sep) == [a]
  {
    if a != [] {
      SplitNoSeparator(a[1..], sep);
      assert [a[0]] + a[1..] == a;
    }
  }

  lemma {:induction false} SplitAfterField(a: string, sep: char, t: string)
    requires sep !in a
    ensures Split(a + [sep] + t, sep) == [a] + Split(t, sep)
  {
    if a == [] {
      assert a + [sep] + t == [sep] + t;
      assert ([sep] + t)[1..] == t;
    } else {
      var s := a + [sep] + t;
      assert s[1..] == a[1..] + [sep] + t;
      SplitAfterField(a[1..], sep, t);
      assert [a[0]] + a[1..] == a;
    }
  }

  /** Splitting a join of separator-free fields gives back the fields. */
  lemma {:induction false} SplitJoin(parts: seq<string>, sep: char)
    requires |parts| >= 1
    requires forall i :: 0 <= i < |parts| ==> sep !in parts[i]
    ensures Split(Join(parts, sep), sep) == parts
  {
    if |parts| == 1 {
      SplitNoSeparator(parts[0], sep);
    } else {
      SplitJoin(parts[1..], sep);
      SplitAfterField(parts[0], sep, Join(parts[1..], sep));
      assert [parts[0]] + parts[1..] == parts;
    }
  }

  /** Hours and minutes as read by `map(int, start_time.split(':'))`; neither is range-checked. */
  datatype Clock = Clock(hours: int, minutes: int)

  /** Reading `"HH:MM"`: exactly one ':' and two integer fields, otherwise the source raises. */
  function ParseTime(s: string): (r: Option<Clock>)
    ensures var parts := Split(s, ':');
      r.Some? <==> |parts| == 2 && ParseInt(parts[0]).Some? && ParseInt(parts[1]).Some?
    ensures var parts := Split(s, ':');
      r.Some? ==> && s == parts[0] + ":" + parts[1]
                  && ParseInt(parts[0]) == Some(r.value.hours) && ParseInt(parts[1]) == Some(r.value.minutes)
  {
    JoinSplit(s, ':');
    var parts := Split(s, ':');
    if |parts| != 2 then None
    else
      match (ParseInt(parts[0]), ParseInt(parts[1]))
      case (Some(h), Some(m)) => Some(Clock(h, m))
      case _ => None
  }

  /** Total minutes of a clock reading. */
  function Minutes(c: Clock): int { c.hours * 60 + c.minutes }

  /** `_calculate_end_time(start_time, duration)`: floor division and remainder by 60 of
      the total minutes, each zero-padded to two places; hours are not reduced modulo 24. */
  function EndTime(start: string, duration: int): (r: Option<string>)
    ensures r.Some? <==> ParseTime(start).Some?
  {
    match ParseTime(start)
    case None => None
    case Some(c) =>
      var total := Minutes(c) + duration;
      Some(ZeroPad2(total / 60) + ":" + ZeroPad2(total % 60))
  }

  /** The end time exists exactly when the start time reads; it reads back as a clock
      whose total minutes are the start's plus `duration`, with minutes in [0, 60). The
      minute field is two digits, and the hour field at least two characters wide and,
      when the end is not before midnight of the start day, all digits. */
  lemma {:induction false} EndTimeCorrect(start: string, duration: int)
    ensures EndTime(start, duration).Some? <==> ParseTime(start).Some?
    ensures ParseTime(start).Some? ==>
      var e := EndTime(start, duration).value;
      var parts := Split(e, ':');
      && ParseTime(e).Some?
      && Minutes(ParseTime(e).value) == Minutes(ParseTime(start).value) + duration
      && 0 <= ParseTime(e).value.minutes < 60
      && |parts| == 2 && |parts[0]| >= 2 && |parts[1]| == 2 && AllDigits(parts[1])
      && (Minutes(ParseTime(e).value) >= 0 ==> AllDigits(parts[0]))
  {
    if ParseTime(start).Some? {
      var total := Minutes(ParseTime(start).value) + duration;
      var h, m := total / 60, total % 60;
      assert EndTime(start, duration).value == ZeroPad2(h) + ":" + ZeroPad2(m);
      ZeroPad2RoundTrip(h);
      ZeroPad2RoundTrip(m);
      PaddedClockReads(h, m);
    }
  }

  /** The text `f"{h:02d}:{m:02d}"` splits into the two padded fields and reads back as (h, m). */
  lemma PaddedClockReads(h: int, m: int)
    ensures var e := ZeroPad2(h) + ":" + ZeroPad2(m);
      Split(e, ':') == [ZeroPad2(h), ZeroPad2(m)] && ParseTime(e) == Some(Clock(h, m))
  {
    ZeroPad2RoundTrip(h);
    ZeroPad2RoundTrip(m);
    assert ZeroPad2(h) + ":" + ZeroPad2(m) == Join([ZeroPad2(h), ZeroPad2(m)], ':');
    SplitJoin([ZeroPad2(h), ZeroPad2(m)], ':');
  }

  /** A slot that runs past midnight keeps counting hours: "23:30" plus 90 minutes ends at "25:00". */
  lemma EndTimePastMidnight()
    ensures EndTime("23:30", 90) == Some("25:00")
  {
    ReadHalfPastEleven();
    assert Minutes(Clock(23, 30)) + 90 == 1500;
    assert ZeroPad2(25) == "25" && ZeroPad2(0) == "00";
    assert EndTime("23:30", 90) == Some(ZeroPad2(25) + ":" + ZeroPad2(0));
    assert "25" + ":" + "00" == "25:00";
  }

  lemma ReadHalfPastEleven()
    ensures ParseTime("23:30") == Some(Clock(23, 30))
  {
    SplitAfterField("23", ':', "30");
    SplitNoSeparator("30", ':');
    assert "23:30" == "23" + [':'] + "30";
    assert "23"[..1] == "2" && "30"[..1] == "3" && "2"[..0] == "" && "3"[..0] == "";
    assert ParseNat("23") == 23 && ParseNat("30") == 30;
  }
}
