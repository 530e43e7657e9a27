/**
 * formatTime: the 12-hour clock label drawn next to a row and next to the
 * current-time indicator, "hh:mm AM" or "hh:mm PM". ParseLabel reads such a
 * label back; the two round-trip lemmas show that labels and minutes of the
 * day are in one-to-one correspondence.
 */
module Label {
  import opened Clock
  import opened Optional

  /** The character of one decimal digit. */
  function DigitChar(d: int): (c: char)
    requires 0 <= d < 10
    ensures '0' <= c <= '9' && c as int - '0' as int == d
  {
    ('0' as int + d) as char
  }

  /** n.toString().padStart(2, '0') for 0 <= n < 100. */
  function Pad2(n: int): (s: string)
    requires 0 <= n < 100
    ensures |s| == 2 && '0' <= s[0] <= '9' && '0' <= s[1] <= '9'
    ensures TwoDigitValue(s[0], s[1]) == n
  {
    [DigitChar(n / 10), DigitChar(n % 10)]
  }

  /** The number written by two decimal digit characters. */
  function TwoDigitValue(hi: char, lo: char): int
  {
    (hi as int - '0' as int) * 10 + (lo as int - '0' as int)
  }

  /** The hour shown on a 12-hour clock: `hours % 12 || 12`. */
  function ClockHour(h: int): (c: int)
    requires 0 <= h < 24
    ensures 1 <= c <= 12 && c % 12 == h % 12
  {
    if h % 12 == 0 then 12 else h % 12
  }

  /** formatTime(date): zero-padded 12-hour hour, ':', zero-padded minute, ' ', AM or PM. */
  function FormatTime(t: Millis): (text: string)
    ensures |text| == 8
  {
    var period := if HourOfDay(t) >= 12 then "PM" else "AM";
    Pad2(ClockHour(HourOfDay(t))) + ":" + Pad2(MinuteOfHour(t)) + " " + period
  }

  /**
   * The fields of a label: two digits giving the 12-hour clock hour (12 for hours 0 and 12),
   * a colon, two digits giving the minute, a space, and PM exactly from hour 12 on.
   */
  lemma FormatTimeFields(t: Millis)
    ensures var text := FormatTime(t);
            && |text| == 8 && text[2] == ':' && text[5] == ' ' && text[7] == 'M'
            && IsDigit(text[0]) && IsDigit(text[1]) && IsDigit(text[3]) && IsDigit(text[4])
            && (text[6] == 'P' <==> HourOfDay(t) >= 12)
            && (text[6] == 'A' <==> HourOfDay(t) < 12)
            && TwoDigitValue(text[0], text[1]) == ClockHour(HourOfDay(t))
            && TwoDigitValue(text[3], text[4]) == MinuteOfHour(t)
  {
  }

  predicate IsDigit(c: char)
  {
    '0' <= c <= '9'
  }

  /** Reads a label of FormatTime's shape back into the minute of the day it shows. */
  function ParseLabel(s: string): (r: Option<int>)
    ensures r.Some? ==> 0 <= r.value < MinutesPerDay
  {
    if |s| != 8 || s[2] != ':' || s[5] != ' ' || s[7] != 'M' then None
    else if !(IsDigit(s[0]) && IsDigit(s[1]) && IsDigit(s[3]) && IsDigit(s[4])) then None
    else
      var h := TwoDigitValue(s[0], s[1]);
      var m := TwoDigitValue(s[3], s[4]);
      if h < 1 || 12 < h || 60 <= m then None
      else if s[6] == 'A' then Some((h % 12) * 60 + m)
      else if s[6] == 'P' then Some((h % 12 + 12) * 60 + m)
      else None
  }

  /** Every label reads back as the minute of the day it was formatted from. */
  lemma ParseFormat(t: Millis)
    ensures ParseLabel(FormatTime(t)) == Some(MinuteOfDay(t))
  {
    FormatTimeFields(t);
  }

  /** Every label that parses is exactly what FormatTime prints for that minute of the day. */
  lemma FormatParse(s: string, t: Millis)
    requires ParseLabel(s) == Some(MinuteOfDay(t))
    ensures FormatTime(t) == s
  {
    var text := FormatTime(t);
    FormatTimeFields(t);
    var h := TwoDigitValue(s[0], s[1]);
    var m := TwoDigitValue(s[3], s[4]);
    var hour := if s[6] == 'P' then h % 12 + 12 else h % 12;
    assert MinuteOfDay(t) == hour * 60 + m;
    assert HourOfDay(t) == hour && MinuteOfHour(t) == m by {
      SplitMinuteOfDay(HourOfDay(t), MinuteOfHour(t), hour, m);
    }
    assert ClockHour(hour) == h;
    DigitsDetermined(text[0], text[1], s[0], s[1]);
    DigitsDetermined(text[3], text[4], s[3], s[4]);
    assert text[6] == s[6];
    assert text == s by {
      forall i | 0 <= i < 8 ensures text[i] == s[i] {
      }
    }
  }

  /** An hour and a minute below 60 are recovered from hour * 60 + minute. */
  lemma SplitMinuteOfDay(h1: int, m1: int, h2: int, m2: int)
    requires 0 <= m1 < 60 && 0 <= m2 < 60
    requires h1 * 60 + m1 == h2 * 60 + m2
    ensures h1 == h2 && m1 == m2
  {
  }

  /** Two digit pairs denoting the same number are the same characters. */
  lemma DigitsDetermined(a: char, b: char, c: char, d: char)
    requires IsDigit(a) && IsDigit(b) && IsDigit(c) && IsDigit(d)
    requires TwoDigitValue(a, b) == TwoDigitValue(c, d)
    ensures a == c && b == d
  {
  }

  /** Two timestamps get the same label exactly when a clock shows the same minute for both. */
  lemma SameLabelIffSameMinute(t1: Millis, t2: Millis)
    ensures FormatTime(t1) == FormatTime(t2) <==> MinuteOfDay(t1) == MinuteOfDay(t2)
  {
    ParseFormat(t1);
    ParseFormat(t2);
    if MinuteOfDay(t1) == MinuteOfDay(t2) {
      FormatParse(FormatTime(t1), t2);
    }
  }

  /** Midnight, an afternoon minute and the last minute of the day. */
  lemma LabelExamples()
    ensures FormatTime(0) == "12:00 AM"
    ensures FormatTime(13 * MsPerHour + 5 * MsPerMinute) == "01:05 PM"
    ensures FormatTime(23 * MsPerHour + 59 * MsPerMinute + 59999) == "11:59 PM"
  {
  }
}
