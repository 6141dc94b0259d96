/**
 * Python datetime values and their '%Y-%m-%d %H:%M:%S' text, used both for
 * the diagnostic line and for the first column of the CSV log.
 */
module Timestamps {
  import opened Wrappers
  import opened Decimal
  import Text

  /** Calendar fields of a datetime; micro is the sub-second part that datetime.now() carries. */
  datatype DateTime = DateTime(year: int, month: int, day: int,
                               hour: int, minute: int, second: int, micro: int)

  predicate IsLeapYear(y: int)
  {
    y % 4 == 0 && (y % 100 != 0 || y % 400 == 0)
  }

  function DaysInMonth(y: int, m: int): int
    requires 1 <= m <= 12
  {
    if m == 2 then (if IsLeapYear(y) then 29 else 28)
    else if m == 4 || m == 6 || m == 9 || m == 11 then 30
    else 31
  }

  /** The values datetime accepts: years 1 to 9999 of the proleptic Gregorian calendar. */
  predicate IsValid(t: DateTime)
  {
    && 1 <= t.year <= 9999
    && 1 <= t.month <= 12
    && 1 <= t.day <= DaysInMonth(t.year, t.month)
    && 0 <= t.hour < 24
    && 0 <= t.minute < 60
    && 0 <= t.second < 60
    && 0 <= t.micro < 1000000
  }

  type Timestamp = t: DateTime | IsValid(t) witness DateTime(2000, 1, 1, 0, 0, 0, 0)

  /** The same instant with the sub-second part dropped. */
  function Truncate(t: Timestamp): (r: Timestamp)
    ensures r.micro == 0
  {
    t.(micro := 0)
  }

  /** strftime('%Y-%m-%d %H:%M:%S'). */
  function Format(t: Timestamp): string
  {
    Pad(t.year, 4) + "-" + Pad(t.month, 2) + "-" + Pad(t.day, 2) + " "
    + Pad(t.hour, 2) + ":" + Pad(t.minute, 2) + ":" + Pad(t.second, 2)
  }

  /** The shape 'DDDD-DD-DD DD:DD:DD'. */
  predicate WellShaped(s: string)
  {
    && |s| == 19
    && s[4] == '-' && s[7] == '-' && s[10] == ' ' && s[13] == ':' && s[16] == ':'
    && AllDigits(s[0..4]) && AllDigits(s[5..7]) && AllDigits(s[8..10])
    && AllDigits(s[11..13]) && AllDigits(s[14..16]) && AllDigits(s[17..19])
  }

  /** strptime(s, '%Y-%m-%d %H:%M:%S') on zero-padded text; None where it would raise. */
  function Parse(s: string): (r: Option<Timestamp>)
    ensures r.Some? ==> r.value.micro == 0
  {
    if !WellShaped(s) then None
    else
      var t := DateTime(DigitsValue(s[0..4]), DigitsValue(s[5..7]), DigitsValue(s[8..10]),
                        DigitsValue(s[11..13]), DigitsValue(s[14..16]), DigitsValue(s[17..19]), 0);
      if IsValid(t) then Some(t) else None
  }

  /** The pieces of a formatted timestamp, located by position. */
  lemma FormatPieces(t: Timestamp)
    ensures WellShaped(Format(t))
    ensures Format(t)[0..4] == Pad(t.year, 4) && Format(t)[5..7] == Pad(t.month, 2)
    ensures Format(t)[8..10] == Pad(t.day, 2) && Format(t)[11..13] == Pad(t.hour, 2)
    ensures Format(t)[14..16] == Pad(t.minute, 2) && Format(t)[17..19] == Pad(t.second, 2)
  {
  }

  /** Parsing a formatted timestamp gives it back at second precision. */
  lemma FormatParse(t: Timestamp)
    ensures Parse(Format(t)) == Some(Truncate(t))
  {
    FormatPieces(t);
    assert Pow10(2) == 100 && Pow10(4) == 10000;
    PadValue(t.year, 4);
    PadValue(t.month, 2);
    PadValue(t.day, 2);
    PadValue(t.hour, 2);
    PadValue(t.minute, 2);
    PadValue(t.second, 2);
  }

  /** Every text that parses is the format of what it parses to: the format is canonical. */
  lemma ParseFormat(s: string)
    requires Parse(s).Some?
    ensures Format(Parse(s).value) == s
  {
    var t := Parse(s).value;
    PadOfValue(s[0..4]);
    PadOfValue(s[5..7]);
    PadOfValue(s[8..10]);
    PadOfValue(s[11..13]);
    PadOfValue(s[14..16]);
    PadOfValue(s[17..19]);
    FormatPieces(t);
    var f := Format(t);
    assert forall i :: 0 <= i < 19 ==> f[i] == s[i] by {
      forall i | 0 <= i < 19 ensures f[i] == s[i] {
        if i < 4 { assert f[i] == f[0..4][i]; assert s[i] == s[0..4][i]; }
        else if 4 < i < 7 { assert f[i] == f[5..7][i - 5]; assert s[i] == s[5..7][i - 5]; }
        else if 7 < i < 10 { assert f[i] == f[8..10][i - 8]; assert s[i] == s[8..10][i - 8]; }
        else if 10 < i < 13 { assert f[i] == f[11..13][i - 11]; assert s[i] == s[11..13][i - 11]; }
        else if 13 < i < 16 { assert f[i] == f[14..16][i - 14]; assert s[i] == s[14..16][i - 14]; }
        else if 16 < i { assert f[i] == f[17..19][i - 17]; assert s[i] == s[17..19][i - 17]; }
      }
    }
  }

  lemma FormatNoComma(t: Timestamp)
    ensures Text.NoComma(Format(t))
  {
  }
}
