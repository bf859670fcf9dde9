/** Date-times as Python's `datetime` holds them, and the two text forms the
    program reads and writes: the extended format of ISO 8601 in the profile
    of section 5.6 of RFC 3339 (`YYYY-MM-DDTHH:MM:SS` followed by `Z` or
    `+HH:MM`/`-HH:MM`), and the `YYYY-MM-DD HH:MM:SS` form of
    `strftime("%Y-%m-%d %H:%M:%S")`. */
module Timestamps {
  import opened Wrappers
  import opened Text
  import opened Calendar

  /** A wall-clock date and time with no zone attached (a naive `datetime`). */
  datatype Civil = Civil(date: Date, hour: int, minute: int, second: int)

  predicate ValidCivil(c: Civil) {
    && ValidDate(c.date)
    && 0 <= c.hour < 24
    && 0 <= c.minute < 60
    && 0 <= c.second < 60
  }

  type LocalDateTime = c: Civil | ValidCivil(c) witness Civil(Date(1970, 1, 1), 0, 0, 0)

  /** Offsets are whole minutes strictly inside one day either side of UTC. */
  const MaxOffset := 24 * 60 - 1

  /** An aware `datetime`: the wall-clock fields as written, and the offset
      from UTC in minutes. Nothing is normalised to UTC. */
  datatype Timestamp = Timestamp(local: Civil, offset: int)

  predicate ValidTimestamp(t: Timestamp) {
    ValidCivil(t.local) && -MaxOffset <= t.offset <= MaxOffset
  }

  type ValidStamp = t: Timestamp | ValidTimestamp(t)
    witness Timestamp(Civil(Date(1970, 1, 1), 0, 0, 0), 0)

  type UtcStamp = t: Timestamp | ValidTimestamp(t) && t.offset == 0
    witness Timestamp(Civil(Date(1970, 1, 1), 0, 0, 0), 0)

  /** Minutes since 0001-01-01T00:00 UTC: the absolute instant a timestamp
      denotes, independent of the offset it is written in. */
  function UtcMinutes(t: Timestamp): int
    requires ValidTimestamp(t)
  {
    (DayNumber(t.local.date) * 24 + t.local.hour) * 60 + t.local.minute - t.offset
  }

  /** `YYYY-MM-DD`, the separator, then `HH:MM:SS`. */
  function FormatCivil(c: Civil, sep: char): (r: string)
    requires ValidCivil(c)
    ensures |r| == 19
  {
    Pad(c.date.year, 4) + "-" + Pad(c.date.month, 2) + "-" + Pad(c.date.day, 2) + [sep]
    + Pad(c.hour, 2) + ":" + Pad(c.minute, 2) + ":" + Pad(c.second, 2)
  }

  predicate CivilShape(s: string, sep: char) {
    && |s| == 19
    && AllDigits(s[0..4]) && s[4] == '-' && AllDigits(s[5..7]) && s[7] == '-' && AllDigits(s[8..10])
    && s[10] == sep
    && AllDigits(s[11..13]) && s[13] == ':' && AllDigits(s[14..16]) && s[16] == ':' && AllDigits(s[17..19])
  }

  /** Reads the 19-character form back; `None` when the shape is wrong or
      a field is out of range (Python's `ValueError`). */
  function ParseCivil(s: string, sep: char): (r: Option<Civil>)
    ensures r.Some? ==> ValidCivil(r.value) && CivilShape(s, sep)
  {
    if !CivilShape(s, sep) then None
    else
      var c := Civil(Date(DigitsValue(s[0..4]), DigitsValue(s[5..7]), DigitsValue(s[8..10])),
                     DigitsValue(s[11..13]), DigitsValue(s[14..16]), DigitsValue(s[17..19]));
      if ValidCivil(c) then Some(c) else None
  }

  lemma CivilRoundTrip(c: Civil, sep: char)
    requires ValidCivil(c)
    ensures ParseCivil(FormatCivil(c, sep), sep) == Some(c)
  {
    var s := FormatCivil(c, sep);
    assert Pow10(2) == 100 && Pow10(4) == 10000;
    assert s[0..4] == Pad(c.date.year, 4);
    assert s[5..7] == Pad(c.date.month, 2);
    assert s[8..10] == Pad(c.date.day, 2);
    assert s[11..13] == Pad(c.hour, 2);
    assert s[14..16] == Pad(c.minute, 2);
    assert s[17..19] == Pad(c.second, 2);
    PadRoundTrip(c.date.year, 4);
    PadRoundTrip(c.date.month, 2);
    PadRoundTrip(c.date.day, 2);
    PadRoundTrip(c.hour, 2);
    PadRoundTrip(c.minute, 2);
    PadRoundTrip(c.second, 2);
  }

  lemma CivilCanonical(s: string, sep: char)
    requires ParseCivil(s, sep).Some?
    ensures FormatCivil(ParseCivil(s, sep).value, sep) == s
  {
    var c := ParseCivil(s, sep).value;
    DigitsRoundTrip(s[0..4]);
    DigitsRoundTrip(s[5..7]);
    DigitsRoundTrip(s[8..10]);
    DigitsRoundTrip(s[11..13]);
    DigitsRoundTrip(s[14..16]);
    DigitsRoundTrip(s[17..19]);
    CivilFromPieces(c, s, sep);
  }

  lemma CivilFromPieces(c: Civil, s: string, sep: char)
    requires ValidCivil(c) && CivilShape(s, sep)
    requires Pad(c.date.year, 4) == s[0..4] && Pad(c.date.month, 2) == s[5..7] && Pad(c.date.day, 2) == s[8..10]
    requires Pad(c.hour, 2) == s[11..13] && Pad(c.minute, 2) == s[14..16] && Pad(c.second, 2) == s[17..19]
    ensures FormatCivil(c, sep) == s
  {
    CivilPieces(s, sep);
  }

  lemma CivilPieces(s: string, sep: char)
    requires CivilShape(s, sep)
    ensures s == s[0..4] + "-" + s[5..7] + "-" + s[8..10] + [sep]
                 + s[11..13] + ":" + s[14..16] + ":" + s[17..19]
  {
  }

  /** `+HH:MM` or `-HH:MM`, the sign `-` only for negative offsets, as
      `isoformat()` writes `utcoffset()`. */
  function FormatOffset(offset: int): (r: string)
    ensures |r| == 6
  {
    var a := if offset < 0 then -offset else offset;
    [if offset < 0 then '-' else '+'] + Pad(a / 60, 2) + ":" + Pad(a % 60, 2)
  }

  /** `Z`, or a sign, two-digit hours up to 23, `:`, two-digit minutes up
      to 59; the result is the offset in minutes. */
  function ParseOffset(z: string): (r: Option<int>)
    ensures r.Some? ==> -MaxOffset <= r.value <= MaxOffset
    ensures r.Some? ==> z == "Z" || |z| == 6
  {
    if z == "Z" then Some(0)
    else if |z| == 6 && (z[0] == '+' || z[0] == '-') && AllDigits(z[1..3]) && z[3] == ':' && AllDigits(z[4..6]) then
      var h := DigitsValue(z[1..3]);
      var m := DigitsValue(z[4..6]);
      if h <= 23 && m <= 59 then Some(if z[0] == '-' then -(h * 60 + m) else h * 60 + m) else None
    else None
  }

  /** Python's `datetime.isoformat()` of an aware datetime with whole seconds. */
  function Format(t: Timestamp): (r: string)
    requires ValidTimestamp(t)
    ensures |r| == 25
  {
    FormatCivil(t.local, 'T') + FormatOffset(t.offset)
  }

  /** Python's `datetime.fromisoformat`, restricted to the RFC 3339 shape
      `YYYY-MM-DDTHH:MM:SS` with `Z` or a numeric offset; `None` stands for
      the `ValueError` it raises on anything else. */
  function Parse(s: string): (r: Option<Timestamp>)
    ensures r.Some? ==> ValidTimestamp(r.value)
    ensures r.Some? ==> |s| >= 19 && (s[19..] == "Z" || |s| == 25)
  {
    if |s| < 19 then None
    else
      var c :- ParseCivil(s[..19], 'T');
      var offset :- ParseOffset(s[19..]);
      Some(Timestamp(c, offset))
  }

  lemma OffsetRoundTrip(offset: int)
    requires -MaxOffset <= offset <= MaxOffset
    ensures ParseOffset(FormatOffset(offset)) == Some(offset)
  {
    var z := FormatOffset(offset);
    var a := if offset < 0 then -offset else offset;
    var h, m := HoursMinutes(a);
    FormatOffsetFields(offset);
    assert DigitsValue(z[1..3]) == h && DigitsValue(z[4..6]) == m by {
      assert Pow10(2) == 100;
      PadRoundTrip(h, 2);
      PadRoundTrip(m, 2);
    }
    ParseOffsetOf(z, h, m);
  }

  lemma ParseOffsetOf(z: string, h: nat, m: nat)
    requires |z| == 6 && (z[0] == '+' || z[0] == '-') && z[3] == ':'
    requires AllDigits(z[1..3]) && AllDigits(z[4..6]) && DigitsValue(z[1..3]) == h && DigitsValue(z[4..6]) == m
    requires h <= 23 && m <= 59
    ensures ParseOffset(z) == Some(if z[0] == '-' then -(h * 60 + m) else h * 60 + m)
  {
  }

  /** An offset's magnitude split into whole hours and minutes. */
  lemma HoursMinutes(a: nat) returns (h: nat, m: nat)
    requires a <= MaxOffset
    ensures h == a / 60 && m == a % 60
    ensures h * 60 + m == a && h <= 23 && m <= 59
  {
    h, m := a / 60, a % 60;
  }

  lemma FormatOffsetFields(offset: int)
    ensures var z := FormatOffset(offset); var a := if offset < 0 then -offset else offset;
      && (z[0] == '-' <==> offset < 0) && (z[0] == '+' <==> offset >= 0) && z[3] == ':'
      && z[1..3] == Pad(a / 60, 2) && z[4..6] == Pad(a % 60, 2)
  {
  }

  /** Every valid timestamp survives `isoformat` followed by `fromisoformat`. */
  lemma ParseFormat(t: Timestamp)
    requires ValidTimestamp(t)
    ensures Parse(Format(t)) == Some(t)
  {
    var s := Format(t);
    assert s[..19] == FormatCivil(t.local, 'T') && s[19..] == FormatOffset(t.offset);
    CivilRoundTrip(t.local, 'T');
    OffsetRoundTrip(t.offset);
  }

  /** A numeric offset is written back as it was read, except `-00:00`. */
  lemma OffsetCanonical(z: string)
    requires ParseOffset(z).Some?
    ensures z == "Z" || z == "-00:00" ==> FormatOffset(ParseOffset(z).value) == "+00:00"
    ensures z != "Z" && z != "-00:00" ==> FormatOffset(ParseOffset(z).value) == z
  {
    FormatZeroOffset();
    if z != "Z" {
      var h, m := NumericOffsetFields(z);
      if h * 60 + m == 0 {
        ZeroOffsetText(z);
      } else {
        NumericOffsetCanonical(z, h, m);
      }
    }
  }

  lemma FormatZeroOffset()
    ensures FormatOffset(0) == "+00:00"
  {
    assert Pad(0, 2) == "00";
  }

  /** A string ending in `+00:00` parses, if at all, as a 19-character
      date-time at offset 0. */
  lemma ParseUtcSuffix(body: string)
    requires Parse(body + "+00:00").Some?
    ensures |body| == 19 && Parse(body + "+00:00").value.offset == 0
  {
    var s := body + "+00:00";
    assert s[|s| - 1] == '0';
    assert |s| == 25;
    assert s[19..] == "+00:00";
    FormatZeroOffset();
    OffsetRoundTrip(0);
  }

  lemma NumericOffsetFields(z: string) returns (h: nat, m: nat)
    requires ParseOffset(z).Some? && z != "Z"
    ensures |z| == 6 && (z[0] == '+' || z[0] == '-') && z[3] == ':'
    ensures Pad(h, 2) == z[1..3] && Pad(m, 2) == z[4..6] && h <= 23 && m <= 59
    ensures ParseOffset(z).value == if z[0] == '-' then -(h * 60 + m) else h * 60 + m
  {
    h := DigitsValue(z[1..3]);
    m := DigitsValue(z[4..6]);
    DigitsRoundTrip(z[1..3]);
    DigitsRoundTrip(z[4..6]);
  }

  lemma ZeroOffsetText(z: string)
    requires |z| == 6 && (z[0] == '+' || z[0] == '-') && z[3] == ':'
    requires Pad(0, 2) == z[1..3] && Pad(0, 2) == z[4..6]
    ensures z == "+00:00" || z == "-00:00"
  {
    assert Pad(0, 2) == "00";
    assert z == z[..1] + z[1..3] + z[3..4] + z[4..6];
  }

  lemma NumericOffsetCanonical(z: string, h: nat, m: nat)
    requires |z| == 6 && (z[0] == '+' || z[0] == '-') && z[3] == ':'
    requires Pad(h, 2) == z[1..3] && Pad(m, 2) == z[4..6]
    requires h <= 23 && m <= 59 && h * 60 + m > 0
    ensures z != "-00:00"
    ensures FormatOffset(if z[0] == '-' then -(h * 60 + m) else h * 60 + m) == z
  {
    var a := h * 60 + m;
    assert a / 60 == h && a % 60 == m;
    assert z == z[..1] + z[1..3] + z[3..4] + z[4..6];
    if z == "-00:00" {
      assert Pad(0, 2) == "00" == z[1..3] == z[4..6];
      PadRoundTrip(h, 2);
      PadRoundTrip(m, 2);
    }
  }

  /** Re-serialising a parsed timestamp gives back the text, except that
      `Z` and `-00:00` come out as `+00:00`. */
  lemma FormatParse(s: string)
    requires Parse(s).Some?
    ensures var z := s[19..];
      && (z == "Z" || z == "-00:00" ==> Format(Parse(s).value) == s[..19] + "+00:00")
      && (z != "Z" && z != "-00:00" ==> Format(Parse(s).value) == s)
  {
    CivilCanonical(s[..19], 'T');
    OffsetCanonical(s[19..]);
    assert s == s[..19] + s[19..];
  }

  /** `isoformat` writes digits and punctuation, never a `Z`. */
  lemma FormatHasNoZulu(t: Timestamp)
    requires ValidTimestamp(t)
    ensures 'Z' !in Format(t)
  {
    var c := t.local;
    var a := if t.offset < 0 then -t.offset else t.offset;
    DigitsExclude(Pad(c.date.year, 4), 'Z');
    DigitsExclude(Pad(c.date.month, 2), 'Z');
    DigitsExclude(Pad(c.date.day, 2), 'Z');
    DigitsExclude(Pad(c.hour, 2), 'Z');
    DigitsExclude(Pad(c.minute, 2), 'Z');
    DigitsExclude(Pad(c.second, 2), 'Z');
    DigitsExclude(Pad(a / 60, 2), 'Z');
    DigitsExclude(Pad(a % 60, 2), 'Z');
  }

  /** `datetime.fromisoformat(s.replace("Z", "+00:00"))`, the way the
      program reads every timestamp it is given. */
  function ParseZulu(s: string): (r: Option<Timestamp>)
    ensures r.Some? ==> ValidTimestamp(r.value)
    ensures 'Z' !in s ==> r == Parse(s)
  {
    ReplaceCharSpec(s, 'Z', "+00:00");
    Parse(ReplaceAll(s, "Z", "+00:00"))
  }

  /** Text without `Z` is read as it stands; in particular every
      `isoformat` output reads back as the timestamp it was made from. */
  lemma ParseZuluFormat(t: Timestamp)
    requires ValidTimestamp(t)
    ensures ParseZulu(Format(t)) == Some(t)
  {
    FormatHasNoZulu(t);
    ParseFormat(t);
  }
}
