/** The prediction scraper (`mlb_game_sim_client.py`): each table row's
    three cells are read as a start time, a matchup and a predicted outcome.
    The page download and the HTML parsing are outside the model: a row is
    the sequence of its cells' texts. */
module GameSim {
  import opened Wrappers
  import opened Text
  import opened Calendar
  import opened Timestamps
  import opened Seqs

  /** Python's `.` without `DOTALL` matches every character except `\n`. */
  predicate NoNewline(s: string) {
    '\n' !in s
  }

  // ---------------------------------------------------------------------
  // The matchup cell: `re.search(r"\xa0(.+) @ (.+) \xa0", text)`.
  // ---------------------------------------------------------------------

  /** The pattern matches `s` with the leading no-break space at `a`, the
      `" @ "` at `b` and the closing `" \xa0"` at `c`: group 1 is
      `s[a + 1..b]` and group 2 is `s[b + 3..c]`, both non-empty. */
  predicate MatchupAt(s: string, a: int, b: int, c: int) {
    && 0 <= a && a + 2 <= b && b + 4 <= c && c + 2 <= |s|
    && s[a] == NBSP && s[b..b + 3] == " @ " && s[c] == ' ' && s[c + 1] == NBSP
    && NoNewline(s[a + 1..b]) && NoNewline(s[b + 3..c])
  }

  /** The match a backtracking engine reports: the leftmost start, then the
      longest first group, then the longest second group (both `.+` are
      greedy). */
  ghost predicate LeftmostGreedy(s: string, a: int, b: int, c: int) {
    && MatchupAt(s, a, b, c)
    && (forall a', b', c' :: a' < a ==> !MatchupAt(s, a', b', c'))
    && (forall b', c' :: b < b' ==> !MatchupAt(s, a, b', c'))
    && (forall c' :: c < c' ==> !MatchupAt(s, a, b, c'))
  }

  /** The largest end of group 2, at most `c`, for the given start and `@`. */
  function LastTail(s: string, a: int, b: int, c: int): (r: Option<int>)
    ensures r.Some? ==> r.value <= c && MatchupAt(s, a, b, r.value)
    ensures r.Some? ==> forall c' :: r.value < c' <= c ==> !MatchupAt(s, a, b, c')
    ensures r.None? ==> forall c' :: c' <= c ==> !MatchupAt(s, a, b, c')
    decreases c - b
  {
    if c < b + 4 then None
    else if MatchupAt(s, a, b, c) then Some(c)
    else LastTail(s, a, b, c - 1)
  }

  /** The largest position of `" @ "`, at most `b`, that completes a match
      from start `a`. */
  function LastSplit(s: string, a: int, b: int): (r: Option<int>)
    ensures r.Some? ==> r.value <= b && exists c :: MatchupAt(s, a, r.value, c)
    ensures r.Some? ==> forall b', c :: r.value < b' <= b ==> !MatchupAt(s, a, b', c)
    ensures r.None? ==> forall b', c :: b' <= b ==> !MatchupAt(s, a, b', c)
    decreases b - a
  {
    if b < a + 2 then None
    else if LastTail(s, a, b, |s|).Some? then Some(b)
    else LastSplit(s, a, b - 1)
  }

  /** The smallest start, at least `a`, from which the pattern matches. */
  function FirstStart(s: string, a: nat): (r: Option<int>)
    ensures r.Some? ==> a <= r.value && exists b, c :: MatchupAt(s, r.value, b, c)
    ensures r.Some? ==> forall a', b, c :: a <= a' < r.value ==> !MatchupAt(s, a', b, c)
    ensures r.None? ==> forall a', b, c :: a <= a' ==> !MatchupAt(s, a', b, c)
    decreases |s| - a
  {
    if a >= |s| then None
    else if LastSplit(s, a, |s|).Some? then Some(a)
    else FirstStart(s, a + 1)
  }

  /** The positions of the reported match, or `None` when there is none. */
  function MatchupSpan(s: string): (r: Option<(int, int, int)>)
    ensures r.None? <==> forall a, b, c :: !MatchupAt(s, a, b, c)
    ensures r.Some? ==> LeftmostGreedy(s, r.value.0, r.value.1, r.value.2)
  {
    match FirstStart(s, 0)
    case None => None
    case Some(a) =>
      var b := LastSplit(s, a, |s|).value;
      var c := LastTail(s, a, b, |s|).value;
      Some((a, b, c))
  }

  /** The two team names of a game, `None` when the cell did not match. */
  datatype Teams = Teams(away: Option<string>, home: Option<string>)

  /** Lines 30-36: both groups stripped, or both `None` without a match. */
  function Matchup(cell: string): (r: Teams)
    ensures r.away.Some? <==> r.home.Some?
    ensures r.away.None? <==> forall a, b, c :: !MatchupAt(cell, a, b, c)
    ensures r.away.Some? ==> exists a, b, c :: LeftmostGreedy(cell, a, b, c) && GroupsAt(cell, a, b, c, r)
  {
    match MatchupSpan(cell)
    case None => Teams(None, None)
    case Some(span) =>
      var (a, b, c) := span;
      var t := Teams(Some(Strip(cell[a + 1..b])), Some(Strip(cell[b + 3..c])));
      assert LeftmostGreedy(cell, a, b, c) && GroupsAt(cell, a, b, c, t);
      t
  }

  /** `t` holds the two groups of the match at `a`, `b`, `c`, stripped. */
  predicate GroupsAt(cell: string, a: int, b: int, c: int, t: Teams) {
    0 <= a < b <= b + 3 <= c <= |cell|
    && t.away == Some(Strip(cell[a + 1..b])) && t.home == Some(Strip(cell[b + 3..c]))
  }

  /** There is exactly one reported match. */
  lemma LeftmostGreedyUnique(s: string, a: int, b: int, c: int, a': int, b': int, c': int)
    requires LeftmostGreedy(s, a, b, c) && LeftmostGreedy(s, a', b', c')
    ensures a == a' && b == b' && c == c'
  {
  }

  /** A cell laid out as the site writes it, `\xa0AWAY @ HOME \xa0`, yields
      the two names, stripped, provided the home name holds no `@` (a later
      `" @ "` would otherwise extend the away group). */
  lemma {:induction false} MatchupOfCell(away: string, home: string)
    requires away != [] && home != []
    requires NoNewline(away) && NoNewline(home) && '@' !in home
    ensures Matchup([NBSP] + away + " @ " + home + [' ', NBSP])
         == Teams(Some(Strip(away)), Some(Strip(home)))
  {
    var s := [NBSP] + away + " @ " + home + [' ', NBSP];
    var b := 1 + |away|;
    var c := |s| - 2;
    assert s[1..b] == away;
    assert s[b..b + 3] == " @ ";
    assert s[b + 3..c] == home;
    assert MatchupAt(s, 0, b, c);
    forall j | b + 2 <= j < c ensures s[j] != '@' {
      if j > b + 2 {
        assert s[j] == home[j - (b + 3)];
      }
    }
    forall b', c' | b < b' ensures !MatchupAt(s, 0, b', c') {
      if b' + 4 <= c' <= c {
        assert s[b'..b' + 3][1] == s[b' + 1];
      }
    }
    assert LeftmostGreedy(s, 0, b, c);
    var (a0, b0, c0) := MatchupSpan(s).value;
    LeftmostGreedyUnique(s, a0, b0, c0, 0, b, c);
  }

  /** Without a no-break space there is no matchup. */
  lemma NoMatchupWithoutNbsp(cell: string)
    requires NBSP !in cell
    ensures Matchup(cell) == Teams(None, None)
  {
    forall a | 0 <= a < |cell| ensures cell[a] != NBSP {
      assert cell[a] in cell;
    }
  }

  // ---------------------------------------------------------------------
  // The start-time cell: lines 39-43 and the `strptime` of line 48.
  // ---------------------------------------------------------------------

  /** One or two ASCII digits, a space, `A` or `P`, then `M`, and nothing else. */
  predicate HourOnlyCore(s: string) {
    && (|s| == 4 || |s| == 5)
    && AllDigits(s[..|s| - 3])
    && s[|s| - 3] == ' ' && (s[|s| - 2] == 'A' || s[|s| - 2] == 'P') && s[|s| - 1] == 'M'
  }

  /** `re.match(r"^\d{1,2} [AP]M$", s)`: `$` also matches just before a
      final newline. */
  predicate HourOnly(s: string) {
    || HourOnlyCore(s)
    || (|s| > 0 && s[|s| - 1] == '\n' && HourOnlyCore(s[..|s| - 1]))
  }

  /** Lines 42-43: a time written as a bare hour gets `:00` minutes, by
      two successive `str.replace` calls. */
  function PadHour(s: string): (r: string)
    ensures !HourOnly(s) ==> r == s
    ensures HourOnly(s) ==> var k := if HourOnlyCore(s) then |s| - 3 else |s| - 4;
      r == s[..k] + ":00" + s[k..]
  {
    if HourOnly(s) then
      PadHourInserts(s);
      ReplaceAll(ReplaceAll(s, " AM", ":00 AM"), " PM", ":00 PM")
    else s
  }

  /** Only index `k` of `u` holds a space, so a three-character pattern
      starting with a space can occur at `k` at most. */
  lemma SingleSpace(u: string, k: int, pat: string)
    requires |pat| == 3 && pat[0] == ' '
    requires forall i :: 0 <= i < |u| && i != k ==> u[i] != ' '
    ensures forall i :: i != k ==> !OccursAt(u, pat, i)
  {
    forall i | i != k ensures !OccursAt(u, pat, i) {
      if 0 <= i && i + 3 <= |u| {
        assert u[i..i + 3][0] == u[i];
      }
    }
  }

  /** Replacing the only occurrence of `pat` by `ins + pat` inserts `ins`
      in front of it. */
  lemma InsertBefore(s: string, k: nat, pat: string, ins: string, rep: string)
    requires pat != [] && rep == ins + pat
    requires OccursAt(s, pat, k) && forall i :: i != k ==> !OccursAt(s, pat, i)
    ensures ReplaceAll(s, pat, rep) == s[..k] + ins + s[k..]
  {
    ReplaceOnce(s, pat, rep, k);
    assert s[k..] == pat + s[k + |pat|..];
  }

  lemma PaddedMarks()
    ensures ":00 AM" == ":00" + " AM" && ":00 PM" == ":00" + " PM"
  {
  }

  /** A three-character pattern led by a space is absent when the only
      space is followed by a different character. */
  lemma NoOtherMark(u: string, k: int, pat: string, rep: string)
    requires |pat| == 3 && pat[0] == ' '
    requires forall i :: 0 <= i < |u| && i != k ==> u[i] != ' '
    requires 0 <= k && k + 1 < |u| && u[k + 1] != pat[1]
    ensures ReplaceAll(u, pat, rep) == u
  {
    SingleSpace(u, k, pat);
    if k + 3 <= |u| {
      assert u[k..k + 3][1] == u[k + 1];
    }
  }

  /** Inserting space-free text before the only space moves that space. */
  lemma InsertKeepsSingleSpace(s: string, k: nat, ins: string)
    requires k <= |s| && ' ' !in ins
    requires forall i :: 0 <= i < |s| && i != k ==> s[i] != ' '
    ensures var u := s[..k] + ins + s[k..];
      forall i :: 0 <= i < |u| && i != k + |ins| ==> u[i] != ' '
  {
    var u := s[..k] + ins + s[k..];
    forall i | 0 <= i < |u| && i != k + |ins| ensures u[i] != ' ' {
      if i >= k + |ins| {
        assert u[i] == s[i - |ins|];
      } else if i < k {
        assert u[i] == s[i];
      } else {
        assert u[i] == ins[i - k];
      }
    }
  }

  /** Padding an `AM` time: the first replacement hits the one ` AM`,
      the second finds no ` PM`. */
  lemma PadHourAm(s: string, k: nat)
    requires k + 3 <= |s| && s[k..k + 3] == " AM"
    requires forall i :: 0 <= i < |s| && i != k ==> s[i] != ' '
    ensures ReplaceAll(ReplaceAll(s, " AM", ":00 AM"), " PM", ":00 PM") == s[..k] + ":00" + s[k..]
  {
    SingleSpace(s, k, " AM");
    PaddedMarks();
    InsertBefore(s, k, " AM", ":00", ":00 AM");
    var u := s[..k] + ":00" + s[k..];
    InsertKeepsSingleSpace(s, k, ":00");
    assert u[k + 4] == s[k + 1] == 'A' by {
      assert s[k..k + 3][1] == s[k + 1];
    }
    NoOtherMark(u, k + 3, " PM", ":00 PM");
  }

  /** Padding a `PM` time: the first replacement finds no ` AM`, the
      second hits the one ` PM`. */
  lemma PadHourPm(s: string, k: nat)
    requires k + 3 <= |s| && s[k..k + 3] == " PM"
    requires forall i :: 0 <= i < |s| && i != k ==> s[i] != ' '
    ensures ReplaceAll(ReplaceAll(s, " AM", ":00 AM"), " PM", ":00 PM") == s[..k] + ":00" + s[k..]
  {
    assert s[k + 1] == 'P' by {
      assert s[k..k + 3][1] == s[k + 1];
    }
    NoOtherMark(s, k, " AM", ":00 AM");
    SingleSpace(s, k, " PM");
    PaddedMarks();
    InsertBefore(s, k, " PM", ":00", ":00 PM");
  }

  /** The two replacements insert `:00` just before the space, whichever
      of `AM` and `PM` the time carries, and leave everything else as it
      was. */
  lemma PadHourInserts(s: string)
    requires HourOnly(s)
    ensures var k := if HourOnlyCore(s) then |s| - 3 else |s| - 4;
      ReplaceAll(ReplaceAll(s, " AM", ":00 AM"), " PM", ":00 PM") == s[..k] + ":00" + s[k..]
  {
    var k := if HourOnlyCore(s) then |s| - 3 else |s| - 4;
    HourOnlySpace(s, k);
    if s[k + 1] == 'A' {
      PadHourAm(s, k);
    } else {
      PadHourPm(s, k);
    }
  }

  /** A bare hour has its only space at `k`, followed by `AM` or `PM`. */
  lemma HourOnlySpace(s: string, k: int)
    requires HourOnly(s) && k == if HourOnlyCore(s) then |s| - 3 else |s| - 4
    ensures 0 <= k && k + 3 <= |s| && (s[k..k + 3] == " AM" || s[k..k + 3] == " PM")
    ensures s[k + 1] == 'A' <==> s[k..k + 3] == " AM"
    ensures forall i :: 0 <= i < |s| && i != k ==> s[i] != ' '
  {
    var core := if HourOnlyCore(s) then s else s[..|s| - 1];
    assert HourOnlyCore(core) && |core| == k + 3;
    assert core[k] == ' ' && (core[k + 1] == 'A' || core[k + 1] == 'P') && core[k + 2] == 'M';
    forall i | 0 <= i < |s| && i != k ensures s[i] != ' ' {
      if i < k {
        assert core[..k][i] == s[i] && IsDigit(core[..k][i]);
      } else if i < k + 3 {
        assert core[i] == s[i];
      }
    }
    assert s[k..k + 3] == core[k..k + 3];
  }

  /** A time of day as `strptime` leaves it: 24-hour clock. */
  datatype Clock = Clock(hour: int, minute: int)

  predicate ValidClock(c: Clock) {
    0 <= c.hour < 24 && 0 <= c.minute < 60
  }

  /** `%I`: `1[0-2]|0[1-9]|[1-9]`. */
  predicate HourText12(h: string) {
    || (|h| == 1 && '1' <= h[0] <= '9')
    || (|h| == 2 && h[0] == '0' && '1' <= h[1] <= '9')
    || (|h| == 2 && h[0] == '1' && '0' <= h[1] <= '2')
  }

  /** `%M`: `[0-5]\d|\d`. */
  predicate MinuteText(m: string) {
    || (|m| == 1 && IsDigit(m[0]))
    || (|m| == 2 && '0' <= m[0] <= '5' && IsDigit(m[1]))
  }

  /** `%p`, matched ignoring case: `Some(true)` for PM, `Some(false)` for AM. */
  function Meridiem(p: string): (r: Option<bool>)
    ensures r.Some? ==> |p| == 2 && !IsSpace(p[0]) && !IsSpace(p[1])
  {
    if |p| != 2 || (p[1] != 'm' && p[1] != 'M') then None
    else if p[0] == 'a' || p[0] == 'A' then Some(false)
    else if p[0] == 'p' || p[0] == 'P' then Some(true)
    else None
  }

  /** `s` reads in full as `%I:%M %p` with the colon at `p` and the run of
      whitespace (the format's space) starting at `q`. */
  predicate Clock12At(s: string, p: int, q: int) {
    && 0 < p < q && q + 3 <= |s|
    && HourText12(s[..p]) && s[p] == ':' && MinuteText(s[p + 1..q])
    && AllSpace(s[q..|s| - 2]) && Meridiem(s[|s| - 2..]).Some?
  }

  /** The hour and the minute fields of a `%I:%M %p` reading are digits
      (which `Clock12At` implies, see `Clock12Digits`). */
  predicate ClockDigits(s: string, p: int, q: int) {
    0 <= p < q <= |s| && AllDigits(s[..p]) && AllDigits(s[p + 1..q])
  }

  lemma Clock12Digits(s: string, p: int, q: int)
    requires Clock12At(s, p, q)
    ensures ClockDigits(s, p, q)
  {
  }

  /** Where the colon of a `%I:%M %p` reading of `s` must be. */
  function ColonIndex(s: string): int {
    if |s| > 1 && s[1] == ':' then 1 else 2
  }

  /** Where the whitespace of a `%I:%M %p` reading of `s` must start. */
  function SpaceIndex(s: string): int {
    var p := ColonIndex(s);
    if |s| > p + 2 && IsSpace(s[p + 2]) then p + 2 else p + 3
  }

  /** The fields of `%I:%M %p` cannot be split two ways. */
  lemma Clock12Positions(s: string)
    ensures forall p, q :: Clock12At(s, p, q) ==> p == ColonIndex(s) && q == SpaceIndex(s)
  {
    forall p, q | Clock12At(s, p, q) ensures p == ColonIndex(s) && q == SpaceIndex(s) {
      assert s[..p][p - 1] == s[p - 1];
      assert s[p + 1..q][0] == s[p + 1];
      if q == p + 3 {
        assert s[p + 1..q][1] == s[p + 2];
      } else {
        assert s[q..|s| - 2][0] == s[q];
      }
    }
  }

  /** The 24-hour clock hour of a 12-hour clock reading. */
  function To24(h: int, pm: bool): int {
    if pm then (if h == 12 then 12 else h + 12) else (if h == 12 then 0 else h)
  }

  /** The 24-hour clock hour agrees with the 12-hour one modulo 12 and is
      in the afternoon exactly for PM. */
  lemma To24Fields(h: int, pm: bool)
    requires 1 <= h <= 12
    ensures 0 <= To24(h, pm) < 24
    ensures To24(h, pm) % 12 == h % 12 && (To24(h, pm) >= 12 <==> pm)
  {
  }

  /** Line 48's `datetime.strptime(s, "%I:%M %p")`, keeping the time of
      day; `None` for its `ValueError`. */
  function ParseClock12(s: string): (r: Option<Clock>)
    ensures r.Some? <==> exists p, q :: Clock12At(s, p, q)
    ensures r.Some? ==> ValidClock(r.value)
    ensures r.Some? ==> forall p, q :: Clock12At(s, p, q) && ClockDigits(s, p, q) ==>
      && r.value.minute == DigitsValue(s[p + 1..q])
      && r.value.hour % 12 == DigitsValue(s[..p]) % 12
      && (r.value.hour >= 12 <==> Meridiem(s[|s| - 2..]) == Some(true))
  {
    Clock12Positions(s);
    var p := ColonIndex(s);
    var q := SpaceIndex(s);
    if Clock12At(s, p, q) then
      HourText12Value(s[..p]);
      ShortDigitsValue(s[p + 1..q]);
      To24Fields(DigitsValue(s[..p]), Meridiem(s[|s| - 2..]).value);
      Some(Clock(To24(DigitsValue(s[..p]), Meridiem(s[|s| - 2..]).value), DigitsValue(s[p + 1..q])))
    else None
  }

  /** `strftime("%I:%M %p")`: two-digit 12-hour clock hour and minute. */
  function FormatClock12(c: Clock): (r: string)
    requires ValidClock(c)
    ensures |r| == 8
  {
    var h := if c.hour % 12 == 0 then 12 else c.hour % 12;
    Pad(h, 2) + ":" + Pad(c.minute, 2) + " " + (if c.hour < 12 then "AM" else "PM")
  }

  /** Every time of day is read back from its 12-hour clock text. */
  lemma ClockRoundTrip(c: Clock)
    requires ValidClock(c)
    ensures ParseClock12(FormatClock12(c)) == Some(c)
  {
    var s := FormatClock12(c);
    ClockTextFields(c);
    Clock12Positions(s);
    Hour12RoundTrip(c.hour);
  }

  /** Where the fields of the 12-hour text sit and what they read as. */
  lemma ClockTextFields(c: Clock)
    requires ValidClock(c)
    ensures var s := FormatClock12(c);
      && Clock12At(s, 2, 5) && ColonIndex(s) == 2 && SpaceIndex(s) == 5
      && DigitsValue(s[..2]) == (if c.hour % 12 == 0 then 12 else c.hour % 12)
      && DigitsValue(s[3..5]) == c.minute
      && Meridiem(s[|s| - 2..]) == Some(c.hour >= 12)
  {
    var s := FormatClock12(c);
    var h := if c.hour % 12 == 0 then 12 else c.hour % 12;
    assert DigitsValue(Pad(h, 2)) == h && DigitsValue(Pad(c.minute, 2)) == c.minute by {
      assert Pow10(2) == 100;
      PadRoundTrip(h, 2);
      PadRoundTrip(c.minute, 2);
    }
    assert s[..2] == Pad(h, 2) && s[3..5] == Pad(c.minute, 2);
    assert s[2] == ':' && s[5] == ' ' && s[6..] == (if c.hour < 12 then "AM" else "PM");
    HourText12Value(s[..2]);
    ShortDigitsValue(s[3..5]);
    assert MinuteText(s[3..5]);
    assert Meridiem(s[6..]) == Some(c.hour >= 12);
    assert Clock12At(s, 2, 5) by {
      assert s[5..6] == " ";
    }
    assert ColonIndex(s) == 2 by {
      assert s[..2][1] == s[1] && IsDigit(s[1]);
    }
    assert SpaceIndex(s) == 5 by {
      assert s[4] == Pad(c.minute, 2)[1];
      assert IsDigit(s[4]);
    }
  }

  lemma Hour12RoundTrip(hour: int)
    requires 0 <= hour < 24
    ensures To24(if hour % 12 == 0 then 12 else hour % 12, hour >= 12) == hour
  {
  }

  /** `%I` reads exactly the hours 1 to 12, with or without a leading zero. */
  lemma HourText12Value(d: string)
    requires AllDigits(d) && 1 <= |d| <= 2
    ensures HourText12(d) <==> 1 <= DigitsValue(d) <= 12
  {
    ShortDigitsValue(d);
  }

  /** A bare hour such as `7 PM` is read as that hour on the hour; only
      hours outside 1-12 make the parse fail. */
  lemma PaddedHourClock(s: string)
    requires HourOnlyCore(s)
    ensures var h := DigitsValue(s[..|s| - 3]);
      ParseClock12(PadHour(s))
        == if 1 <= h <= 12 then Some(Clock(To24(h, s[|s| - 2] == 'P'), 0)) else None
  {
    var k := |s| - 3;
    var d := s[..k];
    var t := PadHour(s);
    assert t == d + ":00 " + s[k + 1..];
    assert ColonIndex(t) == k by {
      if k == 2 {
        assert t[1] == d[1];
      }
    }
    assert SpaceIndex(t) == k + 3;
    assert t[..k] == d && t[k + 1..k + 3] == "00" && t[k + 3..|t| - 2] == " ";
    assert t[|t| - 2..] == s[k + 1..];
    HourText12Value(d);
    ShortDigitsValue("00");
    Clock12Positions(t);
  }

  // ---------------------------------------------------------------------
  // The outcome cell: lines 55-60.
  // ---------------------------------------------------------------------

  /** `re.match(r"(.+?) win", s)` can end group 1 at `k`. */
  predicate WinAt(s: string, k: int) {
    1 <= k && k + 4 <= |s| && s[k..k + 4] == " win" && NoNewline(s[..k])
  }

  /** The first end of group 1 from `k` on: the lazy `+?` stops there. */
  function FirstWin(s: string, k: nat): (r: Option<int>)
    requires k >= 1
    ensures r.Some? ==> k <= r.value && WinAt(s, r.value)
    ensures r.Some? ==> forall j :: k <= j < r.value ==> !WinAt(s, j)
    ensures r.None? ==> forall j :: k <= j ==> !WinAt(s, j)
    decreases |s| - k
  {
    if k + 4 > |s| then None
    else if WinAt(s, k) then Some(k)
    else FirstWin(s, k + 1)
  }

  /** Lines 56-57: the text in front of the first `" win"`, stripped. */
  function WinningTeam(outcome: string): (r: Option<string>)
    ensures r.None? <==> forall k :: !WinAt(outcome, k)
    ensures r.Some? ==> exists k :: (
      && WinAt(outcome, k) && (forall j :: j < k ==> !WinAt(outcome, j))
      && r.value == Strip(outcome[..k]))
  {
    match FirstWin(outcome, 1)
    case None => None
    case Some(k) => Some(Strip(outcome[..k]))
  }

  /** An outcome written `TEAM win...` names `TEAM`, stripped, when no
      earlier `" win"` occurs. */
  lemma WinningTeamOf(team: string, rest: string)
    requires team != [] && NoNewline(team)
    requires forall j :: j < |team| ==> !OccursAt(team + " win", " win", j)
    ensures WinningTeam(team + " win" + rest) == Some(Strip(team))
  {
    var s := team + " win" + rest;
    var k := |team|;
    assert s[..k] == team && s[k..k + 4] == " win";
    assert WinAt(s, k);
    forall j | j < k ensures !WinAt(s, j) {
      if 1 <= j && j + 4 <= |s| {
        assert !OccursAt(team + " win", " win", j);
        assert (team + " win")[j..j + 4] == s[j..j + 4];
      }
    }
  }

  /** `\d+(\.\d+)?`: digits, optionally a point and more digits. */
  predicate IsDecimal(t: string) {
    && t != [] && IsDigit(t[0]) && IsDigit(t[|t| - 1])
    && (forall i :: 0 <= i < |t| ==> IsDigit(t[i]) || t[i] == '.')
    && (forall i, j :: 0 <= i < j < |t| && t[i] == '.' ==> t[j] != '.')
  }

  /** The position of the decimal point, or `|t|` without one. */
  function PointIndex(t: string): (d: nat)
    ensures d <= |t| && (d < |t| ==> t[d] == '.')
    ensures forall i :: 0 <= i < d ==> t[i] != '.'
  {
    if t == [] || t[0] == '.' then 0 else 1 + PointIndex(t[1..])
  }

  /** The digits in front of the point. */
  function WholePart(t: string): (w: string)
    requires IsDecimal(t)
    ensures AllDigits(w) && w != []
  {
    t[..PointIndex(t)]
  }

  /** The digits of a decimal with its point left out. */
  function Unpointed(t: string): (u: string)
    requires IsDecimal(t)
    ensures AllDigits(u)
  {
    var d := PointIndex(t);
    if d == |t| then t else t[..d] + t[d + 1..]
  }

  /** The number of digits after the point. */
  function Scale(t: string): nat {
    var d := PointIndex(t);
    if d == |t| then 0 else |t| - d - 1
  }

  /** Python's `float(t)` for a decimal `t`, exactly (no rounding): the
      digits read as one whole number, scaled down by one power of ten per
      digit after the point. */
  function DecimalValue(t: string): (v: real)
    requires IsDecimal(t)
    ensures v == DigitsValue(Unpointed(t)) as real / Pow10(Scale(t)) as real
    ensures DigitsValue(WholePart(t)) as real <= v < DigitsValue(WholePart(t)) as real + 1.0
  {
    var d := PointIndex(t);
    if d == |t| then
      assert t[..d] == t;
      DigitsValue(t) as real
    else
      var f := t[d + 1..];
      DecimalDigits(t, d);
      FractionBelowOne(DigitsValue(f), Pow10(|f|));
      ScaleDown(DigitsValue(t[..d]), DigitsValue(f), Pow10(|f|));
      DigitsValue(t[..d]) as real + DigitsValue(f) as real / Pow10(|f|) as real
  }

  /** The digits after the point, and how they combine with those before. */
  lemma DecimalDigits(t: string, d: nat)
    requires IsDecimal(t) && d == PointIndex(t) < |t|
    ensures AllDigits(t[d + 1..]) && Scale(t) == |t[d + 1..]|
    ensures DigitsValue(t[d + 1..]) < Pow10(|t[d + 1..]|)
    ensures DigitsValue(Unpointed(t)) == DigitsValue(t[..d]) * Pow10(|t[d + 1..]|) + DigitsValue(t[d + 1..])
  {
    var f := t[d + 1..];
    assert AllDigits(f) by {
      forall i | 0 <= i < |f| ensures IsDigit(f[i]) {
        assert f[i] == t[d + 1 + i];
      }
    }
    DigitsRoundTrip(f);
    DigitsValueAppend(t[..d], f);
  }

  lemma ScaleDown(w: nat, f: nat, p: nat)
    requires p >= 1
    ensures w as real + f as real / p as real == (w * p + f) as real / p as real
  {
    assert (w * p + f) as real == w as real * p as real + f as real;
  }

  /** The value of a percentage as the page writes it. */
  lemma DecimalExamples()
    ensures DecimalValue("62.5") == 62.5 && DecimalValue("7") == 7.0
  {
    assert PointIndex("62.5") == 2 && Unpointed("62.5") == "625" && Scale("62.5") == 1;
    assert "625"[..2] == "62" && "62"[..1] == "6" && "6"[..0] == "";
    assert DigitsValue("6") == 6 && DigitsValue("62") == 62 && DigitsValue("625") == 625;
    assert PointIndex("7") == 1 && DigitsValue("7") == 7;
  }

  lemma FractionBelowOne(n: nat, p: nat)
    requires n < p
    ensures 0.0 <= n as real / p as real < 1.0
  {
  }

  /** `(\d+(\.\d+)?)%` matches with group 1 `s[a..f]`. */
  predicate PercentAt(s: string, a: int, f: int) {
    0 <= a < f < |s| && s[f] == '%' && IsDecimal(s[a..f])
  }

  /** The first `%` at or after `i`, or `|s|`. */
  function NextPercent(s: string, i: nat): (f: nat)
    requires i <= |s|
    ensures i <= f <= |s| && (f < |s| ==> s[f] == '%')
    ensures forall j :: i <= j < f ==> s[j] != '%'
    decreases |s| - i
  {
    if i == |s| || s[i] == '%' then i else NextPercent(s, i + 1)
  }

  /** A decimal holds no `%`, so a match from `a` ends at the next `%`. */
  lemma PercentEnds(s: string, a: nat)
    requires a <= |s|
    ensures forall f :: PercentAt(s, a, f) ==> f == NextPercent(s, a)
  {
    forall f | PercentAt(s, a, f) ensures f == NextPercent(s, a) {
      forall j | a <= j < f ensures s[j] != '%' {
        assert s[a..f][j - a] == s[j];
      }
    }
  }

  /** The leftmost match starting at `a` or later. */
  function FirstPercent(s: string, a: nat): (r: Option<(int, int)>)
    requires a <= |s|
    ensures r.Some? ==> a <= r.value.0 && PercentAt(s, r.value.0, r.value.1)
    ensures r.Some? ==> forall a', f :: a <= a' < r.value.0 ==> !PercentAt(s, a', f)
    ensures r.None? ==> forall a', f :: a <= a' ==> !PercentAt(s, a', f)
    decreases |s| - a
  {
    if a == |s| then None
    else
      PercentEnds(s, a);
      var f := NextPercent(s, a);
      if a < f < |s| && IsDecimal(s[a..f]) then Some((a, f))
      else FirstPercent(s, a + 1)
  }

  /** Lines 59-60: the leftmost percentage in the outcome. */
  function WinPercentage(outcome: string): (r: Option<real>)
    ensures r.None? <==> forall a, f :: !PercentAt(outcome, a, f)
    ensures r.Some? ==> exists a, f :: (
      && PercentAt(outcome, a, f) && (forall a', f' :: a' < a ==> !PercentAt(outcome, a', f'))
      && r.value == DecimalValue(outcome[a..f]))
  {
    match FirstPercent(outcome, 0)
    case None => None
    case Some((a, f)) => Some(DecimalValue(outcome[a..f]))
  }

  /** Text without digits in front of a decimal followed by `%` yields
      that decimal's value. */
  lemma WinPercentageOf(prefix: string, t: string, rest: string)
    requires forall i :: 0 <= i < |prefix| ==> !IsDigit(prefix[i])
    requires IsDecimal(t)
    ensures WinPercentage(prefix + t + "%" + rest) == Some(DecimalValue(t))
  {
    var s := prefix + t + "%" + rest;
    var a := |prefix|;
    var f := a + |t|;
    assert s[a..f] == t && s[f] == '%';
    assert PercentAt(s, a, f);
    NoPercentInPrefix(prefix, t, rest);
    FirstPercentIs(s, a, f);
  }

  lemma NoPercentInPrefix(prefix: string, t: string, rest: string)
    requires forall i :: 0 <= i < |prefix| ==> !IsDigit(prefix[i])
    ensures forall a', f' :: a' < |prefix| ==> !PercentAt(prefix + t + "%" + rest, a', f')
  {
    var s := prefix + t + "%" + rest;
    forall a', f' | a' < |prefix| ensures !PercentAt(s, a', f') {
      if 0 <= a' < f' < |s| {
        assert s[a'..f'][0] == prefix[a'];
      }
    }
  }

  /** The leftmost match is the one with no match starting before it. */
  lemma FirstPercentIs(s: string, a: int, f: int)
    requires PercentAt(s, a, f)
    requires forall a', f' :: a' < a ==> !PercentAt(s, a', f')
    ensures FirstPercent(s, 0) == Some((a, f))
  {
    PercentEnds(s, a);
    var (a0, f0) := FirstPercent(s, 0).value;
    PercentEnds(s, a0);
  }

  // ---------------------------------------------------------------------
  // Home and away win percentages: lines 62-71.
  // ---------------------------------------------------------------------

  datatype WinPcts = WinPcts(home: Option<real>, away: Option<real>)

  /** `100 - p if p else None`: a zero percentage is falsy like `None`. */
  function Complement(p: Option<real>): (r: Option<real>)
    ensures r.Some? <==> p.Some? && p.value != 0.0
    ensures r.Some? ==> p.value + r.value == 100.0
  {
    if p.Some? && p.value != 0.0 then Some(100.0 - p.value) else None
  }

  /** The winner's side gets the percentage and the other side its
      complement; a winner that is neither team leaves both unknown. Names
      compare as Python's `==` does, so `None` equals `None`. */
  function SplitWinPct(winner: Option<string>, home: Option<string>, away: Option<string>,
                       pct: Option<real>): (r: WinPcts)
    ensures winner == home ==> r.home == pct && r.away == Complement(pct)
    ensures winner != home && winner == away ==> r.away == pct && r.home == Complement(pct)
    ensures winner != home && winner != away ==> r.home.None? && r.away.None?
    ensures r.home.Some? && r.away.Some? ==> r.home.value + r.away.value == 100.0
    ensures (winner == home || winner == away) && pct.Some? && pct.value != 0.0
      ==> r.home.Some? && r.away.Some?
    ensures pct.Some? && 0.0 <= pct.value <= 100.0 ==>
      (r.home.Some? ==> 0.0 <= r.home.value <= 100.0) && (r.away.Some? ==> 0.0 <= r.away.value <= 100.0)
  {
    if winner == home then WinPcts(pct, Complement(pct))
    else if winner == away then WinPcts(Complement(pct), pct)
    else WinPcts(None, None)
  }

  /** When the matchup cell does not match and the outcome names no
      winner, `None == None` hands the percentage to the home side. */
  lemma UnmatchedRowQuirk(p: real)
    requires p != 0.0
    ensures SplitWinPct(None, None, None, Some(p)) == WinPcts(Some(p), Some(100.0 - p))
  {
  }

  // ---------------------------------------------------------------------
  // Rows and the whole table: lines 24-81.
  // ---------------------------------------------------------------------

  /** One prediction as the dictionary of lines 73-79 holds it. */
  datatype Prediction = Prediction(
    time: string,
    homeTeam: Option<string>,
    awayTeam: Option<string>,
    homeWinPct: Option<real>,
    awayWinPct: Option<real>)

  /** `strptime` rejected the (padded) time text. */
  datatype FetchError = UnreadableTime(text: string)

  /** The time cell as a 12-hour clock reading: a bare hour `H AM` or
      `HH PM` reads as that hour with minute 0 when it is 1 to 12, and any
      other cell is read by `%I:%M %p` as it stands. */
  function StartClock(cell: string): (r: Option<Clock>)
    ensures r.Some? ==> ValidClock(r.value)
    ensures !HourOnly(Strip(cell)) ==> r == ParseClock12(Strip(cell))
    ensures HourOnly(Strip(cell)) ==> var s := Strip(cell); var h := DigitsValue(s[..|s| - 3]);
      && HourOnlyCore(s)
      && r == if 1 <= h <= 12 then Some(Clock(To24(h, s[|s| - 2] == 'P'), 0)) else None
  {
    var s := Strip(cell);
    if HourOnly(s) then
      assert s[|s| - 1] != '\n' by {
        assert IsSpace('\n');
      }
      PaddedHourClock(s);
      ParseClock12(PadHour(s))
    else
      ParseClock12(PadHour(s))
  }

  /** The time column's own example, `1:35 PM`, reads as 13:35. */
  lemma ClockExample()
    ensures ParseClock12("1:35 PM") == Some(Clock(13, 35))
  {
    var s := "1:35 PM";
    assert s[..1] == "1" && s[2..4] == "35" && s[4..5] == " " && s[5..] == "PM";
    assert "35"[..1] == "3" && "3"[..0] == "" && "1"[..0] == "";
    assert DigitsValue("1") == 1 && DigitsValue("35") == 35;
    assert Clock12At(s, 1, 4);
    Clock12Digits(s, 1, 4);
  }

  /** The bare-hour example, `7 PM`, reads as 19:00 once padded. */
  lemma PaddedClockExample()
    ensures ParseClock12(PadHour("7 PM")) == Some(Clock(19, 0))
  {
    assert "7 PM"[..1] == "7" && "7"[..0] == "";
    assert HourOnlyCore("7 PM") && DigitsValue("7") == 7;
    PaddedHourClock("7 PM");
  }

  /** What every prediction satisfies: its time is an `isoformat` UTC
      timestamp without `Z`, and two percentages, when both are known,
      add up to 100. */
  predicate WellFormed(p: Prediction) {
    && Parse(p.time).Some? && Parse(p.time).value.offset == 0
    && 'Z' !in p.time
    && (p.homeWinPct.Some? && p.awayWinPct.Some? ==> p.homeWinPct.value + p.awayWinPct.value == 100.0)
  }

  /** The prediction of a row whose time reads as `clock`. `today` is
      the date of the local time zone and `toUtc` is `localize` followed by
      `astimezone(pytz.utc)`; both come from outside the model. */
  function RowPrediction(cells: seq<string>, clock: Clock, today: Date, toUtc: LocalDateTime -> UtcStamp)
    : (p: Prediction)
    requires |cells| >= 3 && ValidClock(clock) && ValidDate(today)
    ensures WellFormed(p)
    ensures Parse(p.time) == Some(toUtc(Civil(today, clock.hour, clock.minute, 0)))
    ensures |p.time| == 25 && p.time[19..] == "+00:00"
    ensures p.homeTeam == Matchup(cells[1]).home && p.awayTeam == Matchup(cells[1]).away
    ensures var outcome := Strip(cells[2]);
      WinPcts(p.homeWinPct, p.awayWinPct)
        == SplitWinPct(WinningTeam(outcome), p.homeTeam, p.awayTeam, WinPercentage(outcome))
  {
    var utc := toUtc(Civil(today, clock.hour, clock.minute, 0));
    ParseFormat(utc);
    FormatHasNoZulu(utc);
    assert Format(utc)[19..] == FormatOffset(0) == "+00:00";
    var teams := Matchup(cells[1]);
    var outcome := Strip(cells[2]);
    var pcts := SplitWinPct(WinningTeam(outcome), teams.home, teams.away, WinPercentage(outcome));
    Prediction(Format(utc), teams.home, teams.away, pcts.home, pcts.away)
  }

  /** Lines 27-79 for one row: nothing for a short row, a failure when
      the time cannot be read, otherwise the row's prediction. */
  function PredictRow(cells: seq<string>, today: Date, toUtc: LocalDateTime -> UtcStamp)
    : (r: Result<Option<Prediction>, FetchError>)
    requires ValidDate(today)
    ensures r.Success? && r.value.None? <==> |cells| < 3
    ensures r.Failure? <==> |cells| >= 3 && StartClock(cells[0]).None?
    ensures r.Failure? ==> r.error == UnreadableTime(PadHour(Strip(cells[0])))
    ensures r.Success? && r.value.Some? ==>
      r.value.value == RowPrediction(cells, StartClock(cells[0]).value, today, toUtc)
  {
    if |cells| < 3 then Success(None)
    else
      var text := PadHour(Strip(cells[0]));
      var clock :- ParseClock12(text).ToResult(UnreadableTime(text));
      Success(Some(RowPrediction(cells, clock, today, toUtc)))
  }

  /** The rows that yield a prediction: those with at least three cells. */
  function WideRows(rows: seq<seq<string>>): (w: seq<seq<string>>)
    ensures forall r :: r in w <==> r in rows && |r| >= 3
    ensures |w| <= |rows|
  {
    if rows == [] then []
    else (if |rows[0]| >= 3 then [rows[0]] else []) + WideRows(rows[1..])
  }

  /** Lines 26-79 over the data rows: one prediction per wide row, in
      order; the first unreadable time aborts everything. */
  function PredictRows(rows: seq<seq<string>>, today: Date, toUtc: LocalDateTime -> UtcStamp)
    : (r: Result<seq<Prediction>, FetchError>)
    requires ValidDate(today)
    ensures r.Success? ==> forall p :: p in r.value ==> WellFormed(p)
    ensures r.Success? ==> |r.value| == |WideRows(rows)| <= |rows|
  {
    if rows == [] then Success([])
    else
      var first :- PredictRow(rows[0], today, toUtc);
      var rest :- PredictRows(rows[1..], today, toUtc);
      var head := if first.Some? then [first.value] else [];
      assert |head| == |if |rows[0]| >= 3 then [rows[0]] else []|;
      Success(head + rest)
  }

  /** `fetch_predictions` once the page has been reduced to its rows:
      the header row is skipped (`[1:]`). */
  function FetchPredictions(rows: seq<seq<string>>, today: Date, toUtc: LocalDateTime -> UtcStamp)
    : (r: Result<seq<Prediction>, FetchError>)
    requires ValidDate(today)
    ensures r.Success? ==> forall p :: p in r.value ==> WellFormed(p)
    ensures rows == [] ==> r == Success([])
    ensures r.Failure? <==> exists k :: 1 <= k < |rows| && BadRow(rows[k])
    ensures r.Success? && rows != [] ==> RowResults(WideRows(rows[1..]), today, toUtc) == Found(r.value)
  {
    if rows == [] then Success([])
    else
      var body := rows[1..];
      PredictRowsFailure(body, today, toUtc);
      assert (exists k :: 1 <= k < |rows| && BadRow(rows[k])) <==> exists k :: 0 <= k < |body| && BadRow(body[k]) by {
        if exists k :: 1 <= k < |rows| && BadRow(rows[k]) {
          var k :| 1 <= k < |rows| && BadRow(rows[k]);
          assert body[k - 1] == rows[k];
        }
        if exists k :: 0 <= k < |body| && BadRow(body[k]) {
          var k :| 0 <= k < |body| && BadRow(body[k]);
          assert rows[k + 1] == body[k];
        }
      }
      var r := PredictRows(body, today, toUtc);
      if r.Success? then
        PredictRowsOutput(body, today, toUtc);
        r
      else r
  }

  /** The row filter keeps rows in order: filtering two tables one after
      the other is filtering their concatenation. */
  lemma {:induction false} WideRowsAppend(a: seq<seq<string>>, b: seq<seq<string>>)
    ensures WideRows(a + b) == WideRows(a) + WideRows(b)
    decreases |a|
  {
    if a == [] {
      assert a + b == b;
    } else {
      assert (a + b)[0] == a[0] && (a + b)[1..] == a[1..] + b;
      WideRowsAppend(a[1..], b);
    }
  }

  /** A row whose time `strptime` rejects. */
  predicate BadRow(row: seq<string>) {
    |row| >= 3 && StartClock(row[0]).None?
  }

  /** The table fails exactly when some wide row has an unreadable time,
      and the error is that of the first such row. */
  lemma {:induction false} PredictRowsFailure(rows: seq<seq<string>>, today: Date, toUtc: LocalDateTime -> UtcStamp)
    requires ValidDate(today)
    ensures PredictRows(rows, today, toUtc).Failure? <==> exists k :: 0 <= k < |rows| && BadRow(rows[k])
    ensures PredictRows(rows, today, toUtc).Failure? ==> exists k :: (
      && 0 <= k < |rows| && BadRow(rows[k]) && (forall j :: 0 <= j < k ==> !BadRow(rows[j]))
      && PredictRows(rows, today, toUtc).error == UnreadableTime(PadHour(Strip(rows[k][0]))))
  {
    if rows != [] {
      PredictRowsFailure(rows[1..], today, toUtc);
      SomeShift(rows, BadRow);
      if !BadRow(rows[0]) && PredictRows(rows[1..], today, toUtc).Failure? {
        var k :| 0 <= k < |rows[1..]| && BadRow(rows[1..][k]) && (forall j :: 0 <= j < k ==> !BadRow(rows[1..][j]))
          && PredictRows(rows[1..], today, toUtc).error == UnreadableTime(PadHour(Strip(rows[1..][k][0])));
        FirstShift(rows, BadRow, k);
      }
    }
  }

  /** A table that is read in full yields, in order, the prediction of
      each wide row: reading the wide rows one by one gives exactly the
      predictions. */
  lemma {:induction false} PredictRowsOutput(rows: seq<seq<string>>, today: Date, toUtc: LocalDateTime -> UtcStamp)
    requires ValidDate(today)
    requires PredictRows(rows, today, toUtc).Success?
    ensures RowResults(WideRows(rows), today, toUtc) == Found(PredictRows(rows, today, toUtc).value)
  {
    if rows != [] {
      PredictRowsOutput(rows[1..], today, toUtc);
      PredictRowsCons(rows, today, toUtc);
      if |rows[0]| >= 3 {
        var ps := PredictRows(rows, today, toUtc).value;
        var wide := WideRows(rows);
        assert wide[1..] == WideRows(rows[1..]);
        assert ps[1..] == PredictRows(rows[1..], today, toUtc).value;
      }
    }
  }

  /** The row parser applied to each row in turn. */
  function RowResults(rows: seq<seq<string>>, today: Date, toUtc: LocalDateTime -> UtcStamp)
    : (rs: seq<Result<Option<Prediction>, FetchError>>)
    requires ValidDate(today)
    ensures |rs| == |rows|
  {
    if rows == [] then [] else [PredictRow(rows[0], today, toUtc)] + RowResults(rows[1..], today, toUtc)
  }

  /** Each prediction as a row that yielded it. */
  function Found(ps: seq<Prediction>): (rs: seq<Result<Option<Prediction>, FetchError>>)
    ensures |rs| == |ps|
  {
    if ps == [] then [] else [Success(Some(ps[0]))] + Found(ps[1..])
  }

  /** One step of the row loop, for a table read in full. */
  lemma PredictRowsCons(rows: seq<seq<string>>, today: Date, toUtc: LocalDateTime -> UtcStamp)
    requires ValidDate(today)
    requires rows != [] && PredictRows(rows, today, toUtc).Success?
    ensures PredictRows(rows[1..], today, toUtc).Success?
    ensures var ps := PredictRows(rows, today, toUtc).value;
      var rest := PredictRows(rows[1..], today, toUtc).value;
      if |rows[0]| >= 3 then
        && ps != [] && PredictRow(rows[0], today, toUtc) == Success(Some(ps[0]))
        && ps == [ps[0]] + rest && WideRows(rows) == [rows[0]] + WideRows(rows[1..])
      else
        ps == rest && WideRows(rows) == WideRows(rows[1..])
  {
    var first := PredictRow(rows[0], today, toUtc);
    assert first.Success?;
  }
}
