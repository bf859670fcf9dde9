/** The odds client: the parse loop over the odds provider's JSON games,
    and the `commenceTimeTo` bound it sends with its request. */
module OddsApi {
  import opened Wrappers
  import opened Text
  import opened Calendar
  import opened Timestamps
  import opened Seqs

  /** A member of a JSON object as `dict.get` sees it: missing, `null`, or
      present with a value. */
  datatype Field<+T> = Absent | Null | Present(value: T)

  /** `obj.get(key)`: `None` for a missing member and for `null`. */
  function Get<T>(f: Field<T>): (r: Option<T>)
    ensures r.Some? <==> f.Present?
  {
    match f
    case Present(v) => Some(v)
    case _ => None
  }

  /** `obj.get(key, [])` iterated: a missing member is the empty list; a
      `null` member makes the iteration raise `TypeError` (`None` here). */
  function GetList<T>(f: Field<seq<T>>): (r: Option<seq<T>>)
    ensures r.None? <==> f.Null?
    ensures f.Absent? ==> r == Some([])
    ensures f.Present? ==> r == Some(f.value)
  {
    match f
    case Absent => Some([])
    case Null => None
    case Present(xs) => Some(xs)
  }

  datatype Outcome = Outcome(name: Field<string>, price: Field<int>)
  datatype Market = Market(key: Field<string>, outcomes: Field<seq<Outcome>>)
  datatype Bookmaker = Bookmaker(markets: Field<seq<Market>>)
  datatype Game = Game(
    id: Field<string>,
    commenceTime: Field<string>,
    homeTeam: Field<string>,
    awayTeam: Field<string>,
    bookmakers: Field<seq<Bookmaker>>)

  /** One parsed game: identifiers and names as the provider sent them, the
      start time re-serialised by `isoformat()`, and American odds. */
  datatype OddsRecord = OddsRecord(
    gameId: Option<string>,
    startTime: string,
    homeTeam: Option<string>,
    awayTeam: Option<string>,
    homeOdds: Option<int>,
    awayOdds: Option<int>)

  const HeadToHead := "h2h"

  /** The two odds the scan carries from outcome to outcome. */
  datatype Quotes = Quotes(home: Option<int>, away: Option<int>)

  /** One pass of the innermost loop body: an outcome named like the home
      team sets the home odds; otherwise one named like the away team sets
      the away odds (`if`/`elif`). */
  function OutcomeStep(q: Quotes, o: Outcome, home: Option<string>, away: Option<string>): Quotes {
    var name := Get(o.name);
    if name == home then q.(home := Get(o.price))
    else if name == away then q.(away := Get(o.price))
    else q
  }

  // ---------------------------------------------------------------------
  // Reference definition: the odds are the price of the LAST outcome of a
  // head-to-head market, over all bookmakers in order, that names the team.

  datatype Side = HomeSide | AwaySide

  /** Whether an outcome sets the odds of `side`: the away side only when
      its name is not also the home team's. */
  predicate SetsSide(o: Outcome, side: Side, home: Option<string>, away: Option<string>) {
    match side
    case HomeSide => Get(o.name) == home
    case AwaySide => Get(o.name) == away && Get(o.name) != home
  }

  /** The price of the last outcome in `os` that sets `side`, or `fallback`
      when none does. */
  function LastQuote(os: seq<Outcome>, side: Side, home: Option<string>, away: Option<string>, fallback: Option<int>): (r: Option<int>)
    ensures (forall k :: 0 <= k < |os| ==> !SetsSide(os[k], side, home, away)) ==> r == fallback
    ensures (exists k :: 0 <= k < |os| && SetsSide(os[k], side, home, away)) ==>
      exists k :: 0 <= k < |os| && SetsSide(os[k], side, home, away) && r == Get(os[k].price)
                  && forall k' :: k < k' < |os| ==> !SetsSide(os[k'], side, home, away)
    decreases |os|
  {
    if os == [] then fallback
    else
      var last := os[|os| - 1];
      if SetsSide(last, side, home, away) then Get(last.price)
      else
        var r := LastQuote(os[..|os| - 1], side, home, away, fallback);
        assert forall k :: 0 <= k < |os| - 1 ==> os[..|os| - 1][k] == os[k];
        r
  }

  function ApplyAll(q: Quotes, os: seq<Outcome>, home: Option<string>, away: Option<string>): Quotes {
    Quotes(LastQuote(os, HomeSide, home, away, q.home), LastQuote(os, AwaySide, home, away, q.away))
  }

  /** The outcomes of all head-to-head markets of the listed markets, in
      order; `None` when a head-to-head market's outcomes are `null`. */
  function H2hOfMarkets(ms: seq<Market>): Option<seq<Outcome>>
    decreases |ms|
  {
    if ms == [] then Some([])
    else if Get(ms[0].key) == Some(HeadToHead) then
      var os :- GetList(ms[0].outcomes);
      var rest :- H2hOfMarkets(ms[1..]);
      Some(os + rest)
    else
      H2hOfMarkets(ms[1..])
  }

  function H2hOutcomes(bs: seq<Bookmaker>): Option<seq<Outcome>>
    decreases |bs|
  {
    if bs == [] then Some([])
    else
      var ms :- GetList(bs[0].markets);
      var os :- H2hOfMarkets(ms);
      var rest :- H2hOutcomes(bs[1..]);
      Some(os + rest)
  }

  lemma {:induction false} LastQuoteAppend(a: seq<Outcome>, b: seq<Outcome>, side: Side, home: Option<string>, away: Option<string>, fallback: Option<int>)
    ensures LastQuote(a + b, side, home, away, fallback)
         == LastQuote(b, side, home, away, LastQuote(a, side, home, away, fallback))
    decreases |b|
  {
    if b == [] {
      assert a + b == a;
    } else {
      assert (a + b)[..|a + b| - 1] == a + b[..|b| - 1];
      LastQuoteAppend(a, b[..|b| - 1], side, home, away, fallback);
    }
  }

  lemma ApplyAllAppend(q: Quotes, a: seq<Outcome>, b: seq<Outcome>, home: Option<string>, away: Option<string>)
    ensures ApplyAll(q, a + b, home, away) == ApplyAll(ApplyAll(q, a, home, away), b, home, away)
  {
    LastQuoteAppend(a, b, HomeSide, home, away, q.home);
    LastQuoteAppend(a, b, AwaySide, home, away, q.away);
  }

  /** A market that is not head-to-head changes neither odds nor the
      failure outcome, wherever it stands. */
  lemma {:induction false} OtherMarketsIgnored(a: seq<Market>, m: Market, b: seq<Market>)
    requires Get(m.key) != Some(HeadToHead)
    ensures H2hOfMarkets(a + [m] + b) == H2hOfMarkets(a + b)
    decreases |a|
  {
    if a == [] {
      assert a + [m] + b == [m] + b && ([m] + b)[1..] == b && a + b == b;
    } else {
      assert (a + [m] + b)[1..] == a[1..] + [m] + b;
      assert (a + b)[1..] == a[1..] + b;
      assert (a + [m] + b)[0] == a[0] == (a + b)[0];
      OtherMarketsIgnored(a[1..], m, b);
    }
  }

  // ---------------------------------------------------------------------
  // The three nested loops of the parse, each equal to the reference.

  /** The innermost loop: the `if home / elif away` body over every outcome
      computes, for both sides at once, the last outcome naming that side. */
  function ScanOutcomes(q: Quotes, os: seq<Outcome>, home: Option<string>, away: Option<string>): (r: Quotes)
    ensures r == ApplyAll(q, os, home, away)
    decreases |os|
  {
    if os == [] then q
    else
      var q1 := OutcomeStep(q, os[0], home, away);
      assert q1 == ApplyAll(q, [os[0]], home, away);
      assert os == [os[0]] + os[1..];
      ApplyAllAppend(q, [os[0]], os[1..], home, away);
      ScanOutcomes(q1, os[1..], home, away)
  }

  /** The market loop: the reference applied to the outcomes of the
      head-to-head markets in order; `None` exactly when one of those
      markets has a `null` outcome list. */
  function ScanMarkets(q: Quotes, ms: seq<Market>, home: Option<string>, away: Option<string>): (r: Option<Quotes>)
    ensures r == match H2hOfMarkets(ms) case None => None case Some(os) => Some(ApplyAll(q, os, home, away))
    decreases |ms|
  {
    if ms == [] then Some(q)
    else if Get(ms[0].key) == Some(HeadToHead) then
      var os :- GetList(ms[0].outcomes);
      var r := ScanMarkets(ScanOutcomes(q, os, home, away), ms[1..], home, away);
      if H2hOfMarkets(ms[1..]).Some? then
        ApplyAllAppend(q, os, H2hOfMarkets(ms[1..]).value, home, away);
        r
      else r
    else
      ScanMarkets(q, ms[1..], home, away)
  }

  /** The three nested loops, as written: over all head-to-head outcomes in
      bookmaker, market and outcome order, the price of the last outcome
      naming each team; `None` exactly when the reference meets a `null`
      list. */
  function ScanBookmakers(q: Quotes, bs: seq<Bookmaker>, home: Option<string>, away: Option<string>): (r: Option<Quotes>)
    ensures r == match H2hOutcomes(bs) case None => None case Some(os) => Some(ApplyAll(q, os, home, away))
    decreases |bs|
  {
    if bs == [] then Some(q)
    else
      var ms :- GetList(bs[0].markets);
      var q' :- ScanMarkets(q, ms, home, away);
      var r := ScanBookmakers(q', bs[1..], home, away);
      if H2hOutcomes(bs[1..]).Some? then
        ApplyAllAppend(q, H2hOfMarkets(ms).value, H2hOutcomes(bs[1..]).value, home, away);
        r
      else r
  }

  // ---------------------------------------------------------------------
  // The per-game parse and the loop over games.

  /** One iteration of the game loop: `None` when its body raises (no or
      unparseable `commence_time`, or a `null` list), so the game is
      skipped. A parsed game copies the id and team names; its start time
      denotes the same instant as `commence_time`; each team's odds are the
      last head-to-head quote naming it. */
  function ParseGame(g: Game): (r: Option<OddsRecord>)
    ensures r.None? <==>
      || Get(g.commenceTime).None?
      || ParseZulu(g.commenceTime.value).None?
      || GetList(g.bookmakers).None?
      || H2hOutcomes(GetList(g.bookmakers).value).None?
    ensures r.Some? ==>
      && r.value.gameId == Get(g.id) && r.value.homeTeam == Get(g.homeTeam) && r.value.awayTeam == Get(g.awayTeam)
      && Parse(r.value.startTime) == ParseZulu(g.commenceTime.value)
      && ParseZulu(r.value.startTime) == ParseZulu(g.commenceTime.value)
      && var os := H2hOutcomes(GetList(g.bookmakers).value).value;
         && r.value.homeOdds == LastQuote(os, HomeSide, r.value.homeTeam, r.value.awayTeam, None)
         && r.value.awayOdds == LastQuote(os, AwaySide, r.value.homeTeam, r.value.awayTeam, None)
  {
    var start :- Get(g.commenceTime);
    var t :- ParseZulu(start);
    var home := Get(g.homeTeam);
    var away := Get(g.awayTeam);
    var bs :- GetList(g.bookmakers);
    var q :- ScanBookmakers(Quotes(None, None), bs, home, away);
    ParseFormat(t);
    ParseZuluFormat(t);
    Some(OddsRecord(Get(g.id), Format(t), home, away, q.home, q.away))
  }

  /** The parse loop of `fetch_odds`: games whose body raised are left out,
      the rest keep their order, so there are no more records than games. */
  function FetchOdds(games: seq<Game>): (r: seq<OddsRecord>)
    ensures |r| <= |games|
  {
    KeepSome(games, ParseGame)
  }

  /** With the two team names equal, no outcome sets the away odds. */
  lemma SameTeamsLeaveAwayEmpty(os: seq<Outcome>, team: Option<string>)
    ensures LastQuote(os, AwaySide, team, team, None) == None
  {
  }

  /** The start time is written the way `isoformat()` writes it: a trailing
      `Z` becomes `+00:00`. */
  lemma StartTimeFromZulu(g: Game, body: string)
    requires ParseGame(g).Some?
    requires g.commenceTime == Present(body + "Z") && 'Z' !in body
    ensures ParseGame(g).value.startTime == body + "+00:00"
  {
    var s' := body + "+00:00";
    ReplaceFinalChar(body, 'Z', "+00:00");
    assert ParseZulu(body + "Z") == Parse(s');
    ParseUtcSuffix(body);
    assert s'[19..] == "+00:00";
    FormatParse(s');
  }

  /** A start time already carrying a numeric offset other than `-00:00`
      is kept character for character. */
  lemma StartTimeKept(g: Game)
    requires ParseGame(g).Some?
    requires g.commenceTime.Present? && 'Z' !in g.commenceTime.value
    requires |g.commenceTime.value| < 19 || g.commenceTime.value[19..] != "-00:00"
    ensures ParseGame(g).value.startTime == g.commenceTime.value
  {
    var s := g.commenceTime.value;
    ReplaceCharSpec(s, 'Z', "+00:00");
    NoZuluSuffix(s);
    FormatParse(s);
  }

  lemma NoZuluSuffix(s: string)
    requires 'Z' !in s && |s| >= 19
    ensures s[19..] != "Z"
  {
    if |s| > 19 {
      assert s[19] in s;
    }
  }

  /** Each game is kept or dropped on its own, and the kept ones keep their
      input order. */
  lemma {:induction false} FetchOddsAppend(a: seq<Game>, b: seq<Game>)
    ensures FetchOdds(a + b) == FetchOdds(a) + FetchOdds(b)
  {
    KeepSomeAppend(a, b, ParseGame);
  }

  lemma FetchOddsSingle(g: Game)
    ensures FetchOdds([g]) == match ParseGame(g) case Some(r) => [r] case None => []
  {
    assert [g][1..] == [];
  }

  /** Every record the loop keeps is the parse of some input game, and every
      game that parses is kept. */
  lemma {:induction false} FetchOddsMembers(games: seq<Game>)
    ensures forall x :: x in FetchOdds(games) <==> exists i :: 0 <= i < |games| && ParseGame(games[i]) == Some(x)
  {
    KeepSomeMembers(games, ParseGame);
  }

  /** `commenceTimeTo`: 06:00:00 UTC on the day after today's UTC date,
      written `YYYY-MM-DDTHH:MM:SSZ`; `None` where the day after overflows
      `datetime`. */
  function CommenceTimeTo(today: Date): (r: Option<string>)
    requires ValidDate(today)
    ensures r.None? <==> today == Date(MaxYear, 12, 31)
    ensures r.Some? ==> |r.value| == 20 && r.value[19] == 'Z'
    ensures r.Some? ==> (Parse(r.value).Some? &&
      var t := Parse(r.value).value;
      && t.offset == 0
      && t.local.hour == 6 && t.local.minute == 0 && t.local.second == 0
      && DayNumber(t.local.date) == DayNumber(today) + 1)
  {
    var next :- NextDay(today);
    var c := Civil(next, 6, 0, 0);
    var s := FormatCivil(c, 'T') + "Z";
    CivilRoundTrip(c, 'T');
    assert s[..19] == FormatCivil(c, 'T') && s[19..] == "Z";
    Some(s)
  }
}
