/** The merge of `main.py`: every odds record is paired with every
    prediction, and a pair whose last-word team names agree and whose start
    times share date and hour becomes one merged record. */
module Matcher {
  import opened Wrappers
  import opened Text
  import opened Calendar
  import opened Timestamps
  import opened OddsApi
  import opened GameSim
  import opened Seqs

  /** Why the merge raises: `None.split()` (`AttributeError`), or
      `split()[-1]` of a blank name (`IndexError`). */
  datatype MergeError = MissingName | BlankName

  /** A name `split()[-1]` can be taken of. */
  predicate Splittable(name: Option<string>) {
    name.Some? && !AllSpace(name.value)
  }

  /** Lines 46-49: `name.split()[-1]`, the word that identifies a team. */
  function TeamKey(name: Option<string>): (r: Result<string, MergeError>)
    ensures r.Success? <==> Splittable(name)
    ensures name.None? ==> r == Failure(MissingName)
    ensures name.Some? && r.Failure? ==> r.error == BlankName
    ensures r.Success? ==> IsLastToken(name.value, r.value)
  {
    match name
    case None => Failure(MissingName)
    case Some(n) => LastToken(n).ToResult(BlankName)
  }

  /** A name ending in a word after whitespace (or consisting of that word
      alone) has that word as its key, so `NY Yankees` and `Yankees` agree. */
  lemma TeamKeyOfWords(prefix: string, w: string)
    requires w != [] && NoSpace(w)
    requires prefix == [] || IsSpace(prefix[|prefix| - 1])
    ensures TeamKey(Some(prefix + w)) == Success(w)
  {
    var s := prefix + w;
    assert s[|prefix|..|s|] == w && s[|s|..] == [];
    assert LastTokenAt(s, |prefix|, |s|);
    LastTokenCharacterized(s, w);
  }

  /** Lines 75-85: both times read with `Z` taken as `+00:00`, then the
      date and the hour compared as written; a `ValueError` answers false. */
  function CompareTimes(oddsTime: string, predictionTime: string): (r: bool)
    ensures r ==> ParseZulu(oddsTime).Some? && ParseZulu(predictionTime).Some?
  {
    match (ParseZulu(oddsTime), ParseZulu(predictionTime))
    case (Some(a), Some(b)) => a.local.date == b.local.date && a.local.hour == b.local.hour
    case _ => false
  }

  /** The UTC hour a timestamp falls in, counted from 0001-01-01. */
  function UtcHour(t: Timestamp): int
    requires ValidTimestamp(t)
  {
    UtcMinutes(t) / 60
  }

  /** For two UTC timestamps the comparison is exactly "same UTC hour". */
  lemma CompareTimesUtc(x: string, y: string)
    requires ParseZulu(x).Some? && ParseZulu(x).value.offset == 0
    requires ParseZulu(y).Some? && ParseZulu(y).value.offset == 0
    ensures CompareTimes(x, y) <==> UtcHour(ParseZulu(x).value) == UtcHour(ParseZulu(y).value)
  {
    var a := ParseZulu(x).value;
    var b := ParseZulu(y).value;
    HourOfUtcMinutes(a);
    HourOfUtcMinutes(b);
    DayNumberOrdered(a.local.date, b.local.date);
    HourSlots(DayNumber(a.local.date), a.local.hour, DayNumber(b.local.date), b.local.hour);
  }

  /** Day and hour are recovered from the hour count. */
  lemma HourSlots(d1: int, h1: int, d2: int, h2: int)
    requires 0 <= h1 < 24 && 0 <= h2 < 24
    ensures d1 * 24 + h1 == d2 * 24 + h2 <==> d1 == d2 && h1 == h2
  {
  }

  lemma HourOfUtcMinutes(t: Timestamp)
    requires ValidTimestamp(t) && t.offset == 0
    ensures UtcHour(t) == DayNumber(t.local.date) * 24 + t.local.hour
  {
  }

  /** The comparison reads the wall clock as written: two renderings of the
      same instant, one at UTC-4, do not compare equal. */
  lemma CompareTimesIgnoresOffsets()
    ensures var a := Timestamp(Civil(Date(2024, 5, 1), 23, 10, 0), -240);
      var b := Timestamp(Civil(Date(2024, 5, 2), 3, 10, 0), 0);
      && ValidTimestamp(a) && ValidTimestamp(b)
      && UtcMinutes(a) == UtcMinutes(b)
      && !CompareTimes(Format(a), Format(b))
  {
    var a := Timestamp(Civil(Date(2024, 5, 1), 23, 10, 0), -240);
    var b := Timestamp(Civil(Date(2024, 5, 2), 3, 10, 0), 0);
    ParseZuluFormat(a);
    ParseZuluFormat(b);
    assert NextDay(Date(2024, 5, 1)) == Some(Date(2024, 5, 2));
  }

  /** Every record `fetch_odds` returns has a start time the merge can
      read back, so the reparse on line 58 never raises for them. */
  lemma FetchedTimesReadable(games: seq<Game>)
    ensures forall o :: o in FetchOdds(games) ==> ParseZulu(o.startTime).Some?
  {
    FetchOddsMembers(games);
    forall o | o in FetchOdds(games)
      ensures ParseZulu(o.startTime).Some?
    {
      var i :| 0 <= i < |games| && ParseGame(games[i]) == Some(o);
    }
  }

  /** A prediction's time carries no `Z`, so the comparison reads it as it is. */
  lemma PredictionTimeRead(p: Prediction)
    requires WellFormed(p)
    ensures ParseZulu(p.time) == Parse(p.time)
    ensures ParseZulu(p.time).Some? && ParseZulu(p.time).value.offset == 0
  {
  }

  /** A `commence_time` written in UTC with a trailing `Z` reads as offset 0. */
  lemma ZuluReadsAsUtc(body: string)
    requires 'Z' !in body && ParseZulu(body + "Z").Some?
    ensures ParseZulu(body + "Z").value.offset == 0
  {
    ReplaceFinalChar(body, 'Z', "+00:00");
    var s := body + "+00:00";
    assert ParseZulu(body + "Z") == Parse(s);
    ParseUtcSuffix(body);
  }

  /** End to end: for a game the Odds API dates in UTC (`...Z`) and a
      well-formed prediction, the merge's time test is "same UTC hour". */
  lemma FetchedPairCompare(g: Game, body: string, p: Prediction)
    requires ParseGame(g).Some? && g.commenceTime == Present(body + "Z") && 'Z' !in body
    requires WellFormed(p)
    ensures ParseZulu(g.commenceTime.value).Some? && Parse(p.time).Some?
    ensures CompareTimes(ParseGame(g).value.startTime, p.time)
        <==> UtcHour(ParseZulu(g.commenceTime.value).value) == UtcHour(Parse(p.time).value)
  {
    ZuluReadsAsUtc(body);
    PredictionTimeRead(p);
    CompareTimesUtc(ParseGame(g).value.startTime, p.time);
  }

  /** One merged row (lines 63-72): identifiers, names and odds from the
      odds record, the start time in local time, the percentages from the
      prediction. */
  datatype MergedRecord = MergedRecord(
    gameId: Option<string>,
    startTime: string,
    homeTeam: string,
    awayTeam: string,
    homeOdds: Option<int>,
    awayOdds: Option<int>,
    homeWinPct: Option<real>,
    awayWinPct: Option<real>)

  /** The odds record and the prediction describe the same game: each side's
      name has the same last word on both, and the start times agree on
      date and hour. */
  ghost predicate SameGame(o: OddsRecord, p: Prediction) {
    && o.homeTeam.Some? && o.awayTeam.Some? && p.homeTeam.Some? && p.awayTeam.Some?
    && (exists w :: IsLastToken(o.homeTeam.value, w) && IsLastToken(p.homeTeam.value, w))
    && (exists w :: IsLastToken(o.awayTeam.value, w) && IsLastToken(p.awayTeam.value, w))
    && CompareTimes(o.startTime, p.time)
  }

  /** Both names of a record or a prediction can be split. */
  predicate OddsSplittable(o: OddsRecord) {
    Splittable(o.homeTeam) && Splittable(o.awayTeam)
  }

  predicate PredictionSplittable(p: Prediction) {
    Splittable(p.homeTeam) && Splittable(p.awayTeam)
  }

  /** Lines 46-56 for one pair. The four keys are taken in the order the
      source takes them, each before the comparison, so any unsplittable
      name raises whatever the other fields hold. */
  function PairMatches(o: OddsRecord, p: Prediction): (r: Result<bool, MergeError>)
    ensures r.Failure? <==> !OddsSplittable(o) || !PredictionSplittable(p)
    ensures r.Success? ==> (r.value <==> SameGame(o, p))
  {
    var oddsHome :- TeamKey(o.homeTeam);
    var oddsAway :- TeamKey(o.awayTeam);
    var predictionHome :- TeamKey(p.homeTeam);
    var predictionAway :- TeamKey(p.awayTeam);
    KeysAgree(o.homeTeam.value, p.homeTeam.value, oddsHome, predictionHome);
    KeysAgree(o.awayTeam.value, p.awayTeam.value, oddsAway, predictionAway);
    Success(oddsHome == predictionHome && oddsAway == predictionAway && CompareTimes(o.startTime, p.time))
  }

  /** Two names have equal keys exactly when they share a last token. */
  lemma KeysAgree(a: string, b: string, ka: string, kb: string)
    requires IsLastToken(a, ka) && IsLastToken(b, kb)
    ensures ka == kb <==> exists w :: IsLastToken(a, w) && IsLastToken(b, w)
  {
    LastTokenCharacterized(a, ka);
    LastTokenCharacterized(b, kb);
    if exists w :: IsLastToken(a, w) && IsLastToken(b, w) {
      var w :| IsLastToken(a, w) && IsLastToken(b, w);
      LastTokenCharacterized(a, w);
      LastTokenCharacterized(b, w);
    }
  }

  /** Lines 58-72: the merged record of a matching pair. `toLocal` is
      `astimezone` into the program's local zone, which comes from outside
      the model; the start time is `strftime("%Y-%m-%d %H:%M:%S")` of it. */
  function Combine(o: OddsRecord, p: Prediction, toLocal: ValidStamp -> LocalDateTime): (m: MergedRecord)
    requires o.homeTeam.Some? && o.awayTeam.Some? && ParseZulu(o.startTime).Some?
    ensures ParseCivil(m.startTime, ' ') == Some(toLocal(ParseZulu(o.startTime).value))
    ensures m.gameId == o.gameId && m.homeOdds == o.homeOdds && m.awayOdds == o.awayOdds
    ensures Some(m.homeTeam) == o.homeTeam && Some(m.awayTeam) == o.awayTeam
    ensures m.homeWinPct == p.homeWinPct && m.awayWinPct == p.awayWinPct
  {
    var local := toLocal(ParseZulu(o.startTime).value);
    CivilRoundTrip(local, ' ');
    MergedRecord(o.gameId, FormatCivil(local, ' '), o.homeTeam.value, o.awayTeam.value,
                 o.homeOdds, o.awayOdds, p.homeWinPct, p.awayWinPct)
  }

  /** The inner loop (lines 44-72) for one odds record. */
  function MergeRow(o: OddsRecord, preds: seq<Prediction>, toLocal: ValidStamp -> LocalDateTime)
    : (r: Result<seq<MergedRecord>, MergeError>)
    ensures r.Failure? <==>
      preds != [] && (!OddsSplittable(o) || exists j :: 0 <= j < |preds| && !PredictionSplittable(preds[j]))
    decreases |preds|
  {
    if preds == [] then Success([])
    else
      var matched :- PairMatches(o, preds[0]);
      var rest :- MergeRow(o, preds[1..], toLocal);
      SomeShift(preds, p => !PredictionSplittable(p));
      Success((if matched then [Combine(o, preds[0], toLocal)] else []) + rest)
  }

  /** `merge_odds_and_predictions` (lines 38-73): the odds records in
      order, each merged with every prediction in order. The first name that
      cannot be split aborts the whole merge, so it raises exactly when both
      lists are non-empty and some name in either list has no last word. */
  function Merge(odds: seq<OddsRecord>, preds: seq<Prediction>, toLocal: ValidStamp -> LocalDateTime)
    : (r: Result<seq<MergedRecord>, MergeError>)
    ensures r.Failure? <==>
      && odds != [] && preds != []
      && ((exists i :: 0 <= i < |odds| && !OddsSplittable(odds[i]))
          || (exists j :: 0 <= j < |preds| && !PredictionSplittable(preds[j])))
  {
    RowsFail(odds, preds, toLocal);
    ConcatAll(odds, o => MergeRow(o, preds, toLocal))
  }

  /** Some inner loop raises exactly when both lists are non-empty and some
      name in either list has no last word. */
  lemma RowsFail(odds: seq<OddsRecord>, preds: seq<Prediction>, toLocal: ValidStamp -> LocalDateTime)
    ensures (exists i :: 0 <= i < |odds| && MergeRow(odds[i], preds, toLocal).Failure?) <==>
      && odds != [] && preds != []
      && ((exists i :: 0 <= i < |odds| && !OddsSplittable(odds[i]))
          || (exists j :: 0 <= j < |preds| && !PredictionSplittable(preds[j])))
  {
    if odds != [] && preds != [] && exists j :: 0 <= j < |preds| && !PredictionSplittable(preds[j]) {
      assert MergeRow(odds[0], preds, toLocal).Failure?;
    }
  }

  /** The merge of one odds record is its inner loop. */
  lemma MergeSingle(o: OddsRecord, preds: seq<Prediction>, toLocal: ValidStamp -> LocalDateTime)
    ensures Merge([o], preds, toLocal) == MergeRow(o, preds, toLocal)
  {
    ConcatAllSingle(o, o => MergeRow(o, preds, toLocal));
  }

  /** The outer loop treats the odds records one after another: the merge
      of a concatenation succeeds exactly when the merges of both parts do,
      and then it is their concatenation. */
  lemma {:induction false} MergeAppend(a: seq<OddsRecord>, b: seq<OddsRecord>, preds: seq<Prediction>,
                                       toLocal: ValidStamp -> LocalDateTime)
    ensures Merge(a + b, preds, toLocal).Success? <==> Merge(a, preds, toLocal).Success? && Merge(b, preds, toLocal).Success?
    ensures Merge(a + b, preds, toLocal).Success? ==>
      Merge(a + b, preds, toLocal).value == Merge(a, preds, toLocal).value + Merge(b, preds, toLocal).value
  {
    ConcatAllAppend(a, b, o => MergeRow(o, preds, toLocal));
  }

  /** `js` lists, in increasing order, exactly the predictions matching
      `o`, and `out` holds their merged records in that order. */
  ghost predicate RowIndexing(o: OddsRecord, preds: seq<Prediction>, toLocal: ValidStamp -> LocalDateTime,
                              out: seq<MergedRecord>, js: seq<int>) {
    && |js| == |out|
    && RowEntries(o, preds, toLocal, out, js)
    && Increasing(js)
    && RowComplete(o, preds, js)
  }

  /** Entry `k` of `out` is the merged record of prediction `js[k]`, a match. */
  ghost predicate RowEntries(o: OddsRecord, preds: seq<Prediction>, toLocal: ValidStamp -> LocalDateTime,
                             out: seq<MergedRecord>, js: seq<int>)
    requires |js| == |out|
  {
    forall k :: 0 <= k < |js| ==>
      0 <= js[k] < |preds| && SameGame(o, preds[js[k]]) && out[k] == Combine(o, preds[js[k]], toLocal)
  }

  /** Every matching prediction is listed in `js`. */
  ghost predicate RowComplete(o: OddsRecord, preds: seq<Prediction>, js: seq<int>) {
    forall j :: 0 <= j < |preds| && SameGame(o, preds[j]) ==> j in js
  }

  predicate Increasing(js: seq<int>) {
    forall k, l :: 0 <= k < l < |js| ==> js[k] < js[l]
  }

  /** Shifting natural indices by one keeps them increasing and leaves
      room for index 0 in front. */
  lemma ShiftIncreasing(js: seq<int>, js': seq<int>)
    requires Increasing(js) && Shifted(js, js') && forall k :: 0 <= k < |js| ==> js[k] >= 0
    ensures Increasing(js') && Increasing([0] + js')
  {
    var idx := [0] + js';
    forall k, l | 0 <= k < l < |idx| ensures idx[k] < idx[l] {
      assert idx[l] == js[l - 1] + 1;
      if k > 0 {
        assert idx[k] == js[k - 1] + 1;
      }
    }
  }

  /** `js` shifted by one: the indices of the same predictions once one
      more stands in front. */
  predicate Shifted(js: seq<int>, js': seq<int>) {
    |js'| == |js| && forall k :: 0 <= k < |js| ==> js'[k] == js[k] + 1
  }

  /** A non-matching prediction in front shifts the indices and adds no
      record. */
  lemma RowIndexingSkip(o: OddsRecord, p: Prediction, preds: seq<Prediction>, toLocal: ValidStamp -> LocalDateTime,
                        out: seq<MergedRecord>, js: seq<int>, js': seq<int>)
    requires RowIndexing(o, preds, toLocal, out, js) && Shifted(js, js') && !SameGame(o, p)
    ensures RowIndexing(o, [p] + preds, toLocal, out, js')
  {
    ShiftIncreasing(js, js');
    ShiftEntries(o, p, preds, toLocal, out, js, js');
    SkipComplete(o, p, preds, js, js');
  }

  lemma ShiftEntries(o: OddsRecord, p: Prediction, preds: seq<Prediction>, toLocal: ValidStamp -> LocalDateTime,
                     out: seq<MergedRecord>, js: seq<int>, js': seq<int>)
    requires |js| == |out| && RowEntries(o, preds, toLocal, out, js) && Shifted(js, js')
    ensures RowEntries(o, [p] + preds, toLocal, out, js')
  {
    var ps := [p] + preds;
    forall k | 0 <= k < |js'|
      ensures 0 <= js'[k] < |ps| && SameGame(o, ps[js'[k]]) && out[k] == Combine(o, ps[js'[k]], toLocal)
    {
      assert ps[js'[k]] == preds[js[k]];
    }
  }

  lemma SkipComplete(o: OddsRecord, p: Prediction, preds: seq<Prediction>, js: seq<int>, js': seq<int>)
    requires RowComplete(o, preds, js) && Shifted(js, js') && !SameGame(o, p)
    ensures RowComplete(o, [p] + preds, js')
  {
    var ps := [p] + preds;
    forall j | 0 <= j < |ps| && SameGame(o, ps[j]) ensures j in js' {
      assert j != 0;
      assert ps[j] == preds[j - 1];
      var k :| 0 <= k < |js| && js[k] == j - 1;
      assert js'[k] == j;
    }
  }

  /** A matching prediction in front shifts the indices and adds its
      record first. */
  lemma RowIndexingTake(o: OddsRecord, p: Prediction, preds: seq<Prediction>, toLocal: ValidStamp -> LocalDateTime,
                        out: seq<MergedRecord>, js: seq<int>, js': seq<int>)
    requires RowIndexing(o, preds, toLocal, out, js) && Shifted(js, js') && SameGame(o, p)
    ensures RowIndexing(o, [p] + preds, toLocal, [Combine(o, p, toLocal)] + out, [0] + js')
  {
    ShiftIncreasing(js, js');
    ShiftEntries(o, p, preds, toLocal, out, js, js');
    TakeEntries(o, p, preds, toLocal, out, js');
    TakeComplete(o, p, preds, js, js');
  }

  lemma TakeEntries(o: OddsRecord, p: Prediction, preds: seq<Prediction>, toLocal: ValidStamp -> LocalDateTime,
                    out: seq<MergedRecord>, js': seq<int>)
    requires |js'| == |out| && RowEntries(o, [p] + preds, toLocal, out, js') && SameGame(o, p)
    ensures RowEntries(o, [p] + preds, toLocal, [Combine(o, p, toLocal)] + out, [0] + js')
  {
    var ps := [p] + preds;
    var out' := [Combine(o, p, toLocal)] + out;
    var idx := [0] + js';
    forall k | 0 <= k < |idx|
      ensures 0 <= idx[k] < |ps| && SameGame(o, ps[idx[k]]) && out'[k] == Combine(o, ps[idx[k]], toLocal)
    {
      if k > 0 {
        assert idx[k] == js'[k - 1] && out'[k] == out[k - 1];
      }
    }
  }

  lemma TakeComplete(o: OddsRecord, p: Prediction, preds: seq<Prediction>, js: seq<int>, js': seq<int>)
    requires RowComplete(o, preds, js) && Shifted(js, js')
    ensures RowComplete(o, [p] + preds, [0] + js')
  {
    var ps := [p] + preds;
    var idx := [0] + js';
    forall j | 0 <= j < |ps| && SameGame(o, ps[j]) ensures j in idx {
      if j > 0 {
        assert ps[j] == preds[j - 1];
        var k :| 0 <= k < |js| && js[k] == j - 1;
        assert idx[k + 1] == j;
      }
    }
  }

  /** The records merged for one odds record are those of the matching
      predictions, each once, in prediction order. */
  lemma {:induction false} MergeRowIndexed(o: OddsRecord, preds: seq<Prediction>, toLocal: ValidStamp -> LocalDateTime)
    requires MergeRow(o, preds, toLocal).Success?
    ensures exists js :: RowIndexing(o, preds, toLocal, MergeRow(o, preds, toLocal).value, js)
    decreases |preds|
  {
    if preds == [] {
      assert RowIndexing(o, preds, toLocal, [], []);
    } else {
      var p := preds[0];
      var tail := preds[1..];
      assert preds == [p] + tail;
      MergeRowCons(o, p, tail, toLocal);
      MergeRowIndexed(o, tail, toLocal);
      var js :| RowIndexing(o, tail, toLocal, MergeRow(o, tail, toLocal).value, js);
      var js' := MergeRowIndexedStep(o, p, tail, toLocal, js);
    }
  }

  /** The indices after one more prediction in front. */
  function Shift(js: seq<int>): (r: seq<int>)
    ensures Shifted(js, r)
  {
    seq(|js|, k requires 0 <= k < |js| => js[k] + 1)
  }

  lemma MergeRowIndexedStep(o: OddsRecord, p: Prediction, tail: seq<Prediction>, toLocal: ValidStamp -> LocalDateTime,
                            js: seq<int>) returns (js': seq<int>)
    requires MergeRow(o, [p] + tail, toLocal).Success? && MergeRow(o, tail, toLocal).Success?
    requires RowIndexing(o, tail, toLocal, MergeRow(o, tail, toLocal).value, js)
    ensures RowIndexing(o, [p] + tail, toLocal, MergeRow(o, [p] + tail, toLocal).value, js')
  {
    MergeRowCons(o, p, tail, toLocal);
    if SameGame(o, p) {
      RowIndexingTake(o, p, tail, toLocal, MergeRow(o, tail, toLocal).value, js, Shift(js));
      js' := [0] + Shift(js);
    } else {
      RowIndexingSkip(o, p, tail, toLocal, MergeRow(o, tail, toLocal).value, js, Shift(js));
      js' := Shift(js);
    }
  }

  /** `m` is the merged record of `o` with some prediction of the same game. */
  ghost predicate RowPair(o: OddsRecord, preds: seq<Prediction>, toLocal: ValidStamp -> LocalDateTime, m: MergedRecord) {
    exists j :: 0 <= j < |preds| && SameGame(o, preds[j]) && m == Combine(o, preds[j], toLocal)
  }

  /** `m` is the merged record of some pair describing the same game. */
  ghost predicate SomePair(odds: seq<OddsRecord>, preds: seq<Prediction>, toLocal: ValidStamp -> LocalDateTime,
                           m: MergedRecord) {
    exists i :: 0 <= i < |odds| && RowPair(odds[i], preds, toLocal, m)
  }

  /** A merged record comes out of the inner loop for `o` exactly when
      some prediction describes the same game. */
  lemma MergeRowMembers(o: OddsRecord, preds: seq<Prediction>, toLocal: ValidStamp -> LocalDateTime, m: MergedRecord)
    requires MergeRow(o, preds, toLocal).Success?
    ensures m in MergeRow(o, preds, toLocal).value <==> RowPair(o, preds, toLocal, m)
  {
    MergeRowIndexed(o, preds, toLocal);
    var out := MergeRow(o, preds, toLocal).value;
    var js :| RowIndexing(o, preds, toLocal, out, js);
    if m in out {
      var k :| 0 <= k < |out| && out[k] == m;
      assert SameGame(o, preds[js[k]]);
    }
    if RowPair(o, preds, toLocal, m) {
      var j :| 0 <= j < |preds| && SameGame(o, preds[j]) && m == Combine(o, preds[j], toLocal);
      assert j in js;
      var k :| 0 <= k < |js| && js[k] == j;
      assert out[k] == m;
    }
  }

  lemma SomePairCons(odds: seq<OddsRecord>, preds: seq<Prediction>, toLocal: ValidStamp -> LocalDateTime, m: MergedRecord)
    requires odds != []
    ensures SomePair(odds, preds, toLocal, m) <==> RowPair(odds[0], preds, toLocal, m) || SomePair(odds[1..], preds, toLocal, m)
  {
    if SomePair(odds, preds, toLocal, m) {
      var i :| 0 <= i < |odds| && RowPair(odds[i], preds, toLocal, m);
      if i > 0 {
        assert odds[1..][i - 1] == odds[i];
      }
    }
    if SomePair(odds[1..], preds, toLocal, m) {
      var i :| 0 <= i < |odds[1..]| && RowPair(odds[1..][i], preds, toLocal, m);
      assert odds[i + 1] == odds[1..][i];
    }
  }

  /** The merge's output holds exactly the merged records of the pairs
      (odds record, prediction) that describe the same game. */
  lemma {:induction false} MergeMembers(odds: seq<OddsRecord>, preds: seq<Prediction>, toLocal: ValidStamp -> LocalDateTime,
                                         m: MergedRecord)
    requires Merge(odds, preds, toLocal).Success?
    ensures m in Merge(odds, preds, toLocal).value <==> SomePair(odds, preds, toLocal, m)
    decreases |odds|
  {
    if odds != [] {
      MergeRowMembers(odds[0], preds, toLocal, m);
      MergeMembers(odds[1..], preds, toLocal, m);
      SomePairCons(odds, preds, toLocal, m);
    }
  }

  /** One step of the inner loop. */
  lemma MergeRowCons(o: OddsRecord, p: Prediction, preds: seq<Prediction>, toLocal: ValidStamp -> LocalDateTime)
    requires MergeRow(o, [p] + preds, toLocal).Success?
    ensures MergeRow(o, preds, toLocal).Success?
    ensures SameGame(o, p) ==>
      MergeRow(o, [p] + preds, toLocal).value == [Combine(o, p, toLocal)] + MergeRow(o, preds, toLocal).value
    ensures !SameGame(o, p) ==> MergeRow(o, [p] + preds, toLocal).value == MergeRow(o, preds, toLocal).value
  {
    assert ([p] + preds)[1..] == preds;
  }
}
