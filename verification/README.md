# evpython core, modelled in Dafny

evpython builds a daily sheet of baseball games. For each game the sheet shows
the moneyline odds next to a simulator's win probabilities. The pure core of
that pipeline is modelled here, in four steps:

- **Odds client** (`api_client.py`, module `OddsApi`). This step turns the
  odds service's JSON list of games into flat odds records. The fields are
  read with `dict.get`. `commence_time` is parsed with its `Z` rewritten to
  `+00:00` and re-serialised with `isoformat()`. The last head-to-head
  outcome that names each team supplies that team's price. A game whose
  parse raises is skipped. This step also builds the `commenceTimeTo` query
  value: 06:00 UTC on the next day.
- **Game-simulator scraper** (`mlb_game_sim_client.py`, module `GameSim`).
  This step turns the text cells of the predictions table into predictions:
  - the matchup regex gives the away and home teams;
  - a bare hour such as `7 PM` is padded to `7:00 PM`, and the result is
    read with `%I:%M %p` on today's date and converted to UTC;
  - the predicted outcome gives the winner (`(.+?) win`) and the
    percentage (`(\d+(\.\d+)?)%`);
  - the percentage is then split between the two teams.

  Rows with fewer than three cells are skipped. Any other error aborts the
  whole fetch.
- **Merge** (`main.py`, module `Matcher`). This step pairs every odds record
  with every prediction whose last-word team names agree and whose start
  time falls in the same date and hour. For each pair it emits a merged
  record, with the odds start time converted to local time.
- **Sheet layout** (`spreadsheet_client.py`, module `Sheet`). Each merged
  game becomes an away row and a home row of five cells. The rows are
  written to `A16:E{16 + rows - 1}`, after the worksheet has grown by
  enough rows to hold them.

Supporting modules:

- `Wrappers`: the `Option` and `Result` types.
- `Seqs`: index shifts between a sequence and its tail, and the two loop
  shapes the programs use: keeping the results of the iterations that did
  not raise, and concatenating results until the first one that raises.
- `Text`: Python's `str.strip`, `split()[-1]`, `str.replace`, and decimal
  digits.
- `Calendar`: proleptic Gregorian dates within `datetime`'s year range.
- `Timestamps`: the ISO 8601 text that `isoformat` writes and
  `fromisoformat` reads, limited to the `YYYY-MM-DDTHH:MM:SS±HH:MM` and
  `…Z` shapes these programs exchange.

Time zones and the clock are parameters:

- the `America/New_York` conversions are the functions `toUtc` and
  `toLocal`;
- today's date is the `today` argument.

## Model

| member | source | states |
|---|---|---|
| Text.Strip | mlb_game_sim_client.py:32-33 | The result is a slice of the input, surrounded only by whitespace, that neither starts nor ends with whitespace. |
| Text.LastToken | main.py:46-49 | `split()[-1]` is defined exactly when the name is not all whitespace, and it is then the maximal run of non-space characters at the end of the name, once trailing whitespace is dropped. |
| Text.LastTokenCharacterized | main.py:46-49 | The last-token function and the declarative last-token predicate agree on every string, in both directions. |
| Text.ReplaceCharSpec | main.py:79-80 | Replacing a character that does not occur leaves the text unchanged. If the replacement does not contain the character, none is left afterwards. |
| Text.ReplaceAll | mlb_game_sim_client.py:43 | `str.replace` leaves text without an occurrence of the pattern unchanged. ReplaceCharSpec, ReplaceOnce and ReplaceFinalChar say what it does where the pattern occurs. |
| Text.ReplaceFinalChar | api_client.py:66 | Replacing the only `Z`, at the end of the text, swaps exactly that character for the replacement. |
| Text.ReplaceOnce | mlb_game_sim_client.py:43 | A pattern that occurs at exactly one position is replaced there and nowhere else. |
| Text.PadRoundTrip | main.py:60 | A number written zero-padded to a width it fits in reads back as the same number. |
| Text.NatToString | spreadsheet_client.py:69 | `str(n)` is non-empty and all digits, has no leading zero, and its decimal value is `n`. |
| Calendar.DayNumberOrdered | main.py:83 | Day numbers follow calendar order, and two valid dates have equal day numbers exactly when they are the same date. |
| Calendar.NextDay | api_client.py:36 | `+ timedelta(days=1)` fails only on 31 December of the last year `datetime` can hold. Otherwise it gives a valid date whose day number is one more. |
| Timestamps.CivilRoundTrip | main.py:60 | A date-time written as `%Y-%m-%d %H:%M:%S` (or with `T`) reads back as the same date-time. |
| Timestamps.CivilCanonical | main.py:60 | Text that reads as a date-time is exactly what writing that date-time produces. |
| Timestamps.Format | api_client.py:84 | `isoformat()` of a valid timestamp is always 25 characters: `YYYY-MM-DDTHH:MM:SS` and `±HH:MM`. ParseFormat shows that Parse reads it back. |
| Timestamps.Parse | api_client.py:66 | What `fromisoformat` accepts is a valid timestamp. Its text is a 19-character date-time followed by `Z` or by a 6-character offset. FormatParse shows that writing it back changes at most that suffix. |
| Timestamps.ParseZulu | main.py:79-80 | The `Z`-rewriting read gives only valid timestamps, and on text without `Z` it is plain `fromisoformat`. |
| Timestamps.OffsetRoundTrip | api_client.py:84 | Every offset of less than a day, written as `±HH:MM`, reads back as the same number of minutes. |
| Timestamps.OffsetCanonical | api_client.py:66-84 | Re-serialising a parsed offset gives back the same text. The exceptions are `Z` and `-00:00`, which both become `+00:00`. |
| Timestamps.ParseFormat | api_client.py:84 | What `isoformat()` writes, `fromisoformat` reads back as the same timestamp. |
| Timestamps.FormatParse | api_client.py:66-84 | Writing a parsed timestamp back changes nothing in the text except a `Z` or `-00:00` suffix, which becomes `+00:00`. |
| Timestamps.FormatHasNoZulu | mlb_game_sim_client.py:74 | `isoformat()` output never contains `Z`, so the later `replace("Z", …)` leaves it alone. |
| Timestamps.ParseZuluFormat | main.py:79-80 | Reading `isoformat()` output after rewriting `Z` gives back the timestamp that was written. |
| Timestamps.ParseUtcSuffix | main.py:79 | Text ending in `+00:00` that parses has a 19-character date-time body and offset zero. |
| OddsApi.Get | api_client.py:60-63 | `dict.get` gives a value exactly when the key is present with a non-null value. |
| OddsApi.GetList | api_client.py:71-74 | `get(key, [])` is absent only for an explicit `null`. A missing key gives the empty list, and a present list is returned as it is. |
| OddsApi.LastQuote | api_client.py:75-79 | The reference definition. With no outcome for the side, the fallback is kept. Otherwise the price of the last outcome for that side wins. |
| OddsApi.LastQuoteAppend | api_client.py:75-79 | The last quote over two concatenated outcome lists is the last quote over the second list, falling back to the first list. |
| OddsApi.ScanOutcomes | api_client.py:75-79 | The `if home / elif away` loop over outcomes computes the reference "last outcome naming each side" for both sides at once. |
| OddsApi.ScanMarkets | api_client.py:72-79 | The market loop equals the reference applied to the concatenated outcomes of the `h2h` markets. It fails exactly when one of those markets has a `null` outcome list. |
| OddsApi.ScanBookmakers | api_client.py:71-79 | The bookmaker loop equals the reference over all head-to-head outcomes of all bookmakers, in order. It fails exactly when a `null` list is met on the way. |
| OddsApi.OtherMarketsIgnored | api_client.py:73 | Inserting a market whose key is not `h2h` does not change the head-to-head outcomes. |
| OddsApi.ParseGame | api_client.py:58-92 | A game is skipped exactly when `commence_time` is missing or unreadable, or when a `null` list is met on the way to the outcomes. A parsed game copies the id and team names. Its start time denotes the same instant as `commence_time`, and each team's odds are the last head-to-head quote naming it. |
| OddsApi.SameTeamsLeaveAwayEmpty | api_client.py:76-79 | When home and away carry the same name, the `elif` never sets the away odds. |
| OddsApi.StartTimeFromZulu | api_client.py:66-84 | A `…Z` start time comes back as the same text with `+00:00` in place of the `Z`. |
| OddsApi.StartTimeKept | api_client.py:66-84 | Any other readable start time, except one ending in `-00:00`, comes back unchanged. |
| OddsApi.FetchOddsAppend | api_client.py:57-94 | The parse loop treats games independently: parsing two lists one after the other is the concatenation of their results. |
| OddsApi.FetchOddsSingle | api_client.py:58-92 | A single game gives its parsed record, or nothing when its parse raises. |
| OddsApi.FetchOdds | api_client.py:57-94 | The loop gives at most one record per game. |
| OddsApi.FetchOddsMembers | api_client.py:57-94 | A record is in the output exactly when some game parses to it. |
| OddsApi.CommenceTimeTo | api_client.py:36-42 | The query value is 20 characters and ends in `Z`. It reads as 06:00:00 UTC on the day after `today`, and it is missing only when that day does not exist. |
| GameSim.Matchup | mlb_game_sim_client.py:30-36 | Both teams are present or neither is. They are missing exactly when the regex matches nowhere. Otherwise they are the stripped groups of the leftmost, greedy match. |
| GameSim.LeftmostGreedyUnique | mlb_game_sim_client.py:30 | The leftmost-greedy match of the matchup regex is unique. |
| GameSim.MatchupOfCell | mlb_game_sim_client.py:30-33 | A cell laid out as `\xa0away @ home \xa0` yields those two teams, stripped. |
| GameSim.NoMatchupWithoutNbsp | mlb_game_sim_client.py:30-36 | A cell without a no-break space yields no teams. |
| GameSim.PadHour | mlb_game_sim_client.py:41-43 | Text that is not a bare hour is kept. A bare `H AM`/`HH PM` gets `:00` inserted just before the space and nothing else changes. |
| GameSim.PadHourInserts | mlb_game_sim_client.py:42-43 | For a bare hour, the two chained `replace` calls together insert `:00` just before the space, whichever of `AM` and `PM` it ends in. |
| GameSim.ParseClock12 | mlb_game_sim_client.py:48 | `%I:%M %p` succeeds exactly on text of that shape, and the clock it gives is valid. Its minute is the value of the minute digits. Its hour agrees with the hour digits modulo 12, and it is 12 or more exactly when the marker is `PM`; on the 24-hour clock these two facts fix the hour. |
| GameSim.ClockExample | mlb_game_sim_client.py:39-48 | The source's example `1:35 PM` reads as 13:35. |
| GameSim.PaddedClockExample | mlb_game_sim_client.py:39-48 | The source's example `7 PM` is padded and then reads as 19:00. |
| GameSim.ClockRoundTrip | mlb_game_sim_client.py:48 | Every valid clock, written in 12-hour form, parses back to itself. |
| GameSim.HourText12Value | mlb_game_sim_client.py:48 | A one- or two-digit hour is accepted by `%I` exactly when its value is between 1 and 12. |
| GameSim.PaddedHourClock | mlb_game_sim_client.py:39-48 | A bare hour parses after padding exactly when it is 1 to 12, and it then gives that hour on the 24-hour clock with minute 0. |
| GameSim.StartClock | mlb_game_sim_client.py:39-48 | The time cell gives only valid clocks. A stripped bare hour `H AM`/`HH PM` reads as that hour on the 24-hour clock with minute 0 when it is 1 to 12, and fails otherwise. Any other stripped cell is read by `%I:%M %p` as it stands. |
| GameSim.WinningTeam | mlb_game_sim_client.py:56-57 | There is no winner exactly when ` win` never follows a non-empty, newline-free start of the outcome. Otherwise the winner is the stripped text before the first such occurrence. |
| GameSim.WinningTeamOf | mlb_game_sim_client.py:56-57 | An outcome written `<team> win…`, where the team contains no ` win`, names that team, stripped. |
| GameSim.DecimalValue | mlb_game_sim_client.py:60 | `float` of a decimal is its digits, without the point, divided by ten to the number of digits after the point. It lies between its whole part and the next integer. |
| GameSim.DecimalExamples | mlb_game_sim_client.py:60 | `62.5` reads as 62.5 and `7` as 7. |
| GameSim.WinPercentage | mlb_game_sim_client.py:59-60 | There is no percentage exactly when no decimal is followed by `%`. Otherwise it is the value of the first one. |
| GameSim.WinPercentageOf | mlb_game_sim_client.py:59-60 | After a prefix without digits, the decimal before the first `%` is the percentage. |
| GameSim.Complement | mlb_game_sim_client.py:65 | `100 - p if p else None` is present exactly for a non-zero percentage, and it then adds up with `p` to 100. |
| GameSim.SplitWinPct | mlb_game_sim_client.py:62-71 | The winner's side gets the percentage, with home checked first. The other side gets `100 - p if p else None`, so it is `None` when the percentage is missing or zero. With no matching side both are `None`. Two present values always sum to 100. |
| GameSim.UnmatchedRowQuirk | mlb_game_sim_client.py:63-65 | A row with no matchup and no winner still gets percentages, because `None == None` selects the home branch. |
| GameSim.RowPrediction | mlb_game_sim_client.py:46-79 | A row's time is the `isoformat()` text of the UTC reading of the row's clock on today's local date: 25 characters ending in `+00:00`, which parses back to that instant. Its teams are the matchup, and its percentages are the split of the outcome's winner and percentage. |
| GameSim.PredictRow | mlb_game_sim_client.py:27-79 | A short row is skipped. A wide row fails exactly when its time does not parse, and otherwise gives a well-formed prediction. |
| GameSim.WideRows | mlb_game_sim_client.py:28 | The rows kept are exactly the rows of at least three cells, and there are no more of them than rows. |
| GameSim.WideRowsAppend | mlb_game_sim_client.py:26-28 | Each row is kept or dropped on its own, and the kept rows keep their order. |
| GameSim.PredictRows | mlb_game_sim_client.py:26-81 | Every prediction returned is well-formed, and there is exactly one per wide row, so at most one per row. |
| GameSim.FetchPredictions | mlb_game_sim_client.py:24-83 | The header row is dropped before the rows are read: a table with no rows gives no predictions, the fetch fails exactly when some wide row after the header has an unreadable time, and on success the predictions are, in order, the results of the wide rows after the header. Every prediction is well-formed. |
| GameSim.PredictRowsFailure | mlb_game_sim_client.py:26-83 | The fetch fails exactly when some wide row's time does not parse, and the error is the one for the first such row. |
| GameSim.PredictRowsOutput | mlb_game_sim_client.py:26-79 | On success the predictions are, in order, exactly the results of the wide rows. |
| Matcher.TeamKey | main.py:46-49 | The key exists exactly for a present, non-blank name, and it is then the name's last word. `None` raises the missing-name error and a blank name the blank-name error. |
| Matcher.TeamKeyOfWords | main.py:46-49 | Any prefix that ends in whitespace does not change the key of a final word. |
| Matcher.CompareTimes | main.py:75-85 | A match needs both times to be readable, because a `ValueError` gives `False`. |
| Matcher.CompareTimesUtc | main.py:75-83 | For two UTC times, the comparison holds exactly when they fall in the same UTC hour of the same day. |
| Matcher.CompareTimesIgnoresOffsets | main.py:83 | The same instant, written with two different offsets, does not match, because the date and hour are compared as written. |
| Matcher.FetchedTimesReadable | main.py:55-58 | Every start time the odds client produces can be read by the comparison and by the merge. |
| Matcher.PredictionTimeRead | main.py:80 | A prediction's time reads the same with or without the `Z` rewrite, and it has offset zero. |
| Matcher.ZuluReadsAsUtc | main.py:79 | A readable `…Z` time has offset zero. |
| Matcher.FetchedPairCompare | main.py:75-83 | A game fetched with a `…Z` start time and a scraped prediction are compared on their UTC date and hour. |
| Matcher.PairMatches | main.py:46-56 | The test raises exactly when one of the four names has no last word. Otherwise it holds exactly when both keys agree and the times match. |
| Matcher.KeysAgree | main.py:53-54 | Two keys are equal exactly when the names share their last word. |
| Matcher.Combine | main.py:58-72 | The merged record copies the id, teams and odds from the odds record and the percentages from the prediction. Its start time reads back as the local time of the odds start time. |
| Matcher.MergeRow | main.py:44-56 | The inner loop raises exactly when there are predictions and the odds record or some prediction has a name without a last word. |
| Matcher.MergeRowMembers | main.py:44-72 | A record comes from one odds record exactly when it combines that record with a matching prediction. |
| Matcher.MergeRowIndexed | main.py:44-72 | One odds record's output is the matching predictions, each once, in prediction order. |
| Matcher.MergeRowCons | main.py:44-72 | The first prediction contributes its merged record first if it matches, and nothing if it does not. |
| Matcher.Merge | main.py:38-73 | The merge raises exactly when both lists are non-empty and some name in either list has no last word. |
| Matcher.MergeSingle | main.py:43-72 | The merge of one odds record is its inner loop over the predictions. |
| Matcher.MergeAppend | main.py:43-73 | The outer loop handles odds records one after another: the merge of two concatenated lists succeeds exactly when both merges do, and is then their concatenation. With MergeSingle and MergeRowIndexed this fixes the output order: odds record first, then prediction, one record per matching pair, duplicates kept. |
| Matcher.MergeMembers | main.py:43-73 | A record is in the merged output exactly when it combines some odds record with some prediction of the same game. |
| Sheet.BuildRowsAt | spreadsheet_client.py:41-57 | Game `k` fills row `2k` with its away row and row `2k+1` with its home row. |
| Sheet.BuildRows | spreadsheet_client.py:40-57 | There are exactly two rows per game. |
| Sheet.BuildRowsLayout | spreadsheet_client.py:40-57 | There are two rows per game, in game order, and every row is five cells wide. |
| Sheet.ReadGameRows | spreadsheet_client.py:43-57 | A game's away and home rows together hold every field of the game. |
| Sheet.ReadBuildRows | spreadsheet_client.py:40-57 | Reading the games back from the rows gives exactly the games written, in order. |
| Sheet.WriteRange | spreadsheet_client.py:60-69 | The range is `A16:E` followed by the decimal digits of `16 + rows - 1`, written without a leading zero as `str` writes it. |
| Sheet.RangeFitsRows | spreadsheet_client.py:69 | The range spans exactly as many sheet rows as there are rows to write. |
| Sheet.RowsToAdd | spreadsheet_client.py:61-66 | The worksheet grows exactly when it is shorter than row `16 + rows - 1`, and then by exactly the shortfall. |
| Sheet.PlanUpdate | spreadsheet_client.py:40-69 | The values read back as the games. The range is the one line 69 writes for that many values, spans as many rows as there are values, every row is five wide, and after growing, the worksheet reaches the last written row exactly. |

## Left out

- Network access, HTML parsing and the worksheet API are not modelled. This
  covers `requests`, BeautifulSoup's `find_all` and `.text`, and gspread's
  open, delete, duplicate and update calls (`spreadsheet_client.py:17-37,70`).
  The scraper starts from the cell texts of the table rows. The sheet model
  stops at the plan of rows, range and rows to add.
- `existing_rows` (`spreadsheet_client.py:61`) is a parameter. How gspread
  counts the rows of a worksheet is not modelled.
- The pytz conversions to and from `America/New_York` are the function
  parameters `toUtc` and `toLocal`. Their results are only required to be
  valid UTC or local date-times. DST gaps and ambiguities are not modelled.
  Both are total: the model assumes a conversion never leaves the years 1
  to 9999. Python raises `OverflowError` when it does. The scraper's
  `except` turns that into a failed fetch, for example for an `11 PM` row on
  9999-12-31. The merge has no `except`, so it raises, for example for an
  odds start time of `0001-01-01T02:00:00Z`. The members below are exact
  only inside that range.
- GameSim.PredictRow: its failure condition leaves out the `OverflowError`
  of a UTC conversion past year 9999.
- GameSim.PredictRowsFailure: the same conversion overflow is left out of
  "fails exactly when some wide row's time is unreadable".
- GameSim.FetchPredictions: the same conversion overflow is left out of its
  failure condition.
- Matcher.MergeRow: its failure condition leaves out the `OverflowError` of
  a local conversion below year 1.
- Matcher.Merge: the same conversion overflow is left out of "raises
  exactly when some name has no last word".
- The clock is not modelled. `datetime.now` becomes the `today` argument,
  read once for the whole fetch rather than once per row.
- `fromisoformat` is modelled only on the shapes these programs produce and
  read: `YYYY-MM-DDTHH:MM:SS` followed by `Z` or `±HH:MM`. Python also
  accepts any other single separator character in place of the `T`; the
  model reads such text as unreadable. These programs never produce it. Any
  other text counts as unreadable, including fractional seconds, a missing
  offset, dates without a time, and seconds in the offset. Offsets are
  limited to less than one day, with whole minutes.
- Timestamps.Parse: an offset is read only with hours up to 23 and minutes
  up to 59. Python's `fromisoformat` also accepts minute fields from 60 to
  99 (such as `+00:75`) when the total stays under a day; the model reads
  such text as unreadable. No time these programs exchange has one.
- GameSim.ParseClock12: `%p` accepts `AM` and `PM` in any letter case, as
  the C locale does; other locales are not modelled. `%I` and `%M` read
  ASCII digits only.
- GameSim.PadHour: the `\d{1,2}` of the bare-hour test is read as ASCII
  digits only. Python's `\d` also matches other Unicode decimal digits
  (such as `٧ PM`), which the model leaves unpadded.
- GameSim.WinPercentage: the `\d` of the percentage regex and `float()`
  are read as ASCII digits only. Python also accepts other Unicode decimal
  digits (`Yankees win ٦٢%` gives 62.0), where the model finds no
  percentage.
- GameSim.DecimalValue: the percentage is an exact rational number rather
  than a binary float, so rounding in `float()` and in `100 - p` is not
  modelled.
- A JSON value of the wrong type (a number where a list or a string is
  expected) is not modelled. Its `TypeError` is one of the exceptions the
  per-game `except` would swallow. Prices are integers.
- `main.py`'s `generate` driver, its command-line entry, `get_api_key`, the
  offline-data branch of the odds client, error message texts, `print`
  calls, and the "table not found" exception are left out.
- `strftime` for years below 1000 (where CPython does not pad to four
  digits) is not modelled. Years are assumed to be written with four
  digits.
- The code is followed where the function comments suggest otherwise:
  - `merge_odds_and_predictions` raises, for the whole merge, on a `None`
    or blank team name. The loop does not skip such a record.
  - `compare_times` compares the date and hour as written, in whatever
    offset each string carries. Matcher.CompareTimesIgnoresOffsets shows
    the consequence. For the times these programs actually exchange, which
    are always UTC, Matcher.FetchedPairCompare shows that this equals a
    comparison in UTC.
