/** The pure part of `update_sheet` in `spreadsheet_client.py`: the merged
    games laid out as two five-cell rows each, the A1 range they are written
    to, and how many rows the worksheet must grow by. */
module Sheet {
  import opened Wrappers
  import opened Text
  import opened Matcher

  /** A value handed to the worksheet: a string, an integer (American
      odds), a number (a win percentage) or Python's `None`. */
  datatype Cell = Str(s: string) | Whole(n: int) | Num(x: real) | Blank

  function IdCell(v: Option<string>): Cell {
    match v
    case Some(s) => Str(s)
    case None => Blank
  }

  function OddsCell(v: Option<int>): Cell {
    match v
    case Some(n) => Whole(n)
    case None => Blank
  }

  function PctCell(v: Option<real>): Cell {
    match v
    case Some(x) => Num(x)
    case None => Blank
  }

  /** The first row of the sheet the data goes to (line 60). */
  const StartRow: nat := 16

  /** The number of columns, A to E. */
  const Width: nat := 5

  /** Lines 43-49: game id, start time, away team, away odds, away percentage. */
  function AwayRow(m: MergedRecord): seq<Cell> {
    [IdCell(m.gameId), Str(m.startTime), Str(m.awayTeam), OddsCell(m.awayOdds), PctCell(m.awayWinPct)]
  }

  /** Lines 51-57: two empty strings, then home team, home odds, home percentage. */
  function HomeRow(m: MergedRecord): seq<Cell> {
    [Str(""), Str(""), Str(m.homeTeam), OddsCell(m.homeOdds), PctCell(m.homeWinPct)]
  }

  /** Lines 40-57: each game becomes its away row followed by its home row. */
  function BuildRows(data: seq<MergedRecord>): (rows: seq<seq<Cell>>)
    ensures |rows| == 2 * |data|
    decreases |data|
  {
    if data == [] then [] else [AwayRow(data[0]), HomeRow(data[0])] + BuildRows(data[1..])
  }

  lemma {:induction false} BuildRowsAt(data: seq<MergedRecord>, k: nat)
    requires k < |data|
    ensures BuildRows(data)[2 * k] == AwayRow(data[k]) && BuildRows(data)[2 * k + 1] == HomeRow(data[k])
    decreases k
  {
    if k > 0 {
      BuildRowsAt(data[1..], k - 1);
      assert data[1..][k - 1] == data[k];
    }
  }

  /** The layout: game `k` fills rows `2k` (away) and `2k + 1` (home), so
      the games keep their order; every row is five cells wide. */
  lemma BuildRowsLayout(data: seq<MergedRecord>)
    ensures |BuildRows(data)| == 2 * |data|
    ensures forall k :: 0 <= k < |data| ==>
      BuildRows(data)[2 * k] == AwayRow(data[k]) && BuildRows(data)[2 * k + 1] == HomeRow(data[k])
    ensures forall i :: 0 <= i < |BuildRows(data)| ==> |BuildRows(data)[i]| == Width
  {
    var rows := BuildRows(data);
    forall k | 0 <= k < |data|
      ensures rows[2 * k] == AwayRow(data[k]) && rows[2 * k + 1] == HomeRow(data[k])
    {
      BuildRowsAt(data, k);
    }
    forall i | 0 <= i < |rows|
      ensures |rows[i]| == Width
    {
      BuildRowsAt(data, i / 2);
      assert i == 2 * (i / 2) || i == 2 * (i / 2) + 1;
    }
  }

  function OptionalId(c: Cell): Option<Option<string>> {
    match c
    case Str(s) => Some(Some(s))
    case Blank => Some(None)
    case _ => None
  }

  function OptionalOdds(c: Cell): Option<Option<int>> {
    match c
    case Whole(n) => Some(Some(n))
    case Blank => Some(None)
    case _ => None
  }

  function OptionalPct(c: Cell): Option<Option<real>> {
    match c
    case Num(x) => Some(Some(x))
    case Blank => Some(None)
    case _ => None
  }

  function TextOf(c: Cell): Option<string> {
    match c
    case Str(s) => Some(s)
    case _ => None
  }

  /** Reads one game back from its away row and its home row; `None` for
      rows not laid out the way `update_sheet` writes them. */
  function ReadGame(away: seq<Cell>, home: seq<Cell>): Option<MergedRecord> {
    if |away| != Width || |home| != Width || home[0] != Str("") || home[1] != Str("") then None
    else
      var id :- OptionalId(away[0]);
      var start :- TextOf(away[1]);
      var awayTeam :- TextOf(away[2]);
      var awayOdds :- OptionalOdds(away[3]);
      var awayPct :- OptionalPct(away[4]);
      var homeTeam :- TextOf(home[2]);
      var homeOdds :- OptionalOdds(home[3]);
      var homePct :- OptionalPct(home[4]);
      Some(MergedRecord(id, start, homeTeam, awayTeam, homeOdds, awayOdds, homePct, awayPct))
  }

  /** Reads the games back from the rows, two rows per game. */
  function ReadRows(rows: seq<seq<Cell>>): Option<seq<MergedRecord>>
    decreases |rows|
  {
    if rows == [] then Some([])
    else if |rows| == 1 then None
    else
      var m :- ReadGame(rows[0], rows[1]);
      var rest :- ReadRows(rows[2..]);
      Some([m] + rest)
  }

  /** Nothing is lost or reordered in the layout: the games read back from
      the rows are exactly the games written. */
  lemma {:induction false} ReadBuildRows(data: seq<MergedRecord>)
    ensures ReadRows(BuildRows(data)) == Some(data)
    decreases |data|
  {
    if data != [] {
      var rows := BuildRows(data);
      assert rows[2..] == BuildRows(data[1..]);
      assert rows[0] == AwayRow(data[0]) && rows[1] == HomeRow(data[0]);
      ReadBuildRows(data[1..]);
      ReadGameRows(data[0]);
      assert data == [data[0]] + data[1..];
    }
  }

  /** A game reads back from its own two rows. */
  lemma ReadGameRows(m: MergedRecord)
    ensures ReadGame(AwayRow(m), HomeRow(m)) == Some(m)
  {
  }

  /** Line 69: `A{start}:E{start + len(rows) - 1}`. */
  function WriteRange(rowCount: nat): (r: string)
    ensures |r| > 5 && r[..5] == "A16:E"
    ensures AllDigits(r[5..]) && DigitsValue(r[5..]) == StartRow + rowCount - 1
    ensures |r| > 6 && r[5] != '0'
  {
    var r := "A16:E" + NatToString(StartRow + rowCount - 1);
    assert r[5..] == NatToString(StartRow + rowCount - 1);
    r
  }

  /** The number of sheet rows spanned by an `A{a}:E{b}` range. */
  function RangeRows(r: string): Option<int> {
    if |r| > 5 && r[..5] == "A16:E" && AllDigits(r[5..]) then Some(DigitsValue(r[5..]) - StartRow + 1)
    else None
  }

  /** The range spans exactly as many sheet rows as there are rows to write. */
  lemma RangeFitsRows(data: seq<MergedRecord>)
    ensures RangeRows(WriteRange(|BuildRows(data)|)) == Some(|BuildRows(data)|)
  {
  }

  /** Lines 61-66: how many rows `add_rows` appends to a worksheet of
      `existing` rows before `rowCount` rows are written from row 16. */
  function RowsToAdd(existing: nat, rowCount: nat): (added: nat)
    ensures existing + added == if existing < StartRow + rowCount - 1 then StartRow + rowCount - 1 else existing
    ensures added > 0 <==> existing < StartRow + rowCount - 1
  {
    var required := StartRow + rowCount - existing - 1;
    if required > 0 then required else 0
  }

  /** What `update_sheet` does to the new worksheet: grow it by `addRows`,
      then write `values` to `range`. */
  datatype WritePlan = WritePlan(addRows: nat, range: string, values: seq<seq<Cell>>)

  /** Lines 40-69 for a worksheet that starts with `existing` rows. */
  function PlanUpdate(existing: nat, data: seq<MergedRecord>): (p: WritePlan)
    ensures ReadRows(p.values) == Some(data)
    ensures RangeRows(p.range) == Some(|p.values|) && |p.values| == 2 * |data|
    ensures p.range == WriteRange(|p.values|)
    ensures forall i :: 0 <= i < |p.values| ==> |p.values[i]| == Width
    ensures existing + p.addRows >= StartRow + |p.values| - 1
    ensures p.addRows == 0 || existing + p.addRows == StartRow + |p.values| - 1
  {
    var rows := BuildRows(data);
    ReadBuildRows(data);
    BuildRowsLayout(data);
    WritePlan(RowsToAdd(existing, |rows|), WriteRange(|rows|), rows)
  }
}
