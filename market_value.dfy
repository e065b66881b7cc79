/** The third stage (main3.py): label every market valuation with its season
    (seasons run from July to June), join the valuations onto the defender
    performances by player and season, drop the rows without a value, and keep
    the 22 output columns. */
module MarketValue {
  import opened Frames
  import opened Joins

  const Keys: seq<string> := ["player_id", "season_name"]

  /** The columns of the valuations that take part in the merge. */
  const MarketColumns: seq<string> := ["player_id", "season_name", "value", "date"]

  const OutputColumns: seq<string> := [
    "player_id", "season_name", "competition_id", "competition_name",
    "team_id", "team_name", "nb_in_group", "nb_on_pitch", "goals", "assists",
    "own_goals", "subed_in", "subed_out", "yellow_cards", "second_yellow_cards",
    "direct_red_cards", "penalty_goals", "minutes_played", "goals_conceded",
    "clean_sheets", "main_position", "value"]

  /** What `map_date_to_season` returns for NaT: its year and month are NaN,
      `NaN >= 7` is false, and the last two characters of `str(NaN)` are "an". */
  const NaTLabel: string := "an/an"

  // ---------------------------------------------------------------------
  // Season labels

  function DigitChar(d: nat): char
    requires d < 10
  {
    (48 + d) as char
  }

  /** `str(n)` for a natural number. */
  function Decimal(n: nat): (s: string)
    ensures |s| >= 1
    ensures n >= 10 ==> |s| >= 2
  {
    if n < 10 then [DigitChar(n)] else Decimal(n / 10) + [DigitChar(n % 10)]
  }

  /** Python's `str(n)` for any integer. */
  function PyStr(n: int): string {
    if n < 0 then "-" + Decimal(-n) else Decimal(n)
  }

  /** `s[-2:]`. */
  function Last2(s: string): string {
    if |s| <= 2 then s else s[|s| - 2..]
  }

  /** `map_date_to_season`: from July on, the season starting this year;
      up to June, the season that started the year before. */
  function SeasonOf(d: Date): string {
    if d.month >= 7 then Last2(PyStr(d.year)) + "/" + Last2(PyStr(d.year + 1))
    else Last2(PyStr(d.year - 1)) + "/" + Last2(PyStr(d.year))
  }

  /** The calendar year in which the season of `d` starts. */
  function SeasonStart(d: Date): int {
    if d.month >= 7 then d.year else d.year - 1
  }

  /** The two decimal digits of `v`, with a leading zero. */
  function TwoDigits(v: nat): (s: string)
    requires v < 100
    ensures |s| == 2
  {
    [DigitChar(v / 10), DigitChar(v % 10)]
  }

  lemma DecimalLast(n: nat)
    ensures Decimal(n)[|Decimal(n)| - 1] == DigitChar(n % 10)
  {
  }

  /** Division by 100 is determined by quotient and remainder. */
  lemma Div100(n: int, a: int, s: int)
    requires n == 100 * a + s && 0 <= s < 100
    ensures n / 100 == a && n % 100 == s
  {
  }

  /** Division by 10 is determined by quotient and remainder. */
  lemma Div10(n: int, a: int, s: int)
    requires n == 10 * a + s && 0 <= s < 10
    ensures n / 10 == a && n % 10 == s
  {
  }

  lemma TensDigit(n: nat)
    ensures (n % 100) / 10 == (n / 10) % 10 && (n % 100) % 10 == n % 10
  {
    var q, r := n / 10, n % 10;
    var a, t := q / 10, q % 10;
    Div10(n, q, r);
    Div10(q, a, t);
    Div100(n, a, 10 * t + r);
    Div10(10 * t + r, t, r);
  }

  /** Years with the same last two digits are followed by years with the
      same last two digits. */
  lemma NextYearMod(a: int, b: int)
    requires a % 100 == b % 100
    ensures (a + 1) % 100 == (b + 1) % 100
  {
    var ra, rb := a % 100, b % 100;
    assert a == 100 * (a / 100) + ra && b == 100 * (b / 100) + rb;
    if ra < 99 {
      assert a + 1 == 100 * (a / 100) + (ra + 1);
      assert b + 1 == 100 * (b / 100) + (rb + 1);
    } else {
      assert a + 1 == 100 * (a / 100 + 1);
      assert b + 1 == 100 * (b / 100 + 1);
    }
  }

  /** The last two characters of a number of two or more digits are its
      last two digits. */
  lemma Last2Decimal(n: nat)
    requires n >= 10
    ensures Last2(Decimal(n)) == TwoDigits(n % 100)
  {
    var a := Decimal(n / 10);
    DecimalLast(n / 10);
    TensDigit(n);
    var s := a + [DigitChar(n % 10)];
    assert Decimal(n) == s;
    assert s[|s| - 2..] == [a[|a| - 1], DigitChar(n % 10)];
  }

  /** `str(n)[-2:]` of a number of two or more digits. */
  lemma Last2PyStr(n: int)
    requires n >= 10
    ensures Last2(PyStr(n)) == TwoDigits(n % 100)
  {
    assert PyStr(n) == Decimal(n);
    Last2Decimal(n);
  }

  /** Every label of a season that starts in a year with two or more digits
      is the start year's last two digits, a slash, and the end year's last
      two digits. */
  lemma SeasonLabelForm(d: Date)
    requires SeasonStart(d) >= 10
    ensures SeasonOf(d) == TwoDigits(SeasonStart(d) % 100) + "/" + TwoDigits((SeasonStart(d) + 1) % 100)
  {
    var y := SeasonStart(d);
    assert SeasonOf(d) == Last2(PyStr(y)) + "/" + Last2(PyStr(y + 1));
    LabelOfStart(y);
  }

  /** The label of the season that starts in `y`, in digits. */
  lemma LabelOfStart(y: int)
    requires y >= 10
    ensures Last2(PyStr(y)) + "/" + Last2(PyStr(y + 1)) == TwoDigits(y % 100) + "/" + TwoDigits((y + 1) % 100)
  {
    Last2PyStr(y);
    Last2PyStr(y + 1);
  }

  /** Every date from July of `y` through June of `y + 1` gets the label of
      July of `y`. */
  lemma SeasonWindow(y: int, d: Date)
    requires (d.year == y && d.month >= 7) || (d.year == y + 1 && d.month <= 6)
    ensures SeasonOf(d) == SeasonOf(Date(y, 7))
  {
  }

  lemma DigitCharInjective(a: nat, b: nat)
    requires a < 10 && b < 10 && DigitChar(a) == DigitChar(b)
    ensures a == b
  {
  }

  lemma TwoDigitsInjective(a: nat, b: nat)
    requires a < 100 && b < 100 && TwoDigits(a) == TwoDigits(b)
    ensures a == b
  {
    DigitCharInjective(a / 10, b / 10);
    DigitCharInjective(a % 10, b % 10);
  }

  /** Two dates share a label iff their seasons start in years with the same
      last two digits. */
  lemma SameLabelIff(d1: Date, d2: Date)
    requires SeasonStart(d1) >= 10 && SeasonStart(d2) >= 10
    ensures SeasonOf(d1) == SeasonOf(d2) <==> SeasonStart(d1) % 100 == SeasonStart(d2) % 100
  {
    if SeasonOf(d1) == SeasonOf(d2) {
      LabelDeterminesStart(d1, d2);
    }
    if SeasonStart(d1) % 100 == SeasonStart(d2) % 100 {
      StartDeterminesLabel(d1, d2);
    }
  }

  lemma LabelDeterminesStart(d1: Date, d2: Date)
    requires SeasonStart(d1) >= 10 && SeasonStart(d2) >= 10
    requires SeasonOf(d1) == SeasonOf(d2)
    ensures SeasonStart(d1) % 100 == SeasonStart(d2) % 100
  {
    LabelParts(d1);
    LabelParts(d2);
    TwoDigitsInjective(SeasonStart(d1) % 100, SeasonStart(d2) % 100);
  }

  lemma StartDeterminesLabel(d1: Date, d2: Date)
    requires SeasonStart(d1) >= 10 && SeasonStart(d2) >= 10
    requires SeasonStart(d1) % 100 == SeasonStart(d2) % 100
    ensures SeasonOf(d1) == SeasonOf(d2)
  {
    NextYearMod(SeasonStart(d1), SeasonStart(d2));
    SeasonLabelForm(d1);
    SeasonLabelForm(d2);
  }

  lemma LabelParts(d: Date)
    requires SeasonStart(d) >= 10
    ensures |SeasonOf(d)| == 5 && SeasonOf(d)[2] == '/'
    ensures SeasonOf(d)[..2] == TwoDigits(SeasonStart(d) % 100)
    ensures SeasonOf(d)[3..] == TwoDigits((SeasonStart(d) + 1) % 100)
  {
    SeasonLabelForm(d);
  }

  /** December 1999 and January 2000 lie in one season, "99/00". */
  lemma MillenniumSeason()
    ensures SeasonOf(Date(1999, 12)) == "99/00"
    ensures SeasonOf(Date(2000, 1)) == "99/00"
  {
    assert Last2(PyStr(1999)) == "99" by {
      Last2PyStr(1999);
      assert TwoDigits(99) == "99";
    }
    assert Last2(PyStr(2000)) == "00" by {
      Last2PyStr(2000);
      assert TwoDigits(0) == "00";
    }
  }

  // ---------------------------------------------------------------------
  // Tagging the valuations

  /** `pd.to_datetime` on one cell: NaN becomes NaT; `toDate` stands for the
      library's parsing, whose None is a raised exception. */
  function DateOf(c: Cell, toDate: Cell -> Option<Date>): Option<Cell> {
    if c == Missing then Some(Missing)
    else match toDate(c)
      case None => None
      case Some(d) => Some(Stamp(d))
  }

  /** `pd.to_datetime` on a column: it raises when one cell does. */
  function ToDates(col: seq<Cell>, toDate: Cell -> Option<Date>): (r: Option<seq<Cell>>)
    ensures r.Some? <==> forall i :: 0 <= i < |col| ==> DateOf(col[i], toDate).Some?
    ensures r.Some? ==> |r.value| == |col| && forall i :: 0 <= i < |col| ==> Some(r.value[i]) == DateOf(col[i], toDate)
  {
    if forall i :: 0 <= i < |col| ==> DateOf(col[i], toDate).Some? then
      Some(seq(|col|, i requires 0 <= i < |col| => DateOf(col[i], toDate).value))
    else None
  }

  /** `map_date_to_season` on one cell of the `date` column. */
  function LabelOf(c: Cell): Cell {
    match c
    case Stamp(d) => Text(SeasonOf(d))
    case _ => Text(NaTLabel)
  }

  function Labels(dates: seq<Cell>): (r: seq<Cell>)
    ensures |r| == |dates| && forall i :: 0 <= i < |dates| ==> r[i] == LabelOf(dates[i])
  {
    seq(|dates|, i requires 0 <= i < |dates| => LabelOf(dates[i]))
  }

  /** Both assignments to the valuations table: `date` from `date_unix`, and
      `season_name` from `date`. */
  function Tagged(market: Table, toDate: Cell -> Option<Date>): (r: Result<Table>)
    ensures r.Ok? <==> "date_unix" in market.header && ToDates(Column(market, "date_unix").value, toDate).Some?
    ensures r.Err? ==> r.error == (if "date_unix" in market.header then Other else MissingColumn("date_unix"))
    ensures r.Ok? ==> |r.value.rows| == |market.rows|
  {
    var col :- Column(market, "date_unix");
    match ToDates(col, toDate)
    case None => Err(Other)
    case Some(dates) =>
      var withDate := WithColumn(market, "date", dates);
      Ok(WithColumn(withDate, "season_name", Labels(dates)))
  }

  /** After tagging, every valuation carries the date parsed from its
      `date_unix` and the season label of that date. */
  lemma TaggedCells(market: Table, toDate: Cell -> Option<Date>)
    requires WellFormed(market) && Tagged(market, toDate).Ok?
    ensures WellFormed(Tagged(market, toDate).value)
    ensures forall i :: 0 <= i < |market.rows| ==>
      var t := Tagged(market, toDate).value;
      && Some(Lookup(t.header, t.rows[i], "date")) == DateOf(Lookup(market.header, market.rows[i], "date_unix"), toDate)
      && Lookup(t.header, t.rows[i], "season_name") == LabelOf(Lookup(t.header, t.rows[i], "date"))
  {
    var dates := ToDates(Column(market, "date_unix").value, toDate).value;
    var withDate := WithColumn(market, "date", dates);
    WithColumnCells(market, "date", dates);
    WithColumnCells(withDate, "season_name", Labels(dates));
  }

  /** The same two assignments made in place on the valuations frame; on an
      exception the frame is left as it was. */
  method TagInPlace(market: Frame, toDate: Cell -> Option<Date>) returns (e: Option<Error>)
    modifies market
    ensures e.None? <==> Tagged(old(market.Value()), toDate).Ok?
    ensures e.None? ==> market.Value() == Tagged(old(market.Value()), toDate).value
    ensures e.Some? ==> e.value == Tagged(old(market.Value()), toDate).error && market.Value() == old(market.Value())
  {
    var col := Column(market.Value(), "date_unix");
    if col.Err? {
      return Some(col.error);
    }
    var dates := ToDates(col.value, toDate);
    if dates.None? {
      return Some(Other);
    }
    market.Assign("date", dates.value);
    market.Assign("season_name", Labels(dates.value));
    return None;
  }

  // ---------------------------------------------------------------------
  // The join

  /** The tables the script computes: the merge, the rows kept by `dropna`,
      and the projection onto the output columns. */
  datatype Joined = Joined(market: Table, merged: Table, kept: Table, output: Table)

  function JoinValues(perf: Table, tagged: Table): (r: Result<Joined>)
    ensures r.Ok? ==> r.value.output.header == OutputColumns && |r.value.output.rows| == |r.value.kept.rows|
    ensures r.Ok? ==> |r.value.kept.rows| <= |r.value.merged.rows|
    ensures r.Ok? ==> |r.value.merged.rows| >= |perf.rows|
  {
    var market :- Select(tagged, MarketColumns);
    var merged :- LeftMerge(perf, market, Keys);
    var renamed := Rename(merged, "mean_market_value", "value");
    var kept :- DropMissing(renamed, "value");
    var output :- Select(kept, OutputColumns);
    Ok(Joined(market, merged, kept, output))
  }

  /** The whole script after reading its two files. */
  function MarketJoin(perf: Table, market: Table, toDate: Cell -> Option<Date>): (r: Result<Joined>)
    ensures r.Ok? ==> r.value.output.header == OutputColumns
    ensures r.Ok? ==> |r.value.merged.rows| >= |perf.rows|
  {
    var tagged :- Tagged(market, toDate);
    JoinValues(perf, tagged)
  }

  /** The intermediate tables of a successful join. */
  lemma JoinValuesSteps(perf: Table, tagged: Table)
    requires JoinValues(perf, tagged).Ok?
    ensures Select(tagged, MarketColumns).Ok?
    ensures JoinValues(perf, tagged).value.market == Select(tagged, MarketColumns).value
    ensures LeftMerge(perf, JoinValues(perf, tagged).value.market, Keys).Ok?
    ensures JoinValues(perf, tagged).value.merged == LeftMerge(perf, JoinValues(perf, tagged).value.market, Keys).value
    ensures DropMissing(Rename(JoinValues(perf, tagged).value.merged, "mean_market_value", "value"), "value").Ok?
    ensures JoinValues(perf, tagged).value.kept ==
      DropMissing(Rename(JoinValues(perf, tagged).value.merged, "mean_market_value", "value"), "value").value
    ensures Select(JoinValues(perf, tagged).value.kept, OutputColumns).Ok?
    ensures JoinValues(perf, tagged).value.output == Select(JoinValues(perf, tagged).value.kept, OutputColumns).value
  {
    var market := Select(tagged, MarketColumns).value;
    var merged := LeftMerge(perf, market, Keys);
    assert merged.Ok?;
    var kept := DropMissing(Rename(merged.value, "mean_market_value", "value"), "value");
    assert kept.Ok?;
    assert JoinValues(perf, tagged) == Ok(Joined(market, merged.value, kept.value, Select(kept.value, OutputColumns).value));
  }

  /** `value` is the last of the output columns and appears only there. */
  lemma ValueColumn()
    ensures IndexOf(OutputColumns, "value") == Some(21)
  {
    var front := OutputColumns[..21];
    assert OutputColumns == front + ["value"];
    assert "value" !in front;
    IndexOfConcat(front, ["value"], "value");
  }

  /** After `dropna`, no output row lacks a value, so the count of unmatched
      rows the script reports at the end is always zero. */
  lemma OutputHasValues(perf: Table, tagged: Table)
    requires JoinValues(perf, tagged).Ok?
    ensures forall i :: 0 <= i < |JoinValues(perf, tagged).value.output.rows| ==>
      var o := JoinValues(perf, tagged).value.output;
      Lookup(o.header, o.rows[i], "value") != Missing
  {
    var j := JoinValues(perf, tagged).value;
    JoinValuesSteps(perf, tagged);
    ValueColumn();
    var renamed := Rename(j.merged, "mean_market_value", "value");
    forall i | 0 <= i < |j.output.rows| ensures Lookup(j.output.header, j.output.rows[i], "value") != Missing {
      assert j.output.rows[i][21] == Lookup(j.kept.header, j.kept.rows[i], "value");
      DropMissingMember(renamed, "value", j.kept.rows[i]);
    }
  }

  lemma MarketNonKey()
    ensures Without(MarketColumns, Keys) == ["value", "date"]
  {
    var p := (c: string) => c !in Keys;
    var s := MarketColumns;
    assert s[1..] == ["season_name", "value", "date"];
    assert s[1..][1..] == ["value", "date"];
    assert s[1..][1..][1..] == ["date"] && s[1..][1..][1..][1..] == [];
    assert Filter(s[1..][1..], p) == ["value", "date"];
  }

  /** The merge brings `value` and `date` after the performance columns when
      the performances have neither, nor a `mean_market_value`, so the rename
      changes nothing. */
  lemma MergedLayout(perf: Table, market: Table)
    requires "value" !in perf.header && "date" !in perf.header && "mean_market_value" !in perf.header
    requires market.header == MarketColumns && LeftMerge(perf, market, Keys).Ok?
    ensures LeftMerge(perf, market, Keys).value.header == perf.header + ["value", "date"]
    ensures Rename(LeftMerge(perf, market, Keys).value, "mean_market_value", "value") == LeftMerge(perf, market, Keys).value
  {
    MarketNonKey();
    MergedHeaderPlain(perf.header, ["value", "date"]);
    var merged := LeftMerge(perf, market, Keys).value;
    OldNameAbsent(perf.header);
    RenameAbsent(merged, "mean_market_value", "value");
  }

  /** The merge adds no `mean_market_value` column. */
  lemma OldNameAbsent(h: seq<string>)
    requires "mean_market_value" !in h
    ensures "mean_market_value" !in h + ["value", "date"]
  {
    assert "mean_market_value" != "value" && "mean_market_value" != "date";
  }

  /** The merge followed by `dropna` on a valuations table with the merge's
      columns is an inner join with the valuations that have a value. */
  lemma InnerAfterDrop(perf: Table, market: Table)
    requires WellFormed(perf) && WellFormed(market) && market.header == MarketColumns
    requires "value" !in perf.header && "date" !in perf.header && "mean_market_value" !in perf.header
    requires LeftMerge(perf, market, Keys).Ok?
    ensures DropMissing(market, "value").Ok?
    ensures InnerJoin(perf, DropMissing(market, "value").value, Keys).Ok?
    ensures DropMissing(Rename(LeftMerge(perf, market, Keys).value, "mean_market_value", "value"), "value") ==
      Ok(InnerJoin(perf, DropMissing(market, "value").value, Keys).value)
  {
    MergedLayout(perf, market);
    MarketNonKey();
    MergeThenDropMissing(perf, market, Keys, "value");
  }

  /** `x` is performance row `i` followed by the value and date of valuation
      `j`, which has a value and the player and season of that performance. */
  predicate PairedWith(perf: Table, valued: seq<Row>, x: Row, i: nat, j: nat)
    requires i < |perf.rows| && j < |valued|
  {
    && Lookup(perf.header, perf.rows[i], "player_id") == Lookup(MarketColumns, valued[j], "player_id")
    && Lookup(perf.header, perf.rows[i], "season_name") == Lookup(MarketColumns, valued[j], "season_name")
    && Lookup(MarketColumns, valued[j], "value") != Missing
    && x == perf.rows[i] + [At(valued[j], 2), At(valued[j], 3)]
  }

  predicate PairedRow(perf: Table, valued: seq<Row>, x: Row) {
    exists i, j :: 0 <= i < |perf.rows| && 0 <= j < |valued| && PairedWith(perf, valued, x, i, j)
  }

  /** No averaging: every row of the inner join is one performance row
      followed by the value and date of one valuation with a value and the
      same player and season, and there are exactly as many rows as such
      pairs. */
  lemma InnerPairs(perf: Table, market: Table)
    requires market.header == MarketColumns
    requires "player_id" in perf.header && "season_name" in perf.header
    ensures DropMissing(market, "value").Ok?
    ensures InnerJoin(perf, DropMissing(market, "value").value, Keys).Ok?
    ensures
      var valued := DropMissing(market, "value").value;
      var inner := InnerJoin(perf, valued, Keys).value;
      && |inner.rows| == PairCount(perf.rows, Locate(perf.header, Keys).value, valued.rows, [0, 1])
      && forall x :: x in inner.rows ==> PairedRow(perf, valued.rows, x)
  {
    InnerPairCount(perf, market);
    var valued := DropMissing(market, "value").value;
    var inner := InnerJoin(perf, valued, Keys).value;
    forall x | x in inner.rows
      ensures PairedRow(perf, valued.rows, x)
    {
      InnerRowPaired(perf, market, x);
    }
  }

  lemma InnerPairCount(perf: Table, market: Table)
    requires market.header == MarketColumns
    requires "player_id" in perf.header && "season_name" in perf.header
    ensures DropMissing(market, "value").Ok?
    ensures InnerJoin(perf, DropMissing(market, "value").value, Keys).Ok?
    ensures |InnerJoin(perf, DropMissing(market, "value").value, Keys).value.rows| ==
      PairCount(perf.rows, Locate(perf.header, Keys).value, DropMissing(market, "value").value.rows, [0, 1])
  {
    MarketKeysAt();
    InnerJoinCount(perf, DropMissing(market, "value").value, Keys);
  }

  lemma InnerRowPaired(perf: Table, market: Table, x: Row)
    requires market.header == MarketColumns
    requires "player_id" in perf.header && "season_name" in perf.header
    requires DropMissing(market, "value").Ok?
    requires InnerJoin(perf, DropMissing(market, "value").value, Keys).Ok?
    requires x in InnerJoin(perf, DropMissing(market, "value").value, Keys).value.rows
    ensures PairedRow(perf, DropMissing(market, "value").value.rows, x)
  {
    MarketColumnsAt();
    MarketIndices();
    var valued := DropMissing(market, "value").value;
    InnerJoinValue(perf, valued, Keys);
    var lk := Locate(perf.header, Keys).value;
    InnerRowsPair(perf.rows, lk, valued.rows, [0, 1], [2, 3], x);
    var i, j :| 0 <= i < |perf.rows| && 0 <= j < |valued.rows| &&
      Pick(valued.rows[j], [0, 1]) == Pick(perf.rows[i], lk) && x == perf.rows[i] + Pick(valued.rows[j], [2, 3]);
    assert valued.rows[j] in valued.rows;
    DropMissingMember(market, "value", valued.rows[j]);
    PairedFromKeys(perf, valued.rows, x, i, j);
  }

  lemma PairedFromKeys(perf: Table, valued: seq<Row>, x: Row, i: nat, j: nat)
    requires i < |perf.rows| && j < |valued| && Locate(perf.header, Keys).Ok?
    requires Pick(valued[j], [0, 1]) == Pick(perf.rows[i], Locate(perf.header, Keys).value)
    requires x == perf.rows[i] + Pick(valued[j], [2, 3])
    requires Lookup(MarketColumns, valued[j], "value") != Missing
    ensures PairedWith(perf, valued, x, i, j)
  {
    MarketIndices();
    var lk := Locate(perf.header, Keys).value;
    var l, v := perf.rows[i], valued[j];
    assert IndexOf(perf.header, Keys[0]) == Some(lk[0]) && IndexOf(perf.header, Keys[1]) == Some(lk[1]);
    assert Lookup(perf.header, l, "player_id") == At(l, lk[0]) == Pick(l, lk)[0];
    assert Lookup(perf.header, l, "season_name") == At(l, lk[1]) == Pick(l, lk)[1];
    assert Pick(v, [0, 1])[0] == At(v, 0) == Lookup(MarketColumns, v, "player_id");
    assert Pick(v, [0, 1])[1] == At(v, 1) == Lookup(MarketColumns, v, "season_name");
    assert Pick(v, [2, 3]) == [At(v, 2), At(v, 3)];
  }

  lemma MarketIndices()
    ensures IndexOf(MarketColumns, "player_id") == Some(0)
    ensures IndexOf(MarketColumns, "season_name") == Some(1)
    ensures IndexOf(MarketColumns, "value") == Some(2)
    ensures IndexOf(MarketColumns, "date") == Some(3)
  {
    var h := MarketColumns;
    IndexOfDistinct(h, 0);
    IndexOfDistinct(h, 1);
    IndexOfDistinct(h, 2);
    IndexOfDistinct(h, 3);
  }

  /** Where the merge finds the keys in the valuations. */
  lemma MarketKeysAt()
    ensures Locate(MarketColumns, Keys) == Ok([0, 1])
  {
    MarketIndices();
    var h := MarketColumns;
    var on := Keys;
    var o1 := on[1..];
    assert o1 == ["season_name"] && o1[1..] == [];
    assert Locate(h, o1[1..]) == Ok([]);
    assert IndexOf(h, o1[0]) == Some(1);
    assert [1] + [] == [1];
    assert Locate(h, o1) == Ok([1]);
    assert IndexOf(h, on[0]) == Some(0);
    assert [0] + [1] == [0, 1];
  }

  /** Where the merge finds the value and the date in the valuations. */
  lemma MarketExtraAt()
    ensures Positions(MarketColumns, ["value", "date"]) == [2, 3]
  {
    MarketIndices();
    var p := Positions(MarketColumns, ["value", "date"]);
    assert |p| == 2 && p[0] == 2 && p[1] == 3;
  }

  /** Where the merge finds the keys, the value and the date in the valuations. */
  lemma MarketColumnsAt()
    ensures Locate(MarketColumns, Keys) == Ok([0, 1])
    ensures Positions(MarketColumns, ["value", "date"]) == [2, 3]
    ensures Without(MarketColumns, Keys) == ["value", "date"]
  {
    MarketNonKey();
    MarketKeysAt();
    MarketExtraAt();
  }

  /** When every valuation has a value, the inner join has one row fewer
      than the left merge for every performance row that matches no
      valuation: these are the rows `dropna` removes. */
  lemma DroppedAreUnmatched(perf: Table, market: Table)
    requires market.header == MarketColumns
    requires "player_id" in perf.header && "season_name" in perf.header
    requires forall j :: 0 <= j < |market.rows| ==> Lookup(MarketColumns, market.rows[j], "value") != Missing
    ensures LeftMerge(perf, market, Keys).Ok?
    ensures DropMissing(market, "value").Ok?
    ensures InnerJoin(perf, DropMissing(market, "value").value, Keys).Ok?
    ensures |LeftMerge(perf, market, Keys).value.rows| - |InnerJoin(perf, DropMissing(market, "value").value, Keys).value.rows| ==
      Count(perf.rows, Unmatched(Locate(perf.header, Keys).value, market.rows, [0, 1]))
  {
    MarketKeysAt();
    AllValued(market);
    LeftMinusInner(perf, market, Keys);
  }

  /** `dropna` on the value keeps every valuation when all of them have one. */
  lemma AllValued(market: Table)
    requires market.header == MarketColumns
    requires forall j :: 0 <= j < |market.rows| ==> Lookup(MarketColumns, market.rows[j], "value") != Missing
    ensures DropMissing(market, "value") == Ok(market)
  {
    MarketIndices();
    forall j | 0 <= j < |market.rows| ensures Present(2)(market.rows[j]) {
    }
    FilterAll(market.rows, Present(2));
    DropMissingAt(market, "value", 2);
  }
}
