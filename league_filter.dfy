/** The first stage (main.py): keep the performance rows of the five major
    leagues in the five target seasons. */
module LeagueFilter {
  import opened Frames

  const TargetLeagues: seq<string> := ["Bundesliga", "Premier League", "LaLiga", "Serie A", "Ligue 1"]
  const TargetSeasons: seq<string> := ["21/22", "22/23", "23/24", "24/25", "25/26"]

  /** `series.isin(allowed)` for one cell: only a string listed in `allowed`
      is in; NaN and numbers never are. */
  predicate IsIn(c: Cell, allowed: seq<string>) {
    c.Text? && c.text in allowed
  }

  /** The combined mask `condition_league & condition_season`, with the two
      columns at positions `li` and `si`. */
  function Selected(li: nat, si: nat): Row -> bool {
    (r: Row) => IsIn(At(r, li), TargetLeagues) && IsIn(At(r, si), TargetSeasons)
  }

  /** `df[df['competition_name'].isin(...) & df['season_name'].isin(...)]`.
      The league column is looked up first, so its KeyError wins when both
      columns are absent. */
  function FilterLeagues(t: Table): (r: Result<Table>)
    ensures r.Ok? <==> "competition_name" in t.header && "season_name" in t.header
    ensures r.Err? ==> r.error == MissingColumn(if "competition_name" !in t.header then "competition_name" else "season_name")
    ensures r.Ok? ==> r.value.header == t.header && Subsequence(r.value.rows, t.rows)
  {
    match IndexOf(t.header, "competition_name")
    case None => Err(MissingColumn("competition_name"))
    case Some(li) =>
      match IndexOf(t.header, "season_name")
      case None => Err(MissingColumn("season_name"))
      case Some(si) =>
        FilterIsSubsequence(t.rows, Selected(li, si));
        Ok(Table(t.header, Filter(t.rows, Selected(li, si))))
  }

  /** The filter spelled out once both columns are known to exist. */
  lemma FilterLeaguesValue(t: Table)
    requires FilterLeagues(t).Ok?
    ensures FilterLeagues(t).value.rows ==
      Filter(t.rows, Selected(IndexOf(t.header, "competition_name").value, IndexOf(t.header, "season_name").value))
  {
  }

  /** A row is kept iff its league is one of the five AND its season is one
      of the five. */
  lemma KeptIff(t: Table, x: Row)
    requires FilterLeagues(t).Ok?
    ensures x in FilterLeagues(t).value.rows <==>
      x in t.rows
      && IsIn(Lookup(t.header, x, "competition_name"), TargetLeagues)
      && IsIn(Lookup(t.header, x, "season_name"), TargetSeasons)
  {
    FilterLeaguesValue(t);
    FilterMember(t.rows, Selected(IndexOf(t.header, "competition_name").value, IndexOf(t.header, "season_name").value), x);
  }

  /** A row meeting only one of the two conditions is dropped. */
  lemma OneConditionDropped(t: Table, x: Row)
    requires FilterLeagues(t).Ok?
    requires IsIn(Lookup(t.header, x, "competition_name"), TargetLeagues) !=
      IsIn(Lookup(t.header, x, "season_name"), TargetSeasons)
    ensures x !in FilterLeagues(t).value.rows
  {
    KeptIff(t, x);
  }

  /** The output never has more rows than the input: exactly as many as the
      input has rows that meet both conditions. */
  lemma KeptCount(t: Table)
    requires FilterLeagues(t).Ok?
    ensures |FilterLeagues(t).value.rows| ==
      Count(t.rows, Selected(IndexOf(t.header, "competition_name").value, IndexOf(t.header, "season_name").value))
    ensures |FilterLeagues(t).value.rows| <= |t.rows|
  {
    FilterLeaguesValue(t);
    FilterSize(t.rows, Selected(IndexOf(t.header, "competition_name").value, IndexOf(t.header, "season_name").value));
  }

  /** Filtering the output again changes nothing. */
  lemma FilterLeaguesIdempotent(t: Table)
    requires FilterLeagues(t).Ok?
    ensures FilterLeagues(FilterLeagues(t).value) == FilterLeagues(t)
  {
    FilterLeaguesValue(t);
    FilterIdempotent(t.rows, Selected(IndexOf(t.header, "competition_name").value, IndexOf(t.header, "season_name").value));
  }
}
