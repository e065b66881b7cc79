/** The fourth stage (main4.py): drop the club and position columns from the
    valued performances, total every player's injuries per season, attach the
    totals to the performances, and count a season without injuries as zero. */
module InjuryTotals {
  import opened Frames
  import opened Joins

  const DropPerf: seq<string> := ["competition_id", "competition_name", "team_id", "team_name", "main_position"]
  const Keys: seq<string> := ["player_id", "season_name"]
  const InjuryColumns: seq<string> := ["player_id", "season_name", "days_missed", "games_missed"]
  const Totals: seq<string> := ["days_missed", "games_missed"]

  // ---------------------------------------------------------------------
  // The injury totals

  /** A cell `sum` can add: a number, or NaN, which it skips. */
  predicate Addable(c: Cell) {
    c.Missing? || c.Num?
  }

  function NumOr0(c: Cell): int {
    if c.Num? then c.num else 0
  }

  /** Column `k` summed over `rows`, NaN skipped; an empty sum is 0. */
  function SumAt(rows: seq<Row>, k: nat): int {
    if rows == [] then 0 else NumOr0(At(rows[0], k)) + SumAt(rows[1..], k)
  }

  /** A (player, season) key with neither part NaN; groupby drops the rows
      whose key has a NaN. */
  predicate KeyComplete(key: Row) {
    At(key, 0) != Missing && At(key, 1) != Missing
  }

  function Complete(): Row -> bool {
    (r: Row) => KeyComplete(r)
  }

  /** Column `k` totalled over the selected injury rows with key `key`. */
  function Total(rows: seq<Row>, key: Row, k: nat): int {
    SumAt(Matches(rows, [0, 1], key), k)
  }

  /** The aggregate row of the group whose first row is `rep`. */
  function AggRow(rows: seq<Row>, rep: Row): Row {
    var key := Pick(rep, [0, 1]);
    key + [Num(Total(rows, key, 2)), Num(Total(rows, key, 3))]
  }

  function AggRows(rows: seq<Row>, reps: seq<Row>): (r: seq<Row>)
    ensures |r| == |reps|
  {
    if reps == [] then [] else [AggRow(rows, reps[0])] + AggRows(rows, reps[1..])
  }

  /** One row per group: the first injury row of every complete key. */
  function Groups(rows: seq<Row>): seq<Row> {
    DropDuplicates(Filter(rows, Complete()), [0, 1])
  }

  predicate Addables(rows: seq<Row>) {
    forall i :: 0 <= i < |rows| ==> Addable(At(rows[i], 2)) && Addable(At(rows[i], 3))
  }

  /** `groupby(['player_id', 'season_name'])[['days_missed', 'games_missed']]
      .sum().reset_index()` on the four selected columns; a day or game count
      that is neither a number nor NaN raises. */
  function Aggregate(rows: seq<Row>): (r: Result<Table>)
    ensures r.Ok? <==> Addables(rows)
    ensures r.Err? ==> r.error == Other
    ensures r.Ok? ==> r.value.header == InjuryColumns && |r.value.rows| <= |rows|
  {
    if Addables(rows) then
      var f := Filter(rows, Complete());
      assert |Groups(rows)| <= |f| by {
        SubsequenceSize(Groups(rows), f);
      }
      Ok(Table(InjuryColumns, AggRows(rows, Groups(rows))))
    else Err(Other)
  }

  lemma AggRowParts(rows: seq<Row>, rep: Row)
    ensures Pick(AggRow(rows, rep), [0, 1]) == Pick(rep, [0, 1])
    ensures Pick(AggRow(rows, rep), [2, 3]) == [Num(Total(rows, Pick(rep, [0, 1]), 2)), Num(Total(rows, Pick(rep, [0, 1]), 3))]
  {
    var a := AggRow(rows, rep);
    assert |a| == 4 && a[..2] == Pick(rep, [0, 1]);
  }

  lemma {:induction false} AggRowsMember(rows: seq<Row>, reps: seq<Row>, a: Row)
    requires a in AggRows(rows, reps)
    ensures exists rep :: rep in reps && a == AggRow(rows, rep)
  {
    if a != AggRow(rows, reps[0]) {
      AggRowsMember(rows, reps[1..], a);
      var rep :| rep in reps[1..] && a == AggRow(rows, rep);
      assert rep in reps;
    }
  }

  /** Looking a key up among the aggregate rows is looking it up among the
      groups. */
  lemma {:induction false} AggMatches(rows: seq<Row>, reps: seq<Row>, key: Row)
    ensures Matches(AggRows(rows, reps), [0, 1], key) == AggRows(rows, Matches(reps, [0, 1], key))
  {
    if reps != [] {
      AggMatches(rows, reps[1..], key);
      AggRowParts(rows, reps[0]);
      var a := AggRows(rows, reps);
      assert a[0] == AggRow(rows, reps[0]) && a[1..] == AggRows(rows, reps[1..]);
      var p := KeyIs([0, 1], key);
      var rest := Matches(reps[1..], [0, 1], key);
      assert p(a[0]) == p(reps[0]);
      if p(reps[0]) {
        var m := [reps[0]] + rest;
        assert Matches(reps, [0, 1], key) == m;
        assert m[0] == reps[0] && m[1..] == rest;
      } else {
        assert Matches(reps, [0, 1], key) == rest;
      }
    }
  }

  lemma {:induction false} AggKeys(rows: seq<Row>, reps: seq<Row>)
    ensures KeysOf(AggRows(rows, reps), [0, 1]) == KeysOf(reps, [0, 1])
  {
    if reps != [] {
      AggKeys(rows, reps[1..]);
      AggRowParts(rows, reps[0]);
      var a := AggRows(rows, reps);
      assert a[0] == AggRow(rows, reps[0]) && a[1..] == AggRows(rows, reps[1..]);
      assert KeysOf(a, [0, 1])[1..] == KeysOf(a[1..], [0, 1]);
      assert KeysOf(reps, [0, 1])[1..] == KeysOf(reps[1..], [0, 1]);
    }
  }

  /** Every injury row whose key is complete is kept by the filter the
      groups come from. */
  lemma CompleteKeyKept(rows: seq<Row>, x: Row)
    requires x in rows && KeyComplete(Pick(x, [0, 1]))
    ensures Pick(x, [0, 1]) in KeysOf(Filter(rows, Complete()), [0, 1])
  {
    var f := Filter(rows, Complete());
    FilterMember(rows, Complete(), x);
    var t :| 0 <= t < |f| && f[t] == x;
    assert KeysOf(f, [0, 1])[t] == Pick(x, [0, 1]);
  }

  /** A key has at most one aggregate row: the key with its two totals when
      some injury row has that complete key, and none otherwise. */
  lemma AggregateLookup(rows: seq<Row>, key: Row)
    requires |key| == 2
    ensures Matches(AggRows(rows, Groups(rows)), [0, 1], key) ==
      if KeyComplete(key) && Matches(rows, [0, 1], key) != [] then [key + [Num(Total(rows, key, 2)), Num(Total(rows, key, 3))]] else []
  {
    var f := Filter(rows, Complete());
    AggMatches(rows, Groups(rows), key);
    DedupMatches(f, [0, 1], [], key);
    match FirstWith(f, [0, 1], key)
    case Some(r) =>
      FilterMember(rows, Complete(), r);
      FilterMember(rows, KeyIs([0, 1], key), r);
      assert Pick(r, [0, 1]) == key;
      assert AggRows(rows, [r]) == [AggRow(rows, r)];
    case None =>
      if KeyComplete(key) && Matches(rows, [0, 1], key) != [] {
        var x := Matches(rows, [0, 1], key)[0];
        FilterMember(rows, KeyIs([0, 1], key), x);
        CompleteKeyKept(rows, x);
        assert false;
      }
  }

  /** The aggregate has one row per distinct complete key that the injuries
      have, and each row is that key followed by its two totals. */
  lemma AggregateRows(rows: seq<Row>)
    ensures Distinct(KeysOf(AggRows(rows, Groups(rows)), [0, 1]))
    ensures forall x :: x in rows && KeyComplete(Pick(x, [0, 1])) ==> Pick(x, [0, 1]) in KeysOf(AggRows(rows, Groups(rows)), [0, 1])
    ensures forall a :: a in AggRows(rows, Groups(rows)) ==>
      var key := Pick(a, [0, 1]);
      && KeyComplete(key) && Matches(rows, [0, 1], key) != []
      && a == key + [Num(Total(rows, key, 2)), Num(Total(rows, key, 3))]
  {
    var f := Filter(rows, Complete());
    var aggs := AggRows(rows, Groups(rows));
    AggKeys(rows, Groups(rows));
    DedupDistinct(f, [0, 1], []);
    forall x | x in rows && KeyComplete(Pick(x, [0, 1]))
      ensures Pick(x, [0, 1]) in KeysOf(aggs, [0, 1])
    {
      CompleteKeyKept(rows, x);
      DedupKeepsKeys(f, [0, 1], [], Pick(x, [0, 1]));
    }
    forall a | a in aggs
      ensures var key := Pick(a, [0, 1]);
        && KeyComplete(key) && Matches(rows, [0, 1], key) != []
        && a == key + [Num(Total(rows, key, 2)), Num(Total(rows, key, 3))]
    {
      AggRowsMember(rows, Groups(rows), a);
      var rep :| rep in Groups(rows) && a == AggRow(rows, rep);
      AggRowParts(rows, rep);
      FilterMember(rows, Complete(), rep);
      FilterMember(rows, KeyIs([0, 1], Pick(rep, [0, 1])), rep);
    }
  }

  /** The reference total, read off the injury table itself: column `c`
      summed over the injuries of player `id` in season `season`, NaN
      skipped. */
  function InjurySum(h: seq<string>, rows: seq<Row>, id: Cell, season: Cell, c: string): int {
    if rows == [] then 0
    else
      (if Lookup(h, rows[0], "player_id") == id && Lookup(h, rows[0], "season_name") == season
       then NumOr0(Lookup(h, rows[0], c)) else 0)
      + InjurySum(h, rows[1..], id, season, c)
  }

  /** The selected cells of one injury row: its key and its count `k`. */
  lemma SelectedRow(h: seq<string>, row: Row, k: nat)
    requires Locate(h, InjuryColumns).Ok? && 2 <= k < 4
    ensures Pick(Pick(row, Locate(h, InjuryColumns).value), [0, 1]) ==
      [Lookup(h, row, "player_id"), Lookup(h, row, "season_name")]
    ensures At(Pick(row, Locate(h, InjuryColumns).value), k) == Lookup(h, row, InjuryColumns[k])
  {
    var idx := Locate(h, InjuryColumns).value;
    assert Lookup(h, row, InjuryColumns[0]) == At(row, idx[0]);
    assert Lookup(h, row, InjuryColumns[1]) == At(row, idx[1]);
    assert Lookup(h, row, InjuryColumns[k]) == At(row, idx[k]);
  }

  /** Column `k` totalled over the rows of `key` among `[r] + rest`. */
  lemma TotalCons(r: Row, rest: seq<Row>, key: Row, k: nat)
    ensures Total([r] + rest, key, k) == (if Pick(r, [0, 1]) == key then NumOr0(At(r, k)) else 0) + Total(rest, key, k)
  {
    var s := [r] + rest;
    assert s[0] == r && s[1..] == rest;
    var m := Matches(rest, [0, 1], key);
    if Pick(r, [0, 1]) == key {
      assert Matches(s, [0, 1], key) == [r] + m;
      assert ([r] + m)[0] == r && ([r] + m)[1..] == m;
    } else {
      assert Matches(s, [0, 1], key) == m;
    }
  }

  /** A pair equals a two-cell key exactly when both cells do. */
  lemma PairIs(a: Cell, b: Cell, key: Row)
    requires |key| == 2
    ensures [a, b] == key <==> a == key[0] && b == key[1]
  {
    if a == key[0] && b == key[1] {
      assert [a, b] == [key[0], key[1]] == key;
    }
  }

  /** The group total over the four selected columns is the reference total
      over the injury table. */
  lemma {:induction false} TotalIsInjurySum(h: seq<string>, rows: seq<Row>, key: Row, k: nat)
    requires Locate(h, InjuryColumns).Ok? && |key| == 2 && 2 <= k < 4
    ensures Total(KeysOf(rows, Locate(h, InjuryColumns).value), key, k) == InjurySum(h, rows, key[0], key[1], InjuryColumns[k])
  {
    if rows != [] {
      var idx := Locate(h, InjuryColumns).value;
      TotalIsInjurySum(h, rows[1..], key, k);
      var ks := KeysOf(rows, idx);
      assert ks == [Pick(rows[0], idx)] + KeysOf(rows[1..], idx);
      TotalCons(Pick(rows[0], idx), KeysOf(rows[1..], idx), key, k);
      SelectedRow(h, rows[0], k);
      PairIs(Lookup(h, rows[0], "player_id"), Lookup(h, rows[0], "season_name"), key);
    }
  }

  /** What the script records for a performance of player `id` in season
      `season`: the injury total, and 0 when the key has a NaN, which no
      aggregate row has. */
  function Expected(injury: Table, id: Cell, season: Cell, c: string): int {
    if id == Missing || season == Missing then 0 else InjurySum(injury.header, injury.rows, id, season, c)
  }

  /** The positions of the aggregate's columns. */
  lemma InjuryIndices()
    ensures IndexOf(InjuryColumns, "player_id") == Some(0)
    ensures IndexOf(InjuryColumns, "season_name") == Some(1)
    ensures IndexOf(InjuryColumns, "days_missed") == Some(2)
    ensures IndexOf(InjuryColumns, "games_missed") == Some(3)
  {
    var h := InjuryColumns;
    IndexOfDistinct(h, 0);
    IndexOfDistinct(h, 1);
    IndexOfDistinct(h, 2);
    IndexOfDistinct(h, 3);
  }

  /** Where the merge finds the keys in the aggregate. */
  lemma InjuryKeysAt()
    ensures Locate(InjuryColumns, Keys) == Ok([0, 1])
  {
    InjuryIndices();
    var h := InjuryColumns;
    var o1 := Keys[1..];
    assert o1 == ["season_name"] && o1[1..] == [];
    assert Locate(h, o1[1..]) == Ok([]);
    assert [1] + [] == [1];
    assert Locate(h, o1) == Ok([1]);
    assert [0] + [1] == [0, 1];
  }

  /** The aggregate brings its two totals into the merge, from 2 and 3. */
  lemma InjuryTotalsAt()
    ensures Without(InjuryColumns, Keys) == Totals
    ensures Positions(InjuryColumns, Totals) == [2, 3]
  {
    var h := InjuryColumns;
    var p := (c: string) => c !in Keys;
    assert h[1..] == ["season_name", "days_missed", "games_missed"];
    assert h[1..][1..] == Totals;
    assert Totals[1..] == ["games_missed"] && Totals[1..][1..] == [];
    assert Filter(h[1..][1..], p) == Totals;
    InjuryIndices();
    var ps := Positions(h, Totals);
    assert |ps| == 2 && ps[0] == 2 && ps[1] == 3;
  }

  /** Where the merge finds the keys and the totals in the aggregate. */
  lemma InjuryColumnsAt()
    ensures Locate(InjuryColumns, Keys) == Ok([0, 1])
    ensures Without(InjuryColumns, Keys) == Totals
    ensures Positions(InjuryColumns, Totals) == [2, 3]
  {
    InjuryKeysAt();
    InjuryTotalsAt();
  }

  // ---------------------------------------------------------------------
  // The script

  /** Lines 15-42: the base table, the injury aggregate, and their left
      merge on player and season. */
  function Merged(perf: Table, injury: Table): (r: Result<Table>)
    ensures r.Ok? ==> |r.value.rows| >= |perf.rows|
  {
    var base :- DropColumns(perf, DropPerf);
    var sub :- Select(injury, InjuryColumns);
    var agg :- Aggregate(sub.rows);
    LeftMerge(base, agg, Keys)
  }

  /** NaN read as 0, as `fillna(0)` does. */
  function ZeroIfMissing(c: Cell): Cell {
    if c == Missing then Num(0) else c
  }

  /** `df[c] = df[c].fillna(0)`; a KeyError when there is no column `c`. */
  function ZeroFill(t: Table, c: string): (r: Result<Table>)
    ensures r.Ok? <==> c in t.header
    ensures r.Err? ==> r.error == MissingColumn(c)
    ensures r.Ok? ==> r.value.header == t.header && |r.value.rows| == |t.rows|
  {
    var col :- Column(t, c);
    Ok(WithColumn(t, c, FillMissing(col, Num(0))))
  }

  /** After `fillna(0)` column `c` has no NaN left, its numbers are kept, and
      no other column changes. */
  lemma ZeroFillCells(t: Table, c: string)
    requires WellFormed(t) && c in t.header
    ensures WellFormed(ZeroFill(t, c).value)
    ensures forall i :: 0 <= i < |t.rows| ==>
      Lookup(t.header, ZeroFill(t, c).value.rows[i], c) == ZeroIfMissing(Lookup(t.header, t.rows[i], c))
    ensures forall i, d :: 0 <= i < |t.rows| && d != c ==>
      Lookup(t.header, ZeroFill(t, c).value.rows[i], d) == Lookup(t.header, t.rows[i], d)
  {
    var col := Column(t, c).value;
    WithColumnCells(t, c, FillMissing(col, Num(0)));
  }

  /** Lines 46-47: both fills, one after the other. */
  function Filled(t: Table): Result<Table> {
    var days :- ZeroFill(t, "days_missed");
    ZeroFill(days, "games_missed")
  }

  /** The whole script after reading its two files. */
  function FinalData(perf: Table, injury: Table): Result<Table> {
    var merged :- Merged(perf, injury);
    Filled(merged)
  }

  /** The two fills made in place on the merged frame. On a KeyError the
      frame keeps the fills already made. */
  method FillInPlace(merged: Frame) returns (e: Option<Error>)
    modifies merged
    ensures e.None? <==> Filled(old(merged.Value())).Ok?
    ensures e.None? ==> merged.Value() == Filled(old(merged.Value())).value
    ensures e.Some? ==> e.value == Filled(old(merged.Value())).error
    ensures e.Some? && "days_missed" !in old(merged.Value()).header ==> merged.Value() == old(merged.Value())
    ensures e.Some? && "days_missed" in old(merged.Value()).header ==>
      merged.Value() == ZeroFill(old(merged.Value()), "days_missed").value
  {
    var days := Column(merged.Value(), "days_missed");
    if days.Err? {
      return Some(days.error);
    }
    merged.Assign("days_missed", FillMissing(days.value, Num(0)));
    var games := Column(merged.Value(), "games_missed");
    if games.Err? {
      return Some(games.error);
    }
    merged.Assign("games_missed", FillMissing(games.value, Num(0)));
    return None;
  }

  // ---------------------------------------------------------------------
  // What the script computes

  /** The two cells the merge appends for key `key`: the totals when the
      aggregate has that key, NaN otherwise. */
  function JoinedCells(rows: seq<Row>, key: Row): (r: Row)
    ensures |r| == 2
  {
    if KeyComplete(key) && Matches(rows, [0, 1], key) != [] then [Num(Total(rows, key, 2)), Num(Total(rows, key, 3))]
    else [Missing, Missing]
  }

  lemma FoundCells(rows: seq<Row>, key: Row)
    requires |key| == 2
    ensures |Matches(AggRows(rows, Groups(rows)), [0, 1], key)| <= 1
    ensures Found(Matches(AggRows(rows, Groups(rows)), [0, 1], key), [2, 3]) == JoinedCells(rows, key)
  {
    AggregateLookup(rows, key);
    var cells := [Num(Total(rows, key, 2)), Num(Total(rows, key, 3))];
    var a := key + cells;
    assert Pick(a, [2, 3]) == cells;
  }

  /** Picking the key columns of a row reads its player and its season. */
  lemma KeyPick(h: seq<string>, r: Row)
    requires "player_id" in h && "season_name" in h
    ensures Locate(h, Keys).Ok?
    ensures Pick(r, Locate(h, Keys).value) == [Lookup(h, r, "player_id"), Lookup(h, r, "season_name")]
  {
    var lk := Locate(h, Keys).value;
    assert Lookup(h, r, Keys[0]) == At(r, lk[0]);
    assert Lookup(h, r, Keys[1]) == At(r, lk[1]);
  }

  lemma KeysNotDropped()
    ensures "player_id" !in DropPerf && "season_name" !in DropPerf
  {
  }

  /** Dropping columns other than the keys leaves every row's key as it was. */
  lemma KeptKey(t: Table, cols: seq<string>, i: nat)
    requires WellFormed(t) && DropColumns(t, cols).Ok? && i < |t.rows|
    requires "player_id" in t.header && "season_name" in t.header
    requires "player_id" !in cols && "season_name" !in cols
    ensures Locate(DropColumns(t, cols).value.header, Keys).Ok?
    ensures Pick(DropColumns(t, cols).value.rows[i], Locate(DropColumns(t, cols).value.header, Keys).value) ==
      [Lookup(t.header, t.rows[i], "player_id"), Lookup(t.header, t.rows[i], "season_name")]
  {
    var d := DropColumns(t, cols).value;
    WithoutMembers(t.header, cols);
    assert "player_id" in d.header && "season_name" in d.header;
    DropColumnsCells(t, cols);
    KeyPick(d.header, d.rows[i]);
  }

  /** The selected injury rows are addable exactly when every day and game
      count of the injury table is a number or NaN. */
  lemma SubAddable(injury: Table)
    requires Select(injury, InjuryColumns).Ok?
    ensures Addables(Select(injury, InjuryColumns).value.rows) <==>
      forall i :: 0 <= i < |injury.rows| ==>
        Addable(Lookup(injury.header, injury.rows[i], "days_missed")) && Addable(Lookup(injury.header, injury.rows[i], "games_missed"))
  {
    var sub := Select(injury, InjuryColumns).value;
    assert forall i :: 0 <= i < |injury.rows| ==>
      At(sub.rows[i], 2) == Lookup(injury.header, injury.rows[i], InjuryColumns[2]) &&
      At(sub.rows[i], 3) == Lookup(injury.header, injury.rows[i], InjuryColumns[3]);
  }

  lemma BaseColumns(perf: Table)
    requires DropColumns(perf, DropPerf).Ok?
    requires "player_id" in perf.header && "season_name" in perf.header
    requires "days_missed" !in perf.header && "games_missed" !in perf.header
    ensures "player_id" in DropColumns(perf, DropPerf).value.header && "season_name" in DropColumns(perf, DropPerf).value.header
    ensures forall c :: c in Totals ==> c !in DropColumns(perf, DropPerf).value.header
  {
    WithoutMembers(perf.header, DropPerf);
  }

  /** A left merge on the player and season with the aggregate of `sub`
      keeps the rows of `base` one for one and appends the two cells of each
      row's key. */
  lemma MergeOnKeys(base: Table, sub: seq<Row>)
    requires WellFormed(base) && Addables(sub)
    requires "player_id" in base.header && "season_name" in base.header
    requires forall c :: c in Totals ==> c !in base.header
    ensures Locate(base.header, Keys).Ok?
    ensures LeftMerge(base, Aggregate(sub).value, Keys).Ok?
    ensures LeftMerge(base, Aggregate(sub).value, Keys).value.header == base.header + Totals
    ensures |LeftMerge(base, Aggregate(sub).value, Keys).value.rows| == |base.rows|
    ensures forall i :: 0 <= i < |base.rows| ==>
      LeftMerge(base, Aggregate(sub).value, Keys).value.rows[i] ==
        base.rows[i] + JoinedCells(sub, Pick(base.rows[i], Locate(base.header, Keys).value))
  {
    var agg := Aggregate(sub).value;
    assert forall c :: c in Keys ==> c == "player_id" || c == "season_name";
    assert LeftMerge(base, agg, Keys).Ok?;
    LeftMergeValue(base, agg, Keys);
    InjuryColumnsAt();
    MergedHeaderPlain(base.header, Totals);
    var aggs := AggRows(sub, Groups(sub));
    var lk := Locate(base.header, Keys).value;
    forall i | 0 <= i < |base.rows|
      ensures |Matches(aggs, [0, 1], Pick(base.rows[i], lk))| <= 1
      ensures Found(Matches(aggs, [0, 1], Pick(base.rows[i], lk)), [2, 3]) == JoinedCells(sub, Pick(base.rows[i], lk))
    {
      FoundCells(sub, Pick(base.rows[i], lk));
    }
    LookupJoin(base.rows, lk, aggs, [0, 1], [2, 3]);
  }

  /** The performances without the five dropped columns: well formed, still
      keyed by player and season, with no totals column yet. */
  lemma BaseTable(perf: Table)
    requires WellFormed(perf) && DropColumns(perf, DropPerf).Ok?
    requires "player_id" in perf.header && "season_name" in perf.header
    requires "days_missed" !in perf.header && "games_missed" !in perf.header
    ensures WellFormed(DropColumns(perf, DropPerf).value)
    ensures DropColumns(perf, DropPerf).value.header == Without(perf.header, DropPerf)
    ensures |DropColumns(perf, DropPerf).value.rows| == |perf.rows|
    ensures "player_id" in DropColumns(perf, DropPerf).value.header && "season_name" in DropColumns(perf, DropPerf).value.header
    ensures forall c :: c in Totals ==> c !in DropColumns(perf, DropPerf).value.header
  {
    BaseColumns(perf);
    DropColumnsCells(perf, DropPerf);
  }

  /** The merge keeps the base rows one for one and appends the two cells of
      each row's key. */
  lemma MergedRows(perf: Table, injury: Table)
    requires WellFormed(perf) && DropColumns(perf, DropPerf).Ok?
    requires "player_id" in perf.header && "season_name" in perf.header
    requires "days_missed" !in perf.header && "games_missed" !in perf.header
    requires Select(injury, InjuryColumns).Ok? && Addables(Select(injury, InjuryColumns).value.rows)
    ensures Merged(perf, injury).Ok?
    ensures Merged(perf, injury).value.header == Without(perf.header, DropPerf) + Totals
    ensures |Merged(perf, injury).value.rows| == |perf.rows|
    ensures forall i :: 0 <= i < |perf.rows| ==>
      Merged(perf, injury).value.rows[i] == DropColumns(perf, DropPerf).value.rows[i] +
        JoinedCells(Select(injury, InjuryColumns).value.rows,
          [Lookup(perf.header, perf.rows[i], "player_id"), Lookup(perf.header, perf.rows[i], "season_name")])
  {
    var base := DropColumns(perf, DropPerf).value;
    var sub := Select(injury, InjuryColumns).value;
    BaseTable(perf);
    MergeOnKeys(base, sub.rows);
    assert Merged(perf, injury) == LeftMerge(base, Aggregate(sub.rows).value, Keys);
    KeysNotDropped();
    forall i | 0 <= i < |perf.rows|
      ensures Pick(base.rows[i], Locate(base.header, Keys).value) ==
        [Lookup(perf.header, perf.rows[i], "player_id"), Lookup(perf.header, perf.rows[i], "season_name")]
    {
      KeptKey(perf, DropPerf, i);
    }
  }

  /** `fillna(0)` on a column at position `k` replaces NaN there and nothing
      else. */
  lemma ZeroFillAt(t: Table, c: string, k: nat)
    requires IndexOf(t.header, c) == Some(k)
    ensures ZeroFill(t, c).Ok?
    ensures ZeroFill(t, c).value.header == t.header
    ensures forall i :: 0 <= i < |t.rows| ==>
      ZeroFill(t, c).value.rows[i] == Put(t.rows[i], k, ZeroIfMissing(At(t.rows[i], k)))
  {
  }

  /** Both fills on one row whose last two cells are the totals. */
  lemma FillRow(r: Row, n: nat)
    requires |r| == n + 2
    ensures var r1 := Put(r, n, ZeroIfMissing(At(r, n)));
      Put(r1, n + 1, ZeroIfMissing(At(r1, n + 1))) == r[..n] + [ZeroIfMissing(r[n]), ZeroIfMissing(r[n + 1])]
  {
    var r1 := Put(r, n, ZeroIfMissing(At(r, n)));
    assert r1 == r[n := ZeroIfMissing(r[n])];
    assert At(r1, n + 1) == r[n + 1];
  }

  /** Both fills on a table whose last two columns are the totals. */
  lemma FilledRows(t: Table, lh: seq<string>)
    requires t.header == lh + Totals && forall c :: c in Totals ==> c !in lh
    requires forall i :: 0 <= i < |t.rows| ==> |t.rows[i]| == |lh| + 2
    ensures Filled(t).Ok? && Filled(t).value.header == t.header && |Filled(t).value.rows| == |t.rows|
    ensures forall i :: 0 <= i < |t.rows| ==>
      Filled(t).value.rows[i] == t.rows[i][..|lh|] + [ZeroIfMissing(t.rows[i][|lh|]), ZeroIfMissing(t.rows[i][|lh| + 1])]
  {
    assert IndexOf(Totals, "days_missed") == Some(0);
    assert Totals[1..] == ["games_missed"];
    assert IndexOf(Totals, "games_missed") == Some(1);
    IndexAfter(lh, Totals, "days_missed");
    IndexAfter(lh, Totals, "games_missed");
    ZeroFillAt(t, "days_missed", |lh|);
    var d := ZeroFill(t, "days_missed").value;
    ZeroFillAt(d, "games_missed", |lh| + 1);
    assert Filled(t) == ZeroFill(d, "games_missed");
    forall i | 0 <= i < |t.rows|
      ensures Filled(t).value.rows[i] == t.rows[i][..|lh|] + [ZeroIfMissing(t.rows[i][|lh|]), ZeroIfMissing(t.rows[i][|lh| + 1])]
    {
      FillRow(t.rows[i], |lh|);
    }
  }

  /** After the fills, the two cells of a key are the reference totals. */
  lemma FilledCells(injury: Table, id: Cell, season: Cell)
    requires Select(injury, InjuryColumns).Ok?
    ensures var j := JoinedCells(Select(injury, InjuryColumns).value.rows, [id, season]);
      [ZeroIfMissing(j[0]), ZeroIfMissing(j[1])] ==
      [Num(Expected(injury, id, season, "days_missed")), Num(Expected(injury, id, season, "games_missed"))]
  {
    var key := [id, season];
    var sub := Select(injury, InjuryColumns).value;
    SelectRows(injury, InjuryColumns);
    TotalIsInjurySum(injury.header, injury.rows, key, 2);
    TotalIsInjurySum(injury.header, injury.rows, key, 3);
    assert KeyComplete(key) <==> id != Missing && season != Missing;
  }

  /** main4.py end to end: the output has the performance columns minus the
      five dropped ones, then `days_missed` and `games_missed`; it has one row
      per performance, in order; each row is the performance's kept cells
      followed by its player's injury totals for that season, 0 when there
      are none. */
  lemma FinalRows(perf: Table, injury: Table)
    requires WellFormed(perf)
    requires forall c :: c in DropPerf ==> c in perf.header
    requires "player_id" in perf.header && "season_name" in perf.header
    requires "days_missed" !in perf.header && "games_missed" !in perf.header
    requires forall c :: c in InjuryColumns ==> c in injury.header
    requires forall i :: 0 <= i < |injury.rows| ==>
      Addable(Lookup(injury.header, injury.rows[i], "days_missed")) && Addable(Lookup(injury.header, injury.rows[i], "games_missed"))
    ensures FinalData(perf, injury).Ok?
    ensures FinalData(perf, injury).value.header == Without(perf.header, DropPerf) + Totals
    ensures |FinalData(perf, injury).value.rows| == |perf.rows|
    ensures forall i :: 0 <= i < |perf.rows| ==>
      var id, season := Lookup(perf.header, perf.rows[i], "player_id"), Lookup(perf.header, perf.rows[i], "season_name");
      FinalData(perf, injury).value.rows[i] == DropColumns(perf, DropPerf).value.rows[i] +
        [Num(Expected(injury, id, season, "days_missed")), Num(Expected(injury, id, season, "games_missed"))]
  {
    var sub := Select(injury, InjuryColumns).value;
    assert Addables(sub.rows) by {
      SubAddable(injury);
    }
    MergedRows(perf, injury);
    BaseTable(perf);
    var merged := Merged(perf, injury).value;
    FillMerged(merged, DropColumns(perf, DropPerf).value, perf, injury);
    assert FinalData(perf, injury) == Filled(merged);
  }

  /** The fills on the merged table: each row becomes its base row followed by
      the reference totals of its key. */
  lemma FillMerged(merged: Table, base: Table, perf: Table, injury: Table)
    requires Select(injury, InjuryColumns).Ok?
    requires merged.header == base.header + Totals && forall c :: c in Totals ==> c !in base.header
    requires |merged.rows| == |base.rows| == |perf.rows|
    requires forall i :: 0 <= i < |base.rows| ==> |base.rows[i]| == |base.header|
    requires forall i :: 0 <= i < |perf.rows| ==>
      merged.rows[i] == base.rows[i] +
        JoinedCells(Select(injury, InjuryColumns).value.rows,
          [Lookup(perf.header, perf.rows[i], "player_id"), Lookup(perf.header, perf.rows[i], "season_name")])
    ensures Filled(merged).Ok? && Filled(merged).value.header == merged.header
    ensures |Filled(merged).value.rows| == |perf.rows|
    ensures forall i :: 0 <= i < |perf.rows| ==>
      var id, season := Lookup(perf.header, perf.rows[i], "player_id"), Lookup(perf.header, perf.rows[i], "season_name");
      Filled(merged).value.rows[i] == base.rows[i] +
        [Num(Expected(injury, id, season, "days_missed")), Num(Expected(injury, id, season, "games_missed"))]
  {
    var sub := Select(injury, InjuryColumns).value;
    var lh := base.header;
    FilledRows(merged, lh);
    forall i | 0 <= i < |perf.rows|
      ensures var id, season := Lookup(perf.header, perf.rows[i], "player_id"), Lookup(perf.header, perf.rows[i], "season_name");
        Filled(merged).value.rows[i] == base.rows[i] +
          [Num(Expected(injury, id, season, "days_missed")), Num(Expected(injury, id, season, "games_missed"))]
    {
      var id, season := Lookup(perf.header, perf.rows[i], "player_id"), Lookup(perf.header, perf.rows[i], "season_name");
      FilledCells(injury, id, season);
      FilledJoin(merged.rows[i], base.rows[i], JoinedCells(sub.rows, [id, season]));
    }
  }

  /** A merged row is the base row followed by the two looked-up cells; filling
      it fills those two. */
  lemma FilledJoin(m: Row, b: Row, j: Row)
    requires m == b + j && |j| == 2
    ensures m[..|b|] + [ZeroIfMissing(m[|b|]), ZeroIfMissing(m[|b| + 1])] == b + [ZeroIfMissing(j[0]), ZeroIfMissing(j[1])]
  {
    assert m[..|b|] == b && m[|b|] == j[0] && m[|b| + 1] == j[1];
  }

  /** The same, column by column: every column the script keeps reads as in
      the performance row, and the two new columns read the totals. */
  lemma FinalCells(perf: Table, injury: Table)
    requires WellFormed(perf)
    requires forall c :: c in DropPerf ==> c in perf.header
    requires "player_id" in perf.header && "season_name" in perf.header
    requires "days_missed" !in perf.header && "games_missed" !in perf.header
    requires forall c :: c in InjuryColumns ==> c in injury.header
    requires forall i :: 0 <= i < |injury.rows| ==>
      Addable(Lookup(injury.header, injury.rows[i], "days_missed")) && Addable(Lookup(injury.header, injury.rows[i], "games_missed"))
    ensures FinalData(perf, injury).Ok?
    ensures forall i, c :: 0 <= i < |perf.rows| && c in perf.header && c !in DropPerf ==>
      Lookup(FinalData(perf, injury).value.header, FinalData(perf, injury).value.rows[i], c) == Lookup(perf.header, perf.rows[i], c)
    ensures forall i :: 0 <= i < |perf.rows| ==>
      var id, season := Lookup(perf.header, perf.rows[i], "player_id"), Lookup(perf.header, perf.rows[i], "season_name");
      && Lookup(FinalData(perf, injury).value.header, FinalData(perf, injury).value.rows[i], "days_missed") == Num(Expected(injury, id, season, "days_missed"))
      && Lookup(FinalData(perf, injury).value.header, FinalData(perf, injury).value.rows[i], "games_missed") == Num(Expected(injury, id, season, "games_missed"))
  {
    FinalRows(perf, injury);
    var f := FinalData(perf, injury).value;
    var base := DropColumns(perf, DropPerf).value;
    assert WellFormed(base) by {
      DropColumnsCells(perf, DropPerf);
    }
    BaseColumns(perf);
    forall i | 0 <= i < |perf.rows|
      ensures forall c :: c in perf.header && c !in DropPerf ==> Lookup(f.header, f.rows[i], c) == Lookup(perf.header, perf.rows[i], c)
      ensures var id, season := Lookup(perf.header, perf.rows[i], "player_id"), Lookup(perf.header, perf.rows[i], "season_name");
        && Lookup(f.header, f.rows[i], "days_missed") == Num(Expected(injury, id, season, "days_missed"))
        && Lookup(f.header, f.rows[i], "games_missed") == Num(Expected(injury, id, season, "games_missed"))
    {
      var id, season := Lookup(perf.header, perf.rows[i], "player_id"), Lookup(perf.header, perf.rows[i], "season_name");
      AppendedCells(base.header, base.rows[i], Num(Expected(injury, id, season, "days_missed")), Num(Expected(injury, id, season, "games_missed")));
      DropColumnsCells(perf, DropPerf);
      WithoutMembers(perf.header, DropPerf);
    }
  }

  /** Reading a row that has the two totals appended. */
  lemma AppendedCells(lh: seq<string>, b: Row, x: Cell, y: Cell)
    requires |b| == |lh| && forall c :: c in Totals ==> c !in lh
    ensures forall c :: c in lh ==> Lookup(lh + Totals, b + [x, y], c) == Lookup(lh, b, c)
    ensures Lookup(lh + Totals, b + [x, y], "days_missed") == x
    ensures Lookup(lh + Totals, b + [x, y], "games_missed") == y
  {
    assert IndexOf(Totals, "days_missed") == Some(0);
    assert Totals[1..] == ["games_missed"];
    assert IndexOf(Totals, "games_missed") == Some(1);
    IndexAfter(lh, Totals, "days_missed");
    IndexAfter(lh, Totals, "games_missed");
    forall c | c in lh ensures Lookup(lh + Totals, b + [x, y], c) == Lookup(lh, b, c) {
      IndexOfConcat(lh, Totals, c);
    }
  }
}
