/** The second stage (main2.py): give every performance row its player's main
    position, keep the four known positions, and write one file per position. */
module PositionSplit {
  import opened Frames
  import opened Joins

  const TargetPositions: seq<string> := ["Attack", "Defender", "Midfield", "Goalkeeper"]

  /** The target positions in the order `groupby` visits them (sorted keys). */
  const SortedPositions: seq<string> := ["Attack", "Defender", "Goalkeeper", "Midfield"]

  const OutputPrefix: string := "performances_main_pos_"

  /** One CSV file written by the split: its name and its contents. */
  datatype OutputFile = OutputFile(name: string, table: Table)

  /** One group of `groupby('main_position')`. */
  datatype Group = Group(position: string, rows: seq<Row>)

  /** The merged table and the position of its `main_position` column. */
  datatype Merged = Merged(table: Table, position: nat)

  /** What the split reports: the files, the rows written to them, and
      `missing_position_count`. */
  datatype Outcome = Outcome(files: seq<OutputFile>, written: nat, missing: int)

  /** Rows whose cell at `k` is one of the strings `ps` (`isin`). */
  function PositionIn(k: nat, ps: seq<string>): Row -> bool {
    (r: Row) => At(r, k).Text? && At(r, k).text in ps
  }

  /** Rows whose cell at `k` is the string `p`. */
  function HasPosition(k: nat, p: string): Row -> bool {
    (r: Row) => At(r, k) == Text(p)
  }

  /** The `(player_id, main_position)` projection of the profiles with
      duplicate pairs removed, first occurrence kept. */
  function ProfilePairs(prof: Table): (r: Result<Table>)
    ensures r.Ok? <==> "player_id" in prof.header && "main_position" in prof.header
    ensures r.Err? ==> r.error.MissingColumn? && r.error.name in ["player_id", "main_position"] && r.error.name !in prof.header
    ensures r.Ok? ==> r.value.header == ["player_id", "main_position"]
  {
    var sel :- Select(prof, ["player_id", "main_position"]);
    Ok(Table(sel.header, DropDuplicates(sel.rows, [0, 1])))
  }

  /** The pair a profile row contributes. */
  function PairOf(h: seq<string>, r: Row): Row {
    [Lookup(h, r, "player_id"), Lookup(h, r, "main_position")]
  }

  lemma PickPair(x: Row)
    requires |x| == 2
    ensures Pick(x, [0, 1]) == x
  {
  }

  /** Deduplicating pairs on both columns keeps every pair. */
  lemma PairsKept(rows: seq<Row>, x: Row)
    requires forall y :: y in rows ==> |y| == 2
    requires x in rows
    ensures x in DropDuplicates(rows, [0, 1])
  {
    var d := DropDuplicates(rows, [0, 1]);
    var i :| 0 <= i < |rows| && rows[i] == x;
    PickPair(x);
    assert KeysOf(rows, [0, 1])[i] == x;
    DedupKeepsKeys(rows, [0, 1], [], x);
    var j :| 0 <= j < |d| && KeysOf(d, [0, 1])[j] == x;
    assert d[j] in rows;
    PickPair(d[j]);
    assert d[j] == x;
  }

  /** Deduplicating pairs on both columns leaves no pair twice. */
  lemma PairsOnce(rows: seq<Row>)
    requires forall y :: y in rows ==> |y| == 2
    ensures Distinct(DropDuplicates(rows, [0, 1]))
  {
    var d := DropDuplicates(rows, [0, 1]);
    DedupDistinct(rows, [0, 1], []);
    forall i, j | 0 <= i < j < |d| ensures d[i] != d[j] {
      assert d[i] in rows && d[j] in rows;
      PickPair(d[i]);
      PickPair(d[j]);
      assert KeysOf(d, [0, 1])[i] != KeysOf(d, [0, 1])[j];
    }
  }

  /** The projection removes repeated pairs only: it holds every pair of a
      profile row, each once, and nothing else. */
  lemma ProfilePairsRows(prof: Table)
    requires ProfilePairs(prof).Ok?
    ensures forall i :: 0 <= i < |prof.rows| ==> PairOf(prof.header, prof.rows[i]) in ProfilePairs(prof).value.rows
    ensures forall x :: x in ProfilePairs(prof).value.rows ==> exists i :: 0 <= i < |prof.rows| && x == PairOf(prof.header, prof.rows[i])
    ensures Distinct(ProfilePairs(prof).value.rows)
  {
    var sel := Select(prof, ["player_id", "main_position"]).value;
    assert ProfilePairs(prof).value.rows == DropDuplicates(sel.rows, [0, 1]);
    assert forall i :: 0 <= i < |sel.rows| ==> sel.rows[i] == PairOf(prof.header, prof.rows[i]);
    forall i | 0 <= i < |prof.rows| ensures PairOf(prof.header, prof.rows[i]) in DropDuplicates(sel.rows, [0, 1]) {
      assert sel.rows[i] in sel.rows;
      PairsKept(sel.rows, sel.rows[i]);
    }
    forall x | x in DropDuplicates(sel.rows, [0, 1]) ensures exists i :: 0 <= i < |prof.rows| && x == PairOf(prof.header, prof.rows[i]) {
      var i :| 0 <= i < |sel.rows| && sel.rows[i] == x;
    }
    PairsOnce(sel.rows);
  }

  /** A player listed with two different positions keeps two profile rows. */
  lemma TwoPositionsKept(prof: Table, i: nat, j: nat)
    requires ProfilePairs(prof).Ok? && i < |prof.rows| && j < |prof.rows|
    requires Lookup(prof.header, prof.rows[i], "main_position") != Lookup(prof.header, prof.rows[j], "main_position")
    ensures PairOf(prof.header, prof.rows[i]) in ProfilePairs(prof).value.rows
    ensures PairOf(prof.header, prof.rows[j]) in ProfilePairs(prof).value.rows
    ensures PairOf(prof.header, prof.rows[i]) != PairOf(prof.header, prof.rows[j])
  {
    ProfilePairsRows(prof);
  }

  /** The left merge on `player_id` and the `main_position` column of its
      result; a KeyError at the first absent column. */
  function MergePositions(perf: Table, prof: Table): (r: Result<Merged>)
    ensures r.Ok? ==> IndexOf(r.value.table.header, "main_position") == Some(r.value.position)
    ensures r.Ok? ==> |r.value.table.rows| >= |perf.rows|
    ensures r.Err? ==> r.error.MissingColumn?
  {
    var pairs :- ProfilePairs(prof);
    var merged :- LeftMerge(perf, pairs, ["player_id"]);
    match IndexOf(merged.header, "main_position")
    case None => Err(MissingColumn("main_position"))
    case Some(k) => Ok(Merged(merged, k))
  }

  /** When the performances have a `player_id` column and no `main_position`
      of their own, the merge succeeds and appends `main_position` last. */
  lemma MergedPositionLast(perf: Table, prof: Table)
    requires "player_id" in perf.header && "main_position" !in perf.header
    requires ProfilePairs(prof).Ok?
    ensures MergePositions(perf, prof).Ok?
    ensures MergePositions(perf, prof).value.table.header == perf.header + ["main_position"]
    ensures MergePositions(perf, prof).value.position == |perf.header|
    ensures MergePositions(perf, prof).value.table == LeftMerge(perf, ProfilePairs(prof).value, ["player_id"]).value
  {
    var pairs := ProfilePairs(prof).value;
    var on := ["player_id"];
    var names := Without(pairs.header, on);
    PairsNonKey();
    assert LeftMerge(perf, pairs, on).Ok?;
    LeftMergeValue(perf, pairs, on);
    var merged := LeftMerge(perf, pairs, on).value;
    MergedHeaderPlain(perf.header, names);
    assert merged.header == perf.header + ["main_position"];
    IndexAfter(perf.header, names, "main_position");
    assert MergePositions(perf, prof) == Ok(Merged(merged, |perf.header|));
  }

  /** The only non-key column the pairs bring into the merge. */
  lemma PairsNonKey()
    ensures Without(["player_id", "main_position"], ["player_id"]) == ["main_position"]
  {
    var s: seq<string> := ["player_id", "main_position"];
    var p := (c: string) => c !in ["player_id"];
    assert s[1..] == ["main_position"] && s[1..][1..] == [];
    assert Filter(s[1..], p) == ["main_position"];
  }

  /** Where the merge finds the key and the position in the pairs. */
  lemma PairsColumns()
    ensures Locate(["player_id", "main_position"], ["player_id"]) == Ok([0])
    ensures Positions(["player_id", "main_position"], ["main_position"]) == [1]
  {
    var h: seq<string> := ["player_id", "main_position"];
    assert IndexOf(h[1..], "main_position") == Some(0);
    assert IndexOf(h, "main_position") == Some(1);
    var p := Positions(h, ["main_position"]);
    assert |p| == 1 && p[0] == 1;
    var on: seq<string> := ["player_id"];
    assert IndexOf(h, on[0]) == Some(0) && on[1..] == [];
    assert Locate(h, on[1..]) == Ok([]);
    assert [0] + [] == [0];
  }

  /** `merged_df[merged_df['main_position'].isin(target_main_positions)]`. */
  function Kept(m: Merged): seq<Row> {
    Filter(m.table.rows, PositionIn(m.position, TargetPositions))
  }

  /** A merged row survives iff its position is one of the four; a missing
      position never survives. */
  lemma KeptIff(m: Merged, x: Row)
    ensures x in Kept(m) <==> x in m.table.rows && At(x, m.position).Text? && At(x, m.position).text in TargetPositions
    ensures At(x, m.position) == Missing ==> x !in Kept(m)
  {
    FilterMember(m.table.rows, PositionIn(m.position, TargetPositions), x);
  }

  /** A performance row without a profile gets a missing position and is
      therefore not written to any file. */
  lemma UnmatchedDropped(perf: Table, prof: Table, i: nat)
    requires WellFormed(perf) && i < |perf.rows|
    requires "player_id" in perf.header && "main_position" !in perf.header
    requires ProfilePairs(prof).Ok?
    requires Matches(ProfilePairs(prof).value.rows, [0], Pick(perf.rows[i], Locate(perf.header, ["player_id"]).value)) == []
    ensures MergePositions(perf, prof).Ok?
    ensures perf.rows[i] + [Missing] in MergePositions(perf, prof).value.table.rows
    ensures perf.rows[i] + [Missing] !in Kept(MergePositions(perf, prof).value)
  {
    MergedPositionLast(perf, prof);
    var pairs := ProfilePairs(prof).value;
    var on := ["player_id"];
    PairsNonKey();
    PairsColumns();
    var extra := [1];
    var lk := Locate(perf.header, on).value;
    var m := MergePositions(perf, prof).value;
    LeftMergeValue(perf, pairs, on);
    assert m.table.rows == JoinRows(perf.rows, lk, pairs.rows, [0], extra);
    UnmatchedRowIn(perf.rows, lk, pairs.rows, [0], extra, i);
    var x := perf.rows[i] + [Missing];
    assert Nulls(|extra|) == [Missing];
    assert At(x, m.position) == Missing;
    KeptIff(m, x);
  }

  /** The groups of `rows` for the positions `ps`, in that order, leaving out
      positions no row has. */
  function GroupsOver(rows: seq<Row>, k: nat, ps: seq<string>): seq<Group> {
    if ps == [] then []
    else
      var g := Filter(rows, HasPosition(k, ps[0]));
      (if g == [] then [] else [Group(ps[0], g)]) + GroupsOver(rows, k, ps[1..])
  }

  /** `df_for_split.groupby('main_position')`. */
  function Groups(m: Merged): seq<Group> {
    GroupsOver(Kept(m), m.position, SortedPositions)
  }

  /** The rows in all groups together. */
  function SumSizes(gs: seq<Group>): nat {
    if gs == [] then 0 else SumSizes(gs[..|gs| - 1]) + |gs[|gs| - 1].rows|
  }

  lemma {:induction false} SumSizesConcat(a: seq<Group>, b: seq<Group>)
    ensures SumSizes(a + b) == SumSizes(a) + SumSizes(b)
  {
    if b != [] {
      assert (a + b)[..|a + b| - 1] == a + b[..|b| - 1];
      SumSizesConcat(a, b[..|b| - 1]);
    } else {
      assert a + b == a;
    }
  }

  /** Splitting off one position: a row whose cell is in `[p] + ps` is either
      `p` or in `ps`, never both. */
  lemma {:induction false} SplitCount(rows: seq<Row>, k: nat, p: string, ps: seq<string>)
    requires p !in ps
    ensures |Filter(rows, PositionIn(k, [p] + ps))| ==
      |Filter(rows, HasPosition(k, p))| + |Filter(rows, PositionIn(k, ps))|
  {
    if rows != [] {
      SplitCount(rows[1..], k, p, ps);
    }
  }

  /** The group sizes add up to the number of rows whose position is listed. */
  lemma {:induction false} GroupsOverSize(rows: seq<Row>, k: nat, ps: seq<string>)
    requires Distinct(ps)
    ensures SumSizes(GroupsOver(rows, k, ps)) == |Filter(rows, PositionIn(k, ps))|
  {
    if ps == [] {
      assert Filter(rows, PositionIn(k, ps)) == [] by { FilterNone(rows, PositionIn(k, ps)); }
    } else {
      DistinctTail(ps);
      GroupsOverSize(rows, k, ps[1..]);
      var g := Filter(rows, HasPosition(k, ps[0]));
      var head := if g == [] then [] else [Group(ps[0], g)];
      SumSizesConcat(head, GroupsOver(rows, k, ps[1..]));
      assert SumSizes(head) == |g| by {
        if g != [] {
          assert head[..0] == [];
        }
      }
      SplitCount(rows, k, ps[0], ps[1..]);
      assert [ps[0]] + ps[1..] == ps;
    }
  }

  /** A predicate that holds of nothing selects nothing. */
  lemma {:induction false} FilterNone<T>(s: seq<T>, p: T -> bool)
    requires forall i :: 0 <= i < |s| ==> !p(s[i])
    ensures Filter(s, p) == []
  {
    if s != [] {
      assert !p(s[0]);
      FilterNone(s[1..], p);
    }
  }

  /** Every group is named after a listed position, is not empty, and holds
      exactly the rows with that position, in their order. */
  lemma {:induction false} GroupsOverShape(rows: seq<Row>, k: nat, ps: seq<string>)
    ensures forall g :: g in GroupsOver(rows, k, ps) ==>
      g.position in ps && g.rows != [] && g.rows == Filter(rows, HasPosition(k, g.position))
  {
    if ps != [] {
      GroupsOverShape(rows, k, ps[1..]);
    }
  }

  /** Every row whose position is listed lies in the group of its position. */
  lemma {:induction false} GroupsOverCover(rows: seq<Row>, k: nat, ps: seq<string>, x: Row)
    requires x in rows && At(x, k).Text? && At(x, k).text in ps
    ensures exists g :: g in GroupsOver(rows, k, ps) && At(x, k) == Text(g.position) && x in g.rows
  {
    if ps[0] == At(x, k).text {
      FilterMember(rows, HasPosition(k, ps[0]), x);
      var g := Group(ps[0], Filter(rows, HasPosition(k, ps[0])));
      assert g in GroupsOver(rows, k, ps);
    } else {
      GroupsOverCover(rows, k, ps[1..], x);
    }
  }

  /** The tail of a distinct list is distinct and lacks the head. */
  lemma DistinctTail(ps: seq<string>)
    requires Distinct(ps) && ps != []
    ensures Distinct(ps[1..]) && ps[0] !in ps[1..]
  {
    forall i, j | 0 <= i < j < |ps[1..]| ensures ps[1..][i] != ps[1..][j] {
      assert ps[1..][i] == ps[i + 1] && ps[1..][j] == ps[j + 1];
    }
    forall j | 0 <= j < |ps[1..]| ensures ps[1..][j] != ps[0] {
      assert ps[1..][j] == ps[j + 1];
    }
  }

  /** No two groups of `gs` have the same position. */
  predicate DistinctPositions(gs: seq<Group>) {
    forall i, j :: 0 <= i < j < |gs| ==> gs[i].position != gs[j].position
  }

  /** Putting at most one group for a new position in front keeps the
      positions distinct. */
  lemma ConsDistinct(head: seq<Group>, rest: seq<Group>, p: string)
    requires |head| <= 1 && (forall g :: g in head ==> g.position == p)
    requires forall g :: g in rest ==> g.position != p
    requires DistinctPositions(rest)
    ensures DistinctPositions(head + rest)
  {
    var gs := head + rest;
    forall i, j | 0 <= i < j < |gs| ensures gs[i].position != gs[j].position {
      if i < |head| {
        assert gs[i] in head && gs[j] == rest[j - |head|] && rest[j - |head|] in rest;
      } else {
        assert gs[i] == rest[i - |head|] && gs[j] == rest[j - |head|];
      }
    }
  }

  /** No two groups share a position, so no two files share a name. */
  lemma {:induction false} GroupsOverDistinct(rows: seq<Row>, k: nat, ps: seq<string>)
    requires Distinct(ps)
    ensures DistinctPositions(GroupsOver(rows, k, ps))
  {
    if ps != [] {
      DistinctTail(ps);
      GroupsOverDistinct(rows, k, ps[1..]);
      GroupsOverShape(rows, k, ps[1..]);
      var g := Filter(rows, HasPosition(k, ps[0]));
      var head := if g == [] then [] else [Group(ps[0], g)];
      ConsDistinct(head, GroupsOver(rows, k, ps[1..]), ps[0]);
    }
  }

  /** The groups partition the kept rows: each row of group p has position p,
      the groups keep the rows' order, every kept row is in the group of its
      position, only occurring positions get a group, and the sizes add up to
      the number of kept rows. */
  lemma GroupsPartition(m: Merged)
    ensures forall g :: g in Groups(m) ==>
      g.position in TargetPositions && g.rows != [] && Subsequence(g.rows, Kept(m))
      && forall x :: x in g.rows ==> x in Kept(m) && At(x, m.position) == Text(g.position)
    ensures forall x :: x in Kept(m) ==>
      exists g :: g in Groups(m) && At(x, m.position) == Text(g.position) && x in g.rows
    ensures forall i, j :: 0 <= i < j < |Groups(m)| ==> Groups(m)[i].position != Groups(m)[j].position
    ensures SumSizes(Groups(m)) == |Kept(m)|
  {
    var k := m.position;
    var kept := Kept(m);
    GroupsOverShape(kept, k, SortedPositions);
    forall g | g in Groups(m)
      ensures Subsequence(g.rows, kept)
      ensures forall x :: x in g.rows ==> x in kept && At(x, k) == Text(g.position)
    {
      FilterIsSubsequence(kept, HasPosition(k, g.position));
      forall x | x in g.rows ensures x in kept && At(x, k) == Text(g.position) {
        FilterMember(kept, HasPosition(k, g.position), x);
      }
    }
    forall x | x in kept ensures exists g :: g in Groups(m) && At(x, k) == Text(g.position) && x in g.rows {
      KeptIff(m, x);
      GroupsOverCover(kept, k, SortedPositions, x);
    }
    GroupsOverDistinct(kept, k, SortedPositions);
    GroupsOverSize(kept, k, SortedPositions);
    forall i | 0 <= i < |kept| ensures PositionIn(k, SortedPositions)(kept[i]) == PositionIn(k, TargetPositions)(kept[i]) {
    }
    FilterAgrees(kept, PositionIn(k, SortedPositions), PositionIn(k, TargetPositions));
    FilterIdempotent(m.table.rows, PositionIn(k, TargetPositions));
  }

  /** The `for` loop over the groups: one file per group, named after its
      position, and the running total of rows written. */
  method WriteGroups(header: seq<string>, groups: seq<Group>) returns (files: seq<OutputFile>, written: nat)
    ensures |files| == |groups|
    ensures forall i :: 0 <= i < |groups| ==>
      files[i] == OutputFile(OutputPrefix + groups[i].position + ".csv", Table(header, groups[i].rows))
    ensures written == SumSizes(groups)
  {
    files := [];
    written := 0;
    var i := 0;
    while i < |groups|
      invariant 0 <= i <= |groups|
      invariant |files| == i
      invariant forall j :: 0 <= j < i ==>
        files[j] == OutputFile(OutputPrefix + groups[j].position + ".csv", Table(header, groups[j].rows))
      invariant written == SumSizes(groups[..i])
    {
      files := files + [OutputFile(OutputPrefix + groups[i].position + ".csv", Table(header, groups[i].rows))];
      written := written + |groups[i].rows|;
      assert groups[..i + 1][..i] == groups[..i];
      i := i + 1;
    }
    assert groups[..|groups|] == groups;
  }

  /** The whole script: merge, filter, split and count. The files hold the
      groups, every kept row is written exactly once, and the missing count is
      the number of merged rows that were not kept. */
  method SplitByPosition(perf: Table, prof: Table) returns (r: Result<Outcome>)
    ensures r.Ok? <==> MergePositions(perf, prof).Ok?
    ensures r.Err? ==> r.error == MergePositions(perf, prof).error
    ensures r.Ok? ==>
      var m := MergePositions(perf, prof).value;
      && |r.value.files| == |Groups(m)|
      && (forall i :: 0 <= i < |Groups(m)| ==>
           r.value.files[i] == OutputFile(OutputPrefix + Groups(m)[i].position + ".csv", Table(m.table.header, Groups(m)[i].rows)))
      && r.value.written == |Kept(m)|
      && r.value.missing == |m.table.rows| - |Kept(m)|
      && r.value.missing >= 0
  {
    var m :- MergePositions(perf, prof);
    var kept := Kept(m);
    GroupsPartition(m);
    var files, written := WriteGroups(m.table.header, Groups(m));
    var missing := |m.table.rows| - |kept|;
    return Ok(Outcome(files, written, missing));
  }
}
