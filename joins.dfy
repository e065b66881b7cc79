/** `pd.merge(left, right, on=keys, how='left')` and the inner join it turns
    into once the rows without a right-hand value are dropped. A merged row is
    the left row followed by the right row's non-key cells; left rows keep
    their order, and the right rows matching one left row follow in their own
    order. */
module Joins {
  import opened Frames

  /** A row of NaN, the right-hand part of an unmatched left row. */
  function Nulls(n: nat): (r: Row)
    ensures |r| == n
    ensures forall j :: 0 <= j < n ==> r[j] == Missing
  {
    seq(n, j => Missing)
  }

  /** The left row `l` joined to each of the matching right rows `ms`. */
  function Attach(l: Row, ms: seq<Row>, extra: seq<nat>): (r: seq<Row>)
    ensures |r| == |ms|
    ensures forall j :: 0 <= j < |ms| ==> r[j] == l + Pick(ms[j], extra)
  {
    if ms == [] then [] else [l + Pick(ms[0], extra)] + Attach(l, ms[1..], extra)
  }

  /** What one left row contributes to a left join. */
  function Combine(l: Row, ms: seq<Row>, extra: seq<nat>): seq<Row> {
    if ms == [] then [l + Nulls(|extra|)] else Attach(l, ms, extra)
  }

  /** Left rows whose key at `lk` matches no right row. */
  function Unmatched(lk: seq<nat>, right: seq<Row>, rk: seq<nat>): Row -> bool {
    (l: Row) => Matches(right, rk, Pick(l, lk)) == []
  }

  function JoinRows(left: seq<Row>, lk: seq<nat>, right: seq<Row>, rk: seq<nat>, extra: seq<nat>): seq<Row> {
    if left == [] then []
    else Combine(left[0], Matches(right, rk, Pick(left[0], lk)), extra) + JoinRows(left[1..], lk, right, rk, extra)
  }

  /** The inner join: one row per pair of a left row and a matching right row. */
  function InnerRows(left: seq<Row>, lk: seq<nat>, right: seq<Row>, rk: seq<nat>, extra: seq<nat>): seq<Row> {
    if left == [] then []
    else Attach(left[0], Matches(right, rk, Pick(left[0], lk)), extra) + InnerRows(left[1..], lk, right, rk, extra)
  }

  /** How many (left row, matching right row) pairs there are. */
  function PairCount(left: seq<Row>, lk: seq<nat>, right: seq<Row>, rk: seq<nat>): nat {
    if left == [] then 0 else |Matches(right, rk, Pick(left[0], lk))| + PairCount(left[1..], lk, right, rk)
  }

  /** pandas' default suffixes for a non-key column present on both sides. */
  function Suffixed(cols: seq<string>, clash: seq<string>, suffix: string): (r: seq<string>)
    ensures |r| == |cols|
  {
    if cols == [] then []
    else [if cols[0] in clash then cols[0] + suffix else cols[0]] + Suffixed(cols[1..], clash, suffix)
  }

  /** Column `j` gets the suffix exactly when the other side has it too. */
  lemma {:induction false} SuffixedAt(cols: seq<string>, clash: seq<string>, suffix: string, j: nat)
    requires j < |cols|
    ensures Suffixed(cols, clash, suffix)[j] == if cols[j] in clash then cols[j] + suffix else cols[j]
  {
    if j > 0 {
      SuffixedAt(cols[1..], clash, suffix, j - 1);
    }
  }

  /** No column of `cols` clashes: nothing is renamed. */
  lemma {:induction false} SuffixedPlain(cols: seq<string>, clash: seq<string>, suffix: string)
    requires forall c :: c in cols ==> c !in clash
    ensures Suffixed(cols, clash, suffix) == cols
  {
    if cols != [] {
      assert cols[0] in cols;
      assert forall c :: c in cols[1..] ==> c in cols;
      SuffixedPlain(cols[1..], clash, suffix);
    }
  }

  /** Columns of a merge: the left header, then the right non-key columns. */
  function MergedHeader(lh: seq<string>, names: seq<string>): seq<string> {
    Suffixed(lh, names, "_x") + Suffixed(names, lh, "_y")
  }

  /** The positions of the columns `cols`, all of which are in `h`. */
  function Positions(h: seq<string>, cols: seq<string>): (r: seq<nat>)
    ensures |r| == |cols|
    ensures forall j {:trigger r[j]} :: 0 <= j < |cols| && cols[j] in h ==> IndexOf(h, cols[j]) == Some(r[j])
  {
    seq(|cols|, j requires 0 <= j < |cols| => match IndexOf(h, cols[j]) case Some(k) => k case None => 0)
  }

  /** `pd.merge(l, r, on=on, how='left')`; a KeyError when a key column is absent on either side. */
  function LeftMerge(l: Table, r: Table, on: seq<string>): (m: Result<Table>)
    ensures m.Ok? <==> (forall c :: c in on ==> c in l.header) && (forall c :: c in on ==> c in r.header)
    ensures m.Err? ==> m.error.MissingColumn? && m.error.name in on
    ensures m.Ok? ==> m.value.header == MergedHeader(l.header, Without(r.header, on))
    ensures m.Ok? ==> |m.value.rows| >= |l.rows|
  {
    var lk :- Locate(l.header, on);
    var rk :- Locate(r.header, on);
    var names := Without(r.header, on);
    var extra := Positions(r.header, names);
    JoinKeepsLeftRows(l.rows, lk, r.rows, rk, extra);
    Ok(Table(MergedHeader(l.header, names), JoinRows(l.rows, lk, r.rows, rk, extra)))
  }

  /** The same merge with how='inner'. */
  function InnerJoin(l: Table, r: Table, on: seq<string>): (m: Result<Table>)
    ensures m.Ok? <==> (forall c :: c in on ==> c in l.header) && (forall c :: c in on ==> c in r.header)
  {
    var lk :- Locate(l.header, on);
    var rk :- Locate(r.header, on);
    var names := Without(r.header, on);
    var extra := Positions(r.header, names);
    Ok(Table(MergedHeader(l.header, names), InnerRows(l.rows, lk, r.rows, rk, extra)))
  }

  lemma {:induction false} JoinKeepsLeftRows(left: seq<Row>, lk: seq<nat>, right: seq<Row>, rk: seq<nat>, extra: seq<nat>)
    ensures |JoinRows(left, lk, right, rk, extra)| >= |left|
  {
    if left != [] {
      JoinKeepsLeftRows(left[1..], lk, right, rk, extra);
    }
  }

  /** Every row a left row contributes appears in the join. */
  lemma {:induction false} CombineIn(left: seq<Row>, lk: seq<nat>, right: seq<Row>, rk: seq<nat>, extra: seq<nat>, i: nat)
    requires i < |left|
    ensures forall x :: x in Combine(left[i], Matches(right, rk, Pick(left[i], lk)), extra) ==> x in JoinRows(left, lk, right, rk, extra)
  {
    if i > 0 {
      assert left[1..][i - 1] == left[i];
      CombineIn(left[1..], lk, right, rk, extra, i - 1);
    }
  }

  /** A left row that matches nothing appears once, padded with NaN. */
  lemma UnmatchedRowIn(left: seq<Row>, lk: seq<nat>, right: seq<Row>, rk: seq<nat>, extra: seq<nat>, i: nat)
    requires i < |left| && Matches(right, rk, Pick(left[i], lk)) == []
    ensures left[i] + Nulls(|extra|) in JoinRows(left, lk, right, rk, extra)
  {
    CombineIn(left, lk, right, rk, extra, i);
    assert left[i] + Nulls(|extra|) in Combine(left[i], [], extra);
  }

  /** Every row of an inner join is a left row followed by the picked cells
      of a right row with the same key. */
  lemma {:induction false} InnerRowsPair(left: seq<Row>, lk: seq<nat>, right: seq<Row>, rk: seq<nat>, extra: seq<nat>, x: Row)
    requires x in InnerRows(left, lk, right, rk, extra)
    ensures exists i, j ::
              0 <= i < |left| && 0 <= j < |right| && Pick(right[j], rk) == Pick(left[i], lk) && x == left[i] + Pick(right[j], extra)
  {
    var ms := Matches(right, rk, Pick(left[0], lk));
    var a := Attach(left[0], ms, extra);
    if x in a {
      var t :| 0 <= t < |ms| && a[t] == x;
      FilterMember(right, KeyIs(rk, Pick(left[0], lk)), ms[t]);
      var j :| 0 <= j < |right| && right[j] == ms[t];
      assert Pick(right[j], rk) == Pick(left[0], lk) && x == left[0] + Pick(right[j], extra);
    } else {
      InnerRowsPair(left[1..], lk, right, rk, extra, x);
      var i, j :| 0 <= i < |left[1..]| && 0 <= j < |right|
        && Pick(right[j], rk) == Pick(left[1..][i], lk) && x == left[1..][i] + Pick(right[j], extra);
      assert left[1..][i] == left[i + 1];
    }
  }

  /** A left join is the inner join plus one row for every unmatched left row. */
  lemma {:induction false} LeftJoinSize(left: seq<Row>, lk: seq<nat>, right: seq<Row>, rk: seq<nat>, extra: seq<nat>)
    ensures |JoinRows(left, lk, right, rk, extra)| ==
      |InnerRows(left, lk, right, rk, extra)| + Count(left, Unmatched(lk, right, rk))
  {
    if left != [] {
      LeftJoinSize(left[1..], lk, right, rk, extra);
    }
  }

  /** No aggregation: the inner join has exactly one row per matching pair. */
  lemma {:induction false} InnerJoinSize(left: seq<Row>, lk: seq<nat>, right: seq<Row>, rk: seq<nat>, extra: seq<nat>)
    ensures |InnerRows(left, lk, right, rk, extra)| == PairCount(left, lk, right, rk)
  {
    if left != [] {
      InnerJoinSize(left[1..], lk, right, rk, extra);
    }
  }

  /** The right-hand cells a left row receives when it has at most one match. */
  function Found(ms: seq<Row>, extra: seq<nat>): Row {
    if ms == [] then Nulls(|extra|) else Pick(ms[0], extra)
  }

  /** When every left row matches at most one right row, the merge keeps the
      left rows one for one and in order, and only appends cells to them. */
  lemma {:induction false} LookupJoin(left: seq<Row>, lk: seq<nat>, right: seq<Row>, rk: seq<nat>, extra: seq<nat>)
    requires forall i :: 0 <= i < |left| ==> |Matches(right, rk, Pick(left[i], lk))| <= 1
    ensures |JoinRows(left, lk, right, rk, extra)| == |left|
    ensures forall i :: 0 <= i < |left| ==>
      JoinRows(left, lk, right, rk, extra)[i] == left[i] + Found(Matches(right, rk, Pick(left[i], lk)), extra)
  {
    if left != [] {
      assert |Matches(right, rk, Pick(left[0], lk))| <= 1;
      assert forall i :: 0 <= i < |left[1..]| ==> left[1..][i] == left[i + 1];
      LookupJoin(left[1..], lk, right, rk, extra);
      var rest := JoinRows(left[1..], lk, right, rk, extra);
      var j := JoinRows(left, lk, right, rk, extra);
      assert j == Combine(left[0], Matches(right, rk, Pick(left[0], lk)), extra) + rest;
      forall i | 0 <= i < |left|
        ensures j[i] == left[i] + Found(Matches(right, rk, Pick(left[i], lk)), extra)
      {
        if i > 0 {
          assert j[i] == rest[i - 1];
        }
      }
    }
  }

  lemma {:induction false} AttachDropsMissing(l: Row, ms: seq<Row>, extra: seq<nat>, pos: nat)
    requires pos < |extra|
    ensures Filter(Attach(l, ms, extra), Present(|l| + pos)) == Attach(l, Filter(ms, Present(extra[pos])), extra)
  {
    if ms != [] {
      AttachDropsMissing(l, ms[1..], extra, pos);
      var x := l + Pick(ms[0], extra);
      assert At(x, |l| + pos) == At(ms[0], extra[pos]);
      FilterConcat([x], Attach(l, ms[1..], extra), Present(|l| + pos));
      var f := Filter(ms[1..], Present(extra[pos]));
      if Present(extra[pos])(ms[0]) {
        assert ([ms[0]] + f)[1..] == f;
      }
    }
  }

  lemma CombineDropsMissing(l: Row, ms: seq<Row>, extra: seq<nat>, pos: nat)
    requires pos < |extra|
    ensures Filter(Combine(l, ms, extra), Present(|l| + pos)) == Attach(l, Filter(ms, Present(extra[pos])), extra)
  {
    if ms == [] {
      assert At(l + Nulls(|extra|), |l| + pos) == Missing;
    } else {
      AttachDropsMissing(l, ms, extra, pos);
    }
  }

  /** Dropping the merged rows that lack the right-hand cell at `pos` leaves
      the inner join with the right rows that carry that cell. */
  lemma {:induction false} DropMissingIsInner(left: seq<Row>, lk: seq<nat>, right: seq<Row>, rk: seq<nat>, extra: seq<nat>,
                                              w: nat, pos: nat, ci: nat)
    requires pos < |extra| && extra[pos] == ci
    requires forall i :: 0 <= i < |left| ==> |left[i]| == w
    ensures Filter(JoinRows(left, lk, right, rk, extra), Present(w + pos)) ==
      InnerRows(left, lk, Filter(right, Present(ci)), rk, extra)
  {
    if left != [] {
      var key := Pick(left[0], lk);
      var ms := Matches(right, rk, key);
      assert forall i :: 0 <= i < |left[1..]| ==> left[1..][i] == left[i + 1];
      DropMissingIsInner(left[1..], lk, right, rk, extra, w, pos, ci);
      FilterConcat(Combine(left[0], ms, extra), JoinRows(left[1..], lk, right, rk, extra), Present(w + pos));
      CombineDropsMissing(left[0], ms, extra, pos);
      FilterCommutes(right, KeyIs(rk, key), Present(extra[pos]));
    }
  }

  /** Matching by positions is matching by the names of the key columns. */
  lemma KeyAgree(lh: seq<string>, l: Row, rh: seq<string>, m: Row, on: seq<string>)
    requires Locate(lh, on).Ok? && Locate(rh, on).Ok?
    ensures Pick(l, Locate(lh, on).value) == Pick(m, Locate(rh, on).value) <==>
      forall j :: 0 <= j < |on| ==> Lookup(lh, l, on[j]) == Lookup(rh, m, on[j])
  {
    var a, b := Pick(l, Locate(lh, on).value), Pick(m, Locate(rh, on).value);
    assert forall j :: 0 <= j < |on| ==> a[j] == Lookup(lh, l, on[j]) && b[j] == Lookup(rh, m, on[j]);
  }

  /** When the right table brings no column the left already has, the merged
      header is the left header followed by the right non-key columns. */
  lemma MergedHeaderPlain(lh: seq<string>, names: seq<string>)
    requires forall c :: c in names ==> c !in lh
    ensures MergedHeader(lh, names) == lh + names
  {
    SuffixedPlain(lh, names, "_x");
    SuffixedPlain(names, lh, "_y");
  }

  /** The merge spelled out once its key columns are known to exist. */
  lemma LeftMergeValue(l: Table, r: Table, on: seq<string>)
    requires LeftMerge(l, r, on).Ok?
    ensures Locate(l.header, on).Ok? && Locate(r.header, on).Ok?
    ensures LeftMerge(l, r, on).value == Table(MergedHeader(l.header, Without(r.header, on)),
      JoinRows(l.rows, Locate(l.header, on).value, r.rows, Locate(r.header, on).value, Positions(r.header, Without(r.header, on))))
  {
  }

  lemma InnerJoinValue(l: Table, r: Table, on: seq<string>)
    requires InnerJoin(l, r, on).Ok?
    ensures Locate(l.header, on).Ok? && Locate(r.header, on).Ok?
    ensures InnerJoin(l, r, on).value == Table(MergedHeader(l.header, Without(r.header, on)),
      InnerRows(l.rows, Locate(l.header, on).value, r.rows, Locate(r.header, on).value, Positions(r.header, Without(r.header, on))))
  {
  }

  /** The inner join has one row per pair of rows that agree on the keys. */
  lemma InnerJoinCount(l: Table, r: Table, on: seq<string>)
    requires InnerJoin(l, r, on).Ok?
    ensures |InnerJoin(l, r, on).value.rows| ==
      PairCount(l.rows, Locate(l.header, on).value, r.rows, Locate(r.header, on).value)
  {
    InnerJoinValue(l, r, on);
    InnerJoinSize(l.rows, Locate(l.header, on).value, r.rows, Locate(r.header, on).value, Positions(r.header, Without(r.header, on)));
  }

  /** The left merge has as many rows as the inner join plus one for every
      left row without a match. */
  lemma LeftMinusInner(l: Table, r: Table, on: seq<string>)
    requires LeftMerge(l, r, on).Ok?
    ensures InnerJoin(l, r, on).Ok?
    ensures |LeftMerge(l, r, on).value.rows| - |InnerJoin(l, r, on).value.rows| ==
      Count(l.rows, Unmatched(Locate(l.header, on).value, r.rows, Locate(r.header, on).value))
  {
    LeftMergeValue(l, r, on);
    InnerJoinValue(l, r, on);
    LeftJoinSize(l.rows, Locate(l.header, on).value, r.rows, Locate(r.header, on).value, Positions(r.header, Without(r.header, on)));
  }

  lemma IndexAfter(lh: seq<string>, names: seq<string>, c: string)
    requires c !in lh && c in names
    ensures IndexOf(lh + names, c) == Some(|lh| + IndexOf(names, c).value)
  {
    IndexOfConcat(lh, names, c);
  }

  lemma DropMissingAt(t: Table, c: string, k: nat)
    requires IndexOf(t.header, c) == Some(k)
    ensures DropMissing(t, c) == Ok(Table(t.header, Filter(t.rows, Present(k))))
  {
  }

  /** Where the merge takes the right-hand column `c` from in the right
      rows. */
  lemma MergedColumn(rh: seq<string>, on: seq<string>, c: string)
    requires c in rh && c !in on
    ensures c in Without(rh, on)
    ensures IndexOf(Without(rh, on), c).value < |Positions(rh, Without(rh, on))|
    ensures Positions(rh, Without(rh, on))[IndexOf(Without(rh, on), c).value] == IndexOf(rh, c).value
  {
    WithoutMembers(rh, on);
  }

  /** Column `c` of header `h` is at position `k`. */
  predicate ColumnAt(h: seq<string>, c: string, k: nat) {
    IndexOf(h, c) == Some(k)
  }

  /** When the right columns need no suffix, the right-hand column `c` sits
      after the left columns, at its place among them. */
  lemma MergedIndex(lh: seq<string>, names: seq<string>, c: string)
    requires c in names && forall n :: n in names ==> n !in lh
    ensures ColumnAt(MergedHeader(lh, names), c, |lh| + IndexOf(names, c).value)
  {
    MergedHeaderPlain(lh, names);
    IndexAfter(lh, names, c);
  }

  /** `dropna` on a column at position `w + pos` after joining `left`, whose
      rows are `w` wide, with `right`: the inner join with the right rows
      whose cell `extra[pos]` is present. */
  lemma DropAfterJoin(h: seq<string>, w: nat, left: seq<Row>, lk: seq<nat>, right: seq<Row>, rk: seq<nat>,
                      extra: seq<nat>, c: string, pos: nat, ci: nat)
    requires ColumnAt(h, c, w + pos) && pos < |extra| && extra[pos] == ci
    requires forall i :: 0 <= i < |left| ==> |left[i]| == w
    ensures DropMissing(Table(h, JoinRows(left, lk, right, rk, extra)), c) ==
      Ok(Table(h, InnerRows(left, lk, Filter(right, Present(ci)), rk, extra)))
  {
    DropMissingAt(Table(h, JoinRows(left, lk, right, rk, extra)), c, w + pos);
    DropMissingIsInner(left, lk, right, rk, extra, w, pos, ci);
  }

  /** The same after a merge whose right columns need no suffix, with the
      right-hand column `c` at position `ci` of the right rows. */
  lemma DropAfterMerge(lh: seq<string>, names: seq<string>, left: seq<Row>, lk: seq<nat>, right: seq<Row>, rk: seq<nat>,
                       extra: seq<nat>, c: string, ci: nat)
    requires c in names && forall n :: n in names ==> n !in lh
    requires IndexOf(names, c).value < |extra| && extra[IndexOf(names, c).value] == ci
    requires forall i :: 0 <= i < |left| ==> |left[i]| == |lh|
    ensures DropMissing(Table(MergedHeader(lh, names), JoinRows(left, lk, right, rk, extra)), c) ==
      Ok(Table(MergedHeader(lh, names), InnerRows(left, lk, Filter(right, Present(ci)), rk, extra)))
  {
    MergedIndex(lh, names, c);
    DropAfterJoin(MergedHeader(lh, names), |lh|, left, lk, right, rk, extra, c, IndexOf(names, c).value, ci);
  }

  /** Net effect of a left merge followed by `dropna` on a right-hand column
      `c`: an inner join with the right rows in which `c` is present. */
  lemma MergeThenDropMissing(l: Table, r: Table, on: seq<string>, c: string)
    requires forall i :: 0 <= i < |l.rows| ==> |l.rows[i]| == |l.header|
    requires c in r.header && c !in on
    requires forall n :: n in Without(r.header, on) ==> n !in l.header
    requires LeftMerge(l, r, on).Ok?
    ensures DropMissing(r, c).Ok? && InnerJoin(l, DropMissing(r, c).value, on).Ok?
    ensures DropMissing(LeftMerge(l, r, on).value, c) == Ok(InnerJoin(l, DropMissing(r, c).value, on).value)
  {
    LeftMergeValue(l, r, on);
    var names := Without(r.header, on);
    MergedColumn(r.header, on, c);
    var ci := IndexOf(r.header, c).value;
    var r' := Table(r.header, Filter(r.rows, Present(ci)));
    DropMissingAt(r, c, ci);
    InnerJoinValue(l, r', on);
    DropAfterMerge(l.header, names, l.rows, Locate(l.header, on).value, r.rows, Locate(r.header, on).value,
      Positions(r.header, names), c, ci);
  }
}
