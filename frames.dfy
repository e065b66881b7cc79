/** Tables as the five scripts see them through pandas: a header of column names
    and rows of cells. The operations here are the DataFrame operations the
    scripts use (column selection, `drop`, column assignment, `dropna`,
    `drop_duplicates`), each with the error pandas raises for a missing column. */
module Frames {

  datatype Option<T> = None | Some(value: T)

  /** The exceptions the scripts distinguish: a KeyError for a missing column,
      and every other failure. */
  datatype Error = MissingColumn(name: string) | Other

  datatype Result<T> = Ok(value: T) | Err(error: Error) {
    predicate IsFailure() { Err? }
    function PropagateFailure<U>(): Result<U>
      requires Err?
    {
      Err(error)
    }
    function Extract(): T
      requires Ok?
    {
      value
    }
  }

  /** The part of a parsed timestamp the scripts use. */
  datatype Date = Date(year: int, month: int)

  /** One CSV cell after parsing: NaN, a string, an integer, or a timestamp. */
  datatype Cell = Missing | Text(text: string) | Num(num: int) | Stamp(date: Date)

  type Row = seq<Cell>

  datatype Table = Table(header: seq<string>, rows: seq<Row>)

  predicate Distinct<T(==)>(s: seq<T>) {
    forall i, j :: 0 <= i < j < |s| ==> s[i] != s[j]
  }

  /** A new element in front of a distinct list keeps it distinct. */
  lemma DistinctCons<T>(x: T, s: seq<T>)
    requires Distinct(s) && x !in s
    ensures Distinct([x] + s)
  {
    var c := [x] + s;
    forall i, j | 0 <= i < j < |c| ensures c[i] != c[j] {
      assert c[j] == s[j - 1];
      if i > 0 {
        assert c[i] == s[i - 1];
      }
    }
  }

  /** read_csv never yields two columns of one name, and every row is as wide
      as the header. */
  predicate WellFormed(t: Table) {
    && Distinct(t.header)
    && forall i :: 0 <= i < |t.rows| ==> |t.rows[i]| == |t.header|
  }

  /** Order-preserving selection, the model of `df[mask]`. */
  function Filter<T(==)>(s: seq<T>, p: T -> bool): (r: seq<T>)
    ensures |r| <= |s|
  {
    if s == [] then [] else (if p(s[0]) then [s[0]] else []) + Filter(s[1..], p)
  }

  lemma {:induction false} FilterMember<T>(s: seq<T>, p: T -> bool, x: T)
    ensures x in Filter(s, p) <==> x in s && p(x)
  {
    if s != [] {
      FilterMember(s[1..], p, x);
      assert x in s <==> x == s[0] || x in s[1..];
    }
  }

  /** `a` keeps some of the elements of `b`, in their order in `b`. */
  predicate Subsequence<T(==)>(a: seq<T>, b: seq<T>) {
    if a == [] then true
    else if b == [] then false
    else (a[0] == b[0] && Subsequence(a[1..], b[1..])) || Subsequence(a, b[1..])
  }

  lemma {:induction false} SubsequenceSize<T>(a: seq<T>, b: seq<T>)
    requires Subsequence(a, b)
    ensures |a| <= |b|
  {
    if a != [] {
      if a[0] == b[0] && Subsequence(a[1..], b[1..]) {
        SubsequenceSize(a[1..], b[1..]);
      } else {
        SubsequenceSize(a, b[1..]);
      }
    }
  }

  function Count<T>(s: seq<T>, p: T -> bool): nat {
    if s == [] then 0 else (if p(s[0]) then 1 else 0) + Count(s[1..], p)
  }

  lemma {:induction false} FilterIsSubsequence<T>(s: seq<T>, p: T -> bool)
    ensures Subsequence(Filter(s, p), s)
  {
    if s != [] {
      FilterIsSubsequence(s[1..], p);
      if !p(s[0]) {
        var f := Filter(s[1..], p);
        assert Filter(s, p) == f;
        if f != [] {
          assert s[1..] != [];
        }
      }
    }
  }

  lemma {:induction false} FilterSize<T>(s: seq<T>, p: T -> bool)
    ensures |Filter(s, p)| == Count(s, p)
  {
    if s != [] {
      FilterSize(s[1..], p);
    }
  }

  lemma {:induction false} FilterConcat<T>(a: seq<T>, b: seq<T>, p: T -> bool)
    ensures Filter(a + b, p) == Filter(a, p) + Filter(b, p)
  {
    if a == [] {
      assert a + b == b;
    } else {
      var c := a + b;
      assert c[0] == a[0] && c[1..] == a[1..] + b;
      FilterConcat(a[1..], b, p);
      var h := if p(a[0]) then [a[0]] else [];
      calc {
        Filter(c, p);
        h + Filter(a[1..] + b, p);
        h + (Filter(a[1..], p) + Filter(b, p));
        (h + Filter(a[1..], p)) + Filter(b, p);
      }
    }
  }

  lemma {:induction false} FilterIdempotent<T>(s: seq<T>, p: T -> bool)
    ensures Filter(Filter(s, p), p) == Filter(s, p)
  {
    if s != [] {
      FilterIdempotent(s[1..], p);
      var head := if p(s[0]) then [s[0]] else [];
      FilterConcat(head, Filter(s[1..], p), p);
    }
  }

  lemma {:induction false} FilterCommutes<T>(s: seq<T>, p: T -> bool, q: T -> bool)
    ensures Filter(Filter(s, p), q) == Filter(Filter(s, q), p)
  {
    if s != [] {
      FilterCommutes(s[1..], p, q);
      FilterConcat(if p(s[0]) then [s[0]] else [], Filter(s[1..], p), q);
      FilterConcat(if q(s[0]) then [s[0]] else [], Filter(s[1..], q), p);
    }
  }

  /** A predicate that holds of every element selects everything. */
  lemma {:induction false} FilterAll<T>(s: seq<T>, p: T -> bool)
    requires forall i :: 0 <= i < |s| ==> p(s[i])
    ensures Filter(s, p) == s
  {
    if s != [] {
      assert p(s[0]);
      FilterAll(s[1..], p);
    }
  }

  /** Two predicates that agree on the elements select the same rows. */
  lemma {:induction false} FilterAgrees<T>(s: seq<T>, p: T -> bool, q: T -> bool)
    requires forall i :: 0 <= i < |s| ==> p(s[i]) == q(s[i])
    ensures Filter(s, p) == Filter(s, q)
  {
    if s != [] {
      assert p(s[0]) == q(s[0]);
      FilterAgrees(s[1..], p, q);
    }
  }

  /** The first position of column `c`; None is pandas' KeyError. */
  function IndexOf(h: seq<string>, c: string): (r: Option<nat>)
    ensures r.None? <==> c !in h
    ensures r.Some? ==> r.value < |h| && h[r.value] == c && c !in h[..r.value]
  {
    if h == [] then None
    else if h[0] == c then Some(0)
    else match IndexOf(h[1..], c)
      case None => None
      case Some(k) => assert h[1..][..k] == h[1..k + 1]; Some(k + 1)
  }

  lemma {:induction false} IndexOfDistinct(h: seq<string>, k: nat)
    requires Distinct(h) && k < |h|
    ensures IndexOf(h, h[k]) == Some(k)
  {
    if k > 0 {
      assert h[0] != h[k];
      assert h[1..][k - 1] == h[k];
      assert Distinct(h[1..]) by {
        forall i, j | 0 <= i < j < |h[1..]| ensures h[1..][i] != h[1..][j] {
          assert h[1..][i] == h[i + 1] && h[1..][j] == h[j + 1];
        }
      }
      IndexOfDistinct(h[1..], k - 1);
    }
  }

  /** Looking a name up in `h + tail` finds it in `h` first. */
  lemma {:induction false} IndexOfConcat(h: seq<string>, tail: seq<string>, c: string)
    ensures IndexOf(h + tail, c) ==
      match IndexOf(h, c)
      case Some(k) => Some(k)
      case None => match IndexOf(tail, c) case None => None case Some(k) => Some(|h| + k)
  {
    if h == [] {
      assert h + tail == tail;
    } else {
      assert (h + tail)[0] == h[0];
      assert (h + tail)[1..] == h[1..] + tail;
      IndexOfConcat(h[1..], tail, c);
    }
  }

  /** The cell of row `r` at position `i`; a short row reads as NaN. */
  function At(r: Row, i: nat): Cell {
    if i < |r| then r[i] else Missing
  }

  /** The cell of row `r` in the column named `c` of header `h`. */
  function Lookup(h: seq<string>, r: Row, c: string): Cell {
    match IndexOf(h, c)
    case None => Missing
    case Some(k) => At(r, k)
  }

  /** Reading a row made of two pieces under a header made of two pieces of
      the same widths. */
  lemma LookupConcat(h: seq<string>, th: seq<string>, r: Row, tr: Row, c: string)
    requires |r| == |h|
    ensures Lookup(h + th, r + tr, c) == if c in h then Lookup(h, r, c) else Lookup(th, tr, c)
  {
    IndexOfConcat(h, th, c);
  }

  /** The cells of `r` at the positions `idx`, in that order. */
  function Pick(r: Row, idx: seq<nat>): (p: Row)
    ensures |p| == |idx|
    ensures forall j :: 0 <= j < |idx| ==> p[j] == At(r, idx[j])
  {
    seq(|idx|, j requires 0 <= j < |idx| => At(r, idx[j]))
  }

  /** The positions of the columns `cols`, or a KeyError naming one of the absent ones. */
  function Locate(h: seq<string>, cols: seq<string>): (r: Result<seq<nat>>)
    ensures r.Ok? <==> forall c :: c in cols ==> c in h
    ensures r.Ok? ==> |r.value| == |cols|
    ensures r.Ok? ==> forall j :: 0 <= j < |cols| ==> IndexOf(h, cols[j]) == Some(r.value[j])
    ensures r.Err? ==> r.error.MissingColumn? && r.error.name in cols && r.error.name !in h
  {
    if cols == [] then Ok([])
    else match IndexOf(h, cols[0])
      case None => Err(MissingColumn(cols[0]))
      case Some(k) =>
        match Locate(h, cols[1..])
        case Err(e) => Err(e)
        case Ok(ks) =>
          assert forall c :: c in cols ==> c == cols[0] || c in cols[1..];
          Ok([k] + ks)
  }

  /** `df[cols]`: the named columns in the given order. */
  function Select(t: Table, cols: seq<string>): (r: Result<Table>)
    ensures r.Ok? <==> forall c :: c in cols ==> c in t.header
    ensures r.Err? ==> r.error.MissingColumn? && r.error.name in cols && r.error.name !in t.header
    ensures r.Ok? ==> r.value.header == cols && |r.value.rows| == |t.rows|
    ensures r.Ok? ==> forall i :: 0 <= i < |t.rows| ==> |r.value.rows[i]| == |cols|
    ensures r.Ok? ==> forall i, j :: 0 <= i < |t.rows| && 0 <= j < |cols| ==>
      r.value.rows[i][j] == Lookup(t.header, t.rows[i], cols[j])
  {
    match Locate(t.header, cols)
    case Err(e) => Err(e)
    case Ok(idx) => Ok(Table(cols, seq(|t.rows|, i requires 0 <= i < |t.rows| => Pick(t.rows[i], idx))))
  }

  /** Selecting a set of distinct names gives a well-formed table. */
  lemma SelectWellFormed(t: Table, cols: seq<string>)
    requires Distinct(cols) && Select(t, cols).Ok?
    ensures WellFormed(Select(t, cols).value)
  {
  }

  /** Selecting every column of a well-formed table in its own order gives
      the table back. */
  lemma SelectAll(t: Table)
    requires WellFormed(t)
    ensures Select(t, t.header) == Ok(t)
  {
    var s := Select(t, t.header).value;
    forall i | 0 <= i < |t.rows| ensures s.rows[i] == t.rows[i] {
      forall j | 0 <= j < |t.header| ensures s.rows[i][j] == t.rows[i][j] {
        IndexOfDistinct(t.header, j);
      }
    }
    assert s.rows == t.rows;
  }

  /** The header `h` without the names in `drop`, in the original order. */
  function Without(h: seq<string>, drop: seq<string>): seq<string> {
    Filter(h, (c: string) => c !in drop)
  }

  lemma WithoutMembers(h: seq<string>, drop: seq<string>)
    ensures forall c {:trigger c in Without(h, drop)} :: c in Without(h, drop) <==> c in h && c !in drop
  {
    forall c ensures c in Without(h, drop) <==> c in h && c !in drop {
      FilterMember(h, (c: string) => c !in drop, c);
    }
  }

  lemma {:induction false} WithoutDistinct(h: seq<string>, drop: seq<string>)
    requires Distinct(h)
    ensures Distinct(Without(h, drop))
  {
    if h != [] {
      assert Distinct(h[1..]) by {
        forall i, j | 0 <= i < j < |h[1..]| ensures h[1..][i] != h[1..][j] {
          assert h[1..][i] == h[i + 1] && h[1..][j] == h[j + 1];
        }
      }
      WithoutDistinct(h[1..], drop);
      WithoutMembers(h[1..], drop);
      var rest := Without(h[1..], drop);
      assert h[0] !in h[1..] by {
        forall k | 0 <= k < |h[1..]| ensures h[1..][k] != h[0] {
          assert h[1..][k] == h[k + 1];
        }
      }
      var w := Without(h, drop);
      var head := if h[0] !in drop then [h[0]] else [];
      assert w == head + rest;
      forall i, j | 0 <= i < j < |w| ensures w[i] != w[j] {
        if i < |head| {
          assert w[j] == rest[j - 1] && rest[j - 1] in rest;
        } else {
          assert w[i] == rest[i - |head|] && w[j] == rest[j - |head|];
        }
      }
    }
  }

  /** `df.drop(columns=cols)`: a KeyError when one of them is absent, otherwise
      every other column in its old order. */
  function DropColumns(t: Table, cols: seq<string>): (r: Result<Table>)
    ensures r.Ok? <==> forall c :: c in cols ==> c in t.header
    ensures r.Err? ==> r.error.MissingColumn? && r.error.name in cols && r.error.name !in t.header
    ensures r.Ok? ==> r.value.header == Without(t.header, cols) && |r.value.rows| == |t.rows|
  {
    match Locate(t.header, cols)
    case Err(e) => Err(e)
    case Ok(_) => WithoutMembers(t.header, cols); Select(t, Without(t.header, cols))
  }

  /** The rows of a selection are the picked cells of the input rows. */
  lemma SelectRows(t: Table, cols: seq<string>)
    requires Select(t, cols).Ok?
    ensures Locate(t.header, cols).Ok?
    ensures Select(t, cols).value.rows == KeysOf(t.rows, Locate(t.header, cols).value)
  {
  }

  /** A selection of distinct names reads, in every one of them, what the
      input row read. */
  lemma SelectCells(t: Table, cols: seq<string>)
    requires Distinct(cols) && Select(t, cols).Ok?
    ensures forall i, c :: 0 <= i < |t.rows| && c in cols ==>
      Lookup(cols, Select(t, cols).value.rows[i], c) == Lookup(t.header, t.rows[i], c)
  {
    forall i, c | 0 <= i < |t.rows| && c in cols
      ensures Lookup(cols, Select(t, cols).value.rows[i], c) == Lookup(t.header, t.rows[i], c)
    {
      var j :| 0 <= j < |cols| && cols[j] == c;
      IndexOfDistinct(cols, j);
    }
  }

  /** `drop` keeps a well-formed table well formed, and every column it keeps
      reads as before. */
  lemma DropColumnsCells(t: Table, cols: seq<string>)
    requires WellFormed(t) && DropColumns(t, cols).Ok?
    ensures WellFormed(DropColumns(t, cols).value)
    ensures forall i, c :: 0 <= i < |t.rows| && c in t.header && c !in cols ==>
      Lookup(DropColumns(t, cols).value.header, DropColumns(t, cols).value.rows[i], c) == Lookup(t.header, t.rows[i], c)
  {
    var kept := Without(t.header, cols);
    WithoutMembers(t.header, cols);
    WithoutDistinct(t.header, cols);
    assert DropColumns(t, cols) == Select(t, kept);
    SelectWellFormed(t, kept);
    SelectCells(t, kept);
  }

  /** The column named `c`, as `df[c]`. */
  function Column(t: Table, c: string): (r: Result<seq<Cell>>)
    ensures r.Ok? <==> c in t.header
    ensures r.Err? ==> r.error == MissingColumn(c)
    ensures r.Ok? ==> |r.value| == |t.rows|
    ensures r.Ok? ==> forall i :: 0 <= i < |t.rows| ==> r.value[i] == Lookup(t.header, t.rows[i], c)
  {
    match IndexOf(t.header, c)
    case None => Err(MissingColumn(c))
    case Some(k) => Ok(seq(|t.rows|, i requires 0 <= i < |t.rows| => At(t.rows[i], k)))
  }

  function Put(r: Row, k: nat, v: Cell): Row {
    if k < |r| then r[k := v] else r
  }

  /** `df[name] = col`: replaces the column in place when it exists, and appends
      it as the last column otherwise. */
  function WithColumn(t: Table, name: string, col: seq<Cell>): (r: Table)
    requires |col| == |t.rows|
    ensures |r.rows| == |t.rows|
    ensures r.header == if name in t.header then t.header else t.header + [name]
  {
    match IndexOf(t.header, name)
    case Some(k) =>
      Table(t.header, seq(|t.rows|, i requires 0 <= i < |t.rows| => Put(t.rows[i], k, col[i])))
    case None =>
      Table(t.header + [name], seq(|t.rows|, i requires 0 <= i < |t.rows| => t.rows[i] + [col[i]]))
  }

  /** After the assignment, every row reads `col` in column `name` and what it
      read before in every other column. */
  lemma WithColumnCells(t: Table, name: string, col: seq<Cell>)
    requires WellFormed(t) && |col| == |t.rows|
    ensures WellFormed(WithColumn(t, name, col))
    ensures forall i :: 0 <= i < |t.rows| ==> Lookup(WithColumn(t, name, col).header, WithColumn(t, name, col).rows[i], name) == col[i]
    ensures forall i, c :: 0 <= i < |t.rows| && c != name ==>
      Lookup(WithColumn(t, name, col).header, WithColumn(t, name, col).rows[i], c) == Lookup(t.header, t.rows[i], c)
  {
    var r := WithColumn(t, name, col);
    if name !in t.header {
      var h := t.header + [name];
      forall c ensures IndexOf(h, c) == if c == name then Some(|t.header|) else IndexOf(t.header, c) {
        IndexOfConcat(t.header, [name], c);
      }
      assert Distinct(h) by {
        forall a, b | 0 <= a < b < |h| ensures h[a] != h[b] {
          if b == |t.header| { assert h[a] == t.header[a]; } else { assert h[a] == t.header[a] && h[b] == t.header[b]; }
        }
      }
    }
  }

  /** `series.fillna(v)`. */
  function FillMissing(col: seq<Cell>, v: Cell): (r: seq<Cell>)
    ensures |r| == |col|
    ensures forall i :: 0 <= i < |col| ==> r[i] == (if col[i] == Missing then v else col[i])
  {
    seq(|col|, i requires 0 <= i < |col| => if col[i] == Missing then v else col[i])
  }

  /** Rows whose cell at `k` is present. */
  function Present(k: nat): Row -> bool {
    (r: Row) => At(r, k) != Missing
  }

  /** `df.dropna(subset=[c])`. */
  function DropMissing(t: Table, c: string): (r: Result<Table>)
    ensures r.Ok? <==> c in t.header
    ensures r.Err? ==> r.error == MissingColumn(c)
    ensures r.Ok? ==> r.value.header == t.header && |r.value.rows| <= |t.rows|
  {
    match IndexOf(t.header, c)
    case None => Err(MissingColumn(c))
    case Some(k) => Ok(Table(t.header, Filter(t.rows, Present(k))))
  }

  /** `dropna` keeps exactly the rows in which column `c` is present. */
  lemma DropMissingMember(t: Table, c: string, x: Row)
    requires c in t.header
    ensures x in DropMissing(t, c).value.rows <==> x in t.rows && Lookup(t.header, x, c) != Missing
  {
    FilterMember(t.rows, Present(IndexOf(t.header, c).value), x);
  }

  /** `df.rename(columns={from: to})`: renames the columns called `from`, and
      changes nothing when there is none. */
  function Rename(t: Table, from: string, to: string): (r: Table)
    ensures r.rows == t.rows && |r.header| == |t.header|
    ensures forall j :: 0 <= j < |t.header| ==> r.header[j] == if t.header[j] == from then to else t.header[j]
  {
    Table(seq(|t.header|, j requires 0 <= j < |t.header| => if t.header[j] == from then to else t.header[j]), t.rows)
  }

  lemma RenameAbsent(t: Table, from: string, to: string)
    requires from !in t.header
    ensures Rename(t, from, to) == t
  {
  }

  /** The key cells of every row. */
  function KeysOf(rows: seq<Row>, idx: seq<nat>): (ks: seq<Row>)
    ensures |ks| == |rows|
    ensures forall i :: 0 <= i < |rows| ==> ks[i] == Pick(rows[i], idx)
  {
    seq(|rows|, i requires 0 <= i < |rows| => Pick(rows[i], idx))
  }

  /** `drop_duplicates(subset=...)`, keeping the first row of every key; `seen`
      holds the keys already kept. */
  function DedupFrom(rows: seq<Row>, idx: seq<nat>, seen: seq<Row>): (r: seq<Row>)
    ensures Subsequence(r, rows)
    ensures forall x :: x in r ==> x in rows && Pick(x, idx) !in seen
  {
    if rows == [] then []
    else if Pick(rows[0], idx) in seen then
      var d := DedupFrom(rows[1..], idx, seen);
      SubsequenceCons(d, rows);
      d
    else
      var d := DedupFrom(rows[1..], idx, seen + [Pick(rows[0], idx)]);
      assert ([rows[0]] + d)[1..] == d;
      [rows[0]] + d
  }

  lemma SubsequenceCons<T>(a: seq<T>, b: seq<T>)
    requires b != [] && Subsequence(a, b[1..])
    ensures Subsequence(a, b)
  {
  }

  function DropDuplicates(rows: seq<Row>, idx: seq<nat>): seq<Row> {
    DedupFrom(rows, idx, [])
  }

  /** The first row of `rows` whose key at `idx` is `key`. */
  function FirstWith(rows: seq<Row>, idx: seq<nat>, key: Row): (r: Option<Row>)
    ensures r.None? <==> key !in KeysOf(rows, idx)
    ensures r.Some? ==> r.value in rows && Pick(r.value, idx) == key
  {
    if rows == [] then None
    else if Pick(rows[0], idx) == key then Some(rows[0])
    else
      var f := FirstWith(rows[1..], idx, key);
      assert KeysOf(rows, idx) == [Pick(rows[0], idx)] + KeysOf(rows[1..], idx);
      f
  }

  /** Rows whose key at `idx` is `key`. */
  function KeyIs(idx: seq<nat>, key: Row): Row -> bool {
    (r: Row) => Pick(r, idx) == key
  }

  function Matches(rows: seq<Row>, idx: seq<nat>, key: Row): seq<Row> {
    Filter(rows, KeyIs(idx, key))
  }

  /** After deduplication on `idx`, a key has at most one row: the first row
      of the input with that key. */
  lemma {:induction false} DedupMatches(rows: seq<Row>, idx: seq<nat>, seen: seq<Row>, key: Row)
    ensures Matches(DedupFrom(rows, idx, seen), idx, key) ==
      if key in seen then [] else match FirstWith(rows, idx, key) case None => [] case Some(r) => [r]
  {
    if rows != [] {
      var k0 := Pick(rows[0], idx);
      if k0 in seen {
        DedupMatches(rows[1..], idx, seen, key);
        if key !in seen && k0 == key { assert false; }
      } else {
        var seen' := seen + [k0];
        DedupMatches(rows[1..], idx, seen', key);
        var d := DedupFrom(rows[1..], idx, seen');
        FilterConcat([rows[0]], d, KeyIs(idx, key));
        assert Filter([rows[0]], KeyIs(idx, key)) == if k0 == key then [rows[0]] else [];
        assert key in seen' <==> key in seen || key == k0;
      }
    }
  }

  /** Keys kept by deduplication are pairwise distinct. */
  lemma {:induction false} DedupDistinct(rows: seq<Row>, idx: seq<nat>, seen: seq<Row>)
    ensures Distinct(KeysOf(DedupFrom(rows, idx, seen), idx))
  {
    if rows != [] {
      var k0 := Pick(rows[0], idx);
      if k0 in seen {
        DedupDistinct(rows[1..], idx, seen);
      } else {
        var seen' := seen + [k0];
        DedupDistinct(rows[1..], idx, seen');
        FreshKeyCons(rows[0], DedupFrom(rows[1..], idx, seen'), idx);
      }
    }
  }

  /** A row whose key no other row has keeps the keys distinct. */
  lemma FreshKeyCons(r: Row, d: seq<Row>, idx: seq<nat>)
    requires Distinct(KeysOf(d, idx))
    requires forall x :: x in d ==> Pick(x, idx) != Pick(r, idx)
    ensures Distinct(KeysOf([r] + d, idx))
  {
    var kd := KeysOf(d, idx);
    forall j | 0 <= j < |kd| ensures kd[j] != Pick(r, idx) {
      assert d[j] in d;
    }
    DistinctCons(Pick(r, idx), kd);
    assert KeysOf([r] + d, idx) == [Pick(r, idx)] + kd;
  }

  /** No row is lost by deduplication except those whose key was seen: every
      key of the input appears among the kept keys. */
  lemma DedupKeepsKeys(rows: seq<Row>, idx: seq<nat>, seen: seq<Row>, key: Row)
    requires key in KeysOf(rows, idx) && key !in seen
    ensures key in KeysOf(DedupFrom(rows, idx, seen), idx)
  {
    DedupMatches(rows, idx, seen, key);
    var d := DedupFrom(rows, idx, seen);
    var first := FirstWith(rows, idx, key).value;
    assert first in Filter(d, KeyIs(idx, key));
    FilterMember(d, KeyIs(idx, key), first);
    var i :| 0 <= i < |d| && d[i] == first;
    assert KeysOf(d, idx)[i] == key;
  }

  /** A DataFrame that the scripts update in place through `df[name] = col`. */
  class Frame {
    var header: seq<string>
    var rows: seq<Row>

    constructor (t: Table)
      ensures Value() == t
    {
      header := t.header;
      rows := t.rows;
    }

    function Value(): Table
      reads this
    {
      Table(header, rows)
    }

    /** `df[name] = col`: overwrites the column in every row when it exists,
        and appends it as the last column otherwise. */
    method Assign(name: string, col: seq<Cell>)
      requires |col| == |rows|
      modifies this
      ensures Value() == WithColumn(old(Value()), name, col)
    {
      var rs := rows;
      match IndexOf(header, name)
      case Some(k) =>
        rows := seq(|rs|, i requires 0 <= i < |rs| => Put(rs[i], k, col[i]));
      case None =>
        rows := seq(|rs|, i requires 0 <= i < |rs| => rs[i] + [col[i]]);
        header := header + [name];
    }
  }
}
