/** The fifth stage (main5.py): attach every player's date of birth, compute
    the age reached in the calendar year a season ends, drop the date of birth
    and put `age` last. */
module PlayerAge {
  import opened Frames
  import opened Joins
  import MarketValue

  const ProfileColumns: seq<string> := ["player_id", "date_of_birth"]

  // ---------------------------------------------------------------------
  // calculate_season_end_year

  /** The text before the first '/', or all of it. */
  function Segment(s: string): (r: string)
    ensures '/' !in r && |r| <= |s|
  {
    if s == [] || s[0] == '/' then [] else [s[0]] + Segment(s[1..])
  }

  /** The text after the first '/'. */
  function After(s: string): string
    requires '/' in s
  {
    if s[0] == '/' then s[1..] else After(s[1..])
  }

  /** `s.split('/')` splits at the first '/' into a first part without one
      and the rest. */
  lemma {:induction false} SplitParts(s: string)
    requires '/' in s
    ensures s == Segment(s) + "/" + After(s)
  {
    if s[0] != '/' {
      assert '/' in s[1..] by {
        var k :| 0 <= k < |s| && s[k] == '/';
        assert s[1..][k - 1] == '/';
      }
      SplitParts(s[1..]);
      assert s == [s[0]] + s[1..];
    }
  }

  /** Splitting `a + "/" + t` at its first '/' gives `a` and `t` back. */
  lemma {:induction false} SplitAt(a: string, t: string)
    requires '/' !in a
    ensures '/' in a + "/" + t
    ensures Segment(a + "/" + t) == a && After(a + "/" + t) == t
  {
    var s := a + "/" + t;
    assert s[|a|] == '/';
    if a != [] {
      assert s[0] == a[0] && s[1..] == a[1..] + "/" + t;
      SplitAt(a[1..], t);
    } else {
      assert s == "/" + t;
    }
  }

  lemma {:induction false} SegmentWhole(s: string)
    requires '/' !in s
    ensures Segment(s) == s
  {
    if s != [] {
      SegmentWhole(s[1..]);
    }
  }

  predicate IsDigit(ch: char) {
    '0' <= ch <= '9'
  }

  predicate AllDigits(s: string) {
    forall k :: 0 <= k < |s| ==> IsDigit(s[k])
  }

  /** The number a string of decimal digits denotes. */
  function DigitsValue(s: string): nat
    requires AllDigits(s)
  {
    if s == [] then 0 else 10 * DigitsValue(s[..|s| - 1]) + (s[|s| - 1] as int - '0' as int)
  }

  /** Python's `int(s)` on a string of digits with an optional sign; None
      stands for the ValueError. */
  function ParseInt(s: string): Option<int> {
    if s != [] && (s[0] == '-' || s[0] == '+') then
      if s[1..] != [] && AllDigits(s[1..]) then
        var v: int := DigitsValue(s[1..]);
        Some(if s[0] == '-' then -v else v)
      else None
    else if s != [] && AllDigits(s) then Some(DigitsValue(s))
    else None
  }

  /** `calculate_season_end_year` on a string: with a '/', the part after it,
      a two-digit year read as 20xx; without one, the whole string. */
  function EndYearOf(s: string): Option<int> {
    if '/' in s then
      match ParseInt(Segment(After(s)))
      case None => None
      case Some(v) => Some(if v < 100 then 2000 + v else v)
    else ParseInt(s)
  }

  /** `calculate_season_end_year` on a cell: NaN stays NaN, a number goes
      through `str` and `int`, and a timestamp's text is no integer. */
  function SeasonEndYear(c: Cell): Option<int> {
    match c
    case Missing => None
    case Num(n) => EndYearOf(MarketValue.PyStr(n))
    case Stamp(_) => None
    case Text(s) => EndYearOf(s)
  }

  /** `str` then `int` gives a natural number back. */
  lemma {:induction false} DecimalDigits(n: nat)
    ensures AllDigits(MarketValue.Decimal(n)) && DigitsValue(MarketValue.Decimal(n)) == n
  {
    var s := MarketValue.Decimal(n);
    if n >= 10 {
      DecimalDigits(n / 10);
      var a := MarketValue.Decimal(n / 10);
      assert s == a + [MarketValue.DigitChar(n % 10)];
      assert s[..|s| - 1] == a;
    } else {
      assert s[..0] == [];
    }
  }

  /** `int(str(n))` is `n` for every integer `n`. */
  lemma ParsePyStr(n: int)
    ensures ParseInt(MarketValue.PyStr(n)) == Some(n)
    ensures '/' !in MarketValue.PyStr(n)
  {
    var m: nat := if n < 0 then -n else n;
    DecimalDigits(m);
    var d := MarketValue.Decimal(m);
    DigitsNoSlash(d);
    if n < 0 {
      var s := "-" + d;
      assert MarketValue.PyStr(n) == s;
      assert s[0] == '-' && s[1..] == d;
      assert s[0] != '/';
    } else {
      assert MarketValue.PyStr(n) == d;
      assert d[0] != '-' && d[0] != '+';
    }
  }

  /** Digits hold no '/' and no sign. */
  lemma DigitsNoSlash(d: string)
    requires AllDigits(d)
    ensures '/' !in d && '-' !in d && '+' !in d
  {
  }

  /** A season given as a number is its own end year. */
  lemma NumEndYear(n: int)
    ensures SeasonEndYear(Num(n)) == Some(n)
  {
    ParsePyStr(n);
  }

  lemma ParseTwoDigits(v: nat)
    requires v < 100
    ensures ParseInt(MarketValue.TwoDigits(v)) == Some(v)
  {
    var s := MarketValue.TwoDigits(v);
    var hi, lo := v / 10, v % 10;
    assert (MarketValue.DigitChar(hi) as int) - ('0' as int) == hi;
    assert (MarketValue.DigitChar(lo) as int) - ('0' as int) == lo;
    assert s[..1] == [MarketValue.DigitChar(hi)] && s[..1][..0] == [];
    assert DigitsValue(s[..1]) == hi;
    assert DigitsValue(s) == 10 * hi + lo;
  }

  /** "xx/yy": a two-digit end year is read as 20yy, whatever the start. */
  lemma ShortEndYear(a: string, v: nat)
    requires '/' !in a && v < 100
    ensures EndYearOf(a + "/" + MarketValue.TwoDigits(v)) == Some(2000 + v)
  {
    var t := MarketValue.TwoDigits(v);
    SplitAt(a, t);
    assert '/' !in t;
    SegmentWhole(t);
    ParseTwoDigits(v);
  }

  /** "xxxx/yyyy": an end year of three or more digits is taken as it is. */
  lemma LongEndYear(a: string, n: nat)
    requires '/' !in a && n >= 100
    ensures EndYearOf(a + "/" + MarketValue.Decimal(n)) == Some(n)
  {
    var t := MarketValue.Decimal(n);
    SplitAt(a, t);
    ParsePyStr(n);
    SegmentWhole(t);
  }

  /** Only the part between the first and the second '/' matters. */
  lemma ThirdPartIgnored(a: string, b: string, rest: string)
    requires '/' !in a && '/' !in b
    ensures EndYearOf(a + "/" + b + "/" + rest) == EndYearOf(a + "/" + b)
  {
    SplitAt(a, b + "/" + rest);
    assert a + "/" + b + "/" + rest == a + "/" + (b + "/" + rest);
    SplitAt(b, rest);
    SplitAt(a, b);
    SegmentWhole(b);
  }

  /** A year of this century is 2000 plus its last two digits. */
  lemma CenturyYear(n: int)
    requires 2000 <= n < 2100
    ensures 2000 + n % 100 == n
  {
    MarketValue.Div100(n, 20, n - 2000);
  }

  /** A season label "xx/yy" built from the start year `y` ends in 20yy, which is
      the year after `y` when that year is in 2000-2099. */
  lemma LabelEndYear(s: string, y: int)
    requires y >= 10 && s == MarketValue.TwoDigits(y % 100) + "/" + MarketValue.TwoDigits((y + 1) % 100)
    ensures EndYearOf(s) == Some(2000 + (y + 1) % 100)
    ensures 1999 <= y <= 2098 ==> EndYearOf(s) == Some(y + 1)
  {
    ShortEndYear(MarketValue.TwoDigits(y % 100), (y + 1) % 100);
    if 1999 <= y <= 2098 {
      CenturyYear(y + 1);
    }
  }

  /** Read back, the label main3.py gives a date names the year after the
      season's start moved into 2000-2099: the end year of century `c`
      comes back 100 * (20 - c) years later. */
  lemma SeasonLabelEndYear(d: Date, c: int)
    requires MarketValue.SeasonStart(d) >= 10
    requires 100 * c <= MarketValue.SeasonStart(d) + 1 < 100 * c + 100
    ensures EndYearOf(MarketValue.SeasonOf(d)) == Some(MarketValue.SeasonStart(d) + 1 + 100 * (20 - c))
  {
    var y := MarketValue.SeasonStart(d);
    MarketValue.Div100(y + 1, c, y + 1 - 100 * c);
    LabelEndYear(MarketValue.TwoDigits(y % 100) + "/" + MarketValue.TwoDigits((y + 1) % 100), y);
    MarketValue.SeasonLabelForm(d);
  }

  /** For seasons starting in 1999-2098 that is the year after the start. */
  lemma SeasonLabelCentury(d: Date)
    requires 1999 <= MarketValue.SeasonStart(d) <= 2098
    ensures EndYearOf(MarketValue.SeasonOf(d)) == Some(MarketValue.SeasonStart(d) + 1)
  {
    var y := MarketValue.SeasonStart(d);
    LabelEndYear(MarketValue.TwoDigits(y % 100) + "/" + MarketValue.TwoDigits((y + 1) % 100), y);
    MarketValue.SeasonLabelForm(d);
  }

  /** The end year of the label of a date without a value is NaN. */
  lemma NaTLabelHasNoYear()
    ensures SeasonEndYear(Text(MarketValue.NaTLabel)) == None
  {
    SplitAt("an", "an");
    SegmentWhole("an");
    assert !IsDigit('a');
  }

  /** The season formats the data use, and the corner cases of the split. */
  lemma ShortLabelExample()
    ensures SeasonEndYear(Text("23/24")) == Some(2024)
  {
    assert "23/24" == "23" + "/" + MarketValue.TwoDigits(24);
    ShortEndYear("23", 24);
  }

  /** A season of the 1990s would be read as one of the 2090s. */
  lemma NinetiesExample()
    ensures SeasonEndYear(Text("98/99")) == Some(2099)
  {
    assert "98/99" == "98" + "/" + MarketValue.TwoDigits(99);
    ShortEndYear("98", 99);
  }

  lemma LongLabelExample()
    ensures SeasonEndYear(Text("2023/2024")) == Some(2024)
  {
    assert MarketValue.Decimal(2) == "2";
    assert MarketValue.Decimal(20) == "20";
    assert MarketValue.Decimal(202) == "202";
    assert MarketValue.Decimal(2024) == "2024";
    assert "2023/2024" == "2023" + "/" + "2024";
    LongEndYear("2023", 2024);
  }

  lemma OddLabelExamples()
    ensures SeasonEndYear(Text("23/")) == None
    ensures SeasonEndYear(Text("24")) == Some(24)
    ensures SeasonEndYear(Text("23/-5")) == Some(1995)
  {
    assert "23/" == "23" + "/" + "";
    SplitAt("23", "");
    assert MarketValue.PyStr(24) == "24" by {
      assert MarketValue.Decimal(2) == "2";
    }
    ParsePyStr(24);
    assert "23/-5" == "23" + "/" + "-5";
    SplitAt("23", "-5");
    SegmentWhole("-5");
    assert MarketValue.PyStr(-5) == "-5";
    ParsePyStr(-5);
  }

  // ---------------------------------------------------------------------
  // The script

  /** Line 51: the player ids with their dates of birth, one row per player,
      the first profile row of each. */
  function BirthDates(profile: Table): (r: Result<Table>)
    ensures r.Ok? <==> "player_id" in profile.header && "date_of_birth" in profile.header
    ensures r.Err? ==> r.error.MissingColumn? && r.error.name in ProfileColumns
    ensures r.Ok? ==> r.value.header == ProfileColumns
  {
    var dob :- Select(profile, ProfileColumns);
    assert forall c :: c in ProfileColumns ==> c == "player_id" || c == "date_of_birth";
    Ok(Table(ProfileColumns, DropDuplicates(dob.rows, [0])))
  }

  /** The reference: the date of birth on the first profile row of player
      `id`, NaN when no row has that id. */
  function FirstDob(h: seq<string>, rows: seq<Row>, id: Cell): Cell {
    if rows == [] then Missing
    else if Lookup(h, rows[0], "player_id") == id then Lookup(h, rows[0], "date_of_birth")
    else FirstDob(h, rows[1..], id)
  }

  /** `pd.to_datetime(dob, errors='coerce').dt.year` on one cell: NaN becomes
      NaT, whose year is NaN; `birthYear` stands for the library's parsing of
      any other cell, None being a date it coerces to NaT. */
  function BirthYearOf(dob: Cell, birthYear: Cell -> Option<int>): Option<int> {
    if dob == Missing then None else birthYear(dob)
  }

  /** A player with no profile row has no date of birth. */
  lemma {:induction false} NoProfileNoDob(h: seq<string>, rows: seq<Row>, id: Cell)
    requires forall i :: 0 <= i < |rows| ==> Lookup(h, rows[i], "player_id") != id
    ensures FirstDob(h, rows, id) == Missing
  {
    if rows != [] {
      assert Lookup(h, rows[0], "player_id") != id;
      assert forall i :: 0 <= i < |rows[1..]| ==> rows[1..][i] == rows[i + 1];
      NoProfileNoDob(h, rows[1..], id);
    }
  }

  /** `season_end_years - birth_years` for one row: NaN when either is. */
  function AgeCell(season: Cell, dob: Cell, birthYear: Cell -> Option<int>): Cell {
    match SeasonEndYear(season)
    case None => Missing
    case Some(e) =>
      match BirthYearOf(dob, birthYear)
      case None => Missing
      case Some(b) => Num(e - b)
  }

  function Ages(seasons: seq<Cell>, dobs: seq<Cell>, birthYear: Cell -> Option<int>): (r: seq<Cell>)
    requires |seasons| == |dobs|
    ensures |r| == |seasons|
    ensures forall i :: 0 <= i < |r| ==> r[i] == AgeCell(seasons[i], dobs[i], birthYear)
  {
    seq(|seasons|, i requires 0 <= i < |seasons| => AgeCell(seasons[i], dobs[i], birthYear))
  }

  /** Season "23/24" and a birth year of 2000 give the age 24; an unknown
      birth year or a NaN date of birth gives an unknown age, never 0. */
  lemma AgeExample(dob: Cell, birthYear: Cell -> Option<int>)
    ensures dob != Missing && birthYear(dob) == Some(2000) ==> AgeCell(Text("23/24"), dob, birthYear) == Num(24)
    ensures birthYear(dob) == None ==> AgeCell(Text("23/24"), dob, birthYear) == Missing
    ensures AgeCell(Text("23/24"), Missing, birthYear) == Missing
  {
    ShortLabelExample();
  }

  /** Lines 62-70: the end year of every row's season, the birth year of its
      date of birth, and their difference as the column `age`. The season is
      read first, so its KeyError wins. */
  function WithAge(t: Table, birthYear: Cell -> Option<int>): (r: Result<Table>)
    ensures r.Ok? <==> "season_name" in t.header && "date_of_birth" in t.header
    ensures r.Err? ==> r.error == MissingColumn(if "season_name" !in t.header then "season_name" else "date_of_birth")
  {
    var seasons :- Column(t, "season_name");
    var dobs :- Column(t, "date_of_birth");
    Ok(WithColumn(t, "age", Ages(seasons, dobs, birthYear)))
  }

  /** The assignment `df_merged['age'] = ...` made in place; on a KeyError the
      frame is left as it was. */
  method AgeInPlace(merged: Frame, birthYear: Cell -> Option<int>) returns (e: Option<Error>)
    modifies merged
    ensures e.None? <==> WithAge(old(merged.Value()), birthYear).Ok?
    ensures e.None? ==> merged.Value() == WithAge(old(merged.Value()), birthYear).value
    ensures e.Some? ==> e.value == WithAge(old(merged.Value()), birthYear).error && merged.Value() == old(merged.Value())
  {
    var seasons := Column(merged.Value(), "season_name");
    if seasons.Err? {
      return Some(seasons.error);
    }
    var dobs := Column(merged.Value(), "date_of_birth");
    if dobs.Err? {
      return Some(dobs.error);
    }
    merged.Assign("age", Ages(seasons.value, dobs.value, birthYear));
    return None;
  }

  /** Line 79: every column but `age`, in order, then `age`. */
  function AgeLast(h: seq<string>): seq<string> {
    Without(h, ["age"]) + ["age"]
  }

  /** `age` comes last and only there, and no other column is gained or lost. */
  lemma AgeLastColumns(h: seq<string>)
    ensures |AgeLast(h)| >= 1 && AgeLast(h)[|AgeLast(h)| - 1] == "age"
    ensures "age" !in AgeLast(h)[..|AgeLast(h)| - 1]
    ensures forall c :: c in AgeLast(h) <==> c in h || c == "age"
    ensures Distinct(h) ==> Distinct(AgeLast(h))
  {
    var w := Without(h, ["age"]);
    WithoutMembers(h, ["age"]);
    assert AgeLast(h)[..|AgeLast(h)| - 1] == w;
    if Distinct(h) {
      WithoutDistinct(h, ["age"]);
      var a := AgeLast(h);
      forall i, j | 0 <= i < j < |a| ensures a[i] != a[j] {
        if j < |w| {
          assert a[i] == w[i] && a[j] == w[j];
        } else {
          assert a[i] == w[i] && w[i] in w;
        }
      }
    }
  }

  /** Lines 51-74: the birth dates merged in, `age` added and
      `date_of_birth` dropped. */
  function Dropped(main: Table, profile: Table, birthYear: Cell -> Option<int>): Result<Table> {
    var dobs :- BirthDates(profile);
    var merged :- LeftMerge(main, dobs, ["player_id"]);
    var aged :- WithAge(merged, birthYear);
    DropColumns(aged, ["date_of_birth"])
  }

  /** The whole script after reading its two files. */
  function AgeData(main: Table, profile: Table, birthYear: Cell -> Option<int>): Result<Table> {
    var dropped :- Dropped(main, profile, birthYear);
    Select(dropped, AgeLast(dropped.header))
  }

  // ---------------------------------------------------------------------
  // What the script computes

  /** The first selected profile row of a player carries the reference date
      of birth. */
  lemma {:induction false} FirstWithDob(h: seq<string>, rows: seq<Row>, id: Cell)
    requires Locate(h, ProfileColumns).Ok?
    ensures (match FirstWith(KeysOf(rows, Locate(h, ProfileColumns).value), [0], [id])
             case None => Missing case Some(r) => At(r, 1)) == FirstDob(h, rows, id)
  {
    if rows != [] {
      var idx := Locate(h, ProfileColumns).value;
      var ks := KeysOf(rows, idx);
      assert ks[0] == Pick(rows[0], idx) && ks[1..] == KeysOf(rows[1..], idx);
      var get := Lookup(h, rows[0], "player_id");
      assert Pick(ks[0], [0]) == [get];
      assert At(ks[0], 1) == Lookup(h, rows[0], "date_of_birth");
      if get != id {
        assert Pick(ks[0], [0]) != [id];
        FirstWithDob(h, rows[1..], id);
      }
    }
  }

  /** Where the merge finds the key and the date of birth. */
  lemma ProfileColumnsAt()
    ensures Locate(ProfileColumns, ["player_id"]) == Ok([0])
    ensures Without(ProfileColumns, ["player_id"]) == ["date_of_birth"]
    ensures Positions(ProfileColumns, ["date_of_birth"]) == [1]
  {
    var h := ProfileColumns;
    var p := (c: string) => c !in ["player_id"];
    assert h[1..] == ["date_of_birth"] && h[1..][1..] == [];
    assert Filter(h[1..], p) == ["date_of_birth"];
    IndexOfDistinct(h, 1);
    assert ["player_id"][1..] == [];
    assert [0] + [] == [0];
  }

  /** Every player has at most one birth row, and the merge gives a
      performance of player `id` the reference date of birth. */
  lemma BirthLookup(profile: Table, id: Cell)
    requires "player_id" in profile.header && "date_of_birth" in profile.header
    ensures |Matches(BirthDates(profile).value.rows, [0], [id])| <= 1
    ensures Found(Matches(BirthDates(profile).value.rows, [0], [id]), [1]) == [FirstDob(profile.header, profile.rows, id)]
  {
    var dob := Select(profile, ProfileColumns).value;
    SelectRows(profile, ProfileColumns);
    assert BirthDates(profile).value.rows == DropDuplicates(dob.rows, [0]);
    FirstRowCell(dob.rows, id);
    FirstWithDob(profile.header, profile.rows, id);
  }

  /** Deduplication on the first column leaves at most one row per key, and
      its second cell is the one of the first row with that key. */
  lemma FirstRowCell(rows: seq<Row>, id: Cell)
    ensures |Matches(DropDuplicates(rows, [0]), [0], [id])| <= 1
    ensures Found(Matches(DropDuplicates(rows, [0]), [0], [id]), [1]) ==
      [match FirstWith(rows, [0], [id]) case None => Missing case Some(r) => At(r, 1)]
  {
    DedupMatches(rows, [0], [], [id]);
    match FirstWith(rows, [0], [id])
    case None =>
    case Some(r) =>
      assert Pick(r, [1]) == [At(r, 1)];
  }

  /** Line 55: the merge keeps the performances one for one and in order, and
      appends each one's date of birth. */
  lemma MergedDob(main: Table, profile: Table)
    requires "player_id" in main.header && "date_of_birth" !in main.header
    requires "player_id" in profile.header && "date_of_birth" in profile.header
    ensures LeftMerge(main, BirthDates(profile).value, ["player_id"]).Ok?
    ensures LeftMerge(main, BirthDates(profile).value, ["player_id"]).value.header == main.header + ["date_of_birth"]
    ensures |LeftMerge(main, BirthDates(profile).value, ["player_id"]).value.rows| == |main.rows|
    ensures forall i :: 0 <= i < |main.rows| ==>
      LeftMerge(main, BirthDates(profile).value, ["player_id"]).value.rows[i] ==
        main.rows[i] + [FirstDob(profile.header, profile.rows, Lookup(main.header, main.rows[i], "player_id"))]
  {
    var dobs := BirthDates(profile).value;
    ProfileColumnsAt();
    assert LeftMerge(main, dobs, ["player_id"]).Ok?;
    LeftMergeValue(main, dobs, ["player_id"]);
    MergedHeaderPlain(main.header, ["date_of_birth"]);
    var lk := Locate(main.header, ["player_id"]).value;
    forall i | 0 <= i < |main.rows|
      ensures |Matches(dobs.rows, [0], Pick(main.rows[i], lk))| <= 1
      ensures Found(Matches(dobs.rows, [0], Pick(main.rows[i], lk)), [1]) ==
        [FirstDob(profile.header, profile.rows, Lookup(main.header, main.rows[i], "player_id"))]
    {
      var id := Lookup(main.header, main.rows[i], "player_id");
      assert Pick(main.rows[i], lk) == [id];
      BirthLookup(profile, id);
    }
    LookupJoin(main.rows, lk, dobs.rows, [0], [1]);
  }

  /** Lines 62-70 on the merged table: the age is appended after the date of
      birth. */
  lemma AgedRows(mh: seq<string>, merged: Table, birthYear: Cell -> Option<int>)
    requires "season_name" in mh && "date_of_birth" !in mh && "age" !in mh
    requires merged.header == mh + ["date_of_birth"]
    requires forall i :: 0 <= i < |merged.rows| ==> |merged.rows[i]| == |mh| + 1
    ensures WithAge(merged, birthYear).Ok?
    ensures WithAge(merged, birthYear).value.header == mh + ["date_of_birth", "age"]
    ensures |WithAge(merged, birthYear).value.rows| == |merged.rows|
    ensures forall i :: 0 <= i < |merged.rows| ==>
      var r := merged.rows[i];
      WithAge(merged, birthYear).value.rows[i] == r + [AgeCell(Lookup(mh, r[..|mh|], "season_name"), r[|mh|], birthYear)]
    ensures forall i :: 0 <= i < |merged.rows| ==> |WithAge(merged, birthYear).value.rows[i]| == |mh| + 2
  {
    var seasons := Column(merged, "season_name").value;
    var dobs := Column(merged, "date_of_birth").value;
    var ages := Ages(seasons, dobs, birthYear);
    assert WithAge(merged, birthYear) == Ok(WithColumn(merged, "age", ages));
    var aged := WithColumn(merged, "age", ages);
    assert "age" !in merged.header;
    forall i | 0 <= i < |merged.rows|
      ensures var r := merged.rows[i];
        aged.rows[i] == r + [AgeCell(Lookup(mh, r[..|mh|], "season_name"), r[|mh|], birthYear)]
    {
      MergedRowCells(mh, merged.rows[i]);
      assert aged.rows[i] == merged.rows[i] + [ages[i]];
    }
  }

  /** The season and the date of birth a merged row holds. */
  lemma MergedRowCells(mh: seq<string>, r: Row)
    requires "date_of_birth" !in mh && |r| == |mh| + 1
    ensures Lookup(mh + ["date_of_birth"], r, "season_name") == Lookup(mh, r[..|mh|], "season_name")
    ensures Lookup(mh + ["date_of_birth"], r, "date_of_birth") == r[|mh|]
  {
    assert r == r[..|mh|] + [r[|mh|]];
    LookupConcat(mh, ["date_of_birth"], r[..|mh|], [r[|mh|]], "season_name");
    LookupConcat(mh, ["date_of_birth"], r[..|mh|], [r[|mh|]], "date_of_birth");
  }

  /** The cells a row keeps once the date of birth is dropped. */
  lemma DroppedRow(mh: seq<string>, r: Row)
    requires Distinct(mh) && "date_of_birth" !in mh && "age" !in mh && |r| == |mh| + 2
    ensures forall j :: 0 <= j < |mh| + 1 ==>
      Lookup(mh + ["date_of_birth", "age"], r, (mh + ["age"])[j]) == (r[..|mh|] + [r[|mh| + 1]])[j]
  {
    var tail := ["date_of_birth", "age"];
    var cols := mh + ["age"];
    var m, t := r[..|mh|], r[|mh|..];
    assert r == m + t;
    forall j | 0 <= j < |mh| + 1 ensures Lookup(mh + tail, r, cols[j]) == (m + [t[1]])[j] {
      LookupConcat(mh, tail, m, t, cols[j]);
      if j < |mh| {
        IndexOfDistinct(mh, j);
      } else {
        assert cols[j] == "age";
        assert Lookup(tail, t, "age") == t[1];
      }
    }
  }

  /** The columns left once `date_of_birth` is dropped. */
  lemma DropDobHeader(mh: seq<string>)
    requires "date_of_birth" !in mh
    ensures Without(mh + ["date_of_birth", "age"], ["date_of_birth"]) == mh + ["age"]
  {
    var p := (c: string) => c !in ["date_of_birth"];
    var tail := ["date_of_birth", "age"];
    FilterConcat(mh, tail, p);
    FilterAll(mh, p);
    assert tail[1..] == ["age"] && tail[1..][1..] == [];
    assert Filter(tail, p) == ["age"];
  }

  /** Line 74: dropping the date of birth leaves the performance columns and
      the age. */
  lemma DroppedRows(mh: seq<string>, aged: Table)
    requires Distinct(mh) && "date_of_birth" !in mh && "age" !in mh
    requires aged.header == mh + ["date_of_birth", "age"]
    requires forall i :: 0 <= i < |aged.rows| ==> |aged.rows[i]| == |mh| + 2
    ensures DropColumns(aged, ["date_of_birth"]).Ok?
    ensures DropColumns(aged, ["date_of_birth"]).value.header == mh + ["age"]
    ensures |DropColumns(aged, ["date_of_birth"]).value.rows| == |aged.rows|
    ensures forall i :: 0 <= i < |aged.rows| ==>
      DropColumns(aged, ["date_of_birth"]).value.rows[i] == aged.rows[i][..|mh|] + [aged.rows[i][|mh| + 1]]
    ensures forall i :: 0 <= i < |aged.rows| ==> |DropColumns(aged, ["date_of_birth"]).value.rows[i]| == |mh| + 1
  {
    var cols := mh + ["age"];
    DropDobHeader(mh);
    var d := DropColumns(aged, ["date_of_birth"]).value;
    assert d == Select(aged, cols).value;
    forall i | 0 <= i < |aged.rows|
      ensures d.rows[i] == aged.rows[i][..|mh|] + [aged.rows[i][|mh| + 1]]
    {
      DroppedRow(mh, aged.rows[i]);
    }
  }

  /** Moving `age` last when it already is last changes nothing. */
  lemma AgeAlreadyLast(mh: seq<string>)
    requires "age" !in mh
    ensures AgeLast(mh) == mh + ["age"]
    ensures AgeLast(mh + ["age"]) == mh + ["age"]
  {
    var p := (c: string) => c !in ["age"];
    assert forall k :: 0 <= k < |mh| ==> p(mh[k]);
    FilterAll(mh, p);
    FilterConcat(mh, ["age"], p);
    assert Filter(["age"], p) == [];
  }

  /** The dates of birth the merge gives the rows of `main`. */
  function Dobs(main: Table, profile: Table): (r: seq<Cell>)
    ensures |r| == |main.rows|
  {
    seq(|main.rows|, i requires 0 <= i < |main.rows| => FirstDob(profile.header, profile.rows, Lookup(main.header, main.rows[i], "player_id")))
  }

  /** The three row-level steps put together. */
  lemma ComposeRows(mh: seq<string>, rows: seq<Row>, dobs: seq<Cell>, merged: seq<Row>, aged: seq<Row>, dropped: seq<Row>,
                    birthYear: Cell -> Option<int>)
    requires |rows| == |dobs| == |merged| == |aged| == |dropped|
    requires forall i :: 0 <= i < |rows| ==> |rows[i]| == |mh|
    requires forall i :: 0 <= i < |rows| ==> merged[i] == rows[i] + [dobs[i]]
    requires forall i :: 0 <= i < |rows| ==>
      aged[i] == merged[i] + [AgeCell(Lookup(mh, merged[i][..|mh|], "season_name"), merged[i][|mh|], birthYear)]
    requires forall i :: 0 <= i < |rows| ==> dropped[i] == aged[i][..|mh|] + [aged[i][|mh| + 1]]
    ensures forall i :: 0 <= i < |rows| ==> dropped[i] == rows[i] + [AgeCell(Lookup(mh, rows[i], "season_name"), dobs[i], birthYear)]
  {
    forall i | 0 <= i < |rows|
      ensures dropped[i] == rows[i] + [AgeCell(Lookup(mh, rows[i], "season_name"), dobs[i], birthYear)]
    {
      assert merged[i][..|mh|] == rows[i] && merged[i][|mh|] == dobs[i];
      assert aged[i][..|mh|] == rows[i];
    }
  }

  /** Adding `age` and dropping `date_of_birth` from a table whose rows are
      `rows` with a date of birth appended. */
  lemma AgeAndDrop(mh: seq<string>, rows: seq<Row>, dobs: seq<Cell>, merged: Table, birthYear: Cell -> Option<int>)
    requires Distinct(mh) && "season_name" in mh && "date_of_birth" !in mh && "age" !in mh
    requires merged.header == mh + ["date_of_birth"]
    requires |rows| == |dobs| == |merged.rows|
    requires forall i :: 0 <= i < |rows| ==> |rows[i]| == |mh|
    requires forall i :: 0 <= i < |rows| ==> merged.rows[i] == rows[i] + [dobs[i]]
    ensures WithAge(merged, birthYear).Ok?
    ensures DropColumns(WithAge(merged, birthYear).value, ["date_of_birth"]).Ok?
    ensures DropColumns(WithAge(merged, birthYear).value, ["date_of_birth"]).value.header == mh + ["age"]
    ensures |DropColumns(WithAge(merged, birthYear).value, ["date_of_birth"]).value.rows| == |rows|
    ensures forall i :: 0 <= i < |rows| ==>
      DropColumns(WithAge(merged, birthYear).value, ["date_of_birth"]).value.rows[i] ==
        rows[i] + [AgeCell(Lookup(mh, rows[i], "season_name"), dobs[i], birthYear)]
  {
    assert forall i :: 0 <= i < |merged.rows| ==> |merged.rows[i]| == |mh| + 1;
    AgedRows(mh, merged, birthYear);
    var aged := WithAge(merged, birthYear).value;
    DroppedRows(mh, aged);
    var dropped := DropColumns(aged, ["date_of_birth"]).value;
    ComposeRows(mh, rows, dobs, merged.rows, aged.rows, dropped.rows, birthYear);
  }

  /** Before the selection the rows are already the input rows with `age`
      appended. */
  lemma DroppedAges(main: Table, profile: Table, birthYear: Cell -> Option<int>)
    requires WellFormed(main)
    requires "player_id" in main.header && "season_name" in main.header
    requires "date_of_birth" !in main.header && "age" !in main.header
    requires "player_id" in profile.header && "date_of_birth" in profile.header
    ensures Dropped(main, profile, birthYear).Ok?
    ensures Dropped(main, profile, birthYear).value.header == main.header + ["age"]
    ensures |Dropped(main, profile, birthYear).value.rows| == |main.rows|
    ensures forall i :: 0 <= i < |main.rows| ==>
      Dropped(main, profile, birthYear).value.rows[i] ==
        main.rows[i] + [AgeCell(Lookup(main.header, main.rows[i], "season_name"), Dobs(main, profile)[i], birthYear)]
  {
    MergedDob(main, profile);
    var merged := LeftMerge(main, BirthDates(profile).value, ["player_id"]).value;
    AgeAndDrop(main.header, main.rows, Dobs(main, profile), merged, birthYear);
  }

  /** Selecting the `age`-last order of a table whose `age` is already last
      changes nothing. */
  lemma SelectAgeLast(mh: seq<string>, t: Table)
    requires Distinct(mh) && "age" !in mh
    requires t.header == mh + ["age"]
    requires forall i :: 0 <= i < |t.rows| ==> |t.rows[i]| == |mh| + 1
    ensures Select(t, AgeLast(t.header)) == Ok(t)
  {
    AgeAlreadyLast(mh);
    AgeLastColumns(mh);
    assert WellFormed(t);
    SelectAll(t);
  }

  /** main5.py end to end: the output has the input's columns and then `age`;
      it has one row per input row, in order; each row is the input row
      followed by the end year of its season minus the birth year of the
      first profile row of its player, NaN when either is unknown; a player
      without a profile row gets a NaN age. */
  lemma AgeRows(main: Table, profile: Table, birthYear: Cell -> Option<int>)
    requires WellFormed(main)
    requires "player_id" in main.header && "season_name" in main.header
    requires "date_of_birth" !in main.header && "age" !in main.header
    requires "player_id" in profile.header && "date_of_birth" in profile.header
    ensures AgeData(main, profile, birthYear).Ok?
    ensures AgeData(main, profile, birthYear).value.header == main.header + ["age"]
    ensures |AgeData(main, profile, birthYear).value.rows| == |main.rows|
    ensures forall i :: 0 <= i < |main.rows| ==>
      var dob := FirstDob(profile.header, profile.rows, Lookup(main.header, main.rows[i], "player_id"));
      AgeData(main, profile, birthYear).value.rows[i] ==
        main.rows[i] + [AgeCell(Lookup(main.header, main.rows[i], "season_name"), dob, birthYear)]
    ensures forall i :: 0 <= i < |main.rows| ==>
      (forall j :: 0 <= j < |profile.rows| ==>
         Lookup(profile.header, profile.rows[j], "player_id") != Lookup(main.header, main.rows[i], "player_id")) ==>
      AgeData(main, profile, birthYear).value.rows[i][|main.header|] == Missing
  {
    DroppedAges(main, profile, birthYear);
    SelectAgeLast(main.header, Dropped(main, profile, birthYear).value);
    forall i | 0 <= i < |main.rows| &&
      (forall j :: 0 <= j < |profile.rows| ==>
        Lookup(profile.header, profile.rows[j], "player_id") != Lookup(main.header, main.rows[i], "player_id"))
      ensures AgeData(main, profile, birthYear).value.rows[i][|main.header|] == Missing
    {
      NoProfileNoDob(profile.header, profile.rows, Lookup(main.header, main.rows[i], "player_id"));
      assert |main.rows[i]| == |main.header|;
    }
  }
}
