/**
  The skyscraper table and the views the dashboard derives from it when the
  script starts (finalproject.py lines 15-47): cleaning, the height sort,
  the completed view with its year substitution, and the city drop-down.
*/
module Buildings {

  import opened Wrappers
  import Seqs
  import Text

  /** One CSV row as read: the city cell may be empty (NaN). */
  datatype RawBuilding = RawBuilding(
    name: string,
    city: Option<string>,
    height: real,
    latitude: real,
    longitude: real,
    completed: bool,
    year: int)

  /** One row of the cleaned table `df`; its city column holds strings. */
  datatype Building = Building(
    name: string,
    city: string,
    height: real,
    latitude: real,
    longitude: real,
    completed: bool,
    year: int)

  function Height(b: Building): real
  {
    b.height
  }

  /** The mask of the load-time filter: a positive height and a city present. */
  predicate Retained(row: RawBuilding)
  {
    row.height > 0.0 && row.city.Some?
  }

  /** `astype(str)` on one city cell: pandas writes a missing value as "nan". */
  function CityText(cell: Option<string>): string
  {
    match cell
    case Some(c) => c
    case None => "nan"
  }

  function ToBuilding(row: RawBuilding): Building
  {
    Building(row.name, CityText(row.city), row.height, row.latitude, row.longitude, row.completed, row.year)
  }

  /** The raw row a cleaned row came from. */
  function Lift(b: Building): RawBuilding
  {
    RawBuilding(b.name, Some(b.city), b.height, b.latitude, b.longitude, b.completed, b.year)
  }

  /**
    The load-time clean-up: drop rows whose height is not positive or whose
    city is missing, then turn the city column into strings. Read back as raw
    rows, the result is exactly the retained rows of `raw`, each as often as
    in `raw` and in their original order.
  */
  function Clean(raw: seq<RawBuilding>): (df: seq<Building>)
    ensures forall b :: b in df ==> b.height > 0.0
    ensures Seqs.IsSubsequence(Seqs.Map(Lift, df), raw)
    ensures forall row :: multiset(Seqs.Map(Lift, df))[row] == if Retained(row) then multiset(raw)[row] else 0
  {
    var kept := Seqs.Filter(Retained, raw);
    var df := Seqs.Map(ToBuilding, kept);
    LiftAfterClean(kept);
    df
  }

  /** Converting retained rows and reading them back as raw rows is the identity. */
  lemma LiftAfterClean(kept: seq<RawBuilding>)
    requires forall row :: row in kept ==> Retained(row)
    ensures Seqs.Map(Lift, Seqs.Map(ToBuilding, kept)) == kept
    ensures forall b :: b in Seqs.Map(ToBuilding, kept) ==> b.height > 0.0
  {
    var df := Seqs.Map(ToBuilding, kept);
    forall i | 0 <= i < |kept| ensures Lift(df[i]) == kept[i] && df[i].height > 0.0 {
      assert kept[i] in kept;
    }
  }

  /** Places `b` in a table already sorted tallest first. */
  function Insert(b: Building, s: seq<Building>): (r: seq<Building>)
    requires Seqs.Descending(s, Height)
    ensures Seqs.Descending(r, Height)
    ensures multiset(r) == multiset(s) + multiset{b}
  {
    if s == [] || b.height >= s[0].height then
      [b] + s
    else
      var rest := Insert(b, s[1..]);
      InsertBelowHead(b, s, rest);
      [s[0]] + rest
  }

  /** The step of `Insert`: the first row of `s` stays in front of the rest with `b` placed in it. */
  lemma InsertBelowHead(b: Building, s: seq<Building>, rest: seq<Building>)
    requires s != [] && b.height < s[0].height && Seqs.Descending(s, Height)
    requires Seqs.Descending(rest, Height) && multiset(rest) == multiset(s[1..]) + multiset{b}
    ensures Seqs.Descending([s[0]] + rest, Height)
    ensures multiset([s[0]] + rest) == multiset(s) + multiset{b}
  {
    assert s == [s[0]] + s[1..];
    forall x | x in rest ensures x.height <= s[0].height {
      assert x in multiset(rest);
      if x != b {
        assert x in multiset(s[1..]);
        var j :| 0 <= j < |s[1..]| && s[1..][j] == x;
        assert s[j + 1] == x;
      }
    }
    var r := [s[0]] + rest;
    forall i, j | 0 <= i < j < |r| ensures Height(r[i]) >= Height(r[j]) {
      if i == 0 {
        assert r[j] in rest;
      } else {
        assert r[i] == rest[i - 1] && r[j] == rest[j - 1];
      }
    }
  }

  /**
    `sort_values(by='statistics.height', ascending=False)`: the same rows,
    tallest first. pandas' default sort is not stable, so nothing is promised
    about the order of rows of equal height; `TieOrderDoesNotChangeHeights`
    shows that the height column is the same whatever that order is.
  */
  function SortByHeight(s: seq<Building>): (r: seq<Building>)
    ensures Seqs.Descending(r, Height)
    ensures multiset(r) == multiset(s)
  {
    if s == [] then []
    else
      assert s == [s[0]] + s[1..];
      Insert(s[0], SortByHeight(s[1..]))
  }

  /**
    Any two tables that hold the same rows sorted tallest first have the
    same height column: the tie order pandas picks changes which row of a
    tie comes first, never the heights along the table.
  */
  lemma TieOrderDoesNotChangeHeights(s: seq<Building>, other: seq<Building>)
    requires multiset(other) == multiset(s) && Seqs.Descending(other, Height)
    ensures Seqs.Map(Height, other) == Seqs.Map(Height, SortByHeight(s))
  {
    Seqs.DescendingKeysDetermined(other, SortByHeight(s), Height);
  }

  /** A completion year after `replace(0, "Unknown")`. */
  datatype YearKey = Unknown | Year(year: int)

  /** A row of `completed_df`: a completed building whose year column went through the substitution. */
  datatype CompletedRow = CompletedRow(
    name: string,
    city: string,
    height: real,
    latitude: real,
    longitude: real,
    completed: bool,
    year: YearKey)

  function RowHeight(row: CompletedRow): real
  {
    row.height
  }

  /** `replace(0, "Unknown")` on one year cell. */
  function KeyOfYear(year: int): YearKey
  {
    if year == 0 then Unknown else Year(year)
  }

  /** The raw year a key stands for. */
  function YearOfKey(k: YearKey): int
  {
    match k
    case Unknown => 0
    case Year(y) => y
  }

  /** Every key the substitution produces gives its year back, and it never produces `Year(0)`. */
  lemma KeyOfYearRoundTrip(year: int)
    ensures YearOfKey(KeyOfYear(year)) == year
    ensures KeyOfYear(year) != Year(0)
    ensures KeyOfYear(year) == Unknown <==> year == 0
  {
  }

  function WithYearKey(b: Building): CompletedRow
  {
    CompletedRow(b.name, b.city, b.height, b.latitude, b.longitude, b.completed, KeyOfYear(b.year))
  }

  function WithoutYearKey(row: CompletedRow): Building
  {
    Building(row.name, row.city, row.height, row.latitude, row.longitude, row.completed, YearOfKey(row.year))
  }

  /**
    `completed_df`: the completed rows of `df` with year 0 shown as
    "Unknown". With the raw year put back, it is exactly the completed rows
    of `df`, each as often as in `df` and in `df`'s order; every other
    column is unchanged, and no row is left with year 0.
  */
  function CompletedView(df: seq<Building>): (rows: seq<CompletedRow>)
    ensures Seqs.IsSubsequence(Seqs.Map(WithoutYearKey, rows), df)
    ensures forall b :: multiset(Seqs.Map(WithoutYearKey, rows))[b] == if b.completed then multiset(df)[b] else 0
    ensures forall row :: row in rows ==> row.completed && row.year != Year(0)
    ensures forall row :: row in rows <==> exists b :: b in df && b.completed && row == WithYearKey(b)
  {
    var done := Seqs.Filter((b: Building) => b.completed, df);
    var rows := Seqs.Map(WithYearKey, done);
    assert Seqs.Map(WithoutYearKey, rows) == done;
    forall row ensures row in rows <==> exists b :: b in done && WithYearKey(b) == row {
      Seqs.MapMembers(WithYearKey, done, row);
    }
    rows
  }

  /** `completed_df` inherits the tallest-first order of `df`. */
  lemma CompletedViewDescending(df: seq<Building>)
    requires Seqs.Descending(df, Height)
    ensures Seqs.Descending(CompletedView(df), RowHeight)
  {
    var rows := CompletedView(df);
    var back := Seqs.Map(WithoutYearKey, rows);
    Seqs.SubsequenceDescending(back, df, Height);
    forall i, j | 0 <= i < j < |rows| ensures RowHeight(rows[i]) >= RowHeight(rows[j]) {
      assert Height(back[i]) >= Height(back[j]);
    }
  }

  /** The sentinel first entry of the city drop-down. */
  const AllCities: string := "ALL CITIES"

  function CityOf(b: Building): string
  {
    b.city
  }

  /**
    `city_options`: "ALL CITIES", then every city of `df` exactly once, in
    ascending string order.
  */
  function CityOptions(df: seq<Building>): (options: seq<string>)
    ensures |options| >= 1 && options[0] == AllCities
    ensures Text.StrictlyAscending(options[1..])
    ensures forall i, j :: 1 <= i < j < |options| ==> options[i] != options[j]
    ensures forall c :: c in options[1..] <==> exists b :: b in df && b.city == c
  {
    var cities := Seqs.Map(CityOf, df);
    var sorted := Text.SortedDistinct(cities);
    forall c ensures c in cities <==> exists b :: b in df && CityOf(b) == c {
      Seqs.MapMembers(CityOf, df, c);
    }
    var options := [AllCities] + sorted;
    assert options[1..] == sorted;
    options
  }

  /** Python `list.index`: the position of the first occurrence of `x`. */
  function IndexOf(s: seq<string>, x: string): (i: nat)
    requires x in s
    ensures i < |s| && s[i] == x
    ensures forall j :: 0 <= j < i ==> s[j] != x
  {
    if s[0] == x then 0 else 1 + IndexOf(s[1..], x)
  }

  /** `default_index`: where "Chicago" first stands in the options, or 0 without it. */
  function DefaultIndex(options: seq<string>): (i: nat)
    ensures "Chicago" in options ==> i < |options| && options[i] == "Chicago"
                                     && forall j :: 0 <= j < i ==> options[j] != "Chicago"
    ensures "Chicago" !in options ==> i == 0
  {
    if "Chicago" in options then IndexOf(options, "Chicago") else 0
  }

}
