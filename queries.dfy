/**
  The queries the three dashboard pages run against the cleaned, sorted
  table: the top-N ranking, the sidebar's name lookup, the page-one city
  filter and its average height per completion year, and the map's city and
  height-range filter (finalproject.py lines 24-30, 54-63, 76-79, 99,
  188-194).
*/
module Queries {

  import opened Buildings
  import Seqs
  import Text

  /** A city choice lets a row through: "ALL CITIES" lets every row through. */
  predicate Selected(city: string, choice: string)
  {
    choice == AllCities || city == choice
  }

  /** The mask `df['location.city'] == city`. */
  function CityRows(df: seq<Building>, city: string): (r: seq<Building>)
    ensures forall b :: b in r <==> b in df && b.city == city
    ensures Seqs.IsSubsequence(r, df)
    ensures forall b :: multiset(r)[b] == if b.city == city then multiset(df)[b] else 0
  {
    Seqs.Filter((b: Building) => b.city == city, df)
  }

  /** What `get_tallest_skyscrapers` returns: the rows and how many there are. */
  datatype Ranking = Ranking(rows: seq<Building>, count: nat)

  /**
    `get_tallest_skyscrapers(city, top_n)`. It reads the table `df` as it
    is when called, which on every page is the height-sorted table. The rows
    are the first `top_n` of `df` for "ALL CITIES", otherwise the first
    `top_n` of `df`'s rows in that city; `count` is their number, which is
    `top_n` unless fewer rows are available (a negative `top_n` drops that
    many rows from the end, as `head` does).
  */
  function TallestSkyscrapers(df: seq<Building>, city: string, topN: int): (t: Ranking)
    ensures t.count == |t.rows|
    ensures city == AllCities ==> t.rows <= df
    ensures city != AllCities ==> t.rows <= CityRows(df, city)
    ensures Seqs.IsSubsequence(t.rows, df)
    ensures forall b :: b in t.rows ==> b in df && Selected(b.city, city)
    ensures topN >= 0 && city == AllCities ==> t.count == if topN < |df| then topN else |df|
    ensures topN >= 0 && city != AllCities ==>
              t.count == if topN < |CityRows(df, city)| then topN else |CityRows(df, city)|
    ensures topN < 0 && city == AllCities ==> t.count == if |df| + topN > 0 then |df| + topN else 0
    ensures topN < 0 && city != AllCities ==>
              t.count == if |CityRows(df, city)| + topN > 0 then |CityRows(df, city)| + topN else 0
  {
    var top := if city == AllCities then Seqs.Head(df, topN) else Seqs.Head(CityRows(df, city), topN);
    assert forall b :: b in top ==> b in df && Selected(b.city, city) by {
      forall b | b in top ensures b in df && Selected(b.city, city) {
        var i :| 0 <= i < |top| && top[i] == b;
        if city == AllCities {
          assert df[i] == b;
        } else {
          assert CityRows(df, city)[i] == b;
        }
      }
    }
    var pool := if city == AllCities then df else CityRows(df, city);
    assert Seqs.IsSubsequence(pool, df) by {
      if city == AllCities {
        Seqs.SubsequenceReflexive(df);
      }
    }
    Seqs.PrefixOfSubsequence(top, pool, df);
    Ranking(top, |top|)
  }

  /**
    On a table sorted tallest first, the ranking is sorted tallest first as
    well, and no row of the chosen city left out of it is taller than any
    row in it.
  */
  lemma TallestAreTallest(df: seq<Building>, city: string, topN: int)
    requires Seqs.Descending(df, Height)
    ensures Seqs.Descending(TallestSkyscrapers(df, city, topN).rows, Height)
    ensures var pool := if city == AllCities then df else CityRows(df, city);
            var top := TallestSkyscrapers(df, city, topN).rows;
            forall i, j :: 0 <= i < |top| <= j < |pool| ==> top[i].height >= pool[j].height
  {
    var pool := if city == AllCities then df else CityRows(df, city);
    var top := TallestSkyscrapers(df, city, topN).rows;
    if city != AllCities {
      Seqs.SubsequenceDescending(pool, df, Height);
    }
    assert top <= pool;
    forall i, j | 0 <= i < j < |pool| ensures pool[i].height >= pool[j].height {
      assert Height(pool[i]) >= Height(pool[j]);
    }
    forall i, j | 0 <= i < j < |top| ensures Height(top[i]) >= Height(top[j]) {
      assert top[i] == pool[i] && top[j] == pool[j];
    }
  }

  /**
    Page two asks for the top 5 and then the top 20 of the same city: the
    smaller ranking is always the opening rows of the larger one.
  */
  lemma SmallerRankingIsPrefix(df: seq<Building>, city: string, m: int, n: int)
    requires 0 <= m <= n
    ensures TallestSkyscrapers(df, city, m).rows <= TallestSkyscrapers(df, city, n).rows
  {
    var pool := if city == AllCities then df else CityRows(df, city);
    var small, large := TallestSkyscrapers(df, city, m).rows, TallestSkyscrapers(df, city, n).rows;
    assert small <= pool && large <= pool && |small| <= |large|;
    assert small == pool[..|small|] && large == pool[..|large|];
  }

  /** What the sidebar shows after the name box changes. */
  datatype Lookup = Blank | Located(city: string) | NotFound

  /**
    The sidebar's name search: the input is stripped and lowered, the
    dataset's names only lowered. A blank input starts no search; otherwise
    the answer is the city of the first row of `df`, in `df`'s order, whose
    lowered name equals the key, or `NotFound` when there is none.
  */
  function FindCity(df: seq<Building>, input: string): (r: Lookup)
    ensures r.Blank? <==> Text.Strip(input) == ""
    ensures r.Located? ==>
              exists i :: 0 <= i < |df| && Text.Lower(df[i].name) == Text.Lower(Text.Strip(input))
                          && df[i].city == r.city
                          && forall j :: 0 <= j < i ==> Text.Lower(df[j].name) != Text.Lower(Text.Strip(input))
    ensures r.NotFound? <==>
              Text.Strip(input) != "" && forall b :: b in df ==> Text.Lower(b.name) != Text.Lower(Text.Strip(input))
  {
    var key := Text.Lower(Text.Strip(input));
    if key == "" then
      Blank
    else
      var named := (b: Building) => Text.Lower(b.name) == key;
      var matches := Seqs.Filter(named, df);
      if matches == [] then
        NotFound
      else
        Seqs.FilterHeadIsFirstMatch(named, df);
        Located(matches[0].city)
  }

  /**
    Whitespace typed around a name does not change the answer: " Willis
    Tower " finds what "Willis Tower" finds.
  */
  lemma PaddedInputFindsTheSame(df: seq<Building>, pre: string, input: string, post: string)
    requires forall k :: 0 <= k < |pre| ==> Text.IsSpace(pre[k])
    requires forall k :: 0 <= k < |post| ==> Text.IsSpace(post[k])
    ensures FindCity(df, pre + input + post) == FindCity(df, input)
  {
    Text.StripPadded(pre, input, post);
  }

  /**
    The lookup strips the input but not the stored names: a building whose
    name starts with whitespace never matches, not even its own name typed in.
  */
  lemma SpacedNamesNeverMatch(b: Building, input: string)
    requires b.name != [] && Text.IsSpace(b.name[0])
    ensures Text.Lower(b.name) != Text.Lower(Text.Strip(input))
  {
    var stripped := Text.Strip(input);
    Text.LowerCharKeepsSpace(b.name[0]);
    if stripped != [] {
      Text.LowerCharKeepsSpace(stripped[0]);
    }
  }

  /**
    Such a building is invisible to the lookup: taking its row out of the
    table, wherever it stands among the other rows, changes no answer.
  */
  lemma SpacedRowIsInvisible(df: seq<Building>, i: nat, input: string)
    requires i < |df| && df[i].name != [] && Text.IsSpace(df[i].name[0])
    ensures FindCity(df[..i] + df[i + 1..], input) == FindCity(df, input)
  {
    SpacedNamesNeverMatch(df[i], input);
    var key := Text.Lower(Text.Strip(input));
    var named := (b: Building) => Text.Lower(b.name) == key;
    Seqs.FilterSkip(named, df, i);
  }

  /**
    Page one's table: `completed_df` for "ALL CITIES", otherwise its rows in
    the chosen city, in their order.
  */
  function CompletedInCity(rows: seq<CompletedRow>, city: string): (r: seq<CompletedRow>)
    ensures forall row :: row in r <==> row in rows && Selected(row.city, city)
    ensures Seqs.IsSubsequence(r, rows)
    ensures forall row :: multiset(r)[row] == if Selected(row.city, city) then multiset(rows)[row] else 0
  {
    if city == AllCities then
      Seqs.SubsequenceReflexive(rows);
      rows
    else
      Seqs.Filter((row: CompletedRow) => row.city == city, rows)
  }

  /** The slider's range test, inclusive at both ends. */
  predicate InRange(height: real, lo: int, hi: int)
  {
    lo as real <= height <= hi as real
  }

  /**
    The map page's rows: those of `df` in the chosen city (any city for
    "ALL CITIES") whose height lies in `[lo, hi]`, in `df`'s order.
  */
  function MapRows(df: seq<Building>, city: string, lo: int, hi: int): (r: seq<Building>)
    ensures forall b :: b in r <==> b in df && Selected(b.city, city) && InRange(b.height, lo, hi)
    ensures Seqs.IsSubsequence(r, df)
    ensures forall b :: multiset(r)[b] == if Selected(b.city, city) && InRange(b.height, lo, hi) then multiset(df)[b] else 0
  {
    if city == AllCities then
      Seqs.Filter((b: Building) => lo as real <= b.height && b.height <= hi as real, df)
    else
      Seqs.Filter((b: Building) => b.city == city && lo as real <= b.height && b.height <= hi as real, df)
  }

  /** The keys `groupby('status.completed.year')` forms: every year key present. */
  function YearKeys(rows: seq<CompletedRow>): set<YearKey>
  {
    set row | row in rows :: row.year
  }

  /** One group of the group-by: the rows with key `k`. */
  function Group(rows: seq<CompletedRow>, k: YearKey): seq<CompletedRow>
  {
    if rows == [] then []
    else if rows[0].year == k then [rows[0]] + Group(rows[1..], k)
    else Group(rows[1..], k)
  }

  function SumHeights(rows: seq<CompletedRow>): real
  {
    if rows == [] then 0.0 else rows[0].height + SumHeights(rows[1..])
  }

  /**
    A group is the boolean-mask selection of the rows with that key: all of
    them, each as often as in `rows`, in the order of `rows`.
  */
  lemma {:induction false} GroupIsSelection(rows: seq<CompletedRow>, k: YearKey)
    ensures Group(rows, k) == Seqs.Filter((row: CompletedRow) => row.year == k, rows)
  {
    if rows != [] {
      GroupIsSelection(rows[1..], k);
    }
  }

  lemma {:induction false} GroupAbsent(rows: seq<CompletedRow>, k: YearKey)
    ensures k !in YearKeys(rows) ==> Group(rows, k) == []
  {
    if rows != [] {
      YearKeysCons(rows);
      GroupAbsent(rows[1..], k);
    }
  }

  lemma SumHeightsCons(row: CompletedRow, rows: seq<CompletedRow>)
    ensures SumHeights([row] + rows) == row.height + SumHeights(rows)
  {
    assert ([row] + rows)[1..] == rows;
  }

  /** Running sum and size of one group. */
  datatype Total = Total(sum: real, size: nat)

  /** Per-key sum and size of the groups of `rows`, as the group-by defines them. */
  ghost predicate TotalsOf(rows: seq<CompletedRow>, t: map<YearKey, Total>)
  {
    && t.Keys == YearKeys(rows)
    && forall k :: k in t ==> t[k] == Total(SumHeights(Group(rows, k)), |Group(rows, k)|) && t[k].size > 0
  }

  /** Adds one row to the running totals of its key. */
  function AddRow(t: map<YearKey, Total>, row: CompletedRow): map<YearKey, Total>
  {
    var before := if row.year in t then t[row.year] else Total(0.0, 0);
    t[row.year := Total(before.sum + row.height, before.size + 1)]
  }

  lemma YearKeysCons(rows: seq<CompletedRow>)
    requires rows != []
    ensures YearKeys(rows) == YearKeys(rows[1..]) + {rows[0].year}
  {
    assert rows == [rows[0]] + rows[1..];
  }

  /** Adding the first row to the totals of the rest gives the totals of all rows. */
  lemma AddRowKeepsTotals(rows: seq<CompletedRow>, t: map<YearKey, Total>)
    requires rows != [] && TotalsOf(rows[1..], t)
    ensures TotalsOf(rows, AddRow(t, rows[0]))
  {
    YearKeysCons(rows);
    forall k | k in AddRow(t, rows[0])
      ensures AddRow(t, rows[0])[k] == Total(SumHeights(Group(rows, k)), |Group(rows, k)|)
      ensures AddRow(t, rows[0])[k].size > 0
    {
      AddRowAt(rows, t, k);
    }
  }

  /** The total of one key after adding the first row. */
  lemma AddRowAt(rows: seq<CompletedRow>, t: map<YearKey, Total>, k: YearKey)
    requires rows != [] && TotalsOf(rows[1..], t) && k in AddRow(t, rows[0])
    ensures AddRow(t, rows[0])[k] == Total(SumHeights(Group(rows, k)), |Group(rows, k)|)
    ensures AddRow(t, rows[0])[k].size > 0
  {
    var row := rows[0];
    var g := Group(rows[1..], k);
    if k == row.year {
      var before := if k in t then t[k] else Total(0.0, 0);
      assert before == Total(SumHeights(g), |g|) by {
        GroupAbsent(rows[1..], k);
      }
      assert Group(rows, k) == [row] + g;
      SumHeightsCons(row, g);
      assert AddRow(t, row)[k] == Total(before.sum + row.height, before.size + 1);
    } else {
      assert AddRow(t, row)[k] == t[k];
      assert Group(rows, k) == g;
    }
  }

  /**
    One pass over the rows that accumulates, per year key, the sum of the
    heights and the size of its group.
  */
  function Totals(rows: seq<CompletedRow>): (t: map<YearKey, Total>)
    ensures t.Keys == YearKeys(rows)
    ensures forall k :: k in t ==> t[k] == Total(SumHeights(Group(rows, k)), |Group(rows, k)|) && t[k].size > 0
  {
    if rows == [] then
      map[]
    else
      var t := Totals(rows[1..]);
      AddRowKeepsTotals(rows, t);
      AddRow(t, rows[0])
  }

  /**
    `groupby('status.completed.year')['statistics.height'].mean()`: one
    entry per year key present in `rows` and no other, each the mean height
    of the rows with that key.
  */
  function AverageHeightByYear(rows: seq<CompletedRow>): (avg: map<YearKey, real>)
    ensures avg.Keys == YearKeys(rows)
    ensures forall k :: k in avg ==>
              |Group(rows, k)| > 0 && avg[k] == SumHeights(Group(rows, k)) / (|Group(rows, k)| as real)
  {
    var t := Totals(rows);
    map k | k in t :: t[k].sum / (t[k].size as real)
  }

  /**
    On page one the group-by runs after the year substitution: year 0 is
    grouped under `Unknown`, never under `Year(0)`, and every other year of
    a completed row in the chosen city has its own entry.
  */
  lemma AverageKeysAreSubstitutedYears(df: seq<Building>, city: string)
    ensures var avg := AverageHeightByYear(CompletedInCity(CompletedView(df), city));
            && Year(0) !in avg
            && (Unknown in avg <==> exists b :: b in df && b.completed && b.year == 0 && Selected(b.city, city))
            && forall y :: y != 0 ==>
                 (Year(y) in avg <==> exists b :: b in df && b.completed && b.year == y && Selected(b.city, city))
  {
    var rows := CompletedInCity(CompletedView(df), city);
    var avg := AverageHeightByYear(rows);
    forall k ensures k in avg <==> exists b :: b in df && b.completed && KeyOfYear(b.year) == k && Selected(b.city, city) {
      if k in avg {
        var row :| row in rows && row.year == k;
        var b :| b in df && b.completed && row == WithYearKey(b);
      }
      if exists b :: b in df && b.completed && KeyOfYear(b.year) == k && Selected(b.city, city) {
        var b :| b in df && b.completed && KeyOfYear(b.year) == k && Selected(b.city, city);
        assert WithYearKey(b) in rows;
      }
    }
  }

  /** The three-row example: two buildings of 2000 average to 150, one of 2010 stays at 300. */
  lemma AverageExample(a: CompletedRow, b: CompletedRow, c: CompletedRow)
    requires a.year == b.year == Year(2000) && c.year == Year(2010)
    requires a.height == 100.0 && b.height == 200.0 && c.height == 300.0
    ensures AverageHeightByYear([a, b, c]) == map[Year(2000) := 150.0, Year(2010) := 300.0]
  {
    ExampleTotals(a, b, c);
  }

  lemma ExampleTotals(a: CompletedRow, b: CompletedRow, c: CompletedRow)
    requires a.year == b.year == Year(2000) && c.year == Year(2010)
    requires a.height == 100.0 && b.height == 200.0 && c.height == 300.0
    ensures Totals([a, b, c]) == map[Year(2010) := Total(300.0, 1), Year(2000) := Total(300.0, 2)]
  {
    ExampleTotalsOfTail(b, c);
    assert [a, b, c][1..] == [b, c];
  }

  lemma ExampleTotalsOfTail(b: CompletedRow, c: CompletedRow)
    requires b.year == Year(2000) && c.year == Year(2010)
    requires b.height == 200.0 && c.height == 300.0
    ensures Totals([b, c]) == map[Year(2010) := Total(300.0, 1), Year(2000) := Total(200.0, 1)]
  {
    assert [b, c][1..] == [c] && [c][1..] == [];
  }

}
