/**
  The script's top level (finalproject.py lines 15-47): the state it builds
  once, in this order, before drawing any page. Every page query then reads
  the table as it stands after the height sort.
*/
module Dashboard {

  import opened Buildings
  import opened Queries
  import Seqs

  /** The module-level values the pages read: `df`, `completed_df`, `city_options`, `default_index`. */
  datatype Session = Session(
    df: seq<Building>,
    completedDf: seq<CompletedRow>,
    cityOptions: seq<string>,
    defaultIndex: nat)

  /**
    Clean the raw table, sort it tallest first, derive the completed view
    and the city drop-down. The table holds exactly the cleaned rows, sorted;
    the completed view and the drop-down are derived from that sorted table,
    so they carry the full contracts of `CompletedView`, `CityOptions` and
    `DefaultIndex`; the completed view is sorted too, and the drop-down
    opens on "Chicago" exactly when some row is in Chicago.
  */
  function Startup(raw: seq<RawBuilding>): (s: Session)
    ensures s.completedDf == CompletedView(s.df)
    ensures s.cityOptions == CityOptions(s.df) && s.defaultIndex == DefaultIndex(s.cityOptions)
    ensures multiset(s.df) == multiset(Clean(raw))
    ensures Seqs.Descending(s.df, Height)
    ensures forall b :: b in s.df ==> b.height > 0.0
    ensures Seqs.Descending(s.completedDf, RowHeight)
    ensures forall row :: row in s.completedDf <==> exists b :: b in s.df && b.completed && row == WithYearKey(b)
    ensures s.defaultIndex < |s.cityOptions| && s.cityOptions[0] == AllCities
    ensures (exists b :: b in s.df && b.city == "Chicago") ==> s.cityOptions[s.defaultIndex] == "Chicago"
    ensures (forall b :: b in s.df ==> b.city != "Chicago") ==> s.defaultIndex == 0
  {
    var cleaned := Clean(raw);
    var df := SortByHeight(cleaned);
    assert forall b :: b in df ==> b.height > 0.0 by {
      forall b | b in df ensures b.height > 0.0 {
        assert b in multiset(df);
        assert b in cleaned;
      }
    }
    CompletedViewDescending(df);
    var options := CityOptions(df);
    assert "Chicago" in options <==> "Chicago" in options[1..] by {
      assert options == [options[0]] + options[1..];
    }
    Session(df, CompletedView(df), options, DefaultIndex(options))
  }

  /**
    Page two's rankings come from the sorted table: both are sorted
    tallest first and hold the tallest rows of the chosen city.
  */
  lemma StartupRankingsAreTallest(raw: seq<RawBuilding>, city: string, topN: int)
    ensures var s := Startup(raw);
            var top := TallestSkyscrapers(s.df, city, topN).rows;
            var pool := if city == AllCities then s.df else CityRows(s.df, city);
            && Seqs.Descending(top, Height)
            && (forall b :: b in top ==> b.height > 0.0 && Selected(b.city, city))
            && forall i, j :: 0 <= i < |top| <= j < |pool| ==> top[i].height >= pool[j].height
  {
    TallestAreTallest(Startup(raw).df, city, topN);
  }

}
