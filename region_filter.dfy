/**
 * The sidebar's region selector and the filter it drives: the selector
 * offers "All" followed by the sorted distinct regions, "All" keeps the
 * table as it is, and any other choice keeps the rows of that region only.
 */
module RegionFilter {
  import opened Wrappers
  import opened Seqs
  import opened Households

  /** The selector's sentinel for "no filtering". */
  const AllRegions: string := "All"

  /** Keeps a row exactly when its region is `region` (case-sensitive). */
  function Keeper(region: string): Record -> Option<Record> {
    (row: Record) => if row.region == region then Some(row) else None
  }

  /** The rows whose `Region` equals `region`, in table order. */
  function InRegion(rows: seq<Record>, region: string): (r: seq<Record>)
    ensures |r| <= |rows|
  {
    FilterMap(rows, Keeper(region))
  }

  /** The set of regions that occur in `rows`. */
  function Regions(rows: seq<Record>): set<string> {
    set row | row in rows :: row.region
  }

  /** The table after the sidebar choice `choice` has been applied. */
  function SelectRegion(rows: seq<Record>, choice: string): seq<Record> {
    if choice == AllRegions then rows else InRegion(rows, choice)
  }

  /**
   * `InRegion` keeps exactly the rows of `region`, in their order: its k-th
   * row is the row at position `Hits(...)[k]`, those positions ascend, and
   * the selected positions are exactly those whose region matches.
   */
  lemma InRegionSubsequence(rows: seq<Record>, region: string)
    ensures var r, idx := InRegion(rows, region), Hits(rows, Keeper(region));
      && |idx| == |r|
      && (forall k :: 0 <= k < |idx| ==> idx[k] < |rows| && r[k] == rows[idx[k]])
      && (forall k, l :: 0 <= k < l < |idx| ==> idx[k] < idx[l])
      && (forall i :: 0 <= i < |rows| ==> (i in idx <==> rows[i].region == region))
  {
    FilterMapHits(rows, Keeper(region));
  }

  /** Every kept row has the chosen region, and every row of that region is kept. */
  lemma {:induction false} InRegionMembers(rows: seq<Record>, region: string)
    ensures forall row :: row in InRegion(rows, region) <==> row in rows && row.region == region
  {
    if rows != [] {
      InRegionMembers(rows[1..], region);
      assert rows == [rows[0]] + rows[1..];
    }
  }

  /** Filtering yields nothing exactly when no row has the chosen region. */
  lemma InRegionEmpty(rows: seq<Record>, region: string)
    ensures InRegion(rows, region) == [] <==> region !in Regions(rows)
  {
    InRegionMembers(rows, region);
    var r := InRegion(rows, region);
    if r != [] {
      assert r[0] in r;
    }
    if region in Regions(rows) {
      var row :| row in rows && row.region == region;
      assert row in r;
    }
  }

  /**
   * The filter of the sidebar: "All" leaves the table unchanged; any other
   * choice keeps precisely that region's rows, never adds rows, and keeps
   * nothing when the region does not occur.
   */
  lemma SelectRegionSpec(rows: seq<Record>, choice: string)
    ensures choice == AllRegions ==> SelectRegion(rows, choice) == rows
    ensures choice != AllRegions ==>
      && SelectRegion(rows, choice) == InRegion(rows, choice)
      && (forall row :: row in SelectRegion(rows, choice) <==> row in rows && row.region == choice)
      && (SelectRegion(rows, choice) == [] <==> choice !in Regions(rows))
    ensures |SelectRegion(rows, choice)| <= |rows|
  {
    InRegionMembers(rows, choice);
    InRegionEmpty(rows, choice);
  }

  /** Choosing the same region again changes nothing. */
  lemma {:induction false} InRegionIdempotent(rows: seq<Record>, region: string)
    ensures InRegion(InRegion(rows, region), region) == InRegion(rows, region)
  {
    if rows != [] {
      InRegionIdempotent(rows[1..], region);
      var rest := InRegion(rows[1..], region);
      if rows[0].region == region {
        assert InRegion(rows, region) == [rows[0]] + rest;
        assert ([rows[0]] + rest)[1..] == rest;
      }
    }
  }

  lemma SelectRegionIdempotent(rows: seq<Record>, choice: string)
    ensures SelectRegion(SelectRegion(rows, choice), choice) == SelectRegion(rows, choice)
  {
    InRegionIdempotent(rows, choice);
  }

  /** After a region other than "All" is chosen, that is the only region left. */
  lemma SelectedRegionsOnly(rows: seq<Record>, choice: string)
    requires choice != AllRegions
    ensures Regions(SelectRegion(rows, choice)) == if choice in Regions(rows) then {choice} else {}
  {
    InRegionMembers(rows, choice);
    InRegionEmpty(rows, choice);
    var r := SelectRegion(rows, choice);
    if choice in Regions(rows) {
      assert r != [] && r[0] in r;
    }
  }

  /**
   * The regions of `rows`, each once, in order of first occurrence (what
   * `unique()` returns).
   */
  function DistinctRegions(rows: seq<Record>): (ds: seq<string>)
    ensures Distinct(ds)
    ensures forall x :: x in ds <==> x in Regions(rows)
    decreases |rows|
  {
    if rows == [] then []
    else
      var init := rows[..|rows| - 1];
      var last := rows[|rows| - 1];
      var ds := DistinctRegions(init);
      assert rows == init + [last];
      assert Regions(rows) == Regions(init) + {last.region};
      if last.region in ds then ds else ds + [last.region]
  }

  /**
   * Python's string order: a prefix comes first, otherwise the first
   * differing character (by code point) decides.
   */
  predicate LexLe(a: string, b: string) {
    a == [] || (b != [] && (a[0] < b[0] || (a[0] == b[0] && LexLe(a[1..], b[1..]))))
  }

  lemma {:induction false} LexLeTotal(a: string, b: string)
    ensures LexLe(a, b) || LexLe(b, a)
  {
    if a != [] && b != [] && a[0] == b[0] {
      LexLeTotal(a[1..], b[1..]);
    }
  }

  lemma {:induction false} LexLeAntisymmetric(a: string, b: string)
    requires LexLe(a, b) && LexLe(b, a)
    ensures a == b
  {
    if a != [] {
      LexLeAntisymmetric(a[1..], b[1..]);
      assert a == [a[0]] + a[1..] && b == [b[0]] + b[1..];
    }
  }

  lemma {:induction false} LexLeTransitive(a: string, b: string, c: string)
    requires LexLe(a, b) && LexLe(b, c)
    ensures LexLe(a, c)
  {
    if a != [] && a[0] == b[0] && b[0] == c[0] {
      LexLeTransitive(a[1..], b[1..], c[1..]);
    }
  }

  lemma LexLeConnected()
    ensures Connected(LexLe)
  {
    forall a: string, b: string ensures LexLe(a, b) || LexLe(b, a) {
      LexLeTotal(a, b);
    }
  }

  /** The selector's choices: "All" followed by the sorted distinct regions. */
  function RegionOptions(rows: seq<Record>): (opts: seq<string>)
    ensures |opts| == 1 + |Regions(rows)|
    ensures opts[0] == AllRegions
    ensures SortedBy(opts[1..], LexLe)
    ensures Distinct(opts[1..])
    ensures forall x :: x in opts[1..] <==> x in Regions(rows)
  {
    var ds := DistinctRegions(rows);
    var sorted := InsertionSort(ds, LexLe);
    LexLeConnected();
    InsertionSortSorted(ds, LexLe);
    InsertionSortDistinct(ds, LexLe);
    assert forall x :: x in sorted <==> x in multiset(ds);
    DistinctCardinality(ds, Regions(rows));
    [AllRegions] + sorted
  }

  /** A duplicate-free sequence has as many elements as the set of its elements. */
  lemma {:induction false} DistinctCardinality(ds: seq<string>, xs: set<string>)
    requires Distinct(ds)
    requires forall x :: x in ds <==> x in xs
    ensures |ds| == |xs|
  {
    if ds != [] {
      var rest := ds[1..];
      assert forall x :: x in rest <==> x in xs - {ds[0]} by {
        forall x ensures x in rest <==> x in xs - {ds[0]} {
          if x in rest {
            var k :| 0 <= k < |rest| && rest[k] == x;
            assert ds[k + 1] == x && ds[0] != x;
          }
          if x in xs - {ds[0]} {
            assert x in ds;
            var k :| 0 <= k < |ds| && ds[k] == x;
            assert k != 0 && rest[k - 1] == x;
          }
        }
      }
      DistinctCardinality(rest, xs - {ds[0]});
    } else {
      assert forall x :: x !in xs;
      assert xs == {};
    }
  }

  /**
   * The dashboard's table, which the sidebar filter replaces in place with
   * its filtered version.
   */
  class Dashboard {
    var df: seq<Record>

    constructor (data: seq<Record>)
      ensures df == data
    {
      df := data;
    }

    /** Applies the sidebar choice: "All" keeps `df`, anything else narrows it. */
    method ApplyRegionFilter(region: string)
      modifies this
      ensures df == SelectRegion(old(df), region)
      ensures |df| <= |old(df)|
      ensures forall row :: row in df ==> row in old(df)
      ensures region != AllRegions ==> forall row :: row in df ==> row.region == region
    {
      SelectRegionSpec(df, region);
      if region != AllRegions {
        df := InRegion(df, region);
      }
    }
  }
}
