/**
 * The summary figures computed over the (filtered) table: total and mean
 * consumption, the number of households per region (`value_counts`), and
 * the mean consumption per region sorted from highest to lowest
 * (`groupby(...).mean().sort_values(ascending=False)`).
 *
 * A mean is kept exact as a `Mean(total, count)` pair; `Value` gives the
 * number it denotes, and means are compared by cross-multiplication.
 */
module Aggregates {
  import opened Wrappers
  import opened Seqs
  import opened Households
  import opened RegionFilter

  /** Sum of the monthly consumption over `rows`. */
  function TotalEnergy(rows: seq<Record>): nat {
    if rows == [] then 0 else rows[0].energyKwh + TotalEnergy(rows[1..])
  }

  lemma {:induction false} TotalEnergyAppend(a: seq<Record>, b: seq<Record>)
    ensures TotalEnergy(a + b) == TotalEnergy(a) + TotalEnergy(b)
  {
    if a != [] {
      assert (a + b)[1..] == a[1..] + b;
      TotalEnergyAppend(a[1..], b);
    } else {
      assert a + b == b;
    }
  }

  /** When every row's consumption lies in `[lo, hi]`, the total lies in `[lo * n, hi * n]`. */
  lemma {:induction false} TotalEnergyBounds(rows: seq<Record>, lo: nat, hi: nat)
    requires forall row :: row in rows ==> lo <= row.energyKwh <= hi
    ensures lo * |rows| <= TotalEnergy(rows) <= hi * |rows|
  {
    if rows != [] {
      assert rows[0] in rows;
      assert forall row :: row in rows[1..] ==> row in rows;
      TotalEnergyBounds(rows[1..], lo, hi);
      MulSucc(lo, |rows| - 1);
      MulSucc(hi, |rows| - 1);
    }
  }

  lemma MulSucc(a: nat, n: nat)
    ensures a * (n + 1) == a + a * n
  {
  }

  /** The mean `total / count`. */
  datatype Mean = Mean(total: nat, count: nat)

  function Value(m: Mean): real
    requires m.count > 0
  {
    m.total as real / m.count as real
  }

  /** `a` is at least `b`, decided without division. */
  predicate AtLeast(a: Mean, b: Mean) {
    a.total * b.count >= b.total * a.count
  }

  lemma AtLeastValue(a: Mean, b: Mean)
    requires a.count > 0 && b.count > 0
    ensures AtLeast(a, b) <==> Value(a) >= Value(b)
  {
    var ta, ca, tb, cb := a.total as real, a.count as real, b.total as real, b.count as real;
    var va, vb := Value(a), Value(b);
    assert va * ca == ta && vb * cb == tb;
    assert (a.total * b.count) as real == ta * cb;
    assert (b.total * a.count) as real == tb * ca;
    assert ta * cb == (va * ca) * cb == (va - vb) * (ca * cb) + vb * (ca * cb);
    assert tb * ca == (vb * cb) * ca == vb * (ca * cb);
    assert ca * cb > 0.0;
    if va >= vb {
      assert (va - vb) * (ca * cb) >= 0.0;
    } else {
      assert (va - vb) * (ca * cb) < 0.0;
    }
  }

  /**
   * `df["Monthly_Energy_Consumption_kWh"].mean()`: `None` for an empty table
   * (where pandas yields NaN); otherwise a mean that, times the number of
   * rows, gives the total.
   */
  function MeanEnergy(rows: seq<Record>): (m: Option<Mean>)
    ensures m.None? <==> rows == []
    ensures m.Some? ==> m.value.count == |rows| && Value(m.value) * |rows| as real == TotalEnergy(rows) as real
  {
    if rows == [] then None else Some(Mean(TotalEnergy(rows), |rows|))
  }

  /** The mean lies between the smallest and the largest bound of the rows. */
  lemma MeanWithinBounds(rows: seq<Record>, lo: nat, hi: nat)
    requires rows != []
    requires forall row :: row in rows ==> lo <= row.energyKwh <= hi
    ensures lo as real <= Value(MeanEnergy(rows).value) <= hi as real
  {
    TotalEnergyBounds(rows, lo, hi);
    var m := MeanEnergy(rows).value;
    AtLeastValue(m, Mean(lo, 1));
    AtLeastValue(Mean(hi, 1), m);
  }

  /** A region with the mean of its rows. */
  type Group = (string, Mean)

  function GroupOf(rows: seq<Record>, region: string): Group {
    var members := InRegion(rows, region);
    (region, Mean(TotalEnergy(members), |members|))
  }

  /** The group of each region of `ds`, in the order of `ds`. */
  function GroupsFor(rows: seq<Record>, ds: seq<string>): (gs: seq<Group>)
    ensures |gs| == |ds|
    ensures forall i :: 0 <= i < |ds| ==> gs[i] == GroupOf(rows, ds[i])
  {
    if ds == [] then [] else [GroupOf(rows, ds[0])] + GroupsFor(rows, ds[1..])
  }

  /** One group per region present in `rows`. */
  function RegionGroups(rows: seq<Record>): seq<Group> {
    GroupsFor(rows, DistinctRegions(rows))
  }

  /** Number of households over a sequence of groups. */
  function SizeSum(gs: seq<Group>): nat {
    if gs == [] then 0 else gs[0].1.count + SizeSum(gs[1..])
  }

  /** Consumption over a sequence of groups. */
  function EnergySum(gs: seq<Group>): nat {
    if gs == [] then 0 else gs[0].1.total + EnergySum(gs[1..])
  }

  /** Adding a row in front adds it to the group of its own region only. */
  lemma {:induction false} GroupsStep(row: Record, rest: seq<Record>, ds: seq<string>)
    requires Distinct(ds)
    ensures SizeSum(GroupsFor([row] + rest, ds)) == (if row.region in ds then 1 else 0) + SizeSum(GroupsFor(rest, ds))
    ensures EnergySum(GroupsFor([row] + rest, ds)) == (if row.region in ds then row.energyKwh else 0) + EnergySum(GroupsFor(rest, ds))
  {
    if ds != [] {
      assert ds == [ds[0]] + ds[1..];
      assert ds[0] !in ds[1..];
      GroupsStep(row, rest, ds[1..]);
      var rows := [row] + rest;
      assert rows[1..] == rest;
      if row.region == ds[0] {
        assert InRegion(rows, ds[0]) == [row] + InRegion(rest, ds[0]);
        assert ([row] + InRegion(rest, ds[0]))[1..] == InRegion(rest, ds[0]);
      } else {
        assert InRegion(rows, ds[0]) == InRegion(rest, ds[0]);
      }
    }
  }

  /**
   * Grouping by a duplicate-free list of regions that covers every row
   * accounts for every row once: the group sizes add up to the number of
   * rows and the group totals to the overall total.
   */
  lemma {:induction false} GroupsPartition(rows: seq<Record>, ds: seq<string>)
    requires Distinct(ds)
    requires forall row :: row in rows ==> row.region in ds
    ensures SizeSum(GroupsFor(rows, ds)) == |rows|
    ensures EnergySum(GroupsFor(rows, ds)) == TotalEnergy(rows)
  {
    if rows == [] {
      GroupsEmpty(ds);
    } else {
      var rest := rows[1..];
      assert rows == [rows[0]] + rest;
      assert rows[0] in rows;
      assert forall row :: row in rest ==> row in rows;
      GroupsPartition(rest, ds);
      GroupsStep(rows[0], rest, ds);
    }
  }

  lemma {:induction false} GroupsEmpty(ds: seq<string>)
    ensures SizeSum(GroupsFor([], ds)) == 0 && EnergySum(GroupsFor([], ds)) == 0
  {
    if ds != [] {
      GroupsEmpty(ds[1..]);
    }
  }

  /** Sorting keeps the sums: inserting a group adds exactly its size and total. */
  lemma {:induction false} InsertSums(g: Group, gs: seq<Group>, before: (Group, Group) -> bool)
    ensures SizeSum(Insert(g, gs, before)) == g.1.count + SizeSum(gs)
    ensures EnergySum(Insert(g, gs, before)) == g.1.total + EnergySum(gs)
  {
    var r := Insert(g, gs, before);
    if gs == [] || before(g, gs[0]) {
      assert r[1..] == gs;
    } else {
      InsertSums(g, gs[1..], before);
      assert r[1..] == Insert(g, gs[1..], before);
    }
  }

  lemma {:induction false} SortSums(gs: seq<Group>, before: (Group, Group) -> bool)
    ensures SizeSum(InsertionSort(gs, before)) == SizeSum(gs)
    ensures EnergySum(InsertionSort(gs, before)) == EnergySum(gs)
  {
    if gs != [] {
      SortSums(gs[1..], before);
      InsertSums(gs[0], InsertionSort(gs[1..], before), before);
    }
  }

  /**
   * What the groups of `rows` are: one per region present, each carrying
   * that region's own total and (non-zero) size.
   */
  lemma RegionGroupsMembers(rows: seq<Record>)
    ensures var gs := RegionGroups(rows);
      && |gs| == |Regions(rows)|
      && Distinct(gs)
      && (forall g :: g in gs <==> g.0 in Regions(rows) && g == GroupOf(rows, g.0))
      && (forall g :: g in gs ==> g.1.count > 0)
  {
    var ds := DistinctRegions(rows);
    var gs := RegionGroups(rows);
    DistinctCardinality(ds, Regions(rows));
    forall g | g in gs ensures g.0 in Regions(rows) && g == GroupOf(rows, g.0) && g.1.count > 0 {
      var i :| 0 <= i < |gs| && gs[i] == g;
      InRegionEmpty(rows, ds[i]);
    }
    forall x | x in Regions(rows) ensures GroupOf(rows, x) in gs {
      var i :| 0 <= i < |ds| && ds[i] == x;
      assert gs[i] == GroupOf(rows, x);
    }
    forall i, j | 0 <= i < j < |gs| ensures gs[i] != gs[j] {
      assert gs[i].0 == ds[i] && gs[j].0 == ds[j];
    }
  }

  /** The groups account for every row once, and for the whole total. */
  lemma RegionGroupsSums(rows: seq<Record>)
    ensures SizeSum(RegionGroups(rows)) == |rows|
    ensures EnergySum(RegionGroups(rows)) == TotalEnergy(rows)
  {
    var ds := DistinctRegions(rows);
    forall row | row in rows ensures row.region in ds {
    }
    GroupsPartition(rows, ds);
  }

  /**
   * The groups in any order `before` puts them: still one per region
   * present, with its own total and non-zero size, and no region twice.
   */
  lemma SortedGroups(rows: seq<Record>, before: (Group, Group) -> bool)
    ensures var s := InsertionSort(RegionGroups(rows), before);
      && |s| == |Regions(rows)|
      && (forall g :: g in s <==> g.0 in Regions(rows) && g == GroupOf(rows, g.0))
      && (forall i, j :: 0 <= i < j < |s| ==> s[i].0 != s[j].0)
      && (forall i :: 0 <= i < |s| ==> s[i].1.count > 0)
  {
    var gs := RegionGroups(rows);
    var s := InsertionSort(gs, before);
    RegionGroupsMembers(rows);
    InsertionSortDistinct(gs, before);
    assert forall g :: g in s <==> g in multiset(gs);
    forall i, j | 0 <= i < j < |s| ensures s[i].0 != s[j].0 {
      assert s[i] in s && s[j] in s;
    }
    forall i | 0 <= i < |s| ensures s[i].1.count > 0 {
      assert s[i] in s;
    }
  }

  /** Reordering the groups keeps their sums: every row, and the whole total. */
  lemma SortedGroupsSums(rows: seq<Record>, before: (Group, Group) -> bool)
    ensures SizeSum(InsertionSort(RegionGroups(rows), before)) == |rows|
    ensures EnergySum(InsertionSort(RegionGroups(rows), before)) == TotalEnergy(rows)
  {
    RegionGroupsSums(rows);
    SortSums(RegionGroups(rows), before);
  }

  /** Households per region, most populous first (`value_counts`). */
  predicate LargerGroup(a: Group, b: Group) {
    a.1.count >= b.1.count
  }

  /** Mean consumption per region, highest first. */
  predicate HigherMean(a: Group, b: Group) {
    AtLeast(a.1, b.1)
  }

  /** Drops the totals, keeping each region's number of households. */
  function Sizes(gs: seq<Group>): (r: seq<(string, nat)>)
    ensures |r| == |gs|
    ensures forall i :: 0 <= i < |gs| ==> r[i] == (gs[i].0, gs[i].1.count)
  {
    if gs == [] then [] else [(gs[0].0, gs[0].1.count)] + Sizes(gs[1..])
  }

  function CountSum(cs: seq<(string, nat)>): nat {
    if cs == [] then 0 else cs[0].1 + CountSum(cs[1..])
  }

  lemma {:induction false} SizesSum(gs: seq<Group>)
    ensures CountSum(Sizes(gs)) == SizeSum(gs)
  {
    if gs != [] {
      SizesSum(gs[1..]);
      assert Sizes(gs)[1..] == Sizes(gs[1..]);
    }
  }

  /** `df["Region"].value_counts()`: each present region with its number of households. */
  function RegionCounts(rows: seq<Record>): seq<(string, nat)> {
    Sizes(InsertionSort(RegionGroups(rows), LargerGroup))
  }

  /** `df.groupby("Region")[...].mean().sort_values(ascending=False)`. */
  function RegionAverages(rows: seq<Record>): seq<Group> {
    InsertionSort(RegionGroups(rows), HigherMean)
  }

  /**
   * The household distribution lists exactly the regions present in
   * `rows`, each once and with its own (non-zero) number of rows.
   */
  lemma RegionCountsMembers(rows: seq<Record>)
    ensures var rc := RegionCounts(rows);
      && |rc| == |Regions(rows)|
      && (forall x, n :: (x, n) in rc <==> x in Regions(rows) && n == |InRegion(rows, x)|)
      && (forall i, j :: 0 <= i < j < |rc| ==> rc[i].0 != rc[j].0)
      && (forall i :: 0 <= i < |rc| ==> rc[i].1 > 0)
  {
    var sorted := InsertionSort(RegionGroups(rows), LargerGroup);
    var rc := RegionCounts(rows);
    SortedGroups(rows, LargerGroup);
    forall x, n | (x, n) in rc ensures x in Regions(rows) && n == |InRegion(rows, x)| {
      var i :| 0 <= i < |rc| && rc[i] == (x, n);
      assert sorted[i] in sorted;
    }
    forall x | x in Regions(rows) ensures (x, |InRegion(rows, x)|) in rc {
      var g := GroupOf(rows, x);
      assert g in sorted;
      var i :| 0 <= i < |sorted| && sorted[i] == g;
      assert rc[i] == (x, |InRegion(rows, x)|);
    }
  }

  /**
   * The household distribution runs from the most to the least populous
   * region, and its numbers add up to the number of rows.
   */
  lemma RegionCountsOrder(rows: seq<Record>)
    ensures var rc := RegionCounts(rows);
      && (forall i :: 0 <= i < |rc| - 1 ==> rc[i].1 >= rc[i + 1].1)
      && CountSum(rc) == |rows|
  {
    var gs := RegionGroups(rows);
    var sorted := InsertionSort(gs, LargerGroup);
    SortedGroupsSums(rows, LargerGroup);
    assert Connected(LargerGroup);
    InsertionSortSorted(gs, LargerGroup);
    SizesSum(sorted);
  }

  /**
   * The per-region averages: exactly the regions present in `rows`, each
   * once, each carrying that region's total over its (non-zero) number of
   * rows, in non-increasing order of average; together they account for
   * every row and the whole total.
   */
  lemma RegionAveragesSpec(rows: seq<Record>)
    ensures var ra := RegionAverages(rows);
      && |ra| == |Regions(rows)|
      && (forall g :: g in ra <==> g.0 in Regions(rows) && g.1 == GroupOf(rows, g.0).1)
      && (forall i, j :: 0 <= i < j < |ra| ==> ra[i].0 != ra[j].0)
      && (forall i :: 0 <= i < |ra| ==> ra[i].1.count > 0)
      && (forall i :: 0 <= i < |ra| - 1 ==> Value(ra[i].1) >= Value(ra[i + 1].1))
      && SizeSum(ra) == |rows|
      && EnergySum(ra) == TotalEnergy(rows)
  {
    var gs := RegionGroups(rows);
    var ra := RegionAverages(rows);
    SortedGroups(rows, HigherMean);
    SortedGroupsSums(rows, HigherMean);
    assert Connected(HigherMean);
    InsertionSortSorted(gs, HigherMean);
    forall i | 0 <= i < |ra| - 1 ensures Value(ra[i].1) >= Value(ra[i + 1].1) {
      AtLeastValue(ra[i].1, ra[i + 1].1);
    }
  }
}
