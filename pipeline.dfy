/**
 * The stages put together as the dashboard runs them: filter the table,
 * then summarise it, generate the recommendations and offer the download.
 */
module Pipeline {
  import opened Wrappers
  import opened Seqs
  import opened Households
  import opened RegionFilter
  import opened Aggregates
  import opened Recommendations
  import opened Export

  /** A row that one of the two rules applies to. */
  predicate Qualifies(row: Record) {
    row.energyKwh > HighUsageKwh || row.evCharging
  }

  /** Some recommendation is made exactly when some row meets a rule. */
  lemma RecommendNonEmpty(rows: seq<Record>)
    ensures Recommend(rows) != [] <==> exists i :: 0 <= i < |rows| && Qualifies(rows[i])
  {
    RecommendOrder(rows);
    var idx := Hits(rows, Advise);
    if exists i :: 0 <= i < |rows| && Qualifies(rows[i]) {
      var i :| 0 <= i < |rows| && Qualifies(rows[i]);
      assert i in idx;
    }
    if |idx| > 0 {
      assert Qualifies(rows[idx[0]]);
    }
  }

  /** Households with single-line identifiers get single-line messages. */
  lemma MessagesSingleLine(rows: seq<Record>)
    requires forall row :: row in rows ==> '\n' !in row.id
    ensures SingleLines(Messages(Recommend(rows)))
  {
    var recs := Recommend(rows);
    RecommendOrder(rows);
    var idx := Hits(rows, Advise);
    forall k | 0 <= k < |recs| ensures '\n' !in Message(recs[k]) {
      assert rows[idx[k]] in rows;
      MessageSingleLine(recs[k]);
    }
  }

  /**
   * For a table whose identifiers are single-line, the download is offered
   * exactly when some row meets a rule, and its lines are the messages.
   */
  lemma DownloadOfTable(rows: seq<Record>)
    requires forall row :: row in rows ==> '\n' !in row.id
    ensures var messages := Messages(Recommend(rows));
      && (Download(messages).Some? <==> exists i :: 0 <= i < |rows| && Qualifies(rows[i]))
      && (Download(messages).Some? ==> Split(Download(messages).value) == messages)
  {
    RecommendNonEmpty(rows);
    MessagesSingleLine(rows);
  }

  /**
   * Once a region is chosen, the household distribution has a single
   * entry: that region with every remaining row.
   */
  lemma FilteredDistribution(rows: seq<Record>, choice: string)
    requires choice != AllRegions && choice in Regions(rows)
    ensures RegionCounts(SelectRegion(rows, choice)) == [(choice, |SelectRegion(rows, choice)|)]
  {
    var df := SelectRegion(rows, choice);
    SelectedRegionsOnly(rows, choice);
    RegionCountsMembers(df);
    InRegionIdempotent(rows, choice);
    var rc := RegionCounts(df);
    assert |rc| == 1;
    assert (choice, |InRegion(df, choice)|) in rc;
  }

  /** Three households of two regions, one above the threshold and one charging an EV. */
  function SampleRows(): seq<Record> {
    [ Record("1", "North", 0, 300, Appliances(0, 0, 0, 0, 0), false),
      Record("2", "South", 0, 100, Appliances(0, 0, 0, 0, 0), true),
      Record("3", "North", 0, 50, Appliances(0, 0, 0, 0, 0), false) ]
  }

  /** On the sample table: total 450 and mean 150. */
  lemma SampleSummary()
    ensures TotalEnergy(SampleRows()) == 450
    ensures Value(MeanEnergy(SampleRows()).value) == 150.0
  {
    var rows := SampleRows();
    assert rows[1..][1..][1..] == [];
  }

  /** On the sample table: North averages 175 and comes before South at 100. */
  lemma SampleAverages()
    ensures RegionAverages(SampleRows()) == [("North", Mean(350, 2)), ("South", Mean(100, 1))]
    ensures Value(Mean(350, 2)) == 175.0 && Value(Mean(100, 1)) == 100.0
  {
    var rows := SampleRows();
    assert DistinctRegions(rows[..1]) == ["North"];
    assert rows[..2][..1] == rows[..1];
    assert DistinctRegions(rows[..2]) == ["North", "South"];
    assert rows[..3][..2] == rows[..2];
    assert DistinctRegions(rows) == ["North", "South"] by {
      assert rows[..3] == rows;
    }
    assert rows[1..][1..][1..] == [];
    assert InRegion(rows[2..], "North") == [rows[2]];
    assert InRegion(rows[1..], "North") == [rows[2]];
    assert InRegion(rows, "North") == [rows[0], rows[2]];
    assert TotalEnergy([rows[0], rows[2]]) == 350;
    assert InRegion(rows[2..], "South") == [];
    assert InRegion(rows, "South") == [rows[1]];
    assert TotalEnergy([rows[1]]) == 100;
    var gs := RegionGroups(rows);
    assert gs == [("North", Mean(350, 2)), ("South", Mean(100, 1))];
    assert InsertionSort(gs[1..], HigherMean) == [gs[1]];
    assert HigherMean(gs[0], gs[1]);
  }

  /**
   * On the sample table: household 1 gets the high-usage advice, household
   * 2 the EV-meter advice, and the download has those two lines.
   */
  lemma SampleRecommendations()
    ensures Recommend(SampleRows()) == [Recommendation("1", High), Recommendation("2", Info)]
    ensures Download(Messages(Recommend(SampleRows()))) ==
      Some(HighUsageMessage("1") + "\n" + EvMeterMessage("2"))
  {
    var rows := SampleRows();
    assert rows[1..][1..][1..] == [];
    assert Recommend(rows[2..]) == [];
    assert Recommend(rows[1..]) == [Recommendation("2", Info)];
    var messages := Messages(Recommend(rows));
    assert messages == [HighUsageMessage("1"), EvMeterMessage("2")];
    assert messages[1..] == [EvMeterMessage("2")];
  }
}
