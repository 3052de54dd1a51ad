/**
 * The recommendation engine: every row is checked against two rules in a
 * fixed order and the first that matches gives the row's one message; the
 * messages are collected in row order.
 */
module Recommendations {
  import opened Wrappers
  import opened Seqs
  import opened Households

  /** Consumption above this many kWh a month counts as high usage. */
  const HighUsageKwh: nat := 250

  /** `High` is shown as a warning, `Info` as a notice. */
  datatype Severity = High | Info

  datatype Recommendation = Recommendation(householdId: string, severity: Severity)

  function HighUsageMessage(id: string): string {
    "Household ID " + id + " - \U{26A0}\U{FE0F} High usage! " + "Recommend switching " + "to solar and LED bulbs."
  }

  function EvMeterMessage(id: string): string {
    "Household ID " + id + " - \U{1F697} Consider installing " + "a separate EV meter " + "for optimal billing."
  }

  /** The text shown and exported for a recommendation. */
  function Message(rec: Recommendation): string {
    match rec.severity
    case High => HighUsageMessage(rec.householdId)
    case Info => EvMeterMessage(rec.householdId)
  }

  /** The first rule that matches `row`, if any. */
  function Advise(row: Record): Option<Recommendation> {
    if row.energyKwh > HighUsageKwh then Some(Recommendation(row.id, High))
    else if row.evCharging then Some(Recommendation(row.id, Info))
    else None
  }

  /**
   * Rule precedence: high usage wins whatever the EV flag; the EV-meter
   * advice comes only below the threshold with EV charging; a row meeting
   * neither rule gets nothing; and advice always names its own household.
   */
  lemma AdvisePrecedence(row: Record)
    ensures row.energyKwh > HighUsageKwh ==> Advise(row) == Some(Recommendation(row.id, High))
    ensures (Advise(row).Some? && Advise(row).value.severity == Info) <==> row.energyKwh <= HighUsageKwh && row.evCharging
    ensures Advise(row).None? <==> row.energyKwh <= HighUsageKwh && !row.evCharging
    ensures Advise(row).Some? ==> Advise(row).value.householdId == row.id
  {
  }

  /** The recommendations for `rows`: at most one per row, in row order. */
  function Recommend(rows: seq<Record>): (recs: seq<Recommendation>)
    ensures |recs| <= |rows|
  {
    FilterMap(rows, Advise)
  }

  /**
   * The recommendations follow the rows: the k-th comes from row `idx[k]`,
   * those rows are in table order, and exactly the rows that meet a rule
   * are among them.
   */
  lemma RecommendOrder(rows: seq<Record>)
    ensures var recs, idx := Recommend(rows), Hits(rows, Advise);
      && |idx| == |recs|
      && (forall k :: 0 <= k < |idx| ==> idx[k] < |rows| && Advise(rows[idx[k]]) == Some(recs[k]))
      && (forall k, l :: 0 <= k < l < |idx| ==> idx[k] < idx[l])
      && (forall i :: 0 <= i < |rows| ==>
            (i in idx <==> rows[i].energyKwh > HighUsageKwh || rows[i].evCharging))
  {
    FilterMapHits(rows, Advise);
  }

  /** The text of each recommendation, in order. */
  function Messages(recs: seq<Recommendation>): (ms: seq<string>)
    ensures |ms| == |recs|
  {
    seq(|recs|, k requires 0 <= k < |recs| => Message(recs[k]))
  }

  lemma HighUsageSingleLine(id: string)
    requires '\n' !in id
    ensures '\n' !in HighUsageMessage(id)
  {
    assert '\n' !in "Household ID ";
    assert '\n' !in " - \U{26A0}\U{FE0F} High usage! ";
    assert '\n' !in "Recommend switching ";
    assert '\n' !in "to solar and LED bulbs.";
  }

  lemma EvMeterSingleLine(id: string)
    requires '\n' !in id
    ensures '\n' !in EvMeterMessage(id)
  {
    assert '\n' !in "Household ID ";
    assert '\n' !in " - \U{1F697} Consider installing ";
    assert '\n' !in "a separate EV meter ";
    assert '\n' !in "for optimal billing.";
  }

  /** The message of a household whose identifier has no line break has none either. */
  lemma MessageSingleLine(rec: Recommendation)
    requires '\n' !in rec.householdId
    ensures '\n' !in Message(rec)
  {
    match rec.severity
    case High => HighUsageSingleLine(rec.householdId);
    case Info => EvMeterSingleLine(rec.householdId);
  }

  /**
   * The loop of the dashboard: walks the rows in order and appends the
   * high-usage message, else the EV-meter message, else nothing.
   */
  method GenerateRecommendations(rows: seq<Record>) returns (recommendations: seq<string>)
    ensures recommendations == Messages(Recommend(rows))
  {
    recommendations := [];
    for i := 0 to |rows|
      invariant recommendations == Messages(Recommend(rows[..i]))
    {
      var row := rows[i];
      assert rows[..i + 1] == rows[..i] + [row];
      FilterMapAppend(rows[..i], [row], Advise);
      assert [row][1..] == [];
      ghost var done := Recommend(rows[..i]);
      if row.energyKwh > HighUsageKwh {
        var message := HighUsageMessage(row.id);
        assert Recommend(rows[..i + 1]) == done + [Recommendation(row.id, High)];
        recommendations := recommendations + [message];
      } else if row.evCharging {
        var message := EvMeterMessage(row.id);
        assert Recommend(rows[..i + 1]) == done + [Recommendation(row.id, Info)];
        recommendations := recommendations + [message];
      } else {
        assert Recommend(rows[..i + 1]) == done;
      }
    }
    assert rows[..|rows|] == rows;
  }
}
