/**
 * The update-bill-rate request: the column checks in the order the steps
 * read the columns, normalisation of the overrides, reconciliation, and
 * the row-count check that guards the write of the result.
 */
module BillRateUpdate {
  import opened Wrappers
  import opened Rows
  import Headers
  import Rates
  import Normalizer
  import Reconciler

  /** The labor-category columns whose missing cells drop a row. */
  const OverrideRequired: seq<string> := Headers.KeyColumns + [Headers.HelperColumn]

  /** Planned-matrix key columns read before the rates are parsed. */
  const PlannedEarly: seq<string> := ["person.key", "project.key"]

  /** Planned-matrix key columns read after the rates are parsed: dates, then the join's remaining key. */
  const PlannedLate: seq<string> := ["beginDate", "endDate", "laborCategory.name"]

  /**
   * Every column the update reads is there: the six labor-category columns
   * after renaming, the five key columns and billRate in the planned
   * matrix, and no planned column already named like the attached-rate
   * column (the join would then rename both copies apart).
   */
  predicate ColumnsPresent(plannedHeader: seq<string>, overrideHeader: seq<string>)
    ensures ColumnsPresent(plannedHeader, overrideHeader) <==>
      Headers.FirstMissing(OverrideRequired, Headers.OverrideColumns(overrideHeader)).None? &&
      Headers.FirstMissing(Headers.KeyColumns, Headers.PlannedColumns(plannedHeader)).None? &&
      Headers.RateColumn in Headers.PlannedColumns(plannedHeader) &&
      Headers.HelperColumn !in Headers.PlannedColumns(plannedHeader)
  {
    var p := Headers.PlannedColumns(plannedHeader);
    var o := Headers.OverrideColumns(overrideHeader);
    (forall i :: 0 <= i < |OverrideRequired| ==> OverrideRequired[i] in o) &&
    (forall i :: 0 <= i < |Headers.KeyColumns| ==> Headers.KeyColumns[i] in p) &&
    Headers.RateColumn in p && Headers.HelperColumn !in p
  }

  /**
   * Everything before the reconciliation: the first missing column in the
   * order the steps read them, or the first rate that does not parse, or
   * the normalised overrides. Nothing but a column or a rate fails here.
   */
  function Prepare(plannedHeader: seq<string>, overrideHeader: seq<string>, raws: seq<RawOverride>)
    : (res: Result<seq<Override>, Error>)
    ensures res.Err? ==> res.error.MissingColumn? || res.error.MalformedRate?
  {
    CheckColumns(plannedHeader, overrideHeader, Normalizer.NormalizeOverrides(raws))
  }

  /**
   * The column checks around the normalisation of the overrides, whose
   * outcome is `normalized`: the labor-category columns and the planned
   * person and project columns are read before the rates are parsed, the
   * remaining planned key columns, the attached-rate and billRate columns
   * after.
   */
  function CheckColumns(plannedHeader: seq<string>, overrideHeader: seq<string>,
                        normalized: Result<seq<Override>, Error>)
    : (res: Result<seq<Override>, Error>)
    ensures res.Err? ==> res.error.MissingColumn? || res == normalized
    ensures res.Ok? ==> res == normalized
  {
    var p := Headers.PlannedColumns(plannedHeader);
    var o := Headers.OverrideColumns(overrideHeader);
    match Headers.FirstMissing(OverrideRequired, o)
    case Some(n) => Err(MissingColumn(n))
    case None =>
      match Headers.FirstMissing(PlannedEarly, p)
      case Some(n) => Err(MissingColumn(n))
      case None =>
        match normalized
        case Err(e) => Err(e)
        case Ok(os) =>
          match Headers.FirstMissing(PlannedLate, p)
          case Some(n) => Err(MissingColumn(n))
          case None =>
            if Headers.HelperColumn in p then Err(MissingColumn(Headers.HelperColumn))
            else if Headers.RateColumn !in p then Err(MissingColumn(Headers.RateColumn))
            else Ok(os)
  }

  /** The five key columns are the early and the late ones together. */
  lemma KeyColumnsSplit(p: seq<string>)
    ensures (forall i :: 0 <= i < |Headers.KeyColumns| ==> Headers.KeyColumns[i] in p) <==>
      (forall i :: 0 <= i < |PlannedEarly| ==> PlannedEarly[i] in p) &&
      (forall i :: 0 <= i < |PlannedLate| ==> PlannedLate[i] in p)
  {
    assert Headers.KeyColumns[0] == PlannedEarly[0] && Headers.KeyColumns[1] == PlannedEarly[1];
    assert Headers.KeyColumns[2] == PlannedLate[2];
    assert Headers.KeyColumns[3] == PlannedLate[0] && Headers.KeyColumns[4] == PlannedLate[1];
  }

  /** The column checks pass exactly when every column is present and the normalisation succeeded. */
  lemma CheckColumnsOkIff(plannedHeader: seq<string>, overrideHeader: seq<string>,
                          normalized: Result<seq<Override>, Error>)
    ensures CheckColumns(plannedHeader, overrideHeader, normalized).Ok? <==>
      ColumnsPresent(plannedHeader, overrideHeader) && normalized.Ok?
  {
    KeyColumnsSplit(Headers.PlannedColumns(plannedHeader));
  }

  /**
   * The preparation succeeds exactly when every column is present and every
   * complete override row carries a rate that parses; it then yields the
   * normalised overrides.
   */
  lemma PrepareOkIff(plannedHeader: seq<string>, overrideHeader: seq<string>, raws: seq<RawOverride>)
    ensures Prepare(plannedHeader, overrideHeader, raws).Ok? <==>
      ColumnsPresent(plannedHeader, overrideHeader) &&
      forall i :: 0 <= i < |raws| && Normalizer.Complete(raws[i]) ==> Normalizer.RateParses(raws[i])
    ensures Prepare(plannedHeader, overrideHeader, raws).Ok? ==>
      Normalizer.NormalizeOverrides(raws).Ok? &&
      Prepare(plannedHeader, overrideHeader, raws).value == Normalizer.NormalizeOverrides(raws).value
  {
    CheckColumnsOkIff(plannedHeader, overrideHeader, Normalizer.NormalizeOverrides(raws));
    Normalizer.NormalizeFailsIff(raws);
  }

  /**
   * With the labor-category columns and the planned person and project
   * columns present, a complete row whose rate does not parse aborts the
   * whole preparation with a malformed-rate error.
   */
  lemma MalformedRateAborts(plannedHeader: seq<string>, overrideHeader: seq<string>, raws: seq<RawOverride>, i: nat)
    requires Headers.FirstMissing(OverrideRequired, Headers.OverrideColumns(overrideHeader)).None?
    requires Headers.FirstMissing(PlannedEarly, Headers.PlannedColumns(plannedHeader)).None?
    requires i < |raws| && Normalizer.Complete(raws[i]) && !Normalizer.RateParses(raws[i])
    ensures Prepare(plannedHeader, overrideHeader, raws).Err?
    ensures Prepare(plannedHeader, overrideHeader, raws).error.MalformedRate?
  {
    Normalizer.NormalizeFailsIff(raws);
  }

  /** An override row with a missing key cell or rate has no effect on the outcome. */
  lemma IncompleteOverrideIgnored(plannedHeader: seq<string>, overrideHeader: seq<string>, raws: seq<RawOverride>, i: nat)
    requires i < |raws| && !Normalizer.Complete(raws[i])
    ensures Prepare(plannedHeader, overrideHeader, raws) ==
      Prepare(plannedHeader, overrideHeader, raws[..i] + raws[i + 1..])
  {
    Normalizer.IncompleteRowDropped(raws, i);
  }

  /** The guard before the write: the updated table must have as many rows as the planned one. */
  function CheckRowCount(original: nat, updated: seq<PlannedRow>): (res: Result<seq<PlannedRow>, Error>)
    ensures res.Ok? <==> |updated| == original
    ensures res.Ok? ==> res.value == updated
    ensures res.Err? ==> res.error == RowCountMismatch(original, |updated|)
  {
    if |updated| != original then Err(RowCountMismatch(original, |updated|)) else Ok(updated)
  }

  /** After collapsing, the guard always lets the reconciled table through. */
  lemma RowCountCheckPasses(b: seq<PlannedRow>, os: seq<Override>)
    ensures CheckRowCount(|b|, Reconciler.Reconcile(b, os)) == Ok(Reconciler.Reconcile(b, os))
  {
    Reconciler.ReconcileRows(b, os);
  }

  /**
   * The whole request, given the two tables as read: the updated planned
   * matrix to be written, or the error that stops the write. Every planned
   * row comes back once, in order, changed only in billRate, which becomes
   * the largest override rate for its key when its key has one.
   */
  method UpdateBillRate(plannedHeader: seq<string>, planned: seq<PlannedRow>,
                        overrideHeader: seq<string>, raws: seq<RawOverride>)
    returns (outcome: Result<seq<PlannedRow>, Error>)
    ensures Prepare(plannedHeader, overrideHeader, raws).Err? ==>
      outcome == Err(Prepare(plannedHeader, overrideHeader, raws).error)
    ensures Prepare(plannedHeader, overrideHeader, raws).Ok? ==>
      outcome.Ok? && |outcome.value| == |planned| &&
      forall i :: 0 <= i < |planned| ==>
        outcome.value[i] ==
          planned[i].(billRate := Reconciler.ExpectedRate(planned[i], Prepare(plannedHeader, overrideHeader, raws).value))
    ensures outcome.Err? ==> !outcome.error.RowCountMismatch?
  {
    var prepared := Prepare(plannedHeader, overrideHeader, raws);
    if prepared.Err? {
      return Err(prepared.error);
    }
    var collapsed := Reconciler.Collapse(prepared.value);
    var joined := Reconciler.LeftJoin(planned, collapsed);
    var updated := Reconciler.DropHelper(Reconciler.Coalesce(joined));
    Reconciler.ReconcileRows(planned, prepared.value);
    outcome := CheckRowCount(|planned|, updated);
  }

  // ---- Worked cases ----

  const EngineerKey: Key := Key(1, 10, "Engineer", Date(2024, 1, 1), Date(2024, 6, 30))

  /** The planned row of the worked cases: person 1 on project 10 as an engineer at 100.0. */
  const EngineerRow: PlannedRow :=
    PlannedRow(Some(1), Some(10), Some("Engineer"), Some(Date(2024, 1, 1)), Some(Date(2024, 6, 30)), Some(100.0), [])

  function EngineerOverride(endDate: Date, rate: string): RawOverride {
    RawOverride(Some(1), Some(10), Some("Engineer"), Some(Date(2024, 1, 1)), Some(endDate), Some(rate))
  }

  /** "$125.00" reads as 125.0. */
  lemma CurrencyTextParses()
    ensures Rates.ParseRate("$125.00") == Some(125.0)
  {
    assert Rates.FormatCurrency(12500) == "$125.00" by {
      assert 12500 / 100 == 125 && 12500 % 100 == 0;
      assert Rates.NatDigits(125) == "125" by {
        assert Rates.NatDigits(1) == "1";
        assert Rates.NatDigits(12) == "12";
      }
      assert Rates.Group("125") == "125";
      assert Rates.DigitChar(0) == '0';
      assert Rates.FormatCurrency(12500) == "$" + "125" + "." + ['0', '0'];
    }
    Rates.ParseFormatCurrency(12500);
  }

  /** The override row "$125.00" for the engineer's key normalises to one override at 125.0. */
  lemma OverrideRowNormalised()
    ensures Normalizer.NormalizeOverrides([EngineerOverride(Date(2024, 6, 30), "$125.00")]) ==
      Ok([Override(EngineerKey, 125.0)])
  {
    var r := EngineerOverride(Date(2024, 6, 30), "$125.00");
    assert Rates.ParseRate(Normalizer.RateCell(r)) == Some(125.0) by {
      CurrencyTextParses();
    }
    Normalizer.NormalizeSingle(r, 125.0);
  }

  /** The override at 125.0 for the row's own key raises its rate from 100.0 and keeps one row. */
  lemma MatchingOverrideApplied()
    ensures Reconciler.Reconcile([EngineerRow], [Override(EngineerKey, 125.0)]) ==
      [EngineerRow.(billRate := Some(125.0))]
  {
    Reconciler.ReconcileRows([EngineerRow], [Override(EngineerKey, 125.0)]);
    assert Reconciler.HasKey([Override(EngineerKey, 125.0)], EngineerKey);
  }

  /** An override whose end date differs matches nothing, so the rate stays 100.0. */
  lemma DateMismatchKeepsRate(rate: real)
    ensures Reconciler.Reconcile([EngineerRow], [Override(EngineerKey.(endDate := Date(2024, 12, 31)), rate)]) ==
      [EngineerRow]
  {
    Reconciler.ReconcileRows([EngineerRow], [Override(EngineerKey.(endDate := Date(2024, 12, 31)), rate)]);
  }

  /** An override rate of zero is a value, not a missing one: it replaces 100.0. */
  lemma ZeroOverrideApplied()
    ensures Reconciler.Reconcile([EngineerRow], [Override(EngineerKey, 0.0)]) ==
      [EngineerRow.(billRate := Some(0.0))]
  {
    Reconciler.ReconcileRows([EngineerRow], [Override(EngineerKey, 0.0)]);
    assert Reconciler.HasKey([Override(EngineerKey, 0.0)], EngineerKey);
  }

  /**
   * Joining onto overrides that were not collapsed doubles a row whose key
   * occurs twice, and the guard reports the counts 1 and 2.
   */
  lemma UncollapsedJoinRejected()
    ensures CheckRowCount(1, Reconciler.DropHelper(Reconciler.Coalesce(Reconciler.LeftJoin(
      [EngineerRow], [Override(EngineerKey, 100.0), Override(EngineerKey, 150.0)])))) ==
      Err(RowCountMismatch(1, 2))
  {
    var cs := [Override(EngineerKey, 100.0), Override(EngineerKey, 150.0)];
    assert cs[1..] == [Override(EngineerKey, 150.0)];
    assert cs[1..][1..] == [];
    assert Reconciler.MatchRates(cs[1..], Some(EngineerKey)) == [150.0];
    assert Reconciler.MatchRates(cs, Some(EngineerKey)) == [100.0, 150.0];
    assert PlannedKey(EngineerRow) == Some(EngineerKey);
    assert |Reconciler.JoinRow(EngineerRow, cs)| == 2;
    assert [EngineerRow][1..] == [];
  }
}
