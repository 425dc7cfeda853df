/**
 This module defines the rows the collector reads and writes: the upstream
 readings (`yearAsString`, `registeredVehicleCount`), the stored snapshot rows
 (a reading stamped with `fetch_date`) and the change-ledger rows (`date`,
 `yearAsString`, `change`), together with the label lookup the inner join on
 `yearAsString` performs.
 */
module Tables {
  import opened Wrappers

  /** The UTC fetch date. Its `%Y-%m-%d` formatting is not modelled: it is an opaque value. */
  type Date = string

  /** A period label such as "2025-January" (the `yearAsString` column). */
  type Label = string

  /** One upstream row: a period label and its registration count. */
  datatype Reading = Reading(period: Label, count: int)

  /** One stored snapshot row: a reading stamped with the date it was fetched. */
  datatype SnapRow = SnapRow(reading: Reading, fetchDate: Date)

  /** One change-ledger row: the date of the run, the period label and the signed change. */
  datatype ChangeRow = ChangeRow(date: Date, period: Label, change: int)

  /**
   The period labels of some rows, in order. Readings and ledger rows are
   different types, so each has its projection; the order lemma compares the two.
   */
  function Labels(rows: seq<Reading>): seq<Label>
  {
    seq(|rows|, i requires 0 <= i < |rows| => rows[i].period)
  }

  function ChangeLabels(rows: seq<ChangeRow>): seq<Label>
  {
    seq(|rows|, i requires 0 <= i < |rows| => rows[i].period)
  }

  /** The readings of a stored snapshot, without their `fetch_date` stamp. */
  function Readings(snap: seq<SnapRow>): seq<Reading>
  {
    seq(|snap|, i requires 0 <= i < |snap| => snap[i].reading)
  }

  /** No period label occurs twice. */
  predicate UniqueLabels(rows: seq<Reading>)
  {
    forall i, j :: 0 <= i < j < |rows| ==> rows[i].period != rows[j].period
  }

  /** A stored snapshot, if there is one, has unique period labels. */
  predicate ValidSnapshot(snap: Option<seq<SnapRow>>)
  {
    snap.None? || UniqueLabels(Readings(snap.value))
  }

  /** The position of the first row carrying the label `period`, if any. */
  function IndexOf(rows: seq<Reading>, period: Label): (r: Option<nat>)
    ensures r.Some? ==> r.value < |rows| && rows[r.value].period == period
    ensures r.Some? ==> forall j :: 0 <= j < r.value ==> rows[j].period != period
    ensures r.None? ==> forall j :: 0 <= j < |rows| ==> rows[j].period != period
  {
    if |rows| == 0 then None
    else if rows[0].period == period then Some(0)
    else
      match IndexOf(rows[1..], period)
      case None =>
        assert forall j :: 1 <= j < |rows| ==> rows[j] == rows[1..][j - 1];
        None
      case Some(k) =>
        assert forall j :: 1 <= j < k + 1 ==> rows[j] == rows[1..][j - 1];
        Some(k + 1)
  }

  /** The count the previous snapshot records for the label `period`: what the join pairs a today row with. */
  function Lookup(rows: seq<Reading>, period: Label): Option<int>
  {
    match IndexOf(rows, period)
    case None => None
    case Some(j) => Some(rows[j].count)
  }

  /** A today row `r` produces no change against `prev`: its label is absent there, or its count is equal. */
  predicate Agrees(prev: seq<Reading>, r: Reading)
  {
    Lookup(prev, r.period) == None || Lookup(prev, r.period) == Some(r.count)
  }

  /** With unique labels, the lookup of a row's own label finds that very row. */
  lemma LookupUnique(rows: seq<Reading>, j: int)
    requires UniqueLabels(rows)
    requires 0 <= j < |rows|
    ensures Lookup(rows, rows[j].period) == Some(rows[j].count)
  {
  }

  /** `xs` can be obtained from `ys` by deleting elements: the elements of `xs` occur in `ys` in the same order. */
  ghost predicate Subseq(xs: seq<Label>, ys: seq<Label>)
    decreases |ys|
  {
    if |xs| == 0 then true
    else if |ys| == 0 then false
    else (xs[0] == ys[0] && Subseq(xs[1..], ys[1..])) || Subseq(xs, ys[1..])
  }
}
