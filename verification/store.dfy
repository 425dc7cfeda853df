/**
 The files the collector keeps and one run over them: the snapshot (overwritten
 with today's readings on every run) and the change ledger (to which each run
 appends its non-zero changes, creating it when needed).
 */
module Store {
  import opened Wrappers
  import opened Tables
  import opened Changes

  /** What is on disk between runs: the snapshot file and the change-ledger file, each possibly absent. */
  datatype State = State(snapshot: Option<seq<SnapRow>>, ledger: Option<seq<ChangeRow>>)

  /** One fetch: the readings the upstream returned and the date of the run. */
  datatype Fetch = Fetch(readings: seq<Reading>, date: Date)

  /** The rows of a ledger file; a missing file holds none. */
  function Rows(ledger: Option<seq<ChangeRow>>): seq<ChangeRow>
  {
    match ledger
    case None => []
    case Some(rows) => rows
  }

  /** A state this program can leave behind: unique labels in the snapshot, no zero change in the ledger. */
  predicate Valid(s: State)
  {
    && ValidSnapshot(s.snapshot)
    && forall k :: 0 <= k < |Rows(s.ledger)| ==> Rows(s.ledger)[k].change != 0
  }

  /**
   Today's readings, each stamped with `fetch_date`: the snapshot this run writes.
   Dropping the stamp gives back exactly today's readings.
   */
  function NewSnapshot(today: seq<Reading>, date: Date): (snap: seq<SnapRow>)
    ensures Readings(snap) == today
    ensures forall i :: 0 <= i < |snap| ==> snap[i].fetchDate == date
  {
    seq(|today|, i requires 0 <= i < |today| => SnapRow(today[i], date))
  }

  /** The ledger after appending `changes`: the old rows unchanged, then `changes`; a missing ledger becomes `changes`. */
  function AppendLedger(ledger: Option<seq<ChangeRow>>, changes: seq<ChangeRow>): (rows: seq<ChangeRow>)
    ensures |rows| == |Rows(ledger)| + |changes|
    ensures rows[..|Rows(ledger)|] == Rows(ledger)
    ensures rows[|Rows(ledger)|..] == changes
  {
    match ledger
    case None => changes
    case Some(earlier) => earlier + changes
  }

  /** One run: reconcile, append non-empty changes to the ledger, overwrite the snapshot. */
  function Step(s: State, today: seq<Reading>, date: Date): (s': State)
    requires ValidSnapshot(s.snapshot)
    ensures s'.snapshot == Some(NewSnapshot(today, date))
    ensures s.snapshot.None? ==> s'.ledger == s.ledger
    ensures s.ledger.Some? ==> s'.ledger.Some?
    ensures Rows(s.ledger) <= Rows(s'.ledger)
    ensures Valid(s) && UniqueLabels(today) ==> Valid(s')
  {
    var changes := Reconcile(s.snapshot, today, date);
    var ledger := if |changes| == 0 then s.ledger else Some(AppendLedger(s.ledger, changes));
    State(Some(NewSnapshot(today, date)), ledger)
  }

  /** After a run the ledger is either untouched, or its old rows followed by this run's change rows. */
  lemma StepLedger(s: State, today: seq<Reading>, date: Date)
    requires ValidSnapshot(s.snapshot)
    ensures var s' := Step(s, today, date);
            var changes := Reconcile(s.snapshot, today, date);
            (changes == [] && s'.ledger == s.ledger) ||
            (changes != [] && s'.ledger == Some(Rows(s.ledger) + changes))
  {
    var changes := Reconcile(s.snapshot, today, date);
    assert AppendLedger(s.ledger, changes) == Rows(s.ledger) + changes;
  }

  /** The ledger is left exactly as it was (not rewritten, not created) iff no today row changed against the snapshot. */
  lemma StepLedgerUnchangedIff(s: State, today: seq<Reading>, date: Date)
    requires ValidSnapshot(s.snapshot)
    ensures Step(s, today, date).ledger == s.ledger <==>
            (s.snapshot.None? || forall i :: 0 <= i < |today| ==> Agrees(Readings(s.snapshot.value), today[i]))
  {
    if s.snapshot.Some? {
      DiffEmptyIff(today, Readings(s.snapshot.value), date);
      var changes := Reconcile(s.snapshot, today, date);
      if changes != [] {
        assert |Rows(Step(s, today, date).ledger)| > |Rows(s.ledger)|;
      }
    }
  }

  /** Fetching the same readings again on a later run produces no change rows and leaves the ledger as it was. */
  lemma {:induction false} StepRepeatNoChange(s: State, today: seq<Reading>, date: Date, later: Date)
    requires ValidSnapshot(s.snapshot)
    requires UniqueLabels(today)
    ensures var s1 := Step(s, today, date);
            Reconcile(s1.snapshot, today, later) == [] && Step(s1, today, later).ledger == s1.ledger
  {
    var s1 := Step(s, today, date);
    forall i | 0 <= i < |today|
      ensures Agrees(today, today[i])
    {
      LookupUnique(today, i);
    }
    DiffEmptyIff(today, today, later);
  }

  /** A sequence of runs, oldest first. */
  function Run(s: State, fetches: seq<Fetch>): (s': State)
    requires Valid(s)
    requires forall k :: 0 <= k < |fetches| ==> UniqueLabels(fetches[k].readings)
    ensures Valid(s')
    ensures s.ledger.Some? ==> s'.ledger.Some?
    ensures Rows(s.ledger) <= Rows(s'.ledger)
    ensures |fetches| > 0 ==> s'.snapshot == Some(NewSnapshot(fetches[|fetches| - 1].readings, fetches[|fetches| - 1].date))
    decreases |fetches|
  {
    if |fetches| == 0 then s
    else Run(Step(s, fetches[0].readings, fetches[0].date), fetches[1..])
  }

  /** Every ledger row a sequence of runs adds carries the date of one of those runs and a non-zero change. */
  lemma {:induction false} RunNewRowsDated(s: State, fetches: seq<Fetch>)
    requires Valid(s)
    requires forall k :: 0 <= k < |fetches| ==> UniqueLabels(fetches[k].readings)
    ensures var rows := Rows(Run(s, fetches).ledger);
            forall n :: |Rows(s.ledger)| <= n < |rows| ==>
              rows[n].change != 0 && exists k :: 0 <= k < |fetches| && rows[n].date == fetches[k].date
    decreases |fetches|
  {
    if |fetches| > 0 {
      var s1 := Step(s, fetches[0].readings, fetches[0].date);
      StepLedger(s, fetches[0].readings, fetches[0].date);
      RunNewRowsDated(s1, fetches[1..]);
      var rows := Rows(Run(s, fetches).ledger);
      assert Run(s, fetches) == Run(s1, fetches[1..]);
      forall n | |Rows(s.ledger)| <= n < |rows|
        ensures exists k :: 0 <= k < |fetches| && rows[n].date == fetches[k].date
      {
        if n < |Rows(s1.ledger)| {
          assert rows[n] == Rows(s1.ledger)[n];
          assert rows[n].date == fetches[0].date;
        } else {
          var k :| 0 <= k < |fetches[1..]| && rows[n].date == fetches[1..][k].date;
          assert fetches[1..][k] == fetches[k + 1];
        }
      }
    }
  }
}
