/**
 The comparison of today's readings with the previous snapshot: an inner join on
 the period label, the per-period change `today - previous`, the drop of zero
 changes, and the stamping of each surviving row with today's date.
 */
module Changes {
  import opened Wrappers
  import opened Tables

  /** The change rows of `today` against the previous readings `prev`, in today's row order. */
  function Diff(today: seq<Reading>, prev: seq<Reading>, date: Date): (out: seq<ChangeRow>)
    ensures |out| <= |today|
    ensures forall k :: 0 <= k < |out| ==> out[k].date == date && out[k].change != 0
  {
    if |today| == 0 then []
    else
      var rest := Diff(today[1..], prev, date);
      match Lookup(prev, today[0].period)
      case None => rest
      case Some(y) =>
        if today[0].count - y == 0 then rest
        else [ChangeRow(date, today[0].period, today[0].count - y)] + rest
  }

  /**
   The change rows a run produces. Without a previous snapshot (the first run)
   there are none; otherwise they are the `Diff` of today against the snapshot's
   readings, whose `fetch_date` plays no part.
   */
  function Reconcile(prev: Option<seq<SnapRow>>, today: seq<Reading>, date: Date): (changes: seq<ChangeRow>)
    requires ValidSnapshot(prev)
    ensures prev.None? ==> changes == []
    ensures forall k :: 0 <= k < |changes| ==> changes[k].date == date && changes[k].change != 0
  {
    match prev
    case None => []
    case Some(snap) => Diff(today, Readings(snap), date)
  }

  /** Every change row comes from a today row and a previous row with its label, and is their difference. */
  lemma {:induction false} DiffSound(today: seq<Reading>, prev: seq<Reading>, date: Date)
    ensures forall k :: 0 <= k < |Diff(today, prev, date)| ==>
              exists i, j :: 0 <= i < |today| && 0 <= j < |prev| &&
                today[i].period == Diff(today, prev, date)[k].period &&
                prev[j].period == Diff(today, prev, date)[k].period &&
                Diff(today, prev, date)[k].change == today[i].count - prev[j].count
  {
    if |today| > 0 {
      var out := Diff(today, prev, date);
      var rest := Diff(today[1..], prev, date);
      DiffSound(today[1..], prev, date);
      forall k | 0 <= k < |out|
        ensures exists i, j :: 0 <= i < |today| && 0 <= j < |prev| &&
                  today[i].period == out[k].period && prev[j].period == out[k].period &&
                  out[k].change == today[i].count - prev[j].count
      {
        if out == rest {
          var i, j :| 0 <= i < |today[1..]| && 0 <= j < |prev| &&
            today[1..][i].period == rest[k].period && prev[j].period == rest[k].period &&
            rest[k].change == today[1..][i].count - prev[j].count;
          assert today[i + 1] == today[1..][i];
        } else {
          var j := IndexOf(prev, today[0].period).value;
          assert out == [ChangeRow(date, today[0].period, today[0].count - prev[j].count)] + rest;
          if k == 0 {
            assert prev[j].period == out[0].period;
            assert today[0].period == out[0].period;
            assert out[0].change == today[0].count - prev[j].count;
          } else {
            assert out[k] == rest[k - 1];
            var i, j' :| 0 <= i < |today[1..]| && 0 <= j' < |prev| &&
              today[1..][i].period == rest[k - 1].period && prev[j'].period == rest[k - 1].period &&
              rest[k - 1].change == today[1..][i].count - prev[j'].count;
            assert today[i + 1] == today[1..][i];
          }
        }
      }
    } else {
      assert Diff(today, prev, date) == [];
    }
  }

  /** Every today row whose label the previous readings hold with a different count yields its change row. */
  lemma {:induction false} DiffComplete(today: seq<Reading>, prev: seq<Reading>, date: Date)
    requires UniqueLabels(prev)
    ensures forall i, j ::
              (0 <= i < |today| && 0 <= j < |prev| &&
               today[i].period == prev[j].period && today[i].count != prev[j].count) ==>
              ChangeRow(date, today[i].period, today[i].count - prev[j].count) in Diff(today, prev, date)
  {
    if |today| > 0 {
      var out := Diff(today, prev, date);
      var rest := Diff(today[1..], prev, date);
      DiffComplete(today[1..], prev, date);
      assert forall c :: c in rest ==> c in out;
      forall i, j | 0 <= i < |today| && 0 <= j < |prev| &&
                    today[i].period == prev[j].period && today[i].count != prev[j].count
        ensures ChangeRow(date, today[i].period, today[i].count - prev[j].count) in out
      {
        if i == 0 {
          LookupUnique(prev, j);
        } else {
          assert today[i] == today[1..][i - 1];
        }
      }
    }
  }

  /** The change rows keep today's row order: their labels are a subsequence of today's labels. */
  lemma {:induction false} DiffOrder(today: seq<Reading>, prev: seq<Reading>, date: Date)
    ensures Subseq(ChangeLabels(Diff(today, prev, date)), Labels(today))
  {
    var xs := ChangeLabels(Diff(today, prev, date));
    var ys := Labels(today);
    if |today| > 0 {
      var rest := Diff(today[1..], prev, date);
      DiffOrder(today[1..], prev, date);
      assert ys[1..] == Labels(today[1..]);
      if Diff(today, prev, date) == rest {
        if |xs| > 0 {
          assert Subseq(xs, ys[1..]);
        }
      } else {
        assert xs[0] == ys[0];
        assert xs[1..] == ChangeLabels(rest);
      }
    }
  }

  /** No change row is produced exactly when every today row agrees with the previous readings. */
  lemma {:induction false} DiffEmptyIff(today: seq<Reading>, prev: seq<Reading>, date: Date)
    ensures Diff(today, prev, date) == [] <==> forall i :: 0 <= i < |today| ==> Agrees(prev, today[i])
  {
    if |today| > 0 {
      DiffEmptyIff(today[1..], prev, date);
      assert forall i :: 1 <= i < |today| ==> today[i] == today[1..][i - 1];
      if Diff(today, prev, date) == [] {
        assert Diff(today[1..], prev, date) == [];
      }
    }
  }
}
