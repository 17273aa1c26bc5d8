/**
 * Building the leap-second table (`init`). The leap file lists leap seconds as
 * offsets from 1900 on a counter without leap seconds; the table keeps those
 * after the requested epoch, re-based onto it and counted with the leap seconds
 * already passed, together with the instant each one names.
 */
module LeapTable {
  import opened Units
  import opened Calendar
  import opened LeapCounts
  import opened Normalizer

  /** The raw offsets the loop keeps, in file order: those greater than `threshold`. */
  function Accepted(raws: seq<nat>, threshold: int): (acc: seq<nat>)
    ensures |acc| <= |raws|
    ensures forall x :: x in acc ==> x in raws && x > threshold
    ensures forall x :: x in raws && x > threshold ==> x in acc
    decreases |raws|
  {
    if |raws| == 0 then []
    else Accepted(raws[..|raws| - 1], threshold)
         + (if raws[|raws| - 1] > threshold then [raws[|raws| - 1]] else [])
  }

  /** Filtering a file in two pieces gives the two filtered pieces in order. */
  lemma {:induction false} AcceptedAppend(a: seq<nat>, b: seq<nat>, threshold: int)
    ensures Accepted(a + b, threshold) == Accepted(a, threshold) + Accepted(b, threshold)
    decreases |b|
  {
    if |b| == 0 {
      assert a + b == a;
    } else {
      var b' := b[..|b| - 1];
      assert (a + b)[..|a + b| - 1] == a + b';
      assert (a + b)[|a + b| - 1] == b[|b| - 1];
      AcceptedAppend(a, b', threshold);
    }
  }

  /** When every offset lies after the epoch, the whole file is kept. */
  lemma {:induction false} AcceptedAll(raws: seq<nat>, threshold: int)
    requires forall i :: 0 <= i < |raws| ==> raws[i] > threshold
    ensures Accepted(raws, threshold) == raws
    decreases |raws|
  {
    if |raws| > 0 {
      AcceptedAll(raws[..|raws| - 1], threshold);
      assert raws[..|raws| - 1] + [raws[|raws| - 1]] == raws;
    }
  }

  /** One more offset read: the kept prefix grows by that offset exactly when it is kept. */
  lemma AcceptedStep(raws: seq<nat>, i: int, threshold: int)
    requires 0 <= i < |raws|
    ensures Accepted(raws[..i + 1], threshold)
            == Accepted(raws[..i], threshold) + (if raws[i] > threshold then [raws[i]] else [])
  {
    assert raws[..i + 1][..i] == raws[..i];
  }

  /**
   * The deltas stored for the kept offsets `acc`: the `i`-th is re-based from
   * 1900 by `offset` and counts the `i` leap seconds kept before it, on `size_t`.
   */
  function RebasedDeltas(acc: seq<nat>, offset: int): (ds: seq<int>)
    ensures |ds| == |acc|
    decreases |acc|
  {
    if |acc| == 0 then []
    else RebasedDeltas(acc[..|acc| - 1], offset) + [(acc[|acc| - 1] - offset + |acc| - 1) % SizeModulus]
  }

  /** The `i`-th delta is the `i`-th kept offset, re-based and shifted by `i`. */
  lemma {:induction false} RebasedDeltaAt(acc: seq<nat>, offset: int, i: int)
    requires 0 <= i < |acc|
    ensures RebasedDeltas(acc, offset)[i] == (acc[i] - offset + i) % SizeModulus
    decreases |acc|
  {
    if i < |acc| - 1 {
      RebasedDeltaAt(acc[..|acc| - 1], offset, i);
    }
  }

  /** One more kept offset appends its delta. */
  lemma RebasedDeltasSnoc(acc: seq<nat>, x: nat, offset: int)
    ensures RebasedDeltas(acc + [x], offset) == RebasedDeltas(acc, offset) + [(x - offset + |acc|) % SizeModulus]
  {
    assert (acc + [x])[..|acc|] == acc;
  }

  /** What the loop stores for each leap second: a real minute, second `adjust`'s last value plus one, no fraction. */
  predicate LoadedEntry(t: Tm) {
    MinuteFieldsInLimits(t) && 1 <= t.sec <= 61 && t.fracSec == StartFracSec
  }

  /**
   * The instant stored for one leap second: the value `sinceEpoch` seconds after
   * the epoch under `sys`, with its second then moved one on.
   */
  method LeapInstant(sys: TimeSystem, sinceEpoch: nat) returns (t: Tm)
    ensures LoadedEntry(t)
  {
    var entry := new SmartTm.SinceEpoch(sys, sinceEpoch);
    entry.sec := entry.sec + 1;
    t := entry.Value();
  }

  /** Every stored instant has the shape of `LoadedEntry`. */
  predicate LoadedEntries(tms: seq<Tm>) {
    forall j :: 0 <= j < |tms| ==> LoadedEntry(tms[j])
  }

  lemma LoadedEntriesSnoc(tms: seq<Tm>, e: Tm)
    requires LoadedEntries(tms) && LoadedEntry(e)
    ensures LoadedEntries(tms + [e])
  {
    assert forall j :: 0 <= j < |tms| ==> (tms + [e])[j] == tms[j];
  }

  /**
   * `init`: the table is rebuilt from the raw offsets of the leap file, each
   * compared with the seconds from 1900 to the new epoch, and the new epoch year
   * is recorded after the loop.
   */
  method Init(ts: TimeSystem, epochYr: nat, raws: seq<nat>) returns (ts': TimeSystem)
    requires forall i :: 0 <= i < |raws| ==> raws[i] < SizeModulus
    ensures ts'.initialized && ts'.epochYr == epochYr
    ensures |ts'.leapSecondTms| == |ts'.leapSecondDeltas|
              == |Accepted(raws, NumSecondsBetweenEpochs(DefaultEpochYear, epochYr))|
    ensures ts'.leapSecondDeltas
              == RebasedDeltas(Accepted(raws, NumSecondsBetweenEpochs(DefaultEpochYear, epochYr)),
                               NumSecondsBetweenEpochs(DefaultEpochYear, epochYr))
    ensures LoadedEntries(ts'.leapSecondTms)
  {
    var defaultEpochToNewEpoch := NumSecondsBetweenEpochs(DefaultEpochYear, epochYr);
    var tms, deltas := BuildTable(ts.epochYr, raws, defaultEpochToNewEpoch);
    ts' := TimeSystem(true, epochYr, tms, deltas);
  }

  /**
   * The table-building loop of `init`. Each offset after the new epoch, at
   * `defaultEpochToNewEpoch` seconds from 1900, is re-based onto it and shifted
   * by the number kept before it; its instant is built by the `sinceEpoch`
   * constructor under the epoch year still in force (`oldEpochYr`) and the table
   * built so far, its delta already pushed, and is then moved one second on.
   */
  method BuildTable(oldEpochYr: int, raws: seq<nat>, defaultEpochToNewEpoch: nat)
    returns (tms: seq<Tm>, deltas: seq<int>)
    requires forall i :: 0 <= i < |raws| ==> raws[i] < SizeModulus
    ensures |tms| == |Accepted(raws, defaultEpochToNewEpoch)|
    ensures deltas == RebasedDeltas(Accepted(raws, defaultEpochToNewEpoch), defaultEpochToNewEpoch)
    ensures LoadedEntries(tms)
  {
    tms, deltas := [], [];
    var leapSecondsSoFar: nat := 0;
    ghost var kept: seq<nat> := [];
    var i := 0;
    while i < |raws|
      invariant 0 <= i <= |raws|
      invariant kept == Accepted(raws[..i], defaultEpochToNewEpoch)
      invariant leapSecondsSoFar == |tms| == |kept|
      invariant deltas == RebasedDeltas(kept, defaultEpochToNewEpoch)
      invariant LoadedEntries(tms)
    {
      var defaultEpochToLeapSecond := raws[i];
      AcceptedStep(raws, i, defaultEpochToNewEpoch);
      if defaultEpochToLeapSecond > defaultEpochToNewEpoch {
        RebasedDeltasSnoc(kept, defaultEpochToLeapSecond, defaultEpochToNewEpoch);
        deltas := deltas + [(defaultEpochToLeapSecond - defaultEpochToNewEpoch + leapSecondsSoFar) % SizeModulus];
        var entry := LeapInstant(TimeSystem(true, oldEpochYr, tms, deltas),
                                 (defaultEpochToLeapSecond + leapSecondsSoFar) % SizeModulus);
        leapSecondsSoFar := leapSecondsSoFar + 1;
        LoadedEntriesSnoc(tms, entry);
        tms := tms + [entry];
        kept := kept + [defaultEpochToLeapSecond];
      } else {
        assert kept + [] == kept;
      }
      i := i + 1;
    }
    assert raws[..|raws|] == raws;
  }
}
