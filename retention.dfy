/**
 * The retention scan and the purge: `find_old_backups` picks, in listing
 * order, the snapshots whose name carries the marker and whose embedded time
 * is strictly before `now - older_than days`; `purge_backups` destroys them
 * one by one whatever each destroy answers.
 */
module Retention {
  import opened Wrappers
  import opened Timestamps
  import opened SnapshotNames
  import opened Provider

  const MICROS_PER_SECOND := 1000000

  /** A reading of `datetime.now()`: a naive time, with microseconds. */
  datatype Reading = Reading(stamp: DateTime, microsecond: int)

  predicate ValidReading(now: Reading)
  {
    Valid(now.stamp) && 0 <= now.microsecond < MICROS_PER_SECOND
  }

  /** Microseconds from 0001-01-01 00:00:00 to `now`. */
  function NowMicros(now: Reading): int
    requires ValidReading(now)
  {
    TotalSeconds(now.stamp) * MICROS_PER_SECOND + now.microsecond
  }

  /** `now - timedelta(days=olderThan)`, in microseconds; `olderThan` may be zero or negative. */
  function Cutoff(now: Reading, olderThan: int): (r: int)
    requires ValidReading(now)
    ensures olderThan == 0 ==> r == NowMicros(now)
    ensures olderThan > 0 ==> r < NowMicros(now)
    ensures olderThan < 0 ==> r > NowMicros(now)
  {
    NowMicros(now) - olderThan * (SECONDS_PER_DAY * MICROS_PER_SECOND)
  }

  /** The instants a `datetime` can hold; outside them the subtraction raises OverflowError. */
  predicate Representable(micros: int)
  {
    0 <= micros < MAX_ORDINAL * SECONDS_PER_DAY * MICROS_PER_SECOND
  }

  /** Every reading of the clock is an instant `datetime` holds, so `older_than = 0` never overflows. */
  lemma NowIsRepresentable(now: Reading)
    requires ValidReading(now)
    ensures Representable(NowMicros(now))
    ensures Representable(Cutoff(now, 0))
  {
    assert TotalSeconds(now.stamp) * MICROS_PER_SECOND + now.microsecond
        < (TotalSeconds(now.stamp) + 1) * MICROS_PER_SECOND;
  }

  /** Why a scan raises: the cutoff overflows, or a marked name's suffix is not a time. */
  datatype ScanError = CutoffOutOfRange | MalformedStamp(snapshot: Snapshot)

  /** `"--auto-backup--" in snapshot.name`. */
  predicate HasMarker(s: Snapshot)
    ensures HasMarker(s) <==> Contains(s.name, MARKER)
  {
    Find(s.name, MARKER) != -1
  }

  /** What the scan makes of one snapshot. */
  datatype Verdict = Unmarked | Malformed | Keep | Expire

  function Classify(s: Snapshot, cutoff: int): (r: Verdict)
    ensures r == Unmarked <==> !Contains(s.name, MARKER)
    ensures r == Malformed <==> HasMarker(s) && ParseStamp(Suffix(s.name)).None?
    ensures r == Expire ==> TotalSeconds(ParseStamp(Suffix(s.name)).value) * MICROS_PER_SECOND < cutoff
    ensures r == Keep ==> TotalSeconds(ParseStamp(Suffix(s.name)).value) * MICROS_PER_SECOND >= cutoff
  {
    if !HasMarker(s) then Unmarked
    else
      match ParseStamp(Suffix(s.name))
      case None => Malformed
      case Some(t) => if TotalSeconds(t) * MICROS_PER_SECOND < cutoff then Expire else Keep
  }

  /** The verdict against `cutoff`, as the function the scan is parameterised by. */
  function Judge(cutoff: int): Snapshot -> Verdict
  {
    s => Classify(s, cutoff)
  }

  /**
   * The scan of `snaps` under `judge`: the expired snapshots in listing
   * order, or the first malformed one, at which the scan stops.
   */
  function Scan(snaps: seq<Snapshot>, judge: Snapshot -> Verdict): (r: Result<seq<Snapshot>, ScanError>)
    ensures r.Ok? ==> |r.value| <= |snaps|
    ensures r.Err? ==> r.error.MalformedStamp? && r.error.snapshot in snaps && judge(r.error.snapshot) == Malformed
  {
    if snaps == [] then Ok([])
    else
      match Scan(snaps[..|snaps| - 1], judge)
      case Err(e) => Err(e)
      case Ok(expired) =>
        var s := snaps[|snaps| - 1];
        match judge(s)
        case Malformed => Err(MalformedStamp(s))
        case Expire => Ok(expired + [s])
        case _ => Ok(expired)
  }

  /** What `find_old_backups(manager, olderThan)` returns or raises when the listing is `snaps`. */
  function OldBackups(snaps: seq<Snapshot>, now: Reading, olderThan: int): (r: Result<seq<Snapshot>, ScanError>)
    requires ValidReading(now)
    ensures r == Err(CutoffOutOfRange) <==> !Representable(Cutoff(now, olderThan))
  {
    var cutoff := Cutoff(now, olderThan);
    if !Representable(cutoff) then Err(CutoffOutOfRange) else Scan(snaps, Judge(cutoff))
  }

  /** `find_old_backups`: the listing and the clock reading are parameters. */
  method FindOldBackups(snapshots: seq<Snapshot>, now: Reading, olderThan: int)
    returns (r: Result<seq<Snapshot>, ScanError>)
    requires ValidReading(now)
    ensures r == OldBackups(snapshots, now, olderThan)
  {
    var cutoff := Cutoff(now, olderThan);
    if !Representable(cutoff) {
      return Err(CutoffOutOfRange);
    }
    var oldSnapshots := [];
    for i := 0 to |snapshots|
      invariant Scan(snapshots[..i], Judge(cutoff)) == Ok(oldSnapshots)
    {
      var s := snapshots[i];
      ScanStep(snapshots, i, Judge(cutoff));
      if HasMarker(s) {
        var backedOn := ParseStamp(Suffix(s.name));
        if backedOn.None? {
          ScanErrorSticks(snapshots, i + 1, Judge(cutoff));
          return Err(MalformedStamp(s));
        }
        if TotalSeconds(backedOn.value) * MICROS_PER_SECOND < cutoff {
          oldSnapshots := oldSnapshots + [s];
        }
      }
    }
    assert snapshots[..|snapshots|] == snapshots;
    r := Ok(oldSnapshots);
  }

  /** One more snapshot of the listing: the scan of the longer prefix in terms of the shorter. */
  lemma ScanStep(snaps: seq<Snapshot>, i: nat, judge: Snapshot -> Verdict)
    requires i < |snaps|
    ensures Scan(snaps[..i + 1], judge) ==
      match Scan(snaps[..i], judge)
      case Err(e) => Err(e)
      case Ok(expired) =>
        match judge(snaps[i])
        case Malformed => Err(MalformedStamp(snaps[i]))
        case Expire => Ok(expired + [snaps[i]])
        case _ => Ok(expired)
  {
    assert snaps[..i + 1][..i] == snaps[..i];
  }

  /** Once a prefix of the listing makes the scan fail, the whole listing fails the same way. */
  lemma {:induction false} ScanErrorSticks(snaps: seq<Snapshot>, k: nat, judge: Snapshot -> Verdict)
    requires k <= |snaps| && Scan(snaps[..k], judge).Err?
    ensures Scan(snaps, judge) == Scan(snaps[..k], judge)
    decreases |snaps| - k
  {
    if k < |snaps| {
      var init := snaps[..|snaps| - 1];
      assert init[..k] == snaps[..k];
      ScanErrorSticks(init, k, judge);
    } else {
      assert snaps[..k] == snaps;
    }
  }

  // ---------------------------------------------------------------------------
  // What the scan selects

  /** The scan raises exactly when some snapshot is judged malformed. */
  lemma {:induction false} ScanSucceedsIff(snaps: seq<Snapshot>, judge: Snapshot -> Verdict)
    ensures Scan(snaps, judge).Ok? <==> forall i :: 0 <= i < |snaps| ==> judge(snaps[i]) != Malformed
  {
    if snaps != [] {
      var init := snaps[..|snaps| - 1];
      ScanSucceedsIff(init, judge);
      assert forall i :: 0 <= i < |init| ==> init[i] == snaps[i];
    }
  }

  /** The error names the first malformed snapshot of the listing. */
  lemma ScanFailsAtFirstMalformed(snaps: seq<Snapshot>, judge: Snapshot -> Verdict, i: nat)
    requires i < |snaps| && judge(snaps[i]) == Malformed
    requires forall j :: 0 <= j < i ==> judge(snaps[j]) != Malformed
    ensures Scan(snaps, judge) == Err(MalformedStamp(snaps[i]))
  {
    var prefix := snaps[..i + 1];
    assert prefix[..i] == snaps[..i];
    ScanSucceedsIff(snaps[..i], judge);
    assert Scan(prefix, judge) == Err(MalformedStamp(snaps[i]));
    ScanErrorSticks(snaps, i + 1, judge);
  }

  /** The positions of the expired snapshots, in increasing order. */
  function ExpiredPositions(snaps: seq<Snapshot>, judge: Snapshot -> Verdict): seq<nat>
  {
    if snaps == [] then []
    else
      ExpiredPositions(snaps[..|snaps| - 1], judge)
        + (if judge(snaps[|snaps| - 1]) == Expire then [|snaps| - 1] else [])
  }

  /** A successful scan returns exactly the expired snapshots, each once, in listing order. */
  lemma {:induction false} ScanSelectsExpired(snaps: seq<Snapshot>, judge: Snapshot -> Verdict)
    requires Scan(snaps, judge).Ok?
    ensures var v, p := Scan(snaps, judge).value, ExpiredPositions(snaps, judge);
      && |v| == |p|
      && (forall j :: 0 <= j < |p| ==> p[j] < |snaps| && v[j] == snaps[p[j]])
      && (forall j, k :: 0 <= j < k < |p| ==> p[j] < p[k])
      && (forall i :: 0 <= i < |snaps| ==> (i in p <==> judge(snaps[i]) == Expire))
  {
    if snaps != [] {
      var init := snaps[..|snaps| - 1];
      ScanSelectsExpired(init, judge);
      assert forall i :: 0 <= i < |init| ==> init[i] == snaps[i];
    }
  }

  /** Only marked snapshots are selected, whatever their age. */
  lemma ScanNeverSelectsUnmarked(snaps: seq<Snapshot>, cutoff: int)
    requires Scan(snaps, Judge(cutoff)).Ok?
    ensures forall s :: s in Scan(snaps, Judge(cutoff)).value ==> HasMarker(s)
  {
    var v, p := Scan(snaps, Judge(cutoff)).value, ExpiredPositions(snaps, Judge(cutoff));
    ScanSelectsExpired(snaps, Judge(cutoff));
    forall s | s in v ensures HasMarker(s) {
      var j :| 0 <= j < |v| && v[j] == s;
      assert p[j] in p;
      assert Classify(s, cutoff) == Expire;
    }
  }

  /** The scan compares as Python compares a stamp (no microseconds) with the cutoff datetime. */
  lemma ComparisonMatchesPython(t: DateTime, cutoff: DateTime, micro: int)
    requires Valid(t) && Valid(cutoff) && 0 <= micro < MICROS_PER_SECOND
    ensures TotalSeconds(t) * MICROS_PER_SECOND < TotalSeconds(cutoff) * MICROS_PER_SECOND + micro
      <==> Before(t, cutoff) || (t == cutoff && 0 < micro)
  {
    EarlierIffFewerSeconds(t, cutoff);
  }

  /** A snapshot named by a backup is judged by the time in its name alone. */
  lemma ClassifyGenerated(id: SnapshotId, n: string, t: DateTime, cutoff: int)
    requires Valid(t) && !Contains(n + MARKER[..14], MARKER)
    ensures Classify(Snapshot(id, SnapshotName(n, t)), cutoff)
      == if TotalSeconds(t) * MICROS_PER_SECOND < cutoff then Expire else Keep
  {
    RoundTrip(n, t);
  }

  /** A snapshot named by a backup of a droplet whose name spoils the marker is malformed, whatever the cutoff. */
  lemma ClassifySpoiled(id: SnapshotId, n: string, t: DateTime, cutoff: int)
    requires Valid(t) && Contains(n + MARKER[..14], MARKER)
    ensures Classify(Snapshot(id, SnapshotName(n, t)), cutoff) == Malformed
  {
    RoundTripFails(n, t);
    assert OccursAt(SnapshotName(n, t), MARKER, Find(SnapshotName(n, t), MARKER));
  }

  /**
   * The boundary: a backup stamped `olderThan` days before the second of the
   * clock reading is kept exactly when the reading falls on a whole second
   * (otherwise the cutoff lies a fraction past the stamp); one stamped a
   * second earlier is always expired.
   */
  lemma CutoffIsStrict(id: SnapshotId, n: string, t: DateTime, now: Reading, olderThan: int)
    requires Valid(t) && ValidReading(now)
    requires !Contains(n + MARKER[..14], MARKER)
    ensures TotalSeconds(t) == TotalSeconds(now.stamp) - olderThan * SECONDS_PER_DAY
      ==> (Classify(Snapshot(id, SnapshotName(n, t)), Cutoff(now, olderThan)) == Keep <==> now.microsecond == 0)
    ensures TotalSeconds(t) + 1 == TotalSeconds(now.stamp) - olderThan * SECONDS_PER_DAY
      ==> Classify(Snapshot(id, SnapshotName(n, t)), Cutoff(now, olderThan)) == Expire
  {
    ClassifyGenerated(id, n, t, Cutoff(now, olderThan));
  }

  /** `older_than = 0` is a valid retention: the cutoff is now itself and never overflows. */
  lemma ZeroDaysCutsAtNow(snaps: seq<Snapshot>, now: Reading)
    requires ValidReading(now)
    ensures OldBackups(snaps, now, 0) == Scan(snaps, Judge(NowMicros(now)))
  {
  }

  // ---------------------------------------------------------------------------
  // Purging

  /** The calls `purge_backups` makes: one destroy per snapshot, in order. */
  function DestroyTrace(snaps: seq<Snapshot>): seq<Event>
  {
    if snaps == [] then []
    else DestroyTrace(snaps[..|snaps| - 1]) + [Destroy(snaps[|snaps| - 1].id)]
  }

  lemma {:induction false} DestroyTraceShape(snaps: seq<Snapshot>)
    ensures |DestroyTrace(snaps)| == |snaps|
    ensures forall i :: 0 <= i < |snaps| ==> DestroyTrace(snaps)[i] == Destroy(snaps[i].id)
  {
    if snaps != [] {
      DestroyTraceShape(snaps[..|snaps| - 1]);
    }
  }

  /**
   * `purge_backups`: destroys every snapshot in order and goes on after a
   * failed destroy; an empty list takes the "nothing to delete" branch.
   * `destroyed` holds the outcome dobackup logs for each.
   */
  method PurgeBackups(gw: Gateway, snapshots: seq<Snapshot>) returns (nothingToDelete: bool, destroyed: seq<bool>)
    modifies gw
    ensures nothingToDelete <==> snapshots == []
    ensures gw.log == old(gw.log) + DestroyTrace(snapshots)
    ensures destroyed == Replies(gw.replies, |old(gw.log)|, |snapshots|)
  {
    destroyed := [];
    if snapshots == [] {
      nothingToDelete := true;
      return;
    }
    nothingToDelete := false;
    for i := 0 to |snapshots|
      invariant gw.log == old(gw.log) + DestroyTrace(snapshots[..i])
      invariant destroyed == Replies(gw.replies, |old(gw.log)|, i)
    {
      assert snapshots[..i + 1][..i] == snapshots[..i];
      DestroyTraceShape(snapshots[..i]);
      var ok := gw.DestroySnapshot(snapshots[i].id);
      destroyed := destroyed + [ok];
    }
    assert snapshots[..|snapshots|] == snapshots;
  }

  /**
   * The `delete_older_than` branch of `run`: scan, then purge what the scan
   * selected. When the scan raises, nothing is destroyed and the error
   * escapes.
   */
  method DeleteOlderThan(gw: Gateway, listing: seq<Snapshot>, now: Reading, olderThan: int)
    returns (r: Result<seq<bool>, ScanError>)
    requires ValidReading(now)
    modifies gw
    ensures match OldBackups(listing, now, olderThan)
      case Err(e) => r == Err(e) && gw.log == old(gw.log)
      case Ok(expired) =>
        && gw.log == old(gw.log) + DestroyTrace(expired)
        && r == Ok(Replies(gw.replies, |old(gw.log)|, |expired|))
  {
    var found := FindOldBackups(listing, now, olderThan);
    if found.Err? {
      return Err(found.error);
    }
    var _, destroyed := PurgeBackups(gw, found.value);
    r := Ok(destroyed);
  }
}
