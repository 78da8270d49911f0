/**
 * Taking backups: `start_backup` asks the provider to power a droplet off and
 * snapshot it under a generated name; the `backup` branch of `run` does that
 * for one droplet and then waits and powers it back on; the `backup_all`
 * branch issues every snapshot request of a tag first and only then waits for
 * and powers on each droplet in turn. Power-on never depends on how the
 * snapshot ended.
 */
module Backup {
  import opened Timestamps
  import opened SnapshotNames
  import opened Provider

  /** What the tool logs about one droplet (it returns nothing): whether the snapshot completed and the power-on was accepted. */
  datatype Outcome = Outcome(droplet: DropletId, snapshotDone: bool, poweredOn: bool)

  /** One entry of `snap_and_drop_ids`: the action of a requested snapshot and its droplet. */
  datatype Pending = Pending(action: ActionId, droplet: DropletId)

  /**
   * `start_backup(droplet)`, with `now` the reading of `datetime.now()`: the
   * request carries the name `<droplet name>--auto-backup--<now>`.
   */
  method StartBackup(gw: Gateway, droplet: Droplet, now: DateTime) returns (action: ActionId)
    modifies gw
    ensures action == |old(gw.log)|
    ensures gw.log == old(gw.log) + [SnapshotPowerOff(droplet.id, SnapshotName(droplet.name, now), action)]
  {
    var name := SnapshotName(droplet.name, now);
    action := gw.TakeSnapshot(droplet.id, name);
  }

  /**
   * The `backup` branch of `run`: snapshot, wait, then power on whatever the
   * wait reported.
   */
  method BackupDroplet(gw: Gateway, droplet: Droplet, now: DateTime) returns (outcome: Outcome)
    modifies gw
    ensures gw.log == old(gw.log) + [
      SnapshotPowerOff(droplet.id, SnapshotName(droplet.name, now), |old(gw.log)|),
      Wait(|old(gw.log)|),
      PowerOn(droplet.id)]
    ensures outcome == Outcome(droplet.id, Reply(gw.replies, |old(gw.log)| + 1), Reply(gw.replies, |old(gw.log)| + 2))
  {
    var action := StartBackup(gw, droplet, now);
    var snapDone := gw.WaitFor(action);
    var poweredUp := gw.PowerOnDroplet(droplet.id);
    outcome := Outcome(droplet.id, snapDone, poweredUp);
  }

  // ---------------------------------------------------------------------------
  // The calls of `backup_all`

  /** The call `start_backup(d)` makes when the clock reads `t`, as action number `action`. */
  function Request(d: Droplet, t: DateTime, action: ActionId): Event
  {
    SnapshotPowerOff(d.id, SnapshotName(d.name, t), action)
  }

  /** The first phase: one snapshot request per droplet, actions numbered from `first`. */
  function Requests(ds: seq<Droplet>, clock: seq<DateTime>, first: nat): (r: seq<Event>)
    requires |clock| == |ds|
    ensures |r| == |ds|
  {
    if ds == [] then []
    else
      var n := |ds| - 1;
      Requests(ds[..n], clock[..n], first) + [Request(ds[n], clock[n], first + n)]
  }

  /** The second phase: for each droplet in turn, wait for its action and power it on. */
  function Completions(ds: seq<Droplet>, first: nat): seq<Event>
  {
    if ds == [] then []
    else
      var n := |ds| - 1;
      Completions(ds[..n], first) + [Wait(first + n), PowerOn(ds[n].id)]
  }

  lemma CompletionsStep(ds: seq<Droplet>, first: nat, i: nat)
    requires i < |ds|
    ensures Completions(ds[..i + 1], first) == Completions(ds[..i], first) + [Wait(first + i), PowerOn(ds[i].id)]
  {
    assert ds[..i + 1][..i] == ds[..i];
  }

  function BackupAllTrace(ds: seq<Droplet>, clock: seq<DateTime>, first: nat): seq<Event>
    requires |clock| == |ds|
  {
    Requests(ds, clock, first) + Completions(ds, first)
  }

  lemma {:induction false} RequestsShape(ds: seq<Droplet>, clock: seq<DateTime>, first: nat)
    requires |clock| == |ds|
    ensures forall j :: 0 <= j < |ds| ==> Requests(ds, clock, first)[j] == Request(ds[j], clock[j], first + j)
  {
    if ds != [] {
      var n := |ds| - 1;
      RequestsShape(ds[..n], clock[..n], first);
      forall j | 0 <= j < n
        ensures Requests(ds, clock, first)[j] == Request(ds[j], clock[j], first + j)
      {
        assert ds[..n][j] == ds[j] && clock[..n][j] == clock[j];
      }
    }
  }

  lemma AppendAssoc<T>(a: seq<T>, b: seq<T>, c: seq<T>)
    ensures (a + b) + c == a + (b + c)
  {
  }

  lemma RequestsStep(ds: seq<Droplet>, clock: seq<DateTime>, first: nat, i: nat)
    requires |clock| == |ds| && i < |ds|
    ensures Requests(ds[..i + 1], clock[..i + 1], first)
         == Requests(ds[..i], clock[..i], first) + [Request(ds[i], clock[i], first + i)]
  {
    assert ds[..i + 1][..i] == ds[..i] && clock[..i + 1][..i] == clock[..i];
  }

  lemma {:induction false} CompletionsLength(ds: seq<Droplet>, first: nat)
    ensures |Completions(ds, first)| == 2 * |ds|
  {
    if ds != [] {
      CompletionsLength(ds[..|ds| - 1], first);
    }
  }

  lemma {:induction false} CompletionsShape(ds: seq<Droplet>, first: nat)
    ensures |Completions(ds, first)| == 2 * |ds|
    ensures forall j :: 0 <= j < |ds| ==>
      Completions(ds, first)[2 * j] == Wait(first + j) && Completions(ds, first)[2 * j + 1] == PowerOn(ds[j].id)
  {
    if ds != [] {
      CompletionsShape(ds[..|ds| - 1], first);
    }
  }

  /** The second phase holds no snapshot request. */
  lemma {:induction false} CompletionsRequestNothing(ds: seq<Droplet>, first: nat)
    ensures forall q :: 0 <= q < |Completions(ds, first)| ==> !Completions(ds, first)[q].SnapshotPowerOff?
  {
    if ds != [] {
      var n := |ds| - 1;
      CompletionsRequestNothing(ds[..n], first);
    }
  }

  /**
   * The calls of `backup_all`, position by position: first the snapshot
   * request of every droplet, then, droplet by droplet in the same order, the
   * wait on that droplet's own action and its power-on. With no tagged
   * droplet there is no call at all.
   */
  lemma BackupAllOrder(ds: seq<Droplet>, clock: seq<DateTime>, first: nat)
    requires |clock| == |ds|
    ensures var t, n := BackupAllTrace(ds, clock, first), |ds|;
      && |t| == 3 * n
      && (forall j :: 0 <= j < n ==> t[j] == Request(ds[j], clock[j], first + j))
      && (forall j :: 0 <= j < n ==> t[n + 2 * j] == Wait(t[j].action) && t[n + 2 * j + 1] == PowerOn(ds[j].id))
  {
    RequestsShape(ds, clock, first);
    CompletionsShape(ds, first);
  }

  /** In the calls of `backup_all`, no snapshot request follows a wait. */
  lemma NoRequestAfterWait(ds: seq<Droplet>, clock: seq<DateTime>, first: nat)
    requires |clock| == |ds|
    ensures var t := BackupAllTrace(ds, clock, first);
      forall p, q :: 0 <= p < q < |t| && t[p].Wait? ==> !t[q].SnapshotPowerOff?
  {
    RequestsShape(ds, clock, first);
    CompletionsRequestNothing(ds, first);
    var r, c := Requests(ds, clock, first), Completions(ds, first);
    var t := BackupAllTrace(ds, clock, first);
    assert forall k :: 0 <= k < |r| ==> t[k].SnapshotPowerOff? by {
      forall k | 0 <= k < |r| ensures t[k].SnapshotPowerOff? {
        assert t[k] == r[k] == Request(ds[k], clock[k], first + k);
      }
    }
    forall p, q | 0 <= p < q < |t| && t[p].Wait?
      ensures !t[q].SnapshotPowerOff?
    {
      assert t[q] == c[q - |r|];
    }
  }

  /** How many droplets of `ds` have id `x`. */
  function IdCount(ds: seq<Droplet>, x: DropletId): nat
  {
    if ds == [] then 0
    else IdCount(ds[..|ds| - 1], x) + (if ds[|ds| - 1].id == x then 1 else 0)
  }

  lemma {:induction false} RequestsHaveNoWaitOrPowerOn(ds: seq<Droplet>, clock: seq<DateTime>, first: nat, a: ActionId, x: DropletId)
    requires |clock| == |ds|
    ensures Count(Requests(ds, clock, first), Wait(a)) == 0
    ensures Count(Requests(ds, clock, first), PowerOn(x)) == 0
  {
    if ds != [] {
      var n := |ds| - 1;
      var r := Requests(ds, clock, first);
      RequestsHaveNoWaitOrPowerOn(ds[..n], clock[..n], first, a, x);
      assert r[..|r| - 1] == Requests(ds[..n], clock[..n], first);
    }
  }

  lemma {:induction false} CompletionsCount(ds: seq<Droplet>, first: nat, a: ActionId, x: DropletId)
    ensures Count(Completions(ds, first), Wait(a)) == if first <= a < first + |ds| then 1 else 0
    ensures Count(Completions(ds, first), PowerOn(x)) == IdCount(ds, x)
  {
    if ds != [] {
      var n := |ds| - 1;
      var c := Completions(ds, first);
      CompletionsCount(ds[..n], first, a, x);
      assert c[..|c| - 1][..|c| - 2] == Completions(ds[..n], first);
      assert c[..|c| - 1] == Completions(ds[..n], first) + [Wait(first + n)];
    }
  }

  /**
   * Whatever the snapshots' outcomes, `backup_all` waits exactly once on
   * every action it issued and powers each droplet on once per time it was
   * tagged: exactly once when the tagged droplets are distinct.
   */
  lemma EveryDropletWaitedAndPoweredOnOnce(ds: seq<Droplet>, clock: seq<DateTime>, first: nat)
    requires |clock| == |ds|
    ensures forall a :: first <= a < first + |ds| ==> Count(BackupAllTrace(ds, clock, first), Wait(a)) == 1
    ensures forall x :: Count(BackupAllTrace(ds, clock, first), PowerOn(x)) == IdCount(ds, x)
  {
    forall a | first <= a < first + |ds| ensures Count(BackupAllTrace(ds, clock, first), Wait(a)) == 1 {
      CountConcat(Requests(ds, clock, first), Completions(ds, first), Wait(a));
      RequestsHaveNoWaitOrPowerOn(ds, clock, first, a, 0);
      CompletionsCount(ds, first, a, 0);
    }
    forall x ensures Count(BackupAllTrace(ds, clock, first), PowerOn(x)) == IdCount(ds, x) {
      CountConcat(Requests(ds, clock, first), Completions(ds, first), PowerOn(x));
      RequestsHaveNoWaitOrPowerOn(ds, clock, first, 0, x);
      CompletionsCount(ds, first, 0, x);
    }
  }

  /**
   * The first loop of `backup_all`: start the backup of every tagged droplet,
   * in order, and keep each action with its droplet.
   */
  method RequestAll(gw: Gateway, tagged: seq<Droplet>, clock: seq<DateTime>) returns (pending: seq<Pending>)
    requires |clock| == |tagged|
    modifies gw
    ensures gw.log == old(gw.log) + Requests(tagged, clock, |old(gw.log)|)
    ensures |pending| == |tagged|
    ensures forall j :: 0 <= j < |tagged| ==> pending[j] == Pending(|old(gw.log)| + j, tagged[j].id)
  {
    ghost var first := |gw.log|;
    pending := [];
    for i := 0 to |tagged|
      invariant gw.log == old(gw.log) + Requests(tagged[..i], clock[..i], first)
      invariant |gw.log| == first + i
      invariant |pending| == i
      invariant forall j :: 0 <= j < i ==> pending[j] == Pending(first + j, tagged[j].id)
    {
      RequestsStep(tagged, clock, first, i);
      var action := StartBackup(gw, tagged[i], clock[i]);
      pending := pending + [Pending(action, tagged[i].id)];
      AppendAssoc(old(gw.log), Requests(tagged[..i], clock[..i], first), [Request(tagged[i], clock[i], first + i)]);
    }
    assert tagged[..|tagged|] == tagged && clock[..|clock|] == clock;
  }

  /**
   * The second loop of `backup_all`: for each pending action in turn, wait
   * for it and power its droplet on, whatever the wait reported.
   */
  method CompleteAll(gw: Gateway, tagged: seq<Droplet>, pending: seq<Pending>, ghost first: nat)
    returns (outcomes: seq<Outcome>)
    requires |pending| == |tagged|
    requires forall j :: 0 <= j < |tagged| ==> pending[j] == Pending(first + j, tagged[j].id)
    modifies gw
    ensures gw.log == old(gw.log) + Completions(tagged, first)
    ensures |outcomes| == |tagged|
    ensures forall i :: 0 <= i < |tagged| ==>
      outcomes[i] == Outcome(tagged[i].id, Reply(gw.replies, |old(gw.log)| + 2 * i),
                             Reply(gw.replies, |old(gw.log)| + 2 * i + 1))
  {
    outcomes := [];
    for i := 0 to |pending|
      invariant gw.log == old(gw.log) + Completions(tagged[..i], first)
      invariant |outcomes| == i
      invariant forall j :: 0 <= j < i ==>
        outcomes[j] == Outcome(tagged[j].id, Reply(gw.replies, |old(gw.log)| + 2 * j),
                               Reply(gw.replies, |old(gw.log)| + 2 * j + 1))
    {
      CompletionsStep(tagged, first, i);
      CompletionsLength(tagged[..i], first);
      var snapDone := gw.WaitFor(pending[i].action);
      var poweredUp := gw.PowerOnDroplet(pending[i].droplet);
      outcomes := outcomes + [Outcome(pending[i].droplet, snapDone, poweredUp)];
      AppendAssoc(old(gw.log), Completions(tagged[..i], first), [Wait(first + i), PowerOn(tagged[i].id)]);
    }
    assert tagged[..|tagged|] == tagged;
  }

  /**
   * The `backup_all` branch of `run`, given the droplets the tag matches and
   * one clock reading per `start_backup`. Every snapshot request goes out
   * before the first wait; every droplet is then waited for and powered on in
   * the order it was matched, and its outcome recorded; no match issues no
   * request and says so.
   */
  method BackupAll(gw: Gateway, tagged: seq<Droplet>, clock: seq<DateTime>)
    returns (noMatch: bool, outcomes: seq<Outcome>)
    requires |clock| == |tagged|
    modifies gw
    ensures noMatch <==> tagged == []
    ensures gw.log == old(gw.log) + BackupAllTrace(tagged, clock, |old(gw.log)|)
    ensures |outcomes| == |tagged|
    ensures forall i :: 0 <= i < |tagged| ==>
      outcomes[i] == Outcome(tagged[i].id, Reply(gw.replies, |old(gw.log)| + |tagged| + 2 * i),
                             Reply(gw.replies, |old(gw.log)| + |tagged| + 2 * i + 1))
  {
    outcomes := [];
    noMatch := tagged == [];
    if noMatch {
      return;
    }
    ghost var first := |gw.log|;
    var snapAndDropIds := RequestAll(gw, tagged, clock);
    ghost var requested := gw.log;
    outcomes := CompleteAll(gw, tagged, snapAndDropIds, first);
    assert gw.log == old(gw.log) + (Requests(tagged, clock, first) + Completions(tagged, first)) by {
      assert requested == old(gw.log) + Requests(tagged, clock, first);
      assert gw.log == requested + Completions(tagged, first);
    }
  }
}
