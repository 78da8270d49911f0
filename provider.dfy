/**
 * The cloud provider as the backup tool sees it: droplets and snapshots, and
 * a gateway whose calls (snapshot with power-off, wait for an action, power
 * on, destroy a snapshot) are recorded in a log. What the provider answers
 * is not known here, so every boolean reply is taken from a sequence fixed
 * when the gateway is made: the call at position k of the log gets entry k.
 */
module Provider {

  type DropletId = nat
  type SnapshotId = nat
  type ActionId = nat

  datatype Droplet = Droplet(id: DropletId, name: string)

  datatype Snapshot = Snapshot(id: SnapshotId, name: string)

  /** One call the tool makes to the provider. */
  datatype Event =
    | SnapshotPowerOff(droplet: DropletId, name: string, action: ActionId)
    | Wait(action: ActionId)
    | PowerOn(droplet: DropletId)
    | Destroy(snapshot: SnapshotId)

  /** How many times `e` occurs in `log`. */
  function Count(log: seq<Event>, e: Event): nat
  {
    if log == [] then 0
    else Count(log[..|log| - 1], e) + (if log[|log| - 1] == e then 1 else 0)
  }

  lemma {:induction false} CountConcat(a: seq<Event>, b: seq<Event>, e: Event)
    ensures Count(a + b, e) == Count(a, e) + Count(b, e)
    decreases |b|
  {
    if b != [] {
      assert (a + b)[..|a + b| - 1] == a + b[..|b| - 1];
      CountConcat(a, b[..|b| - 1], e);
    } else {
      assert a + b == a;
    }
  }

  /** The provider's answer to the call at position `k` of the log; calls beyond the supplied answers fail. */
  function Reply(replies: seq<bool>, k: nat): bool
  {
    k < |replies| && replies[k]
  }

  /** The provider's answers to `n` calls made from log position `from` on. */
  function Replies(replies: seq<bool>, from: nat, n: nat): (r: seq<bool>)
    ensures |r| == n
    ensures forall i :: 0 <= i < n ==> r[i] == Reply(replies, from + i)
  {
    if n == 0 then [] else Replies(replies, from, n - 1) + [Reply(replies, from + n - 1)]
  }

  class Gateway {
    /** Every call made, in order. */
    var log: seq<Event>
    /** What the provider answers, call by call; a call that returns nothing ignores its entry. */
    const replies: seq<bool>

    constructor (replies: seq<bool>)
      ensures log == [] && this.replies == replies
    {
      log := [];
      this.replies := replies;
    }

    /**
     * `droplet.take_snapshot(name, power_off=True)` followed by
     * `droplet.get_action(...)`: the provider powers the droplet off, starts
     * the snapshot and hands back the action that tracks it. An action is
     * identified by the position of its request in the log.
     */
    method TakeSnapshot(droplet: DropletId, name: string) returns (action: ActionId)
      modifies this
      ensures action == |old(log)|
      ensures log == old(log) + [SnapshotPowerOff(droplet, name, action)]
    {
      action := |log|;
      log := log + [SnapshotPowerOff(droplet, name, action)];
    }

    /** `action.wait(update_every_seconds=3)`: blocks until the action ends; true when it completed. */
    method WaitFor(action: ActionId) returns (done: bool)
      modifies this
      ensures done == Reply(replies, |old(log)|)
      ensures log == old(log) + [Wait(action)]
    {
      done := Reply(replies, |log|);
      log := log + [Wait(action)];
    }

    /** `droplet.power_on()`: true when the provider accepted the request. */
    method PowerOnDroplet(droplet: DropletId) returns (accepted: bool)
      modifies this
      ensures accepted == Reply(replies, |old(log)|)
      ensures log == old(log) + [PowerOn(droplet)]
    {
      accepted := Reply(replies, |log|);
      log := log + [PowerOn(droplet)];
    }

    /** `snapshot.destroy()`: true when the provider deleted the snapshot. */
    method DestroySnapshot(snapshot: SnapshotId) returns (destroyed: bool)
      modifies this
      ensures destroyed == Reply(replies, |old(log)|)
      ensures log == old(log) + [Destroy(snapshot)]
    {
      destroyed := Reply(replies, |log|);
      log := log + [Destroy(snapshot)];
    }
  }
}
