/**
 * The naming scheme of automatic backups: a snapshot of droplet `n` taken at
 * `t` is called `n--auto-backup--YYYY-MM-DD HH:MM:SS`, and the retention scan
 * reads the time back from whatever follows the FIRST `--auto-backup--` in a
 * snapshot's name.
 */
module SnapshotNames {
  import opened Wrappers
  import opened Timestamps

  /** The marker that separates the droplet name from the capture time. */
  const MARKER := "--auto-backup--"

  predicate OccursAt(s: string, m: string, i: int)
  {
    0 <= i && i + |m| <= |s| && s[i..i + |m|] == m
  }

  /** Python's `m in s`. */
  ghost predicate Contains(s: string, m: string)
  {
    exists i :: OccursAt(s, m, i)
  }

  function FindFrom(s: string, m: string, i: nat): (r: int)
    ensures r == -1 || (i <= r && OccursAt(s, m, r))
    ensures forall k :: i <= k && (r == -1 || k < r) ==> !OccursAt(s, m, k)
    decreases |s| - i
  {
    if i + |m| > |s| then -1
    else if s[i..i + |m|] == m then i
    else FindFrom(s, m, i + 1)
  }

  /** Python's `s.find(m)`: where `m` first occurs in `s`, or -1 when it does not occur. */
  function Find(s: string, m: string): (r: int)
    ensures r == -1 <==> !Contains(s, m)
    ensures r != -1 ==> OccursAt(s, m, r) && forall k :: 0 <= k < r ==> !OccursAt(s, m, k)
  {
    FindFrom(s, m, 0)
  }

  /** The name `start_backup` gives the snapshot of droplet `dropletName` captured at `t`. */
  function SnapshotName(dropletName: string, t: DateTime): (r: string)
    ensures |r| == |dropletName| + |MARKER| + 19
  {
    dropletName + MARKER + Format(t)
  }

  /** What the retention scan parses: everything after the first marker. */
  function Suffix(name: string): (r: string)
    requires Find(name, MARKER) != -1
    ensures |r| <= |name| - |MARKER|
  {
    name[Find(name, MARKER) + |MARKER|..]
  }

  // ---------------------------------------------------------------------------
  // Where the scan finds the marker in a generated name

  /**
   * The scan finds the marker of a generated name where the droplet name ends,
   * exactly when the marker does not already occur in the droplet name followed
   * by the first 14 characters of the marker; otherwise it finds it earlier.
   */
  lemma MarkerPosition(n: string, t: DateTime)
    requires Valid(t)
    ensures 0 <= Find(SnapshotName(n, t), MARKER) <= |n|
    ensures Find(SnapshotName(n, t), MARKER) == |n| <==> !Contains(n + MARKER[..14], MARKER)
  {
    var name := SnapshotName(n, t);
    var head := n + MARKER[..14];
    assert OccursAt(name, MARKER, |n|) by { assert name[|n|..|n| + 15] == MARKER; }
    assert name[..|n| + 14] == head;
    forall i | 0 <= i < |n|
      ensures OccursAt(name, MARKER, i) <==> OccursAt(head, MARKER, i)
    {
      assert name[i..i + 15] == head[i..i + 15] by {
        assert name[..|n| + 14][i..i + 15] == name[i..i + 15];
      }
    }
    if Contains(head, MARKER) {
      var i :| OccursAt(head, MARKER, i);
      assert i < |n| && OccursAt(name, MARKER, i);
    }
  }

  /** When the marker lies where the droplet name ends, the generated name reads back as `t`. */
  lemma RoundTrip(n: string, t: DateTime)
    requires Valid(t)
    requires !Contains(n + MARKER[..14], MARKER)
    ensures Find(SnapshotName(n, t), MARKER) == |n|
    ensures ParseStamp(Suffix(SnapshotName(n, t))) == Some(t)
  {
    MarkerPosition(n, t);
    assert Suffix(SnapshotName(n, t)) == Format(t);
    ParseFormat(t);
  }

  /**
   * When the marker turns up earlier, the text after it still holds a letter
   * of the real marker, so it never parses: the scan of a listing that holds
   * such a name fails.
   */
  lemma RoundTripFails(n: string, t: DateTime)
    requires Valid(t)
    requires Contains(n + MARKER[..14], MARKER)
    ensures 0 <= Find(SnapshotName(n, t), MARKER) < |n|
    ensures ParseStamp(Suffix(SnapshotName(n, t))) == None
  {
    MarkerPosition(n, t);
    EarlyMarkerSpoils(n, Format(t), Find(SnapshotName(n, t), MARKER));
  }

  /** What follows a marker found inside the droplet name never parses, whatever comes after the real marker. */
  lemma EarlyMarkerSpoils(n: string, rest: string, i: nat)
    requires i < |n| && OccursAt(n + MARKER + rest, MARKER, i)
    ensures ParseStamp((n + MARKER + rest)[i + |MARKER|..]) == None
  {
    var name := n + MARKER + rest;
    var s := name[i + 15..];
    assert name[|n|..|n| + 15] == MARKER;
    if i + 15 <= |n| {
      assert name[|n| + 2] == MARKER[2] == 'a';
      Unparsable(s, |n| + 2 - (i + 15));
    } else {
      // the two markers overlap; the earlier one still holds its 'a', so it
      // starts at least three characters before the droplet name ends
      assert name[i + 2] == MARKER[2] == 'a';
      assert name[|n| + 12] == MARKER[12] == 'p';
      Unparsable(s, |n| + 12 - (i + 15));
    }
  }

  lemma Unparsable(s: string, k: nat)
    requires k < |s| && (!StampChar(s[k]) || (k == 0 && !IsDigit(s[0])))
    ensures ParseStamp(s) == None
  {
    if ParseStamp(s).Some? {
      ParsedText(s);
    }
  }

  /** The name a backup is given reads back as its capture time exactly when the droplet name does not spoil the marker. */
  lemma RoundTripIff(n: string, t: DateTime)
    requires Valid(t)
    ensures 0 <= Find(SnapshotName(n, t), MARKER) <= |n|
    ensures ParseStamp(Suffix(SnapshotName(n, t))) == Some(t) <==> !Contains(n + MARKER[..14], MARKER)
  {
    MarkerPosition(n, t);
    if Contains(n + MARKER[..14], MARKER) {
      RoundTripFails(n, t);
    } else {
      RoundTrip(n, t);
    }
  }
}
