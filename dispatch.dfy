/**
  The bookkeeping both `main` loops share: the completion order of the
  submitted work, and the 1000-item checkpoint schedule on which the
  accumulator so far is saved to `temp_data.csv`.
 */
module Dispatch {

  /** `batch_size` in the threaded variant; the literal 1000 in the delegated one. */
  const BatchSize := 1000

  /** A snapshot is saved after the `count`-th item (counting from 1) out of `total`. */
  predicate IsCheckpoint(count: nat, total: nat) {
    count % BatchSize == 0 || count == total
  }

  /**
    The item counts among 1..m after which a snapshot is saved, in the order
    the snapshots are taken.
   */
  function Checkpoints(m: nat, total: nat): (r: seq<nat>)
    ensures forall j :: 0 <= j < |r| ==> 1 <= r[j] <= m && IsCheckpoint(r[j], total)
    ensures forall i, j :: 0 <= i < j < |r| ==> r[i] < r[j]
    ensures forall c :: 1 <= c <= m && IsCheckpoint(c, total) ==> c in r
  {
    if m == 0 then []
    else Checkpoints(m - 1, total) + (if IsCheckpoint(m, total) then [m] else [])
  }

  /** The last item always triggers a snapshot, and it is the last one taken. */
  lemma LastItemCheckpoints(total: nat)
    requires total > 0
    ensures var r := Checkpoints(total, total); |r| > 0 && r[|r| - 1] == total
  {
    assert IsCheckpoint(total, total);
  }

  /** Before the last item, exactly one snapshot is taken per full batch of 1000. */
  lemma {:induction false} CheckpointCount(m: nat, total: nat)
    requires m < total
    ensures |Checkpoints(m, total)| == m / BatchSize
  {
    if m > 0 {
      CheckpointCount(m - 1, total);
      assert IsCheckpoint(m, total) <==> m % BatchSize == 0;
    }
  }

  /**
    `order` lists each of the positions 0..n-1 exactly once: the order in which
    the submitted tasks complete.
   */
  predicate IsPermutation(order: seq<nat>, n: nat) {
    && |order| == n
    && (forall j :: 0 <= j < n ==> order[j] < n)
    && (forall i, j :: 0 <= i < j < n ==> order[i] != order[j])
    && (forall k :: 0 <= k < n ==> k in order)
  }

  /** The saved snapshots: after each checkpoint count `c`, the first `c` accumulated items. */
  function Snapshots<T>(acc: seq<T>, counts: seq<nat>): seq<seq<T>>
    requires forall j :: 0 <= j < |counts| ==> counts[j] <= |acc|
  {
    if counts == [] then []
    else Snapshots(acc, counts[..|counts| - 1]) + [acc[..counts[|counts| - 1]]]
  }

  /** Items accumulated later do not change the snapshots already saved. */
  lemma {:induction false} SnapshotsExtend<T>(acc: seq<T>, more: seq<T>, counts: seq<nat>)
    requires forall j :: 0 <= j < |counts| ==> counts[j] <= |acc|
    ensures Snapshots(acc + more, counts) == Snapshots(acc, counts)
    decreases |counts|
  {
    if counts != [] {
      var c := counts[|counts| - 1];
      assert (acc + more)[..c] == acc[..c];
      SnapshotsExtend(acc, more, counts[..|counts| - 1]);
    }
  }

  /** One snapshot per checkpoint; each holds as many items as its count. */
  lemma {:induction false} SnapshotSizes<T>(acc: seq<T>, counts: seq<nat>)
    requires forall j :: 0 <= j < |counts| ==> counts[j] <= |acc|
    ensures |Snapshots(acc, counts)| == |counts|
    ensures forall s :: 0 <= s < |counts| ==> Snapshots(acc, counts)[s] == acc[..counts[s]]
    decreases |counts|
  {
    if counts != [] {
      SnapshotSizes(acc, counts[..|counts| - 1]);
    }
  }
}
