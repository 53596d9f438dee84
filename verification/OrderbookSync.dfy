/** Filtering of incremental updates by their sequence ids, against a snapshot. */
module OrderbookSync {
  import opened RustInt
  import opened OrderBook
  import opened Wrappers

  const RESYNC_SKIP_THRESHOLD: nat := 20
  const RESYNC_COOLDOWN_SECS: nat := 30
  const NANOS_PER_SEC: nat := 1_000_000_000

  datatype Sync = Sync(
    snapshotId: nat,
    lastId: nat,
    synced: bool,
    firstSeen: Option<nat>,
    seen: nat,
    skipped: nat,
    lastAttempt: Option<nat>)

  function FreshSync(snapshotId: nat): Sync {
    Sync(snapshotId, 0, false, None, 0, 0, None)
  }

  /** The state after a batch, and whether the batch is to be applied. */
  function Filtered(s: Sync, b: Batch): (Sync, bool) {
    if !s.synced then
      var s1 := s.(firstSeen := if s.firstSeen.None? then Some(b.firstId) else s.firstSeen, seen := s.seen + 1);
      if b.finalId < s.snapshotId then (s1.(skipped := s.skipped + 1), false)
      else if b.firstId <= s.snapshotId && b.finalId >= s.snapshotId then
        (s1.(synced := true, lastId := b.finalId, skipped := 0), true)
      else (s1.(skipped := s.skipped + 1), false)
    else if b.prevId != 0 && b.prevId != s.lastId then (s.(synced := false, skipped := s.skipped + 1), false)
    else (s.(lastId := b.finalId, skipped := 0), true)
  }

  /** Whether a new snapshot is to be fetched at `now`, in nanoseconds. */
  function Resync(s: Sync, now: nat): (Sync, bool) {
    if s.synced || s.skipped < RESYNC_SKIP_THRESHOLD then (s, false)
    else if s.lastAttempt.Some? && SaturatingSub(now, s.lastAttempt.value) / NANOS_PER_SEC < RESYNC_COOLDOWN_SECS
    then (s, false)
    else (s.(lastAttempt := Some(now)), true)
  }

  class SyncState {
    var snapshotLastUpdateId: nat
    var lastProcessedUpdateId: nat
    var isSynchronized: bool
    var firstUpdateSeen: Option<nat>
    var updatesSinceSnapshot: nat
    var consecutiveSkippedUpdates: nat
    var lastResyncAttempt: Option<nat>

    function Abstract(): Sync
      reads this
    {
      Sync(snapshotLastUpdateId, lastProcessedUpdateId, isSynchronized, firstUpdateSeen,
           updatesSinceSnapshot, consecutiveSkippedUpdates, lastResyncAttempt)
    }

    constructor (snapshotId: nat)
      ensures Abstract() == FreshSync(snapshotId)
    {
      snapshotLastUpdateId := snapshotId;
      lastProcessedUpdateId := 0;
      isSynchronized := false;
      firstUpdateSeen := None;
      updatesSinceSnapshot := 0;
      consecutiveSkippedUpdates := 0;
      lastResyncAttempt := None;
    }

    method ShouldProcessUpdate(b: Batch) returns (process: bool)
      modifies this
      ensures (Abstract(), process) == Filtered(old(Abstract()), b)
    {
      if !isSynchronized {
        if firstUpdateSeen.None? {
          firstUpdateSeen := Some(b.firstId);
        }
        updatesSinceSnapshot := updatesSinceSnapshot + 1;
        if b.finalId < snapshotLastUpdateId {
          consecutiveSkippedUpdates := consecutiveSkippedUpdates + 1;
          return false;
        }
        if b.firstId <= snapshotLastUpdateId && b.finalId >= snapshotLastUpdateId {
          isSynchronized := true;
          lastProcessedUpdateId := b.finalId;
          consecutiveSkippedUpdates := 0;
          return true;
        }
        consecutiveSkippedUpdates := consecutiveSkippedUpdates + 1;
        return false;
      }
      if b.prevId != 0 && b.prevId != lastProcessedUpdateId {
        isSynchronized := false;
        consecutiveSkippedUpdates := consecutiveSkippedUpdates + 1;
        return false;
      }
      lastProcessedUpdateId := b.finalId;
      consecutiveSkippedUpdates := 0;
      return true;
    }

    method ShouldResync(now: nat) returns (resync: bool)
      modifies this`lastResyncAttempt
      ensures (Abstract(), resync) == Resync(old(Abstract()), now)
    {
      if isSynchronized {
        return false;
      }
      if consecutiveSkippedUpdates < RESYNC_SKIP_THRESHOLD {
        return false;
      }
      if lastResyncAttempt.Some? {
        var elapsed := SaturatingSub(now, lastResyncAttempt.value);
        if elapsed / NANOS_PER_SEC < RESYNC_COOLDOWN_SECS {
          return false;
        }
      }
      lastResyncAttempt := Some(now);
      return true;
    }
  }

  // What the counters mean, with the source's numbers written out.

  /** Exactly which batches are applied: the one that straddles the snapshot id, then each that continues the last
      one or does not say what it continues. */
  lemma AcceptsExactly(s: Sync, b: Batch)
    ensures Filtered(s, b).1 <==> if s.synced then b.prevId == 0 || b.prevId == s.lastId
                                  else b.firstId <= s.snapshotId <= b.finalId
    ensures Filtered(s, b).1 ==>
              var s' := Filtered(s, b).0; s'.synced && s'.lastId == b.finalId && s'.skipped == 0
    ensures var s' := Filtered(s, b).0; s'.snapshotId == s.snapshotId && s'.lastAttempt == s.lastAttempt
    ensures var s' := Filtered(s, b).0;
      if s.synced then s'.seen == s.seen && s'.firstSeen == s.firstSeen
      else s'.seen == s.seen + 1 && s'.firstSeen == if s.firstSeen == None then Some(b.firstId) else s.firstSeen
  {
  }

  /** The filter after a stretch of batches. */
  function Through(s: Sync, bs: seq<Batch>): Sync {
    if bs == [] then s else Filtered(Through(s, bs[..|bs| - 1]), bs[|bs| - 1]).0
  }

  predicate NoneAccepted(s: Sync, bs: seq<Batch>) {
    bs == [] || (NoneAccepted(s, bs[..|bs| - 1]) && !Filtered(Through(s, bs[..|bs| - 1]), bs[|bs| - 1]).1)
  }

  lemma SkipIsCounted(s: Sync, b: Batch)
    requires !Filtered(s, b).1
    ensures var s' := Filtered(s, b).0;
      && s'.skipped == s.skipped + 1 && !s'.synced
      && s'.lastId == s.lastId && s'.snapshotId == s.snapshotId && s'.lastAttempt == s.lastAttempt
  {
  }

  /** Each skipped batch is counted, and leaves the filter unsynchronised where it was. */
  lemma {:induction false} SkipsAreCounted(s: Sync, bs: seq<Batch>)
    requires NoneAccepted(s, bs)
    ensures var s' := Through(s, bs);
      && s'.skipped == s.skipped + |bs| && (bs != [] ==> !s'.synced)
      && s'.lastId == s.lastId && s'.snapshotId == s.snapshotId && s'.lastAttempt == s.lastAttempt
    decreases |bs|
  {
    if bs != [] {
      SkipsAreCounted(s, bs[..|bs| - 1]);
      SkipIsCounted(Through(s, bs[..|bs| - 1]), bs[|bs| - 1]);
    }
  }

  /** A snapshot is asked for exactly when unsynchronised, with 20 batches skipped in a row and no attempt in the
      last 30 seconds; the attempt is remembered. */
  lemma ResyncsExactly(s: Sync, now: nat)
    ensures Resync(s, now).1 <==>
              && !s.synced && s.skipped >= 20
              && (s.lastAttempt.Some? ==> now >= s.lastAttempt.value + 30_000_000_000)
    ensures Resync(s, now).0 == if Resync(s, now).1 then s.(lastAttempt := Some(now)) else s
  {
  }

  /** A stretch of skipped batches long enough makes the filter ask for a snapshot. */
  lemma StretchAsksForSnapshot(s: Sync, bs: seq<Batch>, now: nat)
    requires NoneAccepted(s, bs) && s.skipped + |bs| >= 20 && bs != []
    requires s.lastAttempt.Some? ==> now >= s.lastAttempt.value + 30_000_000_000
    ensures Resync(Through(s, bs), now).1
  {
    SkipsAreCounted(s, bs);
    ResyncsExactly(Through(s, bs), now);
  }
}
