/** Where replication stops, and what restarts repeat. */
module ReplicationFailures {
  import opened Basics
  import opened StoreModel
  import opened Wal
  import opened Refusals
  import opened Replication

  // ----- Where replication stops -----

  lemma {:induction false} AllSkipped(codec: Codec, r: Replica, entries: seq<WalEntry>, batchSeen: set<nat>,
                                      appends: nat, now: nat)
    requires forall i :: 0 <= i < |entries| ==> entries[i].timestamp in r.applied
    ensures Process(codec, r, entries, batchSeen, appends, now) == Progress(r, [], true)
    decreases |entries|
  {
    hide Apply, Refused, RawCommand;
    if entries != [] { AllSkipped(codec, r, entries[1..], batchSeen + {entries[0].timestamp}, appends, now); }
  }

  lemma {:induction false} SomeApplied(codec: Codec, r: Replica, entries: seq<WalEntry>, batchSeen: set<nat>,
                                       appends: nat, now: nat, i: nat)
    requires batchSeen <= r.applied && i < |entries| && entries[i].timestamp !in r.applied
    requires Process(codec, r, entries, batchSeen, appends, now).ok
    ensures Process(codec, r, entries, batchSeen, appends, now).commands != []
    decreases |entries|
  {
    hide Apply, Refused, RawCommand;
    if entries[0].timestamp in r.applied {
      SomeApplied(codec, r, entries[1..], batchSeen + {entries[0].timestamp}, appends, now, i - 1);
    }
  }

  /** A successful sync applies something exactly when its batch holds a timestamp not applied before. */
  lemma SyncAdvancesExactlyWhen(codec: Codec, r: Replica, master: seq<WalEntry>, appends: nat, now: nat)
    requires Synced(codec, r, master, appends, now).ok
    ensures var batch := Batch(master, r.index, BATCH_LIMIT);
            Synced(codec, r, master, appends, now).commands != [] <==>
            exists i :: 0 <= i < |batch| && batch[i].timestamp !in r.applied
  {
    hide Process;
    var batch := Batch(master, r.index, BATCH_LIMIT);
    if i :| 0 <= i < |batch| && batch[i].timestamp !in r.applied {
      SomeApplied(codec, r, batch, {}, appends, now, i);
    } else if batch != [] {
      AllSkipped(codec, r, batch, {}, appends, now);
    }
  }

  /** A full batch of timestamps that were all applied before. */
  ghost predicate Stuck(master: seq<WalEntry>, r: Replica) {
    r.index + BATCH_LIMIT <= |master| &&
    forall i :: r.index <= i < r.index + BATCH_LIMIT ==> master[i].timestamp in r.applied
  }

  /** Once a full batch has nothing new, no sync ever applies an entry again in that process, whatever
      the master appends. */
  lemma {:induction false} StuckForever(codec: Codec, c: Cluster, steps: seq<Step>)
    requires Stuck(c.master, c.replica) && NoRestart(steps)
    ensures var d := RunCluster(codec, c, steps);
            Stuck(d.master, d.replica) && d.replica.log == c.replica.log && d.replica.index == c.replica.index
  {
    hide Process, Apply;
    if steps != [] {
      var front := steps[..|steps| - 1];
      StuckForever(codec, c, front);
      var d, step := RunCluster(codec, c, front), steps[|steps| - 1];
      if step.Pull? {
        AllSkipped(codec, d.replica, Batch(d.master, d.replica.index, BATCH_LIMIT), {}, step.appends, step.now);
      }
    }
  }

  /** 101 entries logged within one second are enough: after one successful sync the replica holds the
      first of them and is stuck there. */
  lemma BurstWithinOneSecondSticks(codec: Codec, store: Store, master: seq<WalEntry>, appends: nat, now: nat)
    requires |master| >= BATCH_LIMIT + 1
    requires forall i :: 0 <= i <= BATCH_LIMIT ==> master[i].timestamp == master[0].timestamp
    requires Synced(codec, NewReplica(store), master, appends, now).ok
    ensures var r := Synced(codec, NewReplica(store), master, appends, now).replica;
            r.log == [master[0]] && Stuck(master, r)
  {
    hide Apply, Refused, RawCommand;
    var r, batch := NewReplica(store), master[0..BATCH_LIMIT];
    assert Batch(master, r.index, BATCH_LIMIT) == batch;
    var e := batch[0];
    var c := RawCommand(codec, e.op, now);
    var next := r.(store := Apply(store, c), log := [e], applied := {e.timestamp});
    assert r.log + [e] == [e] && r.applied + {e.timestamp} == {e.timestamp} && {} + {e.timestamp} == {e.timestamp};
    AllSkipped(codec, next, batch[1..], {e.timestamp}, appends - 1, now);
    assert [c] + [] == [c];
    assert Process(codec, r, batch, {}, appends, now) == Progress(next, [c], true);
    var after := Synced(codec, r, master, appends, now).replica;
    assert after.index == 1 && after.applied == {e.timestamp};
    assert e == master[0];
  }

  /** The next entry is one that the store refuses and whose error is passed on. */
  ghost predicate Blocked(codec: Codec, master: seq<WalEntry>, r: Replica, now: nat)
    requires |r.log| < |master|
  {
    ReportsErrors(master[|r.log|].op) && Refused(r.store, RawCommand(codec, master[|r.log|].op, now))
  }

  lemma {:induction false} ReachesNext(codec: Codec, master: seq<WalEntry>, r: Replica, pos: nat, end: nat,
                                       appends: nat, now: nat)
    requires DistinctStamps(master) && Mirroring(master, r, pos) && |r.log| < end <= |master|
    ensures var e, p := master[|r.log|], ProcessUnguarded(codec, r, master[pos..end], appends, now);
            if appends > 0 && !Blocked(codec, master, r, now) then p.commands != []
            else p == Progress(r.(store := Apply(r.store, RawCommand(codec, e.op, now))), [], false)
    decreases end - pos
  {
    hide Stamps, Apply, Refused, RawCommand;
    var entries := master[pos..end];
    assert entries[0] == master[pos] && entries[1..] == master[pos + 1..end];
    if pos < |r.log| {
      ReachesNext(codec, master, r, pos + 1, end, appends, now);
    } else {
      FreshStamp(master, r);
    }
  }

  /** With distinct timestamps, a sync of a lagging replica applies something exactly when its local log
      can be written and its store does not refuse the next entry; otherwise it has tried that entry,
      and log, index, timestamps and lag are as before. */
  lemma SyncProgressesExactlyWhen(codec: Codec, master: seq<WalEntry>, r: Replica, appends: nat, now: nat)
    requires DistinctStamps(master) && Mirrors(master, r) && |r.log| < |master|
    ensures var p := Synced(codec, r, master, appends, now);
            && (p.commands != [] <==> appends > 0 && !Blocked(codec, master, r, now))
            && (p.commands == [] ==>
                  p == Progress(r.(store := Apply(r.store, RawCommand(codec, master[|r.log|].op, now))), [], false))
  {
    hide Process, ProcessUnguarded, Stamps, Apply, Blocked;
    var batch := Batch(master, r.index, BATCH_LIMIT);
    BatchGuardIsRedundant(codec, r, batch, {}, appends, now);
    ReachesNext(codec, master, r, r.index, Min(r.index + BATCH_LIMIT, |master|), appends, now);
  }

  /** A sync that could not apply the next entry, refused or not loggable, leaves the replica as it was
      exactly when the entry's command finds nothing to change. */
  lemma FailedSyncIsCleanExactlyWhen(codec: Codec, master: seq<WalEntry>, r: Replica, appends: nat, now: nat)
    requires DistinctStamps(master) && Mirrors(master, r) && |r.log| < |master|
    requires Synced(codec, r, master, appends, now).commands == []
    ensures Synced(codec, r, master, appends, now).replica == r <==>
            IdleOn(r.store, RawCommand(codec, master[|r.log|].op, now))
  {
    hide Synced, Stamps, RawCommand, Apply, IdleOn, Mirrors;
    SyncProgressesExactlyWhen(codec, master, r, appends, now);
    CommandIsIdleExactlyWhen(r.store, RawCommand(codec, master[|r.log|].op, now));
  }

  /** The next entry's failure leaves the store as it was. */
  ghost predicate BlockedCleanly(config: Config, op: WalOp) {
    op.Mset? && op.pairs != [] ==> !Accepted(config, op.pairs[0].0, Str(op.pairs[0].1))
  }

  function CleanUps(steps: seq<Step>): seq<Command> {
    if steps == [] then []
    else CleanUps(steps[..|steps| - 1]) +
         if steps[|steps| - 1].CleanUp? then [CCleanup(steps[|steps| - 1].at)] else []
  }

  /** The replica of `d` is still blocked at the entry at which that of `c` was blocked. */
  ghost predicate StillBlocked(codec: Codec, c: Cluster, d: Cluster, now: nat) {
    && |c.replica.log| < |c.master| && c.master <= d.master && d.replica == c.replica.(store := d.replica.store)
    && d.replica.store.config == c.replica.store.config
    && Mirrors(d.master, d.replica) && Blocked(codec, d.master, d.replica, now)
  }

  /** No clean-up of the run makes the entry acceptable. */
  ghost predicate NothingUnblocks(codec: Codec, c: Cluster, steps: seq<Step>, op: WalOp) {
    forall i :: 0 <= i < |steps| && steps[i].CleanUp? ==>
      !Unblocks(RunCluster(codec, c, steps[..i]).replica.store, op, steps[i].at)
  }

  /** A blocked replica stays blocked throughout a run without restart, whatever the master appends and
      however often it syncs, exactly when no clean-up makes the entry acceptable. Until then log, index,
      timestamps and lag never change, and only the clean-ups change the store, unless the entry is an
      MSET that is refused after its first pair. */
  lemma {:induction false} BlockedExactlyWhile(codec: Codec, c: Cluster, steps: seq<Step>, now: nat)
    requires NoRestart(steps) && DistinctStamps(RunCluster(codec, c, steps).master)
    requires StillBlocked(codec, c, c, now)
    ensures (forall n :: 0 <= n <= |steps| ==> StillBlocked(codec, c, RunCluster(codec, c, steps[..n]), now))
            <==> NothingUnblocks(codec, c, steps, c.master[|c.replica.log|].op)
    ensures var d := RunCluster(codec, c, steps); var op := c.master[|c.replica.log|].op;
            NothingUnblocks(codec, c, steps, op) ==>
              StillBlocked(codec, c, d, now) &&
              (BlockedCleanly(c.replica.store.config, op) ==> d.replica.store == Run(c.replica.store, CleanUps(steps)))
  {
    var op := c.master[|c.replica.log|].op;
    hide Synced, Stamps, StillBlocked, Run, Unblocks, Apply;
    if steps == [] {
      assert steps[..0] == [];
      NoCommands(c.replica.store);
    } else {
      var m := |steps| - 1;
      var front, step := steps[..m], steps[m];
      var b, d := RunCluster(codec, c, front), RunCluster(codec, c, steps);
      RunOnlyExtendsMaster(codec, c, steps, m);
      forall i, j | 0 <= i < j < |b.master| ensures b.master[i].timestamp != b.master[j].timestamp {
        assert b.master[i] == d.master[i] && b.master[j] == d.master[j];
      }
      BlockedExactlyWhile(codec, c, front, now);
      PrefixesOfRun(codec, c, steps, op, now);
      if StillBlocked(codec, c, b, now) {
        BlockedStep(codec, c, b, step, now);
        if step.CleanUp? {
          RunFront(c.replica.store, CleanUps(front), CCleanup(step.at));
        } else {
          assert CleanUps(front) + [] == CleanUps(front);
        }
      }
    }
  }

  /** Both sides of the equivalence, one step longer. */
  lemma PrefixesOfRun(codec: Codec, c: Cluster, steps: seq<Step>, op: WalOp, now: nat)
    requires steps != []
    ensures var m := |steps| - 1; var front, d := steps[..m], RunCluster(codec, c, steps);
            && ((forall n :: 0 <= n <= |steps| ==> StillBlocked(codec, c, RunCluster(codec, c, steps[..n]), now)) <==>
                (forall n :: 0 <= n <= m ==> StillBlocked(codec, c, RunCluster(codec, c, front[..n]), now)) &&
                StillBlocked(codec, c, d, now))
            && (NothingUnblocks(codec, c, steps, op) <==>
                NothingUnblocks(codec, c, front, op) &&
                (steps[m].CleanUp? ==> !Unblocks(RunCluster(codec, c, front).replica.store, op, steps[m].at)))
            && front[..m] == front
  {
    hide StillBlocked, RunCluster, Unblocks;
    var m := |steps| - 1;
    var front := steps[..m];
    assert steps[..|steps|] == steps;
    assert forall n :: 0 <= n <= m ==> steps[..n] == front[..n];
    assert forall i :: 0 <= i < m ==> steps[i] == front[i];
  }

  /** One step of a blocked replica. */
  lemma BlockedStep(codec: Codec, c: Cluster, b: Cluster, step: Step, now: nat)
    requires StillBlocked(codec, c, b, now) && !step.Restart? && DistinctStamps(b.master)
    ensures var d := Next(codec, b, step); var op := c.master[|c.replica.log|].op;
            && (StillBlocked(codec, c, d, now) <==> (step.CleanUp? ==> !Unblocks(b.replica.store, op, step.at)))
            && (BlockedCleanly(c.replica.store.config, op) && !step.CleanUp? ==> d.replica == b.replica)
            && (step.CleanUp? ==> d.replica.store == Apply(b.replica.store, CCleanup(step.at)))
  {
    hide Synced, Stamps, Refused, RawCommand, Apply, Unblocks;
    var op := c.master[|c.replica.log|].op;
    match step
    case Append(e) => AppendMirrors(b.master, b.replica, e);
    case Pull(appends, at) => BlockedSync(codec, b.master, b.replica, appends, at, now);
    case CleanUp(at) =>
      CleanUpKeepsConfig(b.replica.store, at);
      MirrorsIgnoresStore(b.master, b.replica, Apply(b.replica.store, CCleanup(at)));
      RefusalOutlastsCleanUpExactlyWhen(codec, b.replica.store, op, now, at);
    case _ =>
  }

  lemma BlockedSync(codec: Codec, master: seq<WalEntry>, r: Replica, appends: nat, at: nat, now: nat)
    requires DistinctStamps(master) && Mirrors(master, r) && |r.log| < |master| && Blocked(codec, master, r, now)
    ensures var t := Synced(codec, r, master, appends, at).replica;
            && t == r.(store := t.store) && Mirrors(master, t) && Blocked(codec, master, t, now)
            && t.store.config == r.store.config
            && (BlockedCleanly(r.store.config, master[|r.log|].op) ==> t == r)
  {
    hide Synced, Stamps, Refused, RawCommand, Apply, Accepted;
    var op := master[|r.log|].op;
    SyncProgressesExactlyWhen(codec, master, r, appends, at);
    RefusalIgnoresTime(codec, r.store, op, now, at);
    RefusalIsLasting(codec, r.store, op, at, now);
    RefusedChangesNothingExactlyWhen(r.store, RawCommand(codec, op, at));
    ReportsAreReporting(codec, op, at);
    EntryKeepsConfig(codec, r.store, op, at);
  }

  /** For example, an INCR that the master logged and refused. */
  lemma RefusedIncrBlocks(codec: Codec, master: seq<WalEntry>, r: Replica, key: string, appends: nat, now: nat)
    requires DistinctStamps(master) && Mirrors(master, r) && |r.log| < |master|
    requires master[|r.log|].op == Wal.Incr(key)
    requires key !in r.store.entries || !r.store.entries[key].value.Int?
    ensures Synced(codec, r, master, appends, now) == Progress(r, [], false)
  {
    hide Synced, Stamps, Mirrors;
    SyncProgressesExactlyWhen(codec, master, r, appends, now);
  }

  // ----- Restarts when timestamps are not distinct -----

  /** The positions in a log of the entries that FirstPerTimestamp keeps. */
  ghost function FirstPositions(log: seq<WalEntry>): seq<nat> {
    if log == [] then []
    else
      var n := |log| - 1;
      FirstPositions(log[..n]) + if log[n].timestamp in Stamps(log[..n]) then [] else [n]
  }

  /** They are in rising order, they are the positions whose timestamp does not occur before, and the
      entries at them are the filtered log. */
  lemma {:induction false} FirstPositionsMeaning(log: seq<WalEntry>)
    ensures var ps := FirstPositions(log);
            && |ps| == |FirstPerTimestamp(log)|
            && (forall i :: 0 <= i < |ps| ==> ps[i] < |log| && log[ps[i]] == FirstPerTimestamp(log)[i])
            && (forall i, j :: 0 <= i < j < |ps| ==> ps[i] < ps[j])
            && (forall p: nat :: p in ps <==> p < |log| && log[p].timestamp !in Stamps(log[..p]))
  {
    hide Stamps;
    if log != [] {
      var n := |log| - 1;
      var front := log[..n];
      FirstPositionsMeaning(front);
      FirstPerTimestampStamps(front);
      assert forall p: nat :: p <= n ==> front[..p] == log[..p];
      assert log[..|log|] == log;
    }
  }

  lemma {:induction false} FirstPositionsPrefix(log: seq<WalEntry>, m: nat)
    requires m <= |log|
    ensures FirstPositions(log[..m]) <= FirstPositions(log) && FirstPerTimestamp(log[..m]) <= FirstPerTimestamp(log)
    decreases |log|
  {
    if m == |log| {
      assert log[..m] == log;
    } else {
      assert log[..|log| - 1][..m] == log[..m];
      FirstPositionsPrefix(log[..|log| - 1], m);
    }
  }

  /** Distinct timestamps are all kept. */
  lemma {:induction false} DistinctAreKept(log: seq<WalEntry>)
    requires DistinctStamps(log)
    ensures FirstPerTimestamp(log) == log
  {
    if log != [] {
      var front := log[..|log| - 1];
      DistinctAreKept(front);
      assert log == front + [log[|log| - 1]];
    }
  }

  lemma {:induction false} FilterIsDistinct(log: seq<WalEntry>)
    ensures DistinctStamps(FirstPerTimestamp(log))
  {
    if log != [] { FilterIsDistinct(log[..|log| - 1]); }
  }

  /** Position `p` of the master's log was applied before the restart, and is applied once more after it. */
  ghost predicate AppliedTwice(master: seq<WalEntry>, n: nat, from: nat, end: nat, p: nat)
    requires from <= end <= |master| && n <= |master|
  {
    p in FirstPositions(master[..n]) && from <= p && p - from in FirstPositions(master[from..end])
  }

  /** A replica that started empty is restarted, and runs on for as long as it may: it has logged the filter
      of the first `n` entries before the restart, and of the stretch from the length of that log to `m`
      after it. Some entry was applied twice exactly when some position that was kept before lies in that
      stretch; once the stretch has reached `n`, exactly when the log before was no prefix of the master's. */
  lemma RestartRepeatsExactlyWhen(codec: Codec, first: Store, before: seq<Step>, again: Store, after: seq<Step>)
    returns (n: nat, m: nat)
    requires NoRestart(before) && NoRestart(after)
    ensures var c := RunCluster(codec, Cluster([], NewReplica(first)), before);
            var d := RunCluster(codec, Next(codec, c, Restart(again)), after);
            var log := c.replica.log;
            && c.master <= d.master && |log| <= n <= |c.master| && |log| <= m <= |d.master|
            && log == FirstPerTimestamp(d.master[..n])
            && d.replica.log == log + FirstPerTimestamp(d.master[|log|..m])
            && ((exists p: nat :: AppliedTwice(d.master, n, |log|, m, p)) <==>
                exists p: nat :: p in FirstPositions(d.master[..n]) && |log| <= p < m)
            && (n <= m ==> ((exists p: nat :: AppliedTwice(d.master, n, |log|, m, p)) <==> !(log <= d.master)))
  {
    hide RunCluster, FirstPerTimestamp, FirstPositions, Stamps;
    n := ReplicaIsFilteredPrefix(codec, first, before);
    var c := RunCluster(codec, Cluster([], NewReplica(first)), before);
    m := LifetimeIsFiltered(codec, c, again, after);
    var d := RunCluster(codec, Next(codec, c, Restart(again)), after);
    assert c.master[..n] == d.master[..n];
    RepeatsExactlyWhen(d.master, n, c.replica.log, m);
    RepeatedPositions(d.master, n, |c.replica.log|, m);
  }

  lemma RepeatedPositions(master: seq<WalEntry>, n: nat, from: nat, end: nat)
    requires n <= |master| && from <= end <= |master|
    ensures (exists p: nat :: AppliedTwice(master, n, from, end, p)) <==>
            exists p: nat :: p in FirstPositions(master[..n]) && from <= p < end
  {
    hide FirstPositions, Stamps;
    FirstPositionsMeaning(master[..n]);
    if p: nat :| p in FirstPositions(master[..n]) && from <= p < end {
      assert master[..n][..p] == master[..p] && master[..n][p] == master[p];
      FirstInRest(master, from, end, p);
      assert AppliedTwice(master, n, from, end, p);
    }
    if p: nat :| AppliedTwice(master, n, from, end, p) {
      FirstPositionsMeaning(master[from..end]);
      assert p in FirstPositions(master[..n]) && from <= p < end;
    }
  }

  lemma RepeatsExactlyWhen(master: seq<WalEntry>, n: nat, log: seq<WalEntry>, end: nat)
    requires n <= |master| && |log| <= end <= |master| && log == FirstPerTimestamp(master[..n]) && |log| <= n
    ensures (exists p: nat :: AppliedTwice(master, n, |log|, end, p)) ==> !(log <= master)
    ensures n <= end && !(log <= master) ==> exists p: nat :: AppliedTwice(master, n, |log|, end, p)
  {
    hide Stamps, FirstPositions, FirstPerTimestamp;
    var done, from := master[..n], |log|;
    var ps := FirstPositions(done);
    FirstPositionsMeaning(done);
    if log <= master {
      assert done[..from] == log;
      FilterIsDistinct(done);
      DistinctAreKept(log);
      FirstPositionsPrefix(done, from);
      FirstPositionsMeaning(log);
      assert FirstPositions(log) == ps;
    } else if n <= end {
      var i := LaterPosition(ps, done, log);
      assert ps[i] in ps;
      assert done[..ps[i]] == master[..ps[i]] && done[ps[i]] == master[ps[i]];
      FirstInRest(master, from, end, ps[i]);
      assert AppliedTwice(master, n, from, end, ps[i]);
    }
  }

  /** If no position were beyond the filtered log's length, the filtered log would be a prefix. */
  lemma LaterPosition(ps: seq<nat>, done: seq<WalEntry>, log: seq<WalEntry>) returns (i: nat)
    requires |ps| == |log| <= |done| && !(log <= done)
    requires forall i :: 0 <= i < |ps| ==> ps[i] < |done| && done[ps[i]] == log[i]
    requires forall i, j :: 0 <= i < j < |ps| ==> ps[i] < ps[j]
    ensures i < |ps| && ps[i] >= |log|
  {
    var j :| 0 <= j < |log| && log[j] != done[j];
    RisingIsAtLeast(ps, j);
    i := |ps| - 1;
    RisingFrom(ps, j, i);
  }

  lemma {:induction false} RisingIsAtLeast(ps: seq<nat>, i: nat)
    requires i < |ps| && forall i, j :: 0 <= i < j < |ps| ==> ps[i] < ps[j]
    ensures ps[i] >= i
  {
    if i > 0 { RisingIsAtLeast(ps, i - 1); }
  }

  lemma {:induction false} RisingFrom(ps: seq<nat>, i: nat, j: nat)
    requires i <= j < |ps| && forall i, j :: 0 <= i < j < |ps| ==> ps[i] < ps[j]
    ensures ps[j] - j >= ps[i] - i
  {
    if i < j { RisingFrom(ps, i, j - 1); }
  }

  lemma FirstInRest(master: seq<WalEntry>, from: nat, end: nat, p: nat)
    requires from <= p < end <= |master| && master[p].timestamp !in Stamps(master[..p])
    ensures p - from in FirstPositions(master[from..end])
  {
    hide FirstPositions, FirstPerTimestamp;
    var rest := master[from..end];
    FirstPositionsMeaning(rest);
    assert rest[p - from] == master[p];
    assert rest[..p - from] == master[..p][from..];
  }

  // ----- Catching up when timestamps are not distinct -----

  /** Fewer than a batch of the entries before the last new timestamp repeat an earlier one. */
  ghost predicate FewRepeats(master: seq<WalEntry>) {
    var ps := FirstPositions(master);
    ps == [] || ps[|ps| - 1] - (|ps| - 1) < BATCH_LIMIT
  }

  /** Kept entries before position `n`. */
  ghost function KeptBefore(master: seq<WalEntry>, n: nat): nat
    requires n <= |master|
  {
    |FirstPositions(master[..n])|
  }

  /** The `i`-th kept position is before `n` exactly when more than `i` are. */
  lemma KeptBeforeMeaning(master: seq<WalEntry>, n: nat, i: nat)
    requires n <= |master| && i < |FirstPositions(master)|
    ensures KeptBefore(master, n) <= |FirstPositions(master)|
    ensures FirstPositions(master)[i] < n <==> i < KeptBefore(master, n)
  {
    hide FirstPositions, Stamps;
    var ps, some := FirstPositions(master), FirstPositions(master[..n]);
    FirstPositionsMeaning(master);
    FirstPositionsMeaning(master[..n]);
    FirstPositionsPrefix(master, n);
    forall j | 0 <= j < |some| ensures some[j] == ps[j] && some[j] < n {}
    if ps[i] < n {
      assert master[..n][..ps[i]] == master[..ps[i]] && master[..n][ps[i]] == master[ps[i]];
      assert ps[i] in ps && ps[i] in some;
      var j :| 0 <= j < |some| && some[j] == ps[i];
      assert ps[j] == ps[i];
    }
  }

  /** One successful sync of a replica whose index is the length of its log. */
  lemma DuplicateSync(codec: Codec, master: seq<WalEntry>, r: Replica, n: nat, appends: nat, now: nat) returns (n': nat)
    requires Filtered(master, [], r, n) && r.index == |r.log| && Synced(codec, r, master, appends, now).ok
    ensures var t := Synced(codec, r, master, appends, now).replica;
            && Filtered(master, [], t, n') && t.index == |t.log|
            && n' == Max(n, Min(|r.log| + BATCH_LIMIT, |master|))
            && |r.log| == KeptBefore(master, n) && |t.log| == KeptBefore(master, n')
  {
    hide Synced, FirstPositions, FirstPerTimestamp, Stamps;
    n' := SyncKeepsFiltered(codec, master, [], r, n, appends, now);
    assert master[0..n] == master[..n] && master[0..n'] == master[..n'];
    FirstPositionsMeaning(master[..n]);
    FirstPositionsMeaning(master[..n']);
  }

  /** A successful sync gets past the next new timestamp, or there is none left. */
  lemma FewRepeatsStep(master: seq<WalEntry>, n: nat, n': nat)
    requires FewRepeats(master) && n <= |master| && KeptBefore(master, n) <= n
    requires n' == Max(n, Min(KeptBefore(master, n) + BATCH_LIMIT, |master|))
    ensures KeptBefore(master, n') >= Min(KeptBefore(master, n) + 1, |FirstPositions(master)|)
  {
    hide FirstPositions, KeptBefore, Stamps;
    var ps, done := FirstPositions(master), KeptBefore(master, n);
    FirstPositionsMeaning(master);
    if done < |ps| {
      RisingFrom(ps, done, |ps| - 1);
      KeptBeforeMeaning(master, n', done);
    } else {
      KeptBeforeGrows(master, n, n');
    }
  }

  lemma {:induction false} FewRepeatsCatchUp(codec: Codec, master: seq<WalEntry>, r: Replica, n: nat,
                                             plans: seq<(nat, nat)>)
    requires Filtered(master, [], r, n) && r.index == |r.log| && FewRepeats(master)
    requires |plans| >= |FirstPositions(master)| - KeptBefore(master, n) && |r.log| == KeptBefore(master, n)
    requires SyncAll(codec, r, master, plans).Some?
    ensures |SyncAll(codec, r, master, plans).value.log| >= |FirstPositions(master)|
    decreases |plans|
  {
    hide Synced, FirstPositions, Filtered, KeptBefore, FewRepeats;
    if plans != [] {
      FilteredBounds(master, [], r, n);
      var n' := DuplicateSync(codec, master, r, n, plans[0].0, plans[0].1);
      FewRepeatsStep(master, n, n');
      FewRepeatsCatchUp(codec, master, Synced(codec, r, master, plans[0].0, plans[0].1).replica, n', plans[1..]);
    }
  }

  lemma KeptBeforeGrows(master: seq<WalEntry>, n: nat, m: nat)
    requires n <= m <= |master|
    ensures KeptBefore(master, n) <= KeptBefore(master, m)
  {
    assert master[..m][..n] == master[..n];
    FirstPositionsPrefix(master[..m], n);
  }

  lemma {:induction false} ManyRepeatsStop(codec: Codec, master: seq<WalEntry>, r: Replica, n: nat,
                                           plans: seq<(nat, nat)>, i: nat)
    requires Filtered(master, [], r, n) && r.index == |r.log| && |r.log| == KeptBefore(master, n) && |r.log| <= i
    requires i < |FirstPositions(master)| && FirstPositions(master)[i] - i >= BATCH_LIMIT
    requires SyncAll(codec, r, master, plans).Some?
    ensures |SyncAll(codec, r, master, plans).value.log| <= i
    decreases |plans|
  {
    hide Synced, FirstPositions, Filtered, KeptBefore;
    if plans != [] {
      var t := Synced(codec, r, master, plans[0].0, plans[0].1).replica;
      var n' := DuplicateSync(codec, master, r, n, plans[0].0, plans[0].1);
      FilteredBounds(master, [], r, n);
      KeptBeforeMeaning(master, n, i);
      KeptBeforeMeaning(master, n', i);
      ManyRepeatsStop(codec, master, t, n', plans[1..], i);
    }
  }

  lemma StartIsFiltered(master: seq<WalEntry>, store: Store)
    ensures Filtered(master, [], NewReplica(store), 0) && KeptBefore(master, 0) == 0
  {
    assert master[0..0] == [] && master[..0] == [];
    assert [] + FirstPerTimestamp([]) == [];
  }

  /** For any log, duplicate timestamps included: enough syncs that all succeed bring a new replica of a
      quiescent master to the first entry of every timestamp exactly when fewer than a batch of the
      entries before the last new timestamp repeat an earlier one. */
  lemma CatchesUpExactlyWhen(codec: Codec, store: Store, master: seq<WalEntry>, plans: seq<(nat, nat)>)
    requires SyncAll(codec, NewReplica(store), master, plans).Some? && |plans| >= |FirstPerTimestamp(master)|
    ensures var r := SyncAll(codec, NewReplica(store), master, plans).value;
            r.log == FirstPerTimestamp(master) <==> FewRepeats(master)
  {
    hide SyncAll, FirstPositions, Filtered, KeptBefore, FirstPerTimestamp;
    var r := SyncAll(codec, NewReplica(store), master, plans).value;
    StartIsFiltered(master, store);
    FirstPositionsMeaning(master);
    var m := SyncAllIsFiltered(codec, NewReplica(store), master, 0, plans);
    if FewRepeats(master) {
      FewRepeatsCatchUp(codec, master, NewReplica(store), 0, plans);
    } else {
      ManyRepeatsStop(codec, master, NewReplica(store), 0, plans, |FirstPositions(master)| - 1);
    }
  }

  lemma {:induction false} SyncAllIsFiltered(codec: Codec, r: Replica, master: seq<WalEntry>, n: nat,
                                             plans: seq<(nat, nat)>)
    returns (m: nat)
    requires Filtered(master, [], r, n) && SyncAll(codec, r, master, plans).Some?
    ensures Filtered(master, [], SyncAll(codec, r, master, plans).value, m)
    ensures SyncAll(codec, r, master, plans).value.log <= FirstPerTimestamp(master)
    decreases |plans|
  {
    hide Synced, FirstPerTimestamp, Stamps;
    m := n;
    if plans == [] {
      assert master[0..n] == master[..n] && [] + FirstPerTimestamp(master[..n]) == FirstPerTimestamp(master[..n]);
      FirstPositionsPrefix(master, n);
    } else {
      var next := SyncKeepsFiltered(codec, master, [], r, n, plans[0].0, plans[0].1);
      m := SyncAllIsFiltered(codec, Synced(codec, r, master, plans[0].0, plans[0].1).replica, master, next, plans[1..]);
    }
  }

  /** For example: three entries, the first two of one second. After a restart the third is applied again. */
  lemma RestartRepeatsThird(codec: Codec, store: Store, again: Store, key: string, now: nat)
    ensures var a, b, c := WalEntry(1, Wal.Delete(key)), WalEntry(1, Wal.Persist(key)), WalEntry(2, Wal.Delete(key));
            var r := Synced(codec, NewReplica(store), [a, b, c], 3, now).replica;
            r.log == [a, c] && Synced(codec, Restarted(r, again), [a, b, c], 3, now).replica.log == [a, c, c]
  {
    hide Apply, Refused;
    var a, b, c := WalEntry(1, Wal.Delete(key)), WalEntry(1, Wal.Persist(key)), WalEntry(2, Wal.Delete(key));
    var master, ra := [a, b, c], RawCommand(codec, a.op, now);
    var r0 := NewReplica(store);
    var r1 := Replica(Apply(store, ra), [a], 0, {1}, 0);
    var r2 := Replica(Apply(r1.store, ra), [a, c], 0, {1, 2}, 0);
    assert master[1..] == [b, c] && [b, c][1..] == [c] && [c][1..] == [];
    assert Batch(master, 0, BATCH_LIMIT) == master && Batch(master, 2, BATCH_LIMIT) == [c];
    assert [] + [a] == [a] && [a] + [c] == [a, c] && [a, c] + [c] == [a, c, c];
    assert {} + {1} == {1} && {1} + {2} == {1, 2};
    assert Process(codec, r2, [], {1, 2}, 1, now) == Progress(r2, [], true);
    assert Process(codec, r1, [c], {1}, 2, now) == Progress(r2, [ra], true);
    assert Process(codec, r1, [b, c], {1}, 2, now) == Progress(r2, [ra], true);
    assert Process(codec, r0, master, {}, 3, now) == Progress(r2, [ra, ra], true);
    var r := Synced(codec, r0, master, 3, now).replica;
    assert r.log == [a, c];
    var r3 := Restarted(r, again);
    var r4 := Replica(Apply(again, ra), [a, c, c], 2, {2}, 0);
    assert Process(codec, r4, [], {2}, 2, now) == Progress(r4, [], true);
    assert Process(codec, r3, [c], {}, 3, now) == Progress(r4, [ra], true);
  }
}
