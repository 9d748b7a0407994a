/** Log-shipping replication: a replica pulls batches of the master's log from an index, skips entries
    by timestamp, applies the rest to its store and its own log, and may fail in the middle of a batch. */
module Replication {
  import opened Basics
  import opened StoreModel
  import opened KvStores
  import opened Wal
  import opened Refusals
  import EntryMeanings

  const BATCH_LIMIT: nat := 100

  /** The entries that the master serves from an index. */
  function Batch(master: seq<WalEntry>, from: nat, limit: nat): (batch: seq<WalEntry>)
    ensures |batch| <= limit && (|batch| < limit ==> |master| <= from + |batch|)
    ensures from <= |master| ==> master[..from] + batch <= master
  {
    if from >= |master| then [] else master[from..Min(from + limit, |master|)]
  }

  /** What a reader gets that pulls batch after batch, each from where the last one ended. */
  function PulledFrom(master: seq<WalEntry>, from: nat, limit: nat): seq<WalEntry>
    requires limit > 0
    decreases |master| - from
  {
    var batch := Batch(master, from, limit);
    if batch == [] then [] else batch + PulledFrom(master, from + |batch|, limit)
  }

  /** Batch after batch from any index makes up the log from there, without gap or overlap. */
  lemma {:induction false} BatchesAddUp(master: seq<WalEntry>, from: nat, limit: nat)
    requires limit > 0 && from <= |master|
    ensures PulledFrom(master, from, limit) == master[from..]
    decreases |master| - from
  {
    if from < |master| { BatchesAddUp(master, from + |Batch(master, from, limit)|, limit); }
  }

  /** A replica process: its store, its own log, the index it pulls from, the timestamps it has applied
      since it started, and the lag it last reported. */
  datatype Replica = Replica(store: Store, log: seq<WalEntry>, index: nat, applied: set<nat>, lag: nat)

  /** What working through a batch leaves: the replica, the commands applied and logged, and success. */
  datatype Progress = Progress(replica: Replica, commands: seq<Command>, ok: bool)

  /** Works through the entries. `appends` is the number of local log appends that succeed before an
      I/O error; an entry whose command is refused, or whose append fails, ends the batch. */
  ghost function Process(codec: Codec, r: Replica, entries: seq<WalEntry>,
                         batchSeen: set<nat>, appends: nat, now: nat): Progress
    decreases |entries|
  {
    if entries == [] then Progress(r, [], true)
    else
      var e, rest := entries[0], entries[1..];
      if e.timestamp in batchSeen || e.timestamp in r.applied then
        Process(codec, r, rest, batchSeen + {e.timestamp}, appends, now)
      else
        var c := RawCommand(codec, e.op, now);
        var changed := r.(store := Apply(r.store, c));
        if (ReportsErrors(e.op) && Refused(r.store, c)) || appends == 0 then Progress(changed, [], false)
        else
          var more := Process(codec, changed.(log := r.log + [e], applied := r.applied + {e.timestamp}), rest,
                              batchSeen + {e.timestamp}, appends - 1, now);
          more.(commands := [c] + more.commands)
  }

  /** One sync that reaches the master. The index moves by the number of entries applied. */
  ghost function Synced(codec: Codec, r: Replica, master: seq<WalEntry>, appends: nat, now: nat): Progress {
    var batch := Batch(master, r.index, BATCH_LIMIT);
    if batch == [] then Progress(r.(lag := MonusNat(|master|, r.index)), [], true)
    else
      var p := Process(codec, r, batch, {}, appends, now);
      if !p.ok then p
      else
        var index := r.index + |p.commands|;
        p.(replica := p.replica.(index := index, lag := MonusNat(|master|, index)))
  }

  /** A restart keeps the log, takes its length as the index and forgets the timestamps. */
  function Restarted(r: Replica, store: Store): Replica { Replica(store, r.log, |r.log|, {}, 0) }

  // ----- The process as an object -----

  class ReplicationReplica {
    const store: KvStore
    var log: seq<WalEntry>
    var lastAppliedIndex: nat
    var appliedTimestamps: set<nat>
    var lagEntries: nat

    ghost function Model(): Replica
      reads this, store
    {
      Replica(store.Model(), log, lastAppliedIndex, appliedTimestamps, lagEntries)
    }

    constructor (store: KvStore, localLog: seq<WalEntry>)
      ensures this.store == store
      ensures Model() == Restarted(Replica(store.Model(), localLog, 0, {}, 0), store.Model())
    {
      this.store, log, lastAppliedIndex := store, localLog, |localLog|;
      appliedTimestamps, lagEntries := {}, 0;
    }

    /** Applies an entry to the store and, if that is not refused, appends it to the local log. */
    method ApplyWalEntry(codec: Codec, e: WalEntry, appendWorks: bool, now: nat) returns (ok: bool)
      modifies this`log, store`entries, store`stats, store`lruOrder, store`queue, store`events, store`config
      ensures var c := RawCommand(codec, e.op, now);
              && store.Model() == Apply(old(store.Model()), c)
              && ok == (!(ReportsErrors(e.op) && Refused(old(store.Model()), c)) && appendWorks)
      ensures log == if ok then old(log) + [e] else old(log)
      ensures old(store.queue).None? ==>
                && EntryMeanings.DoneBy(codec, old(store.Model()), e.op, now, store.Model())
                && (ok <==> appendWorks && !EntryMeanings.Blocks(old(store.Model()), e.op))
    {
      hide Apply, Refused, RawCommand, EntryMeanings.DoneBy, EntryMeanings.Blocks;
      if store.queue.None? {
        EntryMeanings.EntryIsDone(codec, store.Model(), e.op, now);
        EntryMeanings.BlocksExactlyWhen(codec, store.Model(), e.op, now);
      }
      var refused := Execute(store, RawCommand(codec, e.op, now), now);
      if ReportsErrors(e.op) && refused {
        return false;
      }
      if !appendWorks {
        return false;
      }
      log := log + [e];
      ok := true;
    }

    /** One sync; `appends` local log appends succeed before an I/O error. */
    method Sync(codec: Codec, master: seq<WalEntry>, appends: nat, now: nat)
      returns (ok: bool, ghost done: seq<Command>)
      modifies this, store`entries, store`stats, store`lruOrder, store`queue, store`events, store`config
      ensures Progress(Model(), done, ok) == Synced(codec, old(Model()), master, appends, now)
    {
      hide Apply, Refused, RawCommand, Process, Pending;
      var entries := Batch(master, lastAppliedIndex, BATCH_LIMIT);
      done := [];
      if entries == [] {
        lagEntries := MonusNat(|master|, lastAppliedIndex);
        return true, done;
      }
      ghost var whole := Process(codec, Model(), entries, {}, appends, now);
      PendingAtStart(codec, Model(), entries, appends, now);
      var batchSeen: set<nat> := {};
      var appliedCount := 0;
      for i := 0 to |entries|
        invariant appliedCount == |done| <= appends
        invariant lastAppliedIndex == old(lastAppliedIndex) && lagEntries == old(lagEntries)
        invariant Pending(codec, whole, done, Model(), entries, i, batchSeen, appends - appliedCount, now)
      {
        var e := entries[i];
        PendingStep(codec, whole, done, Model(), entries, i, batchSeen, appends - appliedCount, now);
        var duplicate := e.timestamp in batchSeen;
        batchSeen := batchSeen + {e.timestamp};
        if duplicate {
          continue;
        }
        if e.timestamp in appliedTimestamps {
          continue;
        }
        ghost var c := RawCommand(codec, e.op, now);
        var applied := ApplyWalEntry(codec, e, appliedCount < appends, now);
        if !applied {
          return false, done;
        }
        appliedTimestamps := appliedTimestamps + {e.timestamp};
        done := done + [c];
        appliedCount := appliedCount + 1;
      }
      PendingAtEnd(codec, whole, done, Model(), entries, batchSeen, appends - appliedCount, now);
      lastAppliedIndex := lastAppliedIndex + appliedCount;
      lagEntries := MonusNat(|master|, lastAppliedIndex);
      ok := true;
    }
  }

  /** After `done`, with the entries from `i` on still to come, the batch will end as `whole`. */
  ghost predicate Pending(codec: Codec, whole: Progress, done: seq<Command>, r: Replica, entries: seq<WalEntry>, i: nat,
                          batchSeen: set<nat>, appends: nat, now: nat)
    requires i <= |entries|
  {
    var rest := Process(codec, r, entries[i..], batchSeen, appends, now);
    whole == rest.(commands := done + rest.commands)
  }

  lemma PendingAtStart(codec: Codec, r: Replica, entries: seq<WalEntry>, appends: nat, now: nat)
    ensures Pending(codec, Process(codec, r, entries, {}, appends, now), [], r, entries, 0, {}, appends, now)
  {
    hide Process;
    assert entries[0..] == entries;
    var rest := Process(codec, r, entries, {}, appends, now);
    assert [] + rest.commands == rest.commands;
  }

  lemma PendingAtEnd(codec: Codec, whole: Progress, done: seq<Command>, r: Replica, entries: seq<WalEntry>,
                     batchSeen: set<nat>, appends: nat, now: nat)
    requires Pending(codec, whole, done, r, entries, |entries|, batchSeen, appends, now)
    ensures whole == Progress(r, done, true)
  {
    assert entries[|entries|..] == [];
    assert done + [] == done;
  }

  lemma PendingStep(codec: Codec, whole: Progress, done: seq<Command>, r: Replica, entries: seq<WalEntry>, i: nat,
                    batchSeen: set<nat>, appends: nat, now: nat)
    requires i < |entries| && Pending(codec, whole, done, r, entries, i, batchSeen, appends, now)
    ensures var e := entries[i];
            var c, seen := RawCommand(codec, e.op, now), batchSeen + {e.timestamp};
            var changed := r.(store := Apply(r.store, c));
            if e.timestamp in batchSeen || e.timestamp in r.applied
            then Pending(codec, whole, done, r, entries, i + 1, seen, appends, now)
            else if (ReportsErrors(e.op) && Refused(r.store, c)) || appends == 0
            then whole == Progress(changed, done, false)
            else Pending(codec, whole, done + [c],
                         changed.(log := r.log + [e], applied := r.applied + {e.timestamp}),
                         entries, i + 1, seen, appends - 1, now)
  {
    hide Apply, Refused, RawCommand;
    var e := entries[i];
    assert entries[i..][0] == e && entries[i..][1..] == entries[i + 1..];
    assert done + [] == done;
    var c, rest := RawCommand(codec, e.op, now), Process(codec, r, entries[i..], batchSeen, appends, now);
    if rest.commands != [] { assert rest.commands == [rest.commands[0]] + rest.commands[1..]; }
    if !(e.timestamp in batchSeen || e.timestamp in r.applied) &&
       !((ReportsErrors(e.op) && Refused(r.store, c)) || appends == 0) {
      assert rest.commands == [c] + rest.commands[1..];
      assert done + rest.commands == (done + [c]) + rest.commands[1..];
    }
  }

  // ----- What a sync does -----

  /** The stores through which the entries lead, one after the other. */
  ghost predicate DoneInTurn(codec: Codec, stores: seq<Store>, entries: seq<WalEntry>, now: nat) {
    |stores| == |entries| + 1 &&
    forall i :: 0 <= i < |entries| ==> EntryMeanings.DoneBy(codec, stores[i], entries[i].op, now, stores[i + 1])
  }

  lemma DoneInTurnFront(codec: Codec, first: Store, e: WalEntry, stores: seq<Store>, entries: seq<WalEntry>, now: nat)
    requires DoneInTurn(codec, stores, entries, now) && EntryMeanings.DoneBy(codec, first, e.op, now, stores[0])
    ensures DoneInTurn(codec, [first] + stores, [e] + entries, now)
  {
    hide EntryMeanings.DoneBy;
  }

  lemma {:induction false} ProcessDoesEntries(codec: Codec, r: Replica, entries: seq<WalEntry>, seen: set<nat>,
                                              appends: nat, now: nat)
    returns (kept: seq<WalEntry>, stores: seq<Store>)
    requires r.store.queue.None?
    ensures var p := Process(codec, r, entries, seen, appends, now);
            && p.replica.log == r.log + kept && |kept| == |p.commands| && DoneInTurn(codec, stores, kept, now)
            && stores[0] == r.store && (p.ok ==> stores[|kept|] == p.replica.store)
            && (!p.ok ==> exists e ::
                  e in entries && EntryMeanings.DoneBy(codec, stores[|kept|], e.op, now, p.replica.store))
    decreases |entries|
  {
    hide Apply, Refused, RawCommand, EntryMeanings.DoneBy;
    kept, stores := [], [r.store];
    if entries != [] {
      var e, rest := entries[0], entries[1..];
      assert entries == [e] + rest;
      var c := RawCommand(codec, e.op, now);
      EntryMeanings.EntryIsDone(codec, r.store, e.op, now);
      EntryMeanings.DoneByKeepsQueue(codec, r.store, e.op, now, Apply(r.store, c));
      if e.timestamp in seen || e.timestamp in r.applied {
        kept, stores := ProcessDoesEntries(codec, r, rest, seen + {e.timestamp}, appends, now);
      } else if !((ReportsErrors(e.op) && Refused(r.store, c)) || appends == 0) {
        var next := r.(store := Apply(r.store, c), log := r.log + [e], applied := r.applied + {e.timestamp});
        var more, after := ProcessDoesEntries(codec, next, rest, seen + {e.timestamp}, appends - 1, now);
        DoneInTurnFront(codec, r.store, e, after, more, now);
        kept, stores := [e] + more, [r.store] + after;
      }
    }
  }

  /** A sync carries out the entries that it adds to the log, in order, each as what it stands for; a failed
      one has besides tried one entry of the master's that it did not log. */
  lemma SyncDoesEntries(codec: Codec, r: Replica, master: seq<WalEntry>, appends: nat, now: nat)
    returns (kept: seq<WalEntry>, stores: seq<Store>)
    requires r.store.queue.None?
    ensures var p := Synced(codec, r, master, appends, now);
            && p.replica.log == r.log + kept && DoneInTurn(codec, stores, kept, now)
            && stores[0] == r.store && (p.ok ==> stores[|kept|] == p.replica.store)
            && (!p.ok ==> exists e ::
                  e in master && EntryMeanings.DoneBy(codec, stores[|kept|], e.op, now, p.replica.store))
  {
    hide Process, EntryMeanings.DoneBy;
    var batch := Batch(master, r.index, BATCH_LIMIT);
    kept, stores := [], [r.store];
    if batch != [] {
      kept, stores := ProcessDoesEntries(codec, r, batch, {}, appends, now);
      assert forall e :: e in batch ==> e in master;
    }
  }

  // ----- The guard within a batch -----

  ghost function ProcessUnguarded(codec: Codec, r: Replica, entries: seq<WalEntry>, appends: nat, now: nat): Progress
    decreases |entries|
  {
    if entries == [] then Progress(r, [], true)
    else
      var e, rest := entries[0], entries[1..];
      if e.timestamp in r.applied then ProcessUnguarded(codec, r, rest, appends, now)
      else
        var c := RawCommand(codec, e.op, now);
        var changed := r.(store := Apply(r.store, c));
        if (ReportsErrors(e.op) && Refused(r.store, c)) || appends == 0 then Progress(changed, [], false)
        else
          var more := ProcessUnguarded(codec, changed.(log := r.log + [e], applied := r.applied + {e.timestamp}),
                                       rest, appends - 1, now);
          more.(commands := [c] + more.commands)
  }

  /** The guard against duplicates within a batch never changes the outcome. */
  lemma {:induction false} BatchGuardIsRedundant(codec: Codec, r: Replica, entries: seq<WalEntry>, batchSeen: set<nat>,
                                                 appends: nat, now: nat)
    requires batchSeen <= r.applied
    ensures Process(codec, r, entries, batchSeen, appends, now) == ProcessUnguarded(codec, r, entries, appends, now)
    decreases |entries|
  {
    hide Apply, Refused, RawCommand;
    if entries != [] {
      var e, rest := entries[0], entries[1..];
      var c := RawCommand(codec, e.op, now);
      if e.timestamp in r.applied {
        BatchGuardIsRedundant(codec, r, rest, batchSeen + {e.timestamp}, appends, now);
      } else if !(ReportsErrors(e.op) && Refused(r.store, c)) && appends > 0 {
        BatchGuardIsRedundant(codec, r.(store := Apply(r.store, c),
                                         log := r.log + [e], applied := r.applied + {e.timestamp}),
                              rest, batchSeen + {e.timestamp}, appends - 1, now);
      }
    }
  }

  // ----- Steps of a master and a replica -----

  datatype Cluster = Cluster(master: seq<WalEntry>, replica: Replica)

  datatype Step =
    | Append(e: WalEntry)                // the master logs an entry
    | Pull(appends: nat, now: nat)       // a sync, with the I/O budget of the local log
    | Unreachable                        // a sync that fails before any entry arrives
    | CleanUp(at: nat)                   // the replica's background clean-up of expired keys
    | Restart(store: Store)              // the replica process starts again with this store

  ghost function Next(codec: Codec, c: Cluster, step: Step): Cluster {
    match step
    case Append(e) => c.(master := c.master + [e])
    case Pull(appends, now) => c.(replica := Synced(codec, c.replica, c.master, appends, now).replica)
    case Unreachable => c
    case CleanUp(at) => c.(replica := c.replica.(store := Apply(c.replica.store, CCleanup(at))))
    case Restart(store) => c.(replica := Restarted(c.replica, store))
  }

  ghost function RunCluster(codec: Codec, c: Cluster, steps: seq<Step>): Cluster {
    if steps == [] then c else Next(codec, RunCluster(codec, c, steps[..|steps| - 1]), steps[|steps| - 1])
  }

  function NewReplica(store: Store): Replica { Replica(store, [], 0, {}, 0) }

  ghost function Stamps(log: seq<WalEntry>): set<nat> { set e | e in log :: e.timestamp }

  lemma StampsAppend(log: seq<WalEntry>, e: WalEntry)
    ensures Stamps(log + [e]) == Stamps(log) + {e.timestamp}
  {
    assert forall x :: x in log + [e] <==> x in log || x == e;
    assert e in log + [e];
  }

  // ----- Safety for any log, duplicate timestamps included -----

  /** The first entry of each timestamp, in order. */
  ghost function FirstPerTimestamp(log: seq<WalEntry>): seq<WalEntry> {
    if log == [] then []
    else
      var before, e := FirstPerTimestamp(log[..|log| - 1]), log[|log| - 1];
      if e.timestamp in Stamps(before) then before else before + [e]
  }

  lemma {:induction false} FirstPerTimestampStamps(log: seq<WalEntry>)
    ensures Stamps(FirstPerTimestamp(log)) == Stamps(log) && |FirstPerTimestamp(log)| <= |log|
  {
    if log != [] {
      var front, e := log[..|log| - 1], log[|log| - 1];
      FirstPerTimestampStamps(front);
      StampsAppend(front, e);
      StampsAppend(FirstPerTimestamp(front), e);
      assert log == front + [e];
    }
  }

  /** The replica process started with the local log `base`. Since then it has worked through the entries
      of the master's log from |base| to `n`, and logged the first of each timestamp among them. */
  ghost predicate Filtered(master: seq<WalEntry>, base: seq<WalEntry>, r: Replica, n: nat) {
    |base| <= n <= |master| && r.log == base + FirstPerTimestamp(master[|base|..n]) &&
    r.applied == Stamps(FirstPerTimestamp(master[|base|..n])) && |base| <= r.index <= |r.log| <= n
  }

  lemma FilteredNext(master: seq<WalEntry>, base: seq<WalEntry>, r: Replica, n: nat)
    requires Filtered(master, base, r, n) && n < |master|
    ensures master[n].timestamp in r.applied ==> Filtered(master, base, r, n + 1)
    ensures master[n].timestamp !in r.applied ==>
              Filtered(master, base, r.(log := r.log + [master[n]], applied := r.applied + {master[n].timestamp}),
                       n + 1)
  {
    var done, next := master[|base|..n], master[|base|..n + 1];
    assert next[..|next| - 1] == done && next[|next| - 1] == master[n];
    StampsAppend(FirstPerTimestamp(done), master[n]);
    Regroup(base, FirstPerTimestamp(done), [master[n]]);
  }

  lemma FilteredSkips(master: seq<WalEntry>, base: seq<WalEntry>, r: Replica, n: nat, pos: nat)
    requires Filtered(master, base, r, n) && |base| <= pos < n
    ensures master[pos].timestamp in r.applied
  {
    var done := master[|base|..n];
    FirstPerTimestampStamps(done);
    assert done[pos - |base|] == master[pos];
    assert master[pos] in done;
  }

  /** The outcome of a batch, for any start `pos` that is not beyond what was worked through. */
  lemma {:induction false} ProcessKeepsFiltered(codec: Codec, master: seq<WalEntry>, base: seq<WalEntry>, r: Replica,
                                                n: nat, pos: nat, end: nat, appends: nat, now: nat) returns (n': nat)
    requires Filtered(master, base, r, n) && |base| <= pos <= n && pos <= end <= |master|
    ensures var p := ProcessUnguarded(codec, r, master[pos..end], appends, now);
            && n <= n' && Filtered(master, base, p.replica, n') && (p.ok ==> n' == Max(n, end))
            && p.replica.index == r.index && |p.replica.log| == |r.log| + |p.commands|
    decreases end - pos
  {
    hide Apply, Refused, RawCommand, Filtered;
    n' := n;
    FilteredBounds(master, base, r, n);
    if pos < end {
      var e, entries := master[pos], master[pos..end];
      assert entries[0] == e && entries[1..] == master[pos + 1..end];
      var c := RawCommand(codec, e.op, now);
      if pos < n { FilteredSkips(master, base, r, n, pos); } else { FilteredNext(master, base, r, n); }
      if e.timestamp in r.applied {
        n' := ProcessKeepsFiltered(codec, master, base, r, if pos < n then n else n + 1, pos + 1, end, appends, now);
      } else if !(ReportsErrors(e.op) && Refused(r.store, c)) && appends > 0 {
        var next := r.(log := r.log + [e], applied := r.applied + {e.timestamp});
        FilteredIgnoresStore(master, base, next, n + 1, Apply(r.store, c));
        n' := ProcessKeepsFiltered(codec, master, base, next.(store := Apply(r.store, c)), n + 1, pos + 1, end,
                                   appends - 1, now);
      } else {
        FilteredIgnoresStore(master, base, r, n, Apply(r.store, c));
      }
    }
  }

  lemma FilteredBounds(master: seq<WalEntry>, base: seq<WalEntry>, r: Replica, n: nat)
    requires Filtered(master, base, r, n)
    ensures n <= |master| && |base| <= r.index <= |r.log| <= n
  {
  }

  lemma FilteredIgnoresStore(master: seq<WalEntry>, base: seq<WalEntry>, r: Replica, n: nat, store: Store)
    requires Filtered(master, base, r, n)
    ensures Filtered(master, base, r.(store := store), n)
  {
  }

  lemma FilteredMovesIndex(master: seq<WalEntry>, base: seq<WalEntry>, r: Replica, n: nat, index: nat, lag: nat)
    requires Filtered(master, base, r, n) && |base| <= index <= |r.log|
    ensures Filtered(master, base, r.(index := index, lag := lag), n)
  {
  }

  lemma SyncKeepsFiltered(codec: Codec, master: seq<WalEntry>, base: seq<WalEntry>, r: Replica, n: nat,
                          appends: nat, now: nat) returns (n': nat)
    requires Filtered(master, base, r, n)
    ensures var p := Synced(codec, r, master, appends, now);
            && n <= n' && Filtered(master, base, p.replica, n')
            && |p.replica.log| == |r.log| + |p.commands|
            && (p.ok ==> n' == Max(n, Min(r.index + BATCH_LIMIT, |master|)))
            && (p.ok ==> p.replica.index == r.index + |p.commands|)
            && (p.ok ==> p.replica.lag >= |master| - n')
            && (p.ok ==> p.replica.lag + p.replica.index == |master|)
  {
    hide Process, ProcessUnguarded, Filtered, FirstPerTimestamp;
    n' := n;
    FilteredBounds(master, base, r, n);
    var batch := Batch(master, r.index, BATCH_LIMIT);
    if batch == [] {
      FilteredMovesIndex(master, base, r, n, r.index, MonusNat(|master|, r.index));
    } else {
      var end := Min(r.index + BATCH_LIMIT, |master|);
      BatchGuardIsRedundant(codec, r, batch, {}, appends, now);
      n' := ProcessKeepsFiltered(codec, master, base, r, n, r.index, end, appends, now);
      var p := Process(codec, r, batch, {}, appends, now);
      FilteredBounds(master, base, p.replica, n');
      FilteredMovesIndex(master, base, p.replica, n', r.index + |p.commands|,
                         MonusNat(|master|, r.index + |p.commands|));
    }
  }

  ghost predicate NoRestart(steps: seq<Step>) {
    forall i :: 0 <= i < |steps| ==> !steps[i].Restart?
  }

  /** For any log, in one process lifetime, after any mix of master appends, syncs, failed syncs and
      clean-ups: the local log is the one the process started with, followed by the first-per-timestamp
      filter of a stretch of the master's log that begins at its length. */
  lemma {:induction false} LifetimeIsFiltered(codec: Codec, c: Cluster, store: Store, steps: seq<Step>) returns (n: nat)
    requires NoRestart(steps) && |c.replica.log| <= |c.master|
    ensures var d := RunCluster(codec, Next(codec, c, Restart(store)), steps);
            c.master <= d.master && Filtered(d.master, c.replica.log, d.replica, n)
  {
    hide Synced, Apply;
    var base := c.replica.log;
    n := |base|;
    if steps == [] {
      assert c.master[n..n] == [];
      assert base + [] == base;
    } else {
      var front, step := steps[..|steps| - 1], steps[|steps| - 1];
      n := LifetimeIsFiltered(codec, c, store, front);
      var d := RunCluster(codec, Next(codec, c, Restart(store)), front);
      match step
      case Append(e) => assert (d.master + [e])[|base|..n] == d.master[|base|..n];
      case Pull(appends, now) => n := SyncKeepsFiltered(codec, d.master, base, d.replica, n, appends, now);
      case CleanUp(at) => FilteredIgnoresStore(d.master, base, d.replica, n, Apply(d.replica.store, CCleanup(at)));
      case _ =>
    }
  }

  /** For any log, starting empty, the local log is the first-per-timestamp filter of a prefix of the
      master's log, and the index is at most its length. */
  lemma ReplicaIsFilteredPrefix(codec: Codec, store: Store, steps: seq<Step>) returns (n: nat)
    requires NoRestart(steps)
    ensures var d := RunCluster(codec, Cluster([], NewReplica(store)), steps);
            && n <= |d.master| && d.replica.log == FirstPerTimestamp(d.master[..n])
            && d.replica.applied == Stamps(d.replica.log) && d.replica.index <= |d.replica.log| <= n
  {
    hide RunCluster, FirstPerTimestamp, Stamps;
    var c := Cluster([], NewReplica(store));
    assert Next(codec, c, Restart(store)) == c;
    n := LifetimeIsFiltered(codec, c, store, steps);
    var d := RunCluster(codec, c, steps);
    assert d.master[0..n] == d.master[..n];
  }

  // ----- Exactly once, when timestamps are distinct -----

  ghost predicate DistinctStamps(log: seq<WalEntry>) {
    forall i, j :: 0 <= i < j < |log| ==> log[i].timestamp != log[j].timestamp
  }

  /** The local log is a prefix of the master's, fewer than a batch ahead of the index, and the
      remembered timestamps are those of the entries from the index on, and of no entry beyond the log. */
  ghost predicate Mirrors(master: seq<WalEntry>, r: Replica) {
    r.log <= master && r.index <= |r.log| < r.index + BATCH_LIMIT &&
    (forall i :: r.index <= i < |r.log| ==> master[i].timestamp in r.applied) &&
    r.applied <= Stamps(r.log)
  }

  /** As Mirrors, while a batch that ends at `end` is being worked through from `pos`. */
  ghost predicate Mirroring(master: seq<WalEntry>, r: Replica, pos: nat) {
    r.log <= master && r.index <= pos <= |r.log| &&
    (forall i :: r.index <= i < |r.log| ==> master[i].timestamp in r.applied) &&
    r.applied <= Stamps(r.log)
  }

  lemma FreshStamp(master: seq<WalEntry>, r: Replica)
    requires DistinctStamps(master) && r.log <= master && |r.log| < |master| && r.applied <= Stamps(r.log)
    ensures master[|r.log|].timestamp !in r.applied
  {
    forall e | e in r.log ensures e.timestamp != master[|r.log|].timestamp {
      var i :| 0 <= i < |r.log| && r.log[i] == e;
      assert master[i] == e;
    }
  }

  lemma MirroringApplies(master: seq<WalEntry>, r: Replica, store: Store)
    requires Mirroring(master, r, |r.log|) && |r.log| < |master|
    ensures var e := master[|r.log|];
            Mirroring(master, r.(store := store, log := r.log + [e], applied := r.applied + {e.timestamp}), |r.log| + 1)
  {
    StampsAppend(r.log, master[|r.log|]);
  }

  lemma {:induction false} ProcessMirrors(codec: Codec, master: seq<WalEntry>, r: Replica, pos: nat, end: nat,
                                          appends: nat, now: nat)
    requires DistinctStamps(master) && Mirroring(master, r, pos) && pos <= end <= |master|
    ensures var p := ProcessUnguarded(codec, r, master[pos..end], appends, now);
            && Mirroring(master, p.replica, p.replica.index) && p.replica.index == r.index
            && |p.replica.log| == |r.log| + |p.commands|
            && (if p.ok then |p.replica.log| == Max(|r.log|, end) else |p.replica.log| < end)
    decreases end - pos
  {
    hide Apply, Refused, RawCommand, Stamps;
    if pos < end {
      var e, entries := master[pos], master[pos..end];
      assert entries[0] == e && entries[1..] == master[pos + 1..end];
      var c := RawCommand(codec, e.op, now);
      if pos < |r.log| {
        assert e.timestamp in r.applied;
        ProcessMirrors(codec, master, r, pos + 1, end, appends, now);
      } else {
        FreshStamp(master, r);
        if !(ReportsErrors(e.op) && Refused(r.store, c)) && appends > 0 {
          MirroringApplies(master, r, Apply(r.store, c));
          ProcessMirrors(codec, master,
                         r.(store := Apply(r.store, c), log := r.log + [e], applied := r.applied + {e.timestamp}),
                         pos + 1, end, appends - 1, now);
        }
      }
    }
  }

  /** One sync of a mirroring replica: it stays mirroring; when it succeeds and something was missing,
      something was applied; and the lag it reports is the number of missing entries, or more by less than
      a batch. */
  lemma SyncMirrors(codec: Codec, master: seq<WalEntry>, r: Replica, appends: nat, now: nat)
    requires DistinctStamps(master) && Mirrors(master, r)
    ensures var p := Synced(codec, r, master, appends, now);
            && Mirrors(master, p.replica) && |p.replica.log| == |r.log| + |p.commands|
            && (p.ok && |r.log| < |master| ==> |p.replica.log| > |r.log|)
            && (p.ok ==> |master| - |p.replica.log| <= p.replica.lag < |master| - |p.replica.log| + BATCH_LIMIT)
  {
    hide Process, ProcessUnguarded, Stamps;
    var batch := Batch(master, r.index, BATCH_LIMIT);
    if batch != [] {
      var end := Min(r.index + BATCH_LIMIT, |master|);
      BatchGuardIsRedundant(codec, r, batch, {}, appends, now);
      ProcessMirrors(codec, master, r, r.index, end, appends, now);
    }
  }

  lemma MirrorsIgnoresStore(master: seq<WalEntry>, r: Replica, store: Store)
    requires Mirrors(master, r)
    ensures Mirrors(master, r.(store := store))
  {
  }

  lemma RestartMirrors(master: seq<WalEntry>, r: Replica, store: Store)
    requires Mirrors(master, r)
    ensures Mirrors(master, Restarted(r, store))
  {
  }

  lemma AppendMirrors(master: seq<WalEntry>, r: Replica, e: WalEntry)
    requires Mirrors(master, r)
    ensures Mirrors(master + [e], r)
  {
  }

  lemma {:induction false} RunOnlyExtendsMaster(codec: Codec, c: Cluster, steps: seq<Step>, n: nat)
    requires n <= |steps|
    ensures RunCluster(codec, c, steps[..n]).master <= RunCluster(codec, c, steps).master
    decreases |steps| - n
  {
    hide Synced, Apply;
    if n == |steps| {
      assert steps[..n] == steps;
    } else {
      assert steps[..n + 1][..n] == steps[..n];
      RunOnlyExtendsMaster(codec, c, steps, n + 1);
    }
  }

  /** If the master's timestamps are distinct then, under every interleaving of appends, syncs, failed
      syncs and restarts, the local log is a prefix of the master's log and the index is at most 99 behind it. */
  lemma {:induction false} ReplicaIsPrefix(codec: Codec, store: Store, steps: seq<Step>)
    requires DistinctStamps(RunCluster(codec, Cluster([], NewReplica(store)), steps).master)
    ensures var c := RunCluster(codec, Cluster([], NewReplica(store)), steps); Mirrors(c.master, c.replica)
  {
    hide Synced, Apply, Mirrors;
    if steps == [] {
      StartMirrors(store);
    } else {
      var front, step := steps[..|steps| - 1], steps[|steps| - 1];
      var start := Cluster([], NewReplica(store));
      RunOnlyExtendsMaster(codec, start, steps, |steps| - 1);
      var c, all := RunCluster(codec, start, front), RunCluster(codec, start, steps);
      forall i, j | 0 <= i < j < |c.master| ensures c.master[i].timestamp != c.master[j].timestamp {
        assert c.master[i] == all.master[i] && c.master[j] == all.master[j];
      }
      ReplicaIsPrefix(codec, store, front);
      match step
      case Append(e) => AppendMirrors(c.master, c.replica, e);
      case Pull(appends, now) => SyncMirrors(codec, c.master, c.replica, appends, now);
      case Restart(again) => RestartMirrors(c.master, c.replica, again);
      case CleanUp(at) => MirrorsIgnoresStore(c.master, c.replica, Apply(c.replica.store, CCleanup(at)));
      case _ =>
    }
  }

  lemma StartMirrors(store: Store)
    ensures Mirrors([], NewReplica(store))
  {
  }

  // ----- Catching up -----

  /** A row of syncs that all succeed, against a master that does not change; None if one fails. */
  ghost function SyncAll(codec: Codec, r: Replica, master: seq<WalEntry>, plans: seq<(nat, nat)>): Option<Replica>
    decreases |plans|
  {
    if plans == [] then Some(r)
    else
      var p := Synced(codec, r, master, plans[0].0, plans[0].1);
      if p.ok then SyncAll(codec, p.replica, master, plans[1..]) else None
  }

  /** As many successful syncs as entries are missing make the replica equal to a quiescent master. */
  lemma {:induction false} CatchesUp(codec: Codec, r: Replica, master: seq<WalEntry>, plans: seq<(nat, nat)>)
    requires DistinctStamps(master) && Mirrors(master, r) && |plans| >= |master| - |r.log|
    requires SyncAll(codec, r, master, plans).Some?
    ensures SyncAll(codec, r, master, plans).value.log == master
    decreases |plans|
  {
    hide Synced;
    if plans != [] {
      SyncMirrors(codec, master, r, plans[0].0, plans[0].1);
      CatchesUp(codec, Synced(codec, r, master, plans[0].0, plans[0].1).replica, master, plans[1..]);
    }
  }

  // ----- The store within one process lifetime -----

  datatype Fate =
    | Kept        // in the store and in the local log
    | Rejected    // refused by the store
    | Unlogged    // in the store, but the local log could not be written

  /** What the store went through: an entry was tried at time `now`, with what became of it, or expired
      keys were cleaned up. */
  datatype Attempt =
    | Tried(entry: WalEntry, now: nat, fate: Fate)
    | Cleaned(at: nat)

  function AttemptCommand(codec: Codec, a: Attempt): Command {
    match a
    case Tried(e, now, _) => RawCommand(codec, e.op, now)
    case Cleaned(at) => CCleanup(at)
  }

  ghost function AttemptedCommands(codec: Codec, attempts: seq<Attempt>): seq<Command> {
    if attempts == [] then []
    else AttemptedCommands(codec, attempts[..|attempts| - 1]) + [AttemptCommand(codec, attempts[|attempts| - 1])]
  }

  /** Not an entry that failed. */
  predicate Effective(a: Attempt) { a.Tried? ==> a.fate.Kept? }

  /** Without the entries that failed. */
  function OnlyKept(attempts: seq<Attempt>): seq<Attempt> {
    if attempts == [] then []
    else OnlyKept(attempts[..|attempts| - 1]) +
         if Effective(attempts[|attempts| - 1]) then [attempts[|attempts| - 1]] else []
  }

  function EntriesOf(attempts: seq<Attempt>): seq<WalEntry> {
    if attempts == [] then []
    else EntriesOf(attempts[..|attempts| - 1]) +
         if attempts[|attempts| - 1].Tried? then [attempts[|attempts| - 1].entry] else []
  }

  /** Only what the store refuses counts as rejected. */
  ghost predicate Explained(codec: Codec, start: Store, attempts: seq<Attempt>) {
    attempts == [] ||
    (var front, last := attempts[..|attempts| - 1], attempts[|attempts| - 1];
     Explained(codec, start, front) && (last.Tried? && last.fate.Rejected? ==>
       ReportsErrors(last.entry.op) &&
       Refused(Run(start, AttemptedCommands(codec, front)), AttemptCommand(codec, last))))
  }

  /** Since the process started with `start` and `log`: the store has been through every attempt, in
      order, and the local log has got the entries of the attempts that were kept. */
  ghost predicate Traced(codec: Codec, r: Replica, start: Store, log: seq<WalEntry>, attempts: seq<Attempt>) {
    r.store == Run(start, AttemptedCommands(codec, attempts)) && r.log == log + EntriesOf(OnlyKept(attempts)) &&
    Explained(codec, start, attempts)
  }

  lemma RunFront(s: Store, commands: seq<Command>, c: Command)
    ensures Run(s, commands + [c]) == Apply(Run(s, commands), c)
  {
    assert (commands + [c])[..|commands|] == commands;
  }

  lemma AttemptFront(attempts: seq<Attempt>, a: Attempt)
    ensures (attempts + [a])[..|attempts + [a]| - 1] == attempts && (attempts + [a])[|attempts + [a]| - 1] == a
    ensures OnlyKept(attempts + [a]) == OnlyKept(attempts) + if Effective(a) then [a] else []
    ensures EntriesOf(attempts + [a]) == EntriesOf(attempts) + if a.Tried? then [a.entry] else []
  {
    assert (attempts + [a])[..|attempts|] == attempts;
  }

  lemma TraceGrows(codec: Codec, r: Replica, start: Store, log: seq<WalEntry>, attempts: seq<Attempt>, a: Attempt)
    requires Traced(codec, r, start, log, attempts)
    requires a.Tried? && a.fate.Rejected? ==> ReportsErrors(a.entry.op) && Refused(r.store, AttemptCommand(codec, a))
    ensures Traced(codec, r.(store := Apply(r.store, AttemptCommand(codec, a)),
                             log := if a.Tried? && a.fate.Kept? then r.log + [a.entry] else r.log),
                   start, log, attempts + [a])
  {
    hide Apply, AttemptCommand, Run, Refused, ReportsErrors;
    AttemptFront(attempts, a);
    AttemptFront(OnlyKept(attempts), a);
    RunFront(start, AttemptedCommands(codec, attempts), AttemptCommand(codec, a));
    assert OnlyKept(attempts) + [] == OnlyKept(attempts);
    assert EntriesOf(OnlyKept(attempts)) + [] == EntriesOf(OnlyKept(attempts));
  }

  lemma {:induction false} ProcessTraced(codec: Codec, r: Replica, entries: seq<WalEntry>, appends: nat, now: nat,
                                         start: Store, log: seq<WalEntry>, attempts: seq<Attempt>)
    returns (more: seq<Attempt>)
    requires Traced(codec, r, start, log, attempts)
    ensures Traced(codec, ProcessUnguarded(codec, r, entries, appends, now).replica, start, log, more)
    decreases |entries|
  {
    hide Apply, Refused, RawCommand, Traced;
    more := attempts;
    if entries != [] {
      var e, rest := entries[0], entries[1..];
      var c := RawCommand(codec, e.op, now);
      var changed := r.(store := Apply(r.store, c));
      if e.timestamp in r.applied {
        more := ProcessTraced(codec, r, rest, appends, now, start, log, attempts);
      } else if (ReportsErrors(e.op) && Refused(r.store, c)) || appends == 0 {
        var failed := Tried(e, now, if ReportsErrors(e.op) && Refused(r.store, c) then Rejected else Unlogged);
        more := attempts + [failed];
        TraceGrows(codec, r, start, log, attempts, failed);
      } else {
        var next := changed.(log := r.log + [e], applied := r.applied + {e.timestamp});
        TraceGrows(codec, r, start, log, attempts, Tried(e, now, Kept));
        TraceIgnoresGuards(codec, changed.(log := r.log + [e]), next, start, log, attempts + [Tried(e, now, Kept)]);
        more := ProcessTraced(codec, next, rest, appends - 1, now, start, log, attempts + [Tried(e, now, Kept)]);
      }
    }
  }

  lemma TraceIgnoresGuards(codec: Codec, r: Replica, t: Replica, start: Store,
                           log: seq<WalEntry>, attempts: seq<Attempt>)
    requires Traced(codec, r, start, log, attempts) && t.store == r.store && t.log == r.log
    ensures Traced(codec, t, start, log, attempts)
  {
  }

  lemma SyncTraced(codec: Codec, r: Replica, master: seq<WalEntry>, appends: nat, now: nat,
                   start: Store, log: seq<WalEntry>, attempts: seq<Attempt>) returns (more: seq<Attempt>)
    requires Traced(codec, r, start, log, attempts)
    ensures Traced(codec, Synced(codec, r, master, appends, now).replica, start, log, more)
  {
    hide Process, ProcessUnguarded, Traced;
    more := attempts;
    var batch, after := Batch(master, r.index, BATCH_LIMIT), Synced(codec, r, master, appends, now).replica;
    if batch == [] {
      TraceIgnoresGuards(codec, r, after, start, log, attempts);
    } else {
      BatchGuardIsRedundant(codec, r, batch, {}, appends, now);
      more := ProcessTraced(codec, r, batch, appends, now, start, log, attempts);
      TraceIgnoresGuards(codec, Process(codec, r, batch, {}, appends, now).replica, after, start, log, more);
    }
  }

  /** The local log never failed, and every MSET that was rejected was refused at its first pair. */
  ghost predicate OnlyCleanRejections(config: Config, attempts: seq<Attempt>) {
    forall i :: 0 <= i < |attempts| ==> CleanFate(config, attempts[i])
  }

  ghost predicate CleanFate(config: Config, a: Attempt) {
    Effective(a) ||
    (a.fate.Rejected? &&
     (a.entry.op.Mset? && a.entry.op.pairs != [] ==>
        !Accepted(config, a.entry.op.pairs[0].0, Str(a.entry.op.pairs[0].1))))
  }

  lemma AttemptKeepsConfig(codec: Codec, s: Store, a: Attempt)
    ensures Apply(s, AttemptCommand(codec, a)).config == s.config
  {
    if a.Tried? {
      hide Apply, RawCommand;
      EntryKeepsConfig(codec, s, a.entry.op, a.now);
    } else {
      CleanUpKeepsConfig(s, a.at);
    }
  }

  lemma {:induction false} AttemptsKeepConfig(codec: Codec, start: Store, attempts: seq<Attempt>)
    ensures Run(start, AttemptedCommands(codec, attempts)).config == start.config
  {
    hide Apply, AttemptCommand, Run;
    if attempts == [] {
      NoCommands(start);
    } else {
      var front, last := attempts[..|attempts| - 1], attempts[|attempts| - 1];
      AttemptsKeepConfig(codec, start, front);
      RunFront(start, AttemptedCommands(codec, front), AttemptCommand(codec, last));
      AttemptKeepsConfig(codec, Run(start, AttemptedCommands(codec, front)), last);
    }
  }

  lemma NoCommands(s: Store)
    ensures Run(s, []) == s
  {
  }

  /** When rejections are clean, the store is the fold of what was kept. */
  lemma {:induction false} RejectionsDoNotShow(codec: Codec, start: Store, attempts: seq<Attempt>)
    requires Explained(codec, start, attempts) && OnlyCleanRejections(start.config, attempts)
    ensures Run(start, AttemptedCommands(codec, attempts)) == Run(start, AttemptedCommands(codec, OnlyKept(attempts)))
  {
    hide Apply, AttemptCommand, Run, Refused, Accepted;
    if attempts != [] {
      var front, last := attempts[..|attempts| - 1], attempts[|attempts| - 1];
      var c := AttemptCommand(codec, last);
      assert CleanFate(start.config, last);
      AttemptsKeepConfig(codec, start, front);
      RejectionsDoNotShow(codec, start, front);
      RunFront(start, AttemptedCommands(codec, front), c);
      if Effective(last) {
        AttemptFront(OnlyKept(front), last);
        RunFront(start, AttemptedCommands(codec, OnlyKept(front)), c);
      } else {
        ReportsAreReporting(codec, last.entry.op, last.now);
        TriedCommand(codec, last);
        RefusedChangesNothingExactlyWhen(Run(start, AttemptedCommands(codec, front)), c);
        assert OnlyKept(front) + [] == OnlyKept(front);
      }
    }
  }

  lemma TriedCommand(codec: Codec, a: Attempt)
    requires a.Tried?
    ensures AttemptCommand(codec, a) == RawCommand(codec, a.entry.op, a.now)
  {
  }

  lemma TraceFolds(codec: Codec, r: Replica, start: Store, log: seq<WalEntry>, attempts: seq<Attempt>)
    requires Traced(codec, r, start, log, attempts) && OnlyCleanRejections(start.config, attempts)
    ensures r.store == Run(start, AttemptedCommands(codec, OnlyKept(attempts)))
  {
    RejectionsDoNotShow(codec, start, attempts);
  }

  lemma CleanUpTraced(codec: Codec, r: Replica, at: nat, start: Store, log: seq<WalEntry>, attempts: seq<Attempt>)
    requires Traced(codec, r, start, log, attempts)
    ensures Traced(codec, r.(store := Apply(r.store, CCleanup(at))), start, log, attempts + [Cleaned(at)])
  {
    hide Apply;
    TraceGrows(codec, r, start, log, attempts, Cleaned(at));
  }

  /** Within one process lifetime, whatever syncs fail and wherever: the store is the fold of the entries
      tried and the clean-ups, in order, onto the store the process started with, and the local log has
      grown by the entries kept. When the local log never failed and no MSET was refused after its first
      pair, the store is the fold of those kept entries and the clean-ups alone. */
  lemma {:induction false} StoreFoldsLog(codec: Codec, c: Cluster, store: Store, steps: seq<Step>)
    returns (attempts: seq<Attempt>)
    requires NoRestart(steps)
    ensures var r := RunCluster(codec, Next(codec, c, Restart(store)), steps).replica;
            Traced(codec, r, store, c.replica.log, attempts) &&
            (OnlyCleanRejections(store.config, attempts) ==>
               r.store == Run(store, AttemptedCommands(codec, OnlyKept(attempts))))
  {
    hide Synced, Refused, Apply, RawCommand;
    attempts := [];
    if steps == [] {
      assert c.replica.log + [] == c.replica.log;
    } else {
      hide Traced, OnlyCleanRejections, AttemptedCommands, OnlyKept, Run;
      var front, step := steps[..|steps| - 1], steps[|steps| - 1];
      var before := RunCluster(codec, Next(codec, c, Restart(store)), front);
      attempts := StoreFoldsLog(codec, c, store, front);
      if step.Pull? {
        attempts := SyncTraced(codec, before.replica, before.master, step.appends, step.now,
                               store, c.replica.log, attempts);
      } else if step.CleanUp? {
        CleanUpTraced(codec, before.replica, step.at, store, c.replica.log, attempts);
        attempts := attempts + [Cleaned(step.at)];
      }
      if OnlyCleanRejections(store.config, attempts) {
        TraceFolds(codec, RunCluster(codec, Next(codec, c, Restart(store)), steps).replica, store, c.replica.log,
                   attempts);
      }
    }
  }

  /** Without the first condition it fails: an entry whose local append fails is in the store but not in
      the log, and the next sync applies it once more. */
  lemma UnloggedAppendIsDoneTwice(codec: Codec, r: Replica, e: WalEntry, was: string, now: nat)
    requires r.index == 0 && r.log == [] && r.applied == {} && e.op.Append?
    requires e.op.key in r.store.entries && r.store.entries[e.op.key].value == Str(was)
    ensures var failed := Synced(codec, r, [e], 0, now);
            var again := Synced(codec, failed.replica, [e], 1, now);
            !failed.ok && failed.replica.log == [] && again.ok && again.replica.log == [e] &&
            ValueAt(again.replica.store, e.op.key) == Some(Str(was + e.op.text + e.op.text))
  {
    hide Apply, Refused;
    var c, batch := CAppend(e.op.key, e.op.text), [e];
    assert Batch(batch, 0, BATCH_LIMIT) == batch && batch[1..] == [];
    OneAppend(r.store, e.op.key, e.op.text, was);
    var s1 := Apply(r.store, c);
    var r1 := Process(codec, r, batch, {}, 0, now).replica;
    assert r1 == r.(store := s1);
    assert Synced(codec, r, batch, 0, now) == Progress(r1, [], false);
    OneAppend(s1, e.op.key, e.op.text, was + e.op.text);
    assert r1.log + [e] == [e] && r1.applied + {e.timestamp} == {e.timestamp};
    var r2 := r1.(store := Apply(s1, c), log := [e], applied := {e.timestamp});
    assert Process(codec, r2, [], {} + {e.timestamp}, 0, now) == Progress(r2, [], true);
    assert Process(codec, r1, batch, {}, 1, now).ok;
    assert Process(codec, r1, batch, {}, 1, now).replica == r2;
  }

  lemma OneAppend(s: Store, key: string, text: string, was: string)
    requires key in s.entries && s.entries[key].value == Str(was)
    ensures !Refused(s, CAppend(key, text)) && key in Apply(s, CAppend(key, text)).entries
    ensures Apply(s, CAppend(key, text)).entries[key].value == Str(was + text)
  {
  }
}
