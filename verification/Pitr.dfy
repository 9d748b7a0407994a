/** Point-in-time recovery: the newest snapshot that is not after the target, and on top of it the log
    from its start up to the first entry after the target. */
module Pitr {
  import opened Basics
  import opened StoreModel
  import opened KvStores
  import opened Transactions
  import opened Wal
  import LruOrder
  import EntryMeanings

  /** A snapshot file: the time in its name, and the entries and counters stored in it. */
  datatype Snapshot = Snapshot(timestamp: nat, entries: map<string, Entry>, stats: Stats)

  /** The defaults that a recovered store gets, whatever the running configuration is. */
  const DEFAULT_CONFIG := Config(1024, 10 * 1024 * 1024, 1024 * 1024 * 1024, true)

  /** Configuration, LRU order and transaction queue are not stored in a snapshot. */
  function Restored(snapshot: Snapshot): Store {
    Store(snapshot.entries, snapshot.stats, DEFAULT_CONFIG, [], None)
  }

  // ----- Choosing the snapshot -----

  /** Inserts into a list ordered by falling timestamp, after the equal ones. */
  function InsertByTime(snapshots: seq<Snapshot>, s: Snapshot): seq<Snapshot> {
    if snapshots == [] || snapshots[0].timestamp < s.timestamp then [s] + snapshots
    else [snapshots[0]] + InsertByTime(snapshots[1..], s)
  }

  /** The listing: newest first, files with the same time in directory order. */
  function Listed(directory: seq<Snapshot>): seq<Snapshot> {
    if directory == [] then []
    else InsertByTime(Listed(directory[..|directory| - 1]), directory[|directory| - 1])
  }

  function FirstNotAfter(snapshots: seq<Snapshot>, target: nat): Option<Snapshot> {
    if snapshots == [] then None
    else if snapshots[0].timestamp <= target then Some(snapshots[0])
    else FirstNotAfter(snapshots[1..], target)
  }

  function ChosenSnapshot(directory: seq<Snapshot>, target: nat): Option<Snapshot> {
    FirstNotAfter(Listed(directory), target)
  }

  ghost predicate NewestFirst(snapshots: seq<Snapshot>) {
    forall i, j :: 0 <= i < j < |snapshots| ==> snapshots[i].timestamp >= snapshots[j].timestamp
  }

  lemma {:induction false} InsertByTimeSorts(snapshots: seq<Snapshot>, s: Snapshot)
    requires NewestFirst(snapshots)
    ensures NewestFirst(InsertByTime(snapshots, s))
    ensures forall x :: x in InsertByTime(snapshots, s) <==> x == s || x in snapshots
  {
    if snapshots != [] && snapshots[0].timestamp >= s.timestamp {
      InsertByTimeSorts(snapshots[1..], s);
      var rest := InsertByTime(snapshots[1..], s);
      assert snapshots == [snapshots[0]] + snapshots[1..];
      forall x | x in rest ensures x.timestamp <= snapshots[0].timestamp { assert x == s || x in snapshots[1..]; }
    }
  }

  lemma {:induction false} ListedSorts(directory: seq<Snapshot>)
    ensures NewestFirst(Listed(directory))
    ensures forall x :: x in Listed(directory) <==> x in directory
  {
    if directory != [] {
      var front, last := directory[..|directory| - 1], directory[|directory| - 1];
      ListedSorts(front);
      InsertByTimeSorts(Listed(front), last);
      assert directory == front + [last];
    }
  }

  lemma {:induction false} FirstNotAfterIsNewest(snapshots: seq<Snapshot>, target: nat)
    requires NewestFirst(snapshots)
    ensures var chosen := FirstNotAfter(snapshots, target);
            match chosen
            case None => forall x :: x in snapshots ==> x.timestamp > target
            case Some(s) => s in snapshots && s.timestamp <= target &&
                            forall x :: x in snapshots && x.timestamp <= target ==> x.timestamp <= s.timestamp
  {
    if snapshots != [] {
      assert snapshots == [snapshots[0]] + snapshots[1..];
      if snapshots[0].timestamp > target { FirstNotAfterIsNewest(snapshots[1..], target); }
    }
  }

  /** Recovery starts from a newest snapshot among those not after the target, or from none if there
      is no such snapshot. */
  lemma ChosenIsNewestNotAfter(directory: seq<Snapshot>, target: nat)
    ensures match ChosenSnapshot(directory, target)
            case None => forall x :: x in directory ==> x.timestamp > target
            case Some(s) => s in directory && s.timestamp <= target &&
                            forall x :: x in directory && x.timestamp <= target ==> x.timestamp <= s.timestamp
  {
    ListedSorts(directory);
    FirstNotAfterIsNewest(Listed(directory), target);
  }

  /** The snapshots of one time, in order. */
  function OfTime(snapshots: seq<Snapshot>, timestamp: nat): seq<Snapshot> {
    if snapshots == [] then []
    else (if snapshots[0].timestamp == timestamp then [snapshots[0]] else []) + OfTime(snapshots[1..], timestamp)
  }

  lemma {:induction false} OfTimeAppend(a: seq<Snapshot>, b: seq<Snapshot>, timestamp: nat)
    ensures OfTime(a + b, timestamp) == OfTime(a, timestamp) + OfTime(b, timestamp)
  {
    if a == [] {
      assert a + b == b;
    } else {
      var first := if a[0].timestamp == timestamp then [a[0]] else [];
      OfTimeAppend(a[1..], b, timestamp);
      assert (a + b)[1..] == a[1..] + b;
      Regroup(first, OfTime(a[1..], timestamp), OfTime(b, timestamp));
    }
  }

  lemma {:induction false} NoneOfTime(snapshots: seq<Snapshot>, timestamp: nat)
    requires forall i :: 0 <= i < |snapshots| ==> snapshots[i].timestamp != timestamp
    ensures OfTime(snapshots, timestamp) == []
  {
    if snapshots != [] { NoneOfTime(snapshots[1..], timestamp); }
  }

  lemma {:induction false} InsertByTimeIsStable(snapshots: seq<Snapshot>, s: Snapshot, timestamp: nat)
    requires NewestFirst(snapshots)
    ensures OfTime(InsertByTime(snapshots, s), timestamp) == OfTime(snapshots + [s], timestamp)
  {
    OfTimeAppend(snapshots, [s], timestamp);
    if snapshots == [] || snapshots[0].timestamp < s.timestamp {
      OfTimeAppend([s], snapshots, timestamp);
      if s.timestamp == timestamp { NoneOfTime(snapshots, timestamp); }
    } else {
      var first, rest := snapshots[0], InsertByTime(snapshots[1..], s);
      InsertByTimeIsStable(snapshots[1..], s, timestamp);
      OfTimeAppend(snapshots[1..], [s], timestamp);
      assert InsertByTime(snapshots, s) == [first] + rest && ([first] + rest)[1..] == rest;
    }
  }

  /** The listing keeps all the snapshots, those of the same time in directory order. */
  lemma {:induction false} ListingIsStable(directory: seq<Snapshot>, timestamp: nat)
    ensures OfTime(Listed(directory), timestamp) == OfTime(directory, timestamp)
  {
    if directory != [] {
      var front, last := directory[..|directory| - 1], directory[|directory| - 1];
      ListingIsStable(front, timestamp);
      ListedSorts(front);
      InsertByTimeIsStable(Listed(front), last, timestamp);
      OfTimeAppend(Listed(front), [last], timestamp);
      OfTimeAppend(front, [last], timestamp);
      assert directory == front + [last];
    }
  }

  lemma {:induction false} FirstNotAfterIsFirst(snapshots: seq<Snapshot>, target: nat)
    requires FirstNotAfter(snapshots, target).Some? && NewestFirst(snapshots)
    ensures var s := FirstNotAfter(snapshots, target).value;
            OfTime(snapshots, s.timestamp) != [] && OfTime(snapshots, s.timestamp)[0] == s
  {
    if snapshots[0].timestamp > target {
      FirstNotAfterIsFirst(snapshots[1..], target);
      FirstNotAfterIsNewest(snapshots[1..], target);
    }
  }

  /** Among snapshots of the same time, recovery starts from the first one in the directory. */
  lemma ChosenIsFirstOfItsTime(directory: seq<Snapshot>, target: nat)
    requires ChosenSnapshot(directory, target).Some?
    ensures var s := ChosenSnapshot(directory, target).value;
            OfTime(directory, s.timestamp) != [] && OfTime(directory, s.timestamp)[0] == s
  {
    ListedSorts(directory);
    FirstNotAfterIsFirst(Listed(directory), target);
    ListingIsStable(directory, ChosenSnapshot(directory, target).value.timestamp);
  }

  // ----- Replaying the log -----

  /** The entries before the first one after the target. */
  function PrefixUpTo(log: seq<WalEntry>, target: nat): seq<WalEntry> {
    if log == [] || log[0].timestamp > target then [] else [log[0]] + PrefixUpTo(log[1..], target)
  }

  function NotAfter(log: seq<WalEntry>, target: nat): seq<WalEntry> {
    if log == [] then []
    else (if log[0].timestamp <= target then [log[0]] else []) + NotAfter(log[1..], target)
  }

  lemma {:induction false} NothingAfterLate(log: seq<WalEntry>, target: nat)
    requires forall i :: 0 <= i < |log| ==> log[i].timestamp > target
    ensures NotAfter(log, target) == []
  {
    if log != [] { NothingAfterLate(log[1..], target); }
  }

  /** No entry not after the target stands behind one that is after it. */
  ghost predicate CutIsClean(log: seq<WalEntry>, target: nat) {
    forall i, j :: 0 <= i < j < |log| && log[j].timestamp <= target ==> log[i].timestamp <= target
  }

  /** The replayed prefix is the entries not after the target exactly when the cut is clean. */
  lemma {:induction false} PrefixIsNotAfterExactlyWhen(log: seq<WalEntry>, target: nat)
    ensures PrefixUpTo(log, target) == NotAfter(log, target) <==> CutIsClean(log, target)
  {
    if log != [] {
      var rest := log[1..];
      assert forall i :: 0 < i < |log| ==> log[i] == rest[i - 1];
      if log[0].timestamp <= target {
        PrefixIsNotAfterExactlyWhen(rest, target);
        assert PrefixUpTo(log, target)[1..] == PrefixUpTo(rest, target);
        assert NotAfter(log, target)[1..] == NotAfter(rest, target);
        assert CutIsClean(log, target) <==> CutIsClean(rest, target);
      } else if j :| 0 <= j < |log| && log[j].timestamp <= target {
        SomethingNotAfter(log, target, j);
        assert log[0].timestamp > target && j > 0;
      } else {
        NothingAfterLate(log, target);
      }
    }
  }

  lemma {:induction false} SomethingNotAfter(log: seq<WalEntry>, target: nat, j: nat)
    requires j < |log| && log[j].timestamp <= target
    ensures NotAfter(log, target) != []
  {
    if log[0].timestamp > target { SomethingNotAfter(log[1..], target, j - 1); }
  }

  /** With timestamps that never go back, the cut is clean for every target; when the clock has gone
      back anywhere, there is a target for which it is not. */
  lemma EveryCutIsCleanExactlyWhen(log: seq<WalEntry>)
    ensures (forall target: nat :: PrefixUpTo(log, target) == NotAfter(log, target)) <==>
            forall i, j :: 0 <= i < j < |log| ==> log[i].timestamp <= log[j].timestamp
  {
    forall target: nat
      ensures PrefixUpTo(log, target) == NotAfter(log, target) <==> CutIsClean(log, target)
    {
      PrefixIsNotAfterExactlyWhen(log, target);
    }
    if i, j :| 0 <= i < j < |log| && log[i].timestamp > log[j].timestamp {
      var target: nat := log[j].timestamp;
      assert !CutIsClean(log, target);
      PrefixIsNotAfterExactlyWhen(log, target);
      assert PrefixUpTo(log, target) != NotAfter(log, target);
    }
  }

  /** With timestamps that never go back, the replayed prefix is exactly the entries not after the target. */
  lemma PrefixIsNotAfter(log: seq<WalEntry>, target: nat)
    requires forall i, j :: 0 <= i < j < |log| ==> log[i].timestamp <= log[j].timestamp
    ensures PrefixUpTo(log, target) == NotAfter(log, target)
  {
    PrefixIsNotAfterExactlyWhen(log, target);
  }

  /** When the clock goes back once, an entry not after the target can be behind the cut. */
  lemma ClockStepLosesEntry(early: WalOp, late: WalOp, target: nat)
    ensures var log := [WalEntry(target + 1, early), WalEntry(target, late)];
            PrefixUpTo(log, target) == [] && NotAfter(log, target) == [WalEntry(target, late)]
  {
    var log := [WalEntry(target + 1, early), WalEntry(target, late)];
    assert log[1..] == [WalEntry(target, late)] && log[1..][1..] == [];
    assert NotAfter(log[1..], target) == [WalEntry(target, late)];
  }

  function Commands(codec: Codec, log: seq<WalEntry>, now: nat): seq<Command> {
    seq(|log|, i requires 0 <= i < |log| => RawCommand(codec, log[i].op, now))
  }

  ghost function Recovered(codec: Codec, directory: seq<Snapshot>, log: seq<WalEntry>, target: nat, now: nat): Store {
    var base := match ChosenSnapshot(directory, target)
                case None => NewStore(DEFAULT_CONFIG)
                case Some(s) => Restored(s);
    Run(base, Commands(codec, PrefixUpTo(log, target), now))
  }

  lemma {:induction false} PrefixIsPrefix(log: seq<WalEntry>, target: nat)
    ensures |PrefixUpTo(log, target)| <= |log| && PrefixUpTo(log, target) == log[..|PrefixUpTo(log, target)|]
    ensures forall i :: 0 <= i < |PrefixUpTo(log, target)| ==> log[i].timestamp <= target
    ensures |PrefixUpTo(log, target)| < |log| ==> log[|PrefixUpTo(log, target)|].timestamp > target
  {
    if log != [] && log[0].timestamp <= target { PrefixIsPrefix(log[1..], target); }
  }

  /** The store read back from a snapshot, or a new one; its order is empty in both cases. */
  method OpenBase(directory: seq<Snapshot>, target: nat) returns (store: KvStore)
    ensures fresh(store) && store.queue.None? && !store.notifications
    ensures store.Model() == match ChosenSnapshot(directory, target)
                             case None => NewStore(DEFAULT_CONFIG)
                             case Some(s) => Restored(s)
  {
    store := new KvStore(DEFAULT_CONFIG);
    var listed := Listed(directory);
    for i := 0 to |listed|
      invariant FirstNotAfter(listed, target) == FirstNotAfter(listed[i..], target)
      invariant store.Model() == NewStore(DEFAULT_CONFIG) && !store.notifications
    {
      assert listed[i..][0] == listed[i] && listed[i..][1..] == listed[i + 1..];
      if listed[i].timestamp <= target {
        store.entries, store.stats := listed[i].entries, listed[i].stats;
        return;
      }
    }
    assert listed[|listed|..] == [];
  }

  /** The recovery loop: it stops at the first entry after the target and drops every refusal. */
  method RecoverToTimestamp(codec: Codec, directory: seq<Snapshot>, log: seq<WalEntry>, target: nat, now: nat)
    returns (store: KvStore, replayed: nat)
    ensures fresh(store) && store.Model() == Recovered(codec, directory, log, target, now)
    ensures replayed == |PrefixUpTo(log, target)|
  {
    hide Apply, Refused;
    store := OpenBase(directory, target);
    ghost var base := store.Model();
    PrefixIsPrefix(log, target);
    ghost var prefix := PrefixUpTo(log, target);
    ghost var commands := Commands(codec, prefix, now);
    replayed := 0;
    while replayed < |log|
      invariant replayed <= |prefix| <= |log| && prefix == log[..|prefix|]
      invariant store.Model() == Run(base, commands[..replayed])
    {
      if log[replayed].timestamp > target {
        break;
      }
      assert commands[..replayed + 1][..replayed] == commands[..replayed];
      var _ := Execute(store, RawCommand(codec, log[replayed].op, now), now);
      replayed := replayed + 1;
    }
    assert commands[..replayed] == commands;
  }

  /** The prefix leads from the snapshot, or from an empty store, through these stores to the recovered one,
      each step doing what its entry stands for. */
  lemma RecoveryDoesEntries(codec: Codec, directory: seq<Snapshot>, log: seq<WalEntry>, target: nat, now: nat)
    returns (stores: seq<Store>)
    ensures var prefix := PrefixUpTo(log, target);
            && |stores| == |prefix| + 1 && stores[|prefix|] == Recovered(codec, directory, log, target, now)
            && stores[0] == (match ChosenSnapshot(directory, target)
                             case None => NewStore(DEFAULT_CONFIG)
                             case Some(s) => Restored(s))
            && forall i :: 0 <= i < |prefix| ==>
                 EntryMeanings.DoneBy(codec, stores[i], prefix[i].op, now, stores[i + 1])
  {
    hide EntryMeanings.DoneBy, Run;
    var base := match ChosenSnapshot(directory, target)
                case None => NewStore(DEFAULT_CONFIG)
                case Some(s) => Restored(s);
    stores := RunDoesEntries(codec, base, PrefixUpTo(log, target), now);
  }

  lemma {:induction false} RunDoesEntries(codec: Codec, s: Store, log: seq<WalEntry>, now: nat)
    returns (stores: seq<Store>)
    requires s.queue.None?
    ensures |stores| == |log| + 1 && stores[0] == s && stores[|log|] == Run(s, Commands(codec, log, now))
    ensures stores[|log|].queue.None?
    ensures forall i :: 0 <= i < |log| ==> EntryMeanings.DoneBy(codec, stores[i], log[i].op, now, stores[i + 1])
  {
    hide EntryMeanings.DoneBy, RawCommand, Apply;
    stores := [s];
    if log != [] {
      var n := |log| - 1;
      var before := RunDoesEntries(codec, s, log[..n], now);
      var c := RawCommand(codec, log[n].op, now);
      assert Commands(codec, log, now)[..n] == Commands(codec, log[..n], now);
      EntryMeanings.EntryIsDone(codec, before[n], log[n].op, now);
      EntryMeanings.DoneByKeepsQueue(codec, before[n], log[n].op, now, Apply(before[n], c));
      stores := before + [Apply(before[n], c)];
    }
  }

  // ----- Nanoseconds and seconds -----

  const NANOS_PER_SECOND: nat := 1_000_000_000

  /** When every snapshot is named after the target, recovery is the fold of the log onto a new store. */
  lemma NoSnapshotInReach(codec: Codec, directory: seq<Snapshot>, log: seq<WalEntry>, target: nat, now: nat)
    requires forall x :: x in directory ==> x.timestamp > target
    ensures Recovered(codec, directory, log, target, now)
         == Run(NewStore(DEFAULT_CONFIG), Commands(codec, PrefixUpTo(log, target), now))
  {
    ChosenIsNewestNotAfter(directory, target);
  }

  /** Names count nanoseconds. A target in seconds reaches a snapshot only when it is at least a billion
      times the second in which the snapshot was taken: for any earlier target the snapshots play no part. */
  lemma SecondsReachNoSnapshot(codec: Codec, directory: seq<Snapshot>, log: seq<WalEntry>, target: nat, now: nat)
    requires forall x :: x in directory ==> target < NANOS_PER_SECOND * (x.timestamp / NANOS_PER_SECOND)
    ensures Recovered(codec, directory, log, target, now) == Recovered(codec, [], log, target, now)
  {
    forall x | x in directory ensures x.timestamp > target {
      assert NANOS_PER_SECOND * (x.timestamp / NANOS_PER_SECOND) <= x.timestamp;
    }
    NoSnapshotInReach(codec, directory, log, target, now);
    NoSnapshotInReach(codec, [], log, target, now);
  }

  /** The whole log is replayed exactly when no entry is after the target. */
  lemma {:induction false} WholeLogExactlyWhen(log: seq<WalEntry>, target: nat)
    ensures PrefixUpTo(log, target) == log <==> forall i :: 0 <= i < |log| ==> log[i].timestamp <= target
  {
    PrefixIsPrefix(log, target);
    if |PrefixUpTo(log, target)| == |log| { assert log[..|log|] == log; }
  }

  lemma {:induction false} InsertByTimeLength(snapshots: seq<Snapshot>, s: Snapshot)
    ensures |InsertByTime(snapshots, s)| == |snapshots| + 1
  {
    if snapshots != [] && snapshots[0].timestamp >= s.timestamp { InsertByTimeLength(snapshots[1..], s); }
  }

  lemma {:induction false} ListedLength(directory: seq<Snapshot>)
    ensures |Listed(directory)| == |directory|
  {
    if directory != [] {
      ListedLength(directory[..|directory| - 1]);
      InsertByTimeLength(Listed(directory[..|directory| - 1]), directory[|directory| - 1]);
    }
  }

  /** Recovery to the latest snapshot: an error when there is none, else recovery to the time in its name. */
  method RecoverToLatestSnapshot(codec: Codec, directory: seq<Snapshot>, log: seq<WalEntry>, now: nat)
    returns (store: Option<KvStore>)
    ensures store.None? <==> directory == []
    ensures store.Some? ==> fresh(store.value) && Listed(directory) != []
    ensures store.Some? ==>
              store.value.Model() == Recovered(codec, directory, log, Listed(directory)[0].timestamp, now)
  {
    ListedLength(directory);
    var listed := Listed(directory);
    if listed == [] {
      return None;
    }
    var recovered, _ := RecoverToTimestamp(codec, directory, log, listed[0].timestamp, now);
    store := Some(recovered);
  }

  /** When no log entry is after the latest snapshot's name, as when the log counts seconds, the whole log
      is replayed on top of the snapshot. */
  lemma LatestSnapshotReplaysAll(codec: Codec, directory: seq<Snapshot>, log: seq<WalEntry>, now: nat)
    requires Listed(directory) != []
    requires forall i :: 0 <= i < |log| ==> log[i].timestamp <= Listed(directory)[0].timestamp
    ensures Recovered(codec, directory, log, Listed(directory)[0].timestamp, now)
         == Run(Restored(Listed(directory)[0]), Commands(codec, log, now))
  {
    WholeLogExactlyWhen(log, Listed(directory)[0].timestamp);
  }

  // ----- What a recovered key holds -----

  predicate PlainWrite(op: WalOp) { op.Set? || op.Delete? || op.GetSet? || op.Mset? }

  ghost predicate PlainWrites(log: seq<WalEntry>) {
    forall i :: 0 <= i < |log| ==> PlainWrite(log[i].op)
  }

  ghost function OpsOfPrefix(codec: Codec, log: seq<WalEntry>, target: nat, now: nat): seq<TransactionOp>
    requires PlainWrites(PrefixUpTo(log, target))
  {
    AllOps(DEFAULT_CONFIG, Commands(codec, PrefixUpTo(log, target), now))
  }

  ghost function BaseStore(directory: seq<Snapshot>, target: nat): Store {
    match ChosenSnapshot(directory, target)
    case None => NewStore(DEFAULT_CONFIG)
    case Some(s) => Restored(s)
  }

  /** Every key of a recovered store: its last effective write in the prefix, or the snapshot's entry. */
  lemma RecoveryMeaning(codec: Codec, directory: seq<Snapshot>, log: seq<WalEntry>, target: nat, now: nat, key: string)
    requires PlainWrites(PrefixUpTo(log, target))
    requires RoomFor(BaseStore(directory, target), OpsOfPrefix(codec, log, target, now))
    ensures EntryAt(Recovered(codec, directory, log, target, now), key)
         == AfterEffect(EntryAt(BaseStore(directory, target), key),
                           LastEffect(OpsOfPrefix(codec, log, target, now), key))
  {
    RunLeavesLastWrite(BaseStore(directory, target), Commands(codec, PrefixUpTo(log, target), now), key);
  }

  /** When the prefix writes or deletes every key of the snapshot, the snapshot makes no difference to
      the recovered entries. */
  lemma SnapshotMakesNoDifference(codec: Codec, directory: seq<Snapshot>, log: seq<WalEntry>, target: nat, now: nat)
    requires PlainWrites(PrefixUpTo(log, target))
    requires RoomFor(BaseStore(directory, target), OpsOfPrefix(codec, log, target, now))
    requires RoomFor(NewStore(DEFAULT_CONFIG), OpsOfPrefix(codec, log, target, now))
    requires forall k :: k in BaseStore(directory, target).entries ==>
               LastEffect(OpsOfPrefix(codec, log, target, now), k) != Untouched
    ensures Recovered(codec, directory, log, target, now).entries == Recovered(codec, [], log, target, now).entries
  {
    var a, b := Recovered(codec, directory, log, target, now), Recovered(codec, [], log, target, now);
    assert BaseStore([], target) == NewStore(DEFAULT_CONFIG);
    forall k ensures EntryAt(a, k) == EntryAt(b, k) {
      RecoveryMeaning(codec, directory, log, target, now, k);
      RecoveryMeaning(codec, [], log, target, now, k);
    }
    assert forall k :: k in a.entries <==> EntryAt(a, k).Some?;
    assert forall k :: k in b.entries <==> EntryAt(b, k).Some?;
    assert forall k :: k in a.entries ==> EntryAt(a, k) == Some(a.entries[k]);
  }

  /** The last effect on a key leaves a snapshot's entry as it is. */
  ghost predicate Agrees(snapshot: Snapshot, effect: Effect, key: string) {
    match effect
    case Untouched => true
    case Deleted => key !in snapshot.entries
    case Wrote(e) => key in snapshot.entries && snapshot.entries[key] == e
  }

  /** The last effective write to each key is what the snapshot holds. */
  ghost predicate AllAgree(snapshot: Snapshot, ops: seq<TransactionOp>) {
    forall key :: Agrees(snapshot, LastEffect(ops, key), key)
  }

  lemma RunKeepsSnapshotExactlyWhen(snapshot: Snapshot, commands: seq<Command>)
    requires AllQueueable(commands) && RoomFor(Restored(snapshot), AllOps(DEFAULT_CONFIG, commands))
    ensures Run(Restored(snapshot), commands).entries == snapshot.entries <==>
            AllAgree(snapshot, AllOps(DEFAULT_CONFIG, commands))
  {
    hide Run, AllOps, LastEffect;
    var base, t, ops := Restored(snapshot), Run(Restored(snapshot), commands), AllOps(DEFAULT_CONFIG, commands);
    forall key ensures EntryAt(t, key) == EntryAt(base, key) <==> Agrees(snapshot, LastEffect(ops, key), key) {
      RunLeavesLastWrite(base, commands, key);
    }
    EntriesByKey(t, base);
    if key :| !Agrees(snapshot, LastEffect(ops, key), key) {
      assert EntryAt(t, key) != EntryAt(base, key);
    } else {
      forall key ensures EntryAt(t, key) == EntryAt(base, key) { assert Agrees(snapshot, LastEffect(ops, key), key); }
    }
  }

  /** Recovery to the latest snapshot keeps the snapshot's entries exactly when the log's last effective
      write to each key is what the snapshot holds. */
  lemma LatestSnapshotIsKeptExactlyWhen(codec: Codec, directory: seq<Snapshot>, log: seq<WalEntry>, now: nat)
    requires Listed(directory) != [] && PlainWrites(log)
    requires forall i :: 0 <= i < |log| ==> log[i].timestamp <= Listed(directory)[0].timestamp
    requires RoomFor(Restored(Listed(directory)[0]), AllOps(DEFAULT_CONFIG, Commands(codec, log, now)))
    ensures var latest := Listed(directory)[0];
            Recovered(codec, directory, log, latest.timestamp, now).entries == latest.entries <==>
            AllAgree(latest, AllOps(DEFAULT_CONFIG, Commands(codec, log, now)))
  {
    hide Recovered, Run, AllOps, AllAgree;
    LatestSnapshotReplaysAll(codec, directory, log, now);
    RunKeepsSnapshotExactlyWhen(Listed(directory)[0], Commands(codec, log, now));
  }

  /** Running such writes a second time over their own result changes no entry: a restart that replays
      a log of plain writes over the store saved after them keeps every key. */
  lemma PlainWritesReplayTwice(s: Store, again: Store, commands: seq<Command>)
    requires s.queue.None? && AllQueueable(commands) && RoomFor(s, AllOps(s.config, commands))
    requires again.entries == Run(s, commands).entries && again.config == s.config && again.queue.None?
    requires RoomFor(again, AllOps(s.config, commands))
    ensures Run(again, commands).entries == again.entries
  {
    var b := Run(again, commands);
    forall k ensures EntryAt(b, k) == EntryAt(again, k) {
      RunLeavesLastWrite(s, commands, k);
      RunLeavesLastWrite(again, commands, k);
      assert EntryAt(again, k) == EntryAt(Run(s, commands), k);
    }
    assert forall k :: k in b.entries <==> EntryAt(b, k).Some?;
    assert forall k :: k in again.entries <==> EntryAt(again, k).Some?;
    assert forall k :: k in b.entries ==> EntryAt(b, k) == Some(b.entries[k]);
  }

  /** Eviction walks the order, so a key that is not in it survives every eviction. */
  lemma {:induction false} UnorderedKeySurvivesEviction(s: Store, key: string)
    requires key !in s.lruOrder
    ensures EntryAt(Evict(s), key) == EntryAt(s, key)
    decreases |s.lruOrder|
  {
    if s.stats.memoryBytes > s.config.maxMemoryBytes && s.lruOrder != [] {
      LruOrder.EvictFirstRemovesOne(s);
      assert s.lruOrder == [s.lruOrder[0]] + s.lruOrder[1..];
      UnorderedKeySurvivesEviction(EvictFirst(s), key);
    }
  }

  /** A restored store starts with an empty order: writing one key, however large, evicts none of the
      snapshot's other keys, so the limit cannot be met from them. */
  lemma SnapshotKeysAreNotEvicted(snapshot: Snapshot, key: string, v: Value, other: string)
    requires other != key
    ensures EntryAt(StoreModel.Set(Restored(snapshot), key, v).store, other) == EntryAt(Restored(snapshot), other)
  {
    UnorderedKeySurvivesEviction(Charged(Restored(snapshot), key, Entry(v, None)), other);
  }

  /** The counter comes from the snapshot and the order does not: the first key set on a restored store is
      the only one that eviction can take, so it stays exactly when it fits beside the saved counter, and
      the counter comes within the limit exactly when the saved counter was. */
  lemma FirstSetSurvivesExactlyWhen(snapshot: Snapshot, key: string, v: Value)
    requires Accepted(DEFAULT_CONFIG, key, v)
    ensures var t := StoreModel.Set(Restored(snapshot), key, v).store; var limit := DEFAULT_CONFIG.maxMemoryBytes;
            && (key in t.entries <==> snapshot.stats.memoryBytes + SizeOf(v) <= limit)
            && (t.stats.memoryBytes <= limit <==> snapshot.stats.memoryBytes <= limit)
  {
    hide SizeOf, Accepted;
    var charged := Charged(Restored(snapshot), key, Entry(v, None));
    assert charged.lruOrder == [key];
    assert EvictFirst(charged).lruOrder == [];
    assert Evict(EvictFirst(charged)) == EvictFirst(charged);
    LruOrder.SetIsWritten(Restored(snapshot), key, v);
  }

  /** A SET request logs encoded text and recovery stores that text as a string: what comes back is the
      encoding, and it is the value that was set exactly when encoding leaves the text unchanged. */
  lemma RecoveredSetHoldsEncoding(codec: Codec, key: string, text: string, timestamp: nat, now: nat)
    requires KeyError(DEFAULT_CONFIG, key).None? && ByteLen(codec.encode(Str(text))) <= DEFAULT_CONFIG.maxValueSize
    ensures var log := [WalEntry(timestamp, Wal.Set(key, codec.encode(Str(text)), None))];
            var found := EntryAt(Recovered(codec, [], log, timestamp, now), key);
            && found == Some(Entry(Str(codec.encode(Str(text))), None))
            && (found == Some(Entry(Str(text), None)) <==> codec.encode(Str(text)) == text)
  {
    var log := [WalEntry(timestamp, Wal.Set(key, codec.encode(Str(text)), None))];
    assert PrefixUpTo(log[1..], timestamp) == [];
    assert PrefixUpTo(log, timestamp) == log;
    var op := TxSet(key, Str(codec.encode(Str(text))), None);
    var commands := Commands(codec, log, now);
    assert commands == [CSet(key, Str(codec.encode(Str(text))))];
    assert commands[..0] == [];
    assert AllOps(DEFAULT_CONFIG, commands) == [op];
    OneOp(NewStore(DEFAULT_CONFIG), op);
    RecoveryMeaning(codec, [], log, timestamp, now, key);
    assert [op][..0] == [];
  }
}
