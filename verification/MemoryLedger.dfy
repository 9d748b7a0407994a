/** The memory counter against the bytes that are really there. The counter is charged on writes and
    relieved only by eviction, so it drifts away from the live bytes; the ledger books every drift. */
module MemoryLedger {
  import opened Basics
  import opened StoreModel
  import opened LruOrder

  /** Bytes that grew without being charged, bytes that went without being relieved, and bytes that
      eviction could not relieve because the counter stops at zero. */
  datatype Ledger = Ledger(uncharged: nat, dropped: nat, clipped: nat)

  ghost predicate Balanced(s: Store, g: Ledger) {
    s.stats.memoryBytes + g.uncharged == LiveBytes(s) + g.dropped + g.clipped
  }

  // ----- What each command books -----

  ghost function ClippedByEviction(s: Store): nat
    decreases |s.lruOrder|
  {
    if s.stats.memoryBytes <= s.config.maxMemoryBytes || s.lruOrder == [] then 0
    else MonusNat(SizeAt(s, s.lruOrder[0]), s.stats.memoryBytes) + ClippedByEviction(EvictFirst(s))
  }

  /** A value that changes from `before` to `after` bytes with no charge. */
  function Resize(g: Ledger, before: nat, after: nat): Ledger {
    g.(uncharged := g.uncharged + MonusNat(after, before), dropped := g.dropped + MonusNat(before, after))
  }

  /** A charged write drops the value it replaces; the eviction after it may clip. */
  ghost function BookWrite(s: Store, g: Ledger, key: string, e: Entry): Ledger {
    g.(dropped := g.dropped + SizeAt(s, key),
       clipped := g.clipped + if EvictionOn(s.config) then ClippedByEviction(Charged(s, key, e)) else 0)
  }

  ghost function BookSet(s: Store, g: Ledger, key: string, v: Value, expiresAt: Option<nat>): Ledger {
    if s.queue.None? && Accepted(s.config, key, v) then BookWrite(s, g, key, Entry(v, expiresAt)) else g
  }

  ghost function BookMSet(s: Store, g: Ledger, pairs: seq<(string, string)>): Ledger
    decreases |pairs|
  {
    if pairs == [] || !Accepted(s.config, pairs[0].0, Str(pairs[0].1)) then g
    else BookMSet(Set(s, pairs[0].0, Str(pairs[0].1)).store,
                  BookSet(s, g, pairs[0].0, Str(pairs[0].1), None), pairs[1..])
  }

  ghost function BookExec(s: Store, g: Ledger, ops: seq<TransactionOp>): Ledger {
    if ops == [] then g
    else
      var before, op := ExecOps(s, ops[..|ops| - 1]).0, ops[|ops| - 1];
      Resize(BookExec(s, g, ops[..|ops| - 1]), SizeAt(before, op.key), SizeAt(ExecOp(before, op).0, op.key))
  }

  /** The key of a command that changes at most one entry in place. */
  function KeyOf(c: Command): Option<string> {
    match c
    case CDelete(key) => Some(key)
    case CIncrBy(key, _) => Some(key)
    case CExpire(key, _, _) => Some(key)
    case CPersist(key) => Some(key)
    case CPfReserve(key, _) => Some(key)
    case CPfAdd(key, _) => Some(key)
    case CPfMerge(key, _) => Some(key)
    case CPush(key, _, _) => Some(key)
    case CPop(key, _) => Some(key)
    case CHSet(key, _) => Some(key)
    case CHDel(key, _) => Some(key)
    case CHIncrBy(key, _, _) => Some(key)
    case _ => None
  }

  /** Creating a key is charged in full; changing a key that is there is not charged at all. */
  ghost function BookInPlace(s: Store, g: Ledger, t: Store, key: string): Ledger {
    if key in s.entries then Resize(g, SizeAt(s, key), SizeAt(t, key)) else g
  }

  ghost function Book(s: Store, g: Ledger, c: Command): Ledger {
    match c
    case CSet(key, v) => BookSet(s, g, key, v, None)
    case CSetWithTtl(key, v, ttl, now) => BookSet(s, g, key, v, ExpiryAfter(now, ttl))
    case CGetSet(key, v) => BookSet(s, g, key, v, None)
    case CMSet(pairs) => BookMSet(s, g, pairs)
    case CAppend(key, text) =>
      if key in s.entries then BookInPlace(s, g, Apply(s, c), key) else BookSet(s, g, key, Str(text), None)
    case CCleanup(now) =>
      g.(dropped := g.dropped + SumOver(s.entries - (s.entries.Keys - DueKeys(s, now)), EntrySize))
    case CExec => if s.queue.Some? then BookExec(s.(queue := None), g, s.queue.value) else g
    case _ => if KeyOf(c).Some? then BookInPlace(s, g, Apply(s, c), KeyOf(c).value) else g
  }

  // ----- One key at a time -----

  lemma LiveSplit(s: Store, key: string)
    ensures LiveBytes(s) == SumOver(s.entries - {key}, EntrySize) + SizeAt(s, key)
  {
    if key in s.entries { SumWithout(s.entries, EntrySize, key); } else { assert s.entries - {key} == s.entries; }
  }

  ghost predicate OnlyKeyChanges(s: Store, t: Store, key: string) {
    t.entries - {key} == s.entries - {key}
  }

  lemma ResizeBalances(s: Store, g: Ledger, t: Store, key: string)
    requires Balanced(s, g) && OnlyKeyChanges(s, t, key)
    requires t.stats.memoryBytes == s.stats.memoryBytes
    ensures Balanced(t, Resize(g, SizeAt(s, key), SizeAt(t, key)))
  {
    LiveSplit(s, key);
    LiveSplit(t, key);
  }

  lemma ChargeBalances(s: Store, g: Ledger, t: Store, key: string)
    requires Balanced(s, g) && OnlyKeyChanges(s, t, key)
    requires t.stats.memoryBytes == s.stats.memoryBytes + SizeAt(t, key)
    ensures Balanced(t, g.(dropped := g.dropped + SizeAt(s, key)))
  {
    LiveSplit(s, key);
    LiveSplit(t, key);
  }

  // ----- Commands -----

  lemma EvictFirstBalances(s: Store, g: Ledger)
    requires Balanced(s, g) && s.lruOrder != []
    ensures Balanced(EvictFirst(s),
                     g.(clipped := g.clipped + MonusNat(SizeAt(s, s.lruOrder[0]), s.stats.memoryBytes)))
  {
    LiveSplit(s, s.lruOrder[0]);
    EvictFirstRemovesOne(s);
  }

  lemma {:induction false} EvictBalances(s: Store, g: Ledger)
    requires Balanced(s, g)
    ensures Balanced(Evict(s), g.(clipped := g.clipped + ClippedByEviction(s)))
    decreases |s.lruOrder|
  {
    if s.stats.memoryBytes > s.config.maxMemoryBytes && s.lruOrder != [] {
      EvictFirstBalances(s, g);
      EvictBalances(EvictFirst(s),
                    g.(clipped := g.clipped + MonusNat(SizeAt(s, s.lruOrder[0]), s.stats.memoryBytes)));
    }
  }

  lemma WriteBalances(s: Store, g: Ledger, key: string, e: Entry)
    requires Balanced(s, g)
    ensures Balanced(Written(s, key, e), BookWrite(s, g, key, e))
  {
    var t := Charged(s, key, e);
    assert t.entries - {key} == s.entries - {key};
    ChargeBalances(s, g, t, key);
    EvictBalances(t, g.(dropped := g.dropped + SizeAt(s, key)));
  }

  lemma SetBalances(s: Store, g: Ledger, key: string, v: Value, expiresAt: Option<nat>)
    requires Balanced(s, g)
    ensures Balanced(SetEntry(s, key, v, expiresAt).store, BookSet(s, g, key, v, expiresAt))
  {
    WriteBalances(s, g, key, Entry(v, expiresAt));
  }

  lemma {:induction false} MSetBalances(s: Store, g: Ledger, pairs: seq<(string, string)>)
    requires Balanced(s, g)
    ensures Balanced(MSet(s, pairs).store, BookMSet(s, g, pairs))
    decreases |pairs|
  {
    if pairs != [] && Accepted(s.config, pairs[0].0, Str(pairs[0].1)) {
      var key, v := pairs[0].0, Str(pairs[0].1);
      SetBalances(s, g, key, v, None);
      MSetBalances(Set(s, key, v).store, BookSet(s, g, key, v, None), pairs[1..]);
    }
  }

  lemma ExecOpChangesItsKey(s: Store, op: TransactionOp)
    ensures OnlyKeyChanges(s, ExecOp(s, op).0, op.key)
    ensures ExecOp(s, op).0.stats.memoryBytes == s.stats.memoryBytes
  {
  }

  lemma {:induction false} ExecBalances(s: Store, g: Ledger, ops: seq<TransactionOp>)
    requires Balanced(s, g)
    ensures Balanced(ExecOps(s, ops).0, BookExec(s, g, ops))
  {
    if ops != [] {
      var front, op := ops[..|ops| - 1], ops[|ops| - 1];
      ExecBalances(s, g, front);
      var before := ExecOps(s, front).0;
      ExecOpChangesItsKey(before, op);
      ResizeBalances(before, BookExec(s, g, front), ExecOp(before, op).0, op.key);
    }
  }

  lemma CleanupBalances(s: Store, g: Ledger, now: nat)
    requires Balanced(s, g)
    ensures Balanced(Apply(s, CCleanup(now)), Book(s, g, CCleanup(now)))
  {
    var due := DueKeys(s, now);
    var kept, gone := s.entries - due, s.entries - (s.entries.Keys - due);
    assert s.entries == kept + gone;
    SumDisjoint(kept, gone, EntrySize);
  }

  /** An in-place command changes one entry; the counter moves only when it creates the key. */
  ghost predicate ChangesOneEntry(s: Store, t: Store, key: string) {
    OnlyKeyChanges(s, t, key) &&
    t.stats.memoryBytes == s.stats.memoryBytes + if key in s.entries then 0 else SizeAt(t, key)
  }

  lemma PfReserveChanges(s: Store, key: string, precision: nat)
    ensures ChangesOneEntry(s, PfReserve(s, key, precision).store, key)
  {
  }

  lemma PfAddChanges(s: Store, key: string, hashes: seq<U64>)
    ensures ChangesOneEntry(s, PfAdd(s, key, hashes).store, key)
  {
  }

  lemma PfMergeChanges(s: Store, destination: string, sources: seq<string>)
    ensures ChangesOneEntry(s, PfMerge(s, destination, sources).store, destination)
  {
  }

  lemma PushChanges(s: Store, key: string, values: seq<string>, atHead: bool)
    ensures ChangesOneEntry(s, Push(s, key, values, atHead).store, key)
  {
  }

  lemma PopChanges(s: Store, key: string, atHead: bool)
    ensures ChangesOneEntry(s, Pop(s, key, atHead).store, key)
  {
  }

  lemma HSetChanges(s: Store, key: string, fields: map<string, string>)
    ensures ChangesOneEntry(s, HSet(s, key, fields).store, key)
  {
  }

  lemma HDelChanges(s: Store, key: string, names: seq<string>)
    ensures ChangesOneEntry(s, HDel(s, key, names).store, key)
  {
  }

  lemma HIncrByChanges(s: Store, key: string, field: string, amount: int)
    ensures ChangesOneEntry(s, HIncrBy(s, key, field, amount).store, key)
  {
  }

  lemma IncrByChanges(s: Store, key: string, amount: int)
    ensures ChangesOneEntry(s, IncrBy(s, key, amount).store, key)
  {
  }

  lemma DeleteChanges(s: Store, key: string)
    ensures ChangesOneEntry(s, Delete(s, key).store, key)
  {
  }

  lemma ExpireChanges(s: Store, key: string, ttl: nat, now: nat)
    ensures ChangesOneEntry(s, Expire(s, key, ttl, now).store, key)
  {
  }

  lemma PersistChanges(s: Store, key: string)
    ensures ChangesOneEntry(s, Persist(s, key).store, key)
  {
  }

  lemma InPlaceCommandChanges(s: Store, c: Command)
    requires KeyOf(c).Some?
    ensures ChangesOneEntry(s, Apply(s, c), KeyOf(c).value)
  {
    hide ChangesOneEntry;
    hide Set, SetWithTtl, Append, GetSet, MSet, CleanupExpired, Multi, Exec, Discard, QueueOperation;
    hide PfReserve, PfAdd, PfMerge, Push, Pop, HSet, HDel, HIncrBy, IncrBy, Delete, Expire, Persist;
    match c
    case CPfReserve(key, precision) => PfReserveChanges(s, key, precision);
    case CPfAdd(key, hashes) => PfAddChanges(s, key, hashes);
    case CPfMerge(destination, sources) => PfMergeChanges(s, destination, sources);
    case CPush(key, values, atHead) => PushChanges(s, key, values, atHead);
    case CPop(key, atHead) => PopChanges(s, key, atHead);
    case CHSet(key, fields) => HSetChanges(s, key, fields);
    case CHDel(key, names) => HDelChanges(s, key, names);
    case CHIncrBy(key, field, amount) => HIncrByChanges(s, key, field, amount);
    case CIncrBy(key, amount) => IncrByChanges(s, key, amount);
    case CDelete(key) => DeleteChanges(s, key);
    case CExpire(key, ttl, now) => ExpireChanges(s, key, ttl, now);
    case CPersist(key) => PersistChanges(s, key);
  }

  lemma InPlaceBalances(s: Store, g: Ledger, c: Command)
    requires Balanced(s, g) && KeyOf(c).Some?
    ensures Balanced(Apply(s, c), BookInPlace(s, g, Apply(s, c), KeyOf(c).value))
  {
    InPlaceCommandChanges(s, c);
    hide Apply, KeyOf;
    var t, key := Apply(s, c), KeyOf(c).value;
    if key in s.entries { ResizeBalances(s, g, t, key); } else { ChargeBalances(s, g, t, key); }
  }

  lemma AppendBalances(s: Store, g: Ledger, key: string, text: string)
    requires Balanced(s, g)
    ensures Balanced(Apply(s, CAppend(key, text)), Book(s, g, CAppend(key, text)))
  {
    if key in s.entries {
      ResizeBalances(s, g, Apply(s, CAppend(key, text)), key);
    } else {
      SetBalances(s, g, key, Str(text), None);
    }
  }

  lemma ExecCommandBalances(s: Store, g: Ledger)
    requires Balanced(s, g)
    ensures Balanced(Exec(s).store, if s.queue.Some? then BookExec(s.(queue := None), g, s.queue.value) else g)
  {
    hide ExecOps, BookExec;
    if s.queue.Some? { ExecBalances(s.(queue := None), g, s.queue.value); }
  }

  lemma TransactionControlBalances(s: Store, g: Ledger, c: Command)
    requires Balanced(s, g) && (c.CMulti? || c.CDiscard? || c.CQueue? || c.CConfigure?)
    ensures Balanced(Apply(s, c), g)
  {
    hide Set, SetWithTtl, Delete, IncrBy, Append, GetSet, MSet, Expire, Persist, CleanupExpired, PfReserve;
    hide PfAdd, PfMerge, Push, Pop, HSet, HDel, HIncrBy, Exec;
  }

  /** Every command keeps the ledger balanced. */
  lemma ApplyBalances(s: Store, g: Ledger, c: Command)
    requires Balanced(s, g)
    ensures Balanced(Apply(s, c), Book(s, g, c))
  {
    hide Balanced, SetEntry, Delete, IncrBy, Append, MSet, Expire, Persist, CleanupExpired, PfReserve;
    hide PfAdd, PfMerge, Push, Pop, HSet, HDel, HIncrBy, Multi, Discard, QueueOperation, Exec;
    hide BookSet, BookMSet, BookExec, BookInPlace, DueKeys;
    match c
    case CSet(key, v) => SetBalances(s, g, key, v, None);
    case CSetWithTtl(key, v, ttl, now) => SetBalances(s, g, key, v, ExpiryAfter(now, ttl));
    case CGetSet(key, v) => SetBalances(s, g, key, v, None);
    case CMSet(pairs) => MSetBalances(s, g, pairs);
    case CAppend(key, text) => AppendBalances(s, g, key, text);
    case CCleanup(now) => CleanupBalances(s, g, now);
    case CExec => ExecCommandBalances(s, g);
    case _ => if KeyOf(c).Some? { InPlaceBalances(s, g, c); } else { TransactionControlBalances(s, g, c); }
  }

  ghost function BookRun(s: Store, g: Ledger, commands: seq<Command>): Ledger {
    if commands == [] then g
    else
      var front := commands[..|commands| - 1];
      Book(Run(s, front), BookRun(s, g, front), commands[|commands| - 1])
  }

  /** Over every run of commands: counter + uncharged growth = live bytes + dropped + clipped. */
  lemma {:induction false} RunBalances(s: Store, g: Ledger, commands: seq<Command>)
    requires Balanced(s, g)
    ensures Balanced(Run(s, commands), BookRun(s, g, commands))
  {
    if commands != [] {
      var front := commands[..|commands| - 1];
      RunBalances(s, g, front);
      ApplyBalances(Run(s, front), BookRun(s, g, front), commands[|commands| - 1]);
    }
  }

  // ----- The memory limit -----

  lemma {:induction false} EvictReachesLimit(s: Store)
    requires Covered(s)
    ensures Evict(s).stats.memoryBytes <= s.config.maxMemoryBytes || LiveBytes(Evict(s)) == 0
  {
    var n := EvictionIsShortestPrefix(s);
    if n == |s.lruOrder| {
      assert s.lruOrder[..n] == s.lruOrder;
      assert Evict(s).entries.Keys == {};
    }
  }

  /** In every run from a new store, once a plain set has gone through with eviction on, the live
      bytes exceed the limit by no more than the growth that was never charged. */
  lemma SetHonoursLimit(config: Config, commands: seq<Command>, key: string, v: Value)
    requires var s := Run(NewStore(config), commands);
             s.queue.None? && Accepted(s.config, key, v) && EvictionOn(s.config)
    ensures var start, all := NewStore(config), commands + [CSet(key, v)];
            LiveBytes(Run(start, all)) <= Run(start, all).config.maxMemoryBytes
                                          + BookRun(start, Ledger(0, 0, 0), all).uncharged
  {
    var start, all, empty := NewStore(config), commands + [CSet(key, v)], Ledger(0, 0, 0);
    assert all[..|all| - 1] == commands;
    var s := Run(start, commands);
    RunBalances(start, empty, all);
    RunKeepsIndexed(start, [], commands);
    var charged := Charged(s, key, Entry(v, None));
    ChargedIsCovered(s, key, Entry(v, None));
    EvictReachesLimit(charged);
    EvictKeepsSettings(charged);
  }

  /** The commands that never let a value grow in place. */
  predicate NoGrowthInPlace(c: Command) {
    c.CSet? || c.CSetWithTtl? || c.CGetSet? || c.CMSet? || c.CDelete? || c.CExpire? || c.CPersist? || c.CCleanup? ||
    c.CPfReserve? || c.CConfigure?
  }

  lemma {:induction false} MSetIsCharged(s: Store, g: Ledger, pairs: seq<(string, string)>)
    ensures BookMSet(s, g, pairs).uncharged == g.uncharged
    decreases |pairs|
  {
    hide Set, ClippedByEviction;
    if pairs != [] && Accepted(s.config, pairs[0].0, Str(pairs[0].1)) {
      MSetIsCharged(Set(s, pairs[0].0, Str(pairs[0].1)).store,
                    BookSet(s, g, pairs[0].0, Str(pairs[0].1), None), pairs[1..]);
    }
  }

  lemma NoGrowthIsBooked(s: Store, g: Ledger, c: Command)
    requires NoGrowthInPlace(c)
    ensures Book(s, g, c).uncharged == g.uncharged
  {
    hide SizeOf, MSet, SetEntry, ClippedByEviction;
    if c.CMSet? { MSetIsCharged(s, g, c.pairs); }
  }

  /** In runs without growth in place the live bytes are within the limit after every accepted plain set. */
  lemma {:induction false} LimitIsKept(config: Config, commands: seq<Command>, key: string, v: Value)
    requires forall i :: 0 <= i < |commands| ==> NoGrowthInPlace(commands[i])
    requires var s := Run(NewStore(config), commands);
             s.queue.None? && Accepted(s.config, key, v) && EvictionOn(s.config)
    ensures var t := Run(NewStore(config), commands + [CSet(key, v)]);
            LiveBytes(t) <= t.config.maxMemoryBytes
  {
    hide Book, Apply, Accepted, LiveBytes, NoGrowthInPlace;
    SetHonoursLimit(config, commands, key, v);
    var all := commands + [CSet(key, v)];
    assert NoGrowthInPlace(CSet(key, v)) by { SetGrowsNothing(key, v); }
    NothingUncharged(NewStore(config), all);
  }

  lemma SetGrowsNothing(key: string, v: Value)
    ensures NoGrowthInPlace(CSet(key, v))
  {
  }

  lemma {:induction false} NothingUncharged(s: Store, commands: seq<Command>)
    requires forall i :: 0 <= i < |commands| ==> NoGrowthInPlace(commands[i])
    ensures BookRun(s, Ledger(0, 0, 0), commands).uncharged == 0
  {
    hide Book, Apply, NoGrowthInPlace;
    if commands != [] {
      var front := commands[..|commands| - 1];
      NothingUncharged(s, front);
      NoGrowthIsBooked(Run(s, front), BookRun(s, Ledger(0, 0, 0), front), commands[|commands| - 1]);
    }
  }

  lemma ChargedIsCovered(s: Store, key: string, e: Entry)
    requires Covered(s)
    ensures Covered(Charged(s, key, e))
  {
    WithoutElements(s.lruOrder, key);
    WithoutKeepsNoDuplicates(s.lruOrder, key);
    TouchedElements(s.lruOrder, key);
  }

  // ----- Writes to fresh keys -----

  ghost predicate Exact(s: Store) { s.stats.memoryBytes == LiveBytes(s) && Covered(s) }

  lemma EvictFirstKeepsExact(s: Store)
    requires Exact(s) && s.lruOrder != []
    ensures Exact(EvictFirst(s))
  {
    LiveSplit(s, s.lruOrder[0]);
    EvictFirstRemovesOne(s);
    assert s.lruOrder == [s.lruOrder[0]] + s.lruOrder[1..];
  }

  lemma OnlyKeyLeft(s: Store, key: string)
    requires Covered(s) && s.lruOrder != [] && s.lruOrder[0] == key && s.lruOrder[|s.lruOrder| - 1] == key
    ensures LiveBytes(s) == SizeAt(s, key)
  {
    assert |s.lruOrder| == 1;
    LiveSplit(s, key);
    assert s.entries - {key} == map[];
  }

  /** From an exact counter, eviction spares the most recent key when its value fits the limit. */
  lemma {:induction false} EvictSparesNewest(s: Store, key: string)
    requires Exact(s) && key in s.entries && SizeAt(s, key) <= s.config.maxMemoryBytes
    requires s.lruOrder != [] && s.lruOrder[|s.lruOrder| - 1] == key
    ensures Exact(Evict(s)) && Evict(s).stats.memoryBytes <= s.config.maxMemoryBytes
    ensures key in Evict(s).entries && Evict(s).entries[key] == s.entries[key]
    decreases |s.lruOrder|
  {
    hide EvictFirst, Covered, LiveBytes;
    if s.stats.memoryBytes > s.config.maxMemoryBytes {
      if s.lruOrder[0] == key {
        OnlyKeyLeft(s, key);
        assert false;
      }
      EvictFirstKeepsExact(s);
      EvictFirstRemovesOne(s);
      EvictSparesNewest(EvictFirst(s), key);
    }
  }

  /** A run of sets, each to a key that is not live when it is written, with a value that fits. */
  ghost predicate FreshWrites(s: Store, writes: seq<(string, Value)>) {
    writes == [] ||
    (FreshWrites(s, writes[..|writes| - 1]) &&
     var (key, v) := writes[|writes| - 1];
     key !in AfterWrites(s, writes[..|writes| - 1]).entries && Accepted(s.config, key, v) &&
     SizeOf(v) <= s.config.maxMemoryBytes)
  }

  ghost function AfterWrites(s: Store, writes: seq<(string, Value)>): Store {
    if writes == [] then s
    else Set(AfterWrites(s, writes[..|writes| - 1]), writes[|writes| - 1].0, writes[|writes| - 1].1).store
  }

  lemma FreshWriteSurvives(s: Store, key: string, v: Value)
    requires Exact(s) && s.queue.None? && EvictionOn(s.config)
    requires key !in s.entries && Accepted(s.config, key, v) && SizeOf(v) <= s.config.maxMemoryBytes
    ensures var t := Set(s, key, v).store;
            Exact(t) && t.stats.memoryBytes <= s.config.maxMemoryBytes && t.config == s.config && t.queue.None? &&
            key in t.entries && t.entries[key] == Entry(v, None)
  {
    var t := Charged(s, key, Entry(v, None));
    ChargedIsCovered(s, key, Entry(v, None));
    SumUpdate(s.entries, EntrySize, key, Entry(v, None));
    EvictSparesNewest(t, key);
    EvictKeepsSettings(t);
  }

  /** Fresh writes keep the counter exact and within the limit, and the last one is there. */
  lemma {:induction false} FreshWritesSurvive(s: Store, writes: seq<(string, Value)>)
    requires Exact(s) && s.queue.None? && EvictionOn(s.config) && FreshWrites(s, writes)
    ensures Exact(AfterWrites(s, writes)) && AfterWrites(s, writes).config == s.config
    ensures AfterWrites(s, writes).queue.None?
    ensures writes != [] ==> AfterWrites(s, writes).stats.memoryBytes <= s.config.maxMemoryBytes
    ensures writes != [] ==>
              var (key, v) := writes[|writes| - 1];
              key in AfterWrites(s, writes).entries && AfterWrites(s, writes).entries[key] == Entry(v, None)
  {
    if writes != [] {
      var front := writes[..|writes| - 1];
      FreshWritesSurvive(s, front);
      FreshWriteSurvives(AfterWrites(s, front), writes[|writes| - 1].0, writes[|writes| - 1].1);
    }
  }
}
