/** The counters of the store's statistics count what has been done, over every run of commands. */
module Statistics {
  import opened Basics
  import opened StoreModel
  import opened Transactions
  import EntryMeanings
  import opened Decimal
  import opened HyperLogLogs

  // ----- What there is to count -----

  function DeletesIn(ops: seq<TransactionOp>): nat {
    if ops == [] then 0 else DeletesIn(ops[1..]) + if ops[0].TxDelete? then 1 else 0
  }

  lemma {:induction false} DeletesAppend(ops: seq<TransactionOp>, op: TransactionOp)
    ensures DeletesIn(ops + [op]) == DeletesIn(ops) + if op.TxDelete? then 1 else 0
    ensures DeletesIn(ops) <= |ops|
  {
    if ops != [] {
      DeletesAppend(ops[1..], op);
      assert (ops + [op])[1..] == ops[1..] + [op];
    }
  }

  /** The values that a command writes: a refused or queued write counts for nothing, an operation of a
      transaction counts when it is executed, even on a value of the wrong type. */
  ghost function Writes(s: Store, c: Command): int {
    match c
    case CSet(key, v) => if s.queue.None? && Accepted(s.config, key, v) then 1 else 0
    case CSetWithTtl(key, v, _, _) => if s.queue.None? && Accepted(s.config, key, v) then 1 else 0
    case CGetSet(key, v) => if s.queue.None? && Accepted(s.config, key, v) then 1 else 0
    case CMSet(pairs) => if s.queue.None? then |EntryMeanings.Leading(s.config, pairs)| else 0
    case CIncrBy(key, amount) => if IncrBy(s, key, amount).reply.Ok? then 1 else 0
    case CAppend(key, text) =>
      if Append(s, key, text).reply.Ok? && (key in s.entries || s.queue.None?) then 1 else 0
    case CExec => if s.queue.Some? then |s.queue.value| - DeletesIn(s.queue.value) else 0
    case _ => CollectionWrites(s, c)
  }

  ghost function CollectionWrites(s: Store, c: Command): int {
    match c
    case CPfReserve(key, precision) => if PfReserve(s, key, precision).reply.Ok? then 1 else 0
    case CPfAdd(key, hashes) => if PfAdd(s, key, hashes).reply.Ok? then 1 else 0
    case CPfMerge(destination, sources) => if PfMerge(s, destination, sources).reply.Ok? then 1 else 0
    case CPush(key, values, atHead) => if Push(s, key, values, atHead).reply.Ok? then 1 else 0
    case CPop(key, atHead) => if Pop(s, key, atHead).reply.Ok? && Pop(s, key, atHead).reply != Ok(None) then 1 else 0
    case CHSet(key, fields) => if HSet(s, key, fields).reply.Ok? then 1 else 0
    case CHDel(key, names) => if HDel(s, key, names).reply.Ok? && HDel(s, key, names).reply != Ok(0) then 1 else 0
    case CHIncrBy(key, field, amount) => if HIncrBy(s, key, field, amount).reply.Ok? then 1 else 0
    case _ => 0
  }

  /** The keys that a command deletes, missing ones included inside a transaction. */
  function Deletes(s: Store, c: Command): nat {
    match c
    case CDelete(key) => if s.queue.None? && key in s.entries then 1 else 0
    case CExec => if s.queue.Some? then DeletesIn(s.queue.value) else 0
    case _ => 0
  }

  /** The keys that a clean-up removes. */
  ghost function Expirations(s: Store, c: Command): int {
    if c.CCleanup? then |s.entries| - |Apply(s, c).entries| else 0
  }

  ghost predicate Counts(s: Store, t: Store, writes: int, deletes: int, expirations: int) {
    && t.stats.totalWrites == s.stats.totalWrites + writes && t.stats.totalDeletes == s.stats.totalDeletes + deletes
    && t.stats.expiredKeys == s.stats.expiredKeys + expirations
  }

  // ----- Each command -----

  lemma {:induction false} EvictionCountsNothing(s: Store)
    ensures Counts(s, Evict(s), 0, 0, 0)
    decreases |s.lruOrder|
  {
    if s.stats.memoryBytes > s.config.maxMemoryBytes && s.lruOrder != [] { EvictionCountsNothing(EvictFirst(s)); }
  }

  lemma SetIsCounted(s: Store, key: string, v: Value, expiresAt: Option<nat>)
    ensures Counts(s, SetEntry(s, key, v, expiresAt).store,
                   if s.queue.None? && Accepted(s.config, key, v) then 1 else 0, 0, 0)
  {
    hide SizeOf, KeyError, Evict;
    EvictionCountsNothing(Charged(s, key, Entry(v, expiresAt)));
  }

  lemma {:induction false} MSetIsCounted(s: Store, pairs: seq<(string, string)>)
    requires s.queue.None?
    ensures Counts(s, MSet(s, pairs).store, |EntryMeanings.Leading(s.config, pairs)|, 0, 0)
    decreases |pairs|
  {
    hide Set, Accepted;
    if pairs != [] {
      var key, v := pairs[0].0, Str(pairs[0].1);
      EntryMeanings.FirstPairLeaves(s, key, pairs[0].1);
      OneSetIsCounted(s, key, v);
      if Set(s, key, v).reply.Ok? { MSetIsCounted(Set(s, key, v).store, pairs[1..]); }
    }
  }

  lemma OneSetIsCounted(s: Store, key: string, v: Value)
    requires s.queue.None?
    ensures Set(s, key, v).reply.Ok? <==> Accepted(s.config, key, v)
    ensures Counts(s, Set(s, key, v).store, if Set(s, key, v).reply.Ok? then 1 else 0, 0, 0)
  {
    hide SizeOf, KeyError, Evict;
    SetIsCounted(s, key, v, None);
  }

  lemma StringCommandIsCounted(s: Store, c: Command)
    requires c.CSet? || c.CSetWithTtl? || c.CGetSet? || c.CMSet? || c.CAppend? || c.CIncrBy?
    ensures Counts(s, Apply(s, c), Writes(s, c), 0, 0)
  {
    hide SetEntry, Accepted, MSet;
    match c
    case CSet(key, v) => SetIsCounted(s, key, v, None);
    case CSetWithTtl(key, v, ttl, now) => SetIsCounted(s, key, v, ExpiryAfter(now, ttl));
    case CGetSet(key, v) => SetIsCounted(s, key, v, None);
    case CMSet(pairs) => if s.queue.None? { MSetIsCounted(s, pairs); } else { MSetQueues(s, pairs); }
    case CAppend(key, text) => AppendIsCounted(s, key, text);
    case _ =>
  }

  lemma AppendIsCounted(s: Store, key: string, text: string)
    ensures Counts(s, Append(s, key, text).store, Writes(s, CAppend(key, text)), 0, 0)
  {
    hide Evict, SizeOf, KeyError;
    if key !in s.entries { SetIsCounted(s, key, Str(text), None); }
  }

  lemma SketchCommandIsCounted(s: Store, c: Command)
    requires c.CPfReserve? || c.CPfAdd? || c.CPfMerge?
    ensures Counts(s, Apply(s, c), CollectionWrites(s, c), 0, 0)
  {
    hide SizeOf, KeyError, MergeSources, AddHashes, Touched;
  }

  lemma ListOrHashCommandIsCounted(s: Store, c: Command)
    requires c.CPush? || c.CPop? || c.CHSet? || c.CHDel? || c.CHIncrBy?
    ensures Counts(s, Apply(s, c), CollectionWrites(s, c), 0, 0)
  {
    hide SizeOf, KeyError, ParseI64, ShowInt, Touched;
  }

  lemma OpIsCounted(s: Store, op: TransactionOp)
    ensures Counts(s, ExecOp(s, op).0, if op.TxDelete? then 0 else 1, if op.TxDelete? then 1 else 0, 0)
  {
  }

  lemma {:induction false} OpsAreCounted(s: Store, ops: seq<TransactionOp>)
    ensures Counts(s, ExecOps(s, ops).0, |ops| - DeletesIn(ops), DeletesIn(ops), 0)
  {
    hide ExecOp;
    if ops != [] {
      var n := |ops| - 1;
      OpsAreCounted(s, ops[..n]);
      OpIsCounted(ExecOps(s, ops[..n]).0, ops[n]);
      DeletesAppend(ops[..n], ops[n]);
      assert ops == ops[..n] + [ops[n]];
    }
  }

  lemma CleanUpIsCounted(s: Store, now: nat)
    ensures Counts(s, CleanupExpired(s, now).store, 0, 0, |s.entries| - |CleanupExpired(s, now).store.entries|)
  {
    var due := DueKeys(s, now);
    assert due <= s.entries.Keys && (s.entries - due).Keys == s.entries.Keys - due;
  }

  lemma ExecIsCounted(s: Store)
    ensures Counts(s, Exec(s).store, Writes(s, CExec), Deletes(s, CExec), 0)
  {
    hide ExecOps;
    if s.queue.Some? { OpsAreCounted(s.(queue := None), s.queue.value); }
  }

  lemma ControlCommandIsCounted(s: Store, c: Command)
    requires c.CDelete? || c.CExpire? || c.CPersist? || c.CCleanup? || c.CMulti? || c.CExec? || c.CDiscard? ||
             c.CQueue? || c.CConfigure?
    ensures Counts(s, Apply(s, c), Writes(s, c), Deletes(s, c), Expirations(s, c))
  {
    hide Exec, CleanupExpired, SetEntry, MSet, Append;
    if c.CCleanup? { CleanUpIsCounted(s, c.now); }
    if c.CExec? { ExecIsCounted(s); }
  }

  /** Every command moves the three counters by what it writes, deletes and removes as expired. */
  lemma CommandIsCounted(s: Store, c: Command)
    ensures Counts(s, Apply(s, c), Writes(s, c), Deletes(s, c), Expirations(s, c))
  {
    hide Apply, CollectionWrites, SetEntry, MSet, Append, Accepted, IncrBy, Counts;
    if c.CSet? || c.CSetWithTtl? || c.CGetSet? || c.CMSet? || c.CAppend? || c.CIncrBy? {
      StringCommandIsCounted(s, c);
    } else if c.CPfReserve? || c.CPfAdd? || c.CPfMerge? {
      SketchCommandIsCounted(s, c);
    } else if c.CPush? || c.CPop? || c.CHSet? || c.CHDel? || c.CHIncrBy? {
      ListOrHashCommandIsCounted(s, c);
    } else {
      ControlCommandIsCounted(s, c);
    }
  }

  // ----- The key count -----

  /** The commands that bring the key count up to date: accepted sets, and commands that create a key outside
      a transaction. The others leave it alone, also when they add or remove keys. */
  ghost predicate Recounts(s: Store, c: Command) {
    match c
    case CSet(key, v) => s.queue.None? && Accepted(s.config, key, v)
    case CSetWithTtl(key, v, _, _) => s.queue.None? && Accepted(s.config, key, v)
    case CGetSet(key, v) => s.queue.None? && Accepted(s.config, key, v)
    case CMSet(pairs) => s.queue.None? && EntryMeanings.Leading(s.config, pairs) != []
    case CAppend(key, text) => s.queue.None? && key !in s.entries && Accepted(s.config, key, Str(text))
    case CPfReserve(key, _) => key !in s.entries && Writes(s, c) == 1
    case CPfAdd(key, _) => key !in s.entries && Writes(s, c) == 1
    case CPfMerge(key, _) => key !in s.entries && Writes(s, c) == 1
    case CPush(key, _, _) => key !in s.entries && Writes(s, c) == 1
    case CHSet(key, _) => key !in s.entries && Writes(s, c) == 1
    case CHIncrBy(key, _, _) => key !in s.entries && Writes(s, c) == 1
    case _ => false
  }

  ghost predicate KeysCounted(s: Store, t: Store, recounted: bool) {
    t.stats.totalKeys == if recounted then |t.entries| else s.stats.totalKeys
  }

  lemma {:induction false} EvictionRecounts(s: Store)
    requires s.stats.totalKeys == |s.entries|
    ensures Evict(s).stats.totalKeys == |Evict(s).entries|
    decreases |s.lruOrder|
  {
    if s.stats.memoryBytes > s.config.maxMemoryBytes && s.lruOrder != [] {
      EvictionRecounts(EvictFirst(s));
    }
  }

  lemma SetRecounts(s: Store, key: string, v: Value, expiresAt: Option<nat>)
    ensures KeysCounted(s, SetEntry(s, key, v, expiresAt).store, s.queue.None? && Accepted(s.config, key, v))
  {
    hide SizeOf, KeyError, Evict;
    EvictionRecounts(Charged(s, key, Entry(v, expiresAt)));
  }

  lemma {:induction false} MSetRecounts(s: Store, pairs: seq<(string, string)>)
    requires s.queue.None?
    ensures KeysCounted(s, MSet(s, pairs).store, EntryMeanings.Leading(s.config, pairs) != [])
    ensures EntryMeanings.Leading(s.config, pairs) == [] ==> MSet(s, pairs).store == s
    decreases |pairs|
  {
    hide SetEntry, Accepted;
    if pairs != [] {
      var key, v := pairs[0].0, Str(pairs[0].1);
      EntryMeanings.FirstPairLeaves(s, key, pairs[0].1);
      OneSetIsCounted(s, key, v);
      SetRecounts(s, key, v, None);
      if Set(s, key, v).reply.Ok? { MSetRecounts(Set(s, key, v).store, pairs[1..]); }
    }
  }

  lemma StringCommandRecounts(s: Store, c: Command)
    requires c.CSet? || c.CSetWithTtl? || c.CGetSet? || c.CMSet? || c.CAppend? || c.CIncrBy?
    ensures KeysCounted(s, Apply(s, c), Recounts(s, c))
  {
    hide SetEntry, Accepted, MSet;
    match c
    case CSet(key, v) => SetRecounts(s, key, v, None);
    case CSetWithTtl(key, v, ttl, now) => SetRecounts(s, key, v, ExpiryAfter(now, ttl));
    case CGetSet(key, v) => SetRecounts(s, key, v, None);
    case CMSet(pairs) => if s.queue.None? { MSetRecounts(s, pairs); } else { MSetQueues(s, pairs); }
    case CAppend(key, text) => SetRecounts(s, key, Str(text), None);
    case _ =>
  }

  lemma SketchCommandRecounts(s: Store, c: Command)
    requires c.CPfReserve? || c.CPfAdd? || c.CPfMerge?
    ensures KeysCounted(s, Apply(s, c), Recounts(s, c))
  {
    hide SizeOf, KeyError, MergeSources, AddHashes, Touched;
  }

  lemma ListOrHashCommandRecounts(s: Store, c: Command)
    requires c.CPush? || c.CPop? || c.CHSet? || c.CHDel? || c.CHIncrBy?
    ensures KeysCounted(s, Apply(s, c), Recounts(s, c))
  {
    hide SizeOf, KeyError, ParseI64, ShowInt, Touched;
  }

  lemma {:induction false} OpsRecountNothing(s: Store, ops: seq<TransactionOp>)
    ensures KeysCounted(s, ExecOps(s, ops).0, false)
  {
    if ops != [] { OpsRecountNothing(s, ops[..|ops| - 1]); }
  }

  lemma ControlCommandRecounts(s: Store, c: Command)
    requires c.CDelete? || c.CExpire? || c.CPersist? || c.CCleanup? || c.CMulti? || c.CExec? || c.CDiscard? ||
             c.CQueue? || c.CConfigure?
    ensures KeysCounted(s, Apply(s, c), false)
  {
    hide ExecOps;
    if c.CExec? && s.queue.Some? { OpsRecountNothing(s.(queue := None), s.queue.value); }
  }

  /** After a command the key count is the number of keys, expired ones included, exactly when the command
      recounts; any other command leaves the count as it was. */
  lemma KeyCountExactlyWhen(s: Store, c: Command)
    ensures Apply(s, c).stats.totalKeys == if Recounts(s, c) then |Apply(s, c).entries| else s.stats.totalKeys
  {
    hide Apply, Writes, Accepted;
    if c.CSet? || c.CSetWithTtl? || c.CGetSet? || c.CMSet? || c.CAppend? || c.CIncrBy? {
      StringCommandRecounts(s, c);
    } else if c.CPfReserve? || c.CPfAdd? || c.CPfMerge? {
      SketchCommandRecounts(s, c);
    } else if c.CPush? || c.CPop? || c.CHSet? || c.CHDel? || c.CHIncrBy? {
      ListOrHashCommandRecounts(s, c);
    } else {
      ControlCommandRecounts(s, c);
    }
  }

  // ----- Runs -----

  ghost function WritesInRun(s: Store, commands: seq<Command>): int {
    if commands == [] then 0
    else
      var n := |commands| - 1;
      WritesInRun(s, commands[..n]) + Writes(Run(s, commands[..n]), commands[n])
  }

  ghost function DeletesInRun(s: Store, commands: seq<Command>): int {
    if commands == [] then 0
    else
      var n := |commands| - 1;
      DeletesInRun(s, commands[..n]) + Deletes(Run(s, commands[..n]), commands[n])
  }

  ghost function ExpirationsInRun(s: Store, commands: seq<Command>): int {
    if commands == [] then 0
    else
      var n := |commands| - 1;
      ExpirationsInRun(s, commands[..n]) + Expirations(Run(s, commands[..n]), commands[n])
  }

  /** Over every run the counters are the sums of what its commands did. */
  lemma {:induction false} RunIsCounted(s: Store, commands: seq<Command>)
    ensures Counts(s, Run(s, commands),
                   WritesInRun(s, commands), DeletesInRun(s, commands), ExpirationsInRun(s, commands))
  {
    hide Apply, Writes, Deletes, Expirations;
    if commands != [] {
      var n := |commands| - 1;
      RunIsCounted(s, commands[..n]);
      CommandIsCounted(Run(s, commands[..n]), commands[n]);
    }
  }
}
