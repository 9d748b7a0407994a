/** MULTI, EXEC and DISCARD: a queued run of writes against the same run done directly. */
module Transactions {
  import opened Basics
  import opened StoreModel
  import opened LruOrder

  /** The commands that a transaction queues. The others act at once even inside a transaction. */
  predicate Queueable(c: Command) {
    c.CSet? || c.CSetWithTtl? || c.CDelete? || c.CMSet? || c.CGetSet?
  }

  ghost predicate AllQueueable(commands: seq<Command>) {
    forall i :: 0 <= i < |commands| ==> Queueable(commands[i])
  }

  ghost function SetOps(c: Config, key: string, v: Value, expiresAt: Option<nat>): seq<TransactionOp> {
    if Accepted(c, key, v) then [TxSet(key, v, expiresAt)] else []
  }

  ghost function MSetOps(c: Config, pairs: seq<(string, string)>): seq<TransactionOp> {
    if pairs == [] || !Accepted(c, pairs[0].0, Str(pairs[0].1)) then []
    else [TxSet(pairs[0].0, Str(pairs[0].1), None)] + MSetOps(c, pairs[1..])
  }

  /** What a queueable command puts in the queue: nothing from the first refused write on. */
  ghost function OpsOf(config: Config, c: Command): seq<TransactionOp>
    requires Queueable(c)
  {
    match c
    case CSet(key, v) => SetOps(config, key, v, None)
    case CSetWithTtl(key, v, ttl, now) => SetOps(config, key, v, ExpiryAfter(now, ttl))
    case CGetSet(key, v) => SetOps(config, key, v, None)
    case CDelete(key) => [TxDelete(key)]
    case CMSet(pairs) => MSetOps(config, pairs)
  }

  ghost function AllOps(config: Config, commands: seq<Command>): seq<TransactionOp>
    requires AllQueueable(commands)
  {
    if commands == [] then []
    else AllOps(config, commands[..|commands| - 1]) + OpsOf(config, commands[|commands| - 1])
  }

  // ----- Queueing -----

  lemma {:induction false} MSetQueues(s: Store, pairs: seq<(string, string)>)
    requires s.queue.Some?
    ensures MSet(s, pairs).store == s.(queue := Some(s.queue.value + MSetOps(s.config, pairs)))
    decreases |pairs|
  {
    if pairs == [] || !Accepted(s.config, pairs[0].0, Str(pairs[0].1)) {
      assert s.queue.value + [] == s.queue.value;
    } else {
      var op := TxSet(pairs[0].0, Str(pairs[0].1), None);
      MSetQueues(Queued(s, op), pairs[1..]);
      assert s.queue.value + [op] + MSetOps(s.config, pairs[1..])
          == s.queue.value + MSetOps(s.config, pairs);
    }
  }

  lemma CommandQueues(s: Store, c: Command)
    requires s.queue.Some? && Queueable(c)
    ensures Apply(s, c) == s.(queue := Some(s.queue.value + OpsOf(s.config, c)))
  {
    assert s.queue.value + [] == s.queue.value;
    if c.CMSet? { MSetQueues(s, c.pairs); }
  }

  /** Inside a transaction, queueable commands change nothing but the queue. */
  lemma {:induction false} RunQueues(s: Store, commands: seq<Command>)
    requires s.queue == Some([]) && AllQueueable(commands)
    ensures Run(s, commands) == s.(queue := Some(AllOps(s.config, commands)))
  {
    if commands != [] {
      var front := commands[..|commands| - 1];
      RunQueues(s, front);
      CommandQueues(Run(s, front), commands[|commands| - 1]);
    }
  }

  // ----- Executing -----

  /** Same entries, same LRU order, same number of writes. */
  ghost predicate SameView(a: Store, b: Store) {
    a.entries == b.entries && a.lruOrder == b.lruOrder && a.stats.totalWrites == b.stats.totalWrites
  }

  lemma {:induction false} ExecOpsAppend(s: Store, a: seq<TransactionOp>, b: seq<TransactionOp>)
    ensures ExecOps(s, a + b).0 == ExecOps(ExecOps(s, a).0, b).0
  {
    if b == [] {
      assert a + b == a;
    } else {
      ExecOpsAppend(s, a, b[..|b| - 1]);
      assert (a + b)[..|a + b| - 1] == a + b[..|b| - 1];
    }
  }

  /** Bytes that the sets among `ops` write. */
  ghost function BytesOf(ops: seq<TransactionOp>): nat {
    if ops == [] then 0
    else (if ops[0].TxSet? then SizeOf(ops[0].value) else 0) + BytesOf(ops[1..])
  }

  lemma {:induction false} BytesOfAppend(a: seq<TransactionOp>, b: seq<TransactionOp>)
    ensures BytesOf(a + b) == BytesOf(a) + BytesOf(b)
  {
    if a == [] {
      assert a + b == b;
    } else {
      assert (a + b)[1..] == a[1..] + b;
      BytesOfAppend(a[1..], b);
    }
  }

  lemma OneOp(t: Store, op: TransactionOp)
    ensures ExecOps(t, [op]).0 == ExecOp(t, op).0
    ensures BytesOf([op]) == if op.TxSet? then SizeOf(op.value) else 0
  {
    assert [op][..0] == [];
  }

  // ----- The direct run, one set or delete at a time -----

  ghost predicate SetsAndDeletes(ops: seq<TransactionOp>) {
    forall i :: 0 <= i < |ops| ==> ops[i].TxSet? || ops[i].TxDelete?
  }

  /** A queued set or delete done directly: a set is charged and may evict. */
  ghost function Directly(s: Store, op: TransactionOp): Store
    requires op.TxSet? || op.TxDelete?
  {
    match op
    case TxSet(key, v, expiresAt) => Written(s, key, Entry(v, expiresAt))
    case TxDelete(key) => Delete(s, key).store
  }

  ghost function DirectOps(s: Store, ops: seq<TransactionOp>): Store
    requires SetsAndDeletes(ops)
  {
    if ops == [] then s else Directly(DirectOps(s, ops[..|ops| - 1]), ops[|ops| - 1])
  }

  lemma DirectlyKeepsSettings(s: Store, op: TransactionOp)
    requires (op.TxSet? || op.TxDelete?) && s.queue.None?
    ensures Directly(s, op).config == s.config && Directly(s, op).queue.None?
    ensures Directly(s, op).stats.totalWrites == s.stats.totalWrites + if op.TxSet? then 1 else 0
  {
    if op.TxSet? {
      EvictKeepsSettings(Charged(s, op.key, Entry(op.value, op.expiresAt)));
      EvictKeepsWrites(Charged(s, op.key, Entry(op.value, op.expiresAt)));
    }
  }

  lemma {:induction false} EvictKeepsWrites(s: Store)
    ensures Evict(s).stats.totalWrites == s.stats.totalWrites
    decreases |s.lruOrder|
  {
    if s.stats.memoryBytes > s.config.maxMemoryBytes && s.lruOrder != [] { EvictKeepsWrites(EvictFirst(s)); }
  }

  lemma {:induction false} DirectOpsKeepSettings(s: Store, ops: seq<TransactionOp>)
    requires SetsAndDeletes(ops) && s.queue.None?
    ensures DirectOps(s, ops).config == s.config && DirectOps(s, ops).queue.None?
  {
    hide Directly;
    if ops != [] {
      DirectOpsKeepSettings(s, ops[..|ops| - 1]);
      DirectlyKeepsSettings(DirectOps(s, ops[..|ops| - 1]), ops[|ops| - 1]);
    }
  }

  lemma {:induction false} DirectOpsAppend(s: Store, a: seq<TransactionOp>, b: seq<TransactionOp>)
    requires SetsAndDeletes(a) && SetsAndDeletes(b)
    ensures SetsAndDeletes(a + b) && DirectOps(s, a + b) == DirectOps(DirectOps(s, a), b)
  {
    hide Directly;
    if b == [] {
      assert a + b == a;
    } else {
      DirectOpsAppend(s, a, b[..|b| - 1]);
      assert (a + b)[..|a + b| - 1] == a + b[..|b| - 1];
    }
  }

  lemma OneDirectOp(s: Store, op: TransactionOp)
    requires op.TxSet? || op.TxDelete?
    ensures SetsAndDeletes([op]) && DirectOps(s, [op]) == Directly(s, op)
  {
    assert [op][..0] == [];
  }

  lemma SetIsDirect(s: Store, key: string, v: Value, expiresAt: Option<nat>)
    requires s.queue.None?
    ensures SetsAndDeletes(SetOps(s.config, key, v, expiresAt))
    ensures DirectOps(s, SetOps(s.config, key, v, expiresAt)) == SetEntry(s, key, v, expiresAt).store
  {
    OneDirectOp(s, TxSet(key, v, expiresAt));
  }

  lemma {:induction false} MSetIsDirect(s: Store, pairs: seq<(string, string)>)
    requires s.queue.None?
    ensures SetsAndDeletes(MSetOps(s.config, pairs))
    ensures DirectOps(s, MSetOps(s.config, pairs)) == MSet(s, pairs).store
    decreases |pairs|
  {
    hide Written;
    if pairs != [] && Accepted(s.config, pairs[0].0, Str(pairs[0].1)) {
      var key, v := pairs[0].0, Str(pairs[0].1);
      var first, rest := SetOps(s.config, key, v, None), MSetOps(s.config, pairs[1..]);
      SetIsDirect(s, key, v, None);
      DirectOpsKeepSettings(s, first);
      MSetIsDirect(Set(s, key, v).store, pairs[1..]);
      DirectOpsAppend(s, first, rest);
      assert MSetOps(s.config, pairs) == first + rest;
    }
  }

  lemma CommandIsDirect(s: Store, c: Command)
    requires Queueable(c) && s.queue.None?
    ensures SetsAndDeletes(OpsOf(s.config, c)) && DirectOps(s, OpsOf(s.config, c)) == Apply(s, c)
  {
    hide Written, MSet, SetEntry, Directly;
    match c
    case CSet(key, v) => SetIsDirect(s, key, v, None);
    case CSetWithTtl(key, v, ttl, now) => SetIsDirect(s, key, v, ExpiryAfter(now, ttl));
    case CGetSet(key, v) => SetIsDirect(s, key, v, None);
    case CDelete(key) => OneDirectOp(s, TxDelete(key)); DeleteIsDirect(s, key);
    case CMSet(pairs) => MSetIsDirect(s, pairs);
  }

  lemma DeleteIsDirect(s: Store, key: string)
    ensures Directly(s, TxDelete(key)) == Delete(s, key).store
  {
  }

  /** A direct run of queueable commands is the run of what a transaction would have queued. */
  lemma {:induction false} RunIsDirect(s: Store, commands: seq<Command>)
    requires AllQueueable(commands) && s.queue.None?
    ensures SetsAndDeletes(AllOps(s.config, commands)) && DirectOps(s, AllOps(s.config, commands)) == Run(s, commands)
  {
    hide Apply, Directly, OpsOf;
    if commands != [] {
      var front, c := commands[..|commands| - 1], commands[|commands| - 1];
      RunIsDirect(s, front);
      DirectOpsKeepSettings(s, AllOps(s.config, front));
      CommandIsDirect(Run(s, front), c);
      DirectOpsAppend(s, AllOps(s.config, front), OpsOf(s.config, c));
    }
  }

  // ----- What eviction takes out of the order -----

  /** The keys that an eviction takes off the front of the order. */
  ghost function Dropped(s: Store): seq<string>
    decreases |s.lruOrder|
  {
    if s.stats.memoryBytes <= s.config.maxMemoryBytes || s.lruOrder == [] then []
    else [s.lruOrder[0]] + Dropped(EvictFirst(s))
  }

  ghost function DroppedBy(s: Store, op: TransactionOp): seq<string> {
    if op.TxSet? && EvictionOn(s.config) then Dropped(Charged(s, op.key, Entry(op.value, op.expiresAt))) else []
  }

  /** The keys dropped so far by the direct run and not set again since. */
  ghost function Missing(s: Store, ops: seq<TransactionOp>): seq<string>
    requires SetsAndDeletes(ops)
  {
    if ops == [] then []
    else
      var before, op := ops[..|ops| - 1], ops[|ops| - 1];
      (if op.TxSet? then Without(Missing(s, before), op.key) else Missing(s, before))
      + DroppedBy(DirectOps(s, before), op)
  }

  /** `a` is a direct run and `b` the same run in a transaction: the order of `a` lacks the missing keys
      at its front, and the entries differ at missing keys only. */
  ghost predicate LacksOnly(a: Store, b: Store, missing: seq<string>) {
    b.lruOrder == missing + a.lruOrder && a.stats.totalWrites == b.stats.totalWrites &&
    forall k :: k !in missing ==> SameAt(a, b, k)
  }

  ghost predicate SameAt(a: Store, b: Store, k: string) {
    (k in a.entries <==> k in b.entries) && (k in a.entries ==> a.entries[k] == b.entries[k])
  }

  lemma {:induction false} EvictLacks(a: Store, b: Store, missing: seq<string>)
    requires LacksOnly(a, b, missing)
    ensures LacksOnly(Evict(a), b, missing + Dropped(a))
    decreases |a.lruOrder|
  {
    if a.stats.memoryBytes <= a.config.maxMemoryBytes || a.lruOrder == [] {
      assert missing + [] == missing;
    } else {
      var k := a.lruOrder[0];
      assert a.lruOrder == [k] + a.lruOrder[1..];
      assert b.lruOrder == (missing + [k]) + a.lruOrder[1..];
      assert k in missing + [k];
      EvictFirstRemovesOne(a);
      EvictLacks(EvictFirst(a), b, missing + [k]);
      assert missing + ([k] + Dropped(EvictFirst(a))) == (missing + [k]) + Dropped(EvictFirst(a));
    }
  }

  lemma ChargeLacks(a: Store, b: Store, missing: seq<string>, key: string, e: Entry)
    requires LacksOnly(a, b, missing)
    ensures LacksOnly(Charged(a, key, e), ExecWrite(b, key, e), Without(missing, key))
  {
    WithoutAppend(missing, a.lruOrder, key);
    WithoutElements(missing, key);
    Regroup(Without(missing, key), Without(a.lruOrder, key), [key]);
  }

  lemma OpLacks(a: Store, b: Store, missing: seq<string>, op: TransactionOp)
    requires LacksOnly(a, b, missing) && (op.TxSet? || op.TxDelete?) && a.queue.None?
    ensures LacksOnly(Directly(a, op), ExecOp(b, op).0,
                      (if op.TxSet? then Without(missing, op.key) else missing) + DroppedBy(a, op))
  {
    hide Evict, Dropped, Charged;
    match op
    case TxSet(key, v, expiresAt) =>
      ChargeLacks(a, b, missing, key, Entry(v, expiresAt));
      EvictLacks(Charged(a, key, Entry(v, expiresAt)), ExecOp(b, op).0, Without(missing, key));
      assert Without(missing, key) + [] == Without(missing, key);
      ChargedKeepsConfig(a, key, Entry(v, expiresAt));
    case TxDelete(key) =>
      assert missing + [] == missing;
      assert forall k :: SameAt(a, b, k) ==> SameAt(Directly(a, op), ExecOp(b, op).0, k);
  }

  lemma ChargedKeepsConfig(s: Store, key: string, e: Entry)
    ensures Charged(s, key, e).config == s.config
  {
  }

  lemma {:induction false} RunLacks(s: Store, ops: seq<TransactionOp>)
    requires SetsAndDeletes(ops) && s.queue.None?
    ensures LacksOnly(DirectOps(s, ops), ExecOps(s, ops).0, Missing(s, ops))
  {
    hide Directly, DroppedBy, LacksOnly;
    if ops == [] {
      NothingLacks(s);
    } else {
      var front := ops[..|ops| - 1];
      RunLacks(s, front);
      DirectOpsKeepSettings(s, front);
      OpLacks(DirectOps(s, front), ExecOps(s, front).0, Missing(s, front), ops[|ops| - 1]);
    }
  }

  lemma NothingLacks(s: Store)
    ensures LacksOnly(s, s, [])
  {
    assert [] + s.lruOrder == s.lruOrder;
  }

  /** Key `k` is dropped by the `i`-th operation of the direct run. */
  ghost predicate DropsAt(s: Store, ops: seq<TransactionOp>, i: nat, k: string)
    requires SetsAndDeletes(ops) && i < |ops|
  {
    k in DroppedBy(DirectOps(s, ops[..i]), ops[i])
  }

  predicate SetAfter(ops: seq<TransactionOp>, i: nat, k: string) {
    exists j :: i < j < |ops| && ops[j].TxSet? && ops[j].key == k
  }

  /** Every key that the direct run's evictions take out of the order is set again later in the run. */
  ghost predicate DropsAreSetAgain(s: Store, ops: seq<TransactionOp>)
    requires SetsAndDeletes(ops)
  {
    forall i, k :: 0 <= i < |ops| && DropsAt(s, ops, i, k) ==> SetAfter(ops, i, k)
  }

  lemma {:induction false} MissingMeaning(s: Store, ops: seq<TransactionOp>, k: string)
    requires SetsAndDeletes(ops)
    ensures k in Missing(s, ops) <==> exists i :: 0 <= i < |ops| && DropsAt(s, ops, i, k) && !SetAfter(ops, i, k)
  {
    hide DroppedBy, DirectOps;
    if ops != [] {
      var n := |ops| - 1;
      var front, op := ops[..n], ops[n];
      MissingMeaning(s, front, k);
      WithoutElements(Missing(s, front), op.key);
      forall i | 0 <= i < n
        ensures DropsAt(s, ops, i, k) <==> DropsAt(s, front, i, k)
        ensures SetAfter(ops, i, k) <==> SetAfter(front, i, k) || (op.TxSet? && op.key == k)
      {
        assert ops[..i] == front[..i];
        assert ops[i] == front[i];
        LaterSet(ops, i, k);
      }
      assert DropsAt(s, ops, n, k) <==> k in DroppedBy(DirectOps(s, front), op);
      assert !SetAfter(ops, n, k);
      if k in Missing(s, ops) {
        if k in DroppedBy(DirectOps(s, front), op) {
          assert DropsAt(s, ops, n, k) && !SetAfter(ops, n, k);
        } else {
          var i :| 0 <= i < n && DropsAt(s, front, i, k) && !SetAfter(front, i, k);
          assert DropsAt(s, ops, i, k) && !SetAfter(ops, i, k);
        }
      }
    }
  }

  lemma LaterSet(ops: seq<TransactionOp>, i: nat, k: string)
    requires ops != [] && i < |ops| - 1
    ensures SetAfter(ops, i, k) <==>
            SetAfter(ops[..|ops| - 1], i, k) || (ops[|ops| - 1].TxSet? && ops[|ops| - 1].key == k)
  {
    var front := ops[..|ops| - 1];
    if SetAfter(front, i, k) {
      var j :| i < j < |front| && front[j].TxSet? && front[j].key == k;
      assert ops[j] == front[j];
    }
    if SetAfter(ops, i, k) {
      var j :| i < j < |ops| && ops[j].TxSet? && ops[j].key == k;
      assert j < |front| ==> front[j] == ops[j];
    }
  }

  /** The two runs agree exactly when every dropped key is set again. */
  lemma ViewsAgreeExactlyWhen(s: Store, ops: seq<TransactionOp>)
    requires SetsAndDeletes(ops) && s.queue.None?
    ensures SameView(ExecOps(s, ops).0, DirectOps(s, ops)) <==> DropsAreSetAgain(s, ops)
  {
    hide DirectOps, ExecOps, Missing, DropsAt, SetAfter;
    RunLacks(s, ops);
    var missing, a, b := Missing(s, ops), DirectOps(s, ops), ExecOps(s, ops).0;
    forall k ensures k in missing <==> exists i :: 0 <= i < |ops| && DropsAt(s, ops, i, k) && !SetAfter(ops, i, k) {
      MissingMeaning(s, ops, k);
    }
    if missing == [] {
      assert missing + a.lruOrder == a.lruOrder;
      assert forall k :: k in a.entries || k in b.entries ==> SameAt(a, b, k);
      assert a.entries == b.entries;
      forall i, k | 0 <= i < |ops| && DropsAt(s, ops, i, k) ensures SetAfter(ops, i, k) { assert k !in missing; }
    } else {
      assert missing[0] in missing;
      assert |b.lruOrder| > |a.lruOrder|;
    }
  }

  // ----- Room -----

  ghost predicate NoSets(ops: seq<TransactionOp>) {
    forall i :: 0 <= i < |ops| ==> !ops[i].TxSet?
  }

  /** The counter stays within the limit when `bytes` more are charged, or eviction is off. */
  ghost predicate RoomForBytes(s: Store, bytes: nat) {
    EvictionOn(s.config) ==> s.stats.memoryBytes + bytes <= s.config.maxMemoryBytes
  }

  /** Nothing is written, or all that is written fits. */
  ghost predicate RoomFor(s: Store, ops: seq<TransactionOp>) {
    NoSets(ops) || RoomForBytes(s, BytesOf(ops))
  }

  /** No operation of the direct run drops anything from the order. */
  ghost predicate NothingIsDropped(s: Store, ops: seq<TransactionOp>)
    requires SetsAndDeletes(ops)
  {
    forall i :: 0 <= i < |ops| ==> DroppedBy(DirectOps(s, ops[..i]), ops[i]) == []
  }

  lemma BytesOfFront(ops: seq<TransactionOp>)
    requires ops != []
    ensures BytesOf(ops) == BytesOf(ops[..|ops| - 1]) + BytesOf([ops[|ops| - 1]])
  {
    BytesOfAppend(ops[..|ops| - 1], [ops[|ops| - 1]]);
    assert ops == ops[..|ops| - 1] + [ops[|ops| - 1]];
  }

  lemma NothingIsDroppedFront(s: Store, ops: seq<TransactionOp>)
    requires SetsAndDeletes(ops) && ops != []
    ensures var front := ops[..|ops| - 1];
            NothingIsDropped(s, ops) <==>
            NothingIsDropped(s, front) && DroppedBy(DirectOps(s, front), ops[|ops| - 1]) == []
  {
    hide DroppedBy, DirectOps;
    var front := ops[..|ops| - 1];
    forall i | 0 <= i < |front| ensures ops[..i] == front[..i] && ops[i] == front[i] {}
    if NothingIsDropped(s, front) && DroppedBy(DirectOps(s, front), ops[|ops| - 1]) == [] {
      forall i | 0 <= i < |ops| ensures DroppedBy(DirectOps(s, ops[..i]), ops[i]) == [] {
        if i < |front| { assert DroppedBy(DirectOps(s, front[..i]), front[i]) == []; }
      }
    }
  }

  /** One operation drops nothing exactly when it has room, and then charges exactly what it sets. */
  lemma OpHasRoom(s: Store, op: TransactionOp)
    requires (op.TxSet? || op.TxDelete?) && s.queue.None?
    ensures DroppedBy(s, op) == [] <==> (op.TxSet? ==> RoomForBytes(s, SizeOf(op.value)))
    ensures DroppedBy(s, op) == [] ==>
              Directly(s, op).stats.memoryBytes == s.stats.memoryBytes + BytesOf([op])
  {
    OneOp(s, op);
  }

  /** There is room exactly when the direct run drops nothing, and then it charges exactly its sets. */
  lemma {:induction false} RoomExactlyWhen(s: Store, ops: seq<TransactionOp>)
    requires SetsAndDeletes(ops) && s.queue.None?
    ensures RoomFor(s, ops) <==> NothingIsDropped(s, ops)
    ensures RoomFor(s, ops) ==> DirectOps(s, ops).stats.memoryBytes == s.stats.memoryBytes + BytesOf(ops)
  {
    hide Directly, DroppedBy, BytesOf;
    if ops == [] {
      assert NoSets(ops);
      NoBytes();
    } else {
      var front, op := ops[..|ops| - 1], ops[|ops| - 1];
      var t := DirectOps(s, front);
      RoomExactlyWhen(s, front);
      DirectOpsKeepSettings(s, front);
      OpHasRoom(t, op);
      OneOp(t, op);
      BytesOfFront(ops);
      NothingIsDroppedFront(s, ops);
      NoSetsFront(ops);
      if NoSets(front) { NoSetsNoBytes(front); }
    }
  }

  lemma NoBytes()
    ensures BytesOf([]) == 0
  {
  }

  lemma NoSetsFront(ops: seq<TransactionOp>)
    requires ops != []
    ensures NoSets(ops) <==> NoSets(ops[..|ops| - 1]) && !ops[|ops| - 1].TxSet?
  {
    var front := ops[..|ops| - 1];
    assert forall i :: 0 <= i < |front| ==> front[i] == ops[i];
  }

  lemma {:induction false} NoSetsNoBytes(ops: seq<TransactionOp>)
    requires NoSets(ops)
    ensures BytesOf(ops) == 0
  {
    if ops != [] { NoSetsNoBytes(ops[1..]); }
  }

  /** With room, the queue executed on a store and the commands run on it leave the same view, and the
      run charges exactly the bytes of its sets. */
  lemma RunExecutesAlike(s: Store, commands: seq<Command>)
    requires AllQueueable(commands) && s.queue.None? && RoomFor(s, AllOps(s.config, commands))
    ensures SameView(Run(s, commands), ExecOps(s, AllOps(s.config, commands)).0)
    ensures Run(s, commands).config == s.config && Run(s, commands).queue.None?
    ensures Run(s, commands).stats.memoryBytes == s.stats.memoryBytes + BytesOf(AllOps(s.config, commands))
    ensures SetsAndDeletes(AllOps(s.config, commands))
  {
    hide DirectOps, Run, ExecOps, AllOps, DroppedBy;
    var ops := AllOps(s.config, commands);
    RunIsDirect(s, commands);
    DirectOpsKeepSettings(s, ops);
    RoomExactlyWhen(s, ops);
    ViewsAgreeExactlyWhen(s, ops);
    assert forall i, k :: 0 <= i < |ops| ==> !DropsAt(s, ops, i, k);
  }

  // ----- Main results -----

  /** MULTI, the writes, EXEC leaves the view that the writes done directly leave exactly when every key
      that their evictions drop is set again later in the run; before EXEC nothing has changed, and
      DISCARD goes back to the state before MULTI. */
  lemma TransactionEquivalence(s: Store, commands: seq<Command>)
    requires s.queue.None? && AllQueueable(commands)
    ensures SetsAndDeletes(AllOps(s.config, commands))
    ensures var inside := Run(Multi(s).store, commands);
            && inside.entries == s.entries && inside.lruOrder == s.lruOrder && inside.stats == s.stats
            && Discard(inside).store == s
            && (SameView(Exec(inside).store, Run(s, commands)) <==>
                  DropsAreSetAgain(s, AllOps(s.config, commands)))
  {
    hide DropsAreSetAgain, ExecOps, DirectOps;
    var begun := Multi(s).store;
    RunQueues(begun, commands);
    var inside := Run(begun, commands);
    assert Discard(inside).store == s;
    assert inside.(queue := None) == s;
    RunIsDirect(s, commands);
    ViewsAgreeExactlyWhen(s, AllOps(s.config, commands));
  }

  /** With room, which is the same as dropping nothing, the two agree. */
  lemma RoomMakesTransactionsEquivalent(s: Store, commands: seq<Command>)
    requires s.queue.None? && AllQueueable(commands)
    ensures SetsAndDeletes(AllOps(s.config, commands))
    ensures RoomFor(s, AllOps(s.config, commands)) <==> NothingIsDropped(s, AllOps(s.config, commands))
    ensures RoomFor(s, AllOps(s.config, commands)) ==>
              SameView(Exec(Run(Multi(s).store, commands)).store, Run(s, commands))
  {
    hide SameView, ExecOps, DirectOps, AllOps, DroppedBy;
    var ops := AllOps(s.config, commands);
    TransactionEquivalence(s, commands);
    RoomExactlyWhen(s, ops);
    assert NothingIsDropped(s, ops) ==> forall i, k :: 0 <= i < |ops| ==> !DropsAt(s, ops, i, k);
  }

  // ----- The last effect on a key -----

  /** The last effect of `ops` on a key: nothing, a deletion, or a write. */
  datatype Effect = Untouched | Deleted | Wrote(entry: Entry)

  ghost function LastEffect(ops: seq<TransactionOp>, key: string): Effect {
    if ops == [] then Untouched
    else match ops[|ops| - 1]
         case TxSet(k, v, expiresAt) =>
           if k == key then Wrote(Entry(v, expiresAt)) else LastEffect(ops[..|ops| - 1], key)
         case TxDelete(k) => if k == key then Deleted else LastEffect(ops[..|ops| - 1], key)
         case _ => LastEffect(ops[..|ops| - 1], key)
  }

  function EntryAt(s: Store, key: string): Option<Entry> {
    if key in s.entries then Some(s.entries[key]) else None
  }

  lemma EntriesByKey(x: Store, y: Store)
    ensures x.entries == y.entries <==> forall k :: EntryAt(x, k) == EntryAt(y, k)
  {
    if forall k :: EntryAt(x, k) == EntryAt(y, k) {
      assert forall k :: k in x.entries <==> EntryAt(x, k).Some?;
      assert forall k :: k in y.entries <==> EntryAt(y, k).Some?;
      assert forall k :: k in x.entries ==> EntryAt(x, k) == Some(x.entries[k]);
      assert forall k :: k in y.entries ==> EntryAt(y, k) == Some(y.entries[k]);
    }
  }

  ghost function AfterEffect(before: Option<Entry>, effect: Effect): Option<Entry> {
    match effect
    case Untouched => before
    case Deleted => None
    case Wrote(e) => Some(e)
  }

  lemma {:induction false} ExecOpsLastEffect(s: Store, ops: seq<TransactionOp>, key: string)
    requires SetsAndDeletes(ops)
    ensures EntryAt(ExecOps(s, ops).0, key) == AfterEffect(EntryAt(s, key), LastEffect(ops, key))
  {
    if ops != [] { ExecOpsLastEffect(s, ops[..|ops| - 1], key); }
  }

  /** A run of SET, DELETE, GETSET and MSET that drops nothing leaves each key with its last effective
      write, or as it was before the run. */
  lemma RunLeavesLastWrite(s: Store, commands: seq<Command>, key: string)
    requires s.queue.None? && AllQueueable(commands) && RoomFor(s, AllOps(s.config, commands))
    ensures EntryAt(Run(s, commands), key)
         == AfterEffect(EntryAt(s, key), LastEffect(AllOps(s.config, commands), key))
  {
    RunExecutesAlike(s, commands);
    ExecOpsLastEffect(s, AllOps(s.config, commands), key);
  }

  /** EXEC evicts nothing and charges nothing: the counter stays where it was before MULTI. */
  lemma {:induction false} ExecNeverCharges(s: Store, ops: seq<TransactionOp>)
    ensures ExecOps(s, ops).0.stats.memoryBytes == s.stats.memoryBytes
    ensures ExecOps(s, ops).0.stats.evictions == s.stats.evictions
  {
    if ops != [] { ExecNeverCharges(s, ops[..|ops| - 1]); }
  }

  lemma OneSet(s: Store, key: string, v: Value)
    requires Accepted(s.config, key, v)
    ensures AllQueueable([CSet(key, v)]) && AllOps(s.config, [CSet(key, v)]) == [TxSet(key, v, None)]
  {
    assert [CSet(key, v)][..0] == [];
  }

  /** A write over the limit is evicted when done directly and stays when done by EXEC. */
  lemma EvictionBreaksEquivalence() returns (s: Store, commands: seq<Command>)
    ensures s.queue.None? && AllQueueable(commands) && !RoomFor(s, AllOps(s.config, commands))
    ensures !SameView(Exec(Run(Multi(s).store, commands)).store, Run(s, commands))
  {
    hide Run, Exec, SameView, ExecOps, AllOps;
    var v := Str("ab");
    s := NewStore(Config(10, 10, 1, true));
    commands := [CSet("k", v)];
    assert ByteLen("ab") == 2;
    OneSet(s, "k", v);
    var ops := [TxSet("k", v, None)];
    assert ops[..0] == [];
    assert Charged(s, "k", Entry(v, None)).lruOrder == ["k"];
    assert DropsAt(s, ops, 0, "k") && !SetAfter(ops, 0, "k");
    TransactionEquivalence(s, commands);
    RoomExactlyWhen(s, ops);
  }
}
