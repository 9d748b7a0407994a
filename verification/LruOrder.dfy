/** The least-recently-used order: what it is after any run of commands, and what eviction does with it. */
module LruOrder {
  import opened Basics
  import opened StoreModel

  // ----- Recency of a history of touches -----

  /** The distinct keys of a history of touches, ordered by their last touch. */
  function ByRecency(history: seq<string>): seq<string> {
    if history == [] then []
    else if history[0] in history[1..] then ByRecency(history[1..])
    else [history[0]] + ByRecency(history[1..])
  }

  lemma {:induction false} ByRecencyKeys(history: seq<string>)
    ensures NoDuplicates(ByRecency(history))
    ensures forall k :: k in ByRecency(history) <==> k in history
  {
    if history != [] {
      ByRecencyKeys(history[1..]);
      assert history == [history[0]] + history[1..];
    }
  }

  lemma {:induction false} ByRecencyTouch(history: seq<string>, key: string)
    ensures ByRecency(history + [key]) == Touched(ByRecency(history), key)
  {
    if history != [] {
      var h, rest := history[0], history[1..];
      assert (history + [key])[1..] == rest + [key];
      ByRecencyTouch(rest, key);
      ByRecencyKeys(rest);
      if h !in rest {
        WithoutAppend([h], ByRecency(rest), key);
        assert Without([h], key) == if h == key then [] else [h];
      }
    }
  }

  ghost predicate IsLastTouch(history: seq<string>, i: nat) {
    i < |history| && forall j :: i < j < |history| ==> history[j] != history[i]
  }

  /** Earlier in the order means last touched earlier. */
  lemma {:induction false} ByRecencyOrdersByLastTouch(history: seq<string>, i: nat, j: nat)
    requires IsLastTouch(history, i) && IsLastTouch(history, j) && i < j
    ensures exists a, b :: 0 <= a < b < |ByRecency(history)| &&
                           ByRecency(history)[a] == history[i] && ByRecency(history)[b] == history[j]
  {
    var rest := history[1..];
    ByRecencyKeys(rest);
    if i > 0 {
      ByRecencyOrdersByLastTouch(rest, i - 1, j - 1);
      var r := ByRecency(rest);
      var a, b :| 0 <= a < b < |r| && r[a] == history[i] && r[b] == history[j];
      var d := if history[0] in rest then 0 else 1;
      assert ByRecency(history)[a + d] == history[i] && ByRecency(history)[b + d] == history[j];
    } else {
      assert history[0] !in rest;
      assert history[j] == rest[j - 1] && history[j] in rest;
      var b :| 0 <= b < |ByRecency(rest)| && ByRecency(rest)[b] == history[j];
      assert ByRecency(history)[0] == history[i] && ByRecency(history)[b + 1] == history[j];
    }
  }

  // ----- The invariant -----

  ghost predicate IsSuffix(t: seq<string>, s: seq<string>) { |t| <= |s| && t == s[|s| - |t|..] }

  /** The order holds the most recently touched keys, oldest first, and every live key is in it. */
  ghost predicate Indexed(s: Store, history: seq<string>) {
    IsSuffix(s.lruOrder, ByRecency(history)) && s.entries.Keys <= Elements(s.lruOrder)
  }

  ghost predicate Covered(s: Store) {
    NoDuplicates(s.lruOrder) && s.entries.Keys <= Elements(s.lruOrder)
  }

  lemma IndexedIsCovered(s: Store, history: seq<string>)
    requires Indexed(s, history)
    ensures Covered(s)
  {
    ByRecencyKeys(history);
  }

  lemma TouchedElements(order: seq<string>, key: string)
    ensures Elements(Touched(order, key)) == Elements(order) + {key}
  {
    WithoutElements(order, key);
  }

  lemma TouchedSuffix(t: seq<string>, s: seq<string>, key: string)
    requires IsSuffix(t, s)
    ensures IsSuffix(Touched(t, key), Touched(s, key))
  {
    var older := s[..|s| - |t|];
    assert s == older + t;
    WithoutAppend(older, t, key);
  }

  /** The keys that MSET writes: those of the pairs before the first refused one. */
  ghost function AcceptedKeys(c: Config, pairs: seq<(string, string)>): seq<string> {
    if pairs == [] || !Accepted(c, pairs[0].0, Str(pairs[0].1)) then []
    else [pairs[0].0] + AcceptedKeys(c, pairs[1..])
  }

  function ExecTouches(ops: seq<TransactionOp>): seq<string> {
    if ops == [] then []
    else ExecTouches(ops[..|ops| - 1]) + (if ops[|ops| - 1].TxDelete? then [] else [ops[|ops| - 1].key])
  }

  /** The keys a command touches, in order. */
  ghost function Touches(s: Store, c: Command): seq<string> {
    match c
    case CSet(key, v) => if s.queue.None? && Accepted(s.config, key, v) then [key] else []
    case CSetWithTtl(key, v, _, _) => if s.queue.None? && Accepted(s.config, key, v) then [key] else []
    case CGetSet(key, v) => if s.queue.None? && Accepted(s.config, key, v) then [key] else []
    case CMSet(pairs) => if s.queue.None? then AcceptedKeys(s.config, pairs) else []
    case CIncrBy(key, amount) => if IncrBy(s, key, amount).reply.Ok? then [key] else []
    case CAppend(key, text) =>
      if Append(s, key, text).reply.Ok? && (s.queue.None? || key in s.entries) then [key] else []
    case CPfReserve(key, p) => if PfReserve(s, key, p).reply.Ok? then [key] else []
    case CPfAdd(key, hashes) => if PfAdd(s, key, hashes).reply.Ok? then [key] else []
    case CPfMerge(key, sources) => if PfMerge(s, key, sources).reply.Ok? then [key] else []
    case CPush(key, values, atHead) => if Push(s, key, values, atHead).reply.Ok? then [key] else []
    case CPop(key, atHead) =>
      var reply := Pop(s, key, atHead).reply; if reply.Ok? && reply.value.Some? then [key] else []
    case CHSet(key, fields) => if HSet(s, key, fields).reply.Ok? then [key] else []
    case CHDel(key, names) => if HDel(s, key, names).reply.Ok? && key in s.entries then [key] else []
    case CHIncrBy(key, field, amount) => if HIncrBy(s, key, field, amount).reply.Ok? then [key] else []
    case CExec => if s.queue.Some? then ExecTouches(s.queue.value) else []
    case _ => []
  }

  /** Any step that touches one key and adds no other key. */
  lemma TouchKeepsIndexed(s: Store, t: Store, history: seq<string>, key: string)
    requires Indexed(s, history)
    requires t.lruOrder == Touched(s.lruOrder, key) && t.entries.Keys <= s.entries.Keys + {key}
    ensures Indexed(t, history + [key])
  {
    ByRecencyTouch(history, key);
    TouchedSuffix(s.lruOrder, ByRecency(history), key);
    TouchedElements(s.lruOrder, key);
  }

  lemma EvictFirstRemovesOne(s: Store)
    requires s.lruOrder != []
    ensures EvictFirst(s).entries == s.entries - {s.lruOrder[0]} && EvictFirst(s).lruOrder == s.lruOrder[1..]
    ensures EvictFirst(s).config == s.config && EvictFirst(s).queue == s.queue
  {
  }

  lemma EvictFirstKeepsIndexed(s: Store, history: seq<string>)
    requires Indexed(s, history) && s.lruOrder != []
    ensures Indexed(EvictFirst(s), history)
  {
    hide EvictFirst, ByRecency;
    EvictFirstRemovesOne(s);
    assert s.lruOrder == [s.lruOrder[0]] + s.lruOrder[1..];
    assert Elements(s.lruOrder) == {s.lruOrder[0]} + Elements(s.lruOrder[1..]);
  }

  lemma {:induction false} EvictKeepsIndexed(s: Store, history: seq<string>)
    requires Indexed(s, history)
    ensures Indexed(Evict(s), history)
    decreases |s.lruOrder|
  {
    if s.stats.memoryBytes > s.config.maxMemoryBytes && s.lruOrder != [] {
      EvictFirstKeepsIndexed(s, history);
      EvictKeepsIndexed(EvictFirst(s), history);
    }
  }

  /** From `s` to `t`: nothing touched and no key added, or one key touched and no other key added. */
  ghost predicate TouchesAtMostOne(s: Store, t: Store, touched: seq<string>) {
    if touched == [] then t.lruOrder == s.lruOrder && t.entries.Keys <= s.entries.Keys
    else |touched| == 1 && t.lruOrder == Touched(s.lruOrder, touched[0]) &&
         t.entries.Keys <= s.entries.Keys + {touched[0]}
  }

  lemma AtMostOneKeepsIndexed(s: Store, t: Store, history: seq<string>, touched: seq<string>)
    requires Indexed(s, history) && TouchesAtMostOne(s, t, touched)
    ensures Indexed(t, history + touched)
  {
    if touched == [] {
      assert history + [] == history;
    } else {
      assert touched == [touched[0]];
      TouchKeepsIndexed(s, t, history, touched[0]);
    }
  }

  lemma {:induction false} EvictKeepsSettings(s: Store)
    ensures Evict(s).config == s.config && Evict(s).queue == s.queue
    decreases |s.lruOrder|
  {
    if s.stats.memoryBytes > s.config.maxMemoryBytes && s.lruOrder != [] {
      EvictKeepsSettings(EvictFirst(s));
    }
  }

  lemma WriteKeepsIndexed(s: Store, history: seq<string>, key: string, e: Entry)
    requires Indexed(s, history)
    ensures Indexed(Written(s, key, e), history + [key])
    ensures Written(s, key, e).config == s.config && Written(s, key, e).queue == s.queue
  {
    TouchKeepsIndexed(s, Charged(s, key, e), history, key);
    EvictKeepsIndexed(Charged(s, key, e), history + [key]);
    EvictKeepsSettings(Charged(s, key, e));
  }

  lemma MSetUnfolds(s: Store, pairs: seq<(string, string)>)
    requires pairs != []
    ensures var first := Set(s, pairs[0].0, Str(pairs[0].1));
            MSet(s, pairs) == if first.reply.Err? then first else MSet(first.store, pairs[1..])
    ensures AcceptedKeys(s.config, pairs) ==
            if Accepted(s.config, pairs[0].0, Str(pairs[0].1))
            then [pairs[0].0] + AcceptedKeys(s.config, pairs[1..]) else []
  {
  }

  lemma SetIsWritten(s: Store, key: string, v: Value)
    requires s.queue.None?
    ensures Set(s, key, v).reply.Ok? <==> Accepted(s.config, key, v)
    ensures Set(s, key, v).store == if Accepted(s.config, key, v) then Written(s, key, Entry(v, None)) else s
  {
  }

  lemma {:induction false} MSetKeepsIndexed(s: Store, history: seq<string>, pairs: seq<(string, string)>)
    requires Indexed(s, history) && s.queue.None?
    ensures Indexed(MSet(s, pairs).store, history + AcceptedKeys(s.config, pairs))
    decreases |pairs|
  {
    assert history + [] == history;
    if pairs != [] {
      var key, v := pairs[0].0, Str(pairs[0].1);
      MSetUnfolds(s, pairs);
      SetIsWritten(s, key, v);
      if Accepted(s.config, key, v) {
        WriteKeepsIndexed(s, history, key, Entry(v, None));
        MSetKeepsIndexed(Set(s, key, v).store, history + [key], pairs[1..]);
        Regroup(history, [key], AcceptedKeys(s.config, pairs[1..]));
      }
    }
  }

  lemma {:induction false} MSetOnlyQueues(s: Store, pairs: seq<(string, string)>)
    requires s.queue.Some?
    ensures MSet(s, pairs).store.entries == s.entries && MSet(s, pairs).store.lruOrder == s.lruOrder
    decreases |pairs|
  {
    if pairs != [] { MSetOnlyQueues(Set(s, pairs[0].0, Str(pairs[0].1)).store, pairs[1..]); }
  }

  lemma ExecOpTouches(s: Store, op: TransactionOp)
    ensures TouchesAtMostOne(s, ExecOp(s, op).0, if op.TxDelete? then [] else [op.key])
  {
  }

  lemma {:induction false} ExecKeepsIndexed(s: Store, history: seq<string>, ops: seq<TransactionOp>)
    requires Indexed(s, history)
    ensures Indexed(ExecOps(s, ops).0, history + ExecTouches(ops))
  {
    assert history + [] == history;
    if ops != [] {
      var front, op := ops[..|ops| - 1], ops[|ops| - 1];
      ExecKeepsIndexed(s, history, front);
      ExecOpTouches(ExecOps(s, front).0, op);
      AtMostOneKeepsIndexed(ExecOps(s, front).0, ExecOps(s, ops).0, history + ExecTouches(front),
                            if op.TxDelete? then [] else [op.key]);
      Regroup(history, ExecTouches(front), if op.TxDelete? then [] else [op.key]);
    }
  }

  ghost predicate WritesOneKey(c: Command) {
    c.CSet? || c.CSetWithTtl? || c.CGetSet? || c.CAppend?
  }

  lemma SetKeepsIndexed(s: Store, history: seq<string>, key: string, v: Value, expiresAt: Option<nat>)
    requires Indexed(s, history)
    ensures Indexed(SetEntry(s, key, v, expiresAt).store,
                    history + if s.queue.None? && Accepted(s.config, key, v) then [key] else [])
  {
    assert history + [] == history;
    if s.queue.None? && Accepted(s.config, key, v) { WriteKeepsIndexed(s, history, key, Entry(v, expiresAt)); }
  }

  lemma AppendInPlaceTouches(s: Store, key: string, text: string)
    requires key in s.entries
    ensures TouchesAtMostOne(s, Append(s, key, text).store, if Append(s, key, text).reply.Ok? then [key] else [])
  {
  }

  lemma AppendCommandKeepsIndexed(s: Store, history: seq<string>, key: string, text: string)
    requires Indexed(s, history)
    ensures Indexed(Apply(s, CAppend(key, text)), history + Touches(s, CAppend(key, text)))
  {
    if key in s.entries {
      AppendInPlaceTouches(s, key, text);
      AtMostOneKeepsIndexed(s, Append(s, key, text).store, history, Touches(s, CAppend(key, text)));
    } else {
      SetKeepsIndexed(s, history, key, Str(text), None);
      SetIsAccepted(s, key, Str(text));
    }
  }

  lemma SetIsAccepted(s: Store, key: string, v: Value)
    ensures Set(s, key, v).reply.Ok? <==> Accepted(s.config, key, v)
  {
  }

  lemma SetCommandKeepsIndexed(s: Store, history: seq<string>, c: Command)
    requires Indexed(s, history) && (c.CSet? || c.CSetWithTtl? || c.CGetSet?)
    ensures Indexed(Apply(s, c), history + Touches(s, c))
  {
    hide Indexed, SetEntry, Delete, IncrBy, Append, MSet, Expire, Persist, CleanupExpired, PfReserve;
    hide PfAdd, PfMerge, Push, Pop, HSet, HDel, HIncrBy, Multi, Exec, Discard, QueueOperation;
    SetKeepsIndexed(s, history, c.key, c.value, if c.CSetWithTtl? then ExpiryAfter(c.now, c.ttl) else None);
  }

  lemma PfReserveTouches(s: Store, key: string, precision: nat)
    ensures TouchesAtMostOne(s, PfReserve(s, key, precision).store,
                             if PfReserve(s, key, precision).reply.Ok? then [key] else [])
  {
  }

  lemma PfAddTouches(s: Store, key: string, hashes: seq<U64>)
    ensures TouchesAtMostOne(s, PfAdd(s, key, hashes).store,
                             if PfAdd(s, key, hashes).reply.Ok? then [key] else [])
  {
  }

  lemma PfMergeTouches(s: Store, destination: string, sources: seq<string>)
    ensures TouchesAtMostOne(s, PfMerge(s, destination, sources).store,
                             if PfMerge(s, destination, sources).reply.Ok? then [destination] else [])
  {
  }

  lemma PushTouches(s: Store, key: string, values: seq<string>, atHead: bool)
    ensures TouchesAtMostOne(s, Push(s, key, values, atHead).store,
                             if Push(s, key, values, atHead).reply.Ok? then [key] else [])
  {
  }

  lemma PopTouches(s: Store, key: string, atHead: bool)
    ensures TouchesAtMostOne(s, Pop(s, key, atHead).store,
                             if Pop(s, key, atHead).reply.Ok? &&
                                Pop(s, key, atHead).reply.value.Some? then [key] else [])
  {
  }

  lemma HSetTouches(s: Store, key: string, fields: map<string, string>)
    ensures TouchesAtMostOne(s, HSet(s, key, fields).store,
                             if HSet(s, key, fields).reply.Ok? then [key] else [])
  {
  }

  lemma HDelTouches(s: Store, key: string, names: seq<string>)
    ensures TouchesAtMostOne(s, HDel(s, key, names).store,
                             if HDel(s, key, names).reply.Ok? && key in s.entries then [key] else [])
  {
  }

  lemma HIncrByTouches(s: Store, key: string, field: string, amount: int)
    ensures TouchesAtMostOne(s, HIncrBy(s, key, field, amount).store,
                             if HIncrBy(s, key, field, amount).reply.Ok? then [key] else [])
  {
  }

  lemma IncrByTouches(s: Store, key: string, amount: int)
    ensures TouchesAtMostOne(s, IncrBy(s, key, amount).store,
                             if IncrBy(s, key, amount).reply.Ok? then [key] else [])
  {
  }

  lemma InPlaceCommandTouches(s: Store, c: Command)
    requires !WritesOneKey(c) && !c.CMSet? && !c.CExec?
    ensures TouchesAtMostOne(s, Apply(s, c), Touches(s, c))
  {
    hide Set, SetWithTtl, Append, GetSet, MSet, Exec;
    hide PfReserve, PfAdd, PfMerge, Push, Pop, HSet, HDel, HIncrBy, IncrBy;
    match c
    case CPfReserve(key, precision) => PfReserveTouches(s, key, precision);
    case CPfAdd(key, hashes) => PfAddTouches(s, key, hashes);
    case CPfMerge(destination, sources) => PfMergeTouches(s, destination, sources);
    case CPush(key, values, atHead) => PushTouches(s, key, values, atHead);
    case CPop(key, atHead) => PopTouches(s, key, atHead);
    case CHSet(key, fields) => HSetTouches(s, key, fields);
    case CHDel(key, names) => HDelTouches(s, key, names);
    case CHIncrBy(key, field, amount) => HIncrByTouches(s, key, field, amount);
    case CIncrBy(key, amount) => IncrByTouches(s, key, amount);
    case _ =>
  }

  lemma MSetBatchKeepsIndexed(s: Store, history: seq<string>, pairs: seq<(string, string)>)
    requires Indexed(s, history)
    ensures Indexed(MSet(s, pairs).store, history + if s.queue.None? then AcceptedKeys(s.config, pairs) else [])
  {
    hide MSet;
    assert history + [] == history;
    if s.queue.None? { MSetKeepsIndexed(s, history, pairs); } else { MSetOnlyQueues(s, pairs); }
  }

  lemma ExecBatchKeepsIndexed(s: Store, history: seq<string>)
    requires Indexed(s, history)
    ensures Indexed(Exec(s).store, history + if s.queue.Some? then ExecTouches(s.queue.value) else [])
  {
    hide ExecOps;
    assert history + [] == history;
    if s.queue.Some? { ExecKeepsIndexed(s.(queue := None), history, s.queue.value); }
  }

  lemma BatchCommandKeepsIndexed(s: Store, history: seq<string>, c: Command)
    requires Indexed(s, history) && (c.CMSet? || c.CExec?)
    ensures Indexed(Apply(s, c), history + Touches(s, c))
  {
    hide Indexed, Set, SetWithTtl, Delete, IncrBy, Append, GetSet, MSet, Expire, Persist, CleanupExpired, PfReserve;
    hide PfAdd, PfMerge, Push, Pop, HSet, HDel, HIncrBy, Multi, Exec, Discard, QueueOperation;
    if c.CMSet? { MSetBatchKeepsIndexed(s, history, c.pairs); } else { ExecBatchKeepsIndexed(s, history); }
  }

  /** Every command keeps the order indexed by the history extended with the keys it touches. */
  lemma ApplyKeepsIndexed(s: Store, history: seq<string>, c: Command)
    requires Indexed(s, history)
    ensures Indexed(Apply(s, c), history + Touches(s, c))
  {
    hide Apply, Touches, Indexed, TouchesAtMostOne;
    if c.CAppend? {
      AppendCommandKeepsIndexed(s, history, c.key, c.text);
    } else if WritesOneKey(c) {
      SetCommandKeepsIndexed(s, history, c);
    } else if c.CMSet? || c.CExec? {
      BatchCommandKeepsIndexed(s, history, c);
    } else {
      InPlaceCommandTouches(s, c);
      AtMostOneKeepsIndexed(s, Apply(s, c), history, Touches(s, c));
    }
  }

  ghost function HistoryOf(s: Store, history: seq<string>, commands: seq<Command>): seq<string> {
    if commands == [] then history
    else
      var front := commands[..|commands| - 1];
      HistoryOf(s, history, front) + Touches(Run(s, front), commands[|commands| - 1])
  }

  /** Over every run: the order is the most recently touched keys, oldest first, and covers every live key. */
  lemma {:induction false} RunKeepsIndexed(s: Store, history: seq<string>, commands: seq<Command>)
    requires Indexed(s, history)
    ensures Indexed(Run(s, commands), HistoryOf(s, history, commands))
    ensures Covered(Run(s, commands))
  {
    if commands == [] {
      IndexedIsCovered(s, history);
    } else {
      var front := commands[..|commands| - 1];
      RunKeepsIndexed(s, history, front);
      ApplyKeepsIndexed(Run(s, front), HistoryOf(s, history, front), commands[|commands| - 1]);
      IndexedIsCovered(Run(s, commands), HistoryOf(s, history, commands));
    }
  }

  /** A store read from a file gets its keys in some order without repetition as its LRU order. */
  lemma {:induction false} LoadedIsIndexed(s: Store)
    requires NoDuplicates(s.lruOrder) && Elements(s.lruOrder) == s.entries.Keys
    ensures Indexed(s, s.lruOrder)
  {
    DistinctIsByRecency(s.lruOrder);
  }

  lemma {:induction false} DistinctIsByRecency(order: seq<string>)
    requires NoDuplicates(order)
    ensures ByRecency(order) == order
  {
    if order != [] { DistinctIsByRecency(order[1..]); }
  }

  // ----- What eviction removes -----

  /** The memory counter once the first `n` keys of the order are gone. */
  ghost function CounterAfter(s: Store, n: nat): nat
    requires n <= |s.lruOrder|
  {
    if n == 0 then s.stats.memoryBytes
    else MonusNat(CounterAfter(s, n - 1), SizeAt(s, s.lruOrder[n - 1]))
  }

  lemma {:induction false} CounterAfterFirst(s: Store, n: nat)
    requires NoDuplicates(s.lruOrder) && n < |s.lruOrder|
    ensures CounterAfter(EvictFirst(s), n) == CounterAfter(s, n + 1)
  {
    if n > 0 { CounterAfterFirst(s, n - 1); }
  }

  /** Eviction removes `n` keys from the front of the order. */
  ghost predicate RemovesPrefix(s: Store, t: Store, n: nat) {
    n <= |s.lruOrder| && t.lruOrder == s.lruOrder[n..] && t.entries == s.entries - Elements(s.lruOrder[..n])
  }

  lemma RemoveTwice<K, V>(m: map<K, V>, a: set<K>, b: set<K>)
    ensures m - a - b == m - (a + b)
  {
  }

  lemma PrefixOfRest(order: seq<string>, n: nat)
    requires n < |order|
    ensures order[1..][n..] == order[n + 1..]
    ensures Elements(order[..n + 1]) == {order[0]} + Elements(order[1..][..n])
  {
    assert order[..n + 1] == [order[0]] + order[1..][..n];
  }

  lemma PrefixAfterFirst(s: Store, t: Store, n: nat)
    requires s.lruOrder != [] && RemovesPrefix(EvictFirst(s), t, n)
    ensures RemovesPrefix(s, t, n + 1)
  {
    EvictFirstRemovesOne(s);
    PrefixOfRest(s.lruOrder, n);
    RemoveTwice(s.entries, {s.lruOrder[0]}, Elements(s.lruOrder[1..][..n]));
  }

  lemma NothingRemoved(s: Store)
    ensures RemovesPrefix(s, s, 0)
  {
    assert s.entries - Elements(s.lruOrder[..0]) == s.entries;
  }

  /** Eviction removes the shortest prefix of the order that brings the counter within the limit, or
      the whole order, and every entry outside that prefix stays as it was. */
  lemma {:induction false} EvictionIsShortestPrefix(s: Store) returns (n: nat)
    requires NoDuplicates(s.lruOrder)
    ensures RemovesPrefix(s, Evict(s), n)
    ensures Evict(s).stats.memoryBytes == CounterAfter(s, n)
    ensures CounterAfter(s, n) <= s.config.maxMemoryBytes || n == |s.lruOrder|
    ensures forall m :: 0 <= m < n ==> CounterAfter(s, m) > s.config.maxMemoryBytes
    decreases |s.lruOrder|
  {
    hide EvictFirst, SizeAt, RemovesPrefix;
    if s.stats.memoryBytes <= s.config.maxMemoryBytes || s.lruOrder == [] {
      n := 0;
      NothingRemoved(s);
    } else {
      EvictFirstRemovesOne(s);
      var m := EvictionIsShortestPrefix(EvictFirst(s));
      n := m + 1;
      PrefixAfterFirst(s, Evict(s), m);
      CounterAfterFirst(s, m);
      forall i | 0 <= i < n ensures CounterAfter(s, i) > s.config.maxMemoryBytes {
        if i > 0 { CounterAfterFirst(s, i - 1); }
      }
    }
  }

  lemma {:induction false} CounterAfterFalls(s: Store, m: nat, n: nat)
    requires m <= n <= |s.lruOrder|
    ensures CounterAfter(s, n) <= CounterAfter(s, m)
  {
    if m < n { CounterAfterFalls(s, m, n - 1); }
  }

  /** Eviction brings the counter within the limit exactly when dropping every key of the order does. */
  lemma EvictionMeetsLimitExactlyWhen(s: Store)
    requires NoDuplicates(s.lruOrder)
    ensures Evict(s).stats.memoryBytes <= s.config.maxMemoryBytes <==>
            CounterAfter(s, |s.lruOrder|) <= s.config.maxMemoryBytes
  {
    var n := EvictionIsShortestPrefix(s);
    CounterAfterFalls(s, n, |s.lruOrder|);
  }
}
