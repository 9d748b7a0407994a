/** Refused commands: which of them leave the store as it was, and why a refused log entry is refused
    again whenever it is tried. */
module Refusals {
  import opened Basics
  import opened StoreModel
  import opened Wal
  import LruOrder
  import Transactions

  /** The commands that log entries stand for and whose errors are passed on. */
  predicate Reporting(c: Command) {
    c.CSet? || c.CSetWithTtl? || c.CIncrBy? || c.CAppend? || c.CGetSet? || c.CMSet?
  }

  // ----- Writes leave a mark -----

  /** Writes counted and operations queued; every accepted write raises it. */
  function Activity(s: Store): nat {
    s.stats.totalWrites + if s.queue.Some? then |s.queue.value| else 0
  }

  lemma SetLeavesMark(s: Store, key: string, v: Value, expiresAt: Option<nat>)
    ensures var t := SetEntry(s, key, v, expiresAt);
            && (t.reply.Ok? <==> Accepted(s.config, key, v))
            && t.store.config == s.config && (t.store.queue.Some? <==> s.queue.Some?)
            && (if t.reply.Ok? then Activity(t.store) == Activity(s) + 1 else t.store == s)
  {
    var charged := Charged(s, key, Entry(v, expiresAt));
    LruOrder.EvictKeepsSettings(charged);
    Transactions.EvictKeepsWrites(charged);
  }

  lemma {:induction false} MSetLeavesMarks(s: Store, pairs: seq<(string, string)>)
    ensures var t := MSet(s, pairs);
            && t.store.config == s.config
            && (t.reply.Ok? <==> forall i :: 0 <= i < |pairs| ==> Accepted(s.config, pairs[i].0, Str(pairs[i].1)))
            && Activity(s) <= Activity(t.store)
            && (pairs != [] && Accepted(s.config, pairs[0].0, Str(pairs[0].1)) ==> Activity(s) < Activity(t.store))
    decreases |pairs|
  {
    hide SetEntry, Accepted, Activity;
    if pairs != [] {
      SetLeavesMark(s, pairs[0].0, Str(pairs[0].1), None);
      var first := StoreModel.Set(s, pairs[0].0, Str(pairs[0].1));
      if first.reply.Ok? {
        MSetLeavesMarks(first.store, pairs[1..]);
        assert forall i :: 0 < i < |pairs| ==> pairs[i] == pairs[1..][i - 1];
      }
    }
  }

  // ----- When nothing changes -----

  /** MSET changes nothing exactly when it has no pairs or refuses its first one. */
  lemma MSetIsIdleExactlyWhen(s: Store, pairs: seq<(string, string)>)
    ensures MSet(s, pairs).store == s <==> pairs == [] || !Accepted(s.config, pairs[0].0, Str(pairs[0].1))
  {
    MSetLeavesMarks(s, pairs);
    if pairs != [] { SetLeavesMark(s, pairs[0].0, Str(pairs[0].1), None); }
  }

  lemma AppendIsIdleExactlyWhen(s: Store, key: string, text: string)
    ensures StoreModel.Append(s, key, text).store == s <==> StoreModel.Append(s, key, text).reply.Err?
  {
    if key !in s.entries { SetLeavesMark(s, key, Str(text), None); }
  }

  lemma IncrByIsIdleExactlyWhen(s: Store, key: string, amount: int)
    ensures StoreModel.IncrBy(s, key, amount).store == s <==> StoreModel.IncrBy(s, key, amount).reply.Err?
  {
  }

  /** A command whose error is passed on changes nothing exactly when it is refused; for an MSET,
      exactly when it has no pairs or is refused at its first one. */
  lemma ReportingCommandIsIdleExactlyWhen(s: Store, c: Command)
    requires Reporting(c)
    ensures Apply(s, c) == s <==>
            if c.CMSet? then c.pairs == [] || !Accepted(s.config, c.pairs[0].0, Str(c.pairs[0].1)) else Refused(s, c)
  {
    hide SetEntry, MSet, StoreModel.Append, StoreModel.IncrBy, Accepted;
    match c
    case CSet(key, v) => SetLeavesMark(s, key, v, None);
    case CSetWithTtl(key, v, ttl, now) => SetLeavesMark(s, key, v, ExpiryAfter(now, ttl));
    case CGetSet(key, v) => SetLeavesMark(s, key, v, None);
    case CMSet(pairs) => MSetIsIdleExactlyWhen(s, pairs);
    case CAppend(key, text) => AppendIsIdleExactlyWhen(s, key, text);
    case CIncrBy(key, amount) => IncrByIsIdleExactlyWhen(s, key, amount);
  }

  /** The key is already the last one of the order, and only there. */
  predicate LastInOrder(order: seq<string>, key: string) {
    order != [] && order[|order| - 1] == key && key !in order[..|order| - 1]
  }

  lemma TouchIsIdleExactlyWhen(order: seq<string>, key: string)
    ensures Touched(order, key) == order <==> LastInOrder(order, key)
  {
    WithoutElements(order, key);
    if order != [] && order[|order| - 1] == key {
      var front := order[..|order| - 1];
      assert order == front + [key];
      WithoutAppend(front, [key], key);
      if key !in front {
        WithoutAbsent(front, key);
      } else {
        WithoutElements(front, key);
        assert Without(front, key) != front;
      }
    }
  }

  /** What a command needs to find to change nothing at all, order and counters included. */
  ghost predicate IdleOn(s: Store, c: Command) {
    match c
    case CSet(key, v) => !Accepted(s.config, key, v)
    case CSetWithTtl(key, v, _, _) => !Accepted(s.config, key, v)
    case CGetSet(key, v) => !Accepted(s.config, key, v)
    case CMSet(pairs) => pairs == [] || !Accepted(s.config, pairs[0].0, Str(pairs[0].1))
    case CIncrBy(key, _) => !(key in s.entries && s.entries[key].value.Int?)
    case CAppend(key, text) =>
      if key in s.entries then !s.entries[key].value.Str? else !Accepted(s.config, key, Str(text))
    case CDelete(key) => s.queue.None? && key !in s.entries
    case CExpire(key, ttl, now) =>
      key !in s.entries || ExpiredAt(s.entries[key], now) || s.entries[key].expiresAt == ExpiryAfter(now, ttl)
    case CPersist(key) => key !in s.entries || s.entries[key].expiresAt.None?
    case CCleanup(now) => DueKeys(s, now) == {}
    case CPfReserve(key, _) => KeyError(s.config, key).Some? || key in s.entries
    case CPfAdd(key, hashes) =>
      KeyError(s.config, key).Some? || hashes == [] || (key in s.entries && !s.entries[key].value.Hll?)
    case CPfMerge(_, _) => Refused(s, c)
    case CPush(key, _, _) => KeyError(s.config, key).Some? || (key in s.entries && !s.entries[key].value.List?)
    case CPop(key, _) => !(key in s.entries && s.entries[key].value.List? && s.entries[key].value.items != [])
    case CHSet(key, _) => KeyError(s.config, key).Some? || (key in s.entries && !s.entries[key].value.Hash?)
    case CHDel(key, names) =>
      key !in s.entries || !s.entries[key].value.Hash? ||
      (s.entries[key].value.fields.Keys * Elements(names) == {} && LastInOrder(s.lruOrder, key))
    case CHIncrBy(key, _, _) => KeyError(s.config, key).Some? || (key in s.entries && !s.entries[key].value.Hash?)
    case CMulti => s.queue.Some?
    case CExec => s.queue.None?
    case CDiscard => s.queue.None?
    case CQueue(_) => s.queue.None?
    case CConfigure(config) => config == s.config
  }

  lemma ListIsIdleExactlyWhen(s: Store, c: Command)
    requires c.CPush? || c.CPop?
    ensures Apply(s, c) == s <==> IdleOn(s, c)
  {
    hide MSet, SetEntry, Exec, StoreModel.PfAdd, StoreModel.PfMerge;
    hide StoreModel.HSet, StoreModel.HDel, StoreModel.HIncrBy;
  }

  lemma NothingRemoved<K, V>(m: map<K, V>, keys: set<K>)
    requires m.Keys * keys == {}
    ensures m - keys == m
  {
    assert forall k :: k in m && k in keys <==> k in m.Keys * keys;
  }

  lemma EntryUpdate(entries: map<string, Entry>, key: string, e: Entry)
    requires key in entries
    ensures entries[key := e] == entries <==> entries[key] == e
  {
    assert entries[key := e][key] == e;
  }

  lemma HDelOnHash(s: Store, key: string, names: seq<string>)
    requires key in s.entries && s.entries[key].value.Hash?
    ensures var t := StoreModel.HDel(s, key, names).store;
            var common := s.entries[key].value.fields.Keys * Elements(names);
            && (common == {} ==> t == s.(lruOrder := Touched(s.lruOrder, key)))
            && (common != {} ==> t.stats.totalWrites == s.stats.totalWrites + 1)
  {
    hide Elements, Touched;
    var was := s.entries[key].value.fields;
    var common := was.Keys * Elements(names);
    if common == {} {
      NothingRemoved(was, Elements(names));
      EntryUpdate(s.entries, key, s.entries[key]);
      assert |common| == 0;
    } else {
      assert |common| > 0;
    }
  }

  lemma HDelIsIdleExactlyWhen(s: Store, key: string, names: seq<string>)
    ensures StoreModel.HDel(s, key, names).store == s <==> IdleOn(s, CHDel(key, names))
  {
    hide Elements, LastInOrder, Touched;
    if key in s.entries && s.entries[key].value.Hash? {
      hide StoreModel.HDel;
      HDelOnHash(s, key, names);
      TouchIsIdleExactlyWhen(s.lruOrder, key);
    }
  }

  lemma HashIsIdleExactlyWhen(s: Store, c: Command)
    requires c.CHSet? || c.CHDel? || c.CHIncrBy?
    ensures Apply(s, c) == s <==> IdleOn(s, c)
  {
    hide MSet, SetEntry, Exec, StoreModel.PfAdd, StoreModel.PfMerge, Push, Pop, StoreModel.HDel, LastInOrder, Elements;
    if c.CHDel? { HDelIsIdleExactlyWhen(s, c.key, c.names); }
  }

  lemma SketchIsIdleExactlyWhen(s: Store, c: Command)
    requires c.CPfReserve? || c.CPfAdd? || c.CPfMerge?
    ensures Apply(s, c) == s <==> IdleOn(s, c)
  {
    hide MSet, SetEntry, Exec, Push, Pop, StoreModel.HSet, StoreModel.HDel, StoreModel.HIncrBy, MergeSources;
  }

  lemma CleanUpIsIdleExactlyWhen(s: Store, now: nat)
    ensures CleanupExpired(s, now).store == s <==> DueKeys(s, now) == {}
  {
    var due := DueKeys(s, now);
    if due == {} {
      assert s.entries - due == s.entries && |due| == 0;
    } else {
      assert |due| > 0;
    }
  }

  lemma ControlIsIdleExactlyWhen(s: Store, c: Command)
    requires c.CDelete? || c.CExpire? || c.CPersist? || c.CCleanup? || c.CMulti? || c.CExec? || c.CDiscard? || c.CQueue?
          || c.CConfigure?
    ensures Apply(s, c) == s <==> IdleOn(s, c)
  {
    hide MSet, SetEntry, Push, Pop, StoreModel.PfAdd, StoreModel.PfMerge, PfReserve, StoreModel.HSet, StoreModel.HDel;
    hide StoreModel.HIncrBy, CleanupExpired, DueKeys;
    match c
    case CCleanup(now) => CleanUpIsIdleExactlyWhen(s, now);
    case CExec => if s.queue.Some? { ExecOpsCloseQueue(s); }
    case CExpire(key, ttl, at) =>
      if key in s.entries { EntryUpdate(s.entries, key, s.entries[key].(expiresAt := ExpiryAfter(at, ttl))); }
    case CPersist(key) => if key in s.entries { EntryUpdate(s.entries, key, s.entries[key].(expiresAt := None)); }
    case CQueue(op) => if s.queue.Some? { assert |s.queue.value + [op]| > |s.queue.value|; }
    case CDelete(key) => if s.queue.Some? { assert |s.queue.value + [TxDelete(key)]| > |s.queue.value|; }
    case _ =>
  }

  lemma ExecOpsCloseQueue(s: Store)
    requires s.queue.Some?
    ensures Exec(s).store.queue.None?
  {
    OpsKeepQueue(s.(queue := None), s.queue.value);
  }

  lemma {:induction false} OpsKeepQueue(s: Store, ops: seq<TransactionOp>)
    ensures ExecOps(s, ops).0.queue == s.queue
  {
    if ops != [] { OpsKeepQueue(s, ops[..|ops| - 1]); }
  }

  lemma ReportingIsIdleOn(s: Store, c: Command)
    requires Reporting(c)
    ensures Apply(s, c) == s <==> IdleOn(s, c)
  {
    hide SetEntry, MSet, Accepted, Apply;
    ReportingCommandIsIdleExactlyWhen(s, c);
    match c
    case CSet(key, v) => SetLeavesMark(s, key, v, None);
    case CSetWithTtl(key, v, ttl, now) => SetLeavesMark(s, key, v, ExpiryAfter(now, ttl));
    case CGetSet(key, v) => SetLeavesMark(s, key, v, None);
    case CAppend(key, text) => SetLeavesMark(s, key, Str(text), None);
    case _ =>
  }

  /** For every command: it changes nothing at all exactly when it finds what it needs for that. */
  lemma CommandIsIdleExactlyWhen(s: Store, c: Command)
    ensures Apply(s, c) == s <==> IdleOn(s, c)
  {
    hide Apply, IdleOn;
    if Reporting(c) { ReportingIsIdleOn(s, c); }
    else if c.CPush? || c.CPop? { ListIsIdleExactlyWhen(s, c); }
    else if c.CHSet? || c.CHDel? || c.CHIncrBy? { HashIsIdleExactlyWhen(s, c); }
    else if c.CPfReserve? || c.CPfAdd? || c.CPfMerge? { SketchIsIdleExactlyWhen(s, c); }
    else { ControlIsIdleExactlyWhen(s, c); }
  }

  lemma RefusedListChangesNothing(s: Store, c: Command)
    requires Refused(s, c) && (c.CPush? || c.CPop?)
    ensures Apply(s, c) == s
  {
    hide MSet, Evict, StoreModel.HSet, StoreModel.HDel, StoreModel.HIncrBy, StoreModel.PfAdd, StoreModel.PfMerge, Exec;
  }

  lemma RefusedHashChangesNothing(s: Store, c: Command)
    requires Refused(s, c) && (c.CHSet? || c.CHDel? || c.CHIncrBy?)
    ensures Apply(s, c) == s
  {
    hide MSet, Evict, Push, Pop, StoreModel.PfAdd, StoreModel.PfMerge, Exec;
  }

  lemma RefusedSketchChangesNothing(s: Store, c: Command)
    requires Refused(s, c) && (c.CPfReserve? || c.CPfAdd? || c.CPfMerge?)
    ensures Apply(s, c) == s
  {
    hide MSet, Evict, Push, Pop, StoreModel.HSet, StoreModel.HDel, StoreModel.HIncrBy, Exec;
  }

  lemma RefusedControlChangesNothing(s: Store, c: Command)
    requires Refused(s, c) && (c.CMulti? || c.CExec? || c.CDiscard? || c.CQueue?)
    ensures Apply(s, c) == s
  {
    hide MSet, Evict, Push, Pop, StoreModel.HSet, StoreModel.HDel, StoreModel.HIncrBy, ExecOps;
  }

  /** A refused command leaves the store as it was, except an MSET that accepted its first pair. */
  lemma RefusedChangesNothingExactlyWhen(s: Store, c: Command)
    requires Refused(s, c)
    ensures Apply(s, c) == s <==> (c.CMSet? ==> !Accepted(s.config, c.pairs[0].0, Str(c.pairs[0].1)))
    ensures c.CMSet? ==> c.pairs != []
  {
    hide StoreModel.Set, MSet, PfReserve, StoreModel.PfAdd, StoreModel.PfMerge, Push, Pop;
    hide StoreModel.HSet, StoreModel.HDel, StoreModel.HIncrBy, Evict, CleanupExpired;
    hide StoreModel.Expire, StoreModel.Persist, Apply, Accepted;
    if Reporting(c) {
      ReportingCommandIsIdleExactlyWhen(s, c);
      if c.CMSet? { MSetLeavesMarks(s, c.pairs); }
    }
    else if c.CPush? || c.CPop? { RefusedListChangesNothing(s, c); }
    else if c.CHSet? || c.CHDel? || c.CHIncrBy? { RefusedHashChangesNothing(s, c); }
    else if c.CPfReserve? || c.CPfAdd? || c.CPfMerge? { RefusedSketchChangesNothing(s, c); }
    else { RefusedControlChangesNothing(s, c); }
  }

  // ----- The configuration stays -----

  lemma CollectionKeepsConfig(s: Store, c: Command)
    requires c.CPush? || c.CPop? || c.CHSet? || c.CHDel? || c.CHIncrBy?
    ensures Apply(s, c).config == s.config
  {
    hide MSet, Evict, StoreModel.PfAdd, StoreModel.PfMerge, Exec, StoreModel.Append, SetEntry;
  }

  lemma SketchKeepsConfig(s: Store, c: Command)
    requires c.CPfReserve? || c.CPfAdd? || c.CPfMerge?
    ensures Apply(s, c).config == s.config
  {
    hide MSet, Evict, Push, Pop, StoreModel.HSet, StoreModel.HDel, StoreModel.HIncrBy, Exec;
    hide StoreModel.Append, SetEntry;
  }

  lemma AppendKeepsConfig(s: Store, key: string, text: string)
    ensures StoreModel.Append(s, key, text).store.config == s.config
  {
    if key !in s.entries { SetLeavesMark(s, key, Str(text), None); }
  }

  lemma ReportingKeepsConfig(s: Store, c: Command)
    requires Reporting(c)
    ensures Apply(s, c).config == s.config
  {
    hide SetEntry, MSet, StoreModel.Append, Accepted;
    match c
    case CSet(key, v) => SetLeavesMark(s, key, v, None);
    case CSetWithTtl(key, v, ttl, now) => SetLeavesMark(s, key, v, ExpiryAfter(now, ttl));
    case CGetSet(key, v) => SetLeavesMark(s, key, v, None);
    case CMSet(pairs) => MSetLeavesMarks(s, pairs);
    case CAppend(key, text) => AppendKeepsConfig(s, key, text);
    case CIncrBy(key, amount) =>
  }

  lemma CleanUpKeepsConfig(s: Store, at: nat)
    ensures Apply(s, CCleanup(at)).config == s.config
  {
  }

  /** No log entry changes the configuration. */
  lemma EntryKeepsConfig(codec: Codec, s: Store, op: WalOp, now: nat)
    ensures Apply(s, RawCommand(codec, op, now)).config == s.config
  {
    hide Push, Pop, StoreModel.HSet, StoreModel.HDel, StoreModel.HIncrBy;
    hide PfReserve, StoreModel.PfAdd, StoreModel.PfMerge;
    hide SetEntry, MSet, StoreModel.Append, Exec;
    var c := RawCommand(codec, op, now);
    if Reporting(c) { ReportingKeepsConfig(s, c); }
    else if c.CPush? || c.CPop? || c.CHSet? || c.CHDel? || c.CHIncrBy? { CollectionKeepsConfig(s, c); }
    else if c.CPfAdd? || c.CPfMerge? { SketchKeepsConfig(s, c); }
  }

  // ----- A refusal lasts -----

  lemma ReportsAreReporting(codec: Codec, op: WalOp, now: nat)
    ensures ReportsErrors(op) <==> Reporting(RawCommand(codec, op, now))
    ensures op.Mset? <==> RawCommand(codec, op, now).CMSet?
    ensures op.Mset? ==> RawCommand(codec, op, now) == CMSet(op.pairs)
  {
  }

  /** Whether an entry is refused does not depend on the time. */
  lemma RefusalIgnoresTime(codec: Codec, s: Store, op: WalOp, now: nat, later: nat)
    requires ReportsErrors(op)
    ensures Refused(s, RawCommand(codec, op, now)) <==> Refused(s, RawCommand(codec, op, later))
  {
    hide MSet, StoreModel.Append, StoreModel.IncrBy, SetEntry;
    if op.Set? && op.ttlSecs.Some? {
      SetLeavesMark(s, op.key, Str(op.value), ExpiryAfter(now, op.ttlSecs.value));
      SetLeavesMark(s, op.key, Str(op.value), ExpiryAfter(later, op.ttlSecs.value));
    }
  }

  /** Trying a refused entry, even an MSET that is refused half way, leaves it refused. */
  lemma RefusalIsLasting(codec: Codec, s: Store, op: WalOp, now: nat, later: nat)
    requires ReportsErrors(op) && Refused(s, RawCommand(codec, op, now))
    ensures Refused(Apply(s, RawCommand(codec, op, now)), RawCommand(codec, op, later))
  {
    hide Apply, Refused, RawCommand, MSet, Accepted;
    var c := RawCommand(codec, op, now);
    ReportsAreReporting(codec, op, now);
    RefusalIgnoresTime(codec, s, op, now, later);
    if op.Mset? {
      ReportsAreReporting(codec, op, later);
      MSetLeavesMarks(s, op.pairs);
      MSetLeavesMarks(MSet(s, op.pairs).store, op.pairs);
      MsetMeaning(s, op.pairs);
      MsetMeaning(MSet(s, op.pairs).store, op.pairs);
    } else {
      RefusedChangesNothingExactlyWhen(s, c);
    }
  }

  /** Clean-up makes an APPEND acceptable whose key is due, when its text can be set. */
  ghost predicate Unblocks(s: Store, op: WalOp, at: nat) {
    op.Append? && op.key in DueKeys(s, at) && Accepted(s.config, op.key, Str(op.text))
  }

  /** A refused entry stays refused over a clean-up exactly when it is not such an APPEND. */
  lemma RefusalOutlastsCleanUpExactlyWhen(codec: Codec, s: Store, op: WalOp, now: nat, at: nat)
    requires ReportsErrors(op) && Refused(s, RawCommand(codec, op, now))
    ensures Refused(Apply(s, CCleanup(at)), RawCommand(codec, op, now)) <==> !Unblocks(s, op, at)
  {
    hide SetEntry, MSet, Accepted;
    var t := Apply(s, CCleanup(at));
    match op
    case Set(key, text, None) =>
      SetLeavesMark(s, key, Str(text), None);
      SetLeavesMark(t, key, Str(text), None);
    case Set(key, text, Some(ttl)) =>
      SetLeavesMark(s, key, Str(text), ExpiryAfter(now, ttl));
      SetLeavesMark(t, key, Str(text), ExpiryAfter(now, ttl));
    case GetSet(key, text) =>
      SetLeavesMark(s, key, Str(text), None);
      SetLeavesMark(t, key, Str(text), None);
    case Append(key, text) =>
      SetLeavesMark(s, key, Str(text), None);
      SetLeavesMark(t, key, Str(text), None);
    case Mset(pairs) =>
      MSetLeavesMarks(s, pairs);
      MSetLeavesMarks(t, pairs);
    case _ =>
  }

  lemma MsetMeaning(s: Store, pairs: seq<(string, string)>)
    ensures Apply(s, CMSet(pairs)) == MSet(s, pairs).store
    ensures Refused(s, CMSet(pairs)) <==> MSet(s, pairs).reply.Err?
  {
  }
}
