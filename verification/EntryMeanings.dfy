/** What each log entry stands for, operation by operation: the entries that it leaves in a store, apart
    from those that eviction drops. Handlers, start-up replay, replicas and point-in-time recovery are all
    held to this. */
module EntryMeanings {
  import opened Basics
  import opened HyperLogLogs
  import opened Decimal
  import opened StoreModel
  import opened Transactions
  import opened SketchCommands
  import opened CommandLaws
  import opened CommandMeanings
  import opened Wal
  import opened Recovery
  import LruOrder

  type Entries = map<string, Entry>

  // ----- The meaning of an entry -----

  ghost predicate CanHold(c: Config, key: string, v: Value) {
    1 <= ByteLen(key) <= c.maxKeySize && SizeOf(v) <= c.maxValueSize
  }

  /** The key holds the value and expiry; when either is too large, nothing changes. */
  ghost predicate ValueSet(s: Store, key: string, v: Value, expiresAt: Option<nat>, all: Entries) {
    all == if CanHold(s.config, key, v) then s.entries[key := Entry(v, expiresAt)] else s.entries
  }

  /** The key holds the value, with the expiry that it had, none if it is new. */
  ghost predicate Revalued(s: Store, key: string, v: Value, all: Entries) {
    all == s.entries[key := Entry(v, if key in s.entries then s.entries[key].expiresAt else None)]
  }

  ghost predicate Counted(s: Store, key: string, amount: int, all: Entries) {
    if key in s.entries && s.entries[key].value.Int? then Revalued(s, key, Int(s.entries[key].value.i + amount), all)
    else all == s.entries
  }

  ghost predicate TextAppended(s: Store, key: string, text: string, all: Entries) {
    if key !in s.entries then ValueSet(s, key, Str(text), None, all)
    else if s.entries[key].value.Str? then Revalued(s, key, Str(s.entries[key].value.s + text), all)
    else all == s.entries
  }

  /** The pairs before the first one that is too large. */
  ghost function Leading(c: Config, pairs: seq<(string, string)>): seq<(string, string)> {
    if pairs == [] || !CanHold(c, pairs[0].0, Str(pairs[0].1)) then [] else [pairs[0]] + Leading(c, pairs[1..])
  }

  /** The pairs set one over the other, without expiry. */
  function WrittenOver(before: Entries, pairs: seq<(string, string)>): Entries {
    if pairs == [] then before
    else
      var n := |pairs| - 1;
      WrittenOver(before, pairs[..n])[pairs[n].0 := Entry(Str(pairs[n].1), None)]
  }

  function TextBytes(pairs: seq<(string, string)>): nat {
    if pairs == [] then 0 else ByteLen(pairs[0].1) + TextBytes(pairs[1..])
  }

  ghost predicate CanMerge(s: Store, destination: string, sources: seq<string>) {
    CanAdd(s, destination) && sources != [] &&
    Mergeable(s, SketchAt(s, destination).precision, destination, Elements(sources))
  }

  /** The destination holds its sketch joined with those of the sources. */
  ghost predicate SketchesMerged(s: Store, destination: string, sources: seq<string>, all: Entries) {
    exists taken: seq<Sketch> ::
      Elements(taken) == TakenIn(s, destination, Elements(sources)) &&
      (forall x :: x in taken ==> x.precision == SketchAt(s, destination).precision) &&
      all == s.entries[destination := Entry(Hll(JoinAll(SketchAt(s, destination), taken)), None)]
  }

  predicate CanPop(s: Store, key: string) {
    key in s.entries && s.entries[key].value.List? && s.entries[key].value.items != []
  }

  /** The entries that an operation leaves when nothing is evicted. */
  ghost predicate Leaves(codec: Codec, s: Store, op: WalOp, now: nat, all: Entries) {
    match op
    case Set(key, text, ttl) => ValueSet(s, key, Str(text), ExpiryOf(ttl, now), all)
    case Delete(key) => all == s.entries - {key}
    case Incr(key) => Counted(s, key, 1, all)
    case Decr(key) => Counted(s, key, -1, all)
    case IncrBy(key, amount) => Counted(s, key, amount, all)
    case Append(key, text) => TextAppended(s, key, text, all)
    case GetSet(key, text) => ValueSet(s, key, Str(text), None, all)
    case Mset(pairs) => all == WrittenOver(s.entries, Leading(s.config, pairs))
    case Expire(key, ttl) =>
      all == if Exists(s, key, now)
             then s.entries[key := Entry(s.entries[key].value, ExpiryOf(Some(ttl), now))] else s.entries
    case Persist(key) =>
      all == if key in s.entries then s.entries[key := Entry(s.entries[key].value, None)] else s.entries
    case _ => CollectionLeaves(codec, s, op, all)
  }

  ghost predicate CollectionLeaves(codec: Codec, s: Store, op: WalOp, all: Entries) {
    match op
    case PfAdd(key, values) =>
      if CanAdd(s, key) && values != []
      then Revalued(s, key, Hll(AddHashes(SketchAt(s, key), Hashed(codec.hash, values))), all) else all == s.entries
    case PfMerge(destination, sources) =>
      if CanMerge(s, destination, sources) then SketchesMerged(s, destination, sources, all) else all == s.entries
    case LPush(key, values) =>
      if CanPush(s, key) then Revalued(s, key, List(Reversed(values) + Items(s, key)), all) else all == s.entries
    case RPush(key, values) =>
      if CanPush(s, key) then Revalued(s, key, List(Items(s, key) + values), all) else all == s.entries
    case LPop(key) =>
      if CanPop(s, key) then Revalued(s, key, List(s.entries[key].value.items[1..]), all) else all == s.entries
    case RPop(key) =>
      if CanPop(s, key) then
        var items := s.entries[key].value.items; Revalued(s, key, List(items[..|items| - 1]), all)
      else all == s.entries
    case HSet(key, fields) =>
      if CanHash(s, key) then Revalued(s, key, Hash(FieldsAt(s, key) + fields), all) else all == s.entries
    case HDel(key, names) =>
      if key in s.entries && s.entries[key].value.Hash?
      then Revalued(s, key, Hash(FieldsAt(s, key) - Elements(names)), all) else all == s.entries
    case HIncrBy(key, field, amount) =>
      if CanHash(s, key) then
        var next := ShowInt(FieldNumber(FieldsAt(s, key), field) + amount);
        Revalued(s, key, Hash(FieldsAt(s, key)[field := next]), all)
      else all == s.entries
    case _ => true
  }

  /** The writes of an operation stay within the memory limit, or nothing is ever evicted. */
  ghost predicate HasRoom(s: Store, op: WalOp) {
    match op
    case Set(key, text, _) => RoomForBytes(s, ByteLen(text))
    case GetSet(key, text) => RoomForBytes(s, ByteLen(text))
    case Append(key, text) => key in s.entries || RoomForBytes(s, ByteLen(text))
    case Mset(pairs) => RoomForBytes(s, TextBytes(Leading(s.config, pairs)))
    case _ => true
  }

  predicate Within(left: Entries, all: Entries) {
    left.Keys <= all.Keys && forall k :: k in left ==> left[k] == all[k]
  }

  /** From `s` to `t` the operation was carried out, and at most evictions besides. */
  ghost predicate DoneBy(codec: Codec, s: Store, op: WalOp, now: nat, t: Store) {
    t.config == s.config && t.queue == s.queue && exists all :: LeavesUpToEviction(codec, s, op, now, t, all)
  }

  ghost predicate LeavesUpToEviction(codec: Codec, s: Store, op: WalOp, now: nat, t: Store, all: Entries) {
    Leaves(codec, s, op, now, all) && Within(t.entries, all) && (HasRoom(s, op) ==> t.entries == all)
  }

  // ----- Entries run as commands -----

  lemma SetLeaves(s: Store, key: string, v: Value, expiresAt: Option<nat>) returns (all: Entries)
    requires s.queue.None?
    ensures var t := SetEntry(s, key, v, expiresAt);
            && ValueSet(s, key, v, expiresAt, all) && Within(t.store.entries, all) && Quiet(t.store, s.config)
            && (RoomForBytes(s, SizeOf(v)) ==> t.store.entries == all)
            && (t.reply.Ok? <==> CanHold(s.config, key, v))
  {
    hide SizeOf, ByteLen;
    SetMeaning(s, key, v, expiresAt);
    LruOrder.EvictKeepsSettings(Charged(s, key, Entry(v, expiresAt)));
    all := if CanHold(s.config, key, v) then s.entries[key := Entry(v, expiresAt)] else s.entries;
  }

  lemma {:induction false} WrittenOverFront(before: Entries, pair: (string, string), rest: seq<(string, string)>)
    ensures WrittenOver(before, [pair] + rest) == WrittenOver(before[pair.0 := Entry(Str(pair.1), None)], rest)
  {
    var all := [pair] + rest;
    if rest == [] {
      assert all[..0] == [];
    } else {
      WrittenOverFront(before, pair, rest[..|rest| - 1]);
      assert all[..|all| - 1] == [pair] + rest[..|rest| - 1];
    }
  }

  lemma {:induction false} WrittenOverIsMonotone(small: Entries, big: Entries, pairs: seq<(string, string)>)
    requires Within(small, big)
    ensures Within(WrittenOver(small, pairs), WrittenOver(big, pairs))
  {
    if pairs != [] { WrittenOverIsMonotone(small, big, pairs[..|pairs| - 1]); }
  }

  lemma {:induction false} MSetLeaves(s: Store, pairs: seq<(string, string)>)
    requires s.queue.None?
    ensures var t := MSet(s, pairs).store; var all := WrittenOver(s.entries, Leading(s.config, pairs));
            && Within(t.entries, all) && Quiet(t, s.config)
            && (RoomForBytes(s, TextBytes(Leading(s.config, pairs))) ==> t.entries == all)
    decreases |pairs|
  {
    hide StoreModel.Set, ByteLen, CanHold;
    if pairs != [] {
      var key, text, rest := pairs[0].0, pairs[0].1, Leading(s.config, pairs[1..]);
      FirstPairLeaves(s, key, text);
      if CanHold(s.config, key, Str(text)) {
        var first := StoreModel.Set(s, key, Str(text)).store;
        var begun := s.entries[key := Entry(Str(text), None)];
        MSetLeaves(first, pairs[1..]);
        WrittenOverIsMonotone(first.entries, begun, rest);
        WrittenOverFront(s.entries, pairs[0], rest);
        assert Leading(s.config, pairs)[1..] == rest;
      }
    }
  }

  lemma FirstPairLeaves(s: Store, key: string, text: string)
    requires s.queue.None?
    ensures var t := StoreModel.Set(s, key, Str(text));
            && (t.reply.Ok? ==> Within(t.store.entries, s.entries[key := Entry(Str(text), None)]))
            && Quiet(t.store, s.config)
            && (t.reply.Ok? <==> CanHold(s.config, key, Str(text))) && (t.reply.Err? ==> t.store == s)
            && (t.reply.Ok? && RoomForBytes(s, ByteLen(text)) ==>
                  && t.store.entries == s.entries[key := Entry(Str(text), None)]
                  && t.store.stats.memoryBytes == s.stats.memoryBytes + ByteLen(text))
  {
    hide ByteLen;
    SetMeaning(s, key, Str(text), None);
    LruOrder.EvictKeepsSettings(Charged(s, key, Entry(Str(text), None)));
  }

  lemma DoneWithoutEviction(codec: Codec, s: Store, op: WalOp, now: nat, t: Store)
    requires Leaves(codec, s, op, now, t.entries) && t.config == s.config && t.queue == s.queue
    ensures DoneBy(codec, s, op, now, t)
  {
    hide Leaves;
    assert LeavesUpToEviction(codec, s, op, now, t, t.entries);
  }

  lemma WriteIsDone(codec: Codec, s: Store, op: WalOp, now: nat)
    requires s.queue.None? && (op.Set? || op.GetSet? || op.Mset?)
    ensures DoneBy(codec, s, op, now, Apply(s, RawCommand(codec, op, now)))
  {
    hide SetEntry, MSet, ValueSet, CanHold, Within, ByteLen;
    var t := Apply(s, RawCommand(codec, op, now));
    match op
    case Set(key, text, ttl) =>
      var all := SetLeaves(s, key, Str(text), ExpiryOf(ttl, now));
      assert LeavesUpToEviction(codec, s, op, now, t, all);
    case GetSet(key, text) =>
      var all := SetLeaves(s, key, Str(text), None);
      assert LeavesUpToEviction(codec, s, op, now, t, all);
    case Mset(pairs) =>
      MSetLeaves(s, pairs);
      assert LeavesUpToEviction(codec, s, op, now, t, WrittenOver(s.entries, Leading(s.config, pairs)));
  }

  lemma AppendIsDone(codec: Codec, s: Store, op: WalOp, now: nat)
    requires s.queue.None? && op.Append?
    ensures DoneBy(codec, s, op, now, Apply(s, RawCommand(codec, op, now)))
  {
    hide SetEntry, ValueSet, CanHold, Within, ByteLen;
    var t := Apply(s, RawCommand(codec, op, now));
    if op.key !in s.entries {
      var all := SetLeaves(s, op.key, Str(op.text), None);
      assert LeavesUpToEviction(codec, s, op, now, t, all);
    } else {
      DoneWithoutEviction(codec, s, op, now, t);
    }
  }

  lemma KeyOperationIsDone(codec: Codec, s: Store, op: WalOp, now: nat)
    requires s.queue.None?
    requires op.Delete? || op.Incr? || op.Decr? || op.IncrBy? || op.Expire? || op.Persist?
    ensures DoneBy(codec, s, op, now, Apply(s, RawCommand(codec, op, now)))
  {
    hide DoneBy;
    var t := Apply(s, RawCommand(codec, op, now));
    if op.Delete? && op.key !in s.entries { assert s.entries - {op.key} == s.entries; }
    if op.Persist? && op.key in s.entries && s.entries[op.key].expiresAt.None? {
      assert s.entries[op.key := Entry(s.entries[op.key].value, None)] == s.entries;
    }
    DoneWithoutEviction(codec, s, op, now, t);
  }

  lemma ListOperationIsDone(codec: Codec, s: Store, op: WalOp, now: nat)
    requires s.queue.None? && (op.LPush? || op.RPush? || op.LPop? || op.RPop?)
    ensures DoneBy(codec, s, op, now, Apply(s, RawCommand(codec, op, now)))
  {
    hide DoneBy, KeyError, Reversed, Touched;
    var t := Apply(s, RawCommand(codec, op, now));
    if op.LPush? { assert Reversed(op.values) + [] == Reversed(op.values); }
    if op.RPush? { assert [] + op.values == op.values; }
    DoneWithoutEviction(codec, s, op, now, t);
  }

  lemma HSetIsDone(codec: Codec, s: Store, op: WalOp, now: nat)
    requires s.queue.None? && op.HSet?
    ensures DoneBy(codec, s, op, now, Apply(s, RawCommand(codec, op, now)))
  {
    hide DoneBy, KeyError, ByteLen, Touched, SizeOf;
    KeyIsValidExactlyWhen(s.config, op.key);
    assert map[] + op.fields == op.fields;
    DoneWithoutEviction(codec, s, op, now, Apply(s, RawCommand(codec, op, now)));
  }

  lemma HDelIsDone(codec: Codec, s: Store, op: WalOp, now: nat)
    requires s.queue.None? && op.HDel?
    ensures DoneBy(codec, s, op, now, Apply(s, RawCommand(codec, op, now)))
  {
    hide DoneBy, Touched;
    DoneWithoutEviction(codec, s, op, now, Apply(s, RawCommand(codec, op, now)));
  }

  lemma HIncrByIsDone(codec: Codec, s: Store, op: WalOp, now: nat)
    requires s.queue.None? && op.HIncrBy?
    ensures DoneBy(codec, s, op, now, Apply(s, RawCommand(codec, op, now)))
  {
    hide DoneBy, KeyError, ByteLen, Touched, ParseI64, ShowInt, SizeOf;
    KeyIsValidExactlyWhen(s.config, op.key);
    DoneWithoutEviction(codec, s, op, now, Apply(s, RawCommand(codec, op, now)));
  }

  lemma PfAddIsDone(codec: Codec, s: Store, op: WalOp, now: nat)
    requires s.queue.None? && op.PfAdd?
    ensures DoneBy(codec, s, op, now, Apply(s, RawCommand(codec, op, now)))
  {
    hide DoneBy, KeyError, AddHashes, Touched;
    DoneWithoutEviction(codec, s, op, now, Apply(s, RawCommand(codec, op, now)));
  }

  lemma PfMergeIsDone(codec: Codec, s: Store, op: WalOp, now: nat)
    requires s.queue.None? && op.PfMerge?
    ensures DoneBy(codec, s, op, now, Apply(s, RawCommand(codec, op, now)))
  {
    hide DoneBy;
    MergeLeaves(s, op.destination, op.sources);
    DoneWithoutEviction(codec, s, op, now, Apply(s, RawCommand(codec, op, now)));
  }

  lemma MergeLeaves(s: Store, destination: string, sources: seq<string>)
    ensures var t := StoreModel.PfMerge(s, destination, sources).store;
            && t.config == s.config && t.queue == s.queue
            && if CanMerge(s, destination, sources) then SketchesMerged(s, destination, sources, t.entries)
               else t.entries == s.entries
  {
    hide JoinAll, TakenIn, Mergeable, CanAdd;
    var taken := PfMergeMeaning(s, destination, sources);
    MergeKeepsSettings(s, destination, sources);
    if CanMerge(s, destination, sources) {
      hide StoreModel.PfMerge;
      var t := StoreModel.PfMerge(s, destination, sources).store;
      var e := Entry(Hll(JoinAll(SketchAt(s, destination), taken)), None);
      OneEntryDiffers(s.entries, t.entries, destination, e);
    }
  }

  lemma MergeKeepsSettings(s: Store, destination: string, sources: seq<string>)
    ensures var merge := StoreModel.PfMerge(s, destination, sources);
            && merge.store.config == s.config && merge.store.queue == s.queue
            && (merge.reply.Err? ==> merge.store == s)
  {
    hide MergeSources;
  }

  lemma OneEntryDiffers(a: Entries, b: Entries, key: string, e: Entry)
    requires a - {key} == b - {key} && key in b && b[key] == e
    ensures b == a[key := e]
  {
    assert forall k :: k != key ==> (k in a <==> k in a - {key}) && (k in b <==> k in b - {key});
    assert forall k :: k in b && k != key ==> b[k] == (b - {key})[k] == (a - {key})[k] == a[k];
  }

  /** The command that a replica or a recovery runs for an entry does what the entry stands for. */
  lemma EntryIsDone(codec: Codec, s: Store, op: WalOp, now: nat)
    requires s.queue.None?
    ensures DoneBy(codec, s, op, now, Apply(s, RawCommand(codec, op, now)))
  {
    hide DoneBy, Apply, RawCommand;
    match op
    case Set(_, _, _) => WriteIsDone(codec, s, op, now);
    case GetSet(_, _) => WriteIsDone(codec, s, op, now);
    case Mset(_) => WriteIsDone(codec, s, op, now);
    case Append(_, _) => AppendIsDone(codec, s, op, now);
    case PfAdd(_, _) => PfAddIsDone(codec, s, op, now);
    case PfMerge(_, _) => PfMergeIsDone(codec, s, op, now);
    case LPush(_, _) => ListOperationIsDone(codec, s, op, now);
    case RPush(_, _) => ListOperationIsDone(codec, s, op, now);
    case LPop(_) => ListOperationIsDone(codec, s, op, now);
    case RPop(_) => ListOperationIsDone(codec, s, op, now);
    case HSet(_, _) => HSetIsDone(codec, s, op, now);
    case HDel(_, _) => HDelIsDone(codec, s, op, now);
    case HIncrBy(_, _, _) => HIncrByIsDone(codec, s, op, now);
    case _ => KeyOperationIsDone(codec, s, op, now);
  }

  lemma DoneByKeepsQueue(codec: Codec, s: Store, op: WalOp, now: nat, t: Store)
    requires DoneBy(codec, s, op, now, t)
    ensures t.queue == s.queue && t.config == s.config
  {
  }

  // ----- What is read afterwards -----

  /** After an entry for SET, reads find the text, and the remaining time is the TTL, or -1 without one or
      when its end does not fit 64 bits. */
  lemma SetEntryIsRead(codec: Codec, s: Store, op: WalOp, now: nat, t: Store)
    requires op.Set? && DoneBy(codec, s, op, now, t) && HasRoom(s, op) && CanHold(s.config, op.key, Str(op.value))
    ensures Get(t, op.key, now) == Some(Str(op.value))
    ensures TtlSeconds(t, op.key, now) ==
            match op.ttlSecs
            case None => -1
            case Some(ttl) => if now + ttl <= U64_MAX then Min(ttl, I64_MAX) else -1
    ensures forall k, at :: k != op.key ==> Get(t, k, at) == Get(s, k, at)
  {
    hide SizeOf, ByteLen;
  }

  /** After an entry for EXPIRE, reads answer as before; the remaining time is the TTL for a key that can be
      read, and unchanged for others. */
  lemma ExpireEntryIsRead(codec: Codec, s: Store, op: WalOp, now: nat, t: Store)
    requires op.Expire? && DoneBy(codec, s, op, now, t)
    ensures Get(t, op.key, now) == Get(s, op.key, now)
    ensures TtlSeconds(t, op.key, now) ==
            if !Exists(s, op.key, now) then TtlSeconds(s, op.key, now)
            else if now + op.ttl <= U64_MAX then Min(op.ttl, I64_MAX) else -1
    ensures forall k, at :: k != op.key ==> Get(t, k, at) == Get(s, k, at)
  {
  }

  /** After an entry for PERSIST, the value can be read at any time, even when it had expired before, and
      there is no remaining time. */
  lemma PersistEntryIsRead(codec: Codec, s: Store, op: WalOp, now: nat, t: Store, at: nat)
    requires op.Persist? && DoneBy(codec, s, op, now, t)
    ensures Get(s, op.key, at).Some? ==> Get(t, op.key, at) == Get(s, op.key, at)
    ensures Get(t, op.key, at) == ValueAt(s, op.key)
    ensures TtlSeconds(t, op.key, at) == if op.key in s.entries then -1 else -2
    ensures forall k, at :: k != op.key ==> Get(t, k, at) == Get(s, k, at)
  {
  }

  // ----- Handlers and start-up replay -----

  /** The operation that a request asks for. */
  function Asked(req: Request): WalOp {
    match req
    case ReqSet(key, text) => Wal.Set(key, text, None)
    case ReqDelete(key) => Wal.Delete(key)
    case ReqIncr(key) => Wal.Incr(key)
    case ReqDecr(key) => Wal.Decr(key)
    case ReqIncrBy(key, amount) => Wal.IncrBy(key, amount)
    case ReqAppend(key, text) => Wal.Append(key, text)
    case ReqLPush(key, values) => Wal.LPush(key, values)
    case ReqRPush(key, values) => Wal.RPush(key, values)
    case ReqLPop(key) => Wal.LPop(key)
    case ReqRPop(key) => Wal.RPop(key)
    case ReqHSet(key, fields) => Wal.HSet(key, fields)
    case ReqHDel(key, names) => Wal.HDel(key, names)
    case ReqHIncrBy(key, field, amount) => Wal.HIncrBy(key, field, amount)
  }

  /** A handler does what was asked, and logs just that, the text of a SET encoded. */
  lemma RequestIsDone(codec: Codec, s: Store, req: Request, now: nat)
    requires s.queue.None?
    ensures DoneBy(codec, s, Asked(req), now, Apply(s, ServedBy(req)))
    ensures LoggedAs(codec, req) ==
            if req.ReqSet? then Wal.Set(req.key, codec.encode(Str(req.text)), None) else Asked(req)
  {
    hide DoneBy, Apply;
    EntryIsDone(codec, s, Asked(req), now);
    assert RawCommand(codec, Asked(req), now) == ServedBy(req);
  }

  /** Start-up replay of any entry but SET, GETSET and MSET does what the entry stands for. */
  lemma ReplayedEntryIsDone(codec: Codec, s: Store, op: WalOp, now: nat)
    requires s.queue.None? && !op.Set? && !op.GetSet? && !op.Mset?
    ensures var after := ReplayEntry(codec, s, op, now); after.Some? && DoneBy(codec, s, op, now, after.value)
  {
    hide DoneBy, Apply, RawCommand, Refused;
    EntryIsDone(codec, s, op, now);
  }

  /** Start-up replay of a SET or GETSET sets the decoded value: nothing happens when it does not decode, and
      only a SET that is too large fails. */
  lemma ReplayedWriteIsDone(codec: Codec, s: Store, op: WalOp, now: nat) returns (all: Entries)
    requires s.queue.None? && (op.Set? || op.GetSet?)
    ensures var v := codec.decode(op.value); var after := ReplayEntry(codec, s, op, now);
            && (v.None? ==> after == Some(s))
            && (v.Some? ==> (after.None? <==> op.Set? && !CanHold(s.config, op.key, v.value)))
            && (v.Some? && after.Some? ==>
                  && ValueSet(s, op.key, v.value, if op.Set? then ExpiryOf(op.ttlSecs, now) else None, all)
                  && Within(after.value.entries, all)
                  && (RoomForBytes(s, SizeOf(v.value)) ==> after.value.entries == all))
  {
    hide SetEntry, ValueSet, CanHold, Within, SizeOf;
    if codec.decode(op.value).Some? {
      all := SetLeaves(s, op.key, codec.decode(op.value).value, if op.Set? then ExpiryOf(op.ttlSecs, now) else None);
    } else {
      all := s.entries;
    }
  }

  /** Start-up replay of an MSET sets the decoded pairs, or none when one of them does not decode. */
  lemma ReplayedMsetIsDone(codec: Codec, s: Store, pairs: seq<(string, string)>, now: nat)
    requires s.queue.None?
    ensures var after := ReplayEntry(codec, s, Wal.Mset(pairs), now); var decoded := DecodePairs(codec, pairs);
            && after.Some?
            && (decoded.None? ==> after.value == s)
            && (decoded.Some? ==> DoneBy(codec, s, Wal.Mset(decoded.value), now, after.value))
  {
    hide DoneBy, MSet;
    if DecodePairs(codec, pairs).Some? { EntryIsDone(codec, s, Wal.Mset(DecodePairs(codec, pairs).value), now); }
  }

  lemma {:induction false} DecodePairsMeaning(codec: Codec, pairs: seq<(string, string)>)
    ensures var d := DecodePairs(codec, pairs);
            && (d.Some? <==> forall i :: 0 <= i < |pairs| ==> codec.decode(pairs[i].1).Some?)
            && (d.Some? ==> |d.value| == |pairs| && forall i :: 0 <= i < |pairs| && codec.decode(pairs[i].1).Some? ==>
                  d.value[i] == (pairs[i].0, codec.display(codec.decode(pairs[i].1).value)))
  {
    if pairs != [] {
      DecodePairsMeaning(codec, pairs[1..]);
      assert forall i :: 0 < i < |pairs| ==> pairs[i] == pairs[1..][i - 1];
    }
  }

  // ----- Refusals -----

  /** The entries at which a replica stops. */
  ghost predicate Blocks(s: Store, op: WalOp) {
    match op
    case Set(key, text, _) => !CanHold(s.config, key, Str(text))
    case GetSet(key, text) => !CanHold(s.config, key, Str(text))
    case Mset(pairs) => exists i :: 0 <= i < |pairs| && !CanHold(s.config, pairs[i].0, Str(pairs[i].1))
    case Append(key, text) =>
      if key in s.entries then !s.entries[key].value.Str? else !CanHold(s.config, key, Str(text))
    case Incr(key) => key !in s.entries || !s.entries[key].value.Int?
    case Decr(key) => key !in s.entries || !s.entries[key].value.Int?
    case IncrBy(key, _) => key !in s.entries || !s.entries[key].value.Int?
    case _ => false
  }

  /** A replica stops at these entries and at no others; what else is refused, it passes over in silence. */
  lemma BlocksExactlyWhen(codec: Codec, s: Store, op: WalOp, now: nat)
    requires s.queue.None?
    ensures ReportsErrors(op) && Refused(s, RawCommand(codec, op, now)) <==> Blocks(s, op)
  {
    hide SetEntry, MSet, CanHold, ByteLen, SizeOf;
    match op
    case Set(key, text, ttl) => var _ := SetLeaves(s, key, Str(text), ExpiryOf(ttl, now));
    case GetSet(key, text) => var _ := SetLeaves(s, key, Str(text), None);
    case Append(key, text) => var _ := SetLeaves(s, key, Str(text), None);
    case Mset(pairs) => MSetStopsExactlyWhen(s, pairs);
    case _ =>
  }

  /** The entries that are refused in silence: a replica logs them, and goes on. */
  ghost predicate PassedOver(s: Store, op: WalOp) {
    match op
    case PfAdd(key, values) => !CanAdd(s, key) || values == []
    case PfMerge(destination, sources) => !CanMerge(s, destination, sources)
    case LPush(key, _) => !CanPush(s, key)
    case RPush(key, _) => !CanPush(s, key)
    case LPop(key) => key in s.entries && !s.entries[key].value.List?
    case RPop(key) => key in s.entries && !s.entries[key].value.List?
    case HSet(key, _) => !CanHash(s, key)
    case HDel(key, _) => key in s.entries && !s.entries[key].value.Hash?
    case HIncrBy(key, _, _) => !CanHash(s, key)
    case _ => false
  }

  lemma PfAddRefused(codec: Codec, s: Store, op: WalOp, now: nat)
    requires op.PfAdd?
    ensures Refused(s, RawCommand(codec, op, now)) <==> PassedOver(s, op)
  {
    hide AddHashes, KeyError, Touched;
  }

  lemma PfMergeRefused(codec: Codec, s: Store, op: WalOp, now: nat)
    requires op.PfMerge?
    ensures Refused(s, RawCommand(codec, op, now)) <==> PassedOver(s, op)
  {
    hide StoreModel.PfMerge, Mergeable, CanAdd, SketchAt, JoinAll, TakenIn;
    var _ := PfMergeMeaning(s, op.destination, op.sources);
  }

  lemma ListRefused(codec: Codec, s: Store, op: WalOp, now: nat)
    requires op.LPush? || op.RPush? || op.LPop? || op.RPop?
    ensures Refused(s, RawCommand(codec, op, now)) <==> PassedOver(s, op)
  {
    hide KeyError, Reversed, Touched;
  }

  lemma HashRefused(codec: Codec, s: Store, op: WalOp, now: nat)
    requires op.HSet? || op.HDel? || op.HIncrBy?
    ensures Refused(s, RawCommand(codec, op, now)) <==> PassedOver(s, op)
  {
    hide KeyError, ByteLen, SizeOf, ShowInt, ParseI64, Touched;
    KeyIsValidExactlyWhen(s.config, op.key);
  }

  /** Every refusal is of one of the two kinds. */
  lemma RefusedExactlyWhen(codec: Codec, s: Store, op: WalOp, now: nat)
    requires s.queue.None?
    ensures Refused(s, RawCommand(codec, op, now)) <==> Blocks(s, op) || PassedOver(s, op)
  {
    BlocksExactlyWhen(codec, s, op, now);
    if ReportsErrors(op) {
      hide Blocks, Refused, RawCommand;
    } else {
      NothingElseBlocks(s, op);
      if op.Delete? || op.Expire? || op.Persist? {
        hide Blocks;
      } else {
        hide Blocks, Refused, RawCommand, PassedOver;
        if op.PfAdd? { PfAddRefused(codec, s, op, now); }
        else if op.PfMerge? { PfMergeRefused(codec, s, op, now); }
        else if op.HSet? || op.HDel? || op.HIncrBy? { HashRefused(codec, s, op, now); }
        else { ListRefused(codec, s, op, now); }
      }
    }
  }

  lemma NothingElseBlocks(s: Store, op: WalOp)
    requires !ReportsErrors(op)
    ensures !Blocks(s, op)
  {
  }

  lemma {:induction false} MSetStopsExactlyWhen(s: Store, pairs: seq<(string, string)>)
    requires s.queue.None?
    ensures MSet(s, pairs).reply.Err? <==>
            exists i :: 0 <= i < |pairs| && !CanHold(s.config, pairs[i].0, Str(pairs[i].1))
    decreases |pairs|
  {
    hide StoreModel.Set, CanHold, Within;
    if pairs != [] {
      FirstPairLeaves(s, pairs[0].0, pairs[0].1);
      if CanHold(s.config, pairs[0].0, Str(pairs[0].1)) {
        MSetStopsExactlyWhen(StoreModel.Set(s, pairs[0].0, Str(pairs[0].1)).store, pairs[1..]);
        assert forall i :: 0 < i < |pairs| ==> pairs[i] == pairs[1..][i - 1];
      }
    }
  }
}
