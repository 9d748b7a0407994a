/** The store engine as it runs: one object whose methods change its map, order, counters, transaction
    queue and pending keyspace events in place. Every method is specified by the function of the same
    name in StoreModel. The clock is the parameter `now`, in seconds. */
module KvStores {
  import opened Basics
  import opened HyperLogLogs
  import opened Decimal
  import opened StoreModel
  import opened Expiry
  import Glob
  import LruOrder

  datatype EventKind = SetEvent | DeleteEvent | ExpiredEvent | EvictedEvent

  datatype KeyspaceEvent = KeyspaceEvent(kind: EventKind, key: string, timestamp: nat)

  // ----- Events that a command emits -----

  ghost function Emitted(on: bool, kind: EventKind, key: string, now: nat): seq<KeyspaceEvent> {
    if on then [KeyspaceEvent(kind, key, now)] else []
  }

  ghost function FirstEvictEvent(s: Store, on: bool, now: nat): seq<KeyspaceEvent>
    requires s.lruOrder != []
  {
    if s.lruOrder[0] in s.entries then Emitted(on, EvictedEvent, s.lruOrder[0], now) else []
  }

  /** One event for every entry that eviction removes, in the order of removal. */
  ghost function EvictEvents(s: Store, on: bool, now: nat): seq<KeyspaceEvent>
    decreases |s.lruOrder|
  {
    if s.stats.memoryBytes <= s.config.maxMemoryBytes || s.lruOrder == [] then []
    else FirstEvictEvent(s, on, now) + EvictEvents(EvictFirst(s), on, now)
  }

  ghost function SetEvents(s: Store, on: bool, key: string, v: Value, expiresAt: Option<nat>, now: nat)
    : seq<KeyspaceEvent> {
    if s.queue.Some? || !Accepted(s.config, key, v) then []
    else (if EvictionOn(s.config) then EvictEvents(Charged(s, key, Entry(v, expiresAt)), on, now) else [])
         + Emitted(on, SetEvent, key, now)
  }

  ghost function MSetEvents(s: Store, on: bool, pairs: seq<(string, string)>, now: nat): seq<KeyspaceEvent>
    decreases |pairs|
  {
    if pairs == [] || !Accepted(s.config, pairs[0].0, Str(pairs[0].1)) then []
    else SetEvents(s, on, pairs[0].0, Str(pairs[0].1), None, now)
         + MSetEvents(Set(s, pairs[0].0, Str(pairs[0].1)).store, on, pairs[1..], now)
  }

  // ----- Loops over evictions and pairs -----

  /** From `start`, eviction has come to `s` and emitted `emitted`; the rest is still to come. */
  ghost predicate EvictionPending(start: Store, s: Store, on: bool, emitted: seq<KeyspaceEvent>, now: nat) {
    Evict(s) == Evict(start) && emitted + EvictEvents(s, on, now) == EvictEvents(start, on, now)
  }

  lemma EvictionStep(start: Store, s: Store, on: bool, emitted: seq<KeyspaceEvent>, now: nat)
    requires EvictionPending(start, s, on, emitted, now)
    requires s.stats.memoryBytes > s.config.maxMemoryBytes && s.lruOrder != []
    ensures EvictionPending(start, EvictFirst(s), on, emitted + FirstEvictEvent(s, on, now), now)
  {
    Regroup(emitted, FirstEvictEvent(s, on, now), EvictEvents(EvictFirst(s), on, now));
  }

  /** Where an MSET that began in `start` is after `i` rounds, with the events emitted so far. */
  ghost function AfterPairs(start: Store, on: bool, pairs: seq<(string, string)>, i: nat, now: nat)
    : (Outcome<()>, seq<KeyspaceEvent>)
    requires i <= |pairs|
  {
    if i == 0 then (Outcome(start, Ok(())), [])
    else
      var (before, emitted) := AfterPairs(start, on, pairs, i - 1, now);
      if before.reply.Err? then (before, emitted)
      else (Set(before.store, pairs[i - 1].0, Str(pairs[i - 1].1)),
            emitted + SetEvents(before.store, on, pairs[i - 1].0, Str(pairs[i - 1].1), None, now))
  }

  lemma SetOutcome(s: Store, on: bool, key: string, v: Value, now: nat)
    ensures Set(s, key, v).reply.Ok? ==> Set(s, key, v).reply == Ok(()) && Accepted(s.config, key, v)
    ensures Set(s, key, v).reply.Err? ==> !Accepted(s.config, key, v) && Set(s, key, v).store == s
                                          && SetEvents(s, on, key, v, None, now) == []
  {
  }

  lemma {:induction false} AfterPairsShift(start: Store, on: bool, pairs: seq<(string, string)>, i: nat, now: nat)
    requires 0 < i <= |pairs| && Set(start, pairs[0].0, Str(pairs[0].1)).reply.Ok?
    ensures var first := Set(start, pairs[0].0, Str(pairs[0].1)).store;
            var mine := SetEvents(start, on, pairs[0].0, Str(pairs[0].1), None, now);
            var later := AfterPairs(first, on, pairs[1..], i - 1, now);
            AfterPairs(start, on, pairs, i, now) == (later.0, mine + later.1)
  {
    hide Set, SetEvents;
    var first := Set(start, pairs[0].0, Str(pairs[0].1));
    if i == 1 {
      assert AfterPairs(start, on, pairs, 0, now) == (Outcome(start, Ok(())), []);
      SetOutcome(start, on, pairs[0].0, Str(pairs[0].1), now);
      var mine := SetEvents(start, on, pairs[0].0, Str(pairs[0].1), None, now);
      assert [] + mine == mine + [];
    } else {
      AfterPairsShift(start, on, pairs, i - 1, now);
      assert pairs[i - 1] == pairs[1..][i - 2];
      var (before, emitted) := AfterPairs(first.store, on, pairs[1..], i - 2, now);
      Regroup(SetEvents(start, on, pairs[0].0, Str(pairs[0].1), None, now), emitted,
              SetEvents(before.store, on, pairs[i - 1].0, Str(pairs[i - 1].1), None, now));
    }
  }

  lemma {:induction false} RefusedPairEnds(start: Store, on: bool, pairs: seq<(string, string)>, i: nat, now: nat)
    requires i <= |pairs|
    requires AfterPairs(start, on, pairs, i, now).0.reply.Err?
    ensures AfterPairs(start, on, pairs, |pairs|, now) == AfterPairs(start, on, pairs, i, now)
    decreases |pairs| - i
  {
    hide Set, SetEvents;
    if i < |pairs| { RefusedPairEnds(start, on, pairs, i + 1, now); }
  }

  /** The rounds of the loop add up to MSET. */
  lemma {:induction false} AllPairsAreMSet(start: Store, on: bool, pairs: seq<(string, string)>, now: nat)
    ensures AfterPairs(start, on, pairs, |pairs|, now) == (MSet(start, pairs), MSetEvents(start, on, pairs, now))
    decreases |pairs|
  {
    hide Set, SetEvents;
    if pairs != [] {
      var key, v := pairs[0].0, Str(pairs[0].1);
      var first := Set(start, key, v);
      SetOutcome(start, on, key, v, now);
      if first.reply.Ok? {
        AfterPairsShift(start, on, pairs, |pairs|, now);
        AllPairsAreMSet(first.store, on, pairs[1..], now);
      } else {
        assert AfterPairs(start, on, pairs, 0, now) == (Outcome(start, Ok(())), []);
        assert [] + SetEvents(start, on, key, v, None, now) == [];
        assert AfterPairs(start, on, pairs, 1, now) == (first, []);
        RefusedPairEnds(start, on, pairs, 1, now);
      }
    }
  }

  // ----- Sizes -----

  method EstimateValueSize(v: Value) returns (size: nat)
    ensures size == SizeOf(v)
  {
    match v {
      case Str(s) => size := ByteLen(s);
      case Int(_) => size := 8;
      case Float(_) => size := 8;
      case Bool(_) => size := 1;
      case Json(text) => size := ByteLen(text);
      case Hll(sketch) => size := |sketch.registers|;
      case List(items) => size := TotalLen(items) + 24;
      case Hash(fields) =>
        size := 48;
        var left := fields;
        while left.Keys != {}
          invariant size + SumOver(left, FieldSize) == SizeOf(v)
          decreases |left|
        {
          var f :| f in left.Keys;
          SumWithout(left, FieldSize, f);
          size := size + ByteLen(f) + ByteLen(left[f]);
          left := left - {f};
        }
    }
  }

  /** The keys of a map in some order, each once. */
  method CollectKeys<K(==,!new), V>(m: map<K, V>) returns (order: seq<K>)
    ensures NoDuplicates(order) && Elements(order) == m.Keys
  {
    order := [];
    var left := m.Keys;
    while left != {}
      invariant NoDuplicates(order) && left !! Elements(order) && Elements(order) + left == m.Keys
    {
      var k :| k in left;
      assert Elements(order + [k]) == Elements(order) + {k};
      order, left := order + [k], left - {k};
    }
  }

  // ----- Loops over plain values -----

  method AddAll(start: Sketch, hashes: seq<U64>) returns (sketch: Sketch)
    ensures sketch == AddHashes(start, hashes)
  {
    sketch := start;
    for i := 0 to |hashes|
      invariant sketch == AddHashes(start, hashes[..i])
    {
      assert hashes[..i + 1][..i] == hashes[..i];
      sketch := AddHash(sketch, hashes[i]);
    }
    assert hashes[..|hashes|] == hashes;
  }

  method PushOnto(was: seq<string>, values: seq<string>, atHead: bool) returns (items: seq<string>)
    ensures items == if atHead then Reversed(values) + was else was + values
  {
    items := was;
    if !atHead {
      return items + values;
    }
    for i := 0 to |values|
      invariant items == Reversed(values[..i]) + was
    {
      ReversedAppend(values[..i], [values[i]]);
      assert values[..i + 1] == values[..i] + [values[i]];
      items := [values[i]] + items;
    }
    assert values[..|values|] == values;
  }

  method FillFields(was: map<string, string>, fields: map<string, string>)
    returns (filled: map<string, string>, added: nat)
    ensures filled == was + fields && added == |fields.Keys - was.Keys|
  {
    var order := CollectKeys(fields);
    InsertionIsUnion(was, fields, order);
    filled, added := InsertAll(was, fields, order);
  }

  method RemoveFields(was: map<string, string>, names: seq<string>)
    returns (kept: map<string, string>, removed: nat)
    ensures kept == was - Elements(names) && removed == |was.Keys * Elements(names)|
  {
    kept, removed := was, 0;
    assert was - Elements(names[..0]) == was && was.Keys * Elements(names[..0]) == {};
    for i := 0 to |names|
      invariant kept == was - Elements(names[..i]) && removed == |was.Keys * Elements(names[..i])|
    {
      RemoveNext(was, names, i);
      CountOneMoreCommon(was.Keys, names, i);
      if names[i] in kept {
        removed := removed + 1;
      }
      kept := kept - {names[i]};
    }
    assert names[..|names|] == names;
  }

  class KvStore {
    var entries: map<string, Entry>
    var stats: Stats
    var config: Config
    var lruOrder: seq<string>
    var queue: Option<seq<TransactionOp>>
    var notifications: bool
    var events: seq<KeyspaceEvent>

    ghost function Model(): Store
      reads this
    {
      Store(entries, stats, config, lruOrder, queue)
    }

    constructor (config: Config)
      ensures Model() == NewStore(config) && !notifications && events == []
    {
      entries, stats, this.config, lruOrder := map[], Stats(0, 0, 0, 0, 0, 0), config, [];
      queue, notifications, events := None, false, [];
    }

    /** Loading from a file restores entries and counters and rebuilds the order from the keys. */
    constructor Load(saved: map<string, Entry>, savedStats: Stats, config: Config)
      ensures entries == saved && stats == savedStats && this.config == config && queue.None? && events == []
      ensures NoDuplicates(lruOrder) && Elements(lruOrder) == saved.Keys
    {
      entries, stats, this.config, lruOrder := saved, savedStats, config, [];
      queue, notifications, events := None, false, [];
      new;
      lruOrder := CollectKeys(saved);
    }

    // ----- Private helpers -----

    method UpdateLru(key: string)
      modifies this`lruOrder
      ensures lruOrder == Touched(old(lruOrder), key)
    {
      lruOrder := Without(lruOrder, key);
      lruOrder := lruOrder + [key];
    }

    method Emit(kind: EventKind, key: string, now: nat)
      modifies this`events
      ensures events == old(events) + Emitted(notifications, kind, key, now)
    {
      if notifications {
        events := events + [KeyspaceEvent(kind, key, now)];
      }
    }

    /** Drops the least recently used key, with its entry if it still has one. */
    method EvictOldest(now: nat)
      requires lruOrder != []
      modifies this`entries, this`stats, this`lruOrder, this`events
      ensures Model() == EvictFirst(old(Model())) && lruOrder == old(lruOrder)[1..]
      ensures events == old(events) + FirstEvictEvent(old(Model()), notifications, now)
    {
      var lruKey := lruOrder[0];
      if lruKey in entries {
        var size := EstimateValueSize(entries[lruKey].value);
        entries := entries - {lruKey};
        stats := stats.(memoryBytes := MonusNat(stats.memoryBytes, size), evictions := stats.evictions + 1,
                        totalKeys := |entries|);
        Emit(EvictedEvent, lruKey, now);
      }
      lruOrder := lruOrder[1..];
    }

    method EnforceMemoryLimit(now: nat)
      modifies this`entries, this`stats, this`lruOrder, this`events
      ensures Model() == if config.maxMemoryBytes == 0 then old(Model()) else Evict(old(Model()))
      ensures config.maxMemoryBytes > 0 ==> events == old(events) + EvictEvents(old(Model()), notifications, now)
    {
      hide EvictFirst, FirstEvictEvent;
      if config.maxMemoryBytes == 0 {
        return;
      }
      ghost var emitted: seq<KeyspaceEvent> := [];
      while stats.memoryBytes > config.maxMemoryBytes
        invariant EvictionPending(old(Model()), Model(), notifications, emitted, now)
        invariant events == old(events) + emitted
        decreases |lruOrder|
      {
        if lruOrder == [] {
          break;
        }
        EvictionStep(old(Model()), Model(), notifications, emitted, now);
        emitted := emitted + FirstEvictEvent(Model(), notifications, now);
        EvictOldest(now);
      }
    }

    method ValidateKey(key: string) returns (e: Option<Error>)
      ensures e == KeyError(config, key)
    {
      if key == "" {
        return Some(InvalidKey);
      }
      var size := ByteLen(key);
      if size > config.maxKeySize {
        return Some(KeyTooLarge(size, config.maxKeySize));
      }
      return None;
    }

    method ValidateValue(v: Value) returns (e: Option<Error>)
      ensures e == ValueError(config, v)
    {
      var size := EstimateValueSize(v);
      if size > config.maxValueSize {
        return Some(ValueTooLarge(size, config.maxValueSize));
      }
      return None;
    }

    /** Adds a key that is not there, or replaces it, and charges the value. */
    method InsertCharged(key: string, e: Entry)
      modifies this`entries, this`stats, this`lruOrder
      ensures Model() == Charged(old(Model()), key, e)
    {
      var size := EstimateValueSize(e.value);
      entries := entries[key := e];
      stats := stats.(totalWrites := stats.totalWrites + 1, totalKeys := |entries|,
                      memoryBytes := stats.memoryBytes + size);
      UpdateLru(key);
    }

    /** Changes the value of a key in place. */
    method Rewrite(key: string, v: Value)
      requires key in entries
      modifies this`entries, this`stats, this`lruOrder
      ensures Model() == Rewritten(old(Model()), key, v)
    {
      entries := entries[key := entries[key].(value := v)];
      stats := stats.(totalWrites := stats.totalWrites + 1);
      UpdateLru(key);
    }

    // ----- Strings and counters -----

    method SetEntry(key: string, v: Value, expiresAt: Option<nat>, now: nat) returns (r: Result<(), Error>)
      modifies this`entries, this`stats, this`lruOrder, this`queue, this`events
      ensures Outcome(Model(), r) == StoreModel.SetEntry(old(Model()), key, v, expiresAt)
      ensures events == old(events) + SetEvents(old(Model()), notifications, key, v, expiresAt, now)
    {
      hide Evict, EvictFirst, EvictEvents, Touched;
      var keyError := ValidateKey(key);
      if keyError.Some? {
        return Err(keyError.value);
      }
      var valueError := ValidateValue(v);
      if valueError.Some? {
        return Err(valueError.value);
      }
      if queue.Some? {
        queue := Some(queue.value + [TxSet(key, v, expiresAt)]);
        return Ok(());
      }
      InsertCharged(key, Entry(v, expiresAt));
      if config.maxMemoryBytes > 0 && config.lruEvictionEnabled {
        EnforceMemoryLimit(now);
      }
      LruOrder.EvictKeepsSettings(Charged(old(Model()), key, Entry(v, expiresAt)));
      Emit(SetEvent, key, now);
      r := Ok(());
    }

    method Set(key: string, v: Value, now: nat) returns (r: Result<(), Error>)
      modifies this`entries, this`stats, this`lruOrder, this`queue, this`events
      ensures Outcome(Model(), r) == StoreModel.Set(old(Model()), key, v)
      ensures events == old(events) + SetEvents(old(Model()), notifications, key, v, None, now)
    {
      r := SetEntry(key, v, None, now);
    }

    method SetWithTtl(key: string, v: Value, ttl: nat, now: nat) returns (r: Result<(), Error>)
      modifies this`entries, this`stats, this`lruOrder, this`queue, this`events
      ensures Outcome(Model(), r) == StoreModel.SetWithTtl(old(Model()), key, v, ttl, now)
      ensures events == old(events) + SetEvents(old(Model()), notifications, key, v, ExpiryAfter(now, ttl), now)
    {
      r := SetEntry(key, v, ExpiryAfter(now, ttl), now);
    }

    method Delete(key: string, now: nat) returns (prior: Option<Value>)
      modifies this`entries, this`stats, this`lruOrder, this`queue, this`events
      ensures Outcome(Model(), Ok(prior)) == StoreModel.Delete(old(Model()), key)
      ensures events == old(events) +
                if queue.None? && prior.Some? then Emitted(notifications, DeleteEvent, key, now) else []
    {
      prior := if key in entries then Some(entries[key].value) else None;
      if queue.Some? {
        queue := Some(queue.value + [TxDelete(key)]);
        return;
      }
      entries := entries - {key};
      if prior.Some? {
        stats := stats.(totalDeletes := stats.totalDeletes + 1);
        Emit(DeleteEvent, key, now);
      } else {
        assert entries == old(entries);
      }
    }

    /** INCR and DECR are the cases of amount 1 and -1. */
    method IncrBy(key: string, amount: int) returns (r: Result<int, Error>)
      modifies this`entries, this`stats, this`lruOrder
      ensures Outcome(Model(), r) == StoreModel.IncrBy(old(Model()), key, amount)
    {
      if key !in entries {
        return Err(KeyNotFound(key));
      }
      match entries[key].value {
        case Int(i) =>
          Rewrite(key, Int(i + amount));
          r := Ok(i + amount);
        case other =>
          r := Err(TypeMismatch(key, "Int", TypeName(other)));
      }
    }

    method Append(key: string, text: string, now: nat) returns (r: Result<nat, Error>)
      modifies this`entries, this`stats, this`lruOrder, this`queue, this`events
      ensures Outcome(Model(), r) == StoreModel.Append(old(Model()), key, text)
      ensures events == old(events) +
                if key in old(entries) then [] else SetEvents(old(Model()), notifications, key, Str(text), None, now)
    {
      if key !in entries {
        var written := Set(key, Str(text), now);
        return if written.Ok? then Ok(ByteLen(text)) else Err(written.error);
      }
      match entries[key].value {
        case Str(was) =>
          Rewrite(key, Str(was + text));
          r := Ok(ByteLen(was + text));
        case other =>
          r := Err(TypeMismatch(key, "Str", TypeName(other)));
      }
    }

    method GetSet(key: string, v: Value, now: nat) returns (r: Result<Option<Value>, Error>)
      modifies this`entries, this`stats, this`lruOrder, this`queue, this`events
      ensures Outcome(Model(), r) == StoreModel.GetSet(old(Model()), key, v)
      ensures events == old(events) + SetEvents(old(Model()), notifications, key, v, None, now)
    {
      var was := if key in entries then Some(entries[key].value) else None;
      var written := Set(key, v, now);
      r := if written.Ok? then Ok(was) else Err(written.error);
    }

    method MSet(pairs: seq<(string, string)>, now: nat) returns (r: Result<(), Error>)
      modifies this`entries, this`stats, this`lruOrder, this`queue, this`events
      ensures Outcome(Model(), r) == StoreModel.MSet(old(Model()), pairs)
      ensures events == old(events) + MSetEvents(old(Model()), notifications, pairs, now)
    {
      hide StoreModel.Set, StoreModel.MSet, SetEvents, MSetEvents;
      ghost var start, was, emitted: seq<KeyspaceEvent> := Model(), events, [];
      r := Ok(());
      var i := 0;
      while i < |pairs| && r.Ok?
        invariant i <= |pairs| && events == was + emitted
        invariant (Outcome(Model(), r), emitted) == AfterPairs(start, notifications, pairs, i, now)
      {
        emitted := emitted + SetEvents(Model(), notifications, pairs[i].0, Str(pairs[i].1), None, now);
        r := Set(pairs[i].0, Str(pairs[i].1), now);
        i := i + 1;
      }
      if r.Err? {
        RefusedPairEnds(start, notifications, pairs, i, now);
      }
      AllPairsAreMSet(start, notifications, pairs, now);
    }

    // ----- Expiry -----

    method Expire(key: string, ttl: nat, now: nat) returns (done: bool)
      modifies this`entries, this`events
      ensures Outcome(Model(), Ok(done)) == StoreModel.Expire(old(Model()), key, ttl, now)
      ensures events == old(events) + if done then Emitted(notifications, SetEvent, key, now) else []
    {
      if key !in entries {
        return false;
      }
      if entries[key].expiresAt.Some? && now > entries[key].expiresAt.value {
        return false;
      }
      entries := entries[key := entries[key].(expiresAt := ExpiryAfter(now, ttl))];
      Emit(SetEvent, key, now);
      done := true;
    }

    method Persist(key: string, now: nat) returns (done: bool)
      modifies this`entries, this`events
      ensures Outcome(Model(), Ok(done)) == StoreModel.Persist(old(Model()), key)
      ensures events == old(events) + if done then Emitted(notifications, SetEvent, key, now) else []
    {
      if key !in entries || entries[key].expiresAt.None? {
        return false;
      }
      entries := entries[key := entries[key].(expiresAt := None)];
      Emit(SetEvent, key, now);
      done := true;
    }

    /** Emits one expired event for each key removed, in the order in which the keys were collected. */
    method CleanupExpired(now: nat) returns (count: nat, ghost order: seq<string>)
      modifies this`entries, this`stats, this`events
      ensures Outcome(Model(), Ok(count)) == StoreModel.CleanupExpired(old(Model()), now)
      ensures NoDuplicates(order) && Elements(order) == DueKeys(old(Model()), now)
      ensures events == old(events) + ExpiredEvents(notifications, order, now)
    {
      hide DueKeys, ExpiredEvents;
      var due := DueKeysOf(now);
      var expired := CollectKeys(map k | k in due :: ());
      order := expired;
      assert Elements(expired) == due;
      SizeOfElements(expired);
      RemoveAll(expired, now);
      count := |expired|;
      stats := stats.(expiredKeys := stats.expiredKeys + count);
    }

    method RemoveAll(expired: seq<string>, now: nat)
      modifies this`entries, this`events
      ensures entries == old(entries) - Elements(expired)
      ensures events == old(events) + ExpiredEvents(notifications, expired, now)
    {
      assert entries == old(entries) - Elements(expired[..0]);
      for i := 0 to |expired|
        invariant entries == old(entries) - Elements(expired[..i])
        invariant events == old(events) + ExpiredEvents(notifications, expired[..i], now)
      {
        RemoveNext(old(entries), expired, i);
        entries := entries - {expired[i]};
        Emit(ExpiredEvent, expired[i], now);
        assert expired[..i + 1][..i] == expired[..i];
      }
      assert expired[..|expired|] == expired;
    }

    method DueKeysOf(now: nat) returns (due: set<string>)
      ensures due == DueKeys(Model(), now)
    {
      due := set k | k in entries && entries[k].expiresAt.Some? && now >= entries[k].expiresAt.value;
    }

    /** KEYS, in the order in which the map is walked. */
    method Keys(pattern: string, now: nat) returns (found: seq<string>)
      ensures NoDuplicates(found) && Elements(found) == KeysMatching(Model(), pattern, now)
    {
      found := CollectKeys(map k | k in entries && !ExpiredAt(entries[k], now) && Glob.MatchesGlob(k, pattern) :: ());
    }

    // ----- HyperLogLog commands -----

    method PfReserve(key: string, precision: nat) returns (r: Result<(), Error>)
      modifies this`entries, this`stats, this`lruOrder
      ensures Outcome(Model(), r) == StoreModel.PfReserve(old(Model()), key, precision)
    {
      var keyError := ValidateKey(key);
      if keyError.Some? {
        return Err(keyError.value);
      }
      if key in entries {
        return Err(OperationFailed);
      }
      InsertCharged(key, Entry(Hll(EmptySketch(precision)), None));
      r := Ok(());
    }

    method PfAdd(key: string, hashes: seq<U64>) returns (r: Result<Sketch, Error>)
      modifies this`entries, this`stats, this`lruOrder
      ensures Outcome(Model(), r) == StoreModel.PfAdd(old(Model()), key, hashes)
    {
      var keyError := ValidateKey(key);
      if keyError.Some? {
        return Err(keyError.value);
      }
      if hashes == [] {
        return Err(InvalidValue);
      }
      if key !in entries {
        var created := AddAll(EmptySketch(DEFAULT_PRECISION), hashes);
        InsertCharged(key, Entry(Hll(created), None));
        return Ok(created);
      }
      match entries[key].value {
        case Hll(was) =>
          var grown := AddAll(was, hashes);
          Rewrite(key, Hll(grown));
          r := Ok(grown);
        case other =>
          r := Err(TypeMismatch(key, "HyperLogLog", TypeName(other)));
      }
    }

    method Merged(base: Sketch, destination: string, sources: seq<string>) returns (r: Result<Sketch, Error>)
      ensures r == MergeSources(Model(), base, destination, sources)
    {
      var merged := base;
      var i := 0;
      while i < |sources|
        invariant 0 <= i <= |sources|
        invariant MergeSources(Model(), base, destination, sources)
               == MergeSources(Model(), merged, destination, sources[i..])
      {
        assert sources[i..][0] == sources[i] && sources[i..][1..] == sources[i + 1..];
        var key := sources[i];
        if key != destination && key in entries {
          match entries[key].value {
            case Hll(sketch) =>
              if merged.precision != sketch.precision {
                return Err(InvalidValue);
              }
              merged := Join(merged, sketch);
            case other =>
              return Err(TypeMismatch(key, "HyperLogLog", TypeName(other)));
          }
        }
        i := i + 1;
      }
      r := Ok(merged);
    }

    method PfMerge(destination: string, sources: seq<string>) returns (r: Result<Sketch, Error>)
      modifies this`entries, this`stats, this`lruOrder
      ensures Outcome(Model(), r) == StoreModel.PfMerge(old(Model()), destination, sources)
    {
      var keyError := ValidateKey(destination);
      if keyError.Some? {
        return Err(keyError.value);
      }
      if sources == [] {
        return Err(InvalidValue);
      }
      var base := EmptySketch(DEFAULT_PRECISION);
      if destination in entries {
        match entries[destination].value {
          case Hll(sketch) => base := sketch;
          case other => return Err(TypeMismatch(destination, "HyperLogLog", TypeName(other)));
        }
      }
      r := Merged(base, destination, sources);
      if r.Err? {
        return;
      }
      if destination in entries {
        entries := entries[destination := Entry(Hll(r.value), None)];
        stats := stats.(totalWrites := stats.totalWrites + 1);
        UpdateLru(destination);
      } else {
        InsertCharged(destination, Entry(Hll(r.value), None));
      }
    }

    // ----- Lists -----

    /** LPUSH at the head, one value after the other; RPUSH at the tail. */
    method Push(key: string, values: seq<string>, atHead: bool) returns (r: Result<nat, Error>)
      modifies this`entries, this`stats, this`lruOrder
      ensures Outcome(Model(), r) == StoreModel.Push(old(Model()), key, values, atHead)
    {
      var keyError := ValidateKey(key);
      if keyError.Some? {
        return Err(keyError.value);
      }
      if key !in entries {
        var created := PushOnto([], values, atHead);
        assert Reversed(values) + [] == Reversed(values) && [] + values == values;
        InsertCharged(key, Entry(List(created), None));
        return Ok(|created|);
      }
      match entries[key].value {
        case List(was) =>
          var items := PushOnto(was, values, atHead);
          Rewrite(key, List(items));
          r := Ok(|items|);
        case other =>
          r := Err(TypeMismatch(key, "List", TypeName(other)));
      }
    }

    method Pop(key: string, atHead: bool) returns (r: Result<Option<string>, Error>)
      modifies this`entries, this`stats, this`lruOrder
      ensures Outcome(Model(), r) == StoreModel.Pop(old(Model()), key, atHead)
    {
      if key !in entries {
        return Ok(None);
      }
      match entries[key].value {
        case List(items) =>
          if items == [] {
            return Ok(None);
          }
          var at := if atHead then 0 else |items| - 1;
          Rewrite(key, List(items[..at] + items[at + 1..]));
          assert items[..at] + items[at + 1..] == if atHead then items[1..] else items[..|items| - 1];
          r := Ok(Some(items[at]));
        case other =>
          r := Err(TypeMismatch(key, "List", TypeName(other)));
      }
    }

    // ----- Hashes -----

    method HSet(key: string, fields: map<string, string>) returns (r: Result<nat, Error>)
      modifies this`entries, this`stats, this`lruOrder
      ensures Outcome(Model(), r) == StoreModel.HSet(old(Model()), key, fields)
    {
      var keyError := ValidateKey(key);
      if keyError.Some? {
        return Err(keyError.value);
      }
      if key !in entries {
        InsertCharged(key, Entry(Hash(fields), None));
        return Ok(|fields|);
      }
      match entries[key].value {
        case Hash(was) =>
          var filled, added := FillFields(was, fields);
          Rewrite(key, Hash(filled));
          r := Ok(added);
        case other =>
          r := Err(TypeMismatch(key, "Hash", TypeName(other)));
      }
    }

    method HDel(key: string, names: seq<string>) returns (r: Result<nat, Error>)
      modifies this`entries, this`stats, this`lruOrder
      ensures Outcome(Model(), r) == StoreModel.HDel(old(Model()), key, names)
    {
      if key !in entries {
        return Ok(0);
      }
      match entries[key].value {
        case Hash(was) =>
          var fields, removed := RemoveFields(was, names);
          entries := entries[key := entries[key].(value := Hash(fields))];
          if removed > 0 {
            stats := stats.(totalWrites := stats.totalWrites + 1);
          }
          UpdateLru(key);
          r := Ok(removed);
        case other =>
          r := Err(TypeMismatch(key, "Hash", TypeName(other)));
      }
    }

    method HIncrBy(key: string, field: string, amount: int) returns (r: Result<int, Error>)
      modifies this`entries, this`stats, this`lruOrder
      ensures Outcome(Model(), r) == StoreModel.HIncrBy(old(Model()), key, field, amount)
    {
      var keyError := ValidateKey(key);
      if keyError.Some? {
        return Err(keyError.value);
      }
      if key !in entries {
        InsertCharged(key, Entry(Hash(map[field := ShowInt(amount)]), None));
        return Ok(amount);
      }
      match entries[key].value {
        case Hash(was) =>
          var current := 0;
          if field in was {
            match ParseI64(was[field]) {
              case Some(i) => current := i;
              case None => current := 0;
            }
          }
          Rewrite(key, Hash(was[field := ShowInt(current + amount)]));
          r := Ok(current + amount);
        case other =>
          r := Err(TypeMismatch(key, "Hash", TypeName(other)));
      }
    }

    // ----- Transactions -----

    method Multi() returns (r: Result<(), Error>)
      modifies this`queue
      ensures Outcome(Model(), r) == StoreModel.Multi(old(Model()))
    {
      if queue.Some? {
        return Err(OperationFailed);
      }
      queue := Some([]);
      r := Ok(());
    }

    method Discard() returns (r: Result<(), Error>)
      modifies this`queue
      ensures Outcome(Model(), r) == StoreModel.Discard(old(Model()))
    {
      if queue.None? {
        return Err(OperationFailed);
      }
      queue := None;
      r := Ok(());
    }

    method QueueOperation(op: TransactionOp) returns (r: Result<(), Error>)
      modifies this`queue
      ensures Outcome(Model(), r) == StoreModel.QueueOperation(old(Model()), op)
    {
      if queue.None? {
        return Err(OperationFailed);
      }
      queue := Some(queue.value + [op]);
      r := Ok(());
    }

    method ExecIncrement(key: string, amount: int) returns (reply: string)
      modifies this`entries, this`stats, this`lruOrder
      ensures (Model(), reply) == ExecIncr(old(Model()), key, amount)
    {
      if key in entries {
        match entries[key].value {
          case Int(i) =>
            entries := entries[key := entries[key].(value := Int(i + amount))];
            reply := ShowInt(i + amount);
          case _ =>
            reply := TYPE_MISMATCH_REPLY;
        }
      } else {
        entries := entries[key := Entry(Int(amount), None)];
        reply := ShowInt(amount);
      }
      stats := stats.(totalWrites := stats.totalWrites + 1);
      UpdateLru(key);
    }

    method ExecOne(op: TransactionOp) returns (reply: string)
      modifies this`entries, this`stats, this`lruOrder
      ensures (Model(), reply) == ExecOp(old(Model()), op)
    {
      reply := "OK";
      match op {
        case TxSet(key, v, expiresAt) =>
          entries := entries[key := Entry(v, expiresAt)];
          stats := stats.(totalWrites := stats.totalWrites + 1);
          UpdateLru(key);
        case TxDelete(key) =>
          entries := entries - {key};
          stats := stats.(totalDeletes := stats.totalDeletes + 1);
        case TxIncr(key) => reply := ExecIncrement(key, 1);
        case TxDecr(key) => reply := ExecIncrement(key, -1);
        case TxIncrBy(key, amount) => reply := ExecIncrement(key, amount);
        case TxAppend(key, text) =>
          if key in entries {
            match entries[key].value {
              case Str(was) => entries := entries[key := entries[key].(value := Str(was + text))];
              case _ => reply := TYPE_MISMATCH_REPLY;
            }
          } else {
            entries := entries[key := Entry(Str(text), None)];
          }
          stats := stats.(totalWrites := stats.totalWrites + 1);
          UpdateLru(key);
      }
    }

    method Exec() returns (r: Result<seq<string>, Error>)
      modifies this`entries, this`stats, this`lruOrder, this`queue
      ensures Outcome(Model(), r) == StoreModel.Exec(old(Model()))
    {
      if queue.None? {
        return Err(OperationFailed);
      }
      var ops := queue.value;
      queue := None;
      ghost var start := Model();
      var replies := [];
      for i := 0 to |ops|
        invariant (Model(), replies) == ExecOps(start, ops[..i])
      {
        assert ops[..i + 1][..i] == ops[..i];
        var reply := ExecOne(ops[i]);
        replies := replies + [reply];
      }
      assert ops[..|ops|] == ops;
      r := Ok(replies);
    }
  }

  // ----- Counting and unfolding -----

  lemma CountOneMoreCommon(was: set<string>, names: seq<string>, i: nat)
    requires i < |names|
    ensures |was * Elements(names[..i + 1])|
         == |was * Elements(names[..i])| + if names[i] in was && names[i] !in names[..i] then 1 else 0
  {
    var f, before := names[i], Elements(names[..i]);
    assert names[..i + 1] == names[..i] + [f];
    assert Elements(names[..i + 1]) == before + {f};
    if f in was && f !in before {
      assert was * (before + {f}) == was * before + {f};
    } else {
      assert was * (before + {f}) == was * before;
    }
  }

  ghost function ExpiredEvents(on: bool, keys: seq<string>, now: nat): seq<KeyspaceEvent> {
    if keys == [] then []
    else ExpiredEvents(on, keys[..|keys| - 1], now) + Emitted(on, ExpiredEvent, keys[|keys| - 1], now)
  }

  lemma RemoveNext<V>(m: map<string, V>, keys: seq<string>, i: nat)
    requires i < |keys|
    ensures m - Elements(keys[..i]) - {keys[i]} == m - Elements(keys[..i + 1])
  {
    assert keys[..i + 1] == keys[..i] + [keys[i]];
    LruOrder.RemoveTwice(m, Elements(keys[..i]), {keys[i]});
    assert Elements(keys[..i]) + {keys[i]} == Elements(keys[..i + 1]);
  }

  /** With notifications on, clean-up emits exactly one expired event for each key it removes. */
  lemma {:induction false} OneExpiredEventPerKey(keys: seq<string>, now: nat)
    requires NoDuplicates(keys)
    ensures |ExpiredEvents(true, keys, now)| == |keys| && ExpiredEvents(false, keys, now) == []
    ensures forall i :: 0 <= i < |keys| ==>
            ExpiredEvents(true, keys, now)[i] == KeyspaceEvent(ExpiredEvent, keys[i], now)
  {
    if keys != [] { OneExpiredEventPerKey(keys[..|keys| - 1], now); }
  }
}
