/** What each command answers, and what later reads find: stated about entries, items, fields and texts,
    and not through the functions that compute them. */
module CommandMeanings {
  import opened Basics
  import opened Decimal
  import opened HyperLogLogs
  import opened StoreModel
  import opened Transactions
  import LruOrder

  // ----- Sizes and validation -----

  lemma {:induction false} ByteLenAppend(a: string, b: string)
    ensures ByteLen(a + b) == ByteLen(a) + ByteLen(b)
  {
    if a == [] {
      assert a + b == b;
    } else {
      assert (a + b)[1..] == a[1..] + b;
      ByteLenAppend(a[1..], b);
    }
  }

  /** A text has at least as many bytes as characters, at most four times as many, and as many exactly when
      it is plain ASCII. */
  lemma {:induction false} ByteLenBounds(s: string)
    ensures |s| <= ByteLen(s) <= 4 * |s|
    ensures ByteLen(s) == |s| <==> forall i :: 0 <= i < |s| ==> s[i] as int < 0x80
  {
    if s != [] {
      ByteLenBounds(s[1..]);
      assert forall i :: 0 < i < |s| ==> s[i] == s[1..][i - 1];
      if s[0] as int < 0x80 && ByteLen(s[1..]) == |s[1..]| {
        assert forall i :: 0 <= i < |s| ==> s[i] as int < 0x80;
      }
    }
  }

  /** A key is valid when it has between one byte and the maximum. */
  lemma KeyIsValidExactlyWhen(c: Config, key: string)
    ensures KeyError(c, key).None? <==> 1 <= ByteLen(key) <= c.maxKeySize
    ensures KeyError(c, key) == Some(InvalidKey) <==> key == ""
  {
    ByteLenBounds(key);
  }

  lemma {:induction false} TotalLenAppend(a: seq<string>, b: seq<string>)
    ensures TotalLen(a + b) == TotalLen(a) + TotalLen(b)
  {
    if a == [] {
      assert a + b == b;
    } else {
      assert (a + b)[1..] == a[1..] + b;
      TotalLenAppend(a[1..], b);
    }
  }

  // ----- SET -----

  /** Eviction removes entries and changes none; it counts them, and the keys that are left once it has
      removed one. */
  lemma {:induction false} EvictOnlyRemoves(s: Store)
    requires s.stats.totalKeys == |s.entries|
    ensures var t := Evict(s);
            && t.entries.Keys <= s.entries.Keys && (forall k :: k in t.entries ==> t.entries[k] == s.entries[k])
            && t.stats.evictions == s.stats.evictions + (|s.entries| - |t.entries|) && t.stats.totalKeys == |t.entries|
    decreases |s.lruOrder|
  {
    if s.stats.memoryBytes > s.config.maxMemoryBytes && s.lruOrder != [] {
      var key := s.lruOrder[0];
      LruOrder.EvictFirstRemovesOne(s);
      if key in s.entries {
        assert (s.entries - {key}).Keys == s.entries.Keys - {key};
      } else {
        assert s.entries - {key} == s.entries;
      }
      EvictOnlyRemoves(EvictFirst(s));
    }
  }

  /** A direct SET is accepted exactly when key and value have the right size. Then every entry that is left
      is as before, or the new one; the key count is right, and evictions count what is gone. With room,
      nothing is gone. */
  lemma SetMeaning(s: Store, key: string, v: Value, expiresAt: Option<nat>)
    requires s.queue.None?
    ensures var write := SetEntry(s, key, v, expiresAt); var all := s.entries[key := Entry(v, expiresAt)];
            && (write.reply == Ok(()) <==>
                  1 <= ByteLen(key) <= s.config.maxKeySize && SizeOf(v) <= s.config.maxValueSize)
            && (write.reply.Err? ==> write.store == s)
            && (write.reply.Ok? ==>
                  && write.store.entries.Keys <= all.Keys
                  && (forall k :: k in write.store.entries ==> write.store.entries[k] == all[k])
                  && write.store.stats.totalKeys == |write.store.entries|
                  && write.store.stats.evictions == s.stats.evictions + (|all| - |write.store.entries|))
            && (write.reply.Ok? && RoomForBytes(s, SizeOf(v)) ==> write.store.entries == all)
  {
    hide SizeOf;
    KeyIsValidExactlyWhen(s.config, key);
    EvictOnlyRemoves(Charged(s, key, Entry(v, expiresAt)));
  }

  /** A refused SET says what is wrong: an empty key, a key too large, or else a value too large. */
  lemma SetErrors(s: Store, key: string, v: Value, expiresAt: Option<nat>)
    ensures var reply := SetEntry(s, key, v, expiresAt).reply;
            && (reply == Err(InvalidKey) <==> key == "")
            && (reply == Err(KeyTooLarge(ByteLen(key), s.config.maxKeySize)) <==>
                  ByteLen(key) > s.config.maxKeySize && key != "")
            && (reply == Err(ValueTooLarge(SizeOf(v), s.config.maxValueSize)) <==>
                  1 <= ByteLen(key) <= s.config.maxKeySize && SizeOf(v) > s.config.maxValueSize)
            && (reply.Err? ==> key == "" || ByteLen(key) > s.config.maxKeySize || SizeOf(v) > s.config.maxValueSize)
  {
    hide SizeOf, ByteLen;
    KeyIsValidExactlyWhen(s.config, key);
  }

  /** The error of a command on a collection: a bad key before a wrong type. */
  predicate Explains(s: Store, key: string, expected: string, e: Error) {
    if KeyError(s.config, key).Some? then e == KeyError(s.config, key).value
    else key in s.entries && TypeName(s.entries[key].value) != expected &&
         e == TypeMismatch(key, expected, TypeName(s.entries[key].value))
  }

  lemma ListErrors(s: Store, key: string, values: seq<string>, atHead: bool)
    ensures var push := Push(s, key, values, atHead).reply; push.Err? ==> Explains(s, key, "List", push.error)
    ensures var pop := Pop(s, key, atHead).reply;
            && (pop == Ok(None) <==> key !in s.entries || s.entries[key].value == List([]))
            && (pop.Err? <==> key in s.entries && !s.entries[key].value.List?)
            && (pop.Err? ==> pop.error == TypeMismatch(key, "List", TypeName(s.entries[key].value)))
            && ((pop.Err? || pop == Ok(None)) ==> Pop(s, key, atHead).store == s)
  {
    hide KeyError;
  }

  lemma HashErrors(s: Store, key: string, fields: map<string, string>, names: seq<string>, field: string, amount: int)
    ensures var hset := HSet(s, key, fields).reply; hset.Err? ==> Explains(s, key, "Hash", hset.error)
    ensures var hincr := HIncrBy(s, key, field, amount).reply; hincr.Err? ==> Explains(s, key, "Hash", hincr.error)
    ensures var hdel := HDel(s, key, names).reply;
            && (hdel.Err? <==> key in s.entries && !s.entries[key].value.Hash?)
            && (hdel.Err? ==> hdel.error == TypeMismatch(key, "Hash", TypeName(s.entries[key].value)))
  {
    hide KeyError, SizeOf, ParseI64, ShowInt;
  }

  /** PFADD also refuses to add nothing, and PFRESERVE a key that exists. */
  lemma SketchErrors(s: Store, key: string, hashes: seq<U64>, precision: nat)
    ensures var add := PfAdd(s, key, hashes).reply;
            add.Err? ==> if KeyError(s.config, key).None? && hashes == [] then add.error == InvalidValue
                         else Explains(s, key, "HyperLogLog", add.error)
    ensures var reserve := PfReserve(s, key, precision).reply;
            reserve.Err? ==> if KeyError(s.config, key).Some? then reserve.error == KeyError(s.config, key).value
                             else key in s.entries && reserve.error == OperationFailed
  {
    hide KeyError, AddHashes;
  }

  ghost predicate CanSet(s: Store, key: string, v: Value) {
    s.queue.None? && RoomForBytes(s, SizeOf(v)) && 1 <= ByteLen(key) <= s.config.maxKeySize &&
    SizeOf(v) <= s.config.maxValueSize
  }

  /** After SET without TTL, the value is there at any time, and there is no remaining time to tell. */
  lemma SetIsRead(s: Store, key: string, v: Value, at: nat)
    requires CanSet(s, key, v)
    ensures var t := Set(s, key, v).store; Get(t, key, at) == Some(v) && TtlSeconds(t, key, at) == -1
    ensures forall k :: k != key ==> Get(Set(s, key, v).store, k, at) == Get(s, k, at)
  {
    hide SizeOf, SetEntry;
    SetMeaning(s, key, v, None);
  }

  /** After SET with TTL, the remaining time counts down from it, and the value is there to its last second.
      When the end does not fit 64 bits there is none. */
  lemma SetWithTtlIsRead(s: Store, key: string, v: Value, ttl: nat, now: nat, at: nat)
    requires CanSet(s, key, v) && now <= at
    ensures var t := SetWithTtl(s, key, v, ttl, now).store;
            && (now + ttl <= U64_MAX ==>
                  && Get(t, key, at) == (if at <= now + ttl then Some(v) else None)
                  && TtlSeconds(t, key, at) == if at <= now + ttl then Min(now + ttl - at, I64_MAX) else -2)
            && (now + ttl > U64_MAX ==> Get(t, key, at) == Some(v) && TtlSeconds(t, key, at) == -1)
  {
    hide SizeOf, SetEntry;
    SetMeaning(s, key, v, ExpiryAfter(now, ttl));
  }

  // ----- GETSET and DELETE -----

  /** GETSET answers with the value that was there, which a read would have found unless it had expired. */
  lemma GetSetMeaning(s: Store, key: string, v: Value, at: nat)
    ensures var getset := GetSet(s, key, v);
            && getset.store == Set(s, key, v).store
            && (getset.reply.Ok? <==> Set(s, key, v).reply.Ok?)
            && (getset.reply.Ok? ==>
                  && (getset.reply.value.None? <==> key !in s.entries)
                  && (Get(s, key, at).Some? ==> getset.reply.value == Get(s, key, at))
                  && (key in s.entries ==> getset.reply.value == Some(s.entries[key].value)))
  {
    hide SetEntry;
  }

  /** DELETE answers with the value that was there, inside a transaction too; outside, no read finds the key
      afterwards, and every other read finds what it found before. */
  lemma DeleteMeaning(s: Store, key: string, at: nat)
    ensures var delete := Delete(s, key);
            && delete.reply.Ok? && (delete.reply.value.None? <==> key !in s.entries)
            && (key in s.entries ==> delete.reply.value == Some(s.entries[key].value))
            && (s.queue.Some? ==> delete.store == s.(queue := Some(s.queue.value + [TxDelete(key)])))
            && (s.queue.None? ==>
                  && !Exists(delete.store, key, at) && TtlSeconds(delete.store, key, at) == -2
                  && (forall k :: k != key ==> Get(delete.store, k, at) == Get(s, k, at)))
  {
  }

  // ----- Counters and texts -----

  /** The increments answer with the number that they leave, and keep the expiry. */
  lemma IncrByMeaning(s: Store, key: string, amount: int, at: nat)
    ensures var incr := IncrBy(s, key, amount);
            && (forall k :: k != key ==> Get(incr.store, k, at) == Get(s, k, at))
            && if key !in s.entries then incr.store == s && incr.reply == Err(KeyNotFound(key))
               else if s.entries[key].value.Int? then
                 var next := s.entries[key].value.i + amount;
                 incr.reply == Ok(next) && EntryAt(incr.store, key) == Some(s.entries[key].(value := Int(next)))
               else
                 incr.store == s && incr.reply == Err(TypeMismatch(key, "Int", TypeName(s.entries[key].value)))
  {
  }

  /** APPEND puts the text behind the one that is there, or creates the key, and answers with the number of
      bytes that the key then holds. */
  lemma AppendMeaning(s: Store, key: string, text: string)
    requires key !in s.entries ==> CanSet(s, key, Str(text))
    ensures var append := Append(s, key, text);
            if key !in s.entries then
              append.reply == Ok(ByteLen(text)) && EntryAt(append.store, key) == Some(Entry(Str(text), None))
            else if s.entries[key].value.Str? then
              var was := s.entries[key].value.s;
              append.reply == Ok(ByteLen(was) + ByteLen(text)) &&
              EntryAt(append.store, key) == Some(s.entries[key].(value := Str(was + text)))
            else append.store == s && append.reply == Err(TypeMismatch(key, "Str", TypeName(s.entries[key].value)))
  {
    if key !in s.entries {
      hide SetEntry;
      SetMeaning(s, key, Str(text), None);
    } else if s.entries[key].value.Str? {
      ByteLenAppend(s.entries[key].value.s, text);
    }
  }

  // ----- Expiry -----

  /** EXPIRE answers true exactly for a key that can be read, and changes nothing otherwise; PERSIST exactly
      for a key that has an expiry. */
  lemma ExpiryRepliesExactlyWhen(s: Store, key: string, ttl: nat, now: nat)
    ensures Expire(s, key, ttl, now).reply == Ok(Exists(s, key, now))
    ensures !Exists(s, key, now) ==> Expire(s, key, ttl, now).store == s
    ensures Persist(s, key).reply == Ok(key in s.entries && s.entries[key].expiresAt.Some?)
    ensures Persist(s, key).reply == Ok(false) ==> Persist(s, key).store == s
  {
  }

  // ----- Hashes -----

  /** The fields of a hash; none when the key is missing or holds another type. */
  function FieldsAt(s: Store, key: string): map<string, string> {
    if key in s.entries && s.entries[key].value.Hash? then s.entries[key].value.fields else map[]
  }

  function FieldOf(s: Store, key: string, field: string): Option<string> {
    if field in FieldsAt(s, key) then Some(FieldsAt(s, key)[field]) else None
  }

  ghost predicate CanHash(s: Store, key: string) {
    1 <= ByteLen(key) <= s.config.maxKeySize && (key in s.entries ==> s.entries[key].value.Hash?)
  }

  ghost function NewFields(s: Store, key: string, names: set<string>): set<string> {
    set f | f in names && FieldOf(s, key, f).None?
  }

  ghost function OldFields(s: Store, key: string, names: set<string>): set<string> {
    set f | f in names && FieldOf(s, key, f).Some?
  }

  lemma HSetFields(s: Store, key: string, fields: map<string, string>)
    requires CanHash(s, key)
    ensures var hset := HSet(s, key, fields);
            && hset.reply == Ok(|fields.Keys - FieldsAt(s, key).Keys|) && key in hset.store.entries
            && hset.store.entries[key].value == Hash(FieldsAt(s, key) + fields)
            && hset.store.entries - {key} == s.entries - {key}
  {
    KeyIsValidExactlyWhen(s.config, key);
    hide SizeOf, KeyError, ByteLen, Touched;
    var was := FieldsAt(s, key);
    if key in s.entries {
      assert s.entries[key].value == Hash(was);
      assert HSet(s, key, fields) == Outcome(Rewritten(s, key, Hash(was + fields)), Ok(|fields.Keys - was.Keys|));
    } else {
      assert fields.Keys - was.Keys == fields.Keys && was + fields == fields;
    }
  }

  /** HSET sets its fields, leaves the others, and answers with the number of those that were not there. */
  lemma HSetMeaning(s: Store, key: string, fields: map<string, string>)
    requires CanHash(s, key)
    ensures var hset := HSet(s, key, fields);
            && (forall f :: FieldOf(hset.store, key, f) ==
                              if f in fields then Some(fields[f]) else FieldOf(s, key, f))
            && hset.reply == Ok(|NewFields(s, key, fields.Keys)|)
            && hset.store.entries - {key} == s.entries - {key}
  {
    hide HSet;
    HSetFields(s, key, fields);
    assert NewFields(s, key, fields.Keys) == fields.Keys - FieldsAt(s, key).Keys;
  }

  /** HDEL removes the named fields, leaves the others, and answers with the number of those that were there. */
  lemma HDelMeaning(s: Store, key: string, names: seq<string>)
    requires key in s.entries ==> s.entries[key].value.Hash?
    ensures var hdel := HDel(s, key, names);
            && (forall f :: FieldOf(hdel.store, key, f) == if f in names then None else FieldOf(s, key, f))
            && hdel.reply == Ok(|OldFields(s, key, Elements(names))|)
            && hdel.store.entries - {key} == s.entries - {key}
  {
    hide SizeOf;
    assert OldFields(s, key, Elements(names)) == FieldsAt(s, key).Keys * Elements(names);
    if key !in s.entries { assert OldFields(s, key, Elements(names)) == {}; }
  }

  // ----- Queued operations -----

  /** A queued counter operation counts from the number that is there, or from zero, and answers with its
      decimal text; on another type it changes no entry. */
  lemma QueuedCounterMeaning(s: Store, op: TransactionOp)
    requires op.TxIncr? || op.TxDecr? || op.TxIncrBy?
    ensures var amount := if op.TxIncr? then 1 else if op.TxDecr? then -1 else op.amount; var done := ExecOp(s, op);
            match EntryAt(s, op.key)
            case None => EntryAt(done.0, op.key) == Some(Entry(Int(amount), None)) && done.1 == ShowInt(amount)
            case Some(e) =>
              if e.value.Int? then EntryAt(done.0, op.key) == Some(e.(value := Int(e.value.i + amount))) &&
                                   done.1 == ShowInt(e.value.i + amount)
              else done.0.entries == s.entries && done.1 == "ERR: Type mismatch"
  {
  }

  lemma QueuedAppendMeaning(s: Store, op: TransactionOp)
    requires op.TxAppend?
    ensures var done := ExecOp(s, op);
            match EntryAt(s, op.key)
            case None => EntryAt(done.0, op.key) == Some(Entry(Str(op.text), None)) && done.1 == "OK"
            case Some(e) =>
              if e.value.Str? then
                EntryAt(done.0, op.key) == Some(e.(value := Str(e.value.s + op.text))) && done.1 == "OK"
              else done.0.entries == s.entries && done.1 == "ERR: Type mismatch"
  {
  }

  /** A queued SET or DELETE always answers OK, and does what it says whatever its size. */
  lemma QueuedWriteMeaning(s: Store, op: TransactionOp)
    requires op.TxSet? || op.TxDelete?
    ensures var done := ExecOp(s, op);
            && done.1 == "OK" && done.0.entries - {op.key} == s.entries - {op.key}
            && EntryAt(done.0, op.key) == if op.TxSet? then Some(Entry(op.value, op.expiresAt)) else None
  {
  }

  /** MULTI is refused inside a transaction and the others outside; MULTI opens an empty queue, a queued
      operation goes to its end, and EXEC and DISCARD close it. */
  lemma TransactionControl(s: Store, op: TransactionOp)
    ensures Multi(s).reply == (if s.queue.None? then Ok(()) else Err(OperationFailed))
    ensures Multi(s).reply.Ok? ==> Multi(s).store.queue == Some([])
    ensures Discard(s).reply == QueueOperation(s, op).reply
            == (if s.queue.Some? then Ok(()) else Err(OperationFailed))
    ensures Exec(s).reply.Err? <==> s.queue.None?
    ensures s.queue.Some? ==>
              && QueueOperation(s, op).store == s.(queue := Some(s.queue.value + [op]))
              && Discard(s).store == s.(queue := None) && Exec(s).store.queue == None
              && Exec(s).store.entries == ExecOps(s.(queue := None), s.queue.value).0.entries
              && Exec(s).reply == Ok(ExecOps(s.(queue := None), s.queue.value).1)
  {
    hide ExecOps;
    if s.queue.Some? { ExecAnswersEach(s.(queue := None), s.queue.value); }
  }

  lemma ExecOpKeepsQueue(s: Store, op: TransactionOp)
    ensures ExecOp(s, op).0.queue == s.queue
  {
  }

  /** EXEC answers once per queued operation, in order, each as on the store that the ones before it left,
      and ends the transaction. */
  lemma {:induction false} ExecAnswersEach(s: Store, ops: seq<TransactionOp>)
    ensures var done := ExecOps(s, ops);
            && |done.1| == |ops| && done.0.queue == s.queue
            && forall i :: 0 <= i < |ops| ==> done.1[i] == ExecOp(ExecOps(s, ops[..i]).0, ops[i]).1
  {
    hide ExecOp;
    if ops != [] {
      var n := |ops| - 1;
      var before := ExecOps(s, ops[..n]);
      ExecAnswersEach(s, ops[..n]);
      ExecOpKeepsQueue(before.0, ops[n]);
      forall i | 0 <= i < n ensures before.1[i] == ExecOp(ExecOps(s, ops[..i]).0, ops[i]).1 {
        assert ops[..n][..i] == ops[..i] && ops[..n][i] == ops[i];
      }
      assert ExecOps(s, ops).1 == before.1 + [ExecOp(before.0, ops[n]).1];
      hide ExecOps;
    }
  }
}
