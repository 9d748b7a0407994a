/** The state of the store engine as a value, and the effect of every command on it.
    Keyspace events are not part of this state; the class KvStore records them beside it. */
module StoreModel {
  import opened Basics
  import opened HyperLogLogs
  import opened Decimal

  // ----- Data -----

  datatype Value =
    | Str(s: string)
    | Int(i: int)
    | Float(x: real)
    | Bool(b: bool)
    | Json(text: string)
    | Hll(sketch: Sketch)
    | List(items: seq<string>)
    | Hash(fields: map<string, string>)

  datatype Entry = Entry(value: Value, expiresAt: Option<nat>)

  datatype Config = Config(maxKeySize: nat, maxValueSize: nat, maxMemoryBytes: nat, lruEvictionEnabled: bool)

  datatype Stats = Stats(totalKeys: nat, expiredKeys: nat, totalWrites: nat, totalDeletes: nat,
                         memoryBytes: nat, evictions: nat)

  datatype TransactionOp =
    | TxSet(key: string, value: Value, expiresAt: Option<nat>)
    | TxDelete(key: string)
    | TxIncr(key: string)
    | TxDecr(key: string)
    | TxIncrBy(key: string, amount: int)
    | TxAppend(key: string, text: string)

  datatype Error =
    | KeyNotFound(key: string)
    | TypeMismatch(key: string, expected: string, got: string)
    | KeyTooLarge(size: nat, max: nat)
    | ValueTooLarge(size: nat, max: nat)
    | InvalidKey
    | InvalidValue
    | OperationFailed

  datatype Store = Store(entries: map<string, Entry>, stats: Stats, config: Config,
                         lruOrder: seq<string>, queue: Option<seq<TransactionOp>>)

  /** What a command leaves behind: the new state and the reply to its caller. */
  datatype Outcome<+T> = Outcome(store: Store, reply: Result<T, Error>)

  function NewStore(config: Config): Store {
    Store(map[], Stats(0, 0, 0, 0, 0, 0), config, [], None)
  }

  function TypeName(v: Value): string {
    match v
    case Str(_) => "Str"
    case Int(_) => "Int"
    case Float(_) => "Float"
    case Bool(_) => "Bool"
    case Json(_) => "Json"
    case Hll(_) => "HyperLogLog"
    case List(_) => "List"
    case Hash(_) => "Hash"
  }

  function Mismatch(key: string, expected: string, got: Value): Error {
    TypeMismatch(key, expected, TypeName(got))
  }

  // ----- Sizes -----

  function TotalLen(items: seq<string>): nat {
    if items == [] then 0 else ByteLen(items[0]) + TotalLen(items[1..])
  }

  function FieldSize(f: string, v: string): nat { ByteLen(f) + ByteLen(v) }

  /** The size that the memory counter is charged for a value. */
  ghost function SizeOf(v: Value): nat {
    match v
    case Str(s) => ByteLen(s)
    case Int(_) => 8
    case Float(_) => 8
    case Bool(_) => 1
    case Json(text) => ByteLen(text)
    case Hll(sketch) => |sketch.registers|
    case List(items) => TotalLen(items) + 24
    case Hash(fields) => SumOver(fields, FieldSize) + 48
  }

  ghost function EntrySize(k: string, e: Entry): nat { SizeOf(e.value) }

  /** Bytes of all the values in the store, expired ones included. */
  ghost function LiveBytes(s: Store): nat { SumOver(s.entries, EntrySize) }

  ghost function SizeAt(s: Store, key: string): nat {
    if key in s.entries then SizeOf(s.entries[key].value) else 0
  }

  // ----- Validation -----

  function KeyError(c: Config, key: string): Option<Error> {
    if key == "" then Some(InvalidKey)
    else if ByteLen(key) > c.maxKeySize then Some(KeyTooLarge(ByteLen(key), c.maxKeySize))
    else None
  }

  ghost function ValueError(c: Config, v: Value): Option<Error> {
    if SizeOf(v) > c.maxValueSize then Some(ValueTooLarge(SizeOf(v), c.maxValueSize)) else None
  }

  ghost predicate Accepted(c: Config, key: string, v: Value) {
    KeyError(c, key).None? && ValueError(c, v).None?
  }

  // ----- LRU order and eviction -----

  function Touched(order: seq<string>, key: string): seq<string> { Without(order, key) + [key] }

  predicate EvictionOn(c: Config) { c.maxMemoryBytes > 0 && c.lruEvictionEnabled }

  /** One round of the eviction loop: the first key of the order goes, with its entry if it has one. */
  ghost function EvictFirst(s: Store): Store
    requires s.lruOrder != []
  {
    var key := s.lruOrder[0];
    var rest := s.lruOrder[1..];
    if key in s.entries then
      var left := s.entries - {key};
      s.(entries := left, lruOrder := rest,
         stats := s.stats.(memoryBytes := MonusNat(s.stats.memoryBytes, SizeAt(s, key)),
                           evictions := s.stats.evictions + 1, totalKeys := |left|))
    else s.(lruOrder := rest)
  }

  ghost function Evict(s: Store): Store
    decreases |s.lruOrder|
  {
    if s.stats.memoryBytes <= s.config.maxMemoryBytes || s.lruOrder == [] then s else Evict(EvictFirst(s))
  }

  // ----- Building blocks -----

  /** A write that is charged, before eviction. */
  ghost function Charged(s: Store, key: string, e: Entry): Store {
    var entries := s.entries[key := e];
    s.(entries := entries, lruOrder := Touched(s.lruOrder, key),
       stats := s.stats.(totalWrites := s.stats.totalWrites + 1, totalKeys := |entries|,
                         memoryBytes := s.stats.memoryBytes + SizeOf(e.value)))
  }

  ghost function Written(s: Store, key: string, e: Entry): Store {
    if EvictionOn(s.config) then Evict(Charged(s, key, e)) else Charged(s, key, e)
  }

  /** A change of a value in place: its expiry stays and the memory counter is not touched. */
  function Rewritten(s: Store, key: string, v: Value): Store
    requires key in s.entries
  {
    s.(entries := s.entries[key := s.entries[key].(value := v)], lruOrder := Touched(s.lruOrder, key),
       stats := s.stats.(totalWrites := s.stats.totalWrites + 1))
  }

  function Queued(s: Store, op: TransactionOp): Store
    requires s.queue.Some?
  {
    s.(queue := Some(s.queue.value + [op]))
  }

  /** `u64::checked_add`: no expiry when the sum does not fit. */
  function ExpiryAfter(now: nat, ttl: nat): Option<nat> {
    if now + ttl <= U64_MAX then Some(now + ttl) else None
  }

  // ----- Reads -----

  predicate ExpiredAt(e: Entry, now: nat) { e.expiresAt.Some? && now > e.expiresAt.value }

  function Get(s: Store, key: string, now: nat): Option<Value> {
    if key in s.entries && !ExpiredAt(s.entries[key], now) then Some(s.entries[key].value) else None
  }

  predicate Exists(s: Store, key: string, now: nat) { Get(s, key, now).Some? }

  function TtlSeconds(s: Store, key: string, now: nat): int {
    if key !in s.entries then -2
    else match s.entries[key].expiresAt
         case None => -1
         case Some(exp) => if now > exp then -2 else Min(exp - now, I64_MAX)
  }

  // ----- Strings and counters -----

  ghost function SetEntry(s: Store, key: string, v: Value, expiresAt: Option<nat>): Outcome<()> {
    if KeyError(s.config, key).Some? then Outcome(s, Err(KeyError(s.config, key).value))
    else if ValueError(s.config, v).Some? then Outcome(s, Err(ValueError(s.config, v).value))
    else if s.queue.Some? then Outcome(Queued(s, TxSet(key, v, expiresAt)), Ok(()))
    else Outcome(Written(s, key, Entry(v, expiresAt)), Ok(()))
  }

  ghost function Set(s: Store, key: string, v: Value): Outcome<()> { SetEntry(s, key, v, None) }

  ghost function SetWithTtl(s: Store, key: string, v: Value, ttl: nat, now: nat): Outcome<()> {
    SetEntry(s, key, v, ExpiryAfter(now, ttl))
  }

  function ValueAt(s: Store, key: string): Option<Value> {
    if key in s.entries then Some(s.entries[key].value) else None
  }

  function Delete(s: Store, key: string): Outcome<Option<Value>> {
    if s.queue.Some? then Outcome(Queued(s, TxDelete(key)), Ok(ValueAt(s, key)))
    else if key !in s.entries then Outcome(s, Ok(None))
    else Outcome(s.(entries := s.entries - {key}, stats := s.stats.(totalDeletes := s.stats.totalDeletes + 1)),
                 Ok(ValueAt(s, key)))
  }

  function IncrBy(s: Store, key: string, amount: int): Outcome<int> {
    if key !in s.entries then Outcome(s, Err(KeyNotFound(key)))
    else match s.entries[key].value
         case Int(i) => Outcome(Rewritten(s, key, Int(i + amount)), Ok(i + amount))
         case other => Outcome(s, Err(Mismatch(key, "Int", other)))
  }

  ghost function Append(s: Store, key: string, text: string): Outcome<nat> {
    if key !in s.entries then
      var write := Set(s, key, Str(text));
      Outcome(write.store, if write.reply.Ok? then Ok(ByteLen(text)) else Err(write.reply.error))
    else match s.entries[key].value
         case Str(was) => Outcome(Rewritten(s, key, Str(was + text)), Ok(ByteLen(was + text)))
         case other => Outcome(s, Err(Mismatch(key, "Str", other)))
  }

  ghost function GetSet(s: Store, key: string, v: Value): Outcome<Option<Value>> {
    var write := Set(s, key, v);
    Outcome(write.store, if write.reply.Ok? then Ok(ValueAt(s, key)) else Err(write.reply.error))
  }

  /** MSET writes its pairs in order and stops at the first one that is refused. */
  ghost function MSet(s: Store, pairs: seq<(string, string)>): Outcome<()>
    decreases |pairs|
  {
    if pairs == [] then Outcome(s, Ok(()))
    else
      var first := Set(s, pairs[0].0, Str(pairs[0].1));
      if first.reply.Err? then first else MSet(first.store, pairs[1..])
  }

  // ----- Expiry -----

  function Expire(s: Store, key: string, ttl: nat, now: nat): Outcome<bool> {
    if key !in s.entries || ExpiredAt(s.entries[key], now) then Outcome(s, Ok(false))
    else Outcome(s.(entries := s.entries[key := s.entries[key].(expiresAt := ExpiryAfter(now, ttl))]), Ok(true))
  }

  function Persist(s: Store, key: string): Outcome<bool> {
    if key !in s.entries || s.entries[key].expiresAt.None? then Outcome(s, Ok(false))
    else Outcome(s.(entries := s.entries[key := s.entries[key].(expiresAt := None)]), Ok(true))
  }

  function DueKeys(s: Store, now: nat): set<string> {
    set k | k in s.entries && s.entries[k].expiresAt.Some? && now >= s.entries[k].expiresAt.value
  }

  function CleanupExpired(s: Store, now: nat): Outcome<nat> {
    var due := DueKeys(s, now);
    Outcome(s.(entries := s.entries - due, stats := s.stats.(expiredKeys := s.stats.expiredKeys + |due|)),
            Ok(|due|))
  }

  // ----- HyperLogLog commands -----

  ghost function PfReserve(s: Store, key: string, precision: nat): Outcome<()> {
    if KeyError(s.config, key).Some? then Outcome(s, Err(KeyError(s.config, key).value))
    else if key in s.entries then Outcome(s, Err(OperationFailed))
    else Outcome(Charged(s, key, Entry(Hll(EmptySketch(precision)), None)), Ok(()))
  }

  /** The values to add are given by their 64-bit hashes; the reply is the sketch that is counted. */
  ghost function PfAdd(s: Store, key: string, hashes: seq<U64>): Outcome<Sketch> {
    if KeyError(s.config, key).Some? then Outcome(s, Err(KeyError(s.config, key).value))
    else if hashes == [] then Outcome(s, Err(InvalidValue))
    else if key !in s.entries then
      var sketch := AddHashes(EmptySketch(DEFAULT_PRECISION), hashes);
      Outcome(Charged(s, key, Entry(Hll(sketch), None)), Ok(sketch))
    else match s.entries[key].value
         case Hll(was) => Outcome(Rewritten(s, key, Hll(AddHashes(was, hashes))), Ok(AddHashes(was, hashes)))
         case other => Outcome(s, Err(Mismatch(key, "HyperLogLog", other)))
  }

  /** Merges the named sources into `base` in order; missing keys and the destination are passed over. */
  function MergeSources(s: Store, base: Sketch, destination: string, sources: seq<string>): (r: Result<Sketch, Error>)
    ensures r.Ok? ==> r.value.precision == base.precision
    decreases |sources|
  {
    if sources == [] then Ok(base)
    else
      var key := sources[0];
      if key == destination || key !in s.entries then MergeSources(s, base, destination, sources[1..])
      else match s.entries[key].value
           case Hll(sketch) =>
             if sketch.precision != base.precision then Err(InvalidValue)
             else MergeSources(s, Join(base, sketch), destination, sources[1..])
           case other => Err(Mismatch(key, "HyperLogLog", other))
  }

  ghost function PfMerge(s: Store, destination: string, sources: seq<string>): Outcome<Sketch> {
    if KeyError(s.config, destination).Some? then Outcome(s, Err(KeyError(s.config, destination).value))
    else if sources == [] then Outcome(s, Err(InvalidValue))
    else if destination in s.entries && !s.entries[destination].value.Hll? then
      Outcome(s, Err(Mismatch(destination, "HyperLogLog", s.entries[destination].value)))
    else
      var base := if destination in s.entries then s.entries[destination].value.sketch
                  else EmptySketch(DEFAULT_PRECISION);
      match MergeSources(s, base, destination, sources)
      case Err(e) => Outcome(s, Err(e))
      case Ok(merged) =>
        var e := Entry(Hll(merged), None);
        Outcome(if destination in s.entries
                then s.(entries := s.entries[destination := e], lruOrder := Touched(s.lruOrder, destination),
                        stats := s.stats.(totalWrites := s.stats.totalWrites + 1))
                else Charged(s, destination, e),
                Ok(merged))
  }

  // ----- Lists -----

  ghost function Push(s: Store, key: string, values: seq<string>, atHead: bool): Outcome<nat> {
    if KeyError(s.config, key).Some? then Outcome(s, Err(KeyError(s.config, key).value))
    else if key !in s.entries then
      var items := if atHead then Reversed(values) else values;
      Outcome(Charged(s, key, Entry(List(items), None)), Ok(|items|))
    else match s.entries[key].value
         case List(was) =>
           var items := if atHead then Reversed(values) + was else was + values;
           Outcome(Rewritten(s, key, List(items)), Ok(|items|))
         case other => Outcome(s, Err(Mismatch(key, "List", other)))
  }

  function Pop(s: Store, key: string, atHead: bool): Outcome<Option<string>> {
    if key !in s.entries then Outcome(s, Ok(None))
    else match s.entries[key].value
         case List(items) =>
           if items == [] then Outcome(s, Ok(None))
           else if atHead then Outcome(Rewritten(s, key, List(items[1..])), Ok(Some(items[0])))
           else Outcome(Rewritten(s, key, List(items[..|items| - 1])), Ok(Some(items[|items| - 1])))
         case other => Outcome(s, Err(Mismatch(key, "List", other)))
  }

  // ----- Hashes -----

  ghost function HSet(s: Store, key: string, fields: map<string, string>): Outcome<nat> {
    if KeyError(s.config, key).Some? then Outcome(s, Err(KeyError(s.config, key).value))
    else if key !in s.entries then Outcome(Charged(s, key, Entry(Hash(fields), None)), Ok(|fields|))
    else match s.entries[key].value
         case Hash(was) => Outcome(Rewritten(s, key, Hash(was + fields)), Ok(|fields.Keys - was.Keys|))
         case other => Outcome(s, Err(Mismatch(key, "Hash", other)))
  }

  ghost function HDel(s: Store, key: string, fields: seq<string>): Outcome<nat> {
    if key !in s.entries then Outcome(s, Ok(0))
    else match s.entries[key].value
         case Hash(was) =>
           var removed := |was.Keys * Elements(fields)|;
           var after := Rewritten(s, key, Hash(was - Elements(fields)));
           Outcome(if removed > 0 then after else after.(stats := s.stats), Ok(removed))
         case other => Outcome(s, Err(Mismatch(key, "Hash", other)))
  }

  /** A field that is missing or is not a 64-bit decimal counts as zero. */
  function FieldNumber(fields: map<string, string>, field: string): int {
    if field in fields && ParseI64(fields[field]).Some? then ParseI64(fields[field]).value else 0
  }

  ghost function HIncrBy(s: Store, key: string, field: string, amount: int): Outcome<int> {
    if KeyError(s.config, key).Some? then Outcome(s, Err(KeyError(s.config, key).value))
    else if key !in s.entries then
      Outcome(Charged(s, key, Entry(Hash(map[field := ShowInt(amount)]), None)), Ok(amount))
    else match s.entries[key].value
         case Hash(was) =>
           var next := FieldNumber(was, field) + amount;
           Outcome(Rewritten(s, key, Hash(was[field := ShowInt(next)])), Ok(next))
         case other => Outcome(s, Err(Mismatch(key, "Hash", other)))
  }

  // ----- Transactions -----

  function Multi(s: Store): Outcome<()> {
    if s.queue.Some? then Outcome(s, Err(OperationFailed)) else Outcome(s.(queue := Some([])), Ok(()))
  }

  function Discard(s: Store): Outcome<()> {
    if s.queue.None? then Outcome(s, Err(OperationFailed)) else Outcome(s.(queue := None), Ok(()))
  }

  function QueueOperation(s: Store, op: TransactionOp): Outcome<()> {
    if s.queue.None? then Outcome(s, Err(OperationFailed)) else Outcome(Queued(s, op), Ok(()))
  }

  /** A write inside EXEC: never charged and never followed by eviction. */
  function ExecWrite(s: Store, key: string, e: Entry): Store {
    s.(entries := s.entries[key := e], lruOrder := Touched(s.lruOrder, key),
       stats := s.stats.(totalWrites := s.stats.totalWrites + 1))
  }

  /** A queued command on a key of the wrong type still counts as a write and touches the order. */
  function ExecRefused(s: Store, key: string): Store {
    s.(lruOrder := Touched(s.lruOrder, key), stats := s.stats.(totalWrites := s.stats.totalWrites + 1))
  }

  const TYPE_MISMATCH_REPLY := "ERR: Type mismatch"

  function ExecIncr(s: Store, key: string, amount: int): (Store, string) {
    if key !in s.entries then (ExecWrite(s, key, Entry(Int(amount), None)), ShowInt(amount))
    else match s.entries[key].value
         case Int(i) => (Rewritten(s, key, Int(i + amount)), ShowInt(i + amount))
         case _ => (ExecRefused(s, key), TYPE_MISMATCH_REPLY)
  }

  function ExecOp(s: Store, op: TransactionOp): (Store, string) {
    match op
    case TxSet(key, v, expiresAt) => (ExecWrite(s, key, Entry(v, expiresAt)), "OK")
    case TxDelete(key) =>
      (s.(entries := s.entries - {key}, stats := s.stats.(totalDeletes := s.stats.totalDeletes + 1)), "OK")
    case TxIncr(key) => ExecIncr(s, key, 1)
    case TxDecr(key) => ExecIncr(s, key, -1)
    case TxIncrBy(key, amount) => ExecIncr(s, key, amount)
    case TxAppend(key, text) =>
      if key !in s.entries then (ExecWrite(s, key, Entry(Str(text), None)), "OK")
      else match s.entries[key].value
           case Str(was) => (Rewritten(s, key, Str(was + text)), "OK")
           case _ => (ExecRefused(s, key), TYPE_MISMATCH_REPLY)
  }

  function ExecOps(s: Store, ops: seq<TransactionOp>): (Store, seq<string>) {
    if ops == [] then (s, [])
    else
      var (before, replies) := ExecOps(s, ops[..|ops| - 1]);
      var (after, reply) := ExecOp(before, ops[|ops| - 1]);
      (after, replies + [reply])
  }

  function Exec(s: Store): Outcome<seq<string>> {
    if s.queue.None? then Outcome(s, Err(OperationFailed))
    else
      var (after, replies) := ExecOps(s.(queue := None), s.queue.value);
      Outcome(after, Ok(replies))
  }

  // ----- Commands and runs -----

  datatype Command =
    | CSet(key: string, value: Value)
    | CSetWithTtl(key: string, value: Value, ttl: nat, now: nat)
    | CDelete(key: string)
    | CIncrBy(key: string, amount: int)
    | CAppend(key: string, text: string)
    | CGetSet(key: string, value: Value)
    | CMSet(pairs: seq<(string, string)>)
    | CExpire(key: string, ttl: nat, now: nat)
    | CPersist(key: string)
    | CCleanup(now: nat)
    | CPfReserve(key: string, precision: nat)
    | CPfAdd(key: string, hashes: seq<U64>)
    | CPfMerge(destination: string, sources: seq<string>)
    | CPush(key: string, values: seq<string>, atHead: bool)
    | CPop(key: string, atHead: bool)
    | CHSet(key: string, fields: map<string, string>)
    | CHDel(key: string, names: seq<string>)
    | CHIncrBy(key: string, field: string, amount: int)
    | CMulti
    | CExec
    | CDiscard
    | CQueue(op: TransactionOp)
    | CConfigure(config: Config)

  ghost function Apply(s: Store, c: Command): Store {
    match c
    case CSet(key, v) => Set(s, key, v).store
    case CSetWithTtl(key, v, ttl, now) => SetWithTtl(s, key, v, ttl, now).store
    case CDelete(key) => Delete(s, key).store
    case CIncrBy(key, amount) => IncrBy(s, key, amount).store
    case CAppend(key, text) => Append(s, key, text).store
    case CGetSet(key, v) => GetSet(s, key, v).store
    case CMSet(pairs) => MSet(s, pairs).store
    case CExpire(key, ttl, now) => Expire(s, key, ttl, now).store
    case CPersist(key) => Persist(s, key).store
    case CCleanup(now) => CleanupExpired(s, now).store
    case CPfReserve(key, precision) => PfReserve(s, key, precision).store
    case CPfAdd(key, hashes) => PfAdd(s, key, hashes).store
    case CPfMerge(destination, sources) => PfMerge(s, destination, sources).store
    case CPush(key, values, atHead) => Push(s, key, values, atHead).store
    case CPop(key, atHead) => Pop(s, key, atHead).store
    case CHSet(key, fields) => HSet(s, key, fields).store
    case CHDel(key, names) => HDel(s, key, names).store
    case CHIncrBy(key, field, amount) => HIncrBy(s, key, field, amount).store
    case CMulti => Multi(s).store
    case CExec => Exec(s).store
    case CDiscard => Discard(s).store
    case CQueue(op) => QueueOperation(s, op).store
    case CConfigure(config) => s.(config := config)
  }

  ghost function Run(s: Store, commands: seq<Command>): Store {
    if commands == [] then s else Apply(Run(s, commands[..|commands| - 1]), commands[|commands| - 1])
  }
}
