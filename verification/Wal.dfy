/** The write-ahead log: its entries, and the store command that each entry stands for.
    Encoding, printing and hashing of values are parameters. */
module Wal {
  import opened Basics
  import opened HyperLogLogs
  import opened StoreModel
  import opened KvStores

  datatype WalOp =
    | Set(key: string, value: string, ttlSecs: Option<nat>)
    | Delete(key: string)
    | Incr(key: string)
    | Decr(key: string)
    | IncrBy(key: string, amount: int)
    | Append(key: string, text: string)
    | GetSet(key: string, value: string)
    | Mset(pairs: seq<(string, string)>)
    | PfAdd(key: string, values: seq<string>)
    | PfMerge(destination: string, sources: seq<string>)
    | LPush(key: string, values: seq<string>)
    | RPush(key: string, values: seq<string>)
    | LPop(key: string)
    | RPop(key: string)
    | Expire(key: string, ttl: nat)
    | Persist(key: string)
    | HSet(key: string, fields: map<string, string>)
    | HDel(key: string, names: seq<string>)
    | HIncrBy(key: string, field: string, amount: int)

  datatype WalEntry = WalEntry(timestamp: nat, op: WalOp)

  /** JSON encoding and decoding of values, their display text, and the 64-bit string hash. */
  datatype Codec = Codec(encode: Value -> string, decode: string -> Option<Value>,
                         display: Value -> string, hash: string -> U64)

  /** Decoding an encoded text gives it back. Handlers encode no other kind of value. */
  ghost predicate Faithful(codec: Codec) {
    forall text: string :: codec.decode(codec.encode(Str(text))) == Some(Str(text))
  }

  /** There is such a codec. */
  lemma FaithfulCodecExists() returns (codec: Codec)
    ensures Faithful(codec)
  {
    codec := Codec((v: Value) => if v.Str? then v.s else "", text => Some(Str(text)), v => "", text => 0);
  }

  /** The command that a replica and point-in-time recovery run for an entry. The logged text of SET,
      GETSET and MSET is stored as it stands, without decoding. */
  function RawCommand(codec: Codec, op: WalOp, now: nat): Command {
    match op
    case Set(key, value, None) => CSet(key, Str(value))
    case Set(key, value, Some(ttl)) => CSetWithTtl(key, Str(value), ttl, now)
    case Delete(key) => CDelete(key)
    case Incr(key) => CIncrBy(key, 1)
    case Decr(key) => CIncrBy(key, -1)
    case IncrBy(key, amount) => CIncrBy(key, amount)
    case Append(key, text) => CAppend(key, text)
    case GetSet(key, value) => CGetSet(key, Str(value))
    case Mset(pairs) => CMSet(pairs)
    case PfAdd(key, values) => CPfAdd(key, Hashed(codec.hash, values))
    case PfMerge(destination, sources) => CPfMerge(destination, sources)
    case LPush(key, values) => CPush(key, values, true)
    case RPush(key, values) => CPush(key, values, false)
    case LPop(key) => CPop(key, true)
    case RPop(key) => CPop(key, false)
    case Expire(key, ttl) => CExpire(key, ttl, now)
    case Persist(key) => CPersist(key)
    case HSet(key, fields) => CHSet(key, fields)
    case HDel(key, names) => CHDel(key, names)
    case HIncrBy(key, field, amount) => CHIncrBy(key, field, amount)
  }

  /** The command is one whose error its caller passes on; the others' errors are dropped. */
  predicate ReportsErrors(op: WalOp) {
    op.Set? || op.Incr? || op.Decr? || op.IncrBy? || op.Append? || op.GetSet? || op.Mset?
  }

  /** A command that is refused with an error. */
  ghost predicate Refused(s: Store, c: Command) {
    match c
    case CSet(key, v) => StoreModel.Set(s, key, v).reply.Err?
    case CSetWithTtl(key, v, ttl, now) => SetWithTtl(s, key, v, ttl, now).reply.Err?
    case CIncrBy(key, amount) => StoreModel.IncrBy(s, key, amount).reply.Err?
    case CAppend(key, text) => StoreModel.Append(s, key, text).reply.Err?
    case CGetSet(key, v) => StoreModel.GetSet(s, key, v).reply.Err?
    case CMSet(pairs) => MSet(s, pairs).reply.Err?
    case CPfReserve(key, precision) => PfReserve(s, key, precision).reply.Err?
    case CPfAdd(key, hashes) => StoreModel.PfAdd(s, key, hashes).reply.Err?
    case CPfMerge(destination, sources) => StoreModel.PfMerge(s, destination, sources).reply.Err?
    case CPush(key, values, atHead) => Push(s, key, values, atHead).reply.Err?
    case CPop(key, atHead) => Pop(s, key, atHead).reply.Err?
    case CHSet(key, fields) => StoreModel.HSet(s, key, fields).reply.Err?
    case CHDel(key, names) => StoreModel.HDel(s, key, names).reply.Err?
    case CHIncrBy(key, field, amount) => StoreModel.HIncrBy(s, key, field, amount).reply.Err?
    case CMulti => Multi(s).reply.Err?
    case CExec => Exec(s).reply.Err?
    case CDiscard => Discard(s).reply.Err?
    case CQueue(op) => QueueOperation(s, op).reply.Err?
    case _ => false
  }

  predicate OnStrings(c: Command) {
    c.CSet? || c.CSetWithTtl? || c.CDelete? || c.CIncrBy? || c.CAppend? || c.CGetSet? || c.CMSet?
  }

  predicate OnCollections(c: Command) {
    c.CPfReserve? || c.CPfAdd? || c.CPfMerge? || c.CPush? || c.CPop? || c.CHSet? || c.CHDel? || c.CHIncrBy?
  }

  /** Runs a command on strings and counters. */
  method ExecuteOnStrings(store: KvStore, c: Command, now: nat) returns (refused: bool)
    requires OnStrings(c)
    modifies store`entries, store`stats, store`lruOrder, store`queue, store`events
    ensures store.Model() == Apply(old(store.Model()), c)
    ensures refused <==> Refused(old(store.Model()), c)
  {
    hide StoreModel.Set, SetWithTtl, StoreModel.Delete, StoreModel.IncrBy, StoreModel.Append, StoreModel.GetSet;
    hide MSet, StoreModel.Expire, StoreModel.Persist, CleanupExpired, PfReserve, StoreModel.PfAdd;
    hide StoreModel.PfMerge, Push, Pop, StoreModel.HSet, StoreModel.HDel, StoreModel.HIncrBy;
    hide Multi, Exec, Discard, QueueOperation, SetEvents, MSetEvents, Emitted, ExpiredEvents, DueKeys;
    refused := false;
    match c {
      case CSet(key, v) => { var r := store.Set(key, v, now); refused := r.Err?; }
      case CSetWithTtl(key, v, ttl, at) => { var r := store.SetWithTtl(key, v, ttl, at); refused := r.Err?; }
      case CDelete(key) => { var _ := store.Delete(key, now); }
      case CIncrBy(key, amount) => { var r := store.IncrBy(key, amount); refused := r.Err?; }
      case CAppend(key, text) => { var r := store.Append(key, text, now); refused := r.Err?; }
      case CGetSet(key, v) => { var r := store.GetSet(key, v, now); refused := r.Err?; }
      case CMSet(pairs) => { var r := store.MSet(pairs, now); refused := r.Err?; }
    }
  }

  /** Runs a command on sketches, lists and hashes. */
  method ExecuteOnCollections(store: KvStore, c: Command, now: nat) returns (refused: bool)
    requires OnCollections(c)
    modifies store`entries, store`stats, store`lruOrder
    ensures store.Model() == Apply(old(store.Model()), c)
    ensures refused <==> Refused(old(store.Model()), c)
  {
    hide StoreModel.Set, SetWithTtl, StoreModel.Delete, StoreModel.IncrBy, StoreModel.Append, StoreModel.GetSet;
    hide MSet, StoreModel.Expire, StoreModel.Persist, CleanupExpired, PfReserve, StoreModel.PfAdd;
    hide StoreModel.PfMerge, Push, Pop, StoreModel.HSet, StoreModel.HDel, StoreModel.HIncrBy;
    hide Multi, Exec, Discard, QueueOperation, SetEvents, MSetEvents, Emitted, ExpiredEvents, DueKeys;
    refused := false;
    match c {
      case CPfReserve(key, precision) => { var r := store.PfReserve(key, precision); refused := r.Err?; }
      case CPfAdd(key, hashes) => { var r := store.PfAdd(key, hashes); refused := r.Err?; }
      case CPfMerge(destination, sources) => { var r := store.PfMerge(destination, sources); refused := r.Err?; }
      case CPush(key, values, atHead) => { var r := store.Push(key, values, atHead); refused := r.Err?; }
      case CPop(key, atHead) => { var r := store.Pop(key, atHead); refused := r.Err?; }
      case CHSet(key, fields) => { var r := store.HSet(key, fields); refused := r.Err?; }
      case CHDel(key, names) => { var r := store.HDel(key, names); refused := r.Err?; }
      case CHIncrBy(key, field, amount) => { var r := store.HIncrBy(key, field, amount); refused := r.Err?; }
    }
  }

  /** Runs a command on expiry, transactions or settings. */
  method ExecuteControl(store: KvStore, c: Command, now: nat) returns (refused: bool)
    requires !OnStrings(c) && !OnCollections(c)
    modifies store`entries, store`stats, store`lruOrder, store`queue, store`events, store`config
    ensures store.Model() == Apply(old(store.Model()), c)
    ensures refused <==> Refused(old(store.Model()), c)
    ensures !c.CConfigure? ==> store.config == old(store.config)
  {
    hide StoreModel.Set, SetWithTtl, StoreModel.Delete, StoreModel.IncrBy, StoreModel.Append, StoreModel.GetSet;
    hide MSet, StoreModel.Expire, StoreModel.Persist, CleanupExpired, PfReserve, StoreModel.PfAdd;
    hide StoreModel.PfMerge, Push, Pop, StoreModel.HSet, StoreModel.HDel, StoreModel.HIncrBy;
    hide Multi, Exec, Discard, QueueOperation, SetEvents, MSetEvents, Emitted, ExpiredEvents, DueKeys;
    refused := false;
    match c {
      case CExpire(key, ttl, at) => { var _ := store.Expire(key, ttl, at); }
      case CPersist(key) => { var _ := store.Persist(key, now); }
      case CCleanup(at) => { var _, _ := store.CleanupExpired(at); }
      case CMulti => { var r := store.Multi(); refused := r.Err?; }
      case CExec => { var r := store.Exec(); refused := r.Err?; }
      case CDiscard => { var r := store.Discard(); refused := r.Err?; }
      case CQueue(op) => { var r := store.QueueOperation(op); refused := r.Err?; }
      case CConfigure(config) => { store.config := config; }
    }
  }

  /** Runs a command on a store object. */
  method Execute(store: KvStore, c: Command, now: nat) returns (refused: bool)
    modifies store`entries, store`stats, store`lruOrder, store`queue, store`events, store`config
    ensures store.Model() == Apply(old(store.Model()), c)
    ensures refused <==> Refused(old(store.Model()), c)
    ensures !c.CConfigure? ==> store.config == old(store.config)
  {
    hide Apply, Refused;
    if OnStrings(c) {
      refused := ExecuteOnStrings(store, c, now);
    } else if OnCollections(c) {
      refused := ExecuteOnCollections(store, c, now);
    } else {
      refused := ExecuteControl(store, c, now);
    }
  }
}
