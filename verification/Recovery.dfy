/** Durability: requests are logged and then applied, and a restart replays the log. */
module Recovery {
  import opened Basics
  import opened StoreModel
  import opened KvStores
  import opened LruOrder
  import opened Transactions
  import opened Wal

  // ----- Replay -----

  function DecodePairs(codec: Codec, pairs: seq<(string, string)>): Option<seq<(string, string)>> {
    if pairs == [] then Some([])
    else match (codec.decode(pairs[0].1), DecodePairs(codec, pairs[1..]))
         case (Some(v), Some(rest)) => Some([(pairs[0].0, codec.display(v))] + rest)
         case _ => None
  }

  /** The command that start-up replay runs for an entry: the text of SET, GETSET and MSET is decoded,
      and an entry whose text does not decode is passed over. */
  function ReplayCommand(codec: Codec, op: WalOp, now: nat): Option<Command> {
    match op
    case Set(key, text, ttl) =>
      (match codec.decode(text)
       case None => None
       case Some(v) => Some(if ttl.Some? then CSetWithTtl(key, v, ttl.value, now) else CSet(key, v)))
    case GetSet(key, text) =>
      (match codec.decode(text)
       case None => None
       case Some(v) => Some(CGetSet(key, v)))
    case Mset(pairs) =>
      (match DecodePairs(codec, pairs)
       case None => None
       case Some(decoded) => Some(CMSet(decoded)))
    case _ => Some(RawCommand(codec, op, now))
  }

  /** A refused SET fails the whole replay; every other refusal is dropped. */
  ghost function ReplayEntry(codec: Codec, s: Store, op: WalOp, now: nat): Option<Store> {
    match ReplayCommand(codec, op, now)
    case None => Some(s)
    case Some(c) => if op.Set? && Refused(s, c) then None else Some(Apply(s, c))
  }

  ghost function Replay(codec: Codec, s: Store, log: seq<WalEntry>, now: nat): Option<Store> {
    if log == [] then Some(s)
    else match Replay(codec, s, log[..|log| - 1], now)
         case None => None
         case Some(t) => ReplayEntry(codec, t, log[|log| - 1].op, now)
  }

  lemma {:induction false} ReplayStopsAtFailure(codec: Codec, s: Store, log: seq<WalEntry>, n: nat, now: nat)
    requires n <= |log| && Replay(codec, s, log[..n], now).None?
    ensures Replay(codec, s, log, now).None?
    decreases |log| - n
  {
    if n == |log| {
      assert log[..n] == log;
    } else {
      assert log[..n + 1][..n] == log[..n];
      ReplayStopsAtFailure(codec, s, log, n + 1, now);
    }
  }

  method ReplayWal(codec: Codec, log: seq<WalEntry>, store: KvStore, now: nat) returns (ok: bool)
    modifies store`entries, store`stats, store`lruOrder, store`queue, store`events, store`config
    ensures ok <==> Replay(codec, old(store.Model()), log, now).Some?
    ensures ok ==> Replay(codec, old(store.Model()), log, now) == Some(store.Model())
  {
    hide Apply, Refused;
    for i := 0 to |log|
      invariant Replay(codec, old(store.Model()), log[..i], now) == Some(store.Model())
    {
      assert log[..i + 1][..i] == log[..i];
      match ReplayCommand(codec, log[i].op, now) {
        case None =>
        case Some(c) =>
          var refused := Execute(store, c, now);
          if log[i].op.Set? && refused {
            ReplayStopsAtFailure(codec, old(store.Model()), log, i + 1, now);
            return false;
          }
      }
    }
    assert log[..|log|] == log;
    ok := true;
  }

  // ----- Requests -----

  datatype Request =
    | ReqSet(key: string, text: string)
    | ReqDelete(key: string)
    | ReqIncr(key: string)
    | ReqDecr(key: string)
    | ReqIncrBy(key: string, amount: int)
    | ReqAppend(key: string, text: string)
    | ReqLPush(key: string, values: seq<string>)
    | ReqRPush(key: string, values: seq<string>)
    | ReqLPop(key: string)
    | ReqRPop(key: string)
    | ReqHSet(key: string, fields: map<string, string>)
    | ReqHDel(key: string, names: seq<string>)
    | ReqHIncrBy(key: string, field: string, amount: int)

  /** What the handler of a request logs. */
  function LoggedAs(codec: Codec, req: Request): WalOp {
    match req
    case ReqSet(key, text) => Wal.Set(key, codec.encode(Str(text)), None)
    case ReqDelete(key) => Wal.Delete(key)
    case ReqIncr(key) => Wal.Incr(key)
    case ReqDecr(key) => Wal.Decr(key)
    case ReqIncrBy(key, amount) => Wal.IncrBy(key, amount)
    case ReqAppend(key, text) => Wal.Append(key, text)
    case ReqLPush(key, values) => Wal.LPush(key, values)
    case ReqRPush(key, values) => Wal.RPush(key, values)
    case ReqLPop(key) => Wal.LPop(key)
    case ReqRPop(key) => Wal.RPop(key)
    case ReqHSet(key, fields) => Wal.HSet(key, fields)
    case ReqHDel(key, names) => Wal.HDel(key, names)
    case ReqHIncrBy(key, field, amount) => Wal.HIncrBy(key, field, amount)
  }

  /** What the handler of a request then does to the store. */
  function ServedBy(req: Request): Command {
    match req
    case ReqSet(key, text) => CSet(key, Str(text))
    case ReqDelete(key) => CDelete(key)
    case ReqIncr(key) => CIncrBy(key, 1)
    case ReqDecr(key) => CIncrBy(key, -1)
    case ReqIncrBy(key, amount) => CIncrBy(key, amount)
    case ReqAppend(key, text) => CAppend(key, text)
    case ReqLPush(key, values) => CPush(key, values, true)
    case ReqRPush(key, values) => CPush(key, values, false)
    case ReqLPop(key) => CPop(key, true)
    case ReqRPop(key) => CPop(key, false)
    case ReqHSet(key, fields) => CHSet(key, fields)
    case ReqHDel(key, names) => CHDel(key, names)
    case ReqHIncrBy(key, field, amount) => CHIncrBy(key, field, amount)
  }

  lemma ReplayRunsServedCommand(codec: Codec, req: Request, now: nat)
    requires Faithful(codec)
    ensures ReplayCommand(codec, LoggedAs(codec, req), now) == Some(ServedBy(req))
  {
  }

  // ----- The server -----

  /** One serial server: the log, the store, the request that is logged but not yet applied, and
      whether a restart has failed. */
  datatype Server = Server(log: seq<WalEntry>, store: Store, pending: Option<Request>, down: bool)

  datatype ServerStep =
    | Log(req: Request, timestamp: nat)        // the request is appended to the log
    | LogFails(req: Request)                   // the append fails: the handler answers with an error
    | ApplyPending                             // the logged request changes the store
    | Restart(now: nat)                        // a crash, and a start that replays the log

  ghost function Next(codec: Codec, v: Server, step: ServerStep): Server {
    if v.down then v
    else match step
         case Log(req, timestamp) =>
           if v.pending.Some? then v
           else v.(log := v.log + [WalEntry(timestamp, LoggedAs(codec, req))], pending := Some(req))
         case LogFails(_) => v
         case ApplyPending =>
           if v.pending.None? then v else v.(store := Apply(v.store, ServedBy(v.pending.value)), pending := None)
         case Restart(now) =>
           match Replay(codec, NewStore(v.store.config), v.log, now)
           case None => v.(down := true)
           case Some(t) => v.(store := t, pending := None)
  }

  ghost function RunServer(codec: Codec, v: Server, steps: seq<ServerStep>): Server {
    if steps == [] then v else Next(codec, RunServer(codec, v, steps[..|steps| - 1]), steps[|steps| - 1])
  }

  ghost function EmptyServer(config: Config): Server { Server([], NewStore(config), None, false) }

  /** The store once the pending request, if there is one, has been applied. */
  ghost function Settled(v: Server): Store {
    if v.pending.Some? then Apply(v.store, ServedBy(v.pending.value)) else v.store
  }

  /** Every SET in the log has a key and a value that the store accepts. */
  ghost predicate SetsAccepted(codec: Codec, config: Config, log: seq<WalEntry>) {
    forall i :: 0 <= i < |log| ==> EntryAccepted(codec, config, log[i].op)
  }

  ghost predicate EntryAccepted(codec: Codec, config: Config, op: WalOp) {
    op.Set? && codec.decode(op.value).Some? ==> Accepted(config, op.key, codec.decode(op.value).value)
  }

  ghost predicate Quiet(s: Store, config: Config) { s.config == config && s.queue.None? }

  lemma SetKeepsQuiet(s: Store, key: string, v: Value)
    requires s.queue.None?
    ensures Quiet(StoreModel.Set(s, key, v).store, s.config)
    ensures StoreModel.Set(s, key, v).reply.Err? <==> !Accepted(s.config, key, v)
  {
    EvictKeepsSettings(Charged(s, key, Entry(v, None)));
  }

  lemma AppendKeepsQuiet(s: Store, key: string, text: string)
    requires s.queue.None?
    ensures Quiet(StoreModel.Append(s, key, text).store, s.config)
  {
    if key !in s.entries { SetKeepsQuiet(s, key, Str(text)); }
  }

  lemma ListKeepsQuiet(s: Store, key: string, values: seq<string>, atHead: bool)
    requires s.queue.None?
    ensures Quiet(Push(s, key, values, atHead).store, s.config) && Quiet(Pop(s, key, atHead).store, s.config)
  {
  }

  lemma HashKeepsQuiet(s: Store, key: string, fields: map<string, string>, names: seq<string>,
                       field: string, amount: int)
    requires s.queue.None?
    ensures Quiet(StoreModel.HSet(s, key, fields).store, s.config) &&
            Quiet(StoreModel.HDel(s, key, names).store, s.config)
    ensures Quiet(StoreModel.HIncrBy(s, key, field, amount).store, s.config)
  {
  }

  /** A request changes neither the configuration nor the transaction queue, and replay of its entry
      fails exactly when it is a SET that the store refuses. */
  lemma RequestReplays(codec: Codec, s: Store, req: Request, now: nat)
    requires Faithful(codec) && s.queue.None?
    ensures Quiet(Apply(s, ServedBy(req)), s.config)
    ensures ReplayEntry(codec, s, LoggedAs(codec, req), now)
         == if EntryAccepted(codec, s.config, LoggedAs(codec, req)) then Some(Apply(s, ServedBy(req))) else None
  {
    hide StoreModel.Set, StoreModel.Append, Push, Pop, StoreModel.HSet, StoreModel.HDel, StoreModel.HIncrBy;
    hide SetWithTtl, StoreModel.GetSet, MSet, Exec, StoreModel.PfAdd, StoreModel.PfMerge, PfReserve, CleanupExpired;
    hide StoreModel.Expire, StoreModel.Persist, Multi, Discard, QueueOperation;
    ReplayRunsServedCommand(codec, req, now);
    match req
    case ReqSet(key, text) => SetKeepsQuiet(s, key, Str(text));
    case ReqAppend(key, text) => AppendKeepsQuiet(s, key, text);
    case ReqLPush(key, values) => ListKeepsQuiet(s, key, values, true);
    case ReqRPush(key, values) => ListKeepsQuiet(s, key, values, false);
    case ReqLPop(key) => ListKeepsQuiet(s, key, [], true);
    case ReqRPop(key) => ListKeepsQuiet(s, key, [], false);
    case ReqHSet(key, fields) => HashKeepsQuiet(s, key, fields, [], "", 0);
    case ReqHDel(key, names) => HashKeepsQuiet(s, key, map[], names, "", 0);
    case ReqHIncrBy(key, field, amount) => HashKeepsQuiet(s, key, map[], [], field, amount);
    case _ =>
  }

  /** The invariant of every run: replay of the log either fails, on a refused SET, or gives the store
      that the pending request will have left, whenever it is done; and no restart fails before that. */
  ghost predicate Recoverable(codec: Codec, config: Config, v: Server) {
    Quiet(v.store, config) && (v.down ==> !SetsAccepted(codec, config, v.log)) &&
    forall now: nat :: ReplaysAs(codec, config, v, now)
  }

  ghost predicate ReplaysAs(codec: Codec, config: Config, v: Server, now: nat) {
    Replay(codec, NewStore(config), v.log, now) ==
      if SetsAccepted(codec, config, v.log) then Some(Settled(v)) else None
  }

  lemma SetsAcceptedAppend(codec: Codec, config: Config, log: seq<WalEntry>, e: WalEntry)
    ensures SetsAccepted(codec, config, log + [e]) <==>
            SetsAccepted(codec, config, log) && EntryAccepted(codec, config, e.op)
  {
    var all := log + [e];
    if SetsAccepted(codec, config, all) {
      forall i | 0 <= i < |log| ensures EntryAccepted(codec, config, log[i].op) { assert log[i] == all[i]; }
      assert all[|log|] == e;
    }
  }

  lemma StepKeepsRecoverable(codec: Codec, config: Config, v: Server, step: ServerStep)
    requires Faithful(codec) && Recoverable(codec, config, v)
    ensures Recoverable(codec, config, Next(codec, v, step))
  {
    hide Apply, ReplayEntry, SetsAccepted, EntryAccepted;
    var w := Next(codec, v, step);
    if v.pending.Some? { RequestReplays(codec, v.store, v.pending.value, 0); }
    if step.Log? && v.pending.None? && !v.down {
      SetsAcceptedAppend(codec, config, v.log, WalEntry(step.timestamp, LoggedAs(codec, step.req)));
      forall now: nat ensures ReplaysAs(codec, config, w, now) {
        assert ReplaysAs(codec, config, v, now);
        RequestReplays(codec, v.store, step.req, now);
        assert w.log[..|v.log|] == v.log;
      }
    } else {
      if step.Restart? { assert ReplaysAs(codec, config, v, step.now); }
      forall now: nat ensures ReplaysAs(codec, config, w, now) { assert ReplaysAs(codec, config, v, now); }
    }
  }

  /** Any serial run from an empty store, with crashes and restarts at any point, also between logging
      and applying: a further replay succeeds exactly when every logged SET is acceptable, and then gives
      the store that the pending request would have left; only then can a restart have failed. */
  lemma {:induction false} CrashRecovery(codec: Codec, config: Config, steps: seq<ServerStep>, now: nat)
    requires Faithful(codec)
    ensures var v := RunServer(codec, EmptyServer(config), steps);
            && (Replay(codec, NewStore(config), v.log, now) ==
                  if SetsAccepted(codec, config, v.log) then Some(Settled(v)) else None)
            && (v.down ==> !SetsAccepted(codec, config, v.log))
    ensures Recoverable(codec, config, RunServer(codec, EmptyServer(config), steps))
  {
    hide Apply, Next;
    if steps != [] {
      var front := steps[..|steps| - 1];
      CrashRecovery(codec, config, front, now);
      StepKeepsRecoverable(codec, config, RunServer(codec, EmptyServer(config), front), steps[|steps| - 1]);
    }
    assert ReplaysAs(codec, config, RunServer(codec, EmptyServer(config), steps), now);
  }

  /** The two phases of a handler as code: nothing is applied that was not logged first. */
  method Handle(codec: Codec, log: seq<WalEntry>, store: KvStore, req: Request, appendWorks: bool, now: nat)
    returns (newLog: seq<WalEntry>, refused: bool)
    modifies store`entries, store`stats, store`lruOrder, store`queue, store`events, store`config
    ensures var steps := if appendWorks then [Log(req, now), ApplyPending] else [LogFails(req)];
            Server(newLog, store.Model(), None, false) ==
            RunServer(codec, Server(log, old(store.Model()), None, false), steps)
    ensures refused <==> appendWorks && Refused(old(store.Model()), ServedBy(req))
  {
    hide Apply, Refused;
    ghost var start := Server(log, store.Model(), None, false);
    if !appendWorks {
      RunOneStep(codec, start, LogFails(req));
      return log, false;
    }
    newLog := log + [WalEntry(now, LoggedAs(codec, req))];
    refused := Execute(store, ServedBy(req), now);
    ghost var steps := [Log(req, now), ApplyPending];
    assert steps[..1] == [Log(req, now)];
    RunOneStep(codec, start, Log(req, now));
  }

  lemma RunOneStep(codec: Codec, v: Server, step: ServerStep)
    ensures RunServer(codec, v, [step]) == Next(codec, v, step)
  {
    assert [step][..0] == [];
  }

  // ----- Where durability fails -----

  /** What the handler of a SET with or without TTL does at time `at`. */
  function SetCommand(key: string, text: string, ttl: Option<nat>, at: nat): Command {
    match ttl
    case None => CSet(key, Str(text))
    case Some(seconds) => CSetWithTtl(key, Str(text), seconds, at)
  }

  function ExpiryOf(ttl: Option<nat>, at: nat): Option<nat> {
    match ttl
    case None => None
    case Some(seconds) => ExpiryAfter(at, seconds)
  }

  lemma SetCommandMeaning(s: Store, key: string, text: string, ttl: Option<nat>, at: nat)
    ensures Apply(s, SetCommand(key, text, ttl, at)) == SetEntry(s, key, Str(text), ExpiryOf(ttl, at)).store
  {
    hide SetEntry;
  }

  /** GETSET and MSET, and SET in a pipeline, log their raw text. When that is not the JSON of a value,
      replay passes the entry over, although the handler changed the store. */
  lemma RawWritesAreLost(codec: Codec, s: Store, key: string, text: string, ttl: Option<nat>, at: nat, now: nat)
    requires s.queue.None? && Accepted(s.config, key, Str(text)) && codec.decode(text).None?
    ensures ReplayEntry(codec, s, Wal.GetSet(key, text), now) == Some(s) && Apply(s, CGetSet(key, Str(text))) != s
    ensures ReplayEntry(codec, s, Wal.Set(key, text, ttl), now) == Some(s)
    ensures Apply(s, SetCommand(key, text, ttl, at)) != s
    ensures ReplayEntry(codec, s, Wal.Mset([(key, text)]), now) == Some(s) && Apply(s, CMSet([(key, text)])) != s
  {
    hide Accepted, Refused, SetEntry;
    SetCommandMeaning(s, key, text, ttl, at);
    AcceptedSetCounts(s, key, Str(text), ExpiryOf(ttl, at));
    AcceptedSetCounts(s, key, Str(text), None);
    assert [(key, text)][1..] == [];
    assert MSet(s, [(key, text)]).store == StoreModel.Set(s, key, Str(text)).store;
  }

  lemma AcceptedSetCounts(s: Store, key: string, v: Value, expiresAt: Option<nat>)
    requires s.queue.None? && Accepted(s.config, key, v)
    ensures SetEntry(s, key, v, expiresAt).store.stats.totalWrites == s.stats.totalWrites + 1
    ensures SetEntry(s, key, v, expiresAt).reply.Ok?
  {
    EvictKeepsWrites(Charged(s, key, Entry(v, expiresAt)));
  }

  lemma PlainSetEntry(s: Store, key: string, v: Value, expiresAt: Option<nat>)
    requires s.queue.None? && RoomForBytes(s, SizeOf(v))
    ensures var t := SetEntry(s, key, v, expiresAt);
            && (t.reply.Ok? <==> Accepted(s.config, key, v))
            && t.store == if Accepted(s.config, key, v) then Charged(s, key, Entry(v, expiresAt)) else s
  {
  }

  lemma PlainSet(s: Store, key: string, v: Value)
    requires s.queue.None? && RoomForBytes(s, SizeOf(v))
    ensures var t := StoreModel.Set(s, key, v).store;
            if Accepted(s.config, key, v) then t == Charged(s, key, Entry(v, None)) else t == s
  {
    PlainSetEntry(s, key, v, None);
  }

  lemma ChargesAgreeExactlyWhen(s: Store, key: string, a: Entry, b: Entry)
    ensures Charged(s, key, a) == Charged(s, key, b) <==> a == b
    ensures Charged(s, key, a) != s
  {
    assert Charged(s, key, a).entries[key] == a && Charged(s, key, b).entries[key] == b;
  }

  /** Replay of a logged SET, refused ones failing and undecodable ones passed over, against the handler,
      when both have room. */
  lemma SetReplaysExactlyWhen(codec: Codec, s: Store, key: string, text: string, logged: string, ttl: Option<nat>,
                              at: nat, now: nat)
    requires s.queue.None? && RoomForBytes(s, SizeOf(Str(text)))
    requires codec.decode(logged).Some? ==> RoomForBytes(s, SizeOf(codec.decode(logged).value))
    ensures ReplayEntry(codec, s, Wal.Set(key, logged, ttl), now) == Some(Apply(s, SetCommand(key, text, ttl, at))) <==>
            if Accepted(s.config, key, Str(text))
            then codec.decode(logged) == Some(Str(text)) && ExpiryOf(ttl, now) == ExpiryOf(ttl, at)
            else codec.decode(logged).None?
  {
    hide SetEntry, Charged, Accepted, SizeOf;
    SetCommandMeaning(s, key, text, ttl, at);
    PlainSetEntry(s, key, Str(text), ExpiryOf(ttl, at));
    ChargesAgreeExactlyWhen(s, key, Entry(Str(text), ExpiryOf(ttl, at)), Entry(Str(text), ExpiryOf(ttl, at)));
    if codec.decode(logged).Some? {
      var v := codec.decode(logged).value;
      PlainSetEntry(s, key, v, ExpiryOf(ttl, now));
      ChargesAgreeExactlyWhen(s, key, Entry(v, ExpiryOf(ttl, now)), Entry(Str(text), ExpiryOf(ttl, at)));
      ReplayedSet(codec, s, key, logged, ttl, now);
    }
  }

  lemma ReplayedSet(codec: Codec, s: Store, key: string, logged: string, ttl: Option<nat>, now: nat)
    requires codec.decode(logged).Some?
    ensures var t := SetEntry(s, key, codec.decode(logged).value, ExpiryOf(ttl, now));
            ReplayEntry(codec, s, Wal.Set(key, logged, ttl), now) == if t.reply.Err? then None else Some(t.store)
  {
    hide SetEntry;
  }

  /** With room for the text and for what it decodes to: replay of a raw GETSET agrees with the handler
      exactly when the text decodes to itself or both refuse the write; replay of a raw SET, which must
      not be refused, exactly when the write is accepted, the text decodes to itself and a TTL counted from
      the replay ends when the handler's did, or the write is refused and the text does not decode. */
  lemma RawWriteReplaysExactlyWhen(codec: Codec, s: Store, key: string, text: string, ttl: Option<nat>,
                                   at: nat, now: nat)
    requires s.queue.None? && RoomForBytes(s, SizeOf(Str(text)))
    requires codec.decode(text).Some? ==> RoomForBytes(s, SizeOf(codec.decode(text).value))
    ensures ReplayEntry(codec, s, Wal.GetSet(key, text), now) == Some(Apply(s, CGetSet(key, Str(text)))) <==>
            codec.decode(text) == Some(Str(text)) ||
            (!Accepted(s.config, key, Str(text)) &&
             (codec.decode(text).Some? ==> !Accepted(s.config, key, codec.decode(text).value)))
    ensures ReplayEntry(codec, s, Wal.Set(key, text, ttl), now) == Some(Apply(s, SetCommand(key, text, ttl, at))) <==>
            if Accepted(s.config, key, Str(text))
            then codec.decode(text) == Some(Str(text)) && ExpiryOf(ttl, now) == ExpiryOf(ttl, at)
            else codec.decode(text).None?
  {
    hide StoreModel.Set, SetEntry, Accepted, Charged, SizeOf;
    SetReplaysExactlyWhen(codec, s, key, text, text, ttl, at, now);
    PlainSet(s, key, Str(text));
    ChargesAgreeExactlyWhen(s, key, Entry(Str(text), None), Entry(Str(text), None));
    if codec.decode(text).Some? {
      PlainSet(s, key, codec.decode(text).value);
      ChargesAgreeExactlyWhen(s, key, Entry(codec.decode(text).value, None), Entry(Str(text), None));
    }
  }

  /** The SET handler logs the TTL and not the time at which it ends: replay agrees with it exactly when
      the TTL, counted from the replay, ends at the same time, so at the same second or never. */
  lemma TtlSetReplaysExactlyWhen(codec: Codec, s: Store, key: string, text: string, ttl: nat, at: nat, now: nat)
    requires Faithful(codec) && s.queue.None?
    requires RoomForBytes(s, SizeOf(Str(text))) && Accepted(s.config, key, Str(text))
    ensures ReplayEntry(codec, s, Wal.Set(key, codec.encode(Str(text)), Some(ttl)), now)
              == Some(Apply(s, SetCommand(key, text, Some(ttl), at))) <==>
            now == at || (now + ttl > U64_MAX && at + ttl > U64_MAX)
  {
    hide SizeOf, Accepted, Apply, ReplayEntry;
    SetReplaysExactlyWhen(codec, s, key, text, codec.encode(Str(text)), Some(ttl), at, now);
  }

  // ----- Raw MSET -----

  ghost predicate AllSets(ops: seq<TransactionOp>) {
    forall i :: 0 <= i < |ops| ==> ops[i].TxSet?
  }

  function KeysOf(ops: seq<TransactionOp>): seq<string> {
    if ops == [] then [] else KeysOf(ops[..|ops| - 1]) + [ops[|ops| - 1].key]
  }

  function TouchedAll(order: seq<string>, keys: seq<string>): seq<string> {
    if keys == [] then order else Touched(TouchedAll(order, keys[..|keys| - 1]), keys[|keys| - 1])
  }

  /** The store after sets that drop nothing, up to the entries. */
  ghost predicate SetsDone(s: Store, t: Store, ops: seq<TransactionOp>) {
    && t.config == s.config && t.queue == s.queue && t.lruOrder == TouchedAll(s.lruOrder, KeysOf(ops))
    && t.stats == s.stats.(totalWrites := s.stats.totalWrites + |ops|,
                           memoryBytes := s.stats.memoryBytes + BytesOf(ops),
                           totalKeys := if ops == [] then s.stats.totalKeys else |t.entries|)
  }

  lemma {:induction false} SetsWithRoom(s: Store, ops: seq<TransactionOp>)
    requires AllSets(ops) && s.queue.None? && RoomForBytes(s, BytesOf(ops))
    ensures SetsAndDeletes(ops) && SetsDone(s, DirectOps(s, ops), ops)
  {
    if ops != [] {
      var front, op := ops[..|ops| - 1], ops[|ops| - 1];
      BytesOfFront(ops);
      OneOp(s, op);
      SetsWithRoom(s, front);
      SetHasRoom(DirectOps(s, front), op);
    }
  }

  lemma SetHasRoom(t: Store, op: TransactionOp)
    requires op.TxSet? && RoomForBytes(t, SizeOf(op.value))
    ensures Directly(t, op) == Charged(t, op.key, Entry(op.value, op.expiresAt))
  {
  }

  /** Two lists of sets do the same: as many, as many bytes, and the same last write for every key. */
  ghost predicate SameEffect(a: seq<TransactionOp>, b: seq<TransactionOp>) {
    |a| == |b| && BytesOf(a) == BytesOf(b) && forall k :: LastEffect(a, k) == LastEffect(b, k)
  }

  lemma {:induction false} MSetOpsFollowPairs(config: Config, pairs: seq<(string, string)>)
    ensures var ops := MSetOps(config, pairs);
            AllSets(ops) && |ops| <= |pairs| && forall i :: 0 <= i < |ops| ==> ops[i].key == pairs[i].0
  {
    if pairs != [] { MSetOpsFollowPairs(config, pairs[1..]); }
  }

  lemma {:induction false} DecodingKeepsKeys(codec: Codec, pairs: seq<(string, string)>)
    ensures var d := DecodePairs(codec, pairs);
            d.Some? ==> |d.value| == |pairs| && forall i :: 0 <= i < |pairs| ==> d.value[i].0 == pairs[i].0
  {
    if pairs != [] { DecodingKeepsKeys(codec, pairs[1..]); }
  }

  lemma {:induction false} SameKeys(a: seq<TransactionOp>, b: seq<TransactionOp>)
    requires |a| == |b| && forall i :: 0 <= i < |a| ==> a[i].key == b[i].key
    ensures KeysOf(a) == KeysOf(b)
  {
    if a != [] { SameKeys(a[..|a| - 1], b[..|b| - 1]); }
  }

  /** Lists of sets of the same keys write the same keys. */
  lemma {:induction false} SameKeysSameWrites(a: seq<TransactionOp>, b: seq<TransactionOp>, k: string)
    requires AllSets(a) && AllSets(b) && |a| == |b| && forall i :: 0 <= i < |a| ==> a[i].key == b[i].key
    ensures LastEffect(a, k).Wrote? == LastEffect(b, k).Wrote? &&
            !LastEffect(a, k).Deleted? && !LastEffect(b, k).Deleted?
  {
    if a != [] { SameKeysSameWrites(a[..|a| - 1], b[..|b| - 1], k); }
  }

  lemma SetsLeaveLastWrites(s: Store, ops: seq<TransactionOp>)
    requires AllSets(ops) && s.queue.None? && RoomForBytes(s, BytesOf(ops))
    ensures SetsAndDeletes(ops) && SetsDone(s, DirectOps(s, ops), ops)
    ensures forall k :: EntryAt(DirectOps(s, ops), k) == AfterEffect(EntryAt(s, k), LastEffect(ops, k))
  {
    hide SetsDone, DirectOps, ExecOps, LastEffect;
    SetsWithRoom(s, ops);
    RoomExactlyWhen(s, ops);
    assert NothingIsDropped(s, ops) ==> forall i, k :: 0 <= i < |ops| ==> !DropsAt(s, ops, i, k);
    ViewsAgreeExactlyWhen(s, ops);
    forall k ensures EntryAt(DirectOps(s, ops), k) == AfterEffect(EntryAt(s, k), LastEffect(ops, k)) {
      ExecOpsLastEffect(s, ops, k);
    }
  }

  /** Sets of the same keys, with room, leave the same store exactly when they do the same. */
  lemma SetsAgreeExactlyWhen(s: Store, a: seq<TransactionOp>, b: seq<TransactionOp>)
    requires s.queue.None? && AllSets(a) && AllSets(b)
    requires RoomForBytes(s, BytesOf(a)) && RoomForBytes(s, BytesOf(b))
    requires forall i :: 0 <= i < |a| && i < |b| ==> a[i].key == b[i].key
    ensures SetsAndDeletes(a) && SetsAndDeletes(b)
    ensures DirectOps(s, a) == DirectOps(s, b) <==> SameEffect(a, b)
  {
    hide DirectOps, LastEffect, BytesOf, KeysOf, TouchedAll;
    SetsLeaveLastWrites(s, a);
    SetsLeaveLastWrites(s, b);
    var x, y := DirectOps(s, a), DirectOps(s, b);
    if |a| == |b| {
      SameKeys(a, b);
      forall k ensures EntryAt(x, k) == EntryAt(y, k) <==> LastEffect(a, k) == LastEffect(b, k) {
        SameKeysSameWrites(a, b, k);
      }
      EntriesByKey(x, y);
    }
  }

  ghost function DecodedOps(codec: Codec, config: Config, pairs: seq<(string, string)>): seq<TransactionOp> {
    match DecodePairs(codec, pairs)
    case None => []
    case Some(decoded) => MSetOps(config, decoded)
  }

  /** With room for both, replay of a raw MSET agrees with the handler exactly when the decoded pairs,
      none if one of them does not decode, do the same as the raw ones. */
  lemma RawMsetReplaysExactlyWhen(codec: Codec, s: Store, pairs: seq<(string, string)>, now: nat)
    requires s.queue.None? && RoomForBytes(s, BytesOf(MSetOps(s.config, pairs)))
    requires RoomForBytes(s, BytesOf(DecodedOps(codec, s.config, pairs)))
    ensures ReplayEntry(codec, s, Wal.Mset(pairs), now) == Some(Apply(s, CMSet(pairs))) <==>
            SameEffect(MSetOps(s.config, pairs), DecodedOps(codec, s.config, pairs))
  {
    hide DirectOps, LastEffect, BytesOf, MSetOps, MSet;
    var a, b := MSetOps(s.config, pairs), DecodedOps(codec, s.config, pairs);
    MSetOpsFollowPairs(s.config, pairs);
    MSetIsDirect(s, pairs);
    DecodingKeepsKeys(codec, pairs);
    match DecodePairs(codec, pairs)
    case None =>
      NoDirectOps(s);
      SetsAgreeExactlyWhen(s, a, b);
    case Some(decoded) =>
      MSetOpsFollowPairs(s.config, decoded);
      MSetIsDirect(s, decoded);
      SetsAgreeExactlyWhen(s, a, b);
  }

  lemma NoDirectOps(s: Store)
    ensures DirectOps(s, []) == s
  {
  }
}
