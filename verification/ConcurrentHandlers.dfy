/** Handlers that run at once: each logs its request outside the store's lock and applies it later, so
    several requests can be logged and not yet applied, and they may be applied in any order. */
module ConcurrentHandlers {
  import opened Basics
  import opened Decimal
  import opened StoreModel
  import opened Transactions
  import opened Wal
  import opened Recovery

  // ----- What one request can do -----

  /** The most that serving a request can charge. */
  ghost function Charge(req: Request): nat {
    match req
    case ReqSet(_, text) => SizeOf(Str(text))
    case ReqAppend(_, text) => SizeOf(Str(text))
    case ReqLPush(_, values) => SizeOf(List(Reversed(values)))
    case ReqRPush(_, values) => SizeOf(List(values))
    case ReqHSet(_, fields) => SizeOf(Hash(fields))
    case ReqHIncrBy(_, field, amount) => SizeOf(Hash(map[field := ShowInt(amount)]))
    case _ => 0
  }

  /** No transaction, and room for `bytes` more. */
  ghost predicate Calm(s: Store, bytes: nat) { s.queue.None? && RoomForBytes(s, bytes) }

  /** From `s` to `t`: one key may change, and at most `bytes` are charged. */
  ghost predicate ServesKey(s: Store, t: Store, key: string, bytes: nat) {
    t.config == s.config && t.queue == s.queue && t.entries - {key} == s.entries - {key} &&
    t.stats.memoryBytes <= s.stats.memoryBytes + bytes
  }

  lemma SetServes(s: Store, key: string, text: string)
    requires Calm(s, SizeOf(Str(text)))
    ensures ServesKey(s, StoreModel.Set(s, key, Str(text)).store, key, SizeOf(Str(text)))
    ensures EntryAt(StoreModel.Set(s, key, Str(text)).store, key)
         == if Accepted(s.config, key, Str(text)) then Some(Entry(Str(text), None)) else EntryAt(s, key)
  {
    PlainSet(s, key, Str(text));
  }

  lemma AppendServes(s: Store, key: string, text: string)
    requires Calm(s, SizeOf(Str(text)))
    ensures ServesKey(s, StoreModel.Append(s, key, text).store, key, SizeOf(Str(text)))
  {
    if key !in s.entries { SetServes(s, key, text); }
  }

  lemma PushServes(s: Store, key: string, values: seq<string>, atHead: bool)
    ensures ServesKey(s, Push(s, key, values, atHead).store, key,
                      SizeOf(List(if atHead then Reversed(values) else values)))
  {
  }

  lemma PopServes(s: Store, key: string, atHead: bool)
    ensures ServesKey(s, Pop(s, key, atHead).store, key, 0)
  {
  }

  lemma HSetServes(s: Store, key: string, fields: map<string, string>)
    ensures ServesKey(s, StoreModel.HSet(s, key, fields).store, key, SizeOf(Hash(fields)))
  {
  }

  lemma HDelServes(s: Store, key: string, names: seq<string>)
    ensures ServesKey(s, StoreModel.HDel(s, key, names).store, key, 0)
  {
  }

  lemma HIncrByServes(s: Store, key: string, field: string, amount: int)
    ensures ServesKey(s, StoreModel.HIncrBy(s, key, field, amount).store, key,
                      SizeOf(Hash(map[field := ShowInt(amount)])))
  {
  }

  lemma CounterServes(s: Store, key: string, amount: int)
    ensures ServesKey(s, StoreModel.IncrBy(s, key, amount).store, key, 0)
  {
  }

  lemma DeleteServes(s: Store, key: string)
    requires s.queue.None?
    ensures ServesKey(s, StoreModel.Delete(s, key).store, key, 0)
  {
  }

  /** Serving a request changes at most the entry of its key and charges at most its charge. */
  lemma RequestServesKey(s: Store, req: Request)
    requires Calm(s, Charge(req))
    ensures ServesKey(s, Apply(s, ServedBy(req)), req.key, Charge(req))
  {
    hide ServesKey, SetEntry, StoreModel.Set, StoreModel.Delete, StoreModel.IncrBy, StoreModel.Append, Push, Pop;
    hide StoreModel.HSet, StoreModel.HDel, StoreModel.HIncrBy, SizeOf;
    match req
    case ReqSet(key, text) => SetServes(s, key, text);
    case ReqDelete(key) => DeleteServes(s, key);
    case ReqIncr(key) => CounterServes(s, key, 1);
    case ReqDecr(key) => CounterServes(s, key, -1);
    case ReqIncrBy(key, amount) => CounterServes(s, key, amount);
    case ReqAppend(key, text) => AppendServes(s, key, text);
    case ReqLPush(key, values) => PushServes(s, key, values, true);
    case ReqRPush(key, values) => PushServes(s, key, values, false);
    case ReqLPop(key) => PopServes(s, key, true);
    case ReqRPop(key) => PopServes(s, key, false);
    case ReqHSet(key, fields) => HSetServes(s, key, fields);
    case ReqHDel(key, names) => HDelServes(s, key, names);
    case ReqHIncrBy(key, field, amount) => HIncrByServes(s, key, field, amount);
  }

  // ----- What one request depends on -----

  /** Two stores with the same settings that agree on one key. */
  ghost predicate AgreeOn(s: Store, t: Store, key: string) {
    s.config == t.config && s.queue.None? && t.queue.None? && EntryAt(s, key) == EntryAt(t, key)
  }

  lemma SetDepends(s: Store, t: Store, key: string, text: string)
    requires AgreeOn(s, t, key) && Calm(s, SizeOf(Str(text))) && Calm(t, SizeOf(Str(text)))
    ensures EntryAt(StoreModel.Set(s, key, Str(text)).store, key)
         == EntryAt(StoreModel.Set(t, key, Str(text)).store, key)
  {
    SetServes(s, key, text);
    SetServes(t, key, text);
  }

  lemma AppendDepends(s: Store, t: Store, key: string, text: string)
    requires AgreeOn(s, t, key) && Calm(s, SizeOf(Str(text))) && Calm(t, SizeOf(Str(text)))
    ensures EntryAt(StoreModel.Append(s, key, text).store, key) == EntryAt(StoreModel.Append(t, key, text).store, key)
  {
    if key !in s.entries { SetDepends(s, t, key, text); }
  }

  lemma ListDepends(s: Store, t: Store, key: string, values: seq<string>, atHead: bool)
    requires AgreeOn(s, t, key)
    ensures EntryAt(Push(s, key, values, atHead).store, key) == EntryAt(Push(t, key, values, atHead).store, key)
    ensures EntryAt(Pop(s, key, atHead).store, key) == EntryAt(Pop(t, key, atHead).store, key)
  {
  }

  lemma HSetDepends(s: Store, t: Store, key: string, fields: map<string, string>)
    requires AgreeOn(s, t, key)
    ensures EntryAt(StoreModel.HSet(s, key, fields).store, key) == EntryAt(StoreModel.HSet(t, key, fields).store, key)
  {
    hide SizeOf;
  }

  lemma HDelDepends(s: Store, t: Store, key: string, names: seq<string>)
    requires AgreeOn(s, t, key)
    ensures EntryAt(StoreModel.HDel(s, key, names).store, key) == EntryAt(StoreModel.HDel(t, key, names).store, key)
  {
    hide SizeOf, Elements;
  }

  lemma HIncrByDepends(s: Store, t: Store, key: string, field: string, amount: int)
    requires AgreeOn(s, t, key)
    ensures EntryAt(StoreModel.HIncrBy(s, key, field, amount).store, key)
         == EntryAt(StoreModel.HIncrBy(t, key, field, amount).store, key)
  {
    hide SizeOf, FieldNumber, ShowInt;
  }

  lemma CounterDepends(s: Store, t: Store, key: string, amount: int)
    requires AgreeOn(s, t, key)
    ensures EntryAt(StoreModel.IncrBy(s, key, amount).store, key)
         == EntryAt(StoreModel.IncrBy(t, key, amount).store, key)
    ensures EntryAt(StoreModel.Delete(s, key).store, key) == EntryAt(StoreModel.Delete(t, key).store, key)
  {
  }

  /** What a request leaves at its key depends only on what was there. */
  lemma RequestDependsOnKey(s: Store, t: Store, req: Request)
    requires AgreeOn(s, t, req.key) && Calm(s, Charge(req)) && Calm(t, Charge(req))
    ensures EntryAt(Apply(s, ServedBy(req)), req.key) == EntryAt(Apply(t, ServedBy(req)), req.key)
  {
    hide EntryAt, SetEntry, StoreModel.Set, StoreModel.Delete, StoreModel.IncrBy, StoreModel.Append, Push, Pop;
    hide StoreModel.HSet, StoreModel.HDel, StoreModel.HIncrBy, SizeOf;
    match req
    case ReqSet(key, text) => SetDepends(s, t, key, text);
    case ReqDelete(key) => CounterDepends(s, t, key, 0);
    case ReqIncr(key) => CounterDepends(s, t, key, 1);
    case ReqDecr(key) => CounterDepends(s, t, key, -1);
    case ReqIncrBy(key, amount) => CounterDepends(s, t, key, amount);
    case ReqAppend(key, text) => AppendDepends(s, t, key, text);
    case ReqLPush(key, values) => ListDepends(s, t, key, values, true);
    case ReqRPush(key, values) => ListDepends(s, t, key, values, false);
    case ReqLPop(key) => ListDepends(s, t, key, [], true);
    case ReqRPop(key) => ListDepends(s, t, key, [], false);
    case ReqHSet(key, fields) => HSetDepends(s, t, key, fields);
    case ReqHDel(key, names) => HDelDepends(s, t, key, names);
    case ReqHIncrBy(key, field, amount) => HIncrByDepends(s, t, key, field, amount);
  }

  // ----- Rows of requests -----

  ghost function ServeAll(s: Store, reqs: seq<Request>): Store
    decreases |reqs|
  {
    if reqs == [] then s else ServeAll(Apply(s, ServedBy(reqs[0])), reqs[1..])
  }

  ghost function ChargeAll(reqs: seq<Request>): nat {
    if reqs == [] then 0 else Charge(reqs[0]) + ChargeAll(reqs[1..])
  }

  lemma {:induction false} ChargeAllAppend(a: seq<Request>, b: seq<Request>)
    ensures ChargeAll(a + b) == ChargeAll(a) + ChargeAll(b)
  {
    if a == [] {
      assert a + b == b;
    } else {
      assert (a + b)[1..] == a[1..] + b;
      ChargeAllAppend(a[1..], b);
    }
  }

  lemma {:induction false} ServeAllAppend(s: Store, a: seq<Request>, b: seq<Request>)
    ensures ServeAll(s, a + b) == ServeAll(ServeAll(s, a), b)
    decreases |a|
  {
    hide Apply;
    if a == [] {
      assert a + b == b;
    } else {
      assert (a + b)[1..] == a[1..] + b;
      ServeAllAppend(Apply(s, ServedBy(a[0])), a[1..], b);
    }
  }

  /** Serving keeps the calm that is left over. */
  lemma ServeKeepsCalm(s: Store, req: Request, more: nat)
    requires Calm(s, Charge(req) + more)
    ensures Calm(Apply(s, ServedBy(req)), more) && Apply(s, ServedBy(req)).config == s.config
  {
    hide Apply;
    RequestServesKey(s, req);
  }

  ghost predicate Alike(s: Store, t: Store) { s.entries == t.entries && s.config == t.config }

  lemma ServeKeepsAlike(s: Store, t: Store, req: Request)
    requires Alike(s, t) && Calm(s, Charge(req)) && Calm(t, Charge(req))
    ensures Alike(Apply(s, ServedBy(req)), Apply(t, ServedBy(req)))
  {
    hide Apply;
    RequestServesKey(s, req);
    RequestServesKey(t, req);
    RequestDependsOnKey(s, t, req);
    SameEntries(Apply(s, ServedBy(req)), Apply(t, ServedBy(req)), req.key);
  }

  lemma SameEntries(s: Store, t: Store, key: string)
    requires s.entries - {key} == t.entries - {key} && EntryAt(s, key) == EntryAt(t, key)
    ensures s.entries == t.entries
  {
    forall k ensures k in s.entries <==> k in t.entries {
      if k != key { assert k in s.entries - {key} <==> k in t.entries - {key}; }
    }
    forall k | k in s.entries ensures s.entries[k] == t.entries[k] {
      if k != key { assert (s.entries - {key})[k] == (t.entries - {key})[k]; }
    }
  }

  lemma {:induction false} ServeAllKeepsAlike(s: Store, t: Store, reqs: seq<Request>, more: nat)
    requires Alike(s, t) && Calm(s, ChargeAll(reqs) + more) && Calm(t, ChargeAll(reqs) + more)
    ensures Alike(ServeAll(s, reqs), ServeAll(t, reqs))
    ensures Calm(ServeAll(s, reqs), more) && ServeAll(s, reqs).config == s.config
    decreases |reqs|
  {
    hide Apply;
    if reqs != [] {
      var rest := ChargeAll(reqs[1..]) + more;
      ServeKeepsCalm(s, reqs[0], rest);
      ServeKeepsCalm(t, reqs[0], rest);
      ServeKeepsAlike(s, t, reqs[0]);
      ServeAllKeepsAlike(Apply(s, ServedBy(reqs[0])), Apply(t, ServedBy(reqs[0])), reqs[1..], more);
    }
  }

  lemma OtherKeyIsKept(s: Store, t: Store, key: string, other: string)
    requires t.entries - {key} == s.entries - {key} && other != key
    ensures EntryAt(t, other) == EntryAt(s, other)
  {
    assert other in t.entries - {key} <==> other in s.entries - {key};
    if other in s.entries { assert (t.entries - {key})[other] == (s.entries - {key})[other]; }
  }

  /** Requests on different keys can be served in either order. */
  lemma DifferentKeysCommute(s: Store, a: Request, b: Request)
    requires a.key != b.key && Calm(s, Charge(a) + Charge(b))
    ensures Alike(Apply(Apply(s, ServedBy(a)), ServedBy(b)), Apply(Apply(s, ServedBy(b)), ServedBy(a)))
  {
    hide Apply;
    var sa, sb := Apply(s, ServedBy(a)), Apply(s, ServedBy(b));
    ServeKeepsCalm(s, a, Charge(b));
    ServeKeepsCalm(s, b, Charge(a));
    RequestServesKey(s, a);
    RequestServesKey(s, b);
    RequestServesKey(sa, b);
    RequestServesKey(sb, a);
    OtherKeyIsKept(s, sa, a.key, b.key);
    OtherKeyIsKept(s, sb, b.key, a.key);
    RequestDependsOnKey(s, sa, b);
    RequestDependsOnKey(s, sb, a);
    var sab, sba := Apply(sa, ServedBy(b)), Apply(sb, ServedBy(a));
    forall k ensures EntryAt(sab, k) == EntryAt(sba, k) {
      if k != a.key {
        OtherKeyIsKept(s, sa, a.key, k);
        OtherKeyIsKept(sb, sba, a.key, k);
      }
      if k != b.key {
        OtherKeyIsKept(s, sb, b.key, k);
        OtherKeyIsKept(sa, sab, b.key, k);
      }
    }
    EntriesByKey(sab, sba);
  }

  ghost predicate FirstOfItsKey(reqs: seq<Request>, i: nat)
    requires i < |reqs|
  {
    forall j :: 0 <= j < i ==> reqs[j].key != reqs[i].key
  }

  /** A request that has no earlier one on its key can be served first. */
  lemma {:induction false} ServeOneFirst(s: Store, reqs: seq<Request>, i: nat)
    requires i < |reqs| && FirstOfItsKey(reqs, i) && Calm(s, ChargeAll(reqs))
    ensures ChargeAll(reqs) == Charge(reqs[i]) + ChargeAll(reqs[..i] + reqs[i + 1..])
    ensures Alike(ServeAll(Apply(s, ServedBy(reqs[i])), reqs[..i] + reqs[i + 1..]), ServeAll(s, reqs))
    decreases i
  {
    hide Apply, Calm, Alike, ServeAll, ChargeAll, Charge;
    var x, left := reqs[i], reqs[..i] + reqs[i + 1..];
    FirstServed(s, reqs);
    if i == 0 {
      assert left == reqs[1..];
      AlikeItself(ServeAll(s, reqs));
    } else {
      var a, rest := reqs[0], reqs[1..];
      assert left == [a] + (rest[..i - 1] + rest[i..]) && left[1..] == rest[..i - 1] + rest[i..];
      assert forall j :: 0 <= j < i - 1 ==> rest[j] == reqs[j + 1];
      var sa, sx := Apply(s, ServedBy(a)), Apply(s, ServedBy(x));
      FirstServed(sx, left);
      CalmForLess(s, Charge(a) + ChargeAll(rest), ChargeAll(reqs));
      ServeKeepsCalm(s, a, ChargeAll(rest));
      ServeOneFirst(sa, rest, i - 1);
      var others := ChargeAll(left[1..]);
      CalmForLess(s, Charge(a) + Charge(x), ChargeAll(reqs));
      DifferentKeysCommute(s, a, x);
      CalmForLess(sa, Charge(x) + others, ChargeAll(rest));
      ServeKeepsCalm(sa, x, others);
      CalmForLess(s, Charge(x) + (Charge(a) + others), ChargeAll(reqs));
      ServeKeepsCalm(s, x, Charge(a) + others);
      ServeKeepsCalm(sx, a, others);
      ServeAllKeepsAlike(Apply(sa, ServedBy(x)), Apply(sx, ServedBy(a)), left[1..], 0);
      AlikeChain(ServeAll(sx, left), ServeAll(Apply(sa, ServedBy(x)), left[1..]), ServeAll(sa, rest));
    }
  }

  lemma FirstServed(s: Store, reqs: seq<Request>)
    requires reqs != []
    ensures ServeAll(s, reqs) == ServeAll(Apply(s, ServedBy(reqs[0])), reqs[1..])
    ensures ChargeAll(reqs) == Charge(reqs[0]) + ChargeAll(reqs[1..])
  {
  }

  lemma AlikeItself(s: Store)
    ensures Alike(s, s)
  {
  }

  lemma AlikeChain(a: Store, b: Store, c: Store)
    requires Alike(b, a) && Alike(b, c)
    ensures Alike(a, c)
  {
  }

  lemma CalmForLess(s: Store, less: nat, more: nat)
    requires Calm(s, more) && less <= more
    ensures Calm(s, less)
  {
  }

  // ----- Handlers that run at once -----

  /** The log, every request logged so far, the store, and the requests logged but not yet applied, in
      the order of the log. */
  datatype Busy = Busy(log: seq<WalEntry>, logged: seq<Request>, store: Store, pending: seq<Request>)

  datatype Move =
    | LogOne(req: Request, timestamp: nat)   // some handler appends its request to the log
    | ApplyOne(i: nat)                       // some handler gets the store's lock and applies its request

  ghost function NextMove(codec: Codec, v: Busy, move: Move): Busy {
    match move
    case LogOne(req, timestamp) =>
      Busy(v.log + [WalEntry(timestamp, LoggedAs(codec, req))], v.logged + [req], v.store, v.pending + [req])
    case ApplyOne(i) =>
      if i >= |v.pending| then v
      else v.(store := Apply(v.store, ServedBy(v.pending[i])), pending := v.pending[..i] + v.pending[i + 1..])
  }

  ghost function RunMoves(codec: Codec, v: Busy, moves: seq<Move>): Busy {
    if moves == [] then v else NextMove(codec, RunMoves(codec, v, moves[..|moves| - 1]), moves[|moves| - 1])
  }

  ghost function Idle(config: Config): Busy { Busy([], [], NewStore(config), []) }

  /** No request is applied before an earlier logged one on its key. */
  ghost predicate AppliesInKeyOrder(codec: Codec, v: Busy, moves: seq<Move>) {
    moves == [] ||
    (var front, last := moves[..|moves| - 1], moves[|moves| - 1];
     AppliesInKeyOrder(codec, v, front) &&
     (last.ApplyOne? && last.i < |RunMoves(codec, v, front).pending| ==>
        FirstOfItsKey(RunMoves(codec, v, front).pending, last.i)))
  }

  /** The log holds the logged requests, and replay serves them in order. */
  lemma {:induction false} ReplayServesInOrder(codec: Codec, config: Config, moves: seq<Move>, now: nat)
    requires Faithful(codec)
    ensures var v := RunMoves(codec, Idle(config), moves); var t := ServeAll(NewStore(config), v.logged);
            && Quiet(t, config)
            && Replay(codec, NewStore(config), v.log, now) ==
                  if SetsAccepted(codec, config, v.log) then Some(t) else None
  {
    hide Apply, ReplayEntry, SetsAccepted, EntryAccepted;
    if moves == [] {
      NothingLogged(codec, config, now);
    } else {
      var front, last := moves[..|moves| - 1], moves[|moves| - 1];
      ReplayServesInOrder(codec, config, front, now);
      if last.LogOne? {
        var v := RunMoves(codec, Idle(config), front);
        var t := ServeAll(NewStore(config), v.logged);
        var e := WalEntry(last.timestamp, LoggedAs(codec, last.req));
        RequestReplays(codec, t, last.req, now);
        SetsAcceptedAppend(codec, config, v.log, e);
        assert (v.log + [e])[..|v.log|] == v.log;
        ServeAllAppend(NewStore(config), v.logged, [last.req]);
        OneServed(t, last.req);
      }
    }
  }

  lemma OneServed(s: Store, req: Request)
    ensures ServeAll(s, [req]) == Apply(s, ServedBy(req))
  {
    assert [req][1..] == [];
  }

  lemma NothingLogged(codec: Codec, config: Config, now: nat)
    ensures Replay(codec, NewStore(config), [], now) == Some(NewStore(config)) && SetsAccepted(codec, config, [])
    ensures ServeAll(NewStore(config), []) == NewStore(config) && Quiet(NewStore(config), config)
  {
  }

  lemma OneMoreServed(s: Store, base: Store, pending: seq<Request>, logged: seq<Request>, req: Request, spare: nat)
    requires Calm(s, ChargeAll(pending) + (Charge(req) + spare)) &&
             Calm(base, ChargeAll(logged) + (Charge(req) + spare))
    requires Alike(ServeAll(s, pending), ServeAll(base, logged))
    ensures Alike(ServeAll(s, pending + [req]), ServeAll(base, logged + [req]))
  {
    hide Apply, Calm, Alike;
    var x, y := ServeAll(s, pending), ServeAll(base, logged);
    AlikeItself(s);
    AlikeItself(base);
    ServeAllKeepsAlike(s, s, pending, Charge(req) + spare);
    ServeAllKeepsAlike(base, base, logged, Charge(req) + spare);
    CalmForLess(x, Charge(req), Charge(req) + spare);
    CalmForLess(y, Charge(req), Charge(req) + spare);
    ServeKeepsAlike(x, y, req);
    ServeAllAppend(s, pending, [req]);
    ServeAllAppend(base, logged, [req]);
    OneServed(x, req);
    OneServed(y, req);
  }

  lemma ChargeOneMore(reqs: seq<Request>, req: Request)
    ensures ChargeAll(reqs + [req]) == ChargeAll(reqs) + Charge(req)
  {
    ChargeAllAppend(reqs, [req]);
    assert [req][1..] == [];
    assert ChargeAll([req]) == Charge(req);
  }

  /** However the pending requests are applied, as long as those on one key keep their order: once all
      are applied, the entries are those of serving the logged requests one after the other. */
  lemma {:induction false} KeyOrderIsEnough(codec: Codec, config: Config, moves: seq<Move>, spare: nat)
    requires AppliesInKeyOrder(codec, Idle(config), moves)
    requires Calm(NewStore(config), ChargeAll(RunMoves(codec, Idle(config), moves).logged) + spare)
    ensures var v := RunMoves(codec, Idle(config), moves);
            && Calm(v.store, ChargeAll(v.pending) + spare)
            && Alike(ServeAll(v.store, v.pending), ServeAll(NewStore(config), v.logged))
  {
    hide Apply, Calm, Alike, ServeAll, ChargeAll, FirstOfItsKey, Charge;
    if moves == [] {
      NothingServed(NewStore(config));
    } else {
      var front, last := moves[..|moves| - 1], moves[|moves| - 1];
      var u := RunMoves(codec, Idle(config), front);
      match last
      case LogOne(req, _) =>
        ChargeOneMore(u.logged, req);
        ChargeOneMore(u.pending, req);
        assert ChargeAll(u.logged) + (Charge(req) + spare) == ChargeAll(u.logged + [req]) + spare;
        KeyOrderIsEnough(codec, config, front, Charge(req) + spare);
        assert ChargeAll(u.pending) + (Charge(req) + spare) == ChargeAll(u.pending + [req]) + spare;
        OneMoreServed(u.store, NewStore(config), u.pending, u.logged, req, spare);
      case ApplyOne(i) =>
        KeyOrderIsEnough(codec, config, front, spare);
        if i < |u.pending| {
          var left := u.pending[..i] + u.pending[i + 1..];
          CalmForLess(u.store, ChargeAll(u.pending), ChargeAll(u.pending) + spare);
          ServeOneFirst(u.store, u.pending, i);
          assert ChargeAll(u.pending) + spare == Charge(u.pending[i]) + (ChargeAll(left) + spare);
          ServeKeepsCalm(u.store, u.pending[i], ChargeAll(left) + spare);
          AlikeSwap(ServeAll(Apply(u.store, ServedBy(u.pending[i])), left), ServeAll(u.store, u.pending),
                    ServeAll(NewStore(config), u.logged));
        }
    }
  }

  lemma NothingServed(s: Store)
    ensures ServeAll(s, []) == s && Alike(s, s) && ChargeAll([]) == 0
  {
  }

  lemma AlikeSwap(a: Store, b: Store, c: Store)
    requires Alike(a, b) && Alike(b, c)
    ensures Alike(a, c)
  {
  }

  /** A crash at any point of any run of handlers that run at once: when requests on one key are applied
      in the order of the log and the limit leaves room for what was logged, replay succeeds exactly when
      every logged SET is acceptable, and then gives the entries that the pending requests would have left. */
  lemma ConcurrentCrashRecovery(codec: Codec, config: Config, moves: seq<Move>, now: nat)
    requires Faithful(codec) && AppliesInKeyOrder(codec, Idle(config), moves)
    requires EvictionOn(config) ==> ChargeAll(RunMoves(codec, Idle(config), moves).logged) <= config.maxMemoryBytes
    ensures var v := RunMoves(codec, Idle(config), moves); var replayed := Replay(codec, NewStore(config), v.log, now);
            && (replayed.Some? <==> SetsAccepted(codec, config, v.log))
            && (replayed.Some? ==> replayed.value.entries == ServeAll(v.store, v.pending).entries)
  {
    hide ServeAll, Replay, SetsAccepted, RunMoves, AppliesInKeyOrder;
    ReplayServesInOrder(codec, config, moves, now);
    KeyOrderIsEnough(codec, config, moves, 0);
  }

  /** Two accepted SETs that are applied in the other order than logged: replay brings back other entries
      exactly when they set one key to different texts. */
  lemma OvertakingSetsDivergeExactlyWhen(codec: Codec, s: Store, a: Request, b: Request, at: nat, now: nat)
    requires Faithful(codec) && a.ReqSet? && b.ReqSet? && Calm(s, Charge(a) + Charge(b))
    requires Accepted(s.config, a.key, Str(a.text)) && Accepted(s.config, b.key, Str(b.text))
    ensures var log := [WalEntry(at, LoggedAs(codec, a)), WalEntry(at, LoggedAs(codec, b))];
            var live, replayed := Apply(Apply(s, ServedBy(b)), ServedBy(a)), Replay(codec, s, log, now);
            replayed.Some? && (replayed.value.entries != live.entries <==> a.key == b.key && a.text != b.text)
  {
    hide Apply, Accepted, ReplayEntry;
    var log := [WalEntry(at, LoggedAs(codec, a)), WalEntry(at, LoggedAs(codec, b))];
    assert log[..1][..0] == [] && log[..1] == [log[0]];
    var sa, sb := Apply(s, ServedBy(a)), Apply(s, ServedBy(b));
    ServeKeepsCalm(s, a, Charge(b));
    ServeKeepsCalm(s, b, Charge(a));
    RequestReplays(codec, s, a, now);
    RequestReplays(codec, sa, b, now);
    assert Replay(codec, s, log[..1], now) == Some(sa);
    if a.key != b.key {
      DifferentKeysCommute(s, a, b);
    } else {
      LastSetStays(sa, b);
      LastSetStays(sb, a);
      RequestServesKey(s, a);
      RequestServesKey(s, b);
      RequestServesKey(sa, b);
      RequestServesKey(sb, a);
      var sab, sba := Apply(sa, ServedBy(b)), Apply(sb, ServedBy(a));
      if a.text == b.text { SameEntries(sab, sba, a.key); }
    }
  }

  // ----- Other pairs that overtake each other -----

  predicate Counts(req: Request) { req.ReqIncr? || req.ReqDecr? || req.ReqIncrBy? }

  predicate Pushes(req: Request) { req.ReqLPush? || req.ReqRPush? }

  predicate Comparable(a: Request, b: Request) {
    a.key == b.key && ((Counts(a) && Counts(b)) || (a.ReqAppend? && b.ReqAppend?) || (Pushes(a) && Pushes(b)))
  }

  /** When the order of two requests on one key shows: increments never; texts and pushes at one end when
      they apply and differ in the other order; pushes at two ends never. */
  ghost predicate OrderShows(s: Store, a: Request, b: Request)
    requires Comparable(a, b)
  {
    if a.ReqAppend? then (a.key in s.entries ==> s.entries[a.key].value.Str?) && a.text + b.text != b.text + a.text
    else Pushes(a) && a.ReqLPush? == b.ReqLPush? && KeyError(s.config, a.key).None? &&
         (a.key in s.entries ==> s.entries[a.key].value.List?) && a.values + b.values != b.values + a.values
  }

  lemma CountersCommute(s: Store, key: string, x: int, y: int)
    ensures EntryAt(StoreModel.IncrBy(StoreModel.IncrBy(s, key, x).store, key, y).store, key)
         == EntryAt(StoreModel.IncrBy(StoreModel.IncrBy(s, key, y).store, key, x).store, key)
  {
  }

  lemma AppendsCommuteExactlyWhen(s: Store, key: string, x: string, y: string)
    requires Calm(s, SizeOf(Str(x)) + SizeOf(Str(y)))
    requires key !in s.entries ==> Accepted(s.config, key, Str(x)) && Accepted(s.config, key, Str(y))
    ensures var xy := StoreModel.Append(StoreModel.Append(s, key, x).store, key, y).store;
            var yx := StoreModel.Append(StoreModel.Append(s, key, y).store, key, x).store;
            EntryAt(xy, key) == EntryAt(yx, key) <==>
            (key in s.entries && !s.entries[key].value.Str?) || x + y == y + x
  {
    hide SizeOf, StoreModel.Set;
    if key !in s.entries {
      SetServes(s, key, x);
      SetServes(s, key, y);
    } else if s.entries[key].value.Str? {
      var was := s.entries[key].value.s;
      Regroup(was, x, y);
      Regroup(was, y, x);
      assert (was + (x + y))[|was|..] == x + y && (was + (y + x))[|was|..] == y + x;
    }
  }

  lemma {:induction false} ReversedInjective(a: seq<string>, b: seq<string>)
    ensures Reversed(a) == Reversed(b) <==> a == b
  {
    ReversedTwice(a);
    ReversedTwice(b);
  }

  lemma PushedItems(s: Store, key: string, values: seq<string>, atHead: bool, items: seq<string>)
    requires KeyError(s.config, key).None?
    requires if key in s.entries then s.entries[key].value == List(items) else items == []
    ensures var t := Push(s, key, values, atHead).store;
            && t.config == s.config && key in t.entries
            && t.entries[key].value == List(if atHead then Reversed(values) + items else items + values)
            && t.entries[key].expiresAt == if key in s.entries then s.entries[key].expiresAt else None
  {
    assert Reversed(values) + [] == Reversed(values) && [] + values == values;
  }

  lemma SameFront(a: seq<string>, b: seq<string>, rest: seq<string>)
    requires |a| == |b|
    ensures a + rest == b + rest <==> a == b
    ensures rest + a == rest + b <==> a == b
  {
    assert (a + rest)[..|a|] == a && (b + rest)[..|b|] == b;
    assert (rest + a)[|rest|..] == a && (rest + b)[|rest|..] == b;
  }

  lemma TwoPushes(xs: seq<string>, ys: seq<string>, items: seq<string>)
    ensures Reversed(ys) + (Reversed(xs) + items) == Reversed(xs) + (Reversed(ys) + items) <==> xs + ys == ys + xs
    ensures (items + xs) + ys == (items + ys) + xs <==> xs + ys == ys + xs
    ensures (Reversed(xs) + items) + ys == Reversed(xs) + (items + ys)
  {
    hide Reversed;
    ReversedAppend(xs, ys);
    ReversedAppend(ys, xs);
    ReversedInjective(xs + ys, ys + xs);
    ReversedTwice(xs + ys);
    ReversedTwice(ys + xs);
    Regroup(Reversed(ys), Reversed(xs), items);
    Regroup(Reversed(xs), Reversed(ys), items);
    SameFront(Reversed(xs + ys), Reversed(ys + xs), items);
    Regroup(items, xs, ys);
    Regroup(items, ys, xs);
    SameFront(xs + ys, ys + xs, items);
    Regroup(Reversed(xs), items, ys);
  }

  lemma PushesCommuteExactlyWhen(s: Store, key: string, xs: seq<string>, ys: seq<string>, xHead: bool, yHead: bool)
    ensures var xy := Push(Push(s, key, xs, xHead).store, key, ys, yHead).store;
            var yx := Push(Push(s, key, ys, yHead).store, key, xs, xHead).store;
            EntryAt(xy, key) == EntryAt(yx, key) <==>
            xHead != yHead || KeyError(s.config, key).Some? || xs + ys == ys + xs ||
            (key in s.entries && !s.entries[key].value.List?)
  {
    if KeyError(s.config, key).None? && (key in s.entries ==> s.entries[key].value.List?) {
      hide Push, Reversed;
      var items := if key in s.entries then s.entries[key].value.items else [];
      var sx, sy := Push(s, key, xs, xHead).store, Push(s, key, ys, yHead).store;
      PushedItems(s, key, xs, xHead, items);
      PushedItems(s, key, ys, yHead, items);
      PushedItems(sx, key, ys, yHead, sx.entries[key].value.items);
      PushedItems(sy, key, xs, xHead, sy.entries[key].value.items);
      TwoPushes(xs, ys, items);
      TwoPushes(ys, xs, items);
    }
  }

  function Amount(req: Request): int
    requires Counts(req)
  {
    match req
    case ReqIncr(_) => 1
    case ReqDecr(_) => -1
    case ReqIncrBy(_, amount) => amount
  }

  lemma CountServed(s: Store, req: Request)
    requires Counts(req)
    ensures Apply(s, ServedBy(req)) == StoreModel.IncrBy(s, req.key, Amount(req)).store
  {
    hide StoreModel.IncrBy;
  }

  lemma PushServed(s: Store, req: Request)
    requires Pushes(req)
    ensures Apply(s, ServedBy(req)) == Push(s, req.key, req.values, req.ReqLPush?).store
  {
    hide Push;
  }

  lemma AppendServed(s: Store, req: Request)
    requires req.ReqAppend?
    ensures Apply(s, ServedBy(req)) == StoreModel.Append(s, req.key, req.text).store
  {
    hide StoreModel.Append;
  }

  lemma PairCommutesExactlyWhen(s: Store, a: Request, b: Request)
    requires Comparable(a, b) && Calm(s, Charge(a) + Charge(b))
    requires a.ReqAppend? && a.key !in s.entries ==>
               Accepted(s.config, a.key, Str(a.text)) && Accepted(s.config, a.key, Str(b.text))
    ensures var ab, ba := Apply(Apply(s, ServedBy(a)), ServedBy(b)), Apply(Apply(s, ServedBy(b)), ServedBy(a));
            EntryAt(ab, a.key) == EntryAt(ba, a.key) <==> !OrderShows(s, a, b)
  {
    hide Apply, StoreModel.IncrBy, StoreModel.Append, Push, EntryAt, Accepted;
    var sa, sb := Apply(s, ServedBy(a)), Apply(s, ServedBy(b));
    if Counts(a) {
      CountServed(s, a);
      CountServed(s, b);
      CountServed(sa, b);
      CountServed(sb, a);
      CountersCommute(s, a.key, Amount(a), Amount(b));
    } else if a.ReqAppend? {
      AppendServed(s, a);
      AppendServed(s, b);
      AppendServed(sa, b);
      AppendServed(sb, a);
      AppendsCommuteExactlyWhen(s, a.key, a.text, b.text);
    } else {
      PushServed(s, a);
      PushServed(s, b);
      PushServed(sa, b);
      PushServed(sb, a);
      PushesCommuteExactlyWhen(s, a.key, a.values, b.values, a.ReqLPush?, b.ReqLPush?);
    }
  }

  /** Two counter requests, two APPENDs or two pushes on one key that are applied in the other order than
      logged: replay brings back other entries exactly when their order shows. */
  lemma OvertakingPairDivergesExactlyWhen(codec: Codec, s: Store, a: Request, b: Request, at: nat, now: nat)
    requires Faithful(codec) && Comparable(a, b) && Calm(s, Charge(a) + Charge(b))
    requires a.ReqAppend? && a.key !in s.entries ==>
               Accepted(s.config, a.key, Str(a.text)) && Accepted(s.config, a.key, Str(b.text))
    ensures var log := [WalEntry(at, LoggedAs(codec, a)), WalEntry(at, LoggedAs(codec, b))];
            var live, replayed := Apply(Apply(s, ServedBy(b)), ServedBy(a)), Replay(codec, s, log, now);
            replayed.Some? && (replayed.value.entries != live.entries <==> OrderShows(s, a, b))
  {
    hide Apply, Accepted, ReplayEntry, OrderShows, Charge, Calm;
    var log := [WalEntry(at, LoggedAs(codec, a)), WalEntry(at, LoggedAs(codec, b))];
    assert log[..1][..0] == [] && log[..1] == [log[0]];
    var sa, sb := Apply(s, ServedBy(a)), Apply(s, ServedBy(b));
    TwoServed(s, a, b);
    RequestReplays(codec, s, a, now);
    RequestReplays(codec, sa, b, now);
    assert Replay(codec, s, log[..1], now) == Some(sa);
    PairCommutesExactlyWhen(s, a, b);
    var sab, sba := Apply(sa, ServedBy(b)), Apply(sb, ServedBy(a));
    if !OrderShows(s, a, b) { SameEntries(sab, sba, a.key); }
  }

  /** Two requests on one key leave the other entries alone, in either order. */
  lemma TwoServed(s: Store, a: Request, b: Request)
    requires a.key == b.key && Calm(s, Charge(a) + Charge(b))
    ensures s.queue.None? && Apply(s, ServedBy(a)).queue.None?
    ensures var sab, sba := Apply(Apply(s, ServedBy(a)), ServedBy(b)), Apply(Apply(s, ServedBy(b)), ServedBy(a));
            sab.entries - {a.key} == sba.entries - {a.key}
  {
    hide Apply, Charge;
    ServeKeepsCalm(s, a, Charge(b));
    ServeKeepsCalm(s, b, Charge(a));
    RequestServesKey(s, a);
    RequestServesKey(s, b);
    RequestServesKey(Apply(s, ServedBy(a)), b);
    RequestServesKey(Apply(s, ServedBy(b)), a);
  }

  lemma LastSetStays(s: Store, req: Request)
    requires req.ReqSet? && Calm(s, Charge(req)) && Accepted(s.config, req.key, Str(req.text))
    ensures EntryAt(Apply(s, ServedBy(req)), req.key) == Some(Entry(Str(req.text), None))
  {
    SetServes(s, req.key, req.text);
  }
}
