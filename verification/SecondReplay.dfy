/** A restart from a saved store: the log is never cleared, so all of it is replayed over a store that
    already holds its effects. */
module SecondReplay {
  import opened Basics
  import opened Decimal
  import opened StoreModel
  import opened Transactions
  import opened Wal
  import opened Recovery
  import opened ConcurrentHandlers

  // ----- Keys that the log sets or deletes -----

  /** A request that leaves its key in a state that does not depend on what was there. */
  ghost predicate Rebuilds(config: Config, req: Request) {
    req.ReqDelete? || (req.ReqSet? && Accepted(config, req.key, Str(req.text)))
  }

  lemma RebuildForgets(s: Store, t: Store, req: Request)
    requires s.config == t.config && Rebuilds(s.config, req) && Calm(s, Charge(req)) && Calm(t, Charge(req))
    ensures EntryAt(Apply(s, ServedBy(req)), req.key) == EntryAt(Apply(t, ServedBy(req)), req.key)
  {
    if req.ReqSet? {
      LastSetStays(s, req);
      LastSetStays(t, req);
    }
  }

  /** Two stores that agree on a key still do after the same requests. */
  lemma {:induction false} AgreementLasts(s: Store, t: Store, reqs: seq<Request>, key: string)
    requires AgreeOn(s, t, key) && Calm(s, ChargeAll(reqs)) && Calm(t, ChargeAll(reqs))
    ensures EntryAt(ServeAll(s, reqs), key) == EntryAt(ServeAll(t, reqs), key)
    decreases |reqs|
  {
    hide Apply, Charge;
    if reqs != [] {
      OneStepAlike(s, t, reqs[0], key);
      ServeKeepsCalm(s, reqs[0], ChargeAll(reqs[1..]));
      ServeKeepsCalm(t, reqs[0], ChargeAll(reqs[1..]));
      AgreementLasts(Apply(s, ServedBy(reqs[0])), Apply(t, ServedBy(reqs[0])), reqs[1..], key);
    }
  }

  lemma OneStepAlike(s: Store, t: Store, req: Request, key: string)
    requires AgreeOn(s, t, key) && Calm(s, Charge(req)) && Calm(t, Charge(req))
    ensures EntryAt(Apply(s, ServedBy(req)), key) == EntryAt(Apply(t, ServedBy(req)), key)
  {
    hide Apply, Charge;
    RequestServesKey(s, req);
    RequestServesKey(t, req);
    if key == req.key {
      RequestDependsOnKey(s, t, req);
    } else {
      OtherKeyIsKept(s, Apply(s, ServedBy(req)), req.key, key);
      OtherKeyIsKept(t, Apply(t, ServedBy(req)), req.key, key);
    }
  }

  /** When the log sets or deletes a key anywhere, it leaves the same entry there whatever store it is
      replayed over: a key like that survives any number of replays over saved stores. */
  lemma {:induction false} RebuiltKeyIsKept(s: Store, t: Store, reqs: seq<Request>, i: nat)
    requires s.config == t.config && i < |reqs| && Rebuilds(s.config, reqs[i])
    requires Calm(s, ChargeAll(reqs)) && Calm(t, ChargeAll(reqs))
    ensures EntryAt(ServeAll(s, reqs), reqs[i].key) == EntryAt(ServeAll(t, reqs), reqs[i].key)
    decreases |reqs|
  {
    hide Apply, Charge, Rebuilds;
    var sa, ta := Apply(s, ServedBy(reqs[0])), Apply(t, ServedBy(reqs[0]));
    ServeKeepsCalm(s, reqs[0], ChargeAll(reqs[1..]));
    ServeKeepsCalm(t, reqs[0], ChargeAll(reqs[1..]));
    if i == 0 {
      RebuildForgets(s, t, reqs[0]);
      AgreementLasts(sa, ta, reqs[1..], reqs[0].key);
    } else {
      RebuiltKeyIsKept(sa, ta, reqs[1..], i - 1);
    }
  }

  // ----- Counters and texts that the log only changes in place -----

  ghost predicate NeverRebuilt(reqs: seq<Request>, key: string) {
    forall i :: 0 <= i < |reqs| && reqs[i].key == key ==> !reqs[i].ReqSet? && !reqs[i].ReqDelete?
  }

  function Increment(req: Request, key: string): int {
    if req.key != key then 0
    else match req
         case ReqIncr(_) => 1
         case ReqDecr(_) => -1
         case ReqIncrBy(_, amount) => amount
         case _ => 0
  }

  function Addition(req: Request, key: string): string {
    if req.key == key && req.ReqAppend? then req.text else ""
  }

  function Increments(reqs: seq<Request>, key: string): int {
    if reqs == [] then 0 else Increment(reqs[0], key) + Increments(reqs[1..], key)
  }

  function Additions(reqs: seq<Request>, key: string): string {
    if reqs == [] then "" else Addition(reqs[0], key) + Additions(reqs[1..], key)
  }

  /** The value at a key that the log never sets or deletes, once the log has been replayed over it: a
      counter has grown by the increments, a text by the appended texts, and no other command applies. */
  function Replayed(v: Value, reqs: seq<Request>, key: string): Value
    requires v.Int? || v.Str?
  {
    match v
    case Int(i) => Int(i + Increments(reqs, key))
    case Str(text) => Str(text + Additions(reqs, key))
  }

  function Stepped(v: Value, req: Request, key: string): Value
    requires v.Int? || v.Str?
  {
    match v
    case Int(i) => Int(i + Increment(req, key))
    case Str(text) => Str(text + Addition(req, key))
  }

  lemma ReplayedUnfolds(v: Value, reqs: seq<Request>, key: string)
    requires v.Int? || v.Str?
    ensures reqs == [] ==> Replayed(v, reqs, key) == v
    ensures reqs != [] ==> Replayed(Stepped(v, reqs[0], key), reqs[1..], key) == Replayed(v, reqs, key)
  {
    if v.Str? {
      if reqs == [] {
        assert v.s + "" == v.s;
      } else {
        Regroup(v.s, Addition(reqs[0], key), Additions(reqs[1..], key));
      }
    }
  }

  lemma InPlaceRequest(s: Store, req: Request, e: Entry)
    requires EntryAt(s, req.key) == Some(e) && (e.value.Int? || e.value.Str?) && !req.ReqSet? && !req.ReqDelete?
    ensures EntryAt(Apply(s, ServedBy(req)), req.key) == Some(e.(value := Stepped(e.value, req, req.key)))
  {
    hide StoreModel.Set, PfReserve, StoreModel.PfAdd, StoreModel.PfMerge, MSet, Exec, SizeOf;
    if e.value.Str? { assert e.value.s + "" == e.value.s; }
  }

  lemma OneInPlaceStep(s: Store, req: Request, key: string, e: Entry)
    requires EntryAt(s, key) == Some(e) && (e.value.Int? || e.value.Str?) && Calm(s, Charge(req))
    requires req.key == key ==> !req.ReqSet? && !req.ReqDelete?
    ensures EntryAt(Apply(s, ServedBy(req)), key) == Some(e.(value := Stepped(e.value, req, key)))
  {
    hide Apply, Charge;
    if req.key == key {
      InPlaceRequest(s, req, e);
    } else {
      RequestServesKey(s, req);
      OtherKeyIsKept(s, Apply(s, ServedBy(req)), req.key, key);
      if e.value.Str? { assert e.value.s + "" == e.value.s; }
    }
  }

  lemma {:induction false} ReplayedInPlace(s: Store, reqs: seq<Request>, key: string, e: Entry)
    requires EntryAt(s, key) == Some(e) && (e.value.Int? || e.value.Str?) && NeverRebuilt(reqs, key)
    requires Calm(s, ChargeAll(reqs))
    ensures EntryAt(ServeAll(s, reqs), key) == Some(e.(value := Replayed(e.value, reqs, key)))
    decreases |reqs|
  {
    hide Apply, Charge, Replayed, Calm;
    ReplayedUnfolds(e.value, reqs, key);
    if reqs != [] {
      OneInPlaceCalm(s, reqs);
      OneInPlaceStep(s, reqs[0], key, e);
      ReplayedInPlace(Apply(s, ServedBy(reqs[0])), reqs[1..], key, e.(value := Stepped(e.value, reqs[0], key)));
    }
  }

  lemma OneInPlaceCalm(s: Store, reqs: seq<Request>)
    requires reqs != [] && Calm(s, ChargeAll(reqs))
    ensures Calm(s, Charge(reqs[0])) && Calm(Apply(s, ServedBy(reqs[0])), ChargeAll(reqs[1..]))
  {
    hide Apply, Charge;
    ServeKeepsCalm(s, reqs[0], ChargeAll(reqs[1..]));
  }

  /** A saved counter or text that the log never sets or deletes keeps its entry in the second replay
      exactly when the increments on it add up to zero, or the texts appended to it are empty. */
  lemma InPlaceKeyIsKeptExactlyWhen(saved: Store, reqs: seq<Request>, key: string)
    requires key in saved.entries && (saved.entries[key].value.Int? || saved.entries[key].value.Str?)
    requires NeverRebuilt(reqs, key) && Calm(saved, ChargeAll(reqs))
    ensures EntryAt(ServeAll(saved, reqs), key) == EntryAt(saved, key) <==>
            if saved.entries[key].value.Int? then Increments(reqs, key) == 0 else Additions(reqs, key) == ""
  {
    hide ServeAll, ChargeAll;
    var e := saved.entries[key];
    ReplayedInPlace(saved, reqs, key, e);
    if e.value.Str? {
      var more := Additions(reqs, key);
      assert |e.value.s + more| == |e.value.s| + |more|;
      assert more == "" ==> e.value.s + more == e.value.s;
    }
  }

  // ----- Lists that the log only pushes to -----

  ghost predicate OnlyPushes(reqs: seq<Request>, key: string) {
    forall i :: 0 <= i < |reqs| && reqs[i].key == key ==> Pushes(reqs[i])
  }

  function PushedCount(reqs: seq<Request>, key: string): nat {
    if reqs == [] then 0
    else (if reqs[0].key == key && Pushes(reqs[0]) then |reqs[0].values| else 0) + PushedCount(reqs[1..], key)
  }

  lemma PushLengthens(s: Store, req: Request, key: string, items: seq<string>)
    requires Calm(s, Charge(req)) && key in s.entries && s.entries[key].value == List(items)
    requires KeyError(s.config, key).None? && (req.key == key ==> Pushes(req))
    ensures var t := Apply(s, ServedBy(req));
            && key in t.entries && t.entries[key].value.List?
            && (req.key != key || req.values == [] ==> EntryAt(t, key) == EntryAt(s, key))
            && |t.entries[key].value.items| == |items| + if req.key == key then |req.values| else 0
  {
    hide Apply, Charge;
    RequestServesKey(s, req);
    if req.key == key {
      PushServed(s, req);
      PushedItems(s, key, req.values, req.ReqLPush?, items);
      ReversedTwice(req.values);
      if req.values == [] { assert Reversed<string>([]) + items == items && items + [] == items; }
    } else {
      OtherKeyIsKept(s, Apply(s, ServedBy(req)), req.key, key);
    }
  }

  lemma {:induction false} PushesReplayed(s: Store, reqs: seq<Request>, key: string, items: seq<string>)
    requires Calm(s, ChargeAll(reqs)) && key in s.entries && s.entries[key].value == List(items)
    requires KeyError(s.config, key).None? && OnlyPushes(reqs, key)
    ensures var t := ServeAll(s, reqs);
            && key in t.entries && t.entries[key].value.List?
            && (PushedCount(reqs, key) == 0 ==> EntryAt(t, key) == EntryAt(s, key))
            && |t.entries[key].value.items| == |items| + PushedCount(reqs, key)
    decreases |reqs|
  {
    hide Apply, Charge, Calm, KeyError;
    if reqs != [] {
      var t := Apply(s, ServedBy(reqs[0]));
      OneInPlaceCalm(s, reqs);
      ServedConfig(s, reqs[0]);
      PushLengthens(s, reqs[0], key, items);
      PushesReplayed(t, reqs[1..], key, t.entries[key].value.items);
    }
  }

  lemma ServedConfig(s: Store, req: Request)
    requires Calm(s, Charge(req))
    ensures Apply(s, ServedBy(req)).config == s.config
  {
    hide Apply, Charge;
    RequestServesKey(s, req);
  }

  /** A saved list that the log only pushes to keeps its entry in the second replay exactly when nothing
      was pushed. */
  lemma PushedListIsKeptExactlyWhen(saved: Store, reqs: seq<Request>, key: string)
    requires key in saved.entries && saved.entries[key].value.List? && KeyError(saved.config, key).None?
    requires OnlyPushes(reqs, key) && Calm(saved, ChargeAll(reqs))
    ensures EntryAt(ServeAll(saved, reqs), key) == EntryAt(saved, key) <==> PushedCount(reqs, key) == 0
  {
    hide ServeAll, ChargeAll;
    PushesReplayed(saved, reqs, key, saved.entries[key].value.items);
  }

  // ----- Hashes whose fields the log only sets and deletes -----

  ghost predicate OnlyFields(reqs: seq<Request>, key: string) {
    forall i :: 0 <= i < |reqs| && reqs[i].key == key ==> reqs[i].ReqHSet? || reqs[i].ReqHDel?
  }

  /** The fields of the hash after the requests. */
  ghost function Fields(was: map<string, string>, reqs: seq<Request>, key: string): map<string, string>
    decreases |reqs|
  {
    if reqs == [] then was
    else Fields(FieldStep(was, reqs[0], key), reqs[1..], key)
  }

  ghost function FieldStep(was: map<string, string>, req: Request, key: string): map<string, string> {
    if req.key != key then was
    else match req
         case ReqHSet(_, fields) => was + fields
         case ReqHDel(_, names) => was - Elements(names)
         case _ => was
  }

  /** Two starts that agree outside the fields that the requests touch end alike; in particular the
      fields that a first run left end unchanged. */
  lemma {:induction false} FieldsForget(a: map<string, string>, b: map<string, string>, reqs: seq<Request>, key: string,
                                        free: set<string>)
    requires a - free == b - free
    ensures var left := free - TouchedFields(reqs, key);
            Fields(a, reqs, key) - left == Fields(b, reqs, key) - left
    decreases |reqs|
  {
    if reqs == [] {
      assert free - TouchedFields(reqs, key) == free;
    } else {
      var touched := StepTouches(reqs[0], key);
      StepForgets(a, b, reqs[0], key, free);
      FieldsForget(FieldStep(a, reqs[0], key), FieldStep(b, reqs[0], key), reqs[1..], key, free - touched);
      assert free - TouchedFields(reqs, key) == free - touched - TouchedFields(reqs[1..], key);
    }
  }

  ghost function StepTouches(req: Request, key: string): set<string> {
    if req.key != key then {}
    else match req
         case ReqHSet(_, fields) => fields.Keys
         case ReqHDel(_, names) => Elements(names)
         case _ => {}
  }

  ghost function TouchedFields(reqs: seq<Request>, key: string): set<string> {
    if reqs == [] then {} else StepTouches(reqs[0], key) + TouchedFields(reqs[1..], key)
  }

  lemma AgreeOutside(a: map<string, string>, b: map<string, string>, free: set<string>)
    ensures a - free == b - free <==>
            forall f :: f !in free ==> (f in a <==> f in b) && (f in a ==> a[f] == b[f])
  {
    if a - free == b - free {
      forall f | f !in free ensures (f in a <==> f in b) && (f in a ==> a[f] == b[f]) {
        assert f in a - free <==> f in b - free;
        if f in a { assert (a - free)[f] == (b - free)[f]; }
      }
    }
  }

  lemma StepForgets(a: map<string, string>, b: map<string, string>, req: Request, key: string, free: set<string>)
    requires a - free == b - free
    ensures var left := free - StepTouches(req, key);
            FieldStep(a, req, key) - left == FieldStep(b, req, key) - left
  {
    AgreeOutside(a, b, free);
    AgreeOutside(FieldStep(a, req, key), FieldStep(b, req, key), free - StepTouches(req, key));
  }

  /** Requests change the fields they touch only. */
  lemma {:induction false} FieldsTouchOnly(was: map<string, string>, reqs: seq<Request>, key: string)
    ensures Fields(was, reqs, key) - TouchedFields(reqs, key) == was - TouchedFields(reqs, key)
    decreases |reqs|
  {
    if reqs != [] {
      var next, all := FieldStep(was, reqs[0], key), TouchedFields(reqs, key);
      FieldsTouchOnly(next, reqs[1..], key);
      AgreeOutside(Fields(was, reqs, key), next, TouchedFields(reqs[1..], key));
      AgreeOutside(next, was, StepTouches(reqs[0], key));
      StepTouchesOnly(was, reqs[0], key);
      AgreeOutside(Fields(was, reqs, key), was, all);
    }
  }

  lemma StepTouchesOnly(was: map<string, string>, req: Request, key: string)
    ensures FieldStep(was, req, key) - StepTouches(req, key) == was - StepTouches(req, key)
  {
    AgreeOutside(FieldStep(was, req, key), was, StepTouches(req, key));
  }

  /** Doing them again changes no field. */
  lemma FieldsTwice(was: map<string, string>, reqs: seq<Request>, key: string)
    ensures Fields(Fields(was, reqs, key), reqs, key) == Fields(was, reqs, key)
  {
    var once, touched := Fields(was, reqs, key), TouchedFields(reqs, key);
    FieldsTouchOnly(was, reqs, key);
    FieldsForget(once, was, reqs, key, touched);
    assert touched - touched == {};
    assert Fields(once, reqs, key) - {} == Fields(once, reqs, key) && once - {} == once;
  }

  lemma HSetField(s: Store, key: string, fields: map<string, string>)
    requires KeyError(s.config, key).None? && key in s.entries && s.entries[key].value.Hash?
    ensures EntryAt(StoreModel.HSet(s, key, fields).store, key)
         == Some(s.entries[key].(value := Hash(s.entries[key].value.fields + fields)))
  {
    hide SizeOf;
  }

  lemma HDelField(s: Store, key: string, names: seq<string>)
    requires key in s.entries && s.entries[key].value.Hash?
    ensures EntryAt(StoreModel.HDel(s, key, names).store, key)
         == Some(s.entries[key].(value := Hash(s.entries[key].value.fields - Elements(names))))
  {
    hide Elements;
  }

  lemma FieldRequest(s: Store, req: Request, fields: map<string, string>)
    requires req.ReqHSet? || req.ReqHDel?
    requires KeyError(s.config, req.key).None? && req.key in s.entries && s.entries[req.key].value == Hash(fields)
    ensures EntryAt(Apply(s, ServedBy(req)), req.key)
         == Some(s.entries[req.key].(value := Hash(FieldStep(fields, req, req.key))))
  {
    hide StoreModel.HSet, StoreModel.HDel, Elements, KeyError;
    match req
    case ReqHSet(key, more) => HSetField(s, key, more);
    case ReqHDel(key, names) => HDelField(s, key, names);
  }

  lemma {:induction false} FieldsReplayed(s: Store, reqs: seq<Request>, key: string, e: Entry)
    requires Calm(s, ChargeAll(reqs)) && EntryAt(s, key) == Some(e) && e.value.Hash?
    requires KeyError(s.config, key).None? && OnlyFields(reqs, key)
    ensures EntryAt(ServeAll(s, reqs), key) == Some(e.(value := Hash(Fields(e.value.fields, reqs, key))))
    decreases |reqs|
  {
    hide Apply, Charge, Calm, KeyError, FieldStep;
    if reqs != [] {
      var t := Apply(s, ServedBy(reqs[0]));
      OneInPlaceCalm(s, reqs);
      ServedConfig(s, reqs[0]);
      if reqs[0].key == key {
        FieldRequest(s, reqs[0], e.value.fields);
      } else {
        RequestServesKey(s, reqs[0]);
        OtherKeyIsKept(s, t, reqs[0].key, key);
        OtherKeyStep(e.value.fields, reqs[0], key);
      }
      FieldsReplayed(t, reqs[1..], key, EntryAt(t, key).value);
    }
  }

  lemma OtherKeyStep(was: map<string, string>, req: Request, key: string)
    requires req.key != key
    ensures FieldStep(was, req, key) == was
  {
  }

  lemma HSetOnNothing(s: Store, key: string, fields: map<string, string>)
    requires KeyError(s.config, key).None? && key !in s.entries
    ensures EntryAt(StoreModel.HSet(s, key, fields).store, key) == Some(Entry(Hash(fields), None))
  {
    hide SizeOf, Touched;
  }

  lemma HDelOnNothing(s: Store, key: string, names: seq<string>)
    requires key !in s.entries
    ensures StoreModel.HDel(s, key, names).store == s
  {
  }

  lemma FieldRequestOnNothing(s: Store, req: Request)
    requires (req.ReqHSet? || req.ReqHDel?) && KeyError(s.config, req.key).None? && EntryAt(s, req.key) == None
    ensures EntryAt(Apply(s, ServedBy(req)), req.key)
         == if req.ReqHSet? then Some(Entry(Hash(FieldStep(map[], req, req.key)), None)) else None
    ensures req.ReqHDel? ==> FieldStep(map[], req, req.key) == map[]
  {
    hide StoreModel.HSet, StoreModel.HDel, Elements, KeyError;
    match req
    case ReqHSet(key, fields) =>
      HSetOnNothing(s, key, fields);
      assert map[] + fields == fields;
    case ReqHDel(key, names) => HDelOnNothing(s, key, names);
  }

  /** From a missing key: it stays missing, or is the hash of what was set since. */
  lemma {:induction false} FieldsFromNothing(s: Store, reqs: seq<Request>, key: string)
    requires Calm(s, ChargeAll(reqs)) && EntryAt(s, key) == None
    requires KeyError(s.config, key).None? && OnlyFields(reqs, key)
    ensures EntryAt(ServeAll(s, reqs), key) in {None, Some(Entry(Hash(Fields(map[], reqs, key)), None))}
    decreases |reqs|
  {
    hide Apply, Charge, Calm, KeyError, FieldStep;
    if reqs != [] {
      var t := Apply(s, ServedBy(reqs[0]));
      OneInPlaceCalm(s, reqs);
      ServedConfig(s, reqs[0]);
      if reqs[0].key == key {
        FieldRequestOnNothing(s, reqs[0]);
      } else {
        RequestServesKey(s, reqs[0]);
        OtherKeyIsKept(s, t, reqs[0].key, key);
        OtherKeyStep(map[], reqs[0], key);
      }
      if EntryAt(t, key).None? {
        FieldsFromNothing(t, reqs[1..], key);
      } else {
        FieldsReplayed(t, reqs[1..], key, EntryAt(t, key).value);
      }
    }
  }

  /** A hash whose fields the log only sets and deletes, from its creation or since, keeps its entry in
      every further replay. */
  lemma FieldsAreKept(s: Store, saved: Store, reqs: seq<Request>, key: string)
    requires key in s.entries ==> s.entries[key].value.Hash?
    requires KeyError(s.config, key).None? && OnlyFields(reqs, key)
    requires Calm(s, ChargeAll(reqs)) && Calm(saved, ChargeAll(reqs)) && saved.config == s.config
    requires EntryAt(saved, key) == EntryAt(ServeAll(s, reqs), key) && key in saved.entries
    ensures EntryAt(ServeAll(saved, reqs), key) == EntryAt(saved, key)
  {
    hide ServeAll, ChargeAll, Calm;
    if key in s.entries {
      FieldsReplayed(s, reqs, key, s.entries[key]);
      FieldsTwice(s.entries[key].value.fields, reqs, key);
    } else {
      FieldsFromNothing(s, reqs, key);
      FieldsTwice(map[], reqs, key);
    }
    FieldsReplayed(saved, reqs, key, EntryAt(saved, key).value);
  }

  // ----- One request -----

  /** Serving this request once more makes no difference to a store that has served it just now. */
  ghost predicate Repeatable(saved: Store, req: Request) {
    var v := ValueAt(saved, req.key);
    match req
    case ReqIncr(_) => !(v.Some? && v.value.Int?)
    case ReqDecr(_) => !(v.Some? && v.value.Int?)
    case ReqIncrBy(_, amount) => amount == 0 || !(v.Some? && v.value.Int?)
    case ReqAppend(_, text) => text == "" || !(v.Some? && v.value.Str?)
    case ReqLPush(key, values) => values == [] || KeyError(saved.config, key).Some? || !(v.Some? && v.value.List?)
    case ReqRPush(key, values) => values == [] || KeyError(saved.config, key).Some? || !(v.Some? && v.value.List?)
    case ReqLPop(_) => !(v.Some? && v.value.List? && v.value.items != [])
    case ReqRPop(_) => !(v.Some? && v.value.List? && v.value.items != [])
    case ReqHIncrBy(key, _, amount) =>
      amount == 0 || KeyError(saved.config, key).Some? || !(v.Some? && v.value.Hash?)
    case _ => true
  }

  lemma PushRepeats(s: Store, key: string, values: seq<string>, atHead: bool)
    ensures var t := Push(s, key, values, atHead).store;
            EntryAt(Push(t, key, values, atHead).store, key) == EntryAt(t, key) <==>
            values == [] || KeyError(t.config, key).Some? || !(key in t.entries && t.entries[key].value.List?)
  {
    var t := Push(s, key, values, atHead).store;
    ReversedTwice(values);
    if key in t.entries && t.entries[key].value.List? {
      var items := t.entries[key].value.items;
      assert |Reversed(values) + items| == |values| + |items| && |items + values| == |items| + |values|;
      assert values == [] ==> Reversed(values) + items == items && items + values == items;
    }
  }

  lemma PopRepeats(t: Store, key: string, atHead: bool)
    ensures EntryAt(Pop(t, key, atHead).store, key) == EntryAt(t, key) <==>
            !(key in t.entries && t.entries[key].value.List? && t.entries[key].value.items != [])
  {
  }

  lemma HSetRepeats(s: Store, key: string, fields: map<string, string>)
    ensures var t := StoreModel.HSet(s, key, fields).store;
            EntryAt(StoreModel.HSet(t, key, fields).store, key) == EntryAt(t, key)
  {
    hide SizeOf;
    assert fields + fields == fields;
    if key in s.entries && s.entries[key].value.Hash? {
      var was := s.entries[key].value.fields;
      assert (was + fields) + fields == was + fields;
    }
  }

  lemma HDelRepeats(s: Store, key: string, names: seq<string>)
    ensures var t := StoreModel.HDel(s, key, names).store;
            EntryAt(StoreModel.HDel(t, key, names).store, key) == EntryAt(t, key)
  {
    hide SizeOf, Elements;
    if key in s.entries && s.entries[key].value.Hash? {
      var was, gone := s.entries[key].value.fields, Elements(names);
      assert (was - gone) - gone == was - gone;
    }
  }

  /** A hash field that an increment has left: a 64-bit number. */
  lemma HIncrByRepeats(s: Store, key: string, field: string, amount: int)
    requires key in s.entries && s.entries[key].value.Hash? ==>
               I64_MIN <= FieldNumber(s.entries[key].value.fields, field) + amount <= I64_MAX
    requires I64_MIN <= amount <= I64_MAX
    ensures var t := StoreModel.HIncrBy(s, key, field, amount).store;
            EntryAt(StoreModel.HIncrBy(t, key, field, amount).store, key) == EntryAt(t, key) <==>
            amount == 0 || KeyError(t.config, key).Some? || !(key in t.entries && t.entries[key].value.Hash?)
  {
    hide SizeOf, ShowInt, ParseI64;
    var t := StoreModel.HIncrBy(s, key, field, amount).store;
    if KeyError(s.config, key).None? && key in t.entries && t.entries[key].value.Hash? {
      var fields := t.entries[key].value.fields;
      var next := if key in s.entries then FieldNumber(s.entries[key].value.fields, field) + amount else amount;
      assert fields[field] == ShowInt(next);
      ParseShowI64(next);
      assert FieldNumber(fields, field) == next;
      assert EntryAt(StoreModel.HIncrBy(t, key, field, amount).store, key)
          == Some(t.entries[key].(value := Hash(fields[field := ShowInt(next + amount)])));
      if amount == 0 {
        assert fields[field := ShowInt(next)] == fields;
      } else {
        ShowIntInjective(next, next + amount);
        assert fields[field := ShowInt(next + amount)][field] != fields[field];
      }
    }
  }

  lemma ShowIntInjective(i: int, j: int)
    requires i != j
    ensures ShowInt(i) != ShowInt(j)
  {
    if i >= 0 && j >= 0 {
      if ShowInt(i) == ShowInt(j) { ShowNatInjective(i, j); }
    } else if i < 0 && j < 0 {
      assert ShowInt(i)[1..] == ShowNat(-i) && ShowInt(j)[1..] == ShowNat(-j);
      if ShowInt(i) == ShowInt(j) { ShowNatInjective(-i, -j); }
    } else {
      assert IsDigit(ShowInt(if i >= 0 then i else j)[0]);
    }
  }

  lemma StringsRepeat(s: Store, key: string, text: string, amount: int)
    requires Calm(s, 2 * SizeOf(Str(text)))
    ensures var t := StoreModel.Append(s, key, text).store;
            EntryAt(StoreModel.Append(t, key, text).store, key) == EntryAt(t, key) <==>
            text == "" || !(key in t.entries && t.entries[key].value.Str?)
    ensures var t := StoreModel.Set(s, key, Str(text)).store;
            EntryAt(StoreModel.Set(t, key, Str(text)).store, key) == EntryAt(t, key)
    ensures var t := StoreModel.IncrBy(s, key, amount).store;
            EntryAt(StoreModel.IncrBy(t, key, amount).store, key) == EntryAt(t, key) <==>
            amount == 0 || !(key in t.entries && t.entries[key].value.Int?)
    ensures var t := StoreModel.Delete(s, key).store;
            EntryAt(StoreModel.Delete(t, key).store, key) == EntryAt(t, key)
  {
    hide SizeOf, StoreModel.Set;
    SetServes(s, key, text);
    SetServes(StoreModel.Set(s, key, Str(text)).store, key, text);
    var t := StoreModel.Append(s, key, text).store;
    if key in t.entries && t.entries[key].value.Str? {
      var was := t.entries[key].value.s;
      assert |was + text| == |was| + |text|;
      assert text == "" ==> was + text == was;
    } else if key !in t.entries {
      SetServes(t, key, text);
      PlainSet(s, key, Str(text));
      PlainSet(t, key, Str(text));
    }
  }

  /** When a restart from a store saved right after a request is harmless to the key: exactly when the
      request is repeatable. */
  lemma RepeatIsHarmlessExactlyWhen(s: Store, req: Request)
    requires Calm(s, 2 * Charge(req))
    requires req.ReqHIncrBy? ==> I64_MIN <= req.amount <= I64_MAX
    requires req.ReqHIncrBy? && req.key in s.entries && s.entries[req.key].value.Hash? ==>
               I64_MIN <= FieldNumber(s.entries[req.key].value.fields, req.field) + req.amount <= I64_MAX
    ensures var saved := Apply(s, ServedBy(req));
            EntryAt(Apply(saved, ServedBy(req)), req.key) == EntryAt(saved, req.key) <==> Repeatable(saved, req)
  {
    hide SizeOf, StoreModel.Set, StoreModel.Delete, StoreModel.IncrBy, StoreModel.Append, Push, Pop;
    hide StoreModel.HSet, StoreModel.HDel, StoreModel.HIncrBy, KeyError, EntryAt, Calm;
    hide SetWithTtl, StoreModel.GetSet, MSet, Exec, StoreModel.PfAdd, StoreModel.PfMerge, PfReserve, CleanupExpired;
    hide StoreModel.Expire, StoreModel.Persist, Multi, Discard, QueueOperation;
    match req
    case ReqSet(key, text) => StringsRepeat(s, key, text, 0);
    case ReqDelete(key) => NoCharge(s); StringsRepeat(s, key, "", 0);
    case ReqIncr(key) => NoCharge(s); StringsRepeat(s, key, "", 1);
    case ReqDecr(key) => NoCharge(s); StringsRepeat(s, key, "", -1);
    case ReqIncrBy(key, amount) => NoCharge(s); StringsRepeat(s, key, "", amount);
    case ReqAppend(key, text) => StringsRepeat(s, key, text, 0);
    case ReqLPush(key, values) => PushRepeats(s, key, values, true);
    case ReqRPush(key, values) => PushRepeats(s, key, values, false);
    case ReqLPop(key) => PopRepeats(Apply(s, ServedBy(req)), key, true);
    case ReqRPop(key) => PopRepeats(Apply(s, ServedBy(req)), key, false);
    case ReqHSet(key, fields) => HSetRepeats(s, key, fields);
    case ReqHDel(key, names) => HDelRepeats(s, key, names);
    case ReqHIncrBy(key, field, amount) => HIncrByRepeats(s, key, field, amount);
  }

  lemma NoCharge(s: Store)
    requires Calm(s, 0)
    ensures Calm(s, 2 * SizeOf(Str("")))
  {
    assert SizeOf(Str("")) == 0;
  }

  /** For example, an APPEND that is in the saved store is done twice. */
  lemma SavedStoreAppendsTwice(codec: Codec, saved: Store, key: string, text: string, now: nat)
    requires text != "" && key in saved.entries && saved.entries[key].value == Str(text)
    ensures var log := [WalEntry(now, Wal.Append(key, text))];
            Replay(codec, saved, log, now).Some? &&
            ValueAt(Replay(codec, saved, log, now).value, key) == Some(Str(text + text)) &&
            text + text != text
  {
    var log := [WalEntry(now, Wal.Append(key, text))];
    assert log[..0] == [];
    assert |text + text| != |text|;
  }
}
