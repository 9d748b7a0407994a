/** Laws that relate commands to each other and to the reads: lists as queues and stacks, counters,
    appended text, hash fields, and expiry times. */
module CommandLaws {
  import opened Basics
  import opened Decimal
  import opened StoreModel

  // ----- Lists -----

  /** The items of a list, none for a missing key. */
  function Items(s: Store, key: string): seq<string>
    requires CanPush(s, key)
  {
    if key in s.entries then s.entries[key].value.items else []
  }

  predicate CanPush(s: Store, key: string) {
    KeyError(s.config, key).None? && (key in s.entries ==> s.entries[key].value.List?)
  }

  /** `n` pops at one end: what they leave, and the values they answer with. */
  function Pops(s: Store, key: string, atHead: bool, n: nat): (Store, seq<string>) {
    if n == 0 then (s, [])
    else
      var (before, popped) := Pops(s, key, atHead, n - 1);
      var pop := Pop(before, key, atHead);
      (pop.store, if pop.reply.Ok? && pop.reply.value.Some? then popped + [pop.reply.value.value] else popped)
  }

  lemma PopTakes(s: Store, key: string, atHead: bool)
    requires CanPush(s, key) && Items(s, key) != []
    ensures var items, pop := Items(s, key), Pop(s, key, atHead);
            && pop.reply == Ok(Some(if atHead then items[0] else items[|items| - 1]))
            && CanPush(pop.store, key)
            && Items(pop.store, key) == if atHead then items[1..] else items[..|items| - 1]
  {
  }

  lemma TakeFirst(items: seq<string>, popped: seq<string>, rest: seq<string>)
    requires items == popped + rest && rest != []
    ensures items == (popped + [rest[0]]) + rest[1..]
  {
  }

  lemma TakeLast(items: seq<string>, popped: seq<string>, rest: seq<string>)
    requires items == rest + Reversed(popped) && rest != []
    ensures items == rest[..|rest| - 1] + Reversed(popped + [rest[|rest| - 1]])
  {
    var x := rest[|rest| - 1];
    ReversedAppend(popped, [x]);
    assert Reversed([x]) == [x];
    assert rest == rest[..|rest| - 1] + [x];
  }

  /** Pops at the head answer with the items in order, pops at the tail in reverse order, and no item
      is lost: the ones answered and the ones left make up the list. */
  lemma {:induction false} PopsTakeInOrder(s: Store, key: string, atHead: bool, n: nat)
    requires CanPush(s, key) && n <= |Items(s, key)|
    ensures var (t, popped) := Pops(s, key, atHead, n);
            && CanPush(t, key) && |popped| == n
            && Items(s, key) == if atHead then popped + Items(t, key) else Items(t, key) + Reversed(popped)
  {
    hide Pop, Items, CanPush, Reversed;
    if n == 0 {
      NothingPopped(Items(s, key));
    } else {
      PopsTakeInOrder(s, key, atHead, n - 1);
      var (before, popped) := Pops(s, key, atHead, n - 1);
      var rest := Items(before, key);
      ReversedTwice(popped);
      PopTakes(before, key, atHead);
      if atHead { TakeFirst(Items(s, key), popped, rest); } else { TakeLast(Items(s, key), popped, rest); }
    }
  }

  lemma NothingPopped(items: seq<string>)
    ensures [] + items == items && items + Reversed([]) == items
  {
  }

  lemma PushMeaning(s: Store, key: string, values: seq<string>, atHead: bool)
    requires CanPush(s, key)
    ensures var push := Push(s, key, values, atHead);
            && CanPush(push.store, key) && push.reply == Ok(|Items(push.store, key)|)
            && Items(push.store, key) == if atHead then Reversed(values) + Items(s, key) else Items(s, key) + values
  {
    assert Reversed(values) + [] == Reversed(values) && [] + values == values;
  }

  /** A list filled by RPUSH and emptied by LPOP is a queue: what comes out is what was there, followed
      by what was pushed. */
  lemma ListIsQueue(s: Store, key: string, values: seq<string>)
    requires CanPush(s, key)
    ensures var t := Push(s, key, values, false).store;
            Pops(t, key, true, |Items(s, key)| + |values|).1 == Items(s, key) + values
  {
    hide Push, Pop;
    PushMeaning(s, key, values, false);
    var t, n := Push(s, key, values, false).store, |Items(s, key)| + |values|;
    PopsTakeInOrder(t, key, true, n);
    var (after, popped) := Pops(t, key, true, n);
    assert Items(after, key) == [];
    assert popped + [] == popped;
  }

  /** A list filled and emptied at the same end is a stack: as many pops as pushes answer with the
      pushed values, last one first, and leave the items that were there. */
  lemma ListIsStack(s: Store, key: string, values: seq<string>, atHead: bool)
    requires CanPush(s, key)
    ensures var t := Push(s, key, values, atHead).store;
            var (after, popped) := Pops(t, key, atHead, |values|);
            popped == Reversed(values) && CanPush(after, key) && Items(after, key) == Items(s, key)
  {
    hide Push, Pop;
    PushMeaning(s, key, values, atHead);
    ReversedTwice(values);
    var t := Push(s, key, values, atHead).store;
    PopsTakeInOrder(t, key, atHead, |values|);
    var (after, popped) := Pops(t, key, atHead, |values|);
    var items, all := Items(s, key), Items(t, key);
    ReversedTwice(popped);
    if atHead {
      assert all[..|values|] == popped && all[..|values|] == Reversed(values);
      assert all[|values|..] == Items(after, key) && all[|values|..] == items;
    } else {
      assert all[|items|..] == Reversed(popped) && all[|items|..] == values;
      assert all[..|items|] == Items(after, key) && all[..|items|] == items;
    }
  }

  /** Pushing in two commands is pushing in one. */
  lemma SplitPushesAgree(s: Store, key: string, xs: seq<string>, ys: seq<string>, atHead: bool)
    requires CanPush(s, key)
    ensures var two, one := Push(Push(s, key, xs, atHead).store, key, ys, atHead), Push(s, key, xs + ys, atHead);
            two.reply == one.reply && CanPush(two.store, key) && CanPush(one.store, key) &&
            Items(two.store, key) == Items(one.store, key)
  {
    hide Push;
    PushMeaning(s, key, xs, atHead);
    PushMeaning(Push(s, key, xs, atHead).store, key, ys, atHead);
    PushMeaning(s, key, xs + ys, atHead);
    ReversedAppend(xs, ys);
  }

  // ----- Counters and text -----

  /** INCRBY undone by the opposite INCRBY gives back every entry. */
  lemma IncrementIsUndone(s: Store, key: string, amount: int)
    requires IncrBy(s, key, amount).reply.Ok?
    ensures var t := IncrBy(s, key, amount).store;
            IncrBy(t, key, -amount).reply.Ok? && IncrBy(t, key, -amount).store.entries == s.entries
            && IncrBy(t, key, -amount).reply.value == IncrBy(s, key, 0).reply.value
  {
  }

  /** Two APPENDs are one APPEND of both texts. */
  lemma SplitAppendsAgree(s: Store, key: string, a: string, b: string)
    requires key in s.entries && s.entries[key].value.Str?
    ensures var two, one := Append(Append(s, key, a).store, key, b), Append(s, key, a + b);
            two.reply == one.reply && two.store.entries == one.store.entries
  {
    var was := s.entries[key].value.s;
    assert (was + a) + b == was + (a + b);
  }

  // ----- Hashes -----

  /** Deleting the fields that an HSET added gives back the hash, and both commands count the same. */
  lemma AddedFieldsAreDeleted(s: Store, key: string, fields: map<string, string>, names: seq<string>)
    requires KeyError(s.config, key).None? && key in s.entries && s.entries[key].value.Hash?
    requires Elements(names) == fields.Keys && fields.Keys !! s.entries[key].value.fields.Keys
    ensures var put := HSet(s, key, fields); var del := HDel(put.store, key, names);
            put.reply == Ok(|fields|) && del.reply == put.reply && del.store.entries == s.entries
  {
    hide SizeOf, Elements, KeyError, Touched;
    var was := s.entries[key].value.fields;
    DisjointUnion(was, fields);
    var grown := s.entries[key].(value := Hash(was + fields));
    assert HSet(s, key, fields).store.entries == s.entries[key := grown];
    assert s.entries[key := grown][key := grown.(value := Hash(was))] == s.entries;
  }

  lemma DisjointUnion<K, V>(a: map<K, V>, b: map<K, V>)
    requires a.Keys !! b.Keys
    ensures (a + b) - b.Keys == a && (a + b).Keys * b.Keys == b.Keys && b.Keys - a.Keys == b.Keys
  {
  }

  // ----- Expiry -----

  /** After EXPIRE the remaining time counts down from the one that was set; the key is readable to the
      end of that second and not after it. */
  lemma ExpiryCountsDown(s: Store, key: string, ttl: nat, now: nat, at: nat)
    requires Exists(s, key, now) && now <= at && now + ttl <= U64_MAX && ttl <= I64_MAX
    ensures var t := Expire(s, key, ttl, now).store;
            Expire(s, key, ttl, now).reply == Ok(true) &&
            TtlSeconds(t, key, at) == (if at <= now + ttl then now + ttl - at else -2) &&
            (Exists(t, key, at) <==> at <= now + ttl) &&
            (Exists(t, key, at) ==> Get(t, key, at) == Get(s, key, now))
  {
  }

  /** PERSIST undoes EXPIRE on a key that had no expiry, and whatever the key had, it has none after. */
  lemma PersistUndoesExpire(s: Store, key: string, ttl: nat, now: nat)
    requires key in s.entries && now + ttl <= U64_MAX
    ensures var t := Persist(Expire(s, key, ttl, now).store, key).store;
            TtlSeconds(t, key, now) == -1 && (s.entries[key].expiresAt.None? ==> t == s)
  {
  }
}
