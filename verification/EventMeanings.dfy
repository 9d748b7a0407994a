/** Keyspace events against what happens to the keys: which events a set, an MSET and the evictions after
    them emit. */
module EventMeanings {
  import opened Basics
  import opened StoreModel
  import opened KvStores
  import EntryMeanings

  /** The keys of the events of one kind, in order. */
  function KeysOf(events: seq<KeyspaceEvent>, kind: EventKind): seq<string> {
    if events == [] then []
    else (if events[0].kind == kind then [events[0].key] else []) + KeysOf(events[1..], kind)
  }

  ghost predicate StampedAt(events: seq<KeyspaceEvent>, now: nat) {
    forall i :: 0 <= i < |events| ==> events[i].timestamp == now
  }

  lemma {:induction false} KeysOfAppend(a: seq<KeyspaceEvent>, b: seq<KeyspaceEvent>, kind: EventKind)
    ensures KeysOf(a + b, kind) == KeysOf(a, kind) + KeysOf(b, kind)
  {
    if a == [] {
      assert a + b == b;
    } else {
      var first := if a[0].kind == kind then [a[0].key] else [];
      KeysOfAppend(a[1..], b, kind);
      assert (a + b)[1..] == a[1..] + b;
      Regroup(first, KeysOf(a[1..], kind), KeysOf(b, kind));
    }
  }

  lemma OneEvent(e: KeyspaceEvent, kind: EventKind)
    ensures KeysOf([e], kind) == if e.kind == kind then [e.key] else []
  {
    assert [e][1..] == [];
  }

  /** One evicted event for each of the keys, and nothing else. */
  ghost predicate Reports(events: seq<KeyspaceEvent>, keys: set<string>, now: nat) {
    var evicted := KeysOf(events, EvictedEvent);
    NoDuplicates(evicted) && Elements(evicted) == keys && |evicted| == |events| && StampedAt(events, now) &&
    KeysOf(events, SetEvent) == []
  }

  lemma ReportsFront(key: string, rest: seq<KeyspaceEvent>, keys: set<string>, now: nat)
    requires Reports(rest, keys, now) && key !in keys
    ensures Reports([KeyspaceEvent(EvictedEvent, key, now)] + rest, {key} + keys, now)
  {
    var e := KeyspaceEvent(EvictedEvent, key, now);
    OneEvent(e, EvictedEvent);
    OneEvent(e, SetEvent);
    KeysOfAppend([e], rest, EvictedEvent);
    KeysOfAppend([e], rest, SetEvent);
    hide KeysOf;
    var more := KeysOf(rest, EvictedEvent);
    assert forall k :: k in [key] + more <==> k == key || k in more;
    assert forall i :: 0 <= i < |more| ==> more[i] in Elements(more);
  }

  lemma NothingToReport(now: nat)
    ensures Reports([], {}, now)
  {
  }

  /** With notifications on, eviction emits exactly one event for each key that it removes, and no others. */
  lemma {:induction false} OneEvictedEventPerKey(s: Store, now: nat)
    ensures Reports(EvictEvents(s, true, now), s.entries.Keys - Evict(s).entries.Keys, now)
    ensures Evict(s).entries.Keys <= s.entries.Keys
    decreases |s.lruOrder|
  {
    hide Evict, Reports;
    if s.stats.memoryBytes > s.config.maxMemoryBytes && s.lruOrder != [] {
      EvictUnfolds(s);
      var key, t := s.lruOrder[0], EvictFirst(s);
      OneEvictedEventPerKey(t, now);
      var gone := t.entries.Keys - Evict(t).entries.Keys;
      if key in s.entries {
        ReportsFront(key, EvictEvents(t, true, now), gone, now);
        assert s.entries.Keys - Evict(s).entries.Keys == {key} + gone;
      } else {
        assert s.entries.Keys - Evict(s).entries.Keys == gone;
        assert EvictEvents(s, true, now) == EvictEvents(t, true, now);
      }
    } else {
      NothingEvicted(s);
      NothingToReport(now);
      assert s.entries.Keys - s.entries.Keys == {};
    }
  }

  lemma NothingEvicted(s: Store)
    requires s.stats.memoryBytes <= s.config.maxMemoryBytes || s.lruOrder == []
    ensures Evict(s) == s
  {
  }

  lemma EvictUnfolds(s: Store)
    requires s.stats.memoryBytes > s.config.maxMemoryBytes && s.lruOrder != []
    ensures Evict(s) == Evict(EvictFirst(s))
    ensures EvictFirst(s).entries.Keys == s.entries.Keys - {s.lruOrder[0]}
  {
  }

  lemma {:induction false} NoEventsWhenOff(s: Store, now: nat)
    ensures EvictEvents(s, false, now) == []
    decreases |s.lruOrder|
  {
    if s.stats.memoryBytes > s.config.maxMemoryBytes && s.lruOrder != [] { NoEventsWhenOff(EvictFirst(s), now); }
  }

  lemma ReportsThenSet(evictions: seq<KeyspaceEvent>, keys: set<string>, key: string, now: nat)
    requires Reports(evictions, keys, now)
    ensures var events := evictions + [KeyspaceEvent(SetEvent, key, now)];
            KeysOf(events, SetEvent) == [key] && KeysOf(events, EvictedEvent) == KeysOf(evictions, EvictedEvent)
  {
    var e := KeyspaceEvent(SetEvent, key, now);
    KeysOfAppend(evictions, [e], SetEvent);
    KeysOfAppend(evictions, [e], EvictedEvent);
    OneEvent(e, SetEvent);
    OneEvent(e, EvictedEvent);
    assert KeysOf(evictions, EvictedEvent) + [] == KeysOf(evictions, EvictedEvent);
  }

  /** What eviction after a charged write emits, if it is on. */
  lemma WriteReports(s: Store, key: string, e: Entry, now: nat)
    ensures var charged := Charged(s, key, e);
            Reports(if EvictionOn(s.config) then EvictEvents(charged, true, now) else [],
                    s.entries.Keys + {key} - Written(s, key, e).entries.Keys, now)
  {
    hide Evict, Reports, EvictEvents;
    var charged := Charged(s, key, e);
    assert charged.entries.Keys == s.entries.Keys + {key};
    OneEvictedEventPerKey(charged, now);
    NothingToReport(now);
    if !EvictionOn(s.config) { assert charged.entries.Keys - charged.entries.Keys == {}; }
  }

  /** An accepted direct set emits, with notifications on, one evicted event for each key that it removes and
      then one set event; with notifications off, or when it is refused or queued, nothing. */
  lemma SetEventsMeaning(s: Store, on: bool, key: string, v: Value, expiresAt: Option<nat>, now: nat)
    ensures var events := SetEvents(s, on, key, v, expiresAt, now); var write := SetEntry(s, key, v, expiresAt);
            if on && write.reply.Ok? && s.queue.None? then
              var n := |events| - 1;
              && n >= 0 && events[n] == KeyspaceEvent(SetEvent, key, now) && KeysOf(events, SetEvent) == [key]
              && Reports(events[..n], s.entries.Keys + {key} - write.store.entries.Keys, now)
            else events == []
  {
    hide Reports, EvictEvents, KeysOf, KeyError, ValueError, Written, Charged, EvictionOn;
    var e := Entry(v, expiresAt);
    if s.queue.None? && Accepted(s.config, key, v) {
      var charged := Charged(s, key, e);
      NoEventsWhenOff(charged, now);
      WriteReports(s, key, e, now);
      var evictions := if EvictionOn(s.config) then EvictEvents(charged, true, now) else [];
      ReportsThenSet(evictions, s.entries.Keys + {key} - Written(s, key, e).entries.Keys, key, now);
      assert (evictions + [KeyspaceEvent(SetEvent, key, now)])[..|evictions|] == evictions;
    }
  }

  function FirstOfPairs(pairs: seq<(string, string)>): seq<string> {
    seq(|pairs|, i requires 0 <= i < |pairs| => pairs[i].0)
  }

  /** A direct MSET emits one set event for each pair before the first refused one, in order. */
  lemma {:induction false} MSetEventsMeaning(s: Store, pairs: seq<(string, string)>, now: nat)
    requires s.queue.None?
    ensures KeysOf(MSetEvents(s, true, pairs, now), SetEvent) == FirstOfPairs(EntryMeanings.Leading(s.config, pairs))
    ensures MSetEvents(s, false, pairs, now) == []
    decreases |pairs|
  {
    hide Set, SetEvents, KeysOf;
    if pairs != [] {
      var key, v := pairs[0].0, Str(pairs[0].1);
      EntryMeanings.FirstPairLeaves(s, key, pairs[0].1);
      SetOutcome(s, true, key, v, now);
      SetEventsMeaning(s, true, key, v, None, now);
      SetEventsMeaning(s, false, key, v, None, now);
      if Accepted(s.config, key, v) {
        var first := Set(s, key, v).store;
        MSetEventsMeaning(first, pairs[1..], now);
        KeysOfAppend(SetEvents(s, true, key, v, None, now), MSetEvents(first, true, pairs[1..], now), SetEvent);
      } else {
        NoKeys();
      }
    } else {
      NoKeys();
    }
  }

  lemma NoKeys()
    ensures KeysOf([], SetEvent) == []
  {
  }
}
