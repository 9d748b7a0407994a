/** Reads at a time, and the clean-up of expired keys as the readers see it. */
module Expiry {
  import opened Basics
  import opened StoreModel
  import opened Glob

  /** The keys that KEYS answers with, as a set. */
  function KeysMatching(s: Store, pattern: string, now: nat): set<string> {
    set k | k in s.entries && !ExpiredAt(s.entries[k], now) && MatchesGlob(k, pattern)
  }

  /** The pairs that iteration yields, as a map. */
  function LiveEntries(s: Store, now: nat): map<string, Value> {
    map k | k in s.entries && !ExpiredAt(s.entries[k], now) :: s.entries[k].value
  }

  /** KEYS answers with exactly the keys that EXISTS accepts and that the pattern matches in the
      declarative sense. */
  lemma KeysMeaning(s: Store, pattern: string, now: nat)
    ensures forall k :: k in KeysMatching(s, pattern, now) <==> Exists(s, k, now) && Matches(k, pattern)
  {
    forall k ensures MatchesGlob(k, pattern) <==> Matches(k, pattern) { GlobMeaning(k, pattern); }
  }

  /** Iteration yields exactly the keys that EXISTS accepts, each with the value that GET finds. */
  lemma IterationMeaning(s: Store, now: nat)
    ensures forall k :: k in LiveEntries(s, now) <==> Exists(s, k, now)
    ensures forall k :: k in LiveEntries(s, now) ==> Get(s, k, now) == Some(LiveEntries(s, now)[k])
  {
  }

  /** KEYS with the pattern `*` answers with exactly the keys that EXISTS accepts. */
  lemma StarListsExistingKeys(s: Store, now: nat)
    ensures forall k :: k in KeysMatching(s, "*", now) <==> Exists(s, k, now)
  {
    forall k | Exists(s, k, now) ensures k in KeysMatching(s, "*", now) { StarMatchesEverything(k); }
  }

  /** Clean-up removes exactly the keys whose expiry is not after `now` and leaves the others as they are. */
  lemma CleanupRemovesDueKeys(s: Store, now: nat)
    ensures var t := CleanupExpired(s, now).store;
            && (forall k :: k in t.entries <==>
                  k in s.entries && (s.entries[k].expiresAt.Some? ==> now < s.entries[k].expiresAt.value))
            && (forall k :: k in t.entries ==> t.entries[k] == s.entries[k])
            && t.lruOrder == s.lruOrder && t.queue == s.queue
            && |t.entries| + CleanupExpired(s, now).reply.value == |s.entries|
            && t.stats == s.stats.(expiredKeys := s.stats.expiredKeys + (|s.entries| - |t.entries|))
  {
    var due := DueKeys(s, now);
    var t := CleanupExpired(s, now).store;
    assert t.entries.Keys == s.entries.Keys - due && due <= s.entries.Keys;
  }

  /** When a read at time `at` can tell that the clean-up at `now` has run: the key was due at `now`
      and a reader at `at` would still have seen it. */
  predicate CleanupShows(s: Store, key: string, now: nat, at: nat) {
    key in s.entries && s.entries[key].expiresAt.Some? &&
    at <= s.entries[key].expiresAt.value <= now
  }

  lemma CleanupVisibleExactlyWhen(s: Store, key: string, now: nat, at: nat)
    ensures var t := CleanupExpired(s, now).store;
            (Get(t, key, at) == Get(s, key, at) && TtlSeconds(t, key, at) == TtlSeconds(s, key, at))
            <==> !CleanupShows(s, key, now, at)
  {
  }

  /** At any later time every read answers as it would have without the clean-up. */
  lemma CleanupInvisibleLater(s: Store, now: nat, at: nat, pattern: string)
    requires at > now
    ensures var t := CleanupExpired(s, now).store;
            && (forall k :: Get(t, k, at) == Get(s, k, at))
            && (forall k :: Exists(t, k, at) == Exists(s, k, at))
            && (forall k :: TtlSeconds(t, k, at) == TtlSeconds(s, k, at))
            && KeysMatching(t, pattern, at) == KeysMatching(s, pattern, at)
            && LiveEntries(t, at) == LiveEntries(s, at)
  {
    var t := CleanupExpired(s, now).store;
    forall k
      ensures Get(t, k, at) == Get(s, k, at) && TtlSeconds(t, k, at) == TtlSeconds(s, k, at)
    {
      CleanupVisibleExactlyWhen(s, k, now, at);
    }
    assert forall k :: k in t.entries && !ExpiredAt(t.entries[k], at) <==>
             k in s.entries && !ExpiredAt(s.entries[k], at);
  }

  /** In the very second of the clean-up the two tests for expiry differ: a reader still sees a key
      that expires now, and the clean-up removes it. */
  lemma ReaderAndCleanupDisagree(s: Store, key: string, now: nat)
    requires key in s.entries && s.entries[key].expiresAt == Some(now)
    ensures Exists(s, key, now) && !Exists(CleanupExpired(s, now).store, key, now)
  {
    assert CleanupShows(s, key, now, now);
    CleanupVisibleExactlyWhen(s, key, now, now);
  }
}
