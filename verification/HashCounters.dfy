/** HINCRBY keeps its number as decimal text in a hash field. */
module HashCounters {
  import opened Basics
  import opened Decimal
  import opened StoreModel

  ghost function FieldAt(s: Store, key: string, field: string): int {
    if key in s.entries && s.entries[key].value.Hash? then FieldNumber(s.entries[key].value.fields, field) else 0
  }

  /** A field reads as the number that it prints, and as zero when it is missing or not a 64-bit number. */
  lemma FieldReads(fields: map<string, string>, field: string, i: int)
    ensures field !in fields ==> FieldNumber(fields, field) == 0
    ensures field in fields && ParseI64(fields[field]).None? ==> FieldNumber(fields, field) == 0
    ensures field in fields && fields[field] == ShowInt(i) && I64_MIN <= i <= I64_MAX ==>
              FieldNumber(fields, field) == i
  {
    hide ParseI64, ShowInt;
    if I64_MIN <= i <= I64_MAX { ParseShowI64(i); }
  }

  ghost predicate CanCount(s: Store, key: string) {
    KeyError(s.config, key).None? && (key in s.entries ==> s.entries[key].value.Hash?)
  }

  /** One increment answers with the old number plus the amount and stores what it answers, as long as
      that is a 64-bit number. */
  lemma HIncrByAdds(s: Store, key: string, field: string, amount: int)
    requires CanCount(s, key) && I64_MIN <= FieldAt(s, key, field) + amount <= I64_MAX
    ensures var after := HIncrBy(s, key, field, amount);
            && after.reply == Ok(FieldAt(s, key, field) + amount)
            && CanCount(after.store, key) && FieldAt(after.store, key, field) == FieldAt(s, key, field) + amount
            && (forall other :: other != field ==> FieldAt(after.store, key, other) == FieldAt(s, key, other))
  {
    hide SizeOf, ParseI64, ShowInt;
    ParseShowI64(FieldAt(s, key, field) + amount);
  }

  function Sum(amounts: seq<int>): int {
    if amounts == [] then 0 else Sum(amounts[..|amounts| - 1]) + amounts[|amounts| - 1]
  }

  ghost function AfterIncrements(s: Store, key: string, field: string, amounts: seq<int>): Store {
    if amounts == [] then s
    else HIncrBy(AfterIncrements(s, key, field, amounts[..|amounts| - 1]), key, field, amounts[|amounts| - 1]).store
  }

  /** Increments add up, as long as every partial sum is a 64-bit number. */
  lemma {:induction false} IncrementsAddUp(s: Store, key: string, field: string, amounts: seq<int>)
    requires CanCount(s, key)
    requires forall n :: 0 <= n <= |amounts| ==> I64_MIN <= FieldAt(s, key, field) + Sum(amounts[..n]) <= I64_MAX
    ensures CanCount(AfterIncrements(s, key, field, amounts), key)
    ensures FieldAt(AfterIncrements(s, key, field, amounts), key, field) == FieldAt(s, key, field) + Sum(amounts)
  {
    hide HIncrBy, FieldAt, CanCount;
    if amounts != [] {
      var front := amounts[..|amounts| - 1];
      forall n | 0 <= n <= |front| ensures I64_MIN <= FieldAt(s, key, field) + Sum(front[..n]) <= I64_MAX {
        assert front[..n] == amounts[..n];
      }
      IncrementsAddUp(s, key, field, front);
      assert amounts[..|amounts|] == amounts;
      assert Sum(amounts[..|amounts|]) == Sum(front) + amounts[|amounts| - 1];
      HIncrByAdds(AfterIncrements(s, key, field, front), key, field, amounts[|amounts| - 1]);
    }
  }
}
