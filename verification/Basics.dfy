/** Small vocabulary shared by every module: option and result types, byte lengths of strings, and the
    sequence and map operations that the store's data structures are described with. */
module Basics {

  datatype Option<+T> = None | Some(value: T)

  datatype Result<+T, +E> = Ok(value: T) | Err(error: E)

  function Min(a: int, b: int): int { if a <= b then a else b }

  function Max(a: int, b: int): int { if a <= b then b else a }

  /** Subtraction that stops at zero, as `usize::saturating_sub` does. */
  function MonusNat(a: nat, b: nat): nat { if a <= b then 0 else a - b }

  const U64_MAX: nat := 0xFFFF_FFFF_FFFF_FFFF

  type U64 = x: nat | x <= U64_MAX

  // ----- Strings -----

  /** Number of bytes that UTF-8 uses for one character. */
  function Utf8Width(c: char): nat {
    if c as int < 0x80 then 1 else if c as int < 0x800 then 2 else if c as int < 0x1_0000 then 3 else 4
  }

  /** `String::len`: the length in bytes, not in characters. */
  function ByteLen(s: string): nat {
    if s == [] then 0 else Utf8Width(s[0]) + ByteLen(s[1..])
  }

  // ----- Sequences -----

  /** `Vec::retain(|y| y != x)`: the other elements, in their order. */
  function Without<T(==)>(s: seq<T>, x: T): seq<T> {
    if s == [] then [] else if s[0] == x then Without(s[1..], x) else [s[0]] + Without(s[1..], x)
  }

  ghost predicate NoDuplicates<T(!new)>(s: seq<T>) {
    forall i, j :: 0 <= i < j < |s| ==> s[i] != s[j]
  }

  ghost function Elements<T>(s: seq<T>): set<T> { set x | x in s }

  function Reversed<T>(s: seq<T>): seq<T> {
    if s == [] then [] else Reversed(s[1..]) + [s[0]]
  }

  lemma {:induction false} WithoutElements<T>(s: seq<T>, x: T)
    ensures forall y :: y in Without(s, x) <==> y in s && y != x
  {
    if s != [] { WithoutElements(s[1..], x); }
  }

  lemma {:induction false} WithoutKeepsNoDuplicates<T(!new)>(s: seq<T>, x: T)
    requires NoDuplicates(s)
    ensures NoDuplicates(Without(s, x))
  {
    if s != [] {
      WithoutKeepsNoDuplicates(s[1..], x);
      WithoutElements(s[1..], x);
      assert forall j :: 0 < j < |s| ==> s[j] == s[1..][j - 1];
      assert s[0] !in Without(s[1..], x);
    }
  }

  lemma {:induction false} WithoutAppend<T>(s: seq<T>, t: seq<T>, x: T)
    ensures Without(s + t, x) == Without(s, x) + Without(t, x)
  {
    if s == [] {
      assert s + t == t;
    } else {
      assert (s + t)[1..] == s[1..] + t;
      WithoutAppend(s[1..], t, x);
    }
  }

  lemma {:induction false} WithoutAbsent<T>(s: seq<T>, x: T)
    requires x !in s
    ensures Without(s, x) == s
  {
    if s != [] { WithoutAbsent(s[1..], x); }
  }

  lemma {:induction false} ReversedAppend<T>(s: seq<T>, t: seq<T>)
    ensures Reversed(s + t) == Reversed(t) + Reversed(s)
  {
    if s == [] {
      assert s + t == t;
    } else {
      assert (s + t)[1..] == s[1..] + t;
      ReversedAppend(s[1..], t);
    }
  }

  lemma {:induction false} ReversedTwice<T>(s: seq<T>)
    ensures Reversed(Reversed(s)) == s && |Reversed(s)| == |s|
  {
    if s != [] {
      ReversedTwice(s[1..]);
      ReversedAppend(Reversed(s[1..]), [s[0]]);
    }
  }

  /** A sequence without duplicates is no longer than any set that holds its elements. */
  lemma {:induction false} NoDuplicatesFits<T(!new)>(s: seq<T>, room: set<T>)
    requires NoDuplicates(s)
    requires forall x :: x in s ==> x in room
    ensures |s| <= |room|
  {
    if s != [] {
      NoDuplicatesFits(s[1..], room - {s[0]});
    }
  }

  lemma Regroup<T>(a: seq<T>, b: seq<T>, c: seq<T>)
    ensures a + (b + c) == (a + b) + c
  {
  }

  /** A sequence has as many elements as positions exactly when none of them is repeated. */
  lemma {:induction false} SizeOfElements<T(!new)>(s: seq<T>)
    ensures |Elements(s)| <= |s|
    ensures |Elements(s)| == |s| <==> NoDuplicates(s)
  {
    if s != [] {
      var front, last := s[..|s| - 1], s[|s| - 1];
      SizeOfElements(front);
      assert s == front + [last];
      assert Elements(s) == Elements(front) + {last};
      assert last in Elements(front) <==> exists i :: 0 <= i < |front| && s[i] == last;
    }
  }

  // ----- Sums over maps -----

  ghost function AnyKey<K, V>(m: map<K, V>): (k: K)
    requires m.Keys != {}
    ensures k in m
  {
    var k :| k in m.Keys; k
  }

  /** The sum of `size(k, m[k])` over the keys of `m`, in whatever order the keys are visited. */
  ghost function SumOver<K, V>(m: map<K, V>, size: (K, V) -> nat): nat
    decreases |m|
  {
    if m.Keys == {} then 0
    else var k := AnyKey(m); size(k, m[k]) + SumOver(m - {k}, size)
  }

  lemma {:induction false} SumWithout<K, V>(m: map<K, V>, size: (K, V) -> nat, k: K)
    requires k in m
    ensures SumOver(m, size) == size(k, m[k]) + SumOver(m - {k}, size)
    decreases |m|
  {
    var x := AnyKey(m);
    if x != k {
      SumWithout(m - {x}, size, k);
      SumWithout(m - {k}, size, x);
      assert m - {x} - {k} == m - {k} - {x};
    }
  }

  lemma SumUpdate<K, V>(m: map<K, V>, size: (K, V) -> nat, k: K, v: V)
    ensures SumOver(m[k := v], size) == SumOver(m - {k}, size) + size(k, v)
    ensures k !in m ==> SumOver(m - {k}, size) == SumOver(m, size)
  {
    SumWithout(m[k := v], size, k);
    assert m[k := v] - {k} == m - {k};
    if k !in m { assert m - {k} == m; }
  }

  lemma RemoveFromUnion<K, V>(a: map<K, V>, b: map<K, V>, k: K)
    requires a.Keys !! b.Keys && k in b
    ensures k in a + b && (a + b)[k] == b[k] && a + b - {k} == a + (b - {k})
  {
  }

  lemma {:induction false} SumDisjoint<K, V>(a: map<K, V>, b: map<K, V>, size: (K, V) -> nat)
    requires a.Keys !! b.Keys
    ensures SumOver(a + b, size) == SumOver(a, size) + SumOver(b, size)
    decreases |b|
  {
    if b.Keys == {} {
      assert a + b == a;
    } else {
      var k := AnyKey(b);
      RemoveFromUnion(a, b, k);
      SumWithout(a + b, size, k);
      SumDisjoint(a, b - {k}, size);
    }
  }

  // ----- Inserting one map into another -----

  /** The pairs of `fields` whose keys are in `seen` are inserted over `was`. */
  ghost predicate Inserted<K, V>(was: map<K, V>, fields: map<K, V>, seen: set<K>, filled: map<K, V>) {
    seen <= fields.Keys && filled.Keys == was.Keys + seen &&
    forall f :: f in filled ==> filled[f] == if f in seen then fields[f] else was[f]
  }

  lemma InsertOne<K, V>(was: map<K, V>, fields: map<K, V>, seen: set<K>, filled: map<K, V>, f: K)
    requires Inserted(was, fields, seen, filled) && f in fields
    ensures Inserted(was, fields, seen + {f}, filled[f := fields[f]])
  {
  }

  lemma InsertedAll<K, V>(was: map<K, V>, fields: map<K, V>, filled: map<K, V>)
    requires Inserted(was, fields, fields.Keys, filled)
    ensures filled == was + fields
  {
  }

  lemma SizeAfterUpdate<K, V>(m: map<K, V>, k: K, v: V)
    ensures |m[k := v].Keys| == |m.Keys| + if k in m then 0 else 1
  {
    assert m[k := v].Keys == m.Keys + {k};
  }

  lemma SizeOfUnion<K>(a: set<K>, b: set<K>)
    ensures |a + b| == |a| + |b - a|
  {
    assert a + b == a + (b - a);
    assert a !! (b - a);
  }

  /** `was` with the pairs of `fields` named in `order` put in one after the other. */
  ghost function InsertedInOrder<K, V>(was: map<K, V>, fields: map<K, V>, order: seq<K>): map<K, V>
    requires forall k :: k in order ==> k in fields
  {
    if order == [] then was
    else InsertedInOrder(was, fields, order[..|order| - 1])[order[|order| - 1] := fields[order[|order| - 1]]]
  }

  lemma {:induction false} InsertedInAnyOrder<K, V>(was: map<K, V>, fields: map<K, V>, order: seq<K>)
    requires forall k :: k in order ==> k in fields
    ensures Inserted(was, fields, Elements(order), InsertedInOrder(was, fields, order))
  {
    if order != [] {
      var front, last := order[..|order| - 1], order[|order| - 1];
      InsertedInAnyOrder(was, fields, front);
      InsertOne(was, fields, Elements(front), InsertedInOrder(was, fields, front), last);
      assert order == front + [last];
      assert Elements(order) == Elements(front) + {last};
    }
  }

  /** Inserts the pairs in the given order of their keys and counts the keys that were not there. */
  method InsertAll<K(==), V(==)>(was: map<K, V>, fields: map<K, V>, order: seq<K>)
    returns (filled: map<K, V>, added: nat)
    requires forall k :: k in order ==> k in fields
    ensures filled == InsertedInOrder(was, fields, order)
    ensures |filled.Keys| == |was.Keys| + added
  {
    filled, added := was, 0;
    for i := 0 to |order|
      invariant filled == InsertedInOrder(was, fields, order[..i])
      invariant |filled.Keys| == |was.Keys| + added
    {
      var f := order[i];
      SizeAfterUpdate(filled, f, fields[f]);
      assert order[..i + 1][..i] == order[..i];
      if f !in filled {
        added := added + 1;
      }
      filled := filled[f := fields[f]];
    }
    assert order[..|order|] == order;
  }

  lemma InsertionIsUnion<K, V>(was: map<K, V>, fields: map<K, V>, order: seq<K>)
    requires Elements(order) == fields.Keys
    ensures forall k :: k in order ==> k in fields
    ensures InsertedInOrder(was, fields, order) == was + fields
    ensures |(was + fields).Keys| == |was.Keys| + |fields.Keys - was.Keys|
  {
    assert forall k :: k in order ==> k in Elements(order);
    InsertedInAnyOrder(was, fields, order);
    InsertedAll(was, fields, InsertedInOrder(was, fields, order));
    SizeOfUnion(was.Keys, fields.Keys);
  }
}
