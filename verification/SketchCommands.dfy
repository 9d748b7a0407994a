/** PFADD and PFMERGE on the store: what a merge depends on, and that a refused one changes nothing. */
module SketchCommands {
  import opened Basics
  import opened HyperLogLogs
  import opened StoreModel

  /** Every source that counts is a sketch of the given precision. */
  ghost predicate Mergeable(s: Store, precision: nat, destination: string, sources: set<string>) {
    forall k :: k in sources && k != destination && k in s.entries ==>
      s.entries[k].value.Hll? && s.entries[k].value.sketch.precision == precision
  }

  /** The sketches that a merge takes in: those stored under a source other than the destination. */
  ghost function TakenIn(s: Store, destination: string, sources: set<string>): set<Sketch> {
    set k | k in sources && k != destination && k in s.entries && s.entries[k].value.Hll? ::
      s.entries[k].value.sketch
  }

  lemma {:induction false} JoinAllFront(base: Sketch, first: Sketch, rest: seq<Sketch>)
    requires first.precision == base.precision
    requires forall x :: x in rest ==> x.precision == base.precision
    ensures JoinAll(Join(base, first), rest) == JoinAll(base, [first] + rest)
  {
    var all := [first] + rest;
    if rest == [] {
      assert all[..0] == [];
    } else {
      JoinAllFront(base, first, rest[..|rest| - 1]);
      assert all[..|all| - 1] == [first] + rest[..|rest| - 1];
    }
  }

  lemma TakenInAdd(s: Store, destination: string, k: string, sources: set<string>)
    requires k != destination && k in s.entries && s.entries[k].value.Hll?
    ensures TakenIn(s, destination, {k} + sources) == {s.entries[k].value.sketch} + TakenIn(s, destination, sources)
  {
    assert k in {k} + sources;
    assert forall j :: j in sources ==> j in {k} + sources;
  }

  /** A merge succeeds exactly when all its sources fit, and then joins the base with their sketches. */
  lemma {:induction false} MergeSourcesMeaning(s: Store, base: Sketch, destination: string, sources: seq<string>)
    returns (taken: seq<Sketch>)
    ensures MergeSources(s, base, destination, sources).Ok? <==>
            Mergeable(s, base.precision, destination, Elements(sources))
    ensures forall x :: x in taken ==> x.precision == base.precision
    ensures MergeSources(s, base, destination, sources).Ok? ==>
              Elements(taken) == TakenIn(s, destination, Elements(sources)) &&
              MergeSources(s, base, destination, sources).value == JoinAll(base, taken)
    decreases |sources|
  {
    taken := [];
    if sources == [] {
      assert Elements(sources) == {};
      assert TakenIn(s, destination, {}) == {};
      assert Elements(taken) == {};
    } else {
      hide JoinAll, Join;
      var k, rest := sources[0], sources[1..];
      assert sources == [k] + rest;
      assert Elements(sources) == {k} + Elements(rest);
      if k == destination || k !in s.entries {
        taken := MergeSourcesMeaning(s, base, destination, rest);
        assert TakenIn(s, destination, Elements(sources)) == TakenIn(s, destination, Elements(rest));
      } else if s.entries[k].value.Hll? && s.entries[k].value.sketch.precision == base.precision {
        var first := s.entries[k].value.sketch;
        var more := MergeSourcesMeaning(s, Join(base, first), destination, rest);
        JoinAllFront(base, first, more);
        taken := [first] + more;
        assert Elements(taken) == {first} + Elements(more);
        TakenInAdd(s, destination, k, Elements(rest));
      } else {
        assert k in Elements(sources);
      }
    }
  }

  ghost predicate SourceFits(s: Store, precision: nat, destination: string, source: string) {
    source == destination || source !in s.entries ||
    (s.entries[source].value.Hll? && s.entries[source].value.sketch.precision == precision)
  }

  /** A merge that fails says what is wrong with the first source that does not fit. */
  lemma {:induction false} MergeNamesFirstMisfit(s: Store, base: Sketch, destination: string, sources: seq<string>)
    returns (i: nat)
    requires MergeSources(s, base, destination, sources).Err?
    ensures i < |sources| && !SourceFits(s, base.precision, destination, sources[i])
    ensures forall j :: 0 <= j < i ==> SourceFits(s, base.precision, destination, sources[j])
    ensures MergeSources(s, base, destination, sources).error ==
            if s.entries[sources[i]].value.Hll? then InvalidValue
            else TypeMismatch(sources[i], "HyperLogLog", TypeName(s.entries[sources[i]].value))
    decreases |sources|
  {
    hide Join;
    i := 0;
    if SourceFits(s, base.precision, destination, sources[0]) {
      var next := if sources[0] == destination || sources[0] !in s.entries then base
                  else Join(base, s.entries[sources[0]].value.sketch);
      i := MergeNamesFirstMisfit(s, next, destination, sources[1..]);
      i := i + 1;
      assert forall j :: 0 < j < i ==> sources[j] == sources[1..][j - 1];
    }
  }

  /** Only the set of sources matters to what PFMERGE leaves, errors included, and naming the
      destination as a source makes no difference. */
  lemma MergeDependsOnSourceSet(s: Store, destination: string, xs: seq<string>, ys: seq<string>)
    requires xs != [] && ys != []
    requires Elements(xs) - {destination} == Elements(ys) - {destination}
    ensures PfMerge(s, destination, xs).store == PfMerge(s, destination, ys).store
    ensures PfMerge(s, destination, xs).reply.Ok? <==> PfMerge(s, destination, ys).reply.Ok?
    ensures PfMerge(s, destination, xs).reply.Ok? ==>
            PfMerge(s, destination, xs).reply == PfMerge(s, destination, ys).reply
  {
    if destination !in s.entries || s.entries[destination].value.Hll? {
      var base := if destination in s.entries then s.entries[destination].value.sketch
                  else EmptySketch(DEFAULT_PRECISION);
      var tx := MergeSourcesMeaning(s, base, destination, xs);
      var ty := MergeSourcesMeaning(s, base, destination, ys);
      assert forall k :: k != destination ==>
               (k in Elements(xs) <==> k in Elements(xs) - {destination}) &&
               (k in Elements(ys) <==> k in Elements(ys) - {destination});
      if MergeSources(s, base, destination, xs).Ok? {
        assert TakenIn(s, destination, Elements(xs)) == TakenIn(s, destination, Elements(ys));
        assert Elements(tx) == Elements(ty);
        JoinAllDependsOnSetOnly(base, tx, ty);
      }
    }
  }

  /** A sketch command that fails leaves the store as it was. */
  lemma RefusedSketchCommandChangesNothing(s: Store, key: string, hashes: seq<U64>, sources: seq<string>,
                                           precision: nat)
    ensures PfAdd(s, key, hashes).reply.Err? ==> PfAdd(s, key, hashes).store == s
    ensures PfMerge(s, key, sources).reply.Err? ==> PfMerge(s, key, sources).store == s
    ensures PfReserve(s, key, precision).reply.Err? ==> PfReserve(s, key, precision).store == s
  {
  }

  lemma {:induction false} AddHashesAppend(s: Sketch, xs: seq<U64>, ys: seq<U64>)
    ensures AddHashes(s, xs + ys) == AddHashes(AddHashes(s, xs), ys)
  {
    hide AddHash;
    if ys == [] {
      assert xs + ys == xs;
    } else {
      AddHashesAppend(s, xs, ys[..|ys| - 1]);
      assert (xs + ys)[..|xs + ys| - 1] == xs + ys[..|ys| - 1];
    }
  }

  /** The sketch that PFADD adds to. */
  ghost function SketchAt(s: Store, key: string): Sketch {
    if key in s.entries && s.entries[key].value.Hll? then s.entries[key].value.sketch
    else EmptySketch(DEFAULT_PRECISION)
  }

  ghost predicate CanAdd(s: Store, key: string) {
    KeyError(s.config, key).None? && (key in s.entries ==> s.entries[key].value.Hll?)
  }

  lemma PfAddMeaning(s: Store, key: string, hashes: seq<U64>)
    requires CanAdd(s, key) && hashes != []
    ensures var after := PfAdd(s, key, hashes); var sum := AddHashes(SketchAt(s, key), hashes);
            after.reply == Ok(sum) && CanAdd(after.store, key) && SketchAt(after.store, key) == sum
    ensures PfAdd(s, key, hashes).store.entries - {key} == s.entries - {key}
  {
  }

  /** PFMERGE answers exactly when its destination can hold a sketch and its sources fit. Then the answer
      joins what the destination held with the sources' sketches; that is what it holds afterwards, without
      expiry, and no other key changes. */
  lemma PfMergeMeaning(s: Store, destination: string, sources: seq<string>) returns (taken: seq<Sketch>)
    ensures var base := SketchAt(s, destination); var merge := PfMerge(s, destination, sources);
            && (forall x :: x in taken ==> x.precision == base.precision)
            && (merge.reply.Ok? <==> CanAdd(s, destination) && sources != [] &&
                                     Mergeable(s, base.precision, destination, Elements(sources)))
            && (merge.reply.Ok? ==>
                  && Elements(taken) == TakenIn(s, destination, Elements(sources))
                  && merge.reply == Ok(JoinAll(base, taken))
                  && destination in merge.store.entries
                  && merge.store.entries[destination] == Entry(Hll(JoinAll(base, taken)), None)
                  && merge.store.entries - {destination} == s.entries - {destination})
  {
    hide JoinAll, MergeSources, TakenIn, Mergeable;
    taken := MergeSourcesMeaning(s, SketchAt(s, destination), destination, sources);
  }

  /** PFRESERVE makes exactly a missing key with a valid name into an empty sketch, of the precision asked for
      or of the nearest one between 4 and 16, without expiry. */
  lemma PfReserveMeaning(s: Store, key: string, precision: nat)
    ensures var reserve := PfReserve(s, key, precision); var t := reserve.store;
            && (reserve.reply == Ok(()) <==> KeyError(s.config, key).None? && key !in s.entries)
            && (reserve.reply.Ok? ==>
                  && key in t.entries && t.entries[key].expiresAt.None? && t.entries[key].value.Hll?
                  && t.entries[key].value.sketch.precision
                     == (if precision < 4 then 4 else if precision > 16 then 16 else precision)
                  && (forall r :: r in t.entries[key].value.sketch.registers ==> r == 0)
                  && t.entries - {key} == s.entries - {key})
  {
    hide KeyError;
  }

  lemma NewSketchAdds(s: Store, key: string, hash: string -> U64, values: seq<string>)
    requires KeyError(s.config, key).None? && key !in s.entries && values != []
    ensures var t := PfAdd(s, key, Hashed(hash, values)).store;
            && t.config == s.config && t.entries - {key} == s.entries - {key} && key in t.entries
            && t.entries[key].value == Hll(SketchOf(DEFAULT_PRECISION, hash, values))
  {
    hide AddHashes;
    PfAddMeaning(s, key, Hashed(hash, values));
  }

  /** Two new keys, a merge of them into a third: the answer is the sketch of all the values. */
  lemma MergeOfAddsIsUnion(s: Store, hash: string -> U64, a: string, xs: seq<string>, b: string, ys: seq<string>,
                           d: string)
    requires a != b && b != d && a != d && a !in s.entries && b !in s.entries && d !in s.entries
    requires KeyError(s.config, a).None? && KeyError(s.config, b).None? && KeyError(s.config, d).None?
    requires xs != [] && ys != []
    ensures var t := PfAdd(PfAdd(s, a, Hashed(hash, xs)).store, b, Hashed(hash, ys)).store;
            PfMerge(t, d, [a, b]).reply == Ok(SketchOf(DEFAULT_PRECISION, hash, xs + ys))
  {
    hide PfAdd, PfMerge, SketchOf, Hashed;
    var s1 := PfAdd(s, a, Hashed(hash, xs)).store;
    var s2 := PfAdd(s1, b, Hashed(hash, ys)).store;
    NewSketchAdds(s, a, hash, xs);
    OtherEntry(s, s1, a, b);
    OtherEntry(s, s1, a, d);
    NewSketchAdds(s1, b, hash, ys);
    OtherEntry(s1, s2, b, a);
    OtherEntry(s1, s2, b, d);
    DefaultPrecision(hash, xs);
    DefaultPrecision(hash, ys);
    MergeOfTwo(s2, d, a, b, SketchOf(DEFAULT_PRECISION, hash, xs), SketchOf(DEFAULT_PRECISION, hash, ys));
    EmptySketchIsSketchOfNothing(hash);
    MergeIsSketchOfUnion(DEFAULT_PRECISION, hash, [], xs);
    MergeIsSketchOfUnion(DEFAULT_PRECISION, hash, xs, ys);
    assert [] + xs == xs;
  }

  lemma OtherEntry(s: Store, t: Store, key: string, other: string)
    requires t.entries - {key} == s.entries - {key} && other != key
    ensures other in t.entries <==> other in s.entries
    ensures other in s.entries ==> t.entries[other] == s.entries[other]
  {
    assert other in t.entries - {key} <==> other in s.entries - {key};
    if other in s.entries { assert (t.entries - {key})[other] == (s.entries - {key})[other]; }
  }

  lemma EmptySketchIsSketchOfNothing(hash: string -> U64)
    ensures SketchOf(DEFAULT_PRECISION, hash, []) == EmptySketch(DEFAULT_PRECISION)
  {
    assert Hashed(hash, []) == [];
  }

  lemma MergeOfTwo(s: Store, d: string, a: string, b: string, x: Sketch, y: Sketch)
    requires d !in s.entries && KeyError(s.config, d).None? && a != d && b != d
    requires a in s.entries && s.entries[a].value == Hll(x) && b in s.entries && s.entries[b].value == Hll(y)
    requires x.precision == y.precision == DEFAULT_PRECISION
    ensures PfMerge(s, d, [a, b]).reply == Ok(Join(Join(EmptySketch(DEFAULT_PRECISION), x), y))
  {
    hide Join, JoinAll;
    var taken := PfMergeMeaning(s, d, [a, b]);
    var base, two := EmptySketch(DEFAULT_PRECISION), [x, y];
    assert Elements([a, b]) == {a, b};
    assert TakenIn(s, d, {a, b}) == {x, y} == Elements(two);
    JoinAllDependsOnSetOnly(base, taken, two);
    JoinTwo(base, x, y);
  }

  lemma JoinTwo(base: Sketch, x: Sketch, y: Sketch)
    requires x.precision == base.precision && y.precision == base.precision
    ensures JoinAll(base, [x, y]) == Join(Join(base, x), y)
  {
    hide Join;
    JoinOne(base, x);
    var both := [x, y];
    assert both[..|both| - 1] == [x] && both[|both| - 1] == y;
  }

  lemma JoinOne(base: Sketch, x: Sketch)
    requires x.precision == base.precision
    ensures JoinAll(base, [x]) == Join(base, x)
  {
    hide Join;
    assert [x][..0] == [];
  }

  lemma DefaultPrecision(hash: string -> U64, values: seq<string>)
    ensures SketchOf(DEFAULT_PRECISION, hash, values).precision == DEFAULT_PRECISION
  {
    hide AddHashes;
  }

  /** Adding in two commands is adding in one. */
  lemma SplitAddsAgree(s: Store, key: string, xs: seq<U64>, ys: seq<U64>)
    requires CanAdd(s, key) && xs != [] && ys != []
    ensures PfAdd(PfAdd(s, key, xs).store, key, ys).reply == PfAdd(s, key, xs + ys).reply
  {
    PfAddMeaning(s, key, xs);
    PfAddMeaning(PfAdd(s, key, xs).store, key, ys);
    PfAddMeaning(s, key, xs + ys);
    AddHashesAppend(SketchAt(s, key), xs, ys);
  }
}
