/** The glob matcher behind KEYS: `*` stands for any run of characters, `?` for one character, and
    every other pattern character for itself. */
module Glob {
  import opened Basics

  // ----- Declarative meaning -----

  predicate SymbolMatches(symbol: char, piece: string) {
    if symbol == '*' then true
    else |piece| == 1 && (symbol == '?' || symbol == piece[0])
  }

  function Concat(pieces: seq<string>): string {
    if pieces == [] then "" else pieces[0] + Concat(pieces[1..])
  }

  /** `pieces` cuts the text into one piece per pattern symbol, each matched by its symbol. */
  predicate Cuts(pieces: seq<string>, text: string, pattern: string) {
    |pieces| == |pattern| && Concat(pieces) == text &&
    forall i :: 0 <= i < |pattern| ==> SymbolMatches(pattern[i], pieces[i])
  }

  ghost predicate Matches(text: string, pattern: string) {
    exists pieces :: Cuts(pieces, text, pattern)
  }

  // ----- The matcher -----

  /** The recursion on a text position and a pattern position. */
  predicate MatchFrom(text: string, pattern: string, ti: nat, pi: nat)
    requires ti <= |text| && pi <= |pattern|
    decreases |pattern| - pi
  {
    if pi == |pattern| then ti == |text|
    else
      var next := pi + 1;
      if pattern[pi] == '*' then exists i :: ti <= i <= |text| && MatchFrom(text, pattern, i, next)
      else ti < |text| && (pattern[pi] == '?' || pattern[pi] == text[ti]) && MatchFrom(text, pattern, ti + 1, next)
  }

  predicate MatchesGlob(text: string, pattern: string) {
    MatchFrom(text, pattern, 0, 0)
  }

  /** The recursion as the code runs it: a loop over the possible ends of a `*`, left early on success. */
  method MatchRecursive(text: string, pattern: string, ti: nat, pi: nat) returns (matched: bool)
    requires ti <= |text| && pi <= |pattern|
    ensures matched <==> Matches(text[ti..], pattern[pi..])
    decreases |pattern| - pi
  {
    MatchFromMeaning(text, pattern, ti, pi);
    if pi == |pattern| {
      return ti == |text|;
    }
    var next := pi + 1;
    if pattern[pi] == '*' {
      for i := ti to |text| + 1
        invariant forall j :: ti <= j < i ==> !MatchFrom(text, pattern, j, next)
      {
        var rest := MatchRecursive(text, pattern, i, next);
        MatchFromMeaning(text, pattern, i, next);
        if rest {
          return true;
        }
      }
      return false;
    } else if ti < |text| && (pattern[pi] == '?' || pattern[pi] == text[ti]) {
      matched := MatchRecursive(text, pattern, ti + 1, next);
      MatchFromMeaning(text, pattern, ti + 1, next);
    } else {
      return false;
    }
  }

  // ----- Cutting and joining -----

  lemma {:induction false} ConcatAppend(xs: seq<string>, ys: seq<string>)
    ensures Concat(xs + ys) == Concat(xs) + Concat(ys)
  {
    if xs == [] {
      assert xs + ys == ys;
    } else {
      assert (xs + ys)[1..] == xs[1..] + ys;
      ConcatAppend(xs[1..], ys);
    }
  }

  lemma MatchesFirst(text: string, pattern: string, n: nat)
    requires pattern != "" && n <= |text|
    requires SymbolMatches(pattern[0], text[..n]) && Matches(text[n..], pattern[1..])
    ensures Matches(text, pattern)
  {
    var rest :| Cuts(rest, text[n..], pattern[1..]);
    var pieces := [text[..n]] + rest;
    assert pieces[1..] == rest;
    assert text == text[..n] + text[n..];
    assert Cuts(pieces, text, pattern);
  }

  lemma FirstOfMatch(text: string, pattern: string) returns (n: nat)
    requires pattern != "" && Matches(text, pattern)
    ensures n <= |text| && SymbolMatches(pattern[0], text[..n]) && Matches(text[n..], pattern[1..])
  {
    var pieces :| Cuts(pieces, text, pattern);
    n := |pieces[0]|;
    assert text[..n] == pieces[0] && text[n..] == Concat(pieces[1..]);
    assert Cuts(pieces[1..], text[n..], pattern[1..]);
  }

  /** Where a leading `*` can end for the rest of the pattern to match. */
  ghost function StarEnd(text: string, pattern: string, ti: nat, pi: nat): (i: nat)
    requires ti <= |text| && pi < |pattern| && pattern[pi] == '*' && MatchFrom(text, pattern, ti, pi)
    ensures ti <= i <= |text| && MatchFrom(text, pattern, i, pi + 1)
  {
    var next := pi + 1;
    var i :| ti <= i <= |text| && MatchFrom(text, pattern, i, next);
    i
  }

  /** The matcher decides exactly the declarative meaning, from every pair of positions. */
  lemma {:induction false} MatchFromMeaning(text: string, pattern: string, ti: nat, pi: nat)
    requires ti <= |text| && pi <= |pattern|
    ensures MatchFrom(text, pattern, ti, pi) <==> Matches(text[ti..], pattern[pi..])
    decreases |pattern| - pi
  {
    var t, p := text[ti..], pattern[pi..];
    if pi == |pattern| {
      assert Matches(t, p) ==> t == "";
      if t == "" { assert Cuts([], t, p); }
    } else {
      assert p[1..] == pattern[pi + 1..] && p[0] == pattern[pi];
      forall n: nat | n <= |t|
        ensures MatchFrom(text, pattern, ti + n, pi + 1) <==> Matches(t[n..], p[1..])
      {
        assert t[n..] == text[ti + n..];
        MatchFromMeaning(text, pattern, ti + n, pi + 1);
      }
      if Matches(t, p) {
        var n := FirstOfMatch(t, p);
        assert MatchFrom(text, pattern, ti + n, pi + 1);
      }
      if MatchFrom(text, pattern, ti, pi) {
        var n := if pattern[pi] == '*' then StarEnd(text, pattern, ti, pi) - ti else 1;
        assert MatchFrom(text, pattern, ti + n, pi + 1);
        MatchesFirst(t, p, n);
      }
    }
  }

  lemma GlobMeaning(text: string, pattern: string)
    ensures MatchesGlob(text, pattern) <==> Matches(text, pattern)
  {
    MatchFromMeaning(text, pattern, 0, 0);
    assert text[0..] == text && pattern[0..] == pattern;
  }

  // ----- Laws -----

  /** A pattern in two parts matches exactly the texts that split into a match of each part. */
  lemma ConcatenationLaw(text: string, p1: string, p2: string)
    ensures MatchesGlob(text, p1 + p2) <==>
            exists k :: 0 <= k <= |text| && MatchesGlob(text[..k], p1) && MatchesGlob(text[k..], p2)
  {
    GlobMeaning(text, p1 + p2);
    if MatchesGlob(text, p1 + p2) {
      var pieces :| Cuts(pieces, text, p1 + p2);
      var a, b := pieces[..|p1|], pieces[|p1|..];
      assert pieces == a + b;
      ConcatAppend(a, b);
      var k := |Concat(a)|;
      assert text[..k] == Concat(a) && text[k..] == Concat(b);
      assert Cuts(a, text[..k], p1) && Cuts(b, text[k..], p2);
      GlobMeaning(text[..k], p1);
      GlobMeaning(text[k..], p2);
    }
    if k :| 0 <= k <= |text| && MatchesGlob(text[..k], p1) && MatchesGlob(text[k..], p2) {
      GlobMeaning(text[..k], p1);
      GlobMeaning(text[k..], p2);
      var a :| Cuts(a, text[..k], p1);
      var b :| Cuts(b, text[k..], p2);
      ConcatAppend(a, b);
      assert text == text[..k] + text[k..];
      assert Cuts(a + b, text, p1 + p2);
    }
  }

  function ReversedPieces(pieces: seq<string>): seq<string> {
    if pieces == [] then [] else ReversedPieces(pieces[1..]) + [Reversed(pieces[0])]
  }

  lemma {:induction false} ReversedCuts(pieces: seq<string>, text: string, pattern: string)
    requires Cuts(pieces, text, pattern)
    ensures Cuts(ReversedPieces(pieces), Reversed(text), Reversed(pattern))
  {
    if pieces != [] {
      var rest := Concat(pieces[1..]);
      ReversedCuts(pieces[1..], rest, pattern[1..]);
      ReversedAppend(pieces[0], rest);
      ConcatAppend(ReversedPieces(pieces[1..]), [Reversed(pieces[0])]);
      assert Concat([Reversed(pieces[0])]) == Reversed(pieces[0]);
      ReversedTwice(pattern[1..]);
      ReversedTwice(pieces[0]);
      assert |pieces[0]| == 1 ==> Reversed(pieces[0]) == pieces[0];
    }
  }

  /** Matching reads the same in both directions. */
  lemma ReversalLaw(text: string, pattern: string)
    ensures MatchesGlob(Reversed(text), Reversed(pattern)) <==> MatchesGlob(text, pattern)
  {
    GlobMeaning(text, pattern);
    GlobMeaning(Reversed(text), Reversed(pattern));
    ReversedTwice(text);
    ReversedTwice(pattern);
    if pieces :| Cuts(pieces, text, pattern) {
      ReversedCuts(pieces, text, pattern);
    }
    if pieces :| Cuts(pieces, Reversed(text), Reversed(pattern)) {
      ReversedCuts(pieces, Reversed(text), Reversed(pattern));
    }
  }

  lemma StarMatchesEverything(text: string)
    ensures MatchesGlob(text, "*")
  {
    GlobMeaning(text, "*");
    assert Concat([text]) == text;
    assert Cuts([text], text, "*");
  }
}
