/**
 Bracket balance of a token word, measured by running sums: every opening
 bracket adds one, the closer subtracts one, any other token leaves the sum
 alone.  A word is well nested up to `depth` when its sum ends at zero, never
 goes negative and never exceeds `depth`.
 */
module Nesting {
  import opened Automata

  function Max(a: int, b: int): (m: int) { if a >= b then a else b }

  function Min(a: int, b: int): (m: int) { if a <= b then a else b }

  /** What one token does to the running sum. */
  function Step(t: Token, opens: set<Token>, close: Token): (d: int)
  {
    if t in opens then 1 else if t == close then -1 else 0
  }

  /** The final running sum: openers minus closers. */
  function Net(w: seq<Token>, opens: set<Token>, close: Token): (n: int)
    decreases |w|
  {
    if w == [] then 0 else Step(w[0], opens, close) + Net(w[1..], opens, close)
  }

  /** The deepest nesting reached: the largest running sum over all prefixes. */
  function Peak(w: seq<Token>, opens: set<Token>, close: Token): (p: nat)
    decreases |w|
  {
    if w == [] then 0
    else
      var p := Step(w[0], opens, close) + Peak(w[1..], opens, close);
      if p > 0 then p else 0
  }

  /** The smallest running sum over all prefixes; below zero when a closer comes too early. */
  function Low(w: seq<Token>, opens: set<Token>, close: Token): (lo: int)
    ensures lo <= 0
    decreases |w|
  {
    if w == [] then 0
    else
      var m := Step(w[0], opens, close) + Low(w[1..], opens, close);
      if m < 0 then m else 0
  }

  predicate WellNested(w: seq<Token>, opens: set<Token>, close: Token, depth: int)
  {
    Net(w, opens, close) == 0 && Low(w, opens, close) == 0 && Peak(w, opens, close) <= depth
  }

  /** A token that is neither an opener nor the closer. */
  predicate Neutral(t: Token, opens: set<Token>, close: Token)
  {
    t !in opens && t != close
  }

  /** How the three measures of a concatenation follow from those of its parts. */
  lemma {:induction false} Append(u: seq<Token>, v: seq<Token>, opens: set<Token>, close: Token)
    ensures Net(u + v, opens, close) == Net(u, opens, close) + Net(v, opens, close)
    ensures Peak(u + v, opens, close) == Max(Peak(u, opens, close), Net(u, opens, close) + Peak(v, opens, close))
    ensures Low(u + v, opens, close) == Min(Low(u, opens, close), Net(u, opens, close) + Low(v, opens, close))
    decreases |u|
  {
    if u == [] {
      assert u + v == v;
    } else {
      assert (u + v)[0] == u[0];
      assert (u + v)[1..] == u[1..] + v;
      Append(u[1..], v, opens, close);
    }
  }

  lemma WellNestedCat(u: seq<Token>, v: seq<Token>, opens: set<Token>, close: Token, depth: int)
    requires WellNested(u, opens, close, depth) && WellNested(v, opens, close, depth)
    ensures WellNested(u + v, opens, close, depth)
  {
    Append(u, v, opens, close);
  }

  /** Wrapping a word nested up to `depth` in an opener and the closer nests it up to `depth + 1`. */
  lemma WellNestedBracket(o: Token, m: seq<Token>, opens: set<Token>, close: Token, depth: int)
    requires o in opens && close !in opens
    requires WellNested(m, opens, close, depth)
    ensures WellNested([o] + m + [close], opens, close, depth + 1)
    ensures Peak([o] + m + [close], opens, close) == Peak(m, opens, close) + 1
  {
    Append(m, [close], opens, close);
    assert ([close])[1..] == [];
    assert ([o] + (m + [close]))[1..] == m + [close];
    assert [o] + m + [close] == [o] + (m + [close]);
  }

  lemma WellNestedNeutral(t: Token, opens: set<Token>, close: Token)
    requires Neutral(t, opens, close)
    ensures WellNested([t], opens, close, 0)
  {
    assert ([t])[1..] == [];
  }

  /** Joining well-nested words with a neutral separator keeps them well nested. */
  lemma {:induction false} JoinNested(ps: seq<seq<Token>>, sep: Token, opens: set<Token>, close: Token, depth: int)
    requires |ps| >= 1 && Neutral(sep, opens, close) && depth >= 0
    requires forall k :: 0 <= k < |ps| ==> WellNested(ps[k], opens, close, depth)
    ensures WellNested(Join(ps, sep), opens, close, depth)
    decreases |ps|
  {
    if |ps| > 1 {
      var rest := ps[1..];
      assert forall k :: 0 <= k < |rest| ==> rest[k] == ps[k + 1];
      JoinNested(rest, sep, opens, close, depth);
      WellNestedNeutral(sep, opens, close);
      WellNestedCat([sep], Join(rest, sep), opens, close, depth);
      WellNestedCat(ps[0], [sep] + Join(rest, sep), opens, close, depth);
      JoinCons(ps, sep);
    }
  }

  /** The deepest nesting is at least the running sum after any prefix. */
  lemma PeakAtLeast(u: seq<Token>, v: seq<Token>, opens: set<Token>, close: Token)
    ensures Peak(u + v, opens, close) >= Net(u, opens, close)
  {
    Append(u, v, opens, close);
  }

  /*** Which bracket each closer closes ***/

  /**
   What one token does to the brackets open so far, innermost last: an opener
   is pushed, and the closer closes the innermost open bracket.
   */
  function Push(t: Token, s: seq<Token>, opens: set<Token>, close: Token): (r: seq<Token>)
  {
    if t in opens then s + [t] else if t == close && |s| > 0 then s[..|s| - 1] else s
  }

  /** The brackets open after reading `w`, starting with `s` open. */
  function Stack(w: seq<Token>, s: seq<Token>, opens: set<Token>, close: Token): (r: seq<Token>)
    decreases |w|
  {
    if w == [] then s else Stack(w[1..], Push(w[0], s, opens, close), opens, close)
  }

  function Count(s: seq<Token>, f: Token): (n: nat)
  {
    multiset(s)[f]
  }

  /** The largest number of brackets `f` open at once while reading `w`, starting with `s` open. */
  function Deepest(w: seq<Token>, s: seq<Token>, opens: set<Token>, close: Token, f: Token): (d: nat)
    decreases |w|
  {
    if w == [] then Count(s, f)
    else Max(Count(s, f), Deepest(w[1..], Push(w[0], s, opens, close), opens, close, f))
  }

  lemma DeepestAtLeast(w: seq<Token>, s: seq<Token>, opens: set<Token>, close: Token, f: Token)
    ensures Deepest(w, s, opens, close, f) >= Count(s, f)
  {
  }

  /** Reading a concatenation reads the second part from where the first one left the brackets. */
  lemma {:induction false} StackAppend(u: seq<Token>, v: seq<Token>, s: seq<Token>, opens: set<Token>, close: Token, f: Token)
    ensures Stack(u + v, s, opens, close) == Stack(v, Stack(u, s, opens, close), opens, close)
    ensures Deepest(u + v, s, opens, close, f)
         == Max(Deepest(u, s, opens, close, f), Deepest(v, Stack(u, s, opens, close), opens, close, f))
    decreases |u|
  {
    if u == [] {
      assert u + v == v;
      DeepestAtLeast(v, s, opens, close, f);
    } else {
      assert (u + v)[0] == u[0];
      assert (u + v)[1..] == u[1..] + v;
      StackAppend(u[1..], v, Push(u[0], s, opens, close), opens, close, f);
    }
  }

  lemma PushShift(a: Token, s: seq<Token>, t: seq<Token>, opens: set<Token>, close: Token)
    requires a !in opens && a == close ==> |t| >= 1
    ensures Push(a, s + t, opens, close) == s + Push(a, t, opens, close)
    ensures |Push(a, t, opens, close)| == |t| + Step(a, opens, close)
  {
    if a in opens {
      assert s + t + [a] == s + (t + [a]);
    } else if a == close {
      assert (s + t)[..|s + t| - 1] == s + t[..|t| - 1];
    }
  }

  /**
   Brackets open below the ones a word touches stay open and untouched: as
   long as `w` never closes more than `t` holds, reading it on top of `s`
   leaves `s` in place.
   */
  lemma {:induction false} StackShift(w: seq<Token>, s: seq<Token>, t: seq<Token>, opens: set<Token>, close: Token, f: Token)
    requires |t| + Low(w, opens, close) >= 0
    ensures Stack(w, s + t, opens, close) == s + Stack(w, t, opens, close)
    ensures |Stack(w, t, opens, close)| == |t| + Net(w, opens, close)
    ensures Deepest(w, s + t, opens, close, f) == Count(s, f) + Deepest(w, t, opens, close, f)
    decreases |w|
  {
    if w != [] {
      var t' := Push(w[0], t, opens, close);
      PushShift(w[0], s, t, opens, close);
      StackShift(w[1..], s, t', opens, close, f);
      assert multiset(s + t) == multiset(s) + multiset(t);
    }
  }

  /** A balanced word leaves the open brackets as it found them and adds its own depth on top. */
  lemma Balanced(w: seq<Token>, s: seq<Token>, opens: set<Token>, close: Token, f: Token)
    requires Net(w, opens, close) == 0 && Low(w, opens, close) == 0
    ensures Stack(w, s, opens, close) == s
    ensures Deepest(w, s, opens, close, f) == Count(s, f) + Deepest(w, [], opens, close, f)
  {
    StackShift(w, s, [], opens, close, f);
    assert s + [] == s;
  }

  lemma NeutralDeepest(t: Token, w: seq<Token>, s: seq<Token>, opens: set<Token>, close: Token, f: Token)
    requires Neutral(t, opens, close)
    ensures Stack([t] + w, s, opens, close) == Stack(w, s, opens, close)
    ensures Deepest([t] + w, s, opens, close, f) == Deepest(w, s, opens, close, f)
  {
    assert ([t] + w)[1..] == w;
    DeepestAtLeast(w, s, opens, close, f);
  }

  lemma NeutralAlone(t: Token, opens: set<Token>, close: Token, f: Token)
    requires Neutral(t, opens, close)
    ensures Deepest([t], [], opens, close, f) == 0
  {
    assert [t] == [t] + [];
    NeutralDeepest(t, [], [], opens, close, f);
  }

  /** Wrapping a balanced word in an opener and the closer opens one more bracket of the opener's kind. */
  lemma BracketDeepest(o: Token, m: seq<Token>, opens: set<Token>, close: Token, f: Token)
    requires o in opens && close !in opens
    requires Net(m, opens, close) == 0 && Low(m, opens, close) == 0
    ensures Deepest([o] + m + [close], [], opens, close, f) == Count([o], f) + Deepest(m, [], opens, close, f)
  {
    var rest := m + [close];
    assert [o] + m + [close] == [o] + rest;
    assert ([o] + rest)[0] == o && ([o] + rest)[1..] == rest;
    assert Push(o, [], opens, close) == [o];
    StackAppend(m, [close], [o], opens, close, f);
    Balanced(m, [o], opens, close, f);
    assert [close][1..] == [];
    assert Push(close, [o], opens, close) == [];
  }

  /** Joining balanced words with a neutral separator opens no more brackets `f` at once than the deepest word. */
  lemma {:induction false} JoinDeepest(ps: seq<seq<Token>>, sep: Token, opens: set<Token>, close: Token, f: Token, k: int)
    requires |ps| >= 1 && Neutral(sep, opens, close)
    requires forall i :: 0 <= i < |ps| ==>
      Net(ps[i], opens, close) == 0 && Low(ps[i], opens, close) == 0 && Deepest(ps[i], [], opens, close, f) <= k
    ensures Deepest(Join(ps, sep), [], opens, close, f) <= k
    decreases |ps|
  {
    if |ps| > 1 {
      var rest := ps[1..];
      assert forall i :: 0 <= i < |rest| ==> rest[i] == ps[i + 1];
      JoinDeepest(rest, sep, opens, close, f, k);
      JoinCons(ps, sep);
      StackAppend(ps[0], [sep] + Join(rest, sep), [], opens, close, f);
      Balanced(ps[0], [], opens, close, f);
      NeutralDeepest(sep, Join(rest, sep), [], opens, close, f);
    }
  }

  /** Some prefix of `u + v` leaves the brackets `u` leaves open. */
  lemma DeepestAtLeastPrefix(u: seq<Token>, v: seq<Token>, s: seq<Token>, opens: set<Token>, close: Token, f: Token)
    ensures Deepest(u + v, s, opens, close, f) >= Count(Stack(u, s, opens, close), f)
  {
    StackAppend(u, v, s, opens, close, f);
    DeepestAtLeast(v, Stack(u, s, opens, close), opens, close, f);
  }

  lemma TwoOpen(a: Token, opens: set<Token>, close: Token)
    requires a in opens
    ensures Count(Stack([a, a], [], opens, close), a) == 2
  {
    assert [a, a][1..] == [a];
    assert [a][1..] == [];
    assert Push(a, [], opens, close) == [a];
    assert Push(a, [a], opens, close) == [a, a];
    assert Stack([a, a], [], opens, close) == Stack([a], [a], opens, close) == [a, a];
    assert multiset([a, a])[a] == 2;
  }
}
