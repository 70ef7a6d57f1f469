/**
 The automata that the compiler composes, modelled by their languages.

 A `Regex` stands for one `CompactDFA<String>` built by the automaton algebra:
 `Tok` is an atomic lexeme automaton accepting a single token, and `Cat`, `Alt`,
 `Star` and `Plus` are the results of `concatenateAutomata`, `dfaUnion`,
 `kleeneStar` and `kleeneOneOrMore`.  `Matches` gives each its standard
 language; the state layout and determinisation of the real automata are not
 modelled.
 */
module Automata {

  /** A terminal symbol of the automata's alphabet. */
  type Token = string

  datatype Regex =
    | Tok(token: Token)
    | Cat(left: Regex, right: Regex)
    | Alt(left: Regex, right: Regex)
    | Star(body: Regex)
    | Plus(body: Regex)

  /**
   The language of a regular expression.  A starred word is split into
   non-empty chunks; a word of `Plus(x)` is one word of `x`, or a non-empty
   word of `x` followed by a non-empty word of `Plus(x)`.
   */
  ghost predicate Matches(r: Regex, w: seq<Token>)
    decreases r, |w|
  {
    match r
    case Tok(t) => w == [t]
    case Cat(x, y) =>
      exists u, v {:trigger Matches(x, u), Matches(y, v)} :: w == u + v && Matches(x, u) && Matches(y, v)
    case Alt(x, y) => Matches(x, w) || Matches(y, w)
    case Star(x) =>
      w == [] || exists u, v {:trigger Matches(x, u), Matches(Star(x), v)} ::
        w == u + v && u != [] && Matches(x, u) && Matches(Star(x), v)
    case Plus(x) =>
      Matches(x, w) || exists u, v {:trigger Matches(x, u), Matches(Plus(x), v)} ::
        w == u + v && u != [] && v != [] && Matches(x, u) && Matches(Plus(x), v)
  }

  /** Every token of `w` is one of `ts`. */
  predicate Over(w: seq<Token>, ts: set<Token>)
  {
    forall k :: 0 <= k < |w| ==> w[k] in ts
  }

  /** Every word of `ps` is in the language of `x`. */
  ghost predicate AllMatch(x: Regex, ps: seq<seq<Token>>)
  {
    forall k :: 0 <= k < |ps| ==> Matches(x, ps[k])
  }

  /** The words of `ps`, in order, with `sep` between each two neighbours. */
  function Join(ps: seq<seq<Token>>, sep: Token): (w: seq<Token>)
    requires |ps| >= 1
    ensures |w| >= |ps[0]|
    decreases |ps|
  {
    if |ps| == 1 then ps[0] else ps[0] + [sep] + Join(ps[1..], sep)
  }

  lemma JoinCons(ps: seq<seq<Token>>, sep: Token)
    requires |ps| >= 2
    ensures Join(ps, sep) == ps[0] + ([sep] + Join(ps[1..], sep))
  {
  }

  lemma OverAppend(u: seq<Token>, v: seq<Token>, ts: set<Token>)
    ensures Over(u + v, ts) <==> Over(u, ts) && Over(v, ts)
  {
    var w := u + v;
    if Over(u, ts) && Over(v, ts) {
      forall k | 0 <= k < |w| ensures w[k] in ts {
        if k >= |u| { assert w[k] == v[k - |u|]; }
      }
    }
    if Over(w, ts) {
      forall k | 0 <= k < |u| ensures u[k] in ts {
        assert w[k] == u[k];
      }
      forall k | 0 <= k < |v| ensures v[k] in ts {
        assert w[|u| + k] == v[k];
      }
    }
  }

  lemma OverWiden(w: seq<Token>, small: set<Token>, large: set<Token>)
    requires Over(w, small) && small <= large
    ensures Over(w, large)
  {
  }

  /*** Facts about sequences, kept apart from the language reasoning ***/

  lemma AppendAssoc<T>(a: seq<T>, b: seq<T>, c: seq<T>)
    ensures a + (b + c) == a + b + c
  {
  }

  lemma AppendNil<T>(u: seq<T>)
    ensures u + [] == u && [] + u == u
  {
  }

  lemma SliceAppend<T>(u: seq<T>, v: seq<T>)
    ensures (u + v)[..|u|] == u && (u + v)[|u|..] == v
  {
  }

  lemma SplitAt<T>(w: seq<T>, i: nat)
    requires i <= |w|
    ensures w[..i] + w[i..] == w
  {
  }

  lemma ConsSplit<T>(w: seq<T>)
    requires |w| >= 1
    ensures w == [w[0]] + w[1..]
  {
  }

  lemma SnocSplit<T>(w: seq<T>)
    requires |w| >= 1
    ensures w == w[..|w| - 1] + [w[|w| - 1]]
  {
  }

  lemma ConsTail<T>(u: T, rest: seq<T>)
    ensures ([u] + rest)[1..] == rest
  {
  }

  /** Cutting a prefix or a suffix off the word without its last token. */
  lemma InitSlices<T>(w: seq<T>, i: nat)
    requires i < |w|
    ensures w[..|w| - 1][..i] == w[..i] && w[..|w| - 1][i..] == w[i..|w| - 1]
  {
  }

  lemma PairShape<T>(u: seq<T>, a: T, b: T)
    ensures u == [a, b] <==> |u| >= 1 && u[0] == a && u[1..] == [b]
  {
    if |u| >= 1 && u[0] == a && u[1..] == [b] {
      ConsSplit(u);
    }
  }

  lemma TripleShape<T>(u: seq<T>, a: T, b: T, c: T)
    ensures u == [a, b, c] <==> |u| >= 1 && u[..|u| - 1] == [a, b] && u[|u| - 1] == c
  {
    if |u| >= 1 && u[..|u| - 1] == [a, b] && u[|u| - 1] == c {
      SnocSplit(u);
    }
  }

  /** A word of at least two tokens is its first token, its inside and its last token. */
  lemma Unwrap<T>(w: seq<T>)
    requires |w| >= 2
    ensures w == [w[0]] + w[1..|w| - 1] + [w[|w| - 1]]
  {
  }

  /** A word of at least four tokens is its first three tokens, its inside and its last token. */
  lemma UnwrapThree<T>(w: seq<T>)
    requires |w| >= 4
    ensures w == w[..3] + w[3..|w| - 1] + [w[|w| - 1]]
  {
  }

  lemma RegroupThree<T>(a: T, b: T, c: T, e: seq<T>, d: T)
    ensures [a, b, c] + e + [d] == [a] + ([b] + ([c] + e)) + [d]
  {
  }

  lemma PairPrefix<T>(v: seq<T>, a: T, b: T)
    requires |v| >= 2
    ensures v[..2] == [a, b] <==> v[0] == a && v[1] == b
  {
  }

  lemma DropAppend<T>(u: seq<T>, v: seq<T>, k: nat)
    requires k <= |v|
    ensures (u + v)[|u| + k..] == v[k..]
  {
  }

  /** Where a piece `d` found inside the second part of `w == a + v` sits in `w`. */
  lemma MiddleSlice<T>(w: seq<T>, a: seq<T>, v: seq<T>, j: nat, d: seq<T>, e: seq<T>)
    requires w == a + v && j <= |v| && v[j..] == d + e && |e| >= 1
    ensures |a| + j + |d| <= |w| && w[|a| + j..|a| + j + |d|] == d
    ensures w[|w| - 1] == e[|e| - 1]
  {
    assert w[|a| + j..] == v[j..];
    SliceAppend(d, e);
  }

  lemma LastOver(e: seq<Token>, t: Token)
    requires |e| >= 1 && Over(e, {t})
    ensures e[|e| - 1] == t
  {
    assert e[|e| - 1] in {t};
  }

  /*** Introduction and elimination of each operator ***/

  lemma CatIntro(x: Regex, y: Regex, u: seq<Token>, v: seq<Token>)
    requires Matches(x, u) && Matches(y, v)
    ensures Matches(Cat(x, y), u + v)
  {
  }

  lemma CatElim(x: Regex, y: Regex, w: seq<Token>) returns (u: seq<Token>, v: seq<Token>)
    requires Matches(Cat(x, y), w)
    ensures w == u + v && Matches(x, u) && Matches(y, v)
  {
    u, v :| w == u + v && Matches(x, u) && Matches(y, v);
  }

  lemma StarNil(x: Regex)
    ensures Matches(Star(x), [])
  {
  }

  lemma StarCons(x: Regex, u: seq<Token>, v: seq<Token>)
    requires Matches(x, u) && Matches(Star(x), v)
    ensures Matches(Star(x), u + v)
  {
    if u == [] {
      AppendNil(v);
    }
  }

  lemma StarElim(x: Regex, w: seq<Token>) returns (u: seq<Token>, v: seq<Token>)
    requires Matches(Star(x), w) && w != []
    ensures w == u + v && u != [] && Matches(x, u) && Matches(Star(x), v)
  {
    u, v :| w == u + v && u != [] && Matches(x, u) && Matches(Star(x), v);
  }

  lemma PlusElim(x: Regex, w: seq<Token>) returns (u: seq<Token>, v: seq<Token>)
    requires Matches(Plus(x), w) && !Matches(x, w)
    ensures w == u + v && u != [] && v != [] && Matches(x, u) && Matches(Plus(x), v)
  {
    u, v :| w == u + v && u != [] && v != [] && Matches(x, u) && Matches(Plus(x), v);
  }

  lemma {:induction false} StarAppend(x: Regex, u: seq<Token>, v: seq<Token>)
    requires Matches(Star(x), u) && Matches(Star(x), v)
    ensures Matches(Star(x), u + v)
    decreases |u|
  {
    if u == [] {
      AppendNil(v);
    } else {
      var a, b := StarElim(x, u);
      StarAppend(x, b, v);
      StarCons(x, a, b + v);
      AppendAssoc(a, b, v);
    }
  }

  /*** Words with a fixed first or last token ***/

  /** A word of the form `[t] + rest`. */
  lemma CatTokLeft(t: Token, y: Regex, w: seq<Token>)
    ensures Matches(Cat(Tok(t), y), w) <==> |w| >= 1 && w[0] == t && Matches(y, w[1..])
  {
    if Matches(Cat(Tok(t), y), w) {
      var u, v := CatElim(Tok(t), y, w);
      SliceAppend(u, v);
    }
    if |w| >= 1 && w[0] == t && Matches(y, w[1..]) {
      ConsSplit(w);
      CatIntro(Tok(t), y, [t], w[1..]);
    }
  }

  /** A word of the form `rest + [t]`. */
  lemma CatTokRight(x: Regex, t: Token, w: seq<Token>)
    ensures Matches(Cat(x, Tok(t)), w) <==> |w| >= 1 && w[|w| - 1] == t && Matches(x, w[..|w| - 1])
  {
    if Matches(Cat(x, Tok(t)), w) {
      var u, v := CatElim(x, Tok(t), w);
      SliceAppend(u, v);
    }
    if |w| >= 1 && w[|w| - 1] == t && Matches(x, w[..|w| - 1]) {
      SnocSplit(w);
      CatIntro(x, Tok(t), w[..|w| - 1], [t]);
    }
  }

  /** A word `[o] + inner + [c]`: the shape of a bracketed alternative. */
  lemma Bracketed(o: Token, x: Regex, c: Token, w: seq<Token>)
    ensures Matches(Cat(Cat(Tok(o), x), Tok(c)), w)
        <==> |w| >= 2 && w[0] == o && w[|w| - 1] == c && Matches(x, w[1..|w| - 1])
  {
    CatTokRight(Cat(Tok(o), x), c, w);
    if |w| >= 1 {
      var v := w[..|w| - 1];
      CatTokLeft(o, x, v);
      if |v| >= 1 {
        InitSlices(w, 1);
      }
    }
  }

  /** Concatenating behind a regex whose language is the single word `p`. */
  lemma FixedPrefix(y: Regex, p: seq<Token>, x: Regex, w: seq<Token>)
    requires forall u :: Matches(y, u) <==> u == p
    ensures Matches(Cat(y, x), w) <==> |w| >= |p| && w[..|p|] == p && Matches(x, w[|p|..])
  {
    if Matches(Cat(y, x), w) {
      var u, v := CatElim(y, x, w);
      SliceAppend(u, v);
    }
    if |w| >= |p| && w[..|p|] == p && Matches(x, w[|p|..]) {
      SplitAt(w, |p|);
      CatIntro(y, x, w[..|p|], w[|p|..]);
    }
  }

  lemma TwoTokens(a: Token, b: Token, u: seq<Token>)
    ensures Matches(Cat(Tok(a), Tok(b)), u) <==> u == [a, b]
  {
    CatTokLeft(a, Tok(b), u);
    PairShape(u, a, b);
  }

  lemma ThreeTokens(a: Token, b: Token, c: Token, u: seq<Token>)
    ensures Matches(Cat(Cat(Tok(a), Tok(b)), Tok(c)), u) <==> u == [a, b, c]
  {
    CatTokRight(Cat(Tok(a), Tok(b)), c, u);
    if |u| >= 1 {
      TwoTokens(a, b, u[..|u| - 1]);
    }
    TripleShape(u, a, b, c);
  }

  /** The shape `[a, b, c] + inner + [d]`. */
  lemma OpenedByThree(a: Token, b: Token, c: Token, x: Regex, d: Token, w: seq<Token>)
    ensures Matches(Cat(Cat(Cat(Cat(Tok(a), Tok(b)), Tok(c)), x), Tok(d)), w)
        <==> |w| >= 4 && w[..3] == [a, b, c] && w[|w| - 1] == d && Matches(x, w[3..|w| - 1])
  {
    var y := Cat(Cat(Tok(a), Tok(b)), Tok(c));
    CatTokRight(Cat(y, x), d, w);
    if |w| >= 1 {
      var v := w[..|w| - 1];
      forall u ensures Matches(y, u) <==> u == [a, b, c] {
        ThreeTokens(a, b, c, u);
      }
      FixedPrefix(y, [a, b, c], x, v);
      if |v| >= 3 {
        InitSlices(w, 3);
      }
    }
  }

  /*** Associativity ***/

  lemma CatAssoc(x: Regex, y: Regex, z: Regex, w: seq<Token>)
    ensures Matches(Cat(Cat(x, y), z), w) <==> Matches(Cat(x, Cat(y, z)), w)
  {
    if Matches(Cat(Cat(x, y), z), w) {
      var uv, c := CatElim(Cat(x, y), z, w);
      var a, b := CatElim(x, y, uv);
      CatIntro(y, z, b, c);
      CatIntro(x, Cat(y, z), a, b + c);
      AppendAssoc(a, b, c);
    }
    if Matches(Cat(x, Cat(y, z)), w) {
      var a, bc := CatElim(x, Cat(y, z), w);
      var b, c := CatElim(y, z, bc);
      CatIntro(x, y, a, b);
      CatIntro(Cat(x, y), z, a + b, c);
      AppendAssoc(a, b, c);
    }
  }

  /*** Repetition of single tokens ***/

  /** The words of `Star(Tok(t))` are exactly the words made only of `t`. */
  lemma {:induction false} StarTokens(t: Token, w: seq<Token>)
    ensures Matches(Star(Tok(t)), w) <==> Over(w, {t})
    decreases |w|
  {
    if w != [] {
      StarTokens(t, w[1..]);
      OverAppend([w[0]], w[1..], {t});
      ConsSplit(w);
      if Matches(Star(Tok(t)), w) {
        var u, v := StarElim(Tok(t), w);
        SliceAppend(u, v);
      }
      if Over(w, {t}) {
        StarCons(Tok(t), [w[0]], w[1..]);
      }
    }
  }

  /** The words of `Plus(Tok(t))` are the non-empty words made only of `t`. */
  lemma PlusTokens(t: Token, w: seq<Token>)
    ensures Matches(Plus(Tok(t)), w) <==> |w| >= 1 && Over(w, {t})
  {
    PlusIsCatStar(Tok(t), w);
    CatTokLeft(t, Star(Tok(t)), w);
    if |w| >= 1 {
      StarTokens(t, w[1..]);
      OverAppend([w[0]], w[1..], {t});
      ConsSplit(w);
    }
  }

  /*** Kleene plus ***/

  /** Kleene plus is one word followed by the Kleene star: L(x)+ = L(x)·L(x)*. */
  lemma PlusIsCatStar(x: Regex, w: seq<Token>)
    ensures Matches(Plus(x), w) <==> Matches(Cat(x, Star(x)), w)
  {
    if Matches(Plus(x), w) {
      PlusToCatStar(x, w);
    }
    if Matches(Cat(x, Star(x)), w) {
      var u, v := CatElim(x, Star(x), w);
      PlusOfCatStar(x, u, v);
    }
  }

  lemma {:induction false} PlusToCatStar(x: Regex, w: seq<Token>)
    requires Matches(Plus(x), w)
    ensures Matches(Cat(x, Star(x)), w)
    decreases |w|
  {
    if Matches(x, w) {
      StarNil(x);
      CatIntro(x, Star(x), w, []);
      AppendNil(w);
    } else {
      var u, v := PlusElim(x, w);
      PlusToCatStar(x, v);
      var a, b := CatElim(x, Star(x), v);
      StarCons(x, a, b);
      CatIntro(x, Star(x), u, v);
    }
  }

  lemma {:induction false} PlusOfCatStar(x: Regex, u: seq<Token>, v: seq<Token>)
    requires Matches(x, u) && Matches(Star(x), v)
    ensures Matches(Plus(x), u + v)
    decreases |v|
  {
    if v == [] {
      AppendNil(u);
    } else {
      var a, b := StarElim(x, v);
      PlusOfCatStar(x, a, b);
      if u == [] {
        AppendNil(v);
      } else {
        assert Matches(Plus(x), v);
      }
    }
  }

  /*** Lists separated by a token ***/

  /**
   A word of `x (sep x)*` is a non-empty list of words of `x` joined by `sep`,
   and every such list gives a word of it.
   */
  lemma SepListIff(x: Regex, sep: Token, w: seq<Token>)
    ensures Matches(Cat(x, Star(Cat(Tok(sep), x))), w)
        <==> exists ps :: |ps| >= 1 && AllMatch(x, ps) && w == Join(ps, sep)
  {
    if Matches(Cat(x, Star(Cat(Tok(sep), x))), w) {
      var u, v := CatElim(x, Star(Cat(Tok(sep), x)), w);
      var ps := SepListElim(x, sep, u, v);
    }
    if exists ps :: |ps| >= 1 && AllMatch(x, ps) && w == Join(ps, sep) {
      var ps :| |ps| >= 1 && AllMatch(x, ps) && w == Join(ps, sep);
      SepListIntro(x, sep, ps);
    }
  }

  lemma {:induction false} SepListElim(x: Regex, sep: Token, u: seq<Token>, v: seq<Token>)
    returns (ps: seq<seq<Token>>)
    requires Matches(x, u) && Matches(Star(Cat(Tok(sep), x)), v)
    ensures |ps| >= 1 && AllMatch(x, ps) && u + v == Join(ps, sep)
    decreases |v|
  {
    if v == [] {
      ps := [u];
      assert AllMatch(x, ps) by {
        forall k | 0 <= k < |ps| ensures Matches(x, ps[k]) { assert ps[k] == u; }
      }
      AppendNil(u);
    } else {
      var head, after := SepListUncons(x, sep, v);
      var rest := SepListElim(x, sep, head, after);
      ps := [u] + rest;
      ConsTail(u, rest);
      assert AllMatch(x, ps) by {
        forall k | 0 <= k < |ps| ensures Matches(x, ps[k]) {
          if k > 0 { assert ps[k] == rest[k - 1]; }
        }
      }
      JoinCons(ps, sep);
    }
  }

  /** Taking the first `sep x` chunk off a non-empty word of `(sep x)*`. */
  lemma SepListUncons(x: Regex, sep: Token, v: seq<Token>) returns (head: seq<Token>, after: seq<Token>)
    requires Matches(Star(Cat(Tok(sep), x)), v) && v != []
    ensures Matches(x, head) && Matches(Star(Cat(Tok(sep), x)), after)
    ensures v == [sep] + (head + after) && |after| < |v|
  {
    var chunk;
    chunk, after := StarElim(Cat(Tok(sep), x), v);
    var s;
    s, head := CatElim(Tok(sep), x, chunk);
    AppendAssoc(s, head, after);
  }

  lemma {:induction false} SepListIntro(x: Regex, sep: Token, ps: seq<seq<Token>>)
    requires |ps| >= 1 && AllMatch(x, ps)
    ensures Matches(Cat(x, Star(Cat(Tok(sep), x))), Join(ps, sep))
    decreases |ps|
  {
    assert Matches(x, ps[0]);
    if |ps| == 1 {
      StarNil(Cat(Tok(sep), x));
      CatIntro(x, Star(Cat(Tok(sep), x)), ps[0], []);
      AppendNil(ps[0]);
    } else {
      var rest := ps[1..];
      assert AllMatch(x, rest) by {
        forall k | 0 <= k < |rest| ensures Matches(x, rest[k]) {
          assert rest[k] == ps[k + 1];
        }
      }
      SepListIntro(x, sep, rest);
      SepListCons(x, sep, ps[0], Join(rest, sep));
      JoinCons(ps, sep);
    }
  }

  lemma JoinShort(p: seq<Token>, q: seq<Token>, sep: Token)
    ensures Join([p], sep) == p
    ensures Join([p, q], sep) == p + [sep] + q
  {
    assert [p, q][1..] == [q];
  }

  /** `x (sep x)*` accepts every word of `x`, and every two words of `x` with `sep` between them. */
  lemma SepListPair(x: Regex, sep: Token)
    ensures forall p :: Matches(x, p) ==> Matches(Cat(x, Star(Cat(Tok(sep), x))), p)
    ensures forall p, q :: Matches(x, p) && Matches(x, q) ==> Matches(Cat(x, Star(Cat(Tok(sep), x))), p + [sep] + q)
  {
    forall p, q | Matches(x, p) && Matches(x, q)
      ensures Matches(Cat(x, Star(Cat(Tok(sep), x))), p + [sep] + q)
    {
      SepListIntro(x, sep, [p, q]);
      JoinShort(p, q, sep);
    }
    forall p | Matches(x, p)
      ensures Matches(Cat(x, Star(Cat(Tok(sep), x))), p)
    {
      SepListIntro(x, sep, [p]);
      JoinShort(p, p, sep);
    }
  }

  /** Putting one more word and a separator in front of a word of `x (sep x)*`. */
  lemma SepListCons(x: Regex, sep: Token, u: seq<Token>, j: seq<Token>)
    requires Matches(x, u) && Matches(Cat(x, Star(Cat(Tok(sep), x))), j)
    ensures Matches(Cat(x, Star(Cat(Tok(sep), x))), u + ([sep] + j))
  {
    var tail := Star(Cat(Tok(sep), x));
    var a, b := CatElim(x, tail, j);
    CatIntro(Tok(sep), x, [sep], a);
    StarCons(Cat(Tok(sep), x), [sep] + a, b);
    AppendAssoc([sep], a, b);
    CatIntro(x, tail, u, [sep] + j);
  }

  /*** Words over two tokens ***/

  /**
   The words of `(t* b)* t*` are exactly the words made of `t` and `b` only,
   in any order.
   */
  lemma ChunksOverIff(t: Token, b: Token, m: seq<Token>)
    ensures Matches(Cat(Star(Cat(Star(Tok(t)), Tok(b))), Star(Tok(t))), m) <==> Over(m, {t, b})
  {
    var chunks := Star(Cat(Star(Tok(t)), Tok(b)));
    if Matches(Cat(chunks, Star(Tok(t))), m) {
      var u, v := CatElim(chunks, Star(Tok(t)), m);
      ChunksOver(t, b, u);
      StarTokens(t, v);
      OverWiden(v, {t}, {t, b});
      OverAppend(u, v, {t, b});
    }
    if Over(m, {t, b}) {
      ChunksIntro(t, b, m);
    }
  }

  lemma {:induction false} ChunksOver(t: Token, b: Token, m: seq<Token>)
    requires Matches(Star(Cat(Star(Tok(t)), Tok(b))), m)
    ensures Over(m, {t, b})
    decreases |m|
  {
    if m != [] {
      var chunk, rest := StarElim(Cat(Star(Tok(t)), Tok(b)), m);
      var ts, last := CatElim(Star(Tok(t)), Tok(b), chunk);
      StarTokens(t, ts);
      OverWiden(ts, {t}, {t, b});
      OverAppend(ts, [b], {t, b});
      ChunksOver(t, b, rest);
      OverAppend(chunk, rest, {t, b});
    }
  }

  lemma {:induction false} ChunksIntro(t: Token, b: Token, m: seq<Token>)
    requires Over(m, {t, b})
    ensures Matches(Cat(Star(Cat(Star(Tok(t)), Tok(b))), Star(Tok(t))), m)
    decreases |m|
  {
    var chunks := Star(Cat(Star(Tok(t)), Tok(b)));
    if m == [] {
      StarNil(Tok(t));
      StarNil(Cat(Star(Tok(t)), Tok(b)));
      CatIntro(chunks, Star(Tok(t)), [], []);
      AppendNil(m);
    } else {
      var init, last := m[..|m| - 1], m[|m| - 1];
      SnocSplit(m);
      OverAppend(init, [last], {t, b});
      ChunksIntro(t, b, init);
      ChunksSnoc(t, b, init, last);
    }
  }

  /** One more `t` or `b` at the end of a word of `(t* b)* t*`. */
  lemma ChunksSnoc(t: Token, b: Token, init: seq<Token>, last: Token)
    requires Matches(Cat(Star(Cat(Star(Tok(t)), Tok(b))), Star(Tok(t))), init)
    requires last == t || last == b
    ensures Matches(Cat(Star(Cat(Star(Tok(t)), Tok(b))), Star(Tok(t))), init + [last])
  {
    var chunks := Star(Cat(Star(Tok(t)), Tok(b)));
    var u, v := CatElim(chunks, Star(Tok(t)), init);
    if last == b {
      ClosingChunk(t, b, v);
      StarAppend(Cat(Star(Tok(t)), Tok(b)), u, v + [b]);
      StarNil(Tok(t));
      CatIntro(chunks, Star(Tok(t)), u + (v + [b]), []);
      AppendNil(u + (v + [b]));
      AppendAssoc(u, v, [b]);
    } else {
      StarTokens(t, v);
      OverAppend(v, [t], {t});
      StarTokens(t, v + [t]);
      CatIntro(chunks, Star(Tok(t)), u, v + [t]);
      AppendAssoc(u, v, [t]);
    }
  }

  /**
   `c o (t* b)* t* k` accepts `c o`, then any word made of `t` and `b` only,
   then `k`.
   */
  lemma DelimitedChunks(c: Token, o: Token, t: Token, b: Token, k: Token)
    ensures forall m ::
      Over(m, {t, b}) ==> Matches(Cat(Cat(Cat(Cat(Tok(c), Tok(o)), Star(Cat(Star(Tok(t)), Tok(b)))), Star(Tok(t))), Tok(k)), [c, o] + m + [k])
  {
    var head := Cat(Tok(c), Tok(o));
    var chunks := Star(Cat(Star(Tok(t)), Tok(b)));
    forall m | Over(m, {t, b})
      ensures Matches(Cat(Cat(Cat(head, chunks), Star(Tok(t))), Tok(k)), [c, o] + m + [k])
    {
      ChunksIntro(t, b, m);
      TwoTokens(c, o, [c, o]);
      CatIntro(head, Cat(chunks, Star(Tok(t))), [c, o], m);
      CatAssoc(head, chunks, Star(Tok(t)), [c, o] + m);
      CatIntro(Cat(Cat(head, chunks), Star(Tok(t))), Tok(k), [c, o] + m, [k]);
    }
  }

  lemma ClosingChunk(t: Token, b: Token, v: seq<Token>)
    requires Matches(Star(Tok(t)), v)
    ensures Matches(Star(Cat(Star(Tok(t)), Tok(b))), v + [b])
  {
    CatIntro(Star(Tok(t)), Tok(b), v, [b]);
    StarNil(Cat(Star(Tok(t)), Tok(b)));
    StarCons(Cat(Star(Tok(t)), Tok(b)), v + [b], []);
    AppendNil(v + [b]);
  }

  /*** Lines ***/

  /** The last piece of a word of `Plus(x)` is a word of `x`. */
  lemma {:induction false} PlusLastPiece(x: Regex, w: seq<Token>) returns (j: nat)
    requires Matches(Plus(x), w)
    ensures j <= |w| && Matches(x, w[j..])
    decreases |w|
  {
    if Matches(x, w) {
      j := 0;
    } else {
      var u, v := PlusElim(x, w);
      var k := PlusLastPiece(x, v);
      j := |u| + k;
      DropAppend(u, v, k);
    }
  }

  /** `t* (x t+)+` accepts every word of `x` followed by one `t`. */
  lemma LineIntro(x: Regex, t: Token)
    ensures forall d :: Matches(x, d) ==> Matches(Cat(Star(Tok(t)), Plus(Cat(x, Plus(Tok(t))))), d + [t])
  {
    var line := Cat(x, Plus(Tok(t)));
    forall d | Matches(x, d)
      ensures Matches(Cat(Star(Tok(t)), Plus(line)), d + [t])
    {
      assert Matches(Plus(Tok(t)), [t]);
      CatIntro(x, Plus(Tok(t)), d, [t]);
      assert Matches(Plus(line), d + [t]);
      StarNil(Tok(t));
      CatIntro(Star(Tok(t)), Plus(line), [], d + [t]);
      AppendNil(d + [t]);
    }
  }

  /** The lines `ds[0] es[0] ds[1] es[1] …`: each body followed by its run of terminators. */
  function Lines(ds: seq<seq<Token>>, es: seq<seq<Token>>): (w: seq<Token>)
    requires |ds| == |es|
    decreases |ds|
  {
    if |ds| == 0 then [] else ds[0] + es[0] + Lines(ds[1..], es[1..])
  }

  /** `ds` and `es` pair up into one or more lines: a word of `x`, then a non-empty run of `t`. */
  ghost predicate LinesOf(x: Regex, t: Token, ds: seq<seq<Token>>, es: seq<seq<Token>>)
  {
    && |ds| == |es| >= 1
    && forall i :: 0 <= i < |ds| ==> Matches(x, ds[i]) && |es[i]| >= 1 && Over(es[i], {t})
  }

  lemma LinesCons(d: seq<Token>, e: seq<Token>, ds: seq<seq<Token>>, es: seq<seq<Token>>)
    requires |ds| == |es|
    ensures Lines([d] + ds, [e] + es) == d + e + Lines(ds, es)
  {
    assert ([d] + ds)[1..] == ds;
    assert ([e] + es)[1..] == es;
  }

  lemma LinesOfCons(x: Regex, t: Token, d: seq<Token>, e: seq<Token>, ds: seq<seq<Token>>, es: seq<seq<Token>>)
    requires Matches(x, d) && |e| >= 1 && Over(e, {t})
    requires |ds| == |es| == 0 || LinesOf(x, t, ds, es)
    ensures LinesOf(x, t, [d] + ds, [e] + es)
  {
    var ds', es' := [d] + ds, [e] + es;
    forall i | 0 <= i < |ds'|
      ensures Matches(x, ds'[i]) && |es'[i]| >= 1 && Over(es'[i], {t})
    {
      if i > 0 {
        assert ds'[i] == ds[i - 1] && es'[i] == es[i - 1];
      }
    }
  }

  lemma LinesOfTail(x: Regex, t: Token, ds: seq<seq<Token>>, es: seq<seq<Token>>)
    requires LinesOf(x, t, ds, es) && |ds| >= 2
    ensures LinesOf(x, t, ds[1..], es[1..])
    ensures |Lines(ds[1..], es[1..])| >= 1
  {
    forall i | 0 <= i < |ds| - 1
      ensures Matches(x, ds[1..][i]) && |es[1..][i]| >= 1 && Over(es[1..][i], {t})
    {
      assert ds[1..][i] == ds[i + 1] && es[1..][i] == es[i + 1];
    }
    assert |es[1..][0]| >= 1;
  }

  lemma PlusCons(x: Regex, u: seq<Token>, v: seq<Token>)
    requires Matches(x, u) && Matches(Plus(x), v) && u != [] && v != []
    ensures Matches(Plus(x), u + v)
  {
  }

  /** Every word of `(x t+)+` splits into lines. */
  lemma {:induction false} PlusLinesElim(x: Regex, t: Token, v: seq<Token>) returns (ds: seq<seq<Token>>, es: seq<seq<Token>>)
    requires Matches(Plus(Cat(x, Plus(Tok(t)))), v)
    ensures LinesOf(x, t, ds, es) && v == Lines(ds, es)
    decreases |v|
  {
    var line := Cat(x, Plus(Tok(t)));
    if Matches(line, v) {
      var d, e := CatElim(x, Plus(Tok(t)), v);
      PlusTokens(t, e);
      LinesOfCons(x, t, d, e, [], []);
      LinesCons(d, e, [], []);
      AppendNil(d + e);
      ds, es := [d] + [], [e] + [];
    } else {
      var u, w := PlusElim(line, v);
      var ds', es' := PlusLinesElim(x, t, w);
      var d, e := CatElim(x, Plus(Tok(t)), u);
      PlusTokens(t, e);
      LinesOfCons(x, t, d, e, ds', es');
      LinesCons(d, e, ds', es');
      ds, es := [d] + ds', [e] + es';
    }
  }

  /** Lines make a word of `(x t+)+`. */
  lemma {:induction false} PlusLinesIntro(x: Regex, t: Token, ds: seq<seq<Token>>, es: seq<seq<Token>>)
    requires LinesOf(x, t, ds, es)
    ensures Matches(Plus(Cat(x, Plus(Tok(t)))), Lines(ds, es))
    decreases |ds|
  {
    var line := Cat(x, Plus(Tok(t)));
    assert Matches(x, ds[0]) && |es[0]| >= 1 && Over(es[0], {t});
    PlusTokens(t, es[0]);
    CatIntro(x, Plus(Tok(t)), ds[0], es[0]);
    if |ds| == 1 {
      AppendNil(ds[0] + es[0]);
    } else {
      LinesOfTail(x, t, ds, es);
      PlusLinesIntro(x, t, ds[1..], es[1..]);
      PlusCons(line, ds[0] + es[0], Lines(ds[1..], es[1..]));
    }
  }

  /**
   The words of `t* (x t+)+` are exactly a run of `t`, then one or more lines,
   each a word of `x` followed by a non-empty run of `t`.
   */
  lemma LinesIff(x: Regex, t: Token, w: seq<Token>)
    ensures Matches(Cat(Star(Tok(t)), Plus(Cat(x, Plus(Tok(t))))), w)
        <==> exists a, ds, es :: Over(a, {t}) && LinesOf(x, t, ds, es) && w == a + Lines(ds, es)
  {
    var lines := Plus(Cat(x, Plus(Tok(t))));
    if Matches(Cat(Star(Tok(t)), lines), w) {
      var a, v := CatElim(Star(Tok(t)), lines, w);
      StarTokens(t, a);
      var ds, es := PlusLinesElim(x, t, v);
      assert Over(a, {t}) && LinesOf(x, t, ds, es) && w == a + Lines(ds, es);
    }
    if exists a, ds, es :: Over(a, {t}) && LinesOf(x, t, ds, es) && w == a + Lines(ds, es) {
      var a, ds, es :| Over(a, {t}) && LinesOf(x, t, ds, es) && w == a + Lines(ds, es);
      StarTokens(t, a);
      PlusLinesIntro(x, t, ds, es);
      CatIntro(Star(Tok(t)), lines, a, Lines(ds, es));
    }
  }

  /** The last line of a word of `(x t+)+`: a word of `x`, then a non-empty run of `t`. */
  lemma LastLine(x: Regex, t: Token, v: seq<Token>) returns (j: nat, d: seq<Token>, e: seq<Token>)
    requires Matches(Plus(Cat(x, Plus(Tok(t)))), v)
    ensures j <= |v| && v[j..] == d + e && Matches(x, d)
    ensures |e| >= 1 && Over(e, {t})
  {
    j := PlusLastPiece(Cat(x, Plus(Tok(t))), v);
    d, e := CatElim(x, Plus(Tok(t)), v[j..]);
    PlusTokens(t, e);
  }

  /** A word of `t* (x t+)+` is non-empty, ends with `t` and has a word of `x` from index `i` to index `k`. */
  lemma LinesShape(x: Regex, t: Token, w: seq<Token>) returns (i: nat, k: nat)
    requires Matches(Cat(Star(Tok(t)), Plus(Cat(x, Plus(Tok(t))))), w)
    ensures |w| >= 1 && w[|w| - 1] == t
    ensures i <= k <= |w| && Matches(x, w[i..k])
  {
    var a, v := CatElim(Star(Tok(t)), Plus(Cat(x, Plus(Tok(t)))), w);
    var j, d, e := LastLine(x, t, v);
    LastOver(e, t);
    MiddleSlice(w, a, v, j, d, e);
    i, k := |a| + j, |a| + j + |d|;
  }
}
