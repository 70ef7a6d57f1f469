/**
 What the compiler of `lexems/combiner.kt` builds: the languages of the
 automata it returns, the parameters that do and do not matter, and the
 bracket nesting its bounded recursion allows.
 */
module CombinerProperties {
  import opened Automata
  import opened Nesting
  import opened Combiner

  /*** The size argument is threaded through every call and never read. ***/

  lemma {:induction false} PatternSizeIrrelevant(size1: int, size2: int, nesting: int, lexems: LexemBundle, d2: int, d3: int)
    ensures PatternCompute(size1, nesting, lexems, d2, d3) == PatternCompute(size2, nesting, lexems, d2, d3)
    decreases Budget(nesting, d3), 0
  {
    if d3 < nesting {
      PatternSeqSizeIrrelevant(size1, size2, nesting, lexems, d2, d3 + 1);
    }
  }

  lemma {:induction false} PatternSeqSizeIrrelevant(size1: int, size2: int, nesting: int, lexems: LexemBundle, d2: int, d3: int)
    ensures PatternSeqCompute(size1, nesting, lexems, d2, d3) == PatternSeqCompute(size2, nesting, lexems, d2, d3)
    decreases Budget(nesting, d3), 1
  {
    PatternSizeIrrelevant(size1, size2, nesting, lexems, d2, d3);
  }

  lemma {:induction false} ExpressionSizeIrrelevant(size1: int, size2: int, nesting: int, lexems: LexemBundle, d2: int, d3: int)
    ensures ExpressionCompute(size1, nesting, lexems, d2, d3) == ExpressionCompute(size2, nesting, lexems, d2, d3)
    decreases Budget(nesting, d2) + Budget(nesting, d3), 0
  {
    if d3 < nesting {
      ExpressionSeqSizeIrrelevant(size1, size2, nesting, lexems, d2, d3 + 1);
    }
    if d2 < nesting {
      ExpressionSizeIrrelevant(size1, size2, nesting, lexems, d2 + 1, d3);
    }
  }

  lemma {:induction false} ExpressionSeqSizeIrrelevant(size1: int, size2: int, nesting: int, lexems: LexemBundle, d2: int, d3: int)
    ensures ExpressionSeqCompute(size1, nesting, lexems, d2, d3) == ExpressionSeqCompute(size2, nesting, lexems, d2, d3)
    decreases Budget(nesting, d2) + Budget(nesting, d3), 1
  {
    ExpressionSizeIrrelevant(size1, size2, nesting, lexems, d2, d3);
  }

  /*** Recursion bounds ***/

  /**
   Patterns pass the depth-2 counter down unchanged and never test it: only
   expressions have the depth-2 alternative.
   */
  lemma {:induction false} PatternIgnoresDepth2(size: int, nesting: int, lexems: LexemBundle, d2: int, e2: int, d3: int)
    ensures PatternCompute(size, nesting, lexems, d2, d3) == PatternCompute(size, nesting, lexems, e2, d3)
    decreases Budget(nesting, d3), 0
  {
    if d3 < nesting {
      PatternSeqIgnoresDepth2(size, nesting, lexems, d2, e2, d3 + 1);
    }
  }

  lemma {:induction false} PatternSeqIgnoresDepth2(size: int, nesting: int, lexems: LexemBundle, d2: int, e2: int, d3: int)
    ensures PatternSeqCompute(size, nesting, lexems, d2, d3) == PatternSeqCompute(size, nesting, lexems, e2, d3)
    decreases Budget(nesting, d3), 1
  {
    PatternIgnoresDepth2(size, nesting, lexems, d2, e2, d3);
  }

  /** Once the depth-3 counter reaches `nesting`, a pattern is only a variable or a constant. */
  lemma PatternAtCutoff(size: int, nesting: int, lexems: LexemBundle, d2: int, d3: int, w: seq<Token>)
    requires nesting <= d3
    ensures PatternCompute(size, nesting, lexems, d2, d3) == Alt(Tok(lexems.variable), Tok(lexems.constant))
    ensures Matches(PatternCompute(size, nesting, lexems, d2, d3), w) <==> w == [lexems.variable] || w == [lexems.constant]
  {
  }

  /** Once both counters reach `nesting`, an expression is only a variable or a constant. */
  lemma ExpressionAtCutoff(size: int, nesting: int, lexems: LexemBundle, d2: int, d3: int, w: seq<Token>)
    requires nesting <= d2 && nesting <= d3
    ensures ExpressionCompute(size, nesting, lexems, d2, d3) == Alt(Tok(lexems.variable), Tok(lexems.constant))
    ensures Matches(ExpressionCompute(size, nesting, lexems, d2, d3), w) <==> w == [lexems.variable] || w == [lexems.constant]
  {
  }

  /** With `nesting = 0` neither the pattern nor the expression of a sentence has a bracketed alternative. */
  lemma NoBracketsAtNestingZero(size: int, lexems: LexemBundle)
    ensures PatternCompute(size, 0, lexems, 0, 0) == Alt(Tok(lexems.variable), Tok(lexems.constant))
    ensures ExpressionCompute(size, 0, lexems, 0, 0) == Alt(Tok(lexems.variable), Tok(lexems.constant))
  {
  }

  /*** Sentences ***/

  /** A sentence is the blank token alone: the pattern/equal/expression/sep concatenation is discarded. */
  lemma SentenceIsBlank(size: int, nesting: int, lexems: LexemBundle)
    ensures SentenceCompute(size, nesting, lexems) == Tok(lexems.blank)
  {
  }

  /** Nothing but the blank lexeme affects the sentence automaton. */
  lemma SentenceIgnoresOtherLexems(size1: int, nesting1: int, lexems1: LexemBundle, size2: int, nesting2: int, lexems2: LexemBundle)
    requires lexems1.blank == lexems2.blank
    ensures SentenceCompute(size1, nesting1, lexems1) == SentenceCompute(size2, nesting2, lexems2)
  {
  }

  /*** Patterns and expressions ***/

  /** The alternatives of a pattern: a variable, a constant, or (below the depth-3 bound) `lbr3 patternSeq rbr3`. */
  lemma PatternAlternatives(size: int, nesting: int, lexems: LexemBundle, d2: int, d3: int, w: seq<Token>)
    ensures Matches(PatternCompute(size, nesting, lexems, d2, d3), w)
        <==> || w == [lexems.variable]
             || w == [lexems.constant]
             || (&& d3 < nesting
                 && |w| >= 2 && w[0] == lexems.lbr3 && w[|w| - 1] == lexems.rbr3
                 && Matches(PatternSeqCompute(size, nesting, lexems, d2, d3 + 1), w[1..|w| - 1]))
  {
    var atom := Alt(Tok(lexems.variable), Tok(lexems.constant));
    assert Matches(atom, w) <==> w == [lexems.variable] || w == [lexems.constant];
    if d3 < nesting {
      var inner := PatternSeqCompute(size, nesting, lexems, d2, d3 + 1);
      assert PatternCompute(size, nesting, lexems, d2, d3) == Alt(atom, Cat(Cat(Tok(lexems.lbr3), inner), Tok(lexems.rbr3)));
      Bracketed(lexems.lbr3, inner, lexems.rbr3, w);
    }
  }

  /**
   The alternatives of an expression: a variable, a constant, (below the
   depth-3 bound) `lbr3 expressionSeq rbr3`, and (below the depth-2 bound)
   `lbr2 const blank expression rbr3`, which closes with the third family's
   bracket.
   */
  lemma ExpressionAlternatives(size: int, nesting: int, lexems: LexemBundle, d2: int, d3: int, w: seq<Token>)
    ensures Matches(ExpressionCompute(size, nesting, lexems, d2, d3), w)
        <==> || w == [lexems.variable]
             || w == [lexems.constant]
             || (&& d3 < nesting
                 && |w| >= 2 && w[0] == lexems.lbr3 && w[|w| - 1] == lexems.rbr3
                 && Matches(ExpressionSeqCompute(size, nesting, lexems, d2, d3 + 1), w[1..|w| - 1]))
             || (&& d2 < nesting
                 && |w| >= 4 && w[..3] == [lexems.lbr2, lexems.constant, lexems.blank] && w[|w| - 1] == lexems.rbr3
                 && Matches(ExpressionCompute(size, nesting, lexems, d2 + 1, d3), w[3..|w| - 1]))
  {
    var atom := Alt(Tok(lexems.variable), Tok(lexems.constant));
    assert Matches(atom, w) <==> w == [lexems.variable] || w == [lexems.constant];
    var inner3 := ExpressionSeqCompute(size, nesting, lexems, d2, d3 + 1);
    var alt3 := Cat(Cat(Tok(lexems.lbr3), inner3), Tok(lexems.rbr3));
    var inner2 := ExpressionCompute(size, nesting, lexems, d2 + 1, d3);
    var alt2 := Cat(Cat(Cat(Cat(Tok(lexems.lbr2), Tok(lexems.constant)), Tok(lexems.blank)), inner2), Tok(lexems.rbr3));
    var withAlt3 := if d3 < nesting then Alt(atom, alt3) else atom;
    assert ExpressionCompute(size, nesting, lexems, d2, d3) == if d2 < nesting then Alt(withAlt3, alt2) else withAlt3;
    if d3 < nesting {
      Bracketed(lexems.lbr3, inner3, lexems.rbr3, w);
    }
    if d2 < nesting {
      OpenedByThree(lexems.lbr2, lexems.constant, lexems.blank, inner2, lexems.rbr3, w);
    }
  }

  /** A pattern sequence is one or more patterns of the same depths separated by blanks. */
  lemma PatternSeqLanguage(size: int, nesting: int, lexems: LexemBundle, d2: int, d3: int, w: seq<Token>)
    ensures Matches(PatternSeqCompute(size, nesting, lexems, d2, d3), w)
        <==> exists ps :: |ps| >= 1 && AllMatch(PatternCompute(size, nesting, lexems, d2, d3), ps) && w == Join(ps, lexems.blank)
    ensures Matches(PatternSeqCompute(size, nesting, lexems, d2, d3), w) ==> |w| >= 1
  {
    var p := PatternCompute(size, nesting, lexems, d2, d3);
    SepListIff(p, lexems.blank, w);
    if Matches(PatternSeqCompute(size, nesting, lexems, d2, d3), w) {
      var ps :| |ps| >= 1 && AllMatch(p, ps) && w == Join(ps, lexems.blank);
      assert Matches(p, ps[0]);
      PatternAlternatives(size, nesting, lexems, d2, d3, ps[0]);
    }
  }

  /** An expression sequence is one or more expressions of the same depths separated by blanks. */
  lemma ExpressionSeqLanguage(size: int, nesting: int, lexems: LexemBundle, d2: int, d3: int, w: seq<Token>)
    ensures Matches(ExpressionSeqCompute(size, nesting, lexems, d2, d3), w)
        <==> exists es :: |es| >= 1 && AllMatch(ExpressionCompute(size, nesting, lexems, d2, d3), es) && w == Join(es, lexems.blank)
    ensures Matches(ExpressionSeqCompute(size, nesting, lexems, d2, d3), w) ==> |w| >= 1
  {
    var e := ExpressionCompute(size, nesting, lexems, d2, d3);
    SepListIff(e, lexems.blank, w);
    if Matches(ExpressionSeqCompute(size, nesting, lexems, d2, d3), w) {
      var es :| |es| >= 1 && AllMatch(e, es) && w == Join(es, lexems.blank);
      assert Matches(e, es[0]);
      ExpressionAlternatives(size, nesting, lexems, d2, d3, es[0]);
    }
  }

  /*** Bracket nesting ***/

  /** The bracket tokens differ from the closer and from the tokens that are not brackets. */
  predicate BracketsDistinct(lexems: LexemBundle)
  {
    && lexems.rbr3 != lexems.lbr2 && lexems.rbr3 != lexems.lbr3
    && Neutral(lexems.variable, {lexems.lbr2, lexems.lbr3}, lexems.rbr3)
    && Neutral(lexems.constant, {lexems.lbr2, lexems.lbr3}, lexems.rbr3)
    && Neutral(lexems.blank, {lexems.lbr2, lexems.lbr3}, lexems.rbr3)
  }

  /** The weaker condition the pattern lemmas need: only `lbr3` opens and only `rbr3` closes. */
  predicate PatternBracketsDistinct(lexems: LexemBundle)
  {
    && lexems.rbr3 != lexems.lbr3
    && Neutral(lexems.variable, {lexems.lbr3}, lexems.rbr3)
    && Neutral(lexems.constant, {lexems.lbr3}, lexems.rbr3)
    && Neutral(lexems.blank, {lexems.lbr3}, lexems.rbr3)
  }

  /**
   Every pattern word is balanced in `lbr3`/`rbr3` and nests at most as many
   levels as the depth-3 counter has left.
   */
  lemma {:induction false} PatternNested(size: int, nesting: int, lexems: LexemBundle, d2: int, d3: int, w: seq<Token>)
    requires PatternBracketsDistinct(lexems)
    requires Matches(PatternCompute(size, nesting, lexems, d2, d3), w)
    ensures WellNested(w, {lexems.lbr3}, lexems.rbr3, Budget(nesting, d3))
    decreases Budget(nesting, d3), 0
  {
    var opens := {lexems.lbr3};
    PatternAlternatives(size, nesting, lexems, d2, d3, w);
    if w == [lexems.variable] || w == [lexems.constant] {
      WellNestedNeutral(w[0], opens, lexems.rbr3);
    } else {
      var m := w[1..|w| - 1];
      PatternSeqNested(size, nesting, lexems, d2, d3 + 1, m);
      WellNestedBracket(lexems.lbr3, m, opens, lexems.rbr3, Budget(nesting, d3 + 1));
      Unwrap(w);
    }
  }

  lemma {:induction false} PatternSeqNested(size: int, nesting: int, lexems: LexemBundle, d2: int, d3: int, w: seq<Token>)
    requires PatternBracketsDistinct(lexems)
    requires Matches(PatternSeqCompute(size, nesting, lexems, d2, d3), w)
    ensures WellNested(w, {lexems.lbr3}, lexems.rbr3, Budget(nesting, d3))
    decreases Budget(nesting, d3), 1
  {
    var p := PatternCompute(size, nesting, lexems, d2, d3);
    PatternSeqLanguage(size, nesting, lexems, d2, d3, w);
    var ps :| |ps| >= 1 && AllMatch(p, ps) && w == Join(ps, lexems.blank);
    forall k | 0 <= k < |ps| ensures WellNested(ps[k], {lexems.lbr3}, lexems.rbr3, Budget(nesting, d3)) {
      PatternNested(size, nesting, lexems, d2, d3, ps[k]);
    }
    JoinNested(ps, lexems.blank, {lexems.lbr3}, lexems.rbr3, Budget(nesting, d3));
  }

  /**
   Every expression word is balanced when `lbr2` and `lbr3` both count as
   openers closed by `rbr3`, and nests at most as many levels as the two
   counters have left together.
   */
  lemma {:induction false} ExpressionNested(size: int, nesting: int, lexems: LexemBundle, d2: int, d3: int, w: seq<Token>)
    requires BracketsDistinct(lexems)
    requires Matches(ExpressionCompute(size, nesting, lexems, d2, d3), w)
    ensures WellNested(w, {lexems.lbr2, lexems.lbr3}, lexems.rbr3, Budget(nesting, d2) + Budget(nesting, d3))
    decreases Budget(nesting, d2) + Budget(nesting, d3), 0
  {
    var opens := {lexems.lbr2, lexems.lbr3};
    var close := lexems.rbr3;
    ExpressionAlternatives(size, nesting, lexems, d2, d3, w);
    if w == [lexems.variable] || w == [lexems.constant] {
      WellNestedNeutral(w[0], opens, close);
    } else if d3 < nesting && |w| >= 2 && w[0] == lexems.lbr3 && w[|w| - 1] == close
        && Matches(ExpressionSeqCompute(size, nesting, lexems, d2, d3 + 1), w[1..|w| - 1]) {
      var m := w[1..|w| - 1];
      ExpressionSeqNested(size, nesting, lexems, d2, d3 + 1, m);
      WellNestedBracket(lexems.lbr3, m, opens, close, Budget(nesting, d2) + Budget(nesting, d3 + 1));
      Unwrap(w);
    } else {
      var e := w[3..|w| - 1];
      ExpressionNested(size, nesting, lexems, d2 + 1, d3, e);
      SecondBracketNested(lexems, e, Budget(nesting, d2 + 1) + Budget(nesting, d3));
      UnwrapThree(w);
    }
  }

  /** The depth-2 alternative `lbr2 const blank e rbr3` adds exactly one level of nesting to `e`. */
  lemma SecondBracketNested(lexems: LexemBundle, e: seq<Token>, depth: int)
    requires BracketsDistinct(lexems)
    requires WellNested(e, {lexems.lbr2, lexems.lbr3}, lexems.rbr3, depth)
    ensures WellNested([lexems.lbr2, lexems.constant, lexems.blank] + e + [lexems.rbr3], {lexems.lbr2, lexems.lbr3}, lexems.rbr3, depth + 1)
    ensures Peak([lexems.lbr2, lexems.constant, lexems.blank] + e + [lexems.rbr3], {lexems.lbr2, lexems.lbr3}, lexems.rbr3)
        == Peak(e, {lexems.lbr2, lexems.lbr3}, lexems.rbr3) + 1
  {
    var opens := {lexems.lbr2, lexems.lbr3};
    var close := lexems.rbr3;
    WellNestedNeutral(lexems.constant, opens, close);
    WellNestedNeutral(lexems.blank, opens, close);
    Append([lexems.blank], e, opens, close);
    Append([lexems.constant], [lexems.blank] + e, opens, close);
    var m := [lexems.constant] + ([lexems.blank] + e);
    WellNestedBracket(lexems.lbr2, m, opens, close, Peak(e, opens, close));
    RegroupThree(lexems.lbr2, lexems.constant, lexems.blank, e, close);
  }

  lemma {:induction false} ExpressionSeqNested(size: int, nesting: int, lexems: LexemBundle, d2: int, d3: int, w: seq<Token>)
    requires BracketsDistinct(lexems)
    requires Matches(ExpressionSeqCompute(size, nesting, lexems, d2, d3), w)
    ensures WellNested(w, {lexems.lbr2, lexems.lbr3}, lexems.rbr3, Budget(nesting, d2) + Budget(nesting, d3))
    decreases Budget(nesting, d2) + Budget(nesting, d3), 1
  {
    var e := ExpressionCompute(size, nesting, lexems, d2, d3);
    var opens := {lexems.lbr2, lexems.lbr3};
    var depth := Budget(nesting, d2) + Budget(nesting, d3);
    ExpressionSeqLanguage(size, nesting, lexems, d2, d3, w);
    var es :| |es| >= 1 && AllMatch(e, es) && w == Join(es, lexems.blank);
    forall k | 0 <= k < |es| ensures WellNested(es[k], opens, lexems.rbr3, depth) {
      ExpressionNested(size, nesting, lexems, d2, d3, es[k]);
    }
    JoinNested(es, lexems.blank, opens, lexems.rbr3, depth);
  }

  /**
   The two bracket families of an expression, each `rbr3` closing the
   innermost open bracket: at no point are more `lbr3` brackets open than the
   depth-3 counter has levels left, nor more `lbr2` brackets than the depth-2
   counter has left.
   */
  lemma {:induction false} ExpressionFamilies(size: int, nesting: int, lexems: LexemBundle, d2: int, d3: int, w: seq<Token>)
    requires BracketsDistinct(lexems) && lexems.lbr2 != lexems.lbr3
    requires Matches(ExpressionCompute(size, nesting, lexems, d2, d3), w)
    ensures Deepest(w, [], {lexems.lbr2, lexems.lbr3}, lexems.rbr3, lexems.lbr3) <= Budget(nesting, d3)
    ensures Deepest(w, [], {lexems.lbr2, lexems.lbr3}, lexems.rbr3, lexems.lbr2) <= Budget(nesting, d2)
    decreases Budget(nesting, d2) + Budget(nesting, d3), 0
  {
    var opens := {lexems.lbr2, lexems.lbr3};
    var close := lexems.rbr3;
    ExpressionAlternatives(size, nesting, lexems, d2, d3, w);
    if w == [lexems.variable] || w == [lexems.constant] {
      NeutralAlone(w[0], opens, close, lexems.lbr3);
      NeutralAlone(w[0], opens, close, lexems.lbr2);
    } else if d3 < nesting && |w| >= 2 && w[0] == lexems.lbr3 && w[|w| - 1] == close
        && Matches(ExpressionSeqCompute(size, nesting, lexems, d2, d3 + 1), w[1..|w| - 1]) {
      var m := w[1..|w| - 1];
      ExpressionSeqNested(size, nesting, lexems, d2, d3 + 1, m);
      ExpressionSeqFamilies(size, nesting, lexems, d2, d3 + 1, m);
      Unwrap(w);
      BracketDeepest(lexems.lbr3, m, opens, close, lexems.lbr3);
      BracketDeepest(lexems.lbr3, m, opens, close, lexems.lbr2);
    } else {
      var e := w[3..|w| - 1];
      ExpressionNested(size, nesting, lexems, d2 + 1, d3, e);
      ExpressionFamilies(size, nesting, lexems, d2 + 1, d3, e);
      UnwrapThree(w);
      SecondBracketFamilies(lexems, e, Budget(nesting, d2 + 1), Budget(nesting, d3));
    }
  }

  /** The depth-2 alternative `lbr2 const blank e rbr3` opens one more `lbr2` around `e` and no `lbr3`. */
  lemma SecondBracketFamilies(lexems: LexemBundle, e: seq<Token>, k2: int, k3: int)
    requires BracketsDistinct(lexems) && lexems.lbr2 != lexems.lbr3
    requires Net(e, {lexems.lbr2, lexems.lbr3}, lexems.rbr3) == 0 && Low(e, {lexems.lbr2, lexems.lbr3}, lexems.rbr3) == 0
    requires Deepest(e, [], {lexems.lbr2, lexems.lbr3}, lexems.rbr3, lexems.lbr2) <= k2
    requires Deepest(e, [], {lexems.lbr2, lexems.lbr3}, lexems.rbr3, lexems.lbr3) <= k3
    ensures Deepest([lexems.lbr2, lexems.constant, lexems.blank] + e + [lexems.rbr3], [],
                    {lexems.lbr2, lexems.lbr3}, lexems.rbr3, lexems.lbr2) <= k2 + 1
    ensures Deepest([lexems.lbr2, lexems.constant, lexems.blank] + e + [lexems.rbr3], [],
                    {lexems.lbr2, lexems.lbr3}, lexems.rbr3, lexems.lbr3) <= k3
  {
    var opens := {lexems.lbr2, lexems.lbr3};
    var close := lexems.rbr3;
    var m := [lexems.constant] + ([lexems.blank] + e);
    RegroupThree(lexems.lbr2, lexems.constant, lexems.blank, e, close);
    WellNestedNeutral(lexems.constant, opens, close);
    WellNestedNeutral(lexems.blank, opens, close);
    Append([lexems.blank], e, opens, close);
    Append([lexems.constant], [lexems.blank] + e, opens, close);
    NeutralDeepest(lexems.blank, e, [], opens, close, lexems.lbr2);
    NeutralDeepest(lexems.blank, e, [], opens, close, lexems.lbr3);
    NeutralDeepest(lexems.constant, [lexems.blank] + e, [], opens, close, lexems.lbr2);
    NeutralDeepest(lexems.constant, [lexems.blank] + e, [], opens, close, lexems.lbr3);
    BracketDeepest(lexems.lbr2, m, opens, close, lexems.lbr2);
    BracketDeepest(lexems.lbr2, m, opens, close, lexems.lbr3);
  }

  lemma {:induction false} ExpressionSeqFamilies(size: int, nesting: int, lexems: LexemBundle, d2: int, d3: int, w: seq<Token>)
    requires BracketsDistinct(lexems) && lexems.lbr2 != lexems.lbr3
    requires Matches(ExpressionSeqCompute(size, nesting, lexems, d2, d3), w)
    ensures Deepest(w, [], {lexems.lbr2, lexems.lbr3}, lexems.rbr3, lexems.lbr3) <= Budget(nesting, d3)
    ensures Deepest(w, [], {lexems.lbr2, lexems.lbr3}, lexems.rbr3, lexems.lbr2) <= Budget(nesting, d2)
    decreases Budget(nesting, d2) + Budget(nesting, d3), 1
  {
    var e := ExpressionCompute(size, nesting, lexems, d2, d3);
    var opens := {lexems.lbr2, lexems.lbr3};
    var close := lexems.rbr3;
    ExpressionSeqLanguage(size, nesting, lexems, d2, d3, w);
    var es :| |es| >= 1 && AllMatch(e, es) && w == Join(es, lexems.blank);
    forall i | 0 <= i < |es|
      ensures Net(es[i], opens, close) == 0 && Low(es[i], opens, close) == 0
      ensures Deepest(es[i], [], opens, close, lexems.lbr3) <= Budget(nesting, d3)
      ensures Deepest(es[i], [], opens, close, lexems.lbr2) <= Budget(nesting, d2)
    {
      ExpressionNested(size, nesting, lexems, d2, d3, es[i]);
      ExpressionFamilies(size, nesting, lexems, d2, d3, es[i]);
    }
    JoinDeepest(es, lexems.blank, opens, close, lexems.lbr3, Budget(nesting, d3));
    JoinDeepest(es, lexems.blank, opens, close, lexems.lbr2, Budget(nesting, d2));
  }

  /** With `nesting = 1`, two `lbr3` brackets open at once are not an expression. */
  lemma ExpressionTwiceRejected(size: int, lexems: LexemBundle)
    requires BracketsDistinct(lexems) && lexems.lbr2 != lexems.lbr3
    ensures !Matches(ExpressionCompute(size, 1, lexems, 0, 0),
                     [lexems.lbr3, lexems.lbr3, lexems.variable, lexems.rbr3, lexems.rbr3])
  {
    var opens := {lexems.lbr2, lexems.lbr3};
    var w := [lexems.lbr3, lexems.lbr3, lexems.variable, lexems.rbr3, lexems.rbr3];
    assert w == [lexems.lbr3, lexems.lbr3] + [lexems.variable, lexems.rbr3, lexems.rbr3];
    TwoOpen(lexems.lbr3, opens, lexems.rbr3);
    DeepestAtLeastPrefix([lexems.lbr3, lexems.lbr3], [lexems.variable, lexems.rbr3, lexems.rbr3], [], opens, lexems.rbr3, lexems.lbr3);
    if Matches(ExpressionCompute(size, 1, lexems, 0, 0), w) {
      ExpressionFamilies(size, 1, lexems, 0, 0, w);
    }
  }

  /**
   A sentence's pattern, built from depths `(0, 0)`, nests its `lbr3` brackets
   at most `nesting` deep, and its expression nests `lbr2`/`lbr3` brackets at
   most `2 * nesting` deep: the recursion depth bound of the two counters.
   */
  lemma SentenceDepthBound(size: int, nesting: int, lexems: LexemBundle, p: seq<Token>, e: seq<Token>)
    requires nesting >= 0
    ensures PatternBracketsDistinct(lexems) && Matches(PatternCompute(size, nesting, lexems, 0, 0), p)
        ==> Net(p, {lexems.lbr3}, lexems.rbr3) == 0 && Peak(p, {lexems.lbr3}, lexems.rbr3) <= nesting
    ensures BracketsDistinct(lexems) && Matches(ExpressionCompute(size, nesting, lexems, 0, 0), e)
        ==> Net(e, {lexems.lbr2, lexems.lbr3}, lexems.rbr3) == 0 && Peak(e, {lexems.lbr2, lexems.lbr3}, lexems.rbr3) <= 2 * nesting
    ensures BracketsDistinct(lexems) && lexems.lbr2 != lexems.lbr3 && Matches(ExpressionCompute(size, nesting, lexems, 0, 0), e)
        ==> && Deepest(e, [], {lexems.lbr2, lexems.lbr3}, lexems.rbr3, lexems.lbr3) <= nesting
            && Deepest(e, [], {lexems.lbr2, lexems.lbr3}, lexems.rbr3, lexems.lbr2) <= nesting
  {
    if PatternBracketsDistinct(lexems) && Matches(PatternCompute(size, nesting, lexems, 0, 0), p) {
      PatternNested(size, nesting, lexems, 0, 0, p);
    }
    if BracketsDistinct(lexems) && Matches(ExpressionCompute(size, nesting, lexems, 0, 0), e) {
      ExpressionNested(size, nesting, lexems, 0, 0, e);
      if lexems.lbr2 != lexems.lbr3 {
        ExpressionFamilies(size, nesting, lexems, 0, 0, e);
      }
    }
  }

  /** With `nesting = 1`, a bracketed sequence of two variables is a pattern sequence. */
  lemma NestedOnceAccepted(size: int, lexems: LexemBundle)
    ensures Matches(PatternSeqCompute(size, 1, lexems, 0, 0),
                    [lexems.lbr3, lexems.variable, lexems.blank, lexems.variable, lexems.rbr3])
  {
    var w := [lexems.lbr3, lexems.variable, lexems.blank, lexems.variable, lexems.rbr3];
    var inner := [lexems.variable, lexems.blank, lexems.variable];
    var vs := [[lexems.variable], [lexems.variable]];
    NestedOnceWords(lexems.lbr3, lexems.variable, lexems.blank, lexems.rbr3);
    assert AllMatch(PatternCompute(size, 1, lexems, 0, 1), vs);
    PatternSeqLanguage(size, 1, lexems, 0, 1, inner);
    PatternAlternatives(size, 1, lexems, 0, 0, w);
    assert AllMatch(PatternCompute(size, 1, lexems, 0, 0), [w]);
    PatternSeqLanguage(size, 1, lexems, 0, 0, w);
  }

  /** How the word of `NestedOnceAccepted` splits into pieces. */
  lemma NestedOnceWords(o: Token, x: Token, b: Token, c: Token)
    ensures Join([[x], [x]], b) == [x, b, x]
    ensures [o, x, b, x, c][1..4] == [x, b, x]
    ensures Join([[o, x, b, x, c]], b) == [o, x, b, x, c]
  {
    assert [[x], [x]][1..] == [[x]];
  }

  /** With `nesting = 1`, the same sequence bracketed twice is not a pattern sequence. */
  lemma NestedTwiceRejected(size: int, lexems: LexemBundle)
    requires PatternBracketsDistinct(lexems)
    ensures !Matches(PatternSeqCompute(size, 1, lexems, 0, 0),
                     [lexems.lbr3, lexems.lbr3, lexems.variable, lexems.blank, lexems.variable, lexems.rbr3, lexems.rbr3])
  {
    var opens := {lexems.lbr3};
    var w := [lexems.lbr3, lexems.lbr3, lexems.variable, lexems.blank, lexems.variable, lexems.rbr3, lexems.rbr3];
    var twoOpen := [lexems.lbr3, lexems.lbr3];
    assert twoOpen[1..] == [lexems.lbr3];
    assert [lexems.lbr3][1..] == [];
    assert Net([lexems.lbr3], opens, lexems.rbr3) == 1;
    assert Net(twoOpen, opens, lexems.rbr3) == 2;
    assert w == twoOpen + w[2..];
    PeakAtLeast(twoOpen, w[2..], opens, lexems.rbr3);
    if Matches(PatternSeqCompute(size, 1, lexems, 0, 0), w) {
      PatternSeqNested(size, 1, lexems, 0, 0, w);
    }
  }

  /*** Definitions and programs ***/

  /**
   A definition is `const lbr1`, then any sequence of end-of-line and blank
   tokens (the sentences, each of which is the blank token), then `rbr1`.
   */
  lemma DefinitionShape(size: int, nesting: int, lexems: LexemBundle, w: seq<Token>)
    ensures Matches(DefinitionCompute(size, nesting, lexems), w)
        <==> && |w| >= 3
             && w[0] == lexems.constant && w[1] == lexems.lbr1 && w[|w| - 1] == lexems.rbr1
             && Over(w[2..|w| - 1], {lexems.eol, lexems.blank})
  {
    var head := Cat(Tok(lexems.constant), Tok(lexems.lbr1));
    var sentences := Star(Cat(Star(Tok(lexems.eol)), Tok(lexems.blank)));
    var trailing := Star(Tok(lexems.eol));
    CatTokRight(Cat(Cat(head, sentences), trailing), lexems.rbr1, w);
    if |w| >= 1 {
      var v := w[..|w| - 1];
      CatAssoc(head, sentences, trailing, v);
      forall u ensures Matches(head, u) <==> u == [lexems.constant, lexems.lbr1] {
        TwoTokens(lexems.constant, lexems.lbr1, u);
      }
      FixedPrefix(head, [lexems.constant, lexems.lbr1], Cat(sentences, trailing), v);
      if |v| >= 2 {
        ChunksOverIff(lexems.eol, lexems.blank, v[2..]);
        InitSlices(w, 2);
        PairPrefix(v, lexems.constant, lexems.lbr1);
      }
    }
  }

  /**
   Every program word is non-empty, ends with an end-of-line token and
   contains a definition.
   */
  lemma ProgramShape(size: int, nesting: int, lexems: LexemBundle, w: seq<Token>)
    requires Matches(ProgramCompute(size, nesting, lexems), w)
    ensures |w| >= 1 && w[|w| - 1] == lexems.eol
    ensures exists i, j :: 0 <= i <= j <= |w| && Matches(DefinitionCompute(size, nesting, lexems), w[i..j])
  {
    var i, k := LinesShape(DefinitionCompute(size, nesting, lexems), lexems.eol, w);
  }

  /**
   The exact language of a program: a run of end-of-line tokens, then one or
   more lines, each a definition followed by a non-empty run of end-of-line
   tokens.
   */
  lemma ProgramLanguage(size: int, nesting: int, lexems: LexemBundle, w: seq<Token>)
    ensures Matches(ProgramCompute(size, nesting, lexems), w)
        <==> exists a, ds, es :: && Over(a, {lexems.eol})
                                 && LinesOf(DefinitionCompute(size, nesting, lexems), lexems.eol, ds, es)
                                 && w == a + Lines(ds, es)
  {
    LinesIff(DefinitionCompute(size, nesting, lexems), lexems.eol, w);
  }

  /** The empty word is not a program. */
  lemma EmptyProgramRejected(size: int, nesting: int, lexems: LexemBundle)
    ensures !Matches(ProgramCompute(size, nesting, lexems), [])
  {
    if Matches(ProgramCompute(size, nesting, lexems), []) {
      ProgramShape(size, nesting, lexems, []);
    }
  }

  /** The shortest program: an empty definition and one end-of-line token. */
  lemma MinimalProgram(size: int, nesting: int, lexems: LexemBundle)
    ensures Matches(ProgramCompute(size, nesting, lexems), [lexems.constant, lexems.lbr1, lexems.rbr1, lexems.eol])
  {
    var d := [lexems.constant, lexems.lbr1, lexems.rbr1];
    assert d[2..|d| - 1] == [];
    DefinitionShape(size, nesting, lexems, d);
    assert d + [lexems.eol] == [lexems.constant, lexems.lbr1, lexems.rbr1, lexems.eol];
  }
}
