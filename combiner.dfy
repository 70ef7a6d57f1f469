/**
 The grammar-to-automaton compiler of `lexems/combiner.kt`.

 Each function builds, from the atomic lexeme automata, the automaton of one
 grammar rule; the automata are `Regex` values (see module `Automata`).  The
 local rebinding of `res`, `tmp1` and `tmp2` in the source is kept as a chain
 of `var` bindings.  Two behaviours of the code are kept as written:
 `SentenceCompute` returns the blank automaton and discards the concatenation
 it builds, and the depth-2 expression alternative closes with the third
 bracket family's closer `rbr3`.
 */
module Combiner {
  import opened Automata

  /** The atomic lexeme automata, each standing for the single token it accepts. */
  datatype LexemBundle = LexemBundle(
    eol: Token,
    variable: Token,
    constant: Token,
    blank: Token,
    equal: Token,
    sep: Token,
    lbr1: Token,
    rbr1: Token,
    lbr2: Token,
    lbr3: Token,
    rbr3: Token)

  /**
   How many more levels of nesting a depth counter allows; zero once the
   counter has reached `nesting`.  It is the termination measure of the
   recursion below.
   */
  function Budget(nesting: int, depth: int): (b: nat)
  {
    if depth < nesting then nesting - depth else 0
  }

  /** The atomic automaton of a variable or a constant: the base alternative of patterns and expressions. */
  function Atom(lexems: LexemBundle): (r: Regex)
    ensures Matches(r, [lexems.variable]) && Matches(r, [lexems.constant])
  {
    Alt(Tok(lexems.variable), Tok(lexems.constant))
  }

  /**
   The compiled automaton.  Since a sentence is the blank automaton, it
   depends on neither `size` nor `nesting`.
   */
  function CombineLexems(size: int, nesting: int, lexems: LexemBundle): (r: Regex)
    ensures forall otherSize, otherNesting :: r == ProgramCompute(otherSize, otherNesting, lexems)
  {
    var res := ProgramCompute(size, nesting, lexems);
    res
  }

  /** A program is `eol* (definition eol+)+`; in particular a definition and one end-of-line token. */
  function ProgramCompute(size: int, nesting: int, lexems: LexemBundle): (r: Regex)
    ensures forall d :: Matches(DefinitionCompute(size, nesting, lexems), d) ==> Matches(r, d + [lexems.eol])
  {
    var eol := Tok(lexems.eol);
    var definition := DefinitionCompute(size, nesting, lexems);
    var res := Plus(eol);
    var res1 := Cat(definition, res);
    var res2 := Plus(res1);
    var eolKleeneStar := Star(eol);
    LineIntro(definition, lexems.eol);
    Cat(eolKleeneStar, res2)
  }

  /**
   A definition is `const lbr1 (eol* sentence)* eol* rbr1`; since a sentence is
   the blank token, it accepts `const lbr1`, any run of end-of-line and blank
   tokens, then `rbr1`.
   */
  function DefinitionCompute(size: int, nesting: int, lexems: LexemBundle): (r: Regex)
    ensures forall m ::
      Over(m, {lexems.eol, lexems.blank}) ==> Matches(r, [lexems.constant, lexems.lbr1] + m + [lexems.rbr1])
  {
    var const_ := Tok(lexems.constant);
    var lbr1 := Tok(lexems.lbr1);
    var rbr1 := Tok(lexems.rbr1);
    var eol := Tok(lexems.eol);
    var sentence := SentenceCompute(size, nesting, lexems);
    var res := Cat(const_, lbr1);
    var eolKleene := Star(eol);
    var tmp1 := Cat(eolKleene, sentence);
    var tmp2 := Star(tmp1);
    var res1 := Cat(res, tmp2);
    var res2 := Cat(res1, eolKleene);
    DelimitedChunks(lexems.constant, lexems.lbr1, lexems.eol, lexems.blank, lexems.rbr1);
    Cat(res2, rbr1)
  }

  /** Builds `pattern equal expression sep`, then returns the blank automaton instead. */
  function SentenceCompute(size: int, nesting: int, lexems: LexemBundle): (r: Regex)
    ensures forall w :: Matches(r, w) <==> w == [lexems.blank]
  {
    var equal := Tok(lexems.equal);
    var sep := Tok(lexems.sep);
    var pattern := PatternCompute(size, nesting, lexems, 0, 0);
    var expression := ExpressionCompute(size, nesting, lexems, 0, 0);
    var res := Cat(pattern, equal);
    var res1 := Cat(res, expression);
    var res2 := Cat(res1, sep);
    Tok(lexems.blank)
  }

  function PatternCompute(size: int, nesting: int, lexems: LexemBundle, currentDepth2: int, currentDepth3: int): (r: Regex)
    ensures Matches(r, [lexems.variable]) && Matches(r, [lexems.constant])
    decreases Budget(nesting, currentDepth3), 0
  {
    var res := Atom(lexems);
    if currentDepth3 < nesting then
      var tmp1 := PatternSeqCompute(size, nesting, lexems, currentDepth2, currentDepth3 + 1);
      var tmp2 := Cat(Tok(lexems.lbr3), tmp1);
      var tmp3 := Cat(tmp2, Tok(lexems.rbr3));
      Alt(res, tmp3)
    else
      res
  }

  /** One or more patterns separated by blanks: it accepts every pattern, and every two patterns with a blank between them. */
  function PatternSeqCompute(size: int, nesting: int, lexems: LexemBundle, currentDepth2: int, currentDepth3: int): (r: Regex)
    ensures forall p :: Matches(PatternCompute(size, nesting, lexems, currentDepth2, currentDepth3), p) ==> Matches(r, p)
    ensures forall p, q ::
        Matches(PatternCompute(size, nesting, lexems, currentDepth2, currentDepth3), p)
        && Matches(PatternCompute(size, nesting, lexems, currentDepth2, currentDepth3), q)
        ==> Matches(r, p + [lexems.blank] + q)
    decreases Budget(nesting, currentDepth3), 1
  {
    var pattern := PatternCompute(size, nesting, lexems, currentDepth2, currentDepth3);
    var res := Cat(Tok(lexems.blank), pattern);
    var res1 := Star(res);
    SepListPair(pattern, lexems.blank);
    Cat(pattern, res1)
  }

  function ExpressionCompute(size: int, nesting: int, lexems: LexemBundle, currentDepth2: int, currentDepth3: int): (r: Regex)
    ensures Matches(r, [lexems.variable]) && Matches(r, [lexems.constant])
    decreases Budget(nesting, currentDepth2) + Budget(nesting, currentDepth3), 0
  {
    var res := Atom(lexems);
    var res1 :=
      if currentDepth3 < nesting then
        var tmp1 := ExpressionSeqCompute(size, nesting, lexems, currentDepth2, currentDepth3 + 1);
        var tmp2 := Cat(Tok(lexems.lbr3), tmp1);
        var tmp3 := Cat(tmp2, Tok(lexems.rbr3));
        Alt(res, tmp3)
      else
        res;
    if currentDepth2 < nesting then
      var expressionSeq := ExpressionCompute(size, nesting, lexems, currentDepth2 + 1, currentDepth3);
      var tmp2 := Cat(Tok(lexems.lbr2), Tok(lexems.constant));
      var tmp3 := Cat(tmp2, Tok(lexems.blank));
      var tmp4 := Cat(tmp3, expressionSeq);
      var tmp5 := Cat(tmp4, Tok(lexems.rbr3));
      Alt(res1, tmp5)
    else
      res1
  }

  /** One or more expressions separated by blanks: it accepts every expression, and every two expressions with a blank between them. */
  function ExpressionSeqCompute(size: int, nesting: int, lexems: LexemBundle, currentDepth2: int, currentDepth3: int): (r: Regex)
    ensures forall e :: Matches(ExpressionCompute(size, nesting, lexems, currentDepth2, currentDepth3), e) ==> Matches(r, e)
    ensures forall e, f ::
        Matches(ExpressionCompute(size, nesting, lexems, currentDepth2, currentDepth3), e)
        && Matches(ExpressionCompute(size, nesting, lexems, currentDepth2, currentDepth3), f)
        ==> Matches(r, e + [lexems.blank] + f)
    decreases Budget(nesting, currentDepth2) + Budget(nesting, currentDepth3), 1
  {
    var expression := ExpressionCompute(size, nesting, lexems, currentDepth2, currentDepth3);
    var res := Cat(Tok(lexems.blank), expression);
    var res1 := Star(res);
    SepListPair(expression, lexems.blank);
    Cat(expression, res1)
  }
}
