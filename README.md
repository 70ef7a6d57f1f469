# Grammar-to-automaton compiler, modelled in Dafny

This project models the compiler in `src/main/kotlin/lexems/combiner.kt`. The compiler builds one
automaton for a small bracketed program language. Its inputs are two integers, `size` and
`nesting`, and a `LexemBundle` that holds one atomic automaton per kind of token. It composes them
recursively along the grammar:

- program → definitions;
- definition → sentences;
- sentence → pattern and expression;
- patterns and expressions nest brackets along two depth counters, `currentDepth2` and
  `currentDepth3`, each bounded by `nesting`.

The project has four modules:

- `Automata` (automata.dfy) models an automaton by the regular expression it was composed from.
  `Tok` is an atomic lexeme automaton. `Cat`, `Alt`, `Star` and `Plus` stand for
  `concatenateAutomata`, `dfaUnion`, `kleeneStar` and `kleeneOneOrMore`. The ghost predicate
  `Matches` gives each its standard language, and the module proves the language laws the
  compiler relies on.
- `Combiner` (combiner.dfy) has one function per `*Compute`
  function. Each rebinds its locals exactly as the source does. The datatype `LexemBundle` holds
  one token per atomic automaton. The field names `variable` and `constant` stand for the
  source's `var` and `const`, which are Dafny keywords. The mutual recursion terminates on
  `Budget(nesting, d)`, the number of nesting levels a counter has left.
- `Nesting` (nesting.dfy) is an independent reference definition of bracket balance. It uses
  running sums over a word: `Net`, `Peak` and `Low`. It also gives a per-family measure. `Stack`
  pushes each opener and pops at each closer, so a closer always closes the innermost open
  bracket, and `Deepest` is the largest number of brackets of one family open at once.
- `CombinerProperties` (combiner_properties.dfy) proves what the compiled automata accept:
  - the exact alternatives of patterns and expressions;
  - the separated-list languages of the `*Seq` rules;
  - the shape of definitions and programs;
  - the bracket depth that the bounded recursion allows;
  - the irrelevance of `size` (and, for the whole program, of `nesting`).

Two behaviours of the code look unintended. Both are modelled as written:

- `sentenceCompute` builds `pattern equal expression sep` and discards it, returning the blank
  automaton (combiner.kt:44-47). A sentence is therefore the single blank token, and a definition
  is `const lbr1`, any run of end-of-line and blank tokens, then `rbr1`. The compiled automaton
  therefore depends on neither `size` nor `nesting`, as the contract of `CombineLexems` states.
- The depth-2 expression alternative opens with `lbr2` and closes with `rbr3` (combiner.kt:81-84).
  The nesting lemmas for expressions therefore count `lbr2` and `lbr3` as openers of the one
  closer `rbr3`.

## Model

| member | source | states |
|---|---|---|
| `Automata.PlusIsCatStar` | src/main/kotlin/lexems/combiner.kt:14-16 | For every `x`, `Plus(x)` (`kleeneOneOrMore`) accepts exactly a word of `x` followed by a word of `Star(x)`, in both directions |
| `Automata.StarTokens` | src/main/kotlin/lexems/combiner.kt:17 | `Star(Tok(eol))` accepts exactly the words made only of `eol`, including the empty word |
| `Automata.PlusTokens` | src/main/kotlin/lexems/combiner.kt:14 | `Plus(Tok(eol))` accepts exactly the non-empty words made only of `eol` |
| `Automata.SepListIff` | src/main/kotlin/lexems/combiner.kt:62-68 | `x (sep x)*` accepts exactly the joins, with separator `sep`, of non-empty lists of words of `x` |
| `Automata.ChunksOverIff` | src/main/kotlin/lexems/combiner.kt:30-34 | `(eol* t)* eol*` accepts exactly the words made of `eol` and `t` in any order |
| `Automata.Bracketed` | src/main/kotlin/lexems/combiner.kt:55-56 | `o x c` accepts exactly the words that start with `o`, end with `c` and have a word of `x` in between |
| `Automata.OpenedByThree` | src/main/kotlin/lexems/combiner.kt:81-84 | `a b c x d` accepts exactly the words that start with `[a, b, c]`, end with `d` and have a word of `x` in between |
| `Combiner.Atom` | src/main/kotlin/lexems/combiner.kt:52 | The base union accepts the variable token and the constant token |
| `Combiner.CombineLexems` | src/main/kotlin/lexems/combiner.kt:5-8 | The result is the program automaton, and it is the same for every value of `size` and of `nesting`: the discarded sentence rule leaves the pattern and expression recursion without effect |
| `Combiner.ProgramCompute` | src/main/kotlin/lexems/combiner.kt:10-20 | Every definition word followed by one `eol` is a program word (the exact language is in `ProgramLanguage`) |
| `Combiner.DefinitionCompute` | src/main/kotlin/lexems/combiner.kt:22-37 | `const lbr1`, then any word made only of `eol` and `blank` tokens, then `rbr1`, is a definition (both directions are in `DefinitionShape`) |
| `Combiner.SentenceCompute` | src/main/kotlin/lexems/combiner.kt:39-49 | The sentence automaton accepts exactly the one-token word `[blank]` |
| `Combiner.PatternSeqCompute` | src/main/kotlin/lexems/combiner.kt:62-68 | A pattern sequence accepts every pattern at the same depths, and every two such patterns with `blank` between them |
| `Combiner.ExpressionSeqCompute` | src/main/kotlin/lexems/combiner.kt:90-96 | An expression sequence accepts every expression at the same depths, and every two such expressions with `blank` between them |
| `Combiner.PatternCompute` | src/main/kotlin/lexems/combiner.kt:51-60 | At every depth, a pattern accepts a lone variable and a lone constant |
| `Combiner.ExpressionCompute` | src/main/kotlin/lexems/combiner.kt:70-88 | At every depth, an expression accepts a lone variable and a lone constant |
| `CombinerProperties.PatternSizeIrrelevant` | src/main/kotlin/lexems/combiner.kt:51-60 | `patternCompute` builds the same automaton for any two sizes |
| `CombinerProperties.PatternSeqSizeIrrelevant` | src/main/kotlin/lexems/combiner.kt:62-68 | `patternSeqCompute` builds the same automaton for any two sizes |
| `CombinerProperties.ExpressionSizeIrrelevant` | src/main/kotlin/lexems/combiner.kt:70-88 | `expressionCompute` builds the same automaton for any two sizes |
| `CombinerProperties.ExpressionSeqSizeIrrelevant` | src/main/kotlin/lexems/combiner.kt:90-96 | `expressionSeqCompute` builds the same automaton for any two sizes |
| `CombinerProperties.PatternIgnoresDepth2` | src/main/kotlin/lexems/combiner.kt:51-60 | `patternCompute` builds the same automaton for any two values of `currentDepth2`: patterns pass it down and never test it |
| `CombinerProperties.PatternSeqIgnoresDepth2` | src/main/kotlin/lexems/combiner.kt:62-68 | `patternSeqCompute` builds the same automaton for any two values of `currentDepth2` |
| `CombinerProperties.PatternAtCutoff` | src/main/kotlin/lexems/combiner.kt:51-60 | Once `currentDepth3 >= nesting`, a pattern is exactly `union(var, const)` and accepts only the lone variable or the lone constant |
| `CombinerProperties.ExpressionAtCutoff` | src/main/kotlin/lexems/combiner.kt:70-88 | Once both counters reach `nesting`, an expression is exactly `union(var, const)` and accepts only the lone variable or the lone constant |
| `CombinerProperties.NoBracketsAtNestingZero` | src/main/kotlin/lexems/combiner.kt:42-43 | With `nesting = 0`, the pattern and the expression of a sentence have no bracketed alternative |
| `CombinerProperties.SentenceIsBlank` | src/main/kotlin/lexems/combiner.kt:39-49 | The sentence automaton is the blank automaton itself; the concatenation built before it is discarded |
| `CombinerProperties.SentenceIgnoresOtherLexems` | src/main/kotlin/lexems/combiner.kt:39-49 | Two compilations whose blank lexemes agree give the same sentence automaton, whatever the size, nesting and other lexemes |
| `CombinerProperties.PatternAlternatives` | src/main/kotlin/lexems/combiner.kt:51-60 | A word is a pattern iff it is the lone variable, the lone constant, or (only when `currentDepth3 < nesting`) `lbr3`, a pattern sequence at depth3 + 1, then `rbr3` |
| `CombinerProperties.ExpressionAlternatives` | src/main/kotlin/lexems/combiner.kt:70-88 | A word is an expression iff it is one of: the lone variable; the lone constant; `lbr3 expressionSeq(d2, d3+1) rbr3`, only when `currentDepth3 < nesting`; or `lbr2 const blank expression(d2+1, d3) rbr3`, only when `currentDepth2 < nesting` |
| `CombinerProperties.PatternSeqLanguage` | src/main/kotlin/lexems/combiner.kt:62-68 | A pattern sequence is exactly one or more patterns at the same depths joined by `blank`, and is never empty |
| `CombinerProperties.ExpressionSeqLanguage` | src/main/kotlin/lexems/combiner.kt:90-96 | An expression sequence is exactly one or more expressions at the same depths joined by `blank`, and is never empty |
| `CombinerProperties.PatternNested` | src/main/kotlin/lexems/combiner.kt:51-60 | Every pattern word is balanced in `lbr3`/`rbr3` and nests at most `nesting - currentDepth3` levels |
| `CombinerProperties.PatternSeqNested` | src/main/kotlin/lexems/combiner.kt:62-68 | Every pattern-sequence word is balanced in `lbr3`/`rbr3` and nests at most `nesting - currentDepth3` levels |
| `CombinerProperties.ExpressionNested` | src/main/kotlin/lexems/combiner.kt:70-88 | Every expression word is balanced, with `lbr2` and `lbr3` both closed by `rbr3`, and nests at most as many levels as the two counters have left together |
| `CombinerProperties.SecondBracketNested` | src/main/kotlin/lexems/combiner.kt:81-84 | The `lbr2 const blank e rbr3` alternative keeps a balanced `e` balanced, and its peak depth is exactly that of `e` plus one |
| `CombinerProperties.ExpressionSeqNested` | src/main/kotlin/lexems/combiner.kt:90-96 | Every expression-sequence word is balanced and nests at most as many levels as the two counters have left together |
| `CombinerProperties.ExpressionFamilies` | src/main/kotlin/lexems/combiner.kt:70-88 | In every expression word, with each `rbr3` closing the innermost open bracket, at most `nesting - currentDepth3` `lbr3` brackets and at most `nesting - currentDepth2` `lbr2` brackets are open at any point |
| `CombinerProperties.SecondBracketFamilies` | src/main/kotlin/lexems/combiner.kt:79-85 | The `lbr2 const blank e rbr3` alternative opens one more `lbr2` around a balanced `e` and no more `lbr3` |
| `CombinerProperties.ExpressionSeqFamilies` | src/main/kotlin/lexems/combiner.kt:90-96 | The same two per-family bounds hold for every expression-sequence word |
| `CombinerProperties.ExpressionTwiceRejected` | src/main/kotlin/lexems/combiner.kt:72-78 | With `nesting = 1`, `lbr3 lbr3 var rbr3 rbr3` is not an expression |
| `CombinerProperties.SentenceDepthBound` | src/main/kotlin/lexems/combiner.kt:42-43 | From depths `(0, 0)`, a pattern nests at most `nesting` brackets deep (under `PatternBracketsDistinct`); an expression has at most `nesting` open `lbr3` and at most `nesting` open `lbr2` at once, so at most `2 * nesting` brackets together |
| `CombinerProperties.NestedOnceAccepted` | src/main/kotlin/lexems/combiner.kt:53-57 | With `nesting = 1`, `lbr3 var blank var rbr3` is a pattern sequence |
| `CombinerProperties.NestedTwiceRejected` | src/main/kotlin/lexems/combiner.kt:53-57 | With `nesting = 1`, the same word bracketed twice is not a pattern sequence |
| `CombinerProperties.DefinitionShape` | src/main/kotlin/lexems/combiner.kt:22-37 | A word is a definition iff it starts with `const lbr1`, ends with `rbr1`, and has only `eol` and `blank` tokens in between |
| `CombinerProperties.ProgramLanguage` | src/main/kotlin/lexems/combiner.kt:10-20 | A word is a program iff it is a run of `eol` tokens, then one or more lines, each a definition word followed by a non-empty run of `eol` tokens (`Automata.Lines`, `Automata.LinesOf`) |
| `CombinerProperties.ProgramShape` | src/main/kotlin/lexems/combiner.kt:10-20 | Every program word is non-empty, ends with `eol`, and contains a definition word as a contiguous piece |
| `CombinerProperties.EmptyProgramRejected` | src/main/kotlin/lexems/combiner.kt:10-20 | The empty word is not a program |
| `CombinerProperties.MinimalProgram` | src/main/kotlin/lexems/combiner.kt:10-37 | `const lbr1 rbr1 eol`, an empty definition and one end-of-line token, is a program |

## Left out

- The automaton algebra and `CompactDFA` objects. The source's automaton type is a library class; a `Regex` over its language stands for each one.
  - Not modelled: state layout, determinisation, minimisation and the state count reported by `size()`.
  - The four algebra functions are foreign code whose source is not part of this model. Only their standard language meaning is modelled.
- The source of `LexemBundle` is not part of this model. The bundle is modelled as one token per atomic automaton, each atomic automaton accepting exactly its one token.
- `src/main/kotlin/server/server.kt` is not modelled. It holds HTTP routing, the JSON request and response lenses, and the shared mutable slot for the current automaton, which requests handled concurrently read and replace.
- `lexems.generateLexems` and the query oracle `checkWord`/`checkAutomata` are not modelled. Their source is not part of this model.
- Memoisation and cost: the source recomputes sub-automata on every call, and cost is not a behavioural property.
- The `size` parameter is threaded through every call and never read. The model keeps it, and the size-irrelevance lemmas state that it has no effect.
- The intended sentence rule `pattern equal expression sep` is not what the code returns, so no language is stated for it. `SentenceCompute` builds the concatenation and discards it, exactly as the source does.
- The pattern nesting lemmas (`PatternNested`, `PatternSeqNested`, `NestedTwiceRejected` and the pattern part of `SentenceDepthBound`) assume only `PatternBracketsDistinct`: `rbr3` differs from `lbr3`, and the variable, constant and blank lexemes are neither `lbr3` nor `rbr3`.
- The expression nesting lemmas assume `BracketsDistinct`. It asks that `rbr3` differ from `lbr2` and from `lbr3`, and that the variable, constant and blank lexemes be neither `lbr2`, `lbr3` nor `rbr3`. It says nothing about `lbr1`, `rbr1`, `eol`, `equal` or `sep`, and it allows `lbr2 == lbr3`. The source does not check any of this, because the lexeme bundle is generated elsewhere.
- The per-family bounds (`ExpressionFamilies`, `ExpressionSeqFamilies`, `ExpressionTwiceRejected` and the per-family part of `SentenceDepthBound`) also assume `lbr2 != lbr3`. When the two openers are one token, no word can tell the families apart, and only the combined bound of `ExpressionNested` holds.
- `CombinerProperties.ProgramShape` states three consequences for every program word: it is non-empty, it ends with `eol`, and it contains a definition. They do not characterise a program; `ProgramLanguage` is the exact language.
- Error handling: the compiler has no error path. Every input builds an automaton, and the model has none either.
