# Formula normalisation in script.js, modelled in Dafny

`script.js` converts a logical formula, either propositional or first-order, into
normal forms. The formula is typed in ASCII/LaTeX notation.
`FormulaParser` cleans the text up and turns the LaTeX macros into the internal
symbols `∀ ∃ ∧ ∨ ¬ → ↔`.
`FormulaTransformer` then rewrites that text, step by step, into:

- a prenex conjunctive normal form (`toPrenexCNF`);
- a prenex disjunctive normal form (`toPrenexDNF`);
- a set of clauses (`toClausalForm`);
- Horn and non-Horn clauses (`toHornClauses`).

Each of these records a trace of steps, each step being a description and the
formula after it.

The program works on **text**: every stage is a regular-expression substitution
applied to the formula string, often inside a loop. The model does the same.

`script.js` builds no syntax tree, so neither does the model, and the model
makes no claim that a rewritten formula is logically equivalent to the input.

What is proved is what the string rewriting itself guarantees:

- which symbols are gone afterwards;
- how many passes the loops run;
- the order in which the trace records its steps;
- the exact shape of the clauses;
- the partition into Horn and non-Horn clauses.

It also proves exactly where the loops of the source never terminate.

Modules, in dependency order:

- `Text` (text.dfy): the JavaScript string built-ins the pipeline uses, written
  out over `seq<char>`:
  - `includes`, `indexOf`, `replace` with a string pattern;
  - `trim`, with JavaScript's white-space set;
  - `split` on one character, and `join`.
- `Regex` (regex.dfy): every regular expression of the pipeline, as a `Rule`.
  - `MatchAt` is the match the expression makes at one start position.
  - `Global` is `replace` with the `g` flag: after each match, the scan
    resumes at its end.
  - `FirstMatch`/`ReplaceFirstMatch` are `replace` without the flag.
  - `Scan` is the `exec` loop of a global expression.
  - `Tries` tabulates the match at every position, and the searches read that
    table.
- `Patterns` (patterns.dfy): what each scanner of `Regex` matches, stated as
  the regular expression reads. For each pattern, a `...Found` lemma says the
  scanner matches wherever the text can be read as the pattern, and returns
  exactly the greedy reading; a `...Sound` lemma says that what it returns is
  such a reading.
- `Parser` (parser.dfy): `FormulaParser`, modelled as pure functions.
  `Words` splits a text into its maximal runs without white space, by plain
  recursion; the cleaned text is proved to be those words joined by single
  blanks.
- `Stages` (stages.dfy): the helper methods of `FormulaTransformer`, as
  specification functions. They are:
  - the two elimination loops;
  - the bounded loops of `pushNegations` (10 passes) and `toCNF`/`toDNF`
    (20 passes);
  - `toPrenex`;
  - `skolemize`.
- `Clauses` (clauses.dfy): `extractClauses`, `isHornClause`, and the split
  `toHornClauses` makes.
- `Pipeline` (pipeline.dfy): the four drivers, as functions from the parsed
  formula to an `Outcome`:
  - `Returns` holds the value returned;
  - `Throws` holds the message of the exception;
  - `Spins` holds the trace recorded before a loop that never ends.

  The trace is a sequence of `Step(stage, formula)`. `Description` gives the
  exact Portuguese text the source stores for each stage.
- `Transformer` (transformer.dfy): the class `FormulaTransformer`.
  - It has the fields `formula` and `steps`, and one method per source method.
  - Each of these methods is proved to compute its specification function.
  - Each driver resets and fills `steps` as the source does.
- `Scenarios` (scenarios.dfy): concrete inputs on which the elimination loop
  and `skolemize` never terminate, or lose the Skolem renaming.

Behaviour of the source that the model makes explicit:

- **`eliminateBiconditionals` and `eliminateImplications` do not always
  terminate.** They loop while the symbol occurs. Each rewrite removes exactly
  one occurrence (`Stages.EliminationStepCount`). Once the pattern stops
  matching, though, the loop repeats a no-op for ever; `P→Q→R` is such an input
  (`Scenarios.ChainedImplicationSpins`).
- **`skolemize` deletes each `∃x` and keeps `x`.** The callback renames the
  variable inside `result`, but the outer assignment then overwrites `result`
  with what `replace` returns. That value has only the `∃x` deleted.
  - The Skolem counter and the renaming therefore have no effect
    (`Scenarios.VariableKept`).
  - An `∃` not directly followed by a word character makes the loop spin. That
    is the case in `∃ x P(x)`, which is what the parser makes of
    `\exists x P(x)` (`Scenarios.ParsedSpacedExistential`,
    `Scenarios.SpacedExistentialSpins`).
- A method here must terminate. So the loop methods stop where the source would
  spin and report it: helpers return `Diverges(stuck)` and drivers return
  `Spins(trace, stuck)`. The contracts state that the symbol is still present
  and that the pattern matches nowhere in `stuck`.
- `toPrenex` only finds a quantifier followed directly by a word character.
  Each token found is deleted where it first occurs in the matrix. The tokens
  are then put in front, in the order they were found.
- `toClausalForm` catches the exception `toPrenexCNF` throws on an empty
  formula.
  - It returns the one-step error result.
  - `this.steps` stays as `toPrenexCNF` left it: empty.
- `current.replace(/∀\w+\s*/g, '')` leaves a `∀` that is not followed by a word
  character (`Scenarios.SpacedUniversalKept`).

## Model

| member | source | states |
|---|---|---|
| Text.Trim | script.js:3 | the result is the input minus its leading and trailing JavaScript white space; it neither starts nor ends with white space and holds only characters of the input |
| Text.IndexOf | script.js:365 | the leftmost occurrence of the pattern at or after the start index, or none when there is no occurrence |
| Text.ReplaceFirst | script.js:365 | `replace` with a string pattern: no occurrence leaves the text unchanged; otherwise the leftmost occurrence is cut out and the replacement spliced in its place, the rest kept |
| Text.Split | script.js:460 | one part more than there are separators, no part holds the separator, parts hold only characters of the input |
| Text.JoinSplit | script.js:460 | joining the parts of `split` with the separator gives back the string |
| Text.Count | script.js:308 | the number of occurrences is at most the length and is zero exactly when the character does not occur |
| Text.RunEnd | script.js:309 | a greedy character-class repetition stops at the first character outside the class or at the end |
| Regex.Global | script.js:19 | a global `replace` makes no replacement exactly when the expression matches nowhere, and then leaves the text unchanged |
| Regex.GlobalMatched | script.js:19 | where the expression matches at the scan position, the match is replaced and the scan resumes at its end |
| Regex.GlobalUnmatched | script.js:19 | where it does not match, the character is copied and the scan moves one position on |
| Regex.MatchAt | script.js:19-30 | a match of a rule at a position starts there, ends within the text, captures the rule's number of groups, each made of characters of the text; the `Patterns` lemmas say when each rule matches |
| Regex.ParenGroup | script.js:331 | `\(([^()]+)op([^()]+)\)` at a position: an opening parenthesis, then `op`, then a closing `)`, with at least one character in each group |
| Regex.ParenGroupContents | script.js:331 | both groups are free of parentheses, and the split falls on the last `op` that leaves the second group non-empty |
| Regex.EliminationMatch | script.js:309 | a match of `([^op()]+)op([^op()]+)` starts at the position, ends inside the text and captures two groups of characters of the text |
| Regex.NegatedGroupMatch | script.js:331-337 | a match of the De Morgan pattern starts at the position, ends inside the text and captures two groups of characters of the text |
| Regex.DistributeLeftMatch | script.js:389 | a match of `([^∨∧()]+)outer\(([^()]+)inner([^()]+)\)` starts at the position, ends inside the text and captures three groups of characters of the text |
| Regex.DistributeRightMatch | script.js:396 | a match of the mirrored distribution pattern starts at the position, ends inside the text and captures three groups of characters of the text |
| Regex.QuantifierMatch | script.js:355 | a match of the quantifier pattern starts at the position, spans at least two characters and captures two groups of characters of the text |
| Regex.ExistentialMatch | script.js:442 | a match of `∃(\w+)` starts at the position, spans at least two characters and captures one group of characters of the text |
| Regex.UniversalMatch | script.js:224 | a match of `∀\w+\s*` starts at the position, spans at least two characters and captures nothing |
| Regex.OuterParenMatch | script.js:459 | a match of the outer-parenthesis pattern starts at the position, ends inside the text and captures nothing |
| Regex.LastIndex | script.js:331 | an index found lies in the range and holds the character |
| Regex.LastIndexLast | script.js:331 | no later index of the range holds the character, and when none is found the range does not hold it |
| Regex.FirstMatch | script.js:309 | the match found is the leftmost: it matches at its start and nowhere before it; none exactly when nothing matches |
| Regex.FirstMatchAt | script.js:309 | a match at the position where the search starts is the one found |
| Regex.ScanCounts | script.js:358-360 | the `exec` loop visits as many matches as a global replace replaces |
| Regex.ScanMatches | script.js:358-360 | each match the `exec` loop visits is a real match of the expression, at or after the start |
| Regex.ScanOrdered | script.js:358-360 | the visited matches go left to right and do not overlap: each starts where or after the previous one ended |
| Regex.ScanFirst | script.js:358-360 | each `exec` call returns the leftmost match from `lastIndex` and the loop resumes at its end; no match ends the loop |
| Regex.ScanComplete | script.js:358-360 | every position where the expression matches lies inside a match the loop visits |
| Regex.GlobalLacks | script.js:331-343 | a global replace adds no character that is neither in the subject nor in the replacement template |
| Regex.ReplaceFirstMatchLacks | script.js:309 | the same for a non-global replace |
| Regex.GlobalRemoves | script.js:30 | a global replace that matches at every occurrence of a character and inserts a fixed text without it removes that character |
| Regex.TemplateLacks | script.js:309-343 | a replacement built from groups without a character, by a template that does not insert it, holds no such character |
| Regex.ReplacementLacks | script.js:309-343 | the replacement of a match holds no character missing from both the subject and the template |
| Regex.SliceLacks | script.js:391 | a slice of a text, trimmed or not, holds no character the text lacks |
| Patterns.RunEndAt | script.js:309 | a run of a character class that cannot be extended ends where the greedy repetition stops |
| Patterns.ParenGroupFound | script.js:331 | wherever the text reads `(`, a run of `[^()]`, `op`, a run of `[^()]`, `)`, the scanner splits at that closing parenthesis, at that `op` or a later one |
| Patterns.ParenGroupSound | script.js:331 | what the scanner splits reads `\(([^()]+)op([^()]+)\)`, with no later `op` that leaves the second group non-empty |
| Patterns.ParenGroupExact | script.js:331 | the reading split at the last such `op`, as greedy backtracking picks it, is the scanner's split |
| Patterns.EliminationMatchFound | script.js:309 | wherever an operand run, `op` and an operand run follow at the position, the pattern matches, at least that far, and exactly that match when the second run is greedy |
| Patterns.EliminationMatchSound | script.js:309 | a match is an operand run, `op`, and a greedy operand run, the two runs its groups |
| Patterns.NegatedGroupMatchFound | script.js:331-337 | wherever `¬` and a parenthesised split follow at the position, the De Morgan pattern matches through the closing parenthesis, with the reading's groups when the split is at the last operator |
| Patterns.NegatedGroupMatchSound | script.js:331-337 | a match is `¬`, then a parenthesised split at its last operator, the two sides its groups |
| Patterns.DistributeLeftMatchFound | script.js:389 | wherever an operand run, the outer connective and a parenthesised split follow, the left pattern matches through the closing parenthesis, with the reading's groups when the split is at the last operator |
| Patterns.DistributeLeftMatchSound | script.js:389 | a match is an operand run, the outer connective and a parenthesised split at its last operator, the three pieces its groups |
| Patterns.DistributeRightMatchFound | script.js:396 | wherever a parenthesised split, the outer connective and an operand run follow, the right pattern matches, at least that far, and exactly with the reading's groups when the split is at the last operator and the run is greedy |
| Patterns.DistributeRightMatchSound | script.js:396 | a match is a parenthesised split at its last operator, the outer connective and a greedy operand run, the three pieces its groups |
| Patterns.QuantifierMatchFound | script.js:355 | a head symbol followed by a run of word characters is matched, at least that far, and exactly that far when the run is greedy |
| Patterns.QuantifierMatchSound | script.js:355 | a match is a head symbol and a greedy run of word characters, captured as the two groups |
| Patterns.ExistentialMatchFound | script.js:442 | `∃` followed by a run of word characters is matched, and exactly that far when the run is greedy |
| Patterns.ExistentialMatchSound | script.js:442 | a match is `∃` and a greedy run of word characters, the run its group |
| Patterns.UniversalMatchFound | script.js:224 | `∀`, a greedy run of word characters and white space after it are matched, exactly through the white space when that run is greedy too |
| Patterns.UniversalMatchSound | script.js:224 | a match is `∀`, a greedy word run and the greedy white-space run after it |
| Patterns.OuterParenMatchIff | script.js:459 | the outer-parenthesis pattern matches exactly an opening parenthesis at the very start or a closing one at the very end, one character long |
| Patterns.MatchAtLiteral | script.js:23-30 | a literal pattern matches exactly where it occurs and spans its own length |
| Patterns.MatchAtWhiteRun | script.js:19 | `\s+` matches exactly at a white-space character and takes the whole white-space run |
| Patterns.MatchAtBrace | script.js:474 | `[{}]` matches exactly one brace |
| Parser.WhiteRunSingles | script.js:19 | after `/\s+/g` → `' '` every white-space character is a single blank not followed by white space |
| Parser.CollapseTrimmed | script.js:3-19 | trimming and then collapsing white space leaves blanks only between two non-blank characters |
| Parser.RewriteMacros | script.js:22-30 | a chain that ends with the removal of `\\` leaves no backslash; a chain of macros that all start with a backslash changes no text without one |
| Parser.LiteralAbsent | script.js:23-29 | a literal pattern whose first character does not occur changes nothing |
| Parser.LiteralAtSoleBackslash | script.js:23-29 | on text whose only backslash is at one position, a global rewrite of a pattern starting with a backslash replaces the occurrence there, if any, and changes nothing else |
| Parser.NamedMacro | script.js:23-29 | each of the seven named macros is a backslash followed by letters, and its symbol is one character other than a backslash |
| Parser.MacrosDiverge | script.js:23-29 | no named macro's pattern is a prefix of a later one's |
| Parser.MacroChainFrom | script.js:23-30 | from any point of the chain up to a macro's own rewrite, text holding that macro once and no other backslash ends with the macro's symbol in its place |
| Parser.MacroBecomesSymbol | script.js:21-30 | the LaTeX conversion: an occurrence of `\forall`, `\exists`, `\land`, `\lor`, `\neg`, `\rightarrow` or `\leftrightarrow`, in text with no other backslash, becomes `∀`, `∃`, `∧`, `∨`, `¬`, `→` or `↔` and the rest of the text is kept |
| Parser.MacrosOpenWithBackslash | script.js:22-30 | every pattern of the macro table starts with a backslash |
| Parser.WhiteRunHead | script.js:19 | the collapsed text starts like the input, with a blank for leading white space |
| Parser.WhiteRunLast | script.js:19 | the collapsed text ends like the input, with a blank for trailing white space |
| Parser.BackslashesRemoved | script.js:30 | `/\\/g` → `''` leaves no backslash |
| Parser.DetectFormulaType | script.js:41-46 | propositional exactly when neither `∀` nor `∃` occurs, first-order otherwise |
| Parser.TrimNonSpace | script.js:3 | trimming keeps every non-white-space character, in order |
| Parser.WhiteRunNonSpace | script.js:19 | collapsing white space keeps every non-white-space character, in order |
| Parser.TrimCollapsed | script.js:3 | text already collapsed has nothing to trim |
| Parser.WhiteRunCollapsed | script.js:19 | on text already collapsed the collapse changes nothing |
| Parser.CollapseFixed | script.js:3-19 | cleaning text that is already clean gives it back |
| Parser.WordLen | script.js:19 | the length of the leading run of characters other than white space: none of them is white space, and white space or the end follows |
| Parser.WordsShape | script.js:19 | every word is non-empty and holds no white space |
| Parser.WordsSkipSpaces | script.js:3-19 | white space starts no word |
| Parser.WordsAt | script.js:19 | at a character other than white space a word starts, runs to the next white space, and the remaining words follow |
| Parser.WordsNonEmpty | script.js:19 | text that does not end in white space has a word from every position on |
| Parser.WordLenStops | script.js:19 | a word ends where white space follows, whatever comes after |
| Parser.WordsTrailing | script.js:3 | white space at the end starts no word |
| Parser.WordsTrim | script.js:3 | `trim` keeps the words of the text |
| Parser.WhiteRunCopiesChar | script.js:19 | `/\s+/g` → `' '` keeps a character other than white space as it is |
| Parser.WhiteRunCopiesWord | script.js:19 | `/\s+/g` → `' '` copies a run without white space unchanged |
| Parser.WhiteRunWords | script.js:19 | on text that does not end in white space, `/\s+/g` → `' '` from any position gives the words from there joined by single blanks, after one blank when a white-space run starts there |
| Parser.WhiteRunWordsAtSpace | script.js:19 | a white-space run becomes one blank in front of the words after it |
| Parser.WhiteRunWordsAtWord | script.js:19 | from the start of a word the result is the words from there joined by single blanks |
| Parser.WordSpan | script.js:19 | the word starting at a position has no white space and ends at white space or at the end of the text |
| Parser.CleanedWords | script.js:3-19 | `trim` and then `/\s+/g` → `' '` join the input's words with single blanks: every inner white-space run becomes exactly one blank |
| Parser.CleanedText | script.js:3-19 | the cleaned text is the input's words joined by single blanks; it is collapsed, has the input's non-white-space characters in order, is the input when that was already clean, and adds no backslash |
| Parser.ParseFormula | script.js:2-46 | `original` is the input's words joined by single blanks (`Parser.Words`, the maximal runs without white space); it has blanks only singly between non-blank characters, holds the input's non-white-space characters in order, and is the input itself when that was already clean; `processed` holds no backslash; the type is first-order exactly when `∀` or `∃` occurs in `processed`; without a backslash in the input `processed` equals `original` |
| Parser.ParseMacro | script.js:2-46 | on clean text holding one named macro and no other backslash, `original` is the text, `processed` has the macro's symbol in its place, and `\forall` or `\exists` makes the formula first-order |
| Stages.EliminationStepCount | script.js:309 | one rewrite of the elimination pattern removes exactly one occurrence of the eliminated symbol |
| Stages.EliminationTemplateLacks | script.js:309-317 | neither elimination template inserts the symbol its loop removes |
| Stages.EliminationMatchCount | script.js:309-317 | the text an elimination pattern matches holds the symbol once and neither group holds it |
| Stages.CountSplice | script.js:309-317 | replacing a slice changes a character's count by the slice's count and the replacement's |
| Stages.Eliminate | script.js:306-320 | the elimination loop either ends with no `↔` (resp. `→`) left, or spins on a text that still holds the symbol and where the pattern matches nowhere |
| Stages.EliminateLacks | script.js:306-320 | a symbol absent from the input and not inserted by the template is absent from the result |
| Stages.NegationPass | script.js:326-344 | a pass leaves `changed` false exactly when it leaves the text unchanged and neither De Morgan pattern matches |
| Stages.NegationPasses | script.js:322-347 | the loop runs between 1 and 10 passes; if it stops before the tenth, the last pass changed nothing and neither De Morgan pattern matches the result |
| Stages.NegationPassesStep | script.js:325-345 | the loop runs one more pass exactly while the previous pass changed something and fewer than ten have run |
| Stages.NegationPassesLack | script.js:322-347 | negation pushing inserts only parentheses, `¬`, `∧` and `∨` |
| Stages.PushNegationsSettles | script.js:322-347 | a formula on which a pass changes nothing comes back unchanged; unless all ten passes ran, neither De Morgan pattern matches the result |
| Stages.DistributionPass | script.js:384-400 | a pass reports a change exactly when one of the two patterns matches, and otherwise leaves the text unchanged |
| Stages.DistributionPassOrder | script.js:389-400 | the mirrored pattern is applied only when the first pattern matches nowhere |
| Stages.DistributionPasses | script.js:376-404 | at most twenty passes; stopping earlier means neither pattern matches the result |
| Stages.DistributionPassesStep | script.js:383-401 | the loop runs one more pass exactly while the previous one changed something and fewer than twenty have run |
| Stages.DistributionPassesLack | script.js:376-433 | distribution inserts only parentheses and the two connectives |
| Stages.DistributionPassLacks | script.js:388-400 | one distribution pass inserts only parentheses and the two connectives |
| Stages.DistributeSettles | script.js:376-433 | a formula neither distribution pattern matches comes back unchanged; unless all twenty passes ran, neither pattern matches the result |
| Stages.TokenText | script.js:358-360 | a found token is `∀` or `∃` followed by the longest run of word characters |
| Stages.FoundQuantifiers | script.js:355-361 | one token per match of the `exec` loop, in order, each a quantifier token |
| Stages.FoundStep | script.js:358-360 | each `exec` call appends the text of the next match to the found tokens |
| Stages.FoundAll | script.js:359 | when `exec` returns null every token has been found |
| Stages.RemoveEachStep | script.js:364-366 | one step of the `forEach` deletes the next token's first occurrence |
| Stages.RemoveEach | script.js:364-366 | deleting the tokens never lengthens the matrix, and tokens that do not occur leave it unchanged |
| Stages.RemoveEachLacks | script.js:364-366 | deleting tokens adds no character |
| Stages.JoinLacks | script.js:371 | joining parts that lack a character with a separator that lacks it gives a text without it |
| Stages.Prenex | script.js:349-374 | without a quantifier token the formula comes back unchanged; with one the result starts with the tokens in the order found, separated and followed by a blank |
| Stages.PrenexLacks | script.js:349-374 | `toPrenex` inserts nothing but blanks |
| Stages.Skolemize | script.js:435-452 | the loop either ends with no `∃` left and only characters of the input, or spins on a text with `∃` where `∃\w+` matches nowhere |
| Stages.DeleteFirstExistential | script.js:442-448 | each iteration shortens the text, removes exactly one `∃` and keeps only characters of the text |
| Stages.CutShrinks | script.js:442-448 | cutting a slice out of a text keeps only characters of the text |
| Stages.ExistentialMatchCount | script.js:442 | the text an `∃\w+` match spans holds exactly one `∃` |
| Stages.SkolemizeStep | script.js:441-449 | while `∃` occurs and `∃\w+` matches, one iteration leaves the outcome of the loop unchanged |
| Stages.RemoveUniversals | script.js:223-229 | without a match the text is unchanged; the result holds only characters of the input; when every `∀` is directly followed by a word character no `∀` remains |
| Stages.UniversalsRemoved | script.js:224 | `/∀\w+\s*/g` → `''` adds no character, and removes every `∀` directly followed by a word character |
| Clauses.StripOuterParens | script.js:459 | the outer-parenthesis replace removes one leading `(` and one trailing `)`, as the reference `Unwrapped` slices |
| Clauses.OuterParenTail | script.js:459 | past the first position the global scan of the outer-parenthesis pattern only drops a final `)` |
| Clauses.GlobalOuterParen | script.js:459 | the global outer-parenthesis replace equals the reference slicing `Unwrapped` |
| Clauses.OrsReplaced | script.js:465 | `/∨/g` → `', '` leaves no `∨` |
| Clauses.OrToCommaJoins | script.js:465 | `/∨/g` → `', '` is the same as splitting at `∨` and joining the parts with `, ` |
| Clauses.AndsKept | script.js:463-465 | cleaning a part without `∧` leaves no `∧` |
| Clauses.ClauseOf | script.js:463-466 | a part yields no clause exactly when it is empty once trimmed and unwrapped; a clause is braced, holds no `∨`, and no `∧` when the part had none |
| Clauses.ClauseOfText | script.js:463-466 | a clause is `{`, the trimmed and unwrapped part split at `∨` and joined with `, `, then `}` |
| Clauses.Collect | script.js:462-467 | at most one clause per part, each braced and without `∨` |
| Clauses.CollectCount | script.js:462-467 | exactly one clause per part that is not empty once cleaned |
| Clauses.CollectStep | script.js:462-467 | one step of the `forEach` pushes the part's clause, if any, before the later ones |
| Clauses.CollectPresent | script.js:462-467 | the collected clauses are exactly the clauses of the parts that have one, in the order of the parts |
| Clauses.CollectSource | script.js:462-467 | every collected clause is the clause of some part |
| Clauses.CollectHas | script.js:462-467 | every part's clause is collected |
| Clauses.ClauseOfLacks | script.js:463-465 | a clause holds only characters of its part, braces, commas and blanks |
| Clauses.CollectLacks | script.js:462-467 | the same for every clause collected |
| Clauses.ExtractClauses | script.js:454-470 | at most one clause per `∧` plus one; every clause is braced and holds neither `∨` nor `∧` |
| Clauses.ExtractClausesText | script.js:454-470 | every clause is the clause text of some `∧`-part of the unwrapped formula |
| Clauses.ExtractClausesHas | script.js:454-470 | the clause text of every `∧`-part that is not empty once cleaned is among the clauses |
| Clauses.ExtractClausesLack | script.js:454-470 | clauses hold only characters of the formula, braces, commas and blanks |
| Clauses.Literals | script.js:474 | one literal per comma plus one, none holding a comma |
| Clauses.PositiveCount | script.js:477-481 | the count of positive literals is at most the number of literals |
| Clauses.PositiveCountStep | script.js:477-481 | one step of the `forEach` adds one exactly when the literal does not start with `¬` |
| Clauses.PositiveCountZero | script.js:477-481 | no literal is counted exactly when none is positive |
| Clauses.HornIffAtMostOnePositive | script.js:475-483 | the count is at most one exactly when no two literals are positive |
| Clauses.IsHorn | script.js:472-484 | `isHornClause` is true exactly when no two literals both fail to start with `¬` |
| Clauses.Select | script.js:266-272 | every clause sent to a side has that side's `isHornClause` value |
| Clauses.SelectStep | script.js:266-272 | one step of the `forEach` appends the clause to the list of its side and leaves the other list as it was |
| Clauses.SelectConcat | script.js:266-272 | the split keeps the clause order: it distributes over concatenation |
| Clauses.SelectPartition | script.js:266-272 | the two lists together are a permutation of the clauses |
| Clauses.SelectSizes | script.js:266-272 | the two lists together are as long as the clause list |
| Pipeline.EliminationStage | script.js:72-88 | without the symbol the trace is untouched; after the stage no such symbol remains; a spin keeps the trace recorded so far |
| Pipeline.PushKeeps | script.js:57-127 | appending a step that follows from the last one, at a later rank, keeps the trace valid |
| Pipeline.DescriptionsDistinct | script.js:67-282 | different stages the drivers record carry different descriptions, so a step's description tells its stage |
| Pipeline.EliminationStageKeeps | script.js:72-88 | steps 1 and 2 keep the trace valid |
| Pipeline.EliminationStageTrace | script.js:72-88 | steps 1 and 2 keep the trace valid and its first step, also when the loop spins |
| Pipeline.EliminationStageSteps | script.js:72-88 | steps 1 and 2 only append to the trace, and append their own step when the formula holds their symbol |
| Pipeline.EliminationStageLacks | script.js:72-88 | steps 1 and 2 add no character missing from the formula and from their template |
| Pipeline.NegationStageKeeps | script.js:90-97 | step 3 keeps the trace valid |
| Pipeline.PrenexStageKeeps | script.js:99-106 | step 4 keeps the trace valid |
| Pipeline.DistributionStageKeeps | script.js:108-118 | step 5 keeps the trace valid |
| Pipeline.LaterStagesKeep | script.js:90-118 | steps 3 to 5 keep the trace valid |
| Pipeline.LaterStagesExtend | script.js:90-118 | steps 3 to 5 only append to the trace |
| Pipeline.EarlyStagesKeep | script.js:57-88 | the trace opens with the original formula and stays valid through steps 1 and 2, also when a loop spins |
| Pipeline.NormalForm | script.js:61-64 | the drivers throw exactly when the processed formula is empty, with "Fórmula inválida" |
| Pipeline.NormalFormTrace | script.js:57-199 | step 1 is the original formula; each later stage appears at most once, in order, only when its trigger held on the formula before it, and holds what that stage computes; the returned formula is the last recorded |
| Pipeline.EarlyStagesNoArrows | script.js:72-88 | after steps 1 and 2 neither `↔` nor `→` remains |
| Pipeline.ImplicationStageNoIff | script.js:81-88 | step 2 on a formula without `↔` leaves neither `↔` nor `→` |
| Pipeline.EarlyStagesLack | script.js:72-88 | steps 1 and 2 insert only parentheses, `→`, `∧`, `¬` and `∨` |
| Pipeline.LaterStagesLack | script.js:90-118 | steps 3 to 5 insert only parentheses, blanks, `¬` and the connectives |
| Pipeline.NormalFormNoArrows | script.js:57-199 | a returned normal form holds neither `↔` nor `→` |
| Pipeline.NormalFormLacks | script.js:57-199 | any other symbol absent from the processed formula is absent from the normal form |
| Pipeline.BiconditionalStepRecorded | script.js:73-79 | the second step is the biconditional elimination exactly when the formula holds `↔` |
| Pipeline.EarlyBiconditionalRecorded | script.js:73-79 | when the formula holds `↔` and steps 1 and 2 return, their second step is the biconditional elimination |
| Pipeline.SkolemStage | script.js:213-220 | Skolemisation never throws; for a first-order formula it leaves no `∃`; it adds no character; a spin keeps the trace |
| Pipeline.ClausalForm | script.js:201-254 | `toClausalForm` never throws; on an empty formula it returns the "Erro" step and no clauses; otherwise, when it returns, its trace restarts with the conjunctive normal form `toPrenexCNF` returned |
| Pipeline.ClausesFrom | script.js:205-243 | the clause stages never throw, and their trace opens with the conjunctive normal form |
| Pipeline.ClausesFromShape | script.js:205-243 | every clause is braced without `∨` or `∧`; none holds `∃` when the formula is first-order or its conjunctive form had none; when there is a clause the last step lists all clauses joined by " ∧ " |
| Pipeline.ParsedConsistent | script.js:2-46 | every record `parseFormula` returns has the type `detectFormulaType` gives its processed text |
| Pipeline.ClausalFormClauses | script.js:201-254 | for a formula whose type agrees with its processed text, which `Pipeline.ParsedConsistent` shows for every `parseFormula` result, no clause holds `∃`, `∧` or `∨` |
| Pipeline.HornSplit | script.js:261-285 | Horn clauses on one side and the rest on the other, together a permutation of the clauses; one step, or two when some clause is not Horn; "Nenhuma cláusula de Horn" when no clause is Horn |
| Pipeline.HornForm | script.js:256-303 | `toHornClauses` never throws, returns exactly when `toClausalForm` does, and then with the split of its clauses |
| Transformer.FormulaTransformer.constructor | script.js:51-54 | keeps the parsed formula and starts with an empty trace |
| Transformer.FormulaTransformer.EliminateLoop | script.js:306-320 | the shared elimination loop computes `Stages.Eliminate` |
| Transformer.FormulaTransformer.EliminateBiconditionals | script.js:306-312 | computes `Stages.Eliminate` for `↔`; when it returns, no `↔` remains |
| Transformer.FormulaTransformer.EliminateImplications | script.js:314-320 | computes `Stages.Eliminate` for `→`; when it returns, no `→` remains |
| Transformer.FormulaTransformer.NegationRound | script.js:326-344 | one loop body, with the callbacks setting `changed`, is one `NegationPass` |
| Transformer.FormulaTransformer.PushNegations | script.js:322-347 | computes `Stages.PushNegations` |
| Transformer.FormulaTransformer.FindQuantifiers | script.js:355-361 | the `exec` loop collects exactly `FoundQuantifiers` |
| Transformer.FormulaTransformer.RemoveQuantifiers | script.js:364-366 | the `forEach` deletes each token's first occurrence, as `RemoveEach` |
| Transformer.FormulaTransformer.ToPrenex | script.js:349-374 | computes `Stages.Prenex` |
| Transformer.FormulaTransformer.DistributionRound | script.js:384-400 | one loop body is one `DistributionPass` |
| Transformer.FormulaTransformer.DistributeLoop | script.js:383-403 | the shared bounded loop computes `Stages.Distribute` |
| Transformer.FormulaTransformer.ToCNF | script.js:376-404 | computes `Stages.Distribute(Cnf, ·)` |
| Transformer.FormulaTransformer.ToDNF | script.js:406-433 | computes `Stages.Distribute(Dnf, ·)` |
| Transformer.FormulaTransformer.Skolemize | script.js:435-452 | computes `Stages.Skolemize` |
| Transformer.FormulaTransformer.ClauseFor | script.js:463-466 | the callback yields `ClauseOf(part)`, a braced clause when there is one |
| Transformer.FormulaTransformer.CollectClauses | script.js:462-467 | the `forEach` collects `Collect(parts)` |
| Transformer.FormulaTransformer.ExtractClauses | script.js:454-470 | computes `Clauses.ExtractClauses` |
| Transformer.FormulaTransformer.CountPositive | script.js:477-481 | the `forEach` counts exactly `PositiveCount` of the literals |
| Transformer.FormulaTransformer.IsHornClause | script.js:472-484 | computes `IsHorn`: true exactly when at most one literal is positive |
| Transformer.FormulaTransformer.OpeningStages | script.js:57-88 | resets `steps`, throws "Fórmula inválida" on an empty formula, and otherwise records the original formula and steps 1 and 2 |
| Transformer.FormulaTransformer.ClosingStages | script.js:90-126 | steps 3 to 5 append to `steps` what `LaterStages` records |
| Transformer.FormulaTransformer.NormalFormDriver | script.js:57-199 | computes `NormalForm`, leaving in `steps` the returned trace, the trace before a spin, or nothing after a throw |
| Transformer.FormulaTransformer.ToPrenexCNF | script.js:57-127 | the same for the CNF wording and `toCNF` |
| Transformer.FormulaTransformer.ToPrenexDNF | script.js:129-199 | the same for the DNF wording and `toDNF` |
| Transformer.FormulaTransformer.ToClausalForm | script.js:201-254 | computes `ClausalForm`; `steps` is the returned trace, or empty when the formula is empty, or the trace before a spin |
| Transformer.FormulaTransformer.SortClauses | script.js:265-273 | the `forEach` sends each clause, in order, to the Horn or non-Horn list, as `Select` |
| Transformer.FormulaTransformer.ToHornClauses | script.js:256-303 | computes `HornForm`; `steps` is the returned trace or the trace before a spin |
| Scenarios.ChainedFirstStep | script.js:317 | the leftmost implication of `P→Q→R` is `P→Q`, rewritten to `(¬P∨Q)` |
| Scenarios.ChainedStuck | script.js:317 | in `(¬P∨Q)→R` the implication pattern matches nowhere |
| Scenarios.ChainedImplicationSpins | script.js:314-320 | `eliminateImplications("P→Q→R")` never returns: it spins on `(¬P∨Q)→R` |
| Scenarios.ParsedSpacedExistential | script.js:2-46 | `parseFormula` on the text `\exists x P(x)` gives original `\exists x P(x)`, processed `∃ x P(x)`, first-order |
| Scenarios.SpacedExistentialSpins | script.js:441-449 | `skolemize("∃ x P(x)")` never returns |
| Scenarios.SampleExistential | script.js:442 | `∃(\w+)` finds `∃x` at the start of `∃x P(x)` |
| Scenarios.VariableKept | script.js:441-449 | `skolemize("∃x P(x)")` returns `" P(x)"`: the variable is not replaced by a Skolem constant |
| Scenarios.DoubleBlankWords | script.js:3-19 | the words of ` a  b ` are `a` and `b` |
| Scenarios.DoubleBlankKept | script.js:3-19 | `parseFormula` on ` a  b ` gives `original` `a b`, one blank for the inner run |
| Scenarios.SpacedUniversalKept | script.js:223-229 | removing the universals leaves `∀ x` unchanged: its `∀` stays |

## Left out

- The user interface (script.js:488-829) is left out because it is DOM code. This covers the event handlers, `renderFormula`, `formatFormula`, `loadExample` and the DOM code around the drivers.
- `FormulaParser.parse` (script.js:7-13) is left out. It only re-throws an error from `parseFormula` with a prefix, and `parseFormula` throws nothing on a string.
- The unused field `position` is left out.
- The `console.log` and `console.error` calls are left out: they are output only.
- The `try`/`catch` blocks of `toPrenexCNF` and `toPrenexDNF` are left out, and so is the error result of `toHornClauses` ("Não foi possível identificar cláusulas de Horn"). Nothing inside those `try` blocks throws: the only exception is the empty-formula check, which comes before the `try`.
- The renaming inside the callback of `skolemize`, with its Skolem counter, is left out. Its write to `result` is always overwritten, so it has no observable effect. `Transformer.FormulaTransformer.Skolemize` advances the counter and does nothing else with it.
- Non-termination is not reproduced. A loop that would run for ever becomes the outcome `Diverges`/`Spins`, because no Dafny method may run for ever.
- The `Step` datatype records a stage tag, not its description string; `Pipeline.Description` maps each tag to the source's exact text.
- Strings are sequences of characters. This matches the JavaScript strings of UTF-16 units for every symbol the pipeline handles, since all of them lie in the Basic Multilingual Plane. Input with characters outside it is not modelled unit by unit.
- Stages.Prenex: its ensures say nothing about the text after the prefix. By definition that text is `Trim(RemoveEach(s, FoundQuantifiers(s)))`, and `Stages.RemoveEachStep` with `Text.ReplaceFirst` says what each deletion does.
