/** The string-rewriting stages of FormulaTransformer (script.js:306-452) as
    functions: each is the specification the corresponding method of the
    class FormulaTransformer is proved against.

    Two of the source's loops, and the loop of `skolemize`, run for ever on
    some inputs: their condition is that a symbol still occurs, while the
    replace inside them may find nothing to rewrite.  Those stages return a
    `Run`: `Done` with the result, or `Diverges` with the string on which
    the source would spin. */
module Stages {
  import opened Text
  import opened Regex

  datatype Run = Done(value: Str) | Diverges(stuck: Str)

  // ---------------------------------------------------------------------
  // eliminateBiconditionals / eliminateImplications (script.js:306-320)
  // ---------------------------------------------------------------------

  predicate IsElimination(rule: Rule) {
    rule == Biconditional || rule == Implication
  }

  /** The symbol an elimination loop waits to disappear. */
  function Eliminated(rule: Rule): char
    requires IsElimination(rule)
  {
    if rule == Biconditional then IFF else IMPLIES
  }

  /** Counting across a splice: s[i..k] replaced by `rep`. */
  lemma CountSplice(s: Str, i: nat, k: nat, rep: Str, c: char)
    requires i <= k <= |s|
    ensures Count(s[..i] + rep + s[k..], c) == Count(s, c) - Count(s[i..k], c) + Count(rep, c)
  {
    assert s == s[..i] + s[i..k] + s[k..];
    CountConcat(s[..i] + s[i..k], s[k..], c);
    CountConcat(s[..i], s[i..k], c);
    CountConcat(s[..i] + rep, s[k..], c);
    CountConcat(s[..i], rep, c);
  }

  /** The text an elimination pattern matches holds its symbol exactly once. */
  lemma EliminationMatchCount(s: Str, i: nat, op: char)
    requires i < |s| && EliminationMatch(s, i, op).Some?
    ensures var m := EliminationMatch(s, i, op).value;
      Count(s[i..m.end], op) == 1 && op !in m.groups[0] && op !in m.groups[1]
  {
    var cls := NoneOf({op, '(', ')'});
    var j := RunEnd(s, i, cls);
    var k := RunEnd(s, j + 1, cls);
    var m := EliminationMatch(s, i, op).value;
    assert m.end == k && m.groups == [s[i..j], s[j + 1..k]];
    assert s[i..k] == s[i..j] + [op] + s[j + 1..k];
    assert op !in s[i..j] && op !in s[j + 1..k];
    assert Count(s[i..j], op) == 0 && Count(s[j + 1..k], op) == 0;
    assert [op][1..] == [];
    assert Count([op], op) == 1;
    CountConcat(s[i..j] + [op], s[j + 1..k], op);
    CountConcat(s[i..j], [op], op);
  }

  /** One rewrite of an elimination loop removes exactly one occurrence of
      its symbol: the captured groups stop short of it, and the template
      does not contain it. */
  lemma EliminationStepCount(rule: Rule, s: Str)
    requires IsElimination(rule) && FirstMatch(rule, s, 0).Some?
    ensures Count(ReplaceFirstMatch(rule, s), Eliminated(rule)) == Count(s, Eliminated(rule)) - 1
  {
    var op := Eliminated(rule);
    var m := FirstMatch(rule, s, 0).value;
    assert MatchAt(rule, s, m.start) == EliminationMatch(s, m.start, op);
    EliminationMatchCount(s, m.start, op);
    EliminationTemplateLacks(rule, m);
    CountSplice(s, m.start, m.end, Replacement(rule, m), op);
  }

  /** An elimination template brings back its symbol only through the groups. */
  lemma EliminationTemplateLacks(rule: Rule, m: Match)
    requires IsElimination(rule) && |m.groups| == 2
    requires Eliminated(rule) !in m.groups[0] && Eliminated(rule) !in m.groups[1]
    ensures Eliminated(rule) !in Replacement(rule, m)
  {
    if rule == Biconditional {
      TemplateLacks(Biconditional, m, IFF);
    } else {
      TemplateLacks(Implication, m, IMPLIES);
    }
  }

  /** `while (formula.includes(op)) formula = formula.replace(re, template)`. */
  function Eliminate(rule: Rule, s: Str): (r: Run)
    requires IsElimination(rule)
    ensures r.Done? ==> Eliminated(rule) !in r.value
    ensures r.Diverges? ==> Eliminated(rule) in r.stuck && NoMatch(rule, r.stuck)
    decreases Count(s, Eliminated(rule))
  {
    if Eliminated(rule) !in s then Done(s)
    else
      match FirstMatch(rule, s, 0)
      case None => Diverges(s)
      case Some(_) =>
        EliminationStepCount(rule, s);
        Eliminate(rule, ReplaceFirstMatch(rule, s))
  }

  /** A symbol that neither the input nor the rule's template contains does
      not appear in the result of an elimination loop. */
  lemma {:induction false} EliminateLacks(rule: Rule, s: Str, c: char)
    requires IsElimination(rule) && c !in s && !Emits(rule, c)
    ensures Eliminate(rule, s).Done? ==> c !in Eliminate(rule, s).value
    decreases Count(s, Eliminated(rule))
  {
    if Eliminated(rule) in s && FirstMatch(rule, s, 0).Some? {
      EliminationStepCount(rule, s);
      ReplaceFirstMatchLacks(rule, s, c);
      EliminateLacks(rule, ReplaceFirstMatch(rule, s), c);
    }
  }

  // ---------------------------------------------------------------------
  // pushNegations (script.js:322-347)
  // ---------------------------------------------------------------------

  /** `/¬\(([^()]+)∧([^()]+)\)/g` -> `(¬p1∨¬p2)`. */
  const NegatedAnd: Rule := NegatedGroup(AND, OR)
  /** `/¬\(([^()]+)∨([^()]+)\)/g` -> `(¬p1∧¬p2)`. */
  const NegatedOr: Rule := NegatedGroup(OR, AND)
  /** `/¬¬/g` -> ''. */
  const DoubleNegation: Rule := Literal("¬¬", "")

  /** One pass of a bounded rewriting loop: the new text and the loop's
      `changed` flag. */
  datatype Pass = Pass(text: Str, changed: bool)

  /** One pass of the loop of `pushNegations`.  `changed` is set by either
      De Morgan callback or by the double-negation removal changing the text. */
  function NegationPass(s: Str): (p: Pass)
    ensures !p.changed <==> (p.text == s && NoMatch(NegatedAnd, s) && NoMatch(NegatedOr, s))
  {
    var a := Global(NegatedAnd, s, 0);
    var b := Global(NegatedOr, a.text, 0);
    var c := ReplaceAll(DoubleNegation, b.text);
    assert s[0..] == s;
    Pass(c, a.hits > 0 || b.hits > 0 || c != s)
  }

  const MaxNegationPasses: nat := 10

  /** Result of a bounded loop and the number of passes it ran. */
  datatype Passes = Passes(text: Str, passes: nat)

  /** The passes of `pushNegations` after `done` of them: the loop goes on
      while the last pass changed something and fewer than ten have run. */
  function NegationPasses(s: Str, done: nat): (r: Passes)
    requires done < MaxNegationPasses
    ensures done < r.passes <= MaxNegationPasses
    ensures r.passes < MaxNegationPasses ==> !NegationPass(r.text).changed
    ensures r.passes < MaxNegationPasses ==> NoMatch(NegatedAnd, r.text) && NoMatch(NegatedOr, r.text)
    decreases MaxNegationPasses - done
  {
    var p := NegationPass(s);
    if p.changed && done + 1 < MaxNegationPasses then NegationPasses(p.text, done + 1)
    else Passes(p.text, done + 1)
  }

  /** One more pass of `pushNegations` from `done` passes. */
  lemma NegationPassesStep(s: Str, done: nat, p: Pass)
    requires done < MaxNegationPasses && p == NegationPass(s)
    ensures p.changed && done + 1 < MaxNegationPasses ==> NegationPasses(s, done) == NegationPasses(p.text, done + 1)
    ensures !(p.changed && done + 1 < MaxNegationPasses) ==> NegationPasses(s, done) == Passes(p.text, done + 1)
  {
  }

  /** The loop of `pushNegations` after `done` passes with the flag `changed`:
      what it still returns is what it returns from the start. */
  predicate NegationLoopAt(s: Str, formula: Str, changed: bool, done: nat)
    requires done <= MaxNegationPasses
  {
    if changed && done < MaxNegationPasses then NegationPasses(s, 0) == NegationPasses(formula, done)
    else NegationPasses(s, 0) == Passes(formula, done)
  }

  /** One iteration of `pushNegations` keeps `NegationLoopAt`. */
  lemma NegationLoopStep(s: Str, formula: Str, done: nat, p: Pass)
    requires done < MaxNegationPasses && p == NegationPass(formula)
    requires NegationLoopAt(s, formula, true, done)
    ensures NegationLoopAt(s, p.text, p.changed, done + 1)
  {
    NegationPassesStep(formula, done, p);
  }

  /** `pushNegations(formula)`: at most ten rewriting passes. */
  function PushNegations(s: Str): Str {
    NegationPasses(s, 0).text
  }

  /** A formula on which a pass changes nothing comes back as it is; unless
      the ten passes ran out, neither `¬(A ∧ B)` nor `¬(A ∨ B)` matches
      anywhere in the result. */
  lemma PushNegationsSettles(s: Str)
    ensures !NegationPass(s).changed ==> PushNegations(s) == s
    ensures NegationPasses(s, 0).passes < MaxNegationPasses ==>
      NoMatch(NegatedAnd, PushNegations(s)) && NoMatch(NegatedOr, PushNegations(s))
  {
  }

  /** Negation pushing inserts only parentheses, negations and the two
      connectives; any other symbol absent from the input stays absent. */
  lemma {:induction false} NegationPassesLack(s: Str, done: nat, c: char)
    requires done < MaxNegationPasses && c !in s
    requires c != '(' && c != ')' && c != NOT && c != AND && c != OR
    ensures c !in NegationPasses(s, done).text
    decreases MaxNegationPasses - done
  {
    var a := Global(NegatedAnd, s, 0);
    GlobalLacks(NegatedAnd, s, 0, c);
    GlobalLacks(NegatedOr, a.text, 0, c);
    GlobalLacks(DoubleNegation, Global(NegatedOr, a.text, 0).text, 0, c);
    var p := NegationPass(s);
    if p.changed && done + 1 < MaxNegationPasses {
      NegationPassesLack(p.text, done + 1, c);
    }
  }

  // ---------------------------------------------------------------------
  // toCNF / toDNF (script.js:376-433)
  // ---------------------------------------------------------------------

  /** What a distribution loop aims at: `outer` is distributed over `inner`. */
  datatype Target = Target(outer: char, inner: char)

  /** `toCNF`: ∨ over ∧. */
  const Cnf: Target := Target(OR, AND)
  /** `toDNF`: ∧ over ∨. */
  const Dnf: Target := Target(AND, OR)

  /** `A op (B inner C)`, the pattern tried first in each pass. */
  function LeftRule(target: Target): Rule {
    DistributeLeft(target.outer, target.inner)
  }

  /** `(A inner B) op C`, the mirrored pattern. */
  function RightRule(target: Target): Rule {
    DistributeRight(target.outer, target.inner)
  }

  /** One pass of the loop of `toCNF`/`toDNF`: the mirrored pattern is tried
      only when the first one replaced nothing. */
  function DistributionPass(target: Target, s: Str): (p: Pass)
    ensures !p.changed <==> NoMatch(LeftRule(target), s) && NoMatch(RightRule(target), s)
    ensures !p.changed ==> p.text == s
  {
    var a := Global(LeftRule(target), s, 0);
    assert s[0..] == s;
    if a.hits > 0 then Pass(a.text, true)
    else
      var b := Global(RightRule(target), a.text, 0);
      Pass(b.text, b.hits > 0)
  }

  /** The mirrored pattern is applied only when the first one matches nowhere. */
  lemma DistributionPassOrder(target: Target, s: Str)
    ensures !NoMatch(LeftRule(target), s) ==> DistributionPass(target, s).text == ReplaceAll(LeftRule(target), s)
    ensures NoMatch(LeftRule(target), s) ==> DistributionPass(target, s).text == ReplaceAll(RightRule(target), s)
  {
    assert s[0..] == s;
  }

  const MaxDistributionPasses: nat := 20

  /** The passes of `toCNF`/`toDNF` after `done` of them: at most twenty. */
  function DistributionPasses(target: Target, s: Str, done: nat): (r: Passes)
    requires done < MaxDistributionPasses
    ensures done < r.passes <= MaxDistributionPasses
    ensures r.passes < MaxDistributionPasses ==> NoMatch(LeftRule(target), r.text) && NoMatch(RightRule(target), r.text)
    decreases MaxDistributionPasses - done
  {
    var p := DistributionPass(target, s);
    if p.changed && done + 1 < MaxDistributionPasses then DistributionPasses(target, p.text, done + 1)
    else Passes(p.text, done + 1)
  }

  /** One more pass of `toCNF`/`toDNF` from `done` passes. */
  lemma DistributionPassesStep(target: Target, s: Str, done: nat, p: Pass)
    requires done < MaxDistributionPasses && p == DistributionPass(target, s)
    ensures p.changed && done + 1 < MaxDistributionPasses ==> DistributionPasses(target, s, done) == DistributionPasses(target, p.text, done + 1)
    ensures !(p.changed && done + 1 < MaxDistributionPasses) ==> DistributionPasses(target, s, done) == Passes(p.text, done + 1)
  {
  }

  /** The loop of `toCNF`/`toDNF` after `done` passes with the flag
      `changed`: what it still returns is what it returns from the start. */
  predicate DistributionLoopAt(target: Target, s: Str, formula: Str, changed: bool, done: nat)
    requires done <= MaxDistributionPasses
  {
    if changed && done < MaxDistributionPasses then DistributionPasses(target, s, 0) == DistributionPasses(target, formula, done)
    else DistributionPasses(target, s, 0) == Passes(formula, done)
  }

  /** One iteration of `toCNF`/`toDNF` keeps `DistributionLoopAt`. */
  lemma DistributionLoopStep(target: Target, s: Str, formula: Str, done: nat, p: Pass)
    requires done < MaxDistributionPasses && p == DistributionPass(target, formula)
    requires DistributionLoopAt(target, s, formula, true, done)
    ensures DistributionLoopAt(target, s, p.text, p.changed, done + 1)
  {
    DistributionPassesStep(target, formula, done, p);
  }

  /** `toCNF(formula)` or `toDNF(formula)`: at most twenty distribution
      passes. */
  function Distribute(target: Target, s: Str): Str {
    DistributionPasses(target, s, 0).text
  }

  /** A formula neither distribution pattern matches comes back as it is;
      unless the twenty passes ran out, neither pattern matches anywhere in
      the result. */
  lemma DistributeSettles(target: Target, s: Str)
    ensures NoMatch(LeftRule(target), s) && NoMatch(RightRule(target), s) ==> Distribute(target, s) == s
    ensures DistributionPasses(target, s, 0).passes < MaxDistributionPasses ==>
      NoMatch(LeftRule(target), Distribute(target, s)) && NoMatch(RightRule(target), Distribute(target, s))
  {
  }

  lemma DistributionPassLacks(target: Target, s: Str, c: char)
    requires c !in s && c != '(' && c != ')' && c != target.outer && c != target.inner
    ensures c !in DistributionPass(target, s).text
  {
    var a := Global(LeftRule(target), s, 0);
    GlobalLacks(LeftRule(target), s, 0, c);
    if a.hits == 0 {
      GlobalLacks(RightRule(target), a.text, 0, c);
    }
  }

  /** Distribution inserts only parentheses and the two connectives. */
  lemma {:induction false} DistributionPassesLack(target: Target, s: Str, done: nat, c: char)
    requires done < MaxDistributionPasses && c !in s
    requires c != '(' && c != ')' && c != target.outer && c != target.inner
    ensures c !in DistributionPasses(target, s, done).text
    decreases MaxDistributionPasses - done
  {
    DistributionPassLacks(target, s, c);
    var p := DistributionPass(target, s);
    if p.changed && done + 1 < MaxDistributionPasses {
      DistributionPassesLack(target, p.text, done + 1, c);
    }
  }

  // ---------------------------------------------------------------------
  // toPrenex (script.js:349-374)
  // ---------------------------------------------------------------------

  /** The text of a match. */
  function MatchText(s: Str, m: Match): Str
    requires m.start <= m.end <= |s|
  {
    s[m.start..m.end]
  }

  /** A quantifier token: a quantifier symbol followed by word characters. */
  predicate IsQuantifierToken(q: Str) {
    |q| >= 2 && (q[0] == FORALL || q[0] == EXISTS) && forall x :: 1 <= x < |q| ==> IsWord(q[x])
  }

  /** The text a `(∀|∃)(\w+)` match spans is a quantifier token, and the
      word run after it ends there. */
  function TokenText(s: Str, m: Match): (q: Str)
    requires m.start < |s| && MatchAt(Quantifier, s, m.start) == Some(m)
    ensures IsQuantifierToken(q) && q == s[m.start..m.end]
    ensures m.end == |s| || !IsWord(s[m.end])
  {
    assert MatchAt(Quantifier, s, m.start) == QuantifierMatch(s, m.start, {FORALL, EXISTS});
    s[m.start..m.end]
  }

  /** `foundQuantifiers`: the texts of the matches of `/(∀|∃)(\w+)/g`, in the
      order the `exec` loop meets them; each is a quantifier token spanning
      the whole word run after its symbol, and each starts after the previous
      one ends. */
  function FoundQuantifiers(s: Str): (qs: seq<Str>)
    ensures |qs| == |Scan(Quantifier, s, 0)|
    ensures forall k :: 0 <= k < |qs| ==> var m := Scan(Quantifier, s, 0)[k];
      m.start <= m.end <= |s| && qs[k] == MatchText(s, m)
    ensures forall k :: 0 <= k < |qs| ==> IsQuantifierToken(qs[k])
  {
    var ms := Scan(Quantifier, s, 0);
    ScanMatches(Quantifier, s, 0);
    seq(|ms|, k requires 0 <= k < |ms| => TokenText(s, ms[k]))
  }

  /** `foundQuantifiers.forEach(q => { matrix = matrix.replace(q, '') })`. */
  function RemoveEach(matrix: Str, qs: seq<Str>): (r: Str)
    ensures |r| <= |matrix|
    ensures (forall k :: 0 <= k < |qs| ==> !Contains(matrix, qs[k])) ==> r == matrix
    decreases |qs|
  {
    if |qs| == 0 then matrix else RemoveEach(ReplaceFirst(matrix, qs[0], []), qs[1..])
  }

  /** Each `exec` call resumes where the previous match ended: the tokens
      found from `i` on are the leftmost one followed by those after it. */
  lemma FoundStep(s: Str, n: nat, i: nat)
    requires i <= |s| && n <= |Scan(Quantifier, s, 0)|
    requires Scan(Quantifier, s, 0)[n..] == Scan(Quantifier, s, i)
    requires FirstMatch(Quantifier, s, i).Some?
    ensures var m := FirstMatch(Quantifier, s, i).value;
      n < |Scan(Quantifier, s, 0)| && m.end <= |s|
      && Scan(Quantifier, s, 0)[n + 1..] == Scan(Quantifier, s, m.end)
      && FoundQuantifiers(s)[..n + 1] == FoundQuantifiers(s)[..n] + [s[m.start..m.end]]
  {
    ScanFirst(Quantifier, s, i);
    var ms := Scan(Quantifier, s, 0);
    assert ms[n] == FirstMatch(Quantifier, s, i).value;
    assert ms[n + 1..] == ms[n..][1..];
  }

  /** When no match is left, every token has been found. */
  lemma FoundAll(s: Str, n: nat, i: nat)
    requires i <= |s| && n <= |Scan(Quantifier, s, 0)|
    requires Scan(Quantifier, s, 0)[n..] == Scan(Quantifier, s, i)
    requires FirstMatch(Quantifier, s, i).None?
    ensures FoundQuantifiers(s)[..n] == FoundQuantifiers(s)
  {
    ScanFirst(Quantifier, s, i);
  }

  /** One step of the `forEach` over the tokens. */
  lemma RemoveEachStep(matrix: Str, qs: seq<Str>, i: nat)
    requires i < |qs|
    ensures RemoveEach(matrix, qs[i..]) == RemoveEach(ReplaceFirst(matrix, qs[i], []), qs[i + 1..])
  {
    assert qs[i..][1..] == qs[i + 1..];
  }

  /** `toPrenex(formula)`.  Without a quantifier token the formula comes
      back unchanged; with one, the result starts with the tokens in the
      order they occur, separated and followed by a blank. */
  function Prenex(s: Str): (r: Str)
    ensures NoMatch(Quantifier, s) ==> r == s
    ensures !NoMatch(Quantifier, s) ==> |FoundQuantifiers(s)| > 0
    ensures var p := Join(FoundQuantifiers(s), " ") + " ";
      !NoMatch(Quantifier, s) ==> |p| <= |r| && r[..|p|] == p
  {
    var qs := FoundQuantifiers(s);
    ScanCounts(Quantifier, s, 0);
    if |qs| > 0 then Join(qs, " ") + " " + Trim(RemoveEach(s, qs)) else s
  }

  lemma {:induction false} JoinLacks(parts: seq<Str>, sep: Str, c: char)
    requires c !in sep && forall k :: 0 <= k < |parts| ==> c !in parts[k]
    ensures c !in Join(parts, sep)
    decreases |parts|
  {
    if |parts| > 1 {
      JoinLacks(parts[1..], sep, c);
    }
  }

  lemma {:induction false} RemoveEachLacks(matrix: Str, qs: seq<Str>, c: char)
    requires c !in matrix
    ensures c !in RemoveEach(matrix, qs)
    decreases |qs|
  {
    if |qs| > 0 {
      var next := ReplaceFirst(matrix, qs[0], []);
      assert c !in next by {
        match IndexOf(matrix, qs[0], 0)
        case None =>
        case Some(p) =>
          assert next == matrix[..p] + matrix[p + |qs[0]|..];
      }
      RemoveEachLacks(next, qs[1..], c);
    }
  }

  /** Moving the quantifiers out adds only blanks. */
  lemma PrenexLacks(s: Str, c: char)
    requires c !in s && c != ' '
    ensures c !in Prenex(s)
  {
    var qs := FoundQuantifiers(s);
    forall k | 0 <= k < |qs| ensures c !in qs[k] {
      var m := Scan(Quantifier, s, 0)[k];
      assert qs[k] == s[m.start..m.end];
    }
    JoinLacks(qs, " ", c);
    RemoveEachLacks(s, qs, c);
  }

  // ---------------------------------------------------------------------
  // skolemize (script.js:435-452) and the removal of ∀ (script.js:223-229)
  // ---------------------------------------------------------------------

  /** Cutting a slice out of a text keeps only characters of the text. */
  lemma CutShrinks(s: Str, a: nat, b: nat)
    requires a <= b <= |s|
    ensures multiset(s[..a] + s[b..]) <= multiset(s)
  {
    assert s == s[..a] + s[a..b] + s[b..];
  }

  /** An iteration of `skolemize`'s loop: the string without its leftmost `∃\w+`. */
  function DeleteFirstExistential(s: Str): (r: Str)
    requires FirstMatch(Existential, s, 0).Some?
    ensures |r| < |s|
    ensures Count(r, EXISTS) == Count(s, EXISTS) - 1
    ensures multiset(r) <= multiset(s)
  {
    var m := FirstMatch(Existential, s, 0).value;
    ExistentialMatchCount(s, m);
    CountSplice(s, m.start, m.end, [], EXISTS);
    assert s[..m.start] + [] + s[m.end..] == s[..m.start] + s[m.end..];
    CutShrinks(s, m.start, m.end);
    s[..m.start] + s[m.end..]
  }

  /** `skolemize(formula)`.  Each iteration's callback renames the variable
      in `result`, but the outer assignment `result = result.replace(...)`
      then overwrites `result` with the string computed before the callback
      ran, in which only the matched `∃<word>` is replaced by ''.  So each
      iteration only deletes the leftmost `∃\w+`; an `∃` that is not followed
      by a word character makes the loop spin. */
  function Skolemize(s: Str): (r: Run)
    ensures r.Done? ==> EXISTS !in r.value
    ensures r.Done? ==> multiset(r.value) <= multiset(s)
    ensures r.Diverges? ==> EXISTS in r.stuck && NoMatch(Existential, r.stuck)
    decreases |s|
  {
    if EXISTS !in s then Done(s)
    else
      match FirstMatch(Existential, s, 0)
      case None => Diverges(s)
      case Some(_) => Skolemize(DeleteFirstExistential(s))
  }

  /** The text an `∃\w+` match spans holds one `∃`: the word run after it
      holds none. */
  lemma ExistentialMatchCount(s: Str, m: Match)
    requires m.start < |s| && MatchAt(Existential, s, m.start) == Some(m)
    ensures Count(s[m.start..m.end], EXISTS) == 1
  {
    assert MatchAt(Existential, s, m.start) == ExistentialMatch(s, m.start);
    assert m.end == RunEnd(s, m.start + 1, Word) && s[m.start] == EXISTS;
    var tail := s[m.start + 1..m.end];
    assert forall k :: 0 <= k < |tail| ==> IsWord(tail[k]);
    assert EXISTS !in tail;
    assert s[m.start..m.end] == [EXISTS] + tail;
    CountConcat([EXISTS], tail, EXISTS);
  }

  /** One iteration of `skolemize`'s loop when an `∃\w+` is found. */
  lemma SkolemizeStep(s: Str)
    requires EXISTS in s && FirstMatch(Existential, s, 0).Some?
    ensures Skolemize(s) == Skolemize(DeleteFirstExistential(s))
  {
  }

  /** `current.replace(/∀\w+\s*\/g, '')`. */
  function RemoveUniversals(s: Str): (r: Str)
    ensures NoMatch(Universal, s) ==> r == s
    ensures forall c :: c in r ==> c in s
    ensures (forall k :: 0 <= k < |s| && s[k] == FORALL ==> k + 1 < |s| && IsWord(s[k + 1])) ==> FORALL !in r
  {
    UniversalsRemoved(s);
    assert s[0..] == s;
    ReplaceAll(Universal, s)
  }

  /** `/∀\w+\s*\/g` adds nothing, and removes every `∀` followed by a word
      character. */
  lemma UniversalsRemoved(s: Str)
    ensures forall c :: c in ReplaceAll(Universal, s) ==> c in s
    ensures (forall k :: 0 <= k < |s| && s[k] == FORALL ==> k + 1 < |s| && IsWord(s[k + 1])) ==>
      FORALL !in ReplaceAll(Universal, s)
  {
    forall c | c in ReplaceAll(Universal, s) ensures c in s {
      if c !in s {
        GlobalLacks(Universal, s, 0, c);
      }
    }
    if forall k :: 0 <= k < |s| && s[k] == FORALL ==> k + 1 < |s| && IsWord(s[k + 1]) {
      forall k | 0 <= k < |s| && s[k] == FORALL
        ensures MatchAt(Universal, s, k).Some?
      {
        assert QuantifierMatch(s, k, {FORALL}).Some?;
      }
      GlobalRemoves(Universal, s, 0, FORALL);
    }
  }
}
