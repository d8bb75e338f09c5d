/** The class FormulaTransformer of script.js:48-486.  Its drivers reset and
    fill the `steps` field as the source does; its helpers are the source's
    loops, each proved to compute the stage function it is specified by.

    A method here cannot run for ever, so where the source's loop would spin
    (its condition still holds but the rewrite inside it changes nothing) the
    method stops and reports it: the helpers return `Diverges`, the drivers
    `Spins` with the trace recorded so far. */
module Transformer {
  import opened Text
  import opened Regex
  import opened Parser
  import opened Stages
  import opened Clauses
  import opened Pipeline

  class FormulaTransformer {
    /** `this.formula`, the parsed formula; the source never reassigns it. */
    const formula: ParsedFormula
    /** `this.steps`, the trace of the last driver call. */
    var steps: seq<Step>

    constructor (parsed: ParsedFormula)
      ensures formula == parsed && steps == []
    {
      formula := parsed;
      steps := [];
    }

    // -------------------------------------------------------------------
    // Helpers (script.js:306-485)
    // -------------------------------------------------------------------

    /** The loop shared by `eliminateBiconditionals` and
        `eliminateImplications`: rewrite the leftmost match while the symbol
        occurs. */
    method EliminateLoop(rule: Rule, s: Str) returns (r: Run)
      requires IsElimination(rule)
      ensures r == Eliminate(rule, s)
    {
      var current := s;
      while Eliminated(rule) in current
        invariant Eliminate(rule, current) == Eliminate(rule, s)
        decreases Count(current, Eliminated(rule))
      {
        var next := ReplaceFirstMatch(rule, current);
        if FirstMatch(rule, current, 0).Some? {
          EliminationStepCount(rule, current);
        }
        if next == current {
          // No match: the source's loop would repeat this no-op for ever.
          return Diverges(current);
        }
        current := next;
      }
      return Done(current);
    }

    /** `eliminateBiconditionals(formula)`. */
    method EliminateBiconditionals(s: Str) returns (r: Run)
      ensures r == Eliminate(Biconditional, s)
      ensures r.Done? ==> IFF !in r.value
    {
      r := EliminateLoop(Biconditional, s);
    }

    /** `eliminateImplications(formula)`. */
    method EliminateImplications(s: Str) returns (r: Run)
      ensures r == Eliminate(Implication, s)
      ensures r.Done? ==> IMPLIES !in r.value
    {
      r := EliminateLoop(Implication, s);
    }

    /** The body of `pushNegations`' loop: the two De Morgan rewrites, whose
        callbacks set `changed`, then the removal of double negations. */
    method NegationRound(formula: Str) returns (next: Str, changed: bool)
      ensures Pass(next, changed) == NegationPass(formula)
    {
      changed := false;
      var a := Global(NegatedAnd, formula, 0);
      next := a.text;
      if a.hits > 0 {
        changed := true;
      }
      var b := Global(NegatedOr, next, 0);
      next := b.text;
      if b.hits > 0 {
        changed := true;
      }
      next := ReplaceAll(DoubleNegation, next);
      if formula != next {
        changed := true;
      }
    }

    /** `pushNegations(formula)`: at most ten passes. */
    method PushNegations(s: Str) returns (r: Str)
      ensures r == Stages.PushNegations(s)
    {
      var formula := s;
      var changed := true;
      var iterations := 0;
      while changed && iterations < MaxNegationPasses
        invariant iterations <= MaxNegationPasses
        invariant NegationLoopAt(s, formula, changed, iterations)
        decreases MaxNegationPasses - iterations
      {
        var next, again := NegationRound(formula);
        NegationLoopStep(s, formula, iterations, Pass(next, again));
        iterations := iterations + 1;
        formula, changed := next, again;
      }
      return formula;
    }

    /** The `exec` loop of `toPrenex`: the text of every match of
        `/(∀|∃)(\w+)/g`, each search resuming at `lastIndex`. */
    method FindQuantifiers(s: Str) returns (found: seq<Str>)
      ensures found == FoundQuantifiers(s)
    {
      found := [];
      var lastIndex := 0;
      var m := FirstMatch(Quantifier, s, lastIndex);
      while m.Some?
        invariant lastIndex <= |s| && |found| <= |Scan(Quantifier, s, 0)|
        invariant m == FirstMatch(Quantifier, s, lastIndex)
        invariant Scan(Quantifier, s, 0)[|found|..] == Scan(Quantifier, s, lastIndex)
        invariant found == FoundQuantifiers(s)[..|found|]
        decreases |s| - lastIndex
      {
        FoundStep(s, |found|, lastIndex);
        var hit := m.value;
        found := found + [s[hit.start..hit.end]];
        lastIndex := hit.end;
        m := FirstMatch(Quantifier, s, lastIndex);
      }
      FoundAll(s, |found|, lastIndex);
    }

    /** `foundQuantifiers.forEach(q => { matrix = matrix.replace(q, '') })`. */
    method RemoveQuantifiers(formula: Str, found: seq<Str>) returns (matrix: Str)
      ensures matrix == RemoveEach(formula, found)
    {
      matrix := formula;
      var i := 0;
      while i < |found|
        invariant i <= |found|
        invariant RemoveEach(matrix, found[i..]) == RemoveEach(formula, found)
      {
        RemoveEachStep(matrix, found, i);
        matrix := ReplaceFirst(matrix, found[i], []);
        i := i + 1;
      }
    }

    /** `toPrenex(formula)`. */
    method ToPrenex(s: Str) returns (r: Str)
      ensures r == Prenex(s)
    {
      var found := FindQuantifiers(s);
      var matrix := RemoveQuantifiers(s, found);
      matrix := Trim(matrix);
      if |found| > 0 {
        return Join(found, " ") + " " + matrix;
      }
      return s;
    }

    /** The body of the loop shared by `toCNF` and `toDNF`: the mirrored
        pattern is tried only when the first one's callback never ran. */
    method DistributionRound(target: Target, formula: Str) returns (next: Str, changed: bool)
      ensures Pass(next, changed) == DistributionPass(target, formula)
    {
      changed := false;
      var a := Global(LeftRule(target), formula, 0);
      next := a.text;
      if a.hits > 0 {
        changed := true;
      }
      if !changed {
        var b := Global(RightRule(target), next, 0);
        next := b.text;
        if b.hits > 0 {
          changed := true;
        }
      }
    }

    /** The loop shared by `toCNF` and `toDNF`: at most twenty passes. */
    method DistributeLoop(target: Target, s: Str) returns (r: Str)
      ensures r == Distribute(target, s)
    {
      var formula := s;
      var changed := true;
      var iterations := 0;
      while changed && iterations < MaxDistributionPasses
        invariant iterations <= MaxDistributionPasses
        invariant DistributionLoopAt(target, s, formula, changed, iterations)
        decreases MaxDistributionPasses - iterations
      {
        var next, again := DistributionRound(target, formula);
        DistributionLoopStep(target, s, formula, iterations, Pass(next, again));
        iterations := iterations + 1;
        formula, changed := next, again;
      }
      return formula;
    }

    /** `toCNF(formula)`. */
    method ToCNF(s: Str) returns (r: Str)
      ensures r == Distribute(Cnf, s)
    {
      r := DistributeLoop(Cnf, s);
    }

    /** `toDNF(formula)`. */
    method ToDNF(s: Str) returns (r: Str)
      ensures r == Distribute(Dnf, s)
    {
      r := DistributeLoop(Dnf, s);
    }

    /** `skolemize(formula)`.  The callback's rewrite of `result` is lost when
        the outer assignment stores the value `replace` returns, so each
        iteration only deletes the leftmost `∃\w+`. */
    method Skolemize(s: Str) returns (r: Run)
      ensures r == Stages.Skolemize(s)
    {
      var result := s;
      var skolemCounter := 1;
      while EXISTS in result
        invariant Stages.Skolemize(result) == Stages.Skolemize(s)
        decreases |result|
      {
        var m := FirstMatch(Existential, result, 0);
        if m.None? {
          // `replace` finds nothing and returns `result` unchanged, so the
          // source's loop would repeat this no-op for ever.
          return Diverges(result);
        }
        // The callback names the constant and advances the counter; its
        // write to `result` is then overwritten by the value it returns.
        skolemCounter := skolemCounter + 1;
        SkolemizeStep(result);
        result := DeleteFirstExistential(result);
      }
      return Done(result);
    }

    /** The `forEach` callback of `extractClauses`: the clause for one part,
        if the part is not empty once trimmed and unwrapped. */
    method ClauseFor(part: Str) returns (clause: Option<Str>)
      ensures clause == ClauseOf(part)
      ensures clause.Some? ==> IsClauseText(clause.value)
    {
      var cleaned := StripOuterParens(Trim(part));
      if cleaned != [] {
        return Some("{" + ReplaceAll(OrToComma, cleaned) + "}");
      }
      return None;
    }

    /** The `forEach` of `extractClauses` over the parts. */
    method CollectClauses(parts: seq<Str>) returns (clauses: seq<Str>)
      ensures clauses == Collect(parts)
    {
      clauses := [];
      var i := 0;
      while i < |parts|
        invariant i <= |parts|
        invariant clauses + Collect(parts[i..]) == Collect(parts)
      {
        var clause := ClauseFor(parts[i]);
        CollectStep(parts, i);
        if clause.Some? {
          ghost var rest := Collect(parts[i + 1..]);
          assert clauses + ([clause.value] + rest) == (clauses + [clause.value]) + rest;
          clauses := clauses + [clause.value];
        }
        i := i + 1;
      }
      assert parts[i..] == [];
    }

    /** `extractClauses(formula)`. */
    method ExtractClauses(s: Str) returns (clauses: seq<Str>)
      ensures clauses == Clauses.ExtractClauses(s)
    {
      var formula := StripOuterParens(s);
      var parts := Split(formula, AND);
      clauses := CollectClauses(parts);
    }

    /** The `forEach` of `isHornClause`: count the literals that do not
        start with `¬`. */
    method CountPositive(literals: seq<Str>) returns (positiveCount: nat)
      ensures positiveCount == PositiveCount(literals)
    {
      positiveCount := 0;
      var i := 0;
      while i < |literals|
        invariant i <= |literals|
        invariant positiveCount == PositiveCount(literals[..i])
      {
        PositiveCountStep(literals, i);
        if Positive(literals[i]) {
          positiveCount := positiveCount + 1;
        }
        i := i + 1;
      }
      assert literals[..i] == literals;
    }

    /** `isHornClause(clause)`. */
    method IsHornClause(clause: Str) returns (b: bool)
      ensures b == IsHorn(clause)
      ensures b <==> AtMostOnePositive(Literals(clause))
    {
      var positiveCount := CountPositive(Literals(clause));
      return positiveCount <= 1;
    }

    // -------------------------------------------------------------------
    // Drivers (script.js:55-303)
    // -------------------------------------------------------------------

    /** The start of `toPrenexCNF` and `toPrenexDNF`: the trace is reset,
        an empty formula is rejected, the original formula is recorded, and
        steps 1 and 2 run when their symbol occurs. */
    method OpeningStages(target: Target) returns (o: Outcome<FormResult>)
      modifies this
      ensures o == if formula.processed == [] then Throws(InvalidFormula) else EarlyStages(formula.processed, target)
      ensures o.Returns? ==> steps == o.value.steps
      ensures o.Spins? ==> steps == o.trace
      ensures o.Throws? ==> steps == []
    {
      steps := [];
      var current := formula.processed;
      if current == [] {
        return Throws(InvalidFormula);
      }
      steps := steps + [Step(Original, current)];
      ghost var t0 := FormResult(steps, current);
      assert t0 == FormResult([Step(Original, formula.processed)], formula.processed);
      if IFF in current {
        var r := EliminateBiconditionals(current);
        if r.Diverges? {
          return Spins(steps, r.stuck);
        }
        current := r.value;
        steps := steps + [Step(Biconditionals(target), current)];
      }
      ghost var t1 := FormResult(steps, current);
      assert EliminationStage(t0, Biconditional, Biconditionals(target)) == Returns(t1);
      if IMPLIES in current {
        var r := EliminateImplications(current);
        if r.Diverges? {
          return Spins(steps, r.stuck);
        }
        current := r.value;
        steps := steps + [Step(Implications(target), current)];
      }
      assert EliminationStage(t1, Implication, Implications(target)) == Returns(FormResult(steps, current));
      return Returns(FormResult(steps, current));
    }

    /** Steps 3 to 5 of `toPrenexCNF` and `toPrenexDNF` on `current`, each
        recorded when its trigger holds. */
    method ClosingStages(current: Str, target: Target) returns (r: Str)
      requires target == Cnf || target == Dnf
      modifies this
      ensures FormResult(steps, r) == LaterStages(FormResult(old(steps), current), formula.formulaType, target)
    {
      r := current;
      ghost var t2 := FormResult(steps, r);
      if Contains(r, [NOT, '(']) {
        r := PushNegations(r);
        steps := steps + [Step(DeMorgan, r)];
      }
      ghost var t3 := FormResult(steps, r);
      assert NegationStage(t2) == t3;
      if formula.formulaType == FirstOrder && (FORALL in r || EXISTS in r) {
        r := ToPrenex(r);
        steps := steps + [Step(PrenexForm, r)];
      }
      ghost var t4 := FormResult(steps, r);
      assert PrenexStage(t3, formula.formulaType) == t4;
      if OR in r && AND in r {
        var attempt;
        if target == Cnf {
          attempt := ToCNF(r);
        } else {
          attempt := ToDNF(r);
        }
        if attempt != r {
          r := attempt;
          steps := steps + [Step(Distribution(target), r)];
        }
      }
      assert DistributionStage(t4, target) == FormResult(steps, r);
    }

    /** The body shared by `toPrenexCNF` and `toPrenexDNF`, which differ only
        in the distribution loop and the wording of steps 1, 2 and 5. */
    method NormalFormDriver(target: Target) returns (o: Outcome<FormResult>)
      requires target == Cnf || target == Dnf
      modifies this
      ensures o == NormalForm(formula, target)
      ensures o.Returns? ==> steps == o.value.steps
      ensures o.Spins? ==> steps == o.trace
      ensures o.Throws? ==> steps == []
    {
      o := OpeningStages(target);
      if o.Returns? {
        var final := ClosingStages(o.value.final, target);
        o := Returns(FormResult(steps, final));
      }
    }

    /** `toPrenexCNF()`. */
    method ToPrenexCNF() returns (o: Outcome<FormResult>)
      modifies this
      ensures o == NormalForm(formula, Cnf)
      ensures o.Returns? ==> steps == o.value.steps
      ensures o.Spins? ==> steps == o.trace
      ensures o.Throws? ==> steps == []
    {
      o := NormalFormDriver(Cnf);
    }

    /** `toPrenexDNF()`. */
    method ToPrenexDNF() returns (o: Outcome<FormResult>)
      modifies this
      ensures o == NormalForm(formula, Dnf)
      ensures o.Returns? ==> steps == o.value.steps
      ensures o.Spins? ==> steps == o.trace
      ensures o.Throws? ==> steps == []
    {
      o := NormalFormDriver(Dnf);
    }

    /** `toClausalForm()`.  When `toPrenexCNF` throws, the error result is
        returned and `this.steps` stays as `toPrenexCNF` left it, empty. */
    method ToClausalForm() returns (o: Outcome<ClausalResult>)
      modifies this
      ensures o == ClausalForm(formula)
      ensures o.Returns? && formula.processed != [] ==> steps == o.value.steps
      ensures formula.processed == [] ==> steps == []
      ensures o.Spins? ==> steps == o.trace
    {
      var cnf := ToPrenexCNF();
      if cnf.Throws? {
        return Returns(ClausalResult([Step(Failure, ClausalFailure)], []));
      }
      if cnf.Spins? {
        return Spins(cnf.trace, cnf.stuck);
      }
      var current := cnf.value.final;
      assert ClausalForm(formula) == ClausesFrom(current, formula.formulaType);
      steps := [Step(ConjunctiveForm, current)];
      ghost var t0 := FormResult(steps, current);
      if formula.formulaType == FirstOrder && EXISTS in current {
        var r := Skolemize(current);
        if r.Diverges? {
          return Spins(steps, r.stuck);
        }
        current := r.value;
        steps := steps + [Step(Skolemization, current)];
      }
      assert SkolemStage(t0, formula.formulaType) == Returns(FormResult(steps, current));
      ghost var t1 := FormResult(steps, current);
      if FORALL in current {
        current := ReplaceAll(Universal, current);
        steps := steps + [Step(UniversalsRemoved, current)];
      }
      assert UniversalStage(t1) == FormResult(steps, current);
      var clauses := ExtractClauses(current);
      if |clauses| > 0 {
        steps := steps + [Step(ClauseSet, Join(clauses, AndSeparator))];
      }
      return Returns(ClausalResult(steps, clauses));
    }

    /** The `forEach` of `toHornClauses`: each clause goes, in order, to the
        Horn list or to the non-Horn list by `isHornClause`. */
    method SortClauses(clauses: seq<Str>) returns (hornClauses: seq<Str>, nonHornClauses: seq<Str>)
      ensures hornClauses == Select(clauses, IsHorn, true)
      ensures nonHornClauses == Select(clauses, IsHorn, false)
    {
      hornClauses, nonHornClauses := [], [];
      var i := 0;
      while i < |clauses|
        invariant i <= |clauses|
        invariant hornClauses == Select(clauses[..i], IsHorn, true)
        invariant nonHornClauses == Select(clauses[..i], IsHorn, false)
      {
        var horn := IsHornClause(clauses[i]);
        SelectStep(clauses, i, IsHorn, horn, hornClauses, nonHornClauses);
        if horn {
          hornClauses := hornClauses + [clauses[i]];
        } else {
          nonHornClauses := nonHornClauses + [clauses[i]];
        }
        i := i + 1;
      }
      assert clauses[..i] == clauses;
    }

    /** `toHornClauses()`. */
    method ToHornClauses() returns (o: Outcome<HornResult>)
      modifies this
      ensures o == HornForm(formula)
      ensures o.Returns? ==> steps == o.value.steps
      ensures o.Spins? ==> steps == o.trace
    {
      var c := ToClausalForm();
      if c.Spins? {
        assert HornForm(formula) == Spins(c.trace, c.stuck);
        return Spins(c.trace, c.stuck);
      }
      var clauses := c.value.final;
      steps := [];
      var hornClauses, nonHornClauses := SortClauses(clauses);
      var listed := if |hornClauses| > 0 then Join(hornClauses, AndSeparator) else NoHornClauses;
      steps := steps + [Step(HornFound, listed)];
      if |nonHornClauses| > 0 {
        steps := steps + [Step(NonHorn, Join(nonHornClauses, AndSeparator))];
      }
      assert steps == HornSteps(hornClauses, nonHornClauses) by {
        assert [] + [Step(HornFound, listed)] == [Step(HornFound, listed)];
      }
      return Returns(HornResult(steps, hornClauses, nonHornClauses));
    }
  }
}
