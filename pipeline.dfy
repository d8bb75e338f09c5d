/** The driver methods of FormulaTransformer (script.js:55-303) as functions
    of the parsed formula: the trace of steps each one records and the value
    it returns.  `Outcome` also covers the exception the drivers throw on an
    empty formula and the loops that never end. */
module Pipeline {
  import opened Text
  import opened Regex
  import opened Parser
  import opened Stages
  import opened Clauses

  /** The kinds of step the transformer records; `Description` gives the
      text the source stores for each. */
  datatype Stage =
    | Original
    | Biconditionals(target: Target)
    | Implications(target: Target)
    | DeMorgan
    | PrenexForm
    | Distribution(target: Target)
    | ConjunctiveForm
    | Skolemization
    | UniversalsRemoved
    | ClauseSet
    | HornFound
    | NonHorn
    | Failure

  /** The `description` of a step; the DNF driver words the first two stages
      more briefly than the CNF driver. */
  function Description(stage: Stage): Str {
    match stage
    case Original => "Fórmula original"
    case Biconditionals(target) =>
      if target == Cnf then "Eliminar bicondicionais (P↔Q ≡ (P→Q)∧(Q→P))" else "Eliminar bicondicionais"
    case Implications(target) =>
      if target == Cnf then "Eliminar implicações (P→Q ≡ ¬P∨Q)" else "Eliminar implicações"
    case DeMorgan => "Aplicar Lei de De Morgan"
    case PrenexForm => "Mover quantificadores para o início (Forma Prenex)"
    case Distribution(target) =>
      if target == Cnf then "Distribuir ∨ sobre ∧ (Forma Normal Conjuntiva)"
      else "Distribuir ∧ sobre ∨ (Forma Normal Disjuntiva)"
    case ConjunctiveForm => "Forma Normal Conjuntiva"
    case Skolemization => "Skolemização (eliminar ∃)"
    case UniversalsRemoved => "Remover quantificadores universais"
    case ClauseSet => "Conjunto de cláusulas"
    case HornFound => "Cláusulas de Horn identificadas"
    case NonHorn => "Cláusulas não-Horn"
    case Failure => "Erro"
  }

  /** The stages the drivers record: those of the CNF and the DNF driver. */
  predicate Recorded(stage: Stage) {
    match stage
    case Biconditionals(target) => target == Cnf || target == Dnf
    case Implications(target) => target == Cnf || target == Dnf
    case Distribution(target) => target == Cnf || target == Dnf
    case _ => true
  }

  /** Different recorded stages have different descriptions, so a step's
      description tells which stage recorded it. */
  lemma DescriptionsDistinct(a: Stage, b: Stage)
    requires Recorded(a) && Recorded(b) && a != b
    ensures Description(a) != Description(b)
  {
    DescriptionLength(a);
    DescriptionLength(b);
    if Length(a) != Length(b) {
      assert |Description(a)| != |Description(b)|;
    } else {
      SameLength(a, b);
      if a.Distribution? {
        DistributionsDiffer();
        assert Description(a)[11] != Description(b)[11];
      } else {
        ShortDescriptionsDiffer();
        assert Description(a)[0] != Description(b)[0];
      }
    }
  }

  /** The length of each recorded stage's description. */
  function Length(stage: Stage): nat {
    match stage
    case Original => 16
    case Biconditionals(target) => if target == Cnf then 43 else 23
    case Implications(target) => if target == Cnf then 33 else 20
    case DeMorgan => 24
    case PrenexForm => 50
    case Distribution(_) => 46
    case ConjunctiveForm => 23
    case Skolemization => 25
    case UniversalsRemoved => 34
    case ClauseSet => 21
    case HornFound => 31
    case NonHorn => 18
    case Failure => 4
  }

  lemma DescriptionLength(stage: Stage)
    requires Recorded(stage)
    ensures |Description(stage)| == Length(stage)
  {
    match stage
    case Original =>
    case Biconditionals(target) =>
    case Implications(target) =>
    case DeMorgan =>
    case PrenexForm =>
    case Distribution(target) =>
    case ConjunctiveForm =>
    case Skolemization =>
    case UniversalsRemoved =>
    case ClauseSet =>
    case HornFound =>
    case NonHorn =>
    case Failure =>
  }

  /** Only two pairs of recorded stages have descriptions of one length. */
  lemma SameLength(a: Stage, b: Stage)
    requires Recorded(a) && Recorded(b) && a != b && Length(a) == Length(b)
    ensures || (a == Biconditionals(Dnf) && b == ConjunctiveForm)
            || (a == ConjunctiveForm && b == Biconditionals(Dnf))
            || (a.Distribution? && b.Distribution?)
  {
  }

  /** The descriptions of those pairs differ in one character. */
  lemma ShortDescriptionsDiffer()
    ensures Description(Biconditionals(Dnf))[0] == 'E' && Description(ConjunctiveForm)[0] == 'F'
  {
  }

  lemma DistributionsDiffer()
    ensures Description(Distribution(Cnf))[11] == OR && Description(Distribution(Dnf))[11] == AND
  {
  }

  /** One `{ description, formula }` entry of `this.steps`, its description
      given by its stage. */
  datatype Step = Step(stage: Stage, formula: Str)

  /** `{ steps, final }` of `toPrenexCNF` and `toPrenexDNF`. */
  datatype FormResult = FormResult(steps: seq<Step>, final: Str)

  /** `{ steps, final }` of `toClausalForm`. */
  datatype ClausalResult = ClausalResult(steps: seq<Step>, final: seq<Str>)

  /** `{ steps, hornClauses, nonHornClauses }` of `toHornClauses`. */
  datatype HornResult = HornResult(steps: seq<Step>, hornClauses: seq<Str>, nonHornClauses: seq<Str>)

  /** How a call ends: it returns, it throws, or one of its loops spins for
      ever on `stuck` after the steps in `trace` were recorded. */
  datatype Outcome<T> = Returns(value: T) | Throws(message: Str) | Spins(trace: seq<Step>, stuck: Str)

  const InvalidFormula: Str := "Fórmula inválida"
  const ClausalFailure: Str := "Não foi possível converter para forma clausal"
  const NoHornClauses: Str := "Nenhuma cláusula de Horn"
  /** The separator of `clauses.join(' ∧ ')`. */
  const AndSeparator: Str := [' ', AND, ' ']

  /** A parsed formula as `parseFormula` builds it: its type agrees with the
      quantifiers of its processed text. */
  predicate Consistent(f: ParsedFormula) {
    f.formulaType == DetectFormulaType(f.processed)
  }

  /** Every record `parseFormula` returns carries the type of its own
      processed text. */
  lemma ParsedConsistent(s: Str)
    ensures Consistent(ParseFormula(s))
  {
  }

  /** `t` extended by one step that leaves the formula at `next`. */
  function Push(t: FormResult, stage: Stage, next: Str): FormResult {
    FormResult(t.steps + [Step(stage, next)], next)
  }

  /** The trace so far ends with the current formula. */
  predicate Traced(t: FormResult) {
    |t.steps| > 0 && t.steps[|t.steps| - 1].formula == t.final
  }

  // ---------------------------------------------------------------------
  // toPrenexCNF / toPrenexDNF (script.js:55-199)
  // ---------------------------------------------------------------------

  /** Step 1 or 2 of the normal-form drivers: when the symbol of `rule` occurs,
      run its elimination loop and record the result. */
  function EliminationStage(t: FormResult, rule: Rule, stage: Stage): (r: Outcome<FormResult>)
    requires IsElimination(rule)
    ensures r.Throws? == false
    ensures Eliminated(rule) !in t.final ==> r == Returns(t)
    ensures r.Returns? ==> Eliminated(rule) !in r.value.final
    ensures r.Spins? ==> r.trace == t.steps && Eliminated(rule) in r.stuck && NoMatch(rule, r.stuck)
  {
    if Eliminated(rule) in t.final then
      match Eliminate(rule, t.final)
      case Done(v) => Returns(Push(t, stage, v))
      case Diverges(stuck) => Spins(t.steps, stuck)
    else Returns(t)
  }

  /** An elimination stage adds no character that is neither in the formula
      before it nor in the rule's template. */
  lemma EliminationStageLacks(t: FormResult, rule: Rule, stage: Stage, c: char)
    requires IsElimination(rule) && c !in t.final && !Emits(rule, c)
    ensures EliminationStage(t, rule, stage).Returns? ==> c !in EliminationStage(t, rule, stage).value.final
  {
    if Eliminated(rule) in t.final {
      EliminateLacks(rule, t.final, c);
    }
  }

  /** Step 3: `if (current.includes('¬('))`. */
  function NegationStage(t: FormResult): FormResult {
    if Contains(t.final, [NOT, '(']) then Push(t, DeMorgan, PushNegations(t.final)) else t
  }

  /** Step 4: only for a first-order formula that still holds a quantifier. */
  function PrenexStage(t: FormResult, kind: FormulaType): FormResult {
    if kind == FirstOrder && (FORALL in t.final || EXISTS in t.final) then Push(t, PrenexForm, Prenex(t.final))
    else t
  }

  /** Step 5: run the distribution loop when both connectives occur, and record
      it only when it changed the formula. */
  function DistributionStage(t: FormResult, target: Target): FormResult {
    if OR in t.final && AND in t.final then
      var attempt := Distribute(target, t.final);
      if attempt != t.final then Push(t, Distribution(target), attempt) else t
    else t
  }

  /** Steps 3 to 5, which always terminate. */
  function LaterStages(t: FormResult, kind: FormulaType, target: Target): FormResult {
    DistributionStage(PrenexStage(NegationStage(t), kind), target)
  }

  /** The opening step and steps 1 and 2, whose loops may spin. */
  function EarlyStages(p: Str, target: Target): Outcome<FormResult> {
    var t0 := FormResult([Step(Original, p)], p);
    match EliminationStage(t0, Biconditional, Biconditionals(target))
    case Returns(t1) => EliminationStage(t1, Implication, Implications(target))
    case Throws(m) => Throws(m)
    case Spins(trace, stuck) => Spins(trace, stuck)
  }

  /** `toPrenexCNF()` (target `Cnf`) and `toPrenexDNF()` (target `Dnf`):
      they throw exactly on an empty formula, with "Fórmula inválida". */
  function NormalForm(f: ParsedFormula, target: Target): (r: Outcome<FormResult>)
    ensures r.Throws? <==> f.processed == []
    ensures r.Throws? ==> r.message == InvalidFormula
  {
    if f.processed == [] then Throws(InvalidFormula)
    else
      match EarlyStages(f.processed, target)
      case Returns(t2) => Returns(LaterStages(t2, f.formulaType, target))
      case Throws(m) => Throws(m)
      case Spins(trace, stuck) => Spins(trace, stuck)
  }

  // ---------------------------------------------------------------------
  // The trace of the normal-form drivers
  // ---------------------------------------------------------------------

  /** Position of a step in the fixed order of the normal-form drivers. */
  function Rank(stage: Stage): nat {
    match stage
    case Original => 0
    case Biconditionals(_) => 1
    case Implications(_) => 2
    case DeMorgan => 3
    case PrenexForm => 4
    case Distribution(_) => 5
    case _ => 6
  }

  /** Step `s` may follow a step that left the formula at `prev`: it belongs to
      the driver for `target`, the trigger of its stage holds on `prev`, and
      its formula is what that stage computes from `prev`. */
  predicate Follows(s: Step, prev: Str, kind: FormulaType, target: Target) {
    match s.stage
    case Biconditionals(t) => t == target && IFF in prev && Eliminate(Biconditional, prev) == Done(s.formula)
    case Implications(t) => t == target && IMPLIES in prev && Eliminate(Implication, prev) == Done(s.formula)
    case DeMorgan => Contains(prev, [NOT, '(']) && s.formula == PushNegations(prev)
    case PrenexForm => kind == FirstOrder && (FORALL in prev || EXISTS in prev) && s.formula == Prenex(prev)
    case Distribution(t) =>
      t == target && OR in prev && AND in prev && s.formula == Distribute(target, prev) && s.formula != prev
    case _ => false
  }

  /** Two consecutive steps of a trace. */
  predicate Link(before: Step, after: Step, kind: FormulaType, target: Target) {
    Rank(before.stage) < Rank(after.stage) && Follows(after, before.formula, kind, target)
  }

  /** A trace the normal-form drivers can record: it opens with the original
      formula, the stages appear in their order, each at most once, and every
      step follows from the one before it. */
  predicate ValidTrace(steps: seq<Step>, kind: FormulaType, target: Target) {
    && |steps| > 0
    && steps[0].stage == Original
    && Chained(steps, (before: Step, after: Step) => Link(before, after, kind, target))
  }

  /** Every element of `xs` is related by `rel` to the one before it. */
  predicate Chained<T>(xs: seq<T>, rel: (T, T) -> bool) {
    forall k :: 0 < k < |xs| ==> rel(xs[k - 1], xs[k])
  }

  /** The invariant of the drivers between two stages: a valid trace ending
      with the current formula, its last stage of rank at most `rank`. */
  predicate Between(t: FormResult, kind: FormulaType, target: Target, rank: nat) {
    ValidTrace(t.steps, kind, target) && Traced(t) && Rank(t.steps[|t.steps| - 1].stage) <= rank
  }

  /** A chain stays a chain when an element related to its last one is added. */
  lemma ChainedExtends<T>(xs: seq<T>, x: T, rel: (T, T) -> bool)
    requires |xs| > 0 && Chained(xs, rel) && rel(xs[|xs| - 1], x)
    ensures Chained(xs + [x], rel)
  {
    var u := xs + [x];
    forall k | 0 < k < |u| ensures rel(u[k - 1], u[k]) {
      if k < |xs| {
        assert rel(xs[k - 1], xs[k]);
        assert u[k - 1] == xs[k - 1] && u[k] == xs[k];
      }
    }
  }

  lemma PushKeeps(t: FormResult, stage: Stage, next: Str, kind: FormulaType, target: Target)
    requires Rank(stage) > 0 && Between(t, kind, target, Rank(stage) - 1)
    requires Follows(Step(stage, next), t.final, kind, target)
    ensures Between(Push(t, stage, next), kind, target, Rank(stage))
  {
    assert Link(t.steps[|t.steps| - 1], Step(stage, next), kind, target);
    ChainedExtends(t.steps, Step(stage, next), (before: Step, after: Step) => Link(before, after, kind, target));
  }

  lemma EliminationStageKeeps(t: FormResult, rule: Rule, stage: Stage, kind: FormulaType, target: Target)
    requires IsElimination(rule)
    requires stage == (if rule == Biconditional then Biconditionals(target) else Implications(target))
    requires Between(t, kind, target, Rank(stage) - 1)
    ensures EliminationStage(t, rule, stage).Returns? ==> Between(EliminationStage(t, rule, stage).value, kind, target, Rank(stage))
  {
    if Eliminated(rule) in t.final {
      match Eliminate(rule, t.final)
      case Done(v) =>
        PushKeeps(t, stage, v, kind, target);
      case Diverges(_) =>
    }
  }

  lemma NegationStageKeeps(t: FormResult, kind: FormulaType, target: Target)
    requires Between(t, kind, target, 2)
    ensures Between(NegationStage(t), kind, target, 3)
  {
    if Contains(t.final, [NOT, '(']) {
      PushKeeps(t, DeMorgan, PushNegations(t.final), kind, target);
    }
  }

  lemma PrenexStageKeeps(t: FormResult, kind: FormulaType, target: Target)
    requires Between(t, kind, target, 3)
    ensures Between(PrenexStage(t, kind), kind, target, 4)
  {
    if kind == FirstOrder && (FORALL in t.final || EXISTS in t.final) {
      PushKeeps(t, PrenexForm, Prenex(t.final), kind, target);
    }
  }

  lemma DistributionStageKeeps(t: FormResult, kind: FormulaType, target: Target)
    requires Between(t, kind, target, 4)
    ensures Between(DistributionStage(t, target), kind, target, 5)
  {
    if OR in t.final && AND in t.final {
      var attempt := Distribute(target, t.final);
      if attempt != t.final {
        assert Follows(Step(Distribution(target), attempt), t.final, kind, target);
        PushKeeps(t, Distribution(target), attempt, kind, target);
      }
    }
  }

  lemma LaterStagesKeep(t: FormResult, kind: FormulaType, target: Target)
    requires Between(t, kind, target, 2)
    ensures Between(LaterStages(t, kind, target), kind, target, 5)
  {
    NegationStageKeeps(t, kind, target);
    PrenexStageKeeps(NegationStage(t), kind, target);
    DistributionStageKeeps(PrenexStage(NegationStage(t), kind), kind, target);
  }

  /** Steps 3 to 5 only append to the trace. */
  lemma LaterStagesExtend(t: FormResult, kind: FormulaType, target: Target)
    requires |t.steps| > 0
    ensures |LaterStages(t, kind, target).steps| >= |t.steps|
    ensures LaterStages(t, kind, target).steps[..|t.steps|] == t.steps
  {
    var t3 := NegationStage(t);
    var t4 := PrenexStage(t3, kind);
    var t5 := DistributionStage(t4, target);
    assert t3.steps[..|t.steps|] == t.steps by { PrefixKept(t.steps, t3.steps); }
    assert t4.steps[..|t3.steps|] == t3.steps by { PrefixKept(t3.steps, t4.steps); }
    assert t5.steps[..|t4.steps|] == t4.steps by { PrefixKept(t4.steps, t5.steps); }
    PrefixChain(t.steps, t3.steps, t4.steps, t5.steps);
  }

  /** A stage either keeps the trace or appends one step. */
  lemma PrefixKept(a: seq<Step>, b: seq<Step>)
    requires b == a || exists x :: b == a + [x]
    ensures b[..|a|] == a
  {
    if b != a {
      var x :| b == a + [x];
      assert b[..|a|] == a;
    }
  }

  lemma PrefixChain(a: seq<Step>, b: seq<Step>, c: seq<Step>, d: seq<Step>)
    requires |a| <= |b| <= |c| <= |d|
    requires b[..|a|] == a && c[..|b|] == b && d[..|c|] == c
    ensures d[..|a|] == a
  {
    assert d[..|a|] == c[..|a|] == b[..|a|];
  }

  /** An elimination stage keeps the trace valid and its first step, also
      when its loop spins. */
  lemma EliminationStageTrace(t: FormResult, rule: Rule, stage: Stage, kind: FormulaType, target: Target, p: Str)
    requires IsElimination(rule)
    requires stage == (if rule == Biconditional then Biconditionals(target) else Implications(target))
    requires Between(t, kind, target, Rank(stage) - 1) && t.steps[0] == Step(Original, p)
    ensures var r := EliminationStage(t, rule, stage);
      r.Returns? ==> Between(r.value, kind, target, Rank(stage)) && r.value.steps[0] == Step(Original, p)
    ensures var r := EliminationStage(t, rule, stage);
      r.Spins? ==> ValidTrace(r.trace, kind, target) && r.trace[0] == Step(Original, p)
  {
    EliminationStageKeeps(t, rule, stage, kind, target);
  }

  lemma EarlyStagesKeep(p: Str, kind: FormulaType, target: Target)
    ensures EarlyStages(p, target).Returns? ==>
      Between(EarlyStages(p, target).value, kind, target, 2) && EarlyStages(p, target).value.steps[0] == Step(Original, p)
    ensures EarlyStages(p, target).Spins? ==>
      ValidTrace(EarlyStages(p, target).trace, kind, target) && EarlyStages(p, target).trace[0] == Step(Original, p)
  {
    var t0 := FormResult([Step(Original, p)], p);
    EliminationStageTrace(t0, Biconditional, Biconditionals(target), kind, target, p);
    var r1 := EliminationStage(t0, Biconditional, Biconditionals(target));
    if r1.Returns? {
      EliminationStageTrace(r1.value, Implication, Implications(target), kind, target, p);
    }
  }

  /** What the drivers record: the original formula first, then the stages in
      their order, each only when its trigger held on the formula before it;
      the returned formula is the last one recorded. */
  lemma NormalFormTrace(f: ParsedFormula, target: Target)
    ensures NormalForm(f, target).Returns? ==>
      var r := NormalForm(f, target).value;
      ValidTrace(r.steps, f.formulaType, target) && Traced(r) && r.steps[0] == Step(Original, f.processed)
    ensures NormalForm(f, target).Spins? ==>
      var tr := NormalForm(f, target).trace;
      ValidTrace(tr, f.formulaType, target) && tr[0] == Step(Original, f.processed)
  {
    if f.processed != [] {
      EarlyStagesKeep(f.processed, f.formulaType, target);
      match EarlyStages(f.processed, target)
      case Returns(t2) =>
        LaterStagesKeep(t2, f.formulaType, target);
        LaterStagesExtend(t2, f.formulaType, target);
      case Spins(_, _) =>
      case Throws(_) =>
    }
  }

  // ---------------------------------------------------------------------
  // What the normal-form drivers leave in the formula
  // ---------------------------------------------------------------------

  /** The symbols that steps 3 to 5 may insert. */
  predicate LaterInserted(c: char, target: Target) {
    c == '(' || c == ')' || c == NOT || c == AND || c == OR || c == ' ' || c == target.outer || c == target.inner
  }

  lemma LaterStagesLack(t: FormResult, kind: FormulaType, target: Target, c: char)
    requires c !in t.final && !LaterInserted(c, target)
    ensures c !in LaterStages(t, kind, target).final
  {
    var t3 := NegationStage(t);
    if Contains(t.final, [NOT, '(']) {
      NegationPassesLack(t.final, 0, c);
    }
    var t4 := PrenexStage(t3, kind);
    PrenexLacks(t3.final, c);
    DistributionPassesLack(target, t4.final, 0, c);
  }

  lemma EarlyStagesNoArrows(p: Str, target: Target)
    ensures EarlyStages(p, target).Returns? ==>
      IFF !in EarlyStages(p, target).value.final && IMPLIES !in EarlyStages(p, target).value.final
  {
    var t0 := FormResult([Step(Original, p)], p);
    var r1 := EliminationStage(t0, Biconditional, Biconditionals(target));
    if r1.Returns? {
      ImplicationStageNoIff(r1.value, target);
    }
  }

  /** The implication stage brings back no biconditional. */
  lemma ImplicationStageNoIff(t: FormResult, target: Target)
    requires IFF !in t.final
    ensures var r := EliminationStage(t, Implication, Implications(target));
      r.Returns? ==> IFF !in r.value.final && IMPLIES !in r.value.final
  {
    EliminationStageLacks(t, Implication, Implications(target), IFF);
  }

  lemma EarlyStagesLack(p: Str, target: Target, c: char)
    requires c !in p && c != '(' && c != ')' && c != IMPLIES && c != AND && c != NOT && c != OR
    ensures EarlyStages(p, target).Returns? ==> c !in EarlyStages(p, target).value.final
  {
    var t0 := FormResult([Step(Original, p)], p);
    EliminationStageLacks(t0, Biconditional, Biconditionals(target), c);
    var r1 := EliminationStage(t0, Biconditional, Biconditionals(target));
    if r1.Returns? {
      EliminationStageLacks(r1.value, Implication, Implications(target), c);
    }
  }

  /** No biconditional and no implication survives a driver that returns. */
  lemma NormalFormNoArrows(f: ParsedFormula, target: Target)
    requires target == Cnf || target == Dnf
    ensures NormalForm(f, target).Returns? ==>
      IFF !in NormalForm(f, target).value.final && IMPLIES !in NormalForm(f, target).value.final
  {
    if f.processed != [] {
      EarlyStagesNoArrows(f.processed, target);
      match EarlyStages(f.processed, target)
      case Returns(t2) =>
        LaterStagesLack(t2, f.formulaType, target, IFF);
        LaterStagesLack(t2, f.formulaType, target, IMPLIES);
      case Spins(_, _) =>
      case Throws(_) =>
    }
  }

  /** The drivers insert only parentheses, blanks, negations and the three
      binary connectives; any other symbol missing from the formula is missing
      from the result. */
  lemma NormalFormLacks(f: ParsedFormula, target: Target, c: char)
    requires c !in f.processed && !LaterInserted(c, target) && c != IMPLIES
    ensures NormalForm(f, target).Returns? ==> c !in NormalForm(f, target).value.final
  {
    if f.processed != [] {
      EarlyStagesLack(f.processed, target, c);
      match EarlyStages(f.processed, target)
      case Returns(t2) =>
        LaterStagesLack(t2, f.formulaType, target, c);
      case Spins(_, _) =>
      case Throws(_) =>
    }
  }

  /** The first stage is recorded exactly when the formula holds a
      biconditional. */
  lemma BiconditionalStepRecorded(f: ParsedFormula, target: Target)
    ensures NormalForm(f, target).Returns? ==>
      var r := NormalForm(f, target).value;
      IFF in f.processed <==> |r.steps| > 1 && r.steps[1].stage == Biconditionals(target)
  {
    if f.processed != [] && NormalForm(f, target).Returns? {
      NormalFormTrace(f, target);
      var r := NormalForm(f, target).value;
      if |r.steps| > 1 {
        ChainedAt(r.steps, (before: Step, after: Step) => Link(before, after, f.formulaType, target), 1);
        assert Link(r.steps[0], r.steps[1], f.formulaType, target);
      }
      if IFF in f.processed {
        EarlyBiconditionalRecorded(f.processed, target);
        LaterStagesExtend(EarlyStages(f.processed, target).value, f.formulaType, target);
      }
    }
  }

  /** Two neighbours of a chain are related. */
  lemma ChainedAt<T>(xs: seq<T>, rel: (T, T) -> bool, k: int)
    requires Chained(xs, rel) && 0 < k < |xs|
    ensures rel(xs[k - 1], xs[k])
  {
  }

  /** Step 1 records its elimination as the second step of the trace. */
  lemma EarlyBiconditionalRecorded(p: Str, target: Target)
    requires IFF in p
    ensures EarlyStages(p, target).Returns? ==>
      var t2 := EarlyStages(p, target).value;
      |t2.steps| > 1 && t2.steps[1].stage == Biconditionals(target)
  {
    var t0 := FormResult([Step(Original, p)], p);
    var r1 := EliminationStage(t0, Biconditional, Biconditionals(target));
    EliminationStageSteps(t0, Biconditional, Biconditionals(target));
    if r1.Returns? {
      EliminationStageSteps(r1.value, Implication, Implications(target));
      var r2 := EliminationStage(r1.value, Implication, Implications(target));
      if r2.Returns? {
        assert r2.value.steps[1] == r2.value.steps[..|r1.value.steps|][1];
      }
    }
  }

  /** An elimination stage only appends to the trace, and appends its own
      step when the formula holds the connective it removes. */
  lemma EliminationStageSteps(t: FormResult, rule: Rule, stage: Stage)
    requires IsElimination(rule)
    ensures var r := EliminationStage(t, rule, stage);
      r.Returns? ==> |r.value.steps| >= |t.steps| && r.value.steps[..|t.steps|] == t.steps
    ensures var r := EliminationStage(t, rule, stage);
      r.Returns? && Eliminated(rule) in t.final ==>
        |r.value.steps| == |t.steps| + 1 && r.value.steps[|t.steps|].stage == stage
  {
    if Eliminated(rule) in t.final {
      match Eliminate(rule, t.final)
      case Done(v) =>
        assert (t.steps + [Step(stage, v)])[..|t.steps|] == t.steps;
      case Diverges(_) =>
    }
  }

  // ---------------------------------------------------------------------
  // toClausalForm (script.js:201-254)
  // ---------------------------------------------------------------------

  /** Skolemisation: only for a first-order formula that still holds `∃`. */
  function SkolemStage(t: FormResult, kind: FormulaType): (r: Outcome<FormResult>)
    ensures r.Throws? == false
    ensures r.Returns? && kind == FirstOrder ==> EXISTS !in r.value.final
    ensures r.Returns? ==> multiset(r.value.final) <= multiset(t.final)
    ensures r.Spins? ==> r.trace == t.steps
  {
    if kind == FirstOrder && EXISTS in t.final then
      match Skolemize(t.final)
      case Done(v) => Returns(Push(t, Skolemization, v))
      case Diverges(stuck) => Spins(t.steps, stuck)
    else Returns(t)
  }

  /** `current.replace(/∀\w+\s*\/g, '')` when `∀` occurs. */
  function UniversalStage(t: FormResult): FormResult {
    if FORALL in t.final then Push(t, UniversalsRemoved, RemoveUniversals(t.final)) else t
  }

  /** The closing step: the clauses joined by " ∧ ", when there is one. */
  function ClauseSteps(steps: seq<Step>, clauses: seq<Str>): seq<Step> {
    if |clauses| > 0 then steps + [Step(ClauseSet, Join(clauses, AndSeparator))] else steps
  }

  /** `toClausalForm()` after `toPrenexCNF()` returned `cnf`: the clause
      stages never throw, and the trace restarts from the conjunctive normal
      form. */
  function ClausesFrom(cnf: Str, kind: FormulaType): (r: Outcome<ClausalResult>)
    ensures r.Throws? == false
    ensures r.Returns? ==> |r.value.steps| > 0 && r.value.steps[0] == Step(ConjunctiveForm, cnf)
  {
    var t0 := FormResult([Step(ConjunctiveForm, cnf)], cnf);
    match SkolemStage(t0, kind)
    case Returns(t1) =>
      var t2 := UniversalStage(t1);
      assert t2.steps[0] == Step(ConjunctiveForm, cnf);
      var clauses := ExtractClauses(t2.final);
      assert ClauseSteps(t2.steps, clauses)[0] == t2.steps[0];
      Returns(ClausalResult(ClauseSteps(t2.steps, clauses), clauses))
    case Throws(m) => Throws(m)
    case Spins(trace, stuck) => Spins(trace, stuck)
  }

  /** `toClausalForm()`.  An exception from `toPrenexCNF` is caught and turned
      into the one-step error result, so it never throws; otherwise the trace
      restarts from the conjunctive normal form. */
  function ClausalForm(f: ParsedFormula): (r: Outcome<ClausalResult>)
    ensures r.Throws? == false
    ensures f.processed == [] ==> r == Returns(ClausalResult([Step(Failure, ClausalFailure)], []))
    ensures f.processed != [] && r.Returns? ==>
      NormalForm(f, Cnf).Returns? && |r.value.steps| > 0 && r.value.steps[0] == Step(ConjunctiveForm, NormalForm(f, Cnf).value.final)
  {
    match NormalForm(f, Cnf)
    case Throws(_) => Returns(ClausalResult([Step(Failure, ClausalFailure)], []))
    case Spins(trace, stuck) => Spins(trace, stuck)
    case Returns(cnf) => ClausesFrom(cnf.final, f.formulaType)
  }

  /** The clauses built from a conjunctive form: each is a braced list of
      literals without a connective, and none holds `∃` when the form had none
      or the formula is first-order.  When there is a clause the last step
      lists them all. */
  lemma ClausesFromShape(cnf: Str, kind: FormulaType)
    ensures ClausesFrom(cnf, kind).Returns? ==>
      var cs := ClausesFrom(cnf, kind).value.final;
      forall k :: 0 <= k < |cs| ==> IsClauseText(cs[k]) && AND !in cs[k]
    ensures ClausesFrom(cnf, kind).Returns? && (kind == FirstOrder || EXISTS !in cnf) ==>
      var cs := ClausesFrom(cnf, kind).value.final;
      forall k :: 0 <= k < |cs| ==> EXISTS !in cs[k]
    ensures ClausesFrom(cnf, kind).Returns? && |ClausesFrom(cnf, kind).value.final| > 0 ==>
      var r := ClausesFrom(cnf, kind).value;
      |r.steps| > 0 && r.steps[|r.steps| - 1] == Step(ClauseSet, Join(r.final, AndSeparator))
  {
    var t0 := FormResult([Step(ConjunctiveForm, cnf)], cnf);
    match SkolemStage(t0, kind)
    case Returns(t1) =>
      if kind == FirstOrder || EXISTS !in cnf {
        assert EXISTS !in t1.final;
        GlobalLacks(Universal, t1.final, 0, EXISTS);
        ExtractClausesLack(UniversalStage(t1).final, EXISTS);
      }
    case Spins(_, _) =>
    case Throws(_) =>
  }

  /** For a formula `parseFormula` built, no clause `toClausalForm` returns
      holds an existential quantifier. */
  lemma ClausalFormClauses(f: ParsedFormula)
    requires Consistent(f)
    ensures ClausalForm(f).Returns? ==>
      var cs := ClausalForm(f).value.final;
      forall k :: 0 <= k < |cs| ==> IsClauseText(cs[k]) && AND !in cs[k] && EXISTS !in cs[k]
  {
    match NormalForm(f, Cnf)
    case Returns(cnf) =>
      if f.formulaType == Propositional {
        NormalFormLacks(f, Cnf, EXISTS);
      }
      ClausesFromShape(cnf.final, f.formulaType);
    case Throws(_) =>
    case Spins(_, _) =>
  }

  // ---------------------------------------------------------------------
  // toHornClauses (script.js:256-303)
  // ---------------------------------------------------------------------

  /** The steps `toHornClauses` records for the two lists. */
  function HornSteps(horn: seq<Str>, nonHorn: seq<Str>): seq<Step> {
    [Step(HornFound, if |horn| > 0 then Join(horn, AndSeparator) else NoHornClauses)]
    + (if |nonHorn| > 0 then [Step(NonHorn, Join(nonHorn, AndSeparator))] else [])
  }

  /** The `forEach` of `toHornClauses` and the steps after it.  It sorts
      every clause into exactly one of the two lists, by `isHornClause`; it
      records one step for the Horn clauses and one more only when a clause
      is not Horn. */
  function HornSplit(clauses: seq<Str>): (h: HornResult)
    ensures forall c :: c in h.hornClauses ==> IsHorn(c)
    ensures forall c :: c in h.nonHornClauses ==> !IsHorn(c)
    ensures multiset(h.hornClauses) + multiset(h.nonHornClauses) == multiset(clauses)
    ensures |h.steps| == (if |h.nonHornClauses| > 0 then 2 else 1)
    ensures h.steps[0].stage == HornFound
    ensures h.hornClauses == [] ==> h.steps[0].formula == NoHornClauses
  {
    var horn := Select(clauses, IsHorn, true);
    var nonHorn := Select(clauses, IsHorn, false);
    SelectPartition(clauses, IsHorn);
    HornResult(HornSteps(horn, nonHorn), horn, nonHorn)
  }

  /** `toHornClauses()`: it returns exactly when `toClausalForm` does, and
      then splits its clauses. */
  function HornForm(f: ParsedFormula): (r: Outcome<HornResult>)
    ensures r.Throws? == false
    ensures r.Returns? <==> ClausalForm(f).Returns?
    ensures r.Returns? ==> r.value == HornSplit(ClausalForm(f).value.final)
  {
    match ClausalForm(f)
    case Returns(c) => Returns(HornSplit(c.final))
    case Throws(m) => Throws(m)
    case Spins(trace, stuck) => Spins(trace, stuck)
  }
}
