/** What each scanner of `Regex` matches, stated the way the regular
    expression reads: a start symbol, runs of a character class, the
    operator between them, the closing parenthesis.  For every pattern:
    - a `...Found` lemma: whenever the text at `i` can be read as the pattern,
      the scanner matches there, and when the groups are the ones the
      greedy quantifiers and the backtracking pick, it returns exactly
      that match;
    - a `...Sound` lemma: whatever the scanner returns is such a reading,
      with the greedy choice of the groups.
    Together they say that the scanner gives the match of the regular
    expression at `i`, and none exactly when there is no reading. */
module Patterns {
  import opened Text
  import opened Regex

  /** s[a..b] is a non-empty run of `cls` characters. */
  predicate Run(s: Str, a: nat, b: nat, cls: CharClass) {
    a < b <= |s| && forall k :: a <= k < b ==> InClass(s[k], cls)
  }

  /** A greedy `cls+` cannot go past `b`. */
  predicate Stops(s: Str, b: nat, cls: CharClass) {
    b == |s| || (b < |s| && !InClass(s[b], cls))
  }

  /** A run that cannot be extended ends where `RunEnd` says. */
  lemma RunEndAt(s: Str, a: nat, b: nat, cls: CharClass)
    requires a <= b <= |s| && (forall k :: a <= k < b ==> InClass(s[k], cls)) && Stops(s, b, cls)
    ensures RunEnd(s, a, cls) == b
  {
  }

  /** s[p..c + 1] reads `\(`, a run of `[^()]`, `op`, a run of `[^()]`, `\)`,
      the operator at `a`. */
  predicate Parenthesised(s: Str, p: nat, a: nat, c: nat, op: char) {
    && p + 1 < a && a + 1 < c < |s|
    && s[p] == '(' && s[a] == op && s[c] == ')'
    && Run(s, p + 1, a, Unparenthesised) && Run(s, a + 1, c, Unparenthesised)
  }

  /** The split at `a` is the one the greedy first group picks: no later
      `op` leaves the second group non-empty. */
  predicate LastSplit(s: Str, a: nat, c: nat, op: char)
    requires c <= |s|
  {
    forall k :: a < k < c - 1 ==> s[k] != op
  }

  /** `\(([^()]+)op([^()]+)\)` at `p`: any reading makes the scanner split,
      at the same closing parenthesis and at the reading's operator or a
      later one. */
  lemma ParenGroupFound(s: Str, p: nat, a: nat, c: nat, op: char)
    requires op != '(' && op != ')' && Parenthesised(s, p, a, c, op)
    ensures ParenGroup(s, p, op).Some?
    ensures ParenGroup(s, p, op).value.close == c && a <= ParenGroup(s, p, op).value.at
  {
    assert forall k :: p + 1 <= k < c ==> InClass(s[k], Unparenthesised) by {
      forall k | p + 1 <= k < c
        ensures InClass(s[k], Unparenthesised)
      {
        if k == a {
          assert s[k] == op;
        }
      }
    }
    RunEndAt(s, p + 1, c, Unparenthesised);
    LastIndexLast(s, op, p + 2, c - 1);
  }

  /** What the scanner splits is a reading of the pattern, at the last
      operator. */
  lemma ParenGroupSound(s: Str, p: nat, op: char)
    requires p <= |s|
    ensures ParenGroup(s, p, op).Some? ==>
      Parenthesised(s, p, ParenGroup(s, p, op).value.at, ParenGroup(s, p, op).value.close, op)
      && LastSplit(s, ParenGroup(s, p, op).value.at, ParenGroup(s, p, op).value.close, op)
  {
    ParenGroupContents(s, p, op);
  }

  /** The reading at the last operator is the scanner's split. */
  lemma ParenGroupExact(s: Str, p: nat, a: nat, c: nat, op: char)
    requires op != '(' && op != ')' && Parenthesised(s, p, a, c, op) && LastSplit(s, a, c, op)
    ensures ParenGroup(s, p, op) == Some(Cut(a, c))
  {
    ParenGroupFound(s, p, a, c, op);
    var g := ParenGroup(s, p, op).value;
    assert g.at < c - 1 && s[g.at] == op;
  }

  /** `([^op()]+)op([^op()]+)` at `i`. */
  lemma EliminationMatchFound(s: Str, i: nat, op: char, j: nat, e: nat)
    requires Run(s, i, j, NoneOf({op, '(', ')'})) && j < |s| && s[j] == op
    requires Run(s, j + 1, e, NoneOf({op, '(', ')'}))
    ensures EliminationMatch(s, i, op).Some? && e <= EliminationMatch(s, i, op).value.end
    ensures Stops(s, e, NoneOf({op, '(', ')'})) ==>
      EliminationMatch(s, i, op) == Some(Match(i, e, [s[i..j], s[j + 1..e]]))
  {
    var cls := NoneOf({op, '(', ')'});
    RunEndAt(s, i, j, cls);
    if Stops(s, e, cls) {
      RunEndAt(s, j + 1, e, cls);
    }
  }

  lemma EliminationMatchSound(s: Str, i: nat, op: char, m: Match)
    requires i < |s| && EliminationMatch(s, i, op) == Some(m)
    ensures exists j :: ElimReading(s, i, op, j, m)
  {
    var cls := NoneOf({op, '(', ')'});
    var j := RunEnd(s, i, cls);
    assert ElimReading(s, i, op, j, m);
  }

  /** `m` reads the pattern at `i` with the operator at `j`, both groups
      greedy. */
  predicate ElimReading(s: Str, i: nat, op: char, j: nat, m: Match) {
    && Run(s, i, j, NoneOf({op, '(', ')'})) && j < |s| && s[j] == op
    && Run(s, j + 1, m.end, NoneOf({op, '(', ')'})) && Stops(s, m.end, NoneOf({op, '(', ')'}))
    && m == Match(i, m.end, [s[i..j], s[j + 1..m.end]])
  }

  /** `¬\(([^()]+)inner([^()]+)\)` at `i`. */
  lemma NegatedGroupMatchFound(s: Str, i: nat, inner: char, a: nat, c: nat)
    requires inner != '(' && inner != ')'
    requires i < |s| && s[i] == NOT && Parenthesised(s, i + 1, a, c, inner)
    ensures NegatedGroupMatch(s, i, inner).Some? && NegatedGroupMatch(s, i, inner).value.end == c + 1
    ensures LastSplit(s, a, c, inner) ==>
      NegatedGroupMatch(s, i, inner) == Some(Match(i, c + 1, [s[i + 2..a], s[a + 1..c]]))
  {
    ParenGroupFound(s, i + 1, a, c, inner);
    if LastSplit(s, a, c, inner) {
      ParenGroupExact(s, i + 1, a, c, inner);
    }
  }

  lemma NegatedGroupMatchSound(s: Str, i: nat, inner: char, m: Match)
    requires i < |s| && NegatedGroupMatch(s, i, inner) == Some(m)
    ensures exists a :: NegatedReading(s, i, inner, a, m)
  {
    ParenGroupSound(s, i + 1, inner);
    var g := ParenGroup(s, i + 1, inner).value;
    assert NegatedReading(s, i, inner, g.at, m);
  }

  /** `m` reads the De Morgan pattern at `i`, split at the last `inner`. */
  predicate NegatedReading(s: Str, i: nat, inner: char, a: nat, m: Match) {
    && i < |s| && s[i] == NOT && m.end > 0
    && Parenthesised(s, i + 1, a, m.end - 1, inner) && LastSplit(s, a, m.end - 1, inner)
    && m == Match(i, m.end, [s[i + 2..a], s[a + 1..m.end - 1]])
  }

  /** `([^∨∧()]+)outer\(([^()]+)inner([^()]+)\)` at `i`, for a connective
      `outer`: the first group can only be the whole operand run. */
  lemma DistributeLeftMatchFound(s: Str, i: nat, outer: char, inner: char, j: nat, a: nat, c: nat)
    requires (outer == OR || outer == AND) && inner != '(' && inner != ')'
    requires Run(s, i, j, Operand) && j < |s| && s[j] == outer && Parenthesised(s, j + 1, a, c, inner)
    ensures DistributeLeftMatch(s, i, outer, inner).Some?
    ensures DistributeLeftMatch(s, i, outer, inner).value.end == c + 1
    ensures LastSplit(s, a, c, inner) ==>
      DistributeLeftMatch(s, i, outer, inner) == Some(Match(i, c + 1, [s[i..j], s[j + 2..a], s[a + 1..c]]))
  {
    RunEndAt(s, i, j, Operand);
    ParenGroupFound(s, j + 1, a, c, inner);
    if LastSplit(s, a, c, inner) {
      ParenGroupExact(s, j + 1, a, c, inner);
    }
  }

  lemma DistributeLeftMatchSound(s: Str, i: nat, outer: char, inner: char, m: Match)
    requires i < |s| && DistributeLeftMatch(s, i, outer, inner) == Some(m)
    ensures exists j, a :: LeftReading(s, i, outer, inner, j, a, m)
  {
    var j := RunEnd(s, i, Operand);
    ParenGroupSound(s, j + 1, inner);
    var g := ParenGroup(s, j + 1, inner).value;
    assert LeftReading(s, i, outer, inner, j, g.at, m);
  }

  /** `m` reads the left distribution pattern at `i`: operand run up to `j`,
      `outer`, then the parenthesised split at the last `inner`. */
  predicate LeftReading(s: Str, i: nat, outer: char, inner: char, j: nat, a: nat, m: Match) {
    && Run(s, i, j, Operand) && j < |s| && s[j] == outer && m.end > 0
    && Parenthesised(s, j + 1, a, m.end - 1, inner) && LastSplit(s, a, m.end - 1, inner)
    && m == Match(i, m.end, [s[i..j], s[j + 2..a], s[a + 1..m.end - 1]])
  }

  /** `\(([^()]+)inner([^()]+)\)outer([^∧∨()]+)` at `i`; the last group is
      greedy. */
  lemma DistributeRightMatchFound(s: Str, i: nat, outer: char, inner: char, a: nat, c: nat, e: nat)
    requires inner != '(' && inner != ')' && Parenthesised(s, i, a, c, inner)
    requires c + 1 < |s| && s[c + 1] == outer && Run(s, c + 2, e, Operand)
    ensures DistributeRightMatch(s, i, outer, inner).Some?
    ensures e <= DistributeRightMatch(s, i, outer, inner).value.end
    ensures LastSplit(s, a, c, inner) && Stops(s, e, Operand) ==>
      DistributeRightMatch(s, i, outer, inner) == Some(Match(i, e, [s[i + 1..a], s[a + 1..c], s[c + 2..e]]))
  {
    ParenGroupFound(s, i, a, c, inner);
    if LastSplit(s, a, c, inner) && Stops(s, e, Operand) {
      ParenGroupExact(s, i, a, c, inner);
      RunEndAt(s, c + 2, e, Operand);
    }
  }

  lemma DistributeRightMatchSound(s: Str, i: nat, outer: char, inner: char, m: Match)
    requires i < |s| && DistributeRightMatch(s, i, outer, inner) == Some(m)
    ensures exists a, c :: RightReading(s, i, outer, inner, a, c, m)
  {
    ParenGroupSound(s, i, inner);
    var g := ParenGroup(s, i, inner).value;
    assert RightReading(s, i, outer, inner, g.at, g.close, m);
  }

  /** `m` reads the right distribution pattern at `i`: the parenthesised
      split at the last `inner`, `outer`, then the whole operand run. */
  predicate RightReading(s: Str, i: nat, outer: char, inner: char, a: nat, c: nat, m: Match) {
    && Parenthesised(s, i, a, c, inner) && LastSplit(s, a, c, inner)
    && c + 1 < |s| && s[c + 1] == outer && Run(s, c + 2, m.end, Operand) && Stops(s, m.end, Operand)
    && m == Match(i, m.end, [s[i + 1..a], s[a + 1..c], s[c + 2..m.end]])
  }

  /** `(∀|∃)(\w+)` or `∃(\w+)` at `i`, by the set of heads. */
  lemma QuantifierMatchFound(s: Str, i: nat, heads: set<char>, e: nat)
    requires i < |s| && s[i] in heads && Run(s, i + 1, e, Word)
    ensures QuantifierMatch(s, i, heads).Some? && e <= QuantifierMatch(s, i, heads).value.end
    ensures Stops(s, e, Word) ==> QuantifierMatch(s, i, heads) == Some(Match(i, e, [[s[i]], s[i + 1..e]]))
  {
    if Stops(s, e, Word) {
      RunEndAt(s, i + 1, e, Word);
    }
  }

  lemma QuantifierMatchSound(s: Str, i: nat, heads: set<char>, m: Match)
    requires i < |s| && QuantifierMatch(s, i, heads) == Some(m)
    ensures s[i] in heads && Run(s, i + 1, m.end, Word) && Stops(s, m.end, Word)
    ensures m == Match(i, m.end, [[s[i]], s[i + 1..m.end]])
  {
  }

  /** `∃(\w+)` at `i`. */
  lemma ExistentialMatchFound(s: Str, i: nat, e: nat)
    requires i < |s| && s[i] == EXISTS && Run(s, i + 1, e, Word)
    ensures ExistentialMatch(s, i).Some? && e <= ExistentialMatch(s, i).value.end
    ensures Stops(s, e, Word) ==> ExistentialMatch(s, i) == Some(Match(i, e, [s[i + 1..e]]))
  {
    QuantifierMatchFound(s, i, {EXISTS}, e);
  }

  lemma ExistentialMatchSound(s: Str, i: nat, m: Match)
    requires i < |s| && ExistentialMatch(s, i) == Some(m)
    ensures s[i] == EXISTS && Run(s, i + 1, m.end, Word) && Stops(s, m.end, Word)
    ensures m == Match(i, m.end, [s[i + 1..m.end]])
  {
    QuantifierMatchSound(s, i, {EXISTS}, QuantifierMatch(s, i, {EXISTS}).value);
  }

  /** `∀\w+\s*` at `i`: the greedy variable ends at `w`, the white space after
      it goes with the match. */
  lemma UniversalMatchFound(s: Str, i: nat, w: nat, e: nat)
    requires i < |s| && s[i] == FORALL && Run(s, i + 1, w, Word) && Stops(s, w, Word)
    requires w <= e <= |s| && forall k :: w <= k < e ==> IsSpace(s[k])
    ensures UniversalMatch(s, i).Some? && e <= UniversalMatch(s, i).value.end
    ensures Stops(s, e, Space) ==> UniversalMatch(s, i) == Some(Match(i, e, []))
  {
    RunEndAt(s, i + 1, w, Word);
    if Stops(s, e, Space) {
      RunEndAt(s, w, e, Space);
    }
  }

  lemma UniversalMatchSound(s: Str, i: nat, m: Match)
    requires i < |s| && UniversalMatch(s, i) == Some(m)
    ensures exists w :: UniversalReading(s, i, w, m)
  {
    var w := RunEnd(s, i + 1, Word);
    assert UniversalReading(s, i, w, m);
  }

  /** `m` reads `∀\w+\s*` at `i`, the variable ending at `w`, both runs
      greedy. */
  predicate UniversalReading(s: Str, i: nat, w: nat, m: Match) {
    && i < |s| && s[i] == FORALL && Run(s, i + 1, w, Word) && Stops(s, w, Word)
    && w <= m.end <= |s| && (forall k :: w <= k < m.end ==> IsSpace(s[k])) && Stops(s, m.end, Space)
    && m == Match(i, m.end, [])
  }

  /** `^\(|\)$` at `i`: an opening parenthesis at the very start or a
      closing one at the very end, one character long. */
  lemma OuterParenMatchIff(s: Str, i: nat)
    requires i < |s|
    ensures OuterParenMatch(s, i).Some? <==> (i == 0 && s[0] == '(') || (i == |s| - 1 && s[i] == ')')
    ensures OuterParenMatch(s, i).Some? ==> OuterParenMatch(s, i).value == Match(i, i + 1, [])
  {
  }

  /** A literal pattern matches where it occurs, and spans its own length. */
  lemma MatchAtLiteral(s: Str, i: nat, pat: Str, rep: Str)
    requires i <= |s|
    ensures MatchAt(Literal(pat, rep), s, i).Some? <==> |pat| > 0 && OccursAt(s, pat, i)
    ensures MatchAt(Literal(pat, rep), s, i).Some? ==> MatchAt(Literal(pat, rep), s, i).value == Match(i, i + |pat|, [])
  {
  }

  /** `\s+` matches at a white-space character and takes the whole run. */
  lemma MatchAtWhiteRun(s: Str, i: nat)
    requires i <= |s|
    ensures MatchAt(WhiteRun, s, i).Some? <==> i < |s| && IsSpace(s[i])
    ensures MatchAt(WhiteRun, s, i).Some? ==>
      Run(s, i, MatchAt(WhiteRun, s, i).value.end, Space) && Stops(s, MatchAt(WhiteRun, s, i).value.end, Space)
      && MatchAt(WhiteRun, s, i).value.groups == []
  {
  }

  /** `[{}]` matches one brace. */
  lemma MatchAtBrace(s: Str, i: nat)
    requires i <= |s|
    ensures MatchAt(Brace, s, i).Some? <==> i < |s| && (s[i] == '{' || s[i] == '}')
    ensures MatchAt(Brace, s, i).Some? ==> MatchAt(Brace, s, i).value == Match(i, i + 1, [])
  {
  }
}
