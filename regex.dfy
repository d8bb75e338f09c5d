/** The regular expressions of script.js, written out as explicit scanners.

    A `Rule` is one regular expression together with the replacement its call
    site uses.  `MatchAt(rule, s, i)` is the match the expression makes when
    the search tries start position `i` (greedy quantifiers, backtracking into
    the first group where the source's patterns need it); a JavaScript search
    tries start positions from left to right, so the leftmost match is the
    first `i` at which `MatchAt` succeeds.  On top of it:
    - `Global` is `replace` with the `g` flag: every match found scanning left
      to right, the scan resuming after each match, is replaced;
    - `FirstMatch` and `ReplaceFirstMatch` are `replace` without the flag;
    - `Scan` is the loop `while ((m = re.exec(s)) !== null)` of a global
      expression, which visits the same matches as `Global`. */
module Regex {
  import opened Text

  datatype Rule =
    | Literal(pattern: Str, replacement: Str)   // a literal pattern, /\\forall/g -> '∀'
    | WhiteRun                                  // /\s+/g -> ' '
    | Biconditional                             // /([^↔()]+)↔([^↔()]+)/ -> '(($1→$2)∧($2→$1))'
    | Implication                               // /([^→()]+)→([^→()]+)/ -> '(¬$1∨$2)'
    | NegatedGroup(inner: char, outer: char)    // /¬\(([^()]+)inner([^()]+)\)/g -> (¬p1 outer ¬p2)
    | DistributeLeft(outer: char, inner: char)  // /([^∨∧()]+)outer\(([^()]+)inner([^()]+)\)/g
    | DistributeRight(outer: char, inner: char) // /\(([^()]+)inner([^()]+)\)outer([^∧∨()]+)/g
    | Quantifier                                // /(∀|∃)(\w+)/g, only scanned with exec
    | Existential                               // /∃(\w+)/ -> ''
    | Universal                                 // /∀\w+\s*/g -> ''
    | OuterParen                                // /^\(|\)$/g -> ''
    | Brace                                     // /[{}]/g -> ''

  /** A match: the matched text is s[start..end], `groups` the captures. */
  datatype Match = Match(start: nat, end: nat, groups: seq<Str>)

  /** `[^()]` */
  const Unparenthesised: CharClass := NoneOf({'(', ')'})
  /** `[^∨∧()]`, the operand class of the distribution patterns. */
  const Operand: CharClass := NoneOf({OR, AND, '(', ')'})

  /** Index of the last `x` in s[lo..hi]. */
  function LastIndex(s: Str, x: char, lo: nat, hi: nat): (r: Option<nat>)
    requires lo <= hi <= |s|
    ensures r.Some? ==> lo <= r.value < hi && s[r.value] == x
    decreases hi - lo
  {
    if hi == lo then None
    else if s[hi - 1] == x then Some(hi - 1)
    else LastIndex(s, x, lo, hi - 1)
  }

  /** The index found is the last `x` in the range, and without one the
      range holds no `x`. */
  lemma {:induction false} LastIndexLast(s: Str, x: char, lo: nat, hi: nat)
    requires lo <= hi <= |s|
    ensures var r := LastIndex(s, x, lo, hi);
      r.Some? ==> forall k :: r.value < k < hi ==> s[k] != x
    ensures LastIndex(s, x, lo, hi).None? ==> forall k :: lo <= k < hi ==> s[k] != x
    decreases hi - lo
  {
    if hi > lo && s[hi - 1] != x {
      LastIndexLast(s, x, lo, hi - 1);
    }
  }

  /** Where `\(([^()]+)op([^()]+)\)` splits: the operator at `at`, the
      closing parenthesis at `close`. */
  datatype Cut = Cut(at: nat, close: nat)

  /** `\(([^()]+)op([^()]+)\)` tried at `p`.  Both groups stay inside one
      parenthesis-free stretch, and the greedy first group backtracks from the
      right, so the split falls on the last `op` that leaves the second group
      non-empty. */
  function ParenGroup(s: Str, p: nat, op: char): (r: Option<Cut>)
    requires p <= |s|
    ensures r.Some? ==> p + 2 <= r.value.at && r.value.at + 2 <= r.value.close < |s|
    ensures r.Some? ==> s[p] == '(' && s[r.value.close] == ')' && s[r.value.at] == op
  {
    if p < |s| && s[p] == '(' then
      var c := RunEnd(s, p + 1, Unparenthesised);
      if c < |s| && s[c] == ')' && p + 3 <= c then
        match LastIndex(s, op, p + 2, c - 1)
        case Some(k) => Some(Cut(k, c))
        case None => None
      else None
    else None
  }

  /** Both groups of a parenthesised split are free of parentheses, and the
      operator it splits at is the last one that leaves the second group
      non-empty. */
  lemma ParenGroupContents(s: Str, p: nat, op: char)
    requires p <= |s|
    ensures var r := ParenGroup(s, p, op);
      r.Some? ==> forall k :: p < k < r.value.close ==> InClass(s[k], Unparenthesised)
    ensures var r := ParenGroup(s, p, op);
      r.Some? ==> forall k :: r.value.at < k < r.value.close - 1 ==> s[k] != op
  {
    if p < |s| && s[p] == '(' {
      var c := RunEnd(s, p + 1, Unparenthesised);
      if c < |s| && s[c] == ')' && p + 3 <= c {
        LastIndexLast(s, op, p + 2, c - 1);
      }
    }
  }

  /** `([^op()]+)op([^op()]+)` tried at `i`: the first group is the run of
      operand characters starting at `i`, the second the whole run after `op`. */
  function EliminationMatch(s: Str, i: nat, op: char): (m: Option<Match>)
    requires i < |s|
    ensures m.Some? ==> m.value.start == i && i < m.value.end <= |s| && |m.value.groups| == 2
    ensures m.Some? ==> GroupsIn(m.value, s)
  {
    var cls := NoneOf({op, '(', ')'});
    if InClass(s[i], cls) then
      var j := RunEnd(s, i, cls);
      if j + 1 < |s| && s[j] == op && InClass(s[j + 1], cls) then
        var k := RunEnd(s, j + 1, cls);
        Some(Match(i, k, [s[i..j], s[j + 1..k]]))
      else None
    else None
  }

  /** Every character captured by a group of `m` comes from `s`. */
  predicate GroupsIn(m: Match, s: Str) {
    forall k :: 0 <= k < |m.groups| ==> forall x :: x in m.groups[k] ==> x in s
  }

  /** Number of groups a rule captures. */
  function Arity(rule: Rule): nat {
    match rule
    case Biconditional => 2
    case Implication => 2
    case NegatedGroup(_, _) => 2
    case DistributeLeft(_, _) => 3
    case DistributeRight(_, _) => 3
    case Quantifier => 2
    case Existential => 1
    case _ => 0
  }

  /** `¬\(([^()]+)inner([^()]+)\)` tried at `i`. */
  function NegatedGroupMatch(s: Str, i: nat, inner: char): (m: Option<Match>)
    requires i < |s|
    ensures m.Some? ==> m.value.start == i && i < m.value.end <= |s| && |m.value.groups| == 2
    ensures m.Some? ==> GroupsIn(m.value, s)
  {
    if s[i] != NOT then None
    else
      match ParenGroup(s, i + 1, inner)
      case Some(g) => Some(Match(i, g.close + 1, [s[i + 2..g.at], s[g.at + 1..g.close]]))
      case None => None
  }

  /** `([^∨∧()]+)outer\(([^()]+)inner([^()]+)\)` tried at `i`: the first
      group is the whole operand run starting at `i`. */
  function DistributeLeftMatch(s: Str, i: nat, outer: char, inner: char): (m: Option<Match>)
    requires i < |s|
    ensures m.Some? ==> m.value.start == i && i < m.value.end <= |s| && |m.value.groups| == 3
    ensures m.Some? ==> GroupsIn(m.value, s)
  {
    if !InClass(s[i], Operand) then None
    else
      var j := RunEnd(s, i, Operand);
      if j < |s| && s[j] == outer then
        match ParenGroup(s, j + 1, inner)
        case Some(g) => Some(Match(i, g.close + 1, [s[i..j], s[j + 2..g.at], s[g.at + 1..g.close]]))
        case None => None
      else None
  }

  /** `\(([^()]+)inner([^()]+)\)outer([^∧∨()]+)` tried at `i`: the third
      group is the whole operand run after `outer`. */
  function DistributeRightMatch(s: Str, i: nat, outer: char, inner: char): (m: Option<Match>)
    requires i < |s|
    ensures m.Some? ==> m.value.start == i && i < m.value.end <= |s| && |m.value.groups| == 3
    ensures m.Some? ==> GroupsIn(m.value, s)
  {
    match ParenGroup(s, i, inner)
    case None => None
    case Some(g) =>
      if g.close + 2 < |s| && s[g.close + 1] == outer && InClass(s[g.close + 2], Operand) then
        var e := RunEnd(s, g.close + 2, Operand);
        Some(Match(i, e, [s[i + 1..g.at], s[g.at + 1..g.close], s[g.close + 2..e]]))
      else None
  }

  /** `(∀|∃)(\w+)` (both heads) or `∃(\w+)` tried at `i`; `\w+` is greedy. */
  function QuantifierMatch(s: Str, i: nat, heads: set<char>): (m: Option<Match>)
    requires i < |s|
    ensures m.Some? ==> m.value.start == i && i + 1 < m.value.end <= |s| && |m.value.groups| == 2
    ensures m.Some? ==> GroupsIn(m.value, s)
  {
    if s[i] in heads && i + 1 < |s| && IsWord(s[i + 1]) then
      var e := RunEnd(s, i + 1, Word);
      Some(Match(i, e, [[s[i]], s[i + 1..e]]))
    else None
  }

  /** `∃(\w+)` tried at `i`. */
  function ExistentialMatch(s: Str, i: nat): (m: Option<Match>)
    requires i < |s|
    ensures m.Some? ==> m.value.start == i && i + 1 < m.value.end <= |s| && |m.value.groups| == 1
    ensures m.Some? ==> GroupsIn(m.value, s)
  {
    match QuantifierMatch(s, i, {EXISTS})
    case Some(q) => Some(Match(i, q.end, [q.groups[1]]))
    case None => None
  }

  /** `∀\w+\s*` tried at `i`: the trailing white space goes with the match. */
  function UniversalMatch(s: Str, i: nat): (m: Option<Match>)
    requires i < |s|
    ensures m.Some? ==> m.value.start == i && i + 1 < m.value.end <= |s| && m.value.groups == []
  {
    match QuantifierMatch(s, i, {FORALL})
    case Some(q) => Some(Match(i, RunEnd(s, q.end, Space), []))
    case None => None
  }

  /** `^\(|\)$` tried at `i`: the alternatives in their order. */
  function OuterParenMatch(s: Str, i: nat): (m: Option<Match>)
    requires i < |s|
    ensures m.Some? ==> m.value.start == i && i < m.value.end <= |s| && m.value.groups == []
  {
    if i == 0 && s[0] == '(' then Some(Match(0, 1, []))
    else if i == |s| - 1 && s[i] == ')' then Some(Match(i, |s|, []))
    else None
  }

  /** The match of `rule` that starts exactly at `i`, if there is one. */
  function MatchAt(rule: Rule, s: Str, i: nat): (m: Option<Match>)
    requires i <= |s|
    ensures m.Some? ==> m.value.start == i && i < m.value.end <= |s|
    ensures m.Some? ==> |m.value.groups| == Arity(rule)
    ensures m.Some? ==> GroupsIn(m.value, s)
  {
    if i == |s| then None
    else
      match rule
      case Literal(pat, _) =>
        if |pat| > 0 && OccursAt(s, pat, i) then Some(Match(i, i + |pat|, [])) else None
      case WhiteRun =>
        if IsSpace(s[i]) then Some(Match(i, RunEnd(s, i, Space), [])) else None
      case Biconditional => EliminationMatch(s, i, IFF)
      case Implication => EliminationMatch(s, i, IMPLIES)
      case NegatedGroup(inner, _) => NegatedGroupMatch(s, i, inner)
      case DistributeLeft(outer, inner) => DistributeLeftMatch(s, i, outer, inner)
      case DistributeRight(outer, inner) => DistributeRightMatch(s, i, outer, inner)
      case Quantifier => QuantifierMatch(s, i, {FORALL, EXISTS})
      case Existential => ExistentialMatch(s, i)
      case Universal => UniversalMatch(s, i)
      case OuterParen => OuterParenMatch(s, i)
      case Brace =>
        if s[i] == '{' || s[i] == '}' then Some(Match(i, i + 1, [])) else None
  }

  /** The text a match is replaced with at the rule's call site. */
  function Replacement(rule: Rule, m: Match): Str
    requires |m.groups| == Arity(rule)
  {
    match rule
    case Literal(_, rep) => rep
    case WhiteRun => " "
    case Biconditional =>
      var a, b := m.groups[0], m.groups[1];
      "((" + a + "→" + b + ")∧(" + b + "→" + a + "))"
    case Implication =>
      var a, b := m.groups[0], m.groups[1];
      "(¬" + a + "∨" + b + ")"
    case NegatedGroup(_, outer) =>
      var a, b := m.groups[0], m.groups[1];
      "(¬" + a + [outer] + "¬" + b + ")"
    case DistributeLeft(outer, inner) =>
      var a, b, c := Trim(m.groups[0]), Trim(m.groups[1]), Trim(m.groups[2]);
      "((" + a + [outer] + b + ")" + [inner] + "(" + a + [outer] + c + "))"
    case DistributeRight(outer, inner) =>
      var a, b, c := Trim(m.groups[0]), Trim(m.groups[1]), Trim(m.groups[2]);
      "((" + a + [outer] + c + ")" + [inner] + "(" + b + [outer] + c + "))"
    case _ => []
  }

  /** No match of `rule` starts in s[i..]. */
  predicate NoMatchFrom(rule: Rule, s: Str, i: nat)
    requires i <= |s|
  {
    forall k :: i <= k <= |s| ==> MatchAt(rule, s, k).None?
  }

  /** No match of `rule` starts anywhere in `s`. */
  predicate NoMatch(rule: Rule, s: Str) {
    NoMatchFrom(rule, s, 0)
  }

  /** Result of a global replace: the new text and how many matches it replaced. */
  datatype Rewritten = Rewritten(text: Str, hits: nat)

  // ---------------------------------------------------------------------
  // Tables of tries.  Entry `j` of a table is what the expression makes
  // when the search tries start position `j`.  The searches are defined
  // over such a table, so what they promise follows from the shape of the
  // table alone, whatever the expression.
  // ---------------------------------------------------------------------

  type Table = seq<Option<Match>>

  /** Each entry is no match, or a match that starts at the entry's position
      and ends after it, inside the table. */
  predicate Positioned(t: Table) {
    forall j :: 0 <= j < |t| && t[j].Some? ==> t[j].value.start == j < t[j].value.end <= |t|
  }

  /** A positioned table whose matches capture as many groups as `rule` has. */
  predicate Fits(rule: Rule, t: Table) {
    Positioned(t) && forall j :: 0 <= j < |t| && t[j].Some? ==> |t[j].value.groups| == Arity(rule)
  }

  /** Every group of every match in the table is made of characters of `s`. */
  predicate Captures(s: Str, t: Table) {
    forall j :: 0 <= j < |t| && t[j].Some? ==> GroupsIn(t[j].value, s)
  }

  /** No entry from `i` on is a match. */
  predicate NoneFrom(t: Table, i: nat) {
    forall k :: i <= k < |t| ==> t[k].None?
  }

  /** The table of `rule` over `s`. */
  function Tries(rule: Rule, s: Str): (t: Table)
    ensures |t| == |s| && Fits(rule, t) && Captures(s, t)
    ensures forall j :: 0 <= j < |s| ==> t[j] == MatchAt(rule, s, j)
  {
    seq(|s|, j requires 0 <= j < |s| => MatchAt(rule, s, j))
  }

  /** No match from `i` on in the table is no match from `i` on in `s`. */
  lemma NoneFromTries(rule: Rule, s: Str, i: nat)
    requires i <= |s|
    ensures NoneFrom(Tries(rule, s), i) <==> NoMatchFrom(rule, s, i)
  {
    assert MatchAt(rule, s, |s|).None?;
  }

  /** `s.replace(re, ...)` with the `g` flag over the table, scanning from `i`. */
  function RewriteIn(rule: Rule, s: Str, t: Table, i: nat): (r: Rewritten)
    requires |t| == |s| && Fits(rule, t) && i <= |s|
    ensures r.hits == 0 <==> NoneFrom(t, i)
    ensures r.hits == 0 ==> r.text == s[i..]
    decreases |s| - i
  {
    if i == |s| then Rewritten([], 0)
    else
      match t[i]
      case Some(m) =>
        var rest := RewriteIn(rule, s, t, m.end);
        Rewritten(Replacement(rule, m) + rest.text, rest.hits + 1)
      case None =>
        var rest := RewriteIn(rule, s, t, i + 1);
        assert [s[i]] + s[i + 1..] == s[i..];
        Rewritten([s[i]] + rest.text, rest.hits)
  }

  /** `s.replace(re, ...)` with the `g` flag, scanning from `i`: every match
      found left to right, each search resuming after the previous match,
      is replaced. */
  function Global(rule: Rule, s: Str, i: nat): (r: Rewritten)
    requires i <= |s|
    ensures r.hits == 0 <==> NoMatchFrom(rule, s, i)
    ensures r.hits == 0 ==> r.text == s[i..]
  {
    NoneFromTries(rule, s, i);
    RewriteIn(rule, s, Tries(rule, s), i)
  }

  /** A match where the global scan stands is replaced, and the scan resumes
      after it. */
  lemma GlobalMatched(rule: Rule, s: Str, i: nat, m: Match)
    requires i < |s| && MatchAt(rule, s, i) == Some(m)
    ensures Global(rule, s, i).text == Replacement(rule, m) + Global(rule, s, m.end).text
    ensures Global(rule, s, i).hits == Global(rule, s, m.end).hits + 1
  {
    assert Tries(rule, s)[i] == Some(m);
  }

  /** Where nothing matches, the global scan copies the character and moves on. */
  lemma GlobalUnmatched(rule: Rule, s: Str, i: nat)
    requires i < |s| && MatchAt(rule, s, i).None?
    ensures Global(rule, s, i).text == [s[i]] + Global(rule, s, i + 1).text
    ensures Global(rule, s, i).hits == Global(rule, s, i + 1).hits
  {
    assert Tries(rule, s)[i].None?;
  }

  function ReplaceAll(rule: Rule, s: Str): Str {
    Global(rule, s, 0).text
  }

  /** The first match in the table at or after `i`. */
  function FirstIn(t: Table, i: nat): (m: Option<Match>)
    requires Positioned(t) && i <= |t|
    ensures m.Some? ==> i <= m.value.start < |t| && t[m.value.start] == m
    ensures m.Some? ==> forall k :: i <= k < m.value.start ==> t[k].None?
    ensures m.None? <==> NoneFrom(t, i)
    decreases |t| - i
  {
    if i == |t| then None
    else
      match t[i]
      case Some(first) => Some(first)
      case None => FirstIn(t, i + 1)
  }

  /** The leftmost match at or after `i`. */
  function FirstMatch(rule: Rule, s: Str, i: nat): (m: Option<Match>)
    requires i <= |s|
    ensures m.Some? ==> i <= m.value.start < |s| && MatchAt(rule, s, m.value.start) == m
    ensures m.Some? ==> forall k :: i <= k < m.value.start ==> MatchAt(rule, s, k).None?
    ensures m.None? <==> NoMatchFrom(rule, s, i)
  {
    NoneFromTries(rule, s, i);
    FirstIn(Tries(rule, s), i)
  }

  /** A match at the search's starting position is the first one. */
  lemma FirstMatchAt(rule: Rule, s: Str, i: nat, m: Match)
    requires i <= |s| && MatchAt(rule, s, i) == Some(m)
    ensures FirstMatch(rule, s, i) == Some(m)
  {
    assert !NoMatchFrom(rule, s, i) && MatchAt(rule, s, i).Some?;
  }

  /** `s.replace(re, ...)` without the `g` flag: only the leftmost match is replaced. */
  function ReplaceFirstMatch(rule: Rule, s: Str): Str {
    match FirstMatch(rule, s, 0)
    case Some(m) => s[..m.start] + Replacement(rule, m) + s[m.end..]
    case None => s
  }

  /** The matches in the table that the `exec` loop visits from `i`. */
  function ScanIn(t: Table, i: nat): seq<Match>
    requires Positioned(t) && i <= |t|
    decreases |t| - i
  {
    if i == |t| then []
    else
      match t[i]
      case Some(m) => [m] + ScanIn(t, m.end)
      case None => ScanIn(t, i + 1)
  }

  /** The matches the `exec` loop of a global expression visits from `i`:
      left to right, each search resuming where the previous match ended. */
  function Scan(rule: Rule, s: Str, i: nat): seq<Match>
    requires i <= |s|
  {
    ScanIn(Tries(rule, s), i)
  }

  /** The loop visits as many matches as the global replace replaces. */
  lemma {:induction false} ScanInCounts(rule: Rule, s: Str, t: Table, i: nat)
    requires |t| == |s| && Fits(rule, t) && i <= |s|
    ensures |ScanIn(t, i)| == RewriteIn(rule, s, t, i).hits
    decreases |s| - i
  {
    if i < |s| {
      if t[i].Some? {
        ScanInCounts(rule, s, t, t[i].value.end);
      } else {
        ScanInCounts(rule, s, t, i + 1);
      }
    }
  }

  /** The scan visits exactly the matches a global replace replaces. */
  lemma ScanCounts(rule: Rule, s: Str, i: nat)
    requires i <= |s|
    ensures |Scan(rule, s, i)| == Global(rule, s, i).hits
  {
    ScanInCounts(rule, s, Tries(rule, s), i);
  }

  /** Every match in `ms` is an entry of the table at or after `i`. */
  predicate InTable(t: Table, i: nat, ms: seq<Match>) {
    forall k :: 0 <= k < |ms| ==> i <= ms[k].start < |t| && t[ms[k].start] == Some(ms[k])
  }

  /** An entry at `i` in front of entries after its end. */
  lemma InTableCons(t: Table, i: nat, m: Match, rest: seq<Match>)
    requires Positioned(t) && i < |t| && t[i] == Some(m)
    requires InTable(t, m.end, rest)
    ensures InTable(t, i, [m] + rest)
  {
    var ms := [m] + rest;
    forall k | 0 <= k < |ms| ensures i <= ms[k].start < |t| && t[ms[k].start] == Some(ms[k]) {
      if k > 0 {
        assert ms[k] == rest[k - 1];
      } else {
        assert ms[0] == m;
      }
    }
  }

  /** Every visited match is an entry of the table. */
  lemma {:induction false} ScanInMatches(t: Table, i: nat)
    requires Positioned(t) && i <= |t|
    ensures InTable(t, i, ScanIn(t, i))
    decreases |t| - i
  {
    if i < |t| {
      if t[i].Some? {
        ScanInMatches(t, t[i].value.end);
        InTableCons(t, i, t[i].value, ScanIn(t, t[i].value.end));
      } else {
        ScanInMatches(t, i + 1);
      }
    }
  }

  /** Every match in `ms` is a real match of the expression, at or after `i`. */
  predicate RealMatches(rule: Rule, s: Str, i: nat, ms: seq<Match>) {
    forall k :: 0 <= k < |ms| ==> i <= ms[k].start < |s| && MatchAt(rule, s, ms[k].start) == Some(ms[k])
  }

  /** Every visited match is a real match of the expression, at or after
      the start of the scan. */
  lemma ScanMatches(rule: Rule, s: Str, i: nat)
    requires i <= |s|
    ensures RealMatches(rule, s, i, Scan(rule, s, i))
  {
    ScanInMatches(Tries(rule, s), i);
  }

  /** Each `exec` call returns the first match from where the previous one
      ended, so the scan is that match followed by the scan after it. */
  lemma {:induction false} ScanInFirst(t: Table, i: nat)
    requires Positioned(t) && i <= |t|
    ensures FirstIn(t, i).None? ==> ScanIn(t, i) == []
    ensures FirstIn(t, i).Some? ==> ScanIn(t, i) == [FirstIn(t, i).value] + ScanIn(t, FirstIn(t, i).value.end)
    decreases |t| - i
  {
    if i < |t| && t[i].None? {
      ScanInFirst(t, i + 1);
    }
  }

  /** Each `exec` call returns the leftmost match from where the previous one
      ended, so the scan is the first match followed by the scan after it. */
  lemma ScanFirst(rule: Rule, s: Str, i: nat)
    requires i <= |s|
    ensures FirstMatch(rule, s, i).None? ==> Scan(rule, s, i) == []
    ensures FirstMatch(rule, s, i).Some? ==>
      Scan(rule, s, i) == [FirstMatch(rule, s, i).value] + Scan(rule, s, FirstMatch(rule, s, i).value.end)
  {
    ScanInFirst(Tries(rule, s), i);
  }

  /** Each match in `ms` starts where or after the previous one ended. */
  predicate Disjoint(ms: seq<Match>) {
    forall k :: 0 <= k < |ms| - 1 ==> ms[k].end <= ms[k + 1].start
  }

  /** A match in front of disjoint matches that start after it ends. */
  lemma DisjointCons(m: Match, rest: seq<Match>)
    requires Disjoint(rest) && (|rest| > 0 ==> m.end <= rest[0].start)
    ensures Disjoint([m] + rest)
  {
    var ms := [m] + rest;
    forall k | 0 <= k < |ms| - 1 ensures ms[k].end <= ms[k + 1].start {
      assert ms[k + 1] == rest[k];
      if k > 0 {
        assert ms[k] == rest[k - 1];
      }
    }
  }

  /** The visited entries do not overlap. */
  lemma {:induction false} ScanInOrdered(t: Table, i: nat)
    requires Positioned(t) && i <= |t|
    ensures Disjoint(ScanIn(t, i))
    decreases |t| - i
  {
    if i < |t| {
      if t[i].Some? {
        var m := t[i].value;
        var rest := ScanIn(t, m.end);
        ScanInOrdered(t, m.end);
        ScanInMatches(t, m.end);
        if |rest| > 0 {
          assert m.end <= rest[0].start;
        }
        DisjointCons(m, rest);
      } else {
        ScanInOrdered(t, i + 1);
      }
    }
  }

  /** The visited matches do not overlap: each starts where or after the
      previous one ended. */
  lemma ScanOrdered(rule: Rule, s: Str, i: nat)
    requires i <= |s|
    ensures Disjoint(Scan(rule, s, i))
  {
    ScanInOrdered(Tries(rule, s), i);
  }

  /** Every position holding a match lies inside a visited one. */
  lemma {:induction false} ScanInComplete(t: Table, i: nat, p: nat) returns (k: nat)
    requires Positioned(t) && i <= p < |t| && t[p].Some?
    ensures k < |ScanIn(t, i)| && ScanIn(t, i)[k].start <= p < ScanIn(t, i)[k].end
    decreases |t| - i
  {
    if t[i].Some? {
      var m := t[i].value;
      if p >= m.end {
        var j := ScanInComplete(t, m.end, p);
        k := j + 1;
      } else {
        k := 0;
      }
    } else {
      k := ScanInComplete(t, i + 1, p);
    }
  }

  /** Every position where the expression could match is either the start of
      a visited match or lies inside one: the scan misses nothing. */
  lemma ScanComplete(rule: Rule, s: Str, i: nat, p: nat) returns (k: nat)
    requires i <= p < |s| && MatchAt(rule, s, p).Some?
    ensures k < |Scan(rule, s, i)| && Scan(rule, s, i)[k].start <= p < Scan(rule, s, i)[k].end
  {
    k := ScanInComplete(Tries(rule, s), i, p);
  }

  /** The characters a rule's replacement template inserts of its own. */
  predicate Emits(rule: Rule, c: char) {
    match rule
    case Literal(_, rep) => c in rep
    case WhiteRun => c == ' '
    case Biconditional => c == '(' || c == ')' || c == IMPLIES || c == AND
    case Implication => c == '(' || c == ')' || c == NOT || c == OR
    case NegatedGroup(_, outer) => c == '(' || c == ')' || c == NOT || c == outer
    case DistributeLeft(outer, inner) => c == '(' || c == ')' || c == outer || c == inner
    case DistributeRight(outer, inner) => c == '(' || c == ')' || c == outer || c == inner
    case _ => false
  }

  lemma SliceLacks(s: Str, a: nat, b: nat, c: char)
    requires a <= b <= |s| && c !in s
    ensures c !in s[a..b] && c !in Trim(s[a..b])
  {
  }

  /** A replacement built from groups without `c` and a template that does
      not insert `c` holds no `c`. */
  lemma TemplateLacks(rule: Rule, m: Match, c: char)
    requires |m.groups| == Arity(rule) && !Emits(rule, c)
    requires forall k :: 0 <= k < |m.groups| ==> c !in m.groups[k]
    ensures c !in Replacement(rule, m)
  {
    match rule
    case Biconditional =>
      BiconditionalTemplateLacks(m.groups[0], m.groups[1], c);
    case Implication =>
      ImplicationTemplateLacks(m.groups[0], m.groups[1], c);
    case NegatedGroup(_, outer) =>
      NegatedTemplateLacks(m.groups[0], m.groups[1], outer, c);
    case DistributeLeft(outer, inner) =>
      assert c !in Trim(m.groups[0]) && c !in Trim(m.groups[1]) && c !in Trim(m.groups[2]);
      DistributionTemplateLacks(Trim(m.groups[0]), Trim(m.groups[1]), Trim(m.groups[0]), Trim(m.groups[2]), outer, inner, c);
    case DistributeRight(outer, inner) =>
      assert c !in Trim(m.groups[0]) && c !in Trim(m.groups[1]) && c !in Trim(m.groups[2]);
      DistributionTemplateLacks(Trim(m.groups[0]), Trim(m.groups[2]), Trim(m.groups[1]), Trim(m.groups[2]), outer, inner, c);
    case _ =>
  }

  lemma BiconditionalTemplateLacks(a: Str, b: Str, c: char)
    requires c !in a && c !in b && c != '(' && c != ')' && c != IMPLIES && c != AND
    ensures c !in "((" + a + "→" + b + ")∧(" + b + "→" + a + "))"
  {
  }

  lemma ImplicationTemplateLacks(a: Str, b: Str, c: char)
    requires c !in a && c !in b && c != '(' && c != ')' && c != NOT && c != OR
    ensures c !in "(¬" + a + "∨" + b + ")"
  {
  }

  lemma NegatedTemplateLacks(a: Str, b: Str, outer: char, c: char)
    requires c !in a && c !in b && c != '(' && c != ')' && c != NOT && c != outer
    ensures c !in "(¬" + a + [outer] + "¬" + b + ")"
  {
  }

  /** The shape shared by both distribution templates: `((a∘b)•(d∘e))`. */
  lemma DistributionTemplateLacks(a: Str, b: Str, d: Str, e: Str, outer: char, inner: char, c: char)
    requires c !in a && c !in b && c !in d && c !in e
    requires c != '(' && c != ')' && c != outer && c != inner
    ensures c !in "((" + a + [outer] + b + ")" + [inner] + "(" + d + [outer] + e + "))"
  {
  }

  /** A replacement holds no character that is missing from the subject
      string and that the template does not insert itself. */
  lemma ReplacementLacks(rule: Rule, s: Str, i: nat, c: char)
    requires i <= |s| && MatchAt(rule, s, i).Some?
    requires c !in s && !Emits(rule, c)
    ensures c !in Replacement(rule, MatchAt(rule, s, i).value)
  {
    TemplateLacks(rule, MatchAt(rule, s, i).value, c);
  }

  /** A global replace over the table never introduces a character that is
      neither in the subject nor part of the rule's template. */
  lemma {:induction false} RewriteInLacks(rule: Rule, s: Str, t: Table, i: nat, c: char)
    requires |t| == |s| && Fits(rule, t) && Captures(s, t) && i <= |s|
    requires c !in s && !Emits(rule, c)
    ensures c !in RewriteIn(rule, s, t, i).text
    decreases |s| - i
  {
    if i < |s| {
      if t[i].Some? {
        var m := t[i].value;
        TemplateLacks(rule, m, c);
        RewriteInLacks(rule, s, t, m.end, c);
      } else {
        RewriteInLacks(rule, s, t, i + 1, c);
      }
    }
  }

  /** A global replace never introduces a character that is neither in the
      subject nor part of the rule's template. */
  lemma GlobalLacks(rule: Rule, s: Str, i: nat, c: char)
    requires i <= |s| && c !in s && !Emits(rule, c)
    ensures c !in Global(rule, s, i).text
  {
    RewriteInLacks(rule, s, Tries(rule, s), i, c);
  }

  /** Replacing one match of the table adds no character that is neither in
      the subject nor part of the rule's template. */
  lemma ReplaceInLacks(rule: Rule, s: Str, t: Table, m: Match, c: char)
    requires |t| == |s| && Fits(rule, t) && Captures(s, t)
    requires m.start < |t| && t[m.start] == Some(m)
    requires c !in s && !Emits(rule, c)
    ensures c !in s[..m.start] + Replacement(rule, m) + s[m.end..]
  {
    TemplateLacks(rule, m, c);
    SliceLacks(s, 0, m.start, c);
    SliceLacks(s, m.end, |s|, c);
    assert s[m.end..] == s[m.end..|s|];
  }

  /** The same for the non-global replace. */
  lemma ReplaceFirstMatchLacks(rule: Rule, s: Str, c: char)
    requires c !in s && !Emits(rule, c)
    ensures c !in ReplaceFirstMatch(rule, s)
  {
    var t := Tries(rule, s);
    var first := FirstIn(t, 0);
    if first.Some? {
      ReplaceInLacks(rule, s, t, first.value, c);
    }
  }

  /** Over the table: a replace that matches wherever `c` occurs and whose
      replacement is a fixed text without `c` removes every `c`. */
  lemma {:induction false} RewriteInRemoves(rule: Rule, s: Str, t: Table, i: nat, c: char)
    requires |t| == |s| && Fits(rule, t) && i <= |s| && Arity(rule) == 0 && !Emits(rule, c)
    requires forall k :: i <= k < |s| && s[k] == c ==> t[k].Some?
    ensures c !in RewriteIn(rule, s, t, i).text
    decreases |s| - i
  {
    if i < |s| {
      if t[i].Some? {
        TemplateLacks(rule, t[i].value, c);
        RewriteInRemoves(rule, s, t, t[i].value.end, c);
      } else {
        RewriteInRemoves(rule, s, t, i + 1, c);
      }
    }
  }

  /** A global replace that matches wherever `c` occurs and whose replacement
      is a fixed text without `c` removes every `c`. */
  lemma GlobalRemoves(rule: Rule, s: Str, i: nat, c: char)
    requires i <= |s| && Arity(rule) == 0 && !Emits(rule, c)
    requires forall k :: i <= k < |s| && s[k] == c ==> MatchAt(rule, s, k).Some?
    ensures c !in Global(rule, s, i).text
  {
    RewriteInRemoves(rule, s, Tries(rule, s), i, c);
  }
}
