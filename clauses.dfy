/** `extractClauses` and `isHornClause` of script.js:454-485, and the split of
    a clause list into Horn and non-Horn clauses that `toHornClauses`
    performs (script.js:256-303). */
module Clauses {
  import opened Text
  import opened Regex

  /** Reference reading of `s.replace(/^\(|\)$/g, '')`: one `(` at the very
      start and one `)` at the very end are dropped (a lone `(` or `)` too). */
  function Unwrapped(s: Str): Str {
    var a := if |s| > 0 && s[0] == '(' then 1 else 0;
    var b := if |s| > a && s[|s| - 1] == ')' then |s| - 1 else |s|;
    s[a..b]
  }

  /** Past position 0 the global scan of `^\(|\)$` matches only a final `)`. */
  lemma {:induction false} OuterParenTail(s: Str, i: nat)
    requires 0 < i <= |s|
    ensures Global(OuterParen, s, i).text
      == s[i..if |s| > i && s[|s| - 1] == ')' then |s| - 1 else |s|]
    decreases |s| - i
  {
    if i < |s| {
      if i == |s| - 1 && s[i] == ')' {
        assert MatchAt(OuterParen, s, i) == Some(Match(i, |s|, []));
        GlobalMatched(OuterParen, s, i, Match(i, |s|, []));
      } else {
        assert MatchAt(OuterParen, s, i).None?;
        GlobalUnmatched(OuterParen, s, i);
        OuterParenTail(s, i + 1);
        if i + 1 == |s| {
          assert s[i..|s|] == [s[i]];
        } else {
          var b := if s[|s| - 1] == ')' then |s| - 1 else |s|;
          assert s[i..b] == [s[i]] + s[i + 1..b];
        }
      }
    }
  }

  lemma GlobalOuterParen(s: Str)
    ensures Global(OuterParen, s, 0).text == Unwrapped(s)
  {
    if |s| > 0 {
      if s[0] == '(' {
        OpenParenStripped(s);
      } else {
        PlainStartKept(s);
      }
    }
  }

  /** A leading `(` is removed, then the rest is scanned. */
  lemma OpenParenStripped(s: Str)
    requires |s| > 0 && s[0] == '('
    ensures Global(OuterParen, s, 0).text == Unwrapped(s)
  {
    assert MatchAt(OuterParen, s, 0) == Some(Match(0, 1, []));
    GlobalMatched(OuterParen, s, 0, Match(0, 1, []));
    OuterParenTail(s, 1);
  }

  /** Any other first character is kept, unless it is the final `)`. */
  lemma PlainStartKept(s: Str)
    requires |s| > 0 && s[0] != '('
    ensures Global(OuterParen, s, 0).text == Unwrapped(s)
  {
    if |s| == 1 && s[0] == ')' {
      assert MatchAt(OuterParen, s, 0) == Some(Match(0, 1, []));
      GlobalMatched(OuterParen, s, 0, Match(0, 1, []));
    } else {
      assert MatchAt(OuterParen, s, 0).None?;
      GlobalUnmatched(OuterParen, s, 0);
      if |s| > 1 {
        OuterParenTail(s, 1);
        var b := if s[|s| - 1] == ')' then |s| - 1 else |s|;
        assert s[0..b] == [s[0]] + s[1..b];
      }
    }
  }

  /** `s.replace(/^\(|\)$/g, '')`. */
  function StripOuterParens(s: Str): (r: Str)
    ensures r == Unwrapped(s)
  {
    GlobalOuterParen(s);
    ReplaceAll(OuterParen, s)
  }

  /** `/∨/g` with the replacement ', '. */
  const OrToComma: Rule := Literal([OR], ", ")

  /** The text of a clause: braces around literals separated by ", ". */
  predicate IsClauseText(c: Str) {
    |c| >= 2 && c[0] == '{' && c[|c| - 1] == '}' && OR !in c
  }

  /** Every ∨ is where `/∨/g` matches, so none is left. */
  lemma OrsReplaced(s: Str)
    ensures OR !in ReplaceAll(OrToComma, s)
  {
    forall k | 0 <= k < |s| && s[k] == OR
      ensures MatchAt(OrToComma, s, k).Some?
    {
      assert s[k..k + 1] == [OR];
    }
    GlobalRemoves(OrToComma, s, 0, OR);
  }

  /** `/∨/g` → `', '` is splitting at `∨` and joining with `", "`. */
  lemma OrToCommaJoins(s: Str)
    ensures ReplaceAll(OrToComma, s) == Join(Split(s, OR), ", ")
  {
    OrToCommaFrom(s, 0);
    assert s[0..] == s;
  }

  lemma {:induction false} OrToCommaFrom(s: Str, i: nat)
    requires i <= |s|
    ensures Global(OrToComma, s, i).text == Join(Split(s[i..], OR), ", ")
    decreases |s| - i
  {
    if i == |s| {
      assert s[i..] == [];
    } else {
      OrToCommaFrom(s, i + 1);
      var rest := Split(s[i + 1..], OR);
      OrToCommaSplit(s, i);
      if s[i] == OR {
        OrToCommaAt(s, i);
        JoinEmptyFirst(rest, ", ");
      } else {
        OrToCommaMissed(s, i);
        JoinPrepend(s[i], rest, ", ");
      }
    }
  }

  /** `split` on a suffix, one character at a time. */
  lemma OrToCommaSplit(s: Str, i: nat)
    requires i < |s|
    ensures var rest := Split(s[i + 1..], OR);
      Split(s[i..], OR) == if s[i] == OR then [[]] + rest else [[s[i]] + rest[0]] + rest[1..]
  {
    assert s[i..][1..] == s[i + 1..];
  }

  /** At a `∨` the scan writes `", "`. */
  lemma OrToCommaAt(s: Str, i: nat)
    requires i < |s| && s[i] == OR
    ensures Global(OrToComma, s, i).text == ", " + Global(OrToComma, s, i + 1).text
  {
    assert s[i..i + 1] == [OR];
    var m := Match(i, i + 1, []);
    assert MatchAt(OrToComma, s, i) == Some(m);
    GlobalMatched(OrToComma, s, i, m);
  }

  /** Elsewhere it copies the character. */
  lemma OrToCommaMissed(s: Str, i: nat)
    requires i < |s| && s[i] != OR
    ensures Global(OrToComma, s, i).text == [s[i]] + Global(OrToComma, s, i + 1).text
  {
    assert s[i..i + 1] != [OR];
    GlobalUnmatched(OrToComma, s, i);
  }

  lemma AndsKept(part: Str)
    ensures AND !in part ==> AND !in ReplaceAll(OrToComma, StripOuterParens(Trim(part)))
  {
    if AND !in part {
      GlobalLacks(OrToComma, StripOuterParens(Trim(part)), 0, AND);
    }
  }

  /** What the `forEach` callback of `extractClauses` pushes for one part:
      nothing when the part is empty once trimmed and unwrapped. */
  function ClauseOf(part: Str): (r: Option<Str>)
    ensures r.None? <==> StripOuterParens(Trim(part)) == []
    ensures r.Some? ==> IsClauseText(r.value)
    ensures r.Some? && AND !in part ==> AND !in r.value
  {
    var cleaned := StripOuterParens(Trim(part));
    if cleaned == [] then None
    else
      var body := ReplaceAll(OrToComma, cleaned);
      OrsReplaced(cleaned);
      AndsKept(part);
      Some("{" + body + "}")
  }

  /** The clause text of a part, as a reference: the `∨`-separated
      literals of the cleaned part, joined by `", "`, between braces. */
  function ClauseText(part: Str): Str {
    "{" + Join(Split(StripOuterParens(Trim(part)), OR), ", ") + "}"
  }

  /** A clause is the reference clause text of its part. */
  lemma ClauseOfText(part: Str)
    ensures ClauseOf(part).Some? ==> ClauseOf(part).value == ClauseText(part)
  {
    OrToCommaJoins(StripOuterParens(Trim(part)));
  }

  /** The clauses pushed for `parts`, in order. */
  function Collect(parts: seq<Str>): (r: seq<Str>)
    ensures |r| <= |parts|
    ensures forall k :: 0 <= k < |r| ==> IsClauseText(r[k])
    decreases |parts|
  {
    if |parts| == 0 then []
    else
      var rest := Collect(parts[1..]);
      match ClauseOf(parts[0])
      case Some(c) => [c] + rest
      case None => rest
  }

  /** One step of the `forEach` of `extractClauses`. */
  lemma CollectStep(parts: seq<Str>, i: nat)
    requires i < |parts|
    ensures Collect(parts[i..])
      == (if ClauseOf(parts[i]).Some? then [ClauseOf(parts[i]).value] else []) + Collect(parts[i + 1..])
  {
    assert parts[i..][1..] == parts[i + 1..];
  }

  /** The values of the present entries of `xs`, in order. */
  function Present<T>(xs: seq<Option<T>>): seq<T>
    decreases |xs|
  {
    if |xs| == 0 then []
    else (if xs[0].Some? then [xs[0].value] else []) + Present(xs[1..])
  }

  lemma {:induction false} PresentFrom<T>(xs: seq<Option<T>>, k: nat)
    requires k < |Present(xs)|
    ensures exists j :: 0 <= j < |xs| && xs[j] == Some(Present(xs)[k])
    decreases |xs|
  {
    var rest := Present(xs[1..]);
    if xs[0].Some? && k == 0 {
      assert xs[0] == Some(Present(xs)[k]);
    } else {
      var k' := if xs[0].Some? then k - 1 else k;
      assert Present(xs)[k] == rest[k'];
      PresentFrom(xs[1..], k');
      var j :| 0 <= j < |xs[1..]| && xs[1..][j] == Some(rest[k']);
      assert xs[j + 1] == Some(Present(xs)[k]);
    }
  }

  lemma {:induction false} PresentHas<T>(xs: seq<Option<T>>, j: nat)
    requires j < |xs| && xs[j].Some?
    ensures xs[j].value in Present(xs)
    decreases |xs|
  {
    var rest := Present(xs[1..]);
    if j > 0 {
      PresentHas(xs[1..], j - 1);
      assert xs[1..][j - 1] == xs[j];
      assert xs[j].value in rest;
    }
  }

  /** What the callback returns for each part. */
  function ClauseOptions(parts: seq<Str>): (r: seq<Option<Str>>)
    ensures |r| == |parts|
    ensures forall j :: 0 <= j < |parts| ==> r[j] == ClauseOf(parts[j])
    decreases |parts|
  {
    if |parts| == 0 then [] else [ClauseOf(parts[0])] + ClauseOptions(parts[1..])
  }

  /** `Collect` keeps the clauses the callback returns, in order. */
  lemma {:induction false} CollectPresent(parts: seq<Str>)
    ensures Collect(parts) == Present(ClauseOptions(parts))
    decreases |parts|
  {
    if |parts| > 0 {
      CollectPresent(parts[1..]);
      assert ClauseOptions(parts)[1..] == ClauseOptions(parts[1..]);
    }
  }

  /** Every clause collected is the clause of some part ... */
  lemma CollectSource(parts: seq<Str>, k: nat)
    requires k < |Collect(parts)|
    ensures exists j :: 0 <= j < |parts| && ClauseOf(parts[j]) == Some(Collect(parts)[k])
  {
    CollectPresent(parts);
    PresentFrom(ClauseOptions(parts), k);
  }

  /** ... and the clause of every part that has one is collected. */
  lemma CollectHas(parts: seq<Str>, j: nat)
    requires j < |parts| && ClauseOf(parts[j]).Some?
    ensures ClauseOf(parts[j]).value in Collect(parts)
  {
    CollectPresent(parts);
    PresentHas(ClauseOptions(parts), j);
  }

  /** `extractClauses(formula)`. */
  function ExtractClauses(s: Str): (r: seq<Str>)
    ensures |r| <= Count(StripOuterParens(s), AND) + 1
    ensures forall k :: 0 <= k < |r| ==> IsClauseText(r[k]) && AND !in r[k]
  {
    CollectLacks(Split(StripOuterParens(s), AND), AND);
    Collect(Split(StripOuterParens(s), AND))
  }

  /** Each clause is the clause text of one `∧`-separated part ... */
  lemma ExtractClausesText(s: Str, k: nat)
    requires k < |ExtractClauses(s)|
    ensures exists j ::
      0 <= j < |Split(StripOuterParens(s), AND)| && ExtractClauses(s)[k] == ClauseText(Split(StripOuterParens(s), AND)[j])
  {
    var parts := Split(StripOuterParens(s), AND);
    CollectSource(parts, k);
    var j :| 0 <= j < |parts| && ClauseOf(parts[j]) == Some(Collect(parts)[k]);
    ClauseOfText(parts[j]);
    assert ExtractClauses(s)[k] == ClauseText(parts[j]);
  }

  /** ... and every part that is not empty once cleaned gives one. */
  lemma ExtractClausesHas(s: Str, j: nat)
    requires j < |Split(StripOuterParens(s), AND)|
    ensures var part := Split(StripOuterParens(s), AND)[j];
      StripOuterParens(Trim(part)) != [] ==> ClauseText(part) in ExtractClauses(s)
  {
    var parts := Split(StripOuterParens(s), AND);
    if ClauseOf(parts[j]).Some? {
      CollectHas(parts, j);
      ClauseOfText(parts[j]);
    }
  }

  /** A clause holds only characters of its part, braces, commas and blanks. */
  lemma ClauseOfLacks(part: Str, c: char)
    requires c !in part && c != '{' && c != '}' && c != ',' && c != ' '
    ensures ClauseOf(part).Some? ==> c !in ClauseOf(part).value
  {
    var cleaned := StripOuterParens(Trim(part));
    assert c !in cleaned;
    GlobalLacks(OrToComma, cleaned, 0, c);
  }

  lemma {:induction false} CollectLacks(parts: seq<Str>, c: char)
    requires forall k :: 0 <= k < |parts| ==> c !in parts[k]
    requires c != '{' && c != '}' && c != ',' && c != ' '
    ensures forall k :: 0 <= k < |Collect(parts)| ==> c !in Collect(parts)[k]
    decreases |parts|
  {
    if |parts| > 0 {
      ClauseOfLacks(parts[0], c);
      CollectLacks(parts[1..], c);
    }
  }

  /** `extractClauses` adds no character but braces, commas and blanks. */
  lemma ExtractClausesLack(s: Str, c: char)
    requires c !in s && c != '{' && c != '}' && c != ',' && c != ' '
    ensures forall k :: 0 <= k < |ExtractClauses(s)| ==> c !in ExtractClauses(s)[k]
  {
    CollectLacks(Split(StripOuterParens(s), AND), c);
  }

  /** Number of parts that yield a clause. */
  function NonEmptyParts(parts: seq<Str>): nat
    decreases |parts|
  {
    if |parts| == 0 then 0
    else (if StripOuterParens(Trim(parts[0])) == [] then 0 else 1) + NonEmptyParts(parts[1..])
  }

  /** One clause for every part that is not empty once cleaned. */
  lemma {:induction false} CollectCount(parts: seq<Str>)
    ensures |Collect(parts)| == NonEmptyParts(parts)
    decreases |parts|
  {
    if |parts| > 0 {
      CollectCount(parts[1..]);
    }
  }

  // ---------------------------------------------------------------------
  // isHornClause
  // ---------------------------------------------------------------------

  /** `clause.replace(/[{}]/g, '').split(',').map(l => l.trim())`. */
  function Literals(clause: Str): (lits: seq<Str>)
    ensures |lits| == Count(ReplaceAll(Brace, clause), ',') + 1
    ensures forall k :: 0 <= k < |lits| ==> ',' !in lits[k]
  {
    var parts := Split(ReplaceAll(Brace, clause), ',');
    seq(|parts|, k requires 0 <= k < |parts| => Trim(parts[k]))
  }

  /** `!literal.startsWith('¬')`. */
  predicate Positive(lit: Str) {
    !(|lit| > 0 && lit[0] == NOT)
  }

  /** `positiveCount` after the `forEach` over `lits`. */
  function PositiveCount(lits: seq<Str>): (n: nat)
    ensures n <= |lits|
    decreases |lits|
  {
    if |lits| == 0 then 0
    else PositiveCount(lits[..|lits| - 1]) + (if Positive(lits[|lits| - 1]) then 1 else 0)
  }

  /** One step of the `forEach` of `isHornClause`. */
  lemma PositiveCountStep(lits: seq<Str>, i: nat)
    requires i < |lits|
    ensures PositiveCount(lits[..i + 1]) == PositiveCount(lits[..i]) + (if Positive(lits[i]) then 1 else 0)
  {
    assert lits[..i + 1][..i] == lits[..i];
  }

  /** `isHornClause(clause)`: true exactly when no two literals are positive. */
  predicate IsHorn(clause: Str)
    ensures IsHorn(clause) <==> AtMostOnePositive(Literals(clause))
  {
    HornIffAtMostOnePositive(Literals(clause));
    PositiveCount(Literals(clause)) <= 1
  }

  /** At most one positive literal: no two positions both hold one. */
  predicate AtMostOnePositive(lits: seq<Str>) {
    forall i, j :: 0 <= i < j < |lits| && Positive(lits[i]) ==> !Positive(lits[j])
  }

  lemma {:induction false} PositiveCountZero(lits: seq<Str>)
    ensures PositiveCount(lits) == 0 <==> forall k :: 0 <= k < |lits| ==> !Positive(lits[k])
    decreases |lits|
  {
    if |lits| > 0 {
      var init := lits[..|lits| - 1];
      PositiveCountZero(init);
      assert forall k :: 0 <= k < |init| ==> init[k] == lits[k];
    }
  }

  /** The counting in `isHornClause` decides exactly "at most one positive
      literal". */
  lemma {:induction false} HornIffAtMostOnePositive(lits: seq<Str>)
    ensures PositiveCount(lits) <= 1 <==> AtMostOnePositive(lits)
    decreases |lits|
  {
    if |lits| > 0 {
      var n := |lits| - 1;
      var init := lits[..n];
      HornIffAtMostOnePositive(init);
      PositiveCountZero(init);
      assert forall k :: 0 <= k < n ==> init[k] == lits[k];
      if Positive(lits[n]) && PositiveCount(init) > 0 {
        var i :| 0 <= i < n && Positive(init[i]);
        assert Positive(lits[i]) && Positive(lits[n]);
      }
    }
  }

  // ---------------------------------------------------------------------
  // The partition of toHornClauses
  // ---------------------------------------------------------------------

  /** The clauses of `cs` on which `test` gives `side`, in their order: with
      `IsHorn` for `test`, what the `forEach` of `toHornClauses` pushes onto
      `hornClauses` (`side` true) or onto `nonHornClauses` (`side` false). */
  function Select(cs: seq<Str>, test: Str -> bool, side: bool): (r: seq<Str>)
    ensures forall x :: x in r ==> test(x) == side
    decreases |cs|
  {
    if |cs| == 0 then []
    else
      var last := cs[|cs| - 1];
      Select(cs[..|cs| - 1], test, side) + (if test(last) == side then [last] else [])
  }

  /** One step of the `forEach` of `toHornClauses`: clause `i` goes to the
      end of the list of its side. */
  lemma SelectStep(cs: seq<Str>, i: nat, test: Str -> bool, b: bool, yes: seq<Str>, no: seq<Str>)
    requires i < |cs| && b == test(cs[i])
    requires yes == Select(cs[..i], test, true) && no == Select(cs[..i], test, false)
    ensures Select(cs[..i + 1], test, true) == (if b then yes + [cs[i]] else yes)
    ensures Select(cs[..i + 1], test, false) == (if b then no else no + [cs[i]])
  {
    assert cs[..i + 1][..i] == cs[..i];
    assert Select(cs[..i], test, b) + [] == Select(cs[..i], test, b);
    assert Select(cs[..i], test, !b) + [] == Select(cs[..i], test, !b);
  }

  /** Selection distributes over concatenation: the order of the input is kept. */
  lemma {:induction false} SelectConcat(a: seq<Str>, b: seq<Str>, test: Str -> bool, side: bool)
    ensures Select(a + b, test, side) == Select(a, test, side) + Select(b, test, side)
    decreases |b|
  {
    if |b| == 0 {
      assert a + b == a;
    } else {
      var n := |b| - 1;
      assert (a + b)[..|a + b| - 1] == a + b[..n];
      SelectConcat(a, b[..n], test, side);
    }
  }

  /** Each clause goes to exactly one side: the two lists together are a
      permutation of the clause list. */
  lemma {:induction false} SelectPartition(cs: seq<Str>, test: Str -> bool)
    ensures multiset(Select(cs, test, true)) + multiset(Select(cs, test, false)) == multiset(cs)
    decreases |cs|
  {
    if |cs| > 0 {
      var n := |cs| - 1;
      var init, x := cs[..n], cs[n];
      SelectPartition(init, test);
      assert cs == init + [x];
    }
  }

  /** ... so the two lists hold as many clauses as the clause list. */
  lemma SelectSizes(cs: seq<Str>, test: Str -> bool)
    ensures |Select(cs, test, true)| + |Select(cs, test, false)| == |cs|
  {
    SelectPartition(cs, test);
    assert |multiset(Select(cs, test, true)) + multiset(Select(cs, test, false))| == |multiset(cs)|;
  }
}
