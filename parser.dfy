/** FormulaParser of script.js:1-47.  Parsing there is string rewriting
    only: the text is trimmed, every run of white space becomes one blank,
    the LaTeX macros become the internal connective symbols, left-over
    backslashes are dropped, and the result is tagged first-order when a
    quantifier symbol occurs in it. */
module Parser {
  import opened Text
  import opened Regex

  datatype FormulaType = Propositional | FirstOrder

  /** The object `parseFormula` returns. */
  datatype ParsedFormula = ParsedFormula(original: Str, processed: Str, formulaType: FormulaType)

  /** The macro rewrites of `parseFormula`, in the order they are chained; the
      last one removes every remaining backslash. */
  const Macros: seq<(Str, Str)> := [
    ("\\forall", "∀"), ("\\exists", "∃"), ("\\land", "∧"), ("\\lor", "∨"),
    ("\\neg", "¬"), ("\\rightarrow", "→"), ("\\leftrightarrow", "↔"), ("\\", "")]

  /** Applies the global literal rewrites `macros` one after the other.  A
      chain that ends with the removal of `\` leaves no backslash, and a
      chain whose every pattern starts with `\` changes nothing on text
      without one. */
  function RewriteMacros(s: Str, macros: seq<(Str, Str)>): (r: Str)
    ensures |macros| > 0 && macros[|macros| - 1] == ("\\", "") ==> '\\' !in r
    ensures '\\' !in s && OpenWithBackslash(macros) ==> r == s
    decreases |macros|
  {
    if |macros| == 0 then s
    else
      var next := ReplaceAll(Literal(macros[0].0, macros[0].1), s);
      LiteralAbsent(s, macros[0].0, macros[0].1);
      MacrosTail(macros);
      if |macros| == 1 then
        BackslashesRemoved(s);
        RewriteMacros(next, [])
      else
        RewriteMacros(next, macros[1..])
  }

  /** What the chain after the first macro keeps of the two conditions. */
  lemma MacrosTail(macros: seq<(Str, Str)>)
    requires |macros| > 0
    ensures OpenWithBackslash(macros) ==> OpenWithBackslash(macros[1..])
    ensures |macros| > 1 ==> macros[1..][|macros| - 2] == macros[|macros| - 1]
    ensures |macros| == 1 ==> macros[1..] == []
  {
  }

  /** A literal pattern whose first character does not occur matches nowhere. */
  lemma LiteralAbsent(s: Str, pat: Str, rep: Str)
    ensures |pat| > 0 && pat[0] !in s ==> ReplaceAll(Literal(pat, rep), s) == s
  {
    if |pat| > 0 && pat[0] !in s {
      forall i | 0 <= i <= |s| ensures MatchAt(Literal(pat, rep), s, i).None? {
        if i + |pat| <= |s| {
          assert s[i..i + |pat|][0] == s[i];
        }
      }
      assert s[0..] == s;
    }
  }

  /** Every pattern of `macros` starts with a backslash. */
  predicate OpenWithBackslash(macros: seq<(Str, Str)>) {
    forall k :: 0 <= k < |macros| ==> |macros[k].0| > 0 && macros[k].0[0] == '\\'
  }

  /** `detectFormulaType`: first-order exactly when a quantifier symbol occurs. */
  function DetectFormulaType(formula: Str): (t: FormulaType)
    ensures t == Propositional <==> forall k :: 0 <= k < |formula| ==> formula[k] != FORALL && formula[k] != EXISTS
  {
    if FORALL in formula || EXISTS in formula then FirstOrder else Propositional
  }

  /** White space normalised: every white-space character is a blank that
      stands between two characters that are not white space. */
  predicate Collapsed(t: Str) {
    forall k :: 0 <= k < |t| && IsSpace(t[k]) ==> t[k] == ' ' && 0 < k && k + 1 < |t| && !IsSpace(t[k + 1])
  }

  /** `s.replace(/\s+/g, ' ')` from position `i` on starts like s[i..],
      with a blank for a run of white space. */
  lemma WhiteRunHead(s: Str, i: nat)
    requires i < |s|
    ensures var t := Global(WhiteRun, s, i).text;
      |t| > 0 && t[0] == (if IsSpace(s[i]) then ' ' else s[i])
  {
    if IsSpace(s[i]) {
      assert MatchAt(WhiteRun, s, i) == Some(Match(i, RunEnd(s, i, Space), []));
    } else {
      assert MatchAt(WhiteRun, s, i).None?;
    }
  }

  /** ... and ends like s, with a blank for a run of white space. */
  lemma {:induction false} WhiteRunLast(s: Str, i: nat)
    requires i < |s|
    ensures var t := Global(WhiteRun, s, i).text;
      |t| > 0 && t[|t| - 1] == (if IsSpace(s[|s| - 1]) then ' ' else s[|s| - 1])
    decreases |s| - i
  {
    var t := Global(WhiteRun, s, i).text;
    if IsSpace(s[i]) {
      var e := RunEnd(s, i, Space);
      assert MatchAt(WhiteRun, s, i) == Some(Match(i, e, []));
      assert t == " " + Global(WhiteRun, s, e).text;
      if e < |s| {
        WhiteRunLast(s, e);
      }
    } else {
      assert MatchAt(WhiteRun, s, i).None?;
      assert t == [s[i]] + Global(WhiteRun, s, i + 1).text;
      if i + 1 < |s| {
        WhiteRunLast(s, i + 1);
      }
    }
  }

  /** Every white-space character of `t` is a blank not followed by white space. */
  predicate SingleBlanks(t: Str) {
    forall k :: 0 <= k < |t| && IsSpace(t[k]) ==> t[k] == ' ' && (k + 1 == |t| || !IsSpace(t[k + 1]))
  }

  /** ... and every white-space character in it is a single blank. */
  lemma {:induction false} WhiteRunSingles(s: Str, i: nat)
    requires i <= |s|
    ensures SingleBlanks(Global(WhiteRun, s, i).text)
    decreases |s| - i
  {
    if i < |s| {
      var t := Global(WhiteRun, s, i).text;
      if IsSpace(s[i]) {
        var e := RunEnd(s, i, Space);
        assert MatchAt(WhiteRun, s, i) == Some(Match(i, e, []));
        var rest := Global(WhiteRun, s, e).text;
        assert t == [' '] + rest;
        WhiteRunSingles(s, e);
        if e < |s| {
          WhiteRunHead(s, e);
          assert !InClass(s[e], Space);
        }
        SingleBlanksCons(' ', rest);
      } else {
        var rest := Global(WhiteRun, s, i + 1).text;
        assert MatchAt(WhiteRun, s, i).None?;
        assert t == [s[i]] + rest;
        WhiteRunSingles(s, i + 1);
        SingleBlanksCons(s[i], rest);
      }
    }
  }

  /** A character put in front keeps the blanks single unless it is white
      space before white space. */
  lemma SingleBlanksCons(c: char, rest: Str)
    requires SingleBlanks(rest)
    requires IsSpace(c) ==> c == ' ' && (rest == [] || !IsSpace(rest[0]))
    ensures SingleBlanks([c] + rest)
  {
    var t := [c] + rest;
    forall k | 0 <= k < |t| && IsSpace(t[k])
      ensures t[k] == ' ' && (k + 1 == |t| || !IsSpace(t[k + 1]))
    {
      if k > 0 {
        assert t[k] == rest[k - 1];
      }
      if k + 1 < |t| {
        assert t[k + 1] == rest[k];
      }
    }
  }

  /** Trimming and then collapsing white space yields collapsed text. */
  lemma CollapseTrimmed(s: Str)
    ensures Collapsed(ReplaceAll(WhiteRun, Trim(s)))
  {
    var u := Trim(s);
    WhiteRunSingles(u, 0);
    if |u| > 0 {
      WhiteRunHead(u, 0);
      WhiteRunLast(u, 0);
    }
  }

  /** Every backslash is where the last macro rule matches. */
  lemma BackslashesRemoved(s: Str)
    ensures '\\' !in ReplaceAll(Literal("\\", ""), s)
  {
    forall k | 0 <= k < |s| && s[k] == '\\'
      ensures MatchAt(Literal("\\", ""), s, k).Some?
    {
      assert s[k..k + 1] == "\\";
    }
    GlobalRemoves(Literal("\\", ""), s, 0, '\\');
  }

  /** Every pattern of the macro table starts with a backslash. */
  lemma MacrosOpenWithBackslash()
    ensures OpenWithBackslash(Macros)
  {
    forall k | 0 <= k < |Macros| ensures |Macros[k].0| > 0 && Macros[k].0[0] == '\\' {
      assert Macros[k].0 in {"\\forall", "\\exists", "\\land", "\\lor", "\\neg", "\\rightarrow", "\\leftrightarrow", "\\"};
    }
  }

  /** `s` holds a backslash at `b` and nowhere else. */
  predicate SoleBackslash(s: Str, b: nat) {
    b < |s| && s[b] == '\\' && forall j :: 0 <= j < |s| && s[j] == '\\' ==> j == b
  }

  /** A literal pattern opening with a backslash does not match where the
      text has no backslash. */
  lemma NoLiteralAt(s: Str, j: nat, pat: Str, rep: Str)
    requires j <= |s| && |pat| > 0 && pat[0] == '\\' && (j == |s| || s[j] != '\\')
    ensures MatchAt(Literal(pat, rep), s, j).None?
  {
    if j < |s| && j + |pat| <= |s| {
      assert s[j..j + |pat|][0] == s[j];
    }
  }

  /** Past the only backslash, such a rewrite copies the text. */
  lemma LiteralPastBackslash(s: Str, b: nat, pat: Str, rep: Str, i: nat)
    requires SoleBackslash(s, b) && |pat| > 0 && pat[0] == '\\' && b < i <= |s|
    ensures Global(Literal(pat, rep), s, i).text == s[i..]
  {
    forall j | i <= j <= |s| ensures MatchAt(Literal(pat, rep), s, j).None? {
      NoLiteralAt(s, j, pat, rep);
    }
    assert NoMatchFrom(Literal(pat, rep), s, i);
  }

  /** Before the only backslash, such a rewrite copies the text up to it. */
  lemma {:induction false} LiteralBeforeBackslash(s: Str, b: nat, pat: Str, rep: Str, i: nat)
    requires SoleBackslash(s, b) && |pat| > 0 && pat[0] == '\\' && i <= b
    ensures Global(Literal(pat, rep), s, i).text == s[i..b] + Global(Literal(pat, rep), s, b).text
    decreases b - i
  {
    if i < b {
      var rule := Literal(pat, rep);
      var rest := Global(rule, s, i + 1).text;
      assert Global(rule, s, i).text == [s[i]] + rest by {
        NoLiteralAt(s, i, pat, rep);
        GlobalUnmatched(rule, s, i);
      }
      assert rest == s[i + 1..b] + Global(rule, s, b).text by {
        LiteralBeforeBackslash(s, b, pat, rep, i + 1);
      }
      ConsSlice(s, i, b);
      Regroup(Global(rule, s, i).text, s[i], rest, s[i + 1..b], Global(rule, s, b).text, s[i..b]);
    }
  }

  /** A global literal rewrite whose pattern opens with a backslash, on text
      whose only backslash is at `b`, replaces the occurrence at `b` if there
      is one, and otherwise changes nothing. */
  lemma LiteralAtSoleBackslash(s: Str, b: nat, pat: Str, rep: Str)
    requires SoleBackslash(s, b) && |pat| > 0 && pat[0] == '\\'
    ensures ReplaceAll(Literal(pat, rep), s)
      == if OccursAt(s, pat, b) then s[..b] + rep + s[b + |pat|..] else s
  {
    var rule := Literal(pat, rep);
    var atB := Global(rule, s, b).text;
    assert ReplaceAll(rule, s) == s[0..b] + atB by {
      LiteralBeforeBackslash(s, b, pat, rep, 0);
    }
    if OccursAt(s, pat, b) {
      LiteralHitAtBackslash(s, b, pat, rep);
      Regrouped(ReplaceAll(rule, s), s[0..b], s[..b], rep, s[b + |pat|..]);
    } else {
      LiteralMissAtBackslash(s, b, pat, rep);
      SplitAt(s, b);
    }
  }

  /** At the only backslash, an occurrence of the pattern is replaced and the
      rest copied. */
  lemma LiteralHitAtBackslash(s: Str, b: nat, pat: Str, rep: Str)
    requires SoleBackslash(s, b) && |pat| > 0 && pat[0] == '\\' && OccursAt(s, pat, b)
    ensures Global(Literal(pat, rep), s, b).text == rep + s[b + |pat|..]
  {
    GlobalMatched(Literal(pat, rep), s, b, Match(b, b + |pat|, []));
    LiteralPastBackslash(s, b, pat, rep, b + |pat|);
  }

  /** ... and without an occurrence everything from it on is copied. */
  lemma LiteralMissAtBackslash(s: Str, b: nat, pat: Str, rep: Str)
    requires SoleBackslash(s, b) && |pat| > 0 && pat[0] == '\\' && !OccursAt(s, pat, b)
    ensures Global(Literal(pat, rep), s, b).text == s[b..]
  {
    GlobalUnmatched(Literal(pat, rep), s, b);
    LiteralPastBackslash(s, b, pat, rep, b + 1);
    ConsSlice(s, b, |s|);
  }

  /** Concatenation regrouped. */
  lemma Regrouped(whole: Str, front: Str, front': Str, mid: Str, tail: Str)
    requires whole == front + (mid + tail) && front == front'
    ensures whole == front' + mid + tail
  {
  }

  /** A text is its two halves at any point. */
  lemma SplitAt(s: Str, b: nat)
    requires b <= |s|
    ensures s[0..b] + s[b..] == s
  {
  }

  /** Regrouping a character, a middle part and a tail. */
  lemma Regroup(whole: Str, c: char, rest: Str, mid: Str, tail: Str, front: Str)
    requires whole == [c] + rest && rest == mid + tail && front == [c] + mid
    ensures whole == front + tail
  {
  }

  /** A slice is its first character followed by the rest. */
  lemma ConsSlice(s: Str, i: nat, j: nat)
    requires i < j <= |s|
    ensures [s[i]] + s[i + 1..j] == s[i..j]
  {
  }

  /** Each named macro is a backslash followed by letters, and its symbol is
      one character other than a backslash. */
  lemma NamedMacro(k: nat)
    requires k < 7
    ensures |Macros[k].0| > 2 && Macros[k].0[0] == '\\' && '\\' !in Macros[k].0[1..]
    ensures |Macros[k].1| == 1 && '\\' !in Macros[k].1
  {
  }

  /** No named macro's pattern is a prefix of a later one's: each pair
      differs in the second or the third character. */
  lemma MacrosDiverge(j: nat, k: nat)
    requires j < k < 7
    ensures Macros[j].0[1] != Macros[k].0[1] || Macros[j].0[2] != Macros[k].0[2]
  {
  }

  /** A pattern that differs from the text at `b` in its second or third
      character does not occur there. */
  lemma Mismatch(s: Str, b: nat, pat: Str, q: Str)
    requires b + |q| <= |s| && s[b..b + |q|] == q && |pat| > 2 && |q| > 2
    requires pat[1] != q[1] || pat[2] != q[2]
    ensures !OccursAt(s, pat, b)
  {
    if b + |pat| <= |s| {
      var w := s[b..b + |pat|];
      assert w[1] == s[b + 1] == q[1] && w[2] == s[b + 2] == q[2];
    }
  }

  /** The pieces of a splice. */
  lemma SpliceParts(u: Str, p: Str, v: Str)
    ensures var s := u + p + v;
      s[..|u|] == u && s[|u|..|u| + |p|] == p && s[|u| + |p|..] == v
  {
  }

  /** Text holding the `k`-th named macro and no other backslash has its
      only backslash where the macro starts. */
  lemma MacroBackslash(u: Str, v: Str, k: nat)
    requires k < 7 && '\\' !in u && '\\' !in v
    ensures SoleBackslash(u + Macros[k].0 + v, |u|)
  {
    var s := u + Macros[k].0 + v;
    var b := |u|;
    NamedMacro(k);
    assert s[b] == '\\';
    forall j | 0 <= j < |s| && j != b ensures s[j] != '\\' {
      if j < b {
        assert s[j] == u[j];
      } else if j < b + |Macros[k].0| {
        assert s[j] == Macros[k].0[1..][j - b - 1];
      } else {
        assert s[j] == v[j - b - |Macros[k].0|];
      }
    }
  }

  /** One link of the chain. */
  lemma ChainStep(s: Str, n: nat)
    requires n < 7
    ensures RewriteMacros(s, Macros[n..])
      == RewriteMacros(ReplaceAll(Literal(Macros[n].0, Macros[n].1), s), Macros[n + 1..])
  {
    assert Macros[n..][0] == Macros[n] && Macros[n..][1..] == Macros[n + 1..];
  }

  /** The rewrite of an earlier macro leaves text holding the `k`-th macro
      and no other backslash unchanged. */
  lemma EarlierMacroMisses(u: Str, v: Str, k: nat, n: nat)
    requires n < k < 7 && '\\' !in u && '\\' !in v
    ensures ReplaceAll(Literal(Macros[n].0, Macros[n].1), u + Macros[k].0 + v) == u + Macros[k].0 + v
  {
    var s := u + Macros[k].0 + v;
    NamedMacro(k);
    NamedMacro(n);
    MacroBackslash(u, v, k);
    SpliceParts(u, Macros[k].0, v);
    MacrosDiverge(n, k);
    Mismatch(s, |u|, Macros[n].0, Macros[k].0);
    LiteralAtSoleBackslash(s, |u|, Macros[n].0, Macros[n].1);
  }

  /** The macro's own rewrite puts its symbol in its place. */
  lemma OwnMacroHits(u: Str, v: Str, k: nat)
    requires k < 7 && '\\' !in u && '\\' !in v
    ensures ReplaceAll(Literal(Macros[k].0, Macros[k].1), u + Macros[k].0 + v) == u + Macros[k].1 + v
  {
    var s := u + Macros[k].0 + v;
    NamedMacro(k);
    MacroBackslash(u, v, k);
    SpliceParts(u, Macros[k].0, v);
    LiteralAtSoleBackslash(s, |u|, Macros[k].0, Macros[k].1);
  }

  /** The rewrites after a macro's own leave backslash-free text alone. */
  lemma LaterMacrosKeep(t: Str, k: nat)
    requires k < 7 && '\\' !in t
    ensures RewriteMacros(t, Macros[k + 1..]) == t
  {
    MacrosOpenWithBackslash();
    assert OpenWithBackslash(Macros[k + 1..]);
  }

  /** From the `n`-th rewrite on, a text holding the `k`-th macro once and
      no other backslash becomes that text with the macro's symbol. */
  lemma {:induction false} MacroChainFrom(u: Str, v: Str, k: nat, n: nat)
    requires n <= k < 7 && '\\' !in u && '\\' !in v
    ensures RewriteMacros(u + Macros[k].0 + v, Macros[n..]) == u + Macros[k].1 + v
    decreases k - n
  {
    var s := u + Macros[k].0 + v;
    ChainStep(s, n);
    if n == k {
      OwnMacroHits(u, v, k);
      NamedMacro(k);
      assert '\\' !in u + Macros[k].1 + v;
      LaterMacrosKeep(u + Macros[k].1 + v, k);
    } else {
      EarlierMacroMisses(u, v, k, n);
      MacroChainFrom(u, v, k, n + 1);
    }
  }

  /** Conversion of LaTeX notation: an occurrence of one of the seven named
      macros, in text with no other backslash, becomes the macro's symbol
      and the rest of the text is kept. */
  lemma MacroBecomesSymbol(u: Str, v: Str, k: nat)
    requires k < 7 && '\\' !in u && '\\' !in v
    ensures RewriteMacros(u + Macros[k].0 + v, Macros) == u + Macros[k].1 + v
  {
    assert Macros[0..] == Macros;
    MacroChainFrom(u, v, k, 0);
  }

  /** The characters of `t` that are not white space, in order. */
  function NonSpace(t: Str): Str {
    if |t| == 0 then []
    else if IsSpace(t[0]) then NonSpace(t[1..])
    else [t[0]] + NonSpace(t[1..])
  }

  lemma {:induction false} NonSpaceConcat(a: Str, b: Str)
    ensures NonSpace(a + b) == NonSpace(a) + NonSpace(b)
  {
    if |a| > 0 {
      assert (a + b)[0] == a[0];
      assert (a + b)[1..] == a[1..] + b;
      NonSpaceConcat(a[1..], b);
      if IsSpace(a[0]) {
        assert NonSpace(a + b) == NonSpace(a[1..] + b);
      } else {
        assert NonSpace(a + b) == [a[0]] + NonSpace(a[1..] + b);
      }
    } else {
      assert a + b == b;
    }
  }

  /** `trim` removes white space only. */
  lemma TrimNonSpace(s: Str)
    ensures NonSpace(Trim(s)) == NonSpace(s)
  {
    var r := Trim(s);
    var l := LeadingSpaces(s);
    var u := s[l..];
    NonSpaceSkipsRun(s, 0, l);
    assert s[0..] == s;
    assert r == u[..|r|];
    NonSpaceDropsTail(u, |r|);
  }

  /** White space at the tail does not count. */
  lemma NonSpaceDropsTail(u: Str, m: nat)
    requires m <= |u|
    requires forall k :: m <= k < |u| ==> IsSpace(u[k])
    ensures NonSpace(u) == NonSpace(u[..m])
  {
    assert u == u[..m] + u[m..];
    NonSpaceConcat(u[..m], u[m..]);
    NonSpaceSkipsRun(u, m, |u|);
    assert u[|u|..] == [];
  }
  /** The white-space collapse replaces white space by white space only. */
  lemma {:induction false} WhiteRunNonSpace(s: Str, i: nat)
    requires i <= |s|
    ensures NonSpace(Global(WhiteRun, s, i).text) == NonSpace(s[i..])
    decreases |s| - i
  {
    if i < |s| {
      if IsSpace(s[i]) {
        var e := RunEnd(s, i, Space);
        WhiteRunNonSpace(s, e);
        WhiteRunBlankStep(s, i, e);
      } else {
        WhiteRunNonSpace(s, i + 1);
        WhiteRunKeptStep(s, i);
      }
    }
  }

  /** A run of white space becomes one blank. */
  lemma WhiteRunBlankStep(s: Str, i: nat, e: nat)
    requires i < |s| && IsSpace(s[i]) && e == RunEnd(s, i, Space)
    requires NonSpace(Global(WhiteRun, s, e).text) == NonSpace(s[e..])
    ensures NonSpace(Global(WhiteRun, s, i).text) == NonSpace(s[i..])
  {
    assert MatchAt(WhiteRun, s, i) == Some(Match(i, e, []));
    GlobalMatched(WhiteRun, s, i, Match(i, e, []));
    var rest := Global(WhiteRun, s, e).text;
    assert Global(WhiteRun, s, i).text == " " + rest;
    NonSpaceConcat(" ", rest);
    assert NonSpace(" ") == [];
    NonSpaceSkipsRun(s, i, e);
  }

  /** White space at the head of a suffix does not count. */
  lemma {:induction false} NonSpaceSkipsRun(s: Str, i: nat, e: nat)
    requires i <= e <= |s|
    requires forall k :: i <= k < e ==> InClass(s[k], Space)
    ensures NonSpace(s[i..]) == NonSpace(s[e..])
    decreases e - i
  {
    if i < e {
      assert InClass(s[i], Space);
      NonSpaceHead(s, i);
      NonSpaceSkipsRun(s, i + 1, e);
    }
  }
  /** Any other character is copied. */
  lemma WhiteRunKeptStep(s: Str, i: nat)
    requires i < |s| && !IsSpace(s[i])
    requires NonSpace(Global(WhiteRun, s, i + 1).text) == NonSpace(s[i + 1..])
    ensures NonSpace(Global(WhiteRun, s, i).text) == NonSpace(s[i..])
  {
    GlobalUnmatched(WhiteRun, s, i);
    var rest := Global(WhiteRun, s, i + 1).text;
    NonSpaceConcat([s[i]], rest);
    NonSpaceHead(s, i);
  }

  /** `NonSpace` on a suffix, one character at a time. */
  lemma NonSpaceHead(s: Str, i: nat)
    requires i < |s|
    ensures NonSpace(s[i..]) == (if IsSpace(s[i]) then [] else [s[i]]) + NonSpace(s[i + 1..])
  {
    assert s[i..][1..] == s[i + 1..];
  }

  /** Collapsed text has nothing to trim. */
  lemma TrimCollapsed(s: Str)
    requires Collapsed(s)
    ensures Trim(s) == s
  {
    var r := Trim(s);
    if |s| > 0 {
      assert !IsSpace(s[0]);
      assert !IsSpace(s[|s| - 1]);
    }
  }

  /** On collapsed text the white-space collapse changes nothing. */
  lemma {:induction false} WhiteRunCollapsed(s: Str, i: nat)
    requires Collapsed(s) && i <= |s|
    ensures Global(WhiteRun, s, i).text == s[i..]
    decreases |s| - i
  {
    if i < |s| {
      WhiteRunCollapsed(s, i + 1);
      if IsSpace(s[i]) {
        WhiteRunBlankKept(s, i);
      } else {
        GlobalUnmatched(WhiteRun, s, i);
        assert s[i..] == [s[i]] + s[i + 1..];
      }
    }
  }

  /** A single blank before a character that is not white space is kept. */
  lemma WhiteRunBlankKept(s: Str, i: nat)
    requires i + 1 < |s| && s[i] == ' ' && !IsSpace(s[i + 1])
    requires Global(WhiteRun, s, i + 1).text == s[i + 1..]
    ensures Global(WhiteRun, s, i).text == s[i..]
  {
    assert RunEnd(s, i + 1, Space) == i + 1;
    assert RunEnd(s, i, Space) == i + 1;
    var m := Match(i, i + 1, []);
    assert MatchAt(WhiteRun, s, i) == Some(m);
    GlobalMatched(WhiteRun, s, i, m);
    assert Replacement(WhiteRun, m) == " ";
    assert s[i..] == " " + s[i + 1..];
  }

  /** Collapsing collapsed text gives it back. */
  lemma CollapseFixed(s: Str)
    ensures Collapsed(s) ==> ReplaceAll(WhiteRun, Trim(s)) == s
  {
    if Collapsed(s) {
      TrimCollapsed(s);
      WhiteRunCollapsed(s, 0);
      assert s[0..] == s;
    }
  }

  /** `new FormulaParser(formula).parseFormula()`: the constructor's `trim`,
      then the white-space collapse, then the macro rewrites. */
  function ParseFormula(formula: Str): (r: ParsedFormula)
    ensures Collapsed(r.original)
    ensures '\\' !in r.processed
    ensures r.formulaType == FirstOrder <==> (FORALL in r.processed || EXISTS in r.processed)
    ensures '\\' !in formula ==> r.processed == r.original
    ensures NonSpace(r.original) == NonSpace(formula)
    ensures Collapsed(formula) ==> r.original == formula
    ensures r.original == Join(Words(formula), " ")
  {
    var original := ReplaceAll(WhiteRun, Trim(formula));
    CleanedText(formula);
    MacrosOpenWithBackslash();
    var processed := RewriteMacros(original, Macros);
    ParsedFormula(original, processed, DetectFormulaType(processed))
  }

  /** What is spliced in occurs in the result. */
  lemma SymbolIn(u: Str, c: Str, v: Str)
    requires |c| > 0
    ensures c[0] in u + c + v
  {
    assert (u + c + v)[|u|] == c[0];
  }

  /** On clean text holding one named macro and no other backslash,
      `parseFormula` keeps the text as `original`, puts the macro's symbol in
      its place in `processed`, and a quantifier macro (`\forall`,
      `\exists`) makes the formula first-order. */
  lemma ParseMacro(u: Str, v: Str, k: nat)
    requires k < 7 && '\\' !in u && '\\' !in v
    ensures var s := u + Macros[k].0 + v;
      Collapsed(s) ==>
        && ParseFormula(s).original == s
        && ParseFormula(s).processed == u + Macros[k].1 + v
        && (k < 2 ==> ParseFormula(s).formulaType == FirstOrder)
  {
    var s := u + Macros[k].0 + v;
    if Collapsed(s) {
      CollapseFixed(s);
      MacroBecomesSymbol(u, v, k);
      NamedMacro(k);
      SymbolIn(u, Macros[k].1, v);
      if k == 0 {
        assert Macros[0].1 == [FORALL];
      } else if k == 1 {
        assert Macros[1].1 == [EXISTS];
      }
    }
  }

  /** Length of the run of characters other than white space that starts `s`. */
  function WordLen(s: Str): (n: nat)
    ensures n <= |s|
    ensures forall k :: 0 <= k < n ==> !IsSpace(s[k])
    ensures n == |s| || IsSpace(s[n])
    decreases |s|
  {
    if |s| == 0 || IsSpace(s[0]) then 0 else 1 + WordLen(s[1..])
  }

  /** The words of `s`: its maximal runs of characters other than white
      space, in order. */
  function Words(s: Str): seq<Str>
    decreases |s|
  {
    if |s| == 0 then []
    else if IsSpace(s[0]) then Words(s[1..])
    else var n := WordLen(s); [s[..n]] + Words(s[n..])
  }

  /** Every word is non-empty and holds no white space. */
  lemma {:induction false} WordsShape(s: Str)
    ensures forall w :: w in Words(s) ==> |w| > 0 && forall k :: 0 <= k < |w| ==> !IsSpace(w[k])
    decreases |s|
  {
    if |s| == 0 {
    } else if IsSpace(s[0]) {
      WordsShape(s[1..]);
    } else {
      WordsShape(s[WordLen(s)..]);
    }
  }

  /** White space starts no word. */
  lemma {:induction false} WordsSkipSpaces(s: Str, i: nat, e: nat)
    requires i <= e <= |s| && forall k :: i <= k < e ==> IsSpace(s[k])
    ensures Words(s[i..]) == Words(s[e..])
    decreases e - i
  {
    if i < e {
      assert s[i..][1..] == s[i + 1..];
      WordsSkipSpaces(s, i + 1, e);
    }
  }

  /** The word that starts at `i`, followed by the words after it. */
  lemma WordsAt(s: Str, i: nat, j: nat)
    requires i < |s| && !IsSpace(s[i]) && j == i + WordLen(s[i..])
    ensures j <= |s| && Words(s[i..]) == [s[i..j]] + Words(s[j..])
  {
    var n := WordLen(s[i..]);
    assert s[i..][..n] == s[i..i + n];
    assert s[i..][n..] == s[i + n..];
  }

  /** Text that does not end in white space has a word from every position on. */
  lemma {:induction false} WordsNonEmpty(s: Str, i: nat)
    requires i < |s| && !IsSpace(s[|s| - 1])
    ensures Words(s[i..]) != []
    decreases |s| - i
  {
    if IsSpace(s[i]) {
      assert s[i..][1..] == s[i + 1..];
      WordsNonEmpty(s, i + 1);
    } else {
      WordsAt(s, i, i + WordLen(s[i..]));
    }
  }

  /** A word ends where white space follows, whatever comes after. */
  lemma {:induction false} WordLenStops(y: Str, z: Str)
    requires |z| == 0 || IsSpace(z[0])
    ensures WordLen(y + z) == WordLen(y)
    decreases |y|
  {
    if |y| == 0 {
      assert y + z == z;
    } else if !IsSpace(y[0]) {
      assert (y + z)[1..] == y[1..] + z;
      WordLenStops(y[1..], z);
    }
  }

  /** White space at the end starts no word. */
  lemma {:induction false} WordsTrailing(y: Str, z: Str)
    requires forall k :: 0 <= k < |z| ==> IsSpace(z[k])
    ensures Words(y + z) == Words(y)
    decreases |y|
  {
    if |y| == 0 {
      assert y + z == z && z[0..] == z && z[|z|..] == [];
      WordsSkipSpaces(z, 0, |z|);
    } else if IsSpace(y[0]) {
      assert (y + z)[1..] == y[1..] + z;
      WordsTrailing(y[1..], z);
    } else {
      var n := WordLen(y);
      WordLenStops(y, z);
      assert (y + z)[..n] == y[..n] && (y + z)[n..] == y[n..] + z;
      WordsTrailing(y[n..], z);
    }
  }

  /** What `trim` removes starts no word. */
  lemma WordsTrim(s: Str)
    ensures Words(Trim(s)) == Words(s)
  {
    var l := LeadingSpaces(s);
    var r := Trim(s);
    WordsSkipSpaces(s, 0, l);
    assert s[0..] == s;
    var z := s[l + |r|..];
    assert s[l..] == r + z;
    assert forall k :: 0 <= k < |z| ==> IsSpace(z[k]) by {
      forall k | 0 <= k < |z| ensures IsSpace(z[k]) {
        assert z[k] == s[l + |r| + k];
      }
    }
    WordsTrailing(r, z);
  }

  /** `/\s+/g` → `' '` copies a character other than white space. */
  lemma WhiteRunCopiesChar(s: Str, i: nat)
    requires i < |s| && !IsSpace(s[i])
    ensures Global(WhiteRun, s, i).text == [s[i]] + Global(WhiteRun, s, i + 1).text
  {
    assert MatchAt(WhiteRun, s, i).None?;
    GlobalUnmatched(WhiteRun, s, i);
  }

  /** `/\s+/g` → `' '` copies a word. */
  lemma {:induction false} WhiteRunCopiesWord(s: Str, i: nat, j: nat)
    requires i <= j <= |s| && forall k :: i <= k < j ==> !IsSpace(s[k])
    ensures Global(WhiteRun, s, i).text == s[i..j] + Global(WhiteRun, s, j).text
    decreases j - i
  {
    if i < j {
      var whole, rest, tail := Global(WhiteRun, s, i).text, Global(WhiteRun, s, i + 1).text, Global(WhiteRun, s, j).text;
      assert whole == [s[i]] + rest by {
        assert !IsSpace(s[i]);
        WhiteRunCopiesChar(s, i);
      }
      assert rest == s[i + 1..j] + tail by {
        WhiteRunCopiesWord(s, i + 1, j);
      }
      assert [s[i]] + s[i + 1..j] == s[i..j] by { ConsSlice(s, i, j); }
      Regroup(whole, s[i], rest, s[i + 1..j], tail, s[i..j]);
    }
  }

  /** Joining in front of further parts puts the separator between. */
  lemma JoinCons(w: Str, ws: seq<Str>, sep: Str)
    requires |ws| > 0
    ensures Join([w] + ws, sep) == w + sep + Join(ws, sep)
  {
    assert ([w] + ws)[1..] == ws;
  }

  /** On text that does not end in white space, `/\s+/g` → `' '` from
      position `i` on gives the words joined by single blanks, after one
      blank when a white-space run starts at `i`. */
  lemma {:induction false} WhiteRunWords(s: Str, i: nat)
    requires i <= |s| && (|s| == 0 || !IsSpace(s[|s| - 1]))
    ensures Global(WhiteRun, s, i).text
      == (if i < |s| && IsSpace(s[i]) then " " else "") + Join(Words(s[i..]), " ")
    decreases |s| - i, 2
  {
    if i == |s| {
      assert NoMatchFrom(WhiteRun, s, i);
      assert s[i..] == [];
    } else if IsSpace(s[i]) {
      WhiteRunWordsAtSpace(s, i);
    } else {
      WhiteRunWordsAtWord(s, i);
    }
  }

  /** ... at a white-space run: one blank, then the words after the run. */
  lemma {:induction false} WhiteRunWordsAtSpace(s: Str, i: nat)
    requires i < |s| && !IsSpace(s[|s| - 1]) && IsSpace(s[i])
    ensures Global(WhiteRun, s, i).text == " " + Join(Words(s[i..]), " ")
    decreases |s| - i, 1
  {
    var e := RunEnd(s, i, Space);
    assert Global(WhiteRun, s, i).text == " " + Global(WhiteRun, s, e).text by {
      GlobalMatched(WhiteRun, s, i, Match(i, e, []));
    }
    assert Global(WhiteRun, s, e).text == Join(Words(s[e..]), " ") by {
      WhiteRunWords(s, e);
    }
    WordsSkipSpaces(s, i, e);
  }

  /** ... at a word: the word, then what follows it. */
  lemma {:induction false} WhiteRunWordsAtWord(s: Str, i: nat)
    requires i < |s| && !IsSpace(s[|s| - 1]) && !IsSpace(s[i])
    ensures Global(WhiteRun, s, i).text == Join(Words(s[i..]), " ")
    decreases |s| - i, 1
  {
    var j := i + WordLen(s[i..]);
    WordSpan(s, i);
    var word := s[i..j];
    var after := Global(WhiteRun, s, j).text;
    assert Global(WhiteRun, s, i).text == word + after by {
      WhiteRunCopiesWord(s, i, j);
    }
    assert Words(s[i..]) == [word] + Words(s[j..]) by {
      WordsAt(s, i, j);
    }
    if j < |s| {
      assert after == " " + Join(Words(s[j..]), " ") by {
        WhiteRunWords(s, j);
      }
      assert Join([word] + Words(s[j..]), " ") == word + " " + Join(Words(s[j..]), " ") by {
        WordsNonEmpty(s, j);
        JoinCons(word, Words(s[j..]), " ");
      }
      Regrouped(Global(WhiteRun, s, i).text, word, word, " ", Join(Words(s[j..]), " "));
    } else {
      assert after == [] by {
        assert NoMatchFrom(WhiteRun, s, j);
      }
      assert Words(s[j..]) == [] by {
        assert s[j..] == [];
      }
      assert word + after == word;
    }
  }

  /** The word starting at `i` ends at white space or at the end of the text. */
  lemma WordSpan(s: Str, i: nat)
    requires i <= |s|
    ensures var j := i + WordLen(s[i..]);
      && j <= |s|
      && (forall k :: i <= k < j ==> !IsSpace(s[k]))
      && (j < |s| ==> IsSpace(s[j]))
  {
    var j := i + WordLen(s[i..]);
    forall k | i <= k < j ensures !IsSpace(s[k]) {
      assert s[k] == s[i..][k - i];
    }
    if j < |s| {
      assert s[j] == s[i..][j - i];
    }
  }

  /** Trimming and then collapsing white space joins the words of the text
      with single blanks. */
  lemma CleanedWords(s: Str)
    ensures ReplaceAll(WhiteRun, Trim(s)) == Join(Words(s), " ")
  {
    var r := Trim(s);
    WhiteRunWords(r, 0);
    assert r[0..] == r;
    WordsTrim(s);
  }

  /** What trimming and collapsing white space make of the input. */
  lemma CleanedText(formula: Str)
    ensures var original := ReplaceAll(WhiteRun, Trim(formula));
      && Collapsed(original)
      && NonSpace(original) == NonSpace(formula)
      && (Collapsed(formula) ==> original == formula)
      && ('\\' !in formula ==> '\\' !in original)
      && original == Join(Words(formula), " ")
  {
    CleanedWords(formula);
    CollapseTrimmed(formula);
    TrimNonSpace(formula);
    WhiteRunNonSpace(Trim(formula), 0);
    assert Trim(formula)[0..] == Trim(formula);
    CollapseFixed(formula);
    if '\\' !in formula {
      GlobalLacks(WhiteRun, Trim(formula), 0, '\\');
    }
  }
}
