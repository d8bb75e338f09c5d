/** Concrete runs of the stage functions that show how the rewriting loops
    of script.js behave on small inputs. */
module Scenarios {
  import opened Text
  import opened Regex
  import opened Stages
  import Parser

  /** The leftmost implication of `P→Q→R` is `P→Q`. */
  lemma ChainedFirstStep()
    ensures FirstMatch(Implication, "P→Q→R", 0) == Some(Match(0, 3, ["P", "Q"]))
    ensures ReplaceFirstMatch(Implication, "P→Q→R") == "(¬P∨Q)→R"
  {
    var s := "P→Q→R";
    var cls := NoneOf({IMPLIES, '(', ')'});
    assert s[0] == 'P' && s[1] == IMPLIES && s[2] == 'Q' && s[3] == IMPLIES && |s| == 5;
    assert RunEnd(s, 1, cls) == 1;
    assert RunEnd(s, 0, cls) == 1;
    assert RunEnd(s, 3, cls) == 3;
    assert RunEnd(s, 2, cls) == 3;
    assert s[0..1] == "P" && s[2..3] == "Q";
    assert EliminationMatch(s, 0, IMPLIES) == Some(Match(0, 3, ["P", "Q"]));
    assert MatchAt(Implication, s, 0) == Some(Match(0, 3, ["P", "Q"]));
    FirstMatchAt(Implication, s, 0, Match(0, 3, ["P", "Q"]));
  }

  /** After that step no operand is followed by `→`: the right-hand side of the
      arrow is a closing parenthesis. */
  lemma ChainedStuck()
    ensures NoMatch(Implication, "(¬P∨Q)→R")
  {
    var t := "(¬P∨Q)→R";
    var cls := NoneOf({IMPLIES, '(', ')'});
    forall k | 0 <= k <= |t| ensures MatchAt(Implication, t, k).None? {
      if 1 <= k <= 4 {
        assert RunEnd(t, k, cls) == 5;
      }
    }
  }

  /** `eliminateImplications` never returns on a chain of two implications:
      after the first rewrite `→` still occurs but the pattern no longer
      matches, so the `while` loop repeats a no-op. */
  lemma ChainedImplicationSpins()
    ensures Eliminate(Implication, "P→Q→R") == Diverges("(¬P∨Q)→R")
  {
    ChainedFirstStep();
    ChainedStuck();
    var t := "(¬P∨Q)→R";
    assert IMPLIES in t by { assert t[6] == IMPLIES; }
    assert FirstMatch(Implication, t, 0).None?;
    assert Eliminate(Implication, t) == Diverges(t);
  }

  /** `parseFormula` turns `\exists x P(x)` into `∃ x P(x)` and tags it
      first-order; the input is already clean, so `original` is the input. */
  lemma ParsedSpacedExistential()
    ensures Parser.ParseFormula("\\exists x P(x)")
      == Parser.ParsedFormula("\\exists x P(x)", "∃ x P(x)", Parser.FirstOrder)
  {
    var s := "\\exists x P(x)";
    var rest := " x P(x)";
    SpacedExistentialText();
    Parser.MacroBecomesSymbol("", rest, 1);
    SpacedExistentialClean();
    Parser.CollapseFixed(s);
    assert "∃ x P(x)"[0] == EXISTS;
  }

  /** The pieces `\exists x P(x)` is made of. */
  lemma SpacedExistentialText()
    ensures "\\exists x P(x)" == "" + Parser.Macros[1].0 + " x P(x)"
    ensures '\\' !in " x P(x)"
    ensures "" + Parser.Macros[1].1 + " x P(x)" == "∃ x P(x)"
  {
    assert Parser.Macros[1] == ("\\exists", "∃");
  }

  /** `\exists x P(x)` has single blanks between non-blanks only. */
  lemma SpacedExistentialClean()
    ensures Parser.Collapsed("\\exists x P(x)")
  {
    var s := "\\exists x P(x)";
    forall k | 0 <= k < |s| && IsSpace(s[k])
      ensures s[k] == ' ' && 0 < k && k + 1 < |s| && !IsSpace(s[k + 1])
    {
      assert k == 7 || k == 9;
    }
  }

  /** `parseFormula` keeps one blank for each inner run of white space:
      ` a  b ` becomes `a b`, not `ab`. */
  lemma DoubleBlankKept()
    ensures Parser.ParseFormula(" a  b ").original == "a b"
  {
    DoubleBlankWords();
    assert Join(["a", "b"], " ") == "a b" by {
      Parser.JoinCons("a", ["b"], " ");
    }
  }

  /** The words of ` a  b `. */
  lemma DoubleBlankWords()
    ensures Parser.Words(" a  b ") == ["a", "b"]
  {
    var s := " a  b ";
    assert !IsSpace(s[1]) && !IsSpace(s[4]) && IsSpace(s[0]) && IsSpace(s[2]) && IsSpace(s[3]) && IsSpace(s[5]);
    assert Parser.Words(s[5..]) == [] by {
      assert s[5..][1..] == [];
    }
    assert Parser.Words(s[4..]) == ["b"] by {
      assert Parser.WordLen(s[4..]) == 1 by {
        assert s[4..][1..] == s[5..];
      }
      assert s[4..][..1] == "b" && s[4..][1..] == s[5..];
    }
    assert Parser.Words(s[1..]) == ["a"] + Parser.Words(s[2..]) by {
      assert Parser.WordLen(s[1..]) == 1 by {
        assert s[1..][1..] == s[2..];
      }
      assert s[1..][..1] == "a" && s[1..][1..] == s[2..];
    }
    assert Parser.Words(s[2..]) == Parser.Words(s[4..]) by {
      assert s[2..][1..] == s[3..] && s[3..][1..] == s[4..];
    }
    assert s[0..][1..] == s[1..];
  }

  /** `skolemize` never returns on `∃ x P(x)`, the processed text of
      `\exists x P(x)`: `∃` is not followed by a word character, so the
      pattern `∃(\w+)` never matches while `∃` remains. */
  lemma SpacedExistentialSpins()
    ensures Skolemize("∃ x P(x)") == Diverges("∃ x P(x)")
  {
    var s := "∃ x P(x)";
    forall k | 0 <= k <= |s| ensures MatchAt(Existential, s, k).None? {
    }
    assert s[0] == EXISTS;
    assert FirstMatch(Existential, s, 0).None?;
  }

  /** The renaming to a Skolem constant is lost: `∃x` is deleted and the
      variable `x` is left in place. */
  lemma VariableKept()
    ensures Skolemize("∃x P(x)") == Done(" P(x)")
  {
    var s := "∃x P(x)";
    SampleExistential();
    assert s[0] == EXISTS;
    SkolemizeStep(s);
    SampleDeletion();
    assert DeleteFirstExistential(s) == " P(x)";
    assert Skolemize(" P(x)") == Done(" P(x)");
  }

  /** Deleting `∃x` from `∃x P(x)` leaves no `∃`. */
  lemma SampleDeletion()
    ensures "∃x P(x)"[..0] + "∃x P(x)"[2..] == " P(x)" && EXISTS !in " P(x)"
  {
    var s, t := "∃x P(x)", " P(x)";
    assert s[2..] == t;
    assert forall k :: 0 <= k < |t| ==> t[k] != EXISTS;
  }

  /** `∃(\w+)` matches `∃x` at the start of `∃x P(x)`. */
  lemma SampleExistential()
    ensures FirstMatch(Existential, "∃x P(x)", 0) == Some(Match(0, 2, ["x"]))
  {
    var s := "∃x P(x)";
    assert s[0] == EXISTS && s[1] == 'x' && s[2] == ' ';
    assert RunEnd(s, 2, Word) == 2;
    assert RunEnd(s, 1, Word) == 2;
    assert s[1..2] == "x";
    assert QuantifierMatch(s, 0, {EXISTS}) == Some(Match(0, 2, [[EXISTS], "x"]));
    assert ExistentialMatch(s, 0) == Some(Match(0, 2, ["x"]));
    assert MatchAt(Existential, s, 0) == Some(Match(0, 2, ["x"]));
    FirstMatchAt(Existential, s, 0, Match(0, 2, ["x"]));
  }

  /** Removing the universals leaves `∀ x` unchanged: `∀\w+\s*` needs a word
      character right after `∀`, so the `∀` of `∀ x` stays. */
  lemma SpacedUniversalKept()
    ensures RemoveUniversals("∀ x") == "∀ x"
    ensures FORALL in RemoveUniversals("∀ x")
  {
    var s := "∀ x";
    assert s[0] == FORALL && s[1] == ' ';
    forall k | 0 <= k <= |s| ensures MatchAt(Universal, s, k).None? {
    }
  }
}
