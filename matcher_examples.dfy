/**
 * Messages the phrase detector accepts and rejects. Each is worked through
 * with the scanner (`Greedy` at the positions it visits) or derived from the
 * general facts in `Matcher` (case, context, interchangeable punctuation).
 */
module MatcherExamples {
  import opened Matcher

  /** Where the scanner's first runs and separators end. */
  lemma PlainPhraseRunsHead()
    ensures var s := "sushi masa";
    RunEnd(S, s, 0) == 1 && SpaceEnd(s, 1) == 1 &&
    RunEnd(U, s, 1) == 2 && SpaceEnd(s, 2) == 2 &&
    RunEnd(S, s, 2) == 3 && SpaceEnd(s, 3) == 3 &&
    RunEnd(H, s, 3) == 4 && SpaceEnd(s, 4) == 4 &&
    RunEnd(I, s, 4) == 5 && SpaceEnd(s, 5) == 6
  {
  }

  /** Where the remaining runs and separators end. */
  lemma PlainPhraseRunsTail()
    ensures var s := "sushi masa";
    RunEnd(M, s, 6) == 7 && SpaceEnd(s, 7) == 7 &&
    RunEnd(A, s, 7) == 8 && SpaceEnd(s, 8) == 8 &&
    RunEnd(S, s, 8) == 9 && SpaceEnd(s, 9) == 9 &&
    RunEnd(A, s, 9) == 10
  {
  }

  /** The phrase itself. */
  lemma PlainPhrase()
    ensures Matches("sushi masa")
  {
    PlainPhraseRunsHead();
    PlainPhraseRunsTail();
    GreedyMatch("sushi masa", 0);
  }

  lemma UpperCaseFolds()
    ensures |"SUSHI MASA"| == |"sushi masa"|
    ensures forall k | 0 <= k < |"SUSHI MASA"| :: Fold("SUSHI MASA"[k]) == Fold("sushi masa"[k])
  {
  }

  lemma UpperCasePhrase()
    ensures Matches("SUSHI MASA")
  {
    PlainPhrase();
    UpperCaseFolds();
    CaseInsensitive("SUSHI MASA", "sushi masa");
  }

  lemma SentenceParts()
    ensures "lol " + "sushi masa" + " tonight" == "lol sushi masa tonight"
  {
  }

  /** The phrase inside a longer message. */
  lemma PhraseInSentence()
    ensures Matches("lol sushi masa tonight")
  {
    PlainPhrase();
    MatchInContext("lol ", "sushi masa", " tonight");
    SentenceParts();
  }

  /** Text right after the final a does not prevent the match. */
  lemma TrailingLetter()
    ensures Matches("sushi masas")
  {
    PlainPhrase();
    MatchInContext("", "sushi masa", "s");
    TrailingParts();
  }

  lemma TrailingParts()
    ensures "" + "sushi masa" + "s" == "sushi masas"
  {
  }

  /** Where the scanner's first runs and separators end. */
  lemma NoSeparatorRunsHead()
    ensures var s := "sushimasa";
    RunEnd(S, s, 0) == 1 && SpaceEnd(s, 1) == 1 &&
    RunEnd(U, s, 1) == 2 && SpaceEnd(s, 2) == 2 &&
    RunEnd(S, s, 2) == 3 && SpaceEnd(s, 3) == 3 &&
    RunEnd(H, s, 3) == 4 && SpaceEnd(s, 4) == 4 &&
    RunEnd(I, s, 4) == 5 && SpaceEnd(s, 5) == 5
  {
  }

  /** Where the remaining runs and separators end. */
  lemma NoSeparatorRunsTail()
    ensures var s := "sushimasa";
    RunEnd(M, s, 5) == 6 && SpaceEnd(s, 6) == 6 &&
    RunEnd(A, s, 6) == 7 && SpaceEnd(s, 7) == 7 &&
    RunEnd(S, s, 7) == 8 && SpaceEnd(s, 8) == 8 &&
    RunEnd(A, s, 8) == 9
  {
  }

  /** Whitespace between the groups is optional. */
  lemma NoSeparator()
    ensures Matches("sushimasa")
  {
    NoSeparatorRunsHead();
    NoSeparatorRunsTail();
    GreedyMatch("sushimasa", 0);
  }

  /** Where the scanner's first runs and separators end. */
  lemma SpacedLettersRunsHead()
    ensures var s := "s u s h i  m a s a";
    RunEnd(S, s, 0) == 1 && SpaceEnd(s, 1) == 2 &&
    RunEnd(U, s, 2) == 3 && SpaceEnd(s, 3) == 4 &&
    RunEnd(S, s, 4) == 5 && SpaceEnd(s, 5) == 6
  {
  }

  /** Where the runs of h and i and the wider gap after them end. */
  lemma SpacedLettersRunsMiddle()
    ensures var s := "s u s h i  m a s a";
    RunEnd(H, s, 6) == 7 && SpaceEnd(s, 7) == 8 &&
    RunEnd(I, s, 8) == 9 && SpaceEnd(s, 9) == 11
  {
  }

  /** Where the remaining runs and separators end. */
  lemma SpacedLettersRunsTail()
    ensures var s := "s u s h i  m a s a";
    RunEnd(M, s, 11) == 12 && SpaceEnd(s, 12) == 13 &&
    RunEnd(A, s, 13) == 14 && SpaceEnd(s, 14) == 15 &&
    RunEnd(S, s, 15) == 16 && SpaceEnd(s, 16) == 17 &&
    RunEnd(A, s, 17) == 18
  {
  }

  /** Any amount of whitespace may separate the groups. */
  lemma SpacedLetters()
    ensures Matches("s u s h i  m a s a")
  {
    SpacedLettersRunsHead();
    SpacedLettersRunsMiddle();
    SpacedLettersRunsTail();
    GreedyMatch("s u s h i  m a s a", 0);
  }

  /** Where the scanner's first runs and separators end. */
  lemma LongRunsRunsHead()
    ensures var s := "ssuushiii maasa";
    RunEnd(S, s, 0) == 2 && SpaceEnd(s, 2) == 2 &&
    RunEnd(U, s, 2) == 4 && SpaceEnd(s, 4) == 4 &&
    RunEnd(S, s, 4) == 5 && SpaceEnd(s, 5) == 5 &&
    RunEnd(H, s, 5) == 6 && SpaceEnd(s, 6) == 6 &&
    RunEnd(I, s, 6) == 9 && SpaceEnd(s, 9) == 10
  {
  }

  /** Where the remaining runs and separators end. */
  lemma LongRunsRunsTail()
    ensures var s := "ssuushiii maasa";
    RunEnd(M, s, 10) == 11 && SpaceEnd(s, 11) == 11 &&
    RunEnd(A, s, 11) == 13 && SpaceEnd(s, 13) == 13 &&
    RunEnd(S, s, 13) == 14 && SpaceEnd(s, 14) == 14 &&
    RunEnd(A, s, 14) == 15
  {
  }

  /** Each group takes one or more characters of its class. */
  lemma LongRuns()
    ensures Matches("ssuushiii maasa")
  {
    LongRunsRunsHead();
    LongRunsRunsTail();
    GreedyMatch("ssuushiii maasa", 0);
  }

  /** Where the scanner's first runs and separators end. */
  lemma SymbolsAfterWordRunsHead()
    ensures var s := "a$u$#1 nna$4";
    RunEnd(S, s, 1) == 2 && SpaceEnd(s, 2) == 2 &&
    RunEnd(U, s, 2) == 3 && SpaceEnd(s, 3) == 3 &&
    RunEnd(S, s, 3) == 4 && SpaceEnd(s, 4) == 4 &&
    RunEnd(H, s, 4) == 5 && SpaceEnd(s, 5) == 5 &&
    RunEnd(I, s, 5) == 6 && SpaceEnd(s, 6) == 7
  {
  }

  /** Where the remaining runs and separators end. */
  lemma SymbolsAfterWordRunsTail()
    ensures var s := "a$u$#1 nna$4";
    RunEnd(M, s, 7) == 9 && SpaceEnd(s, 9) == 9 &&
    RunEnd(A, s, 9) == 10 && SpaceEnd(s, 10) == 10 &&
    RunEnd(S, s, 10) == 11 && SpaceEnd(s, 11) == 11 &&
    RunEnd(A, s, 11) == 12
  {
  }

  /** Look-alike symbols and `nn` for m; the `\\b` before '$' needs the word character before it. */
  lemma SymbolsAfterWord()
    ensures Matches("a$u$#1 nna$4")
  {
    SymbolsAfterWordRunsHead();
    SymbolsAfterWordRunsTail();
    GreedyMatch("a$u$#1 nna$4", 1);
  }

  /** Where the scanner's runs and separators end at the starts that get past the first group. */
  lemma SymbolsAloneRuns()
    ensures var s := "$u$#1 nna$4";
    RunEnd(S, s, 2) == 3 && SpaceEnd(s, 3) == 3 &&
    RunEnd(U, s, 3) == 3 && RunEnd(S, s, 9) == 10 &&
    SpaceEnd(s, 10) == 10 && RunEnd(U, s, 10) == 10
  {
  }

  /** At the start of a message '$' has no word boundary before it. */
  lemma SymbolsAlone()
    ensures !Matches("$u$#1 nna$4")
  {
    SymbolsAloneRuns();
    assert !ScanFrom("$u$#1 nna$4", 0);
    assert !Search("$u$#1 nna$4");
  }

  /** Where the scanner's runs and separators end at the starts that get past the first group. */
  lemma DashBetweenRuns()
    ensures var s := "sushi-masa";
    RunEnd(S, s, 0) == 1 && SpaceEnd(s, 1) == 1 &&
    RunEnd(U, s, 1) == 2 && SpaceEnd(s, 2) == 2 &&
    RunEnd(S, s, 2) == 3 && SpaceEnd(s, 3) == 3 &&
    RunEnd(H, s, 3) == 4 && SpaceEnd(s, 4) == 4 &&
    RunEnd(I, s, 4) == 5 && SpaceEnd(s, 5) == 5 &&
    RunEnd(M, s, 5) == 5
  {
  }

  /** Punctuation between the groups breaks the phrase. */
  lemma DashBetween()
    ensures !Matches("sushi-masa")
  {
    DashBetweenRuns();
    assert !ScanFrom("sushi-masa", 0);
    assert !Search("sushi-masa");
  }

  lemma DotBetween()
    ensures !Matches("sushi.masa")
  {
    DashBetween();
    InertSwap("sushi", '-', '.', "masa");
    assert "sushi" + ['-'] + "masa" == "sushi-masa";
    assert "sushi" + ['.'] + "masa" == "sushi.masa";
  }

  /** At the starts with a boundary, no character of the first group follows. */
  lemma GluedToWordRuns()
    ensures var s := "xsushi masa";
    RunEnd(S, s, 0) == 0 && RunEnd(S, s, 6) == 6 && RunEnd(S, s, 7) == 7 && RunEnd(S, s, 11) == 11
  {
  }

  /** A word character right before the phrase removes the boundary. */
  lemma GluedToWord()
    ensures !Matches("xsushi masa")
  {
    GluedToWordRuns();
    assert !ScanFrom("xsushi masa", 0);
    assert !Search("xsushi masa");
  }

  /** At the starts with a boundary, no character of the first group follows. */
  lemma LeadingDollarRuns()
    ensures var s := "$ushi masa";
    RunEnd(S, s, 1) == 1 && RunEnd(S, s, 5) == 5 && RunEnd(S, s, 6) == 6 && RunEnd(S, s, 10) == 10
  {
  }

  /** A leading '$' has no word boundary before it. */
  lemma LeadingDollar()
    ensures !Matches("$ushi masa")
  {
    LeadingDollarRuns();
    assert !ScanFrom("$ushi masa", 0);
    assert !Search("$ushi masa");
  }

  /** At the starts with a boundary, no character of the first group follows. */
  lemma LeadingDollarAfterSpaceRuns()
    ensures var s := " $ushi masa";
    RunEnd(S, s, 2) == 2 && RunEnd(S, s, 6) == 6 && RunEnd(S, s, 7) == 7 && RunEnd(S, s, 11) == 11
  {
  }

  /** Nor has it after a space. */
  lemma LeadingDollarAfterSpace()
    ensures !Matches(" $ushi masa")
  {
    LeadingDollarAfterSpaceRuns();
    assert !ScanFrom(" $ushi masa", 0);
    assert !Search(" $ushi masa");
  }

}
