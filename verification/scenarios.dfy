/** Worked examples: the program's behaviour on concrete inputs, derived from
    the model. A concrete ratio stands in for difflib where one is needed. */
module Scenarios {
  import opened Chars
  import opened Results
  import opened Matcher
  import opened Dictionary
  import opened Corrector
  import opened Categorizer
  import opened Text
  import opened Pipeline
  import opened Tokenizer

  /** A letter run that touches a digit is no word: "ab1" gives nothing
      (the engine backtracks through "ab" and finds no closing boundary),
      while "cd" is collected */
  lemma DigitBlocksLetterRun()
    ensures LineWords("ab1 cd") == {"cd"}
  {
    var s := LowerStr("ab1 cd");
    assert s == "ab1 cd";
    assert FindAllFrom(s, 6) == [];
    assert MatchAt(s, 4) == Some(6);
    assert s[4..6] == "cd";
    assert FindAllFrom(s, 4) == ["cd"];
    assert MatchAt(s, 3) == None;
    assert FindAllFrom(s, 3) == ["cd"];
    assert MatchAt(s, 2) == None;
    assert FindAllFrom(s, 2) == ["cd"];
    assert MatchAt(s, 1) == None;
    assert FindAllFrom(s, 1) == ["cd"];
    assert MatchAt(s, 0) == None;
    assert FindAllFrom(s, 0) == ["cd"];
  }

  /** The keyword sets of the table, by position */
  lemma TableKeywords()
    ensures Table[0].keywords == FinanceKeywords && Table[1].keywords == TechnologyKeywords
    ensures Table[2].keywords == SportsKeywords && Table[3].keywords == HistoryKeywords
    ensures Table[4].keywords == ScienceKeywords && Table[5].keywords == PoliticsKeywords
  {
  }

  /** A category whose keywords the words miss scores zero */
  lemma DisjointScore(words: set<string>, i: nat)
    requires i < |Table| && words !! Table[i].keywords
    ensures Score(Table, words, i) == 0
  {
    assert words * Table[i].keywords == {};
  }

  /** The words of "The government passed a new election law" */
  const Sentence: set<string> := {"the", "government", "passed", "a", "new", "election", "law"}

  lemma SentenceOverlaps()
    ensures |Sentence * PoliticsKeywords| == 3
  {
    assert Sentence * PoliticsKeywords == {"government", "election", "law"};
  }

  lemma SentenceMissesFirst()
    ensures Sentence !! FinanceKeywords && Sentence !! TechnologyKeywords
  {
  }

  lemma SentenceMissesMiddle()
    ensures Sentence !! SportsKeywords && Sentence !! HistoryKeywords
    ensures Sentence !! ScienceKeywords
  {
  }

  lemma SentenceScores()
    ensures Score(Table, Sentence, 5) == 3
    ensures Score(Table, Sentence, 0) == 0 && Score(Table, Sentence, 1) == 0
    ensures Score(Table, Sentence, 2) == 0 && Score(Table, Sentence, 3) == 0
    ensures Score(Table, Sentence, 4) == 0
  {
    SentenceOverlaps();
    SentenceMissesFirst();
    SentenceMissesMiddle();
    TableKeywords();
    DisjointScore(Sentence, 0);
    DisjointScore(Sentence, 1);
    DisjointScore(Sentence, 2);
    DisjointScore(Sentence, 3);
    DisjointScore(Sentence, 4);
  }

  /** In a six-category table where only the last category scores, it wins */
  lemma OnlyLastScores(table: seq<Category>, words: set<string>)
    requires |table| == 6
    requires Score(table, words, 0) == 0 && Score(table, words, 1) == 0
    requires Score(table, words, 2) == 0 && Score(table, words, 3) == 0
    requires Score(table, words, 4) == 0 && Score(table, words, 5) > 0
    ensures Wins(table, words, 5)
  {
  }

  /** The words of the sentence share three words with the politics keywords
      and none with the others */
  lemma PoliticsWordSet()
    ensures CategorizeSet(Sentence) == "politics"
  {
    SentenceScores();
    OnlyLastScores(Table, Sentence);
    WinnerIsChosen(Sentence, 5);
  }

  const SentenceTokens: seq<string> := ["The", "government", "passed", "a", "new", "election", "law"]

  const SentenceLower: seq<string> := ["the", "government", "passed", "a", "new", "election", "law"]

  lemma SentenceBare()
    ensures forall k :: 0 <= k < |SentenceTokens| ==> IsBare(SentenceTokens[k])
  {
    forall k | 0 <= k < |SentenceTokens|
      ensures IsBare(SentenceTokens[k])
    {
    }
  }

  lemma SentenceLowered()
    ensures LowerAll(SentenceTokens) == SentenceLower
  {
    var low := LowerAll(SentenceTokens);
    assert low[0] == "the" by {
      assert LowerStr("The") == "the";
    }
    forall k | 1 <= k < 7
      ensures low[k] == SentenceLower[k]
    {
      LowerStrFixed(SentenceTokens[k]);
    }
  }

  lemma SentenceSet()
    ensures (set t | t in SentenceLower) == Sentence
  {
  }

  /** "The government passed a new election law" is about politics */
  lemma PoliticsExample()
    ensures Categorize(JoinSpace(["The", "government", "passed", "a", "new", "election", "law"])) == "politics"
  {
    SentenceBare();
    WordsOfJoin(SentenceTokens);
    SentenceLowered();
    SentenceSet();
    PoliticsWordSet();
  }

  /** One finance keyword and one history keyword */
  const TieWords: set<string> := {"money", "war"}

  lemma TieOverlaps()
    ensures |TieWords * FinanceKeywords| == 1 && |TieWords * HistoryKeywords| == 1
  {
    assert TieWords * FinanceKeywords == {"money"};
    assert TieWords * HistoryKeywords == {"war"};
  }

  lemma TieMisses()
    ensures TieWords !! TechnologyKeywords && TieWords !! SportsKeywords
    ensures TieWords !! ScienceKeywords && TieWords !! PoliticsKeywords
  {
  }

  lemma TieScores()
    ensures Score(Table, TieWords, 0) == 1 && Score(Table, TieWords, 3) == 1
    ensures Score(Table, TieWords, 1) == 0 && Score(Table, TieWords, 2) == 0
    ensures Score(Table, TieWords, 4) == 0 && Score(Table, TieWords, 5) == 0
  {
    TieOverlaps();
    TieMisses();
    TableKeywords();
    DisjointScore(TieWords, 1);
    DisjointScore(TieWords, 2);
    DisjointScore(TieWords, 4);
    DisjointScore(TieWords, 5);
  }

  /** Of two equal best scores, the first wins */
  lemma FirstOfTwoWins(table: seq<Category>, words: set<string>)
    requires |table| == 6
    requires Score(table, words, 0) == 1 && Score(table, words, 3) == 1
    requires Score(table, words, 1) == 0 && Score(table, words, 2) == 0
    requires Score(table, words, 4) == 0 && Score(table, words, 5) == 0
    ensures Wins(table, words, 0)
  {
  }

  /** The tie between finance and history goes to finance, which comes
      first in the table */
  lemma TieGoesToEarlierCategory()
    ensures CategorizeSet(TieWords) == "finance"
  {
    TieScores();
    FirstOfTwoWins(Table, TieWords);
    WinnerIsChosen(TieWords, 0);
  }

  /** A stand-in similarity: 0.9 when the first letters agree, 0 otherwise */
  function FirstLetterRatio(candidate: string, query: string): real
  {
    if |candidate| > 0 && |query| > 0 && candidate[0] == query[0] then 0.9 else 0.0
  }

  lemma HelloMatches(n: nat, cutoff: real)
    requires n > 0 && 0.0 < cutoff <= 0.9
    ensures CloseMatches(FirstLetterRatio, "helo", {"hello", "world"}, n, cutoff) == ["hello"]
  {
    assert Candidates(FirstLetterRatio, "helo", {"hello", "world"}, cutoff) == {"hello"};
  }

  /** With dictionary {hello, world}, "helo" is corrected to "hello" and the
      change is logged with its suggestions */
  lemma HeloCorrected()
    ensures AutoCorrectWord(FirstLetterRatio, "helo", {"hello", "world"})
      == Corrected("hello", Some(Correction("helo", "hello", ["hello"])))
  {
    assert LowerStr("helo") == "helo";
    assert !IsProtected("helo", {"hello", "world"});
    HelloMatches(CorrectionCount, CorrectionCutoff);
    HelloMatches(SuggestionCount, SuggestionCutoff);
  }

  lemma WroldCorrected()
    ensures AutoCorrectWord(FirstLetterRatio, "wrold", {"hello", "world"})
      == Corrected("world", Some(Correction("wrold", "world", ["world"])))
  {
    assert LowerStr("wrold") == "wrold";
    assert !IsProtected("wrold", {"hello", "world"});
    WorldMatches(CorrectionCount, CorrectionCutoff);
    WorldMatches(SuggestionCount, SuggestionCutoff);
  }

  lemma WorldMatches(n: nat, cutoff: real)
    requires n > 0 && 0.0 < cutoff <= 0.9
    ensures CloseMatches(FirstLetterRatio, "wrold", {"hello", "world"}, n, cutoff) == ["world"]
  {
    assert Candidates(FirstLetterRatio, "wrold", {"hello", "world"}, cutoff) == {"world"};
  }

  /** Tokens a, b, a log a's entry, b's entry and a's entry again */
  lemma RepeatLoggedTwice(ratio: Ratio, dict: set<string>, a: string, b: string, ta: string, tb: string, ea: Correction, eb: Correction)
    requires CorrectAll(ratio, dict, [a]) == Rewrite([ta], [ea])
    requires CorrectAll(ratio, dict, [b]) == Rewrite([tb], [eb])
    ensures CorrectAll(ratio, dict, [a, b, a]) == Rewrite([ta, tb, ta], [ea, eb, ea])
  {
    CorrectAllConcat(ratio, dict, [a], [b]);
    assert [a] + [b] == [a, b];
    CorrectAllConcat(ratio, dict, [a, b], [a]);
    assert [a, b] + [a] == [a, b, a];
    ThreeInOrder(ta, tb);
    ThreeInOrder(ea, eb);
  }

  lemma ThreeInOrder<T>(x: T, y: T)
    ensures [x] + [y] + [x] == [x, y, x]
  {
  }

  lemma HeloToken()
    ensures CorrectToken(FirstLetterRatio, {"hello", "world"}, "helo")
      == TokenResult("hello", Some(Correction("helo", "hello", ["hello"])))
  {
    HeloCorrected();
    PlainWordCorrected(FirstLetterRatio, {"hello", "world"}, "helo");
  }

  lemma WroldToken()
    ensures CorrectToken(FirstLetterRatio, {"hello", "world"}, "wrold")
      == TokenResult("world", Some(Correction("wrold", "world", ["world"])))
  {
    WroldCorrected();
    PlainWordCorrected(FirstLetterRatio, {"hello", "world"}, "wrold");
  }

  /** The tokens "helo", "wrold", "helo" log three entries, in token order,
      the repeated word twice */
  lemma LogKeepsOrderAndRepeats()
    ensures var helo := Correction("helo", "hello", ["hello"]);
      var wrold := Correction("wrold", "world", ["world"]);
      CorrectAll(FirstLetterRatio, {"hello", "world"}, ["helo", "wrold", "helo"])
        == Rewrite(["hello", "world", "hello"], [helo, wrold, helo])
  {
    var dict := {"hello", "world"};
    HeloToken();
    WroldToken();
    CorrectAllOne(FirstLetterRatio, dict, "helo");
    CorrectAllOne(FirstLetterRatio, dict, "wrold");
    RepeatLoggedTwice(FirstLetterRatio, dict, "helo", "wrold", "hello", "world",
      Correction("helo", "hello", ["hello"]), Correction("wrold", "world", ["world"]));
  }

  /** A word with a digit is left alone even when nothing in the dictionary
      resembles it */
  lemma DigitWordUntouched(ratio: Ratio, dict: set<string>)
    ensures AutoCorrectWord(ratio, "xyz123", dict) == Corrected("xyz123", None)
  {
    assert IsDigit("xyz123"[3]);
  }
}
