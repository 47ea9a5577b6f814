/** `suggest_words` and `auto_correct_word`. The two lines the program writes
    into the corrections widget become a returned `Correction` record. */
module Corrector {
  import opened Chars
  import opened Results
  import opened Matcher
  import opened Dictionary

  const SuggestionCount: nat := 3
  const SuggestionCutoff: real := 0.7
  const CorrectionCount: nat := 1
  const CorrectionCutoff: real := 0.8
  const NoSuggestions: string := "No suggestions found"

  /** One entry of the corrections log: the misspelled word, its replacement,
      and the suggestions shown beside it */
  datatype Correction = Correction(original: string, corrected: string, suggestions: seq<string>)

  /** The word auto-correction returns, and the log entry it writes, if any */
  datatype Corrected = Corrected(word: string, note: Option<Correction>)

  /** `suggest_words`: the three best matches of the lower-cased word at cutoff
      0.7, or the one-element sentinel list when there are none */
  function SuggestWords(ratio: Ratio, word: string, dict: set<string>): (r: seq<string>)
    ensures 1 <= |r| <= SuggestionCount
    ensures Candidates(ratio, LowerStr(word), dict, SuggestionCutoff) == {} ==> r == [NoSuggestions]
    ensures var query := LowerStr(word);
      var cands := Candidates(ratio, query, dict, SuggestionCutoff);
      cands != {} ==>
        && |r| == Min(SuggestionCount, |cands|)
        && (forall i :: 0 <= i < |r| ==> r[i] in cands)
        && (forall i, j :: 0 <= i < j < |r| ==> Outranks(ratio, query, r[i], r[j]))
        && (forall w :: w in cands && w !in r ==> forall i :: 0 <= i < |r| ==> Outranks(ratio, query, r[i], w))
  {
    var matches := CloseMatches(ratio, LowerStr(word), dict, SuggestionCount, SuggestionCutoff);
    if |matches| > 0 then matches else [NoSuggestions]
  }

  /** The guard of `auto_correct_word`: known words and words with a digit are
      never touched */
  predicate IsProtected(word: string, dict: set<string>)
  {
    LowerStr(word) in dict || ContainsDigit(word)
  }

  /** `auto_correct_word`: unless protected, the word is replaced by the single
      best match of its lower-cased form at cutoff 0.8, if there is one; a log
      entry is written when the result differs from the word */
  function AutoCorrectWord(ratio: Ratio, word: string, dict: set<string>): (r: Corrected)
    ensures IsProtected(word, dict) ==> r == Corrected(word, None)
    ensures r.word == word || r.word in dict
    ensures !IsProtected(word, dict) ==>
      var cands := Candidates(ratio, LowerStr(word), dict, CorrectionCutoff);
      && (cands == {} ==> r.word == word)
      && (cands != {} ==> IsTop(ratio, LowerStr(word), r.word, cands))
    ensures r.note.Some? <==> r.word != word
    ensures r.note.Some? ==> r.note.value == Correction(word, r.word, SuggestWords(ratio, word, dict))
  {
    if IsProtected(word, dict) then Corrected(word, None)
    else
      var best := CloseMatches(ratio, LowerStr(word), dict, CorrectionCount, CorrectionCutoff);
      var corrected := if |best| > 0 then best[0] else word;
      if corrected != word then
        Corrected(corrected, Some(Correction(word, corrected, SuggestWords(ratio, word, dict))))
      else
        Corrected(word, None)
  }

  /** Correcting a corrected word changes nothing and logs nothing: a
      replacement is a dictionary word, which the guard protects */
  lemma AutoCorrectIdempotent(ratio: Ratio, word: string, dict: set<string>)
    requires IsDictionary(dict)
    ensures var once := AutoCorrectWord(ratio, word, dict).word;
      AutoCorrectWord(ratio, once, dict) == Corrected(once, None)
  {
    var once := AutoCorrectWord(ratio, word, dict).word;
    if once != word {
      assert IsDictWord(once);
      LowerStrFixed(once);
    }
  }

  /** An empty word (what a punctuation token cleans to) is never replaced */
  lemma EmptyWordUnchanged(ratio: Ratio, dict: set<string>)
    requires IsSimilarityRatio(ratio)
    ensures AutoCorrectWord(ratio, "", dict) == Corrected("", None)
  {
    if !IsProtected("", dict) {
      assert Candidates(ratio, LowerStr(""), dict, CorrectionCutoff) == {};
    }
  }
}
