/** The computing part of `process_paragraph`: strip and reject an empty
    paragraph, tokenize, clean and auto-correct every token, write each
    correction back into its token with `str.replace`, join with single
    spaces, and categorize the corrected text. The three widget outputs are
    returned together in a `Report`. */
module Pipeline {
  import opened Chars
  import opened Results
  import opened Text
  import opened Matcher
  import opened Dictionary
  import opened Corrector
  import opened Tokenizer
  import opened Categorizer

  /** What one token becomes, and the log entry its correction wrote */
  datatype TokenResult = TokenResult(text: string, note: Option<Correction>)

  /** The rewritten tokens and the corrections log, in token order */
  datatype Rewrite = Rewrite(tokens: seq<string>, log: seq<Correction>)

  datatype Report = Report(corrected: string, log: seq<Correction>, category: string)

  datatype InputError = EmptyParagraph

  /** One pass of the token loop: clean, auto-correct the cleaned word, and
      put the correction back with `token.replace(clean, corrected)` */
  function CorrectToken(ratio: Ratio, dict: set<string>, token: string): TokenResult
  {
    var clean := CleanWord(token);
    var c := AutoCorrectWord(ratio, clean, dict);
    TokenResult(Replace(token, clean, c.word), c.note)
  }

  /** The values of the present entries, in order */
  function Collect<T>(xs: seq<Option<T>>): (r: seq<T>)
    ensures |r| <= |xs|
    decreases |xs|
  {
    if |xs| == 0 then [] else (if xs[0].Some? then [xs[0].value] else []) + Collect(xs[1..])
  }

  /** Every collected value comes from some entry */
  lemma {:induction false} CollectSound<T>(xs: seq<Option<T>>, m: int)
    requires 0 <= m < |Collect(xs)|
    ensures exists k :: 0 <= k < |xs| && xs[k] == Some(Collect(xs)[m])
    decreases |xs|
  {
    var head := if xs[0].Some? then [xs[0].value] else [];
    if !(xs[0].Some? && m == 0) {
      CollectSound(xs[1..], m - |head|);
      var k :| 0 <= k < |xs[1..]| && xs[1..][k] == Some(Collect(xs[1..])[m - |head|]);
      assert xs[k + 1] == xs[1..][k];
    }
  }

  /** Every present entry is collected */
  lemma {:induction false} CollectComplete<T>(xs: seq<Option<T>>, k: int)
    requires 0 <= k < |xs| && xs[k].Some?
    ensures xs[k].value in Collect(xs)
    decreases |xs|
  {
    if k > 0 {
      CollectComplete(xs[1..], k - 1);
      assert xs[1..][k - 1] == xs[k];
    }
  }

  /** Collecting a concatenation collects each part in turn */
  lemma {:induction false} CollectConcat<T>(xs: seq<Option<T>>, ys: seq<Option<T>>)
    ensures Collect(xs + ys) == Collect(xs) + Collect(ys)
    decreases |xs|
  {
    if |xs| == 0 {
      assert xs + ys == ys;
    } else {
      assert (xs + ys)[0] == xs[0];
      assert (xs + ys)[1..] == xs[1..] + ys;
      CollectConcat(xs[1..], ys);
    }
  }

  /** The log entries the tokens write, one optional entry per token */
  function Notes(ratio: Ratio, dict: set<string>, toks: seq<string>): (r: seq<Option<Correction>>)
    ensures |r| == |toks|
    ensures forall k :: 0 <= k < |toks| ==> r[k] == CorrectToken(ratio, dict, toks[k]).note
  {
    seq(|toks|, k requires 0 <= k < |toks| => CorrectToken(ratio, dict, toks[k]).note)
  }

  /** The token loop: each token is rewritten in place, and the log gathers
      the entries in token order */
  function CorrectAll(ratio: Ratio, dict: set<string>, toks: seq<string>): (r: Rewrite)
    ensures |r.tokens| == |toks|
    ensures forall k :: 0 <= k < |toks| ==> r.tokens[k] == CorrectToken(ratio, dict, toks[k]).text
    ensures |r.log| <= |toks|
  {
    var texts := seq(|toks|, k requires 0 <= k < |toks| => CorrectToken(ratio, dict, toks[k]).text);
    Rewrite(texts, Collect(Notes(ratio, dict, toks)))
  }

  /** The loop over two token lists laid end to end is the loop over the
      first followed by the loop over the second: the log keeps the entries in
      token order, repeated ones included */
  lemma CorrectAllConcat(ratio: Ratio, dict: set<string>, ts: seq<string>, us: seq<string>)
    ensures var both := CorrectAll(ratio, dict, ts + us);
      var first := CorrectAll(ratio, dict, ts);
      var second := CorrectAll(ratio, dict, us);
      both.tokens == first.tokens + second.tokens && both.log == first.log + second.log
  {
    NotesConcat(ratio, dict, ts, us);
    CollectConcat(Notes(ratio, dict, ts), Notes(ratio, dict, us));
    TokensConcat(ratio, dict, ts, us);
  }

  lemma NotesConcat(ratio: Ratio, dict: set<string>, ts: seq<string>, us: seq<string>)
    ensures Notes(ratio, dict, ts + us) == Notes(ratio, dict, ts) + Notes(ratio, dict, us)
  {
    var both := Notes(ratio, dict, ts + us);
    var parts := Notes(ratio, dict, ts) + Notes(ratio, dict, us);
    forall k | 0 <= k < |both|
      ensures both[k] == parts[k]
    {
      if k >= |ts| {
        assert (ts + us)[k] == us[k - |ts|];
      }
    }
  }

  lemma TokensConcat(ratio: Ratio, dict: set<string>, ts: seq<string>, us: seq<string>)
    ensures CorrectAll(ratio, dict, ts + us).tokens
      == CorrectAll(ratio, dict, ts).tokens + CorrectAll(ratio, dict, us).tokens
  {
    var both := CorrectAll(ratio, dict, ts + us).tokens;
    var parts := CorrectAll(ratio, dict, ts).tokens + CorrectAll(ratio, dict, us).tokens;
    forall k | 0 <= k < |both|
      ensures both[k] == parts[k]
    {
      if k >= |ts| {
        assert (ts + us)[k] == us[k - |ts|];
      }
    }
  }

  /** A single token contributes its rewritten text and its own entry, if any */
  lemma CorrectAllOne(ratio: Ratio, dict: set<string>, t: string)
    ensures var c := CorrectToken(ratio, dict, t);
      CorrectAll(ratio, dict, [t]) == Rewrite([c.text], if c.note.Some? then [c.note.value] else [])
  {
    var c := CorrectToken(ratio, dict, t);
    var r := CorrectAll(ratio, dict, [t]);
    assert r.tokens == [c.text] by {
      assert |r.tokens| == 1 && r.tokens[0] == c.text;
    }
    assert r.log == if c.note.Some? then [c.note.value] else [] by {
      var notes := Notes(ratio, dict, [t]);
      assert |notes| == 1 && notes[0] == c.note;
      assert notes == [c.note];
      CollectOne(c.note);
    }
  }

  lemma CollectOne<T>(x: Option<T>)
    ensures Collect([x]) == if x.Some? then [x.value] else []
  {
    assert [x][1..] == [];
  }

  /** e records a real change of the cleaned form of token into a
      dictionary word, with the suggestions for that word */
  ghost predicate RecordsChange(ratio: Ratio, dict: set<string>, e: Correction, token: string)
  {
    && e.original == CleanWord(token)
    && e.corrected != e.original
    && e.corrected in dict
    && e.suggestions == SuggestWords(ratio, e.original, dict)
  }

  /** A token writes a log entry only for a real change */
  lemma NoteRecordsChange(ratio: Ratio, dict: set<string>, token: string)
    requires CorrectToken(ratio, dict, token).note.Some?
    ensures RecordsChange(ratio, dict, CorrectToken(ratio, dict, token).note.value, token)
  {
    var c := AutoCorrectWord(ratio, CleanWord(token), dict);
    assert CorrectToken(ratio, dict, token).note == c.note;
  }

  /** Every log entry records a real change of the cleaned form of some token */
  lemma LogRecordsChanges(ratio: Ratio, dict: set<string>, toks: seq<string>, m: int)
    requires 0 <= m < |CorrectAll(ratio, dict, toks).log|
    ensures exists k :: 0 <= k < |toks| && RecordsChange(ratio, dict, CorrectAll(ratio, dict, toks).log[m], toks[k])
  {
    var notes := Notes(ratio, dict, toks);
    var log := CorrectAll(ratio, dict, toks).log;
    assert log == Collect(notes);
    CollectSound(notes, m);
    var k :| 0 <= k < |notes| && notes[k] == Some(log[m]);
    NoteRecordsChange(ratio, dict, toks[k]);
  }

  /** Every token whose cleaned word is changed writes its entry to the log */
  lemma ChangesAreLogged(ratio: Ratio, dict: set<string>, toks: seq<string>, k: int)
    requires 0 <= k < |toks|
    requires AutoCorrectWord(ratio, CleanWord(toks[k]), dict).word != CleanWord(toks[k])
    ensures CorrectToken(ratio, dict, toks[k]).note.Some?
    ensures CorrectToken(ratio, dict, toks[k]).note.value in CorrectAll(ratio, dict, toks).log
  {
    var notes := Notes(ratio, dict, toks);
    assert notes[k] == CorrectToken(ratio, dict, toks[k]).note;
    CollectComplete(notes, k);
  }

  /** `process_paragraph` without its widgets */
  function Process(ratio: Ratio, dict: set<string>, raw: string): (r: Result<Report, InputError>)
    ensures r.Failure? <==> forall i :: 0 <= i < |raw| ==> IsSpace(raw[i])
    ensures r.Success? ==> r.value.category == Categorize(r.value.corrected)
  {
    var paragraph := Strip(raw);
    if paragraph == "" then Failure(EmptyParagraph)
    else
      var rewrite := CorrectAll(ratio, dict, Tokenize(paragraph));
      var text := JoinSpace(rewrite.tokens);
      Success(Report(text, rewrite.log, Categorize(text)))
  }

  /** A paragraph of two words separated by a space is processed word by
      word: its report holds the two rewritten words, joined by a space, and
      the entries of the two words in paragraph order */
  lemma ProcessTwoWords(ratio: Ratio, dict: set<string>, x: string, y: string)
    requires IsWordToken(x) && IsWordToken(y)
    ensures var rx := CorrectAll(ratio, dict, [x]);
      var ry := CorrectAll(ratio, dict, [y]);
      var text := JoinSpace(rx.tokens + ry.tokens);
      Process(ratio, dict, x + " " + y) == Success(Report(text, rx.log + ry.log, Categorize(text)))
  {
    var p := x + " " + y;
    assert p[0] == x[0] && p[|p| - 1] == y[|y| - 1];
    TokensAreBare(x);
    TokensAreBare(y);
    StripUnchanged(p);
    TokenizeTwoWords(x, y);
    assert [x] + [y] == [x, y];
    CorrectAllConcat(ratio, dict, [x], [y]);
  }

  /** A token without a `\w` character (a punctuation mark, or apostrophes
      only) cleans to the empty word, which is never corrected, and replacing
      "" by "" leaves the token as it is */
  lemma PunctuationPassesThrough(ratio: Ratio, dict: set<string>, token: string)
    requires IsSimilarityRatio(ratio)
    requires forall i :: 0 <= i < |token| ==> !IsWordChar(token[i])
    ensures CorrectToken(ratio, dict, token) == TokenResult(token, None)
  {
    FilterDropsAll(token, IsWordChar);
    EmptyWordUnchanged(ratio, dict);
    ReplaceIdentity(token, "");
  }

  /** A token with a digit is written back as it is and logs nothing: the
      digit survives cleaning, so the guard protects the cleaned word */
  lemma DigitTokenUnchanged(ratio: Ratio, dict: set<string>, token: string)
    requires ContainsDigit(token)
    ensures CorrectToken(ratio, dict, token) == TokenResult(token, None)
  {
    var clean := CleanWord(token);
    var i :| 0 <= i < |token| && IsDigit(token[i]);
    FilterKeeps(token, IsWordChar, i);
    var j :| 0 <= j < |clean| && clean[j] == token[i];
    assert ContainsDigit(clean);
    ReplaceIdentity(token, clean);
  }

  /** A token of `\w` characters only is replaced by its correction */
  lemma PlainWordCorrected(ratio: Ratio, dict: set<string>, token: string)
    requires token != ""
    requires forall i :: 0 <= i < |token| ==> IsWordChar(token[i])
    ensures var c := AutoCorrectWord(ratio, token, dict);
      CorrectToken(ratio, dict, token) == TokenResult(c.word, c.note)
  {
    ReplaceWhole(token, AutoCorrectWord(ratio, token, dict).word);
  }

  /** With an apostrophe between `\w` characters the cleaned word is not a
      substring of the token, so the token is written back unchanged, even
      when a correction of the cleaned word is logged */
  lemma InnerApostropheKeepsToken(ratio: Ratio, dict: set<string>, token: string)
    requires HasInnerApostrophe(token)
    ensures CorrectToken(ratio, dict, token).text == token
    ensures CorrectToken(ratio, dict, token).note == AutoCorrectWord(ratio, CleanWord(token), dict).note
  {
    var clean := CleanWord(token);
    InnerApostropheHidesCleanWord(token);
    var i, j, k :| 0 <= i < j < k < |token| && IsWordChar(token[i]) && token[j] == '\'' && IsWordChar(token[k]);
    CleanWordCount(token);
    CountWordCharsBounds(token, i);
    ReplaceAbsent(token, clean, AutoCorrectWord(ratio, clean, dict).word);
  }

  /** Apostrophes only before and after the word stay around its correction */
  lemma FramedWordCorrected(ratio: Ratio, dict: set<string>, a: string, w: string, b: string)
    requires AllApostrophes(a) && AllApostrophes(b)
    requires w != ""
    requires forall i :: 0 <= i < |w| ==> IsWordChar(w[i])
    ensures CorrectToken(ratio, dict, a + w + b).text == a + AutoCorrectWord(ratio, w, dict).word + b
  {
    CleanFramed(a, w, b);
    ReplaceFramed(a, w, b, AutoCorrectWord(ratio, w, dict).word);
  }

  /** Every token the tokenizer makes is rewritten into a bare token */
  lemma CorrectedTokenIsBare(ratio: Ratio, dict: set<string>, token: string)
    requires IsDictionary(dict)
    requires IsWordToken(token) || IsPunctToken(token)
    ensures IsBare(CorrectToken(ratio, dict, token).text)
  {
    var clean := CleanWord(token);
    var c := AutoCorrectWord(ratio, clean, dict);
    TokensAreBare(token);
    if c.word != clean {
      assert IsDictWord(c.word);
    }
    ReplaceBare(token, clean, c.word);
  }

  /** The corrected text is the single-space join of one rewritten token per
      tokenizer token, it splits back into exactly those tokens, and its
      category is that of their lower-cased set */
  lemma CorrectedTextShape(ratio: Ratio, dict: set<string>, raw: string)
    requires IsDictionary(dict)
    requires Process(ratio, dict, raw).Success?
    ensures var report := Process(ratio, dict, raw).value;
      var toks := Tokenize(Strip(raw));
      var outs := Split(report.corrected);
      && |outs| == |toks|
      && (forall k :: 0 <= k < |toks| ==> outs[k] == CorrectToken(ratio, dict, toks[k]).text)
      && report.corrected == JoinSpace(outs)
      && report.log == CorrectAll(ratio, dict, toks).log
      && report.category == CategorizeSet(set t | t in LowerAll(outs))
  {
    var toks := Tokenize(Strip(raw));
    var rewrite := CorrectAll(ratio, dict, toks);
    var outs := rewrite.tokens;
    assert Process(ratio, dict, raw).value
      == Report(JoinSpace(outs), rewrite.log, Categorize(JoinSpace(outs)));
    forall k | 0 <= k < |outs| ensures IsBare(outs[k]) {
      CorrectedTokenIsBare(ratio, dict, toks[k]);
    }
    JoinedTokens(outs);
  }

  lemma JoinedTokens(outs: seq<string>)
    requires forall k :: 0 <= k < |outs| ==> IsBare(outs[k])
    ensures Split(JoinSpace(outs)) == outs
    ensures Categorize(JoinSpace(outs)) == CategorizeSet(set t | t in LowerAll(outs))
  {
    SplitJoinSpace(outs);
    WordsOfJoin(outs);
  }
}
