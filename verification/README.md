# Spell checker and paragraph categorizer, modelled in Dafny

`Code.py` is a small Tk application. At start-up it loads a word list into a
dictionary set. For each paragraph the user submits it does three things:

- it corrects every word that is neither in the dictionary nor contains a
  digit, using difflib's `get_close_matches`;
- it logs each correction with up to three suggestions;
- it assigns the corrected paragraph to one of six keyword categories, or to
  "Uncategorized".

This project models the computing part of that program as pure Dafny
functions. It proves what the code does on every input, with ASCII character
classes and for any similarity function.

| file | module | models |
|---|---|---|
| `results.dfy` | `Results` | `Option` and `Result` |
| `chars.dfy` | `Chars` | the ASCII character classes `\w`, `isdigit`, `isspace`, and `lower` |
| `text.dfy` | `Text` | `re.sub` deletion (as `Filter`), `str.split()`, `" ".join`, `str.strip()`, `str.replace` |
| `dictionary.dfy` | `Dictionary` | `load_dictionary`, with the `re.findall(r'\b[a-zA-Z]+\b', ...)` scan and its backtracking |
| `matcher.dfy` | `Matcher` | `get_close_matches` over a similarity function the caller supplies |
| `corrector.dfy` | `Corrector` | `suggest_words`, `auto_correct_word` |
| `categorizer.dfy` | `Categorizer` | `categorize_paragraph` |
| `tokenizer.dfy` | `Tokenizer` | `re.findall(r"[\w']+\|[.,!?;:\"()]", ...)` and the cleaning `re.sub(r"[^\w]", "", ...)` |
| `pipeline.dfy` | `Pipeline` | the token loop and the result of `process_paragraph` |
| `scenarios.dfy` | `Scenarios` | worked examples |

How the program's effects appear in the model:

- The word-list file is a `Source` value: either `Missing` or the sequence
  of its lines.
- The text written into the corrections widget becomes a list of
  `Correction(original, corrected, suggestions)` records.
- The three widget outputs of `process_paragraph` are returned together in
  a `Report`.
- The "Please enter a paragraph!" dialog becomes `Failure(EmptyParagraph)`.

`difflib.SequenceMatcher.ratio` is floating-point library code. It is
therefore a parameter `ratio(candidate, query)`. Everything built on top of
it is modelled exactly:

- the cutoff filter;
- the ranking of `heapq.nlargest` over `(score, word)` pairs, which puts a
  higher score first and, among equal scores, the larger string first;
- keeping the first n words.

Behaviour of the code worth knowing:

- The dictionary regex uses `\b`, and `\b` is defined by `\w`. So a letter run
  that touches a digit or an underscore (`ab1`, `x_y`) adds no word. A run
  of letters bounded only by non-letters is not enough to be collected
  (`Scenarios.DigitBlocksLetterRun`).
- The technology keyword `"AI"` is written in upper case. The paragraph is
  lower-cased before it is split, so `"AI"` never matches. Technology is
  therefore scored on six keywords (`Categorizer.UpperKeywordNeverCounts`).
- Word tokens are `[\w']+`, so they include the underscore as well as
  letters, digits and apostrophes.
- Only `FileNotFoundError` is caught. Any other failure to read the file is
  not handled by the loader.
- The correction is written back with `token.replace(clean, corrected)`. An
  apostrophe between two `\w` characters (`don't`) means the cleaned word
  (`dont`) is not a substring of the token. Such a token is kept as it was,
  although a correction of the cleaned word is still logged. Apostrophes
  only at the edges (`'helo'`) do not block the replacement.

## Model

| member | source | states |
|---|---|---|
| Chars.Lower | Code.py:14 | lower-casing maps each upper-case ASCII letter to its own lower-case letter, fixes every other character, and keeps letters, `\w`, digits and whitespace in their classes |
| Dictionary.LineWords | Code.py:14 | every word a line contributes is a nonempty string of lower-case ASCII letters, so no entry holds a digit |
| Dictionary.LineWordsExactly | Code.py:14 | w is collected from a line iff w is the lower-cased form of some maximal `\w` run of the line that consists of ASCII letters only |
| Dictionary.BacktrackOnlyAtRunEnd | Code.py:14 | when the closing `\b` fails after the greedy `[a-zA-Z]+`, giving letters back never finds a boundary; the match ends at the end of the letter run or not at all |
| Dictionary.MatchAtIff | Code.py:14 | a match of `\b[a-zA-Z]+\b` starts at i and ends at j iff s[i..j] is an all-letter `\w` run |
| Dictionary.FindAllSound | Code.py:14 | every string the left-to-right scan returns from position i is an all-letter `\w` run starting at or after i |
| Dictionary.FindAllComplete | Code.py:14 | every all-letter `\w` run starting at or after i is returned by the scan from i |
| Dictionary.FindAllFrom | Code.py:14 | `re.findall` as a left-to-right scan that resumes after each match; FindAllSound and FindAllComplete state which strings it returns |
| Dictionary.WordsOfLines | Code.py:13-15 | the dictionary holds exactly the words some line contributes, and all of them are lower-case letter words |
| Dictionary.LoadDictionary | Code.py:9-20 | loading fails iff the file is missing; otherwise the result is a set of lower-case letter words, and a word is in it iff some line contributes it |
| Matcher.StrLessTransitive | Code.py:24 | Python's string order, used to break ties between equal scores, is transitive |
| Matcher.StrLessTotal | Code.py:24 | of two different strings one is smaller |
| Matcher.OutranksTransitive | Code.py:24 | the (score, word) ranking is transitive |
| Matcher.OutranksTotal | Code.py:24 | of two different words one ranks higher |
| Matcher.TopExists | Code.py:32 | every nonempty set of candidates has a best-ranked word |
| Matcher.TopUnique | Code.py:32 | the best-ranked word is unique, so the single best match is well defined |
| Matcher.TopN | Code.py:24 | the n best words of a set: min(n, size) distinct members, each ranked above the next, and each ranked above every member left out |
| Matcher.CloseMatches | Code.py:24 | at most n dictionary words scoring at least the cutoff, exactly min(n, #candidates) of them; strictly ordered by rank; every candidate left out is outranked by every word returned |
| Corrector.SuggestWords | Code.py:23-25 | one to three suggestions; the single sentinel "No suggestions found" when no dictionary word scores 0.7 against the lower-cased word; otherwise the best min(3, #candidates) candidates in rank order, each outranking every candidate left out |
| Corrector.AutoCorrectWord | Code.py:28-39 | a word in the dictionary once lower-cased, or containing a digit, is returned unchanged with no log entry. Otherwise, with no candidate at 0.8 it is unchanged; else it becomes the best-ranked candidate. A log entry (word, replacement, suggestions of the word) is written iff the result differs from the word |
| Corrector.AutoCorrectIdempotent | Code.py:29-33 | correcting the result of a correction changes nothing and logs nothing |
| Corrector.EmptyWordUnchanged | Code.py:29-33 | the empty word, which a punctuation token cleans to, is never replaced, for any ratio in [0, 1] that gives 0 against an empty query |
| Categorizer.Words | Code.py:52 | the paragraph's word set holds whitespace-free nonempty tokens with no upper-case letter |
| Categorizer.WordsExactly | Code.py:52 | w is among the paragraph's words iff w is the lower-cased form of some maximal whitespace-free run of the paragraph |
| Categorizer.Score | Code.py:53 | a category's count is at most its number of keywords, and it is 0 iff none of its keywords is among the words |
| Categorizer.FirstMax | Code.py:55 | the index `max(..., key=...)` picks holds a maximum count, and every earlier count is strictly smaller |
| Categorizer.CategorizeWords | Code.py:53-56 | the answer is "Uncategorized" iff every count is 0; otherwise it is the name of a category with the highest count and no earlier category with that count |
| Categorizer.CategorizeSet | Code.py:43-56 | the same for the fixed six-category table; the answer is one of the six names or "Uncategorized" |
| Categorizer.Categorize | Code.py:42-56 | `categorize_paragraph`: the same property, for the words of the lower-cased, split paragraph |
| Categorizer.WinnerIsChosen | Code.py:55-56 | a category with a positive count, no larger count anywhere and only smaller counts before it is the answer |
| Categorizer.UpperKeywordNeverCounts | Code.py:45 | "AI" is never among a paragraph's words, so the technology count equals the overlap with its six other keywords |
| Categorizer.WordsOfJoin | Code.py:52 | the words of a single-space join of whitespace-free tokens are the lower-cased tokens |
| Categorizer.CategorizeIgnoresOrderAndRepeats | Code.py:52-53 | two token lists with the same members, in any order and with any repeats, are given the same category |
| Tokenizer.Tokenize | Code.py:70 | every token is a nonempty `[\w']` string or a single punctuation mark; TokenizeConcat, TokenizeWord and TokenizeChar fix the tokens and their order |
| Tokenizer.TokenizeConcat | Code.py:70 | matches are found left to right: two pieces of text that do not split a `[\w']` run between them give the tokens of the first followed by those of the second |
| Tokenizer.TokenizeWord | Code.py:70 | a whole `[\w']` run is a single token |
| Tokenizer.TokenizeChar | Code.py:70 | a character outside `[\w']` is a token by itself if it is punctuation and is dropped otherwise |
| Tokenizer.TokenizeTwoWords | Code.py:70 | two `[\w']` words separated by one space are tokenized into exactly those two words, in order |
| Tokenizer.TokenizeKeepsKept | Code.py:70 | laid end to end, the tokens are the input with every character that matches neither alternative removed |
| Tokenizer.TokenizeSound | Code.py:70 | every word token is a maximal `[\w']` run of the input: the greedy alternative never stops inside a run |
| Tokenizer.TokenizeComplete | Code.py:70 | every maximal `[\w']` run of the input is a token |
| Tokenizer.WordTokensExactly | Code.py:70 | t is a word token iff t is a maximal `[\w']` run of the input |
| Tokenizer.PunctSound | Code.py:70 | every punctuation token is a punctuation mark of the input |
| Tokenizer.PunctComplete | Code.py:70 | every punctuation mark of the input is a token of its own |
| Tokenizer.PunctTokensExactly | Code.py:70 | t is a punctuation token iff t is one punctuation mark of the input |
| Tokenizer.TokensAreBare | Code.py:70 | tokens contain no whitespace |
| Tokenizer.CleanWord | Code.py:73 | the cleaned word contains only `\w` characters; it equals the token iff the token has no other character; a one-character token cleans to itself if that character is `\w` and to the empty word otherwise |
| Tokenizer.CleanWordConcat | Code.py:73 | cleaning a concatenation is concatenating the cleaned parts, so with the one-character case the cleaned word is the token's `\w` characters in order |
| Tokenizer.CleanPunct | Code.py:73 | a punctuation token cleans to the empty word |
| Tokenizer.CleanFramed | Code.py:73 | apostrophes before and after a `\w` word are removed by cleaning |
| Tokenizer.CleanWordWindow | Code.py:73-75 | where the cleaned word occurs in its token, that occurrence covers every `\w` character of the token and nothing else |
| Tokenizer.InnerApostropheHidesCleanWord | Code.py:73-75 | a token with an apostrophe between two `\w` characters does not contain its cleaned word |
| Text.FilterKeepsAll | Code.py:73 | deleting characters leaves a string whole iff none of its characters is deleted |
| Text.JoinSpace | Code.py:77 | `" ".join`; SplitJoinSpace, LowerJoinSpace and WordsOfJoin state what splitting, lower-casing and categorizing the joined text give |
| Text.Split | Code.py:52 | `str.split()` yields nonempty whitespace-free tokens |
| Text.SplitKeepsNonSpace | Code.py:52 | laid end to end, the tokens are the input without its whitespace |
| Text.SplitSound | Code.py:52 | every token is a maximal whitespace-free run of the input |
| Text.SplitComplete | Code.py:52 | every maximal whitespace-free run of the input is a token |
| Text.SplitJoinSpace | Code.py:77-78 | splitting the single-space join of whitespace-free tokens gives the tokens back |
| Text.LowerJoinSpace | Code.py:77-78 | lower-casing a join is joining the lower-cased tokens |
| Text.StripLeft | Code.py:60 | `lstrip` returns a suffix that is empty iff the input is all whitespace, does not start with whitespace, and keeps every non-whitespace character |
| Text.StripRight | Code.py:60 | `rstrip` returns a prefix that does not end with whitespace, is nonempty when the input starts with a non-whitespace character, and keeps every non-whitespace character |
| Text.Strip | Code.py:60 | `strip` is empty iff the input is all whitespace; otherwise it starts and ends with non-whitespace; it keeps every non-whitespace character in order; it is one contiguous piece of the input, with only whitespace before and after it |
| Text.StripUnchanged | Code.py:60 | text that starts and ends with a non-whitespace character is left as it is by `strip` |
| Text.Replace | Code.py:75 | `str.replace`: every non-overlapping occurrence of a nonempty target, found left to right, is replaced; with an empty target, the replacement goes before every character and at the end; the Replace lemmas below state its behaviour |
| Text.ReplaceIdentity | Code.py:75 | replacing a string by itself changes nothing, including the empty target |
| Text.ReplaceAbsent | Code.py:75 | replacing a nonempty target that does not occur changes nothing |
| Text.ReplaceWhole | Code.py:75 | replacing a whole nonempty string gives the replacement |
| Text.ReplaceFramed | Code.py:75 | a word whose surrounding characters cannot start it is replaced in place, once |
| Text.ReplaceBare | Code.py:75 | replacing inside a whitespace-free token by a whitespace-free nonempty replacement gives a whitespace-free nonempty token |
| Pipeline.CorrectToken | Code.py:73-75 | one pass of the loop body: clean, auto-correct, write back with `replace`; PunctuationPassesThrough, DigitTokenUnchanged, PlainWordCorrected, InnerApostropheKeepsToken, FramedWordCorrected, CorrectedTokenIsBare and NoteRecordsChange state its results |
| Pipeline.CorrectAll | Code.py:72-75 | one rewritten token per input token, each the input token after its correction is written back, and at most one log entry per token |
| Pipeline.CollectConcat | Code.py:72-75 | the entries of two token lists laid end to end are the entries of the first followed by those of the second |
| Pipeline.CorrectAllConcat | Code.py:72-75 | the loop over two token lists laid end to end gives the rewritten tokens and the log of the first list followed by those of the second, so the log keeps token order and repeated entries |
| Pipeline.CorrectAllOne | Code.py:72-75 | one token gives its rewritten text, and its own log entry if its correction wrote one |
| Pipeline.CollectSound | Code.py:35-37 | each log entry comes from one token's correction |
| Pipeline.CollectComplete | Code.py:35-37 | each token's entry appears in the log |
| Pipeline.NoteRecordsChange | Code.py:35-37 | a token's log entry records its cleaned word, a different dictionary word that replaced it, and the suggestions for the cleaned word |
| Pipeline.LogRecordsChanges | Code.py:72-75 | every entry of the paragraph's log records a real change of some token's cleaned word into a dictionary word, with that word's suggestions |
| Pipeline.ChangesAreLogged | Code.py:72-75 | every token whose cleaned word is changed has its entry in the log |
| Pipeline.Process | Code.py:59-78 | a paragraph is rejected iff it is all whitespace; an accepted paragraph's category is the category of its corrected text |
| Pipeline.ProcessTwoWords | Code.py:59-78 | a paragraph of two words separated by a space is accepted; its corrected text is the two rewritten words joined by a space, its log is the first word's entries followed by the second's, and its category is that of the corrected text |
| Pipeline.PunctuationPassesThrough | Code.py:73-75 | a token without a `\w` character (a punctuation mark, or apostrophes only) is written back unchanged and logs nothing |
| Pipeline.DigitTokenUnchanged | Code.py:29-30 | a token containing a digit is written back unchanged and logs nothing |
| Pipeline.PlainWordCorrected | Code.py:73-75 | a token made only of `\w` characters becomes its correction |
| Pipeline.InnerApostropheKeepsToken | Code.py:73-75 | a token with an apostrophe between `\w` characters is written back unchanged, while the log entry of its cleaned word is still written |
| Pipeline.FramedWordCorrected | Code.py:73-75 | apostrophes only at the edges stay around the corrected word |
| Pipeline.CorrectedTokenIsBare | Code.py:75-77 | every rewritten token is nonempty and free of whitespace |
| Pipeline.CorrectedTextShape | Code.py:70-78 | the corrected text splits back into exactly one rewritten token per tokenizer token, its category is the category of those tokens, lower-cased, and the report's log is the log of the token loop over the tokens of the stripped paragraph |
| Pipeline.JoinedTokens | Code.py:77-78 | a join of whitespace-free tokens splits back into them and is categorized by their lower-cased set |
| Scenarios.DigitBlocksLetterRun | Code.py:14 | the line "ab1 cd" contributes only "cd" |
| Scenarios.PoliticsExample | Code.py:42-56 | the text "The government passed a new election law" is categorized as politics |
| Scenarios.PoliticsWordSet | Code.py:43-56 | the word set {the, government, passed, a, new, election, law} is categorized as politics |
| Scenarios.RepeatLoggedTwice | Code.py:72-77 | tokens a, b, a that are each corrected log a's entry, b's entry and a's entry again, in that order |
| Scenarios.LogKeepsOrderAndRepeats | Code.py:72-77 | with dictionary {hello, world} and the first-letter ratio, the tokens "helo", "wrold", "helo" become "hello", "world", "hello" and log three entries in token order |
| Scenarios.TieGoesToEarlierCategory | Code.py:55 | one finance keyword and one history keyword: finance wins the tie |
| Scenarios.HelloMatches | Code.py:32 | with a first-letter ratio, "helo" matches "hello" and not "world" |
| Scenarios.HeloCorrected | Code.py:28-39 | with dictionary {hello, world} and the first-letter ratio, "helo" is corrected to "hello", and the log entry lists ["hello"] as its suggestions |
| Scenarios.DigitWordUntouched | Code.py:29-30 | "xyz123" is left alone whatever the dictionary and the ratio |

## Left out

- The Tk window, its widgets, the button callback, the error dialog and
  `mainloop` are left out. Their inputs and outputs are parameters and
  results instead.
- File access, `print` and `sys.exit` are left out. The hard-coded
  word-list path is left out too. The file is a `Source` value, and a
  missing file is the `Failure(DictionaryNotFound)` result.
- Decoding errors and permission errors are not modelled. The loader does
  not catch them.
- The text of the two log lines and the `", "` join of the suggestions are
  not modelled. The log holds the `Correction` records that those lines
  render.
- Matcher.CloseMatches: difflib's `SequenceMatcher.ratio` is a parameter,
  not a definition, because it is floating-point library code. Its
  `real_quick_ratio` and `quick_ratio` pre-filters are upper bounds of
  `ratio`. They are left out because they reject nothing that the final
  `ratio >= cutoff` test would keep. Scores are reals, not binary floats.
- Chars.Lower: only ASCII is modelled. Python's `\w`, `isdigit`, `isspace`
  and `lower` follow Unicode. Non-ASCII characters fall in none of the
  classes here and are not changed by lower-casing.
- The global `dictionary` is passed as a parameter. The global widgets are
  replaced by return values.
