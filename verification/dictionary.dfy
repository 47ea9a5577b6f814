/** The dictionary loader: every line of the word-list file is lower-cased and
    the matches of the regular expression `\b[a-zA-Z]+\b` are collected into
    one set. The regular expression is modelled as the scan `re.findall`
    performs, including the engine's backtracking into the greedy letter run
    when the closing `\b` fails. */
module Dictionary {
  import opened Chars
  import opened Results

  /** A dictionary entry: a nonempty run of lower-case ASCII letters */
  predicate IsDictWord(w: string) { |w| > 0 && forall i :: 0 <= i < |w| ==> IsLower(w[i]) }

  predicate IsDictionary(d: set<string>) { forall w :: w in d ==> IsDictWord(w) }

  /** `\b` holds at position k of s: exactly one side of k is a `\w` character */
  predicate IsBoundary(s: string, k: nat)
    requires k <= |s|
  {
    (0 < k && IsWordChar(s[k - 1])) != (k < |s| && IsWordChar(s[k]))
  }

  /** Where the greedy `[a-zA-Z]+` started at i stops */
  function LetterRunEnd(s: string, i: nat): (j: nat)
    requires i <= |s|
    ensures i <= j <= |s|
    ensures forall p :: i <= p < j ==> IsLetter(s[p])
    ensures j == |s| || !IsLetter(s[j])
    decreases |s| - i
  {
    if i < |s| && IsLetter(s[i]) then LetterRunEnd(s, i + 1) else i
  }

  /** The engine gives letters back one at a time, from k down to i + 1, until
      the closing `\b` holds */
  function Backtrack(s: string, i: nat, k: nat): (r: Option<nat>)
    requires i < k <= |s|
    ensures r.Some? ==> i < r.value <= k && IsBoundary(s, r.value)
    decreases k
  {
    if IsBoundary(s, k) then Some(k) else if k - 1 > i then Backtrack(s, i, k - 1) else None
  }

  /** The end of the match of `\b[a-zA-Z]+\b` that starts at i, if any */
  function MatchAt(s: string, i: nat): (r: Option<nat>)
    requires i <= |s|
    ensures r.Some? ==> i < r.value <= |s|
  {
    if i < |s| && IsBoundary(s, i) && IsLetter(s[i]) then Backtrack(s, i, LetterRunEnd(s, i)) else None
  }

  /** `re.findall` from position i: a match is collected and the scan resumes
      at its end; otherwise the scan moves one character on */
  function FindAllFrom(s: string, i: nat): seq<string>
    requires i <= |s|
    decreases |s| - i
  {
    if i == |s| then []
    else match MatchAt(s, i)
      case Some(j) => [s[i..j]] + FindAllFrom(s, j)
      case None => FindAllFrom(s, i + 1)
  }

  /** s[i..j] is a whole run of `\w` characters and all of them are letters */
  ghost predicate IsLetterWord(s: string, i: int, j: int)
  {
    && 0 <= i < j <= |s|
    && (i == 0 || !IsWordChar(s[i - 1]))
    && (j == |s| || !IsWordChar(s[j]))
    && forall p :: i <= p < j ==> IsLetter(s[p])
  }

  /** Backtracking inside a run of letters never finds a boundary: the only
      place the closing `\b` can hold is the end of the greedy run */
  lemma {:induction false} BacktrackOnlyAtRunEnd(s: string, i: nat, k: nat)
    requires i < k <= |s|
    requires forall p :: i <= p < k ==> IsLetter(s[p])
    ensures Backtrack(s, i, k) == if IsBoundary(s, k) then Some(k) else None
    decreases k
  {
    if !IsBoundary(s, k) && k - 1 > i {
      BacktrackOnlyAtRunEnd(s, i, k - 1);
      assert IsLetter(s[k - 2]) && IsLetter(s[k - 1]);
    }
  }

  /** A match starts at i and ends at j exactly when s[i..j] is an all-letter
      `\w` run */
  lemma MatchAtIff(s: string, i: nat, j: nat)
    requires i <= |s|
    ensures MatchAt(s, i) == Some(j) <==> IsLetterWord(s, i, j)
  {
    if i < |s| && IsBoundary(s, i) && IsLetter(s[i]) {
      var e := LetterRunEnd(s, i);
      BacktrackOnlyAtRunEnd(s, i, e);
    } else if IsLetterWord(s, i, j) {
      assert IsBoundary(s, i);
    }
  }

  lemma {:induction false} FindAllSound(s: string, i: nat, w: string)
    requires i <= |s|
    requires w in FindAllFrom(s, i)
    ensures exists p, q :: i <= p && IsLetterWord(s, p, q) && w == s[p..q]
    decreases |s| - i
  {
    match MatchAt(s, i)
    case Some(j) =>
      if w == s[i..j] {
        MatchAtIff(s, i, j);
      } else {
        FindAllSound(s, j, w);
      }
    case None =>
      FindAllSound(s, i + 1, w);
  }

  lemma {:induction false} FindAllComplete(s: string, i: nat, p: nat, q: nat)
    requires i <= p
    requires IsLetterWord(s, p, q)
    ensures s[p..q] in FindAllFrom(s, i)
    decreases |s| - i
  {
    if i == p {
      MatchAtIff(s, p, q);
    } else {
      match MatchAt(s, i)
      case Some(j) =>
        MatchAtIff(s, i, j);
        FindAllComplete(s, j, p, q);
      case None =>
        FindAllComplete(s, i + 1, p, q);
    }
  }

  /** Lower-casing changes no character class, so the runs are the same */
  lemma LetterWordLower(s: string, i: int, j: int)
    ensures IsLetterWord(LowerStr(s), i, j) <==> IsLetterWord(s, i, j)
  {
  }

  lemma FoundWordsAreDictWords(line: string)
    ensures forall w :: w in FindAllFrom(LowerStr(line), 0) ==> IsDictWord(w)
  {
    var s := LowerStr(line);
    forall w | w in FindAllFrom(s, 0) ensures IsDictWord(w) {
      FindAllSound(s, 0, w);
      var p, q :| 0 <= p && IsLetterWord(s, p, q) && w == s[p..q];
      assert forall k :: p <= k < q ==> IsLower(s[k]);
    }
  }

  /** The words one line contributes: `re.findall(r'\b[a-zA-Z]+\b', line.lower())` */
  function LineWords(line: string): (ws: set<string>)
    ensures IsDictionary(ws)
  {
    FoundWordsAreDictWords(line);
    set w | w in FindAllFrom(LowerStr(line), 0)
  }

  /** The words of a line are exactly its all-letter `\w` runs, lower-cased; a
      letter run touching a digit or an underscore contributes nothing */
  lemma LineWordsExactly(line: string, w: string)
    ensures w in LineWords(line) <==> exists p, q :: IsLetterWord(line, p, q) && w == LowerStr(line[p..q])
  {
    var s := LowerStr(line);
    if w in LineWords(line) {
      FindAllSound(s, 0, w);
      var p, q :| 0 <= p && IsLetterWord(s, p, q) && w == s[p..q];
      LetterWordLower(line, p, q);
      LowerStrSlice(line, p, q);
    }
    if exists p, q :: IsLetterWord(line, p, q) && w == LowerStr(line[p..q]) {
      var p, q :| IsLetterWord(line, p, q) && w == LowerStr(line[p..q]);
      LetterWordLower(line, p, q);
      LowerStrSlice(line, p, q);
      FindAllComplete(s, 0, p, q);
    }
  }

  /** The word-list file as the loader sees it: absent, or a sequence of lines */
  datatype Source = Missing | Lines(lines: seq<string>)

  datatype LoadError = DictionaryNotFound

  /** The union of the words of all lines */
  function WordsOfLines(lines: seq<string>): (d: set<string>)
    ensures IsDictionary(d)
    ensures forall w :: w in d <==> exists k :: 0 <= k < |lines| && w in LineWords(lines[k])
  {
    set k, w | 0 <= k < |lines| && w in LineWords(lines[k]) :: w
  }

  /** `load_dictionary`: a missing file is an error (the program exits), every
      other file gives the set of all words of all its lines */
  function LoadDictionary(src: Source): (r: Result<set<string>, LoadError>)
    ensures r.Failure? <==> src.Missing?
    ensures r.Success? ==> IsDictionary(r.value)
    ensures r.Success? ==> forall w :: w in r.value <==>
      exists k :: 0 <= k < |src.lines| && w in LineWords(src.lines[k])
  {
    match src
    case Missing => Failure(DictionaryNotFound)
    case Lines(lines) => Success(WordsOfLines(lines))
  }
}
