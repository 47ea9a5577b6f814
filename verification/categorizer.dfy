/** `categorize_paragraph`: the paragraph's set of lower-cased whitespace
    tokens is scored against six fixed keyword sets, and the first category
    with the highest nonzero overlap wins. */
module Categorizer {
  import opened Chars
  import opened Text

  datatype Category = Category(name: string, keywords: set<string>)

  const FinanceKeywords: set<string> :=
    {"money", "economy", "investment", "market", "bank", "stock", "financial"}
  /** The technology keyword "AI" is upper case, as written */
  const TechnologyKeywords: set<string> :=
    {"computer", "software", "hardware", "AI", "technology", "internet", "cyber"}
  const SportsKeywords: set<string> :=
    {"football", "cricket", "basketball", "tennis", "athlete", "olympics"}
  const HistoryKeywords: set<string> :=
    {"war", "revolution", "historical", "empire", "ancient", "battle"}
  const ScienceKeywords: set<string> :=
    {"physics", "chemistry", "biology", "science", "research", "experiment"}
  const PoliticsKeywords: set<string> :=
    {"government", "election", "policy", "law", "democracy", "political"}

  /** The keyword table, in the order Python's dict keeps it */
  const Table: seq<Category> := [
    Category("finance", FinanceKeywords),
    Category("technology", TechnologyKeywords),
    Category("sports", SportsKeywords),
    Category("history", HistoryKeywords),
    Category("science", ScienceKeywords),
    Category("politics", PoliticsKeywords)
  ]

  const Technology: nat := 1

  const Uncategorized: string := "Uncategorized"

  /** `set(paragraph.lower().split())` */
  function Words(text: string): (ws: set<string>)
    ensures forall w :: w in ws ==> IsBare(w) && forall i :: 0 <= i < |w| ==> !IsUpper(w[i])
  {
    var low := LowerStr(text);
    var ts := Split(low);
    forall t | t in ts
      ensures forall i :: 0 <= i < |t| ==> !IsUpper(t[i])
    {
      SplitSound(low, t);
    }
    set t | t in ts
  }

  /** The words of a paragraph are exactly its maximal whitespace-free runs,
      lower-cased */
  lemma WordsExactly(text: string, w: string)
    ensures w in Words(text) <==> exists p, q :: IsRun(text, p, q, IsNotSpace) && w == LowerStr(text[p..q])
  {
    var low := LowerStr(text);
    if w in Words(text) {
      SplitSound(low, w);
      var p, q :| IsRun(low, p, q, IsNotSpace) && w == low[p..q];
      RunLower(text, p, q);
      LowerStrSlice(text, p, q);
    }
    if exists p, q :: IsRun(text, p, q, IsNotSpace) && w == LowerStr(text[p..q]) {
      var p, q :| IsRun(text, p, q, IsNotSpace) && w == LowerStr(text[p..q]);
      RunLower(text, p, q);
      LowerStrSlice(text, p, q);
      SplitComplete(low, p, q);
    }
  }

  /** Lower-casing keeps whitespace where it is, so the runs are the same */
  lemma RunLower(s: string, p: int, q: int)
    ensures IsRun(LowerStr(s), p, q, IsNotSpace) <==> IsRun(s, p, q, IsNotSpace)
  {
  }

  /** No category of the table is called "Uncategorized" */
  predicate IsTable(table: seq<Category>)
  {
    |table| > 0 && forall i :: 0 <= i < |table| ==> table[i].name != Uncategorized
  }

  /** The overlap count of category i */
  function Score(table: seq<Category>, words: set<string>, i: nat): (n: nat)
    requires i < |table|
    ensures n <= |table[i].keywords|
    ensures n == 0 <==> forall w :: w in table[i].keywords ==> w !in words
  {
    var common := words * table[i].keywords;
    SubsetSize(common, table[i].keywords);
    EmptyOverlap(words, table[i].keywords);
    |common|
  }

  lemma EmptyOverlap<T>(a: set<T>, b: set<T>)
    ensures |a * b| == 0 <==> forall x :: x in b ==> x !in a
  {
    if |a * b| != 0 {
      var x :| x in a * b;
      assert x in b && x in a;
    } else {
      assert a * b == {};
      forall x | x in b ensures x !in a {
        assert x !in a * b;
      }
    }
  }

  lemma {:induction false} SubsetSize<T>(a: set<T>, b: set<T>)
    requires a <= b
    ensures |a| <= |b|
    decreases b
  {
    if a != {} {
      var x :| x in a;
      SubsetSize(a - {x}, b - {x});
    }
  }

  /** The index `max(category_counts, key=category_counts.get)` picks: the
      scan keeps the first maximum and moves only on a strictly larger count */
  function FirstMax(counts: seq<nat>): (k: nat)
    requires |counts| > 0
    ensures k < |counts|
    ensures forall j :: 0 <= j < |counts| ==> counts[j] <= counts[k]
    ensures forall j :: 0 <= j < k ==> counts[j] < counts[k]
    decreases |counts|
  {
    if |counts| == 1 then 0
    else
      var k := FirstMax(counts[..|counts| - 1]);
      if counts[|counts| - 1] > counts[k] then |counts| - 1 else k
  }

  /** Category i wins: its count is positive, no count is larger, and every
      earlier count is smaller */
  ghost predicate Wins(table: seq<Category>, words: set<string>, i: int)
  {
    && 0 <= i < |table|
    && Score(table, words, i) > 0
    && (forall j :: 0 <= j < |table| ==> Score(table, words, j) <= Score(table, words, i))
    && (forall j :: 0 <= j < i ==> Score(table, words, j) < Score(table, words, i))
  }

  /** The category a set of words is given under a table */
  function CategorizeWords(table: seq<Category>, words: set<string>): (r: string)
    requires IsTable(table)
    ensures r == Uncategorized || exists i :: 0 <= i < |table| && r == table[i].name
    ensures r == Uncategorized <==> forall i :: 0 <= i < |table| ==> Score(table, words, i) == 0
    ensures r != Uncategorized ==> exists i :: Wins(table, words, i) && r == table[i].name
  {
    var counts := seq(|table|, i requires 0 <= i < |table| => Score(table, words, i));
    var best := FirstMax(counts);
    assert forall j :: 0 <= j < |table| ==> counts[j] == Score(table, words, j);
    assert counts[best] > 0 ==> Wins(table, words, best);
    if counts[best] > 0 then table[best].name else Uncategorized
  }

  /** The category of a set of lower-cased words under the fixed table */
  function CategorizeSet(words: set<string>): (r: string)
    ensures r == Uncategorized || exists i :: 0 <= i < |Table| && r == Table[i].name
    ensures r == Uncategorized <==> forall i :: 0 <= i < |Table| ==> Score(Table, words, i) == 0
    ensures r != Uncategorized ==> exists i :: Wins(Table, words, i) && r == Table[i].name
  {
    assert IsTable(Table);
    CategorizeWords(Table, words)
  }

  /** The winning category is the answer */
  lemma WinnerIsChosen(words: set<string>, i: int)
    requires Wins(Table, words, i)
    ensures CategorizeSet(words) == Table[i].name
  {
    var r := CategorizeSet(words);
    assert r != Uncategorized;
    var j :| Wins(Table, words, j) && r == Table[j].name;
    WinnerUnique(Table, words, i, j);
  }

  /** `categorize_paragraph` */
  function Categorize(text: string): (r: string)
    ensures r == Uncategorized || exists i :: 0 <= i < |Table| && r == Table[i].name
    ensures r == Uncategorized <==> forall i :: 0 <= i < |Table| ==> Score(Table, Words(text), i) == 0
    ensures r != Uncategorized ==> exists i :: Wins(Table, Words(text), i) && r == Table[i].name
  {
    CategorizeSet(Words(text))
  }

  /** The winner is determined: at most one category can win */
  lemma WinnerUnique(table: seq<Category>, words: set<string>, i: int, j: int)
    requires Wins(table, words, i) && Wins(table, words, j)
    ensures i == j
  {
  }

  /** The text is lower-cased before it is split, so the keyword "AI" never
      matches and technology is scored on its other six keywords only */
  lemma UpperKeywordNeverCounts(text: string)
    ensures "AI" !in Words(text)
    ensures Score(Table, Words(text), Technology) == |Words(text) * (Table[Technology].keywords - {"AI"})|
  {
    var ws := Words(text);
    assert "AI" !in ws by {
      assert IsUpper("AI"[0]);
    }
    DropAbsent(ws, Table[Technology].keywords, "AI");
  }

  /** A keyword the words lack adds nothing to the overlap */
  lemma DropAbsent(words: set<string>, keys: set<string>, k: string)
    requires k !in words
    ensures words * keys == words * (keys - {k})
  {
  }

  /** The words of a single-space join of bare tokens are the tokens, lower-cased */
  lemma WordsOfJoin(ts: seq<string>)
    requires forall k :: 0 <= k < |ts| ==> IsBare(ts[k])
    ensures Words(JoinSpace(ts)) == set t | t in LowerAll(ts)
  {
    var low := LowerAll(ts);
    LowerJoinSpace(ts);
    forall k | 0 <= k < |low| ensures IsBare(low[k]) {
      LowerBare(ts[k]);
    }
    SplitJoinSpace(low);
  }

  /** Only the set of words matters: reordering or repeating the tokens of a
      paragraph does not change its category */
  lemma CategorizeIgnoresOrderAndRepeats(ts: seq<string>, us: seq<string>)
    requires forall k :: 0 <= k < |ts| ==> IsBare(ts[k])
    requires forall k :: 0 <= k < |us| ==> IsBare(us[k])
    requires forall t :: t in ts <==> t in us
    ensures Categorize(JoinSpace(ts)) == Categorize(JoinSpace(us))
  {
    SameWords(ts, us);
  }

  lemma SameWords(ts: seq<string>, us: seq<string>)
    requires forall k :: 0 <= k < |ts| ==> IsBare(ts[k])
    requires forall k :: 0 <= k < |us| ==> IsBare(us[k])
    requires forall t :: t in ts <==> t in us
    ensures Words(JoinSpace(ts)) == Words(JoinSpace(us))
  {
    WordsOfJoin(ts);
    WordsOfJoin(us);
    SameLowered(ts, us);
    SameLowered(us, ts);
  }

  lemma SameLowered(ts: seq<string>, us: seq<string>)
    requires forall t :: t in ts ==> t in us
    ensures forall w :: w in LowerAll(ts) ==> w in LowerAll(us)
  {
    forall w | w in LowerAll(ts) ensures w in LowerAll(us) {
      var k :| 0 <= k < |ts| && LowerAll(ts)[k] == w;
      assert ts[k] in us;
      var m :| 0 <= m < |us| && us[m] == ts[k];
      assert LowerAll(us)[m] == w;
    }
  }
}
