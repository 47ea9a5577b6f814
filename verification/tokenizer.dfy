/** The paragraph tokenizer `re.findall(r"[\w']+|[.,!?;:\"()]", paragraph)`
    as a left-to-right scan, and the cleaning step
    `re.sub(r"[^\w]", "", token)`. */
module Tokenizer {
  import opened Chars
  import opened Text

  /** A character of the first alternative, `[\w']` */
  predicate IsTokenChar(c: char) { IsWordChar(c) || c == '\'' }

  /** A character of the second alternative, `[.,!?;:"()]` */
  predicate IsPunct(c: char) { c in ".,!?;:\"()" }

  /** A character that ends up in some token; all others are dropped */
  predicate IsKept(c: char) { IsTokenChar(c) || IsPunct(c) }

  predicate IsWordToken(t: string) { |t| > 0 && forall i :: 0 <= i < |t| ==> IsTokenChar(t[i]) }

  predicate IsPunctToken(t: string) { |t| == 1 && IsPunct(t[0]) }

  /** Length of the leading run of `[\w']` characters */
  function TokenCharPrefix(s: string): (n: nat)
    ensures n <= |s|
    ensures forall i :: 0 <= i < n ==> IsTokenChar(s[i])
    ensures n == |s| || !IsTokenChar(s[n])
    decreases |s|
  {
    if |s| > 0 && IsTokenChar(s[0]) then 1 + TokenCharPrefix(s[1..]) else 0
  }

  /** At each position the first alternative is tried (greedy, so the whole
      run), then the second; a character matching neither is skipped */
  function Tokenize(s: string): (ts: seq<string>)
    ensures forall k :: 0 <= k < |ts| ==> IsWordToken(ts[k]) || IsPunctToken(ts[k])
    decreases |s|
  {
    if |s| == 0 then []
    else if IsTokenChar(s[0]) then
      var n := TokenCharPrefix(s);
      var rest := Tokenize(s[n..]);
      assert ([s[..n]] + rest)[1..] == rest;
      [s[..n]] + rest
    else if IsPunct(s[0]) then
      var rest := Tokenize(s[1..]);
      assert ([[s[0]]] + rest)[1..] == rest;
      [[s[0]]] + rest
    else
      Tokenize(s[1..])
  }

  /** Laid end to end, the tokens are the input with every character that
      matches neither alternative removed */
  lemma {:induction false} TokenizeKeepsKept(s: string)
    ensures Concat(Tokenize(s)) == Filter(s, IsKept)
    decreases |s|
  {
    if |s| > 0 {
      if IsTokenChar(s[0]) {
        var n := TokenCharPrefix(s);
        var rest := Tokenize(s[n..]);
        assert s == s[..n] + s[n..];
        FilterConcat(s[..n], s[n..], IsKept);
        FilterKeepsAll(s[..n], IsKept);
        TokenizeKeepsKept(s[n..]);
        TokenizeRun(s);
        assert ([s[..n]] + rest)[1..] == rest;
      } else {
        TokenizeKeepsKept(s[1..]);
        TokenizeOther(s);
        assert s == [s[0]] + s[1..];
        FilterConcat([s[0]], s[1..], IsKept);
        if IsPunct(s[0]) {
          var rest := Tokenize(s[1..]);
          assert ([[s[0]]] + rest)[1..] == rest;
        } else {
          assert [] + Tokenize(s[1..]) == Tokenize(s[1..]);
        }
      }
    }
  }

  /** A string starting with a `[\w']` character gives its whole leading run
      as the first token */
  lemma TokenizeRun(s: string)
    requires |s| > 0 && IsTokenChar(s[0])
    ensures Tokenize(s) == [s[..TokenCharPrefix(s)]] + Tokenize(s[TokenCharPrefix(s)..])
  {
  }

  /** Any other first character is a token by itself or skipped */
  lemma TokenizeOther(s: string)
    requires |s| > 0 && !IsTokenChar(s[0])
    ensures Tokenize(s) == (if IsPunct(s[0]) then [[s[0]]] else []) + Tokenize(s[1..])
  {
  }

  /** The first `[\w']` run of a + b is that of a when a does not end inside
      a run that b continues */
  lemma {:induction false} TokenCharPrefixConcat(a: string, b: string)
    requires TokenCharPrefix(a) < |a| || b == "" || !IsTokenChar(b[0])
    ensures TokenCharPrefix(a + b) == TokenCharPrefix(a)
    decreases |a|
  {
    if |a| == 0 {
      assert a + b == b;
    } else {
      SliceConcat(a, b, 1);
      if IsTokenChar(a[0]) {
        TokenCharPrefixConcat(a[1..], b);
      }
    }
  }

  /** Tokenizing is left to right: two pieces that do not split a `[\w']`
      run between them are tokenized one after the other */
  lemma {:induction false} TokenizeConcat(a: string, b: string)
    requires a == "" || b == "" || !IsTokenChar(a[|a| - 1]) || !IsTokenChar(b[0])
    ensures Tokenize(a + b) == Tokenize(a) + Tokenize(b)
    decreases |a|
  {
    if |a| == 0 {
      assert a + b == b;
    } else if IsTokenChar(a[0]) {
      var n := TokenCharPrefix(a);
      assert a[n..] == "" || a[n..][|a[n..]| - 1] == a[|a| - 1];
      TokenizeConcat(a[n..], b);
      TokenizeConcatRun(a, b);
    } else {
      assert a[1..] == "" || a[1..][|a[1..]| - 1] == a[|a| - 1];
      TokenizeConcat(a[1..], b);
      TokenizeConcatOther(a, b);
    }
  }

  /** The step of TokenizeConcat when a starts with a `[\w']` run */
  lemma TokenizeConcatRun(a: string, b: string)
    requires |a| > 0 && IsTokenChar(a[0])
    requires b == "" || !IsTokenChar(a[|a| - 1]) || !IsTokenChar(b[0])
    requires Tokenize(a[TokenCharPrefix(a)..] + b) == Tokenize(a[TokenCharPrefix(a)..]) + Tokenize(b)
    ensures Tokenize(a + b) == Tokenize(a) + Tokenize(b)
  {
    var n := TokenCharPrefix(a);
    assert Tokenize(a + b) == [a[..n]] + Tokenize(a[n..] + b) by {
      SliceConcat(a, b, n);
      TokenCharPrefixConcat(a, b);
      TokenizeRun(a + b);
    }
    TokenizeRun(a);
    AppendAssoc([a[..n]], Tokenize(a[n..]), Tokenize(b));
  }

  /** The step of TokenizeConcat when a starts with any other character */
  lemma TokenizeConcatOther(a: string, b: string)
    requires |a| > 0 && !IsTokenChar(a[0])
    requires Tokenize(a[1..] + b) == Tokenize(a[1..]) + Tokenize(b)
    ensures Tokenize(a + b) == Tokenize(a) + Tokenize(b)
  {
    var c, t := a[0], a[1..];
    assert a == [c] + t && a + b == [c] + (t + b) by {
      SliceConcat(a, b, 1);
    }
    if IsPunct(c) {
      assert Tokenize(a + b) == [[c]] + Tokenize(t + b) by {
        TokenizeCons(c, t + b);
      }
      assert Tokenize(a) == [[c]] + Tokenize(t) by {
        TokenizeCons(c, t);
      }
      AppendAssoc([[c]], Tokenize(t), Tokenize(b));
    } else {
      assert Tokenize(a + b) == Tokenize(t + b) by {
        TokenizeSkip(c, t + b);
      }
      assert Tokenize(a) == Tokenize(t) by {
        TokenizeSkip(c, t);
      }
    }
  }

  /** A character matching neither alternative is skipped */
  lemma TokenizeSkip(c: char, t: string)
    requires !IsTokenChar(c) && !IsPunct(c)
    ensures Tokenize([c] + t) == Tokenize(t)
  {
    TokenizeCons(c, t);
    assert [] + Tokenize(t) == Tokenize(t);
  }

  lemma AppendAssoc<T>(x: seq<T>, y: seq<T>, z: seq<T>)
    ensures x + (y + z) == (x + y) + z
  {
  }

  /** TokenizeOther for a string given as its first character and the rest */
  lemma TokenizeCons(c: char, t: string)
    requires !IsTokenChar(c)
    ensures Tokenize([c] + t) == (if IsPunct(c) then [[c]] else []) + Tokenize(t)
  {
    assert ([c] + t)[1..] == t;
    TokenizeOther([c] + t);
  }

  lemma SliceConcat<T>(a: seq<T>, b: seq<T>, n: int)
    requires 0 <= n <= |a|
    ensures (a + b)[..n] == a[..n] && (a + b)[n..] == a[n..] + b
    ensures n < |a| ==> (a + b)[n] == a[n]
  {
  }

  /** A whole `[\w']` run is one token */
  lemma TokenizeWord(t: string)
    requires IsWordToken(t)
    ensures Tokenize(t) == [t]
  {
    TokenizeRun(t);
    assert TokenCharPrefix(t) == |t|;
    assert t[..|t|] == t;
  }

  /** Any other character is a token by itself if it is punctuation, and
      is dropped otherwise */
  lemma TokenizeChar(c: char)
    requires !IsTokenChar(c)
    ensures Tokenize([c]) == if IsPunct(c) then [[c]] else []
  {
    TokenizeOther([c]);
    assert [c][1..] == [];
  }

  /** Two words separated by a space are tokenized into the two words */
  lemma TokenizeTwoWords(x: string, y: string)
    requires IsWordToken(x) && IsWordToken(y)
    ensures Tokenize(x + " " + y) == [x, y]
  {
    assert x + " " + y == x + (" " + y);
    assert Tokenize(" " + y) == [y] by {
      TokenizeChar(' ');
      TokenizeWord(y);
      assert [' '] == " ";
      TokenizeConcat(" ", y);
    }
    TokenizeWord(x);
    TokenizeConcat(x, " " + y);
  }

  lemma PunctIsNoTokenChar(c: char)
    ensures IsPunct(c) ==> !IsTokenChar(c)
  {
  }

  /** Every word token is a maximal `[\w']` run of the input: the greedy
      first alternative never stops inside a run */
  lemma {:induction false} TokenizeSound(s: string, t: string)
    requires t in Tokenize(s) && IsWordToken(t)
    ensures exists p, q :: IsRun(s, p, q, IsTokenChar) && t == s[p..q]
    decreases |s|
  {
    if IsTokenChar(s[0]) {
      var n := TokenCharPrefix(s);
      TokenizeRun(s);
      if t == s[..n] {
        assert IsRun(s, 0, n, IsTokenChar);
      } else {
        TokenizeSound(s[n..], t);
        var p, q :| IsRun(s[n..], p, q, IsTokenChar) && t == s[n..][p..q];
        assert p > 0 by {
          assert IsTokenChar(s[n..][p]);
        }
        RunInSuffix(s, n, p, q, IsTokenChar);
      }
    } else {
      TokenizeOther(s);
      PunctIsNoTokenChar(s[0]);
      assert t != [s[0]] by {
        assert IsTokenChar(t[0]);
      }
      TokenizeSound(s[1..], t);
      var p, q :| IsRun(s[1..], p, q, IsTokenChar) && t == s[1..][p..q];
      RunInSuffix(s, 1, p, q, IsTokenChar);
    }
  }

  /** Every maximal `[\w']` run of the input is a token */
  lemma {:induction false} TokenizeComplete(s: string, p: int, q: int)
    requires IsRun(s, p, q, IsTokenChar)
    ensures s[p..q] in Tokenize(s)
    decreases |s|, 1
  {
    if IsTokenChar(s[0]) {
      TokenizeCompleteRun(s, p, q);
    } else {
      assert p > 0 by {
        assert IsTokenChar(s[p]);
      }
      RunOfSuffix(s, 1, p, q, IsTokenChar);
      TokenizeComplete(s[1..], p - 1, q - 1);
      TokenizeOther(s);
    }
  }

  lemma {:induction false} TokenizeCompleteRun(s: string, p: int, q: int)
    requires IsRun(s, p, q, IsTokenChar) && IsTokenChar(s[0])
    ensures s[p..q] in Tokenize(s)
    decreases |s|, 0
  {
    var n := TokenCharPrefix(s);
    RunAroundPrefix(s, p, q, n, IsTokenChar);
    TokenizeRun(s);
    if p > 0 {
      RunOfSuffix(s, n, p, q, IsTokenChar);
      assert 0 < n <= |s| && |s[n..]| < |s|;
      assert IsRun(s[n..], p - n, q - n, IsTokenChar);
      TokenizeComplete(s[n..], p - n, q - n);
      InTail(s[..n], Tokenize(s[n..]), s[p..q]);
    }
  }

  /** The word tokens are exactly the maximal `[\w']` runs of the input */
  lemma WordTokensExactly(s: string, t: string)
    ensures t in Tokenize(s) && IsWordToken(t) <==> exists p, q :: IsRun(s, p, q, IsTokenChar) && t == s[p..q]
  {
    if t in Tokenize(s) && IsWordToken(t) {
      TokenizeSound(s, t);
    }
    if exists p, q :: IsRun(s, p, q, IsTokenChar) && t == s[p..q] {
      var p, q :| IsRun(s, p, q, IsTokenChar) && t == s[p..q];
      TokenizeComplete(s, p, q);
    }
  }

  /** Every punctuation token is a punctuation mark of the input */
  lemma {:induction false} PunctSound(s: string, t: string)
    requires t in Tokenize(s) && IsPunctToken(t)
    ensures exists i :: 0 <= i < |s| && IsPunct(s[i]) && t == [s[i]]
    decreases |s|
  {
    PunctIsNoTokenChar(t[0]);
    if IsTokenChar(s[0]) {
      var n := TokenCharPrefix(s);
      TokenizeRun(s);
      assert t != s[..n] by {
        assert IsTokenChar(s[0]);
      }
      PunctSound(s[n..], t);
      var i :| 0 <= i < |s[n..]| && IsPunct(s[n..][i]) && t == [s[n..][i]];
      assert s[n..][i] == s[n + i];
    } else if t != [s[0]] || !IsPunct(s[0]) {
      TokenizeOther(s);
      PunctSound(s[1..], t);
      var i :| 0 <= i < |s[1..]| && IsPunct(s[1..][i]) && t == [s[1..][i]];
      assert s[1..][i] == s[1 + i];
    }
  }

  /** Every punctuation mark of the input is a token of its own */
  lemma {:induction false} PunctComplete(s: string, i: int)
    requires 0 <= i < |s| && IsPunct(s[i])
    ensures [s[i]] in Tokenize(s)
    decreases |s|
  {
    PunctIsNoTokenChar(s[i]);
    if IsTokenChar(s[0]) {
      var n := TokenCharPrefix(s);
      TokenizeRun(s);
      assert i >= n;
      assert s[n..][i - n] == s[i];
      PunctComplete(s[n..], i - n);
    } else {
      TokenizeOther(s);
      if i > 0 {
        assert s[1..][i - 1] == s[i];
        PunctComplete(s[1..], i - 1);
      }
    }
  }

  /** The punctuation tokens are exactly the punctuation marks of the input */
  lemma PunctTokensExactly(s: string, t: string)
    ensures t in Tokenize(s) && IsPunctToken(t) <==> exists i :: 0 <= i < |s| && IsPunct(s[i]) && t == [s[i]]
  {
    if t in Tokenize(s) && IsPunctToken(t) {
      PunctSound(s, t);
    }
    if exists i :: 0 <= i < |s| && IsPunct(s[i]) && t == [s[i]] {
      var i :| 0 <= i < |s| && IsPunct(s[i]) && t == [s[i]];
      PunctComplete(s, i);
    }
  }

  /** The tokens contain no whitespace, so they survive `str.split()` */
  lemma TokensAreBare(t: string)
    requires IsWordToken(t) || IsPunctToken(t)
    ensures IsBare(t)
  {
  }

  /** `re.sub(r"[^\w]", "", token)`: the token's `\w` characters */
  function CleanWord(t: string): (r: string)
    ensures forall i :: 0 <= i < |r| ==> IsWordChar(r[i])
    ensures (forall i :: 0 <= i < |t| ==> IsWordChar(t[i])) <==> r == t
    ensures |t| == 1 ==> r == if IsWordChar(t[0]) then t else ""
  {
    FilterKeepsAll(t, IsWordChar);
    Filter(t, IsWordChar)
  }

  /** Cleaning deletes characters one by one: the cleaned form of a
      concatenation is the concatenation of the cleaned forms */
  lemma CleanWordConcat(a: string, b: string)
    ensures CleanWord(a + b) == CleanWord(a) + CleanWord(b)
  {
    FilterConcat(a, b, IsWordChar);
  }

  /** A punctuation token cleans to the empty word */
  lemma CleanPunct(t: string)
    requires IsPunctToken(t)
    ensures CleanWord(t) == ""
  {
    FilterDropsAll(t, IsWordChar);
  }

  predicate AllApostrophes(a: string) { forall i :: 0 <= i < |a| ==> a[i] == '\'' }

  /** Apostrophes around a word are cleaned away */
  lemma CleanFramed(a: string, w: string, b: string)
    requires AllApostrophes(a) && AllApostrophes(b)
    requires forall i :: 0 <= i < |w| ==> IsWordChar(w[i])
    ensures CleanWord(a + w + b) == w
  {
    assert forall i :: 0 <= i < |a| ==> !IsWordChar(a[i]);
    assert forall i :: 0 <= i < |b| ==> !IsWordChar(b[i]);
    FilterFrame(a, w, b, IsWordChar);
    FilterKeepsAll(w, IsWordChar);
  }

  /** The token has an apostrophe with a `\w` character on each side of it,
      somewhere: as in "don't" */
  predicate HasInnerApostrophe(t: string)
  {
    exists i, j, k :: 0 <= i < j < k < |t| && IsWordChar(t[i]) && t[j] == '\'' && IsWordChar(t[k])
  }

  function CountWordChars(s: string): nat
    decreases |s|
  {
    if |s| == 0 then 0 else (if IsWordChar(s[0]) then 1 else 0) + CountWordChars(s[1..])
  }

  lemma {:induction false} CountWordCharsConcat(a: string, b: string)
    ensures CountWordChars(a + b) == CountWordChars(a) + CountWordChars(b)
    decreases |a|
  {
    if |a| > 0 {
      assert (a + b)[1..] == a[1..] + b;
      CountWordCharsConcat(a[1..], b);
    } else {
      assert a + b == b;
    }
  }

  lemma {:induction false} CountWordCharsBounds(s: string, i: int)
    ensures CountWordChars(s) <= |s|
    ensures 0 <= i < |s| && IsWordChar(s[i]) ==> CountWordChars(s) >= 1
    ensures (forall p :: 0 <= p < |s| ==> IsWordChar(s[p])) ==> CountWordChars(s) == |s|
    decreases |s|
  {
    if |s| > 0 {
      CountWordCharsBounds(s[1..], i - 1);
    }
  }

  lemma {:induction false} CleanWordCount(t: string)
    ensures |CleanWord(t)| == CountWordChars(t)
    decreases |t|
  {
    if |t| > 0 {
      CleanWordCount(t[1..]);
    }
  }

  lemma {:induction false} ZeroCountNoWordChar(s: string)
    ensures CountWordChars(s) == 0 ==> forall x :: 0 <= x < |s| ==> !IsWordChar(s[x])
    decreases |s|
  {
    if |s| > 0 {
      ZeroCountNoWordChar(s[1..]);
      assert forall x :: 1 <= x < |s| ==> s[x] == s[1..][x - 1];
    }
  }

  /** A window holding as many `\w` characters as the whole string holds
      every one of them */
  lemma WordCharsInWindow(t: string, p: nat, q: nat)
    requires p <= q <= |t|
    requires CountWordChars(t[p..q]) == CountWordChars(t)
    ensures forall x :: 0 <= x < |t| && IsWordChar(t[x]) ==> p <= x < q
  {
    assert t == t[..q] + t[q..];
    assert t[..q] == t[..p] + t[p..q];
    CountWordCharsConcat(t[..q], t[q..]);
    CountWordCharsConcat(t[..p], t[p..q]);
    ZeroCountNoWordChar(t[..p]);
    ZeroCountNoWordChar(t[q..]);
    assert forall x :: q <= x < |t| ==> t[x] == t[q..][x - q];
  }

  /** Where the cleaned word occurs inside its token, the occurrence spans
      exactly the token's `\w` characters */
  lemma CleanWordWindow(t: string, p: int)
    requires OccursAt(CleanWord(t), t, p)
    ensures forall x :: 0 <= x < |t| && IsWordChar(t[x]) ==> p <= x < p + |CleanWord(t)|
    ensures forall y :: p <= y < p + |CleanWord(t)| ==> IsWordChar(t[y])
  {
    var c := CleanWord(t);
    var q := p + |c|;
    var w := t[p..q];
    assert w == c;
    assert forall y :: 0 <= y < |w| ==> IsWordChar(w[y]);
    CountWordCharsBounds(w, 0);
    CleanWordCount(t);
    WordCharsInWindow(t, p, q);
    forall y | p <= y < q
      ensures IsWordChar(t[y])
    {
      assert t[y] == w[y - p];
    }
  }

  /** When an apostrophe sits between two `\w` characters, the cleaned word
      cannot be found inside the token: all its characters are there, but not
      next to each other */
  lemma InnerApostropheHidesCleanWord(t: string)
    requires HasInnerApostrophe(t)
    ensures !Occurs(CleanWord(t), t)
  {
    var i, j, k :| 0 <= i < j < k < |t| && IsWordChar(t[i]) && t[j] == '\'' && IsWordChar(t[k]);
    forall p | OccursAt(CleanWord(t), t, p)
      ensures false
    {
      CleanWordWindow(t, p);
    }
  }
}
