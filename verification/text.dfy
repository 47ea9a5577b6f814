/** The Python string operations the program relies on: filtering characters
    out (`re.sub` with an empty replacement), `str.split()` with no separator,
    `" ".join`, `str.strip()` and `str.replace`. */
module Text {
  import opened Chars

  /** The characters of s for which keep holds, in their order */
  function Filter(s: string, keep: char -> bool): (r: string)
    ensures |r| <= |s|
    ensures forall i :: 0 <= i < |r| ==> keep(r[i])
    decreases |s|
  {
    if |s| == 0 then "" else (if keep(s[0]) then [s[0]] else "") + Filter(s[1..], keep)
  }

  lemma {:induction false} FilterConcat(a: string, b: string, keep: char -> bool)
    ensures Filter(a + b, keep) == Filter(a, keep) + Filter(b, keep)
    decreases |a|
  {
    if |a| > 0 {
      assert (a + b)[0] == a[0];
      assert (a + b)[1..] == a[1..] + b;
      FilterConcat(a[1..], b, keep);
    } else {
      assert a + b == b;
    }
  }

  /** Filtering keeps a string whole exactly when every character is kept */
  lemma {:induction false} FilterKeepsAll(s: string, keep: char -> bool)
    ensures Filter(s, keep) == s <==> forall i :: 0 <= i < |s| ==> keep(s[i])
    decreases |s|
  {
    if |s| > 0 {
      FilterKeepsAll(s[1..], keep);
      if !keep(s[0]) {
        assert |Filter(s[1..], keep)| < |s|;
      }
    }
  }

  lemma {:induction false} FilterDropsAll(s: string, keep: char -> bool)
    requires forall i :: 0 <= i < |s| ==> !keep(s[i])
    ensures Filter(s, keep) == ""
    decreases |s|
  {
    if |s| > 0 {
      FilterDropsAll(s[1..], keep);
    }
  }

  /** A kept character survives filtering */
  lemma {:induction false} FilterKeeps(s: string, keep: char -> bool, i: int)
    requires 0 <= i < |s| && keep(s[i])
    ensures s[i] in Filter(s, keep)
    decreases |s|
  {
    if i > 0 {
      FilterKeeps(s[1..], keep, i - 1);
      assert s[1..][i - 1] == s[i];
    }
  }

  /** Characters dropped on both sides of r leave only r's kept characters */
  lemma FilterFrame(x: string, r: string, y: string, keep: char -> bool)
    requires forall i :: 0 <= i < |x| ==> !keep(x[i])
    requires forall i :: 0 <= i < |y| ==> !keep(y[i])
    ensures Filter(x + r + y, keep) == Filter(r, keep)
  {
    FilterDropsAll(x, keep);
    FilterDropsAll(y, keep);
    FilterConcat(x + r, y, keep);
    FilterConcat(x, r, keep);
    assert Filter(x, keep) + Filter(r, keep) + Filter(y, keep) == Filter(r, keep);
  }

  /** All strings of ts laid end to end */
  function Concat(ts: seq<string>): string
    decreases |ts|
  {
    if |ts| == 0 then "" else ts[0] + Concat(ts[1..])
  }

  /** `" ".join(ts)` */
  function JoinSpace(ts: seq<string>): string
    decreases |ts|
  {
    if |ts| == 0 then "" else if |ts| == 1 then ts[0] else ts[0] + " " + JoinSpace(ts[1..])
  }

  predicate NoSpace(t: string) { forall i :: 0 <= i < |t| ==> !IsSpace(t[i]) }

  /** A token as `str.split()` produces it: nonempty, without whitespace */
  predicate IsBare(t: string) { |t| > 0 && NoSpace(t) }

  /** Length of the leading run of non-whitespace characters */
  function NonSpacePrefix(s: string): (n: nat)
    ensures n <= |s|
    ensures forall i :: 0 <= i < n ==> !IsSpace(s[i])
    ensures n == |s| || IsSpace(s[n])
    decreases |s|
  {
    if |s| == 0 || IsSpace(s[0]) then 0 else 1 + NonSpacePrefix(s[1..])
  }

  /** `str.split()` with no separator: the maximal whitespace-free runs */
  function Split(s: string): (ts: seq<string>)
    ensures forall k :: 0 <= k < |ts| ==> IsBare(ts[k])
    decreases |s|
  {
    if |s| == 0 then []
    else if IsSpace(s[0]) then Split(s[1..])
    else
      var n := NonSpacePrefix(s);
      var rest := Split(s[n..]);
      assert ([s[..n]] + rest)[1..] == rest;
      [s[..n]] + rest
  }

  /** Laid end to end, the tokens of `str.split()` are the input without its
      whitespace */
  lemma {:induction false} SplitKeepsNonSpace(s: string)
    ensures Concat(Split(s)) == Filter(s, IsNotSpace)
    decreases |s|
  {
    if |s| > 0 {
      if IsSpace(s[0]) {
        SplitKeepsNonSpace(s[1..]);
        SplitLeadingSpace(s);
      } else {
        var n := NonSpacePrefix(s);
        var rest := Split(s[n..]);
        assert s == s[..n] + s[n..];
        FilterConcat(s[..n], s[n..], IsNotSpace);
        FilterKeepsAll(s[..n], IsNotSpace);
        SplitKeepsNonSpace(s[n..]);
        SplitBare(s);
        assert ([s[..n]] + rest)[1..] == rest;
      }
    }
  }

  /** s[p..q] is a maximal nonempty run of characters satisfying inRun */
  ghost predicate IsRun(s: string, p: int, q: int, inRun: char -> bool)
  {
    && 0 <= p < q <= |s|
    && (p == 0 || !inRun(s[p - 1]))
    && (q == |s| || !inRun(s[q]))
    && forall i :: p <= i < q ==> inRun(s[i])
  }

  /** Runs of a suffix are runs of the whole string, shifted by the length of
      the prefix, when they do not continue a run of the prefix */
  lemma RunInSuffix(s: string, d: int, p: int, q: int, inRun: char -> bool)
    requires 0 <= d <= |s|
    requires IsRun(s[d..], p, q, inRun)
    requires p > 0 || d == 0 || !inRun(s[d - 1])
    ensures IsRun(s, p + d, q + d, inRun) && s[d..][p..q] == s[p + d..q + d]
  {
    assert forall i :: 0 <= i < |s| - d ==> s[d..][i] == s[i + d];
  }

  /** A run that begins at or after d is a run of the suffix from d */
  lemma RunOfSuffix(s: string, d: int, p: int, q: int, inRun: char -> bool)
    requires 0 <= d <= p
    requires IsRun(s, p, q, inRun)
    ensures IsRun(s[d..], p - d, q - d, inRun) && s[d..][p - d..q - d] == s[p..q]
  {
    assert forall i :: 0 <= i < |s| - d ==> s[d..][i] == s[i + d];
  }

  /** Every token of `str.split()` is a maximal whitespace-free run */
  lemma {:induction false} SplitSound(s: string, t: string)
    requires t in Split(s)
    ensures exists p, q :: IsRun(s, p, q, IsNotSpace) && t == s[p..q]
    decreases |s|
  {
    if IsSpace(s[0]) {
      SplitSound(s[1..], t);
      var p, q :| IsRun(s[1..], p, q, IsNotSpace) && t == s[1..][p..q];
      RunInSuffix(s, 1, p, q, IsNotSpace);
    } else {
      var n := NonSpacePrefix(s);
      if t == s[..n] {
        assert IsRun(s, 0, n, IsNotSpace);
      } else {
        assert Split(s) == [s[..n]] + Split(s[n..]);
        SplitSound(s[n..], t);
        var p, q :| IsRun(s[n..], p, q, IsNotSpace) && t == s[n..][p..q];
        assert p > 0 by {
          assert IsNotSpace(s[n..][p]);
        }
        RunInSuffix(s, n, p, q, IsNotSpace);
      }
    }
  }

  /** Every maximal whitespace-free run is a token of `str.split()` */
  lemma {:induction false} SplitComplete(s: string, p: int, q: int)
    requires IsRun(s, p, q, IsNotSpace)
    ensures s[p..q] in Split(s)
    decreases |s|, 1
  {
    if IsSpace(s[0]) {
      assert p > 0 by {
        assert IsNotSpace(s[p]);
      }
      RunOfSuffix(s, 1, p, q, IsNotSpace);
      SplitComplete(s[1..], p - 1, q - 1);
      SplitLeadingSpace(s);
    } else {
      SplitCompleteBare(s, p, q);
    }
  }

  lemma {:induction false} SplitCompleteBare(s: string, p: int, q: int)
    requires IsRun(s, p, q, IsNotSpace) && !IsSpace(s[0])
    ensures s[p..q] in Split(s)
    decreases |s|, 0
  {
    var n := NonSpacePrefix(s);
    RunAroundPrefix(s, p, q, n, IsNotSpace);
    SplitBare(s);
    if p > 0 {
      RunOfSuffix(s, n, p, q, IsNotSpace);
      assert 0 < n <= |s| && |s[n..]| < |s|;
      assert IsRun(s[n..], p - n, q - n, IsNotSpace);
      SplitComplete(s[n..], p - n, q - n);
      InTail(s[..n], Split(s[n..]), s[p..q]);
    }
  }

  lemma InTail<T>(x: T, xs: seq<T>, y: T)
    requires y in xs
    ensures y in [x] + xs
  {
  }

  /** A string starting with non-whitespace splits into its leading run and
      the split of the rest */
  lemma SplitBare(s: string)
    requires |s| > 0 && !IsSpace(s[0])
    ensures Split(s) == [s[..NonSpacePrefix(s)]] + Split(s[NonSpacePrefix(s)..])
  {
  }

  /** Where n ends the leading run of s, a run at the start ends at n and any
      other run begins after n */
  lemma RunAroundPrefix(s: string, p: int, q: int, n: int, inRun: char -> bool)
    requires IsRun(s, p, q, inRun)
    requires 0 <= n <= |s| && (n == |s| || !inRun(s[n]))
    requires forall i :: 0 <= i < n ==> inRun(s[i])
    ensures p == 0 ==> q == n
    ensures p > 0 ==> p > n
  {
    if p > 0 {
      assert !inRun(s[p - 1]);
    }
  }

  /** Splitting a bare token followed by whitespace (or nothing) peels it off */
  lemma SplitAfterBare(t: string, tail: string)
    requires IsBare(t)
    requires tail == "" || IsSpace(tail[0])
    ensures Split(t + tail) == [t] + Split(tail)
  {
    var s := t + tail;
    var n := NonSpacePrefix(s);
    assert forall i :: 0 <= i < |t| ==> s[i] == t[i] && !IsSpace(s[i]);
    assert |t| == |s| || IsSpace(s[|t|]);
    assert n == |t|;
    assert s[..n] == t && s[n..] == tail;
  }

  /** Splitting the single-space join of bare tokens gives the tokens back */
  lemma {:induction false} SplitJoinSpace(ts: seq<string>)
    requires forall k :: 0 <= k < |ts| ==> IsBare(ts[k])
    ensures Split(JoinSpace(ts)) == ts
    decreases |ts|
  {
    if |ts| == 1 {
      SplitAfterBare(ts[0], "");
      assert ts[0] + "" == ts[0];
    } else if |ts| > 1 {
      var rest := JoinSpace(ts[1..]);
      var tail := " " + rest;
      assert JoinSpace(ts) == ts[0] + tail;
      SplitAfterBare(ts[0], tail);
      SplitLeadingSpace(tail);
      assert tail[1..] == rest;
      SplitJoinSpace(ts[1..]);
      assert [ts[0]] + ts[1..] == ts;
    }
  }

  lemma SplitLeadingSpace(s: string)
    requires |s| > 0 && IsSpace(s[0])
    ensures Split(s) == Split(s[1..])
  {
  }

  /** Every string of ts lower-cased */
  function LowerAll(ts: seq<string>): (r: seq<string>)
    ensures |r| == |ts|
    ensures forall k :: 0 <= k < |ts| ==> r[k] == LowerStr(ts[k])
  {
    seq(|ts|, k requires 0 <= k < |ts| => LowerStr(ts[k]))
  }

  lemma LowerBare(t: string)
    requires IsBare(t)
    ensures IsBare(LowerStr(t))
  {
    var l := LowerStr(t);
    forall i | 0 <= i < |l| ensures !IsSpace(l[i]) {
      assert l[i] == Lower(t[i]);
    }
  }

  /** Lower-casing a join is joining the lower-cased tokens */
  lemma {:induction false} LowerJoinSpace(ts: seq<string>)
    ensures LowerStr(JoinSpace(ts)) == JoinSpace(LowerAll(ts))
    decreases |ts|
  {
    var low := LowerAll(ts);
    if |ts| > 1 {
      LowerJoinSpace(ts[1..]);
      assert low[1..] == LowerAll(ts[1..]);
      LowerStrConcat(ts[0] + " ", JoinSpace(ts[1..]));
      LowerStrConcat(ts[0], " ");
      assert LowerStr(" ") == " ";
    }
  }

  /** `str.lstrip()`: s without its leading whitespace */
  function StripLeft(s: string): (r: string)
    ensures r == "" <==> forall i :: 0 <= i < |s| ==> IsSpace(s[i])
    ensures r != "" ==> !IsSpace(r[0])
    ensures |r| <= |s| && r == s[|s| - |r|..]
    ensures forall j :: 0 <= j < |s| - |r| ==> IsSpace(s[j])
    ensures Filter(r, IsNotSpace) == Filter(s, IsNotSpace)
    decreases |s|
  {
    if |s| > 0 && IsSpace(s[0]) then StripLeft(s[1..]) else s
  }

  /** `str.rstrip()`: s without its trailing whitespace */
  function StripRight(s: string): (r: string)
    ensures r != "" ==> !IsSpace(r[|r| - 1])
    ensures |r| <= |s| && r == s[..|r|]
    ensures forall j :: |r| <= j < |s| ==> IsSpace(s[j])
    ensures |s| > 0 && !IsSpace(s[0]) ==> r != ""
    ensures Filter(r, IsNotSpace) == Filter(s, IsNotSpace)
    decreases |s|
  {
    if |s| > 0 && IsSpace(s[|s| - 1]) then
      var init := s[..|s| - 1];
      assert s == init + [s[|s| - 1]];
      FilterConcat(init, [s[|s| - 1]], IsNotSpace);
      StripRight(init)
    else s
  }

  /** `str.strip()`: removes leading and trailing whitespace only */
  function Strip(s: string): (r: string)
    ensures r == "" <==> forall i :: 0 <= i < |s| ==> IsSpace(s[i])
    ensures r != "" ==> !IsSpace(r[0]) && !IsSpace(r[|r| - 1])
    ensures Filter(r, IsNotSpace) == Filter(s, IsNotSpace)
    ensures exists i :: IsTrimmed(s, r, i)
  {
    var l := StripLeft(s);
    var r := StripRight(l);
    assert r != "" ==> r[0] == l[0];
    StripTrimmed(s);
    r
  }

  /** Text that starts and ends with non-whitespace is left as it is */
  lemma StripUnchanged(s: string)
    requires |s| > 0 && !IsSpace(s[0]) && !IsSpace(s[|s| - 1])
    ensures Strip(s) == s
  {
    var r := Strip(s);
    var i :| IsTrimmed(s, r, i);
    assert r != "";
    assert i == 0 && i + |r| == |s|;
    assert s[..|s|] == s;
  }

  lemma StripTrimmed(s: string)
    ensures IsTrimmed(s, StripRight(StripLeft(s)), |s| - |StripLeft(s)|)
  {
    TrimmedOfParts(s, StripLeft(s), StripRight(StripLeft(s)));
  }

  /** A whitespace-only cut from the front of s, then one from the back of
      what is left, trims s */
  lemma TrimmedOfParts(s: string, l: string, r: string)
    requires |l| <= |s| && l == s[|s| - |l|..]
    requires forall j :: 0 <= j < |s| - |l| ==> IsSpace(s[j])
    requires |r| <= |l| && r == l[..|r|]
    requires forall j :: |r| <= j < |l| ==> IsSpace(l[j])
    ensures IsTrimmed(s, r, |s| - |l|)
  {
    var i := |s| - |l|;
    PrefixOfSuffix(s, i, |r|);
    forall j | i + |r| <= j < |s|
      ensures IsSpace(s[j])
    {
      assert s[j] == l[j - i];
    }
  }

  lemma PrefixOfSuffix(s: string, i: int, n: int)
    requires 0 <= i && 0 <= n && i + n <= |s|
    ensures s[i..][..n] == s[i..i + n]
  {
  }

  /** r is s[i..i + |r|], and everything of s before and after it is whitespace */
  ghost predicate IsTrimmed(s: string, r: string, i: int)
  {
    && 0 <= i <= |s| - |r|
    && r == s[i..i + |r|]
    && (forall j :: 0 <= j < i ==> IsSpace(s[j]))
    && (forall j :: i + |r| <= j < |s| ==> IsSpace(s[j]))
  }

  /** target occurs in s */
  ghost predicate Occurs(target: string, s: string)
  {
    exists p :: OccursAt(target, s, p)
  }

  /** target occurs in s starting at position p */
  predicate OccursAt(target: string, s: string, p: int)
  {
    0 <= p && p + |target| <= |s| && s[p..p + |target|] == target
  }

  /** `s.replace(target, replacement)`: every non-overlapping occurrence of a
      nonempty target, found left to right, is replaced; an empty target puts
      the replacement before every character and at the end */
  function Replace(s: string, target: string, replacement: string): string
  {
    if target == "" then Interleave(s, replacement) else ReplaceEach(s, target, replacement)
  }

  function Interleave(s: string, sep: string): string
    decreases |s|
  {
    if |s| == 0 then sep else sep + [s[0]] + Interleave(s[1..], sep)
  }

  function ReplaceEach(s: string, target: string, replacement: string): string
    requires target != ""
    decreases |s|
  {
    if |s| < |target| then s
    else if s[..|target|] == target then replacement + ReplaceEach(s[|target|..], target, replacement)
    else [s[0]] + ReplaceEach(s[1..], target, replacement)
  }

  /** Replacing a string by itself changes nothing */
  lemma {:induction false} ReplaceIdentity(s: string, target: string)
    ensures Replace(s, target, target) == s
  {
    if target == "" {
      InterleaveEmpty(s);
    } else {
      ReplaceEachIdentity(s, target);
    }
  }

  lemma {:induction false} InterleaveEmpty(s: string)
    ensures Interleave(s, "") == s
    decreases |s|
  {
    if |s| > 0 {
      InterleaveEmpty(s[1..]);
    }
  }

  lemma {:induction false} ReplaceEachIdentity(s: string, target: string)
    requires target != ""
    ensures ReplaceEach(s, target, target) == s
    decreases |s|
  {
    if |s| >= |target| {
      if s[..|target|] == target {
        ReplaceEachIdentity(s[|target|..], target);
        assert s == s[..|target|] + s[|target|..];
      } else {
        ReplaceEachIdentity(s[1..], target);
      }
    }
  }

  /** A target that does not occur leaves the string as it is */
  lemma {:induction false} ReplaceAbsent(s: string, target: string, replacement: string)
    requires target != ""
    requires !Occurs(target, s)
    ensures Replace(s, target, replacement) == s
    decreases |s|
  {
    if |s| >= |target| {
      assert s[0..0 + |target|] == s[..|target|];
      assert !OccursAt(target, s, 0);
      forall p | OccursAt(target, s[1..], p)
        ensures OccursAt(target, s, p + 1)
      {
        assert s[p + 1..p + 1 + |target|] == s[1..][p..p + |target|];
      }
      ReplaceAbsent(s[1..], target, replacement);
    }
  }

  /** Replacing a whole nonempty string by another gives the other */
  lemma ReplaceWhole(s: string, replacement: string)
    requires s != ""
    ensures Replace(s, s, replacement) == replacement
  {
    assert s[..|s|] == s;
    assert ReplaceEach(s[|s|..], s, replacement) == "";
  }

  /** A word framed by characters that cannot start it is replaced in place */
  lemma {:induction false} ReplaceFramed(a: string, w: string, b: string, replacement: string)
    requires w != ""
    requires forall i :: 0 <= i < |a| ==> a[i] != w[0]
    requires forall i :: 0 <= i < |b| ==> b[i] != w[0]
    ensures Replace(a + w + b, w, replacement) == a + replacement + b
    decreases |a|
  {
    var s := a + w + b;
    if |a| > 0 {
      assert s[..|w|] != w by {
        assert s[..|w|][0] == a[0];
      }
      assert s[1..] == a[1..] + w + b;
      ReplaceFramed(a[1..], w, b, replacement);
      assert ReplaceEach(s, w, replacement) == [a[0]] + (a[1..] + replacement + b);
      assert [a[0]] + (a[1..] + replacement + b) == a + replacement + b;
    } else {
      assert s == w + b && a + replacement + b == replacement + b;
      ReplaceAtStart(w, b, replacement);
    }
  }

  /** A word followed by characters that cannot start it is replaced once */
  lemma ReplaceAtStart(w: string, b: string, replacement: string)
    requires w != ""
    requires forall i :: 0 <= i < |b| ==> b[i] != w[0]
    ensures Replace(w + b, w, replacement) == replacement + b
  {
    var s := w + b;
    assert s[..|w|] == w && s[|w|..] == b;
    forall p ensures !OccursAt(w, b, p) {
      OccursStartsWith(w, b, p);
    }
    ReplaceAbsent(b, w, replacement);
  }

  /** An occurrence of a nonempty target begins with the target's first character */
  lemma OccursStartsWith(target: string, s: string, p: int)
    ensures OccursAt(target, s, p) && target != "" ==> s[p] == target[0]
  {
    if OccursAt(target, s, p) && target != "" {
      assert s[p..p + |target|][0] == s[p];
    }
  }

  /** Replacement keeps a bare token bare when it cannot erase it */
  lemma ReplaceBare(s: string, target: string, replacement: string)
    requires IsBare(s) && NoSpace(replacement)
    requires target == "" || replacement != ""
    ensures IsBare(Replace(s, target, replacement))
  {
    if target == "" {
      InterleaveNoSpace(s, replacement);
    } else {
      ReplaceEachNoSpace(s, target, replacement);
    }
  }

  lemma {:induction false} InterleaveNoSpace(s: string, sep: string)
    requires NoSpace(s) && NoSpace(sep)
    ensures NoSpace(Interleave(s, sep))
    ensures |Interleave(s, sep)| >= |s|
    decreases |s|
  {
    if |s| > 0 {
      InterleaveNoSpace(s[1..], sep);
    }
  }

  lemma {:induction false} ReplaceEachNoSpace(s: string, target: string, replacement: string)
    requires target != ""
    requires NoSpace(s) && NoSpace(replacement)
    ensures NoSpace(ReplaceEach(s, target, replacement))
    ensures |s| > 0 && replacement != "" ==> |ReplaceEach(s, target, replacement)| > 0
    decreases |s|
  {
    if |s| >= |target| {
      if s[..|target|] == target {
        ReplaceEachNoSpace(s[|target|..], target, replacement);
      } else {
        ReplaceEachNoSpace(s[1..], target, replacement);
      }
    }
  }
}
