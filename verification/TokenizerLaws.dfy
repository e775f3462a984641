/** What the words of a line are, how a line is put together from them, and
    when they fit the argument vector of the shell. */
module TokenizerLaws {
  import opened Tokenizer

  // ---- Words are the maximal runs ----

  ghost predicate NoSpace(s: string) { forall i :: 0 <= i < |s| ==> !IsSpace(s[i]) }
  ghost predicate AllSpace(s: string) { forall i :: 0 <= i < |s| ==> IsSpace(s[i]) }

  /** A stretch without white space that cannot be made longer on either side. */
  ghost predicate IsMaximalRun(s: string, b: nat, e: nat) {
    && b < e <= |s| && NoSpace(s[b..e])
    && (b == 0 || IsSpace(s[b - 1])) && (e == |s| || IsSpace(s[e]))
  }

  lemma {:induction false} StartsComplete(s: string, i: nat, b: nat)
    requires i <= b < |s|
    ensures b in Starts(s, i) <==> IsStart(s, b)
    decreases |s| - i
  {
    StartsInside(s, i);
    if i < |s| {
      StartsInside(s, i + 1);
      if i < b {
        StartsComplete(s, i + 1, b);
      }
    }
  }

  lemma {:induction false} WordAtStart(s: string, i: nat, k: nat)
    requires i <= |s| && (i == 0 || i == |s| || IsSpace(s[i]) || IsSpace(s[i - 1]))
    requires k < |Starts(s, i)| && |Starts(s, i)| == |WordsFrom(s, i)|
    ensures Starts(s, i)[k] <= |s| && WordsFrom(s, i)[k] == s[Starts(s, i)[k]..RunEnd(s, Starts(s, i)[k])]
    decreases |s| - i
  {
    if i < |s| {
      if IsSpace(s[i]) {
        WordAtStart(s, i + 1, k);
      } else {
        NoStartInRun(s, i + 1, RunEnd(s, i));
        if k > 0 {
          WordAtStart(s, RunEnd(s, i), k - 1);
        }
      }
    }
  }

  /** The words, with the places they start, are the maximal runs of
      non-space characters: each of them is one, and none is left out. */
  lemma WordsAreMaximalRuns(s: string, b: nat, e: nat)
    ensures |Starts(s, 0)| == |Words(s)|
    ensures IsMaximalRun(s, b, e) <==>
            b < e <= |s| && exists k :: 0 <= k < |Words(s)| && Starts(s, 0)[k] == b && Words(s)[k] == s[b..e]
  {
    WordCount(s);
    StartsInside(s, 0);
    if IsMaximalRun(s, b, e) {
      assert s[b..e][0] == s[b];
      StartsComplete(s, 0, b);
      var k :| 0 <= k < |Starts(s, 0)| && Starts(s, 0)[k] == b;
      WordAtStart(s, 0, k);
      assert forall j :: b <= j < e ==> s[j] == s[b..e][j - b];
    }
    if k :| b < e <= |s| && 0 <= k < |Words(s)| && Starts(s, 0)[k] == b && Words(s)[k] == s[b..e] {
      WordAtStart(s, 0, k);
      StartsComplete(s, 0, b);
      assert |s[b..RunEnd(s, b)]| == |s[b..e]|;
    }
  }

  // ---- Joining words and splitting them again ----

  /** What a command-line word is: not empty, no white space, no NUL. */
  ghost predicate IsWord(w: string) { w != [] && NoSpace(w) && NUL !in w }

  /** White space before, between and after words; only the inner gaps must
      not be empty. */
  ghost predicate IsGaps(gaps: seq<string>, n: nat) {
    && |gaps| == n + 1
    && forall i :: 0 <= i <= n ==> AllSpace(gaps[i]) && (0 < i < n ==> gaps[i] != [])
  }

  function Join(words: seq<string>, gaps: seq<string>): string
    requires |gaps| == |words| + 1
  {
    if words == [] then gaps[0] else gaps[0] + words[0] + Join(words[1..], gaps[1..])
  }

  /** `t` is what `s` holds from `n` on. */
  ghost predicate IsTail(s: string, n: nat, t: string) {
    |s| == n + |t| && forall k :: 0 <= k < |t| ==> s[n + k] == t[k]
  }

  lemma {:induction false} RunEndShift(s: string, n: nat, t: string, i: nat)
    requires IsTail(s, n, t) && i <= |t|
    ensures RunEnd(s, n + i) == n + RunEnd(t, i)
    decreases |t| - i
  {
    if i < |t| && !IsSpace(t[i]) {
      RunEndShift(s, n, t, i + 1);
    }
  }

  lemma WordsFromSpace(s: string, i: nat)
    requires i < |s| && IsSpace(s[i])
    ensures WordsFrom(s, i) == WordsFrom(s, i + 1)
  {
  }

  lemma WordsFromRun(s: string, i: nat, e: nat)
    requires i < |s| && !IsSpace(s[i]) && e == RunEnd(s, i)
    ensures i < e <= |s| && WordsFrom(s, i) == [s[i..e]] + WordsFrom(s, e)
  {
  }

  lemma {:induction false} WordsShift(s: string, n: nat, t: string, i: nat, j: nat)
    requires IsTail(s, n, t) && i <= |t| && j == n + i
    ensures WordsFrom(s, j) == WordsFrom(t, i)
    decreases |t| - i
  {
    if i < |t| {
      assert s[n + i] == t[i];
      if IsSpace(t[i]) {
        WordsShift(s, n, t, i + 1, j + 1);
        WordsFromSpace(t, i);
        WordsFromSpace(s, j);
      } else {
        var e := RunEnd(t, i);
        var f := n + e;
        RunEndShift(s, n, t, i);
        WordsFromRun(t, i, e);
        WordsFromRun(s, j, f);
        TailSlice(s, n, t, i, e);
        WordsShift(s, n, t, e, f);
      }
    }
  }

  lemma TailSlice(s: string, n: nat, t: string, i: nat, e: nat)
    requires IsTail(s, n, t) && i <= e <= |t|
    ensures s[n + i..n + e] == t[i..e]
  {
  }

  lemma {:induction false} SkipSpace(s: string, i: nat, j: nat)
    requires i <= j <= |s| && forall k :: i <= k < j ==> IsSpace(s[k])
    ensures WordsFrom(s, i) == WordsFrom(s, j)
    decreases j - i
  {
    if i < j {
      SkipSpace(s, i + 1, j);
    }
  }

  lemma {:induction false} RunEndIs(s: string, i: nat, e: nat)
    requires i <= e <= |s| && (forall k :: i <= k < e ==> !IsSpace(s[k])) && (e == |s| || IsSpace(s[e]))
    ensures RunEnd(s, i) == e
    decreases e - i
  {
    if i < e {
      RunEndIs(s, i + 1, e);
    }
  }

  /** A gap, a word and a rest that does not continue the word. */
  lemma WordsOfCons(g: string, w: string, t: string)
    requires AllSpace(g) && IsWord(w) && (t == [] || IsSpace(t[0]))
    ensures Words(g + w + t) == [w] + Words(t)
  {
    var s := g + w + t;
    SkipSpace(s, 0, |g|);
    RunEndIs(s, |g|, |g + w|);
    assert s[|g|..|g + w|] == w;
    WordsShift(s, |g + w|, t, 0, |g + w|);
  }

  /** Tokenizing a joined line gives the words back. */
  lemma {:induction false} WordsOfJoin(words: seq<string>, gaps: seq<string>)
    requires IsGaps(gaps, |words|) && forall i :: 0 <= i < |words| ==> IsWord(words[i])
    ensures Words(Join(words, gaps)) == words
  {
    if words == [] {
      SkipSpace(gaps[0], 0, |gaps[0]|);
    } else {
      var rest := Join(words[1..], gaps[1..]);
      assert IsGaps(gaps[1..], |words[1..]|) by {
        assert forall i :: 0 <= i < |words| ==> gaps[1..][i] == gaps[i + 1];
      }
      assert |words| > 1 ==> rest[0] == gaps[1][0];
      assert |words| == 1 ==> rest == gaps[1];
      WordsOfJoin(words[1..], gaps[1..]);
      WordsOfCons(gaps[0], words[0], rest);
    }
  }

  lemma {:induction false} WordsAreWords(s: string, i: nat)
    requires i <= |s| && NUL !in s
    ensures forall k :: 0 <= k < |WordsFrom(s, i)| ==> IsWord(WordsFrom(s, i)[k])
    decreases |s| - i
  {
    if i < |s| {
      if IsSpace(s[i]) {
        WordsAreWords(s, i + 1);
      } else {
        assert IsWord(s[i..RunEnd(s, i)]);
        WordsAreWords(s, RunEnd(s, i));
      }
    }
  }

  /** Every line is its words with white space around them, so no two lines
      differ in anything but white space once their words agree. */
  lemma {:induction false} EveryLineIsAJoin(s: string, i: nat) returns (gaps: seq<string>)
    requires i <= |s| && NUL !in s
    ensures IsGaps(gaps, |WordsFrom(s, i)|) && Join(WordsFrom(s, i), gaps) == s[i..]
    ensures i < |s| && IsSpace(s[i]) ==> gaps[0] != []
    decreases |s| - i
  {
    if i == |s| {
      gaps := [[]];
    } else if IsSpace(s[i]) {
      var rest := EveryLineIsAJoin(s, i + 1);
      gaps := rest[0 := [s[i]] + rest[0]];
      JoinFirstGap(WordsFrom(s, i), rest, [s[i]]);
      assert s[i..] == [s[i]] + s[i + 1..];
    } else {
      var e := RunEnd(s, i);
      var rest := EveryLineIsAJoin(s, e);
      gaps := [[]] + rest;
      JoinCons(s[i..e], WordsFrom(s, e), rest);
      assert s[i..] == s[i..e] + s[e..];
      assert |WordsFrom(s, e)| > 0 ==> e < |s|;
    }
  }

  lemma JoinCons(w: string, words: seq<string>, gaps: seq<string>)
    requires |gaps| == |words| + 1
    ensures Join([w] + words, [[]] + gaps) == w + Join(words, gaps)
  {
    assert ([w] + words)[1..] == words && ([[]] + gaps)[1..] == gaps;
    assert [] + w == w;
  }

  lemma JoinFirstGap(words: seq<string>, gaps: seq<string>, g: string)
    requires |gaps| == |words| + 1
    ensures Join(words, gaps[0 := g + gaps[0]]) == g + Join(words, gaps)
  {
    var gaps' := gaps[0 := g + gaps[0]];
    assert gaps'[1..] == gaps[1..];
    if words != [] {
      assert gaps'[0] + words[0] + Join(words[1..], gaps[1..])
          == g + (gaps[0] + words[0] + Join(words[1..], gaps[1..]));
    }
  }

  // ---- The six characters that separate words ----

  lemma {:induction false} RunEndBefore(s: string, a: string, i: nat)
    requires |a| < |s| && s[..|a|] == a && IsSpace(s[|a|]) && i <= |a|
    ensures RunEnd(s, i) == RunEnd(a, i)
    decreases |a| - i
  {
    if i < |a| {
      assert s[i] == s[..|a|][i];
      if !IsSpace(a[i]) {
        RunEndBefore(s, a, i + 1);
      }
    }
  }

  lemma PrefixSlice(s: string, a: string, i: nat, e: nat)
    requires |a| <= |s| && s[..|a|] == a && i <= e <= |a|
    ensures s[i..e] == a[i..e]
  {
    forall k | i <= k < e ensures s[k] == a[k] { assert s[k] == s[..|a|][k]; }
  }

  lemma {:induction false} WordsBefore(s: string, a: string, i: nat)
    requires |a| < |s| && s[..|a|] == a && IsSpace(s[|a|]) && i <= |a|
    ensures WordsFrom(s, i) == WordsFrom(a, i) + WordsFrom(s, |a| + 1)
    decreases |a| - i
  {
    if i == |a| {
      WordsFromSpace(s, i);
    } else {
      assert s[i] == s[..|a|][i];
      if IsSpace(a[i]) {
        WordsFromSpace(s, i);
        WordsFromSpace(a, i);
        WordsBefore(s, a, i + 1);
      } else {
        var e := RunEnd(a, i);
        RunEndBefore(s, a, i);
        WordsFromRun(s, i, e);
        WordsFromRun(a, i, e);
        PrefixSlice(s, a, i, e);
        WordsBefore(s, a, e);
      }
    }
  }

  lemma SpaceSeparates(a: string, c: char, b: string)
    requires IsSpace(c)
    ensures Words(a + [c] + b) == Words(a) + Words(b)
  {
    var s := a + [c] + b;
    assert s[..|a|] == a && s[|a|] == c;
    WordsBefore(s, a, 0);
    WordsShift(s, |a| + 1, b, 0, |a| + 1);
  }

  /** Space, horizontal and vertical tab, new-line, form feed and carriage return
      each separate words; so the new-line at the end of a typed line is no part
      of its last word. */
  lemma SixSeparators(a: string, b: string)
    ensures Words(a + [' '] + b) == Words(a + ['\t'] + b) == Words(a + ['\U{0B}'] + b) == Words(a) + Words(b)
    ensures Words(a + ['\n'] + b) == Words(a + ['\U{0C}'] + b) == Words(a + ['\r'] + b) == Words(a) + Words(b)
    ensures Words(a + ['\n']) == Words(a)
  {
    SpaceSeparates(a, ' ', b);
    SpaceSeparates(a, '\t', b);
    SpaceSeparates(a, '\U{0B}', b);
    SpaceSeparates(a, '\n', b);
    SpaceSeparates(a, '\U{0C}', b);
    SpaceSeparates(a, '\r', b);
    SpaceSeparates(a, '\n', []);
    assert a + ['\n'] + [] == a + ['\n'] && Words(a) + Words([]) == Words(a);
  }

  /** Nothing else does: a line without those six is one word, or empty. */
  lemma NoOtherSeparators(s: string)
    requires forall i :: 0 <= i < |s| ==> s[i] !in {' ', '\t', '\U{0B}', '\n', '\U{0C}', '\r'}
    ensures Words(s) == if s == [] then [] else [s]
  {
    if s != [] {
      assert !IsSpace(s[0]);
      RunEndIs(s, 0, |s|);
      WordsFromRun(s, 0, |s|);
      assert s[0..|s|] == s;
    }
  }

  // ---- How many words there can be ----

  /** At most one word for every two characters, rounded up. */
  lemma {:induction false} WordsBound(s: string, i: nat)
    requires i <= |s|
    ensures 2 * |WordsFrom(s, i)| <= |s| - i + 1
    ensures i < |s| && IsSpace(s[i]) ==> 2 * |WordsFrom(s, i)| <= |s| - i
    decreases |s| - i
  {
    if i < |s| {
      if IsSpace(s[i]) {
        WordsBound(s, i + 1);
      } else {
        WordsBound(s, RunEnd(s, i));
      }
    }
  }

  /** The line "x x x ..." of `n` characters has the most words a line can have. */
  lemma {:induction false} MostWords(n: nat) returns (s: string)
    ensures |s| == n && NUL !in s && 2 * |Words(s)| >= n
    decreases n
  {
    if n == 0 {
      s := [];
    } else if n == 1 {
      s := ['x'];
    } else {
      var t := MostWords(n - 2);
      s := ['x', ' '] + t;
      RunEndIs(s, 0, 1);
      WordsShift(s, 2, t, 0, 2);
      assert WordsFrom(s, 1) == WordsFrom(s, 2);
    }
  }

  /** All lines of `n` characters fit the argument vector exactly when n is at
      most 200; the line buffer of the shell holds 999. */
  lemma ArgvFitsIff(n: nat)
    ensures (forall s: string :: |s| == n && NUL !in s ==> |Words(s)| <= ARGV_SLOTS) <==> n <= 200
  {
    if n <= 200 {
      forall s: string | |s| == n && NUL !in s
        ensures |Words(s)| <= ARGV_SLOTS
      {
        WordsBound(s, 0);
      }
    } else {
      var s := MostWords(n);
    }
  }
}
