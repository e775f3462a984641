/** The in-place tokenizer of shell.c: it overwrites white space in a command
    line with NULs and records where each word starts. */
module Tokenizer {

  /** The length of the shell's argument vector. */
  const ARGV_SLOTS: nat := 100

  const NUL: char := '\0'

  /** White space of the "C" locale, section 7.4.1.10 of ISO/IEC 9899:1999:
      space, form feed, new-line, carriage return, horizontal and vertical tab. */
  predicate IsSpace(c: char) {
    c == ' ' || c == '\U{0C}' || c == '\n' || c == '\r' || c == '\t' || c == '\U{0B}'
  }

  // ---- The words of a line ----

  /** Where the run of non-space characters starting at `i` ends. */
  function RunEnd(s: string, i: nat): (e: nat)
    requires i <= |s|
    ensures i <= e <= |s|
    ensures forall k :: i <= k < e ==> !IsSpace(s[k])
    ensures e < |s| ==> IsSpace(s[e])
    decreases |s| - i
  {
    if i == |s| || IsSpace(s[i]) then i else RunEnd(s, i + 1)
  }

  /** The maximal runs of non-space characters from `i` on, in order. */
  function WordsFrom(s: string, i: nat): seq<string>
    requires i <= |s|
    decreases |s| - i
  {
    if i == |s| then []
    else if IsSpace(s[i]) then WordsFrom(s, i + 1)
    else [s[i..RunEnd(s, i)]] + WordsFrom(s, RunEnd(s, i))
  }

  function Words(s: string): seq<string> { WordsFrom(s, 0) }

  // ---- What the loop computes: word starts and a blanked buffer ----

  /** A word starts at `i`: no space here, none or a space just before. */
  predicate IsStart(s: string, i: nat)
    requires i < |s|
  {
    !IsSpace(s[i]) && (i == 0 || IsSpace(s[i - 1]))
  }

  /** The word starts from `i` on, in order. */
  function Starts(s: string, i: nat): seq<nat>
    requires i <= |s|
    decreases |s| - i
  {
    if i == |s| then []
    else if IsStart(s, i) then [i] + Starts(s, i + 1)
    else Starts(s, i + 1)
  }

  /** The C string at offset `p`: the characters up to the first NUL. */
  function CStringAt(buf: string, p: nat): string
    decreases |buf| - p
  {
    if p >= |buf| || buf[p] == NUL then [] else [buf[p]] + CStringAt(buf, p + 1)
  }

  /** The C strings at the given offsets. */
  function CStringsAt(buf: string, ptrs: seq<nat>): seq<string> {
    if ptrs == [] then [] else [CStringAt(buf, ptrs[0])] + CStringsAt(buf, ptrs[1..])
  }

  /** `buf` holds the C string `s`. */
  ghost predicate Holds(buf: string, s: string) {
    && |s| < |buf| && buf[|s|] == NUL
    && forall i :: 0 <= i < |s| ==> buf[i] == s[i] && s[i] != NUL
  }

  /** `buf` holds `s` with its white space turned to NULs. */
  ghost predicate Blanked(buf: string, s: string) {
    && |s| < |buf| && buf[|s|] == NUL
    && forall i :: 0 <= i < |s| ==> s[i] != NUL && buf[i] == if IsSpace(s[i]) then NUL else s[i]
  }

  /** Places in strictly increasing order, within bounds. */
  ghost predicate Rising(places: seq<nat>, from: nat, to: nat) {
    && (forall k :: 0 <= k < |places| ==> from <= places[k] < to)
    && (forall j, k :: 0 <= j < k < |places| ==> places[j] < places[k])
  }

  lemma {:induction false} StartsInside(s: string, i: nat)
    requires i <= |s|
    ensures Rising(Starts(s, i), i, |s|)
    decreases |s| - i
  {
    if i < |s| {
      StartsInside(s, i + 1);
    }
  }

  /** No word starts in the middle of a run. */
  lemma {:induction false} NoStartInRun(s: string, i: nat, e: nat)
    requires 0 < i <= e <= |s| && forall k :: i - 1 <= k < e ==> !IsSpace(s[k])
    ensures Starts(s, i) == Starts(s, e)
    decreases e - i
  {
    if i < e {
      NoStartInRun(s, i + 1, e);
    }
  }

  /** The C string at a place of a blanked line is the run that starts there. */
  lemma {:induction false} BlankedRun(buf: string, s: string, i: nat)
    requires Blanked(buf, s) && i <= |s|
    ensures CStringAt(buf, i) == s[i..RunEnd(s, i)]
    decreases |s| - i
  {
    if i < |s| && !IsSpace(s[i]) {
      BlankedRun(buf, s, i + 1);
    }
  }

  /** The C strings at the word starts of a blanked line are its words. */
  lemma {:induction false} StartsAreWords(buf: string, s: string, i: nat)
    requires Blanked(buf, s) && i <= |s| && (i == 0 || i == |s| || IsSpace(s[i]) || IsSpace(s[i - 1]))
    ensures CStringsAt(buf, Starts(s, i)) == WordsFrom(s, i)
    decreases |s| - i
  {
    if i < |s| {
      if IsSpace(s[i]) {
        StartsAreWords(buf, s, i + 1);
      } else {
        var e := RunEnd(s, i);
        NoStartInRun(s, i + 1, e);
        BlankedRun(buf, s, i);
        StartsAreWords(buf, s, e);
        assert Starts(s, i)[1..] == Starts(s, e);
      }
    }
  }

  // ---- The tokenizer ----

  /** Before byte `b`: the white space so far is blanked, the word starts so far
      are in the first `count` pointers, and the rest is as it was. */
  ghost predicate Scanned(s: string, buf0: string, ptrs0: seq<nat>, buf: string, ptrs: seq<nat>, b: nat, count: nat) {
    && Holds(buf0, s) && |buf| == |buf0| && |ptrs| == |ptrs0| && b <= |s| && count <= |ptrs|
    && (forall i :: 0 <= i < b ==> buf[i] == if IsSpace(s[i]) then NUL else s[i])
    && buf[b..] == buf0[b..]
    && ptrs[..count] + Starts(s, b) == Starts(s, 0)
    && ptrs[count..] == ptrs0[count..]
  }

  lemma ScannedByte(s: string, buf0: string, ptrs0: seq<nat>, buf: string, ptrs: seq<nat>, b: nat, count: nat)
    requires Scanned(s, buf0, ptrs0, buf, ptrs, b, count) && |Starts(s, 0)| <= |ptrs|
    ensures b < |buf| && (buf[b] == NUL <==> b == |s|)
    ensures b < |s| ==> buf[b] == s[b] && (IsStart(s, b) ==> count < |ptrs|)
  {
    assert buf[b] == buf[b..][0] == buf0[b..][0];
  }

  lemma BlankTurn(s: string, buf0: string, ptrs0: seq<nat>, buf: string, ptrs: seq<nat>, b: nat, count: nat)
    requires b < |s| && IsSpace(s[b]) && Scanned(s, buf0, ptrs0, buf, ptrs, b, count)
    ensures b < |buf| && Scanned(s, buf0, ptrs0, buf[b := NUL], ptrs, b + 1, count)
  {
    assert buf[b := NUL][b + 1..] == buf[b..][1..] && buf0[b + 1..] == buf0[b..][1..];
  }

  lemma StartTurn(s: string, buf0: string, ptrs0: seq<nat>, buf: string, ptrs: seq<nat>, b: nat, count: nat)
    requires b < |s| && IsStart(s, b) && Scanned(s, buf0, ptrs0, buf, ptrs, b, count)
    requires count < |ptrs| && buf[b] == s[b]
    ensures Scanned(s, buf0, ptrs0, buf, ptrs[count := b], b + 1, count + 1)
  {
    assert buf[b + 1..] == buf[b..][1..] && buf0[b + 1..] == buf0[b..][1..];
    var ptrs' := ptrs[count := b];
    assert ptrs'[..count + 1] == ptrs[..count] + [b];
    assert ptrs[..count] + ([b] + Starts(s, b + 1)) == ptrs[..count] + [b] + Starts(s, b + 1);
    assert ptrs'[count + 1..] == ptrs[count..][1..] && ptrs0[count + 1..] == ptrs0[count..][1..];
  }

  lemma InnerTurn(s: string, buf0: string, ptrs0: seq<nat>, buf: string, ptrs: seq<nat>, b: nat, count: nat)
    requires b < |s| && !IsSpace(s[b]) && !IsStart(s, b) && Scanned(s, buf0, ptrs0, buf, ptrs, b, count)
    requires b < |buf| && buf[b] == s[b]
    ensures Scanned(s, buf0, ptrs0, buf, ptrs, b + 1, count)
  {
    assert buf[b + 1..] == buf[b..][1..] && buf0[b + 1..] == buf0[b..][1..];
  }

  lemma ScannedWhole(s: string, buf0: string, ptrs0: seq<nat>, buf: string, ptrs: seq<nat>, count: nat)
    requires Scanned(s, buf0, ptrs0, buf, ptrs, |s|, count)
    ensures ptrs[..count] == Starts(s, 0) && Blanked(buf, s)
  {
    assert buf[|s|] == buf[|s|..][0] == buf0[|s|..][0];
    assert ptrs[..count] + [] == ptrs[..count];
  }

  /** seperate_string: the pointers it stores are offsets into the buffer. */
  method SeparateString(buf: array<char>, ptrs: array<nat>, ghost s: string) returns (count: nat)
    requires Holds(buf[..], s) && |Words(s)| <= ptrs.Length
    modifies buf, ptrs
    ensures count == |Words(s)|
    ensures CStringsAt(buf[..], ptrs[..count]) == Words(s)
    ensures Rising(ptrs[..count], 0, |s|)
    ensures Blanked(buf[..], s)
    ensures buf[|s|..] == old(buf[|s|..])
    ensures ptrs[count..] == old(ptrs[..])[count..]
  {
    ghost var buf0, ptrs0 := buf[..], ptrs[..];
    WordCount(s);
    StartsInside(s, 0);
    var prev := NUL;
    count := 0;
    var b: nat := 0;
    assert ptrs[..0] + Starts(s, 0) == Starts(s, 0);
    ScannedByte(s, buf0, ptrs0, buf[..], ptrs[..], b, count);
    while buf[b] != NUL
      invariant Scanned(s, buf0, ptrs0, buf[..], ptrs[..], b, count)
      invariant b < buf.Length && (buf[b] == NUL <==> b == |s|)
      invariant prev == NUL <==> b == 0 || IsSpace(s[b - 1])
      decreases |s| - b
    {
      ghost var bs, ps := buf[..], ptrs[..];
      ScannedByte(s, buf0, ptrs0, bs, ps, b, count);
      if IsSpace(buf[b]) {
        BlankTurn(s, buf0, ptrs0, bs, ps, b, count);
        buf[b] := NUL;
        assert buf[..] == bs[b := NUL];
      } else if prev == NUL {
        StartTurn(s, buf0, ptrs0, bs, ps, b, count);
        ptrs[count] := b;
        assert ptrs[..] == ps[count := b];
        count := count + 1;
      } else {
        InnerTurn(s, buf0, ptrs0, bs, ps, b, count);
      }
      prev := buf[b];
      b := b + 1;
      ScannedByte(s, buf0, ptrs0, buf[..], ptrs[..], b, count);
    }
    ScannedWhole(s, buf0, ptrs0, buf[..], ptrs[..], count);
    StartsAreWords(buf[..], s, 0);
  }

  /** There are as many words as word starts. */
  lemma WordCount(s: string)
    ensures |Starts(s, 0)| == |Words(s)|
  {
    WordCountFrom(s, 0);
  }

  lemma {:induction false} WordCountFrom(s: string, i: nat)
    requires i <= |s| && (i == 0 || i == |s| || IsSpace(s[i]) || IsSpace(s[i - 1]))
    ensures |Starts(s, i)| == |WordsFrom(s, i)|
    decreases |s| - i
  {
    if i < |s| {
      if IsSpace(s[i]) {
        WordCountFrom(s, i + 1);
      } else {
        NoStartInRun(s, i + 1, RunEnd(s, i));
        WordCountFrom(s, RunEnd(s, i));
      }
    }
  }
}
