/** File contents in shell.c: the buffer that `fill` writes and the text that
    `cat` prints. The file itself is the string of its bytes. */
module Content {
  import opened Tokenizer

  const PATTERN: string := "Can you see? "
  const CHUNK: nat := 1024
  const INT_MAX: nat := 0x7FFF_FFFF
  const EXT2_ERROR: int := -1

  // ---- fill ----

  /** The text `fill` puts into a file of that size. */
  function Filled(size: nat): string {
    seq(size, i requires 0 <= i < size => PATTERN[i % 13])
  }

  ghost predicate HoldsPattern(buffer: seq<char>, n: nat) {
    n <= |buffer| && forall i :: 0 <= i < n ==> buffer[i] == PATTERN[i % 13]
  }

  /** One more copy of the pattern behind whole ones goes on with it. */
  lemma PatternGoesOn(before: seq<char>, after: seq<char>, n: nat)
    requires HoldsPattern(before, n) && n % 13 == 0 && n + 13 <= |after|
    requires |before| == |after| && after[..n] == before[..n]
    requires forall k :: 0 <= k < 13 ==> after[n + k] == PATTERN[k]
    ensures HoldsPattern(after, n + 13) && (n + 13) % 13 == 0
  {
    forall i | 0 <= i < n + 13 ensures after[i] == PATTERN[i % 13] {
      if i < n {
        assert after[i] == after[..n][i] == before[..n][i];
      } else {
        assert i % 13 == i - n && after[n + (i - n)] == PATTERN[i - n];
      }
    }
  }

  /** The buffer loop of shell_cmd_fill. */
  method FillBuffer(size: nat) returns (buffer: array<char>)
    requires size + 13 <= INT_MAX
    ensures fresh(buffer) && buffer.Length == size + 13
    ensures buffer[..size] == Filled(size)
    ensures forall i :: 0 <= i < size ==> buffer[i] == "Can you see? "[i % 13]
  {
    buffer := new char[size + 13];
    var tmp := 0;
    while tmp < size
      invariant 0 <= tmp < size + 13 && tmp % 13 == 0
      invariant HoldsPattern(buffer[..], tmp)
    {
      ghost var before := buffer[..];
      forall k | 0 <= k < 13 { buffer[tmp + k] := PATTERN[k]; }
      PatternGoesOn(before, buffer[..], tmp);
      tmp := tmp + 13;
    }
  }

  // ---- The file operations ----

  /** What is taken of the file system: whether its write stores the bytes it is
      given, and whether its read copies bytes into the buffer it is given. */
  datatype FileOps = FileOps(writeStores: bool, readCopies: bool)

  /** The write operation on a file just created; `content` is the file after it. */
  method Write(ops: FileOps, size: nat, buffer: array<char>) returns (content: string)
    requires size <= buffer.Length
    ensures content == if ops.writeStores then buffer[..size] else []
  {
    return if ops.writeStores then buffer[..size] else [];
  }

  function Min(a: nat, b: nat): nat { if a < b then a else b }

  /** The result of a read: the number of bytes up to `n` from `offset` on, or
      EXT2_ERROR at and after the end of the file. */
  function ReadResult(content: string, offset: nat, n: nat): int {
    if offset < |content| then Min(n, |content| - offset) else EXT2_ERROR
  }

  /** The bytes a read stores into its buffer. */
  function Delivered(ops: FileOps, content: string, offset: nat, n: nat): (text: string)
    ensures |text| <= n
  {
    if ops.readCopies && offset < |content| then content[offset..offset + Min(n, |content| - offset)] else []
  }

  /** The read operation. */
  method Read(ops: FileOps, content: string, offset: nat, n: nat, buf: array<char>) returns (r: int)
    requires n <= buf.Length
    modifies buf
    ensures r == ReadResult(content, offset, n)
    ensures var text := Delivered(ops, content, offset, n);
            buf[..] == text + old(buf[..])[|text|..]
  {
    var text := Delivered(ops, content, offset, n);
    forall k | 0 <= k < |text| { buf[k] := text[k]; }
    return ReadResult(content, offset, n);
  }

  // ---- cat ----

  /** What `cat` prints from `offset` on: each chunk, up to its first NUL. */
  function Printed(ops: FileOps, content: string, offset: nat): string
    decreases |content| - offset
  {
    if offset >= |content| then []
    else CStringAt(Delivered(ops, content, offset, CHUNK), 0) + Printed(ops, content, offset + CHUNK)
  }

  lemma {:induction false} CStringStops(buf: string, chunk: string, p: nat)
    requires |chunk| < |buf| && buf[..|chunk|] == chunk && buf[|chunk|] == NUL && p <= |chunk|
    ensures CStringAt(buf, p) == CStringAt(chunk, p)
    decreases |chunk| - p
  {
    if p < |chunk| {
      assert buf[p] == buf[..|chunk|][p];
      CStringStops(buf, chunk, p + 1);
    }
  }

  /** The buffer holds the text, and NULs behind it. */
  ghost predicate Shows(buf: seq<char>, text: string) {
    |text| < |buf| && buf[..|text|] == text && forall i :: |text| <= i < |buf| ==> buf[i] == NUL
  }

  /** memset and read: nothing is left over from the chunk before. */
  method ReadAfresh(ops: FileOps, content: string, offset: nat, buf: array<char>) returns (r: int)
    requires buf.Length > CHUNK
    modifies buf
    ensures r == ReadResult(content, offset, CHUNK)
    ensures Shows(buf[..], Delivered(ops, content, offset, CHUNK))
  {
    forall i | 0 <= i < buf.Length { buf[i] := NUL; }
    r := Read(ops, content, offset, CHUNK, buf);
  }

  /** shell_cmd_cat, from the lookup on; `out` is the text printed. */
  method CatFile(ops: FileOps, lookup: int, content: string) returns (out: string, failed: bool)
    ensures failed <==> lookup != 0
    ensures out == if lookup != 0 then [] else Printed(ops, content, 0) + "\n"
  {
    out := [];
    if lookup != 0 {
      return [], true;
    }
    var buf := new char[1025];
    var offset := 0;
    var r := ReadAfresh(ops, content, offset, buf);
    while r > 0
      invariant buf.Length == 1025 && fresh(buf)
      invariant out + Printed(ops, content, offset) == Printed(ops, content, 0)
      invariant r == ReadResult(content, offset, CHUNK)
      invariant Shows(buf[..], Delivered(ops, content, offset, CHUNK))
      decreases |content| - offset
    {
      CStringStops(buf[..], Delivered(ops, content, offset, CHUNK), 0);
      out := out + CStringAt(buf[..], 0);
      offset := offset + CHUNK;
      r := ReadAfresh(ops, content, offset, buf);
    }
    out := out + "\n";
    failed := false;
  }

  // ---- What cat prints, and when it is the file ----

  lemma {:induction false} CStringWhole(s: string, p: nat)
    requires p <= |s|
    ensures |CStringAt(s, p)| <= |s| - p
    ensures |CStringAt(s, p)| == |s| - p <==> NUL !in s[p..]
    ensures NUL !in s[p..] ==> CStringAt(s, p) == s[p..]
    decreases |s| - p
  {
    if p < |s| {
      CStringWhole(s, p + 1);
      assert s[p..] == [s[p]] + s[p + 1..];
    }
  }

  lemma {:induction false} PrintedWhole(ops: FileOps, content: string, offset: nat)
    requires ops.readCopies && offset <= |content|
    ensures var out := Printed(ops, content, offset);
            && |out| <= |content| - offset
            && (|out| == |content| - offset <==> NUL !in content[offset..])
            && (NUL !in content[offset..] ==> out == content[offset..])
    decreases |content| - offset
  {
    if offset < |content| {
      var chunk := Delivered(ops, content, offset, CHUNK);
      CStringWhole(chunk, 0);
      assert chunk[0..] == chunk;
      var next := offset + |chunk|;
      assert content[offset..] == chunk + content[next..];
      if next < |content| {
        PrintedWhole(ops, content, next);
      } else {
        assert Printed(ops, content, offset + CHUNK) == [];
        assert content[next..] == [];
      }
    }
  }

  lemma {:induction false} NothingPrinted(ops: FileOps, content: string, offset: nat)
    requires !ops.readCopies
    ensures Printed(ops, content, offset) == []
    decreases |content| - offset
  {
    if offset < |content| {
      NothingPrinted(ops, content, offset + CHUNK);
    }
  }

  /** The loop of `cat` prints the file byte for byte exactly when the file holds
      no NUL and the read copies, or the file is empty; with a read that leaves
      the buffer alone it prints nothing, whatever the file. */
  lemma CatPrintsFileIff(ops: FileOps, content: string)
    ensures Printed(ops, content, 0) == content <==> content == [] || (ops.readCopies && NUL !in content)
    ensures !ops.readCopies ==> Printed(ops, content, 0) == []
  {
    if ops.readCopies {
      PrintedWhole(ops, content, 0);
      assert content[0..] == content;
    } else {
      NothingPrinted(ops, content, 0);
    }
  }

  /** Where the chunk of 1024 bytes starts that holds byte `p`. */
  function ChunkOf(p: nat): (o: nat)
    ensures o <= p
  {
    p - p % 1024
  }

  /** Byte `p` of a file is printed unless its chunk holds a NUL at it or before. */
  predicate IsPrinted(content: string, p: nat)
    requires p < |content|
  {
    NUL !in content[ChunkOf(p)..p + 1]
  }

  /** The printed bytes of a file from `p` on. */
  function PrintedBytes(content: string, p: nat): string
    decreases |content| - p
  {
    if p >= |content| then []
    else if IsPrinted(content, p) then [content[p]] + PrintedBytes(content, p + 1)
    else PrintedBytes(content, p + 1)
  }

  lemma ChunkInside(o: nat, p: nat)
    requires o % 1024 == 0 && o <= p < o + 1024
    ensures ChunkOf(p) == o
  {
    assert p % 1024 == p - o;
  }

  lemma NulSoFar(content: string, o: nat, p: nat)
    requires o <= p < |content| && ChunkOf(p) == o
    ensures IsPrinted(content, p) <==> NUL !in content[o..p] && content[p] != NUL
    ensures NUL in content[o..p + 1] <==> NUL in content[o..p] || content[p] == NUL
  {
    assert content[o..p + 1] == content[o..p] + [content[p]];
  }

  lemma CStringTurn(chunk: string, q: nat)
    requires q < |chunk|
    ensures CStringAt(chunk, q) == if chunk[q] == NUL then [] else [chunk[q]] + CStringAt(chunk, q + 1)
  {
  }

  lemma SliceOf(content: string, o: nat, e: nat, p: nat)
    requires o <= p < e <= |content|
    ensures content[o..e][p - o] == content[p]
  {
  }

  /** Once there was a NUL in the chunk, nothing is printed up to its end `e`. */
  lemma {:induction false} NothingAfterNul(content: string, o: nat, p: nat, e: nat)
    requires o <= p <= e <= |content| && (forall k :: p <= k < e ==> ChunkOf(k) == o) && NUL in content[o..p]
    ensures PrintedBytes(content, p) == PrintedBytes(content, e)
    decreases e - p
  {
    if p < e {
      NulSoFar(content, o, p);
      NothingAfterNul(content, o, p + 1, e);
    }
  }

  /** Before that, it is what the C string at `p` holds. */
  lemma {:induction false} PrintedInChunk(content: string, o: nat, p: nat, e: nat)
    requires o <= p <= e <= |content| && (forall k :: p <= k < e ==> ChunkOf(k) == o) && NUL !in content[o..p]
    ensures PrintedBytes(content, p) == CStringAt(content[o..e], p - o) + PrintedBytes(content, e)
    decreases e - p
  {
    if p < e {
      NulSoFar(content, o, p);
      CStringTurn(content[o..e], p - o);
      SliceOf(content, o, e, p);
      if content[p] == NUL {
        NothingAfterNul(content, o, p + 1, e);
      } else {
        PrintedInChunk(content, o, p + 1, e);
        Prefixed(content[p], CStringAt(content[o..e], p + 1 - o), PrintedBytes(content, e));
      }
    }
  }

  lemma Prefixed(c: char, s: string, t: string)
    ensures [c] + (s + t) == [c] + s + t
  {
  }

  lemma WholeChunk(content: string, o: nat, e: nat)
    requires o < e <= |content| && o % 1024 == 0 && e <= o + 1024
    ensures PrintedBytes(content, o) == CStringAt(content[o..e], 0) + PrintedBytes(content, e)
  {
    forall k | o <= k < e ensures ChunkOf(k) == o { ChunkInside(o, k); }
    assert content[o..o] == [];
    PrintedInChunk(content, o, o, e);
  }

  lemma PrintedTurn(ops: FileOps, content: string, o: nat, e: nat)
    requires ops.readCopies && o < |content| && e == if o + 1024 < |content| then o + 1024 else |content|
    ensures Printed(ops, content, o) == CStringAt(content[o..e], 0) + Printed(ops, content, o + 1024)
  {
    assert Delivered(ops, content, o, CHUNK) == content[o..e];
  }

  lemma NextChunk(o: nat)
    requires o % 1024 == 0
    ensures (o + 1024) % 1024 == 0
  {
  }

  lemma {:induction false} PrintedFromChunk(ops: FileOps, content: string, o: nat)
    requires ops.readCopies && o % 1024 == 0
    ensures Printed(ops, content, o) == PrintedBytes(content, o)
    decreases |content| - o
  {
    if o < |content| {
      var e := if o + 1024 < |content| then o + 1024 else |content|;
      WholeChunk(content, o, e);
      PrintedTurn(ops, content, o, e);
      NextChunk(o);
      PrintedFromChunk(ops, content, o + 1024);
      assert PrintedBytes(content, o + 1024) == PrintedBytes(content, e);
    }
  }

  /** With a read that copies, `cat` prints of any file just the bytes that no NUL
      precedes in their chunk of 1024 bytes. */
  lemma CatPrintsUpToNul(ops: FileOps, content: string)
    requires ops.readCopies
    ensures Printed(ops, content, 0) == PrintedBytes(content, 0)
  {
    PrintedFromChunk(ops, content, 0);
  }

  lemma FilledHasNoNul(size: nat)
    ensures NUL !in Filled(size)
  {
    assert forall k :: 0 <= k < 13 ==> PATTERN[k] != NUL;
  }

  /** `fill` and then `cat` on the same file: with a write that stores and a read
      that copies the text comes back, for every size; otherwise `cat` prints the
      newline only. */
  method FillThenCat(ops: FileOps, size: nat) returns (out: string)
    requires size + 13 <= INT_MAX
    ensures out == (if ops.writeStores && ops.readCopies then Filled(size) else []) + "\n"
  {
    var buffer := FillBuffer(size);
    var content := Write(ops, size, buffer);
    var printed, _ := CatFile(ops, 0, content);
    CatPrintsFileIff(ops, content);
    FilledHasNoNul(size);
    return printed;
  }

  /** So `cat` gives back what `fill` was asked to write, for every size but zero,
      exactly when the write stores and the read copies. */
  lemma FillComesBackIff(ops: FileOps, size: nat)
    requires size > 0
    ensures var content := if ops.writeStores then Filled(size) else [];
            Printed(ops, content, 0) == Filled(size) <==> ops.writeStores && ops.readCopies
  {
    FilledHasNoNul(size);
    CatPrintsFileIff(ops, if ops.writeStores then Filled(size) else []);
  }
}
