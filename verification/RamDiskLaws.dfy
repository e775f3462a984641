/** What the RAM block device is for: requests behave as flat copies, reads
    return the last write, and the exact conditions under which they do. */
module RamDiskLaws {
  import opened RamDisk
  import opened BlockLayer

  /** Every segment is a whole number of sectors. */
  predicate Aligned(vs: seq<Vec>) {
    vs == [] || (vs[0].len % 512 == 0 && Aligned(vs[1..]))
  }

  function Start(bio: Bio): nat { Addr(bio.sector) }

  // ---- Aligned requests are flat copies ----

  /** After an aligned segment the cursor stands where the segment ended. */
  lemma AlignedTail(sector: nat, vs: seq<Vec>)
    requires vs != [] && Aligned(vs)
    ensures Aligned(vs[1..]) && Addr(NextSector(sector, vs[0])) == Addr(sector) + vs[0].len
    ensures Total(vs) == vs[0].len + Total(vs[1..])
  {
  }

  lemma DeliveredTurn(store: seq<Byte>, sector: nat, vs: seq<Vec>)
    requires vs != [] && Fits(|store|, sector, vs)
    ensures Fits(|store|, NextSector(sector, vs[0]), vs[1..])
    ensures Delivered(store, sector, vs)
         == Piece(store, sector, vs[0]) + Delivered(store, NextSector(sector, vs[0]), vs[1..])
  {
  }

  lemma SliceSplit(s: seq<Byte>, a: nat, b: nat, c: nat)
    requires a <= b <= c <= |s|
    ensures s[a..c] == s[a..b] + s[b..c]
  {
  }

  lemma SpliceKeeps(s: seq<Byte>, at: nat, bytes: seq<Byte>, k: nat)
    requires at + |bytes| <= |s| && k < |s| && !(at <= k < at + |bytes|)
    ensures Splice(s, at, bytes)[k] == s[k]
  {
  }

  lemma SpliceTwice(s: seq<Byte>, at: nat, a: seq<Byte>, b: seq<Byte>)
    requires at + |a| + |b| <= |s|
    ensures Splice(Splice(s, at, a), at + |a|, b) == Splice(s, at, a + b)
  {
  }

  /** An aligned read delivers the bytes from `d` up to `f`. */
  lemma {:induction false} AlignedReadIsFlat(store: seq<Byte>, sector: nat, vs: seq<Vec>, d: nat, f: nat)
    requires Fits(|store|, sector, vs) && Aligned(vs) && d == Addr(sector) && f == d + Total(vs)
    ensures Delivered(store, sector, vs) == store[d..f]
    decreases |vs|
  {
    if vs != [] {
      var next, e := NextSector(sector, vs[0]), d + vs[0].len;
      AlignedTail(sector, vs);
      DeliveredTurn(store, sector, vs);
      AlignedReadIsFlat(store, next, vs[1..], e, f);
      SliceSplit(store, d, e, f);
    }
  }

  /** An aligned write puts the gathered bytes at `d`, in one piece. */
  lemma {:induction false} AlignedWriteIsFlat(store: seq<Byte>, sector: nat, vs: seq<Vec>, mem: seq<Byte>, d: nat)
    requires Fits(|store|, sector, vs) && Aligned(vs) && Mapped(|mem|, vs, Twice) && d == Addr(sector)
    ensures Written(store, sector, vs, mem) == Splice(store, d, Gather(mem, vs, Twice))
    decreases |vs|
  {
    if vs == [] {
      EmptySplice(store, d);
    } else {
      var next, e := NextSector(sector, vs[0]), d + vs[0].len;
      AlignedTail(sector, vs);
      WrittenTurn(store, sector, vs, mem);
      var a, b := Slice(mem, At(vs[0], Twice), vs[0].len), Gather(mem, vs[1..], Twice);
      AlignedWriteIsFlat(Splice(store, d, a), next, vs[1..], mem, e);
      SpliceTwice(store, d, a, b);
    }
  }

  // ---- Unaligned ones are not: the cursor lags and the last byte is missed ----

  ghost predicate DifferAt(s: seq<Byte>, t: seq<Byte>, at: int) {
    |s| == |t| && forall k :: 0 <= k < |s| && k != at ==> s[k] == t[k]
  }

  lemma SameSlice(s: seq<Byte>, t: seq<Byte>, a: nat, b: nat, end: nat)
    requires DifferAt(s, t, end - 1) && a <= b < end <= |s|
    ensures s[a..b] == t[a..b]
  {
  }

  /** The request ends before `end`, or at it with a segment of part sectors. */
  ghost predicate Lags(sector: nat, vs: seq<Vec>, end: nat) {
    var reach := Addr(sector) + Total(vs);
    reach < end || (reach == end && !Aligned(vs) && Total(vs) % 512 == 0)
  }

  lemma LagsOn(sector: nat, vs: seq<Vec>, end: nat, next: nat, e: nat)
    requires vs != [] && Lags(sector, vs, end)
    requires next == NextSector(sector, vs[0]) && e == Addr(sector) + vs[0].len
    ensures e < end && Lags(next, vs[1..], end)
  {
    var len, rest := vs[0].len, Total(vs[1..]);
    assert Addr(next) == e - len % 512;
    if len % 512 == 0 {
      UnalignedNonEmpty(vs[1..]);
    } else {
      assert e + rest == end ==> rest != 0;
    }
  }

  lemma {:induction false} UnalignedNonEmpty(vs: seq<Vec>)
    ensures !Aligned(vs) ==> Total(vs) > 0
  {
    if vs != [] {
      UnalignedNonEmpty(vs[1..]);
    }
  }

  /** The first segment of a read agrees on both stores. */
  lemma UnreadTurn(store: seq<Byte>, store': seq<Byte>, sector: nat, vs: seq<Vec>, end: nat, next: nat, d: nat, e: nat)
    requires vs != [] && |store| == |store'| && Fits(|store|, sector, vs) && Fits(|store|, next, vs[1..])
    requires next == NextSector(sector, vs[0]) && d == Addr(sector) && e == d + vs[0].len && e < end <= |store|
    requires DifferAt(store, store', end - 1)
    requires Delivered(store, next, vs[1..]) == Delivered(store', next, vs[1..])
    ensures Delivered(store, sector, vs) == Delivered(store', sector, vs)
  {
    SameSlice(store, store', d, e, end);
    DeliveredTurn(store, sector, vs);
    DeliveredTurn(store', sector, vs);
  }

  /** A segment of part sectors leaves the cursor behind, so the last byte of
      the requested range is neither read ... */
  lemma {:induction false} LastByteUnread(store: seq<Byte>, store': seq<Byte>, sector: nat, vs: seq<Vec>, end: nat)
    requires |store| == |store'| && Fits(|store|, sector, vs)
    requires Lags(sector, vs, end) && end <= |store| && DifferAt(store, store', end - 1)
    ensures Delivered(store, sector, vs) == Delivered(store', sector, vs)
    decreases |vs|
  {
    if vs != [] {
      var next, d, e := NextSector(sector, vs[0]), Addr(sector), Addr(sector) + vs[0].len;
      LagsOn(sector, vs, end, next, e);
      LastByteUnread(store, store', next, vs[1..], end);
      UnreadTurn(store, store', sector, vs, end, next, d, e);
    }
  }

  /** ... nor written. */
  lemma {:induction false} LastByteUnwritten(store: seq<Byte>, sector: nat, vs: seq<Vec>, mem: seq<Byte>, end: nat)
    requires Fits(|store|, sector, vs) && Mapped(|mem|, vs, Twice)
    requires 0 < end <= |store| && Lags(sector, vs, end)
    ensures Written(store, sector, vs, mem)[end - 1] == store[end - 1]
    decreases |vs|
  {
    if vs != [] {
      var next, d := NextSector(sector, vs[0]), Addr(sector);
      LagsOn(sector, vs, end, next, d + vs[0].len);
      WrittenTurn(store, sector, vs, mem);
      var bytes := Slice(mem, At(vs[0], Twice), vs[0].len);
      SpliceKeeps(store, d, bytes, end - 1);
      LastByteUnwritten(Splice(store, d, bytes), next, vs[1..], mem, end);
    }
  }

  /** A read of whole sectors returns the requested range, whatever the store
      holds, exactly when every segment is a whole number of sectors. */
  lemma ReadFlatIffAligned(n: nat, sector: nat, vs: seq<Vec>)
    requires Fits(n, sector, vs) && Total(vs) % 512 == 0
    ensures var d := Addr(sector);
            Aligned(vs) <==>
            forall store: seq<Byte> :: |store| == n ==> Delivered(store, sector, vs) == store[d..d + Total(vs)]
  {
    var d := Addr(sector);
    var end := d + Total(vs);
    if Aligned(vs) {
      forall store: seq<Byte> | |store| == n
        ensures Delivered(store, sector, vs) == store[d..end]
      {
        AlignedReadIsFlat(store, sector, vs, d, end);
      }
    } else {
      UnalignedNonEmpty(vs);
      var zeros: seq<Byte> := seq(n, _ => 0);
      var marked := zeros[end - 1 := 1];
      LastByteUnread(zeros, marked, sector, vs, end);
      assert zeros[d..end][Total(vs) - 1] != marked[d..end][Total(vs) - 1];
      assert |zeros| == n && |marked| == n;
    }
  }

  /** A store in which the unaligned write goes wrong. */
  lemma UnalignedWriteMisses(n: nat, sector: nat, vs: seq<Vec>, mem: seq<Byte>) returns (store: seq<Byte>)
    requires Fits(n, sector, vs) && Total(vs) % 512 == 0 && Mapped(|mem|, vs, Twice) && !Aligned(vs)
    ensures |store| == n
    ensures Written(store, sector, vs, mem) != Splice(store, Addr(sector), Gather(mem, vs, Twice))
  {
    UnalignedNonEmpty(vs);
    var d, bytes := Addr(sector), Gather(mem, vs, Twice);
    var end := d + Total(vs);
    var last := bytes[|bytes| - 1];
    store := seq(n, _ => if last == 0 then 1 else 0);
    LastByteUnwritten(store, sector, vs, mem, end);
    assert store[end - 1] != last;
    SpliceLast(store, d, bytes);
  }

  lemma SpliceLast(s: seq<Byte>, at: nat, bytes: seq<Byte>)
    requires at + |bytes| <= |s| && bytes != []
    ensures Splice(s, at, bytes)[at + |bytes| - 1] == bytes[|bytes| - 1]
  {
  }

  /** The same for writes: the store receives the gathered bytes in one piece
      exactly when every segment is a whole number of sectors. */
  lemma WriteFlatIffAligned(n: nat, sector: nat, vs: seq<Vec>, mem: seq<Byte>)
    requires Fits(n, sector, vs) && Total(vs) % 512 == 0 && Mapped(|mem|, vs, Twice)
    ensures Aligned(vs) <==>
            forall store: seq<Byte> :: |store| == n ==>
              Written(store, sector, vs, mem) == Splice(store, Addr(sector), Gather(mem, vs, Twice))
  {
    if Aligned(vs) {
      forall store: seq<Byte> | |store| == n
        ensures Written(store, sector, vs, mem) == Splice(store, Addr(sector), Gather(mem, vs, Twice))
      {
        AlignedWriteIsFlat(store, sector, vs, mem, Addr(sector));
      }
    } else {
      var store := UnalignedWriteMisses(n, sector, vs, mem);
    }
  }

  // ---- The doubled offset, in writes ----

  /** No segment that holds bytes has an offset. */
  ghost predicate AtPageStarts(vs: seq<Vec>) {
    forall i :: 0 <= i < |vs| ==> vs[i].len == 0 || vs[i].offset == 0
  }

  /** The driver finds the bytes of a write where the request names them. */
  ghost predicate SameGather(mem: seq<Byte>, vs: seq<Vec>) {
    && Mapped(|mem|, vs, Twice) && Mapped(|mem|, vs, Once)
    && Gather(mem, vs, Twice) == Gather(mem, vs, Once)
  }

  /** For segments inside a memory of `n` bytes the driver takes the bytes of a
      write from where the request names them, whatever the memory holds,
      exactly when no non-empty segment has an offset. */
  lemma OffsetIffZero(n: nat, vs: seq<Vec>)
    requires Mapped(n, vs, Once)
    ensures AtPageStarts(vs) <==> forall mem: seq<Byte> :: |mem| == n ==> SameGather(mem, vs)
  {
    if i :| 0 <= i < |vs| && vs[i].len != 0 && vs[i].offset != 0 {
      var mem := OffsetMisreads(n, vs, i);
    } else {
      forall mem: seq<Byte> | |mem| == n ensures SameGather(mem, vs) {
        PageStartsGather(mem, vs);
      }
    }
  }

  /** Memory that shows a non-zero offset up: one marked byte, where the segment
      should start. */
  lemma OffsetMisreads(n: nat, vs: seq<Vec>, i: nat) returns (mem: seq<Byte>)
    requires Mapped(n, vs, Once) && i < |vs| && vs[i].len != 0 && vs[i].offset != 0
    ensures |mem| == n && !SameGather(mem, vs)
  {
    var at := At(vs[i], Once);
    mem := seq(n, k => if k == at then 1 else 0);
    if Mapped(n, vs, Twice) {
      assert Slice(mem, At(vs[i], Once), vs[i].len)[0] == 1;
      assert Slice(mem, At(vs[i], Twice), vs[i].len)[0] == 0;
      GatherDiffers(mem, vs, i);
    }
  }

  lemma PageStartsMapped(n: nat, vs: seq<Vec>)
    requires AtPageStarts(vs)
    ensures Mapped(n, vs, Once) <==> Mapped(n, vs, Twice)
  {
  }

  lemma {:induction false} PageStartsGather(mem: seq<Byte>, vs: seq<Vec>)
    requires Mapped(|mem|, vs, Once) && AtPageStarts(vs)
    ensures SameGather(mem, vs)
  {
    PageStartsMapped(|mem|, vs);
    if vs != [] {
      MappedTail(|mem|, vs, Once);
      assert forall i :: 0 <= i < |vs[1..]| ==> vs[1..][i] == vs[i + 1];
      assert vs[0].len == 0 || vs[0].offset == 0;
      PageStartsGather(mem, vs[1..]);
    }
  }

  lemma {:induction false} GatherDiffers(mem: seq<Byte>, vs: seq<Vec>, i: nat)
    requires Mapped(|mem|, vs, Twice) && Mapped(|mem|, vs, Once) && i < |vs|
    requires Slice(mem, At(vs[i], Twice), vs[i].len) != Slice(mem, At(vs[i], Once), vs[i].len)
    ensures Gather(mem, vs, Twice) != Gather(mem, vs, Once)
  {
    var a, b, n := Gather(mem, vs, Twice), Gather(mem, vs, Once), vs[0].len;
    MappedTail(|mem|, vs, Twice);
    MappedTail(|mem|, vs, Once);
    assert a[..n] == Slice(mem, At(vs[0], Twice), n) && b[..n] == Slice(mem, At(vs[0], Once), n);
    if i > 0 {
      assert a[n..] == Gather(mem, vs[1..], Twice) && b[n..] == Gather(mem, vs[1..], Once);
      GatherDiffers(mem, vs[1..], i - 1);
    }
  }

  // ---- The capacity check ----

  /** The bytes of the request lie inside the 8 MiB of the store. */
  predicate InsideStore(bio: Bio) { bio.sector * 512 + bio.size <= 8 * 1024 * 1024 }

  /** The check accepts just the requests that lie inside the store, unless the
      end of the request wraps around in sector_t to a small number, or the
      request ends with part of a sector right behind the store. */
  lemma CapacityCheckExact(bio: Bio)
    requires bio.sector < SECTOR_T_LIMIT && bio.size < 0x1_0000_0000
    ensures var end := bio.sector + bio.size / 512;
            (EndSector(bio) <= MYDRV_TOTAL_BLK <==> InsideStore(bio))
            <==> !(0x1_0000_0000_0000_0000 <= end <= 0x1_0000_0000_0000_0000 + 16384)
                 && !(end == 16384 && bio.size % 512 != 0)
  {
    var end := bio.sector + bio.size / 512;
    if end >= SECTOR_T_LIMIT {
      assert EndSector(bio) == end - SECTOR_T_LIMIT;
    }
  }

  lemma CheckIsInsideStore(bio: Bio, n: nat)
    requires WellFormed(bio, n)
    ensures EndSector(bio) <= MYDRV_TOTAL_BLK <==> InsideStore(bio)
    ensures Accepted(bio) <==> InsideStore(bio) && !bio.discard && bio.vecs != []
  {
    assert EndSector(bio) == bio.sector + bio.size / 512;
  }

  /** What becomes of a request: it succeeds exactly when its bytes lie inside the
      store and it has a segment or discards; a failure or a discard changes
      nothing, a read leaves the store alone and a write the memory. */
  lemma StepOutcome(store: seq<Byte>, bio: Bio, mem: seq<Byte>)
    requires |store| == MYDRV_MAX_LENGTH && WellFormed(bio, |mem|) && Addressable(bio, |mem|)
    ensures var o := Step(store, bio, mem);
            && o.err == (if InsideStore(bio) && (bio.discard || bio.vecs != []) then 0 else -EIO)
            && (o.err != 0 || bio.discard ==> o.store == store && o.mem == mem)
            && (if bio.rw == READ || bio.rw == READA then o.store == store else o.mem == mem)
  {
    CheckIsInsideStore(bio, |mem|);
  }

  // ---- Dealing bytes out to segments and collecting them again ----

  ghost predicate Disjoint(v: Vec, w: Vec, o: Offset) {
    v.len == 0 || w.len == 0 || At(v, o) + v.len <= At(w, o) || At(w, o) + w.len <= At(v, o)
  }

  ghost predicate AllDisjoint(vs: seq<Vec>, o: Offset) {
    forall i, j :: 0 <= i < j < |vs| ==> Disjoint(vs[i], vs[j], o)
  }

  lemma PatchSets(s: seq<Byte>, at: nat, bytes: seq<Byte>)
    requires Inside(|s|, at, |bytes|)
    ensures Slice(Patch(s, at, bytes), at, |bytes|) == bytes
  {
    if bytes != [] {
      assert Splice(s, at, bytes)[at..at + |bytes|] == bytes;
    }
  }

  lemma PatchElsewhere(s: seq<Byte>, at: nat, bytes: seq<Byte>, a: nat, len: nat)
    requires Inside(|s|, at, |bytes|) && Inside(|s|, a, len)
    requires bytes == [] || len == 0 || at + |bytes| <= a || a + len <= at
    ensures Slice(Patch(s, at, bytes), a, len) == Slice(s, a, len)
  {
    if bytes != [] && len != 0 {
      var t := Splice(s, at, bytes);
      forall k | a <= k < a + len ensures t[k] == s[k] {
        SpliceKeeps(s, at, bytes, k);
      }
      assert t[a..a + len] == s[a..a + len];
    }
  }

  lemma {:induction false} ScatterKeeps(mem: seq<Byte>, vs: seq<Vec>, o: Offset, bytes: seq<Byte>, w: Vec)
    requires Mapped(|mem|, vs, o) && |bytes| == Total(vs) && Inside(|mem|, At(w, o), w.len)
    requires forall i :: 0 <= i < |vs| ==> Disjoint(w, vs[i], o)
    ensures Slice(Scatter(mem, vs, o, bytes), At(w, o), w.len) == Slice(mem, At(w, o), w.len)
    decreases |vs|
  {
    if vs != [] {
      var head, tail := bytes[..vs[0].len], bytes[vs[0].len..];
      MappedTail(|mem|, vs, o);
      assert Disjoint(w, vs[0], o);
      assert forall i :: 0 <= i < |vs[1..]| ==> vs[1..][i] == vs[i + 1];
      PatchElsewhere(mem, At(vs[0], o), head, At(w, o), w.len);
      ScatterKeeps(Patch(mem, At(vs[0], o), head), vs[1..], o, tail, w);
    }
  }

  lemma ScatterTurn(mem: seq<Byte>, vs: seq<Vec>, o: Offset, bytes: seq<Byte>)
    requires vs != [] && Mapped(|mem|, vs, o) && |bytes| == Total(vs)
    ensures var mem' := Patch(mem, At(vs[0], o), bytes[..vs[0].len]);
            && Mapped(|mem|, vs[1..], o) && |bytes[vs[0].len..]| == Total(vs[1..])
            && Scatter(mem, vs, o, bytes) == Scatter(mem', vs[1..], o, bytes[vs[0].len..])
  {
    MappedTail(|mem|, vs, o);
  }

  lemma GatherIs(mem: seq<Byte>, vs: seq<Vec>, o: Offset, head: seq<Byte>, tail: seq<Byte>)
    requires vs != [] && Mapped(|mem|, vs, o) && Mapped(|mem|, vs[1..], o)
    requires Slice(mem, At(vs[0], o), vs[0].len) == head && Gather(mem, vs[1..], o) == tail
    ensures Gather(mem, vs, o) == head + tail
  {
  }

  lemma DisjointTail(vs: seq<Vec>, o: Offset)
    requires vs != [] && AllDisjoint(vs, o)
    ensures AllDisjoint(vs[1..], o)
    ensures forall i :: 0 <= i < |vs[1..]| ==> Disjoint(vs[0], vs[1..][i], o)
  {
    assert forall i :: 0 <= i < |vs[1..]| ==> vs[1..][i] == vs[i + 1];
  }

  /** What the first segment received outlives the others. */
  lemma FirstKept(mem: seq<Byte>, vs: seq<Vec>, o: Offset, head: seq<Byte>, tail: seq<Byte>)
    requires vs != [] && Mapped(|mem|, vs, o) && Mapped(|mem|, vs[1..], o) && AllDisjoint(vs, o)
    requires |head| == vs[0].len && |tail| == Total(vs[1..])
    ensures Slice(Scatter(Patch(mem, At(vs[0], o), head), vs[1..], o, tail), At(vs[0], o), vs[0].len) == head
  {
    DisjointTail(vs, o);
    PatchSets(mem, At(vs[0], o), head);
    ScatterKeeps(Patch(mem, At(vs[0], o), head), vs[1..], o, tail, vs[0]);
  }

  lemma Halves(bytes: seq<Byte>, n: nat)
    requires n <= |bytes|
    ensures bytes[..n] + bytes[n..] == bytes
  {
  }

  /** Segments that do not overlap hold exactly what was dealt out to them. */
  lemma {:induction false} GatherScatter(mem: seq<Byte>, vs: seq<Vec>, o: Offset, bytes: seq<Byte>)
    requires Mapped(|mem|, vs, o) && |bytes| == Total(vs) && AllDisjoint(vs, o)
    ensures Gather(Scatter(mem, vs, o, bytes), vs, o) == bytes
    decreases |vs|
  {
    if vs != [] {
      var head, tail := bytes[..vs[0].len], bytes[vs[0].len..];
      ScatterTurn(mem, vs, o, bytes);
      DisjointTail(vs, o);
      var mem' := Patch(mem, At(vs[0], o), head);
      FirstKept(mem, vs, o, head, tail);
      GatherScatter(mem', vs[1..], o, tail);
      GatherIs(Scatter(mem', vs[1..], o, tail), vs, o, head, tail);
      Halves(bytes, vs[0].len);
    }
  }

  // ---- The doubled offset, in reads ----

  /** A read puts its bytes where the request asks for them. */
  ghost predicate SameScatter(mem: seq<Byte>, vs: seq<Vec>, bytes: seq<Byte>) {
    && Mapped(|mem|, vs, Twice) && Mapped(|mem|, vs, Once) && |bytes| == Total(vs)
    && Scatter(mem, vs, Twice, bytes) == Scatter(mem, vs, Once, bytes)
  }

  lemma SamePatch(mem: seq<Byte>, v: Vec, bytes: seq<Byte>)
    requires Inside(|mem|, At(v, Once), v.len) && Inside(|mem|, At(v, Twice), v.len)
    requires |bytes| == v.len && (v.len == 0 || v.offset == 0)
    ensures Patch(mem, At(v, Once), bytes) == Patch(mem, At(v, Twice), bytes)
  {
  }

  lemma PageStartsTail(vs: seq<Vec>)
    requires vs != [] && AtPageStarts(vs)
    ensures (vs[0].len == 0 || vs[0].offset == 0) && AtPageStarts(vs[1..])
  {
    assert forall i :: 0 <= i < |vs[1..]| ==> vs[1..][i] == vs[i + 1];
  }

  lemma {:induction false} PageStartsScatter(mem: seq<Byte>, vs: seq<Vec>, bytes: seq<Byte>)
    requires Mapped(|mem|, vs, Once) && |bytes| == Total(vs) && AtPageStarts(vs)
    ensures SameScatter(mem, vs, bytes)
    decreases |vs|
  {
    PageStartsMapped(|mem|, vs);
    if vs != [] {
      var head := bytes[..vs[0].len];
      MappedTail(|mem|, vs, Once);
      MappedTail(|mem|, vs, Twice);
      PageStartsTail(vs);
      SamePatch(mem, vs[0], head);
      ScatterTurn(mem, vs, Once, bytes);
      ScatterTurn(mem, vs, Twice, bytes);
      PageStartsScatter(Patch(mem, At(vs[0], Once), head), vs[1..], bytes[vs[0].len..]);
    }
  }

  function Zeros(n: nat): (z: seq<Byte>)
    ensures |z| == n && forall k :: 0 <= k < n ==> z[k] == 0
  {
    seq(n, _ => 0)
  }

  /** The bytes of a read with one mark, on the first byte of segment `i`. */
  function Marked(vs: seq<Vec>, i: nat): (r: seq<Byte>)
    requires i < |vs| && vs[i].len > 0
    ensures |r| == Total(vs)
    decreases |vs|
  {
    if i == 0 then Mark(vs[0].len) + Zeros(Total(vs[1..])) else Zeros(vs[0].len) + Marked(vs[1..], i - 1)
  }

  function Mark(n: nat): (m: seq<Byte>)
    requires n > 0
    ensures |m| == n && m[0] == 1 && forall k :: 0 < k < n ==> m[k] == 0
  {
    [1] + Zeros(n - 1)
  }

  lemma PatchAt(s: seq<Byte>, at: nat, bytes: seq<Byte>, a: nat)
    requires Inside(|s|, at, |bytes|) && a < |s|
    ensures Patch(s, at, bytes)[a] == if at <= a < at + |bytes| then bytes[a - at] else s[a]
  {
  }

  /** A byte string put together from one part for the first segment and one for
      the others is dealt out part by part. */
  lemma ScatterParts(mem: seq<Byte>, vs: seq<Vec>, o: Offset, head: seq<Byte>, tail: seq<Byte>)
    requires vs != [] && Mapped(|mem|, vs, o) && |head| == vs[0].len && |tail| == Total(vs[1..])
    ensures Mapped(|mem|, vs[1..], o)
    ensures Scatter(mem, vs, o, head + tail) == Scatter(Patch(mem, At(vs[0], o), head), vs[1..], o, tail)
  {
    ScatterTurn(mem, vs, o, head + tail);
    assert (head + tail)[..|head|] == head && (head + tail)[|head|..] == tail;
  }

  lemma GatherParts(mem: seq<Byte>, vs: seq<Vec>, o: Offset, head: seq<Byte>, tail: seq<Byte>)
    requires vs != [] && Mapped(|mem|, vs, o) && |head| == vs[0].len && Gather(mem, vs, o) == head + tail
    ensures Mapped(|mem|, vs[1..], o)
    ensures Slice(mem, At(vs[0], o), vs[0].len) == head && Gather(mem, vs[1..], o) == tail
  {
    MappedTail(|mem|, vs, o);
    var g := Gather(mem, vs, o);
    assert g[..|head|] == head && g[|head|..] == tail;
    assert g[..|head|] == Slice(mem, At(vs[0], o), vs[0].len) && g[|head|..] == Gather(mem, vs[1..], o);
  }

  lemma ZerosSplit(n: nat, m: nat)
    ensures Zeros(n + m) == Zeros(n) + Zeros(m)
  {
  }

  lemma {:induction false} ZerosKeepZero(mem: seq<Byte>, vs: seq<Vec>, o: Offset, n: nat, a: nat)
    requires Mapped(|mem|, vs, o) && n == Total(vs) && a < |mem| && mem[a] == 0
    ensures Scatter(mem, vs, o, Zeros(n))[a] == 0
    decreases |vs|
  {
    if vs != [] {
      var head, rest := Zeros(vs[0].len), Total(vs[1..]);
      ZerosSplit(vs[0].len, rest);
      ScatterParts(mem, vs, o, head, Zeros(rest));
      PatchAt(mem, At(vs[0], o), head, a);
      ZerosKeepZero(Patch(mem, At(vs[0], o), head), vs[1..], o, rest, a);
    }
  }

  /** The mark lands at the start of its segment and nowhere else. */
  lemma {:induction false} MarkElsewhere(mem: seq<Byte>, vs: seq<Vec>, o: Offset, i: nat, a: nat)
    requires Mapped(|mem|, vs, o) && i < |vs| && vs[i].len > 0
    requires a < |mem| && mem[a] == 0 && a != At(vs[i], o)
    ensures Scatter(mem, vs, o, Marked(vs, i))[a] == 0
    decreases |vs|
  {
    var v, rest := vs[0], vs[1..];
    if i == 0 {
      ScatterParts(mem, vs, o, Mark(v.len), Zeros(Total(rest)));
      PatchAt(mem, At(v, o), Mark(v.len), a);
      ZerosKeepZero(Patch(mem, At(v, o), Mark(v.len)), rest, o, Total(rest), a);
    } else {
      ScatterParts(mem, vs, o, Zeros(v.len), Marked(rest, i - 1));
      PatchAt(mem, At(v, o), Zeros(v.len), a);
      MarkElsewhere(Patch(mem, At(v, o), Zeros(v.len)), rest, o, i - 1, a);
    }
  }

  /** Memory from which the marked bytes can be collected has the mark there. */
  lemma {:induction false} MarkFound(mem: seq<Byte>, vs: seq<Vec>, o: Offset, i: nat)
    requires Mapped(|mem|, vs, o) && i < |vs| && vs[i].len > 0 && Gather(mem, vs, o) == Marked(vs, i)
    ensures At(vs[i], o) < |mem| && mem[At(vs[i], o)] == 1
    decreases |vs|
  {
    if i == 0 {
      GatherParts(mem, vs, o, Mark(vs[0].len), Zeros(Total(vs[1..])));
      SliceAt(mem, At(vs[0], o), vs[0].len, 0, At(vs[0], o));
    } else {
      GatherParts(mem, vs, o, Zeros(vs[0].len), Marked(vs[1..], i - 1));
      MarkFound(mem, vs[1..], o, i - 1);
    }
  }

  /** Memory and bytes that show a non-zero offset up in a read: in empty memory
      the one mark ends up in two different places. */
  lemma OffsetMisdirects(n: nat, vs: seq<Vec>, i: nat) returns (mem: seq<Byte>, bytes: seq<Byte>)
    requires Mapped(n, vs, Once) && (AllDisjoint(vs, Once) || AllDisjoint(vs, Twice))
    requires i < |vs| && vs[i].len != 0 && vs[i].offset != 0
    ensures |mem| == n && |bytes| == Total(vs) && !SameScatter(mem, vs, bytes)
  {
    mem, bytes := Zeros(n), Marked(vs, i);
    if Mapped(n, vs, Twice) {
      var o, other := if AllDisjoint(vs, Once) then Once else Twice, if AllDisjoint(vs, Once) then Twice else Once;
      GatherScatter(mem, vs, o, bytes);
      MarkFound(Scatter(mem, vs, o, bytes), vs, o, i);
      MarkElsewhere(mem, vs, other, i, At(vs[i], o));
    }
  }

  /** Into segments that do not overlap where the request names them, or not
      where the driver puts them, it reads where the request asks for it,
      whatever the bytes and the memory, exactly when no non-empty segment has
      an offset. The doubled targets may run into other segments. */
  lemma ReadOffsetIffZero(n: nat, vs: seq<Vec>)
    requires Mapped(n, vs, Once) && (AllDisjoint(vs, Once) || AllDisjoint(vs, Twice))
    ensures AtPageStarts(vs) <==>
            (forall mem: seq<Byte>, bytes: seq<Byte> ::
               |mem| == n && |bytes| == Total(vs) ==> SameScatter(mem, vs, bytes))
  {
    if i :| 0 <= i < |vs| && vs[i].len != 0 && vs[i].offset != 0 {
      var mem, bytes := OffsetMisdirects(n, vs, i);
    } else {
      forall mem: seq<Byte>, bytes: seq<Byte> | |mem| == n && |bytes| == Total(vs)
        ensures SameScatter(mem, vs, bytes)
      {
        PageStartsScatter(mem, vs, bytes);
      }
    }
  }

  /** Segments that overlap in the request itself can hide an offset: here the
      second covers both places of the first. */
  lemma OverlapHidesOffset(mem: seq<Byte>, bytes: seq<Byte>)
    requires |mem| == 2048 && |bytes| == 2560
    ensures var vs := [Vec(0, 512, 512), Vec(0, 2048, 0)];
            !AtPageStarts(vs) && SameScatter(mem, vs, bytes)
  {
    var vs := [Vec(0, 512, 512), Vec(0, 2048, 0)];
    assert vs[1..] == [vs[1]] && vs[0].offset == 512;
    assert Total(vs[1..]) == 2048 && vs[1..][1..] == [];
    forall o: Offset ensures Mapped(2048, vs, o) && Scatter(mem, vs, o, bytes) == bytes[512..] {
      ScatterTurn(mem, vs, o, bytes);
      var mem' := Patch(mem, At(vs[0], o), bytes[..512]);
      ScatterTurn(mem', vs[1..], o, bytes[512..]);
      assert bytes[512..][..2048] == bytes[512..];
      assert Patch(mem', 0, bytes[512..]) == bytes[512..];
    }
  }

  // ---- Segmentation does not matter ----

  lemma WriteStep(store: seq<Byte>, w: Bio, mem: seq<Byte>)
    requires |store| == MYDRV_MAX_LENGTH && WellFormed(w, |mem|) && Addressable(w, |mem|)
    requires Accepted(w) && !IsRead(w.rw) && Aligned(w.vecs)
    ensures Fits(|store|, w.sector, w.vecs)
    ensures Step(store, w, mem) == Outcome(Splice(store, Start(w), Gather(mem, w.vecs, Twice)), mem, 0)
  {
    AlignedWriteIsFlat(store, w.sector, w.vecs, mem, Start(w));
  }

  /** The byte range that a request names. */
  function Range(store: seq<Byte>, bio: Bio): (r: seq<Byte>)
    requires Fits(|store|, bio.sector, bio.vecs)
    ensures |r| == Total(bio.vecs)
  {
    store[Start(bio)..Start(bio) + Total(bio.vecs)]
  }

  lemma RangeAt(store: seq<Byte>, bio: Bio, k: nat)
    requires Fits(|store|, bio.sector, bio.vecs) && k < Total(bio.vecs)
    ensures Range(store, bio)[k] == store[Start(bio) + k]
  {
  }

  lemma DeliveredIsRange(store: seq<Byte>, r: Bio)
    requires Fits(|store|, r.sector, r.vecs) && Aligned(r.vecs)
    ensures Delivered(store, r.sector, r.vecs) == Range(store, r)
  {
    AlignedReadIsFlat(store, r.sector, r.vecs, Start(r), Start(r) + Total(r.vecs));
  }

  lemma AcceptedFits(bio: Bio, n: nat)
    requires WellFormed(bio, n) && Accepted(bio)
    ensures Fits(MYDRV_MAX_LENGTH, bio.sector, bio.vecs)
  {
  }

  lemma ReadStep(store: seq<Byte>, r: Bio, mem: seq<Byte>)
    requires |store| == MYDRV_MAX_LENGTH && WellFormed(r, |mem|) && Addressable(r, |mem|)
    requires Accepted(r) && IsRead(r.rw) && Aligned(r.vecs)
    ensures Fits(|store|, r.sector, r.vecs)
    ensures Step(store, r, mem) == Outcome(store, Scatter(mem, r.vecs, Twice, Range(store, r)), 0)
  {
    AcceptedFits(r, |mem|);
    DeliveredIsRange(store, r);
  }

  lemma SpliceFlat(s: seq<Byte>, at: nat, bytes: seq<Byte>)
    requires at + |bytes| <= |s|
    ensures Splice(s, at, bytes)[at..at + |bytes|] == bytes
    ensures forall k :: 0 <= k < |s| && !(at <= k < at + |bytes|) ==> Splice(s, at, bytes)[k] == s[k]
  {
  }

  /** Write through one list of segments, read the same sectors through
      another: the same bytes come back, and nothing else in the store moves. */
  lemma WriteThenRead(store: seq<Byte>, w: Bio, wmem: seq<Byte>, r: Bio, rmem: seq<Byte>)
    requires |store| == MYDRV_MAX_LENGTH
    requires WellFormed(w, |wmem|) && Addressable(w, |wmem|) && WellFormed(r, |rmem|) && Addressable(r, |rmem|)
    requires Accepted(w) && !IsRead(w.rw) && Accepted(r) && IsRead(r.rw)
    requires w.sector == r.sector && Total(w.vecs) == Total(r.vecs)
    requires Aligned(w.vecs) && Aligned(r.vecs) && AllDisjoint(r.vecs, Twice)
    ensures var written := Step(store, w, wmem);
            var read := Step(written.store, r, rmem);
            && written.err == 0 && read.err == 0
            && read.store == written.store && written.mem == wmem
            && Gather(read.mem, r.vecs, Twice) == Gather(wmem, w.vecs, Twice)
            && forall a :: 0 <= a < |store| && !(Start(w) <= a < Start(w) + Total(w.vecs)) ==>
                 written.store[a] == store[a]
  {
    var bytes := Gather(wmem, w.vecs, Twice);
    WriteStep(store, w, wmem);
    SpliceFlat(store, Start(w), bytes);
    ReadStep(Step(store, w, wmem).store, r, rmem);
    GatherScatter(rmem, r.vecs, Twice, bytes);
  }

  lemma PageStartsDisjoint(vs: seq<Vec>)
    requires AtPageStarts(vs)
    ensures AllDisjoint(vs, Once) <==> AllDisjoint(vs, Twice)
  {
    assert forall i :: 0 <= i < |vs| ==> vs[i].len == 0 || At(vs[i], Once) == At(vs[i], Twice);
  }

  /** The same in the request's own terms, for requests at page starts: the
      block layer's guarantees are enough, and the bytes that the read finds at
      its segments are those that the write had at its segments. */
  lemma WriteThenReadAsAsked(store: seq<Byte>, w: Bio, wmem: seq<Byte>, r: Bio, rmem: seq<Byte>)
    requires |store| == MYDRV_MAX_LENGTH && WellFormed(w, |wmem|) && WellFormed(r, |rmem|)
    requires AtPageStarts(w.vecs) && AtPageStarts(r.vecs)
    requires Accepted(w) && !IsRead(w.rw) && Accepted(r) && IsRead(r.rw)
    requires w.sector == r.sector && Total(w.vecs) == Total(r.vecs)
    requires Aligned(w.vecs) && Aligned(r.vecs) && AllDisjoint(r.vecs, Once)
    ensures Addressable(w, |wmem|) && Addressable(r, |rmem|)
    ensures var written := Step(store, w, wmem);
            var read := Step(written.store, r, rmem);
            && written.err == 0 && read.err == 0
            && Gather(read.mem, r.vecs, Once) == Gather(wmem, w.vecs, Once)
  {
    PageStartsMapped(|wmem|, w.vecs);
    PageStartsMapped(|rmem|, r.vecs);
    PageStartsDisjoint(r.vecs);
    WriteThenRead(store, w, wmem, r, rmem);
    PageStartsGather(wmem, w.vecs);
    PageStartsGather(Step(Step(store, w, wmem).store, r, rmem).mem, r.vecs);
  }

  // ---- Runs: the store is a byte map, reads return the last write ----

  /** A request together with the memory it finds. */
  datatype Event = Event(bio: Bio, mem: seq<Byte>)

  ghost predicate GoodEvent(e: Event) { WellFormed(e.bio, |e.mem|) && Addressable(e.bio, |e.mem|) }

  ghost predicate GoodRun(run: seq<Event>) {
    forall i :: 0 <= i < |run| ==> GoodEvent(run[i])
  }

  /** The store after a run of requests. */
  ghost function StoreAfter(init: seq<Byte>, run: seq<Event>): (r: seq<Byte>)
    requires |init| == MYDRV_MAX_LENGTH && GoodRun(run)
    ensures |r| == |init|
  {
    if run == [] then init else
      var e := run[|run| - 1];
      Step(StoreAfter(init, run[..|run| - 1]), e.bio, e.mem).store
  }

  // ---- Over every run, whatever the segment lengths ----

  /** Where the cursor stands before segment `i`. */
  function Cursor(sector: nat, vs: seq<Vec>, i: nat): nat
    requires i <= |vs|
    decreases i
  {
    if i == 0 then sector else Cursor(NextSector(sector, vs[0]), vs[1..], i - 1)
  }

  lemma {:induction false} CursorIsSum(sector: nat, vs: seq<Vec>, i: nat)
    requires i < |vs|
    ensures Cursor(sector, vs, i + 1) == Cursor(sector, vs, i) + vs[i].len / 512
    decreases i
  {
    if i > 0 {
      CursorIsSum(NextSector(sector, vs[0]), vs[1..], i - 1);
    }
  }

  /** The turn of segment `i` covers address `a` of the store. */
  predicate TurnCovers(sector: nat, vs: seq<Vec>, i: nat, a: nat)
    requires i < |vs|
  {
    512 * Cursor(sector, vs, i) <= a < 512 * Cursor(sector, vs, i) + vs[i].len
  }

  /** The last turn that covers `a`, or the number of segments. */
  function LastTurn(sector: nat, vs: seq<Vec>, a: nat): (i: nat)
    ensures i <= |vs|
    ensures i < |vs| ==> TurnCovers(sector, vs, i, a)
    decreases |vs|
  {
    if vs == [] then 0 else
      var rest := LastTurn(NextSector(sector, vs[0]), vs[1..], a);
      if rest < |vs| - 1 || !TurnCovers(sector, vs, 0, a) then rest + 1 else 0
  }

  /** It is the last one, and when there is none no turn covers `a`. */
  lemma {:induction false} LastTurnIsLast(sector: nat, vs: seq<Vec>, a: nat, j: nat)
    requires j < |vs| && TurnCovers(sector, vs, j, a)
    ensures j <= LastTurn(sector, vs, a) < |vs|
    decreases |vs|
  {
    if j > 0 {
      LastTurnIsLast(NextSector(sector, vs[0]), vs[1..], a, j - 1);
    }
  }

  /** The byte that turn `i` of a write brings to `a`: as far behind the page
      address and twice the offset as `a` is behind the cursor. */
  function TurnByte(mem: seq<Byte>, sector: nat, vs: seq<Vec>, i: nat, a: nat): Byte
    requires i < |vs| && TurnCovers(sector, vs, i, a) && Mapped(|mem|, vs, Twice)
  {
    mem[vs[i].page + 2 * vs[i].offset + (a - 512 * Cursor(sector, vs, i))]
  }

  lemma SpliceAt(s: seq<Byte>, at: nat, bytes: seq<Byte>, a: nat)
    requires at + |bytes| <= |s| && a < |s|
    ensures Splice(s, at, bytes)[a] == if at <= a < at + |bytes| then bytes[a - at] else s[a]
  {
  }

  lemma LastTurnTail(mem: seq<Byte>, sector: nat, vs: seq<Vec>, a: nat)
    requires vs != [] && Mapped(|mem|, vs, Twice)
    ensures var i, next, rest := LastTurn(sector, vs, a), NextSector(sector, vs[0]), vs[1..];
            var j := LastTurn(next, rest, a);
            && Mapped(|mem|, rest, Twice)
            && (j < |rest| ==> i == j + 1 && TurnByte(mem, sector, vs, i, a) == TurnByte(mem, next, rest, j, a))
            && (j == |rest| ==> i == if TurnCovers(sector, vs, 0, a) then 0 else |vs|)
  {
    var rest, j := vs[1..], LastTurn(NextSector(sector, vs[0]), vs[1..], a);
    MappedTail(|mem|, vs, Twice);
    if j < |rest| {
      assert LastTurn(sector, vs, a) == j + 1 && vs[j + 1] == rest[j];
      assert Cursor(sector, vs, j + 1) == Cursor(NextSector(sector, vs[0]), rest, j);
    }
  }

  /** A write leaves at each address what the last turn that covers it brought. */
  lemma {:induction false} WrittenByLastTurn(store: seq<Byte>, sector: nat, vs: seq<Vec>, mem: seq<Byte>, a: nat)
    requires Fits(|store|, sector, vs) && Mapped(|mem|, vs, Twice) && a < |store|
    ensures var i := LastTurn(sector, vs, a);
            Written(store, sector, vs, mem)[a] == if i < |vs| then TurnByte(mem, sector, vs, i, a) else store[a]
    decreases |vs|
  {
    if vs != [] {
      var d, bytes := Addr(sector), Slice(mem, At(vs[0], Twice), vs[0].len);
      WrittenTurn(store, sector, vs, mem);
      LastTurnTail(mem, sector, vs, a);
      WrittenByLastTurn(Splice(store, d, bytes), NextSector(sector, vs[0]), vs[1..], mem, a);
      SpliceAt(store, d, bytes, a);
    }
  }

  /** The number of bytes that a request moves before segment `i`. */
  function Before(vs: seq<Vec>, i: nat): nat
    requires i <= |vs|
    decreases i
  {
    if i == 0 then 0 else vs[0].len + Before(vs[1..], i - 1)
  }

  /** The `k`-th byte for segment `i` of a read comes from behind its cursor. */
  lemma {:induction false} DeliveredAt(store: seq<Byte>, sector: nat, vs: seq<Vec>, i: nat, k: nat, at: nat, a: nat)
    requires Fits(|store|, sector, vs) && i < |vs| && k < vs[i].len
    requires at == Before(vs, i) + k && a == Addr(Cursor(sector, vs, i)) + k
    ensures at < Total(vs) && a < |store| && Delivered(store, sector, vs)[at] == store[a]
    decreases i
  {
    DeliveredTurn(store, sector, vs);
    if i == 0 {
      PieceAt(store, sector, vs[0], k, a);
    } else {
      DeliveredAt(store, NextSector(sector, vs[0]), vs[1..], i - 1, k, at - vs[0].len, a);
    }
  }

  lemma PieceAt(store: seq<Byte>, sector: nat, v: Vec, k: nat, a: nat)
    requires Addr(sector) + v.len <= |store| && k < v.len && a == Addr(sector) + k
    ensures Piece(store, sector, v)[k] == store[a]
  {
  }

  // What the segments hold, and what a read leaves in memory, byte by byte.

  lemma SliceAt(s: seq<Byte>, at: nat, len: nat, k: nat, a: nat)
    requires Inside(|s|, at, len) && k < len && a == at + k
    ensures a < |s| && Slice(s, at, len)[k] == s[a]
  {
  }

  lemma GatherTurn(mem: seq<Byte>, vs: seq<Vec>, o: Offset)
    requires vs != [] && Mapped(|mem|, vs, o)
    ensures Mapped(|mem|, vs[1..], o)
    ensures Gather(mem, vs, o) == Slice(mem, At(vs[0], o), vs[0].len) + Gather(mem, vs[1..], o)
  {
    MappedTail(|mem|, vs, o);
  }

  lemma TailAt(head: seq<Byte>, tail: seq<Byte>, k: nat, at: nat)
    requires k < |tail| && at == |head| + k
    ensures (head + tail)[at] == tail[k]
  {
  }

  lemma GatherLater(mem: seq<Byte>, vs: seq<Vec>, o: Offset, k: nat, at: nat)
    requires vs != [] && Mapped(|mem|, vs, o) && Mapped(|mem|, vs[1..], o)
    requires k < Total(vs[1..]) && at == vs[0].len + k
    ensures at < Total(vs) && Gather(mem, vs, o)[at] == Gather(mem, vs[1..], o)[k]
  {
    GatherTurn(mem, vs, o);
    TailAt(Slice(mem, At(vs[0], o), vs[0].len), Gather(mem, vs[1..], o), k, at);
  }

  lemma GatherFirst(mem: seq<Byte>, vs: seq<Vec>, o: Offset, k: nat, a: nat)
    requires vs != [] && Mapped(|mem|, vs, o) && k < vs[0].len && a == At(vs[0], o) + k
    ensures k < Total(vs) && a < |mem| && Gather(mem, vs, o)[k] == mem[a]
  {
    GatherTurn(mem, vs, o);
    SliceAt(mem, At(vs[0], o), vs[0].len, k, a);
  }

  /** The segments' bytes are those behind their pages and offsets. */
  lemma {:induction false} GatherAt(mem: seq<Byte>, vs: seq<Vec>, o: Offset, i: nat, k: nat, at: nat, a: nat)
    requires Mapped(|mem|, vs, o) && i < |vs| && k < vs[i].len
    requires at == Before(vs, i) + k && a == At(vs[i], o) + k
    ensures at < Total(vs) && a < |mem| && Gather(mem, vs, o)[at] == mem[a]
    decreases i
  {
    if i == 0 {
      GatherFirst(mem, vs, o, k, a);
    } else {
      MappedTail(|mem|, vs, o);
      GatherAt(mem, vs[1..], o, i - 1, k, at - vs[0].len, a);
      GatherLater(mem, vs, o, at - vs[0].len, at);
    }
  }

  /** Segment `i` holds address `a`. */
  predicate Holds(vs: seq<Vec>, o: Offset, i: nat, a: nat)
    requires i < |vs|
  {
    At(vs[i], o) <= a < At(vs[i], o) + vs[i].len
  }

  /** The last segment that holds `a`, or the number of segments. */
  function LastHolder(vs: seq<Vec>, o: Offset, a: nat): (i: nat)
    ensures i <= |vs|
    ensures i < |vs| ==> Holds(vs, o, i, a)
  {
    if vs == [] then 0 else
      var rest := LastHolder(vs[1..], o, a);
      if rest < |vs| - 1 || !Holds(vs, o, 0, a) then rest + 1 else 0
  }

  lemma {:induction false} LastHolderIsLast(vs: seq<Vec>, o: Offset, a: nat, j: nat)
    requires j < |vs| && Holds(vs, o, j, a)
    ensures j <= LastHolder(vs, o, a) < |vs|
  {
    if j > 0 {
      LastHolderIsLast(vs[1..], o, a, j - 1);
    }
  }

  lemma LastHolderTail(vs: seq<Vec>, o: Offset, a: nat)
    requires vs != []
    ensures var i, j := LastHolder(vs, o, a), LastHolder(vs[1..], o, a);
            && (j < |vs| - 1 ==> i == j + 1)
            && (j == |vs| - 1 ==> i == if Holds(vs, o, 0, a) then 0 else |vs|)
  {
  }

  lemma BeforeWithin(vs: seq<Vec>, i: nat)
    requires i < |vs|
    ensures Before(vs, i) + vs[i].len <= Total(vs)
    decreases i
  {
    if i > 0 {
      BeforeWithin(vs[1..], i - 1);
    }
  }

  /** The place among the dealt bytes of the one for `a` in segment `i`. */
  function Place(vs: seq<Vec>, o: Offset, i: nat, a: nat): (at: nat)
    requires i < |vs| && Holds(vs, o, i, a)
    ensures at < Total(vs)
  {
    BeforeWithin(vs, i);
    Before(vs, i) + (a - At(vs[i], o))
  }

  lemma PlaceTail(vs: seq<Vec>, o: Offset, j: nat, a: nat)
    requires vs != [] && j < |vs| - 1 && Holds(vs[1..], o, j, a)
    ensures Holds(vs, o, j + 1, a) && Place(vs, o, j + 1, a) == vs[0].len + Place(vs[1..], o, j, a)
  {
    assert vs[1..][j] == vs[j + 1];
  }

  /** What dealing out leaves at `a`. */
  function DealtAt(mem: seq<Byte>, vs: seq<Vec>, o: Offset, bytes: seq<Byte>, a: nat): Byte
    requires |bytes| == Total(vs) && a < |mem|
  {
    var i := LastHolder(vs, o, a);
    if i < |vs| then bytes[Place(vs, o, i, a)] else mem[a]
  }

  lemma DealtAtTurn(mem: seq<Byte>, vs: seq<Vec>, o: Offset, bytes: seq<Byte>, a: nat, mem': seq<Byte>)
    requires vs != [] && |bytes| == Total(vs) && a < |mem| == |mem'|
    requires mem'[a] == if Holds(vs, o, 0, a) then bytes[Place(vs, o, 0, a)] else mem[a]
    ensures DealtAt(mem, vs, o, bytes, a) == DealtAt(mem', vs[1..], o, bytes[vs[0].len..], a)
  {
    var j := LastHolder(vs[1..], o, a);
    LastHolderTail(vs, o, a);
    if j < |vs| - 1 {
      PlaceTail(vs, o, j, a);
    }
  }

  lemma HeadPatched(mem: seq<Byte>, vs: seq<Vec>, o: Offset, bytes: seq<Byte>, a: nat)
    requires vs != [] && Inside(|mem|, At(vs[0], o), vs[0].len) && |bytes| == Total(vs) && a < |mem|
    ensures Patch(mem, At(vs[0], o), bytes[..vs[0].len])[a] == if Holds(vs, o, 0, a) then bytes[Place(vs, o, 0, a)] else mem[a]
  {
    PatchAt(mem, At(vs[0], o), bytes[..vs[0].len], a);
  }

  /** Dealing out leaves at each address the byte for the last segment that holds
      it, also where segments overlap, and every other byte as it was. */
  lemma {:induction false} ScatteredByLastHolder(mem: seq<Byte>, vs: seq<Vec>, o: Offset, bytes: seq<Byte>, a: nat)
    requires Mapped(|mem|, vs, o) && |bytes| == Total(vs) && a < |mem|
    ensures Scatter(mem, vs, o, bytes)[a] == DealtAt(mem, vs, o, bytes, a)
    decreases |vs|
  {
    if vs != [] {
      MappedTail(|mem|, vs, o);
      var mem' := Patch(mem, At(vs[0], o), bytes[..vs[0].len]);
      ScatterTurn(mem, vs, o, bytes);
      HeadPatched(mem, vs, o, bytes, a);
      DealtAtTurn(mem, vs, o, bytes, a, mem');
      ScatteredByLastHolder(mem', vs[1..], o, bytes[vs[0].len..], a);
    }
  }

  predicate IsWrite(bio: Bio) { Accepted(bio) && bio.rw != READ && bio.rw != READA }

  /** The byte that the last turn over `a` of all accepted writes brought, or the
      initial one. */
  ghost function LastTaken(init: seq<Byte>, run: seq<Event>, a: nat): Byte
    requires a < |init| && GoodRun(run)
  {
    if run == [] then init[a] else
      var e := run[|run| - 1];
      var i := LastTurn(e.bio.sector, e.bio.vecs, a);
      if IsWrite(e.bio) && i < |e.bio.vecs| then TurnByte(e.mem, e.bio.sector, e.bio.vecs, i, a)
      else LastTaken(init, run[..|run| - 1], a)
  }

  /** Over every run, whatever the segment lengths and offsets, the store holds at
      every address the byte of the last turn that covers it; rejected, empty,
      read and discard requests change nothing. */
  lemma {:induction false} StoreIsLastTaken(init: seq<Byte>, run: seq<Event>, a: nat)
    requires |init| == MYDRV_MAX_LENGTH && GoodRun(run) && a < MYDRV_MAX_LENGTH
    ensures StoreAfter(init, run)[a] == LastTaken(init, run, a)
  {
    if run != [] {
      var e, before := run[|run| - 1], run[..|run| - 1];
      StoreIsLastTaken(init, before, a);
      if IsWrite(e.bio) {
        AcceptedFits(e.bio, |e.mem|);
        WrittenByLastTurn(StoreAfter(init, before), e.bio.sector, e.bio.vecs, e.mem, a);
      }
    }
  }

  /** The `k`-th byte for segment `i` of a read is the one that the last turn
      brought to the address behind the segment's cursor. */
  ghost predicate IsLastTaken(init: seq<Byte>, run: seq<Event>, bio: Bio, bytes: seq<Byte>, i: nat, k: nat)
    requires GoodRun(run) && i < |bio.vecs|
  {
    var at, a := Before(bio.vecs, i) + k, 512 * Cursor(bio.sector, bio.vecs, i) + k;
    at < |bytes| && a < |init| && bytes[at] == LastTaken(init, run, a)
  }

  lemma ByteIsLastTaken(init: seq<Byte>, run: seq<Event>, bio: Bio, i: nat, k: nat)
    requires |init| == MYDRV_MAX_LENGTH && GoodRun(run) && Fits(MYDRV_MAX_LENGTH, bio.sector, bio.vecs)
    requires i < |bio.vecs| && k < bio.vecs[i].len
    ensures IsLastTaken(init, run, bio, Delivered(StoreAfter(init, run), bio.sector, bio.vecs), i, k)
  {
    var a := Addr(Cursor(bio.sector, bio.vecs, i)) + k;
    DeliveredAt(StoreAfter(init, run), bio.sector, bio.vecs, i, k, Before(bio.vecs, i) + k, a);
    StoreIsLastTaken(init, run, a);
  }

  /** After any run, any accepted read deals out to each segment, byte by byte,
      what the last turns brought to the addresses behind the segment's cursor. */
  lemma ReadReturnsLastTaken(init: seq<Byte>, run: seq<Event>, e: Event) returns (bytes: seq<Byte>)
    requires |init| == MYDRV_MAX_LENGTH && GoodRun(run) && GoodEvent(e)
    requires Accepted(e.bio) && (e.bio.rw == READ || e.bio.rw == READA)
    ensures var vs := e.bio.vecs;
            && |bytes| == Total(vs)
            && Step(StoreAfter(init, run), e.bio, e.mem)
               == Outcome(StoreAfter(init, run), Scatter(e.mem, vs, Twice, bytes), 0)
            && forall i: nat, k: nat :: i < |vs| && k < vs[i].len ==> IsLastTaken(init, run, e.bio, bytes, i, k)
  {
    var vs, store := e.bio.vecs, StoreAfter(init, run);
    AcceptedFits(e.bio, |e.mem|);
    bytes := Delivered(store, e.bio.sector, vs);
    forall i: nat, k: nat | i < |vs| && k < vs[i].len
      ensures IsLastTaken(init, run, e.bio, bytes, i, k)
    {
      ByteIsLastTaken(init, run, e.bio, i, k);
    }
  }

  // ---- Over runs whose writes are whole sectors: one flat byte map ----

  /** The accepted writes of the run are in whole sectors; what is asked of no
      other request. */
  ghost predicate WholeSectors(run: seq<Event>) {
    forall i :: 0 <= i < |run| ==> IsWrite(run[i].bio) ==> Aligned(run[i].bio.vecs)
  }

  /** The request writes to address `a`. */
  ghost predicate Covers(bio: Bio, a: nat) {
    IsWrite(bio) && Start(bio) <= a < Start(bio) + Total(bio.vecs)
  }

  /** The byte the last accepted write to `a` brought, or the initial one, with
      the segments of the write read under `o`. */
  ghost function LastWritten(init: seq<Byte>, run: seq<Event>, o: Offset, a: nat): Byte
    requires a < |init| && GoodRun(run)
  {
    if run == [] then init[a] else
      var e := run[|run| - 1];
      if Covers(e.bio, a) then Gather(e.mem, e.bio.vecs, o)[a - Start(e.bio)]
      else LastWritten(init, run[..|run| - 1], o, a)
  }

  /** What one request does to one byte of the store. */
  lemma StepAt(store: seq<Byte>, bio: Bio, mem: seq<Byte>, a: nat)
    requires |store| == MYDRV_MAX_LENGTH && GoodEvent(Event(bio, mem)) && a < MYDRV_MAX_LENGTH
    requires IsWrite(bio) ==> Aligned(bio.vecs)
    ensures Step(store, bio, mem).store[a]
         == if Covers(bio, a) then Gather(mem, bio.vecs, Twice)[a - Start(bio)] else store[a]
  {
    if IsWrite(bio) {
      WriteStep(store, bio, mem);
      var bytes := Gather(mem, bio.vecs, Twice);
      if Covers(bio, a) {
        SpliceFlat(store, Start(bio), bytes);
        assert bytes[a - Start(bio)] == Splice(store, Start(bio), bytes)[Start(bio)..Start(bio) + |bytes|][a - Start(bio)];
      } else {
        SpliceKeeps(store, Start(bio), bytes, a);
      }
    }
  }

  /** Over every such run the store holds, at every address, the last byte written
      there; rejected, empty, read and discard requests, of whatever shape,
      change nothing. */
  lemma {:induction false} StoreIsLastWritten(init: seq<Byte>, run: seq<Event>, a: nat)
    requires |init| == MYDRV_MAX_LENGTH && GoodRun(run) && WholeSectors(run) && a < MYDRV_MAX_LENGTH
    ensures StoreAfter(init, run)[a] == LastWritten(init, run, Twice, a)
  {
    if run != [] {
      var e, before := run[|run| - 1], run[..|run| - 1];
      StoreIsLastWritten(init, before, a);
      StepAt(StoreAfter(init, before), e.bio, e.mem, a);
    }
  }

  /** `bytes` are the last bytes written from `start` on. */
  ghost predicate AreLastWritten(init: seq<Byte>, run: seq<Event>, o: Offset, start: nat, bytes: seq<Byte>) {
    && GoodRun(run) && start + |bytes| <= |init|
    && forall k :: 0 <= k < |bytes| ==> bytes[k] == LastWritten(init, run, o, start + k)
  }

  /** After any such run, an accepted read of whole sectors deals out to its segments, in order, the
      last bytes written to the sectors it names. */
  lemma ReadReturnsLastWritten(init: seq<Byte>, run: seq<Event>, e: Event) returns (bytes: seq<Byte>)
    requires |init| == MYDRV_MAX_LENGTH && GoodRun(run) && WholeSectors(run) && GoodEvent(e)
    requires Accepted(e.bio) && IsRead(e.bio.rw) && Aligned(e.bio.vecs)
    ensures |bytes| == Total(e.bio.vecs) && AreLastWritten(init, run, Twice, Start(e.bio), bytes)
    ensures Step(StoreAfter(init, run), e.bio, e.mem)
         == Outcome(StoreAfter(init, run), Scatter(e.mem, e.bio.vecs, Twice, bytes), 0)
  {
    var store := StoreAfter(init, run);
    ReadStep(store, e.bio, e.mem);
    bytes := Range(store, e.bio);
    RangeIsLastWritten(init, run, e.bio);
  }

  lemma RangeByteIsLastWritten(init: seq<Byte>, run: seq<Event>, bio: Bio, k: nat)
    requires |init| == MYDRV_MAX_LENGTH && GoodRun(run) && WholeSectors(run)
    requires Fits(MYDRV_MAX_LENGTH, bio.sector, bio.vecs) && k < Total(bio.vecs)
    ensures Range(StoreAfter(init, run), bio)[k] == LastWritten(init, run, Twice, Start(bio) + k)
  {
    RangeAt(StoreAfter(init, run), bio, k);
    StoreIsLastWritten(init, run, Start(bio) + k);
  }

  lemma RangeIsLastWritten(init: seq<Byte>, run: seq<Event>, bio: Bio)
    requires |init| == MYDRV_MAX_LENGTH && GoodRun(run) && WholeSectors(run)
    requires Fits(MYDRV_MAX_LENGTH, bio.sector, bio.vecs)
    ensures AreLastWritten(init, run, Twice, Start(bio), Range(StoreAfter(init, run), bio))
  {
    forall k: nat | k < Total(bio.vecs)
      ensures Range(StoreAfter(init, run), bio)[k] == LastWritten(init, run, Twice, Start(bio) + k)
    {
      RangeByteIsLastWritten(init, run, bio, k);
    }
  }

  /** The accepted writes of the run are in whole sectors and have no offset; the
      other requests may have any shape. */
  ghost predicate PlainRun(run: seq<Event>) {
    && GoodRun(run) && WholeSectors(run)
    && forall i :: 0 <= i < |run| ==> IsWrite(run[i].bio) ==> AtPageStarts(run[i].bio.vecs)
  }

  /** For requests without an offset the block layer's guarantee is enough. */
  lemma PlainIsGood(e: Event)
    requires WellFormed(e.bio, |e.mem|) && (Accepted(e.bio) ==> AtPageStarts(e.bio.vecs))
    ensures GoodEvent(e)
  {
    if Accepted(e.bio) {
      PageStartsMapped(|e.mem|, e.bio.vecs);
    }
  }

  lemma {:induction false} LastWrittenAsAsked(init: seq<Byte>, run: seq<Event>, a: nat)
    requires PlainRun(run) && a < |init|
    ensures LastWritten(init, run, Twice, a) == LastWritten(init, run, Once, a)
  {
    if run != [] {
      var e := run[|run| - 1];
      LastWrittenAsAsked(init, run[..|run| - 1], a);
      if Covers(e.bio, a) {
        PageStartsGather(e.mem, e.bio.vecs);
      }
    }
  }

  /** In such runs the store holds at every address the byte that the last write
      request names for it. */
  lemma StoreIsLastAsked(init: seq<Byte>, run: seq<Event>, a: nat)
    requires |init| == MYDRV_MAX_LENGTH && PlainRun(run) && a < MYDRV_MAX_LENGTH
    ensures StoreAfter(init, run)[a] == LastWritten(init, run, Once, a)
  {
    StoreIsLastWritten(init, run, a);
    LastWrittenAsAsked(init, run, a);
  }

  /** And a read of whole sectors without an offset puts those bytes where it asks
      for them. */
  lemma ReadReturnsLastAsked(init: seq<Byte>, run: seq<Event>, e: Event) returns (bytes: seq<Byte>)
    requires |init| == MYDRV_MAX_LENGTH && PlainRun(run)
    requires WellFormed(e.bio, |e.mem|) && Accepted(e.bio) && IsRead(e.bio.rw)
    requires Aligned(e.bio.vecs) && AtPageStarts(e.bio.vecs)
    ensures GoodEvent(e)
    ensures |bytes| == Total(e.bio.vecs) && AreLastWritten(init, run, Once, Start(e.bio), bytes)
    ensures Step(StoreAfter(init, run), e.bio, e.mem)
         == Outcome(StoreAfter(init, run), Scatter(e.mem, e.bio.vecs, Once, bytes), 0)
  {
    PlainIsGood(e);
    bytes := ReadReturnsLastWritten(init, run, e);
    PageStartsScatter(e.mem, e.bio.vecs, bytes);
    forall k | 0 <= k < |bytes|
      ensures bytes[k] == LastWritten(init, run, Once, Start(e.bio) + k)
    {
      LastWrittenAsAsked(init, run, Start(e.bio) + k);
    }
  }
}
