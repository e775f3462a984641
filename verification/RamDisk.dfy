/** The RAM block device of blk_test_error.c.

    A request (a `bio`) names a start sector, a direction and a list of page
    segments; the driver copies between the segments and one flat store. Pages
    lie in one linear kernel memory, and mapping a page gives its address there,
    so a copy that leaves its page runs on into the page behind it.

    The driver adds a segment's offset to the page address twice, once when
    the page is mapped and once in the copy. The model keeps that: positions are
    computed under `Twice` for what the driver does and under `Once` for what
    the request asks for. */
module RamDisk {
  import opened BlockLayer

  type Byte = bv8

  const MYDRV_MAX_LENGTH: nat := 8 * 1024 * 1024
  const MYDRV_TOTAL_BLK: nat := MYDRV_MAX_LENGTH / 512
  const EIO: int := 5
  const READ: nat := 0
  const READA: nat := 2

  /** A request; `size` is its length in bytes. */
  datatype Bio = Bio(sector: nat, size: nat, rw: nat, discard: bool, vecs: seq<Vec>)

  /** How often the segment offset is added to the page address. */
  datatype Offset = Once | Twice

  function At(v: Vec, o: Offset): (a: nat)
    ensures o == Once ==> a == v.page + v.offset
    ensures o == Twice ==> a == v.page + 2 * v.offset
  {
    if o == Twice then v.page + v.offset + v.offset else v.page + v.offset
  }

  /** Where a sector starts in the store; 512 is MYDRV_BLK_SIZE. */
  function Addr(sector: nat): nat { sector * 512 }

  function Total(vs: seq<Vec>): nat {
    if vs == [] then 0 else vs[0].len + Total(vs[1..])
  }

  // ---- Stretches of memory; an empty one may stand anywhere ----

  predicate Inside(n: nat, at: nat, len: nat) { len == 0 || at + len <= n }

  function Slice(s: seq<Byte>, at: nat, len: nat): (r: seq<Byte>)
    requires Inside(|s|, at, len)
    ensures |r| == len
  {
    if len == 0 then [] else s[at..at + len]
  }

  function Splice(s: seq<Byte>, at: nat, bytes: seq<Byte>): (r: seq<Byte>)
    requires at + |bytes| <= |s|
    ensures |r| == |s|
  {
    s[..at] + bytes + s[at + |bytes|..]
  }

  function Patch(s: seq<Byte>, at: nat, bytes: seq<Byte>): (r: seq<Byte>)
    requires Inside(|s|, at, |bytes|)
    ensures |r| == |s|
  {
    if bytes == [] then s else Splice(s, at, bytes)
  }

  /** The segments lie in a memory of `n` bytes. */
  ghost predicate Mapped(n: nat, vs: seq<Vec>, o: Offset) {
    forall i :: 0 <= i < |vs| ==> Inside(n, At(vs[i], o), vs[i].len)
  }

  // ---- The flat view: one contiguous byte string ----

  /** The segments' bytes, one after the other. */
  function Gather(mem: seq<Byte>, vs: seq<Vec>, o: Offset): (r: seq<Byte>)
    requires Mapped(|mem|, vs, o)
    ensures |r| == Total(vs)
  {
    if vs == [] then [] else Slice(mem, At(vs[0], o), vs[0].len) + Gather(mem, vs[1..], o)
  }

  /** `mem` with a byte string dealt out to the segments in order. */
  function Scatter(mem: seq<Byte>, vs: seq<Vec>, o: Offset, bytes: seq<Byte>): (r: seq<Byte>)
    requires Mapped(|mem|, vs, o) && |bytes| == Total(vs)
    ensures |r| == |mem|
    decreases |vs|
  {
    if vs == [] then mem else
      Scatter(Patch(mem, At(vs[0], o), bytes[..vs[0].len]), vs[1..], o, bytes[vs[0].len..])
  }

  // ---- The driver's view: a sector cursor that moves by len >> 9 ----

  /** The request lies inside a store of `n` bytes. */
  ghost predicate Fits(n: nat, sector: nat, vs: seq<Vec>) {
    Addr(sector) + Total(vs) <= n
  }

  /** The cursor after a segment. */
  function NextSector(sector: nat, v: Vec): nat { sector + v.len / 512 }

  /** What the cursor points at, for the length of a segment. */
  function Piece(store: seq<Byte>, sector: nat, v: Vec): (r: seq<Byte>)
    requires Addr(sector) + v.len <= |store|
    ensures |r| == v.len
  {
    store[Addr(sector)..Addr(sector) + v.len]
  }

  /** The bytes the segments of a read receive, in segment order. */
  function Delivered(store: seq<Byte>, sector: nat, vs: seq<Vec>): (r: seq<Byte>)
    requires Fits(|store|, sector, vs)
    ensures |r| == Total(vs)
    decreases |vs|
  {
    if vs == [] then [] else
      Piece(store, sector, vs[0]) + Delivered(store, NextSector(sector, vs[0]), vs[1..])
  }

  /** The store after the segments of a write have been copied into it. */
  function Written(store: seq<Byte>, sector: nat, vs: seq<Vec>, mem: seq<Byte>): (r: seq<Byte>)
    requires Fits(|store|, sector, vs) && Mapped(|mem|, vs, Twice)
    ensures |r| == |store|
    decreases |vs|
  {
    if vs == [] then store else
      Written(Splice(store, Addr(sector), Slice(mem, At(vs[0], Twice), vs[0].len)),
              NextSector(sector, vs[0]), vs[1..], mem)
  }

  /** Memory after the segments of a read have received their bytes. */
  function Received(mem: seq<Byte>, store: seq<Byte>, sector: nat, vs: seq<Vec>): (r: seq<Byte>)
    requires Fits(|store|, sector, vs) && Mapped(|mem|, vs, Twice)
    ensures |r| == |mem|
  {
    Scatter(mem, vs, Twice, Delivered(store, sector, vs))
  }

  /** What bio_end_sector computes, in the 64 bits of sector_t. */
  function EndSector(bio: Bio): nat {
    (bio.sector + bio.size / 512) % SECTOR_T_LIMIT
  }

  /** The checks let the request through to the segment loop. */
  predicate Accepted(bio: Bio) {
    EndSector(bio) <= MYDRV_TOTAL_BLK && !bio.discard && bio.vecs != []
  }

  /** What the block layer guarantees of a request: whole sectors, an end that
      a sector_t can hold, and, unless it discards, segments that make up its
      size and memory behind every byte it names. */
  ghost predicate WellFormed(bio: Bio, n: nat) {
    && bio.size % 512 == 0
    && bio.sector + bio.size / 512 < SECTOR_T_LIMIT
    && (!bio.discard ==> bio.size == Total(bio.vecs) && Mapped(n, bio.vecs, Once))
  }

  /** What the driver needs beyond that: there is memory where its doubled
      offsets point. Only a copy past the end of all memory is excluded. */
  ghost predicate Addressable(bio: Bio, n: nat) {
    Accepted(bio) ==> Mapped(n, bio.vecs, Twice)
  }

  predicate IsRead(rw: nat) { rw == READ || rw == READA }

  datatype Outcome = Outcome(store: seq<Byte>, mem: seq<Byte>, err: int)

  /** One request, from store and memory before to those after. */
  function Step(store: seq<Byte>, bio: Bio, mem: seq<Byte>): (o: Outcome)
    requires |store| == MYDRV_MAX_LENGTH && WellFormed(bio, |mem|) && Addressable(bio, |mem|)
    ensures |o.store| == |store| && |o.mem| == |mem|
  {
    if EndSector(bio) > MYDRV_TOTAL_BLK then Outcome(store, mem, -EIO)
    else if bio.discard then Outcome(store, mem, 0)
    else if bio.vecs == [] then Outcome(store, mem, -EIO)
    else if IsRead(bio.rw) then
      Outcome(store, Received(mem, store, bio.sector, bio.vecs), 0)
    else
      Outcome(Written(store, bio.sector, bio.vecs, mem), mem, 0)
  }

  // ---- The segment loop, turn by turn ----

  /** Store, memory and cursor part-way through a request. */
  datatype Progress = Progress(store: seq<Byte>, mem: seq<Byte>, sector: nat)

  ghost predicate CanMove(v: Vec, s: Progress) {
    Addr(s.sector) + v.len <= |s.store| && Inside(|s.mem|, At(v, Twice), v.len)
  }

  function Moved(rw: nat, v: Vec, s: Progress): Progress
    requires CanMove(v, s)
  {
    var d := Addr(s.sector);
    if rw == READ then
      Progress(s.store, Patch(s.mem, At(v, Twice), Piece(s.store, s.sector, v)), NextSector(s.sector, v))
    else
      Progress(Splice(s.store, d, Slice(s.mem, At(v, Twice), v.len)), s.mem, NextSector(s.sector, v))
  }

  /** `t` lists the states before, between and after the turns of the loop. */
  ghost predicate IsTrace(t: seq<Progress>, rw: nat, vs: seq<Vec>) {
    && |t| == |vs| + 1
    && forall i :: 0 <= i < |vs| ==> CanMove(vs[i], t[i]) && t[i + 1] == Moved(rw, vs[i], t[i])
  }

  lemma MappedTail(n: nat, vs: seq<Vec>, o: Offset)
    requires vs != [] && Mapped(n, vs, o)
    ensures Inside(n, At(vs[0], o), vs[0].len) && Mapped(n, vs[1..], o)
  {
    assert forall i :: 0 <= i < |vs[1..]| ==> vs[1..][i] == vs[i + 1];
  }

  lemma ReceivedTurn(mem: seq<Byte>, store: seq<Byte>, sector: nat, vs: seq<Vec>)
    requires vs != [] && Fits(|store|, sector, vs) && Mapped(|mem|, vs, Twice)
    ensures var v := vs[0];
            var mem' := Patch(mem, At(v, Twice), Piece(store, sector, v));
            && Mapped(|mem|, vs[1..], Twice) && Fits(|store|, NextSector(sector, v), vs[1..])
            && Received(mem, store, sector, vs) == Received(mem', store, NextSector(sector, v), vs[1..])
  {
    var v, bytes := vs[0], Delivered(store, sector, vs);
    MappedTail(|mem|, vs, Twice);
    assert bytes[..v.len] == Piece(store, sector, v);
    assert bytes[v.len..] == Delivered(store, NextSector(sector, v), vs[1..]);
  }

  lemma WrittenTurn(store: seq<Byte>, sector: nat, vs: seq<Vec>, mem: seq<Byte>)
    requires vs != [] && Fits(|store|, sector, vs) && Mapped(|mem|, vs, Twice)
    ensures var v := vs[0];
            var store' := Splice(store, Addr(sector), Slice(mem, At(v, Twice), v.len));
            && Mapped(|mem|, vs[1..], Twice) && Fits(|store'|, NextSector(sector, v), vs[1..])
            && Written(store, sector, vs, mem) == Written(store', NextSector(sector, v), vs[1..], mem)
  {
    MappedTail(|mem|, vs, Twice);
  }

  /** The loop can run to its end: no copy leaves the store or the memory. */
  lemma {:induction false} TraceExists(rw: nat, vs: seq<Vec>, s: Progress) returns (t: seq<Progress>)
    requires Fits(|s.store|, s.sector, vs) && Mapped(|s.mem|, vs, Twice)
    ensures IsTrace(t, rw, vs) && t[0] == s
    decreases |vs|
  {
    if vs == [] {
      t := [s];
    } else {
      MappedTail(|s.mem|, vs, Twice);
      t := TraceExists(rw, vs[1..], Moved(rw, vs[0], s));
      t := [s] + t;
    }
  }

  lemma TraceTail(t: seq<Progress>, rw: nat, vs: seq<Vec>)
    requires vs != [] && IsTrace(t, rw, vs)
    ensures IsTrace(t[1..], rw, vs[1..])
    ensures t[1..][0] == Moved(rw, vs[0], t[0]) && t[1..][|vs[1..]|] == t[|vs|]
  {
    forall i | 0 <= i < |vs[1..]|
      ensures CanMove(vs[1..][i], t[1..][i]) && t[1..][i + 1] == Moved(rw, vs[1..][i], t[1..][i])
    {
      assert vs[1..][i] == vs[i + 1] && t[1..][i] == t[i + 1];
    }
  }

  /** A read ends with the delivered bytes in memory. */
  lemma {:induction false} ReadTraceEnds(t: seq<Progress>, vs: seq<Vec>)
    requires IsTrace(t, READ, vs) && Fits(|t[0].store|, t[0].sector, vs) && Mapped(|t[0].mem|, vs, Twice)
    ensures t[|vs|].store == t[0].store
    ensures t[|vs|].mem == Received(t[0].mem, t[0].store, t[0].sector, vs)
    decreases |vs|
  {
    if vs != [] {
      var s, s' := t[0], t[1];
      TraceTail(t, READ, vs);
      ReadMove(vs, s, s');
      ReadTraceEnds(t[1..], vs[1..]);
    }
  }

  lemma ReadMove(vs: seq<Vec>, s: Progress, s': Progress)
    requires vs != [] && Fits(|s.store|, s.sector, vs) && Mapped(|s.mem|, vs, Twice)
    requires CanMove(vs[0], s) && s' == Moved(READ, vs[0], s)
    ensures s'.store == s.store && |s'.mem| == |s.mem|
    ensures Fits(|s.store|, s'.sector, vs[1..]) && Mapped(|s.mem|, vs[1..], Twice)
    ensures Received(s.mem, s.store, s.sector, vs) == Received(s'.mem, s'.store, s'.sector, vs[1..])
  {
    ReceivedTurn(s.mem, s.store, s.sector, vs);
  }

  /** A write ends with the gathered bytes in the store. */
  lemma {:induction false} WriteTraceEnds(t: seq<Progress>, rw: nat, vs: seq<Vec>)
    requires rw != READ
    requires IsTrace(t, rw, vs) && Fits(|t[0].store|, t[0].sector, vs) && Mapped(|t[0].mem|, vs, Twice)
    ensures t[|vs|].mem == t[0].mem
    ensures t[|vs|].store == Written(t[0].store, t[0].sector, vs, t[0].mem)
    decreases |vs|
  {
    if vs != [] {
      TraceTail(t, rw, vs);
      WrittenTurn(t[0].store, t[0].sector, vs, t[0].mem);
      WriteTraceEnds(t[1..], rw, vs[1..]);
    }
  }

  // ---- The driver itself ----

  /** memcpy(dst + at, src + from, len) between distinct blocks. */
  method Copy(dst: array<Byte>, at: nat, src: array<Byte>, from: nat, len: nat)
    requires dst != src && Inside(dst.Length, at, len) && Inside(src.Length, from, len)
    modifies dst
    ensures dst[..] == Patch(old(dst[..]), at, Slice(src[..], from, len))
  {
    if len != 0 {
      forall k | 0 <= k < len { dst[at + k] := src[from + k]; }
      assert dst[..] == Splice(old(dst[..]), at, src[..][from..from + len]);
    }
  }

  lemma EmptySplice(s: seq<Byte>, at: nat)
    requires at <= |s|
    ensures Splice(s, at, []) == s
  {
  }

  /** One turn as memcpy sees it: both sides as stretches of memory. */
  lemma ReadTurnIsCopy(v: Vec, s: Progress)
    requires CanMove(v, s)
    ensures Moved(READ, v, s)
         == Progress(s.store, Patch(s.mem, At(v, Twice), Slice(s.store, Addr(s.sector), v.len)), NextSector(s.sector, v))
  {
    assert v.len == 0 ==> Piece(s.store, s.sector, v) == [];
  }

  lemma WriteTurnIsCopy(rw: nat, v: Vec, s: Progress)
    requires CanMove(v, s) && rw != READ
    ensures Moved(rw, v, s)
         == Progress(Patch(s.store, Addr(s.sector), Slice(s.mem, At(v, Twice), v.len)), s.mem, NextSector(s.sector, v))
  {
    EmptySplice(s.store, Addr(s.sector));
  }

  class Disk {
    const data: array<Byte>

    ghost predicate Valid() { data.Length == MYDRV_MAX_LENGTH }

    constructor ()
      ensures Valid() && fresh(data)
    {
      data := new Byte[MYDRV_MAX_LENGTH];
    }

    ghost function Now(ram: array<Byte>, sector: nat): Progress
      reads data, ram
    {
      Progress(data[..], ram[..], sector)
    }

    /** The body of the segment loop: one copy, memory to store or store to memory. */
    method Transfer(rw: nat, v: Vec, sector: nat, ram: array<Byte>) returns (sector': nat)
      requires data != ram && CanMove(v, Now(ram, sector))
      modifies data, ram
      ensures Now(ram, sector') == Moved(rw, v, old(Now(ram, sector)))
    {
      var d := Addr(sector);
      var mem := v.page + v.offset;
      if rw == READ {
        ReadTurnIsCopy(v, Now(ram, sector));
        Copy(ram, mem + v.offset, data, d, v.len);
      } else {
        WriteTurnIsCopy(rw, v, Now(ram, sector));
        Copy(data, d, ram, mem + v.offset, v.len);
      }
      sector' := sector + v.len / 512;
    }

    /** The segment loop of mydrv_make_request. */
    method CopySegments(rw: nat, first: nat, vs: seq<Vec>, ram: array<Byte>) returns (err: int)
      requires data != ram && Fits(data.Length, first, vs) && Mapped(ram.Length, vs, Twice)
      modifies data, ram
      ensures err == if vs == [] then -EIO else 0
      ensures rw == READ ==> data[..] == old(data[..])
                             && ram[..] == Received(old(ram[..]), old(data[..]), first, vs)
      ensures rw != READ ==> ram[..] == old(ram[..])
                             && data[..] == Written(old(data[..]), first, vs, old(ram[..]))
    {
      ghost var trace := TraceExists(rw, vs, Now(ram, first));
      var sector := first;
      err := -EIO;
      var i := 0;
      while i < |vs|
        invariant 0 <= i <= |vs|
        invariant err == if i == 0 then -EIO else 0
        invariant Now(ram, sector) == trace[i]
      {
        assert CanMove(vs[i], trace[i]);
        sector := Transfer(rw, vs[i], sector, ram);
        err := 0;
        i := i + 1;
      }
      if rw == READ {
        ReadTraceEnds(trace, vs);
      } else {
        WriteTraceEnds(trace, rw, vs);
      }
    }

    /** mydrv_make_request: the returned value is what bio_endio is given. A
        request past the end of the store, or without segments, fails; a failed
        request and a discard change nothing, a read leaves the store alone and
        a write the memory. */
    method MakeRequest(bio: Bio, ram: array<Byte>) returns (err: int)
      requires Valid() && data != ram
      requires WellFormed(bio, ram.Length) && Addressable(bio, ram.Length)
      modifies data, ram
      ensures Outcome(data[..], ram[..], err) == Step(old(data[..]), bio, old(ram[..]))
      ensures err == if bio.sector * 512 + bio.size <= 8 * 1024 * 1024 && (bio.discard || bio.vecs != []) then 0 else -EIO
      ensures err != 0 || bio.discard ==> data[..] == old(data[..]) && ram[..] == old(ram[..])
      ensures if bio.rw == READ || bio.rw == READA then data[..] == old(data[..]) else ram[..] == old(ram[..])
    {
      err := -EIO;
      if EndSector(bio) > MYDRV_TOTAL_BLK {
        return;
      }
      if bio.discard {
        err := 0;
        return;
      }
      var rw := bio.rw;
      if rw == READA {
        rw := READ;
      }
      err := CopySegments(rw, bio.sector, bio.vecs, ram);
    }
  }
}
