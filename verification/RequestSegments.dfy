/** Walking the segments of a block request (blkedv.h.c): the bios of the request
    are a linked list, each with a table of segments of which the first `idx`
    have been done with. */
module RequestSegments {
  import opened BlockLayer

  class BioLink {
    const vecs: seq<Vec>
    const idx: nat
    var next: BioLink?

    constructor (vecs: seq<Vec>, idx: nat, next: BioLink?)
      ensures this.vecs == vecs && this.idx == idx && this.next == next
    {
      this.vecs, this.idx, this.next := vecs, idx, next;
    }

    /** The segments still to be walked. */
    function Rest(): seq<Vec> {
      if idx <= |vecs| then vecs[idx..] else []
    }
  }

  /** `bios` is the chain that starts at `first`. */
  ghost predicate IsChain(first: BioLink?, bios: seq<BioLink>)
    reads bios
  {
    if bios == [] then first == null
    else first == bios[0] && IsChain(bios[0].next, bios[1..])
  }

  ghost function AllSegments(bios: seq<BioLink>): seq<Vec> {
    if bios == [] then [] else bios[0].Rest() + AllSegments(bios[1..])
  }

  /** No mark, save at the last place when `end` says so. */
  function Marks(n: nat, end: bool): (m: seq<bool>)
    ensures |m| == n && forall k :: 0 <= k < n ==> (m[k] <==> end && k == n - 1)
  {
    seq(n, k requires 0 <= k < n => end && k == n - 1)
  }

  /** The last bio has a segment to walk. */
  ghost predicate EndsWithSegment(bios: seq<BioLink>) {
    bios != [] && bios[|bios| - 1].Rest() != []
  }

  lemma MarksAppend(n: nat, m: nat, end: bool)
    ensures Marks(n, false) + Marks(m, end) == Marks(n + m, m > 0 && end)
  {
  }

  /** The inner loop, over the segments of one bio, with rq_iter_last evaluated
      at every turn. */
  method ForEachSegmentOf(bio: BioLink) returns (visited: seq<Vec>, last: seq<bool>)
    ensures visited == bio.Rest() == if bio.idx < |bio.vecs| then bio.vecs[bio.idx..] else []
    ensures last == Marks(|visited|, bio.next == null) && |last| == |visited|
    ensures forall k :: 0 <= k < |last| ==> (last[k] <==> k == |visited| - 1 && bio.next == null)
  {
    visited, last := [], [];
    var i := bio.idx;
    while i < |bio.vecs|
      invariant bio.idx <= |bio.vecs| ==> bio.idx <= i <= |bio.vecs| && visited == bio.vecs[bio.idx..i]
      invariant bio.idx > |bio.vecs| ==> visited == []
      invariant |last| == |visited|
      invariant forall k :: 0 <= k < |last| ==> (last[k] <==> bio.next == null && bio.idx + k == |bio.vecs| - 1)
    {
      visited := visited + [bio.vecs[i]];
      last := last + [bio.next == null && i == |bio.vecs| - 1];
      i := i + 1;
    }
  }

  /** The bios left complete what has been visited to the whole request. */
  ghost predicate OnTrack(bios: seq<BioLink>, left: seq<BioLink>, visited: seq<Vec>, last: seq<bool>) {
    && visited + AllSegments(left) == AllSegments(bios)
    && (left != [] ==> EndsWithSegment(left) == EndsWithSegment(bios))
    && last == Marks(|visited|, left == [] && EndsWithSegment(bios))
  }

  lemma Associative(a: seq<Vec>, b: seq<Vec>, c: seq<Vec>)
    ensures a + (b + c) == a + b + c
  {
  }

  lemma EndOfTail(bios: seq<BioLink>)
    requires bios != [] && bios[1..] != []
    ensures EndsWithSegment(bios[1..]) == EndsWithSegment(bios)
  {
    assert bios[1..][|bios| - 2] == bios[|bios| - 1];
  }

  lemma OnTrackTurn(bios: seq<BioLink>, left: seq<BioLink>, visited: seq<Vec>, last: seq<bool>, v: seq<Vec>, l: seq<bool>)
    requires left != [] && OnTrack(bios, left, visited, last)
    requires v == left[0].Rest() && l == Marks(|v|, left[1..] == [])
    ensures OnTrack(bios, left[1..], visited + v, last + l)
  {
    var rest := left[1..];
    Associative(visited, v, AllSegments(rest));
    assert AllSegments(left) == v + AllSegments(rest);
    MarksAppend(|visited|, |v|, rest == []);
    if rest != [] {
      EndOfTail(left);
    } else {
      assert EndsWithSegment(left) <==> |v| > 0;
    }
  }

  /** rq_for_each_segment over the whole request: the visited segments, and for
      each whether rq_iter_last takes it for the last one. The last segment of
      the request counts as last, and no other one does, provided the last bio
      has a segment to walk; otherwise none does. */
  method ForEachSegment(first: BioLink?, ghost bios: seq<BioLink>) returns (visited: seq<Vec>, last: seq<bool>)
    requires IsChain(first, bios)
    ensures visited == AllSegments(bios)
    ensures last == Marks(|visited|, EndsWithSegment(bios)) && |last| == |visited|
    ensures forall k :: 0 <= k < |last| ==>
              (last[k] <==> k == |visited| - 1 && bios[|bios| - 1].idx < |bios[|bios| - 1].vecs|)
  {
    visited, last := [], [];
    ghost var left := bios;
    var bio := first;
    while bio != null
      invariant IsChain(bio, left) && OnTrack(bios, left, visited, last)
      decreases |left|
    {
      var v, l := ForEachSegmentOf(bio);
      OnTrackTurn(bios, left, visited, last, v, l);
      visited, last := visited + v, last + l;
      left := left[1..];
      bio := bio.next;
    }
  }

  /** How many segments the first `b` bios have left to walk. */
  function Skipped(bios: seq<BioLink>, b: nat): nat
    requires b <= |bios|
  {
    if b == 0 then 0
    else Skipped(bios, b - 1) + if bios[b - 1].idx < |bios[b - 1].vecs| then |bios[b - 1].vecs| - bios[b - 1].idx else 0
  }

  lemma {:induction false} SkippedTail(bios: seq<BioLink>, b: nat)
    requires 0 < b <= |bios|
    ensures Skipped(bios, b) == |bios[0].Rest()| + Skipped(bios[1..], b - 1)
  {
    if b > 1 {
      SkippedTail(bios, b - 1);
    }
  }

  /** Segment `i` of bio `b` is walked if its bio has not done with it, and just
      after those before it in its bio and those of the bios before. */
  lemma {:induction false} SegmentsInOrder(bios: seq<BioLink>, b: nat, i: nat)
    requires b < |bios| && bios[b].idx <= i < |bios[b].vecs|
    ensures var all, at := AllSegments(bios), Skipped(bios, b) + i - bios[b].idx;
            at < |all| == Skipped(bios, |bios|) && all[at] == bios[b].vecs[i]
    decreases b
  {
    CountSegments(bios);
    if b > 0 {
      SkippedTail(bios, b);
      SegmentsInOrder(bios[1..], b - 1, i);
    } else {
      SkippedTail(bios, |bios|);
      CountSegments(bios[1..]);
    }
  }

  /** No segment is walked besides those. */
  lemma {:induction false} CountSegments(bios: seq<BioLink>)
    ensures |AllSegments(bios)| == Skipped(bios, |bios|)
  {
    if bios != [] {
      SkippedTail(bios, |bios|);
      CountSegments(bios[1..]);
    }
  }

  /** The segment that counts as last is the last one of the last bio. */
  lemma {:induction false} LastSegment(bios: seq<BioLink>)
    requires EndsWithSegment(bios)
    ensures var all, rest := AllSegments(bios), bios[|bios| - 1].Rest();
            all != [] && all[|all| - 1] == rest[|rest| - 1]
  {
    if |bios| > 1 {
      assert bios[1..][|bios| - 2] == bios[|bios| - 1];
      LastSegment(bios[1..]);
    }
  }
}
