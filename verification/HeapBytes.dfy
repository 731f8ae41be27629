/** How a block list lies in the bytes of the heap, and what the allocator's header
    stores, in the order the code makes them, do to that representation. */
module HeapBytes {
  import opened Memory
  import opened BlockList
  import opened HeapRuns

  // ---------------------------------------------------------------- headers

  /** block_t: size at 0, used at 4, next at 8. */
  datatype Header = Header(size: uint32, used: byte, next: uint32)

  function HeaderOf(m: seq<byte>, off: nat): (h: Header)
    requires off + HEADER <= |m|
  {
    Header(LoadWord(m, off), m[off + 4], LoadWord(m, off + 8))
  }

  lemma HeaderFrame(m: seq<byte>, r: seq<byte>, lo: nat, hi: nat, off: nat)
    requires SameOutside(m, r, lo, hi)
    requires off + HEADER <= |m|
    requires off + HEADER <= lo || hi <= off
    ensures HeaderOf(r, off) == HeaderOf(m, off)
  {
    LoadFrame(m, r, lo, hi, off);
    LoadFrame(m, r, lo, hi, off + 8);
  }

  // ---------------------------------------------------------------- representation

  /** Address of block i, or null past the end. */
  function PtrAt(base: nat, bs: seq<Block>, i: nat): (p: nat) {
    if i < |bs| then base + bs[i].off else 0
  }

  ghost predicate HeaderAt(m: seq<byte>, base: nat, bs: seq<Block>, i: nat)
    requires i < |bs|
  {
    && bs[i].off + HEADER <= |m|
    && HeaderOf(m, bs[i].off).size == bs[i].size
    && HeaderOf(m, bs[i].off).used == (if bs[i].used then 1 else 0)
    && HeaderOf(m, bs[i].off).next == PtrAt(base, bs, i + 1)
  }

  /** Following next from the first block visits exactly bs. */
  ghost predicate Represents(m: seq<byte>, base: nat, bs: seq<Block>) {
    forall i :: 0 <= i < |bs| ==> HeaderAt(m, base, bs, i)
  }

  /** The heap bytes hold the list bs, which tiles the capacity. */
  ghost predicate Holds(m: seq<byte>, base: nat, capacity: nat, bs: seq<Block>) {
    && 0 < base && capacity <= |m| && base + |m| <= TWO32
    && WellFormed(bs, capacity)
    && Represents(m, base, bs)
  }

  lemma HeaderMoved(m: seq<byte>, r: seq<byte>, base: nat, bs: seq<Block>, i: nat, cs: seq<Block>, j: nat,
                    lo: nat, hi: nat)
    requires i < |bs| && j < |cs| && bs[i] == cs[j]
    requires PtrAt(base, bs, i + 1) == PtrAt(base, cs, j + 1)
    requires HeaderAt(m, base, bs, i)
    requires SameOutside(m, r, lo, hi)
    requires bs[i].off + HEADER <= lo || hi <= bs[i].off
    ensures HeaderAt(r, base, cs, j)
  {
    HeaderFrame(m, r, lo, hi, bs[i].off);
  }

  /** If only bytes of bs[lo..hi] changed and the new blocks' headers are right, so is the whole list. */
  lemma SpliceRepresents(m: seq<byte>, r: seq<byte>, base: nat, capacity: nat, bs: seq<Block>,
                         lo: nat, hi: nat, mid: seq<Block>)
    requires WellFormed(bs, capacity) && Represents(m, base, bs)
    requires lo < hi <= |bs| && |mid| > 0 && mid[0].off == bs[lo].off
    requires SameOutside(m, r, bs[lo].off, bs[hi - 1].End())
    requires forall k :: lo <= k < lo + |mid| ==> HeaderAt(r, base, Splice(bs, lo, hi, mid), k)
    ensures Represents(r, base, Splice(bs, lo, hi, mid))
  {
    var cs := Splice(bs, lo, hi, mid);
    forall j | 0 <= j < |cs| ensures HeaderAt(r, base, cs, j) {
      if j < lo {
        Ordered(bs, 0, capacity, j, lo);
        assert HeaderAt(m, base, bs, j);
        HeaderMoved(m, r, base, bs, j, cs, j, bs[lo].off, bs[hi - 1].End());
      } else if lo + |mid| <= j {
        var i := j - lo - |mid| + hi;
        Ordered(bs, 0, capacity, hi - 1, i);
        assert HeaderAt(m, base, bs, i);
        HeaderMoved(m, r, base, bs, i, cs, j, bs[lo].off, bs[hi - 1].End());
      }
    }
  }

  /** Blocks outside bs[lo..hi] keep their bytes. */
  lemma PayloadFrame(m: seq<byte>, r: seq<byte>, capacity: nat, bs: seq<Block>, lo: nat, hi: nat, k: nat)
    requires WellFormed(bs, capacity) && capacity <= |m|
    requires lo < hi <= |bs| && k < |bs| && !(lo <= k < hi)
    requires SameOutside(m, r, bs[lo].off, bs[hi - 1].End())
    ensures bs[k].End() <= capacity && SameInside(m, r, bs[k].Payload(), bs[k].End())
  {
    Inside(bs, 0, capacity, k);
    if k < lo { Ordered(bs, 0, capacity, k, lo); } else { Ordered(bs, 0, capacity, hi - 1, k); }
  }

  /** One header in place of bs[lo..hi]. */
  lemma FuseRepresents(m: seq<byte>, r: seq<byte>, base: nat, capacity: nat, bs: seq<Block>,
                       lo: nat, hi: nat, used: bool)
    requires Holds(m, base, capacity, bs)
    requires lo < hi <= |bs|
    requires SameOutside(m, r, bs[lo].off, bs[hi - 1].End())
    requires bs[lo].off + HEADER <= |r|
    requires Room(bs, lo, hi) < TWO32 && PtrAt(base, bs, hi) < TWO32
    requires HeaderOf(r, bs[lo].off) == Header(Room(bs, lo, hi), if used then 1 else 0, PtrAt(base, bs, hi))
    ensures Holds(r, base, capacity, Fuse(bs, lo, hi, used))
  {
    var mid := [Block(bs[lo].off, Room(bs, lo, hi), used)];
    var cs := Splice(bs, lo, hi, mid);
    assert cs[lo] == mid[0] && (hi < |bs| ==> cs[lo + 1] == bs[hi]);
    SpliceRepresents(m, r, base, capacity, bs, lo, hi, mid);
    FuseWellFormed(bs, capacity, lo, hi, used);
  }

  /** Two headers in place of bs[i..hi]. */
  lemma CutRepresents(m: seq<byte>, r: seq<byte>, base: nat, capacity: nat, bs: seq<Block>,
                      i: nat, hi: nat, request: nat)
    requires Holds(m, base, capacity, bs)
    requires i < hi <= |bs|
    requires request % 8 == 0 && request + HEADER <= Room(bs, i, hi) < TWO32
    requires SameOutside(m, r, bs[i].off, bs[hi - 1].End())
    requires var split := bs[i].off + HEADER + request;
      && split + HEADER <= |r| && PtrAt(base, bs, hi) < TWO32
      && HeaderOf(r, bs[i].off) == Header(request, 1, base + split)
      && HeaderOf(r, split) == Header(Room(bs, i, hi) - request - HEADER, 0, PtrAt(base, bs, hi))
    ensures Represents(r, base, Cut(bs, i, hi, request))
  {
    var rest := Block(bs[i].off + HEADER + request, Room(bs, i, hi) - request - HEADER, false);
    var mid := [Block(bs[i].off, request, true), rest];
    var cs := Splice(bs, i, hi, mid);
    assert cs[i] == mid[0] && cs[i + 1] == rest && (hi < |bs| ==> cs[i + 2] == bs[hi]);
    SpliceRepresents(m, r, base, capacity, bs, i, hi, mid);
  }

  // ---------------------------------------------------------------- header stores in source order

  /** Bounds of a stretch of blocks that the proofs below keep needing. */
  lemma Bounds(m: seq<byte>, base: nat, capacity: nat, bs: seq<Block>, lo: nat, hi: nat)
    requires Holds(m, base, capacity, bs)
    requires lo < hi <= |bs|
    ensures bs[lo].off + HEADER + Room(bs, lo, hi) == bs[hi - 1].End() <= capacity <= |m|
    ensures Room(bs, lo, hi) < TWO32 && PtrAt(base, bs, hi) < TWO32
    ensures PtrAt(base, bs, hi) == 0 <==> hi == |bs|
    ensures hi < |bs| ==> bs[hi].off == bs[hi - 1].End()
  {
    RoomSpans(bs, lo, hi, capacity);
    Inside(bs, 0, capacity, hi - 1);
    if hi < |bs| {
      Inside(bs, 0, capacity, hi);
      assert Adjacent(bs, hi - 1);
    }
  }

  // One field of the header at off stored, nothing else changed.

  ghost predicate SizeSet(m: seq<byte>, r: seq<byte>, off: nat, size: int) {
    off + HEADER <= |m| && SameOutside(m, r, off, off + 4) && LoadWord(r, off) == size
  }

  ghost predicate UsedSet(m: seq<byte>, r: seq<byte>, off: nat, used: byte) {
    off + HEADER <= |m| && SameOutside(m, r, off + 4, off + 5) && r[off + 4] == used
  }

  ghost predicate NextSet(m: seq<byte>, r: seq<byte>, off: nat, next: int) {
    off + HEADER <= |m| && SameOutside(m, r, off + 8, off + 12) && LoadWord(r, off + 8) == next
  }

  lemma SizeSetHeader(m: seq<byte>, r: seq<byte>, off: nat, size: uint32)
    requires SizeSet(m, r, off, size)
    ensures HeaderOf(r, off) == HeaderOf(m, off).(size := size)
  {
    LoadFrame(m, r, off, off + 4, off + 8);
  }

  lemma UsedSetHeader(m: seq<byte>, r: seq<byte>, off: nat, used: byte)
    requires UsedSet(m, r, off, used)
    ensures HeaderOf(r, off) == HeaderOf(m, off).(used := used)
  {
    LoadFrame(m, r, off + 4, off + 5, off);
    LoadFrame(m, r, off + 4, off + 5, off + 8);
  }

  lemma NextSetHeader(m: seq<byte>, r: seq<byte>, off: nat, next: uint32)
    requires NextSet(m, r, off, next)
    ensures HeaderOf(r, off) == HeaderOf(m, off).(next := next)
  {
    LoadFrame(m, r, off + 8, off + 12, off);
  }

  /** block->used = used. */
  lemma MarkHolds(m: seq<byte>, r: seq<byte>, base: nat, capacity: nat, bs: seq<Block>, i: nat, used: bool)
    requires Holds(m, base, capacity, bs) && i < |bs|
    requires UsedSet(m, r, bs[i].off, if used then 1 else 0)
    ensures Holds(r, base, capacity, Fuse(bs, i, i + 1, used))
  {
    Bounds(m, base, capacity, bs, i, i + 1);
    assert HeaderAt(m, base, bs, i);
    UsedSetHeader(m, r, bs[i].off, if used then 1 else 0);
    FuseRepresents(m, r, base, capacity, bs, i, i + 1, used);
  }

  lemma MergeReady(m: seq<byte>, base: nat, capacity: nat, bs: seq<Block>, j: nat)
    requires Holds(m, base, capacity, bs) && j + 1 < |bs|
    ensures bs[j].End() == bs[j + 1].off && bs[j + 1].End() <= |m|
    ensures HeaderAt(m, base, bs, j) && HeaderAt(m, base, bs, j + 1)
    ensures Room(bs, j, j + 2) == bs[j].size + bs[j + 1].size + HEADER < TWO32
  {
    Bounds(m, base, capacity, bs, j, j + 1);
    Bounds(m, base, capacity, bs, j, j + 2);
    assert Room(bs, j, j + 2) == bs[j].size + HEADER + Room(bs, j + 1, j + 2);
  }

  /** b->size += next->size + sizeof(block_t); b->next = next->next. */
  lemma MergeHolds(m: seq<byte>, r: seq<byte>, base: nat, capacity: nat, bs: seq<Block>, j: nat)
    requires Holds(m, base, capacity, bs) && j + 1 < |bs|
    requires bs[j].off + HEADER <= |m| && bs[j + 1].off + HEADER <= |m|
    requires SameOutside(m, r, bs[j].off, bs[j].off + HEADER)
    requires bs[j].size + bs[j + 1].size + HEADER < TWO32
    requires HeaderOf(r, bs[j].off) == Header(bs[j].size + bs[j + 1].size + HEADER, HeaderOf(m, bs[j].off).used,
                                              HeaderOf(m, bs[j + 1].off).next)
    ensures Holds(r, base, capacity, Fuse(bs, j, j + 2, bs[j].used))
  {
    MergeReady(m, base, capacity, bs, j);
    Bounds(m, base, capacity, bs, j, j + 2);
    FuseRepresents(m, r, base, capacity, bs, j, j + 2, bs[j].used);
  }

  /** split->size = size; split->used = 0; split->next = from->next, in that order; m0 and m1 are the
      memories between the stores. */
  ghost predicate NewSplit(m: seq<byte>, m0: seq<byte>, m1: seq<byte>, r: seq<byte>, split: nat, size: int, from: nat) {
    && SizeSet(m, m0, split, size)
    && UsedSet(m0, m1, split, 0)
    && from + HEADER <= |m|
    && NextSet(m1, r, split, HeaderOf(m1, from).next)
  }

  lemma NewSplitFrame(m: seq<byte>, m0: seq<byte>, m1: seq<byte>, r: seq<byte>, split: nat, size: uint32, from: nat)
    requires NewSplit(m, m0, m1, r, split, size, from)
    ensures SameOutside(m, m1, split, split + 5) && SameOutside(m, r, split, split + HEADER)
    ensures HeaderOf(r, split) == Header(size, 0, HeaderOf(m1, from).next)
  {
    SizeSetHeader(m, m0, split, size);
    UsedSetHeader(m0, m1, split, 0);
    NextSetHeader(m1, r, split, HeaderOf(m1, from).next);
  }

  /** What a split leaves: two headers, and every other byte as it was. */
  ghost predicate SplitDone(m: seq<byte>, r: seq<byte>, base: nat, b: nat, request: nat, rest: Header) {
    var split := b + HEADER + request;
    && split + HEADER <= |m| && base + |m| <= TWO32
    && SameOutside(m, r, b, split + HEADER)
    && SameInside(m, r, b + HEADER, split)
    && HeaderOf(r, b) == Header(request, 1, base + split)
    && HeaderOf(r, split) == rest
  }

  /** b->size = request; b->next = split, after the split header was written; kmalloc has also set
      b->used, krealloc found it set. */
  lemma RelinkDone(m: seq<byte>, m1: seq<byte>, m2: seq<byte>, m3: seq<byte>, r: seq<byte>,
                   base: nat, b: nat, request: uint32, rest: Header)
    requires b + HEADER + request + HEADER <= |m| && base + |m| <= TWO32
    requires SameOutside(m, m1, b + HEADER + request, b + HEADER + request + HEADER)
    requires HeaderOf(m1, b + HEADER + request) == rest
    requires SizeSet(m1, m2, b, request)
    requires UsedSet(m2, m3, b, 1)
    requires NextSet(m3, r, b, base + b + HEADER + request)
    ensures SplitDone(m, r, base, b, request, rest)
  {
    var split := b + HEADER + request;
    SizeSetHeader(m1, m2, b, request);
    UsedSetHeader(m2, m3, b, 1);
    NextSetHeader(m3, r, b, base + split);
    assert SameOutside(m1, r, b, b + HEADER);
    HeaderFrame(m1, r, b, b + HEADER, split);
  }

  /** A split over bs[i..hi] is represented, provided its second header got the right link. */
  lemma SplitHolds(m: seq<byte>, r: seq<byte>, base: nat, capacity: nat, bs: seq<Block>, i: nat, hi: nat, request: nat)
    requires Holds(m, base, capacity, bs) && i < hi <= |bs|
    requires request % 8 == 0 && request + HEADER <= Room(bs, i, hi) < TWO32 && PtrAt(base, bs, hi) < TWO32
    requires SplitDone(m, r, base, bs[i].off, request,
                       Header(Room(bs, i, hi) - request - HEADER, 0, PtrAt(base, bs, hi)))
    ensures SameOutside(m, r, bs[i].off, bs[hi - 1].End())
    ensures Holds(r, base, capacity, Cut(bs, i, hi, request))
  {
    Bounds(m, base, capacity, bs, i, hi);
    CutRepresents(m, r, base, capacity, bs, i, hi, request);
    CutWellFormed(bs, capacity, i, hi, request);
  }

  // ---------------------------------------------------------------- growth in place

  /** The link that the new header receives when krealloc splits the absorbed block: next->next as it
      reads after the header's first two stores, which overlap it when the growth is by 4 or 8 bytes. */
  function LinkRead(link: uint32, growth: nat, size: uint32): (v: uint32) {
    if growth == 4 then link - link % 0x100
    else if growth == 8 then size
    else link
  }

  lemma NewSplitLink(m: seq<byte>, m0: seq<byte>, m1: seq<byte>, r: seq<byte>, split: nat, size: uint32, next: nat)
    requires NewSplit(m, m0, m1, r, split, size, next)
    requires split == next + 4 || split == next + 8 || next + HEADER <= split
    ensures HeaderOf(m1, next).next == LinkRead(HeaderOf(m, next).next, split - next, size)
  {
    if split - next == 4 {
      assert m1[next + 8] == 0 && m1[next + 9] == m[next + 9];
      assert m1[next + 10] == m[next + 10] && m1[next + 11] == m[next + 11];
      LowByte(m, next + 8);
    } else if split - next == 8 {
      LoadFrame(m0, m1, split + 4, split + 5, split);
    } else {
      NewSplitFrame(m, m0, m1, r, split, size, next);
      HeaderFrame(m, m1, split, split + 5, next);
    }
  }

  /** The bytes after a growth of block i that absorbs the next block and splits the sum. */
  ghost predicate GrowDone(m: seq<byte>, r: seq<byte>, base: nat, bs: seq<Block>, i: nat, request: nat)
    requires i < |bs|
  {
    && PathOf(bs, i, request).GrowSplit?
    && Room(bs, i, i + 2) < TWO32
    && bs[i + 1].off + HEADER <= |m|
    && var size := Room(bs, i, i + 2) - request - HEADER;
       SplitDone(m, r, base, bs[i].off, request,
                 Header(size, 0, LinkRead(HeaderOf(m, bs[i + 1].off).next, request - bs[i].size, size)))
  }

  lemma GrowthGap(bs: seq<Block>, capacity: nat, i: nat, request: nat)
    requires WellFormed(bs, capacity) && i + 1 < |bs|
    requires request % 8 == 0 && request > bs[i].size
    ensures request - bs[i].size == 4 || request - bs[i].size == 8 || request - bs[i].size >= HEADER
  {
    assert request == 4 * (2 * (request / 8)) && bs[i].size == 4 * (bs[i].size / 4);
  }

  lemma GrowthHolds(m: seq<byte>, r: seq<byte>, base: nat, capacity: nat, bs: seq<Block>, i: nat, request: nat)
    requires Holds(m, base, capacity, bs) && i < |bs| && request % 8 == 0
    requires GrowDone(m, r, base, bs, i, request)
    requires !Clobbers(bs, i, request, base)
    ensures SameOutside(m, r, bs[i].off, bs[i + 1].End())
    ensures Holds(r, base, capacity, Cut(bs, i, i + 2, request))
  {
    Bounds(m, base, capacity, bs, i, i + 2);
    assert HeaderAt(m, base, bs, i + 1);
    GrowthGap(bs, capacity, i, request);
    SplitHolds(m, r, base, capacity, bs, i, i + 2, request);
  }

  /** Whatever list the damaged bytes might hold, it starts like the old one. */
  lemma {:induction false} PrefixForced(m: seq<byte>, r: seq<byte>, base: nat, capacity: nat, bs: seq<Block>, i: nat,
                                        request: nat, cs: seq<Block>, k: nat)
    requires Holds(m, base, capacity, bs) && i < |bs|
    requires GrowDone(m, r, base, bs, i, request)
    requires Holds(r, base, capacity, cs)
    requires k <= i
    ensures k < |cs| && cs[k].off == bs[k].off
  {
    if k > 0 {
      PrefixForced(m, r, base, capacity, bs, i, request, cs, k - 1);
      Ordered(bs, 0, capacity, k - 1, i);
      assert HeaderAt(m, base, bs, k - 1) && HeaderAt(r, base, cs, k - 1);
      HeaderFrame(m, r, bs[i].off, bs[i].off + HEADER + request + HEADER, bs[k - 1].off);
    }
  }

  lemma BrokenLink(m: seq<byte>, r: seq<byte>, base: nat, capacity: nat, bs: seq<Block>, i: nat, request: nat,
                   cs: seq<Block>)
    requires Holds(m, base, capacity, bs) && i < |bs|
    requires GrowDone(m, r, base, bs, i, request)
    requires Holds(r, base, capacity, cs)
    ensures !Clobbers(bs, i, request, base)
  {
    Bounds(m, base, capacity, bs, i, i + 2);
    assert HeaderAt(m, base, bs, i + 1);
    PrefixForced(m, r, base, capacity, bs, i, request, cs, i);
    assert HeaderAt(r, base, cs, i);
    assert i + 1 < |cs| && cs[i + 1].off == bs[i].off + HEADER + request;
    assert HeaderAt(r, base, cs, i + 1);
    assert cs[i + 1].End() == bs[i + 1].End();
    if i + 2 < |bs| { Inside(bs, 0, capacity, i + 2); }
    assert Adjacent(bs, i);
    if i + 2 < |bs| { assert Adjacent(bs, i + 1); }
    if i + 2 < |cs| { assert Adjacent(cs, i + 1); }
  }

  /** After a growth that splits, the bytes still hold a list that tiles the heap exactly when the new
      header did not land on the old link. */
  lemma GrowthBreaksChain(m: seq<byte>, r: seq<byte>, base: nat, capacity: nat, bs: seq<Block>, i: nat, request: nat)
    requires Holds(m, base, capacity, bs) && i < |bs| && request % 8 == 0
    requires GrowDone(m, r, base, bs, i, request)
    ensures (exists cs :: Holds(r, base, capacity, cs)) <==> !Clobbers(bs, i, request, base)
  {
    if !Clobbers(bs, i, request, base) {
      GrowthHolds(m, r, base, capacity, bs, i, request);
    }
    forall cs | Holds(r, base, capacity, cs) ensures !Clobbers(bs, i, request, base) {
      BrokenLink(m, r, base, capacity, bs, i, request, cs);
    }
  }

  /** The bytes hold at most one list. */
  lemma {:induction false} HoldsAtMostOne(m: seq<byte>, base: nat, capacity: nat, bs: seq<Block>, cs: seq<Block>,
                                          k: nat)
    requires Holds(m, base, capacity, bs) && Holds(m, base, capacity, cs)
    requires k <= |bs|
    ensures k <= |cs| && bs[..k] == cs[..k]
    ensures k < |bs| ==> k < |cs| && cs[k].off == bs[k].off
    ensures k == |bs| ==> bs == cs
  {
    if k > 0 {
      HoldsAtMostOne(m, base, capacity, bs, cs, k - 1);
      assert HeaderAt(m, base, bs, k - 1) && HeaderAt(m, base, cs, k - 1);
      assert bs[k - 1] == cs[k - 1];
      assert PtrAt(base, bs, k) == PtrAt(base, cs, k);
      assert bs[..k] == bs[..k - 1] + [bs[k - 1]] && cs[..k] == cs[..k - 1] + [cs[k - 1]];
      assert k == |bs| ==> cs[..k] == cs && bs[..k] == bs;
    }
  }

  // ---------------------------------------------------------------- payloads

  /** Every block of the set has the same bytes in both memories. */
  ghost predicate Keeps(m: seq<byte>, r: seq<byte>, live: set<Block>) {
    |m| == |r| && forall b :: b in live ==> SameInside(m, r, b.Payload(), b.End())
  }

  lemma KeepsOutside(m: seq<byte>, r: seq<byte>, capacity: nat, bs: seq<Block>, lo: nat, hi: nat)
    requires WellFormed(bs, capacity) && capacity <= |m|
    requires lo < hi <= |bs|
    requires SameOutside(m, r, bs[lo].off, bs[hi - 1].End())
    ensures Keeps(m, r, Used(bs) - Used(bs[lo..hi]))
  {
    forall b | b in Used(bs) - Used(bs[lo..hi])
      ensures SameInside(m, r, b.Payload(), b.End())
    {
      var k :| 0 <= k < |bs| && bs[k] == b;
      PayloadFrame(m, r, capacity, bs, lo, hi, k);
    }
  }

  /** A client that writes only inside one block's payload leaves the list and all other payloads alone. */
  lemma PayloadWriteHolds(m: seq<byte>, r: seq<byte>, base: nat, capacity: nat, bs: seq<Block>, k: nat)
    requires Holds(m, base, capacity, bs) && k < |bs|
    requires SameOutside(m, r, bs[k].Payload(), bs[k].End())
    ensures Holds(r, base, capacity, bs)
    ensures Keeps(m, r, Used(bs) - {bs[k]})
  {
    forall i | 0 <= i < |bs| ensures HeaderAt(r, base, bs, i) {
      if i != k { PayloadsDisjoint(bs, capacity, i, k); }
      assert HeaderAt(m, base, bs, i);
      HeaderMoved(m, r, base, bs, i, bs, i, bs[k].Payload(), bs[k].End());
    }
    KeepsOutside(m, r, capacity, bs, k, k + 1);
    assert bs[k..k + 1] == [bs[k]];
  }

  /** All live blocks but block i keep their bytes, and so does the front of block i; if there is nothing to
      give back, nothing is written. */
  ghost predicate Resized(m: seq<byte>, r: seq<byte>, bs: seq<Block>, i: nat, request: nat)
    requires i < |bs|
  {
    && Keeps(m, r, Used(bs) - {bs[i]})
    && SameInside(m, r, bs[i].Payload(), bs[i].Payload() + Min(bs[i].size, request))
    && (PathOf(bs, i, request).Keep? ==> r == m)
  }

  lemma ResizedInPlace(m: seq<byte>, r: seq<byte>, base: nat, capacity: nat, bs: seq<Block>, i: nat, hi: nat,
                       request: nat)
    requires Holds(m, base, capacity, bs) && i < hi <= |bs| && hi <= i + 2
    requires hi == i + 2 ==> !bs[i + 1].used
    requires SameOutside(m, r, bs[i].off, bs[hi - 1].End())
    requires SameInside(m, r, bs[i].Payload(), bs[i].Payload() + Min(bs[i].size, request))
    requires PathOf(bs, i, request).Keep? ==> r == m
    ensures Resized(m, r, bs, i, request)
  {
    KeepsOutside(m, r, capacity, bs, i, hi);
    assert Used(bs[i..hi]) <= {bs[i]};
  }

  lemma GrowthResized(m: seq<byte>, r: seq<byte>, base: nat, capacity: nat, bs: seq<Block>, i: nat, request: nat)
    requires Holds(m, base, capacity, bs) && i < |bs|
    requires GrowDone(m, r, base, bs, i, request)
    ensures Resized(m, r, bs, i, request)
  {
    Bounds(m, base, capacity, bs, i, i + 2);
    ResizedInPlace(m, r, base, capacity, bs, i, i + 2, request);
  }

  lemma KeepsChain(m: seq<byte>, m1: seq<byte>, r: seq<byte>, s: set<Block>, t: set<Block>, live: set<Block>)
    requires Keeps(m, m1, s) && Keeps(m1, r, t) && live <= s && live <= t
    ensures Keeps(m, r, live)
  {
  }

  /** The bytes at to are those that were at from. */
  ghost predicate Moved(m: seq<byte>, r: seq<byte>, from: nat, to: nat, count: nat) {
    && from + count <= |m| && to + count <= |r|
    && forall i :: 0 <= i < count ==> ByteAt(r, to, i) == ByteAt(m, from, i)
  }

  function ByteAt(m: seq<byte>, a: nat, i: nat): (b: byte)
    requires a + i < |m|
  {
    m[a + i]
  }

  lemma MovedNext(m: seq<byte>, r: seq<byte>, r': seq<byte>, from: nat, to: nat, n: nat)
    requires SameOutside(m, r, to, to + n) && Moved(m, r, from, to, n)
    requires from + n < |m| && to + n < |m| && !(to <= from + n < to + n)
    requires r' == r[to + n := r[from + n]]
    ensures SameOutside(m, r', to, to + n + 1) && Moved(m, r', from, to, n + 1)
  {
    forall i | 0 <= i < n + 1 ensures ByteAt(r', to, i) == ByteAt(m, from, i) {
      if i < n { assert ByteAt(r, to, i) == ByteAt(m, from, i); }
    }
  }

  lemma MovedChain(m: seq<byte>, m1: seq<byte>, m2: seq<byte>, r: seq<byte>, from: nat, to: nat, count: nat)
    requires SameInside(m, m1, from, from + count)
    requires Moved(m1, m2, from, to, count)
    requires SameInside(m2, r, to, to + count)
    ensures Moved(m, r, from, to, count)
  {
    forall i | 0 <= i < count ensures ByteAt(r, to, i) == ByteAt(m, from, i) {
      assert ByteAt(m2, to, i) == ByteAt(m1, from, i);
    }
  }

  /** Payloads survive copying into the new block (m to m1), then freeing the old one (m1 to r). */
  lemma AfterCopy(m: seq<byte>, m1: seq<byte>, r: seq<byte>, live: set<Block>, ob: Block, nb: Block, count: nat)
    requires ob in live && nb in live && ob != nb
    requires Keeps(m, m1, live - {nb}) && Keeps(m1, r, live - {ob})
    requires Moved(m, m1, ob.Payload(), nb.Payload(), count)
    requires count <= nb.size
    ensures Keeps(m, r, live - {ob, nb})
    ensures Moved(m, r, ob.Payload(), nb.Payload(), count)
  {
    KeepsChain(m, m1, r, live - {nb}, live - {ob}, live - {ob, nb});
    MovedChain(m, m, m1, r, ob.Payload(), nb.Payload(), count);
  }

  /** ... and the kmalloc before it (m to m1). */
  lemma AfterMove(m: seq<byte>, m1: seq<byte>, r: seq<byte>, live: set<Block>, ob: Block, nb: Block, count: nat,
                  to: nat)
    requires ob in live && nb !in live && to == nb.Payload()
    requires Keeps(m, m1, live) && Keeps(m1, r, live + {nb} - {ob, nb})
    requires Moved(m1, r, ob.Payload(), nb.Payload(), count)
    requires count <= ob.size
    ensures Keeps(m, r, live - {ob})
    ensures Moved(m, r, ob.Payload(), to, count)
  {
    KeepsChain(m, m1, r, live, live + {nb} - {ob, nb}, live - {ob});
    MovedChain(m, m1, r, r, ob.Payload(), nb.Payload(), count);
  }

  // ---------------------------------------------------------------- krealloc as a whole

  /** The address a call returns. */
  function Address(base: nat, p: Ptr): (a: nat) {
    match p
    case Null => 0
    case At(off) => base + off + HEADER
  }

  /** krealloc from bytes m and list bs to bytes r and list cs, returning the address p: the list is the
      one Realloc gives, all other live blocks keep their bytes, the result starts with the bytes the
      old block started with (see HeapRuns.PrefixFits for the condition), and a failed call changes
      nothing. */
  ghost predicate Reallocated(m: seq<byte>, r: seq<byte>, bs: seq<Block>, cs: seq<Block>, base: nat, capacity: nat,
                              off: nat, newSize: uint32, p: nat)
    requires WellFormed(bs, capacity) && Live(bs, off)
  {
    var b := bs[IndexOf(bs, off)];
    && cs == Realloc(bs, capacity, off, newSize)
    && p == Address(base, ReallocPtr(bs, off, newSize))
    && Keeps(m, r, Used(bs) - {b})
    && (p != 0 && (newSize <= MAX_REQUEST || b.size < MIN_SPLIT) ==>
         p >= base && Moved(m, r, b.Payload(), p - base, Min(b.size, newSize)))
    && (p == 0 && newSize != 0 ==> cs == bs && r == m)
  }

  lemma ReallocatedInPlace(m: seq<byte>, r: seq<byte>, bs: seq<Block>, base: nat, capacity: nat, off: nat,
                           newSize: uint32)
    requires WellFormed(bs, capacity) && capacity <= |m| && Live(bs, off) && newSize != 0 && 0 < base
    requires !PathOf(bs, IndexOf(bs, off), AlignSize(newSize)).Move?
    requires Resized(m, r, bs, IndexOf(bs, off), AlignSize(newSize))
    ensures Reallocated(m, r, bs, Resize(bs, IndexOf(bs, off), AlignSize(newSize)), base, capacity, off, newSize,
                        base + off + HEADER)
  {
    AlignSizeCovers(newSize);
    Inside(bs, 0, capacity, IndexOf(bs, off));
    var from, n := off + HEADER, Min(bs[IndexOf(bs, off)].size, newSize);
    if newSize <= MAX_REQUEST || bs[IndexOf(bs, off)].size < MIN_SPLIT {
      assert SameInside(m, r, from, from + n);
    }
  }

  lemma ReallocatedByMove(m: seq<byte>, r: seq<byte>, bs: seq<Block>, cs: seq<Block>, base: nat, capacity: nat,
                          off: nat, newSize: uint32, p: nat)
    requires WellFormed(bs, capacity) && Live(bs, off) && newSize != 0 && 0 < base
    requires PathOf(bs, IndexOf(bs, off), AlignSize(newSize)).Move?
    requires p == Address(base, MallocPtr(bs, newSize))
    requires p == 0 ==> cs == bs && r == m
    requires p != 0 ==> Live(Malloc(bs, newSize), off) && cs == FreeAt(Malloc(bs, newSize), off)
    requires Keeps(m, r, Used(bs) - {bs[IndexOf(bs, off)]})
    requires p != 0 ==> p >= base && Moved(m, r, bs[IndexOf(bs, off)].Payload(), p - base,
                                           Min(bs[IndexOf(bs, off)].size, newSize))
    ensures Reallocated(m, r, bs, cs, base, capacity, off, newSize, p)
  {
    assert ReallocPtr(bs, off, newSize) == MallocPtr(bs, newSize);
    assert cs == Realloc(bs, capacity, off, newSize);
  }

  // ---------------------------------------------------------------- following a block through a run

  /** The bytes traced by t in memory m are those traced by t' in memory r, where the list is cs. */
  ghost predicate Carried(m: seq<byte>, r: seq<byte>, cs: seq<Block>, t: Trace, t': Trace) {
    t'.Kept? ==>
      t.Kept? && t'.count <= t.count && Holding(cs, t') && Moved(m, r, t.off + HEADER, t'.off + HEADER, t'.count)
  }

  lemma CarriedStart(m: seq<byte>, capacity: nat, bs: seq<Block>, t: Trace)
    requires WellFormed(bs, capacity) && capacity <= |m| && Holding(bs, t)
    ensures Carried(m, m, bs, t, t)
  {
    if t.Kept? { Inside(bs, 0, capacity, IndexOf(bs, t.off)); }
  }

  lemma CarriedChain(m: seq<byte>, m1: seq<byte>, r: seq<byte>, cs: seq<Block>, t: Trace, t1: Trace, t2: Trace)
    requires t1.Kept? ==> t.Kept? && t1.count <= t.count && Moved(m, m1, t.off + HEADER, t1.off + HEADER, t1.count)
    requires Carried(m1, r, cs, t1, t2)
    ensures Carried(m, r, cs, t, t2)
  {
    if t2.Kept? {
      MovedTwice(m, m1, r, t.off + HEADER, t1.off + HEADER, t2.off + HEADER, t2.count);
    }
  }

  lemma MovedShorter(m: seq<byte>, r: seq<byte>, from: nat, to: nat, n: nat, k: nat)
    requires Moved(m, r, from, to, n) && k <= n
    ensures Moved(m, r, from, to, k)
  {
  }

  lemma MovedTwice(m: seq<byte>, m1: seq<byte>, r: seq<byte>, a: nat, b: nat, c: nat, n: nat)
    requires Moved(m, m1, a, b, n) && Moved(m1, r, b, c, n)
    ensures Moved(m, r, a, c, n)
  {
    forall i | 0 <= i < n ensures ByteAt(r, c, i) == ByteAt(m, a, i) {
      assert ByteAt(m1, b, i) == ByteAt(m, a, i);
    }
  }

  lemma IsCarried(m: seq<byte>, r: seq<byte>, cs: seq<Block>, t: Trace, t': Trace)
    requires t.Kept? && t'.Kept? && t'.count <= t.count && Holding(cs, t')
    requires Moved(m, r, t.off + HEADER, t'.off + HEADER, t'.count)
    ensures Carried(m, r, cs, t, t')
  {
  }

  /** A block whose payload is kept. */
  lemma MovedNowhere(m: seq<byte>, r: seq<byte>, live: set<Block>, b: Block, count: nat)
    requires Keeps(m, r, live) && b in live && count <= b.size
    ensures Moved(m, r, b.Payload(), b.Payload(), count)
  {
    var from := b.Payload();
    assert SameInside(m, r, from, b.End());
  }

  /** A block that a call does not name. */
  lemma CarriedUnnamed(m: seq<byte>, r: seq<byte>, s: State, capacity: nat, call: Call, t: Trace)
    requires WellFormed(s.bs, capacity) && Holding(s.bs, t) && (!call.Kmalloc? ==> Live(s.bs, call.off))
    requires call.Krealloc? && t.Kept? ==> t.off != call.off
    requires Keeps(m, r, Spared(s.bs, call)) && WellFormed(Step(s, capacity, call).bs, capacity)
    ensures Carried(m, r, Step(s, capacity, call).bs, t, Follow(s.bs, call, t))
  {
    if Follow(s.bs, call, t).Kept? {
      FollowUnnamed(s, capacity, call, t);
      MovedNowhere(m, r, Spared(s.bs, call), s.bs[IndexOf(s.bs, t.off)], t.count);
      IsCarried(m, r, Step(s, capacity, call).bs, t, t);
    }
  }

  /** A block that krealloc names, or does not. */
  lemma CarriedByRealloc(m: seq<byte>, r: seq<byte>, s: State, base: nat, capacity: nat, off: nat, size: uint32,
                         p: nat, t: Trace)
    requires Good(s.bs, capacity) && capacity <= |m| && capacity < TWO32 && 0 < base && Holding(s.bs, t)
    requires Live(s.bs, off) && Keeps(m, r, Spared(s.bs, Krealloc(off, size)))
    requires WellFormed(Realloc(s.bs, capacity, off, size), capacity)
    requires Reallocated(m, r, s.bs, Realloc(s.bs, capacity, off, size), base, capacity, off, size, p)
    ensures Carried(m, r, Realloc(s.bs, capacity, off, size), t, Follow(s.bs, Krealloc(off, size), t))
  {
    if t.Gone? || t.off != off {
      CarriedUnnamed(m, r, s, capacity, Krealloc(off, size), t);
    } else if size != 0 {
      CarriedNamed(m, r, s.bs, Realloc(s.bs, capacity, off, size), base, capacity, size, p, t,
                   Follow(s.bs, Krealloc(off, size), t));
    }
  }

  lemma CarriedNamed(m: seq<byte>, r: seq<byte>, bs: seq<Block>, cs: seq<Block>, base: nat, capacity: nat,
                     size: uint32, p: nat, t: Trace, t': Trace)
    requires Good(bs, capacity) && capacity <= |m| && capacity < TWO32 && 0 < base
    requires t.Kept? && Holding(bs, t) && size != 0 && t' == Follow(bs, Krealloc(t.off, size), t)
    requires cs == Realloc(bs, capacity, t.off, size)
    requires Reallocated(m, r, bs, cs, base, capacity, t.off, size, p)
    ensures Carried(m, r, cs, t, t')
  {
    if ReallocPtr(bs, t.off, size).Null? {
      assert cs == bs && r == m && t' == t;
      CarriedStart(m, capacity, bs, t);
    } else if t'.Kept? {
      assert Holding(cs, t') by { FollowNamed(bs, capacity, size, t); }
      ReallocatedMoves(m, r, bs, cs, base, capacity, size, p, t, t');
      IsCarried(m, r, cs, t, t');
    }
  }

  lemma ReallocatedMoves(m: seq<byte>, r: seq<byte>, bs: seq<Block>, cs: seq<Block>, base: nat, capacity: nat,
                         size: uint32, p: nat, t: Trace, t': Trace)
    requires WellFormed(bs, capacity) && 0 < base && t.Kept? && Holding(bs, t) && size != 0
    requires Reallocated(m, r, bs, cs, base, capacity, t.off, size, p)
    requires ReallocPtr(bs, t.off, size).At? && t' == Follow(bs, Krealloc(t.off, size), t) && t'.Kept?
    ensures t'.count <= t.count && Moved(m, r, t.off + HEADER, t'.off + HEADER, t'.count)
  {
    var n := Min(bs[IndexOf(bs, t.off)].size, size);
    ReallocatedPrefix(m, r, bs, cs, base, capacity, t.off, size, p, t.off + HEADER, t'.off + HEADER, n);
    MovedShorter(m, r, t.off + HEADER, t'.off + HEADER, n, t'.count);
  }

  lemma ReallocatedPrefix(m: seq<byte>, r: seq<byte>, bs: seq<Block>, cs: seq<Block>, base: nat, capacity: nat,
                          off: nat, size: uint32, p: nat, from: nat, to: nat, n: nat)
    requires WellFormed(bs, capacity) && Live(bs, off) && 0 < base && size != 0
    requires Reallocated(m, r, bs, cs, base, capacity, off, size, p) && ReallocPtr(bs, off, size).At?
    requires size <= MAX_REQUEST || bs[IndexOf(bs, off)].size < MIN_SPLIT
    requires from == off + HEADER && to == ReallocPtr(bs, off, size).off + HEADER
    requires n == Min(bs[IndexOf(bs, off)].size, size)
    ensures Moved(m, r, from, to, n)
  {
    assert p == base + to && bs[IndexOf(bs, off)].Payload() == from;
  }

  /** The blocks that no call names, after one more call. */
  lemma StillKept(m: seq<byte>, m1: seq<byte>, r: seq<byte>, s: State, capacity: nat, calls: seq<Call>, k: nat,
                  kept: set<Block>)
    requires WellFormed(s.bs, capacity) && k < |calls| && (!calls[k].Kmalloc? ==> Live(s.bs, calls[k].off))
    requires kept <= Used(s.bs) && Keeps(m, m1, kept) && forall b :: b in kept ==> Unnamed(b, calls)
    requires Keeps(m1, r, Spared(s.bs, calls[k]))
    ensures kept <= Used(Step(s, capacity, calls[k]).bs) && Keeps(m, r, kept)
  {
    forall b | b in kept ensures b in Spared(s.bs, calls[k]) { assert Unnamed(b, calls); }
    SparedStay(s, capacity, calls[k]);
    KeepsChain(m, m1, r, kept, Spared(s.bs, calls[k]), kept);
  }
}
