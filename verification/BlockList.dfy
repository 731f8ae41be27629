/** The heap as a list of blocks: what the allocator does to the list, and what
    every run of it keeps.  Offsets are relative to the start of the heap. */
module BlockList {
  import opened Memory

  const HEADER := 12                  // sizeof(block_t) on the 32-bit target
  const MIN_SPLIT := HEADER + 16
  const MAX_REQUEST := 0xFFFF_FFF8    // the largest size rounding does not wrap
  const MALLOC_C_CAPACITY := 256 * 1024
  const HEAP_C_CAPACITY := 64 * 1024

  datatype Block = Block(off: nat, size: nat, used: bool) {
    function End(): nat { off + HEADER + size }
    function Payload(): nat { off + HEADER }
  }

  // ---------------------------------------------------------------- shape

  /** Block i + 1 starts where block i ends. */
  ghost predicate Adjacent(bs: seq<Block>, i: nat)
    requires i + 1 < |bs|
  {
    bs[i + 1].off == bs[i].End()
  }

  /** Blocks i and i + 1 are not both free. */
  ghost predicate Separate(bs: seq<Block>, i: nat)
    requires i + 1 < |bs|
  {
    bs[i].used || bs[i + 1].used
  }

  /** The blocks lie end to end and cover exactly [lo, hi). */
  ghost predicate Tiles(bs: seq<Block>, lo: nat, hi: nat) {
    && |bs| > 0
    && bs[0].off == lo
    && bs[|bs| - 1].End() == hi
    && forall i :: 0 <= i < |bs| - 1 ==> Adjacent(bs, i)
  }

  /** Every block but the last has a size that is a multiple of four. */
  ghost predicate WordSized(bs: seq<Block>) {
    forall i :: 0 <= i < |bs| - 1 ==> bs[i].size % 4 == 0
  }

  ghost predicate WellFormed(bs: seq<Block>, capacity: nat) {
    Tiles(bs, 0, capacity) && WordSized(bs)
  }

  /** No two neighbours are both free. */
  ghost predicate Coalesced(bs: seq<Block>) {
    forall i :: 0 <= i < |bs| - 1 ==> Separate(bs, i)
  }

  lemma {:induction false} Ordered(bs: seq<Block>, lo: nat, hi: nat, i: nat, j: nat)
    requires Tiles(bs, lo, hi)
    requires i < j < |bs|
    ensures bs[i].End() <= bs[j].off
    decreases j
  {
    assert Adjacent(bs, j - 1);
    if i + 1 < j { Ordered(bs, lo, hi, i, j - 1); }
  }

  lemma Inside(bs: seq<Block>, lo: nat, hi: nat, i: nat)
    requires Tiles(bs, lo, hi)
    requires i < |bs|
    ensures lo <= bs[i].off && bs[i].End() <= hi
  {
    if 0 < i { Ordered(bs, lo, hi, 0, i); }
    if i < |bs| - 1 { Ordered(bs, lo, hi, i, |bs| - 1); }
  }

  /** Payloads of distinct blocks are disjoint, lie inside the heap and overlap no header. */
  lemma PayloadsDisjoint(bs: seq<Block>, capacity: nat, i: nat, j: nat)
    requires WellFormed(bs, capacity)
    requires i < |bs| && j < |bs| && i != j
    ensures bs[i].End() <= capacity
    ensures bs[i].End() <= bs[j].off || bs[j].End() <= bs[i].off
    ensures bs[i].off != bs[j].off
  {
    Inside(bs, 0, capacity, i);
    if i < j { Ordered(bs, 0, capacity, i, j); } else { Ordered(bs, 0, capacity, j, i); }
  }

  // ---------------------------------------------------------------- splicing

  /** The list with bs[lo..hi] replaced. */
  function Splice(bs: seq<Block>, lo: nat, hi: nat, mid: seq<Block>): (r: seq<Block>)
    requires lo <= hi <= |bs|
  {
    bs[..lo] + mid + bs[hi..]
  }

  /** Replacing a stretch of blocks by others that tile the same bytes keeps the heap well formed. */
  lemma SpliceWellFormed(bs: seq<Block>, capacity: nat, lo: nat, hi: nat, mid: seq<Block>)
    requires WellFormed(bs, capacity)
    requires lo < hi <= |bs|
    requires Tiles(mid, bs[lo].off, bs[hi - 1].End())
    requires WordSized(mid)
    requires hi < |bs| ==> mid[|mid| - 1].size % 4 == 0
    ensures WellFormed(Splice(bs, lo, hi, mid), capacity)
  {
    var r := Splice(bs, lo, hi, mid);
    var n := |mid|;
    assert |r| == lo + n + |bs| - hi;
    forall i | 0 <= i < |r| - 1
      ensures Adjacent(r, i)
    {
      if i + 1 < lo {
        assert r[i] == bs[i] && r[i + 1] == bs[i + 1];
        assert Adjacent(bs, i);
      } else if i + 1 == lo {
        assert r[i] == bs[i] && r[i + 1] == mid[0];
        assert Adjacent(bs, i);
      } else if i + 1 < lo + n {
        assert r[i] == mid[i - lo] && r[i + 1] == mid[i - lo + 1];
        assert Adjacent(mid, i - lo);
      } else if i + 1 == lo + n {
        assert r[i] == mid[n - 1] && r[i + 1] == bs[hi];
        assert Adjacent(bs, hi - 1);
      } else {
        var k := i - lo - n + hi;
        assert r[i] == bs[k] && r[i + 1] == bs[k + 1];
        assert Adjacent(bs, k);
      }
    }
    forall i | 0 <= i < |r| - 1
      ensures r[i].size % 4 == 0
    {
      if i < lo {
        assert r[i] == bs[i];
      } else if i < lo + n {
        assert r[i] == mid[i - lo];
      } else {
        assert r[i] == bs[i - lo - n + hi];
      }
    }
  }

  /** ... and keeps it coalesced when the new blocks are, at both seams too. */
  lemma SpliceCoalesced(bs: seq<Block>, lo: nat, hi: nat, mid: seq<Block>)
    requires Coalesced(bs) && Coalesced(mid)
    requires lo < hi <= |bs| && |mid| > 0
    requires 0 < lo ==> bs[lo - 1].used || mid[0].used
    requires hi < |bs| ==> mid[|mid| - 1].used || bs[hi].used
    ensures Coalesced(Splice(bs, lo, hi, mid))
  {
    var r := Splice(bs, lo, hi, mid);
    var n := |mid|;
    forall i | 0 <= i < |r| - 1
      ensures Separate(r, i)
    {
      if i + 1 <= lo {
        assert r[i] == bs[i] && r[i + 1] == if i + 1 < lo then bs[i + 1] else mid[0];
        assert Separate(bs, i);
      } else if i + 1 < lo + n {
        assert r[i] == mid[i - lo] && r[i + 1] == mid[i - lo + 1];
        assert Separate(mid, i - lo);
      } else if i + 1 == lo + n {
        assert r[i] == mid[n - 1] && r[i + 1] == bs[hi];
      } else {
        var k := i - lo - n + hi;
        assert r[i] == bs[k] && r[i + 1] == bs[k + 1];
        assert Separate(bs, k);
      }
    }
  }

  // ---------------------------------------------------------------- operations

  /** Rounding up to eight with 32-bit wrap-around. */
  function AlignSize(size: uint32): (r: uint32) {
    if size == 0 then 8 else (size + 7) % TWO32 / 8 * 8
  }

  /** Rounding yields the least multiple of eight that covers the size, except for
      the seven largest sizes, where it wraps to zero. */
  lemma AlignSizeCovers(size: uint32)
    requires size != 0
    ensures AlignSize(size) % 8 == 0
    ensures size <= AlignSize(size) <==> size <= MAX_REQUEST
    ensures size <= MAX_REQUEST ==> forall k: nat :: size <= 8 * k ==> AlignSize(size) <= 8 * k
    ensures size > MAX_REQUEST ==> AlignSize(size) == 0
  {
  }

  predicate Fits(b: Block, request: nat) { !b.used && b.size >= request }

  /** Index of the first free block that is large enough, or the length of the list. */
  function FirstFit(bs: seq<Block>, request: nat): (i: nat)
    ensures i <= |bs|
    ensures i < |bs| ==> Fits(bs[i], request)
    ensures forall j :: 0 <= j < i ==> !Fits(bs[j], request)
  {
    if bs == [] || Fits(bs[0], request) then 0 else 1 + FirstFit(bs[1..], request)
  }

  /** Size of the one block that bs[lo..hi] would make. */
  function Room(bs: seq<Block>, lo: nat, hi: nat): (n: nat)
    requires lo < hi <= |bs|
    decreases hi - lo
  {
    bs[lo].size + if lo + 1 < hi then HEADER + Room(bs, lo + 1, hi) else 0
  }

  /** bs[i..hi] turned into a used block of the requested size and one free remainder. */
  function Cut(bs: seq<Block>, i: nat, hi: nat, request: nat): (r: seq<Block>)
    requires i < hi <= |bs|
    requires request + HEADER <= Room(bs, i, hi)
  {
    var rest := Block(bs[i].off + HEADER + request, Room(bs, i, hi) - request - HEADER, false);
    Splice(bs, i, hi, [Block(bs[i].off, request, true), rest])
  }

  /** bs[lo..hi] merged into one block. */
  function Fuse(bs: seq<Block>, lo: nat, hi: nat, used: bool): (r: seq<Block>)
    requires lo < hi <= |bs|
  {
    Splice(bs, lo, hi, [Block(bs[lo].off, Room(bs, lo, hi), used)])
  }

  /** kmalloc's effect on the block it picked: split it, or hand it out whole. */
  function Carve(bs: seq<Block>, i: nat, request: nat): (r: seq<Block>)
    requires i < |bs| && bs[i].size >= request
  {
    if bs[i].size - request >= MIN_SPLIT then Cut(bs, i, i + 1, request) else Fuse(bs, i, i + 1, true)
  }

  function Low(bs: seq<Block>, i: nat): (lo: nat)
    requires i < |bs|
    ensures lo <= i
  {
    if 0 < i && !bs[i - 1].used then i - 1 else i
  }

  function High(bs: seq<Block>, i: nat): (hi: nat)
    requires i < |bs|
    ensures i < hi <= |bs|
  {
    if i + 1 < |bs| && !bs[i + 1].used then i + 2 else i + 1
  }

  /** Freeing block i: it and its free neighbours become one free block. */
  function FreeBlock(bs: seq<Block>, i: nat): (r: seq<Block>)
    requires i < |bs|
  {
    Fuse(bs, Low(bs, i), High(bs, i), false)
  }

  /** What krealloc does to a live block for a nonzero size. */
  datatype Path = Keep | Shrink | GrowSplit | GrowAll | Move

  function PathOf(bs: seq<Block>, i: nat, request: nat): (p: Path)
    requires i < |bs|
  {
    if request <= bs[i].size then
      if bs[i].size - request >= MIN_SPLIT then Shrink else Keep
    else if i + 1 < |bs| && !bs[i + 1].used && Room(bs, i, i + 2) >= request then
      if Room(bs, i, i + 2) - request >= MIN_SPLIT then GrowSplit else GrowAll
    else Move
  }

  /** krealloc's effect when it does not move the block. */
  function Resize(bs: seq<Block>, i: nat, request: nat): (r: seq<Block>)
    requires i < |bs| && !PathOf(bs, i, request).Move?
  {
    match PathOf(bs, i, request)
    case Keep => bs
    case Shrink => Cut(bs, i, High(bs, i), request)
    case GrowSplit => Cut(bs, i, i + 2, request)
    case GrowAll => Fuse(bs, i, i + 2, true)
  }

  /** Position of the block that starts at off, or the length of the list. */
  function IndexOf(bs: seq<Block>, off: nat): (i: nat)
    ensures i <= |bs|
    ensures i < |bs| ==> bs[i].off == off
    ensures forall j :: 0 <= j < i ==> bs[j].off != off
  {
    if bs == [] || bs[0].off == off then 0 else 1 + IndexOf(bs[1..], off)
  }

  predicate Live(bs: seq<Block>, off: nat) {
    var i := IndexOf(bs, off); i < |bs| && bs[i].used
  }

  function FreeAt(bs: seq<Block>, off: nat): (r: seq<Block>)
    requires Live(bs, off)
  {
    FreeBlock(bs, IndexOf(bs, off))
  }

  // ---------------------------------------------------------------- what each operation keeps

  ghost predicate Good(bs: seq<Block>, capacity: nat) {
    WellFormed(bs, capacity) && Coalesced(bs)
  }

  lemma {:induction false} RoomSpans(bs: seq<Block>, lo: nat, hi: nat, capacity: nat)
    requires WellFormed(bs, capacity)
    requires lo < hi <= |bs|
    ensures bs[lo].off + HEADER + Room(bs, lo, hi) == bs[hi - 1].End()
    ensures hi < |bs| ==> Room(bs, lo, hi) % 4 == 0
    decreases hi - lo
  {
    if lo + 1 < hi {
      RoomSpans(bs, lo + 1, hi, capacity);
      assert Adjacent(bs, lo);
      if hi < |bs| { SumOfFours(bs[lo].size, Room(bs, lo + 1, hi)); }
    }
  }

  lemma SumOfFours(a: nat, b: nat)
    requires a % 4 == 0 && b % 4 == 0
    ensures (a + HEADER + b) % 4 == 0
  {
    var p, q := a / 4, b / 4;
    FourTimes(a + HEADER + b, p + 3 + q);
  }

  lemma RemainderAligned(room: nat, request: nat)
    requires request % 8 == 0 && request + HEADER <= room
    ensures request % 4 == 0
    ensures room % 4 == 0 ==> (room - request - HEADER) % 4 == 0
  {
    var q := request / 8;
    assert request == 8 * q;
    FourTimes(request, 2 * q);
    if room % 4 == 0 {
      var p := room / 4;
      assert room == 4 * p;
      FourTimes(room - request - HEADER, p - 2 * q - 3);
    }
  }

  lemma FourTimes(n: int, k: int)
    requires n == 4 * k
    ensures n % 4 == 0
  {
  }

  lemma CutWellFormed(bs: seq<Block>, capacity: nat, i: nat, hi: nat, request: nat)
    requires WellFormed(bs, capacity)
    requires i < hi <= |bs|
    requires request % 8 == 0 && request + HEADER <= Room(bs, i, hi)
    ensures WellFormed(Cut(bs, i, hi, request), capacity)
  {
    RoomSpans(bs, i, hi, capacity);
    var rest := Block(bs[i].off + HEADER + request, Room(bs, i, hi) - request - HEADER, false);
    RemainderAligned(Room(bs, i, hi), request);
    SpliceWellFormed(bs, capacity, i, hi, [Block(bs[i].off, request, true), rest]);
  }

  lemma FuseWellFormed(bs: seq<Block>, capacity: nat, lo: nat, hi: nat, used: bool)
    requires WellFormed(bs, capacity)
    requires lo < hi <= |bs|
    ensures WellFormed(Fuse(bs, lo, hi, used), capacity)
  {
    RoomSpans(bs, lo, hi, capacity);
    SpliceWellFormed(bs, capacity, lo, hi, [Block(bs[lo].off, Room(bs, lo, hi), used)]);
  }

  lemma CarveWellFormed(bs: seq<Block>, capacity: nat, i: nat, request: nat)
    requires WellFormed(bs, capacity)
    requires i < |bs| && Fits(bs[i], request) && request % 8 == 0
    ensures WellFormed(Carve(bs, i, request), capacity)
  {
    if bs[i].size - request >= MIN_SPLIT {
      CutWellFormed(bs, capacity, i, i + 1, request);
    } else {
      FuseWellFormed(bs, capacity, i, i + 1, true);
    }
  }

  lemma CutGood(bs: seq<Block>, capacity: nat, i: nat, hi: nat, request: nat)
    requires Good(bs, capacity)
    requires i < hi <= |bs|
    requires request % 8 == 0 && request + HEADER <= Room(bs, i, hi)
    requires hi < |bs| ==> bs[hi].used
    ensures Good(Cut(bs, i, hi, request), capacity)
  {
    CutWellFormed(bs, capacity, i, hi, request);
    var rest := Block(bs[i].off + HEADER + request, Room(bs, i, hi) - request - HEADER, false);
    SpliceCoalesced(bs, i, hi, [Block(bs[i].off, request, true), rest]);
  }

  lemma FuseGood(bs: seq<Block>, capacity: nat, lo: nat, hi: nat, used: bool)
    requires Good(bs, capacity)
    requires lo < hi <= |bs|
    requires !used && 0 < lo ==> bs[lo - 1].used
    requires !used && hi < |bs| ==> bs[hi].used
    ensures Good(Fuse(bs, lo, hi, used), capacity)
  {
    FuseWellFormed(bs, capacity, lo, hi, used);
    SpliceCoalesced(bs, lo, hi, [Block(bs[lo].off, Room(bs, lo, hi), used)]);
  }

  /** On a coalesced list the blocks just outside a freed stretch are used. */
  lemma EdgesUsed(bs: seq<Block>, i: nat)
    requires Coalesced(bs) && i < |bs|
    ensures 0 < Low(bs, i) ==> bs[Low(bs, i) - 1].used
    ensures High(bs, i) < |bs| ==> bs[High(bs, i)].used
  {
    if 0 < Low(bs, i) < i { assert Separate(bs, i - 2); }
    if i + 1 < High(bs, i) < |bs| { assert Separate(bs, i + 1); }
  }

  lemma CarveGood(bs: seq<Block>, capacity: nat, i: nat, request: nat)
    requires Good(bs, capacity)
    requires i < |bs| && Fits(bs[i], request) && request % 8 == 0
    ensures Good(Carve(bs, i, request), capacity)
  {
    if bs[i].size - request >= MIN_SPLIT {
      assert i + 1 < |bs| ==> Separate(bs, i);
      CutGood(bs, capacity, i, i + 1, request);
    } else {
      FuseGood(bs, capacity, i, i + 1, true);
    }
  }

  lemma FreeGood(bs: seq<Block>, capacity: nat, i: nat)
    requires Good(bs, capacity)
    requires i < |bs| && bs[i].used
    ensures Good(FreeBlock(bs, i), capacity)
  {
    EdgesUsed(bs, i);
    FuseGood(bs, capacity, Low(bs, i), High(bs, i), false);
  }

  lemma ResizeGood(bs: seq<Block>, capacity: nat, i: nat, request: nat)
    requires Good(bs, capacity)
    requires i < |bs| && bs[i].used && request % 8 == 0
    requires !PathOf(bs, i, request).Move?
    ensures Good(Resize(bs, i, request), capacity)
  {
    EdgesUsed(bs, i);
    match PathOf(bs, i, request)
    case Keep =>
    case Shrink => CutGood(bs, capacity, i, High(bs, i), request);
    case GrowSplit => CutGood(bs, capacity, i, i + 2, request);
    case GrowAll => FuseGood(bs, capacity, i, i + 2, true);
  }

  // ---------------------------------------------------------------- merging in steps

  lemma {:induction false} RoomJoin(bs: seq<Block>, lo: nat, k: nat, hi: nat)
    requires lo < k < hi <= |bs|
    ensures Room(bs, lo, hi) == Room(bs, lo, k) + HEADER + Room(bs, k, hi)
    decreases k - lo
  {
    if lo + 1 < k { RoomJoin(bs, lo + 1, k, hi); }
  }

  /** Merging a merged block with the block after it merges the whole stretch. */
  lemma FuseThenNext(bs: seq<Block>, lo: nat, hi: nat, u: bool)
    requires lo < hi < |bs|
    ensures Fuse(Fuse(bs, lo, hi, u), lo, lo + 2, u) == Fuse(bs, lo, hi + 1, u)
  {
    var cs := Fuse(bs, lo, hi, u);
    assert cs[lo].size == Room(bs, lo, hi) && cs[lo + 1] == bs[hi];
    assert Room(cs, lo, lo + 2) == cs[lo].size + HEADER + Room(cs, lo + 1, lo + 2);
    RoomJoin(bs, lo, hi, hi + 1);
    assert cs[..lo] == bs[..lo] && cs[lo + 2..] == bs[hi + 1..];
  }

  /** ... and likewise with the block before it. */
  lemma FuseThenPrevious(bs: seq<Block>, lo: nat, hi: nat, u: bool)
    requires 0 < lo < hi <= |bs|
    ensures Fuse(Fuse(bs, lo, hi, u), lo - 1, lo + 1, u) == Fuse(bs, lo - 1, hi, u)
  {
    var cs := Fuse(bs, lo, hi, u);
    assert cs[lo].size == Room(bs, lo, hi) && cs[lo - 1] == bs[lo - 1];
    assert Room(cs, lo - 1, lo + 1) == cs[lo - 1].size + HEADER + Room(cs, lo, lo + 1);
    RoomJoin(bs, lo - 1, lo, hi);
    assert cs[..lo - 1] == bs[..lo - 1] && cs[lo + 1..] == bs[hi..];
  }

  /** A cut whose remainder absorbs the next block is a cut of both. */
  lemma CutThenNext(bs: seq<Block>, i: nat, request: nat)
    requires i + 1 < |bs| && request + HEADER <= bs[i].size
    requires Room(bs, i, i + 1) == bs[i].size && request + HEADER <= Room(bs, i, i + 2)
    ensures Fuse(Cut(bs, i, i + 1, request), i + 1, i + 3, false) == Cut(bs, i, i + 2, request)
  {
    var cs := Cut(bs, i, i + 1, request);
    var x := Block(bs[i].off, request, true);
    var y := Block(bs[i].off + HEADER + request, bs[i].size - request - HEADER, false);
    SplicedPair(bs, i, x, y, cs);
    assert Room(cs, i + 1, i + 3) == cs[i + 1].size + HEADER + Room(cs, i + 2, i + 3);
    assert Room(bs, i, i + 2) == bs[i].size + HEADER + Room(bs, i + 1, i + 2);
    var z := Block(y.off, Room(bs, i, i + 2) - request - HEADER, false);
    PairThenNext(bs, i, x, z, cs);
  }

  /** One block replaced by two. */
  lemma SplicedPair(bs: seq<Block>, i: nat, x: Block, y: Block, cs: seq<Block>)
    requires i + 1 < |bs| && cs == Splice(bs, i, i + 1, [x, y])
    ensures |cs| == |bs| + 1 && cs[i] == x && cs[i + 1] == y && cs[i + 2] == bs[i + 1]
    ensures cs[..i] == bs[..i] && cs[i + 3..] == bs[i + 2..]
  {
  }

  lemma PairThenNext(bs: seq<Block>, i: nat, x: Block, z: Block, cs: seq<Block>)
    requires i + 1 < |bs| && |cs| == |bs| + 1 && cs[i] == x && cs[..i] == bs[..i] && cs[i + 3..] == bs[i + 2..]
    ensures Splice(cs, i + 1, i + 3, [z]) == Splice(bs, i, i + 2, [x, z])
  {
    assert cs[..i + 1] == cs[..i] + [cs[i]];
    assert bs[..i] + [x] + [z] == bs[..i] + [x, z];
  }
}
