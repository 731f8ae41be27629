/** The kernel heap: the allocator of mm/malloc.c, with the free of mm/heap.c beside it, working in
    place on the bytes of g_heap. */
module KernelHeap {
  import opened Memory
  import opened BlockList
  import opened HeapRuns
  import opened HeapBytes

  class Heap {
    const mem: array<byte>       // g_heap
    const base: nat              // its address
    var first: nat               // g_first_block; 0 is null
    ghost var capacity: nat
    ghost var blocks: seq<Block>

    /** The bytes hold the list of blocks, which tiles the capacity. */
    ghost predicate Inv()
      reads this, mem
    {
      first == base && Holds(mem[..], base, capacity, blocks)
    }

    /** Either never initialised, or holding a list that tiles the heap. */
    ghost predicate Tiled()
      reads this, mem
    {
      && 0 < base && HEADER <= mem.Length && base + mem.Length <= TWO32
      && (first == 0 ==> blocks == [])
      && (first != 0 ==> Inv())
    }

    /** ... and a coalesced one. */
    ghost predicate Valid()
      reads this, mem
    {
      Tiled() && (first != 0 ==> Coalesced(blocks))
    }

    /** The static storage of mm/malloc.c. */
    constructor MallocC(base: nat)
      requires 0 < base && base + MALLOC_C_CAPACITY <= TWO32
      ensures Valid() && first == 0 && mem.Length == 262144 && this.base == base && fresh(mem)
    {
      mem := new byte[MALLOC_C_CAPACITY](_ => 0);
      this.base, first, capacity, blocks := base, 0, 0, [];
    }

    /** The static storage of mm/heap.c. */
    constructor HeapC(base: nat)
      requires 0 < base && base + HEAP_C_CAPACITY <= TWO32
      ensures Valid() && first == 0 && mem.Length == 65536 && this.base == base && fresh(mem)
    {
      mem := new byte[HEAP_C_CAPACITY](_ => 0);
      this.base, first, capacity, blocks := base, 0, 0, [];
    }

    // -------------------------------------------------------------- header fields

    method SetSize(b: nat, size: uint32)
      requires b + HEADER <= mem.Length
      modifies mem
      ensures SizeSet(old(mem[..]), mem[..], b, size)
    {
      StoreWord(mem, b, size);
    }

    method SetUsed(b: nat, used: byte)
      requires b + HEADER <= mem.Length
      modifies mem
      ensures UsedSet(old(mem[..]), mem[..], b, used)
    {
      mem[b + 4] := used;
    }

    method SetNext(b: nat, next: uint32)
      requires b + HEADER <= mem.Length
      modifies mem
      ensures NextSet(old(mem[..]), mem[..], b, next)
    {
      StoreWord(mem, b + 8, next);
    }

    // -------------------------------------------------------------- mem_init

    method MemInit(totalRam: uint32)
      requires 0 < base && HEADER <= mem.Length && base + mem.Length <= TWO32
      modifies this, mem
      ensures Valid() && first == base
      ensures capacity == if totalRam == 0 || totalRam >= mem.Length then mem.Length
                          else if totalRam < HEADER then HEADER else totalRam
      ensures blocks == Initial(capacity).bs
    {
      var cap := mem.Length;
      if totalRam != 0 && totalRam < cap { cap := totalRam; }
      if cap < HEADER { cap := HEADER; }
      first := base;
      SetSize(0, cap - HEADER);
      ghost var m1 := mem[..];
      SetUsed(0, 0);
      ghost var m2 := mem[..];
      SetNext(0, 0);
      UsedSetHeader(m1, m2, 0, 0);
      NextSetHeader(m2, mem[..], 0, 0);
      capacity := cap;
      blocks := Initial(cap).bs;
      assert HeaderAt(mem[..], base, blocks, 0);
    }

    // -------------------------------------------------------------- kmalloc

    /** First fit: the lowest block that is free and large enough, split if the rest is worth it; null
        exactly when no block fits. */
    method Kmalloc(size: uint32) returns (ptr: nat)
      requires Valid()
      modifies this, mem
      ensures Valid() && capacity == old(capacity) && first == old(first)
      ensures blocks == Malloc(old(blocks), size)
      ensures ptr == Address(base, MallocPtr(old(blocks), size))
      ensures ptr == 0 ==> mem[..] == old(mem[..])
      ensures Keeps(old(mem[..]), mem[..], Used(old(blocks)))
    {
      KeepsAll();
      if size == 0 { return 0; }
      var request := AlignSize(size);
      AlignSizeCovers(size);
      var current := Search(request);
      if current == 0 { return 0; }
      ghost var i := FirstFit(blocks, request);
      CarveGood(blocks, capacity, i, request);
      Take(current - base, request, i);
      ptr := current + HEADER;
    }

    /** kmalloc's walk along the list. */
    method Search(request: uint32) returns (current: nat)
      requires Valid()
      ensures current == PtrAt(base, blocks, FirstFit(blocks, request))
      ensures current == 0 <==> FirstFit(blocks, request) == |blocks|
    {
      current := first;
      ghost var i := 0;
      while current != 0
        invariant i <= |blocks| && current == PtrAt(base, blocks, i)
        invariant forall j :: 0 <= j < i ==> !Fits(blocks[j], request)
        decreases |blocks| - i
      {
        var b := current - base;
        assert HeaderAt(mem[..], base, blocks, i);
        var size := FetchWord(mem, b);
        if mem[b + 4] == 0 && size >= request { break; }
        current := FetchWord(mem, b + 8);
        i := i + 1;
      }
      assert FirstFit(blocks, request) == i;
    }

    lemma KeepsAll()
      requires Valid()
      ensures Keeps(mem[..], mem[..], Used(blocks))
    {
      forall b | b in Used(blocks) ensures b.End() <= mem.Length {
        var k :| 0 <= k < |blocks| && blocks[k] == b;
        Inside(blocks, 0, capacity, k);
      }
    }

    /** The body of kmalloc's search once a block fits: split it, or take it whole. */
    method Take(b: nat, request: uint32, ghost i: nat)
      requires Inv() && i < |blocks| && blocks[i].off == b
      requires Fits(blocks[i], request) && request % 8 == 0
      modifies this, mem
      ensures Inv() && capacity == old(capacity) && first == old(first)
      ensures blocks == Carve(old(blocks), i, request)
      ensures Keeps(old(mem[..]), mem[..], Used(old(blocks)))
    {
      ghost var m, bs := mem[..], blocks;
      Bounds(m, base, capacity, bs, i, i + 1);
      assert HeaderAt(m, base, bs, i);
      var size := FetchWord(mem, b);
      if size - request >= MIN_SPLIT {
        SplitOff(b, request, size - request);
        SplitHolds(m, mem[..], base, capacity, bs, i, i + 1, request);
        blocks := Cut(bs, i, i + 1, request);
      } else {
        SetUsed(b, 1);
        MarkHolds(m, mem[..], base, capacity, bs, i, true);
        blocks := Fuse(bs, i, i + 1, true);
      }
      TookFree(m, bs, i);
    }

    lemma TookFree(m: seq<byte>, bs: seq<Block>, i: nat)
      requires WellFormed(bs, capacity) && capacity <= |m| && i < |bs| && !bs[i].used
      requires SameOutside(m, mem[..], bs[i].off, bs[i].End())
      ensures Keeps(m, mem[..], Used(bs))
    {
      KeepsOutside(m, mem[..], capacity, bs, i, i + 1);
      assert bs[i..i + 1] == [bs[i]];
    }

    /** kmalloc's stores when it splits. */
    method SplitOff(b: nat, request: uint32, leftover: uint32)
      requires b + HEADER + request + HEADER <= mem.Length && base + mem.Length <= TWO32
      requires HEADER <= leftover
      modifies mem
      ensures SplitDone(old(mem[..]), mem[..], base, b, request,
                        Header(leftover - HEADER, 0, HeaderOf(old(mem[..]), b).next))
    {
      ghost var m := mem[..];
      var split := b + HEADER + request;
      Split(split, leftover, b);
      ghost var m1 := mem[..];
      SetSize(b, request);
      ghost var m2 := mem[..];
      SetUsed(b, 1);
      ghost var m3 := mem[..];
      SetNext(b, base + split);
      RelinkDone(m, m1, m2, m3, mem[..], base, b, request, Header(leftover - HEADER, 0, HeaderOf(m, b).next));
    }

    /** split->size, split->used, split->next, in that order; the link is copied from another header. */
    method Split(split: nat, leftover: uint32, from: nat)
      requires HEADER <= leftover
      requires split + HEADER <= mem.Length
      requires from + 4 == split || from + 8 == split || from + HEADER <= split
      modifies mem
      ensures SameOutside(old(mem[..]), mem[..], split, split + HEADER)
      ensures HeaderOf(mem[..], split) == Header(leftover - HEADER, 0,
        LinkRead(HeaderOf(old(mem[..]), from).next, split - from, leftover - HEADER))
    {
      ghost var m := mem[..];
      SetSize(split, leftover - HEADER);
      ghost var m0 := mem[..];
      SetUsed(split, 0);
      ghost var m1 := mem[..];
      var link := FetchWord(mem, from + 8);
      SetNext(split, link);
      NewSplitFrame(m, m0, m1, mem[..], split, leftover - HEADER, from);
      NewSplitLink(m, m0, m1, mem[..], split, leftover - HEADER, from);
    }

    // -------------------------------------------------------------- kfree

    /** The block whose next is the given one, or null. */
    method FindPrevious(firstBlock: nat, block: nat, ghost i: nat) returns (prev: nat)
      requires Inv() && firstBlock == first
      requires i < |blocks| && block == base + blocks[i].off
      ensures prev == if i == 0 then 0 else base + blocks[i - 1].off
    {
      var current := firstBlock;
      ghost var k := 0;
      assert HeaderAt(mem[..], base, blocks, 0);
      var next := FetchWord(mem, current - base + 8);
      while next != 0 && next != block
        invariant k < |blocks| && current == base + blocks[k].off
        invariant next == PtrAt(base, blocks, k + 1)
        invariant i == 0 || k < i
        decreases |blocks| - k
      {
        current := next;
        k := k + 1;
        assert HeaderAt(mem[..], base, blocks, k);
        next := FetchWord(mem, current - base + 8);
      }
      if next == block {
        if k + 1 != i { PayloadsDisjoint(blocks, capacity, k + 1, i); }
        return current;
      }
      return 0;
    }

    /** b->size += next->size + sizeof(block_t); b->next = next->next. */
    method MergeStores(b: nat, next: nat)
      requires b + HEADER <= next && next + HEADER <= mem.Length
      requires LoadWord(mem[..], b) + LoadWord(mem[..], next) + HEADER < TWO32
      modifies mem
      ensures SameOutside(old(mem[..]), mem[..], b, b + HEADER)
      ensures HeaderOf(mem[..], b) == Header(LoadWord(old(mem[..]), b) + LoadWord(old(mem[..]), next) + HEADER,
                                             HeaderOf(old(mem[..]), b).used, HeaderOf(old(mem[..]), next).next)
    {
      ghost var m := mem[..];
      var size := FetchWord(mem, b);
      var nextSize := FetchWord(mem, next);
      SetSize(b, size + nextSize + HEADER);
      ghost var m1 := mem[..];
      SizeSetHeader(m, m1, b, size + nextSize + HEADER);
      HeaderFrame(m, m1, b, b + 4, next);
      var link := FetchWord(mem, next + 8);
      SetNext(b, link);
      NextSetHeader(m1, mem[..], b, link);
    }

    method Merge(b: nat, next: nat, ghost j: nat)
      requires Inv() && j + 1 < |blocks| && blocks[j].off == b && blocks[j + 1].off == next
      modifies `blocks, mem
      ensures Inv()
      ensures SameOutside(old(mem[..]), mem[..], b, b + HEADER)
      ensures blocks == Fuse(old(blocks), j, j + 2, old(blocks)[j].used)
    {
      ghost var m := mem[..];
      MergeReady(m, base, capacity, blocks, j);
      MergeStores(b, next);
      MergeHolds(m, mem[..], base, capacity, blocks, j);
      blocks := Fuse(blocks, j, j + 2, blocks[j].used);
    }

    // In the two steps below, blocks is bs with bs[lo..hi] already merged into the free block at b.

    method MergeWithNext(b: nat, ghost lo: nat, ghost hi: nat, ghost bs: seq<Block>)
      requires lo < hi <= |bs| && bs[lo].off == b && WellFormed(bs, capacity)
      requires Inv() && blocks == Fuse(bs, lo, hi, false)
      modifies `blocks, mem
      ensures Inv() && blocks == Fuse(bs, lo, if hi < |bs| && !bs[hi].used then hi + 1 else hi, false)
      ensures SameOutside(old(mem[..]), mem[..], b, b + HEADER)
    {
      assert HeaderAt(mem[..], base, blocks, lo);
      var next := FetchWord(mem, b + 8);
      if next != 0 {
        assert blocks[lo + 1] == bs[hi];
        assert HeaderAt(mem[..], base, blocks, lo + 1);
        if mem[next - base + 4] == 0 {
          Merge(b, next - base, lo);
          FuseThenNext(bs, lo, hi, false);
        }
      }
    }

    method MergeWithPrevious(b: nat, ghost lo: nat, ghost hi: nat, ghost bs: seq<Block>) returns (block: nat)
      requires lo < hi <= |bs| && bs[lo].off == b && WellFormed(bs, capacity)
      requires Inv() && blocks == Fuse(bs, lo, hi, false)
      modifies `blocks, mem
      ensures Inv() && blocks == Fuse(bs, Low(bs, lo), hi, false)
      ensures block == bs[Low(bs, lo)].off
      ensures SameOutside(old(mem[..]), mem[..], bs[Low(bs, lo)].off, b + HEADER)
    {
      block := b;
      var prev := FindPrevious(first, base + b, lo);
      if prev != 0 {
        assert HeaderAt(mem[..], base, blocks, lo - 1);
        if mem[prev - base + 4] == 0 {
          Ordered(bs, 0, capacity, lo - 1, lo);
          Merge(prev - base, b, lo - 1);
          FuseThenPrevious(bs, lo, hi, false);
          block := prev - base;
        }
      }
    }

    ghost predicate Freeable(ptr: nat)
      reads this
    {
      ptr == 0 || first == 0 || (base + HEADER <= ptr && Live(blocks, ptr - base - HEADER))
    }

    /** block->used = 0. */
    method Release(b: nat, ghost i: nat)
      requires Inv() && i < |blocks| && blocks[i].off == b
      modifies `blocks, mem
      ensures Inv() && blocks == Fuse(old(blocks), i, i + 1, false)
      ensures SameOutside(old(mem[..]), mem[..], b, b + HEADER)
    {
      ghost var m := mem[..];
      assert HeaderAt(m, base, blocks, i);
      SetUsed(b, 0);
      MarkHolds(m, mem[..], base, capacity, blocks, i, false);
      blocks := Fuse(blocks, i, i + 1, false);
    }

    lemma Freed(bs: seq<Block>, m: seq<byte>, i: nat)
      requires WellFormed(bs, capacity) && capacity <= |m| && i < |bs| && bs[i].used
      requires SameOutside(m, mem[..], bs[Low(bs, i)].off, bs[High(bs, i) - 1].End())
      ensures Coalesced(bs) ==> Coalesced(FreeBlock(bs, i))
      ensures Keeps(m, mem[..], Used(FreeBlock(bs, i)))
    {
      var lo, hi := Low(bs, i), High(bs, i);
      if Coalesced(bs) { FreeGood(bs, capacity, i); }
      FreeUsed(bs, capacity, i);
      KeepsOutside(m, mem[..], capacity, bs, lo, hi);
      assert Used(bs[lo..hi]) <= {bs[i]};
    }

    /** mm/malloc.c: merge with the next block first, then with the previous one. */
    method Kfree(ptr: nat)
      requires Tiled() && Freeable(ptr)
      modifies `blocks, mem
      ensures Tiled() && (old(Valid()) ==> Valid())
      ensures ptr == 0 || first == 0 ==> blocks == old(blocks) && mem[..] == old(mem[..])
      ensures ptr != 0 && first != 0 ==>
        && blocks == FreeAt(old(blocks), ptr - base - HEADER)
        && Keeps(old(mem[..]), mem[..], Used(blocks))
    {
      if ptr == 0 || first == 0 { return; }
      var b := ptr - HEADER - base;
      ghost var i, bs, m := IndexOf(blocks, b), blocks, mem[..];
      ReleaseNextFirst(b, i);
      Freed(bs, m, i);
    }

    method ReleaseNextFirst(b: nat, ghost i: nat)
      requires Inv() && i < |blocks| && blocks[i].off == b
      modifies `blocks, mem
      ensures Inv() && blocks == FreeBlock(old(blocks), i)
      ensures SameOutside(old(mem[..]), mem[..], old(blocks)[Low(old(blocks), i)].off,
                          old(blocks)[High(old(blocks), i) - 1].End())
    {
      ghost var bs := blocks;
      Release(b, i);
      MergeWithNext(b, i, i + 1, bs);
      var _ := MergeWithPrevious(b, i, High(bs, i), bs);
      FreeSpan(bs, i);
    }

    method ReleasePreviousFirst(b: nat, ghost i: nat)
      requires Inv() && i < |blocks| && blocks[i].off == b
      modifies `blocks, mem
      ensures Inv() && blocks == FreeBlock(old(blocks), i)
      ensures SameOutside(old(mem[..]), mem[..], old(blocks)[Low(old(blocks), i)].off,
                          old(blocks)[High(old(blocks), i) - 1].End())
    {
      ghost var bs := blocks;
      Release(b, i);
      var block := MergeWithPrevious(b, i, i + 1, bs);
      MergeWithNext(block, Low(bs, i), i + 1, bs);
      FreeSpan(bs, i);
    }

    /** mm/heap.c: merge with the previous block first, then with the next one; the same list results. */
    method KfreePreviousFirst(ptr: nat)
      requires Tiled() && Freeable(ptr)
      modifies `blocks, mem
      ensures Tiled() && (old(Valid()) ==> Valid())
      ensures ptr == 0 || first == 0 ==> blocks == old(blocks) && mem[..] == old(mem[..])
      ensures ptr != 0 && first != 0 ==>
        && blocks == FreeAt(old(blocks), ptr - base - HEADER)
        && Keeps(old(mem[..]), mem[..], Used(blocks))
    {
      if ptr == 0 || first == 0 { return; }
      var b := ptr - HEADER - base;
      ghost var i, bs, m := IndexOf(blocks, b), blocks, mem[..];
      ReleasePreviousFirst(b, i);
      Freed(bs, m, i);
    }

    lemma FreeSpan(bs: seq<Block>, i: nat)
      requires WellFormed(bs, capacity) && i < |bs|
      ensures bs[Low(bs, i)].off <= bs[i].off && bs[i].End() <= bs[High(bs, i) - 1].End()
    {
      if Low(bs, i) < i { Ordered(bs, 0, capacity, i - 1, i); }
      if High(bs, i) - 1 > i { Ordered(bs, 0, capacity, i, i + 1); }
    }

    // -------------------------------------------------------------- krealloc

    /** krealloc's stores when it splits: the link comes from the block itself or from the absorbed next. */
    method SplitInPlace(b: nat, request: uint32, leftover: uint32, from: nat)
      requires b + HEADER + request + HEADER <= mem.Length && base + mem.Length <= TWO32
      requires HEADER <= leftover
      requires var split := b + HEADER + request;
        from + 4 == split || from + 8 == split || from + HEADER <= split
      requires HeaderOf(mem[..], b).used == 1
      modifies mem
      ensures SplitDone(old(mem[..]), mem[..], base, b, request,
                        Header(leftover - HEADER, 0,
                               LinkRead(HeaderOf(old(mem[..]), from).next, b + HEADER + request - from,
                                        leftover - HEADER)))
    {
      ghost var m := mem[..];
      var split := b + HEADER + request;
      Split(split, leftover, from);
      ghost var m1 := mem[..];
      SetSize(b, request);
      ghost var m2 := mem[..];
      SetNext(b, base + split);
      RelinkDone(m, m1, m2, m2, mem[..], base, b, request, HeaderOf(m1, split));
    }

    /** The block is already big enough: give back what is worth splitting off. */
    method Shrink(b: nat, request: uint32, ghost i: nat)
      requires Inv() && Coalesced(blocks) && i < |blocks| && blocks[i].off == b && blocks[i].used
      requires request % 8 == 0 && request <= blocks[i].size
      modifies `blocks, mem
      ensures Inv() && Coalesced(blocks) && blocks == Resize(old(blocks), i, request)
      ensures Resized(old(mem[..]), mem[..], old(blocks), i, request)
    {
      ghost var m, bs := mem[..], blocks;
      assert HeaderAt(m, base, bs, i);
      var size := FetchWord(mem, b);
      if size - request >= MIN_SPLIT {
        ShrinkSplit(b, request, size - request, i);
        FreeSpan(bs, i);
        ResizedInPlace(m, mem[..], base, capacity, bs, i, High(bs, i), request);
      } else {
        Bounds(m, base, capacity, bs, i, i + 1);
        ResizedInPlace(m, mem[..], base, capacity, bs, i, i + 1, request);
      }
      ResizeGood(bs, capacity, i, request);
    }

    method ShrinkSplit(b: nat, request: uint32, leftover: uint32, ghost i: nat)
      requires Inv() && i < |blocks| && blocks[i].off == b && blocks[i].used
      requires request % 8 == 0 && MIN_SPLIT <= leftover == blocks[i].size - request
      modifies `blocks, mem
      ensures Room(old(blocks), i, High(old(blocks), i)) >= request + HEADER
      ensures Inv() && blocks == Cut(old(blocks), i, High(old(blocks), i), request)
      ensures SameOutside(old(mem[..]), mem[..], b, old(blocks)[i].End())
      ensures SameInside(old(mem[..]), mem[..], b + HEADER, b + HEADER + request)
    {
      ghost var m, bs := mem[..], blocks;
      Bounds(m, base, capacity, bs, i, i + 1);
      assert HeaderAt(m, base, bs, i);
      SplitInPlace(b, request, leftover, b);
      ghost var m1 := mem[..];
      SplitHolds(m, m1, base, capacity, bs, i, i + 1, request);
      blocks := Cut(bs, i, i + 1, request);
      MergeRemainder(b + HEADER + request, i, request, bs);
    }

    /** The remainder split off by a shrink merges with a free block after it. */
    method MergeRemainder(split: nat, ghost i: nat, ghost request: nat, ghost bs: seq<Block>)
      requires i < |bs| && request + MIN_SPLIT <= bs[i].size && split == bs[i].off + HEADER + request
      requires Inv() && blocks == Cut(bs, i, i + 1, request)
      modifies `blocks, mem
      ensures SameOutside(old(mem[..]), mem[..], split, split + HEADER)
      ensures Room(bs, i, High(bs, i)) >= request + HEADER
      ensures Inv() && blocks == Cut(bs, i, High(bs, i), request)
    {
      assert HeaderAt(mem[..], base, blocks, i + 1);
      var next := FetchWord(mem, split + 8);
      if next != 0 {
        assert blocks[i + 2] == bs[i + 1];
        assert HeaderAt(mem[..], base, blocks, i + 2);
        if mem[next - base + 4] == 0 {
          Merge(split, next - base, i + 1);
          CutThenNext(bs, i, request);
        }
      }
    }

    /** Absorb the next block if it is free and big enough.  The bytes hold a list afterwards exactly when
        the new header did not land on the old link. */
    method Grow(b: nat, request: uint32, ghost i: nat) returns (done: bool)
      requires Inv() && Coalesced(blocks) && i < |blocks| && blocks[i].off == b && blocks[i].used
      requires request % 8 == 0 && request > blocks[i].size
      modifies `blocks, mem
      ensures done <==> !PathOf(old(blocks), i, request).Move?
      ensures !done ==> blocks == old(blocks) && mem[..] == old(mem[..])
      ensures done ==> Resized(old(mem[..]), mem[..], old(blocks), i, request)
      ensures done && Clobbers(old(blocks), i, request, base) ==> forall cs :: !Holds(mem[..], base, capacity, cs)
      ensures done && !Clobbers(old(blocks), i, request, base) ==>
        Inv() && Coalesced(blocks) && blocks == Resize(old(blocks), i, request)
    {
      ghost var m, bs := mem[..], blocks;
      Bounds(m, base, capacity, bs, i, i + 1);
      assert HeaderAt(m, base, bs, i);
      var next := FetchWord(mem, b + 8);
      if next == 0 { return false; }
      MergeReady(m, base, capacity, bs, i);
      if mem[next - base + 4] != 0 { return false; }
      var size := FetchWord(mem, b);
      var nextSize := FetchWord(mem, next - base);
      var combined := size + HEADER + nextSize;
      if combined < request { return false; }
      done := true;
      if combined - request >= MIN_SPLIT {
        AbsorbAndSplit(b, next - base, request, combined - request, i);
      } else {
        Merge(b, next - base, i);
        ResizeGood(bs, capacity, i, request);
        ResizedInPlace(m, mem[..], base, capacity, bs, i, i + 2, request);
      }
    }

    method AbsorbAndSplit(b: nat, next: nat, request: uint32, leftover: uint32, ghost i: nat)
      requires Inv() && Coalesced(blocks) && i < |blocks| && blocks[i].off == b && blocks[i].used
      requires request % 8 == 0 && PathOf(blocks, i, request).GrowSplit?
      requires next == blocks[i + 1].off && leftover == Room(blocks, i, i + 2) - request
      modifies `blocks, mem
      ensures Resized(old(mem[..]), mem[..], old(blocks), i, request)
      ensures Clobbers(old(blocks), i, request, base) ==> forall cs :: !Holds(mem[..], base, capacity, cs)
      ensures !Clobbers(old(blocks), i, request, base) ==>
        Inv() && Coalesced(blocks) && blocks == Resize(old(blocks), i, request)
    {
      ghost var m, bs := mem[..], blocks;
      Bounds(m, base, capacity, bs, i, i + 2);
      MergeReady(m, base, capacity, bs, i);
      GrowthGap(bs, capacity, i, request);
      SplitInPlace(b, request, leftover, next);
      GrowthResized(m, mem[..], base, capacity, bs, i, request);
      GrowthBreaksChain(m, mem[..], base, capacity, bs, i, request);
      if !Clobbers(bs, i, request, base) {
        GrowthHolds(m, mem[..], base, capacity, bs, i, request);
        ResizeGood(bs, capacity, i, request);
        blocks := Cut(bs, i, i + 2, request);
      }
    }

    /** dst[i] = src[i] for the bytes of two disjoint payloads. */
    method Copy(dst: nat, src: nat, count: nat)
      requires dst + count <= mem.Length && src + count <= mem.Length
      requires dst + count <= src || src + count <= dst
      modifies mem
      ensures SameOutside(old(mem[..]), mem[..], dst, dst + count)
      ensures Moved(old(mem[..]), mem[..], src, dst, count)
    {
      ghost var m := mem[..];
      for i := 0 to count
        invariant SameOutside(m, mem[..], dst, dst + i) && Moved(m, mem[..], src, dst, i)
      {
        ghost var r := mem[..];
        mem[dst + i] := mem[src + i];
        MovedNext(m, r, mem[..], src, dst, i);
      }
    }

    /** The copy of a move: both blocks are live. */
    method CopyPayload(ptr: nat, newPtr: nat, count: nat, ghost ob: Block, ghost nb: Block)
      requires Valid() && first != 0 && ob in Used(blocks) && nb in Used(blocks) && ob != nb
      requires ptr == base + ob.Payload() && newPtr == base + nb.Payload()
      requires count <= ob.size && count <= nb.size
      modifies mem
      ensures Valid()
      ensures Keeps(old(mem[..]), mem[..], Used(blocks) - {nb})
      ensures Moved(old(mem[..]), mem[..], ob.Payload(), nb.Payload(), count)
    {
      ghost var m := mem[..];
      UsedDisjoint(blocks, capacity, ob, nb);
      UsedDisjoint(blocks, capacity, nb, ob);
      Copy(newPtr - base, ptr - base, count);
      ghost var k :| 0 <= k < |blocks| && blocks[k] == nb;
      PayloadWriteHolds(m, mem[..], base, capacity, blocks, k);
    }

    /** Copy, then free the old block. */
    method CopyThenFree(ptr: nat, newPtr: nat, count: nat, ghost ob: Block, ghost nb: Block)
      requires Valid() && first != 0 && ob in Used(blocks) && nb in Used(blocks) && ob != nb
      requires ptr == base + ob.Payload() && newPtr == base + nb.Payload()
      requires count <= ob.size && count <= nb.size
      modifies `blocks, mem
      ensures Valid()
      ensures Live(old(blocks), ob.off) && blocks == FreeAt(old(blocks), ob.off)
      ensures Keeps(old(mem[..]), mem[..], Used(old(blocks)) - {ob, nb})
      ensures Moved(old(mem[..]), mem[..], ob.Payload(), nb.Payload(), count)
    {
      ghost var m, live := mem[..], Used(blocks);
      CopyPayload(ptr, newPtr, count, ob, nb);
      ghost var m1 := mem[..];
      FreeRemoves(blocks, capacity, ob);
      Kfree(ptr);
      AfterCopy(m, m1, mem[..], live, ob, nb, count);
    }

    /** No room in place: allocate, copy, free. */
    method Move(ptr: nat, newSize: uint32, oldSize: uint32, ghost ob: Block) returns (r: nat)
      requires Valid() && first != 0 && ob in Used(blocks) && ptr == base + ob.Payload()
      requires 0 < newSize <= MAX_REQUEST && oldSize == ob.size
      modifies this, mem
      ensures Valid() && capacity == old(capacity) && first == old(first)
      ensures r == Address(base, MallocPtr(old(blocks), newSize))
      ensures r == 0 ==> blocks == old(blocks) && mem[..] == old(mem[..])
      ensures r != 0 ==> Live(Malloc(old(blocks), newSize), ob.off)
                         && blocks == FreeAt(Malloc(old(blocks), newSize), ob.off)
      ensures Keeps(old(mem[..]), mem[..], Used(old(blocks)) - {ob})
      ensures r != 0 ==> Moved(old(mem[..]), mem[..], ob.Payload(), r - base, Min(oldSize, newSize))
    {
      ghost var m, bs := mem[..], blocks;
      r := Kmalloc(newSize);
      if r != 0 {
        MoveInto(ptr, r, newSize, oldSize, ob, bs, m);
      }
    }

    /** The move once kmalloc succeeded: bs and m are the list and the bytes before it. */
    method MoveInto(ptr: nat, newPtr: nat, newSize: uint32, oldSize: uint32, ghost ob: Block,
                    ghost bs: seq<Block>, ghost m: seq<byte>)
      requires Valid() && first != 0 && Good(bs, capacity)
      requires ob in Used(bs) && ptr == base + ob.Payload() && oldSize == ob.size
      requires 0 < newSize <= MAX_REQUEST && MallocPtr(bs, newSize).At? && blocks == Malloc(bs, newSize)
      requires newPtr == Address(base, MallocPtr(bs, newSize))
      requires Keeps(m, mem[..], Used(bs))
      modifies `blocks, mem
      ensures Valid()
      ensures Live(Malloc(bs, newSize), ob.off) && blocks == FreeAt(Malloc(bs, newSize), ob.off)
      ensures Keeps(m, mem[..], Used(bs) - {ob})
      ensures Moved(m, mem[..], ob.Payload(), newPtr - base, Min(oldSize, newSize))
    {
      ghost var m1 := mem[..];
      ghost var nb := MallocAdds(bs, capacity, newSize);
      CopyThenFree(ptr, newPtr, Min(oldSize, newSize), ob, nb);
      AfterMove(m, m1, mem[..], Used(bs), ob, nb, Min(oldSize, newSize), newPtr - base);
    }

    /** The part of krealloc that keeps the block where it is. */
    method InPlace(b: nat, request: uint32, ghost i: nat) returns (done: bool)
      requires Inv() && Coalesced(blocks) && i < |blocks| && blocks[i].off == b && blocks[i].used && request % 8 == 0
      modifies `blocks, mem
      ensures done <==> !PathOf(old(blocks), i, request).Move?
      ensures !done ==> blocks == old(blocks) && mem[..] == old(mem[..])
      ensures done ==> Resized(old(mem[..]), mem[..], old(blocks), i, request)
      ensures done && Clobbers(old(blocks), i, request, base) ==> forall cs :: !Holds(mem[..], base, capacity, cs)
      ensures done && !Clobbers(old(blocks), i, request, base) ==>
        Inv() && Coalesced(blocks) && blocks == Resize(old(blocks), i, request)
    {
      assert HeaderAt(mem[..], base, blocks, i);
      var oldSize := FetchWord(mem, b);
      if request <= oldSize {
        Shrink(b, request, i);
        return true;
      }
      done := Grow(b, request, i);
    }

    /** krealloc of a live pointer to a nonzero size: in place if it can be, moved otherwise. */
    method Reallocate(ptr: nat, newSize: uint32, ghost off: nat) returns (r: nat)
      requires Valid() && first != 0 && Live(blocks, off) && ptr == base + HEADER + off && newSize != 0
      modifies this, mem
      ensures capacity == old(capacity) && first == old(first)
      ensures !Clobbers(old(blocks), IndexOf(old(blocks), off), AlignSize(newSize), base) ==>
        Valid() && Reallocated(old(mem[..]), mem[..], old(blocks), blocks, base, capacity, off, newSize, r)
      ensures Clobbers(old(blocks), IndexOf(old(blocks), off), AlignSize(newSize), base) ==>
        && r == ptr && (forall cs :: !Holds(mem[..], base, capacity, cs))
        && Resized(old(mem[..]), mem[..], old(blocks), IndexOf(old(blocks), off), AlignSize(newSize))
    {
      ghost var m, bs, i := mem[..], blocks, IndexOf(blocks, off);
      AlignSizeCovers(newSize);
      var done := InPlace(ptr - HEADER - base, AlignSize(newSize), i);
      if done {
        ReallocatedInPlace(m, mem[..], bs, base, capacity, off, newSize);
        return ptr;
      }
      r := MoveBlock(ptr, newSize, i);
    }

    method MoveBlock(ptr: nat, newSize: uint32, ghost i: nat) returns (r: nat)
      requires Valid() && first != 0 && i < |blocks| && blocks[i].used && ptr == base + blocks[i].Payload()
      requires newSize != 0 && i == IndexOf(blocks, blocks[i].off) && PathOf(blocks, i, AlignSize(newSize)).Move?
      modifies this, mem
      ensures capacity == old(capacity) && first == old(first) && Valid()
      ensures Reallocated(old(mem[..]), mem[..], old(blocks), blocks, base, capacity, old(blocks)[i].off, newSize, r)
    {
      ghost var m, bs := mem[..], blocks;
      AlignSizeCovers(newSize);
      assert HeaderAt(m, base, bs, i);
      var oldSize := FetchWord(mem, ptr - HEADER - base);
      r := Move(ptr, newSize, oldSize, blocks[i]);
      ReallocatedByMove(m, mem[..], bs, blocks, base, capacity, bs[i].off, newSize, r);
    }

    /** krealloc.  A null pointer allocates, size zero frees; otherwise the block is resized in place or
        moved.  If a growth lands its new header on the link of the block it absorbs, the bytes hold no
        list afterwards; in every other case the heap is valid. */
    method Krealloc(ptr: nat, newSize: uint32) returns (r: nat)
      requires Valid() && (ptr != 0 ==> first != 0) && Freeable(ptr)
      modifies this, mem
      ensures capacity == old(capacity) && first == old(first)
      ensures ptr == 0 ==>
        && Valid() && blocks == Malloc(old(blocks), newSize)
        && r == Address(base, MallocPtr(old(blocks), newSize))
        && Keeps(old(mem[..]), mem[..], Used(old(blocks)))
      ensures ptr != 0 && !Damages(old(blocks), ptr, newSize) ==>
        && Valid()
        && Reallocated(old(mem[..]), mem[..], old(blocks), blocks, base, capacity, ptr - base - HEADER, newSize, r)
      ensures ptr != 0 && Damages(old(blocks), ptr, newSize) ==>
        && r == ptr && (forall cs :: !Holds(mem[..], base, capacity, cs))
        && Resized(old(mem[..]), mem[..], old(blocks), IndexOf(old(blocks), ptr - base - HEADER), AlignSize(newSize))
    {
      if ptr == 0 {
        r := Kmalloc(newSize);
      } else if newSize == 0 {
        ReallocateToNothing(ptr, ptr - base - HEADER);
        r := 0;
      } else {
        r := Reallocate(ptr, newSize, ptr - base - HEADER);
      }
    }

    method ReallocateToNothing(ptr: nat, ghost off: nat)
      requires Valid() && first != 0 && Live(blocks, off) && ptr == base + HEADER + off
      modifies `blocks, mem
      ensures Valid()
      ensures Reallocated(old(mem[..]), mem[..], old(blocks), blocks, base, capacity, off, 0, 0)
    {
      FreeRemoves(blocks, capacity, blocks[IndexOf(blocks, off)]);
      Kfree(ptr);
    }

    /** Whether this call is a growth whose new header lands on the link of the block it absorbs. */
    ghost predicate Damages(bs: seq<Block>, ptr: nat, newSize: uint32) {
      && base + HEADER <= ptr && Live(bs, ptr - base - HEADER) && newSize != 0
      && Clobbers(bs, IndexOf(bs, ptr - base - HEADER), AlignSize(newSize), base)
    }

    // -------------------------------------------------------------- runs

    /** One call of a run, on the bytes: live blocks that it does not name keep their bytes, and the bytes of a
        block that it resizes are carried along. */
    method Do(call: Call, ghost s: State, ghost t: Trace)
      requires Valid() && first != 0 && s.bs == blocks && Allowed(s, call, base) && Holding(blocks, t)
      modifies this, mem
      ensures Valid() && first == old(first) && capacity == old(capacity)
      ensures blocks == Step(s, capacity, call).bs
      ensures Keeps(old(mem[..]), mem[..], Spared(s.bs, call))
      ensures Carried(old(mem[..]), mem[..], blocks, t, Follow(s.bs, call, t))
    {
      ghost var m := mem[..];
      match call
      case Kmalloc(size) =>
        var _ := Kmalloc(size);
        CarriedUnnamed(m, mem[..], s, capacity, call, t);
      case Kfree(off) =>
        DoFree(off, s);
        CarriedUnnamed(m, mem[..], s, capacity, call, t);
      case Krealloc(off, size) =>
        var r := DoRealloc(off, size, s);
        CarriedByRealloc(m, mem[..], s, base, capacity, off, size, r, t);
    }

    method DoFree(off: nat, ghost s: State)
      requires Valid() && first != 0 && s.bs == blocks && Live(s.bs, off)
      modifies `blocks, mem
      ensures Valid() && blocks == FreeAt(s.bs, off)
      ensures Keeps(old(mem[..]), mem[..], Spared(s.bs, HeapRuns.Kfree(off)))
    {
      Kfree(base + off + HEADER);
      FreeUsed(s.bs, capacity, IndexOf(s.bs, off));
    }

    method DoRealloc(off: nat, size: uint32, ghost s: State) returns (r: nat)
      requires Valid() && first != 0 && s.bs == blocks && Allowed(s, HeapRuns.Krealloc(off, size), base)
      modifies this, mem
      ensures Valid() && first == old(first) && capacity == old(capacity)
      ensures blocks == Realloc(s.bs, capacity, off, size)
      ensures Reallocated(old(mem[..]), mem[..], s.bs, blocks, base, capacity, off, size, r)
      ensures Keeps(old(mem[..]), mem[..], Spared(s.bs, HeapRuns.Krealloc(off, size)))
    {
      var ptr := base + off + HEADER;
      assert ptr - base - HEADER == off;
      r := Krealloc(ptr, size);
    }

    /** A whole run on the bytes ends with the list of the run; a block that no call names stays where it is
        and keeps its bytes throughout, and what krealloc is to keep of a block follows it wherever it moves. */
    method Execute(calls: seq<Call>, ghost s: State, ghost s': State, ghost t: Trace)
      requires Valid() && first != 0 && s.bs == blocks && Runs(s, capacity, base, calls, s') && Holding(blocks, t)
      modifies this, mem
      ensures Valid() && first == old(first) && capacity == old(capacity)
      ensures blocks == s'.bs
      ensures var kept := set b | b in Used(s.bs) && Unnamed(b, calls);
        kept <= Used(s'.bs) && Keeps(old(mem[..]), mem[..], kept)
      ensures Carried(old(mem[..]), mem[..], s'.bs, t, FollowAll(s, capacity, base, calls, s', t))
    {
      ghost var m, at, now := mem[..], s, t;
      ghost var kept := set b | b in Used(s.bs) && Unnamed(b, calls);
      KeepsAll();
      CarriedStart(m, capacity, blocks, t);
      assert calls[0..] == calls;
      for k := 0 to |calls|
        invariant Valid() && first == old(first) && first != 0 && capacity == old(capacity)
        invariant at.bs == blocks && Runs(at, capacity, base, calls[k..], s')
        invariant kept <= Used(blocks) && Keeps(m, mem[..], kept)
        invariant Carried(m, mem[..], blocks, t, now)
        invariant FollowAll(at, capacity, base, calls[k..], s', now) == FollowAll(s, capacity, base, calls, s', t)
      {
        ghost var m1, next := mem[..], Follow(at.bs, calls[k], now);
        assert calls[k..][0] == calls[k] && calls[k..][1..] == calls[k + 1..];
        Do(calls[k], at, now);
        StillKept(m, m1, mem[..], at, capacity, calls, k, kept);
        CarriedChain(m, m1, mem[..], blocks, t, now, next);
        at, now := Step(at, capacity, calls[k]), next;
      }
    }
  }
}
