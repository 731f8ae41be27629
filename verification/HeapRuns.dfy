/** Theorems about the allocator's block list: the live blocks each call leaves,
    runs of calls, freeing everything, and kfree undoing kmalloc. */
module HeapRuns {
  import opened Memory
  import opened BlockList

  // ---------------------------------------------------------------- live blocks

  ghost function Used(bs: seq<Block>): (s: set<Block>) {
    set b | b in bs && b.used
  }

  /** Replacing bs[lo..hi] changes which blocks are live only inside the bytes they cover. */
  lemma SpliceUsed(bs: seq<Block>, capacity: nat, lo: nat, hi: nat, mid: seq<Block>)
    requires WellFormed(bs, capacity)
    requires lo < hi <= |bs|
    ensures Used(Splice(bs, lo, hi, mid)) == Used(mid) + (Used(bs) - Used(bs[lo..hi]))
  {
    var r := Splice(bs, lo, hi, mid);
    forall b | b in Used(r)
      ensures b in Used(mid) + (Used(bs) - Used(bs[lo..hi]))
    {
      UsedAfterSplice(bs, capacity, lo, hi, mid, b);
    }
    forall b | b in Used(bs) && b !in Used(bs[lo..hi])
      ensures b in Used(r)
    {
      var k :| 0 <= k < |bs| && bs[k] == b;
      assert r[if k < lo then k else k - hi + lo + |mid|] == b;
    }
    forall b | b in Used(mid) ensures b in Used(r) {
      var k :| 0 <= k < |mid| && mid[k] == b;
      assert r[lo + k] == b;
    }
  }

  lemma UsedAfterSplice(bs: seq<Block>, capacity: nat, lo: nat, hi: nat, mid: seq<Block>, b: Block)
    requires WellFormed(bs, capacity)
    requires lo < hi <= |bs|
    requires b in Used(Splice(bs, lo, hi, mid))
    ensures b in Used(mid) || (b in Used(bs) && b !in bs[lo..hi])
  {
    var r := Splice(bs, lo, hi, mid);
    var k :| 0 <= k < |r| && r[k] == b;
    if !(lo <= k < lo + |mid|) {
      var k' := if k < lo then k else k - |mid| - lo + hi;
      assert b == bs[k'];
      if b in bs[lo..hi] {
        var j :| lo <= j < hi && bs[j] == b;
        PayloadsDisjoint(bs, capacity, k', j);
      }
    }
  }

  lemma CarveUsed(bs: seq<Block>, capacity: nat, i: nat, request: nat)
    requires WellFormed(bs, capacity)
    requires i < |bs| && Fits(bs[i], request)
    ensures var b := Carve(bs, i, request)[i];
      && b.off == bs[i].off && request <= b.size < request + 28 && b.used
      && b.size == (if bs[i].size - request >= 28 then request else bs[i].size)
      && Used(Carve(bs, i, request)) == Used(bs) + {b}
      && forall u :: u in Used(bs) ==> u.off != b.off
  {
    var r := Carve(bs, i, request);
    var mid := if bs[i].size - request >= MIN_SPLIT then r[i..i + 2] else r[i..i + 1];
    assert r == Splice(bs, i, i + 1, mid);
    SpliceUsed(bs, capacity, i, i + 1, mid);
    assert bs[i..i + 1] == [bs[i]];
    forall u | u in Used(bs) ensures u.off != r[i].off {
      var k :| 0 <= k < |bs| && bs[k] == u;
      PayloadsDisjoint(bs, capacity, i, k);
    }
  }

  lemma FreeUsed(bs: seq<Block>, capacity: nat, i: nat)
    requires WellFormed(bs, capacity)
    requires i < |bs| && bs[i].used
    ensures Used(FreeBlock(bs, i)) == Used(bs) - {bs[i]}
  {
    var lo, hi := Low(bs, i), High(bs, i);
    SpliceUsed(bs, capacity, lo, hi, [Block(bs[lo].off, Room(bs, lo, hi), false)]);
    assert Used(bs[lo..hi]) == {bs[i]} by {
      assert bs[lo..hi][i - lo] == bs[i];
    }
  }

  lemma ResizeUsed(bs: seq<Block>, capacity: nat, i: nat, request: nat)
    requires WellFormed(bs, capacity)
    requires i < |bs| && bs[i].used && !PathOf(bs, i, request).Move?
    ensures var r := Resize(bs, i, request);
      && |r| > i && r[i].off == bs[i].off && r[i].used && request <= r[i].size < request + 28
      && Used(r) == Used(bs) - {bs[i]} + {r[i]}
    ensures request <= bs[i].size ==>
      Resize(bs, i, request)[i].size == if bs[i].size - request >= 28 then request else bs[i].size
    ensures request > bs[i].size ==>
      && i + 1 < |bs|
      && var room := bs[i].size + 12 + bs[i + 1].size;
         Resize(bs, i, request)[i].size == if room - request >= 28 then request else room
  {
    if i + 1 < |bs| { assert Room(bs, i, i + 2) == bs[i].size + HEADER + Room(bs, i + 1, i + 2); }
    match PathOf(bs, i, request)
    case Keep =>
    case Shrink => OneReplaced(bs, capacity, i, High(bs, i), Cut(bs, i, High(bs, i), request)[i..i + 2]);
    case GrowSplit => OneReplaced(bs, capacity, i, i + 2, Cut(bs, i, i + 2, request)[i..i + 2]);
    case GrowAll => OneReplaced(bs, capacity, i, i + 2, Fuse(bs, i, i + 2, true)[i..i + 1]);
  }

  /** One live block, perhaps with a free one after it, gives way to one live block, perhaps with a free one
      after it. */
  lemma OneReplaced(bs: seq<Block>, capacity: nat, i: nat, hi: nat, mid: seq<Block>)
    requires WellFormed(bs, capacity)
    requires i < hi <= |bs| && hi <= i + 2 && bs[i].used && (hi == i + 2 ==> !bs[i + 1].used)
    requires 0 < |mid| <= 2 && mid[0].used && (|mid| == 2 ==> !mid[1].used)
    ensures Used(Splice(bs, i, hi, mid)) == Used(bs) - {bs[i]} + {mid[0]}
  {
    SpliceUsed(bs, capacity, i, hi, mid);
    assert Used(bs[i..hi]) == {bs[i]} by { assert bs[i..hi][0] == bs[i]; }
    assert Used(mid) == {mid[0]};
  }

  lemma IndexFound(bs: seq<Block>, capacity: nat, i: nat)
    requires WellFormed(bs, capacity) && i < |bs|
    ensures IndexOf(bs, bs[i].off) == i
  {
    var k := IndexOf(bs, bs[i].off);
    if k != i { PayloadsDisjoint(bs, capacity, i, k); }
  }

  lemma UsedDisjoint(bs: seq<Block>, capacity: nat, b: Block, c: Block)
    requires WellFormed(bs, capacity)
    requires b in Used(bs) && c in Used(bs) && b != c
    ensures b.End() <= capacity && (b.End() <= c.off || c.End() <= b.off)
  {
    var i :| 0 <= i < |bs| && bs[i] == b;
    var j :| 0 <= j < |bs| && bs[j] == c;
    PayloadsDisjoint(bs, capacity, i, j);
  }

  lemma LiveIsUsed(bs: seq<Block>, capacity: nat, off: nat)
    requires WellFormed(bs, capacity)
    ensures Live(bs, off) <==> exists b :: b in Used(bs) && b.off == off
  {
    if b :| b in Used(bs) && b.off == off {
      var k :| 0 <= k < |bs| && bs[k] == b;
      IndexFound(bs, capacity, k);
    }
    if Live(bs, off) {
      assert bs[IndexOf(bs, off)] in Used(bs);
    }
  }

  lemma FreeRemoves(bs: seq<Block>, capacity: nat, b: Block)
    requires WellFormed(bs, capacity) && b in Used(bs)
    ensures Live(bs, b.off) && Used(FreeAt(bs, b.off)) == Used(bs) - {b}
  {
    var i :| 0 <= i < |bs| && bs[i] == b;
    IndexFound(bs, capacity, i);
    FreeUsed(bs, capacity, i);
  }

  // ---------------------------------------------------------------- kfree undoes kmalloc

  /** On a coalesced heap, freeing what kmalloc just handed out restores the list. */
  lemma FreeUndoesMalloc(bs: seq<Block>, capacity: nat, i: nat, request: nat)
    requires Good(bs, capacity)
    requires i < |bs| && Fits(bs[i], request)
    ensures FreeBlock(Carve(bs, i, request), i) == bs
  {
    var r := Carve(bs, i, request);
    assert 0 < i ==> r[i - 1] == bs[i - 1] && Separate(bs, i - 1);
    assert Low(r, i) == i;
    if bs[i].size - request >= MIN_SPLIT {
      assert High(r, i) == i + 2;
      assert Room(r, i, i + 2) == r[i].size + HEADER + Room(r, i + 1, i + 2) == bs[i].size;
      assert r[..i] == bs[..i] && r[i + 2..] == bs[i + 1..];
      assert bs == bs[..i] + [bs[i]] + bs[i + 1..];
    } else {
      assert i + 1 < |bs| ==> r[i + 1] == bs[i + 1] && Separate(bs, i);
      assert r[..i] == bs[..i] && r[i + 1..] == bs[i + 1..];
      assert bs == bs[..i] + [bs[i]] + bs[i + 1..];
    }
  }

  // ---------------------------------------------------------------- the calls

  /** What a call returns: a null pointer, or the block at an offset. */
  datatype Ptr = Null | At(off: nat)

  function MallocPtr(bs: seq<Block>, size: uint32): (p: Ptr) {
    if size == 0 then Null
    else
      var i := FirstFit(bs, AlignSize(size));
      if i < |bs| then At(bs[i].off) else Null
  }

  function Malloc(bs: seq<Block>, size: uint32): (r: seq<Block>) {
    if MallocPtr(bs, size).Null? then bs else Carve(bs, FirstFit(bs, AlignSize(size)), AlignSize(size))
  }

  /** A successful kmalloc adds one live block, at a new place; it is as long as asked exactly when the
      rounding did not wrap. */
  lemma MallocAdds(bs: seq<Block>, capacity: nat, size: uint32) returns (b: Block)
    requires Good(bs, capacity) && MallocPtr(bs, size).At?
    ensures b.off == MallocPtr(bs, size).off && b.used && b !in Used(bs)
    ensures size <= MAX_REQUEST ==> size <= b.size
    ensures capacity <= MAX_REQUEST && size > MAX_REQUEST ==> b.size < size
    ensures Used(Malloc(bs, size)) == Used(bs) + {b}
    ensures exists c :: c in bs && !c.used && c.off == b.off && c.size >= AlignSize(size)
                        && b.size == if c.size - AlignSize(size) >= 28 then AlignSize(size) else c.size
  {
    var i := FirstFit(bs, AlignSize(size));
    assert bs[i] in bs;
    AlignSizeCovers(size);
    CarveUsed(bs, capacity, i, AlignSize(size));
    CarveWellFormed(bs, capacity, i, AlignSize(size));
    Inside(Carve(bs, i, AlignSize(size)), 0, capacity, i);
    b := Carve(bs, i, AlignSize(size))[i];
  }

  /** kmalloc fails exactly when the size is zero or no free block is as large as the size rounded up, and
      otherwise takes the lowest-addressed one that is. */
  lemma MallocChoice(bs: seq<Block>, capacity: nat, size: uint32)
    requires WellFormed(bs, capacity)
    ensures MallocPtr(bs, size).Null? <==> size == 0 || forall b :: b in bs ==> b.used || b.size < AlignSize(size)
    ensures MallocPtr(bs, size).At? ==>
      && (exists b :: b in bs && !b.used && b.size >= AlignSize(size) && b.off == MallocPtr(bs, size).off)
      && (forall b :: b in bs && !b.used && b.size >= AlignSize(size) ==> MallocPtr(bs, size).off <= b.off)
  {
    if size == 0 { return; }
    var i := FirstFit(bs, AlignSize(size));
    if i < |bs| {
      assert bs[i] in bs;
      forall b | b in bs && Fits(b, AlignSize(size)) ensures bs[i].off <= b.off {
        var k :| 0 <= k < |bs| && bs[k] == b;
        if i < k { Ordered(bs, 0, capacity, i, k); }
      }
    }
  }

  /** krealloc of the live block at off. */
  function ReallocPtr(bs: seq<Block>, off: nat, size: uint32): (p: Ptr)
    requires Live(bs, off)
  {
    if size == 0 then Null
    else if PathOf(bs, IndexOf(bs, off), AlignSize(size)).Move? then MallocPtr(bs, size)
    else At(off)
  }

  ghost function Realloc(bs: seq<Block>, capacity: nat, off: nat, size: uint32): (r: seq<Block>)
    requires WellFormed(bs, capacity) && Live(bs, off)
  {
    if size == 0 then FreeAt(bs, off)
    else if !PathOf(bs, IndexOf(bs, off), AlignSize(size)).Move? then
      Resize(bs, IndexOf(bs, off), AlignSize(size))
    else if ReallocPtr(bs, off, size).Null? then bs
    else
      StillLive(bs, capacity, off, size);
      FreeAt(Malloc(bs, size), off)
  }

  /** A block resized in place still has room for the bytes krealloc is to keep exactly when the rounding did
      not wrap or there was too little to give back. */
  lemma PrefixFits(bs: seq<Block>, capacity: nat, i: nat, size: uint32)
    requires WellFormed(bs, capacity) && capacity < TWO32
    requires i < |bs| && bs[i].used && size != 0 && !PathOf(bs, i, AlignSize(size)).Move?
    ensures |Resize(bs, i, AlignSize(size))| > i
    ensures Resize(bs, i, AlignSize(size))[i].size >= Min(bs[i].size, size)
       <==> size <= MAX_REQUEST || bs[i].size < MIN_SPLIT
  {
    AlignSizeCovers(size);
    Inside(bs, 0, capacity, i);
    ResizeUsed(bs, capacity, i, AlignSize(size));
  }

  /** The block can take the size where it is: it is long enough, or with the free block after it. */
  predicate FitsInPlace(bs: seq<Block>, i: nat, request: nat)
    requires i < |bs|
  {
    || request <= bs[i].size
    || (i + 1 < |bs| && !bs[i + 1].used && bs[i].size + 12 + bs[i + 1].size >= request)
  }

  /** krealloc of a live pointer returns it again exactly when the block can take the nonzero size where it is;
      it returns null exactly for size zero or when neither that block nor any free one is large enough;
      otherwise it returns the lowest free block that is. */
  lemma ReallocChoice(bs: seq<Block>, capacity: nat, off: nat, size: uint32)
    requires WellFormed(bs, capacity) && Live(bs, off)
    ensures var p, stays := ReallocPtr(bs, off, size), FitsInPlace(bs, IndexOf(bs, off), AlignSize(size));
      && (p == At(off) <==> size != 0 && stays)
      && (p.Null? <==> size == 0 || (!stays && forall c :: c in bs ==> c.used || c.size < AlignSize(size)))
      && (p.At? && !stays ==>
           && (exists c :: c in bs && !c.used && c.size >= AlignSize(size) && c.off == p.off)
           && (forall c :: c in bs && !c.used && c.size >= AlignSize(size) ==> p.off <= c.off))
  {
    var i := IndexOf(bs, off);
    if i + 1 < |bs| { assert Room(bs, i, i + 2) == bs[i].size + HEADER + Room(bs, i + 1, i + 2); }
    MallocChoice(bs, capacity, size);
    FreshPointer(bs, capacity, off, size);
  }

  lemma MallocGood(bs: seq<Block>, capacity: nat, size: uint32)
    requires Good(bs, capacity)
    ensures Good(Malloc(bs, size), capacity)
  {
    if MallocPtr(bs, size).At? {
      CarveGood(bs, capacity, FirstFit(bs, AlignSize(size)), AlignSize(size));
    }
  }

  lemma StillLive(bs: seq<Block>, capacity: nat, off: nat, size: uint32)
    requires WellFormed(bs, capacity) && Live(bs, off)
    ensures WellFormed(Malloc(bs, size), capacity)
    ensures Live(Malloc(bs, size), off)
    ensures Malloc(bs, size)[IndexOf(Malloc(bs, size), off)] == bs[IndexOf(bs, off)]
  {
    if MallocPtr(bs, size).At? {
      var i := FirstFit(bs, AlignSize(size));
      CarveWellFormed(bs, capacity, i, AlignSize(size));
      CarveUsed(bs, capacity, i, AlignSize(size));
      BlockStays(bs, Malloc(bs, size), capacity, off);
    }
  }

  lemma BlockStays(bs: seq<Block>, r: seq<Block>, capacity: nat, off: nat)
    requires WellFormed(r, capacity)
    requires Live(bs, off) && Used(bs) <= Used(r)
    ensures Live(r, off) && r[IndexOf(r, off)] == bs[IndexOf(bs, off)]
  {
    var b := bs[IndexOf(bs, off)];
    assert b in Used(bs);
    var k :| 0 <= k < |r| && r[k] == b;
    IndexFound(r, capacity, k);
  }

  /** kfree right after a successful kmalloc restores the list, whether or not a block was split. */
  lemma FreeAfterMalloc(bs: seq<Block>, capacity: nat, size: uint32)
    requires Good(bs, capacity) && MallocPtr(bs, size).At?
    ensures Live(Malloc(bs, size), MallocPtr(bs, size).off)
    ensures FreeAt(Malloc(bs, size), MallocPtr(bs, size).off) == bs
  {
    var i := FirstFit(bs, AlignSize(size));
    CarveWellFormed(bs, capacity, i, AlignSize(size));
    CarveUsed(bs, capacity, i, AlignSize(size));
    IndexFound(Malloc(bs, size), capacity, i);
    FreeUndoesMalloc(bs, capacity, i, AlignSize(size));
  }

  // ---------------------------------------------------------------- runs

  datatype Call = Kmalloc(size: uint32) | Kfree(off: nat) | Krealloc(off: nat, size: uint32)

  /** The heap together with the size the client last asked for at each live pointer. */
  datatype State = State(bs: seq<Block>, asked: map<nat, uint32>)

  /** The split header of an in-place growth lands on the header of the block it absorbs, in a
      way that damages the link (see HeapBytes.GrowthBreaksChain). */
  predicate Clobbers(bs: seq<Block>, i: nat, request: nat, base: nat)
    requires i < |bs|
  {
    && PathOf(bs, i, request).GrowSplit?
    && (|| request - bs[i].size == 8
        || (request - bs[i].size == 4 && i + 2 < |bs| && (base + bs[i + 2].off) % 0x100 != 0))
  }

  /** Only live pointers are passed, and no growth damages a header. */
  predicate Allowed(s: State, call: Call, base: nat) {
    match call
    case Kmalloc(_) => true
    case Kfree(off) => Live(s.bs, off)
    case Krealloc(off, size) =>
      Live(s.bs, off) && (size != 0 ==> !Clobbers(s.bs, IndexOf(s.bs, off), AlignSize(size), base))
  }

  ghost function Step(s: State, capacity: nat, call: Call): (r: State)
    requires WellFormed(s.bs, capacity)
    requires !call.Kmalloc? ==> Live(s.bs, call.off)
  {
    match call
    case Kmalloc(size) =>
      var p := MallocPtr(s.bs, size);
      State(Malloc(s.bs, size), if p.At? then s.asked[p.off := size] else s.asked)
    case Kfree(off) =>
      State(FreeAt(s.bs, off), s.asked - {off})
    case Krealloc(off, size) =>
      var p := ReallocPtr(s.bs, off, size);
      State(Realloc(s.bs, capacity, off, size),
            if p.At? then (s.asked - {off})[p.off := size]
            else if size == 0 then s.asked - {off}
            else s.asked)
  }

  /** The client's record names exactly the live blocks, and each is as long as was asked. */
  ghost predicate Recorded(live: set<Block>, asked: map<nat, uint32>) {
    && (forall b :: b in live ==> b.off in asked && (asked[b.off] <= MAX_REQUEST ==> asked[b.off] <= b.size))
    && (forall off :: off in asked ==> exists b :: b in live && b.off == off)
    && (forall b, c :: b in live && c in live && b.off == c.off ==> b == c)
  }

  ghost predicate Sound(s: State, capacity: nat) {
    Good(s.bs, capacity) && Recorded(Used(s.bs), s.asked)
  }

  lemma RecordRemoved(live: set<Block>, asked: map<nat, uint32>, b: Block)
    requires Recorded(live, asked) && b in live
    ensures Recorded(live - {b}, asked - {b.off})
  {
  }

  lemma RecordAdded(live: set<Block>, asked: map<nat, uint32>, b: Block, size: uint32)
    requires Recorded(live, asked)
    requires forall c :: c in live ==> c.off != b.off
    requires size <= MAX_REQUEST ==> size <= b.size
    ensures Recorded(live + {b}, asked[b.off := size])
  {
    var now := asked[b.off := size];
    forall off | off in now
      ensures exists c :: c in live + {b} && c.off == off
    {
      if off == b.off { assert b in live + {b}; }
    }
  }

  /** Every call on live pointers keeps the heap tiled, coalesced and as long as asked. */
  lemma StepSound(s: State, capacity: nat, call: Call)
    requires Sound(s, capacity)
    requires !call.Kmalloc? ==> Live(s.bs, call.off)
    ensures Sound(Step(s, capacity, call), capacity)
  {
    match call
    case Kmalloc(size) =>
      MallocSound(s, capacity, size);
    case Kfree(off) =>
      FreeRecorded(s, capacity, off);
    case Krealloc(off, size) =>
      if size == 0 {
        FreeRecorded(s, capacity, off);
      } else if !PathOf(s.bs, IndexOf(s.bs, off), AlignSize(size)).Move? {
        ResizeRecorded(s, capacity, off, size);
      } else if ReallocPtr(s.bs, off, size).At? {
        MallocSound(s, capacity, size);
        StillLive(s.bs, capacity, off, size);
        FreshPointer(s.bs, capacity, off, size);
        MoveRecorded(s, capacity, off, MallocPtr(s.bs, size).off, size, Step(s, capacity, Kmalloc(size)));
      }
  }

  lemma ResizeRecorded(s: State, capacity: nat, off: nat, size: uint32)
    requires Sound(s, capacity) && Live(s.bs, off) && size != 0
    requires !PathOf(s.bs, IndexOf(s.bs, off), AlignSize(size)).Move?
    ensures Sound(State(Resize(s.bs, IndexOf(s.bs, off), AlignSize(size)), (s.asked - {off})[off := size]), capacity)
  {
    var i := IndexOf(s.bs, off);
    AlignSizeCovers(size);
    ResizeGood(s.bs, capacity, i, AlignSize(size));
    ResizeUsed(s.bs, capacity, i, AlignSize(size));
    RecordRemoved(Used(s.bs), s.asked, s.bs[i]);
    RecordAdded(Used(s.bs) - {s.bs[i]}, s.asked - {off}, Resize(s.bs, i, AlignSize(size))[i], size);
  }

  lemma RemoveThenSet(asked: map<nat, uint32>, off: nat, p: nat, size: uint32)
    requires p != off
    ensures asked[p := size] - {off} == (asked - {off})[p := size]
  {
  }

  /** The middle of a move: both blocks are live. */
  lemma MoveRecorded(s: State, capacity: nat, off: nat, p: nat, size: uint32, both: State)
    requires Sound(both, capacity) && Live(both.bs, off) && p != off
    requires both.asked == s.asked[p := size]
    ensures Sound(State(FreeAt(both.bs, off), (s.asked - {off})[p := size]), capacity)
  {
    FreeRecorded(both, capacity, off);
    RemoveThenSet(s.asked, off, p, size);
  }

  lemma FreshPointer(bs: seq<Block>, capacity: nat, off: nat, size: uint32)
    requires WellFormed(bs, capacity) && Live(bs, off)
    ensures MallocPtr(bs, size) != At(off)
  {
    if MallocPtr(bs, size).At? {
      IndexFound(bs, capacity, FirstFit(bs, AlignSize(size)));
    }
  }

  lemma MallocSound(s: State, capacity: nat, size: uint32)
    requires Sound(s, capacity)
    ensures Sound(Step(s, capacity, Kmalloc(size)), capacity)
  {
    MallocGood(s.bs, capacity, size);
    if MallocPtr(s.bs, size).At? {
      var i := FirstFit(s.bs, AlignSize(size));
      CarveUsed(s.bs, capacity, i, AlignSize(size));
      AlignSizeCovers(size);
      RecordAdded(Used(s.bs), s.asked, Malloc(s.bs, size)[i], size);
    }
  }

  lemma FreeRecorded(s: State, capacity: nat, off: nat)
    requires Sound(s, capacity) && Live(s.bs, off)
    ensures Sound(State(FreeAt(s.bs, off), s.asked - {off}), capacity)
  {
    var i := IndexOf(s.bs, off);
    FreeGood(s.bs, capacity, i);
    FreeUsed(s.bs, capacity, i);
    RecordRemoved(Used(s.bs), s.asked, s.bs[i]);
  }

  function Initial(capacity: nat): (s: State)
    requires capacity >= HEADER
  {
    State([Block(0, capacity - HEADER, false)], map[])
  }

  /** The live blocks the call does not name. */
  ghost function Spared(bs: seq<Block>, call: Call): (s: set<Block>) {
    set b | b in Used(bs) && (call.Kmalloc? || b.off != call.off)
  }

  /** No call names the block. */
  ghost predicate Unnamed(b: Block, calls: seq<Call>) {
    forall i :: 0 <= i < |calls| ==> calls[i].Kmalloc? || calls[i].off != b.off
  }

  lemma ReallocUsed(bs: seq<Block>, capacity: nat, off: nat, size: uint32)
    requires WellFormed(bs, capacity) && Live(bs, off)
    ensures Used(bs) - {bs[IndexOf(bs, off)]} <= Used(Realloc(bs, capacity, off, size))
  {
    var i := IndexOf(bs, off);
    if size == 0 {
      FreeUsed(bs, capacity, i);
    } else if !PathOf(bs, i, AlignSize(size)).Move? {
      ResizeUsed(bs, capacity, i, AlignSize(size));
    } else if MallocPtr(bs, size).At? {
      StillLive(bs, capacity, off, size);
      CarveUsed(bs, capacity, FirstFit(bs, AlignSize(size)), AlignSize(size));
      FreeUsed(Malloc(bs, size), capacity, IndexOf(Malloc(bs, size), off));
    }
  }

  /** A call leaves every live block it does not name where it is and as long as it is. */
  lemma SparedStay(s: State, capacity: nat, call: Call)
    requires WellFormed(s.bs, capacity) && (!call.Kmalloc? ==> Live(s.bs, call.off))
    ensures Spared(s.bs, call) <= Used(Step(s, capacity, call).bs)
  {
    match call
    case Kmalloc(size) =>
      if MallocPtr(s.bs, size).At? {
        CarveUsed(s.bs, capacity, FirstFit(s.bs, AlignSize(size)), AlignSize(size));
      }
    case Kfree(off) => FreeUsed(s.bs, capacity, IndexOf(s.bs, off));
    case Krealloc(off, size) => ReallocUsed(s.bs, capacity, off, size);
  }

  /** Where the first bytes of a client's block are, and how many of them are still kept. */
  datatype Trace = Gone | Kept(off: nat, count: nat)

  /** The traced bytes are in a live block. */
  ghost predicate Holding(bs: seq<Block>, t: Trace) {
    t.Kept? ==> Live(bs, t.off) && t.count <= bs[IndexOf(bs, t.off)].size
  }

  /** A call moves the trace on: krealloc keeps as much as fits the new size, wherever the block then is, unless
      the size wraps and the block is cut down to nothing. */
  ghost function Follow(bs: seq<Block>, call: Call, t: Trace): (r: Trace) {
    if t.Gone? || !Live(bs, t.off) then Gone
    else if call.Kmalloc? || call.off != t.off then t
    else if call.Kfree? || call.size == 0 then Gone
    else
      match ReallocPtr(bs, t.off, call.size)
      case Null => t
      case At(p) =>
        if call.size <= MAX_REQUEST || bs[IndexOf(bs, t.off)].size < MIN_SPLIT then Kept(p, Min(t.count, call.size))
        else Gone
  }

  ghost function FollowAll(s: State, capacity: nat, base: nat, calls: seq<Call>, s': State, t: Trace): (r: Trace)
    requires Runs(s, capacity, base, calls, s')
    decreases |calls|
  {
    if calls == [] then t
    else FollowAll(Step(s, capacity, calls[0]), capacity, base, calls[1..], s', Follow(s.bs, calls[0], t))
  }

  /** The block a successful krealloc returns has room for the bytes it is to keep. */
  lemma ReallocHolds(bs: seq<Block>, capacity: nat, off: nat, size: uint32)
    requires Good(bs, capacity) && capacity < TWO32 && Live(bs, off) && size != 0 && ReallocPtr(bs, off, size).At?
    requires size <= MAX_REQUEST || bs[IndexOf(bs, off)].size < MIN_SPLIT
    ensures Holding(Realloc(bs, capacity, off, size),
                    Kept(ReallocPtr(bs, off, size).off, Min(bs[IndexOf(bs, off)].size, size)))
  {
    var i := IndexOf(bs, off);
    AlignSizeCovers(size);
    if !PathOf(bs, i, AlignSize(size)).Move? {
      PrefixFits(bs, capacity, i, size);
      ResizeUsed(bs, capacity, i, AlignSize(size));
      ResizeGood(bs, capacity, i, AlignSize(size));
      IndexFound(Resize(bs, i, AlignSize(size)), capacity, i);
    } else {
      MoveHolds(bs, capacity, off, size);
    }
  }

  lemma FollowNamed(bs: seq<Block>, capacity: nat, size: uint32, t: Trace)
    requires Good(bs, capacity) && capacity < TWO32 && t.Kept? && Holding(bs, t) && size != 0
    requires ReallocPtr(bs, t.off, size).At? && Follow(bs, Krealloc(t.off, size), t).Kept?
    ensures Holding(Realloc(bs, capacity, t.off, size), Follow(bs, Krealloc(t.off, size), t))
  {
    ReallocHolds(bs, capacity, t.off, size);
  }

  lemma FollowUnnamed(s: State, capacity: nat, call: Call, t: Trace)
    requires WellFormed(s.bs, capacity) && t.Kept? && Holding(s.bs, t)
    requires if call.Kmalloc? then true else Live(s.bs, call.off) && call.off != t.off
    requires WellFormed(Step(s, capacity, call).bs, capacity)
    ensures s.bs[IndexOf(s.bs, t.off)] in Spared(s.bs, call) && Holding(Step(s, capacity, call).bs, t)
  {
    var b := s.bs[IndexOf(s.bs, t.off)];
    assert b in Spared(s.bs, call);
    SparedStay(s, capacity, call);
    UsedFound(Step(s, capacity, call).bs, capacity, b);
  }

  lemma MoveHolds(bs: seq<Block>, capacity: nat, off: nat, size: uint32)
    requires Good(bs, capacity) && Live(bs, off) && 0 < size <= MAX_REQUEST && MallocPtr(bs, size).At?
    ensures Live(Malloc(bs, size), off)
    ensures Holding(FreeAt(Malloc(bs, size), off), Kept(MallocPtr(bs, size).off, size))
  {
    var b := MallocAdds(bs, capacity, size);
    StillLive(bs, capacity, off, size);
    FreshPointer(bs, capacity, off, size);
    var both := Malloc(bs, size);
    MallocGood(bs, capacity, size);
    FreeUsed(both, capacity, IndexOf(both, off));
    FreeGood(both, capacity, IndexOf(both, off));
    UsedFound(FreeAt(both, off), capacity, b);
  }

  lemma UsedFound(bs: seq<Block>, capacity: nat, b: Block)
    requires WellFormed(bs, capacity) && b in Used(bs)
    ensures Live(bs, b.off) && bs[IndexOf(bs, b.off)] == b
  {
    var k :| 0 <= k < |bs| && bs[k] == b;
    IndexFound(bs, capacity, k);
  }

  /** s' is reached from s by the calls, each allowed where it is made. */
  ghost predicate Runs(s: State, capacity: nat, base: nat, calls: seq<Call>, s': State)
    decreases |calls|
  {
    if calls == [] then s == s'
    else
      && WellFormed(s.bs, capacity)
      && Allowed(s, calls[0], base)
      && Runs(Step(s, capacity, calls[0]), capacity, base, calls[1..], s')
  }

  /** Every run keeps the heap tiled, coalesced and as long as asked. */
  lemma {:induction false} RunSound(s: State, capacity: nat, base: nat, calls: seq<Call>, s': State)
    requires Sound(s, capacity)
    requires Runs(s, capacity, base, calls, s')
    ensures Sound(s', capacity)
    decreases |calls|
  {
    if calls != [] {
      StepSound(s, capacity, calls[0]);
      RunSound(Step(s, capacity, calls[0]), capacity, base, calls[1..], s');
    }
  }

  lemma ReachableSound(capacity: nat, base: nat, calls: seq<Call>, s: State)
    requires capacity >= HEADER
    requires Runs(Initial(capacity), capacity, base, calls, s)
    ensures Good(s.bs, capacity)
    ensures forall b :: b in Used(s.bs) ==>
      b.off in s.asked && (s.asked[b.off] <= MAX_REQUEST ==> s.asked[b.off] <= b.size)
  {
    RunSound(Initial(capacity), capacity, base, calls, s);
  }

  // ---------------------------------------------------------------- freeing everything

  ghost predicate Enumerates(order: seq<nat>, live: set<Block>) {
    && (forall i, j :: 0 <= i < j < |order| ==> order[i] != order[j])
    && (forall b :: b in live ==> b.off in order)
    && (forall off :: off in order ==> exists b :: b in live && b.off == off)
  }

  /** Calling kfree on every pointer of the sequence in turn. */
  ghost predicate FreesTo(bs: seq<Block>, order: seq<nat>, r: seq<Block>)
    decreases |order|
  {
    if order == [] then r == bs
    else Live(bs, order[0]) && FreesTo(FreeAt(bs, order[0]), order[1..], r)
  }

  lemma OneOfTwoUsed(bs: seq<Block>)
    requires Coalesced(bs) && |bs| > 1
    ensures Used(bs) != {}
  {
    assert Separate(bs, 0);
    assert bs[0] in Used(bs) || bs[1] in Used(bs);
  }

  lemma NothingLive(bs: seq<Block>, capacity: nat)
    requires Good(bs, capacity) && Used(bs) == {}
    ensures bs == [Block(0, capacity - HEADER, false)]
  {
    if |bs| > 1 { OneOfTwoUsed(bs); }
    assert bs[0] !in Used(bs);
  }

  lemma EnumeratesRest(order: seq<nat>, live: set<Block>, b: Block)
    requires Enumerates(order, live) && order != []
    requires b in live && b.off == order[0]
    requires forall c :: c in live && c.off == b.off ==> c == b
    ensures Enumerates(order[1..], live - {b})
  {
    var rest := order[1..];
    assert order == [b.off] + rest;
    forall off | off in rest ensures exists c :: c in live - {b} && c.off == off {
      assert off in order;
      var c :| c in live && c.off == off;
      assert c in live - {b};
    }
  }

  /** Freeing all live pointers, in any order, leaves the single free block of mem_init. */
  lemma {:induction false} FreeAllRestores(bs: seq<Block>, capacity: nat, order: seq<nat>)
    requires Good(bs, capacity)
    requires Enumerates(order, Used(bs))
    ensures capacity >= HEADER
    ensures FreesTo(bs, order, Initial(capacity).bs)
    decreases |order|
  {
    if order == [] {
      assert Used(bs) == {};
      NothingLive(bs, capacity);
    } else {
      var off := order[0];
      assert off in order;
      LiveIsUsed(bs, capacity, off);
      var i := IndexOf(bs, off);
      FreeGood(bs, capacity, i);
      FreeUsed(bs, capacity, i);
      forall c | c in Used(bs) && c.off == off ensures c == bs[i] {
        var k :| 0 <= k < |bs| && bs[k] == c;
        IndexFound(bs, capacity, k);
      }
      EnumeratesRest(order, Used(bs), bs[i]);
      FreeAllRestores(FreeAt(bs, off), capacity, order[1..]);
    }
  }

  /** ... in particular after any run. */
  lemma RunThenFreeAll(capacity: nat, base: nat, calls: seq<Call>, s: State, order: seq<nat>)
    requires capacity >= HEADER
    requires Runs(Initial(capacity), capacity, base, calls, s)
    requires Enumerates(order, Used(s.bs))
    ensures FreesTo(s.bs, order, Initial(capacity).bs)
  {
    ReachableSound(capacity, base, calls, s);
    FreeAllRestores(s.bs, capacity, order);
  }

  /** In every reachable heap the live payloads lie inside it, apart from each other and from every header. */
  lemma ReachablePayloads(capacity: nat, base: nat, calls: seq<Call>, s: State, b: Block, i: nat)
    requires capacity >= HEADER
    requires Runs(Initial(capacity), capacity, base, calls, s)
    requires b in Used(s.bs) && i < |s.bs|
    ensures b.End() <= capacity
    ensures s.bs[i].Payload() <= b.Payload() || b.End() <= s.bs[i].off
    ensures s.bs[i] != b ==> s.bs[i].End() <= b.off || b.End() <= s.bs[i].off
  {
    ReachableSound(capacity, base, calls, s);
    var k :| 0 <= k < |s.bs| && s.bs[k] == b;
    Inside(s.bs, 0, capacity, k);
    if i != k { PayloadsDisjoint(s.bs, capacity, k, i); }
  }

  /** The largest size is granted on a fresh heap, with a block of no bytes at all. */
  lemma HugeRequestGranted()
    ensures var bs := Initial(MALLOC_C_CAPACITY).bs;
      MallocPtr(bs, 0xFFFF_FFFF) == At(0) && Malloc(bs, 0xFFFF_FFFF)[0] == Block(0, 0, true)
  {
    assert FirstFit(Initial(MALLOC_C_CAPACITY).bs, 0) == 0;
  }

  /** The first kmalloc on a fresh heap. */
  lemma FirstMalloc(size: uint32, request: nat)
    requires size != 0 && AlignSize(size) == request && request < 100
    ensures var s := Initial(MALLOC_C_CAPACITY);
      && MallocPtr(s.bs, size) == At(0)
      && Step(s, MALLOC_C_CAPACITY, Kmalloc(size))
         == State([Block(0, request, true), Block(HEADER + request, MALLOC_C_CAPACITY - 2 * HEADER - request, false)],
                  map[0 := size])
  {
    var s := Initial(MALLOC_C_CAPACITY);
    assert FirstFit(s.bs, request) == 0;
    assert Room(s.bs, 0, 1) == MALLOC_C_CAPACITY - HEADER;
  }

  lemma RunOne(s: State, capacity: nat, base: nat, call: Call)
    requires WellFormed(s.bs, capacity) && Allowed(s, call, base)
    ensures Runs(s, capacity, base, [call], Step(s, capacity, call))
  {
    assert [call][1..] == [];
  }

  lemma RunTwo(s: State, capacity: nat, base: nat, call: Call, s1: State, call1: Call, s2: State)
    requires WellFormed(s.bs, capacity) && Allowed(s, call, base) && s1 == Step(s, capacity, call)
    requires Runs(s1, capacity, base, [call1], s2)
    ensures Runs(s, capacity, base, [call, call1], s2)
  {
    assert [call, call1][1..] == [call1];
  }

  /** Cutting the block of a two-block list down to nothing. */
  lemma ShrinkToNothing(bs: seq<Block>, size: nat, rest: nat)
    requires bs == [Block(0, size, true), Block(HEADER + size, rest, false)] && size >= MIN_SPLIT
    ensures PathOf(bs, 0, 0).Shrink?
    ensures Resize(bs, 0, 0) == [Block(0, 0, true), Block(HEADER, size + rest, false)]
  {
    assert High(bs, 0) == 2;
    assert Room(bs, 0, 2) == size + HEADER + Room(bs, 1, 2);
  }

  /** kmalloc(32), then krealloc to the largest size: the pointer stays, and the block has no bytes left. */
  lemma PrefixLost(base: nat)
    ensures var s0 := Initial(MALLOC_C_CAPACITY);
      var s1 := Step(s0, MALLOC_C_CAPACITY, Kmalloc(32));
      && Live(s1.bs, 0) && s1.bs[0] == Block(0, 32, true) && ReallocPtr(s1.bs, 0, 0xFFFF_FFFF) == At(0)
      && exists s2 :: Runs(s0, MALLOC_C_CAPACITY, base, [Kmalloc(32), Krealloc(0, 0xFFFF_FFFF)], s2)
                      && |s2.bs| > 0 && s2.bs[0] == Block(0, 0, true)
  {
    var s0 := Initial(MALLOC_C_CAPACITY);
    FirstMalloc(32, 32);
    var s1 := Step(s0, MALLOC_C_CAPACITY, Kmalloc(32));
    ShrinkToNothing(s1.bs, 32, MALLOC_C_CAPACITY - 56);
    var call := Krealloc(0, 0xFFFF_FFFF);
    assert WellFormed(s1.bs, MALLOC_C_CAPACITY) by { MallocGood(s0.bs, MALLOC_C_CAPACITY, 32); }
    var s2 := Step(s1, MALLOC_C_CAPACITY, call);
    RunOne(s1, MALLOC_C_CAPACITY, base, call);
    RunTwo(s0, MALLOC_C_CAPACITY, base, Kmalloc(32), s1, call, s2);
  }

  /** Two calls already reach the damaging growth: kmalloc(8), then krealloc to 16. */
  lemma ClobberingIsReachable(base: nat)
    ensures var s := Step(Initial(MALLOC_C_CAPACITY), MALLOC_C_CAPACITY, Kmalloc(8));
      && Runs(Initial(MALLOC_C_CAPACITY), MALLOC_C_CAPACITY, base, [Kmalloc(8)], s)
      && MallocPtr(Initial(MALLOC_C_CAPACITY).bs, 8) == At(0)
      && Live(s.bs, 0) && Clobbers(s.bs, IndexOf(s.bs, 0), AlignSize(16), base)
  {
    FirstMalloc(8, 8);
    RunOne(Initial(MALLOC_C_CAPACITY), MALLOC_C_CAPACITY, base, Kmalloc(8));
    var s := Step(Initial(MALLOC_C_CAPACITY), MALLOC_C_CAPACITY, Kmalloc(8));
    assert Room(s.bs, 0, 2) == 8 + HEADER + Room(s.bs, 1, 2);
  }
}
