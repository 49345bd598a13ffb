/** Runs of the allocator: a client that frees, reallocates and writes only live blocks. */
module HeapWorld {
  import opened Bytes
  import opened HeapSpec
  import opened HeapRuns

  datatype World = World(heap: Heap, blocks: seq<Block>)

  datatype Op =
    | OpMalloc(size: nat)
    | OpCalloc(num: nat, size: nat)
    | OpRealloc(p: Pointer, size: nat)
    | OpFree(p: Pointer)
    | OpStore(base: nat, offset: nat, value: byte)
    | OpFailAfter(countdown: int)

  /** The index of the live block at `addr`, or -1. */
  function IndexOf(bs: seq<Block>, addr: nat): (k: int)
    ensures -1 <= k < |bs|
    ensures k >= 0 ==> bs[k].live && bs[k].mem == addr
    ensures k < 0 ==> forall i :: 0 <= i < |bs| && bs[i].live ==> bs[i].mem != addr
  {
    if bs == [] then -1
    else if bs[|bs| - 1].live && bs[|bs| - 1].mem == addr then |bs| - 1
    else IndexOf(bs[..|bs| - 1], addr)
  }

  predicate IsLive(bs: seq<Block>, p: Pointer) {
    p.At? ==> IndexOf(bs, p.addr) >= 0
  }

  /** The client behaves: pointers it passes are null or live, and it writes inside payloads. */
  predicate Legal(w: World, op: Op) {
    match op
    case OpRealloc(p, _) => IsLive(w.blocks, p)
    case OpFree(p) => IsLive(w.blocks, p)
    case OpStore(base, offset, _) =>
      var k := IndexOf(w.blocks, base);
      k >= 0 && offset < w.blocks[k].size
    case _ => true
  }

  /** The block that an operation may change. */
  predicate Targets(op: Op, addr: nat) {
    match op
    case OpRealloc(p, _) => p == At(addr)
    case OpFree(p) => p == At(addr)
    case OpStore(base, _, _) => base == addr
    case _ => false
  }

  /** A live block of a reachable heap can be passed to free and realloc, which find its guard
      intact. */
  lemma LiveIsReadable(l: ValidLayout, h: Heap, bs: seq<Block>, p: Pointer)
    requires Inv(l, h, bs) && IsLive(bs, p)
    ensures PointerOk(l, h, p)
    ensures p.At? ==> !IsOverrun(l, h.bytes, p.addr)
    ensures p.At? ==> RecordedSize(l, h.bytes, p.addr) == bs[IndexOf(bs, p.addr)].size
  {
    hide Layout.RoundUp;
    if p.At? {
      assert Stamped(l, h.bytes, bs[IndexOf(bs, p.addr)]);
      TiledBounds(l, bs, h.index, IndexOf(bs, p.addr));
    }
  }

  /** What becomes of the blocks when realloc turns block `k` into `r`. */
  function ReallocBlocks(l: ValidLayout, h: Heap, bs: seq<Block>, k: nat, size: nat, r: Pointer): seq<Block>
    requires k < |bs| && HasHeader(l, h.bytes, bs[k].mem)
  {
    if size == 0 then ReleaseBlocks(bs, k)
    else if bs[k].size >= size then bs
    else if GrowsInPlace(l, h, bs[k].mem, size) then MallocBlocks(ReleaseBlocks(bs, k), r, size)
    else if r.Null? then bs
    else ReleaseBlocks(MallocBlocks(bs, r, size), k)
  }

  ghost predicate WorldInv(l: ValidLayout, w: World) {
    Inv(l, w.heap, w.blocks)
  }

  // ---------------------------------------------------------------- operations on the heap

  /** What the code itself needs in order to carry out an operation. */
  predicate Possible(l: ValidLayout, h: Heap, op: Op) {
    match op
    case OpRealloc(p, _) => PointerOk(l, h, p)
    case OpFree(p) => PointerOk(l, h, p)
    case OpStore(base, offset, _) => base + offset < |h.bytes|
    case _ => true
  }

  /** The heap after an operation, and how the call ends. */
  function Perform(l: ValidLayout, h: Heap, op: Op): (Heap, Outcome)
    requires Possible(l, h, op)
  {
    match op
    case OpMalloc(size) =>
      var (h', p) := Malloc(l, h, size);
      (h', Returned(p))
    case OpCalloc(num, size) =>
      var (h', p) := Calloc(l, h, num, size);
      (h', Returned(p))
    case OpRealloc(p, size) => Realloc(l, h, p, size)
    case OpFree(p) => Free(l, h, p)
    case OpStore(base, offset, value) =>
      (h.(bytes := Patch(h.bytes, base + offset, [value])), Returned(Null))
    case OpFailAfter(n) => (h.(countdown := n), Returned(Null))
  }

  lemma LegalIsPossible(l: ValidLayout, w: World, op: Op)
    requires WorldInv(l, w) && Legal(w, op)
    ensures Possible(l, w.heap, op)
  {
    hide Layout.RoundUp, Tiled, Stamped, LiveCount, Malloc, Calloc, Realloc, Free, PointerOk;
    match op
    case OpRealloc(p, _) => LiveIsReadable(l, w.heap, w.blocks, p);
    case OpFree(p) => LiveIsReadable(l, w.heap, w.blocks, p);
    case OpStore(base, offset, _) =>
      TiledBounds(l, w.blocks, w.heap.index, IndexOf(w.blocks, base));
    case _ =>
  }

  /** What an operation does to the blocks when it returns `r`. */
  ghost function BlocksAfter(l: ValidLayout, w: World, op: Op, r: Pointer): seq<Block>
    requires WorldInv(l, w) && Legal(w, op)
  {
    var bs := w.blocks;
    match op
    case OpMalloc(size) => MallocBlocks(bs, r, size)
    case OpCalloc(num, size) => MallocBlocks(bs, r, num * size)
    case OpRealloc(p, size) =>
      LiveIsReadable(l, w.heap, bs, p);
      if p.Null? then MallocBlocks(bs, r, size)
      else ReallocBlocks(l, w.heap, bs, IndexOf(bs, p.addr), size, r)
    case OpFree(p) => if p.Null? then bs else ReleaseBlocks(bs, IndexOf(bs, p.addr))
    case _ => bs
  }

  /** The pointer that an operation of the client returns. */
  ghost function ResultOf(l: ValidLayout, w: World, op: Op): Pointer
    requires WorldInv(l, w) && Legal(w, op)
  {
    LegalIsPossible(l, w, op);
    var o := Perform(l, w.heap, op).1;
    if o.Returned? then o.p else Null
  }

  /** The result of one operation of the client. */
  ghost function Next(l: ValidLayout, w: World, op: Op): World
    requires WorldInv(l, w) && Legal(w, op)
  {
    LegalIsPossible(l, w, op);
    World(Perform(l, w.heap, op).0, BlocksAfter(l, w, op, ResultOf(l, w, op)))
  }

  /** The block at index `i` is still there, with the same payload. */
  ghost predicate Survives(w: World, w': World, i: nat)
    requires i < |w.blocks|
  {
    var b := w.blocks[i];
    && i < |w'.blocks|
    && w'.blocks[i] == b
    && SameBytes(w.heap.bytes, w'.heap.bytes, b.mem, b.mem + b.size)
  }

  // ---------------------------------------------------------------- realloc

  /** The copy of a payload to `to` is the original at `from`, byte by byte. */
  ghost predicate Copied(x: seq<byte>, from: nat, y: seq<byte>, to: nat, n: nat) {
    && from + n <= |x|
    && to + n <= |y|
    && y[to..to + n] == x[from..from + n]
  }

  /** Growing in place: the block is released and allocated again where it was. */
  lemma ReallocInPlace(l: ValidLayout, h: Heap, bs: seq<Block>, k: nat, size: nat)
    requires Inv(l, h, bs) && k < |bs| && bs[k].live && IndexOf(bs, bs[k].mem) == k
    requires bs[k].size < size && GrowsInPlace(l, h, bs[k].mem, size)
    ensures PointerOk(l, h, At(bs[k].mem))
    ensures var (h', o) := Realloc(l, h, At(bs[k].mem), size);
            && o.Returned?
            && Inv(l, h', MallocBlocks(ReleaseBlocks(bs, k), o.p, size))
            && k == |bs| - 1
            && (if h.countdown != 0 then o.p == At(bs[k].mem)
                else o.p == Null && h' == h.(index := bs[k].mem - l.Header(), count := h.count - 1))
            && SameBytes(h.bytes, h'.bytes, 0, bs[k].mem - l.Header())
            && SameBytes(h.bytes, h'.bytes, bs[k].mem, bs[k].mem + bs[k].size)
  {
    hide Layout.RoundUp, Stamped, StampBlock, IsOverrun, RecordedSize;
    LiveIsReadable(l, h, bs, At(bs[k].mem));
    ReleaseStep(l, h, bs, k);
    MallocStep(l, Release(l, h, bs[k].mem), ReleaseBlocks(bs, k), size);
  }

  lemma CopyStep(l: ValidLayout, h: Heap, bs: seq<Block>, k: nat, size: nat)
    requires Inv(l, h, bs) && k < |bs| && bs[k].live && bs[k].size < size
    requires Malloc(l, h, size).1.At?
    ensures bs[k].mem + bs[k].size <= h.index <= |h.bytes|
    ensures var (h1, q) := Malloc(l, h, size);
            var bs1 := MallocBlocks(bs, q, size);
            && q.addr == h.index + l.Header()
            && q.addr + bs[k].size <= |h1.bytes|
            && var h2 := CopiedTo(h, h1, bs[k].mem, bs[k].size, q.addr);
            && Inv(l, h2, bs1)
            && SameBytes(h.bytes, h2.bytes, 0, h.index)
            && Copied(h.bytes, bs[k].mem, h2.bytes, q.addr, bs[k].size)
  {
    hide Layout.RoundUp, Stamped, StampBlock, Malloc, LiveCount;
    var b := bs[k];
    TiledBounds(l, bs, h.index, k);
    MallocStep(l, h, bs, size);
    var (h1, q) := Malloc(l, h, size);
    var bs1 := MallocBlocks(bs, q, size);
    assert bs1[|bs|] == Block(q.addr, size, true);
    TiledBounds(l, bs1, h1.index, |bs|);
    PayloadStep(l, h1, bs1, |bs|, q.addr, h.bytes[b.mem..b.mem + b.size]);
    PatchReadBack(h1.bytes, q.addr, h.bytes[b.mem..b.mem + b.size]);
  }

  /** Moving: a new block is stamped above the top, the payload is copied, the old block is
      released below it. */
  lemma ReallocMoves(l: ValidLayout, h: Heap, bs: seq<Block>, k: nat, size: nat)
    requires Inv(l, h, bs) && k < |bs| && bs[k].live && IndexOf(bs, bs[k].mem) == k
    requires bs[k].size < size && !GrowsInPlace(l, h, bs[k].mem, size)
    ensures PointerOk(l, h, At(bs[k].mem))
    ensures var (h', o) := Realloc(l, h, At(bs[k].mem), size);
            && o.Returned?
            && Inv(l, h', if o.p.Null? then bs else ReleaseBlocks(MallocBlocks(bs, o.p, size), k))
            && (o.p.At? <==> h.countdown != 0 && Fits(l, h, size))
            && (o.p.Null? ==> h' == h.(countdown := Tick(h.countdown)))
            && (o.p.At? ==> o.p.addr == h.index + l.Header()
                            && Copied(h.bytes, bs[k].mem, h'.bytes, o.p.addr, bs[k].size))
            && SameBytes(h.bytes, h'.bytes, 0, h.index)
  {
    hide Layout.RoundUp, Stamped, StampBlock, IsOverrun, RecordedSize;
    hide Malloc, IsTop, GrowsInPlace, Tiled, LiveCount, IndexOf;
    var mem := bs[k].mem;
    LiveIsReadable(l, h, bs, At(mem));
    MallocStep(l, h, bs, size);
    var (h1, q) := Malloc(l, h, size);
    if q.At? {
      CopyStep(l, h, bs, k, size);
      var bs1 := MallocBlocks(bs, q, size);
      assert bs1[k] == bs[k];
      var h2 := CopiedTo(h, h1, bs[k].mem, bs[k].size, q.addr);
      ReleaseStep(l, h2, bs1, k);
    }
  }

  // ---------------------------------------------------------------- one step

  lemma SurvivesBelow(l: ValidLayout, w: World, w': World, top: nat, n: nat)
    requires WorldInv(l, w) && n <= |w.blocks| && n <= |w'.blocks|
    requires forall i :: 0 <= i < n ==> w'.blocks[i] == w.blocks[i]
    requires SameBytes(w.heap.bytes, w'.heap.bytes, 0, top)
    requires n < |w.blocks| ==> Start(l, w.blocks[n]) <= top
    requires n == |w.blocks| ==> w.heap.index <= top
    ensures forall i :: 0 <= i < n ==> Survives(w, w', i)
  {
    hide Layout.RoundUp, Stamped, Tiled, LiveCount;
    forall i | 0 <= i < n
      ensures Survives(w, w', i)
    {
      TiledBounds(l, w.blocks, w.heap.index, i);
      if n < |w.blocks| {
        TiledOrder(l, w.blocks, w.heap.index, i, n);
      }
    }
  }

  lemma CallocStep(l: ValidLayout, h: Heap, bs: seq<Block>, num: nat, size: nat)
    requires Inv(l, h, bs)
    ensures var (h', p) := Calloc(l, h, num, size);
            && p == Malloc(l, h, num * size).1
            && Inv(l, h', MallocBlocks(bs, p, num * size))
            && SameBytes(h.bytes, h'.bytes, 0, h.index)
            && (p.At? ==> && p.addr + num * size <= |h'.bytes|
                          && forall i :: p.addr <= i < p.addr + num * size ==> h'.bytes[i] == 0)
  {
    hide Layout.RoundUp, Stamped, StampBlock, Malloc, Tiled, LiveCount;
    var total := num * size;
    MallocStep(l, h, bs, total);
    var (h1, p) := Malloc(l, h, total);
    if p.At? {
      var bs1 := MallocBlocks(bs, p, total);
      assert bs1[|bs|] == Block(p.addr, total, true);
      TiledBounds(l, bs1, h1.index, |bs|);
      PayloadStep(l, h1, bs1, |bs|, p.addr, seq(total, _ => 0));
    }
  }

  /** realloc that releases the block or leaves it. */
  lemma ReallocStays(l: ValidLayout, w: World, addr: nat, size: nat)
    requires WorldInv(l, w) && Legal(w, OpRealloc(At(addr), size))
    requires size == 0 || w.blocks[IndexOf(w.blocks, addr)].size >= size
    ensures WorldInv(l, Next(l, w, OpRealloc(At(addr), size)))
    ensures OthersSurvive(w, Next(l, w, OpRealloc(At(addr), size)), IndexOf(w.blocks, addr))
  {
    hide Layout.RoundUp, Stamped, StampBlock, Malloc, Tiled, LiveCount, GrowsInPlace, IsOverrun, RecordedSize;
    LiveIsReadable(l, w.heap, w.blocks, At(addr));
    ReleaseStep(l, w.heap, w.blocks, IndexOf(w.blocks, addr));
  }

  lemma ReallocGrows(l: ValidLayout, w: World, addr: nat, size: nat)
    requires WorldInv(l, w) && Legal(w, OpRealloc(At(addr), size))
    requires w.blocks[IndexOf(w.blocks, addr)].size < size
    ensures WorldInv(l, Next(l, w, OpRealloc(At(addr), size)))
    ensures OthersSurvive(w, Next(l, w, OpRealloc(At(addr), size)), IndexOf(w.blocks, addr))
  {
    hide Layout.RoundUp, Stamped, StampBlock, Malloc, Tiled, LiveCount, Realloc, Release, IsOverrun, RecordedSize;
    hide GrowsInPlace, IsTop;
    var h, bs, k := w.heap, w.blocks, IndexOf(w.blocks, addr);
    var w' := Next(l, w, OpRealloc(At(addr), size));
    LiveIsReadable(l, h, bs, At(addr));
    if GrowsInPlace(l, h, addr, size) {
      ReallocInPlace(l, h, bs, k, size);
      SurvivesBelow(l, w, w', addr - l.Header(), k);
    } else {
      ReallocMoves(l, h, bs, k, size);
      if w'.blocks != bs {
        var marked := World(w'.heap, w'.blocks[k := bs[k]]);
        SurvivesBelow(l, w, marked, h.index, |bs|);
        assert forall i :: 0 <= i < |bs| && i != k && Survives(w, marked, i) ==> Survives(w, w', i);
      } else {
        SurvivesBelow(l, w, w', h.index, |bs|);
      }
    }
  }

  /** Every live block but block `k` survives. */
  ghost predicate OthersSurvive(w: World, w': World, k: int) {
    forall i :: 0 <= i < |w.blocks| && w.blocks[i].live && i != k ==> Survives(w, w', i)
  }

  lemma ReallocStep(l: ValidLayout, w: World, addr: nat, size: nat)
    requires WorldInv(l, w) && Legal(w, OpRealloc(At(addr), size))
    ensures WorldInv(l, Next(l, w, OpRealloc(At(addr), size)))
    ensures OthersSurvive(w, Next(l, w, OpRealloc(At(addr), size)), IndexOf(w.blocks, addr))
  {
    hide Next, WorldInv, OthersSurvive;
    if size == 0 || w.blocks[IndexOf(w.blocks, addr)].size >= size {
      ReallocStays(l, w, addr, size);
    } else {
      ReallocGrows(l, w, addr, size);
    }
  }

  lemma StoreStep(l: ValidLayout, w: World, base: nat, offset: nat, value: byte)
    requires WorldInv(l, w) && Legal(w, OpStore(base, offset, value))
    ensures var w' := Next(l, w, OpStore(base, offset, value));
            && WorldInv(l, w')
            && forall i :: 0 <= i < |w.blocks| && w.blocks[i].live && w.blocks[i].mem != base ==>
                 Survives(w, w', i)
  {
    hide Layout.RoundUp, Stamped, Tiled, LiveCount, RecordedSize, IsOverrun;
    var h, bs := w.heap, w.blocks;
    var w' := Next(l, w, OpStore(base, offset, value));
    LiveIsReadable(l, h, bs, At(base));
    PayloadStep(l, h, bs, IndexOf(bs, base), base + offset, [value]);
    hide Next;
    forall i | 0 <= i < |bs| && bs[i].live && bs[i].mem != base
      ensures Survives(w, w', i)
    {
      TiledBounds(l, bs, h.index, i);
    }
  }

  /** Every operation of a well-behaved client keeps the heap well formed, and leaves every live
      block that it does not target live, where it was, with the same payload. */
  lemma StepKeeps(l: ValidLayout, w: World, op: Op)
    requires WorldInv(l, w) && Legal(w, op)
    ensures WorldInv(l, Next(l, w, op))
    ensures forall i :: 0 <= i < |w.blocks| && w.blocks[i].live && !Targets(op, w.blocks[i].mem) ==>
              Survives(w, Next(l, w, op), i)
  {
    hide Layout.RoundUp, Stamped, StampBlock, Malloc, Calloc, Realloc, Tiled, LiveCount;
    var h, bs := w.heap, w.blocks;
    var w' := Next(l, w, op);
    match op
    case OpMalloc(size) =>
      MallocStep(l, h, bs, size);
      SurvivesBelow(l, w, w', h.index, |bs|);
    case OpCalloc(num, size) =>
      CallocStep(l, h, bs, num, size);
      SurvivesBelow(l, w, w', h.index, |bs|);
    case OpRealloc(p, size) =>
      if p.At? {
        hide Next;
        ReallocStep(l, w, p.addr, size);
      } else {
        MallocStep(l, h, bs, size);
        ReallocNullIsMalloc(l, h, size);
        SurvivesBelow(l, w, w', h.index, |bs|);
      }
    case OpFree(p) =>
      if p.At? {
        LiveIsReadable(l, h, bs, p);
        ReleaseStep(l, h, bs, IndexOf(bs, p.addr));
      }
    case OpStore(base, offset, value) =>
      hide Next;
      StoreStep(l, w, base, offset, value);
    case OpFailAfter(n) =>
  }

  lemma ReallocNullIsMalloc(l: ValidLayout, h: Heap, size: nat)
    ensures var (h', p) := Malloc(l, h, size); Realloc(l, h, Null, size) == (h', Returned(p))
  {
    hide Layout.RoundUp, Malloc;
  }

  // ---------------------------------------------------------------- the start

  function FreshWorld(capacity: nat): World {
    World(FreshHeap(capacity), [])
  }

  /** The heap that the program starts with is well formed, as long as its size fits a word. */
  lemma FreshWorldIsWellFormed(l: ValidLayout, capacity: nat)
    requires capacity < Pow256(l.word)
    ensures WorldInv(l, FreshWorld(capacity))
  {
  }

  /** No operation changes the capacity. */
  lemma StepKeepsCapacity(l: ValidLayout, w: World, op: Op)
    requires WorldInv(l, w) && Legal(w, op)
    ensures |Next(l, w, op).heap.bytes| == |w.heap.bytes|
  {
    hide Layout.RoundUp, Tiled, LiveCount, Stamped, Malloc, IsOverrun, RecordedSize;
    match op
    case OpMalloc(size) => MallocBelow(l, w.heap, size);
    case OpCalloc(num, size) => MallocBelow(l, w.heap, num * size);
    case OpRealloc(p, size) =>
      LiveIsReadable(l, w.heap, w.blocks, p);
      MallocBelow(l, w.heap, size);
      if p.At? {
        MallocBelow(l, Release(l, w.heap, p.addr), size);
      }
    case OpFree(p) => LiveIsReadable(l, w.heap, w.blocks, p);
    case OpStore(_, _, _) =>
    case OpFailAfter(_) =>
  }
}
