/** The guarantees of the allocator over every run of a well-behaved client, and what free and
    realloc report when a client does not behave. */
module HeapTheorems {
  import opened Bytes
  import opened HeapSpec
  import opened HeapRuns
  import opened HeapWorld

  // ---------------------------------------------------------------- runs

  ghost predicate LegalRun(l: ValidLayout, w: World, ops: seq<Op>)
    requires WorldInv(l, w)
    decreases |ops|
  {
    ops != [] ==>
      && Legal(w, ops[0])
      && (StepKeeps(l, w, ops[0]);
          LegalRun(l, Next(l, w, ops[0]), ops[1..]))
  }

  ghost function Run(l: ValidLayout, w: World, ops: seq<Op>): World
    requires WorldInv(l, w) && LegalRun(l, w, ops)
    decreases |ops|
  {
    if ops == [] then w
    else
      StepKeeps(l, w, ops[0]);
      Run(l, Next(l, w, ops[0]), ops[1..])
  }

  /** Over every run of a well-behaved client the heap stays well formed (so HeapIsTiled applies to
      every reachable state), and no live block ever looks overrun. */
  lemma {:induction false} RunKeepsHeap(l: ValidLayout, w: World, ops: seq<Op>)
    requires WorldInv(l, w) && LegalRun(l, w, ops)
    ensures WorldInv(l, Run(l, w, ops))
    ensures var w' := Run(l, w, ops);
            forall i :: 0 <= i < |w'.blocks| && w'.blocks[i].live ==>
              && Readable(l, w'.heap.bytes, w'.blocks[i].mem)
              && !IsOverrun(l, w'.heap.bytes, w'.blocks[i].mem)
    decreases |ops|
  {
    hide Layout.RoundUp, Next, Tiled, LiveCount;
    if ops == [] {
      forall i | 0 <= i < |w.blocks| && w.blocks[i].live
        ensures Readable(l, w.heap.bytes, w.blocks[i].mem) && !IsOverrun(l, w.heap.bytes, w.blocks[i].mem)
      {
        LiveIsReadable(l, w.heap, w.blocks, At(w.blocks[i].mem));
      }
    } else {
      StepKeeps(l, w, ops[0]);
      RunKeepsHeap(l, Next(l, w, ops[0]), ops[1..]);
    }
  }

  lemma {:induction false} RunKeepsCapacity(l: ValidLayout, w: World, ops: seq<Op>)
    requires WorldInv(l, w) && LegalRun(l, w, ops)
    ensures |Run(l, w, ops).heap.bytes| == |w.heap.bytes|
    decreases |ops|
  {
    hide Layout.RoundUp, Next, Tiled, LiveCount;
    if ops != [] {
      StepKeeps(l, w, ops[0]);
      StepKeepsCapacity(l, w, ops[0]);
      RunKeepsCapacity(l, Next(l, w, ops[0]), ops[1..]);
    }
  }

  /** A run of a well-behaved client from the heap that the program starts with. */
  ghost predicate RunFromStart(l: ValidLayout, capacity: nat, ops: seq<Op>)
    requires capacity < Pow256(l.word)
  {
    FreshWorldIsWellFormed(l, capacity);
    LegalRun(l, FreshWorld(capacity), ops)
  }

  ghost function ReachedFromStart(l: ValidLayout, capacity: nat, ops: seq<Op>): World
    requires capacity < Pow256(l.word) && RunFromStart(l, capacity, ops)
  {
    FreshWorldIsWellFormed(l, capacity);
    Run(l, FreshWorld(capacity), ops)
  }

  /** After any run from the start, the blocks tile [0, index) exactly, are pairwise disjoint and
      aligned, index is within the capacity, no live block looks overrun, and the leak counter is
      the number of live blocks. */
  lemma ReachableHeapIsTiled(l: ValidLayout, capacity: nat, ops: seq<Op>)
    requires capacity < Pow256(l.word) && RunFromStart(l, capacity, ops)
    ensures var World(h, bs) := ReachedFromStart(l, capacity, ops);
            && WorldInv(l, World(h, bs))
            && h.index <= |h.bytes| == capacity
            && h.count == LiveCount(bs)
            && (forall i :: 0 <= i < |bs| ==>
                  && 0 <= Start(l, bs[i]) && bs[i].mem + bs[i].size + |TRAILER| <= End(l, bs[i]) <= h.index
                  && bs[i].mem % l.align == 0
                  && (bs[i].live ==> Readable(l, h.bytes, bs[i].mem) && !IsOverrun(l, h.bytes, bs[i].mem)))
            && (forall i, j :: 0 <= i < j < |bs| ==> End(l, bs[i]) <= Start(l, bs[j]))
            && (forall p: nat :: Covered(l, bs, p) <==> p < h.index)
  {
    hide Layout.RoundUp, Run, LegalRun, Tiled, Stamped, LiveCount, Covered, Readable, IsOverrun;
    FreshWorldIsWellFormed(l, capacity);
    RunKeepsHeap(l, FreshWorld(capacity), ops);
    RunKeepsCapacity(l, FreshWorld(capacity), ops);
    var w := ReachedFromStart(l, capacity, ops);
    HeapIsTiled(l, w.heap, w.blocks);
  }

  /** A block that no operation of the run targets is live at the end, where it was, and holds
      exactly the bytes that it held. */
  lemma {:induction false} RunKeepsUntouchedBlock(l: ValidLayout, w: World, ops: seq<Op>, i: nat)
    requires WorldInv(l, w) && LegalRun(l, w, ops)
    requires i < |w.blocks| && w.blocks[i].live
    requires forall j :: 0 <= j < |ops| ==> !Targets(ops[j], w.blocks[i].mem)
    ensures Survives(w, Run(l, w, ops), i)
    decreases |ops|
  {
    hide Layout.RoundUp, Next, Tiled, LiveCount, Stamped, Targets;
    if ops != [] {
      StepKeeps(l, w, ops[0]);
      RunKeepsUntouchedBlock(l, Next(l, w, ops[0]), ops[1..], i);
    }
  }

  // ---------------------------------------------------------------- overruns

  /** Two slices, the first of them all zero, and the bytes they are made of. */
  lemma SlicesOfSame(x: seq<byte>, y: seq<byte>, lo: nat, hi: nat)
    requires |x| == |y| && lo <= hi <= |x|
    requires forall i :: 0 <= i < hi - lo ==> x[lo..hi][i] == 0
    ensures SameBytes(x, y, lo, hi) <==> forall i :: 0 <= i < hi - lo ==> y[lo..hi][i] == 0
  {
    assert forall i :: lo <= i < hi ==> x[i] == x[lo..hi][i - lo] && y[i] == y[lo..hi][i - lo];
    assert forall i :: 0 <= i < hi - lo ==> y[lo..hi][i] == y[lo + i];
  }

  lemma IsOverrunIffCorrupted(l: ValidLayout, x: seq<byte>, y: seq<byte>, b: Block)
    requires Stamped(l, x, b)
    requires SameBytes(x, y, b.mem - l.Header(), b.mem - l.word)
    ensures Readable(l, y, b.mem) && RecordedSize(l, y, b.mem) == b.size
    ensures IsOverrun(l, y, b.mem) <==>
              !(SameBytes(x, y, b.mem - l.word, b.mem)
                && SameBytes(x, y, b.mem + b.size, b.mem + b.size + |TRAILER|))
  {
    hide Layout.RoundUp;
    var g, g' := x[b.mem - l.word..b.mem], y[b.mem - l.word..b.mem];
    assert x[b.mem - l.Header()..b.mem - l.word] == y[b.mem - l.Header()..b.mem - l.word];
    WordIsZero(g);
    WordIsZero(g');
    SlicesOfSame(x, y, b.mem - l.word, b.mem);
    hide FromLE;
    TrailerIntact(x, y, b.mem + b.size);
  }

  /** Whatever a client did to the heap, short of changing the recorded size of a block: free and
      realloc of that block report an overrun exactly when some byte of its guard word or of its
      trailer differs from what malloc wrote there. */
  lemma OverrunReportedIffCorrupted(l: ValidLayout, h: Heap, bs: seq<Block>, k: nat, bytes: seq<byte>, size: nat)
    requires Inv(l, h, bs) && k < |bs| && bs[k].live
    requires SameBytes(h.bytes, bytes, bs[k].mem - l.Header(), bs[k].mem - l.word)
    ensures PointerOk(l, h.(bytes := bytes), At(bs[k].mem))
    ensures var b := bs[k];
            var h' := h.(bytes := bytes);
            var intact := && SameBytes(h.bytes, bytes, b.mem - l.word, b.mem)
                          && SameBytes(h.bytes, bytes, b.mem + b.size, b.mem + b.size + |TRAILER|);
            && (Free(l, h', At(b.mem)).1 == Overrun <==> !intact)
            && (Realloc(l, h', At(b.mem), size).1 == Overrun <==> !intact)
  {
    hide Layout.RoundUp, Tiled, LiveCount, Malloc, RecordedSize, IsOverrun, SameBytes, Stamped;
    TiledBounds(l, bs, h.index, k);
    IsOverrunIffCorrupted(l, h.bytes, bytes, bs[k]);
  }

  lemma TrailerIntact(x: seq<byte>, y: seq<byte>, at: nat)
    requires |x| == |y| && at + |TRAILER| <= |x|
    requires x[at..at + |TRAILER|] == TRAILER
    ensures y[at..at + |TRAILER|] == TRAILER <==> SameBytes(x, y, at, at + |TRAILER|)
  {
    var s, t := x[at..at + |TRAILER|], y[at..at + |TRAILER|];
    assert forall i :: 0 <= i < |TRAILER| ==> s[i] == x[at + i] && t[i] == y[at + i];
    assert forall i :: at <= i < at + |TRAILER| ==> x[i] == s[i - at] && y[i] == t[i - at];
  }

  // ---------------------------------------------------------------- realloc

  /** When realloc returns null. */
  predicate ReallocFails(l: ValidLayout, h: Heap, mem: nat, size: nat)
    requires HasHeader(l, h.bytes, mem)
  {
    || size == 0
    || (RecordedSize(l, h.bytes, mem) < size
        && (h.countdown == 0 || (!GrowsInPlace(l, h, mem, size) && !Fits(l, h, size))))
  }

  lemma {:induction false} LiveIndex(l: ValidLayout, bs: seq<Block>, top: nat, i: nat)
    requires Tiled(l, bs, top) && i < |bs| && bs[i].live
    ensures IndexOf(bs, bs[i].mem) == i
  {
    hide Layout.RoundUp, Tiled;
    var k := IndexOf(bs, bs[i].mem);
    TiledBounds(l, bs, top, i);
    TiledBounds(l, bs, top, k);
    if k != i {
      TiledOrder(l, bs, top, if i < k then i else k, if i < k then k else i);
      assert false;
    }
  }

  lemma SameIsCopied(x: seq<byte>, y: seq<byte>, at: nat, n: nat)
    requires SameBytes(x, y, at, at + n) && at + n <= |x|
    ensures Copied(x, at, y, at, n)
  {
  }

  /** realloc of a live block never aborts. It returns null exactly when ReallocFails; otherwise the
      returned block starts with the first min(recorded size, size) bytes of the old one. With the
      fault countdown off, a null result for a nonzero size leaves the whole heap as it was. */
  lemma ReallocKeepsContents(l: ValidLayout, h: Heap, bs: seq<Block>, k: nat, size: nat)
    requires Inv(l, h, bs) && k < |bs| && bs[k].live
    ensures PointerOk(l, h, At(bs[k].mem))
    ensures var kept := if bs[k].size < size then bs[k].size else size;
            var (h', o) := Realloc(l, h, At(bs[k].mem), size);
            && o.Returned?
            && (o.p.Null? <==> ReallocFails(l, h, bs[k].mem, size))
            && (o.p.At? ==> Copied(h.bytes, bs[k].mem, h'.bytes, o.p.addr, kept))
            && (o.p.Null? && size > 0 && h.countdown == DONT_FAIL ==> h' == h)
  {
    hide Layout.RoundUp, Stamped, Malloc, Tiled, LiveCount, Fits, IsOverrun, IndexOf, RecordedSize;
    LiveIndex(l, bs, h.index, k);
    LiveIsReadable(l, h, bs, At(bs[k].mem));
    TiledBounds(l, bs, h.index, k);
    if size == 0 || bs[k].size >= size {
      hide GrowsInPlace;
    } else if GrowsInPlace(l, h, bs[k].mem, size) {
      hide Realloc;
      ReallocInPlace(l, h, bs, k, size);
      SameIsCopied(h.bytes, Realloc(l, h, At(bs[k].mem), size).0.bytes, bs[k].mem, bs[k].size);
    } else {
      hide Realloc;
      ReallocMoves(l, h, bs, k, size);
    }
  }

  /** After realloc of a live block, a non-null result is a live block of at least the new size, and
      every other live block keeps its place and its payload; so does the old one unless it moved,
      was released, or was lost. */
  lemma ReallocResultIsLive(l: ValidLayout, w: World, addr: nat, size: nat)
    requires WorldInv(l, w) && Legal(w, OpRealloc(At(addr), size))
    ensures PointerOk(l, w.heap, At(addr))
    ensures var o := Realloc(l, w.heap, At(addr), size).1;
            var w' := Next(l, w, OpRealloc(At(addr), size));
            && (forall i :: 0 <= i < |w.blocks| && w.blocks[i].live && w.blocks[i].mem != addr ==>
                  Survives(w, w', i))
            && (o.Returned? && o.p.At? ==>
                  && IndexOf(w'.blocks, o.p.addr) >= 0
                  && w'.blocks[IndexOf(w'.blocks, o.p.addr)].size >= size)
  {
    hide Layout.RoundUp, Stamped, Malloc, Tiled, LiveCount, Fits, IsOverrun, RecordedSize, GrowsInPlace;
    var h, bs, k := w.heap, w.blocks, IndexOf(w.blocks, addr);
    LiveIsReadable(l, h, bs, At(addr));
    ReallocStep(l, w, addr, size);
    var w' := Next(l, w, OpRealloc(At(addr), size));
    var o := Realloc(l, h, At(addr), size).1;
    if size > 0 && bs[k].size < size {
      hide Realloc;
      if GrowsInPlace(l, h, addr, size) {
        ReallocInPlace(l, h, bs, k, size);
      } else {
        ReallocMoves(l, h, bs, k, size);
      }
      if o.p.At? {
        var n := |w'.blocks| - 1;
        assert w'.blocks[n] == Block(o.p.addr, size, true);
        LiveIndex(l, w'.blocks, w'.heap.index, n);
      }
    }
  }

  /** A failing realloc is meant to leave the old block alone. It does, unless the block is on top
      with room to grow and the fault countdown has run out: then the block is already released
      when malloc refuses, and the caller loses it. */
  lemma FailedReallocKeepsBlockIff(l: ValidLayout, w: World, addr: nat, size: nat)
    requires WorldInv(l, w) && Legal(w, OpRealloc(At(addr), size)) && size > 0
    ensures PointerOk(l, w.heap, At(addr))
    ensures Realloc(l, w.heap, At(addr), size).1 == Returned(Null) ==>
              (IsLive(Next(l, w, OpRealloc(At(addr), size)).blocks, At(addr)) <==>
               !(GrowsInPlace(l, w.heap, addr, size) && w.heap.countdown == 0))
  {
    hide Layout.RoundUp, Stamped, Malloc, Tiled, LiveCount, Fits, IsOverrun, RecordedSize, GrowsInPlace;
    var h, bs, k := w.heap, w.blocks, IndexOf(w.blocks, addr);
    LiveIsReadable(l, h, bs, At(addr));
    if bs[k].size < size {
      hide Realloc;
      if GrowsInPlace(l, h, addr, size) {
        ReallocInPlace(l, h, bs, k, size);
        if h.countdown == 0 {
          forall i | 0 <= i < k
            ensures bs[i].mem != addr
          {
            TiledBounds(l, bs, h.index, i);
            TiledOrder(l, bs, h.index, i, k);
          }
        }
      } else {
        ReallocMoves(l, h, bs, k, size);
      }
    }
  }

  /** Such a loss happens: in a fresh 256-byte heap take 10 bytes, let the next allocation fail,
      and ask to grow them to 20. */
  lemma FailedReallocCanLoseBlock() returns (l: ValidLayout, w: World, ops: seq<Op>)
    ensures l == Layout(8, 8) && ops == [OpMalloc(10), OpFailAfter(0)]
    ensures 256 < Pow256(l.word) && RunFromStart(l, 256, ops) && w == ReachedFromStart(l, 256, ops)
    ensures WorldInv(l, w) && Legal(w, OpRealloc(At(16), 20)) && PointerOk(l, w.heap, At(16))
    ensures Realloc(l, w.heap, At(16), 20).1 == Returned(Null)
    ensures IsLive(w.blocks, At(16)) && !IsLive(Next(l, w, OpRealloc(At(16), 20)).blocks, At(16))
  {
    l, ops := Layout(8, 8), [OpMalloc(10), OpFailAfter(0)];
    w := OneSmallBlock(ops);
    RoundUpFormula(l, 24);
    hide Layout.RoundUp, Tiled, Malloc, Realloc, Stamped, Next, Release, IsOverrun, IsTop, RecordedSize, LiveCount;
    hide ReachedFromStart, RunFromStart;
    LiveIndex(l, w.blocks, w.heap.index, 0);
    LiveIsReadable(l, w.heap, w.blocks, At(16));
    ReleaseStep(l, w.heap, w.blocks, 0);
    assert GrowsInPlace(l, w.heap, 16, 20);
    ReallocInPlace(l, w.heap, w.blocks, 0, 20);
    FailedReallocKeepsBlockIff(l, w, 16, 20);
  }

  /** A fresh 256-byte heap after taking 10 bytes and forbidding any further allocation. */
  lemma OneSmallBlock(ops: seq<Op>) returns (w: World)
    requires ops == [OpMalloc(10), OpFailAfter(0)]
    ensures 256 < Pow256(8) && RunFromStart(Layout(8, 8), 256, ops) && w == ReachedFromStart(Layout(8, 8), 256, ops)
    ensures |w.heap.bytes| == 256 && w.heap.countdown == 0
    ensures WorldInv(Layout(8, 8), w) && w.blocks == [Block(16, 10, true)]
  {
    hide *;
    var l: ValidLayout := EightByteLayout();
    EightByteWords();
    var w0 := FreshWorld(256);
    FreshWorldIsWellFormed(l, 256);
    LegalNow(w0);
    StepKeeps(l, w0, OpMalloc(10));
    var w1 := Next(l, w0, OpMalloc(10));
    FirstMalloc(l);
    LegalNow(w1);
    SecondStep(l, w1);
    w := Next(l, w1, OpFailAfter(0));
    NoStep(l, w);
    OneStep(l, w1, OpFailAfter(0), []);
    assert [OpFailAfter(0)] + [] == [OpFailAfter(0)];
    OneStep(l, w0, OpMalloc(10), [OpFailAfter(0)]);
    assert [OpMalloc(10)] + [OpFailAfter(0)] == ops;
    FromStart(l, 256, ops);
  }

  lemma EightByteLayout() returns (l: ValidLayout)
    ensures l == Layout(8, 8)
  {
    l := Layout(8, 8);
  }

  lemma LegalNow(w: World)
    ensures Legal(w, OpMalloc(10)) && Legal(w, OpFailAfter(0))
  {
  }

  lemma NoStep(l: ValidLayout, w: World)
    requires WorldInv(l, w)
    ensures LegalRun(l, w, []) && Run(l, w, []) == w
  {
    hide WorldInv;
  }

  lemma SecondStep(l: ValidLayout, w: World)
    requires WorldInv(l, w) && Legal(w, OpFailAfter(0))
    ensures WorldInv(l, Next(l, w, OpFailAfter(0)))
    ensures Next(l, w, OpFailAfter(0)) == World(w.heap.(countdown := 0), w.blocks)
  {
    hide Tiled, Stamped, LiveCount;
  }

  lemma FromStart(l: ValidLayout, capacity: nat, ops: seq<Op>)
    requires capacity < Pow256(l.word) && WorldInv(l, FreshWorld(capacity))
    requires LegalRun(l, FreshWorld(capacity), ops)
    ensures RunFromStart(l, capacity, ops)
    ensures ReachedFromStart(l, capacity, ops) == Run(l, FreshWorld(capacity), ops)
  {
    hide WorldInv, FreshWorld, LegalRun, Run, Pow256;
  }

  lemma FirstMalloc(l: ValidLayout)
    requires l == Layout(8, 8) && WorldInv(l, FreshWorld(256))
    ensures var w1 := Next(l, FreshWorld(256), OpMalloc(10));
            w1.blocks == [Block(16, 10, true)] && |w1.heap.bytes| == 256
  {
    RoundUpFormula(l, 14);
    hide Layout.RoundUp, Tiled, Malloc, Stamped;
    MallocStep(l, FreshHeap(256), [], 10);
  }

  /** One operation and then a run. */
  lemma OneStep(l: ValidLayout, w: World, op: Op, ops: seq<Op>)
    requires WorldInv(l, w) && Legal(w, op)
    requires WorldInv(l, Next(l, w, op)) && LegalRun(l, Next(l, w, op), ops)
    ensures LegalRun(l, w, [op] + ops) && Run(l, w, [op] + ops) == Run(l, Next(l, w, op), ops)
  {
    hide Layout.RoundUp, Tiled, Malloc, Stamped, Next, Legal, LiveCount;
    assert ([op] + ops)[1..] == ops;
  }

  lemma EightByteWords()
    ensures Pow256(8) > 256
  {
    assert Pow256(2) == 65536;
    assert Pow256(8) == 256 * Pow256(7) && Pow256(7) == 256 * Pow256(6);
  }

  // ---------------------------------------------------------------- free, order and leaks

  /** Freeing a live block moves the top exactly when it is the highest block. */
  lemma FreeMovesTopIffLast(l: ValidLayout, h: Heap, bs: seq<Block>, k: nat)
    requires Inv(l, h, bs) && k < |bs| && bs[k].live
    ensures PointerOk(l, h, At(bs[k].mem))
    ensures Free(l, h, At(bs[k].mem)).1 == Returned(Null)
    ensures Free(l, h, At(bs[k].mem)).0.index == if k == |bs| - 1 then bs[k].mem - l.Header() else h.index
  {
    hide Layout.RoundUp, Tiled, LiveCount;
    LiveIndex(l, bs, h.index, k);
    LiveIsReadable(l, h, bs, At(bs[k].mem));
    ReleaseStep(l, h, bs, k);
  }

  /** Allocate blocks of the given sizes one after the other. */
  ghost function AllocAll(l: ValidLayout, w: World, sizes: seq<nat>): (World, seq<Pointer>)
    requires WorldInv(l, w)
    ensures WorldInv(l, AllocAll(l, w, sizes).0)
    decreases |sizes|
  {
    if sizes == [] then (w, [])
    else
      var n := |sizes| - 1;
      var (w1, ps) := AllocAll(l, w, sizes[..n]);
      StepKeeps(l, w1, OpMalloc(sizes[n]));
      (Next(l, w1, OpMalloc(sizes[n])), ps + [Malloc(l, w1.heap, sizes[n]).1])
  }

  /** Free the given pointers, the last one first. */
  function FreeReversed(ps: seq<Pointer>): seq<Op> {
    if ps == [] then [] else [OpFree(ps[|ps| - 1])] + FreeReversed(ps[..|ps| - 1])
  }

  lemma TopIsDetermined(l: ValidLayout, h: Heap, h': Heap, bs: seq<Block>)
    requires Inv(l, h, bs) && Inv(l, h', bs)
    ensures h.index == h'.index && h.count == h'.count
  {
    hide Layout.RoundUp, Stamped;
  }

  /** The frees depend on the blocks only, not on the bytes that the client left in them. */
  lemma {:induction false} LifoFrees(l: ValidLayout, w: World, sizes: seq<nat>, v: World)
    requires WorldInv(l, w) && WorldInv(l, v)
    requires v.blocks == AllocAll(l, w, sizes).0.blocks
    ensures var ps := AllocAll(l, w, sizes).1;
            LegalRun(l, v, FreeReversed(ps)) && Run(l, v, FreeReversed(ps)).blocks == w.blocks
    decreases |sizes|
  {
    hide Layout.RoundUp, Tiled, Stamped, LiveCount, Malloc, RecordedSize;
    if sizes != [] {
      var n := |sizes| - 1;
      var (w1, ps) := AllocAll(l, w, sizes[..n]);
      var p := Malloc(l, w1.heap, sizes[n]).1;
      var all := AllocAll(l, w, sizes).1;
      assert all == ps + [p];
      assert all[..|all| - 1] == ps;
      assert FreeReversed(all)[0] == OpFree(p) && FreeReversed(all)[1..] == FreeReversed(ps);
      if p.At? {
        assert v.blocks[|v.blocks| - 1] == Block(p.addr, sizes[n], true);
        LiveIndex(l, v.blocks, v.heap.index, |v.blocks| - 1);
        LiveIsReadable(l, v.heap, v.blocks, p);
      }
      StepKeeps(l, v, OpFree(p));
      var v1 := Next(l, v, OpFree(p));
      assert v1.blocks == w1.blocks;
      LifoFrees(l, w, sizes[..n], v1);
    }
  }

  /** Allocating any blocks (some of which may be refused), writing into them, and freeing them in
      reverse order is legal and restores the blocks, the top and the leak counter exactly. Here
      `v` is the heap after the client's writes: the same blocks, whatever bytes. */
  lemma LifoRestores(l: ValidLayout, w: World, sizes: seq<nat>, v: World)
    requires WorldInv(l, w) && WorldInv(l, v)
    requires v.blocks == AllocAll(l, w, sizes).0.blocks
    ensures var ps := AllocAll(l, w, sizes).1;
            && LegalRun(l, v, FreeReversed(ps))
            && var w2 := Run(l, v, FreeReversed(ps));
            && w2.blocks == w.blocks
            && w2.heap.index == w.heap.index
            && w2.heap.count == w.heap.count
  {
    hide Layout.RoundUp, Tiled, Stamped, LiveCount, Malloc;
    var ps := AllocAll(l, w, sizes).1;
    LifoFrees(l, w, sizes, v);
    RunKeepsHeap(l, v, FreeReversed(ps));
    TopIsDetermined(l, w.heap, Run(l, v, FreeReversed(ps)).heap, w.blocks);
  }

  lemma {:induction false} LiveCountIsZero(bs: seq<Block>)
    ensures LiveCount(bs) == 0 <==> forall i :: 0 <= i < |bs| ==> !bs[i].live
    decreases |bs|
  {
    if bs != [] {
      LiveCountIsZero(bs[..|bs| - 1]);
      assert forall i :: 0 <= i < |bs| - 1 ==> bs[i] == bs[..|bs| - 1][i];
    }
  }

  /** When a test starts with no live block (stranded ones may remain), EndTest fails after any run
      exactly when some block is live then. */
  lemma EndTestFailsIffLeak(l: ValidLayout, w: World, ops: seq<Op>)
    requires Inv(l, StartTest(w.heap), w.blocks)
    requires LegalRun(l, World(StartTest(w.heap), w.blocks), ops)
    ensures var w' := Run(l, World(StartTest(w.heap), w.blocks), ops);
            EndTestFails(w'.heap) <==> exists i :: 0 <= i < |w'.blocks| && w'.blocks[i].live
  {
    hide Layout.RoundUp, Tiled, Stamped, LiveCount, Next;
    var start := World(StartTest(w.heap), w.blocks);
    RunKeepsHeap(l, start, ops);
    LiveCountIsZero(Run(l, start, ops).blocks);
  }
}
