/** The allocator refines a store of separate objects: to a well-behaved client each live block is
    a byte string of its own, that only operations on that block change. */
module HeapRefinement {
  import opened Bytes
  import opened HeapSpec
  import opened HeapRuns
  import opened HeapWorld
  import opened HeapTheorems

  /** The objects of a client: their addresses and contents. */
  type Objects = map<nat, seq<byte>>

  /** A new object of `size` bytes, or none. */
  ghost predicate Allocated(v: Objects, p: Pointer, size: nat, v': Objects) {
    match p
    case Null => v' == v
    case At(a) => a !in v && a in v' && |v'[a]| == size && v' - {a} == v
  }

  /** What one operation with result `p` may do to the objects. */
  ghost predicate ObjectStep(v: Objects, op: Op, p: Pointer, v': Objects) {
    match op
    case OpMalloc(size) => Allocated(v, p, size, v')
    case OpCalloc(num, size) =>
      && Allocated(v, p, num * size, v')
      && (p.At? ==> forall i :: 0 <= i < |v'[p.addr]| ==> v'[p.addr][i] == 0)
    case OpRealloc(Null, size) => Allocated(v, p, size, v')
    case OpRealloc(At(a), size) =>
      && a in v
      && (match p
          case Null => v' == v - {a} || (size > 0 && v' == v)
          case At(q) =>
            && q in v'
            && |v'[q]| >= size
            && SamePrefix(v[a], v'[q], size)
            && v' - {q} == v - {a})
    case OpFree(Null) => v' == v
    case OpFree(At(a)) => a in v && v' == v - {a}
    case OpStore(base, offset, value) =>
      base in v && offset < |v[base]| && v' == v[base := v[base][offset := value]]
    case OpFailAfter(_) => v' == v
  }

  /** `y` starts with the first `n` bytes of `x`, or with all of `x`. */
  ghost predicate SamePrefix(x: seq<byte>, y: seq<byte>, n: nat) {
    var k := if |x| < n then |x| else n;
    k <= |y| && y[..k] == x[..k]
  }

  /** The address belongs to a live block. */
  predicate LiveAt(bs: seq<Block>, a: nat) {
    IndexOf(bs, a) >= 0
  }

  ghost function SizeAt(bs: seq<Block>, a: nat): nat
    requires LiveAt(bs, a)
  {
    bs[IndexOf(bs, a)].size
  }

  lemma LiveInBounds(l: ValidLayout, w: World, a: nat)
    requires WorldInv(l, w) && LiveAt(w.blocks, a)
    ensures a + SizeAt(w.blocks, a) <= |w.heap.bytes|
  {
    hide Layout.RoundUp, Tiled, LiveCount, RecordedSize, GuardSpace;
    assert Stamped(l, w.heap.bytes, w.blocks[IndexOf(w.blocks, a)]);
  }

  ghost function ContentsAt(l: ValidLayout, w: World, a: nat): seq<byte>
    requires WorldInv(l, w) && LiveAt(w.blocks, a)
  {
    LiveInBounds(l, w, a);
    w.heap.bytes[a..a + SizeAt(w.blocks, a)]
  }

  /** The live blocks as objects. */
  ghost function View(l: ValidLayout, w: World): (v: Objects)
    requires WorldInv(l, w)
    ensures forall a: nat :: a in v <==> LiveAt(w.blocks, a)
    ensures forall a: nat :: a in v ==> v[a] == ContentsAt(l, w, a)
  {
    assert forall a: nat :: LiveAt(w.blocks, a) ==> a <= |w.heap.bytes| by {
      forall a: nat | LiveAt(w.blocks, a)
        ensures a <= |w.heap.bytes|
      {
        LiveInBounds(l, w, a);
      }
    }
    map a: nat | 0 <= a <= |w.heap.bytes| && LiveAt(w.blocks, a) :: ContentsAt(l, w, a)
  }

  // ---------------------------------------------------------------- addresses

  /** A live address names its block, so it stays live exactly as long as that block does. */
  lemma SurvivingAddress(l: ValidLayout, w: World, w': World, i: nat)
    requires WorldInv(l, w) && WorldInv(l, w')
    requires i < |w.blocks| && w.blocks[i].live && Survives(w, w', i)
    ensures LiveAt(w.blocks, w.blocks[i].mem) && LiveAt(w'.blocks, w.blocks[i].mem)
    ensures ContentsAt(l, w, w.blocks[i].mem) == ContentsAt(l, w', w.blocks[i].mem)
  {
    hide Layout.RoundUp, Tiled, LiveCount, Stamped, IndexOf;
    LiveIndex(l, w.blocks, w.heap.index, i);
    LiveIndex(l, w'.blocks, w'.heap.index, i);
    LiveInBounds(l, w, w.blocks[i].mem);
  }

  lemma LiveAfterMalloc(l: ValidLayout, bs: seq<Block>, top: nat, p: Pointer, size: nat, a: nat)
    requires Tiled(l, MallocBlocks(bs, p, size), top)
    ensures LiveAt(MallocBlocks(bs, p, size), a) <==> LiveAt(bs, a) || p == At(a)
    ensures p.At? ==> !LiveAt(bs, p.addr) && SizeAt(MallocBlocks(bs, p, size), p.addr) == size
  {
    hide Layout.RoundUp, Tiled;
    if p.At? {
      var bs' := MallocBlocks(bs, p, size);
      assert bs'[..|bs|] == bs;
      LiveIndex(l, bs', top, |bs|);
      if LiveAt(bs, p.addr) {
        var i := IndexOf(bs, p.addr);
        assert bs'[i] == bs[i];
        LiveIndex(l, bs', top, i);
        assert false;
      }
    }
  }

  /** A block was marked dead, or removed from the end: its address is live no more, all others
      are as before. */
  lemma LiveWithoutOne(l: ValidLayout, bs: seq<Block>, top: nat, k: nat, bs': seq<Block>, a: nat)
    requires Tiled(l, bs, top) && k < |bs| && bs[k].live
    requires bs' == ReleaseBlocks(bs, k) || bs' == bs[k := bs[k].(live := false)]
    ensures LiveAt(bs', a) <==> LiveAt(bs, a) && a != bs[k].mem
    ensures LiveAt(bs', a) ==> SizeAt(bs', a) == SizeAt(bs, a)
  {
    hide Layout.RoundUp, Tiled, IndexOf;
    assert forall i :: 0 <= i < |bs'| && i != k ==> bs'[i] == bs[i];
    if LiveAt(bs, a) && a == bs[k].mem {
      LiveIndex(l, bs, top, k);
    }
    if LiveAt(bs', a) {
      LiveIndex(l, bs, top, IndexOf(bs', a));
      LiveIndex(l, bs, top, k);
    }
  }

  // ---------------------------------------------------------------- one operation

  /** An operation leaves every object that it does not target live and equal. */
  lemma OthersStay(l: ValidLayout, w: World, op: Op)
    requires WorldInv(l, w) && Legal(w, op)
    ensures WorldInv(l, Next(l, w, op))
    ensures var v, v' := View(l, w), View(l, Next(l, w, op));
            forall a: nat :: a in v && !Targets(op, a) ==> a in v' && v'[a] == v[a]
  {
    hide Layout.RoundUp, Tiled, LiveCount, Stamped, IndexOf, Next, View, Targets, ContentsAt;
    StepKeeps(l, w, op);
    var w' := Next(l, w, op);
    var v, v' := View(l, w), View(l, w');
    forall a: nat | a in v && !Targets(op, a)
      ensures a in v' && v'[a] == v[a]
    {
      SurvivingAddress(l, w, w', IndexOf(w.blocks, a));
    }
  }

  /** A set of objects that gained exactly one. */
  lemma GainsOne(v: Objects, v': Objects, p: Pointer, size: nat)
    requires forall a: nat :: a in v' <==> a in v || p == At(a)
    requires forall a: nat :: a in v ==> v'[a] == v[a]
    requires p.At? ==> p.addr !in v && |v'[p.addr]| == size
    ensures Allocated(v, p, size, v')
  {
    match p
    case Null =>
      assert v' == v;
    case At(a) =>
      assert v' - {a} == v;
  }

  lemma MallocRefines(l: ValidLayout, w: World, size: nat)
    requires WorldInv(l, w)
    ensures var op := OpMalloc(size);
            WorldInv(l, Next(l, w, op)) && ObjectStep(View(l, w), op, ResultOf(l, w, op), View(l, Next(l, w, op)))
  {
    hide Layout.RoundUp, Tiled, LiveCount, Stamped, IndexOf, View, Malloc, Allocated, LiveAt;
    var op := OpMalloc(size);
    var w' := Next(l, w, op);
    OthersStay(l, w, op);
    AllocationRefines(l, w, w', ResultOf(l, w, op), size);
  }

  /** After an allocation that leaves all other objects alone, there is one more object or none. */
  lemma AllocationRefines(l: ValidLayout, w: World, w': World, p: Pointer, size: nat)
    requires WorldInv(l, w) && WorldInv(l, w')
    requires w'.blocks == MallocBlocks(w.blocks, p, size)
    requires forall a: nat :: a in View(l, w) ==> a in View(l, w') && View(l, w')[a] == View(l, w)[a]
    ensures Allocated(View(l, w), p, size, View(l, w'))
  {
    hide Layout.RoundUp, Tiled, LiveCount, Stamped, IndexOf, View, Allocated, MallocBlocks, LiveAt;
    var v, v' := View(l, w), View(l, w');
    forall a: nat
      ensures a in v' <==> a in v || p == At(a)
    {
      LiveAfterMalloc(l, w.blocks, w'.heap.index, p, size, a);
    }
    if p.At? {
      LiveAfterMalloc(l, w.blocks, w'.heap.index, p, size, p.addr);
      LiveInBounds(l, w', p.addr);
    }
    GainsOne(v, v', p, size);
  }

  lemma CallocRefines(l: ValidLayout, w: World, num: nat, size: nat)
    requires WorldInv(l, w)
    ensures var op := OpCalloc(num, size);
            WorldInv(l, Next(l, w, op)) && ObjectStep(View(l, w), op, ResultOf(l, w, op), View(l, Next(l, w, op)))
  {
    hide Layout.RoundUp, Tiled, LiveCount, Stamped, IndexOf, View, Calloc, Malloc, LiveAt, MallocBlocks;
    var op := OpCalloc(num, size);
    var w' := Next(l, w, op);
    var p := ResultOf(l, w, op);
    OthersStay(l, w, op);
    CallocStep(l, w.heap, w.blocks, num, size);
    AllocationRefines(l, w, w', p, num * size);
    if p.At? {
      LiveAfterMalloc(l, w.blocks, w'.heap.index, p, num * size, p.addr);
      var n := num * size;
      assert ContentsAt(l, w', p.addr) == w'.heap.bytes[p.addr..p.addr + n];
    }
  }

  lemma FreeRefines(l: ValidLayout, w: World, p: Pointer)
    requires WorldInv(l, w) && Legal(w, OpFree(p))
    ensures var op := OpFree(p);
            WorldInv(l, Next(l, w, op)) && ObjectStep(View(l, w), op, ResultOf(l, w, op), View(l, Next(l, w, op)))
  {
    hide Layout.RoundUp, Tiled, LiveCount, Stamped, View, IndexOf;
    var op := OpFree(p);
    var w' := Next(l, w, op);
    OthersStay(l, w, op);
    if p.At? {
      LosesOne(l, w, w', p.addr);
    }
  }

  /** When a live block is released and all other objects stay, exactly its object is gone. */
  lemma LosesOne(l: ValidLayout, w: World, w': World, a: nat)
    requires WorldInv(l, w) && WorldInv(l, w') && LiveAt(w.blocks, a)
    requires w'.blocks == ReleaseBlocks(w.blocks, IndexOf(w.blocks, a))
    requires forall b: nat :: b in View(l, w) && b != a ==> b in View(l, w') && View(l, w')[b] == View(l, w)[b]
    ensures View(l, w') == View(l, w) - {a}
  {
    hide Layout.RoundUp, Tiled, LiveCount, Stamped, View, ReleaseBlocks, IndexOf;
    forall b: nat
      ensures b in View(l, w') <==> b in View(l, w) && b != a
    {
      LiveWithoutOne(l, w.blocks, w.heap.index, IndexOf(w.blocks, a), w'.blocks, b);
    }
  }

  lemma StoreInSlice(bytes: seq<byte>, base: nat, n: nat, offset: nat, value: byte)
    requires base + n <= |bytes| && offset < n
    ensures Patch(bytes, base + offset, [value])[base..base + n] == bytes[base..base + n][offset := value]
  {
    hide Patch;
  }

  lemma StoreRefines(l: ValidLayout, w: World, base: nat, offset: nat, value: byte)
    requires WorldInv(l, w) && Legal(w, OpStore(base, offset, value))
    ensures var op := OpStore(base, offset, value);
            WorldInv(l, Next(l, w, op)) && ObjectStep(View(l, w), op, ResultOf(l, w, op), View(l, Next(l, w, op)))
  {
    hide Layout.RoundUp, Tiled, LiveCount, Stamped, View, IndexOf;
    var op := OpStore(base, offset, value);
    var w' := Next(l, w, op);
    OthersStay(l, w, op);
    LiveInBounds(l, w, base);
    var n := SizeAt(w.blocks, base);
    assert w'.blocks == w.blocks;
    StoreInSlice(w.heap.bytes, base, n, offset, value);
    hide Patch;
    var v, v' := View(l, w), View(l, w');
    assert forall a: nat :: a in v' <==> a in v;
  }

  /** Every operation of a well-behaved client does to the objects what it should: allocation adds
      one (calloc a zeroed one), free removes one, a store changes one byte of one, and realloc
      replaces one by a large enough one with the same beginning, or fails. */
  lemma StepRefines(l: ValidLayout, w: World, op: Op)
    requires WorldInv(l, w) && Legal(w, op)
    ensures WorldInv(l, Next(l, w, op))
    ensures ObjectStep(View(l, w), op, ResultOf(l, w, op), View(l, Next(l, w, op)))
  {
    hide Layout.RoundUp, Tiled, LiveCount, Stamped, View, IndexOf, ObjectStep, Next, Legal;
    match op
    case OpMalloc(size) => MallocRefines(l, w, size);
    case OpCalloc(num, size) => CallocRefines(l, w, num, size);
    case OpRealloc(p, size) => ReallocRefines(l, w, p, size);
    case OpFree(p) => FreeRefines(l, w, p);
    case OpStore(base, offset, value) => StoreRefines(l, w, base, offset, value);
    case OpFailAfter(n) => CountdownRefines(l, w, n);
  }

  lemma CountdownRefines(l: ValidLayout, w: World, n: int)
    requires WorldInv(l, w)
    ensures var op := OpFailAfter(n);
            WorldInv(l, Next(l, w, op)) && ObjectStep(View(l, w), op, ResultOf(l, w, op), View(l, Next(l, w, op)))
  {
    hide Layout.RoundUp, Tiled, LiveCount, Stamped, View, IndexOf;
    OthersStay(l, w, OpFailAfter(n));
    var v, v' := View(l, w), View(l, Next(l, w, OpFailAfter(n)));
    assert forall a: nat :: a in v' <==> a in v;
    assert v' == v;
  }

  // ---------------------------------------------------------------- realloc

  lemma ReallocRefines(l: ValidLayout, w: World, p: Pointer, size: nat)
    requires WorldInv(l, w) && Legal(w, OpRealloc(p, size))
    ensures var op := OpRealloc(p, size);
            WorldInv(l, Next(l, w, op)) && ObjectStep(View(l, w), op, ResultOf(l, w, op), View(l, Next(l, w, op)))
  {
    hide Layout.RoundUp, Tiled, LiveCount, Stamped, View, IndexOf, Malloc, Allocated, Realloc;
    var op := OpRealloc(p, size);
    OthersStay(l, w, op);
    if p.Null? {
      ReallocNullIsMalloc(l, w.heap, size);
      AllocationRefines(l, w, Next(l, w, op), ResultOf(l, w, op), size);
    } else {
      ReallocLiveRefines(l, w, p.addr, size);
      hide Next, ResultOf;
    }
  }

  /** Object `a` was replaced by object `q`, which may be at the same address. */
  ghost predicate Replaced(v: Objects, a: nat, q: nat, size: nat, v': Objects) {
    && a in v
    && q in v'
    && |v'[q]| >= size
    && SamePrefix(v[a], v'[q], size)
    && v' - {q} == v - {a}
  }

  lemma ReplacesOne(v: Objects, a: nat, q: nat, size: nat, v': Objects)
    requires a in v && q in v' && |v'[q]| >= size && SamePrefix(v[a], v'[q], size)
    requires forall b: nat :: b in v' <==> (b in v && b != a) || b == q
    requires forall b: nat :: b in v && b != a ==> v'[b] == v[b]
    requires q != a ==> q !in v
    ensures Replaced(v, a, q, size, v')
  {
    assert v' - {q} == v - {a};
  }

  lemma SliceSamePrefix(x: seq<byte>, from: nat, y: seq<byte>, to: nat, n: nat, m: nat, size: nat)
    requires Copied(x, from, y, to, n) && n <= size <= m && to + m <= |y|
    ensures SamePrefix(x[from..from + n], y[to..to + m], size)
  {
    assert y[to..to + m][..n] == y[to..to + n];
  }

  lemma ReallocLiveRefines(l: ValidLayout, w: World, a: nat, size: nat)
    requires WorldInv(l, w) && LiveAt(w.blocks, a)
    ensures var op := OpRealloc(At(a), size);
            WorldInv(l, Next(l, w, op)) && ObjectStep(View(l, w), op, ResultOf(l, w, op), View(l, Next(l, w, op)))
  {
    hide Layout.RoundUp, Tiled, LiveCount, Stamped, View, IndexOf;
    hide Malloc, GrowsInPlace, Fits, IsOverrun, RecordedSize, Replaced;
    var op := OpRealloc(At(a), size);
    var h, bs, k := w.heap, w.blocks, IndexOf(w.blocks, a);
    OthersStay(l, w, op);
    LiveIsReadable(l, h, bs, At(a));
    var w' := Next(l, w, op);
    if size == 0 {
      LosesOne(l, w, w', a);
    } else if bs[k].size >= size {
      assert w' == w;
      LiveInBounds(l, w, a);
      assert SamePrefix(View(l, w)[a], View(l, w)[a], size);
    } else if GrowsInPlace(l, h, a, size) {
      hide Realloc, Next, ResultOf;
      ReallocInPlaceRefines(l, w, a, size);
    } else {
      hide Realloc, Next, ResultOf;
      ReallocMoveRefines(l, w, a, size);
    }
  }

  lemma ReallocInPlaceRefines(l: ValidLayout, w: World, a: nat, size: nat)
    requires WorldInv(l, w) && LiveAt(w.blocks, a) && WorldInv(l, Next(l, w, OpRealloc(At(a), size)))
    requires SizeAt(w.blocks, a) < size && HasHeader(l, w.heap.bytes, a) && GrowsInPlace(l, w.heap, a, size)
    ensures var op := OpRealloc(At(a), size);
            ObjectStep(View(l, w), op, ResultOf(l, w, op), View(l, Next(l, w, op)))
  {
    hide Layout.RoundUp, Tiled, LiveCount, Stamped, View, IndexOf;
    hide Malloc, GrowsInPlace, Fits, IsOverrun, RecordedSize, Realloc;
    var op := OpRealloc(At(a), size);
    var h, bs, k := w.heap, w.blocks, IndexOf(w.blocks, a);
    OthersStay(l, w, op);
    LiveIsReadable(l, h, bs, At(a));
    ReallocInPlace(l, h, bs, k, size);
    var w', r := Next(l, w, op), ResultOf(l, w, op);
    assert w'.blocks == MallocBlocks(ReleaseBlocks(bs, k), r, size);
    if r.Null? {
      LosesOne(l, w, w', a);
    } else {
      SameIsCopied(h.bytes, w'.heap.bytes, a, bs[k].size);
      forall b: nat
        ensures LiveAt(ReleaseBlocks(bs, k), b) <==> LiveAt(bs, b) && b != a
      {
        LiveWithoutOne(l, bs, h.index, k, ReleaseBlocks(bs, k), b);
      }
      hide Next, ResultOf;
      ReplacedInBlocks(l, w, w', a, a, size, ReleaseBlocks(bs, k));
    }
  }

  /** From the blocks after a successful growing realloc to the objects. */
  lemma ReplacedInBlocks(l: ValidLayout, w: World, w': World, a: nat, q: nat, size: nat, rest: seq<Block>)
    requires WorldInv(l, w) && WorldInv(l, w') && LiveAt(w.blocks, a)
    requires SizeAt(w.blocks, a) < size
    requires forall b: nat :: LiveAt(rest, b) <==> LiveAt(w.blocks, b) && b != a
    requires w'.blocks == MallocBlocks(rest, At(q), size)
    requires Copied(w.heap.bytes, a, w'.heap.bytes, q, SizeAt(w.blocks, a))
    requires forall b: nat :: b in View(l, w) && b != a ==> b in View(l, w') && View(l, w')[b] == View(l, w)[b]
    ensures Replaced(View(l, w), a, q, size, View(l, w'))
  {
    hide Layout.RoundUp, Tiled, LiveCount, Stamped, View, LiveAt, MallocBlocks, Replaced, SamePrefix, Copied;
    var v, v' := View(l, w), View(l, w');
    forall b: nat
      ensures b in v' <==> (b in v && b != a) || b == q
    {
      LiveAfterMalloc(l, rest, w'.heap.index, At(q), size, b);
    }
    LiveAfterMalloc(l, rest, w'.heap.index, At(q), size, q);
    LiveInBounds(l, w', q);
    SliceSamePrefix(w.heap.bytes, a, w'.heap.bytes, q, SizeAt(w.blocks, a), size, size);
    ReplacesOne(v, a, q, size, v');
  }

  /** The world after a moving realloc. */
  lemma MovedWorld(l: ValidLayout, w: World, a: nat, size: nat)
    requires WorldInv(l, w) && LiveAt(w.blocks, a)
    requires SizeAt(w.blocks, a) < size && HasHeader(l, w.heap.bytes, a) && !GrowsInPlace(l, w.heap, a, size)
    ensures var op := OpRealloc(At(a), size);
            var (w', r, k) := (Next(l, w, op), ResultOf(l, w, op), IndexOf(w.blocks, a));
            if r.Null? then w'.blocks == w.blocks && w'.heap.bytes == w.heap.bytes
            else
              && w'.blocks == MallocBlocks(w.blocks[k := w.blocks[k].(live := false)], r, size)
              && Copied(w.heap.bytes, a, w'.heap.bytes, r.addr, SizeAt(w.blocks, a))
  {
    hide Layout.RoundUp, Tiled, LiveCount, Stamped, IndexOf, Malloc;
    hide GrowsInPlace, Fits, IsOverrun, RecordedSize, Realloc, SameBytes, Copied, Inv;
    var bs, k := w.blocks, IndexOf(w.blocks, a);
    LiveIsReadable(l, w.heap, bs, At(a));
    ReallocMoves(l, w.heap, bs, k, size);
    var r := ResultOf(l, w, OpRealloc(At(a), size));
    if r.At? {
      assert ReleaseBlocks(MallocBlocks(bs, r, size), k) == MallocBlocks(bs[k := bs[k].(live := false)], r, size);
    }
  }

  lemma ReallocMoveRefines(l: ValidLayout, w: World, a: nat, size: nat)
    requires WorldInv(l, w) && LiveAt(w.blocks, a) && WorldInv(l, Next(l, w, OpRealloc(At(a), size)))
    requires SizeAt(w.blocks, a) < size && HasHeader(l, w.heap.bytes, a) && !GrowsInPlace(l, w.heap, a, size)
    ensures var op := OpRealloc(At(a), size);
            ObjectStep(View(l, w), op, ResultOf(l, w, op), View(l, Next(l, w, op)))
  {
    hide Layout.RoundUp, Tiled, LiveCount, Stamped, View, IndexOf, Next, ResultOf;
    hide GrowsInPlace, RecordedSize, SameBytes, Copied;
    var op := OpRealloc(At(a), size);
    var bs, k := w.blocks, IndexOf(w.blocks, a);
    OthersStay(l, w, op);
    MovedWorld(l, w, a, size);
    var w', r := Next(l, w, op), ResultOf(l, w, op);
    if r.Null? {
      SameView(l, w, w');
    } else {
      var rest := bs[k := bs[k].(live := false)];
      forall b: nat
        ensures LiveAt(rest, b) <==> LiveAt(bs, b) && b != a
      {
        LiveWithoutOne(l, bs, w.heap.index, k, rest, b);
      }
      ReplacedInBlocks(l, w, w', a, r.addr, size, rest);
    }
  }

  lemma SameView(l: ValidLayout, w: World, w': World)
    requires WorldInv(l, w) && WorldInv(l, w')
    requires w'.blocks == w.blocks && w'.heap.bytes == w.heap.bytes
    ensures View(l, w') == View(l, w)
  {
    hide Layout.RoundUp, Tiled, LiveCount, Stamped, IndexOf;
  }

  // ---------------------------------------------------------------- runs

  /** Objects `v` can become `v'` by the operations in order, each with some result. */
  ghost predicate ObjectRun(v: Objects, ops: seq<Op>, results: seq<Pointer>, v': Objects)
    decreases |ops|
  {
    if ops == [] then v' == v && results == []
    else
      && results != []
      && exists v1 ::
           && ObjectStep(v, ops[0], results[0], v1)
           && ObjectRun(v1, ops[1..], results[1..], v')
  }

  ghost function ResultsOf(l: ValidLayout, w: World, ops: seq<Op>): seq<Pointer>
    requires WorldInv(l, w) && LegalRun(l, w, ops)
    decreases |ops|
  {
    if ops == [] then []
    else
      StepKeeps(l, w, ops[0]);
      [ResultOf(l, w, ops[0])] + ResultsOf(l, Next(l, w, ops[0]), ops[1..])
  }

  /** Every run of a well-behaved client is a run of separate objects with the same results. */
  lemma {:induction false} RunRefines(l: ValidLayout, w: World, ops: seq<Op>)
    requires WorldInv(l, w) && LegalRun(l, w, ops)
    ensures WorldInv(l, Run(l, w, ops))
    ensures ObjectRun(View(l, w), ops, ResultsOf(l, w, ops), View(l, Run(l, w, ops)))
    decreases |ops|
  {
    hide Layout.RoundUp, Next, View, ObjectStep, Legal, ResultOf, Tiled, LiveCount, Stamped;
    RunKeepsHeap(l, w, ops);
    if ops != [] {
      var w1 := Next(l, w, ops[0]);
      StepRefines(l, w, ops[0]);
      StepKeeps(l, w, ops[0]);
      RunRefines(l, w1, ops[1..]);
      var results := ResultsOf(l, w, ops);
      assert results[0] == ResultOf(l, w, ops[0]) && results[1..] == ResultsOf(l, w1, ops[1..]);
    }
  }
}
