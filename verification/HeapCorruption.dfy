/** What a client that writes outside its payload does to the heap: the damage to one block stays
    in that block through any further run on the others, and comes out when the block is freed. */
module HeapCorruption {
  import opened Bytes
  import opened HeapSpec
  import opened HeapRuns
  import opened HeapWorld
  import opened HeapTheorems

  // ---------------------------------------------------------------- runs on the heap alone

  predicate AllPossible(l: ValidLayout, h: Heap, ops: seq<Op>)
    decreases |ops|
  {
    ops != [] ==> Possible(l, h, ops[0]) && AllPossible(l, Perform(l, h, ops[0]).0, ops[1..])
  }

  function PerformAll(l: ValidLayout, h: Heap, ops: seq<Op>): (Heap, seq<Outcome>)
    requires AllPossible(l, h, ops)
    decreases |ops|
  {
    if ops == [] then (h, [])
    else
      var (h1, o) := Perform(l, h, ops[0]);
      var (h2, os) := PerformAll(l, h1, ops[1..]);
      (h2, [o] + os)
  }

  /** The heap with the bytes from `at` on overwritten. */
  function Over(h: Heap, at: nat, data: seq<byte>): Heap
    requires at + |data| <= |h.bytes|
  {
    h.(bytes := Patch(h.bytes, at, data))
  }

  // ---------------------------------------------------------------- damage commutes

  lemma PatchesCommute(s: seq<byte>, at: nat, data: seq<byte>, at': nat, data': seq<byte>)
    requires at + |data| <= |s| && at' + |data'| <= |s|
    requires at + |data| <= at' || at' + |data'| <= at
    ensures Patch(Patch(s, at, data), at', data') == Patch(Patch(s, at', data'), at, data)
  {
  }

  lemma StampCommutes(l: ValidLayout, bytes: seq<byte>, at: nat, data: seq<byte>, mem: nat, size: nat)
    requires HasHeader(l, bytes, mem) && mem + size + |TRAILER| <= |bytes|
    requires at + |data| <= mem - l.Header()
    ensures StampBlock(l, Patch(bytes, at, data), mem, size) == Patch(StampBlock(l, bytes, mem, size), at, data)
  {
    hide Patch, ToLE, Layout.RoundUp;
    var b1 := Patch(bytes, mem - l.Header(), ToLE(size, l.word));
    var b2 := Patch(b1, mem - l.word, ToLE(0, l.word));
    PatchesCommute(bytes, at, data, mem - l.Header(), ToLE(size, l.word));
    PatchesCommute(b1, at, data, mem - l.word, ToLE(0, l.word));
    PatchesCommute(b2, at, data, mem + size, TRAILER);
  }

  /** malloc neither sees nor changes what lies below the top. */
  lemma MallocCommutes(l: ValidLayout, h: Heap, at: nat, data: seq<byte>, size: nat)
    requires at + |data| <= h.index && at + |data| <= |h.bytes|
    ensures |Malloc(l, h, size).0.bytes| == |h.bytes|
    ensures var (h', p) := Malloc(l, h, size);
            Malloc(l, Over(h, at, data), size) == (Over(h', at, data), p)
  {
    hide Patch, StampBlock, Layout.RoundUp;
    if Malloc(l, h, size).1.At? {
      StampCommutes(l, h.bytes, at, data, h.index + l.Header(), size);
    }
  }

  /** What can be read of a block depends on its own bytes only. */
  lemma ReadsAgree(l: ValidLayout, x: seq<byte>, y: seq<byte>, mem: nat)
    requires Readable(l, x, mem)
    requires SameBytes(x, y, mem - l.Header(), mem)
    requires SameBytes(x, y, mem + RecordedSize(l, x, mem), mem + RecordedSize(l, x, mem) + |TRAILER|)
    ensures Readable(l, y, mem)
    ensures RecordedSize(l, y, mem) == RecordedSize(l, x, mem)
    ensures IsOverrun(l, y, mem) == IsOverrun(l, x, mem)
  {
    hide FromLE, Layout.RoundUp;
    var size := RecordedSize(l, x, mem);
    assert x[mem - l.Header()..mem - l.word] == y[mem - l.Header()..mem - l.word];
    assert x[mem - l.word..mem] == y[mem - l.word..mem];
    assert x[mem + size..mem + size + |TRAILER|] == y[mem + size..mem + size + |TRAILER|];
  }

  /** The stretch from the header of a block to the end of its trailer. */
  predicate Extent(l: ValidLayout, b: Block, at: int, data: seq<byte>) {
    at == Start(l, b) && |data| == l.Header() + b.size + |TRAILER|
  }

  /** Block `j` is live and block `k` another one, which is overwritten. */
  ghost predicate Apart(l: ValidLayout, w: World, j: nat, k: nat, at: nat, data: seq<byte>) {
    && WorldInv(l, w)
    && j < |w.blocks| && k < |w.blocks| && j != k
    && w.blocks[j].live
    && Extent(l, w.blocks[k], at, data)
  }

  lemma ApartRanges(l: ValidLayout, w: World, j: nat, k: nat, at: nat, data: seq<byte>)
    requires Apart(l, w, j, k, at, data)
    ensures at + |data| <= w.heap.index <= |w.heap.bytes|
    ensures at + |data| <= Start(l, w.blocks[j]) || End(l, w.blocks[j]) <= at
    ensures j == |w.blocks| - 1 ==> at + |data| <= Start(l, w.blocks[j])
    ensures w.blocks[j].mem + w.blocks[j].size + |TRAILER| <= End(l, w.blocks[j])
  {
    hide Layout.RoundUp, Tiled, Stamped, LiveCount;
    TiledBounds(l, w.blocks, w.heap.index, k);
    TiledBounds(l, w.blocks, w.heap.index, j);
    TiledOrder(l, w.blocks, w.heap.index, if j < k then j else k, if j < k then k else j);
  }

  /** Another block looks the same in the damaged heap. */
  lemma OtherLooksSame(l: ValidLayout, w: World, j: nat, k: nat, at: nat, data: seq<byte>)
    requires Apart(l, w, j, k, at, data)
    ensures at + |data| <= |w.heap.bytes|
    ensures var (h, d, mem) := (w.heap, Over(w.heap, at, data), w.blocks[j].mem);
            && PointerOk(l, h, At(mem)) && PointerOk(l, d, At(mem))
            && RecordedSize(l, h.bytes, mem) == RecordedSize(l, d.bytes, mem) == w.blocks[j].size
            && !IsOverrun(l, h.bytes, mem) && !IsOverrun(l, d.bytes, mem)
  {
    hide Layout.RoundUp, Tiled, LiveCount, IsOverrun, RecordedSize;
    ApartRanges(l, w, j, k, at, data);
    LiveIndex(l, w.blocks, w.heap.index, j);
    LiveIsReadable(l, w.heap, w.blocks, At(w.blocks[j].mem));
    hide Stamped;
    ReadsAgree(l, w.heap.bytes, Over(w.heap, at, data).bytes, w.blocks[j].mem);
  }

  lemma CopyCommutes(l: ValidLayout, w: World, j: nat, k: nat, at: nat, data: seq<byte>, size: nat)
    requires Apart(l, w, j, k, at, data) && w.blocks[j].size < size
    requires Malloc(l, w.heap, size).1.At?
    ensures at + |data| <= |w.heap.bytes|
    ensures var (h, d, b) := (w.heap, Over(w.heap, at, data), w.blocks[j]);
            var (h1, p) := Malloc(l, h, size);
            && b.mem + b.size <= |h.bytes| == |h1.bytes|
            && p.addr + b.size <= |h1.bytes|
            && var h2 := CopiedTo(h, h1, b.mem, b.size, p.addr);
            && CopiedTo(d, Over(h1, at, data), b.mem, b.size, p.addr) == Over(h2, at, data)
            && Apart(l, World(h2, MallocBlocks(w.blocks, p, size)), j, k, at, data)
  {
    hide Patch, Malloc, Layout.RoundUp, Tiled, Stamped, LiveCount, Layout.Body, TRAILER;
    var h, bs, b := w.heap, w.blocks, w.blocks[j];
    ApartRanges(l, w, j, k, at, data);
    MallocCommutes(l, h, at, data, size);
    CopyStep(l, h, bs, j, size);
    PatchElsewhere(h.bytes, at, data, b.mem, b.mem + b.size);
    PatchesCommute(Malloc(l, h, size).0.bytes, at, data, h.index + l.Header(), h.bytes[b.mem..b.mem + b.size]);
  }

  lemma MoveCommutes(l: ValidLayout, w: World, j: nat, k: nat, at: nat, data: seq<byte>, size: nat)
    requires Apart(l, w, j, k, at, data) && w.blocks[j].size < size
    ensures at + |data| <= |w.heap.bytes|
    ensures var (h, d, mem) := (w.heap, Over(w.heap, at, data), w.blocks[j].mem);
            && PointerOk(l, h, At(mem)) && RecordedSize(l, h.bytes, mem) < size
            && PointerOk(l, d, At(mem)) && RecordedSize(l, d.bytes, mem) < size
            && var (h', p) := Move(l, h, mem, size);
            && |h'.bytes| == |h.bytes|
            && Move(l, d, mem, size) == (Over(h', at, data), p)
  {
    hide Patch, Malloc, Layout.RoundUp, Tiled, Stamped, LiveCount, RecordedSize, IsOverrun;
    var h, b := w.heap, w.blocks[j];
    ApartRanges(l, w, j, k, at, data);
    OtherLooksSame(l, w, j, k, at, data);
    MallocCommutes(l, h, at, data, size);
    var (h1, p) := Malloc(l, h, size);
    if p.At? {
      CopyCommutes(l, w, j, k, at, data, size);
      var w2 := World(CopiedTo(h, h1, b.mem, b.size, p.addr), MallocBlocks(w.blocks, p, size));
      OtherLooksSame(l, w2, j, k, at, data);
    }
  }

  /** Releasing another block, and allocating where it was if it was on top. */
  lemma RegrowCommutes(l: ValidLayout, w: World, j: nat, k: nat, at: nat, data: seq<byte>, size: nat)
    requires Apart(l, w, j, k, at, data)
    ensures at + |data| <= |w.heap.bytes|
    ensures var (h, d, mem) := (w.heap, Over(w.heap, at, data), w.blocks[j].mem);
            && HasHeader(l, h.bytes, mem) && HasHeader(l, d.bytes, mem)
            && IsTop(l, h, mem) == IsTop(l, d, mem)
            && Release(l, h, mem).bytes == h.bytes
            && Release(l, d, mem) == Over(Release(l, h, mem), at, data)
            && var (h', p) := Malloc(l, Release(l, h, mem), size);
            && |h'.bytes| == |h.bytes|
            && Malloc(l, Release(l, d, mem), size) == (Over(h', at, data), p)
  {
    hide Patch, Malloc, Layout.RoundUp, Tiled, Stamped, LiveCount, RecordedSize, IsOverrun;
    var h, mem := w.heap, w.blocks[j].mem;
    ApartRanges(l, w, j, k, at, data);
    OtherLooksSame(l, w, j, k, at, data);
    ReleaseStep(l, h, w.blocks, j);
    MallocCommutes(l, Release(l, h, mem), at, data, size);
  }

  lemma ReallocCommutes(l: ValidLayout, w: World, j: nat, k: nat, at: nat, data: seq<byte>, size: nat)
    requires Apart(l, w, j, k, at, data)
    ensures at + |data| <= |w.heap.bytes|
    ensures var (h, d, p) := (w.heap, Over(w.heap, at, data), At(w.blocks[j].mem));
            && PointerOk(l, h, p) && PointerOk(l, d, p)
            && var (h', o) := Realloc(l, h, p, size);
            && |h'.bytes| == |h.bytes|
            && Realloc(l, d, p, size) == (Over(h', at, data), o)
  {
    hide Patch, Malloc, Move, Release, IsTop, Layout.RoundUp, Tiled, Stamped, LiveCount, RecordedSize, IsOverrun;
    OtherLooksSame(l, w, j, k, at, data);
    RegrowCommutes(l, w, j, k, at, data, size);
    if w.blocks[j].size < size {
      MoveCommutes(l, w, j, k, at, data, size);
    }
  }

  lemma FreeCommutes(l: ValidLayout, w: World, j: nat, k: nat, at: nat, data: seq<byte>)
    requires Apart(l, w, j, k, at, data)
    ensures at + |data| <= |w.heap.bytes|
    ensures var (h, d, p) := (w.heap, Over(w.heap, at, data), At(w.blocks[j].mem));
            && PointerOk(l, h, p) && PointerOk(l, d, p)
            && var (h', o) := Free(l, h, p);
            && |h'.bytes| == |h.bytes|
            && Free(l, d, p) == (Over(h', at, data), o)
  {
    hide Patch, Malloc, Release, IsTop, Layout.RoundUp, Tiled, Stamped, LiveCount, RecordedSize, IsOverrun;
    OtherLooksSame(l, w, j, k, at, data);
    RegrowCommutes(l, w, j, k, at, data, 0);
  }

  // ---------------------------------------------------------------- steps and runs

  /** Block `k` is live, and `data` is to overwrite it from its header to the end of its trailer. */
  ghost predicate Damaged(l: ValidLayout, w: World, k: nat, at: nat, data: seq<byte>) {
    && WorldInv(l, w)
    && k < |w.blocks| && w.blocks[k].live
    && Extent(l, w.blocks[k], at, data)
  }

  lemma DamageIsBelow(l: ValidLayout, w: World, k: nat, at: nat, data: seq<byte>)
    requires Damaged(l, w, k, at, data)
    ensures at + |data| <= w.heap.index <= |w.heap.bytes|
  {
    hide Layout.RoundUp, Tiled, Stamped, LiveCount;
    TiledBounds(l, w.blocks, w.heap.index, k);
  }

  ghost function DamagedBytes(l: ValidLayout, w: World, k: nat, at: nat, data: seq<byte>): seq<byte>
    requires Damaged(l, w, k, at, data)
  {
    DamageIsBelow(l, w, k, at, data);
    Patch(w.heap.bytes, at, data)
  }

  lemma CallocCommutes(l: ValidLayout, h: Heap, at: nat, data: seq<byte>, num: nat, size: nat)
    requires at + |data| <= h.index && at + |data| <= |h.bytes|
    ensures |Calloc(l, h, num, size).0.bytes| == |h.bytes|
    ensures var (h', p) := Calloc(l, h, num, size);
            Calloc(l, Over(h, at, data), num, size) == (Over(h', at, data), p)
  {
    hide Patch, StampBlock, Layout.RoundUp;
    var n := num * size;
    MallocCommutes(l, h, at, data, n);
    var (h1, p) := Malloc(l, h, n);
    if p.At? {
      PatchesCommute(h1.bytes, at, data, p.addr, seq(n, _ => 0));
    }
  }

  /** An operation on other blocks does in the damaged heap what it does in the sound one, returns
      the same, and leaves the damage as it is. */
  lemma StepCommutes(l: ValidLayout, w: World, op: Op, k: nat, at: nat, data: seq<byte>)
    requires Damaged(l, w, k, at, data) && Legal(w, op) && !Targets(op, w.blocks[k].mem)
    ensures at + |data| <= |w.heap.bytes|
    ensures Possible(l, w.heap, op) && Possible(l, Over(w.heap, at, data), op)
    ensures var (h', o) := Perform(l, w.heap, op);
            && |h'.bytes| == |w.heap.bytes|
            && Perform(l, Over(w.heap, at, data), op) == (Over(h', at, data), o)
  {
    hide Patch, Malloc, Calloc, Realloc, Free, PointerOk, Layout.RoundUp, Tiled, Stamped, LiveCount;
    DamageIsBelow(l, w, k, at, data);
    LegalIsPossible(l, w, op);
    match op
    case OpMalloc(size) => MallocCommutes(l, w.heap, at, data, size);
    case OpCalloc(num, size) => CallocCommutes(l, w.heap, at, data, num, size);
    case OpRealloc(p, size) =>
      if p.At? {
        ReallocCommutes(l, w, IndexOf(w.blocks, p.addr), k, at, data, size);
      } else {
        NullIsPossible(l, w.heap, at, data);
        MallocCommutes(l, w.heap, at, data, size);
        ReallocNullIsMalloc(l, w.heap, size);
        ReallocNullIsMalloc(l, Over(w.heap, at, data), size);
      }
    case OpFree(p) =>
      if p.At? {
        FreeCommutes(l, w, IndexOf(w.blocks, p.addr), k, at, data);
      } else {
        NullIsPossible(l, w.heap, at, data);
      }
    case OpStore(base, offset, value) =>
      var j := IndexOf(w.blocks, base);
      ApartRanges(l, w, j, k, at, data);
      PatchesCommute(w.heap.bytes, at, data, base + offset, [value]);
    case OpFailAfter(_) =>
  }

  lemma NullIsPossible(l: ValidLayout, h: Heap, at: nat, data: seq<byte>)
    requires at + |data| <= |h.bytes|
    ensures PointerOk(l, h, Null) && PointerOk(l, Over(h, at, data), Null)
    ensures Free(l, h, Null) == (h, Returned(Null))
    ensures Free(l, Over(h, at, data), Null) == (Over(h, at, data), Returned(Null))
  {
  }

  /** So does a whole run. */
  lemma {:induction false} RunCommutes(l: ValidLayout, w: World, ops: seq<Op>, k: nat, at: nat, data: seq<byte>)
    requires Damaged(l, w, k, at, data) && LegalRun(l, w, ops)
    requires forall i :: 0 <= i < |ops| ==> !Targets(ops[i], w.blocks[k].mem)
    ensures at + |data| <= |w.heap.bytes| && AllPossible(l, w.heap, ops)
    ensures |Run(l, w, ops).heap.bytes| == |w.heap.bytes|
    ensures Damaged(l, Run(l, w, ops), k, at, data)
    ensures PerformAll(l, w.heap, ops).0 == Run(l, w, ops).heap
    ensures AllPossible(l, Over(w.heap, at, data), ops)
    ensures PerformAll(l, Over(w.heap, at, data), ops)
              == (Over(Run(l, w, ops).heap, at, data), PerformAll(l, w.heap, ops).1)
    decreases |ops|
  {
    hide Patch, Perform, Possible, BlocksAfter, PointerOk, Layout.RoundUp, Tiled, Stamped, LiveCount, Targets, Legal;
    DamageIsBelow(l, w, k, at, data);
    if ops != [] {
      StepCommutes(l, w, ops[0], k, at, data);
      LegalIsPossible(l, w, ops[0]);
      StepKeeps(l, w, ops[0]);
      RunCommutes(l, Next(l, w, ops[0]), ops[1..], k, at, data);
    }
  }

  // ---------------------------------------------------------------- the report

  /** The damage does not reach the recorded size, the first word of the header. */
  predicate LeavesSize(l: ValidLayout, bytes: seq<byte>, at: nat, data: seq<byte>) {
    l.word <= |data| && at + l.word <= |bytes| && data[..l.word] == bytes[at..at + l.word]
  }

  lemma SizeIsLeft(l: ValidLayout, bytes: seq<byte>, at: nat, data: seq<byte>)
    requires LeavesSize(l, bytes, at, data) && at + |data| <= |bytes|
    ensures SameBytes(bytes, Patch(bytes, at, data), at, at + l.word)
  {
    assert forall i :: 0 <= i < l.word ==> data[i] == data[..l.word][i] && bytes[at + i] == bytes[at..at + l.word][i];
    assert forall i :: at <= i < at + l.word ==> Patch(bytes, at, data)[i] == data[i - at];
    forall i | at <= i < at + l.word
      ensures Patch(bytes, at, data)[i] == bytes[i]
    {
      assert data[i - at] == bytes[at + (i - at)];
    }
  }

  /** The same damage to the same block reads the same, whatever the other bytes are. */
  lemma SameDamage(l: ValidLayout, x: seq<byte>, y: seq<byte>, b: Block, at: nat, data: seq<byte>)
    requires |x| == |y| && Extent(l, b, at, data) && at + |data| <= |x|
    requires Readable(l, Patch(x, at, data), b.mem) && RecordedSize(l, Patch(x, at, data), b.mem) == b.size
    ensures Readable(l, Patch(y, at, data), b.mem) && RecordedSize(l, Patch(y, at, data), b.mem) == b.size
    ensures IsOverrun(l, Patch(y, at, data), b.mem) == IsOverrun(l, Patch(x, at, data), b.mem)
  {
    hide Patch, RecordedSize, IsOverrun, Layout.RoundUp;
    ReadsAgree(l, Patch(x, at, data), Patch(y, at, data), b.mem);
  }

  lemma ReportIsOverrun(l: ValidLayout, h: Heap, mem: nat, size: nat)
    requires PointerOk(l, h, At(mem))
    ensures Free(l, h, At(mem)).1 == Overrun <==> IsOverrun(l, h.bytes, mem)
    ensures Realloc(l, h, At(mem), size).1 == Overrun <==> IsOverrun(l, h.bytes, mem)
  {
    hide Malloc, Move, Release, IsTop, IsOverrun, RecordedSize, Layout.RoundUp;
  }

  /** Overwrite a live block from its header to its trailer with any bytes that leave the recorded
      size, and let the client go on with any legal operations on other blocks, as many as it likes.
      All of them return what they would have returned. Then free or reallocate the block: an
      overrun is reported exactly when the guard word or the trailer was changed. */
  lemma DamageIsReportedLater(l: ValidLayout, w: World, ops: seq<Op>, k: nat, at: nat, data: seq<byte>, size: nat)
    requires Damaged(l, w, k, at, data) && LegalRun(l, w, ops)
    requires forall i :: 0 <= i < |ops| ==> !Targets(ops[i], w.blocks[k].mem)
    requires LeavesSize(l, w.heap.bytes, at, data)
    ensures var b := w.blocks[k];
            var damaged := DamagedBytes(l, w, k, at, data);
            var intact := && SameBytes(w.heap.bytes, damaged, b.mem - l.word, b.mem)
                          && SameBytes(w.heap.bytes, damaged, b.mem + b.size, b.mem + b.size + |TRAILER|);
            && AllPossible(l, w.heap, ops)
            && AllPossible(l, w.heap.(bytes := damaged), ops)
            && var (h, os) := PerformAll(l, w.heap.(bytes := damaged), ops);
            && os == PerformAll(l, w.heap, ops).1
            && PointerOk(l, h, At(b.mem))
            && (Free(l, h, At(b.mem)).1 == Overrun <==> !intact)
            && (Realloc(l, h, At(b.mem), size).1 == Overrun <==> !intact)
  {
    hide Patch, Perform, PerformAll, AllPossible, Run, LegalRun, Targets, SameBytes, Malloc, Legal;
    hide Layout.RoundUp, Tiled, Stamped, LiveCount, Readable, RecordedSize, IsOverrun, IndexOf;
    var b := w.blocks[k];
    RunCommutes(l, w, ops, k, at, data);
    RunKeepsUntouchedBlock(l, w, ops, k);
    var w' := Run(l, w, ops);
    SizeIsLeft(l, w.heap.bytes, at, data);
    IsOverrunIffCorrupted(l, w.heap.bytes, Patch(w.heap.bytes, at, data), b);
    SameDamage(l, w.heap.bytes, w'.heap.bytes, b, at, data);
    TiledBounds(l, w'.blocks, w'.heap.index, k);
    ReportIsOverrun(l, Over(w'.heap, at, data), b.mem, size);
  }
}
