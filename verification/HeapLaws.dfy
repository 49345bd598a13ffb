/** The operations of the allocator in numbers: what each call returns and every byte and counter
    that it changes, from the layout of a block (two words, payload, "END\0", padding) alone; and
    what that makes of fault injection over whole runs. */
module HeapLaws {
  import opened Arithmetic
  import opened Bytes
  import opened HeapSpec
  import opened HeapRuns
  import opened HeapWorld
  import opened HeapTheorems

  // ---------------------------------------------------------------- the layout of a block

  /** What a payload of `size` bytes and its four-byte trailer take up: the multiple of the
      alignment that holds them and leaves less than one alignment unused. */
  predicate IsSpace(l: ValidLayout, size: nat, space: nat) {
    size + 4 <= space < size + 4 + l.align && space % l.align == 0
  }

  lemma SpaceIsBody(l: ValidLayout, size: nat, space: nat)
    requires IsSpace(l, size, space)
    ensures l.Body(size) == space && l.Header() == 2 * l.word && |TRAILER| == 4
  {
    hide Layout.RoundUp;
    var r := l.RoundUp(size + 4);
    IsMultipleMeaning(space, l.align);
    IsMultipleMeaning(r, l.align);
    RoundUpIsLeast(l, size + 4, space);
    MultiplesAreApart(r, space, l.align);
  }

  /** Every size has its space. */
  function Space(l: ValidLayout, size: nat): (space: nat)
    ensures IsSpace(l, size, space)
  {
    IsMultipleMeaning(l.RoundUp(size + 4), l.align);
    l.RoundUp(size + 4)
  }

  /** The four bytes at `at` are 'E', 'N', 'D' and NUL. */
  predicate IsTrailer(bytes: seq<byte>, at: nat) {
    && at + 4 <= |bytes|
    && bytes[at] == 69 && bytes[at + 1] == 78 && bytes[at + 2] == 68 && bytes[at + 3] == 0
  }

  lemma TrailerIs(bytes: seq<byte>, at: nat)
    requires at + 4 <= |bytes|
    ensures |TRAILER| == 4
    ensures bytes[at..at + |TRAILER|] == TRAILER <==> IsTrailer(bytes, at)
  {
    var t := bytes[at..at + 4];
    assert forall i :: 0 <= i < 4 ==> t[i] == bytes[at + i];
    assert TRAILER == [69, 78, 68, 0];
    if IsTrailer(bytes, at) {
      assert t == [69, 78, 68, 0];
    }
  }

  /** The heap `y` is `x` with a block written at `at`: its size, a zero word, the start of its
      payload and its trailer. All other bytes are the same. */
  ghost predicate BlockWritten(l: ValidLayout, x: seq<byte>, y: seq<byte>, at: nat, size: nat, payload: seq<byte>) {
    var mem := at + 2 * l.word;
    && |y| == |x|
    && |payload| <= size
    && mem + size + 4 <= |x|
    && FromLE(y[at..at + l.word]) == size
    && (forall i :: at + l.word <= i < mem ==> y[i] == 0)
    && y[mem..mem + |payload|] == payload
    && IsTrailer(y, mem + size)
    && (forall i :: 0 <= i < |x| && (i < at || mem + |payload| <= i < mem + size || mem + size + 4 <= i) ==>
          y[i] == x[i])
  }

  lemma StampWrites(l: ValidLayout, bytes: seq<byte>, at: nat, size: nat)
    requires at + 2 * l.word + size + 4 <= |bytes| < Pow256(l.word)
    ensures BlockWritten(l, bytes, StampBlock(l, bytes, at + 2 * l.word, size), at, size, [])
  {
    hide Layout.RoundUp, ToLE, FromLE, Pow256, StampBlock, IsTrailer;
    var mem := at + 2 * l.word;
    assert |TRAILER| == 4;
    hide TRAILER;
    var y := StampBlock(l, bytes, mem, size);
    StampBlockWords(l, bytes, mem, size);
    WordRoundTrip(size, l.word);
    ZeroWord(l.word);
    assert forall i :: at + l.word <= i < mem ==> y[i] == y[mem - l.word..mem][i - (at + l.word)];
    TrailerIs(y, mem + size);
    StampElsewhere(l, bytes, at, size);
  }

  lemma ZeroWord(w: nat)
    ensures forall i :: 0 <= i < w ==> ToLE(0, w)[i] == 0
  {
    hide ToLE, FromLE;
    WordRoundTrip(0, w);
    WordIsZero(ToLE(0, w));
  }

  lemma StampElsewhere(l: ValidLayout, bytes: seq<byte>, at: nat, size: nat)
    requires at + 2 * l.word + size + 4 <= |bytes|
    ensures var mem := at + 2 * l.word;
            forall i :: 0 <= i < |bytes| && (i < at || mem <= i < mem + size || mem + size + 4 <= i) ==>
              StampBlock(l, bytes, mem, size)[i] == bytes[i]
  {
    hide Layout.RoundUp, ToLE, Patch;
    assert |TRAILER| == 4;
  }

  /** Filling in the start of the payload of a written block. */
  lemma PayloadIsWritten(l: ValidLayout, x: seq<byte>, y: seq<byte>, at: nat, size: nat, payload: seq<byte>)
    requires BlockWritten(l, x, y, at, size, []) && |payload| <= size
    ensures BlockWritten(l, x, Patch(y, at + 2 * l.word, payload), at, size, payload)
  {
    hide FromLE, Patch;
    var mem := at + 2 * l.word;
    PatchElsewhere(y, mem, payload, at, at + l.word);
    PatchReadBack(y, mem, payload);
  }

  // ---------------------------------------------------------------- malloc and calloc

  /** An allocation is granted: no fault is due, something is asked for, and there is room. */
  predicate Granted(l: ValidLayout, h: Heap, size: nat, space: nat) {
    h.countdown != 0 && size > 0 && h.index + 2 * l.word + space <= |h.bytes|
  }

  lemma MallocLaw(l: ValidLayout, h: Heap, size: nat, space: nat)
    requires |h.bytes| < Pow256(l.word) && IsSpace(l, size, space)
    ensures var (h', p) := Malloc(l, h, size);
            && h'.countdown == (if h.countdown == 0 || h.countdown == -1 then h.countdown else h.countdown - 1)
            && if Granted(l, h, size, space) then
                 && p == At(h.index + 2 * l.word)
                 && h'.index == h.index + 2 * l.word + space
                 && h'.count == h.count + 1
                 && BlockWritten(l, h.bytes, h'.bytes, h.index, size, [])
               else
                 && p == Null
                 && h' == h.(countdown := h'.countdown)
  {
    hide Layout.RoundUp, StampBlock, BlockWritten;
    SpaceIsBody(l, size, space);
    if Granted(l, h, size, space) {
      StampWrites(l, h.bytes, h.index, size);
    }
  }

  lemma CallocLaw(l: ValidLayout, h: Heap, num: nat, size: nat, space: nat)
    requires |h.bytes| < Pow256(l.word) && IsSpace(l, num * size, space)
    ensures var (h', p) := Calloc(l, h, num, size);
            && h'.countdown == (if h.countdown == 0 || h.countdown == -1 then h.countdown else h.countdown - 1)
            && if Granted(l, h, num * size, space) then
                 && p == At(h.index + 2 * l.word)
                 && h'.index == h.index + 2 * l.word + space
                 && h'.count == h.count + 1
                 && BlockWritten(l, h.bytes, h'.bytes, h.index, num * size, seq(num * size, _ => 0))
               else
                 && p == Null
                 && h' == h.(countdown := h'.countdown)
  {
    hide Layout.RoundUp, Malloc, BlockWritten;
    var n := num * size;
    MallocLaw(l, h, n, space);
    if Granted(l, h, n, space) {
      PayloadIsWritten(l, h.bytes, Malloc(l, h, n).0.bytes, h.index, n, seq(n, _ => 0));
    }
  }

  // ---------------------------------------------------------------- free

  /** The block at `mem` as its header describes it: the guard word is zero and the trailer stands
      behind the recorded size. */
  ghost predicate Sound(l: ValidLayout, bytes: seq<byte>, mem: nat, size: nat) {
    && 2 * l.word <= mem <= |bytes|
    && (forall i :: mem - l.word <= i < mem ==> bytes[i] == 0)
    && IsTrailer(bytes, mem + size)
  }

  /** The size that the header at `mem` records. */
  predicate Records(l: ValidLayout, bytes: seq<byte>, mem: nat, size: nat) {
    2 * l.word <= mem <= |bytes| && FromLE(bytes[mem - 2 * l.word..mem - l.word]) == size
  }

  /** The heap after the block at `mem`, which takes up `space`, was given back: the top moves only
      when the block ends there. */
  function GivenBack(l: ValidLayout, h: Heap, mem: nat, space: nat): Heap
    requires 2 * l.word <= mem
  {
    Heap(h.bytes, if mem + space == h.index then mem - 2 * l.word else h.index, h.count - 1, h.countdown)
  }

  lemma OverrunIsUnsound(l: ValidLayout, h: Heap, mem: nat, size: nat)
    requires PointerOk(l, h, At(mem)) && Records(l, h.bytes, mem, size)
    ensures IsOverrun(l, h.bytes, mem) <==> !Sound(l, h.bytes, mem, size)
    ensures RecordedSize(l, h.bytes, mem) == size
  {
    hide FromLE, Layout.RoundUp;
    var guard := h.bytes[mem - l.word..mem];
    assert |TRAILER| == 4;
    WordIsZero(guard);
    assert forall i :: mem - l.word <= i < mem ==> h.bytes[i] == guard[i - (mem - l.word)];
    assert forall i :: 0 <= i < |guard| ==> guard[i] == h.bytes[mem - l.word + i];
    TrailerIs(h.bytes, mem + size);
  }

  lemma FreeLaw(l: ValidLayout, h: Heap, mem: nat, size: nat, space: nat)
    requires PointerOk(l, h, At(mem)) && Records(l, h.bytes, mem, size) && IsSpace(l, size, space)
    ensures Free(l, h, At(mem)) ==
              (GivenBack(l, h, mem, space), if Sound(l, h.bytes, mem, size) then Returned(Null) else Overrun)
    ensures Free(l, h, Null) == (h, Returned(Null))
  {
    hide Layout.RoundUp, IsOverrun, Sound, RecordedSize;
    OverrunIsUnsound(l, h, mem, size);
    SpaceIsBody(l, size, space);
  }

  // ---------------------------------------------------------------- realloc

  /** realloc in numbers. A block that is not on top, or has no room to grow there, is moved: the
      old payload, and no more, is copied, and the old block stays where it is as a stranded one. */
  lemma ReallocLaw(l: ValidLayout, h: Heap, mem: nat, recorded: nat, oldSpace: nat, size: nat, space: nat)
    requires PointerOk(l, h, At(mem)) && h.index <= |h.bytes| < Pow256(l.word)
    requires Records(l, h.bytes, mem, recorded) && IsSpace(l, recorded, oldSpace) && IsSpace(l, size, space)
    ensures var (h', o) := Realloc(l, h, At(mem), size);
            if !Sound(l, h.bytes, mem, recorded) then
              h' == GivenBack(l, h, mem, oldSpace) && o == Overrun
            else if size == 0 then
              h' == GivenBack(l, h, mem, oldSpace) && o == Returned(Null)
            else if recorded >= size then
              h' == h && o == Returned(At(mem))
            else if mem + oldSpace == h.index && mem + space <= |h.bytes| then
              if h.countdown == 0 then
                h' == GivenBack(l, h, mem, oldSpace) && o == Returned(Null)
              else
                && o == Returned(At(mem))
                && (h'.index, h'.count, h'.countdown) == (mem + space, h.count, Tick(h.countdown))
                && BlockWritten(l, h.bytes, h'.bytes, mem - 2 * l.word, size, [])
            else if h.countdown == 0 || h.index + 2 * l.word + space > |h.bytes| then
              h' == h.(countdown := Tick(h.countdown)) && o == Returned(Null)
            else
              && o == Returned(At(h.index + 2 * l.word))
              && (h'.index, h'.count, h'.countdown)
                 == (h.index + 2 * l.word + space, h.count, Tick(h.countdown))
              && BlockWritten(l, h.bytes, h'.bytes, h.index, size, h.bytes[mem..mem + recorded])
    ensures var (h', p) := Malloc(l, h, size);
            Realloc(l, h, Null, size) == (h', Returned(p))
  {
    hide Layout.RoundUp, Malloc, Move, BlockWritten, IsOverrun, RecordedSize, Sound, Fits, FromLE;
    ReallocNullIsMalloc(l, h, size);
    OverrunIsUnsound(l, h, mem, recorded);
    SpaceIsBody(l, recorded, oldSpace);
    SpaceIsBody(l, size, space);
    if Sound(l, h.bytes, mem, recorded) && size > recorded {
      if mem + oldSpace == h.index && mem + space <= |h.bytes| {
        MallocLaw(l, Release(l, h, mem), size, space);
      } else {
        MoveLaw(l, h, mem, recorded, size, space);
      }
    }
  }

  lemma MoveLaw(l: ValidLayout, h: Heap, mem: nat, recorded: nat, size: nat, space: nat)
    requires PointerOk(l, h, At(mem)) && h.index <= |h.bytes| < Pow256(l.word)
    requires Records(l, h.bytes, mem, recorded) && recorded < size && IsSpace(l, size, space)
    ensures mem + recorded <= |h.bytes| && RecordedSize(l, h.bytes, mem) == recorded
    ensures var (h', p) := Move(l, h, mem, size);
            if h.countdown == 0 || h.index + 2 * l.word + space > |h.bytes| then
              h' == h.(countdown := Tick(h.countdown)) && p == Null
            else
              && p == At(h.index + 2 * l.word)
              && (h'.index, h'.count, h'.countdown)
                 == (h.index + 2 * l.word + space, h.count, Tick(h.countdown))
              && BlockWritten(l, h.bytes, h'.bytes, h.index, size, h.bytes[mem..mem + recorded])
  {
    hide Layout.RoundUp, Malloc, BlockWritten, RecordedSize, FromLE;
    OverrunIsUnsound(l, h, mem, recorded);
    MallocLaw(l, h, size, space);
    var (h1, p) := Malloc(l, h, size);
    if p.At? {
      var payload := h.bytes[mem..mem + recorded];
      MallocBelow(l, h, size);
      PayloadIsWritten(l, h.bytes, h1.bytes, h.index, size, payload);
      OldBlockIsBelow(l, h, CopiedTo(h, h1, mem, recorded, p.addr), mem, recorded, size, space, payload);
    }
  }

  /** After the move, the old block still reads the same and does not end at the new top. */
  lemma OldBlockIsBelow(l: ValidLayout, h: Heap, h2: Heap, mem: nat, recorded: nat, size: nat, space: nat,
                        payload: seq<byte>)
    requires PointerOk(l, h, At(mem)) && Records(l, h.bytes, mem, recorded) && IsSpace(l, size, space)
    requires BlockWritten(l, h.bytes, h2.bytes, h.index, size, payload)
    requires h2.index == h.index + 2 * l.word + space
    ensures HasHeader(l, h2.bytes, mem) && !IsTop(l, h2, mem)
  {
    hide Layout.RoundUp, FromLE, IsTrailer;
    assert h2.bytes[mem - l.Header()..mem - l.word] == h.bytes[mem - l.Header()..mem - l.word];
    assert |TRAILER| == 4;
    SpaceHoldsOne(l, size, space);
  }

  lemma SpaceHoldsOne(l: ValidLayout, size: nat, space: nat)
    requires IsSpace(l, size, space)
    ensures l.align <= space
  {
    MultiplesAreApart(0, space, l.align);
  }

  // ---------------------------------------------------------------- fault injection over runs

  /** The operation asks malloc for memory: realloc does so for null and to grow a block. */
  predicate Allocates(w: World, op: Op)
    requires Legal(w, op)
  {
    match op
    case OpMalloc(_) => true
    case OpCalloc(_, _) => true
    case OpRealloc(p, size) => p.Null? || size > w.blocks[IndexOf(w.blocks, p.addr)].size
    case _ => false
  }

  lemma BlockRecords(l: ValidLayout, w: World, addr: nat)
    requires WorldInv(l, w) && IsLive(w.blocks, At(addr))
    ensures PointerOk(l, w.heap, At(addr))
    ensures var size := w.blocks[IndexOf(w.blocks, addr)].size;
            Records(l, w.heap.bytes, addr, size) && Sound(l, w.heap.bytes, addr, size)
  {
    hide Layout.RoundUp, Tiled, LiveCount, Sound, IsOverrun, FromLE, Stamped;
    LiveIsReadable(l, w.heap, w.blocks, At(addr));
    OverrunIsUnsound(l, w.heap, addr, w.blocks[IndexOf(w.blocks, addr)].size);
  }

  lemma ReallocTicks(l: ValidLayout, w: World, addr: nat, size: nat)
    requires WorldInv(l, w) && Legal(w, OpRealloc(At(addr), size))
    ensures PointerOk(l, w.heap, At(addr))
    ensures var (h', o) := Realloc(l, w.heap, At(addr), size);
            if Allocates(w, OpRealloc(At(addr), size)) then
              && h'.countdown == Tick(w.heap.countdown)
              && (w.heap.countdown == 0 ==> o == Returned(Null))
            else h'.countdown == w.heap.countdown
  {
    hide Layout.RoundUp, Tiled, LiveCount, Stamped, Realloc, BlockWritten, Sound, Records, IsSpace, Space, PointerOk;
    var recorded := w.blocks[IndexOf(w.blocks, addr)].size;
    BlockRecords(l, w, addr);
    ReallocLaw(l, w.heap, addr, recorded, Space(l, recorded), size, Space(l, size));
  }

  lemma FreeTicks(l: ValidLayout, w: World, p: Pointer)
    requires WorldInv(l, w) && Legal(w, OpFree(p))
    ensures PointerOk(l, w.heap, p) && Free(l, w.heap, p).0.countdown == w.heap.countdown
  {
    hide Layout.RoundUp, Tiled, LiveCount, Stamped, Sound, Records, IsSpace, Space;
    if p.At? {
      hide PointerOk;
      var size := w.blocks[IndexOf(w.blocks, p.addr)].size;
      BlockRecords(l, w, p.addr);
      FreeLaw(l, w.heap, p.addr, size, Space(l, size));
    }
  }

  /** The countdown and the result of one operation. */
  lemma StepTicks(l: ValidLayout, w: World, op: Op)
    requires WorldInv(l, w) && Legal(w, op)
    ensures Next(l, w, op).heap.countdown ==
              if op.OpFailAfter? then op.countdown
              else if Allocates(w, op) then Tick(w.heap.countdown)
              else w.heap.countdown
    ensures Allocates(w, op) && w.heap.countdown == 0 ==> ResultOf(l, w, op) == Null
  {
    hide Layout.RoundUp, Tiled, LiveCount, Stamped, Malloc, Calloc, Realloc, Free, BlockWritten, BlocksAfter, Space;
    match op
    case OpMalloc(size) =>
      MallocLaw(l, w.heap, size, Space(l, size));
    case OpCalloc(num, size) =>
      CallocLaw(l, w.heap, num, size, Space(l, num * size));
    case OpRealloc(p, size) =>
      if p.At? {
        ReallocTicks(l, w, p.addr, size);
      } else {
        MallocLaw(l, w.heap, size, Space(l, size));
        ReallocNullIsMalloc(l, w.heap, size);
      }
    case OpFree(p) =>
      FreeTicks(l, w, p);
    case _ =>
  }

  /** How many operations of a run ask malloc for memory. */
  ghost function Allocations(l: ValidLayout, w: World, ops: seq<Op>): nat
    requires WorldInv(l, w) && LegalRun(l, w, ops)
    decreases |ops|
  {
    if ops == [] then 0
    else
      StepKeeps(l, w, ops[0]);
      (if Allocates(w, ops[0]) then 1 else 0) + Allocations(l, Next(l, w, ops[0]), ops[1..])
  }

  lemma {:induction false} RunTicks(l: ValidLayout, w: World, ops: seq<Op>)
    requires WorldInv(l, w) && LegalRun(l, w, ops) && w.heap.countdown >= 0
    requires forall i :: 0 <= i < |ops| ==> !ops[i].OpFailAfter?
    ensures var left := w.heap.countdown - Allocations(l, w, ops);
            Run(l, w, ops).heap.countdown == if left > 0 then left else 0
    decreases |ops|
  {
    hide Layout.RoundUp, Next, Tiled, LiveCount, Allocates;
    if ops != [] {
      StepKeeps(l, w, ops[0]);
      StepTicks(l, w, ops[0]);
      RunTicks(l, Next(l, w, ops[0]), ops[1..]);
    }
  }

  /** Fault injection. Let the countdown stand at `c`, as OpFailAfter(c) leaves it, and go on with any
      legal run: as long as it has asked for memory fewer than `c` times, malloc and calloc are
      refused only for size zero or for want of room; from then on every request is refused. */
  lemma FaultInjection(l: ValidLayout, w: World, c: nat, ops: seq<Op>, op: Op)
    requires WorldInv(l, w) && w.heap.countdown == c && LegalRun(l, w, ops) && Legal(Run(l, w, ops), op)
    requires forall i :: 0 <= i < |ops| ==> !ops[i].OpFailAfter?
    ensures WorldInv(l, Run(l, w, ops))
    ensures var w' := Run(l, w, ops);
            var room := |w'.heap.bytes| - w'.heap.index - 2 * l.word;
            if Allocations(l, w, ops) < c then
              && (op.OpMalloc? ==>
                    (ResultOf(l, w', op).At? <==> op.size > 0 && Space(l, op.size) <= room))
              && (op.OpCalloc? ==>
                    (ResultOf(l, w', op).At? <==> op.num * op.size > 0 && Space(l, op.num * op.size) <= room))
            else
              Allocates(w', op) ==> ResultOf(l, w', op) == Null
  {
    hide Layout.RoundUp, Tiled, LiveCount, Stamped, Malloc, Calloc, BlockWritten, Space, Run, LegalRun, BlocksAfter;
    hide Allocations, Realloc, Free;
    RunKeepsHeap(l, w, ops);
    RunTicks(l, w, ops);
    var w' := Run(l, w, ops);
    StepTicks(l, w', op);
    if op.OpMalloc? {
      MallocLaw(l, w'.heap, op.size, Space(l, op.size));
    } else if op.OpCalloc? {
      CallocLaw(l, w'.heap, op.num, op.size, Space(l, op.num * op.size));
    }
  }

  // ---------------------------------------------------------------- between tests

  lemma FreshHeapLaw(capacity: nat)
    ensures var h := FreshHeap(capacity);
            && |h.bytes| == capacity
            && (forall i :: 0 <= i < capacity ==> h.bytes[i] == 0)
            && (h.index, h.count, h.countdown) == (0, 0, -1)
  {
  }

  /** Whatever a test leaves behind, the next one starts with no leak and no fault counted: it does
      not fail at its end unless it allocates itself, and its allocations are granted whenever there
      is room. */
  lemma TestStartsClean(l: ValidLayout, h: Heap, size: nat)
    requires |h.bytes| < Pow256(l.word)
    ensures !EndTestFails(StartTest(h))
    ensures StartTest(h).bytes == h.bytes && StartTest(h).index == h.index
    ensures Malloc(l, StartTest(h), size).1.At? <==>
              size > 0 && h.index + 2 * l.word + Space(l, size) <= |h.bytes|
    ensures Malloc(l, StartTest(h), size).0.countdown == -1
  {
    hide Layout.RoundUp, Malloc, BlockWritten, Space;
    MallocLaw(l, StartTest(h), size, Space(l, size));
  }
}
