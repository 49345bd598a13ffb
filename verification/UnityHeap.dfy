/** unity_memory.c in its own form: a byte array with a moving top, updated in place. */
module UnityHeap {
  import opened Bytes
  import opened HeapSpec

  /** Comparing with the trailer up to the first difference decides whether it stands there. */
  lemma FirstDifference(bytes: seq<byte>, at: nat, i: nat)
    requires at + |TRAILER| <= |bytes| && i <= |TRAILER|
    requires forall j :: 0 <= j < i ==> bytes[at + j] == TRAILER[j]
    requires i < |TRAILER| ==> bytes[at + i] != TRAILER[i]
    ensures bytes[at..at + |TRAILER|] == TRAILER <==> i == |TRAILER|
  {
    var t := bytes[at..at + |TRAILER|];
    assert forall j :: 0 <= j < |TRAILER| ==> t[j] == bytes[at + j];
  }

  class UnityHeap {
    const layout: ValidLayout
    const heap: array<byte>
    var heapIndex: nat
    var mallocCount: int
    var failCountdown: int

    ghost function State(): Heap
      reads this, heap
    {
      Heap(heap[..], heapIndex, mallocCount, failCountdown)
    }

    constructor (layout: ValidLayout, capacity: nat)
      ensures this.layout == layout && fresh(heap) && heap.Length == capacity
      ensures State() == FreshHeap(capacity)
    {
      this.layout := layout;
      heap := new byte[capacity](_ => 0);
      heapIndex, mallocCount, failCountdown := 0, 0, DONT_FAIL;
    }

    method StartTest()
      modifies this
      ensures State() == HeapSpec.StartTest(old(State()))
    {
      mallocCount := 0;
      failCountdown := DONT_FAIL;
    }

    method EndTest() returns (leaks: bool)
      modifies this
      ensures leaks == HeapSpec.EndTestFails(old(State()))
      ensures State() == old(State()).(countdown := -1)
    {
      failCountdown := DONT_FAIL;
      leaks := mallocCount != 0;
    }

    method MakeMallocFailAfterCount(countdown: int)
      modifies this`failCountdown
      ensures State() == old(State()).(countdown := countdown)
    {
      failCountdown := countdown;
    }

    /** memcpy into the heap. */
    method Store(at: nat, data: seq<byte>)
      requires at + |data| <= heap.Length
      modifies heap
      ensures heap[..] == Patch(old(heap[..]), at, data)
    {
      forall i | at <= i < at + |data| {
        heap[i] := data[i - at];
      }
    }

    method SizeRoundUp(size: nat) returns (roundedSize: nat)
      ensures roundedSize == layout.RoundUp(size)
    {
      RoundUpFormula(layout, size);
      roundedSize := (size + layout.align - 1) / layout.align * layout.align;
    }

    /** Fill in the guard and the trailer of a new block. */
    method Stamp(guard: nat, size: nat)
      requires guard + layout.Header() + size + |TRAILER| <= heap.Length
      modifies heap
      ensures heap[..] == StampBlock(layout, old(heap[..]), guard + layout.Header(), size)
    {
      hide Layout.RoundUp, Patch, ToLE;
      Store(guard, ToLE(size, layout.word));
      Store(guard + layout.word, ToLE(0, layout.word));
      var mem := guard + layout.Header();
      Store(mem + size, TRAILER);
    }

    method Malloc(size: nat) returns (p: Pointer)
      modifies this, heap
      ensures (State(), p) == HeapSpec.Malloc(layout, old(State()), size)
    {
      hide Layout.RoundUp, StampBlock;
      var rounded := SizeRoundUp(size + |TRAILER|);
      var totalSize := layout.Header() + rounded;
      if failCountdown != DONT_FAIL {
        if failCountdown == 0 {
          return Null;
        }
        failCountdown := failCountdown - 1;
      }
      if size == 0 {
        return Null;
      }
      if heapIndex + totalSize > heap.Length {
        return Null;
      }
      var guard := heapIndex;
      heapIndex := heapIndex + totalSize;
      mallocCount := mallocCount + 1;
      Stamp(guard, size);
      return At(guard + layout.Header());
    }

    /** guard->size */
    method GuardSize(mem: nat) returns (size: nat)
      requires HasHeader(layout, heap[..], mem)
      ensures size == RecordedSize(layout, heap[..], mem)
    {
      size := FromLE(heap[mem - layout.Header()..mem - layout.word]);
      assert heap[..][mem - layout.Header()..mem - layout.word] == heap[mem - layout.Header()..mem - layout.word];
    }

    method IsOverrun(mem: nat) returns (overrun: bool)
      requires Readable(layout, heap[..], mem)
      ensures overrun == HeapSpec.IsOverrun(layout, heap[..], mem)
    {
      hide Layout.RoundUp;
      var size := GuardSize(mem);
      var guardSpace := FromLE(heap[mem - layout.word..mem]);
      assert heap[..][mem - layout.word..mem] == heap[mem - layout.word..mem];
      // strcmp stops at the first difference
      var i := 0;
      while i < |TRAILER| && heap[mem + size + i] == TRAILER[i]
        invariant 0 <= i <= |TRAILER|
        invariant forall j :: 0 <= j < i ==> heap[..][mem + size + j] == TRAILER[j]
      {
        i := i + 1;
      }
      FirstDifference(heap[..], mem + size, i);
      overrun := guardSpace != 0 || i < |TRAILER|;
    }

    method ReleaseMemory(mem: nat)
      requires HasHeader(layout, heap[..], mem)
      modifies this
      ensures State() == Release(layout, old(State()), mem)
    {
      hide Layout.RoundUp;
      mallocCount := mallocCount - 1;
      var size := GuardSize(mem);
      var blockSize := SizeRoundUp(size + |TRAILER|);
      if mem == heapIndex - blockSize {
        heapIndex := heapIndex - (layout.Header() + blockSize);
      }
    }

    method Free(mem: Pointer) returns (o: Outcome)
      requires PointerOk(layout, State(), mem)
      modifies this
      ensures (State(), o) == HeapSpec.Free(layout, old(State()), mem)
    {
      hide Layout.RoundUp;
      if mem == Null {
        return Returned(Null);
      }
      var overrun := IsOverrun(mem.addr);
      ReleaseMemory(mem.addr);
      return if overrun then Overrun else Returned(Null);
    }

    method Calloc(num: nat, size: nat) returns (p: Pointer)
      modifies this, heap
      ensures (State(), p) == HeapSpec.Calloc(layout, old(State()), num, size)
    {
      hide Layout.RoundUp;
      p := Malloc(num * size);
      if p == Null {
        return;
      }
      Store(p.addr, seq(num * size, _ => 0));
    }

    method Realloc(oldMem: Pointer, size: nat) returns (o: Outcome)
      requires PointerOk(layout, State(), oldMem)
      modifies this, heap
      ensures (State(), o) == HeapSpec.Realloc(layout, old(State()), oldMem, size)
    {
      hide Layout.RoundUp, HeapSpec.IsOverrun, HeapSpec.Malloc, HeapSpec.Move, RecordedSize;
      if oldMem == Null {
        var p := Malloc(size);
        return Returned(p);
      }
      var mem := oldMem.addr;
      var overrun := IsOverrun(mem);
      if overrun {
        ReleaseMemory(mem);
        return Overrun;
      }
      if size == 0 {
        ReleaseMemory(mem);
        return Returned(Null);
      }
      var recorded := GuardSize(mem);
      if recorded >= size {
        return Returned(oldMem);
      }
      var oldTotalSize := SizeRoundUp(recorded + |TRAILER|);
      var newTotalSize := SizeRoundUp(size + |TRAILER|);
      if mem == heapIndex - oldTotalSize && heapIndex - oldTotalSize + newTotalSize <= heap.Length {
        ReleaseMemory(mem);
        var p := Malloc(size);
        return Returned(p);
      }
      var newMem := Move(mem, size);
      return Returned(newMem);
    }

    /** The last part of realloc: allocate, memcpy, release. */
    method Move(mem: nat, size: nat) returns (newMem: Pointer)
      requires PointerOk(layout, State(), At(mem)) && RecordedSize(layout, heap[..], mem) < size
      modifies this, heap
      ensures (State(), newMem) == HeapSpec.Move(layout, old(State()), mem, size)
    {
      hide Layout.RoundUp, HeapSpec.Malloc, Release, RecordedSize, Patch;
      var recorded := GuardSize(mem);
      newMem := Malloc(size);
      if newMem == Null {
        return;
      }
      MallocBelow(layout, old(State()), size);
      assert heap[mem..mem + recorded] == old(heap[..])[mem..mem + recorded];
      Store(newMem.addr, heap[mem..mem + recorded]);
      ReleaseMemory(mem);
    }
  }
}
