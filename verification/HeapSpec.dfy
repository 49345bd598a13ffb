/** The bump allocator of unity_memory.c as functions on values: a byte heap whose blocks are
    a two-word guard (recorded size, zero), the payload, and the trailer "END\0", rounded up to
    the alignment. */
module HeapSpec {
  import opened Arithmetic
  import opened Bytes

  const TRAILER: seq<byte> := [69, 78, 68, 0]
  const DONT_FAIL: int := -1

  /** The build constants: the width of a word in bytes and the alignment. */
  datatype Layout = Layout(word: nat, align: nat) {
    ghost predicate Valid() {
      && 0 < word
      && 0 < align
      && IsMultiple(2 * word, align)
    }

    /** The size of the guard header. */
    function Header(): nat {
      2 * word
    }

    /** The least multiple of the alignment that is not below `size`. */
    function RoundUp(size: nat): (r: nat)
      requires 0 < align
      ensures size <= r < size + align && IsMultiple(r, align)
    {
      if size == 0 then 0
      else if size <= align then align
      else align + RoundUp(size - align)
    }

    /** What follows the header of a block: payload, trailer and padding. */
    function Body(size: nat): nat
      requires 0 < align
    {
      RoundUp(size + |TRAILER|)
    }
  }

  type ValidLayout = l: Layout | l.Valid() witness Layout(8, 8)

  datatype Heap = Heap(bytes: seq<byte>, index: nat, count: int, countdown: int)

  /** The heap as the program starts with it. */
  function FreshHeap(capacity: nat): Heap {
    Heap(seq(capacity, _ => 0), 0, 0, DONT_FAIL)
  }

  datatype Pointer = Null | At(addr: nat)

  /** How a call ends: it returns a pointer, or it aborts the test over a detected overrun. */
  datatype Outcome = Returned(p: Pointer) | Overrun

  lemma {:induction false} RoundUpIsLeast(l: ValidLayout, size: nat, m: nat)
    requires size <= m && IsMultiple(m, l.align)
    ensures l.RoundUp(size) <= m
  {
    if size > l.align {
      RoundUpIsLeast(l, size - l.align, m - l.align);
    }
  }

  /** The code's expression for it. */
  lemma RoundUpFormula(l: ValidLayout, size: nat)
    ensures (size + l.align - 1) / l.align * l.align == l.RoundUp(size)
  {
    hide Layout.RoundUp;
    var a, x, r := l.align, size + l.align - 1, l.RoundUp(size);
    IsMultipleMeaning(r, a);
    Quotient(r, a);
    QuotientIsUnique(x, r / a, x - r, a);
  }

  // ---------------------------------------------------------------- reading a block

  /** The guard header of `mem` lies inside the heap. */
  predicate HasHeader(l: Layout, bytes: seq<byte>, mem: nat) {
    l.Header() <= mem <= |bytes|
  }

  function RecordedSize(l: Layout, bytes: seq<byte>, mem: nat): nat
    requires HasHeader(l, bytes, mem)
  {
    FromLE(bytes[mem - l.Header()..mem - l.word])
  }

  function GuardSpace(l: Layout, bytes: seq<byte>, mem: nat): nat
    requires HasHeader(l, bytes, mem)
  {
    FromLE(bytes[mem - l.word..mem])
  }

  /** The header of `mem` and the trailer that it points at can be read. */
  predicate Readable(l: Layout, bytes: seq<byte>, mem: nat) {
    && HasHeader(l, bytes, mem)
    && mem + RecordedSize(l, bytes, mem) + |TRAILER| <= |bytes|
  }

  /** The answer of isOverrun. */
  predicate IsOverrun(l: Layout, bytes: seq<byte>, mem: nat)
    requires Readable(l, bytes, mem)
  {
    var size := RecordedSize(l, bytes, mem);
    GuardSpace(l, bytes, mem) != 0 || bytes[mem + size..mem + size + |TRAILER|] != TRAILER
  }

  // ---------------------------------------------------------------- the operations

  /** Write the guard and the trailer of a block of `size` bytes at `mem`. */
  function StampBlock(l: Layout, bytes: seq<byte>, mem: nat, size: nat): (r: seq<byte>)
    requires HasHeader(l, bytes, mem)
    requires mem + size + |TRAILER| <= |bytes|
    ensures |r| == |bytes|
  {
    var b1 := Patch(bytes, mem - l.Header(), ToLE(size, l.word));
    var b2 := Patch(b1, mem - l.word, ToLE(0, l.word));
    Patch(b2, mem + size, TRAILER)
  }

  predicate Fits(l: ValidLayout, h: Heap, size: nat) {
    h.index + l.Header() + l.Body(size) <= |h.bytes|
  }

  function Malloc(l: ValidLayout, h: Heap, size: nat): (Heap, Pointer)
  {
    if h.countdown == 0 then (h, Null)
    else
      var h1 := if h.countdown != DONT_FAIL then h.(countdown := h.countdown - 1) else h;
      if size == 0 || !Fits(l, h, size) then (h1, Null)
      else
        var mem := h.index + l.Header();
        (Heap(StampBlock(l, h.bytes, mem, size), mem + l.Body(size), h.count + 1, h1.countdown), At(mem))
  }

  predicate IsTop(l: ValidLayout, h: Heap, mem: nat)
    requires HasHeader(l, h.bytes, mem)
  {
    mem + l.Body(RecordedSize(l, h.bytes, mem)) == h.index
  }

  function Release(l: ValidLayout, h: Heap, mem: nat): Heap
    requires HasHeader(l, h.bytes, mem)
  {
    h.(count := h.count - 1, index := if IsTop(l, h, mem) then mem - l.Header() else h.index)
  }

  /** A pointer that may be passed in: null, or one whose block lies below the top. */
  predicate PointerOk(l: Layout, h: Heap, p: Pointer) {
    p.At? ==>
      && Readable(l, h.bytes, p.addr)
      && p.addr + RecordedSize(l, h.bytes, p.addr) + |TRAILER| <= h.index
  }

  function Free(l: ValidLayout, h: Heap, p: Pointer): (Heap, Outcome)
    requires PointerOk(l, h, p)
  {
    match p
    case Null => (h, Returned(Null))
    case At(mem) =>
      (Release(l, h, mem), if IsOverrun(l, h.bytes, mem) then Overrun else Returned(Null))
  }

  function Calloc(l: ValidLayout, h: Heap, num: nat, size: nat): (Heap, Pointer)
  {
    var (h1, p) := Malloc(l, h, num * size);
    match p
    case Null => (h1, Null)
    case At(mem) =>
      (h1.(bytes := Patch(h1.bytes, mem, seq(num * size, _ => 0))), p)
  }

  /** The block at `mem` is on top and the heap has room to grow it to `size` where it is. */
  predicate GrowsInPlace(l: ValidLayout, h: Heap, mem: nat, size: nat)
    requires HasHeader(l, h.bytes, mem)
  {
    && IsTop(l, h, mem)
    && mem + l.Body(size) <= |h.bytes|
  }

  /** Allocate a larger block, copy the payload into it, and release the old block. */
  function Move(l: ValidLayout, h: Heap, mem: nat, size: nat): (Heap, Pointer)
    requires PointerOk(l, h, At(mem)) && RecordedSize(l, h.bytes, mem) < size
  {
    var (h1, q) := Malloc(l, h, size);
    if q.Null? then (h1, Null)
    else (Release(l, CopiedTo(h, h1, mem, RecordedSize(l, h.bytes, mem), q.addr), mem), q)
  }

  /** The heap `h1` after `n` bytes at `mem` were copied from `h` to `q`. */
  function CopiedTo(h: Heap, h1: Heap, mem: nat, n: nat, q: nat): Heap
    requires mem + n <= |h.bytes| && q + n <= |h1.bytes|
  {
    h1.(bytes := Patch(h1.bytes, q, h.bytes[mem..mem + n]))
  }

  function Realloc(l: ValidLayout, h: Heap, p: Pointer, size: nat): (Heap, Outcome)
    requires PointerOk(l, h, p)
  {
    if p.Null? then
      var (h1, q) := Malloc(l, h, size);
      (h1, Returned(q))
    else
      var mem := p.addr;
      var recorded := RecordedSize(l, h.bytes, mem);
      if IsOverrun(l, h.bytes, mem) then (Release(l, h, mem), Overrun)
      else if size == 0 then (Release(l, h, mem), Returned(Null))
      else if recorded >= size then (h, Returned(p))
      else if GrowsInPlace(l, h, mem, size) then
        var (h1, q) := Malloc(l, Release(l, h, mem), size);
        (h1, Returned(q))
      else
        var (h1, q) := Move(l, h, mem, size);
        (h1, Returned(q))
  }

  /** A test starts with both counters reset. */
  function StartTest(h: Heap): Heap {
    h.(count := 0, countdown := DONT_FAIL)
  }

  /** Whether EndTest fails the test with "This test leaks!". */
  predicate EndTestFails(h: Heap) {
    h.count != 0
  }

  /** malloc writes nothing below the top, and a block it returns lies inside the heap. */
  lemma MallocBelow(l: ValidLayout, h: Heap, size: nat)
    ensures var (h', p) := Malloc(l, h, size);
            && |h'.bytes| == |h.bytes|
            && (p.At? ==> p.addr + size <= |h.bytes|)
            && forall i :: 0 <= i < h.index && i < |h.bytes| ==> h'.bytes[i] == h.bytes[i]
  {
    hide Layout.RoundUp;
  }
}
