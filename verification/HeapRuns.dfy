/** What every step of the allocator keeps, and what follows over whole runs: the heap is tiled
    by blocks, live blocks keep their guards and their payloads, the leak counter counts them. */
module HeapRuns {
  import opened Arithmetic
  import opened Bytes
  import opened HeapSpec

  /** A block handed out earlier: its address, its recorded size, and whether it is still live.
      A dead block below the top stays where it is: it is stranded. */
  datatype Block = Block(mem: nat, size: nat, live: bool)

  function Start(l: ValidLayout, b: Block): int {
    b.mem - l.Header()
  }

  function End(l: ValidLayout, b: Block): nat {
    b.mem + l.Body(b.size)
  }

  /** The blocks, lowest first, cover [0, top) exactly, one after the other. */
  ghost predicate Tiled(l: ValidLayout, bs: seq<Block>, top: nat) {
    if bs == [] then top == 0
    else
      var b := bs[|bs| - 1];
      && b.size > 0
      && l.Header() <= b.mem
      && End(l, b) == top
      && Tiled(l, bs[..|bs| - 1], b.mem - l.Header())
  }

  /** The guard and the trailer of `b` are as malloc wrote them. */
  ghost predicate Stamped(l: ValidLayout, bytes: seq<byte>, b: Block) {
    && HasHeader(l, bytes, b.mem)
    && b.mem + b.size + |TRAILER| <= |bytes|
    && RecordedSize(l, bytes, b.mem) == b.size
    && GuardSpace(l, bytes, b.mem) == 0
    && bytes[b.mem + b.size..b.mem + b.size + |TRAILER|] == TRAILER
  }

  function LiveCount(bs: seq<Block>): nat {
    if bs == [] then 0
    else LiveCount(bs[..|bs| - 1]) + if bs[|bs| - 1].live then 1 else 0
  }

  ghost predicate Inv(l: ValidLayout, h: Heap, bs: seq<Block>) {
    && h.index <= |h.bytes| < Pow256(l.word)
    && Tiled(l, bs, h.index)
    && (forall i :: 0 <= i < |bs| && bs[i].live ==> Stamped(l, h.bytes, bs[i]))
    && h.count == LiveCount(bs)
  }

  // ---------------------------------------------------------------- geometry

  /** Every block lies below the top, and exactly the last one ends there. */
  lemma {:induction false} TiledBounds(l: ValidLayout, bs: seq<Block>, top: nat, i: nat)
    requires Tiled(l, bs, top) && i < |bs|
    ensures bs[i].size > 0
    ensures 0 <= Start(l, bs[i]) && bs[i].mem + bs[i].size + |TRAILER| <= End(l, bs[i]) <= top
    ensures End(l, bs[i]) == top <==> i == |bs| - 1
    decreases |bs|
  {
    hide Layout.RoundUp;
    var n := |bs| - 1;
    if i < n {
      TiledBounds(l, bs[..n], bs[n].mem - l.Header(), i);
    }
  }

  /** Every block is aligned. */
  lemma {:induction false} TiledAligned(l: ValidLayout, bs: seq<Block>, top: nat)
    requires Tiled(l, bs, top)
    ensures IsMultiple(top, l.align)
    ensures forall i :: 0 <= i < |bs| ==> IsMultiple(bs[i].mem, l.align)
    decreases |bs|
  {
    hide Layout.RoundUp;
    if bs != [] {
      var n := |bs| - 1;
      var b := bs[n];
      TiledAligned(l, bs[..n], b.mem - l.Header());
      SumOfMultiples(b.mem - l.Header(), l.Header(), l.align);
      SumOfMultiples(b.mem, l.Body(b.size), l.align);
      assert forall i :: 0 <= i < n ==> bs[..n][i] == bs[i];
    }
  }

  /** Blocks lie in order: an earlier one ends where or before a later one starts. */
  lemma {:induction false} TiledOrder(l: ValidLayout, bs: seq<Block>, top: nat, i: nat, j: nat)
    requires Tiled(l, bs, top) && i < j < |bs|
    ensures End(l, bs[i]) <= Start(l, bs[j])
    decreases |bs|
  {
    hide Layout.RoundUp;
    var n := |bs| - 1;
    if j == n {
      TiledBounds(l, bs[..n], bs[n].mem - l.Header(), i);
    } else {
      TiledOrder(l, bs[..n], bs[n].mem - l.Header(), i, j);
    }
  }

  ghost predicate Covers(l: ValidLayout, b: Block, p: nat) {
    Start(l, b) <= p < End(l, b)
  }

  ghost predicate Covered(l: ValidLayout, bs: seq<Block>, p: nat) {
    exists i :: 0 <= i < |bs| && Covers(l, bs[i], p)
  }

  lemma {:induction false} TiledCovers(l: ValidLayout, bs: seq<Block>, top: nat, p: nat)
    requires Tiled(l, bs, top) && p < top
    ensures Covered(l, bs, p)
    decreases |bs|
  {
    hide Layout.RoundUp;
    var n := |bs| - 1;
    if p < bs[n].mem - l.Header() {
      TiledCovers(l, bs[..n], bs[n].mem - l.Header(), p);
      var i :| 0 <= i < |bs[..n]| && Covers(l, bs[..n][i], p);
      assert bs[i] == bs[..n][i];
    } else {
      assert Covers(l, bs[n], p);
    }
  }

  /** In a well-formed heap the blocks tile [0, index) exactly, are pairwise disjoint and aligned, and
      index stays within the capacity. Addresses are offsets from the start of the array, so blocks
      are as aligned in memory as the array itself. */
  lemma HeapIsTiled(l: ValidLayout, h: Heap, bs: seq<Block>)
    requires Inv(l, h, bs)
    ensures h.index <= |h.bytes|
    ensures forall i :: 0 <= i < |bs| ==>
              && 0 <= Start(l, bs[i]) && bs[i].mem + bs[i].size + |TRAILER| <= End(l, bs[i]) <= h.index
              && bs[i].mem % l.align == 0
    ensures forall i, j :: 0 <= i < j < |bs| ==> End(l, bs[i]) <= Start(l, bs[j])
    ensures forall p: nat :: Covered(l, bs, p) <==> p < h.index
  {
    hide Layout.RoundUp;
    TiledAligned(l, bs, h.index);
    forall i | 0 <= i < |bs|
      ensures 0 <= Start(l, bs[i]) && bs[i].mem + bs[i].size + |TRAILER| <= End(l, bs[i]) <= h.index
      ensures bs[i].mem % l.align == 0
    {
      TiledBounds(l, bs, h.index, i);
      IsMultipleMeaning(bs[i].mem, l.align);
    }
    forall i, j | 0 <= i < j < |bs|
      ensures End(l, bs[i]) <= Start(l, bs[j])
    {
      TiledOrder(l, bs, h.index, i, j);
    }
    forall p: nat
      ensures Covered(l, bs, p) <==> p < h.index
    {
      if p < h.index {
        TiledCovers(l, bs, h.index, p);
      }
    }
  }

  // ---------------------------------------------------------------- guards and payloads

  ghost predicate SameBytes(x: seq<byte>, y: seq<byte>, lo: int, hi: int) {
    |x| == |y| && forall i :: lo <= i < hi && 0 <= i < |x| ==> x[i] == y[i]
  }

  /** A guard survives changes that stay out of the header and of the trailer. */
  lemma StampedFrame(l: ValidLayout, x: seq<byte>, y: seq<byte>, b: Block)
    requires Stamped(l, x, b)
    requires SameBytes(x, y, b.mem - l.Header(), b.mem)
    requires SameBytes(x, y, b.mem + b.size, b.mem + b.size + |TRAILER|)
    ensures Stamped(l, y, b)
  {
    hide Layout.RoundUp;
    assert x[b.mem - l.Header()..b.mem - l.word] == y[b.mem - l.Header()..b.mem - l.word];
    assert x[b.mem - l.word..b.mem] == y[b.mem - l.word..b.mem];
    assert x[b.mem + b.size..b.mem + b.size + |TRAILER|] == y[b.mem + b.size..b.mem + b.size + |TRAILER|];
  }

  lemma StampBlockStamps(l: ValidLayout, bytes: seq<byte>, mem: nat, size: nat, live: bool)
    requires HasHeader(l, bytes, mem) && mem + size + |TRAILER| <= |bytes| < Pow256(l.word)
    ensures Stamped(l, StampBlock(l, bytes, mem, size), Block(mem, size, live))
  {
    hide Layout.RoundUp, ToLE, FromLE, Pow256;
    StampBlockWords(l, bytes, mem, size);
    hide StampBlock;
    WordRoundTrip(size, l.word);
    WordRoundTrip(0, l.word);
  }

  lemma StampBlockWords(l: ValidLayout, bytes: seq<byte>, mem: nat, size: nat)
    requires HasHeader(l, bytes, mem) && mem + size + |TRAILER| <= |bytes|
    ensures var r := StampBlock(l, bytes, mem, size);
            && r[mem - l.Header()..mem - l.word] == ToLE(size, l.word)
            && r[mem - l.word..mem] == ToLE(0, l.word)
            && r[mem + size..mem + size + |TRAILER|] == TRAILER
  {
    hide Layout.RoundUp, ToLE, Patch;
    var sizeWord, guardWord := ToLE(size, l.word), ToLE(0, l.word);
    var b1 := Patch(bytes, mem - l.Header(), sizeWord);
    var b2 := Patch(b1, mem - l.word, guardWord);
    PatchReadBack(bytes, mem - l.Header(), sizeWord);
    PatchElsewhere(b1, mem - l.word, guardWord, mem - l.Header(), mem - l.word);
    PatchElsewhere(b2, mem + size, TRAILER, mem - l.Header(), mem - l.word);
    PatchReadBack(b1, mem - l.word, guardWord);
    PatchElsewhere(b2, mem + size, TRAILER, mem - l.word, mem);
    PatchReadBack(b2, mem + size, TRAILER);
  }

  lemma StampBlockFrame(l: ValidLayout, bytes: seq<byte>, mem: nat, size: nat)
    requires HasHeader(l, bytes, mem) && mem + size + |TRAILER| <= |bytes|
    ensures SameBytes(bytes, StampBlock(l, bytes, mem, size), 0, mem - l.Header())
    ensures SameBytes(bytes, StampBlock(l, bytes, mem, size), mem, mem + size)
  {
    hide Layout.RoundUp, ToLE, Patch;
  }

  // ---------------------------------------------------------------- the pieces of a step

  function MallocBlocks(bs: seq<Block>, p: Pointer, size: nat): seq<Block> {
    if p.At? then bs + [Block(p.addr, size, true)] else bs
  }

  function ReleaseBlocks(bs: seq<Block>, k: nat): seq<Block>
    requires k < |bs|
  {
    if k == |bs| - 1 then bs[..k] else bs[k := bs[k].(live := false)]
  }

  /** The fault countdown after a call of malloc, successful or not: -1 stands for no countdown. */
  function Tick(countdown: int): int {
    if countdown == 0 || countdown == -1 then countdown else countdown - 1
  }

  lemma MallocStep(l: ValidLayout, h: Heap, bs: seq<Block>, size: nat)
    requires Inv(l, h, bs)
    ensures var (h', p) := Malloc(l, h, size);
            && Inv(l, h', MallocBlocks(bs, p, size))
            && SameBytes(h.bytes, h'.bytes, 0, h.index)
            && h'.countdown == (if h.countdown == 0 || h.countdown == -1 then h.countdown else h.countdown - 1)
            && (p.At? <==> h.countdown != 0 && size > 0 && Fits(l, h, size))
            && (p.At? ==> p.addr == h.index + l.Header() && SameBytes(h.bytes, h'.bytes, p.addr, p.addr + size))
            && (p.Null? ==> h' == h.(countdown := Tick(h.countdown)))
  {
    hide Layout.RoundUp, Stamped, StampBlock;
    var (h', p) := Malloc(l, h, size);
    var bs' := MallocBlocks(bs, p, size);
    if p.At? {
      StampBlockStamps(l, h.bytes, p.addr, size, true);
      StampBlockFrame(l, h.bytes, p.addr, size);
      assert bs'[..|bs'| - 1] == bs;
      forall i | 0 <= i < |bs'| && bs'[i].live
        ensures Stamped(l, h'.bytes, bs'[i])
      {
        if i < |bs| {
          TiledBounds(l, bs, h.index, i);
          StampedFrame(l, h.bytes, h'.bytes, bs[i]);
        }
      }
    }
  }

  lemma {:induction false} TiledMark(l: ValidLayout, bs: seq<Block>, top: nat, k: nat)
    requires Tiled(l, bs, top) && k < |bs|
    ensures Tiled(l, bs[k := bs[k].(live := false)], top)
    ensures LiveCount(bs[k := bs[k].(live := false)]) == LiveCount(bs) - if bs[k].live then 1 else 0
    decreases |bs|
  {
    hide Layout.RoundUp;
    var n := |bs| - 1;
    var cs := bs[k := bs[k].(live := false)];
    if k < n {
      TiledMark(l, bs[..n], bs[n].mem - l.Header(), k);
      assert cs[..n] == bs[..n][k := bs[k].(live := false)];
    } else {
      assert cs[..n] == bs[..n];
    }
  }

  /** The code's test for the top block recognises the last one. */
  lemma TopIsLast(l: ValidLayout, h: Heap, bs: seq<Block>, k: nat)
    requires Inv(l, h, bs) && k < |bs| && bs[k].live
    ensures HasHeader(l, h.bytes, bs[k].mem)
    ensures IsTop(l, h, bs[k].mem) <==> k == |bs| - 1
  {
    hide Layout.RoundUp, Tiled, LiveCount, RecordedSize, GuardSpace;
    TiledBounds(l, bs, h.index, k);
    assert Stamped(l, h.bytes, bs[k]);
  }

  lemma ReleaseStep(l: ValidLayout, h: Heap, bs: seq<Block>, k: nat)
    requires Inv(l, h, bs) && k < |bs| && bs[k].live
    ensures HasHeader(l, h.bytes, bs[k].mem)
    ensures IsTop(l, h, bs[k].mem) <==> k == |bs| - 1
    ensures Inv(l, Release(l, h, bs[k].mem), ReleaseBlocks(bs, k))
  {
    hide Layout.RoundUp, Stamped, RecordedSize, GuardSpace, IsTop;
    TiledBounds(l, bs, h.index, k);
    TiledMark(l, bs, h.index, k);
    TopIsLast(l, h, bs, k);
    var bs' := ReleaseBlocks(bs, k);
    assert forall i :: 0 <= i < |bs'| && bs'[i].live ==> bs'[i] == bs[i];
  }

  /** Writing inside the payload of one block disturbs no guard and no other live block. */
  lemma PayloadStep(l: ValidLayout, h: Heap, bs: seq<Block>, k: nat, at: nat, data: seq<byte>)
    requires Inv(l, h, bs) && k < |bs|
    requires bs[k].mem <= at && at + |data| <= bs[k].mem + bs[k].size
    requires at + |data| <= |h.bytes|
    ensures Inv(l, h.(bytes := Patch(h.bytes, at, data)), bs)
    ensures forall i :: 0 <= i < |bs| && i != k ==>
              SameBytes(h.bytes, Patch(h.bytes, at, data), Start(l, bs[i]), End(l, bs[i]))
  {
    hide Layout.RoundUp;
    hide Stamped;
    var bytes := Patch(h.bytes, at, data);
    TiledBounds(l, bs, h.index, k);
    forall i | 0 <= i < |bs|
      ensures i != k ==> SameBytes(h.bytes, bytes, Start(l, bs[i]), End(l, bs[i]))
      ensures bs[i].live ==> Stamped(l, bytes, bs[i])
    {
      TiledBounds(l, bs, h.index, i);
      if i != k {
        TiledOrder(l, bs, h.index, if i < k then i else k, if i < k then k else i);
        assert SameBytes(h.bytes, bytes, Start(l, bs[i]), End(l, bs[i]));
      }
      if bs[i].live {
        StampedFrame(l, h.bytes, bytes, bs[i]);
      }
    }
  }
}
