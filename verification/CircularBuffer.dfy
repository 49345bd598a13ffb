/** aesd-circular-buffer.c: a ring of the last N commands. */
module CircularBuffer {
  import opened Arithmetic
  import opened CommandWindow
  import opened Options

  /** The last `n` elements, or all of them when there are fewer. */
  function LastOf(h: seq<Command>, n: nat): seq<Command> {
    if |h| <= n then h else h[|h| - n..]
  }

  lemma LastOfLength(h: seq<Command>, n: nat)
    ensures |LastOf(h, n)| == if |h| <= n then |h| else n
  {
  }

  lemma LastOfAppend(h: seq<Command>, n: nat)
    requires h != [] && n >= 1
    ensures LastOf(LastOf(h[..|h| - 1], n) + [h[|h| - 1]], n) == LastOf(h, n)
  {
    var k := |h| - 1;
    assert h == h[..k] + [h[k]];
    var w := LastOf(h[..k], n) + [h[k]];
    assert w == h[|h| - |w|..];
  }

  /** An index of the ring, for x < 2 * n. */
  function Wrap(x: nat, n: nat): nat {
    if x < n then x else x - n
  }

  lemma WrapIsModulo(x: nat, n: nat)
    requires x < 2 * n
    ensures x % n == Wrap(x, n)
  {
  }

  /** The slot after slot `i`. */
  function NextSlot(i: nat, n: nat): (r: nat)
    requires i < n
    ensures r == Wrap(i + 1, n)
  {
    WrapIsModulo(i + 1, n);
    (i + 1) % n
  }

  /** The slots, the two indices and the flag of the ring. */
  datatype Ring = Ring(entry: seq<Command>, inOffs: nat, outOffs: nat, full: bool) {
    predicate InRange() {
      && inOffs < |entry|
      && outOffs < |entry|
      && (full ==> inOffs == outOffs)
    }

    function Count(): nat
      requires InRange()
    {
      if full then |entry|
      else if outOffs <= inOffs then inOffs - outOffs
      else inOffs + |entry| - outOffs
    }

    /** The retained commands: the slots walked from `outOffs`. */
    function Window(): (w: seq<Command>)
      requires InRange()
      ensures |w| == Count()
      ensures forall i :: 0 <= i < |w| ==> w[i] == entry[Wrap(outOffs + i, |entry|)]
    {
      seq(Count(), i requires 0 <= i < Count() => entry[Wrap(outOffs + i, |entry|)])
    }

    function Add(c: Command): (r: Ring)
      requires InRange()
      ensures r.InRange() && |r.entry| == |entry|
    {
      var in' := NextSlot(inOffs, |entry|);
      var out' := if full then in' else outOffs;
      Ring(entry[inOffs := c], in', out', in' == out')
    }
  }

  function EmptyRing(n: nat): (r: Ring)
    requires n >= 1
    ensures r.InRange() && |r.entry| == n
  {
    Ring(seq(n, _ => []), 0, 0, false)
  }

  /** Where the retained command `i` of the new ring comes from. */
  lemma SlotAfterAdd(r: Ring, c: Command, i: nat)
    requires r.InRange() && i < r.Add(c).Count()
    ensures var d := if r.full then 1 else 0;
            && r.Add(c).Count() == r.Count() + 1 - d
            && r.Add(c).Window()[i] == (r.Window() + [c])[i + d]
  {
    hide NextSlot;
    var n, d := |r.entry|, if r.full then 1 else 0;
    assert Wrap(r.Add(c).outOffs + i, n) == Wrap(r.outOffs + (i + d), n) || i + d == n;
  }

  /** Adding a command appends it to the window and drops the oldest one of N + 1. */
  lemma AddSlidesWindow(r: Ring, c: Command)
    requires r.InRange()
    ensures r.Add(c).Window() == LastOf(r.Window() + [c], |r.entry|)
    ensures r.Add(c).full <==> |r.Window()| + 1 >= |r.entry|
  {
    hide NextSlot;
    var w, w' := r.Window(), r.Add(c).Window();
    var d := if r.full then 1 else 0;
    assert |w'| == |w| + 1 - d;
    hide Ring.Add, Ring.Window;
    forall i | 0 <= i < |w'|
      ensures w'[i] == (w + [c])[i + d]
    {
      SlotAfterAdd(r, c, i);
    }
    assert w' == (w + [c])[d..];
  }

  /** The ring after a sequence of adds to an empty one. */
  function AddAll(n: nat, cs: seq<Command>): (r: Ring)
    requires n >= 1
    ensures r.InRange() && |r.entry| == n
  {
    if cs == [] then EmptyRing(n) else AddAll(n, cs[..|cs| - 1]).Add(cs[|cs| - 1])
  }

  /** The ring refines a sliding window: after any sequence of adds it holds the last min(n, N)
      commands in order, and is full exactly when n >= N. */
  lemma {:induction false} RingIsSlidingWindow(n: nat, cs: seq<Command>)
    requires n >= 1
    ensures AddAll(n, cs).Window() == LastOf(cs, n)
    ensures AddAll(n, cs).full <==> |cs| >= n
    decreases |cs|
  {
    hide Ring.Window, Ring.Add;
    if cs == [] {
    } else {
      hide LastOf;
      var k := |cs| - 1;
      RingIsSlidingWindow(n, cs[..k]);
      AddSlidesWindow(AddAll(n, cs[..k]), cs[k]);
      LastOfAppend(cs, n);
      LastOfLength(cs[..k], n);
    }
  }

  lemma NextModulo(m: nat, n: nat)
    requires n >= 1
    ensures m % n < n && NextSlot(m % n, n) == (m + 1) % n
  {
    Quotient(m, n);
    if m % n + 1 < n {
      QuotientIsUnique(m + 1, m / n, m % n + 1, n);
    } else {
      QuotientIsUnique(m + 1, m / n + 1, 0, n);
    }
  }

  lemma OneLap(m: nat, n: nat)
    requires n >= 1
    ensures m == n ==> m % n == 0
    ensures m < n ==> m % n == m
  {
    if m <= n {
      QuotientIsUnique(m, if m < n then 0 else 1, if m < n then m else 0, n);
    }
  }

  lemma SlotsDiffer(i: nat, k: nat, n: nat)
    requires n >= 1 && i < k < i + n
    ensures i % n != k % n
  {
    Quotient(i, n);
    Quotient(k, n);
    NextMultiple(i / n, k / n, n);
  }

  /** Where the indices stand after any sequence of adds to an empty ring. */
  lemma {:induction false} IndicesAfterRun(n: nat, cs: seq<Command>)
    requires n >= 1
    ensures var r := AddAll(n, cs);
            && r.inOffs == |cs| % n
            && r.outOffs == (if |cs| < n then 0 else |cs| % n)
    decreases |cs|
  {
    hide Ring.Window, NextSlot, Wrap;
    OneLap(|cs|, n);
    if cs != [] {
      var k := |cs| - 1;
      IndicesAfterRun(n, cs[..k]);
      NextModulo(k, n);
      RingIsSlidingWindow(n, cs[..k]);
      OneLap(k, n);
    }
  }

  /** Which command a slot holds: command `i` is in slot i modulo N until N more have been added. */
  lemma {:induction false} SlotsAfterRun(n: nat, cs: seq<Command>, i: nat)
    requires n >= 1
    ensures i % n < n
    ensures i < |cs| <= i + n ==> AddAll(n, cs).entry[i % n] == cs[i]
    decreases |cs|
  {
    hide Ring.Window, NextSlot, Wrap;
    Quotient(i, n);
    if i < |cs| <= i + n {
      var k := |cs| - 1;
      SlotsAfterRun(n, cs[..k], i);
      IndicesAfterRun(n, cs[..k]);
      if i < k {
        SlotsDiffer(i, k, n);
      }
    }
  }

  class CircularBuffer {
    const entry: array<Command>
    var inOffs: nat
    var outOffs: nat
    var full: bool
    /** Every command added since the buffer was initialised. */
    ghost var history: seq<Command>

    function N(): nat {
      entry.Length
    }

    function State(): Ring
      reads this, entry
    {
      Ring(entry[..], inOffs, outOffs, full)
    }

    function Window(): seq<Command>
      reads this, entry
      requires State().InRange()
    {
      State().Window()
    }

    ghost predicate Valid()
      reads this, entry
    {
      && N() >= 1
      && State() == AddAll(N(), history)
    }

    /** aesd_circular_buffer_init: all fields zero. */
    constructor (n: nat)
      requires n >= 1
      ensures Valid() && fresh(entry)
      ensures N() == n && history == []
    {
      entry := new Command[n](_ => []);
      inOffs, outOffs, full := 0, 0, false;
      history := [];
    }

    method AddEntry(e: Command)
      requires Valid()
      modifies this, entry
      ensures Valid()
      ensures history == old(history) + [e]
      ensures State() == old(State()).Add(e)
    {
      hide NextSlot;
      entry[inOffs] := e;
      inOffs := NextSlot(inOffs, N());
      if full {
        outOffs := inOffs;
      }
      if inOffs == outOffs {
        full := true;
      } else {
        full := false;
      }
      history := history + [e];
      assert history[..|history| - 1] == old(history);
    }

    /** aesd_circular_buffer_find_entry_offset_for_fpos: the slot of the ring and the offset in it. */
    method FindEntryOffset(charOffset: nat) returns (r: Option<(nat, nat)>)
      requires Valid()
      ensures r == match Locate(Window(), charOffset)
                   case None => None
                   case Some((k, j)) => Some((Wrap(outOffs + k, N()), j))
    {
      hide Flat, Ring.Window, NextSlot, StartOf, AddAll, LocateFrom;
      ghost var w := Window();
      ghost var k := 0;
      var offset := outOffs;
      var posit := 0;
      StartOfFirst(w);
      if full {
        FlatAt(w, 0);
        LocateStep(w, 0, charOffset);
        assert entry[offset] == w[0];
        if charOffset < posit + |entry[offset]| {
          return Some((offset, charOffset - posit));
        }
        posit := posit + |entry[offset]|;
        offset := NextSlot(offset, N());
        k := 1;
      }
      while offset != inOffs
        invariant k <= |w| && (full ==> k > 0)
        invariant offset == Wrap(outOffs + k, N())
        invariant posit == StartOf(w, k) <= charOffset
        invariant LocateFrom(w, k, charOffset) == Locate(w, charOffset)
        decreases |w| - k
      {
        FlatAt(w, k);
        LocateStep(w, k, charOffset);
        assert entry[offset] == w[k];
        if charOffset < posit + |entry[offset]| {
          return Some((offset, charOffset - posit));
        }
        posit := posit + |entry[offset]|;
        offset := NextSlot(offset, N());
        k := k + 1;
      }
      LocateEnds(w, charOffset);
      return None;
    }

    /** aesd_circular_buffer_find_position */
    method FindPosition(commandOffset: nat, internalOffset: nat) returns (endPosit: nat)
      requires Valid()
      ensures endPosit == Position(Window(), commandOffset, internalOffset)
    {
      hide Flat, Ring.Window, NextSlot, StartOf, AddAll;
      ghost var w := Window();
      var offset := outOffs;
      var k := 0;
      endPosit := 0;
      StartOfFirst(w);
      if full {
        FlatAt(w, 0);
        assert entry[offset] == w[0];
        if commandOffset != k {
          endPosit := endPosit + |entry[offset]|;
          offset := NextSlot(offset, N());
          k := k + 1;
        } else {
          if |entry[offset]| >= internalOffset {
            endPosit := endPosit + internalOffset;
          }
          return;
        }
      }
      while offset != inOffs
        invariant k <= |w| && k <= commandOffset && (full ==> k > 0)
        invariant offset == Wrap(outOffs + k, N())
        invariant endPosit == StartOf(w, k)
        decreases |w| - k
      {
        FlatAt(w, k);
        assert entry[offset] == w[k];
        if commandOffset != k {
          endPosit := endPosit + |entry[offset]|;
          offset := NextSlot(offset, N());
          k := k + 1;
        } else {
          if |entry[offset]| >= internalOffset {
            endPosit := endPosit + internalOffset;
          }
          return;
        }
      }
      EndOfLast(w);
    }
  }
}
