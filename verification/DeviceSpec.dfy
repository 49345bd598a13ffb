/** The character device of main.c on values: what writes accumulate, what reads return, and what
    whole runs of either add up to. */
module DeviceSpec {
  import opened CommandWindow
  import opened Options
  import opened CircularBuffer

  const NEWLINE: char := '\n'

  /** One past the last newline of `data`, or 0 when there is none. */
  function NewlineEnd(data: seq<char>): (n: nat)
    ensures n <= |data|
    ensures n > 0 ==> data[n - 1] == NEWLINE
    ensures forall i :: n <= i < |data| ==> data[i] != NEWLINE
  {
    if data == [] then 0
    else if data[|data| - 1] == NEWLINE then |data|
    else NewlineEnd(data[..|data| - 1])
  }

  /** Every command ever completed, and the bytes of the one still being written. */
  datatype Device = Device(history: seq<Command>, pending: seq<char>)

  /** The bytes of a write that are stored: all of them when nothing is pending, else those up to
      the last newline if there is one. */
  function Stored(pending: seq<char>, data: seq<char>): seq<char> {
    if pending != [] && NewlineEnd(data) > 0 then data[..NewlineEnd(data)] else data
  }

  function Write(d: Device, data: seq<char>): Device {
    var all := d.pending + Stored(d.pending, data);
    if NewlineEnd(data) > 0 then Device(d.history + [all], []) else Device(d.history, all)
  }

  function WriteAll(d: Device, writes: seq<seq<char>>): Device {
    if writes == [] then d
    else Write(WriteAll(d, writes[..|writes| - 1]), writes[|writes| - 1])
  }

  /** Everything that the device holds or held, in order. */
  function Total(d: Device): seq<char> {
    Flat(d.history) + d.pending
  }

  /** A write drops its tail: bytes are pending and something follows its last newline. */
  predicate Drops(d: Device, data: seq<char>) {
    d.pending != [] && 0 < NewlineEnd(data) < |data|
  }

  /** A newline in the data, if any, is its last byte. */
  predicate WholeLines(data: seq<char>) {
    NewlineEnd(data) == 0 || NewlineEnd(data) == |data|
  }

  predicate EndsInNewline(c: Command) {
    c != [] && c[|c| - 1] == NEWLINE
  }

  // ---------------------------------------------------------------- writes

  /** A write keeps exactly the bytes of its data that Stored names. */
  lemma WriteAppends(d: Device, data: seq<char>)
    ensures Total(Write(d, data)) == Total(d) + Stored(d.pending, data)
  {
    if NewlineEnd(data) > 0 {
      var all := d.pending + Stored(d.pending, data);
      assert (d.history + [all])[..|d.history|] == d.history;
      assert Flat(d.history + [all]) == Flat(d.history) + all;
    }
  }

  /** What becomes of a write, by the place of its last newline: a command is completed from the
      pending bytes and the data up to and including that newline, or from all of the data when
      nothing was pending. Earlier commands stay as they are. */
  lemma WriteWithNewline(d: Device, data: seq<char>, i: nat)
    requires i < |data| && data[i] == '\n' && forall j :: i < j < |data| ==> data[j] != '\n'
    ensures Write(d, data) ==
              Device(d.history + [if d.pending == [] then data else d.pending + data[..i + 1]], [])
  {
    assert NewlineEnd(data) == i + 1;
    hide NewlineEnd;
    assert d.pending == [] ==> d.pending + data == data;
  }

  /** Without a newline, all of the data becomes pending. */
  lemma WriteWithoutNewline(d: Device, data: seq<char>)
    requires forall j :: 0 <= j < |data| ==> data[j] != '\n'
    ensures Write(d, data) == Device(d.history, d.pending + data)
  {
    assert NewlineEnd(data) == 0;
    hide NewlineEnd;
  }

  /** aesd_write reports that it took all bytes. It keeps all of them exactly when it does not
      cut off a tail after the last newline. */
  lemma WriteConservesIff(d: Device, data: seq<char>)
    ensures Total(Write(d, data)) == Total(d) + data <==> !Drops(d, data)
  {
    WriteAppends(d, data);
    if Drops(d, data) {
      assert |Total(d) + Stored(d.pending, data)| < |Total(d) + data|;
    }
  }

  /** A write with a newline completes one command. It ends in a newline exactly when bytes were
      pending or the data itself ends in one. */
  lemma CompletedEndsInNewlineIff(d: Device, data: seq<char>)
    requires NewlineEnd(data) > 0
    ensures var d' := Write(d, data);
            && |d'.history| == |d.history| + 1
            && (EndsInNewline(d'.history[|d.history|]) <==> d.pending != [] || WholeLines(data))
  {
    var stored := Stored(d.pending, data);
    assert stored != [] && (d.pending + stored)[|d.pending + stored| - 1] == stored[|stored| - 1];
  }

  /** A write that loses a byte: "a", then "b\nc". */
  lemma WriteCanLoseBytes()
    ensures var d := WriteAll(Device([], []), ["a", "b\nc"]);
            Total(d) == "ab\n" && Flat(["a", "b\nc"]) == "ab\nc"
  {
    var d1 := Device([], "a");
    assert ["a", "b\nc"][..1] == ["a"];
    assert ["a"][..0] == [];
    assert NewlineEnd("a") == 0 by {
      assert "a"[..0] == "";
    }
    assert Write(Device([], []), "a") == d1;
    assert NewlineEnd("b\nc") == 2 by {
      assert "b\nc"[..2] == "b\n";
    }
    assert "a" + "b\nc"[..2] == "ab\n";
    assert Write(d1, "b\nc") == Device(["ab\n"], []);
    assert ["ab\n"][..0] == [];
    assert Flat(["ab\n"]) == "ab\n";
    assert Flat(["a"]) == "a";
  }

  /** No write of the run drops a tail, each judged in the state it meets. */
  predicate NoneDrops(d: Device, writes: seq<seq<char>>) {
    writes != [] ==>
      && NoneDrops(d, writes[..|writes| - 1])
      && !Drops(WriteAll(d, writes[..|writes| - 1]), writes[|writes| - 1])
  }

  lemma {:induction false} RunLength(d: Device, writes: seq<seq<char>>)
    ensures |Total(WriteAll(d, writes))| <= |Total(d)| + |Flat(writes)|
    decreases |writes|
  {
    if writes != [] {
      var n := |writes| - 1;
      RunLength(d, writes[..n]);
      WriteAppends(WriteAll(d, writes[..n]), writes[n]);
    }
  }

  /** Over any run of writes whatsoever, the device has kept all bytes written, in order, exactly
      when no write dropped a tail. */
  lemma {:induction false} RunConservesIff(d: Device, writes: seq<seq<char>>)
    ensures Total(WriteAll(d, writes)) == Total(d) + Flat(writes) <==> NoneDrops(d, writes)
    decreases |writes|
  {
    if writes == [] {
      assert Total(d) + Flat(writes) == Total(d);
    } else {
      var n := |writes| - 1;
      var d1 := WriteAll(d, writes[..n]);
      RunConservesIff(d, writes[..n]);
      WriteAppends(d1, writes[n]);
      RunLength(d, writes[..n]);
      assert Flat(writes) == Flat(writes[..n]) + writes[n];
      hide Flat, Total, Write;
      Assoc(Total(d), Flat(writes[..n]), writes[n]);
      AppendsDiffer(Total(d1), Stored(d1.pending, writes[n]), Total(d) + Flat(writes[..n]), writes[n]);
    }
  }

  lemma AppendsDiffer(a: seq<char>, x: seq<char>, b: seq<char>, y: seq<char>)
    requires |a| <= |b| && (x == y || |x| < |y|)
    ensures a + x == b + y <==> a == b && x == y
  {
    if a + x == b + y {
      assert |a + x| == |b + y|;
      assert a == (a + x)[..|a|];
      assert b == (b + y)[..|b|];
    }
  }

  lemma Assoc(a: seq<char>, b: seq<char>, c: seq<char>)
    ensures (a + b) + c == a + (b + c)
  {
  }

  /** Pending bytes never hold a newline. With data that has a newline only at its end, nothing is
      dropped and every completed command ends in a newline. */
  lemma {:induction false} RunOfWholeLines(writes: seq<seq<char>>)
    ensures var d := WriteAll(Device([], []), writes);
            && NEWLINE !in d.pending
            && ((forall i :: 0 <= i < |writes| ==> WholeLines(writes[i])) ==>
                  && NoneDrops(Device([], []), writes)
                  && forall c :: c in d.history ==> EndsInNewline(c))
    decreases |writes|
  {
    if writes != [] {
      var n := |writes| - 1;
      RunOfWholeLines(writes[..n]);
      assert forall i :: 0 <= i < n ==> writes[..n][i] == writes[i];
    }
  }

  /** The commands that have left the window of the last `n`. */
  function Evicted(h: seq<Command>, n: nat): seq<Command> {
    if |h| <= n then [] else h[..|h| - n]
  }

  /** What the ring retains, what it evicted before, and what is pending: together all bytes ever
      written, in order. */
  lemma RunConserves(writes: seq<seq<char>>, n: nat)
    requires n >= 1
    requires forall i :: 0 <= i < |writes| ==> WholeLines(writes[i])
    ensures var d := WriteAll(Device([], []), writes);
            && AddAll(n, d.history).Window() == LastOf(d.history, n)
            && Flat(Evicted(d.history, n)) + Flat(LastOf(d.history, n)) + d.pending == Flat(writes)
            && NEWLINE !in d.pending
            && forall c :: c in LastOf(d.history, n) ==> EndsInNewline(c)
  {
    var d := WriteAll(Device([], []), writes);
    RunOfWholeLines(writes);
    RunFromEmpty(writes);
    hide WriteAll, NoneDrops, AddAll, Ring.Window, Flat;
    RingIsSlidingWindow(n, d.history);
    EvictedAndRetained(d.history, n);
  }

  lemma RunFromEmpty(writes: seq<seq<char>>)
    ensures Total(WriteAll(Device([], []), writes)) == Flat(writes) <==> NoneDrops(Device([], []), writes)
  {
    RunConservesIff(Device([], []), writes);
    assert Total(Device([], [])) == [];
    hide WriteAll, NoneDrops;
  }

  /** A history is what left the window followed by the window. */
  lemma EvictedAndRetained(h: seq<Command>, n: nat)
    ensures Flat(Evicted(h, n)) + Flat(LastOf(h, n)) == Flat(h)
    ensures forall c :: c in LastOf(h, n) ==> c in h
  {
    hide Flat;
    FlatAppend(Evicted(h, n), LastOf(h, n));
    assert h == Evicted(h, n) + LastOf(h, n);
  }

  // ---------------------------------------------------------------- reads

  /** What one read of at most `count` bytes at `pos` returns; the position advances by its length. */
  function Read(w: seq<Command>, pos: nat, count: nat): seq<char> {
    LookupIsRight(w, pos);
    match Locate(w, pos)
    case None => []
    case Some((k, j)) =>
      var rest := w[k][j..];
      if count < |rest| then rest[..count] else rest
  }

  lemma SliceOfSlice(s: seq<char>, a: nat, b: nat, j: nat, n: nat)
    requires a <= b <= |s| && j + n <= b - a
    ensures s[a..b][j..][..n] == s[a + j..a + j + n]
  {
  }

  lemma SlicesJoin(s: seq<char>, a: nat, b: nat, c: nat)
    requires a <= b <= c <= |s|
    ensures s[a..b] + s[b..c] == s[a..c]
  {
  }

  /** A read returns the bytes at its position; it returns none exactly when it asks for none or
      stands at or past the end. */
  lemma ReadIsSlice(w: seq<Command>, pos: nat, count: nat)
    ensures |Read(w, pos, count)| <= count
    ensures Read(w, pos, count) == [] <==> count == 0 || |Flat(w)| <= pos
    ensures pos <= |Flat(w)| ==>
              && pos + |Read(w, pos, count)| <= |Flat(w)|
              && Read(w, pos, count) == Flat(w)[pos..pos + |Read(w, pos, count)|]
  {
    hide Flat, Locate, StartOf;
    LookupIsRight(w, pos);
    if Locate(w, pos).Some? {
      var (k, j) := Locate(w, pos).value;
      var r := Read(w, pos, count);
      FlatAt(w, k);
      StartsInOrder(w, k + 1, |w|);
      SliceOfSlice(Flat(w), StartOf(w, k), StartOf(w, k + 1), j, |r|);
    }
  }

  /** A read at byte `j` of command `k` returns as much as it asks for, or everything up to the end of
      that command; past the last byte of all it returns nothing. */
  lemma ReadLaw(w: seq<Command>, k: nat, j: nat, count: nat, pos: nat)
    ensures InCommand(w, k, j) ==>
              Read(w, StartOf(w, k) + j, count) ==
                if count < |w[k]| - j then w[k][j..j + count] else w[k][j..|w[k]|]
    ensures pos >= |Flat(w)| ==> Read(w, pos, count) == []
  {
    hide Flat, Locate, StartOf;
    if InCommand(w, k, j) {
      LookupIsRight(w, StartOf(w, k) + j);
    }
    LookupIsRight(w, pos);
  }

  /** The bytes returned by a sequence of reads with the given counts, from `pos` on. */
  function ReadAll(w: seq<Command>, pos: nat, counts: seq<nat>): seq<char>
    decreases |counts|
  {
    if counts == [] then []
    else Read(w, pos, counts[0]) + ReadAll(w, pos + |Read(w, pos, counts[0])|, counts[1..])
  }

  /** With no write in between, reads with positive counts return consecutive bytes from their
      start; enough of them (total - pos always are) reach the end. */
  lemma {:induction false} ReadsAreConsecutive(w: seq<Command>, pos: nat, counts: seq<nat>)
    requires pos <= |Flat(w)|
    requires forall i :: 0 <= i < |counts| ==> counts[i] > 0
    ensures pos + |ReadAll(w, pos, counts)| <= |Flat(w)|
    ensures ReadAll(w, pos, counts) == Flat(w)[pos..pos + |ReadAll(w, pos, counts)|]
    ensures |counts| >= |Flat(w)| - pos ==> pos + |ReadAll(w, pos, counts)| == |Flat(w)|
    decreases |counts|
  {
    hide Flat, Read;
    if counts != [] {
      var r := Read(w, pos, counts[0]);
      var tail := ReadAll(w, pos + |r|, counts[1..]);
      ReadIsSlice(w, pos, counts[0]);
      ReadsAreConsecutive(w, pos + |r|, counts[1..]);
      assert ReadAll(w, pos, counts) == r + tail;
      hide ReadAll;
      SlicesJoin(Flat(w), pos, pos + |r|, pos + |r| + |tail|);
    }
  }

  /** Enough reads with positive counts return exactly the suffix from their start. */
  lemma ReadsReturnSuffix(w: seq<Command>, pos: nat, counts: seq<nat>)
    requires pos <= |Flat(w)| <= pos + |counts|
    requires forall i :: 0 <= i < |counts| ==> counts[i] > 0
    ensures ReadAll(w, pos, counts) == Flat(w)[pos..]
  {
    hide Flat, ReadAll;
    ReadsAreConsecutive(w, pos, counts);
  }

  /** After seeking to byte `j` of command `k`, the first byte read is that byte. */
  lemma SeekThenRead(w: seq<Command>, k: nat, j: nat, count: nat)
    requires InCommand(w, k, j) && count > 0
    ensures var r := Read(w, Position(w, k, j), count);
            r != [] && r[0] == w[k][j]
  {
    LookupIsRight(w, Position(w, k, j));
  }

  /** From writer to reader: after any run of writes of whole lines, reading from the start to the
      end gives everything that was written except the commands evicted before and the bytes still
      pending. */
  lemma ReadersSeeTheRest(writes: seq<seq<char>>, n: nat, counts: seq<nat>)
    requires n >= 1
    requires forall i :: 0 <= i < |writes| ==> WholeLines(writes[i])
    requires forall i :: 0 <= i < |counts| ==> counts[i] > 0
    requires |counts| >= |Flat(writes)|
    ensures var d := WriteAll(Device([], []), writes);
            Flat(Evicted(d.history, n)) + ReadAll(AddAll(n, d.history).Window(), 0, counts) + d.pending == Flat(writes)
  {
    hide Flat, ReadAll, WriteAll, AddAll, Ring.Window, LastOf, Evicted;
    var d := WriteAll(Device([], []), writes);
    var w := AddAll(n, d.history).Window();
    RunConserves(writes, n);
    LengthOfMiddle(Flat(Evicted(d.history, n)), Flat(w), d.pending);
    ReadsReturnSuffix(w, 0, counts);
  }

  lemma LengthOfMiddle(a: seq<char>, b: seq<char>, c: seq<char>)
    ensures |b| <= |a + b + c|
    ensures b[0..] == b
  {
  }
}
