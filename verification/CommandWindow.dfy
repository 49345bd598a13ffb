/** The commands that the device retains, oldest first, and the two ways of naming a byte in them:
    a flat position in their concatenation, and a (command, offset) pair. */
module CommandWindow {
  import opened Options

  type Command = seq<char>

  /** All commands end to end. */
  function Flat(w: seq<Command>): (r: seq<char>) {
    if w == [] then [] else Flat(w[..|w| - 1]) + w[|w| - 1]
  }

  /** Where command `k` starts. */
  function StartOf(w: seq<Command>, k: nat): nat
    requires k <= |w|
  {
    |Flat(w[..k])|
  }

  /** Byte `j` of command `k` exists. */
  predicate InCommand(w: seq<Command>, k: nat, j: nat) {
    k < |w| && j < |w[k]|
  }

  /** The command that holds a flat position, and the offset in it: what the lookup promises. */
  function Locate(w: seq<Command>, pos: nat): Option<(nat, nat)> {
    LocateFrom(w, 0, pos)
  }

  function LocateFrom(w: seq<Command>, k: nat, pos: nat): Option<(nat, nat)>
    requires k <= |w|
    decreases |w| - k
  {
    if k == |w| then None
    else if pos < StartOf(w, k) + |w[k]| && StartOf(w, k) <= pos then Some((k, pos - StartOf(w, k)))
    else LocateFrom(w, k + 1, pos)
  }

  /** One step of the walk: the position is in command `k`, or the walk goes on behind it. */
  lemma LocateStep(w: seq<Command>, k: nat, pos: nat)
    requires k < |w| && StartOf(w, k) <= pos
    ensures pos < StartOf(w, k) + |w[k]| ==> LocateFrom(w, k, pos) == Some((k, pos - StartOf(w, k)))
    ensures pos >= StartOf(w, k) + |w[k]| ==> LocateFrom(w, k, pos) == LocateFrom(w, k + 1, pos)
  {
    hide StartOf;
  }

  lemma LocateEnds(w: seq<Command>, pos: nat)
    ensures LocateFrom(w, |w|, pos).None?
  {
  }

  /** The position that seeking to byte `j` of command `k` computes. A command past the last one
      gives the end; an offset past the command's end is ignored. */
  function Position(w: seq<Command>, k: nat, j: nat): nat {
    if k >= |w| then |Flat(w)|
    else StartOf(w, k) + if j <= |w[k]| then j else 0
  }

  lemma {:induction false} FlatAppend(v: seq<Command>, w: seq<Command>)
    ensures Flat(v + w) == Flat(v) + Flat(w)
    decreases |w|
  {
    if w == [] {
      assert v + w == v;
    } else {
      var n := |w| - 1;
      FlatAppend(v, w[..n]);
      assert (v + w)[..|v + w| - 1] == v + w[..n];
    }
  }

  lemma FlatOneMore(w: seq<Command>, k: nat)
    requires k < |w|
    ensures Flat(w[..k + 1]) == Flat(w[..k]) + w[k]
  {
    assert w[..k + 1][..k] == w[..k];
  }

  lemma FlatSplit(w: seq<Command>, k: nat)
    requires k < |w|
    ensures Flat(w[..k + 1]) == Flat(w[..k]) + w[k]
    ensures Flat(w) == Flat(w[..k + 1]) + Flat(w[k + 1..])
  {
    hide Flat;
    FlatOneMore(w, k);
    assert w == w[..k + 1] + w[k + 1..];
    FlatAppend(w[..k + 1], w[k + 1..]);
  }

  /** Command `k` stands in the concatenation where StartOf says. */
  lemma FlatAt(w: seq<Command>, k: nat)
    requires k < |w|
    ensures StartOf(w, k + 1) == StartOf(w, k) + |w[k]| <= |Flat(w)|
    ensures Flat(w)[StartOf(w, k)..StartOf(w, k + 1)] == w[k]
  {
    hide Flat;
    FlatSplit(w, k);
    MiddleSlice(Flat(w[..k]), w[k], Flat(w[k + 1..]));
  }

  lemma MiddleSlice(a: seq<char>, b: seq<char>, c: seq<char>)
    ensures (a + b + c)[|a|..|a| + |b|] == b
  {
  }

  lemma StartOfFirst(w: seq<Command>)
    ensures StartOf(w, 0) == 0
  {
  }

  lemma EndOfLast(w: seq<Command>)
    ensures StartOf(w, |w|) == |Flat(w)|
  {
    assert w[..|w|] == w;
  }

  lemma {:induction false} StartsInOrder(w: seq<Command>, i: nat, j: nat)
    requires i <= j <= |w|
    ensures StartOf(w, i) <= StartOf(w, j) <= |Flat(w)|
    ensures StartOf(w, |w|) == |Flat(w)|
    decreases j - i
  {
    assert w[..|w|] == w;
    if i < j {
      FlatAt(w, i);
      StartsInOrder(w, i + 1, j);
    } else if j < |w| {
      FlatAt(w, j);
    }
  }

  /** Byte `j` of command `k` is byte StartOf(k) + j of the concatenation. */
  lemma ByteAt(w: seq<Command>, k: nat, j: nat)
    requires InCommand(w, k, j)
    ensures StartOf(w, k) + j < |Flat(w)|
    ensures Flat(w)[StartOf(w, k) + j] == w[k][j]
  {
    FlatAt(w, k);
    StartsInOrder(w, k + 1, |w|);
    assert Flat(w)[StartOf(w, k)..StartOf(w, k + 1)][j] == Flat(w)[StartOf(w, k) + j];
  }

  /** A byte of the concatenation belongs to one command only. */
  lemma OwnerIsUnique(w: seq<Command>, k: nat, j: nat, k': nat, j': nat)
    requires InCommand(w, k, j) && InCommand(w, k', j')
    requires StartOf(w, k) + j == StartOf(w, k') + j'
    ensures k == k' && j == j'
  {
    FlatAt(w, k);
    FlatAt(w, k');
    if k < k' {
      StartsInOrder(w, k + 1, k');
    } else if k' < k {
      StartsInOrder(w, k' + 1, k);
    }
  }

  lemma {:induction false} LocateFromFinds(w: seq<Command>, i: nat, pos: nat)
    requires i <= |w| && StartOf(w, i) <= pos
    ensures LocateFrom(w, i, pos).None? <==> |Flat(w)| <= pos
    ensures LocateFrom(w, i, pos).Some? ==>
              var (k, j) := LocateFrom(w, i, pos).value;
              InCommand(w, k, j) && pos == StartOf(w, k) + j
    decreases |w| - i
  {
    StartsInOrder(w, i, |w|);
    if i < |w| {
      FlatAt(w, i);
      if StartOf(w, i + 1) <= pos {
        LocateFromFinds(w, i + 1, pos);
      } else {
        StartsInOrder(w, i + 1, |w|);
      }
    }
  }

  /** The lookup is right for every window, empty commands included: it finds nothing exactly from
      the end of the concatenation on, and otherwise finds the one command and offset that name
      the byte at the position. */
  lemma LookupIsRight(w: seq<Command>, pos: nat)
    ensures Locate(w, pos).None? <==> |Flat(w)| <= pos
    ensures forall k: nat, j: nat :: Locate(w, pos) == Some((k, j)) <==> InCommand(w, k, j) && pos == StartOf(w, k) + j
    ensures Locate(w, pos).Some? ==>
              var (k, j) := Locate(w, pos).value;
              InCommand(w, k, j) && pos < |Flat(w)| && Flat(w)[pos] == w[k][j]
  {
    assert StartOf(w, 0) == 0;
    LocateFromFinds(w, 0, pos);
    forall k: nat, j: nat | InCommand(w, k, j) && pos == StartOf(w, k) + j
      ensures Locate(w, pos) == Some((k, j))
    {
      ByteAt(w, k, j);
      var (k', j') := Locate(w, pos).value;
      OwnerIsUnique(w, k, j, k', j');
    }
    if Locate(w, pos).Some? {
      var (k, j) := Locate(w, pos).value;
      ByteAt(w, k, j);
    }
  }

  /** Looking up a position and seeking to what was found are inverses, both ways round; and a
      seek lands on the byte that it names exactly when that byte exists. */
  lemma SeekAndLookupAreInverse(w: seq<Command>, k: nat, j: nat, pos: nat)
    ensures Locate(w, Position(w, k, j)) == Some((k, j)) <==> InCommand(w, k, j)
    ensures pos < |Flat(w)| ==>
              && Locate(w, pos).Some?
              && Position(w, Locate(w, pos).value.0, Locate(w, pos).value.1) == pos
  {
    LookupIsRight(w, pos);
    LookupIsRight(w, Position(w, k, j));
  }

  /** The position in bytes: past the last command it is the end of all; otherwise what lies before it
      are the earlier commands and the first `j` bytes of command `k`, or none of these when the
      command is shorter than that. */
  lemma PositionLaw(w: seq<Command>, k: nat, j: nat)
    ensures Position(w, k, j) <= |Flat(w)|
    ensures k >= |w| ==> Position(w, k, j) == |Flat(w)|
    ensures k < |w| ==>
              Flat(w)[..Position(w, k, j)] == Flat(w[..k]) + w[k][..if j <= |w[k]| then j else 0]
  {
    hide Flat;
    if k < |w| {
      FlatSplit(w, k);
      PrefixOfThree(Flat(w[..k]), w[k], Flat(w[k + 1..]), if j <= |w[k]| then j else 0);
    }
  }

  lemma PrefixOfThree(a: seq<char>, b: seq<char>, c: seq<char>, j: nat)
    requires j <= |b|
    ensures |a| + j <= |a + b + c| && (a + b + c)[..|a| + j] == a + b[..j]
  {
  }

  /** The first command from `m` on that has a byte, or the number of commands. */
  function FirstNonEmpty(w: seq<Command>, m: nat): (k: nat)
    requires m <= |w|
    ensures m <= k <= |w|
    ensures k < |w| ==> w[k] != []
    ensures forall i :: m <= i < k ==> w[i] == []
    decreases |w| - m
  {
    if m == |w| || w[m] != [] then m else FirstNonEmpty(w, m + 1)
  }

  /** The first byte in or behind command `m`, if there is one. */
  function FirstByteFrom(w: seq<Command>, m: nat): Option<(nat, nat)>
    requires m <= |w|
  {
    if FirstNonEmpty(w, m) == |w| then None else Some((FirstNonEmpty(w, m), 0))
  }

  lemma {:induction false} StartOfFirstByte(w: seq<Command>, m: nat)
    requires m <= |w|
    ensures StartOf(w, FirstNonEmpty(w, m)) == StartOf(w, m)
    ensures Locate(w, StartOf(w, m)) == FirstByteFrom(w, m)
    decreases |w| - m
  {
    hide Flat, Locate, StartOf;
    LookupIsRight(w, StartOf(w, m));
    if m == |w| {
      StartsInOrder(w, m, m);
    } else {
      FlatAt(w, m);
      if w[m] == [] {
        StartOfFirstByte(w, m + 1);
      } else {
        assert InCommand(w, m, 0);
      }
    }
  }

  /** Where a seek lands that names no byte: past the last command, at the end; past the end of a
      command, on the first byte in or behind that command; exactly at the end of a command, on the
      first byte behind it. Empty commands are passed over. */
  lemma SeekWithoutByte(w: seq<Command>, k: nat, j: nat)
    requires !InCommand(w, k, j)
    ensures Locate(w, Position(w, k, j)) ==
              FirstByteFrom(w, if k >= |w| then |w| else if j == |w[k]| then k + 1 else k)
  {
    hide Flat, Locate, StartOf;
    if k >= |w| {
      StartsInOrder(w, |w|, |w|);
      StartOfFirstByte(w, |w|);
    } else if j == |w[k]| {
      FlatAt(w, k);
      StartOfFirstByte(w, k + 1);
    } else {
      StartOfFirstByte(w, k);
    }
  }
}
