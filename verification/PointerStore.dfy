/** The pointer-restoring store of unity_fixture.c: a stack of (location, old value) pairs that is
    unwound at the end of a test. Memory is an array of cells; a pointer is the index of a cell. */
module PointerStore {

  type Value = int

  datatype Pair = Pair(pointer: nat, oldValue: Value)

  /** The cells, and the pairs recorded since the store was last empty. */
  datatype State = State(cells: seq<Value>, pairs: seq<Pair>)

  /** What happens to the cells between initialisation and undo: sets through the store, and other
      writes. */
  datatype Op = Set(pointer: nat, newValue: Value) | Write(pointer: nat, newValue: Value)

  predicate InMemory(n: nat, ops: seq<Op>) {
    forall i :: 0 <= i < |ops| ==> ops[i].pointer < n
  }

  function Step(s: State, op: Op): State
    requires op.pointer < |s.cells|
  {
    State(s.cells[op.pointer := op.newValue],
          if op.Set? then s.pairs + [Pair(op.pointer, s.cells[op.pointer])] else s.pairs)
  }

  function Run(s: State, ops: seq<Op>): (s': State)
    requires InMemory(|s.cells|, ops)
    ensures |s'.cells| == |s.cells|
  {
    if ops == [] then s
    else Step(Run(s, ops[..|ops| - 1]), ops[|ops| - 1])
  }

  /** One operation: its cell holds the new value and every other one what it held; a set puts the
      location and its old value on top of the store, a write leaves the store alone. */
  lemma StepLaw(s: State, op: Op, p: nat)
    requires op.pointer < |s.cells| && p < |s.cells|
    ensures |Step(s, op).cells| == |s.cells|
    ensures Step(s, op).cells[p] == if p == op.pointer then op.newValue else s.cells[p]
    ensures op.Set? ==> Step(s, op).pairs == s.pairs + [Pair(op.pointer, s.cells[op.pointer])]
    ensures op.Write? ==> Step(s, op).pairs == s.pairs
  {
  }

  /** After any run a cell holds the value of the last operation on it, or what it held at first when
      there was none. */
  lemma {:induction false} CellAfterRun(s: State, ops: seq<Op>, p: nat, i: nat)
    requires InMemory(|s.cells|, ops) && p < |s.cells| && i <= |ops|
    requires forall j :: i < j < |ops| ==> ops[j].pointer != p
    ensures i < |ops| && ops[i].pointer == p ==> Run(s, ops).cells[p] == ops[i].newValue
    ensures (forall j :: 0 <= j < |ops| ==> ops[j].pointer != p) ==> Run(s, ops).cells[p] == s.cells[p]
    decreases |ops|
  {
    if ops != [] {
      var n := |ops| - 1;
      CellAfterRun(s, ops[..n], p, if i < n then i else n);
      assert forall j :: 0 <= j < n ==> ops[..n][j] == ops[j];
    }
  }

  predicate PairsInMemory(s: State) {
    forall i :: 0 <= i < |s.pairs| ==> s.pairs[i].pointer < |s.cells|
  }

  /** Write the old values back, the last recorded first. */
  function Undo(s: State): (s': State)
    requires PairsInMemory(s)
    ensures |s'.cells| == |s.cells| && s'.pairs == []
    decreases |s.pairs|
  {
    if s.pairs == [] then s
    else
      var top := s.pairs[|s.pairs| - 1];
      Undo(State(s.cells[top.pointer := top.oldValue], s.pairs[..|s.pairs| - 1]))
  }

  /** The number of sets in a run. */
  function SetCount(ops: seq<Op>): nat {
    if ops == [] then 0
    else SetCount(ops[..|ops| - 1]) + if ops[|ops| - 1].Set? then 1 else 0
  }

  /** The index of the first set of a location, or the length. */
  function FirstSet(ops: seq<Op>, p: nat): (i: nat)
    ensures i <= |ops|
    ensures i < |ops| ==> ops[i].Set? && ops[i].pointer == p
    ensures forall j :: 0 <= j < i ==> !(ops[j].Set? && ops[j].pointer == p)
  {
    if ops == [] then 0
    else
      var i := FirstSet(ops[..|ops| - 1], p);
      if i < |ops| - 1 then i
      else if ops[i].Set? && ops[i].pointer == p then i
      else |ops|
  }

  /** The value of the oldest pair of a location, or what the cell holds when it has none: what undo
      leaves there. */
  function Restored(s: State, p: nat): Value
    requires p < |s.cells|
    decreases |s.pairs|
  {
    if s.pairs == [] then s.cells[p]
    else if s.pairs[0].pointer == p then s.pairs[0].oldValue
    else Restored(s.(pairs := s.pairs[1..]), p)
  }

  lemma {:induction false} RestoredBelow(s: State, p: nat)
    requires p < |s.cells| && s.pairs != [] && PairsInMemory(s)
    ensures var n := |s.pairs| - 1;
            var top := s.pairs[n];
            Restored(s, p) == Restored(State(s.cells[top.pointer := top.oldValue], s.pairs[..n]), p)
    decreases |s.pairs|
  {
    var n := |s.pairs| - 1;
    if n > 0 && s.pairs[0].pointer != p {
      RestoredBelow(s.(pairs := s.pairs[1..]), p);
      assert s.pairs[1..][..n - 1] == s.pairs[..n][1..];
    }
  }

  lemma {:induction false} UndoRestores(s: State, p: nat)
    requires PairsInMemory(s) && p < |s.cells|
    ensures Undo(s).cells[p] == Restored(s, p)
    decreases |s.pairs|
  {
    if s.pairs != [] {
      var n := |s.pairs| - 1;
      var top := s.pairs[n];
      RestoredBelow(s, p);
      UndoRestores(State(s.cells[top.pointer := top.oldValue], s.pairs[..n]), p);
    }
  }

  /** The location has a recorded pair. */
  ghost predicate Recorded(pairs: seq<Pair>, p: nat) {
    exists i :: 0 <= i < |pairs| && pairs[i].pointer == p
  }

  lemma RecordedTail(pairs: seq<Pair>, p: nat)
    requires pairs != []
    ensures Recorded(pairs, p) <==> pairs[0].pointer == p || Recorded(pairs[1..], p)
  {
    if Recorded(pairs[1..], p) {
      var i :| 0 <= i < |pairs[1..]| && pairs[1..][i].pointer == p;
      assert pairs[i + 1].pointer == p;
    }
    if i :| 1 <= i < |pairs| && pairs[i].pointer == p {
      assert pairs[1..][i - 1].pointer == p;
    }
  }

  lemma {:induction false} RestoredUnrecorded(s: State, p: nat)
    requires p < |s.cells| && !Recorded(s.pairs, p)
    ensures Restored(s, p) == s.cells[p]
    decreases |s.pairs|
  {
    if s.pairs != [] {
      RecordedTail(s.pairs, p);
      RestoredUnrecorded(s.(pairs := s.pairs[1..]), p);
    }
  }

  /** Once a location is recorded, nothing that happens to the cells or on top of the store changes
      what undo leaves there. */
  lemma {:induction false} RestoredIsFixed(s: State, p: nat, cells: seq<Value>, more: seq<Pair>)
    requires p < |s.cells| && p < |cells| && Recorded(s.pairs, p)
    ensures Restored(State(cells, s.pairs + more), p) == Restored(s, p)
    ensures Recorded(s.pairs + more, p)
    decreases |s.pairs|
  {
    var i :| 0 <= i < |s.pairs| && s.pairs[i].pointer == p;
    assert (s.pairs + more)[i].pointer == p;
    if s.pairs[0].pointer != p {
      RecordedTail(s.pairs, p);
      RestoredIsFixed(s.(pairs := s.pairs[1..]), p, cells, more);
      assert (s.pairs + more)[1..] == s.pairs[1..] + more;
    }
  }

  lemma {:induction false} RestoredByFirstPair(s: State, p: nat, cells: seq<Value>, oldValue: Value)
    requires p < |s.cells| && p < |cells| && !Recorded(s.pairs, p)
    ensures Restored(State(cells, s.pairs + [Pair(p, oldValue)]), p) == oldValue
    decreases |s.pairs|
  {
    var pairs := s.pairs + [Pair(p, oldValue)];
    if s.pairs == [] {
      assert pairs[0] == Pair(p, oldValue);
    } else {
      RecordedTail(s.pairs, p);
      RestoredByFirstPair(s.(pairs := s.pairs[1..]), p, cells, oldValue);
      assert pairs[1..] == s.pairs[1..] + [Pair(p, oldValue)];
    }
  }

  lemma RecordedPush(pairs: seq<Pair>, pair: Pair, p: nat)
    ensures Recorded(pairs + [pair], p) <==> Recorded(pairs, p) || pair.pointer == p
  {
    assert (pairs + [pair])[|pairs|] == pair;
    if Recorded(pairs, p) {
      var i :| 0 <= i < |pairs| && pairs[i].pointer == p;
      assert (pairs + [pair])[i].pointer == p;
    }
  }

  /** Undo leaves at the location what it held before the run's first set of it, or what it holds at
      the end if the run does not set it. */
  predicate Undoable(cells: seq<Value>, ops: seq<Op>, p: nat)
    requires InMemory(|cells|, ops) && p < |cells|
  {
    Restored(Run(State(cells, []), ops), p) == Run(State(cells, []), ops[..FirstSet(ops, p)]).cells[p]
  }

  lemma {:induction false} RunRecords(cells: seq<Value>, ops: seq<Op>, p: nat)
    requires InMemory(|cells|, ops) && p < |cells|
    ensures var s := Run(State(cells, []), ops);
            && PairsInMemory(s)
            && |s.pairs| == SetCount(ops)
            && (Recorded(s.pairs, p) <==> FirstSet(ops, p) < |ops|)
    decreases |ops|
  {
    if ops != [] {
      var n := |ops| - 1;
      var s := Run(State(cells, []), ops[..n]);
      RunRecords(cells, ops[..n], p);
      if ops[n].Set? {
        RecordedPush(s.pairs, Pair(ops[n].pointer, s.cells[ops[n].pointer]), p);
      }
    }
  }

  lemma {:induction false} RunIsUndoable(cells: seq<Value>, ops: seq<Op>, p: nat)
    requires InMemory(|cells|, ops) && p < |cells|
    ensures Undoable(cells, ops, p)
    decreases |ops|
  {
    if ops == [] {
      assert ops[..0] == ops;
    } else {
      var n := |ops| - 1;
      var op := ops[n];
      var s, s1 := Run(State(cells, []), ops[..n]), Run(State(cells, []), ops);
      RunIsUndoable(cells, ops[..n], p);
      RunRecords(cells, ops[..n], p);
      RunRecords(cells, ops, p);
      assert s1 == Step(s, op);
      assert ops[..n][..FirstSet(ops[..n], p)] == ops[..FirstSet(ops[..n], p)];
      hide Restored, Run, Recorded;
      if Recorded(s.pairs, p) {
        var more := if op.Set? then [Pair(op.pointer, s.cells[op.pointer])] else [];
        assert s1 == State(s1.cells, s.pairs + more);
        RestoredIsFixed(s, p, s1.cells, more);
      } else if op.Set? && op.pointer == p {
        RestoredByFirstPair(s, p, s1.cells, s.cells[p]);
      } else {
        RestoredUnrecorded(s1, p);
        assert ops[..|ops|] == ops;
      }
    }
  }

  /** After any run of sets (locations repeated or not) and other writes, undo restores each set
      location to its value before its first set, and leaves every other cell as it is. */
  lemma UndoAfterRun(cells: seq<Value>, ops: seq<Op>, p: nat)
    requires InMemory(|cells|, ops) && p < |cells|
    ensures var s := Run(State(cells, []), ops);
            && PairsInMemory(s)
            && |s.pairs| == SetCount(ops)
            && Undo(s).cells[p] ==
               if FirstSet(ops, p) < |ops| then Run(State(cells, []), ops[..FirstSet(ops, p)]).cells[p]
               else s.cells[p]
  {
    RunRecords(cells, ops, p);
    RunIsUndoable(cells, ops, p);
    UndoRestores(Run(State(cells, []), ops), p);
    assert ops[..|ops|] == ops;
  }

  class PointerStore {
    const cells: array<Value>
    const pointerStore: array<Pair>
    var pointerIndex: nat

    ghost predicate Valid()
      reads this, cells, pointerStore
    {
      && pointerIndex <= pointerStore.Length
      && PairsInMemory(Contents())
    }

    ghost function Contents(): State
      reads this, cells, pointerStore
      requires pointerIndex <= pointerStore.Length
    {
      State(cells[..], pointerStore[..pointerIndex])
    }

    constructor (memory: array<Value>, maxPointers: nat)
      ensures Valid() && Contents() == State(memory[..], [])
      ensures cells == memory && fresh(pointerStore) && pointerStore.Length == maxPointers
    {
      cells := memory;
      pointerStore := new Pair[maxPointers](_ => Pair(0, 0));
      pointerIndex := 0;
    }

    /** UnityPointer_Init */
    method Init()
      requires Valid()
      modifies this
      ensures Valid() && Contents() == State(cells[..], [])
    {
      pointerIndex := 0;
    }

    /** UnityPointer_Set. When the store is full it changes nothing and fails the test. */
    method Set(pointer: nat, newValue: Value) returns (ok: bool)
      requires Valid() && pointer < cells.Length
      modifies this, cells, pointerStore
      ensures Valid()
      ensures ok <==> old(pointerIndex) < pointerStore.Length
      ensures Contents() == if ok then Step(old(Contents()), Op.Set(pointer, newValue)) else old(Contents())
      ensures ok ==> cells[..] == old(cells[..])[pointer := newValue]
      ensures ok ==> pointerStore[..pointerIndex]
                     == old(pointerStore[..pointerIndex]) + [Pair(pointer, old(cells[pointer]))]
    {
      if pointerIndex >= pointerStore.Length {
        return false;
      }
      pointerStore[pointerIndex] := Pair(pointer, cells[pointer]);
      cells[pointer] := newValue;
      pointerIndex := pointerIndex + 1;
      assert cells[..] == old(cells[..])[pointer := newValue];
      return true;
    }

    /** UnityPointer_UndoAllSets */
    method UndoAllSets()
      requires Valid()
      modifies this, cells
      ensures Valid() && Contents() == Undo(old(Contents()))
    {
      while pointerIndex > 0
        invariant Valid()
        invariant Undo(Contents()) == Undo(old(Contents()))
        decreases pointerIndex
      {
        ghost var s := Contents();
        pointerIndex := pointerIndex - 1;
        var top := pointerStore[pointerIndex];
        assert top == s.pairs[pointerIndex] && s.pairs[..pointerIndex] == pointerStore[..pointerIndex];
        cells[top.pointer] := top.oldValue;
        assert cells[..] == s.cells[top.pointer := top.oldValue];
      }
    }
  }
}
