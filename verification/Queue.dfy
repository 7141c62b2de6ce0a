/** The ring buffer: a bounded queue in an array with one spare cell. */
module RingQueue {

  /** The last `n` items of a sequence. */
  function LastOf<T>(n: nat, s: seq<T>): (r: seq<T>)
    ensures |r| <= n && |r| <= |s|
  {
    if |s| <= n then s else s[|s| - n..]
  }

  /** They are the end of the sequence, all of it if there are no more than `n`. */
  lemma {:induction false} LastOfMeans<T>(n: nat, s: seq<T>)
    ensures |LastOf(n, s)| == if |s| <= n then |s| else n
    ensures s == s[..|s| - |LastOf(n, s)|] + LastOf(n, s)
  {
  }

  /** The cells from `front` up to `back`, around the end of the array. */
  function Ring<T>(cells: seq<T>, front: nat, back: nat): (r: seq<T>)
    requires front < |cells| && back < |cells|
    ensures |r| == if back >= front then back - front else |cells| - front + back
  {
    if back >= front then cells[front..back] else cells[front..] + cells[..back]
  }

  lemma LastOfAppend<T>(n: nat, s: seq<T>, x: T)
    ensures LastOf(n, LastOf(n, s) + [x]) == LastOf(n, s + [x])
  {
  }

  lemma LastOfFull<T>(n: nat, s: seq<T>, x: T)
    requires |s| == n > 0
    ensures LastOf(n, s + [x]) == s[1..] + [x]
  {
  }

  lemma {:induction false} LastOfNone<T>(s: seq<T>)
    ensures LastOf(0, s) == []
  {
  }

  lemma LastOfRoom<T>(n: nat, s: seq<T>, x: T)
    requires 0 < n && |s| <= n
    ensures LastOf(n, s + [x]) == (if |s| == n then s[1..] else s) + [x]
  {
    if |s| == n {
      LastOfFull(n, s, x);
    }
  }

  lemma RingAppend<T>(cells: seq<T>, front: nat, back: nat, next: nat, x: T)
    requires front < |cells| && back < |cells| && next != front
    requires next == if back == |cells| - 1 then 0 else back + 1
    ensures Ring(cells[back := x], front, next) == Ring(cells, front, back) + [x]
  {
  }

  lemma NextCell(i: nat, n: nat)
    requires i < n
    ensures (i + 1) % n == if i == n - 1 then 0 else i + 1
  {
  }

  class Queue<T(0)> {
    var cells: array<T>
    var capability: nat
    var front: nat
    var back: nat

    ghost predicate Valid()
      reads this
    {
      capability == cells.Length && front < capability && back < capability
    }

    ghost function Contents(): (s: seq<T>)
      reads this, cells
      requires Valid()
      ensures |s| < capability
    {
      Ring(cells[..], front, back)
    }

    constructor (cap: nat)
      ensures Valid() && fresh(cells) && capability == cap + 1 && Contents() == []
    {
      cells := new T[cap + 1];
      capability := cap + 1;
      front, back := 0, 0;
    }

    /** Writes an item behind the last one, into a queue that is not full. */
    method Append(data: T)
      requires Valid() && |Contents()| < capability - 1
      modifies this`back, cells
      ensures Valid() && Contents() == old(Contents()) + [data]
    {
      ghost var was := cells[..];
      NextCell(back, capability);
      RingAppend(was, front, back, (back + 1) % capability, data);
      cells[back] := data;
      assert cells[..] == was[back := data];
      back := (back + 1) % capability;
    }

    /** Makes room for one more item: a full queue loses its oldest. */
    method DropIfFull()
      requires Valid() && capability > 1
      modifies this`front
      ensures Valid() && |Contents()| < capability - 1
      ensures Contents() == if old(|Contents()|) == capability - 1 then old(Contents())[1..] else old(Contents())
    {
      NextCell(back, capability);
      if (back + 1) % capability == front {
        var _ := Pop();
      }
    }

    /** Appends an item; when the queue is full the oldest item is dropped. */
    method Push(data: T)
      requires Valid()
      modifies this`front, this`back, cells
      ensures Valid() && cells == old(cells) && capability == old(capability)
      ensures Contents() == LastOf(capability - 1, old(Contents()) + [data])
    {
      ghost var before := Contents();
      if capability == 1 {
        PushNowhere(data);
        LastOfNone(before + [data]);
      } else {
        PushSomewhere(data);
        LastOfRoom(capability - 1, before, data);
      }
    }

    /** With room for an item, the oldest makes way if need be. */
    method PushSomewhere(data: T)
      requires Valid() && capability > 1
      modifies this`front, this`back, cells
      ensures Valid() && Contents()
        == (if old(|Contents()|) == capability - 1 then old(Contents())[1..] else old(Contents())) + [data]
    {
      DropIfFull();
      Append(data);
    }

    /** A queue of capacity 0 is full and empty at once: nothing is ever kept. */
    method PushNowhere(data: T)
      requires Valid() && capability == 1
      modifies this`front, this`back, cells
      ensures Valid() && Contents() == []
    {
      var _ := Pop();
      cells[back] := data;
      NextCell(back, capability);
      back := (back + 1) % capability;
    }

    /**
     Takes the oldest item. The code does not test for emptiness: popping an empty
     queue makes it show all its other cells.
     */
    method Pop() returns (ret: T)
      requires Valid()
      modifies this`front
      ensures Valid()
      ensures ret == old(cells[front]) && front == (old(front) + 1) % capability
      ensures old(Contents()) != [] ==> ret == old(Contents())[0] && Contents() == old(Contents())[1..]
      ensures old(Contents()) == [] ==> Contents() == cells[old(front) + 1..] + cells[..old(front)]
    {
      NextCell(front, capability);
      ret := cells[front];
      front := (front + 1) % capability;
    }

    method Get() returns (items: seq<T>)
      requires Valid()
      ensures items == Contents()
    {
      if back >= front {
        items := cells[front..back];
      } else {
        items := cells[front..] + cells[..back];
      }
    }
  }

  datatype Op<T> = PushOp(data: T) | PopOp

  /** One operation on a bounded sequence. */
  function Step<T>(n: nat, s: seq<T>, op: Op<T>): seq<T> {
    match op
    case PushOp(x) => LastOf(n, s + [x])
    case PopOp => if s == [] then [] else s[1..]
  }

  /** The bounded sequence that a run of operations leaves, from `s`. */
  function Replay<T>(n: nat, s: seq<T>, ops: seq<Op<T>>): seq<T>
    decreases |ops|
  {
    if ops == [] then s else Step(n, Replay(n, s, ops[..|ops| - 1]), ops[|ops| - 1])
  }

  /** No prefix of the run pops an empty queue. */
  ghost predicate NeverPopsEmpty<T>(n: nat, s: seq<T>, ops: seq<Op<T>>) {
    forall k {:trigger ops[k]} :: 0 <= k < |ops| && ops[k].PopOp? ==> Replay(n, s, ops[..k]) != []
  }

  method Perform<T(0)>(q: Queue<T>, op: Op<T>)
    requires q.Valid() && (op.PopOp? ==> q.Contents() != [])
    modifies q`front, q`back, q.cells
    ensures q.Valid() && q.cells == old(q.cells) && q.capability == old(q.capability)
    ensures q.Contents() == Step(q.capability - 1, old(q.Contents()), op)
  {
    if op.PushOp? {
      q.Push(op.data);
    } else {
      var _ := q.Pop();
    }
  }

  lemma {:induction false} ReplayNext<T>(n: nat, s: seq<T>, ops: seq<Op<T>>, i: nat)
    requires i < |ops|
    ensures Replay(n, s, ops[..i + 1]) == Step(n, Replay(n, s, ops[..i]), ops[i])
  {
    assert ops[..i + 1][..i] == ops[..i];
  }

  lemma {:induction false} NotEmptyAt<T>(n: nat, s: seq<T>, ops: seq<Op<T>>, i: nat)
    requires NeverPopsEmpty(n, s, ops) && i < |ops|
    ensures ops[i].PopOp? ==> Replay(n, s, ops[..i]) != []
  {
  }

  /** Any run on the ring buffer refines the bounded sequence. */
  method Drive<T(0)>(q: Queue<T>, ops: seq<Op<T>>)
    requires q.Valid() && NeverPopsEmpty(q.capability - 1, q.Contents(), ops)
    modifies q`front, q`back, q.cells
    ensures q.Valid() && q.cells == old(q.cells) && q.capability == old(q.capability)
    ensures q.Contents() == Replay(q.capability - 1, old(q.Contents()), ops)
  {
    ghost var n: nat, s := q.capability - 1, q.Contents();
    ghost var now := s;
    for i := 0 to |ops|
      invariant q.Valid() && q.cells == old(q.cells) && q.capability == n + 1
      invariant q.Contents() == now == Replay(n, s, ops[..i])
    {
      ReplayNext(n, s, ops, i);
      NotEmptyAt(n, s, ops, i);
      Perform(q, ops[i]);
      now := Step(n, now, ops[i]);
    }
    assert ops[..|ops|] == ops;
  }

  function Pushes<T>(items: seq<T>): seq<Op<T>> {
    seq(|items|, i requires 0 <= i < |items| => PushOp(items[i]))
  }

  /** Pushing items one after another keeps exactly the last `n` of all. */
  lemma {:induction false} PushesKeepLast<T>(n: nat, s: seq<T>, items: seq<T>)
    requires |s| <= n
    ensures Replay(n, s, Pushes(items)) == LastOf(n, s + items)
    decreases |items|
  {
    if items == [] {
      assert s + items == s;
    } else {
      var before, x := items[..|items| - 1], items[|items| - 1];
      assert Pushes(items)[..|items| - 1] == Pushes(before);
      PushesKeepLast(n, s, before);
      assert s + items == s + before + [x];
      LastOfAppend(n, s + before, x);
    }
  }
}
