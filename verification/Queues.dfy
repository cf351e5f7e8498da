/** What any mix of queue operations does, on a plain sequence. */
module FifoSpec {

  datatype Op<T> = Enq(x: T) | Deq

  /** The contents after a mix of operations; taking from an empty queue does nothing. */
  function Contents<T>(ops: seq<Op<T>>): seq<T> {
    if ops == [] then []
    else
      var s := Contents(ops[..|ops| - 1]);
      match ops[|ops| - 1]
      case Enq(x) => s + [x]
      case Deq => if s == [] then [] else s[1..]
  }

  /** Everything taken out, oldest first. */
  function Taken<T>(ops: seq<Op<T>>): seq<T> {
    if ops == [] then []
    else
      var front := ops[..|ops| - 1];
      Taken(front) + if ops[|ops| - 1].Deq? && Contents(front) != [] then [Contents(front)[0]] else []
  }

  /** Everything put in. */
  function Put<T>(ops: seq<Op<T>>): seq<T> {
    if ops == [] then []
    else Put(ops[..|ops| - 1]) + match ops[|ops| - 1] case Enq(x) => [x] case Deq => []
  }

  /** First in, first out: nothing is lost, duplicated or reordered. */
  lemma {:induction false} FirstInFirstOut<T>(ops: seq<Op<T>>)
    ensures Put(ops) == Taken(ops) + Contents(ops)
  {
    if ops != [] {
      FirstInFirstOut(ops[..|ops| - 1]);
    }
  }

  lemma NextOp<T>(ops: seq<Op<T>>, i: nat)
    requires i < |ops|
    ensures ops[..i + 1][..|ops[..i + 1]| - 1] == ops[..i]
  {
  }
}

/**
  The router's packet queue: cells linked from head to tail. Emptying it leaves the tail
  pointer at the freed cell, so the tail means something only while the head is not null.
 */
module CellQueue {
  import opened FifoSpec

  class Cell<T> {
    const element: T
    var next: Cell?<T>

    constructor Cons(element: T, l: Cell?<T>)
      ensures this.element == element && next == l
    {
      this.element := element;
      next := l;
    }
  }

  class Queue<T> {
    var head: Cell?<T>
    var tail: Cell?<T>
    ghost var cells: seq<Cell<T>>

    ghost predicate Valid()
      reads this, cells
    {
      && (forall i, j :: 0 <= i < j < |cells| ==> cells[i] != cells[j])
      && (forall i :: 0 <= i < |cells| - 1 ==> cells[i].next == cells[i + 1])
      && (cells == [] <==> head == null)
      && (cells != [] ==> head == cells[0] && tail == cells[|cells| - 1] && tail.next == null)
    }

    ghost function Contents(): seq<T>
      reads this
    {
      seq(|cells|, i requires 0 <= i < |cells| reads this => cells[i].element)
    }

    constructor ()
      ensures Valid() && Contents() == [] && cells == []
    {
      head, tail, cells := null, null, [];
    }

    method IsEmpty() returns (empty: bool)
      requires Valid()
      ensures empty <==> Contents() == []
    {
      empty := head == null;
    }

    method Enqueue(x: T)
      requires Valid()
      modifies this, cells
      ensures Valid() && Contents() == old(Contents()) + [x]
      ensures tail != null && fresh(tail) && cells == old(cells) + [tail]
    {
      if head == null {
        head := new Cell.Cons(x, null);
        tail := head;
      } else {
        var c := new Cell.Cons(x, null);
        tail.next := c;
        tail := tail.next;
      }
      cells := cells + [tail];
    }

    method Dequeue() returns (x: T)
      requires Valid() && Contents() != []
      modifies this
      ensures Valid() && old(Contents()) == [x] + Contents()
      ensures cells == old(cells)[1..]
    {
      x := head.element;
      assert cells[0] == head && (|cells| == 1 ==> tail == head) && (|cells| > 1 ==> head.next == cells[1]);
      head := head.next;
      cells := cells[1..];
    }
  }

  /** Every mix of operations on the linked cells behaves as on a sequence. */
  method Drive<T>(ops: seq<Op<T>>) returns (q: Queue<T>, taken: seq<T>)
    ensures q.Valid() && q.Contents() == FifoSpec.Contents(ops) && taken == Taken(ops)
  {
    q := new Queue();
    taken := [];
    for i := 0 to |ops|
      invariant q.Valid() && fresh(q) && forall j :: 0 <= j < |q.cells| ==> fresh(q.cells[j])
      invariant q.Contents() == FifoSpec.Contents(ops[..i]) && taken == Taken(ops[..i])
    {
      NextOp(ops, i);
      match ops[i]
      case Enq(x) =>
        q.Enqueue(x);
      case Deq =>
        var empty := q.IsEmpty();
        if !empty {
          var x := q.Dequeue();
          taken := taken + [x];
        }
    }
    assert ops[..|ops|] == ops;
  }
}

/**
  The link emulator's queue: `first` is the newest entry and `last` the oldest, entries
  are linked from oldest to newest through `prev`, and `size` counts them.
 */
module BackQueue {
  import opened FifoSpec
  import opened Options

  class Entry<T> {
    const crt: T
    var prev: Entry?<T>

    constructor (crt: T)
      ensures this.crt == crt && prev == null
    {
      this.crt := crt;
      prev := null;
    }
  }

  class Queue<T> {
    var size: int
    var first: Entry?<T>
    var last: Entry?<T>
    ghost var entries: seq<Entry<T>>

    ghost predicate Valid()
      reads this, entries
    {
      && size == |entries|
      && (forall i, j :: 0 <= i < j < |entries| ==> entries[i] != entries[j])
      && (forall i :: 0 <= i < |entries| - 1 ==> entries[i].prev == entries[i + 1])
      && (entries == [] ==> first == null && last == null)
      && (entries != [] ==> last == entries[0] && first == entries[|entries| - 1] && first.prev == null)
    }

    ghost function Contents(): seq<T>
      reads this
    {
      seq(|entries|, i requires 0 <= i < |entries| reads this => entries[i].crt)
    }

    constructor ()
      ensures Valid() && Contents() == [] && entries == []
    {
      size, first, last, entries := 0, null, null, [];
    }

    method Enqueue(m: T)
      requires Valid()
      modifies this, entries
      ensures Valid() && Contents() == old(Contents()) + [m] && size == old(size) + 1
      ensures first != null && fresh(first) && entries == old(entries) + [first]
    {
      var t := new Entry(m);
      if first == null {
        assert last == null;
        first := t;
        last := first;
      } else {
        first.prev := t;
        first := t;
      }
      entries := entries + [t];
      size := size + 1;
    }

    method Dequeue() returns (m: Option<T>)
      requires Valid()
      modifies this
      ensures Valid()
      ensures old(Contents()) == [] ==> m == None && Contents() == [] && entries == []
      ensures old(Contents()) != [] ==> m.Some? && old(Contents()) == [m.value] + Contents() && size == old(size) - 1
      ensures entries == if old(entries) == [] then [] else old(entries)[1..]
    {
      if first == null {
        assert size == 0;
        return None;
      }
      m := Some(last.crt);
      assert entries[0] == last;
      if first == last {
        assert first.prev == null;
        assert |entries| == 1;
        first, last := null, null;
      } else {
        assert |entries| > 1;
        last := last.prev;
      }
      entries := entries[1..];
      size := size - 1;
    }
  }

  /** Every mix of operations on the linked entries behaves as on a sequence. */
  method Drive<T>(ops: seq<Op<T>>) returns (q: Queue<T>, taken: seq<T>)
    ensures q.Valid() && q.Contents() == FifoSpec.Contents(ops) && taken == Taken(ops)
  {
    q := new Queue();
    taken := [];
    for i := 0 to |ops|
      invariant q.Valid() && fresh(q) && forall j :: 0 <= j < |q.entries| ==> fresh(q.entries[j])
      invariant q.Contents() == FifoSpec.Contents(ops[..i]) && taken == Taken(ops[..i])
    {
      NextOp(ops, i);
      match ops[i]
      case Enq(x) =>
        q.Enqueue(x);
      case Deq =>
        var m := q.Dequeue();
        if m.Some? {
          taken := taken + [m.value];
        }
    }
    assert ops[..|ops|] == ops;
  }
}
