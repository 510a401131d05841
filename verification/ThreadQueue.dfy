/** The thread queue of util.c (tq_new, tq_push, tq_pop, tq_freeze, tq_thaw) on the list of elist.h. */
module ThreadQueue {
  import opened RingList

  datatype Option<T> = None | Some(value: T)

  /** What the queue's mutex protects. */
  datatype Queue = Queue(frozen: bool, items: seq<int>)

  /** The critical sections; a tq_pop that waits is two of them. */
  datatype Op = Push(data: int) | Pop | Freeze | Thaw

  function Step(s: Queue, op: Op): Queue
  {
    match op
    case Push(data) => if s.frozen then s else s.(items := s.items + [data])
    case Pop => if s.items == [] then s else s.(items := s.items[1..])
    case Freeze => s.(frozen := true)
    case Thaw => s.(frozen := false)
  }

  /** What the operation hands out. */
  function Output(s: Queue, op: Op): seq<int>
  {
    if op.Pop? && s.items != [] then [s.items[0]] else []
  }

  function Run(ops: seq<Op>): Queue
  {
    if ops == [] then Queue(false, []) else Step(Run(ops[..|ops| - 1]), ops[|ops| - 1])
  }

  /** Everything handed out by a run, in order. */
  function Popped(ops: seq<Op>): seq<int>
  {
    if ops == [] then []
    else Popped(ops[..|ops| - 1]) + Output(Run(ops[..|ops| - 1]), ops[|ops| - 1])
  }

  /** Whether the last freeze or thaw of the run was a freeze. */
  function FrozenAfter(ops: seq<Op>): bool
  {
    if ops == [] then false
    else match ops[|ops| - 1]
      case Freeze => true
      case Thaw => false
      case _ => FrozenAfter(ops[..|ops| - 1])
  }

  /** The pushes made while not frozen, in order. */
  function Accepted(ops: seq<Op>): seq<int>
  {
    if ops == [] then []
    else
      var rest := ops[..|ops| - 1];
      match ops[|ops| - 1]
      case Push(data) => if FrozenAfter(rest) then Accepted(rest) else Accepted(rest) + [data]
      case _ => Accepted(rest)
  }

  /** Under every interleaving of pushes, pops, freezes and thaws: the items popped so far followed
      by those still queued are exactly the accepted pushes, in order. */
  lemma {:induction false} PoppedInOrder(ops: seq<Op>)
    ensures Run(ops).frozen == FrozenAfter(ops)
    ensures Accepted(ops) == Popped(ops) + Run(ops).items
  {
    if ops != [] {
      var rest, op := ops[..|ops| - 1], ops[|ops| - 1];
      PoppedInOrder(rest);
      if op.Pop? && Run(rest).items != [] {
        assert Run(rest).items == [Run(rest).items[0]] + Run(rest).items[1..];
      }
    }
  }

  /** A pop finds nothing exactly when every accepted push has been popped. */
  lemma EmptyMeansDrained(ops: seq<Op>)
    ensures Output(Run(ops), Pop) == [] <==> Popped(ops) == Accepted(ops)
    ensures Popped(ops) <= Accepted(ops)
  {
    PoppedInOrder(ops);
  }

  function DataOf(nodes: seq<Node>): (d: seq<int>)
    reads nodes
    ensures |d| == |nodes| && forall i :: 0 <= i < |nodes| ==> d[i] == nodes[i].data
  {
    seq(|nodes|, i requires 0 <= i < |nodes| reads nodes => nodes[i].data)
  }

  /** struct thread_q */
  class ThreadQ {
    const q: Node
    var frozen: bool
    ghost var ring: seq<Node>

    ghost predicate Valid()
      reads this, ring
    {
      Ring(ring) && ring[0] == q
    }

    /** The abstract queue: the data of the entries after the head. */
    ghost function Contents(): Queue
      reads this, ring
      requires Valid()
    {
      Queue(frozen, DataOf(ring[1..]))
    }

    /** tq_new */
    constructor ()
      ensures Valid() && fresh(ring) && Contents() == Run([])
    {
      q := new Node(0);
      frozen := false;
      new;
      ring := [q];
    }

    /** tq_freeze and tq_thaw */
    method FreezeThaw(freeze: bool)
      requires Valid()
      modifies this`frozen
      ensures Valid() && ring == old(ring)
      ensures Contents() == Step(old(Contents()), if freeze then Freeze else Thaw)
    {
      frozen := freeze;
    }

    /** tq_push: refused while frozen. */
    method PushItem(data: int) returns (rc: bool)
      requires Valid()
      modifies this`ring, ring
      ensures Valid() && forall n :: n in ring ==> n in old(ring) || fresh(n)
      ensures rc == !frozen
      ensures Contents() == Step(old(Contents()), Push(data))
    {
      ghost var was := DataOf(ring[1..]);
      var ent := new Node(data);
      rc := true;
      if !frozen {
        assert |ring| > 0 && ring[0] == q;
        hide Ring;
        ListAddTail(ent, q, ring);
        ring := ring + [ent];
        assert DataOf(ring[1..]) == was + [data];
      } else {
        rc := false;
      }
    }

    /** One critical section of tq_pop: takes the first entry, if there is one. */
    method PopItem() returns (r: Option<int>)
      requires Valid()
      modifies this`ring, ring
      ensures Valid() && forall n :: n in ring ==> n in old(ring)
      ensures Contents() == Step(old(Contents()), Pop)
      ensures (if r.Some? then [r.value] else []) == Output(old(Contents()), Pop)
    {
      var empty := ListEmpty(q, ring);
      if empty {
        return None;
      }
      assert q.next == After(ring, 0) == ring[1];
      var ent := q.next;
      r := Some(ent.data);
      ListDel(ent, ring, 1);
      ring := ring[..1] + ring[2..];
      assert DataOf(ring[1..]) == old(DataOf(ring[1..]))[1..];
    }
  }
}
