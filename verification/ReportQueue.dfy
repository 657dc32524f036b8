/** The list of received input reports: a linked list changed in place, the bounded
    drop-oldest queue it implements, and whole runs of that queue. */
module ReportQueue {
  import opened Bytes

  const CAPACITY := 32

  /** Appending to a full queue pushes out the oldest item. */
  function Append<T>(queue: seq<T>, item: T): seq<T> {
    if |queue| < CAPACITY then queue + [item] else (queue + [item])[1..]
  }

  // ---- The linked list ----

  class InputReport {
    const data: seq<byte>
    var next: InputReport?

    constructor (data: seq<byte>)
      ensures this.data == data && next == null
    {
      this.data, this.next := data, null;
    }
  }

  class ReportList {
    var inputReports: InputReport?
    ghost var nodes: seq<InputReport>

    static ghost function After(ns: seq<InputReport>, i: nat): InputReport? {
      if i + 1 < |ns| then ns[i + 1] else null
    }

    ghost predicate Valid()
      reads this, nodes
    {
      && inputReports == (if nodes == [] then null else nodes[0])
      && (forall i :: 0 <= i < |nodes| ==> nodes[i].next == After(nodes, i))
      && (forall i, j :: 0 <= i < j < |nodes| ==> nodes[i] != nodes[j])
    }

    ghost function Contents(): seq<seq<byte>>
      reads this
    {
      Reports(nodes)
    }

    static ghost function Reports(ns: seq<InputReport>): (s: seq<seq<byte>>)
      ensures |s| == |ns| && forall i :: 0 <= i < |ns| ==> s[i] == ns[i].data
    {
      seq(|ns|, i requires 0 <= i < |ns| => ns[i].data)
    }

    constructor ()
      ensures Valid() && Contents() == []
    {
      inputReports, nodes := null, [];
    }

    /** The last report of the list, and how many come before it. */
    method FindEnd() returns (cur: InputReport, numQueued: nat)
      requires Valid() && inputReports != null
      ensures nodes != [] && numQueued == |nodes| - 1 && cur == nodes[numQueued]
    {
      cur := inputReports;
      numQueued := 0;
      while cur.next != null
        invariant 0 <= numQueued < |nodes| && cur == nodes[numQueued]
        decreases |nodes| - numQueued
      {
        cur := cur.next;
        numQueued := numQueued + 1;
      }
    }

    /** The locked part of the transfer callback. `signalled` tells whether a waiting
        reader is woken. */
    method Enqueue(data: seq<byte>) returns (signalled: bool)
      requires Valid()
      modifies this, nodes
      ensures Valid() && Contents() == Append(old(Contents()), data)
      ensures signalled <==> old(Contents()) == []
      ensures forall n <- nodes :: n in old(nodes) || fresh(n)
    {
      var rpt := new InputReport(data);
      if inputReports == null {
        inputReports := rpt;
        nodes := [rpt];
        return true;
      }
      var cur, numQueued := FindEnd();
      cur.next := rpt;
      nodes := nodes + [rpt];
      assert Valid() && Contents() == old(Contents()) + [data];
      if numQueued > 30 {
        var _ := ReturnData(null, 0);
      }
      return false;
    }

    /** Removes the first report, copying as much of it as fits. */
    method ReturnData(data: array?<byte>, length: nat) returns (len: nat)
      requires Valid() && Contents() != []
      requires data == null ==> length == 0
      requires data != null ==> length <= data.Length
      modifies this, data
      ensures Valid() && Contents() == old(Contents())[1..] && nodes == old(nodes)[1..]
      ensures len == Min(length, |old(Contents())[0]|)
      ensures data != null ==> data[..] == old(Contents())[0][..len] + old(data[len..])
    {
      var rpt := inputReports;
      assert rpt.data == Contents()[0];
      len := Min(length, |rpt.data|);
      if len > 0 {
        forall i | 0 <= i < len { data[i] := rpt.data[i]; }
      }
      inputReports := rpt.next;
      nodes := nodes[1..];
    }

    /** The clean-up on closing. */
    method Clear()
      requires Valid()
      modifies this
      ensures Valid() && Contents() == []
    {
      while inputReports != null
        invariant Valid()
        decreases |nodes|
      {
        var _ := ReturnData(null, 0);
      }
    }
  }

  // ---- Runs of the queue ----

  datatype Op<T> = Arrive(item: T) | Take(at: int)

  /** What a run leaves behind: the items still queued, every item that left the front of
      the queue with whether it was delivered, and what each take returned when. */
  datatype Log<T> = Log(queued: seq<T>, left: seq<(T, bool)>, takes: seq<(Option<T>, int)>)

  function Perform<T>(queue: seq<T>, ops: seq<Op<T>>): Log<T>
    decreases |ops|
  {
    if ops == [] then Log(queue, [], [])
    else
      match ops[0]
      case Arrive(item) =>
        var later := Perform(Append(queue, item), ops[1..]);
        if |queue| < CAPACITY then later else later.(left := [((queue + [item])[0], false)] + later.left)
      case Take(at) =>
        if queue == [] then
          var later := Perform(queue, ops[1..]);
          later.(takes := [(None, at)] + later.takes)
        else
          var later := Perform(queue[1..], ops[1..]);
          later.(left := [(queue[0], true)] + later.left, takes := [(Some(queue[0]), at)] + later.takes)
  }

  function Arrivals<T>(ops: seq<Op<T>>): seq<T> {
    if ops == [] then [] else (if ops[0].Arrive? then [ops[0].item] else []) + Arrivals(ops[1..])
  }

  function Items<T>(left: seq<(T, bool)>): (s: seq<T>)
    ensures |s| == |left|
  {
    if left == [] then [] else [left[0].0] + Items(left[1..])
  }

  /** The items with the given mark, in order. */
  function Marked<T>(left: seq<(T, bool)>, delivered: bool): seq<T> {
    if left == [] then [] else (if left[0].1 == delivered then [left[0].0] else []) + Marked(left[1..], delivered)
  }

  function Taken<T>(takes: seq<(Option<T>, int)>): seq<T> {
    if takes == [] then [] else (if takes[0].0.Some? then [takes[0].0.value] else []) + Taken(takes[1..])
  }

  /** In every run at most 32 items are queued, and the items that have left, in order,
      then the queued ones are exactly the arrivals. */
  lemma {:induction false} RunKeepsOrder<T>(queue: seq<T>, ops: seq<Op<T>>)
    requires |queue| <= CAPACITY
    ensures var log := Perform(queue, ops);
            |log.queued| <= 32 && queue + Arrivals(ops) == Items(log.left) + log.queued
    decreases |ops|
  {
    if ops != [] {
      hide Perform, Append;
      var next, gone := AfterFirst(queue, ops[0]), Gone(queue, ops[0]);
      PerformFirst(queue, ops);
      AppendBound(queue, ops[0]);
      RunKeepsOrder(next, ops[1..]);
      FirstKeepsOrder(queue, ops[0], Arrivals(ops[1..]));
      var later := Perform(next, ops[1..]);
      assert Items(gone + later.left) == Items(gone) + Items(later.left) by {
        if gone != [] {
          assert (gone + later.left)[1..] == later.left;
        } else {
          assert gone + later.left == later.left;
        }
      }
    }
  }

  lemma AppendBound<T>(queue: seq<T>, op: Op<T>)
    requires |queue| <= CAPACITY
    ensures |AfterFirst(queue, op)| <= CAPACITY
  {
  }

  lemma PerformFirst<T>(queue: seq<T>, ops: seq<Op<T>>)
    requires ops != []
    ensures var log, later := Perform(queue, ops), Perform(AfterFirst(queue, ops[0]), ops[1..]);
            log.queued == later.queued && log.left == Gone(queue, ops[0]) + later.left
  {
  }

  function AfterFirst<T>(queue: seq<T>, op: Op<T>): seq<T> {
    match op
    case Arrive(item) => Append(queue, item)
    case Take(_) => if queue == [] then [] else queue[1..]
  }

  /** What one operation removes from the queue. */
  function Gone<T>(queue: seq<T>, op: Op<T>): seq<(T, bool)> {
    match op
    case Arrive(item) => if |queue| < CAPACITY then [] else [((queue + [item])[0], false)]
    case Take(_) => if queue == [] then [] else [(queue[0], true)]
  }

  lemma FirstKeepsOrder<T>(queue: seq<T>, op: Op<T>, rest: seq<T>)
    ensures queue + ((if op.Arrive? then [op.item] else []) + rest)
              == Items(Gone(queue, op)) + (AfterFirst(queue, op) + rest)
  {
    if op.Arrive? {
      assert queue + ([op.item] + rest) == queue + [op.item] + rest;
    } else if queue != [] {
      assert queue == [queue[0]] + queue[1..];
    }
  }

  /** One more operation at the end. */
  lemma {:induction false} PerformLast<T>(queue: seq<T>, ops: seq<Op<T>>, last: Op<T>)
    ensures var before, log := Perform(queue, ops), Perform(queue, ops + [last]);
            && log.queued == AfterFirst(before.queued, last)
            && log.left == before.left + Gone(before.queued, last)
            && Arrivals(ops + [last]) == Arrivals(ops) + if last.Arrive? then [last.item] else []
    decreases |ops|
  {
    hide Perform, Append;
    if ops == [] {
      assert ops + [last] == [last] && [last][1..] == [];
      PerformFirst(queue, [last]);
      PerformNone(queue);
      PerformNone(AfterFirst(queue, last));
    } else {
      assert (ops + [last])[1..] == ops[1..] + [last] && (ops + [last])[0] == ops[0];
      PerformFirst(queue, ops);
      PerformFirst(queue, ops + [last]);
      PerformLast(AfterFirst(queue, ops[0]), ops[1..], last);
    }
  }

  lemma PerformNone<T>(queue: seq<T>)
    ensures Perform(queue, []) == Log(queue, [], [])
  {
  }

  /** What the takes returned are, in order, the items that left by delivery. */
  lemma {:induction false} TakesAreDeliveries<T>(queue: seq<T>, ops: seq<Op<T>>)
    ensures var log := Perform(queue, ops); Taken(log.takes) == Marked(log.left, true)
    decreases |ops|
  {
    if ops != [] {
      var next := AfterFirst(queue, ops[0]);
      TakesAreDeliveries(next, ops[1..]);
      var log, later := Perform(queue, ops), Perform(next, ops[1..]);
      assert Gone(queue, ops[0]) != [] ==> log.left[1..] == later.left;
      assert ops[0].Take? ==> log.takes[1..] == later.takes;
    }
  }

  /** The queue without a bound, after the first n operations. */
  function Backlog<T>(queue: seq<T>, ops: seq<Op<T>>, n: nat): seq<T>
    requires n <= |ops|
  {
    if n == 0 then queue
    else
      var before := Backlog(queue, ops, n - 1);
      match ops[n - 1]
      case Arrive(item) => before + [item]
      case Take(_) => if before == [] then [] else before[1..]
  }

  lemma {:induction false} BacklogShift<T>(queue: seq<T>, ops: seq<Op<T>>, n: nat)
    requires n < |ops|
    ensures Backlog(queue, ops, n + 1) == Backlog(Backlog(queue, ops, 1), ops[1..], n)
  {
    if n > 0 {
      BacklogShift(queue, ops, n - 1);
    }
  }

  ghost predicate StaysSmall<T>(queue: seq<T>, ops: seq<Op<T>>) {
    forall n :: 0 <= n <= |ops| ==> |Backlog(queue, ops, n)| <= CAPACITY
  }

  lemma {:induction false} StaysSmallFirst<T>(queue: seq<T>, ops: seq<Op<T>>)
    requires ops != [] && |queue| <= CAPACITY
    ensures StaysSmall(queue, ops) <==> StaysSmall(Backlog(queue, ops, 1), ops[1..])
  {
    var next := Backlog(queue, ops, 1);
    if StaysSmall(queue, ops) {
      forall n | 0 <= n <= |ops[1..]| ensures |Backlog(next, ops[1..], n)| <= CAPACITY {
        BacklogShift(queue, ops, n);
      }
    }
    if StaysSmall(next, ops[1..]) {
      forall n | 0 <= n <= |ops| ensures |Backlog(queue, ops, n)| <= CAPACITY {
        if n > 0 {
          BacklogShift(queue, ops, n - 1);
        }
      }
    }
  }

  lemma {:induction false} MarkedJoin<T>(a: seq<(T, bool)>, b: seq<(T, bool)>, mark: bool)
    ensures Marked(a + b, mark) == Marked(a, mark) + Marked(b, mark)
  {
    if a == [] {
      assert a + b == b;
    } else {
      assert (a + b)[1..] == a[1..] + b && (a + b)[0] == a[0];
      MarkedJoin(a[1..], b, mark);
      var first := if a[0].1 == mark then [a[0].0] else [];
      assert first + (Marked(a[1..], mark) + Marked(b, mark)) == first + Marked(a[1..], mark) + Marked(b, mark);
    }
  }

  lemma {:induction false} UndroppedItems<T>(left: seq<(T, bool)>)
    requires Marked(left, false) == []
    ensures Marked(left, true) == Items(left)
  {
    if left != [] {
      UndroppedItems(left[1..]);
    }
  }

  /** One operation drops exactly when the queue without a bound would grow past 32. */
  lemma DropsWhenGrown<T>(queue: seq<T>, op: Op<T>)
    requires |queue| <= CAPACITY
    ensures Marked(Gone(queue, op), false) == if op.Arrive? && |queue| == CAPACITY then [queue[0]] else []
  {
    assert Gone(queue, op) != [] ==> Gone(queue, op)[1..] == [];
  }

  lemma BacklogOne<T>(queue: seq<T>, ops: seq<Op<T>>)
    requires ops != []
    ensures Backlog(queue, ops, 0) == queue
    ensures Backlog(queue, ops, 1) == if ops[0].Arrive? then queue + [ops[0].item] else AfterFirst(queue, ops[0])
  {
    assert Backlog(queue, ops, 0) == queue;
  }

  lemma {:induction false} DropIffGrown<T>(queue: seq<T>, ops: seq<Op<T>>)
    requires |queue| <= CAPACITY
    ensures var log := Perform(queue, ops);
            && (Marked(log.left, false) == [] <==> StaysSmall(queue, ops))
            && (StaysSmall(queue, ops) ==> log.queued == Backlog(queue, ops, |ops|))
    decreases |ops|
  {
    if ops == [] {
      assert forall n :: 0 <= n <= |ops| ==> Backlog(queue, ops, n) == queue;
    } else {
      StaysSmallFirst(queue, ops);
      BacklogShift(queue, ops, |ops| - 1);
      BacklogOne(queue, ops);
      DropsWhenGrown(queue, ops[0]);
      PerformFirst(queue, ops);
      MarkedJoin(Gone(queue, ops[0]), Perform(AfterFirst(queue, ops[0]), ops[1..]).left, false);
      if ops[0].Arrive? && |queue| == CAPACITY {
        assert |Backlog(queue, ops, 1)| > CAPACITY;
      } else {
        hide Perform, Marked, Gone, Backlog, StaysSmall;
        DropIffGrown(AfterFirst(queue, ops[0]), ops[1..]);
      }
    }
  }

  /** Nothing is dropped exactly when a queue without a bound would never hold more than
      32 items; the run is then that of the unbounded queue. */
  lemma NoDropIffSmall<T>(queue: seq<T>, ops: seq<Op<T>>)
    requires |queue| <= CAPACITY
    ensures var log := Perform(queue, ops);
            && (Marked(log.left, false) == [] <==> StaysSmall(queue, ops))
            && (StaysSmall(queue, ops) ==>
                  log.queued == Backlog(queue, ops, |ops|) && Taken(log.takes) == Items(log.left))
  {
    hide Perform, StaysSmall;
    DropIffGrown(queue, ops);
    TakesAreDeliveries(queue, ops);
    if StaysSmall(queue, ops) {
      UndroppedItems(Perform(queue, ops).left);
    }
  }

  /** A drop happens only on an arrival that finds 32 items queued, and then exactly one. */
  lemma DropOnlyWhenFull<T>(queue: seq<T>, op: Op<T>)
    requires |queue| <= CAPACITY
    ensures Marked(Perform(queue, [op]).left, false) ==
            if op.Arrive? && |queue| == 32 then [queue[0]] else []
  {
    PerformFirst(queue, [op]);
    PerformNone(AfterFirst(queue, op));
    assert [op][1..] == [] && Gone(queue, op) + [] == Gone(queue, op);
    DropsWhenGrown(queue, op);
  }
}
