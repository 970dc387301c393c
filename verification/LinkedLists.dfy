/** The linked queue and stack of src_C/listinterface.cpp. A deleted item stays addressable here, because the queue
    keeps, and writes through, a tail pointer to an item it has deleted. */
module LinkedLists {

  datatype Op = Store(i: int) | Retrieve

  /** What a call answers: retrieve on an empty list answers 0; store answers nothing. */
  function QueueAnswers(c: seq<int>, ops: seq<Op>): seq<int>
    decreases |ops|
  {
    if ops == [] then []
    else match ops[0]
      case Store(i) => QueueAnswers(c + [i], ops[1..])
      case Retrieve => if c == [] then [0] + QueueAnswers(c, ops[1..]) else [c[0]] + QueueAnswers(c[1..], ops[1..])
  }

  function StackAnswers(c: seq<int>, ops: seq<Op>): seq<int>
    decreases |ops|
  {
    if ops == [] then []
    else match ops[0]
      case Store(i) => StackAnswers([i] + c, ops[1..])
      case Retrieve => if c == [] then [0] + StackAnswers(c, ops[1..]) else [c[0]] + StackAnswers(c[1..], ops[1..])
  }

  class Item {
    var num: int
    var next: Item?

    constructor (num: int)
      ensures this.num == num && next == null
    {
      this.num := num;
      next := null;
    }
  }

  /** The items from `head` on, each once, and the numbers they hold. */
  ghost predicate Chain(head: Item?, items: seq<Item>, contents: seq<int>)
    reads items
  {
    && |contents| == |items|
    && (forall i :: 0 <= i < |items| ==> items[i].num == contents[i])
    && (forall i :: 0 <= i < |items| - 1 ==> items[i].next == items[i + 1])
    && (forall i, j :: 0 <= i < j < |items| ==> items[i] != items[j])
    && (if items == [] then head == null else head == items[0] && items[|items| - 1].next == null)
  }

  lemma ChainTail(head: Item, items: seq<Item>, contents: seq<int>)
    requires Chain(head, items, contents)
    ensures items != [] && items[0] == head && head.num == contents[0] && head !in items[1..]
    ensures Chain(head.next, items[1..], contents[1..])
  {
    var rest := items[1..];
    assert forall i :: 0 <= i < |rest| ==> rest[i] == items[i + 1];
    assert forall i :: 0 <= i < |rest| ==> contents[1..][i] == contents[i + 1];
  }

  /** The items of a list, and those it has deleted. */
  ghost function Members(items: seq<Item>, deleted: set<Item>): set<Item> {
    (set x | x in items) + deleted
  }

  lemma MembersAfterDelete(items: seq<Item>, deleted: set<Item>)
    requires items != []
    ensures Members(items[1..], deleted + {items[0]}) == Members(items, deleted)
  {
    assert items == [items[0]] + items[1..];
  }

  class Queue {
    var head: Item?
    var tail: Item?
    ghost var items: seq<Item>
    ghost var deleted: set<Item>
    ghost var contents: seq<int>

    ghost function Footprint(): set<Item>
      reads this
    {
      Members(items, deleted)
    }

    /** The tail is dangling exactly when the queue is empty but was not always so. */
    ghost predicate Valid()
      reads this, items, deleted
    {
      && Chain(head, items, contents)
      && (forall i :: 0 <= i < |items| ==> items[i] !in deleted)
      && (items == [] ==> (if tail == null then deleted == {} else tail in deleted))
      && (items != [] ==> tail == items[|items| - 1])
    }

    constructor ()
      ensures Valid() && contents == [] && deleted == {} && items == []
    {
      head, tail := null, null;
      items, deleted, contents := [], {}, [];
    }

    /** `dangling` tells whether the call wrote to a deleted item: it does exactly when the queue was emptied
        since its last store. */
    method Store(i: int) returns (ghost dangling: bool)
      requires Valid()
      modifies this, items, deleted
      ensures Valid() && contents == old(contents) + [i] && deleted == old(deleted)
      ensures fresh(Footprint() - old(Footprint()))
      ensures dangling <==> old(contents) == [] && deleted != {}
    {
      var item := new Item(i);
      dangling := tail != null && tail in deleted;
      if tail != null {
        tail.next := item;
      }
      tail := item;
      item.next := null;
      if head == null {
        head := tail;
      }
      items, contents := items + [item], contents + [i];
    }

    method Retrieve() returns (i: int)
      requires Valid()
      modifies this
      ensures Valid() && Footprint() == old(Footprint())
      ensures if old(contents) == [] then i == 0 && contents == [] && deleted == old(deleted)
              else i == old(contents)[0] && contents == old(contents)[1..] && deleted != {}
    {
      if head == null {
        return 0;
      }
      i := head.num;
      var p := head;
      ChainTail(p, items, contents);
      MembersAfterDelete(items, deleted);
      head := head.next;
      deleted := deleted + {p};
      items, contents := items[1..], contents[1..];
    }
  }

  class Stack {
    var head: Item?
    var tail: Item?
    ghost var items: seq<Item>
    ghost var deleted: set<Item>
    ghost var contents: seq<int>

    ghost function Footprint(): set<Item>
      reads this
    {
      Members(items, deleted)
    }

    ghost predicate Valid()
      reads this, items, deleted
    {
      && Chain(head, items, contents)
      && (forall i :: 0 <= i < |items| ==> items[i] !in deleted)
      && (tail == null <==> items == [] && deleted == {})
    }

    constructor ()
      ensures Valid() && contents == [] && deleted == {} && items == []
    {
      head, tail := null, null;
      items, deleted, contents := [], {}, [];
    }

    /** No store of a stack writes to an item that is already there, deleted or not. */
    method Store(i: int)
      requires Valid()
      modifies this
      ensures Valid() && contents == [i] + old(contents)
      ensures fresh(Footprint() - old(Footprint()))
      ensures old(tail) != null ==> tail == old(tail)
    {
      var item := new Item(i);
      if head != null {
        item.next := head;
      }
      head := item;
      if tail == null {
        tail := head;
      }
      items, contents := [item] + items, [i] + contents;
    }

    method Retrieve() returns (i: int)
      requires Valid()
      modifies this
      ensures Valid() && Footprint() == old(Footprint()) && tail == old(tail)
      ensures if old(contents) == [] then i == 0 && contents == []
              else i == old(contents)[0] && contents == old(contents)[1..]
    {
      if head == null {
        return 0;
      }
      i := head.num;
      var p := head;
      ChainTail(p, items, contents);
      MembersAfterDelete(items, deleted);
      head := head.next;
      deleted := deleted + {p};
      items, contents := items[1..], contents[1..];
    }
  }

  /** For each store of a sequence of calls on a queue of n numbers, whether it finds the queue emptied: empty, with an
      earlier retrieve that found something. */
  function Dangles(n: nat, retrieved: bool, ops: seq<Op>): seq<bool>
    decreases |ops|
  {
    if ops == [] then []
    else if ops[0].Store? then [n == 0 && retrieved] + Dangles(n + 1, retrieved, ops[1..])
    else if n == 0 then Dangles(0, retrieved, ops[1..])
    else Dangles(n - 1, true, ops[1..])
  }

  /** The write to a deleted item happens: a queue that is emptied and filled again. */
  method RefillEmptiedQueue() returns (ghost dangling: bool, answer: int)
    ensures dangling && answer == 2
  {
    var q := new Queue();
    ghost var d1 := q.Store(1);
    var i := q.Retrieve();
    dangling := q.Store(2);
    answer := q.Retrieve();
  }

  /** One call on a queue, and what it means for the calls `rest` that follow. */
  method CallQueue(q: Queue, op: Op, ghost rest: seq<Op>) returns (answer: seq<int>, ghost dangled: seq<bool>)
    requires q.Valid()
    modifies q, q.items, q.deleted
    ensures q.Valid() && fresh(q.Footprint() - old(q.Footprint()))
    ensures answer + QueueAnswers(q.contents, rest) == QueueAnswers(old(q.contents), [op] + rest)
    ensures dangled + Dangles(|q.contents|, q.deleted != {}, rest) ==
      Dangles(|old(q.contents)|, old(q.deleted) != {}, [op] + rest)
  {
    assert ([op] + rest)[1..] == rest;
    answer, dangled := [], [];
    match op {
      case Store(i) =>
        ghost var d := q.Store(i);
        dangled := [d];
      case Retrieve =>
        var i := q.Retrieve();
        answer := [i];
    }
  }

  /** Any sequence of calls on a new queue gets the answers of a first-in first-out sequence, also when the queue
      is emptied and filled again; and exactly the stores that find it emptied write to a deleted item. */
  method RunQueue(ops: seq<Op>) returns (answers: seq<int>, ghost dangled: seq<bool>)
    ensures answers == QueueAnswers([], ops)
    ensures dangled == Dangles(0, false, ops)
  {
    var q := new Queue();
    answers, dangled := [], [];
    var k := 0;
    while k < |ops|
      invariant 0 <= k <= |ops|
      invariant fresh(q) && q.Valid() && fresh(q.Footprint())
      invariant answers + QueueAnswers(q.contents, ops[k..]) == QueueAnswers([], ops)
      invariant dangled + Dangles(|q.contents|, q.deleted != {}, ops[k..]) == Dangles(0, false, ops)
    {
      ghost var rest := ops[k + 1..];
      assert ops[k..] == [ops[k]] + rest;
      var answer;
      ghost var d;
      answer, d := CallQueue(q, ops[k], rest);
      Regroup(answers, answer, QueueAnswers(q.contents, rest));
      Regroup(dangled, d, Dangles(|q.contents|, q.deleted != {}, rest));
      answers, dangled := answers + answer, dangled + d;
      k := k + 1;
    }
  }

  lemma Regroup<T>(a: seq<T>, b: seq<T>, c: seq<T>)
    ensures a + (b + c) == (a + b) + c
  {
  }

  /** One call on a stack, and what it means for the calls `rest` that follow. */
  method CallStack(s: Stack, op: Op, ghost rest: seq<Op>) returns (answer: seq<int>)
    requires s.Valid()
    modifies s
    ensures s.Valid() && fresh(s.Footprint() - old(s.Footprint()))
    ensures answer + StackAnswers(s.contents, rest) == StackAnswers(old(s.contents), [op] + rest)
  {
    assert ([op] + rest)[1..] == rest;
    answer := [];
    match op {
      case Store(i) =>
        s.Store(i);
      case Retrieve =>
        var i := s.Retrieve();
        answer := [i];
    }
  }

  /** Any sequence of calls on a new stack gets the answers of a last-in first-out sequence. */
  method RunStack(ops: seq<Op>) returns (answers: seq<int>)
    ensures answers == StackAnswers([], ops)
  {
    var s := new Stack();
    answers := [];
    var k := 0;
    while k < |ops|
      invariant 0 <= k <= |ops|
      invariant fresh(s) && s.Valid() && fresh(s.Footprint())
      invariant answers + StackAnswers(s.contents, ops[k..]) == StackAnswers([], ops)
    {
      ghost var rest := ops[k + 1..];
      assert ops[k..] == [ops[k]] + rest;
      var answer := CallStack(s, ops[k], rest);
      Regroup(answers, answer, StackAnswers(s.contents, rest));
      answers := answers + answer;
      k := k + 1;
    }
  }

  function Stored(ops: seq<Op>): seq<int> {
    if ops == [] then []
    else if ops[0].Store? then [ops[0].i] + Stored(ops[1..])
    else Stored(ops[1..])
  }

  function Retrieves(ops: seq<Op>): nat {
    if ops == [] then 0 else Retrieves(ops[1..]) + if ops[0].Retrieve? then 1 else 0
  }

  /** No call in `ops` retrieves from an empty list that started with n numbers. */
  predicate NeverDry(n: nat, ops: seq<Op>)
    decreases |ops|
  {
    ops == [] || (if ops[0].Store? then NeverDry(n + 1, ops[1..]) else n > 0 && NeverDry(n - 1, ops[1..]))
  }

  /** First in, first out: the answers are the numbers stored, in the order they were stored. */
  lemma {:induction false} QueueIsFifo(c: seq<int>, ops: seq<Op>)
    requires NeverDry(|c|, ops)
    ensures |QueueAnswers(c, ops)| == Retrieves(ops) <= |c| + |Stored(ops)|
    ensures QueueAnswers(c, ops) == (c + Stored(ops))[..Retrieves(ops)]
    decreases |ops|
  {
    if ops != [] {
      match ops[0]
      case Store(i) =>
        QueueIsFifo(c + [i], ops[1..]);
        assert c + [i] + Stored(ops[1..]) == c + Stored(ops);
      case Retrieve =>
        QueueIsFifo(c[1..], ops[1..]);
        assert c + Stored(ops) == [c[0]] + (c[1..] + Stored(ops[1..]));
    }
  }

  function StackAfter(c: seq<int>, ops: seq<Op>): seq<int>
    decreases |ops|
  {
    if ops == [] then c
    else match ops[0]
      case Store(i) => StackAfter([i] + c, ops[1..])
      case Retrieve => StackAfter(if c == [] then c else c[1..], ops[1..])
  }

  /** Calls that stay above a list never look at it. */
  lemma {:induction false} StackLeavesBottomAlone(c: seq<int>, bottom: seq<int>, ops: seq<Op>)
    requires NeverDry(|c|, ops)
    ensures StackAnswers(c + bottom, ops) == StackAnswers(c, ops)
    ensures StackAfter(c + bottom, ops) == StackAfter(c, ops) + bottom
    ensures |StackAfter(c, ops)| == |c| + |Stored(ops)| - Retrieves(ops)
    decreases |ops|
  {
    if ops != [] {
      match ops[0]
      case Store(i) =>
        assert [i] + (c + bottom) == ([i] + c) + bottom;
        StackLeavesBottomAlone([i] + c, bottom, ops[1..]);
      case Retrieve =>
        assert (c + bottom)[1..] == c[1..] + bottom;
        StackLeavesBottomAlone(c[1..], bottom, ops[1..]);
    }
  }

  lemma {:induction false} StackAnswersInParts(c: seq<int>, xs: seq<Op>, ys: seq<Op>)
    ensures StackAnswers(c, xs + ys) == StackAnswers(c, xs) + StackAnswers(StackAfter(c, xs), ys)
    decreases |xs|
  {
    if xs == [] {
      assert xs + ys == ys;
    } else {
      assert (xs + ys)[1..] == xs[1..] + ys;
      match xs[0]
      case Store(i) => StackAnswersInParts([i] + c, xs[1..], ys);
      case Retrieve => StackAnswersInParts(if c == [] then c else c[1..], xs[1..], ys);
    }
  }

  /** Last in, first out: a retrieve that follows a store with balanced calls between them answers what that
      store stored, whatever lay below. */
  lemma StackIsLifo(c: seq<int>, x: int, between: seq<Op>)
    requires NeverDry(0, between) && |Stored(between)| == Retrieves(between)
    ensures StackAnswers(c, [Store(x)] + between + [Retrieve]) == StackAnswers([], between) + [x]
  {
    var first, last := [Store(x)], [Retrieve];
    assert first[1..] == [] && last[1..] == [];
    StackAnswersInParts(c, first + between, last);
    StackAnswersInParts(c, first, between);
    assert StackAfter(c, first) == [x] + c by { assert StackAfter([x] + c, []) == [x] + c; }
    assert StackAfter(c, first + between) == StackAfter([x] + c, between) by {
      assert (first + between)[1..] == between;
    }
    assert [] + ([x] + c) == [x] + c;
    StackLeavesBottomAlone([], [x] + c, between);
    assert StackAfter([], between) == [];
    assert StackAnswers([x] + c, last) == [x] + StackAnswers(c, []);
  }

  function QueueAfter(c: seq<int>, ops: seq<Op>): seq<int>
    decreases |ops|
  {
    if ops == [] then c
    else match ops[0]
      case Store(i) => QueueAfter(c + [i], ops[1..])
      case Retrieve => QueueAfter(if c == [] then c else c[1..], ops[1..])
  }

  /** The answer to one more call: a store has none, and a retrieve answers 0 from an empty list and the first number
      of any other. */
  function LastAnswer(c: seq<int>, op: Op): seq<int> {
    if op.Store? then [] else [if c == [] then 0 else c[0]]
  }

  lemma {:induction false} QueueAnswersLast(c: seq<int>, ops: seq<Op>, op: Op)
    ensures QueueAnswers(c, ops + [op]) == QueueAnswers(c, ops) + LastAnswer(QueueAfter(c, ops), op)
    decreases |ops|
  {
    if ops == [] {
      assert [] + [op] == [op] && [op][1..] == [];
    } else {
      assert (ops + [op])[1..] == ops[1..] + [op];
      match ops[0]
      case Store(i) => QueueAnswersLast(c + [i], ops[1..], op);
      case Retrieve => QueueAnswersLast(if c == [] then c else c[1..], ops[1..], op);
    }
  }

  lemma {:induction false} StackAnswersLast(c: seq<int>, ops: seq<Op>, op: Op)
    ensures StackAnswers(c, ops + [op]) == StackAnswers(c, ops) + LastAnswer(StackAfter(c, ops), op)
    decreases |ops|
  {
    if ops == [] {
      assert [] + [op] == [op] && [op][1..] == [];
    } else {
      assert (ops + [op])[1..] == ops[1..] + [op];
      match ops[0]
      case Store(i) => StackAnswersLast([i] + c, ops[1..], op);
      case Retrieve => StackAnswersLast(if c == [] then c else c[1..], ops[1..], op);
    }
  }
}
