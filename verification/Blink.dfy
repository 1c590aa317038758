/** The blink list: a singly linked list threaded through a static pool of structures. */
module Blinks {
  import opened Bytes
  import opened BlinkTimers

  const POOL := 2000
  const NULL := -1

  /** A blink structure without its link. */
  datatype Blinker = Blinker(location: Word16, onChar: Byte, offChar: Byte, timer: Timer)

  datatype Node = Node(b: Blinker, next: int)

  const FREE_NODE := Node(Blinker(0, 0, 0, Timer(0, 0, 0, 0)), NULL)

  // ----- the list in the pool -----

  function At(order: seq<nat>, i: nat): int {
    if i < |order| then order[i] else NULL
  }

  ghost predicate Distinct(order: seq<nat>) {
    forall i, j :: 0 <= i < j < |order| ==> order[i] != order[j]
  }

  /** From head, the links visit exactly the pool slots in use, once each, in the given order, and end. */
  ghost predicate Linked(pool: seq<Node>, head: int, order: seq<nat>) {
    && |pool| == POOL
    && (forall i :: 0 <= i < |order| ==> order[i] < POOL)
    && Distinct(order)
    && head == At(order, 0)
    && (forall i {:trigger pool[order[i]]} :: 0 <= i < |order| ==> pool[order[i]].next == At(order, i + 1))
    && (forall p {:trigger InList(order, p)} :: 0 <= p < POOL ==> (InList(order, p) <==> pool[p].b.location != 0))
  }

  ghost predicate InList(order: seq<nat>, p: nat) {
    p in order
  }

  ghost function Entries(pool: seq<Node>, order: seq<nat>): (r: seq<Blinker>)
    requires |pool| == POOL && forall i :: 0 <= i < |order| ==> order[i] < POOL
    ensures |r| == |order| && forall i :: 0 <= i < |order| ==> r[i] == pool[order[i]].b
  {
    seq(|order|, i requires 0 <= i < |order| => pool[order[i]].b)
  }

  function FreeSlots(pool: seq<Node>): nat {
    if pool == [] then 0
    else FreeSlots(pool[..|pool| - 1]) + if pool[|pool| - 1].b.location == 0 then 1 else 0
  }

  ghost function UsedSlots(pool: seq<Node>): set<nat> {
    set p: nat | p < |pool| && pool[p].b.location != 0
  }

  lemma {:induction false} UsedAndFree(pool: seq<Node>)
    ensures |UsedSlots(pool)| + FreeSlots(pool) == |pool|
  {
    if pool != [] {
      var n := |pool| - 1;
      UsedAndFree(pool[..n]);
      if pool[n].b.location == 0 {
        assert UsedSlots(pool) == UsedSlots(pool[..n]);
      } else {
        assert UsedSlots(pool) == UsedSlots(pool[..n]) + {n};
      }
    }
  }

  ghost function Slots(order: seq<nat>): set<nat> {
    set p | p in order
  }

  lemma {:induction false} DistinctSize(order: seq<nat>)
    requires Distinct(order)
    ensures |Slots(order)| == |order|
  {
    if order != [] {
      var n := |order| - 1;
      DistinctSize(order[..n]);
      assert order == order[..n] + [order[n]] && order[n] !in order[..n];
      assert Slots(order) == Slots(order[..n]) + {order[n]};
    }
  }

  /** List length and free slots add up to the pool. */
  lemma ListAndFree(pool: seq<Node>, head: int, order: seq<nat>)
    requires Linked(pool, head, order)
    ensures |order| + FreeSlots(pool) == POOL
  {
    UsedAndFree(pool);
    DistinctSize(order);
    assert forall p :: p in Slots(order) <==> InList(order, p);
    assert forall p :: p in UsedSlots(pool) ==> InList(order, p);
    assert Slots(order) == UsedSlots(pool);
  }

  /** The pool after an add put b in free slot p at the front. */
  function AddedPool(pool: seq<Node>, head: int, p: nat, b: Blinker): seq<Node>
    requires p < |pool|
  {
    pool[p := Node(b, head)]
  }

  lemma AddLinks(pool: seq<Node>, head: int, order: seq<nat>, p: nat, b: Blinker)
    requires Linked(pool, head, order) && p < POOL && pool[p].b.location == 0 && b.location != 0
    ensures Linked(AddedPool(pool, head, p, b), p, [p] + order)
    ensures Entries(AddedPool(pool, head, p, b), [p] + order) == [b] + Entries(pool, order)
  {
    var pool', o := AddedPool(pool, head, p, b), [p] + order;
    assert !InList(order, p);
    forall i | 0 <= i < |order|
      ensures order[i] != p
    {
      assert InList(order, order[i]);
    }
    forall q | 0 <= q < POOL
      ensures InList(o, q) <==> pool'[q].b.location != 0
    {
      assert InList(o, q) <==> q == p || InList(order, q);
    }
    AddedEntries(pool, order, p, Node(b, head));
  }

  lemma AddedEntries(pool: seq<Node>, order: seq<nat>, p: nat, n: Node)
    requires |pool| == POOL && p < POOL && forall i :: 0 <= i < |order| ==> order[i] < POOL && order[i] != p
    ensures Entries(pool[p := n], [p] + order) == [n.b] + Entries(pool, order)
  {
    forall i | 0 <= i < |order| + 1
      ensures Entries(pool[p := n], [p] + order)[i] == ([n.b] + Entries(pool, order))[i]
    {
      assert i > 0 ==> ([p] + order)[i] == order[i - 1];
    }
  }

  /** An add keeps the list exactly when the location is not 0, which marks a slot as free (fish.c:164). */
  lemma AddKeepsList(pool: seq<Node>, head: int, order: seq<nat>, p: nat, b: Blinker)
    requires Linked(pool, head, order) && p < POOL && pool[p].b.location == 0
    ensures (exists o :: Linked(AddedPool(pool, head, p, b), p, o)) <==> b.location != 0
  {
    var pool' := AddedPool(pool, head, p, b);
    if b.location != 0 {
      AddLinks(pool, head, order, p, b);
    } else {
      forall o
        ensures !Linked(pool', p, o)
      {
        assert At(o, 0) == p ==> InList(o, p);
      }
    }
  }

  /** Where a walk from slot p stands after k links; NULL once it has ended. */
  function WalkFrom(pool: seq<Node>, p: int, k: nat): int {
    if k == 0 then p
    else
      var q := WalkFrom(pool, p, k - 1);
      if 0 <= q < |pool| then pool[q].next else NULL
  }

  /** Two adds at location 0 take the same slot and make it its own successor: a walk from the head, such as
      the tasklet's or a search for any other location, stays there forever. */
  lemma {:induction false} LocationZeroTwice(pool: seq<Node>, head: int, order: seq<nat>, p: nat, b: Blinker, k: nat)
    requires Linked(pool, head, order) && b.location == 0
    requires p < POOL && FirstFree(pool, p)
    ensures var once := AddedPool(pool, head, p, b);
            var twice := AddedPool(once, p, p, b);
            && FirstFree(once, p) && twice[p].b.location == 0 && twice[p].next == p
            && WalkFrom(twice, p, k) == p
  {
    if k > 0 {
      LocationZeroTwice(pool, head, order, p, b, k - 1);
    }
  }

  ghost predicate FirstFree(pool: seq<Node>, p: nat)
    requires |pool| == POOL && p < POOL
  {
    pool[p].b.location == 0 && forall q :: 0 <= q < p ==> pool[q].b.location != 0
  }

  // ----- the list as its users see it -----

  function Char(b: Blinker): Byte {
    if b.timer.On() then b.onChar else b.offChar
  }

  /** Index of the first blinker at a location, or the length: the most recently added one. */
  function FirstAt(list: seq<Blinker>, location: nat): (i: nat)
    ensures i <= |list| && (i < |list| ==> list[i].location == location)
    ensures forall j :: 0 <= j < i ==> list[j].location != location
  {
    if list == [] || list[0].location == location then 0 else 1 + FirstAt(list[1..], location)
  }

  function Toggles(b: Blinker): bool {
    Tick(b.timer).status != b.timer.status
  }

  function TickOne(b: Blinker): Blinker {
    b.(timer := Tick(b.timer))
  }

  function TickAll(list: seq<Blinker>): (r: seq<Blinker>)
    ensures |r| == |list| && forall i :: 0 <= i < |list| ==> r[i] == TickOne(list[i])
  {
    seq(|list|, i requires 0 <= i < |list| => TickOne(list[i]))
  }

  /** Video memory after the first n blinkers have redrawn themselves where they toggled. */
  function Redrawn(vmem: seq<Byte>, list: seq<Blinker>, n: nat): (r: seq<Byte>)
    requires |vmem| == 4096 && n <= |list| && forall i :: 0 <= i < |list| ==> list[i].location < POOL
    ensures |r| == 4096
  {
    if n == 0 then vmem
    else
      var v, b := Redrawn(vmem, list, n - 1), list[n - 1];
      if Toggles(b) then v[2 * b.location := Char(TickOne(b))] else v
  }

  class BlinkList {
    const pool: array<Node>
    const vmem: array<Byte>
    var head: int
    ghost var order: seq<nat>

    ghost predicate Valid()
      reads this, pool, vmem
    {
      && pool.Length == POOL && vmem.Length == 4096
      && Linked(pool[..], head, order)
      && forall p :: 0 <= p < POOL ==> pool[p].b.location < POOL
    }

    ghost function List(): (r: seq<Blinker>)
      requires Valid()
      reads this, pool, vmem
      ensures |r| == |order| && forall i :: 0 <= i < |r| ==> r[i] == pool[order[i]].b && r[i].location < POOL
    {
      Entries(pool[..], order)
    }

    constructor ()
      ensures Valid() && List() == [] && fresh(pool) && fresh(vmem)
    {
      pool := new Node[POOL](_ => FREE_NODE);
      vmem := new Byte[4096];
      head, order := NULL, [];
    }

    /** mp1_malloc: the first free slot. */
    method Malloc() returns (p: int)
      requires Valid()
      ensures p == NULL <==> |List()| == POOL
      ensures p != NULL ==> 0 <= p < POOL && FirstFree(pool[..], p)
    {
      FullPool(pool[..], head, order);
      for i := 0 to POOL
        invariant forall q :: 0 <= q < i ==> pool[q].b.location != 0
      {
        if pool[i].b.location == 0 {
          return i;
        }
      }
      return NULL;
    }

    /** mp1_ioctl_add: a blinker with its on character showing, at the front of the list. */
    method Add(b: Blinker) returns (r: int)
      requires Valid()
      modifies this, pool, vmem
      ensures r == if b.location >= POOL || |old(List())| == POOL then -1 else 0
      ensures r == -1 ==> Valid() && List() == old(List()) && vmem[..] == old(vmem[..])
      ensures r == 0 ==>
                && 0 <= head < POOL && FirstFree(old(pool[..]), head)
                && pool[..] == AddedPool(old(pool[..]), old(head), head,
                                         b.(timer := Started(b.timer.onLength, b.timer.offLength)))
                && vmem[..] == old(vmem[..])[2 * b.location := b.onChar]
      ensures r == 0 && b.location != 0 ==>
                Valid() && List() == [b.(timer := Started(b.timer.onLength, b.timer.offLength))] + old(List())
    {
      if b.location >= POOL {
        return -1;
      }
      var b' := b.(timer := b.timer.(status := 1, countdown := b.timer.onLength));
      var p := Malloc();
      if p == NULL {
        return -1;
      }
      if b.location != 0 {
        AddLinks(pool[..], head, order, p, b');
      }
      pool[p] := Node(b', NULL);
      pool[p] := pool[p].(next := head);
      head := p;
      order := [p] + order;
      vmem[2 * b.location] := b.onChar;
      return 0;
    }

    /** mp1_find_helper: the walk from the head to the first structure at a location. */
    method FindHelper(location: nat) returns (p: int, ghost i: nat)
      requires Valid()
      ensures i == FirstAt(List(), location) && p == At(order, FirstAt(List(), location))
    {
      p, i := head, 0;
      while p != NULL
        invariant i <= |order| && p == At(order, i)
        invariant forall j :: 0 <= j < i ==> List()[j].location != location
        decreases |order| - i
      {
        if pool[p].b.location == location {
          return;
        }
        p, i := pool[p].next, i + 1;
      }
    }

    /** The walk of mp1_ioctl_remove to the link that points to the i-th node. */
    method FindPrev(p: int, ghost i: nat) returns (prev: int)
      requires Valid() && i < |order| && p == order[i]
      ensures prev == if i == 0 then NULL else order[i - 1]
    {
      prev := NULL;
      ghost var k := 0;
      while p != (if prev == NULL then head else pool[prev].next)
        invariant k <= i && prev == if k == 0 then NULL else order[k - 1]
        invariant (if prev == NULL then head else pool[prev].next) == order[k]
        decreases i - k
      {
        prev := if prev == NULL then head else pool[prev].next;
        k := k + 1;
      }
    }

    method Unlink(p: nat, prev: int, ghost i: nat)
      requires Valid() && i < |order| && p == order[i] && prev == if i == 0 then NULL else order[i - 1]
      modifies this, pool
      ensures Valid() && List() == Cut(old(List()), i)
    {
      Unlinks(pool[..], head, order, i, prev);
      if prev == NULL {
        head := pool[p].next;
      } else {
        pool[prev] := pool[prev].(next := pool[p].next);
      }
      pool[p] := FREE_NODE;
      order := Cut(order, i);
      assert pool[..] == UnlinkedPool(old(pool[..]), prev, p);
    }

    /** mp1_ioctl_remove: unlinks the most recently added blinker at a location and frees its slot. */
    method Remove(location: Word16) returns (r: int)
      requires Valid()
      modifies this, pool
      ensures Valid()
      ensures var list, i := old(List()), FirstAt(old(List()), location);
              && r == (if i < |list| then 0 else -1)
              && List() == if i < |list| then Cut(list, i) else list
    {
      var p;
      ghost var i;
      p, i := FindHelper(location);
      if p == NULL {
        return -1;
      }
      var prev := FindPrev(p, i);
      Unlink(p, prev, i);
      return 0;
    }

    /** mp1_ioctl_find: a copy of the first structure at a location. */
    method Find(location: Word16) returns (r: int, node: Node)
      requires Valid()
      ensures var i := FirstAt(List(), location);
              && r == (if i < |List()| then 0 else -1)
              && (r == 0 ==> node.b == List()[i] && node.next == At(order, i + 1))
    {
      var p;
      ghost var i;
      p, i := FindHelper(location);
      if p == NULL {
        return -1, FREE_NODE;
      }
      return 0, pool[p];
    }

    /** mp1_ioctl_sync: the blinker at the low half of arg takes over the timer of the one at the high half.
        The redraw always pokes the off character: the cmovl after testb never moves (blink.S:281-282). */
    method Sync(arg: nat) returns (r: int)
      requires Valid() && arg < 0x1_0000_0000
      modifies pool, vmem
      ensures Valid()
      ensures var list, i, j := old(List()), FirstAt(old(List()), arg / 0x1_0000), FirstAt(old(List()), arg % 0x1_0000);
              if i < |list| && j < |list| then
                && r == 0
                && List() == list[j := list[j].(timer := list[i].timer)]
                && vmem[..] == old(vmem[..])[2 * list[j].location := list[j].offChar]
              else
                r == -1 && List() == list && vmem[..] == old(vmem[..])
    {
      var p, q;
      ghost var i, j;
      p, i := FindHelper(arg / 0x1_0000);
      if p == NULL {
        return -1;
      }
      q, j := FindHelper(arg % 0x1_0000);
      if q == NULL {
        return -1;
      }
      CopyTimer(p, q, i, j);
      return 0;
    }

    /** The second half of mp1_ioctl_sync: the timer is copied and the off character poked. */
    method CopyTimer(p: nat, q: nat, ghost i: nat, ghost j: nat)
      requires Valid() && i < |order| && j < |order| && p == order[i] && q == order[j]
      modifies pool, vmem
      ensures Valid() && List() == old(List())[j := old(List())[j].(timer := old(List())[i].timer)]
      ensures vmem[..] == old(vmem[..])[2 * old(List())[j].location := old(List())[j].offChar]
    {
      Retimes(pool[..], head, order, j, pool[p].b.timer);
      pool[q] := pool[q].(b := pool[q].b.(timer := pool[p].b.timer));
      vmem[2 * pool[q].b.location] := pool[q].b.offChar;
    }

    /** The countdown of one blinker, and its redraw when it switches over. */
    method CountDown(b: Blinker) returns (t: Timer)
      requires vmem.Length == 4096 && b.location < POOL
      modifies vmem
      ensures t == Tick(b.timer)
      ensures vmem[..] == if Toggles(b) then old(vmem[..])[2 * b.location := Char(TickOne(b))] else old(vmem[..])
    {
      t := b.timer.(countdown := if b.timer.countdown == 0 then 0xFFFF else b.timer.countdown - 1);
      if !Positive(t.countdown) {
        if t.status % 2 == 1 {
          vmem[2 * b.location] := b.offChar;
          t := t.(countdown := t.offLength, status := t.status - 1);
        } else {
          vmem[2 * b.location] := b.onChar;
          t := t.(countdown := t.onLength, status := t.status + 1);
        }
      }
    }

    /** One round of the tasklet loop, on the i-th node. */
    method TickNode(p: nat, ghost i: nat)
      requires Valid() && i < |order| && p == order[i]
      modifies pool, vmem
      ensures Valid() && List() == old(List())[i := TickOne(old(List())[i])]
      ensures pool[p].next == old(pool[p].next)
      ensures var b := old(List())[i];
              vmem[..] == if Toggles(b) then old(vmem[..])[2 * b.location := Char(TickOne(b))] else old(vmem[..])
    {
      var b := pool[p].b;
      var t := CountDown(b);
      Retimes(pool[..], head, order, i, t);
      pool[p] := pool[p].(b := b.(timer := t));
      assert pool[..] == RetimedPool(old(pool[..]), p, t);
    }

    /** mp1_rtc_tasklet: every blinker is ticked exactly once. */
    method Tasklet()
      requires Valid()
      modifies pool, vmem
      ensures Valid() && order == old(order)
      ensures List() == TickAll(old(List()))
      ensures vmem[..] == Redrawn(old(vmem[..]), old(List()), |old(List())|)
    {
      ghost var list, v := List(), vmem[..];
      ghost var i := 0;
      var p := head;
      while p != NULL
        invariant Valid() && i <= |order| && p == At(order, i)
        invariant forall k :: 0 <= k < |list| ==> List()[k] == if k < i then TickOne(list[k]) else list[k]
        invariant vmem[..] == Redrawn(v, list, i)
        decreases |order| - i
      {
        TickNode(p, i);
        p, i := pool[p].next, i + 1;
      }
    }
  }

  /** The pool with a new timer in slot p. */
  function RetimedPool(pool: seq<Node>, p: nat, t: Timer): seq<Node>
    requires p < |pool|
  {
    pool[p := pool[p].(b := pool[p].b.(timer := t))]
  }

  lemma Retimes(pool: seq<Node>, head: int, order: seq<nat>, i: nat, t: Timer)
    requires Linked(pool, head, order) && i < |order|
    ensures Linked(RetimedPool(pool, order[i], t), head, order)
    ensures Entries(RetimedPool(pool, order[i], t), order) == Entries(pool, order)[i := pool[order[i]].b.(timer := t)]
  {
    var pool' := RetimedPool(pool, order[i], t);
    assert forall k :: 0 <= k < |order| && k != i ==> order[k] != order[i];
    assert forall k :: 0 <= k < |order| ==> pool'[order[k]].next == pool[order[k]].next;
  }

  function Cut<T>(s: seq<T>, i: nat): (r: seq<T>)
    requires i < |s|
    ensures |r| == |s| - 1 && forall k :: 0 <= k < |r| ==> r[k] == s[if k < i then k else k + 1]
  {
    s[..i] + s[i + 1..]
  }

  /** The pool after slot p has been cut out behind slot prev, or from the head, and freed. */
  function UnlinkedPool(pool: seq<Node>, prev: int, p: nat): (r: seq<Node>)
    requires p < |pool| && NULL <= prev < |pool| && prev != p
    ensures |r| == |pool| && r[p] == FREE_NODE
    ensures prev != NULL ==> r[prev] == Node(pool[prev].b, pool[p].next)
    ensures forall q :: 0 <= q < |pool| && q != p && q != prev ==> r[q] == pool[q]
  {
    (if prev == NULL then pool else pool[prev := Node(pool[prev].b, pool[p].next)])[p := FREE_NODE]
  }

  lemma UnlinkedNode(pool: seq<Node>, order: seq<nat>, i: nat, prev: int, k: nat)
    requires i < |order| && k < |order| && k != i && Distinct(order)
    requires forall j :: 0 <= j < |order| ==> order[j] < |pool|
    requires forall j {:trigger pool[order[j]]} :: 0 <= j < |order| ==> pool[order[j]].next == At(order, j + 1)
    requires prev == if i == 0 then NULL else order[i - 1]
    ensures prev != order[i]
    ensures var r := UnlinkedPool(pool, prev, order[i])[order[k]];
            r.b == pool[order[k]].b && r.next == At(order, if k + 1 == i then k + 2 else k + 1)
  {
    assert order[k] != order[i];
    assert i > 0 ==> order[i - 1] != order[i];
    if k + 1 == i {
      assert pool[order[i]].next == At(order, i + 1);
    } else {
      assert pool[order[k]].next == At(order, k + 1);
      assert i > 0 ==> order[k] != order[i - 1];
    }
  }

  lemma CutNode(pool: seq<Node>, order: seq<nat>, i: nat, prev: int, k: nat)
    requires i < |order| && k < |order| - 1 && Distinct(order)
    requires forall j :: 0 <= j < |order| ==> order[j] < |pool|
    requires forall j {:trigger pool[order[j]]} :: 0 <= j < |order| ==> pool[order[j]].next == At(order, j + 1)
    requires prev == if i == 0 then NULL else order[i - 1]
    ensures prev != order[i]
    ensures var o, pool' := Cut(order, i), UnlinkedPool(pool, prev, order[i]);
            && o[k] == order[if k < i then k else k + 1] && o[k] < |pool|
            && pool'[o[k]].next == At(o, k + 1) && pool'[o[k]].b == pool[o[k]].b
  {
    UnlinkedNode(pool, order, i, prev, if k < i then k else k + 1);
    AtCut(order, i, k);
  }

  lemma AtCut(order: seq<nat>, i: nat, k: nat)
    requires i < |order| && k < |order| - 1
    ensures Cut(order, i)[k] == order[if k < i then k else k + 1]
    ensures At(Cut(order, i), k + 1) == At(order, if k + 1 < i then k + 1 else k + 2)
  {
  }

  lemma CutDistinct(order: seq<nat>, i: nat)
    requires i < |order| && Distinct(order)
    ensures Distinct(Cut(order, i))
  {
  }

  lemma Unlinks(pool: seq<Node>, head: int, order: seq<nat>, i: nat, prev: int)
    requires Linked(pool, head, order) && i < |order| && prev == if i == 0 then NULL else order[i - 1]
    ensures prev != order[i]
    ensures var o, pool' := Cut(order, i), UnlinkedPool(pool, prev, order[i]);
            && Linked(pool', if i == 0 then pool[order[i]].next else head, o)
            && Entries(pool', o) == Cut(Entries(pool, order), i)
  {
    assert i > 0 ==> order[i - 1] != order[i];
    var o, pool' := Cut(order, i), UnlinkedPool(pool, prev, order[i]);
    forall k | 0 <= k < |o|
      ensures o[k] == order[if k < i then k else k + 1] && o[k] < POOL
      ensures pool'[o[k]].next == At(o, k + 1) && pool'[o[k]].b == pool[o[k]].b
    {
      CutNode(pool, order, i, prev, k);
    }
    CutDistinct(order, i);
    forall q | 0 <= q < POOL
      ensures InList(o, q) <==> pool'[q].b.location != 0
    {
      WithoutOne(order, i, q);
      assert InList(order, q) <==> pool[q].b.location != 0;
    }
    CutEntries(pool, pool', order, i, o);
  }

  lemma CutEntries(pool: seq<Node>, pool': seq<Node>, order: seq<nat>, i: nat, o: seq<nat>)
    requires |pool| == |pool'| == POOL && i < |order| && o == Cut(order, i)
    requires (forall j :: 0 <= j < |order| ==> order[j] < POOL) && (forall k :: 0 <= k < |o| ==> o[k] < POOL)
    requires forall k {:trigger pool'[o[k]]} :: 0 <= k < |o| ==> pool'[o[k]].b == pool[o[k]].b
    ensures Entries(pool', o) == Cut(Entries(pool, order), i)
  {
    var a, b := Entries(pool', o), Entries(pool, order);
    forall k | 0 <= k < |o|
      ensures a[k] == Cut(b, i)[k]
    {
      AtCut(order, i, k);
      assert a[k] == pool'[o[k]].b && Cut(b, i)[k] == b[if k < i then k else k + 1];
    }
  }

  lemma WithoutOne(order: seq<nat>, i: nat, q: nat)
    requires Distinct(order) && i < |order|
    ensures InList(Cut(order, i), q) <==> InList(order, q) && q != order[i]
  {
    var o := Cut(order, i);
    if InList(order, q) && q != order[i] {
      var k :| 0 <= k < |order| && order[k] == q;
      assert o[if k < i then k else k - 1] == q;
    }
  }

  lemma {:induction false} NoneFree(pool: seq<Node>)
    ensures FreeSlots(pool) == 0 <==> forall p :: 0 <= p < |pool| ==> pool[p].b.location != 0
  {
    if pool != [] {
      var n := |pool| - 1;
      NoneFree(pool[..n]);
      assert forall p :: 0 <= p < n ==> pool[..n][p] == pool[p];
    }
  }

  lemma FullPool(pool: seq<Node>, head: int, order: seq<nat>)
    requires Linked(pool, head, order)
    ensures |order| == POOL <==> forall p :: 0 <= p < POOL ==> pool[p].b.location != 0
  {
    ListAndFree(pool, head, order);
    NoneFree(pool);
  }
}
