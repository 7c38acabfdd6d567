/**
  The indexed binary heap of pqueue/pqueue.c, as the flash translation layer uses it.

  The C queue holds pointers and reaches an element's priority and position through
  four callbacks. Here an element is a handle (a line number), and the callbacks are two
  arrays indexed by handle: `pri` (getpri/setpri) and `pos` (getpos/setpos). The order
  is the one conv_ftl.c installs, "next > curr", so the root holds the smallest priority.
*/
module PriorityQueues {
  import opened Basics

  // ---- The heap as a value: slot 0 is never used, slots 1..size-1 are live ----

  ghost predicate Shape(d: seq<nat>, size: nat, handles: nat) {
    && 1 <= size <= |d|
    && (forall k :: 1 <= k < size ==> d[k] < handles)
    && (forall j, k :: 1 <= j < k < size ==> d[j] != d[k])
  }

  /** Every live slot's element knows its slot. */
  ghost predicate Indexed(d: seq<nat>, size: nat, pos: seq<nat>)
    requires Shape(d, size, |pos|)
  {
    forall k :: 1 <= k < size ==> pos[d[k]] == k
  }

  ghost predicate IndexedExcept(d: seq<nat>, size: nat, pos: seq<nat>, hole: nat)
    requires Shape(d, size, |pos|)
  {
    forall k :: 1 <= k < size && k != hole ==> pos[d[k]] == k
  }

  ghost predicate Heap(d: seq<nat>, size: nat, pri: seq<int>)
    requires Shape(d, size, |pri|)
  {
    forall k :: 2 <= k < size ==> pri[d[k / 2]] <= pri[d[k]]
  }

  ghost function Elements(d: seq<nat>, size: nat): set<nat>
    requires size <= |d|
  {
    set k | 1 <= k < size :: d[k]
  }

  /** The root is a minimum: the heap order along one root path, by induction on the slot. */
  lemma {:induction false} RootIsMinimum(d: seq<nat>, size: nat, pri: seq<int>, k: nat)
    requires Shape(d, size, |pri|) && Heap(d, size, pri)
    requires 1 <= k < size
    ensures pri[d[1]] <= pri[d[k]]
  {
    if k > 1 {
      RootIsMinimum(d, size, pri, k / 2);
    }
  }

  /** A handle occurs in at most one live slot, so as many elements as slots. */
  lemma {:induction false} ElementCount(d: seq<nat>, size: nat, handles: nat)
    requires Shape(d, size, handles)
    ensures |Elements(d, size)| == size - 1
  {
    if size == 1 {
      assert Elements(d, size) == {};
    } else {
      ElementCount(d, size - 1, handles);
      assert Elements(d, size) == Elements(d, size - 1) + {d[size - 1]};
    }
  }

  // ---- The debugging check of pqueue.c ----

  predicate SubtreeIsValid(d: seq<nat>, size: nat, pri: seq<int>, pos: nat)
    requires Shape(d, size, |pri|)
    requires 1 <= pos
    decreases size - pos
  {
    && (2 * pos < size ==>
          && !(pri[d[pos]] > pri[d[2 * pos]])
          && SubtreeIsValid(d, size, pri, 2 * pos))
    && (2 * pos + 1 < size ==>
          && !(pri[d[pos]] > pri[d[2 * pos + 1]])
          && SubtreeIsValid(d, size, pri, 2 * pos + 1))
  }

  /** Slot k lies in the subtree rooted at slot pos. */
  predicate Below(pos: nat, k: nat)
    requires 1 <= pos
  {
    k == pos || (k > pos && Below(pos, k / 2))
  }

  lemma {:induction false} BelowSplits(pos: nat, k: nat)
    requires 1 <= pos && Below(pos, k)
    ensures k == pos || Below(2 * pos, k) || Below(2 * pos + 1, k)
  {
    if k > pos && k / 2 != pos {
      BelowSplits(pos, k / 2);
    }
  }

  lemma {:induction false} BelowJoins(pos: nat, child: nat, k: nat)
    requires 1 <= pos && child / 2 == pos && Below(child, k)
    ensures Below(pos, k) && k > pos
  {
    if k > child {
      BelowJoins(pos, child, k / 2);
    }
  }

  lemma {:induction false} RootReachesAll(k: nat)
    requires 1 <= k
    ensures Below(1, k)
  {
    if k > 1 {
      RootReachesAll(k / 2);
    }
  }

  /** Every parent edge strictly inside the subtree rooted at `pos` is in order. */
  ghost predicate SubtreeOrdered(d: seq<nat>, size: nat, pri: seq<int>, pos: nat)
    requires Shape(d, size, |pri|) && 1 <= pos
  {
    forall k {:trigger Below(pos, k)} :: pos < k < size && Below(pos, k) ==> pri[d[k / 2]] <= pri[d[k]]
  }

  /** A subtree is ordered exactly when its two child edges and both child subtrees are. */
  lemma SubtreeOrderedSplits(d: seq<nat>, size: nat, pri: seq<int>, pos: nat)
    requires Shape(d, size, |pri|) && 1 <= pos
    ensures SubtreeOrdered(d, size, pri, pos) <==>
            && (2 * pos < size ==> pri[d[pos]] <= pri[d[2 * pos]])
            && (2 * pos + 1 < size ==> pri[d[pos]] <= pri[d[2 * pos + 1]])
            && SubtreeOrdered(d, size, pri, 2 * pos)
            && SubtreeOrdered(d, size, pri, 2 * pos + 1)
  {
    var l, r := 2 * pos, 2 * pos + 1;
    assert l / 2 == pos && r / 2 == pos && Below(pos, pos) && Below(pos, l) && Below(pos, r);
    if SubtreeOrdered(d, size, pri, pos) {
      forall k | l < k < size && Below(l, k) ensures pri[d[k / 2]] <= pri[d[k]] { BelowJoins(pos, l, k); }
      forall k | r < k < size && Below(r, k) ensures pri[d[k / 2]] <= pri[d[k]] { BelowJoins(pos, r, k); }
    }
    if l < size && pri[d[pos]] <= pri[d[l]] && SubtreeOrdered(d, size, pri, l) && SubtreeOrdered(d, size, pri, r)
       && (r < size ==> pri[d[pos]] <= pri[d[r]]) {
      forall k | pos < k < size && Below(pos, k) ensures pri[d[k / 2]] <= pri[d[k]] { BelowSplits(pos, k); }
    }
    if size <= l {
      forall k | pos < k < size && Below(pos, k) ensures false { BelowSplits(pos, k); }
    }
  }

  /** The recursive check answers exactly whether the order holds on every edge of the subtree. */
  lemma {:induction false} SubtreeIsValidCorrect(d: seq<nat>, size: nat, pri: seq<int>, pos: nat)
    requires Shape(d, size, |pri|)
    requires 1 <= pos
    ensures SubtreeIsValid(d, size, pri, pos) <==> SubtreeOrdered(d, size, pri, pos)
    decreases size - pos
  {
    SubtreeOrderedSplits(d, size, pri, pos);
    if 2 * pos < size { SubtreeIsValidCorrect(d, size, pri, 2 * pos); }
    if 2 * pos + 1 < size { SubtreeIsValidCorrect(d, size, pri, 2 * pos + 1); }
  }

  /** pqueue_is_valid: asked at the root, the check decides the heap order of the whole queue. */
  lemma IsValidDecidesHeap(d: seq<nat>, size: nat, pri: seq<int>)
    requires Shape(d, size, |pri|)
    ensures SubtreeIsValid(d, size, pri, 1) <==> Heap(d, size, pri)
  {
    SubtreeIsValidCorrect(d, size, pri, 1);
    if SubtreeIsValid(d, size, pri, 1) {
      forall k | 2 <= k < size ensures pri[d[k / 2]] <= pri[d[k]] { RootReachesAll(k); }
    }
  }

  class PQueue {
    const d: array<nat>
    var size: nat
    var pri: seq<int>
    var pos: seq<nat>
    ghost var elems: set<nat>

    ghost predicate WellFormed()
      reads this, d
    {
      && |pri| == |pos|
      && Shape(d[..], size, |pri|)
      && elems == Elements(d[..], size)
    }

    ghost predicate Valid()
      reads this, d
      ensures Valid() ==> WellFormed()
    {
      && WellFormed()
      && Indexed(d[..], size, pos)
      && Heap(d[..], size, pri)
    }

    constructor (n: nat)
      ensures Valid() && elems == {} && fresh(d)
      ensures d.Length == n + 1 && |pri| == |pos| == n
      ensures forall h :: 0 <= h < n ==> pri[h] == 0 && pos[h] == 0
    {
      d := new nat[n + 1](_ => 0);
      pri := seq(n, _ => 0);
      pos := seq(n, _ => 0);
      size := 1;
      elems := {};
    }

    /**
      Sift the element of slot `start` towards the root. On entry only the edge into
      `start` may be out of order, and only its element may have a stale position.
    */
    method BubbleUp(start: nat)
      requires WellFormed() && 1 <= start < size && IndexedExcept(d[..], size, pos, start)
      requires HeapButInto(d[..], size, pri, start) && Skip(d[..], size, pri, start)
      modifies this`pos, d
      ensures Valid() && elems == old(elems)
      ensures SameOutside(elems, old(pos), pos)
    {
      hide HeapButInto, Skip, Heap, Elements, IndexedExcept, Indexed, SameOutside;
      var i := start;
      var movingNode := d[i];
      var movingPri := pri[movingNode];
      ghost var full := d[..];
      SameOutsideRefl(elems, pos);
      while i > 1 && pri[d[i / 2]] > movingPri
        invariant 1 <= i < size && SameButHole(full, i) && full[i] == movingNode
        invariant |pos| == |pri| && Shape(full, size, |pri|) && Elements(full, size) == old(elems)
        invariant HeapButInto(full, size, pri, i) && Skip(full, size, pri, i)
        invariant IndexedExcept(full, size, pos, i)
        invariant SameOutside(old(elems), old(pos), pos)
      {
        BubbleStep(full, size, pri, i);
        MoveSlot(full, size, pos, old(pos), i, i / 2);
        full := full[i := full[i / 2]][i / 2 := movingNode];
        d[i] := d[i / 2];
        pos := pos[d[i] := i];
        i := i / 2;
      }
      BubbleDone(full, size, pri, i);
      FillSlot(full, size, pos, old(pos), i);
      d[i] := movingNode;
      pos := pos[movingNode := i];
      assert d[..] == full;
    }

    /** The slots hold `full` except for slot i, whose element is in flight. */
    ghost predicate SameButHole(full: seq<nat>, i: nat)
      reads this, d
    {
      |full| == d.Length && forall k :: 0 <= k < d.Length && k != i ==> d[k] == full[k]
    }

    /** maxchild: the child to descend to, 0 when slot i is a leaf; the left one unless the right is smaller. */
    method MaxChild(i: nat, ghost full: seq<nat>) returns (child: nat)
      requires 1 <= i <= size && SameButHole(full, i) && Shape(full, size, |pri|)
      ensures SmallestChild(full, size, pri, i, child) && (child == 0 || i < child < size)
    {
      child := 2 * i;
      if child >= size { return 0; }
      if child + 1 < size && pri[d[child]] > pri[d[child + 1]] {
        child := child + 1;
      }
    }

    /**
      Sift the element of slot `start` towards the leaves. On entry only edges out of
      `start` may be out of order. When the last slot was just given up, `start` may be
      that slot: the element found there is put back with the position it already has.
    */
    method PercolateDown(start: nat)
      requires WellFormed() && 1 <= start <= size && start < d.Length
      requires start == size ==> d[start] < |pri| && pos[d[start]] == start
      requires IndexedExcept(d[..], size, pos, start)
      requires HeapButOutOf(d[..], size, pri, start) && Skip(d[..], size, pri, start)
      modifies this`pos, d
      ensures Valid() && elems == old(elems)
      ensures SameOutside(elems, old(pos), pos)
    {
      hide HeapButOutOf, Skip, Heap, Elements, IndexedExcept, Indexed, SameOutside, SmallestChild;
      var i := start;
      var movingNode := d[i];
      var movingPri := pri[movingNode];
      ghost var full := d[..];
      SameOutsideRefl(elems, pos);
      var child := MaxChild(i, full);
      while child != 0 && movingPri > pri[d[child]]
        invariant 1 <= i <= size && SameButHole(full, i) && i < |full| && full[i] == movingNode
        invariant i == size ==> i == start && pos == old(pos)
        invariant |pos| == |pri| && Shape(full, size, |pri|) && Elements(full, size) == old(elems)
        invariant HeapButOutOf(full, size, pri, i) && Skip(full, size, pri, i)
        invariant IndexedExcept(full, size, pos, i)
        invariant child == 0 || i < child < size
        invariant SmallestChild(full, size, pri, i, child)
        invariant SameOutside(old(elems), old(pos), pos)
        decreases size - i
      {
        PercolateStep(full, size, pri, i, child);
        MoveSlot(full, size, pos, old(pos), i, child);
        full := full[i := full[child]][child := movingNode];
        d[i] := d[child];
        pos := pos[d[i] := i];
        i := child;
        child := MaxChild(i, full);
      }
      PercolateDone(full, size, pri, i, child);
      if i < size {
        FillSlot(full, size, pos, old(pos), i);
      } else {
        NoHole(full, size, pos);
        assert pos[movingNode := i] == pos;
      }
      d[i] := movingNode;
      pos := pos[movingNode := i];
      assert d[..] == full;
    }

    /** Positions are 1 or more inside the queue; the queue has as many slots in use as elements. */
    lemma Positions()
      requires Valid()
      ensures |pri| == |pos| && |elems| == size - 1 && 1 <= size <= d.Length
      ensures forall h :: h in elems ==> h < |pos| && pos[h] >= 1
    {
      ElementCount(d[..], size, |pri|);
    }

    /** setpri on an element outside the queue. */
    method SetPri(h: nat, newPri: int)
      requires Valid() && h < |pri| && h !in elems
      modifies this`pri
      ensures Valid() && elems == old(elems) && pri == old(pri)[h := newPri]
    {
      pri := pri[h := newPri];
    }

    /** setpos(0) on an element that has left the queue. */
    method ClearPos(h: nat)
      requires Valid() && h < |pos| && h !in elems
      modifies this`pos
      ensures Valid() && elems == old(elems) && pos == old(pos)[h := 0]
    {
      pos := pos[h := 0];
    }

    /** pqueue_insert. The C code writes past the array when it is full, so room is demanded. */
    method Insert(h: nat)
      requires Valid() && h < |pri| && h !in elems && size < d.Length
      modifies this`size, this`pos, this`elems, d
      ensures Valid() && elems == old(elems) + {h} && size == old(size) + 1
      ensures SameOutside(elems, old(pos), pos)
    {
      ghost var before, n := d[..], size;
      var i := size;
      size := size + 1;
      d[i] := h;
      elems := elems + {h};
      AppendKeeps(before, n, pri, pos, h);
      BubbleUp(i);
    }

    /** pqueue_change_priority of an element that is in the queue. */
    method ChangePriority(newPri: int, h: nat)
      requires Valid() && h in elems
      modifies this`pri, this`pos, d
      ensures Valid() && elems == old(elems)
      ensures pri == old(pri)[h := newPri]
      ensures SameOutside(elems, old(pos), pos)
    {
      var oldPri := pri[h];
      pri := pri[h := newPri];
      SlotOfElement(d[..], size, pos, h);
      var posn := pos[h];
      if oldPri > newPri {
        BubbleUp(posn);
      } else {
        PercolateDown(posn);
      }
      assert pri == old(pri)[h := newPri];
    }

    /** pqueue_remove: the last slot's element takes the freed slot and is sifted either way. */
    method Remove(h: nat)
      requires Valid() && h in elems
      modifies this`size, this`pos, this`elems, d
      ensures Valid() && elems == old(elems) - {h} && size == old(size) - 1
      ensures SameOutside(elems, old(pos), pos)
    {
      hide Heap, Skip, HeapButInto, HeapButOutOf, IndexedExcept, Indexed, Elements, SameOutside;
      ghost var before, n := d[..], size;
      SlotOfElement(before, n, pos, h);
      var posn := pos[h];
      size := size - 1;
      d[posn] := d[size];
      elems := elems - {h};
      TakeOutKeeps(before, n, pri, pos, posn);
      if pri[h] > pri[d[posn]] {
        BubbleUp(posn);
      } else {
        PercolateDown(posn);
      }
    }

    /** pqueue_pop: nothing on an empty queue, otherwise an element of smallest priority, taken out. */
    method Pop() returns (head: Option<nat>)
      requires Valid()
      modifies this`size, this`pos, this`elems, d
      ensures Valid()
      ensures head.None? <==> old(elems) == {}
      ensures pri == old(pri)
      ensures head.None? ==> size == old(size) && d[..] == old(d[..]) && pos == old(pos)
      ensures head.Some? ==> 1 < d.Length && head.value == old(d[1]) && Least(old(elems), pri, head.value)
      ensures head.Some? ==> elems == old(elems) - {head.value} && size == old(size) - 1
      ensures SameOutside(elems, old(pos), pos)
    {
      if size == 1 {
        return None;
      }
      ghost var before, n := d[..], size;
      RootIsLeast(before, n, pri);
      head := Some(d[1]);
      size := size - 1;
      d[1] := d[size];
      elems := elems - {head.value};
      TakeOutKeeps(before, n, pri, pos, 1);
      PercolateDown(1);
    }

    /** pqueue_peek. */
    method Peek() returns (head: Option<nat>)
      requires Valid()
      ensures head.None? <==> elems == {}
      ensures head.Some? ==> 1 < d.Length && head.value == d[1] && Least(elems, pri, head.value)
    {
      if size == 1 {
        return None;
      }
      RootIsLeast(d[..], size, pri);
      head := Some(d[1]);
    }
  }

  /** h is in s and no element of s has a smaller priority. */
  ghost predicate Least(s: set<nat>, pri: seq<int>, h: nat) {
    h in s && forall x :: x in s ==> x < |pri| && h < |pri| && pri[h] <= pri[x]
  }

  lemma RootIsLeast(d: seq<nat>, size: nat, pri: seq<int>)
    requires Shape(d, size, |pri|) && Heap(d, size, pri) && 1 < size
    ensures Least(Elements(d, size), pri, d[1])
  {
    forall k | 1 <= k < size ensures pri[d[1]] <= pri[d[k]] { RootIsMinimum(d, size, pri, k); }
  }

  lemma SlotOfElement(d: seq<nat>, size: nat, pos: seq<nat>, h: nat)
    requires Shape(d, size, |pos|) && Indexed(d, size, pos) && h in Elements(d, size)
    ensures h < |pos| && 1 <= pos[h] < size && d[pos[h]] == h
  {}

  lemma AppendKeeps(d: seq<nat>, size: nat, pri: seq<int>, pos: seq<nat>, h: nat)
    requires Shape(d, size, |pri|) && |pos| == |pri| && Indexed(d, size, pos) && Heap(d, size, pri)
    requires size < |d| && h < |pri| && h !in Elements(d, size)
    ensures var e := d[size := h];
            && Shape(e, size + 1, |pri|) && Elements(e, size + 1) == Elements(d, size) + {h}
            && IndexedExcept(e, size + 1, pos, size)
            && HeapButInto(e, size + 1, pri, size) && Skip(e, size + 1, pri, size)
  {
    var e := d[size := h];
    forall x | x in Elements(d, size) + {h} ensures x in Elements(e, size + 1) {
      if x == h {
        assert e[size] == h;
      } else {
        var k :| 1 <= k < size && d[k] == x;
        assert e[k] == x;
      }
    }
  }

  /**
    Overwriting slot i with the last live slot and giving that one up takes exactly slot i's
    element out, and leaves one defect at i whose kind the two priorities decide.
  */
  lemma TakeOutKeeps(d: seq<nat>, size: nat, pri: seq<int>, pos: seq<nat>, i: nat)
    requires Shape(d, size, |pri|) && |pos| == |pri| && Indexed(d, size, pos) && Heap(d, size, pri)
    requires 1 <= i < size
    ensures var n, e := size - 1, d[i := d[size - 1]];
            && Shape(e, n, |pri|) && Elements(e, n) == Elements(d, size) - {d[i]}
            && IndexedExcept(e, n, pos, i) && Skip(e, n, pri, i)
            && (i < n && pri[d[i]] > pri[e[i]] ==> HeapButInto(e, n, pri, i))
            && (pri[d[i]] <= pri[e[i]] ==> HeapButOutOf(e, n, pri, i))
            && (i == 1 ==> HeapButOutOf(e, n, pri, i))
  {
    TakeOutElements(d, size, |pri|, i);
    hide Elements;
  }

  lemma TakeOutElements(d: seq<nat>, size: nat, handles: nat, i: nat)
    requires Shape(d, size, handles) && 1 <= i < size
    ensures var n, e := size - 1, d[i := d[size - 1]]; Elements(e, n) == Elements(d, size) - {d[i]}
  {
    var n, e := size - 1, d[i := d[size - 1]];
    forall x | x in Elements(d, size) - {d[i]} ensures x in Elements(e, n) {
      var k :| 1 <= k < size && d[k] == x;
      assert e[if k == n then i else k] == x;
    }
  }

  /** In order except for the edge into slot i. */
  ghost predicate HeapButInto(d: seq<nat>, size: nat, pri: seq<int>, i: nat)
    requires Shape(d, size, |pri|)
  {
    forall k :: 2 <= k < size && k != i ==> pri[d[k / 2]] <= pri[d[k]]
  }

  /** In order except for the edges out of slot i. */
  ghost predicate HeapButOutOf(d: seq<nat>, size: nat, pri: seq<int>, i: nat)
    requires Shape(d, size, |pri|)
  {
    forall k :: 2 <= k < size && k / 2 != i ==> pri[d[k / 2]] <= pri[d[k]]
  }

  /** The parent of slot i is in order with i's children. */
  ghost predicate Skip(d: seq<nat>, size: nat, pri: seq<int>, i: nat)
    requires Shape(d, size, |pri|) && i <= size
  {
    forall k :: 2 <= k < size && k / 2 == i && 1 < i ==> pri[d[i / 2]] <= pri[d[k]]
  }

  /** One bubble_up round: exchanging slot i with its larger parent moves the defect up. */
  lemma BubbleStep(d: seq<nat>, size: nat, pri: seq<int>, i: nat)
    requires Shape(d, size, |pri|) && 2 <= i < size
    requires HeapButInto(d, size, pri, i) && Skip(d, size, pri, i) && pri[d[i / 2]] > pri[d[i]]
    ensures var e := d[i := d[i / 2]][i / 2 := d[i]];
            && Shape(e, size, |pri|) && Elements(e, size) == Elements(d, size)
            && HeapButInto(e, size, pri, i / 2) && Skip(e, size, pri, i / 2)
  {
    SwapKeepsShape(d, size, |pri|, i, i / 2);
  }

  /** `child` is slot i's smallest child, 0 for none. */
  ghost predicate SmallestChild(d: seq<nat>, size: nat, pri: seq<int>, i: nat, child: nat)
    requires size <= |d| && forall k :: 1 <= k < size ==> d[k] < |pri|
  {
    && (child == 0 <==> size <= 2 * i)
    && (child != 0 ==>
          && child / 2 == i && child < size
          && forall k :: 2 <= k < size && k / 2 == i ==> pri[d[child]] <= pri[d[k]])
  }

  lemma SameOutsideRefl(s: set<nat>, pos: seq<nat>)
    ensures SameOutside(s, pos, pos)
  {}

  /** Moving slot j's element to the hole i and recording its new position moves the hole to j. */
  lemma MoveSlot(d: seq<nat>, size: nat, pos: seq<nat>, pos0: seq<nat>, i: nat, j: nat)
    requires Shape(d, size, |pos|) && 1 <= i < size && 1 <= j < size && i != j
    requires IndexedExcept(d, size, pos, i) && SameOutside(Elements(d, size), pos0, pos)
    ensures Shape(d[i := d[j]][j := d[i]], size, |pos|)
    ensures IndexedExcept(d[i := d[j]][j := d[i]], size, pos[d[j] := i], j)
    ensures SameOutside(Elements(d, size), pos0, pos[d[j] := i])
  {
    SwapKeepsShape(d, size, |pos|, i, j);
  }

  lemma FillSlot(d: seq<nat>, size: nat, pos: seq<nat>, pos0: seq<nat>, i: nat)
    requires Shape(d, size, |pos|) && 1 <= i < size
    requires IndexedExcept(d, size, pos, i) && SameOutside(Elements(d, size), pos0, pos)
    ensures Indexed(d, size, pos[d[i] := i])
    ensures SameOutside(Elements(d, size), pos0, pos[d[i] := i])
  {}

  lemma NoHole(d: seq<nat>, size: nat, pos: seq<nat>)
    requires Shape(d, size, |pos|) && IndexedExcept(d, size, pos, size)
    ensures Indexed(d, size, pos)
  {}

  lemma BubbleDone(d: seq<nat>, size: nat, pri: seq<int>, i: nat)
    requires Shape(d, size, |pri|) && 1 <= i < size
    requires HeapButInto(d, size, pri, i) && (i > 1 ==> pri[d[i / 2]] <= pri[d[i]])
    ensures Heap(d, size, pri)
  {}

  lemma PercolateDone(d: seq<nat>, size: nat, pri: seq<int>, i: nat, child: nat)
    requires Shape(d, size, |pri|) && 1 <= i <= size && HeapButOutOf(d, size, pri, i)
    requires SmallestChild(d, size, pri, i, child)
    requires child != 0 ==> pri[d[i]] <= pri[d[child]]
    ensures Heap(d, size, pri)
  {}

  /** One percolate_down round: exchanging slot i with its smallest child moves the defect down. */
  lemma PercolateStep(d: seq<nat>, size: nat, pri: seq<int>, i: nat, child: nat)
    requires Shape(d, size, |pri|) && 1 <= i < size && child != 0 && SmallestChild(d, size, pri, i, child)
    requires HeapButOutOf(d, size, pri, i) && Skip(d, size, pri, i) && pri[d[i]] > pri[d[child]]
    ensures var e := d[i := d[child]][child := d[i]];
            && Shape(e, size, |pri|) && Elements(e, size) == Elements(d, size)
            && HeapButOutOf(e, size, pri, child) && Skip(e, size, pri, child)
  {
    SwapKeepsShape(d, size, |pri|, i, child);
  }

  /** Exchanging two live slots keeps the shape and the elements. */
  lemma SwapKeepsShape(d: seq<nat>, size: nat, handles: nat, i: nat, j: nat)
    requires Shape(d, size, handles) && 1 <= i < size && 1 <= j < size && i != j
    ensures Shape(d[i := d[j]][j := d[i]], size, handles)
    ensures Elements(d[i := d[j]][j := d[i]], size) == Elements(d, size)
  {
    var e := d[i := d[j]][j := d[i]];
    forall x | x in Elements(d, size) ensures x in Elements(e, size) {
      var k :| 1 <= k < size && d[k] == x;
      assert e[if k == i then j else if k == j then i else k] == x;
    }
  }
}
