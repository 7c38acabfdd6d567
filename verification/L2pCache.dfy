/**
  The L2P cache of a ConZone SSD (zms_read_write.c): per slot an array of entries linked into a
  recency list, shared by two namespaces that keep a back-index from logical page to entry.
*/
module L2pCaches {
  import opened Basics

  datatype Entry = Entry(nsid: nat, lpn: nat, granularity: int, resident: bool, next: int, last: int)

  datatype Slot = Slot(head: int, tail: int, len: nat, ents: seq<Entry>)

  // ---- Recency ----

  /** The entries of a use history, least recently used first. */
  function ByRecency(uses: seq<nat>): seq<nat> {
    if uses == [] then []
    else Touched(ByRecency(uses[..|uses| - 1]), uses[|uses| - 1])
  }

  function Touched(order: seq<nat>, i: nat): seq<nat> { Without(order, i) + [i] }

  /** The position of the newest use of i. */
  function LastUse(uses: seq<nat>, i: nat): nat
    requires i in uses
  {
    if uses[|uses| - 1] == i then |uses| - 1
    else
      assert uses == uses[..|uses| - 1] + [uses[|uses| - 1]];
      LastUse(uses[..|uses| - 1], i)
  }

  lemma {:induction false} LastUseBound(uses: seq<nat>, i: nat)
    requires i in uses
    ensures LastUse(uses, i) < |uses|
  {
    if uses[|uses| - 1] != i {
      assert uses == uses[..|uses| - 1] + [uses[|uses| - 1]];
      LastUseBound(uses[..|uses| - 1], i);
    }
  }

  lemma {:induction false} RecencyMembers(uses: seq<nat>)
    ensures NoDup(ByRecency(uses)) && forall i :: i in ByRecency(uses) <==> i in uses
  {
    if uses != [] {
      var before, i := uses[..|uses| - 1], uses[|uses| - 1];
      assert uses == before + [i];
      RecencyMembers(before);
      WithoutKeepsNoDup(ByRecency(before), i);
    }
  }

  lemma {:induction false} WithoutKeepsOrder(s: seq<nat>, x: nat, a: nat, b: nat) returns (i: nat, j: nat)
    requires a < b < |Without(s, x)|
    ensures i < j < |s| && s[i] == Without(s, x)[a] && s[j] == Without(s, x)[b]
  {
    if s[0] == x {
      i, j := WithoutKeepsOrder(s[1..], x, a, b);
      i, j := i + 1, j + 1;
    } else if a > 0 {
      i, j := WithoutKeepsOrder(s[1..], x, a - 1, b - 1);
      i, j := i + 1, j + 1;
    } else {
      i := 0;
      assert Without(s[1..], x)[b - 1] in Without(s[1..], x);
      j := Position(s[1..], Without(s[1..], x)[b - 1]);
      j := j + 1;
    }
  }

  /** ByRecency is what its name says: an earlier entry was last used earlier. */
  lemma {:induction false} RecencyOrder(uses: seq<nat>, a: nat, b: nat)
    requires a < b < |ByRecency(uses)|
    ensures ByRecency(uses)[a] in uses && ByRecency(uses)[b] in uses
    ensures LastUse(uses, ByRecency(uses)[a]) < LastUse(uses, ByRecency(uses)[b])
  {
    RecencyMembers(uses);
    var before, i := uses[..|uses| - 1], uses[|uses| - 1];
    assert uses == before + [i];
    var x, y := ByRecency(uses)[a], ByRecency(uses)[b];
    assert x in ByRecency(uses) && y in ByRecency(uses) && x != y;
    var order := ByRecency(before);
    assert ByRecency(uses) == Without(order, i) + [i];
    if b == |Without(order, i)| {
      assert y == i && x in before;
      LastUseBound(before, x);
    } else {
      var c, d := WithoutKeepsOrder(order, i, a, b);
      RecencyOrder(before, c, d);
      assert x in Without(order, i) && y in Without(order, i);
    }
  }

  // ---- One slot ----

  /** head, tail, next and last are the doubly linked list `order` over exactly the entries in use. */
  ghost predicate Linked(sl: Slot, order: seq<nat>) {
    && |order| == sl.len <= |sl.ents| && NoDup(order) && (forall i: nat :: i in order <==> i < sl.len)
    && (if order == [] then sl.head == 0 && sl.tail == 0
        else sl.head == order[0] && sl.tail == order[|order| - 1])
    && forall k :: 0 <= k < |order| ==> LinkedAt(sl, order, k)
  }

  ghost predicate LinkedAt(sl: Slot, order: seq<nat>, k: nat)
    requires k < |order|
  {
    && order[k] < |sl.ents|
    && sl.ents[order[k]].next == (if k + 1 < |order| then order[k + 1] else -1)
    && sl.ents[order[k]].last == (if k > 0 then order[k - 1] else -1)
  }

  /** Links aside, nothing changed. */
  ghost predicate SamePayload(s: Slot, t: Slot) {
    && |t.ents| == |s.ents| && t.len == s.len
    && forall i :: 0 <= i < |s.ents| ==> t.ents[i] == s.ents[i].(next := t.ents[i].next, last := t.ents[i].last)
  }

  function SetNext(sl: Slot, i: nat, next: int): Slot
    requires i < |sl.ents|
  {
    sl.(ents := sl.ents[i := sl.ents[i].(next := next)])
  }

  function SetLast(sl: Slot, i: nat, last: int): Slot
    requires i < |sl.ents|
  {
    sl.(ents := sl.ents[i := sl.ents[i].(last := last)])
  }

  /** Where i stands in the list. */
  lemma Position(order: seq<nat>, i: nat) returns (k: nat)
    requires i in order
    ensures k < |order| && order[k] == i
  {
    k :| 0 <= k < |order| && order[k] == i;
  }

  lemma {:induction false} WithoutAt(s: seq<nat>, k: nat)
    requires NoDup(s) && k < |s|
    ensures Without(s, s[k]) == s[..k] + s[k + 1..]
  {
    if k > 0 {
      assert s[1..][k - 1] == s[k] && NoDup(s[1..]);
      WithoutAt(s[1..], k - 1);
      assert s[1..][..k - 1] == s[1..k] && s[1..][k..] == s[k + 1..];
      assert [s[0]] + s[1..k] == s[..k];
    } else {
      assert s[0] !in s[1..];
      WithoutAbsent(s[1..], s[0]);
    }
  }

  lemma {:induction false} WithoutAbsent(s: seq<nat>, x: nat)
    requires x !in s
    ensures Without(s, x) == s
  {
    if s != [] { WithoutAbsent(s[1..], x); }
  }

  lemma LinkedPrefix(sl: Slot, order: seq<nat>, i: nat)
    requires Linked(sl, order) && i in order && i != sl.tail
    ensures i < |sl.ents| && 0 <= sl.tail < |sl.ents|
    ensures 0 <= sl.ents[i].next < |sl.ents| && sl.ents[i].next != i
    ensures if i == sl.head then sl.ents[i].last == -1 else 0 <= sl.ents[i].last < |sl.ents| && sl.ents[i].last != i
  {
    var k := Position(order, i);
    assert LinkedAt(sl, order, k) && LinkedAt(sl, order, k + 1) && LinkedAt(sl, order, |order| - 1);
    if k > 0 { assert LinkedAt(sl, order, k - 1); assert order[0] != order[k]; }
  }

  /** The unlinking of i and its append at the tail, field by field as in l2p_access and l2p_replace. */
  function MovedToTail(sl: Slot, i: nat): Slot
    requires i < |sl.ents| && 0 <= sl.tail < |sl.ents| && 0 <= sl.ents[i].next < |sl.ents|
    requires i != sl.head ==> 0 <= sl.ents[i].last < |sl.ents|
  {
    var u := if i == sl.head then SetLast(sl.(head := sl.ents[i].next), sl.ents[i].next, -1)
             else SetLast(SetNext(sl, sl.ents[i].last, sl.ents[i].next), sl.ents[i].next, sl.ents[i].last);
    SetNext(SetNext(SetLast(u, i, u.tail), i, -1), u.tail, i).(tail := i)
  }

  /** Moving i to the tail is using it: the list becomes the recency list after that use. */
  lemma MovedToTailLinked(sl: Slot, order: seq<nat>, i: nat)
    requires Linked(sl, order) && i in order && i != sl.tail
    ensures i < |sl.ents| && 0 <= sl.tail < |sl.ents| && 0 <= sl.ents[i].next < |sl.ents|
    ensures i != sl.head ==> 0 <= sl.ents[i].last < |sl.ents|
    ensures Linked(MovedToTail(sl, i), Touched(order, i)) && SamePayload(sl, MovedToTail(sl, i))
  {
    LinkedPrefix(sl, order, i);
    var k := Position(order, i);
    WithoutAt(order, k);
    var t, o := MovedToTail(sl, i), Touched(order, i);
    assert o == order[..k] + order[k + 1..] + [i];
    TouchedOrder(order, k);
    assert LinkedAt(sl, order, k);
    assert t.tail == i && t.len == sl.len && |t.ents| == |sl.ents| && t.head == o[0];
    hide Without, LinkedAt, MovedToTail;
    forall j | 0 <= j < |o| ensures LinkedAt(t, o, j) { LinkedAfterMove(sl, order, k, j); }
  }

  lemma TouchedOrder(order: seq<nat>, k: nat)
    requires NoDup(order) && k < |order|
    ensures var o := order[..k] + order[k + 1..] + [order[k]];
            |o| == |order| && NoDup(o) && forall i :: i in o <==> i in order
  {
    var o := order[..k] + order[k + 1..] + [order[k]];
    forall i | i in order ensures i in o {
      var j := Position(order, i);
      assert o[if j < k then j else if j == k then |order| - 1 else j - 1] == i;
    }
  }

  lemma LinkedAfterMove(sl: Slot, order: seq<nat>, k: nat, j: nat)
    requires Linked(sl, order) && k + 1 < |order| && j < |order|
    ensures var i, n := order[k], |order|;
            && i < |sl.ents| && 0 <= sl.tail < |sl.ents| && 0 <= sl.ents[i].next < |sl.ents|
            && (i != sl.head ==> 0 <= sl.ents[i].last < |sl.ents|)
            && LinkedAt(MovedToTail(sl, i), order[..k] + order[k + 1..] + [i], j)
  {
    assert LinkedAt(sl, order, k) && LinkedAt(sl, order, k + 1) && LinkedAt(sl, order, |order| - 1);
    if k > 0 { assert LinkedAt(sl, order, k - 1); }
    assert LinkedAt(sl, order, if j < k then j else if j + 1 < |order| then j + 1 else k);
    assert NoDup(order) && sl.head == order[0] && sl.tail == order[|order| - 1];
    hide Linked;
  }

  /** The entry eviction takes: the first of the list that is not resident, -1 when all are. */
  function VictimOf(ents: seq<Entry>, order: seq<nat>): int
    requires Within(order, |ents|)
  {
    if order == [] then -1
    else if !ents[order[0]].resident then order[0]
    else VictimOf(ents, order[1..])
  }

  predicate Within(order: seq<nat>, n: nat) { forall k :: 0 <= k < |order| ==> order[k] < n }

  predicate ResidentUpTo(ents: seq<Entry>, order: seq<nat>, k: nat)
    requires Within(order, |ents|) && k <= |order|
  {
    forall j :: 0 <= j < k ==> ents[order[j]].resident
  }

  /** Together with RecencyOrder: the least recently used entry that is not resident, if there is one. */
  lemma {:induction false} VictimIsOldest(ents: seq<Entry>, order: seq<nat>, k: nat)
    requires Within(order, |ents|) && k <= |order| && ResidentUpTo(ents, order, k)
    ensures k == |order| ==> VictimOf(ents, order) == -1
    ensures k < |order| && !ents[order[k]].resident ==> VictimOf(ents, order) == order[k]
  {
    if k > 0 {
      assert ents[order[0]].resident;
      assert forall j :: 0 <= j < |order| - 1 ==> order[1..][j] == order[j + 1];
      VictimIsOldest(ents, order[1..], k - 1);
    }
  }

  // ---- Entries and back-indices ----

  /** Entry i of lpn's slot caches lpn of namespace ns. */
  ghost predicate Held(slots: seq<Slot>, ns: nat, lpn: nat, i: int)
    requires |slots| >= 1
  {
    var sl := slots[lpn % |slots|];
    0 <= i < sl.len && i < |sl.ents| && sl.ents[i].nsid == ns && sl.ents[i].lpn == lpn
  }

  /** l2pcache_idx and the cache agree: an index is i, not -1, exactly when entry i holds its page. */
  ghost predicate Consistent(slots: seq<Slot>, idx: seq<seq<int>>) {
    && |slots| >= 1 && |idx| == 2
    && (forall ns: nat, lpn: nat :: ns < 2 && lpn < |idx[ns]| && idx[ns][lpn] != -1 ==> Held(slots, ns, lpn, idx[ns][lpn]))
    && forall s, i :: 0 <= s < |slots| && 0 <= i < slots[s].len && i < |slots[s].ents| ==> Indexed(slots, idx, s, slots[s].ents[i], i)
  }

  /** Slot s's entry i is known to its namespace. */
  ghost predicate Indexed(slots: seq<Slot>, idx: seq<seq<int>>, s: nat, e: Entry, i: nat)
    requires |slots| >= 1 && |idx| == 2
  {
    e.nsid < 2 && e.lpn < |idx[e.nsid]| && e.lpn % |slots| == s && idx[e.nsid][e.lpn] == i
  }

  lemma IndexExactlyWhenHeld(slots: seq<Slot>, idx: seq<seq<int>>, ns: nat, lpn: nat, i: int)
    requires Consistent(slots, idx) && ns < 2 && lpn < |idx[ns]| && i != -1
    ensures idx[ns][lpn] == i <==> Held(slots, ns, lpn, i)
  {
    if Held(slots, ns, lpn, i) { assert Indexed(slots, idx, lpn % |slots|, slots[lpn % |slots|].ents[i], i); }
  }

  lemma SamePayloadConsistent(slots: seq<Slot>, idx: seq<seq<int>>, s: nat, t: Slot)
    requires Consistent(slots, idx) && s < |slots| && SamePayload(slots[s], t)
    ensures Consistent(slots[s := t], idx)
  {
    var after := slots[s := t];
    forall ns: nat, lpn: nat | ns < 2 && lpn < |idx[ns]| && idx[ns][lpn] != -1 ensures Held(after, ns, lpn, idx[ns][lpn]) {
      assert Held(slots, ns, lpn, idx[ns][lpn]);
    }
    forall x, i | 0 <= x < |after| && 0 <= i < after[x].len && i < |after[x].ents|
      ensures Indexed(after, idx, x, after[x].ents[i], i)
    {
      assert Indexed(slots, idx, x, slots[x].ents[i], i);
    }
  }

  /** t is sl with entry r now caching (ns, la), r being either an old entry or the first unused one. */
  ghost predicate Stored(sl: Slot, t: Slot, r: nat, ns: nat, la: nat) {
    && |t.ents| == |sl.ents| && r < t.len <= |t.ents| && (t.len == sl.len || (r == sl.len && t.len == sl.len + 1))
    && t.ents[r].nsid == ns && t.ents[r].lpn == la
    && forall i :: 0 <= i < |sl.ents| && i != r ==> t.ents[i] == sl.ents[i].(next := t.ents[i].next, last := t.ents[i].last)
  }

  function SetAt(idx: seq<seq<int>>, ns: nat, lpn: nat, i: int): seq<seq<int>>
    requires ns < |idx| && lpn < |idx[ns]|
  {
    idx[ns := idx[ns][lpn := i]]
  }

  /** Once the caller has stored the index of the inserted entry, everything agrees again. */
  lemma StoredConsistent(slots: seq<Slot>, idx: seq<seq<int>>, t: Slot, r: nat, ns: nat, la: nat, mid: seq<seq<int>>)
    requires Consistent(slots, idx) && ns < 2 && la < |idx[ns]| && idx[ns][la] == -1
    requires Stored(slots[la % |slots|], t, r, ns, la)
    requires var sl := slots[la % |slots|];
             if r < sl.len then var e := sl.ents[r];
               e.nsid < 2 && e.lpn < |idx[e.nsid]| && mid == SetAt(idx, e.nsid, e.lpn, -1)
             else mid == idx
    ensures |mid| == 2 && la < |mid[ns]| && Consistent(slots[la % |slots| := t], SetAt(mid, ns, la, r))
  {
    var s := la % |slots|;
    var sl, after, fin := slots[s], slots[s := t], SetAt(mid, ns, la, r);
    if r < sl.len { assert Indexed(slots, idx, s, sl.ents[r], r); }
    forall n: nat, lpn: nat | n < 2 && lpn < |fin[n]| && fin[n][lpn] != -1 ensures Held(after, n, lpn, fin[n][lpn]) {
      if n != ns || lpn != la { assert Held(slots, n, lpn, idx[n][lpn]); }
    }
    StoredIndexed(slots, idx, t, r, ns, la, mid);
  }

  lemma StoredIndexed(slots: seq<Slot>, idx: seq<seq<int>>, t: Slot, r: nat, ns: nat, la: nat, mid: seq<seq<int>>)
    requires Consistent(slots, idx) && ns < 2 && la < |idx[ns]| && idx[ns][la] == -1
    requires Stored(slots[la % |slots|], t, r, ns, la)
    requires var sl := slots[la % |slots|];
             if r < sl.len then var e := sl.ents[r];
               e.nsid < 2 && e.lpn < |idx[e.nsid]| && mid == SetAt(idx, e.nsid, e.lpn, -1)
             else mid == idx
    ensures |mid| == 2 && la < |mid[ns]|
    ensures var after, fin := slots[la % |slots| := t], SetAt(mid, ns, la, r);
            forall x, i :: 0 <= x < |after| && 0 <= i < after[x].len && i < |after[x].ents|
              ==> Indexed(after, fin, x, after[x].ents[i], i)
  {
    hide Held;
    var s := la % |slots|;
    var after, fin := slots[s := t], SetAt(mid, ns, la, r);
    if r < slots[s].len { assert Indexed(slots, idx, s, slots[s].ents[r], r); }
    forall x, i | 0 <= x < |after| && 0 <= i < after[x].len && i < |after[x].ents|
      ensures Indexed(after, fin, x, after[x].ents[i], i)
    {
      if x != s || i != r { assert Indexed(slots, idx, x, slots[x].ents[i], i); }
    }
  }

  ghost predicate SlotOk(sl: Slot, uses: seq<nat>, slotSize: nat) {
    |sl.ents| == slotSize && Linked(sl, ByRecency(uses))
  }

  lemma EmptySlot(ents: seq<Entry>)
    ensures Linked(Slot(0, 0, 0, ents), ByRecency([]))
  {
    assert ByRecency([]) == [];
  }

  lemma EmptyConsistent(slots: seq<Slot>, idx: seq<seq<int>>)
    requires |slots| >= 1 && |idx| == 2 && (forall s :: 0 <= s < |slots| ==> slots[s].len == 0)
    requires forall ns, lpn :: 0 <= ns < 2 && 0 <= lpn < |idx[ns]| ==> idx[ns][lpn] == -1
    ensures Consistent(slots, idx)
  {}

  // ---- The operations, slot by slot ----

  class L2pCache {
    const slotSize: nat
    const lruPolicy: bool      // evict_policy is LRU or NONE, which behave alike
    const slots: array<Slot>
    const idx0: array<int>     // l2pcache_idx of namespace 0
    const idx1: array<int>     // l2pcache_idx of namespace 1
    ghost var uses: seq<seq<nat>>

    ghost predicate Valid()
      reads this, slots
    {
      && slots.Length >= 1 && slotSize >= 1 && idx0 != idx1 && |uses| == slots.Length
      && forall s :: 0 <= s < slots.Length ==> SlotOk(slots[s], uses[s], slotSize)
    }

    ghost function Idx(): seq<seq<int>>
      reads idx0, idx1
    {
      [idx0[..], idx1[..]]
    }

    ghost predicate Agree()
      reads this, slots, idx0, idx1
    {
      Consistent(slots[..], Idx())
    }

    /** ssd_init_l2pcache and the index arrays of the two namespaces. */
    constructor (numSlots: nat, size: nat, lru: bool, lpns0: nat, lpns1: nat)
      requires numSlots >= 1 && size >= 1
      ensures Valid() && Agree() && slotSize == size && slots.Length == numSlots && idx0.Length == lpns0 && idx1.Length == lpns1
      ensures fresh(slots) && fresh(idx0) && fresh(idx1) && lruPolicy == lru
      ensures forall s :: 0 <= s < numSlots ==> slots[s].len == 0 && forall e :: e in slots[s].ents ==> !e.resident
      ensures forall i :: 0 <= i < lpns0 ==> idx0[i] == -1
      ensures forall i :: 0 <= i < lpns1 ==> idx1[i] == -1
    {
      slotSize, lruPolicy := size, lru;
      var ents := seq(size, _ => Entry(0, 0, 0, false, -1, -1));
      slots := new Slot[numSlots](_ => Slot(0, 0, 0, ents));
      idx0 := new int[lpns0](_ => -1);
      idx1 := new int[lpns1](_ => -1);
      uses := seq(numSlots, _ => []);
      new;
      hide Linked, Consistent, ByRecency;
      EmptySlot(ents);
      EmptyConsistent(slots[..], Idx());
    }

    /** set_l2pcacheidx: out of range is only reported. */
    method SetIndex(ns: nat, lpn: nat, i: int)
      requires ns < 2 && idx0 != idx1
      modifies idx0, idx1
      ensures Idx() == if lpn < |old(Idx())[ns]| then SetAt(old(Idx()), ns, lpn, i) else old(Idx())
    {
      if ns == 0 {
        if lpn >= idx0.Length { return; }
        idx0[lpn] := i;
      } else {
        if lpn >= idx1.Length { return; }
        idx1[lpn] := i;
      }
    }

    /** get_l2pcacheidx */
    method GetIndex(ns: nat, lpn: nat) returns (i: int)
      requires ns < 2
      ensures i == if lpn < |Idx()[ns]| then Idx()[ns][lpn] else -1
    {
      if ns == 0 {
        if lpn >= idx0.Length { return -1; }
        return idx0[lpn];
      }
      if lpn >= idx1.Length { return -1; }
      return idx1[lpn];
    }

    /** The relinking that l2p_access and l2p_replace share. */
    method MoveToTail(s: nat, i: nat)
      requires s < slots.Length && i < |slots[s].ents| && 0 <= slots[s].tail < |slots[s].ents|
      requires 0 <= slots[s].ents[i].next < |slots[s].ents| && slots[s].ents[i].next != i
      requires i != slots[s].head ==> 0 <= slots[s].ents[i].last < |slots[s].ents| && slots[s].ents[i].last != i
      modifies slots
      ensures slots[..] == old(slots[..])[s := MovedToTail(old(slots[s]), i)]
    {
      if i == slots[s].head {
        slots[s] := slots[s].(head := slots[s].ents[i].next);
        slots[s] := SetLast(slots[s], slots[s].head, -1);
      } else {
        var last := slots[s].ents[i].last;
        var next := slots[s].ents[i].next;
        slots[s] := SetNext(slots[s], last, next);
        slots[s] := SetLast(slots[s], next, last);
      }
      slots[s] := SetLast(slots[s], i, slots[s].tail);
      slots[s] := SetNext(slots[s], i, -1);
      slots[s] := SetNext(slots[s], slots[s].tail, i);
      slots[s] := slots[s].(tail := i);
    }

    /** Entry i becomes the last of its slot's list. */
    method Touch(s: nat, i: nat, ghost order: seq<nat>)
      requires s < slots.Length && Linked(slots[s], order) && i in order
      modifies slots
      ensures slots[..] == old(slots[..])[s := slots[s]] && SamePayload(old(slots[s]), slots[s])
      ensures Linked(slots[s], Touched(order, i)) && i < slots[s].len <= |slots[s].ents|
    {
      hide Linked, Touched, MovedToTail, NoDup;
      ghost var sl := slots[s];
      InOrder(sl, order, i);
      if i != slots[s].tail {
        LinkedPrefix(sl, order, i);
        MovedToTailLinked(sl, order, i);
        MoveToTail(s, i);
      } else {
        TailTouched(sl, order, i);
        assert slots[..] == old(slots[..])[s := sl];
      }
    }

    /** l2p_access: the entry becomes the most recently used; index -1 is only reported. */
    method Access(la: nat, i: int)
      requires Valid() && (i == -1 || 0 <= i < slots[la % slots.Length].len)
      modifies this`uses, slots
      ensures Valid()
      ensures var s := la % slots.Length;
              && uses == (if i == -1 then old(uses) else old(uses)[s := old(uses)[s] + [i]])
              && SamePayload(old(slots[s]), slots[s]) && slots[..] == old(slots[..])[s := slots[s]]
      ensures old(Agree()) ==> Agree()
    {
      hide Linked, Consistent, ByRecency, Touched, MovedToTail;
      if i == -1 {
        assert slots[..] == old(slots[..])[la % slots.Length := slots[la % slots.Length]];
        return;
      }
      var s := la % slots.Length;
      ghost var sl, order := slots[s], ByRecency(uses[s]);
      UseIsTouch(uses[s], i);
      InUse(sl, order, i);
      Touch(s, i, order);
      uses := uses[s := uses[s] + [i]];
      if old(Agree()) { SamePayloadConsistent(old(slots[..]), Idx(), s, slots[s]); }
    }

    /** An entry of slot s now caches page la of namespace ns. */
    method Fill(s: nat, i: nat, ns: nat, la: nat, gran: int, res: bool)
      requires s < slots.Length && i < |slots[s].ents|
      modifies slots
      ensures slots[..] == old(slots[..])[s := Filled(old(slots[s]), i, ns, la, gran, res)]
    {
      var e := slots[s].ents[i];
      e := e.(lpn := la);
      e := e.(granularity := gran);
      e := e.(resident := res);
      e := e.(nsid := ns);
      slots[s] := slots[s].(ents := slots[s].ents[i := e]);
    }

    /** The walk of l2p_replace from the head past resident entries. */
    method FindVictim(s: nat) returns (evict: int)
      requires s < slots.Length && s < |uses| && slots[s].len >= 1 && Linked(slots[s], ByRecency(uses[s]))
      ensures Within(ByRecency(uses[s]), |slots[s].ents|)
      ensures evict == VictimOf(slots[s].ents, ByRecency(uses[s]))
    {
      hide ByRecency, NoDup;
      ghost var order, ents := ByRecency(uses[s]), slots[s].ents;
      forall k | 0 <= k < |order| ensures LinkedAt(slots[s], order, k) && order[k] < |ents| {}
      ghost var k := 0;
      evict := slots[s].head;
      while evict != slots[s].tail && slots[s].ents[evict].resident
        invariant k < |order| && evict == order[k] && ResidentUpTo(ents, order, k)
        decreases |order| - k
      {
        if k + 1 == |order| { assert false; }
        evict := slots[s].ents[evict].next;
        k := k + 1;
      }
      if evict == slots[s].tail && slots[s].ents[evict].resident {
        TailIsLast(slots[s], order, k);
        VictimIsOldest(ents, order, k + 1);
        return -1;
      }
      VictimIsOldest(ents, order, k);
    }

    /**
      l2p_replace on a full slot: takes the least recently used entry that is not resident; fails,
      changing nothing, exactly when there is none (or the policy is unknown). The evicted page's
      namespace forgets its index.
    */
    method Replace(ns: nat, la: nat, gran: int, res: bool) returns (r: int)
      requires Valid() && Agree() && ns < 2 && slots[la % slots.Length].len == slotSize
      requires la < |Idx()[ns]| && Idx()[ns][la] == -1
      modifies this`uses, slots, idx0, idx1
      ensures Valid()
      ensures var s := la % slots.Length; var order := ByRecency(old(uses[s]));
              && Within(order, |old(slots[s]).ents|)
              && r == (if lruPolicy then VictimOf(old(slots[s]).ents, order) else -1)
              && (r == -1 ==> Unchanged(old(slots[..]), old(Idx()), old(uses)))
              && (r != -1 ==> Inserted(old(slots[..]), old(Idx()), old(uses), ns, la, gran, res, r))
    {
      hide Linked, Consistent, ByRecency, Touched, MovedToTail, NoDup, Stored, SetAt, VictimOf, SamePayload;
      var s := la % slots.Length;
      ghost var sl, order := slots[s], ByRecency(uses[s]);
      ghost var slots0, idx := slots[..], Idx();
      var evict := FindVictim(s);
      if !lruPolicy { return -1; }
      if evict == -1 { return -1; }
      VictimInOrder(sl.ents, order);
      InOrder(sl, order, evict);
      Touch(s, evict, order);
      ghost var mid := slots[s];
      ForgetOwner(slots0, idx, s, sl, mid, evict);
      SetIndex(slots[s].ents[evict].nsid, slots[s].ents[evict].lpn, -1);
      Fill(s, evict, ns, la, gran, res);
      uses := uses[s := uses[s] + [evict]];
      UseIsTouch(old(uses[s]), evict);
      FilledLinked(mid, Touched(order, evict), evict, ns, la, gran, res);
      EvictedConsistent(slots0, idx, mid, evict, ns, la, gran, res);
      assert slots[s] == Filled(mid, evict, ns, la, gran, res);
      assert slots[..] == slots0[s := slots[s]];
      return evict;
    }

    /** l2p_insert: an unused entry while the slot has one, otherwise the victim's. */
    method Insert(ns: nat, la: nat, gran: int, res: bool) returns (r: int)
      requires Valid() && Agree() && ns < 2 && la < |Idx()[ns]| && Idx()[ns][la] == -1
      modifies this`uses, slots, idx0, idx1
      ensures Valid()
      ensures var s := la % slots.Length; var order := ByRecency(old(uses[s]));
              && Within(order, |old(slots[s]).ents|)
              && r == (if old(slots[s]).len < slotSize then old(slots[s]).len
                       else if lruPolicy then VictimOf(old(slots[s]).ents, order) else -1)
              && (r == -1 ==> Unchanged(old(slots[..]), old(Idx()), old(uses)))
              && (r != -1 ==> Inserted(old(slots[..]), old(Idx()), old(uses), ns, la, gran, res, r))
    {
      hide Linked, Consistent, ByRecency, Touched, NoDup;
      var s := la % slots.Length;
      ghost var sl, order := slots[s], ByRecency(uses[s]);
      ghost var slots0, idx := slots[..], Idx();
      LinkedWithin(sl, order);
      if slots[s].len == slotSize {
        r := Replace(ns, la, gran, res);
        return;
      }
      r := Append(s, ns, la, gran, res, order);
      uses := uses[s := uses[s] + [r]];
      UseIsTouch(old(uses[s]), r);
      NotYetUsed(sl, order);
      StoredConsistent(slots0, idx, slots[s], r, ns, la, idx);
    }

    /** The part of l2p_insert for a slot that still has unused entries. */
    method Append(s: nat, ns: nat, la: nat, gran: int, res: bool, ghost order: seq<nat>) returns (i: int)
      requires s < slots.Length && Linked(slots[s], order) && slots[s].len < |slots[s].ents|
      modifies slots
      ensures i == old(slots[s]).len && slots[..] == old(slots[..])[s := slots[s]]
      ensures Linked(slots[s], order + [i]) && Stored(old(slots[s]), slots[s], i, ns, la)
      ensures slots[s].ents[i].granularity == gran && slots[s].ents[i].resident == res
    {
      hide Linked, NoDup, Stored;
      AppendedLinked(slots[s], order, ns, la, gran, res);
      i := slots[s].len;
      var tail := slots[s].tail;
      Fill(s, i, ns, la, gran, res);
      slots[s] := SetNext(slots[s], i, -1);
      if i == 0 {
        slots[s] := SetLast(slots[s], i, -1);
      } else {
        slots[s] := SetLast(slots[s], i, tail);
        slots[s] := SetNext(slots[s], tail, i);
        slots[s] := slots[s].(tail := i);
      }
      slots[s] := slots[s].(len := i + 1);
    }

    /** l2p_insert and the set_l2pcacheidx that every caller does next (map_read, pre-read, set_map_gran). */
    method InsertAndRecord(ns: nat, la: nat, gran: int, res: bool) returns (r: int)
      requires Valid() && Agree() && ns < 2 && la < |Idx()[ns]| && Idx()[ns][la] == -1
      modifies this`uses, slots, idx0, idx1
      ensures Valid() && Agree() && |Idx()[ns]| == |old(Idx())[ns]| && Idx()[ns][la] == r
      ensures r == -1 <==> NoRoom(old(slots[la % slots.Length]))
      ensures r == -1 ==> Unchanged(old(slots[..]), old(Idx()), old(uses))
      ensures r != -1 ==> Cached(old(slots[..]), old(uses), ns, la, gran, res, r)
    {
      hide Linked, Consistent, ByRecency, Touched, NoDup, VictimOf;
      NoVictim(slots[la % slots.Length], ByRecency(uses[la % slots.Length]));
      r := Insert(ns, la, gran, res);
      SetIndex(ns, la, r);
      if r == -1 { SameIndex(old(Idx()), ns, la); }
    }

    /** The cache side of set_map_gran: insert, or update the granularity of the entry already there. */
    method SetMapGran(ns: nat, la: nat, gran: int, res: bool)
      requires Valid() && Agree() && ns < 2 && la < |Idx()[ns]|
      modifies this`uses, slots, idx0, idx1
      ensures Valid() && Agree() && |Idx()[ns]| == |old(Idx())[ns]|
      ensures old(Idx())[ns][la] == -1 ==>
                && (Idx()[ns][la] == -1 <==> NoRoom(old(slots[la % slots.Length])))
                && (Idx()[ns][la] == -1 ==> Unchanged(old(slots[..]), old(Idx()), old(uses)))
                && (Idx()[ns][la] != -1 ==> Cached(old(slots[..]), old(uses), ns, la, gran, res, Idx()[ns][la]))
      ensures old(Idx())[ns][la] != -1 ==>
                && Idx() == old(Idx()) && uses == old(uses) && Held(slots[..], ns, la, Idx()[ns][la])
                && OnlyEntry(old(slots[..]), la % slots.Length, Idx()[ns][la], gran, res)
    {
      hide Linked, Consistent, ByRecency, Touched, NoDup, NoRoom, Cached;
      var i := GetIndex(ns, la);
      if i == -1 {
        i := InsertAndRecord(ns, la, gran, res);
      } else {
        var s := la % slots.Length;
        ghost var slots0, sl := slots[..], slots[s];
        IndexExactlyWhenHeld(slots0, Idx(), ns, la, i);
        var e := slots[s].ents[i];
        slots[s] := slots[s].(ents := slots[s].ents[i := e.(granularity := gran, resident := res)]);
        assert slots[s] == Filled(sl, i, ns, la, gran, res);
        FilledLinked(sl, ByRecency(uses[s]), i, ns, la, gran, res);
        SameOwnersConsistent(slots0, Idx(), s, slots[s]);
        assert slots[..] == slots0[s := slots[s]];
        IndexExactlyWhenHeld(slots[..], Idx(), ns, la, i);
      }
    }

    /** Of all entries only the granularity and residency of entry i of slot s changed. */
    ghost predicate OnlyEntry(slots0: seq<Slot>, s: nat, i: int, gran: int, res: bool)
      reads this, slots
    {
      && s < |slots0| && 0 <= i < |slots0[s].ents|
      && slots[..] == slots0[s := slots0[s].(ents := slots0[s].ents[i := slots0[s].ents[i].(granularity := gran, resident := res)])]
    }

    /** The slot is full and nothing in it may be evicted. */
    ghost predicate NoRoom(sl: Slot) {
      sl.len == slotSize && (!lruPolicy || forall i :: 0 <= i < sl.len && i < |sl.ents| ==> sl.ents[i].resident)
    }

    /** The page is cached in entry r with this granularity and residency, as the most recently used of its slot. */
    ghost predicate Cached(slots0: seq<Slot>, uses0: seq<seq<nat>>, ns: nat, la: nat, gran: int, res: bool, r: int)
      requires slots.Length >= 1
      reads this, slots
    {
      var s := la % slots.Length;
      && s < |slots0| && s < |uses0| && 0 <= r < |slots[s].ents| && r < slots[s].len
      && slots[s].ents[r] == Entry(ns, la, gran, res, slots[s].ents[r].next, slots[s].ents[r].last)
      && uses == uses0[s := uses0[s] + [r]] && slots[..] == slots0[s := slots[s]] && |slots[s].ents| == |slots0[s].ents|
      && forall i :: 0 <= i < |slots0[s].ents| && i != r ==>
           slots[s].ents[i] == slots0[s].ents[i].(next := slots[s].ents[i].next, last := slots[s].ents[i].last)
    }

    /** Nothing changed. */
    ghost predicate Unchanged(slots0: seq<Slot>, idx: seq<seq<int>>, uses0: seq<seq<nat>>)
      reads this, slots, idx0, idx1
    {
      slots[..] == slots0 && Idx() == idx && uses == uses0
    }

    /**
      Entry r of la's slot now caches la and is the most recently used; the other slots are as
      they were; and once the caller records r, indices and entries agree.
    */
    ghost predicate Inserted(slots0: seq<Slot>, idx: seq<seq<int>>, uses0: seq<seq<nat>>, ns: nat, la: nat, gran: int,
                             res: bool, r: int)
      requires slots.Length >= 1
      reads this, slots, idx0, idx1
    {
      var s := la % slots.Length;
      && s < |slots0| && s < |uses0| && r >= 0
      && uses == uses0[s := uses0[s] + [r]] && slots[..] == slots0[s := slots[s]]
      && Stored(slots0[s], slots[s], r, ns, la)
      && slots[s].ents[r].granularity == gran && slots[s].ents[r].resident == res
      && ns < |Idx()| == |idx| && la < |Idx()[ns]| == |idx[ns]| && Consistent(slots[..], SetAt(Idx(), ns, la, r))
    }
  }

  lemma UseIsTouch(uses: seq<nat>, i: nat)
    ensures ByRecency(uses + [i]) == Touched(ByRecency(uses), i)
  {
    assert (uses + [i])[..|uses|] == uses;
  }

  lemma InUse(sl: Slot, order: seq<nat>, i: nat)
    requires Linked(sl, order) && i < sl.len
    ensures i in order && i < |sl.ents|
  {}

  /** Using the tail changes nothing. */
  lemma TailTouched(sl: Slot, order: seq<nat>, i: nat)
    requires Linked(sl, order) && i in order && i == sl.tail
    ensures Touched(order, i) == order
  {
    WithoutAt(order, |order| - 1);
    assert order[..|order| - 1] + [order[|order| - 1]] == order;
  }

  function Filled(sl: Slot, i: nat, ns: nat, la: nat, gran: int, res: bool): Slot
    requires i < |sl.ents|
  {
    sl.(ents := sl.ents[i := sl.ents[i].(nsid := ns, lpn := la, granularity := gran, resident := res)])
  }

  lemma FilledLinked(sl: Slot, order: seq<nat>, i: nat, ns: nat, la: nat, gran: int, res: bool)
    requires Linked(sl, order) && i < |sl.ents|
    ensures Linked(Filled(sl, i, ns, la, gran, res), order)
  {
    var t := Filled(sl, i, ns, la, gran, res);
    forall k | 0 <= k < |order| ensures LinkedAt(t, order, k) { assert LinkedAt(sl, order, k); }
  }

  lemma FilledStored(sl: Slot, mid: Slot, i: nat, ns: nat, la: nat, gran: int, res: bool)
    requires SamePayload(sl, mid) && i < sl.len <= |sl.ents|
    ensures Stored(sl, Filled(mid, i, ns, la, gran, res), i, ns, la)
  {}

  lemma TailIsLast(sl: Slot, order: seq<nat>, k: nat)
    requires Linked(sl, order) && k < |order| && order[k] == sl.tail
    ensures k + 1 == |order|
  {}

  lemma {:induction false} VictimInOrder(ents: seq<Entry>, order: seq<nat>)
    requires Within(order, |ents|) && VictimOf(ents, order) != -1
    ensures VictimOf(ents, order) in order
  {
    if ents[order[0]].resident { VictimInOrder(ents, order[1..]); }
  }

  lemma InOrder(sl: Slot, order: seq<nat>, i: nat)
    requires Linked(sl, order) && i in order
    ensures i < sl.len <= |sl.ents|
  {}

  /** There is no victim exactly when every entry in use is resident. */
  lemma NoVictim(sl: Slot, order: seq<nat>)
    requires Linked(sl, order)
    ensures Within(order, |sl.ents|) && sl.len <= |sl.ents|
    ensures VictimOf(sl.ents, order) == -1 <==> forall i :: 0 <= i < sl.len && i < |sl.ents| ==> sl.ents[i].resident
  {
    LinkedWithin(sl, order);
    hide LinkedAt, NoDup;
    if k :| 0 <= k < |order| && !sl.ents[order[k]].resident {
      VictimFound(sl.ents, order, k);
      assert order[k] in order;
    } else {
      VictimIsOldest(sl.ents, order, |order|);
      forall i | 0 <= i < sl.len ensures sl.ents[i].resident { var k := Position(order, i); }
    }
  }

  lemma {:induction false} VictimFound(ents: seq<Entry>, order: seq<nat>, k: nat)
    requires Within(order, |ents|) && k < |order| && !ents[order[k]].resident
    ensures VictimOf(ents, order) != -1
  {
    if k > 0 {
      assert forall j :: 0 <= j < |order| - 1 ==> order[1..][j] == order[j + 1];
      VictimFound(ents, order[1..], k - 1);
    }
  }

  /** The entry being evicted names an index that points to it. */
  lemma ForgetOwner(slots: seq<Slot>, idx: seq<seq<int>>, s: nat, sl: Slot, mid: Slot, i: nat)
    requires Consistent(slots, idx) && s < |slots| && sl == slots[s] && i < sl.len <= |sl.ents| && SamePayload(sl, mid)
    ensures |mid.ents| == |sl.ents| && |idx| == 2
    ensures var e := mid.ents[i];
            e.nsid == sl.ents[i].nsid < 2 && e.lpn == sl.ents[i].lpn < |idx[e.nsid]|
  {
    assert Indexed(slots, idx, s, sl.ents[i], i);
  }

  /** Eviction done: the new page's entry is stored and indices and entries agree once it is recorded. */
  lemma EvictedConsistent(slots: seq<Slot>, idx: seq<seq<int>>, mid: Slot, i: nat, ns: nat, la: nat, gran: int, res: bool)
    requires Consistent(slots, idx) && ns < 2 && la < |idx[ns]| && idx[ns][la] == -1
    requires var sl := slots[la % |slots|]; SamePayload(sl, mid) && i < sl.len <= |sl.ents|
    ensures |mid.ents| == |slots[la % |slots|].ents| && mid.ents[i].nsid < 2 && mid.ents[i].lpn < |idx[mid.ents[i].nsid]|
    ensures var t, forgot := Filled(mid, i, ns, la, gran, res), SetAt(idx, mid.ents[i].nsid, mid.ents[i].lpn, -1);
            && |forgot| == 2 && la < |forgot[ns]| == |idx[ns]| && Stored(slots[la % |slots|], t, i, ns, la)
            && Consistent(slots[la % |slots| := t], SetAt(forgot, ns, la, i))
  {
    var s := la % |slots|;
    ForgetOwner(slots, idx, s, slots[s], mid, i);
    FilledStored(slots[s], mid, i, ns, la, gran, res);
    hide SamePayload, Consistent, Stored, Filled;
    StoredConsistent(slots, idx, Filled(mid, i, ns, la, gran, res), i, ns, la, SetAt(idx, mid.ents[i].nsid, mid.ents[i].lpn, -1));
  }

  lemma LinkedWithin(sl: Slot, order: seq<nat>)
    requires Linked(sl, order)
    ensures Within(order, |sl.ents|) && sl.len <= |sl.ents|
  {
    forall k | 0 <= k < |order| ensures LinkedAt(sl, order, k) && order[k] < |sl.ents| {}
  }

  lemma NotYetUsed(sl: Slot, order: seq<nat>)
    requires Linked(sl, order)
    ensures Touched(order, sl.len) == order + [sl.len]
  {
    WithoutAbsent(order, sl.len);
  }

  /** The first unused entry appended to the list. */
  lemma AppendedLinked(sl: Slot, order: seq<nat>, ns: nat, la: nat, gran: int, res: bool)
    requires Linked(sl, order) && sl.len < |sl.ents|
    ensures sl.len > 0 ==> 0 <= sl.tail < |sl.ents|
    ensures var i := sl.len; var f := SetNext(Filled(sl, i, ns, la, gran, res), i, -1);
            var g := if i == 0 then SetLast(f, i, -1)
                     else SetNext(SetLast(f, i, sl.tail), sl.tail, i).(tail := i);
            Linked(g.(len := i + 1), order + [i]) && Stored(sl, g.(len := i + 1), i, ns, la)
  {
    var i := sl.len;
    var o := order + [i];
    LinkedWithin(sl, order);
    if i > 0 { assert LinkedAt(sl, order, i - 1); }
    var f := SetNext(Filled(sl, i, ns, la, gran, res), i, -1);
    var g := if i == 0 then SetLast(f, i, -1) else SetNext(SetLast(f, i, sl.tail), sl.tail, i).(tail := i);
    var t := g.(len := i + 1);
    AppendNoDup(order, i);
    forall k | 0 <= k < |o| ensures LinkedAt(t, o, k) {
      if k < i { assert LinkedAt(sl, order, k) && order[k] in order; }
    }
  }

  lemma SameIndex(idx: seq<seq<int>>, ns: nat, lpn: nat)
    requires ns < |idx| && lpn < |idx[ns]| && idx[ns][lpn] == -1
    ensures SetAt(idx, ns, lpn, -1) == idx
  {
    assert idx[ns][lpn := -1] == idx[ns];
  }

  lemma SameOwnersConsistent(slots: seq<Slot>, idx: seq<seq<int>>, s: nat, t: Slot)
    requires Consistent(slots, idx) && s < |slots| && t.len == slots[s].len && |t.ents| == |slots[s].ents|
    requires forall i :: 0 <= i < |t.ents| ==> t.ents[i].nsid == slots[s].ents[i].nsid && t.ents[i].lpn == slots[s].ents[i].lpn
    ensures Consistent(slots[s := t], idx)
  {
    var after := slots[s := t];
    forall ns: nat, lpn: nat | ns < 2 && lpn < |idx[ns]| && idx[ns][lpn] != -1 ensures Held(after, ns, lpn, idx[ns][lpn]) {
      assert Held(slots, ns, lpn, idx[ns][lpn]);
    }
    forall x, i | 0 <= x < |after| && 0 <= i < after[x].len && i < |after[x].ents|
      ensures Indexed(after, idx, x, after[x].ents[i], i)
    {
      assert Indexed(slots, idx, x, slots[x].ents[i], i);
    }
  }
}
