/**
  The I/O work queue of io.c: one array whose entries are chained into a free list and a list of
  requests sorted by target time. Dispatcher steps (enqueue, reclaim) and the worker's visits
  interleave freely; the worker may still stand on an entry that was reclaimed meanwhile.
*/
module WorkQueues {
  import opened Basics

  datatype Work = Work(target: nat, isCopied: bool, isCompleted: bool, isInternal: bool, next: int, prev: int)

  // ---- Lists threaded through the array ----

  function NextIn(list: seq<nat>, k: nat): int { if k + 1 < |list| then list[k + 1] else -1 }

  function PrevIn(list: seq<nat>, k: nat): int
    requires k < |list|
  {
    if k > 0 then list[k - 1] else -1
  }

  ghost predicate Chained(q: seq<Work>, list: seq<nat>) {
    && (forall k :: 0 <= k < |list| ==> list[k] < |q|)
    && forall k {:trigger NextIn(list, k)} :: 0 <= k < |list| ==> q[list[k]].next == NextIn(list, k)
  }

  ghost predicate BackChained(q: seq<Work>, list: seq<nat>) {
    && (forall k :: 0 <= k < |list| ==> list[k] < |q|)
    && forall k {:trigger PrevIn(list, k)} :: 0 <= k < |list| ==> q[list[k]].prev == PrevIn(list, k)
  }

  /** Free list and io list share out the array. */
  ghost predicate Partition(free: seq<nat>, io: seq<nat>, n: nat) {
    && NoDup(free) && NoDup(io)
    && forall i: nat :: (i < n <==> i in free || i in io) && !(i in free && i in io)
  }

  function Max(a: nat, b: nat): nat { if a >= b then a else b }

  /** Sorted by target, except that what is already due may stand in any order. */
  ghost predicate Sorted(q: seq<Work>, io: seq<nat>, latest: nat)
    requires forall k :: 0 <= k < |io| ==> io[k] < |q|
  {
    forall a, b :: 0 <= a < b < |io| ==> q[io[a]].target <= Max(q[io[b]].target, latest)
  }

  /** Equal targets keep their order of arrival. */
  ghost predicate Fifo(q: seq<Work>, io: seq<nat>, arrival: seq<nat>)
    requires |arrival| == |q| && forall k :: 0 <= k < |io| ==> io[k] < |q|
  {
    forall a, b :: 0 <= a < b < |io| && q[io[a]].target == q[io[b]].target ==> arrival[io[a]] < arrival[io[b]]
  }

  /** Every request was completed exactly once or still waits on the io list. */
  ghost predicate Accounted(q: seq<Work>, io: seq<nat>, arrival: seq<nat>, issued: nat, done: seq<nat>)
    requires |arrival| == |q| && forall k :: 0 <= k < |io| ==> io[k] < |q|
  {
    && NoDup(done) && (forall r :: r in done ==> r < issued)
    && (forall k :: 0 <= k < |io| ==> arrival[io[k]] < issued)
    && (forall a, b :: 0 <= a < b < |io| ==> arrival[io[a]] != arrival[io[b]])
    && (forall k :: 0 <= k < |io| ==> (q[io[k]].isCompleted <==> arrival[io[k]] in done))
    && forall r: nat :: r < issued && r !in done ==> exists k :: 0 <= k < |io| && arrival[io[k]] == r
  }

  /** Entries that were used once come after the never-used ones on the free list, and stay completed. */
  ghost predicate UsedOnesDone(q: seq<Work>, free: seq<nat>, unused: nat)
    requires forall k :: 0 <= k < |free| ==> free[k] < |q|
  {
    unused <= |free| && forall k :: unused <= k < |free| ==> q[free[k]].isCompleted
  }

  /** Where the worker can stand: off the lists, on a request, or on an entry reclaimed under it. */
  ghost predicate WorkerSafe(curr: int, free: seq<nat>, io: seq<nat>, unused: nat) {
    curr == -1 || (exists k :: 0 <= k < |io| && io[k] == curr) || exists k :: unused <= k < |free| && free[k] == curr
  }

  ghost predicate ListsOk(q: seq<Work>, free: seq<nat>, io: seq<nat>, freeSeq: int, freeSeqEnd: int, ioSeq: int, ioSeqEnd: int) {
    && |free| >= 1 && freeSeq == free[0] && freeSeqEnd == free[|free| - 1] && Chained(q, free)
    && Chained(q, io) && BackChained(q, io)
    && (if io == [] then ioSeq == -1 else ioSeq == io[0] && ioSeqEnd == io[|io| - 1])
    && Partition(free, io, |q|)
  }

  /** What the history says about the entries. */
  ghost predicate HistoryOk(q: seq<Work>, free: seq<nat>, io: seq<nat>, unused: nat, latest: nat, arrival: seq<nat>,
                            issued: nat, done: seq<nat>) {
    && |arrival| == |q| && (forall k :: 0 <= k < |io| ==> io[k] < |q|) && (forall k :: 0 <= k < |free| ==> free[k] < |q|)
    && Sorted(q, io, latest) && Fifo(q, io, arrival) && Accounted(q, io, arrival, issued, done)
    && UsedOnesDone(q, free, unused)
  }

  // ---- Insertion ----

  function InsertedAt(io: seq<nat>, p: nat, e: nat): seq<nat>
    requires p <= |io|
  {
    io[..p] + [e] + io[p..]
  }

  /** A place that keeps the order: everything behind it is later, the request before it is not, or was due by `latest`. */
  ghost predicate FitsAt(q: seq<Work>, io: seq<nat>, latest: nat, target: nat, p: nat)
    requires forall k :: 0 <= k < |io| ==> io[k] < |q|
  {
    && p <= |io|
    && (forall k :: p <= k < |io| ==> q[io[k]].target > target)
    && (p > 0 ==> q[io[p - 1]].target <= latest || q[io[p - 1]].target <= target)
  }

  /** Where the scan from the end of the list stops. */
  ghost predicate InsertPoint(q: seq<Work>, io: seq<nat>, latest: nat, target: nat, p: nat)
    requires forall k :: 0 <= k < |io| ==> io[k] < |q|
  {
    FitsAt(q, io, latest, target, p) && forall k :: p <= k < |io| ==> q[io[k]].target > latest
  }

  lemma FitsLater(q: seq<Work>, io: seq<nat>, latest: nat, peak: nat, target: nat, p: nat)
    requires (forall k :: 0 <= k < |io| ==> io[k] < |q|) && InsertPoint(q, io, latest, target, p) && latest <= peak
    ensures FitsAt(q, io, peak, target, p)
  {}

  /** The three relinking cases of __insert_req_sorted. */
  function Relinked(q: seq<Work>, io: seq<nat>, p: nat, e: nat): seq<Work>
    requires p <= |io| && e < |q| && (forall k :: 0 <= k < |io| ==> io[k] < |q|)
  {
    if io == [] then q
    else if p == 0 then
      var a := q[io[0] := q[io[0]].(prev := e)];
      a[e := a[e].(next := io[0])]
    else if p == |io| then
      var a := q[e := q[e].(prev := io[p - 1])];
      a[io[p - 1] := a[io[p - 1]].(next := e)]
    else
      var a := q[e := q[e].(prev := io[p - 1], next := io[p])];
      var b := a[io[p] := a[io[p]].(prev := e)];
      b[io[p - 1] := b[io[p - 1]].(next := e)]
  }

  lemma InsertedMembers(io: seq<nat>, p: nat, e: nat)
    requires p <= |io|
    ensures forall i :: i in InsertedAt(io, p, e) <==> i in io || i == e
  {
    var o := InsertedAt(io, p, e);
    assert o[p] == e;
    forall i | i in io ensures i in o {
      var k :| 0 <= k < |io| && io[k] == i;
      assert o[if k < p then k else k + 1] == i;
    }
  }

  lemma RelinkedChained(q: seq<Work>, io: seq<nat>, p: nat, e: nat)
    requires Chained(q, io) && BackChained(q, io) && NoDup(io) && p <= |io| && e < |q| && e !in io
    requires q[e].next == -1 && q[e].prev == -1
    ensures var r, o := Relinked(q, io, p, e), InsertedAt(io, p, e);
            |r| == |q| && Chained(r, o) && BackChained(r, o) && NoDup(o)
  {
    var r, o := Relinked(q, io, p, e), InsertedAt(io, p, e);
    InsertedNoDup(io, p, e);
    hide Relinked, NextIn, PrevIn, NoDup, Chained, BackChained;
    forall k | 0 <= k < |o| ensures o[k] < |r| && r[o[k]].next == NextIn(o, k) && r[o[k]].prev == PrevIn(o, k) {
      RelinkedAt(q, io, p, e, k);
    }
    ChainedAll(r, o);
  }

  lemma ChainedAll(q: seq<Work>, list: seq<nat>)
    requires forall k :: 0 <= k < |list| ==> list[k] < |q|
    requires forall k {:trigger NextIn(list, k)} :: 0 <= k < |list| ==> q[list[k]].next == NextIn(list, k)
    requires forall k {:trigger PrevIn(list, k)} :: 0 <= k < |list| ==> q[list[k]].prev == PrevIn(list, k)
    ensures Chained(q, list) && BackChained(q, list)
  {}

  /** Which links the insertion sets. */
  lemma RelinkedLinks(q: seq<Work>, io: seq<nat>, p: nat, e: nat, i: nat)
    requires p <= |io| && e < |q| && (forall k :: 0 <= k < |io| ==> io[k] < |q|) && i < |q|
    requires (p > 0 ==> io[p - 1] != e) && (p < |io| ==> io[p] != e) && (0 < p < |io| ==> io[p - 1] != io[p])
    requires q[e].next == -1 && q[e].prev == -1
    ensures var r := Relinked(q, io, p, e);
            && |r| == |q|
            && r[i].next == (if i == e then (if p < |io| then io[p] else -1)
                             else if p > 0 && i == io[p - 1] then e else q[i].next)
            && r[i].prev == (if i == e then (if p > 0 then io[p - 1] else -1)
                             else if p < |io| && i == io[p] then e else q[i].prev)
  {}

  lemma RelinkedAt(q: seq<Work>, io: seq<nat>, p: nat, e: nat, k: nat)
    requires Chained(q, io) && BackChained(q, io) && NoDup(io) && p <= |io| && e < |q| && e !in io
    requires q[e].next == -1 && q[e].prev == -1 && k <= |io|
    ensures var r, o := Relinked(q, io, p, e), InsertedAt(io, p, e);
            o[k] < |r| && r[o[k]].next == NextIn(o, k) && r[o[k]].prev == PrevIn(o, k)
  {
    hide Relinked, InsertedAt, NoDup;
    InsertedFrom(io, p, e);
    if p > 0 { assert io[p - 1] in io; }
    if p < |io| { assert io[p] in io; }
    if 0 < p < |io| { SameSpot(io, p - 1, p); }
    if k == p {
      RelinkedLinks(q, io, p, e, e);
    } else {
      var x := if k < p then k else k - 1;
      assert io[x] in io && q[io[x]].next == NextIn(io, x) && q[io[x]].prev == PrevIn(io, x);
      RelinkedLinks(q, io, p, e, io[x]);
      if p > 0 { SameSpot(io, x, p - 1); }
      if p < |io| { SameSpot(io, x, p); }
    }
  }

  lemma SameSpot(s: seq<nat>, a: nat, b: nat)
    requires NoDup(s) && a < |s| && b < |s|
    ensures s[a] == s[b] ==> a == b
  {}

  lemma InsertedNoDup(io: seq<nat>, p: nat, e: nat)
    requires NoDup(io) && p <= |io| && e !in io
    ensures NoDup(InsertedAt(io, p, e))
  {
    var o := InsertedAt(io, p, e);
    forall i, j | 0 <= i < j < |o| ensures o[i] != o[j] {
      if i == p || j == p { assert io[if i == p then j - 1 else i] in io; }
    }
  }

  lemma RelinkedElsewhere(q: seq<Work>, io: seq<nat>, p: nat, e: nat)
    requires p <= |io| && e < |q| && (forall k :: 0 <= k < |io| ==> io[k] < |q|)
    ensures var r := Relinked(q, io, p, e);
            && |r| == |q|
            && forall i :: 0 <= i < |q| ==>
                 && r[i] == q[i].(next := r[i].next, prev := r[i].prev)
                 && (i != e && i !in io ==> r[i] == q[i])
  {
    var r := Relinked(q, io, p, e);
    forall i | 0 <= i < |q|
      ensures r[i] == q[i].(next := r[i].next, prev := r[i].prev) && (i != e && i !in io ==> r[i] == q[i])
    {
      if p > 0 { assert io[p - 1] in io; }
      if p < |io| { assert io[p] in io; }
    }
  }

  /** A request inserted at the insert point keeps the order, and first come stays first. */
  lemma InsertKeepsOrder(q: seq<Work>, io: seq<nat>, latest: nat, arrival: seq<nat>, issued: nat, p: nat, e: nat)
    requires |arrival| == |q| && (forall k :: 0 <= k < |io| ==> io[k] < |q| && arrival[io[k]] < issued)
    requires e < |q| && arrival[e] == issued && Sorted(q, io, latest) && Fifo(q, io, arrival)
    requires FitsAt(q, io, latest, q[e].target, p)
    ensures forall k :: 0 <= k < |InsertedAt(io, p, e)| ==> InsertedAt(io, p, e)[k] < |q|
    ensures Sorted(q, InsertedAt(io, p, e), latest) && Fifo(q, InsertedAt(io, p, e), arrival)
  {
    var o := InsertedAt(io, p, e);
    InsertedFrom(io, p, e);
    hide InsertedAt, Sorted, Fifo, FitsAt;
    forall a, b | 0 <= a < b < |o|
      ensures q[o[a]].target <= Max(q[o[b]].target, latest)
      ensures q[o[a]].target == q[o[b]].target ==> arrival[o[a]] < arrival[o[b]]
    {
      InsertedPair(q, io, latest, arrival, issued, p, e, a, b);
    }
    PairsAreOrder(q, o, latest, arrival);
  }

  lemma PairsAreOrder(q: seq<Work>, o: seq<nat>, latest: nat, arrival: seq<nat>)
    requires |arrival| == |q| && forall k :: 0 <= k < |o| ==> o[k] < |q|
    requires forall a, b :: 0 <= a < b < |o| ==> q[o[a]].target <= Max(q[o[b]].target, latest)
    requires forall a, b :: 0 <= a < b < |o| ==> q[o[a]].target == q[o[b]].target ==> arrival[o[a]] < arrival[o[b]]
    ensures Sorted(q, o, latest) && Fifo(q, o, arrival)
  {}

  lemma InsertedPair(q: seq<Work>, io: seq<nat>, latest: nat, arrival: seq<nat>, issued: nat, p: nat, e: nat, a: nat, b: nat)
    requires |arrival| == |q| && (forall k :: 0 <= k < |io| ==> io[k] < |q| && arrival[io[k]] < issued)
    requires e < |q| && arrival[e] == issued && Sorted(q, io, latest) && Fifo(q, io, arrival)
    requires FitsAt(q, io, latest, q[e].target, p) && a < b <= |io|
    ensures var o := InsertedAt(io, p, e);
            && q[o[a]].target <= Max(q[o[b]].target, latest)
            && (q[o[a]].target == q[o[b]].target ==> arrival[o[a]] < arrival[o[b]])
  {
    InsertedFrom(io, p, e);
    hide InsertedAt;
    var x, y := if a < p then a else a - 1, if b < p then b else b - 1;
    if a != p && b != p {
      assert q[io[x]].target <= Max(q[io[y]].target, latest);
    } else if b == p {
      if a < p - 1 { assert q[io[a]].target <= Max(q[io[p - 1]].target, latest); }
    } else {
      assert q[io[b - 1]].target > q[e].target;
    }
  }

  lemma InsertedFrom(io: seq<nat>, p: nat, e: nat)
    requires p <= |io|
    ensures |InsertedAt(io, p, e)| == |io| + 1
    ensures forall k {:trigger InsertedAt(io, p, e)[k]} :: 0 <= k < |io| + 1 ==>
              InsertedAt(io, p, e)[k] == if k < p then io[k] else if k == p then e else io[k - 1]
  {}

  // ---- What the steps keep ----

  /** Only links differ. */
  ghost predicate SameWork(q: seq<Work>, r: seq<Work>) {
    |r| == |q| && forall i :: 0 <= i < |q| ==> r[i].target == q[i].target && r[i].isCompleted == q[i].isCompleted
  }

  /** Only links changed. */
  ghost predicate OnlyLinks(q: seq<Work>, r: seq<Work>) {
    |r| == |q| && forall i :: 0 <= i < |q| ==> r[i] == q[i].(next := r[i].next, prev := r[i].prev)
  }

  /** What is completed was copied before. */
  ghost predicate CopiedFirst(q: seq<Work>) { forall i :: 0 <= i < |q| && q[i].isCompleted ==> q[i].isCopied }

  lemma LinksKeepFlags(q: seq<Work>, r: seq<Work>)
    requires OnlyLinks(q, r)
    ensures SameWork(q, r) && (CopiedFirst(q) ==> CopiedFirst(r))
  {}

  lemma HistoryIgnoresLinks(q: seq<Work>, r: seq<Work>, free: seq<nat>, io: seq<nat>, unused: nat, latest: nat,
                            arrival: seq<nat>, issued: nat, done: seq<nat>)
    requires HistoryOk(q, free, io, unused, latest, arrival, issued, done) && SameWork(q, r)
    ensures HistoryOk(r, free, io, unused, latest, arrival, issued, done)
  {}

  /** Like OnlyLinks, for all entries but one. */
  ghost predicate OnlyLinksBut(q: seq<Work>, r: seq<Work>, e: nat) {
    |r| == |q| && forall i :: 0 <= i < |q| && i != e ==> r[i] == q[i].(next := r[i].next, prev := r[i].prev)
  }

  /** What one visit at clock `now` makes of a request. */
  function Visited(w: Work, now: nat): Work {
    if w.isCompleted then w else w.(isCopied := true, isCompleted := w.target <= now)
  }

  function Fresh(target: nat, internal: bool): Work { Work(target, internal, false, internal, -1, -1) }

  /** A new request in entry e of the free list's head, inserted at p. */
  lemma EnqueueHistory(q: seq<Work>, free: seq<nat>, io: seq<nat>, unused: nat, latest: nat, arrival: seq<nat>, issued: nat,
                       done: seq<nat>, w: Work, p: nat)
    requires HistoryOk(q, free, io, unused, latest, arrival, issued, done) && Partition(free, io, |q|)
    requires |free| >= 2 && !w.isCompleted
    requires free[0] < |q| && FitsAt(q[free[0] := w], io, latest, w.target, p)
    ensures var e := free[0];
            HistoryOk(q[e := w], free[1..], InsertedAt(io, p, e), if unused > 0 then unused - 1 else 0, latest,
                      arrival[e := issued], issued + 1, done)
  {
    var e := free[0];
    assert e in free;
    var t, a, o, rest := q[e := w], arrival[e := issued], InsertedAt(io, p, e), free[1..];
    forall k | 0 <= k < |io| ensures io[k] != e { assert io[k] in io; }
    forall k | 0 <= k < |rest| ensures rest[k] == free[k + 1] != e {}
    hide Partition;
    assert Sorted(t, io, latest) && Fifo(t, io, a);
    InsertKeepsOrder(t, io, latest, a, issued, p, e);
    EnqueueAccounted(q, io, arrival, issued, done, e, w, p);
  }

  lemma EnqueueAccounted(q: seq<Work>, io: seq<nat>, arrival: seq<nat>, issued: nat, done: seq<nat>, e: nat, w: Work, p: nat)
    requires |arrival| == |q| && (forall k :: 0 <= k < |io| ==> io[k] < |q| && io[k] != e) && e < |q| && p <= |io|
    requires Accounted(q, io, arrival, issued, done) && !w.isCompleted
    ensures forall k :: 0 <= k < |InsertedAt(io, p, e)| ==> InsertedAt(io, p, e)[k] < |q|
    ensures Accounted(q[e := w], InsertedAt(io, p, e), arrival[e := issued], issued + 1, done)
  {
    var t, a, o := q[e := w], arrival[e := issued], InsertedAt(io, p, e);
    InsertedFrom(io, p, e);
    hide InsertedAt, NoDup;
    forall x, y | 0 <= x < y < |o| ensures a[o[x]] != a[o[y]] {
      var i, j := if x < p then x else x - 1, if y < p then y else y - 1;
      if x != p && y != p { assert arrival[io[i]] != arrival[io[j]]; }
    }
    EnqueuedFound(io, arrival, issued, done, e, p);
  }

  lemma EnqueuedFound(io: seq<nat>, arrival: seq<nat>, issued: nat, done: seq<nat>, e: nat, p: nat)
    requires (forall k :: 0 <= k < |io| ==> io[k] < |arrival| && io[k] != e) && e < |arrival| && p <= |io|
    requires forall r: nat :: r < issued && r !in done ==> exists k :: 0 <= k < |io| && arrival[io[k]] == r
    ensures var a, o := arrival[e := issued], InsertedAt(io, p, e);
            && (forall k :: 0 <= k < |o| ==> o[k] < |a|)
            && forall r: nat :: r < issued + 1 && r !in done ==> exists k :: 0 <= k < |o| && a[o[k]] == r
  {
    var a, o := arrival[e := issued], InsertedAt(io, p, e);
    InsertedFrom(io, p, e);
    hide InsertedAt;
    forall r: nat | r < issued + 1 && r !in done ensures exists k :: 0 <= k < |o| && a[o[k]] == r {
      if r == issued {
        assert a[o[p]] == r;
      } else {
        var k :| 0 <= k < |io| && arrival[io[k]] == r;
        assert a[o[if k < p then k else k + 1]] == r;
      }
    }
  }

  lemma EnqueueWorker(curr: int, free: seq<nat>, io: seq<nat>, unused: nat, p: nat)
    requires WorkerSafe(curr, free, io, unused) && |free| >= 2 && p <= |io|
    ensures WorkerSafe(curr, free[1..], InsertedAt(io, p, free[0]), if unused > 0 then unused - 1 else 0)
  {
    var o, u := InsertedAt(io, p, free[0]), if unused > 0 then unused - 1 else 0;
    InsertedMembers(io, p, free[0]);
    if k :| 0 <= k < |io| && io[k] == curr {
      assert io[k] in io && io[k] in o;
    } else if k :| unused <= k < |free| && free[k] == curr {
      if k == 0 { assert free[0] in o; } else { assert free[1..][k - 1] == curr; }
    }
  }

  lemma EnqueuePartition(free: seq<nat>, io: seq<nat>, n: nat, p: nat)
    requires Partition(free, io, n) && |free| >= 1 && p <= |io|
    ensures Partition(free[1..], InsertedAt(io, p, free[0]), n) && free[0] !in io && free[0] < n
  {
    assert free == [free[0]] + free[1..];
    assert free[0] in free;
    InsertedMembers(io, p, free[0]);
    InsertedNoDup(io, p, free[0]);
    hide InsertedAt;
  }

  // Completion

  lemma CompleteHistory(q: seq<Work>, free: seq<nat>, io: seq<nat>, unused: nat, latest: nat, arrival: seq<nat>,
                        issued: nat, done: seq<nat>, i: nat, w: Work)
    requires HistoryOk(q, free, io, unused, latest, arrival, issued, done)
    requires i < |q| && !q[i].isCompleted && w.isCompleted && w.target == q[i].target
    requires i in io && NoDup(io)
    ensures i < |arrival| && arrival[i] !in done
    ensures HistoryOk(q[i := w], free, io, unused, latest, arrival, issued, done + [arrival[i]])
  {
    AccountedOneMore(q, io, arrival, issued, done, i, w);
    hide Accounted, NoDup;
  }

  lemma AccountedOneMore(q: seq<Work>, io: seq<nat>, arrival: seq<nat>, issued: nat, done: seq<nat>, i: nat, w: Work)
    requires |arrival| == |q| && (forall k :: 0 <= k < |io| ==> io[k] < |q|) && Accounted(q, io, arrival, issued, done)
    requires i < |q| && !q[i].isCompleted && w.isCompleted && i in io && NoDup(io)
    ensures arrival[i] !in done && Accounted(q[i := w], io, arrival, issued, done + [arrival[i]])
  {
    var x :| 0 <= x < |io| && io[x] == i;
    var t, d := q[i := w], done + [arrival[i]];
    AppendNoDup(done, arrival[i]);
    forall k | 0 <= k < |io| ensures t[io[k]].isCompleted <==> arrival[io[k]] in d {
      if k != x { assert io[k] != io[x] && arrival[io[k]] != arrival[io[x]]; }
    }
  }

  lemma LaterHistory(q: seq<Work>, free: seq<nat>, io: seq<nat>, unused: nat, latest: nat, now: nat, arrival: seq<nat>,
                     issued: nat, done: seq<nat>)
    requires HistoryOk(q, free, io, unused, latest, arrival, issued, done) && latest <= now
    ensures HistoryOk(q, free, io, unused, now, arrival, issued, done)
  {
    hide Accounted, Fifo;
  }

  // Reclaim

  /** The finished prefix of the io list moves to the end of the free list. */
  lemma ReclaimHistory(q: seq<Work>, free: seq<nat>, io: seq<nat>, unused: nat, latest: nat, arrival: seq<nat>, issued: nat,
                       done: seq<nat>, m: nat)
    requires HistoryOk(q, free, io, unused, latest, arrival, issued, done)
    requires m <= |io| && forall k :: 0 <= k < m ==> q[io[k]].isCompleted
    ensures HistoryOk(q, free + io[..m], io[m..], unused, latest, arrival, issued, done)
  {
    var f, o := free + io[..m], io[m..];
    hide Accounted;
    forall k | 0 <= k < |o| ensures o[k] == io[m + k] {}
    assert Sorted(q, o, latest) && Fifo(q, o, arrival);
    hide Sorted, Fifo;
    ReclaimAccounted(q, io, arrival, issued, done, m);
  }

  lemma ReclaimAccounted(q: seq<Work>, io: seq<nat>, arrival: seq<nat>, issued: nat, done: seq<nat>, m: nat)
    requires |arrival| == |q| && (forall k :: 0 <= k < |io| ==> io[k] < |q|) && m <= |io|
    requires Accounted(q, io, arrival, issued, done) && forall k :: 0 <= k < m ==> q[io[k]].isCompleted
    ensures Accounted(q, io[m..], arrival, issued, done)
  {
    var o := io[m..];
    forall k | 0 <= k < |o| ensures o[k] == io[m + k] {}
    forall r: nat | r < issued && r !in done ensures exists k :: 0 <= k < |o| && arrival[o[k]] == r {
      var k :| 0 <= k < |io| && arrival[io[k]] == r;
      assert arrival[o[k - m]] == r;
    }
  }

  lemma ReclaimWorker(curr: int, free: seq<nat>, io: seq<nat>, unused: nat, m: nat)
    requires WorkerSafe(curr, free, io, unused) && m <= |io| && unused <= |free|
    ensures WorkerSafe(curr, free + io[..m], io[m..], unused)
  {
    var f := free + io[..m];
    if k :| 0 <= k < |io| && io[k] == curr {
      if k < m { assert f[|free| + k] == curr; } else { assert io[m..][k - m] == curr; }
    } else if k :| unused <= k < |free| && free[k] == curr {
      assert f[k] == curr;
    }
  }

  lemma ReclaimPartition(free: seq<nat>, io: seq<nat>, n: nat, m: nat)
    requires Partition(free, io, n) && m <= |io|
    ensures Partition(free + io[..m], io[m..], n)
  {
    var f, o := free + io[..m], io[m..];
    assert io == io[..m] + io[m..];
    forall i, j | 0 <= i < j < |f| ensures f[i] != f[j] {
      if i < |free| <= j { assert f[i] in free && io[j - |free|] in io; }
    }
    assert forall i: nat :: i in io <==> i in io[..m] || i in io[m..];
    assert forall i: nat :: i in f <==> i in free || i in io[..m];
    forall i: nat ensures (i < n <==> i in f || i in o) && !(i in f && i in o) {
      assert i < n <==> i in free || i in io;
    }
  }

  lemma HeadsOk(q: seq<Work>, free: seq<nat>, io: seq<nat>, freeSeq: int, freeSeqEnd: int, ioSeq: int, ioSeqEnd: int)
    requires ListsOk(q, free, io, freeSeq, freeSeqEnd, ioSeq, ioSeqEnd)
    ensures forall k :: 0 <= k < |io| ==> io[k] < |q|
    ensures forall k :: 0 <= k < |free| ==> free[k] < |q|
    ensures |free| >= 1 && 0 <= freeSeq < |q| && q[freeSeq].next == NextIn(free, 0) && freeSeq == free[0]
    ensures 0 <= freeSeqEnd < |q| && freeSeqEnd == free[|free| - 1] && Partition(free, io, |q|)
    ensures ioSeq == -1 <==> io == []
    ensures ioSeq != -1 ==> 0 <= ioSeq < |q| && 0 <= ioSeqEnd < |q| && ioSeq == io[0]
  {}

  lemma InitOk(q: seq<Work>, free: seq<nat>, arrival: seq<nat>)
    requires |q| == |free| == |arrival| >= 1
    requires forall i :: 0 <= i < |q| ==> free[i] == i && q[i].next == if i + 1 < |q| then i + 1 else -1
    ensures ListsOk(q, free, [], 0, |q| - 1, -1, -1) && HistoryOk(q, free, [], |q|, 0, arrival, 0, [])
  {
    forall i: nat ensures (i < |q| <==> i in free) { if i < |q| { assert free[i] == i; } }
  }

  class IoWorker {
    const workQueue: array<Work>
    var freeSeq: int
    var freeSeqEnd: int
    var ioSeq: int
    var ioSeqEnd: int
    var latestNsecs: nat
    ghost var peak: nat              // the latest clock reading so far; a reading may lie before an earlier one
    var curr: int                    // the worker's position in its pass
    ghost var free: seq<nat>
    ghost var io: seq<nat>
    ghost var unused: nat            // entries at the head of the free list that never held a request
    ghost var arrival: seq<nat>      // the number of the request an entry holds
    ghost var issued: nat
    ghost var done: seq<nat>         // the requests in order of completion

    ghost predicate Lists()
      reads this, workQueue
    {
      ListsOk(workQueue[..], free, io, freeSeq, freeSeqEnd, ioSeq, ioSeqEnd)
    }

    ghost predicate Valid()
      reads this, workQueue
    {
      && Lists() && latestNsecs <= peak
      && HistoryOk(workQueue[..], free, io, unused, peak, arrival, issued, done)
      && WorkerSafe(curr, free, io, unused) && CopiedFirst(workQueue[..])
    }

    /** Every issued request either was completed, once, or still waits uncompleted on the io list. */
    lemma NothingLost(r: nat)
      requires Valid() && r < issued
      ensures NoDup(done) && |arrival| == workQueue.Length && forall k :: 0 <= k < |io| ==> io[k] < workQueue.Length
      ensures r !in done <==> exists k :: 0 <= k < |io| && arrival[io[k]] == r && !workQueue[io[k]].isCompleted
    {
      assert Accounted(workQueue[..], io, arrival, issued, done);
    }

    /** NVMEV_IO_WORKER_INIT */
    constructor (n: nat)
      requires n >= 1
      ensures Valid() && fresh(workQueue) && workQueue.Length == n && io == [] && |free| == n && issued == 0
      ensures forall i :: 0 <= i < n ==>
                free[i] == i && workQueue[i] == Work(0, false, false, false, if i + 1 < n then i + 1 else -1, i - 1)
    {
      workQueue := new Work[n](i => Work(0, false, false, false, if i + 1 < n then i + 1 else -1, i - 1));
      freeSeq, freeSeqEnd, ioSeq, ioSeqEnd, latestNsecs, peak, curr := 0, n - 1, -1, -1, 0, 0, -1;
      free := seq(n, (i: nat) => i);
      io, unused, arrival, issued, done := [], n, seq(n, _ => 0), 0, [];
      new;
      InitOk(workQueue[..], free, arrival);
      hide ListsOk, HistoryOk;
    }

    /** __allocate_work_queue_entry: refuses to hand out the last free entry. */
    method Allocate() returns (entry: int)
      requires Lists()
      modifies this`freeSeq
      ensures entry == -1 <==> |free| == 1
      ensures entry == -1 ==> freeSeq == old(freeSeq)
      ensures entry != -1 ==> entry == free[0] && freeSeq == free[1] && 0 <= entry < workQueue.Length
    {
      HeadsOk(workQueue[..], free, io, freeSeq, freeSeqEnd, ioSeq, ioSeqEnd);
      var next := workQueue[freeSeq].next;
      if next < 0 || next >= workQueue.Length {
        return -1;
      }
      entry := freeSeq;
      freeSeq := next;
    }

    /** The scan of __insert_req_sorted from the end of the list. */
    method FindPlace(target: nat) returns (c: int, ghost p: nat)
      requires Chained(workQueue[..], io) && BackChained(workQueue[..], io)
      requires io != [] && ioSeqEnd == io[|io| - 1]
      ensures InsertPoint(workQueue[..], io, latestNsecs, target, p)
      ensures c == if p == 0 then -1 else io[p - 1]
    {
      c, p := ioSeqEnd, |io|;
      while c != -1
        invariant p <= |io| && c == (if p == 0 then -1 else io[p - 1])
        invariant forall k :: p <= k < |io| ==> workQueue[io[k]].target > latestNsecs && workQueue[io[k]].target > target
        decreases p
      {
        assert workQueue[..][io[p - 1]].prev == PrevIn(io, p - 1);
        if workQueue[c].target <= latestNsecs { break; }
        if workQueue[c].target <= target { break; }
        c := workQueue[c].prev;
        p := p - 1;
      }
    }

    /** __insert_req_sorted of an entry that is on neither list. */
    method InsertReqSorted(entry: nat, target: nat) returns (ghost p: nat)
      requires entry < workQueue.Length && entry !in io && NoDup(io)
      requires Chained(workQueue[..], io) && BackChained(workQueue[..], io)
      requires if io == [] then ioSeq == -1 else ioSeq == io[0] && ioSeqEnd == io[|io| - 1]
      requires workQueue[entry].next == -1 && workQueue[entry].prev == -1
      modifies this`ioSeq, this`ioSeqEnd, workQueue
      ensures forall k :: 0 <= k < |io| ==> io[k] < workQueue.Length
      ensures p <= |io| && InsertPoint(old(workQueue[..]), io, latestNsecs, target, p)
      ensures workQueue[..] == Relinked(old(workQueue[..]), io, p, entry)
      ensures var o := InsertedAt(io, p, entry); ioSeq == o[0] && ioSeqEnd == o[|o| - 1]
    {
      hide NoDup;
      if ioSeq == -1 {
        ioSeq := entry;
        ioSeqEnd := entry;
        p := 0;
      } else {
        var c;
        c, p := FindPlace(target);
        Relink(entry, c, p);
      }
    }

    /** The three ways of linking the entry in: before the head, after the tail, or after c. */
    method Relink(entry: nat, c: int, ghost p: nat)
      requires entry < workQueue.Length && entry !in io && NoDup(io) && io != [] && p <= |io|
      requires Chained(workQueue[..], io) && ioSeq == io[0] && ioSeqEnd == io[|io| - 1]
      requires workQueue[entry].next == -1 && workQueue[entry].prev == -1 && c == if p == 0 then -1 else io[p - 1]
      modifies this`ioSeq, this`ioSeqEnd, workQueue
      ensures forall k :: 0 <= k < |io| ==> io[k] < workQueue.Length
      ensures workQueue[..] == Relinked(old(workQueue[..]), io, p, entry)
      ensures var o := InsertedAt(io, p, entry); ioSeq == o[0] && ioSeqEnd == o[|o| - 1]
    {
      hide NoDup;
      InsertedFrom(io, p, entry);
      hide InsertedAt;
      if p > 0 { assert workQueue[..][io[p - 1]].next == NextIn(io, p - 1) && io[p - 1] in io; }
      if c == -1 {
        workQueue[ioSeq] := workQueue[ioSeq].(prev := entry);
        workQueue[entry] := workQueue[entry].(next := ioSeq);
        ioSeq := entry;
      } else if workQueue[c].next == -1 {
        workQueue[entry] := workQueue[entry].(prev := c);
        ioSeqEnd := entry;
        workQueue[c] := workQueue[c].(next := entry);
      } else {
        workQueue[entry] := workQueue[entry].(prev := c, next := workQueue[c].next);
        workQueue[workQueue[entry].next] := workQueue[workQueue[entry].next].(prev := entry);
        workQueue[c] := workQueue[c].(next := entry);
      }
    }

    /**
      __enqueue_io_req and schedule_internal_operation: with the array almost full the request is
      dropped; otherwise it enters the io list at its place. Nothing else moves.
    */
    method Enqueue(target: nat, internal: bool) returns (ok: bool)
      requires Valid()
      modifies this`freeSeq, this`ioSeq, this`ioSeqEnd, this`free, this`io, this`unused, this`arrival, this`issued, workQueue
      ensures Valid() && (ok <==> |old(free)| > 1)
      ensures !ok ==> free == old(free) && io == old(io) && workQueue[..] == old(workQueue[..]) && issued == old(issued)
      ensures ok ==>
                && free == old(free)[1..] && issued == old(issued) + 1
                && exists p :: Enqueued(old(workQueue[..]), old(free[0]), old(io), target, internal, p)
      ensures ok ==> |old(arrival)| > old(free[0]) && arrival == old(arrival)[old(free[0]) := old(issued)]
    {
      hide ListsOk, HistoryOk, WorkerSafe, InsertPoint, FitsAt, Relinked, InsertedAt, Partition, NoDup, CopiedFirst;
      ghost var q, free0, io0 := workQueue[..], free, io;
      var entry := Allocate();
      if entry == -1 {
        return false;
      }
      InitEntry(entry, target, internal);
      ghost var w := Fresh(target, internal);
      EntryOffLists(q, free, io, old(freeSeq), freeSeqEnd, ioSeq, ioSeqEnd, w);
      FewerUnused(q, free, io, unused, peak, arrival, issued, done);
      ghost var p := InsertReqSorted(entry, target);
      FitsLater(q[entry := w], io, latestNsecs, peak, target, p);
      EnqueueKeeps(q, free, io, old(freeSeq), freeSeqEnd, old(ioSeq), old(ioSeqEnd), unused, peak, arrival, issued, done,
                   curr, w, p);
      assert workQueue[..] == Relinked(q[entry := w], io, p, entry);
      free, io, unused := free[1..], InsertedAt(io, p, entry), if unused > 0 then unused - 1 else 0;
      arrival, issued := arrival[entry := issued], issued + 1;
      assert Lists() && HistoryOk(workQueue[..], free, io, unused, peak, arrival, issued, done);
      assert Enqueued(q, free0[0], io0, target, internal, p);
      return true;
    }

    /** The entry's fields for a new request. */
    method InitEntry(entry: nat, target: nat, internal: bool)
      requires entry < workQueue.Length
      modifies workQueue
      ensures workQueue[..] == old(workQueue[..])[entry := Fresh(target, internal)]
    {
      var w := workQueue[entry];
      w := w.(target := target);
      w := w.(isCompleted := false, isCopied := internal);
      w := w.(prev := -1, next := -1);
      w := w.(isInternal := internal);
      workQueue[entry] := w;
    }

    /** The request sits at its insert point, in the entry the free list gave up. */
    ghost predicate Enqueued(q: seq<Work>, e: nat, io0: seq<nat>, target: nat, internal: bool, p: nat)
      reads this, workQueue
    {
      && e < |q| && (forall k :: 0 <= k < |io0| ==> io0[k] < |q|)
      && var t := q[e := Fresh(target, internal)];
         InsertPoint(t, io0, latestNsecs, target, p) && io == InsertedAt(io0, p, e) && workQueue[..] == Relinked(t, io0, p, e)
    }

    /** What an enqueue makes of the entries: the new one waits with its target, the others got new links at most. */
    lemma EnqueuedMeans(q: seq<Work>, e: nat, io0: seq<nat>, target: nat, internal: bool, p: nat)
      requires Enqueued(q, e, io0, target, internal, p)
      ensures e < workQueue.Length && e in io && OnlyLinksBut(q, workQueue[..], e)
      ensures workQueue[e].target == target && !workQueue[e].isCompleted && workQueue[e].isInternal == internal
      ensures workQueue[e].isCopied <==> internal
      ensures p <= |io0| && io == io0[..p] + [e] + io0[p..]
    {
      var t := q[e := Fresh(target, internal)];
      RelinkedIsSameWork(t, io0, p, e);
      InsertedMembers(io0, p, e);
      hide Relinked, InsertPoint, FitsAt;
      assert OnlyLinks(t, workQueue[..]);
      assert workQueue[e] == t[e].(next := workQueue[e].next, prev := workQueue[e].prev);
    }

    /** The worker begins a pass at the head of the io list. */
    method StartPass()
      requires Valid()
      modifies this`curr
      ensures Valid() && curr == ioSeq
    {
      hide ListsOk, HistoryOk, WorkerSafe;
      HeadIsSafe(workQueue[..], free, io, freeSeq, freeSeqEnd, ioSeq, ioSeqEnd, unused);
      curr := ioSeq;
    }

    /**
      One visit of the worker's pass at clock `now`: an uncompleted request whose time has come is
      completed, and only such a one; its number has not been completed before.
    */
    method Visit(now: nat) returns (completed: bool)
      requires Valid() && curr != -1
      modifies this`curr, this`latestNsecs, this`peak, this`done, workQueue
      ensures Valid() && latestNsecs == now && peak == Max(old(peak), now) && 0 <= old(curr) < workQueue.Length
      ensures curr == old(workQueue[curr]).next && workQueue[..] == old(workQueue[..])[old(curr) := workQueue[old(curr)]]
      ensures workQueue[old(curr)] == Visited(old(workQueue[curr]), now)
      ensures workQueue[old(curr)].isCopied && workQueue[old(curr)].target == old(workQueue[curr]).target
      ensures completed <==> !old(workQueue[curr]).isCompleted && old(workQueue[curr]).target <= now
      ensures if completed then old(curr) in io && old(arrival[curr]) !in old(done) && done == old(done) + [old(arrival[curr])]
              else done == old(done)
    {
      hide ListsOk, HistoryOk, WorkerSafe, Partition, NoDup;
      ghost var q := workQueue[..];
      WorkerInRange(q, free, io, unused, peak, arrival, issued, done, curr);
      latestNsecs, peak := now, Max(peak, now);
      LaterHistory(q, free, io, unused, old(peak), peak, arrival, issued, done);
      StepInside(q, free, io, freeSeq, freeSeqEnd, ioSeq, ioSeqEnd, unused, curr);
      if workQueue[curr].isCompleted {
        curr := workQueue[curr].next;
        return false;
      }
      ghost var i := curr;
      workQueue[curr] := workQueue[curr].(isCopied := true);
      ghost var copied := q[i := q[i].(isCopied := true)];
      assert workQueue[..] == copied;
      HistoryIgnoresLinks(q, copied, free, io, unused, peak, arrival, issued, done);
      if workQueue[curr].target <= now {
        IoNoDup(q, free, io, freeSeq, freeSeqEnd, ioSeq, ioSeqEnd);
        CompleteHistory(copied, free, io, unused, peak, arrival, issued, done, i, copied[i].(isCompleted := true));
        workQueue[curr] := workQueue[curr].(isCompleted := true);
        assert workQueue[..] == copied[i := copied[i].(isCompleted := true)];
        done := done + [arrival[i]];
        completed := true;
      } else {
        completed := false;
      }
      ListsIgnoreFlags(q, workQueue[..], free, io, freeSeq, freeSeqEnd, ioSeq, ioSeqEnd);
      curr := workQueue[curr].next;
    }

    /**
      One whole pass of the worker, with the clock read anew at every request: every request is visited once,
      nothing joins or leaves the list.
    */
    method Pass(nows: seq<nat>)
      requires Valid() && |nows| == |io|
      modifies this`curr, this`latestNsecs, this`peak, this`done, workQueue
      ensures Valid() && curr == -1 && latestNsecs == if nows == [] then old(latestNsecs) else nows[|nows| - 1]
      ensures forall k :: 0 <= k < |io| ==> io[k] < workQueue.Length
      ensures forall k :: 0 <= k < |io| ==> workQueue[io[k]] == Visited(old(workQueue[..])[io[k]], nows[k])
      ensures forall i :: 0 <= i < workQueue.Length && i !in io ==> workQueue[i] == old(workQueue[i])
      ensures old(done) <= done
    {
      hide ListsOk, HistoryOk, WorkerSafe, Partition, NoDup, CopiedFirst;
      StartPass();
      ghost var q := workQueue[..];
      HeadsOk(q, free, io, freeSeq, freeSeqEnd, ioSeq, ioSeqEnd);
      IoNoDup(q, free, io, freeSeq, freeSeqEnd, ioSeq, ioSeqEnd);
      var k := 0;
      while curr != -1
        invariant Valid() && k <= |io| && curr == if k < |io| then io[k] else -1
        invariant latestNsecs == if k == 0 then old(latestNsecs) else nows[k - 1]
        invariant old(done) <= done
        invariant forall j :: 0 <= j < k ==> workQueue[io[j]] == Visited(q[io[j]], nows[j])
        invariant forall i :: 0 <= i < workQueue.Length && i !in io[..k] ==> workQueue[i] == q[i]
        decreases |io| - k
      {
        NextOnList(workQueue[..], free, io, freeSeq, freeSeqEnd, ioSeq, ioSeqEnd, k);
        var completed := Visit(nows[k]);
        k := k + 1;
      }
    }

    /**
      What the queue is for: once every request is due, a pass of the worker and a reclaim after it complete all of
      them and give every entry back.
    */
    method Settle(nows: seq<nat>)
      requires Valid() && |nows| == |io| && forall k :: 0 <= k < |io| ==> io[k] < workQueue.Length
      requires forall j, k :: 0 <= j < |io| && 0 <= k < |io| ==> workQueue[io[j]].target <= nows[k]
      modifies this`curr, this`latestNsecs, this`peak, this`done, this`freeSeqEnd, this`ioSeq, this`free, this`io, workQueue
      ensures Valid() && io == [] && |free| == workQueue.Length && free == old(free) + old(io)
      ensures forall r: nat :: r < issued <==> r in done
    {
      hide ListsOk, HistoryOk, WorkerSafe, Partition, NoDup, CopiedFirst;
      Pass(nows);
      CompletedAreCopied(workQueue[..]);
      ghost var m := Reclaim();
      AllDone(workQueue[..], free, unused, peak, arrival, issued, done);
      AllFree(workQueue[..], free, freeSeq, freeSeqEnd, ioSeq, ioSeqEnd);
    }

    /** __reclaim_completed_reqs: exactly the finished prefix of the io list becomes free, in order. */
    method Reclaim() returns (ghost m: nat)
      requires Valid()
      modifies this`freeSeqEnd, this`ioSeq, this`free, this`io, workQueue
      ensures Valid() && m <= |old(io)| && free == old(free) + old(io)[..m] && io == old(io)[m..]
      ensures forall k :: 0 <= k < |old(io)| ==> old(io)[k] < workQueue.Length
      ensures forall k :: 0 <= k < m ==>
                var w := old(workQueue[..])[old(io)[k]]; w.isCompleted && w.isCopied && w.target <= latestNsecs
      ensures m < |old(io)| ==>
                var w := old(workQueue[..])[old(io)[m]]; !w.isCompleted || !w.isCopied || w.target > latestNsecs
      ensures OnlyLinks(old(workQueue[..]), workQueue[..])
    {
      hide ListsOk, HistoryOk, WorkerSafe, Partition, NoDup, Reclaimed;
      ghost var q := workQueue[..];
      HeadsOk(q, free, io, freeSeq, freeSeqEnd, ioSeq, ioSeqEnd);
      var firstEntry := ioSeq;
      var lastEntry;
      lastEntry, m := FinishedPrefix();
      if lastEntry != -1 {
        LinksAround(q, free, io, freeSeq, freeSeqEnd, ioSeq, ioSeqEnd, m);
        CutAndAppend(firstEntry, lastEntry, m);
        ReclaimKeeps(q, free, io, freeSeq, freeSeqEnd, firstEntry, ioSeqEnd, unused, peak, arrival, issued, done, curr, m);
        freeSeqEnd := lastEntry;
        free, io := free + io[..m], io[m..];
      } else {
        assert free + io[..0] == free && io[0..] == io;
      }
    }

    /** The relinking of a reclaim: the prefix leaves the io list and joins the end of the free list. */
    method CutAndAppend(firstEntry: int, lastEntry: int, ghost m: nat)
      requires 1 <= m <= |io| && |free| >= 1 && (forall k :: 0 <= k < |io| ==> io[k] < workQueue.Length)
      requires forall k :: 0 <= k < |free| ==> free[k] < workQueue.Length
      requires firstEntry == io[0] && lastEntry == io[m - 1] && freeSeqEnd == free[|free| - 1]
      requires workQueue[lastEntry].next == NextIn(io, m - 1)
      modifies this`ioSeq, workQueue
      ensures ioSeq == NextIn(io, m - 1) && workQueue[..] == Reclaimed(old(workQueue[..]), free, io, m)
    {
      var next := workQueue[lastEntry].next;
      ioSeq := next;
      if next != -1 {
        workQueue[next] := workQueue[next].(prev := -1);
      }
      workQueue[lastEntry] := workQueue[lastEntry].(next := -1);
      workQueue[firstEntry] := workQueue[firstEntry].(prev := freeSeqEnd);
      workQueue[freeSeqEnd] := workQueue[freeSeqEnd].(next := firstEntry);
    }

    method FinishedPrefix() returns (lastEntry: int, ghost m: nat)
      requires Lists()
      ensures m <= |io| && lastEntry == if m == 0 then -1 else io[m - 1]
      ensures forall k :: 0 <= k < |io| ==> io[k] < workQueue.Length
      ensures forall k :: 0 <= k < m ==> Finished(workQueue[..], io[k], latestNsecs)
      ensures m < |io| ==> !Finished(workQueue[..], io[m], latestNsecs)
    {
      hide Partition, NoDup;
      lastEntry, m := -1, 0;
      var c := ioSeq;
      while c != -1
        invariant m <= |io| && c == (if m < |io| then io[m] else -1) && lastEntry == if m == 0 then -1 else io[m - 1]
        invariant forall k :: 0 <= k < m ==> Finished(workQueue[..], io[k], latestNsecs)
        decreases |io| - m
      {
        assert workQueue[..][io[m]].next == NextIn(io, m);
        var w := workQueue[c];
        if w.isCompleted && w.isCopied && w.target <= latestNsecs {
          lastEntry := c;
          c := w.next;
          m := m + 1;
        } else {
          break;
        }
      }
    }
  }

  ghost predicate Finished(q: seq<Work>, i: nat, latest: nat) {
    i < |q| && q[i].isCompleted && q[i].isCopied && q[i].target <= latest
  }

  /** The links after the first m requests moved to the end of the free list. */
  function Reclaimed(q: seq<Work>, free: seq<nat>, io: seq<nat>, m: nat): seq<Work>
    requires 1 <= m <= |io| && |free| >= 1 && (forall k :: 0 <= k < |io| ==> io[k] < |q|)
    requires forall k :: 0 <= k < |free| ==> free[k] < |q|
  {
    var a := if m < |io| then q[io[m] := q[io[m]].(prev := -1)] else q;
    var b := a[io[m - 1] := a[io[m - 1]].(next := -1)];
    var c := b[io[0] := b[io[0]].(prev := free[|free| - 1])];
    c[free[|free| - 1] := c[free[|free| - 1]].(next := io[0])]
  }

  lemma NextOnList(q: seq<Work>, free: seq<nat>, io: seq<nat>, fs: int, fe: int, ios: int, ioe: int, k: nat)
    requires ListsOk(q, free, io, fs, fe, ios, ioe) && k < |io|
    ensures io[k] < |q| && q[io[k]].next == NextIn(io, k) && NoDup(io) && io[k] !in io[..k]
    ensures io[..k + 1] == io[..k] + [io[k]]
  {
    assert q[io[k]].next == NextIn(io, k);
  }

  lemma CompletedAreCopied(q: seq<Work>)
    requires CopiedFirst(q)
    ensures forall i :: 0 <= i < |q| && q[i].isCompleted ==> q[i].isCopied
  {}

  lemma AllDone(q: seq<Work>, free: seq<nat>, unused: nat, latest: nat, arrival: seq<nat>, issued: nat, done: seq<nat>)
    requires HistoryOk(q, free, [], unused, latest, arrival, issued, done)
    ensures forall r: nat :: r < issued <==> r in done
  {}

  lemma AllFree(q: seq<Work>, free: seq<nat>, fs: int, fe: int, ios: int, ioe: int)
    requires ListsOk(q, free, [], fs, fe, ios, ioe)
    ensures |free| == |q|
  {
    hide Chained, BackChained;
    NoDupSize(free);
    assert Members(free) == UpTo(|q|);
  }

  lemma EntryOffLists(q: seq<Work>, free: seq<nat>, io: seq<nat>, fs: int, fe: int, ios: int, ioe: int, w: Work)
    requires ListsOk(q, free, io, fs, fe, ios, ioe)
    ensures free[0] < |q| && free[0] !in io && NoDup(io) && Partition(free, io, |q|)
    ensures forall k :: 0 <= k < |io| ==> io[k] < |q|
    ensures var t := q[free[0] := w]; Chained(t, io) && BackChained(t, io)
    ensures if io == [] then ios == -1 else ios == io[0] && ioe == io[|io| - 1]
  {
    assert free[0] in free;
    forall k | 0 <= k < |io| ensures io[k] != free[0] { assert io[k] in io; }
  }

  lemma RelinkedIsSameWork(q: seq<Work>, io: seq<nat>, p: nat, e: nat)
    requires p <= |io| && e < |q| && (forall k :: 0 <= k < |io| ==> io[k] < |q|)
    ensures OnlyLinks(q, Relinked(q, io, p, e))
  {
    RelinkedElsewhere(q, io, p, e);
    hide Relinked;
  }

  lemma EnqueueLists(q: seq<Work>, free: seq<nat>, io: seq<nat>, fs: int, fe: int, ios: int, ioe: int, w: Work, p: nat)
    requires ListsOk(q, free, io, fs, fe, ios, ioe) && |free| >= 2 && p <= |io| && w.next == -1 && w.prev == -1
    ensures free[0] < |q| && forall k :: 0 <= k < |io| ==> io[k] < |q|
    ensures var o := InsertedAt(io, p, free[0]);
            ListsOk(Relinked(q[free[0] := w], io, p, free[0]), free[1..], o, free[1], fe, o[0], o[|o| - 1])
  {
    var e := free[0];
    var t := q[e := w];
    EntryOffLists(q, free, io, fs, fe, ios, ioe, w);
    EnqueuePartition(free, io, |q|, p);
    RelinkedChained(t, io, p, e);
    RelinkedElsewhere(t, io, p, e);
    hide Relinked, InsertedAt, NoDup, BackChained, Partition;
    RestChained(q, Relinked(t, io, p, e), free);
    hide Chained;
  }

  lemma RestChained(q: seq<Work>, r: seq<Work>, free: seq<nat>)
    requires Chained(q, free) && NoDup(free) && |free| >= 2 && |r| == |q|
    requires forall i: nat :: i < |q| && i != free[0] && i in free ==> r[i] == q[i]
    ensures Chained(r, free[1..])
  {
    var rest := free[1..];
    forall k | 0 <= k < |rest| ensures rest[k] < |r| && r[rest[k]].next == NextIn(rest, k) {
      assert rest[k] == free[k + 1] && free[k + 1] in free && NextIn(rest, k) == NextIn(free, k + 1);
      Different(free, k + 1);
    }
  }

  /** Enqueueing keeps everything Valid says. */
  lemma EnqueueKeeps(q: seq<Work>, free: seq<nat>, io: seq<nat>, fs: int, fe: int, ios: int, ioe: int, unused: nat, latest: nat,
                     arrival: seq<nat>, issued: nat, done: seq<nat>, curr: int, w: Work, p: nat)
    requires ListsOk(q, free, io, fs, fe, ios, ioe) && HistoryOk(q, free, io, unused, latest, arrival, issued, done)
    requires WorkerSafe(curr, free, io, unused) && |free| >= 2
    requires !w.isCompleted && w.next == -1 && w.prev == -1 && free[0] < |q| && |arrival| == |q| && CopiedFirst(q)
    requires (forall k :: 0 <= k < |io| ==> io[k] < |q|) && FitsAt(q[free[0] := w], io, latest, w.target, p)
    ensures var e := free[0];
            var r, rest, o, u := Relinked(q[e := w], io, p, e), free[1..], InsertedAt(io, p, e), if unused > 0 then unused - 1 else 0;
            && ListsOk(r, rest, o, free[1], fe, o[0], o[|o| - 1])
            && HistoryOk(r, rest, o, u, latest, arrival[e := issued], issued + 1, done) && WorkerSafe(curr, rest, o, u)
            && CopiedFirst(r)
  {
    assert p <= |io|;
    hide HistoryOk, WorkerSafe, FitsAt, Relinked, InsertedAt, NoDup;
    EntryOffLists(q, free, io, fs, fe, ios, ioe, w);
    EnqueueLists(q, free, io, fs, fe, ios, ioe, w, p);
    hide ListsOk, Partition;
    var e := free[0];
    var t, u := q[e := w], if unused > 0 then unused - 1 else 0;
    EnqueueHistory(q, free, io, unused, latest, arrival, issued, done, w, p);
    EnqueueWorker(curr, free, io, unused, p);
    RelinkedIsSameWork(t, io, p, e);
    LinksKeepFlags(t, Relinked(t, io, p, e));
    HistoryIgnoresLinks(t, Relinked(t, io, p, e), free[1..], InsertedAt(io, p, e), u, latest, arrival[e := issued], issued + 1, done);
  }

  lemma Different(s: seq<nat>, k: nat)
    requires NoDup(s) && 0 < k < |s|
    ensures s[k] != s[0]
  {}

  lemma WorkerInRange(q: seq<Work>, free: seq<nat>, io: seq<nat>, unused: nat, latest: nat, arrival: seq<nat>, issued: nat,
                      done: seq<nat>, curr: int)
    requires HistoryOk(q, free, io, unused, latest, arrival, issued, done) && WorkerSafe(curr, free, io, unused) && curr != -1
    ensures 0 <= curr < |q| && |arrival| == |q| && (!q[curr].isCompleted ==> curr in io)
  {}

  /** The next link of wherever the worker stands leads to a place where it may stand. */
  lemma StepInside(q: seq<Work>, free: seq<nat>, io: seq<nat>, fs: int, fe: int, ios: int, ioe: int, unused: nat, curr: int)
    requires ListsOk(q, free, io, fs, fe, ios, ioe) && WorkerSafe(curr, free, io, unused) && 0 <= curr < |q|
    ensures WorkerSafe(q[curr].next, free, io, unused)
  {
    if k :| 0 <= k < |io| && io[k] == curr {
      assert q[curr].next == NextIn(io, k);
    } else {
      var k :| unused <= k < |free| && free[k] == curr;
      assert q[curr].next == NextIn(free, k);
    }
  }

  lemma HeadIsSafe(q: seq<Work>, free: seq<nat>, io: seq<nat>, fs: int, fe: int, ios: int, ioe: int, unused: nat)
    requires ListsOk(q, free, io, fs, fe, ios, ioe)
    ensures WorkerSafe(ios, free, io, unused)
  {}

  lemma FewerUnused(q: seq<Work>, free: seq<nat>, io: seq<nat>, unused: nat, latest: nat, arrival: seq<nat>, issued: nat,
                    done: seq<nat>)
    requires HistoryOk(q, free, io, unused, latest, arrival, issued, done)
    ensures unused <= |free| && |arrival| == |q|
  {}

  lemma IoNoDup(q: seq<Work>, free: seq<nat>, io: seq<nat>, fs: int, fe: int, ios: int, ioe: int)
    requires ListsOk(q, free, io, fs, fe, ios, ioe)
    ensures NoDup(io)
  {}

  lemma ListsIgnoreFlags(q: seq<Work>, r: seq<Work>, free: seq<nat>, io: seq<nat>, fs: int, fe: int, ios: int, ioe: int)
    requires ListsOk(q, free, io, fs, fe, ios, ioe) && |r| == |q|
    requires forall i :: 0 <= i < |q| ==> r[i].next == q[i].next && r[i].prev == q[i].prev
    ensures ListsOk(r, free, io, fs, fe, ios, ioe)
  {}

  lemma LinksAround(q: seq<Work>, free: seq<nat>, io: seq<nat>, fs: int, fe: int, ios: int, ioe: int, m: nat)
    requires ListsOk(q, free, io, fs, fe, ios, ioe) && 1 <= m <= |io|
    ensures forall k :: 0 <= k < |io| ==> io[k] < |q|
    ensures forall k :: 0 <= k < |free| ==> free[k] < |q|
    ensures ios == io[0] && fe == free[|free| - 1] && q[io[m - 1]].next == NextIn(io, m - 1)
  {}

  lemma ReclaimedLinks(q: seq<Work>, free: seq<nat>, io: seq<nat>, m: nat, i: nat)
    requires 1 <= m <= |io| && |free| >= 1 && (forall k :: 0 <= k < |io| ==> io[k] < |q|) && i < |q|
    requires forall k :: 0 <= k < |free| ==> free[k] < |q|
    requires free[|free| - 1] != io[m - 1]
    ensures var r := Reclaimed(q, free, io, m);
            && |r| == |q| && r[i].target == q[i].target && r[i].isCompleted == q[i].isCompleted
            && r[i].next == (if i == free[|free| - 1] then io[0] else if i == io[m - 1] then -1 else q[i].next)
            && (i != io[0] ==> r[i].prev == if m < |io| && i == io[m] then -1 else q[i].prev)
  {}

  lemma ReclaimedLists(q: seq<Work>, free: seq<nat>, io: seq<nat>, fs: int, fe: int, ios: int, ioe: int, m: nat)
    requires ListsOk(q, free, io, fs, fe, ios, ioe) && 1 <= m <= |io|
    ensures forall k :: 0 <= k < |io| ==> io[k] < |q|
    ensures forall k :: 0 <= k < |free| ==> free[k] < |q|
    ensures var r := Reclaimed(q, free, io, m);
            && OnlyLinks(q, r)
            && ListsOk(r, free + io[..m], io[m..], fs, io[m - 1], NextIn(io, m - 1), ioe)
  {
    var r, f, o := Reclaimed(q, free, io, m), free + io[..m], io[m..];
    hide Reclaimed, NoDup, Partition;
    LinksAround(q, free, io, fs, fe, ios, ioe, m);
    EndsApart(q, free, io, fs, fe, ios, ioe, m);
    ReclaimPartition(free, io, |q|, m);
    ReclaimedFree(q, free, io, m);
    ReclaimedIo(q, free, io, m);
    ReclaimedSameWork(q, free, io, m);
    hide Chained, BackChained;
  }

  lemma ReclaimedSameWork(q: seq<Work>, free: seq<nat>, io: seq<nat>, m: nat)
    requires 1 <= m <= |io| && |free| >= 1 && (forall k :: 0 <= k < |io| ==> io[k] < |q|)
    requires (forall k :: 0 <= k < |free| ==> free[k] < |q|) && free[|free| - 1] != io[m - 1]
    ensures OnlyLinks(q, Reclaimed(q, free, io, m))
  {
    var r := Reclaimed(q, free, io, m);
    ReclaimedLinks(q, free, io, m, io[0]);
    hide Reclaimed;
    forall i | 0 <= i < |q| ensures r[i].target == q[i].target && r[i].isCompleted == q[i].isCompleted {
      ReclaimedLinks(q, free, io, m, i);
    }
  }

  lemma EndsApart(q: seq<Work>, free: seq<nat>, io: seq<nat>, fs: int, fe: int, ios: int, ioe: int, m: nat)
    requires ListsOk(q, free, io, fs, fe, ios, ioe) && 1 <= m <= |io|
    ensures forall i, k :: 0 <= i < |free| && 0 <= k < |io| ==> free[i] != io[k]
    ensures NoDup(free) && NoDup(io)
  {
    forall i, k | 0 <= i < |free| && 0 <= k < |io| ensures free[i] != io[k] { assert free[i] in free && io[k] in io; }
  }

  lemma ReclaimedFree(q: seq<Work>, free: seq<nat>, io: seq<nat>, m: nat)
    requires Chained(q, free) && Chained(q, io) && NoDup(free) && NoDup(io) && |free| >= 1 && 1 <= m <= |io|
    requires forall i, k :: 0 <= i < |free| && 0 <= k < |io| ==> free[i] != io[k]
    ensures Chained(Reclaimed(q, free, io, m), free + io[..m])
  {
    var r, f := Reclaimed(q, free, io, m), free + io[..m];
    hide Reclaimed, NoDup;
    ReclaimedLinks(q, free, io, m, io[0]);
    forall k | 0 <= k < |f| ensures f[k] < |r| && r[f[k]].next == NextIn(f, k) {
      if k < |free| {
        ReclaimedLinks(q, free, io, m, free[k]);
        assert q[free[k]].next == NextIn(free, k);
        SameSpot(free, k, |free| - 1);
      } else {
        ReclaimedLinks(q, free, io, m, io[k - |free|]);
        assert q[io[k - |free|]].next == NextIn(io, k - |free|);
        SameSpot(io, k - |free|, m - 1);
      }
    }
  }

  lemma ReclaimedIo(q: seq<Work>, free: seq<nat>, io: seq<nat>, m: nat)
    requires Chained(q, free) && Chained(q, io) && BackChained(q, io) && NoDup(io) && |free| >= 1 && 1 <= m <= |io|
    requires forall i, k :: 0 <= i < |free| && 0 <= k < |io| ==> free[i] != io[k]
    ensures Chained(Reclaimed(q, free, io, m), io[m..]) && BackChained(Reclaimed(q, free, io, m), io[m..])
  {
    var r, o := Reclaimed(q, free, io, m), io[m..];
    ReclaimedLinks(q, free, io, m, io[0]);
    hide Reclaimed, NoDup;
    forall k | 0 <= k < |o| ensures o[k] < |r| && r[o[k]].next == NextIn(o, k) && r[o[k]].prev == PrevIn(o, k) {
      ReclaimedIoAt(q, free, io, m, m + k);
    }
    hide NextIn, PrevIn;
    ChainedAll(r, o);
  }

  lemma ReclaimedIoAt(q: seq<Work>, free: seq<nat>, io: seq<nat>, m: nat, x: nat)
    requires Chained(q, free) && Chained(q, io) && BackChained(q, io) && NoDup(io) && |free| >= 1 && 1 <= m <= x < |io|
    requires forall i, k :: 0 <= i < |free| && 0 <= k < |io| ==> free[i] != io[k]
    ensures var r := Reclaimed(q, free, io, m);
            && |r| == |q| && r[io[x]].next == NextIn(io, x) && r[io[x]].prev == if x > m then io[x - 1] else -1
  {
    ReclaimedLinks(q, free, io, m, io[x]);
    assert q[io[x]].next == NextIn(io, x) && q[io[x]].prev == PrevIn(io, x);
    hide Reclaimed, NoDup;
    SameSpot(io, x, m - 1);
    SameSpot(io, x, 0);
    SameSpot(io, x, m);
  }

  /** Reclaiming keeps everything Valid says. */
  lemma ReclaimKeeps(q: seq<Work>, free: seq<nat>, io: seq<nat>, fs: int, fe: int, ios: int, ioe: int, unused: nat, latest: nat,
                     arrival: seq<nat>, issued: nat, done: seq<nat>, curr: int, m: nat)
    requires ListsOk(q, free, io, fs, fe, ios, ioe) && HistoryOk(q, free, io, unused, latest, arrival, issued, done)
    requires WorkerSafe(curr, free, io, unused) && 1 <= m <= |io| && (forall k :: 0 <= k < |io| ==> io[k] < |q|)
    requires (forall k :: 0 <= k < m ==> q[io[k]].isCompleted) && CopiedFirst(q)
    ensures |free| >= 1 && forall k :: 0 <= k < |free| ==> free[k] < |q|
    ensures var r, f, o := Reclaimed(q, free, io, m), free + io[..m], io[m..];
            && ListsOk(r, f, o, fs, io[m - 1], NextIn(io, m - 1), ioe)
            && HistoryOk(r, f, o, unused, latest, arrival, issued, done) && WorkerSafe(curr, f, o, unused)
            && CopiedFirst(r) && OnlyLinks(q, r)
  {
    hide HistoryOk, WorkerSafe, Reclaimed, NoDup, Partition, Chained, BackChained;
    ReclaimedLists(q, free, io, fs, fe, ios, ioe, m);
    LinksKeepFlags(q, Reclaimed(q, free, io, m));
    hide ListsOk;
    FewerUnused(q, free, io, unused, latest, arrival, issued, done);
    ReclaimHistory(q, free, io, unused, latest, arrival, issued, done, m);
    ReclaimWorker(curr, free, io, unused, m);
    HistoryIgnoresLinks(q, Reclaimed(q, free, io, m), free + io[..m], io[m..], unused, latest, arrival, issued, done);
  }
}
