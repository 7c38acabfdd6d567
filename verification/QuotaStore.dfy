/** The blocks of a quota file outside the tree: free blocks, data blocks and the data blocks with room. */
module QuotaStore {
  import opened Basics
  import opened QuotaBlocks

  type Disk = map<nat, Block>

  /** Reading past the end of the file gives zeros. */
  function At(disk: Disk, b: nat): Block { if b in disk then disk[b] else Zeros() }

  /** The file and the counters of struct qtree_mem_dqinfo. */
  datatype Store = Store(disk: Disk, blocks: nat, freeBlk: nat, freeEntry: nat)

  /**
  What the blocks are used for: `inner` holds tree nodes, `place` says where each dquot's entry is, `pend` is an entry
  that is counted but not written yet, `avail` are the data blocks with room, `spare` the free blocks.
  */
  datatype View = View(inner: set<nat>, place: map<nat, Spot>, pend: Option<Spot>, avail: seq<nat>, spare: seq<nat>)

  /** The data blocks. */
  ghost function Data(place: map<nat, Spot>): set<nat> { set id | id in place :: place[id].blk }

  // ---- Free blocks ----

  ghost predicate FreeChain(disk: Disk, spare: seq<nat>, head: nat) {
    if spare == [] then head == 0 else head == spare[0] != 0 && FreeChain(disk, spare[1..], Next(At(disk, head)))
  }

  lemma {:induction false} FreeChainFrame(a: Disk, b: Disk, spare: seq<nat>, head: nat)
    requires FreeChain(a, spare, head) && forall i :: i in spare ==> At(b, i) == At(a, i)
    ensures FreeChain(b, spare, head)
  {
    if spare != [] {
      assert forall i :: i in spare[1..] ==> i in spare;
      FreeChainFrame(a, b, spare[1..], Next(At(a, head)));
    }
  }

  /** Blocks 2 to blocks-1 are inner nodes, data blocks and free blocks, each exactly one of these. */
  ghost predicate AllocOk(st: Store, inner: set<nat>, data: set<nat>, spare: seq<nat>) {
    && st.blocks >= 2 && NoDup(spare) && FreeChain(st.disk, spare, st.freeBlk)
    && (forall b :: b in inner ==> b !in data)
    && (forall b :: b in spare ==> b !in inner && b !in data)
    && (forall b: nat :: 2 <= b < st.blocks <==> b in inner || b in data || b in spare)
  }

  /** Every block behind the first two is counted once. */
  lemma AllBlocks(st: Store, inner: set<nat>, data: set<nat>, spare: seq<nat>)
    requires AllocOk(st, inner, data, spare)
    ensures |inner| + |data| + |spare| == st.blocks - 2
  {
    hide FreeChain, Members, UpTo;
    var free := Members(spare);
    NoDupSize(spare);
    Partitioned(st.blocks, inner, data, free);
  }

  lemma Partitioned(n: nat, a: set<nat>, b: set<nat>, c: set<nat>)
    requires n >= 2 && a !! b && c !! a && c !! b && forall x: nat :: 2 <= x < n <==> x in a || x in b || x in c
    ensures |a| + |b| + |c| == n - 2
  {
    hide UpTo;
    var all, front := UpTo(n), {0, 1};
    DisjointSize(a, b);
    DisjointSize(a + b, c);
    assert forall x :: x in all <==> x in (a + b + c) + front;
    assert all == (a + b + c) + front;
    DisjointSize(a + b + c, front);
  }

  /** n blocks were handed out: first those of the free list, from its head on, then new ones at the end of the file. */
  ghost predicate Drew(blocks: nat, spare: seq<nat>, n: nat, after: nat, left: seq<nat>) {
    if n <= |spare| then after == blocks && left == spare[n..] else after == blocks + (n - |spare|) && left == []
  }

  /** n blocks were put in front of the free list. */
  ghost predicate Returned(blocks: nat, spare: seq<nat>, n: nat, after: nat, left: seq<nat>) {
    after == blocks && |left| == n + |spare| && left[n..] == spare
  }

  /** The block the next request gets. */
  ghost function NextBlock(blocks: nat, spare: seq<nat>): nat { if spare == [] then blocks else spare[0] }

  lemma DrewNone(blocks: nat, spare: seq<nat>)
    ensures Drew(blocks, spare, 0, blocks, spare)
  {}

  lemma DrewMore(blocks: nat, spare: seq<nat>, n: nat, b1: nat, s1: seq<nat>, m: nat, b2: nat, s2: seq<nat>)
    requires Drew(blocks, spare, n, b1, s1) && Drew(b1, s1, m, b2, s2)
    ensures Drew(blocks, spare, n + m, b2, s2)
  {}

  lemma ReturnedOneMore(blocks: nat, spare: seq<nat>, n: nat, b1: nat, s1: seq<nat>, blk: nat)
    requires Returned(blocks, spare, n, b1, s1)
    ensures Returned(blocks, spare, n + 1, b1, [blk] + s1)
  {
    assert ([blk] + s1)[n + 1..] == s1[n..];
  }

  lemma TakeSpare(st: Store, inner: set<nat>, data: set<nat>, spare: seq<nat>)
    requires AllocOk(st, inner, data, spare) && st.freeBlk != 0
    ensures spare != [] && spare[0] == st.freeBlk && st.freeBlk !in inner && st.freeBlk !in data && st.freeBlk >= 2
    ensures AllocOk(st.(freeBlk := Next(At(st.disk, st.freeBlk))), inner + {st.freeBlk}, data, spare[1..])
  {
    TailNoDup(spare);
  }

  lemma TakeNew(st: Store, inner: set<nat>, data: set<nat>, spare: seq<nat>)
    requires AllocOk(st, inner, data, spare) && st.freeBlk == 0
    ensures spare == [] && st.blocks !in inner && st.blocks !in data
    ensures AllocOk(st.(disk := st.disk[st.blocks := Zeros()], blocks := st.blocks + 1), inner + {st.blocks}, data, spare)
  {}

  lemma PutSpare(st: Store, inner: set<nat>, data: set<nat>, spare: seq<nat>, blk: nat, buf: Block)
    requires AllocOk(st, inner, data, spare) && blk in inner && Next(buf) == st.freeBlk
    ensures AllocOk(st.(disk := st.disk[blk := buf], freeBlk := blk), inner - {blk}, data, [blk] + spare)
  {
    assert ([blk] + spare)[1..] == spare;
    FreeChainFrame(st.disk, st.disk[blk := buf], spare, st.freeBlk);
  }

  lemma AllocFrame(st: Store, t: Store, inner: set<nat>, data: set<nat>, spare: seq<nat>)
    requires AllocOk(st, inner, data, spare) && t.blocks == st.blocks && t.freeBlk == st.freeBlk
    requires forall b :: b in spare ==> At(t.disk, b) == At(st.disk, b)
    ensures AllocOk(t, inner, data, spare)
  {
    FreeChainFrame(st.disk, t.disk, spare, st.freeBlk);
  }

  // ---- The list of data blocks with room ----

  ghost predicate LinkedAt(disk: Disk, avail: seq<nat>, k: nat)
    requires k < |avail|
  {
    && Next(At(disk, avail[k])) == (if k + 1 < |avail| then avail[k + 1] else 0)
    && Prev(At(disk, avail[k])) == (if k > 0 then avail[k - 1] else 0)
  }

  ghost predicate ListOk(disk: Disk, avail: seq<nat>, head: nat) {
    && NoDup(avail) && 0 !in avail && head == (if avail == [] then 0 else avail[0])
    && forall k: nat {:trigger LinkedAt(disk, avail, k)} :: k < |avail| ==> LinkedAt(disk, avail, k)
  }

  lemma ListFrame(a: Disk, b: Disk, avail: seq<nat>, head: nat)
    requires ListOk(a, avail, head)
    requires forall i :: i in avail ==> Next(At(b, i)) == Next(At(a, i)) && Prev(At(b, i)) == Prev(At(a, i))
    ensures ListOk(b, avail, head)
  {
    forall k: nat | k < |avail| ensures LinkedAt(b, avail, k) {
      assert LinkedAt(a, avail, k) && avail[k] in avail;
    }
  }

  /** remove_free_dqentry on the block at place k, whose buffer has the same links. */
  ghost function RemovedEntry(disk: Disk, buf: Block, blk: nat): Disk {
    var d1 := if Next(buf) != 0 then disk[Next(buf) := SetPrev(At(disk, Next(buf)), Prev(buf))] else disk;
    var d2 := if Prev(buf) != 0 then d1[Prev(buf) := SetNext(At(d1, Prev(buf)), Next(buf))] else d1;
    d2[blk := SetPrev(SetNext(buf, 0), 0)]
  }

  ghost function Cut(q: seq<nat>, k: nat): seq<nat>
    requires k < |q|
  {
    q[..k] + q[k + 1..]
  }

  lemma CutMembers(q: seq<nat>, k: nat)
    requires k < |q| && NoDup(q)
    ensures NoDup(Cut(q, k)) && forall b :: b in Cut(q, k) <==> b in q && b != q[k]
  {
    var r := Cut(q, k);
    forall i | 0 <= i < |r| ensures r[i] == q[if i < k then i else i + 1] {}
    forall i, j | 0 <= i < j < |r| ensures r[i] != r[j] {
      assert q[if i < k then i else i + 1] != q[if j < k then j else j + 1];
    }
    forall b | b in q && b != q[k] ensures b in r {
      var i :| 0 <= i < |q| && q[i] == b;
      assert r[if i < k then i else i - 1] == b;
    }
  }

  lemma RemoveEntryKeeps(disk: Disk, avail: seq<nat>, head: nat, k: nat, buf: Block)
    requires ListOk(disk, avail, head) && k < |avail|
    requires Next(buf) == Next(At(disk, avail[k])) && Prev(buf) == Prev(At(disk, avail[k]))
    ensures ListOk(RemovedEntry(disk, buf, avail[k]), Cut(avail, k), if Prev(buf) == 0 then Next(buf) else head)
    ensures Moved(disk, RemovedEntry(disk, buf, avail[k]), avail, avail[k])
  {
    var blk, r, d := avail[k], Cut(avail, k), RemovedEntry(disk, buf, avail[k]);
    CutMembers(avail, k);
    assert LinkedAt(disk, avail, k);
    if k + 1 < |avail| { assert avail[k + 1] in avail && avail[k + 1] != blk; }
    if k > 0 { assert avail[k - 1] in avail && avail[k - 1] != blk; }
    forall j: nat | j < |r| ensures LinkedAt(d, r, j) { RemovedAt(disk, avail, k, buf, j); }
  }

  lemma RemovedAt(disk: Disk, avail: seq<nat>, k: nat, buf: Block, j: nat)
    requires NoDup(avail) && 0 !in avail && k < |avail| && j < |Cut(avail, k)|
    requires forall i: nat {:trigger LinkedAt(disk, avail, i)} :: i < |avail| ==> LinkedAt(disk, avail, i)
    requires Next(buf) == Next(At(disk, avail[k])) && Prev(buf) == Prev(At(disk, avail[k]))
    ensures LinkedAt(RemovedEntry(disk, buf, avail[k]), Cut(avail, k), j)
  {
    var r, i := Cut(avail, k), if j < k then j else j + 1;
    assert LinkedAt(disk, avail, k) && LinkedAt(disk, avail, i);
    assert r[j] == avail[i] != avail[k];
    assert avail[i] in avail;
    assert k > 0 ==> avail[k - 1] in avail;
    assert k + 1 < |avail| ==> avail[k + 1] in avail;
    assert j + 1 < |r| ==> r[j + 1] == avail[if j + 1 < k then j + 1 else j + 2];
    assert j > 0 ==> r[j - 1] == avail[if j - 1 < k then j - 1 else j];
  }

  /** Apart from blk only links changed, and only those of blocks on the list. */
  ghost predicate Moved(a: Disk, b: Disk, list: seq<nat>, blk: nat) {
    forall i: nat :: i != blk ==> Body(At(b, i)) == Body(At(a, i)) && (i !in list ==> At(b, i) == At(a, i))
  }

  /** insert_free_dqentry */
  ghost function InsertedEntry(disk: Disk, buf: Block, blk: nat, head: nat): Disk {
    var d1 := disk[blk := SetPrev(SetNext(buf, head), 0)];
    if head != 0 then d1[head := SetPrev(At(d1, head), blk)] else d1
  }

  lemma InsertEntryKeeps(disk: Disk, avail: seq<nat>, head: nat, blk: nat, buf: Block)
    requires ListOk(disk, avail, head) && blk !in avail && blk != 0
    ensures ListOk(InsertedEntry(disk, buf, blk, head), [blk] + avail, blk)
    ensures Moved(disk, InsertedEntry(disk, buf, blk, head), avail, blk)
    ensures Body(At(InsertedEntry(disk, buf, blk, head), blk)) == Body(buf)
  {
    var d, r := InsertedEntry(disk, buf, blk, head), [blk] + avail;
    forall j: nat | j < |r| ensures LinkedAt(d, r, j) {
      if j > 0 {
        assert LinkedAt(disk, avail, j - 1);
        assert r[j] == avail[j - 1] && avail[j - 1] in avail;
        assert j > 1 ==> avail[0] != avail[j - 1];
      }
    }
  }

  // ---- Entries ----

  ghost predicate Taken(place: map<nat, Spot>, p: Spot) { exists id :: id in place && place[id] == p }

  ghost predicate SpotOk(disk: Disk, p: Spot, pend: Option<Spot>, id: nat) {
    && id < 0x1_0000_0000 && p.slot < Slots
    && var e := Entry(At(disk, p.blk), p.slot);
       if pend == Some(p) then AllZero(e) else !AllZero(e) && e[0] == id
  }

  /** The header counts the entries, and every entry in use belongs to a dquot. */
  ghost predicate BlkOk(disk: Disk, place: map<nat, Spot>, pend: Option<Spot>, b: nat) {
    && Entries(At(disk, b)) == Used(At(disk, b), Slots) + (if PendingIn(pend, b) then 1 else 0)
    && forall s: nat :: s < Slots && !AllZero(Entry(At(disk, b), s)) ==> Taken(place, Spot(b, s))
  }

  ghost predicate SlotsOk(disk: Disk, place: map<nat, Spot>, pend: Option<Spot>) {
    && (forall id :: id in place ==> SpotOk(disk, place[id], pend, id))
    && (forall i, j :: i in place && j in place && place[i] == place[j] ==> i == j)
    && (forall b :: b in Data(place) ==> BlkOk(disk, place, pend, b))
  }

  lemma SpotFrame(a: Disk, b: Disk, p: Spot, pend: Option<Spot>, id: nat)
    requires SpotOk(a, p, pend, id) && Payload(At(a, p.blk)) == Payload(At(b, p.blk))
    ensures SpotOk(b, p, pend, id)
  {
    SamePayload(At(a, p.blk), At(b, p.blk), p.slot);
  }

  ghost predicate PendingIn(pend: Option<Spot>, b: nat) { pend.Some? && pend.value.blk == b }

  lemma BlkFrame(a: Disk, b: Disk, place: map<nat, Spot>, more: map<nat, Spot>, pend: Option<Spot>, later: Option<Spot>, p: nat)
    requires BlkOk(a, place, pend, p) && Body(At(a, p)) == Body(At(b, p)) && PendingIn(pend, p) == PendingIn(later, p)
    requires forall s: nat :: s < Slots && Taken(place, Spot(p, s)) ==> Taken(more, Spot(p, s))
    ensures BlkOk(b, more, later, p)
  {
    SameBody(At(a, p), At(b, p));
    SameUsed(At(a, p), At(b, p), Slots);
    forall s: nat | s < Slots ensures Entry(At(a, p), s) == Entry(At(b, p), s) { SamePayload(At(a, p), At(b, p), s); }
  }

  lemma SlotsFrame(a: Disk, b: Disk, place: map<nat, Spot>, pend: Option<Spot>)
    requires SlotsOk(a, place, pend) && forall i :: i in Data(place) ==> Body(At(a, i)) == Body(At(b, i))
    ensures SlotsOk(b, place, pend)
  {
    forall id | id in place ensures SpotOk(b, place[id], pend, id) {
      SameBody(At(a, place[id].blk), At(b, place[id].blk));
      SpotFrame(a, b, place[id], pend, id);
    }
    forall i | i in Data(place) ensures BlkOk(b, place, pend, i) { BlkFrame(a, b, place, place, pend, pend, i); }
  }

  /** A new dquot is given an unused entry, which is counted at once. */
  lemma Reserve(a: Disk, b: Disk, place: map<nat, Spot>, id: nat, p: Spot)
    requires SlotsOk(a, place, None) && id !in place && id < 0x1_0000_0000 && p.slot < Slots
    requires AllZero(Entry(At(b, p.blk), p.slot))
    requires if p.blk in Data(place) then Payload(At(b, p.blk)) == Payload(At(a, p.blk)) && Entries(At(b, p.blk)) == Entries(At(a, p.blk)) + 1
             else AllZero(Payload(At(b, p.blk))) && Entries(At(b, p.blk)) == 1
    requires forall i :: i in Data(place) && i != p.blk ==> Body(At(a, i)) == Body(At(b, i))
    ensures SlotsOk(b, place[id := p], Some(p)) && Data(place[id := p]) == Data(place) + {p.blk}
  {
    hide BlkOk, Used, Entry, Payload, Taken;
    var more := place[id := p];
    ReservedSpot(b, id, p);
    forall i | i in place ensures SpotOk(b, more[i], Some(p), i) && place[i] != p {
      SameEntry(a, b, place, p, i);
    }
    DataGrows(place, id, p);
    forall i | i in Data(more) ensures BlkOk(b, more, Some(p), i) {
      if i != p.blk {
        TakenMore(place, id, p, i);
        BlkFrame(a, b, place, more, None, Some(p), i);
      } else {
        ReservedBlk(a, b, place, id, p);
      }
    }
  }

  lemma ReservedSpot(b: Disk, id: nat, p: Spot)
    requires id < 0x1_0000_0000 && p.slot < Slots && AllZero(Entry(At(b, p.blk), p.slot))
    ensures SpotOk(b, p, Some(p), id)
  {}

  lemma TakenMore(place: map<nat, Spot>, id: nat, p: Spot, b: nat)
    requires id !in place
    ensures forall s: nat :: Taken(place, Spot(b, s)) ==> Taken(place[id := p], Spot(b, s))
  {
    forall s: nat | Taken(place, Spot(b, s)) ensures Taken(place[id := p], Spot(b, s)) {
      var i :| i in place && place[i] == Spot(b, s);
      assert place[id := p][i] == Spot(b, s);
    }
  }

  lemma SameEntry(a: Disk, b: Disk, place: map<nat, Spot>, p: Spot, i: nat)
    requires i in place && SpotOk(a, place[i], None, i) && p.slot < Slots
    requires AllZero(Entry(At(b, p.blk), p.slot))
    requires p.blk in Data(place) ==> Payload(At(b, p.blk)) == Payload(At(a, p.blk))
    requires forall j :: j in Data(place) && j != p.blk ==> Body(At(a, j)) == Body(At(b, j))
    ensures SpotOk(b, place[i], Some(p), i) && place[i] != p
  {
    var q := place[i];
    if q.blk != p.blk { SameBody(At(a, q.blk), At(b, q.blk)); }
    SamePayload(At(a, q.blk), At(b, q.blk), q.slot);
  }

  lemma DataGrows(place: map<nat, Spot>, id: nat, p: Spot)
    requires id !in place
    ensures Data(place[id := p]) == Data(place) + {p.blk}
  {
    var more := place[id := p];
    forall b | b in Data(place) ensures b in Data(more) {
      var i :| i in place && place[i].blk == b;
      assert more[i].blk == b;
    }
    assert more[id].blk == p.blk;
  }

  lemma ReservedBlk(a: Disk, b: Disk, place: map<nat, Spot>, id: nat, p: Spot)
    requires SlotsOk(a, place, None) && id !in place && p.slot < Slots
    requires if p.blk in Data(place) then Payload(At(b, p.blk)) == Payload(At(a, p.blk)) && Entries(At(b, p.blk)) == Entries(At(a, p.blk)) + 1
             else AllZero(Payload(At(b, p.blk))) && Entries(At(b, p.blk)) == 1
    ensures BlkOk(b, place[id := p], Some(p), p.blk)
  {
    var more, c := place[id := p], At(b, p.blk);
    if p.blk in Data(place) {
      assert BlkOk(a, place, None, p.blk);
      SameUsed(At(a, p.blk), c, Slots);
      forall s: nat | s < Slots && !AllZero(Entry(c, s)) ensures Taken(more, Spot(p.blk, s)) {
        SamePayload(At(a, p.blk), c, s);
        var i :| i in place && place[i] == Spot(p.blk, s);
        assert more[i] == Spot(p.blk, s);
      }
    } else {
      ZeroPayload(c);
    }
  }

  lemma ZeroPayload(c: Block)
    requires AllZero(Payload(c))
    ensures Used(c, Slots) == 0 && forall s: nat :: s < Slots ==> AllZero(Entry(c, s))
  {
    forall s: nat | s < Slots ensures AllZero(Entry(c, s)) {
      forall k | 0 <= k < 18 ensures Entry(c, s)[k] == 0 { assert Entry(c, s)[k] == Payload(c)[18 * s + k]; }
    }
    NoneUsed(c, Slots);
  }

  lemma {:induction false} NoneUsed(c: Block, n: nat)
    requires n <= Slots && forall s: nat :: s < n ==> AllZero(Entry(c, s))
    ensures Used(c, n) == 0
  {
    if n > 0 { NoneUsed(c, n - 1); }
  }

  /** Writing a dquot's entry, the first time or again. */
  lemma WriteEntry(a: Disk, place: map<nat, Spot>, pend: Option<Spot>, id: nat, e: seq<nat>)
    requires SlotsOk(a, place, pend) && id in place && (pend == None || pend == Some(place[id]))
    requires |e| == 18 && !AllZero(e) && e[0] == id
    ensures place[id].slot < Slots
    ensures var p := place[id]; SlotsOk(a[p.blk := PutEntry(At(a, p.blk), p.slot, e)], place, None)
  {
    var p := place[id];
    assert SpotOk(a, p, pend, id);
    var b := a[p.blk := PutEntry(At(a, p.blk), p.slot, e)];
    hide BlkOk, SpotOk, PutEntry, AllZero, Data;
    forall i | i in place ensures SpotOk(b, place[i], None, i) { WrittenSpot(a, place[id], id, place[i], i, pend, e); }
    forall i | i in Data(place) ensures BlkOk(b, place, None, i) {
      if i == p.blk { WrittenBlk(a, place, pend, id, e); } else { BlkOther(a, b, place, pend, i); }
    }
  }

  lemma WrittenSpot(a: Disk, p: Spot, id: nat, q: Spot, i: nat, pend: Option<Spot>, e: seq<nat>)
    requires SpotOk(a, p, pend, id) && SpotOk(a, q, pend, i) && (p == q <==> id == i) && (pend == None || pend == Some(p))
    requires |e| == 18 && !AllZero(e) && e[0] == id
    ensures SpotOk(a[p.blk := PutEntry(At(a, p.blk), p.slot, e)], q, None, i)
  {
    PutEntryAt(At(a, p.blk), p.slot, e, q.slot);
  }

  lemma WrittenBlk(a: Disk, place: map<nat, Spot>, pend: Option<Spot>, id: nat, e: seq<nat>)
    requires id in place && (pend == None || pend == Some(place[id])) && place[id].slot < Slots
    requires SpotOk(a, place[id], pend, id) && BlkOk(a, place, pend, place[id].blk)
    requires |e| == 18 && !AllZero(e)
    ensures var p := place[id]; BlkOk(a[p.blk := PutEntry(At(a, p.blk), p.slot, e)], place, None, p.blk)
  {
    var p := place[id];
    var c := PutEntry(At(a, p.blk), p.slot, e);
    UsedAfterPut(At(a, p.blk), p.slot, e, Slots);
    PutEntryAt(At(a, p.blk), p.slot, e, 0);
    forall s: nat | s < Slots && !AllZero(Entry(c, s)) ensures Taken(place, Spot(p.blk, s)) {
      PutEntryAt(At(a, p.blk), p.slot, e, s);
    }
  }

  lemma BlkOther(a: Disk, b: Disk, place: map<nat, Spot>, pend: Option<Spot>, i: nat)
    requires BlkOk(a, place, pend, i) && At(b, i) == At(a, i) && (pend.Some? ==> pend.value.blk != i)
    ensures BlkOk(b, place, None, i)
  {}

  /** The last dquot of a block goes: the block holds no data any more. */
  lemma ReleaseLast(a: Disk, place: map<nat, Spot>, id: nat)
    requires SlotsOk(a, place, None) && id in place && Entries(At(a, place[id].blk)) == 1
    ensures SlotsOk(a, place - {id}, None) && Data(place - {id}) == Data(place) - {place[id].blk}
  {
    var p, less := place[id], place - {id};
    assert SpotOk(a, p, None, id) && BlkOk(a, place, None, p.blk);
    forall i | i in less ensures place[i].blk != p.blk {
      if place[i].blk == p.blk {
        assert SpotOk(a, place[i], None, i);
        TwoUsed(At(a, p.blk), p.slot, place[i].slot);
        assert false;
      }
    }
    DataShrinks(place, id);
    forall i | i in Data(less) ensures BlkOk(a, less, None, i) {
      assert BlkOk(a, place, None, i);
      TakenElsewhere(place, id, i);
    }
  }

  lemma TakenElsewhere(place: map<nat, Spot>, id: nat, b: nat)
    requires id in place && place[id].blk != b
    ensures forall s: nat :: Taken(place, Spot(b, s)) ==> Taken(place - {id}, Spot(b, s))
  {
    forall s: nat | Taken(place, Spot(b, s)) ensures Taken(place - {id}, Spot(b, s)) {
      var i :| i in place && place[i] == Spot(b, s);
      assert (place - {id})[i] == Spot(b, s);
    }
  }

  lemma DataShrinks(place: map<nat, Spot>, id: nat)
    requires id in place && forall i :: i in place && i != id ==> place[i].blk != place[id].blk
    ensures Data(place - {id}) == Data(place) - {place[id].blk}
  {
    var less := place - {id};
    forall b | b in Data(place) && b != place[id].blk ensures b in Data(less) {
      var i :| i in place && place[i].blk == b;
      assert less[i].blk == b;
    }
  }

  lemma TwoUsed(b: Block, s: nat, t: nat)
    requires s < Slots && t < Slots && s != t && !AllZero(Entry(b, s)) && !AllZero(Entry(b, t))
    ensures Used(b, Slots) >= 2
  {
    var z := seq(18, _ => 0);
    UsedAfterPut(b, s, z, Slots);
    PutEntryAt(b, s, z, t);
    UsedPositive(PutEntry(b, s, z), t, Slots);
  }

  /** A dquot goes and others of its block stay: the entry is zeroed and counted down. */
  lemma ReleaseOne(a: Disk, b: Disk, place: map<nat, Spot>, id: nat)
    requires SlotsOk(a, place, None) && id in place && place[id].slot < Slots && Entries(At(a, place[id].blk)) != 1
    requires var p := place[id]; Payload(At(b, p.blk)) == Payload(PutEntry(At(a, p.blk), p.slot, seq(18, _ => 0)))
    requires Entries(At(b, place[id].blk)) == Entries(At(a, place[id].blk)) - 1
    requires forall i :: i in Data(place) && i != place[id].blk ==> Body(At(a, i)) == Body(At(b, i))
    ensures SlotsOk(b, place - {id}, None) && Data(place - {id}) == Data(place)
  {
    hide BlkOk, SpotOk, Used, Entry, Payload, Taken, PutEntry, Entries;
    var p, less := place[id], place - {id};
    forall i | i in less ensures SpotOk(b, less[i], None, i) { KeptEntry(a, b, place, id, i); }
    ReleasedBlk(a, b, place, id);
    forall i | i in Data(less) ensures BlkOk(b, less, None, i) {
      if i != p.blk {
        TakenElsewhere(place, id, i);
        BlkFrame(a, b, place, less, None, None, i);
      }
    }
    DataKept(place, id);
  }

  lemma DataKept(place: map<nat, Spot>, id: nat)
    requires id in place && place[id].blk in Data(place - {id})
    ensures Data(place - {id}) == Data(place)
  {
    var less := place - {id};
    forall i | i in Data(place) && i != place[id].blk ensures i in Data(less) {
      var j :| j in place && place[j].blk == i;
      assert less[j].blk == i;
    }
  }

  lemma KeptEntry(a: Disk, b: Disk, place: map<nat, Spot>, id: nat, i: nat)
    requires id in place && i in place && place[i] != place[id] && SpotOk(a, place[i], None, i) && place[id].slot < Slots
    requires var p := place[id]; Payload(At(b, p.blk)) == Payload(PutEntry(At(a, p.blk), p.slot, seq(18, _ => 0)))
    requires forall j :: j in Data(place) && j != place[id].blk ==> Body(At(a, j)) == Body(At(b, j))
    ensures SpotOk(b, place[i], None, i)
  {
    var p, q, z := place[id], place[i], seq(18, _ => 0);
    if q.blk == p.blk {
      PutEntryAt(At(a, p.blk), p.slot, z, q.slot);
      SamePayload(PutEntry(At(a, p.blk), p.slot, z), At(b, p.blk), q.slot);
    } else {
      SameBody(At(a, q.blk), At(b, q.blk));
      SpotFrame(a, b, q, None, i);
    }
  }

  lemma ReleasedBlk(a: Disk, b: Disk, place: map<nat, Spot>, id: nat)
    requires SlotsOk(a, place, None) && id in place && place[id].slot < Slots && Entries(At(a, place[id].blk)) != 1
    requires var p := place[id]; Payload(At(b, p.blk)) == Payload(PutEntry(At(a, p.blk), p.slot, seq(18, _ => 0)))
    requires Entries(At(b, place[id].blk)) == Entries(At(a, place[id].blk)) - 1
    ensures BlkOk(b, place - {id}, None, place[id].blk) && place[id].blk in Data(place - {id})
  {
    var p, z, less := place[id], seq(18, _ => 0), place - {id};
    var x, y, c := At(a, p.blk), PutEntry(At(a, p.blk), p.slot, z), At(b, p.blk);
    assert BlkOk(a, place, None, p.blk) && SpotOk(a, p, None, id);
    UsedAfterPut(x, p.slot, z, Slots);
    SameUsed(y, c, Slots);
    forall s: nat | s < Slots && !AllZero(Entry(c, s)) ensures Taken(less, Spot(p.blk, s)) {
      SamePayload(y, c, s);
      PutEntryAt(x, p.slot, z, s);
      var i :| i in place && place[i] == Spot(p.blk, s);
      assert less[i] == Spot(p.blk, s);
    }
    var s := SomeUsed(c, Slots);
    var i :| i in less && less[i] == Spot(p.blk, s);
    assert less[i].blk == p.blk;
  }

  lemma {:induction false} SomeUsed(b: Block, n: nat) returns (s: nat)
    requires n <= Slots && Used(b, n) > 0
    ensures s < n && !AllZero(Entry(b, s))
  {
    if !AllZero(Entry(b, n - 1)) { s := n - 1; } else { s := SomeUsed(b, n - 1); }
  }

  // ---- Everything ----

  ghost predicate Roomy(disk: Disk, data: set<nat>, b: nat) { b in data && Entries(At(disk, b)) < Slots }

  ghost predicate StoreOk(st: Store, v: View) {
    && AllocOk(st, v.inner, Data(v.place), v.spare) && SlotsOk(st.disk, v.place, v.pend)
    && ListOk(st.disk, v.avail, st.freeEntry)
    && forall b :: b in v.avail <==> Roomy(st.disk, Data(v.place), b)
  }

  /** Writing a tree node, or a block on its way to become one, leaves the rest alone. */
  lemma StoreFrame(st: Store, v: View, blk: nat, buf: Block)
    requires StoreOk(st, v) && blk !in Data(v.place) && blk !in v.spare
    ensures StoreOk(st.(disk := st.disk[blk := buf]), v)
  {
    hide AllocOk, SlotsOk, ListOk, Data;
    var t := st.(disk := st.disk[blk := buf]);
    AllocFrame(st, t, v.inner, Data(v.place), v.spare);
    SlotsFrame(st.disk, t.disk, v.place, v.pend);
    assert Roomy(st.disk, Data(v.place), blk) <==> blk in v.avail;
    ListFrame(st.disk, t.disk, v.avail, st.freeEntry);
    forall b ensures Roomy(t.disk, Data(v.place), b) == Roomy(st.disk, Data(v.place), b) {}
  }

  /** Tree nodes, and the two blocks before all others, are as they were. */
  ghost predicate InnerSame(a: Disk, b: Disk, inner: set<nat>) {
    forall i: nat :: i in inner || i < 2 ==> At(b, i) == At(a, i)
  }

  lemma GotBlock(st: Store, v: View)
    requires StoreOk(st, v)
    ensures st.freeBlk != 0 ==> v.spare != [] && v.spare[0] == st.freeBlk && st.freeBlk !in v.inner + Data(v.place) && st.freeBlk >= 2
    ensures st.freeBlk != 0 ==>
      StoreOk(st.(freeBlk := Next(At(st.disk, st.freeBlk))), v.(inner := v.inner + {st.freeBlk}, spare := v.spare[1..]))
    ensures st.freeBlk == 0 ==> st.blocks !in v.inner + Data(v.place) && st.blocks >= 2 && v.spare == []
    ensures st.freeBlk == 0 ==>
      StoreOk(st.(disk := st.disk[st.blocks := Zeros()], blocks := st.blocks + 1), v.(inner := v.inner + {st.blocks}))
  {
    hide SlotsOk, ListOk, Data;
    if st.freeBlk != 0 {
      TakeSpare(st, v.inner, Data(v.place), v.spare);
    } else {
      TakeNew(st, v.inner, Data(v.place), v.spare);
      var t := st.(disk := st.disk[st.blocks := Zeros()]);
      SlotsFrame(st.disk, t.disk, v.place, v.pend);
      assert Roomy(st.disk, Data(v.place), st.blocks) <==> st.blocks in v.avail;
      ListFrame(st.disk, t.disk, v.avail, st.freeEntry);
      forall b ensures Roomy(t.disk, Data(v.place), b) == Roomy(st.disk, Data(v.place), b) {}
    }
  }

  lemma PutBlock(st: Store, v: View, blk: nat, buf: Block)
    requires StoreOk(st, v) && blk in v.inner && Next(buf) == st.freeBlk
    ensures StoreOk(st.(disk := st.disk[blk := buf], freeBlk := blk), v.(inner := v.inner - {blk}, spare := [blk] + v.spare))
  {
    hide SlotsOk, ListOk, Data;
    var t := st.(disk := st.disk[blk := buf], freeBlk := blk);
    PutSpare(st, v.inner, Data(v.place), v.spare, blk, buf);
    SlotsFrame(st.disk, t.disk, v.place, v.pend);
    assert Roomy(st.disk, Data(v.place), blk) <==> blk in v.avail;
    ListFrame(st.disk, t.disk, v.avail, st.freeEntry);
    forall b ensures Roomy(t.disk, Data(v.place), b) == Roomy(st.disk, Data(v.place), b) {}
  }

  /** find_free_dqentry in a block that had room before. */
  lemma ReservedOld(st: Store, v: View, t: Store, left: seq<nat>, id: nat, p: Spot)
    requires StoreOk(st, v) && v.pend == None && id !in v.place && id < 0x1_0000_0000 && p.slot < Slots
    requires t.blocks == st.blocks && t.freeBlk == st.freeBlk && p.blk in v.avail
    requires Moved(st.disk, t.disk, v.avail, p.blk) && ListOk(t.disk, left, t.freeEntry)
    requires Payload(At(t.disk, p.blk)) == Payload(At(st.disk, p.blk)) && AllZero(Entry(At(t.disk, p.blk), p.slot))
    requires Entries(At(t.disk, p.blk)) == Entries(At(st.disk, p.blk)) + 1
    requires forall b :: b in left <==> b in v.avail && (b == p.blk ==> Entries(At(t.disk, b)) < Slots)
    ensures StoreOk(t, v.(place := v.place[id := p], pend := Some(p), avail := left))
  {
    assert Roomy(st.disk, Data(v.place), p.blk);
    AvailIsData(st, v);
    hide SlotsOk, ListOk, Data, AllocOk, Entry, Payload, Body;
    Reserve(st.disk, t.disk, v.place, id, p);
    var data := Data(v.place);
    assert Data(v.place[id := p]) == data;
    SpareApart(st, v);
    AllocFrame(st, t, v.inner, data, v.spare);
    forall b ensures Roomy(t.disk, data, b) <==> b in left {
      assert b in v.avail <==> Roomy(st.disk, data, b);
      if b != p.blk { SameBody(At(st.disk, b), At(t.disk, b)); }
    }
  }

  lemma AvailIsData(st: Store, v: View)
    requires StoreOk(st, v)
    ensures forall b :: b in v.avail ==> b in Data(v.place)
  {
    forall b | b in v.avail ensures b in Data(v.place) { assert Roomy(st.disk, Data(v.place), b); }
  }

  lemma SpareApart(st: Store, v: View)
    requires StoreOk(st, v)
    ensures forall b :: b in v.spare ==> b !in v.avail && b !in Data(v.place) && b !in v.inner && b >= 2
    ensures forall b :: b in v.inner ==> b !in v.avail && b !in Data(v.place) && b >= 2
    ensures forall b :: b in v.avail ==> b >= 2
  {
    AvailIsData(st, v);
  }

  lemma BecomesData(st: Store, inner: set<nat>, data: set<nat>, spare: seq<nat>, blk: nat)
    requires AllocOk(st, inner, data, spare) && blk in inner
    ensures AllocOk(st, inner - {blk}, data + {blk}, spare)
  {}

  lemma BecomesInner(st: Store, inner: set<nat>, data: set<nat>, spare: seq<nat>, blk: nat)
    requires AllocOk(st, inner, data, spare) && blk in data
    ensures AllocOk(st, inner + {blk}, data - {blk}, spare)
  {}

  /** find_free_dqentry in a block just allocated. */
  lemma ReservedNew(st: Store, v: View, blk: nat, id: nat)
    requires StoreOk(st, v) && v.pend == None && id !in v.place && id < 0x1_0000_0000
    requires blk in v.inner && st.freeEntry == 0
    ensures StoreOk(st.(disk := st.disk[blk := FirstEntry()], freeEntry := blk),
      v.(inner := v.inner - {blk}, place := v.place[id := Spot(blk, 0)], pend := Some(Spot(blk, 0)), avail := [blk]))
  {
    var c := FirstEntry();
    var t := st.(disk := st.disk[blk := c], freeEntry := blk);
    var data := Data(v.place);
    SpareApart(st, v);
    assert v.avail == [];
    FirstEntryIs();
    assert ListOk(t.disk, [blk], blk) by { assert LinkedAt(t.disk, [blk], 0); }
    hide SlotsOk, ListOk, Data, Entry, AllocOk, Payload, FirstEntry;
    Reserve(st.disk, t.disk, v.place, id, Spot(blk, 0));
    AllocFrame(st, t, v.inner, data, v.spare);
    BecomesData(t, v.inner, data, v.spare, blk);
    OnlyNewRoomy(st.disk, t.disk, data, blk);
  }

  lemma OnlyNewRoomy(a: Disk, b: Disk, data: set<nat>, blk: nat)
    requires forall i :: !Roomy(a, data, i)
    requires Entries(At(b, blk)) == 1 && forall i: nat :: i != blk ==> At(b, i) == At(a, i)
    ensures forall i :: i in [blk] <==> Roomy(b, data + {blk}, i)
  {
    forall i ensures i in [blk] <==> Roomy(b, data + {blk}, i) { assert !Roomy(a, data, i); }
  }

  function FirstEntry(): Block { SetEntries(Zeros(), 1) }

  lemma FirstEntryIs()
    ensures AllZero(Payload(FirstEntry())) && Entries(FirstEntry()) == 1 && AllZero(Entry(FirstEntry(), 0))
    ensures Next(FirstEntry()) == 0 && Prev(FirstEntry()) == 0
  {
    ZeroPayload(FirstEntry());
  }

  /** free_dqentry of one of several entries of a block. */
  lemma ReleasedOne(st: Store, v: View, t: Store, left: seq<nat>, id: nat)
    requires StoreOk(st, v) && v.pend == None && id in v.place && v.place[id].slot < Slots
    requires t.blocks == st.blocks && t.freeBlk == st.freeBlk && Entries(At(st.disk, v.place[id].blk)) != 1
    requires Moved(st.disk, t.disk, v.avail, v.place[id].blk) && ListOk(t.disk, left, t.freeEntry)
    requires var p := v.place[id]; Payload(At(t.disk, p.blk)) == Payload(PutEntry(At(st.disk, p.blk), p.slot, seq(18, _ => 0)))
    requires Entries(At(t.disk, v.place[id].blk)) == Entries(At(st.disk, v.place[id].blk)) - 1 < Slots
    requires forall b :: b in left <==> b in v.avail || b == v.place[id].blk
    ensures StoreOk(t, v.(place := v.place - {id}, avail := left))
  {
    var blk, data := v.place[id].blk, Data(v.place);
    SpareApart(st, v);
    assert blk in data;
    hide SlotsOk, ListOk, Data, AllocOk, Entry, Payload, Body, PutEntry;
    ReleaseOne(st.disk, t.disk, v.place, id);
    AllocFrame(st, t, v.inner, data, v.spare);
    forall b ensures Roomy(t.disk, data, b) <==> b in left {
      assert b in v.avail <==> Roomy(st.disk, data, b);
      if b != blk { SameBody(At(st.disk, b), At(t.disk, b)); }
    }
  }

  /** free_dqentry of a block's last entry, up to remove_free_dqentry: the block is nobody's. */
  lemma ReleasedLast(st: Store, v: View, t: Store, left: seq<nat>, id: nat)
    requires StoreOk(st, v) && v.pend == None && id in v.place
    requires t.blocks == st.blocks && t.freeBlk == st.freeBlk && Entries(At(st.disk, v.place[id].blk)) == 1
    requires Moved(st.disk, t.disk, v.avail, v.place[id].blk) && ListOk(t.disk, left, t.freeEntry)
    requires forall b :: b in left <==> b in v.avail && b != v.place[id].blk
    ensures StoreOk(t, v.(inner := v.inner + {v.place[id].blk}, place := v.place - {id}, avail := left))
  {
    var blk, data, less := v.place[id].blk, Data(v.place), v.place - {id};
    SpareApart(st, v);
    assert blk in data;
    hide SlotsOk, ListOk, Data, Entry, Payload, Body, AllocOk;
    ReleaseLast(st.disk, v.place, id);
    SlotsFrame(st.disk, t.disk, less, None);
    AllocFrame(st, t, v.inner, data, v.spare);
    BecomesInner(t, v.inner, data, v.spare, blk);
    forall b ensures Roomy(t.disk, data - {blk}, b) <==> b in left {
      assert b in v.avail <==> Roomy(st.disk, data, b);
      if b != blk { SameBody(At(st.disk, b), At(t.disk, b)); }
    }
  }
}
