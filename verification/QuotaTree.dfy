/**
The quota file of f2fs-tools: an on-disk radix tree from ids to dquots, with lists of free blocks and of data blocks
with room. Reading and writing the file does not fail.
*/
module QuotaTree {
  import opened Basics
  import opened QuotaBlocks
  import opened QuotaStore
  import opened QuotaRefs

  /** struct dquot; off is 0 while the dquot has no entry in the file. */
  datatype Dquot = Dquot(id: nat, m: Dqblk, off: nat)

  const NoQuota: Dqblk := Dqblk(0, 0, 0, 0, 0, 0, 0, 0)

  ghost function EntryAt(disk: Disk, p: Spot): (e: seq<nat>)
    ensures |e| == 18
  {
    if p.slot < Slots then Entry(At(disk, p.blk), p.slot) else seq(18, _ => 0)
  }

  ghost function ContentsOf(disk: Disk, place: map<nat, Spot>): map<nat, Dqblk> {
    map id | id in place :: Disk2Mem(EntryAt(disk, place[id])).1
  }

  /** The entries of these dquots have not changed. */
  ghost predicate SameEntries(a: Disk, b: Disk, place: map<nat, Spot>) {
    forall id :: id in place ==> EntryAt(b, place[id]) == EntryAt(a, place[id])
  }

  function OneIf(b: bool): nat { if b then 1 else 0 }

  /** The first entry of the block that is not in use. */
  ghost predicate LowestUnused(b: Block, slot: nat) {
    slot < Slots && AllZero(Entry(b, slot)) && forall s: nat :: s < slot ==> !AllZero(Entry(b, s))
  }

  /** The blocks with room after one more entry of the first of them, which had `entries`, or of a new block. */
  function AvailAfter(avail: seq<nat>, entries: nat, blk: nat): seq<nat> {
    if avail == [] then [blk] else if entries + 1 >= Slots then avail[1..] else avail
  }

  /** The blocks with room after one entry less of blk, which had `entries`. */
  ghost predicate AvailFreed(avail: seq<nat>, entries: nat, blk: nat, after: seq<nat>) {
    if entries == 1 then exists k: nat :: k < |avail| && avail[k] == blk && after == Cut(avail, k)
    else if entries == Slots then after == [blk] + avail
    else after == avail
  }

  lemma MissingFrom(ref: Refs, id: nat, d: nat)
    requires d <= 4
    ensures Missing(ref, id, d) == if d == 4 then 0 else OneIf(Path(id)[..d] !in ref) + Missing(ref, id, d + 1)
  {}

  lemma PayloadsSame(a: Disk, b: Disk, place: map<nat, Spot>)
    requires forall i :: i in Data(place) ==> Payload(At(b, i)) == Payload(At(a, i))
    ensures SameEntries(a, b, place)
  {
    forall id | id in place ensures EntryAt(b, place[id]) == EntryAt(a, place[id]) {
      if place[id].slot < Slots { SamePayload(At(a, place[id].blk), At(b, place[id].blk), place[id].slot); }
    }
  }

  lemma MovedPayloads(a: Disk, b: Disk, list: seq<nat>, blk: nat, place: map<nat, Spot>)
    requires Moved(a, b, list, blk) && (blk in Data(place) ==> Payload(At(b, blk)) == Payload(At(a, blk)))
    ensures SameEntries(a, b, place)
  {
    forall i | i in Data(place) ensures Payload(At(b, i)) == Payload(At(a, i)) {
      if i != blk { SameBody(At(a, i), At(b, i)); }
    }
    PayloadsSame(a, b, place);
  }

  class QuotaFile {
    var disk: Disk
    var blocks: nat      // dqi_blocks
    var freeBlk: nat     // dqi_free_blk
    var freeEntry: nat   // dqi_free_entry
    ghost var v: View
    ghost var ref: Refs

    function St(): Store
      reads this
    {
      Store(disk, blocks, freeBlk, freeEntry)
    }

    /** What holds between two operations. */
    ghost predicate Valid()
      reads this
    {
      && StoreOk(St(), v) && v.pend == None && RefsOk(ref, v.inner) && LeafBlocks(ref, v.place) && Keys(ref, v.place)
      && Lower(disk, ref, 0) && v.inner == InnerBlocks(ref)
    }

    /** What the file says: the dquot of every stored id. */
    ghost function Contents(): map<nat, Dqblk>
      reads this
    {
      ContentsOf(disk, v.place)
    }

    /** The dqb_off that a dquot of this id has when it was read after the last change. */
    ghost function Offset(id: nat): nat
      reads this
    {
      if id in v.place then OffsetOf(v.place[id]) else 0
    }

    /**
    Every block after the root is an inner node, a data block or on the free list, and only one of these; a data block
    is on the list of blocks with room exactly when it is not full, and its header counts its entries in use.
    */
    lemma BlocksSplit(b: nat)
      requires Valid()
      ensures 2 <= b < blocks <==> b in InnerBlocks(ref) || b in Data(v.place) || b in v.spare
      ensures !(b in InnerBlocks(ref) && b in Data(v.place)) && !(b in InnerBlocks(ref) && b in v.spare)
      ensures !(b in Data(v.place) && b in v.spare)
      ensures NoDup(v.spare) && FreeChain(disk, v.spare, freeBlk) && ListOk(disk, v.avail, freeEntry)
      ensures b in v.avail <==> b in Data(v.place) && Entries(At(disk, b)) < Slots
      ensures b in Data(v.place) ==> 1 <= Entries(At(disk, b)) == Used(At(disk, b), Slots)
    {
      assert b in v.avail <==> Roomy(disk, Data(v.place), b);
      if b in Data(v.place) {
        var id :| id in v.place && v.place[id].blk == b;
        EntryCounted(St(), v, id);
        assert BlkOk(disk, v.place, v.pend, b);
      }
    }

    /** No block is lost: nodes, data blocks and free blocks make up the file behind its first two blocks. */
    lemma BlocksConserved()
      requires Valid()
      ensures |InnerBlocks(ref)| + |Data(v.place)| + |v.spare| == blocks - 2
    {
      hide Data, SlotsOk, ListOk;
      AllBlocks(St(), v.inner, Data(v.place), v.spare);
    }

    /** v2_new_io: nothing but the root, which is zero because the file ends before it. */
    constructor ()
      ensures Valid() && Contents() == map[] && blocks == 2 && freeBlk == 0 && freeEntry == 0 && v.spare == []
    {
      disk, blocks, freeBlk, freeEntry := map[], 2, 0, 0;
      v := View({}, map[], None, [], []);
      ref := map[[] := 1];
      new;
      EmptyTree();
    }

    /** get_free_dqblk */
    method GetFreeDqblk() returns (blk: nat)
      requires StoreOk(St(), v)
      modifies this
      ensures StoreOk(St(), v) && ref == old(ref) && freeEntry == old(freeEntry)
      ensures v == old(v).(inner := old(v.inner) + {blk}, spare := v.spare)
      ensures blk !in old(v.inner) && blk !in Data(v.place) && blk >= 2
      ensures if old(freeBlk) != 0 then blk == old(freeBlk) && blocks == old(blocks) && old(v.spare) == [blk] + v.spare
              else blk == old(blocks) && blocks == old(blocks) + 1 && old(v.spare) == v.spare == []
      ensures blk == NextBlock(old(blocks), old(v.spare)) && Drew(old(blocks), old(v.spare), 1, blocks, v.spare)
      ensures forall i: nat :: i != blk ==> At(disk, i) == At(old(disk), i)
    {
      hide StoreOk, Data;
      GotBlock(St(), v);
      if freeBlk != 0 {
        blk := freeBlk;
        freeBlk := Next(At(disk, blk));
        v := v.(inner := v.inner + {blk}, spare := v.spare[1..]);
      } else {
        disk := disk[blocks := Zeros()];
        blk := blocks;
        blocks := blocks + 1;
        v := v.(inner := v.inner + {blk});
      }
    }

    /** put_free_dqblk */
    method PutFreeDqblk(buffer: Block, blk: nat)
      requires StoreOk(St(), v) && blk in v.inner
      modifies this
      ensures StoreOk(St(), v) && ref == old(ref)
      ensures v == old(v).(inner := old(v.inner) - {blk}, spare := [blk] + old(v.spare)) && blocks == old(blocks)
      ensures forall i: nat :: i != blk ==> At(disk, i) == At(old(disk), i)
    {
      hide StoreOk;
      var buf := SetEntries(SetPrev(SetNext(buffer, freeBlk), 0), 0);
      PutBlock(St(), v, blk, buf);
      freeBlk := blk;
      disk := disk[blk := buf];
      v := v.(inner := v.inner - {blk}, spare := [blk] + v.spare);
    }

    /** remove_free_dqentry */
    method RemoveFreeDqentry(buffer: Block, blk: nat) returns (buf: Block)
      modifies this
      ensures disk == RemovedEntry(old(disk), buffer, blk) && buf == SetPrev(SetNext(buffer, 0), 0) == At(disk, blk)
      ensures freeEntry == (if Prev(buffer) == 0 then Next(buffer) else old(freeEntry))
      ensures blocks == old(blocks) && freeBlk == old(freeBlk) && v == old(v) && ref == old(ref)
    {
      var nextblk, prevblk := Next(buffer), Prev(buffer);
      if nextblk != 0 {
        disk := disk[nextblk := SetPrev(At(disk, nextblk), prevblk)];
      }
      if prevblk != 0 {
        disk := disk[prevblk := SetNext(At(disk, prevblk), nextblk)];
      } else {
        freeEntry := nextblk;
      }
      buf := SetPrev(SetNext(buffer, 0), 0);
      disk := disk[blk := buf];
    }

    /** insert_free_dqentry */
    method InsertFreeDqentry(buffer: Block, blk: nat)
      modifies this
      ensures disk == InsertedEntry(old(disk), buffer, blk, old(freeEntry)) && freeEntry == blk
      ensures blocks == old(blocks) && freeBlk == old(freeBlk) && v == old(v) && ref == old(ref)
    {
      disk := disk[blk := SetPrev(SetNext(buffer, freeEntry), 0)];
      if freeEntry != 0 {
        disk := disk[freeEntry := SetPrev(At(disk, freeEntry), blk)];
      }
      freeEntry := blk;
    }

    /** qtree_entry_unused */
    static method EntryUnused(e: seq<nat>) returns (unused: bool)
      ensures unused <==> AllZero(e)
    {
      for i := 0 to |e|
        invariant forall k :: 0 <= k < i ==> e[k] == 0
      {
        if e[i] != 0 { return false; }
      }
      return true;
    }

    /** The search for an unused entry in find_free_dqentry. */
    static method FirstUnused(buf: Block) returns (i: nat)
      ensures i <= Slots && (i < Slots ==> AllZero(Entry(buf, i)))
      ensures forall s: nat :: s < i ==> !AllZero(Entry(buf, s))
    {
      i := 0;
      while i < Slots
        invariant i <= Slots && forall s: nat :: s < i ==> !AllZero(Entry(buf, s))
      {
        var unused := EntryUnused(Entry(buf, i));
        if unused { break; }
        i := i + 1;
      }
    }

    /** find_free_dqentry: an unused entry is counted for the dquot; its contents are written later. */
    method FindFreeDqentry(id: nat) returns (blk: nat, off: nat)
      requires StoreOk(St(), v) && v.pend == None && id !in v.place && id < 0x1_0000_0000
      modifies this
      ensures StoreOk(St(), v) && ref == old(ref) && id in v.place
      ensures v == old(v).(place := old(v.place)[id := v.place[id]], pend := Some(v.place[id]), avail := v.avail, spare := v.spare)
      ensures blk == v.place[id].blk >= 2 && off == OffsetOf(v.place[id])
      ensures blk == if old(freeEntry) != 0 then old(freeEntry) else NextBlock(old(blocks), old(v.spare))
      ensures LowestUnused(if old(freeEntry) != 0 then At(old(disk), blk) else Zeros(), v.place[id].slot)
      ensures v.avail == AvailAfter(old(v.avail), Entries(At(old(disk), old(freeEntry))), blk)
      ensures Drew(old(blocks), old(v.spare), OneIf(old(freeEntry) == 0), blocks, v.spare)
      ensures InnerSame(old(disk), disk, v.inner) && SameEntries(old(disk), disk, old(v.place))
    {
      hide StoreOk, Data, Entry, Payload, AllZero, RemovedEntry, Body, Moved, ListOk, LowestUnused, AvailAfter, Drew, NextBlock;
      var buf;
      if freeEntry != 0 {
        HeadHasRoom(St(), v);
        HeadCounted(St(), v, freeEntry);
        DrewNone(blocks, v.spare);
        blk := freeEntry;
        buf := At(disk, blk);
      } else {
        NoneWithRoom(St(), v);
        NewCounted(Entries(At(disk, 0)));
        FirstOfZeros();
        blk := GetFreeDqblk();
        buf := Zeros();
        freeEntry := blk;
      }
      ghost var st, left := St(), v.avail;
      NothingMoved(disk, left, blk);
      if Entries(buf) + 1 >= Slots {
        FirstRemoved(st, v);
        left := Cut(v.avail, 0);
        buf := RemoveFreeDqentry(buf, blk);
      }
      ghost var d := disk;
      buf := SetEntries(buf, Entries(buf) + 1);
      var i := FirstUnused(buf);
      disk := disk[blk := buf];
      off := blk * 1024 + 16 + i * 72;
      if old(freeEntry) != 0 {
        ReservedAtHead(st, v, d, freeEntry, left, i, id);
        v := v.(place := v.place[id := Spot(blk, i)], pend := Some(Spot(blk, i)), avail := left);
      } else {
        FirstSlot(buf, i);
        ReservedNew(st.(freeEntry := 0), v, blk, id);
        PayloadsSame(old(disk), disk, v.place);
        v := v.(inner := v.inner - {blk}, place := v.place[id := Spot(blk, 0)], pend := Some(Spot(blk, 0)), avail := [blk]);
      }
    }

    /** The start of do_insert_tree: a new node gets a block and an empty buffer, an old one is read. */
    method OpenNode(treeblk: nat, ghost p: seq<nat>) returns (blk: nat, buf: Block)
      requires StoreOk(St(), v) && RefsOk(ref, v.inner) && Closed(ref) && Upper(disk, ref, 4) && Lower(disk, ref, 0)
      requires treeblk == Lookup(ref, p) && |p| < 4
      modifies this
      ensures StoreOk(St(), v) && ref == old(ref) && v == old(v).(inner := v.inner, spare := v.spare) && freeEntry == old(freeEntry)
      ensures Drew(old(blocks), old(v.spare), OneIf(p !in ref), blocks, v.spare)
      ensures blk == if p in ref then ref[p] else NextBlock(old(blocks), old(v.spare))
      ensures RefsOk(ref, v.inner) && Upper(disk, ref, 4) && Lower(disk, ref, 0) && NodeRead(buf, ref, p)
      ensures Limbo(v.inner, ref) == Limbo(old(v.inner), ref) + (if p in ref then {} else {blk})
      ensures if p in ref then blk == ref[p] else blk !in Limbo(old(v.inner), ref) && blk >= 2
      ensures SameEntries(old(disk), disk, v.place)
    {
      hide StoreOk, Data, RefsOk, Closed, Upper, Lower, NodeRead, Drew, NextBlock;
      DrewNone(blocks, v.spare);
      LookupZero(ref, v.inner, p);
      blk := treeblk;
      if blk == 0 {
        blk := GetFreeDqblk();
        buf := Zeros();
        NoNodeRead(ref, p);
        NodesSame(old(disk), disk, ref, old(v.inner), 4);
        NodesSame(old(disk), disk, ref, old(v.inner), 0);
        MoreInner(ref, old(v.inner), blk);
        PayloadsSame(old(disk), disk, v.place);
      } else {
        buf := At(disk, blk);
        NodeIsRead(disk, ref, p);
      }
    }

    /** The deepest level of do_insert_tree: the dquot gets its entry. */
    method InsertLeaf(id: nat) returns (blk: nat, off: nat)
      requires StoreOk(St(), v) && v.pend == None && id !in v.place && id < 0x1_0000_0000
      requires RefsOk(ref, v.inner) && LeafBlocks(ref, v.place) && Path(id) !in ref && Upper(disk, ref, 4)
      modifies this
      ensures StoreOk(St(), v) && id in v.place && v.place == old(v.place)[id := v.place[id]] && v.pend == Some(v.place[id])
      ensures RefsOk(ref, v.inner) && LeafBlocks(ref, v.place) && Grown(old(ref), ref, id, 4)
      ensures Upper(disk, old(ref), 4) && Lower(disk, ref, 4)
      ensures Limbo(v.inner, ref) == Limbo(old(v.inner), old(ref))
      ensures blk == Lookup(ref, Path(id)[..4]) && off == OffsetOf(v.place[id])
      ensures Drew(old(blocks), old(v.spare), OneIf(old(freeEntry) == 0), blocks, v.spare)
      ensures SameEntries(old(disk), disk, old(v.place))
    {
      hide StoreOk, RefsOk, LeafBlocks, Upper, Lower, Path, Limbo, SameEntries, InnerSame, Grown, Drew, LowestUnused, AvailAfter,
        NextBlock;
      SmallIds(St(), v);
      PathStep(id, 3);
      blk, off := FindFreeDqentry(id);
      NodesSame(old(disk), disk, ref, v.inner, 4);
      LeafAdded(disk, ref, v.inner, old(v.place), id, v.place[id]);
      ref := ref[Path(id) := blk];
    }

    /** do_insert_tree; returns the block of the node at this depth and the entry's offset. */
    method DoInsertTree(id: nat, treeblk: nat, depth: nat) returns (blk: nat, off: nat)
      requires StoreOk(St(), v) && v.pend == None && id !in v.place && id < 0x1_0000_0000 && depth < 4
      requires RefsOk(ref, v.inner) && LeafBlocks(ref, v.place) && Closed(ref) && Path(id) !in ref
      requires Upper(disk, ref, 4) && Lower(disk, ref, 0)
      requires treeblk == Lookup(ref, Path(id)[..depth])
      modifies this
      ensures StoreOk(St(), v) && id in v.place && v.place == old(v.place)[id := v.place[id]] && v.pend == Some(v.place[id])
      ensures RefsOk(ref, v.inner) && LeafBlocks(ref, v.place) && Grown(old(ref), ref, id, depth)
      ensures Upper(disk, old(ref), depth) && Lower(disk, ref, depth)
      ensures Limbo(v.inner, ref) == Limbo(old(v.inner), old(ref))
      ensures blk == Lookup(ref, Path(id)[..depth]) && off == OffsetOf(v.place[id])
      ensures blk == if Path(id)[..depth] in old(ref) then old(ref)[Path(id)[..depth]] else NextBlock(old(blocks), old(v.spare))
      ensures Drew(old(blocks), old(v.spare), Missing(old(ref), id, depth) + OneIf(old(freeEntry) == 0), blocks, v.spare)
      ensures SameEntries(old(disk), disk, old(v.place))
      decreases 4 - depth
    {
      hide StoreOk, Data, RefsOk, LeafBlocks, Closed, Upper, Lower, Path, Limbo, SameEntries, InnerSame, NodeRead, Grown, Drew,
        NextBlock, Missing;
      ghost var p, place, freeEntry0 := Path(id)[..depth], v.place, freeEntry;
      var buf;
      blk, buf := OpenNode(treeblk, p);
      ghost var disk1, inner1, ref0, blocks1, spare1 := disk, v.inner, ref, blocks, v.spare;
      ChildRead(buf, ref, id, depth);
      var newblk := buf[GetIndex(id, depth)];
      var newson := newblk == 0;
      if depth == 3 {
        MissingFrom(ref, id, 4);
        newblk, off := InsertLeaf(id);
      } else {
        newblk, off := DoInsertTree(id, newblk, depth + 1);
      }
      SameTwice(old(disk), disk1, disk, place);
      MissingFrom(ref0, id, depth);
      DrewMore(old(blocks), old(v.spare), OneIf(p !in ref0), blocks1, spare1, Missing(ref0, id, depth + 1) + OneIf(freeEntry0 == 0),
               blocks, v.spare);
      ghost var disk2 := disk;
      hide Joined;
      assert LimboLeft(Limbo(inner1, ref0), ref0, p, blk) == Limbo(old(v.inner), ref0);
      InsertedAt(disk, ref0, ref, inner1, v.inner, v.place, id, depth, blk, buf, newblk);
      if newson {
        TreeBlockWritten(St(), v, blk, buf[GetIndex(id, depth) := newblk], place);
        buf := buf[GetIndex(id, depth) := newblk];
        disk := disk[blk := buf];
      }
      ref := Joined(ref, p, blk);
      SameTwice(old(disk), disk2, disk, place);
    }

    /** free_dqentry */
    method FreeDqentry(id: nat, blk: nat, off: nat)
      requires StoreOk(St(), v) && v.pend == None && id in v.place && blk == v.place[id].blk && off == OffsetOf(v.place[id])
      modifies this
      ensures StoreOk(St(), v) && ref == old(ref)
      ensures v == old(v).(place := old(v.place) - {id}, avail := v.avail, spare := v.spare) && blocks == old(blocks)
      ensures v.spare == (if blk in Data(v.place) then old(v.spare) else [blk] + old(v.spare))
      ensures blk in Data(v.place) <==> Entries(At(old(disk), blk)) > 1
      ensures AvailFreed(old(v.avail), Entries(At(old(disk), blk)), blk, v.avail)
      ensures InnerSame(old(disk), disk, v.inner) && SameEntries(old(disk), disk, v.place)
    {
      hide StoreOk, Data, InnerSame, SameEntries, RemovedEntry, InsertedEntry, PutWords, AllZero, AvailFreed;
      ghost var st := St();
      EntryCounted(st, v, id);
      FreedAmongMany(v.avail, Entries(At(disk, blk)), blk);
      if Entries(At(disk, blk)) > 1 { OthersStay(st, v, id); }
      var buf := At(disk, blk);
      CountedDown(buf);
      ZeroedBlock(buf, v.place[id].slot);
      buf := SetEntries(buf, Entries(buf) - 1);
      if Entries(buf) == 0 {
        ghost var left := FreedLast(st, v, id);
        buf := RemoveFreeDqentry(buf, blk);
        v := v.(inner := v.inner + {blk}, place := v.place - {id}, avail := left);
        ghost var d := disk;
        SpareApart(St(), v);
        PutFreeDqblk(buf, blk);
        AfterPut(st.disk, d, disk, v, blk);
      } else {
        buf := PutWords(buf, off % 1024 / 4, seq(18, _ => 0));
        if Entries(buf) == Slots - 1 {
          FreedFull(st, v, id);
          InsertFreeDqentry(buf, blk);
          v := v.(place := v.place - {id}, avail := [blk] + v.avail);
        } else {
          FreedOne(st, v, id);
          disk := disk[blk := buf];
          v := v.(place := v.place - {id});
        }
      }
    }

    /** The search for a reference in remove_tree. */
    static method FirstNonZero(buf: Block) returns (i: nat)
      ensures i <= 256 && (i == 256 <==> AllZero(buf))
    {
      i := 0;
      while i < 256 && buf[i] == 0
        invariant i <= 256 && forall k :: 0 <= k < i ==> buf[k] == 0
      {
        i := i + 1;
      }
    }

    /** remove_tree; returns the block of the node at this depth, 0 when it was freed, and where the tree was cut. */
    method RemoveTree(id: nat, treeblk: nat, depth: nat, off: nat) returns (blk: nat, ghost cut: nat)
      requires StoreOk(St(), v) && v.pend == None && id in v.place && off == OffsetOf(v.place[id]) && depth < 4
      requires RefsOk(ref, v.inner) && LeafBlocks(ref, v.place) && Closed(ref) && Upper(disk, ref, 4) && Lower(disk, ref, 0)
      requires treeblk == Lookup(ref, Path(id)[..depth])
      modifies this
      ensures StoreOk(St(), v) && v.place == old(v.place) - {id} && v.pend == None
      ensures RefsOk(ref, v.inner) && LeafBlocks(ref, v.place)
      ensures depth <= cut <= 4 && (depth == 0 ==> cut > 0) && Shrunk(old(ref), ref, id, cut)
      ensures NothingElse(old(ref), id, cut) && LastHasChild(ref, id, depth, cut)
      ensures Upper(disk, old(ref), depth) && Lower(disk, ref, depth)
      ensures Limbo(v.inner, ref) == Limbo(old(v.inner), old(ref))
      ensures blk == Lookup(ref, Path(id)[..depth])
      ensures Returned(old(blocks), old(v.spare), Missing(ref, id, depth) + OneIf(old(v.place[id].blk) !in Data(v.place)), blocks, v.spare)
      ensures SameEntries(old(disk), disk, v.place)
      decreases 4 - depth
    {
      hide StoreOk, Data, RefsOk, LeafBlocks, Closed, Upper, Lower, Path, Limbo, SameEntries, InnerSame, NodeRead, Shrunk, NothingElse,
        LastHasChild, AllZero, Missing, Returned;
      ghost var p, inner0, ref0, blk0 := Path(id)[..depth], v.inner, ref, v.place[id].blk;
      NodeOfPath(St(), v, disk, ref, id, depth);
      PathStep(id, depth);
      var buf := At(disk, treeblk);
      ghost var buf0 := buf;
      var newblk := buf[GetIndex(id, depth)];
      if depth == 3 {
        RemoveLeaf(id, newblk, off);
        MissingFrom(ref, id, 4);
        cut, newblk := 4, 0;
      } else {
        newblk, cut := RemoveTree(id, newblk, depth + 1, off);
      }
      StaysInTree(disk, ref0, ref, id, depth, cut, treeblk);
      LookupZero(ref, v.inner, Path(id)[..depth + 1]);
      LookupZero(ref0, inner0, p);
      TreeBlock(ref, v.inner, p, treeblk);
      RootBlock(ref0, inner0, p);
      blk := treeblk;
      ghost var disk2 := disk;
      NodeMissing(ref0, ref, id, depth, cut);
      if newblk == 0 {
        buf := buf[GetIndex(id, depth) := 0];
        var i := FirstNonZero(buf);
        if i == 256 && treeblk != 1 {
          SpareApart(St(), v);
          ghost var inner1 := v.inner;
          ReturnedOneMore(old(blocks), old(v.spare), Missing(ref, id, depth + 1) + OneIf(blk0 !in Data(v.place)), blocks, v.spare,
                          treeblk);
          PutFreeDqblk(buf, treeblk);
          PayloadsSame(disk2, disk, v.place);
          NodeRemoved(disk2, disk, ref0, ref, inner1, inner0, v.place, id, depth, treeblk, buf0);
          NoLast(ref - {p}, id, depth);
          blk, ref, cut := 0, ref - {p}, depth;
        } else {
          TreeBlockWritten(St(), v, treeblk, buf, v.place);
          ChildRemoved(disk, ref0, ref, v.inner, inner0, id, depth, treeblk, buf0);
          disk := disk[treeblk := buf];
        }
      } else {
        RemovedBelow(disk, ref0, ref, id, depth, cut, treeblk);
      }
      SameTwice(old(disk), disk2, disk, v.place);
    }

    /** The deepest level of remove_tree: the dquot's entry is freed. */
    method RemoveLeaf(id: nat, blk: nat, off: nat)
      requires StoreOk(St(), v) && v.pend == None && id in v.place && blk == Lookup(ref, Path(id)) && off == OffsetOf(v.place[id])
      requires RefsOk(ref, v.inner) && LeafBlocks(ref, v.place) && Upper(disk, ref, 4)
      modifies this
      ensures StoreOk(St(), v) && v.place == old(v.place) - {id} && v.pend == None
      ensures RefsOk(ref, v.inner) && LeafBlocks(ref, v.place) && Shrunk(old(ref), ref, id, 4) && NothingElse(old(ref), id, 4)
      ensures Upper(disk, old(ref), 4) && Lower(disk, ref, 4)
      ensures Limbo(v.inner, ref) == Limbo(old(v.inner), old(ref))
      ensures Returned(old(blocks), old(v.spare), OneIf(old(v.place[id].blk) !in Data(v.place)), blocks, v.spare)
      ensures SameEntries(old(disk), disk, v.place)
    {
      hide StoreOk, RefsOk, Upper, Lower, Path, Limbo, SameEntries, InnerSame, Shrunk, NothingElse, AvailFreed;
      SmallIds(St(), v);
      FreeDqentry(id, blk, off);
      NodesSame(old(disk), disk, ref, v.inner, 4);
      LeafRemoved(disk, ref, v.inner, old(v.place), id);
      ref := ref - {Path(id)};
    }

    /** dq_insert_tree */
    method DqInsertTree(id: nat) returns (off: nat)
      requires Valid() && id !in v.place && id < 0x1_0000_0000
      modifies this
      ensures StoreOk(St(), v) && id in v.place && v.place == old(v.place)[id := v.place[id]] && v.pend == Some(v.place[id])
      ensures RefsOk(ref, v.inner) && LeafBlocks(ref, v.place) && Keys(ref, v.place) && Lower(disk, ref, 0)
      ensures v.inner == InnerBlocks(ref) && off == OffsetOf(v.place[id])
      ensures Drew(old(blocks), old(v.spare), Missing(old(ref), id, 0) + OneIf(old(freeEntry) == 0), blocks, v.spare)
      ensures SameEntries(old(disk), disk, old(v.place))
    {
      hide StoreOk, RefsOk, LeafBlocks, Upper, Lower, Keys, Grown, SameEntries;
      ghost var ref0 := ref;
      BeforeDescent(St(), v, disk, ref);
      NoLeaf(ref, v.place, id);
      var blk;
      blk, off := DoInsertTree(id, 1, 0);
      GrownKeys(ref0, ref, old(v.place), id, v.place[id]);
      NoLimbo(ref, v.inner);
    }

    /** The write at the entry's byte offset. */
    method WriteAt(off: nat, e: seq<nat>)
      requires |e| == 18 && off % 1024 / 4 + 18 <= 256
      modifies this
      ensures disk == old(disk)[off / 1024 := PutWords(At(old(disk), off / 1024), off % 1024 / 4, e)]
      ensures blocks == old(blocks) && freeBlk == old(freeBlk) && freeEntry == old(freeEntry) && v == old(v) && ref == old(ref)
    {
      disk := disk[off / 1024 := PutWords(At(disk, off / 1024), off % 1024 / 4, e)];
    }

    /** The blocks that storing this id takes: the nodes missing on its way, and a data block when none has room. */
    ghost function Wanted(id: nat): nat
      reads this
    {
      if id in v.place then 0 else Missing(ref, id, 0) + OneIf(freeEntry == 0)
    }

    /** The blocks that deleting it gave back: the nodes now missing on its way, and its data block when that is empty. */
    ghost function Released(id: nat, p: Spot): nat
      reads this
    {
      Missing(ref, id, 0) + OneIf(p.blk !in Data(v.place))
    }

    /** qtree_write_dquot */
    method WriteDquot(d: Dquot) returns (r: Dquot)
      requires Valid() && d.id < 0x1_0000_0000 && d.m.Fits() && d.off == Offset(d.id)
      modifies this
      ensures Valid() && r == d.(off := Offset(d.id)) && r.off != 0
      ensures Contents() == old(Contents())[d.id := Disk2Mem(Mem2Disk(d.id, d.m)).1]
      ensures Drew(old(blocks), old(v.spare), old(Wanted(d.id)), blocks, v.spare)
    {
      hide StoreOk, RefsOk, LeafBlocks, Lower, Keys, SameEntries, InnerSame, PutWords, Mem2Disk, Disk2Mem, ContentsOf, AllZero;
      ghost var disk0, place := disk, v.place;
      r := d;
      SameRefl(disk, place);
      if d.off == 0 {
        var off := DqInsertTree(d.id);
        r := r.(off := off);
      }
      ghost var disk1 := disk;
      assert v.place == place[d.id := v.place[d.id]];
      SpotOfId(St(), v, d.id);
      OffsetIsSpot(v.place[d.id]);
      var e := Mem2Disk(d.id, d.m);
      EntryRoundTrip(d.id, d.m);
      EntryNames(d.id, d.m);
      EntryWritten(St(), v, d.id, e);
      WriteAt(r.off, e);
      v := v.(pend := None);
      NodesSame(disk1, disk, ref, v.inner, 0);
      ContentsWritten(disk0, disk1, disk, place, d.id, v.place[d.id], e);
    }

    /** qtree_delete_dquot */
    method DeleteDquot(d: Dquot) returns (r: Dquot)
      requires Valid() && d.id < 0x1_0000_0000 && d.off == Offset(d.id)
      modifies this
      ensures Valid() && r == d.(off := 0)
      ensures Contents() == old(Contents()) - {d.id}
      ensures if d.id in old(v.place)
              then Returned(old(blocks), old(v.spare), Released(d.id, old(v.place[d.id])), blocks, v.spare)
              else unchanged(this)
    {
      hide StoreOk, RefsOk, LeafBlocks, Upper, Lower, Keys, SameEntries, Shrunk, NothingElse, LastHasChild, Missing, Returned,
        Path, Data, ContentsOf;
      r := d;
      if d.off == 0 {
        ContentsWithout(disk, v.place, d.id);
        return;
      }
      ghost var ref0 := ref;
      BeforeDescent(St(), v, disk, ref);
      ghost var cut;
      var blk;
      blk, cut := RemoveTree(d.id, 1, 0, d.off);
      ShrunkKeys(ref0, ref, old(v.place), d.id, cut);
      NoLimbo(ref, v.inner);
      r := r.(off := 0);
      ContentsLess(old(disk), disk, old(v.place), d.id);
    }

    /** v2_commit_dquot: the dquot is stored, or deleted when it holds nothing. */
    method CommitDquot(d: Dquot) returns (r: Dquot)
      requires Valid() && d.id < 0x1_0000_0000 && d.m.Fits() && d.off == Offset(d.id)
      modifies this
      ensures Valid() && r == d.(off := Offset(d.id))
      ensures Contents() == if d.m.Fake() then old(Contents()) - {d.id} else old(Contents())[d.id := d.m]
      ensures !d.m.Fake() ==> Drew(old(blocks), old(v.spare), old(Wanted(d.id)), blocks, v.spare)
      ensures blocks >= old(blocks) && (d.m.Fake() ==> blocks == old(blocks))
      ensures blocks > old(blocks) ==> v.spare == [] && blocks - old(blocks) == old(Wanted(d.id)) - |old(v.spare)|
      ensures d.m.Fake() && d.id in old(v.place) ==>
                Returned(old(blocks), old(v.spare), Released(d.id, old(v.place[d.id])), blocks, v.spare)
      ensures d.m.Fake() && d.id !in old(v.place) ==> unchanged(this)
    {
      EntryRoundTrip(d.id, d.m);
      if d.m.Fake() {
        r := DeleteDquot(d);
      } else {
        r := WriteDquot(d);
      }
    }

    /** v2r1_is_id */
    static method IsId(e: seq<nat>, id: nat) returns (same: bool)
      requires |e| == 18
      ensures same <==> Names(e, id)
    {
      var unused := EntryUnused(e);
      return !unused && e[0] == id;
    }

    /** find_block_dqentry: the first entry in use that names the id, or the end of the entries when none does. */
    method FindBlockDqentry(id: nat, blk: nat) returns (off: nat, ghost slot: nat)
      ensures slot <= Slots && off == OffsetOf(Spot(blk, slot))
      ensures forall k :: 0 <= k < slot ==> !Names(Entry(At(disk, blk), k), id)
      ensures slot < Slots ==> Names(Entry(At(disk, blk), slot), id)
    {
      var i := 0;
      while i < Slots
        invariant i <= Slots
        invariant forall k :: 0 <= k < i ==> !Names(Entry(At(disk, blk), k), id)
      {
        var same := IsId(Entry(At(disk, blk), i), id);
        if same { break; }
        i := i + 1;
      }
      off, slot := blk * 1024 + 16 + i * 72, i;
    }

    /** find_tree_dqentry */
    method FindTreeDqentry(id: nat, blk: nat, depth: nat) returns (off: nat)
      requires Valid() && id < 0x1_0000_0000 && depth < 4 && Path(id)[..depth] in ref && blk == ref[Path(id)[..depth]]
      ensures off == Offset(id)
      decreases 4 - depth
    {
      hide StoreOk, RefsOk, LeafBlocks, Lower, Upper, Keys, NodeRead, Path;
      BeforeDescent(St(), v, disk, ref);
      NodeIsRead(disk, ref, Path(id)[..depth]);
      var buf := At(disk, blk);
      ChildRead(buf, ref, id, depth);
      LookupZero(ref, v.inner, Path(id)[..depth + 1]);
      var child := buf[GetIndex(id, depth)];
      if child == 0 {
        NoWay(ref, v.place, id, depth + 1);
        return 0;
      }
      if depth < 3 {
        off := FindTreeDqentry(id, child, depth + 1);
      } else {
        PathStep(id, 3);
        LeafOfId(St(), v, ref, id);
        ghost var slot;
        off, slot := FindBlockDqentry(id, child);
        SpotOfId(St(), v, id);
        if slot < Slots { OnlySpot(St(), v, id, slot); }
      }
    }

    /** qtree_read_dquot */
    method ReadDquot(id: nat) returns (d: Dquot)
      requires Valid() && id < 0x1_0000_0000
      ensures d.id == id && d.off == Offset(id)
      ensures d.m == if id in Contents() then Contents()[id] else NoQuota
    {
      hide StoreOk, RefsOk, LeafBlocks, Lower, Keys, Disk2Mem;
      d := Dquot(id, NoQuota, 0);
      BeforeDescent(St(), v, disk, ref);
      PathStep(id, 0);
      var off := FindTreeDqentry(id, 1, 0);
      if off > 0 {
        SpotOfId(St(), v, id);
        OffsetIsSpot(v.place[id]);
        var b, w := At(disk, off / 1024), off % 1024 / 4;
        var e := b[w..w + 18];
        d := Dquot(Disk2Mem(e).0, Disk2Mem(e).1, off);
        FirstIsId(e);
      }
    }
  }

  /** The entry is in use, for the id. */
  predicate Names(e: seq<nat>, id: nat) { !AllZero(e) && e != [] && e[0] == id }

  lemma HeadHasRoom(st: Store, v: View)
    requires StoreOk(st, v) && st.freeEntry != 0
    ensures v.avail != [] && v.avail[0] == st.freeEntry && st.freeEntry >= 2 && st.freeEntry in Data(v.place)
    ensures Entries(At(st.disk, st.freeEntry)) < Slots && ListOk(st.disk, v.avail, st.freeEntry) && st.freeEntry in v.avail
    ensures v.pend == None ==> Used(At(st.disk, st.freeEntry), Slots) == Entries(At(st.disk, st.freeEntry))
  {
    assert st.freeEntry in v.avail;
    assert Roomy(st.disk, Data(v.place), st.freeEntry);
    assert BlkOk(st.disk, v.place, v.pend, st.freeEntry);
  }

  lemma FirstRemoved(st: Store, v: View)
    requires StoreOk(st, v) && st.freeEntry != 0
    ensures v.avail != [] && v.avail[0] == st.freeEntry
    ensures var blk := st.freeEntry;
            var buf := At(st.disk, blk);
            && ListOk(RemovedEntry(st.disk, buf, blk), Cut(v.avail, 0), if Prev(buf) == 0 then Next(buf) else blk)
            && Moved(st.disk, RemovedEntry(st.disk, buf, blk), v.avail, blk)
            && Body(SetPrev(SetNext(buf, 0), 0)) == Body(buf)
            && forall b :: b in Cut(v.avail, 0) <==> b in v.avail && b != blk
  {
    HeadHasRoom(st, v);
    CutMembers(v.avail, 0);
    RemoveEntryKeeps(st.disk, v.avail, st.freeEntry, 0, At(st.disk, st.freeEntry));
  }

  /** A data block with one more entry counted. */
  lemma CountedUp(a: Disk, d: Disk, list: seq<nat>, left: seq<nat>, head: nat, blk: nat, i: nat)
    requires Entries(At(a, blk)) < Slots && Used(At(a, blk), Slots) == Entries(At(a, blk))
    requires ListOk(d, left, head) && Moved(a, d, list, blk) && Body(At(d, blk)) == Body(At(a, blk))
    requires var buf := SetEntries(At(d, blk), Entries(At(d, blk)) + 1);
             i <= Slots && (i < Slots ==> AllZero(Entry(buf, i))) && forall s: nat :: s < i ==> !AllZero(Entry(buf, s))
    ensures var was, buf := At(a, blk), SetEntries(At(d, blk), Entries(At(d, blk)) + 1);
            && i < Slots && Payload(buf) == Payload(was) && Entries(buf) == Entries(was) + 1 <= Slots && AllZero(Entry(buf, i))
            && Moved(a, d[blk := buf], list, blk) && ListOk(d[blk := buf], left, head)
  {
    hide Used, Moved, ListOk, AllZero, Entry;
    var b0, b1 := At(a, blk), At(d, blk);
    SameBody(b0, b1);
    SameUsed(b0, b1, Slots);
    Counted(b1, i);
    var buf := SetEntries(b1, Entries(b1) + 1);
    MovedAgain(a, d, list, blk, buf);
    ListFrame(d, d[blk := buf], left, head);
  }

  lemma LowestKept(b: Block, was: Block, i: nat)
    requires Payload(b) == Payload(was) && i < Slots && AllZero(Entry(b, i)) && forall s: nat :: s < i ==> !AllZero(Entry(b, s))
    ensures LowestUnused(was, i)
  {
    hide Payload, Entry, AllZero;
    forall s: nat | s < Slots ensures Entry(b, s) == Entry(was, s) { SamePayload(b, was, s); }
  }

  lemma FirstOfZeros()
    ensures LowestUnused(Zeros(), 0)
  {}

  lemma NoneWithRoom(st: Store, v: View)
    requires StoreOk(st, v) && st.freeEntry == 0
    ensures v.avail == []
  {}

  lemma NewCounted(entries: nat)
    ensures forall blk: nat :: AvailAfter([], entries, blk) == [blk]
  {}

  lemma HeadCounted(st: Store, v: View, blk: nat)
    requires StoreOk(st, v) && st.freeEntry != 0
    ensures v.avail != []
    ensures AvailAfter(v.avail, Entries(At(st.disk, st.freeEntry)), blk)
         == if Entries(At(st.disk, st.freeEntry)) + 1 >= Slots then Cut(v.avail, 0) else v.avail
  {
    assert v.avail != [] ==> Cut(v.avail, 0) == v.avail[1..];
  }

  /** find_free_dqentry in the block at the head of the list, from the store at its start to the store at its end. */
  lemma ReservedAtHead(st: Store, v: View, d: Disk, head: nat, left: seq<nat>, i: nat, id: nat)
    requires StoreOk(st, v) && v.pend == None && id !in v.place && id < 0x1_0000_0000 && st.freeEntry != 0
    requires ListOk(d, left, head) && Moved(st.disk, d, v.avail, st.freeEntry)
    requires Body(At(d, st.freeEntry)) == Body(At(st.disk, st.freeEntry))
    requires forall b :: b in left <==> b in v.avail && (b == st.freeEntry ==> Entries(At(st.disk, b)) + 1 < Slots)
    requires var buf := SetEntries(At(d, st.freeEntry), Entries(At(d, st.freeEntry)) + 1);
             i <= Slots && (i < Slots ==> AllZero(Entry(buf, i))) && forall s: nat :: s < i ==> !AllZero(Entry(buf, s))
    ensures var blk := st.freeEntry;
            var t := Store(d[blk := SetEntries(At(d, blk), Entries(At(d, blk)) + 1)], st.blocks, st.freeBlk, head);
            && StoreOk(t, v.(place := v.place[id := Spot(blk, i)], pend := Some(Spot(blk, i)), avail := left))
            && InnerSame(st.disk, t.disk, v.inner) && SameEntries(st.disk, t.disk, v.place)
    ensures st.freeEntry >= 2 && LowestUnused(At(st.disk, st.freeEntry), i)
  {
    hide StoreOk, ListOk, Moved, Body, Payload, Data, AllZero, Entry, Used, LowestUnused;
    var blk := st.freeEntry;
    var t := Store(d[blk := SetEntries(At(d, blk), Entries(At(d, blk)) + 1)], st.blocks, st.freeBlk, head);
    HeadHasRoom(st, v);
    CountedUp(st.disk, d, v.avail, left, head, blk, i);
    LowestKept(At(t.disk, blk), At(st.disk, blk), i);
    ReservedOld(st, v, t, left, id, Spot(blk, i));
    MovedPayloads(st.disk, t.disk, v.avail, blk, v.place);
    InnerUnmoved(st, v, t.disk, blk);
  }

  lemma NothingMoved(a: Disk, list: seq<nat>, blk: nat)
    ensures Moved(a, a, list, blk)
  {}

  lemma MovedAgain(a: Disk, b: Disk, list: seq<nat>, blk: nat, buf: Block)
    requires Moved(a, b, list, blk)
    ensures Moved(a, b[blk := buf], list, blk)
  {}

  lemma Counted(b: Block, i: nat)
    requires Entries(b) + 1 <= Slots && Used(b, Slots) < Slots
    requires var buf := SetEntries(b, Entries(b) + 1); i <= Slots && forall s: nat :: s < i ==> !AllZero(Entry(buf, s))
    ensures var buf := SetEntries(b, Entries(b) + 1);
            i < Slots && Payload(buf) == Payload(b) && Entries(buf) == Entries(b) + 1 && Next(buf) == Next(b) && Prev(buf) == Prev(b)
  {
    var buf := SetEntries(b, Entries(b) + 1);
    SetEntriesHolds(b, Entries(b) + 1);
    SameUsed(b, buf, Slots);
    if i == Slots { AllUsed(buf, Slots); assert false; }
  }

  lemma InnerUnmoved(st: Store, v: View, d: Disk, blk: nat)
    requires StoreOk(st, v) && Moved(st.disk, d, v.avail, blk) && blk in Data(v.place)
    ensures InnerSame(st.disk, d, v.inner)
  {
    SpareApart(st, v);
    assert blk >= 2;
  }

  lemma FirstSlot(buf: Block, i: nat)
    requires buf == FirstEntry() && i <= Slots && forall s: nat :: s < i ==> !AllZero(Entry(buf, s))
    ensures i == 0
  {
    FirstEntryIs();
  }

  lemma EmptyTree()
    ensures var st, v, ref := Store(map[], 2, 0, 0), View({}, map[], None, [], []), map[[] := 1];
            && StoreOk(st, v) && RefsOk(ref, v.inner) && LeafBlocks(ref, v.place) && Keys(ref, v.place)
            && Lower(st.disk, ref, 0) && v.inner == InnerBlocks(ref)
  {
    assert Data(map[]) == {};
  }

  lemma SmallIds(st: Store, v: View)
    requires StoreOk(st, v)
    ensures forall i :: i in v.place ==> i < 0x1_0000_0000
  {
    forall i | i in v.place ensures i < 0x1_0000_0000 { assert SpotOk(st.disk, v.place[i], v.pend, i); }
  }

  lemma SameTwice(a: Disk, b: Disk, c: Disk, place: map<nat, Spot>)
    requires SameEntries(a, b, place)
    ensures SameEntries(b, c, place) ==> SameEntries(a, c, place)
  {}

  /** Writing a block of the tree. */
  lemma TreeBlockWritten(st: Store, v: View, blk: nat, buf: Block, some: map<nat, Spot>)
    requires StoreOk(st, v) && (blk == 1 || blk in v.inner) && forall id :: id in some ==> id in v.place && some[id] == v.place[id]
    ensures StoreOk(st.(disk := st.disk[blk := buf]), v) && SameEntries(st.disk, st.disk[blk := buf], some)
  {
    SpareApart(st, v);
    assert blk !in Data(v.place);
    StoreFrame(st, v, blk, buf);
    PayloadsSame(st.disk, st.disk[blk := buf], v.place);
  }

  // ---- Freeing an entry ----

  /** The dquot's block has its entry counted; with room to spare it is on the list. */
  lemma EntryCounted(st: Store, v: View, id: nat)
    requires StoreOk(st, v) && v.pend == None && id in v.place
    ensures var p := v.place[id];
            && p.slot < Slots && 1 <= Entries(At(st.disk, p.blk)) <= Slots && p.blk in Data(v.place) && p.blk >= 2
            && OffsetOf(p) % 1024 / 4 == 4 + 18 * p.slot && p.blk !in v.inner
            && (Entries(At(st.disk, p.blk)) < Slots <==> p.blk in v.avail)
    ensures ListOk(st.disk, v.avail, st.freeEntry)
  {
    var p := v.place[id];
    assert SpotOk(st.disk, p, v.pend, id) && p.blk in Data(v.place);
    assert BlkOk(st.disk, v.place, v.pend, p.blk);
    UsedPositive(At(st.disk, p.blk), p.slot, Slots);
    OffsetIsSpot(p);
    assert Roomy(st.disk, Data(v.place), p.blk) <==> p.blk in v.avail;
  }

  lemma CountedDown(b: Block)
    requires 1 <= Entries(b) <= Slots
    ensures var c := SetEntries(b, Entries(b) - 1);
            Entries(c) == Entries(b) - 1 && Next(c) == Next(b) && Prev(c) == Prev(b) && Payload(c) == Payload(b)
  {
    SetEntriesHolds(b, Entries(b) - 1);
  }

  lemma FreedAmongMany(avail: seq<nat>, entries: nat, blk: nat)
    ensures AvailFreed(avail, Slots, blk, [blk] + avail)
    ensures 1 < entries < Slots ==> AvailFreed(avail, entries, blk, avail)
  {}

  /** The node at depth d is there before it is cut off itself. */
  lemma NodeMissing(ref0: Refs, ref: Refs, id: nat, d: nat, cut: nat)
    requires d < cut <= 4 && Shrunk(ref0, ref, id, cut) && Path(id)[..d] in ref0
    ensures Missing(ref, id, d) == Missing(ref, id, d + 1)
    ensures Missing(ref - {Path(id)[..d]}, id, d) == Missing(ref, id, d + 1) + 1
  {
    hide Path;
    MissingFrom(ref, id, d);
    MissingFrom(ref - {Path(id)[..d]}, id, d);
    MissingSame(ref - {Path(id)[..d]}, ref, id, d + 1);
  }

  /** A block with more than one entry in use holds another dquot's. */
  lemma OthersStay(st: Store, v: View, id: nat)
    requires StoreOk(st, v) && v.pend == None && id in v.place && Entries(At(st.disk, v.place[id].blk)) > 1
    ensures v.place[id].blk in Data(v.place - {id})
  {
    var p, b := v.place[id], At(st.disk, v.place[id].blk);
    assert BlkOk(st.disk, v.place, v.pend, p.blk) && Used(b, Slots) > 1;
    var s := SecondUsed(b, p.slot, Slots);
    assert Taken(v.place, Spot(p.blk, s));
    var i :| i in v.place && v.place[i] == Spot(p.blk, s);
    assert (v.place - {id})[i].blk == p.blk;
  }

  lemma {:induction false} SecondUsed(b: Block, slot: nat, n: nat) returns (s: nat)
    requires n <= Slots && Used(b, n) > OneIf(slot < n)
    ensures s < n && s != slot && !AllZero(Entry(b, s))
  {
    hide AllZero, Entry;
    if n - 1 != slot && !AllZero(Entry(b, n - 1)) {
      s := n - 1;
    } else {
      s := SecondUsed(b, slot, n - 1);
    }
  }

  /** The last entry of a block: off the list, and the block is nobody's. */
  lemma FreedLast(st: Store, v: View, id: nat) returns (left: seq<nat>)
    requires StoreOk(st, v) && v.pend == None && id in v.place && Entries(At(st.disk, v.place[id].blk)) == 1
    ensures var blk := v.place[id].blk;
            var buf := SetEntries(At(st.disk, blk), 0);
            var t := st.(disk := RemovedEntry(st.disk, buf, blk), freeEntry := if Prev(buf) == 0 then Next(buf) else st.freeEntry);
            var w := v.(inner := v.inner + {blk}, place := v.place - {id}, avail := left);
            && StoreOk(t, w) && InnerSame(st.disk, t.disk, v.inner) && SameEntries(st.disk, t.disk, w.place)
            && blk !in Data(w.place) && AvailFreed(v.avail, 1, blk, left)
  {
    hide StoreOk, ListOk, Moved, Data, RemovedEntry;
    var blk := v.place[id].blk;
    var buf := SetEntries(At(st.disk, blk), 0);
    EntryCounted(st, v, id);
    var k: nat :| k < |v.avail| && v.avail[k] == blk;
    CountedDown(At(st.disk, blk));
    RemoveEntryKeeps(st.disk, v.avail, st.freeEntry, k, buf);
    NoDupList(st.disk, v.avail, st.freeEntry);
    CutMembers(v.avail, k);
    left := Cut(v.avail, k);
    var t := st.(disk := RemovedEntry(st.disk, buf, blk), freeEntry := if Prev(buf) == 0 then Next(buf) else st.freeEntry);
    ReleasedLast(st, v, t, left, id);
    InnerUnmoved(st, v, t.disk, blk);
    SpareApart(t, v.(inner := v.inner + {blk}, place := v.place - {id}, avail := left));
    MovedPayloads(st.disk, t.disk, v.avail, blk, v.place - {id});
  }

  lemma NoDupList(disk: Disk, avail: seq<nat>, head: nat)
    requires ListOk(disk, avail, head)
    ensures NoDup(avail)
  {}

  lemma AfterPut(a: Disk, b: Disk, c: Disk, w: View, blk: nat)
    requires InnerSame(a, b, w.inner) && SameEntries(a, b, w.place) && blk !in Data(w.place) && blk >= 2
    requires forall i: nat :: i != blk ==> At(c, i) == At(b, i)
    requires blk !in w.inner
    ensures InnerSame(a, c, w.inner) && SameEntries(a, c, w.place)
  {
    PayloadsSame(b, c, w.place);
  }

  /** The buffer with the entry zeroed and counted down. */
  ghost function Zeroed(b: Block, s: nat): Block
    requires s < Slots && Entries(b) >= 1
  {
    PutEntry(SetEntries(b, Entries(b) - 1), s, seq(18, _ => 0))
  }

  lemma ZeroedBlock(b: Block, s: nat)
    requires s < Slots && 1 <= Entries(b) <= Slots
    ensures var c := Zeroed(b, s);
            && Payload(c) == Payload(PutEntry(b, s, seq(18, _ => 0))) && Entries(c) == Entries(b) - 1
            && Next(c) == Next(b) && Prev(c) == Prev(b)
  {
    CountedDown(b);
    var z := seq(18, _ => 0);
    PutEntryAt(SetEntries(b, Entries(b) - 1), s, z, s);
  }

  /** The block was full: it is put on the list. */
  lemma FreedFull(st: Store, v: View, id: nat)
    requires StoreOk(st, v) && v.pend == None && id in v.place && v.place[id].slot < Slots
    requires Entries(At(st.disk, v.place[id].blk)) == Slots
    ensures var p := v.place[id];
            var d := InsertedEntry(st.disk, Zeroed(At(st.disk, p.blk), p.slot), p.blk, st.freeEntry);
            var w := v.(place := v.place - {id}, avail := [p.blk] + v.avail);
            && StoreOk(st.(disk := d, freeEntry := p.blk), w) && InnerSame(st.disk, d, v.inner) && SameEntries(st.disk, d, w.place)
  {
    hide StoreOk, ListOk, Moved, Data, InsertedEntry, Zeroed, PutEntry;
    var p := v.place[id];
    var b := Zeroed(At(st.disk, p.blk), p.slot);
    var d := InsertedEntry(st.disk, b, p.blk, st.freeEntry);
    EntryCounted(st, v, id);
    ZeroedBlock(At(st.disk, p.blk), p.slot);
    InsertEntryKeeps(st.disk, v.avail, st.freeEntry, p.blk, b);
    SameBody(At(d, p.blk), b);
    ReleasedOne(st, v, st.(disk := d, freeEntry := p.blk), [p.blk] + v.avail, id);
    InnerUnmoved(st, v, d, p.blk);
    OthersKept(st, v, d, id);
  }

  /** The block had room before: it stays on the list. */
  lemma FreedOne(st: Store, v: View, id: nat)
    requires StoreOk(st, v) && v.pend == None && id in v.place && v.place[id].slot < Slots
    requires 1 < Entries(At(st.disk, v.place[id].blk)) < Slots
    ensures var p := v.place[id];
            var d := st.disk[p.blk := Zeroed(At(st.disk, p.blk), p.slot)];
            var w := v.(place := v.place - {id});
            && StoreOk(st.(disk := d), w) && InnerSame(st.disk, d, v.inner) && SameEntries(st.disk, d, w.place)
  {
    hide StoreOk, ListOk, Moved, Data, Zeroed, PutEntry;
    var p := v.place[id];
    var b := Zeroed(At(st.disk, p.blk), p.slot);
    var d := st.disk[p.blk := b];
    EntryCounted(st, v, id);
    ZeroedBlock(At(st.disk, p.blk), p.slot);
    NothingMoved(st.disk, v.avail, p.blk);
    MovedAgain(st.disk, st.disk, v.avail, p.blk, b);
    ListFrame(st.disk, d, v.avail, st.freeEntry);
    ReleasedOne(st, v, st.(disk := d), v.avail, id);
    InnerUnmoved(st, v, d, p.blk);
    OthersKept(st, v, d, id);
  }

  /** Zeroing one entry leaves those of the other dquots alone. */
  lemma OthersKept(st: Store, v: View, d: Disk, id: nat)
    requires StoreOk(st, v) && v.pend == None && id in v.place && v.place[id].slot < Slots
    requires Moved(st.disk, d, v.avail, v.place[id].blk)
    requires var p := v.place[id]; Payload(At(d, p.blk)) == Payload(PutEntry(At(st.disk, p.blk), p.slot, seq(18, _ => 0)))
    ensures SameEntries(st.disk, d, v.place - {id})
  {
    var p, less, z := v.place[id], v.place - {id}, seq(18, _ => 0);
    forall i | i in less ensures EntryAt(d, less[i]) == EntryAt(st.disk, less[i]) {
      var q := v.place[i];
      assert q != p;
      if q.slot < Slots {
        if q.blk == p.blk {
          PutEntryAt(At(st.disk, p.blk), p.slot, z, q.slot);
          SamePayload(At(d, p.blk), PutEntry(At(st.disk, p.blk), p.slot, z), q.slot);
        } else {
          SameBody(At(st.disk, q.blk), At(d, q.blk));
          SamePayload(At(st.disk, q.blk), At(d, q.blk), q.slot);
        }
      }
    }
  }

  // ---- Removing from the tree ----

  /** The nodes on the way to a stored dquot are in the tree. */
  lemma NodeOfPath(st: Store, v: View, disk: Disk, ref: Refs, id: nat, d: nat)
    requires StoreOk(st, v) && RefsOk(ref, v.inner) && LeafBlocks(ref, v.place) && Closed(ref) && Upper(disk, ref, 4)
    requires id in v.place && d < 4
    ensures Path(id)[..d] in ref && Path(id)[..d + 1] in ref && 1 !in v.inner
    ensures NodeRead(At(disk, ref[Path(id)[..d]]), ref, Path(id)[..d])
    ensures At(disk, ref[Path(id)[..d]])[GetIndex(id, d)] == ref[Path(id)[..d + 1]]
  {
    hide StoreOk, Upper;
    ClosedDown(ref, Path(id), d);
    ClosedDown(ref, Path(id), d + 1);
    NodeIsRead(disk, ref, Path(id)[..d]);
    ChildRead(At(disk, ref[Path(id)[..d]]), ref, id, d);
    SpareApart(st, v);
  }

  lemma RootBlock(ref: Refs, inner: set<nat>, q: seq<nat>)
    requires RefsOk(ref, inner) && q in ref
    ensures q == [] ==> ref[q] == 1
  {}

  lemma NoLast(ref: Refs, id: nat, d: nat)
    requires d <= 4
    ensures LastHasChild(ref, id, d, d)
  {}

  // ---- Whole operations ----

  lemma BeforeDescent(st: Store, v: View, disk: Disk, ref: Refs)
    requires StoreOk(st, v) && RefsOk(ref, v.inner) && Keys(ref, v.place) && Lower(disk, ref, 0) && v.inner == InnerBlocks(ref)
    ensures Closed(ref) && Upper(disk, ref, 4) && ref[[]] == 1 && Lookup(ref, []) == 1
    ensures forall i :: i in v.place ==> i < 0x1_0000_0000
    ensures Limbo(v.inner, ref) == {}
  {
    KeysClosed(ref, v.place);
    SmallIds(st, v);
  }

  lemma NoLimbo(ref: Refs, inner: set<nat>)
    requires RefsOk(ref, inner) && Limbo(inner, ref) == {}
    ensures inner == InnerBlocks(ref)
  {
    assert InnerBlocks(ref) <= inner;
    assert inner == Limbo(inner, ref) + InnerBlocks(ref);
  }

  lemma SameRefl(a: Disk, place: map<nat, Spot>)
    ensures SameEntries(a, a, place)
  {}

  lemma SpotOfId(st: Store, v: View, id: nat)
    requires StoreOk(st, v) && id in v.place
    ensures v.place[id].slot < Slots
    ensures v.pend == None ==> var e := Entry(At(st.disk, v.place[id].blk), v.place[id].slot); !AllZero(e) && e[0] == id
  {
    assert SpotOk(st.disk, v.place[id], v.pend, id);
  }

  /** An entry in use that names the id is the id's. */
  lemma OnlySpot(st: Store, v: View, id: nat, s: nat)
    requires StoreOk(st, v) && v.pend == None && id in v.place && s < Slots
    requires var e := Entry(At(st.disk, v.place[id].blk), s); !AllZero(e) && e[0] == id
    ensures v.place[id].slot == s
  {
    var blk := v.place[id].blk;
    assert BlkOk(st.disk, v.place, None, blk);
    assert Taken(v.place, Spot(blk, s));
    var i :| i in v.place && v.place[i] == Spot(blk, s);
    assert SpotOk(st.disk, v.place[i], None, i);
  }

  lemma NoWay(ref: Refs, place: map<nat, Spot>, id: nat, k: nat)
    requires Closed(ref) && k <= 4 && Path(id)[..k] !in ref && LeafBlocks(ref, place)
    ensures id !in place
  {
    if id in place { ClosedDown(ref, Path(id), k); }
  }

  lemma LeafOfId(st: Store, v: View, ref: Refs, id: nat)
    requires StoreOk(st, v) && LeafBlocks(ref, v.place) && Keys(ref, v.place) && Path(id) in ref && id < 0x1_0000_0000
    ensures id in v.place && ref[Path(id)] == v.place[id].blk
  {
    SmallIds(st, v);
    if id !in v.place { NoLeaf(ref, v.place, id); }
  }

  lemma EntryNames(id: nat, m: Dqblk)
    requires id < 0x1_0000_0000
    ensures Mem2Disk(id, m)[0] == id
  {
    SmallId(id);
  }

  lemma FirstIsId(e: seq<nat>)
    requires |e| == 18
    ensures Disk2Mem(e).0 == e[0]
  {}

  /** Writing a dquot's entry, reserved or in use, completes the store. */
  lemma EntryWritten(st: Store, v: View, id: nat, e: seq<nat>)
    requires StoreOk(st, v) && id in v.place && v.place[id].slot < Slots && (v.pend == None || v.pend == Some(v.place[id]))
    requires |e| == 18 && !AllZero(e) && e[0] == id
    ensures var p := v.place[id];
            var d := st.disk[p.blk := PutEntry(At(st.disk, p.blk), p.slot, e)];
            && StoreOk(st.(disk := d), v.(pend := None)) && InnerSame(st.disk, d, v.inner)
            && SameEntries(st.disk, d, v.place - {id}) && EntryAt(d, p) == e
  {
    var p := v.place[id];
    var b := At(st.disk, p.blk);
    var c := PutEntry(b, p.slot, e);
    var d := st.disk[p.blk := c];
    PutEntryAt(b, p.slot, e, p.slot);
    SpareApart(st, v);
    assert p.blk in Data(v.place);
    OthersWritten(st, v, id, e);
    WriteEntry(st.disk, v.place, v.pend, id, e);
    assert Next(c) == Next(b) && Prev(c) == Prev(b) && Entries(c) == Entries(b);
    hide PutEntry, AllZero, SameEntries;
    SameHeaders(st, v, p.blk, c);
  }

  /** A data block keeps its header: lists and free blocks stay as they are. */
  lemma SameHeaders(st: Store, v: View, blk: nat, c: Block)
    requires StoreOk(st, v) && blk in Data(v.place) && SlotsOk(st.disk[blk := c], v.place, None)
    requires Next(c) == Next(At(st.disk, blk)) && Prev(c) == Prev(At(st.disk, blk)) && Entries(c) == Entries(At(st.disk, blk))
    ensures StoreOk(st.(disk := st.disk[blk := c]), v.(pend := None)) && InnerSame(st.disk, st.disk[blk := c], v.inner)
  {
    hide SlotsOk, AllocOk, ListOk, Data;
    var d := st.disk[blk := c];
    SpareApart(st, v);
    DataApart(st, v, blk);
    AllocFrame(st, st.(disk := d), v.inner, Data(v.place), v.spare);
    ListFrame(st.disk, d, v.avail, st.freeEntry);
    forall i ensures Roomy(d, Data(v.place), i) == Roomy(st.disk, Data(v.place), i) {}
  }

  lemma DataApart(st: Store, v: View, blk: nat)
    requires StoreOk(st, v) && blk in Data(v.place)
    ensures blk >= 2 && blk !in v.inner && blk !in v.spare
  {}

  lemma OthersWritten(st: Store, v: View, id: nat, e: seq<nat>)
    requires StoreOk(st, v) && id in v.place && v.place[id].slot < Slots && |e| == 18
    ensures var p := v.place[id]; SameEntries(st.disk, st.disk[p.blk := PutEntry(At(st.disk, p.blk), p.slot, e)], v.place - {id})
  {
    var p, less := v.place[id], v.place - {id};
    forall i | i in less ensures less[i] != p {}
    forall i | i in less && less[i].slot < Slots
      ensures var d := st.disk[p.blk := PutEntry(At(st.disk, p.blk), p.slot, e)]; EntryAt(d, less[i]) == EntryAt(st.disk, less[i])
    {
      PutEntryAt(At(st.disk, p.blk), p.slot, e, less[i].slot);
    }
  }

  /** Seen as a map: the id's dquot is the new one, all others are as before. */
  lemma ContentsWritten(a: Disk, b: Disk, c: Disk, place: map<nat, Spot>, id: nat, p: Spot, e: seq<nat>)
    requires SameEntries(a, b, place) && SameEntries(b, c, place[id := p] - {id}) && EntryAt(c, p) == e && |e| == 18
    ensures ContentsOf(c, place[id := p]) == ContentsOf(a, place)[id := Disk2Mem(e).1]
  {
    hide Disk2Mem, EntryAt;
    var more := place[id := p];
    forall i | i in place && i != id ensures EntryAt(c, more[i]) == EntryAt(a, place[i]) {
      assert i in more - {id} && more[i] == place[i];
    }
  }

  lemma ContentsWithout(disk: Disk, place: map<nat, Spot>, id: nat)
    requires id !in place
    ensures ContentsOf(disk, place) - {id} == ContentsOf(disk, place)
  {}

  lemma ContentsLess(a: Disk, b: Disk, place: map<nat, Spot>, id: nat)
    requires SameEntries(a, b, place - {id})
    ensures ContentsOf(b, place - {id}) == ContentsOf(a, place) - {id}
  {
    hide Disk2Mem, EntryAt;
    forall i | i in place - {id} ensures EntryAt(b, place[i]) == EntryAt(a, place[i]) { assert (place - {id})[i] == place[i]; }
  }
}
