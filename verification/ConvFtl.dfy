/**
  conv_ftl.c in its own shape: tables, counters, lists and write pointers updated in place.
  Each method is proved to do to the represented lines what LogMachine says.
*/
module ConvFtl {
  import opened Basics
  import opened Geometry
  import opened PriorityQueues
  import opened LogMachine
  import opened FtlInvariant
  import opened FtlGc
  import opened FtlRuns
  import opened FtlSnap
  import opened GcVisit
  import opened GcSnap

  class ConvFtl {
    const geo: Geo
    const maptbl: array<Option<Ppa>>
    const rmap: array<nat>
    var ipc: seq<int>              // struct line: ipc
    const pq: PQueue               // victim_line_pq; struct line: vpc is pq.pri, pos is pq.pos
    var status: map<Ppa, Status>   // struct nand_page: status
    ghost var data: map<Ppa, int>  // what the host stored in the page
    var blocks: map<BlkAddr, NandBlock>
    var freeList: seq<nat>
    var fullList: seq<nat>
    var freeLineCnt: int
    var fullLineCnt: int
    var victimLineCnt: int
    var wp: WritePointer
    var gcWp: WritePointer
    var writeCredits: int
    var creditsToRefill: int

    ghost predicate Arrays()
      reads this, pq, pq.d
    {
      && geo.Valid()
      && maptbl.Length == geo.TtPgs() && rmap.Length == geo.TtPgs()
      && |ipc| == |pq.pri| == |pq.pos| == geo.blks && pq.d.Length == geo.blks + 1 && rmap != pq.d
      && pq.Valid()
    }

    ghost function Fields(): Snap
      reads this, maptbl, rmap, pq, pq.d
    {
      Snap(Nand(geo, rmap[..], status, data), maptbl[..], blocks, pq.pri, ipc, pq.pos,
           pq.elems, freeList, fullList, freeLineCnt, fullLineCnt, victimLineCnt, wp, gcWp)
    }

    ghost predicate Rep(out: set<nat>)
      reads this, maptbl, rmap, pq, pq.d
    {
      Arrays() && Ok(Fields(), out)
    }

    ghost function Lines(): Flash
      requires NandShape(Fields().nand)
      reads this, maptbl, rmap, pq, pq.d
    {
      View(Fields())
    }

    ghost function Machine(): State
      requires NandShape(Fields().nand)
      reads this, maptbl, rmap, pq, pq.d
    {
      State(Lines(), writeCredits, creditsToRefill)
    }

    /** conv_init_ftl: nothing mapped, every line free, one line for each write pointer. */
    constructor (g: Geo)
      requires g.Valid() && g.blks >= 2
      ensures geo == g && Rep({}) && Init(Machine())
      ensures fresh(maptbl) && fresh(rmap) && fresh(pq) && fresh(pq.d)
    {
      hide Ok, View, InitFlash, PQueue.Valid, PQueue.WellFormed, Geo.PgsPerLine, Geo.TtPgs,
           FreshStatus, FreshData, FreshBlocks;
      geo := g;
      maptbl := new Option<Ppa>[g.TtPgs()](_ => None);
      rmap := new nat[g.TtPgs()](_ => INVALID_LPN);
      ipc := seq(g.blks, _ => 0);
      pq := new PQueue(g.blks);
      status, data, blocks := FreshStatus(g), FreshData(g), FreshBlocks(g);
      fullList, fullLineCnt, victimLineCnt := [], 0, 0;
      wp := WritePointer(0, 0, 0, 0, 0);
      gcWp := WritePointer(1, 0, 0, 0, 1);
      freeList := LinesFromTwo(g.blks);
      freeLineCnt := g.blks - 2;
      writeCredits, creditsToRefill := g.PgsPerLine(), g.PgsPerLine();
      new;
      Fresh(Fields());
    }

    /** The priority part of mark_page_invalid: the line loses a valid page, in the heap or outside it. */
    method DropVpc(l: nat)
      requires pq.Valid() && l < |pq.pri| == |pq.pos| && (pq.pos[l] != 0 <==> l in pq.elems)
      modifies pq`pri, pq`pos, pq.d
      ensures pq.Valid() && pq.pri == old(pq.pri)[l := old(pq.pri[l]) - 1]
      ensures Placed(old(pq.pos), pq.pos, pq.elems)
    {
      hide PQueue.Valid, PQueue.WellFormed;
      if pq.pos[l] != 0 {
        pq.ChangePriority(pq.pri[l] - 1, l);
      } else {
        pq.SetPri(l, pq.pri[l] - 1);
      }
      pq.Positions();
    }

    /** pqueue_insert and the victim count. */
    method MoveToHeap(l: nat)
      requires pq.Valid() && l < |pq.pri| && l !in pq.elems && pq.d.Length == geo.blks + 1 && |pq.elems| < geo.blks
      modifies this`victimLineCnt, pq`size, pq`pos, pq`elems, pq.d
      ensures pq.Valid() && pq.elems == old(pq.elems) + {l} && victimLineCnt == old(victimLineCnt) + 1
      ensures Placed(old(pq.pos), pq.pos, pq.elems)
    {
      hide PQueue.Valid, PQueue.WellFormed;
      pq.Positions();
      pq.Insert(l);
      pq.Positions();
      victimLineCnt := victimLineCnt + 1;
    }

    /** The line part of mark_page_invalid. */
    method MarkLineInvalid(l: nat)
      requires pq.Valid() && l < |pq.pri| == |pq.pos| && l < |ipc| && (pq.pos[l] != 0 <==> l in pq.elems)
      requires pq.pri[l] == geo.PgsPerLine() ==>
                 l !in pq.elems && pq.d.Length == geo.blks + 1 && |pq.elems| < geo.blks
      modifies this`ipc, this`fullList, this`fullLineCnt, this`victimLineCnt, pq, pq.d
      ensures pq.Valid() && Placed(old(pq.pos), pq.pos, pq.elems)
      ensures pq.pri == old(pq.pri)[l := old(pq.pri[l]) - 1] && ipc == old(ipc)[l := old(ipc[l]) + 1]
      ensures var full := old(pq.pri[l]) == geo.PgsPerLine();
              && pq.elems == (if full then old(pq.elems) + {l} else old(pq.elems))
              && fullList == (if full then Without(old(fullList), l) else old(fullList))
              && fullLineCnt == (if full then old(fullLineCnt) - 1 else old(fullLineCnt))
              && victimLineCnt == (if full then old(victimLineCnt) + 1 else old(victimLineCnt))
    {
      hide PQueue.Valid, PQueue.WellFormed, Geo.PgsPerLine, Without;
      var wasFullLine := pq.pri[l] == geo.PgsPerLine();
      ipc := ipc[l := ipc[l] + 1];
      DropVpc(l);
      if wasFullLine {
        fullList := Without(fullList, l);
        fullLineCnt := fullLineCnt - 1;
        MoveToHeap(l);
      }
    }

    /** mark_page_invalid */
    method MarkPageInvalid(ppa: Ppa)
      requires Arrays() && CanInvalidate(Fields(), ppa)
      modifies this`status, this`blocks, this`ipc, this`fullList, this`fullLineCnt, this`victimLineCnt, pq, pq.d
      ensures Arrays() && Fields() == AfterInvalid(old(Fields()), ppa, pq.pos)
      ensures Placed(old(pq.pos), pq.pos, pq.elems)
    {
      hide PQueue.Valid, PQueue.WellFormed, Geo.PgsPerLine, Geo.PgsPerBlk, Geo.TtPgs, Without;
      status := status[ppa := PgInvalid];
      var b := BlkOf(ppa);
      var blk := blocks[b];
      blocks := blocks[b := NandBlock(blk.ipc + 1, blk.vpc - 1, blk.eraseCnt)];
      MarkLineInvalid(ppa.blk);
    }

    function GetWp(io: Io): WritePointer
      reads this
    {
      if io.UserIo? then wp else gcWp
    }

    method SetWpTo(io: Io, w: WritePointer)
      modifies this`wp, this`gcWp
      ensures wp == (if io.UserIo? then w else old(wp)) && gcWp == (if io.UserIo? then old(gcWp) else w)
    {
      if io.UserIo? { wp := w; } else { gcWp := w; }
    }

    /** get_new_page, set_maptbl_ent, set_rmap_ent, mark_page_valid: in this order in both callers. */
    method PutPage(io: Io, lpn: nat, ghost d: int)
      requires Arrays() && CanPut(Fields(), PpaOf(GetWp(io)), lpn)
      modifies this`status, this`data, this`blocks, pq`pri, maptbl, rmap
      ensures Arrays() && Fields() == AfterPut(old(Fields()), PpaOf(old(GetWp(io))), lpn, d)
    {
      hide Geo.PgsPerLine, Geo.PgsPerBlk, Geo.TtPgs, PgIdx, PQueue.WellFormed;
      var ppa := PpaOf(GetWp(io));
      maptbl[lpn] := Some(ppa);
      rmap[PgIdx(geo, ppa)] := lpn;
      data := data[ppa := d];
      status := status[ppa := PgValid];
      var b := BlkOf(ppa);
      blocks := blocks[b := NandBlock(blocks[b].ipc, blocks[b].vpc + 1, blocks[b].eraseCnt)];
      pq.SetPri(ppa.blk, pq.pri[ppa.blk] + 1);
    }

    /** get_next_free_line: the first free line, None when there is none, which no caller meets. */
    method GetNextFreeLine() returns (line: Option<nat>)
      modifies this`freeList, this`freeLineCnt
      ensures line == if old(freeList) == [] then None else Some(old(freeList)[0])
      ensures if line.None? then freeList == old(freeList) && freeLineCnt == old(freeLineCnt)
              else freeList == old(freeList)[1..] && freeLineCnt == old(freeLineCnt) - 1
    {
      if freeList == [] {
        return None;
      }
      line := Some(freeList[0]);
      freeList := freeList[1..];
      freeLineCnt := freeLineCnt - 1;
    }

    /** The used-up line goes to the full list or into the heap. */
    method FileLine(line: nat)
      requires Arrays() && line < geo.blks
      requires pq.pri[line] != geo.PgsPerLine() ==> line !in pq.elems && |pq.elems| < geo.blks
      modifies this`fullList, this`fullLineCnt, this`victimLineCnt, pq`size, pq`pos, pq`elems, pq.d
      ensures Arrays() && Fields() == Filed(old(Fields()), line, pq.pos)
      ensures Placed(old(pq.pos), pq.pos, pq.elems)
    {
      hide Geo.PgsPerLine, Geo.PgsPerBlk, Geo.TtPgs, PQueue.Valid, PQueue.WellFormed;
      if pq.pri[line] == geo.PgsPerLine() {
        fullList := fullList + [line];
        fullLineCnt := fullLineCnt + 1;
        pq.Positions();
      } else {
        MoveToHeap(line);
      }
    }

    /** advance_write_pointer */
    method AdvanceWritePointer(io: Io)
      requires Arrays() && CanAdvance(Fields(), io)
      modifies this`wp, this`gcWp, this`freeList, this`freeLineCnt
      modifies this`fullList, this`fullLineCnt, this`victimLineCnt, pq`size, pq`pos, pq`elems, pq.d
      ensures Arrays() && Fields() == AfterAdvance(old(Fields()), io, pq.pos)
      ensures NextPpa(geo, PpaOf(old(GetWp(io)))).1 ==> Placed(old(pq.pos), pq.pos, pq.elems)
    {
      hide Geo.PgsPerLine, Geo.PgsPerBlk, Geo.TtPgs, PQueue.Valid, PQueue.WellFormed, Placed, Filed;
      Positive(geo);
      var wpp := GetWp(io);
      FullOneshot(geo, PpaOf(wpp));
      wpp := wpp.(pg := wpp.pg + 1);
      if wpp.pg % geo.Oneshot() != 0 {
        SetWpTo(io, wpp);
        return;
      }
      wpp := wpp.(pg := wpp.pg - geo.Oneshot(), ch := wpp.ch + 1);
      if wpp.ch != geo.nchs {
        SetWpTo(io, wpp);
        return;
      }
      wpp := wpp.(ch := 0, lun := wpp.lun + 1);
      if wpp.lun != geo.luns {
        SetWpTo(io, wpp);
        return;
      }
      wpp := wpp.(lun := 0, pg := wpp.pg + geo.Oneshot());
      if wpp.pg != geo.PgsPerBlk() {
        SetWpTo(io, wpp);
        return;
      }
      wpp := wpp.(pg := 0);
      FileLine(wpp.curline);
      var line := GetNextFreeLine();
      wpp := wpp.(curline := line.value, blk := line.value);
      SetWpTo(io, wpp);
    }

    /** A page programmed at io's write pointer for a logical page, and the pointer advanced. */
    method ProgramPage(io: Io, lpn: nat, ghost d: int, ghost out: set<nat>, ghost cnt: set<nat>)
      requires Rep(cnt) && InPlace(Lines(), out) && cnt <= out && lpn < maptbl.Length && LineLeft(Lines(), io)
      modifies this`status, this`data, this`blocks, this`wp, this`gcWp, this`freeList, this`freeLineCnt
      modifies this`fullList, this`fullLineCnt, this`victimLineCnt, pq, pq.d, maptbl, rmap
      ensures Rep(cnt) && Programmed(old(Lines()), io, lpn, d, Lines())
      ensures Worn(old(blocks), blocks, {})
    {
      hide Worn, Ok, View, InPlace, LineLeft, NandShape, CanPut, CanAdvance, AfterPut, AfterAdvance, PQueue.Valid, PQueue.WellFormed,
           Geo.PgsPerLine, Geo.PgsPerBlk, Geo.TtPgs, Placed, NextPpa, Program;
      ghost var s := Fields();
      AfterPutReady(s, io, lpn, d, out, cnt);
      PutNotWorn(s, PpaOf(GetWp(io)), lpn, d);
      PutPage(io, lpn, d);
      ghost var t := Fields();
      AdvanceWritePointer(io);
      AfterAdvanceDone(s, t, io, lpn, d, pq.pos, cnt);
    }

    /** set_rmap_ent(INVALID_LPN) */
    method ClearRmapEnt(ppa: Ppa)
      requires Arrays() && PgIdx(geo, ppa) < rmap.Length
      modifies rmap
      ensures Arrays() && Fields() == WithoutOwner(old(Fields()), ppa)
    {
      hide PgIdx, Geo.TtPgs, PQueue.Valid, PQueue.WellFormed;
      rmap[PgIdx(geo, ppa)] := INVALID_LPN;
    }

    /** One round of the conv_write loop up to consume_write_credit. */
    method WriteOnePage(lpn: nat, ghost d: int)
      requires Rep({}) && Core(Lines(), {}, {}) && Room(Lines()) >= Lines().cfg.L + 2 && lpn < maptbl.Length
      modifies this`status, this`data, this`blocks, this`ipc, this`wp, this`gcWp, this`freeList, this`freeLineCnt
      modifies this`fullList, this`fullLineCnt, this`victimLineCnt, pq, pq.d, maptbl, rmap
      ensures Rep({}) && UserWrote(old(Lines()), lpn, d, Lines())
      ensures Worn(old(blocks), blocks, {})
    {
      hide Worn, NandShape, MaptblOk, WpOk, BlocksOk, LineCountersOk, ListsOk, View, Core, InPlace, LineLeft, CanInvalidate,
           AfterInvalid, PQueue.Valid, PQueue.WellFormed, Geo.PgsPerLine, Geo.PgsPerBlk, Geo.TtPgs, PgIdx, Placed,
           Invalidated, Programmed, UserWrote, Room, ValidPpa, Index;
      ghost var s := Fields();
      FirstWriteReady(s, lpn);
      NotWorn(blocks);
      var ppa := maptbl[lpn];
      if ppa.Some? {
        MappedPage(s, lpn);
        MarkPageInvalid(ppa.value);
        InvalidNotWorn(s, ppa.value, pq.pos);
        OverwriteReady(s, lpn, pq.pos);
        ClearRmapEnt(ppa.value);
      }
      ghost var i, mid := Lines(), blocks;
      ProgramPage(UserIo, lpn, d, {}, {});
      WornTwice(old(blocks), mid, blocks, {}, {}, {});
      UserWriteMadeUp(View(s), i, lpn, d, Lines());
    }

    // ---- Garbage collection ----

    /** mark_block_free */
    method MarkBlockFree(ppa: Ppa)
      requires Arrays() && BlkOf(ppa) in blocks && (forall p :: p in status <==> ValidPpa(geo, p))
      requires ValidBlk(geo, BlkOf(ppa))
      modifies this`status, this`blocks
      ensures Arrays() && Fields() == AfterErase(old(Fields()), BlkOf(ppa))
      ensures Worn(old(blocks), blocks, {BlkOf(ppa)})
    {
      hide Worn, PQueue.Valid, PQueue.WellFormed, Geo.PgsPerBlk, Geo.TtPgs;
      var b := BlkOf(ppa);
      for i := 0 to geo.PgsPerBlk()
        invariant Arrays() && blocks == old(blocks) && status.Keys == old(status).Keys
        invariant forall q :: q in status ==> status[q] == if BlkOf(q) == b && q.pg < i then PgFree else old(status)[q]
      {
        assert ValidPpa(geo, Ppa(b.ch, b.lun, b.blk, i));
        status := status[Ppa(b.ch, b.lun, b.blk, i) := PgFree];
      }
      assert status == StatusErased(old(status), b);
      OneBlockChanged(blocks, b, NandBlock(0, 0, blocks[b].eraseCnt + 1));
      blocks := blocks[b := NandBlock(0, 0, blocks[b].eraseCnt + 1)];
    }

    /** gc_write_page */
    method GcWritePage(oldPpa: Ppa, ghost s0: Snap, ghost v: nat, ghost k: nat, ghost erased: set<BlkAddr>)
      requires Arrays() && GcFrom(s0, v) && GcReached(s0, Fields(), v, k, erased)
      requires k < geo.PgsPerLine() && oldPpa == GcPpa(geo, v, k) && ValidPpa(geo, oldPpa) && oldPpa.blk == v
      requires BlkOf(oldPpa) !in erased && oldPpa in status && status[oldPpa] == PgValid
      modifies this`status, this`data, this`blocks, this`wp, this`gcWp, this`freeList, this`freeLineCnt
      modifies this`fullList, this`fullLineCnt, this`victimLineCnt, pq, pq.d, maptbl, rmap
      ensures Arrays() && GcReached(s0, Fields(), v, k + 1, erased)
      ensures Worn(old(blocks), blocks, {})
    {
      hide Worn, GcFrom, GcReached, PQueue.Valid, PQueue.WellFormed, Geo.PgsPerBlk, Geo.PgsPerLine, Geo.TtPgs, PgIdx, GcPpa, View,
           InPlace, LineLeft, NandShape, ValidPpa, Programmed, MaptblOk, WpOk, BlocksOk, LineCountersOk, ListsOk;
      ghost var s := Fields();
      ReachedGeo(s0, s, v, k, erased);
      GcOwner(s0, s, v, k, erased, oldPpa);
      GcCanProgram(s0, s, v, k, erased);
      var lpn := rmap[PgIdx(geo, oldPpa)];
      ProgramPage(GcIo, lpn, data[oldPpa], {v}, {v});
      GcStepDone(s0, s, Fields(), v, k, erased, oldPpa);
    }

    /** clean_one_flashpg: count the valid pages of a flash page, then copy them. */
    method CleanOneFlashpg(ppa: Ppa, ghost s0: Snap, ghost v: nat, ghost fp: nat, ghost erased: set<BlkAddr>)
      requires Arrays() && GcFrom(s0, v) && GcReached(s0, Fields(), v, Column(geo, fp, ppa.ch, ppa.lun), erased)
      requires fp < geo.FlashpgsPerBlk() && ppa.ch < geo.nchs && ppa.lun < geo.luns && ppa.blk == v < geo.blks
      requires ppa.pg == Join(fp, geo.flash, 0) && BlkOf(ppa) !in erased
      modifies this`status, this`data, this`blocks, this`wp, this`gcWp, this`freeList, this`freeLineCnt
      modifies this`fullList, this`fullLineCnt, this`victimLineCnt, pq, pq.d, maptbl, rmap
      ensures Arrays() && GcReached(s0, Fields(), v, Column(geo, fp, ppa.ch, ppa.lun) + geo.flash, erased)
      ensures Worn(old(blocks), blocks, {})
    {
      hide Worn, GcFrom, GcReached, PQueue.Valid, PQueue.WellFormed, Geo.PgsPerBlk, Geo.PgsPerLine, Geo.TtPgs, GcPpa, View,
           ValidPpa, Join, PgIdx, Column, Geo.FlashpgsPerBlk;
      ghost var k := Column(geo, fp, ppa.ch, ppa.lun);
      var cnt := 0;
      var i := 0;
      while i < geo.flash
        modifies {}
        invariant i <= geo.flash && cnt >= 0
        invariant cnt == 0 ==> forall x: nat :: k <= x < k + i ==> PassedOver(geo, Fields(), v, x, erased)
      {
        FlashPage(s0, Fields(), v, fp, ppa, i, erased);
        var pgIter := ppa.(pg := ppa.pg + i);
        assert status[pgIter] != PgFree;
        if status[pgIter] == PgValid {
          cnt := cnt + 1;
        }
        i := i + 1;
      }
      ReachedGeo(s0, Fields(), v, k, erased);
      NotWorn(blocks);
      if cnt <= 0 {
        if geo.flash > 0 { ColumnPage(geo, v, fp, ppa.ch, ppa.lun, geo.flash - 1); }
        GcSkipMany(s0, Fields(), v, k, geo.flash, erased);
        return;
      }
      i := 0;
      while i < geo.flash
        invariant i <= geo.flash && Arrays() && GcReached(s0, Fields(), v, k + i, erased)
        invariant Worn(old(blocks), blocks, {})
      {
        FlashPage(s0, Fields(), v, fp, ppa, i, erased);
        var pgIter := ppa.(pg := ppa.pg + i);
        if status[pgIter] == PgValid {
          ghost var mid := blocks;
          GcWritePage(pgIter, s0, v, k + i, erased);
          WornTwice(old(blocks), mid, blocks, {}, {}, {});
        } else {
          GcStepSkip(s0, Fields(), v, k + i, erased, pgIter);
        }
        i := i + 1;
      }
    }

    /** One die in the loops of do_gc: clean its flash page; in the last round erase its block. */
    method CleanDie(fp: nat, ch: nat, lun: nat, ghost s0: Snap, ghost v: nat, blk: nat)
      requires Arrays() && GcFrom(s0, v) && blk == v < geo.blks
      requires fp < geo.FlashpgsPerBlk() && ch < geo.nchs && lun < geo.luns
      requires GcReached(s0, Fields(), v, Column(geo, fp, ch, lun),
                         ErasedBefore(geo, v, fp + 1 == geo.FlashpgsPerBlk(), ch, lun))
      modifies this`status, this`data, this`blocks, this`wp, this`gcWp, this`freeList, this`freeLineCnt
      modifies this`fullList, this`fullLineCnt, this`victimLineCnt, pq, pq.d, maptbl, rmap
      ensures Arrays()
      ensures GcReached(s0, Fields(), v, Column(geo, fp, ch, lun + 1),
                        ErasedBefore(geo, v, fp + 1 == geo.FlashpgsPerBlk(), ch, lun + 1))
      ensures Worn(old(blocks), blocks, if fp + 1 == geo.FlashpgsPerBlk() then {BlkAddr(ch, lun, v)} else {})
    {
      hide Worn, GcFrom, GcReached, PQueue.Valid, PQueue.WellFormed, Geo.PgsPerBlk, Geo.PgsPerLine, Geo.TtPgs, Column,
           ErasedBefore, Geo.FlashpgsPerBlk, Ok;
      ghost var last := fp + 1 == geo.FlashpgsPerBlk();
      ghost var erased := ErasedBefore(geo, v, last, ch, lun);
      ColumnSteps(geo, fp, ch, lun);
      ErasedSteps(geo, v, ch, lun);
      var ppa := Ppa(ch, lun, blk, fp * geo.flash);
      CleanOneFlashpg(ppa, s0, v, fp, erased);
      if fp == geo.FlashpgsPerBlk() - 1 {
        ReachedGeo(s0, Fields(), v, Column(geo, fp, ch, lun + 1), erased);
        EraseStep(s0, Fields(), v, Column(geo, fp, ch, lun + 1), erased, BlkOf(ppa));
        ghost var mid := blocks;
        MarkBlockFree(ppa);
        WornTwice(old(blocks), mid, blocks, {}, {BlkOf(ppa)}, {BlkAddr(ch, lun, v)});
      }
    }

    /** No victim at all, or every victim has more than an eighth of its pages valid and nobody insists. */
    ghost predicate NotWorthwhile(force: bool)
      reads this, pq
    {
      || pq.elems == {}
      || (!force && forall h :: h in pq.elems && h < |pq.pri| ==> pq.pri[h] > geo.PgsPerLine() / 8)
    }

    /** select_victim_line: the root of the heap, unless it is hardly worth cleaning and nobody insists. */
    method SelectVictimLine(force: bool) returns (victim: Option<nat>)
      requires Arrays()
      modifies this`victimLineCnt, pq`size, pq`pos, pq`elems, pq.d
      ensures Arrays()
      ensures victim.None? ==> Fields() == old(Fields()) && NotWorthwhile(force)
      ensures victim.Some? ==>
                && Fields() == AfterSelect(old(Fields()), victim.value, pq.pos)
                && PoppedFrom(old(Fields()), victim.value, pq.pos) && Least(old(pq.elems), pq.pri, victim.value)
                && victim.value < |pq.pri| && (force || pq.pri[victim.value] <= geo.PgsPerLine() / 8)
    {
      hide PQueue.WellFormed, Geo.PgsPerLine, Geo.PgsPerBlk, Geo.TtPgs;
      pq.Positions();
      victim := pq.Peek();
      if victim.None? {
        return;
      }
      if !force && pq.pri[victim.value] > geo.PgsPerLine() / 8 {
        return None;
      }
      var popped := pq.Pop();
      pq.ClearPos(victim.value);
      pq.Positions();
      victimLineCnt := victimLineCnt - 1;
    }

    /** mark_line_free */
    method MarkLineFree(ppa: Ppa)
      requires Arrays() && ppa.blk < geo.blks && ppa.blk !in pq.elems
      modifies this`ipc, this`freeList, this`freeLineCnt, pq`pri
      ensures Arrays() && Fields() == AfterLineFree(old(Fields()), ppa.blk)
    {
      hide PQueue.WellFormed, Geo.PgsPerBlk, Geo.TtPgs;
      ipc := ipc[ppa.blk := 0];
      pq.SetPri(ppa.blk, 0);
      freeList := freeList + [ppa.blk];
      freeLineCnt := freeLineCnt + 1;
    }

    /** The copying and erasing loops of do_gc. */
    method CleanLine(blk: nat, ghost s0: Snap)
      requires Arrays() && blk < geo.blks && GcFrom(s0, blk) && GcReached(s0, Fields(), blk, 0, {})
      modifies this`status, this`data, this`blocks, this`wp, this`gcWp, this`freeList, this`freeLineCnt
      modifies this`fullList, this`fullLineCnt, this`victimLineCnt, pq, pq.d, maptbl, rmap
      ensures Arrays()
      ensures GcReached(s0, Fields(), blk, geo.PgsPerLine(), ErasedBefore(geo, blk, true, geo.nchs, 0))
      ensures Worn(old(blocks), blocks, ErasedBefore(geo, blk, true, geo.nchs, 0))
    {
      hide Worn, GcFrom, GcReached, PQueue.Valid, PQueue.WellFormed, Geo.PgsPerBlk, Geo.PgsPerLine, Geo.TtPgs, Column,
           ErasedBefore, Geo.FlashpgsPerBlk;
      ColumnSteps(geo, 0, 0, 0);
      FlashpgsPositive(geo);
      NothingErased(geo, blk);
      NotWorn(blocks);
      var flashpg := 0;
      while flashpg < geo.FlashpgsPerBlk()
        invariant flashpg <= geo.FlashpgsPerBlk() && Arrays()
        invariant GcReached(s0, Fields(), blk, Column(geo, flashpg, 0, 0),
                            ErasedBefore(geo, blk, flashpg == geo.FlashpgsPerBlk(), geo.nchs, 0))
        invariant Worn(old(blocks), blocks, ErasedBefore(geo, blk, flashpg == geo.FlashpgsPerBlk(), geo.nchs, 0))
      {
        ghost var last := flashpg + 1 == geo.FlashpgsPerBlk();
        NothingErased(geo, blk);
        var ch := 0;
        while ch < geo.nchs
          invariant ch <= geo.nchs && Arrays()
          invariant GcReached(s0, Fields(), blk, Column(geo, flashpg, ch, 0), ErasedBefore(geo, blk, last, ch, 0))
          invariant Worn(old(blocks), blocks, ErasedBefore(geo, blk, last, ch, 0))
        {
          var lun := 0;
          while lun < geo.luns
            invariant lun <= geo.luns && Arrays()
            invariant GcReached(s0, Fields(), blk, Column(geo, flashpg, ch, lun), ErasedBefore(geo, blk, last, ch, lun))
            invariant Worn(old(blocks), blocks, ErasedBefore(geo, blk, last, ch, lun))
          {
            ghost var mid := blocks;
            CleanDie(flashpg, ch, lun, s0, blk, blk);
            ErasedSteps(geo, blk, ch, lun);
            WornTwice(old(blocks), mid, blocks, ErasedBefore(geo, blk, last, ch, lun),
                      if last then {BlkAddr(ch, lun, blk)} else {}, ErasedBefore(geo, blk, last, ch, lun + 1));
            lun := lun + 1;
          }
          ColumnSteps(geo, flashpg, ch, 0);
          NextChannel(geo, blk, last, ch);
          ch := ch + 1;
        }
        ColumnSteps(geo, flashpg, 0, 0);
        flashpg := flashpg + 1;
      }
    }

    /** do_gc: 0 after cleaning the best victim, -1 when there was none worth cleaning. */
    method DoGc(force: bool) returns (r: int, ghost victim: nat)
      requires Rep({}) && Core(Lines(), {}, {}) && Room(Lines()) >= 2 * Lines().cfg.L + 1
      modifies this, pq, pq.d, maptbl, rmap
      ensures Rep({}) && (r == 0 || r == -1)
      ensures r == -1 ==> Fields() == old(Fields()) && Machine() == old(Machine()) && NotWorthwhile(force)
      ensures r == 0 ==> Collected(old(Machine()), victim, Machine()) && Worn(old(blocks), blocks, BlocksOf(geo, victim))
    {
      hide Worn, BlocksOf, GcFrom, GcReached, PQueue.Valid, PQueue.WellFormed, Geo.PgsPerBlk, Geo.PgsPerLine, Geo.TtPgs,
           ErasedBefore, Core, NandShape, MaptblOk, WpOk, BlocksOk, LineCountersOk, ListsOk, View, Gc, BestVictim, Ipc,
           PoppedFrom, Least, Room, InPlace, LineLeft;
      ghost var s := Fields();
      var line := SelectVictimLine(force);
      if line.None? {
        victim := 0;
        return -1, 0;
      }
      var v := line.value;
      ghost var s0 := Fields();
      CleaningStarts(s, v, pq.pos);
      RootIsBest(s, v);
      creditsToRefill := ipc[v];
      CleanAndFree(v, s0, View(s));
      return 0, v;
    }

    /** The rest of do_gc once the victim is chosen: every page cleaned, every block erased, the line free. */
    method CleanAndFree(v: nat, ghost s0: Snap, ghost f: Flash)
      requires Arrays() && v < geo.blks && GcFrom(s0, v) && GcReached(s0, Fields(), v, 0, {})
      requires NandShape(s0.nand) && s0.nand.geo == geo && View(s0) == Select(f, v)
      modifies this`ipc, this`status, this`data, this`blocks, this`wp, this`gcWp, this`freeList, this`freeLineCnt
      modifies this`fullList, this`fullLineCnt, this`victimLineCnt, pq, pq.d, maptbl, rmap
      ensures Arrays() && Ok(Fields(), {}) && View(Fields()) == Gc(f, v)
      ensures Worn(old(blocks), blocks, BlocksOf(geo, v))
    {
      hide Worn, GcFrom, GcReached, PQueue.Valid, PQueue.WellFormed, Geo.PgsPerBlk, Geo.PgsPerLine, Geo.TtPgs,
           ErasedBefore, NandShape, MaptblOk, WpOk, BlocksOk, LineCountersOk, ListsOk, View, Gc, InPlace, LineLeft;
      CleanLine(v, s0);
      AllBlocksErased(geo, v);
      ErasedAreBlocks(geo, v);
      LineFreeRefines(s0, Fields(), v, ErasedBefore(geo, v, true, geo.nchs, 0));
      GcCanProgram(s0, Fields(), v, geo.PgsPerLine(), ErasedBefore(geo, v, true, geo.nchs, 0));
      MarkLineFree(Ppa(geo.nchs - 1, geo.luns - 1, v, 0));
      CleaningDone(f, s0, v, Fields());
    }

    /** should_gc_high */
    predicate ShouldGcHigh()
      reads this
    {
      freeLineCnt <= GC_THRES_LINES_HIGH
    }

    /** foreground_gc */
    method ForegroundGc()
      requires Rep({}) && Core(Lines(), {}, {}) && Room(Lines()) >= 2 * Lines().cfg.L + 1
      modifies this, pq, pq.d, maptbl, rmap
      ensures Rep({}) && LogMachine.ForegroundGc(old(Machine()), Machine())
    {
      hide PQueue.Valid, PQueue.WellFormed, Geo.PgsPerBlk, Geo.PgsPerLine, Geo.TtPgs, Core, NandShape, MaptblOk, WpOk,
           BlocksOk, LineCountersOk, Gc, BestVictim, Ipc, Room, Collected;
      if ShouldGcHigh() {
        var r, victim := DoGc(true);
        if r == 0 {
          assert Collected(old(Machine()), victim, Machine());
          CollectedHadVictim(old(Machine()), victim, Machine());
        }
      }
    }

    method ConsumeWriteCredit()
      modifies this`writeCredits
      ensures writeCredits == old(writeCredits) - 1
    {
      writeCredits := writeCredits - 1;
    }

    /** check_and_refill_write_credit */
    method CheckAndRefillWriteCredit()
      requires Rep({}) && Core(Lines(), {}, {}) && (writeCredits <= 0 ==> Room(Lines()) >= 2 * Lines().cfg.L + 1)
      modifies this, pq, pq.d, maptbl, rmap
      ensures Rep({}) && RefillCredit(old(Machine()), Machine())
    {
      hide PQueue.Valid, PQueue.WellFormed, Geo.PgsPerBlk, Geo.PgsPerLine, Geo.TtPgs, Core, Room,
           LogMachine.ForegroundGc, View, NandShape, MaptblOk, WpOk, BlocksOk, LineCountersOk, ListsOk;
      if writeCredits <= 0 {
        ForegroundGc();
        ghost var g := Machine();
        writeCredits := writeCredits + creditsToRefill;
        assert Machine() == g.(credits := g.credits + g.refill);
      }
    }

    /** One round of the conv_write loop. */
    method WritePage(lpn: nat, ghost d: int)
      requires Rep({}) && Inv(Machine()) && lpn < maptbl.Length
      modifies this, pq, pq.d, maptbl, rmap
      ensures Rep({}) && WriteStep(old(Machine()), lpn, d, Machine())
    {
      hide PQueue.Valid, PQueue.WellFormed, Geo.PgsPerBlk, Geo.PgsPerLine, Geo.TtPgs, Core, Room, RefillCredit, UserWrite,
           OrderOk, NandShape, MaptblOk, WpOk, BlocksOk, LineCountersOk, ListsOk, View;
      TableSize(Fields());
      ghost var s := Machine();
      OneMoreWrite(s, lpn, d);
      WriteOnePage(lpn, d);
      ConsumeWriteCredit();
      CheckAndRefillWriteCredit();
    }

    /**
      conv_write on one partition: refused beyond the table or without buffer space, otherwise
      every page of the command is stored, nothing else changes for the host, and the device
      is ready for the next command. `buffered` is whether the write buffer had room.
    */
    method ConvWrite(startLpn: nat, endLpn: nat, buffered: bool, ghost data: seq<int>) returns (ok: bool)
      requires startLpn <= endLpn && |data| == endLpn - startLpn + 1
      requires Rep({}) && Inv(Machine())
      requires endLpn < geo.TtPgs() && buffered ==> Roomy(Lines().cfg, Mapped(Lines().l2p) + Span(startLpn, |data|))
      modifies this, pq, pq.d, maptbl, rmap
      ensures ok <==> endLpn < geo.TtPgs() && buffered
      ensures !ok ==> Fields() == old(Fields()) && Machine() == old(Machine())
      ensures Rep({}) && (ok ==> Stored(old(Machine()), startLpn, data, Machine()))
    {
      hide PQueue.Valid, PQueue.WellFormed, Geo.PgsPerBlk, Geo.PgsPerLine, Geo.TtPgs, View, WriteStep, Roomy,
           Inv, NandShape, WpOk, BlocksOk, LineCountersOk, ListsOk, Mapped, Stored;
      ghost var s := Machine();
      if endLpn >= geo.TtPgs() {
        return false;
      }
      if !buffered {
        return false;
      }
      TableSize(Fields());
      NothingStored(s, startLpn);
      var lpn := startLpn;
      ghost var k := 0;
      assert data[..0] == [];
      while lpn <= endLpn
        invariant startLpn <= lpn <= endLpn + 1 && k == lpn - startLpn
        invariant Rep({}) && Stored(s, startLpn, data[..k], Machine())
      {
        StoredInv(s, startLpn, data[..k], Machine());
        ghost var t := Machine();
        WritePage(lpn, data[k]);
        StoredStep(s, startLpn, data, k, t, Machine());
        lpn, k := lpn + 1, k + 1;
      }
      assert data[..k] == data;
      return true;
    }
  }
}
