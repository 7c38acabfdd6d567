/**
  The fields of struct conv_ftl as one value, the representation invariant that ties its
  addresses and counters to the line logs of LogMachine, and what single field updates do to it.
*/
module FtlSnap {
  import opened Basics
  import opened Geometry
  import opened LogMachine
  import opened FtlInvariant

  const INVALID_LPN: nat := 0xFFFF_FFFF_FFFF_FFFF

  datatype BlkAddr = BlkAddr(ch: nat, lun: nat, blk: nat)

  datatype NandBlock = NandBlock(ipc: int, vpc: int, eraseCnt: nat)

  /** Of all erase counts exactly those of the blocks in `erased` went up, by one. */
  ghost predicate Worn(before: map<BlkAddr, NandBlock>, after: map<BlkAddr, NandBlock>, erased: set<BlkAddr>) {
    && after.Keys == before.Keys
    && forall b :: b in before ==> after[b].eraseCnt == before[b].eraseCnt + if b in erased then 1 else 0
  }

  lemma NotWorn(blocks: map<BlkAddr, NandBlock>)
    ensures Worn(blocks, blocks, {})
  {}

  lemma WornTwice(a: map<BlkAddr, NandBlock>, b: map<BlkAddr, NandBlock>, c: map<BlkAddr, NandBlock>, first: set<BlkAddr>,
                  second: set<BlkAddr>, all: set<BlkAddr>)
    requires Worn(a, b, first) && Worn(b, c, second) && first !! second && all == first + second
    ensures Worn(a, c, all)
  {}

  lemma OneBlockChanged(blocks: map<BlkAddr, NandBlock>, b: BlkAddr, x: NandBlock)
    requires b in blocks
    ensures x.eraseCnt == blocks[b].eraseCnt ==> Worn(blocks, blocks[b := x], {})
    ensures x.eraseCnt == blocks[b].eraseCnt + 1 ==> Worn(blocks, blocks[b := x], {b})
  {}

  datatype WritePointer = WritePointer(curline: nat, ch: nat, lun: nat, pg: nat, blk: nat)

  /** What determines the content of the pages; `data` is the host data a page holds. */
  datatype Nand = Nand(geo: Geo, rmap: seq<nat>, status: map<Ppa, Status>, data: map<Ppa, int>)

  datatype Snap = Snap(
    nand: Nand,
    maptbl: seq<Option<Ppa>>,
    blocks: map<BlkAddr, NandBlock>,
    vpc: seq<int>,
    ipc: seq<int>,
    pos: seq<nat>,
    heap: set<nat>,
    freeList: seq<nat>,
    fullList: seq<nat>,
    freeLineCnt: int,
    fullLineCnt: int,
    victimLineCnt: int,
    wp: WritePointer,
    gcWp: WritePointer
  )

  // ---- What the fields mean ----

  function PpaOf(w: WritePointer): Ppa { Ppa(w.ch, w.lun, w.blk, w.pg) }

  function LocOf(g: Geo, p: Ppa): Loc
    requires g.Valid()
  {
    Loc(p.blk, Index(g, p))
  }

  ghost function PageOf(st: Status, lpn: nat, d: int): Page {
    match st
    case PgFree => Free
    case PgValid => Live(lpn, d)
    case PgInvalid => Dead
  }

  ghost predicate NandShape(s: Nand) {
    && s.geo.Valid() && |s.rmap| == s.geo.TtPgs()
    && (forall p :: p in s.status <==> ValidPpa(s.geo, p))
    && (forall p :: p in s.data <==> ValidPpa(s.geo, p))
  }

  ghost function PageIn(s: Nand, p: Ppa): Page
    requires NandShape(s) && ValidPpa(s.geo, p)
  {
    PgIdxBound(s.geo, p);
    PageOf(s.status[p], s.rmap[PgIdx(s.geo, p)], s.data[p])
  }

  ghost function LineOf(s: Nand, l: nat): (r: seq<Page>)
    requires NandShape(s) && l < s.geo.blks
    ensures |r| == s.geo.PgsPerLine()
  {
    seq(s.geo.PgsPerLine(), i requires 0 <= i < s.geo.PgsPerLine() =>
      (IndexOfPpaAt(s.geo, l, i); PageIn(s, PpaAt(s.geo, l, i))))
  }

  ghost function LinesOf(s: Nand): (r: seq<seq<Page>>)
    requires NandShape(s)
    ensures |r| == s.geo.blks && forall l :: 0 <= l < |r| ==> r[l] == LineOf(s, l)
  {
    seq(s.geo.blks, l requires 0 <= l < s.geo.blks => LineOf(s, l))
  }

  ghost function MapOf(g: Geo, m: seq<Option<Ppa>>): (r: seq<Option<Loc>>)
    requires g.Valid()
    ensures |r| == |m|
    ensures forall l :: 0 <= l < |m| ==> r[l] == if m[l].Some? then Some(LocOf(g, m[l].value)) else None
  {
    seq(|m|, l requires 0 <= l < |m| => if m[l].Some? then Some(LocOf(g, m[l].value)) else None)
  }

  /** The order in which do_gc visits the pages of a line: flash page, channel, lun, page. */
  ghost function GcPpa(g: Geo, line: nat, k: nat): Ppa
    requires g.Valid()
  {
    var flashpage := High(k, g.flash);
    var column := High(flashpage, g.luns);
    Ppa(Low(column, g.nchs), Low(flashpage, g.luns), line, Join(High(column, g.nchs), g.flash, Low(k, g.flash)))
  }

  ghost function GcOrder(g: Geo): (r: seq<nat>)
    requires g.Valid()
    ensures |r| == g.PgsPerLine()
  {
    seq(g.PgsPerLine(), (k: nat) => Index(g, GcPpa(g, 0, k)))
  }

  ghost function ConfigOf(g: Geo): Config
    requires g.Valid()
  {
    Config(g.PgsPerLine(), g.blks, GcOrder(g))
  }

  /** The line machine that the fields represent. */
  ghost function View(s: Snap): Flash
    requires NandShape(s.nand)
  {
    var g := s.nand.geo;
    Flash(ConfigOf(g), LinesOf(s.nand), MapOf(g, s.maptbl), s.freeList, s.fullList, s.heap,
          LocOf(g, PpaOf(s.wp)), LocOf(g, PpaOf(s.gcWp)), false)
  }

  lemma TableSize(s: Snap)
    requires NandShape(s.nand)
    ensures |View(s).l2p| == |s.maptbl| && View(s).cfg.lines == s.nand.geo.blks
  {
    hide NandShape, Index, LineOf;
  }

  // ---- The representation invariant ----

  ghost predicate WpOk(g: Geo, w: WritePointer) {
    ValidPpa(g, PpaOf(w)) && w.curline == w.blk
  }

  function BlkOf(p: Ppa): BlkAddr { BlkAddr(p.ch, p.lun, p.blk) }

  ghost predicate ValidBlk(g: Geo, b: BlkAddr) { b.ch < g.nchs && b.lun < g.luns && b.blk < g.blks }

  ghost function BlkStatuses(s: Nand, b: BlkAddr): (r: seq<Status>)
    requires NandShape(s) && ValidBlk(s.geo, b)
    ensures |r| == s.geo.PgsPerBlk()
    ensures forall pg :: 0 <= pg < |r| ==> r[pg] == s.status[Ppa(b.ch, b.lun, b.blk, pg)]
  {
    seq(s.geo.PgsPerBlk(), pg requires 0 <= pg < s.geo.PgsPerBlk() => s.status[Ppa(b.ch, b.lun, b.blk, pg)])
  }

  /** Block counters count the block's valid and invalid pages. */
  ghost predicate BlocksOk(n: Nand, blocks: map<BlkAddr, NandBlock>)
    requires NandShape(n)
  {
    && (forall b :: ValidBlk(n.geo, b) ==> b in blocks)
    && forall b :: ValidBlk(n.geo, b) ==> BlkCounted(n, b, blocks[b])
  }

  ghost predicate BlkCounted(n: Nand, b: BlkAddr, blk: NandBlock)
    requires NandShape(n) && ValidBlk(n.geo, b)
  {
    blk.vpc == Count(BlkStatuses(n, b), PgValid) && blk.ipc == Count(BlkStatuses(n, b), PgInvalid)
  }

  /** Line counters count the line's valid and invalid pages; GC's victim `out` is exempt while it is erased. */
  ghost predicate LineCountersOk(n: Nand, vpc: seq<int>, ipc: seq<int>, out: set<nat>)
    requires NandShape(n)
  {
    && |vpc| == |ipc| == n.geo.blks
    && forall l :: 0 <= l < n.geo.blks && l !in out ==> LineCounted(n, l, vpc[l], ipc[l])
  }

  ghost predicate LineCounted(n: Nand, l: nat, vpc: int, ipc: int)
    requires NandShape(n) && l < n.geo.blks
  {
    vpc == Vpc(LineOf(n, l)) && ipc == Ipc(LineOf(n, l))
  }

  /** A line has a heap position exactly when it is in the heap; the list counters are the list lengths. */
  ghost predicate ListsOk(s: Snap) {
    && |s.pos| == s.nand.geo.blks
    && (forall l :: 0 <= l < |s.pos| ==> (s.pos[l] != 0 <==> l in s.heap))
    && s.freeLineCnt == |s.freeList| && s.fullLineCnt == |s.fullList| && s.victimLineCnt == |s.heap|
  }

  ghost predicate MaptblOk(g: Geo, m: seq<Option<Ppa>>) {
    && |m| == g.TtPgs()
    && forall l :: 0 <= l < |m| && m[l].Some? ==> ValidPpa(g, m[l].value)
  }

  ghost predicate Ok(s: Snap, out: set<nat>) {
    && NandShape(s.nand) && MaptblOk(s.nand.geo, s.maptbl)
    && WpOk(s.nand.geo, s.wp) && WpOk(s.nand.geo, s.gcWp)
    && BlocksOk(s.nand, s.blocks) && LineCountersOk(s.nand, s.vpc, s.ipc, out) && ListsOk(s)
  }

  ghost predicate NoPlace(f: Flash, out: set<nat>, l: nat) {
    l !in f.free && l !in f.full && l !in f.victims && l !in out
  }

  // ---- One page changes ----

  lemma SlotOf(s: Nand, l: nat, i: nat, p: Ppa)
    requires NandShape(s) && ValidPpa(s.geo, p) && l < s.geo.blks && i < s.geo.PgsPerLine()
    ensures ValidPpa(s.geo, PpaAt(s.geo, l, i)) && LineOf(s, l)[i] == PageIn(s, PpaAt(s.geo, l, i))
    ensures PpaAt(s.geo, l, i) == p <==> l == p.blk && i == Index(s.geo, p)
  {
    IndexOfPpaAt(s.geo, l, i);
    PpaAtIndex(s.geo, p);
    hide PageIn, Index, PpaAt, Geo.PgsPerLine, Geo.PgsPerBlk, Geo.TtPgs;
  }

  /** If only page p reads differently, only its slot of its line does. */
  lemma LinesChange(s: Nand, t: Nand, p: Ppa)
    requires NandShape(s) && NandShape(t) && t.geo == s.geo && ValidPpa(s.geo, p)
    requires forall q :: ValidPpa(s.geo, q) && q != p ==> PageIn(t, q) == PageIn(s, q)
    ensures Index(s.geo, p) < s.geo.PgsPerLine()
    ensures LineOf(t, p.blk) == LineOf(s, p.blk)[Index(s.geo, p) := PageIn(t, p)]
    ensures LinesOf(t) == LinesOf(s)[p.blk := LineOf(t, p.blk)]
  {
    IndexBound(s.geo, p);
    var n := s.geo.PgsPerLine();
    hide PageIn, Index, PpaAt, Geo.PgsPerLine, Geo.PgsPerBlk, Geo.TtPgs, NandShape, LineOf, ValidPpa;
    forall l: nat | l < s.geo.blks
      ensures LineOf(t, l) == if l == p.blk then LineOf(s, l)[Index(s.geo, p) := PageIn(t, p)] else LineOf(s, l)
    {
      forall i: nat | i < n
        ensures LineOf(t, l)[i] == if l == p.blk && i == Index(s.geo, p) then PageIn(t, p) else LineOf(s, l)[i]
      {
        SlotOf(s, l, i, p);
        SlotOf(t, l, i, p);
      }
    }
  }

  lemma LinesSame(s: Nand, t: Nand)
    requires NandShape(s) && NandShape(t) && t.geo == s.geo
    requires forall q :: ValidPpa(s.geo, q) ==> PageIn(t, q) == PageIn(s, q)
    ensures LinesOf(t) == LinesOf(s)
  {
    assert s.geo.Valid();
    hide PageIn, Index, PpaAt, Geo.PgsPerLine, Geo.PgsPerBlk, Geo.TtPgs, NandShape, ValidPpa;
    forall l: nat | l < s.geo.blks ensures LineOf(t, l) == LineOf(s, l) {
      forall i: nat | i < s.geo.PgsPerLine() ensures LineOf(t, l)[i] == LineOf(s, l)[i] {
        IndexOfPpaAt(s.geo, l, i);
      }
    }
  }

  // ---- mark_page_valid and mark_page_invalid on the fields ----

  function SetStatus(n: Nand, p: Ppa, st: Status): Nand { n.(status := n.status[p := st]) }

  lemma StatusChange(n: Nand, p: Ppa, st: Status)
    requires NandShape(n) && ValidPpa(n.geo, p)
    ensures var t := SetStatus(n, p, st);
            && NandShape(t) && Index(n.geo, p) < n.geo.PgsPerLine()
            && LineOf(t, p.blk) == LineOf(n, p.blk)[Index(n.geo, p) := PageIn(t, p)]
            && LinesOf(t) == LinesOf(n)[p.blk := LineOf(t, p.blk)]
            && LineOf(n, p.blk)[Index(n.geo, p)] == PageIn(n, p)
  {
    var t := SetStatus(n, p, st);
    assert NandShape(t);
    forall q | ValidPpa(n.geo, q) && q != p ensures PageIn(t, q) == PageIn(n, q) {}
    hide PageIn, PageOf, LineOf, LinesOf, Index;
    LinesChange(n, t, p);
    SlotOf(n, p.blk, Index(n.geo, p), p);
  }

  /** Recording an owner for a page that is not valid changes no page. */
  lemma RmapChange(n: Nand, p: Ppa, lpn: nat, d: int)
    requires NandShape(n) && ValidPpa(n.geo, p) && n.status[p] != PgValid
    ensures PgIdx(n.geo, p) < n.geo.TtPgs()
    ensures var t := n.(rmap := n.rmap[PgIdx(n.geo, p) := lpn], data := n.data[p := d]);
            NandShape(t) && LinesOf(t) == LinesOf(n)
  {
    PgIdxBound(n.geo, p);
    var t := n.(rmap := n.rmap[PgIdx(n.geo, p) := lpn], data := n.data[p := d]);
    assert NandShape(t);
    hide PgIdx, Geo.TtPgs, Geo.PgsPerBlk, Geo.PgsPerLine;
    forall q | ValidPpa(n.geo, q) ensures PageIn(t, q) == PageIn(n, q) {
      PgIdxBound(n.geo, q);
      if q != p && PgIdx(n.geo, q) == PgIdx(n.geo, p) { PgIdxInjective(n.geo, p, q); }
    }
    LinesSame(n, t);
  }

  /** n of something, after one counted thing changed from `was` to `now`. */
  function Shift(n: int, was: Status, now: Status, st: Status): int {
    n - (if was == st then 1 else 0) + (if now == st then 1 else 0)
  }

  function ShiftBlk(b: NandBlock, was: Status, now: Status): NandBlock {
    NandBlock(Shift(b.ipc, was, now, PgInvalid), Shift(b.vpc, was, now, PgValid), b.eraseCnt)
  }

  lemma BlkStatusChange(n: Nand, p: Ppa, st: Status)
    requires NandShape(n) && ValidPpa(n.geo, p)
    ensures var t := SetStatus(n, p, st);
            && NandShape(t)
            && BlkStatuses(t, BlkOf(p)) == BlkStatuses(n, BlkOf(p))[p.pg := st]
            && forall c :: ValidBlk(n.geo, c) && c != BlkOf(p) ==> BlkStatuses(t, c) == BlkStatuses(n, c)
  {
    hide Geo.PgsPerBlk, Geo.TtPgs;
    var t := SetStatus(n, p, st);
    assert NandShape(t);
    forall c | ValidBlk(n.geo, c) && c != BlkOf(p) ensures BlkStatuses(t, c) == BlkStatuses(n, c) {}
  }

  /** A status change moves one page between its block's counts. */
  lemma BlocksFollow(n: Nand, blocks: map<BlkAddr, NandBlock>, p: Ppa, st: Status)
    requires NandShape(n) && ValidPpa(n.geo, p) && BlocksOk(n, blocks)
    ensures NandShape(SetStatus(n, p, st))
    ensures BlkOf(p) in blocks
    ensures BlocksOk(SetStatus(n, p, st), blocks[BlkOf(p) := ShiftBlk(blocks[BlkOf(p)], n.status[p], st)])
  {
    var t, b := SetStatus(n, p, st), BlkOf(p);
    BlkStatusChange(n, p, st);
    assert ValidBlk(n.geo, b) && BlkCounted(n, b, blocks[b]);
    CountUpdate(BlkStatuses(n, b), p.pg, st, PgValid);
    CountUpdate(BlkStatuses(n, b), p.pg, st, PgInvalid);
    hide BlkStatuses, Count, NandShape;
  }

  /** The range assertions on block counters: the page being changed is counted. */
  lemma BlkCountersInRange(n: Nand, blocks: map<BlkAddr, NandBlock>, p: Ppa)
    requires NandShape(n) && ValidPpa(n.geo, p) && BlocksOk(n, blocks)
    ensures BlkOf(p) in blocks
    ensures var b := blocks[BlkOf(p)];
            && 0 <= b.ipc <= n.geo.PgsPerBlk() && 0 <= b.vpc <= n.geo.PgsPerBlk()
            && (n.status[p] == PgValid ==> b.vpc > 0)
            && (n.status[p] != PgValid ==> b.vpc < n.geo.PgsPerBlk())
            && (n.status[p] != PgInvalid ==> b.ipc < n.geo.PgsPerBlk())
  {
    var q := BlkStatuses(n, BlkOf(p));
    assert ValidBlk(n.geo, BlkOf(p)) && BlkCounted(n, BlkOf(p), blocks[BlkOf(p)]);
    assert q[p.pg] == n.status[p];
    CountNone(q, PgValid);
    CountAll(q, PgValid);
    CountAll(q, PgInvalid);
  }

  lemma LineCountShift(n: Nand, p: Ppa, st: Status)
    requires NandShape(n) && ValidPpa(n.geo, p)
    ensures NandShape(SetStatus(n, p, st))
    ensures Vpc(LineOf(SetStatus(n, p, st), p.blk)) == Shift(Vpc(LineOf(n, p.blk)), n.status[p], st, PgValid)
    ensures Ipc(LineOf(SetStatus(n, p, st), p.blk)) == Shift(Ipc(LineOf(n, p.blk)), n.status[p], st, PgInvalid)
  {
    hide LineOf, Index, LinesOf, PgIdx, Geo.PgsPerLine, Geo.PgsPerBlk, Count;
    StatusChange(n, p, st);
    var t, i := SetStatus(n, p, st), Index(n.geo, p);
    assert StatusOf(PageIn(n, p)) == n.status[p] && StatusOf(PageIn(t, p)) == st;
    hide PageIn, NandShape;
    assert Statuses(LineOf(t, p.blk)) == Statuses(LineOf(n, p.blk))[i := st];
    CountUpdate(Statuses(LineOf(n, p.blk)), i, st, PgValid);
    CountUpdate(Statuses(LineOf(n, p.blk)), i, st, PgInvalid);
  }

  /** A status change moves one page between its line's counts. */
  lemma LineCountersFollow(n: Nand, vpc: seq<int>, ipc: seq<int>, p: Ppa, st: Status, out: set<nat>)
    requires NandShape(n) && ValidPpa(n.geo, p) && LineCountersOk(n, vpc, ipc, out) && p.blk !in out
    ensures NandShape(SetStatus(n, p, st))
    ensures LineCountersOk(SetStatus(n, p, st),
                           vpc[p.blk := Shift(vpc[p.blk], n.status[p], st, PgValid)],
                           ipc[p.blk := Shift(ipc[p.blk], n.status[p], st, PgInvalid)], out)
  {
    var t := SetStatus(n, p, st);
    StatusChange(n, p, st);
    LineCountShift(n, p, st);
    assert LineCounted(n, p.blk, vpc[p.blk], ipc[p.blk]);
    hide PageIn, LineOf, Index, Vpc, Ipc, NandShape;
    forall l | 0 <= l < n.geo.blks && l != p.blk ensures LineOf(t, l) == LineOf(n, l) {
      assert LinesOf(t)[l] == LinesOf(n)[l];
    }
  }

  // ---- The operations of the line machine, on the fields ----

  lemma ViewShape(s: Snap)
    requires Ok(s, {})
    ensures Index(s.nand.geo, PpaOf(s.wp)) < s.nand.geo.PgsPerLine()
    ensures Index(s.nand.geo, PpaOf(s.gcWp)) < s.nand.geo.PgsPerLine()
    ensures InRange(View(s), View(s).user) && InRange(View(s), View(s).gc)
  {
    IndexBound(s.nand.geo, PpaOf(s.wp));
    IndexBound(s.nand.geo, PpaOf(s.gcWp));
  }

  // mark_page_invalid

  /** The assertions of mark_page_invalid, and room in the heap for a line that enters it. */
  ghost predicate CanInvalidate(s: Snap, p: Ppa) {
    && p in s.nand.status && s.nand.status[p] == PgValid
    && BlkOf(p) in s.blocks && p.blk < |s.vpc| && p.blk < |s.ipc| && p.blk < |s.pos|
    && 0 <= s.blocks[BlkOf(p)].ipc < s.nand.geo.PgsPerBlk()
    && 0 < s.blocks[BlkOf(p)].vpc <= s.nand.geo.PgsPerBlk()
    && 0 <= s.ipc[p.blk] < s.nand.geo.PgsPerLine()
    && 0 < s.vpc[p.blk] <= s.nand.geo.PgsPerLine()
    && (s.pos[p.blk] != 0 <==> p.blk in s.heap)
    && (s.vpc[p.blk] == s.nand.geo.PgsPerLine() ==>
          s.ipc[p.blk] == 0 && p.blk in s.fullList && p.blk !in s.heap && |s.heap| < s.nand.geo.blks)
  }

  ghost function AfterInvalid(s: Snap, p: Ppa, pos: seq<nat>): Snap
    requires CanInvalidate(s, p)
  {
    var full := s.vpc[p.blk] == s.nand.geo.PgsPerLine();
    s.(nand := SetStatus(s.nand, p, PgInvalid),
       blocks := s.blocks[BlkOf(p) := NandBlock(s.blocks[BlkOf(p)].ipc + 1, s.blocks[BlkOf(p)].vpc - 1,
                                                s.blocks[BlkOf(p)].eraseCnt)],
       vpc := s.vpc[p.blk := s.vpc[p.blk] - 1],
       ipc := s.ipc[p.blk := s.ipc[p.blk] + 1],
       pos := pos,
       heap := if full then s.heap + {p.blk} else s.heap,
       fullList := if full then Without(s.fullList, p.blk) else s.fullList,
       fullLineCnt := if full then s.fullLineCnt - 1 else s.fullLineCnt,
       victimLineCnt := if full then s.victimLineCnt + 1 else s.victimLineCnt)
  }

  /** What a heap operation does to the positions: its elements have one, nobody else's changes. */
  ghost predicate Placed(before: seq<nat>, after: seq<nat>, heap: set<nat>) {
    SameOutside(heap, before, after) && forall h :: h in heap ==> h < |after| && after[h] >= 1
  }

  lemma InvalidReady(s: Snap, p: Ppa)
    requires Ok(s, {}) && Core(View(s), {}, {}) && ValidPpa(s.nand.geo, p) && s.nand.status[p] == PgValid
    ensures CanInvalidate(s, p)
  {
    hide Core, BlocksOk, LineCounted, MaptblOk, WpOk, GcOrder, MapOf, Index, LineOf;
    var l, n := p.blk, s.nand;
    var line, i := LineOf(n, l), Index(n.geo, p);
    BlkCountersInRange(n, s.blocks, p);
    StatusChange(n, p, PgInvalid);
    assert line[i].Live?;
    assert line == View(s).lines[l];
    if AllLive(line) { FullInList(View(s), l); }
    hide LinesOf, NandShape, AllLive, PageIn;
    LineInRange(s, l, i);
  }

  lemma LineInRange(s: Snap, l: nat, i: nat)
    requires NandShape(s.nand) && LineCountersOk(s.nand, s.vpc, s.ipc, {}) && l < s.nand.geo.blks
    requires i < s.nand.geo.PgsPerLine() && LineOf(s.nand, l)[i].Live?
    ensures 0 <= s.ipc[l] < s.nand.geo.PgsPerLine() && 0 < s.vpc[l] <= s.nand.geo.PgsPerLine()
    ensures s.vpc[l] == s.nand.geo.PgsPerLine() ==> AllLive(LineOf(s.nand, l)) && s.ipc[l] == 0
  {
    hide NandShape, LineOf, Geo.PgsPerLine, AllLive, Vpc, Ipc;
    assert LineCounted(s.nand, l, s.vpc[l], s.ipc[l]);
    CountersOfLine(LineOf(s.nand, l), i);
  }

  lemma CountersOfLine(line: seq<Page>, i: nat)
    requires i < |line| && line[i].Live?
    ensures 0 <= Ipc(line) < |line| && 0 < Vpc(line) <= |line|
    ensures Vpc(line) == |line| ==> AllLive(line) && Ipc(line) == 0
  {
    assert Statuses(line)[i] == PgValid;
    CountNone(Statuses(line), PgValid);
    CountAll(Statuses(line), PgInvalid);
    VpcFull(line);
    if AllLive(line) { CountNone(Statuses(line), PgInvalid); }
  }

  lemma FullInList(f: Flash, l: nat)
    requires Core(f, {}, {}) && l < |f.lines| && AllLive(f.lines[l])
    ensures l in f.full && l !in f.victims && |f.victims| < |f.lines|
  {
    FullIsListed(f, l);
    assert Places(f, {}, l) == 1;
    assert f.victims <= UpTo(|f.lines|) - {l};
    SubsetSize(f.victims, UpTo(|f.lines|) - {l});
  }

  lemma InvalidKeepsOk(s: Snap, p: Ppa, pos: seq<nat>)
    requires Ok(s, {}) && ValidPpa(s.nand.geo, p) && CanInvalidate(s, p) && NoDup(s.fullList)
    requires Placed(s.pos, pos, AfterInvalid(s, p, pos).heap)
    ensures Ok(AfterInvalid(s, p, pos), {})
  {
    hide NandShape, BlocksOk, LineCountersOk, ValidPpa, ListsOk, Placed, Without, MaptblOk, NoDup;
    BlocksFollow(s.nand, s.blocks, p, PgInvalid);
    LineCountersFollow(s.nand, s.vpc, s.ipc, p, PgInvalid, {});
    InvalidLists(s, p, pos);
  }

  lemma InvalidLists(s: Snap, p: Ppa, pos: seq<nat>)
    requires ListsOk(s) && CanInvalidate(s, p) && NoDup(s.fullList)
    requires Placed(s.pos, pos, AfterInvalid(s, p, pos).heap)
    ensures ListsOk(AfterInvalid(s, p, pos))
  {
    WithoutKeepsNoDup(s.fullList, p.blk);
    hide Without, NoDup;
  }

  /** mark_page_invalid on the fields is Invalidate on the line machine. */
  lemma InvalidRefines(s: Snap, p: Ppa, pos: seq<nat>)
    requires Ok(s, {}) && ValidPpa(s.nand.geo, p) && CanInvalidate(s, p)
    ensures NandShape(SetStatus(s.nand, p, PgInvalid))
    ensures Invalidated(View(s), LocOf(s.nand.geo, p), View(AfterInvalid(s, p, pos)))
  {
    hide BlocksOk, LineOf, Vpc, Ipc, ListsOk, MaptblOk, GcOrder, Index, Geo.PgsPerLine, Geo.PgsPerBlk, PgIdx;
    var t, n := AfterInvalid(s, p, pos), s.nand;
    StatusChange(n, p, PgInvalid);
    assert LineCounted(n, p.blk, s.vpc[p.blk], s.ipc[p.blk]);
    assert PageIn(t.nand, p) == Dead;
    hide NandShape, PageIn, LineCountersOk;
  }

  // get_new_page, set_maptbl_ent, set_rmap_ent, mark_page_valid

  function WpOf(s: Snap, io: Io): WritePointer { if io.UserIo? then s.wp else s.gcWp }

  function WithWp(s: Snap, io: Io, w: WritePointer): Snap {
    if io.UserIo? then s.(wp := w) else s.(gcWp := w)
  }

  ghost predicate CanPut(s: Snap, p: Ppa, lpn: nat) {
    && lpn < |s.maptbl| && PgIdx(s.nand.geo, p) < |s.nand.rmap|
    && p in s.nand.status && s.nand.status[p] == PgFree
    && BlkOf(p) in s.blocks && p.blk < |s.vpc| && p.blk !in s.heap
    && 0 <= s.blocks[BlkOf(p)].vpc < s.nand.geo.PgsPerBlk()
    && 0 <= s.vpc[p.blk] < s.nand.geo.PgsPerLine()
  }

  ghost function NandPut(n: Nand, p: Ppa, lpn: nat, d: int): Nand
    requires PgIdx(n.geo, p) < |n.rmap|
  {
    SetStatus(n.(rmap := n.rmap[PgIdx(n.geo, p) := lpn], data := n.data[p := d]), p, PgValid)
  }

  ghost function AfterPut(s: Snap, p: Ppa, lpn: nat, d: int): Snap
    requires CanPut(s, p, lpn)
  {
    s.(nand := NandPut(s.nand, p, lpn, d),
       maptbl := s.maptbl[lpn := Some(p)],
       blocks := s.blocks[BlkOf(p) := NandBlock(s.blocks[BlkOf(p)].ipc, s.blocks[BlkOf(p)].vpc + 1,
                                                s.blocks[BlkOf(p)].eraseCnt)],
       vpc := s.vpc[p.blk := s.vpc[p.blk] + 1])
  }

  lemma InvalidNotWorn(s: Snap, p: Ppa, pos: seq<nat>)
    requires CanInvalidate(s, p)
    ensures Worn(s.blocks, AfterInvalid(s, p, pos).blocks, {})
  {}

  lemma PutNotWorn(s: Snap, p: Ppa, lpn: nat, d: int)
    requires CanPut(s, p, lpn)
    ensures Worn(s.blocks, AfterPut(s, p, lpn, d).blocks, {})
  {}

  lemma OpenLine(f: Flash, out: set<nat>, io: Io)
    requires InPlace(f, out)
    ensures InRange(f, Wp(f, io)) && At(f, Wp(f, io)).Free? && NoPlace(f, out, Wp(f, io).line)
    ensures Vpc(f.lines[Wp(f, io).line]) < f.cfg.L
  {
    assert Places(f, out, Wp(f, io).line) == 1;
    hide Vpc, Places, NoDup;
    NotFull(f.lines[Wp(f, io).line], Wp(f, io).idx);
  }

  lemma PutReady(s: Snap, io: Io, lpn: nat, out: set<nat>, cnt: set<nat>)
    requires Ok(s, cnt) && InPlace(View(s), out) && lpn < |s.maptbl| && cnt <= out
    ensures CanPut(s, PpaOf(WpOf(s, io)), lpn)
    ensures WpOf(s, io).blk !in out
  {
    hide InPlace, Vpc, GcOrder, MapOf, Index, BlocksOk, LineCounted, MaptblOk, PgIdx, LineOf;
    var p, n := PpaOf(WpOf(s, io)), s.nand;
    OpenLine(View(s), out, io);
    assert Wp(View(s), io) == LocOf(n.geo, p);
    BlkCountersInRange(n, s.blocks, p);
    StatusChange(n, p, PgValid);
    PgIdxBound(n.geo, p);
    assert LineCounted(n, p.blk, s.vpc[p.blk], s.ipc[p.blk]);
    FreeInLine(s, p.blk, Index(n.geo, p));
  }

  lemma FreeInLine(s: Snap, l: nat, i: nat)
    requires NandShape(s.nand) && l < s.nand.geo.blks && i < s.nand.geo.PgsPerLine() && LineOf(s.nand, l)[i].Free?
    requires l < |s.vpc| && l < |s.ipc| && LineCounted(s.nand, l, s.vpc[l], s.ipc[l])
    ensures 0 <= s.vpc[l] < s.nand.geo.PgsPerLine()
  {
    hide NandShape, LineOf, Geo.PgsPerLine;
    NotFull(LineOf(s.nand, l), i);
  }

  lemma NotFull(line: seq<Page>, i: nat)
    requires i < |line| && line[i].Free?
    ensures Vpc(line) < |line|
  {
    VpcFull(line);
  }

  lemma NandPutChange(n: Nand, p: Ppa, lpn: nat, d: int)
    requires NandShape(n) && ValidPpa(n.geo, p) && n.status[p] == PgFree
    ensures PgIdx(n.geo, p) < |n.rmap|
    ensures var m, t := n.(rmap := n.rmap[PgIdx(n.geo, p) := lpn], data := n.data[p := d]), NandPut(n, p, lpn, d);
            && NandShape(m) && NandShape(t) && LinesOf(m) == LinesOf(n) && Index(n.geo, p) < n.geo.PgsPerLine()
            && LinesOf(t) == LinesOf(n)[p.blk := LineOf(n, p.blk)[Index(n.geo, p) := Live(lpn, d)]]
  {
    RmapChange(n, p, lpn, d);
    var m := n.(rmap := n.rmap[PgIdx(n.geo, p) := lpn], data := n.data[p := d]);
    StatusChange(m, p, PgValid);
    assert PageIn(NandPut(n, p, lpn, d), p) == Live(lpn, d);
    hide PageIn, LineOf, NandShape;
    assert LineOf(m, p.blk) == LinesOf(m)[p.blk];
  }

  lemma PutKeepsOk(s: Snap, p: Ppa, lpn: nat, d: int, out: set<nat>)
    requires Ok(s, out) && ValidPpa(s.nand.geo, p) && CanPut(s, p, lpn) && p.blk !in out
    ensures Ok(AfterPut(s, p, lpn, d), out)
  {
    hide NandShape, BlocksOk, LineCounted, ValidPpa, LinesOf, LineOf, MaptblOk, ListsOk, PgIdx, Index;
    var n := s.nand;
    NandPutChange(n, p, lpn, d);
    var m := n.(rmap := n.rmap[PgIdx(n.geo, p) := lpn], data := n.data[p := d]);
    SameLinesSameCounts(n, m, s.vpc, s.ipc, out);
    SameStatusSameBlocks(n, m, s.blocks);
    BlocksFollow(m, s.blocks, p, PgValid);
    LineCountersFollow(m, s.vpc, s.ipc, p, PgValid, out);
    assert s.ipc[p.blk := s.ipc[p.blk]] == s.ipc;
    MappedStays(n.geo, s.maptbl, lpn, p);
    SameLists(s, AfterPut(s, p, lpn, d));
  }

  lemma SameLists(s: Snap, t: Snap)
    requires ListsOk(s) && t.nand.geo == s.nand.geo && t.pos == s.pos && t.heap == s.heap
    requires t.freeList == s.freeList && t.fullList == s.fullList
    requires t.freeLineCnt == s.freeLineCnt && t.fullLineCnt == s.fullLineCnt && t.victimLineCnt == s.victimLineCnt
    ensures ListsOk(t)
  {}

  lemma MappedStays(g: Geo, m: seq<Option<Ppa>>, lpn: nat, p: Ppa)
    requires MaptblOk(g, m) && lpn < |m| && ValidPpa(g, p)
    ensures MaptblOk(g, m[lpn := Some(p)])
  {}

  lemma SameLinesSameCounts(n: Nand, m: Nand, vpc: seq<int>, ipc: seq<int>, out: set<nat>)
    requires NandShape(n) && NandShape(m) && n.geo == m.geo && LinesOf(m) == LinesOf(n)
    requires LineCountersOk(n, vpc, ipc, out)
    ensures LineCountersOk(m, vpc, ipc, out)
  {
    hide LineOf, NandShape, Vpc, Ipc;
    forall l | 0 <= l < n.geo.blks ensures LineOf(m, l) == LineOf(n, l) { assert LinesOf(m)[l] == LinesOf(n)[l]; }
  }

  lemma SameStatusSameBlocks(n: Nand, m: Nand, blocks: map<BlkAddr, NandBlock>)
    requires NandShape(n) && NandShape(m) && n.geo == m.geo && m.status == n.status && BlocksOk(n, blocks)
    ensures BlocksOk(m, blocks)
  {
    forall b | ValidBlk(n.geo, b) ensures BlkStatuses(m, b) == BlkStatuses(n, b) {}
    hide BlkStatuses, NandShape, Count;
  }

  /** Writing both tables and validating the page is Put on the line machine. */
  lemma PutRefines(s: Snap, io: Io, lpn: nat, d: int, out: set<nat>)
    requires Ok(s, out) && CanPut(s, PpaOf(WpOf(s, io)), lpn)
    ensures InRange(View(s), Wp(View(s), io)) && lpn < |View(s).l2p|
    ensures NandShape(NandPut(s.nand, PpaOf(WpOf(s, io)), lpn, d))
    ensures View(AfterPut(s, PpaOf(WpOf(s, io)), lpn, d)) == Put(View(s), io, lpn, d)
  {
    assert CanPut(s, PpaOf(WpOf(s, io)), lpn);
    hide NandShape, BlocksOk, LineCountersOk, PageIn, ListsOk, Index, MapOf, MaptblOk, NandPut, LineOf, GcOrder, PgIdx,
         Geo.PgsPerLine, Geo.PgsPerBlk, Geo.TtPgs;
    var p, n := PpaOf(WpOf(s, io)), s.nand;
    NandPutChange(n, p, lpn, d);
    IndexBound(n.geo, p);
    MapPut(n.geo, s.maptbl, lpn, p);
  }

  lemma MapPut(g: Geo, m: seq<Option<Ppa>>, lpn: nat, p: Ppa)
    requires g.Valid() && lpn < |m|
    ensures MapOf(g, m[lpn := Some(p)]) == MapOf(g, m)[lpn := Some(LocOf(g, p))]
  {
    hide Index;
  }

  // advance_write_pointer

  /** The next position in the line, or a fresh line, and the used-up line filed. */
  ghost predicate CanAdvance(s: Snap, io: Io) {
    var w := WpOf(s, io);
    && s.nand.geo.Valid() && ValidPpa(s.nand.geo, PpaOf(w)) && w.curline == w.blk
    && (NextPpa(s.nand.geo, PpaOf(w)).1 ==>
          && s.freeList != [] && s.freeList[0] < s.nand.geo.blks
          && w.curline < |s.vpc| && w.curline < |s.ipc|
          && (if s.vpc[w.curline] == s.nand.geo.PgsPerLine() then s.ipc[w.curline] == 0
              else 0 <= s.vpc[w.curline] < s.nand.geo.PgsPerLine() && s.ipc[w.curline] > 0
                   && w.curline !in s.heap && |s.heap| < s.nand.geo.blks))
  }

  ghost function Filed(s: Snap, line: nat, pos: seq<nat>): Snap
    requires line < |s.vpc|
  {
    if s.vpc[line] == s.nand.geo.PgsPerLine()
    then s.(fullList := s.fullList + [line], fullLineCnt := s.fullLineCnt + 1)
    else s.(heap := s.heap + {line}, victimLineCnt := s.victimLineCnt + 1, pos := pos)
  }

  ghost function AfterAdvance(s: Snap, io: Io, pos: seq<nat>): Snap
    requires CanAdvance(s, io)
  {
    var w := WpOf(s, io);
    var (q, last) := NextPpa(s.nand.geo, PpaOf(w));
    if !last then WithWp(s, io, WritePointer(w.curline, q.ch, q.lun, q.pg, w.blk))
    else
      var f := s.freeList[0];
      WithWp(Filed(s, w.curline, pos), io, WritePointer(f, 0, 0, 0, f))
        .(freeList := s.freeList[1..], freeLineCnt := s.freeLineCnt - 1)
  }

  lemma AdvanceReady(s: Snap, io: Io, out: set<nat>, cnt: set<nat>)
    requires Ok(s, cnt) && InPlaceAfterPut(View(s), out, io) && cnt <= out
    requires Wp(View(s), io).idx + 1 == s.nand.geo.PgsPerLine() ==> s.freeList != []
    ensures CanAdvance(s, io)
  {
    hide InPlaceAfterPut, ListsOk, BlocksOk, LineOf, Vpc, Ipc, MapOf, GcOrder, Index, NextPpa, MaptblOk, PageIn, PgIdx,
         Geo.PgsPerLine, Geo.PgsPerBlk;
    var w, g := WpOf(s, io), s.nand.geo;
    assert g.Valid();
    hide NandShape;
    NextPpaRaisesIndex(g, PpaOf(w));
    if NextPpa(g, PpaOf(w)).1 {
      UsedUpLine(View(s), out, io);
      assert LineCounted(s.nand, w.curline, s.vpc[w.curline], s.ipc[w.curline]);
      assert View(s).lines[w.curline] == LineOf(s.nand, w.curline);
    }
  }

  lemma UsedUpLine(f: Flash, out: set<nat>, io: Io)
    requires InPlaceAfterPut(f, out, io) && Wp(f, io).idx + 1 == f.cfg.L && f.free != []
    ensures var l := Wp(f, io).line;
            && l < |f.lines| && NoPlace(f, out, l) && |f.victims| < |f.lines| && f.free[0] < |f.lines|
            && Vpc(f.lines[l]) + Ipc(f.lines[l]) == f.cfg.L
  {
    var l := Wp(f, io).line;
    assert Places(f, out, l) == 1;
    assert f.free[0] in f.free;
    assert NoFree(f.lines[l]);
    NoFreeCounts(f.lines[l]);
    hide Vpc, Ipc, NoDup;
    assert f.victims <= UpTo(|f.lines|) - {l};
    SubsetSize(f.victims, UpTo(|f.lines|) - {l});
  }

  lemma AdvanceKeepsOk(s: Snap, io: Io, pos: seq<nat>, out: set<nat>)
    requires Ok(s, out) && CanAdvance(s, io)
    requires NextPpa(s.nand.geo, PpaOf(WpOf(s, io))).1 ==> Placed(s.pos, pos, AfterAdvance(s, io, pos).heap)
    ensures Ok(AfterAdvance(s, io, pos), out)
  {
    hide NandShape, BlocksOk, LineCountersOk, MaptblOk, NextPpa, Index, Geo.PgsPerLine, Geo.PgsPerBlk, ValidPpa, ListsOk,
         Placed;
    var w, g := WpOf(s, io), s.nand.geo;
    NextPpaRaisesIndex(g, PpaOf(w));
    if NextPpa(g, PpaOf(w)).1 {
      FirstIndex(g, s.freeList[0]);
      var f := s.freeList[0];
      FiledLists(s, w.curline, pos, io, WritePointer(f, 0, 0, 0, f), AfterAdvance(s, io, pos));
    } else {
      SameLists(s, AfterAdvance(s, io, pos));
    }
  }

  lemma FiledLists(s: Snap, line: nat, pos: seq<nat>, io: Io, w: WritePointer, u: Snap)
    requires ListsOk(s) && line < |s.vpc| && s.freeList != []
    requires s.vpc[line] != s.nand.geo.PgsPerLine() ==> line !in s.heap
    requires Placed(s.pos, pos, Filed(s, line, pos).heap)
    requires u == WithWp(Filed(s, line, pos), io, w).(freeList := s.freeList[1..], freeLineCnt := s.freeLineCnt - 1)
    ensures ListsOk(u)
  {
    hide Geo.PgsPerLine;
  }

  /** advance_write_pointer on the fields is Advance on the line machine. */
  lemma AdvanceRefines(s: Snap, io: Io, pos: seq<nat>, out: set<nat>)
    requires Ok(s, out) && CanAdvance(s, io) && WpOf(s, io).blk !in out
    ensures InRange(View(s), Wp(View(s), io))
    ensures View(AfterAdvance(s, io, pos)) == Advance(View(s), io)
  {
    hide NandShape, BlocksOk, LineCountersOk, NextPpa, Index, ListsOk, LineOf, MapOf, Geo.PgsPerBlk, Geo.PgsPerLine,
         MaptblOk, ValidPpa;
    var w, g := WpOf(s, io), s.nand.geo;
    assert ValidPpa(g, PpaOf(w));
    NextPpaRaisesIndex(g, PpaOf(w));
    IndexBound(g, PpaOf(w));
    assert w.blk < g.blks by { InGeo(g, PpaOf(w)); }
    if NextPpa(g, PpaOf(w)).1 { AdvanceRefinesAtEnd(s, io, pos, out); }
  }

  lemma InGeo(g: Geo, p: Ppa)
    requires ValidPpa(g, p)
    ensures p.blk < g.blks
  {}

  lemma AdvanceRefinesAtEnd(s: Snap, io: Io, pos: seq<nat>, out: set<nat>)
    requires Ok(s, out) && CanAdvance(s, io) && WpOf(s, io).blk !in out
    requires NextPpa(s.nand.geo, PpaOf(WpOf(s, io))).1 && InRange(View(s), Wp(View(s), io))
    ensures View(AfterAdvance(s, io, pos)) == Advance(View(s), io)
  {
    hide NandShape, BlocksOk, NextPpa, Index, ListsOk, Vpc, Ipc, LineOf, MapOf, Geo.PgsPerBlk, Geo.PgsPerLine, MaptblOk,
         ValidPpa;
    var w, g := WpOf(s, io), s.nand.geo;
    InGeo(g, PpaOf(w));
    NextPpaRaisesIndex(g, PpaOf(w));
    FirstIndex(g, s.freeList[0]);
    assert LineCounted(s.nand, w.curline, s.vpc[w.curline], s.ipc[w.curline]);
  }

  // A whole page program

  /** After the page is put: everything advance_write_pointer relies on, and what is reached so far. */
  lemma AfterPutReady(s: Snap, io: Io, lpn: nat, d: int, out: set<nat>, cnt: set<nat>)
    requires Ok(s, cnt) && InPlace(View(s), out) && lpn < |s.maptbl| && cnt <= out && LineLeft(View(s), io)
    ensures CanPut(s, PpaOf(WpOf(s, io)), lpn)
    ensures var t := AfterPut(s, PpaOf(WpOf(s, io)), lpn, d);
            && Ok(t, cnt) && CanAdvance(t, io) && WpOf(t, io).blk !in cnt
            && InRange(View(s), Wp(View(s), io)) && lpn < |View(s).l2p|
            && View(t) == Put(View(s), io, lpn, d)
  {
    hide NandShape, BlocksOk, LineCountersOk, InPlace, InPlaceAfterPut, ListsOk, CanAdvance, MaptblOk, CanPut, Index,
         LinesOf, NandPut, MapOf, GcOrder, Geo.PgsPerLine, Geo.PgsPerBlk, Geo.TtPgs, ValidPpa;
    var p := PpaOf(WpOf(s, io));
    PutReady(s, io, lpn, out, cnt);
    PutKeepsOk(s, p, lpn, d, cnt);
    PutRefines(s, io, lpn, d, cnt);
    PutLines(View(s), out, io, lpn, d);
    AdvanceReady(AfterPut(s, p, lpn, d), io, out, cnt);
  }

  lemma AfterAdvanceDone(s: Snap, t: Snap, io: Io, lpn: nat, d: int, pos: seq<nat>, cnt: set<nat>)
    requires Ok(s, cnt) && Ok(t, cnt) && CanAdvance(t, io) && WpOf(t, io).blk !in cnt
    requires InRange(View(s), Wp(View(s), io)) && lpn < |View(s).l2p| && View(t) == Put(View(s), io, lpn, d)
    requires NextPpa(t.nand.geo, PpaOf(WpOf(t, io))).1 ==> Placed(t.pos, pos, AfterAdvance(t, io, pos).heap)
    ensures var u := AfterAdvance(t, io, pos); Ok(u, cnt) && Programmed(View(s), io, lpn, d, View(u))
  {
    AdvanceKeepsOk(t, io, pos, cnt);
    AdvanceRefines(t, io, pos, cnt);
    hide NandShape, BlocksOk, LineCountersOk, ListsOk, CanAdvance, MaptblOk, AfterAdvance, Advance, Put, NextPpa;
  }

  // The overwrite path of conv_write

  /** set_rmap_ent(INVALID_LPN) */
  ghost function WithoutOwner(s: Snap, p: Ppa): Snap
    requires PgIdx(s.nand.geo, p) < |s.nand.rmap|
  {
    s.(nand := s.nand.(rmap := s.nand.rmap[PgIdx(s.nand.geo, p) := INVALID_LPN]))
  }

  lemma RmapOfDeadPage(s: Snap, p: Ppa)
    requires Ok(s, {}) && ValidPpa(s.nand.geo, p) && s.nand.status[p] != PgValid
    ensures PgIdx(s.nand.geo, p) < |s.nand.rmap|
    ensures Ok(WithoutOwner(s, p), {}) && View(WithoutOwner(s, p)) == View(s)
  {
    hide BlocksOk, LineCountersOk, LinesOf, MapOf, GcOrder, Index, PgIdx, Geo.PgsPerLine, Geo.PgsPerBlk, Geo.TtPgs,
         ValidPpa, MaptblOk, WpOk;
    var n := s.nand;
    RmapChange(n, p, INVALID_LPN, n.data[p]);
    var m := WithoutOwner(s, p).nand;
    assert m == n.(rmap := n.rmap[PgIdx(n.geo, p) := INVALID_LPN], data := n.data[p := n.data[p]]);
    SameLinesSameCounts(n, m, s.vpc, s.ipc, {});
    SameStatusSameBlocks(n, m, s.blocks);
  }

  /** A mapped page is valid, so it can be invalidated. */
  lemma MappedPage(s: Snap, lpn: nat)
    requires Ok(s, {}) && Core(View(s), {}, {}) && lpn < |s.maptbl| && s.maptbl[lpn].Some?
    ensures var p := s.maptbl[lpn].value;
            && ValidPpa(s.nand.geo, p) && p in s.nand.status && CanInvalidate(s, p)
            && View(s).l2p[lpn] == Some(LocOf(s.nand.geo, p))
  {
    var p := s.maptbl[lpn].value;
    assert View(s).l2p[lpn] == Some(LocOf(s.nand.geo, p));
    StatusChange(s.nand, p, PgInvalid);
    assert At(View(s), LocOf(s.nand.geo, p)) == PageIn(s.nand, p);
    hide Core, LinesOf, LineOf, BlocksOk, LineCountersOk, ListsOk;
    InvalidReady(s, p);
  }

  /** After the old page is invalidated and its owner cleared, the new page can be programmed. */
  lemma OverwriteReady(s: Snap, lpn: nat, pos: seq<nat>)
    requires Ok(s, {}) && Core(View(s), {}, {}) && lpn < |s.maptbl| && s.maptbl[lpn].Some?
    requires Room(View(s)) >= View(s).cfg.L + 2 && CanInvalidate(s, s.maptbl[lpn].value)
    requires Placed(s.pos, pos, AfterInvalid(s, s.maptbl[lpn].value, pos).heap)
    ensures var p := s.maptbl[lpn].value;
            && View(s).l2p[lpn] == Some(LocOf(s.nand.geo, p)) && PgIdx(s.nand.geo, p) < |s.nand.rmap|
            && var t := WithoutOwner(AfterInvalid(s, p, pos), p);
            && Ok(t, {}) && Invalidated(View(s), LocOf(s.nand.geo, p), View(t))
            && InPlace(View(t), {}) && LineLeft(View(t), UserIo)
  {
    var p := s.maptbl[lpn].value;
    var t := AfterInvalid(s, p, pos);
    MappedPage(s, lpn);
    assert NoDup(View(s).full);
    var loc := LocOf(s.nand.geo, p);
    InvalidKeepsOk(s, p, pos);
    InvalidRefines(s, p, pos);
    RmapOfDeadPage(t, p);
    assert InRange(View(s), loc) && At(View(s), loc).Live?;
    InvalidateOwned(View(s), loc);
    InvalidateLines(View(s), loc);
    hide NandShape, BlocksOk, LineCountersOk, ListsOk, LinesOf, Core, Owned, LinesOk, Index, View, PgIdx;
    FundedHasFreeLine(View(t), UserIo);
  }

  lemma FirstWriteReady(s: Snap, lpn: nat)
    requires Ok(s, {}) && Core(View(s), {}, {}) && Room(View(s)) >= View(s).cfg.L + 2
    ensures InPlace(View(s), {}) && LineLeft(View(s), UserIo)
    ensures |View(s).l2p| == |s.maptbl| && (lpn < |s.maptbl| ==> (s.maptbl[lpn].None? <==> View(s).l2p[lpn].None?))
  {
    FundedHasFreeLine(View(s), UserIo);
  }

  /** The pieces of the conv_write loop make up one UserWrite. */
  lemma UserWriteMadeUp(f: Flash, i: Flash, lpn: nat, d: int, t: Flash)
    requires Core(f, {}, {}) && lpn < |f.l2p| && Programmed(i, UserIo, lpn, d, t)
    requires if f.l2p[lpn].Some? then Invalidated(f, f.l2p[lpn].value, i) else i == f
    ensures UserWrote(f, lpn, d, t)
  {}

  function FreshStatus(g: Geo): (m: map<Ppa, Status>)
    ensures forall p :: p in m <==> ValidPpa(g, p)
    ensures forall p :: p in m ==> m[p] == PgFree
  {
    map ch, lun, blk, pg | 0 <= ch < g.nchs && 0 <= lun < g.luns && 0 <= blk < g.blks && 0 <= pg < g.PgsPerBlk()
      :: Ppa(ch, lun, blk, pg) := PgFree
  }

  function FreshData(g: Geo): (m: map<Ppa, int>)
    ensures forall p :: p in m <==> ValidPpa(g, p)
  {
    map ch, lun, blk, pg | 0 <= ch < g.nchs && 0 <= lun < g.luns && 0 <= blk < g.blks && 0 <= pg < g.PgsPerBlk()
      :: Ppa(ch, lun, blk, pg) := 0
  }

  function FreshBlocks(g: Geo): (m: map<BlkAddr, NandBlock>)
    ensures forall b :: ValidBlk(g, b) ==> b in m && m[b] == NandBlock(0, 0, 0)
  {
    map ch, lun, blk | 0 <= ch < g.nchs && 0 <= lun < g.luns && 0 <= blk < g.blks
      :: BlkAddr(ch, lun, blk) := NandBlock(0, 0, 0)
  }

  ghost predicate FreshNand(n: Nand, blocks: map<BlkAddr, NandBlock>) {
    && NandShape(n)
    && (forall p :: p in n.status ==> n.status[p] == PgFree)
    && (forall b :: ValidBlk(n.geo, b) ==> b in blocks && blocks[b] == NandBlock(0, 0, 0))
  }

  ghost predicate FreshLists(s: Snap) {
    && s.nand.geo.blks >= 2
    && |s.maptbl| == s.nand.geo.TtPgs() && (forall l :: 0 <= l < |s.maptbl| ==> s.maptbl[l].None?)
    && |s.vpc| == |s.ipc| == |s.pos| == s.nand.geo.blks
    && (forall l :: 0 <= l < s.nand.geo.blks ==> s.vpc[l] == 0 && s.ipc[l] == 0 && s.pos[l] == 0)
    && s.heap == {} && s.fullList == [] && s.freeList == LinesFromTwo(s.nand.geo.blks)
    && s.freeLineCnt == |s.freeList| && s.fullLineCnt == 0 && s.victimLineCnt == 0
    && s.wp == WritePointer(0, 0, 0, 0, 0) && s.gcWp == WritePointer(1, 0, 0, 0, 1)
  }

  lemma FreshOk(s: Snap)
    requires FreshNand(s.nand, s.blocks) && FreshLists(s)
    ensures Ok(s, {})
  {
    FreshLines(s.nand);
    FreshCounters(s.nand);
    FirstIndex(s.nand.geo, 0);
    FirstIndex(s.nand.geo, 1);
    hide LineCounted, BlkCounted, ValidBlk, NandShape, Geo.PgsPerLine, Geo.TtPgs;
  }

  /** conv_init_ftl on the fields is Init on the line machine. */
  lemma Fresh(s: Snap)
    requires FreshNand(s.nand, s.blocks) && FreshLists(s)
    ensures Ok(s, {}) && InitFlash(View(s)) && View(s).cfg.L == s.nand.geo.PgsPerLine()
  {
    var g := s.nand.geo;
    FreshOk(s);
    hide Geo.PgsPerLine, Geo.TtPgs, BlocksOk, LineCountersOk, ListsOk;
    Positive(g);
    FreshLines(s.nand);
    FirstIndex(g, 0);
    FirstIndex(g, 1);
    hide LinesOf, Index, NandShape;
  }

  lemma FreshLines(n: Nand)
    requires NandShape(n) && forall p :: p in n.status ==> n.status[p] == PgFree
    ensures LinesOf(n) == seq(n.geo.blks, i => seq(n.geo.PgsPerLine(), j => Free))
    ensures forall l: nat :: l < n.geo.blks ==> LineCounted(n, l, 0, 0)
  {
    var g := n.geo;
    forall l: nat | l < g.blks ensures LineOf(n, l) == seq(g.PgsPerLine(), j => Free) {
      forall i: nat | i < g.PgsPerLine() ensures LineOf(n, l)[i] == Free { IndexOfPpaAt(g, l, i); }
    }
    hide LineOf, NandShape;
    forall l: nat | l < g.blks ensures LineCounted(n, l, 0, 0) {
      CountNone(Statuses(LineOf(n, l)), PgValid);
      CountNone(Statuses(LineOf(n, l)), PgInvalid);
    }
  }

  lemma FreshCounters(n: Nand)
    requires NandShape(n) && forall p :: p in n.status ==> n.status[p] == PgFree
    ensures forall b :: ValidBlk(n.geo, b) ==> BlkCounted(n, b, NandBlock(0, 0, 0))
  {
    forall b | ValidBlk(n.geo, b) ensures BlkCounted(n, b, NandBlock(0, 0, 0)) {
      CountNone(BlkStatuses(n, b), PgValid);
      CountNone(BlkStatuses(n, b), PgInvalid);
    }
  }

  lemma FirstIndex(g: Geo, line: nat)
    requires g.Valid() && line < g.blks
    ensures ValidPpa(g, Ppa(0, 0, line, 0)) && Index(g, Ppa(0, 0, line, 0)) == 0
  {
    Positive(g);
    JoinSplit(0, 1, g.Oneshot());
  }
}
