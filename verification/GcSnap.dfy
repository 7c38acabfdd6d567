/** do_gc on the fields of struct conv_ftl: how far a cleaning has come, page by page and block by block. */
module GcSnap {
  import opened Basics
  import opened Geometry
  import opened LogMachine
  import opened FtlInvariant
  import opened FtlGc
  import opened FtlSnap
  import opened GcVisit
  import PQ = PriorityQueues

  /** The state when the victim v has been taken out of the heap and nothing is copied yet. */
  ghost predicate GcFrom(s0: Snap, v: nat) {
    && Ok(s0, {}) && v < s0.nand.geo.blks
    && Core(View(s0), {v}, {}) && NoFree(LineOf(s0.nand, v)) && Vpc(LineOf(s0.nand, v)) < View(s0).cfg.L
    && Room(View(s0)) >= 2 * View(s0).cfg.L + 1
  }

  ghost function Restored(f: Flash, v: nat, line: seq<Page>): Flash
    requires v < |f.lines|
  {
    f.(lines := f.lines[v := line])
  }

  /** The victim's pages read as they did at the start, except in blocks already erased. */
  ghost predicate VictimPages(n0: Nand, n: Nand, v: nat, erased: set<BlkAddr>)
    requires NandShape(n0) && NandShape(n) && n.geo == n0.geo
  {
    forall p :: ValidPpa(n.geo, p) && p.blk == v ==>
      PageIn(n, p) == if BlkOf(p) in erased then Free else PageIn(n0, p)
  }

  /** The first k pages in cleaning order are dealt with and the blocks in `erased` are erased. */
  ghost predicate GcReached(s0: Snap, cur: Snap, v: nat, k: nat, erased: set<BlkAddr>) {
    && NandShape(s0.nand) && Ok(cur, {v})
    && cur.nand.geo == s0.nand.geo && |cur.maptbl| == |s0.maptbl|
    && v < s0.nand.geo.blks && k <= s0.nand.geo.PgsPerLine()
    && Restored(View(cur), v, LineOf(s0.nand, v)) == CopyPages(View(s0), v, GcOrder(s0.nand.geo)[..k])
    && VictimPages(s0.nand, cur.nand, v, erased)
  }

  // ---- Facts about the line machine at a prefix of the order ----

  lemma {:induction false} LiveAmongGrows(line: seq<Page>, order: seq<nat>, k: nat)
    requires k <= |order|
    ensures LiveAmong(line, order[..k]) <= LiveAmong(line, order)
  {
    if k == |order| {
      assert order[..k] == order;
    } else {
      assert order[..|order| - 1][..k] == order[..k];
      LiveAmongGrows(line, order[..|order| - 1], k);
    }
  }

  /** Fewer pages to copy than a line has. */
  lemma LiveAmongBound(f: Flash, v: nat, k: nat)
    requires v < |f.lines| && |f.lines[v]| == f.cfg.L && Vpc(f.lines[v]) < f.cfg.L && OrderOk(f.cfg) && k <= |f.cfg.order|
    ensures LiveAmong(f.lines[v], f.cfg.order[..k]) < f.cfg.L
  {
    LiveAmongGrows(f.lines[v], f.cfg.order, k);
    LiveAmongIsVpc(f.cfg, f.lines[v]);
  }

  lemma PrefixKeeps(f: Flash, v: nat, k: nat)
    requires Core(f, {v}, {}) && v < |f.lines| && OrderOk(f.cfg) && k <= |f.cfg.order| == f.cfg.L
    requires Room(f) >= 2 * f.cfg.L + 1 && Vpc(f.lines[v]) < f.cfg.L
    ensures MidGc(f, CopyPages(f, v, f.cfg.order[..k]), v, f.cfg.order[..k])
    ensures Room(CopyPages(f, v, f.cfg.order[..k])) >= f.cfg.L + 2
  {
    var pre := f.cfg.order[..k];
    LiveAmongBound(f, v, k);
    RoomIsEnough(f, LiveAmong(f.lines[v], pre));
    assert forall x :: x in pre ==> x in f.cfg.order;
    CopyPagesKeeps(f, v, pre);
    hide Core, OnlyFreeWritten, MovedOffVictim, SameHostView;
  }

  lemma InPlaceIgnoresVictim(f: Flash, v: nat, line: seq<Page>)
    requires v < |f.lines| && |line| == |f.lines[v]| && InPlace(Restored(f, v, line), {v})
    ensures InPlace(f, {v}) && f.gc.line != v && InRange(f, f.gc) && v !in f.victims
  {
    var r := Restored(f, v, line);
    assert Places(r, {v}, f.gc.line) == 1 && Places(r, {v}, f.user.line) == 1 && Places(r, {v}, v) == 1;
    hide NoDup, OpenAt, AllFree, AllLive, NoFree;
    forall l | 0 <= l < |f.lines| ensures Places(f, {v}, l) == 1 { assert Places(r, {v}, l) == 1; }
    forall l | 0 <= l < |f.lines| && l != v ensures r.lines[l] == f.lines[l] {}
    forall l | 0 <= l < |f.lines| ensures |f.lines[l]| == f.cfg.L { assert |r.lines[l]| == f.cfg.L; }
    assert v !in f.free && v !in f.full && v !in f.victims;
  }

  lemma ProgramCommutes(f: Flash, t: Flash, v: nat, line: seq<Page>, lpn: nat, d: int)
    requires v < |f.lines| && |line| == |f.lines[v]| && f.gc.line != v && Programmed(f, GcIo, lpn, d, t)
    ensures v < |t.lines| && t.lines[v] == f.lines[v]
    ensures Programmed(Restored(f, v, line), GcIo, lpn, d, Restored(t, v, line))
  {
    hide Vpc;
    var r, p := Restored(f, v, line), Put(f, GcIo, lpn, d);
    assert Put(r, GcIo, lpn, d) == Restored(p, v, line);
    assert Close(Restored(p, v, line), f.gc.line) == Restored(Close(p, f.gc.line), v, line);
  }

  // ---- One page ----

  /** At any point of the cleaning a page can be programmed at the GC write pointer. */
  lemma GcCanProgram(s0: Snap, cur: Snap, v: nat, k: nat, erased: set<BlkAddr>)
    requires GcFrom(s0, v) && GcReached(s0, cur, v, k, erased)
    ensures InPlace(View(cur), {v}) && LineLeft(View(cur), GcIo) && View(cur).gc.line != v && v !in cur.heap
    ensures InRange(View(cur), View(cur).gc) && |View(cur).lines| == |View(s0).lines| && View(cur).cfg == View(s0).cfg
  {
    hide Core, GcOrder, LineOf, CopyPages, BlocksOk, LineCountersOk, ListsOk, VictimPages, InPlace, OrderOk, Room,
         OnlyFreeWritten, MovedOffVictim, SameHostView, Copied, NandShape, LinesOf, Index, MapOf;
    var g, f := s0.nand.geo, View(s0);
    GcOrderOk(g);
    PrefixKeeps(f, v, k);
    var c := CopyPages(f, v, f.cfg.order[..k]);
    CoreInPlace(c, {v}, Copied(f, v, f.cfg.order[..k]));
    InPlaceIgnoresVictim(View(cur), v, LineOf(s0.nand, v));
    InPlaceShape(c, {v});
    FundedHasFreeLine(c, GcIo);
  }

  lemma InPlaceShape(f: Flash, out: set<nat>)
    requires InPlace(f, out)
    ensures Shape(f)
  {}

  /** A valid page of the victim has an owner below the table size. */
  lemma GcOwner(s0: Snap, cur: Snap, v: nat, k: nat, erased: set<BlkAddr>, p: Ppa)
    requires GcFrom(s0, v) && GcReached(s0, cur, v, k, erased)
    requires ValidPpa(cur.nand.geo, p) && p.blk == v && BlkOf(p) !in erased
    ensures p in cur.nand.status && PgIdx(cur.nand.geo, p) < |cur.nand.rmap|
    ensures cur.nand.status[p] != PgFree
    ensures cur.nand.status[p] == PgValid ==> cur.nand.rmap[PgIdx(cur.nand.geo, p)] < |cur.maptbl|
  {
    hide Core, GcOrder, LineOf, CopyPages, BlocksOk, LineCountersOk, ListsOk, MaptblOk, WpOk, Index, PgIdx, MapOf,
         Restored, Room, Geo.PgsPerLine, Geo.PgsPerBlk, Geo.TtPgs;
    var g, f := s0.nand.geo, View(s0);
    PgIdxBound(g, p);
    assert PageIn(cur.nand, p) == PageIn(s0.nand, p);
    hide VictimPages, GcReached;
    PageAtIndex(s0.nand, p);
    assert f.lines[v] == LineOf(s0.nand, v);
    if cur.nand.status[p] == PgValid { OwnerOf(f, {v}, LocOf(g, p)); TableSize(s0); }
  }

  lemma OwnerOf(f: Flash, out: set<nat>, loc: Loc)
    requires Core(f, out, {}) && loc.line < |f.lines| && loc.idx < |f.lines[loc.line]| && At(f, loc).Live?
    ensures At(f, loc).lpn < |f.l2p|
  {}

  lemma CoreInPlace(f: Flash, out: set<nat>, done: set<Loc>)
    requires Core(f, out, done)
    ensures InPlace(f, out)
  {}

  lemma PageAtIndex(n: Nand, p: Ppa)
    requires NandShape(n) && ValidPpa(n.geo, p)
    ensures Index(n.geo, p) < n.geo.PgsPerLine() && LineOf(n, p.blk)[Index(n.geo, p)] == PageIn(n, p)
  {
    IndexBound(n.geo, p);
    SlotOf(n, p.blk, Index(n.geo, p), p);
  }

  lemma SameLineSamePages(n: Nand, m: Nand, v: nat)
    requires NandShape(n) && NandShape(m) && n.geo == m.geo && v < n.geo.blks && LineOf(m, v) == LineOf(n, v)
    ensures forall p :: ValidPpa(n.geo, p) && p.blk == v ==> PageIn(m, p) == PageIn(n, p)
  {
    hide PageIn, LineOf, Index, NandShape;
    forall p | ValidPpa(n.geo, p) && p.blk == v ensures PageIn(m, p) == PageIn(n, p) {
      PageAtIndex(n, p);
      PageAtIndex(m, p);
    }
  }

  lemma NextPrefix(g: Geo, v: nat, k: nat)
    requires g.Valid() && v < g.blks && k < g.PgsPerLine()
    ensures GcOrder(g)[..k + 1] == GcOrder(g)[..k] + [GcOrder(g)[k]]
    ensures GcOrder(g)[k] == Index(g, GcPpa(g, v, k)) && ValidPpa(g, GcPpa(g, v, k)) && GcPpa(g, v, k).blk == v
    ensures GcOrder(g)[k] < g.PgsPerLine()
  {
    GcPpaAt(g, v, k);
    hide GcPpa, Geo.PgsPerLine, Geo.PgsPerBlk;
    IndexIgnoresLine(g, GcPpa(g, 0, k), v);
    IndexBound(g, GcPpa(g, v, k));
  }

  lemma CopyNext(f: Flash, v: nat, order: seq<nat>, k: nat)
    requires k < |order|
    ensures CopyPages(f, v, order[..k + 1]) == CopyPage(CopyPages(f, v, order[..k]), v, order[k])
  {
    assert order[..k + 1][..k] == order[..k];
    hide CopyPage;
  }

  /** Copying the k-th page brings the cleaning to k + 1. */
  lemma GcStepDone(s0: Snap, cur: Snap, next: Snap, v: nat, k: nat, erased: set<BlkAddr>, p: Ppa)
    requires GcFrom(s0, v) && GcReached(s0, cur, v, k, erased)
    requires k < s0.nand.geo.PgsPerLine() && p == GcPpa(s0.nand.geo, v, k) && BlkOf(p) !in erased
    requires ValidPpa(cur.nand.geo, p) && cur.nand.status[p] == PgValid && PgIdx(cur.nand.geo, p) < |cur.nand.rmap|
    requires Ok(next, {v}) && next.nand.geo == cur.nand.geo && |next.maptbl| == |cur.maptbl|
    requires Programmed(View(cur), GcIo, cur.nand.rmap[PgIdx(cur.nand.geo, p)], cur.nand.data[p], View(next))
    ensures GcReached(s0, next, v, k + 1, erased)
  {
    hide Core, GcOrder, GcPpa, BlocksOk, LineCountersOk, ListsOk, InPlace, Room, Index, MapOf, PgIdx, Program,
         LineLeft, WpOk, MaptblOk, Invalidate, CopyPages, LinesOf, CopyPage, Restored, Programmed;
    assert s0.nand.geo.Valid() && p in cur.nand.data;
    hide NandShape;
    var g, f, line := s0.nand.geo, View(s0), LineOf(s0.nand, v);
    var lpn, d := cur.nand.rmap[PgIdx(g, p)], cur.nand.data[p];
    NextPrefix(g, v, k);
    CopyNext(f, v, GcOrder(g), k);
    GcCanProgram(s0, cur, v, k, erased);
    assert PageIn(cur.nand, p) == Live(lpn, d);
    assert PageIn(s0.nand, p) == Live(lpn, d);
    PageAtIndex(s0.nand, p);
    hide VictimPages, PageIn, LineOf;
    assert LinesOf(cur.nand)[v] == LineOf(cur.nand, v) && LinesOf(next.nand)[v] == LineOf(next.nand, v);
    CopyInRestored(View(cur), View(next), v, line, GcOrder(g)[k], lpn, d);
    SameVictim(s0, cur, next, v, erased);
  }

  lemma CopyInRestored(f: Flash, t: Flash, v: nat, line: seq<Page>, i: nat, lpn: nat, d: int)
    requires v < |f.lines| && |line| == |f.lines[v]| && f.gc.line != v && InRange(f, f.gc)
    requires Programmed(f, GcIo, lpn, d, t) && i < |line| && line[i] == Live(lpn, d)
    ensures v < |t.lines| && t.lines[v] == f.lines[v]
    ensures CopyPage(Restored(f, v, line), v, i) == Restored(t, v, line)
  {
    ProgramCommutes(f, t, v, line, lpn, d);
    hide Program;
  }

  lemma SameVictim(s0: Snap, cur: Snap, next: Snap, v: nat, erased: set<BlkAddr>)
    requires NandShape(s0.nand) && NandShape(cur.nand) && NandShape(next.nand)
    requires s0.nand.geo == cur.nand.geo == next.nand.geo && v < s0.nand.geo.blks
    requires VictimPages(s0.nand, cur.nand, v, erased) && LineOf(next.nand, v) == LineOf(cur.nand, v)
    ensures VictimPages(s0.nand, next.nand, v, erased)
  {
    SameLineSamePages(cur.nand, next.nand, v);
    hide NandShape, LineOf, PageIn;
  }

  /** A page that is not valid is passed over. */
  lemma GcStepSkip(s0: Snap, cur: Snap, v: nat, k: nat, erased: set<BlkAddr>, p: Ppa)
    requires GcFrom(s0, v) && GcReached(s0, cur, v, k, erased)
    requires k < s0.nand.geo.PgsPerLine() && p == GcPpa(s0.nand.geo, v, k) && BlkOf(p) !in erased
    requires ValidPpa(cur.nand.geo, p) && p in cur.nand.status && cur.nand.status[p] != PgValid
    ensures GcReached(s0, cur, v, k + 1, erased)
  {
    hide Core, GcOrder, GcPpa, BlocksOk, LineCountersOk, ListsOk, InPlace, Room, NandShape, Index, MapOf, PgIdx, Program,
         LineLeft, WpOk, MaptblOk, Invalidate, CopyPages, CopyPage, Vpc, NoFree, LinesOf, Restored, GcFrom;
    var g, f, line := s0.nand.geo, View(s0), LineOf(s0.nand, v);
    NextPrefix(g, v, k);
    CopyNext(f, v, GcOrder(g), k);
    assert !PageIn(cur.nand, p).Live?;
    PageAtIndex(s0.nand, p);
    SkipInRestored(View(cur), v, line, GcOrder(g)[k]);
  }

  lemma SkipInRestored(f: Flash, v: nat, line: seq<Page>, i: nat)
    requires v < |f.lines| && i < |line| && !line[i].Live?
    ensures CopyPage(Restored(f, v, line), v, i) == Restored(f, v, line)
  {}

  // ---- mark_block_free ----

  ghost function StatusErased(status: map<Ppa, Status>, b: BlkAddr): map<Ppa, Status> {
    map q | q in status :: if BlkOf(q) == b then PgFree else status[q]
  }

  ghost function AfterErase(s: Snap, b: BlkAddr): Snap
    requires b in s.blocks
  {
    s.(nand := s.nand.(status := StatusErased(s.nand.status, b)),
       blocks := s.blocks[b := NandBlock(0, 0, s.blocks[b].eraseCnt + 1)])
  }

  lemma LinesElsewhere(n: Nand, m: Nand, v: nat)
    requires NandShape(n) && NandShape(m) && n.geo == m.geo && v < n.geo.blks
    requires forall p :: ValidPpa(n.geo, p) && p.blk != v ==> PageIn(m, p) == PageIn(n, p)
    ensures forall l: nat :: l < n.geo.blks && l != v ==> LineOf(m, l) == LineOf(n, l)
    ensures LinesOf(m) == LinesOf(n)[v := LineOf(m, v)]
  {
    assert n.geo.Valid();
    hide PageIn, Index, PpaAt, Geo.PgsPerLine, Geo.PgsPerBlk, Geo.TtPgs, NandShape, ValidPpa;
    forall l: nat | l < n.geo.blks && l != v ensures LineOf(m, l) == LineOf(n, l) {
      forall i: nat | i < n.geo.PgsPerLine() ensures LineOf(m, l)[i] == LineOf(n, l)[i] { IndexOfPpaAt(n.geo, l, i); }
    }
  }

  lemma NandErased(n: Nand, b: BlkAddr)
    requires NandShape(n) && ValidBlk(n.geo, b)
    ensures var m := n.(status := StatusErased(n.status, b));
            && NandShape(m)
            && (forall p :: ValidPpa(n.geo, p) ==> PageIn(m, p) == if BlkOf(p) == b then Free else PageIn(n, p))
            && BlkCounted(m, b, NandBlock(0, 0, 0))
            && forall c :: ValidBlk(n.geo, c) && c != b ==> BlkStatuses(m, c) == BlkStatuses(n, c)
  {
    var m := n.(status := StatusErased(n.status, b));
    assert NandShape(m);
    CountNone(BlkStatuses(m, b), PgValid);
    CountNone(BlkStatuses(m, b), PgInvalid);
    forall c | ValidBlk(n.geo, c) && c != b ensures BlkStatuses(m, c) == BlkStatuses(n, c) {}
  }

  lemma EraseKeepsOk(s: Snap, b: BlkAddr)
    requires Ok(s, {b.blk}) && ValidBlk(s.nand.geo, b)
    ensures b in s.blocks && Ok(AfterErase(s, b), {b.blk})
    ensures LinesOf(AfterErase(s, b).nand) == LinesOf(s.nand)[b.blk := LineOf(AfterErase(s, b).nand, b.blk)]
  {
    hide StatusErased, NandShape, LineOf, BlkStatuses, Vpc, Ipc, PageIn, LinesOf, MaptblOk, WpOk;
    var n, t := s.nand, AfterErase(s, b);
    NandErased(n, b);
    LinesElsewhere(n, t.nand, b.blk);
  }

  /** Erasing a block of the victim leaves the rest of the cleaning where it is. */
  lemma EraseStep(s0: Snap, cur: Snap, v: nat, k: nat, erased: set<BlkAddr>, b: BlkAddr)
    requires GcReached(s0, cur, v, k, erased) && ValidBlk(s0.nand.geo, b) && b.blk == v
    ensures b in cur.blocks && GcReached(s0, AfterErase(cur, b), v, k, erased + {b})
  {
    hide StatusErased, NandShape, LineOf, BlkStatuses, PageIn, LinesOf, CopyPages, GcOrder, Index, MapOf, MaptblOk,
         BlocksOk, LineCountersOk, ListsOk;
    NandErased(cur.nand, b);
    EraseKeepsOk(cur, b);
  }

  // ---- mark_line_free ----

  ghost function AfterLineFree(s: Snap, v: nat): Snap
    requires v < |s.vpc| && v < |s.ipc|
  {
    s.(vpc := s.vpc[v := 0], ipc := s.ipc[v := 0], freeList := s.freeList + [v], freeLineCnt := s.freeLineCnt + 1)
  }

  lemma AllErased(s0: Snap, cur: Snap, v: nat, k: nat, erased: set<BlkAddr>)
    requires GcReached(s0, cur, v, k, erased)
    requires forall b :: ValidBlk(s0.nand.geo, b) && b.blk == v ==> b in erased
    ensures LineOf(cur.nand, v) == seq(s0.nand.geo.PgsPerLine(), j => Free) && LineCounted(cur.nand, v, 0, 0)
  {
    hide CopyPages, View, BlocksOk, LineCountersOk, ListsOk, MaptblOk, WpOk, PageIn, Index, PpaAt, NandShape, Restored;
    var n, g := cur.nand, cur.nand.geo;
    assert g.Valid() by { NandGeo(n); }
    forall i: nat | i < g.PgsPerLine() ensures LineOf(n, v)[i] == Free {
      IndexOfPpaAt(g, v, i);
      var p := PpaAt(g, v, i);
      assert ValidBlk(g, BlkOf(p));
    }
    hide GcReached, LineOf, VictimPages;
    CountNone(Statuses(LineOf(n, v)), PgValid);
    CountNone(Statuses(LineOf(n, v)), PgInvalid);
  }

  lemma NandGeo(n: Nand)
    requires NandShape(n)
    ensures n.geo.Valid()
  {}

  lemma LineFreeOk(cur: Snap, v: nat)
    requires Ok(cur, {v}) && v < cur.nand.geo.blks && LineCounted(cur.nand, v, 0, 0)
    ensures v < |cur.vpc| && v < |cur.ipc| && Ok(AfterLineFree(cur, v), {})
  {
    hide NandShape, LineCounted, BlocksOk, MaptblOk, WpOk;
  }

  /** With every page dealt with and every block erased, freeing the line completes do_gc. */
  lemma LineFreeRefines(s0: Snap, cur: Snap, v: nat, erased: set<BlkAddr>)
    requires GcReached(s0, cur, v, s0.nand.geo.PgsPerLine(), erased)
    requires forall b :: ValidBlk(s0.nand.geo, b) && b.blk == v ==> b in erased
    ensures v < |cur.vpc| && v < |cur.ipc|
    ensures var t := AfterLineFree(cur, v);
            && Ok(t, {}) && v < |CopyPages(View(s0), v, GcOrder(s0.nand.geo)).lines|
            && View(t) == Erase(CopyPages(View(s0), v, GcOrder(s0.nand.geo)), v)
  {
    hide NandShape, LineOf, PageIn, LineCounted, BlocksOk, CopyPages, GcOrder, Index, MapOf, VictimPages, MaptblOk,
         Geo.PgsPerLine, LineCountersOk, ListsOk, WpOk;
    var g := s0.nand.geo;
    NandGeo(s0.nand);
    AllErased(s0, cur, v, g.PgsPerLine(), erased);
    LineFreeOk(cur, v);
    assert GcOrder(g)[..g.PgsPerLine()] == GcOrder(g);
  }

  // ---- The loops of do_gc ----

  /** The position in cleaning order at which flash page fp of die (ch, lun) starts. */
  function Column(g: Geo, fp: nat, ch: nat, lun: nat): nat {
    Join(Join(Join(fp, g.nchs, ch), g.luns, lun), g.flash, 0)
  }

  lemma ColumnPage(g: Geo, v: nat, fp: nat, ch: nat, lun: nat, j: nat)
    requires g.Valid() && v < g.blks && fp < g.FlashpgsPerBlk() && ch < g.nchs && lun < g.luns && j < g.flash
    ensures Column(g, fp, ch, lun) + j < g.PgsPerLine()
    ensures GcPpa(g, v, Column(g, fp, ch, lun) + j) == Ppa(ch, lun, v, Join(fp, g.flash, j))
    ensures ValidPpa(g, Ppa(ch, lun, v, Join(fp, g.flash, j)))
  {
    hide High, Low, Join, GcPpa, Geo.PgsPerLine, Geo.PgsPerBlk, Geo.FlashpgsPerBlk;
    var p := Ppa(ch, lun, v, Join(fp, g.flash, j));
    Lengths(g);
    JoinBound(fp, g.flash, j, g.FlashpgsPerBlk());
    SplitJoin(fp, g.flash, j);
    GcPosBound(g, p);
    JoinAdd(Join(Join(fp, g.nchs, ch), g.luns, lun), g.flash, j);
  }

  lemma JoinAdd(a: nat, n: nat, b: nat)
    ensures Join(a, n, 0) + b == Join(a, n, b)
  {}

  lemma JoinCarry(a: nat, n: nat)
    ensures Join(a, n, n) == Join(a + 1, n, 0)
  {
    assert (a + 1) * n == a * n + n;
  }

  /** Moving to the next die, the next channel, the next flash page; and the end of the line. */
  lemma ColumnSteps(g: Geo, fp: nat, ch: nat, lun: nat)
    requires g.Valid()
    ensures Column(g, fp, ch, lun) + g.flash == Column(g, fp, ch, lun + 1)
    ensures Column(g, fp, ch, g.luns) == Column(g, fp, ch + 1, 0)
    ensures Column(g, fp, g.nchs, 0) == Column(g, fp + 1, 0, 0)
    ensures Column(g, 0, 0, 0) == 0 && Column(g, g.FlashpgsPerBlk(), 0, 0) == g.PgsPerLine()
  {
    JoinCarry(Join(Join(fp, g.nchs, ch), g.luns, lun), g.flash);
    JoinCarry(Join(fp, g.nchs, ch), g.luns);
    JoinCarry(fp, g.nchs);
    Lengths(g);
  }

  /** The blocks of line v erased before die (ch, lun) of the last round. */
  ghost function ErasedBefore(g: Geo, v: nat, last: bool, ch: nat, lun: nat): set<BlkAddr> {
    set c, l | 0 <= c < g.nchs && 0 <= l < g.luns && last && (c < ch || (c == ch && l < lun)) :: BlkAddr(c, l, v)
  }

  lemma ErasedSteps(g: Geo, v: nat, ch: nat, lun: nat)
    requires g.Valid() && ch < g.nchs && lun < g.luns
    ensures ErasedBefore(g, v, true, ch, lun + 1) == ErasedBefore(g, v, true, ch, lun) + {BlkAddr(ch, lun, v)}
    ensures BlkAddr(ch, lun, v) !in ErasedBefore(g, v, true, ch, lun)
    ensures ErasedBefore(g, v, false, ch, lun) == {} == ErasedBefore(g, v, false, ch, lun + 1)
    ensures ErasedBefore(g, v, true, ch, g.luns) == ErasedBefore(g, v, true, ch + 1, 0)
    ensures ErasedBefore(g, v, true, 0, 0) == {}
  {}

  lemma NothingErased(g: Geo, v: nat)
    ensures forall ch: nat, lun: nat :: ErasedBefore(g, v, false, ch, lun) == {}
    ensures ErasedBefore(g, v, true, 0, 0) == {}
  {}

  lemma NextChannel(g: Geo, v: nat, last: bool, ch: nat)
    requires g.Valid()
    ensures ErasedBefore(g, v, last, ch, g.luns) == ErasedBefore(g, v, last, ch + 1, 0)
  {}

  lemma FlashpgsPositive(g: Geo)
    requires g.Valid()
    ensures g.FlashpgsPerBlk() >= 1
  {
    MulPositive(g.oneshotsPerBlk, g.flashPerOneshot);
  }

  /** The blocks of line v. */
  ghost function BlocksOf(g: Geo, v: nat): set<BlkAddr> {
    set c, l | 0 <= c < g.nchs && 0 <= l < g.luns :: BlkAddr(c, l, v)
  }

  lemma ErasedAreBlocks(g: Geo, v: nat)
    ensures ErasedBefore(g, v, true, g.nchs, 0) == BlocksOf(g, v)
  {}

  lemma AllBlocksErased(g: Geo, v: nat)
    ensures forall b :: ValidBlk(g, b) && b.blk == v ==> b in ErasedBefore(g, v, true, g.nchs, 0)
  {}

  ghost predicate PassedOver(g: Geo, cur: Snap, v: nat, x: nat, erased: set<BlkAddr>)
    requires g.Valid()
  {
    var p := GcPpa(g, v, x);
    ValidPpa(g, p) && BlkOf(p) !in erased && p in cur.nand.status && cur.nand.status[p] != PgValid
  }

  /** Several pages in a row without a valid one. */
  lemma {:induction false} GcSkipMany(s0: Snap, cur: Snap, v: nat, k: nat, n: nat, erased: set<BlkAddr>)
    requires GcFrom(s0, v) && GcReached(s0, cur, v, k, erased) && k + n <= s0.nand.geo.PgsPerLine()
    requires s0.nand.geo.Valid() && forall x: nat :: k <= x < k + n ==> PassedOver(s0.nand.geo, cur, v, x, erased)
    ensures GcReached(s0, cur, v, k + n, erased)
    decreases n
  {
    hide GcFrom, GcReached, GcPpa, ValidPpa;
    if n > 0 {
      assert PassedOver(s0.nand.geo, cur, v, k, erased);
      ReachedGeo(s0, cur, v, k, erased);
      GcStepSkip(s0, cur, v, k, erased, GcPpa(s0.nand.geo, v, k));
      GcSkipMany(s0, cur, v, k + 1, n - 1, erased);
    }
  }

  lemma ReachedGeo(s0: Snap, cur: Snap, v: nat, k: nat, erased: set<BlkAddr>)
    requires GcReached(s0, cur, v, k, erased)
    ensures cur.nand.geo == s0.nand.geo && s0.nand.geo.Valid() && NandShape(cur.nand) && Ok(cur, {v})
  {}

  /** The i-th page of the flash page being cleaned: in order, on the victim, not free. */
  lemma FlashPage(s0: Snap, cur: Snap, v: nat, fp: nat, ppa: Ppa, i: nat, erased: set<BlkAddr>)
    requires GcFrom(s0, v) && exists k: nat :: GcReached(s0, cur, v, k, erased)
    requires cur.nand.geo.Valid() && i < cur.nand.geo.flash
    requires fp < cur.nand.geo.FlashpgsPerBlk() && ppa.ch < cur.nand.geo.nchs && ppa.lun < cur.nand.geo.luns
    requires ppa.blk == v < cur.nand.geo.blks && ppa.pg == Join(fp, cur.nand.geo.flash, 0) && BlkOf(ppa) !in erased
    ensures var p := ppa.(pg := ppa.pg + i); var g := cur.nand.geo;
            && ValidPpa(g, p) && p in cur.nand.status && cur.nand.status[p] != PgFree && BlkOf(p) !in erased
            && p == GcPpa(g, v, Column(g, fp, ppa.ch, ppa.lun) + i)
            && Column(g, fp, ppa.ch, ppa.lun) + i < g.PgsPerLine() == s0.nand.geo.PgsPerLine() && s0.nand.geo == g
            && (cur.nand.status[p] != PgValid ==>
                  PassedOver(g, cur, v, Column(g, fp, ppa.ch, ppa.lun) + i, erased))
  {
    hide GcFrom, GcReached, GcPpa, ValidPpa, Join, Column, Geo.PgsPerBlk, Geo.PgsPerLine, Geo.FlashpgsPerBlk;
    var k: nat :| GcReached(s0, cur, v, k, erased);
    var g := cur.nand.geo;
    ReachedGeo(s0, cur, v, k, erased);
    ColumnPage(g, v, fp, ppa.ch, ppa.lun, i);
    JoinAdd(fp, g.flash, i);
    GcOwner(s0, cur, v, k, erased, ppa.(pg := ppa.pg + i));
  }

  // ---- select_victim_line ----

  ghost function AfterSelect(s: Snap, v: nat, pos: seq<nat>): Snap {
    s.(heap := s.heap - {v}, victimLineCnt := s.victimLineCnt - 1, pos := pos)
  }

  /** What popping v and clearing its position does to the positions. */
  ghost predicate PoppedFrom(s: Snap, v: nat, pos: seq<nat>) {
    v in s.heap && v < |s.pos| && Placed(s.pos[v := 0], pos, s.heap - {v})
  }

  lemma SelectedOk(s: Snap, v: nat, pos: seq<nat>)
    requires Ok(s, {}) && PoppedFrom(s, v, pos)
    ensures Ok(AfterSelect(s, v, pos), {}) && Ok(AfterSelect(s, v, pos), {v})
    ensures View(AfterSelect(s, v, pos)) == Select(View(s), v)
  {
    hide NandShape, LineCounted, BlocksOk, MaptblOk, WpOk;
  }

  lemma VictimHasNoFree(f: Flash, v: nat)
    requires Core(f, {}, {}) && v in f.victims
    ensures v < |f.lines| && NoFree(f.lines[v]) && Vpc(f.lines[v]) < f.cfg.L
  {
    VictimCounts(f, v);
  }

  /** The victim out of the heap: cleaning can start. */
  lemma CleaningStarts(s: Snap, v: nat, pos: seq<nat>)
    requires Ok(s, {}) && PoppedFrom(s, v, pos) && Core(View(s), {}, {}) && Room(View(s)) >= 2 * View(s).cfg.L + 1
    ensures var t := AfterSelect(s, v, pos);
            && GcFrom(t, v) && GcReached(t, t, v, 0, {}) && View(t) == Select(View(s), v)
  {
    assert v in s.heap;
    hide Core, NandShape, BlocksOk, LineCountersOk, ListsOk, MaptblOk, WpOk, NoFree, Vpc, PageIn, Room, GcReached,
         PoppedFrom, CopyPages, MapOf, LineOf;
    SelectedOk(s, v, pos);
    SelectKeeps(View(s), v);
    VictimHasNoFree(View(s), v);
    assert LinesOf(s.nand)[v] == LineOf(s.nand, v) && v < s.nand.geo.blks;
    hide LinesOf;
    NothingDoneYet(AfterSelect(s, v, pos), v);
  }

  lemma NothingDoneYet(t: Snap, v: nat)
    requires Ok(t, {v}) && v < t.nand.geo.blks
    ensures GcReached(t, t, v, 0, {})
  {
    hide NandShape, BlocksOk, LineCountersOk, ListsOk, MaptblOk, WpOk, PageIn, MapOf, LineOf, Index, GcOrder;
    assert LinesOf(t.nand)[v] == LineOf(t.nand, v);
  }

  lemma VictimsInRange(f: Flash)
    requires Core(f, {}, {})
    ensures forall l :: l in f.victims ==> l < |f.lines|
  {}

  /** The root of the heap is a victim with the fewest valid pages. */
  lemma RootIsBest(s: Snap, v: nat)
    requires Ok(s, {}) && Core(View(s), {}, {}) && PQ.Least(s.heap, s.vpc, v)
    ensures v < |s.vpc| == |s.ipc| && BestVictim(View(s), v)
    ensures s.vpc[v] == Vpc(View(s).lines[v]) && s.ipc[v] == Ipc(View(s).lines[v])
  {
    hide Core, NandShape, BlocksOk, ListsOk, MaptblOk, WpOk, LineOf, Vpc, Ipc, MapOf;
    VictimsInRange(View(s));
    forall l: nat | l in s.heap
      ensures l < |s.vpc| && s.vpc[l] == Vpc(View(s).lines[l]) && s.ipc[l] == Ipc(View(s).lines[l])
    {
      assert LineCounted(s.nand, l, s.vpc[l], s.ipc[l]);
    }
  }

  /** do_gc as one step of the line machine. */
  lemma CleaningDone(f: Flash, s0: Snap, v: nat, t: Snap)
    requires NandShape(s0.nand) && NandShape(t.nand) && View(s0) == Select(f, v)
    requires v < |CopyPages(View(s0), v, GcOrder(s0.nand.geo)).lines|
    requires View(t) == Erase(CopyPages(View(s0), v, GcOrder(s0.nand.geo)), v)
    ensures View(t) == Gc(f, v)
  {
    hide Erase, LinesOf, MapOf, NandShape, GcOrder;
    assert f.cfg == View(s0).cfg;
  }
}
