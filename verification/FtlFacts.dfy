/** What the invariants say about the tables, page states and line counters between two commands. */
module FtlFacts {
  import opened Basics
  import opened Geometry
  import opened LogMachine
  import opened FtlInvariant
  import opened FtlSnap
  import FtlRuns

  /** The logical page the reverse map records for p. */
  function Recorded(s: Snap, p: Ppa): nat
    requires ValidPpa(s.nand.geo, p) && s.nand.geo.Valid() && |s.nand.rmap| == s.nand.geo.TtPgs()
  {
    PgIdxBound(s.nand.geo, p);
    s.nand.rmap[PgIdx(s.nand.geo, p)]
  }

  /** The page at p seen as a log entry. */
  lemma PageAtLoc(s: Snap, p: Ppa)
    requires NandShape(s.nand) && ValidPpa(s.nand.geo, p)
    ensures InRange(View(s), LocOf(s.nand.geo, p)) && At(View(s), LocOf(s.nand.geo, p)) == PageIn(s.nand, p)
    ensures PageIn(s.nand, p) == PageOf(s.nand.status[p], Recorded(s, p), s.nand.data[p])
  {
    IndexBound(s.nand.geo, p);
    SlotOf(s.nand, p.blk, Index(s.nand.geo, p), p);
    hide Index;
  }

  /** Two pages at the same place of the logs are one page. */
  lemma LocInjective(g: Geo, p: Ppa, q: Ppa)
    requires g.Valid() && ValidPpa(g, p) && ValidPpa(g, q) && LocOf(g, p) == LocOf(g, q)
    ensures p == q
  {
    PpaAtIndex(g, p);
    PpaAtIndex(g, q);
  }

  /** Both directions of the mapping, in the logs. */
  lemma ForwardAt(f: Flash, l: nat)
    requires Core(f, {}, {}) && l < |f.l2p| && f.l2p[l].Some?
    ensures InRange(f, f.l2p[l].value) && At(f, f.l2p[l].value).Live? && At(f, f.l2p[l].value).lpn == l
  {}

  lemma BackwardAt(f: Flash, loc: Loc)
    requires Core(f, {}, {}) && InRange(f, loc) && At(f, loc).Live?
    ensures At(f, loc).lpn < |f.l2p| && f.l2p[At(f, loc).lpn] == Some(loc)
  {}

  /** A mapped logical page's page is valid and records it. */
  lemma MappedIsValid(s: Snap, l: nat)
    requires Ok(s, {}) && Core(View(s), {}, {}) && l < |s.maptbl| && s.maptbl[l].Some?
    ensures ValidPpa(s.nand.geo, s.maptbl[l].value) && s.nand.status[s.maptbl[l].value] == PgValid
    ensures Recorded(s, s.maptbl[l].value) == l
  {
    hide Core, View, LocOf, Recorded, PageIn, BlocksOk, LineCountersOk, ListsOk, WpOk;
    var p := s.maptbl[l].value;
    PageAtLoc(s, p);
    MapEntry(s, l);
    ForwardAt(View(s), l);
  }

  lemma MapEntry(s: Snap, l: nat)
    requires NandShape(s.nand) && l < |s.maptbl|
    ensures |View(s).l2p| == |s.maptbl|
    ensures View(s).l2p[l] == if s.maptbl[l].Some? then Some(LocOf(s.nand.geo, s.maptbl[l].value)) else None
  {
    hide LocOf, NandShape;
  }

  /** A valid page is the one its recorded logical page is mapped to. */
  lemma ValidIsMapped(s: Snap, p: Ppa)
    requires Ok(s, {}) && Core(View(s), {}, {}) && ValidPpa(s.nand.geo, p) && s.nand.status[p] == PgValid
    ensures Recorded(s, p) < |s.maptbl| && s.maptbl[Recorded(s, p)] == Some(p)
  {
    hide Core, View, LocOf, Recorded, PageIn, BlocksOk, LineCountersOk, ListsOk, WpOk;
    PageAtLoc(s, p);
    BackwardAt(View(s), LocOf(s.nand.geo, p));
    TableSize(s);
    var l := Recorded(s, p);
    MapEntry(s, l);
    LocInjective(s.nand.geo, s.maptbl[l].value, p);
  }

  /** A page is valid exactly when the forward map leads back to it from the logical page it records. */
  lemma ValidExactlyWhenMapped(s: Snap, p: Ppa)
    requires Ok(s, {}) && Core(View(s), {}, {}) && ValidPpa(s.nand.geo, p)
    ensures s.nand.status[p] == PgValid <==> Recorded(s, p) < |s.maptbl| && s.maptbl[Recorded(s, p)] == Some(p)
  {
    hide Core, View, Recorded, BlocksOk, LineCountersOk, ListsOk, WpOk, MaptblOk;
    if s.nand.status[p] == PgValid {
      ValidIsMapped(s, p);
    } else if Recorded(s, p) < |s.maptbl| && s.maptbl[Recorded(s, p)] == Some(p) {
      MappedIsValid(s, Recorded(s, p));
    }
  }

  /** No two logical pages share a page. */
  lemma MappingIsInjective(s: Snap, a: nat, b: nat)
    requires Ok(s, {}) && Core(View(s), {}, {}) && a < |s.maptbl| && b < |s.maptbl|
    requires s.maptbl[a].Some? && s.maptbl[a] == s.maptbl[b]
    ensures a == b
  {
    hide Core, View, Recorded, BlocksOk, LineCountersOk, ListsOk, WpOk, MaptblOk;
    MappedIsValid(s, a);
    MappedIsValid(s, b);
  }

  /** In the line of a write pointer the pages before the pointer are written and those from it on are free. */
  lemma FreeFromThePointerOn(s: Snap, w: WritePointer, p: Ppa)
    requires Ok(s, {}) && Core(View(s), {}, {}) && (w == s.wp || w == s.gcWp)
    requires ValidPpa(s.nand.geo, p) && p.blk == w.curline
    ensures s.nand.status[p] == PgFree <==> Index(s.nand.geo, PpaOf(w)) <= Index(s.nand.geo, p)
  {
    hide NandShape, BlocksOk, LineCountersOk, ListsOk, Forward, Backward, Owned, Index, PgIdx, MaptblOk;
    PageAtLoc(s, p);
  }

  // ---- Line accounting ----

  ghost predicate OnlyOne(a: bool, b: bool, c: bool, d: bool, e: bool) {
    (if a then 1 else 0) + (if b then 1 else 0) + (if c then 1 else 0) + (if d then 1 else 0) + (if e then 1 else 0) == 1
  }

  /**
    Every line is in exactly one place; its counters count its valid and invalid pages; it is on the full list
    exactly when all its pages are valid, and in the heap exactly when it has a position there.
  */
  lemma LineAccounting(s: Snap, l: nat)
    requires Ok(s, {}) && Core(View(s), {}, {}) && l < s.nand.geo.blks
    ensures OnlyOne(l in s.freeList, l in s.fullList, l in s.heap, l == s.wp.curline, l == s.gcWp.curline)
    ensures l < |s.vpc| && l < |s.ipc| && l < |s.pos|
    ensures s.vpc[l] == Vpc(LineOf(s.nand, l)) && s.ipc[l] == Ipc(LineOf(s.nand, l))
    ensures l in s.fullList <==> s.vpc[l] == s.nand.geo.PgsPerLine()
    ensures l in s.heap <==> s.pos[l] != 0
  {
    hide NandShape, BlocksOk, Core, Index, MaptblOk, LineOf, Vpc, Ipc, Geo.PgsPerLine, NoDup, Places;
    TableSize(s);
    var f := View(s);
    assert f.lines[l] == LineOf(s.nand, l) && |f.lines[l]| == s.nand.geo.PgsPerLine();
    PlaceAndPages(f, l);
  }

  lemma PlaceAndPages(f: Flash, l: nat)
    requires Core(f, {}, {}) && l < |f.lines|
    ensures OnlyOne(l in f.free, l in f.full, l in f.victims, l == f.user.line, l == f.gc.line)
    ensures l in f.full <==> Vpc(f.lines[l]) == |f.lines[l]|
  {
    hide Forward, Backward, Vpc, NoDup;
    assert Places(f, {}, l) == 1;
    VpcFull(f.lines[l]);
    OpenPagesAreFree(f, {}, {});
    assert f.lines[f.user.line][f.user.idx].Free? && f.lines[f.gc.line][f.gc.idx].Free?;
    if l in f.free { assert f.lines[l][0].Free?; }
  }

  /** The list counters and the two open lines add up to all lines, so the heap, with room for every line, never overflows. */
  lemma CountersAddUp(s: Snap)
    requires Ok(s, {}) && Core(View(s), {}, {})
    ensures s.freeLineCnt + s.fullLineCnt + s.victimLineCnt + 2 == s.nand.geo.blks
  {
    hide NandShape, BlocksOk, LineCountersOk, LinesOk, Forward, Backward, Index, MaptblOk, NoDup;
    TableSize(s);
    var f := View(s);
    var free, full := Members(s.freeList), Members(s.fullList);
    NoDupSize(s.freeList);
    NoDupSize(s.fullList);
    FtlRuns.AllPlaced(f, free, full);
  }
}
