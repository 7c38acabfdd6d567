/** Whole runs of host writes: the free pool never runs dry and the host reads back its last writes. */
module FtlRuns {
  import opened Basics
  import opened LogMachine
  import opened FtlInvariant
  import opened FtlGc

  ghost function Mapped(m: seq<Option<Loc>>): set<nat> {
    set l | 0 <= l < |m| && m[l].Some?
  }

  // ---- A victim exists when GC needs one ----

  lemma FullListIsLong(s: Flash)
    requires Core(s, {}, {}) && s.victims == {}
    ensures |s.full| >= s.cfg.lines - 2 - |s.free|
  {
    var free, full, wps := Members(s.free), Members(s.full), {s.user.line, s.gc.line};
    forall l | l in UpTo(s.cfg.lines) ensures l in free + full + wps {
      assert Places(s, {}, l) == 1;
    }
    hide *;
    SubsetSize(UpTo(s.cfg.lines), free + full + wps);
    assert |free + full + wps| <= |free| + |full| + |wps|;
  }

  lemma AllPlaced(f: Flash, free: set<nat>, full: set<nat>)
    requires Shape(f) && Owned(f, {}) && (forall l :: l in free <==> l in f.free) && forall l :: l in full <==> l in f.full
    ensures |free| + |full| + |f.victims| + 2 == |f.lines|
  {
    var open := {f.user.line, f.gc.line};
    PlacesApart(f, free, full, open);
    hide Shape, Owned;
    DisjointSize(free, full);
    DisjointSize(free + full, f.victims);
    DisjointSize(free + full + f.victims, open);
  }

  lemma PlacesApart(f: Flash, free: set<nat>, full: set<nat>, open: set<nat>)
    requires Shape(f) && Owned(f, {}) && (forall l :: l in free <==> l in f.free) && forall l :: l in full <==> l in f.full
    requires open == {f.user.line, f.gc.line}
    ensures free !! full && (free + full) !! f.victims && (free + full + f.victims) !! open && f.user.line != f.gc.line
    ensures free + full + f.victims + open == UpTo(|f.lines|)
  {
    hide NoDup;
    assert Places(f, {}, f.user.line) == 1 && Places(f, {}, f.gc.line) == 1;
    forall l: nat ensures l < |f.lines| <==> l in free + full + f.victims + open {
      if l < |f.lines| { assert Places(f, {}, l) == 1; }
    }
    forall l | l in free || l in full || l in f.victims ensures Places(f, {}, l) == 1 {}
  }

  /** The logical page on page b of the a-th full line. */
  ghost function FullLpn(s: Flash, a: nat, b: nat): nat {
    if a < |s.full| && s.full[a] < |s.lines| && b < |s.lines[s.full[a]]| && s.lines[s.full[a]][b].Live?
    then s.lines[s.full[a]][b].lpn else 0
  }

  /** A page of a full line is the one its logical page maps to. */
  lemma FullPage(s: Flash, a: nat, b: nat)
    requires Core(s, {}, {}) && a < |s.full| && b < s.cfg.L
    ensures FullLpn(s, a, b) < |s.l2p| && s.l2p[FullLpn(s, a, b)] == Some(Loc(s.full[a], b))
  {
    assert s.full[a] in s.full && AllLive(s.lines[s.full[a]]);
    assert InRange(s, Loc(s.full[a], b)) && At(s, Loc(s.full[a], b)).Live?;
  }

  ghost function RowLpns(s: Flash, a: nat): seq<nat> {
    seq(s.cfg.L, (b: nat) => FullLpn(s, a, b))
  }

  /** The logical pages on the first k full lines, line after line. */
  ghost function FullLpns(s: Flash, k: nat): seq<nat> {
    if k == 0 then [] else FullLpns(s, k - 1) + RowLpns(s, k - 1)
  }

  lemma MulMono(a: int, b: int, L: nat)
    requires a <= b
    ensures a * L <= b * L
  {}

  lemma DifferentPages(s: Flash, a: nat, b: nat, c: nat, d: nat)
    requires Core(s, {}, {}) && a < |s.full| && c < |s.full| && b < s.cfg.L && d < s.cfg.L
    requires a != c || b != d
    ensures FullLpn(s, a, b) != FullLpn(s, c, d)
  {
    FullPage(s, a, b);
    FullPage(s, c, d);
    assert NoDup(s.full);
    hide Core, FullLpn;
    SlotsDiffer(s.full, a, c);
  }

  lemma SlotsDiffer(s: seq<nat>, a: nat, b: nat)
    requires NoDup(s) && a < |s| && b < |s|
    ensures s[a] == s[b] ==> a == b
  {}

  lemma {:induction false} FullLpnOrigin(s: Flash, k: nat, x: nat)
    requires x in FullLpns(s, k)
    ensures exists a: nat, b: nat :: a < k && b < s.cfg.L && FullLpn(s, a, b) == x
  {
    if x in FullLpns(s, k - 1) {
      FullLpnOrigin(s, k - 1, x);
    } else {
      var b :| 0 <= b < s.cfg.L && RowLpns(s, k - 1)[b] == x;
      assert FullLpn(s, k - 1, b) == x;
    }
  }

  lemma {:induction false} FullLpnsDistinct(s: Flash, k: nat)
    requires Core(s, {}, {}) && k <= |s.full|
    ensures NoDup(FullLpns(s, k)) && |FullLpns(s, k)| == k * s.cfg.L
  {
    if k > 0 {
      FullLpnsDistinct(s, k - 1);
      var before, row := FullLpns(s, k - 1), RowLpns(s, k - 1);
      assert s.cfg.L >= 1;
      hide Core, FullLpn;
      forall i, j | 0 <= i < j < |row| ensures row[i] != row[j] { DifferentPages(s, k - 1, i, k - 1, j); }
      forall x | x in before ensures x !in row {
        FullLpnOrigin(s, k - 1, x);
        var a: nat, b: nat :| a < k - 1 && b < s.cfg.L && FullLpn(s, a, b) == x;
        forall j | 0 <= j < |row| ensures row[j] != x { DifferentPages(s, a, b, k - 1, j); }
      }
      NoDupJoin(before, row);
    }
  }

  lemma NoDupJoin(a: seq<nat>, b: seq<nat>)
    requires NoDup(a) && NoDup(b) && forall x :: x in a ==> x !in b
    ensures NoDup(a + b)
  {
    forall i, j | 0 <= i < j < |a + b| ensures (a + b)[i] != (a + b)[j] {
      if i < |a| <= j { assert a[i] in a && b[j - |a|] in b; }
    }
  }

  /** Every page of a full line is some logical page's only copy. */
  lemma FullLinesAreMapped(s: Flash)
    requires Core(s, {}, {})
    ensures |Mapped(s.l2p)| >= |s.full| * s.cfg.L
  {
    var q := FullLpns(s, |s.full|);
    FullLpnsDistinct(s, |s.full|);
    hide Core, FullLpn;
    forall x | x in Members(q) ensures x in Mapped(s.l2p) {
      FullLpnOrigin(s, |s.full|, x);
      var a: nat, b: nat :| a < |s.full| && b < s.cfg.L && FullLpn(s, a, b) == x;
      FullPage(s, a, b);
    }
    NoDupSize(q);
    SubsetSize(Members(q), Mapped(s.l2p));
  }

  /** A valid page on the user's open line is one more. */
  lemma OpenPageIsMapped(s: Flash, loc: Loc)
    requires Core(s, {}, {}) && InRange(s, loc) && At(s, loc).Live? && loc.line == s.user.line
    ensures |Mapped(s.l2p)| >= |s.full| * s.cfg.L + 1
  {
    var q, lpn := FullLpns(s, |s.full|), At(s, loc).lpn;
    assert s.l2p[lpn] == Some(loc);
    assert loc.line !in s.full by { assert Places(s, {}, loc.line) == 1; }
    hide FullLpn, Core;
    FullLpnsDistinct(s, |s.full|);
    forall x | x in Members(q) ensures x in Mapped(s.l2p) && x != lpn {
      FullLpnOrigin(s, |s.full|, x);
      var a: nat, b: nat :| a < |s.full| && b < s.cfg.L && FullLpn(s, a, b) == x;
      FullPage(s, a, b);
      assert s.full[a] in s.full;
    }
    NoDupSize(q);
    SubsetSize(Members(q) + {lpn}, Mapped(s.l2p));
  }

  /** With few enough mapped pages, GC that needs a victim has one. */
  lemma VictimExists(s: Flash)
    requires Core(s, {}, {}) && |s.free| <= GC_THRES_LINES_HIGH
    requires |Mapped(s.l2p)| < (s.cfg.lines - 4) * s.cfg.L
    ensures s.victims != {}
  {
    hide Core, Mapped;
    if s.victims == {} {
      FullListIsLong(s);
      FullLinesAreMapped(s);
      MulMono(s.cfg.lines - 4, |s.full|, s.cfg.L);
    }
  }

  /** The page before the user's write pointer, in the same line, is valid. */
  ghost predicate JustWritten(s: Flash) {
    s.user.idx > 0 ==>
      InRange(s, Loc(s.user.line, s.user.idx - 1)) && At(s, Loc(s.user.line, s.user.idx - 1)).Live?
  }

  /** Four lines of pages unmapped: GC has a victim, or there is room enough without. */
  lemma VictimOrRoom(s: Flash)
    requires Core(s, {}, {}) && |s.free| <= GC_THRES_LINES_HIGH && JustWritten(s)
    requires |Mapped(s.l2p)| <= (s.cfg.lines - 4) * s.cfg.L
    ensures s.victims == {} ==> Room(s) >= 3 * s.cfg.L + 1
  {
    assert Shape(s) && s.gc.idx < s.cfg.L && s.cfg.L >= 1;
    hide Core, Mapped, Room;
    if s.victims == {} {
      FullListIsLong(s);
      FullLinesAreMapped(s);
      if s.user.idx > 0 { OpenPageIsMapped(s, Loc(s.user.line, s.user.idx - 1)); }
      FewFullLines(|s.full|, s.cfg.lines - 4, s.cfg.L, |Mapped(s.l2p)|);
      RoomOfTwo(s);
    }
  }

  lemma FewFullLines(full: nat, most: int, L: nat, mapped: nat)
    requires L >= 1 && full * L <= mapped <= most * L
    ensures full <= most && (full == most ==> mapped == full * L)
  {
    if full > most { MulMono(most + 1, full, L); }
  }

  lemma RoomOfTwo(s: Flash)
    requires |s.free| == 2 && s.user.idx == 0 && s.gc.idx < s.cfg.L
    ensures Room(s) >= 3 * s.cfg.L + 1
  {}

  /** The page just programmed is valid. */
  lemma WrittenJustNow(s: Flash, lpn: nat, data: int)
    requires Core(s, {}, {}) && lpn < |s.l2p| && LineLeft(s, UserIo) && !s.dry
    ensures Writable(s, lpn) && JustWritten(UserWrite(s, lpn, data))
  {
    UserWriteKeeps(s, lpn, data);
    var t := UserWrite(s, lpn, data);
    assert t.l2p[lpn] == Some(s.user) && InRange(t, s.user) && At(t, s.user).Live?;
    hide Core, Vpc;
  }

  // ---- One host write ----

  ghost predicate OnlyThisWritten(s: Flash, t: Flash, lpn: nat, data: int) {
    && Read(t, lpn) == Some(data)
    && forall l: nat :: l != lpn ==> Read(t, l) == Read(s, l)
  }

  /** The workload bound: at least four lines' worth of pages are never mapped. */
  ghost predicate Roomy(cfg: Config, mapped: set<nat>) {
    |mapped| <= (cfg.lines - 4) * cfg.L
  }

  /**
    A host write, with whatever garbage collection it triggers: the invariant holds again, the
    free list was never found empty, the host finds the new data at the written page and the
    old data everywhere else.
  */
  lemma WriteKeeps(s: State, lpn: nat, data: int, t: State)
    requires Inv(s) && lpn < |s.flash.l2p| && WriteStep(s, lpn, data, t)
    requires Roomy(s.flash.cfg, Mapped(s.flash.l2p) + {lpn})
    ensures Inv(t) && t.flash.cfg == s.flash.cfg && |t.flash.l2p| == |s.flash.l2p|
    ensures OnlyThisWritten(s.flash, t.flash, lpn, data)
    ensures Mapped(t.flash.l2p) == Mapped(s.flash.l2p) + {lpn}
  {
    hide UserWrite, Core, OrderOk, Mapped, OnlyThisWritten, SameHostView, Funded, Roomy, ForegroundGc;
    var f := UserWrite(s.flash, lpn, data);
    var u := State(f, s.credits - 1, s.refill);
    BeforeRefill(s, lpn, data);
    if u.credits == 0 {
      var g :| ForegroundGc(u, g) && t == g.(credits := g.credits + g.refill);
      RefillKeeps(u, g);
      WrittenThenSame(s.flash, f, g.flash, lpn, data);
    }
  }

  lemma WrittenThenSame(s: Flash, f: Flash, g: Flash, lpn: nat, data: int)
    requires OnlyThisWritten(s, f, lpn, data) && SameHostView(f, g)
    ensures OnlyThisWritten(s, g, lpn, data)
  {
    hide Read;
  }

  lemma OneMoreMapped(m: seq<Option<Loc>>, lpn: nat, loc: Loc)
    requires lpn < |m|
    ensures Mapped(m[lpn := Some(loc)]) == Mapped(m) + {lpn}
  {}

  lemma BeforeRefill(s: State, lpn: nat, data: int)
    requires Inv(s) && lpn < |s.flash.l2p|
    ensures Writable(s.flash, lpn)
    ensures var f := UserWrite(s.flash, lpn, data);
            && Core(f, {}, {}) && !f.dry && f.cfg == s.flash.cfg && |f.l2p| == |s.flash.l2p|
            && Funded(State(f, s.credits - 1, s.refill))
            && OnlyThisWritten(s.flash, f, lpn, data) && JustWritten(f)
            && Mapped(f.l2p) == Mapped(s.flash.l2p) + {lpn}
  {
    hide UserWrite, Core, JustWritten, Mapped, Writable;
    CoreHasShape(s.flash);
    FundedHasFreeLine(s.flash, UserIo);
    UserWriteKeeps(s.flash, lpn, data);
    WrittenJustNow(s.flash, lpn, data);
    var f := UserWrite(s.flash, lpn, data);
    forall l: nat | l != lpn ensures Read(f, l) == Read(s.flash, l) {}
    OneMoreMapped(s.flash.l2p, lpn, s.flash.user);
  }

  /** Before a write there is room for it; after it, room for a collection if the credits are used up. */
  lemma OneMoreWrite(s: State, lpn: nat, data: int)
    requires Inv(s) && lpn < |s.flash.l2p|
    ensures Core(s.flash, {}, {}) && Room(s.flash) >= s.flash.cfg.L + 2 && Writable(s.flash, lpn)
    ensures var f := UserWrite(s.flash, lpn, data);
            && Core(f, {}, {}) && (s.credits - 1 <= 0 ==> Room(f) >= 2 * f.cfg.L + 1)
  {
    BeforeRefill(s, lpn, data);
    hide UserWrite, Core, OnlyThisWritten, Room;
  }

  /** Out of credit: collecting garbage, or finding enough free lines, funds the next refill. */
  lemma RefillKeeps(u: State, g: State)
    requires Core(u.flash, {}, {}) && OrderOk(u.flash.cfg) && Funded(u) && u.credits == 0
    requires 1 <= u.refill <= u.flash.cfg.L && !u.flash.dry
    requires Roomy(u.flash.cfg, Mapped(u.flash.l2p)) && JustWritten(u.flash) && ForegroundGc(u, g)
    ensures Inv(g.(credits := g.credits + g.refill)) && SameHostView(u.flash, g.flash)
    ensures g.flash.cfg == u.flash.cfg && |g.flash.l2p| == |u.flash.l2p|
    ensures Mapped(g.flash.l2p) == Mapped(u.flash.l2p)
  {
    hide Core, Gc;
    if |u.flash.free| > GC_THRES_LINES_HIGH {
      assert Shape(u.flash) by { CoreHasShape(u.flash); }
      MulMono(3, |u.flash.free|, u.flash.cfg.L);
    } else if u.flash.victims == {} {
      VictimOrRoom(u.flash);
    } else {
      var v: nat :| Collected(u, v, g);
      GcTransparent(u.flash, v);
      hide Ipc, Vpc, Read;
      assert Mapped(g.flash.l2p) == Mapped(u.flash.l2p);
    }
  }

  lemma CoreHasShape(s: Flash)
    requires Core(s, {}, {})
    ensures Shape(s)
  {}

  /** A freshly initialised device meets the invariant. */
  lemma InitHolds(s: State)
    requires Init(s) && OrderOk(s.flash.cfg) && s.flash.cfg.lines >= 4
    ensures Inv(s) && forall l: nat :: Read(s.flash, l) == None
  {
    var f := s.flash;
    assert forall l :: 0 <= l < |f.lines| ==> AllFree(f.lines[l]);
    forall l | 0 <= l < |f.lines| ensures Places(f, {}, l) == 1 {
      if l >= 2 { assert f.free[l - 2] == l; }
    }
    assert |f.free| * f.cfg.L + 2 * f.cfg.L == f.cfg.lines * f.cfg.L;
    MulMono(4, f.cfg.lines, f.cfg.L);
  }

  // ---- Runs ----

  datatype Write = Write(lpn: nat, data: int)

  /** ss are the states of a device executing the writes ws from power-up. */
  ghost predicate Run(ss: seq<State>, ws: seq<Write>) {
    && |ss| == |ws| + 1 && Init(ss[0]) && OrderOk(ss[0].flash.cfg)
    && forall i :: 0 <= i < |ws| ==>
         ws[i].lpn < |ss[0].flash.l2p| && WriteStep(ss[i], ws[i].lpn, ws[i].data, ss[i + 1])
  }

  function Written(ws: seq<Write>): (r: set<nat>)
    ensures forall w :: w in ws ==> w.lpn in r
  {
    set w | w in ws :: w.lpn
  }

  /** The newest data written to lpn. */
  function LastWrite(ws: seq<Write>, lpn: nat): Option<int> {
    if ws == [] then None
    else if ws[|ws| - 1].lpn == lpn then Some(ws[|ws| - 1].data)
    else LastWrite(ws[..|ws| - 1], lpn)
  }

  /**
    The main theorem. However often garbage is collected along the way, a device whose host
    touches fewer distinct pages than all lines but four hold never finds the free list empty,
    keeps its invariant, and reads back exactly what was last written.
  */
  lemma {:induction false} RunsAreCorrect(ss: seq<State>, ws: seq<Write>)
    requires Run(ss, ws) && Roomy(ss[0].flash.cfg, Written(ws))
    ensures Inv(ss[|ws|]) && !ss[|ws|].flash.dry
    ensures forall lpn: nat :: Read(ss[|ws|].flash, lpn) == LastWrite(ws, lpn)
    ensures Mapped(ss[|ws|].flash.l2p) == Written(ws)
    ensures ss[|ws|].flash.cfg == ss[0].flash.cfg && |ss[|ws|].flash.l2p| == |ss[0].flash.l2p|
  {
    if ws == [] {
      BeforeAnyWrite(ss[0], ws);
    } else {
      hide Inv, WriteStep, OrderOk, Read, Init, Mapped, Written;
      var n := |ws| - 1;
      var last, before := ws[n], ws[..n];
      WrittenGrows(ws);
      RunPrefix(ss, ws);
      hide Run;
      RunsAreCorrect(ss[..n + 1], before);
      WriteKeeps(ss[n], last.lpn, last.data, ss[n + 1]);
      InvIsNotDry(ss[n + 1]);
    }
  }

  lemma BeforeAnyWrite(s: State, ws: seq<Write>)
    requires ws == [] && Init(s) && OrderOk(s.flash.cfg) && Roomy(s.flash.cfg, Written(ws))
    ensures Inv(s) && !s.flash.dry && Mapped(s.flash.l2p) == Written(ws)
    ensures forall lpn: nat :: Read(s.flash, lpn) == LastWrite(ws, lpn)
  {
    assert Written(ws) == {};
    RoomyHasFourLines(s.flash.cfg, Written(ws));
    InitHolds(s);
    assert Mapped(s.flash.l2p) == {};
  }

  lemma WrittenGrows(ws: seq<Write>)
    requires ws != []
    ensures Written(ws) == Written(ws[..|ws| - 1]) + {ws[|ws| - 1].lpn}
    ensures |Written(ws[..|ws| - 1])| <= |Written(ws)|
  {
    assert ws == ws[..|ws| - 1] + [ws[|ws| - 1]];
    SubsetSize(Written(ws[..|ws| - 1]), Written(ws));
  }

  lemma RunPrefix(ss: seq<State>, ws: seq<Write>)
    requires Run(ss, ws) && ws != []
    ensures Run(ss[..|ws|], ws[..|ws| - 1])
    ensures ws[|ws| - 1].lpn < |ss[0].flash.l2p|
    ensures WriteStep(ss[|ws| - 1], ws[|ws| - 1].lpn, ws[|ws| - 1].data, ss[|ws|])
  {
    hide Init, WriteStep, OrderOk;
  }

  lemma RoomyHasFourLines(cfg: Config, mapped: set<nat>)
    requires Roomy(cfg, mapped) && cfg.L >= 1
    ensures cfg.lines >= 4
  {
    if cfg.lines <= 3 { MulMono(cfg.lines - 4, -1, cfg.L); }
  }

  lemma InvIsNotDry(s: State)
    requires Inv(s)
    ensures !s.flash.dry
  {}

  // ---- One write command: several pages in a row ----

  ghost function Span(start: nat, n: nat): (r: set<nat>)
    ensures forall l: nat :: l in r <==> start <= l < start + n
  {
    UpTo(start + n) - UpTo(start)
  }

  /** The pages from `start` on hold `data`, every other page reads as before, and the invariant holds. */
  ghost predicate Stored(s: State, start: nat, data: seq<int>, t: State) {
    && Inv(t) && t.flash.cfg == s.flash.cfg && |t.flash.l2p| == |s.flash.l2p|
    && Mapped(t.flash.l2p) == Mapped(s.flash.l2p) + Span(start, |data|)
    && forall l: nat :: Read(t.flash, l) == if l in Span(start, |data|) then Some(data[l - start]) else Read(s.flash, l)
  }

  lemma NothingStored(s: State, start: nat)
    requires Inv(s)
    ensures Stored(s, start, [], s)
  {
    hide Inv, Read, Mapped;
  }

  lemma StoredInv(s: State, start: nat, data: seq<int>, t: State)
    requires Stored(s, start, data, t)
    ensures Inv(t)
  {}

  lemma StoredStep(s: State, start: nat, data: seq<int>, k: nat, t: State, u: State)
    requires k < |data| && Stored(s, start, data[..k], t) && start + k < |s.flash.l2p|
    requires WriteStep(t, start + k, data[k], u)
    requires Roomy(s.flash.cfg, Mapped(s.flash.l2p) + Span(start, |data|))
    ensures Stored(s, start, data[..k + 1], u)
  {
    hide Inv, WriteStep, Read, Mapped, Span, UpTo;
    var room := Mapped(s.flash.l2p) + Span(start, |data|);
    SubsetSize(Mapped(t.flash.l2p) + {start + k}, room);
    WriteKeeps(t, start + k, data[k], u);
    assert Span(start, k + 1) == Span(start, k) + {start + k};
    forall l: nat
      ensures Read(u.flash, l) == if l in Span(start, k + 1) then Some(data[..k + 1][l - start]) else Read(s.flash, l)
    {
      assert Read(t.flash, l) == if l in Span(start, k) then Some(data[..k][l - start]) else Read(s.flash, l);
    }
  }
}
