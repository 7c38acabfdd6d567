/** Dead pages line by line: what one host write and one collection do to them. */
module FtlDeads {
  import opened Basics
  import opened LogMachine
  import opened FtlInvariant
  import opened FtlGc
  import opened FtlRuns

  // ---- Sums over lines ----

  function Sum(q: seq<nat>): nat {
    if q == [] then 0 else Sum(q[..|q| - 1]) + q[|q| - 1]
  }

  lemma {:induction false} SumUpdate(q: seq<nat>, i: nat, x: nat)
    requires i < |q|
    ensures Sum(q[i := x]) == Sum(q) - q[i] + x
  {
    var n := |q| - 1;
    if i < n {
      assert q[i := x][..n] == q[..n][i := x];
      SumUpdate(q[..n], i, x);
    } else {
      assert q[i := x][..n] == q[..n];
    }
  }

  /** How many entries are over d. */
  function Over(q: seq<nat>, d: nat): nat {
    if q == [] then 0 else Over(q[..|q| - 1], d) + if q[|q| - 1] > d then 1 else 0
  }

  lemma {:induction false} OverUpdate(q: seq<nat>, i: nat, x: nat, d: nat)
    requires i < |q|
    ensures Over(q[i := x], d) == Over(q, d) - (if q[i] > d then 1 else 0) + (if x > d then 1 else 0)
  {
    var n := |q| - 1;
    if i < n {
      assert q[i := x][..n] == q[..n][i := x];
      OverUpdate(q[..n], i, x, d);
    } else {
      assert q[i := x][..n] == q[..n];
    }
  }

  lemma {:induction false} SumAtLeast(q: seq<nat>, s: set<nat>, d: nat)
    requires forall i :: i in s ==> i < |q| && q[i] >= d
    ensures Sum(q) >= d * |s|
  {
    if q == [] {
      assert s == {};
    } else {
      var n := |q| - 1;
      var rest := s - {n};
      SumAtLeast(q[..n], rest, d);
      if n in s {
        assert |s| == |rest| + 1;
        assert d * |s| == d * |rest| + d;
      } else {
        assert rest == s;
      }
    }
  }

  lemma {:induction false} SumZero(q: seq<nat>)
    requires forall i :: 0 <= i < |q| ==> q[i] == 0
    ensures Sum(q) == 0
  {
    if q != [] { SumZero(q[..|q| - 1]); }
  }

  // ---- Dead pages of a line ----

  ghost function Deads(f: Flash): (r: seq<nat>)
    ensures |r| == |f.lines| && forall l :: 0 <= l < |r| ==> r[l] == Ipc(f.lines[l])
  {
    seq(|f.lines|, l requires 0 <= l < |f.lines| => Ipc(f.lines[l]))
  }

  lemma LineUpdate(line: seq<Page>, i: nat, p: Page)
    requires i < |line|
    ensures Ipc(line[i := p]) == Ipc(line) - (if line[i].Dead? then 1 else 0) + (if p.Dead? then 1 else 0)
  {
    assert Statuses(line[i := p]) == Statuses(line)[i := StatusOf(p)];
    CountUpdate(Statuses(line), i, StatusOf(p), PgInvalid);
  }

  lemma PageUpdate(f: Flash, loc: Loc, p: Page)
    requires InRange(f, loc)
    ensures var n := Ipc(f.lines[loc.line]) - (if At(f, loc).Dead? then 1 else 0) + (if p.Dead? then 1 else 0);
            n >= 0 && Deads(SetPage(f, loc, p)) == Deads(f)[loc.line := n]
  {
    LineUpdate(f.lines[loc.line], loc.idx, p);
    hide Ipc;
  }

  lemma {:induction false} SameDeadPages(a: seq<Page>, b: seq<Page>)
    requires |a| == |b| && forall i :: 0 <= i < |a| ==> (a[i].Dead? <==> b[i].Dead?)
    ensures Ipc(a) == Ipc(b)
  {
    if a != [] {
      var n := |a| - 1;
      assert Statuses(a)[..n] == Statuses(a[..n]) && Statuses(b)[..n] == Statuses(b[..n]);
      SameDeadPages(a[..n], b[..n]);
    }
  }

  /** A line filled up to k with fewer dead pages than k has a valid one. */
  lemma {:induction false} LivePage(line: seq<Page>, k: nat) returns (i: nat)
    requires k <= |line| && (forall j :: 0 <= j < |line| ==> (line[j].Free? <==> k <= j)) && Ipc(line) < k
    ensures i < |line| && line[i].Live?
  {
    var n := |line| - 1;
    assert Statuses(line)[..n] == Statuses(line[..n]);
    if line[n].Live? {
      i := n;
    } else {
      i := LivePage(line[..n], if k <= n then k else n);
    }
  }

  lemma {:induction false} DeadBelow(line: seq<Page>, k: nat)
    requires k <= |line| && forall j :: k <= j < |line| ==> !line[j].Dead?
    ensures Ipc(line) <= k
  {
    if line != [] {
      var n := |line| - 1;
      assert Statuses(line)[..n] == Statuses(line[..n]);
      DeadBelow(line[..n], if k <= n then k else n);
    }
  }

  // ---- A host write over a mapped page ----

  ghost predicate Open(s: Flash, l: nat) { l == s.user.line || l == s.gc.line }

  /** A line with a dead page that is neither open nor free is a victim. */
  ghost function Marked(s: Flash, l: nat): set<nat> {
    if Open(s, l) then s.victims else s.victims + {l}
  }

  ghost predicate SameMapped(s: Flash, t: Flash) {
    |t.l2p| == |s.l2p| && forall l :: 0 <= l < |s.l2p| ==> (t.l2p[l].Some? <==> s.l2p[l].Some?)
  }

  /** One page of line l died and one was programmed at the user's write pointer. */
  ghost predicate Wrote(s: Flash, l: nat, t: Flash) {
    && Core(t, {}, {}) && !t.dry && t.cfg == s.cfg && SameMapped(s, t) && Room(t) == Room(s) - 1
    && l < |s.lines| && Deads(t) == Deads(s)[l := Deads(s)[l] + 1] && t.gc == s.gc
    && UserMoved(s, Marked(s, l), t)
  }

  /** The user's write pointer one page further; a line that is full up is filed by its dead pages. */
  ghost predicate UserMoved(s: Flash, victims: set<nat>, t: Flash) {
    if s.user.idx + 1 < s.cfg.L then
      t.user == Loc(s.user.line, s.user.idx + 1) && t.free == s.free && t.victims == victims
    else
      && s.free != [] && t.user == Loc(s.free[0], 0) && t.free == s.free[1..] && s.user.line < |t.lines|
      && t.victims == if Deads(t)[s.user.line] > 0 then victims + {s.user.line} else victims
  }

  lemma Overwrite(s: Flash, lpn: nat, data: int)
    requires Core(s, {}, {}) && !s.dry && LineLeft(s, UserIo) && lpn < |s.l2p| && s.l2p[lpn].Some?
    ensures Writable(s, lpn) && Wrote(s, s.l2p[lpn].value.line, UserWrite(s, lpn, data))
  {
    hide Core, Vpc, Ipc, Program;
    var loc := s.l2p[lpn].value;
    TwoPages(s, lpn);
    UserWriteKeeps(s, lpn, data);
    InvalidateMarks(s, loc);
    var i := Invalidate(s, loc);
    PageUpdate(s, loc, Dead);
    PageUpdate(i, s.user, Live(lpn, data));
    Programming(i, lpn, data);
  }

  lemma TwoPages(s: Flash, lpn: nat)
    requires Core(s, {}, {}) && lpn < |s.l2p| && s.l2p[lpn].Some?
    ensures InRange(s, s.l2p[lpn].value) && At(s, s.l2p[lpn].value).Live?
    ensures InRange(s, s.user) && At(s, s.user).Free? && s.cfg.L >= 1
  {}

  lemma InvalidateMarks(s: Flash, loc: Loc)
    requires Core(s, {}, {}) && InRange(s, loc) && At(s, loc).Live?
    ensures var i := Invalidate(s, loc);
            && i.victims == Marked(s, loc.line) && i.user == s.user && i.gc == s.gc && i.free == s.free
            && i.lines == SetPage(s, loc, Dead).lines && i.cfg == s.cfg && i.l2p == s.l2p && i.dry == s.dry
  {
    assert Places(s, {}, loc.line) == 1;
    assert At(s, s.user).Free? && At(s, s.gc).Free?;
    VpcFull(s.lines[loc.line]);
    assert loc.line in s.free ==> AllFree(s.lines[loc.line]);
    assert loc.line in s.victims ==> !AllLive(s.lines[loc.line]);
    hide NoDup, Forward, Backward, OpenAt, Vpc;
  }

  /** Programming at the user's write pointer, seen from the lists. */
  lemma Programming(i: Flash, lpn: nat, data: int)
    requires InRange(i, i.user) && lpn < |i.l2p| && LineLeft(i, UserIo) && i.cfg.L >= 1
    requires Core(Program(i, UserIo, lpn, data), {}, {})
    ensures var t := Program(i, UserIo, lpn, data);
            && t.gc == i.gc && t.lines == SetPage(i, i.user, Live(lpn, data)).lines && UserMoved(i, i.victims, t)
  {
    var p, t := Put(i, UserIo, lpn, data), Program(i, UserIo, lpn, data);
    if i.user.idx + 1 >= i.cfg.L && i.user.idx + 1 == i.cfg.L { FiledLine(p, t, i.user.line); }
    hide Core, Vpc, Ipc;
  }

  lemma FiledLine(p: Flash, t: Flash, l: nat)
    requires Core(t, {}, {}) && l < |p.lines| && t.lines == p.lines && t.cfg == p.cfg
    requires l in t.full || l in t.victims
    ensures Vpc(p.lines[l]) == p.cfg.L <==> Ipc(p.lines[l]) == 0
  {
    assert NoFree(p.lines[l]);
    NoFreeCounts(p.lines[l]);
  }

  // ---- The first write of a page, with the line not yet used up ----

  ghost predicate WroteFirst(s: Flash, lpn: nat, t: Flash) {
    && Core(t, {}, {}) && !t.dry && t.cfg == s.cfg && lpn < |s.l2p| && t.l2p == s.l2p[lpn := Some(s.user)]
    && Room(t) == Room(s) - 1 && Deads(t) == Deads(s) && t.gc == s.gc
    && t.user == Loc(s.user.line, s.user.idx + 1) && t.free == s.free && t.victims == s.victims
  }

  lemma FirstWrite(s: Flash, lpn: nat, data: int)
    requires Core(s, {}, {}) && !s.dry && lpn < |s.l2p| && s.l2p[lpn].None? && s.user.idx + 1 < s.cfg.L
    ensures Writable(s, lpn) && WroteFirst(s, lpn, UserWrite(s, lpn, data))
  {
    hide LinesOk, Owned, Forward, Backward, Vpc, Ipc;
    OpenPagesAreFree(s, {}, {});
    assert InRange(s, s.user);
    hide Core, Shape;
    UserWriteKeeps(s, lpn, data);
    PageUpdate(s, s.user, Live(lpn, data));
  }

  // ---- A collection ----

  /** The victim's dead pages are gone, its valid ones went to the GC write pointer. */
  ghost predicate Cleaned(s: Flash, v: nat, t: Flash) {
    && v < |s.lines| && Core(t, {}, {}) && t.dry == s.dry && t.cfg == s.cfg && SameMapped(s, t)
    && 1 <= Deads(s)[v] <= s.cfg.L && Room(t) == Room(s) + Deads(s)[v]
    && Deads(t) == Deads(s)[v := 0] && t.user == s.user
    && var k := s.gc.idx + s.cfg.L - Deads(s)[v];
       if k < s.cfg.L then
         t.gc == Loc(s.gc.line, k) && t.free == s.free + [v] && t.victims == s.victims - {v}
       else
         s.free != [] && t.gc == Loc(s.free[0], k - s.cfg.L) && t.free == s.free[1..] + [v]
  }

  lemma Clean(s: Flash, v: nat)
    requires Core(s, {}, {}) && OrderOk(s.cfg) && v in s.victims && v < |s.lines|
    requires Enough(s, s.cfg.L - Deads(s)[v])
    ensures Cleaned(s, v, Gc(s, v))
  {
    VictimCounts(s, v);
    GcKeeps(s, v);
    CopiesOf(s, v);
    hide Core, Vpc, Ipc, OnlyFreeWritten, SameHostView, CopyPages, LiveAmong, Enough;
    DeadsAfter(s, v);
    assert SameMapped(s, Gc(s, v));
  }

  /** Where the copies went. */
  lemma CopiesOf(s: Flash, v: nat)
    requires Core(s, {}, {}) && OrderOk(s.cfg) && v in s.victims && v < |s.lines| && Enough(s, Vpc(s.lines[v]))
    ensures var m := CopyPages(Select(s, v), v, s.cfg.order);
            && GcMoved(Select(s, v), m, Vpc(s.lines[v])) && OnlyFreeWritten(s, m)
            && v < |m.lines| && Gc(s, v) == Erase(m, v)
  {
    SelectKeeps(s, v);
    VictimCounts(s, v);
    LiveAmongIsVpc(s.cfg, s.lines[v]);
    hide Core, SameHostView, MovedOffVictim, Vpc, Ipc, LiveAmong;
    CopyPagesKeeps(Select(s, v), v, s.cfg.order);
  }

  lemma DeadsAfter(s: Flash, v: nat)
    requires v < |s.lines| && var m := CopyPages(Select(s, v), v, s.cfg.order);
             OnlyFreeWritten(s, m) && v < |m.lines| && Gc(s, v) == Erase(m, v)
    requires forall l :: 0 <= l < |s.lines| ==> |s.lines[l]| == s.cfg.L
    ensures Deads(Gc(s, v)) == Deads(s)[v := 0]
  {
    var m, t := CopyPages(Select(s, v), v, s.cfg.order), Gc(s, v);
    NoNewDead(Select(s, v), v, s.cfg.order);
    DeadBelow(t.lines[v], 0);
    hide Ipc, CopyPages;
    forall l | 0 <= l < |s.lines| && l != v ensures Deads(t)[l] == Deads(s)[l] {
      SameDeadLine(s, m, l);
      assert t.lines[l] == m.lines[l];
    }
  }

  lemma SameDeadLine(s: Flash, m: Flash, l: nat)
    requires l < |s.lines| && OnlyFreeWritten(s, m) && |m.lines| == |s.lines| && |m.lines[l]| == |s.lines[l]|
    requires forall loc :: InRange(m, loc) && At(m, loc).Dead? ==> InRange(s, loc) && At(s, loc).Dead?
    ensures Ipc(m.lines[l]) == Ipc(s.lines[l])
  {
    forall i | 0 <= i < |s.lines[l]| ensures m.lines[l][i].Dead? <==> s.lines[l][i].Dead? {
      assert At(m, Loc(l, i)) == m.lines[l][i] && At(s, Loc(l, i)) == s.lines[l][i];
    }
    SameDeadPages(m.lines[l], s.lines[l]);
  }

  lemma {:induction false} NoNewDead(u: Flash, v: nat, order: seq<nat>)
    ensures var m := CopyPages(u, v, order);
            && |m.lines| == |u.lines| && (forall l :: 0 <= l < |u.lines| ==> |m.lines[l]| == |u.lines[l]|)
            && forall loc :: InRange(m, loc) && At(m, loc).Dead? ==> InRange(u, loc) && At(u, loc).Dead?
  {
    hide Vpc, CopyPage;
    if order != [] {
      NoNewDead(u, v, order[..|order| - 1]);
      CopyMakesNoneDead(CopyPages(u, v, order[..|order| - 1]), v, order[|order| - 1]);
    }
  }

  lemma CopyMakesNoneDead(s: Flash, v: nat, i: nat)
    ensures var m := CopyPage(s, v, i);
            && |m.lines| == |s.lines| && (forall l :: 0 <= l < |s.lines| ==> |m.lines[l]| == |s.lines[l]|)
            && forall loc :: InRange(m, loc) && At(m, loc).Dead? ==> InRange(s, loc) && At(s, loc).Dead?
  {
    hide Vpc;
  }

  // ---- A collection that finds no line ----

  lemma {:induction false} StaysDry(s: Flash, v: nat, order: seq<nat>)
    requires s.dry
    ensures CopyPages(s, v, order).dry
  {
    if order != [] {
      StaysDry(s, v, order[..|order| - 1]);
      hide Vpc;
    }
  }

  lemma CopyPageDry(s: Flash, v: nat, i: nat)
    requires s.dry || (v < |s.lines| && LiveAt(s.lines[v], i) && s.lines[v][i].lpn < |s.l2p| && InRange(s, s.gc)
                       && s.gc.idx + 1 >= s.cfg.L && s.free == [])
    ensures CopyPage(s, v, i).dry
  {
    hide Vpc;
  }

  lemma {:induction false} CopiesRunDry(s: Flash, v: nat, order: seq<nat>)
    requires Core(s, {v}, {}) && v < |s.lines| && s.free == []
    requires NoDup(order) && (forall i :: i in order ==> i < s.cfg.L)
    requires s.gc.idx + LiveAmong(s.lines[v], order) >= s.cfg.L
    ensures CopyPages(s, v, order).dry
  {
    assert s.gc.idx < s.cfg.L;
    assert order != [];
    var shorter, i := order[..|order| - 1], order[|order| - 1];
    assert order == shorter + [i] && i !in shorter;
    assert forall x :: x in shorter ==> x in order;
    var t := CopyPages(s, v, shorter);
    if s.gc.idx + LiveAmong(s.lines[v], shorter) >= s.cfg.L {
      CopiesRunDry(s, v, shorter);
    } else {
      CopyPagesKeeps(s, v, shorter);
      hide OnlyFreeWritten, MovedOffVictim, SameHostView;
      CopiedGrows(s, v, shorter, i);
      NextIsOwned(t, v, i, Copied(s, v, shorter));
    }
    hide Core, CopyPages;
    CopyPageDry(t, v, i);
  }

  lemma NextIsOwned(t: Flash, v: nat, i: nat, done: set<Loc>)
    requires Core(t, {v}, done) && v < |t.lines| && LiveAt(t.lines[v], i) && Loc(v, i) !in done
    ensures t.lines[v][i].lpn < |t.l2p| && InRange(t, t.gc)
  {
    assert InRange(t, Loc(v, i)) && At(t, Loc(v, i)).Live?;
  }

  lemma GcRunsDry(s: Flash, v: nat)
    requires Core(s, {}, {}) && OrderOk(s.cfg) && v in s.victims && v < |s.lines| && s.free == []
    requires s.gc.idx >= Deads(s)[v]
    ensures Gc(s, v).dry
  {
    SelectKeeps(s, v);
    VictimCounts(s, v);
    LiveAmongIsVpc(s.cfg, s.lines[v]);
    hide Core, Vpc, Ipc, LiveAmong, CopyPages;
    CopiesRunDry(Select(s, v), v, s.cfg.order);
  }

  // ---- What can be overwritten ----

  /** How many pages of the line were programmed. */
  ghost function FilledTo(s: Flash, l: nat): nat {
    if l == s.user.line then s.user.idx else if l == s.gc.line then s.gc.idx else if l in s.free then 0 else s.cfg.L
  }

  /** A line with more pages programmed than dead holds the page of some logical page. */
  lemma PageOn(s: Flash, l: nat) returns (lpn: nat)
    requires Core(s, {}, {}) && l < |s.lines| && Deads(s)[l] < FilledTo(s, l)
    ensures lpn < |s.l2p| && s.l2p[lpn].Some? && s.l2p[lpn].value.line == l
  {
    var k := FilledTo(s, l);
    LineFilled(s, l);
    hide Ipc;
    var i := LivePage(s.lines[l], k);
    lpn := s.lines[l][i].lpn;
    assert InRange(s, Loc(l, i)) && At(s, Loc(l, i)).Live?;
  }

  lemma LineFilled(s: Flash, l: nat)
    requires Core(s, {}, {}) && l < |s.lines|
    ensures FilledTo(s, l) <= |s.lines[l]| == s.cfg.L
    ensures forall j :: 0 <= j < |s.lines[l]| ==> (s.lines[l][j].Free? <==> FilledTo(s, l) <= j)
  {
    assert Places(s, {}, l) == 1;
    hide Forward, Backward, NoDup;
  }

  /** Lines on the free and the full list have no dead pages, nor has any closed line when there are no victims. */
  lemma NoDeads(s: Flash, l: nat)
    requires Core(s, {}, {}) && l < |s.lines| && !Open(s, l) && l !in s.victims
    ensures Deads(s)[l] == 0
  {
    assert Places(s, {}, l) == 1;
    DeadBelow(s.lines[l], 0);
    hide Forward, Backward, NoDup, Ipc;
  }
}
