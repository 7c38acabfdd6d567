/** Garbage collection: the mid-GC invariant, transparency, and the exact room it gives back. */
module FtlGc {
  import opened Basics
  import opened LogMachine
  import opened FtlInvariant

  /** Pages already written at s hold the same in t: GC only programs free pages. */
  ghost predicate OnlyFreeWritten(s: Flash, t: Flash) {
    && |t.lines| == |s.lines|
    && forall loc :: InRange(s, loc) && !At(s, loc).Free? ==> InRange(t, loc) && At(t, loc) == At(s, loc)
  }

  /** A mapping entry either stays, or moves off the victim to a page that was free. */
  ghost predicate MovedOffVictim(s: Flash, t: Flash, v: nat) {
    && |t.l2p| == |s.l2p|
    && forall l :: 0 <= l < |s.l2p| && t.l2p[l] != s.l2p[l] ==>
         && s.l2p[l].Some? && s.l2p[l].value.line == v
         && t.l2p[l].Some? && t.l2p[l].value.line != v
         && InRange(s, t.l2p[l].value) && At(s, t.l2p[l].value).Free?
  }

  ghost predicate SameHostView(s: Flash, t: Flash) {
    forall l: nat :: Read(t, l) == Read(s, l)
  }

  ghost predicate LiveAt(line: seq<Page>, i: nat) { i < |line| && line[i].Live? }

  /** How many pages of `order` are live in the line. */
  ghost function LiveAmong(line: seq<Page>, order: seq<nat>): nat {
    if order == [] then 0
    else LiveAmong(line, order[..|order| - 1]) + (if LiveAt(line, order[|order| - 1]) then 1 else 0)
  }

  /** The victim's pages in `order` that GC has copied. */
  ghost function Copied(s: Flash, v: nat, order: seq<nat>): set<Loc>
    requires v < |s.lines|
  {
    set k | 0 <= k < |order| && LiveAt(s.lines[v], order[k]) :: Loc(v, order[k])
  }

  /** Mid-GC: after copying the pages of `order`, all is in place except the victim. */
  ghost predicate MidGc(s: Flash, t: Flash, v: nat, order: seq<nat>) {
    && v < |s.lines| && |t.lines| == |s.lines| && t.lines[v] == s.lines[v]
    && Core(t, {v}, Copied(s, v, order))
    && OnlyFreeWritten(s, t) && MovedOffVictim(s, t, v) && SameHostView(s, t)
    && Room(t) == Room(s) - LiveAmong(s.lines[v], order)
    && t.cfg == s.cfg && t.dry == s.dry
  }

  /** The GC write pointer after n more pages, at most one line further; nothing else of the lists is touched. */
  ghost predicate GcMoved(s: Flash, t: Flash, n: nat) {
    && t.user == s.user && t.cfg == s.cfg
    && if s.gc.idx + n < s.cfg.L then
         t.gc == Loc(s.gc.line, s.gc.idx + n) && t.free == s.free && t.full == s.full && t.victims == s.victims
       else s.free != [] && t.gc == Loc(s.free[0], s.gc.idx + n - s.cfg.L) && t.free == s.free[1..]
  }

  /** Lines enough for n more pages at the GC write pointer. */
  ghost predicate Enough(s: Flash, n: nat) {
    s.gc.idx + n < s.cfg.L || (s.free != [] && s.gc.idx + n < 2 * s.cfg.L)
  }

  lemma RoomIsEnough(s: Flash, n: nat)
    requires Shape(s) && Room(s) >= n + s.cfg.L + 2 && n <= s.cfg.L
    ensures Enough(s, n)
  {}

  /** Copying one live page: its logical page moves, the host sees no difference. */
  lemma CopyLiveKeeps(s: Flash, v: nat, i: nat, done: set<Loc>)
    requires Core(s, {v}, done) && v < |s.lines| && i < s.cfg.L
    requires s.lines[v][i].Live? && Loc(v, i) !in done && LineLeft(s, GcIo)
    ensures var t := CopyPage(s, v, i);
            && Core(t, {v}, done + {Loc(v, i)}) && Room(t) == Room(s) - 1
            && t.lines[v] == s.lines[v] && t.cfg == s.cfg && t.dry == s.dry
            && t.lines == SetPage(s, s.gc, s.lines[v][i]).lines
            && s.lines[v][i].lpn < |s.l2p| && s.l2p[s.lines[v][i].lpn] == Some(Loc(v, i))
            && t.l2p == s.l2p[s.lines[v][i].lpn := Some(s.gc)]
            && At(s, s.gc).Free? && s.gc.line != v
  {
    hide Advance, LinesOk, Forward, Backward, Vpc, NoDup;
    var loc := Loc(v, i);
    assert InRange(s, loc) && At(s, loc).Live?;
    var q := At(s, loc).lpn;
    UnmapCopied(s, v, loc, done);
    var u := s.(l2p := s.l2p[q := None]);
    OpenPagesAreFree(s, {v}, done);
    assert Places(s, {v}, s.gc.line) == 1;
    hide Core, Owned, Shape, Places;
    ProgramKeeps(u, {v}, done + {loc}, GcIo, q, At(s, loc).data);
    assert Put(s, GcIo, q, At(s, loc).data) == Put(u, GcIo, q, At(s, loc).data);
  }

  lemma CopyMoves(s: Flash, v: nat, i: nat)
    requires v < |s.lines| && LiveAt(s.lines[v], i) && s.lines[v][i].lpn < |s.l2p|
    requires InRange(s, s.gc) && s.gc.idx < s.cfg.L && LineLeft(s, GcIo)
    ensures GcMoved(s, CopyPage(s, v, i), 1)
  {
    hide Vpc;
  }

  lemma UnmapCopied(s: Flash, v: nat, loc: Loc, done: set<Loc>)
    requires Core(s, {v}, done) && InRange(s, loc) && loc.line == v && At(s, loc).Live? && loc !in done
    ensures At(s, loc).lpn < |s.l2p| && s.l2p[At(s, loc).lpn] == Some(loc)
    ensures var u := s.(l2p := s.l2p[At(s, loc).lpn := None]);
            Core(u, {v}, done + {loc}) && Room(u) == Room(s)
  {
    var u := s.(l2p := s.l2p[At(s, loc).lpn := None]);
    hide NoDup, OpenAt, AllFree, AllLive, NoFree;
    forall l | 0 <= l < |u.lines| ensures Places(u, {v}, l) == 1 { assert Places(s, {v}, l) == 1; }
    forall l | InRange(u, l) && l !in done + {loc} && At(u, l).Live?
      ensures At(u, l).lpn < |u.l2p| && u.l2p[At(u, l).lpn] == Some(l)
    {
      assert InRange(s, l) && At(s, l) == At(u, l);
    }
  }

  lemma MidGcStep(s: Flash, t: Flash, v: nat, order: seq<nat>, i: nat)
    requires Shape(s) && MidGc(s, t, v, order) && i < s.cfg.L && i !in order && LineLeft(t, GcIo)
    ensures MidGc(s, CopyPage(t, v, i), v, order + [i])
    ensures GcMoved(t, CopyPage(t, v, i), if LiveAt(s.lines[v], i) then 1 else 0)
  {
    var longer := order + [i];
    assert longer[..|longer| - 1] == order;
    CopiedGrows(s, v, order, i);
    if LiveAt(s.lines[v], i) {
      MidGcStepLive(s, t, v, order, i);
    } else {
      hide Core, OnlyFreeWritten, MovedOffVictim, SameHostView, Read;
      assert Copied(s, v, longer) == Copied(s, v, order);
    }
  }

  lemma MidGcStepLive(s: Flash, t: Flash, v: nat, order: seq<nat>, i: nat)
    requires MidGc(s, t, v, order) && Shape(s) && LiveAt(s.lines[v], i) && i !in order && LineLeft(t, GcIo)
    ensures MidGc(s, CopyPage(t, v, i), v, order + [i])
    ensures GcMoved(t, CopyPage(t, v, i), 1)
  {
    var done, longer, loc := Copied(s, v, order), order + [i], Loc(v, i);
    var next := CopyPage(t, v, i);
    assert longer[..|longer| - 1] == order;
    CopiedGrows(s, v, order, i);
    CopyLiveKeeps(t, v, i, done);
    CopyMoves(t, v, i);
    assert Shape(t) && Forward(t, {});
    assert InRange(t, loc) && At(t, loc) == At(s, loc);
    hide Core, CopyPage, Forward, OnlyFreeWritten, MovedOffVictim, SameHostView, Read, Copied;
    CopyIsTransparent(s, t, next, v, At(s, loc).lpn, loc);
  }

  lemma CopiedGrows(s: Flash, v: nat, order: seq<nat>, i: nat)
    requires v < |s.lines| && i !in order
    ensures Loc(v, i) !in Copied(s, v, order)
    ensures Copied(s, v, order + [i])
         == Copied(s, v, order) + (if LiveAt(s.lines[v], i) then {Loc(v, i)} else {})
  {
    var longer := order + [i];
    assert longer[|order|] == i && forall k :: 0 <= k < |order| ==> longer[k] == order[k];
    forall loc | loc in Copied(s, v, order) ensures loc in Copied(s, v, longer) {
      var k :| 0 <= k < |order| && LiveAt(s.lines[v], order[k]) && loc == Loc(v, order[k]);
      assert longer[k] == order[k];
    }
    if LiveAt(s.lines[v], i) { assert Loc(v, longer[|order|]) in Copied(s, v, longer); }
  }

  /** One page moved from the victim to a free page: seen from the start of GC and from the host. */
  lemma CopyIsTransparent(s: Flash, t: Flash, n: Flash, v: nat, q: nat, loc: Loc)
    requires OnlyFreeWritten(s, t) && MovedOffVictim(s, t, v) && SameHostView(s, t)
    requires Shape(s) && Shape(t) && s.cfg == t.cfg
    requires InRange(t, loc) && loc.line == v && At(t, loc).Live? && At(t, loc).lpn == q
    requires InRange(s, loc) && At(s, loc) == At(t, loc)
    requires q < |t.l2p| && t.l2p[q] == Some(loc) && At(t, t.gc).Free? && t.gc.line != v
    requires n.lines == SetPage(t, t.gc, Live(q, At(t, loc).data)).lines
    requires n.l2p == t.l2p[q := Some(t.gc)]
    requires Forward(t, {})
    ensures OnlyFreeWritten(s, n) && MovedOffVictim(s, n, v) && SameHostView(s, n)
  {
    ReadAfterCopy(t, n, q, loc);
    hide Read, Forward;
  }

  lemma ReadAfterCopy(t: Flash, n: Flash, q: nat, loc: Loc)
    requires Forward(t, {}) && InRange(t, loc) && At(t, loc).Live?
    requires q < |t.l2p| && t.l2p[q] == Some(loc) && InRange(t, t.gc) && At(t, t.gc).Free?
    requires n.lines == SetPage(t, t.gc, Live(q, At(t, loc).data)).lines
    requires n.l2p == t.l2p[q := Some(t.gc)]
    ensures SameHostView(t, n)
  {
    forall l: nat ensures Read(n, l) == Read(t, l) {
      if l < |t.l2p| && l != q && t.l2p[l].Some? {
        assert At(t, t.l2p[l].value).Live? && t.l2p[l].value != t.gc;
      }
    }
  }

  /** GC with lines enough copies any part of the victim, and never takes a line it lacks. */
  lemma {:induction false} CopyPagesKeeps(s: Flash, v: nat, order: seq<nat>)
    requires Core(s, {v}, {}) && v < |s.lines|
    requires NoDup(order) && (forall i :: i in order ==> i < s.cfg.L)
    requires Enough(s, LiveAmong(s.lines[v], order))
    ensures MidGc(s, CopyPages(s, v, order), v, order)
    ensures GcMoved(s, CopyPages(s, v, order), LiveAmong(s.lines[v], order))
  {
    if order == [] {
      assert Copied(s, v, order) == {};
    } else {
      var shorter, i := order[..|order| - 1], order[|order| - 1];
      assert order == shorter + [i] && i !in shorter;
      assert forall x :: x in shorter ==> x in order;
      CopyPagesKeeps(s, v, shorter);
      hide Core, OnlyFreeWritten, MovedOffVictim, SameHostView, CopyPage;
      var t := CopyPages(s, v, shorter);
      if LiveAt(s.lines[v], i) {
        MidGcStep(s, t, v, shorter, i);
      } else {
        MidGcSkip(s, t, v, shorter, i);
      }
    }
  }

  lemma MidGcSkip(s: Flash, t: Flash, v: nat, order: seq<nat>, i: nat)
    requires MidGc(s, t, v, order) && !LiveAt(s.lines[v], i) && i !in order
    ensures CopyPage(t, v, i) == t && MidGc(s, t, v, order + [i])
  {
    assert (order + [i])[..|order|] == order;
    CopiedGrows(s, v, order, i);
    assert Copied(s, v, order + [i]) == Copied(s, v, order);
    hide Core, OnlyFreeWritten, MovedOffVictim, SameHostView;
  }

  // ---- Counting the victim's live pages ----

  ghost function LiveIn(line: seq<Page>, order: seq<nat>): set<nat> { set i | i in order && LiveAt(line, i) }

  lemma LiveInStep(line: seq<Page>, shorter: seq<nat>, i: nat)
    requires i !in shorter
    ensures LiveIn(line, shorter + [i]) == LiveIn(line, shorter) + (if LiveAt(line, i) then {i} else {})
    ensures i !in LiveIn(line, shorter)
  {
    hide LiveAt;
    assert forall x :: x in shorter + [i] <==> x in shorter || x == i;
  }

  lemma {:induction false} LiveAmongIsSize(line: seq<Page>, order: seq<nat>)
    requires NoDup(order)
    ensures LiveAmong(line, order) == |LiveIn(line, order)|
  {
    hide LiveIn, LiveAt;
    if order == [] {
      NoneLiveIn(line);
    } else {
      var shorter, i := order[..|order| - 1], order[|order| - 1];
      assert order == shorter + [i] && i !in shorter && NoDup(shorter);
      LiveAmongIsSize(line, shorter);
      LiveInStep(line, shorter, i);
    }
  }

  lemma NoneLiveIn(line: seq<Page>)
    ensures LiveIn(line, []) == {}
  {}

  lemma {:induction false} VpcIsSize(line: seq<Page>)
    ensures Vpc(line) == |set i | 0 <= i < |line| && LiveAt(line, i)|
  {
    var live := set i | 0 <= i < |line| && LiveAt(line, i);
    if line == [] {
      assert live == {};
    } else {
      var init, k := line[..|line| - 1], |line| - 1;
      assert Statuses(line)[..k] == Statuses(init);
      VpcIsSize(init);
      var before := set i | 0 <= i < |init| && LiveAt(init, i);
      assert live == before + (if LiveAt(line, k) then {k} else {});
    }
  }

  /** A cleaning order that lists every page of the line once meets exactly its valid pages. */
  lemma LiveAmongIsVpc(cfg: Config, line: seq<Page>)
    requires OrderOk(cfg) && |line| == cfg.L
    ensures LiveAmong(line, cfg.order) == Vpc(line)
  {
    LiveAmongIsSize(line, cfg.order);
    VpcIsSize(line);
    assert LiveIn(line, cfg.order) == (set i | 0 <= i < |line| && LiveAt(line, i));
  }

  // ---- Taking the victim out, and erasing it ----

  lemma SelectKeeps(s: Flash, v: nat)
    requires Core(s, {}, {}) && v in s.victims
    ensures Core(Select(s, v), {v}, {}) && Room(Select(s, v)) == Room(s)
  {
    var t := Select(s, v);
    hide NoDup, OpenAt, AllFree, AllLive;
    forall l | 0 <= l < |t.lines| ensures Places(t, {v}, l) == 1 { assert Places(s, {}, l) == 1; }
    forall loc | InRange(t, loc) && At(t, loc).Live?
      ensures At(t, loc).lpn < |t.l2p| && t.l2p[At(t, loc).lpn] == Some(loc) { assert InRange(s, loc); }
  }

  /** Once every live page of the victim is copied, erasing it restores the full invariant. */
  lemma EraseKeeps(t: Flash, v: nat, done: set<Loc>)
    requires Core(t, {v}, done) && v < |t.lines|
    requires forall i :: 0 <= i < |t.lines[v]| && t.lines[v][i].Live? ==> Loc(v, i) in done
    ensures var e := Erase(t, v);
            && Core(e, {}, {}) && Room(e) == Room(t) + t.cfg.L
            && SameHostView(t, e) && AllFree(e.lines[v]) && v in e.free
            && (forall l :: 0 <= l < |e.l2p| && e.l2p[l].Some? ==> e.l2p[l].value.line != v)
  {
    var e := Erase(t, v);
    assert forall l :: 0 <= l < |t.l2p| && t.l2p[l].Some? ==> t.l2p[l].value.line != v by {
      forall l | 0 <= l < |t.l2p| && t.l2p[l].Some? ensures t.l2p[l].value.line != v {
        assert InRange(t, t.l2p[l].value) && t.l2p[l].value !in done && At(t, t.l2p[l].value).Live?;
      }
    }
    EraseOwned(t, v, done);
    EraseMap(t, v, done);
    hide Owned, LinesOk, Forward, Backward;
    assert v in e.free by { assert e.free[|t.free|] == v; }
    assert (|t.free| + 1) * t.cfg.L == |t.free| * t.cfg.L + t.cfg.L;
  }

  lemma EraseOwned(t: Flash, v: nat, done: set<Loc>)
    requires Core(t, {v}, done) && v < |t.lines|
    ensures var e := Erase(t, v); Shape(e) && Owned(e, {}) && LinesOk(e, e.user.idx, e.gc.idx)
  {
    var e := Erase(t, v);
    assert Places(t, {v}, v) == 1;
    AppendNoDup(t.free, v);
    assert e.free == t.free + [v];
    assert AllFree(e.lines[v]);
    hide NoDup, OpenAt, AllFree, AllLive, NoFree, Forward, Backward;
    forall l | 0 <= l < |e.lines| ensures Places(e, {}, l) == 1 { assert Places(t, {v}, l) == 1; }
  }

  lemma EraseMap(t: Flash, v: nat, done: set<Loc>)
    requires Core(t, {v}, done) && v < |t.lines|
    requires forall l :: 0 <= l < |t.l2p| && t.l2p[l].Some? ==> t.l2p[l].value.line != v
    ensures var e := Erase(t, v); Forward(e, {}) && Backward(e, {}) && SameHostView(t, e)
  {
    var e := Erase(t, v);
    hide Owned, LinesOk;
    assert AllFree(e.lines[v]);
    forall loc | InRange(t, loc) && loc.line != v ensures InRange(e, loc) && At(e, loc) == At(t, loc) {}
    forall loc | InRange(e, loc) && At(e, loc).Live?
      ensures At(e, loc).lpn < |e.l2p| && e.l2p[At(e, loc).lpn] == Some(loc)
    {
      assert loc.line != v && InRange(t, loc) && loc !in done && At(e, loc) == At(t, loc);
    }
    forall l: nat ensures Read(e, l) == Read(t, l) {}
  }

  /**
    do_gc. The host sees nothing; mappings off the victim stay and the victim's move to pages
    that were free; the victim ends up free and unmapped; the room given back is exactly the
    number of dead pages it held; and no step took a line from an empty list.
  */
  lemma GcTransparent(s: Flash, v: nat)
    requires Core(s, {}, {}) && OrderOk(s.cfg) && v in s.victims && Room(s) >= 2 * s.cfg.L + 1
    ensures var t := Gc(s, v);
            && Core(t, {}, {}) && t.cfg == s.cfg && t.dry == s.dry
            && SameHostView(s, t) && MovedOffVictim(s, t, v)
            && v < |t.lines| && AllFree(t.lines[v]) && v in t.free
            && (forall l :: 0 <= l < |t.l2p| && t.l2p[l].Some? ==> t.l2p[l].value.line != v)
            && Room(t) == Room(s) + Ipc(s.lines[v]) && 1 <= Ipc(s.lines[v]) <= s.cfg.L
  {
    VictimCounts(s, v);
    assert Shape(s);
    RoomIsEnough(s, Vpc(s.lines[v]));
    GcKeeps(s, v);
    hide Core, SameHostView, MovedOffVictim, Vpc, Ipc;
  }

  /** A victim has no free page and at least one dead one. */
  lemma VictimCounts(s: Flash, v: nat)
    requires Core(s, {}, {}) && v in s.victims
    ensures v < |s.lines| && |s.lines[v]| == s.cfg.L && NoFree(s.lines[v])
    ensures Vpc(s.lines[v]) + Ipc(s.lines[v]) == s.cfg.L && Ipc(s.lines[v]) >= 1
  {
    assert v < |s.lines| && NoFree(s.lines[v]) && !AllLive(s.lines[v]);
    NoFreeCounts(s.lines[v]);
    VpcFull(s.lines[v]);
    hide Vpc, Ipc;
  }

  /** The same with just enough lines. */
  lemma GcKeeps(s: Flash, v: nat)
    requires Core(s, {}, {}) && OrderOk(s.cfg) && v in s.victims && v < |s.lines| && Enough(s, Vpc(s.lines[v]))
    ensures var t := Gc(s, v);
            && Core(t, {}, {}) && t.cfg == s.cfg && t.dry == s.dry
            && SameHostView(s, t) && MovedOffVictim(s, t, v)
            && |t.lines| == |s.lines| && AllFree(t.lines[v]) && v in t.free
            && (forall l :: 0 <= l < |t.l2p| && t.l2p[l].Some? ==> t.l2p[l].value.line != v)
            && Room(t) == Room(s) + Ipc(s.lines[v])
  {
    var u := Select(s, v);
    SelectKeeps(s, v);
    VictimCounts(s, v);
    LiveAmongIsVpc(s.cfg, s.lines[v]);
    assert Shape(s);
    hide Core, OnlyFreeWritten, MovedOffVictim, SameHostView, Vpc, Ipc, LiveAmong;
    CopyPagesKeeps(u, v, s.cfg.order);
    var t := CopyPages(u, v, s.cfg.order);
    AllLiveCopied(u, v);
    EraseKeeps(t, v, Copied(u, v, s.cfg.order));
    ThroughErase(s, u, t, Erase(t, v), v);
  }

  lemma AllLiveCopied(u: Flash, v: nat)
    requires v < |u.lines| && OrderOk(u.cfg) && |u.lines[v]| == u.cfg.L
    ensures forall i :: 0 <= i < |u.lines[v]| && u.lines[v][i].Live? ==> Loc(v, i) in Copied(u, v, u.cfg.order)
  {
    forall i | 0 <= i < |u.lines[v]| && u.lines[v][i].Live? ensures Loc(v, i) in Copied(u, v, u.cfg.order) {
      assert i in u.cfg.order;
      var k :| 0 <= k < |u.cfg.order| && u.cfg.order[k] == i;
      assert LiveAt(u.lines[v], u.cfg.order[k]);
    }
  }

  lemma ThroughErase(s: Flash, u: Flash, t: Flash, e: Flash, v: nat)
    requires u.lines == s.lines && u.l2p == s.l2p && e.l2p == t.l2p
    requires MovedOffVictim(u, t, v) && SameHostView(u, t) && SameHostView(t, e)
    ensures SameHostView(s, e) && MovedOffVictim(s, e, v)
  {
    forall l: nat ensures Read(e, l) == Read(s, l) { assert Read(t, l) == Read(u, l); assert Read(e, l) == Read(t, l); }
  }
}
