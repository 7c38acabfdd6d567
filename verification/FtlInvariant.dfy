/** What every command keeps, and what stays true in the middle of garbage collection. */
module FtlInvariant {
  import opened Basics
  import opened LogMachine

  // ---- The invariant, in five parts ----

  ghost predicate Shape(s: Flash) {
    && s.cfg.L >= 1 && |s.lines| == s.cfg.lines
    && (forall l :: 0 <= l < |s.lines| ==> |s.lines[l]| == s.cfg.L)
    && InRange(s, s.user) && InRange(s, s.gc)
  }

  /** In how many places line l is; `out` is the victim GC is working on, if any. */
  ghost function Places(s: Flash, out: set<nat>, l: nat): nat {
    (if l in s.free then 1 else 0) + (if l in s.full then 1 else 0) + (if l in s.victims then 1 else 0)
    + (if l in out then 1 else 0) + (if l == s.user.line then 1 else 0) + (if l == s.gc.line then 1 else 0)
  }

  /** Every line has exactly one place. */
  ghost predicate Owned(s: Flash, out: set<nat>) {
    && NoDup(s.free) && NoDup(s.full)
    && (forall l :: l in s.free || l in s.full || l in s.victims || l in out ==> l < |s.lines|)
    && (forall l :: 0 <= l < |s.lines| ==> Places(s, out, l) == 1)
  }

  ghost predicate AllFree(line: seq<Page>) { forall i :: 0 <= i < |line| ==> line[i].Free? }

  ghost predicate AllLive(line: seq<Page>) { forall i :: 0 <= i < |line| ==> line[i].Live? }

  ghost predicate NoFree(line: seq<Page>) { forall i :: 0 <= i < |line| ==> !line[i].Free? }

  /** Pages before k are written, pages from k on are free. */
  ghost predicate OpenAt(line: seq<Page>, k: nat) {
    k <= |line| && forall i :: 0 <= i < |line| ==> (line[i].Free? <==> k <= i)
  }

  /** What a line holds follows from its place; uk and gk say how far the open lines are filled. */
  ghost predicate LinesOk(s: Flash, uk: nat, gk: nat) {
    && (forall l :: l in s.free && l < |s.lines| ==> AllFree(s.lines[l]))
    && (forall l :: l in s.full && l < |s.lines| ==> AllLive(s.lines[l]))
    && (forall l :: l in s.victims && l < |s.lines| ==> NoFree(s.lines[l]) && !AllLive(s.lines[l]))
    && (s.user.line < |s.lines| ==> OpenAt(s.lines[s.user.line], uk))
    && (s.gc.line < |s.lines| ==> OpenAt(s.lines[s.gc.line], gk))
  }

  ghost function At(s: Flash, loc: Loc): Page
    requires InRange(s, loc)
  {
    s.lines[loc.line][loc.idx]
  }

  /** A mapping entry points to a live page that records it and that GC has not copied yet. */
  ghost predicate Forward(s: Flash, done: set<Loc>) {
    forall l :: 0 <= l < |s.l2p| && s.l2p[l].Some? ==>
      && InRange(s, s.l2p[l].value) && s.l2p[l].value !in done
      && At(s, s.l2p[l].value).Live? && At(s, s.l2p[l].value).lpn == l
  }

  /** A live page that GC has not copied is the one its logical page maps to. */
  ghost predicate Backward(s: Flash, done: set<Loc>) {
    forall loc :: InRange(s, loc) && loc !in done && At(s, loc).Live? ==>
      At(s, loc).lpn < |s.l2p| && s.l2p[At(s, loc).lpn] == Some(loc)
  }

  ghost predicate Core(s: Flash, out: set<nat>, done: set<Loc>) {
    && Shape(s) && Owned(s, out) && LinesOk(s, s.user.idx, s.gc.idx)
    && (forall loc :: loc in done ==> loc.line in out)
    && Forward(s, done) && Backward(s, done)
  }

  /** Core without the mapping: every line is in its place and holds what the place says. */
  ghost predicate InPlace(s: Flash, out: set<nat>) {
    Shape(s) && Owned(s, out) && LinesOk(s, s.user.idx, s.gc.idx)
  }

  /** The same just after a page was put at io's write pointer and before that pointer advances. */
  ghost predicate InPlaceAfterPut(s: Flash, out: set<nat>, io: Io) {
    Shape(s) && Owned(s, out) && LinesOk(s, Fill(s, io, UserIo), Fill(s, io, GcIo))
  }

  /** Pages that can still be programmed before a line has to be reclaimed. */
  ghost function Room(s: Flash): int {
    |s.free| * s.cfg.L + (s.cfg.L - s.user.idx) + (s.cfg.L - s.gc.idx)
  }

  /** Room left for the credits already granted, and enough to reclaim a line afterwards. */
  ghost predicate Funded(s: State) {
    Room(s.flash) >= s.credits + 2 * s.flash.cfg.L + 1
  }

  ghost predicate OrderOk(cfg: Config) {
    && NoDup(cfg.order) && (forall i :: i in cfg.order <==> 0 <= i < cfg.L)
  }

  /** The invariant between host commands. */
  ghost predicate Inv(s: State) {
    && Core(s.flash, {}, {}) && OrderOk(s.flash.cfg) && Funded(s)
    && 1 <= s.credits && 1 <= s.refill <= s.flash.cfg.L
    && !s.flash.dry
  }

  // ---- Counters and contents ----

  lemma VpcFull(line: seq<Page>)
    ensures Vpc(line) == |line| <==> AllLive(line)
  {
    CountAll(Statuses(line), PgValid);
    if AllLive(line) {
      assert forall i :: 0 <= i < |line| ==> Statuses(line)[i] == PgValid;
    }
    if Vpc(line) == |line| {
      forall i | 0 <= i < |line| ensures line[i].Live? { assert Statuses(line)[i] == PgValid; }
    }
  }

  lemma {:induction false} NoFreeCounts(line: seq<Page>)
    requires NoFree(line)
    ensures Vpc(line) + Ipc(line) == |line|
  {
    if line != [] {
      var init := line[..|line| - 1];
      assert Statuses(line)[..|line| - 1] == Statuses(init);
      NoFreeCounts(init);
    }
  }

  // ---- Steps ----

  /** Overwriting the page of a mapped logical page: everything stays in place. */
  lemma InvalidateOwned(s: Flash, loc: Loc)
    requires Core(s, {}, {}) && InRange(s, loc) && At(s, loc).Live?
    ensures Shape(Invalidate(s, loc)) && Owned(Invalidate(s, loc), {})
    ensures |Invalidate(s, loc).free| == |s.free|
  {
    hide LinesOk, Forward, Backward, Vpc, AllLive;
    var t := Invalidate(s, loc);
    VpcFull(s.lines[loc.line]);
    WithoutKeepsNoDup(s.full, loc.line);
    if AllLive(s.lines[loc.line]) { FullIsListed(s, loc.line); }
    forall l | 0 <= l < |t.lines| ensures Places(t, {}, l) == 1 { assert Places(s, {}, l) == 1; }
  }

  /** Outside GC, a line all of whose pages are valid is on the full list. */
  lemma FullIsListed(s: Flash, line: nat)
    requires Core(s, {}, {}) && line < |s.lines| && AllLive(s.lines[line])
    ensures line in s.full
  {
    assert s.lines[line][0].Live?;
    assert At(s, s.user).Free? && At(s, s.gc).Free?;
    assert Places(s, {}, line) == 1;
  }

  lemma InvalidateLines(s: Flash, loc: Loc)
    requires Core(s, {}, {}) && InRange(s, loc) && At(s, loc).Live?
    ensures LinesOk(Invalidate(s, loc), s.user.idx, s.gc.idx)
  {
    hide Forward, Backward, Vpc;
    var t := Invalidate(s, loc);
    VpcFull(s.lines[loc.line]);
    if AllLive(s.lines[loc.line]) { FullIsListed(s, loc.line); }
    forall l | 0 <= l < |s.lines| && l != loc.line ensures t.lines[l] == s.lines[l] {}
    assert t.lines[loc.line] == s.lines[loc.line][loc.idx := Dead];
    assert !AllLive(t.lines[loc.line]) by { assert t.lines[loc.line][loc.idx].Dead?; }
  }

  lemma InvalidateMap(s: Flash, lpn: nat)
    requires Core(s, {}, {}) && lpn < |s.l2p| && s.l2p[lpn].Some?
    ensures var t := Invalidate(s, s.l2p[lpn].value).(l2p := s.l2p[lpn := None]);
            Forward(t, {}) && Backward(t, {})
  {
    hide Owned, LinesOk, Vpc;
    var t := Invalidate(s, s.l2p[lpn].value).(l2p := s.l2p[lpn := None]);
    forall loc | InRange(t, loc) && At(t, loc).Live?
      ensures At(t, loc).lpn < |t.l2p| && t.l2p[At(t, loc).lpn] == Some(loc)
    {
      assert InRange(s, loc) && At(s, loc) == At(t, loc);
    }
  }

  ghost function Fill(s: Flash, io: Io, who: Io): nat {
    if who == io then Wp(s, who).idx + 1 else Wp(s, who).idx
  }

  lemma PutLines(s: Flash, out: set<nat>, io: Io, lpn: nat, data: int)
    requires InPlace(s, out) && lpn < |s.l2p|
    ensures InPlaceAfterPut(Put(s, io, lpn, data), out, io)
  {
    hide Forward, Backward;
    var p, w := Put(s, io, lpn, data), Wp(s, io);
    forall l | 0 <= l < |s.lines| && l != w.line ensures p.lines[l] == s.lines[l] {}
    assert p.lines[w.line] == s.lines[w.line][w.idx := Live(lpn, data)];
    assert Places(s, out, s.user.line) == 1 && Places(s, out, s.gc.line) == 1;
    forall l | 0 <= l < |p.lines| ensures Places(p, out, l) == 1 { assert Places(s, out, l) == 1; }
  }

  lemma PutMap(s: Flash, out: set<nat>, done: set<Loc>, io: Io, lpn: nat, data: int)
    requires Core(s, out, done) && lpn < |s.l2p| && s.l2p[lpn].None?
    ensures var p := Put(s, io, lpn, data); Forward(p, done) && Backward(p, done)
  {
    var p, w := Put(s, io, lpn, data), Wp(s, io);
    assert At(s, s.user).Free? && At(s, s.gc).Free?;
    assert Places(s, out, s.user.line) == 1 && Places(s, out, s.gc.line) == 1;
    assert w !in done;
    hide Owned, LinesOk;
    forall l | 0 <= l < |p.l2p| && p.l2p[l].Some?
      ensures InRange(p, p.l2p[l].value) && At(p, p.l2p[l].value).Live? && At(p, p.l2p[l].value).lpn == l
    {
      if l != lpn { assert At(p, p.l2p[l].value) == At(s, s.l2p[l].value); }
    }
    forall loc | InRange(p, loc) && loc !in done && At(p, loc).Live?
      ensures At(p, loc).lpn < |p.l2p| && p.l2p[At(p, loc).lpn] == Some(loc)
    {
      if loc != w { assert InRange(s, loc) && At(p, loc) == At(s, loc); }
    }
  }

  /** Advancing after a page was put: all is in place again, one page of room is gone. */
  lemma AdvanceKeeps(p: Flash, out: set<nat>, io: Io)
    requires Shape(p) && Owned(p, out) && LinesOk(p, Fill(p, io, UserIo), Fill(p, io, GcIo))
    requires Wp(p, io).idx + 1 == p.cfg.L ==> p.free != []
    ensures var t := Advance(p, io);
            && Shape(t) && Owned(t, out) && LinesOk(t, t.user.idx, t.gc.idx)
            && Room(t) == Room(p) - 1 && t.dry == p.dry
            && t.lines == p.lines && t.l2p == p.l2p && t.cfg == p.cfg
  {
    var t, w := Advance(p, io), Wp(p, io);
    if w.idx + 1 == p.cfg.L {
      hide Vpc;
      AdvanceOwned(p, out, io);
      AdvanceLines(p, out, io);
      hide Owned, LinesOk;
      assert (|p.free| - 1) * p.cfg.L == |p.free| * p.cfg.L - p.cfg.L;
    } else {
      AdvanceInLine(p, out, io);
    }
  }

  lemma AdvanceInLine(p: Flash, out: set<nat>, io: Io)
    requires Shape(p) && Owned(p, out) && LinesOk(p, Fill(p, io, UserIo), Fill(p, io, GcIo))
    requires Wp(p, io).idx + 1 < p.cfg.L
    ensures var t := Advance(p, io); Owned(t, out) && LinesOk(t, t.user.idx, t.gc.idx)
  {
    hide NoDup, OpenAt, AllFree, AllLive, NoFree;
    var t := Advance(p, io);
    forall l | 0 <= l < |t.lines| ensures Places(t, out, l) == 1 { assert Places(p, out, l) == 1; }
  }

  lemma AdvanceOwned(p: Flash, out: set<nat>, io: Io)
    requires Shape(p) && Owned(p, out)
    requires Wp(p, io).idx + 1 == p.cfg.L && p.free != []
    ensures Shape(Advance(p, io)) && Owned(Advance(p, io), out)
  {
    hide Vpc;
    var t, w := Advance(p, io), Wp(p, io);
    TailNoDup(p.free);
    var f := p.free[0];
    assert f in p.free;
    assert Places(p, out, w.line) == 1 && Places(p, out, f) == 1;
    if Vpc(p.lines[w.line]) == p.cfg.L { AppendNoDup(p.full, w.line); }
    hide NoDup;
    forall l | 0 <= l < |t.lines| ensures Places(t, out, l) == 1 { assert Places(p, out, l) == 1; }
  }

  lemma AdvanceLines(p: Flash, out: set<nat>, io: Io)
    requires Shape(p) && Owned(p, out) && LinesOk(p, Fill(p, io, UserIo), Fill(p, io, GcIo))
    requires Wp(p, io).idx + 1 == p.cfg.L && p.free != []
    ensures var t := Advance(p, io); LinesOk(t, t.user.idx, t.gc.idx)
  {
    hide Vpc;
    var t, w := Advance(p, io), Wp(p, io);
    VpcFull(p.lines[w.line]);
    TailNoDup(p.free);
    var f := p.free[0];
    assert f in p.free;
    hide NoDup;
    assert NoFree(p.lines[w.line]) && OpenAt(p.lines[f], 0);
    assert Places(p, out, w.line) == 1 && Places(p, out, f) == 1;
  }

  /** Programming a page at either write pointer, room permitting, keeps the core invariant. */
  lemma ProgramKeeps(s: Flash, out: set<nat>, done: set<Loc>, io: Io, lpn: nat, data: int)
    requires Core(s, out, done) && lpn < |s.l2p| && s.l2p[lpn].None?
    requires Wp(s, io).idx + 1 == s.cfg.L ==> s.free != []
    ensures var t := Program(s, io, lpn, data);
            && Core(t, out, done) && Room(t) == Room(s) - 1
            && t.dry == s.dry && t.cfg == s.cfg
            && t.l2p == s.l2p[lpn := Some(Wp(s, io))]
            && t.lines == Put(s, io, lpn, data).lines
  {
    hide LinesOk, Owned, Forward, Backward;
    PutLines(s, out, io, lpn, data);
    PutMap(s, out, done, io, lpn, data);
    AdvanceKeeps(Put(s, io, lpn, data), out, io);
    SameMapping(Put(s, io, lpn, data), Program(s, io, lpn, data), done);
  }

  lemma SameMapping(p: Flash, t: Flash, done: set<Loc>)
    requires Forward(p, done) && Backward(p, done) && t.lines == p.lines && t.l2p == p.l2p
    ensures Forward(t, done) && Backward(t, done)
  {
    forall loc | InRange(t, loc) ensures At(t, loc) == At(p, loc) {}
  }

  // ---- One host write, up to the credit check ----

  /** A free line is there whenever the write pointer is about to need one. */
  ghost predicate LineLeft(f: Flash, io: Io) {
    Wp(f, io).idx + 1 == f.cfg.L ==> f.free != []
  }

  /** A funded machine never takes a line from an empty free list. */
  lemma FundedHasFreeLine(s: Flash, io: Io)
    requires Shape(s) && Room(s) >= s.cfg.L + 2
    ensures LineLeft(s, io)
  {}

  lemma UserWriteKeeps(s: Flash, lpn: nat, data: int)
    requires Core(s, {}, {}) && lpn < |s.l2p| && LineLeft(s, UserIo) && !s.dry
    ensures Writable(s, lpn)
    ensures var t := UserWrite(s, lpn, data);
            && Core(t, {}, {}) && Room(t) == Room(s) - 1 && !t.dry && t.cfg == s.cfg
            && t.l2p == s.l2p[lpn := Some(s.user)]
            && Read(t, lpn) == Some(data)
            && forall l :: 0 <= l < |s.l2p| && l != lpn ==> Read(t, l) == Read(s, l)
  {
    if s.l2p[lpn].Some? {
      UserWriteOverMapped(s, lpn, data);
    } else {
      UserWriteOnUnmapped(s, s, lpn, data);
    }
  }

  lemma UserWriteOverMapped(s: Flash, lpn: nat, data: int)
    requires Core(s, {}, {}) && lpn < |s.l2p| && LineLeft(s, UserIo) && !s.dry && s.l2p[lpn].Some?
    ensures var t := UserWrite(s, lpn, data);
            && Core(t, {}, {}) && Room(t) == Room(s) - 1 && !t.dry && t.cfg == s.cfg
            && t.l2p == s.l2p[lpn := Some(s.user)]
            && Read(t, lpn) == Some(data)
            && forall l :: 0 <= l < |s.l2p| && l != lpn ==> Read(t, l) == Read(s, l)
  {
    assert Forward(s, {});
    hide Vpc, LinesOk, Owned, Backward, Advance, Places, Room;
    var loc := s.l2p[lpn].value;
    assert InRange(s, loc) && At(s, loc).Live? && At(s, loc).lpn == lpn;
    hide Forward;
    InvalidateOwned(s, loc);
    InvalidateLines(s, loc);
    InvalidateMap(s, lpn);
    var i := Invalidate(s, loc);
    var u := i.(l2p := s.l2p[lpn := None]);
    UnmappingKeepsPlaces(i, u);
    UserWriteOnUnmapped(s, u, lpn, data);
    assert Put(i, UserIo, lpn, data) == Put(u, UserIo, lpn, data);
  }

  lemma UnmappingKeepsPlaces(t: Flash, u: Flash)
    requires Shape(t) && Owned(t, {}) && LinesOk(t, t.user.idx, t.gc.idx)
    requires u == t.(l2p := u.l2p)
    ensures Shape(u) && Owned(u, {}) && LinesOk(u, u.user.idx, u.gc.idx)
  {
    forall l | 0 <= l < |u.lines| ensures Places(u, {}, l) == 1 { assert Places(t, {}, l) == 1; }
  }

  lemma UserWriteOnUnmapped(s: Flash, u: Flash, lpn: nat, data: int)
    requires Core(s, {}, {}) && lpn < |s.l2p| && LineLeft(s, UserIo)
    requires Core(u, {}, {}) && u.l2p == s.l2p[lpn := None]
    requires u.user == s.user && u.gc == s.gc && |u.free| == |s.free| && u.cfg == s.cfg && !u.dry
    requires forall loc :: InRange(s, loc) && Some(loc) != s.l2p[lpn] ==> InRange(u, loc) && At(u, loc) == At(s, loc)
    ensures var t := Program(u, UserIo, lpn, data);
            && Core(t, {}, {}) && Room(t) == Room(s) - 1 && !t.dry && t.cfg == s.cfg
            && t.l2p == s.l2p[lpn := Some(s.user)] && Read(t, lpn) == Some(data)
            && forall l :: 0 <= l < |s.l2p| && l != lpn ==> Read(t, l) == Read(s, l)
  {
    hide Owned, LinesOk, Backward, Program;
    ProgramKeeps(u, {}, {}, UserIo, lpn, data);
    OpenPagesAreFree(u, {}, {});
    var t := Program(u, UserIo, lpn, data);
    forall l | 0 <= l < |s.l2p| && l != lpn ensures Read(t, l) == Read(s, l) {
      if s.l2p[l].Some? {
        var loc := s.l2p[l].value;
        assert At(s, loc).lpn == l && Some(loc) != s.l2p[lpn];
        assert At(u, loc) == At(s, loc) && loc != u.user;
        assert At(t, loc) == At(u, loc);
      }
    }
  }

  /** The page a write pointer is at is always free. */
  lemma OpenPagesAreFree(s: Flash, out: set<nat>, done: set<Loc>)
    requires Core(s, out, done)
    ensures At(s, s.user).Free? && At(s, s.gc).Free?
  {}
}
