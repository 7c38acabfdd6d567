/**
  The bound of RunsAreCorrect is tight: with one page more than all lines but four hold, a host can run every
  device of at least 17 lines of at least 5 pages dry, whatever victims garbage collection picks.
*/
module FtlBound {
  import opened Basics
  import opened LogMachine
  import opened FtlInvariant
  import opened FtlGc
  import opened FtlRuns
  import opened FtlDeads
  import opened FtlCapacity

  /** A host that writes only the first `pages` logical pages can make the device run dry, whatever its choices. */
  least predicate Doomed(s: State, pages: nat) {
    s.flash.dry || exists lpn: nat :: lpn < pages && Writable(s.flash, lpn) && Answers(s, lpn)
                     && forall t :: WriteStep(s, lpn, 0, t) ==> Doomed(t, pages)
  }

  /** The device can execute the write. */
  ghost predicate Answers(s: State, lpn: nat) { exists t :: WriteStep(s, lpn, 0, t) }

  // ---- One move of the host ----

  /** The pages mapped are the first m. */
  ghost predicate Ready(s: State, m: nat) {
    && Core(s.flash, {}, {}) && OrderOk(s.flash.cfg) && !s.flash.dry && m <= |s.flash.l2p|
    && forall l :: 0 <= l < |s.flash.l2p| ==> (s.flash.l2p[l].Some? <==> l < m)
  }

  /** The state before the credit check. */
  ghost function Spent(s: State, lpn: nat): State
    requires Writable(s.flash, lpn)
  {
    State(UserWrite(s.flash, lpn, 0), s.credits - 1, s.refill)
  }

  lemma SomeBestVictim(f: Flash, some: set<nat>) returns (v: nat)
    requires some != {} && forall u :: u in some ==> u < |f.lines|
    ensures v in some && forall u :: u in some ==> Vpc(f.lines[v]) <= Vpc(f.lines[u])
    decreases |some|
  {
    v :| v in some;
    if some != {v} {
      hide Vpc;
      var w := SomeBestVictim(f, some - {v});
      if Vpc(f.lines[w]) < Vpc(f.lines[v]) { v := w; }
    }
  }

  lemma CanRefill(u: State) returns (t: State)
    requires Core(u.flash, {}, {})
    ensures RefillCredit(u, t)
  {
    t := u;
    if u.credits <= 0 {
      var g := u;
      if |u.flash.free| <= GC_THRES_LINES_HIGH && u.flash.victims != {} {
        assert forall l :: l in u.flash.victims ==> l < |u.flash.lines|;
        var v := SomeBestVictim(u.flash, u.flash.victims);
        g := State(Gc(u.flash, v), u.credits, Ipc(u.flash.lines[v]));
        assert Collected(u, v, g);
      }
      assert ForegroundGc(u, g);
      t := g.(credits := g.credits + g.refill);
    }
  }

  /** The host overwrites some page of line l. */
  lemma Play(s: State, m: nat, l: nat) returns (lpn: nat)
    requires Ready(s, m) && LineLeft(s.flash, UserIo)
    requires l < |s.flash.lines| && Deads(s.flash)[l] < FilledTo(s.flash, l)
    ensures lpn < m && Writable(s.flash, lpn) && Wrote(s.flash, l, UserWrite(s.flash, lpn, 0)) && Answers(s, lpn)
    ensures Ready(Spent(s, lpn), m)
  {
    hide Core, Deads, Vpc, Ipc, OrderOk;
    lpn := PageOn(s.flash, l);
    Overwrite(s.flash, lpn, 0);
    hide UserWrite, UserMoved;
    var t := CanRefill(Spent(s, lpn));
    assert WriteStep(s, lpn, 0, t);
  }

  lemma Continue(s: State, m: nat, lpn: nat)
    requires lpn < m && Writable(s.flash, lpn) && Answers(s, lpn)
    requires forall t :: WriteStep(s, lpn, 0, t) ==> Doomed(t, m)
    ensures Doomed(s, m)
  {}

  /** Out of credit with lines enough or nothing to collect: the last collection's credits are granted again. */
  lemma GrantedAgain(u: State, t: State)
    requires RefillCredit(u, t) && u.credits == 0 && (|u.flash.free| > GC_THRES_LINES_HIGH || u.flash.victims == {})
    ensures t == u.(credits := u.refill)
  {}

  lemma Collects(u: State, t: State) returns (v: nat)
    requires RefillCredit(u, t) && u.credits == 0 && |u.flash.free| <= GC_THRES_LINES_HIGH && u.flash.victims != {}
    ensures v in u.flash.victims && v < |u.flash.lines|
    ensures t == State(Gc(u.flash, v), Ipc(u.flash.lines[v]), Ipc(u.flash.lines[v]))
  {
    var g :| ForegroundGc(u, g) && t == g.(credits := g.credits + g.refill);
    v :| Collected(u, v, g);
  }

  // ---- Bookkeeping ----

  /** Free lines, fill and dead pages of the two open lines, all dead pages, credits. */
  datatype Count = Count(free: int, user: int, gc: int, userDead: int, gcDead: int, total: int, credits: int, refill: int)

  ghost predicate Is(s: State, k: Count) {
    && |s.flash.free| == k.free && s.flash.user.idx == k.user && s.flash.gc.idx == k.gc
    && s.flash.user.line < |s.flash.lines| && s.flash.gc.line < |s.flash.lines| && s.flash.user.line != s.flash.gc.line
    && Deads(s.flash)[s.flash.user.line] == k.userDead && Deads(s.flash)[s.flash.gc.line] == k.gcDead
    && Sum(Deads(s.flash)) == k.total && s.credits == k.credits && s.refill == k.refill
  }

  /** A page of line l overwritten, the user's line not used up by it. */
  lemma InLine(s: State, m: nat, k: Count, l: nat, lpn: nat)
    requires Ready(s, m) && Is(s, k) && k.user + 1 < s.flash.cfg.L
    requires Writable(s.flash, lpn) && Wrote(s.flash, l, UserWrite(s.flash, lpn, 0))
    ensures Is(Spent(s, lpn), k.(user := k.user + 1, total := k.total + 1, credits := k.credits - 1,
              userDead := if l == s.flash.user.line then k.userDead + 1 else k.userDead,
              gcDead := if l == s.flash.gc.line then k.gcDead + 1 else k.gcDead))
    ensures var u := Spent(s, lpn).flash;
            && u.victims == Marked(s.flash, l) && u.gc == s.flash.gc && u.user.line == s.flash.user.line
            && u.free == s.flash.free && Deads(u) == Deads(s.flash)[l := Deads(s.flash)[l] + 1] && u.cfg == s.flash.cfg
  {
    hide Core, Ready, Ipc, Deads, UserWrite;
    SumUpdate(Deads(s.flash), l, Deads(s.flash)[l] + 1);
  }

  lemma IsCore(s: State, m: nat)
    requires Ready(s, m)
    ensures Core(s.flash, {}, {}) && OrderOk(s.flash.cfg) && !s.flash.dry
  {}

  /** A page of line l overwritten, and the user's line is used up. */
  lemma UsingUp(s: State, m: nat, k: Count, l: nat, lpn: nat)
    requires Ready(s, m) && Is(s, k) && k.user + 1 == s.flash.cfg.L && l !in s.flash.free
    requires Writable(s.flash, lpn) && Wrote(s.flash, l, UserWrite(s.flash, lpn, 0))
    ensures k.free >= 1
    ensures Is(Spent(s, lpn), k.(free := k.free - 1, user := 0, userDead := 0, total := k.total + 1, credits := k.credits - 1,
              gcDead := if l == s.flash.gc.line then k.gcDead + 1 else k.gcDead))
    ensures var u := Spent(s, lpn).flash;
            && u.gc == s.flash.gc && u.user.line != s.flash.user.line && s.flash.user.line !in u.free
            && Deads(u) == Deads(s.flash)[l := Deads(s.flash)[l] + 1] && u.cfg == s.flash.cfg
            && u.victims == if l == s.flash.user.line || k.userDead > 0 then Marked(s.flash, l) + {s.flash.user.line} else Marked(s.flash, l)
  {
    hide Core, Ready, Ipc, Deads, UserWrite;
    IsCore(s, m);
    NextIsUnused(s.flash);
    OpenLinesDiffer(s.flash);
    OpenLinesDiffer(UserWrite(s.flash, lpn, 0));
    SumUpdate(Deads(s.flash), l, Deads(s.flash)[l] + 1);
  }

  lemma NextIsUnused(f: Flash)
    requires Core(f, {}, {})
    ensures f.free != [] ==> f.free[0] < |f.lines| && Deads(f)[f.free[0]] == 0 && !Open(f, f.free[0]) && f.free[0] !in f.victims
  {
    if f.free != [] {
      assert f.free[0] in f.free && Places(f, {}, f.free[0]) == 1;
      NoDeads(f, f.free[0]);
    }
  }

  lemma OpenLinesDiffer(f: Flash)
    requires Core(f, {}, {})
    ensures f.user.line != f.gc.line && f.user.line < |f.lines| && f.gc.line < |f.lines|
    ensures f.user.line !in f.free && f.gc.line !in f.free && f.user.line !in f.victims && f.gc.line !in f.victims
    ensures f.user.idx < f.cfg.L && f.gc.idx < f.cfg.L
  {
    assert Places(f, {}, f.user.line) == 1 && Places(f, {}, f.gc.line) == 1;
  }

  /** The one victim there is is collected, and its pages fit into GC's open line. */
  lemma OneCollected(u: State, m: nat, k: Count, v: nat, t: State)
    requires Ready(u, m) && Is(u, k) && k.credits == 0 && k.free <= GC_THRES_LINES_HIGH && u.flash.victims == {v}
    requires RefillCredit(u, t) && v < |u.flash.lines| && k.gc < Deads(u.flash)[v]
    ensures Ready(t, m) && t.flash.victims == {} && t.flash.cfg == u.flash.cfg
    ensures var d := Deads(u.flash)[v];
            1 <= d <= k.total && Is(t, k.(free := k.free + 1, gc := k.gc + u.flash.cfg.L - d, total := k.total - d, credits := d, refill := d))
  {
    hide Core, Ready, Ipc, Deads, Gc, OrderOk;
    IsCore(u, m);
    OpenLinesDiffer(u.flash);
    var w := Collects(u, t);
    CleanReady(u, m, v, t);
    SumUpdate(Deads(u.flash), v, 0);
  }

  lemma CleanReady(u: State, m: nat, v: nat, t: State)
    requires Ready(u, m) && v in u.flash.victims && v < |u.flash.lines| && t.flash == Gc(u.flash, v)
    requires Enough(u.flash, u.flash.cfg.L - Deads(u.flash)[v])
    ensures Ready(t, m) && Cleaned(u.flash, v, t.flash) && Deads(u.flash)[v] == Ipc(u.flash.lines[v])
  {
    hide Core, OrderOk, Ipc, Gc;
    Clean(u.flash, v);
  }

  // ---- The end game: too little room, and dead pages spread thinly ----

  /** Enough lines that so few dead pages leave one with fewer than d of them. */
  ghost predicate Sized(cfg: Config, m: nat, d: nat) {
    && cfg.L >= 5 && cfg.lines >= 5 && m == (cfg.lines - 4) * cfg.L + 1
    && 1 <= d && 2 * d <= cfg.L - 3 && d * (cfg.lines - 4) > 3 * cfg.L - 6
  }

  /** Less room than a collection may need, L - 4 pages short of two lines, once the credits are used up. */
  ghost predicate Short(s: State, m: nat, d: nat) {
    && Ready(s, m) && Sized(s.flash.cfg, m, d) && 0 <= s.credits <= s.flash.cfg.L
    && Sum(Deads(s.flash)) + s.credits <= 3 * s.flash.cfg.L - 5 && Room(s.flash) == s.flash.cfg.L + 4 + s.credits
  }

  /** How far the user's pointer is, at the next credit check, from where a collection finds no line. */
  ghost function Phase(f: Flash, credits: int, d: nat): nat {
    var at := f.user.idx + credits;
    var used := at >= f.cfg.L;
    var lines, idx := if used then |f.free| - 1 else |f.free|, if used then at - f.cfg.L else at;
    if lines >= 1 then (if f.cfg.L > idx then f.cfg.L - idx else 0) else if idx < d then 0 else f.cfg.L + 1
  }

  lemma FewFree(s: State, m: nat, d: nat)
    requires Short(s, m, d)
    ensures |s.flash.free| <= 2 && (s.credits == 0 ==> |s.flash.free| <= 1)
    ensures s.credits >= 1 ==> LineLeft(s.flash, UserIo)
    ensures |s.flash.free| == 0 ==> s.flash.user.idx + s.flash.gc.idx == s.flash.cfg.L - 4 - s.credits
    ensures |s.flash.free| == 1 ==> s.flash.user.idx + s.flash.gc.idx == 2 * s.flash.cfg.L - 4 - s.credits
  {
    IsCore(s, m);
    OpenLinesDiffer(s.flash);
    var f, L := |s.flash.free|, s.flash.cfg.L;
    hide Ready, Core, Sum, Deads;
    if f >= 3 { MulMono(3, f, L); }
  }

  /** The closed lines: all but the free and the two open ones. */
  lemma ClosedLines(f: Flash) returns (closed: set<nat>)
    requires Core(f, {}, {})
    ensures |closed| == |f.lines| - |f.free| - 2 && |f.lines| == f.cfg.lines
    ensures forall l :: l in closed ==> l < |f.lines| && !Open(f, l) && l !in f.free
  {
    assert NoDup(f.free) && NoDup(f.full) && |f.lines| == f.cfg.lines;
    hide Core, NoDup, LinesOk, Forward, Backward, Places;
    var free, full := Members(f.free), Members(f.full);
    NoDupSize(f.free);
    NoDupSize(f.full);
    AllPlaced(f, free, full);
    closed := full + f.victims;
    FullApart(f, full);
  }

  lemma FullApart(f: Flash, full: set<nat>)
    requires Core(f, {}, {}) && forall l :: l in full ==> l in f.full
    ensures |full + f.victims| == |full| + |f.victims|
    ensures forall l :: l in full + f.victims ==> l < |f.lines| && !Open(f, l) && l !in f.free
  {
    forall l | l in full + f.victims ensures l < |f.lines| && !Open(f, l) && l !in f.free { assert Places(f, {}, l) == 1; }
    forall l | l in full ensures l !in f.victims { assert Places(f, {}, l) == 1; }
    hide Core;
    DisjointSize(full, f.victims);
  }

  lemma ThinLine(s: State, m: nat, d: nat) returns (l: nat)
    requires Short(s, m, d) && s.credits >= 1
    ensures l < |s.flash.lines| && !Open(s.flash, l) && l !in s.flash.free && Deads(s.flash)[l] < d < s.flash.cfg.L
  {
    hide Ready, Core, Deads, Sum, Open, Sized, Room, OrderOk;
    FewFree(s, m, d);
    IsCore(s, m);
    var closed := ClosedLines(s.flash);
    var q := Deads(s.flash);
    if forall i :: i in closed ==> q[i] >= d {
      SumAtLeast(q, closed, d);
      TooThin(s.flash.cfg, m, d, |closed|);
      assert false;
    }
    l :| l in closed && q[l] < d;
    assert d < s.flash.cfg.L by { SizedIsLarge(s.flash.cfg, m, d); }
  }

  lemma TooThin(cfg: Config, m: nat, d: nat, lines: nat)
    requires Sized(cfg, m, d) && lines >= cfg.lines - 4
    ensures d * lines > 3 * cfg.L - 6
  {
    MulMono(cfg.lines - 4, lines, d);
  }

  /** Writing a page of a line with few dead pages changes nothing but the credits. */
  lemma ThinWrite(s: State, m: nat, d: nat, l: nat, lpn: nat)
    requires Short(s, m, d) && s.credits >= 1 && l < |s.flash.lines| && Deads(s.flash)[l] < d
    requires Writable(s.flash, lpn) && Wrote(s.flash, l, UserWrite(s.flash, lpn, 0)) && Ready(Spent(s, lpn), m)
    ensures var u := Spent(s, lpn);
            && Short(u, m, d) && Over(Deads(u.flash), d) == Over(Deads(s.flash), d)
            && Phase(u.flash, u.credits, d) == Phase(s.flash, s.credits, d)
  {
    hide Core, Ready, Deads, Sum, Over, UserWrite, Marked, Room, OrderOk, SameMapped;
    IsCore(s, m);
    OpenLinesDiffer(s.flash);
    var q := Deads(s.flash);
    SumUpdate(q, l, q[l] + 1);
    OverUpdate(q, l, q[l] + 1, d);
  }

  /** Out of credit and short of room there is always something to collect. */
  lemma ShortHasVictim(u: State, m: nat, d: nat)
    requires Short(u, m, d) && u.credits == 0
    ensures u.flash.victims != {}
  {
    hide Core, Ready, Deads, Sum, Room, OrderOk, Mapped;
    if u.flash.victims == {} {
      IsCore(u, m);
      FewFree(u, m, d);
      FullListIsLong(u.flash);
      FullLinesAreMapped(u.flash);
      MappedSize(u, m);
      var n, L := u.flash.cfg.lines, u.flash.cfg.L;
      MulMono(n - 3, |u.flash.full|, L);
      assert false;
    }
  }

  lemma MappedSize(s: State, m: nat)
    requires Ready(s, m)
    ensures |Mapped(s.flash.l2p)| == m
  {
    assert Mapped(s.flash.l2p) == UpTo(m);
  }

  /** A collection: a line with more than d dead pages less, or the pointer further on its way. */
  lemma ThinRound(u: State, m: nat, d: nat, v: nat, t: State)
    requires Short(u, m, d) && u.credits == 0 && v in u.flash.victims && v < |u.flash.lines|
    requires u.flash.free == [] ==> u.flash.gc.idx < Deads(u.flash)[v]
    requires t == State(Gc(u.flash, v), Ipc(u.flash.lines[v]), Ipc(u.flash.lines[v]))
    ensures Short(t, m, d) && t.credits >= 1 && Over(Deads(t.flash), d) <= Over(Deads(u.flash), d)
    ensures Over(Deads(t.flash), d) == Over(Deads(u.flash), d) ==> Phase(t.flash, t.credits, d) < Phase(u.flash, 0, d)
  {
    hide Core, Deads, Sum, Over, Gc, Ipc, Ready, Room, OrderOk, SameMapped, Phase;
    IsCore(u, m);
    OpenLinesDiffer(u.flash);
    FewFree(u, m, d);
    CleanReady(u, m, v, t);
    var q := Deads(u.flash);
    SumUpdate(q, v, 0);
    OverUpdate(q, v, 0, d);
    if q[v] <= d { RoundAdvances(u.flash, t.flash, q[v], d); }
  }

  /** A collection of at most d dead pages, followed by as many writes. */
  lemma RoundAdvances(f: Flash, t: Flash, j: nat, d: nat)
    requires 1 <= j <= d && 2 * d <= f.cfg.L - 3 && t.cfg == f.cfg && t.user == f.user
    requires f.user.idx < f.cfg.L && f.gc.idx < f.cfg.L && |f.free| <= 1 && (|f.free| == 0 ==> f.gc.idx < j)
    requires f.user.idx + f.gc.idx == (if |f.free| == 0 then f.cfg.L - 4 else 2 * f.cfg.L - 4)
    requires |t.free| == if f.gc.idx < j then |f.free| + 1 else |f.free|
    ensures Phase(t, j, d) < Phase(f, 0, d)
  {}

  lemma EndGame(s: State, m: nat, d: nat)
    requires Short(s, m, d) && s.credits >= 1
    ensures Doomed(s, m)
    decreases Over(Deads(s.flash), d), Phase(s.flash, s.credits, d), s.credits
  {
    hide Short, Core, Deads, Gc, Ipc, Phase, Over, UserWrite, Wrote;
    var l := ThinLine(s, m, d);
    FewFree(s, m, d);
    ShortIsReady(s, m, d);
    var lpn := Play(s, m, l);
    var u := Spent(s, lpn);
    ThinWrite(s, m, d, l, lpn);
    forall t | WriteStep(s, lpn, 0, t) ensures Doomed(t, m) {
      if u.credits > 0 {
        assert t == u;
        EndGame(u, m, d);
      } else {
        FewFree(u, m, d);
        ShortHasVictim(u, m, d);
        var v := Collects(u, t);
        if u.flash.free == [] && u.flash.gc.idx >= Deads(u.flash)[v] {
          ShortIsReady(u, m, d);
          IsCore(u, m);
          GcRunsDry(u.flash, v);
        } else {
          ThinRound(u, m, d, v, t);
          EndGame(t, m, d);
        }
      }
    }
    Continue(s, m, lpn);
  }

  lemma ShortIsReady(s: State, m: nat, d: nat)
    requires Short(s, m, d)
    ensures Ready(s, m)
  {}

  // ---- The opening: from a freshly filled device to too little room, last phase first ----

  function HammerAt(L: nat, i: nat): Count { Count(2, 1 + i, L - 1, i, L - 1, L - 1 + i, L - 2 - i, L - 2) }

  /** The host overwrites its own last page again and again, with nothing to collect and no line to spare. */
  lemma Hammer(s: State, m: nat, d: nat, i: nat)
    requires Ready(s, m) && Sized(s.flash.cfg, m, d) && s.flash.victims == {}
    requires i + 3 <= s.flash.cfg.L && Is(s, HammerAt(s.flash.cfg.L, i))
    ensures Doomed(s, m)
    decreases s.flash.cfg.L - i
  {
    hide Core, Ready, Deads, UserWrite, Wrote, Ipc, Gc, OrderOk;
    var l := s.flash.user.line;
    var lpn := Play(s, m, l);
    var u := Spent(s, lpn);
    InLine(s, m, HammerAt(s.flash.cfg.L, i), l, lpn);
    forall t | WriteStep(s, lpn, 0, t) ensures Doomed(t, m) {
      if u.credits > 0 {
        assert t == u;
        Hammer(u, m, d, i + 1);
      } else {
        GrantedAgain(u, t);
        NotMoved(u, m, t);
        EndGame(t, m, d);
      }
    }
    Continue(s, m, lpn);
  }

  lemma NotMoved(u: State, m: nat, t: State)
    requires Ready(u, m) && t.flash == u.flash
    ensures Ready(t, m)
  {}

  function EmptyAt(L: nat, i: nat): Count {
    Count(if i + 3 < L then 3 else 2, if i + 3 < L then 3 + i else 0, L - 1, 0, 1 + i, 1 + i, L - 2 - i, L - 2)
  }

  /** The pages on GC's open line are overwritten, until all of them are dead and none elsewhere. */
  lemma EmptyGcLine(s: State, m: nat, d: nat, i: nat)
    requires Ready(s, m) && Sized(s.flash.cfg, m, d) && s.flash.victims == {}
    requires i + 3 <= s.flash.cfg.L && Is(s, EmptyAt(s.flash.cfg.L, i))
    ensures Doomed(s, m)
    decreases s.flash.cfg.L - i
  {
    hide Core, Ready, Deads, UserWrite, Wrote, Ipc, Gc, OrderOk;
    var L, l := s.flash.cfg.L, s.flash.gc.line;
    OpenLines(s, m);
    var lpn := Play(s, m, l);
    var u := Spent(s, lpn);
    if i + 4 == L { UsingUp(s, m, EmptyAt(L, i), l, lpn); } else { InLine(s, m, EmptyAt(L, i), l, lpn); }
    forall t | WriteStep(s, lpn, 0, t) ensures Doomed(t, m) {
      if i + 3 < L {
        assert t == u;
        EmptyGcLine(u, m, d, i + 1);
      } else {
        GrantedAgain(u, t);
        NotMoved(u, m, t);
        Hammer(t, m, d, 0);
      }
    }
    Continue(s, m, lpn);
  }

  lemma OpenLines(s: State, m: nat)
    requires Ready(s, m)
    ensures var f := s.flash;
            && f.user.line != f.gc.line && f.user.line !in f.free && f.gc.line !in f.free
            && f.user.idx < f.cfg.L && f.gc.idx < f.cfg.L && f.user.line !in f.victims && f.gc.line !in f.victims
  {
    OpenLinesDiffer(s.flash);
  }

  /** A line that is neither open nor free. */
  ghost predicate IsClosed(f: Flash, l: nat) { l < |f.lines| && !Open(f, l) && l !in f.free }

  function SpoilAt(L: nat, i: nat): Count { Count(2, i, L - 3, 0, 0, L - 4 + i, 3 - i, 4) }

  /** Two more pages of the line the host just used up, then one that GC copied: GC takes that line. */
  lemma Spoil(s: State, m: nat, d: nat, i: nat, l: nat)
    requires Ready(s, m) && Sized(s.flash.cfg, m, d) && s.flash.victims == {l} && IsClosed(s.flash, l) && i <= 2
    requires Is(s, SpoilAt(s.flash.cfg.L, i)) && Deads(s.flash)[l] == s.flash.cfg.L - 4 + i
    ensures Doomed(s, m)
    decreases 3 - i
  {
    hide Core, Ready, Deads, UserWrite, Wrote, Ipc, Gc, OrderOk;
    var L, target := s.flash.cfg.L, if i < 2 then l else s.flash.gc.line;
    OpenLines(s, m);
    var lpn := Play(s, m, target);
    var u := Spent(s, lpn);
    InLine(s, m, SpoilAt(L, i), target, lpn);
    forall t | WriteStep(s, lpn, 0, t) ensures Doomed(t, m) {
      if i < 2 {
        assert t == u;
        Spoil(u, m, d, i + 1, l);
      } else {
        OneCollected(u, m, Count(2, 3, L - 3, 0, 1, L - 1, 0, 4), l, t);
        EmptyGcLine(t, m, d, 0);
      }
    }
    Continue(s, m, lpn);
  }

  /** The last page of the host's line: it is used up with four valid pages. */
  lemma LastOfLine(s: State, m: nat, d: nat)
    requires Ready(s, m) && Sized(s.flash.cfg, m, d) && s.flash.victims == {}
    requires var L := s.flash.cfg.L; Is(s, Count(3, L - 1, L - 3, L - 5, 0, L - 5, 4, 4))
    ensures Doomed(s, m)
  {
    hide Core, Ready, Deads, UserWrite, Wrote, Ipc, Gc, OrderOk;
    var L, l := s.flash.cfg.L, s.flash.user.line;
    OpenLines(s, m);
    var lpn := Play(s, m, l);
    var u := Spent(s, lpn);
    UsingUp(s, m, Count(3, L - 1, L - 3, L - 5, 0, L - 5, 4, 4), l, lpn);
    forall t | WriteStep(s, lpn, 0, t) ensures Doomed(t, m) {
      assert t == u;
      Spoil(u, m, d, 0, l);
    }
    Continue(s, m, lpn);
  }

  function MixAt(L: nat, i: nat): Count { Count(2, i, 1, if i <= 4 then 0 else i - 4, 0, i, L - 1 - i, L - 1) }

  /** Four pages of one full line, then the host's own last page: GC takes that line and copies all but four pages. */
  lemma Mix(s: State, m: nat, d: nat, i: nat, l: nat)
    requires Ready(s, m) && Sized(s.flash.cfg, m, d) && i + 2 <= s.flash.cfg.L && IsClosed(s.flash, l)
    requires s.flash.victims == (if i == 0 then {} else {l}) && Deads(s.flash)[l] == if i <= 4 then i else 4
    requires Is(s, MixAt(s.flash.cfg.L, i))
    ensures Doomed(s, m)
    decreases s.flash.cfg.L - i
  {
    hide Core, Ready, Deads, UserWrite, Wrote, Ipc, Gc, OrderOk;
    var L, target := s.flash.cfg.L, if i < 4 then l else s.flash.user.line;
    OpenLines(s, m);
    var lpn := Play(s, m, target);
    var u := Spent(s, lpn);
    InLine(s, m, MixAt(L, i), target, lpn);
    forall t | WriteStep(s, lpn, 0, t) ensures Doomed(t, m) {
      if i + 2 < L {
        assert t == u;
        Mix(u, m, d, i + 1, l);
      } else {
        OneCollected(u, m, MixAt(L, i + 1), l, t);
        LastOfLine(t, m, d);
      }
    }
    Continue(s, m, lpn);
  }

  function FirstAt(L: nat, i: nat): Count { Count(2, i, 0, i - 1, 0, i - 1, L - i, L) }

  /** A new page, overwritten until its line is used up with one valid page: the first collection. */
  lemma FirstLine(s: State, m: nat, d: nat, i: nat)
    requires Ready(s, m) && Sized(s.flash.cfg, m, d) && s.flash.victims == {}
    requires 1 <= i < s.flash.cfg.L && Is(s, FirstAt(s.flash.cfg.L, i))
    ensures Doomed(s, m)
    decreases s.flash.cfg.L - i
  {
    hide Core, Ready, Deads, UserWrite, Wrote, Ipc, Gc, OrderOk;
    var L, l := s.flash.cfg.L, s.flash.user.line;
    OpenLines(s, m);
    var lpn := Play(s, m, l);
    var u := Spent(s, lpn);
    if i + 1 == L { UsingUp(s, m, FirstAt(L, i), l, lpn); } else { InLine(s, m, FirstAt(L, i), l, lpn); }
    forall t | WriteStep(s, lpn, 0, t) ensures Doomed(t, m) {
      if i + 1 < L {
        assert t == u;
        FirstLine(u, m, d, i + 1);
      } else {
        OneCollected(u, m, Count(1, 0, 0, 0, 0, L - 1, 0, L), l, t);
        var w := SomeFullLine(t, m);
        Mix(t, m, d, 0, w);
      }
    }
    Continue(s, m, lpn);
  }

  lemma SomeFullLine(s: State, m: nat) returns (l: nat)
    requires Ready(s, m) && s.flash.victims == {} && |s.flash.free| == 2 && s.flash.cfg.lines >= 5
    ensures IsClosed(s.flash, l) && Deads(s.flash)[l] == 0
  {
    hide Core, Ready, Deads, OrderOk;
    IsCore(s, m);
    var closed := ClosedLines(s.flash);
    l :| l in closed;
    NoDeads(s.flash, l);
  }

  /** One page more than four lines leave over. */
  lemma NewPage(s: State, m: nat, d: nat)
    requires m >= 1 && Ready(s, m - 1) && m <= |s.flash.l2p| && Sized(s.flash.cfg, m, d) && s.flash.victims == {}
    requires var L := s.flash.cfg.L; Is(s, Count(2, 0, 0, 0, 0, 0, L, L))
    ensures Doomed(s, m)
  {
    hide Core, Deads, UserWrite, Ipc, Gc, OrderOk;
    FirstWrite(s.flash, m - 1, 0);
    var u := Spent(s, m - 1);
    var w := CanRefill(u);
    assert WriteStep(s, m - 1, 0, w);
    forall t | WriteStep(s, m - 1, 0, t) ensures Doomed(t, m) {
      assert t == u;
      FirstLine(u, m, d, 1);
    }
    Continue(s, m, m - 1);
  }

  // ---- Filling the device ----

  /** Every page but the last `left` of the first m - 1 was written once; credits run out at the end of each line. */
  ghost predicate Filled(s: State, m: nat, left: nat, rows: int) {
    var L := s.flash.cfg.L;
    && left < m <= |s.flash.l2p| && left == rows * L + s.credits && -1 <= rows && 1 <= s.credits <= L && s.refill == L
    && Filling(s.flash, 4 * L + left) && Mapped(s.flash.l2p) == UpTo(m - 1 - left)
    && !s.flash.dry && OrderOk(s.flash.cfg)
  }

  lemma Fill(s: State, m: nat, d: nat, left: nat, rows: int)
    requires Filled(s, m, left, rows) && Sized(s.flash.cfg, m, d)
    ensures Doomed(s, m)
    decreases left
  {
    hide Filling, UserWrite, OrderOk, Mapped, Sized;
    assert s.flash.cfg.L >= 5 by { SizedIsLarge(s.flash.cfg, m, d); }
    if left == 0 {
      FullyFilled(s, m, rows);
      NewPage(s, m, d);
    } else {
      var lpn := m - 1 - left;
      FillMove(s, m, left, rows);
      var w := CanRefill(Spent(s, lpn));
      assert WriteStep(s, lpn, 0, w);
      forall t | WriteStep(s, lpn, 0, t) ensures Doomed(t, m) {
        FillAnswer(s, m, left, rows, t);
        Fill(t, m, d, left - 1, if s.credits > 1 then rows else rows - 1);
      }
      Continue(s, m, lpn);
    }
  }

  lemma SizedIsLarge(cfg: Config, m: nat, d: nat)
    requires Sized(cfg, m, d)
    ensures cfg.L >= 5 && d < cfg.L
  {}

  lemma FillMove(s: State, m: nat, left: nat, rows: int)
    requires Filled(s, m, left, rows) && left >= 1
    ensures var lpn := m - 1 - left;
            && lpn < |s.flash.l2p| && lpn !in Mapped(s.flash.l2p) && Writable(s.flash, lpn)
            && Core(UserWrite(s.flash, lpn, 0), {}, {}) && UserWrite(s.flash, lpn, 0).victims == {}
  {
    hide OrderOk, Program, Filling, Core, Mapped, UserWrite;
    var lpn, room := m - 1 - left, 4 * s.flash.cfg.L + left;
    FillingIsCore(s.flash, room);
    FirstIsProgram(s.flash, lpn);
    FillStep(s.flash, room, lpn, 0);
    FillingIsCore(UserWrite(s.flash, lpn, 0), room - 1);
  }

  lemma FirstIsProgram(f: Flash, lpn: nat)
    requires InRange(f, f.user) && lpn < |f.l2p| && lpn !in Mapped(f.l2p)
    ensures f.l2p[lpn].None? && Writable(f, lpn) && UserWrite(f, lpn, 0) == Program(f, UserIo, lpn, 0)
  {}

  lemma FillingIsCore(f: Flash, room: int)
    requires Filling(f, room)
    ensures Core(f, {}, {}) && InRange(f, f.user) && f.cfg.L >= 1 && f.victims == {}
  {}

  lemma FillAnswer(s: State, m: nat, left: nat, rows: int, t: State)
    requires Filled(s, m, left, rows) && left >= 1 && s.flash.cfg.L >= 1 && WriteStep(s, m - 1 - left, 0, t)
    ensures t.flash.cfg == s.flash.cfg
    ensures Filled(t, m, left - 1, if s.credits > 1 then rows else rows - 1)
  {
    hide Filling, UserWrite, OrderOk, Mapped, RefillCredit;
    var lpn := m - 1 - left;
    FillMove(s, m, left, rows);
    FillWrite(s, Write(lpn, 0), t, 4 * s.flash.cfg.L + left);
    assert UpTo(lpn + 1) == UpTo(lpn) + {lpn};
    FillCredit(Spent(s, lpn), t);
    NotLastRow(rows, s.flash.cfg.L, left, s.credits);
  }

  lemma NotLastRow(rows: int, L: nat, left: nat, credits: int)
    requires left >= 1 && left == rows * L + credits && credits <= L && -1 <= rows
    ensures rows >= 0 && (rows - 1) * L + L == rows * L
  {}

  lemma FillCredit(u: State, t: State)
    requires RefillCredit(u, t) && u.flash.victims == {} && u.credits >= 0
    ensures t == if u.credits > 0 then u else u.(credits := u.refill)
  {}

  lemma FullyFilled(s: State, m: nat, rows: int)
    requires Filled(s, m, 0, rows) && s.flash.cfg.L >= 1
    ensures Ready(s, m - 1) && s.flash.victims == {}
    ensures var L := s.flash.cfg.L; Is(s, Count(2, 0, 0, 0, 0, 0, L, L))
  {
    hide LinesOk, Owned, Backward, Forward, Shape, OrderOk;
    var f, L := s.flash, s.flash.cfg.L;
    NothingIsDead(f);
    OpenLinesDiffer(f);
    hide Core, NothingDead;
    SumZero(Deads(f));
    forall l | 0 <= l < |f.l2p| ensures f.l2p[l].Some? <==> l < m - 1 { assert l in Mapped(f.l2p) <==> f.l2p[l].Some?; }
    hide Deads, Mapped;
    TwoFree(|f.free|, f.user.idx, L);
    AllGranted(rows, L, s.credits);
  }

  lemma AllGranted(rows: int, L: nat, credits: int)
    requires 0 == rows * L + credits && 1 <= credits <= L && -1 <= rows
    ensures credits == L
  {}

  lemma TwoFree(f: nat, idx: nat, L: nat)
    requires idx < L && f * L + (L - idx) + L == 4 * L
    ensures f == 2 && idx == 0
  {
    if f >= 3 { MulMono(3, f, L); }
    if f <= 1 { MulMono(f, 1, L); }
  }

  lemma NothingIsDead(f: Flash)
    requires NothingDead(f)
    ensures forall l :: 0 <= l < |f.lines| ==> Deads(f)[l] == 0
  {
    forall l | 0 <= l < |f.lines| ensures Deads(f)[l] == 0 {
      forall i | 0 <= i < |f.lines[l]| ensures !f.lines[l][i].Dead? { assert !At(f, Loc(l, i)).Dead?; }
      DeadBelow(f.lines[l], 0);
    }
  }

  lemma Rows(cfg: Config, m: nat, d: nat)
    requires Sized(cfg, m, d)
    ensures cfg.lines >= 5 && m >= 1 && cfg.L >= 5
    ensures cfg.lines * cfg.L == 4 * cfg.L + (m - 1) && (cfg.lines - 5) * cfg.L + cfg.L == m - 1
  {}

  lemma PowerUp(s: State, m: nat)
    requires Init(s) && OrderOk(s.flash.cfg) && 1 <= m <= |s.flash.l2p| && s.flash.cfg.lines >= 5 && s.flash.cfg.L >= 1
    requires Mapped(s.flash.l2p) == {} && Filling(s.flash, 4 * s.flash.cfg.L + (m - 1))
    requires (s.flash.cfg.lines - 5) * s.flash.cfg.L + s.flash.cfg.L == m - 1
    ensures Filled(s, m, m - 1, s.flash.cfg.lines - 5)
  {
    hide Filling, OrderOk, Mapped;
    assert UpTo(0) == {};
  }

  /** From power-up. */
  lemma EveryDeviceIsDoomed(s: State, m: nat, d: nat)
    requires Init(s) && OrderOk(s.flash.cfg) && Sized(s.flash.cfg, m, d) && m <= |s.flash.l2p|
    ensures Doomed(s, m)
  {
    hide Filling, Init, OrderOk, Mapped, Sized, Filled;
    Rows(s.flash.cfg, m, d);
    FillStart(s);
    PowerUp(s, m);
    Fill(s, m, d, m - 1, s.flash.cfg.lines - 5);
  }

  // ---- The bound is exact ----

  /** A piece of a run: from s to a dry device, with writes to the first `pages` pages. */
  ghost predicate RunsDry(s: State, pages: nat, ss: seq<State>, ws: seq<Write>) {
    && |ss| == |ws| + 1 && ss[0] == s && ss[|ws|].flash.dry && (forall w :: w in ws ==> w.lpn < pages)
    && forall i :: 0 <= i < |ws| ==> WriteStep(ss[i], ws[i].lpn, ws[i].data, ss[i + 1])
  }

  ghost predicate CanRunDry(s: State, pages: nat) {
    exists ss: seq<State>, ws: seq<Write> :: RunsDry(s, pages, ss, ws)
  }

  lemma AlreadyDry(s: State, pages: nat)
    requires s.flash.dry
    ensures CanRunDry(s, pages)
  {
    assert RunsDry(s, pages, [s], []);
  }

  lemma OneStepMore(s: State, pages: nat, lpn: nat, t: State)
    requires CanRunDry(t, pages) && lpn < pages && WriteStep(s, lpn, 0, t)
    ensures CanRunDry(s, pages)
  {
    hide WriteStep;
    var ss: seq<State>, ws: seq<Write> :| RunsDry(t, pages, ss, ws);
    var rr, vs := [s] + ss, [Write(lpn, 0)] + ws;
    assert rr[|vs|] == ss[|ws|];
    forall i | 0 <= i < |vs| ensures WriteStep(rr[i], vs[i].lpn, vs[i].data, rr[i + 1]) {
      if i > 0 { assert rr[i] == ss[i - 1] && vs[i] == ws[i - 1] && rr[i + 1] == ss[i]; }
    }
    assert RunsDry(s, pages, rr, vs);
  }

  least lemma {:induction false} DoomedRunsDry(s: State, pages: nat)
    requires Doomed(s, pages)
    ensures CanRunDry(s, pages)
  {
    hide WriteStep, CanRunDry, Writable;
    if s.flash.dry {
      AlreadyDry(s, pages);
    } else {
      var lpn: nat :| lpn < pages && Writable(s.flash, lpn) && Answers(s, lpn)
                      && forall t :: WriteStep(s, lpn, 0, t) ==> Doomed(t, pages);
      var t :| WriteStep(s, lpn, 0, t);
      DoomedRunsDry(t, pages);
      OneStepMore(s, pages, lpn, t);
    }
  }

  /** Enough pages and lines to spread dead pages thinly; 17 lines of at least 5 pages are. */
  ghost predicate Wide(cfg: Config) {
    cfg.L >= 5 && cfg.lines >= 5 && (cfg.L - 3) / 2 * (cfg.lines - 4) > 3 * cfg.L - 6
  }

  lemma SeventeenLines(cfg: Config)
    requires cfg.L >= 5 && cfg.lines >= 17
    ensures Wide(cfg)
  {
    MulMono(13, cfg.lines - 4, (cfg.L - 3) / 2);
  }

  /** A device after conv_init_ftl with a map of `table` entries. */
  lemma PoweredUp(cfg: Config, table: nat) returns (s: State)
    requires cfg.lines >= 2 && cfg.L >= 1
    ensures Init(s) && s.flash.cfg == cfg && |s.flash.l2p| == table
  {
    s := State(Flash(cfg, seq(cfg.lines, i => seq(cfg.L, j => Free)), seq(table, i => None), LinesFromTwo(cfg.lines), [], {},
                     Loc(0, 0), Loc(1, 0), false), cfg.L, cfg.L);
  }

  /** One page over the bound: a run that finds the free list empty. */
  lemma DryRun(cfg: Config, table: nat) returns (ss: seq<State>, ws: seq<Write>)
    requires OrderOk(cfg) && Wide(cfg) && table > (cfg.lines - 4) * cfg.L
    ensures Run(ss, ws) && ss[0].flash.cfg == cfg && |ss[0].flash.l2p| == table && ss[|ws|].flash.dry
    ensures (cfg.lines - 4) * cfg.L >= 0 && forall w :: w in ws ==> w.lpn <= (cfg.lines - 4) * cfg.L
  {
    var m := (cfg.lines - 4) * cfg.L + 1;
    var s := PoweredUp(cfg, table);
    hide Init, OrderOk, WriteStep, RunsDry;
    EveryDeviceIsDoomed(s, m, (cfg.L - 3) / 2);
    DoomedRunsDry(s, m);
    ss, ws :| RunsDry(s, m, ss, ws);
    DryIsRun(s, m, ss, ws);
  }

  lemma DryIsRun(s: State, m: nat, ss: seq<State>, ws: seq<Write>)
    requires RunsDry(s, m, ss, ws) && Init(s) && OrderOk(s.flash.cfg) && m <= |s.flash.l2p|
    ensures Run(ss, ws) && ss[0] == s && ss[|ws|].flash.dry && forall w :: w in ws ==> w.lpn < m
  {
    hide Init, OrderOk, WriteStep;
  }

  /** No host that writes at most this many different pages, whatever it writes, finds the free list empty. */
  ghost predicate NeverDry(cfg: Config, table: nat, pages: nat) {
    forall ss: seq<State>, ws: seq<Write> ::
      Run(ss, ws) && ss[0].flash.cfg == cfg && |ss[0].flash.l2p| == table && |Written(ws)| <= pages ==> !ss[|ws|].flash.dry
  }

  /** No host that writes below `pages` finds the free list empty. */
  ghost predicate NeverDryBelow(cfg: Config, table: nat, pages: nat) {
    forall ss: seq<State>, ws: seq<Write> ::
      Run(ss, ws) && ss[0].flash.cfg == cfg && |ss[0].flash.l2p| == table && (forall w :: w in ws ==> w.lpn < pages)
      ==> !ss[|ws|].flash.dry
  }

  /** The device is safe for hosts of so many pages exactly when four lines stay unmapped. */
  lemma BoundIsExact(cfg: Config, table: nat, pages: nat)
    requires OrderOk(cfg) && Wide(cfg) && table > (cfg.lines - 4) * cfg.L
    ensures NeverDry(cfg, table, pages) <==> pages <= (cfg.lines - 4) * cfg.L
    ensures NeverDryBelow(cfg, table, pages) <==> pages <= (cfg.lines - 4) * cfg.L
  {
    hide Init, WriteStep, Wide, OrderOk, Written;
    var most := (cfg.lines - 4) * cfg.L;
    if pages <= most {
      SafeBelow(cfg, table, pages);
    } else {
      var ss, ws := DryRun(cfg, table);
      WrittenBelow(ws, most + 1);
      assert !NeverDry(cfg, table, pages);
      assert !NeverDryBelow(cfg, table, pages);
    }
  }

  lemma SafeBelow(cfg: Config, table: nat, pages: nat)
    requires pages <= (cfg.lines - 4) * cfg.L
    ensures NeverDry(cfg, table, pages) && NeverDryBelow(cfg, table, pages)
  {
    hide Init, WriteStep, OrderOk, Inv, Read, LastWrite, Written;
    forall ss: seq<State>, ws: seq<Write> | Run(ss, ws) && ss[0].flash.cfg == cfg && |Written(ws)| <= pages
      ensures !ss[|ws|].flash.dry
    {
      RunsAreCorrect(ss, ws);
    }
    forall ss: seq<State>, ws: seq<Write> | Run(ss, ws) && ss[0].flash.cfg == cfg && forall w :: w in ws ==> w.lpn < pages
      ensures !ss[|ws|].flash.dry
    {
      WrittenBelow(ws, pages);
      RunsAreCorrect(ss, ws);
    }
  }
}
