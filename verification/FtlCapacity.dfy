/** Filling the device page by page: nothing to collect, and the free list runs dry at a known write. */
module FtlCapacity {
  import opened Basics
  import opened LogMachine
  import opened FtlInvariant
  import opened FtlRuns
  import opened FtlDeads

  lemma WrittenBelow(ws: seq<Write>, logical: nat)
    requires forall w :: w in ws ==> w.lpn < logical
    ensures |Written(ws)| <= logical
  {
    SubsetSize(Written(ws), UpTo(logical));
  }

  // ---- Without a bound the free list does run dry ----

  ghost predicate NothingDead(s: Flash) {
    forall loc :: InRange(s, loc) ==> !At(s, loc).Dead?
  }

  /** Nothing was overwritten so far, so there is nothing to collect. */
  ghost predicate Filling(s: Flash, room: int) {
    Core(s, {}, {}) && s.victims == {} && NothingDead(s) && s.gc.idx == 0 && Room(s) == room
  }

  lemma LastPageLive(s: Flash, lpn: nat, data: int)
    requires Core(s, {}, {}) && NothingDead(s) && lpn < |s.l2p| && s.user.idx + 1 == s.cfg.L
    ensures s.user.line < |Put(s, UserIo, lpn, data).lines|
    ensures Vpc(Put(s, UserIo, lpn, data).lines[s.user.line]) == s.cfg.L
  {
    var line := Put(s, UserIo, lpn, data).lines[s.user.line];
    forall i | 0 <= i < |line| ensures line[i].Live? {
      if i < s.user.idx { assert InRange(s, Loc(s.user.line, i)) && !At(s, Loc(s.user.line, i)).Dead?; }
    }
    VpcFull(line);
  }

  /** A write to a page never written before: nothing dies, and only the very last one finds no line. */
  lemma FillStep(s: Flash, room: int, lpn: nat, data: int)
    requires Filling(s, room) && room > s.cfg.L && lpn < |s.l2p| && s.l2p[lpn].None? && !s.dry
    ensures var t := Program(s, UserIo, lpn, data);
            && t.cfg == s.cfg && t.l2p == s.l2p[lpn := Some(s.user)] && t.victims == {}
            && (t.dry <==> room - 1 == s.cfg.L)
            && (room - 1 > s.cfg.L ==> Filling(t, room - 1))
  {
    var p, t := Put(s, UserIo, lpn, data), Program(s, UserIo, lpn, data);
    if s.user.idx + 1 == s.cfg.L { LastPageLive(s, lpn, data); }
    assert Places(s, {}, s.user.line) == 1;
    if s.free != [] || s.user.idx + 1 < s.cfg.L {
      OnlyPositive(|s.free|, s.cfg.L);
      ProgramKeeps(s, {}, {}, UserIo, lpn, data);
      hide Core, Vpc;
      forall loc | InRange(t, loc) ensures !At(t, loc).Dead? {
        if loc != s.user { assert InRange(s, loc) && At(t, loc) == At(s, loc); }
      }
    }
  }

  lemma OnlyPositive(n: nat, L: nat)
    ensures n >= 1 ==> n * L >= L
  {}

  /** Nothing to collect: refilling the credit leaves the flash alone. */
  lemma RefillWithoutVictims(s: State, t: State)
    requires s.flash.victims == {} && RefillCredit(s, t)
    ensures t.flash == s.flash
  {}

  ghost predicate Distinct(ws: seq<Write>) {
    forall i, j :: 0 <= i < j < |ws| ==> ws[i].lpn != ws[j].lpn
  }

  /** Credits run out exactly at the end of each line. */
  ghost predicate InStep(s: State, k: nat) {
    1 <= s.credits <= s.refill == s.flash.cfg.L && exists rows: nat :: EndsRow(k, s.credits, rows, s.flash.cfg.L)
  }

  ghost predicate EndsRow(k: nat, credits: int, rows: nat, L: nat) { k + credits == (rows + 1) * L }

  lemma {:induction false} FillPrefix(ss: seq<State>, ws: seq<Write>, k: nat)
    requires Run(ss, ws) && k <= |ws| && k <= (ss[0].flash.cfg.lines - 2) * ss[0].flash.cfg.L
    requires Distinct(ws[..k])
    ensures var s := ss[k].flash;
            && s.cfg == ss[0].flash.cfg && |s.l2p| == |ss[0].flash.l2p|
            && Mapped(s.l2p) == Written(ws[..k]) && !s.dry && Filling(s, s.cfg.lines * s.cfg.L - k) && InStep(ss[k], k)
  {
    hide Filling, Run, Mapped, Written, InStep, Init, Distinct;
    RunStart(ss, ws);
    var cfg := ss[0].flash.cfg;
    if k == 0 {
      FillStart(ss[0]);
      assert ws[..0] == [];
      NothingWritten();
    } else {
      PrefixDistinct(ws, k - 1, k);
      assert ws[..k][..k - 1] == ws[..k - 1] && ws[..k][..k - 1 + 1] == ws[..k];
      FillPrefix(ss, ws, k - 1);
      RunStep(ss, ws, k - 1);
      NotYetWritten(ws[..k], k - 1);
      TwoLinesLeft(cfg.lines, cfg.L);
      FillWrite(ss[k - 1], ws[k - 1], ss[k], cfg.lines * cfg.L - (k - 1));
      StepCredit(ss[k - 1], ws[k - 1], ss[k], k - 1);
    }
  }

  lemma NothingWritten()
    ensures Written([]) == {}
  {}

  lemma RunStart(ss: seq<State>, ws: seq<Write>)
    requires Run(ss, ws)
    ensures |ss| == |ws| + 1 && Init(ss[0]) && ss[0].flash.cfg.lines >= 2 && ss[0].flash.cfg.L >= 1 && InStep(ss[0], 0)
  {
    assert EndsRow(0, ss[0].credits, 0, ss[0].flash.cfg.L);
  }

  lemma TwoLinesLeft(lines: nat, L: nat)
    ensures lines * L - (lines - 2) * L == 2 * L
  {}

  lemma StepCredit(s: State, w: Write, t: State, k: nat)
    requires InStep(s, k) && WriteStep(s, w.lpn, w.data, t) && UserWrite(s.flash, w.lpn, w.data).victims == {}
    requires t.flash.cfg == s.flash.cfg
    ensures InStep(t, k + 1)
  {
    var u := State(UserWrite(s.flash, w.lpn, w.data), s.credits - 1, s.refill);
    hide UserWrite, Writable;
    assert RefillCredit(u, t);
    var L := s.flash.cfg.L;
    var rows: nat :| EndsRow(k, s.credits, rows, L);
    if s.credits == 1 {
      assert t.credits == L;
      assert EndsRow(k + 1, t.credits, rows + 1, L) by { assert (rows + 1 + 1) * L == (rows + 1) * L + L; }
    } else {
      assert EndsRow(k + 1, t.credits, rows, L);
    }
  }

  lemma RunStep(ss: seq<State>, ws: seq<Write>, k: nat)
    requires Run(ss, ws) && k < |ws|
    ensures ws[k].lpn < |ss[0].flash.l2p| && WriteStep(ss[k], ws[k].lpn, ws[k].data, ss[k + 1])
  {}

  lemma NotYetWritten(ws: seq<Write>, k: nat)
    requires Distinct(ws) && k < |ws|
    ensures ws[k].lpn !in Written(ws[..k]) && Written(ws[..k + 1]) == Written(ws[..k]) + {ws[k].lpn}
  {
    assert ws[..k + 1] == ws[..k] + [ws[k]];
    assert forall w :: w in ws[..k + 1] <==> w in ws[..k] || w == ws[k];
  }

  lemma FillWrite(s: State, w: Write, t: State, room: int)
    requires Filling(s.flash, room) && room > s.flash.cfg.L && !s.flash.dry
    requires WriteStep(s, w.lpn, w.data, t) && w.lpn !in Mapped(s.flash.l2p)
    ensures t.flash.cfg == s.flash.cfg && |t.flash.l2p| == |s.flash.l2p|
    ensures Mapped(t.flash.l2p) == Mapped(s.flash.l2p) + {w.lpn}
    ensures t.flash.dry <==> room - 1 == s.flash.cfg.L
    ensures room - 1 > s.flash.cfg.L ==> Filling(t.flash, room - 1)
    ensures UserWrite(s.flash, w.lpn, w.data).victims == {}
  {
    hide Filling, Program, RefillCredit;
    FillStep(s.flash, room, w.lpn, w.data);
    RefillWithoutVictims(State(UserWrite(s.flash, w.lpn, w.data), s.credits - 1, s.refill), t);
  }

  lemma FillStart(s: State)
    requires Init(s)
    ensures Filling(s.flash, s.flash.cfg.lines * s.flash.cfg.L) && Mapped(s.flash.l2p) == {} && !s.flash.dry
    ensures s.flash.cfg.lines >= 2 && s.flash.cfg.L >= 1
  {
    var f := s.flash;
    assert forall l :: 0 <= l < |f.lines| ==> AllFree(f.lines[l]);
    forall l | 0 <= l < |f.lines| ensures Places(f, {}, l) == 1 {
      if l >= 2 { assert f.free[l - 2] == l; }
    }
    assert (f.cfg.lines - 2) * f.cfg.L + 2 * f.cfg.L == f.cfg.lines * f.cfg.L;
  }

  // ---- The last free line ----

  /** The free list is empty and the user's line is filled up to j, with credits for exactly the rest of it. */
  ghost predicate LastLine(s: State, j: nat) {
    && Core(s.flash, {}, {}) && !s.flash.dry && s.flash.free == [] && s.flash.user.idx == j < s.flash.cfg.L
    && s.credits == s.flash.cfg.L - j
  }

  /** Whatever is written next: the line fills up, and its last page finds no line. */
  lemma LastLineStep(s: State, w: Write, t: State, j: nat)
    requires LastLine(s, j) && WriteStep(s, w.lpn, w.data, t)
    ensures t.flash.cfg == s.flash.cfg
    ensures if j + 1 < s.flash.cfg.L then LastLine(t, j + 1) else t.flash.dry
  {
    if j + 1 < s.flash.cfg.L {
      if s.flash.l2p[w.lpn].Some? { Overwrite(s.flash, w.lpn, w.data); } else { FirstWrite(s.flash, w.lpn, w.data); }
      hide Core, UserWrite;
    } else {
      hide Vpc;
      NoLineLeft(s.flash, w.lpn, w.data);
      RefillStaysDry(State(UserWrite(s.flash, w.lpn, w.data), s.credits - 1, s.refill), t);
    }
  }

  lemma NoLineLeft(f: Flash, lpn: nat, data: int)
    requires Core(f, {}, {}) && f.free == [] && f.user.idx + 1 >= f.cfg.L && Writable(f, lpn)
    ensures UserWrite(f, lpn, data).dry && UserWrite(f, lpn, data).cfg == f.cfg
  {
    hide Core, Vpc;
  }

  lemma {:induction false} CopiesKeepCfg(s: Flash, v: nat, order: seq<nat>)
    ensures CopyPages(s, v, order).cfg == s.cfg
  {
    hide Vpc;
    if order != [] { CopiesKeepCfg(s, v, order[..|order| - 1]); }
  }

  lemma RefillStaysDry(u: State, t: State)
    requires u.flash.dry && RefillCredit(u, t)
    ensures t.flash.dry && t.flash.cfg == u.flash.cfg
  {
    hide Gc, BestVictim;
    if t.flash != u.flash {
      var v: nat :| t.flash == Gc(u.flash, v);
      GcStaysDry(u.flash, v);
    }
  }

  lemma GcStaysDry(f: Flash, v: nat)
    requires f.dry
    ensures Gc(f, v).dry && Gc(f, v).cfg == f.cfg
  {
    hide CopyPages;
    StaysDry(Select(f, v), v, f.cfg.order);
    CopiesKeepCfg(Select(f, v), v, f.cfg.order);
  }

  lemma {:induction false} LastLineRuns(ss: seq<State>, ws: seq<Write>, p: nat, j: nat)
    requires Run(ss, ws) && |ss| == |ws| + 1 && p + j <= |ws| && j < ss[p].flash.cfg.L && LastLine(ss[p], 0)
    ensures LastLine(ss[p + j], j) && ss[p + j].flash.cfg == ss[p].flash.cfg
  {
    hide LastLine, Run, WriteStep;
    if j > 0 {
      LastLineRuns(ss, ws, p, j - 1);
      RunStep(ss, ws, p + j - 1);
      LastLineStep(ss[p + j - 1], ws[p + j - 1], ss[p + j], j - 1);
    }
  }

  lemma FilledUp(s: State, n: nat)
    requires Filling(s.flash, 2 * s.flash.cfg.L) && !s.flash.dry && InStep(s, n * s.flash.cfg.L)
    ensures LastLine(s, 0)
  {
    var f, L := s.flash, s.flash.cfg.L;
    assert f.user.idx < L;
    hide Core;
    var rows: nat :| EndsRow(n * L, s.credits, rows, L);
    WholeRow(n, rows, s.credits, L);
    NoneFree(|f.free|, f.user.idx, L);
  }

  lemma WholeRow(n: nat, rows: nat, credits: int, L: nat)
    requires n * L + credits == (rows + 1) * L && 1 <= credits <= L
    ensures credits == L
  {
    if n > rows { MulMono(rows + 1, n, L); }
    if n < rows { MulMono(n + 1, rows, L); }
  }

  lemma NoneFree(f: nat, idx: nat, L: nat)
    requires idx < L && f * L + (L - idx) + L == 2 * L
    ensures f == 0 && idx == 0
  {
    if f >= 1 { MulMono(1, f, L); }
  }

  /**
    Filling up: on every device, a host whose first writes fill all lines but two with different pages has
    get_next_free_line come back empty-handed exactly one line of writes later, whatever these writes are.
  */
  lemma FillingRunsDry(ss: seq<State>, ws: seq<Write>)
    requires Run(ss, ws) && |ws| == (ss[0].flash.cfg.lines - 1) * ss[0].flash.cfg.L
    requires var p := (ss[0].flash.cfg.lines - 2) * ss[0].flash.cfg.L; 0 <= p <= |ws| && Distinct(ws[..p])
    ensures forall k :: 0 <= k <= |ws| ==> (ss[k].flash.dry <==> k == |ws|)
  {
    hide Run, Filling, LastLine, InStep, Init, Distinct, Mapped, Written, WriteStep;
    RunStart(ss, ws);
    var n, L := ss[0].flash.cfg.lines, ss[0].flash.cfg.L;
    var p := (n - 2) * L;
    OneLineMore(n, L);
    FillPrefix(ss, ws, p);
    TwoLinesLeft(n, L);
    FilledUp(ss[p], n - 2);
    forall k | 0 <= k < |ws| ensures !ss[k].flash.dry {
      if k <= p {
        PrefixDistinct(ws, k, p);
        FillPrefix(ss, ws, k);
      } else {
        LastLineRuns(ss, ws, p, k - p);
        NotDryYet(ss[k], k - p);
      }
    }
    LastLineRuns(ss, ws, p, L - 1);
    RunStep(ss, ws, |ws| - 1);
    LastLineStep(ss[|ws| - 1], ws[|ws| - 1], ss[|ws|], L - 1);
  }

  lemma OneLineMore(n: nat, L: nat)
    requires n >= 2
    ensures (n - 2) * L + L == (n - 1) * L
  {}

  lemma NotDryYet(s: State, j: nat)
    requires LastLine(s, j)
    ensures !s.flash.dry
  {}

  lemma PrefixDistinct(ws: seq<Write>, k: nat, p: nat)
    requires k <= p <= |ws| && Distinct(ws[..p])
    ensures Distinct(ws[..k])
  {
    forall i, j | 0 <= i < j < k ensures ws[..k][i].lpn != ws[..k][j].lpn {
      assert ws[..p][i] == ws[..k][i] && ws[..p][j] == ws[..k][j];
    }
  }
}
