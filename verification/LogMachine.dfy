/**
  The flash translation layer of conv_ftl.c as a machine over whole lines: a line is a log
  of pages in the order the write pointer visits them, and a page either is free, holds the
  data of one logical page, or is dead. Addresses, counters, heap and reverse map of the C
  code are refined from this machine in ConvFtl.dfy.
*/
module LogMachine {
  import opened Basics

  /** A page: which line, and how many pages of the line the write pointer passed before it. */
  datatype Loc = Loc(line: nat, idx: nat)

  datatype Status = PgFree | PgValid | PgInvalid

  /** A valid page records its logical page (rmap) and the host data it holds. */
  datatype Page = Free | Live(lpn: nat, data: int) | Dead

  datatype Io = UserIo | GcIo

  /** L pages per line; GC cleans the pages of a line in the order `order`. */
  datatype Config = Config(L: nat, lines: nat, order: seq<nat>)

  datatype Flash = Flash(
    cfg: Config,
    lines: seq<seq<Page>>,
    l2p: seq<Option<Loc>>,
    free: seq<nat>,
    full: seq<nat>,
    victims: set<nat>,
    user: Loc,
    gc: Loc,
    dry: bool       // get_next_free_line found the free list empty
  )

  /** The flash with write_flow_control beside it. */
  datatype State = State(flash: Flash, credits: int, refill: int)

  const GC_THRES_LINES_HIGH: nat := 2

  function StatusOf(p: Page): Status {
    match p
    case Free => PgFree
    case Live(_, _) => PgValid
    case Dead => PgInvalid
  }

  function Statuses(line: seq<Page>): (r: seq<Status>)
    ensures |r| == |line| && forall i :: 0 <= i < |line| ==> r[i] == StatusOf(line[i])
  {
    seq(|line|, i requires 0 <= i < |line| => StatusOf(line[i]))
  }

  ghost function Vpc(line: seq<Page>): nat { Count(Statuses(line), PgValid) }

  ghost function Ipc(line: seq<Page>): nat { Count(Statuses(line), PgInvalid) }

  function Wp(s: Flash, io: Io): Loc { if io.UserIo? then s.user else s.gc }

  function SetWp(s: Flash, io: Io, w: Loc): Flash {
    if io.UserIo? then s.(user := w) else s.(gc := w)
  }

  ghost predicate InRange(s: Flash, loc: Loc) {
    loc.line < |s.lines| && loc.idx < |s.lines[loc.line]|
  }

  function SetPage(s: Flash, loc: Loc, p: Page): Flash
    requires InRange(s, loc)
  {
    s.(lines := s.lines[loc.line := s.lines[loc.line][loc.idx := p]])
  }

  // ---- The operations of conv_ftl.c ----

  /** mark_page_invalid: a page dies; a line that was entirely valid becomes a GC candidate. */
  ghost function Invalidate(s: Flash, loc: Loc): Flash
    requires InRange(s, loc)
  {
    var t := SetPage(s, loc, Dead);
    if Vpc(s.lines[loc.line]) == s.cfg.L then
      t.(full := Without(s.full, loc.line), victims := s.victims + {loc.line})
    else t
  }

  ghost predicate Invalidated(s: Flash, loc: Loc, t: Flash) {
    InRange(s, loc) && t == Invalidate(s, loc)
  }

  /** get_new_page, set_maptbl_ent, set_rmap_ent, mark_page_valid at a write pointer. */
  ghost function Put(s: Flash, io: Io, lpn: nat, data: int): Flash
    requires InRange(s, Wp(s, io)) && lpn < |s.l2p|
  {
    SetPage(s, Wp(s, io), Live(lpn, data)).(l2p := s.l2p[lpn := Some(Wp(s, io))])
  }

  /** The end of advance_write_pointer: file the used-up line. */
  ghost function Close(s: Flash, line: nat): Flash
    requires line < |s.lines|
  {
    if Vpc(s.lines[line]) == s.cfg.L then s.(full := s.full + [line])
    else s.(victims := s.victims + {line})
  }

  /** advance_write_pointer, whose last page of a line takes the first free line. */
  ghost function Advance(s: Flash, io: Io): Flash
    requires InRange(s, Wp(s, io))
  {
    var w := Wp(s, io);
    if w.idx + 1 < s.cfg.L then SetWp(s, io, Loc(w.line, w.idx + 1))
    else if s.free == [] then s.(dry := true)
    else SetWp(Close(s, w.line), io, Loc(s.free[0], 0)).(free := s.free[1..])
  }

  ghost function Program(s: Flash, io: Io, lpn: nat, data: int): Flash
    requires InRange(s, Wp(s, io)) && lpn < |s.l2p|
  {
    Advance(Put(s, io, lpn, data), io)
  }

  ghost predicate Writable(s: Flash, lpn: nat) {
    && InRange(s, s.user) && lpn < |s.l2p|
    && (s.l2p[lpn].Some? ==> InRange(s, s.l2p[lpn].value))
  }

  ghost predicate Programmed(s: Flash, io: Io, lpn: nat, data: int, t: Flash) {
    InRange(s, Wp(s, io)) && lpn < |s.l2p| && t == Program(s, io, lpn, data)
  }

  /** One round of the conv_write loop up to consume_write_credit. */
  ghost function UserWrite(s: Flash, lpn: nat, data: int): Flash
    requires Writable(s, lpn)
  {
    var t := if s.l2p[lpn].Some? then Invalidate(s, s.l2p[lpn].value) else s;
    Program(t, UserIo, lpn, data)
  }

  ghost predicate UserWrote(s: Flash, lpn: nat, data: int, t: Flash) {
    Writable(s, lpn) && t == UserWrite(s, lpn, data)
  }

  /** select_victim_line(force): the line leaves the heap. */
  ghost function Select(s: Flash, v: nat): Flash {
    s.(victims := s.victims - {v})
  }

  /** The copying half of clean_one_flashpg for one page of the victim. */
  ghost function CopyPage(s: Flash, v: nat, i: nat): Flash {
    if v < |s.lines| && i < |s.lines[v]| && s.lines[v][i].Live?
       && InRange(s, s.gc) && s.lines[v][i].lpn < |s.l2p|
    then Program(s, GcIo, s.lines[v][i].lpn, s.lines[v][i].data)
    else s
  }

  ghost function CopyPages(s: Flash, v: nat, order: seq<nat>): Flash {
    if order == [] then s
    else CopyPage(CopyPages(s, v, order[..|order| - 1]), v, order[|order| - 1])
  }

  /** mark_block_free of every block, then mark_line_free. */
  ghost function Erase(s: Flash, v: nat): Flash
    requires v < |s.lines|
  {
    s.(lines := s.lines[v := seq(s.cfg.L, i => Free)], free := s.free + [v])
  }

  /** do_gc on victim v. */
  ghost function Gc(s: Flash, v: nat): Flash {
    var t := CopyPages(Select(s, v), v, s.cfg.order);
    if v < |t.lines| then Erase(t, v) else t
  }

  /** The queue's root: a victim with the fewest valid pages. */
  ghost predicate BestVictim(s: Flash, v: nat) {
    && v in s.victims && v < |s.lines|
    && forall u :: u in s.victims && u < |s.lines| ==> Vpc(s.lines[v]) <= Vpc(s.lines[u])
  }

  /** do_gc cleaned v; the credits of the coming refill are the dead pages it held. */
  ghost predicate Collected(s: State, v: nat, t: State) {
    BestVictim(s.flash, v) && t == State(Gc(s.flash, v), s.credits, Ipc(s.flash.lines[v]))
  }

  lemma CollectedHadVictim(s: State, v: nat, t: State)
    requires Collected(s, v, t)
    ensures s.flash.victims != {}
  {}

  /** foreground_gc, which also sets how many credits the coming refill gives. */
  ghost predicate ForegroundGc(s: State, t: State) {
    if |s.flash.free| > GC_THRES_LINES_HIGH || s.flash.victims == {} then t == s
    else exists v: nat :: Collected(s, v, t)
  }

  /** check_and_refill_write_credit. */
  ghost predicate RefillCredit(s: State, t: State) {
    if s.credits > 0 then t == s
    else exists g :: ForegroundGc(s, g) && t == g.(credits := g.credits + g.refill)
  }

  /** One logical page written by the host. */
  ghost predicate WriteStep(s: State, lpn: nat, data: int, t: State) {
    && Writable(s.flash, lpn)
    && RefillCredit(State(UserWrite(s.flash, lpn, data), s.credits - 1, s.refill), t)
  }

  /** What the host reads back. */
  ghost function Read(s: Flash, lpn: nat): Option<int> {
    if lpn < |s.l2p| && s.l2p[lpn].Some? && InRange(s, s.l2p[lpn].value)
       && s.lines[s.l2p[lpn].value.line][s.l2p[lpn].value.idx].Live?
    then Some(s.lines[s.l2p[lpn].value.line][s.l2p[lpn].value.idx].data)
    else None
  }

  function LinesFromTwo(n: nat): (r: seq<nat>)
    requires n >= 2
    ensures |r| == n - 2 && forall i :: 0 <= i < |r| ==> r[i] == i + 2
  {
    seq(n - 2, (i: nat) => i + 2)
  }

  /** conv_init_ftl: all lines free, the first two taken by the write pointers. */
  ghost predicate Init(s: State) {
    && InitFlash(s.flash)
    && s.credits == s.flash.cfg.L && s.refill == s.flash.cfg.L
  }

  ghost predicate InitFlash(s: Flash) {
    && s.cfg.lines >= 2 && s.cfg.L >= 1
    && s.lines == seq(s.cfg.lines, i => seq(s.cfg.L, j => Free))
    && (forall l :: 0 <= l < |s.l2p| ==> s.l2p[l].None?)
    && s.free == LinesFromTwo(s.cfg.lines)
    && s.full == [] && s.victims == {}
    && s.user == Loc(0, 0) && s.gc == Loc(1, 0)
    && !s.dry
  }
}
