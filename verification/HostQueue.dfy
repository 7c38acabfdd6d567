/**
  The dispatch of a submission queue, nvmev_proc_io_sq in io.c with conv_proc_nvme_io_cmd behind it: commands are
  handed to the translation layer from the old doorbell to the new one until one is refused. However many rounds the
  host rings, the tables hold what was last written.
*/
module HostQueues {
  import opened Basics
  import opened Geometry
  import opened PriorityQueues
  import opened LogMachine
  import opened FtlInvariant
  import opened FtlRuns
  import opened FtlSnap
  import opened ConvFtl

  /**
    A command as the translation layer sees it: the pages of a write with what the host stores in them and whether
    the write buffer has room when it is tried, the last page of a read, or an opcode that touches no table.
  */
  datatype Command = WriteCommand(start: nat, data: seq<int>, buffered: bool) | ReadCommand(endLpn: nat) | OtherCommand

  /** nr_lba is length + 1: a write covers at least one page. */
  predicate WellFormed(c: Command) { c.WriteCommand? ==> c.data != [] }

  predicate Accepted(c: Command, pages: nat) {
    match c
    case WriteCommand(start, data, buffered) => start + |data| <= pages && buffered
    case ReadCommand(endLpn) => endLpn < pages
    case OtherCommand => true
  }

  /** The page writes of a command, in order. */
  function WritesOf(c: Command): seq<Write> {
    if c.WriteCommand? then seq(|c.data|, i requires 0 <= i < |c.data| => Write(c.start + i, c.data[i])) else []
  }

  function AllWrites(cs: seq<Command>): seq<Write> {
    if cs == [] then [] else AllWrites(cs[..|cs| - 1]) + WritesOf(cs[|cs| - 1])
  }

  /** The i-th command from a doorbell on, around the end of the ring. */
  function At(sq: seq<Command>, db: nat, i: nat): Command
    requires db < |sq| && i <= |sq|
  {
    if db + i < |sq| then sq[db + i] else if db + i < 2 * |sq| then sq[db + i - |sq|] else OtherCommand
  }

  function Pending(oldDb: nat, newDb: nat, size: nat): (r: nat)
    requires oldDb < size && newDb < size
    ensures r < size
  {
    if newDb >= oldDb then newDb - oldDb else newDb - oldDb + size
  }

  lemma AroundTheRing(db: nat, size: nat)
    requires db < size
    ensures db % size == db && (db + size) % size == db
  {
    SplitJoin(0, size, db);
    SplitJoin(1, size, db);
  }

  /** The first k commands from a doorbell on. */
  function Taken(sq: seq<Command>, db: nat, k: nat): (r: seq<Command>)
    requires db < |sq| && k <= |sq|
    ensures |r| == k && forall i :: 0 <= i < k ==> r[i] == At(sq, db, i)
  {
    seq(k, i requires 0 <= i < k => At(sq, db, i))
  }

  /** The device keeps its invariant, has mapped exactly what the writes ws touched, and reads back their newest data. */
  ghost predicate Remembers(s: State, ws: seq<Write>) {
    && Inv(s) && Mapped(s.flash.l2p) == Written(ws)
    && forall l: nat :: Read(s.flash, l) == LastWrite(ws, l)
  }

  /** The writes ws and those of the commands that will be accepted leave four lines of pages untouched. */
  ghost predicate RoomFor(cfg: Config, ws: seq<Write>, cs: seq<Command>, pages: nat) {
    forall k: nat :: k <= |cs| && AllAccepted(cs, k, pages) ==> Roomy(cfg, Written(ws + AllWrites(cs[..k])))
  }

  predicate AllAccepted(cs: seq<Command>, k: nat, pages: nat) {
    k <= |cs| && forall i :: 0 <= i < k ==> Accepted(cs[i], pages)
  }

  // ---- Values ----

  lemma {:induction false} LastOfSpan(ws: seq<Write>, c: Command, k: nat, l: nat)
    requires c.WriteCommand? && k <= |c.data|
    ensures LastWrite(ws + WritesOf(c)[..k], l) == if c.start <= l < c.start + k then Some(c.data[l - c.start]) else LastWrite(ws, l)
  {
    var us := WritesOf(c);
    if k == 0 {
      assert ws + us[..0] == ws;
    } else {
      LastOfSpan(ws, c, k - 1, l);
      var vs := ws + us[..k];
      assert vs[..|vs| - 1] == ws + us[..k - 1];
    }
  }

  lemma WrittenOf(ws: seq<Write>, c: Command)
    requires c.WriteCommand?
    ensures Written(ws + WritesOf(c)) == Written(ws) + Span(c.start, |c.data|)
  {
    var us := WritesOf(c);
    forall l: nat | l in Written(ws) + Span(c.start, |c.data|) ensures l in Written(ws + us) {
      if l in Written(ws) {
        var w :| w in ws && w.lpn == l;
        assert w in ws + us;
      } else {
        assert us[l - c.start].lpn == l && us[l - c.start] in ws + us;
      }
    }
    forall l | l in Written(ws + us) ensures l in Written(ws) + Span(c.start, |c.data|) {
      var w :| w in ws + us && w.lpn == l;
      if w !in ws { assert w in us; }
    }
  }

  /** A command's pages are stored, and the device remembers one command more. */
  lemma RemembersStep(s: State, ws: seq<Write>, c: Command, t: State)
    requires c.WriteCommand? && Remembers(s, ws) && Stored(s, c.start, c.data, t)
    ensures Remembers(t, ws + WritesOf(c))
  {
    hide Inv, Read, Mapped, LastWrite, Written, WritesOf;
    WrittenOf(ws, c);
    forall l: nat ensures Read(t.flash, l) == LastWrite(ws + WritesOf(c), l) {
      LastOfSpan(ws, c, |c.data|, l);
      AllOfThem(c);
    }
  }

  lemma AllOfThem(c: Command)
    requires c.WriteCommand?
    ensures WritesOf(c)[..|c.data|] == WritesOf(c)
  {}

  lemma Remembered(s: State, ws: seq<Write>)
    requires Remembers(s, ws)
    ensures Inv(s) && Mapped(s.flash.l2p) == Written(ws)
  {
    hide Inv, Mapped, Written, Read, LastWrite;
  }

  lemma StoredKeepsConfig(s: State, start: nat, data: seq<int>, t: State)
    requires Stored(s, start, data, t)
    ensures t.flash.cfg == s.flash.cfg
  {}

  lemma NoWrites(ws: seq<Write>, c: Command)
    requires !c.WriteCommand?
    ensures ws + WritesOf(c) == ws
  {}

  /** A device fresh from its initialisation remembers the empty history. */
  lemma PoweredUpRemembers(s: State)
    requires Init(s) && OrderOk(s.flash.cfg) && s.flash.cfg.lines >= 4
    ensures Remembers(s, [])
  {
    InitHolds(s);
    assert Mapped(s.flash.l2p) == {} == Written([]);
  }

  lemma OneCommandMore(ws: seq<Write>, cs: seq<Command>, k: nat)
    requires k < |cs|
    ensures ws + AllWrites(cs[..k + 1]) == (ws + AllWrites(cs[..k])) + WritesOf(cs[k])
  {
    var ds := cs[..k + 1];
    assert ds[..|ds| - 1] == cs[..k];
  }

  lemma NoCommand(ws: seq<Write>, cs: seq<Command>)
    ensures ws + AllWrites(cs[..0]) == ws
  {}

  lemma RoomForNext(cfg: Config, ws: seq<Write>, cs: seq<Command>, k: nat, pages: nat)
    requires RoomFor(cfg, ws, cs, pages) && k < |cs| && AllAccepted(cs, k, pages)
    ensures Accepted(cs[k], pages) ==> Roomy(cfg, Written((ws + AllWrites(cs[..k])) + WritesOf(cs[k])))
  {
    hide Roomy, Written;
    OneCommandMore(ws, cs, k);
    assert Accepted(cs[k], pages) ==> AllAccepted(cs, k + 1, pages);
  }

  // ---- The code ----

  /** conv_proc_nvme_io_cmd: reads and other commands change no table. */
  method ProcIoCmd(ftl: ConvFtl, c: Command, ghost ws: seq<Write>) returns (ok: bool)
    requires WellFormed(c) && ftl.Rep({}) && Remembers(ftl.Machine(), ws)
    requires Accepted(c, ftl.geo.TtPgs()) ==> Roomy(ftl.Lines().cfg, Written(ws + WritesOf(c)))
    modifies ftl, ftl.pq, ftl.pq.d, ftl.maptbl, ftl.rmap
    ensures ok <==> Accepted(c, ftl.geo.TtPgs())
    ensures ftl.Rep({}) && Remembers(ftl.Machine(), if ok then ws + WritesOf(c) else ws)
    ensures ftl.Lines().cfg == old(ftl.Lines().cfg)
  {
    hide PQueue.Valid, PQueue.WellFormed, Geo.PgsPerBlk, Geo.PgsPerLine, Geo.TtPgs, View, Roomy, Inv, NandShape, WpOk,
         BlocksOk, LineCountersOk, ListsOk, Mapped, Stored, Remembers, Written, WritesOf;
    match c
    case WriteCommand(start, data, buffered) =>
      WrittenOf(ws, c);
      Remembered(ftl.Machine(), ws);
      ghost var s := ftl.Machine();
      ok := ftl.ConvWrite(start, start + |data| - 1, buffered, data);
      if ok {
        RemembersStep(s, ws, c, ftl.Machine());
        StoredKeepsConfig(s, start, data, ftl.Machine());
      }
    case ReadCommand(endLpn) =>
      ok := endLpn < ftl.geo.TtPgs();
      NoWrites(ws, c);
    case OtherCommand =>
      ok := true;
      NoWrites(ws, c);
  }

  /** nvmev_proc_io_sq: the new position in the ring, n commands further; the n-th is the first that was refused. */
  method ProcIoSq(ftl: ConvFtl, sq: seq<Command>, oldDb: nat, newDb: nat, ghost ws: seq<Write>)
    returns (latestDb: nat, ghost n: nat)
    requires oldDb < |sq| && newDb < |sq| && forall c :: c in sq ==> WellFormed(c)
    requires ftl.Rep({}) && Remembers(ftl.Machine(), ws)
    requires RoomFor(ftl.Lines().cfg, ws, Taken(sq, oldDb, Pending(oldDb, newDb, |sq|)), ftl.geo.TtPgs())
    modifies ftl, ftl.pq, ftl.pq.d, ftl.maptbl, ftl.rmap
    ensures n <= Pending(oldDb, newDb, |sq|) && latestDb == (oldDb + n) % |sq|
    ensures forall i: nat :: i < n ==> Accepted(At(sq, oldDb, i), ftl.geo.TtPgs())
    ensures n == Pending(oldDb, newDb, |sq|) ==> latestDb == newDb
    ensures n < Pending(oldDb, newDb, |sq|) ==> !Accepted(At(sq, oldDb, n), ftl.geo.TtPgs())
    ensures ftl.Rep({}) && Remembers(ftl.Machine(), ws + AllWrites(Taken(sq, oldDb, n)))
  {
    hide PQueue.Valid, PQueue.WellFormed, Geo.PgsPerBlk, Geo.PgsPerLine, Geo.TtPgs, View, Roomy, Inv, NandShape, WpOk,
         BlocksOk, LineCountersOk, ListsOk, Mapped, Remembers, Written, WritesOf, AllWrites, RoomFor, Accepted;
    var numProc := newDb - oldDb;
    if numProc < 0 {
      numProc := numProc + |sq|;
    }
    ghost var cs := Taken(sq, oldDb, numProc);
    ghost var cfg := ftl.Lines().cfg;
    var i, sqEntry := 0, oldDb;
    NoCommand(ws, cs);
    while i < numProc
      invariant 0 <= i <= numProc == Pending(oldDb, newDb, |sq|)
      invariant sqEntry == if oldDb + i < |sq| then oldDb + i else oldDb + i - |sq|
      invariant AllAccepted(cs, i, ftl.geo.TtPgs()) && ftl.Rep({}) && ftl.Lines().cfg == cfg
      invariant Remembers(ftl.Machine(), ws + AllWrites(cs[..i]))
    {
      OneCommandMore(ws, cs, i);
      RoomForNext(cfg, ws, cs, i, ftl.geo.TtPgs());
      var ok := ProcIoCmd(ftl, sq[sqEntry], ws + AllWrites(cs[..i]));
      if !ok { break; }
      sqEntry, i := sqEntry + 1, i + 1;
      if sqEntry == |sq| {
        sqEntry := 0;
      }
    }
    assert cs[..i] == Taken(sq, oldDb, i);
    AroundTheRing(newDb, |sq|);
    latestDb := (oldDb + i) % |sq|;
    n := i;
  }
}
