/**
  The command queue of a NAND plane (ssd.c): a timetable of commands in which a host command may
  be pushed in before a migration command, moving everything behind it back.
*/
module PlaneSchedules {
  import opened Basics
  import opened ChannelLanes
  import opened ChannelModels

  /** A command's kind, the block it works on and its time on the plane. */
  datatype Cmd = Cmd(migrate: bool, blk: nat, stime: nat, ctime: nat)

  // ---- The timetable as a value ----

  /** In order, one after the other, no two at the same time. */
  ghost predicate InOrder(q: seq<Cmd>) {
    && (forall i :: 0 <= i < |q| ==> q[i].stime <= q[i].ctime)
    && forall i, j :: 0 <= i < j < |q| ==> q[i].ctime <= q[j].stime
  }

  ghost predicate DoneBy(q: seq<Cmd>, t: nat) { forall i :: 0 <= i < |q| ==> q[i].ctime <= t }

  /** The flag and the time that the plane keeps about its migration commands. */
  ghost predicate MigrationKnown(q: seq<Cmd>, migrating: bool, etime: nat) {
    forall i :: 0 <= i < |q| && q[i].migrate ==> migrating && q[i].ctime <= etime
  }

  /** The commands that are not completed before t. */
  function Pending(q: seq<Cmd>, t: nat): seq<Cmd> {
    if q == [] then []
    else if q[0].ctime < t then Pending(q[1..], t)
    else [q[0]] + Pending(q[1..], t)
  }

  lemma {:induction false} PendingKeeps(q: seq<Cmd>, t: nat)
    requires InOrder(q)
    ensures var r := Pending(q, t);
            && InOrder(r) && |r| <= |q| && (forall c :: c in r <==> c in q && c.ctime >= t)
  {
    if q != [] {
      assert q == [q[0]] + q[1..];
      PendingKeeps(q[1..], t);
      var rest := Pending(q[1..], t);
      forall i | 0 <= i < |rest| ensures q[0].ctime <= rest[i].stime { assert rest[i] in q[1..]; }
    }
  }

  /** A migration command that a host command for block blk arriving at t may overtake. */
  predicate Overtakable(c: Cmd, blk: nat, t: nat) { c.migrate && c.stime > t && c.blk != blk }

  /** The first overtakable command, |q| if there is none. */
  function FirstOvertakable(q: seq<Cmd>, blk: nat, t: nat): (p: nat)
    ensures p <= |q| && (p < |q| ==> Overtakable(q[p], blk, t))
    ensures forall i :: 0 <= i < p ==> !Overtakable(q[i], blk, t)
    ensures p < |q| ==> q[p].migrate && q[p].stime > t && q[p].blk != blk
    ensures forall i :: 0 <= i < p ==> !q[i].migrate || q[i].stime <= t || q[i].blk == blk
  {
    if q == [] || Overtakable(q[0], blk, t) then 0 else 1 + FirstOvertakable(q[1..], blk, t)
  }

  function Delayed(c: Cmd, d: nat): Cmd { c.(stime := c.stime + d, ctime := c.ctime + d) }

  function AllDelayed(q: seq<Cmd>, d: nat): (r: seq<Cmd>)
    ensures |r| == |q| && forall i :: 0 <= i < |q| ==> r[i] == Delayed(q[i], d)
  {
    seq(|q|, i requires 0 <= i < |q| => Delayed(q[i], d))
  }

  /** The timetable after a command takes [stime, etime] at place p. */
  function Scheduled(q: seq<Cmd>, p: nat, c: Cmd): seq<Cmd>
    requires p <= |q| && c.stime <= c.ctime
  {
    q[..p] + [c] + AllDelayed(q[p..], c.ctime - c.stime)
  }

  /** Overtaking: everything behind moves back by exactly the new command's duration, and all stays in order. */
  lemma OvertakingKeeps(q: seq<Cmd>, p: nat, c: Cmd, avail: nat)
    requires InOrder(q) && DoneBy(q, avail) && p < |q| && c.stime == q[p].stime <= c.ctime
    ensures InOrder(Scheduled(q, p, c)) && DoneBy(Scheduled(q, p, c), avail + (c.ctime - c.stime))
  {
    var r, d := Scheduled(q, p, c), c.ctime - c.stime;
    forall i | 0 <= i < |r|
      ensures r[i] == if i < p then q[i] else if i == p then c else Delayed(q[i - 1], d)
    {}
    assert q[p].stime <= q[p].ctime;
  }

  /** Appending: the command starts when the plane is free. */
  lemma AppendingKeeps(q: seq<Cmd>, c: Cmd, avail: nat)
    requires InOrder(q) && DoneBy(q, avail) && avail <= c.stime <= c.ctime
    ensures Scheduled(q, |q|, c) == q + [c] && InOrder(q + [c]) && DoneBy(q + [c], c.ctime)
  {
    assert q[..|q|] == q;
  }

  function Busy(q: seq<Cmd>): int {
    if q == [] then 0 else q[0].ctime - q[0].stime + Busy(q[1..])
  }

  lemma {:induction false} BusyAppend(a: seq<Cmd>, b: seq<Cmd>)
    ensures Busy(a + b) == Busy(a) + Busy(b)
  {
    if a == [] { assert a + b == b; } else {
      assert (a + b)[1..] == a[1..] + b;
      BusyAppend(a[1..], b);
    }
  }

  lemma {:induction false} BusyDelayed(q: seq<Cmd>, d: nat)
    ensures Busy(AllDelayed(q, d)) == Busy(q)
  {
    if q != [] {
      assert AllDelayed(q, d)[1..] == AllDelayed(q[1..], d);
      BusyDelayed(q[1..], d);
    }
  }

  /** Scheduling adds the command's own time and changes nobody's duration. */
  lemma BusyConserved(q: seq<Cmd>, p: nat, c: Cmd)
    requires p <= |q| && c.stime <= c.ctime
    ensures Busy(Scheduled(q, p, c)) == Busy(q) + (c.ctime - c.stime)
  {
    hide Busy;
    BusyOfThree(q[..p], c, AllDelayed(q[p..], c.ctime - c.stime));
    BusyDelayed(q[p..], c.ctime - c.stime);
    BusyAppend(q[..p], q[p..]);
    assert q == q[..p] + q[p..];
  }

  lemma BusyOfThree(a: seq<Cmd>, c: Cmd, b: seq<Cmd>)
    ensures Busy(a + [c] + b) == Busy(a) + (c.ctime - c.stime) + Busy(b)
  {
    BusyOne(c);
    hide Busy;
    BusyAppend(a + [c], b);
    BusyAppend(a, [c]);
  }

  lemma BusyOne(c: Cmd)
    ensures Busy([c]) == c.ctime - c.stime
  {}

  class NandPlane {
    var queue: seq<Cmd>
    var depth: int
    var maxDepth: int
    var nextAvail: nat
    var migrating: bool
    var migratingEtime: nat

    ghost predicate Valid()
      reads this
    {
      && InOrder(queue) && DoneBy(queue, nextAvail) && MigrationKnown(queue, migrating, migratingEtime)
      && depth == |queue| <= maxDepth
    }

    constructor ()
      ensures Valid() && queue == [] && nextAvail == 0 && depth == maxDepth == 0 && !migrating
    {
      queue, depth, maxDepth, nextAvail, migrating, migratingEtime := [], 0, 0, 0, false, 0;
    }

    /** The first loop of plane_getstime: completed commands leave the queue. */
    method ClearCompleted(t: nat)
      modifies this`queue, this`depth
      ensures queue == Pending(old(queue), t) && depth - |queue| == old(depth - |queue|)
    {
      var i := 0;
      ghost var rest := queue;
      while i < |queue|
        invariant i <= |queue| && rest == queue[i..] && depth - |queue| == old(depth - |queue|)
        invariant queue[..i] + Pending(rest, t) == Pending(old(queue), t)
        decreases |rest|
      {
        assert rest[1..] == queue[i + 1..];
        if queue[i].ctime < t {
          ghost var was := queue;
          queue := queue[..i] + queue[i + 1..];
          depth := depth - 1;
          assert queue[..i] == was[..i] && queue[i..] == was[i + 1..];
        } else {
          assert queue[..i + 1] == queue[..i] + [queue[i]];
          i := i + 1;
        }
        rest := rest[1..];
      }
      assert queue[..i] == queue;
    }

    /**
      plane_getstime: the place and start time of a new command. The command is in the queue at
      place p afterwards; its completion time is not known yet.
    */
    method GetStime(migrate: bool, blk: nat, t: nat) returns (preempt: bool, stime: nat, p: nat)
      requires Valid()
      modifies this`queue, this`depth, this`maxDepth, this`migrating
      ensures var q := Pending(old(queue), t);
              && p == (if migrate then |q| else FirstOvertakable(q, blk, t)) && (preempt <==> p < |q|)
              && stime == (if preempt then q[p].stime else if nextAvail >= t then nextAvail else t)
              && queue == q[..p] + [Cmd(migrate, blk, stime, 0)] + q[p..]
              && InOrder(q) && DoneBy(q, nextAvail) && MigrationKnown(q, migrating, migratingEtime)
              && (migrate ==> migrating) && depth == |queue| <= maxDepth
      ensures migrating <==> migrate || (old(migrating) && t <= migratingEtime)
      ensures stime >= t && maxDepth == if old(maxDepth) >= depth then old(maxDepth) else depth
    {
      hide Pending, FirstOvertakable, InOrder, DoneBy, MigrationKnown;
      PendingKeeps(queue, t);
      ClearCompleted(t);
      ghost var q := queue;
      StillDone(old(queue), q, nextAvail, t);
      StillKnown(old(queue), q, migrating, migratingEtime, t);
      if t > migratingEtime {
        migrating := false;
      }
      preempt := false;
      if !migrate && migrating {
        var i := 0;
        while i < |queue|
          invariant i <= |queue| && !preempt && queue == q
          invariant forall j :: 0 <= j < i ==> !Overtakable(queue[j], blk, t)
        {
          if queue[i].migrate && queue[i].stime > t && queue[i].blk != blk {
            p := i;
            FirstIs(q, blk, t, p);
            stime := queue[i].stime;
            queue := queue[..i] + [Cmd(migrate, blk, stime, 0)] + queue[i..];
            preempt := true;
            break;
          }
          i := i + 1;
        }
      }
      if !preempt {
        p := |queue|;
        if !migrate && !migrating { NoMigration(q, migratingEtime, blk, t); }
        if !migrate { FirstIs(q, blk, t, p); }
        stime := if nextAvail >= t then nextAvail else t;
        queue := queue + [Cmd(migrate, blk, stime, 0)];
        if migrate && !migrating {
          NowMigrating(q, migrating, migratingEtime);
          migrating := true;
        }
      }
      depth := depth + 1;
      maxDepth := if maxDepth >= depth then maxDepth else depth;
    }

    /**
      plane_update: the command at place p completes at etime. When it overtook, everything
      behind it moves back by exactly its duration.
    */
    method Update(preempt: bool, p: nat, etime: nat)
      requires p < |queue| && (preempt <==> p + 1 < |queue|) && queue[p].stime <= etime && (preempt ==> !queue[p].migrate)
      requires var q := queue[..p] + queue[p + 1..];
               && InOrder(q) && DoneBy(q, nextAvail) && MigrationKnown(q, migrating, migratingEtime)
               && (if preempt then queue[p].stime == q[p].stime else nextAvail <= queue[p].stime)
               && (queue[p].migrate ==> migrating) && depth == |queue| <= maxDepth
      modifies this`queue, this`nextAvail, this`migratingEtime
      ensures Valid()
      ensures queue == old(Scheduled(queue[..p] + queue[p + 1..], p, queue[p].(ctime := etime)))
      ensures nextAvail == if preempt then old(nextAvail) + (etime - old(queue[p].stime)) else etime
    {
      hide InOrder, DoneBy, MigrationKnown, Scheduled, AllDelayed;
      ghost var q, c, was := queue[..p] + queue[p + 1..], queue[p].(ctime := etime), queue;
      CutOut(queue, p);
      var stime := queue[p].stime;
      if preempt {
        DelayBehind(p, etime - stime);
        nextAvail := nextAvail + (etime - stime);
        OvertakingKeeps(q, p, c, old(nextAvail));
      } else {
        nextAvail := etime;
        AppendingKeeps(q, c, old(nextAvail));
      }
      queue := queue[p := queue[p].(ctime := etime)];
      if queue[p].migrate && etime > migratingEtime {
        migratingEtime := etime;
      }
      PlacedIn(was, queue, q, p, c);
      MoreTime(q, migrating, old(migratingEtime), migratingEtime);
      MigrationScheduled(q, p, c, migrating, migratingEtime);
    }

    /** The delaying loop of plane_update. */
    method DelayBehind(p: nat, d: nat)
      requires p < |queue|
      modifies this`queue, this`migratingEtime
      ensures queue == old(queue[..p + 1] + AllDelayed(queue[p + 1..], d)) && migratingEtime >= old(migratingEtime)
      ensures forall j :: p + 1 <= j < |old(queue)| && old(queue)[j].migrate ==> old(queue)[j].ctime + d <= migratingEtime
    {
      ghost var was := queue;
      var i, delay := 0, false;
      while i < |queue|
        invariant i <= |queue| == |was| && (delay <==> i > p) && migratingEtime >= old(migratingEtime)
        invariant queue == if delay then was[..p + 1] + AllDelayed(was[p + 1..i], d) + was[i..] else was
        invariant forall j :: p + 1 <= j < i && was[j].migrate ==> was[j].ctime + d <= migratingEtime
      {
        if delay {
          DelayNext(was, queue, p, i, d);
          queue := queue[i := Delayed(queue[i], d)];
          if queue[i].migrate && queue[i].ctime > migratingEtime {
            migratingEtime := queue[i].ctime;
          }
        }
        if i == p {
          assert was == was[..p + 1] + AllDelayed(was[p + 1..p + 1], d) + was[p + 1..];
          delay := true;
        }
        i := i + 1;
      }
    }

    /**
      The command was timed on what was pending at its arrival: the place and the start of the first command
      it may overtake, otherwise last and when the plane is free, never before its arrival.
    */
    ghost predicate Timed(q0: seq<Cmd>, avail: nat, migrate: bool, blk: nat, t: nat, p: nat, c: Cmd)
      reads this
    {
      var q := Pending(q0, t);
      && p == (if migrate then |q| else FirstOvertakable(q, blk, t)) && p <= |q|
      && c.migrate == migrate && c.blk == blk && t <= c.stime <= c.ctime
      && c.stime == (if p < |q| then q[p].stime else if avail >= t then avail else t)
      && queue == Scheduled(q, p, c)
      && nextAvail == if p < |q| then avail + (c.ctime - c.stime) else c.ctime
    }

    /** From plane_getstime to plane_update, for a command that keeps the plane until etime. */
    method Finish(preempt: bool, p: nat, stime: nat, etime: nat, ghost q0: seq<Cmd>, migrate: bool, blk: nat, ghost t: nat)
      requires var q := Pending(q0, t);
               && p == (if migrate then |q| else FirstOvertakable(q, blk, t)) && (preempt <==> p < |q|)
               && stime == (if preempt then q[p].stime else if nextAvail >= t then nextAvail else t)
               && queue == q[..p] + [Cmd(migrate, blk, stime, 0)] + q[p..]
               && InOrder(q) && DoneBy(q, nextAvail) && MigrationKnown(q, migrating, migratingEtime)
               && (migrate ==> migrating) && depth == |queue| <= maxDepth
      requires t <= stime <= etime
      modifies this`queue, this`nextAvail, this`migratingEtime
      ensures Valid() && Timed(q0, old(nextAvail), migrate, blk, t, p, Cmd(migrate, blk, stime, etime))
    {
      hide InOrder, DoneBy, MigrationKnown, Pending, FirstOvertakable, Scheduled;
      ghost var q := Pending(q0, t);
      assert queue[..p] + queue[p + 1..] == q;
      Update(preempt, p, etime);
    }

    /** The transfer loop of NAND_READ. */
    static method SendPieces(start: nat, xferSize: nat, maxXfer: nat, overlapPci: bool, ch: ChannelModel, pci: ChannelModel, now: nat)
      returns (chnlEtime: nat, completed: nat)
      requires xferSize > 0 && maxXfer > 0
      requires ch.Valid() && pci.Valid() && ch != pci && ch.avail != pci.avail && ch.curTime <= now && pci.curTime <= now
      modifies ch, ch.avail, pci, pci.avail
      ensures ch.Valid() && pci.Valid() && ch.curTime == now >= pci.curTime
      ensures Transfer(chnlEtime, completed, ch.LaneAt(now), pci.LaneAt(now))
           == Pieces(old(ch.LaneAt(now)), old(pci.LaneAt(now)), overlapPci, now, start, xferSize, maxXfer)
      ensures start <= chnlEtime <= completed
      ensures !overlapPci ==> completed == chnlEtime && unchanged(pci) && unchanged(pci.avail)
    {
      hide ChannelModel.Valid, ChannelModel.LaneAt, Ask, Pieces;
      var chnlStime := start;
      chnlEtime, completed := chnlStime, chnlStime;
      var remaining := xferSize;
      ghost var all := Pieces(ch.LaneAt(now), pci.LaneAt(now), overlapPci, now, start, xferSize, maxXfer);
      while remaining > 0
        invariant ch.Valid() && pci.Valid() && ch.curTime <= now && pci.curTime <= now
        invariant remaining <= xferSize && (remaining < xferSize ==> ch.curTime == now)
        invariant chnlEtime == chnlStime && completed >= chnlEtime >= start
        invariant !overlapPci ==> completed == chnlEtime && unchanged(pci) && unchanged(pci.avail)
        invariant if remaining > 0
                  then all == Pieces(ch.LaneAt(now), pci.LaneAt(now), overlapPci, now, chnlStime, remaining, maxXfer)
                  else all == Transfer(chnlEtime, completed, ch.LaneAt(now), pci.LaneAt(now))
      {
        FirstPiece(ch.LaneAt(now), pci.LaneAt(now), overlapPci, now, chnlStime, remaining, maxXfer);
        var xfer := if remaining <= maxXfer then remaining else maxXfer;
        chnlEtime := ch.Request(now, chnlStime, xfer);
        if overlapPci {
          completed := pci.Request(now, chnlEtime, xfer);
        } else {
          completed := chnlEtime;
        }
        remaining := remaining - xfer;
        chnlStime := chnlEtime;
      }
    }

    /** NAND_READ: the array first, then the channel in pieces, each piece to the host as it arrives. */
    method Read(migrate: bool, blk: nat, t: nat, lat: nat, xferSize: nat, maxXfer: nat, overlapPci: bool,
                ch: ChannelModel, pci: ChannelModel, now: nat)
      returns (completed: nat, ghost p: nat, ghost c: Cmd)
      requires Valid() && xferSize > 0 && maxXfer > 0
      requires ch.Valid() && pci.Valid() && ch != pci && ch.avail != pci.avail && ch.curTime <= now && pci.curTime <= now
      modifies this, ch, ch.avail, pci, pci.avail
      ensures Valid() && Timed(old(queue), old(nextAvail), migrate, blk, t, p, c)
      ensures ch.Valid() && pci.Valid() && ch.curTime == now >= pci.curTime
      ensures Transfer(c.ctime, completed, ch.LaneAt(now), pci.LaneAt(now))
           == Pieces(old(ch.LaneAt(now)), old(pci.LaneAt(now)), overlapPci, now, c.stime + lat, xferSize, maxXfer)
      ensures c.ctime >= c.stime + lat && completed >= c.ctime
      ensures !overlapPci ==> completed == c.ctime && unchanged(pci) && unchanged(pci.avail)
    {
      hide Valid, Timed, ChannelModel.Valid, ChannelModel.LaneAt, Ask, Pieces;
      var preempt, stime, place := GetStime(migrate, blk, t);
      var chnlEtime;
      chnlEtime, completed := SendPieces(stime + lat, xferSize, maxXfer, overlapPci, ch, pci, now);
      Finish(preempt, place, stime, chnlEtime, old(queue), migrate, blk, t);
      p, c := place, Cmd(migrate, blk, stime, chnlEtime);
    }

    /** NAND_WRITE: the channel first, then the array. */
    method Write(migrate: bool, blk: nat, t: nat, lat: nat, xferSize: nat, ch: ChannelModel, now: nat)
      returns (completed: nat, ghost p: nat, ghost c: Cmd)
      requires Valid() && ch.Valid() && ch.curTime <= now
      modifies this, ch, ch.avail
      ensures Valid() && Timed(old(queue), old(nextAvail), migrate, blk, t, p, c) && ch.Valid() && ch.curTime == now
      ensures completed == c.ctime >= c.stime + lat
      ensures (completed - lat, ch.LaneAt(now)) == Ask(old(ch.LaneAt(now)), now, c.stime, xferSize)
    {
      hide Valid, Timed, ChannelModel.Valid, ChannelModel.LaneAt, Ask;
      var preempt, stime, place := GetStime(migrate, blk, t);
      var chnlEtime := ch.Request(now, stime, xferSize);
      completed := chnlEtime + lat;
      Finish(preempt, place, stime, completed, old(queue), migrate, blk, t);
      p, c := place, Cmd(migrate, blk, stime, completed);
    }

    /** NAND_ERASE: only the array. */
    method Erase(migrate: bool, blk: nat, t: nat, lat: nat) returns (completed: nat, ghost p: nat, ghost c: Cmd)
      requires Valid()
      modifies this
      ensures Valid() && Timed(old(queue), old(nextAvail), migrate, blk, t, p, c) && c.ctime == c.stime + lat == completed
    {
      hide Valid, Timed;
      var preempt, stime, place := GetStime(migrate, blk, t);
      completed := stime + lat;
      Finish(preempt, place, stime, completed, old(queue), migrate, blk, t);
      p, c := place, Cmd(migrate, blk, stime, completed);
    }

    /** NAND_NOP: no command, but the plane counts as busy until the answer. */
    method Nop(t: nat) returns (completed: nat)
      requires Valid()
      modifies this`nextAvail
      ensures Valid() && queue == old(queue) && completed == nextAvail == if old(nextAvail) >= t then old(nextAvail) else t
    {
      completed := if nextAvail >= t then nextAvail else t;
      nextAvail := completed;
    }
  }

  lemma DelayNext(was: seq<Cmd>, q: seq<Cmd>, p: nat, i: nat, d: nat)
    requires p + 1 <= i < |was| && q == was[..p + 1] + AllDelayed(was[p + 1..i], d) + was[i..]
    ensures q[i] == was[i] && q[i := Delayed(q[i], d)] == was[..p + 1] + AllDelayed(was[p + 1..i + 1], d) + was[i + 1..]
  {}

  lemma MoreTime(q: seq<Cmd>, migrating: bool, etime: nat, later: nat)
    requires MigrationKnown(q, migrating, etime)
    ensures later >= etime ==> MigrationKnown(q, migrating, later)
  {}

  lemma CutOut(q: seq<Cmd>, p: nat)
    requires p < |q|
    ensures var r := q[..p] + q[p + 1..];
            && |r| == |q| - 1 && r[..p] == q[..p] && r[p..] == q[p + 1..] && forall j :: p <= j < |r| ==> r[j] == q[j + 1]
  {}

  lemma PlacedIn(was: seq<Cmd>, now: seq<Cmd>, q: seq<Cmd>, p: nat, c: Cmd)
    requires p < |was| && q == was[..p] + was[p + 1..] && c == was[p].(ctime := c.ctime) && c.stime <= c.ctime
    requires if p + 1 < |was| then now == (was[..p + 1] + AllDelayed(was[p + 1..], c.ctime - c.stime))[p := c]
             else now == was[p := c]
    ensures now == Scheduled(q, p, c)
  {
    assert q[..p] == was[..p] && q[p..] == was[p + 1..];
  }

  lemma MigrationScheduled(q: seq<Cmd>, p: nat, c: Cmd, migrating: bool, etime: nat)
    requires MigrationKnown(q, migrating, etime) && p <= |q| && c.stime <= c.ctime
    requires c.migrate ==> migrating && c.ctime <= etime
    requires forall j :: p <= j < |q| && q[j].migrate ==> q[j].ctime + (c.ctime - c.stime) <= etime
    ensures MigrationKnown(Scheduled(q, p, c), migrating, etime)
  {
    var r := Scheduled(q, p, c);
    forall i | 0 <= i < |r| ensures r[i] == if i < p then q[i] else if i == p then c else Delayed(q[i - 1], c.ctime - c.stime) {}
  }

  /** Once t is past every migration, no migration command is left pending. */
  lemma StillKnown(q: seq<Cmd>, r: seq<Cmd>, migrating: bool, etime: nat, t: nat)
    requires MigrationKnown(q, migrating, etime) && forall c :: c in r <==> c in q && c.ctime >= t
    ensures MigrationKnown(r, if t > etime then false else migrating, etime)
  {
    forall i | 0 <= i < |r| && r[i].migrate ensures migrating && r[i].ctime <= etime && t <= etime {
      assert r[i] in r && r[i] in q;
    }
  }

  lemma StillDone(q: seq<Cmd>, r: seq<Cmd>, avail: nat, t: nat)
    requires DoneBy(q, avail) && forall c :: c in r <==> c in q && c.ctime >= t
    ensures DoneBy(r, avail)
  {
    forall i | 0 <= i < |r| ensures r[i].ctime <= avail { assert r[i] in r && r[i] in q; }
  }

  lemma NowMigrating(q: seq<Cmd>, migrating: bool, etime: nat)
    requires MigrationKnown(q, migrating, etime)
    ensures MigrationKnown(q, true, etime)
  {}

  /** A plane that is not migrating has nothing to overtake: looking only when it is misses nothing. */
  lemma NoMigration(q: seq<Cmd>, etime: nat, blk: nat, t: nat)
    requires MigrationKnown(q, false, etime)
    ensures forall i :: 0 <= i < |q| ==> !Overtakable(q[i], blk, t)
  {}

  lemma {:induction false} FirstIs(q: seq<Cmd>, blk: nat, t: nat, p: nat)
    requires p <= |q| && (p < |q| ==> Overtakable(q[p], blk, t)) && forall i :: 0 <= i < p ==> !Overtakable(q[i], blk, t)
    ensures p == FirstOvertakable(q, blk, t)
  {
    if p > 0 {
      assert !Overtakable(q[0], blk, t);
      FirstIs(q[1..], blk, t, p - 1);
    }
  }
}
