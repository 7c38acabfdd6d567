/**
  The timeline behind channel_model.c as a value: credits per time slot, what a request takes from them and when it is
  answered, and a transfer in pieces as ssd_advance_nand makes it.
*/
module ChannelLanes {
  import opened Basics
  import Geometry

  const UNIT_TIME_INTERVAL: nat := 4000
  const UNIT_XFER_SIZE: nat := 128
  const UNIT_XFER_CREDITS: nat := 1
  const NR_CREDIT_ENTRIES: nat := 98304

  // ---- Draining a line of slots ----

  function Min(a: nat, b: nat): nat { if a <= b then a else b }

  /** What is left of the slots after `want` credits were taken, earliest slot first. */
  function Drain(slots: seq<nat>, want: nat): (r: seq<nat>)
    ensures |r| == |slots|
  {
    if slots == [] then []
    else [slots[0] - Min(want, slots[0])] + Drain(slots[1..], want - Min(want, slots[0]))
  }

  /** The credits that found no slot. */
  function Unmet(slots: seq<nat>, want: nat): nat {
    if slots == [] then want else Unmet(slots[1..], want - Min(want, slots[0]))
  }

  /** The slot the last credit comes from; the last slot when there are not enough. */
  function StopAt(slots: seq<nat>, want: nat): nat {
    if |slots| <= 1 || want <= slots[0] then 0 else 1 + StopAt(slots[1..], want - slots[0])
  }

  function Total(slots: seq<nat>): nat {
    if slots == [] then 0 else slots[0] + Total(slots[1..])
  }

  /** Credits are neither made nor lost, and something stays unmet only when every slot is empty. */
  lemma {:induction false} DrainConserves(slots: seq<nat>, want: nat)
    ensures Total(Drain(slots, want)) + want == Total(slots) + Unmet(slots, want)
    ensures Unmet(slots, want) <= want
    ensures Unmet(slots, want) > 0 ==> Total(Drain(slots, want)) == 0
    ensures Unmet(slots, want) == 0 <==> want <= Total(slots)
  {
    if slots != [] {
      var d := Drain(slots, want);
      assert d[1..] == Drain(slots[1..], want - Min(want, slots[0]));
      DrainConserves(slots[1..], want - Min(want, slots[0]));
    }
  }

  /** Earliest first: slots before the stop are emptied, slots after it untouched. */
  lemma {:induction false} DrainShape(slots: seq<nat>, want: nat, i: nat)
    requires i < |slots|
    ensures StopAt(slots, want) < |slots|
    ensures i < StopAt(slots, want) ==> Drain(slots, want)[i] == 0
    ensures i > StopAt(slots, want) ==> Drain(slots, want)[i] == slots[i]
    ensures Drain(slots, want)[i] <= slots[i]
  {
    if |slots| > 1 && want > slots[0] {
      DrainShape(slots[1..], want - slots[0], if i == 0 then 0 else i - 1);
    } else if i > 0 {
      DrainNothing(slots[1..]);
    }
  }

  lemma {:induction false} DrainNothing(slots: seq<nat>)
    ensures Drain(slots, 0) == slots && Unmet(slots, 0) == 0
  {
    if slots != [] { DrainNothing(slots[1..]); }
  }

  // ---- Where the last credit comes from ----

  lemma {:induction false} TotalFirst(slots: seq<nat>, n: nat)
    requires n < |slots|
    ensures Total(slots[..n + 1]) == slots[0] + Total(slots[1..][..n])
  {
    assert slots[..n + 1][1..] == slots[1..][..n];
  }

  /** It is the first slot up to which there are credits enough. */
  lemma {:induction false} StopIsFirstEnough(slots: seq<nat>, want: nat, d: nat)
    requires d < |slots| && want <= Total(slots[..d + 1]) && (d > 0 ==> Total(slots[..d]) < want)
    ensures StopAt(slots, want) == d
  {
    if d == 0 {
      TotalFirst(slots, 0);
    } else {
      TotalFirst(slots, d);
      TotalFirst(slots, d - 1);
      StopIsFirstEnough(slots[1..], want - slots[0], d - 1);
    }
  }

  /** j used-up slots, then idle ones. */
  predicate BusyThenIdle(slots: seq<nat>, j: nat, max: nat) {
    j <= |slots| && (forall i :: 0 <= i < j ==> slots[i] == 0) && forall i :: j <= i < |slots| ==> slots[i] == max
  }

  lemma {:induction false} StopBehind(slots: seq<nat>, j: nat, want: nat, max: nat)
    requires max >= 1 && BusyThenIdle(slots, j, max) && 1 <= want <= max * (|slots| - j)
    ensures StopAt(slots, want) == j + (want - 1) / max
    decreases |slots|
  {
    if |slots| - j <= 0 { NotPositive(max, |slots| - j); }
    if j > 0 {
      StopBehind(slots[1..], j - 1, want, max);
    } else if want <= max {
      SmallQuotient(want - 1, max);
    } else {
      OneSlotLess(max, |slots|);
      OneQuotientLess(want - 1, max);
      StopBehind(slots[1..], 0, want - max, max);
    }
  }

  lemma NotPositive(max: nat, n: int)
    requires n <= 0
    ensures max * n <= 0
  {}

  lemma OneSlotLess(max: nat, n: nat)
    ensures max * n == max * (n - 1) + max && (n <= 1 ==> max * n <= max)
  {}

  lemma SmallQuotient(x: nat, n: nat)
    requires x < n
    ensures x / n == 0
  {}

  lemma QuotientIs(x: nat, n: nat, q: nat, r: nat)
    requires n >= 1 && x == q * n + r && r < n
    ensures x / n == q
  {
    Geometry.SplitJoin(q, n, r);
  }

  lemma OneQuotientLess(x: nat, n: nat)
    requires 1 <= n <= x
    ensures x / n == (x - n) / n + 1
  {
    var q, r := x / n, x % n;
    assert x == q * n + r;
    if q == 0 { assert false; }
    assert x - n == (q - 1) * n + r;
    QuotientIs(x - n, n, q - 1, r);
  }

  // ---- A request ----

  /** The smallest number of transfer units that hold so many bytes. */
  function Units(length: nat): (u: nat)
    ensures u * UNIT_XFER_SIZE >= length && (u > 0 ==> (u - 1) * UNIT_XFER_SIZE < length)
  {
    (length + UNIT_XFER_SIZE - 1) / UNIT_XFER_SIZE
  }

  /**
    The slots from slot `first`, the current one, to the end of the ring; the credits of an idle slot; the transfer time
    of a unit; the credits a command costs by itself.
  */
  datatype Lane = Lane(slots: seq<nat>, first: nat, max: nat, lat: nat, extra: nat)

  function Credits(l: Lane, length: nat): nat { Units(length) * UNIT_XFER_CREDITS + l.extra }

  /** Slots waited beyond what the request needs at full bandwidth. */
  function Waited(slots: seq<nat>, want: nat, max: nat): nat
    requires max >= 1
  {
    var delay := StopAt(slots, want);
    if delay > want / max then delay - want / max else 0
  }

  /** A request that is neither in the past nor beyond the ring. */
  predicate InRing(l: Lane, now: nat, time: nat) {
    now <= time && l.first <= time / UNIT_TIME_INTERVAL < l.first + |l.slots|
  }

  /** When a request is answered, and what is left of the slots. */
  function Ask(l: Lane, now: nat, time: nat, length: nat): (r: (nat, Lane))
    requires l.max >= 1
    ensures r.0 >= time && r.1 == l.(slots := r.1.slots) && |r.1.slots| == |l.slots|
  {
    if !InRing(l, now, time) then (time, l)
    else
      var k := time / UNIT_TIME_INTERVAL - l.first;
      var want := Credits(l, length);
      (time + l.lat * Units(length) + Waited(l.slots[k..], want, l.max) * UNIT_TIME_INTERVAL,
       l.(slots := l.slots[..k] + Drain(l.slots[k..], want)))
  }

  /** No other slot changes, and the credits of the request are taken from its own slot on. */
  lemma AskTakes(l: Lane, now: nat, time: nat, length: nat)
    requires l.max >= 1 && InRing(l, now, time)
    ensures var k, after := time / UNIT_TIME_INTERVAL - l.first, Ask(l, now, time, length).1;
            && after.slots[..k] == l.slots[..k] && after.slots[k..] == Drain(l.slots[k..], Credits(l, length))
            && (Credits(l, length) <= Total(l.slots[k..]) ==> Total(after.slots) == Total(l.slots) - Credits(l, length))
  {
    var k := time / UNIT_TIME_INTERVAL - l.first;
    var d := Drain(l.slots[k..], Credits(l, length));
    DrainConserves(l.slots[k..], Credits(l, length));
    assert l.slots == l.slots[..k] + l.slots[k..];
    TotalJoin(l.slots[..k], l.slots[k..]);
    TotalJoin(l.slots[..k], d);
  }

  lemma {:induction false} TotalJoin(a: seq<nat>, b: seq<nat>)
    ensures Total(a + b) == Total(a) + Total(b)
  {
    if a == [] {
      assert a + b == b;
    } else {
      assert (a + b)[1..] == a[1..] + b;
      TotalJoin(a[1..], b);
    }
  }

  /**
    Behind j used-up slots and with idle ones after them a request waits for these j slots, or one less when its last
    slot is used to the full, and nothing on an idle channel.
  */
  lemma BehindBusySlots(l: Lane, now: nat, time: nat, length: nat, j: nat)
    requires l.max >= 1 && InRing(l, now, time)
    requires var k := time / UNIT_TIME_INTERVAL - l.first;
             BusyThenIdle(l.slots[k..], j, l.max) && 1 <= Credits(l, length) <= l.max * (|l.slots| - k - j)
    ensures Ask(l, now, time, length).0 == time + l.lat * Units(length)
              + (if Credits(l, length) % l.max == 0 && j >= 1 then j - 1 else j) * UNIT_TIME_INTERVAL
  {
    var k, want := time / UNIT_TIME_INTERVAL - l.first, Credits(l, length);
    StopBehind(l.slots[k..], j, want, l.max);
    LastSlotFull(want, l.max);
    hide StopAt, Drain, BusyThenIdle;
  }

  lemma LastSlotFull(want: nat, max: nat)
    requires max >= 1 && want >= 1
    ensures want / max == (want - 1) / max + if want % max == 0 then 1 else 0
  {
    if want % max == 0 {
      ExactQuotient(want, max);
    } else {
      var q, r := want / max, want % max;
      assert want == q * max + r;
      QuotientIs(want - 1, max, q, r - 1);
    }
  }

  lemma ExactQuotient(want: nat, max: nat)
    requires max >= 1 && want >= 1 && want % max == 0
    ensures want / max == (want - 1) / max + 1
  {
    var q := want / max;
    assert want == q * max;
    if q == 0 { assert false; }
    assert (q - 1) * max == q * max - max;
    QuotientIs(want - 1, max, q - 1, max - 1);
  }

  /** On an idle channel the answer is the bare transfer time. */
  lemma IdleChannel(l: Lane, now: nat, time: nat, length: nat)
    requires l.max >= 1 && InRing(l, now, time)
    requires var k := time / UNIT_TIME_INTERVAL - l.first;
             (forall i :: k <= i < |l.slots| ==> l.slots[i] == l.max) && Credits(l, length) <= l.max * (|l.slots| - k)
    ensures Ask(l, now, time, length).0 == time + l.lat * Units(length)
  {
    var k := time / UNIT_TIME_INTERVAL - l.first;
    if Credits(l, length) >= 1 {
      BehindBusySlots(l, now, time, length, 0);
    }
  }

  /** A request that its own slot can serve takes its credits there and waits for nothing. */
  lemma FitsInSlot(l: Lane, now: nat, time: nat, length: nat)
    requires l.max >= 1 && InRing(l, now, time)
    requires l.slots[time / UNIT_TIME_INTERVAL - l.first] >= Credits(l, length)
    ensures var k := time / UNIT_TIME_INTERVAL - l.first;
            Ask(l, now, time, length)
            == (time + l.lat * Units(length), l.(slots := l.slots[k := l.slots[k] - Credits(l, length)]))
  {
    hide Drain, StopAt, Units;
    DrainFirst(l.slots, time / UNIT_TIME_INTERVAL - l.first, Credits(l, length));
  }

  lemma DrainFirst(slots: seq<nat>, k: nat, want: nat)
    requires k < |slots| && slots[k] >= want
    ensures slots[..k] + Drain(slots[k..], want) == slots[k := slots[k] - want] && StopAt(slots[k..], want) == 0
  {
    var tail := slots[k..];
    DrainOne(tail, want);
    hide Drain, StopAt;
    assert slots == slots[..k] + tail;
    assert slots[k := slots[k] - want] == slots[..k] + tail[0 := tail[0] - want];
  }

  lemma DrainOne(slots: seq<nat>, want: nat)
    requires slots != [] && slots[0] >= want
    ensures Drain(slots, want) == slots[0 := slots[0] - want] && StopAt(slots, want) == 0
  {
    DrainNothing(slots[1..]);
    assert slots[0 := slots[0] - want] == [slots[0] - want] + slots[1..];
  }

  // ---- A transfer in pieces ----

  /** The end on the channel, the completion for the host, and what is left of both lanes. */
  datatype Transfer = Transfer(end: nat, completed: nat, ch: Lane, pci: Lane)

  /**
    The loop of NAND_READ: pieces of at most maxXfer bytes, each asked at the end of the one before, and each handed on to
    the host's link when the transfers overlap.
  */
  function Pieces(ch: Lane, pci: Lane, overlap: bool, now: nat, start: nat, remaining: nat, maxXfer: nat): (r: Transfer)
    requires ch.max >= 1 && pci.max >= 1 && remaining > 0 && maxXfer > 0
    ensures r.end >= start && r.completed >= r.end
    ensures r.ch == ch.(slots := r.ch.slots) && |r.ch.slots| == |ch.slots|
    decreases remaining
  {
    var size := Min(remaining, maxXfer);
    var a := Ask(ch, now, start, size);
    var b := if overlap then Ask(pci, now, a.0, size) else (a.0, pci);
    if remaining <= maxXfer then Transfer(a.0, b.0, a.1, b.1)
    else Pieces(a.1, b.1, overlap, now, a.0, remaining - size, maxXfer)
  }

  /** Without overlap the host has the data when the channel is done, and its link is not used. */
  lemma {:induction false} WithoutOverlap(ch: Lane, pci: Lane, now: nat, start: nat, remaining: nat, maxXfer: nat)
    requires ch.max >= 1 && pci.max >= 1 && remaining > 0 && maxXfer > 0
    ensures var r := Pieces(ch, pci, false, now, start, remaining, maxXfer);
            r.completed == r.end && r.pci == pci
    decreases remaining
  {
    if remaining > maxXfer {
      var a := Ask(ch, now, start, maxXfer);
      WithoutOverlap(a.1, pci, now, a.0, remaining - maxXfer, maxXfer);
    }
  }

  function LastPiece(remaining: nat, maxXfer: nat): (x: nat)
    requires remaining > 0 && maxXfer > 0
    ensures 1 <= x <= maxXfer && x <= remaining
    decreases remaining
  {
    if remaining <= maxXfer then remaining else LastPiece(remaining - maxXfer, maxXfer)
  }

  /** With overlap it is the link's answer for the last piece, asked when the channel is done with it. */
  lemma {:induction false} WithOverlap(ch: Lane, pci: Lane, now: nat, start: nat, remaining: nat, maxXfer: nat) returns (before: Lane)
    requires ch.max >= 1 && pci.max >= 1 && remaining > 0 && maxXfer > 0
    ensures var r := Pieces(ch, pci, true, now, start, remaining, maxXfer);
            && before == pci.(slots := before.slots) && |before.slots| == |pci.slots|
            && (r.completed, r.pci) == Ask(before, now, r.end, LastPiece(remaining, maxXfer))
    decreases remaining
  {
    before := pci;
    if remaining > maxXfer {
      var a := Ask(ch, now, start, maxXfer);
      before := WithOverlap(a.1, Ask(pci, now, a.0, maxXfer).1, now, a.0, remaining - maxXfer, maxXfer);
    }
  }

  /** The units of all pieces. */
  function PieceUnits(remaining: nat, maxXfer: nat): (u: nat)
    requires remaining > 0 && maxXfer > 0
    decreases remaining
  {
    if remaining <= maxXfer then Units(remaining) else Units(maxXfer) + PieceUnits(remaining - maxXfer, maxXfer)
  }

  /** In pieces of whole units nothing is transferred twice. */
  lemma {:induction false} WholeUnits(remaining: nat, maxXfer: nat)
    requires remaining > 0 && maxXfer > 0 && maxXfer % UNIT_XFER_SIZE == 0
    ensures PieceUnits(remaining, maxXfer) == Units(remaining)
    decreases remaining
  {
    UnitsJoin(maxXfer / UNIT_XFER_SIZE, 0);
    if remaining > maxXfer {
      UnitsJoin(maxXfer / UNIT_XFER_SIZE, remaining - maxXfer);
      hide Units;
      WholeUnits(remaining - maxXfer, maxXfer);
    }
  }

  lemma UnitsJoin(a: nat, b: nat)
    ensures Units(UNIT_XFER_SIZE * a + b) == a + Units(b)
  {
    hide Units;
    var x, y := Units(UNIT_XFER_SIZE * a + b), Units(b);
    assert x * UNIT_XFER_SIZE >= UNIT_XFER_SIZE * a + b && y * UNIT_XFER_SIZE >= b;
  }

  function PieceCount(remaining: nat, maxXfer: nat): (n: nat)
    requires remaining > 0 && maxXfer > 0
    ensures n >= 1
    decreases remaining
  {
    if remaining <= maxXfer then 1 else 1 + PieceCount(remaining - maxXfer, maxXfer)
  }

  /** The credits of all pieces. */
  function PieceCredits(l: Lane, remaining: nat, maxXfer: nat): nat
    requires remaining > 0 && maxXfer > 0
  {
    PieceUnits(remaining, maxXfer) * UNIT_XFER_CREDITS + PieceCount(remaining, maxXfer) * l.extra
  }

  /** From time `start` on every slot of the ring can serve so many credits. */
  predicate Roomy(l: Lane, start: nat, credits: nat) {
    forall i: nat :: i < |l.slots| && l.first + i >= start / UNIT_TIME_INTERVAL ==> l.slots[i] >= credits
  }

  /**
    Without contention: when every slot from the start on could serve the whole transfer, it takes exactly its transfer
    time, and the channel gives up exactly its credits, none of them before the start.
  */
  lemma {:induction false} Uncontended(ch: Lane, pci: Lane, overlap: bool, now: nat, start: nat, remaining: nat, maxXfer: nat)
    requires ch.max >= 1 && pci.max >= 1 && remaining > 0 && maxXfer > 0
    requires InRing(ch, now, start) && Roomy(ch, start, PieceCredits(ch, remaining, maxXfer))
    requires (start + ch.lat * PieceUnits(remaining, maxXfer)) / UNIT_TIME_INTERVAL < ch.first + |ch.slots|
    ensures var r := Pieces(ch, pci, overlap, now, start, remaining, maxXfer);
            && r.end == start + ch.lat * PieceUnits(remaining, maxXfer)
            && Total(r.ch.slots) == Total(ch.slots) - PieceCredits(ch, remaining, maxXfer)
            && forall i: nat :: i < |ch.slots| && ch.first + i < start / UNIT_TIME_INTERVAL ==> r.ch.slots[i] == ch.slots[i]
    decreases remaining
  {
    hide Ask, Pieces, Drain, Waited, StopAt, Roomy, PieceCredits, PieceUnits, Credits, Units;
    var size, k := Min(remaining, maxXfer), start / UNIT_TIME_INTERVAL - ch.first;
    PieceByPiece(ch, remaining, maxXfer);
    RoomyAt(ch, start, PieceCredits(ch, remaining, maxXfer));
    FitsInSlot(ch, now, start, size);
    TotalUpdate(ch.slots, k, ch.slots[k] - Credits(ch, size));
    FirstPiece(ch, pci, overlap, now, start, remaining, maxXfer);
    if remaining > maxXfer {
      var a := Ask(ch, now, start, size);
      var b := if overlap then Ask(pci, now, a.0, size) else (a.0, pci);
      LaterSlot(start, a.0, start + ch.lat * PieceUnits(remaining, maxXfer));
      SameCredits(ch, a.1, remaining - maxXfer, maxXfer);
      StillRoomy(ch, start, a.0, Credits(ch, size), PieceCredits(ch, remaining - maxXfer, maxXfer));
      Uncontended(a.1, b.1, overlap, now, a.0, remaining - maxXfer, maxXfer);
    }
  }

  lemma RoomyAt(l: Lane, start: nat, credits: nat)
    requires Roomy(l, start, credits) && l.first <= start / UNIT_TIME_INTERVAL < l.first + |l.slots|
    ensures l.slots[start / UNIT_TIME_INTERVAL - l.first] >= credits
  {
    var k := start / UNIT_TIME_INTERVAL - l.first;
    assert l.first + k == start / UNIT_TIME_INTERVAL;
  }

  lemma StillRoomy(l: Lane, start: nat, later: nat, used: nat, rest: nat)
    requires Roomy(l, start, used + rest) && l.first <= start / UNIT_TIME_INTERVAL < l.first + |l.slots|
    requires start / UNIT_TIME_INTERVAL <= later / UNIT_TIME_INTERVAL
    ensures var k := start / UNIT_TIME_INTERVAL - l.first;
            l.slots[k] >= used && Roomy(l.(slots := l.slots[k := l.slots[k] - used]), later, rest)
  {
    RoomyAt(l, start, used + rest);
  }

  lemma SameCredits(a: Lane, b: Lane, remaining: nat, maxXfer: nat)
    requires remaining > 0 && maxXfer > 0 && a.extra == b.extra
    ensures PieceCredits(a, remaining, maxXfer) == PieceCredits(b, remaining, maxXfer)
  {}

  lemma FirstPiece(ch: Lane, pci: Lane, overlap: bool, now: nat, start: nat, remaining: nat, maxXfer: nat)
    requires ch.max >= 1 && pci.max >= 1 && remaining > 0 && maxXfer > 0
    ensures var a := Ask(ch, now, start, Min(remaining, maxXfer));
            var b := if overlap then Ask(pci, now, a.0, Min(remaining, maxXfer)) else (a.0, pci);
            Pieces(ch, pci, overlap, now, start, remaining, maxXfer)
            == if remaining <= maxXfer then Transfer(a.0, b.0, a.1, b.1)
               else Pieces(a.1, b.1, overlap, now, a.0, remaining - maxXfer, maxXfer)
  {
    hide Ask;
  }

  lemma LaterSlot(a: nat, b: nat, c: nat)
    requires a <= b <= c
    ensures a / UNIT_TIME_INTERVAL <= b / UNIT_TIME_INTERVAL <= c / UNIT_TIME_INTERVAL
  {}

  lemma PieceByPiece(l: Lane, remaining: nat, maxXfer: nat)
    requires remaining > 0 && maxXfer > 0
    ensures PieceCredits(l, remaining, maxXfer) >= Credits(l, Min(remaining, maxXfer))
    ensures remaining <= maxXfer ==>
              && PieceUnits(remaining, maxXfer) == Units(remaining)
              && PieceCredits(l, remaining, maxXfer) == Credits(l, remaining)
    ensures remaining > maxXfer ==>
              && l.lat * PieceUnits(remaining, maxXfer)
                 == l.lat * Units(maxXfer) + l.lat * PieceUnits(remaining - maxXfer, maxXfer)
              && PieceCredits(l, remaining, maxXfer) == Credits(l, maxXfer) + PieceCredits(l, remaining - maxXfer, maxXfer)
  {
    hide Units;
    if remaining > maxXfer {
      Distributes(l.lat, Units(maxXfer), PieceUnits(remaining - maxXfer, maxXfer));
      Distributes(l.extra, 1, PieceCount(remaining - maxXfer, maxXfer));
    }
  }

  lemma Distributes(a: nat, b: nat, c: nat)
    ensures a * (b + c) == a * b + a * c && (b + c) * a == b * a + c * a
  {}

  lemma {:induction false} TotalUpdate(slots: seq<nat>, k: nat, x: nat)
    requires k < |slots|
    ensures Total(slots[k := x]) == Total(slots) - slots[k] + x
  {
    if k > 0 {
      assert slots[k := x][1..] == slots[1..][k - 1 := x];
      TotalUpdate(slots[1..], k - 1, x);
    }
  }
}
