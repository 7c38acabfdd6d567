/**
  The bandwidth model of channel_model.c: a ring of credits per time slot that stands for an
  unbounded timeline. Requests drain slots earliest-first from their own slot on.
*/
module ChannelModels {
  import opened Basics
  import opened ChannelLanes

  // ---- The ring ----

  function Ring(n: nat, head: nat, k: nat): (r: nat)
    requires head < n && k <= n
    ensures r < n
  {
    if head + k < n then head + k else head + k - n
  }

  lemma RingIsMod(n: nat, head: nat, k: nat)
    requires head < n && k <= n
    ensures (head + k) % n == Ring(n, head, k)
  {
    if head + k >= n { ModSub(head + k - n, n); }
  }

  lemma ModSub(x: nat, n: nat)
    requires x < n
    ensures (x + n) % n == x
  {}

  /** The ring read from the head on. */
  function Window(avail: seq<nat>, head: nat): (w: seq<nat>)
    requires head < |avail|
    ensures |w| == |avail| && forall k :: 0 <= k < |w| ==> w[k] == avail[Ring(|avail|, head, k)]
  {
    seq(|avail|, k requires 0 <= k < |avail| => avail[Ring(|avail|, head, k)])
  }

  /** The credits left in the slot k after the current one; slots beyond the ring are untouched. */
  function Left(avail: seq<nat>, head: nat, max: nat, k: nat): nat
    requires head < |avail|
  {
    if k < |avail| then Window(avail, head)[k] else max
  }

  function LeftSeq(avail: seq<nat>, head: nat, max: nat, k: nat, count: nat): (r: seq<nat>)
    requires head < |avail|
    ensures |r| == count && forall i :: 0 <= i < count ==> r[i] == Left(avail, head, max, k + i)
  {
    if count == 0 then [] else LeftSeq(avail, head, max, k, count - 1) + [Left(avail, head, max, k + count - 1)]
  }

  ghost predicate RingOk(avail: seq<nat>, head: nat, validLen: nat, max: nat) {
    && head < |avail| && validLen <= |avail|
    && (forall k :: 0 <= k < |avail| ==> Window(avail, head)[k] <= max)
    && forall k :: validLen <= k < |avail| ==> Window(avail, head)[k] == max
  }

  /** Slot k after the new head is slot d + k after the old one. */
  ghost predicate SameFuture(before: seq<nat>, head: nat, after: seq<nat>, h: nat, max: nat, d: nat) {
    && head < |before| && h < |after|
    && forall k: nat :: Left(after, h, max, k) == Left(before, head, max, d + k)
  }

  /** The arc of `count` cells from the head is refilled. */
  ghost predicate Refilled(before: seq<nat>, after: seq<nat>, head: nat, count: nat, max: nat) {
    && |after| == |before|
    && forall i :: 0 <= i < |before| ==>
         after[i] == if head <= i < head + count || i + |before| < head + count then max else before[i]
  }

  /** Moving the clock moves the head but changes no slot of the timeline. */
  lemma ClockMoves(before: seq<nat>, after: seq<nat>, head: nat, validLen: nat, max: nat, slots: nat)
    requires RingOk(before, head, validLen, max)
    requires Refilled(before, after, head, Min(slots, validLen), max)
    ensures var d := Min(slots, validLen); var n := |before|; var h := Ring(n, head, d);
            && RingOk(after, h, validLen - d, max)
            && SameFuture(before, head, after, h, max, slots)
  {
    var d := Min(slots, validLen);
    var n := |before|;
    var h := Ring(n, head, d);
    forall k: nat | k < n ensures Window(after, h)[k] == Left(before, head, max, slots + k) {
      var i := Ring(n, h, k);
      if d + k < n {
        assert i == Ring(n, head, d + k);
        assert Window(before, head)[d + k] == before[i];
        if slots > validLen { assert Window(before, head)[validLen + k] == max; }
      } else {
        assert i == Ring(n, head, d + k - n);
      }
    }
    forall k | 0 <= k < n ensures Window(after, h)[k] <= max {
      assert Window(after, h)[k] == Left(before, head, max, slots + k);
    }
    forall k | validLen - d <= k < n ensures Window(after, h)[k] == max {
      assert Window(after, h)[k] == Left(before, head, max, slots + k);
    }
  }

  /** Taking from the slot k after the head. */
  lemma TakeOne(avail: seq<nat>, head: nat, k: nat, x: nat)
    requires head < |avail| && k < |avail|
    ensures Window(avail[Ring(|avail|, head, k) := x], head) == Window(avail, head)[k := x]
  {}

  class ChannelModel {
    var curTime: nat
    var head: nat
    var validLen: nat
    const maxCredits: nat
    var commandCredits: nat
    const xferLat: nat
    const avail: array<nat>

    ghost predicate Valid()
      reads this, avail
    {
      maxCredits >= 1 && RingOk(avail[..], head, validLen, maxCredits)
    }

    /** The current time slot. */
    function Now(): nat
      reads this
    {
      curTime / UNIT_TIME_INTERVAL
    }

    /** The unbounded timeline: the credits left in time slot t. */
    ghost function CreditsLeft(t: nat): nat
      requires Valid() && t >= Now()
      reads this, avail
    {
      Left(avail[..], head, maxCredits, t - Now())
    }

    /** No slot is ever promised more than its credits. */
    lemma NoSlotOverdrawn(t: nat)
      requires Valid() && t >= Now()
      ensures CreditsLeft(t) <= maxCredits
    {}

    /** The slots of the ring as they will stand when the clock reads `now`. */
    ghost function LaneAt(now: nat): (l: Lane)
      requires Valid() && curTime <= now
      reads this, avail
      ensures l.max >= 1 && |l.slots| == avail.Length
    {
      Lane(LeftSeq(avail[..], head, maxCredits, now / UNIT_TIME_INTERVAL - Now(), avail.Length), now / UNIT_TIME_INTERVAL,
           maxCredits, xferLat, commandCredits)
    }

    /** They are the timeline from then on; beyond the ring every slot has all its credits. */
    lemma LaneIsTimeline(now: nat, t: nat)
      requires Valid() && curTime <= now && t >= now / UNIT_TIME_INTERVAL
      ensures var l := LaneAt(now);
              && |l.slots| == avail.Length && t >= Now()
              && CreditsLeft(t) == if t < l.first + |l.slots| then l.slots[t - l.first] else maxCredits
    {
      hide RingOk, Window, LeftSeq;
      RingBounds(avail[..], head, validLen, maxCredits);
      LaterSlot(curTime, now, now);
    }

    /** chmodel_init with `entries` slots (NR_CREDIT_ENTRIES in the source). */
    constructor (entries: nat, max: nat, lat: nat)
      requires entries >= 1 && max >= 1
      ensures Valid() && curTime == 0 && commandCredits == 0 && maxCredits == max && xferLat == lat
      ensures avail.Length == entries && fresh(avail)
      ensures forall t: nat :: CreditsLeft(t) == max
    {
      curTime, head, validLen, commandCredits := 0, 0, 0, 0;
      maxCredits, xferLat := max, lat;
      avail := new nat[entries](_ => max);
    }

    method Memset(from: nat, length: nat)
      requires from + length <= avail.Length
      modifies avail
      ensures forall i :: 0 <= i < avail.Length ==>
                avail[i] == if from <= i < from + length then maxCredits else old(avail[i])
    {
      for i := from to from + length
        invariant forall j :: 0 <= j < avail.Length ==>
                    avail[j] == if from <= j < i then maxCredits else old(avail[j])
      {
        avail[i] := maxCredits;
      }
    }

    /** Refill `count` cells from the head on, around the end of the array. */
    method Refill(count: nat)
      requires head < avail.Length && count <= avail.Length
      modifies avail
      ensures Refilled(old(avail[..]), avail[..], head, count, maxCredits)
    {
      if head + count >= avail.Length {
        Memset(head, avail.Length - head);
        Memset(0, count - (avail.Length - head));
      } else {
        Memset(head, count);
      }
    }

    /** The first part of chmodel_request: slots that have passed leave the ring. */
    method MoveClock(now: nat)
      requires Valid() && curTime <= now
      modifies this`curTime, this`head, this`validLen, avail
      ensures Valid() && curTime == now && Now() >= old(Now())
      ensures SameFuture(old(avail[..]), old(head), avail[..], head, maxCredits, Now() - old(Now()))
    {
      hide RingOk, Window, Left, Refilled;
      var slots := now / UNIT_TIME_INTERVAL - curTime / UNIT_TIME_INTERVAL;
      var offs := if slots < validLen then slots else validLen;
      ghost var before := avail[..];
      RingBounds(before, head, validLen, maxCredits);
      Refill(offs);
      ClockMoves(before, avail[..], head, validLen, maxCredits, slots);
      RingIsMod(avail.Length, head, offs);
      head := (head + offs) % avail.Length;
      curTime := now;
      validLen := validLen - offs;
    }

    /** The draining loop; `stop` is how many slots it moved on. */
    method DrainSlots(first: nat, want: nat) returns (stop: nat)
      requires head < avail.Length && first < avail.Length
      modifies avail
      ensures Window(avail[..], head) == DrainFrom(old(Window(avail[..], head)), first, want)
      ensures stop == StopFrom(old(Window(avail[..], head)), first, want) && first + stop < avail.Length
    {
      hide Window, DrainFrom, StopFrom, Drained, Ring;
      ghost var w := Window(avail[..], head);
      ghost var n := avail.Length;
      RingIsMod(n, head, first);
      var pos := (head + first) % avail.Length;
      var remaining := want;
      stop := 0;
      DrainStarts(w, first, want);
      ghost var now := w;
      while true
        invariant first + stop < n && pos == Ring(n, head, first + stop) && |w| == n
        invariant now == Window(avail[..], head) && Drained(w, now, first, want, stop, remaining)
        decreases n - first - stop
      {
        var consumed := if remaining <= avail[pos] then remaining else avail[pos];
        TakeOne(avail[..], head, first + stop, avail[pos] - consumed);
        DrainRound(w, now, first, want, stop, remaining);
        WindowAt(avail[..], head, first + stop);
        ghost var next := avail[..][pos := avail[pos] - consumed];
        now := now[first + stop := now[first + stop] - consumed];
        avail[pos] := avail[pos] - consumed;
        assert avail[..] == next;
        remaining := remaining - consumed;
        RingNext(n, head, first + stop);
        assert now == Window(avail[..], head);
        if remaining == 0 {
          assert now == DrainFrom(w, first, want) && stop == StopFrom(w, first, want);
          break;
        }
        var nextPos := (pos + 1) % avail.Length;
        if nextPos == head {
          assert now == DrainFrom(w, first, want) && stop == StopFrom(w, first, want);
          break;
        }
        stop := stop + 1;
        pos := nextPos;
      }
    }

    /** The draining half of chmodel_request, `offs` slots ahead of the clock. */
    method Take(offs: nat, want: nat) returns (delay: nat)
      requires Valid() && offs < avail.Length
      modifies this`validLen, avail
      ensures Valid() && Window(avail[..], head) == DrainFrom(old(Window(avail[..], head)), offs, want)
      ensures delay == StopAt(old(Window(avail[..], head))[offs..], want)
    {
      hide RingOk, Window, DrainFrom, StopAt;
      ghost var before := avail[..];
      RingBounds(before, head, validLen, maxCredits);
      delay := DrainSlots(offs, want);
      DrainedRing(before, avail[..], head, validLen, maxCredits, offs, want, delay);
      var reached := offs + delay + 1;
      if reached > validLen { validLen := reached; }
    }

    /**
      chmodel_request at clock `now`: the answer, and what the timeline gives up for it; requests in the past or beyond
      the ring take nothing.
    */
    method Request(now: nat, requestTime: nat, length: nat) returns (target: nat)
      requires Valid() && curTime <= now
      modifies this`curTime, this`head, this`validLen, avail
      ensures Valid() && curTime == now && target >= requestTime
      ensures (target, LaneAt(now)) == Ask(old(LaneAt(now)), now, requestTime, length)
    {
      hide RingOk, Window, Left, Drain, StopAt, DrainFrom, LeftSeq, SameFuture, Units, Ask;
      RingBounds(avail[..], head, validLen, maxCredits);
      ghost var l := LaneAt(now);
      MoveClock(now);
      RingBounds(avail[..], head, validLen, maxCredits);
      SameTimeline(old(avail[..]), old(head), avail[..], head, maxCredits, Now() - old(Now()), 0, avail.Length);
      assert LaneAt(now) == l;
      NotServed(l, now, requestTime, length);
      if requestTime < now {
        return requestTime;
      }
      var offs := requestTime / UNIT_TIME_INTERVAL - now / UNIT_TIME_INTERVAL;
      if offs >= avail.Length {
        return requestTime;
      }
      var units := Units(length);
      var remaining := units * UNIT_XFER_CREDITS + commandCredits;
      var defaultDelay := remaining / maxCredits;
      WindowTail(avail[..], head, maxCredits, 0);
      var delay := Take(offs, remaining);
      WindowTail(avail[..], head, maxCredits, 0);
      Served(l, now, requestTime, length, delay, LaneAt(now).slots);
      delay := if delay > defaultDelay then delay - defaultDelay else 0;
      target := requestTime + xferLat * units + delay * UNIT_TIME_INTERVAL;
    }
  }

  lemma NotServed(l: Lane, now: nat, time: nat, length: nat)
    requires l.max >= 1 && l.first == now / UNIT_TIME_INTERVAL
    ensures time < now ==> Ask(l, now, time, length) == (time, l)
    ensures time >= now ==> time / UNIT_TIME_INTERVAL >= l.first
    ensures time / UNIT_TIME_INTERVAL - l.first >= |l.slots| ==> Ask(l, now, time, length) == (time, l)
  {
    hide Drain, StopAt, Units;
    if time >= now { LaterSlot(now, time, time); }
  }

  lemma Served(l: Lane, now: nat, time: nat, length: nat, stop: nat, after: seq<nat>)
    requires l.max >= 1 && l.first == now / UNIT_TIME_INTERVAL && now <= time
    requires l.first <= time / UNIT_TIME_INTERVAL < l.first + |l.slots|
    requires var k := time / UNIT_TIME_INTERVAL - l.first;
             stop == StopAt(l.slots[k..], Credits(l, length)) && after == DrainFrom(l.slots, k, Credits(l, length))
    ensures var full := Credits(l, length) / l.max;
            Ask(l, now, time, length)
            == (time + l.lat * Units(length) + (if stop > full then stop - full else 0) * UNIT_TIME_INTERVAL, l.(slots := after))
  {
    hide Drain, StopAt, Units;
  }

  /** Seen from the request's slot, the timeline is the same before and after the clock moved. */
  lemma {:induction false} SameTimeline(a: seq<nat>, h: nat, b: seq<nat>, g: nat, max: nat, d: nat, k: nat, count: nat)
    requires SameFuture(a, h, b, g, max, d)
    ensures LeftSeq(a, h, max, d + k, count) == LeftSeq(b, g, max, k, count)
  {
    hide Left;
    if count > 0 {
      SameTimeline(a, h, b, g, max, d, k, count - 1);
      assert Left(b, g, max, k + count - 1) == Left(a, h, max, d + (k + count - 1));
      assert d + (k + count - 1) == d + k + count - 1;
    }
  }

  lemma WindowTail(avail: seq<nat>, head: nat, max: nat, k: nat)
    requires head < |avail| && k <= |avail|
    ensures Window(avail, head)[k..] == LeftSeq(avail, head, max, k, |avail| - k)
  {
    hide Window;
  }

  lemma DrainedRing(before: seq<nat>, after: seq<nat>, head: nat, validLen: nat, max: nat, offs: nat, want: nat, stop: nat)
    requires RingOk(before, head, validLen, max) && |after| == |before| && offs < |before|
    requires Window(after, head) == DrainFrom(Window(before, head), offs, want)
    requires stop == StopFrom(Window(before, head), offs, want) && offs + stop < |before|
    ensures RingOk(after, head, if offs + stop + 1 > validLen then offs + stop + 1 else validLen, max)
    ensures head < |before|
  {
    DrainFromShape(Window(before, head), offs, want);
    hide Window, Drain, StopAt, DrainFrom, StopFrom;
    RingStaysOk(before, after, head, validLen, max, offs, stop);
  }

  lemma RingStaysOk(before: seq<nat>, after: seq<nat>, head: nat, validLen: nat, max: nat, offs: nat, stop: nat)
    requires RingOk(before, head, validLen, max) && |after| == |before| && offs + stop < |before|
    requires forall k :: 0 <= k < |before| ==> Window(after, head)[k] <= Window(before, head)[k]
    requires forall k :: 0 <= k < |before| && k > offs + stop ==> Window(after, head)[k] == Window(before, head)[k]
    ensures RingOk(after, head, if offs + stop + 1 > validLen then offs + stop + 1 else validLen, max)
  {
    var v, w := Window(after, head), Window(before, head);
    assert forall k :: 0 <= k < |w| ==> w[k] <= max && (validLen <= k ==> w[k] == max);
    hide Window;
  }

  lemma DrainFromShape(w: seq<nat>, offs: nat, want: nat)
    requires offs < |w|
    ensures var v := DrainFrom(w, offs, want);
            && v[offs..] == Drain(w[offs..], want)
            && (forall k :: 0 <= k < |w| ==> v[k] <= w[k])
            && forall k :: 0 <= k < |w| && (k < offs || k > offs + StopFrom(w, offs, want)) ==> v[k] == w[k]
    ensures StopFrom(w, offs, want) == StopAt(w[offs..], want)
  {
    var v := DrainFrom(w, offs, want);
    hide Drain, StopAt;
    forall k | 0 <= k < |w| ensures v[k] <= w[k] && (k < offs || k > offs + StopFrom(w, offs, want) ==> v[k] == w[k]) {
      if k >= offs {
        DrainShape(w[offs..], want, k - offs);
        assert v[k] == Drain(w[offs..], want)[k - offs] && w[k] == w[offs..][k - offs];
      }
    }
  }

  /** The slots before `first` stay; from there on the request drains. */
  function DrainFrom(w: seq<nat>, first: nat, want: nat): (r: seq<nat>)
    requires first <= |w|
    ensures |r| == |w|
  {
    w[..first] + Drain(w[first..], want)
  }

  function StopFrom(w: seq<nat>, first: nat, want: nat): nat
    requires first <= |w|
  {
    StopAt(w[first..], want)
  }

  /** What the loop has done when it looks at slot first + stop with `remaining` credits to go. */
  ghost predicate Drained(w: seq<nat>, now: seq<nat>, first: nat, want: nat, stop: nat, remaining: nat)
    requires first + stop < |w|
  {
    && |now| == |w| && now[first + stop..] == w[first + stop..]
    && DrainFrom(now, first + stop, remaining) == DrainFrom(w, first, want)
    && stop + StopFrom(w, first + stop, remaining) == StopFrom(w, first, want)
  }

  lemma DrainStarts(w: seq<nat>, first: nat, want: nat)
    requires first < |w|
    ensures Drained(w, w, first, want, 0, want)
  {}

  lemma WindowAt(avail: seq<nat>, head: nat, k: nat)
    requires head < |avail| && k < |avail|
    ensures Window(avail, head)[k] == avail[Ring(|avail|, head, k)]
  {}

  /** One round: the slot gives what it can; either the request is met here or the next slot is due. */
  lemma DrainRound(w: seq<nat>, now: seq<nat>, first: nat, want: nat, stop: nat, remaining: nat)
    requires first + stop < |w| && Drained(w, now, first, want, stop, remaining)
    ensures |now| == |w|
    ensures var k := first + stop; var c := Min(remaining, now[k]); var after := now[k := now[k] - c];
            if remaining == c || k + 1 == |w|
            then after == DrainFrom(w, first, want) && stop == StopFrom(w, first, want)
            else Drained(w, after, first, want, stop + 1, remaining - c)
  {
    var k := first + stop;
    assert now[k] == now[k..][0] == w[k..][0] == w[k];
    var c := Min(remaining, now[k]);
    var after := now[k := now[k] - c];
    assert w[k..][1..] == w[k + 1..] == after[k + 1..] == now[k..][1..];
    assert after[..k + 1] == now[..k] + [now[k] - c];
    assert Drain(w[k..], remaining) == [w[k] - c] + Drain(w[k + 1..], remaining - c);
    DrainNothing(w[k + 1..]);
    assert after == after[..k + 1] + after[k + 1..];
    assert after[..k + 1] + Drain(w[k + 1..], remaining - c) == now[..k] + Drain(w[k..], remaining);
  }

  lemma RingNext(n: nat, head: nat, k: nat)
    requires head < n && k < n
    ensures (Ring(n, head, k) + 1) % n == Ring(n, head, k + 1)
    ensures Ring(n, head, k + 1) == head <==> k + 1 == n
  {
    RingIsMod(n, Ring(n, head, k), 1);
  }

  lemma RingBounds(avail: seq<nat>, head: nat, validLen: nat, max: nat)
    requires RingOk(avail, head, validLen, max)
    ensures head < |avail| && validLen <= |avail|
  {}
}
