/**
  The zone state machine of a zoned namespace (zns_mgmt_send.c, zns_ftl.h, zms_read_write.c):
  management commands and writes move zones between states and take or give back the active, open
  and random-write-area resources of section 2.1.1 of the Zoned Namespace Command Set Specification 1.1a.
*/
module ZoneResources {
  import opened Basics
  import Geometry

  /** lba_to_zone */
  function LbaToZone(lba: nat, zoneLbas: nat): nat
    requires zoneLbas >= 1
  {
    lba / zoneLbas
  }

  datatype ZoneState = Empty | OpenedImpl | OpenedExpl | Closed | Full | ReadOnly | Offline

  datatype Zone = Zone(state: ZoneState, zslba: nat, wp: nat, cap: nat, zrwav: bool)

  datatype Status = Success | InvalidTransition | NoActiveZone | NoOpenZone | ZrwaUnavailable
                  | InvalidZoneOperation | InvalidField | BoundaryError | InvalidWrite | ErrFull | ErrReadOnly | ErrOffline

  /** acquired_cnt and total_cnt of one resource. */
  datatype Resource = Resource(acquired: int, total: int)

  predicate IsOpened(z: Zone) { z.state.OpenedImpl? || z.state.OpenedExpl? }

  predicate IsActive(z: Zone) { IsOpened(z) || z.state.Closed? }

  predicate HoldsZrwa(z: Zone) { IsActive(z) && z.zrwav }

  // ---- Counting zones ----

  ghost function CountOf(zs: seq<Zone>, p: Zone -> bool): nat {
    if zs == [] then 0 else CountOf(zs[..|zs| - 1], p) + if p(zs[|zs| - 1]) then 1 else 0
  }

  lemma {:induction false} CountOfUpdate(zs: seq<Zone>, p: Zone -> bool, i: nat, z: Zone)
    requires i < |zs|
    ensures CountOf(zs[i := z], p) == CountOf(zs, p) - (if p(zs[i]) then 1 else 0) + (if p(z) then 1 else 0)
    ensures p(zs[i]) ==> CountOf(zs, p) >= 1
  {
    var t, n := zs[i := z], |zs| - 1;
    if i < n {
      assert t[..n] == zs[..n][i := z];
      CountOfUpdate(zs[..n], p, i, z);
    } else {
      assert t[..n] == zs[..n];
    }
  }

  lemma {:induction false} CountOfMonotone(zs: seq<Zone>, p: Zone -> bool, w: seq<Zone>, q: Zone -> bool)
    requires |zs| == |w| && forall i :: 0 <= i < |zs| && p(zs[i]) ==> q(w[i])
    ensures CountOf(zs, p) <= CountOf(w, q)
  {
    if zs != [] { CountOfMonotone(zs[..|zs| - 1], p, w[..|w| - 1], q); }
  }

  lemma {:induction false} CountOfNone(zs: seq<Zone>, p: Zone -> bool)
    requires forall i :: 0 <= i < |zs| ==> !p(zs[i])
    ensures CountOf(zs, p) == 0
  {
    if zs != [] { CountOfNone(zs[..|zs| - 1], p); }
  }

  // ---- What holds between commands ----

  /** Where a zone's write pointer is follows from its state, and a zone written to its end is full. */
  ghost predicate ZoneOk(z: Zone) {
    && z.cap >= 1 && z.zslba <= z.wp <= z.zslba + z.cap
    && (z.state.Empty? ==> z.wp == z.zslba && !z.zrwav)
    && (IsActive(z) ==> z.wp < z.zslba + z.cap)
    && (z.wp == z.zslba + z.cap ==> z.state.Full? || z.state.ReadOnly? || z.state.Offline?)
  }

  /** The counts are the numbers of zones that hold each resource, within the totals. */
  ghost predicate Counted(zs: seq<Zone>, active: Resource, open: Resource, zrwa: Resource) {
    && active.acquired == CountOf(zs, IsActive) && active.acquired <= active.total
    && open.acquired == CountOf(zs, IsOpened) && open.acquired <= open.total
    && zrwa.acquired == CountOf(zs, HoldsZrwa) && zrwa.acquired <= zrwa.total
  }

  ghost predicate ZonesOk(zs: seq<Zone>, zoneLbas: nat) {
    forall i :: 0 <= i < |zs| ==>
      && ZoneOk(zs[i]) && zs[i].zslba == i * zoneLbas && zs[i].cap <= zoneLbas
  }

  function One(b: bool): int { if b then 1 else 0 }

  function Moved(r: Resource, d: int): Resource { r.(acquired := r.acquired + d) }

  /** One zone changes and the resources move with it. */
  lemma ZoneChange(zs: seq<Zone>, i: nat, z: Zone, active: Resource, open: Resource, zrwa: Resource, zoneLbas: nat)
    requires i < |zs| && ZonesOk(zs, zoneLbas) && Counted(zs, active, open, zrwa)
    requires ZoneOk(z) && z.zslba == zs[i].zslba && z.cap == zs[i].cap
    requires active.acquired - One(IsActive(zs[i])) + One(IsActive(z)) <= active.total
    requires open.acquired - One(IsOpened(zs[i])) + One(IsOpened(z)) <= open.total
    requires zrwa.acquired - One(HoldsZrwa(zs[i])) + One(HoldsZrwa(z)) <= zrwa.total
    ensures ZonesOk(zs[i := z], zoneLbas)
    ensures Counted(zs[i := z], Moved(active, One(IsActive(z)) - One(IsActive(zs[i]))),
                    Moved(open, One(IsOpened(z)) - One(IsOpened(zs[i]))), Moved(zrwa, One(HoldsZrwa(z)) - One(HoldsZrwa(zs[i]))))
    ensures IsActive(zs[i]) ==> active.acquired >= 1
    ensures IsOpened(zs[i]) ==> open.acquired >= 1
    ensures HoldsZrwa(zs[i]) ==> zrwa.acquired >= 1
  {
    CountOfUpdate(zs, IsActive, i, z);
    CountOfUpdate(zs, IsOpened, i, z);
    CountOfUpdate(zs, HoldsZrwa, i, z);
    hide CountOf, ZoneOk;
  }

  /** release_zone_resource never finds a count at zero for a zone that holds the resource. */
  lemma HoldersCounted(zs: seq<Zone>, i: nat, active: Resource, open: Resource, zrwa: Resource)
    requires i < |zs| && Counted(zs, active, open, zrwa)
    ensures IsActive(zs[i]) ==> active.acquired >= 1
    ensures IsOpened(zs[i]) ==> open.acquired >= 1
    ensures HoldsZrwa(zs[i]) ==> zrwa.acquired >= 1
  {
    CountOfUpdate(zs, IsActive, i, zs[i]);
    CountOfUpdate(zs, IsOpened, i, zs[i]);
    CountOfUpdate(zs, HoldsZrwa, i, zs[i]);
    hide CountOf;
  }

  // ---- What each action promises for its zone ----

  datatype Action = CloseZone | FinishZone | OpenZone(zrwa: bool) | ResetZone | OfflineZone | FlushZrwa(slba: nat)

  predicate ResourceFull(r: Resource) { r.acquired == r.total }

  /** The status of an action, from the zone and the resources before it. */
  function StatusOf(a: Action, z: Zone, active: Resource, open: Resource, zrwa: Resource, fg: nat, area: nat): Status {
    match a
    case CloseZone => if IsOpened(z) || z.state.Closed? then Success else InvalidTransition
    case FinishZone => if IsActive(z) || z.state.Empty? || z.state.Full? then Success else InvalidTransition
    case OpenZone(wantZrwa) =>
      if z.state.Empty? && ResourceFull(active) then NoActiveZone
      else if (z.state.Empty? || z.state.Closed?) && ResourceFull(open) then NoOpenZone
      else if z.state.Empty? && wantZrwa && ResourceFull(zrwa) then ZrwaUnavailable
      else if z.state.Empty? || IsActive(z) then Success
      else InvalidTransition
    case ResetZone => if z.state.ReadOnly? || z.state.Offline? then InvalidTransition else Success
    case OfflineZone => if z.state.ReadOnly? || z.state.Offline? then Success else InvalidTransition
    case FlushZrwa(slba) =>
      if !z.zrwav || slba < z.wp || slba >= z.wp + area || slba >= z.zslba + z.cap then InvalidZoneOperation
      else if fg == 0 || (slba - z.wp + 1) % fg != 0 then InvalidField
      else if IsActive(z) then Success
      else InvalidZoneOperation
  }

  /** The zone after a successful action. */
  function ZoneAfter(a: Action, z: Zone): Zone {
    match a
    case CloseZone => z.(state := Closed)
    case FinishZone => z.(state := Full)
    case OpenZone(wantZrwa) => z.(state := OpenedExpl, zrwav := z.zrwav || (z.state.Empty? && wantZrwa))
    case ResetZone => z.(state := Empty, wp := z.zslba, zrwav := false)
    case OfflineZone => z.(state := Offline)
    case FlushZrwa(slba) =>
      z.(wp := slba + 1, state := if slba + 1 == z.zslba + z.cap then Full else z.state)
  }

  class ZnsFtl {
    const zones: array<Zone>
    const zoneLbas: nat
    const fg: nat      // lbas_per_zrwafg
    const area: nat    // lbas_per_zrwa
    var active: Resource
    var open: Resource
    var zrwa: Resource

    ghost predicate Valid()
      reads this, zones
    {
      && zoneLbas >= 1 && ZonesOk(zones[..], zoneLbas) && Counted(zones[..], active, open, zrwa)
      && (fg == 0 ==> zrwa.total == 0) && forall i :: 0 <= i < zones.Length && zones[i].zrwav ==> fg >= 1
    }

    /** All zones empty, nothing acquired. */
    constructor (nrZones: nat, zoneSize: nat, capacity: nat, totalActive: nat, totalOpen: nat, totalZrwa: nat,
                 lbasPerZrwafg: nat, lbasPerZrwa: nat)
      requires 1 <= capacity <= zoneSize && (lbasPerZrwafg == 0 ==> totalZrwa == 0)
      ensures Valid() && fresh(zones) && zones.Length == nrZones && zoneLbas == zoneSize
      ensures forall i :: 0 <= i < nrZones ==> zones[i] == Zone(Empty, i * zoneSize, i * zoneSize, capacity, false)
      ensures fg == lbasPerZrwafg && area == lbasPerZrwa && active.acquired == open.acquired == zrwa.acquired == 0
      ensures active.total == totalActive && open.total == totalOpen && zrwa.total == totalZrwa
    {
      zones := new Zone[nrZones](i requires 0 <= i => Zone(Empty, i * zoneSize, i * zoneSize, capacity, false));
      zoneLbas, fg, area := zoneSize, lbasPerZrwafg, lbasPerZrwa;
      active, open, zrwa := Resource(0, totalActive), Resource(0, totalOpen), Resource(0, totalZrwa);
      new;
      CountOfNone(zones[..], IsActive);
      CountOfNone(zones[..], IsOpened);
      CountOfNone(zones[..], HoldsZrwa);
    }

    method Release(r: Resource) returns (t: Resource)
      requires r.acquired > 0
      ensures t == Moved(r, -1)
    {
      t := r.(acquired := r.acquired - 1);
    }

    /** acquire_zone_resource */
    method Acquire(r: Resource) returns (t: Resource, ok: bool)
      ensures ok <==> r.acquired < r.total
      ensures t == if ok then Moved(r, 1) else r
    {
      ok := r.acquired < r.total;
      t := if ok then r.(acquired := r.acquired + 1) else r;
    }

    /** change_zone_state */
    method ChangeState(zid: nat, state: ZoneState)
      requires zid < zones.Length
      modifies zones
      ensures zones[..] == old(zones[..])[zid := old(zones[zid]).(state := state)]
    {
      zones[zid] := zones[zid].(state := state);
    }

    /** What every action leaves behind: its zone as promised, all others untouched, all counts right. */
    ghost predicate Done(a: Action, zs: seq<Zone>, zid: nat, status: Status, a0: Resource, o0: Resource, z0: Resource)
      reads this, zones
    {
      && Valid() && zid < |zs| && status == StatusOf(a, zs[zid], a0, o0, z0, fg, area)
      && zones[..] == zs[zid := if status.Success? then ZoneAfter(a, zs[zid]) else zs[zid]]
      && active.total == a0.total && open.total == o0.total && zrwa.total == z0.total
    }

    /** One zone's state, write pointer and random write area, and how the counts moved; nothing else changed. */
    ghost predicate Became(zs: seq<Zone>, zid: nat, a0: Resource, o0: Resource, z0: Resource,
                           state: ZoneState, wp: nat, zrwav: bool, dActive: int, dOpen: int, dZrwa: int)
      reads this, zones
    {
      && zid < |zs| && zones[..] == zs[zid := Zone(state, zs[zid].zslba, wp, zs[zid].cap, zrwav)]
      && active == Resource(a0.acquired + dActive, a0.total) && open == Resource(o0.acquired + dOpen, o0.total)
      && zrwa == Resource(z0.acquired + dZrwa, z0.total)
    }

    /** Nothing changed. */
    ghost predicate Same(zs: seq<Zone>, a0: Resource, o0: Resource, z0: Resource)
      reads this, zones
    {
      zones[..] == zs && active == a0 && open == o0 && zrwa == z0
    }

    /** A write of nr blocks to a zone that is open as `state` for it, and full when the write reached its end. */
    ghost predicate Wrote(zs: seq<Zone>, zid: nat, a0: Resource, o0: Resource, z0: Resource, nr: nat, state: ZoneState,
                          dActive: int, dOpen: int, full: bool)
      reads this, zones
    {
      && zid < |zs|
      && if full then Became(zs, zid, a0, o0, z0, Full, zs[zid].wp + nr, zs[zid].zrwav, dActive - 1, dOpen - 1, 0)
         else Became(zs, zid, a0, o0, z0, state, zs[zid].wp + nr, zs[zid].zrwav, dActive, dOpen, 0)
    }

    /** __zmgmt_send_close_zone */
    method Close(zid: nat) returns (status: Status)
      requires Valid() && zid < zones.Length
      modifies zones, this`open
      ensures Done(CloseZone, old(zones[..]), zid, status, old(active), old(open), old(zrwa))
      ensures var z := old(zones[zid]);
              match z.state
              case OpenedImpl | OpenedExpl =>
                status == Success && Became(old(zones[..]), zid, old(active), old(open), old(zrwa), Closed, z.wp, z.zrwav, 0, -1, 0)
              case Closed => status == Success && Same(old(zones[..]), old(active), old(open), old(zrwa))
              case Empty | Full | ReadOnly | Offline => status == InvalidTransition && Same(old(zones[..]), old(active), old(open), old(zrwa))
    {
      hide CountOf, Counted, ZonesOk;
      ghost var zs := zones[..];
      Facts(zs, zid, active, open, zrwa, zoneLbas);
      status := Success;
      match zones[zid].state
      case OpenedImpl | OpenedExpl =>
        ZoneChange(zs, zid, ZoneAfter(CloseZone, zs[zid]), active, open, zrwa, zoneLbas);
        ChangeState(zid, Closed);
        open := Release(open);
      case Closed =>
        assert zs == zs[zid := ZoneAfter(CloseZone, zs[zid])];
      case _ =>
        status := InvalidTransition;
        assert zs == zs[zid := zs[zid]];
    }

    /** __zmgmt_send_finish_zone */
    method Finish(zid: nat) returns (status: Status)
      requires Valid() && zid < zones.Length
      modifies zones, this`active, this`open, this`zrwa
      ensures Done(FinishZone, old(zones[..]), zid, status, old(active), old(open), old(zrwa))
      ensures var z := old(zones[zid]);
              match z.state
              case OpenedImpl | OpenedExpl =>
                status == Success && Became(old(zones[..]), zid, old(active), old(open), old(zrwa), Full, z.wp, z.zrwav, -1, -1, -One(z.zrwav))
              case Closed =>
                status == Success && Became(old(zones[..]), zid, old(active), old(open), old(zrwa), Full, z.wp, z.zrwav, -1, 0, -One(z.zrwav))
              case Empty | Full => status == Success && Became(old(zones[..]), zid, old(active), old(open), old(zrwa), Full, z.wp, z.zrwav, 0, 0, 0)
              case ReadOnly | Offline => status == InvalidTransition && Same(old(zones[..]), old(active), old(open), old(zrwa))
    {
      hide CountOf, Counted, ZonesOk;
      ghost var zs := zones[..];
      Facts(zs, zid, active, open, zrwa, zoneLbas);
      var state, isZrwa := zones[zid].state, zones[zid].zrwav;
      status := Success;
      ghost var z := ZoneAfter(FinishZone, zs[zid]);
      if IsActive(zones[zid]) {
        ZoneChange(zs, zid, z, active, open, zrwa, zoneLbas);
        if state.OpenedImpl? || state.OpenedExpl? {
          open := Release(open);
        }
        active := Release(active);
        if isZrwa {
          zrwa := Release(zrwa);
        }
        ChangeState(zid, Full);
      } else if state.Empty? {
        ZoneChange(zs, zid, z, active, open, zrwa, zoneLbas);
        ChangeState(zid, Full);
      } else if state.Full? {
        assert zs == zs[zid := z];
      } else {
        status := InvalidTransition;
        assert zs == zs[zid := zs[zid]];
      }
    }

    /** __zmgmt_send_open_zone */
    method Open(zid: nat, wantZrwa: bool) returns (status: Status)
      requires Valid() && zid < zones.Length
      modifies zones, this`active, this`open, this`zrwa
      ensures Done(OpenZone(wantZrwa), old(zones[..]), zid, status, old(active), old(open), old(zrwa))
      ensures var z, noActive, noOpen, noZrwa := old(zones[zid]), old(active.acquired == active.total),
                                                 old(open.acquired == open.total), old(zrwa.acquired == zrwa.total);
              match z.state
              case Empty =>
                if noActive then status == NoActiveZone && Same(old(zones[..]), old(active), old(open), old(zrwa))
                else if noOpen then status == NoOpenZone && Same(old(zones[..]), old(active), old(open), old(zrwa))
                else if wantZrwa && noZrwa then status == ZrwaUnavailable && Same(old(zones[..]), old(active), old(open), old(zrwa))
                else status == Success && Became(old(zones[..]), zid, old(active), old(open), old(zrwa), OpenedExpl, z.wp, z.zrwav || wantZrwa, 1, 1, One(wantZrwa))
              case Closed =>
                if noOpen then status == NoOpenZone && Same(old(zones[..]), old(active), old(open), old(zrwa))
                else status == Success && Became(old(zones[..]), zid, old(active), old(open), old(zrwa), OpenedExpl, z.wp, z.zrwav, 0, 1, 0)
              case OpenedImpl | OpenedExpl =>
                status == Success && Became(old(zones[..]), zid, old(active), old(open), old(zrwa), OpenedExpl, z.wp, z.zrwav, 0, 0, 0)
              case Full | ReadOnly | Offline => status == InvalidTransition && Same(old(zones[..]), old(active), old(open), old(zrwa))
    {
      hide CountOf, Counted, ZonesOk;
      ghost var zs := zones[..];
      Facts(zs, zid, active, open, zrwa, zoneLbas);
      assert zs == zs[zid := zs[zid]];
      var state := zones[zid].state;
      ghost var z := ZoneAfter(OpenZone(wantZrwa), zs[zid]);
      ghost var a0, o0, z0 := active, open, zrwa;
      if state.OpenedExpl? {
        assert zs == zs[zid := z];
        return Success;
      }
      if !state.Empty? && !state.Closed? && !state.OpenedImpl? {
        return InvalidTransition;
      }
      if state.Empty? {
        if ResourceFull(active) { return NoActiveZone; }
        if ResourceFull(open) { return NoOpenZone; }
        if wantZrwa {
          if ResourceFull(zrwa) { return ZrwaUnavailable; }
          var got;
          zrwa, got := Acquire(zrwa);
          zones[zid] := zones[zid].(zrwav := true);
        }
        var got;
        active, got := Acquire(active);
      }
      if !state.OpenedImpl? {
        var ok;
        open, ok := Acquire(open);
        if !ok { return NoOpenZone; }
      }
      ChangeState(zid, OpenedExpl);
      ZoneChange(zs, zid, z, a0, o0, z0, zoneLbas);
      assert zones[..] == zs[zid := z];
      return Success;
    }

    /** __zmgmt_send_reset_zone and __reset_zone's part in the descriptor. */
    method Reset(zid: nat) returns (status: Status)
      requires Valid() && zid < zones.Length
      modifies zones, this`active, this`open, this`zrwa
      ensures Done(ResetZone, old(zones[..]), zid, status, old(active), old(open), old(zrwa))
      ensures var z := old(zones[zid]);
              match z.state
              case OpenedImpl | OpenedExpl =>
                status == Success && Became(old(zones[..]), zid, old(active), old(open), old(zrwa), Empty, z.zslba, false, -1, -1, -One(z.zrwav))
              case Closed =>
                status == Success && Became(old(zones[..]), zid, old(active), old(open), old(zrwa), Empty, z.zslba, false, -1, 0, -One(z.zrwav))
              case Empty | Full =>
                status == Success && Became(old(zones[..]), zid, old(active), old(open), old(zrwa), Empty, z.zslba, false, 0, 0, 0)
              case ReadOnly | Offline => status == InvalidTransition && Same(old(zones[..]), old(active), old(open), old(zrwa))
    {
      hide CountOf, Counted, ZonesOk;
      ghost var zs := zones[..];
      Facts(zs, zid, active, open, zrwa, zoneLbas);
      assert zs == zs[zid := zs[zid]];
      var state, isZrwa := zones[zid].state, zones[zid].zrwav;
      if state.ReadOnly? || state.Offline? {
        return InvalidTransition;
      }
      ZoneChange(zs, zid, ZoneAfter(ResetZone, zs[zid]), active, open, zrwa, zoneLbas);
      if state.OpenedImpl? || state.OpenedExpl? {
        open := Release(open);
      }
      if state.OpenedImpl? || state.OpenedExpl? || state.Closed? {
        active := Release(active);
        if isZrwa {
          zrwa := Release(zrwa);
        }
      }
      ChangeState(zid, Empty);
      zones[zid] := zones[zid].(wp := zones[zid].zslba);
      zones[zid] := zones[zid].(zrwav := false);
      assert zones[..] == zs[zid := ZoneAfter(ResetZone, zs[zid])];
      return Success;
    }

    /** __zmgmt_send_offline_zone */
    method TakeOffline(zid: nat) returns (status: Status)
      requires Valid() && zid < zones.Length
      modifies zones
      ensures Done(OfflineZone, old(zones[..]), zid, status, old(active), old(open), old(zrwa))
      ensures var z := old(zones[zid]);
              match z.state
              case ReadOnly | Offline =>
                status == Success && Became(old(zones[..]), zid, old(active), old(open), old(zrwa), Offline, z.wp, z.zrwav, 0, 0, 0)
              case Empty | OpenedImpl | OpenedExpl | Closed | Full =>
                status == InvalidTransition && Same(old(zones[..]), old(active), old(open), old(zrwa))
    {
      hide CountOf, Counted, ZonesOk;
      ghost var zs := zones[..];
      Facts(zs, zid, active, open, zrwa, zoneLbas);
      assert zs == zs[zid := zs[zid]];
      match zones[zid].state
      case ReadOnly =>
        ZoneChange(zs, zid, ZoneAfter(OfflineZone, zs[zid]), active, open, zrwa, zoneLbas);
        ChangeState(zid, Offline);
        return Success;
      case Offline =>
        assert zs == zs[zid := ZoneAfter(OfflineZone, zs[zid])];
        return Success;
      case _ =>
        return InvalidTransition;
    }

    /** __zmgmt_send_flush_explicit_zrwa; slba lies in zone zid. */
    method FlushExplicitZrwa(zid: nat, slba: nat) returns (status: Status)
      requires Valid() && zid < zones.Length
      modifies zones, this`active, this`open, this`zrwa
      ensures Done(FlushZrwa(slba), old(zones[..]), zid, status, old(active), old(open), old(zrwa))
      ensures var z := old(zones[zid]);
              var end := z.zslba + z.cap;
              if !z.zrwav || slba < z.wp || slba >= z.wp + area || slba >= end
              then status == InvalidZoneOperation && Same(old(zones[..]), old(active), old(open), old(zrwa))
              else if fg == 0 || (slba - z.wp + 1) % fg != 0 then status == InvalidField && Same(old(zones[..]), old(active), old(open), old(zrwa))
              else match z.state
                case OpenedImpl | OpenedExpl =>
                  && status == Success
                  && if slba + 1 == end then Became(old(zones[..]), zid, old(active), old(open), old(zrwa), Full, end, true, -1, -1, -1)
                     else Became(old(zones[..]), zid, old(active), old(open), old(zrwa), z.state, slba + 1, true, 0, 0, 0)
                case Closed =>
                  && status == Success
                  && if slba + 1 == end then Became(old(zones[..]), zid, old(active), old(open), old(zrwa), Full, end, true, -1, 0, -1)
                     else Became(old(zones[..]), zid, old(active), old(open), old(zrwa), Closed, slba + 1, true, 0, 0, 0)
                case Empty | Full | ReadOnly | Offline =>
                  status == InvalidZoneOperation && Same(old(zones[..]), old(active), old(open), old(zrwa))
    {
      hide CountOf, Counted, ZonesOk;
      ghost var zs := zones[..];
      Facts(zs, zid, active, open, zrwa, zoneLbas);
      assert zs == zs[zid := zs[zid]];
      var desc := zones[zid];
      var end := zid * zoneLbas + desc.cap;
      if !desc.zrwav { return InvalidZoneOperation; }
      if !(slba >= desc.wp && slba < desc.wp + area && slba < end) { return InvalidZoneOperation; }
      if (slba - desc.wp + 1) % fg != 0 { return InvalidField; }
      if !IsActive(desc) { return InvalidZoneOperation; }
      ghost var z := ZoneAfter(FlushZrwa(slba), zs[zid]);
      ZoneChange(zs, zid, z, active, open, zrwa, zoneLbas);
      zones[zid] := zones[zid].(wp := slba + 1);
      if zones[zid].wp == end {
        if !desc.state.Closed? {
          open := Release(open);
        }
        active := Release(active);
        zrwa := Release(zrwa);
        ChangeState(zid, Full);
      }
      assert zones[..] == zs[zid := z];
      return Success;
    }

    /** __zmgmt_send: the zone is the one slba lies in. */
    method Send(slba: nat, action: Action) returns (status: Status)
      requires Valid() && LbaToZone(slba, zoneLbas) < zones.Length && (action.FlushZrwa? ==> action.slba == slba)
      modifies zones, this`active, this`open, this`zrwa
      ensures Done(action, old(zones[..]), LbaToZone(slba, zoneLbas), status, old(active), old(open), old(zrwa))
    {
      hide Done, CountOf, Counted, ZonesOk;
      var zid := LbaToZone(slba, zoneLbas);
      match action
      case CloseZone => status := Close(zid);
      case FinishZone => status := Finish(zid);
      case OpenZone(wantZrwa) => status := Open(zid, wantZrwa);
      case ResetZone => status := Reset(zid);
      case OfflineZone => status := TakeOffline(zid);
      case FlushZrwa(_) => status := FlushExplicitZrwa(zid, slba);
    }

    /** zns_zmgmt_send with select_all: every zone in turn, whatever the others answered. */
    method SendAll(action: Action)
      requires Valid()
      modifies zones, this`active, this`open, this`zrwa
      ensures Valid() && zones[..] == Swept(action, old(zones[..]), zones.Length, active.total, open.total, zrwa.total, zoneLbas, fg, area)
      ensures active.total == old(active).total && open.total == old(open).total && zrwa.total == old(zrwa).total
      ensures AllSwept(action, old(zones[..]), zones[..], active, open, zrwa)
      ensures action.CloseZone? ==> active == old(active)
      ensures action.OpenZone? ==>
                OpenedSoFar(old(zones[..]), zones[..], zones.Length, active.total, open.total, zrwa.total, action.zrwa)
    {
      hide Done, CountOf, ZonesOk, StatusOf, ZoneAfter, LbaToZone, AllSwept, OpenedSoFar, Swept;
      EmptyOnesHoldNoArea(zones[..], zoneLbas);
      NoneSwept(action, zones[..], active.total, open.total, zrwa.total, zoneLbas, fg, area);
      for zid := 0 to zones.Length
        invariant Valid()
        invariant active.total == old(active).total && open.total == old(open).total && zrwa.total == old(zrwa).total
        invariant zones[..] == Swept(action, old(zones[..]), zid, active.total, open.total, zrwa.total, zoneLbas, fg, area)
      {
        StartOfZone(zid, zoneLbas);
        ghost var zs, a0, o0, z0 := zones[..], active, open, zrwa;
        var status := Send(zid * zoneLbas, AtZone(action, zid * zoneLbas));
        DoneUnfolded(AtZone(action, zid * zoneLbas), zs, zid, status, a0, o0, z0);
        OneMoreSwept(action, old(zones[..]), zid, active.total, open.total, zrwa.total, zoneLbas, fg, area);
      }
      SweptAll(action, old(zones[..]), zones[..], active, open, zrwa, zoneLbas, fg, area);
      if action.OpenZone? {
        OpenAllOpens(old(zones[..]), zones.Length, active.total, open.total, zrwa.total, zoneLbas, fg, area, action.zrwa);
      }
    }

    lemma DoneUnfolded(a: Action, zs: seq<Zone>, zid: nat, status: Status, a0: Resource, o0: Resource, z0: Resource)
      requires Done(a, zs, zid, status, a0, o0, z0)
      ensures Valid() && zid < |zs| && status == StatusOf(a, zs[zid], a0, o0, z0, fg, area)
      ensures zones[..] == zs[zid := if status.Success? then ZoneAfter(a, zs[zid]) else zs[zid]]
      ensures active.total == a0.total && open.total == o0.total && zrwa.total == z0.total
    {}

    /** zns_write_check, with __increase_write_ptr at its end. The random write area is switched off. */
    method WriteCheck(slba: nat, nrLba: nat) returns (status: Status)
      requires Valid() && nrLba >= 1 && LbaToZone(slba, zoneLbas) < zones.Length && zrwa.total == 0
      modifies zones, this`active, this`open
      ensures Valid() && active.total == old(active).total && open.total == old(open).total
      ensures status == WriteStatus(old(zones[LbaToZone(slba, zoneLbas)]), slba, nrLba, old(active), old(open), zoneLbas)
      ensures zones[..] == if status.Success? then old(zones[..])[LbaToZone(slba, zoneLbas) := ZoneWritten(old(zones[LbaToZone(slba, zoneLbas)]), nrLba)]
                           else old(zones[..])
      ensures var zid := LbaToZone(slba, zoneLbas);
              var z := old(zones[zid]);
              var noActive, noOpen := old(active.acquired == active.total), old(open.acquired == open.total);
              var full := z.wp + nrLba == z.zslba + z.cap;
              if LbaToZone(slba + nrLba - 1, zoneLbas) != zid then status == BoundaryError && Same(old(zones[..]), old(active), old(open), old(zrwa))
              else if slba != z.wp || z.wp + nrLba > z.zslba + z.cap then status == InvalidWrite && Same(old(zones[..]), old(active), old(open), old(zrwa))
              else match z.state
                case Empty =>
                  if noActive then status == NoActiveZone && Same(old(zones[..]), old(active), old(open), old(zrwa))
                  else if noOpen then status == NoOpenZone && Same(old(zones[..]), old(active), old(open), old(zrwa))
                  else status == Success && Wrote(old(zones[..]), zid, old(active), old(open), old(zrwa), nrLba, OpenedImpl, 1, 1, full)
                case Closed =>
                  if noOpen then status == NoOpenZone && Same(old(zones[..]), old(active), old(open), old(zrwa))
                  else status == Success && Wrote(old(zones[..]), zid, old(active), old(open), old(zrwa), nrLba, OpenedImpl, 0, 1, full)
                case OpenedImpl | OpenedExpl =>
                  status == Success && Wrote(old(zones[..]), zid, old(active), old(open), old(zrwa), nrLba, z.state, 0, 0, full)
                case Full => status == ErrFull && Same(old(zones[..]), old(active), old(open), old(zrwa))
                case ReadOnly => status == ErrReadOnly && Same(old(zones[..]), old(active), old(open), old(zrwa))
                case Offline => status == ErrOffline && Same(old(zones[..]), old(active), old(open), old(zrwa))
    {
      hide CountOf, Counted, ZonesOk, LbaToZone;
      var zid := LbaToZone(slba, zoneLbas);
      ghost var zs, a0, o0 := zones[..], active, open;
      Facts(zs, zid, active, open, zrwa, zoneLbas);
      var state := zones[zid].state;
      if LbaToZone(slba, zoneLbas) != LbaToZone(slba + nrLba - 1, zoneLbas) { return BoundaryError; }
      if slba != zones[zid].wp { return InvalidWrite; }
      if zones[zid].wp + nrLba > zid * zoneLbas + zones[zid].cap { return InvalidWrite; }
      if state.Full? { return ErrFull; }
      if state.ReadOnly? { return ErrReadOnly; }
      if state.Offline? { return ErrOffline; }
      if state.Empty? {
        if slba != zones[zid].zslba { return InvalidWrite; }
        if ResourceFull(active) { return NoActiveZone; }
        if ResourceFull(open) { return NoOpenZone; }
        var got;
        active, got := Acquire(active);
      }
      if state.Empty? || state.Closed? {
        var ok;
        open, ok := Acquire(open);
        if !ok { return NoOpenZone; }
        ChangeState(zid, OpenedImpl);
      }
      IncreaseWritePtr(zid, nrLba);
      ghost var z := ZoneWritten(zs[zid], nrLba);
      ZoneChange(zs, zid, z, a0, o0, zrwa, zoneLbas);
      assert zones[..] == zs[zid := z];
      return Success;
    }

    /** __increase_write_ptr of an open zone without a random write area. */
    method IncreaseWritePtr(zid: nat, nrLba: nat)
      requires zid < zones.Length && IsOpened(zones[zid]) && !zones[zid].zrwav && zones[zid].zslba == zid * zoneLbas
      requires zones[zid].wp + nrLba <= zones[zid].zslba + zones[zid].cap && open.acquired > 0 && active.acquired > 0
      modifies zones, this`active, this`open
      ensures zones[..] == old(zones[..])[zid := ZoneWritten(old(zones[zid]), nrLba)]
      ensures var full := old(zones[zid]).wp + nrLba == old(zones[zid]).zslba + old(zones[zid]).cap;
              active == Moved(old(active), -One(full)) && open == Moved(old(open), -One(full))
    {
      ghost var zs := zones[..];
      var cur := zones[zid].wp + nrLba;
      zones[zid] := zones[zid].(wp := cur);
      if cur == zid * zoneLbas + zones[zid].cap {
        open := Release(open);
        active := Release(active);
        assert !zones[zid].zrwav;
        ChangeState(zid, Full);
      }
      assert zones[..] == zs[zid := ZoneWritten(zs[zid], nrLba)];
    }
  }

  /** The status of a write of nr logical blocks at slba. */
  function WriteStatus(z: Zone, slba: nat, nr: nat, active: Resource, open: Resource, zoneLbas: nat): Status
    requires zoneLbas >= 1 && nr >= 1
  {
    if LbaToZone(slba, zoneLbas) != LbaToZone(slba + nr - 1, zoneLbas) then BoundaryError
    else if slba != z.wp || z.wp + nr > z.zslba + z.cap then InvalidWrite
    else match z.state
      case Full => ErrFull
      case ReadOnly => ErrReadOnly
      case Offline => ErrOffline
      case Empty => if ResourceFull(active) then NoActiveZone else if ResourceFull(open) then NoOpenZone else Success
      case Closed => if ResourceFull(open) then NoOpenZone else Success
      case _ => Success
  }

  /** The zone after an accepted write: open, or full when the write reached the end of its capacity. */
  function ZoneWritten(z: Zone, nr: nat): Zone {
    z.(wp := z.wp + nr,
       state := if z.wp + nr == z.zslba + z.cap then Full else if IsOpened(z) then z.state else OpenedImpl)
  }

  function AtZone(a: Action, slba: nat): Action { if a.FlushZrwa? then FlushZrwa(slba) else a }

  /** The zones after an action was sent to the first k of them, each seeing what the earlier ones took. */
  ghost function Swept(a: Action, zs: seq<Zone>, k: nat, totalActive: int, totalOpen: int, totalZrwa: int, zoneLbas: nat, fg: nat,
                       area: nat): (r: seq<Zone>)
    requires k <= |zs|
    ensures |r| == |zs|
  {
    if k == 0 then zs
    else
      var w := Swept(a, zs, k - 1, totalActive, totalOpen, totalZrwa, zoneLbas, fg, area);
      var b := AtZone(a, (k - 1) * zoneLbas);
      var status := StatusOf(b, w[k - 1], Resource(CountOf(w, IsActive), totalActive), Resource(CountOf(w, IsOpened), totalOpen),
                             Resource(CountOf(w, HoldsZrwa), totalZrwa), fg, area);
      w[k - 1 := if status.Success? then ZoneAfter(b, w[k - 1]) else w[k - 1]]
  }

  /** Resetting all zones empties every zone that is not read only or offline. */
  lemma {:induction false} ResetAllEmpties(zs: seq<Zone>, k: nat, ta: int, to: int, tz: int, zoneLbas: nat, fg: nat, area: nat, i: nat)
    requires k <= |zs| && i < |zs|
    ensures Swept(ResetZone, zs, k, ta, to, tz, zoneLbas, fg, area)[i]
         == if i < k && !zs[i].state.ReadOnly? && !zs[i].state.Offline?
            then Zone(Empty, zs[i].zslba, zs[i].zslba, zs[i].cap, false) else zs[i]
  {
    if k > 0 {
      ResetAllEmpties(zs, k - 1, ta, to, tz, zoneLbas, fg, area, i);
      ResetAllEmpties(zs, k - 1, ta, to, tz, zoneLbas, fg, area, k - 1);
    }
  }

  /** Closing all zones leaves none open. */
  lemma {:induction false} CloseAllCloses(zs: seq<Zone>, k: nat, ta: int, to: int, tz: int, zoneLbas: nat, fg: nat, area: nat, i: nat)
    requires k <= |zs| && i < |zs|
    ensures Swept(CloseZone, zs, k, ta, to, tz, zoneLbas, fg, area)[i]
         == if i < k && (zs[i].state.OpenedImpl? || zs[i].state.OpenedExpl?) then zs[i].(state := Closed) else zs[i]
  {
    if k > 0 {
      CloseAllCloses(zs, k - 1, ta, to, tz, zoneLbas, fg, area, i);
      CloseAllCloses(zs, k - 1, ta, to, tz, zoneLbas, fg, area, k - 1);
    }
  }

  /** What select-all leaves behind, in the states of the zones and the counts. */
  ghost predicate AllSwept(a: Action, zs: seq<Zone>, w: seq<Zone>, active: Resource, open: Resource, zrwa: Resource) {
    && |w| == |zs|
    && (a.CloseZone? ==>
          && open.acquired == 0
          && forall i :: 0 <= i < |w| ==>
               && !w[i].state.OpenedImpl? && !w[i].state.OpenedExpl?
               && w[i] == if zs[i].state.OpenedImpl? || zs[i].state.OpenedExpl? then zs[i].(state := Closed) else zs[i])
    && (a.FinishZone? ==>
          && open.acquired == 0 && active.acquired == 0 && zrwa.acquired == 0
          && forall i :: 0 <= i < |w| ==>
               && (w[i].state.Full? || w[i].state.ReadOnly? || w[i].state.Offline?)
               && (w[i].state.Full? ==> w[i] == zs[i].(state := Full))
               && (!w[i].state.Full? ==> w[i] == zs[i]))
    && (a.ResetZone? ==>
          && open.acquired == 0 && active.acquired == 0 && zrwa.acquired == 0
          && forall i :: 0 <= i < |w| ==>
               && (w[i].state.Empty? || w[i].state.ReadOnly? || w[i].state.Offline?)
               && (w[i].state.Empty? ==> w[i].wp == w[i].zslba && !w[i].zrwav)
               && (!w[i].state.Empty? ==> w[i] == zs[i]))
    && (a.OfflineZone? ==>
          forall i :: 0 <= i < |w| ==> w[i] == if zs[i].state.ReadOnly? then zs[i].(state := Offline) else zs[i])
  }

  lemma EmptyOnesHoldNoArea(zs: seq<Zone>, zoneLbas: nat)
    requires ZonesOk(zs, zoneLbas)
    ensures forall i :: 0 <= i < |zs| && zs[i].state.Empty? ==> !zs[i].zrwav
  {}

  lemma NoneSwept(a: Action, zs: seq<Zone>, ta: int, to: int, tz: int, zoneLbas: nat, fg: nat, area: nat)
    ensures Swept(a, zs, 0, ta, to, tz, zoneLbas, fg, area) == zs
  {}

  lemma OneMoreSwept(a: Action, zs: seq<Zone>, k: nat, ta: int, to: int, tz: int, zoneLbas: nat, fg: nat, area: nat)
    requires k < |zs|
    ensures var w, b := Swept(a, zs, k, ta, to, tz, zoneLbas, fg, area), AtZone(a, k * zoneLbas);
            var status := StatusOf(b, w[k], Resource(CountOf(w, IsActive), ta), Resource(CountOf(w, IsOpened), to),
                                   Resource(CountOf(w, HoldsZrwa), tz), fg, area);
            Swept(a, zs, k + 1, ta, to, tz, zoneLbas, fg, area)
            == w[k := if status.Success? then ZoneAfter(b, w[k]) else w[k]]
  {
    hide StatusOf, ZoneAfter, CountOf;
  }

  lemma SweptAll(a: Action, zs: seq<Zone>, w: seq<Zone>, active: Resource, open: Resource, zrwa: Resource, zoneLbas: nat, fg: nat,
                 area: nat)
    requires w == Swept(a, zs, |zs|, active.total, open.total, zrwa.total, zoneLbas, fg, area) && Counted(w, active, open, zrwa)
    ensures AllSwept(a, zs, w, active, open, zrwa)
    ensures a.CloseZone? ==> CountOf(w, IsActive) == CountOf(zs, IsActive)
  {
    hide CountOf, Swept, StatusOf;
    forall i | 0 <= i < |w| ensures OneSwept(a, zs[i], w[i]) {
      match a
      case CloseZone => CloseAllCloses(zs, |zs|, active.total, open.total, zrwa.total, zoneLbas, fg, area, i);
      case FinishZone => FinishAllFills(zs, |zs|, active.total, open.total, zrwa.total, zoneLbas, fg, area, i);
      case ResetZone => ResetAllEmpties(zs, |zs|, active.total, open.total, zrwa.total, zoneLbas, fg, area, i);
      case OfflineZone => OfflineAllTakes(zs, |zs|, active.total, open.total, zrwa.total, zoneLbas, fg, area, i);
      case _ =>
    }
    if a.CloseZone? || a.FinishZone? || a.ResetZone? { CountOfNone(w, IsOpened); }
    if a.CloseZone? {
      CountOfMonotone(w, IsActive, zs, IsActive);
      CountOfMonotone(zs, IsActive, w, IsActive);
    }
    if a.FinishZone? || a.ResetZone? {
      CountOfNone(w, IsActive);
      CountOfNone(w, HoldsZrwa);
    }
  }

  ghost predicate OneSwept(a: Action, z: Zone, w: Zone) {
    match a
    case CloseZone =>
      w == if z.state.OpenedImpl? || z.state.OpenedExpl? then z.(state := Closed) else z
    case FinishZone => w == if z.state.ReadOnly? || z.state.Offline? then z else z.(state := Full)
    case ResetZone => w == if z.state.ReadOnly? || z.state.Offline? then z else Zone(Empty, z.zslba, z.zslba, z.cap, false)
    case OfflineZone => w == if z.state.ReadOnly? then z.(state := Offline) else z
    case _ => true
  }

  /** Taking all zones offline takes exactly the read-only ones. */
  lemma {:induction false} OfflineAllTakes(zs: seq<Zone>, k: nat, ta: int, to: int, tz: int, zoneLbas: nat, fg: nat, area: nat, i: nat)
    requires k <= |zs| && i < |zs|
    ensures Swept(OfflineZone, zs, k, ta, to, tz, zoneLbas, fg, area)[i]
         == if i < k && zs[i].state.ReadOnly? then zs[i].(state := Offline) else zs[i]
  {
    if k > 0 {
      OfflineAllTakes(zs, k - 1, ta, to, tz, zoneLbas, fg, area, i);
      OfflineAllTakes(zs, k - 1, ta, to, tz, zoneLbas, fg, area, k - 1);
    }
  }

  /** Finishing all zones fills exactly the empty, open and closed ones. */
  lemma {:induction false} FinishAllFills(zs: seq<Zone>, k: nat, ta: int, to: int, tz: int, zoneLbas: nat, fg: nat, area: nat, i: nat)
    requires k <= |zs| && i < |zs|
    ensures Swept(FinishZone, zs, k, ta, to, tz, zoneLbas, fg, area)[i]
         == if i < k && !zs[i].state.ReadOnly? && !zs[i].state.Offline? then zs[i].(state := Full) else zs[i]
  {
    if k > 0 {
      FinishAllFills(zs, k - 1, ta, to, tz, zoneLbas, fg, area, i);
      FinishAllFills(zs, k - 1, ta, to, tz, zoneLbas, fg, area, k - 1);
    }
  }

  /** A closed or empty zone among the first k that opening all of them left as it was. */
  ghost predicate Refused(zs: seq<Zone>, w: seq<Zone>, k: nat, i: nat) {
    i < k <= |zs| == |w| && (zs[i].state.Closed? || zs[i].state.Empty?) && w[i] == zs[i]
  }

  /** The zone explicitly open, with a random write area when one was asked for on opening an empty zone. */
  function ExplicitlyOpen(z: Zone, wantZrwa: bool): Zone {
    z.(state := OpenedExpl, zrwav := z.zrwav || (z.state.Empty? && wantZrwa))
  }

  /** The first k zones were asked to open: who is open, and why the others were refused. */
  ghost predicate OpenedSoFar(zs: seq<Zone>, w: seq<Zone>, k: nat, ta: int, to: int, tz: int, wantZrwa: bool) {
    && |w| == |zs| && k <= |zs| && (forall i :: 0 <= i < |w| && w[i].state.Empty? ==> !w[i].zrwav)
    && (forall i :: 0 <= i < |zs| ==> w[i] == zs[i] || (i < k && w[i] == ExplicitlyOpen(zs[i], wantZrwa)))
    && (forall i :: 0 <= i < k && (zs[i].state.Full? || zs[i].state.ReadOnly? || zs[i].state.Offline?) ==> w[i] == zs[i])
    && (forall i :: 0 <= i < k && (zs[i].state.OpenedImpl? || zs[i].state.OpenedExpl?) ==> w[i] == ExplicitlyOpen(zs[i], wantZrwa))
    && CountOf(w, IsOpened) <= to && CountOf(w, IsActive) <= ta && CountOf(w, HoldsZrwa) <= tz
    && (forall i: nat :: Refused(zs, w, k, i) && zs[i].state.Closed? ==> CountOf(w, IsOpened) == to)
    && (forall i: nat :: Refused(zs, w, k, i) && zs[i].state.Empty? ==>
          CountOf(w, IsOpened) == to || CountOf(w, IsActive) == ta || (wantZrwa && CountOf(w, HoldsZrwa) == tz))
  }

  /**
    Opening all zones: open ones end explicitly open, zones that cannot be opened stay, and a closed or empty zone
    is refused only when the open zones have reached their total, an empty one also when the active ones or, if
    they are wanted, the random write areas have.
  */
  lemma {:induction false} OpenAllOpens(zs: seq<Zone>, k: nat, ta: int, to: int, tz: int, zoneLbas: nat, fg: nat, area: nat, wantZrwa: bool)
    requires k <= |zs| && CountOf(zs, IsOpened) <= to && CountOf(zs, IsActive) <= ta && CountOf(zs, HoldsZrwa) <= tz
    requires forall i :: 0 <= i < |zs| && zs[i].state.Empty? ==> !zs[i].zrwav
    ensures OpenedSoFar(zs, Swept(OpenZone(wantZrwa), zs, k, ta, to, tz, zoneLbas, fg, area), k, ta, to, tz, wantZrwa)
  {
    hide OpenedSoFar, CountOf;
    if k == 0 {
      NoneOpened(zs, ta, to, tz, wantZrwa);
    } else {
      OpenAllOpens(zs, k - 1, ta, to, tz, zoneLbas, fg, area, wantZrwa);
      var w := Swept(OpenZone(wantZrwa), zs, k - 1, ta, to, tz, zoneLbas, fg, area);
      var z := ZoneAfter(OpenZone(wantZrwa), w[k - 1]);
      CountOfUpdate(w, IsOpened, k - 1, z);
      CountOfUpdate(w, IsActive, k - 1, z);
      CountOfUpdate(w, HoldsZrwa, k - 1, z);
      OneMoreOpened(zs, w, Swept(OpenZone(wantZrwa), zs, k, ta, to, tz, zoneLbas, fg, area), k, ta, to, tz, fg, area, wantZrwa);
    }
  }

  lemma NoneOpened(zs: seq<Zone>, ta: int, to: int, tz: int, wantZrwa: bool)
    requires CountOf(zs, IsOpened) <= to && CountOf(zs, IsActive) <= ta && CountOf(zs, HoldsZrwa) <= tz
    requires forall i :: 0 <= i < |zs| && zs[i].state.Empty? ==> !zs[i].zrwav
    ensures OpenedSoFar(zs, zs, 0, ta, to, tz, wantZrwa)
  {
    hide CountOf;
  }

  lemma OneMoreOpened(zs: seq<Zone>, w: seq<Zone>, r: seq<Zone>, k: nat, ta: int, to: int, tz: int, fg: nat, area: nat, wantZrwa: bool)
    requires 1 <= k <= |zs| && OpenedSoFar(zs, w, k - 1, ta, to, tz, wantZrwa)
    requires var a, z := OpenZone(wantZrwa), ZoneAfter(OpenZone(wantZrwa), w[k - 1]);
             && CountOf(w[k - 1 := z], IsOpened) == CountOf(w, IsOpened) - One(IsOpened(w[k - 1])) + One(IsOpened(z))
             && CountOf(w[k - 1 := z], IsActive) == CountOf(w, IsActive) - One(IsActive(w[k - 1])) + One(IsActive(z))
             && CountOf(w[k - 1 := z], HoldsZrwa) == CountOf(w, HoldsZrwa) - One(HoldsZrwa(w[k - 1])) + One(HoldsZrwa(z))
             && var status := StatusOf(a, w[k - 1], Resource(CountOf(w, IsActive), ta), Resource(CountOf(w, IsOpened), to),
                                       Resource(CountOf(w, HoldsZrwa), tz), fg, area);
                r == if status.Success? then w[k - 1 := z] else w
    ensures OpenedSoFar(zs, r, k, ta, to, tz, wantZrwa)
  {
    hide CountOf;
    assert w[k - 1] == zs[k - 1];
    forall i: nat | Refused(zs, r, k, i) ensures i == k - 1 || Refused(zs, w, k - 1, i) {}
  }

  predicate MayOpen(z: Zone) { IsActive(z) || z.state.Empty? }

  function Least(a: int, b: int): int { if a <= b then a else b }

  /**
    How many opens succeed: after opening all zones as many are open as the two totals and the zones that can be
    opened allow, unless the random write areas asked for ran out first.
  */
  lemma OpenAllCount(zs: seq<Zone>, w: seq<Zone>, ta: int, to: int, tz: int, wantZrwa: bool)
    requires OpenedSoFar(zs, w, |zs|, ta, to, tz, wantZrwa)
    ensures CountOf(w, IsOpened) <= Least(Least(to, ta), CountOf(zs, MayOpen))
    ensures CountOf(w, IsOpened) == Least(Least(to, ta), CountOf(zs, MayOpen)) || (wantZrwa && CountOf(w, HoldsZrwa) == tz)
  {
    hide CountOf;
    CountOfMonotone(w, IsOpened, zs, MayOpen);
    CountOfMonotone(w, IsOpened, w, IsActive);
    if CountOf(w, IsOpened) < to {
      forall i: nat | i < |w| && IsActive(w[i]) ensures IsOpened(w[i]) { assert !Refused(zs, w, |zs|, i); }
      CountOfMonotone(w, IsActive, w, IsOpened);
      if CountOf(w, IsActive) < ta && !(wantZrwa && CountOf(w, HoldsZrwa) == tz) {
        forall i: nat | i < |zs| && MayOpen(zs[i]) ensures IsOpened(w[i]) { assert !Refused(zs, w, |zs|, i); }
        CountOfMonotone(zs, MayOpen, w, IsOpened);
      }
    }
  }

  /** A block lies in its zone. */
  lemma ZoneHolds(lba: nat, n: nat)
    requires n >= 1
    ensures LbaToZone(lba, n) * n <= lba < LbaToZone(lba, n) * n + n
  {
    assert lba == lba / n * n + lba % n;
  }

  lemma StartOfZone(zid: nat, n: nat)
    requires n >= 1
    ensures LbaToZone(zid * n, n) == zid
  {
    Geometry.SplitJoin(zid, n, 0);
  }

  lemma Facts(zs: seq<Zone>, i: nat, active: Resource, open: Resource, zrwa: Resource, zoneLbas: nat)
    requires i < |zs| && ZonesOk(zs, zoneLbas) && Counted(zs, active, open, zrwa)
    ensures ZoneOk(zs[i]) && zs[i].zslba == i * zoneLbas && zs[i].cap <= zoneLbas
    ensures 0 <= active.acquired <= active.total && 0 <= open.acquired <= open.total && 0 <= zrwa.acquired <= zrwa.total
    ensures IsActive(zs[i]) ==> active.acquired >= 1
    ensures IsOpened(zs[i]) ==> open.acquired >= 1
    ensures HoldsZrwa(zs[i]) ==> zrwa.acquired >= 1
  {
    HoldersCounted(zs, i, active, open, zrwa);
    hide CountOf, ZoneOk;
  }
}
