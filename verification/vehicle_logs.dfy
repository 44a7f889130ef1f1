/**
 * The log recorder: resolving a tag to its vehicle and partner, appending one
 * log per admitted event, deriving the parking duration of an exit from the
 * nearest earlier entry, and flagging a repeated direction as an anomaly.
 */
module VehicleLogs {
  import opened Wrappers
  import opened JsonValues
  import opened Records
  import opened ParkingTime
  import opened StoreUpdates

  datatype LogError =
    | TagNotFound
    | TagNotActive
    | TagNotAssigned
    | NoVehicleRegistered
    | VehicleNotAssigned
    | InvalidTagAssignment

  function LogErrorCode(e: LogError): string {
    match e
    case TagNotFound => "TAG_NOT_FOUND"
    case TagNotActive => "TAG_NOT_ACTIVE"
    case TagNotAssigned => "TAG_NOT_ASSIGNED"
    case NoVehicleRegistered => "NO_VEHICLE_REGISTERED"
    case VehicleNotAssigned => "VEHICLE_NOT_ASSIGNED"
    case InvalidTagAssignment => "INVALID_TAG_ASSIGNMENT"
  }

  /** What a successful call reports about the new log. */
  datatype LogSummary = LogSummary(
    logId: Id,
    plate: string,
    partnerName: string,
    direction: Direction,
    time: int,
    isAnomaly: bool,
    parkingTime: real,
    display: string)

  datatype LogResult = Logged(summary: LogSummary) | LogRejected(error: LogError)

  /** The tag, vehicle and partner a log is written for, or why none can be. */
  datatype Target = Resolved(tag: Id, vehicle: Id, partner: Id) | Refused(error: LogError)

  // ------------------------------------------------------ latest earlier log

  /** Index of the log with the greatest creation time among those satisfying `p`; among equal times, the later-appended one. */
  function LatestMatching(logs: seq<VehicleLog>, p: VehicleLog -> bool): (r: Option<nat>)
    ensures r.Some? ==> r.value < |logs| && p(logs[r.value])
    ensures r.Some? ==> forall j :: 0 <= j < |logs| && p(logs[j]) ==> logs[j].created <= logs[r.value].created
    ensures r.Some? ==> forall j :: r.value < j < |logs| && p(logs[j]) ==> logs[j].created < logs[r.value].created
    ensures r.None? <==> forall j :: 0 <= j < |logs| ==> !p(logs[j])
    decreases |logs|
  {
    if |logs| == 0 then None
    else
      var init := logs[..|logs| - 1];
      var last := logs[|logs| - 1];
      var rest := LatestMatching(init, p);
      assert forall j :: 0 <= j < |init| ==> init[j] == logs[j];
      if p(last) && (rest.None? || logs[rest.value].created <= last.created) then Some(|logs| - 1)
      else rest
  }

  /** An entry of vehicle `v` strictly before `now`: a candidate for the matching entry log. */
  predicate EntryBefore(l: VehicleLog, v: Id, now: int) {
    l.vehicle == v && l.direction == In && l.created < now
  }

  /** A log of the same vehicle and tag strictly before `now`: a candidate for the previous event. */
  predicate PairBefore(l: VehicleLog, v: Id, t: Id, now: int) {
    l.vehicle == v && l.tag == t && l.created < now
  }

  /** Hours between two timestamps in seconds. */
  function HoursBetween(from: int, to: int): real {
    (to - from) as real / 3600.0
  }

  /** Parking duration and entry log of a new log. */
  datatype Stay = Stay(hours: real, entry: Option<Id>)

  /** Log `i` is an entry of vehicle `v` strictly before `now`, and no such entry is later. */
  ghost predicate IsLatestEntry(logs: seq<VehicleLog>, v: Id, now: int, i: int) {
    && 0 <= i < |logs|
    && EntryBefore(logs[i], v, now)
    && (forall j :: 0 <= j < |logs| && EntryBefore(logs[j], v, now) ==> logs[j].created <= logs[i].created)
  }

  /**
   * An exit is paired with the latest entry of the same vehicle created strictly
   * earlier, and its duration is the hours in between; an entry, or an exit with
   * no earlier entry, has duration 0 and no entry log.
   */
  function ComputeStay(logs: seq<VehicleLog>, v: Id, d: Direction, now: int): (st: Stay)
    ensures d == In ==> st == Stay(0.0, None)
    ensures st.entry.None? ==> st.hours == 0.0
  {
    if d == In then Stay(0.0, None)
    else
      match LatestMatching(logs, (l: VehicleLog) => EntryBefore(l, v, now))
      case None => Stay(0.0, None)
      case Some(i) => Stay(HoursBetween(logs[i].created, now), Some(logs[i].id))
  }

  /**
   * An exit with an earlier entry of its vehicle is paired with the latest such
   * entry and lasts a positive number of hours; an exit without one has no entry
   * log; only exits are paired.
   */
  lemma ComputeStayMeaning(logs: seq<VehicleLog>, v: Id, d: Direction, now: int)
    ensures var st := ComputeStay(logs, v, d, now);
      && (d == Out && (forall j :: 0 <= j < |logs| ==> !EntryBefore(logs[j], v, now)) ==> st == Stay(0.0, None))
      && (st.entry.Some? ==> d == Out)
      && (st.entry.Some? ==>
            exists i :: IsLatestEntry(logs, v, now, i) && logs[i].id == st.entry.value && st.hours == HoursBetween(logs[i].created, now))
      && (d == Out && (exists j :: 0 <= j < |logs| && EntryBefore(logs[j], v, now)) ==> st.entry.Some? && st.hours > 0.0)
  {
    if d == Out {
      match LatestMatching(logs, (l: VehicleLog) => EntryBefore(l, v, now))
      case None =>
      case Some(i) => assert IsLatestEntry(logs, v, now, i);
    }
  }

  /**
   * Log `i` is the previous event of vehicle `v` with tag `t` as seen at `now`:
   * strictly earlier, with the greatest creation time, and the later-appended
   * one among equal times.
   */
  ghost predicate IsPreviousOfPair(logs: seq<VehicleLog>, v: Id, t: Id, now: int, i: int) {
    && 0 <= i < |logs|
    && PairBefore(logs[i], v, t, now)
    && (forall j :: 0 <= j < |logs| && PairBefore(logs[j], v, t, now) ==> logs[j].created <= logs[i].created)
    && (forall j :: i < j < |logs| && PairBefore(logs[j], v, t, now) ==> logs[j].created < logs[i].created)
  }

  /** At most one log is the previous event of a vehicle and tag. */
  lemma PreviousOfPairUnique(logs: seq<VehicleLog>, v: Id, t: Id, now: int, i: int, k: int)
    requires IsPreviousOfPair(logs, v, t, now, i) && IsPreviousOfPair(logs, v, t, now, k)
    ensures i == k
  {
  }

  /**
   * The previous log of the same vehicle and tag, when it has the same direction
   * as the new one. Such a log is recorded as an anomaly, never refused.
   */
  function RepeatedDirection(logs: seq<VehicleLog>, v: Id, t: Id, d: Direction, now: int): (prev: Option<Id>)
    ensures |logs| == 0 ==> prev.None?
  {
    match LatestMatching(logs, (l: VehicleLog) => PairBefore(l, v, t, now))
    case None => None
    case Some(i) => if logs[i].direction == d then Some(logs[i].id) else None
  }

  /**
   * A new log repeats a direction exactly when the previous event of the same
   * vehicle and tag has that direction, and it then names that event; with no
   * earlier event of the pair nothing is repeated.
   */
  lemma RepeatedDirectionMeaning(logs: seq<VehicleLog>, v: Id, t: Id, d: Direction, now: int)
    ensures var prev := RepeatedDirection(logs, v, t, d, now);
      && (prev.Some? <==> exists i :: IsPreviousOfPair(logs, v, t, now, i) && logs[i].direction == d)
      && (prev.Some? ==> exists i :: IsPreviousOfPair(logs, v, t, now, i) && logs[i].id == prev.value)
      && ((forall j :: 0 <= j < |logs| ==> !PairBefore(logs[j], v, t, now)) ==> prev.None?)
  {
    match LatestMatching(logs, (l: VehicleLog) => PairBefore(l, v, t, now))
    case None =>
    case Some(i) =>
      assert IsPreviousOfPair(logs, v, t, now, i);
      forall k | IsPreviousOfPair(logs, v, t, now, k)
        ensures k == i
      {
        PreviousOfPairUnique(logs, v, t, now, i, k);
      }
  }

  // ------------------------------------------------------------- resolution

  /**
   * Resolves a tag code: the tag must exist and be active and have an owner. The
   * vehicle is the tag's own, else its partner's first vehicle; the partner is
   * the tag's own, else the vehicle's owner. Resolution reads the store only
   * through the tag found, that first vehicle and that owner.
   */
  function ResolveLogTarget(s: Store, code: string): (r: Target)
    requires Wf(s)
    ensures r.Resolved? ==> r.tag in s.tags && r.vehicle in s.vehicles && r.partner in s.partners
  {
    var found := FindTag(s, code);
    var tag := if found.Some? then Some(s.tags[found.value]) else None;
    var first := if tag.Some? && tag.value.partner.Some? then FirstVehicleOf(s, tag.value.partner.value) else None;
    var owner := if tag.Some? && tag.value.vehicle.Some? then s.vehicles[tag.value.vehicle.value].owner else None;
    Resolution(found, tag, first, owner)
  }

  /** The decision of ResolveLogTarget from the tag found, the partner's first vehicle and the vehicle's owner. */
  function Resolution(found: Option<Id>, tag: Option<Tag>, first: Option<Id>, owner: Option<Id>): (r: Target)
    requires found.Some? <==> tag.Some?
    ensures r.Resolved? ==> Some(r.tag) == found
    ensures r.Resolved? ==> (if tag.value.vehicle.Some? then Some(r.vehicle) == tag.value.vehicle else Some(r.vehicle) == first)
    ensures r.Resolved? ==> (if tag.value.partner.Some? then Some(r.partner) == tag.value.partner else Some(r.partner) == owner)
  {
    match found
    case None => Refused(TagNotFound)
    case Some(t) =>
      var tg := tag.value;
      if tg.status != Active then Refused(TagNotActive)
      else if tg.vehicle.None? && tg.partner.None? then Refused(TagNotAssigned)
      else
        var vehicle := if tg.partner.Some? && tg.vehicle.None? then first else tg.vehicle;
        if tg.partner.Some? && tg.vehicle.None? && vehicle.None? then Refused(NoVehicleRegistered)
        else
          var partner := if vehicle.Some? && tg.partner.None? then owner else tg.partner;
          if vehicle.Some? && tg.partner.None? && partner.None? then Refused(VehicleNotAssigned)
          else if vehicle.None? || partner.None? then Refused(InvalidTagAssignment)
          else Resolved(t, vehicle.value, partner.value)
  }

  /**
   * What resolution answers: TAG_NOT_FOUND exactly when no tag has the code; otherwise,
   * for the tag found, TAG_NOT_ACTIVE, TAG_NOT_ASSIGNED, NO_VEHICLE_REGISTERED and
   * VEHICLE_NOT_ASSIGNED each exactly under its condition, never INVALID_TAG_ASSIGNMENT
   * once the references are valid, and on success the tag's own vehicle or its partner's
   * first vehicle, with the tag's partner or the vehicle's owner.
   */
  lemma ResolveLogTargetCases(s: Store, code: string)
    requires Wf(s)
    ensures var r := ResolveLogTarget(s, code);
      && (r == Refused(TagNotFound) <==> forall t :: t in s.tags ==> s.tags[t].code != code)
      && (r.Resolved? ==> Some(r.tag) == FindTag(s, code) && s.tags[r.tag].status == Active)
      && (r.Resolved? ==> s.tags[r.tag].vehicle.Some? ==> r.vehicle == s.tags[r.tag].vehicle.value)
      && (r.Resolved? ==> s.tags[r.tag].vehicle.None? ==> Some(r.vehicle) == FirstVehicleOf(s, r.partner))
      && (r.Resolved? ==> s.tags[r.tag].partner.Some? ==> r.partner == s.tags[r.tag].partner.value)
      && (r.Resolved? ==> s.tags[r.tag].partner.None? ==> s.vehicles[r.vehicle].owner == Some(r.partner))
      && r != Refused(InvalidTagAssignment)
      && (FindTag(s, code).Some? ==> var tag := s.tags[FindTag(s, code).value];
          && (r == Refused(TagNotActive) <==> tag.status != Active)
          && (r == Refused(TagNotAssigned) <==> tag.status == Active && tag.partner.None? && tag.vehicle.None?)
          && (r == Refused(NoVehicleRegistered) <==>
                tag.status == Active && tag.partner.Some? && tag.vehicle.None? && FirstVehicleOf(s, tag.partner.value).None?)
          && (r == Refused(VehicleNotAssigned) <==>
                tag.status == Active && tag.partner.None? && tag.vehicle.Some? && s.vehicles[tag.vehicle.value].owner.None?))
  {
  }

  // ------------------------------------------------------------ create log

  /** The log the recorder appends for a resolved target. */
  function NewLog(s: Store, tgt: Target, d: Direction, photo: Option<string>, notes: Json, now: int): (log: VehicleLog)
    requires tgt.Resolved?
    ensures log.id == s.nextId && log.created == now && log.direction == d
    ensures log.vehicle == tgt.vehicle && log.partner == tgt.partner && log.tag == tgt.tag
    ensures log.photo == photo && log.notes == notes
    ensures log.isAnomaly <==> log.anomalyAfter.Some?
    ensures d == In ==> log.parkingTime == 0.0 && log.entryLog.None?
    ensures log.entryLog.None? ==> log.parkingTime == 0.0
    ensures log.display == "" <==> log.parkingTime <= 0.0
  {
    var stay := ComputeStay(s.logs, tgt.vehicle, d, now);
    var prev := RepeatedDirection(s.logs, tgt.vehicle, tgt.tag, d, now);
    VehicleLog(s.nextId, tgt.vehicle, tgt.partner, tgt.tag, d, now, photo, notes,
               stay.hours, FormatParkingTime(stay.hours), stay.entry, prev.Some?, prev)
  }

  /** The store after appending the log for a resolved target: one more log, the vehicle's last direction, the next id. */
  function AppendLog(s: Store, tgt: Target, d: Direction, photo: Option<string>, notes: Json, now: int): (r: Store)
    requires Wf(s)
    requires tgt.Resolved? && tgt.tag in s.tags && tgt.vehicle in s.vehicles && tgt.partner in s.partners
    ensures Wf(r)
    ensures r == s.(logs := s.logs + [NewLog(s, tgt, d, photo, notes, now)],
                    vehicles := s.vehicles[tgt.vehicle := s.vehicles[tgt.vehicle].(lastDirection := Some(d))],
                    nextId := s.nextId + 1)
  {
    var log := NewLog(s, tgt, d, photo, notes, now);
    AppendedWf(s, log, tgt.vehicle, d);
    Appended(s, log, tgt.vehicle, d)
  }

  /** Appends `log` and records `d` as the last direction of vehicle `v`. */
  function Appended(s: Store, log: VehicleLog, v: Id, d: Direction): (r: Store)
    requires v in s.vehicles
    ensures r == s.(logs := s.logs + [log], vehicles := s.vehicles[v := s.vehicles[v].(lastDirection := Some(d))],
                    nextId := s.nextId + 1)
  {
    s.(logs := s.logs + [log], vehicles := s.vehicles[v := s.vehicles[v].(lastDirection := Some(d))], nextId := s.nextId + 1)
  }

  /** A log that takes the next id and names existing records keeps every reference valid. */
  lemma AppendedWf(s: Store, log: VehicleLog, v: Id, d: Direction)
    requires Wf(s) && log.id == s.nextId && LogRefsIn(log, s) && v in s.vehicles
    ensures Wf(Appended(s, log, v, d))
  {
    AppendLogWf(s, log, v, s.vehicles[v].(lastDirection := Some(d)));
  }

  /**
   * create_log_entry: on any resolution error nothing is written; otherwise one
   * log is appended and the resolved vehicle's last direction becomes `d`.
   */
  function CreateLogEntry(s: Store, code: string, d: Direction, photo: Option<string>, notes: Json, now: int)
    : (res: (LogResult, Store))
    requires Wf(s)
    ensures Wf(res.1)
    ensures res.0.LogRejected? ==> res.1 == s
    ensures SameRegistry(s, res.1) && res.1.readers == s.readers && res.1.queue == s.queue
    ensures |res.1.logs| == |s.logs| + (if res.0.Logged? then 1 else 0) && res.1.logs[..|s.logs|] == s.logs
  {
    var tgt := ResolveLogTarget(s, code);
    match tgt
    case Refused(e) => (LogRejected(e), s)
    case Resolved(t, v, p) =>
      var log := NewLog(s, tgt, d, photo, notes, now);
      var summary := LogSummary(log.id, s.vehicles[v].plate, s.partners[p].name, d, now,
                                log.isAnomaly, log.parkingTime, log.display);
      (Logged(summary), AppendLog(s, tgt, d, photo, notes, now))
  }

  /**
   * The outcome of create_log_entry is decided by resolution alone: a refusal carries
   * the resolution's error, and a success appends the log for the resolved target and
   * reports its id, direction and plate.
   */
  lemma CreateLogEntryOutcome(s: Store, code: string, d: Direction, photo: Option<string>, notes: Json, now: int)
    requires Wf(s)
    ensures var (o, s') := CreateLogEntry(s, code, d, photo, notes, now);
      var tgt := ResolveLogTarget(s, code);
      && (o.LogRejected? <==> tgt.Refused?)
      && (o.LogRejected? ==> o.error == tgt.error)
      && (o.Logged? ==> s' == AppendLog(s, tgt, d, photo, notes, now))
      && (o.Logged? ==> o.summary.logId == s.nextId && o.summary.direction == d)
      && (o.Logged? ==> o.summary.plate == s.vehicles[tgt.vehicle].plate)
  {
  }

  /** The parts of the store a resolution reads, plus plates: tags, partners, vehicle ids, owners and plates. */
  predicate SameRegistry(a: Store, b: Store) {
    && a.tags == b.tags
    && a.partners == b.partners
    && a.vehicles.Keys == b.vehicles.Keys
    && (forall v :: v in a.vehicles ==> a.vehicles[v].owner == b.vehicles[v].owner)
    && (forall v :: v in a.vehicles ==> a.vehicles[v].plate == b.vehicles[v].plate)
  }

  lemma SameRegistryTrans(a: Store, b: Store, c: Store)
    requires SameRegistry(a, b) && SameRegistry(b, c)
    ensures SameRegistry(a, c)
  {
  }

  /** Resolution gives the same answer on any two stores with the same registry, whatever logs they hold. */
  lemma ResolveStable(a: Store, b: Store, code: string)
    requires Wf(a) && Wf(b) && SameRegistry(a, b)
    ensures ResolveLogTarget(a, code) == ResolveLogTarget(b, code)
  {
    FindTagStable(a, b, code);
    match FindTag(a, code)
    case None =>
    case Some(t) => ResolveFoundStable(a, b, code, t);
  }

  lemma ResolveFoundStable(a: Store, b: Store, code: string, t: Id)
    requires Wf(a) && Wf(b) && SameRegistry(a, b)
    requires FindTag(a, code) == Some(t) == FindTag(b, code)
    ensures ResolveLogTarget(a, code) == ResolveLogTarget(b, code)
  {
    var tag := a.tags[t];
    var first := if tag.partner.Some? then FirstVehicleOf(a, tag.partner.value) else None;
    var owner := if tag.vehicle.Some? then a.vehicles[tag.vehicle.value].owner else None;
    if tag.partner.Some? {
      FirstVehicleOfStable(a, b, tag.partner.value);
    }
    assert ResolveLogTarget(a, code) == Resolution(Some(t), Some(tag), first, owner);
  }

  /** Recording an event keeps every database constraint. */
  lemma CreateLogEntryKeepsValid(s: Store, code: string, d: Direction, photo: Option<string>, notes: Json, now: int)
    requires Valid(s)
    ensures Valid(CreateLogEntry(s, code, d, photo, notes, now).1)
  {
    var s' := CreateLogEntry(s, code, d, photo, notes, now).1;
    var tgt := ResolveLogTarget(s, code);
    CreateLogEntryOutcome(s, code, d, photo, notes, now);
    if tgt.Resolved? {
      var v := tgt.vehicle;
      VehicleUpdateKeepsConstraints(s.vehicles, v, s.vehicles[v].(lastDirection := Some(d)));
    }
  }

  /** After a successful log the vehicle's status is inside for an entry and outside for an exit. */
  lemma CreateLogEntrySetsPresence(s: Store, code: string, d: Direction, photo: Option<string>, notes: Json, now: int)
    requires Wf(s)
    requires CreateLogEntry(s, code, d, photo, notes, now).0.Logged?
    ensures var tgt := ResolveLogTarget(s, code);
      PresenceOf(CreateLogEntry(s, code, d, photo, notes, now).1.vehicles[tgt.vehicle].lastDirection)
        == (if d == In then Inside else Outside)
  {
    CreateLogEntryOutcome(s, code, d, photo, notes, now);
  }

  // --------------------------------------------------------- vehicle status

  datatype StatusWord = StatusIn | StatusOut | StatusUnknown

  datatype StatusReport =
    | VehicleNotFound
    | StatusReport(
        plate: string,
        status: StatusWord,
        lastTime: Option<int>,
        lastDirection: Option<Direction>,
        currentParkingTime: real,
        display: string)

  /** Log `i` belongs to vehicle `v` and no log of `v` was created later. */
  ghost predicate IsLatestOfVehicle(logs: seq<VehicleLog>, v: Id, i: int) {
    && 0 <= i < |logs|
    && logs[i].vehicle == v
    && (forall j :: 0 <= j < |logs| && logs[j].vehicle == v ==> logs[j].created <= logs[i].created)
  }

  /** The report gives the direction and time of `last`, and the hours since it when it is an entry. */
  ghost predicate ReportsLog(r: StatusReport, last: VehicleLog, now: int)
    requires r.StatusReport?
  {
    && r.lastDirection == Some(last.direction)
    && r.status == (if last.direction == In then StatusIn else StatusOut)
    && r.lastTime == Some(last.created)
    && r.currentParkingTime == (if last.direction == In then HoursBetween(last.created, now) else 0.0)
  }

  /**
   * get_vehicle_status: the direction of the vehicle's latest log, and for a
   * vehicle last seen entering, the hours since that entry.
   */
  function GetVehicleStatus(s: Store, v: Id, now: int): (r: StatusReport)
    ensures r.VehicleNotFound? <==> v !in s.vehicles
    ensures r.StatusReport? && (forall j :: 0 <= j < |s.logs| ==> s.logs[j].vehicle != v) ==>
      r.status == StatusUnknown && r.currentParkingTime == 0.0 && r.lastTime.None? && r.lastDirection.None?
    ensures r.StatusReport? && (exists j :: 0 <= j < |s.logs| && s.logs[j].vehicle == v) ==>
      r.status != StatusUnknown && exists i :: IsLatestOfVehicle(s.logs, v, i) && ReportsLog(r, s.logs[i], now)
    ensures r.StatusReport? && r.currentParkingTime != 0.0 ==> r.status == StatusIn
    ensures r.StatusReport? ==> r.display == FormatParkingTime(r.currentParkingTime)
  {
    if v !in s.vehicles then VehicleNotFound
    else
      match LatestMatching(s.logs, (l: VehicleLog) => l.vehicle == v)
      case None => StatusReport(s.vehicles[v].plate, StatusUnknown, None, None, 0.0, FormatParkingTime(0.0))
      case Some(i) =>
        var last := s.logs[i];
        var hours := if last.direction == In then HoursBetween(last.created, now) else 0.0;
        StatusReport(s.vehicles[v].plate, if last.direction == In then StatusIn else StatusOut,
                     Some(last.created), Some(last.direction), hours, FormatParkingTime(hours))
  }
}
