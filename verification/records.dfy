/**
 * The parking system's records and the store that holds them.
 *
 * The ORM database is modelled as an immutable value: one map per table keyed
 * by integer record id, the append-only sequence of vehicle logs, the sync
 * queue, and the next id to hand out. `Wf` is what foreign keys guarantee
 * (every reference points at an existing record); `Valid` adds the unique and
 * check constraints the models declare.
 */
module Records {
  import opened Wrappers
  import opened JsonValues
  import opened Text
  import opened Lookup

  type Id = nat

  datatype Direction = In | Out

  /** A vehicle's derived presence. */
  datatype Presence = Inside | Outside | Unknown

  datatype TagStatus = Active | Inactive | Pending | Lost

  datatype VehicleType = Car | Motorcycle | Bicycle | Truck | OtherType

  datatype Tag = Tag(
    code: string,
    epc: Option<string>,
    status: TagStatus,
    validFrom: Option<int>,
    validTo: Option<int>,
    partner: Option<Id>,
    vehicle: Option<Id>,
    lastSync: Option<int>,
    syncFromCloud: bool,
    writeDate: int)

  datatype Vehicle = Vehicle(
    name: string,
    plate: string,
    kind: VehicleType,
    owner: Option<Id>,
    tag: Option<Id>,
    lastDirection: Option<Direction>)

  datatype Partner = Partner(
    name: string,
    citizenId: Option<string>,
    funds: int,
    tag: Option<Id>)

  datatype VehicleLog = VehicleLog(
    id: Id,
    vehicle: Id,
    partner: Id,
    tag: Id,
    direction: Direction,
    created: int,
    photo: Option<string>,
    notes: Json,
    parkingTime: real,
    display: string,
    entryLog: Option<Id>,
    isAnomaly: bool,
    anomalyAfter: Option<Id>)

  datatype ReaderStatus = ReaderActive | ReaderInactive | Maintenance | ReaderFault

  /** A port of 0 is an unset Integer field as the ORM reads it. */
  datatype Reader = Reader(
    readerId: Option<string>,
    name: Option<string>,
    ip: Option<string>,
    port: int,
    status: Option<ReaderStatus>)

  datatype QueueAction = QueueCreate | QueueWrite | QueueUnlink

  datatype QueueStatus = QueuePending | QueueSyncing | QueueSynced | QueueFailed

  datatype QueueItem = QueueItem(
    model: string,
    recordId: int,
    action: QueueAction,
    data: Json,
    status: QueueStatus,
    error: Option<string>,
    retryCount: int)

  datatype Store = Store(
    tags: map<Id, Tag>,
    vehicles: map<Id, Vehicle>,
    partners: map<Id, Partner>,
    logs: seq<VehicleLog>,
    readers: map<Id, Reader>,
    queue: seq<QueueItem>,
    nextId: nat)

  // ---------------------------------------------------------------- presence

  /** The vehicle's current status, computed from its last direction. */
  function PresenceOf(last: Option<Direction>): Presence {
    match last
    case Some(In) => Inside
    case Some(Out) => Outside
    case None => Unknown
  }

  /** The last direction a presence value stands for. */
  function DirectionFor(p: Presence): Option<Direction> {
    match p
    case Inside => Some(In)
    case Outside => Some(Out)
    case Unknown => None
  }

  /** Presence and last direction determine each other: inside iff in, outside iff out, unknown iff unset. */
  lemma PresenceBijection(last: Option<Direction>, p: Presence)
    ensures DirectionFor(PresenceOf(last)) == last
    ensures PresenceOf(DirectionFor(p)) == p
    ensures PresenceOf(last) == p <==> last == DirectionFor(p)
  {
  }

  /** A vehicle as created with no explicit last direction. */
  const DefaultLastDirection: Option<Direction> := Some(In)

  const DefaultTagStatus: TagStatus := Pending

  // ------------------------------------------------------- well-formedness

  predicate KeysBelow<V>(m: map<Id, V>, bound: nat) {
    forall k :: k in m ==> k < bound
  }

  /** Every id is below `nextId`, and every reference points at an existing record. */
  predicate Wf(s: Store) {
    && IdsBelow(s)
    && TagRefsOk(s)
    && VehicleRefsOk(s)
    && PartnerRefsOk(s)
    && LogsOk(s)
  }

  predicate IdsBelow(s: Store) {
    && KeysBelow(s.tags, s.nextId)
    && KeysBelow(s.vehicles, s.nextId)
    && KeysBelow(s.partners, s.nextId)
    && KeysBelow(s.readers, s.nextId)
    && (forall i :: 0 <= i < |s.logs| ==> s.logs[i].id < s.nextId)
  }

  /** A tag's partner and vehicle exist. */
  predicate TagRefsOk(s: Store) {
    && (forall t :: t in s.tags && s.tags[t].partner.Some? ==> s.tags[t].partner.value in s.partners)
    && (forall t :: t in s.tags && s.tags[t].vehicle.Some? ==> s.tags[t].vehicle.value in s.vehicles)
  }

  /** A vehicle's owner and tag exist. */
  predicate VehicleRefsOk(s: Store) {
    && (forall v :: v in s.vehicles && s.vehicles[v].owner.Some? ==> s.vehicles[v].owner.value in s.partners)
    && (forall v :: v in s.vehicles && s.vehicles[v].tag.Some? ==> s.vehicles[v].tag.value in s.tags)
  }

  /** A partner's tag exists. */
  predicate PartnerRefsOk(s: Store) {
    forall p :: p in s.partners && s.partners[p].tag.Some? ==> s.partners[p].tag.value in s.tags
  }

  /** Every log names an existing vehicle, partner and tag. */
  predicate LogsOk(s: Store) {
    forall i :: 0 <= i < |s.logs| ==> LogRefsIn(s.logs[i], s)
  }

  predicate LogRefsIn(l: VehicleLog, s: Store) {
    l.vehicle in s.vehicles && l.partner in s.partners && l.tag in s.tags
  }

  // ------------------------------------------------------------ constraints

  /** UNIQUE(tag_id) on tags. */
  predicate TagCodesUnique(tags: map<Id, Tag>) {
    forall a, b :: a in tags && b in tags && a != b ==> tags[a].code != tags[b].code
  }

  /** A tag never belongs to both a partner and a vehicle; owning neither is allowed. */
  predicate OwnerExclusive(t: Tag) {
    !(t.partner.Some? && t.vehicle.Some?)
  }

  predicate TagOwnersExclusive(tags: map<Id, Tag>) {
    forall t :: t in tags ==> OwnerExclusive(tags[t])
  }

  /** UNIQUE(plate_number) on vehicles. */
  predicate PlatesUnique(vehicles: map<Id, Vehicle>) {
    forall a, b :: a in vehicles && b in vehicles && a != b ==> vehicles[a].plate != vehicles[b].plate
  }

  /** UNIQUE(vehicle_tag_id) on vehicles: NULLs do not collide. */
  predicate VehicleTagLinksUnique(vehicles: map<Id, Vehicle>) {
    forall a, b :: a in vehicles && b in vehicles && a != b && vehicles[a].tag.Some? ==> vehicles[a].tag != vehicles[b].tag
  }

  /** The citizen-id check: unset or empty, or 9 or 12 characters, all digits. */
  predicate CitizenIdAccepted(c: Option<string>) {
    c.None? || c.value == "" || ((|c.value| == 9 || |c.value| == 12) && AllDigits(c.value))
  }

  predicate CitizenIdsValid(partners: map<Id, Partner>) {
    && (forall p :: p in partners ==> CitizenIdAccepted(partners[p].citizenId))
    && (forall a, b :: a in partners && b in partners && a != b && partners[a].citizenId.Some? ==>
          partners[a].citizenId != partners[b].citizenId)
  }

  /** A Char value Python treats as true. */
  predicate SetText(v: Option<string>) {
    v.Some? && v.value != ""
  }

  /** reader_id (SQL unique), ip_address (checked when set) and port (checked when set) are unique among readers. */
  predicate ReadersUnique(readers: map<Id, Reader>) {
    && (forall a, b :: a in readers && b in readers && a != b && readers[a].readerId.Some? ==>
          readers[a].readerId != readers[b].readerId)
    && (forall a, b :: a in readers && b in readers && a != b && SetText(readers[a].ip) ==>
          readers[a].ip != readers[b].ip)
    && (forall a, b :: a in readers && b in readers && a != b && readers[a].port != 0 ==>
          readers[a].port != readers[b].port)
  }

  predicate Valid(s: Store) {
    && Wf(s)
    && TagCodesUnique(s.tags)
    && TagOwnersExclusive(s.tags)
    && PlatesUnique(s.vehicles)
    && VehicleTagLinksUnique(s.vehicles)
    && CitizenIdsValid(s.partners)
    && ReadersUnique(s.readers)
  }

  /** Rewriting one vehicle without touching its plate or tag link keeps both unique constraints. */
  lemma VehicleUpdateKeepsConstraints(vs: map<Id, Vehicle>, v: Id, nv: Vehicle)
    requires v in vs && nv.plate == vs[v].plate && nv.tag == vs[v].tag
    requires PlatesUnique(vs) && VehicleTagLinksUnique(vs)
    ensures PlatesUnique(vs[v := nv]) && VehicleTagLinksUnique(vs[v := nv])
  {
  }

  // ---------------------------------------------------------------- lookups

  /** The tag with the given tag_id, if any: search([('tag_id', '=', code)], limit=1). */
  function FindTag(s: Store, code: string): (r: Option<Id>)
    requires Wf(s)
    ensures r.Some? ==> r.value in s.tags && s.tags[r.value].code == code
    ensures r.Some? ==> forall t :: t in s.tags && t < r.value ==> s.tags[t].code != code
    ensures r.None? <==> forall t :: t in s.tags ==> s.tags[t].code != code
  {
    FirstKey(s.tags, (t: Tag) => t.code == code, 0, s.nextId)
  }

  /** Whether some tag carries this tag_id. */
  predicate KnownCode(s: Store, code: string)
    requires Wf(s)
  {
    FindTag(s, code).Some?
  }

  /** The partner's first vehicle in id order: partner.vehicle_ids[:1]. */
  function FirstVehicleOf(s: Store, p: Id): (r: Option<Id>)
    requires Wf(s)
    ensures r.Some? ==> r.value in s.vehicles && s.vehicles[r.value].owner == Some(p)
    ensures r.Some? ==> forall v :: v in s.vehicles && v < r.value ==> s.vehicles[v].owner != Some(p)
    ensures r.None? <==> forall v :: v in s.vehicles ==> s.vehicles[v].owner != Some(p)
  {
    FirstKey(s.vehicles, (v: Vehicle) => v.owner == Some(p), 0, s.nextId)
  }

  /** Under the unique constraint, a code names at most one tag, and FindTag finds it. */
  lemma FindTagUnique(s: Store, code: string, t: Id)
    requires Wf(s) && TagCodesUnique(s.tags)
    requires t in s.tags && s.tags[t].code == code
    ensures FindTag(s, code) == Some(t)
  {
  }

  /** The tag lookup reads only the tag table: two stores with the same tags find the same tag. */
  lemma FindTagStable(a: Store, b: Store, code: string)
    requires Wf(a) && Wf(b) && a.tags == b.tags
    ensures FindTag(a, code) == FindTag(b, code)
  {
    var x, y := FindTag(a, code), FindTag(b, code);
    if x.Some? && y.Some? {
      assert !(x.value < y.value) && !(y.value < x.value);
    }
  }

  /** The first-vehicle lookup reads only vehicle ids and owners. */
  lemma FirstVehicleOfStable(a: Store, b: Store, p: Id)
    requires Wf(a) && Wf(b) && a.vehicles.Keys == b.vehicles.Keys
    requires forall v :: v in a.vehicles ==> a.vehicles[v].owner == b.vehicles[v].owner
    ensures FirstVehicleOf(a, p) == FirstVehicleOf(b, p)
  {
    var x, y := FirstVehicleOf(a, p), FirstVehicleOf(b, p);
    if x.Some? && y.Some? {
      assert !(x.value < y.value) && !(y.value < x.value);
    }
  }
}
