/**
 * Tag records: creation with the code-uniqueness and one-owner rules, and deletion,
 * which is refused while any of the tags is active and otherwise cascades to the logs
 * recorded with those tags and clears every link to them.
 */
module TagRules {
  import opened Wrappers
  import opened Records
  import opened Lookup
  import opened StoreUpdates

  /** The exceptions a record rule raises; each one rolls the whole transaction back. */
  datatype RuleError =
    | DuplicateTagCode       // UNIQUE(tag_id) and _check_tag_id_unique
    | TagHasTwoOwners        // _check_owner_type
    | TagStillActive         // the unlink guard
    | DuplicatePlate         // UNIQUE(plate_number)
    | DuplicateVehicleTag    // UNIQUE(vehicle_tag_id)
    | DuplicateCitizenId     // unique(citizen_id)
    | CitizenIdLength        // _check_citizen_id, length clause
    | CitizenIdNotDigits     // _check_citizen_id, digit clause
    | MissingReference       // a Many2one naming a record that does not exist

  /** The result of a record rule: a value, or a raised error with nothing written. */
  datatype Outcome<+T> = Done(value: T) | Raised(error: RuleError)

  /** Why an assignment helper refuses without raising: its `{'success': False}` replies. */
  datatype Refusal = RecordNotFound | TagInUse | TagActiveUnassigned

  /** The reply of assign_tag_to_vehicle / assign_tag_to_partner. */
  datatype Assignment = Assigned(tag: Id) | Declined(reason: Refusal) | Failed(error: RuleError)

  /** A tag as `create` stores it: only the given fields set, write date `now`. */
  function NewTag(code: string, status: TagStatus, partner: Option<Id>, vehicle: Option<Id>, now: int): (t: Tag)
    ensures t.code == code && t.status == status && t.partner == partner && t.vehicle == vehicle
    ensures t.writeDate == now && t.lastSync.None? && !t.syncFromCloud
  {
    Tag(code, None, status, None, None, partner, vehicle, None, false, now)
  }

  /** The write of action_revoke_tag: both owners cleared, status inactive. */
  function Revoked(t: Tag, now: int): (r: Tag)
    ensures r.partner.None? && r.vehicle.None? && r.status == Inactive
    ensures r.code == t.code && r.writeDate == now
    ensures OwnerExclusive(r)
  {
    t.(partner := None, vehicle := None, status := Inactive, writeDate := now)
  }

  /** Whether some stored tag already carries `code`. */
  predicate CodeTaken(tags: map<Id, Tag>, code: string) {
    exists t :: t in tags && tags[t].code == code
  }

  /**
   * nsp.tag.create. The INSERT checks the foreign keys and UNIQUE(tag_id); the Python
   * constraints then re-check the code and reject a tag with both owners. The status
   * defaults to pending.
   */
  function CreateTag(s: Store, code: string, status: Option<TagStatus>, partner: Option<Id>, vehicle: Option<Id>, now: int)
    : (res: (Outcome<Id>, Store))
    requires Wf(s)
    ensures res.0.Done? <==>
      && (partner.Some? ==> partner.value in s.partners)
      && (vehicle.Some? ==> vehicle.value in s.vehicles)
      && !CodeTaken(s.tags, code)
      && !(partner.Some? && vehicle.Some?)
    ensures res.0.Raised? ==> res.1 == s
    ensures res.0.Raised? && (partner.Some? ==> partner.value in s.partners) && (vehicle.Some? ==> vehicle.value in s.vehicles) ==>
      res.0.error == (if CodeTaken(s.tags, code) then DuplicateTagCode else TagHasTwoOwners)
    ensures res.0.Done? ==>
      && res.0.value !in s.tags
      && res.1.tags.Keys == s.tags.Keys + {res.0.value}
      && (forall t :: t in s.tags ==> res.1.tags[t] == s.tags[t])
      && res.1.tags[res.0.value].code == code
      && res.1.tags[res.0.value].status == status.GetOr(DefaultTagStatus)
      && res.1.tags[res.0.value].partner == partner
      && res.1.tags[res.0.value].vehicle == vehicle
    ensures res.1.vehicles == s.vehicles && res.1.partners == s.partners && res.1.logs == s.logs
  {
    if (partner.Some? && partner.value !in s.partners) || (vehicle.Some? && vehicle.value !in s.vehicles) then
      (Raised(MissingReference), s)
    else if CodeTaken(s.tags, code) then
      (Raised(DuplicateTagCode), s)
    else if partner.Some? && vehicle.Some? then
      (Raised(TagHasTwoOwners), s)
    else
      var id := s.nextId;
      var tag := NewTag(code, status.GetOr(DefaultTagStatus), partner, vehicle, now);
      (Done(id), s.(tags := s.tags[id := tag], nextId := id + 1))
  }

  /** Creating a tag keeps every constraint: a refused create changes nothing, a created tag has a new code and one owner at most. */
  lemma CreateTagKeepsValid(s: Store, code: string, status: Option<TagStatus>, partner: Option<Id>, vehicle: Option<Id>, now: int)
    requires Valid(s)
    ensures Valid(CreateTag(s, code, status, partner, vehicle, now).1)
  {
    if CreateTag(s, code, status, partner, vehicle, now).0.Done? {
      AddTagKeepsValid(s, NewTag(code, status.GetOr(DefaultTagStatus), partner, vehicle, now));
    }
  }

  /** Storing a tag under the next free id keeps every constraint when its code is new and its owners exist. */
  lemma AddTagKeepsValid(s: Store, tag: Tag)
    requires Valid(s) && !CodeTaken(s.tags, tag.code) && OwnerExclusive(tag)
    requires tag.partner.Some? ==> tag.partner.value in s.partners
    requires tag.vehicle.Some? ==> tag.vehicle.value in s.vehicles
    ensures Valid(s.(tags := s.tags[s.nextId := tag], nextId := s.nextId + 1))
  {
    PutTagKeepsValid(s, s.nextId, tag);
  }

  /** A newly created tag with no explicit status is pending, and its owner rule is met. */
  lemma CreatedTagIsPending(s: Store, code: string, partner: Option<Id>, vehicle: Option<Id>, now: int)
    requires Wf(s)
    requires CreateTag(s, code, None, partner, vehicle, now).0.Done?
    ensures var (o, s') := CreateTag(s, code, None, partner, vehicle, now);
      s'.tags[o.value].status == Pending && OwnerExclusive(s'.tags[o.value])
  {
  }

  // ---------------------------------------------------------------- deletion

  /** A log with its link to one of the `gone` logs set to null. */
  function Detach(l: VehicleLog, gone: set<Id>): (r: VehicleLog)
    ensures r.entryLog.Some? ==> r.entryLog.value !in gone
    ensures r == l.(entryLog := r.entryLog)
    ensures l.entryLog.Some? && l.entryLog.value !in gone ==> r == l
  {
    if l.entryLog.Some? && l.entryLog.value in gone then l.(entryLog := None) else l
  }

  /**
   * The log table after deleting the tags `ids`: tag_id cascades, so every log of a
   * deleted tag goes; entry_log_id has no ondelete, so links to a deleted log become null.
   */
  function CascadeLogs(logs: seq<VehicleLog>, ids: set<Id>, gone: set<Id>): (r: seq<VehicleLog>)
    ensures |r| <= |logs|
    ensures forall i :: 0 <= i < |r| ==> r[i].tag !in ids
    ensures forall i :: 0 <= i < |r| ==> r[i].entryLog.Some? ==> r[i].entryLog.value !in gone
    ensures forall i :: 0 <= i < |logs| && logs[i].tag !in ids ==> Detach(logs[i], gone) in r
    ensures forall l :: l in r ==> exists o :: o in logs && o.tag !in ids && l == Detach(o, gone)
    decreases |logs|
  {
    if |logs| == 0 then []
    else
      var rest := CascadeLogs(logs[1..], ids, gone);
      assert forall o :: o in logs[1..] ==> o in logs;
      if logs[0].tag in ids then rest
      else
        var r := [Detach(logs[0], gone)] + rest;
        assert forall i :: 1 <= i < |logs| ==> logs[i] == logs[1..][i - 1];
        r
  }

  /** The ids of the logs recorded with one of the tags `ids`. */
  function LogsOfTags(logs: seq<VehicleLog>, ids: set<Id>): (gone: set<Id>)
    ensures forall i :: 0 <= i < |logs| && logs[i].tag in ids ==> logs[i].id in gone
  {
    set l | l in logs && l.tag in ids :: l.id
  }

  /** A link that pointed at a deleted tag, set to null. */
  function Unlinked(link: Option<Id>, ids: set<Id>): (r: Option<Id>)
    ensures r.Some? ==> r == link && r.value !in ids
    ensures link.Some? && link.value !in ids ==> r == link
  {
    if link.Some? && link.value in ids then None else link
  }

  /** Some tag of the set is active. */
  predicate AnyActive(s: Store, ids: set<Id>)
    requires ids <= s.tags.Keys
  {
    exists t :: t in ids && s.tags[t].status == Active
  }

  /**
   * nsp.tag.unlink on the recordset `ids`: refused if any of them is active, otherwise the
   * store becomes UnlinkedStore(s, ids).
   */
  function UnlinkTags(s: Store, ids: set<Id>): (res: (Outcome<()>, Store))
    requires Wf(s) && ids <= s.tags.Keys
    ensures res.0.Raised? <==> AnyActive(s, ids)
    ensures res.0.Raised? ==> res.0.error == TagStillActive && res.1 == s
    ensures res.0.Done? ==> res.1 == UnlinkedStore(s, ids)
  {
    if AnyActive(s, ids) then (Raised(TagStillActive), s)
    else (Done(()), UnlinkedStore(s, ids))
  }

  /**
   * The store after deleting the tags `ids`: the other tags stay as they were, every vehicle
   * and partner link to a deleted tag is null, the logs of a deleted tag are gone, and the
   * other logs stay, detached from deleted entries.
   */
  function UnlinkedStore(s: Store, ids: set<Id>): (r: Store)
    ensures r.tags.Keys == s.tags.Keys - ids
    ensures forall t :: t in r.tags ==> r.tags[t] == s.tags[t]
    ensures r.vehicles.Keys == s.vehicles.Keys
    ensures forall v :: v in s.vehicles ==> r.vehicles[v] == s.vehicles[v].(tag := Unlinked(s.vehicles[v].tag, ids))
    ensures r.partners.Keys == s.partners.Keys
    ensures forall p :: p in s.partners ==> r.partners[p] == s.partners[p].(tag := Unlinked(s.partners[p].tag, ids))
    ensures r.logs == CascadeLogs(s.logs, ids, LogsOfTags(s.logs, ids))
    ensures r.readers == s.readers && r.queue == s.queue && r.nextId == s.nextId
  {
    s.(tags := map t | t in s.tags && t !in ids :: s.tags[t],
       vehicles := map v | v in s.vehicles :: s.vehicles[v].(tag := Unlinked(s.vehicles[v].tag, ids)),
       partners := map p | p in s.partners :: s.partners[p].(tag := Unlinked(s.partners[p].tag, ids)),
       logs := CascadeLogs(s.logs, ids, LogsOfTags(s.logs, ids)))
  }

  /**
   * After a delete nothing refers to a deleted tag: no vehicle, partner or log names one,
   * and every log of a kept tag is still there.
   */
  lemma UnlinkLeavesNoReference(s: Store, ids: set<Id>)
    requires Wf(s) && ids <= s.tags.Keys && !AnyActive(s, ids)
    ensures var r := UnlinkTags(s, ids).1;
      && (forall v :: v in r.vehicles && r.vehicles[v].tag.Some? ==> r.vehicles[v].tag.value !in ids)
      && (forall p :: p in r.partners && r.partners[p].tag.Some? ==> r.partners[p].tag.value !in ids)
      && (forall i :: 0 <= i < |r.logs| ==> r.logs[i].tag !in ids)
      && (forall i :: 0 <= i < |s.logs| && s.logs[i].tag !in ids ==> Detach(s.logs[i], LogsOfTags(s.logs, ids)) in r.logs)
  {
  }

  /** Deleting tags keeps every constraint: no dangling link survives and no key is reused. */
  lemma UnlinkTagsKeepsValid(s: Store, ids: set<Id>)
    requires Valid(s) && ids <= s.tags.Keys
    ensures Valid(UnlinkTags(s, ids).1)
  {
    if !AnyActive(s, ids) {
      var r := UnlinkedStore(s, ids);
      UnlinkedWf(s, ids);
      assert VehicleTagLinksUnique(r.vehicles) by {
        forall a, b | a in r.vehicles && b in r.vehicles && a != b && r.vehicles[a].tag.Some?
          ensures r.vehicles[a].tag != r.vehicles[b].tag
        {
          assert r.vehicles[a].tag == s.vehicles[a].tag;
        }
      }
      assert PlatesUnique(r.vehicles) by {
        forall v | v in r.vehicles ensures r.vehicles[v].plate == s.vehicles[v].plate { }
      }
      assert CitizenIdsValid(r.partners) by {
        forall p | p in r.partners ensures r.partners[p].citizenId == s.partners[p].citizenId { }
      }
    }
  }

  /** The store after a delete keeps every reference valid. */
  lemma UnlinkedWf(s: Store, ids: set<Id>)
    requires Wf(s) && ids <= s.tags.Keys
    ensures Wf(UnlinkedStore(s, ids))
  {
    var r := UnlinkedStore(s, ids);
    CascadeLogsWf(s, r, ids);
    assert IdsBelow(r);
    assert TagRefsOk(r) by {
      forall t | t in r.tags ensures r.tags[t] == s.tags[t] { }
    }
    assert VehicleRefsOk(r) by {
      forall v | v in r.vehicles ensures r.vehicles[v] == s.vehicles[v].(tag := Unlinked(s.vehicles[v].tag, ids)) { }
    }
    assert PartnerRefsOk(r) by {
      forall p | p in r.partners ensures r.partners[p] == s.partners[p].(tag := Unlinked(s.partners[p].tag, ids)) { }
    }
  }

  /** After the cascade every remaining log still names an existing vehicle, partner and tag. */
  lemma CascadeLogsWf(s: Store, r: Store, ids: set<Id>)
    requires LogsOk(s) && IdsBelow(s)
    requires r.logs == CascadeLogs(s.logs, ids, LogsOfTags(s.logs, ids)) && r.nextId == s.nextId
    requires r.tags.Keys == s.tags.Keys - ids && r.vehicles.Keys == s.vehicles.Keys && r.partners.Keys == s.partners.Keys
    ensures LogsOk(r) && forall i :: 0 <= i < |r.logs| ==> r.logs[i].id < r.nextId
  {
    forall i | 0 <= i < |r.logs|
      ensures r.logs[i].id < r.nextId && LogRefsIn(r.logs[i], r)
    {
      var l := r.logs[i];
      assert l in r.logs;
      var og :| og in s.logs && og.tag !in ids && l == Detach(og, LogsOfTags(s.logs, ids));
      var k :| 0 <= k < |s.logs| && s.logs[k] == og;
      assert LogRefsIn(s.logs[k], s);
    }
  }
}
