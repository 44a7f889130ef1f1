/**
 * Vehicles: creation under the plate and tag-link uniqueness constraints, and the
 * assignment and revocation of a vehicle's RFID tag.
 */
module VehicleRules {
  import opened Wrappers
  import opened Records
  import opened TagRules
  import opened VehicleLogs
  import opened StoreUpdates

  /**
   * nsp.vehicle.create. The INSERT checks the foreign keys and both unique constraints;
   * last_direction takes its default, so a new vehicle counts as inside.
   */
  function CreateVehicle(s: Store, name: string, plate: string, kind: VehicleType, owner: Option<Id>, tag: Option<Id>)
    : (res: (Outcome<Id>, Store))
    requires Wf(s)
    ensures res.0.Done? <==>
      && (owner.Some? ==> owner.value in s.partners)
      && (tag.Some? ==> tag.value in s.tags)
      && (forall v :: v in s.vehicles ==> s.vehicles[v].plate != plate)
      && (tag.Some? ==> forall v :: v in s.vehicles ==> s.vehicles[v].tag != tag)
    ensures res.0.Raised? ==> res.1 == s
    ensures res.0.Done? ==>
      && res.0.value == s.nextId && res.0.value !in s.vehicles
      && res.1 == s.(vehicles := s.vehicles[res.0.value := Vehicle(name, plate, kind, owner, tag, DefaultLastDirection)],
                     nextId := s.nextId + 1)
  {
    if (owner.Some? && owner.value !in s.partners) || (tag.Some? && tag.value !in s.tags) then
      (Raised(MissingReference), s)
    else if exists v :: v in s.vehicles && s.vehicles[v].plate == plate then
      (Raised(DuplicatePlate), s)
    else if tag.Some? && exists v :: v in s.vehicles && s.vehicles[v].tag == tag then
      (Raised(DuplicateVehicleTag), s)
    else
      var id := s.nextId;
      (Done(id), s.(vehicles := s.vehicles[id := Vehicle(name, plate, kind, owner, tag, DefaultLastDirection)], nextId := id + 1))
  }

  /** Creating a vehicle keeps every constraint. */
  lemma CreateVehicleKeepsValid(s: Store, name: string, plate: string, kind: VehicleType, owner: Option<Id>, tag: Option<Id>)
    requires Valid(s)
    ensures Valid(CreateVehicle(s, name, plate, kind, owner, tag).1)
  {
    if CreateVehicle(s, name, plate, kind, owner, tag).0.Done? {
      var vehicle := Vehicle(name, plate, kind, owner, tag, DefaultLastDirection);
      assert vehicle.tag.Some? ==> !LinkedElsewhere(s.vehicles, vehicle.tag.value, s.nextId);
      PutVehicleKeepsValid(s, s.nextId, vehicle);
    }
  }

  /** A freshly created vehicle is inside the car park. */
  lemma NewVehicleIsInside(s: Store, name: string, plate: string, kind: VehicleType, owner: Option<Id>, tag: Option<Id>)
    requires Wf(s)
    requires CreateVehicle(s, name, plate, kind, owner, tag).0.Done?
    ensures var (o, s') := CreateVehicle(s, name, plate, kind, owner, tag);
      PresenceOf(s'.vehicles[o.value].lastDirection) == Inside
  {
  }

  // ------------------------------------------------------------- assignment

  /** An existing tag can be taken over by `v`: not active, no partner, not linked from another vehicle. */
  predicate TakeableByVehicle(s: Store, t: Id, v: Id)
    requires t in s.tags
  {
    s.tags[t].status != Active && s.tags[t].partner.None? && !LinkedElsewhere(s.vehicles, t, v)
  }

  /**
   * assign_tag_to_vehicle. An unknown vehicle gets a refusal; an unknown code creates a
   * new active tag owned by the vehicle; an existing tag goes to AssignFoundTag. The tag
   * search has no limit, so the code's uniqueness is what makes its result a single
   * record. The branches are stated by the lemmas that follow.
   */
  function AssignTagToVehicle(s: Store, v: Id, code: string, now: int): (res: (Assignment, Store))
    requires Wf(s) && TagCodesUnique(s.tags)
    ensures !res.0.Assigned? ==> res.1 == s
    ensures res.0 == Declined(RecordNotFound) <==> v !in s.vehicles
  {
    if v !in s.vehicles then (Declined(RecordNotFound), s)
    else match FindTag(s, code)
      case None =>
        var (t, s') := AttachNewTag(s, v, code, now);
        (Assigned(t), s')
      case Some(t) => AssignFoundTag(s, v, t, now)
  }

  /**
   * The existing-tag branch: an active tag is refused; a non-active one is taken over
   * field by field, so a partner on it raises the one-owner rule and a link from another
   * vehicle raises UNIQUE(vehicle_tag_id).
   */
  function AssignFoundTag(s: Store, v: Id, t: Id, now: int): (res: (Assignment, Store))
    requires v in s.vehicles && t in s.tags
    ensures !res.0.Assigned? ==> res.1 == s
    ensures res.0 != Declined(RecordNotFound)
  {
    var tag := s.tags[t];
    if tag.status == Active then
      if (tag.vehicle.Some? && tag.vehicle.value != v) || tag.partner.Some? then (Declined(TagInUse), s)
      else (Declined(TagActiveUnassigned), s)
    else if tag.partner.Some? then (Failed(TagHasTwoOwners), s)
    else if LinkedElsewhere(s.vehicles, t, v) then (Failed(DuplicateVehicleTag), s)
    else (Assigned(t), TakeOverTag(s, v, t, now))
  }

  /**
   * For an existing tag: an active one is always refused, as in use when it has a partner
   * or another vehicle, else as active-but-unassigned, even when it is this vehicle's
   * own; a non-active one with a partner raises the one-owner rule; one linked from
   * another vehicle raises the tag-link constraint; any other is taken over.
   */
  lemma AssignExistingTagToVehicle(s: Store, v: Id, code: string, now: int, t: Id)
    requires Wf(s) && TagCodesUnique(s.tags) && v in s.vehicles
    requires t in s.tags && s.tags[t].code == code
    ensures var res := AssignTagToVehicle(s, v, code, now);
      var tag := s.tags[t];
      && (tag.status == Active ==>
            res == (if (tag.vehicle.Some? && tag.vehicle != Some(v)) || tag.partner.Some?
                    then (Declined(TagInUse), s) else (Declined(TagActiveUnassigned), s)))
      && (tag.status != Active && tag.partner.Some? ==> res == (Failed(TagHasTwoOwners), s))
      && (tag.status != Active && tag.partner.None? && LinkedElsewhere(s.vehicles, t, v) ==>
            res == (Failed(DuplicateVehicleTag), s))
      && (res.0.Assigned? <==> TakeableByVehicle(s, t, v))
      && (TakeableByVehicle(s, t, v) ==> res == (Assigned(t), TakeOverTag(s, v, t, now)))
  {
    FindTagUnique(s, code, t);
    assert AssignTagToVehicle(s, v, code, now) == AssignFoundTag(s, v, t, now);
  }

  /** An unknown code creates a new tag under the next free id, active and owned by the vehicle. */
  lemma AssignUnknownCodeToVehicle(s: Store, v: Id, code: string, now: int)
    requires Wf(s) && TagCodesUnique(s.tags) && v in s.vehicles && !CodeTaken(s.tags, code)
    ensures AssignTagToVehicle(s, v, code, now) == (Assigned(s.nextId), AttachNewTag(s, v, code, now).1)
  {
  }

  /** The unknown-code branch: a new active tag owned by `v`, linked from `v`. */
  function AttachNewTag(s: Store, v: Id, code: string, now: int): (r: (Id, Store))
    requires Wf(s) && v in s.vehicles
    ensures r.0 == s.nextId && r.0 !in s.tags
  {
    var t := s.nextId;
    (t, s.(tags := s.tags[t := NewTag(code, Active, None, Some(v), now)],
           vehicles := s.vehicles[v := s.vehicles[v].(tag := Some(t))],
           nextId := t + 1))
  }

  /** The non-active-tag branch: the tag points at `v` and becomes active, and `v` points at the tag. */
  function TakeOverTag(s: Store, v: Id, t: Id, now: int): (r: Store)
    requires v in s.vehicles && t in s.tags
    ensures r.tags.Keys == s.tags.Keys && r.nextId == s.nextId
  {
    s.(tags := s.tags[t := s.tags[t].(vehicle := Some(v), status := Active, writeDate := now)],
       vehicles := s.vehicles[v := s.vehicles[v].(tag := Some(t))])
  }

  /**
   * `b` is `a` with tag `t` carrying `code`, active and owned by vehicle `v` alone, `v`
   * linked to it, and no other record changed.
   */
  predicate VehicleTagWritten(a: Store, b: Store, v: Id, t: Id, code: string) {
    && v in a.vehicles && t in b.tags
    && b.tags[t].code == code && b.tags[t].vehicle == Some(v) && b.tags[t].partner.None? && b.tags[t].status == Active
    && b.vehicles == a.vehicles[v := a.vehicles[v].(tag := Some(t))]
    && b.tags.Keys == a.tags.Keys + {t}
    && (forall u :: u in a.tags && u != t ==> b.tags[u] == a.tags[u])
    && b.partners == a.partners && b.logs == a.logs && b.readers == a.readers && b.queue == a.queue
  }

  lemma AttachNewTagWrites(s: Store, v: Id, code: string, now: int)
    requires Wf(s) && v in s.vehicles
    ensures var (t, s') := AttachNewTag(s, v, code, now);
      VehicleTagWritten(s, s', v, t, code) && s'.nextId == s.nextId + 1
  {
  }

  lemma TakeOverTagWrites(s: Store, v: Id, t: Id, now: int)
    requires v in s.vehicles && t in s.tags && s.tags[t].partner.None?
    ensures VehicleTagWritten(s, TakeOverTag(s, v, t, now), v, t, s.tags[t].code)
    ensures TakeOverTag(s, v, t, now).tags[t] == s.tags[t].(vehicle := Some(v), status := Active, writeDate := now)
  {
  }

  /**
   * A successful assignment makes the tag active and owned by the vehicle alone, links
   * the vehicle to it, and changes no other record; the tag was either not active and
   * without a partner, or new under the next free id because no tag had the code.
   */
  lemma AssignedVehicleTag(s: Store, v: Id, code: string, now: int)
    requires Wf(s) && TagCodesUnique(s.tags)
    requires AssignTagToVehicle(s, v, code, now).0.Assigned?
    ensures var (a, s') := AssignTagToVehicle(s, v, code, now);
      && VehicleTagWritten(s, s', v, a.tag, code)
      && (a.tag in s.tags ==> TakeableByVehicle(s, a.tag, v))
      && (a.tag !in s.tags ==> a.tag == s.nextId && !CodeTaken(s.tags, code))
  {
    match FindTag(s, code)
    case None =>
      AttachNewTagWrites(s, v, code, now);
    case Some(t) =>
      AssignExistingTagToVehicle(s, v, code, now, t);
      TakeOverTagWrites(s, v, t, now);
  }

  /** Under unique codes, the tag `t` is the only one carrying its code. */
  lemma CodeFreeOwn(tags: map<Id, Tag>, t: Id)
    requires TagCodesUnique(tags) && t in tags
    ensures CodeFreeExcept(tags, tags[t].code, t)
  {
  }

  lemma AttachNewTagKeepsValid(s: Store, v: Id, code: string, now: int)
    requires Valid(s) && v in s.vehicles && !CodeTaken(s.tags, code)
    ensures Valid(AttachNewTag(s, v, code, now).1)
  {
    var t := s.nextId;
    assert !LinkedElsewhere(s.vehicles, t, v) by {
      forall w | w in s.vehicles && s.vehicles[w].tag.Some? ensures s.vehicles[w].tag != Some(t) {
        assert s.vehicles[w].tag.value in s.tags;
      }
    }
    PutTagAndVehicleKeepsValid(s, t, NewTag(code, Active, None, Some(v), now), v, s.vehicles[v].(tag := Some(t)));
  }

  lemma TakeOverTagKeepsValid(s: Store, v: Id, t: Id, now: int)
    requires Valid(s) && v in s.vehicles && t in s.tags && TakeableByVehicle(s, t, v)
    ensures Valid(TakeOverTag(s, v, t, now))
  {
    CodeFreeOwn(s.tags, t);
    PutTagAndVehicleKeepsValid(s, t, s.tags[t].(vehicle := Some(v), status := Active, writeDate := now),
                               v, s.vehicles[v].(tag := Some(t)));
  }

  /** Assigning a tag to a vehicle keeps every constraint, whichever branch it takes. */
  lemma AssignTagToVehicleKeepsValid(s: Store, v: Id, code: string, now: int)
    requires Valid(s)
    ensures Valid(AssignTagToVehicle(s, v, code, now).1)
  {
    if v in s.vehicles {
      match FindTag(s, code)
      case None =>
        AssignUnknownCodeToVehicle(s, v, code, now);
        AttachNewTagKeepsValid(s, v, code, now);
      case Some(t) =>
        AssignExistingTagToVehicle(s, v, code, now, t);
        if TakeableByVehicle(s, t, v) {
          TakeOverTagKeepsValid(s, v, t, now);
        }
    }
  }

  /** The recorder resolves a code whose tag was just written for vehicle `v` to that vehicle and its owner. */
  lemma WrittenVehicleTagResolves(a: Store, b: Store, v: Id, t: Id, code: string)
    requires Wf(b) && TagCodesUnique(b.tags) && VehicleTagWritten(a, b, v, t, code)
    ensures var owner := a.vehicles[v].owner;
      ResolveLogTarget(b, code) == (if owner.Some? then Resolved(t, v, owner.value) else Refused(VehicleNotAssigned))
  {
    FindTagUnique(b, code, t);
    assert b.vehicles[v].owner == a.vehicles[v].owner;
  }

  /**
   * Once assigned, the tag is the vehicle's key at the gate: the recorder resolves it to
   * this vehicle and its owner, or refuses with VEHICLE_NOT_ASSIGNED when it has none.
   */
  lemma AssignedVehicleTagResolves(s: Store, v: Id, code: string, now: int)
    requires Valid(s)
    requires AssignTagToVehicle(s, v, code, now).0.Assigned?
    ensures var (a, s') := AssignTagToVehicle(s, v, code, now);
      var owner := s.vehicles[v].owner;
      && Wf(s')
      && ResolveLogTarget(s', code) == (if owner.Some? then Resolved(a.tag, v, owner.value) else Refused(VehicleNotAssigned))
  {
    var (a, s') := AssignTagToVehicle(s, v, code, now);
    AssignTagToVehicleKeepsValid(s, v, code, now);
    AssignedVehicleTag(s, v, code, now);
    WrittenVehicleTagResolves(s, s', v, a.tag, code);
  }

  // ------------------------------------------------------------- revocation

  /** Every vehicle's tag link names a stored tag: the part of Wf revocation relies on. */
  predicate VehicleLinksResolve(s: Store) {
    forall v :: v in s.vehicles && s.vehicles[v].tag.Some? ==> s.vehicles[v].tag.value in s.tags
  }

  /** action_revoke_tag for one vehicle: its tag, if any, is revoked and the link cleared. */
  function RevokeVehicleTag(s: Store, v: Id, now: int): (r: Store)
    requires VehicleLinksResolve(s) && v in s.vehicles
    ensures VehicleLinksResolve(r)
    ensures r.vehicles == s.vehicles[v := s.vehicles[v].(tag := None)]
    ensures s.vehicles[v].tag.None? ==> r == s
    ensures s.vehicles[v].tag.Some? ==>
      r.tags == s.tags[s.vehicles[v].tag.value := Revoked(s.tags[s.vehicles[v].tag.value], now)]
    ensures r.partners == s.partners && r.logs == s.logs && r.readers == s.readers && r.queue == s.queue
    ensures r.nextId == s.nextId
  {
    match s.vehicles[v].tag
    case None => assert s.vehicles[v := s.vehicles[v].(tag := None)] == s.vehicles; s
    case Some(t) =>
      s.(tags := s.tags[t := Revoked(s.tags[t], now)], vehicles := s.vehicles[v := s.vehicles[v].(tag := None)])
  }

  /** Some vehicle of the recordset links the tag `t`. */
  predicate LinkedFrom(s: Store, vs: seq<Id>, t: Id)
    requires forall i :: 0 <= i < |vs| ==> vs[i] in s.vehicles
  {
    exists i :: 0 <= i < |vs| && s.vehicles[vs[i]].tag == Some(t)
  }

  /** Revoking one vehicle's tag leaves the other links of the recordset as they were. */
  lemma LinkedFromStep(s: Store, vs: seq<Id>, now: int, t: Id)
    requires VehicleLinksResolve(s) && |vs| > 0 && forall i :: 0 <= i < |vs| ==> vs[i] in s.vehicles
    ensures var s1 := RevokeVehicleTag(s, vs[0], now);
      && (LinkedFrom(s1, vs[1..], t) ==> LinkedFrom(s, vs, t))
      && (LinkedFrom(s, vs, t) && !LinkedFrom(s1, vs[1..], t) ==> s.vehicles[vs[0]].tag == Some(t))
  {
    var s1 := RevokeVehicleTag(s, vs[0], now);
    var rest := vs[1..];
    if LinkedFrom(s1, rest, t) {
      var i :| 0 <= i < |rest| && s1.vehicles[rest[i]].tag == Some(t);
      assert rest[i] == vs[i + 1];
    }
    if LinkedFrom(s, vs, t) && !LinkedFrom(s1, rest, t) {
      var i :| 0 <= i < |vs| && s.vehicles[vs[i]].tag == Some(t);
      if i > 0 && vs[i] != vs[0] {
        assert false;
      }
    }
  }

  /**
   * action_revoke_tag on a recordset, one vehicle after another. What it does to links and
   * tags is stated by RevokeVehicleTagsClearsLinks and RevokeVehicleTagsRevokes.
   */
  function RevokeVehicleTags(s: Store, vs: seq<Id>, now: int): (r: Store)
    requires VehicleLinksResolve(s) && forall i :: 0 <= i < |vs| ==> vs[i] in s.vehicles
    ensures VehicleLinksResolve(r)
    ensures r.vehicles.Keys == s.vehicles.Keys && r.tags.Keys == s.tags.Keys
    ensures r.partners == s.partners && r.logs == s.logs && r.readers == s.readers && r.queue == s.queue
    ensures r.nextId == s.nextId
    decreases |vs|
  {
    if |vs| == 0 then s
    else
      var rest := vs[1..];
      assert forall i :: 0 <= i < |rest| ==> rest[i] == vs[i + 1];
      RevokeVehicleTags(RevokeVehicleTag(s, vs[0], now), rest, now)
  }

  /** Every vehicle of the recordset loses its tag link; every other vehicle is unchanged. */
  lemma {:induction false} RevokeVehicleTagsClearsLinks(s: Store, vs: seq<Id>, now: int, v: Id)
    requires VehicleLinksResolve(s) && forall i :: 0 <= i < |vs| ==> vs[i] in s.vehicles
    requires v in s.vehicles
    ensures RevokeVehicleTags(s, vs, now).vehicles[v] == (if v in vs then s.vehicles[v].(tag := None) else s.vehicles[v])
    decreases |vs|
  {
    if |vs| > 0 {
      var rest := vs[1..];
      assert forall i :: 0 <= i < |rest| ==> rest[i] == vs[i + 1];
      assert vs == [vs[0]] + rest;
      RevokeVehicleTagsClearsLinks(RevokeVehicleTag(s, vs[0], now), rest, now, v);
    }
  }

  /** Revoking twice is revoking once. */
  lemma RevokedIdempotent(t: Tag, now: int)
    ensures Revoked(Revoked(t, now), now) == Revoked(t, now)
  {
  }

  /**
   * Every tag linked from a vehicle of the recordset is revoked: both owners cleared,
   * status inactive. Every other tag is unchanged.
   */
  lemma {:induction false} RevokeVehicleTagsRevokes(s: Store, vs: seq<Id>, now: int, t: Id)
    requires VehicleLinksResolve(s) && forall i :: 0 <= i < |vs| ==> vs[i] in s.vehicles
    requires t in s.tags
    ensures RevokeVehicleTags(s, vs, now).tags[t] == (if LinkedFrom(s, vs, t) then Revoked(s.tags[t], now) else s.tags[t])
    decreases |vs|
  {
    if |vs| > 0 {
      var s1 := RevokeVehicleTag(s, vs[0], now);
      var rest := vs[1..];
      assert forall i :: 0 <= i < |rest| ==> rest[i] == vs[i + 1];
      RevokeVehicleTagsRevokes(s1, rest, now, t);
      LinkedFromStep(s, vs, now, t);
      if LinkedFrom(s1, rest, t) {
        var i :| 0 <= i < |rest| && s1.vehicles[rest[i]].tag == Some(t);
        if s.vehicles[vs[0]].tag == Some(t) {
          RevokedIdempotent(s.tags[t], now);
        } else {
          assert s1.tags[t] == s.tags[t];
        }
      }
    }
  }

  /** Revoking a set of vehicles' tags keeps every constraint. */
  lemma {:induction false} RevokeVehicleTagsKeepsValid(s: Store, vs: seq<Id>, now: int)
    requires Valid(s) && forall i :: 0 <= i < |vs| ==> vs[i] in s.vehicles
    ensures Valid(RevokeVehicleTags(s, vs, now))
    decreases |vs|
  {
    if |vs| > 0 {
      var s1 := RevokeVehicleTag(s, vs[0], now);
      RevokeVehicleTagKeepsValid(s, vs[0], now);
      var rest := vs[1..];
      assert forall i :: 0 <= i < |rest| ==> rest[i] == vs[i + 1];
      RevokeVehicleTagsKeepsValid(s1, rest, now);
    }
  }

  /** Revoking one vehicle's tag keeps every constraint. */
  lemma RevokeVehicleTagKeepsValid(s: Store, v: Id, now: int)
    requires Valid(s) && v in s.vehicles
    ensures Valid(RevokeVehicleTag(s, v, now))
  {
    if s.vehicles[v].tag.Some? {
      var t := s.vehicles[v].tag.value;
      CodeFreeOwn(s.tags, t);
      PutTagAndVehicleKeepsValid(s, t, Revoked(s.tags[t], now), v, s.vehicles[v].(tag := None));
    }
  }
}
