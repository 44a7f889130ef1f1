/**
 * Partners: the citizen-id check and its unique constraint, and the assignment and
 * revocation of a partner's membership tag.
 *
 * assign_tag_to_partner takes a non-active tag over with three single-field writes,
 * the partner first and the vehicle cleared second. The one-owner rule runs after
 * each write, so a non-active tag that is still on a vehicle is refused with the
 * one-owner error and the transaction rolls back. `AssignTagToPartnerAsWritten`
 * keeps that order; `AssignTagToPartner` writes the fields together, as the
 * vehicle-clearing write evidently intends.
 */
module PartnerRules {
  import opened Wrappers
  import opened Records
  import opened Text
  import opened TagRules
  import opened VehicleLogs
  import opened StoreUpdates
  import VehicleRules

  // ------------------------------------------------------------- citizen id

  /** _check_citizen_id: a set value must have 9 or 12 characters, then be all digits; the length is checked first. */
  function CitizenIdError(c: Option<string>): (e: Option<RuleError>)
    ensures e.None? <==> CitizenIdAccepted(c)
    ensures e == Some(CitizenIdLength) <==> SetText(c) && |c.value| != 9 && |c.value| != 12
    ensures e == Some(CitizenIdNotDigits) <==> SetText(c) && (|c.value| == 9 || |c.value| == 12) && !AllDigits(c.value)
  {
    if !SetText(c) then None
    else if |c.value| != 9 && |c.value| != 12 then Some(CitizenIdLength)
    else if !AllDigits(c.value) then Some(CitizenIdNotDigits)
    else None
  }

  /**
   * Writing citizen_id on an existing partner: the Python check runs inside the write,
   * UNIQUE(citizen_id) when the row is flushed; an empty string is a value like any
   * other for the unique constraint, an unset one is not.
   */
  function SetCitizenId(s: Store, p: Id, c: Option<string>): (res: (Outcome<Id>, Store))
    requires p in s.partners
    ensures res.0.Done? <==> CitizenIdAccepted(c) && CitizenIdFreeExcept(s.partners, c, p)
    ensures res.0.Raised? ==> res.1 == s
    ensures res.0.Raised? ==> res.0.error == (if CitizenIdError(c).Some? then CitizenIdError(c).value else DuplicateCitizenId)
    ensures res.0.Done? ==> res.0.value == p && res.1 == s.(partners := s.partners[p := s.partners[p].(citizenId := c)])
  {
    match CitizenIdError(c)
    case Some(e) => (Raised(e), s)
    case None =>
      if c.Some? && exists q :: q in s.partners && q != p && s.partners[q].citizenId == c then (Raised(DuplicateCitizenId), s)
      else (Done(p), s.(partners := s.partners[p := s.partners[p].(citizenId := c)]))
  }

  /** Writing a citizen id keeps every constraint. */
  lemma SetCitizenIdKeepsValid(s: Store, p: Id, c: Option<string>)
    requires Valid(s) && p in s.partners
    ensures Valid(SetCitizenId(s, p, c).1)
  {
    if SetCitizenId(s, p, c).0.Done? {
      PutPartnerKeepsValid(s, p, s.partners[p].(citizenId := c));
    }
  }

  /** Nine or twelve digits pass; eight digits fail on length; a letter among nine characters fails on digits. */
  lemma CitizenIdExamples()
    ensures CitizenIdError(Some("012345678")).None?
    ensures CitizenIdError(Some("001234567890")).None?
    ensures CitizenIdError(Some("")).None? && CitizenIdError(None).None?
    ensures CitizenIdError(Some("12345678")) == Some(CitizenIdLength)
    ensures CitizenIdError(Some("01234567a")) == Some(CitizenIdNotDigits)
  {
    assert !IsDigit("01234567a"[8]);
  }

  // ------------------------------------------------------------- assignment

  /** assign_tag_to_partner with the corrected write order. The branches are stated by the lemmas that follow. */
  function AssignTagToPartner(s: Store, p: Id, code: string, now: int): (res: (Assignment, Store))
    requires Wf(s) && TagCodesUnique(s.tags)
    ensures !res.0.Assigned? ==> res.1 == s
    ensures res.0 == Declined(RecordNotFound) <==> p !in s.partners
    ensures !res.0.Failed?
  {
    if p !in s.partners then (Declined(RecordNotFound), s)
    else match FindTag(s, code)
      case None =>
        var (t, s') := AttachNewPartnerTag(s, p, code, now);
        (Assigned(t), s')
      case Some(t) => AssignFoundTagToPartner(s, p, t, now)
  }

  /**
   * The existing-tag branch: an active tag is refused, as in use when another partner or
   * a vehicle has it, else as active-but-unassigned, even when it is this partner's own;
   * a non-active one is taken over.
   */
  function AssignFoundTagToPartner(s: Store, p: Id, t: Id, now: int): (res: (Assignment, Store))
    requires p in s.partners && t in s.tags
    ensures !res.0.Assigned? ==> res.1 == s
    ensures res.0.Declined? <==> s.tags[t].status == Active
    ensures !res.0.Failed?
  {
    var tag := s.tags[t];
    if tag.status == Active then
      if (tag.partner.Some? && tag.partner.value != p) || tag.vehicle.Some? then (Declined(TagInUse), s)
      else (Declined(TagActiveUnassigned), s)
    else (Assigned(t), TakeOverTagForPartner(s, p, t, now))
  }

  /** assign_tag_to_partner as written: the partner is written before the vehicle is cleared. */
  function AssignTagToPartnerAsWritten(s: Store, p: Id, code: string, now: int): (res: (Assignment, Store))
    requires Wf(s) && TagCodesUnique(s.tags)
    ensures !res.0.Assigned? ==> res.1 == s
  {
    if p !in s.partners then (Declined(RecordNotFound), s)
    else match FindTag(s, code)
      case None =>
        var (t, s') := AttachNewPartnerTag(s, p, code, now);
        (Assigned(t), s')
      case Some(t) => AssignFoundTagToPartnerAsWritten(s, p, t, now)
  }

  /** The existing-tag branch as written: the first write gives a tag still on a vehicle two owners. */
  function AssignFoundTagToPartnerAsWritten(s: Store, p: Id, t: Id, now: int): (res: (Assignment, Store))
    requires p in s.partners && t in s.tags
    ensures !res.0.Assigned? ==> res.1 == s
  {
    var tag := s.tags[t];
    if tag.status == Active then
      if (tag.partner.Some? && tag.partner.value != p) || tag.vehicle.Some? then (Declined(TagInUse), s)
      else (Declined(TagActiveUnassigned), s)
    else if tag.vehicle.Some? then (Failed(TagHasTwoOwners), s)
    else (Assigned(t), TakeOverTagForPartner(s, p, t, now))
  }

  /** The unknown-code branch: a new active tag owned by `p`, linked from `p`. */
  function AttachNewPartnerTag(s: Store, p: Id, code: string, now: int): (r: (Id, Store))
    requires Wf(s) && p in s.partners
    ensures r.0 == s.nextId && r.0 !in s.tags
  {
    var t := s.nextId;
    (t, s.(tags := s.tags[t := NewTag(code, Active, Some(p), None, now)],
           partners := s.partners[p := s.partners[p].(tag := Some(t))],
           nextId := t + 1))
  }

  /** The non-active-tag branch: the tag names `p` alone and becomes active, and `p` points at the tag. */
  function TakeOverTagForPartner(s: Store, p: Id, t: Id, now: int): (r: Store)
    requires p in s.partners && t in s.tags
    ensures r.tags.Keys == s.tags.Keys && r.nextId == s.nextId
  {
    s.(tags := s.tags[t := s.tags[t].(partner := Some(p), vehicle := None, status := Active, writeDate := now)],
       partners := s.partners[p := s.partners[p].(tag := Some(t))])
  }

  /**
   * `b` is `a` with tag `t` carrying `code`, active and owned by partner `p` alone, `p`
   * linked to it, and no other record changed: the partner's earlier tag is left as it was.
   */
  predicate PartnerTagWritten(a: Store, b: Store, p: Id, t: Id, code: string) {
    && p in a.partners && t in b.tags
    && b.tags[t].code == code && b.tags[t].partner == Some(p) && b.tags[t].vehicle.None? && b.tags[t].status == Active
    && b.partners == a.partners[p := a.partners[p].(tag := Some(t))]
    && b.tags.Keys == a.tags.Keys + {t}
    && (forall u :: u in a.tags && u != t ==> b.tags[u] == a.tags[u])
    && b.vehicles == a.vehicles && b.logs == a.logs && b.readers == a.readers && b.queue == a.queue
  }

  lemma AttachNewPartnerTagWrites(s: Store, p: Id, code: string, now: int)
    requires Wf(s) && p in s.partners
    ensures var (t, s') := AttachNewPartnerTag(s, p, code, now);
      PartnerTagWritten(s, s', p, t, code) && s'.nextId == s.nextId + 1
  {
  }

  lemma TakeOverTagForPartnerWrites(s: Store, p: Id, t: Id, now: int)
    requires p in s.partners && t in s.tags
    ensures PartnerTagWritten(s, TakeOverTagForPartner(s, p, t, now), p, t, s.tags[t].code)
  {
  }

  /**
   * For an existing tag: an active one is refused, as in use when another partner or a
   * vehicle has it, else as active-but-unassigned; any other is taken over, its vehicle
   * cleared.
   */
  lemma AssignExistingTagToPartner(s: Store, p: Id, code: string, now: int, t: Id)
    requires Wf(s) && TagCodesUnique(s.tags) && p in s.partners
    requires t in s.tags && s.tags[t].code == code
    ensures var res := AssignTagToPartner(s, p, code, now);
      var tag := s.tags[t];
      && (tag.status == Active ==>
            res == (if (tag.partner.Some? && tag.partner != Some(p)) || tag.vehicle.Some?
                    then (Declined(TagInUse), s) else (Declined(TagActiveUnassigned), s)))
      && (tag.status != Active ==> res == (Assigned(t), TakeOverTagForPartner(s, p, t, now)))
  {
    FindTagUnique(s, code, t);
    assert AssignTagToPartner(s, p, code, now) == AssignFoundTagToPartner(s, p, t, now);
  }

  /** An unknown code creates a new tag under the next free id, active and owned by the partner. */
  lemma AssignUnknownCodeToPartner(s: Store, p: Id, code: string, now: int)
    requires Wf(s) && TagCodesUnique(s.tags) && p in s.partners && !CodeTaken(s.tags, code)
    ensures AssignTagToPartner(s, p, code, now) == (Assigned(s.nextId), AttachNewPartnerTag(s, p, code, now).1)
  {
  }

  /**
   * A successful assignment makes the tag active and owned by the partner alone, links the
   * partner to it, and changes no other record; the tag was either not active, or new
   * under the next free id because no tag had the code.
   */
  lemma AssignedPartnerTag(s: Store, p: Id, code: string, now: int)
    requires Wf(s) && TagCodesUnique(s.tags)
    requires AssignTagToPartner(s, p, code, now).0.Assigned?
    ensures var (a, s') := AssignTagToPartner(s, p, code, now);
      && PartnerTagWritten(s, s', p, a.tag, code)
      && (a.tag in s.tags ==> s.tags[a.tag].status != Active)
      && (a.tag !in s.tags ==> a.tag == s.nextId && !CodeTaken(s.tags, code))
  {
    match FindTag(s, code)
    case None =>
      AttachNewPartnerTagWrites(s, p, code, now);
    case Some(t) =>
      AssignExistingTagToPartner(s, p, code, now, t);
      TakeOverTagForPartnerWrites(s, p, t, now);
  }

  lemma AttachNewPartnerTagKeepsValid(s: Store, p: Id, code: string, now: int)
    requires Valid(s) && p in s.partners && !CodeTaken(s.tags, code)
    ensures Valid(AttachNewPartnerTag(s, p, code, now).1)
  {
    var t := s.nextId;
    PutTagAndPartnerKeepsValid(s, t, NewTag(code, Active, Some(p), None, now), p, s.partners[p].(tag := Some(t)));
  }

  lemma TakeOverTagForPartnerKeepsValid(s: Store, p: Id, t: Id, now: int)
    requires Valid(s) && p in s.partners && t in s.tags
    ensures Valid(TakeOverTagForPartner(s, p, t, now))
  {
    VehicleRules.CodeFreeOwn(s.tags, t);
    PutTagAndPartnerKeepsValid(s, t, s.tags[t].(partner := Some(p), vehicle := None, status := Active, writeDate := now),
                               p, s.partners[p].(tag := Some(t)));
  }

  /** Assigning a tag to a partner keeps every constraint, whichever branch it takes. */
  lemma AssignTagToPartnerKeepsValid(s: Store, p: Id, code: string, now: int)
    requires Valid(s)
    ensures Valid(AssignTagToPartner(s, p, code, now).1)
  {
    if p in s.partners {
      match FindTag(s, code)
      case None =>
        AssignUnknownCodeToPartner(s, p, code, now);
        AttachNewPartnerTagKeepsValid(s, p, code, now);
      case Some(t) =>
        AssignExistingTagToPartner(s, p, code, now, t);
        if s.tags[t].status != Active {
          TakeOverTagForPartnerKeepsValid(s, p, t, now);
        }
    }
  }

  /**
   * The recorder resolves a code whose tag was just written for partner `p` to `p` and
   * the partner's first vehicle, or refuses with NO_VEHICLE_REGISTERED when there is none.
   */
  lemma WrittenPartnerTagResolves(a: Store, b: Store, p: Id, t: Id, code: string)
    requires Wf(a) && Wf(b) && TagCodesUnique(b.tags) && PartnerTagWritten(a, b, p, t, code)
    ensures var first := FirstVehicleOf(a, p);
      ResolveLogTarget(b, code) == (if first.Some? then Resolved(t, first.value, p) else Refused(NoVehicleRegistered))
  {
    FindTagUnique(b, code, t);
    FirstVehicleOfStable(a, b, p);
    assert ResolveLogTarget(b, code) == Resolution(Some(t), Some(b.tags[t]), FirstVehicleOf(b, p), None);
  }

  /** Once assigned, the tag is the partner's key at the gate, for the partner's first vehicle. */
  lemma AssignedPartnerTagResolves(s: Store, p: Id, code: string, now: int)
    requires Valid(s)
    requires AssignTagToPartner(s, p, code, now).0.Assigned?
    ensures var (a, s') := AssignTagToPartner(s, p, code, now);
      var first := FirstVehicleOf(s, p);
      && Wf(s')
      && ResolveLogTarget(s', code) == (if first.Some? then Resolved(a.tag, first.value, p) else Refused(NoVehicleRegistered))
  {
    var (a, s') := AssignTagToPartner(s, p, code, now);
    AssignTagToPartnerKeepsValid(s, p, code, now);
    AssignedPartnerTag(s, p, code, now);
    WrittenPartnerTagResolves(s, s', p, a.tag, code);
  }

  // -------------------------------------------------------- write-order bug

  /**
   * The two orders differ on exactly one case: a non-active tag still on a vehicle, which
   * the written order refuses with the one-owner error and the corrected order takes over.
   */
  lemma AsWrittenPartnerAssignmentDiffers(s: Store, p: Id, code: string, now: int)
    requires Wf(s) && TagCodesUnique(s.tags)
    ensures var fixed := AssignTagToPartner(s, p, code, now);
      var written := AssignTagToPartnerAsWritten(s, p, code, now);
      var found := FindTag(s, code);
      if p in s.partners && found.Some? && s.tags[found.value].status != Active && s.tags[found.value].vehicle.Some?
      then written == (Failed(TagHasTwoOwners), s) && fixed.0 == Assigned(found.value)
      else written == fixed
  {
  }

  /** A store whose tag "T1" is pending on vehicle 1 while partner 2 asks for it. */
  function PendingVehicleTagStore(): Store {
    var tag := NewTag("T1", Pending, None, Some(1), 0);
    var vehicle := Vehicle("C", "P1", Car, None, None, Some(Out));
    var partner := Partner("A", None, 0, None);
    Store(map[0 := tag], map[1 := vehicle], map[2 := partner], [], map[], [], 3)
  }

  /** The store's references resolve. */
  lemma PendingStoreWf()
    ensures Wf(PendingVehicleTagStore())
  {
  }

  /** Each table of the store holds one row, so every unique constraint holds. */
  lemma PendingStoreConstraints()
    ensures var s := PendingVehicleTagStore();
      && TagCodesUnique(s.tags) && TagOwnersExclusive(s.tags) && PlatesUnique(s.vehicles)
      && VehicleTagLinksUnique(s.vehicles) && CitizenIdsValid(s.partners) && ReadersUnique(s.readers)
  {
  }

  /** On that store the written order refuses the pending tag, the corrected order hands it to the partner. */
  lemma AsWrittenPartnerCounterexample()
    ensures var s := PendingVehicleTagStore();
      && Valid(s)
      && AssignTagToPartnerAsWritten(s, 2, "T1", 10) == (Failed(TagHasTwoOwners), s)
      && AssignTagToPartner(s, 2, "T1", 10).0 == Assigned(0)
  {
    var s := PendingVehicleTagStore();
    PendingStoreWf();
    PendingStoreConstraints();
    FindTagUnique(s, "T1", 0);
    AsWrittenPartnerAssignmentDiffers(s, 2, "T1", 10);
  }

  // ------------------------------------------------------------- revocation

  /** Every partner's tag link names a stored tag: the part of Wf revocation relies on. */
  predicate PartnerLinksResolve(s: Store) {
    forall p :: p in s.partners && s.partners[p].tag.Some? ==> s.partners[p].tag.value in s.tags
  }

  /** action_revoke_tag for one partner: its tag, if any, is revoked and the link cleared. */
  function RevokePartnerTag(s: Store, p: Id, now: int): (r: Store)
    requires PartnerLinksResolve(s) && p in s.partners
    ensures PartnerLinksResolve(r)
    ensures r.partners == s.partners[p := s.partners[p].(tag := None)]
    ensures s.partners[p].tag.None? ==> r == s
    ensures s.partners[p].tag.Some? ==>
      r.tags == s.tags[s.partners[p].tag.value := Revoked(s.tags[s.partners[p].tag.value], now)]
    ensures r.vehicles == s.vehicles && r.logs == s.logs && r.readers == s.readers && r.queue == s.queue
    ensures r.nextId == s.nextId
  {
    match s.partners[p].tag
    case None => assert s.partners[p := s.partners[p].(tag := None)] == s.partners; s
    case Some(t) =>
      s.(tags := s.tags[t := Revoked(s.tags[t], now)], partners := s.partners[p := s.partners[p].(tag := None)])
  }

  /** Some partner of the recordset links the tag `t`. */
  predicate PartnerLinkedFrom(s: Store, ps: seq<Id>, t: Id)
    requires forall i :: 0 <= i < |ps| ==> ps[i] in s.partners
  {
    exists i :: 0 <= i < |ps| && s.partners[ps[i]].tag == Some(t)
  }

  /** Revoking one partner's tag leaves the other links of the recordset as they were. */
  lemma PartnerLinkedFromStep(s: Store, ps: seq<Id>, now: int, t: Id)
    requires PartnerLinksResolve(s) && |ps| > 0 && forall i :: 0 <= i < |ps| ==> ps[i] in s.partners
    ensures var s1 := RevokePartnerTag(s, ps[0], now);
      && (PartnerLinkedFrom(s1, ps[1..], t) ==> PartnerLinkedFrom(s, ps, t))
      && (PartnerLinkedFrom(s, ps, t) && !PartnerLinkedFrom(s1, ps[1..], t) ==> s.partners[ps[0]].tag == Some(t))
  {
    var s1 := RevokePartnerTag(s, ps[0], now);
    var rest := ps[1..];
    if PartnerLinkedFrom(s1, rest, t) {
      var i :| 0 <= i < |rest| && s1.partners[rest[i]].tag == Some(t);
      assert rest[i] == ps[i + 1];
    }
    if PartnerLinkedFrom(s, ps, t) && !PartnerLinkedFrom(s1, rest, t) {
      var i :| 0 <= i < |ps| && s.partners[ps[i]].tag == Some(t);
      if i > 0 && ps[i] != ps[0] {
        assert false;
      }
    }
  }

  /**
   * action_revoke_tag on a recordset of partners, one after another. What it does to links
   * and tags is stated by RevokePartnerTagsClearsLinks and RevokePartnerTagsRevokes.
   */
  function RevokePartnerTags(s: Store, ps: seq<Id>, now: int): (r: Store)
    requires PartnerLinksResolve(s) && forall i :: 0 <= i < |ps| ==> ps[i] in s.partners
    ensures PartnerLinksResolve(r)
    ensures r.partners.Keys == s.partners.Keys && r.tags.Keys == s.tags.Keys
    ensures r.vehicles == s.vehicles && r.logs == s.logs && r.readers == s.readers && r.queue == s.queue
    ensures r.nextId == s.nextId
    decreases |ps|
  {
    if |ps| == 0 then s
    else
      var rest := ps[1..];
      assert forall i :: 0 <= i < |rest| ==> rest[i] == ps[i + 1];
      RevokePartnerTags(RevokePartnerTag(s, ps[0], now), rest, now)
  }

  /** Every partner of the recordset loses its tag link; every other partner is unchanged. */
  lemma {:induction false} RevokePartnerTagsClearsLinks(s: Store, ps: seq<Id>, now: int, p: Id)
    requires PartnerLinksResolve(s) && forall i :: 0 <= i < |ps| ==> ps[i] in s.partners
    requires p in s.partners
    ensures RevokePartnerTags(s, ps, now).partners[p] == (if p in ps then s.partners[p].(tag := None) else s.partners[p])
    decreases |ps|
  {
    if |ps| > 0 {
      var rest := ps[1..];
      assert forall i :: 0 <= i < |rest| ==> rest[i] == ps[i + 1];
      assert ps == [ps[0]] + rest;
      RevokePartnerTagsClearsLinks(RevokePartnerTag(s, ps[0], now), rest, now, p);
    }
  }

  /**
   * Every tag linked from a partner of the recordset is revoked: both owners cleared,
   * status inactive. Every other tag is unchanged.
   */
  lemma {:induction false} RevokePartnerTagsRevokes(s: Store, ps: seq<Id>, now: int, t: Id)
    requires PartnerLinksResolve(s) && forall i :: 0 <= i < |ps| ==> ps[i] in s.partners
    requires t in s.tags
    ensures RevokePartnerTags(s, ps, now).tags[t] == (if PartnerLinkedFrom(s, ps, t) then Revoked(s.tags[t], now) else s.tags[t])
    decreases |ps|
  {
    if |ps| > 0 {
      var s1 := RevokePartnerTag(s, ps[0], now);
      var rest := ps[1..];
      assert forall i :: 0 <= i < |rest| ==> rest[i] == ps[i + 1];
      RevokePartnerTagsRevokes(s1, rest, now, t);
      PartnerLinkedFromStep(s, ps, now, t);
      if PartnerLinkedFrom(s1, rest, t) {
        var i :| 0 <= i < |rest| && s1.partners[rest[i]].tag == Some(t);
        if s.partners[ps[0]].tag == Some(t) {
          VehicleRules.RevokedIdempotent(s.tags[t], now);
        } else {
          assert s1.tags[t] == s.tags[t];
        }
      }
    }
  }

  /** Revoking one partner's tag keeps every constraint. */
  lemma RevokePartnerTagKeepsValid(s: Store, p: Id, now: int)
    requires Valid(s) && p in s.partners
    ensures Valid(RevokePartnerTag(s, p, now))
  {
    if s.partners[p].tag.Some? {
      var t := s.partners[p].tag.value;
      VehicleRules.CodeFreeOwn(s.tags, t);
      PutTagAndPartnerKeepsValid(s, t, Revoked(s.tags[t], now), p, s.partners[p].(tag := None));
    }
  }

  /** Revoking a set of partners' tags keeps every constraint. */
  lemma {:induction false} RevokePartnerTagsKeepsValid(s: Store, ps: seq<Id>, now: int)
    requires Valid(s) && forall i :: 0 <= i < |ps| ==> ps[i] in s.partners
    ensures Valid(RevokePartnerTags(s, ps, now))
    decreases |ps|
  {
    if |ps| > 0 {
      var s1 := RevokePartnerTag(s, ps[0], now);
      RevokePartnerTagKeepsValid(s, ps[0], now);
      var rest := ps[1..];
      assert forall i :: 0 <= i < |rest| ==> rest[i] == ps[i + 1];
      RevokePartnerTagsKeepsValid(s1, rest, now);
    }
  }
}
