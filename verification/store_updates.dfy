/**
 * The single-record writes the record rules are built from, each with the conditions
 * under which it keeps every database constraint. Each proof is split into a part about
 * references (Wf) and a part about the one table whose unique constraint it touches.
 */
module StoreUpdates {
  import opened Wrappers
  import opened Records

  /** No tag other than `t` carries `code`. */
  predicate CodeFreeExcept(tags: map<Id, Tag>, code: string, t: Id) {
    forall u :: u in tags && u != t ==> tags[u].code != code
  }

  /** The owners a tag names exist. */
  predicate TagRefsIn(tag: Tag, s: Store) {
    (tag.partner.Some? ==> tag.partner.value in s.partners) && (tag.vehicle.Some? ==> tag.vehicle.value in s.vehicles)
  }

  // ---------------------------------------------------------------- frames

  /** Every table of `b` still has the records of the same table of `a`. */
  predicate Covers(a: Store, b: Store) {
    a.tags.Keys <= b.tags.Keys && a.vehicles.Keys <= b.vehicles.Keys && a.partners.Keys <= b.partners.Keys
  }

  /** The ids of `b` stay below its counter when those of `a` did and every record `b` adds is in `added`. */
  lemma IdsAfter(a: Store, b: Store, added: set<Id>)
    requires IdsBelow(a) && a.nextId <= b.nextId && forall k :: k in added ==> k < b.nextId
    requires b.tags.Keys <= a.tags.Keys + added && b.vehicles.Keys <= a.vehicles.Keys + added
    requires b.partners.Keys <= a.partners.Keys + added && b.readers.Keys <= a.readers.Keys + added
    requires |a.logs| <= |b.logs| && b.logs[..|a.logs|] == a.logs
    requires forall i :: |a.logs| <= i < |b.logs| ==> b.logs[i].id < b.nextId
    ensures IdsBelow(b)
  {
    forall i | 0 <= i < |a.logs| ensures b.logs[i].id < b.nextId {
      assert b.logs[i] == b.logs[..|a.logs|][i];
    }
  }

  lemma TagRefsKept(a: Store, b: Store)
    requires TagRefsOk(a) && Covers(a, b) && b.tags == a.tags
    ensures TagRefsOk(b)
  {
  }

  lemma TagRefsAfterPut(a: Store, b: Store, t: Id, nt: Tag)
    requires TagRefsOk(a) && Covers(a, b) && b.tags == a.tags[t := nt] && TagRefsIn(nt, b)
    ensures TagRefsOk(b)
  {
    forall u | u in b.tags && u != t ensures TagRefsIn(b.tags[u], b) {
      assert b.tags[u] == a.tags[u];
    }
  }

  lemma VehicleRefsKept(a: Store, b: Store)
    requires VehicleRefsOk(a) && Covers(a, b) && b.vehicles == a.vehicles
    ensures VehicleRefsOk(b)
  {
  }

  lemma VehicleRefsAfterPut(a: Store, b: Store, v: Id, nv: Vehicle)
    requires VehicleRefsOk(a) && Covers(a, b) && b.vehicles == a.vehicles[v := nv]
    requires nv.owner.Some? ==> nv.owner.value in b.partners
    requires nv.tag.Some? ==> nv.tag.value in b.tags
    ensures VehicleRefsOk(b)
  {
    forall w | w in b.vehicles && w != v ensures b.vehicles[w] == a.vehicles[w] {
    }
  }

  lemma PartnerRefsKept(a: Store, b: Store)
    requires PartnerRefsOk(a) && Covers(a, b) && b.partners == a.partners
    ensures PartnerRefsOk(b)
  {
  }

  lemma PartnerRefsAfterPut(a: Store, b: Store, p: Id, np: Partner)
    requires PartnerRefsOk(a) && Covers(a, b) && b.partners == a.partners[p := np]
    requires np.tag.Some? ==> np.tag.value in b.tags
    ensures PartnerRefsOk(b)
  {
    forall q | q in b.partners && q != p ensures b.partners[q] == a.partners[q] {
    }
  }

  lemma LogsKept(a: Store, b: Store)
    requires LogsOk(a) && Covers(a, b) && b.logs == a.logs
    ensures LogsOk(b)
  {
    forall i | 0 <= i < |b.logs| ensures LogRefsIn(b.logs[i], b) {
      assert LogRefsIn(a.logs[i], a);
    }
  }

  lemma LogsAfterAppend(a: Store, b: Store, l: VehicleLog)
    requires LogsOk(a) && Covers(a, b) && b.logs == a.logs + [l] && LogRefsIn(l, b)
    ensures LogsOk(b)
  {
    forall i | 0 <= i < |b.logs| ensures LogRefsIn(b.logs[i], b) {
      if i < |a.logs| {
        assert b.logs[i] == a.logs[i];
        assert LogRefsIn(a.logs[i], a);
      }
    }
  }

  // ------------------------------------------------------------------ logs

  /** Appending a log with the next id whose records exist, while setting a vehicle's direction, keeps references valid. */
  lemma AppendLogWf(s: Store, l: VehicleLog, v: Id, nv: Vehicle)
    requires Wf(s) && l.id == s.nextId && LogRefsIn(l, s) && v in s.vehicles
    requires nv.owner == s.vehicles[v].owner && nv.tag == s.vehicles[v].tag
    ensures Wf(s.(logs := s.logs + [l], vehicles := s.vehicles[v := nv], nextId := s.nextId + 1))
  {
    var s' := s.(logs := s.logs + [l], vehicles := s.vehicles[v := nv], nextId := s.nextId + 1);
    assert Covers(s, s');
    assert s'.logs[..|s.logs|] == s.logs;
    IdsAfter(s, s', {});
    TagRefsKept(s, s');
    VehicleRefsAfterPut(s, s', v, nv);
    PartnerRefsKept(s, s');
    LogsAfterAppend(s, s', l);
  }

  // ------------------------------------------------------------------ tags

  /** Writing tag `t` (existing, or the next free id) with owners that exist keeps references valid. */
  lemma PutTagWf(s: Store, t: Id, nt: Tag)
    requires Wf(s) && (t in s.tags || t == s.nextId) && TagRefsIn(nt, s)
    ensures var n := if t in s.tags then s.nextId else s.nextId + 1;
      Wf(s.(tags := s.tags[t := nt], nextId := n))
  {
    var n := if t in s.tags then s.nextId else s.nextId + 1;
    var s' := s.(tags := s.tags[t := nt], nextId := n);
    assert Covers(s, s');
    IdsAfter(s, s', {t});
    TagRefsAfterPut(s, s', t, nt);
    VehicleRefsKept(s, s');
    PartnerRefsKept(s, s');
    LogsKept(s, s');
  }

  lemma PutTagUnique(tags: map<Id, Tag>, t: Id, nt: Tag)
    requires TagCodesUnique(tags) && TagOwnersExclusive(tags)
    requires CodeFreeExcept(tags, nt.code, t) && OwnerExclusive(nt)
    ensures TagCodesUnique(tags[t := nt]) && TagOwnersExclusive(tags[t := nt])
  {
  }

  /** Writing one tag keeps every constraint when no other tag has its code, it has at most one owner, and its owners exist. */
  lemma PutTagKeepsValid(s: Store, t: Id, nt: Tag)
    requires Valid(s) && (t in s.tags || t == s.nextId) && TagRefsIn(nt, s)
    requires CodeFreeExcept(s.tags, nt.code, t) && OwnerExclusive(nt)
    ensures var n := if t in s.tags then s.nextId else s.nextId + 1;
      Valid(s.(tags := s.tags[t := nt], nextId := n))
  {
    PutTagWf(s, t, nt);
    PutTagUnique(s.tags, t, nt);
  }

  // -------------------------------------------------------------- vehicles

  /** Some vehicle other than `v` already links the tag `t`. */
  predicate LinkedElsewhere(vehicles: map<Id, Vehicle>, t: Id, v: Id) {
    exists w :: w in vehicles && w != v && vehicles[w].tag == Some(t)
  }

  /** Writing vehicle `v` (existing, or the next free id) whose owner and tag exist keeps references valid. */
  lemma PutVehicleWf(s: Store, v: Id, nv: Vehicle)
    requires Wf(s) && (v in s.vehicles || v == s.nextId)
    requires nv.owner.Some? ==> nv.owner.value in s.partners
    requires nv.tag.Some? ==> nv.tag.value in s.tags
    ensures var n := if v in s.vehicles then s.nextId else s.nextId + 1;
      Wf(s.(vehicles := s.vehicles[v := nv], nextId := n))
  {
    var n := if v in s.vehicles then s.nextId else s.nextId + 1;
    var s' := s.(vehicles := s.vehicles[v := nv], nextId := n);
    assert Covers(s, s');
    IdsAfter(s, s', {v});
    TagRefsKept(s, s');
    VehicleRefsAfterPut(s, s', v, nv);
    PartnerRefsKept(s, s');
    LogsKept(s, s');
  }

  lemma PutVehicleUnique(vs: map<Id, Vehicle>, v: Id, nv: Vehicle)
    requires PlatesUnique(vs) && VehicleTagLinksUnique(vs)
    requires forall w :: w in vs && w != v ==> vs[w].plate != nv.plate
    requires nv.tag.Some? ==> !LinkedElsewhere(vs, nv.tag.value, v)
    ensures PlatesUnique(vs[v := nv]) && VehicleTagLinksUnique(vs[v := nv])
  {
    var vs' := vs[v := nv];
    forall a, b | a in vs' && b in vs' && a != b && vs'[a].tag.Some?
      ensures vs'[a].tag != vs'[b].tag
    {
      if a == v {
        assert vs'[b] == vs[b];
      } else if b == v {
        assert vs'[a] == vs[a];
      }
    }
  }

  /**
   * Writing one vehicle keeps every constraint when no other vehicle has its plate or
   * links its tag, and its owner and tag exist.
   */
  lemma PutVehicleKeepsValid(s: Store, v: Id, nv: Vehicle)
    requires Valid(s) && (v in s.vehicles || v == s.nextId)
    requires nv.owner.Some? ==> nv.owner.value in s.partners
    requires nv.tag.Some? ==> nv.tag.value in s.tags
    requires forall w :: w in s.vehicles && w != v ==> s.vehicles[w].plate != nv.plate
    requires nv.tag.Some? ==> !LinkedElsewhere(s.vehicles, nv.tag.value, v)
    ensures var n := if v in s.vehicles then s.nextId else s.nextId + 1;
      Valid(s.(vehicles := s.vehicles[v := nv], nextId := n))
  {
    PutVehicleWf(s, v, nv);
    PutVehicleUnique(s.vehicles, v, nv);
  }

  // -------------------------------------------------------------- partners

  /** Writing an existing partner whose tag exists keeps references valid. */
  lemma PutPartnerWf(s: Store, p: Id, np: Partner)
    requires Wf(s) && p in s.partners
    requires np.tag.Some? ==> np.tag.value in s.tags
    ensures Wf(s.(partners := s.partners[p := np]))
  {
    var s' := s.(partners := s.partners[p := np]);
    assert Covers(s, s');
    IdsAfter(s, s', {});
    TagRefsKept(s, s');
    VehicleRefsKept(s, s');
    PartnerRefsAfterPut(s, s', p, np);
    LogsKept(s, s');
  }

  /** No partner other than `p` has this citizen id. */
  predicate CitizenIdFreeExcept(partners: map<Id, Partner>, c: Option<string>, p: Id) {
    c.Some? ==> forall q :: q in partners && q != p ==> partners[q].citizenId != c
  }

  lemma PutPartnerUnique(ps: map<Id, Partner>, p: Id, np: Partner)
    requires CitizenIdsValid(ps) && CitizenIdAccepted(np.citizenId) && CitizenIdFreeExcept(ps, np.citizenId, p)
    ensures CitizenIdsValid(ps[p := np])
  {
    var ps' := ps[p := np];
    forall a, b | a in ps' && b in ps' && a != b && ps'[a].citizenId.Some?
      ensures ps'[a].citizenId != ps'[b].citizenId
    {
      if a == p {
        assert ps'[b] == ps[b];
      } else if b == p {
        assert ps'[a] == ps[a];
      }
    }
  }

  /** Writing one partner keeps every constraint when its citizen id is accepted and unused, and its tag exists. */
  lemma PutPartnerKeepsValid(s: Store, p: Id, np: Partner)
    requires Valid(s) && p in s.partners
    requires np.tag.Some? ==> np.tag.value in s.tags
    requires CitizenIdAccepted(np.citizenId) && CitizenIdFreeExcept(s.partners, np.citizenId, p)
    ensures Valid(s.(partners := s.partners[p := np]))
  {
    PutPartnerWf(s, p, np);
    PutPartnerUnique(s.partners, p, np);
  }

  // ------------------------------------------------------ tag with its owner

  /**
   * Writing tag `t` (existing, or the next free id) together with an existing vehicle
   * `v`, when the tag's owners exist and the vehicle's owner and tag exist afterwards,
   * keeps references valid.
   */
  lemma PutTagAndVehicleWf(s: Store, t: Id, nt: Tag, v: Id, nv: Vehicle)
    requires Wf(s) && (t in s.tags || t == s.nextId) && v in s.vehicles && TagRefsIn(nt, s)
    requires nv.owner.Some? ==> nv.owner.value in s.partners
    requires nv.tag.Some? ==> nv.tag.value in s.tags || nv.tag.value == t
    ensures var n := if t in s.tags then s.nextId else s.nextId + 1;
      Wf(s.(tags := s.tags[t := nt], vehicles := s.vehicles[v := nv], nextId := n))
  {
    var n := if t in s.tags then s.nextId else s.nextId + 1;
    var s' := s.(tags := s.tags[t := nt], vehicles := s.vehicles[v := nv], nextId := n);
    assert Covers(s, s');
    IdsAfter(s, s', {t});
    TagRefsAfterPut(s, s', t, nt);
    VehicleRefsAfterPut(s, s', v, nv);
    PartnerRefsKept(s, s');
    LogsKept(s, s');
  }

  /** The same write, with the conditions under which it keeps every constraint. */
  lemma PutTagAndVehicleKeepsValid(s: Store, t: Id, nt: Tag, v: Id, nv: Vehicle)
    requires Valid(s) && (t in s.tags || t == s.nextId) && v in s.vehicles && TagRefsIn(nt, s)
    requires CodeFreeExcept(s.tags, nt.code, t) && OwnerExclusive(nt)
    requires nv.owner.Some? ==> nv.owner.value in s.partners
    requires nv.tag.Some? ==> nv.tag.value in s.tags || nv.tag.value == t
    requires nv.plate == s.vehicles[v].plate
    requires nv.tag.Some? ==> !LinkedElsewhere(s.vehicles, nv.tag.value, v)
    ensures var n := if t in s.tags then s.nextId else s.nextId + 1;
      Valid(s.(tags := s.tags[t := nt], vehicles := s.vehicles[v := nv], nextId := n))
  {
    PutTagAndVehicleWf(s, t, nt, v, nv);
    PutTagUnique(s.tags, t, nt);
    assert PlatesUnique(s.vehicles);
    PutVehicleUnique(s.vehicles, v, nv);
  }

  /** Writing tag `t` together with an existing partner `p` keeps references valid. */
  lemma PutTagAndPartnerWf(s: Store, t: Id, nt: Tag, p: Id, np: Partner)
    requires Wf(s) && (t in s.tags || t == s.nextId) && p in s.partners && TagRefsIn(nt, s)
    requires np.tag.Some? ==> np.tag.value in s.tags || np.tag.value == t
    ensures var n := if t in s.tags then s.nextId else s.nextId + 1;
      Wf(s.(tags := s.tags[t := nt], partners := s.partners[p := np], nextId := n))
  {
    var n := if t in s.tags then s.nextId else s.nextId + 1;
    var s' := s.(tags := s.tags[t := nt], partners := s.partners[p := np], nextId := n);
    assert Covers(s, s');
    IdsAfter(s, s', {t});
    TagRefsAfterPut(s, s', t, nt);
    VehicleRefsKept(s, s');
    PartnerRefsAfterPut(s, s', p, np);
    LogsKept(s, s');
  }

  /** The same write, with the conditions under which it keeps every constraint. */
  lemma PutTagAndPartnerKeepsValid(s: Store, t: Id, nt: Tag, p: Id, np: Partner)
    requires Valid(s) && (t in s.tags || t == s.nextId) && p in s.partners && TagRefsIn(nt, s)
    requires CodeFreeExcept(s.tags, nt.code, t) && OwnerExclusive(nt)
    requires np.tag.Some? ==> np.tag.value in s.tags || np.tag.value == t
    requires np.citizenId == s.partners[p].citizenId
    ensures var n := if t in s.tags then s.nextId else s.nextId + 1;
      Valid(s.(tags := s.tags[t := nt], partners := s.partners[p := np], nextId := n))
  {
    PutTagAndPartnerWf(s, t, nt, p, np);
    PutTagUnique(s.tags, t, nt);
    assert CitizenIdsValid(s.partners);
    PutPartnerUnique(s.partners, p, np);
  }
}
