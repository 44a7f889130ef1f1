/**
 * The batch admission endpoints. A check-in logs an entry for every named tag
 * that belongs to a vehicle. A check-out admits a batch only when every named
 * tag exists, is active and belongs to exactly one kind of owner, at least one
 * person tag and one vehicle tag are present, every vehicle belongs to one of
 * the persons, and every vehicle is inside; it then logs an exit per vehicle tag.
 */
module Admission {
  import opened Wrappers
  import opened JsonValues
  import opened Records
  import opened Lookup
  import opened VehicleLogs
  import opened Api

  // ------------------------------------------------------------- parameters

  /** The request's tag_ids: absent or null, a value that is not a list (truthy or not), or a list of codes. */
  datatype TagIdsParam = TagIdsAbsent | TagIdsOther(truthy: bool) | TagIdsList(ids: seq<string>)

  const CheckInDefaultNotes := "Check in t\U{1EF1} \U{0111}\U{1ED9}ng t\U{1EEB} API"   // "Check in tự động từ API"
  const CheckOutDefaultNotes := "Check out t\U{1EEB} API"                               // "Check out từ API"

  /** `not tag_ids` */
  predicate IdsFalsy(p: TagIdsParam) {
    p.TagIdsAbsent? || (p.TagIdsOther? && !p.truthy) || (p.TagIdsList? && |p.ids| == 0)
  }

  /** `notes and not isinstance(notes, str)`; an absent key takes the default string. */
  predicate NotesRejected(notes: Option<Json>) {
    notes.Some? && Truthy(notes.value) && !notes.value.JStr?
  }

  function NotesOrDefault(notes: Option<Json>, default: string): Json {
    notes.GetOr(JStr(default))
  }

  /** The list with empty codes dropped. */
  function Codes(ids: seq<string>): (r: seq<string>)
    ensures forall c :: c in r <==> c in ids && c != ""
  {
    Filter(ids, (c: string) => c != "")
  }

  // ------------------------------------------------------------ tag classes

  predicate IsPersonTag(t: Tag) { t.partner.Some? && t.vehicle.None? }
  predicate IsVehicleTag(t: Tag) { t.vehicle.Some? && t.partner.None? }
  predicate IsUnassignedTag(t: Tag) { t.partner.None? && t.vehicle.None? }
  predicate IsMixedTag(t: Tag) { t.partner.Some? && t.vehicle.Some? }

  /** Every tag is in exactly one of the four classes. */
  lemma ClassesPartition(t: Tag)
    ensures IsPersonTag(t) || IsVehicleTag(t) || IsUnassignedTag(t) || IsMixedTag(t)
    ensures !(IsPersonTag(t) && IsVehicleTag(t)) && !(IsPersonTag(t) && IsUnassignedTag(t))
    ensures !(IsPersonTag(t) && IsMixedTag(t)) && !(IsVehicleTag(t) && IsUnassignedTag(t))
    ensures !(IsVehicleTag(t) && IsMixedTag(t)) && !(IsUnassignedTag(t) && IsMixedTag(t))
  {
  }

  /** Number of tags among `ids` in each class. */
  function CountWhere(tags: map<Id, Tag>, ids: seq<Id>, p: Tag -> bool): nat
    requires forall i :: 0 <= i < |ids| ==> ids[i] in tags
  {
    if |ids| == 0 then 0
    else (if p(tags[ids[0]]) then 1 else 0) + CountWhere(tags, ids[1..], p)
  }

  /** The four class counts of any list of tags add up to its length. */
  lemma {:induction false} ClassCountsSum(tags: map<Id, Tag>, ids: seq<Id>)
    requires forall i :: 0 <= i < |ids| ==> ids[i] in tags
    ensures CountWhere(tags, ids, IsPersonTag) + CountWhere(tags, ids, IsVehicleTag)
          + CountWhere(tags, ids, IsUnassignedTag) + CountWhere(tags, ids, IsMixedTag) == |ids|
    decreases |ids|
  {
    if |ids| > 0 {
      ClassesPartition(tags[ids[0]]);
      ClassCountsSum(tags, ids[1..]);
    }
  }

  // ---------------------------------------------------------- batch lookups

  /** A stored tag whose non-empty code the request names. */
  ghost predicate InBatch(s: Store, ids: seq<string>, t: Id) {
    t in s.tags && s.tags[t].code in ids && s.tags[t].code != ""
  }

  /** The named tags in id order: search([('tag_id', 'in', codes)]). */
  function BatchTags(s: Store, ids: seq<string>): (r: seq<Id>)
    requires Wf(s)
    ensures forall t :: t in r <==> InBatch(s, ids, t)
    ensures forall t :: t in r ==> t in s.tags
    ensures Ascending(r)
  {
    var codes := Codes(ids);
    var r := KeysWhere(s.tags, (t: Tag) => t.code in codes, 0, s.nextId);
    assert forall t :: t in r ==> t in s.tags && s.tags[t].code in codes by {
      forall t | t in r ensures t in s.tags && s.tags[t].code in codes {
        var i :| 0 <= i < |r| && r[i] == t;
      }
    }
    r
  }

  /** The tags of `found` whose record satisfies `p`, in order: recordset.filtered. */
  function TagsWhere(s: Store, found: seq<Id>, p: Tag -> bool): (r: seq<Id>)
    requires forall t :: t in found ==> t in s.tags
    ensures forall t :: t in r <==> t in found && p(s.tags[t])
    ensures |r| == 0 <==> forall t :: t in found ==> !p(s.tags[t])
    ensures Ascending(found) ==> Ascending(r)
  {
    var q := (t: Id) => t in s.tags && p(s.tags[t]);
    var r := Filter(found, q);
    assert forall t :: t in r ==> t in found && q(t) by {
      forall t | t in r ensures t in found && q(t) {
        var i :| 0 <= i < |r| && r[i] == t;
      }
    }
    assert forall t :: t in found && q(t) ==> t in r by {
      forall t | t in found && q(t) ensures t in r {
        var i :| 0 <= i < |found| && found[i] == t;
      }
    }
    assert |r| > 0 ==> r[0] in r;
    if Ascending(found) then FilterKeepsOrder(found, q); r else r
  }

  /** The codes the request names that no stored tag carries: set(tag_ids) - set(found_tags). */
  function MissingCodes(s: Store, ids: seq<string>): (m: set<string>)
    requires Wf(s)
    ensures forall c :: c in m <==> c in ids && c != "" && forall t :: t in s.tags ==> s.tags[t].code != c
  {
    var codes := Codes(ids);
    set c | c in codes && !KnownCode(s, c)
  }

  // ----------------------------------------------------------- per-tag logs

  /** One row of the per-tag results. */
  datatype TagResult = TagResult(tag: Id, code: string, plate: string, owner: Json, outcome: LogResult)

  function SuccessCount(items: seq<TagResult>): nat {
    if |items| == 0 then 0
    else (if items[0].outcome.Logged? then 1 else 0) + SuccessCount(items[1..])
  }

  /** `any(r['success'] for r in results)` */
  predicate AnySuccess(items: seq<TagResult>) {
    exists i :: 0 <= i < |items| && items[i].outcome.Logged?
  }

  /** The overall flag is set exactly when at least one log was written. */
  lemma {:induction false} AnySuccessCounts(items: seq<TagResult>)
    ensures AnySuccess(items) <==> SuccessCount(items) > 0
    decreases |items|
  {
    if |items| > 0 {
      AnySuccessCounts(items[1..]);
      if items[0].outcome.Logged? {
        assert AnySuccess(items);
      } else if AnySuccess(items) {
        var i :| 0 <= i < |items| && items[i].outcome.Logged?;
        assert items[1..][i - 1] == items[i];
      }
    }
  }

  /** vehicle_owner of a check-in row: the owner's name, or false when the vehicle has none. */
  function OwnerName(s: Store, v: Id): Json
    requires Wf(s) && v in s.vehicles
  {
    match s.vehicles[v].owner
    case Some(p) => JStr(s.partners[p].name)
    case None => JBool(false)
  }

  /** A tag the batch may log: a stored tag linked to a vehicle. */
  predicate Loggable(s: Store, t: Id) {
    t in s.tags && s.tags[t].vehicle.Some?
  }

  /**
   * Row `row` reports tag `t` as a lone create_log_entry on `s` would: its code
   * and plate, the same success, and on failure the same error; rows of a
   * check-out carry no owner.
   */
  ghost predicate RowFor(s: Store, t: Id, row: TagResult, withOwner: bool)
    requires Wf(s) && Loggable(s, t)
  {
    && row.tag == t
    && row.code == s.tags[t].code
    && row.plate == s.vehicles[s.tags[t].vehicle.value].plate
    && (row.outcome.Logged? <==> ResolveLogTarget(s, row.code).Resolved?)
    && (row.outcome.LogRejected? ==> row.outcome.error == ResolveLogTarget(s, row.code).error)
    && (!withOwner ==> row.owner == JNull)
  }

  /** Whether a row reports a tag correctly does not depend on the logs or last directions. */
  lemma RowForStable(a: Store, b: Store, t: Id, row: TagResult, withOwner: bool)
    requires Wf(a) && Wf(b) && SameRegistry(a, b) && Loggable(a, t)
    ensures RowFor(a, t, row, withOwner) <==> RowFor(b, t, row, withOwner)
  {
    ResolveStable(a, b, row.code);
  }

  /** Calls create_log_entry for each tag in order, threading the store. */
  function LogEach(s: Store, tags: seq<Id>, d: Direction, photo: Option<string>, notes: Json, now: int, withOwner: bool)
    : (res: (seq<TagResult>, Store))
    requires Wf(s)
    requires forall t :: t in tags ==> t in s.tags && s.tags[t].vehicle.Some?
    ensures |res.0| == |tags|
    decreases |tags|
  {
    if |tags| == 0 then ([], s)
    else
      var tag := s.tags[tags[0]];
      var v := tag.vehicle.value;
      var (outcome, s1) := CreateLogEntry(s, tag.code, d, photo, notes, now);
      var row := TagResult(tags[0], tag.code, s.vehicles[v].plate, if withOwner then OwnerName(s, v) else JNull, outcome);
      assert forall t :: t in tags[1..] ==> t in tags;
      var (rest, s2) := LogEach(s1, tags[1..], d, photo, notes, now, withOwner);
      ([row] + rest, s2)
  }

  /** A batch keeps references valid and changes no registry data, readers or sync queue. */
  lemma {:induction false} LogEachFrame(s: Store, tags: seq<Id>, d: Direction, photo: Option<string>, notes: Json, now: int, withOwner: bool)
    requires Wf(s)
    requires forall t :: t in tags ==> t in s.tags && s.tags[t].vehicle.Some?
    ensures var s' := LogEach(s, tags, d, photo, notes, now, withOwner).1;
      && Wf(s') && SameRegistry(s, s') && s'.readers == s.readers && s'.queue == s.queue
    decreases |tags|
  {
    if |tags| > 0 {
      assert tags[0] in tags;
      assert forall t :: t in tags[1..] ==> t in tags;
      var s1 := CreateLogEntry(s, s.tags[tags[0]].code, d, photo, notes, now).1;
      LogEachFrame(s1, tags[1..], d, photo, notes, now, withOwner);
      SameRegistryTrans(s, s1, LogEach(s1, tags[1..], d, photo, notes, now, withOwner).1);
    }
  }

  /** A batch only appends logs: one per successful row. */
  lemma {:induction false} LogEachAppends(s: Store, tags: seq<Id>, d: Direction, photo: Option<string>, notes: Json, now: int, withOwner: bool)
    requires Wf(s)
    requires forall t :: t in tags ==> t in s.tags && s.tags[t].vehicle.Some?
    ensures var (items, s') := LogEach(s, tags, d, photo, notes, now, withOwner);
      |s'.logs| == |s.logs| + SuccessCount(items) && s'.logs[..|s.logs|] == s.logs
    decreases |tags|
  {
    if |tags| > 0 {
      var tail := tags[1..];
      assert tags[0] in tags;
      assert forall t :: t in tail ==> t in tags;
      var (o, s1) := CreateLogEntry(s, s.tags[tags[0]].code, d, photo, notes, now);
      var (rest, s2) := LogEach(s1, tail, d, photo, notes, now, withOwner);
      LogEachAppends(s1, tail, d, photo, notes, now, withOwner);
      var items := LogEach(s, tags, d, photo, notes, now, withOwner).0;
      assert items[0].outcome == o && items[1..] == rest;
      assert SuccessCount(items) == (if o.Logged? then 1 else 0) + SuccessCount(rest);
      PrefixTrans(s.logs, s1.logs, s2.logs);
    }
  }

  /** Row by row, `items` reports `tags` as lone calls on `s` would. */
  ghost predicate RowsFor(s: Store, tags: seq<Id>, items: seq<TagResult>, withOwner: bool)
    requires Wf(s)
    requires forall t :: t in tags ==> t in s.tags && s.tags[t].vehicle.Some?
    decreases |tags|
  {
    && |items| == |tags|
    && (|tags| > 0 ==>
          && (assert tags[0] in tags; RowFor(s, tags[0], items[0], withOwner))
          && (assert forall t :: t in tags[1..] ==> t in tags; RowsFor(s, tags[1..], items[1..], withOwner)))
  }

  lemma {:induction false} RowsForStable(a: Store, b: Store, tags: seq<Id>, items: seq<TagResult>, withOwner: bool)
    requires Wf(a) && Wf(b) && SameRegistry(a, b)
    requires forall t :: t in tags ==> t in a.tags && a.tags[t].vehicle.Some?
    ensures RowsFor(a, tags, items, withOwner) <==> RowsFor(b, tags, items, withOwner)
    decreases |tags|
  {
    if |tags| > 0 && |items| == |tags| {
      assert tags[0] in tags;
      assert forall t :: t in tags[1..] ==> t in tags;
      RowForStable(a, b, tags[0], items[0], withOwner);
      RowsForStable(a, b, tags[1..], items[1..], withOwner);
    }
  }

  lemma {:induction false} RowsForIndex(s: Store, tags: seq<Id>, items: seq<TagResult>, withOwner: bool)
    requires Wf(s)
    requires forall t :: t in tags ==> t in s.tags && s.tags[t].vehicle.Some?
    requires RowsFor(s, tags, items, withOwner)
    ensures |items| == |tags|
    ensures forall i :: 0 <= i < |tags| ==> tags[i] in tags && RowFor(s, tags[i], items[i], withOwner)
    decreases |tags|
  {
    if |tags| > 0 {
      assert forall t :: t in tags[1..] ==> t in tags;
      RowsForIndex(s, tags[1..], items[1..], withOwner);
      forall i | 1 <= i < |tags|
        ensures RowFor(s, tags[i], items[i], withOwner)
      {
        assert tags[1..][i - 1] == tags[i] && items[1..][i - 1] == items[i];
      }
    }
  }

  /**
   * Every row reports its tag as a lone call on the store the batch started
   * from would: logging only appends logs and moves last directions, which no
   * resolution reads.
   */
  lemma {:induction false} LogEachRows(s: Store, tags: seq<Id>, d: Direction, photo: Option<string>, notes: Json, now: int, withOwner: bool)
    requires Wf(s)
    requires forall t :: t in tags ==> t in s.tags && s.tags[t].vehicle.Some?
    ensures RowsFor(s, tags, LogEach(s, tags, d, photo, notes, now, withOwner).0, withOwner)
    decreases |tags|
  {
    if |tags| > 0 {
      assert tags[0] in tags;
      assert forall t :: t in tags[1..] ==> t in tags;
      var items := LogEach(s, tags, d, photo, notes, now, withOwner).0;
      var s1 := CreateLogEntry(s, s.tags[tags[0]].code, d, photo, notes, now).1;
      CreateLogEntryOutcome(s, s.tags[tags[0]].code, d, photo, notes, now);
      var rest := LogEach(s1, tags[1..], d, photo, notes, now, withOwner).0;
      LogEachRows(s1, tags[1..], d, photo, notes, now, withOwner);
      RowsForStable(s, s1, tags[1..], rest, withOwner);
      assert items[1..] == rest;
    }
  }

  /** The overall reply of an endpoint: a refusal before any log is written, or the per-tag rows. */
  datatype BatchError =
    | MissingParams
    | InvalidParams
    | InsufficientTags
    | TagsNotFound(missing: set<string>)
    | TagsNotActive(inactive: seq<Id>)
    | TagsNotAssigned(unassigned: seq<Id>)
    | TagsMixedAssigned(mixed: seq<Id>)
    | NoPersonTag
    | NoVehicleTag
    | InvalidOwnership(unowned: seq<Id>)
    | InvalidStatus(outside: seq<Id>)

  function BatchErrorCode(e: BatchError): string {
    match e
    case MissingParams => "MISSING_PARAMS"
    case InvalidParams => "INVALID_PARAMS"
    case InsufficientTags => "INSUFFICIENT_TAGS"
    case TagsNotFound(_) => "TAGS_NOT_FOUND"
    case TagsNotActive(_) => "TAGS_NOT_ACTIVE"
    case TagsNotAssigned(_) => "TAGS_NOT_ASSIGNED"
    case TagsMixedAssigned(_) => "TAGS_MIXED_ASSIGNED"
    case NoPersonTag => "NO_PERSON_TAG"
    case NoVehicleTag => "NO_VEHICLE_TAG"
    case InvalidOwnership(_) => "INVALID_OWNERSHIP"
    case InvalidStatus(_) => "INVALID_STATUS"
  }

  datatype Reply = Rejected(error: BatchError) | Processed(items: seq<TagResult>)

  /** What to do with a request: refuse it, or log the listed tags in order. */
  datatype Verdict = Refuse(error: BatchError) | Admit(tags: seq<Id>)

  /** Runs a verdict: nothing on a refusal, one create_log_entry per admitted tag otherwise. */
  function Execute(s: Store, v: Verdict, d: Direction, photo: Option<string>, notes: Json, now: int, withOwner: bool)
    : (res: (Reply, Store))
    requires Wf(s)
    requires v.Admit? ==> forall t :: t in v.tags ==> t in s.tags && s.tags[t].vehicle.Some?
    ensures Wf(res.1) && SameRegistry(s, res.1)
    ensures res.0.Rejected? <==> v.Refuse?
    ensures res.0.Rejected? ==> res.0.error == v.error && res.1 == s
    ensures res.0.Processed? ==> |res.0.items| == |v.tags|
    ensures res.0.Processed? ==> forall i :: 0 <= i < |res.0.items| ==> RowFor(s, v.tags[i], res.0.items[i], withOwner)
    ensures |res.1.logs| == |s.logs| + (if res.0.Processed? then SuccessCount(res.0.items) else 0)
    ensures res.1.logs[..|s.logs|] == s.logs
  {
    match v
    case Refuse(e) => (Rejected(e), s)
    case Admit(tags) =>
      var (items, s') := LogEach(s, tags, d, photo, notes, now, withOwner);
      LogEachFrame(s, tags, d, photo, notes, now, withOwner);
      LogEachAppends(s, tags, d, photo, notes, now, withOwner);
      LogEachRows(s, tags, d, photo, notes, now, withOwner);
      RowsForIndex(s, tags, items, withOwner);
      (Processed(items), s')
  }

  /** A row of a run batch fails exactly when a lone create_log_entry for its tag on the starting store would. */
  lemma ExecuteRowIndependent(s: Store, v: Verdict, d: Direction, photo: Option<string>, notes: Json, now: int, withOwner: bool, i: int)
    requires Wf(s)
    requires v.Admit? && forall t :: t in v.tags ==> t in s.tags && s.tags[t].vehicle.Some?
    requires 0 <= i < |v.tags|
    ensures var item := Execute(s, v, d, photo, notes, now, withOwner).0.items[i];
      var alone := CreateLogEntry(s, item.code, d, photo, notes, now).0;
      (item.outcome.Logged? <==> alone.Logged?) && (item.outcome.LogRejected? ==> alone == item.outcome)
  {
    var item := Execute(s, v, d, photo, notes, now, withOwner).0.items[i];
    assert RowFor(s, v.tags[i], item, withOwner);
    CreateLogEntryOutcome(s, item.code, d, photo, notes, now);
  }

  // --------------------------------------------------------------- check in

  /**
   * check_in's decision: a falsy tag_ids is missing, a non-list or a non-string
   * truthy notes is invalid; otherwise every named tag linked to a vehicle is
   * logged (a tag also linked to a person included), in id order.
   */
  function CheckInVerdict(s: Store, tagIds: TagIdsParam, notes: Option<Json>): (v: Verdict)
    requires Wf(s)
    ensures v == Refuse(MissingParams) <==> IdsFalsy(tagIds)
    ensures v == Refuse(InvalidParams) <==> !IdsFalsy(tagIds) && (tagIds.TagIdsOther? || NotesRejected(notes))
    ensures v.Refuse? ==> v.error == MissingParams || v.error == InvalidParams
    ensures v.Admit? ==> forall t :: t in v.tags <==> InBatch(s, tagIds.ids, t) && s.tags[t].vehicle.Some?
    ensures v.Admit? ==> forall t :: t in v.tags ==> t in s.tags && s.tags[t].vehicle.Some?
    ensures v.Admit? ==> Ascending(v.tags)
  {
    if IdsFalsy(tagIds) then Refuse(MissingParams)
    else if !tagIds.TagIdsList? then Refuse(InvalidParams)
    else if NotesRejected(notes) then Refuse(InvalidParams)
    else Admit(TagsWhere(s, BatchTags(s, tagIds.ids), (t: Tag) => t.vehicle.Some?))
  }

  /** check_in: the verdict, then one create_log_entry per admitted tag with direction in. */
  function CheckIn(s: Store, tagIds: TagIdsParam, photo: Option<string>, notes: Option<Json>, now: int): (res: (Reply, Store))
    requires Wf(s)
    ensures Wf(res.1) && SameRegistry(s, res.1)
    ensures res.0.Rejected? <==> CheckInVerdict(s, tagIds, notes).Refuse?
    ensures res.0.Rejected? ==> res.1 == s
    ensures |res.1.logs| == |s.logs| + (if res.0.Processed? then SuccessCount(res.0.items) else 0)
  {
    Execute(s, CheckInVerdict(s, tagIds, notes), In, photo, NotesOrDefault(notes, CheckInDefaultNotes), now, true)
  }

  // -------------------------------------------------------------- check out

  /** The count guard and the notes guard that precede every lookup. */
  predicate ExitParamsPass(tagIds: TagIdsParam, notes: Option<Json>) {
    tagIds.TagIdsList? && |tagIds.ids| >= 2 && !NotesRejected(notes)
  }

  ghost predicate AllKnown(s: Store, ids: seq<string>) {
    forall c :: c in ids && c != "" ==> exists t :: t in s.tags && s.tags[t].code == c
  }

  ghost predicate AllActive(s: Store, ids: seq<string>) {
    forall t :: InBatch(s, ids, t) ==> s.tags[t].status == Active
  }

  ghost predicate NoneUnassigned(s: Store, ids: seq<string>) {
    forall t :: InBatch(s, ids, t) ==> !IsUnassignedTag(s.tags[t])
  }

  ghost predicate NoneMixed(s: Store, ids: seq<string>) {
    forall t :: InBatch(s, ids, t) ==> !IsMixedTag(s.tags[t])
  }

  ghost predicate HasPersonTag(s: Store, ids: seq<string>) {
    exists t :: InBatch(s, ids, t) && IsPersonTag(s.tags[t])
  }

  ghost predicate HasVehicleTag(s: Store, ids: seq<string>) {
    exists t :: InBatch(s, ids, t) && IsVehicleTag(s.tags[t])
  }

  /** The vehicle's owner is the partner of one of the batch's person tags. */
  ghost predicate OwnedWithin(s: Store, ids: seq<string>, v: Id) {
    v in s.vehicles && s.vehicles[v].owner.Some? &&
    exists k :: InBatch(s, ids, k) && IsPersonTag(s.tags[k]) && s.tags[k].partner == s.vehicles[v].owner
  }

  ghost predicate VehiclesOwnedWithin(s: Store, ids: seq<string>) {
    forall t :: InBatch(s, ids, t) && IsVehicleTag(s.tags[t]) ==> OwnedWithin(s, ids, s.tags[t].vehicle.value)
  }

  ghost predicate VehiclesInside(s: Store, ids: seq<string>)
    requires Wf(s)
  {
    forall t :: InBatch(s, ids, t) && IsVehicleTag(s.tags[t]) ==>
      PresenceOf(s.vehicles[s.tags[t].vehicle.value].lastDirection) == Inside
  }

  /** Every named tag is active and belongs to exactly one kind of owner. */
  ghost predicate ClassesAccepted(s: Store, ids: seq<string>) {
    AllActive(s, ids) && NoneUnassigned(s, ids) && NoneMixed(s, ids)
  }

  /** Everything a check-out batch must satisfy before any exit is logged. */
  ghost predicate ExitAdmissible(s: Store, ids: seq<string>)
    requires Wf(s)
  {
    && AllKnown(s, ids) && ClassesAccepted(s, ids)
    && HasPersonTag(s, ids) && HasVehicleTag(s, ids) && VehiclesOwnedWithin(s, ids) && VehiclesInside(s, ids)
  }

  /** The distinct vehicles of the vehicle tags, in order of first appearance: vehicle_tags.mapped("vehicle_id"). */
  function VehiclesOf(s: Store, vtags: seq<Id>): (r: seq<Id>)
    requires Wf(s)
    requires forall t :: t in vtags ==> t in s.tags && s.tags[t].vehicle.Some?
    ensures forall v :: v in r <==> exists t :: t in vtags && Loggable(s, t) && s.tags[t].vehicle == Some(v)
    ensures forall v :: v in r ==> v in s.vehicles
  {
    assert forall i :: 0 <= i < |vtags| ==> vtags[i] in vtags;
    var all: seq<Id> := seq(|vtags|, i requires 0 <= i < |vtags| => s.tags[vtags[i]].vehicle.value);
    var r := Dedup(all);
    forall v
      ensures v in r <==> exists t :: t in vtags && Loggable(s, t) && s.tags[t].vehicle == Some(v)
    {
      if v in r {
        var k :| 0 <= k < |r| && r[k] == v;
        var i :| 0 <= i < |all| && all[i] == v;
        assert vtags[i] in vtags;
      }
      if exists t :: t in vtags && s.tags[t].vehicle == Some(v) {
        var t :| t in vtags && Loggable(s, t) && s.tags[t].vehicle == Some(v);
        var i :| 0 <= i < |vtags| && vtags[i] == t;
        assert all[i] == v;
      }
    }
    r
  }

  /** The partners of the person tags: person_tags.mapped("partner_id"). */
  function PersonsOf(s: Store, ptags: seq<Id>): (r: set<Id>)
    requires forall t :: t in ptags ==> t in s.tags && s.tags[t].partner.Some?
    ensures forall p :: p in r <==> exists t :: t in ptags && s.tags[t].partner == Some(p)
  {
    set t | t in ptags :: s.tags[t].partner.value
  }

  /** A refusal raised after the tags were looked up. */
  predicate LookupError(e: BatchError) {
    !(e.MissingParams? || e.InvalidParams? || e.InsufficientTags?)
  }

  predicate IsInactiveTag(t: Tag) { t.status != Active }

  /** A filter of the batch's found tags is non-empty exactly when some named tag passes it. */
  lemma FilterWitness(s: Store, ids: seq<string>, found: seq<Id>, p: Tag -> bool)
    requires forall t :: t in found <==> InBatch(s, ids, t)
    ensures forall t :: t in found ==> t in s.tags
    ensures |TagsWhere(s, found, p)| > 0 <==> exists t :: InBatch(s, ids, t) && p(s.tags[t])
  {
    forall t | t in found ensures t in s.tags { assert InBatch(s, ids, t); }
    var r := TagsWhere(s, found, p);
    if |r| > 0 {
      assert r[0] in r;
    }
  }

  /** Check 1 of check_out: every named code must exist; then the class checks run on the found tags. */
  function ExitTagChecks(s: Store, ids: seq<string>): (v: Verdict)
    requires Wf(s)
    ensures v.Refuse? ==> LookupError(v.error)
    ensures (v.Refuse? && v.error.TagsNotFound?) <==> !AllKnown(s, ids)
    ensures v.Refuse? && v.error.TagsNotFound? ==> v.error.missing == MissingCodes(s, ids) && v.error.missing != {}
    ensures AllKnown(s, ids) ==> v == ExitClassChecks(s, ids, BatchTags(s, ids))
  {
    var missing := MissingCodes(s, ids);
    if missing != {} then
      assert !AllKnown(s, ids) by { var c :| c in missing; }
      Refuse(TagsNotFound(missing))
    else
      assert AllKnown(s, ids);
      ExitClassChecks(s, ids, BatchTags(s, ids))
  }

  /**
   * Check 2 of check_out, over all found tags: the first failing class check,
   * in the source's order (inactive, then unassigned, then linked to both kinds
   * of owner), with the offending tags in id order.
   */
  function ClassError(s: Store, ids: seq<string>, found: seq<Id>): (e: Option<BatchError>)
    requires forall t :: t in found <==> InBatch(s, ids, t)
    ensures e.Some? ==> e.value.TagsNotActive? || e.value.TagsNotAssigned? || e.value.TagsMixedAssigned?
    ensures (e.Some? && e.value.TagsNotActive?) <==> !AllActive(s, ids)
    ensures (e.Some? && e.value.TagsNotAssigned?) <==> AllActive(s, ids) && !NoneUnassigned(s, ids)
    ensures (e.Some? && e.value.TagsMixedAssigned?) <==> AllActive(s, ids) && NoneUnassigned(s, ids) && !NoneMixed(s, ids)
  {
    FilterWitness(s, ids, found, IsInactiveTag);
    FilterWitness(s, ids, found, IsUnassignedTag);
    FilterWitness(s, ids, found, IsMixedTag);
    var inactive := TagsWhere(s, found, IsInactiveTag);
    var unassigned := TagsWhere(s, found, IsUnassignedTag);
    var mixed := TagsWhere(s, found, IsMixedTag);
    if |inactive| > 0 then Some(TagsNotActive(inactive))
    else if |unassigned| > 0 then Some(TagsNotAssigned(unassigned))
    else if |mixed| > 0 then Some(TagsMixedAssigned(mixed))
    else None
  }

  /** The class checks, then the pair checks. */
  function ExitClassChecks(s: Store, ids: seq<string>, found: seq<Id>): (v: Verdict)
    requires Wf(s)
    requires forall t :: t in found <==> InBatch(s, ids, t)
    requires Ascending(found)
    ensures v.Refuse? ==> LookupError(v.error) && !v.error.TagsNotFound?
    ensures (v.Refuse? && v.error.TagsNotActive?) <==> !AllActive(s, ids)
    ensures (v.Refuse? && v.error.TagsNotAssigned?) <==> AllActive(s, ids) && !NoneUnassigned(s, ids)
    ensures (v.Refuse? && v.error.TagsMixedAssigned?) <==> AllActive(s, ids) && NoneUnassigned(s, ids) && !NoneMixed(s, ids)
    ensures ClassesAccepted(s, ids) ==> v == ExitPairChecks(s, ids, found)
  {
    match ClassError(s, ids, found)
    case Some(e) => Refuse(e)
    case None => ExitPairChecks(s, ids, found)
  }

  /** Check 3 of check_out: at least one person tag and one vehicle tag; then ownership and presence. */
  function ExitPairChecks(s: Store, ids: seq<string>, found: seq<Id>): (v: Verdict)
    requires Wf(s)
    requires forall t :: t in found <==> InBatch(s, ids, t)
    requires Ascending(found)
    ensures v.Refuse? ==> v.error.NoPersonTag? || v.error.NoVehicleTag? || v.error.InvalidOwnership? || v.error.InvalidStatus?
    ensures v == Refuse(NoPersonTag) <==> !HasPersonTag(s, ids)
    ensures v == Refuse(NoVehicleTag) <==> HasPersonTag(s, ids) && !HasVehicleTag(s, ids)
    ensures (v.Refuse? && v.error.InvalidOwnership?) <==>
      HasPersonTag(s, ids) && HasVehicleTag(s, ids) && !VehiclesOwnedWithin(s, ids)
    ensures v.Admit? <==>
      HasPersonTag(s, ids) && HasVehicleTag(s, ids) && VehiclesOwnedWithin(s, ids) && VehiclesInside(s, ids)
    ensures v.Admit? ==> (forall t :: t in v.tags <==> InBatch(s, ids, t) && IsVehicleTag(s.tags[t])) && Ascending(v.tags)
    ensures v.Admit? ==> forall t :: t in v.tags ==> t in s.tags && s.tags[t].vehicle.Some?
  {
    FilterWitness(s, ids, found, IsPersonTag);
    FilterWitness(s, ids, found, IsVehicleTag);
    var persons := TagsWhere(s, found, IsPersonTag);
    var vtags := TagsWhere(s, found, IsVehicleTag);
    if |persons| == 0 then Refuse(NoPersonTag)
    else if |vtags| == 0 then Refuse(NoVehicleTag)
    else ExitOwnershipChecks(s, ids, persons, vtags)
  }

  /** The vehicle exists and its owner is one of the partners `owners`. */
  predicate OwnedBy(s: Store, v: Id, owners: set<Id>) {
    v in s.vehicles && s.vehicles[v].owner.Some? && s.vehicles[v].owner.value in owners
  }

  /** The vehicle exists and its status is inside. */
  predicate IsInside(s: Store, v: Id) {
    v in s.vehicles && PresenceOf(s.vehicles[v].lastDirection) == Inside
  }

  /** The batch's ownership condition, read over its distinct vehicles and its persons' partners. */
  lemma OwnershipByVehicles(s: Store, ids: seq<string>, persons: seq<Id>, vtags: seq<Id>)
    requires Wf(s)
    requires forall t :: t in persons <==> InBatch(s, ids, t) && IsPersonTag(s.tags[t])
    requires forall t :: t in vtags <==> InBatch(s, ids, t) && IsVehicleTag(s.tags[t])
    requires forall t :: t in persons ==> t in s.tags && s.tags[t].partner.Some?
    requires forall t :: t in vtags ==> t in s.tags && s.tags[t].vehicle.Some?
    ensures VehiclesOwnedWithin(s, ids) <==>
      forall v :: v in VehiclesOf(s, vtags) ==> OwnedBy(s, v, PersonsOf(s, persons))
  {
    var owners := PersonsOf(s, persons);
    var vehicles := VehiclesOf(s, vtags);
    if VehiclesOwnedWithin(s, ids) {
      forall v | v in vehicles ensures OwnedBy(s, v, owners) {
        var t :| t in vtags && Loggable(s, t) && s.tags[t].vehicle == Some(v);
        assert InBatch(s, ids, t) && IsVehicleTag(s.tags[t]);
        var k :| InBatch(s, ids, k) && IsPersonTag(s.tags[k]) && s.tags[k].partner == s.vehicles[v].owner;
        assert k in persons;
      }
    }
    if forall v :: v in vehicles ==> OwnedBy(s, v, owners) {
      forall t | InBatch(s, ids, t) && IsVehicleTag(s.tags[t])
        ensures OwnedWithin(s, ids, s.tags[t].vehicle.value)
      {
        var v := s.tags[t].vehicle.value;
        assert t in vtags;
        assert OwnedBy(s, v, owners);
        var k :| k in persons && s.tags[k].partner == s.vehicles[v].owner;
        assert InBatch(s, ids, k) && IsPersonTag(s.tags[k]);
      }
    }
  }

  /** The batch's presence condition, read over its distinct vehicles. */
  lemma PresenceByVehicles(s: Store, ids: seq<string>, vtags: seq<Id>)
    requires Wf(s)
    requires forall t :: t in vtags <==> InBatch(s, ids, t) && IsVehicleTag(s.tags[t])
    requires forall t :: t in vtags ==> t in s.tags && s.tags[t].vehicle.Some?
    ensures VehiclesInside(s, ids) <==> forall v :: v in VehiclesOf(s, vtags) ==> IsInside(s, v)
  {
    var vehicles := VehiclesOf(s, vtags);
    if VehiclesInside(s, ids) {
      forall v | v in vehicles ensures IsInside(s, v) {
        var t :| t in vtags && Loggable(s, t) && s.tags[t].vehicle == Some(v);
        assert InBatch(s, ids, t) && IsVehicleTag(s.tags[t]);
      }
    }
    if forall v :: v in vehicles ==> IsInside(s, v) {
      forall t | InBatch(s, ids, t) && IsVehicleTag(s.tags[t])
        ensures PresenceOf(s.vehicles[s.tags[t].vehicle.value].lastDirection) == Inside
      {
        assert t in vtags;
        assert IsInside(s, s.tags[t].vehicle.value);
      }
    }
  }

  /** The batch's vehicles no batch person owns, in order: the INVALID_OWNERSHIP list. */
  function UnownedVehicles(s: Store, persons: seq<Id>, vtags: seq<Id>): seq<Id>
    requires Wf(s)
    requires forall t :: t in persons ==> t in s.tags && s.tags[t].partner.Some?
    requires forall t :: t in vtags ==> t in s.tags && s.tags[t].vehicle.Some?
  {
    var owners := PersonsOf(s, persons);
    Filter(VehiclesOf(s, vtags), (v: Id) => !OwnedBy(s, v, owners))
  }

  /** The batch's vehicles that are not inside, in order: the INVALID_STATUS list. */
  function OutsideVehicles(s: Store, vtags: seq<Id>): seq<Id>
    requires Wf(s)
    requires forall t :: t in vtags ==> t in s.tags && s.tags[t].vehicle.Some?
  {
    Filter(VehiclesOf(s, vtags), (v: Id) => !IsInside(s, v))
  }

  /** The ownership list is empty exactly when every vehicle tag's vehicle belongs to a batch person. */
  lemma UnownedVehiclesMeaning(s: Store, ids: seq<string>, persons: seq<Id>, vtags: seq<Id>)
    requires Wf(s)
    requires forall t :: t in persons <==> InBatch(s, ids, t) && IsPersonTag(s.tags[t])
    requires forall t :: t in vtags <==> InBatch(s, ids, t) && IsVehicleTag(s.tags[t])
    requires forall t :: t in persons ==> t in s.tags && s.tags[t].partner.Some?
    requires forall t :: t in vtags ==> t in s.tags && s.tags[t].vehicle.Some?
    ensures |UnownedVehicles(s, persons, vtags)| == 0 <==> VehiclesOwnedWithin(s, ids)
  {
    var owners := PersonsOf(s, persons);
    var vehicles := VehiclesOf(s, vtags);
    var unowned := UnownedVehicles(s, persons, vtags);
    OwnershipByVehicles(s, ids, persons, vtags);
    if |unowned| > 0 {
      assert unowned[0] in vehicles && !OwnedBy(s, unowned[0], owners);
    } else {
      FilterEmpty(vehicles, (v: Id) => !OwnedBy(s, v, owners));
    }
  }

  /** The status list is empty exactly when every vehicle tag's vehicle is inside. */
  lemma OutsideVehiclesMeaning(s: Store, ids: seq<string>, vtags: seq<Id>)
    requires Wf(s)
    requires forall t :: t in vtags <==> InBatch(s, ids, t) && IsVehicleTag(s.tags[t])
    requires forall t :: t in vtags ==> t in s.tags && s.tags[t].vehicle.Some?
    ensures |OutsideVehicles(s, vtags)| == 0 <==> VehiclesInside(s, ids)
  {
    var vehicles := VehiclesOf(s, vtags);
    var outside := OutsideVehicles(s, vtags);
    PresenceByVehicles(s, ids, vtags);
    if |outside| > 0 {
      assert outside[0] in vehicles && !IsInside(s, outside[0]);
    } else {
      FilterEmpty(vehicles, (v: Id) => !IsInside(s, v));
    }
  }

  /** Checks 4 and 5 of check_out over the distinct vehicles: each owned by a batch person, each inside. */
  function ExitOwnershipChecks(s: Store, ids: seq<string>, persons: seq<Id>, vtags: seq<Id>): (v: Verdict)
    requires Wf(s)
    requires forall t :: t in persons <==> InBatch(s, ids, t) && IsPersonTag(s.tags[t])
    requires forall t :: t in vtags <==> InBatch(s, ids, t) && IsVehicleTag(s.tags[t])
    ensures v.Refuse? ==> v.error.InvalidOwnership? || v.error.InvalidStatus?
    ensures (v.Refuse? && v.error.InvalidOwnership?) <==> !VehiclesOwnedWithin(s, ids)
    ensures v.Admit? <==> VehiclesOwnedWithin(s, ids) && VehiclesInside(s, ids)
    ensures v.Admit? ==> v.tags == vtags
  {
    forall t | t in persons ensures t in s.tags && s.tags[t].partner.Some? {
      assert InBatch(s, ids, t) && IsPersonTag(s.tags[t]);
    }
    forall t | t in vtags ensures t in s.tags && s.tags[t].vehicle.Some? {
      assert InBatch(s, ids, t) && IsVehicleTag(s.tags[t]);
    }
    var unowned := UnownedVehicles(s, persons, vtags);
    var outside := OutsideVehicles(s, vtags);
    UnownedVehiclesMeaning(s, ids, persons, vtags);
    OutsideVehiclesMeaning(s, ids, vtags);
    if |unowned| > 0 then Refuse(InvalidOwnership(unowned))
    else if |outside| > 0 then Refuse(InvalidStatus(outside))
    else Admit(vtags)
  }

  /** check_out's decision, from the parameter guards through the ownership and presence checks. */
  function CheckOutVerdict(s: Store, tagIds: TagIdsParam, notes: Option<Json>): (v: Verdict)
    requires Wf(s)
    ensures v == Refuse(MissingParams) <==> IdsFalsy(tagIds)
    ensures v == Refuse(InvalidParams) <==>
      !IdsFalsy(tagIds) && (tagIds.TagIdsOther? || (|tagIds.ids| >= 2 && NotesRejected(notes)))
    ensures v == Refuse(InsufficientTags) <==> !IdsFalsy(tagIds) && tagIds.TagIdsList? && |tagIds.ids| < 2
    ensures ExitParamsPass(tagIds, notes) ==> v == ExitTagChecks(s, tagIds.ids)
    ensures v.Admit? <==> ExitParamsPass(tagIds, notes) && ExitAdmissible(s, tagIds.ids)
    ensures v.Admit? ==> forall t :: t in v.tags <==> InBatch(s, tagIds.ids, t) && IsVehicleTag(s.tags[t])
    ensures v.Admit? ==> forall t :: t in v.tags ==> t in s.tags && s.tags[t].vehicle.Some?
    ensures v.Admit? ==> Ascending(v.tags)
  {
    if IdsFalsy(tagIds) then Refuse(MissingParams)
    else if !tagIds.TagIdsList? then Refuse(InvalidParams)
    else if |tagIds.ids| < 2 then Refuse(InsufficientTags)
    else if NotesRejected(notes) then Refuse(InvalidParams)
    else ExitTagChecks(s, tagIds.ids)
  }

  /** check_out: the verdict, then one create_log_entry per vehicle tag with direction out. */
  function CheckOut(s: Store, tagIds: TagIdsParam, photo: Option<string>, notes: Option<Json>, now: int): (res: (Reply, Store))
    requires Wf(s)
    ensures Wf(res.1) && SameRegistry(s, res.1)
    ensures res.0.Rejected? <==> CheckOutVerdict(s, tagIds, notes).Refuse?
    ensures res.0.Rejected? ==> res.1 == s
    ensures |res.1.logs| == |s.logs| + (if res.0.Processed? then SuccessCount(res.0.items) else 0)
  {
    Execute(s, CheckOutVerdict(s, tagIds, notes), Out, photo, NotesOrDefault(notes, CheckOutDefaultNotes), now, false)
  }

  // ------------------------------------------------------------- properties

  /** A check-out that writes anything had two or more codes and passed every check. */
  lemma CheckOutLogsOnlyAdmissible(s: Store, tagIds: TagIdsParam, photo: Option<string>, notes: Option<Json>, now: int)
    requires Wf(s)
    requires |CheckOut(s, tagIds, photo, notes, now).1.logs| > |s.logs|
    ensures tagIds.TagIdsList? && |tagIds.ids| >= 2
    ensures ExitAdmissible(s, tagIds.ids)
  {
  }

  /** Every row of a processed check-out is a vehicle tag of the batch whose vehicle a batch person owns and is inside. */
  lemma CheckOutRowsAreOwnedAndInside(s: Store, tagIds: TagIdsParam, photo: Option<string>, notes: Option<Json>, now: int, i: int)
    requires Wf(s)
    requires CheckOut(s, tagIds, photo, notes, now).0.Processed?
    requires 0 <= i < |CheckOut(s, tagIds, photo, notes, now).0.items|
    ensures var item := CheckOut(s, tagIds, photo, notes, now).0.items[i];
      && InBatch(s, tagIds.ids, item.tag) && IsVehicleTag(s.tags[item.tag])
      && OwnedWithin(s, tagIds.ids, s.tags[item.tag].vehicle.value)
      && PresenceOf(s.vehicles[s.tags[item.tag].vehicle.value].lastDirection) == Inside
  {
    var v := CheckOutVerdict(s, tagIds, notes);
    var item := CheckOut(s, tagIds, photo, notes, now).0.items[i];
    assert RowFor(s, v.tags[i], item, false);
    assert v.tags[i] in v.tags;
  }

  /** A check-in row fails exactly when a lone create_log_entry for that tag on the original store would. */
  lemma CheckInRowsIndependent(s: Store, tagIds: TagIdsParam, photo: Option<string>, notes: Option<Json>, now: int, i: int)
    requires Wf(s)
    requires CheckIn(s, tagIds, photo, notes, now).0.Processed?
    requires 0 <= i < |CheckIn(s, tagIds, photo, notes, now).0.items|
    ensures var item := CheckIn(s, tagIds, photo, notes, now).0.items[i];
      var alone := CreateLogEntry(s, item.code, In, photo, NotesOrDefault(notes, CheckInDefaultNotes), now).0;
      (item.outcome.Logged? <==> alone.Logged?) && (item.outcome.LogRejected? ==> alone == item.outcome)
  {
    ExecuteRowIndependent(s, CheckInVerdict(s, tagIds, notes), In, photo, NotesOrDefault(notes, CheckInDefaultNotes), now, true, i);
  }

  // -------------------------------------------------------------- responses

  function DirectionWord(d: Direction): string {
    match d
    case In => "in"
    case Out => "out"
  }

  function SummaryJson(m: LogSummary): Json {
    JObj(map[
      "log_id" := JInt(m.logId),
      "vehicle" := JStr(m.plate),
      "partner" := JStr(m.partnerName),
      "direction" := JStr(DirectionWord(m.direction)),
      "time" := JInt(m.time),
      "is_anomaly" := JBool(m.isAnomaly),
      "parking_time" := JReal(m.parkingTime),
      "parking_time_display" := JStr(m.display)])
  }

  function ItemJson(r: TagResult): Json {
    JObj(map[
      "tag_id" := JStr(r.code),
      "vehicle_plate_number" := JStr(r.plate),
      "vehicle_owner" := r.owner,
      "success" := JBool(r.outcome.Logged?),
      "data" := (if r.outcome.Logged? then SummaryJson(r.outcome.summary) else EmptyObject),
      "error_code" := JStr(if r.outcome.Logged? then "SUCCESS" else LogErrorCode(r.outcome.error))])
  }

  /**
   * The endpoint's envelope: a refusal carries its code and no data; a processed
   * batch succeeds when any tag was logged, always under code SUCCESS, with the
   * rows as data (an empty row list being sent as {}).
   */
  function ToResponse(reply: Reply): (r: map<string, Json>)
    ensures "success" in r && "data" in r && "error_code" in r
    ensures reply.Rejected? ==> r["success"] == JBool(false) && r["error_code"] == JStr(BatchErrorCode(reply.error))
    ensures reply.Processed? ==> r["success"] == JBool(AnySuccess(reply.items)) && r["error_code"] == JStr("SUCCESS")
    ensures reply.Processed? && |reply.items| == 0 ==> r["data"] == EmptyObject && r["success"] == JBool(false)
    ensures reply.Processed? && |reply.items| > 0 ==> r["data"].JList? && |r["data"].items| == |reply.items|
  {
    match reply
    case Rejected(e) => GetResponse(false, JNull, "", Some(BatchErrorCode(e)))
    case Processed(items) =>
      var rows := seq(|items|, i requires 0 <= i < |items| => ItemJson(items[i]));
      GetResponse(AnySuccess(items), JList(rows), "Successful processing", Some("SUCCESS"))
  }
}
