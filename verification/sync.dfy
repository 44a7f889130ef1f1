/**
 * The offline sync with the cloud server: pushing tags (and queueing them when the
 * push does not go through), retrying the queue with a bounded retry count, and
 * pulling tags back with a last-writer-wins merge.
 *
 * The HTTP call itself is not modelled: every call is an outcome supplied by the
 * caller, either an answer from the server or the exception the call raised.
 *
 * The source compares an offset-aware cloud date with the naive local write_date, which
 * raises for any stamp with "Z" or an offset; `PullFromCloudAsWritten` keeps that and
 * `PullFromCloud` compares the instants.
 */
module Sync {
  import opened Wrappers
  import opened JsonValues
  import opened Records
  import opened Lookup
  import StoreUpdates
  import TagRules

  /** A queue row is retried while its retry count is below this. */
  const MaxRetries: nat := 3
  /** At most this many queue rows are processed per run. */
  const BatchLimit: nat := 50
  /** A tag written within this many seconds is pushed again. */
  const RecentWindow: int := 3600

  /** One cloud call: the answer's truthy `success`, its `message` and `data`, or the text of the exception it raised. */
  datatype CallOutcome =
    | Answered(success: bool, message: Option<string>, data: Json)
    | CallFailed(reason: string)

  predicate Succeeded(o: CallOutcome) {
    o.Answered? && o.success
  }

  // ------------------------------------------------------------- tag payload

  /** The fields of a tag that travel to the cloud. */
  datatype TagPayload = TagPayload(
    code: string,
    epc: Option<string>,
    status: TagStatus,
    validFrom: Option<int>,
    validTo: Option<int>,
    writeDate: int,
    partner: Option<Id>,
    vehicle: Option<Id>)

  function PayloadOf(t: Tag): (p: TagPayload)
    ensures p.code == t.code && p.epc == t.epc && p.status == t.status
    ensures p.validFrom == t.validFrom && p.validTo == t.validTo && p.writeDate == t.writeDate
    ensures p.partner == t.partner && p.vehicle == t.vehicle
  {
    TagPayload(t.code, t.epc, t.status, t.validFrom, t.validTo, t.writeDate, t.partner, t.vehicle)
  }

  /** The selection key the ORM stores for a tag status. */
  function StatusName(st: TagStatus): (n: string)
    ensures StatusOfName(n) == Some(st)
  {
    match st
    case Active => "active"
    case Inactive => "inactive"
    case Pending => "pending"
    case Lost => "lost"
  }

  function StatusOfName(n: string): (r: Option<TagStatus>)
    ensures r.Some? ==> n in {"active", "inactive", "pending", "lost"}
  {
    if n == "active" then Some(Active)
    else if n == "inactive" then Some(Inactive)
    else if n == "pending" then Some(Pending)
    else if n == "lost" then Some(Lost)
    else None
  }

  /** An unset datetime or many2one is sent as null. */
  function IntOrNull(v: Option<int>): Json {
    match v
    case Some(i) => JInt(i)
    case None => JNull
  }

  function IntOrNullOf(j: Json): Option<Option<int>> {
    match j
    case JInt(i) => Some(Some(i))
    case JNull => Some(None)
    case _ => None
  }

  function IdOrNullOf(j: Json): Option<Option<Id>> {
    match j
    case JInt(i) => if i >= 0 then Some(Some(i as Id)) else None
    case JNull => Some(None)
    case _ => None
  }

  /** An unset Char field reads as False, so an unset EPC is sent as false rather than null. */
  function TextOrFalse(v: Option<string>): Json {
    match v
    case Some(e) => JStr(e)
    case None => JBool(false)
  }

  function TextOrFalseOf(j: Json): Option<Option<string>> {
    match j
    case JStr(e) => Some(Some(e))
    case JBool(false) => Some(None)
    case _ => None
  }

  /** The dictionary built for each tag before the push; datetimes are carried as integers. */
  function EncodePayload(p: TagPayload): (j: Json)
    ensures j.JObj? && j.fields.Keys == {"tag_id", "epc", "status", "valid_from", "valid_to", "write_date", "partner_id", "vehicle_id"}
  {
    JObj(map[
      "tag_id" := JStr(p.code),
      "epc" := TextOrFalse(p.epc),
      "status" := JStr(StatusName(p.status)),
      "valid_from" := IntOrNull(p.validFrom),
      "valid_to" := IntOrNull(p.validTo),
      "write_date" := JInt(p.writeDate),
      "partner_id" := IntOrNull(if p.partner.Some? then Some(p.partner.value as int) else None),
      "vehicle_id" := IntOrNull(if p.vehicle.Some? then Some(p.vehicle.value as int) else None)])
  }

  /** Reads a payload back from its dictionary; anything of the wrong shape is None. */
  function DecodePayload(j: Json): (r: Option<TagPayload>)
    ensures r.Some? ==> j.JObj?
  {
    if !j.JObj? then None
    else
      var f := j.fields;
      if !("tag_id" in f && "epc" in f && "status" in f && "valid_from" in f && "valid_to" in f
           && "write_date" in f && "partner_id" in f && "vehicle_id" in f) then None
      else if !(f["tag_id"].JStr? && f["status"].JStr? && f["write_date"].JInt?) then None
      else
        var epc, st := TextOrFalseOf(f["epc"]), StatusOfName(f["status"].s);
        var vf, vt := IntOrNullOf(f["valid_from"]), IntOrNullOf(f["valid_to"]);
        var pa, ve := IdOrNullOf(f["partner_id"]), IdOrNullOf(f["vehicle_id"]);
        if epc.None? || st.None? || vf.None? || vt.None? || pa.None? || ve.None? then None
        else Some(TagPayload(f["tag_id"].s, epc.value, st.value, vf.value, vt.value, f["write_date"].i, pa.value, ve.value))
  }

  /** Every payload survives the trip through its dictionary. */
  lemma PayloadRoundTrip(p: TagPayload)
    ensures DecodePayload(EncodePayload(p)) == Some(p)
  {
    var f := EncodePayload(p).fields;
    assert f["tag_id"] == JStr(p.code);
    assert f["status"] == JStr(StatusName(p.status));
    assert f["write_date"] == JInt(p.writeDate);
    assert TextOrFalseOf(f["epc"]) == Some(p.epc);
    assert IntOrNullOf(f["valid_from"]) == Some(p.validFrom);
    assert IntOrNullOf(f["valid_to"]) == Some(p.validTo);
    assert IdOrNullOf(f["partner_id"]) == Some(p.partner);
    assert IdOrNullOf(f["vehicle_id"]) == Some(p.vehicle);
  }

  /** Two payloads with the same dictionary are the same payload. */
  lemma EncodePayloadInjective(p: TagPayload, q: TagPayload)
    ensures EncodePayload(p) == EncodePayload(q) <==> p == q
  {
    if EncodePayload(p) == EncodePayload(q) {
      PayloadRoundTrip(p);
      PayloadRoundTrip(q);
    }
  }

  function TagData(t: Tag): Json {
    EncodePayload(PayloadOf(t))
  }

  // ------------------------------------------------------------------- queue

  /** The row _add_to_queue creates for one tag dictionary. */
  function QueueRow(data: Json): (it: QueueItem)
    ensures it.status == QueuePending && it.retryCount == 0 && it.error.None?
    ensures it.model == "nsp.tag" && it.recordId == 0 && it.action == QueueCreate && it.data == data
  {
    QueueItem("nsp.tag", 0, QueueCreate, data, QueuePending, None, 0)
  }

  /** Appends one pending row per dictionary, in order; nothing else changes. */
  function Enqueue(s: Store, payload: seq<Json>): (r: Store)
    ensures r == s.(queue := r.queue)
    ensures |r.queue| == |s.queue| + |payload| && r.queue[..|s.queue|] == s.queue
    ensures forall j :: 0 <= j < |payload| ==> r.queue[|s.queue| + j] == QueueRow(payload[j])
  {
    s.(queue := s.queue + seq(|payload|, j requires 0 <= j < |payload| => QueueRow(payload[j])))
  }

  /** Every row's retry count is in 0..MaxRetries. */
  predicate RetriesBounded(q: seq<QueueItem>) {
    forall i :: 0 <= i < |q| ==> 0 <= q[i].retryCount <= MaxRetries
  }

  /** A row process_sync_queue picks up: pending with retries left. */
  predicate Eligible(it: QueueItem) {
    it.status == QueuePending && it.retryCount < MaxRetries
  }

  /** One processing attempt of a row with the outcome of its call. */
  function Attempt(it: QueueItem, o: CallOutcome): (r: QueueItem)
    ensures r.model == it.model && r.recordId == it.recordId && r.action == it.action && r.data == it.data
    ensures Succeeded(o) ==> r.status == QueueSynced && r.retryCount == it.retryCount && r.error == it.error
    ensures !Succeeded(o) ==> r.retryCount == it.retryCount + 1
    ensures !Succeeded(o) ==> (r.status == QueueFailed <==> r.retryCount >= MaxRetries)
    ensures !Succeeded(o) ==> (r.status == QueuePending <==> r.retryCount < MaxRetries)
    ensures o.Answered? && !o.success ==> r.error == o.message
    ensures o.CallFailed? ==> r.error == Some(o.reason)
  {
    match o
    case Answered(success, message, _) =>
      if success then it.(status := QueueSynced)
      else
        var n := it.retryCount + 1;
        it.(retryCount := n, status := if n >= MaxRetries then QueueFailed else QueuePending, error := message)
    case CallFailed(reason) =>
      var n := it.retryCount + 1;
      it.(retryCount := n, status := if n >= MaxRetries then QueueFailed else QueuePending, error := Some(reason))
  }

  /** An attempt never leaves a row syncing, and a row that was eligible ends with at most MaxRetries retries. */
  lemma AttemptSettles(it: QueueItem, o: CallOutcome)
    ensures Attempt(it, o).status != QueueSyncing
    ensures Eligible(it) && 0 <= it.retryCount ==> 0 <= Attempt(it, o).retryCount <= MaxRetries
    ensures Eligible(Attempt(it, o)) <==> !Succeeded(o) && it.retryCount + 1 < MaxRetries
  {
  }

  /** A row retried run after run with the given outcomes, as long as it stays eligible; also returns how many calls were made. */
  function RetryRuns(it: QueueItem, os: seq<CallOutcome>): (r: (QueueItem, nat))
    ensures r.1 <= |os|
    decreases |os|
  {
    if |os| == 0 || !Eligible(it) then (it, 0)
    else
      var next := RetryRuns(Attempt(it, os[0]), os[1..]);
      (next.0, next.1 + 1)
  }

  /** However the calls go, a row is sent at most MaxRetries - retryCount times and never ends above MaxRetries retries. */
  lemma {:induction false} RetriesAreBounded(it: QueueItem, os: seq<CallOutcome>)
    requires 0 <= it.retryCount <= MaxRetries
    ensures RetryRuns(it, os).1 <= MaxRetries - it.retryCount
    ensures 0 <= RetryRuns(it, os).0.retryCount <= MaxRetries
    decreases |os|
  {
    if |os| > 0 && Eligible(it) {
      RetriesAreBounded(Attempt(it, os[0]), os[1..]);
    }
  }

  /** A row whose every call fails is marked failed after its remaining retries. */
  lemma {:induction false} FailingRowEndsFailed(it: QueueItem, os: seq<CallOutcome>)
    requires Eligible(it) && 0 <= it.retryCount
    requires |os| >= MaxRetries - it.retryCount
    requires forall j :: 0 <= j < |os| ==> !Succeeded(os[j])
    ensures RetryRuns(it, os).0.status == QueueFailed
    ensures RetryRuns(it, os).0.retryCount == MaxRetries
    ensures RetryRuns(it, os).1 == MaxRetries - it.retryCount
    decreases |os|
  {
    var next := Attempt(it, os[0]);
    if Eligible(next) {
      assert forall j :: 0 <= j < |os[1..]| ==> !Succeeded(os[1..][j]) by {
        forall j | 0 <= j < |os[1..]| ensures !Succeeded(os[1..][j]) {
          assert os[1..][j] == os[j + 1];
        }
      }
      FailingRowEndsFailed(next, os[1..]);
    }
  }

  /** Indices below `hi` of eligible rows, newest first (the queue is ordered by creation date, descending). */
  function EligibleBelow(q: seq<QueueItem>, hi: nat): (r: seq<nat>)
    requires hi <= |q|
    ensures forall j :: 0 <= j < |r| ==> r[j] < hi && Eligible(q[r[j]])
    ensures forall j, k :: 0 <= j < k < |r| ==> r[j] > r[k]
    ensures forall i :: 0 <= i < hi && Eligible(q[i]) ==> i in r
    decreases hi
  {
    if hi == 0 then []
    else if Eligible(q[hi - 1]) then [hi - 1] + EligibleBelow(q, hi - 1)
    else EligibleBelow(q, hi - 1)
  }

  /** The search of process_sync_queue: pending rows with retry_count < 3, newest first, at most 50. */
  function Selected(q: seq<QueueItem>): (r: seq<nat>)
    ensures |r| <= BatchLimit
    ensures forall j :: 0 <= j < |r| ==> r[j] < |q| && Eligible(q[r[j]])
    ensures forall j, k :: 0 <= j < k < |r| ==> r[j] > r[k]
    ensures forall i :: 0 <= i < |q| && Eligible(q[i]) && i !in r ==>
      |r| == BatchLimit && forall j :: 0 <= j < |r| ==> r[j] > i
  {
    var all := EligibleBelow(q, |q|);
    if |all| <= BatchLimit then all
    else
      var r := all[..BatchLimit];
      assert forall i :: 0 <= i < |q| && Eligible(q[i]) && i !in r ==> forall j :: 0 <= j < |r| ==> r[j] > i by {
        forall i | 0 <= i < |q| && Eligible(q[i]) && i !in r
          ensures forall j :: 0 <= j < |r| ==> r[j] > i
        {
          PrefixAboveRest(all, BatchLimit, i);
        }
      }
      r
  }

  /** In a strictly descending sequence, an element left out of a prefix lies below all of the prefix. */
  lemma PrefixAboveRest(all: seq<nat>, n: nat, i: nat)
    requires n <= |all| && forall a, b :: 0 <= a < b < |all| ==> all[a] > all[b]
    requires i in all && i !in all[..n]
    ensures forall j :: 0 <= j < n ==> all[..n][j] > i
  {
    var k :| 0 <= k < |all| && all[k] == i;
    assert k >= n;
  }

  /** In a strictly descending sequence no element appears before its own position. */
  lemma DescendingFresh(sel: seq<nat>, j: nat)
    requires j < |sel| && forall a, b :: 0 <= a < b < |sel| ==> sel[a] > sel[b]
    ensures sel[j] !in sel[..j]
  {
    forall k | 0 <= k < j ensures sel[..j][k] != sel[j] {
      assert sel[..j][k] == sel[k];
    }
  }

  /** The first `j` selected rows have been attempted, each with its own outcome, and every other row is as it was. */
  predicate AttemptedPrefix(q: seq<QueueItem>, r: seq<QueueItem>, sel: seq<nat>, outcome: nat -> CallOutcome, j: nat)
    requires j <= |sel|
  {
    && |r| == |q|
    && (forall k :: 0 <= k < j ==> sel[k] < |q| && r[sel[k]] == Attempt(q[sel[k]], outcome(k)))
    && (forall i :: 0 <= i < |q| && i !in sel[..j] ==> r[i] == q[i])
  }

  /** One more iteration of the loop extends the attempted prefix by the next selected row. */
  lemma AttemptNext(q: seq<QueueItem>, r: seq<QueueItem>, sel: seq<nat>, outcome: nat -> CallOutcome, j: nat)
    requires j < |sel| && AttemptedPrefix(q, r, sel, outcome, j)
    requires forall k :: 0 <= k < |sel| ==> sel[k] < |q|
    requires forall a, b :: 0 <= a < b < |sel| ==> sel[a] > sel[b]
    ensures sel[j] < |r| && AttemptedPrefix(q, r[sel[j] := Attempt(r[sel[j]], outcome(j))], sel, outcome, j + 1)
  {
    var i := sel[j];
    DescendingFresh(sel, j);
    var r' := r[i := Attempt(r[i], outcome(j))];
    assert sel[..j + 1] == sel[..j] + [i];
    forall k | 0 <= k < j + 1 ensures r'[sel[k]] == Attempt(q[sel[k]], outcome(k)) {
      if k < j {
        assert sel[k] > sel[j];
      }
    }
  }

  /** Attempting eligible rows, each at most once, keeps every retry count in range. */
  lemma AttemptsKeepBounded(q: seq<QueueItem>, r: seq<QueueItem>, sel: seq<nat>, outcome: nat -> CallOutcome)
    requires RetriesBounded(q) && |r| == |q|
    requires forall k :: 0 <= k < |sel| ==> sel[k] < |q| && Eligible(q[sel[k]]) && r[sel[k]] == Attempt(q[sel[k]], outcome(k))
    requires forall i :: 0 <= i < |q| && i !in sel ==> r[i] == q[i]
    ensures RetriesBounded(r)
  {
    forall i | 0 <= i < |q| ensures 0 <= r[i].retryCount <= MaxRetries {
      if i in sel {
        var k :| 0 <= k < |sel| && sel[k] == i;
        AttemptSettles(q[i], outcome(k));
      }
    }
  }

  /**
   * process_sync_queue: every selected row is attempted in turn, the j-th with the
   * outcome `outcome(j)`; returns how many rows were selected.
   */
  method ProcessSyncQueue(q: seq<QueueItem>, outcome: nat -> CallOutcome) returns (count: nat, r: seq<QueueItem>)
    ensures count == |Selected(q)| && count <= BatchLimit
    ensures |r| == |q|
    ensures forall j :: 0 <= j < count ==> r[Selected(q)[j]] == Attempt(q[Selected(q)[j]], outcome(j))
    ensures forall i :: 0 <= i < |q| && i !in Selected(q) ==> r[i] == q[i]
    ensures RetriesBounded(q) ==> RetriesBounded(r)
  {
    var sel := Selected(q);
    r := q;
    var j := 0;
    while j < |sel|
      invariant 0 <= j <= |sel| && AttemptedPrefix(q, r, sel, outcome, j)
    {
      AttemptNext(q, r, sel, outcome, j);
      r := r[sel[j] := Attempt(r[sel[j]], outcome(j))];
      j := j + 1;
    }
    count := |sel|;
    assert sel[..|sel|] == sel;
    if RetriesBounded(q) {
      AttemptsKeepBounded(q, r, sel, outcome);
    }
  }

  // ---------------------------------------------------------------- push

  /** The search domain of a push without ids: never synced, or written within the last hour. */
  predicate NeedsSync(t: Tag, now: int) {
    t.lastSync.None? || t.writeDate > now - RecentWindow
  }

  function TagsToSync(s: Store, now: int): (r: seq<Id>)
    requires Wf(s)
    ensures forall j :: 0 <= j < |r| ==> r[j] in s.tags && NeedsSync(s.tags[r[j]], now)
    ensures forall t :: t in s.tags && NeedsSync(s.tags[t], now) ==> t in r
    ensures forall j, k :: 0 <= j < k < |r| ==> r[j] < r[k]
  {
    KeysWhere(s.tags, (t: Tag) => NeedsSync(t, now), 0, s.nextId)
  }

  /** The ids a push sends: the search result when no ids are given, else the ids as given. */
  function PushIds(s: Store, tagIds: seq<Id>, now: int): seq<Id>
    requires Wf(s)
  {
    if |tagIds| == 0 then TagsToSync(s, now) else tagIds
  }

  /** The dictionaries of the pushed tags, in the order of their ids. */
  function Payloads(s: Store, ids: seq<Id>): (r: seq<Json>)
    requires forall j :: 0 <= j < |ids| ==> ids[j] in s.tags
    ensures |r| == |ids| && forall j :: 0 <= j < |ids| ==> r[j] == TagData(s.tags[ids[j]])
  {
    seq(|ids|, j requires 0 <= j < |ids| => TagData(s.tags[ids[j]]))
  }

  /** The write of last_sync_date on the pushed tags, which also stamps their write_date. */
  function MarkSynced(s: Store, ids: seq<Id>, now: int): (r: Store)
    ensures r == s.(tags := r.tags)
    ensures r.tags.Keys == s.tags.Keys
    ensures forall t :: t in s.tags ==>
      r.tags[t].code == s.tags[t].code && r.tags[t].partner == s.tags[t].partner && r.tags[t].vehicle == s.tags[t].vehicle
    ensures Wf(s) ==> Wf(r)
    ensures forall t :: t in s.tags && t in ids ==> r.tags[t] == s.tags[t].(lastSync := Some(now), writeDate := now)
    ensures forall t :: t in s.tags && t !in ids ==> r.tags[t] == s.tags[t]
  {
    var tags := map t | t in s.tags :: if t in ids then s.tags[t].(lastSync := Some(now), writeDate := now) else s.tags[t];
    assert tags.Keys == s.tags.Keys;
    assert forall t :: t in tags ==> tags[t].partner == s.tags[t].partner && tags[t].vehicle == s.tags[t].vehicle;
    s.(tags := tags)
  }

  datatype PushReply =
    | NothingToSync               // success, no tags matched
    | Pushed(data: Json)          // success, the answer's data
    | PushRefused(message: Option<string>)  // the server answered without success
    | PushFailed(reason: string)  // the call raised
    | MissingTags                 // an explicit id names no tag; the read raises

  /**
   * sync_tag_to_cloud. No ids (or an empty list) pushes the tags found by the search,
   * otherwise the given ids in the given order. A success stamps the pushed tags; an
   * answer without success or a failed call queues one row per tag instead.
   */
  function SyncTagsToCloud(s: Store, tagIds: seq<Id>, now: int, o: CallOutcome): (res: (PushReply, Store))
    requires Wf(s)
    ensures Wf(res.1)
    ensures var ids := PushIds(s, tagIds, now);
      && (res.0 == MissingTags <==> exists j :: 0 <= j < |ids| && ids[j] !in s.tags)
      && (res.0 != MissingTags ==> forall j :: 0 <= j < |ids| ==> ids[j] in s.tags)
      && (res.0 == NothingToSync <==> |ids| == 0)
      && (res.0.Pushed? <==> |ids| > 0 && (forall j :: 0 <= j < |ids| ==> ids[j] in s.tags) && Succeeded(o))
      && (res.0.Pushed? ==> res.1 == MarkSynced(s, ids, now))
      && ((res.0.PushRefused? || res.0.PushFailed?) ==> |ids| > 0 && res.1 == Enqueue(s, Payloads(s, ids)))
    ensures res.0 == MissingTags || res.0 == NothingToSync ==> res.1 == s
    ensures res.0.PushRefused? <==> o.Answered? && !o.success && res.0 != MissingTags && res.0 != NothingToSync
  {
    var ids := PushIds(s, tagIds, now);
    if exists j :: 0 <= j < |ids| && ids[j] !in s.tags then (MissingTags, s)
    else if |ids| == 0 then (NothingToSync, s)
    else
      var payload := Payloads(s, ids);
      match o
      case Answered(success, message, data) =>
        if success then (Pushed(data), MarkSynced(s, ids, now))
        else (PushRefused(message), Enqueue(s, payload))
      case CallFailed(reason) => (PushFailed(reason), Enqueue(s, payload))
  }

  /** Stamping tags changes no code and no owner, so every constraint still holds. */
  lemma MarkSyncedKeepsValid(s: Store, ids: seq<Id>, now: int)
    requires Valid(s)
    ensures Valid(MarkSynced(s, ids, now))
  {
    var r := MarkSynced(s, ids, now);
    SameCodesAndOwners(s.tags, r.tags);
  }

  /** Rewriting tags without touching a code or an owner keeps both tag constraints. */
  lemma SameCodesAndOwners(a: map<Id, Tag>, b: map<Id, Tag>)
    requires a.Keys == b.Keys && TagCodesUnique(a) && TagOwnersExclusive(a)
    requires forall t :: t in a ==> b[t].code == a[t].code && b[t].partner == a[t].partner && b[t].vehicle == a[t].vehicle
    ensures TagCodesUnique(b) && TagOwnersExclusive(b)
  {
  }

  /** A push keeps every constraint, and keeps the queue's retry counts in range. */
  lemma SyncTagsKeepsValid(s: Store, tagIds: seq<Id>, now: int, o: CallOutcome)
    requires Valid(s)
    ensures Valid(SyncTagsToCloud(s, tagIds, now, o).1)
    ensures RetriesBounded(s.queue) ==> RetriesBounded(SyncTagsToCloud(s, tagIds, now, o).1.queue)
  {
    var ids := PushIds(s, tagIds, now);
    var res := SyncTagsToCloud(s, tagIds, now, o);
    if res.0.Pushed? {
      MarkSyncedKeepsValid(s, ids, now);
    } else if res.0.PushRefused? || res.0.PushFailed? {
      var q, q' := s.queue, res.1.queue;
      forall i | 0 <= i < |q'| && RetriesBounded(q) ensures 0 <= q'[i].retryCount <= MaxRetries {
        if i < |q| {
          assert q'[i] == q'[..|q|][i];
        } else {
          assert q'[|q| + (i - |q|)].retryCount == 0;
        }
      }
    }
  }

  /** What a failed push queues reads back as the pushed tags, in the order they were pushed. */
  lemma QueuedRowsCarryTags(s: Store, tagIds: seq<Id>, now: int, o: CallOutcome)
    requires Wf(s)
    ensures var ids := PushIds(s, tagIds, now);
      var res := SyncTagsToCloud(s, tagIds, now, o);
      (res.0.PushRefused? || res.0.PushFailed?) ==>
        forall j :: 0 <= j < |ids| ==>
          && ids[j] in s.tags
          && res.1.queue[|s.queue| + j].status == QueuePending
          && DecodePayload(res.1.queue[|s.queue| + j].data) == Some(PayloadOf(s.tags[ids[j]]))
  {
    var ids := PushIds(s, tagIds, now);
    var res := SyncTagsToCloud(s, tagIds, now, o);
    if res.0.PushRefused? || res.0.PushFailed? {
      forall j | 0 <= j < |ids|
        ensures DecodePayload(res.1.queue[|s.queue| + j].data) == Some(PayloadOf(s.tags[ids[j]]))
      {
        PayloadRoundTrip(PayloadOf(s.tags[ids[j]]));
      }
    }
  }

  /**
   * Stamping last_sync_date also stamps write_date, so for an hour after a successful
   * push the same tags still match the search and are pushed again.
   */
  lemma PushedTagsStillMatch(s: Store, tagIds: seq<Id>, now: int, later: int, o: CallOutcome)
    requires Wf(s) && later < now + RecentWindow
    ensures var ids := PushIds(s, tagIds, now);
      var res := SyncTagsToCloud(s, tagIds, now, o);
      res.0.Pushed? ==> forall j :: 0 <= j < |ids| ==> ids[j] in TagsToSync(res.1, later)
  {
    var ids := PushIds(s, tagIds, now);
    var res := SyncTagsToCloud(s, tagIds, now, o);
    if res.0.Pushed? {
      forall j | 0 <= j < |ids| ensures ids[j] in TagsToSync(res.1, later) {
        assert NeedsSync(res.1.tags[ids[j]], later);
      }
    }
  }

  // ---------------------------------------------------------------- pull

  /**
   * One tag of the pull answer. Its write_date is carried as the UTC instant it names;
   * `offset` says whether the ISO text carried "Z" or a UTC offset, which makes Python
   * parse it as a timezone-aware datetime.
   */
  datatype CloudTag = CloudTag(
    code: string,
    epc: Option<string>,
    status: TagStatus,
    validFrom: Option<int>,
    validTo: Option<int>,
    writeDate: int,
    offset: bool)

  /** The pull call: an answer with its truthy `success` and `data.tags`, or the text of the exception it raised. */
  datatype PullOutcome =
    | PullAnswered(success: bool, tags: seq<CloudTag>)
    | PullCallFailed(reason: string)

  datatype PullReply =
    | Pulled(count: nat)          // success, with synced_count
    | NoReply                     // the answer had no success: the method returns None
    | PullFailed(message: string) // the call raised

  /** An existing tag overwritten from the cloud: the owners and the sync stamp stay. */
  function Overwritten(t: Tag, c: CloudTag, now: int): (r: Tag)
    ensures r.code == c.code && r.epc == c.epc && r.status == c.status
    ensures r.validFrom == c.validFrom && r.validTo == c.validTo && r.syncFromCloud && r.writeDate == now
    ensures r.partner == t.partner && r.vehicle == t.vehicle && r.lastSync == t.lastSync
  {
    t.(code := c.code, epc := c.epc, status := c.status, validFrom := c.validFrom, validTo := c.validTo,
       syncFromCloud := true, writeDate := now)
  }

  /** A tag created from the cloud: no owners, never synced out. */
  function FromCloud(c: CloudTag, now: int): (r: Tag)
    ensures r.code == c.code && r.epc == c.epc && r.status == c.status
    ensures r.validFrom == c.validFrom && r.validTo == c.validTo && r.syncFromCloud && r.writeDate == now
    ensures r.partner.None? && r.vehicle.None? && r.lastSync.None?
  {
    Tag(c.code, c.epc, c.status, c.validFrom, c.validTo, None, None, None, true, now)
  }

  /**
   * One entry of the merge: an existing tag with the same tag_id is overwritten only
   * when the cloud's write_date is strictly later; an unknown tag_id is created. The
   * flag says whether the entry counted.
   */
  function MergeCloudTag(s: Store, c: CloudTag, now: int): (r: (bool, Store))
    requires Wf(s)
    ensures Wf(r.1)
    ensures r.1 == s.(tags := r.1.tags, nextId := r.1.nextId)
  {
    match FindTag(s, c.code)
    case Some(t) => MergeInto(s, t, c, now)
    case None => (true, AddFromCloud(s, c, now))
  }

  /** The existing tag `t` meets a cloud entry: it is overwritten only when the entry is strictly newer. */
  function MergeInto(s: Store, t: Id, c: CloudTag, now: int): (r: (bool, Store))
    requires Wf(s) && t in s.tags
    ensures Wf(r.1) && r.1.nextId == s.nextId
    ensures r.0 <==> c.writeDate > s.tags[t].writeDate
    ensures r.0 ==> r.1 == s.(tags := s.tags[t := Overwritten(s.tags[t], c, now)])
    ensures !r.0 ==> r.1 == s
  {
    if c.writeDate > s.tags[t].writeDate then
      var nt := Overwritten(s.tags[t], c, now);
      StoreUpdates.PutTagWf(s, t, nt);
      (true, s.(tags := s.tags[t := nt]))
    else (false, s)
  }

  /** A cloud entry with an unknown tag_id becomes a new tag under the next id. */
  function AddFromCloud(s: Store, c: CloudTag, now: int): (r: Store)
    requires Wf(s)
    ensures Wf(r) && r.nextId == s.nextId + 1 && s.nextId !in s.tags
    ensures r == s.(tags := s.tags[s.nextId := FromCloud(c, now)], nextId := s.nextId + 1)
  {
    StoreUpdates.PutTagWf(s, s.nextId, FromCloud(c, now));
    s.(tags := s.tags[s.nextId := FromCloud(c, now)], nextId := s.nextId + 1)
  }

  /** Under the unique constraint a merge step is decided by the one tag carrying the entry's tag_id. */
  lemma MergeFindsTag(s: Store, c: CloudTag, now: int, t: Id)
    requires Valid(s) && t in s.tags && s.tags[t].code == c.code
    ensures MergeCloudTag(s, c, now) == MergeInto(s, t, c, now)
  {
    FindTagUnique(s, c.code, t);
  }

  /** A cloud entry whose tag_id no tag carries is created and counted. */
  lemma UnknownEntryCreated(s: Store, c: CloudTag, now: int)
    requires Wf(s) && !TagRules.CodeTaken(s.tags, c.code)
    ensures MergeCloudTag(s, c, now) == (true, AddFromCloud(s, c, now))
    ensures MergeCloudTag(s, c, now).1.tags[s.nextId] == FromCloud(c, now)
  {
  }

  /** The loop over the pulled tags, in order; returns synced_count. */
  function MergeCloudTags(s: Store, cs: seq<CloudTag>, now: int): (r: (nat, Store))
    requires Wf(s)
    ensures Wf(r.1) && r.0 <= |cs|
    ensures r.1 == s.(tags := r.1.tags, nextId := r.1.nextId)
    decreases |cs|
  {
    if |cs| == 0 then (0, s)
    else
      var step := MergeCloudTag(s, cs[0], now);
      var rest := MergeCloudTags(step.1, cs[1..], now);
      (rest.0 + (if step.0 then 1 else 0), rest.1)
  }

  /** pull_from_cloud; the last-pull stamp it stores is not modelled. */
  function PullFromCloud(s: Store, o: PullOutcome, now: int): (res: (PullReply, Store))
    requires Wf(s)
    ensures o.PullCallFailed? ==> res == (PullFailed(o.reason), s)
    ensures o.PullAnswered? && !o.success ==> res == (NoReply, s)
    ensures o.PullAnswered? && o.success ==> res.0.Pulled? && res.0.count <= |o.tags|
    ensures Wf(res.1) && res.1 == s.(tags := res.1.tags, nextId := res.1.nextId)
  {
    match o
    case PullCallFailed(reason) => (PullFailed(reason), s)
    case PullAnswered(success, tags) =>
      if !success then (NoReply, s)
      else
        var m := MergeCloudTags(s, tags, now);
        (Pulled(m.0), m.1)
  }

  /** Overwriting a tag's cloud fields keeps its code and owners, so every constraint still holds. */
  lemma MergeIntoKeepsValid(s: Store, t: Id, c: CloudTag, now: int)
    requires Valid(s) && t in s.tags && s.tags[t].code == c.code
    ensures Valid(MergeInto(s, t, c, now).1)
  {
    if c.writeDate > s.tags[t].writeDate {
      StoreUpdates.PutTagKeepsValid(s, t, Overwritten(s.tags[t], c, now));
    }
  }

  /** A merge step keeps every constraint: the overwritten tag keeps its code and owners, a created tag has a new code and none. */
  lemma MergeCloudTagKeepsValid(s: Store, c: CloudTag, now: int)
    requires Valid(s)
    ensures Valid(MergeCloudTag(s, c, now).1)
  {
    match FindTag(s, c.code)
    case Some(t) =>
      MergeIntoKeepsValid(s, t, c, now);
    case None =>
      TagRules.AddTagKeepsValid(s, FromCloud(c, now));
  }

  lemma {:induction false} MergeCloudTagsKeepsValid(s: Store, cs: seq<CloudTag>, now: int)
    requires Valid(s)
    ensures Valid(MergeCloudTags(s, cs, now).1)
    decreases |cs|
  {
    if |cs| > 0 {
      MergeCloudTagKeepsValid(s, cs[0], now);
      MergeCloudTagsKeepsValid(MergeCloudTag(s, cs[0], now).1, cs[1..], now);
    }
  }

  /** A pull keeps every constraint. */
  lemma PullKeepsValid(s: Store, o: PullOutcome, now: int)
    requires Valid(s)
    ensures Valid(PullFromCloud(s, o, now).1)
  {
    if o.PullAnswered? && o.success {
      MergeCloudTagsKeepsValid(s, o.tags, now);
    }
  }

  /** A merge step keeps every tag and its code. */
  lemma MergeCloudTagKeepsCodes(s: Store, c: CloudTag, now: int)
    requires Wf(s)
    ensures var r := MergeCloudTag(s, c, now).1;
      forall t :: t in s.tags ==> t in r.tags && r.tags[t].code == s.tags[t].code
  {
    match FindTag(s, c.code)
    case Some(t) =>
      var r := MergeInto(s, t, c, now).1;
      forall u | u in s.tags ensures u in r.tags && r.tags[u].code == s.tags[u].code {
        if u == t && c.writeDate > s.tags[t].writeDate {
          assert r.tags[u] == Overwritten(s.tags[t], c, now);
        }
      }
    case None =>
  }

  /** After a merge step some tag carries the entry's tag_id. */
  lemma MergeCloudTagTakesCode(s: Store, c: CloudTag, now: int)
    requires Wf(s)
    ensures TagRules.CodeTaken(MergeCloudTag(s, c, now).1.tags, c.code)
  {
    match FindTag(s, c.code)
    case Some(t) =>
      var r := MergeInto(s, t, c, now).1;
      assert r.tags[t].code == c.code;
    case None =>
      var r := AddFromCloud(s, c, now);
      assert r.tags[s.nextId].code == c.code;
  }

  lemma {:induction false} MergeCloudTagsKeepsCode(s: Store, cs: seq<CloudTag>, now: int, code: string)
    requires Wf(s) && TagRules.CodeTaken(s.tags, code)
    ensures TagRules.CodeTaken(MergeCloudTags(s, cs, now).1.tags, code)
    decreases |cs|
  {
    if |cs| > 0 {
      var s1 := MergeCloudTag(s, cs[0], now).1;
      MergeCloudTagKeepsCodes(s, cs[0], now);
      var t :| t in s.tags && s.tags[t].code == code;
      assert s1.tags[t].code == code;
      MergeCloudTagsKeepsCode(s1, cs[1..], now, code);
    }
  }

  /** After a successful pull every pulled tag_id names a local tag. */
  lemma {:induction false} MergeCloudTagsKnowsAll(s: Store, cs: seq<CloudTag>, now: int)
    requires Wf(s)
    ensures forall j :: 0 <= j < |cs| ==> TagRules.CodeTaken(MergeCloudTags(s, cs, now).1.tags, cs[j].code)
    decreases |cs|
  {
    if |cs| > 0 {
      var s1 := MergeCloudTag(s, cs[0], now).1;
      MergeCloudTagTakesCode(s, cs[0], now);
      MergeCloudTagsKeepsCode(s1, cs[1..], now, cs[0].code);
      MergeCloudTagsKnowsAll(s1, cs[1..], now);
      forall j | 1 <= j < |cs| ensures TagRules.CodeTaken(MergeCloudTags(s, cs, now).1.tags, cs[j].code) {
        assert cs[j] == cs[1..][j - 1];
      }
    }
  }

  /** After a successful pull a tag_id lookup finds every pulled tag. */
  lemma PullKnowsAll(s: Store, o: PullOutcome, now: int)
    requires Wf(s) && o.PullAnswered? && o.success
    ensures forall j :: 0 <= j < |o.tags| ==> KnownCode(PullFromCloud(s, o, now).1, o.tags[j].code)
  {
    MergeCloudTagsKnowsAll(s, o.tags, now);
  }

  /**
   * Last writer wins, and merging is idempotent: once an entry is merged at a time no
   * earlier than its write_date, merging it again counts nothing and changes nothing.
   */
  lemma MergeTwiceIsOnce(s: Store, c: CloudTag, now: int)
    requires Valid(s) && c.writeDate <= now
    ensures MergeCloudTag(MergeCloudTag(s, c, now).1, c, now) == (false, MergeCloudTag(s, c, now).1)
  {
    match FindTag(s, c.code)
    case Some(t) =>
      MergeIntoTwice(s, t, c, now);
    case None =>
      AddFromCloudTwice(s, c, now);
  }

  lemma MergeIntoTwice(s: Store, t: Id, c: CloudTag, now: int)
    requires Valid(s) && t in s.tags && s.tags[t].code == c.code && c.writeDate <= now
    ensures MergeCloudTag(MergeInto(s, t, c, now).1, c, now) == (false, MergeInto(s, t, c, now).1)
  {
    MergeIntoKeepsValid(s, t, c, now);
    var s1 := MergeInto(s, t, c, now).1;
    assert t in s1.tags && s1.tags[t].code == c.code && c.writeDate <= s1.tags[t].writeDate;
    StaleEntryIgnored(s1, c, now, t);
  }

  lemma AddFromCloudTwice(s: Store, c: CloudTag, now: int)
    requires Valid(s) && !TagRules.CodeTaken(s.tags, c.code) && c.writeDate <= now
    ensures MergeCloudTag(AddFromCloud(s, c, now), c, now) == (false, AddFromCloud(s, c, now))
  {
    TagRules.AddTagKeepsValid(s, FromCloud(c, now));
    StaleEntryIgnored(AddFromCloud(s, c, now), c, now, s.nextId);
  }

  /** A pulled entry older than (or as old as) the local tag of the same tag_id changes nothing. */
  lemma StaleEntryIgnored(s: Store, c: CloudTag, now: int, t: Id)
    requires Valid(s) && t in s.tags && s.tags[t].code == c.code && c.writeDate <= s.tags[t].writeDate
    ensures MergeCloudTag(s, c, now) == (false, s)
  {
    MergeFindsTag(s, c, now, t);
  }

  /** A pulled entry newer than the local tag of the same tag_id replaces its cloud fields and keeps its owners. */
  lemma NewerEntryWins(s: Store, c: CloudTag, now: int, t: Id)
    requires Valid(s) && t in s.tags && s.tags[t].code == c.code && c.writeDate > s.tags[t].writeDate
    ensures var r := MergeCloudTag(s, c, now);
      && r.0
      && r.1.tags.Keys == s.tags.Keys
      && r.1.tags[t] == Overwritten(s.tags[t], c, now)
      && r.1.tags[t].partner == s.tags[t].partner && r.1.tags[t].vehicle == s.tags[t].vehicle
      && (forall u :: u in s.tags && u != t ==> r.1.tags[u] == s.tags[u])
  {
    MergeFindsTag(s, c, now, t);
  }

  // ------------------------------------------------------- synced_count

  /** Whether an entry counts against the store before the pull: unknown, or strictly newer than its local tag. */
  predicate Counts(s: Store, c: CloudTag)
    requires Wf(s)
  {
    match FindTag(s, c.code)
    case None => true
    case Some(t) => c.writeDate > s.tags[t].writeDate
  }

  /** The number of entries that count against the store before the pull. */
  function CountFresh(s: Store, cs: seq<CloudTag>): (n: nat)
    requires Wf(s)
    ensures n <= |cs|
    decreases |cs|
  {
    if |cs| == 0 then 0 else (if Counts(s, cs[0]) then 1 else 0) + CountFresh(s, cs[1..])
  }

  /** No two entries of the answer carry the same tag_id. */
  predicate DistinctCodes(cs: seq<CloudTag>) {
    forall i, j :: 0 <= i < j < |cs| ==> cs[i].code != cs[j].code
  }

  /** A merge step leaves every tag of another tag_id as it was, and every tag it touches carries the entry's tag_id. */
  lemma MergeCloudTagFrame(s: Store, c: CloudTag, now: int)
    requires Wf(s)
    ensures var r := MergeCloudTag(s, c, now).1;
      && (forall u :: u in s.tags && s.tags[u].code != c.code ==> u in r.tags && r.tags[u] == s.tags[u])
      && (forall u :: u in r.tags && (u !in s.tags || s.tags[u].code == c.code) ==> r.tags[u].code == c.code)
  {
    match FindTag(s, c.code)
    case Some(t) => MergeIntoFrame(s, t, c, now);
    case None => AddFromCloudFrame(s, c, now);
  }

  lemma MergeIntoFrame(s: Store, t: Id, c: CloudTag, now: int)
    requires Wf(s) && t in s.tags && s.tags[t].code == c.code
    ensures var r := MergeInto(s, t, c, now).1;
      && (forall u :: u in s.tags && s.tags[u].code != c.code ==> u in r.tags && r.tags[u] == s.tags[u])
      && (forall u :: u in r.tags && (u !in s.tags || s.tags[u].code == c.code) ==> r.tags[u].code == c.code)
  {
    var r := MergeInto(s, t, c, now).1;
    assert r.tags.Keys == s.tags.Keys;
    assert forall u :: u in s.tags && u != t ==> r.tags[u] == s.tags[u];
    assert r.tags[t].code == c.code;
  }

  lemma AddFromCloudFrame(s: Store, c: CloudTag, now: int)
    requires Wf(s)
    ensures var r := AddFromCloud(s, c, now);
      && (forall u :: u in s.tags && s.tags[u].code != c.code ==> u in r.tags && r.tags[u] == s.tags[u])
      && (forall u :: u in r.tags && (u !in s.tags || s.tags[u].code == c.code) ==> r.tags[u].code == c.code)
  {
  }

  /** A merge step counts exactly when its entry counts. */
  lemma MergeCloudTagCounts(s: Store, c: CloudTag, now: int)
    requires Wf(s)
    ensures MergeCloudTag(s, c, now).0 == Counts(s, c)
  {
  }

  /** Merging one entry does not change whether an entry of another tag_id counts. */
  lemma CountsAfterStep(s: Store, c0: CloudTag, now: int, c: CloudTag)
    requires Valid(s) && c.code != c0.code
    ensures Counts(MergeCloudTag(s, c0, now).1, c) == Counts(s, c)
  {
    var s1 := MergeCloudTag(s, c0, now).1;
    MergeCloudTagFrame(s, c0, now);
    MergeCloudTagKeepsValid(s, c0, now);
    match FindTag(s, c.code)
    case Some(t) =>
      assert s1.tags[t] == s.tags[t];
      FindTagUnique(s1, c.code, t);
    case None =>
      forall u | u in s1.tags ensures s1.tags[u].code != c.code {
        if u in s.tags && s.tags[u].code != c0.code {
          assert s1.tags[u] == s.tags[u];
        }
      }
  }

  lemma {:induction false} CountFreshAfterStep(s: Store, c0: CloudTag, now: int, cs: seq<CloudTag>)
    requires Valid(s) && forall j :: 0 <= j < |cs| ==> cs[j].code != c0.code
    ensures CountFresh(MergeCloudTag(s, c0, now).1, cs) == CountFresh(s, cs)
    decreases |cs|
  {
    if |cs| > 0 {
      CountsAfterStep(s, c0, now, cs[0]);
      CountFreshAfterStep(s, c0, now, cs[1..]);
    }
  }

  /**
   * synced_count: with distinct tag_ids, the count is the number of entries that were
   * unknown, or strictly newer than their local tag, before the pull began.
   */
  lemma {:induction false} MergeCountsFresh(s: Store, cs: seq<CloudTag>, now: int)
    requires Valid(s) && DistinctCodes(cs)
    ensures MergeCloudTags(s, cs, now).0 == CountFresh(s, cs)
    decreases |cs|
  {
    if |cs| > 0 {
      var s1 := MergeCloudTag(s, cs[0], now).1;
      MergeCloudTagCounts(s, cs[0], now);
      MergeCloudTagKeepsValid(s, cs[0], now);
      DistinctTail(cs);
      CountFreshAfterStep(s, cs[0], now, cs[1..]);
      MergeCountsFresh(s1, cs[1..], now);
    }
  }

  /** The rest of a list with distinct tag_ids has distinct tag_ids, none of them the first one's. */
  lemma DistinctTail(cs: seq<CloudTag>)
    requires |cs| > 0 && DistinctCodes(cs)
    ensures DistinctCodes(cs[1..]) && forall j :: 0 <= j < |cs[1..]| ==> cs[1..][j].code != cs[0].code
  {
    forall j | 0 <= j < |cs[1..]| ensures cs[1..][j].code != cs[0].code {
      assert cs[1..][j] == cs[j + 1];
    }
    forall i, j | 0 <= i < j < |cs[1..]| ensures cs[1..][i].code != cs[1..][j].code {
      assert cs[1..][i] == cs[i + 1] && cs[1..][j] == cs[j + 1];
    }
  }

  /** A successful pull with distinct tag_ids reports the number of entries that counted against the store it began with. */
  lemma PullCountsFresh(s: Store, o: PullOutcome, now: int)
    requires Valid(s) && o.PullAnswered? && o.success && DistinctCodes(o.tags)
    ensures PullFromCloud(s, o, now).0 == Pulled(CountFresh(s, o.tags))
  {
    MergeCountsFresh(s, o.tags, now);
  }

  // -------------------------------------------- the pull as written: aware stamps

  /** The text of the TypeError raised when an aware datetime meets a naive one. */
  const CompareError := "can't compare offset-naive and offset-aware datetimes"

  datatype MergeOutcome = Merged(count: nat, store: Store) | MergeRaised(store: Store)

  /**
   * The merge loop as written: an entry whose write_date text carries "Z" or an offset
   * parses as an aware datetime, and comparing it with the naive write_date of a known
   * tag raises TypeError. The loop stops there; the entries merged before it stay written.
   */
  function MergeCloudTagsAsWritten(s: Store, cs: seq<CloudTag>, now: int): (r: MergeOutcome)
    requires Wf(s)
    ensures Wf(r.store)
    decreases |cs|
  {
    if |cs| == 0 then Merged(0, s)
    else if cs[0].offset && FindTag(s, cs[0].code).Some? then MergeRaised(s)
    else
      var step := MergeCloudTag(s, cs[0], now);
      match MergeCloudTagsAsWritten(step.1, cs[1..], now)
      case Merged(n, r) => Merged(n + (if step.0 then 1 else 0), r)
      case MergeRaised(r) => MergeRaised(r)
  }

  /** pull_from_cloud as written: the TypeError is caught and reported, and the earlier merges are kept. */
  function PullFromCloudAsWritten(s: Store, o: PullOutcome, now: int): (res: (PullReply, Store))
    requires Wf(s)
    ensures o.PullCallFailed? ==> res == (PullFailed(o.reason), s)
    ensures o.PullAnswered? && !o.success ==> res == (NoReply, s)
    ensures o.PullAnswered? && o.success ==> res.0.Pulled? || res.0 == PullFailed(CompareError)
  {
    match o
    case PullCallFailed(reason) => (PullFailed(reason), s)
    case PullAnswered(success, tags) =>
      if !success then (NoReply, s)
      else
        match MergeCloudTagsAsWritten(s, tags, now)
        case Merged(n, r) => (Pulled(n), r)
        case MergeRaised(r) => (PullFailed(CompareError), r)
  }

  /** Without offset-carrying stamps the code as written merges exactly as the intended comparison does. */
  lemma {:induction false} AsWrittenAgreesWithoutOffsets(s: Store, cs: seq<CloudTag>, now: int)
    requires Wf(s) && forall j :: 0 <= j < |cs| ==> !cs[j].offset
    ensures MergeCloudTagsAsWritten(s, cs, now) == Merged(MergeCloudTags(s, cs, now).0, MergeCloudTags(s, cs, now).1)
    decreases |cs|
  {
    if |cs| > 0 {
      var step := MergeCloudTag(s, cs[0], now);
      NoOffsetTail(cs);
      AsWrittenAgreesWithoutOffsets(step.1, cs[1..], now);
      assert !cs[0].offset;
    }
  }

  lemma NoOffsetTail(cs: seq<CloudTag>)
    requires |cs| > 0 && forall j :: 0 <= j < |cs| ==> !cs[j].offset
    ensures forall j :: 0 <= j < |cs[1..]| ==> !cs[1..][j].offset
  {
    forall j | 0 <= j < |cs[1..]| ensures !cs[1..][j].offset {
      assert cs[1..][j] == cs[j + 1];
    }
  }

  /**
   * An offset-carrying entry for a known tag makes the pull as written fail, keeping what
   * the entries before it merged; the intended comparison merges it like any other entry.
   */
  lemma AsWrittenOffsetFails(s: Store, c0: CloudTag, c: CloudTag, now: int)
    requires Wf(s) && !c0.offset && c.offset
    requires FindTag(MergeCloudTag(s, c0, now).1, c.code).Some?
    ensures PullFromCloudAsWritten(s, PullAnswered(true, [c0, c]), now) ==
      (PullFailed(CompareError), MergeCloudTag(s, c0, now).1)
    ensures PullFromCloud(s, PullAnswered(true, [c0, c]), now).0.Pulled?
  {
    var s1 := MergeCloudTag(s, c0, now).1;
    assert [c0, c][1..] == [c];
    assert MergeCloudTagsAsWritten(s1, [c], now) == MergeRaised(s1);
    assert MergeCloudTagsAsWritten(s, [c0, c], now) == MergeRaised(s1);
  }

  /** A store holding one tag "T1", last written at instant 0. */
  function OneTagStore(): Store {
    Store(map[0 := Tag("T1", None, Active, None, None, None, None, None, false, 0)], map[], map[], [], map[], [], 1)
  }

  /**
   * A newer entry for "T1" stamped with "Z": the pull as written fails with the TypeError
   * text and writes nothing; the intended comparison takes the entry and counts it.
   */
  lemma AsWrittenOffsetCounterexample()
    ensures var c := CloudTag("T1", None, Active, None, None, 10, true);
      && PullFromCloudAsWritten(OneTagStore(), PullAnswered(true, [c]), 0) == (PullFailed(CompareError), OneTagStore())
      && PullFromCloud(OneTagStore(), PullAnswered(true, [c]), 0).0 == Pulled(1)
  {
    var s := OneTagStore();
    var c := CloudTag("T1", None, Active, None, None, 10, true);
    assert Wf(s);
    FindTagUnique(s, "T1", 0);
    assert [c][1..] == [];
  }
}
