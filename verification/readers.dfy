/**
 * RFID reader rows: the IP and port validation run by create and write, the
 * uniqueness of reader id, IP address and port, and the guard on deleting an
 * active reader.
 *
 * The IP check is `re.match` of a pattern anchored only at the start: three
 * "octet." groups and an optional fourth octet, so any text that begins with
 * three octets and their dots passes ("10.0.0." and "1.2.3.999" included).
 */
module Readers {
  import opened Wrappers
  import opened Text
  import opened Records

  const MinPort := 1
  const MaxPort := 65535

  datatype ReaderError =
    | IpNotText          // re.match on an unset (False) address: a TypeError
    | InvalidIp
    | PortOutOfRange
    | DuplicateReaderId
    | DuplicateIp
    | DuplicatePort
    | ReaderStillActive

  datatype ReaderResult<+T> = Saved(value: T) | Refused(error: ReaderError)

  /** The `vals` of create or write: a key absent from the dictionary is `Keep`. */
  datatype ReaderVals = ReaderVals(
    readerId: Field<Option<string>>,
    name: Field<Option<string>>,
    ip: Field<Option<string>>,
    port: Field<int>,
    status: Field<Option<ReaderStatus>>)

  // -------------------------------------------------------------- IP pattern

  /** One octet of the pattern: 25[0-5] | 2[0-4][0-9] | [01]?[0-9][0-9]?. */
  predicate IsOctet(t: string) {
    || (|t| == 3 && t[0] == '2' && t[1] == '5' && '0' <= t[2] <= '5')
    || (|t| == 3 && t[0] == '2' && '0' <= t[1] <= '4' && IsDigit(t[2]))
    || (|t| == 1 && IsDigit(t[0]))
    || (|t| == 2 && IsDigit(t[0]) && IsDigit(t[1]))
    || (|t| == 3 && (t[0] == '0' || t[0] == '1') && IsDigit(t[1]) && IsDigit(t[2]))
  }

  /** `s[i..j]` is an octet followed by its dot. */
  predicate OctetDot(s: string, i: nat, j: nat) {
    i < j <= |s| && s[j - 1] == '.' && IsOctet(s[i..j - 1])
  }

  /** The language of the pattern under re.match: some prefix is three octets, each with its dot. */
  predicate IpPatternMatches(ip: string) {
    exists a: nat, b: nat, c: nat | c <= |ip| && b < c && a < b :: OctetDot(ip, 0, a) && OctetDot(ip, a, b) && OctetDot(ip, b, c)
  }

  /** Where an octet and its dot starting at `i` end, if they do: the digits run to the dot. */
  function OctetDotEnd(s: string, i: nat): (r: Option<nat>)
    requires i <= |s|
    ensures r.Some? ==> OctetDot(s, i, r.value)
  {
    var k := DigitRunEnd(s, i);
    if k < |s| && s[k] == '.' && IsOctet(s[i..k]) then Some(k + 1) else None
  }

  /** An octet is all digits, so the scan finds every octet-and-dot there is. */
  lemma OctetDotFound(s: string, i: nat, j: nat)
    requires OctetDot(s, i, j)
    ensures OctetDotEnd(s, i) == Some(j)
  {
    var t := s[i..j - 1];
    assert forall m :: i <= m < j - 1 ==> IsDigit(s[m]) by {
      forall m | i <= m < j - 1 ensures IsDigit(s[m]) {
        assert s[m] == t[m - i];
      }
    }
    DigitRunEndAt(s, i, j - 1);
  }

  /** The IP check: three octet-and-dot groups from the start, scanned left to right. */
  predicate IpAccepted(ip: string) {
    match OctetDotEnd(ip, 0)
    case None => false
    case Some(a) =>
      match OctetDotEnd(ip, a)
      case None => false
      case Some(b) => OctetDotEnd(ip, b).Some?
  }

  /** The scan accepts exactly the texts the pattern matches. */
  lemma IpAcceptedIffPattern(ip: string)
    ensures IpAccepted(ip) <==> IpPatternMatches(ip)
  {
    if IpPatternMatches(ip) {
      PatternIsAccepted(ip);
    }
    if IpAccepted(ip) {
      var a := OctetDotEnd(ip, 0).value;
      var b := OctetDotEnd(ip, a).value;
      var c := OctetDotEnd(ip, b).value;
      assert OctetDot(ip, 0, a) && OctetDot(ip, a, b) && OctetDot(ip, b, c);
    }
  }

  lemma PatternIsAccepted(ip: string)
    requires IpPatternMatches(ip)
    ensures IpAccepted(ip)
  {
    var a: nat, b: nat, c: nat :| OctetDot(ip, 0, a) && OctetDot(ip, a, b) && OctetDot(ip, b, c);
    OctetDotFound(ip, 0, a);
    OctetDotFound(ip, a, b);
    OctetDotFound(ip, b, c);
  }

  /** The three-digit values the alternatives admit. */
  lemma ThreeDigitValue(t: string)
    requires |t| == 3 && AllDigits(t)
    ensures DigitsValue(t) == DigitValue(t[0]) * 100 + DigitValue(t[1]) * 10 + DigitValue(t[2])
  {
    assert t[..2][..1] == t[..1];
    assert DigitsValue(t[..1]) == DigitValue(t[0]);
  }

  /** The octet alternatives say "one to three digits worth at most 255", leading zeros allowed. */
  lemma OctetIsByte(t: string)
    ensures IsOctet(t) <==> 1 <= |t| <= 3 && AllDigits(t) && DigitsValue(t) <= 255
  {
    if |t| == 1 && AllDigits(t) {
      assert t[..0] == [];
    } else if |t| == 2 && AllDigits(t) {
      assert t[..1][..0] == [];
      assert DigitsValue(t[..1]) == DigitValue(t[0]);
    } else if |t| == 3 && AllDigits(t) {
      ThreeDigitValue(t);
    }
  }

  /** A dotted quad passes. */
  lemma IpExampleQuad()
    ensures IpAccepted("192.168.1.10")
  {
    var ip := "192.168.1.10";
    DigitRunEndAt(ip, 0, 3);
    DigitRunEndAt(ip, 4, 7);
    DigitRunEndAt(ip, 8, 9);
  }

  /** With no end anchor, three octets and a trailing dot pass. */
  lemma IpExampleTrailingDot()
    ensures IpAccepted("10.0.0.")
  {
    var ip := "10.0.0.";
    DigitRunEndAt(ip, 0, 2);
    DigitRunEndAt(ip, 3, 4);
    DigitRunEndAt(ip, 5, 6);
  }

  /** 256 is no octet. */
  lemma IpExampleTooLarge()
    ensures !IpAccepted("256.1.1.1")
  {
    var ip := "256.1.1.1";
    DigitRunEndAt(ip, 0, 3);
    assert !IsOctet(ip[0..3]);
  }

  /** Three octets need three dots. */
  lemma IpExampleTwoDots()
    ensures !IpAccepted("10.0.0")
  {
    var ip := "10.0.0";
    DigitRunEndAt(ip, 0, 2);
    DigitRunEndAt(ip, 3, 4);
    DigitRunEndAt(ip, 5, 6);
  }

  /** _validate_ip_port: the address first, then the port range. */
  function ValidateIpPort(ip: Option<string>, port: int): (e: Option<ReaderError>)
    ensures e.None? <==> ip.Some? && IpAccepted(ip.value) && MinPort <= port <= MaxPort
    ensures e == Some(PortOutOfRange) <==> ip.Some? && IpAccepted(ip.value) && !(MinPort <= port <= MaxPort)
  {
    if ip.None? then Some(IpNotText)
    else if !IpAccepted(ip.value) then Some(InvalidIp)
    else if !(MinPort <= port <= MaxPort) then Some(PortOutOfRange)
    else None
  }

  // --------------------------------------------------------------- uniqueness

  /** Another reader has the reader id of `r`, which is set. */
  predicate ReaderIdClash(rs: map<Id, Reader>, r: Id) {
    r in rs && rs[r].readerId.Some? && exists o :: o in rs && o != r && rs[o].readerId == rs[r].readerId
  }

  /** Another reader has the address of `r`, which is non-empty. */
  predicate IpClash(rs: map<Id, Reader>, r: Id) {
    r in rs && SetText(rs[r].ip) && exists o :: o in rs && o != r && rs[o].ip == rs[r].ip
  }

  /** Another reader has the port of `r`, which is set. */
  predicate PortClash(rs: map<Id, Reader>, r: Id) {
    r in rs && rs[r].port != 0 && exists o :: o in rs && o != r && rs[o].port == rs[r].port
  }

  /** Whether some reader of `ids` fails `clash`. */
  predicate AnyClash(rs: map<Id, Reader>, ids: seq<Id>, clash: (map<Id, Reader>, Id) -> bool)
  {
    exists i :: 0 <= i < |ids| && ids[i] in rs && clash(rs, ids[i])
  }

  /**
   * The uniqueness errors after a create, in the order they surface: the INSERT checks
   * UNIQUE(reader_id) and UNIQUE(port), then the Python check of the address runs (the
   * Python checks of reader id and port then find nothing the INSERT let through).
   */
  function CreateClash(rs: map<Id, Reader>, r: Id): (e: Option<ReaderError>)
    requires r in rs
    ensures e.None? <==> !ReaderIdClash(rs, r) && !PortClash(rs, r) && !IpClash(rs, r)
  {
    if ReaderIdClash(rs, r) then Some(DuplicateReaderId)
    else if PortClash(rs, r) then Some(DuplicatePort)
    else if IpClash(rs, r) then Some(DuplicateIp)
    else None
  }

  /**
   * The uniqueness errors after a write of `vals` to `ids`, in the order they surface: the
   * Python checks of the written fields (reader id when non-empty, address, port), then at
   * flush UNIQUE(reader_id), which also catches an empty id, and UNIQUE(port).
   */
  function WriteClash(rs: map<Id, Reader>, ids: seq<Id>, vals: ReaderVals): (e: Option<ReaderError>)
    ensures e.None? <==>
      (!AnyClash(rs, ids, ReaderIdClash) && !AnyClash(rs, ids, PortClash) && (vals.ip.SetTo? ==> !AnyClash(rs, ids, IpClash)))
  {
    var textIdClash := (m: map<Id, Reader>, r: Id) => r in m && SetText(m[r].readerId) && ReaderIdClash(m, r);
    if vals.readerId.SetTo? && AnyClash(rs, ids, textIdClash) then Some(DuplicateReaderId)
    else if vals.ip.SetTo? && AnyClash(rs, ids, IpClash) then Some(DuplicateIp)
    else if vals.port.SetTo? && AnyClash(rs, ids, PortClash) then Some(DuplicatePort)
    else if AnyClash(rs, ids, ReaderIdClash) then Some(DuplicateReaderId)
    else if AnyClash(rs, ids, PortClash) then Some(DuplicatePort)
    else None
  }

  // ---------------------------------------------------------- create / write

  /** The row create stores: absent keys are unset, the port 0. */
  function NewReader(vals: ReaderVals): (r: Reader) {
    Reader(vals.readerId.Apply(None), vals.name.Apply(None), vals.ip.Apply(None), vals.port.Apply(0), vals.status.Apply(None))
  }

  /** Applying `vals` to a stored row. */
  function Updated(r: Reader, vals: ReaderVals): (u: Reader) {
    Reader(vals.readerId.Apply(r.readerId), vals.name.Apply(r.name), vals.ip.Apply(r.ip), vals.port.Apply(r.port),
           vals.status.Apply(r.status))
  }

  /** Whether create validates: `vals` gives both a truthy address and a truthy port. */
  predicate CreateTriggers(vals: ReaderVals) {
    SetText(NewReader(vals).ip) && NewReader(vals).port != 0
  }

  /** create: the address and port are validated only when both are given and truthy. */
  function CreateReader(s: Store, vals: ReaderVals): (res: (ReaderResult<Id>, Store))
    requires Wf(s)
    ensures res.0.Refused? <==>
      (CreateTriggers(vals) && ValidateIpPort(NewReader(vals).ip, NewReader(vals).port).Some?)
      || CreateClash(s.readers[s.nextId := NewReader(vals)], s.nextId).Some?
    ensures CreateTriggers(vals) && ValidateIpPort(NewReader(vals).ip, NewReader(vals).port).Some? ==>
      res.0 == Refused(ValidateIpPort(NewReader(vals).ip, NewReader(vals).port).value)
    ensures res.0.Refused? ==> res.1 == s
    ensures res.0.Saved? ==> res.0.value == s.nextId && res.1.readers == s.readers[s.nextId := NewReader(vals)]
    ensures res.0.Saved? ==> res.1.nextId == s.nextId + 1
    ensures res.0.Saved? ==> res.1 == s.(readers := res.1.readers, nextId := res.1.nextId)
  {
    var r := NewReader(vals);
    if CreateTriggers(vals) && ValidateIpPort(r.ip, r.port).Some? then (Refused(ValidateIpPort(r.ip, r.port).value), s)
    else
      var t := s.nextId;
      var rs := s.readers[t := r];
      match CreateClash(rs, t)
      case Some(e) => (Refused(e), s)
      case None => (Saved(t), s.(readers := rs, nextId := t + 1))
  }

  /** The first reader of `ids` whose address and port, as they would be after the write, fail validation. */
  function WriteValidation(rs: map<Id, Reader>, ids: seq<Id>, vals: ReaderVals): (e: Option<ReaderError>)
    requires forall i :: 0 <= i < |ids| ==> ids[i] in rs
    ensures e.None? <==> forall i :: 0 <= i < |ids| ==>
      ValidateIpPort(vals.ip.Apply(rs[ids[i]].ip), vals.port.Apply(rs[ids[i]].port)).None?
    decreases |ids|
  {
    if |ids| == 0 then None
    else
      var r := rs[ids[0]];
      match ValidateIpPort(vals.ip.Apply(r.ip), vals.port.Apply(r.port))
      case Some(e) => Some(e)
      case None =>
        PairsValidCons(rs, ids, vals);
        WriteValidation(rs, ids[1..], vals)
  }

  /** Every written reader's merged pair is valid exactly when the first one's is and the rest's are. */
  lemma PairsValidCons(rs: map<Id, Reader>, ids: seq<Id>, vals: ReaderVals)
    requires 0 < |ids| && forall i :: 0 <= i < |ids| ==> ids[i] in rs
    ensures (forall i :: 0 <= i < |ids| ==> ValidateIpPort(vals.ip.Apply(rs[ids[i]].ip), vals.port.Apply(rs[ids[i]].port)).None?)
      <==> ValidateIpPort(vals.ip.Apply(rs[ids[0]].ip), vals.port.Apply(rs[ids[0]].port)).None?
           && forall i :: 0 <= i < |ids[1..]| ==> ValidateIpPort(vals.ip.Apply(rs[ids[1..][i]].ip), vals.port.Apply(rs[ids[1..][i]].port)).None?
  {
    var rest := ids[1..];
    assert forall i :: 0 <= i < |rest| ==> rest[i] == ids[i + 1];
  }

  /** Whether the write re-validates: `vals` gives a truthy address or port. */
  predicate WriteTriggers(vals: ReaderVals) {
    (vals.ip.SetTo? && SetText(vals.ip.value)) || (vals.port.SetTo? && vals.port.value != 0)
  }

  /** `vals` applied to every reader of `ids`. */
  function ApplyAll(rs: map<Id, Reader>, ids: set<Id>, vals: ReaderVals): (r: map<Id, Reader>)
    ensures r.Keys == rs.Keys
    ensures forall k :: k in rs ==> r[k] == (if k in ids then Updated(rs[k], vals) else rs[k])
  {
    map k | k in rs :: if k in ids then Updated(rs[k], vals) else rs[k]
  }

  /**
   * write on a recordset of readers: each record is validated with the new values over
   * the stored ones when `vals` gives a truthy address or port, then all are written and
   * the uniqueness checks run.
   */
  function WriteReaders(s: Store, ids: seq<Id>, vals: ReaderVals): (res: (ReaderResult<()>, Store))
    requires forall i :: 0 <= i < |ids| ==> ids[i] in s.readers
    ensures res.0.Refused? <==>
      (WriteTriggers(vals) && WriteValidation(s.readers, ids, vals).Some?)
      || WriteClash(ApplyAll(s.readers, set i | 0 <= i < |ids| :: ids[i], vals), ids, vals).Some?
    ensures WriteTriggers(vals) && WriteValidation(s.readers, ids, vals).Some? ==>
      res.0 == Refused(WriteValidation(s.readers, ids, vals).value)
    ensures res.0.Refused? ==> res.1 == s
    ensures res.0.Saved? ==> res.1 == s.(readers := ApplyAll(s.readers, set i | 0 <= i < |ids| :: ids[i], vals))
  {
    if WriteTriggers(vals) && WriteValidation(s.readers, ids, vals).Some? then
      (Refused(WriteValidation(s.readers, ids, vals).value), s)
    else
      var rs := ApplyAll(s.readers, set i | 0 <= i < |ids| :: ids[i], vals);
      match WriteClash(rs, ids, vals)
      case Some(e) => (Refused(e), s)
      case None => (Saved(()), s.(readers := rs))
  }

  /**
   * A create that gives both a truthy address and a port is saved exactly when the pair
   * is valid and nothing clashes.
   */
  lemma CreateValidates(s: Store, vals: ReaderVals)
    requires Wf(s)
    ensures var r := NewReader(vals);
      CreateTriggers(vals) ==>
        (CreateReader(s, vals).0.Saved? <==>
          IpAccepted(r.ip.value) && MinPort <= r.port <= MaxPort && CreateClash(s.readers[s.nextId := r], s.nextId).None?)
  {
  }

  /**
   * A create without a truthy address or without a port is not validated: it is saved
   * exactly when nothing clashes, whatever the address says.
   */
  lemma CreateSkipsValidation(s: Store, vals: ReaderVals)
    requires Wf(s)
    ensures !CreateTriggers(vals) ==>
      (CreateReader(s, vals).0.Saved? <==> CreateClash(s.readers[s.nextId := NewReader(vals)], s.nextId).None?)
  {
  }

  /** A write that gives a truthy address or port only succeeds when every written reader ends with a valid pair. */
  lemma WriteValidates(s: Store, ids: seq<Id>, vals: ReaderVals, k: nat)
    requires forall i :: 0 <= i < |ids| ==> ids[i] in s.readers
    requires WriteReaders(s, ids, vals).0.Saved? && WriteTriggers(vals) && k < |ids|
    ensures var r := WriteReaders(s, ids, vals).1.readers[ids[k]];
      r.ip.Some? && IpAccepted(r.ip.value) && MinPort <= r.port <= MaxPort
  {
    assert ValidateIpPort(vals.ip.Apply(s.readers[ids[k]].ip), vals.port.Apply(s.readers[ids[k]].port)).None?;
  }

  /**
   * Conversely, a write that gives a truthy address or port is saved when every written
   * reader ends with a valid pair and nothing clashes.
   */
  lemma WriteSavedWhenValid(s: Store, ids: seq<Id>, vals: ReaderVals)
    requires forall i :: 0 <= i < |ids| ==> ids[i] in s.readers
    requires WriteTriggers(vals)
    requires forall i :: 0 <= i < |ids| ==>
      var r := s.readers[ids[i]];
      vals.ip.Apply(r.ip).Some? && IpAccepted(vals.ip.Apply(r.ip).value) && MinPort <= vals.port.Apply(r.port) <= MaxPort
    requires WriteClash(ApplyAll(s.readers, set i | 0 <= i < |ids| :: ids[i], vals), ids, vals).None?
    ensures WriteReaders(s, ids, vals).0.Saved?
  {
  }

  /**
   * A write that gives neither a truthy address nor a truthy port is not validated: it is
   * saved exactly when nothing clashes, even over readers whose stored pair is invalid.
   */
  lemma WriteSkipsValidation(s: Store, ids: seq<Id>, vals: ReaderVals)
    requires forall i :: 0 <= i < |ids| ==> ids[i] in s.readers
    ensures !WriteTriggers(vals) ==>
      (WriteReaders(s, ids, vals).0.Saved? <==>
        WriteClash(ApplyAll(s.readers, set i | 0 <= i < |ids| :: ids[i], vals), ids, vals).None?)
  {
  }

  /** A create that succeeds keeps reader ids, addresses and ports unique. */
  lemma CreateKeepsUnique(s: Store, vals: ReaderVals)
    requires Wf(s) && ReadersUnique(s.readers)
    requires CreateReader(s, vals).0.Saved?
    ensures ReadersUnique(CreateReader(s, vals).1.readers)
  {
    var t := s.nextId;
    var rs := CreateReader(s, vals).1.readers;
    assert !ReaderIdClash(rs, t) && !PortClash(rs, t) && !IpClash(rs, t);
  }

  /** A write that succeeds keeps reader ids, addresses and ports unique. */
  lemma WriteKeepsUnique(s: Store, ids: seq<Id>, vals: ReaderVals)
    requires ReadersUnique(s.readers) && forall i :: 0 <= i < |ids| ==> ids[i] in s.readers
    requires WriteReaders(s, ids, vals).0.Saved?
    ensures ReadersUnique(WriteReaders(s, ids, vals).1.readers)
  {
    var written := set i | 0 <= i < |ids| :: ids[i];
    var rs := ApplyAll(s.readers, written, vals);
    forall a, b | a in rs && b in rs && a != b
      ensures rs[a].readerId.Some? ==> rs[a].readerId != rs[b].readerId
      ensures SetText(rs[a].ip) ==> rs[a].ip != rs[b].ip
      ensures rs[a].port != 0 ==> rs[a].port != rs[b].port
    {
      if a in written {
        var i :| 0 <= i < |ids| && ids[i] == a;
        assert !ReaderIdClash(rs, ids[i]) && !PortClash(rs, ids[i]);
        if vals.ip.SetTo? {
          assert !IpClash(rs, ids[i]);
        } else {
          ReaderIpKept(s, written, vals, a, b);
        }
      } else if b in written {
        var j :| 0 <= j < |ids| && ids[j] == b;
        assert !ReaderIdClash(rs, ids[j]) && !PortClash(rs, ids[j]);
        if vals.ip.SetTo? {
          assert !IpClash(rs, ids[j]);
        } else {
          ReaderIpKept(s, written, vals, a, b);
        }
      }
    }
  }

  /** A write without an address keeps every address, so their uniqueness carries over. */
  lemma ReaderIpKept(s: Store, written: set<Id>, vals: ReaderVals, a: Id, b: Id)
    requires ReadersUnique(s.readers) && vals.ip.Keep? && a in s.readers && b in s.readers && a != b
    ensures var rs := ApplyAll(s.readers, written, vals);
      SetText(rs[a].ip) ==> rs[a].ip != rs[b].ip
  {
  }

  // ------------------------------------------------------------------ unlink

  /** Some reader of the recordset is active. */
  predicate AnyActive(s: Store, ids: seq<Id>) {
    exists i :: 0 <= i < |ids| && ids[i] in s.readers && s.readers[ids[i]].status == Some(ReaderActive)
  }

  /** unlink: refused when any reader of the set is active, otherwise every one is removed. */
  function DeleteReaders(s: Store, ids: seq<Id>): (res: (ReaderResult<()>, Store))
    ensures res.0.Refused? <==> AnyActive(s, ids)
    ensures res.0.Refused? ==> res.0.error == ReaderStillActive && res.1 == s
    ensures res.0.Saved? ==> res.1.readers.Keys == s.readers.Keys - (set i | 0 <= i < |ids| :: ids[i])
    ensures res.0.Saved? ==> forall k :: k in res.1.readers ==> res.1.readers[k] == s.readers[k]
    ensures res.1 == s.(readers := res.1.readers)
  {
    if AnyActive(s, ids) then (Refused(ReaderStillActive), s)
    else (Saved(()), s.(readers := s.readers - (set i | 0 <= i < |ids| :: ids[i])))
  }

  /** Deleting leaves a valid store valid: nothing else refers to a reader row. */
  lemma DeleteReadersKeepsValid(s: Store, ids: seq<Id>)
    requires Valid(s)
    ensures Valid(DeleteReaders(s, ids).1)
  {
  }

  /** Creating and writing readers touch only the reader table, so they keep a valid store valid. */
  lemma CreateReaderKeepsValid(s: Store, vals: ReaderVals)
    requires Valid(s)
    ensures Valid(CreateReader(s, vals).1)
  {
    if CreateReader(s, vals).0.Saved? {
      CreateKeepsUnique(s, vals);
    }
  }

  lemma WriteReadersKeepsValid(s: Store, ids: seq<Id>, vals: ReaderVals)
    requires Valid(s) && forall i :: 0 <= i < |ids| ==> ids[i] in s.readers
    ensures Valid(WriteReaders(s, ids, vals).1)
  {
    if WriteReaders(s, ids, vals).0.Saved? {
      WriteKeepsUnique(s, ids, vals);
    }
  }
}
