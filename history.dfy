/** The incident history store: merging one raw feed message into the map
    from incident id to record, and purging records not updated recently. */
module IncidentHistory {
  import opened Values

  const INCIDENT_NUMBER: string := "INCIDENT_NUMBER"
  const ANNOUNCEMENT_DATE: string := "ANNOUNCEMENT_DATE"
  const NEAR_LANDMARK_CN: string := "NEAR_LANDMARK_CN"
  const LOCATION_CN: string := "LOCATION_CN"
  const DIRECTION_CN: string := "DIRECTION_CN"

  /** The location fields, in the order of preference of the merge. */
  const LOCATION_KEYS: seq<string> := [NEAR_LANDMARK_CN, LOCATION_CN, DIRECTION_CN]

  /** The fields every stored message update carries. */
  const UPDATE_KEYS: set<string> :=
    {"INCIDENT_STATUS_EN", "INCIDENT_STATUS_CN", "ID", "CONTENT_EN", "CONTENT_CN"}

  /** The six fields a merge pops from the raw message, in the order it pops them. */
  const EXTRACTED_KEYS: seq<string> :=
    [ANNOUNCEMENT_DATE, "INCIDENT_STATUS_EN", "INCIDENT_STATUS_CN", "ID", "CONTENT_EN", "CONTENT_CN"]

  const EXTRACTED: set<string> := {ANNOUNCEMENT_DATE} + UPDATE_KEYS

  /** One incident of the history. `messages` maps an announcement time to the
      update announced then. */
  datatype Record = Record(
    description: Fields,
    messages: map<Value, Fields>,
    district: Value,
    lastUpdate: Instant,
    lastAnnouncement: Value)

  type HistoryMap = map<Value, Record>

  /** The value of field `k`, or '' when the message lacks it. */
  function FieldOrEmpty(m: Fields, k: string): Value
  {
    if k in m then m[k] else Text("")
  }

  /** The repaired message update built from a raw message. */
  function UpdateOf(m: Fields): Fields
  {
    map k | k in UPDATE_KEYS :: FieldOrEmpty(m, k)
  }

  /** `message['NEAR_LANDMARK_CN'] or message['LOCATION_CN'] or message['DIRECTION_CN']`:
      a key is read only when every earlier one held a falsy value. */
  function ChooseLocation(m: Fields): (r: Result<Value>)
    ensures r.Ok? ==> Truthy(r.value) || (DIRECTION_CN in m && r.value == m[DIRECTION_CN])
    ensures r.Err? ==> r.error.MissingKey? && r.error.key in LOCATION_KEYS && r.error.key !in m
  {
    if NEAR_LANDMARK_CN !in m then Err(MissingKey(NEAR_LANDMARK_CN))
    else if Truthy(m[NEAR_LANDMARK_CN]) then Ok(m[NEAR_LANDMARK_CN])
    else if LOCATION_CN !in m then Err(MissingKey(LOCATION_CN))
    else if Truthy(m[LOCATION_CN]) then Ok(m[LOCATION_CN])
    else if DIRECTION_CN !in m then Err(MissingKey(DIRECTION_CN))
    else Ok(m[DIRECTION_CN])
  }

  /** The district of a location: none without a location, otherwise whatever
      the lookup returns (which may raise). */
  function ResolveDistrict(location: Value, resolve: string -> Option<Value>): (r: Result<Value>)
    ensures r.Err? <==> location.Text? && resolve(location.s).None?
    ensures r.Err? ==> r.error == LookupFailed
    ensures r.Ok? && location.Text? ==> resolve(location.s) == Some(r.value)
    ensures location == Null ==> r == Ok(Null)
  {
    match location
    case Null => Ok(Null)
    case Text(s) =>
      match resolve(s)
      case None => Err(LookupFailed)
      case Some(district) => Ok(district)
  }

  /** The write half of a merge, once nothing can raise any more. */
  function Store(h: HistoryMap, id: Value, rest: Fields, district: Value, nowIso: Instant): (r: HistoryMap)
    ensures r.Keys == h.Keys + {id}
    ensures FieldOrEmpty(rest, ANNOUNCEMENT_DATE) in r[id].messages
    ensures forall other :: other in h && other != id ==> r[other] == h[other]
  {
    var messageT := FieldOrEmpty(rest, ANNOUNCEMENT_DATE);
    var update := UpdateOf(rest);
    if id !in h then
      h[id := Record(rest - EXTRACTED, map[messageT := update], district, nowIso, messageT)]
    else if messageT in h[id].messages then
      h
    else
      h[id := h[id].(messages := h[id].messages[messageT := update],
                     lastUpdate := nowIso,
                     lastAnnouncement := messageT)]
  }

  /** The history after merging raw message `m` at `nowIso`, or the error the
      merge raises. */
  function Merge(h: HistoryMap, m: Fields, nowIso: Instant, resolve: string -> Option<Value>): (r: Result<HistoryMap>)
    ensures r.Ok? ==> INCIDENT_NUMBER in m && r.value.Keys == h.Keys + {m[INCIDENT_NUMBER]}
    ensures r.Ok? ==> FieldOrEmpty(m, ANNOUNCEMENT_DATE) in r.value[m[INCIDENT_NUMBER]].messages
    ensures r.Ok? ==> forall other :: other in h && other != m[INCIDENT_NUMBER] ==> r.value[other] == h[other]
  {
    if INCIDENT_NUMBER !in m then Err(MissingKey(INCIDENT_NUMBER))
    else
      var rest := m - {INCIDENT_NUMBER};
      match ChooseLocation(rest)
      case Err(e) => Err(e)
      case Ok(location) =>
        match ResolveDistrict(location, resolve)
        case Err(e) => Err(e)
        case Ok(district) => Ok(Store(h, m[INCIDENT_NUMBER], rest, district, nowIso))
  }

  /** `now - delta > last_dt`: the record is due for removal. */
  predicate Expired(r: Record, now: Instant, delta: int)
  {
    now - delta > r.lastUpdate
  }

  /** The history after removing every expired record. */
  function Expire(h: HistoryMap, now: Instant, delta: int): (r: HistoryMap)
    ensures forall id :: id in r <==> id in h && now - delta <= h[id].lastUpdate
    ensures forall id :: id in r ==> r[id] == h[id]
  {
    map id | id in h && !Expired(h[id], now, delta) :: h[id]
  }

  // ---------------------------------------------------------------------
  // Relations between successive histories

  /** `r2` is `r1` with possibly more announcements: no stored announcement is
      lost or rewritten, description and district never change, and a record
      whose announcement times did not grow is unchanged. */
  predicate RecordExtends(r1: Record, r2: Record)
  {
    && r2.description == r1.description
    && r2.district == r1.district
    && (forall t :: t in r1.messages ==> t in r2.messages && r2.messages[t] == r1.messages[t])
    && (r2.messages.Keys == r1.messages.Keys ==> r2 == r1)
  }

  /** No incident disappears and every incident only gains announcements. */
  predicate Extends(h1: HistoryMap, h2: HistoryMap)
  {
    forall id :: id in h1 ==> id in h2 && RecordExtends(h1[id], h2[id])
  }

  /** Every record of `h2` is either the record `h1` had or was written at `nowIso`. */
  predicate Stamped(h1: HistoryMap, h2: HistoryMap, nowIso: Instant)
  {
    forall id :: id in h2 ==> (id in h1 && h2[id] == h1[id]) || h2[id].lastUpdate == nowIso
  }

  /** Shape every record written by a merge has. */
  predicate WellFormedRecord(r: Record)
  {
    && r.lastAnnouncement in r.messages
    && forall t :: t in r.messages ==> r.messages[t].Keys == UPDATE_KEYS
  }

  predicate WellFormed(h: HistoryMap)
  {
    forall id :: id in h ==> WellFormedRecord(h[id])
  }

  // ---------------------------------------------------------------------
  // The store, updated in place

  class History {
    var history: HistoryMap

    /** The history as loaded at start-up: the stored one, or empty when there is none. */
    constructor (stored: Option<HistoryMap>)
      ensures history == if stored.Some? then stored.value else map[]
    {
      history := if stored.Some? then stored.value else map[];
    }

    /** Merges one raw message. A message that raises leaves the history as it was. */
    method PushMsg(message: Fields, nowIso: Instant, resolve: string -> Option<Value>) returns (outcome: Outcome)
      modifies this
      ensures var r := Merge(old(history), message, nowIso, resolve);
        && (r.Ok? ==> outcome == Pass && history == r.value)
        && (r.Err? ==> outcome == Fail(r.error) && history == old(history))
    {
      if INCIDENT_NUMBER !in message {
        return Fail(MissingKey(INCIDENT_NUMBER));
      }
      var incidentId := message[INCIDENT_NUMBER];
      var msg := message - {INCIDENT_NUMBER};

      var location := ChooseLocation(msg);
      if location.Err? {
        return Fail(location.error);
      }
      var district := Null;
      if location.value != Null {
        var found := resolve(location.value.s);
        if found.None? {
          return Fail(LookupFailed);
        }
        district := found.value;
      }

      var rest, update, messageT := ExtractFields(msg);
      assert update == UpdateOf(msg);
      if incidentId in history {
        var rec := history[incidentId];
        if messageT !in rec.messages {
          history := history[incidentId := rec.(messages := rec.messages[messageT := update],
                                                 lastUpdate := nowIso,
                                                 lastAnnouncement := messageT)];
        }
      } else {
        history := history[incidentId := Record(rest, map[messageT := update], district, nowIso, messageT)];
      }
      outcome := Pass;
    }

    /** Removes every record whose last update is strictly older than `now - delta`. */
    method RemoveExpire(now: Instant, delta: int)
      modifies this
      ensures history == Expire(old(history), now, delta)
    {
      var ids := history.Keys;
      while ids != {}
        invariant ids <= old(history).Keys
        invariant history == map id | id in old(history) && (id in ids || !Expired(old(history)[id], now, delta))
                                 :: old(history)[id]
        decreases ids
      {
        var id :| id in ids;
        if Expired(history[id], now, delta) {
          history := history - {id};
        }
        ids := ids - {id};
      }
    }
  }

  /** The field-repair loop of a merge: pops the six extracted fields from
      `message`, putting '' for each one it lacks, and splits off the
      announcement time. */
  method ExtractFields(message: Fields) returns (rest: Fields, update: Fields, messageT: Value)
    ensures rest == message - EXTRACTED
    ensures update.Keys == UPDATE_KEYS
    ensures forall k :: k in update ==> update[k] == (if k in message then message[k] else Text(""))
    ensures messageT == (if ANNOUNCEMENT_DATE in message then message[ANNOUNCEMENT_DATE] else Text(""))
  {
    rest := message;
    var updateMsg: Fields := map[];
    for i := 0 to |EXTRACTED_KEYS|
      invariant forall k :: k in rest <==> k in message && k !in EXTRACTED_KEYS[..i]
      invariant forall k :: k in rest ==> rest[k] == message[k]
      invariant forall k :: k in updateMsg <==> k in EXTRACTED_KEYS[..i]
      invariant forall k :: k in updateMsg ==> updateMsg[k] == FieldOrEmpty(message, k)
    {
      var e := EXTRACTED_KEYS[i];
      PoppedStep(i);
      if e in rest {
        updateMsg := updateMsg[e := rest[e]];
        rest := rest - {e};
      } else {
        updateMsg := updateMsg[e := Text("")];
      }
    }
    AllPopped();
    messageT := updateMsg[ANNOUNCEMENT_DATE];
    update := updateMsg - {ANNOUNCEMENT_DATE};
  }

  /** Popping key `i` adds exactly that key, which was not popped before. */
  lemma PoppedStep(i: nat)
    requires i < |EXTRACTED_KEYS|
    ensures forall k :: k in EXTRACTED_KEYS[..i + 1] <==> k in EXTRACTED_KEYS[..i] || k == EXTRACTED_KEYS[i]
    ensures EXTRACTED_KEYS[i] !in EXTRACTED_KEYS[..i]
  {
    assert EXTRACTED_KEYS[..i + 1] == EXTRACTED_KEYS[..i] + [EXTRACTED_KEYS[i]];
  }

  /** Once all keys are popped, the popped keys are the extracted fields. */
  lemma AllPopped()
    ensures forall k :: k in EXTRACTED_KEYS[..|EXTRACTED_KEYS|] <==> k in EXTRACTED
    ensures ANNOUNCEMENT_DATE !in UPDATE_KEYS
  {
    assert EXTRACTED_KEYS[..|EXTRACTED_KEYS|] == EXTRACTED_KEYS;
  }

}
