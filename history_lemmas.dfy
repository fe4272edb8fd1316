/** What a merge and an expiry promise about the history. */
module HistoryLemmas {
  import opened Values
  import opened IncidentHistory

  // ---------------------------------------------------------------------
  // Location choice

  /** The location is the value of the first location field that is truthy,
      every earlier field being present and falsy, or the direction field when
      none before it is truthy; with all three fields present the choice
      cannot raise. */
  lemma LocationIsFirstTruthy(m: Fields)
    ensures (forall i :: 0 <= i < |LOCATION_KEYS| ==> LOCATION_KEYS[i] in m) ==> ChooseLocation(m).Ok?
    ensures ChooseLocation(m).Ok? ==>
      var v := ChooseLocation(m).value;
      exists i :: && 0 <= i < |LOCATION_KEYS| && LOCATION_KEYS[i] in m && v == m[LOCATION_KEYS[i]]
                  && (Truthy(v) || i == |LOCATION_KEYS| - 1)
                  && forall j :: 0 <= j < i ==> LOCATION_KEYS[j] in m && !Truthy(m[LOCATION_KEYS[j]])
  {
    if NEAR_LANDMARK_CN !in m {
      assert LOCATION_KEYS[0] !in m;
    } else if Truthy(m[NEAR_LANDMARK_CN]) {
      assert LOCATION_KEYS[0] in m && m[LOCATION_KEYS[0]] == ChooseLocation(m).value;
    } else if LOCATION_CN !in m {
      assert LOCATION_KEYS[1] !in m;
    } else if Truthy(m[LOCATION_CN]) {
      assert LOCATION_KEYS[0] in m && !Truthy(m[LOCATION_KEYS[0]]);
      assert LOCATION_KEYS[1] in m && m[LOCATION_KEYS[1]] == ChooseLocation(m).value;
    } else if DIRECTION_CN !in m {
      assert LOCATION_KEYS[2] !in m;
    } else {
      assert LOCATION_KEYS[0] in m && !Truthy(m[LOCATION_KEYS[0]]);
      assert LOCATION_KEYS[1] in m && !Truthy(m[LOCATION_KEYS[1]]);
      assert LOCATION_KEYS[2] in m && m[LOCATION_KEYS[2]] == ChooseLocation(m).value;
    }
  }

  /** The location choice raises exactly when it reaches a field the message
      lacks: every earlier field is present and falsy. */
  lemma LocationMissingKey(m: Fields)
    ensures ChooseLocation(m).Err? <==>
      exists i :: && 0 <= i < |LOCATION_KEYS| && LOCATION_KEYS[i] !in m
                  && forall j :: 0 <= j < i ==> LOCATION_KEYS[j] in m && !Truthy(m[LOCATION_KEYS[j]])
    ensures ChooseLocation(m).Err? ==>
      ChooseLocation(m).error.MissingKey? && ChooseLocation(m).error.key in LOCATION_KEYS
  {
    if NEAR_LANDMARK_CN !in m {
      assert LOCATION_KEYS[0] !in m;
    } else if Truthy(m[NEAR_LANDMARK_CN]) {
      assert LOCATION_KEYS[0] in m && Truthy(m[LOCATION_KEYS[0]]);
    } else if LOCATION_CN !in m {
      assert LOCATION_KEYS[1] !in m;
    } else if Truthy(m[LOCATION_CN]) {
      assert LOCATION_KEYS[1] in m && Truthy(m[LOCATION_KEYS[1]]);
    } else if DIRECTION_CN !in m {
      assert LOCATION_KEYS[2] !in m;
    }
  }

  // ---------------------------------------------------------------------
  // Merge

  /** A merge raises exactly when the incident number is missing, the location
      choice raises, or the chosen location is text and its lookup raises. The
      lookup is made even for a known incident, on '' as on any other text, so
      failing is independent of the history. */
  lemma MergeFailures(h: HistoryMap, m: Fields, nowIso: Instant, resolve: string -> Option<Value>)
    ensures Merge(h, m, nowIso, resolve).Err? <==>
      || INCIDENT_NUMBER !in m
      || ChooseLocation(m).Err?
      || (ChooseLocation(m).value.Text? && resolve(ChooseLocation(m).value.s).None?)
  {
    assert ChooseLocation(m - {INCIDENT_NUMBER}) == ChooseLocation(m);
  }

  /** A merge of a message for an unknown incident creates exactly one record. */
  lemma MergeNewIncident(h: HistoryMap, m: Fields, nowIso: Instant, resolve: string -> Option<Value>)
    requires INCIDENT_NUMBER in m && m[INCIDENT_NUMBER] !in h
    requires Merge(h, m, nowIso, resolve).Ok?
    ensures var h' := Merge(h, m, nowIso, resolve).value;
      var id := m[INCIDENT_NUMBER];
      var t := FieldOrEmpty(m, ANNOUNCEMENT_DATE);
      var location := ChooseLocation(m).value;
      && h'.Keys == h.Keys + {id}
      && (forall other :: other in h ==> h'[other] == h[other])
      && h'[id].description == m - {INCIDENT_NUMBER} - EXTRACTED
      && h'[id].messages.Keys == {t}
      && h'[id].messages[t].Keys == UPDATE_KEYS
      && (forall k :: k in UPDATE_KEYS ==> h'[id].messages[t][k] == FieldOrEmpty(m, k))
      && (location == Null ==> h'[id].district == Null)
      && (location.Text? ==> resolve(location.s) == Some(h'[id].district))
      && h'[id].lastUpdate == nowIso
      && h'[id].lastAnnouncement == t
  {
    assert ChooseLocation(m - {INCIDENT_NUMBER}) == ChooseLocation(m);
  }

  /** A new announcement for a known incident adds exactly that announcement,
      stamps the record and leaves every other incident alone. */
  lemma MergeNewAnnouncement(h: HistoryMap, m: Fields, nowIso: Instant, resolve: string -> Option<Value>)
    requires INCIDENT_NUMBER in m && m[INCIDENT_NUMBER] in h
    requires FieldOrEmpty(m, ANNOUNCEMENT_DATE) !in h[m[INCIDENT_NUMBER]].messages
    requires Merge(h, m, nowIso, resolve).Ok?
    ensures var h' := Merge(h, m, nowIso, resolve).value;
      var id := m[INCIDENT_NUMBER];
      var t := FieldOrEmpty(m, ANNOUNCEMENT_DATE);
      && h'.Keys == h.Keys
      && (forall other :: other in h && other != id ==> h'[other] == h[other])
      && h'[id].messages.Keys == h[id].messages.Keys + {t}
      && (forall t' :: t' in h[id].messages ==> h'[id].messages[t'] == h[id].messages[t'])
      && h'[id].messages[t].Keys == UPDATE_KEYS
      && (forall k :: k in UPDATE_KEYS ==> h'[id].messages[t][k] == FieldOrEmpty(m, k))
      && h'[id].description == h[id].description
      && h'[id].district == h[id].district
      && h'[id].lastUpdate == nowIso
      && h'[id].lastAnnouncement == t
  {
  }

  /** Re-delivering an announcement already stored changes nothing, not even
      the last-update stamp. */
  lemma MergeRedelivery(h: HistoryMap, m: Fields, nowIso: Instant, resolve: string -> Option<Value>)
    requires INCIDENT_NUMBER in m && m[INCIDENT_NUMBER] in h
    requires FieldOrEmpty(m, ANNOUNCEMENT_DATE) in h[m[INCIDENT_NUMBER]].messages
    ensures Merge(h, m, nowIso, resolve).Ok? ==> Merge(h, m, nowIso, resolve).value == h
  {
  }

  /** Every successful merge only extends the history and stamps what it writes. */
  lemma MergeGrows(h: HistoryMap, m: Fields, nowIso: Instant, resolve: string -> Option<Value>)
    requires Merge(h, m, nowIso, resolve).Ok?
    ensures Extends(h, Merge(h, m, nowIso, resolve).value)
    ensures Stamped(h, Merge(h, m, nowIso, resolve).value, nowIso)
  {
    var rest := m - {INCIDENT_NUMBER};
    var district := ResolveDistrict(ChooseLocation(rest).value, resolve).value;
    StoreGrows(h, m[INCIDENT_NUMBER], rest, district, nowIso);
  }

  /** A merge keeps every record well formed. */
  lemma MergeKeepsWellFormed(h: HistoryMap, m: Fields, nowIso: Instant, resolve: string -> Option<Value>)
    requires Merge(h, m, nowIso, resolve).Ok?
    ensures WellFormed(h) ==> WellFormed(Merge(h, m, nowIso, resolve).value)
  {
    if WellFormed(h) {
      var rest := m - {INCIDENT_NUMBER};
      var district := ResolveDistrict(ChooseLocation(rest).value, resolve).value;
      StoreKeepsWellFormed(h, m[INCIDENT_NUMBER], rest, district, nowIso);
    }
  }

  lemma StoreGrows(h: HistoryMap, id: Value, rest: Fields, district: Value, nowIso: Instant)
    ensures Extends(h, Store(h, id, rest, district, nowIso))
    ensures Stamped(h, Store(h, id, rest, district, nowIso), nowIso)
  {
    var t := FieldOrEmpty(rest, ANNOUNCEMENT_DATE);
    var h' := Store(h, id, rest, district, nowIso);
    if id in h && t !in h[id].messages {
      assert h'[id].messages.Keys == h[id].messages.Keys + {t};
      assert h'[id].messages.Keys != h[id].messages.Keys by {
        assert t in h'[id].messages.Keys;
      }
    }
  }

  lemma StoreKeepsWellFormed(h: HistoryMap, id: Value, rest: Fields, district: Value, nowIso: Instant)
    requires WellFormed(h)
    ensures WellFormed(Store(h, id, rest, district, nowIso))
  {
    var t := FieldOrEmpty(rest, ANNOUNCEMENT_DATE);
    var update := UpdateOf(rest);
    UpdateOfKeys(rest);
    if id !in h {
      RecordWellFormedAfterAdd(map[], t, update, Record(rest - EXTRACTED, map[t := update], district, nowIso, t));
    } else if t !in h[id].messages {
      var r := h[id];
      RecordWellFormedAfterAdd(r.messages, t, update, r.(messages := r.messages[t := update], lastUpdate := nowIso, lastAnnouncement := t));
    }
  }

  lemma RecordWellFormedAfterAdd(msgs: map<Value, Fields>, t: Value, update: Fields, r: Record)
    requires forall t' :: t' in msgs ==> msgs[t'].Keys == UPDATE_KEYS
    requires update.Keys == UPDATE_KEYS
    requires r.messages == msgs[t := update] && r.lastAnnouncement == t
    ensures WellFormedRecord(r)
  {
  }

  lemma UpdateOfKeys(m: Fields)
    ensures UpdateOf(m).Keys == UPDATE_KEYS
  {
  }

  /** Once merged, a message is absorbed: merging it again into any extension
      of the result, at any time, is a no-op. */
  lemma MergeAbsorbed(h: HistoryMap, m: Fields, nowIso: Instant, resolve: string -> Option<Value>,
                      g: HistoryMap, nowIso': Instant)
    requires Merge(h, m, nowIso, resolve).Ok?
    requires Extends(Merge(h, m, nowIso, resolve).value, g)
    ensures Merge(g, m, nowIso', resolve) == Ok(g)
  {
    var id := m[INCIDENT_NUMBER];
    var t := FieldOrEmpty(m - {INCIDENT_NUMBER}, ANNOUNCEMENT_DATE);
    var h' := Merge(h, m, nowIso, resolve).value;
    assert id in h' && t in h'[id].messages;
  }

  /** Merging the same message twice is the same as merging it once. */
  lemma MergeIdempotent(h: HistoryMap, m: Fields, nowIso: Instant, resolve: string -> Option<Value>, nowIso': Instant)
    requires Merge(h, m, nowIso, resolve).Ok?
    ensures Merge(Merge(h, m, nowIso, resolve).value, m, nowIso', resolve) == Merge(h, m, nowIso, resolve)
  {
    var h' := Merge(h, m, nowIso, resolve).value;
    ExtendsReflexive(h');
    MergeAbsorbed(h, m, nowIso, resolve, h', nowIso');
  }

  /** Whether a merge raises depends on the message and the lookup only. */
  lemma MergeFailureIgnoresHistory(h1: HistoryMap, h2: HistoryMap, m: Fields, nowIso1: Instant, nowIso2: Instant,
                                   resolve: string -> Option<Value>)
    ensures Merge(h1, m, nowIso1, resolve).Err? <==> Merge(h2, m, nowIso2, resolve).Err?
  {
  }

  // ---------------------------------------------------------------------
  // The relations between histories

  lemma ExtendsReflexive(h: HistoryMap)
    ensures Extends(h, h)
  {
  }

  lemma ExtendsTransitive(h1: HistoryMap, h2: HistoryMap, h3: HistoryMap)
    requires Extends(h1, h2) && Extends(h2, h3)
    ensures Extends(h1, h3)
  {
    forall id | id in h1
      ensures id in h3 && RecordExtends(h1[id], h3[id])
    {
      var r1, r2, r3 := h1[id], h2[id], h3[id];
      assert r1.messages.Keys <= r2.messages.Keys <= r3.messages.Keys;
    }
  }

  lemma StampedReflexive(h: HistoryMap, nowIso: Instant)
    ensures Stamped(h, h, nowIso)
  {
  }

  lemma StampedTransitive(h1: HistoryMap, h2: HistoryMap, h3: HistoryMap, nowIso: Instant)
    requires Stamped(h1, h2, nowIso) && Stamped(h2, h3, nowIso)
    ensures Stamped(h1, h3, nowIso)
  {
  }

  // ---------------------------------------------------------------------
  // Expiry

  /** The boundary is strict: a record stamped exactly `now - delta` stays, one
      a microsecond older goes. */
  lemma ExpireBoundary(h: HistoryMap, id: Value, now: Instant, delta: int)
    requires id in h
    ensures h[id].lastUpdate == now - delta ==> id in Expire(h, now, delta)
    ensures h[id].lastUpdate == now - delta - 1 ==> id !in Expire(h, now, delta)
    ensures h[id].lastUpdate == now - delta + SECOND ==> id in Expire(h, now, delta)
    ensures h[id].lastUpdate == now - delta - SECOND ==> id !in Expire(h, now, delta)
  {
  }

  lemma ExpireIdempotent(h: HistoryMap, now: Instant, delta: int)
    ensures Expire(Expire(h, now, delta), now, delta) == Expire(h, now, delta)
  {
  }

  lemma ExpireKeepsWellFormed(h: HistoryMap, now: Instant, delta: int)
    requires WellFormed(h)
    ensures WellFormed(Expire(h, now, delta))
  {
  }

  /** A record written at `now_iso` survives an expiry at `now` with a
      retention of at least a second, though `now` carries microseconds. */
  lemma FreshRecordSurvives(h: HistoryMap, id: Value, now: Instant, delta: int)
    requires id in h && h[id].lastUpdate == NowIso(now)
    requires delta >= SECOND
    ensures id in Expire(h, now, delta)
  {
  }
}
