/**
  No lost update: the sync pass at the grain of its lock sections. The snapshot shares the cache's
  objects, so an entry is a place in a heap; updates, deletes and replacements may fall between the
  pass's snapshot, its per-peer transactions and its flag clears.
 */
module WriteBehind {
  import opened Options
  import opened PeerKeys
  import opened Cache
  import opened Etcd
  import opened EtcdSync
  import opened WgMonitor

  type Place = nat

  /** The pass in progress: the snapshot entries still to visit, and the key whose flag is to be cleared. */
  datatype Pass = NoPass | Pass(todo: map<string, Place>, clearing: Option<string>)

  datatype State = State(heap: map<Place, Entry>, cache: map<string, Place>, store: Store, pass: Pass)

  datatype Event =
    | Begin
    | Skip(k: string)
    | Write(k: string)
    | WriteFails(k: string)
    | Clear
    | End
    | Update(k: string, e: Entry)
    | Delete(k: string)
    | Replace(k: string, place: Place, e: Entry)
    | Reload(k: string, place: Place, wgIP: string)
    | Elsewhere(after: Store)

  /** The fields that the cache writes behind. */
  predicate IsCached(f: Field) {
    f == WgIp || f == Lan || f == Nated
  }

  /** Writes by others leave the cached fields of cached keys alone. */
  ghost predicate SparesCachedFields(cache: map<string, Place>, store: Store, after: Store) {
    forall k, f :: k in cache && IsCached(f) ==> Lookup(after, PeerKey(k, f)) == Lookup(store, PeerKey(k, f))
  }

  ghost predicate WellPlaced(s: State) {
    && (forall k :: k in s.cache ==> s.cache[k] in s.heap)
    && (forall k, l :: k in s.cache && l in s.cache && k != l ==> s.cache[k] != s.cache[l])
    && (s.pass.Pass? ==> forall k :: k in s.pass.todo ==> s.pass.todo[k] in s.heap)
    && (s.pass.Pass? ==> forall k, l :: k in s.pass.todo && l in s.cache && s.cache[l] == s.pass.todo[k] ==> k == l)
  }

  /** Steps of the pass (etcd_sync.go) and of its surroundings (cache.go). */
  ghost predicate Step(s: State, ev: Event, t: State)
    requires WellPlaced(s)
  {
    match ev
    case Begin => s.pass.NoPass? && t == s.(pass := Pass(s.cache, None))
    case Skip(k) =>
      s.pass.Pass? && s.pass.clearing.None? && k in s.pass.todo && !s.heap[s.pass.todo[k]].dirty
      && t == s.(pass := s.pass.(todo := s.pass.todo - {k}))
    case Write(k) =>
      s.pass.Pass? && s.pass.clearing.None? && k in s.pass.todo && s.heap[s.pass.todo[k]].dirty
      && t == s.(store := Written(s.store, k, s.heap[s.pass.todo[k]]), pass := Pass(s.pass.todo - {k}, Some(k)))
    case WriteFails(k) =>
      s.pass.Pass? && s.pass.clearing.None? && k in s.pass.todo && s.heap[s.pass.todo[k]].dirty
      && t == s.(pass := s.pass.(todo := s.pass.todo - {k}))
    case Clear =>
      s.pass.Pass? && s.pass.clearing.Some?
        && t == UpdateAt(s, s.pass.clearing.value, ClearDirty).(pass := s.pass.(clearing := None))
    case End => s.pass.Pass? && s.pass.clearing.None? && s.pass.todo == map[] && t == s.(pass := NoPass)
    case Update(k, e) => t == UpdateAt(s, k, (p: Entry) => e)
    case Delete(k) => t == s.(cache := s.cache - {k})
    case Replace(k, place, e) =>
      place !in s.heap && e.dirty && t == s.(heap := s.heap[place := e], cache := s.cache[k := place])
    case Reload(k, place, wgIP) =>
      place !in s.heap && HasFields(s.store, k)
      && t == s.(heap := s.heap[place := StoredEntry(s.store, k, wgIP)], cache := s.cache[k := place])
    case Elsewhere(after) => SparesCachedFields(s.cache, s.store, after) && t == s.(store := after)
  }

  /** PeerCache.Update: any change of the entry, and then the flag. */
  function UpdateAt(s: State, k: string, fn: Entry -> Entry): State
    requires WellPlaced(s)
  {
    if k in s.cache then s.(heap := s.heap[s.cache[k] := fn(s.heap[s.cache[k]]).(dirty := true)]) else s
  }

  /** A clean cached entry holds nothing that etcd does not. */
  ghost predicate CleanAgrees(s: State)
    requires WellPlaced(s)
  {
    forall k, f :: k in s.cache && IsCached(f) && !s.heap[s.cache[k]].dirty && EntryField(s.heap[s.cache[k]], f) != ""
      ==> Lookup(s.store, PeerKey(k, f)) == Some(EntryField(s.heap[s.cache[k]], f))
  }

  /** Writing the old object behind a clean entry's back does no harm: it is clean itself, or the two do not differ. */
  predicate Harmless(stale: Entry, e: Entry) {
    stale.dirty ==> forall f: Field :: IsCached(f) && EntryField(stale, f) != "" && EntryField(e, f) != ""
                                       ==> EntryField(stale, f) == EntryField(e, f)
  }

  /** Where the snapshot holds another object than the cache, the cached one is dirty or cannot be harmed. */
  ghost predicate SnapshotCurrent(s: State)
    requires WellPlaced(s)
  {
    s.pass.Pass? ==>
      forall k :: k in s.pass.todo && k in s.cache ==>
        s.cache[k] == s.pass.todo[k] || s.heap[s.cache[k]].dirty || Harmless(s.heap[s.pass.todo[k]], s.heap[s.cache[k]])
  }

  ghost predicate NothingLost(s: State) {
    WellPlaced(s) && CleanAgrees(s) && SnapshotCurrent(s)
  }

  /**
    A reload from etcd takes no address from the device, and where a pass still holds the key's old object,
    that object can do it no harm.
   */
  ghost predicate ReloadIsHarmless(s: State, ev: Event)
    requires WellPlaced(s)
  {
    ev.Reload? ==>
      (PeerKey(ev.k, WgIp) in s.store || ev.wgIP == "")
      && (s.pass.Pass? && ev.k in s.pass.todo ==>
            Harmless(s.heap[s.pass.todo[ev.k]], StoredEntry(s.store, ev.k, ev.wgIP)))
  }

  lemma StepKeepsPlaces(s: State, ev: Event, t: State)
    requires WellPlaced(s) && Step(s, ev, t)
    ensures WellPlaced(t)
  {
    hide PeerKey, Written, StoredEntry, HasFields;
  }

  lemma ReloadedAgrees(store: Store, k: string, wgIP: string, f: Field)
    requires PeerKey(k, WgIp) in store || wgIP == ""
    ensures EntryField(StoredEntry(store, k, wgIP), f) != "" ==>
      Lookup(store, PeerKey(k, f)) == Some(EntryField(StoredEntry(store, k, wgIP), f))
  {
  }

  lemma WriteKeepsAgreement(s: State, k: string, t: State)
    requires NothingLost(s) && Step(s, Write(k), t)
    ensures NothingLost(t)
  {
    hide PeerKey, Written;
    forall l, f | l in t.cache && IsCached(f) && !t.heap[t.cache[l]].dirty && EntryField(t.heap[t.cache[l]], f) != ""
      ensures Lookup(t.store, PeerKey(l, f)) == Some(EntryField(t.heap[t.cache[l]], f))
    {
      WrittenField(s.store, k, s.heap[s.pass.todo[k]], l, f);
    }
  }

  lemma ReloadKeepsAgreement(s: State, k: string, place: Place, wgIP: string, t: State)
    requires NothingLost(s) && Step(s, Reload(k, place, wgIP), t) && ReloadIsHarmless(s, Reload(k, place, wgIP))
    ensures NothingLost(t)
  {
    hide PeerKey, StoredEntry, HasFields, Harmless;
    forall f { ReloadedAgrees(s.store, k, wgIP, f); }
  }

  lemma EntryStepKeepsAgreement(s: State, ev: Event, t: State)
    requires NothingLost(s) && Step(s, ev, t) && (ev.Clear? || ev.Update? || ev.Delete? || ev.Replace?)
    ensures NothingLost(t)
  {
    hide PeerKey, Harmless;
  }

  /** Every step keeps what the clean entries promise. */
  lemma StepKeepsAgreement(s: State, ev: Event, t: State)
    requires NothingLost(s) && Step(s, ev, t) && ReloadIsHarmless(s, ev)
    ensures NothingLost(t)
  {
    hide PeerKey, Written, StoredEntry, HasFields, Harmless;
    match ev
    case Write(k) => WriteKeepsAgreement(s, k, t);
    case Reload(k, place, wgIP) => ReloadKeepsAgreement(s, k, place, wgIP, t);
    case Begin => StepKeepsPlaces(s, ev, t);
    case Skip(_) => StepKeepsPlaces(s, ev, t);
    case WriteFails(_) => StepKeepsPlaces(s, ev, t);
    case End => StepKeepsPlaces(s, ev, t);
    case Elsewhere(_) => StepKeepsPlaces(s, ev, t);
    case _ => EntryStepKeepsAgreement(s, ev, t);
  }

  ghost predicate Run(states: seq<State>, events: seq<Event>) {
    |states| == |events| + 1
    && forall i :: 0 <= i < |events| ==> WellPlaced(states[i]) && Step(states[i], events[i], states[i + 1])
  }

  /** In every run, a cached entry that is not dirty agrees with etcd on each of its non-empty fields. */
  lemma {:induction false} NoLostUpdate(states: seq<State>, events: seq<Event>, n: nat)
    requires Run(states, events) && n < |states| && NothingLost(states[0])
    requires forall i :: 0 <= i < |events| ==> ReloadIsHarmless(states[i], events[i])
    ensures NothingLost(states[n])
  {
    hide Step, NothingLost, WellPlaced;
    if n > 0 {
      NoLostUpdate(states, events, n - 1);
      assert ReloadIsHarmless(states[n - 1], events[n - 1]);
      StepKeepsAgreement(states[n - 1], events[n - 1], states[n]);
    }
  }

  /** The event neither deletes the key nor puts another object in its place. */
  predicate KeepsObject(ev: Event, k: string) {
    match ev
    case Delete(l) => l != k
    case Replace(l, _, _) => l != k
    case Reload(l, _, _) => l != k
    case _ => true
  }

  ghost predicate DirtyAt(s: State, k: string, place: Place) {
    k in s.cache && s.cache[k] == place && place in s.heap && s.heap[place].dirty
  }

  lemma StepKeepsDirty(s: State, ev: Event, t: State, k: string, place: Place)
    requires WellPlaced(s) && Step(s, ev, t) && DirtyAt(s, k, place) && KeepsObject(ev, k)
    ensures DirtyAt(t, k, place)
  {
    hide PeerKey, Written, StoredEntry, HasFields;
  }

  /** Once dirty, an entry stays dirty, even through the pass's own clearing, until it is deleted or replaced. */
  lemma {:induction false} DirtyStaysDirty(states: seq<State>, events: seq<Event>, i: nat, j: nat, k: string,
                                           place: Place)
    requires Run(states, events) && i <= j < |states| && DirtyAt(states[i], k, place)
    requires forall n :: i <= n < j ==> KeepsObject(events[n], k)
    ensures DirtyAt(states[j], k, place)
  {
    hide Step, DirtyAt, WellPlaced;
    if i < j {
      DirtyStaysDirty(states, events, i, j - 1, k, place);
      StepKeepsDirty(states[j - 1], events[j - 1], states[j], k, place);
    }
  }

  // ---- The two conditions on a reload are exact

  /** A reload keeps the clean entries in agreement exactly when it takes no address from the device. */
  lemma DeviceAddressKeepsIff(s: State, k: string, place: Place, wgIP: string, t: State)
    requires WellPlaced(s) && CleanAgrees(s) && Step(s, Reload(k, place, wgIP), t)
    ensures WellPlaced(t)
    ensures CleanAgrees(t) <==> PeerKey(k, WgIp) in s.store || wgIP == ""
  {
    hide PeerKey, HasFields;
    var e := StoredEntry(s.store, k, wgIP);
    assert t.heap[t.cache[k]] == e && !e.dirty;
    if PeerKey(k, WgIp) in s.store || wgIP == "" {
      forall f { ReloadedAgrees(s.store, k, wgIP, f); }
    } else {
      assert EntryField(e, WgIp) == wgIP && Lookup(t.store, PeerKey(k, WgIp)) == None;
    }
  }

  /**
    When a clean entry was reloaded while the pass still held the old object, the pass's write keeps the
    agreement exactly when the old object is harmless to it.
   */
  lemma StaleWriteKeepsIff(s: State, k: string, t: State)
    requires WellPlaced(s) && CleanAgrees(s) && Step(s, Write(k), t)
    requires k in s.cache && !s.heap[s.cache[k]].dirty
    ensures WellPlaced(t)
    ensures CleanAgrees(t) <==> Harmless(s.heap[s.pass.todo[k]], s.heap[s.cache[k]])
  {
    hide PeerKey, Written;
    var stale, entry := s.heap[s.pass.todo[k]], s.heap[s.cache[k]];
    forall l, f { WrittenField(s.store, k, stale, l, f); }
    forall f | IsCached(f) && EntryField(entry, f) != "" && EntryField(stale, f) != ""
      ensures Lookup(t.store, PeerKey(k, f)) == Some(EntryField(entry, f))
              <==> EntryField(entry, f) == EntryField(stale, f)
    {
    }
  }
}
