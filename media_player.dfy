/** The device manager of the Spotify media-player platform: it mirrors the
    playback devices an account currently reports as media-player entities,
    creating an entity for each newly reported device and marking unavailable,
    then forgetting, the entities of devices that are no longer reported. */
module MediaPlayer {
  import opened PyDict

  /** One record of the account's device list. */
  datatype Device = Device(id: string, name: string, deviceType: string)

  /** Stand-in for the owning Spotify account; only its name is used. */
  datatype SpotifyAccount = SpotifyAccount(name: string)

  /** Device types for which no media player is ever created. */
  const IGNORE_DEVICE_TYPES: seq<string> := ["CastAudio"]

  predicate Ignored(deviceType: string) {
    deviceType in IGNORE_DEVICE_TYPES
  }

  /** `{x["id"]: x for x in snapshot}`: the lookup built from a device list.
      Its keys are exactly the reported ids, in order of first appearance (see
      IndexByIdKeepsFirstSeenOrder), and when an id is reported more than once
      the LAST record for it is the one kept. */
  function IndexById(snapshot: seq<Device>): (lookup: Dict<string, Device>)
    ensures lookup.Valid()
    ensures forall id :: id in lookup.entries ==> lookup.entries[id].id == id && lookup.entries[id] in snapshot
    ensures forall i :: 0 <= i < |snapshot| ==> snapshot[i].id in lookup.entries
    ensures forall i :: 0 <= i < |snapshot| && (forall j :: i < j < |snapshot| ==> snapshot[j].id != snapshot[i].id)
              ==> lookup.entries[snapshot[i].id] == snapshot[i]
  {
    if snapshot == [] then Dict([], map[])
    else
      var last := snapshot[|snapshot| - 1];
      var prev := IndexById(snapshot[..|snapshot| - 1]);
      var lookup := Put(prev, last.id, last);
      IndexByIdStepCovers(snapshot, prev, lookup);
      IndexByIdStepLastWins(snapshot, prev, lookup);
      lookup
  }

  /** Every reported id is a key. */
  lemma IndexByIdStepCovers(snapshot: seq<Device>, prev: Dict<string, Device>, lookup: Dict<string, Device>)
    requires snapshot != [] && prev.Valid()
    requires var init := snapshot[..|snapshot| - 1]; forall i :: 0 <= i < |init| ==> init[i].id in prev.entries
    requires lookup == Put(prev, snapshot[|snapshot| - 1].id, snapshot[|snapshot| - 1])
    ensures forall i :: 0 <= i < |snapshot| ==> snapshot[i].id in lookup.entries
  {
    var last := snapshot[|snapshot| - 1];
    assert lookup.entries == prev.entries[last.id := last];
    forall i | 0 <= i < |snapshot| - 1 ensures snapshot[i].id in lookup.entries {
      assert snapshot[i] == snapshot[..|snapshot| - 1][i];
    }
  }

  /** The record stored for an id is the last one reported with it. */
  lemma IndexByIdStepLastWins(snapshot: seq<Device>, prev: Dict<string, Device>, lookup: Dict<string, Device>)
    requires snapshot != [] && prev.Valid()
    requires var init := snapshot[..|snapshot| - 1];
      && (forall i :: 0 <= i < |init| ==> init[i].id in prev.entries)
      && (forall i :: 0 <= i < |init| && (forall j :: i < j < |init| ==> init[j].id != init[i].id)
            ==> prev.entries[init[i].id] == init[i])
    requires lookup == Put(prev, snapshot[|snapshot| - 1].id, snapshot[|snapshot| - 1])
    requires forall i :: 0 <= i < |snapshot| ==> snapshot[i].id in lookup.entries
    ensures forall i :: 0 <= i < |snapshot| && (forall j :: i < j < |snapshot| ==> snapshot[j].id != snapshot[i].id)
              ==> lookup.entries[snapshot[i].id] == snapshot[i]
  {
    var init, last := snapshot[..|snapshot| - 1], snapshot[|snapshot| - 1];
    assert lookup.entries == prev.entries[last.id := last];
    forall i | 0 <= i < |snapshot| && (forall j :: i < j < |snapshot| ==> snapshot[j].id != snapshot[i].id)
      ensures lookup.entries[snapshot[i].id] == snapshot[i]
    {
      if i < |init| {
        assert snapshot[i] == init[i];
        forall j | i < j < |init| ensures init[j].id != init[i].id {
          assert snapshot[j] == init[j];
        }
      }
    }
  }

  /** Reading the device list further only ever appends ids to the lookup's
      key order: keys stay in the order in which ids are first reported. */
  lemma {:induction false} IndexByIdKeepsFirstSeenOrder(snapshot: seq<Device>, n: nat)
    requires n <= |snapshot|
    ensures IndexById(snapshot[..n]).keys <= IndexById(snapshot).keys
    decreases |snapshot| - n
  {
    if n < |snapshot| {
      var init := snapshot[..|snapshot| - 1];
      assert init[..n] == snapshot[..n];
      IndexByIdKeepsFirstSeenOrder(init, n);
    } else {
      assert snapshot[..n] == snapshot;
    }
  }

  /** The ids a lookup reports that are not tracked yet and whose type is not ignored. */
  ghost function Candidates(lookup: Dict<string, Device>, tracked: set<string>): set<string> {
    set id | id in lookup.entries && id !in tracked && !Ignored(lookup.entries[id].deviceType)
  }

  /** The ids for which an update creates and registers an entity, in the order
      in which the update visits them. */
  ghost function NewIds(lookup: Dict<string, Device>, tracked: set<string>): (added: seq<string>)
    requires lookup.Valid()
    ensures Distinct(added)
    ensures forall id :: id in added <==>
              id in lookup.entries && id !in tracked && !Ignored(lookup.entries[id].deviceType)
  {
    RestrictDistinct(lookup.keys, Candidates(lookup, tracked));
    Restrict(lookup.keys, Candidates(lookup, tracked))
  }

  /** A "CastAudio" device is never given an entity. */
  lemma CastAudioIsNeverAdded(lookup: Dict<string, Device>, tracked: set<string>)
    requires lookup.Valid()
    ensures forall id :: id in NewIds(lookup, tracked) ==> lookup.entries[id].deviceType != "CastAudio"
  {
  }

  /** The tracked ids, in dictionary order, after an update that read the
      lookup `current` starting from tracked ids `order`: the ids still
      reported keep their order and the newly created entries follow. Removal
      depends on absence alone; the type is checked only when adding. */
  ghost function UpdatedKeys(order: seq<string>, current: Dict<string, Device>): (keys: seq<string>)
    requires Distinct(order) && current.Valid()
    ensures Distinct(keys)
    ensures forall id :: id in keys <==>
              id in current.entries && (id in order || !Ignored(current.entries[id].deviceType))
  {
    var kept, added := Restrict(order, current.entries.Keys), NewIds(current, Elems(order));
    RestrictDistinct(order, current.entries.Keys);
    DistinctConcat(kept, added);
    kept + added
  }

  /** A second update with the same device list creates nothing, flags nothing
      and leaves the tracked ids as they are. */
  lemma {:induction false} UpdateIsIdempotent(order: seq<string>, current: Dict<string, Device>)
    requires Distinct(order) && current.Valid()
    ensures var next := UpdatedKeys(order, current);
      && NewIds(current, Elems(next)) == []
      && (forall id :: id in next ==> id in current.entries)
      && UpdatedKeys(next, current) == next
  {
    var next := UpdatedKeys(order, current);
    RestrictKeepsAll(next, current.entries.Keys);
    RestrictNone(current.keys, Candidates(current, Elems(next)));
  }

  /** `added` lists, in visiting order, the ids among the first `i` keys of
      `current` for which the first loop of an update creates an entity. */
  ghost predicate VisitedPrefix(current: Dict<string, Device>, tracked: set<string>, i: nat, added: seq<string>) {
    i <= |current.keys| && added == Restrict(current.keys[..i], Candidates(current, tracked))
  }

  /** Visiting the next key of `current` appends it to `added` exactly when it
      is a candidate; it was not visited before. */
  lemma VisitNext(current: Dict<string, Device>, tracked: set<string>, i: nat, added: seq<string>)
    requires current.Valid() && VisitedPrefix(current, tracked, i, added) && i < |current.keys|
    ensures current.keys[i] in current.entries && current.keys[i] !in added
    ensures forall id :: id in added ==> id in Candidates(current, tracked)
    ensures var id := current.keys[i];
      VisitedPrefix(current, tracked, i + 1, if id in Candidates(current, tracked) then added + [id] else added)
  {
    var keys, keep := current.keys, Candidates(current, tracked);
    assert keys[..i + 1] == keys[..i] + [keys[i]];
    assert keys[i] !in keys[..i];
    RestrictConcat(keys[..i], [keys[i]], keep);
    assert [keys[i]][..0] == [];
  }

  /** After the last key, `added` is the whole list of new ids. */
  lemma VisitedAll(current: Dict<string, Device>, tracked: set<string>, added: seq<string>)
    requires current.Valid() && VisitedPrefix(current, tracked, |current.keys|, added)
    ensures added == NewIds(current, tracked)
  {
    assert current.keys[..|current.keys|] == current.keys;
  }

  /** Keeping, of the tracked ids after the first loop, those `current`
      reports leaves exactly the ids of an update. */
  lemma ForgetVanishedKeys(order: seq<string>, current: Dict<string, Device>)
    requires Distinct(order) && current.Valid()
    ensures Restrict(order + NewIds(current, Elems(order)), current.entries.Keys) == UpdatedKeys(order, current)
  {
    var added := NewIds(current, Elems(order));
    RestrictConcat(order, added, current.entries.Keys);
    RestrictKeepsAll(added, current.entries.Keys);
  }

  /** Popping the ids the second loop lists keeps, in their order, exactly
      the entries whose ids `current` reports. */
  lemma ForgetVanishedEntries<V>(d: Dict<string, V>, current: Dict<string, Device>, remove: seq<string>, after: Dict<string, V>)
    requires d.Valid()
    requires remove == Restrict(d.keys, d.entries.Keys - current.entries.Keys)
    requires after.entries == d.entries - Elems(remove)
    requires after.keys == Restrict(d.keys, after.entries.Keys)
    ensures after.keys == Restrict(d.keys, current.entries.Keys)
    ensures forall id :: id in after.entries <==> id in d.entries && id in current.entries
  {
    assert after.entries.Keys == d.entries.Keys * current.entries.Keys;
    RestrictAgrees(d.keys, after.entries.Keys, current.entries.Keys);
  }

  /** A media-player entity for one Spotify device. */
  class SpotifyDevice {
    const account: SpotifyAccount
    const device: Device
    var isUnavailable: bool

    constructor (account: SpotifyAccount, device: Device)
      ensures this.account == account && this.device == device
      ensures !isUnavailable
    {
      this.account := account;
      this.device := device;
      isUnavailable := false;
    }
  }

  /** The registration calls made for the entities of `ids`, one call per
      entity, in the order of `ids`. */
  ghost function Registered(ids: seq<string>, entities: map<string, SpotifyDevice>): (calls: seq<seq<SpotifyDevice>>)
    requires forall id :: id in ids ==> id in entities
    ensures |calls| == |ids|
    ensures forall j :: 0 <= j < |ids| ==> calls[j] == [entities[ids[j]]]
  {
    if ids == [] then []
    else Registered(ids[..|ids| - 1], entities) + [[entities[ids[|ids| - 1]]]]
  }

  /** Registering one more entity appends one call. */
  lemma RegisteredSnoc(ids: seq<string>, entities: map<string, SpotifyDevice>, id: string, entity: SpotifyDevice)
    requires forall x :: x in ids ==> x in entities && x != id
    ensures Registered(ids + [id], entities[id := entity]) == Registered(ids, entities) + [[entity]]
  {
  }

  /** Only the entities of `ids` matter. */
  lemma RegisteredAgrees(ids: seq<string>, entities: map<string, SpotifyDevice>, entities': map<string, SpotifyDevice>)
    requires forall x :: x in ids ==> x in entities && x in entities' && entities[x] == entities'[x]
    ensures Registered(ids, entities) == Registered(ids, entities')
  {
  }

  /** Concatenation is associative. */
  lemma AppendAssoc<T>(a: seq<T>, b: seq<T>, c: seq<T>)
    ensures (a + b) + c == a + (b + c)
  {
  }

  /** The state the first loop of an update starts from: the lookup it
      visits, the owning account, the tracked entries and the registration
      calls made so far. */
  datatype Growth = Growth(current: Dict<string, Device>, account: SpotifyAccount,
                           start: Dict<string, SpotifyDevice>, prior: seq<seq<SpotifyDevice>>)
  {
    /** After visiting the first `i` keys, `added` lists the new ids in order,
        `d` is the start extended by their entities, built from their records
        for the account, and `calls` records one registration per new entity. */
    ghost predicate Grown(i: nat, added: seq<string>, d: Dict<string, SpotifyDevice>, calls: seq<seq<SpotifyDevice>>) {
      && current.Valid()
      && d.Valid()
      && VisitedPrefix(current, start.entries.Keys, i, added)
      && d.keys == start.keys + added
      && (forall id :: id in start.entries ==> id in d.entries && d.entries[id] == start.entries[id])
      && (forall id :: id in added ==>
            id in current.entries && id in d.entries &&
            d.entries[id].device == current.entries[id] && d.entries[id].account == account)
      && calls == prior + Registered(added, d.entries)
    }

    /** The next key is new to `d` and of a type that is not ignored exactly
        when it is a candidate; skipping a non-candidate keeps the state grown. */
    lemma Next(i: nat, added: seq<string>, d: Dict<string, SpotifyDevice>, calls: seq<seq<SpotifyDevice>>)
      requires start.Valid() && Grown(i, added, d, calls) && i < |current.keys|
      ensures current.keys[i] in current.entries
      ensures var id := current.keys[i];
        && (id in Candidates(current, start.entries.Keys) <==>
              !Ignored(current.entries[id].deviceType) && id !in d.entries)
        && (id !in Candidates(current, start.entries.Keys) ==> Grown(i + 1, added, d, calls))
    {
      VisitNext(current, start.entries.Keys, i, added);
      assert Elems(start.keys) == start.entries.Keys;
    }

    /** Tracking and registering a new entity for a candidate keeps the state grown. */
    lemma Track(i: nat, added: seq<string>, d: Dict<string, SpotifyDevice>, calls: seq<seq<SpotifyDevice>>,
                d': Dict<string, SpotifyDevice>, calls': seq<seq<SpotifyDevice>>)
      requires start.Valid() && Grown(i, added, d, calls) && i < |current.keys|
      requires var id := current.keys[i];
        && id in Candidates(current, start.entries.Keys) && id in d'.entries
        && d'.keys == d.keys + [id] && d'.entries == d.entries[id := d'.entries[id]]
        && d'.entries[id].device == current.entries[id] && d'.entries[id].account == account
        && calls' == calls + [[d'.entries[id]]]
      requires d'.Valid()
      ensures Grown(i + 1, added + [current.keys[i]], d', calls')
    {
      var id := current.keys[i];
      VisitNext(current, start.entries.Keys, i, added);
      RegisteredSnoc(added, d.entries, id, d'.entries[id]);
      AppendAssoc(prior, Registered(added, d.entries), [[d'.entries[id]]]);
      AppendAssoc(start.keys, added, [id]);
    }

    /** Once every key is visited, `added` is the whole list of new ids. */
    lemma Done(added: seq<string>, d: Dict<string, SpotifyDevice>, calls: seq<seq<SpotifyDevice>>)
      requires Grown(|current.keys|, added, d, calls)
      ensures added == NewIds(current, start.entries.Keys)
    {
      VisitedAll(current, start.entries.Keys, added);
    }
  }

  class DeviceManager {
    const account: SpotifyAccount
    /** The entity of every currently tracked device, by device id. */
    var trackedDevices: Dict<string, SpotifyDevice>
    /** The argument of every call made so far to the entity-registration callback. */
    var registrations: seq<seq<SpotifyDevice>>

    /** Every tracked id owns an entity of its own. */
    ghost predicate Valid()
      reads this
    {
      && trackedDevices.Valid()
      && forall a, b :: a in trackedDevices.entries && b in trackedDevices.entries && a != b ==>
        trackedDevices.entries[a] != trackedDevices.entries[b]
    }

    constructor (account: SpotifyAccount)
      ensures Valid() && this.account == account
      ensures trackedDevices.keys == [] && trackedDevices.entries == map[]
      ensures registrations == []
    {
      this.account := account;
      trackedDevices := Dict([], map[]);
      registrations := [];
    }

    /** `async_update`: reconciles the tracked entities with the device list
        `snapshot` that the account has just reported. */
    method AsyncUpdate(snapshot: seq<Device>)
      requires Valid()
      modifies this, trackedDevices.entries.Values
      ensures Valid()
      ensures trackedDevices.keys == UpdatedKeys(old(trackedDevices.keys), IndexById(snapshot))
      // a device still reported keeps its very entity, untouched
      ensures forall id :: id in old(trackedDevices.entries) && id in IndexById(snapshot).entries ==>
                trackedDevices.entries[id] == old(trackedDevices.entries[id]) &&
                trackedDevices.entries[id].isUnavailable == old(trackedDevices.entries[id].isUnavailable)
      // a device no longer reported has its entity flagged unavailable
      ensures forall id :: id in old(trackedDevices.entries) && id !in IndexById(snapshot).entries ==>
                old(trackedDevices.entries[id]).isUnavailable
      // every newly tracked device gets a fresh, available entity built from its last record
      ensures forall id :: id in NewIds(IndexById(snapshot), old(trackedDevices.entries.Keys)) ==>
                id in trackedDevices.entries &&
                fresh(trackedDevices.entries[id]) && !trackedDevices.entries[id].isUnavailable &&
                trackedDevices.entries[id].device == IndexById(snapshot).entries[id] &&
                trackedDevices.entries[id].account == account
      // and is registered by a call of its own, in visiting order
      ensures var added := NewIds(IndexById(snapshot), old(trackedDevices.entries.Keys));
        && (forall id :: id in added ==> id in trackedDevices.entries)
        && registrations == old(registrations) + Registered(added, trackedDevices.entries)
    {
      var current := IndexById(snapshot);
      ghost var before := trackedDevices;
      AddNewDevices(current);
      ghost var mid := trackedDevices;
      RetireVanished(current);
      assert Elems(before.keys) == before.entries.Keys;
      ForgetVanishedKeys(before.keys, current);
      RegisteredAgrees(NewIds(current, before.entries.Keys), mid.entries, trackedDevices.entries);
    }

    /** The second and third loops of `async_update`: the entity of every
        tracked id that `current` lacks is flagged unavailable and the id is
        forgotten; the other ids keep their entities, flags and order. */
    method RetireVanished(current: Dict<string, Device>)
      requires Valid()
      modifies this, trackedDevices.entries.Values
      ensures Valid()
      ensures trackedDevices.keys == Restrict(old(trackedDevices.keys), current.entries.Keys)
      ensures forall id :: id in trackedDevices.entries <==> id in old(trackedDevices.entries) && id in current.entries
      ensures forall id :: id in trackedDevices.entries ==>
                trackedDevices.entries[id] == old(trackedDevices.entries[id]) &&
                trackedDevices.entries[id].isUnavailable == old(trackedDevices.entries[id].isUnavailable)
      ensures forall id :: id in old(trackedDevices.entries) && id !in current.entries ==>
                old(trackedDevices.entries[id]).isUnavailable
      ensures registrations == old(registrations)
    {
      ghost var start := trackedDevices;
      var remove := MarkVanishedUnavailable(current);
      RestrictDistinct(start.keys, start.entries.Keys - current.entries.Keys);
      ForgetDevices(remove);
      ForgetVanishedEntries(start, current, remove, trackedDevices);
    }

    /** The first loop of `async_update`: every id of `current`, in order,
        whose record is of a type that is not ignored and that is not tracked
        yet gets a new entity, which is tracked and registered on its own. */
    method AddNewDevices(current: Dict<string, Device>)
      requires Valid() && current.Valid()
      modifies this
      ensures Valid()
      ensures trackedDevices.keys == old(trackedDevices.keys) + NewIds(current, old(trackedDevices.entries.Keys))
      ensures forall id :: id in old(trackedDevices.entries) ==>
                id in trackedDevices.entries && trackedDevices.entries[id] == old(trackedDevices.entries[id]) &&
                trackedDevices.entries[id].isUnavailable == old(trackedDevices.entries[id].isUnavailable)
      ensures var added := NewIds(current, old(trackedDevices.entries.Keys));
        && (forall id :: id in added ==>
              id in trackedDevices.entries &&
              fresh(trackedDevices.entries[id]) && !trackedDevices.entries[id].isUnavailable &&
              trackedDevices.entries[id].device == current.entries[id] &&
              trackedDevices.entries[id].account == account)
        && registrations == old(registrations) + Registered(added, trackedDevices.entries)
    {
      ghost var start := Growth(current, account, old(trackedDevices), old(registrations));
      ghost var added: seq<string> := [];
      var i := 0;
      while i < |current.keys|
        invariant Valid()
        invariant start.Grown(i, added, trackedDevices, registrations)
        invariant forall id :: id in added ==>
                    fresh(trackedDevices.entries[id]) && !trackedDevices.entries[id].isUnavailable
      {
        start.Next(i, added, trackedDevices, registrations);
        var id := current.keys[i];
        var device := current.entries[id];
        if !Ignored(device.deviceType) && id !in trackedDevices.entries {
          ghost var before, calls := trackedDevices, registrations;
          TrackNewDevice(id, device);
          start.Track(i, added, before, calls, trackedDevices, registrations);
          added := added + [id];
        }
        i := i + 1;
      }
      start.Done(added, trackedDevices, registrations);
    }

    /** The body of the first loop for a new device: a new entity for
        `device`, tracked under `id` and registered with a call of its own. */
    method TrackNewDevice(id: string, device: Device)
      requires Valid() && id !in trackedDevices.entries
      modifies this
      ensures Valid()
      ensures trackedDevices.keys == old(trackedDevices.keys) + [id]
      ensures id in trackedDevices.entries && fresh(trackedDevices.entries[id])
      ensures trackedDevices.entries == old(trackedDevices.entries)[id := trackedDevices.entries[id]]
      ensures trackedDevices.entries[id].device == device && trackedDevices.entries[id].account == account
      ensures !trackedDevices.entries[id].isUnavailable
      ensures registrations == old(registrations) + [[trackedDevices.entries[id]]]
    {
      var newDevice := new SpotifyDevice(account, device);
      trackedDevices := Put(trackedDevices, id, newDevice);
      registrations := registrations + [[newDevice]];
    }

    /** The second loop of `async_update`: the entity of every tracked id that
        `current` lacks is flagged unavailable, and those ids are returned in
        tracking order; no other entity changes. */
    method MarkVanishedUnavailable(current: Dict<string, Device>) returns (remove: seq<string>)
      requires Valid()
      modifies trackedDevices.entries.Values
      ensures remove == Restrict(trackedDevices.keys, trackedDevices.entries.Keys - current.entries.Keys)
      ensures forall id :: id in trackedDevices.entries ==>
                trackedDevices.entries[id].isUnavailable ==
                  (old(trackedDevices.entries[id].isUnavailable) || id !in current.entries)
    {
      ghost var gone := trackedDevices.entries.Keys - current.entries.Keys;
      remove := [];
      var j := 0;
      while j < |trackedDevices.keys|
        invariant 0 <= j <= |trackedDevices.keys|
        invariant remove == Restrict(trackedDevices.keys[..j], gone)
        invariant forall id :: id in trackedDevices.entries ==>
                    trackedDevices.entries[id].isUnavailable ==
                      (old(trackedDevices.entries[id].isUnavailable) || id in remove)
      {
        var id := trackedDevices.keys[j];
        assert trackedDevices.keys[..j + 1] == trackedDevices.keys[..j] + [id];
        assert id !in trackedDevices.keys[..j];
        if id !in current.entries {
          remove := remove + [id];
          var entity := trackedDevices.entries[id];
          entity.isUnavailable := true;
        }
        j := j + 1;
      }
      assert trackedDevices.keys[..j] == trackedDevices.keys;
    }

    /** The third loop of `async_update`: pops every id of `remove`; the other
        entries keep their entities and their order. */
    method ForgetDevices(remove: seq<string>)
      requires Valid()
      requires Distinct(remove) && forall id :: id in remove ==> id in trackedDevices.entries
      modifies this
      ensures Valid()
      ensures trackedDevices.entries == old(trackedDevices.entries) - Elems(remove)
      ensures trackedDevices.keys == Restrict(old(trackedDevices.keys), trackedDevices.entries.Keys)
      ensures registrations == old(registrations)
    {
      ghost var start := trackedDevices;
      RestrictKeepsAll(start.keys, start.entries.Keys);
      var k := 0;
      while k < |remove|
        invariant PoppedPrefix(start, remove, k, trackedDevices)
        invariant Valid()
        invariant registrations == old(registrations)
      {
        PopNext(start, remove, k, trackedDevices);
        trackedDevices := Pop(trackedDevices, remove[k]);
        k := k + 1;
      }
      assert remove[..k] == remove;
    }
  }
}
