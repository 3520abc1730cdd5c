/** The device list of a tracked user: which devices an update may add, given everything that was ever
    seen for that user. */
module DeviceKeys {

  type UserId = string
  type DeviceId = string
  type KeyId = string
  type Key = string
  type Signature = string
  type Signatures = map<UserId, map<KeyId, Signature>>

  datatype Device = Device(deviceId: DeviceId, keys: map<KeyId, Key>, signatures: Signatures)

  datatype CrossSigningKeys = CrossSigningKeys(keys: map<KeyId, Key>, signatures: Signatures)

  /** What a signature can be made over. */
  datatype Signed = SignedDevice(device: Device) | SignedCross(cross: CrossSigningKeys)

  /** Whether a key signed something; cryptography is not looked into. */
  type Verify = (Key, Signed, Signature) -> bool

  datatype UserKeyCache = UserKeyCache(
    deviceKeys: map<DeviceId, Device>,
    masterKeys: CrossSigningKeys,
    userSigningKeys: CrossSigningKeys,
    selfSigningKeys: CrossSigningKeys,
    updatedAt: string,
    lastChanged: string,
    masterKeyChanged: bool,
    seenDeviceKeys: set<Key>,
    seenDeviceIds: set<DeviceId>)

  /** One user's part of a key query; the devices come in the order of their ids. */
  datatype Update = Update(
    devices: seq<(DeviceId, Device)>,
    masterKeys: CrossSigningKeys,
    userSigningKeys: CrossSigningKeys,
    selfSigningKeys: CrossSigningKeys)

  /** Some key of the device, or its id, was seen before. A device without keys never counts as seen. */
  predicate Reused(c: UserKeyCache, id: DeviceId, d: Device) {
    exists keyId :: keyId in d.keys && (d.keys[keyId] in c.seenDeviceKeys || id in c.seenDeviceIds)
  }

  /** The device names itself and carries a valid signature by its own signing key. */
  predicate SelfSigned(verify: Verify, user: UserId, id: DeviceId, d: Device) {
    var signingKey := "ed25519:" + d.deviceId;
    && id == d.deviceId
    && user in d.signatures && signingKey in d.signatures[user]
    && signingKey in d.keys && "curve25519:" + id in d.keys
    && verify(d.keys[signingKey], SignedDevice(d), d.signatures[user][signingKey])
  }

  function WithSeen(c: UserKeyCache, id: DeviceId, d: Device): UserKeyCache {
    c.(seenDeviceKeys := c.seenDeviceKeys + d.keys.Values, seenDeviceIds := c.seenDeviceIds + {id})
  }

  function WithDevice(c: UserKeyCache, id: DeviceId, d: Device): UserKeyCache {
    c.(deviceKeys := c.deviceKeys[id := d])
  }

  /** One device of an update; before is the device list the update replaces. A device that is new
      but not properly signed is skipped without being recorded as seen. */
  function AddDevice(verify: Verify, user: UserId, before: map<DeviceId, Device>, c: UserKeyCache, id: DeviceId,
                     d: Device): UserKeyCache {
    if id in before && before[id].keys == d.keys then WithSeen(WithDevice(c, id, d), id, d)
    else if Reused(c, id, d) || id in before then WithSeen(c, id, d)
    else if SelfSigned(verify, user, id, d) then WithSeen(WithDevice(c, id, d), id, d)
    else c
  }

  ghost function AddDevices(verify: Verify, user: UserId, before: map<DeviceId, Device>, c: UserKeyCache,
                            devices: seq<(DeviceId, Device)>): UserKeyCache {
    if devices == [] then c
    else
      var last := devices[|devices| - 1];
      AddDevice(verify, user, before, AddDevices(verify, user, before, c, devices[..|devices| - 1]), last.0, last.1)
  }

  /** The entry as an update finds it before the devices are gone through. */
  function WithIdentity(c: UserKeyCache, u: Update): UserKeyCache {
    c.(deviceKeys := map[],
       masterKeyChanged := c.masterKeyChanged ||
                           (c.masterKeys.keys != map[] && u.masterKeys.keys != c.masterKeys.keys),
       masterKeys := u.masterKeys, userSigningKeys := u.userSigningKeys, selfSigningKeys := u.selfSigningKeys)
  }

  predicate Skipped(c: UserKeyCache, token: string) {
    c.lastChanged != "" && c.lastChanged != token
  }

  /** An update of an entry that exists. */
  ghost function Merged(verify: Verify, user: UserId, c: UserKeyCache, u: Update, token: string): UserKeyCache {
    if Skipped(c, token) then c
    else AddDevices(verify, user, c.deviceKeys, WithIdentity(c, u), u.devices).(updatedAt := token)
  }

  ghost function DeviceMap(devices: seq<(DeviceId, Device)>): map<DeviceId, Device> {
    if devices == [] then map[]
    else DeviceMap(devices[..|devices| - 1])[devices[|devices| - 1].0 := devices[|devices| - 1].1]
  }

  /** The entry an update creates for a user without one: nothing is checked or recorded as seen. */
  ghost function FirstSeen(u: Update, token: string): UserKeyCache {
    UserKeyCache(DeviceMap(u.devices), u.masterKeys, u.userSigningKeys, u.selfSigningKeys, token, "", false, {}, {})
  }

  // What one update stores

  ghost predicate ListsOnce(u: Update) {
    forall i, j :: 0 <= i < j < |u.devices| ==> u.devices[i].0 != u.devices[j].0
  }

  /** The entry after the first n devices of an update. */
  ghost function After(verify: Verify, user: UserId, c: UserKeyCache, u: Update, token: string, n: nat): UserKeyCache
    requires n <= |u.devices|
  {
    Merged(verify, user, c, u.(devices := u.devices[..n]), token)
  }

  /** A key of the device, or its id, is recorded as seen; a device without keys never counts as seen. */
  ghost predicate SeenBefore(c: UserKeyCache, id: DeviceId, d: Device) {
    exists key :: key in d.keys.Values && (key in c.seenDeviceKeys || id in c.seenDeviceIds)
  }

  /** Whether a listed device is taken: one with a known id if its keys are unchanged, one with a new id
      if it is signed by itself and neither its id nor a key of it was seen before. */
  ghost predicate Taken(verify: Verify, user: UserId, c: UserKeyCache, before: UserKeyCache, id: DeviceId, d: Device) {
    if id in c.deviceKeys then c.deviceKeys[id].keys == d.keys
    else SelfSigned(verify, user, id, d) && !SeenBefore(before, id, d)
  }

  /** Whether a listed device is recorded as seen: unless it is new, not seen before and not signed. */
  ghost predicate Noted(verify: Verify, user: UserId, c: UserKeyCache, before: UserKeyCache, id: DeviceId, d: Device) {
    id in c.deviceKeys || SeenBefore(before, id, d) || SelfSigned(verify, user, id, d)
  }

  ghost predicate TakenAt(verify: Verify, user: UserId, c: UserKeyCache, u: Update, token: string, i: nat)
    requires i < |u.devices|
  {
    Taken(verify, user, c, After(verify, user, c, u, token, i), u.devices[i].0, u.devices[i].1)
  }

  ghost predicate NotedAt(verify: Verify, user: UserId, c: UserKeyCache, u: Update, token: string, i: nat)
    requires i < |u.devices|
  {
    Noted(verify, user, c, After(verify, user, c, u, token, i), u.devices[i].0, u.devices[i].1)
  }

  ghost predicate Has(devices: map<DeviceId, Device>, id: DeviceId, d: Device) {
    id in devices && devices[id] == d
  }

  lemma AfterStep(verify: Verify, user: UserId, c: UserKeyCache, u: Update, token: string, n: nat)
    requires !Skipped(c, token) && n < |u.devices|
    ensures var before, after := After(verify, user, c, u, token, n), After(verify, user, c, u, token, n + 1);
            var (id, d) := u.devices[n];
            && after.deviceKeys == (if TakenAt(verify, user, c, u, token, n) then before.deviceKeys[id := d]
                                    else before.deviceKeys)
            && (if NotedAt(verify, user, c, u, token, n)
                then && after.seenDeviceIds == before.seenDeviceIds + {id}
                     && after.seenDeviceKeys == before.seenDeviceKeys + d.keys.Values
                else after.seenDeviceIds == before.seenDeviceIds && after.seenDeviceKeys == before.seenDeviceKeys)
  {
    hide SelfSigned, Reused, SeenBefore;
    var front := u.devices[..n];
    assert u.devices[..n + 1][..n] == front;
    var before := AddDevices(verify, user, c.deviceKeys, WithIdentity(c, u), front);
    var (id, d) := u.devices[n];
    assert AddDevices(verify, user, c.deviceKeys, WithIdentity(c, u), u.devices[..n + 1]) ==
           AddDevice(verify, user, c.deviceKeys, before, id, d);
    ReusedIsSeen(before, id, d);
    SameSeen(before, token, id, d);
  }

  lemma SameSeen(c: UserKeyCache, token: string, id: DeviceId, d: Device)
    ensures SeenBefore(c.(updatedAt := token), id, d) <==> SeenBefore(c, id, d)
  {
  }

  /** Which devices are stored after an update: exactly the listed ones that are taken, each as listed.
      What counts as seen includes what the update listed before. */
  lemma StoredExactly(verify: Verify, user: UserId, c: UserKeyCache, u: Update, token: string, id: DeviceId, d: Device)
    requires !Skipped(c, token) && ListsOnce(u)
    ensures Has(Merged(verify, user, c, u, token).deviceKeys, id, d) <==>
              exists i :: 0 <= i < |u.devices| && u.devices[i] == (id, d) && TakenAt(verify, user, c, u, token, i)
  {
    StoredAfter(verify, user, c, u, token, |u.devices|, id, d);
    assert u.(devices := u.devices[..|u.devices|]) == u;
  }

  lemma {:induction false} StoredAfter(verify: Verify, user: UserId, c: UserKeyCache, u: Update, token: string, n: nat,
                                       id: DeviceId, d: Device)
    requires !Skipped(c, token) && ListsOnce(u) && n <= |u.devices|
    ensures Has(After(verify, user, c, u, token, n).deviceKeys, id, d) <==>
              exists i :: 0 <= i < n && u.devices[i] == (id, d) && TakenAt(verify, user, c, u, token, i)
    ensures id in After(verify, user, c, u, token, n).deviceKeys ==> exists i :: 0 <= i < n && u.devices[i].0 == id
  {
    if n == 0 {
      NothingYet(verify, user, c, u, token);
    } else {
      hide After, TakenAt, NotedAt;
      StoredAfter(verify, user, c, u, token, n - 1, id, d);
      AfterStep(verify, user, c, u, token, n - 1);
    }
  }

  lemma NothingYet(verify: Verify, user: UserId, c: UserKeyCache, u: Update, token: string)
    requires !Skipped(c, token)
    ensures var start := After(verify, user, c, u, token, 0);
            && start.deviceKeys == map[]
            && start.seenDeviceIds == c.seenDeviceIds && start.seenDeviceKeys == c.seenDeviceKeys
  {
  }

  /** What is recorded as seen after an update, in addition to what was before: the ids and keys of the
      listed devices that are noted. */
  lemma {:induction false} SeenAfter(verify: Verify, user: UserId, c: UserKeyCache, u: Update, token: string, n: nat)
    requires !Skipped(c, token) && n <= |u.devices|
    ensures var after := After(verify, user, c, u, token, n);
            && (forall id :: id in after.seenDeviceIds <==>
                  || id in c.seenDeviceIds
                  || exists i :: 0 <= i < n && u.devices[i].0 == id && NotedAt(verify, user, c, u, token, i))
            && (forall key :: key in after.seenDeviceKeys <==>
                  || key in c.seenDeviceKeys
                  || exists i :: 0 <= i < n && key in u.devices[i].1.keys.Values
                                 && NotedAt(verify, user, c, u, token, i))
  {
    if n == 0 {
      NothingYet(verify, user, c, u, token);
    } else {
      hide After, TakenAt, NotedAt;
      SeenAfter(verify, user, c, u, token, n - 1);
      AfterStep(verify, user, c, u, token, n - 1);
    }
  }

  /** No key is in two listed devices. */
  ghost predicate KeysListedOnce(u: Update) {
    forall i, j, key :: 0 <= i < j < |u.devices| && key in u.devices[i].1.keys.Values ==>
      key !in u.devices[j].1.keys.Values
  }

  /** The same for an update in which no two devices share a key, from the entry and the update alone. */
  lemma StoredFromEntry(verify: Verify, user: UserId, c: UserKeyCache, u: Update, token: string, i: nat)
    requires !Skipped(c, token) && ListsOnce(u) && KeysListedOnce(u) && i < |u.devices|
    ensures var (id, d) := u.devices[i];
            Has(Merged(verify, user, c, u, token).deviceKeys, id, d) <==>
              if id in c.deviceKeys then c.deviceKeys[id].keys == d.keys
              else SelfSigned(verify, user, id, d) && !SeenBefore(c, id, d)
  {
    var (id, d) := u.devices[i];
    StoredExactly(verify, user, c, u, token, id, d);
    SeenAfter(verify, user, c, u, token, i);
    hide SelfSigned, Merged, After;
    var before := After(verify, user, c, u, token, i);
    assert id in before.seenDeviceIds <==> id in c.seenDeviceIds;
    assert forall key :: key in d.keys.Values ==> (key in before.seenDeviceKeys <==> key in c.seenDeviceKeys);
    assert SeenBefore(before, id, d) <==> SeenBefore(c, id, d);
  }

  /** A device stored under an id that was not stored before names that id, has an identity key, and is
      signed by its own signing key. */
  lemma NewDevicesAreSigned(verify: Verify, user: UserId, c: UserKeyCache, u: Update, token: string, id: DeviceId,
                            d: Device)
    requires !Skipped(c, token) && ListsOnce(u) && id !in c.deviceKeys
    requires Has(Merged(verify, user, c, u, token).deviceKeys, id, d)
    ensures d.deviceId == id && "curve25519:" + id in d.keys && "ed25519:" + id in d.keys
    ensures exists signature ::
              && user in d.signatures && ("ed25519:" + id, signature) in d.signatures[user].Items
              && verify(d.keys["ed25519:" + id], SignedDevice(d), signature)
  {
    StoredExactly(verify, user, c, u, token, id, d);
    hide Merged, After;
    var signing := "ed25519:" + id;
    assert SelfSigned(verify, user, id, d);
    assert (signing, d.signatures[user][signing]) in d.signatures[user].Items;
  }

  /** What an update does to the rest of an entry: the identity keys are those of the update, and a master
      key that replaces another one leaves a mark that stays. */
  lemma {:induction false} IdentityAfter(verify: Verify, user: UserId, c: UserKeyCache, u: Update, token: string)
    ensures var r := Merged(verify, user, c, u, token);
            if c.lastChanged != "" && c.lastChanged != token then r == c
            else && r.masterKeys == u.masterKeys && r.userSigningKeys == u.userSigningKeys
                 && r.selfSigningKeys == u.selfSigningKeys && r.updatedAt == token && r.lastChanged == c.lastChanged
                 && (r.masterKeyChanged <==>
                       c.masterKeyChanged || (c.masterKeys.keys != map[] && c.masterKeys.keys != u.masterKeys.keys))
  {
    if !Skipped(c, token) {
      DevicesKeepIdentity(verify, user, c.deviceKeys, WithIdentity(c, u), u.devices);
    }
  }

  lemma {:induction false} DevicesKeepIdentity(verify: Verify, user: UserId, before: map<DeviceId, Device>,
                                               c: UserKeyCache,
                                               devices: seq<(DeviceId, Device)>)
    ensures var r := AddDevices(verify, user, before, c, devices);
            r == c.(deviceKeys := r.deviceKeys, seenDeviceIds := r.seenDeviceIds, seenDeviceKeys := r.seenDeviceKeys)
  {
    if devices != [] {
      DevicesKeepIdentity(verify, user, before, c, devices[..|devices| - 1]);
    }
  }

  /** What an update stores for a user without an entry: every listed device, unchecked and unrecorded. */
  lemma FirstSeenStores(u: Update, token: string, id: DeviceId, d: Device)
    requires ListsOnce(u)
    ensures Has(FirstSeen(u, token).deviceKeys, id, d) <==> (id, d) in u.devices
    ensures var r := FirstSeen(u, token);
            && r.seenDeviceIds == {} && r.seenDeviceKeys == {} && !r.masterKeyChanged && r.updatedAt == token
            && r.masterKeys == u.masterKeys && r.userSigningKeys == u.userSigningKeys
            && r.selfSigningKeys == u.selfSigningKeys
  {
    DeviceMapHas(u.devices, id, d);
  }

  lemma {:induction false} DeviceMapHas(devices: seq<(DeviceId, Device)>, id: DeviceId, d: Device)
    requires forall i, j :: 0 <= i < j < |devices| ==> devices[i].0 != devices[j].0
    ensures Has(DeviceMap(devices), id, d) <==> (id, d) in devices
  {
    if devices != [] {
      var front, last := devices[..|devices| - 1], devices[|devices| - 1];
      DeviceMapHas(front, id, d);
      forall x | x in front ensures x.0 != last.0 {
        var i :| 0 <= i < |front| && front[i] == x;
        assert devices[i].0 != devices[|front|].0;
      }
      assert (id, d) in devices <==> (id, d) in front || (id, d) == last;
    }
  }

  lemma ReusedIsSeen(c: UserKeyCache, id: DeviceId, d: Device)
    ensures Reused(c, id, d) <==> SeenBefore(c, id, d)
  {
    if Reused(c, id, d) {
      var keyId :| keyId in d.keys && (d.keys[keyId] in c.seenDeviceKeys || id in c.seenDeviceIds);
      assert d.keys[keyId] in d.keys.Values;
    }
  }

  // No reuse, ever

  /** For every device that was ever stored, the keys it was stored with. */
  type History = map<DeviceId, map<KeyId, Key>>

  ghost predicate Remembers(h: History, devices: map<DeviceId, Device>) {
    forall id :: id in devices ==> id in h && h[id] == devices[id].keys
  }

  ghost predicate AllSeen(h: History, c: UserKeyCache) {
    forall id :: id in h ==> id in c.seenDeviceIds && h[id].Values <= c.seenDeviceKeys
  }

  ghost predicate KeysApart(h: History) {
    forall a, b :: a in h && b in h && a != b ==> h[a].Values !! h[b].Values
  }

  ghost predicate Recorded(c: UserKeyCache, h: History) {
    Remembers(h, c.deviceKeys) && AllSeen(h, c) && KeysApart(h)
  }

  ghost predicate Extends(h: History, h': History) {
    forall id :: id in h ==> id in h' && h'[id] == h[id]
  }

  lemma SelfSignedHasKey(verify: Verify, user: UserId, id: DeviceId, d: Device)
    ensures SelfSigned(verify, user, id, d) ==> "curve25519:" + id in d.keys
  {
  }

  lemma AddDeviceRecorded(verify: Verify, user: UserId, before: map<DeviceId, Device>, c: UserKeyCache,
                          id: DeviceId, d: Device, h: History)
    returns (h': History)
    requires Recorded(c, h) && Remembers(h, before)
    ensures Recorded(AddDevice(verify, user, before, c, id, d), h') && Extends(h, h')
  {
    hide SelfSigned, Recorded;
    h' := h;
    if id in before && before[id].keys == d.keys {
      KnownRecorded(c, id, d, h);
      SeenRecorded(WithDevice(c, id, d), id, d, h);
    } else if Reused(c, id, d) || id in before {
      SeenRecorded(c, id, d, h);
    } else if SelfSigned(verify, user, id, d) {
      SelfSignedHasKey(verify, user, id, d);
      h' := NewRecorded(c, id, d, h);
    }
  }

  lemma SeenRecorded(c: UserKeyCache, id: DeviceId, d: Device, h: History)
    requires Recorded(c, h)
    ensures Recorded(WithSeen(c, id, d), h)
  {
  }

  lemma KnownRecorded(c: UserKeyCache, id: DeviceId, d: Device, h: History)
    requires Recorded(c, h) && id in h && h[id] == d.keys
    ensures Recorded(WithDevice(c, id, d), h)
  {
  }

  lemma NewRecorded(c: UserKeyCache, id: DeviceId, d: Device, h: History) returns (h': History)
    requires Recorded(c, h) && !Reused(c, id, d) && "curve25519:" + id in d.keys
    ensures Recorded(WithSeen(WithDevice(c, id, d), id, d), h') && Extends(h, h')
  {
    h' := h[id := d.keys];
    assert id !in h && d.keys.Values !! c.seenDeviceKeys;
    forall a | a in h ensures h[a].Values !! d.keys.Values {
    }
  }

  lemma {:induction false} AddDevicesRecorded(verify: Verify, user: UserId, before: map<DeviceId, Device>,
                                              c: UserKeyCache,
                                              devices: seq<(DeviceId, Device)>, h: History)
    returns (h': History)
    requires Recorded(c, h) && Remembers(h, before)
    ensures Recorded(AddDevices(verify, user, before, c, devices), h') && Extends(h, h')
  {
    if devices == [] {
      h' := h;
    } else {
      var front, last := devices[..|devices| - 1], devices[|devices| - 1];
      h' := AddDevicesRecorded(verify, user, before, c, front, h);
      h' := AddDeviceRecorded(verify, user, before, AddDevices(verify, user, before, c, front), last.0, last.1, h');
    }
  }

  lemma MergedRecorded(verify: Verify, user: UserId, c: UserKeyCache, u: Update, token: string, h: History)
    returns (h': History)
    requires Recorded(c, h)
    ensures Recorded(Merged(verify, user, c, u, token), h') && Extends(h, h')
  {
    h' := h;
    if !Skipped(c, token) {
      h' := AddDevicesRecorded(verify, user, c.deviceKeys, WithIdentity(c, u), u.devices, h);
    }
  }

  /** What happens to the entry of a tracked user. */
  datatype Step = Queried(token: string, update: Update) | OutOfDate(token: string)

  ghost function Apply(verify: Verify, user: UserId, c: UserKeyCache, step: Step): UserKeyCache {
    match step
    case Queried(token, update) => Merged(verify, user, c, update, token)
    case OutOfDate(token) => c.(lastChanged := token)
  }

  ghost function ApplyAll(verify: Verify, user: UserId, c: UserKeyCache, run: seq<Step>): UserKeyCache {
    if run == [] then c
    else Apply(verify, user, ApplyAll(verify, user, c, run[..|run| - 1]), run[|run| - 1])
  }

  lemma {:induction false} Histories(verify: Verify, user: UserId, c: UserKeyCache, run: seq<Step>, i: nat)
    returns (hi: History, h: History)
    requires c.deviceKeys == map[] && i <= |run|
    ensures Recorded(ApplyAll(verify, user, c, run[..i]), hi) && Recorded(ApplyAll(verify, user, c, run), h) &&
              Extends(hi, h)
  {
    if i == |run| {
      assert run[..i] == run;
      if run == [] {
        hi, h := map[], map[];
      } else {
        var before, h0 := Histories(verify, user, c, run[..|run| - 1], i - 1);
        h := StepRecorded(verify, user, ApplyAll(verify, user, c, run[..|run| - 1]), run[|run| - 1], h0);
        hi := h;
      }
    } else {
      var front := run[..|run| - 1];
      assert front[..i] == run[..i];
      hi, h := Histories(verify, user, c, front, i);
      h := StepRecorded(verify, user, ApplyAll(verify, user, c, front), run[|run| - 1], h);
    }
  }

  lemma StepRecorded(verify: Verify, user: UserId, c: UserKeyCache, step: Step, h: History) returns (h': History)
    requires Recorded(c, h)
    ensures Recorded(Apply(verify, user, c, step), h') && Extends(h, h')
  {
    match step
    case Queried(token, update) => h' := MergedRecorded(verify, user, c, update, token, h);
    case OutOfDate(token) => h' := h;
  }

  /** No device id has two sets of keys, and no key value two device ids. */
  ghost predicate Apart(a: map<DeviceId, Device>, b: map<DeviceId, Device>) {
    && (forall id :: id in a && id in b ==> a[id].keys == b[id].keys)
    && (forall x, y, key :: x in a && y in b && key in a[x].keys.Values && key in b[y].keys.Values ==> x == y)
  }

  /** Over any run from an entry without devices, a device id is only ever stored with one set of keys
      and a key value only ever for one device id, however often devices disappear and come back. */
  lemma NoReuse(verify: Verify, user: UserId, c: UserKeyCache, run: seq<Step>, i: nat, j: nat)
    requires c.deviceKeys == map[] && i <= j <= |run|
    ensures Apart(ApplyAll(verify, user, c, run[..i]).deviceKeys, ApplyAll(verify, user, c, run[..j]).deviceKeys)
  {
    assert run[..j][..i] == run[..i];
    var hi, hj := Histories(verify, user, c, run[..j], i);
  }

  // Users without an entry

  /** No run from the entry reuses an id or a key. */
  ghost predicate NeverReuses(verify: Verify, user: UserId, c: UserKeyCache) {
    forall run: seq<Step>, i: nat, j: nat :: i <= j <= |run| ==>
      Apart(ApplyAll(verify, user, c, run[..i]).deviceKeys, ApplyAll(verify, user, c, run[..j]).deviceKeys)
  }

  /** Whoever has the account can sign a device of this id with other keys than these. */
  ghost predicate CanRekey(verify: Verify, user: UserId, id: DeviceId, keys: map<KeyId, Key>) {
    exists d :: SelfSigned(verify, user, id, d) && d.keys != keys
  }

  /** Devices stored for a user without an entry are not recorded as seen. So reuse is ruled out for
      such a user exactly if the first update lists no device at all. */
  lemma FirstSeenIsSafeExactly(verify: Verify, user: UserId, u: Update, token: string)
    requires forall id, keys :: CanRekey(verify, user, id, keys)
    ensures NeverReuses(verify, user, FirstSeen(u, token)) <==> u.devices == []
  {
    var c := FirstSeen(u, token);
    if u.devices == [] {
      forall run: seq<Step>, i: nat, j: nat | i <= j <= |run|
        ensures Apart(ApplyAll(verify, user, c, run[..i]).deviceKeys, ApplyAll(verify, user, c, run[..j]).deviceKeys)
      {
        NoReuse(verify, user, c, run, i, j);
      }
    } else {
      var run := FirstSeenIsReused(verify, user, u, token);
      assert run[..0] == [] && run[..2] == run;
    }
  }

  /** An update without devices, and then one with the last listed device under other keys. */
  lemma FirstSeenIsReused(verify: Verify, user: UserId, u: Update, token: string) returns (run: seq<Step>)
    requires u.devices != []
    requires var (id, d) := u.devices[|u.devices| - 1]; CanRekey(verify, user, id, d.keys)
    ensures |run| == 2
    ensures var c := FirstSeen(u, token);
            !Apart(c.deviceKeys, ApplyAll(verify, user, c, run).deviceKeys)
  {
    var c := FirstSeen(u, token);
    var (id, d) := u.devices[|u.devices| - 1];
    assert c.deviceKeys[id] == d;
    var d' :| SelfSigned(verify, user, id, d') && d'.keys != d.keys;
    var none := CrossSigningKeys(map[], map[]);
    var gone, back := Update([], none, none, none), Update([(id, d')], none, none, none);
    var c1 := Merged(verify, user, c, gone, token);
    NewDeviceIsStored(verify, user, c1, back, token, id, d');
    run := [Queried(token, gone), Queried(token, back)];
    assert run[..1] == [Queried(token, gone)] && run[..1][..0] == [];
    assert ApplyAll(verify, user, c, run[..1]) == c1;
  }

  /** The only device of an update, with keys not seen before, is stored. */
  lemma NewDeviceIsStored(verify: Verify, user: UserId, c: UserKeyCache, u: Update, token: string,
                          id: DeviceId, d: Device)
    requires c.deviceKeys == map[] && c.seenDeviceIds == {} && c.seenDeviceKeys == {} && !Skipped(c, token)
    requires u.devices == [(id, d)] && SelfSigned(verify, user, id, d)
    ensures Merged(verify, user, c, u, token).deviceKeys == map[id := d]
  {
    assert u.devices[..0] == [] && u.devices[0] == (id, d);
    assert AddDevices(verify, user, c.deviceKeys, WithIdentity(c, u), u.devices) ==
           AddDevice(verify, user, c.deviceKeys, WithIdentity(c, u), id, d);
  }

  /** For one, signatures that are always accepted let any device be signed with new keys. */
  lemma AcceptingCanRekey(verify: Verify, user: UserId, id: DeviceId, keys: map<KeyId, Key>)
    requires forall key, signed, signature :: verify(key, signed, signature)
    ensures CanRekey(verify, user, id, keys)
  {
    var signing, identity := "ed25519:" + id, "curve25519:" + id;
    assert signing[0] != identity[0];
    var key := if signing in keys && keys[signing] == "a" then "b" else "a";
    var d := Device(id, map[signing := key, identity := key], map[user := map[signing := "s"]]);
    assert SelfSigned(verify, user, id, d) && d.keys[signing] == key;
  }
}
