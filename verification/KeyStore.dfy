/** The stored keys of all users, the devices marked as verified, and the memoised verification
    statuses. */
module KeyStores {
  import opened DeviceKeys
  import opened Options
  import opened VerificationSpec

  /** The reuse check goes through the keys of the device. */
  method IsReused(c: UserKeyCache, id: DeviceId, d: Device) returns (reused: bool)
    ensures reused == Reused(c, id, d)
  {
    var rest := d.keys.Keys;
    while rest != {}
      invariant rest <= d.keys.Keys
      invariant forall keyId :: keyId in d.keys.Keys - rest ==>
                  d.keys[keyId] !in c.seenDeviceKeys && id !in c.seenDeviceIds
      decreases |rest|
    {
      var keyId :| keyId in rest;
      if d.keys[keyId] in c.seenDeviceKeys || id in c.seenDeviceIds {
        return true;
      }
      rest := rest - {keyId};
    }
    return false;
  }

  /** The devices of an update, put into the entry one by one. */
  method MergeDevices(verify: Verify, user: UserId, before: map<DeviceId, Device>, c: UserKeyCache,
                      devices: seq<(DeviceId, Device)>)
    returns (c': UserKeyCache)
    ensures c' == AddDevices(verify, user, before, c, devices)
  {
    c' := c;
    for n := 0 to |devices|
      invariant c' == AddDevices(verify, user, before, c, devices[..n])
    {
      assert devices[..n + 1][..n] == devices[..n];
      var (id, d) := devices[n];
      if id in before && before[id].keys == d.keys {
        c' := c'.(deviceKeys := c'.deviceKeys[id := d]);
      } else {
        var reused := IsReused(c', id, d);
        if !reused && id !in before {
          if !SelfSigned(verify, user, id, d) {
            continue;
          }
          c' := c'.(deviceKeys := c'.deviceKeys[id := d]);
        }
      }
      c' := c'.(seenDeviceKeys := c'.seenDeviceKeys + d.keys.Values, seenDeviceIds := c'.seenDeviceIds + {id});
    }
    assert devices[..|devices|] == devices;
  }

  method ListDevices(devices: seq<(DeviceId, Device)>) returns (m: map<DeviceId, Device>)
    ensures m == DeviceMap(devices)
  {
    m := map[];
    for n := 0 to |devices|
      invariant m == DeviceMap(devices[..n])
    {
      assert devices[..n + 1][..n] == devices[..n];
      m := m[devices[n].0 := devices[n].1];
    }
    assert devices[..|devices|] == devices;
  }

  method VerifyAtLeastOneSig(verify: Verify, signed: Signed, keys: map<KeyId, Key>, owner: UserId) returns (ok: bool)
    ensures ok == SignedBy(verify, signed, keys, owner)
  {
    var sigs := SignaturesOf(signed);
    if owner !in sigs {
      return false;
    }
    var rest := sigs[owner].Keys;
    while rest != {}
      invariant rest <= sigs[owner].Keys
      invariant forall keyId :: keyId in sigs[owner].Keys - rest ==> !SignsWith(verify, signed, keys, owner, keyId)
      decreases |rest|
    {
      var keyId :| keyId in rest;
      if keyId in keys && verify(keys[keyId], signed, sigs[owner][keyId]) {
        assert SignsWith(verify, signed, keys, owner, keyId);
        return true;
      }
      rest := rest - {keyId};
    }
    return false;
  }

  /** Counts the listed devices that are not verified, by counting those that are. */
  method UnverifiedDevices(theirs: UserKeyCache, verified: set<DeviceId>) returns (n: int)
    ensures n == Count(theirs, verified)
  {
    var current, rest := 0, verified;
    ghost var listed := theirs.deviceKeys.Keys;
    assert listed * (verified - rest) == {};
    while rest != {}
      invariant rest <= verified && current == |listed * (verified - rest)|
      decreases |rest|
    {
      var id :| id in rest;
      OneMoreCounted(listed, verified, rest, id);
      rest := rest - {id};
      if id in theirs.deviceKeys {
        current := current + 1;
      }
    }
    assert verified - rest == verified;
    CountedAway(listed, verified);
    n := |theirs.deviceKeys| - current;
  }

  lemma CountedAway(listed: set<DeviceId>, verified: set<DeviceId>)
    ensures |listed - verified| == |listed| - |listed * verified|
  {
    assert listed == (listed - verified) + listed * verified;
  }

  lemma OneMoreCounted(listed: set<DeviceId>, verified: set<DeviceId>, rest: set<DeviceId>, id: DeviceId)
    requires id in rest && rest <= verified
    ensures |listed * (verified - (rest - {id}))| == |listed * (verified - rest)| + if id in listed then 1 else 0
  {
    var counted := listed * (verified - rest);
    assert listed * (verified - (rest - {id})) == if id in listed then counted + {id} else counted;
  }

  lemma OneMoreSigned(client: Client, theirs: UserKeyCache, user: UserId, rest: set<DeviceId>, id: DeviceId)
    requires id in rest && rest <= theirs.deviceKeys.Keys
    ensures var all := CrossSigned(client, theirs, user); var d := theirs.deviceKeys[id];
            if IsCrossSigned(client, theirs, user, d) then
              && all - (rest - {id}) == all - rest + {id}
              && BodyIds(theirs, all - rest + {id}) == BodyIds(theirs, all - rest) + {d.deviceId}
              && IdentityKeys(client, theirs, user, all - rest + {id}) ==
                 IdentityKeys(client, theirs, user, all - rest) + {IdentityKey(d)}
            else all - (rest - {id}) == all - rest
  {
    hide IsCrossSigned;
  }

  class KeyStore {
    const client: Client
    var userKeys: KeyTable
    var verified: VerifiedTable
    var memo: map<UserId, VerificationStatus>

    /** Every memoised status is what computing it now would give. */
    ghost predicate Valid()
      reads this
    {
      forall user :: user in memo ==> memo[user] == Compute(client, userKeys, verified, user)
    }

    constructor (client: Client)
      ensures Valid() && this.client == client && userKeys == map[] && verified == map[] && memo == map[]
    {
      this.client := client;
      userKeys, verified, memo := map[], map[], map[];
    }

    /** Forgets what a change to one user's keys or marks may have made stale: all statuses if it is
        our own, otherwise that user's. */
    method Forget(user: UserId)
      modifies this`memo
      ensures memo == if user == client.localUser then map[] else old(memo) - {user}
    {
      memo := if user == client.localUser then map[] else memo - {user};
    }

    method MarkDeviceVerified(user: UserId, device: DeviceId)
      requires Valid()
      modifies this`verified, this`memo
      ensures Valid()
      ensures verified == old(verified)[user :=
                (if user in old(verified) then old(verified)[user] else {}) + {device}]
    {
      var marked := if user in verified then verified[user] else {};
      if device in marked {
        assert marked + {device} == marked;
        assert verified[user := marked] == verified;
        return;
      }
      verified := verified[user := marked + {device}];
      Forget(user);
      Remembered(old(userKeys), old(verified), old(memo), {user});
    }

    method MarkDeviceUnverified(user: UserId, device: DeviceId)
      requires Valid()
      modifies this`verified, this`memo
      ensures Valid()
      ensures verified == old(verified)[user :=
                (if user in old(verified) then old(verified)[user] else {}) - {device}]
    {
      var marked := if user in verified then verified[user] else {};
      verified := verified[user := marked - {device}];
      Forget(user);
      Remembered(old(userKeys), old(verified), old(memo), {user});
    }

    /** What is left in the memo after the changed users were forgotten is still right. */
    lemma Remembered(keys: KeyTable, marks: VerifiedTable, before: map<UserId, VerificationStatus>,
                     changed: set<UserId>)
      requires forall user :: user in before ==> before[user] == Compute(client, keys, marks, user)
      requires memo == if client.localUser in changed then map[] else before - changed
      requires forall user :: user !in changed ==>
                 Get(userKeys, user) == Get(keys, user) && Get(verified, user) == Get(marks, user)
      ensures Valid()
    {
      forall user | user in memo ensures memo[user] == Compute(client, userKeys, verified, user) {
        ComputeDependsOn(client, keys, userKeys, marks, verified, user);
      }
    }

    /** The answer to a key query: each user's entry is merged or created, then the statuses it may
        have changed are forgotten. */
    method UpdateUserKeys(token: string, updates: seq<(UserId, Update)>)
      requires Valid()
      requires forall i, j :: 0 <= i < j < |updates| ==> updates[i].0 != updates[j].0
      modifies this`userKeys, this`memo
      ensures Valid()
      ensures userKeys == Updated(client.verify, old(userKeys), updates, token)
      ensures forall i :: 0 <= i < |updates| ==>
                var (user, update) := updates[i];
                Get(userKeys, user) == Some(if user in old(userKeys)
                                            then Merged(client.verify, user, old(userKeys)[user], update, token)
                                            else FirstSeen(update, token))
      ensures forall user :: (forall i :: 0 <= i < |updates| ==> updates[i].0 != user) ==>
                Get(userKeys, user) == Get(old(userKeys), user)
    {
      hide Merged, FirstSeen, Compute;
      for n := 0 to |updates|
        invariant memo == old(memo) && userKeys == Updated(client.verify, old(userKeys), updates[..n], token)
      {
        assert updates[..n + 1][..n] == updates[..n];
        var (user, update) := updates[n];
        if user in userKeys {
          var c := userKeys[user];
          MergedIs(client.verify, user, c, update, token);
          if c.lastChanged != "" && c.lastChanged != token {
            assert userKeys[user := c] == userKeys;
            continue;
          }
          var merged := MergeDevices(client.verify, user, c.deviceKeys, WithIdentity(c, update), update.devices);
          userKeys := userKeys[user := merged.(updatedAt := token)];
        } else {
          var devices := ListDevices(update.devices);
          FirstSeenIs(update, token);
          userKeys := userKeys[user := UserKeyCache(devices, update.masterKeys, update.userSigningKeys,
                                                    update.selfSigningKeys, token, "", false, {}, {})];
        }
      }
      assert updates[..|updates|] == updates;
      ForgetAll(updates);
      UpdatedElsewhere(client.verify, old(userKeys), updates, token);
      UpdatedListed(client.verify, old(userKeys), updates, token);
      Remembered(old(userKeys), verified, old(memo), Users(updates, |updates|));
    }

    method ForgetAll(updates: seq<(UserId, Update)>)
      modifies this`memo
      ensures memo == var users := Users(updates, |updates|);
                      if client.localUser in users then map[] else old(memo) - users
    {
      for n := 0 to |updates|
        invariant memo == var users := Users(updates, n);
                          if client.localUser in users then map[] else old(memo) - users
      {
        assert Users(updates, n + 1) == Users(updates, n) + {updates[n].0};
        Forget(updates[n].0);
      }
    }

    /** The status of a user, from the memo or computed and memoised. */
    method VerificationStatusOf(user: UserId) returns (status: VerificationStatus)
      requires Valid()
      modifies this`memo
      ensures Valid() && status == Compute(client, userKeys, verified, user)
    {
      hide Compute, StatusWithKeys, SignedBy, CrossSigned, BodyIds, IdentityKeys, Count, OwnsMasterKey;
      if user in memo {
        return memo[user];
      }
      ComputeIs(client, userKeys, verified, user);
      var devices := if user in verified then verified[user] else {};
      var trust := Unverified;
      if user == client.localUser {
        devices := devices + {client.deviceId};
        trust := Verified;
      }
      assert devices == Marked(client, verified, user);
      status := VerificationStatus(Unverified, devices, map[], 1, user !in userKeys);
      if client.localUser !in userKeys || user !in userKeys {
        memo := memo[user := status];
        return;
      }
      var ours, theirs := userKeys[client.localUser], userKeys[user];
      StatusIs(client, ours, theirs, user, devices);
      var count := UnverifiedDevices(theirs, devices);
      status := status.(unverifiedDeviceCount := count);
      if !OwnsMasterKey(client, ours) {
        memo := memo[user := status];
        return;
      }
      var master := ours.masterKeys.keys;
      if user != client.localUser {
        var vouched := VerifyAtLeastOneSig(client.verify, SignedCross(ours.userSigningKeys), master,
            client.localUser);
        if vouched {
          vouched := VerifyAtLeastOneSig(client.verify, SignedCross(theirs.masterKeys), ours.userSigningKeys.keys,
              client.localUser);
        }
        if vouched {
          trust := Verified;
        } else if !theirs.masterKeyChanged {
          trust := Tofu;
        } else {
          memo := memo[user := status];
          return;
        }
        master := theirs.masterKeys.keys;
      }
      status := status.(userVerified := trust);
      memo := memo[user := status];
      var signed := VerifyAtLeastOneSig(client.verify, SignedCross(theirs.selfSigningKeys), master, user);
      if !signed {
        return;
      }
      var verifiedDevices, deviceKeys := CrossSignedDevices(theirs, user, devices, trust);
      count := UnverifiedDevices(theirs, verifiedDevices);
      status := status.(verifiedDevices := verifiedDevices, verifiedDeviceKeys := deviceKeys,
          unverifiedDeviceCount := count);
      memo := memo[user := status];
    }

    /** The marked devices and those their self-signing key signed, with the trust their identity keys
        get. */
    method CrossSignedDevices(theirs: UserKeyCache, user: UserId, marked: set<DeviceId>, trust: Trust)
      returns (devices: set<DeviceId>, keys: map<Key, Trust>)
      ensures devices == marked + BodyIds(theirs, CrossSigned(client, theirs, user))
      ensures keys == map key | key in IdentityKeys(client, theirs, user, CrossSigned(client, theirs, user)) :: trust
    {
      hide BodyIds, IdentityKeys, CrossSigned, SignedBy;
      devices, keys := marked, map[];
      var rest := theirs.deviceKeys.Keys;
      ghost var all := CrossSigned(client, theirs, user);
      NothingSigned(theirs, user);
      while rest != {}
        invariant rest <= theirs.deviceKeys.Keys && all <= theirs.deviceKeys.Keys
        invariant devices == marked + BodyIds(theirs, all - rest)
        invariant keys == map key | key in IdentityKeys(client, theirs, user, all - rest) :: trust
        decreases |rest|
      {
        var id :| id in rest;
        var d := theirs.deviceKeys[id];
        OneMoreSigned(client, theirs, user, rest, id);
        rest := rest - {id};
        var identity := "curve25519:" + d.deviceId;
        if identity in d.keys {
          var signed := VerifyAtLeastOneSig(client.verify, SignedDevice(d), theirs.selfSigningKeys.keys, user);
          if signed {
            devices := devices + {d.deviceId};
            keys := keys[d.keys[identity] := trust];
          }
        }
      }
      assert all - rest == all;
    }

    lemma NothingSigned(theirs: UserKeyCache, user: UserId)
      ensures var all := CrossSigned(client, theirs, user);
              && all <= theirs.deviceKeys.Keys && all - theirs.deviceKeys.Keys == {}
              && BodyIds(theirs, {}) == {} && IdentityKeys(client, theirs, user, {}) == {}
    {
    }
  }

  lemma MergedIs(verify: Verify, user: UserId, c: UserKeyCache, u: Update, token: string)
    ensures Merged(verify, user, c, u, token) ==
            if Skipped(c, token) then c
            else AddDevices(verify, user, c.deviceKeys, WithIdentity(c, u), u.devices).(updatedAt := token)
  {
  }

  lemma FirstSeenIs(u: Update, token: string)
    ensures FirstSeen(u, token) == UserKeyCache(DeviceMap(u.devices), u.masterKeys, u.userSigningKeys,
              u.selfSigningKeys,
                                                token, "", false, {}, {})
  {
  }

  ghost function Users(updates: seq<(UserId, Update)>, n: nat): set<UserId>
    requires n <= |updates|
  {
    set i | 0 <= i < n :: updates[i].0
  }

  ghost function UpdatedEntry(verify: Verify, keys: KeyTable, user: UserId, u: Update, token: string): UserKeyCache {
    if user in keys then Merged(verify, user, keys[user], u, token) else FirstSeen(u, token)
  }

  ghost function Updated(verify: Verify, keys: KeyTable, updates: seq<(UserId, Update)>, token: string): KeyTable {
    if updates == [] then keys
    else
      var before, last := Updated(verify, keys, updates[..|updates| - 1], token), updates[|updates| - 1];
      before[last.0 := UpdatedEntry(verify, before, last.0, last.1, token)]
  }

  lemma {:induction false} UpdatedElsewhere(verify: Verify, keys: KeyTable, updates: seq<(UserId, Update)>,
                                            token: string)
    ensures forall user :: (forall i :: 0 <= i < |updates| ==> updates[i].0 != user) ==>
              Get(Updated(verify, keys, updates, token), user) == Get(keys, user)
  {
    if updates != [] {
      UpdatedElsewhere(verify, keys, updates[..|updates| - 1], token);
    }
  }

  /** Every listed user's entry is merged, or made if there was none. */
  lemma {:induction false} UpdatedListed(verify: Verify, keys: KeyTable, updates: seq<(UserId, Update)>, token: string)
    requires forall i, j :: 0 <= i < j < |updates| ==> updates[i].0 != updates[j].0
    ensures forall i :: 0 <= i < |updates| ==>
              Get(Updated(verify, keys, updates, token), updates[i].0) ==
                Some(UpdatedEntry(verify, keys, updates[i].0, updates[i].1, token))
  {
    hide UpdatedEntry;
    if updates != [] {
      var front, last := updates[..|updates| - 1], updates[|updates| - 1];
      UpdatedListed(verify, keys, front, token);
      UpdatedElsewhere(verify, keys, front, token);
      SameEntry(verify, Updated(verify, keys, front, token), keys, last.0, last.1, token);
    }
  }

  lemma SameEntry(verify: Verify, a: KeyTable, b: KeyTable, user: UserId, u: Update, token: string)
    requires Get(a, user) == Get(b, user)
    ensures UpdatedEntry(verify, a, user, u, token) == UpdatedEntry(verify, b, user, u, token)
  {
    assert user in a <==> Get(a, user).Some?;
    assert user in b <==> Get(b, user).Some?;
  }
}
