/** Who is verified, computed from the stored keys and the devices marked as verified. */
module VerificationSpec {
  import opened DeviceKeys
  import opened Options

  datatype Trust = Unverified | MessageUnverified | Tofu | Verified

  datatype VerificationStatus = VerificationStatus(
    userVerified: Trust,
    verifiedDevices: set<DeviceId>,
    verifiedDeviceKeys: map<Key, Trust>,
    unverifiedDeviceCount: int,
    noKeys: bool)

  /** This client: its user, its device and the identity key of its device. */
  datatype Client = Client(localUser: UserId, deviceId: DeviceId, identityKey: Key, verify: Verify)

  type KeyTable = map<UserId, UserKeyCache>
  type VerifiedTable = map<UserId, set<DeviceId>>

  function Get<K, V>(m: map<K, V>, k: K): Option<V> {
    if k in m then Some(m[k]) else None
  }

  function SignaturesOf(signed: Signed): Signatures {
    match signed
    case SignedDevice(d) => d.signatures
    case SignedCross(c) => c.signatures
  }

  /** Some signature of the owner was made by one of the keys. */
  ghost predicate SignedBy(verify: Verify, signed: Signed, keys: map<KeyId, Key>, owner: UserId) {
    var sigs := SignaturesOf(signed);
    owner in sigs && exists keyId :: keyId in sigs[owner] && SignsWith(verify, signed, keys, owner, keyId)
  }

  predicate SignsWith(verify: Verify, signed: Signed, keys: map<KeyId, Key>, owner: UserId, keyId: KeyId) {
    var sigs := SignaturesOf(signed);
    owner in sigs && keyId in sigs[owner] && keyId in keys && verify(keys[keyId], signed, sigs[owner][keyId])
  }

  /** Our own device vouches for our master key. */
  predicate OwnsMasterKey(client: Client, ours: UserKeyCache) {
    var sigs, dev := ours.masterKeys.signatures, "ed25519:" + client.deviceId;
    && client.localUser in sigs && dev in sigs[client.localUser]
    && client.verify(client.identityKey, SignedCross(ours.masterKeys), sigs[client.localUser][dev])
  }

  /** Our master key signed our user-signing key, and that signed their master key. */
  ghost predicate VouchesFor(client: Client, ours: UserKeyCache, theirs: UserKeyCache) {
    && SignedBy(client.verify, SignedCross(ours.userSigningKeys), ours.masterKeys.keys, client.localUser)
    && SignedBy(client.verify, SignedCross(theirs.masterKeys), ours.userSigningKeys.keys, client.localUser)
  }

  /** How far a user's master key is trusted, None if it changed and nobody vouches for it. */
  ghost function UserTrust(client: Client, ours: UserKeyCache, theirs: UserKeyCache, user: UserId): Option<Trust> {
    if user == client.localUser || VouchesFor(client, ours, theirs) then Some(Verified)
    else if !theirs.masterKeyChanged then Some(Tofu)
    else None
  }

  ghost predicate IsCrossSigned(client: Client, theirs: UserKeyCache, user: UserId, d: Device) {
    && "curve25519:" + d.deviceId in d.keys
    && SignedBy(client.verify, SignedDevice(d), theirs.selfSigningKeys.keys, user)
  }

  /** The devices their self-signing key signed. */
  ghost function CrossSigned(client: Client, theirs: UserKeyCache, user: UserId): set<DeviceId> {
    set id | id in theirs.deviceKeys && IsCrossSigned(client, theirs, user, theirs.deviceKeys[id])
  }

  ghost function BodyIds(theirs: UserKeyCache, ids: set<DeviceId>): set<DeviceId>
    requires ids <= theirs.deviceKeys.Keys
  {
    set id | id in ids :: theirs.deviceKeys[id].deviceId
  }

  function IdentityKey(d: Device): Key
    requires "curve25519:" + d.deviceId in d.keys
  {
    d.keys["curve25519:" + d.deviceId]
  }

  ghost function IdentityKeys(client: Client, theirs: UserKeyCache, user: UserId, ids: set<DeviceId>): set<Key>
    requires ids <= CrossSigned(client, theirs, user)
  {
    set id | id in ids :: IdentityKey(theirs.deviceKeys[id])
  }

  /** The devices verified without cross-signing: marked by hand, and our own. */
  ghost function Marked(client: Client, verified: VerifiedTable, user: UserId): set<DeviceId> {
    (if user in verified then verified[user] else {}) + if user == client.localUser then {client.deviceId} else {}
  }

  /** How many listed devices are not verified. */
  ghost function Count(theirs: UserKeyCache, verified: set<DeviceId>): nat {
    |theirs.deviceKeys.Keys - verified|
  }

  ghost function Compute(client: Client, keys: KeyTable, verified: VerifiedTable, user: UserId): VerificationStatus {
    var ours, theirs := Get(keys, client.localUser), Get(keys, user);
    var marked := Marked(client, verified, user);
    if ours.None? || theirs.None? then VerificationStatus(Unverified, marked, map[], 1, theirs.None?)
    else StatusWithKeys(client, ours.value, theirs.value, user, marked)
  }

  ghost function StatusWithKeys(client: Client, ours: UserKeyCache, theirs: UserKeyCache, user: UserId,
                                marked: set<DeviceId>)
    : VerificationStatus
  {
    var trust := UserTrust(client, ours, theirs, user);
    if !OwnsMasterKey(client, ours) || trust.None? then
      VerificationStatus(Unverified, marked, map[], Count(theirs, marked), false)
    else
      var master := if user == client.localUser then ours.masterKeys else theirs.masterKeys;
      if !SignedBy(client.verify, SignedCross(theirs.selfSigningKeys), master.keys, user) then
        VerificationStatus(trust.value, marked, map[], Count(theirs, marked), false)
      else
        var signed := CrossSigned(client, theirs, user);
        var verifiedDevices := marked + BodyIds(theirs, signed);
        VerificationStatus(trust.value, verifiedDevices,
                           map key | key in IdentityKeys(client, theirs, user, signed) :: trust.value,
                           Count(theirs, verifiedDevices), false)
  }

  lemma ComputeIs(client: Client, keys: KeyTable, verified: VerifiedTable, user: UserId)
    ensures Compute(client, keys, verified, user) ==
            if client.localUser !in keys || user !in keys
            then VerificationStatus(Unverified, Marked(client, verified, user), map[], 1, user !in keys)
            else StatusWithKeys(client, keys[client.localUser], keys[user], user, Marked(client, verified, user))
  {
  }

  lemma StatusIs(client: Client, ours: UserKeyCache, theirs: UserKeyCache, user: UserId, marked: set<DeviceId>)
    ensures var trust := UserTrust(client, ours, theirs, user);
            var master := if user == client.localUser then ours.masterKeys else theirs.masterKeys;
            var signed := CrossSigned(client, theirs, user);
            var devices := marked + BodyIds(theirs, signed);
            StatusWithKeys(client, ours, theirs, user, marked) ==
            if !OwnsMasterKey(client, ours) || trust.None? then
              VerificationStatus(Unverified, marked, map[], Count(theirs, marked), false)
            else if !SignedBy(client.verify, SignedCross(theirs.selfSigningKeys), master.keys, user) then
              VerificationStatus(trust.value, marked, map[], Count(theirs, marked), false)
            else
              VerificationStatus(trust.value, devices,
                                 map key | key in IdentityKeys(client, theirs, user, signed) :: trust.value,
                                 Count(theirs, devices), false)
  {
  }

  /** A status depends on two users' keys and one user's marks only. */
  lemma ComputeDependsOn(client: Client, keys: KeyTable, keys': KeyTable, verified: VerifiedTable,
                         verified': VerifiedTable, user: UserId)
    requires Get(keys, client.localUser) == Get(keys', client.localUser)
    requires Get(keys, user) == Get(keys', user) && Get(verified, user) == Get(verified', user)
    ensures Compute(client, keys, verified, user) == Compute(client, keys', verified', user)
  {
    assert user in verified <==> Get(verified, user).Some?;
    assert user in verified' <==> Get(verified', user).Some?;
  }

  /** Whatever branch was taken, with both users' keys at hand the count is the number of listed devices
      outside the verified set. */
  lemma CountIsRight(client: Client, keys: KeyTable, verified: VerifiedTable, user: UserId)
    requires client.localUser in keys && user in keys
    ensures var status := Compute(client, keys, verified, user);
            && status.unverifiedDeviceCount == |keys[user].deviceKeys.Keys - status.verifiedDevices|
            && !status.noKeys
  {
    hide Compute, StatusWithKeys, OwnsMasterKey, UserTrust, SignedBy, CrossSigned, BodyIds, IdentityKeys;
    ComputeIs(client, keys, verified, user);
    StatusIs(client, keys[client.localUser], keys[user], user, Marked(client, verified, user));
  }

  /** A status never trusts a user whose master key changed unless our own keys vouch for it, and only
      when our own device vouches for our master key. */
  lemma TrustIsEarned(client: Client, keys: KeyTable, verified: VerifiedTable, user: UserId)
    requires Compute(client, keys, verified, user).userVerified != Unverified && user != client.localUser
    ensures client.localUser in keys && user in keys && OwnsMasterKey(client, keys[client.localUser])
    ensures VouchesFor(client, keys[client.localUser], keys[user]) || !keys[user].masterKeyChanged
    ensures Compute(client, keys, verified, user).userVerified == Verified <==>
            VouchesFor(client, keys[client.localUser], keys[user])
  {
  }

  /** What it means that something is signed: a signature of its owner verifies under the key of the same
      id. */
  lemma SignedByExactly(verify: Verify, signed: Signed, keys: map<KeyId, Key>, owner: UserId)
    ensures var signatures := match signed { case SignedDevice(d) => d.signatures case SignedCross(c) => c.signatures };
            SignedBy(verify, signed, keys, owner) <==>
              exists keyId, key, signature ::
                && (keyId, key) in keys.Items && owner in signatures && (keyId, signature) in signatures[owner].Items
                && verify(key, signed, signature)
  {
    if SignedBy(verify, signed, keys, owner) {
      var sigs := SignaturesOf(signed);
      var keyId :| keyId in sigs[owner] && SignsWith(verify, signed, keys, owner, keyId);
      assert (keyId, keys[keyId]) in keys.Items && (keyId, sigs[owner][keyId]) in sigs[owner].Items;
    }
  }

  /** The local device signed the local master key. */
  ghost predicate OwnDeviceSigned(client: Client, ours: UserKeyCache) {
    exists signature ::
      && client.localUser in ours.masterKeys.signatures
      && ("ed25519:" + client.deviceId, signature) in ours.masterKeys.signatures[client.localUser].Items
      && client.verify(client.identityKey, SignedCross(ours.masterKeys), signature)
  }

  /** How far another user is trusted: verified if our keys vouch for theirs, on first use if they do not
      but the master key is still the one first seen, and otherwise, or while our own device does not
      vouch for our keys, not at all. */
  lemma TrustIsExactly(client: Client, keys: KeyTable, verified: VerifiedTable, user: UserId)
    requires client.localUser in keys && user in keys && user != client.localUser
    ensures var me, ours, theirs := client.localUser, keys[client.localUser], keys[user];
            var trust := Compute(client, keys, verified, user).userVerified;
            var vouched := && SignedBy(client.verify, SignedCross(ours.userSigningKeys), ours.masterKeys.keys, me)
                           && SignedBy(client.verify, SignedCross(theirs.masterKeys), ours.userSigningKeys.keys, me);
            && (trust == Verified <==> OwnDeviceSigned(client, ours) && vouched)
            && (trust == Tofu <==> OwnDeviceSigned(client, ours) && !vouched && !theirs.masterKeyChanged)
            && trust in {Verified, Tofu, Unverified}
  {
    hide SignedBy, CrossSigned, BodyIds, IdentityKeys, Count, Compute, StatusWithKeys;
    ComputeIs(client, keys, verified, user);
    StatusIs(client, keys[client.localUser], keys[user], user, Marked(client, verified, user));
  }

  /** The local user is verified exactly if the device in use signed the master key. */
  lemma OwnTrustIsExactly(client: Client, keys: KeyTable, verified: VerifiedTable)
    requires client.localUser in keys
    ensures var trust := Compute(client, keys, verified, client.localUser).userVerified;
            trust == (if OwnDeviceSigned(client, keys[client.localUser]) then Verified else Unverified)
  {
    hide SignedBy, CrossSigned, BodyIds, IdentityKeys, Count, Compute, StatusWithKeys;
    ComputeIs(client, keys, verified, client.localUser);
    var ours := keys[client.localUser];
    StatusIs(client, ours, ours, client.localUser, Marked(client, verified, client.localUser));
  }

  /** The user is trusted, and the self-signing key is signed by the master key. */
  ghost predicate SignsDevices(client: Client, keys: KeyTable, verified: VerifiedTable, user: UserId) {
    && client.localUser in keys && user in keys
    && Compute(client, keys, verified, user).userVerified != Unverified
    && SignedBy(client.verify, SignedCross(keys[user].selfSigningKeys), keys[user].masterKeys.keys, user)
  }

  /** The device is listed, has an identity key, and is signed by the user's self-signing key. */
  ghost predicate DeviceSigned(client: Client, theirs: UserKeyCache, user: UserId, listed: DeviceId, identity: Key) {
    listed in theirs.deviceKeys &&
    var d := theirs.deviceKeys[listed];
    && ("curve25519:" + d.deviceId, identity) in d.keys.Items
    && SignedBy(client.verify, SignedDevice(d), theirs.selfSigningKeys.keys, user)
  }

  /** The devices and identity keys the status takes from the self-signing key. */
  lemma SignedAcross(client: Client, theirs: UserKeyCache, user: UserId)
    ensures var all := CrossSigned(client, theirs, user);
            && all <= theirs.deviceKeys.Keys
            && (forall id :: id in BodyIds(theirs, all) <==>
                  exists listed, identity :: DeviceSigned(client, theirs, user, listed, identity)
                                             && theirs.deviceKeys[listed].deviceId == id)
            && (forall identity :: identity in IdentityKeys(client, theirs, user, all) <==>
                  exists listed :: DeviceSigned(client, theirs, user, listed, identity))
  {
    hide SignedBy;
    var all := CrossSigned(client, theirs, user);
    forall listed | listed in all
      ensures DeviceSigned(client, theirs, user, listed, IdentityKey(theirs.deviceKeys[listed]))
    {
    }
    forall listed, identity | DeviceSigned(client, theirs, user, listed, identity)
      ensures listed in all && identity == IdentityKey(theirs.deviceKeys[listed])
    {
    }
  }

  /** Which devices are verified: those marked by hand, the one in use, and those signed across. */
  lemma DevicesAreExactly(client: Client, keys: KeyTable, verified: VerifiedTable, user: UserId, id: DeviceId)
    ensures id in Compute(client, keys, verified, user).verifiedDevices <==>
              || (user in verified && id in verified[user])
              || (user == client.localUser && id == client.deviceId)
              || (SignsDevices(client, keys, verified, user) &&
                  exists listed, identity :: DeviceSigned(client, keys[user], user, listed, identity)
                                             && keys[user].deviceKeys[listed].deviceId == id)
  {
    hide SignedBy, OwnsMasterKey, VouchesFor, CrossSigned, BodyIds, IdentityKeys, DeviceSigned, Count;
    hide Compute, StatusWithKeys;
    ComputeIs(client, keys, verified, user);
    if client.localUser in keys && user in keys {
      StatusIs(client, keys[client.localUser], keys[user], user, Marked(client, verified, user));
      SignedAcross(client, keys[user], user);
    }
  }

  /** Which identity keys are trusted, and how far: those of the devices signed across, as far as the user. */
  lemma IdentitiesAreExactly(client: Client, keys: KeyTable, verified: VerifiedTable, user: UserId, identity: Key)
    ensures var status := Compute(client, keys, verified, user);
            && (identity in status.verifiedDeviceKeys <==>
                  SignsDevices(client, keys, verified, user) &&
                  exists listed :: DeviceSigned(client, keys[user], user, listed, identity))
            && (identity in status.verifiedDeviceKeys ==> status.verifiedDeviceKeys[identity] == status.userVerified)
  {
    hide SignedBy, OwnsMasterKey, VouchesFor, CrossSigned, BodyIds, IdentityKeys, DeviceSigned, Count;
    hide Compute, StatusWithKeys;
    ComputeIs(client, keys, verified, user);
    if client.localUser in keys && user in keys {
      StatusIs(client, keys[client.localUser], keys[user], user, Marked(client, verified, user));
      SignedAcross(client, keys[user], user);
    }
  }

  /** Without the keys of both users nothing is known but the marks. */
  lemma MissingKeys(client: Client, keys: KeyTable, verified: VerifiedTable, user: UserId)
    ensures var status := Compute(client, keys, verified, user);
            && (status.noKeys <==> user !in keys)
            && (client.localUser !in keys || user !in keys ==>
                  && status.userVerified == Unverified && status.verifiedDeviceKeys == map[]
                  && status.unverifiedDeviceCount == 1)
  {
  }
}
