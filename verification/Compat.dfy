/** Firmware compatibility tables: version ranges, configuration layouts, PIV algorithm IDs. */
module Compat {
  import opened Base

  datatype Version = Version(major: nat, minor: nat, patch: nat)

  /** The release whose rules apply: 3.1.x and 4.0.x share those of 3.1.0. */
  function CompatibilityBase(v: Version): Version {
    if (v.major == 3 && v.minor == 1) || (v.major == 4 && v.minor == 0) then Version(3, 1, 0) else v
  }

  predicate AtMost(a: Version, b: Version) {
    || a.major < b.major
    || (a.major == b.major && (a.minor < b.minor || (a.minor == b.minor && a.patch <= b.patch)))
  }

  datatype Support = Supported | Unsupported | Unknown

  datatype Algorithm =
    | Rsa1024 | Rsa2048 | Rsa3072 | Rsa4096
    | EccP256 | EccP384 | EccP521 | Secp256k1 | Sm2
    | Ed25519 | X25519 | MlDsa65 | MlKem768

  datatype AlgorithmConfig = AlgorithmConfig(enabled: bool, ids: map<Algorithm, Byte>, raw: Bytes)

  datatype Profile = Profile(
    firmware: Option<Version>,
    config: Option<AlgorithmConfig>,
    legacyPivExtensions: Option<bool>)

  /** Firmware series the tables know. */
  predicate Known(v: Version) {
    || v == Version(1, 3, 0)
    || (AtMost(Version(1, 5, 2), v) && AtMost(v, Version(3, 0, 3)))
    || v == Version(3, 1, 0)
  }

  function FirmwareRange(p: Profile, first: Version, last: Version): Support {
    if p.firmware.None? then Unknown
    else
      var v := CompatibilityBase(p.firmware.value);
      if !Known(v) then Unknown
      else if AtMost(first, v) && AtMost(v, last) then Supported
      else Unsupported
  }

  function Require(s: Support): Result<()> {
    match s
    case Supported => Ok(())
    case Unsupported => Err(Fail(UnsupportedFeature))
    case Unknown => Err(Fail(CapabilityUnknown))
  }

  datatype Capability =
    | Admin
    | AdminNdefWebUsb
    | AdminExtendedConfiguration
    | AdminLegacyPivExtensions
    | PivSelectResetsAuthentication

  function CapabilityOf(p: Profile, c: Capability): Support {
    match c
    case Admin => FirmwareRange(p, Version(1, 3, 0), Version(3, 1, 0))
    case AdminNdefWebUsb => FirmwareRange(p, Version(1, 5, 2), Version(3, 1, 0))
    case AdminExtendedConfiguration => FirmwareRange(p, Version(3, 1, 0), Version(3, 1, 0))
    case AdminLegacyPivExtensions => FirmwareRange(p, Version(2, 0, 0), Version(2, 0, 1))
    case PivSelectResetsAuthentication => FirmwareRange(p, Version(2, 0, 0), Version(3, 1, 0))
  }

  datatype Layout = TouchPolicies | BasicLayout | KeyboardReturn | Reserved | Features

  function AdminLayout(p: Profile): Result<Layout> {
    var gate := Require(CapabilityOf(p, Admin));
    if gate.Err? then Err(gate.error)
    else if p.firmware.None? then Err(Fail(CapabilityUnknown))
    else
      var v := CompatibilityBase(p.firmware.value);
      Ok(if v == Version(1, 3, 0) then TouchPolicies
         else if !AtMost(Version(1, 6, 2), v) then BasicLayout
         else if !AtMost(Version(3, 0, 0), v) then KeyboardReturn
         else if !AtMost(Version(3, 1, 0), v) then Reserved
         else Features)
  }

  // ----- Algorithm configuration

  /** The fields of a configuration of `n` bytes, in wire order after the enable byte. */
  function ConfigFields(n: nat): seq<Algorithm>
  {
    [Ed25519, Rsa3072, Rsa4096, X25519, Secp256k1]
    + (if n >= 8 then [EccP521] else [])
    + [Sm2]
    + (if n >= 9 then [MlDsa65] else [])
    + (if n >= 10 then [MlKem768] else [])
  }

  predicate ReservedId(id: Byte) { id == 0 || id in {0x06, 0x07, 0x11, 0x14} }

  /** The first `k` identifiers are usable and pairwise different. */
  ghost predicate UsableIds(ids: Bytes, k: nat)
    requires k <= |ids|
  {
    && (forall i :: 0 <= i < k ==> !ReservedId(ids[i]))
    && (forall i, j :: 0 <= i < j < k ==> ids[i] != ids[j])
  }

  ghost predicate WellFormedConfig(data: Bytes) {
    && |data| >= 7 && data[0] <= 1
    && |ConfigFields(|data|)| < |data| && UsableIds(data[1..], |ConfigFields(|data|)|)
  }

  /** No two algorithms share an identifier and none uses a fixed one. */
  ghost predicate InjectiveIds(ids: map<Algorithm, Byte>) {
    && (forall a :: a in ids ==> !ReservedId(ids[a]))
    && (forall a, b :: a in ids && b in ids && ids[a] == ids[b] ==> a == b)
  }

  ghost predicate NoRepeats(fields: seq<Algorithm>) {
    forall i, j :: 0 <= i < j < |fields| ==> fields[i] != fields[j]
  }

  /** `ids` gives each of the first `k` fields the identifier in its place. */
  ghost predicate Assigns(ids: map<Algorithm, Byte>, fields: seq<Algorithm>, bytes: Bytes, k: nat)
    requires k <= |fields| && k <= |bytes|
  {
    && (forall a :: a in ids <==> a in fields[..k])
    && (forall i :: 0 <= i < k ==> fields[i] in ids && ids[fields[i]] == bytes[i])
  }

  lemma FieldsFit(n: nat)
    requires n >= 7
    ensures NoRepeats(ConfigFields(n)) && |ConfigFields(n)| < n
  {
  }

  lemma AssignOne(ids: map<Algorithm, Byte>, fields: seq<Algorithm>, bytes: Bytes, k: nat)
    requires k < |fields| && k < |bytes| && NoRepeats(fields) && Assigns(ids, fields, bytes, k)
    ensures Assigns(ids[fields[k] := bytes[k]], fields, bytes, k + 1)
    ensures bytes[k] in ids.Values <==> exists i :: 0 <= i < k && bytes[i] == bytes[k]
  {
    assert fields[..k + 1] == fields[..k] + [fields[k]];
    if bytes[k] in ids.Values {
      var a :| a in ids && ids[a] == bytes[k];
      var i :| 0 <= i < k && fields[..k][i] == a;
      assert bytes[i] == bytes[k];
    }
  }

  lemma AssignedIdsAreInjective(ids: map<Algorithm, Byte>, fields: seq<Algorithm>, bytes: Bytes)
    requires |fields| <= |bytes| && Assigns(ids, fields, bytes, |fields|) && UsableIds(bytes, |fields|)
    ensures InjectiveIds(ids)
  {
    assert fields[..|fields|] == fields;
    forall a | a in ids ensures !ReservedId(ids[a]) {
      var i :| 0 <= i < |fields| && fields[i] == a;
    }
    forall a, b | a in ids && b in ids && ids[a] == ids[b] ensures a == b {
      var i :| 0 <= i < |fields| && fields[i] == a;
      var j :| 0 <= j < |fields| && fields[j] == b;
    }
  }

  /** Fill the identifier map field by field, refusing unusable identifiers. */
  method ParseConfig(data: Bytes) returns (r: Result<AlgorithmConfig>)
    ensures r.Ok? <==> WellFormedConfig(data)
    ensures r.Err? ==> r.error == Fail(InvalidResponse)
    ensures r.Ok? ==>
              && r.value.enabled == (data[0] == 1) && r.value.raw == data
              && InjectiveIds(r.value.ids)
              && Assigns(r.value.ids, ConfigFields(|data|), data[1..], |ConfigFields(|data|)|)
  {
    hide ConfigFields, Assigns, InjectiveIds, ReservedId;
    if |data| < 7 || data[0] > 1 {
      return Err(Fail(InvalidResponse));
    }
    var fields, bytes := ConfigFields(|data|), data[1..];
    FieldsFit(|data|);
    var ids: map<Algorithm, Byte> := map[];
    assert Assigns(ids, fields, bytes, 0) by { NothingAssigned(fields, bytes); }
    for k := 0 to |fields|
      invariant UsableIds(bytes, k) && Assigns(ids, fields, bytes, k)
    {
      AssignOne(ids, fields, bytes, k);
      var id := bytes[k];
      if ReservedId(id) || id in ids.Values {
        return Err(Fail(InvalidResponse));
      }
      ids := ids[fields[k] := id];
    }
    AssignedIdsAreInjective(ids, fields, bytes);
    return Ok(AlgorithmConfig(data[0] == 1, ids, data));
  }

  lemma NothingAssigned(fields: seq<Algorithm>, bytes: Bytes)
    ensures Assigns(map[], fields, bytes, 0)
  {
  }

  // ----- Wire identifiers

  /** Profiles that the constructors can produce. */
  ghost predicate Constructible(p: Profile) {
    && (p.config.Some? ==> InjectiveIds(p.config.value.ids))
    && (p.legacyPivExtensions.Some? ==>
          CapabilityOf(p, AdminLegacyPivExtensions) == Supported && p.config.None?)
  }

  /** A fresh profile has no confirmed switch, and its configuration went through the parser. */
  function Observed(firmware: Option<Version>, config: Option<AlgorithmConfig>): (p: Profile)
    ensures (config.Some? ==> InjectiveIds(config.value.ids)) ==> Constructible(p)
  {
    Profile(firmware, config, None)
  }

  function WithLegacyPivExtensions(p: Profile, enabled: bool): (r: Result<Profile>)
    ensures Constructible(p) && r.Ok? ==> Constructible(r.value)
  {
    var gate := Require(CapabilityOf(p, AdminLegacyPivExtensions));
    if gate.Err? then Err(gate.error)
    else if p.config.Some? then Err(Fail(InvalidArgument))
    else Ok(p.(legacyPivExtensions := Some(enabled)))
  }

  function ConfigWireId(c: AlgorithmConfig, a: Algorithm): Option<Byte> {
    if c.enabled && a in c.ids then Some(c.ids[a]) else None
  }

  predicate FirmwareAtLeast(p: Profile, v: Version) {
    p.firmware.Some? && AtMost(v, CompatibilityBase(p.firmware.value))
  }

  function ExtensionWireId(p: Profile, a: Algorithm): Option<Byte> {
    if p.config.None? then None
    else
      var id := ConfigWireId(p.config.value, a);
      if id.Some? && FirmwareAtLeast(p, Version(3, 1, 0)) && id.value in {0x0a, 0xff} then None else id
  }

  /** Identifiers used without an observed configuration. */
  function DefaultWireId(a: Algorithm, legacy: bool): Option<Byte> {
    match a
    case Ed25519 => Some(if legacy then 0x22 else 0xe0)
    case Rsa3072 => Some(if legacy then 0x50 else 0x05)
    case Rsa4096 => Some(if legacy then 0x51 else 0x16)
    case X25519 => Some(if legacy then 0x52 else 0xe1)
    case Secp256k1 => if legacy then Some(0x53) else None
    case Sm2 => if legacy then Some(0x54) else None
    case _ => None
  }

  function AlgorithmWireId(p: Profile, a: Algorithm): Option<Byte> {
    match a
    case Rsa1024 => Some(0x06)
    case Rsa2048 => Some(0x07)
    case EccP256 => Some(0x11)
    case EccP384 => Some(0x14)
    case _ =>
      if p.config.Some? then ExtensionWireId(p, a)
      else DefaultWireId(a, FirmwareAtLeast(p, Version(2, 0, 0)) && !FirmwareAtLeast(p, Version(3, 0, 0)))
  }

  const ALGORITHMS: seq<Algorithm> :=
    [Rsa1024, Rsa2048, Rsa3072, Rsa4096, EccP256, EccP384, EccP521, Secp256k1, Sm2, Ed25519, X25519,
     MlDsa65, MlKem768]

  function FirstWithId(p: Profile, candidates: seq<Algorithm>, id: Byte): Option<Algorithm> {
    if candidates == [] then None
    else if AlgorithmWireId(p, candidates[0]) == Some(id) then Some(candidates[0])
    else FirstWithId(p, candidates[1..], id)
  }

  function AlgorithmFromWireId(p: Profile, id: Byte): Option<Algorithm> { FirstWithId(p, ALGORITHMS, id) }

  function KeyAlgorithmSupport(p: Profile, a: Algorithm): Support {
    var baseline := FirmwareRange(p, Version(1, 3, 0), Version(3, 1, 0));
    if baseline != Supported then baseline
    else if a in {Rsa2048, EccP256, EccP384} then baseline
    else if a == Rsa1024 then Unsupported
    else
      var first := if a in {Ed25519, X25519} then Version(3, 0, 1)
                   else if a in {EccP521, MlDsa65, MlKem768} then Version(3, 1, 0)
                   else Version(2, 0, 0);
      var range := FirmwareRange(p, first, Version(3, 1, 0));
      if range != Supported then range
      else if p.config.None? then
        if CapabilityOf(p, AdminLegacyPivExtensions) != Supported || p.legacyPivExtensions.None? then Unknown
        else if p.legacyPivExtensions.value then Supported
        else Unsupported
      else if ExtensionWireId(p, a).Some? then Supported
      else if !p.config.value.enabled || ConfigWireId(p.config.value, a).Some? then Unsupported
      else Unknown
  }

  /** No two algorithms of a profile share a wire identifier. */
  lemma WireIdsAreInjective(p: Profile, a: Algorithm, b: Algorithm)
    requires Constructible(p)
    requires AlgorithmWireId(p, a).Some? && AlgorithmWireId(p, a) == AlgorithmWireId(p, b)
    ensures a == b
  {
    hide FirmwareAtLeast, InjectiveIds;
    if p.config.Some? {
      IdsOf(p.config.value.ids, a, b);
    }
  }

  lemma IdsOf(ids: map<Algorithm, Byte>, a: Algorithm, b: Algorithm)
    requires InjectiveIds(ids)
    ensures a in ids ==> ids[a] !in {0x06, 0x07, 0x11, 0x14}
    ensures b in ids ==> ids[b] !in {0x06, 0x07, 0x11, 0x14}
    ensures a in ids && b in ids && ids[a] == ids[b] ==> a == b
  {
    assert a in ids ==> !ReservedId(ids[a]);
    assert b in ids ==> !ReservedId(ids[b]);
  }

  lemma {:induction false} FirstWithIdFinds(p: Profile, candidates: seq<Algorithm>, id: Byte, a: Algorithm)
    requires Constructible(p) && a in candidates && AlgorithmWireId(p, a) == Some(id)
    ensures FirstWithId(p, candidates, id) == Some(a)
  {
    hide AlgorithmWireId, Constructible;
    if AlgorithmWireId(p, candidates[0]) == Some(id) {
      WireIdsAreInjective(p, a, candidates[0]);
    } else {
      FirstWithIdFinds(p, candidates[1..], id, a);
    }
  }

  lemma {:induction false} FirstWithIdSound(p: Profile, candidates: seq<Algorithm>, id: Byte)
    ensures var r := FirstWithId(p, candidates, id); r.Some? ==> AlgorithmWireId(p, r.value) == Some(id)
  {
    hide AlgorithmWireId;
    if candidates != [] {
      FirstWithIdSound(p, candidates[1..], id);
    }
  }

  /** Resolving an identifier is the exact inverse of assigning one. */
  lemma WireIdRoundTrip(p: Profile, a: Algorithm, id: Byte)
    requires Constructible(p)
    ensures AlgorithmWireId(p, a) == Some(id) <==> AlgorithmFromWireId(p, id) == Some(a)
  {
    hide AlgorithmWireId, Constructible, FirstWithId;
    assert a in ALGORITHMS by { EveryAlgorithmIsListed(a); }
    if AlgorithmWireId(p, a) == Some(id) {
      FirstWithIdFinds(p, ALGORITHMS, id, a);
    }
    FirstWithIdSound(p, ALGORITHMS, id);
  }

  lemma EveryAlgorithmIsListed(a: Algorithm)
    ensures a in ALGORITHMS
  {
    assert ALGORITHMS[0] == Rsa1024 && ALGORITHMS[1] == Rsa2048 && ALGORITHMS[2] == Rsa3072;
    assert ALGORITHMS[3] == Rsa4096 && ALGORITHMS[4] == EccP256 && ALGORITHMS[5] == EccP384;
    assert ALGORITHMS[6] == EccP521 && ALGORITHMS[7] == Secp256k1 && ALGORITHMS[8] == Sm2;
    assert ALGORITHMS[9] == Ed25519 && ALGORITHMS[10] == X25519 && ALGORITHMS[11] == MlDsa65;
    assert ALGORITHMS[12] == MlKem768;
  }

  /** An algorithm that may be used for keys can always be named on the wire. */
  lemma SupportedAlgorithmHasWireId(p: Profile, a: Algorithm)
    requires Constructible(p) && KeyAlgorithmSupport(p, a) == Supported
    ensures AlgorithmWireId(p, a).Some?
  {
  }
}
