/** The compatibility tables read off release numbers, and the identifiers read off configuration bytes. */
module CompatReleases {
  import opened Base
  import opened Compat

  // ----- Releases as numbers

  /** Version components are 16-bit. */
  predicate Sane(v: Version) { v.major < 0x1_0000 && v.minor < 0x1_0000 && v.patch < 0x1_0000 }

  function Number(v: Version): nat { (v.major * 0x1_0000 + v.minor) * 0x1_0000 + v.patch }

  lemma OrderIsNumeric(a: Version, b: Version)
    requires Sane(a) && Sane(b)
    ensures AtMost(a, b) <==> Number(a) <= Number(b)
  {
  }

  /** The release lies between two others, both included. */
  predicate Within(v: Version, first: nat, last: nat) { first <= Number(v) <= last }

  /** The series that share the newest rules. */
  predicate Newest(v: Version) { (v.major == 3 && v.minor == 1) || (v.major == 4 && v.minor == 0) }

  const V130: nat := 0x1_0003_0000
  const V152: nat := 0x1_0005_0002
  const V162: nat := 0x1_0006_0002
  const V200: nat := 0x2_0000_0000
  const V201: nat := 0x2_0000_0001
  const V300: nat := 0x3_0000_0000
  const V301: nat := 0x3_0000_0001
  const V303: nat := 0x3_0000_0003

  /** Where a feature that came with release `first` and went with `last` is known to be present. */
  predicate Present(v: Version, first: nat, last: nat, newest: bool) {
    if Newest(v) then newest
    else Within(v, first, last) && (Number(v) == V130 || Within(v, V152, V303))
  }

  /** Each capability, on every release: supported exactly where it is present. */
  lemma CapabilityOfRelease(p: Profile, c: Capability)
    requires p.firmware.Some? && Sane(p.firmware.value)
    ensures var v := p.firmware.value;
            CapabilityOf(p, c) == Supported
            <==> match c
                 case Admin => Present(v, V130, V303, true)
                 case AdminNdefWebUsb => Present(v, V152, V303, true)
                 case AdminExtendedConfiguration => Newest(v)
                 case AdminLegacyPivExtensions => Present(v, V200, V201, false)
                 case PivSelectResetsAuthentication => Present(v, V200, V303, true)
  {
    RangeOfRelease(p, Version(1, 3, 0));
    RangeOfRelease(p, Version(1, 5, 2));
    RangeOfRelease(p, Version(2, 0, 0));
    RangeOfRelease(p, Version(3, 1, 0));
    LegacyRange(p);
  }

  /** A range that is still open includes the newest series. */
  lemma RangeOfRelease(p: Profile, first: Version)
    requires p.firmware.Some? && Sane(p.firmware.value) && Sane(first) && Number(first) <= 0x3_0001_0000
    ensures FirmwareRange(p, first, Version(3, 1, 0)) == Supported
       <==> Present(p.firmware.value, Number(first), V303, true)
  {
    var v := CompatibilityBase(p.firmware.value);
    Landmarks(v);
    OrderIsNumeric(first, v);
  }

  lemma LegacyRange(p: Profile)
    requires p.firmware.Some? && Sane(p.firmware.value)
    ensures FirmwareRange(p, Version(2, 0, 0), Version(2, 0, 1)) == Supported
       <==> Present(p.firmware.value, V200, V201, false)
  {
    Landmarks(CompatibilityBase(p.firmware.value));
  }

  /** The releases that the tables name, against any other. */
  lemma Landmarks(v: Version)
    requires Sane(v)
    ensures AtMost(Version(1, 5, 2), v) <==> V152 <= Number(v)
    ensures AtMost(Version(1, 6, 2), v) <==> V162 <= Number(v)
    ensures AtMost(Version(2, 0, 0), v) <==> V200 <= Number(v)
    ensures AtMost(Version(3, 0, 0), v) <==> V300 <= Number(v)
    ensures AtMost(Version(3, 1, 0), v) <==> 0x3_0001_0000 <= Number(v)
    ensures AtMost(v, Version(2, 0, 1)) <==> Number(v) <= V201
    ensures AtMost(v, Version(3, 0, 3)) <==> Number(v) <= V303
    ensures AtMost(v, Version(3, 1, 0)) <==> Number(v) <= 0x3_0001_0000
    ensures v == Version(1, 3, 0) <==> Number(v) == V130
    ensures v == Version(3, 1, 0) <==> Number(v) == 0x3_0001_0000
  {
    OrderIsNumeric(Version(1, 5, 2), v);
    OrderIsNumeric(Version(1, 6, 2), v);
    OrderIsNumeric(Version(2, 0, 0), v);
    OrderIsNumeric(Version(3, 0, 0), v);
    OrderIsNumeric(Version(3, 1, 0), v);
    OrderIsNumeric(v, Version(2, 0, 1));
    OrderIsNumeric(v, Version(3, 0, 3));
    OrderIsNumeric(v, Version(3, 1, 0));
  }

  /** The configuration layout of every release, and an error for the ones nobody has inspected. */
  lemma LayoutOfRelease(p: Profile)
    requires p.firmware.Some? && Sane(p.firmware.value)
    ensures var v := p.firmware.value;
            AdminLayout(p)
            == if Newest(v) then Ok(Features)
               else if Number(v) == V130 then Ok(TouchPolicies)
               else if V152 <= Number(v) < V162 then Ok(BasicLayout)
               else if V162 <= Number(v) < V300 then Ok(KeyboardReturn)
               else if V300 <= Number(v) <= V303 then Ok(Reserved)
               else Err(Fail(CapabilityUnknown))
  {
    Landmarks(CompatibilityBase(p.firmware.value));
    Landmarks(Version(1, 3, 0));
  }

  // ----- Key algorithms

  /** The first release whose firmware has the algorithm behind an identifier of its own. */
  function Introduced(a: Algorithm): nat {
    if a in {Ed25519, X25519} then V301
    else if a in {EccP521, MlDsa65, MlKem768} then 0x3_0001_0000
    else V200
  }

  /**
   When a key algorithm may be used: three of them on every known release; the others from the
   release that introduced them, if the card's configuration gives them a usable identifier or,
   on the 2.0 releases without one, if the extensions were confirmed; RSA-1024 never.
   */
  lemma KeySupportIff(p: Profile, a: Algorithm)
    requires p.firmware.Some? && Sane(p.firmware.value)
    ensures var v := p.firmware.value;
            KeyAlgorithmSupport(p, a) == Supported
            <==> && Present(v, V130, V303, true)
                 && a != Rsa1024
                 && (|| a in {Rsa2048, EccP256, EccP384}
                     || (&& Present(v, Introduced(a), V303, true)
                         && if p.config.Some? then AlgorithmWireId(p, a).Some?
                            else Present(v, V200, V201, false) && p.legacyPivExtensions == Some(true)))
  {
    hide FirmwareRange, Present;
    var first := if a in {Ed25519, X25519} then Version(3, 0, 1)
                 else if a in {EccP521, MlDsa65, MlKem768} then Version(3, 1, 0)
                 else Version(2, 0, 0);
    RangeOfRelease(p, Version(1, 3, 0));
    RangeOfRelease(p, first);
    LegacyRange(p);
  }

  // ----- Identifiers

  /** Where the identifier of an algorithm stands in a configuration of `n` bytes. */
  function PlaceOf(a: Algorithm, n: nat): Option<nat> {
    match a
    case Ed25519 => Some(1)
    case Rsa3072 => Some(2)
    case Rsa4096 => Some(3)
    case X25519 => Some(4)
    case Secp256k1 => Some(5)
    case EccP521 => if n >= 8 then Some(6) else None
    case Sm2 => Some(if n >= 8 then 7 else 6)
    case MlDsa65 => if n >= 9 then Some(8) else None
    case MlKem768 => if n >= 10 then Some(9) else None
    case _ => None
  }

  /** The parsed configuration gives each algorithm the byte in its place, and no other algorithm any. */
  lemma ConfigPlaces(data: Bytes, ids: map<Algorithm, Byte>, a: Algorithm)
    requires |data| >= 7
    requires |ConfigFields(|data|)| < |data| && Assigns(ids, ConfigFields(|data|), data[1..], |ConfigFields(|data|)|)
    ensures a in ids <==> PlaceOf(a, |data|).Some?
    ensures a in ids ==> PlaceOf(a, |data|).value < |data| && ids[a] == data[PlaceOf(a, |data|).value]
  {
    var fields := ConfigFields(|data|);
    assert fields[..|fields|] == fields;
    FieldPlace(a, |data|);
    if PlaceOf(a, |data|).Some? {
      var k := PlaceOf(a, |data|).value - 1;
      assert fields[k] == a && data[1..][k] == data[k + 1];
    }
  }

  lemma FieldPlace(a: Algorithm, n: nat)
    requires n >= 7
    ensures var fields := ConfigFields(n);
            && (a in fields <==> PlaceOf(a, n).Some?)
            && (PlaceOf(a, n).Some? ==> 1 <= PlaceOf(a, n).value <= |fields| && fields[PlaceOf(a, n).value - 1] == a)
  {
    var fields := ConfigFields(n);
    assert fields[0] == Ed25519 && fields[1] == Rsa3072 && fields[2] == Rsa4096 && fields[3] == X25519
           && fields[4] == Secp256k1;
  }

  /** The fixed identifiers are exactly the ones a configuration may not assign, apart from zero. */
  lemma FixedIdsAreReserved(p: Profile, id: Byte)
    ensures ReservedId(id) && id != 0
       <==> exists a :: a in {Rsa1024, Rsa2048, EccP256, EccP384} && AlgorithmWireId(p, a) == Some(id)
  {
    if id == 0x06 {
      assert AlgorithmWireId(p, Rsa1024) == Some(id);
    } else if id == 0x07 {
      assert AlgorithmWireId(p, Rsa2048) == Some(id);
    } else if id == 0x11 {
      assert AlgorithmWireId(p, EccP256) == Some(id);
    } else if id == 0x14 {
      assert AlgorithmWireId(p, EccP384) == Some(id);
    }
  }

  /**
   The identifier of a configurable algorithm is the byte in its place of the observed
   configuration, unless extensions are off, or the release uses that byte for AES management
   or randomized signing.
   */
  lemma ConfiguredId(p: Profile, data: Bytes, a: Algorithm)
    requires p.firmware.Some? && Sane(p.firmware.value) && p.config.Some?
    requires |data| >= 7 && p.config.value.enabled == (data[0] == 1)
    requires |ConfigFields(|data|)| < |data|
    requires Assigns(p.config.value.ids, ConfigFields(|data|), data[1..], |ConfigFields(|data|)|)
    requires PlaceOf(a, |data|).Some?
    ensures PlaceOf(a, |data|).value < |data|
    ensures var id, v := data[PlaceOf(a, |data|).value], p.firmware.value;
            AlgorithmWireId(p, a)
            == if data[0] == 1 && !(Number(v) >= 0x3_0001_0000 && id in {0x0a, 0xff}) then Some(id) else None
  {
    hide Assigns;
    ConfigPlaces(data, p.config.value.ids, a);
    Landmarks(p.firmware.value);
  }

  /** Without an observed configuration: what the identifiers on the wire resolve to. */
  lemma DefaultIdsResolve(p: Profile)
    requires p.firmware.Some? && Sane(p.firmware.value) && p.config.None? && Constructible(p)
    ensures var v := p.firmware.value;
            if V200 <= Number(v) < V300 then
              && AlgorithmFromWireId(p, 0x22) == Some(Ed25519) && AlgorithmFromWireId(p, 0x50) == Some(Rsa3072)
              && AlgorithmFromWireId(p, 0x51) == Some(Rsa4096) && AlgorithmFromWireId(p, 0x52) == Some(X25519)
              && AlgorithmFromWireId(p, 0x53) == Some(Secp256k1) && AlgorithmFromWireId(p, 0x54) == Some(Sm2)
            else
              && AlgorithmFromWireId(p, 0xe0) == Some(Ed25519) && AlgorithmFromWireId(p, 0x05) == Some(Rsa3072)
              && AlgorithmFromWireId(p, 0x16) == Some(Rsa4096) && AlgorithmFromWireId(p, 0xe1) == Some(X25519)
  {
    hide AlgorithmFromWireId, Constructible, AtMost;
    Landmarks(p.firmware.value);
    Landmarks(CompatibilityBase(p.firmware.value));
    if V200 <= Number(p.firmware.value) < V300 {
      WireIdRoundTrip(p, Ed25519, 0x22);
      WireIdRoundTrip(p, Rsa3072, 0x50);
      WireIdRoundTrip(p, Rsa4096, 0x51);
      WireIdRoundTrip(p, X25519, 0x52);
      WireIdRoundTrip(p, Secp256k1, 0x53);
      WireIdRoundTrip(p, Sm2, 0x54);
    } else {
      WireIdRoundTrip(p, Ed25519, 0xe0);
      WireIdRoundTrip(p, Rsa3072, 0x05);
      WireIdRoundTrip(p, Rsa4096, 0x16);
      WireIdRoundTrip(p, X25519, 0xe1);
    }
  }
}
