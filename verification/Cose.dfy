/** COSE public keys (section 7 of RFC 9052) as CBOR maps. */
module Cose {
  import opened Base
  import opened Cbor
  import opened CborParsing
  import opened CborCanonical

  datatype CoseAlgorithm =
    | Es256
    | EdDsa25519
    | MlDsa44
    | MlDsa65
    | MlDsa87
    | EcdhEsHkdf256
    | UnknownAlgorithm(raw: I64)

  function FromId(id: I64): CoseAlgorithm {
    if id == -7 || id == -9 then Es256
    else if id == -8 || id == -19 then EdDsa25519
    else if id == -48 then MlDsa44
    else if id == -49 then MlDsa65
    else if id == -50 then MlDsa87
    else if id == -25 then EcdhEsHkdf256
    else UnknownAlgorithm(id)
  }

  function Id(a: CoseAlgorithm): I64 {
    match a
    case Es256 => -7
    case EdDsa25519 => -8
    case MlDsa44 => -48
    case MlDsa65 => -49
    case MlDsa87 => -50
    case EcdhEsHkdf256 => -25
    case UnknownAlgorithm(id) => id
  }

  datatype CoseKey =
    | P256(algorithm: CoseAlgorithm, x: Bytes, y: Bytes)
    | Ed25519(x: Bytes)
    | MlDsa(algorithm: CoseAlgorithm, material: Bytes)
    | UnknownKey(preserved: Value)

  function GetInt(v: Value, key: I64): Option<I64> {
    var found := MapGet(v, FromInt(key));
    if found.None? then None else AsInt(found.value)
  }

  function GetBytes(v: Value, key: I64): Option<Bytes> {
    var found := MapGet(v, FromInt(key));
    if found.Some? && found.value.ByteString? then Some(found.value.bytes) else None
  }

  predicate Has(v: Value, key: I64) { MapGet(v, FromInt(key)).Some? }

  function PublicLength(a: CoseAlgorithm): nat {
    if a == MlDsa44 then 1312 else if a == MlDsa65 then 1952 else 2592
  }

  predicate Fixed32(b: Option<Bytes>) { b.Some? && |b.value| == 32 }

  function FromValue(v: Value): Result<CoseKey> {
    var kty := GetInt(v, 1);
    var alg := GetInt(v, 3);
    if !v.Map? || kty.None? || alg.None? then Err(Malformed())
    else
      var algorithm := FromId(alg.value);
      match algorithm
      case Es256 => EcKey(v, kty.value, algorithm)
      case EcdhEsHkdf256 => EcKey(v, kty.value, algorithm)
      case EdDsa25519 =>
        if kty.value != 1 || Has(v, -4) then Err(Malformed())
        else if !Fixed32(GetBytes(v, -2)) || GetInt(v, -1) != Some(6) then Err(Malformed())
        else Ok(Ed25519(GetBytes(v, -2).value))
      case UnknownAlgorithm(_) => Ok(UnknownKey(v))
      case _ =>
        var material := GetBytes(v, -1);
        if kty.value != 7 || Has(v, -2) then Err(Malformed())
        else if material.None? || |material.value| != PublicLength(algorithm) then Err(Malformed())
        else Ok(MlDsa(algorithm, material.value))
  }

  function EcKey(v: Value, kty: int, algorithm: CoseAlgorithm): Result<CoseKey> {
    if kty != 2 || Has(v, -4) then Err(Malformed())
    else if !Fixed32(GetBytes(v, -2)) || !Fixed32(GetBytes(v, -3)) || GetInt(v, -1) != Some(1) then
      Err(Malformed())
    else Ok(P256(algorithm, GetBytes(v, -2).value, GetBytes(v, -3).value))
  }

  function IntEntry(key: I64, value: I64): Entry { Entry(FromInt(key), FromInt(value)) }
  function BytesEntry(key: I64, value: Bytes): Entry { Entry(FromInt(key), ByteString(value)) }

  function ToValue(k: CoseKey): Value {
    match k
    case P256(algorithm, x, y) =>
      Map([IntEntry(1, 2), IntEntry(3, Id(algorithm)), IntEntry(-1, 1), BytesEntry(-2, x), BytesEntry(-3, y)])
    case Ed25519(x) =>
      Map([IntEntry(1, 1), IntEntry(3, Id(EdDsa25519)), IntEntry(-1, 6), BytesEntry(-2, x)])
    case MlDsa(algorithm, material) =>
      Map([IntEntry(1, 7), IntEntry(3, Id(algorithm)), BytesEntry(-1, material)])
    case UnknownKey(v) => v
  }

  /** The keys that exist: exact widths, and an unresolved algorithm on an unknown key. */
  predicate ValidKey(k: CoseKey) {
    match k
    case P256(algorithm, x, y) => (algorithm == Es256 || algorithm == EcdhEsHkdf256) && |x| == |y| == 32
    case Ed25519(x) => |x| == 32
    case MlDsa(algorithm, material) =>
      algorithm in {MlDsa44, MlDsa65, MlDsa87} && |material| == PublicLength(algorithm)
    case UnknownKey(v) =>
      v.Map? && GetInt(v, 1).Some? && GetInt(v, 3).Some? && FromId(GetInt(v, 3).value).UnknownAlgorithm?
  }

  /** Keys come back from their own map, for every key type. */
  lemma KeyRoundTrip(k: CoseKey)
    requires ValidKey(k)
    ensures FromValue(ToValue(k)) == Ok(k)
  {
    match k
    case P256(algorithm, x, y) => P256RoundTrip(algorithm, x, y);
    case Ed25519(x) => Ed25519RoundTrip(x);
    case MlDsa(algorithm, material) => MlDsaRoundTrip(algorithm, material);
    case UnknownKey(v) => hide FirstMatch;
  }

  lemma P256RoundTrip(algorithm: CoseAlgorithm, x: Bytes, y: Bytes)
    requires ValidKey(P256(algorithm, x, y))
    ensures FromValue(ToValue(P256(algorithm, x, y))) == Ok(P256(algorithm, x, y))
  {
    hide FirstMatch;
    var es := ToValue(P256(algorithm, x, y)).entries;
    MatchAt(es, 0); MatchAt(es, 1); MatchAt(es, 2); MatchAt(es, 3); MatchAt(es, 4);
    NoMatch(es, FromInt(-4));
  }

  lemma Ed25519RoundTrip(x: Bytes)
    requires ValidKey(Ed25519(x))
    ensures FromValue(ToValue(Ed25519(x))) == Ok(Ed25519(x))
  {
    hide FirstMatch;
    var es := ToValue(Ed25519(x)).entries;
    MatchAt(es, 0); MatchAt(es, 1); MatchAt(es, 2); MatchAt(es, 3);
    NoMatch(es, FromInt(-4));
  }

  lemma MlDsaRoundTrip(algorithm: CoseAlgorithm, material: Bytes)
    requires ValidKey(MlDsa(algorithm, material))
    ensures FromValue(ToValue(MlDsa(algorithm, material))) == Ok(MlDsa(algorithm, material))
  {
    hide FirstMatch;
    var es := ToValue(MlDsa(algorithm, material)).entries;
    MatchAt(es, 0); MatchAt(es, 1); MatchAt(es, 2);
    NoMatch(es, FromInt(-2));
  }

  /** Every key the parser returns is valid. */
  lemma FromValueIsValid(v: Value)
    requires FromValue(v).Ok?
    ensures ValidKey(FromValue(v).value)
  {
    hide FirstMatch;
  }

  /** Known keys are written with the labels in canonical order, so encoding moves nothing. */
  lemma KnownKeyIsCanonical(k: CoseKey)
    requires ValidKey(k) && !k.UnknownKey?
    ensures Canonical(ToValue(k)) && Good(ToValue(k), 1)
  {
    hide Wire, Canonical, Good;
    KeyBytes();
    FlatMapIsCanonical(ToValue(k).entries);
  }

  lemma KeyBytes()
    ensures Wire(FromInt(1)) == [0x01] && Wire(FromInt(3)) == [0x03]
    ensures Wire(FromInt(-1)) == [0x20] && Wire(FromInt(-2)) == [0x21] && Wire(FromInt(-3)) == [0x22]
  {
  }

  function NormKey(k: CoseKey): CoseKey {
    if k.UnknownKey? then UnknownKey(Norm(k.preserved)) else k
  }

  lemma GettersInNorm(v: Value, key: I64)
    requires Distinct(v)
    ensures GetInt(Norm(v), key) == GetInt(v, key)
    ensures GetBytes(Norm(v), key) == GetBytes(v, key)
    ensures Has(Norm(v), key) == Has(v, key)
  {
    hide FirstMatch, Wire;
    LookupInNorm(v, FromInt(key));
    var found := MapGet(v, FromInt(key));
    if found.Some? {
      NormShape(found.value);
    }
  }

  lemma NormShape(v: Value)
    ensures AsInt(Norm(v)) == AsInt(v)
    ensures Norm(v).ByteString? == v.ByteString? && (v.ByteString? ==> Norm(v) == v)
  {
  }

  /** Reading a key commutes with canonicalising its map. */
  lemma FromValueInNorm(v: Value)
    requires Distinct(v) && FromValue(v).Ok?
    ensures FromValue(Norm(v)) == Ok(NormKey(FromValue(v).value))
  {
    hide MapGet, Wire, GetInt, GetBytes, Has;
    GettersInNorm(v, 1);
    GettersInNorm(v, 3);
    GettersInNorm(v, -1);
    GettersInNorm(v, -2);
    GettersInNorm(v, -3);
    GettersInNorm(v, -4);
    assert Norm(v).Map? == v.Map?;
  }

  // ----- Exactly which maps are keys

  /** An item that reads as a 64-bit signed integer. */
  predicate IsInt(v: Option<Value>) {
    v.Some? && ((v.value.Unsigned? && v.value.n < 0x8000_0000_0000_0000)
                || (v.value.Negative? && v.value.n < 0x8000_0000_0000_0000))
  }

  predicate IsBytes(v: Option<Value>, length: nat) { v.Some? && v.value.ByteString? && |v.value.bytes| == length }

  /** The integer an item stands for: a negative item `n` is -1 - n. */
  function IntOf(v: Value): int
    requires v.Unsigned? || v.Negative?
  {
    if v.Unsigned? then v.n else -1 - v.n
  }

  lemma IntegersAreExact(x: I64, v: Value)
    ensures (FromInt(x).Unsigned? || FromInt(x).Negative?) && IntOf(FromInt(x)) == x
    ensures AsInt(v).Some? <==> IsInt(Some(v))
    ensures AsInt(v).Some? ==> AsInt(v).value == IntOf(v)
  {
  }

  /** What a map with resolved labels must hold to be a key: EC2, OKP, AKP, or anything else unread. */
  ghost predicate KeyMap(v: Value) {
    && v.Map?
    && var kty, alg := MapGet(v, Unsigned(1)), MapGet(v, Unsigned(3));
       && IsInt(kty) && IsInt(alg)
       && var a := IntOf(alg.value);
          if a == -7 || a == -9 || a == -25 then
            && kty.value == Unsigned(2) && MapGet(v, Negative(3)) == None
            && MapGet(v, Negative(0)) == Some(Unsigned(1))
            && IsBytes(MapGet(v, Negative(1)), 32) && IsBytes(MapGet(v, Negative(2)), 32)
          else if a == -8 || a == -19 then
            && kty.value == Unsigned(1) && MapGet(v, Negative(3)) == None
            && MapGet(v, Negative(0)) == Some(Unsigned(6)) && IsBytes(MapGet(v, Negative(1)), 32)
          else if -50 <= a <= -48 then
            && kty.value == Unsigned(7) && MapGet(v, Negative(1)) == None
            && IsBytes(MapGet(v, Negative(0)), if a == -48 then 1312 else if a == -49 then 1952 else 2592)
          else true
  }

  /** The key of such a map, its coordinates read straight off the labels. */
  ghost function KeyOf(v: Value): CoseKey
    requires KeyMap(v)
  {
    var a := IntOf(MapGet(v, Unsigned(3)).value);
    if a == -7 || a == -9 || a == -25 then
      P256(if a == -25 then EcdhEsHkdf256 else Es256, MapGet(v, Negative(1)).value.bytes, MapGet(v, Negative(2)).value.bytes)
    else if a == -8 || a == -19 then Ed25519(MapGet(v, Negative(1)).value.bytes)
    else if a == -48 then MlDsa(MlDsa44, MapGet(v, Negative(0)).value.bytes)
    else if a == -49 then MlDsa(MlDsa65, MapGet(v, Negative(0)).value.bytes)
    else if a == -50 then MlDsa(MlDsa87, MapGet(v, Negative(0)).value.bytes)
    else UnknownKey(v)
  }

  /** Acceptance is exact, and the key is the one the labels spell. */
  lemma FromValueExact(v: Value)
    ensures FromValue(v).Ok? <==> KeyMap(v)
    ensures KeyMap(v) ==> FromValue(v) == Ok(KeyOf(v))
    ensures FromValue(v).Err? ==> FromValue(v).error == FailAt(InvalidResponse, Parsing)
  {
    hide MapGet;
    assert FromInt(1) == Unsigned(1) && FromInt(3) == Unsigned(3);
    assert FromInt(-1) == Negative(0) && FromInt(-2) == Negative(1);
    assert FromInt(-3) == Negative(2) && FromInt(-4) == Negative(3);
  }
}
