/** `authenticatorData` (section 6.1 of WebAuthn Level 2). */
module AuthData {
  import opened Base
  import opened Cbor
  import opened CborParsing
  import opened CborCanonical
  import opened CborCodec
  import opened Cose

  const MIN_LEN: nat := 37
  const MAX_LEN: nat := 65536
  const MAX_CREDENTIAL_ID_LEN: nat := 1023

  const BACKUP_ELIGIBLE: nat := 0x08
  const BACKED_UP: nat := 0x10
  const ATTESTED: nat := 0x40
  const EXTENSIONS: nat := 0x80

  /** Whether a flag bit, given as a power of two, is set. */
  predicate Flag(flags: Byte, bit: nat)
    requires bit > 0
  {
    flags / bit % 2 == 1
  }

  datatype AttestedCredential = AttestedCredential(aaguid: Bytes, id: Bytes, key: CoseKey)

  datatype AuthenticatorData = AuthenticatorData(
    raw: Bytes,
    rpIdHash: Bytes,
    flags: Byte,
    signCount: nat,
    attested: Option<AttestedCredential>,
    extensions: Option<Value>)

  predicate TextKeyed(v: Value) {
    v.Map? && forall i :: 0 <= i < |v.entries| ==> v.entries[i].key.Text?
  }

  // ----- Sections

  function AttestedAt(bytes: Bytes, pos: nat): (r: Result<(AttestedCredential, nat)>)
    ensures r.Ok? ==> pos <= r.value.1 <= |bytes|
  {
    if pos + 18 > |bytes| then Err(Malformed())
    else
      var idLength := BeVal(bytes[pos + 16..pos + 18]);
      if !(1 <= idLength <= MAX_CREDENTIAL_ID_LEN) || pos + 18 + idLength > |bytes| then Err(Malformed())
      else
        var keyPos := pos + 18 + idLength;
        var item := ParsedItem(bytes[keyPos..]);
        if item.Err? then Err(item.error)
        else
          var key := FromValue(item.value.0);
          if key.Err? then Err(key.error)
          else
            Ok((AttestedCredential(bytes[pos..pos + 16], bytes[pos + 18..keyPos], key.value),
                keyPos + item.value.1))
  }

  function ExtensionsAt(bytes: Bytes, pos: nat): Result<(Value, nat)>
    requires pos <= |bytes|
  {
    var item := ParsedItem(bytes[pos..]);
    if item.Err? then Err(item.error)
    else if !TextKeyed(item.value.0) then Err(Malformed())
    else Ok((item.value.0, pos + item.value.1))
  }

  function ParsedAuthData(bytes: Bytes): Result<AuthenticatorData> {
    if !(MIN_LEN <= |bytes| <= MAX_LEN) then Err(Malformed())
    else
      var flags := bytes[32];
      if Flag(flags, BACKED_UP) && !Flag(flags, BACKUP_ELIGIBLE) then Err(Malformed())
      else
        var attested :=
          if Flag(flags, ATTESTED) then
            var r := AttestedAt(bytes, 37);
            if r.Err? then Err(r.error) else Ok((Some(r.value.0), r.value.1))
          else Ok((None, 37));
        if attested.Err? then Err(attested.error)
        else
          var extensions :=
            if Flag(flags, EXTENSIONS) then
              var r := ExtensionsAt(bytes, attested.value.1);
              if r.Err? then Err(r.error) else Ok((Some(r.value.0), r.value.1))
            else Ok((None, attested.value.1));
          if extensions.Err? then Err(extensions.error)
          else if extensions.value.1 != |bytes| then Err(Malformed())
          else
            Ok(AuthenticatorData(bytes, bytes[..32], flags, BeVal(bytes[33..37]),
                                 attested.value.0, extensions.value.0))
  }

  /** The attested section, advancing one position through its parts. */
  method ParseAttested(bytes: Bytes, start: nat) returns (r: Result<(AttestedCredential, nat)>)
    ensures r == AttestedAt(bytes, start)
  {
    hide ItemAt, FromValue;
    var pos := start;
    if pos + 18 > |bytes| {
      return Err(Malformed());
    }
    var aaguid := bytes[pos..pos + 16];
    var idLength := BeVal(bytes[pos + 16..pos + 18]);
    if !(1 <= idLength <= MAX_CREDENTIAL_ID_LEN) {
      return Err(Malformed());
    }
    pos := pos + 18;
    if pos + idLength > |bytes| {
      return Err(Malformed());
    }
    var id := bytes[pos..pos + idLength];
    pos := pos + idLength;
    var item := ParseItem(bytes[pos..]);
    if item.Err? {
      return Err(item.error);
    }
    pos := pos + item.value.1;
    var key := FromValue(item.value.0);
    if key.Err? {
      return Err(key.error);
    }
    return Ok((AttestedCredential(aaguid, id, key.value), pos));
  }

  /** The parser, advancing one position through the sections. */
  method ParseAuthData(bytes: Bytes) returns (r: Result<AuthenticatorData>)
    ensures r == ParsedAuthData(bytes)
  {
    hide ItemAt, FromValue, AttestedAt, TextKeyed;
    if |bytes| < MIN_LEN || |bytes| > MAX_LEN {
      return Err(Malformed());
    }
    var flags := bytes[32];
    if Flag(flags, BACKED_UP) && !Flag(flags, BACKUP_ELIGIBLE) {
      return Err(Malformed());
    }
    var pos := 37;
    var attested: Option<AttestedCredential> := None;
    if Flag(flags, ATTESTED) {
      var section := ParseAttested(bytes, pos);
      if section.Err? {
        return Err(section.error);
      }
      attested, pos := Some(section.value.0), section.value.1;
    }
    var extensions: Option<Value> := None;
    if Flag(flags, EXTENSIONS) {
      var item := ParseItem(bytes[pos..]);
      if item.Err? {
        return Err(item.error);
      }
      if !TextKeyed(item.value.0) {
        return Err(Malformed());
      }
      pos := pos + item.value.1;
      extensions := Some(item.value.0);
    }
    if pos != |bytes| {
      return Err(Malformed());
    }
    return Ok(AuthenticatorData(bytes, bytes[..32], flags, BeVal(bytes[33..37]), attested, extensions));
  }

  // ----- Assembly

  /** The attested section around an already encoded key item. */
  function AttestedBytes(aaguid: Bytes, id: Bytes, keyItem: Bytes): Bytes {
    aaguid + Be(|id|, 2) + id + keyItem
  }

  function HeaderBytes(rpIdHash: Bytes, flags: Byte, signCount: nat): Bytes {
    rpIdHash + [flags] + Be(signCount, 4)
  }

  /** What a relying party is sent for these parts: canonical key and extension items. */
  function Assemble(d: AuthenticatorData): Bytes {
    HeaderBytes(d.rpIdHash, d.flags, d.signCount)
    + (if d.attested.Some? then
         AttestedBytes(d.attested.value.aaguid, d.attested.value.id, Enc(ToValue(d.attested.value.key)))
       else [])
    + (if d.extensions.Some? then Enc(d.extensions.value) else [])
  }

  /** A valid key; a map kept for an unknown key type must itself be one that can be parsed. */
  ghost predicate EncodableKey(k: CoseKey) { ValidKey(k) && (k.UnknownKey? ==> Good(ToValue(k), 1)) }

  lemma EncodableKeyIsGood(k: CoseKey)
    requires EncodableKey(k)
    ensures Good(ToValue(k), 1)
  {
    if !k.UnknownKey? {
      KnownKeyIsCanonical(k);
    }
  }

  /** Parts that `authenticatorData` can carry. */
  ghost predicate Assemblable(d: AuthenticatorData) {
    && |d.rpIdHash| == 32 && d.signCount < 0x1_0000_0000
    && (Flag(d.flags, BACKED_UP) ==> Flag(d.flags, BACKUP_ELIGIBLE))
    && (Flag(d.flags, ATTESTED) <==> d.attested.Some?)
    && (Flag(d.flags, EXTENSIONS) <==> d.extensions.Some?)
    && (d.attested.Some? ==>
          && |d.attested.value.aaguid| == 16
          && 1 <= |d.attested.value.id| <= MAX_CREDENTIAL_ID_LEN
          && EncodableKey(d.attested.value.key))
    && (d.extensions.Some? ==> TextKeyed(d.extensions.value) && Good(d.extensions.value, 1))
    && |Assemble(d)| <= MAX_LEN
  }

  function NormData(d: AuthenticatorData): AuthenticatorData {
    d.(raw := Assemble(d),
       attested := match d.attested case None => None
                   case Some(a) => Some(a.(key := NormKey(a.key))),
       extensions := NormOption(d.extensions))
  }

  lemma HeaderParts(h: Bytes, rest: Bytes, rpIdHash: Bytes, flags: Byte, signCount: nat)
    requires h == HeaderBytes(rpIdHash, flags, signCount) && |rpIdHash| == 32 && signCount < 0x1_0000_0000
    ensures |h| == 37
    ensures (h + rest)[..32] == rpIdHash && (h + rest)[32] == flags
    ensures BeVal((h + rest)[33..37]) == signCount
  {
    hide Be, BeVal;
    assert (h + rest)[33..37] == Be(signCount, 4);
    Pow256Values();
    BeValBe(signCount, 4);
  }

  /** An encoded item at the front of the input is parsed to its normal form. */
  lemma ItemAtFront(v: Value, rest: Bytes)
    requires Good(v, 1)
    ensures ParsedItem(Enc(v) + rest) == Ok((Norm(v), |Enc(v)|))
  {
    hide Wire, Norm, Fits, Sized, Distinct, ItemAt;
    EncodeThenParse(v, rest);
  }

  lemma AttestedSection(bytes: Bytes, before: Bytes, a: AttestedCredential, rest: Bytes)
    requires |before| == 37 && |a.aaguid| == 16 && 1 <= |a.id| <= MAX_CREDENTIAL_ID_LEN
    requires EncodableKey(a.key)
    requires bytes == before + AttestedBytes(a.aaguid, a.id, Enc(ToValue(a.key))) + rest
    ensures AttestedAt(bytes, 37)
         == Ok((a.(key := NormKey(a.key)),
                37 + |AttestedBytes(a.aaguid, a.id, Enc(ToValue(a.key)))|))
  {
    hide Wire, Norm, Good, ItemAt, FromValue, ToValue, ValidKey, Be, BeVal, Enc;
    EncodableKeyIsGood(a.key);
    var item := Enc(ToValue(a.key));
    var keyPos := 37 + 18 + |a.id|;
    assert bytes[37..53] == a.aaguid;
    assert bytes[53..55] == Be(|a.id|, 2);
    Pow256Values();
    BeValBe(|a.id|, 2);
    assert bytes[55..keyPos] == a.id;
    assert bytes[keyPos..] == item + rest;
    ItemAtFront(ToValue(a.key), rest);
    KeyRoundTrip(a.key);
    assert Distinct(ToValue(a.key)) by { GoodIsDistinct(ToValue(a.key), 1); }
    FromValueInNorm(ToValue(a.key));
  }

  lemma GoodIsDistinct(v: Value, depth: nat)
    requires Good(v, depth)
    ensures Distinct(v)
  {
  }

  lemma ExtensionsSection(bytes: Bytes, pos: nat, v: Value)
    requires pos <= |bytes| && bytes[pos..] == Enc(v) && TextKeyed(v) && Good(v, 1)
    ensures ExtensionsAt(bytes, pos) == Ok((Norm(v), |bytes|))
  {
    hide Wire, Norm, Good, ItemAt, Enc;
    assert bytes[pos..] == Enc(v) + [];
    ItemAtFront(v, []);
    TextKeysInNorm(v);
  }

  lemma TextKeysInNorm(v: Value)
    requires TextKeyed(v)
    ensures TextKeyed(Norm(v))
  {
    hide Wire, Sorted;
    NormMap(v.entries);
    SortedAll(v.entries, (e: Entry) => e.key.Text?);
  }

  /** Assembling the parts and parsing gives the parts back, in normal form. */
  lemma AssembleThenParse(d: AuthenticatorData)
    requires Assemblable(d)
    ensures ParsedAuthData(Assemble(d)) == Ok(NormData(d))
  {
    hide Wire, Norm, Good, ItemAt, FromValue, ToValue, EncodableKey, Be, BeVal, Enc, AttestedAt, ExtensionsAt, TextKeyed, AttestedBytes, HeaderBytes, NormKey;
    var bytes := Assemble(d);
    var h := HeaderBytes(d.rpIdHash, d.flags, d.signCount);
    var a := if d.attested.Some? then
               AttestedBytes(d.attested.value.aaguid, d.attested.value.id, Enc(ToValue(d.attested.value.key)))
             else [];
    var e := if d.extensions.Some? then Enc(d.extensions.value) else [];
    assert bytes == h + (a + e) == (h + a) + e;
    HeaderParts(h, a + e, d.rpIdHash, d.flags, d.signCount);
    if d.attested.Some? {
      AttestedSection(bytes, h, d.attested.value, e);
    }
    if d.extensions.Some? {
      assert bytes[37 + |a|..] == e;
      ExtensionsSection(bytes, 37 + |a|, d.extensions.value);
    }
  }

  /**
   Every accepted input is the concatenation of its parsed sections: no byte is skipped and none
   is left over. `keyItem` is the item the public key was read from.
   */
  lemma ParseThenSections(bytes: Bytes) returns (keyItem: Value)
    requires ParsedAuthData(bytes).Ok?
    ensures var d := ParsedAuthData(bytes).value;
            && d.raw == bytes
            && bytes == HeaderBytes(d.rpIdHash, d.flags, d.signCount)
                        + (if d.attested.Some? then
                             AttestedBytes(d.attested.value.aaguid, d.attested.value.id, Wire(keyItem))
                           else [])
                        + (if d.extensions.Some? then Wire(d.extensions.value) else [])
            && (d.attested.Some? <==> Flag(d.flags, ATTESTED))
            && (d.extensions.Some? <==> Flag(d.flags, EXTENSIONS))
            && (d.attested.Some? ==> FromValue(keyItem) == Ok(d.attested.value.key) && Good(keyItem, 1))
            && (d.extensions.Some? ==> TextKeyed(d.extensions.value) && Good(d.extensions.value, 1))
  {
    hide Wire, Good, ItemAt, FromValue, Be, BeVal, Flag;
    var d := ParsedAuthData(bytes).value;
    HeaderFromParts(bytes);
    keyItem := Null;
    var pos := 37;
    if d.attested.Some? {
      keyItem, pos := AttestedFromParts(bytes);
    }
    if d.extensions.Some? {
      ItemFromParts(bytes, pos);
      assert bytes[pos..] == Wire(d.extensions.value);
    } else {
      assert bytes[pos..] == [];
    }
    assert bytes == bytes[..37] + bytes[37..pos] + bytes[pos..];
  }

  lemma HeaderFromParts(bytes: Bytes)
    requires |bytes| >= 37
    ensures bytes[..37] == HeaderBytes(bytes[..32], bytes[32], BeVal(bytes[33..37]))
  {
    hide Be, BeVal;
    BeBeVal(bytes[33..37]);
    assert bytes[..37] == bytes[..32] + [bytes[32]] + bytes[33..37];
  }

  lemma ItemFromParts(bytes: Bytes, pos: nat)
    requires pos <= |bytes| && ParsedItem(bytes[pos..]).Ok?
    ensures var (v, used) := ParsedItem(bytes[pos..]).value;
            pos + used <= |bytes| && bytes[pos..pos + used] == Wire(v) && Good(v, 1)
  {
    hide Wire, Good, ItemAt;
    var tail := bytes[pos..];
    var (v, used) := ParsedItem(tail).value;
    ParserDecidesGrammar(tail, v, used);
    assert bytes[pos..pos + used] == tail[0..used];
  }

  lemma AttestedFromParts(bytes: Bytes) returns (keyItem: Value, pos: nat)
    requires AttestedAt(bytes, 37).Ok?
    ensures var (a, end) := AttestedAt(bytes, 37).value;
            && pos == end <= |bytes| && 37 <= end
            && bytes[37..end] == AttestedBytes(a.aaguid, a.id, Wire(keyItem))
            && FromValue(keyItem) == Ok(a.key) && Good(keyItem, 1)
  {
    hide Wire, Good, ItemAt, FromValue, Be, BeVal;
    var (a, end) := AttestedAt(bytes, 37).value;
    var keyPos := 55 + |a.id|;
    keyItem, pos := ParsedItem(bytes[keyPos..]).value.0, end;
    ItemFromParts(bytes, keyPos);
    BeBeVal(bytes[53..55]);
    assert bytes[37..end] == bytes[37..53] + bytes[53..55] + bytes[55..keyPos] + bytes[keyPos..end];
  }

  // ----- Exactly what is accepted

  /** An attested credential as it lies on the wire: the key is still an item. */
  datatype Credential = Credential(aaguid: Bytes, id: Bytes, keyItem: Value)

  ghost predicate Acceptable(c: Credential) {
    |c.aaguid| == 16 && 1 <= |c.id| <= 1023 && Good(c.keyItem, 1) && FromValue(c.keyItem).Ok?
  }

  function CredentialBytes(c: Credential): Bytes
    requires |c.id| < 0x1_0000
  {
    c.aaguid + [|c.id| / 256, |c.id| % 256] + c.id + Wire(c.keyItem)
  }

  /** A header, the credential if flag bit 6 is set, the extensions if bit 7 is, and nothing more. */
  ghost predicate Laid(bytes: Bytes, credential: Option<Credential>, extensions: Option<Value>) {
    && 37 <= |bytes| <= 65536
    && (bytes[32] / 16 % 2 == 1 ==> bytes[32] / 8 % 2 == 1)
    && (bytes[32] / 64 % 2 == 1 <==> credential.Some?)
    && (bytes[32] / 128 % 2 == 1 <==> extensions.Some?)
    && (credential.Some? ==> Acceptable(credential.value))
    && (extensions.Some? ==> Good(extensions.value, 1) && TextKeyed(extensions.value))
    && bytes[37..] == (if credential.Some? then CredentialBytes(credential.value) else [])
                      + (if extensions.Some? then Wire(extensions.value) else [])
  }

  lemma WireAtFront(bytes: Bytes, v: Value, rest: Bytes)
    requires Good(v, 1) && bytes == Wire(v) + rest
    ensures ParsedItem(bytes) == Ok((v, |Wire(v)|))
  {
    hide Wire, Good, ItemAt;
    assert At(bytes, 0, Wire(v)) by { assert bytes[0..|Wire(v)|] == Wire(v); }
    ParserDecidesGrammar(bytes, v, |Wire(v)|);
  }

  lemma CredentialParses(bytes: Bytes, c: Credential, rest: Bytes)
    requires Acceptable(c) && |bytes| >= 37 && bytes[37..] == CredentialBytes(c) + rest
    ensures AttestedAt(bytes, 37)
         == Ok((AttestedCredential(c.aaguid, c.id, FromValue(c.keyItem).value), 37 + |CredentialBytes(c)|))
    ensures bytes[37 + |CredentialBytes(c)|..] == rest
  {
    hide Wire, Good, ItemAt, FromValue, BeVal;
    var tail, keyPos := bytes[37..], 55 + |c.id|;
    assert bytes[37..53] == tail[..16] == c.aaguid;
    assert bytes[53..55] == tail[16..18] == [|c.id| / 256, |c.id| % 256];
    BeVal2(bytes[53..55]);
    assert bytes[55..keyPos] == tail[18..18 + |c.id|] == c.id;
    assert bytes[keyPos..] == tail[18 + |c.id|..] == Wire(c.keyItem) + rest;
    WireAtFront(bytes[keyPos..], c.keyItem, rest);
    assert bytes[37 + |CredentialBytes(c)|..] == tail[|CredentialBytes(c)|..];
  }

  /** Whatever is laid out this way is accepted, with exactly these parts. */
  lemma LaidIsParsed(bytes: Bytes, credential: Option<Credential>, extensions: Option<Value>)
    requires Laid(bytes, credential, extensions)
    ensures ParsedAuthData(bytes)
         == Ok(AuthenticatorData(
                 bytes, bytes[..32], bytes[32], BeVal(bytes[33..37]),
                 if credential.None? then None
                 else Some(AttestedCredential(credential.value.aaguid, credential.value.id,
                                              FromValue(credential.value.keyItem).value)),
                 extensions))
  {
    hide Wire, Good, ItemAt, FromValue, BeVal, AttestedAt, TextKeyed, Acceptable;
    var e := if extensions.Some? then Wire(extensions.value) else [];
    var pos := 37;
    if credential.Some? {
      CredentialParses(bytes, credential.value, e);
      pos := 37 + |CredentialBytes(credential.value)|;
    }
    assert bytes[pos..] == e;
    if extensions.Some? {
      assert e == e + [];
      WireAtFront(bytes[pos..], extensions.value, []);
    }
  }

  /** Whatever is accepted is laid out this way. */
  lemma ParsedIsLaid(bytes: Bytes) returns (credential: Option<Credential>, extensions: Option<Value>)
    requires ParsedAuthData(bytes).Ok?
    ensures Laid(bytes, credential, extensions)
  {
    hide Wire, Good, ItemAt, FromValue, TextKeyed, ParsedAuthData, HeaderBytes, AttestedBytes, CredentialBytes;
    var d := ParsedAuthData(bytes).value;
    var keyItem := ParseThenSections(bytes);
    ParsedShape(bytes);
    extensions := d.extensions;
    credential := None;
    var h := HeaderBytes(d.rpIdHash, d.flags, d.signCount);
    if d.attested.Some? {
      var a := d.attested.value;
      credential := Some(Credential(a.aaguid, a.id, keyItem));
      SameCredentialBytes(credential.value);
    }
    assert bytes[37..] == bytes[|h|..];
  }

  lemma ParsedShape(bytes: Bytes)
    requires ParsedAuthData(bytes).Ok?
    ensures var d := ParsedAuthData(bytes).value;
            && 37 <= |bytes| <= 65536 && d.flags == bytes[32] && |HeaderBytes(d.rpIdHash, d.flags, d.signCount)| == 37
            && (bytes[32] / 16 % 2 == 1 ==> bytes[32] / 8 % 2 == 1)
            && (d.attested.Some? ==> |d.attested.value.aaguid| == 16 && 1 <= |d.attested.value.id| <= 1023)
  {
    hide Wire, ItemAt, FromValue, Be, BeVal, TextKeyed;
  }

  lemma SameCredentialBytes(c: Credential)
    requires |c.id| <= 1023
    ensures CredentialBytes(c) == AttestedBytes(c.aaguid, c.id, Wire(c.keyItem))
  {
    hide Wire, Be;
    IdLength(|c.id|);
  }

  lemma IdLength(n: nat)
    requires n <= 1023
    ensures Be(n, 2) == [n / 256, n % 256]
  {
    assert Be(n / 256, 1) == Be(n / 256 / 256, 0) + [n / 256 % 256];
  }

  /** Acceptance is exact, for every input. */
  lemma AcceptedIff(bytes: Bytes)
    ensures ParsedAuthData(bytes).Ok? <==> exists credential, extensions :: Laid(bytes, credential, extensions)
  {
    hide Laid, ParsedAuthData;
    if ParsedAuthData(bytes).Ok? {
      var credential, extensions := ParsedIsLaid(bytes);
    }
    if exists credential, extensions :: Laid(bytes, credential, extensions) {
      var credential, extensions :| Laid(bytes, credential, extensions);
      LaidIsParsed(bytes, credential, extensions);
    }
  }
}
