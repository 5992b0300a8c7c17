/** Definite-length BER fields: the strict reader and the bounded writer. */
module Tlv {
  import opened Base

  /** A field as read: its complete tag bytes, its value, and the input behind it. */
  datatype Field = Field(tag: Bytes, value: Bytes, rest: Bytes)

  /** Where a long tag that has used `n` bytes ends. */
  function TagEnd(bytes: Bytes, n: nat): (r: Option<nat>)
    ensures r.Some? ==> n < r.value <= |bytes| && r.value <= 4
    decreases 4 - n
  {
    if n >= |bytes| || n + 1 > 4 then None
    else if bytes[n] < 128 then Some(n + 1)
    else TagEnd(bytes, n + 1)
  }

  /** `parse_tag`: how many leading bytes form one checked tag. */
  function TagLength(bytes: Bytes): (r: Option<nat>)
    ensures r.Some? ==> 1 <= r.value <= |bytes| && r.value <= 4
  {
    if bytes == [] || bytes[0] == 0 || bytes[0] == 0xff then None
    else if bytes[0] % 32 != 31 then Some(1)
    else if |bytes| < 2 || bytes[1] % 128 == 0 then None
    else TagEnd(bytes, 1)
  }

  predicate IsTag(tag: Bytes) { TagLength(tag) == Some(|tag|) }

  /** The length at the head of `bytes`, in its only accepted form, with the bytes it takes. */
  function ReadLength(bytes: Bytes): (r: Option<(nat, nat)>)
    ensures r.Some? ==> 1 <= r.value.1 <= |bytes|
  {
    if bytes == [] then None
    else if bytes[0] < 128 then Some((bytes[0], 1))
    else
      var n := bytes[0] - 128;
      if n == 0 || n > 4 || 1 + n > |bytes| || bytes[1] == 0 then None
      else
        var length := BeVal(bytes[1..1 + n]);
        if length < 128 then None else Some((length, 1 + n))
  }

  /** `TlvReader::next` at a permitted depth. */
  function Read(bytes: Bytes, maxValue: nat): Result<Option<Field>> {
    if bytes == [] then Ok(None)
    else
      var tag := TagLength(bytes);
      if tag.None? then Err(Malformed())
      else
        var length := ReadLength(bytes[tag.value..]);
        if length.None? then Err(Malformed())
        else if length.value.0 > maxValue then Err(Fail(LimitExceeded))
        else
          var start := tag.value + length.value.1;
          if start + length.value.0 > |bytes| then Err(Malformed())
          else Ok(Some(Field(bytes[..tag.value], bytes[start..start + length.value.0], bytes[start + length.value.0..])))
  }

  // ----- Writing

  const U32_END: nat := 0x1_0000_0000

  /** Bytes the writer keeps of a length of at least 128: leading zero bytes are dropped. */
  function LengthBytes(n: nat): nat {
    if n < 0x100 then 1 else if n < 0x1_0000 then 2 else if n < 0x100_0000 then 3 else 4
  }

  function LengthHead(n: nat): Bytes
    requires n < U32_END
  {
    if n < 128 then [n] else [0x80 + LengthBytes(n)] + Be(n, LengthBytes(n))
  }

  function Item(tag: Bytes, value: Bytes): Bytes
    requires |value| < U32_END
  {
    tag + LengthHead(|value|) + value
  }

  /** `TlvWriter::push`: append one field unless the total would pass the limit. */
  function Push(out: Bytes, limit: nat, tag: Bytes, value: Bytes): Result<Bytes> {
    if |value| >= U32_END || |out| + |Item(tag, value)| > limit then Err(Fail(LimitExceeded))
    else Ok(out + Item(tag, value))
  }

  // ----- The strict reader accepts exactly what the writer writes

  lemma {:induction false} TagEndPrefix(a: Bytes, b: Bytes, n: nat)
    requires TagEnd(a, n).Some? && TagEnd(a, n).value <= |b| && a[..TagEnd(a, n).value] == b[..TagEnd(a, n).value]
    ensures TagEnd(b, n) == TagEnd(a, n)
    decreases 4 - n
  {
    var m := TagEnd(a, n).value;
    assert a[n] == a[..m][n] == b[..m][n] == b[n];
    if a[n] >= 128 {
      TagEndPrefix(a, b, n + 1);
    }
  }

  /** A tag is recognised by its own bytes, whatever follows. */
  lemma TagPrefix(a: Bytes, b: Bytes)
    requires TagLength(a).Some? && TagLength(a).value <= |b| && a[..TagLength(a).value] == b[..TagLength(a).value]
    ensures TagLength(b) == TagLength(a)
  {
    var m := TagLength(a).value;
    assert a[0] == a[..m][0] == b[..m][0] == b[0];
    if a[0] % 32 == 31 {
      assert a[1] == a[..m][1] == b[..m][1] == b[1];
      TagEndPrefix(a, b, 1);
    }
  }

  /**
   The tags there are: one byte whose low five bits are not all set, or such a byte and one to
   three more, of which exactly the last has its high bit clear and the first carries a number.
   */
  lemma TagShape(tag: Bytes)
    ensures IsTag(tag)
       <==> && 1 <= |tag| <= 4 && tag[0] != 0x00 && tag[0] != 0xff
            && (|tag| == 1 <==> tag[0] % 32 != 31)
            && (|tag| > 1 ==> tag[1] % 128 != 0 && tag[|tag| - 1] < 128)
            && forall i :: 1 <= i < |tag| - 1 ==> tag[i] >= 128
  {
    if |tag| >= 2 {
      TagEndShape(tag, 1);
    }
  }

  lemma {:induction false} TagEndShape(tag: Bytes, n: nat)
    requires n < |tag|
    ensures TagEnd(tag, n) == Some(|tag|)
       <==> |tag| <= 4 && tag[|tag| - 1] < 128 && forall i :: n <= i < |tag| - 1 ==> tag[i] >= 128
    decreases |tag| - n
  {
    if n + 1 < |tag| && n + 1 <= 4 && tag[n] >= 128 {
      TagEndShape(tag, n + 1);
    }
  }

  lemma Pow3()
    ensures Pow256(1) == 0x100 && Pow256(2) == 0x1_0000 && Pow256(3) == 0x100_0000 && Pow256(4) == U32_END
  {
    Pow256Values();
    assert Pow256(3) == 256 * Pow256(2);
  }

  lemma {:induction false} BeHead(n: nat, k: nat)
    requires 1 <= k && Pow256(k - 1) <= n < Pow256(k)
    ensures Be(n, k)[0] != 0
    decreases k
  {
    if k > 1 {
      assert Pow256(k - 1) == 256 * Pow256(k - 2);
      BeHead(n / 256, k - 1);
    }
  }

  lemma {:induction false} BeValLow(s: Bytes)
    requires s != [] && s[0] != 0
    ensures BeVal(s) >= Pow256(|s| - 1)
    decreases |s|
  {
    if |s| > 1 {
      BeValLow(s[..|s| - 1]);
    } else {
      assert s[..0] == [];
    }
  }

  lemma LengthWritten(n: nat, behind: Bytes)
    requires n < U32_END
    ensures ReadLength(LengthHead(n) + behind) == Some((n, |LengthHead(n)|))
  {
    var bytes := LengthHead(n) + behind;
    if n >= 128 {
      var k := LengthBytes(n);
      Pow3();
      assert Pow256(0) == 1;
      BeHead(n, k);
      BeValBe(n, k);
      assert bytes[1] == Be(n, k)[0];
      assert bytes[1..1 + k] == Be(n, k);
    }
  }

  /** A length without a leading zero byte takes the fewest bytes. */
  lemma MinimalLength(encoded: Bytes)
    requires 1 <= |encoded| <= 4 && encoded[0] != 0
    ensures BeVal(encoded) < U32_END && LengthBytes(BeVal(encoded)) == |encoded|
    ensures Be(BeVal(encoded), |encoded|) == encoded
  {
    hide Be, BeVal;
    Pow3();
    assert Pow256(0) == 1;
    BeValBound(encoded);
    BeValLow(encoded);
    BeBeVal(encoded);
  }

  lemma LengthRead(bytes: Bytes)
    requires ReadLength(bytes).Some?
    ensures var (n, used) := ReadLength(bytes).value;
            n < U32_END && used == |LengthHead(n)| && bytes[..used] == LengthHead(n)
  {
    var (n, used) := ReadLength(bytes).value;
    if bytes[0] >= 128 {
      var k := bytes[0] - 128;
      var encoded := bytes[1..1 + k];
      MinimalLength(encoded);
      hide Be, BeVal, LengthBytes;
      assert bytes[..used] == [bytes[0]] + encoded;
    } else {
      assert bytes[..1] == [bytes[0]];
    }
  }

  /** Round trip, both ways: a field is read exactly when its written form heads the input. */
  lemma ReaderMirrorsWriter(bytes: Bytes, maxValue: nat, f: Field)
    requires maxValue < U32_END
    ensures Read(bytes, maxValue) == Ok(Some(f))
       <==> |f.value| <= maxValue && IsTag(f.tag) && bytes == Item(f.tag, f.value) + f.rest
  {
    hide TagLength, ReadLength, LengthHead;
    if Read(bytes, maxValue) == Ok(Some(f)) {
      FieldRead(bytes, maxValue, f);
    }
    if |f.value| <= maxValue && IsTag(f.tag) && bytes == Item(f.tag, f.value) + f.rest {
      FieldWritten(maxValue, f);
    }
  }

  lemma FieldRead(bytes: Bytes, maxValue: nat, f: Field)
    requires maxValue < U32_END && Read(bytes, maxValue) == Ok(Some(f))
    ensures |f.value| <= maxValue && IsTag(f.tag) && bytes == Item(f.tag, f.value) + f.rest
  {
    hide TagLength, ReadLength, LengthHead;
    var t := TagLength(bytes).value;
    var behind := bytes[t..];
    LengthRead(behind);
    var (n, used) := ReadLength(behind).value;
    TagPrefix(bytes, f.tag);
    assert f.value == bytes[t + used..t + used + n];
    assert bytes == bytes[..t] + behind[..used] + bytes[t + used..t + used + n] + bytes[t + used + n..];
  }

  lemma FieldWritten(maxValue: nat, f: Field)
    requires |f.value| <= maxValue < U32_END && IsTag(f.tag)
    ensures Read(Item(f.tag, f.value) + f.rest, maxValue) == Ok(Some(f))
  {
    hide TagLength, ReadLength, LengthHead;
    var bytes := Item(f.tag, f.value) + f.rest;
    var head := LengthHead(|f.value|);
    var t := |f.tag|;
    assert bytes[..t] == f.tag;
    assert TagLength(f.tag) == Some(t);
    TagPrefix(f.tag, bytes);
    assert bytes[t..] == head + (f.value + f.rest);
    LengthWritten(|f.value|, f.value + f.rest);
    var start := t + |head|;
    assert bytes[start..start + |f.value|] == f.value;
    assert bytes[start + |f.value|..] == f.rest;
  }
}
