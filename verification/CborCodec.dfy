/** The CBOR parser and encoder as they run: cursor loops, a set of seen keys, an output buffer. */
module CborCodec {
  import opened Base
  import opened CborOrder
  import opened Cbor
  import opened CborParsing
  import opened CborCanonical

  // ----- Parser

  method ReadBe(bytes: Bytes, pos: nat, count: nat) returns (r: Result<(nat, nat)>)
    ensures r == if pos + count <= |bytes| then Ok((BeVal(bytes[pos..pos + count]), pos + count))
                 else Err(Malformed())
  {
    var end := pos + count;
    if end > |bytes| {
      return Err(Malformed());
    }
    var slice := bytes[pos..end];
    var value: nat := 0;
    for i := 0 to |slice|
      invariant value == BeVal(slice[..i])
    {
      assert slice[..i + 1][..i] == slice[..i];
      value := value * 256 + slice[i];
    }
    assert slice[..|slice|] == slice;
    return Ok((value, end));
  }

  method ReadArgument(bytes: Bytes, pos: nat, info: nat) returns (r: Result<(U64, nat)>)
    requires pos < |bytes| && info < 32
    ensures r == ArgumentAt(bytes, pos, info)
  {
    if info <= 23 {
      return Ok((info, pos + 1));
    } else if info <= 27 {
      var count := ArgumentWidth(info);
      var read := ReadBe(bytes, pos + 1, count);
      if read.Err? {
        return Err(read.error);
      }
      var (value, end) := read.value;
      if value < ArgumentMinimum(count) {
        return Err(Malformed());
      }
      ArgumentIsU64(bytes[pos + 1..pos + 1 + count]);
      return Ok((value, end));
    } else {
      return Err(Malformed());
    }
  }

  function ItemsAfter(items: seq<Value>, r: Result<(seq<Value>, nat)>): Result<(seq<Value>, nat)> {
    if r.Err? then r else Ok((items + r.value.0, r.value.1))
  }

  function EntriesAfter(entries: seq<Entry>, r: Result<(seq<Entry>, nat)>): Result<(seq<Entry>, nat)> {
    if r.Err? then r else Ok((entries + r.value.0, r.value.1))
  }

  lemma ItemsAfterOne(items: seq<Value>, v: Value, r: Result<(seq<Value>, nat)>)
    ensures ItemsAfter([], r) == r
    ensures ItemsAfter(items, ItemsAfter([v], r)) == ItemsAfter(items + [v], r)
  {
    if r.Ok? {
      assert [] + r.value.0 == r.value.0;
      assert items + ([v] + r.value.0) == items + [v] + r.value.0;
    }
  }

  lemma EntriesAfterOne(entries: seq<Entry>, e: Entry, r: Result<(seq<Entry>, nat)>)
    ensures EntriesAfter([], r) == r
    ensures EntriesAfter(entries, EntriesAfter([e], r)) == EntriesAfter(entries + [e], r)
  {
    if r.Ok? {
      assert [] + r.value.0 == r.value.0;
      assert entries + ([e] + r.value.0) == entries + [e] + r.value.0;
    }
  }

  method ParseAt(bytes: Bytes, start: nat, depth: nat) returns (r: Result<(Value, nat)>)
    ensures r == ItemAt(bytes, start, depth)
    decreases Levels(depth), 0
  {
    hide ArgumentAt, ItemsAt, EntriesAt;
    if depth > MAX_DEPTH {
      return Err(Limit());
    }
    if start >= |bytes| {
      return Err(Malformed());
    }
    var major, info := bytes[start] / 32, bytes[start] % 32;
    if major == 7 {
      return SimpleAt(info, start);
    }
    if major == 6 {
      return Err(Malformed());
    }
    var head := ReadArgument(bytes, start, info);
    if head.Err? {
      return Err(head.error);
    }
    var (argument, pos) := head.value;
    var remaining := |bytes| - pos;
    if major == 0 {
      return Ok((Unsigned(argument), pos));
    } else if major == 1 {
      return Ok((Negative(argument), pos));
    } else if major <= 3 {
      if argument > remaining {
        return Err(Malformed());
      }
      var raw := bytes[pos..pos + argument];
      if major == 2 {
        return Ok((ByteString(raw), pos + argument));
      }
      if !ValidUtf8(raw) {
        return Err(Malformed());
      }
      return Ok((Text(raw), pos + argument));
    } else if major == 4 {
      if argument > remaining {
        return Err(Malformed());
      }
      var items := ParseItems(bytes, pos, argument, depth + 1);
      return if items.Err? then Err(items.error) else Ok((Array(items.value.0), items.value.1));
    } else {
      if argument > remaining / 2 {
        return Err(Malformed());
      }
      var entries := ParseEntries(bytes, pos, argument, depth + 1);
      return if entries.Err? then Err(entries.error) else Ok((Map(entries.value.0), entries.value.1));
    }
  }

  /** The array loop of the parser. */
  method ParseItems(bytes: Bytes, pos: nat, count: nat, depth: nat) returns (r: Result<(seq<Value>, nat)>)
    ensures r == ItemsAt(bytes, pos, count, depth)
    decreases Levels(depth), 1
  {
    hide ItemAt;
    var items: seq<Value> := [];
    var cursor := pos;
    ItemsAfterOne([], Null, ItemsAt(bytes, pos, count, depth));
    for i := 0 to count
      invariant ItemsAt(bytes, pos, count, depth)
             == ItemsAfter(items, ItemsAt(bytes, cursor, count - i, depth))
    {
      var item := ParseAt(bytes, cursor, depth);
      if item.Err? {
        return Err(item.error);
      }
      ItemsAfterOne(items, item.value.0, ItemsAt(bytes, item.value.1, count - i - 1, depth));
      items := items + [item.value.0];
      cursor := item.value.1;
    }
    assert items + [] == items;
    return Ok((items, cursor));
  }

  /** The map loop of the parser, with its set of encoded keys. */
  method ParseEntries(bytes: Bytes, pos: nat, count: nat, depth: nat) returns (r: Result<(seq<Entry>, nat)>)
    ensures r == EntriesAt(bytes, pos, count, depth, {})
    decreases Levels(depth), 1
  {
    hide ItemAt, Encoded;
    var entries: seq<Entry> := [];
    var seen: set<Bytes> := {};
    var cursor := pos;
    EntriesAfterOne([], Entry(Null, Null), EntriesAt(bytes, pos, count, depth, {}));
    for i := 0 to count
      invariant EntriesAt(bytes, pos, count, depth, {})
             == EntriesAfter(entries, EntriesAt(bytes, cursor, count - i, depth, seen))
    {
      var key := ParseAt(bytes, cursor, depth);
      if key.Err? {
        return Err(key.error);
      }
      var encoded := Encode(key.value.0);
      if encoded.Err? {
        return Err(Limit());
      }
      if encoded.value in seen {
        return Err(Malformed());
      }
      seen := seen + {encoded.value};
      var value := ParseAt(bytes, key.value.1, depth);
      if value.Err? {
        return Err(value.error);
      }
      var entry := Entry(key.value.0, value.value.0);
      EntriesAfterOne(entries, entry, EntriesAt(bytes, value.value.1, count - i - 1, depth, seen));
      entries := entries + [entry];
      cursor := value.value.1;
    }
    assert entries + [] == entries;
    return Ok((entries, cursor));
  }

  /** Parse one item from the start of the input and report how much it used. */
  method ParseItem(bytes: Bytes) returns (r: Result<(Value, nat)>)
    ensures r.Ok? ==> var (v, end) := r.value;
                      end <= |bytes| && Wire(v) == bytes[..end] && Good(v, 1)
    ensures r.Err? ==> forall v :: Good(v, 1) ==> !(Wire(v) <= bytes)
    ensures r == ParsedItem(bytes)
  {
    hide ItemAt, Wire, Good;
    r := ParseAt(bytes, 0, 1);
    if r.Ok? {
      ParserDecidesGrammar(bytes, r.value.0, r.value.1);
    } else {
      forall v | Good(v, 1) ensures !(Wire(v) <= bytes) {
        ParserDecidesGrammar(bytes, v, |Wire(v)|);
      }
    }
  }

  /** Parse exactly one item and refuse trailing bytes. */
  method Parse(bytes: Bytes) returns (r: Result<Value>)
    ensures r.Ok? ==> Wire(r.value) == bytes && Good(r.value, 1)
    ensures r.Err? ==> forall v :: Good(v, 1) ==> Wire(v) != bytes
    ensures r == Parsed(bytes)
  {
    hide ItemAt, Wire, Good;
    var item := ParseItem(bytes);
    if item.Err? {
      return Err(item.error);
    }
    var (value, consumed) := item.value;
    if consumed != |bytes| {
      forall v | Good(v, 1) ensures Wire(v) != bytes {
        ParserDecidesGrammar(bytes, v, |bytes|);
      }
      return Err(Malformed());
    }
    assert bytes[..consumed] == bytes;
    return Ok(value);
  }

  // ----- Encoder

  class Buffer {
    var data: Bytes

    constructor ()
      ensures data == []
    {
      data := [];
    }

    method Push(b: Byte)
      modifies this
      ensures data == old(data) + [b]
    {
      data := data + [b];
    }

    method Extend(s: Bytes)
      modifies this
      ensures data == old(data) + s
    {
      data := data + s;
    }
  }

  method EmitHead(out: Buffer, major: nat, argument: nat)
    requires major < 8
    modifies out
    ensures out.data == old(out.data) + Head(major, argument)
  {
    var tag := 32 * major;
    if argument < 24 {
      out.Push(tag + argument);
    } else if argument <= 0xff {
      out.Push(tag + 24);
      out.Extend(Be(argument, 1));
    } else if argument <= 0xffff {
      out.Push(tag + 25);
      out.Extend(Be(argument, 2));
    } else if argument <= 0xffff_ffff {
      out.Push(tag + 26);
      out.Extend(Be(argument, 4));
    } else {
      out.Push(tag + 27);
      out.Extend(Be(argument, 8));
    }
  }

  /** `a` holds encoded keys and the values to encode; `b` the same entries in normal form. */
  ghost predicate Mirrors(a: seq<Pair<Value>>, b: seq<Pair<Entry>>) {
    |a| == |b| && forall i :: 0 <= i < |a| ==> MirrorsAt(a[i], b[i])
  }

  ghost predicate MirrorsAt(p: Pair<Value>, q: Pair<Entry>) {
    p.key == q.key == Wire(q.value.key) && q.value.value == Norm(p.value)
  }

  lemma {:induction false} InsertMirrors(p: Pair<Value>, q: Pair<Entry>, a: seq<Pair<Value>>, b: seq<Pair<Entry>>)
    requires Mirrors(a, b) && MirrorsAt(p, q)
    ensures Mirrors(Insert(p, a), Insert(q, b))
  {
    hide Wire, Norm;
    if a != [] && Less(a[0].key, p.key) {
      InsertMirrors(p, q, a[1..], b[1..]);
    }
  }

  /** Sorting encoded keys sorts the normal form alongside. */
  lemma {:induction false} SortMirrors(a: seq<Pair<Value>>, b: seq<Pair<Entry>>)
    requires Mirrors(a, b)
    ensures Mirrors(Sort(a), Sort(b))
  {
    hide Wire, Norm;
    if a != [] {
      SortMirrors(a[1..], b[1..]);
      InsertMirrors(a[0], b[0], Sort(a[1..]), Sort(b[1..]));
    }
  }

  lemma {:induction false} WireEntriesAppend(entries: seq<Entry>, e: Entry)
    ensures WireEntries(entries + [e]) == WireEntries(entries) + WireEntry(e)
  {
    hide Wire, WireEntry;
    if entries == [] {
      assert entries + [e] == [e];
    } else {
      assert (entries + [e])[1..] == entries[1..] + [e];
      WireEntriesAppend(entries[1..], e);
    }
  }

  lemma {:induction false} WireItemsAppend(items: seq<Value>, v: Value)
    ensures WireItems(items + [v]) == WireItems(items) + Wire(v)
  {
    hide Wire;
    if items == [] {
      assert items + [v] == [v];
    } else {
      assert (items + [v])[1..] == items[1..] + [v];
      WireItemsAppend(items[1..], v);
    }
  }

  /** Append the canonical encoding; the depth limit is the only way to fail. */
  method EncodeInto(v: Value, out: Buffer, depth: nat) returns (r: Result<()>)
    modifies out
    ensures r == if Fits(v, depth) then Ok(()) else Err(LimitConstruction())
    ensures r.Ok? ==> out.data == old(out.data) + Enc(v)
    decreases v, 1
  {
    hide Head, WireItems, WireEntries;
    if depth > MAX_DEPTH {
      return Err(LimitConstruction());
    }
    match v
    case Unsigned(n) => EmitHead(out, 0, n); return Ok(());
    case Negative(n) => EmitHead(out, 1, n); return Ok(());
    case ByteString(b) => EmitHead(out, 2, |b|); out.Extend(b); return Ok(());
    case Text(t) => EmitHead(out, 3, |t|); out.Extend(t); return Ok(());
    case Array(items) => r := EncodeItems(items, out, depth);
    case Map(entries) => r := EncodeMap(entries, out, depth);
    case Bool(b) => out.Push(if b then 0xf5 else 0xf4); return Ok(());
    case Null => out.Push(0xf6); return Ok(());
  }

  lemma ArrayEncoding(items: seq<Value>, depth: nat)
    ensures Enc(Array(items)) == Head(4, |items|) + WireItems(NormItems(items))
    ensures Fits(Array(items), depth)
       <==> depth <= MAX_DEPTH && forall i :: 0 <= i < |items| ==> Fits(items[i], depth + 1)
  {
  }

  method EncodeItems(items: seq<Value>, out: Buffer, depth: nat) returns (r: Result<()>)
    requires depth <= MAX_DEPTH
    modifies out
    ensures r == if Fits(Array(items), depth) then Ok(()) else Err(LimitConstruction())
    ensures r.Ok? ==> out.data == old(out.data) + Enc(Array(items))
    decreases items, 0
  {
    hide Head, Wire, Norm, Fits, WireItems, NormItems, Enc;
    ArrayEncoding(items, depth);
    NoItems();
    EmitHead(out, 4, |items|);
    ghost var start, norm := out.data, NormItems(items);
    for i := 0 to |items|
      invariant forall k :: 0 <= k < i ==> Fits(items[k], depth + 1)
      invariant out.data == start + WireItems(norm[..i])
    {
      r := EncodeInto(items[i], out, depth + 1);
      if r.Err? {
        return;
      }
      EncIsNormWire(items[i]);
      assert norm[..i + 1] == norm[..i] + [norm[i]];
      WireItemsAppend(norm[..i], norm[i]);
    }
    assert norm[..|items|] == norm;
    return Ok(());
  }

  method EncodeMap(entries: seq<Entry>, out: Buffer, depth: nat) returns (r: Result<()>)
    requires depth <= MAX_DEPTH
    modifies out
    ensures r == if Fits(Map(entries), depth) then Ok(()) else Err(LimitConstruction())
    ensures r.Ok? ==> out.data == old(out.data) + Enc(Map(entries))
    decreases Map(entries), 0
  {
    hide Head, Wire, Norm, Fits, Sort, WireEntries;
    MapLimits(entries, depth);
    var keyed := EncodeKeys(entries, depth);
    if keyed.Err? {
      return Err(keyed.error);
    }
    var encoded := Sort(keyed.value);
    ghost var target := Sort(NormPairs(entries));
    SortMirrors(keyed.value, NormPairs(entries));
    SortCorrect(keyed.value);
    ValuesBelow(keyed.value, entries);
    SortAll(keyed.value, v => Fits(v, depth + 1));
    MapEncoding(entries);
    EmitHead(out, 5, |encoded|);
    r := EncodeSorted(encoded, Map(entries), target, out, depth);
  }

  lemma {:induction false} ValuesBelow(s: seq<Pair<Value>>, entries: seq<Entry>)
    requires |s| == |entries| && forall k :: 0 <= k < |entries| ==> s[k].value == entries[k].value
    ensures forall p :: p in Sort(s) ==> p.value < Map(entries)
  {
    hide Sort, Ascending;
    SortCorrect(s);
    forall p | p in Sort(s) ensures p.value < Map(entries) {
      var k :| 0 <= k < |s| && s[k] == p;
    }
  }

  /** A property holds of all sorted values exactly when it holds of all values. */
  lemma SortAll(s: seq<Pair<Value>>, good: Value -> bool)
    ensures |Sort(s)| == |s|
    ensures (forall i :: 0 <= i < |s| ==> good(Sort(s)[i].value)) <==> (forall i :: 0 <= i < |s| ==> good(s[i].value))
  {
    hide Sort;
    SortCorrect(s);
    if forall i :: 0 <= i < |s| ==> good(Sort(s)[i].value) {
      forall i | 0 <= i < |s| ensures good(s[i].value) {
        assert s[i] in Sort(s);
      }
    }
    if forall i :: 0 <= i < |s| ==> good(s[i].value) {
      forall i | 0 <= i < |s| ensures good(Sort(s)[i].value) {
        assert Sort(s)[i] in s;
      }
    }
  }

  lemma MapEncoding(entries: seq<Entry>)
    ensures |Sort(NormPairs(entries))| == |entries|
    ensures Enc(Map(entries)) == Head(5, |entries|) + WireEntries(Values(Sort(NormPairs(entries))))
  {
    SortCorrect(NormPairs(entries));
  }

  /** The first loop over a map: encode every key into a buffer of its own. */
  method EncodeKeys(entries: seq<Entry>, depth: nat) returns (r: Result<seq<Pair<Value>>>)
    requires depth <= MAX_DEPTH
    ensures r.Err? ==> r.error == LimitConstruction()
    ensures r.Ok? <==> forall k :: 0 <= k < |entries| ==> Fits(entries[k].key, depth + 1)
    ensures r.Ok? ==> Mirrors(r.value, NormPairs(entries))
    ensures r.Ok? ==> forall k :: 0 <= k < |entries| ==> r.value[k].value == entries[k].value
    decreases Map(entries), 0, 0
  {
    hide Wire, Norm, Fits;
    var encoded: seq<Pair<Value>> := [];
    for i := 0 to |entries|
      invariant |encoded| == i
      invariant forall k :: 0 <= k < i ==> Fits(entries[k].key, depth + 1)
      invariant forall k :: 0 <= k < i ==> encoded[k] == Pair(Enc(entries[k].key), entries[k].value)
    {
      var keyBytes := new Buffer();
      var done := EncodeInto(entries[i].key, keyBytes, depth + 1);
      if done.Err? {
        return Err(done.error);
      }
      assert [] + Enc(entries[i].key) == Enc(entries[i].key);
      encoded := encoded + [Pair(keyBytes.data, entries[i].value)];
    }
    return Ok(encoded);
  }

  /** The second loop over a map: the keys in order, each followed by its value. */
  method EncodeSorted(encoded: seq<Pair<Value>>, ghost v: Value, ghost target: seq<Pair<Entry>>,
                      out: Buffer, depth: nat)
    returns (r: Result<()>)
    requires Mirrors(encoded, target)
    requires forall p :: p in encoded ==> p.value < v
    modifies out
    ensures r == if forall i :: 0 <= i < |encoded| ==> Fits(encoded[i].value, depth + 1) then Ok(())
                 else Err(LimitConstruction())
    ensures r.Ok? ==> out.data == old(out.data) + WireEntries(Values(target))
    decreases v, 0, 0
  {
    hide Wire, Norm, Fits, WireEntries;
    ghost var norm := Values(target);
    assert norm[..0] == [];
    NoEntries();
    for j := 0 to |encoded|
      invariant forall k :: 0 <= k < j ==> Fits(encoded[k].value, depth + 1)
      invariant out.data == old(out.data) + WireEntries(norm[..j])
    {
      assert encoded[j] in encoded;
      assert MirrorsAt(encoded[j], target[j]);
      out.Extend(encoded[j].key);
      r := EncodeInto(encoded[j].value, out, depth + 1);
      if r.Err? {
        return;
      }
      assert norm[..j + 1] == norm[..j] + [norm[j]];
      WireEntriesAppend(norm[..j], norm[j]);
    }
    assert norm[..|encoded|] == norm;
    return Ok(());
  }

  lemma EncIsNormWire(v: Value)
    ensures Enc(v) == Wire(Norm(v))
  {
  }

  lemma NoItems()
    ensures WireItems([]) == []
  {
  }

  /** The canonical encoding of an item, or the limit error when it is nested too deep. */
  method Encode(v: Value) returns (r: Result<Bytes>)
    ensures r == Encoded(v)
    decreases v, 2
  {
    hide Wire, Norm, Fits;
    var out := new Buffer();
    var done := EncodeInto(v, out, 1);
    assert [] + Enc(v) == Enc(v);
    return if done.Err? then Err(done.error) else Ok(out.data);
  }
}
