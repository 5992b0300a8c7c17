/**
 Strict CTAP2 CBOR as functions: data items, their wire form, the canonical normal form, and what
 the parser and the encoder compute.
 */
module Cbor {
  import opened Base
  import opened CborOrder

  const MAX_DEPTH: nat := 64

  predicate Continuation(b: Byte) { 0x80 <= b <= 0xbf }

  /** Well-formed UTF-8 (section 4 of RFC 3629). */
  predicate ValidUtf8(s: Bytes) {
    if s == [] then true
    else if s[0] < 0x80 then ValidUtf8(s[1..])
    else if 0xc2 <= s[0] <= 0xdf then |s| >= 2 && Continuation(s[1]) && ValidUtf8(s[2..])
    else if 0xe0 <= s[0] <= 0xef then
      && |s| >= 3 && Continuation(s[1]) && Continuation(s[2])
      && (s[0] == 0xe0 ==> s[1] >= 0xa0) && (s[0] == 0xed ==> s[1] <= 0x9f)
      && ValidUtf8(s[3..])
    else if 0xf0 <= s[0] <= 0xf4 then
      && |s| >= 4 && Continuation(s[1]) && Continuation(s[2]) && Continuation(s[3])
      && (s[0] == 0xf0 ==> s[1] >= 0x90) && (s[0] == 0xf4 ==> s[1] <= 0x8f)
      && ValidUtf8(s[4..])
    else false
  }

  type Utf8 = s: Bytes | ValidUtf8(s) witness []

  /** A data item; `Negative(n)` is the integer -1 - n. Maps keep the order of the wire. */
  datatype Value =
    | Unsigned(n: U64)
    | Negative(n: U64)
    | ByteString(bytes: Bytes)
    | Text(text: Utf8)
    | Array(items: seq<Value>)
    | Map(entries: seq<Entry>)
    | Bool(b: bool)
    | Null

  datatype Entry = Entry(key: Value, value: Value)

  function Limit(): Error { FailAt(LimitExceeded, Parsing) }
  function LimitConstruction(): Error { FailAt(LimitExceeded, Construction) }

  // ----- Wire form

  /** Major type and argument in shortest form (section 4.1 of RFC 8949). */
  function Head(major: nat, argument: nat): (h: Bytes)
    requires major < 8
    ensures 1 <= |h| <= 9
  {
    var tag := 32 * major;
    if argument < 24 then [tag + argument]
    else if argument < 0x100 then [tag + 24] + Be(argument, 1)
    else if argument < 0x1_0000 then [tag + 25] + Be(argument, 2)
    else if argument < 0x1_0000_0000 then [tag + 26] + Be(argument, 4)
    else [tag + 27] + Be(argument, 8)
  }

  /** The bytes of an item with every map in the order it is held in: no sorting. */
  function Wire(v: Value): (w: Bytes)
    ensures |w| >= 1
    decreases v
  {
    match v
    case Unsigned(n) => Head(0, n)
    case Negative(n) => Head(1, n)
    case ByteString(b) => Head(2, |b|) + b
    case Text(t) => Head(3, |t|) + t
    case Array(items) => Head(4, |items|) + WireItems(items)
    case Map(entries) => Head(5, |entries|) + WireEntries(entries)
    case Bool(b) => [if b then 0xf5 else 0xf4]
    case Null => [0xf6]
  }

  function WireItems(items: seq<Value>): Bytes
    decreases items
  {
    if items == [] then [] else Wire(items[0]) + WireItems(items[1..])
  }

  lemma NoEntries()
    ensures WireEntries([]) == []
  {
  }

  function WireEntries(entries: seq<Entry>): Bytes
    decreases entries
  {
    if entries == [] then []
    else WireEntry(entries[0]) + WireEntries(entries[1..])
  }

  function WireEntry(e: Entry): (w: Bytes)
    ensures |w| >= 2
    decreases e
  {
    Wire(e.key) + Wire(e.value)
  }

  // ----- Normal form

  /** The item with every map, at every depth and inside keys, put in canonical order. */
  function Norm(v: Value): Value
    decreases v
  {
    match v
    case Array(items) => Array(NormItems(items))
    case Map(entries) => Map(Values(Sort(NormPairs(entries))))
    case _ => v
  }

  function NormItems(items: seq<Value>): (r: seq<Value>)
    ensures |r| == |items|
    ensures forall i :: 0 <= i < |items| ==> r[i] == Norm(items[i])
    decreases items
  {
    if items == [] then [] else [Norm(items[0])] + NormItems(items[1..])
  }

  function NormEntry(e: Entry): Entry
    decreases e
  {
    Entry(Norm(e.key), Norm(e.value))
  }

  function NormPairs(entries: seq<Entry>): (r: seq<Pair<Entry>>)
    ensures |r| == |entries|
    ensures forall i :: 0 <= i < |entries| ==> r[i] == Keyed(NormEntry(entries[i]))
    decreases entries
  {
    if entries == [] then []
    else [Keyed(NormEntry(entries[0]))] + NormPairs(entries[1..])
  }

  /** An entry labelled with the wire form of its key. */
  function Keyed(e: Entry): Pair<Entry> { Pair(Wire(e.key), e) }

  function Values<T>(pairs: seq<Pair<T>>): (r: seq<T>)
    ensures |r| == |pairs|
    ensures forall i :: 0 <= i < |pairs| ==> r[i] == pairs[i].value
  {
    seq(|pairs|, i requires 0 <= i < |pairs| => pairs[i].value)
  }

  /** The canonical encoding. */
  function Enc(v: Value): Bytes { Wire(Norm(v)) }

  // ----- What the encoder and the parser accept

  /** Standing at nesting level `depth`, no part of the item is nested beyond the limit. */
  predicate Fits(v: Value, depth: nat)
    decreases v
  {
    && depth <= MAX_DEPTH
    && match v
       case Array(items) => forall i :: 0 <= i < |items| ==> Fits(items[i], depth + 1)
       case Map(entries) =>
         forall i :: 0 <= i < |entries| ==>
           Fits(entries[i].key, depth + 1) && Fits(entries[i].value, depth + 1)
       case _ => true
  }

  /** Every length is a 64-bit number, as every length in memory is. */
  predicate Sized(v: Value)
    decreases v
  {
    match v
    case ByteString(b) => |b| < U64_END
    case Text(t) => |t| < U64_END
    case Array(items) => |items| < U64_END && forall i :: 0 <= i < |items| ==> Sized(items[i])
    case Map(entries) =>
      |entries| < U64_END
      && forall i :: 0 <= i < |entries| ==> Sized(entries[i].key) && Sized(entries[i].value)
    case _ => true
  }

  /** In every map, at every depth, the keys have pairwise different canonical encodings. */
  predicate Distinct(v: Value)
    decreases v
  {
    match v
    case Array(items) => forall i :: 0 <= i < |items| ==> Distinct(items[i])
    case Map(entries) =>
      && (forall i :: 0 <= i < |entries| ==> Distinct(entries[i].key) && Distinct(entries[i].value))
      && (forall i, j :: 0 <= i < j < |entries| ==> Enc(entries[i].key) != Enc(entries[j].key))
    case _ => true
  }

  /** What `encode` returns: it fails exactly on items nested too deep. */
  function Encoded(v: Value): Result<Bytes> {
    if Fits(v, 1) then Ok(Enc(v)) else Err(LimitConstruction())
  }

  // ----- Parser specification

  function ArgumentWidth(info: nat): nat
    requires 24 <= info <= 27
  {
    if info == 24 then 1 else if info == 25 then 2 else if info == 26 then 4 else 8
  }

  /** Smallest argument that needs `count` bytes. */
  function ArgumentMinimum(count: nat): nat {
    if count == 1 then 24 else Pow256(count / 2)
  }

  lemma ArgumentIsU64(s: Bytes)
    requires |s| in {1, 2, 4, 8}
    ensures BeVal(s) < U64_END
  {
    BeValBound(s);
    Pow256Values();
  }

  /** The argument of the head whose initial byte, at `pos`, carries `info`. */
  function ArgumentAt(bytes: Bytes, pos: nat, info: nat): (r: Result<(U64, nat)>)
    requires pos < |bytes| && info < 32
    ensures r.Ok? ==> pos < r.value.1 <= |bytes|
  {
    if info <= 23 then Ok((info, pos + 1))
    else if info <= 27 then
      var count := ArgumentWidth(info);
      if pos + 1 + count > |bytes| then Err(Malformed())
      else
        var value := BeVal(bytes[pos + 1..pos + 1 + count]);
        ArgumentIsU64(bytes[pos + 1..pos + 1 + count]);
        if value < ArgumentMinimum(count) then Err(Malformed()) else Ok((value, pos + 1 + count))
    else Err(Malformed())
  }

  function Levels(depth: nat): nat {
    if depth > MAX_DEPTH then 0 else MAX_DEPTH + 1 - depth
  }

  /** The item that starts at `pos`, and the position after it. */
  function ItemAt(bytes: Bytes, pos: nat, depth: nat): (r: Result<(Value, nat)>)
    ensures r.Ok? ==> pos < r.value.1 <= |bytes|
    decreases Levels(depth), 1, 0
  {
    if depth > MAX_DEPTH then Err(Limit())
    else if pos >= |bytes| then Err(Malformed())
    else
      var major, info := bytes[pos] / 32, bytes[pos] % 32;
      if major == 7 then SimpleAt(info, pos)
      else if major == 6 then Err(Malformed())
      else
        var argument := ArgumentAt(bytes, pos, info);
        if argument.Err? then Err(argument.error)
        else ContentAt(bytes, major, argument.value.0, argument.value.1, depth)
  }

  function SimpleAt(info: nat, pos: nat): Result<(Value, nat)> {
    if info == 20 then Ok((Bool(false), pos + 1))
    else if info == 21 then Ok((Bool(true), pos + 1))
    else if info == 22 then Ok((Null, pos + 1))
    else Err(Malformed())
  }

  /** What follows a head of one of the major types 0 to 5; `pos` is the position after the head. */
  function ContentAt(bytes: Bytes, major: nat, argument: U64, pos: nat, depth: nat)
    : (r: Result<(Value, nat)>)
    requires pos <= |bytes| && depth <= MAX_DEPTH
    requires major <= 5
    ensures r.Ok? ==> pos <= r.value.1 <= |bytes|
    decreases Levels(depth), 0, 0
  {
    var remaining := |bytes| - pos;
    if major <= 1 then
      Ok((if major == 0 then Unsigned(argument) else Negative(argument), pos))
    else if major <= 3 then
      if argument > remaining then Err(Malformed())
      else
        var raw := bytes[pos..pos + argument];
        if major == 2 then Ok((ByteString(raw), pos + argument))
        else if ValidUtf8(raw) then Ok((Text(raw), pos + argument))
        else Err(Malformed())
    else if major == 4 then
      if argument > remaining then Err(Malformed())
      else
        var r := ItemsAt(bytes, pos, argument, depth + 1);
        if r.Err? then Err(r.error) else Ok((Array(r.value.0), r.value.1))
    else
      if argument > remaining / 2 then Err(Malformed())
      else
        var r := EntriesAt(bytes, pos, argument, depth + 1, {});
        if r.Err? then Err(r.error) else Ok((Map(r.value.0), r.value.1))
  }

  function ItemsAt(bytes: Bytes, pos: nat, count: nat, depth: nat): (r: Result<(seq<Value>, nat)>)
    ensures r.Ok? && pos <= |bytes| ==> pos <= r.value.1 <= |bytes|
    decreases Levels(depth), 2, count
  {
    if count == 0 then Ok(([], pos))
    else
      var first := ItemAt(bytes, pos, depth);
      if first.Err? then Err(first.error)
      else
        var rest := ItemsAt(bytes, first.value.1, count - 1, depth);
        if rest.Err? then rest else Ok(([first.value.0] + rest.value.0, rest.value.1))
  }

  /** `seen` holds the canonical encodings of the keys met so far. */
  function EntriesAt(bytes: Bytes, pos: nat, count: nat, depth: nat, seen: set<Bytes>)
    : (r: Result<(seq<Entry>, nat)>)
    ensures r.Ok? && pos <= |bytes| ==> pos <= r.value.1 <= |bytes|
    decreases Levels(depth), 2, count
  {
    if count == 0 then Ok(([], pos))
    else
      var key := ItemAt(bytes, pos, depth);
      if key.Err? then Err(key.error)
      else if Encoded(key.value.0).Err? then Err(Limit())
      else if Encoded(key.value.0).value in seen then Err(Malformed())
      else
        var value := ItemAt(bytes, key.value.1, depth);
        if value.Err? then Err(value.error)
        else
          var rest := EntriesAt(bytes, value.value.1, count - 1, depth, seen + {Encoded(key.value.0).value});
          if rest.Err? then rest
          else Ok(([Entry(key.value.0, value.value.0)] + rest.value.0, rest.value.1))
  }

  function ParsedItem(bytes: Bytes): Result<(Value, nat)> { ItemAt(bytes, 0, 1) }

  function Parsed(bytes: Bytes): Result<Value> {
    var r := ParsedItem(bytes);
    if r.Err? then Err(r.error)
    else if r.value.1 != |bytes| then Err(Malformed())
    else Ok(r.value.0)
  }

  // ----- Lookups

  function FirstMatch(entries: seq<Entry>, key: Value): Option<Value> {
    if entries == [] then None
    else if entries[0].key == key then Some(entries[0].value)
    else FirstMatch(entries[1..], key)
  }

  function MapGet(v: Value, key: Value): Option<Value> {
    if v.Map? then FirstMatch(v.entries, key) else None
  }

  type I64 = x: int | -0x8000_0000_0000_0000 <= x < 0x8000_0000_0000_0000

  function FromInt(value: I64): Value {
    if value >= 0 then Unsigned(value) else Negative(-(value + 1))
  }

  function AsInt(v: Value): Option<I64> {
    match v
    case Unsigned(n) => if n < 0x8000_0000_0000_0000 then Some(n) else None
    case Negative(n) => if n < 0x8000_0000_0000_0000 then Some(-1 - n) else None
    case _ => None
  }
}
