/**
 Canonical encoding: what sorting does to an item, and the round trips, injectivity and
 canonicity that follow.
 */
module CborCanonical {
  import opened Base
  import opened CborOrder
  import opened Cbor
  import opened CborParsing

  // ----- Where the entries of a normal form come from

  function Sorted(entries: seq<Entry>): (s: seq<Pair<Entry>>) { Sort(NormPairs(entries)) }

  lemma SortedContents(entries: seq<Entry>)
    ensures |Sorted(entries)| == |entries| && Ascending(Sorted(entries))
    ensures forall i :: 0 <= i < |entries| ==> Keyed(NormEntry(entries[i])) in Sorted(entries)
    ensures forall x :: x in Sorted(entries) ==>
              exists k :: 0 <= k < |entries| && x == Keyed(NormEntry(entries[k]))
  {
    hide Keyed, NormEntry, Sort, Ascending;
    var pairs := NormPairs(entries);
    SortCorrect(pairs);
    forall i | 0 <= i < |entries| ensures Keyed(NormEntry(entries[i])) in Sorted(entries) {
      assert pairs[i] in pairs;
    }
    forall x | x in Sorted(entries)
      ensures exists k :: 0 <= k < |entries| && x == Keyed(NormEntry(entries[k]))
    {
      assert x in pairs;
      var k :| 0 <= k < |pairs| && pairs[k] == x;
    }
  }

  /** The source index of the entry that sorting puts at position `i`. */
  lemma SortedFrom(entries: seq<Entry>, i: nat) returns (k: nat)
    requires i < |entries|
    ensures k < |entries| && |Sorted(entries)| == |entries|
    ensures Sorted(entries)[i] == Keyed(NormEntry(entries[k]))
  {
    hide Keyed, NormEntry, Sorted, Ascending;
    SortedContents(entries);
    assert Sorted(entries)[i] in Sorted(entries);
    k :| 0 <= k < |entries| && Sorted(entries)[i] == Keyed(NormEntry(entries[k]));
  }

  /** The position to which sorting moves entry `k`. */
  lemma SortedTo(entries: seq<Entry>, k: nat) returns (i: nat)
    requires k < |entries|
    ensures i < |entries| && |Sorted(entries)| == |entries|
    ensures Sorted(entries)[i] == Keyed(NormEntry(entries[k]))
  {
    hide Keyed, NormEntry, Sorted, Ascending;
    SortedContents(entries);
    i :| 0 <= i < |Sorted(entries)| && Sorted(entries)[i] == Keyed(NormEntry(entries[k]));
  }

  lemma NormMap(entries: seq<Entry>)
    ensures Norm(Map(entries)) == Map(Values(Sorted(entries)))
  {
  }

  // ----- Normal forms are normal, and as large as the original

  lemma {:induction false} NormIdempotent(v: Value)
    ensures Norm(Norm(v)) == Norm(v)
    decreases v
  {
    match v
    case Array(items) =>
      forall i | 0 <= i < |items| ensures Norm(Norm(items[i])) == Norm(items[i]) {
        NormIdempotent(items[i]);
      }
      assert NormItems(NormItems(items)) == NormItems(items);
    case Map(entries) => NormIdempotentMap(entries);
    case _ =>
  }

  lemma {:induction false} NormIdempotentMap(entries: seq<Entry>)
    ensures Norm(Norm(Map(entries))) == Norm(Map(entries))
    decreases entries
  {
    hide Norm, Wire, Sorted;
    var s := Sorted(entries);
    SortedContents(entries);
    forall i | 0 <= i < |s| ensures NormPairs(Values(s))[i] == s[i] {
      var k := SortedFrom(entries, i);
      NormIdempotentEntry(entries[k]);
    }
    assert NormPairs(Values(s)) == s;
    SortFixed(s);
    NormMap(entries);
    NormMap(Values(s));
    assert Sorted(Values(s)) == s by { SortedIsSort(Values(s)); }
  }

  lemma SortedIsSort(entries: seq<Entry>)
    ensures Sorted(entries) == Sort(NormPairs(entries))
  {
  }

  lemma {:induction false} NormIdempotentEntry(e: Entry)
    ensures NormEntry(NormEntry(e)) == NormEntry(e)
    decreases e
  {
    NormIdempotent(e.key);
    NormIdempotent(e.value);
  }

  lemma {:induction false} NormKeepsLimits(v: Value, depth: nat)
    ensures Fits(Norm(v), depth) <==> Fits(v, depth)
    ensures Sized(Norm(v)) <==> Sized(v)
    decreases v
  {
    match v
    case Array(items) =>
      forall i | 0 <= i < |items|
        ensures Fits(Norm(items[i]), depth + 1) <==> Fits(items[i], depth + 1)
        ensures Sized(Norm(items[i])) <==> Sized(items[i])
      {
        NormKeepsLimits(items[i], depth + 1);
      }
    case Map(entries) => NormKeepsLimitsMap(entries, depth);
    case _ =>
  }

  predicate FitsEntry(e: Entry, depth: nat) { Fits(e.key, depth) && Fits(e.value, depth) }
  predicate SizedEntry(e: Entry) { Sized(e.key) && Sized(e.value) }

  lemma {:induction false} NormKeepsLimitsEntry(e: Entry, depth: nat)
    ensures FitsEntry(NormEntry(e), depth) <==> FitsEntry(e, depth)
    ensures SizedEntry(NormEntry(e)) <==> SizedEntry(e)
    decreases e
  {
    NormKeepsLimits(e.key, depth);
    NormKeepsLimits(e.value, depth);
  }

  lemma MapLimits(entries: seq<Entry>, depth: nat)
    ensures Fits(Map(entries), depth)
       <==> depth <= MAX_DEPTH && forall i :: 0 <= i < |entries| ==> FitsEntry(entries[i], depth + 1)
    ensures Sized(Map(entries))
       <==> |entries| < U64_END && forall i :: 0 <= i < |entries| ==> SizedEntry(entries[i])
  {
  }

  /** A property holds of all entries of a normal form when it holds of all normalised entries. */
  lemma SortedAll(entries: seq<Entry>, good: Entry -> bool)
    ensures |Values(Sorted(entries))| == |entries|
    ensures (forall i :: 0 <= i < |entries| ==> good(Values(Sorted(entries))[i]))
       <==> (forall k :: 0 <= k < |entries| ==> good(NormEntry(entries[k])))
  {
    hide Keyed, NormEntry, Sorted, Ascending;
    var out := Values(Sorted(entries));
    SortedContents(entries);
    if forall k :: 0 <= k < |entries| ==> good(NormEntry(entries[k])) {
      forall i | 0 <= i < |entries| ensures good(out[i]) {
        var k := SortedFrom(entries, i);
        assert out[i] == NormEntry(entries[k]) by { KeyedValue(NormEntry(entries[k])); }
      }
    }
    if forall i :: 0 <= i < |entries| ==> good(out[i]) {
      forall k | 0 <= k < |entries| ensures good(NormEntry(entries[k])) {
        var i := SortedTo(entries, k);
        assert out[i] == NormEntry(entries[k]) by { KeyedValue(NormEntry(entries[k])); }
      }
    }
  }

  lemma KeyedValue(e: Entry)
    ensures Keyed(e).value == e
  {
  }

  lemma {:induction false} NormKeepsLimitsMap(entries: seq<Entry>, depth: nat)
    ensures Fits(Norm(Map(entries)), depth) <==> Fits(Map(entries), depth)
    ensures Sized(Norm(Map(entries))) <==> Sized(Map(entries))
    decreases entries
  {
    hide Norm, Wire, Sorted, NormEntry, FitsEntry, SizedEntry, Fits, Sized;
    NormMap(entries);
    MapLimits(entries, depth);
    MapLimits(Values(Sorted(entries)), depth);
    SortedAll(entries, e => FitsEntry(e, depth + 1));
    SortedAll(entries, e => SizedEntry(e));
    forall i | 0 <= i < |entries|
      ensures FitsEntry(NormEntry(entries[i]), depth + 1) <==> FitsEntry(entries[i], depth + 1)
      ensures SizedEntry(NormEntry(entries[i])) <==> SizedEntry(entries[i])
    {
      NormKeepsLimitsEntry(entries[i], depth + 1);
    }
  }

  lemma {:induction false} InsertLength(p: Pair<Entry>, s: seq<Pair<Entry>>)
    ensures |WireEntries(Values(Insert(p, s)))| == |WireEntry(p.value)| + |WireEntries(Values(s))|
  {
    hide Wire, WireEntry, Less;
    ValuesCons(p, s);
    if s != [] && Less(s[0].key, p.key) {
      InsertLength(p, s[1..]);
      ValuesCons(s[0], Insert(p, s[1..]));
      ValuesCons(s[0], s[1..]);
      assert s == [s[0]] + s[1..];
    } else {
      assert Insert(p, s) == [p] + s;
    }
  }

  lemma ValuesCons(p: Pair<Entry>, s: seq<Pair<Entry>>)
    ensures WireEntries(Values([p] + s)) == WireEntry(p.value) + WireEntries(Values(s))
  {
    hide Wire, WireEntry;
    var all := Values([p] + s);
    assert all[0] == p.value && all[1..] == Values(s);
  }

  lemma {:induction false} SortLength(s: seq<Pair<Entry>>)
    ensures |WireEntries(Values(Sort(s)))| == |WireEntries(Values(s))|
  {
    hide Wire, WireEntry, WireEntries, Insert;
    if s != [] {
      SortLength(s[1..]);
      InsertLength(s[0], Sort(s[1..]));
      ValuesCons(s[0], s[1..]);
      assert s == [s[0]] + s[1..];
    } else {
      assert Values(s) == Values(Sort(s));
    }
  }

  /** Sorting moves bytes around but never changes how many there are. */
  lemma {:induction false} NormLength(v: Value)
    ensures |Wire(Norm(v))| == |Wire(v)|
    decreases v, 1
  {
    match v
    case Array(items) => NormLengthItems(items);
    case Map(entries) =>
      SortLength(NormPairs(entries));
      NormLengthEntries(entries);
      SortedContents(entries);
    case _ =>
  }

  lemma {:induction false} NormLengthItems(items: seq<Value>)
    ensures |WireItems(NormItems(items))| == |WireItems(items)|
    decreases items, 0
  {
    hide Wire, Norm;
    if items != [] {
      NormLength(items[0]);
      NormLengthItems(items[1..]);
      assert NormItems(items)[1..] == NormItems(items[1..]);
    }
  }

  lemma {:induction false} NormLengthEntries(entries: seq<Entry>)
    ensures |WireEntries(Values(NormPairs(entries)))| == |WireEntries(entries)|
    decreases entries, 0
  {
    hide Wire, Norm, WireEntry, NormEntry;
    if entries != [] {
      NormLengthEntry(entries[0]);
      NormLengthEntries(entries[1..]);
      var p, rest := Keyed(NormEntry(entries[0])), NormPairs(entries[1..]);
      assert NormPairs(entries) == [p] + rest;
      ValuesCons(p, rest);
    }
  }

  lemma {:induction false} NormLengthEntry(e: Entry)
    ensures |WireEntry(NormEntry(e))| == |WireEntry(e)|
    decreases e, 2
  {
    NormLength(e.key);
    NormLength(e.value);
  }

  // ----- The wire form determines the item

  lemma {:induction false} WireUnique(bytes: Bytes, pos: nat, a: Value, b: Value)
    requires At(bytes, pos, Wire(a)) && At(bytes, pos, Wire(b))
    requires Sized(a) && Sized(b)
    ensures a == b
    decreases a, 1
  {
    hide Head, WireItems, WireEntries;
    var (majorA, argA, restA) := Parts(a);
    var (majorB, argB, restB) := Parts(b);
    WireParts(bytes, pos, a);
    WireParts(bytes, pos, b);
    if majorA != 7 {
      var after := pos + |Head(majorA, argA)|;
      match a {
        case Unsigned(_) =>
        case Negative(_) =>
        case ByteString(_) =>
        case Text(_) =>
        case Array(items) => WireItemsUnique(bytes, after, items, b.items);
        case Map(entries) => WireEntriesUnique(bytes, after, entries, b.entries);
      }
    }
  }

  /** Major type, argument and content; simple values carry their low five bits. */
  function Parts(v: Value): (nat, nat, Bytes) {
    match v
    case Unsigned(n) => (0, n, [])
    case Negative(n) => (1, n, [])
    case ByteString(b) => (2, |b|, b)
    case Text(t) => (3, |t|, t)
    case Array(items) => (4, |items|, WireItems(items))
    case Map(entries) => (5, |entries|, WireEntries(entries))
    case Bool(b) => (7, if b then 21 else 20, [])
    case Null => (7, 22, [])
  }

  lemma WireParts(bytes: Bytes, pos: nat, v: Value)
    requires At(bytes, pos, Wire(v)) && Sized(v)
    ensures var (major, argument, content) := Parts(v);
            && bytes[pos] / 32 == major
            && ArgumentAt(bytes, pos, bytes[pos] % 32) == Ok((argument, pos + |Head(major, argument)|))
            && At(bytes, pos + |Head(major, argument)|, content)
  {
    hide WireItems, WireEntries, ArgumentAt;
    var (major, argument, content) := Parts(v);
    assert Wire(v) == Head(major, argument) + content;
    PartsComplete(bytes, pos, major, argument, content);
  }

  lemma {:induction false} WireItemsUnique(bytes: Bytes, pos: nat, a: seq<Value>, b: seq<Value>)
    requires |a| == |b|
    requires At(bytes, pos, WireItems(a)) && At(bytes, pos, WireItems(b))
    requires forall i :: 0 <= i < |a| ==> Sized(a[i]) && Sized(b[i])
    ensures a == b
    decreases a, 0
  {
    hide Wire, Sized;
    if a != [] {
      AtConcat(bytes, pos, Wire(a[0]), WireItems(a[1..]));
      AtConcat(bytes, pos, Wire(b[0]), WireItems(b[1..]));
      WireUnique(bytes, pos, a[0], b[0]);
      WireItemsUnique(bytes, pos + |Wire(a[0])|, a[1..], b[1..]);
      assert a == [a[0]] + a[1..] && b == [b[0]] + b[1..];
    }
  }

  lemma {:induction false} WireEntriesUnique(bytes: Bytes, pos: nat, a: seq<Entry>, b: seq<Entry>)
    requires |a| == |b|
    requires At(bytes, pos, WireEntries(a)) && At(bytes, pos, WireEntries(b))
    requires forall i :: 0 <= i < |a| ==> SizedEntry(a[i]) && SizedEntry(b[i])
    ensures a == b
    decreases a, 0
  {
    hide Wire, Sized, WireEntry, SizedEntry;
    if a != [] {
      AtConcat(bytes, pos, WireEntry(a[0]), WireEntries(a[1..]));
      AtConcat(bytes, pos, WireEntry(b[0]), WireEntries(b[1..]));
      WireEntryUnique(bytes, pos, a[0], b[0]);
      WireEntriesUnique(bytes, pos + |WireEntry(a[0])|, a[1..], b[1..]);
      assert a == [a[0]] + a[1..] && b == [b[0]] + b[1..];
    }
  }

  lemma {:induction false} WireEntryUnique(bytes: Bytes, pos: nat, a: Entry, b: Entry)
    requires At(bytes, pos, WireEntry(a)) && At(bytes, pos, WireEntry(b))
    requires SizedEntry(a) && SizedEntry(b)
    ensures a == b
    decreases a, 2
  {
    hide Wire, Sized;
    AtConcat(bytes, pos, Wire(a.key), Wire(a.value));
    AtConcat(bytes, pos, Wire(b.key), Wire(b.value));
    WireUnique(bytes, pos, a.key, b.key);
    WireUnique(bytes, pos + |Wire(a.key)|, a.value, b.value);
  }

  // ----- Canonical items

  /** Every map, at every depth, is held in strictly ascending key order. */
  predicate Canonical(v: Value)
    decreases v
  {
    match v
    case Array(items) => forall i :: 0 <= i < |items| ==> Canonical(items[i])
    case Map(entries) =>
      && (forall i :: 0 <= i < |entries| ==> Canonical(entries[i].key) && Canonical(entries[i].value))
      && (forall i, j :: 0 <= i < j < |entries| ==> Less(Wire(entries[i].key), Wire(entries[j].key)))
    case _ => true
  }

  lemma {:induction false} CanonicalIsNormal(v: Value)
    requires Canonical(v)
    ensures Norm(v) == v
    decreases v
  {
    match v
    case Array(items) =>
      forall i | 0 <= i < |items| ensures Norm(items[i]) == items[i] {
        CanonicalIsNormal(items[i]);
      }
      assert NormItems(items) == items;
    case Map(entries) =>
      hide Wire, Less;
      var pairs := NormPairs(entries);
      forall i | 0 <= i < |entries| ensures pairs[i] == Keyed(entries[i]) {
        CanonicalIsNormal(entries[i].key);
        CanonicalIsNormal(entries[i].value);
      }
      StrictIsAscending(pairs);
      SortFixed(pairs);
      assert Values(pairs) == entries;
    case _ =>
  }

  lemma CanonicalIsDistinct(v: Value)
    requires Canonical(v)
    ensures Distinct(v)
    decreases v
  {
    hide Wire, Less, Norm;
    match v
    case Array(items) =>
      forall i | 0 <= i < |items| ensures Distinct(items[i]) {
        CanonicalIsDistinct(items[i]);
      }
    case Map(entries) =>
      forall i | 0 <= i < |entries|
        ensures Distinct(entries[i].key) && Distinct(entries[i].value)
        ensures Enc(entries[i].key) == Wire(entries[i].key)
      {
        CanonicalIsDistinct(entries[i].key);
        CanonicalIsDistinct(entries[i].value);
        CanonicalIsNormal(entries[i].key);
      }
      forall i, j | 0 <= i < j < |entries| ensures Wire(entries[i].key) != Wire(entries[j].key) {
        LessIsStrictTotalOrder(Wire(entries[i].key), Wire(entries[j].key), []);
      }
    case _ =>
  }

  lemma {:induction false} NormIsCanonical(v: Value)
    requires Distinct(v)
    ensures Canonical(Norm(v))
    decreases v
  {
    hide Wire, Less, Sort;
    match v
    case Array(items) =>
      forall i | 0 <= i < |items| ensures Canonical(Norm(items[i])) {
        NormIsCanonical(items[i]);
      }
    case Map(entries) =>
      NormMap(entries);
      SortedStrict(entries);
      SortedContents(entries);
      forall i | 0 <= i < |entries|
        ensures Canonical(Sorted(entries)[i].value.key) && Canonical(Sorted(entries)[i].value.value)
        ensures Sorted(entries)[i].key == Wire(Sorted(entries)[i].value.key)
      {
        var k := SortedFrom(entries, i);
        NormIsCanonical(entries[k].key);
        NormIsCanonical(entries[k].value);
      }
    case _ =>
  }

  lemma SortedStrict(entries: seq<Entry>)
    requires Distinct(Map(entries))
    ensures StrictlyAscending(Sorted(entries))
  {
    hide Wire, Norm, Sort;
    SortStrict(NormPairs(entries));
  }

  lemma {:induction false} NormDistinct(v: Value)
    requires Distinct(Norm(v))
    ensures Distinct(v)
    decreases v
  {
    match v
    case Array(items) =>
      forall i | 0 <= i < |items| ensures Distinct(items[i]) {
        assert NormItems(items)[i] == Norm(items[i]);
        NormDistinct(items[i]);
      }
    case Map(entries) =>
      hide Wire, Sort;
      NormMap(entries);
      SortedKeysDistinct(entries);
      SortedContents(entries);
      forall k | 0 <= k < |entries| ensures Distinct(entries[k].key) && Distinct(entries[k].value) {
        var i := SortedTo(entries, k);
        assert Values(Sorted(entries))[i] == NormEntry(entries[k]);
        NormDistinct(entries[k].key);
        NormDistinct(entries[k].value);
      }
      forall i, j | 0 <= i < j < |entries| ensures Enc(entries[i].key) != Enc(entries[j].key) {
        assert NormPairs(entries)[i].key == Enc(entries[i].key);
        assert NormPairs(entries)[j].key == Enc(entries[j].key);
      }
    case _ =>
  }

  lemma SortedKeysDistinct(entries: seq<Entry>)
    requires Distinct(Map(Values(Sorted(entries))))
    ensures DistinctKeys(NormPairs(entries))
  {
    hide Wire, Norm, Sort;
    var s := Sorted(entries);
    SortedContents(entries);
    forall i | 0 <= i < |s| ensures s[i].key == Enc(Values(s)[i].key) {
      var k := SortedFrom(entries, i);
      NormIdempotent(entries[k].key);
    }
    SortDistinct(NormPairs(entries));
  }

  // ----- Theorems

  /**
   Round trip: the canonical encoding of an item, followed by anything, parses to the normal
   form of the item and consumes exactly the encoding, precisely when no map repeats a key.
   */
  lemma EncodeThenParse(v: Value, rest: Bytes)
    requires Encoded(v).Ok? && Sized(v)
    ensures Distinct(v) <==> ParsedItem(Encoded(v).value + rest) == Ok((Norm(v), |Encoded(v).value|))
    ensures !Distinct(v) ==> ParsedItem(Encoded(v).value + rest).Err?
  {
    hide Wire, Norm, Fits, Sized, Distinct, ItemAt;
    var bytes := Enc(v) + rest;
    NormKeepsLimits(v, 1);
    assert At(bytes, 0, Enc(v));
    if Distinct(v) {
      NormIsCanonical(v);
      CanonicalIsDistinct(Norm(v));
    }
    ParserDecidesGrammar(bytes, Norm(v), |Enc(v)|);
    if Distinct(Norm(v)) {
      NormDistinct(v);
    }
    if ParsedItem(bytes).Ok? {
      var (w, end) := ParsedItem(bytes).value;
      ParserDecidesGrammar(bytes, w, end);
      WireUnique(bytes, 0, w, Norm(v));
    }
  }

  /** The round trip fails on a map that repeats a key: `encode` accepts it, `parse` refuses it. */
  lemma RepeatedKeyIsRefused()
    ensures var v := Map([Entry(Unsigned(1), Null), Entry(Unsigned(1), Null)]);
            && Encoded(v) == Ok([0xa2, 0x01, 0xf6, 0x01, 0xf6])
            && Parsed([0xa2, 0x01, 0xf6, 0x01, 0xf6]).Err?
  {
    var e := Entry(Unsigned(1), Null);
    var v := Map([e, e]);
    TwiceIsNormal(e);
    assert Wire(v) == [0xa2, 0x01, 0xf6, 0x01, 0xf6] by {
      assert [e, e][1..] == [e] && [e][1..] == [];
      assert WireEntry(e) == [0x01, 0xf6];
      assert WireEntries([e]) == [0x01, 0xf6];
    }
    assert !Distinct(v) by {
      assert Enc([e, e][0].key) == Enc([e, e][1].key);
    }
    assert Fits(v, 1) by { assert Fits(e.key, 2) && Fits(e.value, 2); }
    assert Encoded(v) == Ok(Wire(v)) && Wire(v) + [] == Wire(v);
    hide Wire, ItemAt;
    EncodeThenParse(v, []);
  }

  lemma {:induction false} TwiceIsNormal(e: Entry)
    requires NormEntry(e) == e
    ensures Norm(Map([e, e])) == Map([e, e])
  {
    hide Wire;
    var p := Keyed(e);
    assert [e, e][1..] == [e] && [e][1..] == [];
    assert NormPairs([e]) == [p];
    assert NormPairs([e, e]) == [p, p];
    LessIsStrictTotalOrder(p.key, p.key, p.key);
    SortFixed([p, p]);
    assert [p, p][1..] == [p] && [p][1..] == [];
  }

  /** An array in an array in an array: `n` levels in all, the innermost one null. */
  function Nest(n: nat): Value { if n <= 1 then Null else Array([Nest(n - 1)]) }

  lemma {:induction false} NestDepth(n: nat, depth: nat)
    requires n >= 1
    ensures Fits(Nest(n), depth) <==> depth + n - 1 <= 64
    ensures Sized(Nest(n)) && Distinct(Nest(n)) && Norm(Nest(n)) == Nest(n)
    decreases n
  {
    if n > 1 {
      NestDepth(n - 1, depth + 1);
      assert [Nest(n - 1)][0] == Nest(n - 1);
    }
  }

  /** One level too many is reported as a limit, wherever it lies in the input. */
  lemma {:induction false} TooDeep(bytes: Bytes, pos: nat, n: nat, depth: nat)
    requires n >= 1 && 1 <= depth <= 65 && depth + n - 1 > 64 && At(bytes, pos, Wire(Nest(n)))
    ensures ItemAt(bytes, pos, depth) == Err(FailAt(LimitExceeded, Parsing))
    decreases n
  {
    hide Wire;
    if depth <= 64 {
      var inner := Nest(n - 1);
      NestWire(n);
      AtConcat(bytes, pos, Head(4, 1), Wire(inner));
      HeadComplete(bytes, pos, 4, 1);
      TooDeep(bytes, pos + 1, n - 1, depth + 1);
      assert ItemsAt(bytes, pos + 1, 1, depth + 1) == Err(FailAt(LimitExceeded, Parsing));
      assert bytes[pos] == Head(4, 1)[0] == 0x81 by { assert bytes[pos..pos + 1] == Head(4, 1); }
    }
  }

  lemma NestWire(n: nat)
    requires n >= 2
    ensures |Head(4, 1)| == 1 && |Wire(Nest(n - 1))| >= 1 && Wire(Nest(n)) == Head(4, 1) + Wire(Nest(n - 1))
  {
    var items := [Nest(n - 1)];
    assert items[1..] == [];
    assert WireItems(items) == Wire(Nest(n - 1)) + WireItems(items[1..]);
  }

  /** Both directions stop at the same nesting: 64 levels pass, 65 are over the limit. */
  lemma NestingLimit(n: nat)
    requires n >= 1
    ensures Encoded(Nest(n)).Ok? <==> n <= 64
    ensures Encoded(Nest(n)).Err? ==> Encoded(Nest(n)).error == FailAt(LimitExceeded, Construction)
    ensures Parsed(Wire(Nest(n))).Ok? <==> n <= 64
    ensures n > 64 ==> Parsed(Wire(Nest(n))) == Err(FailAt(LimitExceeded, Parsing))
  {
    hide Wire, ItemAt, Nest, Fits, Distinct, Norm, Sized, Canonical;
    NestDepth(n, 1);
    var bytes := Wire(Nest(n));
    if n <= 64 {
      EncodeThenParse(Nest(n), []);
      assert bytes + [] == bytes;
    }
    if n > 64 {
      assert At(bytes, 0, Wire(Nest(n)));
      TooDeep(bytes, 0, n, 1);
    }
  }

  /** No canonical encoding is a proper prefix of another one. */
  lemma EncodingIsPrefixFree(u: Value, v: Value, rest: Bytes, rest': Bytes)
    requires Sized(u) && Sized(v)
    requires Enc(u) + rest == Enc(v) + rest'
    ensures Norm(u) == Norm(v) && rest == rest'
  {
    hide Wire, Norm, Fits, Sized;
    NormKeepsLimits(u, 1);
    NormKeepsLimits(v, 1);
    var bytes := Enc(u) + rest;
    assert At(bytes, 0, Enc(u));
    assert At(bytes, 0, Enc(v)) by {
      assert bytes[0..|Enc(v)|] == (Enc(v) + rest')[0..|Enc(v)|];
    }
    WireUnique(bytes, 0, Norm(u), Norm(v));
    assert rest == bytes[|Enc(u)|..] && rest' == bytes[|Enc(v)|..];
  }

  /**
   What `parse` accepts is spelled out by its result: writing the item in wire order gives the
   input back, encoding it gives as many bytes, and the same bytes exactly when every map on
   the wire was in canonical order.
   */
  lemma ParseThenEncode(bytes: Bytes)
    requires Parsed(bytes).Ok?
    ensures var v := Parsed(bytes).value;
            && Wire(v) == bytes && Encoded(v) == Ok(Enc(v)) && |Enc(v)| == |bytes|
            && Distinct(v)
            && (Enc(v) == bytes <==> Canonical(v))
  {
    hide Wire, Norm, Fits, Sized, Distinct, ItemAt, Canonical;
    var (v, end) := ParsedItem(bytes).value;
    ParserDecidesGrammar(bytes, v, end);
    assert bytes[0..|Wire(v)|] == bytes;
    NormLength(v);
    if Canonical(v) {
      CanonicalIsNormal(v);
    }
    if Enc(v) == bytes {
      NormKeepsLimits(v, 1);
      assert At(bytes, 0, Enc(v));
      WireUnique(bytes, 0, v, Norm(v));
      NormIsCanonical(v);
    }
  }

  lemma ParseIsInjective(a: Bytes, b: Bytes)
    requires Parsed(a).Ok? && Parsed(a) == Parsed(b)
    ensures a == b
  {
    hide Wire, Norm, Fits, Sized, Distinct, ItemAt, Canonical;
    ParseThenEncode(a);
    ParseThenEncode(b);
  }

  // ----- Equality up to the order of map entries

  predicate Permutation(p: seq<nat>, n: nat) {
    && |p| == n
    && (forall i :: 0 <= i < n ==> p[i] < n)
    && (forall i, j :: 0 <= i < j < n ==> p[i] != p[j])
    && (forall j :: 0 <= j < n ==> j in p)
  }

  /** The items differ only in the order of map entries, at any depth. */
  ghost predicate Reordered(u: Value, v: Value)
    decreases u
  {
    if u.Array? && v.Array? then
      |u.items| == |v.items| && forall i :: 0 <= i < |u.items| ==> Reordered(u.items[i], v.items[i])
    else if u.Map? && v.Map? then
      |u.entries| == |v.entries|
      && exists p: seq<nat> :: Permutation(p, |u.entries|) && Matches(u.entries, v.entries, p)
    else u == v
  }

  /** Entry `i` of `a` and entry `p[i]` of `b` agree up to reordering. */
  ghost predicate Matches(a: seq<Entry>, b: seq<Entry>, p: seq<nat>)
    requires |a| == |b| && Permutation(p, |a|)
    decreases a
  {
    forall i :: 0 <= i < |a| ==> EntryReordered(a[i], b[p[i]])
  }

  ghost predicate EntryReordered(e: Entry, f: Entry)
    decreases e
  {
    Reordered(e.key, f.key) && Reordered(e.value, f.value)
  }

  predicate DistinctEntry(e: Entry) { Distinct(e.key) && Distinct(e.value) }

  lemma {:induction false} ReorderedIffNorm(u: Value, v: Value)
    requires Distinct(u) && Distinct(v)
    ensures Reordered(u, v) <==> Norm(u) == Norm(v)
    decreases u
  {
    if u.Array? && v.Array? {
      var a, b := u.items, v.items;
      forall i | 0 <= i < |a| && i < |b| ensures Reordered(a[i], b[i]) <==> Norm(a[i]) == Norm(b[i]) {
        ReorderedIffNorm(a[i], b[i]);
      }
      assert Norm(u) == Norm(v) <==> NormItems(a) == NormItems(b);
      if Norm(u) == Norm(v) {
        forall i | 0 <= i < |a| ensures Norm(a[i]) == Norm(b[i]) {
          assert NormItems(a)[i] == NormItems(b)[i];
        }
      }
      if Reordered(u, v) {
        assert NormItems(a) == NormItems(b);
      }
    } else if u.Map? && v.Map? {
      var a, b := u.entries, v.entries;
      MapDistinct(a);
      MapDistinct(b);
      forall i, j | 0 <= i < |a| && 0 <= j < |b|
        ensures EntryReordered(a[i], b[j]) <==> NormEntry(a[i]) == NormEntry(b[j])
      {
        EntryReorderedIffNorm(a[i], b[j]);
      }
      if Reordered(u, v) {
        var p: seq<nat> :| Permutation(p, |a|) && Matches(a, b, p);
        SameSorted(a, b, p);
      }
      if Norm(u) == Norm(v) {
        var p := FindPermutation(a, b);
        assert Matches(a, b, p);
      }
    }
  }

  lemma {:induction false} EntryReorderedIffNorm(e: Entry, f: Entry)
    requires DistinctEntry(e) && DistinctEntry(f)
    ensures EntryReordered(e, f) <==> NormEntry(e) == NormEntry(f)
    decreases e
  {
    ReorderedIffNorm(e.key, f.key);
    ReorderedIffNorm(e.value, f.value);
  }

  lemma MapDistinct(entries: seq<Entry>)
    requires Distinct(Map(entries))
    ensures forall i :: 0 <= i < |entries| ==> DistinctEntry(entries[i])
    ensures forall i, j :: 0 <= i < j < |entries| ==> NormEntry(entries[i]) != NormEntry(entries[j])
  {
    forall i, j | 0 <= i < j < |entries| ensures NormEntry(entries[i]) != NormEntry(entries[j]) {
      assert Enc(entries[i].key) != Enc(entries[j].key);
    }
  }

  lemma SameSorted(a: seq<Entry>, b: seq<Entry>, p: seq<nat>)
    requires Distinct(Map(a)) && Distinct(Map(b))
    requires |a| == |b| && Permutation(p, |a|)
    requires forall i :: 0 <= i < |a| ==> NormEntry(a[i]) == NormEntry(b[p[i]])
    ensures Norm(Map(a)) == Norm(Map(b))
  {
    hide Wire, Norm, NormEntry, Distinct, Sort;
    SortedStrict(a);
    SortedStrict(b);
    SortedContents(a);
    SortedContents(b);
    forall x ensures x in Sorted(a) <==> x in Sorted(b) {
      if x in Sorted(a) {
        var i :| 0 <= i < |a| && x == Keyed(NormEntry(a[i]));
        assert x == Keyed(NormEntry(b[p[i]]));
      }
      if x in Sorted(b) {
        var j :| 0 <= j < |b| && x == Keyed(NormEntry(b[j]));
        assert j in p;
        var i :| 0 <= i < |p| && p[i] == j;
        assert x == Keyed(NormEntry(a[i]));
      }
    }
    StrictlyAscendingUnique(Sorted(a), Sorted(b));
    NormMap(a);
    NormMap(b);
  }

  lemma FindPermutation(a: seq<Entry>, b: seq<Entry>) returns (p: seq<nat>)
    requires Distinct(Map(a)) && Distinct(Map(b)) && Norm(Map(a)) == Norm(Map(b))
    ensures |a| == |b| && Permutation(p, |a|)
    ensures forall i :: 0 <= i < |a| ==> NormEntry(a[i]) == NormEntry(b[p[i]])
  {
    hide Wire, Norm, NormEntry, Distinct;
    MapDistinct(a);
    MapDistinct(b);
    NormSameCount(a, b);
    p := [];
    while |p| < |a|
      invariant |p| <= |a|
      invariant forall i :: 0 <= i < |p| ==> p[i] < |b| && NormEntry(a[i]) == NormEntry(b[p[i]])
    {
      var j := Partner(a, b, |p|);
      p := p + [j];
    }
    forall j | 0 <= j < |b| ensures j in p {
      var i := Partner(b, a, j);
      assert NormEntry(b[p[i]]) == NormEntry(b[j]);
      assert p[i] == j;
    }
  }

  lemma NormSameCount(a: seq<Entry>, b: seq<Entry>)
    requires Norm(Map(a)) == Norm(Map(b))
    ensures |a| == |b|
  {
    hide Wire, Norm, Sorted;
    NormMap(a);
    NormMap(b);
    SortedContents(a);
    SortedContents(b);
    assert |Values(Sorted(a))| == |a| && |Values(Sorted(b))| == |b|;
  }

  lemma Partner(a: seq<Entry>, b: seq<Entry>, i: nat) returns (j: nat)
    requires Norm(Map(a)) == Norm(Map(b)) && i < |a|
    ensures j < |b| && NormEntry(a[i]) == NormEntry(b[j])
  {
    hide Wire, Norm, NormEntry, Sort;
    NormMap(a);
    NormMap(b);
    var k := SortedTo(a, i);
    SortedContents(b);
    assert Values(Sorted(a))[k] == NormEntry(a[i]);
    j := SortedFrom(b, k);
    assert Values(Sorted(b))[k] == NormEntry(b[j]);
  }

  /**
   `encode` is canonical: on items without duplicate keys, two encodings are equal exactly when
   the items differ only in the order of map entries.
   */
  lemma EncodingIsCanonical(u: Value, v: Value)
    requires Distinct(u) && Distinct(v) && Sized(u) && Sized(v)
    ensures Enc(u) == Enc(v) <==> Reordered(u, v)
  {
    hide Wire, Norm, Sized, Distinct, Reordered;
    ReorderedIffNorm(u, v);
    if Enc(u) == Enc(v) {
      EncodingIsPrefixFree(u, v, [], []);
    }
  }

  // ----- Lookups

  /** A parsed map answers each lookup from its one matching entry. */
  lemma {:induction false} LookupIsUnique(entries: seq<Entry>, i: nat)
    requires Distinct(Map(entries)) && i < |entries|
    ensures MapGet(Map(entries), entries[i].key) == Some(entries[i].value)
    ensures forall j :: 0 <= j < |entries| && entries[j].key == entries[i].key ==> j == i
  {
    MatchAt(entries, i);
  }

  lemma {:induction false} MatchAt(entries: seq<Entry>, i: nat)
    requires i < |entries|
    requires forall j :: 0 <= j < i ==> entries[j].key != entries[i].key
    ensures FirstMatch(entries, entries[i].key) == Some(entries[i].value)
  {
    if i > 0 {
      assert entries[1..][i - 1] == entries[i];
      MatchAt(entries[1..], i - 1);
    }
  }

  lemma {:induction false} NoMatch(entries: seq<Entry>, key: Value)
    ensures FirstMatch(entries, key) == None <==> forall i :: 0 <= i < |entries| ==> entries[i].key != key
  {
    if entries != [] {
      NoMatch(entries[1..], key);
      assert forall i :: 0 < i < |entries| ==> entries[i] == entries[1..][i - 1];
      assert forall i :: 0 <= i < |entries[1..]| ==> entries[1..][i] == entries[i + 1];
    }
  }

  function NormOption(v: Option<Value>): Option<Value> {
    match v case None => None case Some(x) => Some(Norm(x))
  }

  lemma FirstMatchIndex(entries: seq<Entry>, key: Value) returns (i: nat)
    requires FirstMatch(entries, key).Some?
    ensures i < |entries| && entries[i].key == key && FirstMatch(entries, key) == Some(entries[i].value)
  {
    if entries[0].key == key {
      i := 0;
    } else {
      i := FirstMatchIndex(entries[1..], key);
      i := i + 1;
    }
  }

  /** Looking up an integer or text label commutes with canonicalisation. */
  lemma LookupInNorm(v: Value, key: Value)
    requires Distinct(v)
    requires !key.Array? && !key.Map?
    ensures MapGet(Norm(v), key) == NormOption(MapGet(v, key))
  {
    if v.Map? {
      hide Wire, Norm, Sorted, Distinct;
      var entries, out := v.entries, Values(Sorted(v.entries));
      NormMap(entries);
      NormIsCanonical(v);
      CanonicalIsDistinct(Norm(v));
      SortedContents(entries);
      NormLeaf(key);
      if MapGet(v, key).Some? {
        var k := FirstMatchIndex(entries, key);
        var i := SortedTo(entries, k);
        assert out[i] == NormEntry(entries[k]);
        LookupIsUnique(out, i);
      } else {
        NoMatch(entries, key);
        forall i | 0 <= i < |out| ensures out[i].key != key {
          var k := SortedFrom(entries, i);
          assert out[i] == NormEntry(entries[k]);
        }
        NoMatch(out, key);
      }
    }
  }

  /** Only a leaf normalises to that leaf. */
  lemma NormLeaf(key: Value)
    requires !key.Array? && !key.Map?
    ensures forall k :: Norm(k) == key <==> k == key
  {
  }

  // ----- Flat maps, as protocol messages use them

  /** One-byte keys in ascending order over leaf values. */
  ghost predicate Flat(entries: seq<Entry>) {
    && |entries| < 256
    && (forall i :: 0 <= i < |entries| ==> Leaf(entries[i].key) && Leaf(entries[i].value))
    && (forall i :: 0 <= i < |entries| ==> |Wire(entries[i].key)| == 1)
    && (forall i, j :: 0 <= i < j < |entries| ==> Wire(entries[i].key)[0] < Wire(entries[j].key)[0])
  }

  predicate Leaf(v: Value) {
    v.Unsigned? || v.Negative? || (v.ByteString? && |v.bytes| < U64_END) || v.Bool? || v.Null?
  }

  lemma FlatMapIsCanonical(entries: seq<Entry>)
    requires Flat(entries)
    ensures Canonical(Map(entries)) && Good(Map(entries), 1)
  {
    hide Wire, Norm;
    MapLimits(entries, 1);
    forall i | 0 <= i < |entries| ensures FitsEntry(entries[i], 2) && SizedEntry(entries[i]) {
      assert Leaf(entries[i].key) && Leaf(entries[i].value);
    }
    CanonicalIsDistinct(Map(entries));
  }

  /** A flat map is parsed back exactly as it was built. */
  lemma FlatMapRoundTrip(entries: seq<Entry>)
    requires Flat(entries)
    ensures Encoded(Map(entries)) == Ok(Enc(Map(entries)))
    ensures Parsed(Enc(Map(entries))) == Ok(Map(entries))
  {
    hide Wire, Norm, Fits, Sized, Distinct, ItemAt, Canonical;
    var v := Map(entries);
    FlatMapIsCanonical(entries);
    CanonicalIsNormal(v);
    EncodeThenParse(v, []);
    assert Enc(v) + [] == Enc(v);
  }
}
