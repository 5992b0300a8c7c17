/**
 The parser accepts exactly the grammar: an item is parsed from a position if and only if its
 wire form stands there, it is not nested too deep, and no map in it repeats a key.
 */
module CborParsing {
  import opened Base
  import opened CborOrder
  import opened Cbor

  /** What the parser promises of an item found at nesting level `depth`. */
  ghost predicate Good(v: Value, depth: nat) {
    Fits(v, depth) && Sized(v) && Distinct(v)
  }

  ghost predicate GoodItems(items: seq<Value>, depth: nat) {
    forall i :: 0 <= i < |items| ==> Good(items[i], depth)
  }

  /** The entries are good, their keys distinct, and none of them among `seen`. */
  ghost predicate GoodEntries(entries: seq<Entry>, depth: nat, seen: set<Bytes>) {
    && (forall i :: 0 <= i < |entries| ==>
          && Good(entries[i].key, depth) && Good(entries[i].value, depth)
          && Enc(entries[i].key) !in seen)
    && (forall i, j :: 0 <= i < j < |entries| ==> Enc(entries[i].key) != Enc(entries[j].key))
  }

  lemma GoodEntriesCons(e: Entry, rest: seq<Entry>, depth: nat, seen: set<Bytes>)
    ensures GoodEntries([e] + rest, depth, seen)
       <==> && Good(e.key, depth) && Good(e.value, depth) && Enc(e.key) !in seen
            && GoodEntries(rest, depth, seen + {Enc(e.key)})
  {
    hide Wire, Norm, Good, Enc;
    var all := [e] + rest;
    assert forall i :: 0 < i < |all| ==> all[i] == rest[i - 1];
    if GoodEntries(all, depth, seen) {
      assert all[0] == e;
      forall i | 0 <= i < |rest|
        ensures Good(rest[i].key, depth) && Good(rest[i].value, depth) && Enc(rest[i].key) !in seen + {Enc(e.key)}
      {
        assert rest[i] == all[i + 1];
      }
      forall i, j | 0 <= i < j < |rest| ensures Enc(rest[i].key) != Enc(rest[j].key) {
        assert rest[i] == all[i + 1] && rest[j] == all[j + 1];
      }
    }
  }

  // ----- Heads

  lemma HeadSound(bytes: Bytes, pos: nat)
    requires pos < |bytes|
    requires ArgumentAt(bytes, pos, bytes[pos] % 32).Ok?
    ensures var (argument, end) := ArgumentAt(bytes, pos, bytes[pos] % 32).value;
            bytes[pos..end] == Head(bytes[pos] / 32, argument)
  {
    hide Be, BeVal, Pow256;
    var info := bytes[pos] % 32;
    var (argument, end) := ArgumentAt(bytes, pos, info).value;
    Pow256Values();
    if info >= 24 {
      var raw := bytes[pos + 1..end];
      BeBeVal(raw);
      BeValBound(raw);
      assert bytes[pos..end] == [bytes[pos]] + raw;
    } else {
      assert bytes[pos..end] == [bytes[pos]];
    }
  }

  lemma HeadComplete(bytes: Bytes, pos: nat, major: nat, argument: nat)
    requires major < 8 && argument < U64_END
    requires At(bytes, pos, Head(major, argument))
    ensures bytes[pos] / 32 == major
    ensures ArgumentAt(bytes, pos, bytes[pos] % 32) == Ok((argument, pos + |Head(major, argument)|))
  {
    hide Be, BeVal, Pow256;
    var h := Head(major, argument);
    assert bytes[pos] == bytes[pos..pos + |h|][0] == h[0];
    if argument >= 24 {
      var raw := Be(argument, |h| - 1);
      assert bytes[pos + 1..pos + |h|] == bytes[pos..pos + |h|][1..] == raw by {
        assert h[1..] == raw;
      }
      Pow256Values();
      BeValBe(argument, |h| - 1);
      assert ArgumentWidth(bytes[pos] % 32) == |h| - 1;
    }
  }

  // ----- Soundness: what is accepted is in the grammar

  lemma {:induction false} FitsBelow(v: Value, depth: nat, higher: nat)
    requires Fits(v, depth) && higher <= depth
    ensures Fits(v, higher)
    decreases v
  {
    match v
    case Array(items) =>
      forall i | 0 <= i < |items| ensures Fits(items[i], higher + 1) {
        FitsBelow(items[i], depth + 1, higher + 1);
      }
    case Map(entries) =>
      forall i | 0 <= i < |entries|
        ensures Fits(entries[i].key, higher + 1) && Fits(entries[i].value, higher + 1)
      {
        FitsBelow(entries[i].key, depth + 1, higher + 1);
        FitsBelow(entries[i].value, depth + 1, higher + 1);
      }
    case _ =>
  }

  /** The encoder run by the duplicate check never meets its depth limit. */
  lemma KeyEncodes(key: Value, depth: nat)
    requires Good(key, depth) && depth >= 1
    ensures Encoded(key) == Ok(Enc(key))
  {
    FitsBelow(key, depth, 1);
  }

  lemma {:induction false} ItemSound(bytes: Bytes, pos: nat, depth: nat)
    requires ItemAt(bytes, pos, depth).Ok? && depth >= 1
    ensures var (v, end) := ItemAt(bytes, pos, depth).value;
            bytes[pos..end] == Wire(v) && Good(v, depth)
    decreases Levels(depth), 1, 0
  {
    hide Norm, Head, WireItems, WireEntries, ContentAt, ArgumentAt;
    var major, info := bytes[pos] / 32, bytes[pos] % 32;
    var (v, end) := ItemAt(bytes, pos, depth).value;
    if major == 7 {
      assert bytes[pos] == 224 + info;
      assert bytes[pos..end] == [bytes[pos]];
    } else {
      HeadSound(bytes, pos);
      var (argument, after) := ArgumentAt(bytes, pos, info).value;
      ContentSound(bytes, major, argument, after, depth);
      assert bytes[pos..end] == bytes[pos..after] + bytes[after..end];
    }
  }

  lemma {:induction false} ContentSound(bytes: Bytes, major: nat, argument: U64, pos: nat, depth: nat)
    requires pos <= |bytes| && 1 <= depth <= MAX_DEPTH && major <= 5
    requires ContentAt(bytes, major, argument, pos, depth).Ok?
    ensures var (v, end) := ContentAt(bytes, major, argument, pos, depth).value;
            Wire(v) == Head(major, argument) + bytes[pos..end] && Good(v, depth)
    decreases Levels(depth), 0, 0
  {
    hide Norm, Head, WireItems, WireEntries, ItemsAt, EntriesAt;
    if major == 4 {
      ItemsSound(bytes, pos, argument, depth + 1);
    } else if major == 5 {
      EntriesSound(bytes, pos, argument, depth + 1, {});
    } else if major <= 1 {
      assert bytes[pos..pos] == [];
    }
  }

  lemma {:induction false} ItemsSound(bytes: Bytes, pos: nat, count: nat, depth: nat)
    requires pos <= |bytes| && depth >= 1
    requires ItemsAt(bytes, pos, count, depth).Ok?
    ensures var (items, end) := ItemsAt(bytes, pos, count, depth).value;
            && |items| == count && bytes[pos..end] == WireItems(items)
            && GoodItems(items, depth) && end - pos >= count
    decreases Levels(depth), 2, count
  {
    hide Wire, Norm, Good, ItemAt;
    if count > 0 {
      ItemSound(bytes, pos, depth);
      var (v, next) := ItemAt(bytes, pos, depth).value;
      ItemsSound(bytes, next, count - 1, depth);
      var (items, end) := ItemsAt(bytes, pos, count, depth).value;
      assert items[1..] == ItemsAt(bytes, next, count - 1, depth).value.0;
      assert bytes[pos..end] == bytes[pos..next] + bytes[next..end];
      assert forall i :: 0 < i < |items| ==> items[i] == items[1..][i - 1];
    }
  }

  lemma EntriesWire(e: Entry, rest: seq<Entry>)
    ensures WireEntries([e] + rest) == (Wire(e.key) + Wire(e.value)) + WireEntries(rest)
  {
    assert ([e] + rest)[1..] == rest;
  }

  lemma {:induction false} EntriesSound(bytes: Bytes, pos: nat, count: nat, depth: nat, seen: set<Bytes>)
    requires pos <= |bytes| && depth >= 1
    requires EntriesAt(bytes, pos, count, depth, seen).Ok?
    ensures var (entries, end) := EntriesAt(bytes, pos, count, depth, seen).value;
            && |entries| == count && bytes[pos..end] == WireEntries(entries)
            && GoodEntries(entries, depth, seen) && end - pos >= 2 * count
    decreases Levels(depth), 2, count
  {
    hide Wire, WireEntry, Norm, Good, ItemAt;
    if count > 0 {
      ItemSound(bytes, pos, depth);
      var (key, mid) := ItemAt(bytes, pos, depth).value;
      KeyEncodes(key, depth);
      ItemSound(bytes, mid, depth);
      var (value, next) := ItemAt(bytes, mid, depth).value;
      var seen' := seen + {Enc(key)};
      EntriesSound(bytes, next, count - 1, depth, seen');
      var (entries, end) := EntriesAt(bytes, pos, count, depth, seen).value;
      var rest := EntriesAt(bytes, next, count - 1, depth, seen').value.0;
      assert entries == [Entry(key, value)] + rest;
      GoodEntriesCons(Entry(key, value), rest, depth, seen);
      EntriesWire(Entry(key, value), rest);
      assert bytes[pos..end] == (bytes[pos..mid] + bytes[mid..next]) + bytes[next..end];
    }
  }

  // ----- Completeness: what is in the grammar is accepted

  lemma {:induction false} ItemComplete(bytes: Bytes, pos: nat, v: Value, depth: nat)
    requires At(bytes, pos, Wire(v)) && Good(v, depth) && depth >= 1
    ensures ItemAt(bytes, pos, depth) == Ok((v, pos + |Wire(v)|))
    decreases v, 0, 0
  {
    hide Norm, Head, WireItems, WireEntries, ItemsAt, EntriesAt, ArgumentAt;
    match v
    case Bool(_) => assert bytes[pos] == bytes[pos..pos + 1][0];
    case Null => assert bytes[pos] == bytes[pos..pos + 1][0];
    case Unsigned(n) => HeadComplete(bytes, pos, 0, n);
    case Negative(n) => HeadComplete(bytes, pos, 1, n);
    case ByteString(b) => PartsComplete(bytes, pos, 2, |b|, b);
    case Text(t) => PartsComplete(bytes, pos, 3, |t|, t);
    case Array(items) => ArrayComplete(bytes, pos, items, depth);
    case Map(entries) => MapComplete(bytes, pos, entries, depth);
  }

  lemma {:induction false} ArrayComplete(bytes: Bytes, pos: nat, items: seq<Value>, depth: nat)
    requires At(bytes, pos, Wire(Array(items))) && Good(Array(items), depth) && depth >= 1
    ensures ItemAt(bytes, pos, depth) == Ok((Array(items), pos + |Wire(Array(items))|))
    decreases items, 2, 0
  {
    hide Head, WireItems, Norm, ItemsAt;
    PartsComplete(bytes, pos, 4, |items|, WireItems(items));
    assert GoodItems(items, depth + 1);
    ItemsComplete(bytes, pos + |Head(4, |items|)|, items, depth + 1);
    ItemsAtLeast(items);
  }

  lemma {:induction false} MapComplete(bytes: Bytes, pos: nat, entries: seq<Entry>, depth: nat)
    requires At(bytes, pos, Wire(Map(entries))) && Good(Map(entries), depth) && depth >= 1
    ensures ItemAt(bytes, pos, depth) == Ok((Map(entries), pos + |Wire(Map(entries))|))
    decreases entries, 2, 0
  {
    hide Head, WireEntry, WireEntries, Norm, EntriesAt;
    PartsComplete(bytes, pos, 5, |entries|, WireEntries(entries));
    assert GoodEntries(entries, depth + 1, {});
    EntriesComplete(bytes, pos + |Head(5, |entries|)|, entries, depth + 1, {});
    EntriesAtLeast(entries);
  }

  lemma PartsComplete(bytes: Bytes, pos: nat, major: nat, argument: nat, content: Bytes)
    requires major < 8 && argument < U64_END
    requires At(bytes, pos, Head(major, argument) + content)
    ensures bytes[pos] / 32 == major
    ensures ArgumentAt(bytes, pos, bytes[pos] % 32) == Ok((argument, pos + |Head(major, argument)|))
    ensures At(bytes, pos + |Head(major, argument)|, content)
  {
    AtConcat(bytes, pos, Head(major, argument), content);
    HeadComplete(bytes, pos, major, argument);
  }

  lemma {:induction false} ItemsAtLeast(items: seq<Value>)
    ensures |WireItems(items)| >= |items|
  {
    if items != [] {
      ItemsAtLeast(items[1..]);
    }
  }

  lemma {:induction false} EntriesAtLeast(entries: seq<Entry>)
    ensures |WireEntries(entries)| >= 2 * |entries|
  {
    if entries != [] {
      EntriesAtLeast(entries[1..]);
    }
  }

  lemma {:induction false} ItemsComplete(bytes: Bytes, pos: nat, items: seq<Value>, depth: nat)
    requires At(bytes, pos, WireItems(items)) && GoodItems(items, depth) && depth >= 1
    ensures ItemsAt(bytes, pos, |items|, depth) == Ok((items, pos + |WireItems(items)|))
    decreases items, 1, |items|
  {
    hide Wire, Norm, Good, ItemAt;
    if items != [] {
      AtConcat(bytes, pos, Wire(items[0]), WireItems(items[1..]));
      ItemComplete(bytes, pos, items[0], depth);
      assert forall i :: 0 <= i < |items[1..]| ==> items[1..][i] == items[i + 1];
      ItemsComplete(bytes, pos + |Wire(items[0])|, items[1..], depth);
      assert items == [items[0]] + items[1..];
    }
  }

  lemma {:induction false} EntriesComplete(
    bytes: Bytes, pos: nat, entries: seq<Entry>, depth: nat, seen: set<Bytes>)
    requires At(bytes, pos, WireEntries(entries)) && GoodEntries(entries, depth, seen) && depth >= 1
    ensures EntriesAt(bytes, pos, |entries|, depth, seen) == Ok((entries, pos + |WireEntries(entries)|))
    decreases entries, 1, |entries|
  {
    hide Wire, WireEntry, Norm, Fits, Sized, Distinct, ItemAt, GoodEntries;
    if entries != [] {
      var e, rest := entries[0], entries[1..];
      assert entries == [e] + rest;
      GoodEntriesCons(e, rest, depth, seen);
      AtConcat(bytes, pos, WireEntry(e), WireEntries(rest));
      EntryComplete(bytes, pos, e, depth);
      KeyEncodes(e.key, depth);
      EntriesComplete(bytes, pos + |WireEntry(e)|, rest, depth, seen + {Enc(e.key)});
    }
  }

  lemma {:induction false} EntryComplete(bytes: Bytes, pos: nat, e: Entry, depth: nat)
    requires At(bytes, pos, WireEntry(e)) && depth >= 1
    requires Good(e.key, depth) && Good(e.value, depth)
    ensures ItemAt(bytes, pos, depth) == Ok((e.key, pos + |Wire(e.key)|))
    ensures ItemAt(bytes, pos + |Wire(e.key)|, depth) == Ok((e.value, pos + |WireEntry(e)|))
    decreases e, 1, 0
  {
    hide Wire, Norm, Good, ItemAt;
    AtConcat(bytes, pos, Wire(e.key), Wire(e.value));
    ItemComplete(bytes, pos, e.key, depth);
    ItemComplete(bytes, pos + |Wire(e.key)|, e.value, depth);
  }

  /** The parser decides the grammar, for every input and every candidate item. */
  lemma ParserDecidesGrammar(bytes: Bytes, v: Value, end: nat)
    ensures ParsedItem(bytes) == Ok((v, end))
       <==> At(bytes, 0, Wire(v)) && end == |Wire(v)| && Good(v, 1)
  {
    if ParsedItem(bytes) == Ok((v, end)) {
      ItemSound(bytes, 0, 1);
    }
    if At(bytes, 0, Wire(v)) && end == |Wire(v)| && Good(v, 1) {
      ItemComplete(bytes, 0, v, 1);
    }
  }

  /** The count tests made before the loops refuse nothing that the loops would accept. */
  lemma EarlyRejectionLosesNothing(bytes: Bytes, pos: nat, count: nat, depth: nat)
    requires pos <= |bytes| && depth >= 1
    ensures ItemsAt(bytes, pos, count, depth).Ok? ==> count <= |bytes| - pos
    ensures EntriesAt(bytes, pos, count, depth, {}).Ok? ==> count <= (|bytes| - pos) / 2
  {
    if ItemsAt(bytes, pos, count, depth).Ok? {
      ItemsSound(bytes, pos, count, depth);
    }
    if EntriesAt(bytes, pos, count, depth, {}).Ok? {
      EntriesSound(bytes, pos, count, depth, {});
    }
  }
}
