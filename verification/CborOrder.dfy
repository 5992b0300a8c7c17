/**
 The canonical map order of CTAP2 CBOR: shorter encoded keys first, then bytewise
 lexicographic (section 4.2.3 of RFC 8949), and the stable sort by that order.
 */
module CborOrder {
  import opened Base

  /** A map entry under construction: its encoded key and whatever travels with it. */
  datatype Pair<+T> = Pair(key: Bytes, value: T)

  predicate LexLess(a: Bytes, b: Bytes) {
    if b == [] then false
    else if a == [] then true
    else a[0] < b[0] || (a[0] == b[0] && LexLess(a[1..], b[1..]))
  }

  predicate Less(a: Bytes, b: Bytes) {
    |a| < |b| || (|a| == |b| && LexLess(a, b))
  }

  lemma {:induction false} LexOrder(a: Bytes, b: Bytes, c: Bytes)
    ensures LexLess(a, b) && LexLess(b, c) ==> LexLess(a, c)
    ensures !(LexLess(a, b) && LexLess(b, a))
    ensures a != b ==> LexLess(a, b) || LexLess(b, a)
    ensures !LexLess(a, a)
    decreases |a|
  {
    if a != [] {
      var b' := if b == [] then [] else b[1..];
      var c' := if c == [] then [] else c[1..];
      LexOrder(a[1..], b', c');
      if b != [] && a[0] == b[0] && a[1..] == b[1..] {
        assert a == [a[0]] + a[1..] == b;
      }
    }
  }

  /** The length-first order is a strict total order on encoded keys. */
  lemma LessIsStrictTotalOrder(a: Bytes, b: Bytes, c: Bytes)
    ensures !Less(a, a)
    ensures Less(a, b) && Less(b, c) ==> Less(a, c)
    ensures !(Less(a, b) && Less(b, a))
    ensures a != b ==> Less(a, b) || Less(b, a)
  {
    LexOrder(a, b, c);
  }

  // ----- The order as a comparison of numbers

  lemma {:induction false} BeValCons(x: Byte, s: Bytes)
    ensures BeVal([x] + s) == x * Pow256(|s|) + BeVal(s)
  {
    if s == [] {
      assert [x][..0] == [];
    } else {
      var init := s[..|s| - 1];
      assert ([x] + s)[..|s|] == [x] + init;
      BeValCons(x, init);
      assert x * Pow256(|s|) == x * Pow256(|s| - 1) * 256;
    }
  }

  /** The leading digit decides, then the rest. */
  lemma LeadingDigit(x: nat, y: nat, p: nat, u: nat, v: nat)
    requires u < p && v < p
    ensures x * p + u < y * p + v <==> x < y || (x == y && u < v)
  {
    MulDistrib(p, x, y);
    MulDistrib(p, y, x);
    if x < y {
      MulAtLeast(p, y - x);
    } else if y < x {
      MulAtLeast(p, x - y);
    }
  }

  lemma {:induction false} LexIsNumeric(a: Bytes, b: Bytes)
    requires |a| == |b|
    ensures LexLess(a, b) <==> BeVal(a) < BeVal(b)
  {
    if a != [] {
      hide BeVal, Pow256;
      var p := Pow256(|a| - 1);
      assert a == [a[0]] + a[1..] && b == [b[0]] + b[1..];
      BeValCons(a[0], a[1..]);
      BeValCons(b[0], b[1..]);
      BeValBound(a[1..]);
      BeValBound(b[1..]);
      LexIsNumeric(a[1..], b[1..]);
      LeadingDigit(a[0], b[0], p, BeVal(a[1..]), BeVal(b[1..]));
    }
  }

  /**
   Length first, then bytewise, is the order of the numbers written by a leading 1 and the key:
   a longer key is always the larger number.
   */
  lemma OrderIsNumeric(a: Bytes, b: Bytes)
    ensures Less(a, b) <==> BeVal([1] + a) < BeVal([1] + b)
  {
    hide BeVal, LexLess;
    BeValCons(1, a);
    BeValCons(1, b);
    BeValBound(a);
    BeValBound(b);
    if |a| == |b| {
      LexIsNumeric(a, b);
    } else if |a| < |b| {
      PowGrows(|a|, |b|);
    } else {
      PowGrows(|b|, |a|);
    }
  }

  lemma {:induction false} PowGrows(m: nat, n: nat)
    requires m < n
    ensures Pow256(n) >= 256 * Pow256(m)
    decreases n
  {
    if m + 1 < n {
      PowGrows(m, n - 1);
    }
  }

  /** Insert before the first entry whose key is not smaller, which keeps equal keys in order. */
  function Insert<T>(p: Pair<T>, s: seq<Pair<T>>): seq<Pair<T>> {
    if s == [] then [p]
    else if !Less(s[0].key, p.key) then [p] + s
    else [s[0]] + Insert(p, s[1..])
  }

  function Sort<T>(s: seq<Pair<T>>): seq<Pair<T>> {
    if s == [] then [] else Insert(s[0], Sort(s[1..]))
  }

  ghost predicate Ascending<T>(s: seq<Pair<T>>) {
    forall i, j :: 0 <= i < j < |s| ==> !Less(s[j].key, s[i].key)
  }

  ghost predicate StrictlyAscending<T>(s: seq<Pair<T>>) {
    forall i, j :: 0 <= i < j < |s| ==> Less(s[i].key, s[j].key)
  }

  ghost predicate DistinctKeys<T>(s: seq<Pair<T>>) {
    forall i, j :: 0 <= i < j < |s| ==> s[i].key != s[j].key
  }

  lemma {:induction false} InsertKeeps<T(!new)>(p: Pair<T>, s: seq<Pair<T>>)
    requires Ascending(s)
    ensures Ascending(Insert(p, s))
    ensures multiset(Insert(p, s)) == multiset{p} + multiset(s)
  {
    if s == [] {
    } else if !Less(s[0].key, p.key) {
      forall j | 0 <= j < |s| ensures !Less(s[j].key, p.key) {
        LessIsStrictTotalOrder(s[j].key, p.key, s[0].key);
        LessIsStrictTotalOrder(s[0].key, s[j].key, p.key);
      }
      assert [p] + s == Insert(p, s);
    } else {
      InsertKeeps(p, s[1..]);
      assert s == [s[0]] + s[1..];
      var r := Insert(p, s[1..]);
      forall j | 0 <= j < |r| ensures !Less(r[j].key, s[0].key) {
        assert r[j] in multiset(r);
        if r[j] != p {
          assert r[j] in s[1..];
        } else {
          LessIsStrictTotalOrder(s[0].key, p.key, s[0].key);
        }
      }
    }
  }

  /** Sorting yields an ascending permutation. */
  lemma {:induction false} SortCorrect<T(!new)>(s: seq<Pair<T>>)
    ensures Ascending(Sort(s))
    ensures multiset(Sort(s)) == multiset(s)
    ensures |Sort(s)| == |s|
    ensures forall x :: x in Sort(s) <==> x in s
  {
    if s != [] {
      SortCorrect(s[1..]);
      InsertKeeps(s[0], Sort(s[1..]));
      assert s == [s[0]] + s[1..];
    }
    assert |multiset(Sort(s))| == |multiset(s)|;
    assert forall x :: x in Sort(s) <==> x in multiset(Sort(s));
    assert forall x :: x in s <==> x in multiset(s);
  }

  /** Distinct keys come out strictly ascending. */
  lemma {:induction false} SortStrict<T(!new)>(s: seq<Pair<T>>)
    requires DistinctKeys(s)
    ensures StrictlyAscending(Sort(s))
  {
    if s != [] {
      var t := Sort(s[1..]);
      assert DistinctKeys(s[1..]);
      SortStrict(s[1..]);
      SortCorrect(s[1..]);
      forall x | x in t ensures x.key != s[0].key {
        assert x in s[1..];
        var i :| 0 <= i < |s[1..]| && s[1..][i] == x;
        assert s[i + 1] == x;
      }
      InsertStrict(s[0], t);
    }
  }

  lemma {:induction false} InsertStrict<T(!new)>(p: Pair<T>, s: seq<Pair<T>>)
    requires StrictlyAscending(s)
    requires forall x :: x in s ==> x.key != p.key
    ensures StrictlyAscending(Insert(p, s))
    ensures forall x :: x in Insert(p, s) <==> x == p || x in s
  {
    if s == [] {
    } else if !Less(s[0].key, p.key) {
      forall j | 0 <= j < |s| ensures Less(p.key, s[j].key) {
        LessIsStrictTotalOrder(p.key, s[0].key, s[j].key);
        assert s[0] in s;
      }
      assert Insert(p, s)[1..] == s;
    } else {
      InsertStrict(p, s[1..]);
      assert s == [s[0]] + s[1..];
      var r := Insert(p, s[1..]);
      forall j | 0 <= j < |r| ensures Less(s[0].key, r[j].key) {
        assert r[j] in r;
        assert r[j] == p || r[j] in s[1..];
      }
    }
  }

  /** An ascending sequence is already sorted. */
  lemma {:induction false} SortFixed<T(!new)>(s: seq<Pair<T>>)
    requires Ascending(s)
    ensures Sort(s) == s
  {
    if s != [] {
      SortFixed(s[1..]);
      assert s == [s[0]] + s[1..];
    }
  }

  lemma StrictIsAscending<T(!new)>(s: seq<Pair<T>>)
    requires StrictlyAscending(s)
    ensures Ascending(s) && DistinctKeys(s)
  {
    forall i, j | 0 <= i < j < |s| ensures !Less(s[j].key, s[i].key) && s[i].key != s[j].key {
      LessIsStrictTotalOrder(s[i].key, s[j].key, s[i].key);
    }
  }

  lemma {:induction false} InsertDistinct<T(!new)>(p: Pair<T>, s: seq<Pair<T>>)
    requires DistinctKeys(Insert(p, s))
    ensures DistinctKeys([p] + s)
    ensures forall x :: x in Insert(p, s) <==> x == p || x in s
  {
    if s == [] {
      assert [p] + s == [p];
    } else if !Less(s[0].key, p.key) {
      assert Insert(p, s) == [p] + s;
    } else {
      var r := Insert(p, s[1..]);
      assert Insert(p, s)[1..] == r;
      InsertDistinct(p, s[1..]);
      assert s == [s[0]] + s[1..];
      forall x | x == p || x in s[1..] ensures x.key != s[0].key {
        assert x in r;
        var k :| 0 <= k < |r| && r[k] == x;
        assert Insert(p, s)[k + 1] == x;
      }
      assert p.key != s[0].key;
      forall j | 1 <= j < |s| ensures s[j].key != s[0].key && s[j].key != p.key {
        assert s[j] == s[1..][j - 1] && s[j] in s[1..];
        assert s[j] == ([p] + s[1..])[j] && p == ([p] + s[1..])[0];
      }
      assert DistinctKeys(s) by {
        forall i, j | 0 < i < j < |s| ensures s[i].key != s[j].key {
          assert s[i] == ([p] + s[1..])[i] && s[j] == ([p] + s[1..])[j];
        }
      }
    }
  }

  /** Sorting hides no duplicate key. */
  lemma {:induction false} SortDistinct<T(!new)>(s: seq<Pair<T>>)
    requires DistinctKeys(Sort(s))
    ensures DistinctKeys(s)
  {
    if s != [] {
      var t := Sort(s[1..]);
      InsertDistinct(s[0], t);
      assert ([s[0]] + t)[1..] == t;
      SortDistinct(s[1..]);
      SortCorrect(s[1..]);
      forall j | 1 <= j < |s| ensures s[j].key != s[0].key {
        assert s[j] == s[1..][j - 1];
        assert s[j] in t;
        var k :| 0 <= k < |t| && t[k] == s[j];
        assert ([s[0]] + t)[k + 1] == s[j] && ([s[0]] + t)[0] == s[0];
      }
    }
  }

  /** The canonical order is unique: equal contents, strictly ascending, give equal sequences. */
  lemma {:induction false} StrictlyAscendingUnique<T(!new)>(a: seq<Pair<T>>, b: seq<Pair<T>>)
    requires StrictlyAscending(a) && StrictlyAscending(b)
    requires forall x :: x in a <==> x in b
    ensures a == b
  {
    assert (a != [] ==> a[0] in a) && (b != [] ==> b[0] in b);
    if a != [] {
      var j :| 0 <= j < |b| && b[j] == a[0];
      var i :| 0 <= i < |a| && a[i] == b[0];
      LessIsStrictTotalOrder(a[0].key, b[0].key, a[0].key);
      assert i == 0 && j == 0;
      TailContents(a, b);
      StrictlyAscendingUnique(a[1..], b[1..]);
      assert a == [a[0]] + a[1..] && b == [b[0]] + b[1..];
    }
  }

  lemma TailContents<T(!new)>(a: seq<Pair<T>>, b: seq<Pair<T>>)
    requires StrictlyAscending(a) && StrictlyAscending(b)
    requires forall x :: x in a <==> x in b
    requires a != [] && b != [] && a[0] == b[0]
    ensures forall x :: x in a[1..] <==> x in b[1..]
  {
    assert a == [a[0]] + a[1..] && b == [b[0]] + b[1..];
    forall x ensures x in a[1..] <==> x in b[1..] {
      LessIsStrictTotalOrder(a[0].key, a[0].key, a[0].key);
      assert a[0] !in a[1..] && b[0] !in b[1..];
      assert x in a <==> x == a[0] || x in a[1..];
      assert x in b <==> x == b[0] || x in b[1..];
    }
  }
}
