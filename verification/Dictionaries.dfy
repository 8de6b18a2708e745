/** What the dictionaries of both readers hold, said of the pairs they were built from with plain equality. */
module Dictionaries {
  import opened Bits
  import opened Values
  import opened DataDecoder
  import opened EntryList

  // ---------- when keys are the same ----------

  /** Strings are the same key exactly when they are equal, and so are byte strings; nothing else is the same
      key as either of them. */
  lemma TextKeyIsItself(s: bytes, v: Value)
    ensures SameKey(Text(s), v) <==> v == Text(s)
    ensures SameKey(v, Text(s)) <==> v == Text(s)
    ensures SameKey(Blob(s), v) <==> v == Blob(s)
    ensures SameKey(v, Blob(s)) <==> v == Blob(s)
  {
  }

  /** Integers are the same key exactly when they are equal, and truth values are the keys 0 and 1. */
  lemma IntKeyIsItself(m: int, n: int, b: bool)
    ensures SameKey(Int(m), Int(n)) <==> m == n
    ensures SameKey(Bool(b), Int(n)) <==> n == if b then 1 else 0
  {
    hide Reduced;
    IntegersReduce(m, n);
    IntegersReduce(if b then 1 else 0, n);
  }

  lemma IntegersReduce(m: int, n: int)
    ensures Reduced(m < 0, if m < 0 then -m else m, 0) == Reduced(n < 0, if n < 0 then -n else n, 0) <==> m == n
    ensures Reduced(m < 0, if m < 0 then -m else m, 0).Finite?
  {
    hide Reduced;
    ZeroOrNot(m);
    ZeroOrNot(n);
    if m != 0 && n != 0 {
      ReducedIsExact(m < 0, if m < 0 then -m else m, 0, n < 0, if n < 0 then -n else n, 0);
      assert Shl(if n < 0 then -n else n, 0) == if n < 0 then -n else n;
    }
  }

  lemma ZeroOrNot(n: int)
    ensures Reduced(n < 0, if n < 0 then -n else n, 0) == Finite(0, 0) <==> n == 0
    ensures Reduced(n < 0, if n < 0 then -n else n, 0).Finite?
  {
    if n != 0 {
      ReducedIsNotZero(n < 0, if n < 0 then -n else n, 0);
    }
  }

  lemma {:induction false} ReducedIsNotZero(s: bool, m: nat, e: int)
    requires m > 0
    ensures Reduced(s, m, e).Finite? && Reduced(s, m, e).n != 0
    decreases m
  {
    if m % 2 == 0 {
      ReducedIsNotZero(s, m / 2, e + 1);
    }
  }

  /** A double is the same key as an integer exactly when the number it holds is that integer: with 52 bits of
      fraction `f` under 11 bits of exponent `e` under the sign, that number is (2^52 + f) * 2^(e - 1075). */
  lemma DoubleKeyIsItsNumber(raw: bytes, s: bool, e: nat, f: nat, n: int)
    requires |raw| == 8 && 0 < e < 2047 && f < Pow2(52)
    requires BigEndian(raw) == ((if s then 2048 else 0) + e) * Pow2(52) + f
    ensures SameKey(Double(raw), Int(n)) <==> IsInteger(s, Pow2(52) + f, e - 1075, n)
  {
    hide Reduced, Pow2, BigEndian;
    SplitIeee(BigEndian(raw), Pow2(52), (if s then 2048 else 0) + e, f);
    assert Ieee(BigEndian(raw), 52, 2047) == Reduced(s, f + Pow2(52), e - 1075);
    ReducedIsInteger(s, f + Pow2(52), e - 1075, n);
  }

  /** The same for a float, with 23 bits of fraction under 8 bits of exponent. */
  lemma FloatKeyIsItsNumber(raw: bytes, s: bool, e: nat, f: nat, n: int)
    requires |raw| == 4 && 0 < e < 255 && f < Pow2(23)
    requires BigEndian(raw) == ((if s then 256 else 0) + e) * Pow2(23) + f
    ensures SameKey(Float(raw), Int(n)) <==> IsInteger(s, Pow2(23) + f, e - 150, n)
  {
    hide Reduced, Pow2, BigEndian;
    SplitIeee(BigEndian(raw), Pow2(23), (if s then 256 else 0) + e, f);
    assert Ieee(BigEndian(raw), 23, 255) == Reduced(s, f + Pow2(23), e - 150);
    ReducedIsInteger(s, f + Pow2(23), e - 150, n);
  }

  /** Without exponent a double holds f * 2^-1074, which may be 0; with the largest exponent it is infinite, or
      with a fraction no number, and then not even the same key as itself. */
  lemma OddDoubleKeys(raw: bytes, s: bool, e: nat, f: nat, n: int)
    requires |raw| == 8 && (e == 0 || e == 2047) && f < Pow2(52)
    requires BigEndian(raw) == ((if s then 2048 else 0) + e) * Pow2(52) + f
    ensures e == 0 ==> (SameKey(Double(raw), Int(n)) <==> if f == 0 then n == 0 else IsInteger(s, f, -1074, n))
    ensures e == 2047 ==> !SameKey(Double(raw), Int(n)) && (SameKey(Double(raw), Double(raw)) <==> f == 0)
  {
    hide Reduced, Pow2, BigEndian;
    SplitIeee(BigEndian(raw), Pow2(52), (if s then 2048 else 0) + e, f);
    OddNumber(s, f, -1074, n);
  }

  /** The same for a float. */
  lemma OddFloatKeys(raw: bytes, s: bool, e: nat, f: nat, n: int)
    requires |raw| == 4 && (e == 0 || e == 255) && f < Pow2(23)
    requires BigEndian(raw) == ((if s then 256 else 0) + e) * Pow2(23) + f
    ensures e == 0 ==> (SameKey(Float(raw), Int(n)) <==> if f == 0 then n == 0 else IsInteger(s, f, -149, n))
    ensures e == 255 ==> !SameKey(Float(raw), Int(n)) && (SameKey(Float(raw), Float(raw)) <==> f == 0)
  {
    hide Reduced, Pow2, BigEndian;
    SplitIeee(BigEndian(raw), Pow2(23), (if s then 256 else 0) + e, f);
    OddNumber(s, f, -149, n);
  }

  lemma OddNumber(s: bool, f: nat, e: int, n: int)
    ensures Reduced(n < 0, if n < 0 then -n else n, 0).Finite?
    ensures f == 0 ==> (Reduced(s, f, e) == Reduced(n < 0, if n < 0 then -n else n, 0) <==> n == 0)
    ensures f == 0 ==> Reduced(s, f, e).Finite?
    ensures f > 0 ==>
              && Reduced(s, f, e).Finite?
              && (Reduced(s, f, e) == Reduced(n < 0, if n < 0 then -n else n, 0) <==> IsInteger(s, f, e, n))
  {
    ZeroOrNot(n);
    if f > 0 {
      ReducedIsInteger(s, f, e, n);
    }
  }

  /** m * 2^e with that sign is n. */
  predicate IsInteger(negative: bool, m: nat, e: int, n: int)
  {
    var magnitude := if n < 0 then -n else n;
    && n != 0 && negative == (n < 0)
    && if e >= 0 then magnitude == Shl(m, e) else m == Shl(magnitude, -e)
  }

  lemma SplitIeee(raw: nat, p: nat, high: nat, f: nat)
    requires p > 0 && f < p && raw == high * p + f
    ensures raw % p == f && raw / p == high
  {
    QuotientIsUnique(raw / p, raw % p, high, f, p);
  }

  lemma QuotientIsUnique(q: nat, r: nat, h: nat, f: nat, p: nat)
    requires r < p && f < p && q * p + r == h * p + f
    ensures q == h && r == f
  {
    if q < h {
      ProductGap(q, h, p);
    } else if h < q {
      ProductGap(h, q, p);
    }
  }

  lemma ProductGap(q: nat, h: nat, p: nat)
    requires q < h
    ensures q * p + p <= h * p
  {
    var k := h - q - 1;
    assert h * p == q * p + p + k * p by { assert h == q + 1 + k; }
  }

  lemma ReducedIsInteger(s: bool, m: nat, e: int, n: int)
    requires m > 0
    ensures Reduced(s, m, e).Finite?
    ensures Reduced(s, m, e) == Reduced(n < 0, if n < 0 then -n else n, 0) <==> IsInteger(s, m, e, n)
  {
    hide Reduced;
    ReducedIsNotZero(s, m, e);
    ZeroOrNot(n);
    if n != 0 {
      ReducedIsExact(s, m, e, n < 0, if n < 0 then -n else n, 0);
      if e >= 0 {
        assert Shl(m, 0) == m && Shl(m, e - 0) == Shl(m, e);
      }
    }
  }

  // ---------- what a dictionary holds ----------

  /** Where the key first occurs among the pairs, or their number. */
  function FirstAt(pairs: seq<Entry>, key: Value): (i: nat)
    ensures i <= |pairs|
  {
    if |pairs| == 0 then 0
    else if FirstAt(pairs[..|pairs| - 1], key) < |pairs| - 1 then FirstAt(pairs[..|pairs| - 1], key)
    else if pairs[|pairs| - 1].key == key then |pairs| - 1
    else |pairs|
  }

  /** The value of the last pair with the key. */
  function LastValue(pairs: seq<Entry>, key: Value): Value
    requires Occurs(pairs, key)
  {
    var last := pairs[|pairs| - 1];
    if last.key == key then last.value
    else
      assert pairs == pairs[..|pairs| - 1] + [last];
      LastValue(pairs[..|pairs| - 1], key)
  }

  predicate Occurs(pairs: seq<Entry>, key: Value) { exists p :: p in pairs && p.key == key }

  /** The dictionary that pairs with strings as keys make: each key occurs once and no other key is there, the
      keys are in the order of their first pairs, and each has the value of its last pair. */
  predicate DictionaryOf(pairs: seq<Entry>, d: seq<Entry>)
  {
    && (forall i, j | 0 <= i < j < |d| :: d[i].key != d[j].key)
    && (forall e | e in d :: Occurs(pairs, e.key) && e.value == LastValue(pairs, e.key))
    && (forall p | p in pairs :: Occurs(d, p.key))
    && (forall i, j | 0 <= i < j < |d| :: FirstAt(pairs, d[i].key) < FirstAt(pairs, d[j].key))
  }

  /** `FirstAt` is what it says: the key is there and nowhere before. */
  lemma {:induction false} FirstAtIsFirst(pairs: seq<Entry>, key: Value)
    ensures FirstAt(pairs, key) < |pairs| <==> Occurs(pairs, key)
    ensures FirstAt(pairs, key) < |pairs| ==> pairs[FirstAt(pairs, key)].key == key
    ensures forall i | 0 <= i < FirstAt(pairs, key) :: pairs[i].key != key
  {
    if |pairs| > 0 {
      var front, last := pairs[..|pairs| - 1], pairs[|pairs| - 1];
      assert pairs == front + [last];
      FirstAtIsFirst(front, key);
      if Occurs(front, key) {
        var p :| p in front && p.key == key;
        assert p in pairs;
      }
      if last.key == key {
        assert last in pairs;
      }
    }
  }

  /** `LastValue` is what it says: some pair with the key has it, and no pair behind that one has the key. */
  lemma {:induction false} LastValueIsLast(pairs: seq<Entry>, key: Value) returns (i: nat)
    requires Occurs(pairs, key)
    ensures i < |pairs| && pairs[i] == Entry(key, LastValue(pairs, key))
    ensures forall j | i < j < |pairs| :: pairs[j].key != key
  {
    var last := pairs[|pairs| - 1];
    if last.key == key {
      i := |pairs| - 1;
    } else {
      assert pairs == pairs[..|pairs| - 1] + [last];
      i := LastValueIsLast(pairs[..|pairs| - 1], key);
    }
  }

  predicate TextKeyed(pairs: seq<Entry>) { forall p | p in pairs :: p.key.Text? }

  /** All pairs put into an empty dictionary one by one. */
  function PutAll(pairs: seq<Entry>): seq<Entry>
  {
    if |pairs| == 0 then []
    else
      var last := pairs[|pairs| - 1];
      Put(PutAll(pairs[..|pairs| - 1]), last.key, last.value)
  }

  /** Where a string key stands in a dictionary with strings as keys, `Put` changes the value there and nothing
      else. */
  lemma {:induction false} PutKnownText(d: seq<Entry>, i: nat, key: Value, value: Value)
    requires TextKeyed(d) && key.Text? && i < |d| && d[i].key == key
    requires forall j | 0 <= j < i :: d[j].key != key
    ensures Put(d, key, value) == d[i := Entry(key, value)]
  {
    hide SameKey;
    var rest := d[1..];
    assert d[0] in d && d == [d[0]] + rest;
    TextKeyIsItself(key.text, d[0].key);
    if i > 0 {
      assert d[0].key != key;
      assert forall j | 0 <= j < |rest| :: rest[j] == d[j + 1];
      PutKnownText(rest, i - 1, key, value);
    }
  }

  /** Where it does not stand, `Put` appends an entry. */
  lemma {:induction false} PutNewText(d: seq<Entry>, key: Value, value: Value)
    requires TextKeyed(d) && key.Text? && !Occurs(d, key)
    ensures Put(d, key, value) == d + [Entry(key, value)]
  {
    hide SameKey;
    if |d| > 0 {
      var rest := d[1..];
      assert d[0] in d && d == [d[0]] + rest;
      TextKeyIsItself(key.text, d[0].key);
      forall p | p in rest ensures p.key != key {
        assert p in d;
      }
      PutNewText(rest, key, value);
    }
  }

  lemma OneMorePair(pairs: seq<Entry>, p: Entry, key: Value)
    ensures Occurs(pairs + [p], key) <==> Occurs(pairs, key) || p.key == key
    ensures Occurs(pairs + [p], key) ==>
              LastValue(pairs + [p], key) == if p.key == key then p.value else LastValue(pairs, key)
    ensures FirstAt(pairs + [p], key) ==
            if Occurs(pairs, key) then FirstAt(pairs, key) else if p.key == key then |pairs| else |pairs| + 1
  {
    var all := pairs + [p];
    assert all[..|all| - 1] == pairs && all[|all| - 1] == p && p in all;
    FirstAtIsFirst(pairs, key);
    if Occurs(pairs, key) {
      var q :| q in pairs && q.key == key;
      assert q in all;
    }
  }

  /** Putting one more pair keeps a dictionary the dictionary of its pairs. */
  lemma PutKeepsDictionary(pairs: seq<Entry>, d: seq<Entry>, p: Entry)
    requires TextKeyed(pairs) && p.key.Text? && DictionaryOf(pairs, d)
    ensures DictionaryOf(pairs + [p], Put(d, p.key, p.value))
  {
    hide Put, FirstAt, LastValue;
    forall e | e in d ensures e.key.Text? {
      var q :| q in pairs && q.key == e.key;
    }
    if Occurs(d, p.key) {
      PutKeepsKnownKey(pairs, d, p);
    } else {
      PutKeepsNewKey(pairs, d, p);
    }
  }

  lemma SameKeysOccur(pairs: seq<Entry>, d: seq<Entry>, key: Value)
    requires DictionaryOf(pairs, d)
    ensures Occurs(pairs, key) <==> Occurs(d, key)
  {
    hide FirstAt, LastValue;
    if Occurs(d, key) {
      var e :| e in d && e.key == key;
    }
  }

  lemma PutKeepsKnownKey(pairs: seq<Entry>, d: seq<Entry>, p: Entry)
    requires DictionaryOf(pairs, d) && TextKeyed(d) && p.key.Text? && Occurs(d, p.key)
    ensures DictionaryOf(pairs + [p], Put(d, p.key, p.value))
  {
    hide Put, FirstAt, LastValue, DictionaryOf;
    var q :| q in d && q.key == p.key;
    var i :| 0 <= i < |d| && d[i] == q;
    KeysAreDistinct(pairs, d, i);
    PutKnownText(d, i, p.key, p.value);
    ReplacedIsDictionary(pairs, d, p, i);
  }

  lemma KeysAreDistinct(pairs: seq<Entry>, d: seq<Entry>, i: nat)
    requires DictionaryOf(pairs, d) && i < |d|
    ensures forall j | 0 <= j < |d| && j != i :: d[j].key != d[i].key
  {
    hide FirstAt, LastValue, Occurs;
  }

  lemma ReplacedIsDictionary(pairs: seq<Entry>, d: seq<Entry>, p: Entry, i: nat)
    requires DictionaryOf(pairs, d) && i < |d| && d[i].key == p.key
    ensures DictionaryOf(pairs + [p], d[i := p])
  {
    hide FirstAt, LastValue, Occurs;
    var all, d' := pairs + [p], d[i := p];
    KeysAreDistinct(pairs, d, i);
    EntryOccurs(d, d[i]);
    assert forall j | 0 <= j < |d| :: d'[j].key == d[j].key;
    forall j | 0 <= j < |d|
      ensures Occurs(all, d[j].key) && d'[j].value == LastValue(all, d[j].key)
      ensures FirstAt(all, d[j].key) == FirstAt(pairs, d[j].key)
    {
      assert d[j] in d;
      OneMorePair(pairs, p, d[j].key);
    }
    forall x | x in all ensures Occurs(d', x.key) {
      OneMorePair(pairs, p, x.key);
      EntryOccurs(all, x);
      SameKeysOccur(pairs, d, x.key);
      ReplacedKeyOccurs(d, p, i, x.key);
    }
  }

  lemma EntryOccurs(d: seq<Entry>, e: Entry)
    requires e in d
    ensures Occurs(d, e.key)
  {
  }

  lemma ReplacedKeyOccurs(d: seq<Entry>, p: Entry, i: nat, key: Value)
    requires i < |d| && d[i].key == p.key && Occurs(d, key)
    ensures Occurs(d[i := p], key)
  {
    var y :| y in d && y.key == key;
    var j :| 0 <= j < |d| && d[j] == y;
    assert d[i := p][j] in d[i := p];
  }

  lemma PutKeepsNewKey(pairs: seq<Entry>, d: seq<Entry>, p: Entry)
    requires DictionaryOf(pairs, d) && TextKeyed(d) && p.key.Text? && !Occurs(d, p.key)
    ensures DictionaryOf(pairs + [p], Put(d, p.key, p.value))
  {
    hide Put, FirstAt, LastValue, DictionaryOf;
    PutNewText(d, p.key, p.value);
    AppendedIsDictionary(pairs, d, p);
  }

  lemma AppendedIsDictionary(pairs: seq<Entry>, d: seq<Entry>, p: Entry)
    requires DictionaryOf(pairs, d) && !Occurs(d, p.key)
    ensures DictionaryOf(pairs + [p], d + [p])
  {
    hide FirstAt, LastValue, Occurs;
    var all, d' := pairs + [p], d + [p];
    SameKeysOccur(pairs, d, p.key);
    OneMorePair(pairs, p, p.key);
    forall j | 0 <= j < |d|
      ensures d[j].key != p.key && Occurs(all, d[j].key) && d[j].value == LastValue(all, d[j].key)
      ensures FirstAt(all, d[j].key) == FirstAt(pairs, d[j].key) < |pairs|
    {
      assert d[j] in d;
      EntryOccurs(d, d[j]);
      OneMorePair(pairs, p, d[j].key);
      FirstAtIsFirst(pairs, d[j].key);
    }
    forall x | x in all ensures Occurs(d', x.key) {
      EntryOccurs(all, x);
      OneMorePair(pairs, p, x.key);
      SameKeysOccur(pairs, d, x.key);
      AppendedOccurs(d, p, x.key);
    }
  }

  lemma AppendedOccurs(d: seq<Entry>, p: Entry, key: Value)
    ensures Occurs(d + [p], key) <==> Occurs(d, key) || key == p.key
  {
    var all := d + [p];
    assert p in all;
    if q :| q in d && q.key == key {
      assert q in all;
    }
  }

  /** Putting pairs with strings as keys into an empty dictionary makes their dictionary. */
  lemma {:induction false} PutAllIsDictionary(pairs: seq<Entry>)
    requires TextKeyed(pairs)
    ensures DictionaryOf(pairs, PutAll(pairs))
  {
    hide Put, DictionaryOf;
    if |pairs| == 0 {
      NothingIsDictionary();
    } else {
      var front, last := pairs[..|pairs| - 1], pairs[|pairs| - 1];
      assert pairs == front + [last];
      PutAllIsDictionary(front);
      PutKeepsDictionary(front, PutAll(front), last);
    }
  }

  lemma NothingIsDictionary()
    ensures DictionaryOf([], [])
  {
  }

  lemma PutAllOneMore(pairs: seq<Entry>, p: Entry)
    ensures PutAll(pairs + [p]) == Put(PutAll(pairs), p.key, p.value)
  {
    assert (pairs + [p])[..|pairs|] == pairs;
  }

  // ---------- decoded dictionaries ----------

  /** The pairs stand one behind the other from `off` to `end`: each key, then its value. */
  predicate PairsAt(buf: bytes, base: nat, d: nat, off: nat, pairs: seq<Entry>, end: nat)
    decreases |pairs|
  {
    if |pairs| == 0 then off == end
    else
      var key := Decode(buf, base, d, off);
      && key.Ok? && key.value == pairs[0].key
      && var value := Decode(buf, base, d, key.next);
         value.Ok? && value.value == pairs[0].value && PairsAt(buf, base, d, value.next, pairs[1..], end)
  }

  lemma {:induction false} DecodedPairs(
      buf: bytes, base: nat, d: nat, n: nat, off: nat, before: seq<Entry>, es: seq<Entry>, end: nat)
    returns (pairs: seq<Entry>)
    requires DecodeMap(buf, base, d, n, off, PutAll(before)) == Ok(es, end)
    ensures |pairs| == n && PairsAt(buf, base, d, off, pairs, end) && es == PutAll(before + pairs)
    decreases n
  {
    hide Decode, Put, PutAll;
    if n == 0 {
      pairs := [];
      assert before + pairs == before;
    } else {
      var e := DecodeEntry(buf, base, d, off).value;
      PutAllOneMore(before, e);
      var rest := DecodedPairs(
        buf, base, d, n - 1, DecodeEntry(buf, base, d, off).next, before + [e], es, end);
      pairs := [e] + rest;
      assert pairs[1..] == rest && before + [e] + rest == before + pairs;
    }
  }

  /** A decoded dictionary is the dictionary of the pairs that stand in the buffer. */
  lemma DecodedMapIsDictionary(buf: bytes, base: nat, d: nat, n: nat, off: nat, es: seq<Entry>, end: nat)
    returns (pairs: seq<Entry>)
    requires DecodeMap(buf, base, d, n, off, []) == Ok(es, end)
    ensures |pairs| == n && PairsAt(buf, base, d, off, pairs, end)
    ensures TextKeyed(pairs) ==> DictionaryOf(pairs, es)
  {
    hide Decode, DictionaryOf;
    pairs := DecodedPairs(buf, base, d, n, off, [], es, end);
    assert [] + pairs == pairs;
    if TextKeyed(pairs) {
      PutAllIsDictionary(pairs);
    }
  }

  // ---------- rebuilt dictionaries ----------

  /** The pairs stand in the list behind `last`, up to `end`: each string entry, then the entries of its value. */
  predicate PairsInList(list: seq<EntryData>, last: nat, pairs: seq<Entry>, end: nat)
    decreases |pairs|
  {
    if |pairs| == 0 then last == end
    else
      && last + 1 < |list| && list[last + 1].Utf8String? && pairs[0].key == Text(list[last + 1].text)
      && var value := Rebuild(list, last + 2);
         value.Built? && value.value == pairs[0].value && PairsInList(list, value.last, pairs[1..], end)
  }

  lemma {:induction false} RebuiltPairs(
      list: seq<EntryData>, last: nat, n: nat, before: seq<Entry>, es: seq<Entry>, end: nat) returns (pairs: seq<Entry>)
    requires last < |list| && RebuildMap(list, last, n, PutAll(before)) == Built(es, end)
    ensures |pairs| == n && PairsInList(list, last, pairs, end) && es == PutAll(before + pairs) && TextKeyed(pairs)
    decreases n
  {
    hide Rebuild, Put, PutAll;
    if n == 0 {
      pairs := [];
      assert before + pairs == before;
    } else {
      var value := Rebuild(list, last + 2);
      var e := Entry(Text(list[last + 1].text), value.value);
      PutAllOneMore(before, e);
      var rest := RebuiltPairs(list, value.last, n - 1, before + [e], es, end);
      pairs := [e] + rest;
      assert pairs[1..] == rest && before + [e] + rest == before + pairs;
    }
  }

  /** A rebuilt dictionary is the dictionary of the pairs that stand in the list. */
  lemma RebuiltMapIsDictionary(list: seq<EntryData>, last: nat, n: nat, es: seq<Entry>, end: nat)
    returns (pairs: seq<Entry>)
    requires last < |list| && RebuildMap(list, last, n, []) == Built(es, end)
    ensures |pairs| == n && PairsInList(list, last, pairs, end) && DictionaryOf(pairs, es)
  {
    hide Rebuild, DictionaryOf;
    pairs := RebuiltPairs(list, last, n, [], es, end);
    assert [] + pairs == pairs;
    PutAllIsDictionary(pairs);
  }
}
