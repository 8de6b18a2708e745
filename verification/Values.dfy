/** The values a database record is made of, as both readers build them. */
module Values {
  import opened Bits

  datatype Value =
    | Text(text: bytes)           // a string, by its UTF-8 bytes
    | Blob(blob: bytes)
    | ByteArray(blob: bytes)      // the extension's mutable form of a blob
    | Double(double: bytes)       // IEEE payloads are kept as they are
    | Float(float: bytes)
    | Int(n: int)                 // all integer types decode to one type
    | Bool(b: bool)
    | Arr(items: seq<Value>)
    | Dict(entries: seq<Entry>)   // in insertion order

  datatype Entry = Entry(key: Value, value: Value)

  /** What can be a dictionary key. */
  predicate Hashable(v: Value) { !v.Arr? && !v.Dict? && !v.ByteArray? }

  // ---------- when two keys are the same ----------

  /** A number as `n * 2^exponent` with odd `n`, or 0; keys compare by it across all numeric types. */
  datatype Number = Finite(n: int, exponent: int) | Infinite(negative: bool) | NotANumber

  function Signed(negative: bool, magnitude: int): int { if negative then -magnitude else magnitude }

  /** Move the factors of two from a magnitude to the exponent. */
  function Reduced(negative: bool, magnitude: nat, exponent: int): Number
    decreases magnitude
  {
    if magnitude == 0 then Finite(0, 0)
    else if magnitude % 2 == 0 then Reduced(negative, magnitude / 2, exponent + 1)
    else Finite(Signed(negative, magnitude), exponent)
  }

  /** An IEEE 754 number: `f` bits of fraction, above them the biased exponent up to `top`, then the sign. */
  function Ieee(raw: nat, f: nat, top: nat): Number
  {
    var fraction, biased := raw % Pow2(f), raw / Pow2(f) % (top + 1);
    var negative := raw / Pow2(f) / (top + 1) % 2 == 1;
    var least := 2 - (top + 1) / 2 - f;   // the exponent of the lowest subnormal bit
    if biased == top then if fraction == 0 then Infinite(negative) else NotANumber
    else if biased == 0 then Reduced(negative, fraction, least)
    else Reduced(negative, fraction + Pow2(f), least + biased - 1)
  }

  function NumberOf(v: Value): Number
  {
    match v
    case Int(n) => Reduced(n < 0, if n < 0 then -n else n, 0)
    case Bool(b) => Reduced(false, Bit(b), 0)
    case Double(raw) =>
      if |raw| != 8 then NotANumber
      else Ieee(BigEndian(raw), 52, 2047)
    case Float(raw) =>
      if |raw| != 4 then NotANumber
      else Ieee(BigEndian(raw), 23, 255)
    case _ => NotANumber
  }

  /** Strings and blobs equal only their like; `1`, `1.0` and `True` are one key; a NaN equals nothing. */
  predicate SameKey(a: Value, b: Value)
  {
    if a.Text? || a.Blob? || b.Text? || b.Blob? then a == b
    else !NumberOf(a).NotANumber? && NumberOf(a) == NumberOf(b)
  }

  /** Equal integers and nothing else reduce to the same number. */
  lemma {:induction false} ReducedIsExact(s: bool, m: nat, e: int, s': bool, m': nat, e': int)
    requires m > 0 && m' > 0
    ensures Reduced(s, m, e) == Reduced(s', m', e') <==>
            s == s' && if e <= e' then m == Shl(m', e' - e) else m' == Shl(m, e - e')
    decreases m + m'
  {
    if m % 2 == 0 {
      ReducedIsExact(s, m / 2, e + 1, s', m', e');
      assert m == 2 * (m / 2);
      if e < e' {
        ShlDouble(m', e' - e - 1);
      } else {
        ShlDouble(m / 2, e - e');
      }
    } else if m' % 2 == 0 {
      ReducedIsExact(s, m, e, s', m' / 2, e' + 1);
      assert m' == 2 * (m' / 2);
      if e' < e {
        ShlDouble(m, e - e' - 1);
      } else {
        ShlDouble(m' / 2, e' - e);
      }
    } else if e < e' {
      ShlDouble(m', e' - e - 1);
    } else if e' < e {
      ShlDouble(m, e - e' - 1);
    }
  }

  // ---------- dictionaries ----------

  /** `container[key] = value`: a key that is already there keeps its place and its form. */
  function Put(d: seq<Entry>, key: Value, value: Value): seq<Entry>
  {
    if |d| == 0 then [Entry(key, value)]
    else if SameKey(d[0].key, key) then [Entry(d[0].key, value)] + d[1..]
    else [d[0]] + Put(d[1..], key, value)
  }

  predicate HasKey(d: seq<Entry>, key: Value) { exists i :: 0 <= i < |d| && SameKey(d[i].key, key) }

  lemma {:induction false} PutNewKey(d: seq<Entry>, key: Value, value: Value)
    requires !HasKey(d, key)
    ensures Put(d, key, value) == d + [Entry(key, value)]
  {
    hide SameKey;
    if |d| > 0 {
      assert !SameKey(d[0].key, key);
      forall i | 0 <= i < |d| - 1 ensures !SameKey(d[1..][i].key, key) {
        assert !SameKey(d[i + 1].key, key);
      }
      PutNewKey(d[1..], key, value);
    }
  }
}
