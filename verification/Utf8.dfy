/** UTF-8 as section 4 of RFC 3629 defines it: which byte strings `bytes.decode("utf-8")` accepts. */
module Utf8 {
  import opened Bits

  predicate Tail(b: byte) { 0x80 <= b <= 0xBF }

  /** The second byte of a sequence of three or four, which the first one narrows. */
  predicate SecondOf(first: byte, b: byte)
  {
    && Tail(b)
    && (first == 0xE0 ==> b >= 0xA0) && (first == 0xED ==> b <= 0x9F)
    && (first == 0xF0 ==> b >= 0x90) && (first == 0xF4 ==> b <= 0x8F)
  }

  /** How many bytes the first character takes; 0 when there is none. */
  function CharWidth(bs: bytes): (k: nat)
    ensures k <= |bs|
  {
    if |bs| == 0 then 0
    else if bs[0] < 0x80 then 1
    else if 0xC2 <= bs[0] <= 0xDF then if |bs| >= 2 && Tail(bs[1]) then 2 else 0
    else if 0xE0 <= bs[0] <= 0xEF then if |bs| >= 3 && SecondOf(bs[0], bs[1]) && Tail(bs[2]) then 3 else 0
    else if 0xF0 <= bs[0] <= 0xF4 then
      if |bs| >= 4 && SecondOf(bs[0], bs[1]) && Tail(bs[2]) && Tail(bs[3]) then 4 else 0
    else 0
  }

  predicate ValidUtf8(bs: bytes)
    decreases |bs|
  {
    |bs| == 0 || (CharWidth(bs) > 0 && ValidUtf8(bs[CharWidth(bs)..]))
  }

  // ---------- the characters behind the bytes ----------

  /** A Unicode scalar value: no surrogate. */
  predicate IsScalar(c: nat) { c < 0xD800 || 0xE000 <= c < 0x11_0000 }

  function CharBytes(c: nat): bytes
    requires IsScalar(c)
  {
    if c < 0x80 then [c]
    else if c < 0x800 then [0xC0 + c / 64, 0x80 + c % 64]
    else if c < 0x1_0000 then [0xE0 + c / 4096, 0x80 + c / 64 % 64, 0x80 + c % 64]
    else [0xF0 + c / 0x4_0000, 0x80 + c / 4096 % 64, 0x80 + c / 64 % 64, 0x80 + c % 64]
  }

  function TextBytes(cs: seq<nat>): bytes
    requires forall c | c in cs :: IsScalar(c)
  {
    if |cs| == 0 then [] else CharBytes(cs[0]) + TextBytes(cs[1..])
  }

  lemma Digits(h: nat, x: nat, y: nat, z: nat)
    requires x < 64 && y < 64 && z < 64
    ensures var c := ((h * 64 + x) * 64 + y) * 64 + z;
            c / 64 == (h * 64 + x) * 64 + y && c / 4096 == h * 64 + x && c / 0x4_0000 == h
    ensures var c := ((h * 64 + x) * 64 + y) * 64 + z;
            c % 64 == z && c / 64 % 64 == y && c / 4096 % 64 == x
  {
  }

  lemma CharIsOne(c: nat, rest: bytes)
    requires IsScalar(c)
    ensures CharWidth(CharBytes(c) + rest) == |CharBytes(c)|
  {
    if c < 0x1_0000 {
      ShortCharIsOne(c, rest);
    } else {
      FourByteCharIsOne(c, rest);
    }
  }

  lemma ShortCharIsOne(c: nat, rest: bytes)
    requires IsScalar(c) && c < 0x1_0000
    ensures CharWidth(CharBytes(c) + rest) == |CharBytes(c)|
  {
    if c >= 0x800 {
      var h, x, y := c / 4096, c / 64 % 64, c % 64;
      assert c == (h * 64 + x) * 64 + y;
      assert CharBytes(c) + rest == [0xE0 + h, 0x80 + x, 0x80 + y] + rest;
    }
  }

  lemma FourByteCharIsOne(c: nat, rest: bytes)
    requires IsScalar(c) && c >= 0x1_0000
    ensures CharWidth(CharBytes(c) + rest) == |CharBytes(c)|
  {
    hide CharWidth;
    var h, x, y, z := c / 64 / 64 / 64, c / 64 / 64 % 64, c / 64 % 64, c % 64;
    assert c == ((h * 64 + x) * 64 + y) * 64 + z;
    Digits(h, x, y, z);
    FourTailsAreOne(h, x, y, z, rest);
  }

  lemma FourTailsAreOne(h: nat, x: nat, y: nat, z: nat, rest: bytes)
    requires h <= 4 && x < 64 && y < 64 && z < 64 && (h == 0 ==> x >= 16) && (h == 4 ==> x < 16)
    ensures CharWidth([0xF0 + h, 0x80 + x, 0x80 + y, 0x80 + z] + rest) == 4
  {
  }

  /** The character that a well-formed sequence stands for. */
  lemma CharIsWritten(bs: bytes) returns (c: nat)
    requires CharWidth(bs) > 0
    ensures IsScalar(c) && CharBytes(c) == bs[..CharWidth(bs)]
  {
    var k := CharWidth(bs);
    if k == 1 {
      c := bs[0];
    } else if k == 2 {
      c := TwoBytes(bs);
    } else if k == 3 {
      c := ThreeBytes(bs);
    } else {
      c := FourBytes(bs);
    }
  }

  lemma TwoBytes(bs: bytes) returns (c: nat)
    requires CharWidth(bs) == 2
    ensures IsScalar(c) && CharBytes(c) == bs[..2]
  {
    var h: nat, x: nat := bs[0] - 0xC0, bs[1] - 0x80;
    c := h * 64 + x;
    Digits(0, 0, h, x);
  }

  lemma ThreeBytes(bs: bytes) returns (c: nat)
    requires CharWidth(bs) == 3
    ensures IsScalar(c) && CharBytes(c) == bs[..3]
  {
    var h: nat, x: nat, y: nat := bs[0] - 0xE0, bs[1] - 0x80, bs[2] - 0x80;
    c := (h * 64 + x) * 64 + y;
    Digits(0, h, x, y);
  }

  lemma FourBytes(bs: bytes) returns (c: nat)
    requires CharWidth(bs) == 4
    ensures IsScalar(c) && CharBytes(c) == bs[..4]
  {
    var h: nat, x: nat, y: nat, z: nat := bs[0] - 0xF0, bs[1] - 0x80, bs[2] - 0x80, bs[3] - 0x80;
    c := ((h * 64 + x) * 64 + y) * 64 + z;
    Digits(h, x, y, z);
  }

  predicate Spells(cs: seq<nat>, bs: bytes)
  {
    (forall c | c in cs :: IsScalar(c)) && TextBytes(cs) == bs
  }

  lemma {:induction false} ValidSpells(bs: bytes) returns (cs: seq<nat>)
    requires ValidUtf8(bs)
    ensures Spells(cs, bs)
    decreases |bs|
  {
    cs := [];
    if |bs| > 0 {
      var k := CharWidth(bs);
      var c := CharIsWritten(bs);
      var rest := ValidSpells(bs[k..]);
      cs := [c] + rest;
      assert cs[1..] == rest;
      assert bs == bs[..k] + bs[k..];
    }
  }

  lemma {:induction false} SpelledIsValid(cs: seq<nat>)
    requires forall c | c in cs :: IsScalar(c)
    ensures ValidUtf8(TextBytes(cs))
  {
    if |cs| > 0 {
      var x, rest := CharBytes(cs[0]), TextBytes(cs[1..]);
      CharIsOne(cs[0], rest);
      SpelledIsValid(cs[1..]);
      assert (x + rest)[|x|..] == rest;
    }
  }

  /** A byte string is valid exactly when it spells some sequence of characters. */
  lemma ValidIffSpelled(bs: bytes)
    ensures ValidUtf8(bs) <==> exists cs :: Spells(cs, bs)
  {
    if ValidUtf8(bs) {
      var cs := ValidSpells(bs);
      assert Spells(cs, bs);
    }
    if cs :| Spells(cs, bs) {
      SpelledIsValid(cs);
    }
  }

  /** Bytes below 0x80 are characters on their own. */
  lemma {:induction false} AsciiIsValid(bs: bytes)
    requires forall i :: 0 <= i < |bs| ==> bs[i] < 0x80
    ensures ValidUtf8(bs)
  {
    if |bs| > 0 {
      AsciiIsValid(bs[1..]);
    }
  }

  /** What no valid string has: a stray or missing tail, an overlong form, a surrogate, and characters behind
      U+10FFFF. */
  lemma {:induction false} IllFormedIsInvalid(front: bytes, bs: bytes)
    requires |bs| > 0 && ValidUtf8(front)
    requires || 0x80 <= bs[0] < 0xC2 || bs[0] > 0xF4
             || (bs[0] >= 0xC2 && (|bs| == 1 || !(0x80 <= bs[1] < 0xC0)))
             || (|bs| > 1 && bs[0] == 0xE0 && bs[1] < 0xA0) || (|bs| > 1 && bs[0] == 0xED && bs[1] >= 0xA0)
             || (|bs| > 1 && bs[0] == 0xF0 && bs[1] < 0x90) || (|bs| > 1 && bs[0] == 0xF4 && bs[1] >= 0x90)
    ensures !ValidUtf8(front + bs)
    decreases |front|
  {
    if |front| == 0 {
      assert front + bs == bs;
    } else {
      var k := CharWidth(front);
      assert CharWidth(front + bs) == k && (front + bs)[k..] == front[k..] + bs;
      IllFormedIsInvalid(front[k..], bs);
    }
  }
}
