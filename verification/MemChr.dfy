/** memchr: a search that tests a whole longword (64 bits) at a time. */
module MemChr {

  const LONGWORD_SIZE: nat := 8

  /** The null pointer that reports "not found". */
  const NULL: int := -1

  // ----- The test of a word, for words of any number of bytes -----

  type digit = d: int | 0 <= d < 256

  /** The number whose bytes are given, least significant first. */
  ghost function Value(x: seq<digit>): int {
    if x == [] then 0 else x[0] + 256 * Value(x[1..])
  }

  ghost function Power256(n: nat): int {
    if n == 0 then 1 else 256 * Power256(n - 1)
  }

  /** The number with a 1 in each of n bytes. */
  ghost function Ones(n: nat): int {
    if n == 0 then 0 else 1 + 256 * Ones(n - 1)
  }

  /** Subtracting a 1 from every byte, and a borrow from the lowest: each byte is decreased and
      passes its own borrow on. */
  ghost function MinusOnes(x: seq<digit>, borrow: bool): (r: seq<digit>)
    ensures |r| == |x|
  {
    if x == [] then []
    else
      var d := x[0] as int - 1 - if borrow then 1 else 0;
      [if d < 0 then d + 256 else d] + MinusOnes(x[1..], d < 0)
  }

  /** Bytewise subtraction is subtraction of numbers that wraps around at the width of the word. */
  lemma {:induction false} MinusOnesValue(x: seq<digit>, borrow: bool)
    ensures exists k :: 0 <= k <= 1 &&
              Value(MinusOnes(x, borrow)) == Value(x) - Ones(|x|) - (if borrow then 1 else 0) + k * Power256(|x|)
  {
    var b := if borrow then 1 else 0;
    if x == [] {
      assert Value(MinusOnes(x, borrow)) == Value(x) - Ones(|x|) - b + b * Power256(|x|);
    } else {
      var d := x[0] as int - 1 - b;
      MinusOnesValue(x[1..], d < 0);
      var rest := MinusOnes(x[1..], d < 0);
      var k :| 0 <= k <= 1 &&
        Value(rest) == Value(x[1..]) - Ones(|x| - 1) - (if d < 0 then 1 else 0) + k * Power256(|x| - 1);
      assert MinusOnes(x, borrow)[1..] == rest;
      assert Value(MinusOnes(x, borrow)) == Value(x) - Ones(|x|) - b + k * Power256(|x|);
    }
  }

  /** The top bit of (d & ~x), for bytes d and x. */
  predicate TopBit(d: digit, x: digit) {
    d >= 128 && x < 128
  }

  /** As long as no byte is zero, no borrow is passed on and no byte of the test is set. */
  lemma {:induction false} NoZeroNoBit(x: seq<digit>)
    requires forall i :: 0 <= i < |x| ==> x[i] != 0
    ensures forall i :: 0 <= i < |x| ==> !TopBit(MinusOnes(x, false)[i], x[i])
  {
    if x != [] {
      NoZeroNoBit(x[1..]);
      var r := MinusOnes(x, false);
      forall i | 0 < i < |x| ensures !TopBit(r[i], x[i]) {
        assert r[i] == MinusOnes(x[1..], false)[i - 1] && x[i] == x[1..][i - 1];
      }
    }
  }

  /** The lowest zero byte sets its bit. */
  lemma {:induction false} ZeroSetsBit(x: seq<digit>, j: nat)
    requires j < |x| && x[j] == 0 && forall i :: 0 <= i < j ==> x[i] != 0
    ensures TopBit(MinusOnes(x, false)[j], x[j])
  {
    if j > 0 {
      assert forall i :: 0 <= i < j - 1 ==> x[1..][i] == x[i + 1];
      ZeroSetsBit(x[1..], j - 1);
      assert x[j] == x[1..][j - 1];
    }
  }

  lemma {:induction false} FirstZero(x: seq<digit>, j: nat) returns (k: nat)
    requires j < |x| && x[j] == 0
    ensures k <= j && x[k] == 0 && forall i :: 0 <= i < k ==> x[i] != 0
  {
    k := j;
    if i :| 0 <= i < j && x[i] == 0 {
      k := FirstZero(x, i);
    }
  }

  /** For words of any width, the test ((x - 0x01..01) & ~x) & 0x80..80 is nonzero exactly when
      some byte of x is zero. */
  lemma AnyWidthTest(x: seq<digit>)
    ensures (exists i :: 0 <= i < |x| && TopBit(MinusOnes(x, false)[i], x[i]))
            <==> exists i :: 0 <= i < |x| && x[i] == 0
  {
    if j :| 0 <= j < |x| && x[j] == 0 {
      var k := FirstZero(x, j);
      ZeroSetsBit(x, k);
    } else {
      NoZeroNoBit(x);
    }
  }

  // ----- The test on 64-bit words -----

  function Word(b0: bv8, b1: bv8, b2: bv8, b3: bv8, b4: bv8, b5: bv8, b6: bv8, b7: bv8): bv64 {
    b0 as bv64 | (b1 as bv64 << 8) | (b2 as bv64 << 16) | (b3 as bv64 << 24)
    | (b4 as bv64 << 32) | (b5 as bv64 << 40) | (b6 as bv64 << 48) | (b7 as bv64 << 56)
  }

  /** The word stored in eight consecutive bytes of memory. */
  function Load(m: seq<bv8>, p: nat, bigEndian: bool): bv64
    requires p + LONGWORD_SIZE <= |m|
  {
    if bigEndian then Word(m[p + 7], m[p + 6], m[p + 5], m[p + 4], m[p + 3], m[p + 2], m[p + 1], m[p])
    else Word(m[p], m[p + 1], m[p + 2], m[p + 3], m[p + 4], m[p + 5], m[p + 6], m[p + 7])
  }

  const ONES: bv64 := 0x0101_0101_0101_0101

  /** ((x - 0x01..01) & ~x) & 0x80..80, with `ones` for 0x01..01. */
  function ZeroTest(x: bv64, ones: bv64): bv64 {
    ((x - ones) & !x) & (ones << 7)
  }

  /** Exclusive or acts on each byte by itself. */
  lemma XorIsBytewise(b0: bv8, b1: bv8, b2: bv8, b3: bv8, b4: bv8, b5: bv8, b6: bv8, b7: bv8,
                      c0: bv8, c1: bv8, c2: bv8, c3: bv8, c4: bv8, c5: bv8, c6: bv8, c7: bv8)
    ensures Word(b0, b1, b2, b3, b4, b5, b6, b7) ^ Word(c0, c1, c2, c3, c4, c5, c6, c7)
         == Word(b0 ^ c0, b1 ^ c1, b2 ^ c2, b3 ^ c3, b4 ^ c4, b5 ^ c5, b6 ^ c6, b7 ^ c7)
  {
  }

  /** Masking a byte out of the word tells whether it is zero. */
  lemma ByteMasks(b0: bv8, b1: bv8, b2: bv8, b3: bv8, b4: bv8, b5: bv8, b6: bv8, b7: bv8)
    ensures Word(b0, b1, b2, b3, b4, b5, b6, b7) & 0xFF == 0 <==> b0 == 0
    ensures Word(b0, b1, b2, b3, b4, b5, b6, b7) & 0xFF00 == 0 <==> b1 == 0
    ensures Word(b0, b1, b2, b3, b4, b5, b6, b7) & 0xFF0000 == 0 <==> b2 == 0
    ensures Word(b0, b1, b2, b3, b4, b5, b6, b7) & 0xFF000000 == 0 <==> b3 == 0
    ensures Word(b0, b1, b2, b3, b4, b5, b6, b7) & 0xFF00000000 == 0 <==> b4 == 0
    ensures Word(b0, b1, b2, b3, b4, b5, b6, b7) & 0xFF0000000000 == 0 <==> b5 == 0
    ensures Word(b0, b1, b2, b3, b4, b5, b6, b7) & 0xFF000000000000 == 0 <==> b6 == 0
    ensures Word(b0, b1, b2, b3, b4, b5, b6, b7) & 0xFF00000000000000 == 0 <==> b7 == 0
  {
  }

  predicate HasZeroByte(x: bv64) {
    || x & 0xFF == 0 || x & 0xFF00 == 0 || x & 0xFF0000 == 0 || x & 0xFF000000 == 0
    || x & 0xFF00000000 == 0 || x & 0xFF0000000000 == 0 || x & 0xFF000000000000 == 0 || x & 0xFF00000000000000 == 0
  }

  lemma NoZeroByteTest(x: bv64)
    requires !HasZeroByte(x)
    ensures ZeroTest(x, ONES) == 0
  {
  }

  lemma ZeroByteTest(x: bv64)
    requires ZeroTest(x, ONES) == 0
    ensures !HasZeroByte(x)
  {
  }

  /** The same test on a machine word, after the bytes were compared with c by exclusive or. */
  lemma WordTest(b0: bv8, b1: bv8, b2: bv8, b3: bv8, b4: bv8, b5: bv8, b6: bv8, b7: bv8, c: bv8)
    ensures ZeroTest(Word(b0, b1, b2, b3, b4, b5, b6, b7) ^ Word(c, c, c, c, c, c, c, c), ONES) != 0
            <==> b0 == c || b1 == c || b2 == c || b3 == c || b4 == c || b5 == c || b6 == c || b7 == c
  {
    hide Word, ZeroTest;
    var x := Word(b0 ^ c, b1 ^ c, b2 ^ c, b3 ^ c, b4 ^ c, b5 ^ c, b6 ^ c, b7 ^ c);
    XorIsBytewise(b0, b1, b2, b3, b4, b5, b6, b7, c, c, c, c, c, c, c, c);
    if HasZeroByte(x) {
      assert ZeroTest(x, ONES) != 0 by { if ZeroTest(x, ONES) == 0 { ZeroByteTest(x); } }
    } else {
      NoZeroByteTest(x);
    }
    ZeroBytes(b0 ^ c, b1 ^ c, b2 ^ c, b3 ^ c, b4 ^ c, b5 ^ c, b6 ^ c, b7 ^ c);
    XorIsZero(b0, c);
    XorIsZero(b1, c);
    XorIsZero(b2, c);
    XorIsZero(b3, c);
    XorIsZero(b4, c);
    XorIsZero(b5, c);
    XorIsZero(b6, c);
    XorIsZero(b7, c);
  }

  lemma XorIsZero(b: bv8, c: bv8)
    ensures b ^ c == 0 <==> b == c
  {
  }

  lemma ZeroBytes(b0: bv8, b1: bv8, b2: bv8, b3: bv8, b4: bv8, b5: bv8, b6: bv8, b7: bv8)
    ensures HasZeroByte(Word(b0, b1, b2, b3, b4, b5, b6, b7))
            <==> b0 == 0 || b1 == 0 || b2 == 0 || b3 == 0 || b4 == 0 || b5 == 0 || b6 == 0 || b7 == 0
  {
    hide Word;
    ByteMasks(b0, b1, b2, b3, b4, b5, b6, b7);
  }

  ghost predicate AnyOfEight(m: seq<bv8>, p: nat, c: bv8)
    requires p + LONGWORD_SIZE <= |m|
  {
    || m[p] == c || m[p + 1] == c || m[p + 2] == c || m[p + 3] == c
    || m[p + 4] == c || m[p + 5] == c || m[p + 6] == c || m[p + 7] == c
  }

  /** The outcome of the test for the word loaded at p. */
  function Tested(w: bv64, c: bv8): bool {
    ZeroTest(w ^ Word(c, c, c, c, c, c, c, c), ONES) != 0
  }

  lemma TestedWord(b0: bv8, b1: bv8, b2: bv8, b3: bv8, b4: bv8, b5: bv8, b6: bv8, b7: bv8, c: bv8)
    ensures Tested(Word(b0, b1, b2, b3, b4, b5, b6, b7), c)
            <==> b0 == c || b1 == c || b2 == c || b3 == c || b4 == c || b5 == c || b6 == c || b7 == c
  {
    hide Word, ZeroTest;
    WordTest(b0, b1, b2, b3, b4, b5, b6, b7, c);
  }

  /** The test on a word loaded from memory, whatever the byte order. */
  lemma LoadTest(m: seq<bv8>, p: nat, bigEndian: bool, c: bv8)
    requires p + LONGWORD_SIZE <= |m|
    ensures Tested(Load(m, p, bigEndian), c) <==> AnyOfEight(m, p, c)
  {
    hide Word, Tested;
    TestedWord(m[p + 7], m[p + 6], m[p + 5], m[p + 4], m[p + 3], m[p + 2], m[p + 1], m[p], c);
    TestedWord(m[p], m[p + 1], m[p + 2], m[p + 3], m[p + 4], m[p + 5], m[p + 6], m[p + 7], c);
  }

  /** The constants of the test, built by shifts. */
  method RepeatedBytes(c: bv8) returns (repeatedOne: bv64, repeatedC: bv64)
    ensures repeatedOne == ONES
    ensures repeatedC == Word(c, c, c, c, c, c, c, c)
  {
    repeatedOne := 0x0101_0101;
    repeatedC := c as bv64 | (c as bv64 << 8);
    repeatedC := repeatedC | (repeatedC << 16);
    repeatedOne := repeatedOne | (repeatedOne << 31 << 1);
    repeatedC := repeatedC | (repeatedC << 31 << 1);
  }

  /** __memchr on the n bytes at index s of a memory whose first byte has the address `base`: the
      first index that holds c, or NULL. */
  method MemChr(m: seq<bv8>, base: nat, s: nat, cIn: int, n: nat, bigEndian: bool) returns (r: int)
    requires s + n <= |m|
    ensures var c := (cIn % 256) as bv8;
            if r == NULL then forall i :: s <= i < s + n ==> m[i] != c
            else s <= r < s + n && m[r] == c && forall i :: s <= i < r ==> m[i] != c
  {
    hide Word, ZeroTest;
    var c := (cIn % 256) as bv8;
    var charPtr: nat, left: nat := s, n;
    while left > 0 && (base + charPtr) % LONGWORD_SIZE != 0
      invariant s <= charPtr && charPtr + left == s + n
      invariant forall i :: s <= i < charPtr ==> m[i] != c
    {
      if m[charPtr] == c {
        return charPtr;
      }
      charPtr, left := charPtr + 1, left - 1;
    }
    var repeatedOne, repeatedC := RepeatedBytes(c);
    while left >= LONGWORD_SIZE
      invariant s <= charPtr && charPtr + left == s + n && (left > 0 ==> (base + charPtr) % LONGWORD_SIZE == 0)
      invariant forall i :: s <= i < charPtr ==> m[i] != c
    {
      var longword1 := Load(m, charPtr, bigEndian) ^ repeatedC;
      LoadTest(m, charPtr, bigEndian, c);
      if ZeroTest(longword1, repeatedOne) != 0 {
        break;
      }
      assert !AnyOfEight(m, charPtr, c);
      charPtr, left := charPtr + LONGWORD_SIZE, left - LONGWORD_SIZE;
    }
    while left > 0
      invariant s <= charPtr && charPtr + left == s + n
      invariant forall i :: s <= i < charPtr ==> m[i] != c
    {
      if m[charPtr] == c {
        return charPtr;
      }
      charPtr, left := charPtr + 1, left - 1;
    }
    return NULL;
  }
}
