// Fixed-width unsigned integers, big-endian byte strings and XOR over
// bytes, shared by the gateway's decoder and the firmware's serialisers.
module Bytes {
  type Byte = b: int | 0 <= b < 0x100
  type U16 = x: int | 0 <= x < 0x1_0000
  type U32 = x: int | 0 <= x < 0x1_0000_0000
  type U64 = x: int | 0 <= x < 0x1_0000_0000_0000_0000

  /** 256 to the power n: the number of values n bytes can hold. */
  function Pow256(n: nat): (p: nat)
    ensures p >= 1
  {
    if n == 0 then 1 else 256 * Pow256(n - 1)
  }

  /** The ranges of the widths the wire formats use. */
  lemma Pow256Widths()
    ensures Pow256(1) == 0x100 && Pow256(2) == 0x1_0000 && Pow256(4) == 0x1_0000_0000
    ensures Pow256(6) == 0x1_0000_0000_0000 && Pow256(8) == 0x1_0000_0000_0000_0000
  {
    assert Pow256(1) == 0x100;
    assert Pow256(2) == 0x1_0000;
    assert Pow256(3) == 0x100_0000;
    assert Pow256(4) == 0x1_0000_0000;
    assert Pow256(5) == 0x100_0000_0000;
    assert Pow256(6) == 0x1_0000_0000_0000;
    assert Pow256(7) == 0x100_0000_0000_0000;
  }

  /** High and low byte of a 16-bit quantity. */
  function Hi(x: U16): Byte { x / 0x100 }
  function Lo(x: U16): Byte { x % 0x100 }

  /** C's conversion of any integer to an 8-bit unsigned value (modulo 256). */
  function Trunc8(x: int): Byte { x % 0x100 }
  function Trunc16(x: int): U16 { x % 0x1_0000 }
  function Trunc32(x: int): U32 { x % 0x1_0000_0000 }

  /** 2 to the power n. */
  function Pow2(n: nat): (p: nat)
    ensures p >= 1
  {
    if n == 0 then 1 else 2 * Pow2(n - 1)
  }

  /**
   * Bitwise exclusive or of two naturals, taken bit by bit from the least
   * significant: the `^` of C and C# on values that fit the operand type.
   */
  function Xor(a: nat, b: nat): nat
    decreases a + b
  {
    if a == 0 then b
    else if b == 0 then a
    else 2 * Xor(a / 2, b / 2) + (if a % 2 == b % 2 then 0 else 1)
  }

  /** The exclusive or of two bytes, which is again a byte. */
  function Xor8(a: Byte, b: Byte): (r: Byte)
    ensures r == Xor(a, b)
  {
    assert Pow2(8) == 0x100;
    XorBelow(a, b, 8);
    Xor(a, b)
  }

  lemma HalfStep(q: nat, r: nat)
    requires r < 2
    ensures (2 * q + r) % 2 == r && (2 * q + r) / 2 == q
  {
  }

  /** The lowest bit of an exclusive or, and the exclusive or of the remaining bits. */
  lemma XorBits(a: nat, b: nat)
    ensures Xor(a, b) % 2 == (if a % 2 == b % 2 then 0 else 1)
    ensures Xor(a, b) / 2 == Xor(a / 2, b / 2)
  {
    if a == 0 {
      assert a / 2 == 0 && a % 2 == 0;
      assert Xor(a, b) == b;
      assert Xor(a / 2, b / 2) == b / 2;
    } else if b == 0 {
      assert b / 2 == 0 && b % 2 == 0;
      assert Xor(a, b) == a;
      assert Xor(a / 2, b / 2) == a / 2;
    } else {
      var r := if a % 2 == b % 2 then 0 else 1;
      assert Xor(a, b) == 2 * Xor(a / 2, b / 2) + r;
      HalfStep(Xor(a / 2, b / 2), r);
    }
  }

  /** Exclusive or keeps values of n bits within n bits. */
  lemma {:induction false} XorBelow(a: nat, b: nat, n: nat)
    requires a < Pow2(n) && b < Pow2(n)
    ensures Xor(a, b) < Pow2(n)
  {
    if a > 0 && b > 0 {
      XorBelow(a / 2, b / 2, n - 1);
    }
  }

  lemma {:induction false} XorSelf(a: nat)
    ensures Xor(a, a) == 0
    decreases a
  {
    if a > 0 {
      XorSelf(a / 2);
    }
  }

  lemma {:induction false} XorComm(a: nat, b: nat)
    ensures Xor(a, b) == Xor(b, a)
    decreases a + b
  {
    if a > 0 && b > 0 {
      XorComm(a / 2, b / 2);
    }
  }

  lemma Halves(x: nat)
    ensures x == 2 * (x / 2) + x % 2
  {
  }

  lemma {:induction false} XorAssoc(a: nat, b: nat, c: nat)
    ensures Xor(Xor(a, b), c) == Xor(a, Xor(b, c))
    decreases a + b + c
  {
    if a > 0 && b > 0 && c > 0 {
      XorAssoc(a / 2, b / 2, c / 2);
      XorBits(a, b);
      XorBits(Xor(a, b), c);
      XorBits(b, c);
      XorBits(a, Xor(b, c));
      Halves(Xor(Xor(a, b), c));
      Halves(Xor(a, Xor(b, c)));
    }
  }

  /** Exclusive or is zero exactly on equal operands. */
  lemma {:induction false} XorZero(a: nat, b: nat)
    ensures Xor(a, b) == 0 <==> a == b
    decreases a + b
  {
    if a == b {
      XorSelf(a);
    } else if a > 0 && b > 0 {
      XorZero(a / 2, b / 2);
    }
  }

  /** Exclusive or with the same value is injective. */
  lemma XorCancel(a: nat, b: nat, c: nat)
    requires Xor(a, b) == Xor(a, c)
    ensures b == c
  {
    XorAssoc(a, a, b);
    XorAssoc(a, a, c);
    XorSelf(a);
  }

  /** XOR of every byte of `s`, folded from the left. */
  function XorAll(s: seq<Byte>): Byte
  {
    if |s| == 0 then 0 else Xor8(XorAll(s[..|s| - 1]), s[|s| - 1])
  }

  lemma {:induction false} XorAllAppend(a: seq<Byte>, b: seq<Byte>)
    ensures XorAll(a + b) == Xor(XorAll(a), XorAll(b))
    decreases |b|
  {
    if |b| == 0 {
      assert a + b == a;
    } else {
      var b' := b[..|b| - 1];
      assert (a + b)[..|a + b| - 1] == a + b';
      XorAllAppend(a, b');
      XorAssoc(XorAll(a), XorAll(b'), b[|b| - 1]);
    }
  }

  /** Replacing one byte changes the XOR of the sequence by the XOR of the old and new byte. */
  lemma XorAllUpdate(s: seq<Byte>, i: nat, v: Byte)
    requires i < |s|
    ensures XorAll(s[i := v]) == Xor(XorAll(s), Xor(s[i], v))
  {
    var t := s[i := v];
    var x, y := XorAll(s[..i]), XorAll(s[i + 1..]);
    assert s == s[..i] + [s[i]] + s[i + 1..];
    assert t == s[..i] + [v] + s[i + 1..];
    XorAllAppend(s[..i] + [s[i]], s[i + 1..]);
    XorAllAppend(s[..i], [s[i]]);
    XorAllAppend(s[..i] + [v], s[i + 1..]);
    XorAllAppend(s[..i], [v]);
    assert [s[i]][..0] == [] && [v][..0] == [];
    // Xor(Xor(x, v), y) == Xor(Xor(Xor(x, s[i]), y), Xor(s[i], v))
    XorAssoc(x, s[i], y);
    XorComm(s[i], y);
    XorAssoc(x, y, s[i]);
    XorAssoc(Xor(x, y), s[i], Xor(s[i], v));
    XorAssoc(s[i], s[i], v);
    XorSelf(s[i]);
    XorAssoc(x, y, v);
    XorAssoc(x, v, y);
    XorComm(v, y);
  }

  /** The unsigned value of a big-endian byte string. */
  function BigEndian(s: seq<Byte>): (v: nat)
    ensures v < Pow256(|s|)
  {
    if |s| == 0 then 0 else BigEndian(s[..|s| - 1]) * 256 + s[|s| - 1]
  }

  /** The n-byte big-endian encoding of v. */
  function ToBigEndian(v: nat, n: nat): (s: seq<Byte>)
    ensures |s| == n
  {
    if n == 0 then [] else ToBigEndian(v / 256, n - 1) + [v % 256]
  }

  lemma {:induction false} BigEndianOfToBigEndian(v: nat, n: nat)
    requires v < Pow256(n)
    ensures BigEndian(ToBigEndian(v, n)) == v
  {
    if n > 0 {
      var s := ToBigEndian(v, n);
      assert s[..n - 1] == ToBigEndian(v / 256, n - 1);
      BigEndianOfToBigEndian(v / 256, n - 1);
    }
  }

  lemma {:induction false} ToBigEndianOfBigEndian(s: seq<Byte>)
    ensures ToBigEndian(BigEndian(s), |s|) == s
  {
    if |s| > 0 {
      var init, last := s[..|s| - 1], s[|s| - 1];
      ToBigEndianOfBigEndian(init);
      DivMod256(BigEndian(init), last);
      assert ToBigEndian(BigEndian(s), |s|) == ToBigEndian(BigEndian(init), |init|) + [last];
      assert s == init + [last];
    }
  }

  lemma {:induction false} BigEndianAppend(a: seq<Byte>, b: seq<Byte>)
    ensures BigEndian(a + b) == BigEndian(a) * Pow256(|b|) + BigEndian(b)
    decreases |b|
  {
    if |b| == 0 {
      assert a + b == a;
    } else {
      var b' := b[..|b| - 1];
      var last := b[|b| - 1];
      assert (a + b)[..|a + b| - 1] == a + b';
      assert (a + b)[|a + b| - 1] == last;
      BigEndianAppend(a, b');
      var x, y, p := BigEndian(a), BigEndian(b'), Pow256(|b'|);
      assert BigEndian(a + b) == (x * p + y) * 256 + last;
      assert BigEndian(b) == y * 256 + last;
      assert Pow256(|b|) == 256 * p;
      MulShift(x, p, y);
    }
  }

  lemma DivMod256(x: nat, b: Byte)
    ensures (x * 256 + b) / 256 == x && (x * 256 + b) % 256 == b
  {
  }

  lemma MulShift(x: int, p: int, y: int)
    ensures (x * p + y) * 256 == x * (256 * p) + y * 256
  {
  }

  /** The bytes of s in reverse order. */
  function Reverse<T>(s: seq<T>): (r: seq<T>)
    ensures |r| == |s|
    ensures forall i :: 0 <= i < |s| ==> r[i] == s[|s| - 1 - i]
  {
    if |s| == 0 then [] else Reverse(s[1..]) + [s[0]]
  }

  lemma ReverseReverse<T>(s: seq<T>)
    ensures Reverse(Reverse(s)) == s
  {
  }

  /** The unsigned value of a little-endian byte string. */
  function LittleEndian(s: seq<Byte>): nat
  {
    BigEndian(Reverse(s))
  }
}
