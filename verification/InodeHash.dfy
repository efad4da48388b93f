/**
 The bucket of an inode key: the device number xored with a wrapping multiple of the
 inode number, reduced modulo a power-of-two slot count.
 */
module InodeHash {
  import opened Base
  import opened Division

  const MULTIPLIER: u64 := 0x9E37_79B9_7F4A_7C15

  function Pow2(k: nat): (p: nat)
    ensures p > 0
  {
    if k == 0 then 1 else 2 * Pow2(k - 1)
  }

  /** Bit i of a natural number. */
  function Bit(a: nat, i: nat): bool {
    if i == 0 then a % 2 == 1 else Bit(a / 2, i - 1)
  }

  /** Bitwise exclusive or of two natural numbers. */
  function Xor(a: nat, b: nat): nat
    decreases a + b
  {
    if a == 0 && b == 0 then 0
    else (a % 2 + b % 2) % 2 + 2 * Xor(a / 2, b / 2)
  }

  /** Bit i is the i-th binary digit. */
  lemma {:induction false} BitIsDigit(a: nat, i: nat)
    ensures Bit(a, i) <==> a / Pow2(i) % 2 == 1
    decreases i
  {
    if i > 0 {
      HalfThenQuotient(a, Pow2(i - 1));
      BitIsDigit(a / 2, i - 1);
    }
  }

  function Hash(slotCount: nat, dev: u64, ino: u64): nat
    requires slotCount > 0
  {
    Xor(dev, (ino * MULTIPLIER) % U64_LIMIT) % slotCount
  }

  /** Xor really is the bit-by-bit exclusive or. */
  lemma {:induction false} XorBits(a: nat, b: nat, i: nat)
    ensures Bit(Xor(a, b), i) == (Bit(a, i) != Bit(b, i))
    decreases i
  {
    XorSplit(a, b);
    if i > 0 {
      XorBits(a / 2, b / 2, i - 1);
    }
  }

  /**
   The bucket is the remainder of a 64-bit number whose bits are those of the device number
   exclusive-or the wrapping multiple of the inode number.
   */
  lemma HashMixes(slotCount: nat, dev: u64, ino: u64) returns (mixed: nat)
    requires slotCount > 0
    ensures Hash(slotCount, dev, ino) == mixed % slotCount
    ensures forall i: nat ::
              Bit(mixed, i) == (Bit(dev, i) != Bit(ino * 0x9E37_79B9_7F4A_7C15 % 0x1_0000_0000_0000_0000, i))
  {
    mixed := Xor(dev, (ino * MULTIPLIER) % U64_LIMIT);
    forall i: nat
      ensures Bit(mixed, i) == (Bit(dev, i) != Bit(ino * 0x9E37_79B9_7F4A_7C15 % 0x1_0000_0000_0000_0000, i))
    {
      XorBits(dev, (ino * MULTIPLIER) % U64_LIMIT, i);
    }
  }

  /** The low k bits of an exclusive or depend only on the low k bits of its operands. */
  lemma {:induction false} XorMod(a: nat, b: nat, k: nat)
    ensures Xor(a, b) % Pow2(k) == Xor(a % Pow2(k), b % Pow2(k))
    decreases k
  {
    if k > 0 {
      var q := Pow2(k - 1);
      HalfMod(a, q);
      HalfMod(b, q);
      XorMod(a / 2, b / 2, k - 1);
      var low := (a % 2 + b % 2) % 2;
      XorSplit(a, b);
      XorSplit(a % (2 * q), b % (2 * q));
      HalfMod(Xor(a, b), q);
    }
  }

  lemma XorSplit(a: nat, b: nat)
    ensures Xor(a, b) % 2 == (a % 2 + b % 2) % 2
    ensures Xor(a, b) / 2 == Xor(a / 2, b / 2)
  {
  }

  lemma HalfMod(a: nat, q: nat)
    requires q > 0
    ensures a % (2 * q) % 2 == a % 2
    ensures a % (2 * q) / 2 == (a / 2) % q
    ensures a % (2 * q) == a % 2 + 2 * ((a / 2) % q)
  {
    var h := a / 2;
    ModUnique(a, 2 * q, h / q, a % 2 + 2 * (h % q));
  }

  /** Quotient and remainder are the only ones. */
  lemma {:induction false} XorCancel(a: nat, b: nat, c: nat)
    ensures Xor(a, b) == Xor(a, c) ==> b == c
    decreases a + b + c
  {
    if a + b + c > 0 {
      XorSplit(a, b);
      XorSplit(a, c);
      XorCancel(a / 2, b / 2, c / 2);
      if Xor(a, b) == Xor(a, c) {
        SameParity(a % 2, b % 2, c % 2);
        assert b == 2 * (b / 2) + b % 2 && c == 2 * (c / 2) + c % 2;
      }
    }
  }

  lemma SameParity(x: nat, y: nat, z: nat)
    requires x < 2 && y < 2 && z < 2 && (x + y) % 2 == (x + z) % 2
    ensures y == z
  {
  }

  lemma ModZeroIff(x: int, y: int, q: nat)
    requires q > 0
    ensures x % q == y % q <==> (x - y) % q == 0
  {
    var d := x / q - y / q;
    if x % q == y % q {
      assert x - y == d * q;
      ModUnique(x - y, q, d, 0);
    }
    if (x - y) % q == 0 {
      var m := (x - y) / q;
      assert x == (y / q + m) * q + y % q;
      ModUnique(x, q, y / q + m, y % q);
    }
  }

  /** An odd factor is invertible modulo a power of two. */
  lemma {:induction false} OddFactor(x: int, c: int, k: nat)
    requires c % 2 == 1
    ensures (x * c) % Pow2(k) == 0 <==> x % Pow2(k) == 0
    decreases k
  {
    if k > 0 {
      var q := Pow2(k - 1);
      if x % 2 == 1 {
        OddProduct(x, c);
        OddNotMultiple(x * c, q);
        OddNotMultiple(x, q);
      } else {
        var y := x / 2;
        assert x == 2 * y;
        EvenProduct(y, c);
        OddFactor(y, c, k - 1);
        EvenMultiple(y, q);
        EvenMultiple(y * c, q);
      }
    }
  }

  lemma OddProduct(x: int, c: int)
    requires x % 2 == 1 && c % 2 == 1
    ensures (x * c) % 2 == 1
  {
    var i, j := x / 2, c / 2;
    calc {
      x * c;
      (2 * i + 1) * (2 * j + 1);
      2 * (2 * (i * j) + i + j) + 1;
    }
  }

  lemma EvenProduct(y: int, c: int)
    ensures (2 * y) * c == 2 * (y * c)
  {
  }

  lemma OddNotMultiple(x: int, q: nat)
    requires q > 0 && x % 2 == 1
    ensures x % (2 * q) != 0
  {
    var m := x / (2 * q);
    assert x == 2 * (m * q) + x % (2 * q);
  }

  lemma EvenMultiple(y: int, q: nat)
    requires q > 0
    ensures (2 * y) % (2 * q) == 0 <==> y % q == 0
  {
    var d, r := y / q, y % q;
    assert 2 * y == d * (2 * q) + 2 * r;
    ModUnique(2 * y, 2 * q, d, 2 * r);
  }

  lemma {:induction false} Pow2Divides(j: nat, k: nat, x: int)
    requires k <= j
    ensures x % Pow2(j) % Pow2(k) == x % Pow2(k)
    decreases j
  {
    if k == j {
      ModUnique(x % Pow2(k), Pow2(k), 0, x % Pow2(k));
    } else {
      var q := Pow2(j - 1);
      ModOfDouble(x, q);
      Pow2Divides(j - 1, k, x);
      Pow2Divides(j - 1, k, x % Pow2(j));
    }
  }

  lemma ModOfDouble(x: int, q: nat)
    requires q > 0
    ensures x % (2 * q) % q == x % q
  {
    var m, y := x / (2 * q), x % (2 * q);
    var d, r := y / q, y % q;
    assert x == m * (2 * q) + y;
    assert y == d * q + r;
    assert m * (2 * q) + d * q == (2 * m + d) * q;
    ModUnique(x, q, 2 * m + d, r);
  }

  lemma {:induction false} Pow2Sum(a: nat, b: nat)
    ensures Pow2(a + b) == Pow2(a) * Pow2(b)
    decreases a
  {
    if a > 0 {
      Pow2Sum(a - 1, b);
      EvenProduct(Pow2(a - 1), Pow2(b));
    }
  }

  lemma Pow2Square(a: nat, v: nat, b: nat)
    requires Pow2(a) == v && b == a + a
    ensures Pow2(b) == v * v
  {
    Pow2Sum(a, a);
  }

  lemma Pow2Of64(k: nat)
    requires k == 64
    ensures Pow2(k) == U64_LIMIT
  {
    var one := k - 63;
    assert Pow2(one) == 2 * Pow2(one - 1);
    Pow2Square(one, 2, k - 62);
    Pow2Square(k - 62, 4, k - 60);
    Pow2Square(k - 60, 16, k - 56);
    Pow2Square(k - 56, 256, k - 48);
    Pow2Square(k - 48, 0x1_0000, k - 32);
    Pow2Square(k - 32, 0x1_0000_0000, k);
  }

  /** The bucket only looks at the low bits of the device and of the multiplied inode number. */
  lemma HashLowBits(k: nat, dev: u64, ino: u64)
    requires k <= 64
    ensures Hash(Pow2(k), dev, ino) == Xor(dev % Pow2(k), (ino * MULTIPLIER) % Pow2(k))
  {
    XorMod(dev, (ino * MULTIPLIER) % U64_LIMIT, k);
    Pow2Of64(64);
    Pow2Divides(64, k, ino * MULTIPLIER);
  }

  /**
   On one device two inode numbers share a bucket exactly when they are congruent modulo
   the slot count, whatever power of two it is.
   */
  lemma SameBucket(k: nat, dev: u64, a: u64, b: u64)
    requires k <= 64
    ensures Hash(Pow2(k), dev, a) == Hash(Pow2(k), dev, b) <==> a % Pow2(k) == b % Pow2(k)
  {
    var p := Pow2(k);
    HashLowBits(k, dev, a);
    HashLowBits(k, dev, b);
    XorCancel(dev % p, (a * MULTIPLIER) % p, (b * MULTIPLIER) % p);
    ModZeroIff(a * MULTIPLIER, b * MULTIPLIER, p);
    ModZeroIff(a, b, p);
    assert a * MULTIPLIER - b * MULTIPLIER == (a - b) * MULTIPLIER;
    OddFactor(a - b, MULTIPLIER, k);
  }
}
