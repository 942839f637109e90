/**
  Machine words as bounded integers, little-endian encodings, bitwise operators
  on naturals, and the FNV-1a hash.
 */
module Bytes {
  type byte = x: int | 0 <= x < 256
  type bytes = seq<byte>

  const TWO_32 := 0x1_0000_0000
  const TWO_63 := 0x8000_0000_0000_0000
  const TWO_64 := 0x1_0000_0000_0000_0000

  type u32 = x: int | 0 <= x < 0x1_0000_0000
  type u64 = x: int | 0 <= x < 0x1_0000_0000_0000_0000

  /** The number of distinct words of `w` bytes. */
  function Pow256(w: nat): (r: nat)
    ensures r > 0
  {
    if w == 0 then 1 else 256 * Pow256(w - 1)
  }

  /** The `w` low-order bytes of `n`, least significant first. */
  function LE(n: nat, w: nat): (s: bytes)
    ensures |s| == w
  {
    if w == 0 then [] else [n % 256] + LE(n / 256, w - 1)
  }

  /** The number that a little-endian byte string stands for. */
  function UnLE(s: bytes): nat {
    if s == [] then 0 else s[0] + 256 * UnLE(s[1..])
  }

  /** The least significant byte comes first. */
  lemma LEFour(n: nat)
    ensures LE(n, 4) == [n % 256, (n / 256) % 256, (n / 0x1_0000) % 256, (n / 0x100_0000) % 256]
  {
    assert LE(n / 0x100_0000, 1) == [(n / 0x100_0000) % 256] + LE(n / 0x1_0000_0000, 0);
    assert LE(n / 0x1_0000, 2) == [(n / 0x1_0000) % 256] + LE(n / 0x100_0000, 1);
    assert LE(n / 256, 3) == [(n / 256) % 256] + LE(n / 0x1_0000, 2);
  }

  lemma {:induction false} UnLEInverts(n: nat, w: nat)
    requires n < Pow256(w)
    ensures UnLE(LE(n, w)) == n
  {
    if w > 0 {
      UnLEInverts(n / 256, w - 1);
      assert LE(n, w)[1..] == LE(n / 256, w - 1);
    }
  }

  lemma {:induction false} LEInverts(s: bytes)
    ensures UnLE(s) < Pow256(|s|)
    ensures LE(UnLE(s), |s|) == s
  {
    if s != [] {
      LEInverts(s[1..]);
      assert UnLE(s) / 256 == UnLE(s[1..]) && UnLE(s) % 256 == s[0];
      assert s == [s[0]] + s[1..];
    }
  }

  /** Little-endian words laid side by side. */
  lemma {:induction false} UnLEConcat(s: bytes, t: bytes)
    ensures UnLE(s + t) == UnLE(s) + Pow256(|s|) * UnLE(t)
  {
    if s == [] {
      assert s + t == t;
    } else {
      assert (s + t)[1..] == s[1..] + t;
      UnLEConcat(s[1..], t);
      Regroup(s[0], UnLE(s[1..]), Pow256(|s| - 1), UnLE(t));
    }
  }

  /** One more low-order byte `b` in front of `n + p * u`. */
  lemma Regroup(b: nat, n: nat, p: nat, u: nat)
    ensures b + 256 * (n + p * u) == b + 256 * n + 256 * p * u
  {
  }

  lemma WordSizes()
    ensures Pow256(4) == TWO_32 && Pow256(8) == TWO_64
  {
    assert Pow256(2) == 65536;
    assert Pow256(4) == 256 * (256 * Pow256(2));
    assert Pow256(6) == 256 * (256 * Pow256(4));
    assert Pow256(8) == 256 * (256 * Pow256(6));
  }

  /** The 32-bit and 64-bit codecs of encoding/binary. */
  function UnLE32(s: bytes): u32
    requires |s| == 4
  {
    WordSizes();
    LEInverts(s);
    UnLE(s)
  }

  function UnLE64(s: bytes): u64
    requires |s| == 8
  {
    WordSizes();
    LEInverts(s);
    UnLE(s)
  }

  lemma Word32(n: u32)
    ensures UnLE32(LE(n, 4)) == n
  {
    WordSizes();
    UnLEInverts(n, 4);
  }

  lemma Word64(n: u64)
    ensures UnLE64(LE(n, 8)) == n
  {
    WordSizes();
    UnLEInverts(n, 8);
  }

  /** Two's complement reading of a 64-bit word, as Go's int64 conversion. */
  function Signed64(n: u64): (r: int)
    ensures -TWO_63 <= r < TWO_63
    ensures r % TWO_64 == n
  {
    if n < TWO_63 then n else n - TWO_64
  }
}

/**
  A definition behind a guard is unfolded only where a proof says `Asked`, which keeps
  large definitions out of proofs that need no more than their names.
 */
module Guards {
  ghost predicate Asked(n: int) {
    true
  }
}

module Bits {
  function Pow2(k: nat): (r: nat)
    ensures r > 0
  {
    if k == 0 then 1 else 2 * Pow2(k - 1)
  }

  function And(a: nat, b: nat): nat {
    if a == 0 || b == 0 then 0
    else 2 * And(a / 2, b / 2) + (a % 2) * (b % 2)
  }

  function Or(a: nat, b: nat): nat
    decreases a + b
  {
    if a == 0 then b else if b == 0 then a
    else 2 * Or(a / 2, b / 2) + (if a % 2 == 1 || b % 2 == 1 then 1 else 0)
  }

  function Xor(a: nat, b: nat): nat
    decreases a + b
  {
    if a == 0 then b else if b == 0 then a
    else 2 * Xor(a / 2, b / 2) + (a + b) % 2
  }

  lemma {:induction false} Pow2Monotone(j: nat, k: nat)
    requires j <= k
    ensures Pow2(j) <= Pow2(k)
    decreases k
  {
    if j < k {
      Pow2Monotone(j, k - 1);
    }
  }

  /** One more bit of the mask. */
  lemma AndMaskStep(h: nat, n: nat, mask: nat)
    requires n > 0 && mask == 2 * n - 1 && And(h / 2, n - 1) == (h / 2) % n
    ensures And(h, mask) == h % (2 * n)
  {
    AndOdd(h, n - 1, mask);
    ModTwice(h, n);
  }

  /** Masking with 2^k - 1 is the remainder modulo 2^k. */
  lemma {:induction false} AndMask(h: nat, k: nat)
    ensures And(h, Pow2(k) - 1) == h % Pow2(k)
  {
    if k == 0 {
      assert h % 1 == 0;
    } else {
      AndMask(h / 2, k - 1);
      AndMaskStep(h, Pow2(k - 1), Pow2(k) - 1);
    }
  }

  lemma AndOdd(h: nat, m: nat, mask: nat)
    requires mask == 2 * m + 1
    ensures And(h, mask) == 2 * And(h / 2, m) + h % 2
  {
    assert mask / 2 == m && mask % 2 == 1;
  }

  lemma ModTwice(h: nat, n: nat)
    requires n > 0
    ensures h % (2 * n) == 2 * ((h / 2) % n) + h % 2
  {
    var q, r := (h / 2) / n, (h / 2) % n;
    assert h / 2 == q * n + r;
    assert h == (2 * n) * q + (2 * r + h % 2);
    RemainderUnique(h, 2 * n, q, 2 * r + h % 2);
  }

  lemma RemainderUnique(h: nat, d: nat, q: nat, r: nat)
    requires r < d && h == d * q + r
    ensures h % d == r
  {
    QuotientUnique(d, q, r, h / d, h % d);
  }

  lemma QuotientUnique(d: nat, q: nat, r: nat, q': nat, r': nat)
    requires r < d && r' < d
    requires d * q + r == d * q' + r'
    ensures r == r'
  {
    if q' > q {
      Exceeds(d, q, q');
    } else if q' < q {
      Exceeds(d, q', q);
    }
  }

  lemma {:induction false} Exceeds(d: nat, q: nat, q': nat)
    requires q < q'
    ensures d * q' >= d * q + d
  {
    var e := q' - q - 1;
    assert d * q' == d * (q + 1 + e) == d * q + d + d * e;
  }

  /** One more low-order bit: (2^k - 1) | 2^k == 2^(k+1) - 1. */
  lemma {:induction false} OrNextBit(k: nat)
    ensures Or(Pow2(k) - 1, Pow2(k)) == Pow2(k + 1) - 1
  {
    if k > 0 {
      OrNextBit(k - 1);
      assert (Pow2(k) - 1) / 2 == Pow2(k - 1) - 1 && Pow2(k) / 2 == Pow2(k - 1);
    }
  }

  lemma {:induction false} XorBound(a: nat, b: nat, k: nat)
    requires a < Pow2(k) && b < Pow2(k)
    ensures Xor(a, b) < Pow2(k)
    decreases k
  {
    if k > 0 && a > 0 && b > 0 {
      XorBound(a / 2, b / 2, k - 1);
    }
  }

  lemma XorHalf(a: nat, b: nat)
    ensures Xor(a, b) == 2 * Xor(a / 2, b / 2) + (a + b) % 2
  {
  }

  lemma Halves(x: nat, y: nat, p: nat, q: nat, a: nat, b: nat, c: nat)
    requires x == 2 * p + (a + b) % 2 && y == 2 * q + (a + c) % 2 && x == y
    ensures p == q && b % 2 == c % 2
  {
  }

  /** Exclusive or with a fixed word can be undone. */
  lemma {:induction false} XorInjective(a: nat, b: nat, c: nat)
    requires Xor(a, b) == Xor(a, c)
    ensures b == c
    decreases a + b + c
  {
    if a + b + c > 0 {
      XorHalf(a, b);
      XorHalf(a, c);
      Halves(Xor(a, b), Xor(a, c), Xor(a / 2, b / 2), Xor(a / 2, c / 2), a, b, c);
      XorInjective(a / 2, b / 2, c / 2);
    }
  }

  lemma {:induction false} XorCommutes(a: nat, b: nat)
    ensures Xor(a, b) == Xor(b, a)
    decreases a + b
  {
    if a > 0 && b > 0 {
      XorCommutes(a / 2, b / 2);
    }
  }

  lemma Pow2Of16()
    ensures Pow2(16) == 65536
  {
    Square(4, 16);
    Square(8, 256);
  }

  /** A power of two that cannot be doubled below 2^k is 2^k. */
  lemma LastDoubling(j: nat, k: nat)
    requires Pow2(j) <= Pow2(k) < 2 * Pow2(j)
    ensures Pow2(j) == Pow2(k)
  {
    if j < k {
      Pow2Monotone(j, k - 1);
    } else {
      Pow2Monotone(k, j);
    }
  }

  /** A smaller power of two can be doubled. */
  lemma RoomToDouble(j: nat, k: nat)
    requires Pow2(j) < Pow2(k)
    ensures 2 * Pow2(j) <= Pow2(k)
  {
    if j < k {
      Pow2Monotone(j + 1, k);
    } else {
      Pow2Monotone(k, j);
    }
  }

  lemma Pow2Of26()
    ensures Pow2(26) == 67108864
  {
    Pow2Of16();
    Pow2Add(16, 10);
    assert Pow2(10) == 1024 by { Square(5, 32); }
  }

  lemma Pow2Of64()
    ensures Pow2(64) == 0x1_0000_0000_0000_0000
  {
    Square(4, 16);
    Square(8, 256);
    Square(16, 0x1_0000);
    Square(32, 0x1_0000_0000);
  }

  lemma Square(k: nat, n: nat)
    requires Pow2(k) == n
    ensures Pow2(2 * k) == n * n
  {
    Pow2Add(k, k);
  }

  lemma {:induction false} Pow2Add(a: nat, b: nat)
    ensures Pow2(a + b) == Pow2(a) * Pow2(b)
  {
    if a > 0 {
      Pow2Add(a - 1, b);
      assert Pow2(a + b) == 2 * Pow2(a - 1 + b);
    }
  }
}

module Hashing {
  import opened Bytes
  import Bits

  const OFFSET_64: u64 := 14695981039346656037
  const PRIME_64 := 1099511628211

  function Xor64(a: u64, b: u64): u64 {
    Bits.Pow2Of64();
    Bits.XorBound(a, b, 64);
    Bits.Xor(a, b)
  }

  function FnvFrom(h: u64, b: bytes): u64
    decreases |b|
  {
    if b == [] then h
    else FnvFrom((Xor64(h, b[0]) * PRIME_64) % TWO_64, b[1..])
  }

  function FNV1a64(b: bytes): u64 {
    FnvFrom(OFFSET_64, b)
  }

  /** The truncation uint32(h64). */
  function Low32(h64: u64): u32 {
    h64 % TWO_32
  }

  /** Hash values 0 and 1 mark empty and deleted buckets; move them out of the way. */
  function HashReMap(h: u32): (r: u32)
    ensures r >= 2
    ensures h >= 2 ==> r == h
  {
    if h < 2 then h + 2 else h
  }

  /** The 32-bit hash under which a key is stored in the index. */
  function IndexHash(key: bytes): (h: u32)
    ensures h >= 2
  {
    HashReMap(Low32(FNV1a64(key)))
  }

  /** Keys whose truncated hash is not moved by `HashReMap`. */
  predicate PlainKey(key: bytes) {
    Low32(FNV1a64(key)) >= 2
  }
}
