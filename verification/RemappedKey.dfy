/**
  A key that hash remapping moves: the seven steps of FNV-1a on "uuniruc", each from the
  bits of the low-order byte and the decimal product.
 */
module RemappedKeys {
  import opened Bytes
  import opened Hashing
  import Bits

  function Bit(b: bool): nat {
    if b then 1 else 0
  }

  lemma XorBit(a: nat, i: bool, b: nat, j: bool)
    ensures Bits.Xor(2 * a + Bit(i), 2 * b + Bit(j)) == 2 * Bits.Xor(a, b) + Bit(i != j)
  {
    var x, y := 2 * a + Bit(i), 2 * b + Bit(j);
    assert x / 2 == a && y / 2 == b;
    assert (x + y) % 2 == Bit(i != j);
  }

  /** `q` followed by some bits, lowest first. */
  function Horner(q: nat, bits: seq<bool>): nat {
    if bits == [] then q else 2 * Horner(q, bits[1..]) + Bit(bits[0])
  }

  function Differ(l: seq<bool>, m: seq<bool>): (r: seq<bool>)
    requires |l| == |m|
    ensures |r| == |l| && forall i :: 0 <= i < |r| ==> r[i] == (l[i] != m[i])
  {
    if l == [] then [] else [l[0] != m[0]] + Differ(l[1..], m[1..])
  }

  /** Exclusive or with a short word only touches the low-order bits. */
  lemma {:induction false} XorLow(q: nat, l: seq<bool>, m: seq<bool>)
    requires |l| == |m|
    ensures Bits.Xor(Horner(q, l), Horner(0, m)) == Horner(q, Differ(l, m))
  {
    if l == [] {
      assert Bits.Xor(q, 0) == q;
    } else {
      XorLow(q, l[1..], m[1..]);
      XorBit(Horner(q, l[1..]), l[0], Horner(0, m[1..]), m[0]);
      assert Differ(l, m)[1..] == Differ(l[1..], m[1..]);
    }
  }

  lemma HornerFour(q: nat, l: seq<bool>)
    requires |l| >= 4
    ensures Horner(q, l) == 16 * Horner(q, l[4..]) + 8 * Bit(l[3]) + 4 * Bit(l[2]) + 2 * Bit(l[1]) + Bit(l[0])
  {
    var a, b, c := l[1..], l[2..], l[3..];
    assert a[1..] == b && b[1..] == c && c[1..] == l[4..];
    assert Horner(q, l) == 2 * Horner(q, a) + Bit(l[0]) && Horner(q, a) == 2 * Horner(q, b) + Bit(l[1]);
    assert Horner(q, b) == 2 * Horner(q, c) + Bit(l[2]) && Horner(q, c) == 2 * Horner(q, l[4..]) + Bit(l[3]);
  }

  /** The number that 8 bits stand for, lowest first. */
  function ByteOf(l: seq<bool>): nat
    requires |l| == 8
  {
    Bit(l[0]) + 2 * Bit(l[1]) + 4 * Bit(l[2]) + 8 * Bit(l[3])
    + 16 * Bit(l[4]) + 32 * Bit(l[5]) + 64 * Bit(l[6]) + 128 * Bit(l[7])
  }

  lemma HornerEight(q: nat, l: seq<bool>)
    requires |l| == 8
    ensures Horner(q, l) == 256 * q + ByteOf(l)
  {
    HornerFour(q, l);
    HornerFour(q, l[4..]);
    assert l[4..][4..] == [];
  }

  function FnvStep(h: u64, b: byte): u64 {
    (Xor64(h, b) * PRIME_64) % TWO_64
  }

  lemma XorState(h: u64, b: byte, q: nat, l: seq<bool>, m: seq<bool>)
    requires |l| == |m| == 8 && h == 256 * q + ByteOf(l) && b == ByteOf(m)
    ensures Xor64(h, b) == 256 * q + ByteOf(Differ(l, m))
  {
    XorLow(q, l, m);
    HornerEight(q, l);
    HornerEight(0, m);
    HornerEight(q, Differ(l, m));
  }

  /** One step of the hash, from the bits of the low byte and the product. */
  lemma StepFrom(h: u64, b: byte, q: nat, l: seq<bool>, m: seq<bool>, c: nat, next: u64)
    requires |l| == |m| == 8 && h == 256 * q + ByteOf(l) && b == ByteOf(m)
    requires (256 * q + ByteOf(Differ(l, m))) * PRIME_64 == c * TWO_64 + next
    ensures FnvStep(h, b) == next
  {
    XorState(h, b, q, l, m);
    Remainder(Xor64(h, b) * PRIME_64, c, next);
  }

  lemma Remainder(n: nat, c: nat, r: u64)
    requires n == c * TWO_64 + r
    ensures n % TWO_64 == r
  {
  }

  lemma StepOne(h: u64)
    requires h == 14695981039346656037
    ensures FnvStep(h, 117) == 12638200394695180528
  {
    var l := [true, false, true, false, false, true, false, false];
    var m := [true, false, true, false, true, true, true, false];
    assert ByteOf(Differ(l, m)) == 80;
    StepFrom(h, 117, 57406175934947875, l, m, 875948729822, 12638200394695180528);
  }

  lemma StepTwo(h: u64)
    requires h == 12638200394695180528
    ensures FnvStep(h, 117) == 631699150079451647
  {
    var l := [false, false, false, false, true, true, true, true];
    var m := [true, false, true, false, true, true, true, false];
    assert ByteOf(Differ(l, m)) == 133;
    StepFrom(h, 117, 49367970291778048, l, m, 753295445424, 631699150079451647);
  }

  lemma StepThree(h: u64)
    requires h == 631699150079451647
    ensures FnvStep(h, 110) == 5501335069732718947
  {
    var l := [true, true, true, true, true, true, true, true];
    var m := [false, true, true, true, false, true, true, false];
    assert ByteOf(Differ(l, m)) == 145;
    StepFrom(h, 110, 2467574804997857, l, m, 37652203460, 5501335069732718947);
  }

  lemma StepFour(h: u64)
    requires h == 5501335069732718947
    ensures FnvStep(h, 105) == 10084621573834087422
  {
    var l := [true, true, false, false, false, true, true, false];
    var m := [true, false, false, true, false, true, true, false];
    assert ByteOf(Differ(l, m)) == 10;
    StepFrom(h, 105, 21489590116143433, l, m, 327905122751, 10084621573834087422);
  }

  lemma StepFive(h: u64)
    requires h == 10084621573834087422
    ensures FnvStep(h, 114) == 7950206282984312548
  {
    var l := [false, true, true, true, true, true, true, true];
    var m := [false, true, false, false, true, true, true, false];
    assert ByteOf(Differ(l, m)) == 140;
    StepFrom(h, 114, 39393053022789403, l, m, 601090286840, 7950206282984312548);
  }

  lemma StepSix(h: u64)
    requires h == 7950206282984312548
    ensures FnvStep(h, 117) == 15413975646329634915
  {
    var l := [false, false, true, false, false, true, true, true];
    var m := [true, false, true, false, true, true, true, false];
    assert ByteOf(Differ(l, m)) == 145;
    StepFrom(h, 117, 31055493292907470, l, m, 473869221575, 15413975646329634915);
  }

  lemma StepSeven(h: u64)
    requires h == 15413975646329634915
    ensures FnvStep(h, 99) == 8911307396823908352
  {
    var l := [true, true, false, false, false, true, true, false];
    var m := [true, true, false, false, false, true, true, false];
    assert ByteOf(Differ(l, m)) == 0;
    StepFrom(h, 99, 60210842368475136, l, m, 918744543339, 8911307396823908352);
  }

  lemma FnvCons(h: u64, b: byte, s: bytes)
    requires |s| > 0 && s[0] == b
    ensures FnvFrom(h, s) == FnvFrom(FnvStep(h, b), s[1..])
  {
  }

  lemma FnvThree(h: u64, s: bytes)
    requires |s| >= 3
    ensures FnvFrom(h, s) == FnvFrom(FnvStep(FnvStep(FnvStep(h, s[0]), s[1]), s[2]), s[3..])
  {
    FnvCons(h, s[0], s);
    FnvCons(FnvStep(h, s[0]), s[1], s[1..]);
    FnvCons(FnvStep(FnvStep(h, s[0]), s[1]), s[2], s[1..][1..]);
    assert s[1..][1..][1..] == s[3..];
  }

  /** The bytes of "uuniruc" hash to a word whose low half is 0. */
  lemma RemappedHash(key: bytes)
    requires |key| == 7 && key[0] == 117 && key[1] == 117 && key[2] == 110 && key[3] == 105
    requires key[4] == 114 && key[5] == 117 && key[6] == 99
    ensures Low32(FNV1a64(key)) == 0 && !PlainKey(key) && IndexHash(key) == 2
  {
    var h0, t := OFFSET_64, key[3..];
    FnvThree(h0, key);
    StepOne(h0);
    var h1 := FnvStep(h0, 117);
    StepTwo(h1);
    var h2 := FnvStep(h1, 117);
    StepThree(h2);
    var h3 := FnvStep(h2, 110);
    FnvThree(h3, t);
    StepFour(h3);
    var h4 := FnvStep(h3, 105);
    StepFive(h4);
    var h5 := FnvStep(h4, 114);
    StepSix(h5);
    var h6 := FnvStep(h5, 117);
    StepSeven(h6);
    FnvCons(h6, 99, t[3..]);
    assert t[3..][1..] == [];
  }

  // ------------------------------------------- keys around deleted buckets

  lemma SlotOneFirst(h: u64)
    requires h == 14695981039346656037
    ensures FnvStep(h, 52) == 12638131125462603235
  {
    var l := [true, false, true, false, false, true, false, false];
    var m := [false, false, true, false, true, true, false, false];
    assert ByteOf(Differ(l, m)) == 17;
    StepFrom(h, 52, 57406175934947875, l, m, 875948729822, 12638131125462603235);
  }

  lemma SlotOneSecond(h: u64)
    requires h == 12638131125462603235
    ensures FnvStep(h, 152) == 571438216284012545
  {
    var l := [true, true, false, false, false, true, true, true];
    var m := [false, false, false, true, true, false, false, true];
    assert ByteOf(Differ(l, m)) == 123;
    StepFrom(h, 152, 49367699708838293, l, m, 753291316656, 571438216284012545);
  }

  lemma SlotTwoFirst(h: u64)
    requires h == 14695981039346656037
    ensures FnvStep(h, 218) == 12638392809230117453
  {
    var l := [true, false, true, false, false, true, false, false];
    var m := [false, true, false, true, true, false, true, true];
    assert ByteOf(Differ(l, m)) == 255;
    StepFrom(h, 218, 57406175934947875, l, m, 875948729822, 12638392809230117453);
  }

  lemma SlotTwoSecond(h: u64)
    requires h == 12638392809230117453
    ensures FnvStep(h, 187) == 799403260650848258
  {
    var l := [true, false, true, true, false, false, true, false];
    var m := [true, true, false, true, true, true, false, true];
    assert ByteOf(Differ(l, m)) == 246;
    StepFrom(h, 187, 49368721911055146, l, m, 753306914224, 799403260650848258);
  }

  lemma GhostFirst(h: u64)
    requires h == 14695981039346656037
    ensures FnvStep(h, 66) == 12638225683462629381
  {
    var l := [true, false, true, false, false, true, false, false];
    var m := [false, true, false, false, false, false, true, false];
    assert ByteOf(Differ(l, m)) == 103;
    StepFrom(h, 66, 57406175934947875, l, m, 875948729822, 12638225683462629381);
  }

  lemma GhostSecond(h: u64)
    requires h == 12638225683462629381
    ensures FnvStep(h, 8) == 653826821592845847
  {
    var l := [true, false, true, false, false, false, false, false];
    var m := [false, false, false, true, false, false, false, false];
    assert ByteOf(Differ(l, m)) == 13;
    StepFrom(h, 8, 49368069076025896, l, m, 753296952752, 653826821592845847);
  }

  lemma GhostThird(h: u64)
    requires h == 653826821592845847
    ensures FnvStep(h, 111) == 1520625791052191208
  {
    var l := [true, true, true, false, true, false, false, false];
    var m := [true, true, true, true, false, true, true, false];
    assert ByteOf(Differ(l, m)) == 120;
    StepFrom(h, 111, 2554011021847054, l, m, 38971115461, 1520625791052191208);
  }

  lemma GhostFourth(h: u64)
    requires h == 1520625791052191208
    ensures FnvStep(h, 147) == 15157675598949646337
  {
    var l := [false, false, false, true, false, true, true, true];
    var m := [true, true, false, false, true, false, false, true];
    assert ByteOf(Differ(l, m)) == 123;
    StepFrom(h, 147, 5939944496297621, l, m, 90636360147, 15157675598949646337);
  }

  lemma FnvTwo(h: u64, s: bytes)
    requires |s| >= 2
    ensures FnvFrom(h, s) == FnvFrom(FnvStep(FnvStep(h, s[0]), s[1]), s[2..])
  {
    FnvCons(h, s[0], s);
    FnvCons(FnvStep(h, s[0]), s[1], s[1..]);
    assert s[1..][1..] == s[2..];
  }

  lemma HashTwo(s: bytes, h2: u64)
    requires |s| == 2 && FnvStep(FnvStep(OFFSET_64, s[0]), s[1]) == h2
    ensures FNV1a64(s) == h2
  {
    FnvTwo(OFFSET_64, s);
    assert s[2..] == [];
  }

  lemma SlotOneHash(a: bytes)
    requires |a| == 2 && a[0] == 52 && a[1] == 152
    ensures FNV1a64(a) == 571438216284012545
  {
    var h := OFFSET_64;
    SlotOneFirst(h);
    SlotOneSecond(FnvStep(h, 52));
    HashTwo(a, 571438216284012545);
  }

  lemma SlotTwoHash(b: bytes)
    requires |b| == 2 && b[0] == 218 && b[1] == 187
    ensures FNV1a64(b) == 799403260650848258
  {
    var h := OFFSET_64;
    SlotTwoFirst(h);
    SlotTwoSecond(FnvStep(h, 218));
    HashTwo(b, 799403260650848258);
  }

  lemma SlotOf(h64: u64, q: nat, slot: nat)
    requires h64 == 65536 * q + slot && 2 <= Low32(h64) && slot < 65536
    ensures HashReMap(Low32(h64)) % 65536 == slot
  {
  }

  /** Two keys whose home in a new table are slots 1 and 2. */
  lemma SlotHashes(a: bytes, b: bytes)
    requires |a| == |b| == 2 && a[0] == 52 && a[1] == 152 && b[0] == 218 && b[1] == 187
    ensures IndexHash(a) % 65536 == 1 && IndexHash(b) % 65536 == 2
  {
    SlotOneHash(a);
    SlotTwoHash(b);
    SlotOf(571438216284012545, 8719455204529, 1);
    SlotOf(799403260650848258, 12197925730146, 2);
  }

  /** A key whose hash is the mark of deleted buckets. */
  lemma GhostHash(key: bytes)
    requires |key| == 4 && key[0] == 66 && key[1] == 8 && key[2] == 111 && key[3] == 147
    ensures Low32(FNV1a64(key)) == 1 && IndexHash(key) == 3
  {
    var h := OFFSET_64;
    FnvTwo(h, key);
    GhostFirst(h);
    var h1 := FnvStep(h, 66);
    GhostSecond(h1);
    var h2 := FnvStep(h1, 8);
    FnvTwo(h2, key[2..]);
    GhostThird(h2);
    var h3 := FnvStep(h2, 111);
    GhostFourth(h3);
    assert key[2..][2..] == [];
  }
}
