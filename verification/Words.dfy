/** Machine words as naturals. Shifts move one bit at a time and `|` is computed bit by bit, so every
    fact below is linear; a short bit string is held left-aligned in a 16-bit word. */
module Words {

  type byte = b: int | 0 <= b < 0x100

  /** Right shift of an unsigned word. */
  function Shr(w: nat, n: nat): (r: nat)
    ensures r <= w
  {
    if n == 0 then w else Shr(w / 2, n - 1)
  }

  /** Left shift of an unsigned word, before truncation. */
  function Shl(w: nat, n: nat): nat
    decreases n, w
  {
    if n == 0 then w else Shl(2 * w, n - 1)
  }

  /** Bitwise or of two unsigned words. */
  function Or(a: nat, b: nat): nat
    decreases a + b
  {
    if a == 0 then b
    else if b == 0 then a
    else 2 * Or(a / 2, b / 2) + (if a % 2 == 1 || b % 2 == 1 then 1 else 0)
  }

  /** The low k bits of w are zero. */
  predicate LowZero(w: nat, k: nat) {
    k == 0 || (w % 2 == 0 && LowZero(w / 2, k - 1))
  }

  lemma OrHalves(a: nat, b: nat)
    ensures Or(a, b) / 2 == Or(a / 2, b / 2)
    ensures Or(a, b) % 2 == if a % 2 == 1 || b % 2 == 1 then 1 else 0
  {
  }

  /** Or of words with no common bit is addition. */
  lemma {:induction false} OrDisjoint(a: nat, b: nat, k: nat)
    requires LowZero(a, k) && Shr(b, k) == 0
    ensures Or(a, b) == a + b
    decreases k
  {
    if k > 0 {
      OrDisjoint(a / 2, b / 2, k - 1);
      OrHalves(a, b);
    }
  }

  lemma {:induction false} ShrHalf(w: nat, n: nat)
    ensures Shr(w, n) / 2 == Shr(w, n + 1)
    decreases n
  {
    if n > 0 {
      ShrHalf(w / 2, n - 1);
    }
  }

  lemma {:induction false} ShrShr(w: nat, a: nat, b: nat)
    ensures Shr(Shr(w, a), b) == Shr(w, a + b)
    decreases a
  {
    if a > 0 {
      ShrShr(w / 2, a - 1, b);
    }
  }

  lemma {:induction false} ShrAdd(x: nat, y: nat, k: nat)
    requires LowZero(x, k)
    ensures Shr(x + y, k) == Shr(x, k) + Shr(y, k)
    decreases k
  {
    if k > 0 {
      ShrAdd(x / 2, y / 2, k - 1);
      assert (x + y) / 2 == x / 2 + y / 2;
    }
  }

  lemma ShrBytes(w: nat)
    requires w < 0x1_0000
    ensures Shr(w, 8) == w / 0x100 && Shr(w, 16) == 0
  {
    ShrFour(w);
    ShrFour(w / 16);
    ShrFour(w / 0x100);
    ShrFour(w / 0x1000);
    ShrShr(w, 4, 4);
    ShrShr(w, 8, 4);
    ShrShr(w, 12, 4);
  }

  lemma ShrFour(w: nat)
    ensures Shr(w, 4) == w / 16
  {
    assert Shr(w, 4) == Shr(w / 2, 3) == Shr(w / 2 / 2, 2) == Shr(w / 2 / 2 / 2, 1) == Shr(w / 2 / 2 / 2 / 2, 0);
  }

  lemma {:induction false} LowZeroAdd(x: nat, y: nat, k: nat)
    requires LowZero(x, k)
    ensures LowZero(x + y, k) == LowZero(y, k)
    decreases k
  {
    if k > 0 {
      LowZeroAdd(x / 2, y / 2, k - 1);
      assert (x + y) / 2 == x / 2 + y / 2;
    }
  }

  lemma {:induction false} LowZeroLess(w: nat, k: nat, j: nat)
    requires LowZero(w, k) && j <= k
    ensures LowZero(w, j)
    decreases k
  {
    if j > 0 {
      LowZeroLess(w / 2, k - 1, j - 1);
    }
  }

  lemma TopBitLowZero(k: nat)
    requires k <= 15
    ensures LowZero(0x8000, k) && LowZero(0, k)
  {
    assert LowZero(0x8, 3);
    assert LowZero(0x80, 7);
    assert LowZero(0x800, 11);
    assert LowZero(0x8000, 15);
    LowZeroLess(0x8000, 15, k);
    assert LowZero(0, 15) by { assert LowZero(0, 4); assert LowZero(0, 8); assert LowZero(0, 12); }
    LowZeroLess(0, 15, k);
  }

  /** The low k bits of a word. */
  function Low(w: nat, k: nat): nat {
    if k == 0 then 0 else 2 * Low(w / 2, k - 1) + w % 2
  }

  lemma {:induction false} OrLow(a: nat, b: nat, k: nat)
    ensures Low(Or(a, b), k) == Or(Low(a, k), Low(b, k))
    decreases k
  {
    if k > 0 {
      OrLow(a / 2, b / 2, k - 1);
      OrHalves(a, b);
      OrHalves(Low(a, k), Low(b, k));
    }
  }

  lemma {:induction false} ShlDouble(w: nat, n: nat)
    ensures Shl(2 * w, n) == 2 * Shl(w, n)
    decreases n
  {
    if n > 0 {
      ShlDouble(2 * w, n - 1);
    }
  }

  lemma {:induction false} LowHigh(w: nat, k: nat)
    ensures w == Low(w, k) + Shl(Shr(w, k), k)
    ensures Low(w, k) < Shl(1, k)
    decreases k
  {
    if k > 0 {
      LowHigh(w / 2, k - 1);
      ShlDouble(Shr(w, k), k - 1);
      ShlDouble(1, k - 1);
    }
  }

  lemma {:induction false} ShlStep(w: nat, n: nat)
    ensures Shl(w, n + 1) == 2 * Shl(w, n)
  {
    ShlDouble(w, n);
  }

  /** Shifting left by k + n and back right by n. */
  lemma {:induction false} ShlShr(w: nat, k: nat, n: nat)
    ensures Shr(Shl(w, k + n), n) == Shl(w, k)
    decreases n
  {
    if n > 0 {
      ShlStep(w, k + n - 1);
      ShlShr(w, k, n - 1);
    }
  }

  lemma ShlFour(w: nat, n: nat)
    ensures Shl(w, n + 4) == Shl(16 * w, n)
  {
    assert Shl(w, n + 4) == Shl(2 * w, n + 3) == Shl(4 * w, n + 2) == Shl(8 * w, n + 1) == Shl(16 * w, n);
  }

  lemma ShlWord(w: nat)
    ensures Shl(w, 16) == 0x1_0000 * w
  {
    ShlFour(w, 12);
    ShlFour(16 * w, 8);
    ShlFour(0x100 * w, 4);
    ShlFour(0x1000 * w, 0);
  }

  lemma LowWord(w: nat)
    ensures Low(w, 16) == w % 0x1_0000
  {
    LowHigh(w, 16);
    ShlWord(Shr(w, 16));
    ShlWord(1);
    DropMultiple(Low(w, 16), Shr(w, 16));
  }

  lemma {:induction false} LowZeroIsLow(w: nat, k: nat)
    ensures LowZero(w, k) <==> Low(w, k) == 0
    decreases k
  {
    if k > 0 {
      LowZeroIsLow(w / 2, k - 1);
    }
  }

  lemma LowZeroByte(w: nat)
    ensures LowZero(w, 8) <==> w % 0x100 == 0
  {
    LowZeroIsLow(w, 8);
    LowHigh(w, 8);
    ShlByte(Shr(w, 8));
    ShlByte(1);
    DropByteMultiple(Low(w, 8), Shr(w, 8));
  }

  lemma ShlByte(w: nat)
    ensures Shl(w, 8) == 0x100 * w
  {
    ShlFour(w, 4);
    ShlFour(16 * w, 0);
  }

  lemma DropByteMultiple(w: nat, junk: nat)
    requires w < 0x100
    ensures (w + 0x100 * junk) % 0x100 == w
  {
  }

  lemma DropMultiple(w: nat, junk: nat)
    requires w < 0x1_0000
    ensures (w + 0x1_0000 * junk) % 0x1_0000 == w
  {
  }

  /** The low 16 bits of an or depend on the low 16 bits of its operands only. */
  lemma OrWord(a: nat, b: nat)
    requires b < 0x1_0000
    ensures Or(a, b) % 0x1_0000 == Or(a % 0x1_0000, b)
  {
    hide *;
    OrLow(a, b, 16);
    LowWord(Or(a, b));
    LowWord(a);
    LowWord(b);
  }

  /** The 16-bit word that holds the given bits from its top bit down; bits past the sixteenth fall off. */
  function Pack(bits: seq<bool>): (w: nat)
    ensures w < 0x1_0000
  {
    if bits == [] then 0 else (if bits[0] then 0x8000 else 0) + Pack(bits[1..]) / 2
  }

  /** The top n bits of a 16-bit word; past the sixteenth bit there are only zeros. */
  function Top(w: nat, n: nat): (bits: seq<bool>)
    requires w < 0x1_0000
    ensures |bits| == n
    decreases n, w
  {
    if n == 0 then [] else [w >= 0x8000] + Top(Doubled(w), n - 1)
  }

  /** A 16-bit word shifted left by one. */
  function Doubled(w: nat): (d: nat)
    requires w < 0x1_0000
    ensures d < 0x1_0000
  {
    if w >= 0x8000 then 2 * w - 0x1_0000 else 2 * w
  }

  /** Everything from bit k on is zero. */
  ghost predicate ZeroFrom(bits: seq<bool>, k: nat) {
    forall m | k <= m < |bits| :: !bits[m]
  }

  lemma {:induction false} PackAligned(bits: seq<bool>, k: nat)
    requires k <= 16 && ZeroFrom(bits, k)
    ensures LowZero(Pack(bits), 16 - k)
    ensures k == 0 ==> Pack(bits) == 0
    decreases |bits|
  {
    if bits == [] {
      TopBitLowZero(15);
      assert LowZero(0, 16);
      LowZeroLess(0, 16, 16 - k);
    } else if k == 0 {
      PackAligned(bits[1..], 0);
    } else {
      PackAligned(bits[1..], k - 1);
      TopBitLowZero(16 - k);
      LowZeroAdd(if bits[0] then 0x8000 else 0, Pack(bits[1..]) / 2, 16 - k);
    }
  }

  lemma PackTailEven(bits: seq<bool>)
    requires bits != [] && ZeroFrom(bits, 16)
    ensures Pack(bits[1..]) % 2 == 0
  {
    PackAligned(bits[1..], 15);
    assert LowZero(Pack(bits[1..]), 1);
  }

  lemma DoubleMod(x: nat, h: nat, p: nat)
    requires h <= 1 && p % 2 == 0 && p < 0x1_0000
    requires x % 0x1_0000 == 0x8000 * h + p / 2
    ensures 2 * x % 0x1_0000 == p
  {
    var q := x / 0x1_0000;
    assert 2 * x == p + 0x1_0000 * (2 * q + h);
    DropMultiple(p, 2 * q + h);
  }

  /** Shifting a packed word left by n drops its first n bits; what stands above the low 16 bits does not matter. */
  lemma {:induction false} PackShl(bits: seq<bool>, n: nat, x: nat)
    requires n <= |bits| && ZeroFrom(bits, 16) && x % 0x1_0000 == Pack(bits)
    ensures Shl(x, n) % 0x1_0000 == Pack(bits[n..])
    decreases n
  {
    if n == 0 {
      assert bits[0..] == bits;
    } else {
      PackTailEven(bits);
      DoubleMod(x, if bits[0] then 1 else 0, Pack(bits[1..]));
      assert bits[1..][n - 1..] == bits[n..];
      PackShl(bits[1..], n - 1, 2 * x);
    }
  }

  /** Concatenation is addition of the second part shifted right past the first. */
  lemma {:induction false} PackConcat(a: seq<bool>, b: seq<bool>)
    requires |a| <= 16
    ensures Pack(a + b) == Pack(a) + Shr(Pack(b), |a|)
    decreases |a|
  {
    if a == [] {
      assert a + b == b;
    } else {
      PackConcat(a[1..], b);
      assert (a + b)[1..] == a[1..] + b;
      PackTailEven(a);
      ShrHalf(Pack(b), |a| - 1);
    }
  }

  lemma PackPad(bits: seq<bool>, zeros: seq<bool>)
    requires |bits| <= 16 && ZeroFrom(zeros, 0)
    ensures Pack(bits + zeros) == Pack(bits)
  {
    PackConcat(bits, zeros);
    PackAligned(zeros, 0);
  }

  /** Unpacking recovers the packed bits, provided those past the sixteenth are zero. */
  lemma {:induction false} TopPack(bits: seq<bool>)
    requires ZeroFrom(bits, 16)
    ensures Top(Pack(bits), |bits|) == bits
    decreases |bits|
  {
    if bits != [] {
      PackTailEven(bits);
      TopPack(bits[1..]);
      assert Doubled(Pack(bits)) == Pack(bits[1..]);
    }
  }

  lemma ShrStep(h: nat, w: nat, n: nat)
    requires LowZero(h, n)
    ensures Shr(h + w / 2, n) == Shr(h, n) + Shr(w, n + 1)
  {
    ShrAdd(h, w / 2, n);
  }

  /** Bits past the sixteenth leave no trace in the packed word. */
  lemma {:induction false} PackAgree(a: seq<bool>, b: seq<bool>, k: nat)
    requires |a| == |b| && k <= 16
    requires forall m | 0 <= m < k && m < |a| :: a[m] == b[m]
    ensures Shr(Pack(a), 16 - k) == Shr(Pack(b), 16 - k)
    decreases |a|
  {
    hide Pack, Shr, LowZero;
    if k == 0 {
      ShrBytes(Pack(a));
      ShrBytes(Pack(b));
    } else if a != [] {
      PackAgree(a[1..], b[1..], k - 1);
      assert a == [a[0]] + a[1..] && b == [b[0]] + b[1..];
      PackStep(a[0], a[1..]);
      PackStep(b[0], b[1..]);
      TopBitLowZero(16 - k);
      ShrStep(if a[0] then 0x8000 else 0, Pack(a[1..]), 16 - k);
      ShrStep(if a[0] then 0x8000 else 0, Pack(b[1..]), 16 - k);
    }
  }

  lemma {:induction false} TopPrefix(w: nat, k: nat, n: nat)
    requires w < 0x1_0000 && k <= n
    ensures Top(w, n)[..k] == Top(w, k)
    decreases k
  {
    if k > 0 {
      TopPrefix(Doubled(w), k - 1, n - 1);
    }
  }

  /** A word whose bits past the n-th are zero is recovered from its top n bits. */
  lemma {:induction false} PackTop(w: nat, n: nat)
    requires w < 0x1_0000 && (n <= 16 ==> LowZero(w, 16 - n))
    ensures Pack(Top(w, n)) == w
    decreases n
  {
    hide Pack, Top, LowZero;
    if n == 0 {
      WordLowZero(w);
      PackNone();
    } else {
      DoubledLowZero(w, if n <= 16 then 16 - n else 0);
      PackTop(Doubled(w), n - 1);
      PackStep(w >= 0x8000, Top(Doubled(w), n - 1));
    }
    TopStep(w, n);
  }

  lemma PackNone()
    ensures Pack([]) == 0
  {
  }

  lemma PackStep(b: bool, bits: seq<bool>)
    ensures Pack([b] + bits) == (if b then 0x8000 else 0) + Pack(bits) / 2
  {
    assert ([b] + bits)[1..] == bits;
  }

  lemma TopStep(w: nat, n: nat)
    requires w < 0x1_0000
    ensures Top(w, n) == if n == 0 then [] else [w >= 0x8000] + Top(Doubled(w), n - 1)
  {
  }

  /** Doubling a word that ends in k zeros leaves one more. */
  lemma DoubledLowZero(w: nat, k: nat)
    requires w < 0x1_0000 && k <= 15 && (LowZero(w, k) || k == 0)
    ensures LowZero(Doubled(w), k + 1) && LowZero(Doubled(w), 0)
  {
    var h := if w >= 0x8000 then 0x8000 else 0;
    TopBitLowZero(k);
    LowZeroAdd(h, w - h, k);
    LowZeroTwice(w - h, k);
  }

  lemma LowZeroTwice(x: nat, k: nat)
    ensures LowZero(2 * x, k + 1) == LowZero(x, k) && LowZero(2 * x, 0) && LowZero(x, 0)
  {
    assert 2 * x / 2 == x;
  }

  /** There is nothing to unpack past the sixteenth bit. */
  lemma {:induction false} TopZeroFrom(w: nat, n: nat, k: nat)
    requires w < 0x1_0000 && k <= 16 && LowZero(w, k)
    ensures ZeroFrom(Top(w, n), 16 - k)
    decreases n
  {
    if n > 0 {
      if k == 16 {
        WordLowZero(w);
        TopZeroFrom(w, n - 1, 16);
      } else {
        DoubledLowZero(w, k);
        TopZeroFrom(Doubled(w), n - 1, k + 1);
      }
    }
  }

  lemma WordLowZero(w: nat)
    requires w < 0x1_0000 && LowZero(w, 16)
    ensures w == 0
  {
    LowZeroSplit(w, 8, 8);
    LowZeroByte(w);
    ShrBytes(w);
    LowZeroByte(w / 0x100);
  }

  lemma {:induction false} LowZeroSplit(w: nat, a: nat, b: nat)
    ensures LowZero(w, a + b) <==> LowZero(w, a) && LowZero(Shr(w, a), b)
    decreases a
  {
    if a > 0 {
      LowZeroSplit(w / 2, a - 1, b);
    }
  }

  /** The eight bits of a byte, most significant first. */
  function ByteBits(b: nat): (bits: seq<bool>)
    requires b < 0x100
    ensures |bits| == 8
  {
    Top(b * 0x100, 8)
  }

  lemma PackByte(b: nat)
    requires b < 0x100
    ensures Pack(ByteBits(b)) == b * 0x100
  {
    LowZeroByte(b * 0x100);
    PackTop(b * 0x100, 8);
  }

  lemma SplitBytes(w: nat, hi: nat, lo: nat)
    requires hi % 0x100 == 0 && lo < 0x1_0000
    requires w == hi + lo / 0x100
    ensures w / 0x100 == hi / 0x100
    ensures w % 0x100 == lo / 0x100
    ensures (hi / 0x100) * 0x100 == hi
  {
  }

  lemma PackFirstByte(bits: seq<bool>)
    requires |bits| >= 8
    ensures Pack(bits) == Pack(bits[..8]) + Pack(bits[8..]) / 0x100
    ensures Pack(bits[..8]) % 0x100 == 0
  {
    var a, rest := bits[..8], bits[8..];
    assert Pack(a) % 0x100 == 0 by {
      PackAligned(a, 8);
      LowZeroByte(Pack(a));
    }
    assert Shr(Pack(rest), 8) == Pack(rest) / 0x100 by {
      ShrBytes(Pack(rest));
    }
    assert a + rest == bits;
    PackConcat(a, rest);
  }

  /** The high byte of a packed word spells its first eight bits. */
  lemma HighByte(bits: seq<bool>)
    requires |bits| >= 8
    ensures ByteBits(Pack(bits) / 0x100) == bits[..8]
    ensures Pack(bits) % 0x100 == Pack(bits[8..]) / 0x100
  {
    var hi := Pack(bits[..8]);
    PackFirstByte(bits);
    SplitBytes(Pack(bits), hi, Pack(bits[8..]));
    assert Top(hi, 8) == bits[..8] by {
      TopPack(bits[..8]);
    }
  }

  /** The low byte spells the next eight. */
  lemma LowByte(bits: seq<bool>)
    requires |bits| >= 16
    ensures ByteBits(Pack(bits) % 0x100) == bits[8..16]
  {
    HighByte(bits);
    HighByte(bits[8..]);
    assert bits[8..][..8] == bits[8..16];
  }

  /** The bits of a byte string, in order. */
  function BytesBits(bytes: seq<byte>): (bits: seq<bool>)
    ensures |bits| == 8 * |bytes|
  {
    if bytes == [] then [] else BytesBits(bytes[..|bytes| - 1]) + ByteBits(bytes[|bytes| - 1])
  }

  lemma BytesBitsSnoc(bytes: seq<byte>, b: byte)
    ensures BytesBits(bytes + [b]) == BytesBits(bytes) + ByteBits(b)
  {
    assert (bytes + [b])[..|bytes|] == bytes;
  }

  /** Bit q of a byte string that is followed by zeros for ever. */
  function BitAt(bytes: seq<byte>, q: nat): bool {
    q / 8 < |bytes| && ByteBits(bytes[q / 8])[q % 8]
  }

  lemma {:induction false} BitAtBytesBits(bytes: seq<byte>, q: nat)
    requires q < 8 * |bytes|
    ensures BitAt(bytes, q) == BytesBits(bytes)[q]
    decreases |bytes|
  {
    var init := bytes[..|bytes| - 1];
    if q < 8 * |init| {
      BitAtBytesBits(init, q);
      assert BytesBits(bytes)[q] == BytesBits(init)[q];
    } else {
      assert q / 8 == |init| && q % 8 == q - 8 * |init|;
    }
  }
}
