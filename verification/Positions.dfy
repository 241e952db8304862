/** The position codes of encode/lzh.c: the four tables, lzh_encode_position and lzh_decode_position. */
module Positions {
  import opened Words
  import opened BitChannel
  import opened HuffmanCode

  // The tables, eight entries to a row.

  const P_LEN: seq<seq<int>> := [
    [0x03, 0x04, 0x04, 0x04, 0x05, 0x05, 0x05, 0x05],
    [0x05, 0x05, 0x05, 0x05, 0x06, 0x06, 0x06, 0x06],
    [0x06, 0x06, 0x06, 0x06, 0x06, 0x06, 0x06, 0x06],
    [0x07, 0x07, 0x07, 0x07, 0x07, 0x07, 0x07, 0x07],
    [0x07, 0x07, 0x07, 0x07, 0x07, 0x07, 0x07, 0x07],
    [0x07, 0x07, 0x07, 0x07, 0x07, 0x07, 0x07, 0x07],
    [0x08, 0x08, 0x08, 0x08, 0x08, 0x08, 0x08, 0x08],
    [0x08, 0x08, 0x08, 0x08, 0x08, 0x08, 0x08, 0x08]
  ]

  const P_CODE: seq<seq<int>> := [
    [0x00, 0x20, 0x30, 0x40, 0x50, 0x58, 0x60, 0x68],
    [0x70, 0x78, 0x80, 0x88, 0x90, 0x94, 0x98, 0x9C],
    [0xA0, 0xA4, 0xA8, 0xAC, 0xB0, 0xB4, 0xB8, 0xBC],
    [0xC0, 0xC2, 0xC4, 0xC6, 0xC8, 0xCA, 0xCC, 0xCE],
    [0xD0, 0xD2, 0xD4, 0xD6, 0xD8, 0xDA, 0xDC, 0xDE],
    [0xE0, 0xE2, 0xE4, 0xE6, 0xE8, 0xEA, 0xEC, 0xEE],
    [0xF0, 0xF1, 0xF2, 0xF3, 0xF4, 0xF5, 0xF6, 0xF7],
    [0xF8, 0xF9, 0xFA, 0xFB, 0xFC, 0xFD, 0xFE, 0xFF]
  ]

  const D_CODE: seq<seq<int>> := [
    [0x00, 0x00, 0x00, 0x00, 0x00, 0x00, 0x00, 0x00],
    [0x00, 0x00, 0x00, 0x00, 0x00, 0x00, 0x00, 0x00],
    [0x00, 0x00, 0x00, 0x00, 0x00, 0x00, 0x00, 0x00],
    [0x00, 0x00, 0x00, 0x00, 0x00, 0x00, 0x00, 0x00],
    [0x01, 0x01, 0x01, 0x01, 0x01, 0x01, 0x01, 0x01],
    [0x01, 0x01, 0x01, 0x01, 0x01, 0x01, 0x01, 0x01],
    [0x02, 0x02, 0x02, 0x02, 0x02, 0x02, 0x02, 0x02],
    [0x02, 0x02, 0x02, 0x02, 0x02, 0x02, 0x02, 0x02],
    [0x03, 0x03, 0x03, 0x03, 0x03, 0x03, 0x03, 0x03],
    [0x03, 0x03, 0x03, 0x03, 0x03, 0x03, 0x03, 0x03],
    [0x04, 0x04, 0x04, 0x04, 0x04, 0x04, 0x04, 0x04],
    [0x05, 0x05, 0x05, 0x05, 0x05, 0x05, 0x05, 0x05],
    [0x06, 0x06, 0x06, 0x06, 0x06, 0x06, 0x06, 0x06],
    [0x07, 0x07, 0x07, 0x07, 0x07, 0x07, 0x07, 0x07],
    [0x08, 0x08, 0x08, 0x08, 0x08, 0x08, 0x08, 0x08],
    [0x09, 0x09, 0x09, 0x09, 0x09, 0x09, 0x09, 0x09],
    [0x0A, 0x0A, 0x0A, 0x0A, 0x0A, 0x0A, 0x0A, 0x0A],
    [0x0B, 0x0B, 0x0B, 0x0B, 0x0B, 0x0B, 0x0B, 0x0B],
    [0x0C, 0x0C, 0x0C, 0x0C, 0x0D, 0x0D, 0x0D, 0x0D],
    [0x0E, 0x0E, 0x0E, 0x0E, 0x0F, 0x0F, 0x0F, 0x0F],
    [0x10, 0x10, 0x10, 0x10, 0x11, 0x11, 0x11, 0x11],
    [0x12, 0x12, 0x12, 0x12, 0x13, 0x13, 0x13, 0x13],
    [0x14, 0x14, 0x14, 0x14, 0x15, 0x15, 0x15, 0x15],
    [0x16, 0x16, 0x16, 0x16, 0x17, 0x17, 0x17, 0x17],
    [0x18, 0x18, 0x19, 0x19, 0x1A, 0x1A, 0x1B, 0x1B],
    [0x1C, 0x1C, 0x1D, 0x1D, 0x1E, 0x1E, 0x1F, 0x1F],
    [0x20, 0x20, 0x21, 0x21, 0x22, 0x22, 0x23, 0x23],
    [0x24, 0x24, 0x25, 0x25, 0x26, 0x26, 0x27, 0x27],
    [0x28, 0x28, 0x29, 0x29, 0x2A, 0x2A, 0x2B, 0x2B],
    [0x2C, 0x2C, 0x2D, 0x2D, 0x2E, 0x2E, 0x2F, 0x2F],
    [0x30, 0x31, 0x32, 0x33, 0x34, 0x35, 0x36, 0x37],
    [0x38, 0x39, 0x3A, 0x3B, 0x3C, 0x3D, 0x3E, 0x3F]
  ]

  const D_LEN: seq<seq<int>> := [
    [0x03, 0x03, 0x03, 0x03, 0x03, 0x03, 0x03, 0x03],
    [0x03, 0x03, 0x03, 0x03, 0x03, 0x03, 0x03, 0x03],
    [0x03, 0x03, 0x03, 0x03, 0x03, 0x03, 0x03, 0x03],
    [0x03, 0x03, 0x03, 0x03, 0x03, 0x03, 0x03, 0x03],
    [0x04, 0x04, 0x04, 0x04, 0x04, 0x04, 0x04, 0x04],
    [0x04, 0x04, 0x04, 0x04, 0x04, 0x04, 0x04, 0x04],
    [0x04, 0x04, 0x04, 0x04, 0x04, 0x04, 0x04, 0x04],
    [0x04, 0x04, 0x04, 0x04, 0x04, 0x04, 0x04, 0x04],
    [0x04, 0x04, 0x04, 0x04, 0x04, 0x04, 0x04, 0x04],
    [0x04, 0x04, 0x04, 0x04, 0x04, 0x04, 0x04, 0x04],
    [0x05, 0x05, 0x05, 0x05, 0x05, 0x05, 0x05, 0x05],
    [0x05, 0x05, 0x05, 0x05, 0x05, 0x05, 0x05, 0x05],
    [0x05, 0x05, 0x05, 0x05, 0x05, 0x05, 0x05, 0x05],
    [0x05, 0x05, 0x05, 0x05, 0x05, 0x05, 0x05, 0x05],
    [0x05, 0x05, 0x05, 0x05, 0x05, 0x05, 0x05, 0x05],
    [0x05, 0x05, 0x05, 0x05, 0x05, 0x05, 0x05, 0x05],
    [0x05, 0x05, 0x05, 0x05, 0x05, 0x05, 0x05, 0x05],
    [0x05, 0x05, 0x05, 0x05, 0x05, 0x05, 0x05, 0x05],
    [0x06, 0x06, 0x06, 0x06, 0x06, 0x06, 0x06, 0x06],
    [0x06, 0x06, 0x06, 0x06, 0x06, 0x06, 0x06, 0x06],
    [0x06, 0x06, 0x06, 0x06, 0x06, 0x06, 0x06, 0x06],
    [0x06, 0x06, 0x06, 0x06, 0x06, 0x06, 0x06, 0x06],
    [0x06, 0x06, 0x06, 0x06, 0x06, 0x06, 0x06, 0x06],
    [0x06, 0x06, 0x06, 0x06, 0x06, 0x06, 0x06, 0x06],
    [0x07, 0x07, 0x07, 0x07, 0x07, 0x07, 0x07, 0x07],
    [0x07, 0x07, 0x07, 0x07, 0x07, 0x07, 0x07, 0x07],
    [0x07, 0x07, 0x07, 0x07, 0x07, 0x07, 0x07, 0x07],
    [0x07, 0x07, 0x07, 0x07, 0x07, 0x07, 0x07, 0x07],
    [0x07, 0x07, 0x07, 0x07, 0x07, 0x07, 0x07, 0x07],
    [0x07, 0x07, 0x07, 0x07, 0x07, 0x07, 0x07, 0x07],
    [0x08, 0x08, 0x08, 0x08, 0x08, 0x08, 0x08, 0x08],
    [0x08, 0x08, 0x08, 0x08, 0x08, 0x08, 0x08, 0x08]
  ]

  /** The tables in closed form: the length and the code of the upper six bits u, and the u that a byte stands for. */
  function LenOf(u: int): int {
    if u < 1 then 3 else if u < 4 then 4 else if u < 12 then 5 else if u < 24 then 6 else if u < 48 then 7 else 8
  }

  function CodeOf(u: int): int {
    if u < 1 then 0 else if u < 4 then 0x20 + 16 * (u - 1) else if u < 12 then 0x50 + 8 * (u - 4)
    else if u < 24 then 0x90 + 4 * (u - 12) else if u < 48 then 0xC0 + 2 * (u - 24) else 0xF0 + (u - 48)
  }

  function UpperOf(b: int): int {
    if b < 0x20 then 0 else if b < 0x50 then 1 + (b - 0x20) / 16 else if b < 0x90 then 4 + (b - 0x50) / 8
    else if b < 0xC0 then 12 + (b - 0x90) / 4 else if b < 0xF0 then 24 + (b - 0xC0) / 2 else 48 + (b - 0xF0)
  }

  lemma EncoderTables(i: int, j: int)
    requires 0 <= i < 8 && 0 <= j < 8
    ensures |P_LEN| == |P_CODE| == 8 && |P_LEN[i]| == |P_CODE[i]| == 8
    ensures P_LEN[i][j] == LenOf(8 * i + j) && P_CODE[i][j] == CodeOf(8 * i + j)
  {
    assert forall x | 0 <= x < 8 :: |P_LEN[x]| == |P_CODE[x]| == 8;
    assert forall x, y | 0 <= x < 8 && 0 <= y < 8 :: P_LEN[x][y] == LenOf(8 * x + y);
    assert forall x, y | 0 <= x < 8 && 0 <= y < 8 :: P_CODE[x][y] == CodeOf(8 * x + y);
  }

  lemma FirstRows()
    ensures |D_CODE| == 32 && forall x | 0 <= x < 32 :: |D_CODE[x]| == 8
    ensures forall x, y | 0 <= x < 18 && 0 <= y < 8 :: D_CODE[x][y] == RowCode(x, y)
  {
    assert forall x | 0 <= x < 32 :: |D_CODE[x]| == 8;
  }

  lemma LastRows()
    ensures |D_CODE| == 32 && forall x | 0 <= x < 32 :: |D_CODE[x]| == 8
    ensures forall x, y | 18 <= x < 32 && 0 <= y < 8 :: D_CODE[x][y] == RowCode(x, y)
  {
    assert forall x | 0 <= x < 32 :: |D_CODE[x]| == 8;
  }

  lemma DecoderCodes()
    ensures |D_CODE| == 32
    ensures forall x, y | 0 <= x < 32 && 0 <= y < 8 :: |D_CODE[x]| == 8 && D_CODE[x][y] == RowCode(x, y)
  {
    hide D_CODE, RowCode;
    FirstRows();
    LastRows();
  }

  function RowCode(x: int, y: int): int {
    if x < 4 then 0 else if x < 10 then 1 + (x - 4) / 2 else if x < 18 then x - 6
    else if x < 24 then 2 * x - 24 + y / 4 else if x < 30 then 4 * x - 72 + y / 2 else 8 * x - 192 + y
  }

  lemma RowUpper(x: int, y: int)
    requires 0 <= x < 32 && 0 <= y < 8
    ensures RowCode(x, y) == UpperOf(8 * x + y)
  {
  }

  lemma DecoderLengths()
    ensures |D_LEN| == 32
    ensures forall x, y | 0 <= x < 32 && 0 <= y < 8 :: |D_LEN[x]| == 8 && D_LEN[x][y] == LenOf(UpperOf(8 * x + y))
  {
    assert forall b | 0 <= b < 256 :: LenOf(UpperOf(b)) == RowLength(b / 8);
    assert forall x | 0 <= x < 32 :: |D_LEN[x]| == 8;
    assert forall x, y | 0 <= x < 32 && 0 <= y < 8 :: D_LEN[x][y] == RowLength(x);
  }

  function RowLength(x: int): int {
    if x < 4 then 3 else if x < 10 then 4 else if x < 18 then 5 else if x < 24 then 6 else if x < 30 then 7 else 8
  }

  // The table look-ups of the code.

  function PLen(u: int): (n: int)
    requires 0 <= u < 64
    ensures n == LenOf(u)
  {
    EncoderTables(u / 8, u % 8);
    P_LEN[u / 8][u % 8]
  }

  function PCode(u: int): (c: int)
    requires 0 <= u < 64
    ensures c == CodeOf(u)
  {
    EncoderTables(u / 8, u % 8);
    P_CODE[u / 8][u % 8]
  }

  function DCode(b: int): (u: int)
    requires 0 <= b < 0x100
    ensures u == UpperOf(b)
  {
    DecoderCodes();
    RowUpper(b / 8, b % 8);
    D_CODE[b / 8][b % 8]
  }

  function DLen(b: int): (n: int)
    requires 0 <= b < 0x100
    ensures n == LenOf(UpperOf(b))
  {
    DecoderLengths();
    D_LEN[b / 8][b % 8]
  }

  /** A byte whose first bits are the code of u stands for u. */
  lemma PrefixFree(u: int, b: int)
    requires 0 <= u < 64 && 0 <= b < 0x100
    requires Shr(b, 8 - LenOf(u)) == Shr(CodeOf(u), 8 - LenOf(u))
    ensures UpperOf(b) == u
  {
    ShrSmall(b, 8 - LenOf(u));
    ShrSmall(CodeOf(u), 8 - LenOf(u));
  }

  lemma ShrSmall(w: nat, k: nat)
    requires k <= 5
    ensures Shr(w, k) == w / (if k == 0 then 1 else if k == 1 then 2 else if k == 2 then 4 else if k == 3 then 8
      else if k == 4 then 16 else 32)
  {
    if k >= 4 {
      ShrFour(w);
      ShrHalf(w, 4);
    } else {
      assert Shr(w, 1) == Shr(w / 2, 0);
      assert Shr(w, 2) == Shr(w / 2, 1) == Shr(w / 2 / 2, 0);
      assert Shr(w, 3) == Shr(w / 2, 2) == Shr(w / 2 / 2, 1) == Shr(w / 2 / 2 / 2, 0);
    }
  }

  // ---- the code is the ordered one with so many codes of each length

  /** The bytes that begin with a code of n bits. */
  function Share(n: nat): nat
    requires n <= 8
  {
    Shl(1, 8 - n)
  }

  lemma Shares()
    ensures Share(3) == 32 && Share(4) == 16 && Share(5) == 8 && Share(6) == 4 && Share(7) == 2 && Share(8) == 1
  {
    assert Shl(1, 1) == Shl(2, 0) && Shl(1, 2) == Shl(2, 1) && Shl(2, 1) == Shl(4, 0);
    assert Shl(1, 3) == Shl(2, 2) && Shl(2, 2) == Shl(4, 1) && Shl(4, 1) == Shl(8, 0);
    ShlFour(1, 0);
    ShlFour(1, 1);
    assert Shl(16, 1) == Shl(32, 0);
  }

  /** The codes of u and of what follows it lie side by side, from 0 on and up to the last byte, and no later one is
      shorter. */
  lemma CodesOrdered(u: int)
    requires 0 <= u < 64
    ensures u == 0 ==> PCode(u) == 0
    ensures 3 <= PLen(u) <= 8
    ensures PCode(u) + Share(PLen(u)) == if u < 63 then PCode(u + 1) else 0x100
    ensures u < 63 ==> PLen(u) <= PLen(u + 1)
  {
    hide Shl;
    Shares();
  }

  /** The upper parts among the first k that have a code of n bits. */
  function CodesOfLength(n: int, k: nat): nat
    requires k <= 64
  {
    if k == 0 then 0 else CodesOfLength(n, k - 1) + if PLen(k - 1) == n then 1 else 0
  }

  lemma CodeCounts()
    ensures CodesOfLength(3, 64) == 1 && CodesOfLength(4, 64) == 3 && CodesOfLength(5, 64) == 8
    ensures CodesOfLength(6, 64) == 12 && CodesOfLength(7, 64) == 24 && CodesOfLength(8, 64) == 16
  {
    CountBetween(3, 0, 1, 64);
    CountBetween(4, 1, 4, 64);
    CountBetween(5, 4, 12, 64);
    CountBetween(6, 12, 24, 64);
    CountBetween(7, 24, 48, 64);
    CountBetween(8, 48, 64, 64);
  }

  lemma {:induction false} CountBetween(n: int, lo: nat, hi: nat, k: nat)
    requires k <= 64 && lo <= hi && forall u | 0 <= u < 64 :: PLen(u) == n <==> lo <= u < hi
    ensures CodesOfLength(n, k) == if k <= lo then 0 else if k <= hi then k - lo else hi - lo
  {
    if k > 0 {
      CountBetween(n, lo, hi, k - 1);
    }
  }

  /** The decoder maps exactly the bytes from the code of u up to the next to u, and knows how long it is. */
  lemma BytesOrdered(b: int, u: int)
    requires 0 <= b < 0x100 && 0 <= u < 64
    ensures 0 <= DCode(b) < 64 && DLen(b) == PLen(DCode(b))
    ensures DCode(b) == u <==> PCode(u) <= b < PCode(u) + Share(PLen(u))
    ensures b < 0xFF ==> DCode(b) <= DCode(b + 1)
  {
    hide Shl, Share, UpperOf, LenOf, CodeOf;
    UpperRange(b);
    CodeSpans(u, b);
    if b < 0xFF { UpperRises(b); }
  }

  lemma CodeSpans(u: int, b: int)
    requires 0 <= u < 64 && 0 <= b < 0x100
    ensures 3 <= LenOf(u) <= 8
    ensures UpperOf(b) == u <==> CodeOf(u) <= b < CodeOf(u) + Share(LenOf(u))
  {
    hide Shl, Share;
    Shares();
  }

  lemma UpperRises(b: int)
    requires 0 <= b < 0xFF
    ensures UpperOf(b) <= UpperOf(b + 1)
  {
  }

  // ---- reading a number bit by bit

  /** i = (i << 1) + bit, for each bit. */
  function ShiftIn(i: nat, bits: seq<bool>): nat
    decreases |bits|
  {
    if bits == [] then i else ShiftIn(2 * i + (if bits[0] then 1 else 0), bits[1..])
  }

  lemma {:induction false} ShlAdd(a: nat, b: nat, n: nat)
    ensures Shl(a + b, n) == Shl(a, n) + Shl(b, n)
    decreases n
  {
    if n > 0 {
      ShlAdd(2 * a, 2 * b, n - 1);
      assert 2 * (a + b) == 2 * a + 2 * b;
    }
  }

  /** Shifting in the top n bits of a word. */
  lemma {:induction false} ShiftInTop(i: nat, w: nat, n: nat)
    requires w < 0x1_0000 && n <= 16
    ensures ShiftIn(i, Top(w, n)) == Shl(i, n) + Shr(w, 16 - n)
    decreases n
  {
    hide ShiftIn, Top, Shl, Shr;
    TopStep(w, n);
    if n == 0 {
      ShrBytes(w);
      ShiftInNone(i);
    } else {
      var h := Bit(w >= 0x8000);
      var x := w - 0x8000 * h;
      assert Doubled(w) == 2 * x;
      ShiftInStep(i, w >= 0x8000, Top(2 * x, n - 1));
      ShiftInTop(2 * i + h, 2 * x, n - 1);
      ShrTwice(x, 16 - n);
      TopBit(h, x, n);
      ShlAdd(2 * i, h, n - 1);
      ShlTwice(i, n - 1);
    }
  }

  lemma ShiftInNone(i: nat)
    ensures ShiftIn(i, []) == i == Shl(i, 0)
  {
  }

  lemma ShiftInStep(i: nat, b: bool, bits: seq<bool>)
    ensures ShiftIn(i, [b] + bits) == ShiftIn(2 * i + Bit(b), bits)
  {
    assert ([b] + bits)[1..] == bits;
  }

  lemma ShrTwice(x: nat, n: nat)
    ensures Shr(2 * x, n + 1) == Shr(x, n)
  {
    assert 2 * x / 2 == x;
  }

  lemma ShlTwice(x: nat, n: nat)
    ensures Shl(2 * x, n) == Shl(x, n + 1)
  {
  }

  lemma TopBit(h: nat, x: nat, n: nat)
    requires h <= 1 && 1 <= n <= 16
    ensures Shr(0x8000 * h + x, 16 - n) == Shl(h, n - 1) + Shr(x, 16 - n)
  {
    TopBitLowZero(if n == 16 then 0 else 16 - n);
    ShrAdd(0x8000 * h, x, 16 - n);
    ShlShr(h, n - 1, 16 - n);
    ShlFour(h, 11);
    ShlFour(16 * h, 7);
    ShlFour(0x100 * h, 3);
    assert Shl(0x1000 * h, 3) == Shl(0x2000 * h, 2) == Shl(0x4000 * h, 1) == Shl(0x8000 * h, 0);
  }

  lemma {:induction false} ShiftInConcat(i: nat, a: seq<bool>, b: seq<bool>)
    ensures ShiftIn(i, a + b) == ShiftIn(ShiftIn(i, a), b)
    decreases |a|
  {
    if a == [] {
      assert a + b == b;
    } else {
      assert (a + b)[1..] == a[1..] + b;
      ShiftInConcat(2 * i + (if a[0] then 1 else 0), a[1..], b);
    }
  }

  /** The last six bits read decide the value modulo 64. */
  lemma LastSix(i: nat, bits: seq<bool>)
    requires |bits| == 6
    ensures ShiftIn(i, bits) == 64 * i + ShiftIn(0, bits) && ShiftIn(0, bits) < 64
  {
    ShiftInSix(i, bits);
    ShiftInSix(0, bits);
  }

  lemma ShiftInSix(i: nat, bits: seq<bool>)
    requires |bits| == 6
    ensures ShiftIn(i, bits) == 64 * i + 32 * Bit(bits[0]) + 16 * Bit(bits[1]) + 8 * Bit(bits[2])
                                + 4 * Bit(bits[3]) + 2 * Bit(bits[4]) + Bit(bits[5])
  {
    hide ShiftIn;
    ShiftInConcat(i, bits[..3], bits[3..]);
    assert bits[..3] + bits[3..] == bits;
    ShiftInThree(i, bits[..3]);
    ShiftInThree(ShiftIn(i, bits[..3]), bits[3..]);
  }

  lemma ShiftInThree(i: nat, bits: seq<bool>)
    requires |bits| == 3
    ensures ShiftIn(i, bits) == 8 * i + 4 * Bit(bits[0]) + 2 * Bit(bits[1]) + Bit(bits[2])
  {
    hide ShiftIn;
    assert bits == [bits[0]] + ([bits[1]] + ([bits[2]] + []));
    var j := 2 * i + Bit(bits[0]);
    ShiftInStep(i, bits[0], [bits[1]] + ([bits[2]] + []));
    ShiftInStep(j, bits[1], [bits[2]] + []);
    ShiftInStep(2 * j + Bit(bits[1]), bits[2], []);
    ShiftInNone(2 * (2 * j + Bit(bits[1])) + Bit(bits[2]));
  }

  function Bit(b: bool): nat {
    if b then 1 else 0
  }

  /** A byte is its own eight bits shifted in. */
  lemma ShiftInByte(b: nat)
    requires b < 0x100
    ensures ShiftIn(0, ByteBits(b)) == b
  {
    ShiftInTop(0, 0x100 * b, 8);
    ShrBytes(0x100 * b);
    assert 0x100 * b / 0x100 == b;
    ShlZero(8);
  }

  lemma {:induction false} ShlZero(n: nat)
    ensures Shl(0, n) == 0
    decreases n
  {
    if n > 0 {
      ShlZero(n - 1);
    }
  }

  // ---- the codec

  /** The bits sent for a position: a prefix code for the upper six, then the lower six as they are. */
  function PositionBits(c: int): (bits: seq<bool>)
    requires 0 <= c < 0x1000
    ensures 9 <= |bits| <= 14
  {
    Top(0x100 * PCode(c / 64), PLen(c / 64)) + Top(0x400 * (c % 64), 6)
  }

  /** Read as a number: the significant bits of the upper part's code, and then the lower part. */
  lemma PositionBitsAre(c: int)
    requires 0 <= c < 0x1000
    ensures var u := c / 64;
      && 3 <= PLen(u) <= 8 && |PositionBits(c)| == PLen(u) + 6
      && ShiftIn(0, PositionBits(c)) == 64 * Shr(PCode(u), 8 - PLen(u)) + c % 64
  {
    hide Top, ShiftIn, Shr, Shl, LenOf, CodeOf;
    var u, low := c / 64, c % 64;
    LenRange(u);
    var n := PLen(u);
    ShiftInConcat(0, Top(0x100 * PCode(u), n), Top(0x400 * low, 6));
    ShiftInTop(0, 0x100 * PCode(u), n);
    ShlZero(n);
    ByteShift(PCode(u), 8 - n);
    LastSix(ShiftIn(0, Top(0x100 * PCode(u), n)), Top(0x400 * low, 6));
    ShiftInTop(0, 0x400 * low, 6);
    LowSix(low);
  }

  /** The position read at p and the read position behind it. */
  function DecodePositionAt(bytes: seq<byte>, p: nat): (r: (int, nat))
    ensures 0 <= r.0 < 0x1000
  {
    var i := FirstByteAt(bytes, p);
    var n := DLen(i) - 2;
    (64 * DCode(i) + ShiftIn(i, Window(bytes, p + 8, n)) % 64, p + 8 + n)
  }

  function FirstByteAt(bytes: seq<byte>, p: nat): (i: nat)
    ensures i < 0x100
  {
    EightBits(Window(bytes, p, 8));
    ShiftIn(0, Window(bytes, p, 8))
  }

  lemma EightBits(bits: seq<bool>)
    requires |bits| == 8
    ensures ShiftIn(0, bits) < 0x100
  {
    ShiftInConcat(0, bits[..2], bits[2..]);
    assert bits[..2] + bits[2..] == bits;
    assert bits[..2][1..] == [bits[1]] && [bits[1]][1..] == [];
    assert ShiftIn(0, bits[..2]) == ShiftIn(Bit(bits[0]), [bits[1]]) ==
      ShiftIn(2 * Bit(bits[0]) + Bit(bits[1]), []) <= 3;
    LastSix(ShiftIn(0, bits[..2]), bits[2..]);
  }

  /** A position standing in the stream is decoded and consumed, at any bit offset. */
  lemma PositionDecodes(c: int, bytes: seq<byte>, p: nat)
    requires 0 <= c < 0x1000 && Stands(PositionBits(c), bytes, p)
    ensures DecodePositionAt(bytes, p) == (c, p + |PositionBits(c)|)
  {
    hide Top, ShiftIn, Stands, ByteBits, LenOf, CodeOf, UpperOf, FirstByteAt, Window, DCode, DLen, PLen, PCode;
    var u, low := c / 64, c % 64;
    var n, i := PLen(u), FirstByteAt(bytes, p);
    LenRange(u);
    var head, tail := Top(0x100 * PCode(u), n), Top(0x400 * low, 6);
    StandsConcat(head, tail, bytes, p);
    UpperStands(u, i, bytes, p);
    LowerStands(low, n, bytes, p);
    assert ShiftIn(i, Window(bytes, p + 8, n - 2)) % 64 == low;
  }

  lemma UpperRange(b: int)
    requires 0 <= b < 0x100
    ensures 0 <= UpperOf(b) < 64
  {
  }

  lemma LenRange(u: int)
    ensures 3 <= LenOf(u) <= 8
    ensures 0 <= u < 64 ==> 0 <= CodeOf(u) < 0x100
  {
  }

  /** The n bits of the upper part and the six behind it are a byte and n - 2 more bits. */
  lemma LowerStands(low: int, n: nat, bytes: seq<byte>, p: nat)
    requires 0 <= low < 64 && 3 <= n <= 8 && Stands(Top(0x400 * low, 6), bytes, p + n)
    ensures ShiftIn(FirstByteAt(bytes, p), Window(bytes, p + 8, n - 2)) % 64 == low
  {
    hide Top, ShiftIn;
    var a, b, tail := Window(bytes, p, 8), Window(bytes, p + 8, n - 2), Top(0x400 * low, 6);
    var w := a + b;
    ShiftInConcat(0, a, b);
    ShiftInConcat(0, w[..n], w[n..]);
    assert w[..n] + w[n..] == w;
    assert w[n..] == tail by {
      forall m | 0 <= m < 6
        ensures w[n + m] == tail[m]
      {
        assert tail[m] == BitAt(bytes, p + n + m);
      }
    }
    LastSix(ShiftIn(0, w[..n]), tail);
    ShiftInTop(0, 0x400 * low, 6);
    LowSix(low);
  }

  lemma LowSix(low: nat)
    requires low < 64
    ensures Shl(0, 6) + Shr(0x400 * low, 10) == low
  {
    ShlZero(6);
    ShlShr(low, 0, 10);
    ShlTen(low);
  }

  lemma ShlTen(w: nat)
    ensures Shl(w, 10) == 0x400 * w
  {
    ShlFour(w, 6);
    ShlFour(16 * w, 2);
    assert Shl(0x100 * w, 2) == Shl(0x200 * w, 1) == Shl(0x400 * w, 0);
  }

  lemma UpperStands(u: int, i: int, bytes: seq<byte>, p: nat)
    requires 0 <= u < 64 && 0 <= i < 0x100 && i == FirstByteAt(bytes, p)
    requires Stands(Top(0x100 * PCode(u), PLen(u)), bytes, p)
    ensures UpperOf(i) == u
  {
    hide Top, Shr, ShiftIn, Stands, LenOf, CodeOf, UpperOf, PLen, PCode;
    var n, c := PLen(u), PCode(u);
    LenRange(u);
    HeadStands(c, n, i, bytes, p);
    TopPrefix(0x100 * i, n, 8);
    ShiftInTop(0, 0x100 * i, n);
    ShiftInTop(0, 0x100 * c, n);
    ByteShift(i, 8 - n);
    ByteShift(c, 8 - n);
    PrefixFree(u, i);
  }

  /** The first n bits of the byte read at p. */
  lemma HeadStands(c: int, n: nat, i: int, bytes: seq<byte>, p: nat)
    requires 0 <= c < 0x100 && n <= 8 && 0 <= i < 0x100 && i == FirstByteAt(bytes, p)
    requires Stands(Top(0x100 * c, n), bytes, p)
    ensures Top(0x100 * i, 8)[..n] == Top(0x100 * c, n)
  {
    hide Top, ShiftIn;
    var w := Window(bytes, p, 8);
    ByteOfBits(w, i);
    assert w[..n] == Top(0x100 * c, n);
  }

  lemma ByteShift(b: nat, k: nat)
    requires b < 0x100
    ensures Shr(0x100 * b, 8 + k) == Shr(b, k)
  {
    ShrShr(0x100 * b, 8, k);
    ShrBytes(0x100 * b);
    assert 0x100 * b / 0x100 == b;
  }

  /** Eight bits are those of the byte that they make. */
  lemma ByteOfBits(bits: seq<bool>, i: nat)
    requires |bits| == 8 && i < 0x100 && i == ShiftIn(0, bits)
    ensures ByteBits(i) == bits
  {
    HighByte(bits);
    ShiftInByte(Pack(bits) / 0x100);
    assert bits[..8] == bits;
  }

  // ---- the methods

  /** lzh_encode_position */
  method EncodePosition(w: BitWriter, c: int)
    requires 0 <= c < 0x1000
    modifies w
    ensures old(w.Valid()) && old(w.putlen) < 8 ==> w.Valid() && w.Sent() == old(w.Sent()) + PositionBits(c)
    ensures old(w.putlen) < 8 ==> w.putlen < 8
    ensures old(w.outbuf) <= w.outbuf && |w.outbuf| <= |old(w.outbuf)| + 4
    ensures old(w.Firm()) <= w.Firm()
  {
    hide Top, LowZero, LenOf, CodeOf, BytesBits, Pack;
    PositionAligned(c);
    LenRange(c / 64);
    var i, low := c / 64, c % 64;
    ghost var head, tail := Top(0x100 * PCode(i), PLen(i)), Top(0x400 * low, 6);
    assert PositionBits(c) == head + tail;
    w.PutCode(PLen(i), 0x100 * PCode(i));
    w.PutCode(6, 0x400 * low);
  }

  lemma PositionAligned(c: int)
    requires 0 <= c < 0x1000
    ensures LowZero(0x100 * PCode(c / 64), 16 - PLen(c / 64))
    ensures LowZero(0x400 * (c % 64), 16 - 6)
  {
    var u, low := c / 64, c % 64;
    LenRange(u);
    var k := 8 - LenOf(u);
    var x := CodeAligned(u);
    ShlByte(CodeOf(u));
    ShlShl(x, k, 8);
    ShlLowZero(x, k + 8);
    ShlTen(low);
    ShlLowZero(low, 10);
  }

  lemma {:induction false} ShlShl(x: nat, a: nat, b: nat)
    ensures Shl(Shl(x, a), b) == Shl(x, a + b)
    decreases a
  {
    if a > 0 {
      ShlShl(2 * x, a - 1, b);
    }
  }

  lemma {:induction false} ShlLowZero(x: nat, k: nat)
    ensures LowZero(Shl(x, k), k)
    decreases k
  {
    if k > 0 {
      ShlLowZero(x, k - 1);
      ShlStep(x, k - 1);
    }
  }

  lemma CodeAligned(u: int) returns (x: nat)
    requires 0 <= u < 64
    ensures 3 <= LenOf(u) <= 8 && CodeOf(u) == Shl(x, 8 - LenOf(u))
  {
    var c := CodeOf(u);
    x := if u < 1 then 0 else if u < 4 then u + 1 else if u < 12 then u + 6 else if u < 24 then u + 24
         else if u < 48 then u + 72 else c;
    if u < 1 {
      ShlZero(5);
    } else if u < 4 {
      ShlFour(x, 0);
    } else if u < 12 {
      assert Shl(x, 3) == Shl(2 * x, 2) == Shl(4 * x, 1) == Shl(8 * x, 0);
    } else if u < 24 {
      assert Shl(x, 2) == Shl(2 * x, 1) == Shl(4 * x, 0);
    } else if u < 48 {
      assert Shl(x, 1) == Shl(2 * x, 0);
    }
  }

  /** lzh_decode_position */
  method DecodePosition(r: BitReader) returns (c: int)
    requires r.Valid()
    modifies r
    ensures r.Valid() && (c, r.pos) == DecodePositionAt(r.inbuf, old(r.pos))
  {
    hide Or, ShiftIn, LenOf, UpperOf, DCode, DLen, ByteBits, BitAt, Pack;
    var i := r.GetByte();
    ShiftInByte(i);
    assert i == FirstByteAt(r.inbuf, old(r.pos));
    UpperRange(i);
    LenRange(UpperOf(i));
    c := DCode(i) * 64;
    var j := DLen(i);
    j := j - 2;
    i := ShiftBits(r, i, j);
    LastDigits(c / 64, i % 64);
    c := Or(c, i % 64);
  }

  /** The loop of lzh_decode_position: j more bits are shifted into the 16-bit value i. */
  method ShiftBits(r: BitReader, first: nat, n: nat) returns (i: nat)
    requires r.Valid() && first < 0x100 && n <= 6
    modifies r
    ensures r.Valid() && r.pos == old(r.pos) + n && i == ShiftIn(first, Window(r.inbuf, old(r.pos), n))
  {
    hide ByteBits, BitAt, Pack;
    i := first;
    var j := n;
    while j != 0
      invariant 0 <= j <= n && r.Valid() && r.pos == old(r.pos) + n - j
      invariant ShiftIn(i, Window(r.inbuf, r.pos, j)) == ShiftIn(first, Window(r.inbuf, old(r.pos), n))
      invariant i < Shl(0x100, n - j)
      decreases j
    {
      SmallShl(n - j);
      ShlStep(0x100, n - j);
      assert Window(r.inbuf, r.pos, j)[1..] == Window(r.inbuf, r.pos + 1, j - 1);
      var bit := r.GetBit();
      i := (2 * i + if bit then 1 else 0) % 0x1_0000;
      j := j - 1;
    }
  }

  lemma SmallShl(k: nat)
    requires k <= 6
    ensures Shl(0x100, k) <= 0x4000
  {
    if k >= 4 {
      ShlFour(0x100, k - 4);
    }
    assert Shl(0x1000, 2) == Shl(0x2000, 1) == Shl(0x4000, 0);
    assert Shl(0x100, 3) == Shl(0x200, 2) == Shl(0x400, 1) == Shl(0x800, 0);
  }

  /** Or with a multiple of 64. */
  lemma LastDigits(u: nat, low: nat)
    requires low < 64
    ensures Or(u * 64, low) == u * 64 + low
  {
    hide Or, LowZero, Shl, Shr;
    ShlLowZero(u, 6);
    ShlSix(u);
    ShrSix(low);
    OrDisjoint(64 * u, low, 6);
  }

  lemma ShlSix(u: nat)
    ensures Shl(u, 6) == 64 * u
  {
    ShlFour(u, 2);
    assert Shl(16 * u, 2) == Shl(32 * u, 1) == Shl(64 * u, 0);
  }

  lemma ShrSix(w: nat)
    requires w < 64
    ensures Shr(w, 6) == 0
  {
    ShrFour(w);
    ShrShr(w, 4, 2);
    assert Shr(w / 16, 2) == Shr(w / 16 / 2, 1) == Shr(w / 16 / 2 / 2, 0);
  }
}
