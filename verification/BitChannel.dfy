/** The bit packer and unpacker of encode/lzh.c: lzh_putcode and lzh_encode_end on one side, lzh_getbit and
    lzh_getbyte on the other. Both keep up to 16 bits left-aligned in a word. */
module BitChannel {
  import opened Words

  /** Replacing a word by its low 32 bits keeps its low 16 bits. */
  lemma Narrow(x: nat)
    ensures x % 0x1_0000_0000 % 0x1_0000 == x % 0x1_0000
  {
    var q, r := x / 0x1_0000_0000, x % 0x1_0000_0000;
    var q', r' := r / 0x1_0000, r % 0x1_0000;
    assert x == 0x1_0000 * (0x1_0000 * q + q') + r';
    DropMultiple(r', 0x1_0000 * q + q');
  }

  /** The two low bytes of a wider word. */
  lemma WordBytes(b: nat, w: nat)
    requires w == b % 0x1_0000
    ensures b / 0x100 % 0x100 == w / 0x100 && b % 0x100 == w % 0x100
  {
    var q := b / 0x1_0000;
    assert b == 0x1_0000 * q + w;
    assert b / 0x100 == 0x100 * q + w / 0x100;
    DropByteMultiple(w / 0x100, q);
    DropByteMultiple(w % 0x100, 0x100 * q + w / 0x100);
  }

  /** The code goes in right below the pending bits. */
  lemma Joined(pend: seq<bool>, putbuf: nat, c: nat, l: nat)
    requires |pend| <= 16 && putbuf % 0x1_0000 == Pack(pend)
    requires c < 0x1_0000 && (l <= 16 ==> LowZero(c, 16 - l))
    ensures Or(putbuf, Shr(c, |pend|)) % 0x1_0000 == Pack(pend + Top(c, l))
  {
    hide Or, Shr, Pack, Top, LowZero;
    var n := |pend|;
    OrWord(putbuf, Shr(c, n));
    PackAligned(pend, n);
    assert Shr(Shr(c, n), 16 - n) == 0 by {
      ShrShr(c, n, 16 - n);
      ShrBytes(c);
    }
    OrDisjoint(Pack(pend), Shr(c, n), 16 - n);
    PackTop(c, l);
    PackConcat(pend, Top(c, l));
  }

  lemma FirstByte(bits: seq<bool>, b: nat)
    requires |bits| >= 8 && b % 0x1_0000 == Pack(bits)
    ensures ByteBits(b / 0x100 % 0x100) == bits[..8]
  {
    hide Pack;
    WordBytes(b, Pack(bits));
    HighByte(bits);
  }

  lemma SecondByte(bits: seq<bool>, b: nat)
    requires |bits| >= 16 && b % 0x1_0000 == Pack(bits)
    ensures ByteBits(b % 0x100) == bits[8..16]
  {
    hide Pack;
    WordBytes(b, Pack(bits));
    LowByte(bits);
  }

  /** After one byte has gone out, eight bits are dropped from the buffer. */
  lemma Shifted(bits: seq<bool>, b: nat)
    requires 8 <= |bits| && ZeroFrom(bits, 16) && b % 0x1_0000 == Pack(bits)
    ensures 0x100 * b % 0x1_0000_0000 % 0x1_0000 == Pack(bits[8..])
  {
    hide Pack, Shl, ZeroFrom;
    Narrow(0x100 * b);
    PackShl(bits, 8, b);
    ShlByte(b);
  }

  /** After two bytes have gone out, the buffer is refilled from the code. */
  lemma Refilled(c: nat, l: nat, n: nat)
    requires c < 0x1_0000 && (l <= 16 ==> LowZero(c, 16 - l)) && n <= 16 && n <= l
    ensures Shl(c, n) % 0x1_0000_0000 % 0x1_0000 == Pack(Top(c, l)[n..])
  {
    hide Pack, Shl, Top, ZeroFrom;
    Narrow(Shl(c, n));
    PackTop(c, l);
    TopZeroFrom(c, l, 0);
    PackShl(Top(c, l), n, c);
  }

  lemma OneByteOut(out: seq<byte>, bits: seq<bool>, b: nat)
    requires |bits| >= 8 && b % 0x1_0000 == Pack(bits)
    ensures BytesBits(out + [b / 0x100 % 0x100]) + bits[8..] == BytesBits(out) + bits
  {
    hide Pack, ByteBits, BytesBits;
    FirstByte(bits, b);
    BytesBitsSnoc(out, b / 0x100 % 0x100);
    assert bits == bits[..8] + bits[8..];
  }

  lemma TwoBytesOut(out: seq<byte>, bits: seq<bool>, b: nat, c: nat, l: nat, n: nat)
    requires |bits| >= 16 && b % 0x1_0000 == Pack(bits)
    requires c < 0x1_0000 && (l <= 16 ==> LowZero(c, 16 - l)) && n <= 16 && n <= l
    requires |bits| == 16 - n + l && bits[16 - n..] == Top(c, l)
    ensures BytesBits(out + [b % 0x100]) + bits[16..] == BytesBits(out) + bits[8..]
    ensures Shl(c, n) % 0x1_0000_0000 % 0x1_0000 == Pack(bits[16..])
  {
    hide Pack, ByteBits, BytesBits, Shl, LowZero;
    SecondByte(bits, b);
    BytesBitsSnoc(out, b % 0x100);
    assert bits[8..] == bits[8..16] + bits[16..];
    Refilled(c, l, n);
    assert Top(c, l)[n..] == bits[16..];
  }

  /** Sends bits; outbuf starts with the length header. */
  class BitWriter {
    var outbuf: seq<byte>
    var putbuf: nat
    var putlen: nat
    ghost var pend: seq<bool>  // the bits not yet in outbuf

    ghost predicate Valid()
      reads this
    {
      |pend| == putlen <= 16 && putbuf % 0x1_0000 == Pack(pend)
    }

    /** Every bit sent so far. */
    ghost function Sent(): seq<bool>
      reads this
    {
      BytesBits(outbuf) + pend
    }

    /** What is certain to come out in the end, whatever is sent next: at most eight bits more than outbuf has. */
    ghost function Firm(): seq<bool>
      reads this
    {
      BytesBits(outbuf) + if Valid() then FirstEight(pend) else []
    }

    /** At most 32 bits are pending then, and the code is left-aligned. */
    ghost predicate Accepts(l: nat, c: nat)
      reads this
    {
      Valid() && putlen + l <= 32 && (l <= 16 ==> LowZero(c, 16 - l))
    }

    constructor (header: seq<byte>)
      ensures Valid() && Sent() == BytesBits(header) && putlen == 0 && outbuf == header
    {
      outbuf, putbuf, putlen, pend := header, 0, 0, [];
    }

    /** Appends the top l bits of c. The shift count of the refill is negative when more than 16 bits were
        pending; C leaves that undefined and no valid state gets there. */
    method PutCode(l: nat, c: nat)
      requires c < 0x1_0000 && l < 0x100
      modifies this
      ensures old(Accepts(l, c)) ==> Valid() && Sent() == old(Sent()) + Top(c, l)
      ensures old(putlen) < 8 && l <= 16 ==> putlen < 8
      ensures old(outbuf) <= outbuf && |outbuf| <= |old(outbuf)| + 2
      ensures 16 <= old(putlen) + l < 0x100 ==> |outbuf| == |old(outbuf)| + 2
      ensures l < 0xf0 && (l <= 16 ==> LowZero(c, 16 - l)) ==> old(Firm()) <= Firm()
    {
      hide Or, Shl, Shr, Pack, Top, LowZero, BytesBits, ByteBits, FirstEight;
      ghost var fits := Accepts(l, c);
      ghost var sound := Valid() && l < 0xf0 && (l <= 16 ==> LowZero(c, 16 - l));
      ghost var bits, n := pend + Top(c, l), putlen;
      if fits || sound {
        Joined(pend, putbuf, c, l);
        assert BytesBits(outbuf) + bits == Sent() + Top(c, l);
      }
      FirmStays(outbuf, pend, bits);
      putbuf := Or(putbuf, Shr(c, putlen));
      putlen := (putlen + l) % 0x100;
      if putlen >= 8 {
        FirmOut(outbuf, pend, bits, putbuf, sound);
        PutBytes(l, c, bits, n, fits);
      } else {
        pend := bits;
      }
    }

    /** The rest of lzh_putcode: one or two bytes go out, and the buffer is shifted or refilled from the code. */
    method PutBytes(l: nat, c: nat, ghost bits: seq<bool>, ghost n: nat, ghost fits: bool)
      requires putlen >= 8 && c < 0x1_0000
      requires fits ==> n <= 16 && n + l == putlen <= 32 && (l <= 16 ==> LowZero(c, 16 - l))
      requires fits ==> |bits| == putlen && bits[n..] == Top(c, l) && putbuf % 0x1_0000 == Pack(bits)
      modifies this
      ensures fits ==> Valid() && Sent() == BytesBits(old(outbuf)) + bits
      ensures putlen == if old(putlen) >= 16 then old(putlen) - 16 else old(putlen) - 8
      ensures old(outbuf) <= outbuf && |outbuf| == |old(outbuf)| + if old(putlen) >= 16 then 2 else 1
      ensures BytesBits(old(outbuf) + [old(putbuf) / 0x100 % 0x100]) <= Firm()
    {
      hide Or, Shl, Shr, Pack, Top, LowZero, BytesBits, ByteBits, FirstEight;
      if fits { OneByteOut(outbuf, bits, putbuf); }
      outbuf := outbuf + [putbuf / 0x100 % 0x100];
      putlen := putlen - 8;
      if putlen >= 8 {
        if fits { TwoBytesOut(outbuf, bits, putbuf, c, l, 16 - n); }
        FirmGrows(outbuf, [putbuf % 0x100]);
        outbuf := outbuf + [putbuf % 0x100];
        putlen := putlen - 8;
        putbuf := Shl(c, if l >= putlen then l - putlen else 0) % 0x1_0000_0000;
        pend := if fits then bits[16..] else [];
      } else {
        if fits { NothingBeyond(bits); Shifted(bits, putbuf); }
        putbuf := 0x100 * putbuf % 0x1_0000_0000;
        pend := if fits then bits[8..] else [];
      }
    }

    /** lzh_encode_end: flushes the last, partial byte. */
    method EncodeEnd()
      modifies this
      ensures old(Valid()) && old(putlen) < 8 ==>
                8 * |outbuf| < |old(Sent())| + 8 && old(Sent()) <= BytesBits(outbuf) &&
                ZeroFrom(BytesBits(outbuf), |old(Sent())|)
      ensures old(Firm()) <= BytesBits(outbuf)
      ensures old(outbuf) <= outbuf && |outbuf| <= |old(outbuf)| + 1
    {
      if putlen != 0 {
        if Valid() { LastByte(outbuf, pend, putbuf); }
        FirmGrows(outbuf, [putbuf / 0x100 % 0x100]);
        outbuf := outbuf + [putbuf / 0x100 % 0x100];
      }
    }
  }

  lemma NothingBeyond(bits: seq<bool>)
    requires |bits| <= 16
    ensures ZeroFrom(bits, 16)
  {
  }

  function FirstEight(bits: seq<bool>): seq<bool> {
    bits[..if |bits| < 8 then |bits| else 8]
  }

  /** The last byte holds up to eight of the pending bits. */
  lemma LastByte(out: seq<byte>, pend: seq<bool>, b: nat)
    requires |pend| <= 16 && b % 0x1_0000 == Pack(pend)
    ensures BytesBits(out) + FirstEight(pend) <= BytesBits(out + [b / 0x100 % 0x100])
    ensures |pend| < 8 ==> ZeroFrom(BytesBits(out + [b / 0x100 % 0x100]), |BytesBits(out) + pend|)
  {
    BytesBitsSnoc(out, b / 0x100 % 0x100);
    if |pend| < 8 {
      var zeros := seq(8 - |pend|, _ => false);
      PackPad(pend, zeros);
      FirstByte(pend + zeros, b);
      assert (pend + zeros)[..8] == pend + zeros;
    } else {
      FirstByte(pend, b);
    }
  }

  lemma {:induction false} FirmGrows(out: seq<byte>, more: seq<byte>)
    ensures BytesBits(out) <= BytesBits(out + more)
    decreases |more|
  {
    if more == [] {
      assert out + more == out;
    } else {
      var init, last := more[..|more| - 1], more[|more| - 1];
      assert out + more == out + init + [last];
      FirmGrows(out, init);
      BytesBitsSnoc(out + init, last);
    }
  }

  lemma FirmStays(out: seq<byte>, pend: seq<bool>, bits: seq<bool>)
    requires pend <= bits
    ensures BytesBits(out) + FirstEight(pend) <= BytesBits(out) + FirstEight(bits)
    ensures BytesBits(out) <= BytesBits(out) + FirstEight(bits)
  {
  }

  /** The byte put out holds all that was certain. */
  lemma FirmOut(out: seq<byte>, pend: seq<bool>, bits: seq<bool>, b: nat, sound: bool)
    requires pend <= bits && (sound ==> |bits| >= 8 && b % 0x1_0000 == Pack(bits))
    ensures BytesBits(out) <= BytesBits(out + [b / 0x100 % 0x100])
    ensures sound ==> BytesBits(out) + FirstEight(pend) <= BytesBits(out + [b / 0x100 % 0x100])
  {
    hide Pack, ByteBits, BytesBits;
    BytesBitsSnoc(out, b / 0x100 % 0x100);
    if sound { FirstByte(bits, b); }
  }

  /** n bits of a byte string, from bit p on. */
  function Window(bytes: seq<byte>, p: nat, n: nat): (bits: seq<bool>)
    ensures |bits| == n && forall m | 0 <= m < n :: bits[m] == BitAt(bytes, p + m)
  {
    seq(n, m requires 0 <= m < n => BitAt(bytes, p + m))
  }

  lemma WindowConcat(bytes: seq<byte>, p: nat, m: nat, n: nat)
    ensures Window(bytes, p, m) + Window(bytes, p + m, n) == Window(bytes, p, m + n)
  {
    hide BitAt;
  }

  lemma {:induction false} ZeroByte()
    ensures forall m | 0 <= m < 8 :: !ByteBits(0)[m]
  {
    assert LowZero(0, 16) by { TopBitLowZero(15); }
    TopZeroFrom(0, 8, 16);
  }

  /** The byte at the read position is the next window; past the end it is zero. */
  lemma NextByte(bytes: seq<byte>, incnt: nat, q: nat)
    requires if incnt < |bytes| then q == 8 * incnt else q >= 8 * |bytes|
    ensures ByteBits(if incnt < |bytes| then bytes[incnt] else 0) == Window(bytes, q, 8)
  {
    hide ByteBits;
    var next := if incnt < |bytes| then bytes[incnt] else 0;
    if incnt >= |bytes| {
      ZeroByte();
    }
    forall m | 0 <= m < 8
      ensures ByteBits(next)[m] == BitAt(bytes, q + m)
    {
      if incnt < |bytes| {
        assert (q + m) / 8 == incnt && (q + m) % 8 == m;
      }
    }
  }

  /** The byte is put right below the bits already in the buffer. */
  lemma Filled(bits: seq<bool>, next: byte)
    requires |bits| <= 8
    ensures Or(Pack(bits), Shl(next, 8 - |bits|)) == Pack(bits + ByteBits(next))
  {
    hide Or, Shr, Shl, Pack, ByteBits, LowZero;
    var n := |bits|;
    ShlShr(next, 8 - n, n);
    ShlByte(next);
    PackByte(next);
    PackConcat(bits, ByteBits(next));
    PackAligned(bits, n);
    assert Shr(Shr(0x100 * next, n), 16 - n) == 0 by {
      ShrShr(0x100 * next, n, 16 - n);
      ShrBytes(0x100 * next);
    }
    OrDisjoint(Pack(bits), Shl(next, 8 - n), 16 - n);
  }

  /** Reads bits; incnt starts behind the length header. */
  class BitReader {
    const inbuf: seq<byte>
    var incnt: nat
    var getbuf: nat
    var getlen: nat
    ghost var pos: nat  // bits consumed so far, the header included

    ghost predicate Valid()
      reads this
    {
      && getlen <= 16 && incnt <= |inbuf|
      && getbuf == Pack(Window(inbuf, pos, getlen))
      && (if incnt < |inbuf| then pos + getlen == 8 * incnt else pos + getlen >= 8 * |inbuf|)
    }

    constructor (inbuf: seq<byte>, start: nat)
      requires start <= |inbuf|
      ensures Valid() && this.inbuf == inbuf && pos == 8 * start
    {
      this.inbuf := inbuf;
      incnt, getbuf, getlen, pos := start, 0, 0, 8 * start;
    }

    /** The loop that lzh_getbit and lzh_getbyte both begin with. */
    method Fill()
      requires Valid()
      modifies this`incnt, this`getbuf, this`getlen
      ensures Valid() && 8 < getlen
    {
      hide Or, Shl, Pack, ByteBits, BitAt;
      while getlen <= 8
        invariant Valid()
        decreases 16 - getlen
      {
        var i := 0;
        NextByte(inbuf, incnt, pos + getlen);
        Filled(Window(inbuf, pos, getlen), if incnt < |inbuf| then inbuf[incnt] else 0);
        WindowConcat(inbuf, pos, getlen, 8);
        if incnt < |inbuf| {
          i := inbuf[incnt];
          incnt := incnt + 1;
        }
        getbuf := Or(getbuf, Shl(i, 8 - getlen));
        getlen := getlen + 8;
      }
    }

    /** The next bit of the input, zeros past its end. */
    method GetBit() returns (bit: bool)
      requires Valid()
      modifies this
      ensures Valid() && pos == old(pos) + 1
      ensures bit == BitAt(inbuf, old(pos))
    {
      hide Pack, ByteBits, BitAt;
      Fill();
      TakeBit(Window(inbuf, pos, getlen), getbuf);
      bit := getbuf >= 0x8000;
      assert Window(inbuf, pos, getlen)[1..] == Window(inbuf, pos + 1, getlen - 1);
      getbuf := 2 * getbuf % 0x1_0000;
      getlen := getlen - 1;
      pos := pos + 1;
    }

    /** The next eight bits of the input as a byte. */
    method GetByte() returns (b: byte)
      requires Valid()
      modifies this
      ensures Valid() && pos == old(pos) + 8
      ensures ByteBits(b) == Window(inbuf, old(pos), 8)
    {
      hide Pack, ByteBits, BitAt;
      Fill();
      TakeByte(Window(inbuf, pos, getlen), getbuf);
      b := getbuf / 0x100;
      assert Window(inbuf, pos, getlen)[8..] == Window(inbuf, pos + 8, getlen - 8);
      assert Window(inbuf, pos, getlen)[..8] == Window(inbuf, pos, 8);
      getbuf := 0x100 * getbuf % 0x1_0000;
      getlen := getlen - 8;
      pos := pos + 8;
    }
  }

  lemma TakeBit(bits: seq<bool>, w: nat)
    requires 1 <= |bits| <= 16 && w == Pack(bits)
    ensures (w >= 0x8000) == bits[0]
    ensures 2 * w % 0x1_0000 == Pack(bits[1..])
  {
    PackTailEven(bits);
  }

  lemma TakeByte(bits: seq<bool>, w: nat)
    requires 8 <= |bits| <= 16 && w == Pack(bits)
    ensures w / 0x100 < 0x100 && ByteBits(w / 0x100) == bits[..8]
    ensures 0x100 * w % 0x1_0000 == Pack(bits[8..])
  {
    hide Pack, Shl, ByteBits;
    HighByte(bits);
    PackShl(bits, 8, w);
    ShlByte(w);
  }
}
