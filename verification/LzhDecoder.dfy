/** lzh_decode of encode/lzh.c. */
module LzhDecoder {
  import opened Words
  import opened Parameters
  import opened RingBuffer
  import opened BitChannel
  import opened HuffmanTree
  import opened AdaptiveHuffman
  import opened HuffmanCode
  import opened Positions
  import opened Lzss

  /** The length header, a 32-bit integer, in little-endian order. */
  function Header(n: int): (b: seq<byte>)
    requires 0 <= n < 0x8000_0000
    ensures |b| == 4
  {
    [n % 0x100, n / 0x100 % 0x100, n / 0x1_0000 % 0x100, n / 0x100_0000]
  }

  /** The header read back as a signed integer. */
  function TextSize(b: seq<byte>): int
    requires |b| >= 4
  {
    var n: int := b[0] as int + 0x100 * b[1] as int + 0x1_0000 * b[2] as int + 0x100_0000 * b[3] as int;
    if n >= 0x8000_0000 then n - 0x1_0000_0000 else n
  }

  /** Byte by byte. */
  lemma HeaderIs(a: byte, b: byte, c: byte, d: byte)
    requires d < 0x80
    ensures Header(a + 0x100 * b + 0x1_0000 * c + 0x100_0000 * d) == [a, b, c, d]
  {
    var n := a + 0x100 * b + 0x1_0000 * c + 0x100_0000 * d;
    assert n / 0x100 == b + 0x100 * c + 0x1_0000 * d && n / 0x1_0000 == c + 0x100 * d && n / 0x100_0000 == d;
  }

  lemma HeaderRead(n: int, b: seq<byte>)
    requires 0 <= n < 0x8000_0000 && |b| >= 4 && b[..4] == Header(n)
    ensures TextSize(b) == n
  {
    var h := b[..4];
    assert b[0] == h[0] && b[1] == h[1] && b[2] == h[2] && b[3] == h[3];
    assert n / 0x1_0000 == n / 0x100 / 0x100 && n / 0x100_0000 == n / 0x1_0000 / 0x100;
  }

  /** What a compressed text stands for. */
  ghost function Decoded(bytes: seq<byte>): (text: seq<byte>)
    requires |bytes| >= 4 && TextSize(bytes) >= 0
    ensures |text| == TextSize(bytes)
  {
    StartValid();
    Decode(bytes, 32, Start(), Blank(), TextSize(bytes))[N..]
  }

  // ---- the ring

  lemma BlankRing(text: seq<byte>)
    requires |text| >= N
    requires forall x | 0 <= x < N - F :: text[x] == ' ' as int
    requires forall x | N - F <= x < N :: text[x] == 0
    ensures Ring(text, Blank(), N - F)
  {
    forall i | 0 <= i < N
      ensures text[Pos(i)] == Blank()[i]
    {
      if i < F {
        assert Pos(i) == i + N - F;
      } else {
        assert Pos(i) == i - F;
      }
    }
  }

  // ---- the method

  method LzhDecode(inbuf: seq<byte>) returns (outbuf: seq<byte>)
    requires |inbuf| >= 4 && TextSize(inbuf) >= 0
    ensures outbuf == Decoded(inbuf)
  {
    hide HuffmanTree.Valid, Ring, Decode, Start, Blank;
    var textsize := TextSize(inbuf);
    StartValid();
    if textsize == 0 {
      NothingToDecode(inbuf, 32, Start(), Blank());
      return [];
    }
    var h := new HuffmanArrays();
    h.StartHuff();
    var reader := new BitReader(inbuf, 4);
    var text := BlankText();
    outbuf := DecodeLoop(h, reader, text, textsize);
  }

  /** The ring is filled with spaces but for its last F bytes, which stay zero. */
  method BlankText() returns (text: array<byte>)
    ensures fresh(text) && Ring(text[..], Blank(), N - F)
  {
    text := new byte[N + F - 1](_ => 0);
    for i := 0 to N - F
      invariant forall x | 0 <= x < i :: text[x] == ' ' as int
      invariant forall x | N - F <= x < N :: text[x] == 0
    {
      text[i] := ' ' as int;
    }
    BlankRing(text[..]);
  }

  /** One step of decoding, the symbol s having been read. */
  lemma DecodeUnfold(bytes: seq<byte>, p: nat, t: Tree, h: seq<byte>, n: nat, s: int, q: nat)
    requires Valid(t) && |h| >= N && n > 0 && (s, q) == DecodeSymbol(t, bytes, p)
    ensures Valid(Updated(t, s))
    ensures s < 256 ==> Decode(bytes, p, t, h, n) == Decode(bytes, q, Updated(t, s), h + [s], n - 1)
    ensures s >= 256 ==>
      var (c, q') := DecodePositionAt(bytes, q);
      var m := if s - 255 + THRESHOLD < n then s - 255 + THRESHOLD else n;
      Decode(bytes, p, t, h, n) == Decode(bytes, q', Updated(t, s), Copy(h, c + 1, m), n - m)
  {
    hide HuffmanTree.Valid, Updated, DecodeSymbol, DecodePositionAt, Copy;
    UpdateValid(t, s);
  }

  /** The main loop: |outbuf| bytes have been put out. */
  method DecodeLoop(h: HuffmanArrays, reader: BitReader, text: array<byte>, textsize: int) returns (outbuf: seq<byte>)
    requires h.Shape() && Valid(h.View()) && reader.Valid() && textsize >= 0
    requires Ring(text[..], Blank(), N - F)
    modifies h.freq, h.son, h.prnt, reader, text
    ensures outbuf == Decode(reader.inbuf, old(reader.pos), old(h.View()), Blank(), textsize)[N..]
  {
    hide HuffmanTree.Valid, WellLinked, Ring, Decode, Blank, Updated, DecodeSymbol, DecodePositionAt, Copy, Pos;
    var r := N - F;
    outbuf := [];
    ghost var hist := Blank();
    ghost var goal := Decode(reader.inbuf, reader.pos, h.View(), hist, textsize);
    while |outbuf| < textsize
      invariant |outbuf| <= textsize && hist == Blank() + outbuf
      invariant h.Shape() && Valid(h.View()) && reader.Valid()
      invariant Ring(text[..], hist, r)
      invariant Decode(reader.inbuf, reader.pos, h.View(), hist, textsize - |outbuf|) == goal
      decreases textsize - |outbuf|
    {
      ghost var t, p, n := h.View(), reader.pos, textsize - |outbuf|;
      var c := DecodeChar(h, reader);
      DecodeUnfold(reader.inbuf, p, t, hist, n, c, reader.pos);
      RingBounds(text[..], hist, r);
      if c < 256 {
        outbuf := outbuf + [c];
        r := Put(text, r, c, hist);
        hist := hist + [c];
      } else {
        var pos := DecodePosition(reader);
        PosBack(|hist|, pos + 1);
        var part;
        part, r := CopyMatch(text, r, (r - pos - 1) % N, c - 255 + THRESHOLD, textsize - |outbuf|, hist, pos + 1);
        outbuf := outbuf + part;
        hist := hist + part;
      }
    }
    NothingToDecode(reader.inbuf, reader.pos, h.View(), hist);
  }

  /** One byte goes to the ring. */
  method Put(text: array<byte>, r: int, c: byte, ghost h: seq<byte>) returns (r': int)
    requires Ring(text[..], h, r)
    modifies text
    ensures Ring(text[..], h + [c], r')
  {
    hide Ring;
    RingBounds(text[..], h, r);
    RingStep(text[..], h, r, c);
    text[r] := c;
    r' := (r + 1) % N;
  }

  /** The inner loop: at most j bytes, at most limit, are copied from ring position i on. */
  method CopyMatch(text: array<byte>, r: int, i: int, j: int, limit: int, ghost h: seq<byte>, ghost dist: int)
    returns (part: seq<byte>, r': int)
    requires Ring(text[..], h, r) && 1 <= dist <= N && i == Pos(|h| - dist) && j >= 0 && limit >= 0
    modifies text
    ensures Ring(text[..], h + part, r') && |h| >= N
    ensures |part| == (if j < limit then j else limit) && h + part == Copy(h, dist, |part|)
  {
    hide Ring, Pos, Copy;
    RingBounds(text[..], h, r);
    var k := 0;
    part, r' := [], r;
    ghost var m := if j < limit then j else limit;
    ghost var now := h;
    while k < j && k < limit
      invariant 0 <= k == |part| <= m && now == h + part && Ring(text[..], now, r')
      invariant Copy(h, dist, m) == Copy(now, dist, m - k)
      decreases m - k
    {
      RingRead(text[..], now, r', i, dist, k);
      CopyStep(now, dist, m - k);
      var c := text[(i + k) % N];
      part := part + [c];
      r' := Put(text, r', c, now);
      now := now + [c];
      k := k + 1;
    }
    CopyStep(now, dist, 0);
  }

  lemma CopyStep(h: seq<byte>, dist: int, n: nat)
    requires 1 <= dist <= |h|
    ensures Copy(h, dist, n) == if n == 0 then h else Copy(h + [h[|h| - dist]], dist, n - 1)
  {
  }
}
