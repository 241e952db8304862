/** What lzh_encode puts out is read back by lzh_decode. */
module LzhRoundTrip {
  import opened Words
  import opened Parameters
  import opened HuffmanTree
  import opened AdaptiveHuffman
  import opened HuffmanCode
  import opened Lzss
  import opened LzhDecoder

  /** The history that encoder and decoder share: the blank ring and then the input. */
  function History(inbuf: seq<byte>): (w: seq<byte>)
    ensures |w| == N + |inbuf| && w[N..] == inbuf
  {
    Blank() + inbuf
  }

  /** The tokens stand for the text, and the compressed text spells its length and then the tokens up to the first
      code of more than 16 bits, or all of them, filled up with fewer than eight zero bits. */
  ghost predicate Spells(outbuf: seq<byte>, inbuf: seq<byte>, ks: seq<Token>)
    requires |inbuf| < 0x8000_0000 && Valid(Start()) && AreTokens(ks)
  {
    var bits := BytesBits(Header(|inbuf|)) + SoundBits(Start(), ks);
    && Expand(Blank(), ks) == History(inbuf) && Header(|inbuf|) <= outbuf && bits <= BytesBits(outbuf)
    && (Fits(Start(), ks) ==> 8 * |outbuf| < |bits| + 8 && ZeroFrom(BytesBits(outbuf), |bits|))
  }

  ghost predicate DecodesTo(outbuf: seq<byte>, inbuf: seq<byte>) {
    |outbuf| >= 4 && TextSize(outbuf) == |inbuf| && Decoded(outbuf) == inbuf
  }

  /** No code that lzh_decode reads in a compressed text has more than 16 bits. */
  ghost predicate ShortCodes(outbuf: seq<byte>)
    requires Valid(Start())
  {
    |outbuf| >= 4 && TextSize(outbuf) >= 0 && ShortRead(outbuf, 32, Start(), TextSize(outbuf))
  }

  lemma BitsStand(head: seq<bool>, bits: seq<bool>, bytes: seq<byte>)
    requires head + bits <= BytesBits(bytes)
    ensures Stands(bits, bytes, |head|)
  {
    forall m | 0 <= m < |bits|
      ensures bits[m] == BitAt(bytes, |head| + m)
    {
      BitAtBytesBits(bytes, |head| + m);
      assert (head + bits)[|head| + m] == bits[m];
    }
  }

  lemma SpelledStands(outbuf: seq<byte>, inbuf: seq<byte>, ks: seq<Token>)
    requires |inbuf| < 0x8000_0000 && Valid(Start()) && AreTokens(ks) && Spells(outbuf, inbuf, ks)
    ensures |outbuf| >= 4 && TextSize(outbuf) == |inbuf| && Stands(SoundBits(Start(), ks), outbuf, 32)
  {
    hide HuffmanTree.Valid, Start, SoundBits, Stands, Expand, Fits;
    HeaderRead(|inbuf|, outbuf);
    BitsStand(BytesBits(Header(|inbuf|)), SoundBits(Start(), ks), outbuf);
  }

  /** Whether all codes that were sent were short can be seen from the compressed text alone. */
  lemma SpelledShort(outbuf: seq<byte>, inbuf: seq<byte>, ks: seq<Token>)
    requires |inbuf| < 0x8000_0000 && Valid(Start()) && AreTokens(ks) && Spells(outbuf, inbuf, ks)
    ensures ShortCodes(outbuf) <==> Fits(Start(), ks)
  {
    hide HuffmanTree.Valid, Start, SoundBits, Stands, Fits, ShortRead, TextSize;
    SpelledStands(outbuf, inbuf, ks);
    ShortIff(Start(), ks, outbuf, 32, Blank());
  }

  /** The decoder gets the text back, up to the first code of more than 16 bits. */
  lemma SpelledDecodes(outbuf: seq<byte>, inbuf: seq<byte>, ks: seq<Token>)
    requires |inbuf| < 0x8000_0000 && Valid(Start()) && AreTokens(ks) && Spells(outbuf, inbuf, ks)
    ensures |outbuf| >= 4 && TextSize(outbuf) == |inbuf| && AreTokens(SoundTokens(Start(), ks))
    ensures var sound := Expand(Blank(), SoundTokens(Start(), ks));
      N <= |sound| <= N + |inbuf| && sound[N..] <= inbuf && sound[N..] <= Decoded(outbuf)
    ensures Fits(Start(), ks) ==> DecodesTo(outbuf, inbuf)
  {
    hide HuffmanTree.Valid, Start, SoundBits, TokensBits, Decode, Stands, Expand, Fits, TextSize, Blank, ZeroFrom;
    var ks' := SoundTokens(Start(), ks);
    SpelledStands(outbuf, inbuf, ks);
    SoundFits(Start(), ks);
    ExpandMore(Blank(), ks', ks);
    var bits, all := TokensBits(Start(), ks'), SoundBits(Start(), ks);
    assert all == bits + all[|bits|..];
    StandsConcat(bits, all[|bits|..], outbuf, 32);
    TokensBegin(Start(), ks', outbuf, 32, Blank(), |inbuf|);
  }

  /** Fewer tokens stand for the beginning. */
  lemma {:induction false} ExpandMore(h: seq<byte>, ks': seq<Token>, ks: seq<Token>)
    requires |h| >= N && AreTokens(ks) && ks' <= ks && AreTokens(ks')
    ensures Expand(h, ks') <= Expand(h, ks)
    decreases |ks'|
  {
    hide Apply;
    if ks' != [] {
      ExpandMore(Apply(h, ks[0]), ks'[1..], ks[1..]);
    }
  }

  /** On codes of at most 16 bits, the compressed text is at most twice as long. */
  lemma SpelledSize(outbuf: seq<byte>, inbuf: seq<byte>, ks: seq<Token>)
    requires |inbuf| < 0x8000_0000 && Valid(Start()) && AreTokens(ks) && Spells(outbuf, inbuf, ks) && Fits(Start(), ks)
    ensures |outbuf| <= 4 + 2 * |inbuf|
  {
    hide HuffmanTree.Valid, Start, TokensBits, SoundBits, Fits, Expand;
    TokensSize(Start(), ks, Blank());
    SoundFits(Start(), ks);
  }

  /** A text of at most 3867 bytes never needs a longer code. */
  lemma ShortTextFits(inbuf: seq<byte>, ks: seq<Token>)
    requires Valid(Start()) && AreTokens(ks) && Expand(Blank(), ks) == History(inbuf) && |inbuf| <= 4181 - N_CHAR
    ensures Fits(Start(), ks)
  {
    hide HuffmanTree.Valid, Fits;
    StartValid();
    FewTokensFit(Start(), ks);
  }
}
