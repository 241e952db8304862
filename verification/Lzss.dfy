/** The token level of encode/lzh.c: what a sequence of literals and matches stands for, which bits it is sent
    as, and how those bits are read back. */
module Lzss {
  import opened Words
  import opened Parameters
  import opened HuffmanTree
  import opened AdaptiveHuffman
  import opened HuffmanCode
  import opened Positions

  /** A literal byte, or len bytes from pos + 1 bytes back. */
  datatype Token = Literal(b: byte) | Match(len: int, pos: int)

  ghost predicate IsToken(k: Token) {
    k.Match? ==> THRESHOLD < k.len <= F && 0 <= k.pos < N
  }

  ghost predicate AreTokens(ks: seq<Token>) {
    forall i | 0 <= i < |ks| :: IsToken(ks[i])
  }

  /** The symbol of the Huffman tree that a token begins with. */
  function Symbol(k: Token): (s: int)
    requires IsToken(k)
    ensures 0 <= s < N_CHAR
  {
    match k
    case Literal(b) => b
    case Match(len, _) => 255 - THRESHOLD + len
  }

  // ---- meaning

  /** The ring before the first byte: F zeros, as the structure is cleared, and spaces. */
  function Blank(): (h: seq<byte>)
    ensures |h| == N
  {
    seq(F, _ => 0) + seq(N - F, _ => ' ' as int)
  }

  /** n more bytes, each the one dist bytes back, possibly one just added. */
  function Copy(h: seq<byte>, dist: int, n: nat): (h': seq<byte>)
    requires 1 <= dist <= |h|
    ensures |h'| == |h| + n && h <= h'
    decreases n
  {
    if n == 0 then h else Copy(h + [h[|h| - dist]], dist, n - 1)
  }

  function Apply(h: seq<byte>, k: Token): (h': seq<byte>)
    requires |h| >= N && IsToken(k)
    ensures |h| < |h'| && h <= h'
  {
    match k
    case Literal(b) => h + [b]
    case Match(len, pos) => Copy(h, pos + 1, len)
  }

  function Expand(h: seq<byte>, ks: seq<Token>): (h': seq<byte>)
    requires |h| >= N && AreTokens(ks)
    ensures h <= h' && |h| + |ks| <= |h'|
    decreases |ks|
  {
    if ks == [] then h else Expand(Apply(h, ks[0]), ks[1..])
  }

  lemma {:induction false} ExpandSnoc(h: seq<byte>, ks: seq<Token>, k: Token)
    requires |h| >= N && AreTokens(ks) && IsToken(k)
    ensures AreTokens(ks + [k]) && Expand(h, ks + [k]) == Apply(Expand(h, ks), k)
    decreases |ks|
  {
    if ks == [] {
      assert (ks + [k])[1..] == [];
    } else {
      assert (ks + [k])[1..] == ks[1..] + [k];
      ExpandSnoc(Apply(h, ks[0]), ks[1..], k);
    }
  }

  /** Byte for byte, a match repeats what stands pos + 1 bytes before, itself included. */
  lemma MatchMeans(h: seq<byte>, len: int, pos: int)
    requires |h| >= N && IsToken(Match(len, pos))
    ensures var h' := Apply(h, Match(len, pos));
      |h'| == |h| + len && h <= h' && forall i | |h| <= i < |h'| :: h'[i] == h'[i - (pos + 1)]
  {
    CopyMeans(h, pos + 1, len);
  }

  lemma {:induction false} CopyMeans(h: seq<byte>, dist: int, n: nat)
    requires 1 <= dist <= |h|
    ensures forall i | |h| <= i < |h| + n :: Copy(h, dist, n)[i] == Copy(h, dist, n)[i - dist]
    decreases n
  {
    if n > 0 {
      var h1 := h + [h[|h| - dist]];
      CopyMeans(h1, dist, n - 1);
      var h' := Copy(h, dist, n);
      assert h' == Copy(h1, dist, n - 1) && h1 <= h';
      assert h'[|h|] == h1[|h|] && h'[|h| - dist] == h1[|h| - dist];
    }
  }

  /** A stretch that repeats what stands dist bytes before it is a copy. */
  lemma {:induction false} CopyIs(w: seq<byte>, c: int, dist: int, n: nat)
    requires 1 <= dist <= c && c + n <= |w|
    requires forall i | c <= i < c + n :: w[i] == w[i - dist]
    ensures Copy(w[..c], dist, n) == w[..c + n]
    decreases n
  {
    if n > 0 {
      assert w[..c] + [w[c - dist]] == w[..c + 1];
      CopyIs(w, c + 1, dist, n - 1);
    }
  }

  /** Literals come first, in order, and then the matches, from the shortest to the longest. */
  lemma SymbolsInOrder(b: byte, len: int, pos: int)
    requires THRESHOLD < len <= F && 0 <= pos < N
    ensures Symbol(Literal(b)) == b && Symbol(Match(3, pos)) == 256 && Symbol(Match(60, pos)) == N_CHAR - 1
    ensures len < F ==> Symbol(Match(len + 1, pos)) == Symbol(Match(len, pos)) + 1
  {
  }

  /** A match that lies before the text stands for spaces, as far as there are any. */
  lemma {:induction false} BlankCopied(k: nat, dist: int, n: nat)
    requires 1 <= dist <= N - F + k
    ensures Copy(Blank() + Spaces(k), dist, n) == Blank() + Spaces(k + n)
    decreases n
  {
    if n > 0 {
      var h := Blank() + Spaces(k);
      assert h[|h| - dist] == ' ' as int;
      assert h + [' ' as int] == Blank() + Spaces(k + 1);
      BlankCopied(k + 1, dist, n - 1);
    }
  }

  function Spaces(n: nat): (s: seq<byte>)
    ensures |s| == n && forall i | 0 <= i < n :: s[i] == ' ' as int
  {
    seq(n, _ => ' ' as int)
  }

  // ---- bits

  ghost function TokenBits(t: Tree, k: Token): seq<bool>
    requires Valid(t) && IsToken(k)
  {
    Code(t, Symbol(k)) + if k.Match? then PositionBits(k.pos) else []
  }

  ghost function AfterTokens(t: Tree, ks: seq<Token>): (r: Tree)
    requires Valid(t) && AreTokens(ks)
    ensures Valid(r)
    decreases |ks|
  {
    if ks == [] then t
    else
      UpdateValid(t, Symbol(ks[0]));
      AfterTokens(Updated(t, Symbol(ks[0])), ks[1..])
  }

  ghost function TokensBits(t: Tree, ks: seq<Token>): seq<bool>
    requires Valid(t) && AreTokens(ks)
    decreases |ks|
  {
    if ks == [] then []
    else
      UpdateValid(t, Symbol(ks[0]));
      TokenBits(t, ks[0]) + TokensBits(Updated(t, Symbol(ks[0])), ks[1..])
  }

  /** Every symbol on the way has a code of at most 16 bits. */
  ghost predicate Fits(t: Tree, ks: seq<Token>)
    requires Valid(t) && AreTokens(ks)
    decreases |ks|
  {
    ks == [] ||
    (UpdateValid(t, Symbol(ks[0]));
     |Code(t, Symbol(ks[0]))| <= 16 && Fits(Updated(t, Symbol(ks[0])), ks[1..]))
  }

  lemma {:induction false} TokensSnoc(t: Tree, ks: seq<Token>, k: Token)
    requires Valid(t) && AreTokens(ks) && IsToken(k)
    ensures AreTokens(ks + [k])
    ensures var t' := AfterTokens(t, ks);
      && Valid(Updated(t', Symbol(k))) && AfterTokens(t, ks + [k]) == Updated(t', Symbol(k))
      && TokensBits(t, ks + [k]) == TokensBits(t, ks) + TokenBits(t', k)
      && (Fits(t, ks + [k]) <==> Fits(t, ks) && |Code(t', Symbol(k))| <= 16)
    decreases |ks|
  {
    hide HuffmanTree.Valid, Updated, Code, TokenBits, Symbol;
    if ks == [] {
      assert (ks + [k])[1..] == [];
      UpdateValid(t, Symbol(k));
    } else {
      assert (ks + [k])[1..] == ks[1..] + [k];
      UpdateValid(t, Symbol(ks[0]));
      TokensSnoc(Updated(t, Symbol(ks[0])), ks[1..], k);
    }
  }

  /** The bits that are sent as they should be: those of the tokens before the first code of more than 16 bits,
      and the first 16 of that. */
  ghost function SoundBits(t: Tree, ks: seq<Token>): seq<bool>
    requires Valid(t) && AreTokens(ks)
    decreases |ks|
  {
    if ks == [] then []
    else
      UpdateValid(t, Symbol(ks[0]));
      if |Code(t, Symbol(ks[0]))| > 16 then Code(t, Symbol(ks[0]))[..16]
      else TokenBits(t, ks[0]) + SoundBits(Updated(t, Symbol(ks[0])), ks[1..])
  }

  /** The tokens before the first code of more than 16 bits. */
  ghost function SoundTokens(t: Tree, ks: seq<Token>): (r: seq<Token>)
    requires Valid(t) && AreTokens(ks)
    ensures r <= ks
    decreases |ks|
  {
    if ks == [] then []
    else
      UpdateValid(t, Symbol(ks[0]));
      if |Code(t, Symbol(ks[0]))| > 16 then [] else [ks[0]] + SoundTokens(Updated(t, Symbol(ks[0])), ks[1..])
  }

  lemma {:induction false} SoundSnoc(t: Tree, ks: seq<Token>, k: Token)
    requires Valid(t) && AreTokens(ks) && IsToken(k)
    ensures AreTokens(ks + [k])
    ensures var t' := AfterTokens(t, ks);
      SoundBits(t, ks + [k]) ==
        if !Fits(t, ks) then SoundBits(t, ks)
        else TokensBits(t, ks) + if |Code(t', Symbol(k))| > 16 then Code(t', Symbol(k))[..16] else TokenBits(t', k)
    decreases |ks|
  {
    hide HuffmanTree.Valid, Updated, Code, TokenBits, Symbol;
    UpdateValid(AfterTokens(t, ks), Symbol(k));
    if ks == [] {
      assert (ks + [k])[1..] == [];
      SoundNothing(Updated(t, Symbol(k)));
    } else {
      assert (ks + [k])[1..] == ks[1..] + [k];
      UpdateValid(t, Symbol(ks[0]));
      SoundSnoc(Updated(t, Symbol(ks[0])), ks[1..], k);
    }
  }

  lemma SoundNothing(t: Tree)
    requires Valid(t)
    ensures SoundBits(t, []) == []
  {
  }

  /** If all codes fit, then these are all tokens and all their bits. */
  lemma {:induction false} SoundFits(t: Tree, ks: seq<Token>)
    requires Valid(t) && AreTokens(ks)
    ensures AreTokens(SoundTokens(t, ks)) && Fits(t, SoundTokens(t, ks))
    ensures TokensBits(t, SoundTokens(t, ks)) <= SoundBits(t, ks)
    ensures Fits(t, ks) ==> SoundBits(t, ks) == TokensBits(t, ks) && SoundTokens(t, ks) == ks
    decreases |ks|
  {
    hide HuffmanTree.Valid, Updated, Code, TokenBits, Symbol;
    if ks != [] {
      UpdateValid(t, Symbol(ks[0]));
      SoundFits(Updated(t, Symbol(ks[0])), ks[1..]);
      var r := SoundTokens(t, ks);
      if r != [] { assert r[1..] == SoundTokens(Updated(t, Symbol(ks[0])), ks[1..]); }
    }
  }

  // ---- reading back

  /** What lzh_decode makes of the bits from position p on: n more bytes behind the history h. */
  ghost function Decode(bytes: seq<byte>, p: nat, t: Tree, h: seq<byte>, n: nat): (h': seq<byte>)
    requires Valid(t) && |h| >= N
    ensures h <= h' && |h'| == |h| + n
    decreases n
  {
    if n == 0 then h
    else
      var (s, q) := DecodeSymbol(t, bytes, p);
      UpdateValid(t, s);
      if s < 256 then Decode(bytes, q, Updated(t, s), h + [s], n - 1)
      else
        var (c, q') := DecodePositionAt(bytes, q);
        var len := s - 255 + THRESHOLD;
        var m := if len < n then len else n;
        Decode(bytes, q', Updated(t, s), Copy(h, c + 1, m), n - m)
  }

  lemma TokenDecodes(t: Tree, k: Token, bytes: seq<byte>, p: nat)
    requires Valid(t) && IsToken(k) && Stands(TokenBits(t, k), bytes, p)
    ensures DecodeSymbol(t, bytes, p) == (Symbol(k), p + |Code(t, Symbol(k))|)
    ensures k.Match? ==> DecodePositionAt(bytes, p + |Code(t, Symbol(k))|) == (k.pos, p + |TokenBits(t, k)|)
    ensures k.Literal? ==> |TokenBits(t, k)| == |Code(t, Symbol(k))|
  {
    hide HuffmanTree.Valid, Code, PositionBits, DecodeSymbol, DecodePositionAt, Stands, Symbol;
    ValidLinked(t);
    var tail := if k.Match? then PositionBits(k.pos) else [];
    StandsConcat(Code(t, Symbol(k)), tail, bytes, p);
    CodeDecodes(t, Symbol(k), bytes, p);
    if k.Match? {
      PositionDecodes(k.pos, bytes, p + |Code(t, Symbol(k))|);
    }
  }

  /** One token is decoded, consumed and applied. */
  lemma DecodeStep(t: Tree, k: Token, bytes: seq<byte>, p: nat, h: seq<byte>, n: nat)
    requires Valid(t) && IsToken(k) && Stands(TokenBits(t, k), bytes, p) && |h| >= N
    requires |Apply(h, k)| <= |h| + n
    ensures Valid(Updated(t, Symbol(k)))
    ensures Decode(bytes, p, t, h, n) ==
            Decode(bytes, p + |TokenBits(t, k)|, Updated(t, Symbol(k)), Apply(h, k), |h| + n - |Apply(h, k)|)
  {
    hide HuffmanTree.Valid, WellLinked, Code, PositionBits, DecodeSymbol, DecodePositionAt, Stands, Updated,
      TokenBits, Copy;
    ValidLinked(t);
    UpdateValid(t, Symbol(k));
    TokenDecodes(t, k, bytes, p);
  }

  /** As long as the decoder finds the bits of the tokens, it puts out what they stand for. */
  lemma {:induction false} TokensBegin(t: Tree, ks: seq<Token>, bytes: seq<byte>, p: nat, h: seq<byte>, n: nat)
    requires Valid(t) && AreTokens(ks) && |h| >= N && Stands(TokensBits(t, ks), bytes, p)
    requires |Expand(h, ks)| <= |h| + n
    ensures Expand(h, ks) <= Decode(bytes, p, t, h, n)
    decreases |ks|
  {
    hide HuffmanTree.Valid, Stands, Updated, TokenBits, Apply, Decode;
    if ks != [] {
      var k := ks[0];
      UpdateValid(t, Symbol(k));
      var t', h' := Updated(t, Symbol(k)), Apply(h, k);
      StandsConcat(TokenBits(t, k), TokensBits(t', ks[1..]), bytes, p);
      DecodeStep(t, k, bytes, p, h, n);
      TokensBegin(t', ks[1..], bytes, p + |TokenBits(t, k)|, h', |h| + n - |h'|);
    }
  }

  /** The bits of any tokens are read back as what the tokens stand for. */
  lemma TokensDecode(t: Tree, ks: seq<Token>, bytes: seq<byte>, p: nat, h: seq<byte>)
    requires Valid(t) && AreTokens(ks) && |h| >= N && Stands(TokensBits(t, ks), bytes, p)
    ensures Decode(bytes, p, t, h, |Expand(h, ks)| - |h|) == Expand(h, ks)
  {
    hide HuffmanTree.Valid, Stands, TokensBits, Decode;
    TokensBegin(t, ks, bytes, p, h, |Expand(h, ks)| - |h|);
  }

  /** No code that the decoder reads for the next n bytes has more than 16 bits. */
  ghost predicate ShortRead(bytes: seq<byte>, p: nat, t: Tree, n: nat)
    requires Valid(t)
    decreases n
  {
    n == 0 ||
    (var (s, q) := DecodeSymbol(t, bytes, p);
     UpdateValid(t, s);
     |Code(t, s)| <= 16 &&
     if s < 256 then ShortRead(bytes, q, Updated(t, s), n - 1)
     else
       var q', len := DecodePositionAt(bytes, q).1, s - 255 + THRESHOLD;
       ShortRead(bytes, q', Updated(t, s), n - if len < n then len else n))
  }

  lemma ShortStep(t: Tree, k: Token, bytes: seq<byte>, p: nat, h: seq<byte>, n: nat)
    requires Valid(t) && IsToken(k) && |Code(t, Symbol(k))| <= 16 && Stands(TokenBits(t, k), bytes, p) && |h| >= N
    requires |Apply(h, k)| <= |h| + n
    ensures Valid(Updated(t, Symbol(k)))
    ensures ShortRead(bytes, p, t, n) ==
            ShortRead(bytes, p + |TokenBits(t, k)|, Updated(t, Symbol(k)), |h| + n - |Apply(h, k)|)
  {
    hide HuffmanTree.Valid, WellLinked, Code, PositionBits, DecodeSymbol, DecodePositionAt, Stands, Updated,
      TokenBits, Copy;
    ValidLinked(t);
    UpdateValid(t, Symbol(k));
    TokenDecodes(t, k, bytes, p);
  }

  lemma LongStep(t: Tree, k: Token, bytes: seq<byte>, p: nat, n: nat)
    requires Valid(t) && IsToken(k) && |Code(t, Symbol(k))| > 16 && Stands(Code(t, Symbol(k))[..16], bytes, p) && n > 0
    ensures !ShortRead(bytes, p, t, n)
  {
    hide HuffmanTree.Valid, WellLinked, Code, DecodeSymbol, DecodePositionAt, Stands, Updated;
    ValidLinked(t);
    LongCodeRead(t, Symbol(k), bytes, p);
  }

  /** The decoder can tell whether all codes were short. */
  lemma {:induction false} ShortIff(t: Tree, ks: seq<Token>, bytes: seq<byte>, p: nat, h: seq<byte>)
    requires Valid(t) && AreTokens(ks) && |h| >= N && Stands(SoundBits(t, ks), bytes, p)
    ensures ShortRead(bytes, p, t, |Expand(h, ks)| - |h|) <==> Fits(t, ks)
    decreases |ks|
  {
    hide HuffmanTree.Valid, Stands, Updated, TokenBits, Apply, ShortRead, Code;
    if ks == [] {
      NothingRead(bytes, p, t);
    } else {
      var k, n := ks[0], |Expand(h, ks)| - |h|;
      UpdateValid(t, Symbol(k));
      var t', h' := Updated(t, Symbol(k)), Apply(h, k);
      assert Expand(h, ks) == Expand(h', ks[1..]);
      ValidLinked(t);
      if |Code(t, Symbol(k))| > 16 {
        LongStep(t, k, bytes, p, n);
      } else {
        StandsConcat(TokenBits(t, k), SoundBits(t', ks[1..]), bytes, p);
        ShortStep(t, k, bytes, p, h, n);
        ShortIff(t', ks[1..], bytes, p + |TokenBits(t, k)|, h');
      }
    }
  }

  lemma NothingRead(bytes: seq<byte>, p: nat, t: Tree)
    requires Valid(t)
    ensures ShortRead(bytes, p, t, 0)
  {
  }

  lemma NothingToDecode(bytes: seq<byte>, p: nat, t: Tree, h: seq<byte>)
    requires Valid(t) && |h| >= N
    ensures Decode(bytes, p, t, h, 0) == h
  {
  }

  // ---- size

  /** On codes of at most 16 bits, a token takes at most 16 bits for every byte that it stands for. */
  lemma TokenSize(t: Tree, k: Token, h: seq<byte>)
    requires Valid(t) && IsToken(k) && |Code(t, Symbol(k))| <= 16 && |h| >= N
    ensures |TokenBits(t, k)| <= 16 * (|Apply(h, k)| - |h|)
  {
  }

  lemma {:induction false} TokensSize(t: Tree, ks: seq<Token>, h: seq<byte>)
    requires Valid(t) && AreTokens(ks) && Fits(t, ks) && |h| >= N
    ensures |TokensBits(t, ks)| <= 16 * (|Expand(h, ks)| - |h|)
    decreases |ks|
  {
    if ks != [] {
      UpdateValid(t, Symbol(ks[0]));
      TokenSize(t, ks[0], h);
      TokensSize(Updated(t, Symbol(ks[0])), ks[1..], Apply(h, ks[0]));
    }
  }

  /** While the root weighs little, every code fits. */
  lemma {:induction false} FewTokensFit(t: Tree, ks: seq<Token>)
    requires Valid(t) && AreTokens(ks) && t.freq[R] + |ks| <= 4181
    ensures Fits(t, ks)
    decreases |ks|
  {
    if ks != [] {
      UpdateValid(t, Symbol(ks[0]));
      CodeLength(t, Symbol(ks[0]));
      FewTokensFit(Updated(t, Symbol(ks[0])), ks[1..]);
    }
  }
}
