/** lzh_encode of encode/lzh.c. */
module LzhEncoder {
  import opened Words
  import opened Parameters
  import opened RingBuffer
  import opened BitChannel
  import opened HuffmanTree
  import opened AdaptiveHuffman
  import opened HuffmanCode
  import opened Positions
  import opened Lzss
  import opened LzhWindow
  import opened LzhRoundTrip
  import opened LzhDecoder
  import opened SearchTree
  import opened SearchLinks
  import opened Matcher

  /** The coder after some tokens: the tree has followed them; what is certain to come out begins with the header
      and their bits, up to the first code of more than 16; and as long as there is none, that is all. */
  ghost predicate Coded(h: HuffmanArrays, bw: BitWriter, header: seq<byte>, ks: seq<Token>)
    reads h.freq, h.son, h.prnt, bw
  {
    && h.Shape() && AreTokens(ks) && Valid(Start()) && h.View() == AfterTokens(Start(), ks)
    && BytesBits(header) + SoundBits(Start(), ks) <= bw.Firm()
    && (Fits(Start(), ks) ==>
          bw.Valid() && bw.putlen < 8 && bw.Sent() == BytesBits(header) + TokensBits(Start(), ks))
  }

  /** One token is sent. */
  method Send(h: HuffmanArrays, bw: BitWriter, k: Token, ghost header: seq<byte>, ghost ks: seq<Token>)
    requires Coded(h, bw, header, ks) && IsToken(k)
    modifies bw, h.freq, h.son, h.prnt
    ensures Coded(h, bw, header, ks + [k])
    ensures old(bw.outbuf) <= bw.outbuf && |bw.outbuf| <= |old(bw.outbuf)| + (if k.Match? then 6 else 2)
  {
    hide HuffmanTree.Valid, Updated, Code, TokenBits, TokensBits, Fits, Start, Emitted, PositionBits, BytesBits, Pack,
      SoundBits, FirstEight, BitWriter.Firm;
    ghost var t, bits := h.View(), BytesBits(header) + SoundBits(Start(), ks);
    TokensSnoc(Start(), ks, k);
    SoundSnoc(Start(), ks, k);
    SoundFits(Start(), ks);
    SoundFits(Start(), ks + [k]);
    TokenBitsAre(t, k);
    match k {
      case Literal(b) =>
        EncodeChar(h, bw, b);
      case Match(len, pos) =>
        EncodeChar(h, bw, 255 - THRESHOLD + len);
        EncodePosition(bw, pos);
    }
    AllFirm(bw);
  }

  /** With fewer than eight bits pending, all that has been sent is certain to come out. */
  lemma AllFirm(bw: BitWriter)
    ensures bw.Valid() && bw.putlen < 8 ==> bw.Firm() == bw.Sent()
  {
  }

  /** A short code is sent as it is. */
  lemma TokenBitsAre(t: Tree, k: Token)
    requires Valid(t) && IsToken(k)
    ensures WellLinked(t)
    ensures |Code(t, Symbol(k))| <= 16 ==>
      TokenBits(t, k) == Emitted(Code(t, Symbol(k))) + (if k.Match? then PositionBits(k.pos) else [])
  {
    EmittedBits(Code(t, Symbol(k)));
  }

  /** The positions from lo up to hi are registered, and no others; of equal keys the lowest stays. */
  ghost predicate Preloaded(txt: seq<byte>, trees: seq<Bst>, lo: int, hi: int)
    requires IsText(txt) && |trees| == 256
  {
    && (forall x | 0 <= x < N && Registered(txt, trees, x) :: lo <= x < hi)
    && (forall y | 0 <= lo <= y < hi < N :: KeyKept(txt, trees, y))
    && (forall x, y | 0 <= lo <= y < x < N && Registered(txt, trees, x) :: !Agree(txt, y, x, F))
  }

  ghost predicate KeyKept(txt: seq<byte>, trees: seq<Bst>, y: int)
    requires IsText(txt) && |trees| == 256 && 0 <= y < N
  {
    exists z :: 0 <= z < N && Registered(txt, trees, z) && Agree(txt, y, z, F)
  }

  /** The buffer as lzh_encode sets it up: spaces, and then the first bytes of the input. */
  lemma LoadedText(txt: seq<byte>, inbuf: seq<byte>, len: int)
    requires IsText(txt) && 0 <= len <= F && len <= |inbuf|
    requires forall x | 0 <= x < N - F :: txt[x] == ' ' as int
    requires forall x | 0 <= x < len :: txt[N - F + x] == inbuf[x]
    ensures TextOk(txt, History(inbuf), N, N + len)
  {
    var w := History(inbuf);
    forall i | F <= i < N + len
      ensures Holds(txt, w, i)
    {
      if i < N {
        assert Pos(i) == i - F;
        assert Blank()[i] == ' ' as int;
      } else {
        assert Pos(i) == i - F == N - F + (i - N);
      }
    }
  }

  /** The buffer is filled with spaces and up to F bytes of the input. */
  method Load(win: TextWindow, inbuf: seq<byte>) returns (len: int)
    requires win.Shape()
    modifies win.text
    ensures 0 <= len <= F && len <= |inbuf| && (len < F ==> len == |inbuf|)
    ensures TextOk(win.text[..], History(inbuf), N, N + len)
  {
    for i := 0 to N - F
      invariant forall x | 0 <= x < i :: win.text[x] == ' ' as int
    {
      win.text[i] := ' ' as int;
    }
    len := 0;
    while len < F && len < |inbuf|
      invariant 0 <= len <= F && len <= |inbuf|
      invariant forall x | 0 <= x < N - F :: win.text[x] == ' ' as int
      invariant forall x | 0 <= x < len :: win.text[N - F + x] == inbuf[x]
    {
      win.text[N - F + len] := inbuf[len];
      len := len + 1;
    }
    LoadedText(win.text[..], inbuf, len);
  }

  /** The last F spaces are registered, the nearest first, and then the first byte. */
  method Register(win: TextWindow, ghost w: seq<byte>, ghost e: int)
    requires win.Shape() && TextOk(win.text[..], w, N, e)
    modifies win, win.lson, win.rson, win.dad
    ensures Ready(win, w, N, e, N - F, 0)
    ensures BestMatch(win.text[..], win.trees, N - F, N, win.matchLength, win.matchPosition)
  {
    ghost var txt := win.text[..];
    win.InitTree();
    var r := N - F;
    NoneRegistered(txt, win.View(), win.trees);
    var i := 1;
    while i <= F
      invariant 1 <= i <= F + 1 && win.Valid() && win.text[..] == txt
      invariant Preloaded(win.text[..], win.trees, r - i + 1, r)
      decreases F + 1 - i
    {
      RegisterOne(win, r - i, r);
      i := i + 1;
    }
    PreloadedReach(txt, win.trees, r);
    Enter(win, w, N, e, r, 0);
  }

  method RegisterOne(win: TextWindow, x: int, ghost r: int)
    requires win.Valid() && 0 <= x < r < N && Preloaded(win.text[..], win.trees, x + 1, r)
    modifies win`trees, win`matchLength, win`matchPosition, win.lson, win.rson, win.dad
    ensures win.Valid() && win.text[..] == old(win.text[..]) && Preloaded(win.text[..], win.trees, x, r)
  {
    hide Forest, Registered, Candidate, Covered, Ordered, Insert, Preloaded;
    ghost var txt, a, trees := win.text[..], win.View(), win.trees;
    Registration(txt, a, trees, x);
    NotYet(txt, trees, x, r);
    win.InsertNode(x);
    InsertedRegistered(txt, a, trees, x);
    assert win.text[..] == txt;
    assert win.trees == trees[txt[x] := Insert(txt, trees[txt[x]], x)];
    OneKey(txt, win.View(), win.trees, x);
    OneMore(txt, trees, win.trees, x, r);
  }

  /** No two registered positions have the same key. */
  lemma OneKey(txt: seq<byte>, a: Links, trees: seq<Bst>, x: int)
    requires Forest(txt, a, trees) && 0 <= x < N && Registered(txt, trees, x)
    ensures forall y | 0 <= y < N && Registered(txt, trees, y) && y != x :: !Agree(txt, x, y, F)
  {
    forall y | 0 <= y < N && Registered(txt, trees, y) && y != x
      ensures !Agree(txt, x, y, F)
    {
      assert Rooted(txt, a, trees, txt[x]);
      if Agree(txt, x, y, F) {
        assert Key(txt, x, 0) == Key(txt, y, 0);
        KeysDiffer(txt, trees[txt[x]], x, y);
        LcpUnique(txt, x, y, F);
      }
    }
  }

  lemma {:induction false} KeysDiffer(txt: seq<byte>, t: Bst, x: int, y: int)
    requires IsText(txt) && Ordered(txt, t) && x in Nodes(t) && y in Nodes(t) && x != y
    ensures 0 <= x < N && 0 <= y < N && Lcp(txt, x, y) < F
  {
    hide Lcp;
    OrderedDistinct(txt, t);
    var Node(l, z, r) := t;
    LessTotal(txt, x, y);
    if x in Nodes(l) && y in Nodes(l) {
      KeysDiffer(txt, l, x, y);
    } else if x in Nodes(r) && y in Nodes(r) {
      KeysDiffer(txt, r, x, y);
    } else if x in Nodes(l) && y in Nodes(r) {
      LessTransitive(txt, x, z, y);
    } else if y in Nodes(l) && x in Nodes(r) {
      LessTransitive(txt, y, z, x);
    }
  }

  lemma NotYet(txt: seq<byte>, trees: seq<Bst>, x: int, r: int)
    requires IsText(txt) && |trees| == 256 && 0 <= x < N && Preloaded(txt, trees, x + 1, r)
    ensures !Registered(txt, trees, x)
  {
  }

  lemma OneMore(txt: seq<byte>, trees: seq<Bst>, trees': seq<Bst>, x: int, r: int)
    requires IsText(txt) && |trees| == |trees'| == 256 && 0 <= x < r < N && Preloaded(txt, trees, x + 1, r)
    requires forall y | 0 <= y < N && Registered(txt, trees', y) :: Registered(txt, trees, y) || y == x
    requires Registered(txt, trees', x)
    requires forall y | 0 <= y < N && Registered(txt, trees, y) :: Registered(txt, trees', y) || Lcp(txt, x, y) == F
    requires forall y | 0 <= y < N && Registered(txt, trees', y) && y != x :: !Agree(txt, x, y, F)
    ensures Preloaded(txt, trees', x, r)
  {
    hide Registered, Lcp;
    forall y | x <= y < r
      ensures KeyKept(txt, trees', y)
    {
      if y == x {
        assert Registered(txt, trees', x) && Agree(txt, x, x, F);
      } else {
        assert KeyKept(txt, trees, y);
        var z :| 0 <= z < N && Registered(txt, trees, z) && Agree(txt, y, z, F);
        if Registered(txt, trees', z) {
          assert KeyKept(txt, trees', y);
        } else {
          SameCommon(txt, x, y, z);
          LcpSymmetric(txt, x, y);
          assert Registered(txt, trees', x) && Agree(txt, y, x, F);
        }
      }
    }
  }

  lemma NoneRegistered(txt: seq<byte>, a: Links, trees: seq<Bst>)
    requires Forest(txt, a, trees) && forall c | 0 <= c < 256 :: trees[c] == Leaf
    ensures forall x | 0 <= x < N :: !Registered(txt, trees, x)
  {
    forall x | 0 <= x < N
      ensures !Registered(txt, trees, x)
    {
      assert trees[txt[x]] == Leaf;
    }
  }

  lemma PreloadedReach(txt: seq<byte>, trees: seq<Bst>, r: int)
    requires IsText(txt) && |trees| == 256 && r == N - F && Preloaded(txt, trees, r - F, r)
    ensures Reachable(txt, trees, r, N) && !Registered(txt, trees, r) && r == Pos(N) && 0 == (r + F) % N
    ensures Remembered(txt, trees, r, N, N, N - F)
  {
    forall x | 0 <= x < N && Registered(txt, trees, x)
      ensures InReach(x, r, N)
    {
      assert (r - x) % N == r - x;
    }
    forall i | N - F <= i < N
      ensures Represented(txt, trees, r, N, i)
    {
      assert Pos(i) == i - F && KeyKept(txt, trees, i - F);
      var z :| 0 <= z < N && Registered(txt, trees, z) && Agree(txt, i - F, z, F);
      assert (r - z) % N == r - z;
      assert StandsFor(txt, trees, r, N, i, z);
    }
  }

  // ---- the main loop

  /** Token k, used at position c of the history, is as long as any repetition of what stands earlier in the window,
      the registered spaces included while all of them are in it, or than is worth a match. */
  ghost predicate LongestToken(w: seq<byte>, c: int, k: Token) {
    forall i, n | N - F <= i < c && c - Back(i) <= N - F && 0 <= n <= F && Repeats(w, i, c, n) ::
      n <= if k.Match? then k.len else THRESHOLD
  }

  /** All tokens are. */
  ghost predicate Greedy(w: seq<byte>, ks: seq<Token>)
    requires AreTokens(ks)
  {
    forall j | 0 <= j < |ks| :: LongestToken(w, |Expand(Blank(), ks[..j])|, ks[j])
  }

  lemma GreedySnoc(w: seq<byte>, ks: seq<Token>, k: Token)
    requires AreTokens(ks) && IsToken(k) && Greedy(w, ks) && LongestToken(w, |Expand(Blank(), ks)|, k)
    ensures Greedy(w, ks + [k])
  {
    hide LongestToken, Expand;
    var ks' := ks + [k];
    forall j | 0 <= j < |ks'|
      ensures LongestToken(w, |Expand(Blank(), ks'[..j])|, ks'[j])
    {
      assert ks'[..j] == ks[..j];
      if j == |ks| { assert ks[..j] == ks; }
    }
  }

  lemma ChosenLongest(txt: seq<byte>, w: seq<byte>, c: int, e: int, m: int, k: Token)
    requires TextOk(txt, w, c, e) && Longest(txt, Pos(c), c, m) && (e == c + F || e == |w|)
    requires k.Match? ==> THRESHOLD < k.len == if m > e - c then e - c else m
    requires k.Literal? ==> m <= THRESHOLD || e - c <= THRESHOLD
    ensures LongestToken(w, c, k)
  {
    forall i, n | N - F <= i < c && c - Back(i) <= N - F && 0 <= n <= F && Repeats(w, i, c, n)
      ensures n <= if k.Match? then k.len else THRESHOLD
    {
      NoLongerRepeat(txt, w, c, e, m, i, n);
    }
  }

  /** A literal, or the match found if it is long enough; matches do not run over the end of the input. */
  method Choose(win: TextWindow, ghost w: seq<byte>, ghost c: int, ghost e: int, r: int, ghost s: int, len: int)
    returns (k: Token)
    requires Ready(win, w, c, e, r, s) && len == e - c > 0
    requires BestMatch(win.text[..], win.trees, r, c, win.matchLength, win.matchPosition) && (len == F || e == |w|)
    modifies win`matchLength
    ensures Ready(win, w, c, e, r, s) && LongestToken(w, c, k)
    ensures k.Match? ==> NearestOnTheWay(win.text[..], win.trees, r, old(win.matchLength), k.pos)
    ensures IsToken(k) && 1 <= win.matchLength <= len && Apply(w[..c], k) == w[..c + win.matchLength]
  {
    hide Forest, Reachable, Ring, Longest, Remembered, LongestToken, NearestOnTheWay;
    ghost var m := win.matchLength;
    if win.matchLength > len {
      win.matchLength := len;
    }
    if win.matchLength <= THRESHOLD {
      win.matchLength := 1;
      k := Literal(win.text[r]);
      assert Holds(win.text[..], w, c);
    } else {
      k := Match(win.matchLength, win.matchPosition);
      MatchRepeats(win.text[..], w, c, e, k.pos, m, k.len);
      CopyIs(w, c, k.pos + 1, k.len);
    }
    ChosenLongest(win.text[..], w, c, e, m, k);
  }

  /** The window moves over last bytes, reading in as many as the input still has. */
  method Shift(win: TextWindow, inbuf: seq<byte>, ghost c0: int, last: int, r0: int, s0: int, incnt0: int, len0: int)
    returns (r: int, s: int, incnt: int, len: int)
    requires Ready(win, History(inbuf), c0, N + incnt0, r0, s0)
    requires len0 == N + incnt0 - c0 && 1 <= last <= len0 && incnt0 <= |inbuf| && (incnt0 < |inbuf| ==> len0 == F)
    requires Remembered(win.text[..], win.trees, r0, c0, c0 + 1, N - F)
    modifies win, win.text, win.lson, win.rson, win.dad
    ensures Ready(win, History(inbuf), c0 + last, N + incnt, r, s)
    ensures len == N + incnt - (c0 + last) && incnt0 <= incnt <= |inbuf| && (incnt < |inbuf| ==> len == F)
    ensures len > 0 ==> BestMatch(win.text[..], win.trees, r, c0 + last, win.matchLength, win.matchPosition)
  {
    hide Ready, Remembered, Longest, MatchInReach, NearestOnTheWay;
    ghost var w := History(inbuf);
    r, s, incnt, len := r0, s0, incnt0, len0;
    var i := 0;
    while i < last && incnt < |inbuf|
      invariant 0 <= i <= last && incnt0 <= incnt <= |inbuf| && Ready(win, w, c0 + i, N + incnt, r, s)
      invariant len == N + incnt - (c0 + i) && len == len0 && (incnt < |inbuf| ==> len == F)
      invariant i > 0 ==> BestMatch(win.text[..], win.trees, r, c0 + i, win.matchLength, win.matchPosition)
      invariant Remembered(win.text[..], win.trees, r, c0 + i, c0 + i + 1, N - F)
      decreases last - i
    {
      assert w[N..][incnt] == inbuf[incnt];
      r, s := ReadStep(win, w, c0 + i, N + incnt, r, s, inbuf[incnt]);
      incnt := incnt + 1;
      i := i + 1;
    }
    while i < last
      invariant 0 <= i <= last && incnt0 <= incnt <= |inbuf| && Ready(win, w, c0 + i, N + incnt, r, s)
      invariant len == N + incnt - (c0 + i) && (incnt < |inbuf| ==> i == last && len == F)
      invariant i > 0 && len > 0 ==> BestMatch(win.text[..], win.trees, r, c0 + i, win.matchLength, win.matchPosition)
      invariant len > 0 ==> Remembered(win.text[..], win.trees, r, c0 + i, c0 + i + 1, N - F)
      decreases last - i
    {
      i := i + 1;
      r, s, len := TailStep(win, w, c0 + i - 1, N + incnt, r, s, len);
    }
  }

  /** Everything that lzh_encode keeps from one token to the next. */
  ghost predicate Running(h: HuffmanArrays, bw: BitWriter, win: TextWindow, inbuf: seq<byte>, header: seq<byte>,
                          ks: seq<Token>, c: int, incnt: int, len: int, r: int, s: int)
    reads h.freq, h.son, h.prnt, bw, win, win.text, win.lson, win.rson, win.dad
  {
    && AreTokens(ks) && Coded(h, bw, header, ks)
    && N <= c <= |History(inbuf)| && Expand(Blank(), ks) == History(inbuf)[..c]
    && header <= bw.outbuf && |bw.outbuf| <= |header| + 2 * (c - N)
    && Ready(win, History(inbuf), c, N + incnt, r, s)
    && len == N + incnt - c && 0 <= incnt <= |inbuf| && (incnt < |inbuf| ==> len == F)
    && (len > 0 ==> BestMatch(win.text[..], win.trees, r, c, win.matchLength, win.matchPosition))
    && Greedy(History(inbuf), ks)
  }

  ghost predicate Apart(h: HuffmanArrays, win: TextWindow) {
    {h.freq, h.son, h.prnt} !! {win.lson, win.rson, win.dad}
  }

  method Round(h: HuffmanArrays, bw: BitWriter, win: TextWindow, inbuf: seq<byte>, ghost header: seq<byte>,
               ghost ks: seq<Token>, ghost c: int, incnt: int, len: int, r: int, s: int)
    returns (r': int, s': int, incnt': int, len': int, ghost ks': seq<Token>, ghost c': int)
    requires Apart(h, win) && Running(h, bw, win, inbuf, header, ks, c, incnt, len, r, s) && len > 0
    modifies bw, h.freq, h.son, h.prnt, win, win.text, win.lson, win.rson, win.dad
    ensures Running(h, bw, win, inbuf, header, ks', c', incnt', len', r', s') && c < c' <= N + |inbuf|
  {
    hide Coded, Ready, Longest, Remembered, MatchInReach, NearestOnTheWay, Greedy, LongestToken, Blank;
    ghost var w := History(inbuf);
    var k := Choose(win, w, c, N + incnt, r, s, len);
    Send(h, bw, k, header, ks);
    ExpandSnoc(Blank(), ks, k);
    GreedySnoc(w, ks, k);
    var last := win.matchLength;
    r', s', incnt', len' := Shift(win, inbuf, c, last, r, s, incnt, len);
    ks', c' := ks + [k], c + last;
  }

  /** The text has been compressed into outbuf, ks being the tokens chosen: they stand for the text, each as long as
      can be, and outbuf spells them, all of them or up to the first code of more than 16 bits. */
  ghost predicate Encodes(inbuf: seq<byte>, outbuf: seq<byte>, ks: seq<Token>)
    requires |inbuf| < 0x8000_0000
  {
    && Valid(Start()) && AreTokens(ks) && Spells(outbuf, inbuf, ks) && Greedy(History(inbuf), ks)
    && |outbuf| <= 2 * |inbuf| + 5
  }

  /** lzh_encode */
  method LzhEncode(inbuf: seq<byte>) returns (outbuf: seq<byte>)
    requires |inbuf| < 0x8000_0000
    ensures exists ks :: Encodes(inbuf, outbuf, ks)
    ensures Valid(Start())
    ensures ShortCodes(outbuf) ==> DecodesTo(outbuf, inbuf) && |outbuf| <= 4 + 2 * |inbuf|
    ensures |inbuf| <= 4181 - N_CHAR ==> ShortCodes(outbuf)
  {
    hide HuffmanTree.Valid, Running, TokensBits, SoundBits, Fits, BytesBits, Start, TextOk, BestMatch, Ready, Coded,
      Spells, Greedy,
      Expand, Blank, DecodesTo, ShortCodes, Header, BitWriter.Firm;
    StartValid();
    var header := Header(|inbuf|);
    ghost var tokens := [];
    if |inbuf| == 0 {
      EmptyText(inbuf);
      assert Encodes(inbuf, header, tokens);
      EncodedShort(inbuf, header, tokens);
      return header;
    }
    var h := new HuffmanArrays();
    h.StartHuff();
    var bw := new BitWriter(header);
    var win := new TextWindow();
    var len := Load(win, inbuf);
    var incnt, r, s := len, N - F, 0;
    Register(win, History(inbuf), N + len);
    ghost var c := N;
    CodingStarts(h, bw, win, inbuf, header, len, r, s);
    while true
      invariant Apart(h, win) && fresh(win.text) && len > 0 && c <= N + |inbuf|
      invariant Running(h, bw, win, inbuf, header, tokens, c, incnt, len, r, s)
      decreases N + |inbuf| - c
    {
      r, s, incnt, len, tokens, c := Round(h, bw, win, inbuf, header, tokens, c, incnt, len, r, s);
      if len <= 0 {
        break;
      }
    }
    CodingEnds(h, bw, win, inbuf, header, tokens, c, incnt, len, r, s);
    ghost var firm, sent := bw.Firm(), bw.Sent();
    bw.EncodeEnd();
    outbuf := bw.outbuf;
    IsSpelled(outbuf, inbuf, tokens, firm, sent);
    assert Encodes(inbuf, outbuf, tokens);
    EncodedShort(inbuf, outbuf, tokens);
  }

  lemma EmptyText(inbuf: seq<byte>)
    requires inbuf == [] && Valid(Start())
    ensures Spells(Header(0), inbuf, []) && Greedy(History(inbuf), [])
  {
    hide HuffmanTree.Valid, Start;
  }

  lemma IsSpelled(outbuf: seq<byte>, inbuf: seq<byte>, ks: seq<Token>, firm: seq<bool>, sent: seq<bool>)
    requires |inbuf| < 0x8000_0000 && Valid(Start()) && AreTokens(ks) && Expand(Blank(), ks) == History(inbuf)
    requires Header(|inbuf|) <= outbuf &&
      BytesBits(Header(|inbuf|)) + SoundBits(Start(), ks) <= firm <= BytesBits(outbuf)
    requires Fits(Start(), ks) ==>
      sent == BytesBits(Header(|inbuf|)) + TokensBits(Start(), ks) && 8 * |outbuf| < |sent| + 8 &&
      ZeroFrom(BytesBits(outbuf), |sent|)
    ensures Spells(outbuf, inbuf, ks)
  {
    hide HuffmanTree.Valid, Start, SoundBits, TokensBits, BytesBits, Fits, Expand, Header, Blank;
    SoundFits(Start(), ks);
  }

  /** What follows for the decoder, whichever the tokens are. */
  lemma EncodedShort(inbuf: seq<byte>, outbuf: seq<byte>, ks: seq<Token>)
    requires |inbuf| < 0x8000_0000 && Encodes(inbuf, outbuf, ks)
    ensures ShortCodes(outbuf) ==> DecodesTo(outbuf, inbuf) && |outbuf| <= 4 + 2 * |inbuf|
    ensures |inbuf| <= 4181 - N_CHAR ==> ShortCodes(outbuf)
  {
    hide HuffmanTree.Valid, Start, ShortCodes, DecodesTo, Fits, Greedy, Expand, SoundBits, SoundTokens, Blank, Header,
      Decoded;
    SpelledShort(outbuf, inbuf, ks);
    SpelledDecodes(outbuf, inbuf, ks);
    if Fits(Start(), ks) { SpelledSize(outbuf, inbuf, ks); }
    if |inbuf| <= 4181 - N_CHAR { ShortTextFits(inbuf, ks); }
  }

  lemma CodingStarts(h: HuffmanArrays, bw: BitWriter, win: TextWindow, inbuf: seq<byte>, header: seq<byte>,
                     len: int, r: int, s: int)
    requires h.Shape() && Valid(Start()) && h.View() == Start()
    requires bw.Valid() && bw.putlen == 0 && bw.outbuf == header && bw.Sent() == BytesBits(header)
    requires 0 <= len <= F && len <= |inbuf| && (len < F ==> len == |inbuf|)
    requires Ready(win, History(inbuf), N, N + len, r, s)
    requires BestMatch(win.text[..], win.trees, r, N, win.matchLength, win.matchPosition)
    ensures Running(h, bw, win, inbuf, header, [], N, len, len, r, s)
  {
    hide HuffmanTree.Valid, Start, BytesBits, Ready, BestMatch;
  }

  lemma CodingEnds(h: HuffmanArrays, bw: BitWriter, win: TextWindow, inbuf: seq<byte>, header: seq<byte>,
                   ks: seq<Token>, c: int, incnt: int, len: int, r: int, s: int)
    requires Running(h, bw, win, inbuf, header, ks, c, incnt, len, r, s) && len <= 0
    ensures AreTokens(ks) && Expand(Blank(), ks) == History(inbuf) && Valid(Start()) && Greedy(History(inbuf), ks)
    ensures header <= bw.outbuf && |bw.outbuf| <= |header| + 2 * |inbuf|
    ensures BytesBits(header) + SoundBits(Start(), ks) <= bw.Firm()
    ensures Fits(Start(), ks) ==>
      bw.Valid() && bw.putlen < 8 && bw.Sent() == BytesBits(header) + TokensBits(Start(), ks)
  {
    hide HuffmanTree.Valid, Start, BytesBits, BestMatch, Fits, TokensBits, Greedy;
  }
}
