/** lzh_encode_char and lzh_decode_char of encode/lzh.c: the code of a symbol is its path in the tree, and the
    sibling property bounds its length. */
module HuffmanCode {
  import opened Words
  import opened BitChannel
  import opened HuffmanTree
  import opened AdaptiveHuffman

  ghost predicate WellLinked(t: Tree)
    ensures WellLinked(t) ==> |t.freq| == |t.son| == T + 1 && |t.prnt| == T + N_CHAR
  {
    Sized(t) && Linked(t.son, t.prnt)
  }

  /** The branches from the root down to node k, true for the odd son. */
  ghost function Path(t: Tree, k: int): (bits: seq<bool>)
    requires WellLinked(t) && 0 <= k <= R
    decreases R - k
  {
    if k == R then []
    else
      ParentAbove(t.son, t.prnt, k);
      Path(t, t.prnt[k]) + [k % 2 == 1]
  }

  ghost function Code(t: Tree, s: int): seq<bool>
    requires WellLinked(t) && 0 <= s < N_CHAR
  {
    Path(t, t.prnt[s + T])
  }

  /** Following the bits from position p, with c the son field of the node reached: the symbol found and the
      position behind its code. */
  ghost function Descend(t: Tree, c: int, bytes: seq<byte>, p: nat): (r: (int, nat))
    requires WellLinked(t) && 0 <= c < T + N_CHAR && c != T - 1
    ensures 0 <= r.0 < N_CHAR && p <= r.1
    decreases if c >= T then 0 else c + 1
  {
    if c >= T then (c - T, p)
    else
      var x := c + if BitAt(bytes, p) then 1 else 0;
      assert Points(x, t.son[x]);
      Descend(t, t.son[x], bytes, p + 1)
  }

  ghost function DecodeSymbol(t: Tree, bytes: seq<byte>, p: nat): (r: (int, nat))
    requires WellLinked(t)
    ensures 0 <= r.0 < N_CHAR && p <= r.1
  {
    assert Points(R, t.son[R]);
    Descend(t, t.son[R], bytes, p)
  }

  /** The bits stand in the stream at position p. */
  ghost predicate Stands(bits: seq<bool>, bytes: seq<byte>, p: nat) {
    forall m | 0 <= m < |bits| :: bits[m] == BitAt(bytes, p + m)
  }

  lemma StandsConcat(a: seq<bool>, b: seq<bool>, bytes: seq<byte>, p: nat)
    ensures Stands(a + b, bytes, p) <==> Stands(a, bytes, p) && Stands(b, bytes, p + |a|)
  {
    if Stands(a + b, bytes, p) {
      forall m | 0 <= m < |a|
        ensures a[m] == BitAt(bytes, p + m)
      {
        assert (a + b)[m] == a[m];
      }
      forall m | 0 <= m < |b|
        ensures b[m] == BitAt(bytes, p + |a| + m)
      {
        assert (a + b)[|a| + m] == b[m];
      }
    }
  }

  /** The links around node k. */
  lemma Around(t: Tree, k: int)
    requires WellLinked(t) && 0 <= k <= R
    ensures Points(k, t.son[k]) && t.prnt[t.son[k]] == k
    ensures k < R ==> k < t.prnt[k] <= R && t.son[t.prnt[k]] == Base(k)
    ensures t.son[k] < T ==> t.son[k] + 1 < k && t.prnt[t.son[k]] == t.prnt[t.son[k] + 1] == k
  {
    assert Points(k, t.son[k]);
    if k < R { ParentAbove(t.son, t.prnt, k); }
    if t.son[k] < T {
      var x := t.son[k] + 1;
      assert t.son[t.prnt[x]] == Base(x) == t.son[k];
      assert t.prnt[t.son[t.prnt[x]]] == t.prnt[x];
    }
  }

  lemma DescendStep(t: Tree, k: int, bytes: seq<byte>, p: nat)
    requires WellLinked(t) && 0 <= k <= R && t.son[k] < T
    ensures var x := t.son[k] + if BitAt(bytes, p) then 1 else 0;
      0 <= x < k && Points(x, t.son[x]) && Points(k, t.son[k]) &&
        Descend(t, t.son[k], bytes, p) == Descend(t, t.son[x], bytes, p + 1)
  {
    Around(t, k);
    var x := t.son[k] + if BitAt(bytes, p) then 1 else 0;
    assert Points(x, t.son[x]);
  }

  /** The path of a node leads the decoder to that node. */
  lemma {:induction false} PathLeads(t: Tree, k: int, bytes: seq<byte>, p: nat)
    requires WellLinked(t) && 0 <= k <= R && Stands(Path(t, k), bytes, p)
    ensures Points(k, t.son[k])
    ensures DecodeSymbol(t, bytes, p) == Descend(t, t.son[k], bytes, p + |Path(t, k)|)
    decreases R - k
  {
    hide WellLinked, Linked, Descend, Stands, BitAt;
    Around(t, k);
    if k < R {
      var q := t.prnt[k];
      StandsConcat(Path(t, q), [k % 2 == 1], bytes, p);
      StandsOne(k % 2 == 1, bytes, p + |Path(t, q)|);
      PathLeads(t, q, bytes, p);
      DescendStep(t, q, bytes, p + |Path(t, q)|);
    }
  }

  lemma StandsOne(bit: bool, bytes: seq<byte>, p: nat)
    ensures Stands([bit], bytes, p) <==> bit == BitAt(bytes, p)
  {
    if Stands([bit], bytes, p) { assert [bit][0] == BitAt(bytes, p + 0); }
  }

  /** The code of a symbol, put at the read position, is decoded to that symbol and consumed. */
  lemma CodeDecodes(t: Tree, s: int, bytes: seq<byte>, p: nat)
    requires WellLinked(t) && 0 <= s < N_CHAR && Stands(Code(t, s), bytes, p)
    ensures DecodeSymbol(t, bytes, p) == (s, p + |Code(t, s)|)
  {
    var k := t.prnt[s + T];
    assert t.son[k] == Base(s + T) == s + T;
    PathLeads(t, k, bytes, p);
  }

  /** Whatever is decoded, its code is what has been read. */
  lemma {:induction false} DescendReads(t: Tree, k: int, bytes: seq<byte>, p: nat, start: nat)
    requires WellLinked(t) && 0 <= k <= R && start + |Path(t, k)| == p && Stands(Path(t, k), bytes, start)
    ensures Points(k, t.son[k])
    ensures var r := Descend(t, t.son[k], bytes, p);
      Stands(Code(t, r.0), bytes, start) && r.1 == start + |Code(t, r.0)|
    decreases k
  {
    hide WellLinked, Linked, Descend, Stands, BitAt;
    Around(t, k);
    if t.son[k] < T {
      var x := t.son[k] + if BitAt(bytes, p) then 1 else 0;
      Around(t, x);
      StandsConcat(Path(t, k), [x % 2 == 1], bytes, start);
      StandsOne(x % 2 == 1, bytes, p);
      DescendStep(t, k, bytes, p);
      DescendReads(t, x, bytes, p + 1, start);
    } else {
      LeafFound(t, t.son[k], bytes, p);
    }
  }

  lemma LeafFound(t: Tree, c: int, bytes: seq<byte>, p: nat)
    requires WellLinked(t) && T <= c < T + N_CHAR
    ensures Descend(t, c, bytes, p) == (c - T, p)
  {
  }

  lemma DecodeReads(t: Tree, bytes: seq<byte>, p: nat)
    requires WellLinked(t)
    ensures var r := DecodeSymbol(t, bytes, p);
      Stands(Code(t, r.0), bytes, p) && r.1 == p + |Code(t, r.0)|
  {
    DescendReads(t, R, bytes, p, p);
  }

  // ---- the height bound

  function Fib(n: nat): nat {
    if n < 2 then n else Fib(n - 1) + Fib(n - 2)
  }

  /** The node h levels above x. */
  ghost function Ancestor(t: Tree, x: int, h: nat): (y: int)
    requires WellLinked(t) && 0 <= x <= R && h <= |Path(t, x)|
    ensures 0 <= y <= R
    decreases h
  {
    if h == 0 then x
    else
      ParentAbove(t.son, t.prnt, x);
      Ancestor(t, t.prnt[x], h - 1)
  }

  lemma {:induction false} RootAbove(t: Tree, x: int)
    requires WellLinked(t) && 0 <= x <= R
    ensures Ancestor(t, x, |Path(t, x)|) == R
    decreases R - x
  {
    if x < R {
      ParentAbove(t.son, t.prnt, x);
      RootAbove(t, t.prnt[x]);
    }
  }

  /** A node and its sibling weigh as much as their parent, and the sibling is no lighter than any node below the
      pair. */
  lemma ParentWeight(t: Tree, x: int)
    requires Valid(t) && 0 <= x < R
    ensures x < t.prnt[x] <= R
    ensures t.freq[t.prnt[x]] >= t.freq[x] + 1
    ensures x > 0 ==> t.freq[t.prnt[x]] >= t.freq[x] + t.freq[x - 1]
  {
    ParentAbove(t.son, t.prnt, x);
    var p := t.prnt[x];
    assert SummedAt(t, -1, p) && t.son[p] == Base(x);
    var s := t.son[p];
    assert t.freq[p] == t.freq[s] + t.freq[s + 1];
  }

  lemma {:induction false} Climb(t: Tree, x: int, below: int, g: nat, h: nat)
    requires Valid(t) && 0 <= x <= R && h <= |Path(t, x)|
    requires t.freq[x] >= Fib(g + 2)
    requires g > 0 ==> 0 <= below < x && t.freq[below] >= Fib(g + 1)
    ensures t.freq[Ancestor(t, x, h)] >= Fib(g + h + 2)
    decreases h
  {
    if h > 0 {
      ParentWeight(t, x);
      var p := t.prnt[x];
      assert t.freq[p] >= Fib(g + 3) by {
        assert Fib(g + 3) == Fib(g + 2) + Fib(g + 1);
        if g > 0 { assert t.freq[below] <= t.freq[x - 1]; }
      }
      Climb(t, p, x, g + 1, h - 1);
    }
  }

  /** A node of height h weighs at least Fib(h + 2). */
  lemma HeightBound(t: Tree, x: int, h: nat)
    requires Valid(t) && 0 <= x <= R && h <= |Path(t, x)|
    ensures t.freq[Ancestor(t, x, h)] >= Fib(h + 2)
  {
    Climb(t, x, 0, 0, h);
  }

  lemma {:induction false} FibMonotone(a: nat, b: nat)
    requires a <= b
    ensures Fib(a) <= Fib(b)
    decreases b
  {
    if a < b {
      FibMonotone(a, b - 1);
    }
  }

  lemma FibValues()
    ensures Fib(19) == 4181 && Fib(24) == 46368
  {
    assert Fib(8) == 21 && Fib(9) == 34;
    assert Fib(13) == 233 && Fib(14) == 377;
    assert Fib(18) == 2584 && Fib(19) == 4181;
    assert Fib(23) == 28657 && Fib(24) == 46368;
  }

  /** No code has more than 21 bits, and none more than 16 while the root weighs less than 4181. */
  lemma CodeLength(t: Tree, s: int)
    requires Valid(t) && 0 <= s < N_CHAR
    ensures Fib(|Code(t, s)| + 2) <= t.freq[R]
    ensures 1 <= |Code(t, s)| <= 21
    ensures t.freq[R] < 4181 ==> |Code(t, s)| <= 16
  {
    var x, n := t.prnt[s + T], |Code(t, s)|;
    assert t.son[x] == Base(s + T) == s + T;
    HeightBound(t, x, n);
    RootAbove(t, x);
    FibValues();
    if n > 21 { FibMonotone(24, n + 2); }
    if n > 16 { FibMonotone(19, n + 2); }
    assert Points(R, t.son[R]);
    SonOfRoot(t);
  }

  lemma SonOfRoot(t: Tree)
    requires WellLinked(t)
    ensures t.son[R] == R - 2
  {
    ParentAbove(t.son, t.prnt, R - 1);
    var p := t.prnt[R - 1];
    assert t.son[p] == Base(R - 1);
  }

  // ---- codes of more than 16 bits

  /** What the 16-bit word of lzh_encode_char keeps of a code: past the sixteenth bit only zeros are sent. */
  function Emitted(code: seq<bool>): seq<bool> {
    Top(Pack(code), |code|)
  }

  lemma EmittedBits(code: seq<bool>)
    ensures |Emitted(code)| == |code|
    ensures forall m | 0 <= m < |code| :: Emitted(code)[m] == (m < 16 && code[m])
    ensures ZeroFrom(code, 16) <==> Emitted(code) == code
  {
    var cut := seq(|code|, m requires 0 <= m < |code| => m < 16 && code[m]);
    PackAgree(code, cut, 16);
    assert Shr(Pack(code), 0) == Pack(code) && Shr(Pack(cut), 0) == Pack(cut);
    TopPack(cut);
  }

  /** What is sent for a symbol is decoded to that symbol exactly when its code has only zeros past the sixteenth
      bit. */
  lemma SurvivesIff(t: Tree, s: int, bytes: seq<byte>, p: nat)
    requires WellLinked(t) && 0 <= s < N_CHAR && Stands(Emitted(Code(t, s)), bytes, p)
    ensures DecodeSymbol(t, bytes, p).0 == s <==> ZeroFrom(Code(t, s), 16)
  {
    hide Emitted, WellLinked, DecodeSymbol, Code;
    var code := Code(t, s);
    EmittedBits(code);
    if ZeroFrom(code, 16) {
      CodeDecodes(t, s, bytes, p);
    } else if DecodeSymbol(t, bytes, p).0 == s {
      DecodeReads(t, bytes, p);
      StandsUnique(Emitted(code), code, bytes, p);
    }
  }

  lemma StandsUnique(a: seq<bool>, b: seq<bool>, bytes: seq<byte>, p: nat)
    requires |a| == |b| && Stands(a, bytes, p) && Stands(b, bytes, p)
    ensures a == b
  {
  }

  /** Some symbol lies below every node. */
  lemma {:induction false} LeafBelow(t: Tree, y: int) returns (s: int)
    requires WellLinked(t) && 0 <= y <= R
    ensures 0 <= s < N_CHAR && Path(t, y) <= Code(t, s)
    decreases y
  {
    assert Points(y, t.son[y]) && t.prnt[t.son[y]] == y;
    if t.son[y] >= T {
      s := t.son[y] - T;
    } else {
      s := LeafBelow(t, t.son[y]);
    }
  }

  lemma {:induction false} AncestorPath(t: Tree, x: int, h: nat)
    requires WellLinked(t) && 0 <= x <= R && h <= |Path(t, x)|
    ensures Path(t, Ancestor(t, x, h)) == Path(t, x)[..|Path(t, x)| - h]
    decreases h
  {
    if h > 0 {
      ParentAbove(t.son, t.prnt, x);
      AncestorPath(t, t.prnt[x], h - 1);
    }
  }

  lemma {:induction false} PathInjective(t: Tree, x: int, y: int)
    requires WellLinked(t) && 0 <= x <= R && 0 <= y <= R && Path(t, x) == Path(t, y)
    ensures x == y
    decreases R - x
  {
    hide WellLinked;
    Around(t, x);
    Around(t, y);
    if x < R && y < R {
      var px, py := Path(t, x), Path(t, y);
      assert px[..|px| - 1] == Path(t, t.prnt[x]) && py[..|py| - 1] == Path(t, t.prnt[y]);
      PathInjective(t, t.prnt[x], t.prnt[y]);
      assert (x % 2 == 1) == px[|px| - 1] == py[|py| - 1] == (y % 2 == 1);
      SamePair(x, y);
    }
  }

  lemma SamePair(x: int, y: int)
    requires Base(x) == Base(y) && (x % 2 == 1) == (y % 2 == 1)
    ensures x == y
  {
  }

  /** No code is the beginning of another. */
  lemma CodesPrefixFree(t: Tree, s: int, s': int)
    requires WellLinked(t) && 0 <= s < N_CHAR && 0 <= s' < N_CHAR && Code(t, s) <= Code(t, s')
    ensures s == s'
  {
    LeafParent(t, s);
    LeafParent(t, s');
    var x, y := t.prnt[s + T], t.prnt[s' + T];
    var h := |Path(t, y)| - |Path(t, x)|;
    AncestorPath(t, y, h);
    PathInjective(t, Ancestor(t, y, h), x);
    if h > 0 { InnerAncestor(t, y, h); }
  }

  lemma LeafParent(t: Tree, s: int)
    requires WellLinked(t) && 0 <= s < N_CHAR
    ensures 0 <= t.prnt[s + T] <= R && t.son[t.prnt[s + T]] == s + T
  {
    assert t.son[t.prnt[s + T]] == Base(s + T);
  }

  lemma {:induction false} InnerAncestor(t: Tree, x: int, h: nat)
    requires WellLinked(t) && 0 <= x <= R && 0 < h <= |Path(t, x)|
    ensures t.son[Ancestor(t, x, h)] < T
    decreases h
  {
    hide WellLinked;
    Around(t, x);
    if h > 1 { InnerAncestor(t, t.prnt[x], h - 1); }
  }

  /** Where the first 16 bits of a longer code stand, the decoder reads some code of more than 16 bits. */
  lemma LongCodeRead(t: Tree, s: int, bytes: seq<byte>, p: nat)
    requires WellLinked(t) && 0 <= s < N_CHAR && |Code(t, s)| > 16 && Stands(Code(t, s)[..16], bytes, p)
    ensures |Code(t, DecodeSymbol(t, bytes, p).0)| > 16
  {
    hide WellLinked, DecodeSymbol, Code, Stands;
    DecodeReads(t, bytes, p);
    var s', code := DecodeSymbol(t, bytes, p).0, Code(t, s);
    if |Code(t, s')| <= 16 {
      var n := |Code(t, s')|;
      assert code[..16] == code[..n] + code[n..16];
      StandsConcat(code[..n], code[n..16], bytes, p);
      StandsUnique(code[..n], Code(t, s'), bytes, p);
      CodesPrefixFree(t, s', s);
    }
  }

  /** A code of more than 16 bits has a neighbour with a one past the sixteenth. */
  lemma LongCodeBreaks(t: Tree, s: int) returns (s': int)
    requires WellLinked(t) && 0 <= s < N_CHAR && |Code(t, s)| > 16
    ensures 0 <= s' < N_CHAR && !ZeroFrom(Code(t, s'), 16)
  {
    var h := |Code(t, s)| - 17;
    var x := Ancestor(t, t.prnt[s + T], h);
    AncestorPath(t, t.prnt[s + T], h);
    assert |Path(t, x)| == 17;
    ParentAbove(t.son, t.prnt, x);
    var y := Base(x) + 1;
    assert t.son[t.prnt[x]] == Base(x) == Base(y) == t.son[t.prnt[y]];
    assert t.prnt[t.son[t.prnt[x]]] == t.prnt[x] && t.prnt[t.son[t.prnt[y]]] == t.prnt[y];
    assert |Path(t, y)| == 17 && Path(t, y)[16];
    s' := LeafBelow(t, y);
    assert Code(t, s')[16] == Path(t, y)[16];
  }

  /** What is sent for a symbol is decoded to it, wherever it is read. */
  ghost predicate Survives(t: Tree, s: int)
    requires WellLinked(t) && 0 <= s < N_CHAR
  {
    forall bytes, p | Stands(Emitted(Code(t, s)), bytes, p) :: DecodeSymbol(t, bytes, p).0 == s
  }

  /** Where one code is longer than 16 bits, some symbol is lost. */
  lemma SymbolLost(t: Tree, s: int) returns (s': int)
    requires WellLinked(t) && 0 <= s < N_CHAR && |Code(t, s)| > 16
    ensures 0 <= s' < N_CHAR && !Survives(t, s')
  {
    hide WellLinked, Code, DecodeSymbol, Emitted, Stands;
    s' := LongCodeBreaks(t, s);
    var bytes := SomewhereSent(Code(t, s'));
    SurvivesIff(t, s', bytes, 0);
  }

  /** All symbols of a tree survive exactly when no code is longer than 16 bits. */
  lemma AllSurviveIff(t: Tree)
    requires WellLinked(t)
    ensures (forall s | 0 <= s < N_CHAR :: Survives(t, s)) <==> (forall s | 0 <= s < N_CHAR :: |Code(t, s)| <= 16)
  {
    hide WellLinked, Code, DecodeSymbol, Emitted, Stands;
    if s :| 0 <= s < N_CHAR && |Code(t, s)| > 16 {
      var s' := SymbolLost(t, s);
    } else {
      forall s | 0 <= s < N_CHAR
        ensures Survives(t, s)
      {
        forall bytes, p | Stands(Emitted(Code(t, s)), bytes, p)
          ensures DecodeSymbol(t, bytes, p).0 == s
        {
          SurvivesIff(t, s, bytes, p);
        }
      }
    }
  }

  /** Some bytes in which a code stands as it is sent. */
  lemma SomewhereSent(code: seq<bool>) returns (bytes: seq<byte>)
    requires !ZeroFrom(code, 16)
    ensures Stands(Emitted(code), bytes, 0)
  {
    hide Emitted, Pack, ByteBits;
    EmittedBits(code);
    HighByte(code);
    LowByte(code);
    bytes := [Pack(code) / 0x100, Pack(code) % 0x100];
    forall m | 0 <= m < |code|
      ensures Emitted(code)[m] == BitAt(bytes, 0 + m)
    {
      if 8 <= m < 16 { assert code[8..16][m - 8] == code[m]; }
    }
  }

  // ---- the methods

  lemma CodeAligned(code: seq<bool>)
    ensures |code| <= 16 ==> LowZero(Pack(code), 16 - |code|)
  {
    if |code| <= 16 {
      PackAligned(code, |code|);
    }
  }

  lemma ValidLinked(t: Tree)
    requires Valid(t)
    ensures WellLinked(t)
  {
  }

  /** lzh_encode_char */
  method EncodeChar(h: HuffmanArrays, w: BitWriter, c: int)
    requires h.Shape() && Valid(h.View()) && 0 <= c < N_CHAR
    modifies w, h.freq, h.son, h.prnt
    ensures h.View() == Updated(old(h.View()), c) && Valid(h.View())
    ensures old(w.Valid()) && old(w.putlen) < 8 ==>
              w.Valid() && w.Sent() == old(w.Sent()) + Emitted(Code(old(h.View()), c))
    ensures old(w.putlen) < 8 && |Code(old(h.View()), c)| <= 16 ==> w.putlen < 8
    ensures old(w.outbuf) <= w.outbuf && |w.outbuf| <= |old(w.outbuf)| + 2
    ensures old(w.Firm()) <= w.Firm()
    ensures old(w.Valid()) && old(w.putlen) < 8 && |Code(old(h.View()), c)| > 16 ==>
              old(w.Sent()) + Code(old(h.View()), c)[..16] <= w.Firm()
  {
    hide HuffmanTree.Valid, WellLinked, Code, Pack, Top, LowZero, Updated, BytesBits, FirstEight;
    ValidLinked(h.View());
    CodeLength(h.View(), c);
    CodeAligned(Code(h.View(), c));
    ghost var code, sent, out, p := Code(h.View(), c), w.Sent(), |w.outbuf|, w.putlen;
    ghost var ready := w.Valid() && w.putlen < 8 && |code| > 16;
    var i, j := GatherCode(h, c);
    w.PutCode(j, i);
    if ready { LongCodeFirm(w, code, sent, out, p); }
    h.Update(c);
  }

  /** Of a code of more than 16 bits, the first 16 are certain to come out. */
  lemma LongCodeFirm(w: BitWriter, code: seq<bool>, sent: seq<bool>, out: nat, p: nat)
    requires w.Valid() && |code| > 16 && p < 8 && |sent| == 8 * out + p && |w.outbuf| == out + 2
    requires w.Sent() == sent + Emitted(code)
    ensures sent + code[..16] <= w.Firm()
  {
    hide Pack, Emitted, BytesBits;
    EmittedBits(code);
    assert Emitted(code)[..16] == code[..16];
    assert sent + code[..16] <= w.Sent();
  }

  /** The climb from the leaf to the root: j bits, left-aligned in the 16-bit word i. */
  method GatherCode(h: HuffmanArrays, c: int) returns (i: nat, j: nat)
    requires h.Shape() && WellLinked(h.View()) && 0 <= c < N_CHAR
    ensures j == |Code(h.View(), c)| && i == Pack(Code(h.View(), c))
  {
    ghost var t := h.View();
    i, j := 0, 0;
    ghost var tail: seq<bool> := [];
    var k := h.prnt[c + T];
    ClimbStart(t, c);
    while true
      invariant 0 <= k < R && j == |tail| && i == Pack(tail)
      invariant Code(t, c) == Path(t, k) + tail
      decreases R - k
    {
      PathStep(t, k, tail);
      tail := [k % 2 == 1] + tail;
      i := i / 2;
      if k % 2 == 1 {
        i := i + 0x8000;
      }
      j := j + 1;
      k := h.prnt[k];
      if k == R {
        break;
      }
    }
  }

  lemma ClimbStart(t: Tree, c: int)
    requires WellLinked(t) && 0 <= c < N_CHAR
    ensures 0 <= t.prnt[c + T] < R
  {
    SonOfRoot(t);
    assert t.son[t.prnt[c + T]] == Base(c + T);
  }

  lemma PathStep(t: Tree, k: int, tail: seq<bool>)
    requires WellLinked(t) && 0 <= k < R
    ensures k < t.prnt[k] <= R
    ensures Path(t, k) + tail == Path(t, t.prnt[k]) + ([k % 2 == 1] + tail)
    ensures Path(t, R) + tail == tail
  {
    ParentAbove(t.son, t.prnt, k);
  }

  /** The son field of a node is that of a leaf, where the descent ends, or of a pair; at the root it begins. */
  lemma DescendFrom(t: Tree, k: int, bytes: seq<byte>, p: nat)
    requires WellLinked(t) && 0 <= k <= R
    ensures 0 <= t.son[k] < T + N_CHAR && t.son[k] != T - 1
    ensures t.son[k] >= T ==> Descend(t, t.son[k], bytes, p) == (t.son[k] - T, p)
    ensures k == R ==> Descend(t, t.son[k], bytes, p) == DecodeSymbol(t, bytes, p)
  {
    assert Points(k, t.son[k]);
  }

  /** lzh_decode_char */
  method DecodeChar(h: HuffmanArrays, r: BitReader) returns (c: int)
    requires h.Shape() && Valid(h.View()) && r.Valid()
    modifies r, h.freq, h.son, h.prnt
    ensures r.Valid() && 0 <= c < N_CHAR
    ensures (c, r.pos) == DecodeSymbol(old(h.View()), r.inbuf, old(r.pos))
    ensures h.View() == Updated(old(h.View()), c) && Valid(h.View())
  {
    hide Valid, WellLinked, Linked, BitReader.Valid, BitAt, Updated, Descend, DecodeSymbol;
    ghost var t, k := h.View(), R;
    ValidLinked(t);
    c := h.son[R];
    DescendFrom(t, R, r.inbuf, r.pos);
    while c < T
      invariant 0 <= k <= R && c == t.son[k] && 0 <= c < T + N_CHAR && c != T - 1
      invariant r.Valid() && h.View() == t
      invariant Descend(t, c, r.inbuf, r.pos) == DecodeSymbol(t, r.inbuf, old(r.pos))
      decreases k
    {
      DescendStep(t, k, r.inbuf, r.pos);
      var bit := r.GetBit();
      c := c + if bit then 1 else 0;
      k := c;
      c := h.son[c];
      DescendFrom(t, k, r.inbuf, r.pos);
    }
    DescendFrom(t, k, r.inbuf, r.pos);
    c := c - T;
    h.Update(c);
  }
}
