/** The moving window of lzh_encode: which part of the input the text buffer holds, which positions are
    registered in the search trees, and why a match found there repeats the input. */
module LzhWindow {
  import opened Words
  import opened Parameters
  import opened RingBuffer
  import opened SearchTree
  import opened SearchLinks
  import opened Matcher

  /** Byte i of the history w stands in the buffer, and in its mirrored tail once it has been read in there. */
  ghost predicate Holds(txt: seq<byte>, w: seq<byte>, i: int)
    requires IsText(txt) && 0 <= i < |w|
  {
    txt[Pos(i)] == w[i] && (i >= N + F && Pos(i) < F - 1 ==> txt[Pos(i) + N] == w[i])
  }

  /** The buffer holds the history from N - F bytes before c up to e; c is the next byte to be coded. */
  ghost predicate TextOk(txt: seq<byte>, w: seq<byte>, c: int, e: int)
    ensures TextOk(txt, w, c, e) ==> IsText(txt) && N <= c <= e <= |w| && e <= c + F
  {
    && IsText(txt) && N <= c <= e <= |w| && e <= c + F
    && forall i | c - (N - F) <= i < e :: Holds(txt, w, i)
  }

  /** Position x lies at most N - F bytes behind r, where byte c goes, and not before the initial spaces that are
      registered. */
  ghost predicate InReach(x: int, r: int, c: int) {
    (r - x) % N <= N - F && c - (r - x) % N >= N - F
  }

  ghost predicate Reachable(txt: seq<byte>, trees: seq<Bst>, r: int, c: int)
    requires IsText(txt) && |trees| == 256
  {
    forall x | 0 <= x < N && Registered(txt, trees, x) :: InReach(x, r, c)
  }

  // ---- reading keys

  /** Where a key runs over the end of the ring it reads the mirrored tail, which by then has been written. */
  lemma KeyText(txt: seq<byte>, w: seq<byte>, c: int, e: int, i: int, k: int)
    requires TextOk(txt, w, c, e) && 0 <= k < F && N - F <= i && c - (N - F) <= i + k < e
    ensures Key(txt, Pos(i), k) == w[i + k]
  {
    assert Holds(txt, w, i + k);
    KeyPlace(i, k);
  }

  lemma KeyPlace(i: int, k: int)
    requires 0 <= k < F && N - F <= i
    ensures Pos(i + k) == Pos(i) + k || (Pos(i + k) == Pos(i) + k - N && Pos(i + k) < F - 1 && i + k >= N + F)
  {
    var q := (i + N - F) / N;
    assert i + N - F == N * q + Pos(i);
    if Pos(i) + k < N {
      DivUnique(i + k + N - F, q, Pos(i) + k);
    } else {
      DivUnique(i + k + N - F, q + 1, Pos(i) + k - N);
      if i < N + F {
        DivUnique(i + N - F, 1, i - F);
      }
    }
  }

  lemma DivUnique(x: int, q: int, m: int)
    requires x == N * q + m && 0 <= m < N
    ensures x % N == m
  {
  }

  /** A match that the window search has found repeats what stands pos + 1 bytes before it. */
  lemma MatchRepeats(txt: seq<byte>, w: seq<byte>, c: int, e: int, pos: int, m: nat, len: nat)
    requires TextOk(txt, w, c, e) && len <= m <= F && c + len <= e
    requires 0 <= pos < N - F && c - (pos + 1) >= N - F
    requires Agree(txt, Pos(c), (Pos(c) - pos - 1) % N, m)
    ensures forall i | c <= i < c + len :: w[i] == w[i - (pos + 1)]
  {
    PosBack(c, pos + 1);
    forall i | c <= i < c + len
      ensures w[i] == w[i - (pos + 1)]
    {
      var k := i - c;
      assert Key(txt, Pos(c), k) == Key(txt, (Pos(c) - pos - 1) % N, k);
      KeyText(txt, w, c, e, c, k);
      KeyText(txt, w, c, e, c - (pos + 1), k);
    }
  }

  // ---- moving on

  /** The buffer with byte b read in at position s. */
  ghost function ReadIn(txt: seq<byte>, s: int, b: byte): (txt': seq<byte>)
    requires IsText(txt) && 0 <= s < N
    ensures IsText(txt')
  {
    if s < F - 1 then txt[s := b][s + N := b] else txt[s := b]
  }

  lemma TextMoves(txt: seq<byte>, w: seq<byte>, c: int, e: int)
    requires TextOk(txt, w, c, e) && c < e
    ensures TextOk(txt, w, c + 1, e)
  {
  }

  lemma TextReads(txt: seq<byte>, w: seq<byte>, c: int, e: int)
    requires TextOk(txt, w, c, e) && e == c + F < |w|
    ensures TextOk(ReadIn(txt, Pos(e), w[e]), w, c + 1, e + 1)
  {
    var txt' := ReadIn(txt, Pos(e), w[e]);
    forall i | c + 1 - (N - F) <= i < e + 1
      ensures Holds(txt', w, i)
    {
      if i < e {
        assert Holds(txt, w, i);
        if Pos(i) == Pos(e) { PosDistinct(i, e); }
      }
    }
  }

  /** The position read into, F behind r, is no part of any other registered key. */
  lemma OutOfKeys(x: int, k: int, r: int, c: int, s: int)
    requires 0 <= x < N && 0 <= r < N && 0 <= k < F && s == (r + F) % N && x != s && InReach(x, r, c)
    ensures x + k != s && x + k != s + N
  {
    var d := (r - x) % N;
    if x <= r { assert d == r - x; } else { assert d == r - x + N; }
    if r + F < N { assert s == r + F; } else { assert s == r + F - N; }
  }

  /** Nothing in the trees depends on bytes outside the registered keys. */
  lemma LessSame(txt: seq<byte>, txt': seq<byte>, a: int, b: int)
    requires IsText(txt) && IsText(txt') && 0 <= a < N && 0 <= b < N
    requires forall k | 0 <= k < F :: Key(txt, a, k) == Key(txt', a, k) && Key(txt, b, k) == Key(txt', b, k)
    ensures Less(txt, a, b) <==> Less(txt', a, b)
  {
    var k := Lcp(txt, a, b);
    assert Agree(txt', a, b, k) by {
      forall m | 0 <= m < k
        ensures Key(txt', a, m) == Key(txt', b, m)
      {
        assert Key(txt, a, m) == Key(txt, b, m);
      }
    }
    LcpUnique(txt', a, b, k);
  }

  ghost predicate KeySame(txt: seq<byte>, txt': seq<byte>, x: int)
    requires IsText(txt) && IsText(txt') && 0 <= x < N
  {
    forall k | 0 <= k < F :: Key(txt, x, k) == Key(txt', x, k)
  }

  lemma {:induction false} OrderedSame(txt: seq<byte>, txt': seq<byte>, t: Bst)
    requires IsText(txt) && IsText(txt') && Ordered(txt, t)
    requires forall x | x in Nodes(t) && 0 <= x < N :: KeySame(txt, txt', x)
    ensures Ordered(txt', t)
  {
    hide Less, KeySame, AllLess, AllGreater;
    match t
    case Leaf =>
    case Node(l, x, r) =>
      OrderedSame(txt, txt', l);
      OrderedSame(txt, txt', r);
      AllSame(txt, txt', Nodes(l), x);
      AllSame(txt, txt', Nodes(r), x);
  }

  lemma AllSame(txt: seq<byte>, txt': seq<byte>, ys: set<int>, x: int)
    requires IsText(txt) && IsText(txt') && 0 <= x < N && KeySame(txt, txt', x)
    requires forall y | y in ys && 0 <= y < N :: KeySame(txt, txt', y)
    ensures AllLess(txt, ys, x) ==> AllLess(txt', ys, x)
    ensures AllGreater(txt, ys, x) ==> AllGreater(txt', ys, x)
  {
    hide Less;
    forall y | y in ys && 0 <= y < N
      ensures Less(txt', y, x) <==> Less(txt, y, x)
      ensures Less(txt', x, y) <==> Less(txt, x, y)
    {
      LessSame(txt, txt', y, x);
      LessSame(txt, txt', x, y);
    }
  }

  lemma ForestSame(txt: seq<byte>, txt': seq<byte>, a: Links, trees: seq<Bst>)
    requires Forest(txt, a, trees) && IsText(txt')
    requires forall x | 0 <= x < N && Registered(txt, trees, x) :: KeySame(txt, txt', x)
    ensures Forest(txt', a, trees)
    ensures forall x | 0 <= x < N :: Registered(txt', trees, x) <==> Registered(txt, trees, x)
  {
    forall d | 0 <= d < 256
      ensures Rooted(txt', a, trees, d)
      ensures Rooted(txt, a, trees, d)
    {
      assert Rooted(txt, a, trees, d);
      forall x | x in Nodes(trees[d])
        ensures 0 <= x < N && KeySame(txt, txt', x) && txt'[x] == d
      {
        assert Registered(txt, trees, x);
        assert Key(txt, x, 0) == Key(txt', x, 0);
      }
      OrderedSame(txt, txt', trees[d]);
    }
    forall x | 0 <= x < N
      ensures Registered(txt', trees, x) <==> Registered(txt, trees, x)
    {
      assert Rooted(txt, a, trees, txt'[x]);
      if Registered(txt, trees, x) { assert Key(txt, x, 0) == Key(txt', x, 0); }
    }
    forall x | 0 <= x < N
      ensures a.dad[x] != NIL <==> Registered(txt', trees, x)
    {
      assert a.dad[x] != NIL <==> Registered(txt, trees, x);
    }
  }

  /** Reading a byte in over the position that has just been deleted disturbs no tree. */
  lemma ReadInKeeps(txt: seq<byte>, a: Links, trees: seq<Bst>, r: int, c: int, s: int, b: byte)
    requires Forest(txt, a, trees) && 0 <= r < N && s == (r + F) % N
    requires Reachable(txt, trees, r, c) && !Registered(txt, trees, s)
    ensures Forest(ReadIn(txt, s, b), a, trees)
    ensures forall x | 0 <= x < N :: Registered(ReadIn(txt, s, b), trees, x) <==> Registered(txt, trees, x)
  {
    var txt' := ReadIn(txt, s, b);
    forall x | 0 <= x < N && Registered(txt, trees, x)
      ensures KeySame(txt, txt', x)
    {
      forall k | 0 <= k < F
        ensures Key(txt, x, k) == Key(txt', x, k)
      {
        OutOfKeys(x, k, r, c, s);
      }
    }
    ForestSame(txt, txt', a, trees);
  }

  /** One step further on, what is left after the deletion is still in reach, and the new position is free. */
  lemma ReachMoves(x: int, r: int, c: int)
    requires 0 <= x < N && 0 <= r < N && x != (r + F) % N && InReach(x, r, c)
    ensures InReach(x, (r + 1) % N, c + 1) && x != (r + 1) % N
  {
    var d := (r - x) % N;
    if x <= r { assert d == r - x; } else { assert d == r - x + N; }
    if r + F < N { assert (r + F) % N == r + F; } else { assert (r + F) % N == r + F - N; }
    assert d < N - F;
    if r + 1 < N {
      assert (r + 1) % N == r + 1;
      if x <= r { assert (r + 1 - x) % N == r + 1 - x; } else { assert (r + 1 - x) % N == r + 1 - x + N; }
    } else {
      assert (r + 1) % N == 0;
      if x == 0 { assert false; } else { assert (0 - x) % N == N - x; }
    }
  }

  lemma RemovedRegistered(txt: seq<byte>, a: Links, trees: seq<Bst>, p: int)
    requires Forest(txt, a, trees) && 0 <= p < N && Registered(txt, trees, p)
    ensures forall x | 0 <= x < N :: Registered(txt, trees[txt[p] := Remove(trees[txt[p]], p)], x) <==>
      Registered(txt, trees, x) && x != p
  {
    assert Rooted(txt, a, trees, txt[p]);
    RemoveOrdered(txt, trees[txt[p]], p);
  }

  lemma InsertedRegistered(txt: seq<byte>, a: Links, trees: seq<Bst>, r: int)
    requires Forest(txt, a, trees) && 0 <= r < N && !Registered(txt, trees, r) && Ordered(txt, trees[txt[r]])
    ensures forall x | 0 <= x < N && Registered(txt, trees[txt[r] := Insert(txt, trees[txt[r]], r)], x) ::
      Registered(txt, trees, x) || x == r
    ensures Registered(txt, trees[txt[r] := Insert(txt, trees[txt[r]], r)], r)
    ensures forall x | 0 <= x < N && Registered(txt, trees, x) ::
      Registered(txt, trees[txt[r] := Insert(txt, trees[txt[r]], r)], x) || Lcp(txt, r, x) == F
  {
    InsertOrdered(txt, trees[txt[r]], r);
  }

  /** A match found is within reach. */
  ghost predicate MatchInReach(txt: seq<byte>, r: int, c: int, len: int, pos: int)
    requires IsText(txt) && 0 <= r < N
  {
    len == 0 || (THRESHOLD < len <= F && 0 <= pos < N - F && c - (pos + 1) >= N - F &&
      Agree(txt, r, (r - pos - 1) % N, len))
  }

  lemma CandidateInReach(txt: seq<byte>, a: Links, trees: seq<Bst>, r: int, c: int, len: int, pos: int)
    requires Forest(txt, a, trees) && 0 <= r < N && !Registered(txt, trees, r)
    requires Reachable(txt, trees, r, c) && Candidate(txt, trees[txt[r]], r, len, pos)
    ensures MatchInReach(txt, r, c, len, pos)
  {
    if len != 0 {
      var p := (r - pos - 1) % N;
      assert Rooted(txt, a, trees, txt[r]);
      assert Registered(txt, trees, p);
      Distance(r, pos);
    }
  }

  lemma Distance(r: int, pos: int)
    requires 0 <= r < N && 0 <= pos < N - 1
    ensures (r - (r - pos - 1) % N) % N == pos + 1
  {
    var p := (r - pos - 1) % N;
    if r - pos - 1 >= 0 { assert p == r - pos - 1; } else { assert p == r - pos - 1 + N; }
    if r >= p { assert (r - p) % N == r - p; } else { assert (r - p) % N == r - p + N; }
  }

  // ---- the longest match

  /** How far back the position may be that stands for byte i of the history: of equal keys the last one registered
      stays, which is the nearest byte of the input, but the farthest of the initial spaces. */
  function Back(i: int): int {
    if i < N then N - F else i
  }

  /** Registered position x has the key of byte i of the history, and is no farther back than that. */
  ghost predicate StandsFor(txt: seq<byte>, trees: seq<Bst>, r: int, c: int, i: int, x: int)
    requires IsText(txt) && |trees| == 256
  {
    0 <= x < N && Registered(txt, trees, x) && (r - x) % N <= c - Back(i) && Agree(txt, Pos(i), x, F)
  }

  ghost predicate Represented(txt: seq<byte>, trees: seq<Bst>, r: int, c: int, i: int)
    requires IsText(txt) && |trees| == 256
  {
    exists x :: StandsFor(txt, trees, r, c, i, x)
  }

  /** Every byte up to hi, from the registered spaces on and from at most far bytes back, is still represented in the
      trees. */
  ghost predicate Remembered(txt: seq<byte>, trees: seq<Bst>, r: int, c: int, hi: int, far: int)
    requires IsText(txt) && |trees| == 256
  {
    forall i | N - F <= i < hi && c - Back(i) <= far :: Represented(txt, trees, r, c, i)
  }

  lemma DistanceBack(c: int, i: int)
    requires 0 <= c - i < N
    ensures (Pos(c) - Pos(i)) % N == c - i
  {
    PosBack(c, c - i);
    var q := (Pos(c) - (c - i)) / N;
    assert Pos(c) - (c - i) == N * q + Pos(i);
    assert Pos(c) - Pos(i) == N * q + (c - i);
  }

  lemma ForgetRemembers(txt: seq<byte>, trees: seq<Bst>, trees': seq<Bst>, r: int, c: int, s: int)
    requires IsText(txt) && |trees| == |trees'| == 256 && 0 <= r < N && s == (r + F) % N
    requires Remembered(txt, trees, r, c, c + 1, N - F)
    requires forall x | 0 <= x < N && Registered(txt, trees, x) && x != s :: Registered(txt, trees', x)
    ensures Remembered(txt, trees', r, c, c + 1, N - F - 1)
  {
    assert (r - s) % N == N - F by {
      if r + F < N { assert s == r + F; } else { assert s == r + F - N; }
    }
    forall i | N - F <= i < c + 1 && c - Back(i) <= N - F - 1
      ensures Represented(txt, trees', r, c, i)
    {
      assert Represented(txt, trees, r, c, i);
      var x :| StandsFor(txt, trees, r, c, i, x);
      assert StandsFor(txt, trees', r, c, i, x);
    }
  }

  lemma ReadInRemembers(txt: seq<byte>, trees: seq<Bst>, r: int, c: int, s: int, b: byte)
    requires IsText(txt) && |trees| == 256 && r == Pos(c) && s == (r + F) % N
    requires Reachable(txt, trees, r, c) && !Registered(txt, trees, s)
    requires forall x | 0 <= x < N :: Registered(ReadIn(txt, s, b), trees, x) <==> Registered(txt, trees, x)
    requires Remembered(txt, trees, r, c, c + 1, N - F - 1)
    ensures Remembered(ReadIn(txt, s, b), trees, r, c, c + 1, N - F - 1)
  {
    hide Agree, KeySame, Registered, Pos, Key;
    PosBound(c);
    var txt' := ReadIn(txt, s, b);
    forall i | N - F <= i < c + 1 && c - Back(i) <= N - F - 1
      ensures Represented(txt', trees, r, c, i)
    {
      assert Represented(txt, trees, r, c, i);
      var x :| StandsFor(txt, trees, r, c, i, x);
      PlaceApart(r, c, s, i);
      OutOfKeysAll(txt, x, r, c, s, b);
      OutOfKeysAll(txt, Pos(i), r, c, s, b);
      AgreeSame(txt, txt', Pos(i), x);
      assert StandsFor(txt', trees, r, c, i, x);
    }
  }

  lemma PlaceApart(r: int, c: int, s: int, i: int)
    requires r == Pos(c) && s == (r + F) % N && N - F <= i <= c && c - i <= N - F - 1
    ensures InReach(Pos(i), r, c) && Pos(i) != s && 0 <= Pos(i) < N
  {
    hide Pos;
    PosBound(i);
    DistanceBack(c, i);
    DistanceBack(c + F, i);
    SlotMoves(c, r, s);
  }

  lemma AgreeSame(txt: seq<byte>, txt': seq<byte>, x: int, y: int)
    requires IsText(txt) && IsText(txt') && 0 <= x < N && 0 <= y < N
    requires KeySame(txt, txt', x) && KeySame(txt, txt', y) && Agree(txt, x, y, F)
    ensures Agree(txt', x, y, F)
  {
    forall k | 0 <= k < F
      ensures Key(txt', x, k) == Key(txt', y, k)
    {
      assert Key(txt, x, k) == Key(txt, y, k);
    }
  }

  lemma OutOfKeysAll(txt: seq<byte>, x: int, r: int, c: int, s: int, b: byte)
    requires IsText(txt) && 0 <= x < N && 0 <= r < N && s == (r + F) % N && x != s && InReach(x, r, c)
    ensures KeySame(txt, ReadIn(txt, s, b), x)
  {
    forall k | 0 <= k < F
      ensures Key(txt, x, k) == Key(ReadIn(txt, s, b), x, k)
    {
      OutOfKeys(x, k, r, c, s);
    }
  }

  lemma MoveRemembers(txt: seq<byte>, trees: seq<Bst>, r: int, c: int)
    requires IsText(txt) && |trees| == 256 && 0 <= r < N && Remembered(txt, trees, r, c, c + 1, N - F - 1)
    ensures Remembered(txt, trees, (r + 1) % N, c + 1, c + 1, N - F)
  {
    var r', c' := (r + 1) % N, c + 1;
    forall i | N - F <= i < c' && c' - Back(i) <= N - F
      ensures Represented(txt, trees, r', c', i)
    {
      assert Represented(txt, trees, r, c, i);
      var x :| StandsFor(txt, trees, r, c, i, x);
      OneFarther(r, x);
      assert StandsFor(txt, trees, r', c', i, x);
    }
  }

  lemma OneFarther(r: int, x: int)
    requires 0 <= r < N && 0 <= x < N
    ensures ((r + 1) % N - x) % N <= (r - x) % N + 1
  {
    if x <= r { assert (r - x) % N == r - x; } else { assert (r - x) % N == r - x + N; }
    if r + 1 < N {
      assert (r + 1) % N == r + 1;
      if x <= r + 1 { assert (r + 1 - x) % N == r + 1 - x; } else { assert (r + 1 - x) % N == r + 1 - x + N; }
    } else {
      assert (r + 1) % N == 0;
      if x == 0 { assert (0 - x) % N == 0; } else { assert (0 - x) % N == N - x; }
    }
  }

  /** What has the same key as x has as much in common with r. */
  lemma SameCommon(txt: seq<byte>, r: int, y: int, x: int)
    requires IsText(txt) && 0 <= r < N && 0 <= y < N && 0 <= x < N && Agree(txt, y, x, F)
    ensures Lcp(txt, r, y) == Lcp(txt, r, x)
  {
    var k := Lcp(txt, r, x);
    assert Agree(txt, r, y, k) by {
      forall m | 0 <= m < k
        ensures Key(txt, r, m) == Key(txt, y, m)
      {
        assert Key(txt, r, m) == Key(txt, x, m) && Key(txt, y, m) == Key(txt, x, m);
      }
    }
    assert k < F ==> Key(txt, y, k) == Key(txt, x, k);
    LcpUnique(txt, r, y, k);
  }

  lemma EnterRemembers(txt: seq<byte>, trees: seq<Bst>, trees': seq<Bst>, r: int, c: int)
    requires IsText(txt) && |trees| == |trees'| == 256 && r == Pos(c) && Remembered(txt, trees, r, c, c, N - F)
    requires Registered(txt, trees', r)
    requires forall x | 0 <= x < N && Registered(txt, trees, x) :: Registered(txt, trees', x) || Lcp(txt, r, x) == F
    ensures Remembered(txt, trees', r, c, c + 1, N - F)
  {
    forall i | N - F <= i < c + 1 && c - Back(i) <= N - F
      ensures Represented(txt, trees', r, c, i)
    {
      if i == c {
        assert StandsFor(txt, trees', r, c, i, r);
      } else {
        assert Represented(txt, trees, r, c, i);
        var x :| StandsFor(txt, trees, r, c, i, x);
        if Registered(txt, trees', x) {
          assert StandsFor(txt, trees', r, c, i, x);
        } else {
          SameCommon(txt, r, Pos(i), x);
          LcpSymmetric(txt, r, Pos(i));
          assert StandsFor(txt, trees', r, c, i, r);
        }
      }
    }
  }

  lemma LcpSymmetric(txt: seq<byte>, a: int, b: int)
    requires IsText(txt) && 0 <= a < N && 0 <= b < N
    ensures Lcp(txt, b, a) == Lcp(txt, a, b)
  {
    LcpUnique(txt, a, b, Lcp(txt, a, b));
  }

  /** No byte within reach, of the registered spaces or the input, has more in common with what comes next, or than is
      worth a match. The spaces count until the first of them is out of reach. */
  ghost predicate Longest(txt: seq<byte>, r: int, c: int, len: int)
    requires IsText(txt) && 0 <= r < N
  {
    forall i | N - F <= i < c && c - Back(i) <= N - F ::
      Lcp(txt, r, Pos(i)) <= if len > THRESHOLD then len else THRESHOLD
  }

  lemma LongestFound(txt: seq<byte>, a: Links, trees: seq<Bst>, r: int, c: int, len: int, pos: int)
    requires Forest(txt, a, trees) && 0 <= r < N && Remembered(txt, trees, r, c, c, N - F)
    requires Candidate(txt, trees[txt[r]], r, len, pos) && Covered(txt, trees[txt[r]], Leaf, r, len)
    ensures Longest(txt, r, c, len)
  {
    LongestOfAll(txt, a, trees, r, len, pos);
    forall i | N - F <= i < c && c - Back(i) <= N - F
      ensures Lcp(txt, r, Pos(i)) <= if len > THRESHOLD then len else THRESHOLD
    {
      assert Represented(txt, trees, r, c, i);
      var x :| StandsFor(txt, trees, r, c, i, x);
      SameCommon(txt, r, Pos(i), x);
    }
  }

  /** n bytes of the history from i on are repeated at c. */
  ghost predicate Repeats(w: seq<byte>, i: int, c: int, n: int) {
    0 <= i <= c && c + n <= |w| && forall k | c <= k < c + n :: w[k] == w[k - (c - i)]
  }

  /** In terms of the input: no earlier place within the window repeats more of it. */
  lemma NoLongerRepeat(txt: seq<byte>, w: seq<byte>, c: int, e: int, len: int, i: int, n: int)
    requires TextOk(txt, w, c, e) && Longest(txt, Pos(c), c, len)
    requires N - F <= i < c && c - Back(i) <= N - F && 0 <= n <= F && c + n <= e && Repeats(w, i, c, n)
    ensures n <= if len > THRESHOLD then len else THRESHOLD
  {
    forall k | 0 <= k < n
      ensures Key(txt, Pos(c), k) == Key(txt, Pos(i), k)
    {
      KeyText(txt, w, c, e, c, k);
      KeyText(txt, w, c, e, i, k);
      assert w[c + k] == w[c + k - (c - i)];
    }
    assert Lcp(txt, Pos(c), Pos(i)) <= if len > THRESHOLD then len else THRESHOLD;
  }

  // ---- the steps of the encoder's window

  /** Position r being registered, the search for it has come by the others that it comes by now, and the match is with
      the nearest of those that have as much in common; unless it was with a position that r has displaced. */
  ghost predicate NearestOnTheWay(txt: seq<byte>, trees: seq<Bst>, r: int, len: int, pos: int)
    requires IsText(txt) && |trees| == 256 && 0 <= r < N
  {
    Ordered(txt, trees[txt[r]]) && (len < F ==> Nearest(txt, Visited(txt, trees[txt[r]], r) - {r}, r, len, pos))
  }

  lemma NearestEntered(txt: seq<byte>, t: Bst, trees: seq<Bst>, r: int, len: int, pos: int)
    requires IsText(txt) && |trees| == 256 && 0 <= r < N && r !in Nodes(t) && Ordered(txt, t)
    requires trees[txt[r]] == Insert(txt, t, r) && Nearest(txt, Visited(txt, t, r), r, len, pos)
    ensures NearestOnTheWay(txt, trees, r, len, pos)
  {
    hide Lcp, Insert, Ordered, Visited;
    InsertOrdered(txt, t, r);
    VisitedInserted(txt, t, r);
  }

  /** The match found: it is within reach, no other is longer, none as long on the way is nearer, and the window is
      ready for the next search. */
  ghost predicate BestMatch(txt: seq<byte>, trees: seq<Bst>, r: int, c: int, len: int, pos: int)
    requires IsText(txt) && |trees| == 256 && 0 <= r < N
    ensures BestMatch(txt, trees, r, c, len, pos) ==> 0 <= len <= F
  {
    && MatchInReach(txt, r, c, len, pos) && Longest(txt, r, c, len) && Remembered(txt, trees, r, c, c + 1, N - F)
    && NearestOnTheWay(txt, trees, r, len, pos)
  }

  ghost predicate Ready(win: TextWindow, w: seq<byte>, c: int, e: int, r: int, s: int)
    reads win, win.text, win.lson, win.rson, win.dad
    ensures Ready(win, w, c, e, r, s) ==>
      win.Shape() && IsText(win.text[..]) && |win.trees| == 256 && 0 <= r < N && 0 <= s < N && N <= c <= e <= |w|
  {
    && win.Valid() && TextOk(win.text[..], w, c, e) && r == Pos(c) && s == (r + F) % N
    && Reachable(win.text[..], win.trees, r, c)
  }

  /** The oldest position leaves the trees. */
  method Forget(win: TextWindow, ghost w: seq<byte>, ghost c: int, ghost e: int, ghost r: int, s: int)
    requires Ready(win, w, c, e, r, s) && Remembered(win.text[..], win.trees, r, c, c + 1, N - F)
    modifies win`trees, win.lson, win.rson, win.dad
    ensures Ready(win, w, c, e, r, s) && !Registered(win.text[..], win.trees, s)
    ensures Remembered(win.text[..], win.trees, r, c, c + 1, N - F - 1)
    ensures win.text[..] == old(win.text[..])
  {
    hide Forest, TextOk, Reachable, Registered, Remove, Remembered;
    ghost var txt, a, trees := win.text[..], win.View(), win.trees;
    Registration(txt, a, trees, s);
    if win.dad[s] != NIL { RemovedRegistered(txt, a, trees, s); }
    win.DeleteNode(s);
    FewerReachable(txt, trees, win.trees, r, c);
    ForgetRemembers(txt, trees, win.trees, r, c, s);
  }

  lemma Registration(txt: seq<byte>, a: Links, trees: seq<Bst>, x: int)
    requires Forest(txt, a, trees) && 0 <= x < N
    ensures a.dad[x] != NIL <==> Registered(txt, trees, x)
  {
  }

  lemma FewerReachable(txt: seq<byte>, trees: seq<Bst>, trees': seq<Bst>, r: int, c: int)
    requires IsText(txt) && |trees| == |trees'| == 256 && Reachable(txt, trees, r, c)
    requires forall x | 0 <= x < N && Registered(txt, trees', x) :: Registered(txt, trees, x)
    ensures Reachable(txt, trees', r, c)
  {
  }

  lemma AllReachMoves(txt: seq<byte>, trees: seq<Bst>, r: int, c: int, s: int)
    requires IsText(txt) && |trees| == 256 && 0 <= r < N && s == (r + F) % N
    requires Reachable(txt, trees, r, c) && !Registered(txt, trees, s)
    ensures Reachable(txt, trees, (r + 1) % N, c + 1) && !Registered(txt, trees, (r + 1) % N)
  {
    forall x | 0 <= x < N && Registered(txt, trees, x)
      ensures InReach(x, (r + 1) % N, c + 1) && x != (r + 1) % N
    {
      ReachMoves(x, r, c);
    }
  }

  lemma SlotMoves(c: int, r: int, s: int)
    requires r == Pos(c) && s == (r + F) % N
    ensures s == Pos(c + F) && (r + 1) % N == Pos(c + 1) && (s + 1) % N == ((r + 1) % N + F) % N
  {
    PosNext(c);
    PosBack(c + F, F);
    PosBack(c, -F);
    assert (r + F + 1) % N == (s + 1) % N;
    assert ((r + 1) % N + F) % N == (r + 1 + F) % N;
  }

  /** Position r enters the trees; what stands there may repeat something in reach. */
  method Enter(win: TextWindow, ghost w: seq<byte>, ghost c: int, ghost e: int, r: int, ghost s: int)
    requires Ready(win, w, c, e, r, s) && !Registered(win.text[..], win.trees, r)
    requires Remembered(win.text[..], win.trees, r, c, c, N - F)
    modifies win`trees, win`matchLength, win`matchPosition, win.lson, win.rson, win.dad
    ensures Ready(win, w, c, e, r, s) && win.text[..] == old(win.text[..])
    ensures BestMatch(win.text[..], win.trees, r, c, win.matchLength, win.matchPosition)
  {
    hide Forest, TextOk, Reachable, Registered, Insert, Candidate, Covered, MatchInReach, Ordered, Pos, Remembered,
      Longest, Lcp, Nearest, Visited, NearestOnTheWay;
    ghost var txt, a, trees := win.text[..], win.View(), win.trees;
    PosBound(c);
    Registration(txt, a, trees, r);
    win.InsertNode(r);
    InsertedRegistered(txt, a, trees, r);
    CandidateInReach(txt, a, trees, r, c, win.matchLength, win.matchPosition);
    LongestFound(txt, a, trees, r, c, win.matchLength, win.matchPosition);
    MoreReachable(txt, trees, win.trees, r, c);
    EnterRemembers(txt, trees, win.trees, r, c);
    NotYetThere(txt, trees, r);
    NearestEntered(txt, trees[txt[r]], win.trees, r, win.matchLength, win.matchPosition);
  }

  lemma NotYetThere(txt: seq<byte>, trees: seq<Bst>, r: int)
    requires IsText(txt) && |trees| == 256 && 0 <= r < N && !Registered(txt, trees, r)
    ensures r !in Nodes(trees[txt[r]])
  {
  }

  lemma PosBound(c: int)
    ensures 0 <= Pos(c) < N
  {
  }

  lemma MoreReachable(txt: seq<byte>, trees: seq<Bst>, trees': seq<Bst>, r: int, c: int)
    requires IsText(txt) && |trees| == |trees'| == 256 && 0 <= r < N && c >= N && Reachable(txt, trees, r, c)
    requires forall x | 0 <= x < N && Registered(txt, trees', x) :: Registered(txt, trees, x) || x == r
    ensures Reachable(txt, trees', r, c)
  {
  }

  /** One byte is read in: the body of the first inner loop. */
  method ReadStep(win: TextWindow, ghost w: seq<byte>, ghost c: int, ghost e: int, r: int, s: int, b: byte)
    returns (r': int, s': int)
    requires Ready(win, w, c, e, r, s) && e == c + F < |w| && b == w[e]
    requires Remembered(win.text[..], win.trees, r, c, c + 1, N - F)
    modifies win, win.text, win.lson, win.rson, win.dad
    ensures Ready(win, w, c + 1, e + 1, r', s')
    ensures BestMatch(win.text[..], win.trees, r', c + 1, win.matchLength, win.matchPosition)
  {
    hide Forest, TextOk, Reachable, Registered, BestMatch, Remembered, Pos;
    SlotMoves(c, r, s);
    PosBound(c);
    PosBound(c + F);
    Forget(win, w, c, e, r, s);
    ghost var txt := win.text[..];
    TextReads(txt, w, c, e);
    ReadInKeeps(txt, win.View(), win.trees, r, c, s, b);
    ReadInRemembers(txt, win.trees, r, c, s, b);
    MoveRemembers(ReadIn(txt, s, b), win.trees, r, c);
    AllReachMoves(txt, win.trees, r, c, s);
    win.text[s] := b;
    if s < F - 1 {
      win.text[s + N] := b;
    }
    assert win.text[..] == ReadIn(txt, s, b);
    SameReach(txt, win.text[..], win.trees, (r + 1) % N, c + 1);
    s' := (s + 1) % N;
    r' := (r + 1) % N;
    Enter(win, w, c + 1, e + 1, r', s');
  }

  lemma SameReach(txt: seq<byte>, txt': seq<byte>, trees: seq<Bst>, r: int, c: int)
    requires IsText(txt) && IsText(txt') && |trees| == 256 && Reachable(txt, trees, r, c)
    requires forall x | 0 <= x < N :: Registered(txt', trees, x) <==> Registered(txt, trees, x)
    ensures Reachable(txt', trees, r, c)
  {
  }

  /** Nothing is left to read: the body of the second inner loop, len bytes being ahead. */
  method TailStep(win: TextWindow, ghost w: seq<byte>, ghost c: int, ghost e: int, r: int, s: int, len: int)
    returns (r': int, s': int, len': int)
    requires Ready(win, w, c, e, r, s) && c < e && len == e - c
    requires Remembered(win.text[..], win.trees, r, c, c + 1, N - F)
    modifies win, win.lson, win.rson, win.dad
    ensures Ready(win, w, c + 1, e, r', s') && len' == len - 1
    ensures len' > 0 ==> BestMatch(win.text[..], win.trees, r', c + 1, win.matchLength, win.matchPosition)
  {
    hide Forest, TextOk, Reachable, Registered, BestMatch, Remembered, Pos;
    SlotMoves(c, r, s);
    PosBound(c);
    PosBound(c + F);
    Forget(win, w, c, e, r, s);
    TextMoves(win.text[..], w, c, e);
    MoveRemembers(win.text[..], win.trees, r, c);
    AllReachMoves(win.text[..], win.trees, r, c, s);
    s' := (s + 1) % N;
    r' := (r + 1) % N;
    len' := len - 1;
    if len' != 0 {
      Enter(win, w, c + 1, e, r', s');
    }
  }
}
