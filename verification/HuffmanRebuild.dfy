/** lzh_reconst and lzh_start_huff of encode/lzh.c as functions: the leaves of a tree are collected, and pairs
    are joined from the lightest on, each new node going in behind all nodes that are not heavier. */
module HuffmanRebuild {
  import opened HuffmanTree

  /** The first nodes of a tree under construction: freq and son up to some length. */
  datatype Forest = Forest(freq: seq<int>, son: seq<int>)

  function InsertAt(s: seq<int>, k: nat, v: int): (r: seq<int>)
    requires k <= |s|
    ensures |r| == |s| + 1
  {
    s[..k] + [v] + s[k..]
  }

  /** Where a node of weight f goes among the first m: behind every node that is not heavier. */
  function Slot(freq: seq<int>, f: int, m: nat): (k: nat)
    requires m <= |freq|
    ensures k <= m
    ensures forall x | k <= x < m :: f < freq[x]
    ensures k > 0 ==> freq[k - 1] <= f
  {
    if m > 0 && f < freq[m - 1] then Slot(freq, f, m - 1) else m
  }

  /** The first node not yet paired in a forest of j nodes. */
  function Front(j: int): int {
    2 * (j - N_CHAR)
  }

  function Join(w: Forest): (w': Forest)
    requires |w.freq| == |w.son| && N_CHAR <= |w.freq| < T
    ensures |w'.freq| == |w'.son| == |w.freq| + 1
  {
    var i := Front(|w.freq|);
    var f := w.freq[i] + w.freq[i + 1];
    var k := Slot(w.freq, f, |w.freq|);
    Forest(InsertAt(w.freq, k, f), InsertAt(w.son, k, i))
  }

  function Grow(w: Forest): (w': Forest)
    requires |w.freq| == |w.son| && N_CHAR <= |w.freq| <= T
    ensures |w'.freq| == |w'.son| == T
    decreases T - |w.freq|
  {
    if |w.freq| == T then w else Grow(Join(w))
  }

  /** The parent table of a complete forest, entered node by node over an older one. */
  function Connect(son: seq<int>, prnt: seq<int>, i: nat): (r: seq<int>)
    requires i <= T <= |son| && |prnt| == T + N_CHAR
    requires forall m | 0 <= m < T :: Points(m, son[m])
    ensures |r| == T + N_CHAR
    decreases T - i
  {
    if i == T then prnt
    else
      assert Points(i, son[i]);
      Connect(son, SetParent(prnt, son[i], i), i + 1)
  }

  lemma ConnectStep(son: seq<int>, prnt: seq<int>, i: nat)
    requires i <= T <= |son| && |prnt| == T + N_CHAR
    requires forall m | 0 <= m < T :: Points(m, son[m])
    ensures i == T ==> Connect(son, prnt, i) == prnt
    ensures i < T ==> 0 <= son[i] < T + N_CHAR
    ensures i < T ==> Connect(son, prnt, i) == Connect(son, SetParent(prnt, son[i], i), i + 1)
  {
    if i < T { assert Points(i, son[i]); }
  }

  /** What holds while joining: weights sorted, pairs used up from the front on, each exactly once, and every
      symbol in exactly one leaf. */
  ghost predicate NodeOk(w: Forest, m: int)
    requires |w.freq| == |w.son| && 0 <= m < |w.freq|
  {
    var s := w.son[m];
    && 1 <= w.freq[m]
    && Points(m, s)
    && (s < T ==> s < Front(|w.freq|) && w.freq[m] == w.freq[s] + w.freq[s + 1])
  }

  ghost predicate Growing(w: Forest)
    ensures Growing(w) ==> |w.freq| == |w.son| && N_CHAR <= |w.freq| <= T
  {
    && |w.freq| == |w.son| && N_CHAR <= |w.freq| <= T
    && Ordered(w.freq)
    && (forall m | 0 <= m < |w.freq| :: NodeOk(w, m))
    && Distinct(w.son)
    && (forall y | T <= y < T + N_CHAR :: y in w.son)
    && (forall y | 0 <= y < Front(|w.freq|) && y % 2 == 0 :: y in w.son)
  }

  ghost predicate Ordered(s: seq<int>) {
    forall i, j | 0 <= i <= j < |s| :: s[i] <= s[j]
  }

  ghost predicate Distinct(s: seq<int>) {
    forall i, j | 0 <= i < j < |s| :: s[i] != s[j]
  }

  /** The slot is behind the pair that is being consumed. */
  lemma SlotAbovePair(w: Forest)
    requires Growing(w) && |w.freq| < T
    ensures var i := Front(|w.freq|);
      0 <= i && i + 1 < |w.freq| && i + 2 <= Slot(w.freq, w.freq[i] + w.freq[i + 1], |w.freq|)
  {
    var i := Front(|w.freq|);
    assert NodeOk(w, i) && NodeOk(w, i + 1);
  }

  lemma InsertOrdered(s: seq<int>, k: nat, v: int)
    requires Ordered(s) && k <= |s|
    requires (k > 0 ==> s[k - 1] <= v) && (k < |s| ==> v <= s[k])
    ensures Ordered(InsertAt(s, k, v))
  {
  }

  lemma InsertDistinct(s: seq<int>, k: nat, v: int)
    requires Distinct(s) && k <= |s| && v !in s
    ensures Distinct(InsertAt(s, k, v))
  {
    var r := InsertAt(s, k, v);
    forall i, j | 0 <= i < j < |r|
      ensures r[i] != r[j]
    {
      if i == k {
        assert r[j] == s[j - 1];
      } else if j == k {
        assert r[i] == s[i];
      }
    }
  }

  lemma InsertMember(s: seq<int>, k: nat, v: int, y: int)
    requires k <= |s| && (y in s || y == v)
    ensures y in InsertAt(s, k, v)
  {
    var r := InsertAt(s, k, v);
    assert r[k] == v;
    if y in s {
      var m :| 0 <= m < |s| && s[m] == y;
      assert r[if m < k then m else m + 1] == y;
    }
  }

  lemma InsertedNode(w: Forest, k: nat, m: int)
    requires |w.freq| == |w.son| && N_CHAR <= |w.freq| < T && 0 <= m <= |w.freq|
    requires Front(|w.freq|) + 2 <= k <= |w.freq|
    requires NodeOk(w, Front(|w.freq|)) && NodeOk(w, Front(|w.freq|) + 1)
    requires m < k ==> NodeOk(w, m)
    requires m > k ==> NodeOk(w, m - 1)
    ensures var i := Front(|w.freq|);
      NodeOk(Forest(InsertAt(w.freq, k, w.freq[i] + w.freq[i + 1]), InsertAt(w.son, k, i)), m)
  {
  }

  lemma JoinNode(w: Forest, m: int)
    requires Growing(w) && |w.freq| < T && 0 <= m <= |w.freq|
    ensures NodeOk(Join(w), m)
  {
    hide NodeOk, Ordered, Distinct;
    SlotAbovePair(w);
    var i := Front(|w.freq|);
    var k := Slot(w.freq, w.freq[i] + w.freq[i + 1], |w.freq|);
    InsertedNode(w, k, m);
  }

  /** The pair about to be consumed has not been used. */
  lemma FrontUnused(w: Forest)
    requires Growing(w)
    ensures Front(|w.freq|) !in w.son
  {
    forall m | 0 <= m < |w.son|
      ensures w.son[m] != Front(|w.freq|)
    {
      assert NodeOk(w, m);
    }
  }

  lemma JoinGrowing(w: Forest)
    requires Growing(w) && |w.freq| < T
    ensures Growing(Join(w))
  {
    hide NodeOk, Ordered, Distinct, InsertAt;
    SlotAbovePair(w);
    var i, w' := Front(|w.freq|), Join(w);
    var f := w.freq[i] + w.freq[i + 1];
    var k := Slot(w.freq, f, |w.freq|);
    assert Ordered(w'.freq) by { InsertOrdered(w.freq, k, f); }
    assert Distinct(w'.son) by {
      FrontUnused(w);
      InsertDistinct(w.son, k, i);
    }
    forall m | 0 <= m < |w'.freq|
      ensures NodeOk(w', m)
    {
      JoinNode(w, m);
    }
    forall y | T <= y < T + N_CHAR || (0 <= y <= i && y % 2 == 0)
      ensures y in w'.son
    {
      InsertMember(w.son, k, i, y);
    }
  }

  lemma {:induction false} GrowGrowing(w: Forest)
    requires Growing(w)
    ensures Growing(Grow(w))
    decreases T - |w.freq|
  {
    hide Growing, Join;
    if |w.freq| < T {
      JoinGrowing(w);
      GrowGrowing(Join(w));
    }
  }

  // ---- the total weight

  function SumFrom(s: seq<int>, i: nat): int
    decreases |s| - i
  {
    if i >= |s| then 0 else s[i] + SumFrom(s, i + 1)
  }

  lemma {:induction false} SumInsert(s: seq<int>, k: nat, v: int, i: nat)
    requires i <= k <= |s|
    ensures SumFrom(InsertAt(s, k, v), i) == SumFrom(s, i) + v
    decreases k - i
  {
    var r := InsertAt(s, k, v);
    if i < k {
      assert r[i] == s[i];
      SumInsert(s, k, v, i + 1);
    } else {
      assert r[k] == v;
      SumShifted(r, s, i + 1, i);
    }
  }

  lemma {:induction false} SumShifted(r: seq<int>, s: seq<int>, i: nat, j: nat)
    requires i <= |r| && j <= |s| && r[i..] == s[j..]
    ensures SumFrom(r, i) == SumFrom(s, j)
    decreases |r| - i
  {
    assert |r| - i == |s| - j;
    if i < |r| {
      assert r[i] == r[i..][0] == s[j..][0] == s[j];
      assert r[i + 1..] == r[i..][1..] == s[j..][1..] == s[j + 1..];
      SumShifted(r, s, i + 1, j + 1);
    }
  }

  lemma JoinWeight(w: Forest)
    requires Growing(w) && |w.freq| < T
    ensures SumFrom(Join(w).freq, Front(|w.freq|) + 2) == SumFrom(w.freq, Front(|w.freq|))
  {
    hide Growing, Slot, InsertAt;
    SlotAbovePair(w);
    var i := Front(|w.freq|);
    var f := w.freq[i] + w.freq[i + 1];
    SumInsert(w.freq, Slot(w.freq, f, |w.freq|), f, i + 2);
    assert SumFrom(w.freq, i) == f + SumFrom(w.freq, i + 2);
  }

  /** The unpaired nodes always weigh the same together; in the end only the root is unpaired. */
  lemma {:induction false} GrowWeight(w: Forest)
    requires Growing(w)
    ensures Grow(w).freq[R] == SumFrom(w.freq, Front(|w.freq|))
    decreases T - |w.freq|
  {
    hide Growing, Join;
    if |w.freq| < T {
      JoinGrowing(w);
      JoinWeight(w);
      GrowWeight(Join(w));
    }
  }

  // ---- the leaves

  /** The symbols of a list of nodes, in order. */
  function Symbols(son: seq<int>): seq<int> {
    if son == [] then []
    else Symbols(son[..|son| - 1]) + if son[|son| - 1] >= T then [son[|son| - 1]] else []
  }

  lemma {:induction false} SymbolsConcat(a: seq<int>, b: seq<int>)
    ensures Symbols(a + b) == Symbols(a) + Symbols(b)
    decreases |b|
  {
    if b == [] {
      assert a + b == a;
    } else {
      SymbolsConcat(a, b[..|b| - 1]);
      assert (a + b)[..|a + b| - 1] == a + b[..|b| - 1];
    }
  }

  lemma InnerHasNoSymbol(v: int)
    requires v < T
    ensures Symbols([v]) == []
  {
    assert [v][..0] == [];
  }

  lemma InsertSymbols(s: seq<int>, k: nat, v: int)
    requires k <= |s| && v < T
    ensures Symbols(InsertAt(s, k, v)) == Symbols(s)
  {
    hide Symbols, InsertAt;
    InsertBetween(s, k, v);
    BetweenSymbols(s[..k], v, s[k..]);
  }

  lemma InsertBetween(s: seq<int>, k: nat, v: int)
    requires k <= |s|
    ensures InsertAt(s, k, v) == s[..k] + [v] + s[k..] && s[..k] + s[k..] == s
  {
  }

  lemma BetweenSymbols(a: seq<int>, v: int, b: seq<int>)
    requires v < T
    ensures Symbols(a + [v] + b) == Symbols(a + b)
  {
    hide Symbols;
    SymbolsConcat(a + [v], b);
    SymbolsConcat(a, [v]);
    SymbolsConcat(a, b);
    InnerHasNoSymbol(v);
  }

  /** Joining keeps the order of the leaves. */
  lemma {:induction false} GrowSymbols(w: Forest)
    requires Growing(w)
    ensures Symbols(Grow(w).son) == Symbols(w.son)
    decreases T - |w.freq|
  {
    hide Growing, InsertAt, Symbols, Slot;
    if |w.freq| < T {
      JoinGrowing(w);
      GrowSymbols(Join(w));
      var i := Front(|w.freq|);
      InsertSymbols(w.son, Slot(w.freq, w.freq[i] + w.freq[i + 1], |w.freq|), i);
    }
  }

  /** Symbol s weighs v[s]. */
  ghost predicate Weighs(w: Forest, v: seq<int>) {
    && |v| == N_CHAR && |w.freq| == |w.son|
    && forall m | 0 <= m < |w.son| && T <= w.son[m] < T + N_CHAR :: w.freq[m] == v[w.son[m] - T]
  }

  lemma {:induction false} GrowWeighs(w: Forest, v: seq<int>)
    requires Growing(w) && Weighs(w, v)
    ensures Weighs(Grow(w), v)
    decreases T - |w.freq|
  {
    hide Growing, Join, Weighs;
    if |w.freq| < T {
      JoinGrowing(w);
      JoinWeighs(w, v);
      GrowWeighs(Join(w), v);
    }
  }

  lemma JoinWeighs(w: Forest, v: seq<int>)
    requires |w.freq| == |w.son| && N_CHAR <= |w.freq| < T && Weighs(w, v)
    ensures Weighs(Join(w), v)
  {
    hide Weighs, InsertAt, Slot;
    var i := Front(|w.freq|);
    var f := w.freq[i] + w.freq[i + 1];
    InsertWeighs(w, Slot(w.freq, f, |w.freq|), f, i, v);
  }

  lemma InsertWeighs(w: Forest, k: nat, f: int, s: int, v: seq<int>)
    requires |w.freq| == |w.son| && k <= |w.freq| && s < T && Weighs(w, v)
    ensures Weighs(Forest(InsertAt(w.freq, k, f), InsertAt(w.son, k, s)), v)
  {
    var freq, son := InsertAt(w.freq, k, f), InsertAt(w.son, k, s);
    forall m | 0 <= m < |son| && T <= son[m] < T + N_CHAR
      ensures freq[m] == v[son[m] - T]
    {
      var x := if m < k then m else m - 1;
      assert m != k && son[m] == w.son[x] && freq[m] == w.freq[x];
    }
  }

  // ---- the parent table

  lemma {:induction false} ConnectAt(son: seq<int>, prnt: seq<int>, i: nat)
    requires i <= T <= |son| && |prnt| == T + N_CHAR
    requires forall m | 0 <= m < T :: Points(m, son[m])
    requires Distinct(son[..T])
    ensures var r := Connect(son, prnt, i);
      && (forall m, x | i <= m < T && 0 <= x < T + N_CHAR && Base(x) == son[m] :: r[x] == m)
      && (forall x | 0 <= x < T + N_CHAR && (forall m | i <= m < T :: son[m] != Base(x)) :: r[x] == prnt[x])
    decreases T - i
  {
    if i < T {
      assert Points(i, son[i]);
      var p := SetParent(prnt, son[i], i);
      ConnectAt(son, p, i + 1);
      var r := Connect(son, prnt, i);
      forall x | 0 <= x < T + N_CHAR
        ensures p[x] == if Base(x) == son[i] then i else prnt[x]
      {
        SetParentAt(prnt, son[i], i, x);
      }
      forall x | 0 <= x < T + N_CHAR && Base(x) == son[i]
        ensures r[x] == i
      {
        forall m | i + 1 <= m < T
          ensures son[m] != Base(x)
        {
          assert son[..T][m] != son[..T][i];
        }
      }
    }
  }

  /** A complete forest and its parent table are inverse to each other. */
  lemma ConnectLinked(w: Forest, last: int, prnt: seq<int>)
    requires Growing(w) && |w.freq| == T
    requires |prnt| == T + N_CHAR && prnt[R] == 0
    requires forall m | 0 <= m < T :: Points(m, (w.son + [last])[m])
    ensures Linked(w.son + [last], Connect(w.son + [last], prnt, 0))
  {
    hide NodeOk, Ordered, Connect;
    var son := w.son + [last];
    assert son[..T] == w.son;
    ConnectAt(son, prnt, 0);
    var r := Connect(son, prnt, 0);
    forall i | 0 <= i < T
      ensures r[son[i]] == i
    {
      assert Points(i, son[i]);
      assert Base(son[i]) == son[i];
    }
    forall x | 0 <= x < T + N_CHAR && x != R
      ensures 0 <= r[x] < T && son[r[x]] == Base(x)
    {
      var m := Position(w.son, Base(x));
      assert son[m] == Base(x);
    }
    assert r[R] == 0 by {
      forall m | 0 <= m < T
        ensures son[m] != Base(R)
      {
        assert Points(m, son[m]);
      }
    }
  }

  lemma Position(s: seq<int>, y: int) returns (m: nat)
    requires y in s
    ensures m < |s| && s[m] == y
  {
    m :| 0 <= m < |s| && s[m] == y;
  }

  // ---- collecting the leaves

  /** The leaves among the first n nodes, their weights halved and rounded up. */
  ghost function Halves(t: Tree, n: nat): (w: Forest)
    requires Sized(t) && n <= T
    ensures |w.freq| == |w.son| <= n
  {
    if n == 0 then Forest([], [])
    else
      var w := Halves(t, n - 1);
      if t.son[n - 1] >= T then Forest(w.freq + [(t.freq[n - 1] + 1) / 2], w.son + [t.son[n - 1]]) else w
  }

  lemma HalvesNone(t: Tree)
    requires Sized(t)
    ensures Halves(t, 0) == Forest([], [])
  {
  }

  lemma HalvesStep(t: Tree, n: nat)
    requires Sized(t) && n < T
    ensures var w := Halves(t, n);
      Halves(t, n + 1) == if t.son[n] >= T then Forest(w.freq + [(t.freq[n] + 1) / 2], w.son + [t.son[n]]) else w
  {
  }

  /** Entry m of the collection is a leaf among the first n nodes of the tree, with its halved weight. */
  ghost predicate HalfAt(t: Tree, n: nat, m: int)
    requires Sized(t) && n <= T && 0 <= m < |Halves(t, n).son|
  {
    var w := Halves(t, n);
    var y := w.son[m];
    T <= y < T + N_CHAR && 0 <= t.prnt[y] < n && w.freq[m] == (t.freq[t.prnt[y]] + 1) / 2
  }

  lemma {:induction false} HalvesAt(t: Tree, n: nat)
    requires Valid(t) && n <= T
    ensures forall m | 0 <= m < |Halves(t, n).son| :: HalfAt(t, n, m)
  {
    if n > 0 {
      HalvesAt(t, n - 1);
      var w, w' := Halves(t, n - 1), Halves(t, n);
      assert Points(n - 1, t.son[n - 1]) && t.prnt[t.son[n - 1]] == n - 1;
      forall m | 0 <= m < |w'.son|
        ensures HalfAt(t, n, m)
      {
        if m < |w.son| {
          assert HalfAt(t, n - 1, m);
          assert w'.son[m] == w.son[m] && w'.freq[m] == w.freq[m];
        }
      }
    }
  }

  lemma HalvesDistinct(t: Tree)
    requires Valid(t)
    ensures Distinct(Halves(t, T).son) && Ordered(Halves(t, T).freq)
  {
    HalvesRising(t, T);
    HalvesAt(t, T);
    var w := Halves(t, T);
    forall a, b | 0 <= a < b < |w.son|
      ensures w.son[a] != w.son[b] && w.freq[a] <= w.freq[b]
    {
      assert HalfAt(t, T, a) && HalfAt(t, T, b);
      assert t.prnt[w.son[a]] < t.prnt[w.son[b]];
    }
  }

  ghost predicate Rising(prnt: seq<int>, s: seq<int>) {
    forall a, b | 0 <= a < b < |s| ::
      0 <= s[a] < |prnt| && 0 <= s[b] < |prnt| && prnt[s[a]] < prnt[s[b]]
  }

  lemma RisingSnoc(prnt: seq<int>, s: seq<int>, y: int)
    requires Rising(prnt, s) && 0 <= y < |prnt|
    requires forall m | 0 <= m < |s| :: 0 <= s[m] < |prnt| && prnt[s[m]] < prnt[y]
    ensures Rising(prnt, s + [y])
  {
  }

  lemma LeafParents(t: Tree, n: nat)
    requires Valid(t) && n <= T
    ensures var s := Halves(t, n).son; forall m | 0 <= m < |s| :: 0 <= s[m] < |t.prnt| && t.prnt[s[m]] < n
  {
    hide Halves;
    HalvesAt(t, n);
    var s := Halves(t, n).son;
    forall m | 0 <= m < |s|
      ensures 0 <= s[m] < |t.prnt| && t.prnt[s[m]] < n
    {
      assert HalfAt(t, n, m);
    }
  }

  lemma OwnLeaf(t: Tree, i: int)
    requires Valid(t) && 0 <= i < T
    ensures 0 <= t.son[i] < |t.prnt| && t.prnt[t.son[i]] == i
  {
    assert Points(i, t.son[i]);
  }

  /** The collection follows the order of the tree. */
  lemma {:induction false} HalvesRising(t: Tree, n: nat)
    requires Valid(t) && n <= T
    ensures Rising(t.prnt, Halves(t, n).son)
  {
    hide Valid, Halves, Rising;
    ValidSized(t);
    if n == 0 {
      HalvesNone(t);
      NothingRises(t.prnt);
    } else {
      HalvesRising(t, n - 1);
      HalvesStep(t, n - 1);
      LeafParents(t, n - 1);
      OwnLeaf(t, n - 1);
      if t.son[n - 1] >= T { RisingSnoc(t.prnt, Halves(t, n - 1).son, t.son[n - 1]); }
    }
  }

  lemma ValidSized(t: Tree)
    requires Valid(t)
    ensures Sized(t)
  {
  }

  lemma NothingRises(prnt: seq<int>)
    ensures Rising(prnt, [])
  {
  }

  lemma {:induction false} HalvesComplete(t: Tree, n: nat, y: int)
    requires Valid(t) && n <= T && T <= y < T + N_CHAR && t.prnt[y] < n
    ensures y in Halves(t, n).son
  {
    if t.prnt[y] < n - 1 {
      HalvesComplete(t, n - 1, y);
    } else {
      assert t.son[t.prnt[y]] == y;
    }
  }

  lemma SymbolsSnoc(s: seq<int>, y: int)
    ensures Symbols(s + [y]) == if y >= T then Symbols(s) + [y] else Symbols(s)
  {
    assert (s + [y])[..|s|] == s;
  }

  lemma NoSymbols()
    ensures Symbols([]) == []
  {
  }

  lemma {:induction false} HalvesSymbols(t: Tree, n: nat)
    requires Sized(t) && n <= T
    ensures Symbols(t.son[..n]) == Halves(t, n).son
    ensures forall m | 0 <= m < |Halves(t, n).son| :: T <= Halves(t, n).son[m]
  {
    hide Symbols;
    NoSymbols();
    if n > 0 {
      HalvesSymbols(t, n - 1);
      assert t.son[..n] == t.son[..n - 1] + [t.son[n - 1]];
      SymbolsSnoc(t.son[..n - 1], t.son[n - 1]);
    }
  }

  lemma {:induction false} SymbolsOnly(s: seq<int>)
    requires forall m | 0 <= m < |s| :: T <= s[m]
    ensures Symbols(s) == s
  {
    if s != [] {
      SymbolsOnly(s[..|s| - 1]);
    }
  }

  /** A list without repetition has as many elements as its set. */
  lemma {:induction false} DistinctCount(s: seq<int>)
    requires Distinct(s)
    ensures |set y | y in s| == |s|
  {
    if s != [] {
      var init, x := s[..|s| - 1], s[|s| - 1];
      DistinctCount(init);
      assert (set y | y in s) == (set y | y in init) + {x};
      assert x !in init;
    }
  }

  ghost function Range(lo: int, n: nat): (r: set<int>)
    ensures |r| == n && forall y :: y in r <==> lo <= y < lo + n
  {
    if n == 0 then {} else Range(lo, n - 1) + {lo + n - 1}
  }

  /** There are as many leaves as symbols. */
  lemma HalvesCount(t: Tree)
    requires Valid(t)
    ensures |Halves(t, T).freq| == |Halves(t, T).son| == N_CHAR
    ensures forall y | T <= y < T + N_CHAR :: y in Halves(t, T).son
  {
    var son := Halves(t, T).son;
    forall y | T <= y < T + N_CHAR
      ensures y in son
    {
      assert 0 <= t.prnt[y] < T;
      HalvesComplete(t, T, y);
    }
    HalvesAt(t, T);
    HalvesDistinct(t);
    DistinctCount(son);
    forall y | y in son
      ensures T <= y < T + N_CHAR
    {
      var m := Position(son, y);
      assert HalfAt(t, T, m);
    }
    assert (set y | y in son) == Range(T, N_CHAR);
  }

  /** Leaves alone are a forest that can grow. */
  lemma HalvesGrowing(t: Tree)
    requires Valid(t)
    ensures Growing(Halves(t, T))
  {
    HalvesCount(t);
    HalvesAt(t, T);
    HalvesDistinct(t);
    forall m | 0 <= m < N_CHAR
      ensures NodeOk(Halves(t, T), m)
    {
      assert HalfAt(t, T, m);
    }
  }

  // ---- the rebuilt tree

  ghost function Rebuild(t: Tree): Tree
    requires Valid(t)
  {
    HalvesGrowing(t);
    var w := Grow(Halves(t, T));
    GrowPoints(t);
    var son := w.son + [t.son[T]];
    Tree(w.freq + [t.freq[T]], son, Connect(son, t.prnt, 0))
  }

  lemma GrowPoints(t: Tree)
    requires Valid(t)
    ensures Growing(Halves(t, T)) && Growing(Grow(Halves(t, T)))
    ensures forall m | 0 <= m < T :: Points(m, (Grow(Halves(t, T)).son + [t.son[T]])[m])
  {
    HalvesGrowing(t);
    GrowGrowing(Halves(t, T));
    var w := Grow(Halves(t, T));
    forall m | 0 <= m < T
      ensures Points(m, (w.son + [t.son[T]])[m])
    {
      assert NodeOk(w, m);
    }
  }

  lemma GrownTree(w: Forest, t: Tree)
    requires Growing(w) && |w.freq| == T && Sized(t) && t.freq[..T] == w.freq && t.son[..T] == w.son
    ensures Sorted(t.freq) && Summed(t, -1)
  {
    forall i | 0 <= i < T
      ensures SummedAt(t, -1, i) && 1 <= t.freq[i]
    {
      assert NodeOk(w, i);
      assert t.freq[i] == w.freq[i] && t.son[i] == w.son[i];
      var s := t.son[i];
      if s < T { assert t.freq[s] == w.freq[s] && t.freq[s + 1] == w.freq[s + 1]; }
    }
    forall i, j | 0 <= i <= j < T
      ensures t.freq[i] <= t.freq[j]
    {
      assert t.freq[i] == w.freq[i] && t.freq[j] == w.freq[j];
    }
  }

  /** A rebuilt tree is valid, keeps the order of the leaves, halves each weight and so the total. */
  lemma RebuildValid(t: Tree)
    requires Valid(t)
    ensures Valid(Rebuild(t))
    ensures Symbols(Rebuild(t).son[..T]) == Symbols(t.son[..T])
    ensures 2 * Rebuild(t).freq[R] <= t.freq[R] + N_CHAR
  {
    hide Growing, Symbols, Connect;
    GrowPoints(t);
    var h, r := Halves(t, T), Rebuild(t);
    var w := Grow(h);
    HalvesCount(t);
    assert r.freq[..T] == w.freq && r.son[..T] == w.son;
    ConnectLinked(w, t.son[T], t.prnt);
    GrownTree(w, r);
    GrowWeight(h);
    HalvesWeight(t, T);
    LeavesWeighRoot(t);
    GrowSymbols(h);
    HalvesSymbols(t, T);
    SymbolsOnly(h.son);
  }

  /** Each symbol's weight is halved, rounding up. */
  lemma RebuildWeight(t: Tree, s: int)
    requires Valid(t) && 0 <= s < N_CHAR
    ensures Valid(Rebuild(t)) && Weight(Rebuild(t), s) == (Weight(t, s) + 1) / 2
  {
    hide Growing, Weighs, Connect, Grow, Halves, Linked, Sorted;
    RebuildValid(t);
    GrowPoints(t);
    var v := HalvesWeigh(t);
    GrowWeighs(Halves(t, T), v);
    var w, r := Grow(Halves(t, T)), Rebuild(t);
    assert r.freq[..T] == w.freq && r.son[..T] == w.son;
    GrownWeight(w, r, v, s);
  }

  /** A symbol's weight in the tree that has been grown. */
  lemma GrownWeight(w: Forest, t: Tree, v: seq<int>, s: int)
    requires Valid(t) && w.freq == t.freq[..T] && w.son == t.son[..T] && Weighs(w, v) && 0 <= s < N_CHAR
    ensures Weight(t, s) == v[s]
  {
    var m := t.prnt[s + T];
    assert t.son[m] == Base(s + T);
    assert w.son[m] == t.son[m] && w.freq[m] == t.freq[m];
  }

  lemma HalvesWeigh(t: Tree) returns (v: seq<int>)
    requires Valid(t)
    ensures Weighs(Halves(t, T), v) && forall s | 0 <= s < N_CHAR :: v[s] == (Weight(t, s) + 1) / 2
  {
    HalvesAt(t, T);
    var h := Halves(t, T);
    v := seq(N_CHAR, i requires 0 <= i < N_CHAR => (Weight(t, i) + 1) / 2);
    forall m | 0 <= m < |h.son| && T <= h.son[m] < T + N_CHAR
      ensures h.freq[m] == v[h.son[m] - T]
    {
      assert HalfAt(t, T, m);
    }
  }

  lemma {:induction false} HalvesWeight(t: Tree, n: nat)
    requires Valid(t) && n <= T
    ensures 2 * SumFrom(Halves(t, n).freq, 0) <= LeafWeight(t, n) + |Halves(t, n).freq|
  {
    if n > 0 {
      HalvesWeight(t, n - 1);
      var w := Halves(t, n - 1).freq;
      var v := (t.freq[n - 1] + 1) / 2;
      SumInsert(w, |w|, v, 0);
      assert InsertAt(w, |w|, v) == w + [v];
    }
  }
}
