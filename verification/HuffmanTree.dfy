/** The adaptive Huffman tree of encode/lzh.c as a value: the arrays freq, son and prnt of lzh_t, the invariant
    they keep, and the effect of lzh_update without its rebuild. */
module HuffmanTree {

  const N_CHAR := 314       // symbols: 256 bytes and the match lengths 3 to 60
  const T := 627            // nodes
  const R := 626            // the root
  const MAX_FREQ := 0x8000  // root weight that triggers a rebuild
  const SENTINEL := 0xFFFF  // freq[T]

  /** Node i has weight freq[i]; son[i] is its first son, or T plus a symbol at a leaf; prnt is the inverse of son. */
  datatype Tree = Tree(freq: seq<int>, son: seq<int>, prnt: seq<int>)

  /** Sons come in pairs that start at an even index; a leaf's symbol stands alone. */
  function Base(x: int): int {
    if x >= T then x else x - x % 2
  }

  ghost predicate Sized(t: Tree) {
    |t.freq| == T + 1 && |t.son| == T + 1 && |t.prnt| == T + N_CHAR && t.freq[T] == SENTINEL
  }

  ghost predicate Sorted(freq: seq<int>)
    requires |freq| >= T
  {
    && (forall i, j | 0 <= i <= j < T :: freq[i] <= freq[j])
    && (forall i | 0 <= i < T :: 1 <= freq[i])
  }

  /** What node i may point to: a symbol, or a pair of nodes below it. */
  ghost predicate Points(i: int, s: int) {
    T <= s < T + N_CHAR || (0 <= s && s % 2 == 0 && s + 1 < i)
  }

  ghost predicate Linked(son: seq<int>, prnt: seq<int>)
    requires |son| >= T && |prnt| == T + N_CHAR
  {
    && (forall i | 0 <= i < T :: Points(i, son[i]))
    && (forall i | 0 <= i < T :: prnt[son[i]] == i)
    && (forall x | 0 <= x < T + N_CHAR && x != R :: 0 <= prnt[x] < T && son[prnt[x]] == Base(x))
    && prnt[R] == 0
  }

  /** An internal node weighs what its sons weigh, node c still lacking one. */
  ghost predicate SummedAt(t: Tree, c: int, i: int)
    requires Sized(t) && 0 <= i < T
  {
    var s := t.son[i];
    s < T ==> 0 <= s < T - 1 && t.freq[i] + (if i == c then 1 else 0) == t.freq[s] + t.freq[s + 1]
  }

  ghost predicate Summed(t: Tree, c: int)
    requires Sized(t)
  {
    forall i | 0 <= i < T :: SummedAt(t, c, i)
  }

  /** The sibling property, with the bounds the code relies on. */
  ghost predicate Valid(t: Tree) {
    && Sized(t) && Sorted(t.freq) && Linked(t.son, t.prnt) && Summed(t, -1)
    && t.freq[R] <= MAX_FREQ
  }

  /** Valid but for node c, which is about to gain one. */
  ghost predicate Pending(t: Tree, c: int) {
    && Sized(t) && Sorted(t.freq) && Linked(t.son, t.prnt) && 0 <= c <= R && Summed(t, c)
    && t.freq[R] < MAX_FREQ
  }

  /** The weight of symbol s. */
  ghost function Weight(t: Tree, s: int): int
    requires Sized(t) && Linked(t.son, t.prnt) && 0 <= s < N_CHAR
  {
    t.freq[t.prnt[s + T]]
  }

  /** The last node of the same weight. */
  function Leader(freq: seq<int>, c: int): (l: int)
    requires 0 <= c < T <= |freq|
    ensures c <= l < T && freq[l] == freq[c]
    ensures l + 1 < T ==> freq[l + 1] != freq[l]
    decreases T - c
  {
    if c + 1 < T && freq[c + 1] == freq[c] then Leader(freq, c + 1) else c
  }

  function SetParent(prnt: seq<int>, s: int, p: int): (r: seq<int>)
    requires 0 <= s < |prnt| && (s < T ==> s + 1 < |prnt|)
    ensures |r| == |prnt|
  {
    if s < T then prnt[s := p][s + 1 := p] else prnt[s := p]
  }

  /** Node c trades its place with the last node of its weight and gains one there. */
  ghost function Step(t: Tree, c: int): Tree
    requires Pending(t, c)
  {
    var l := Leader(t.freq, c);
    var i, j := t.son[c], t.son[l];
    Tree(t.freq[l := t.freq[c] + 1], t.son[c := j][l := i], SetParent(SetParent(t.prnt, i, l), j, c))
  }

  /** One is added along the path from node c to the root. */
  ghost function Bump(t: Tree, c: int): Tree
    requires Pending(t, c)
    decreases R - c
  {
    if c == R then t.(freq := t.freq[R := t.freq[R] + 1])
    else
      StepPending(t, c);
      var l := Leader(t.freq, c);
      Bump(Step(t, c), t.prnt[l])
  }

  /** The root's sons are the two nodes right below it, and every other node is lighter than the root. */
  lemma RootIsHeaviest(t: Tree, c: int)
    requires Pending(t, c)
    ensures t.son[R] == R - 2
    ensures forall x | 0 <= x < R && c != R :: t.freq[x] < t.freq[R]
  {
    var p := t.prnt[R - 1];
    assert Base(R - 1) == R - 2;
    assert Points(p, t.son[p]);
    if c != R {
      assert SummedAt(t, c, R);
      assert t.freq[R - 2] >= 1;
    }
  }

  lemma SetParentAt(prnt: seq<int>, s: int, p: int, x: int)
    requires |prnt| == T + N_CHAR && 0 <= x < |prnt|
    requires T <= s < T + N_CHAR || (0 <= s && s % 2 == 0 && s + 1 < T)
    ensures SetParent(prnt, s, p)[x] == if Base(x) == s then p else prnt[x]
  {
  }

  /** The leader of a block is no ancestor and no descendant of another member of it. */
  lemma LeaderApart(t: Tree, c: int)
    requires Pending(t, c) && c < R
    ensures c <= Leader(t.freq, c) < R
    ensures Points(c, t.son[Leader(t.freq, c)])
    ensures Points(Leader(t.freq, c), t.son[c])
    ensures c < t.prnt[c] && Leader(t.freq, c) < t.prnt[Leader(t.freq, c)] <= R
  {
    var l := Leader(t.freq, c);
    RootIsHeaviest(t, c);
    assert Points(l, t.son[l]) && Points(c, t.son[c]);
    if l != c && t.son[l] < T {
      var j := t.son[l];
      assert SummedAt(t, c, l);
      assert j + 1 < c;
    }
    ParentAbove(t.son, t.prnt, c);
    ParentAbove(t.son, t.prnt, l);
  }

  /** Parents stand above their sons, so no node but the root has parent 0. */
  lemma ParentAbove(son: seq<int>, prnt: seq<int>, x: int)
    requires |son| >= T && |prnt| == T + N_CHAR && Linked(son, prnt) && 0 <= x < R
    ensures 1 < prnt[x] <= R && x < prnt[x]
  {
    assert Points(prnt[x], son[prnt[x]]);
  }

  lemma StepSized(t: Tree, c: int)
    requires Pending(t, c) && c < R
    ensures Sized(Step(t, c))
  {
    LeaderApart(t, c);
  }

  lemma StepSon(t: Tree, c: int)
    requires Pending(t, c) && c < R
    ensures var l, t' := Leader(t.freq, c), Step(t, c);
      && Sized(t')
      && (forall i | 0 <= i < T :: t'.son[i] == if i == c then t.son[l] else if i == l then t.son[c] else t.son[i])
      && (forall x | 0 <= x < T + N_CHAR ::
            t'.prnt[x] == if Base(x) == t.son[l] then c else if Base(x) == t.son[c] then l else t.prnt[x])
  {
    var l := Leader(t.freq, c);
    LeaderApart(t, c);
    var p := SetParent(t.prnt, t.son[c], l);
    forall x | 0 <= x < T + N_CHAR
      ensures SetParent(p, t.son[l], c)[x] == if Base(x) == t.son[l] then c else if Base(x) == t.son[c] then l
        else t.prnt[x]
    {
      SetParentAt(t.prnt, t.son[c], l, x);
      SetParentAt(p, t.son[l], c, x);
    }
  }

  lemma StepLinked(t: Tree, c: int)
    requires Pending(t, c) && c < R
    ensures var t' := Step(t, c); Sized(t') && Linked(t'.son, t'.prnt)
  {
    StepSon(t, c);
    LeaderApart(t, c);
    var l, t' := Leader(t.freq, c), Step(t, c);
    forall i | 0 <= i < T
      ensures Points(i, t'.son[i]) && t'.prnt[t'.son[i]] == i
    {
      assert Points(i, t.son[i]) && t.prnt[t.son[i]] == i;
      assert t.prnt[t.son[c]] == c && t.prnt[t.son[l]] == l;
    }
    forall x | 0 <= x < T + N_CHAR && x != R
      ensures 0 <= t'.prnt[x] < T && t'.son[t'.prnt[x]] == Base(x)
    {
      assert 0 <= t.prnt[x] < T && t.son[t.prnt[x]] == Base(x);
    }
    assert Points(c, t.son[c]) && Points(l, t.son[l]);
  }

  lemma StepSorted(t: Tree, c: int)
    requires Pending(t, c) && c < R
    ensures Sorted(Step(t, c).freq) && Step(t, c).freq[R] == t.freq[R]
  {
    LeaderApart(t, c);
    var l := Leader(t.freq, c);
    assert t.freq[l] < t.freq[l + 1];
  }

  /** The pair that the leader belongs to is known by the node above it. */
  lemma AboveLeader(t: Tree, l: int, i: int)
    requires Sized(t) && Linked(t.son, t.prnt) && 0 <= l < R && 0 <= i < T
    ensures i == t.prnt[l] <==> t.son[i] == Base(l)
  {
    var q := t.prnt[l];
    assert t.son[q] == Base(l) && t.prnt[t.son[q]] == q && t.prnt[t.son[i]] == i;
  }

  lemma StepSummedAt(t: Tree, c: int, i: int)
    requires Pending(t, c) && c < R && 0 <= i < T
    ensures Sized(Step(t, c)) && SummedAt(Step(t, c), t.prnt[Leader(t.freq, c)], i)
  {
    hide Pending, Leader, Step, Linked, Points, Base;
    PendingAt(t, c, i);
    PendingAt(t, c, c);
    StepTables(t, c);
    LeaderApart(t, c);
    var l := Leader(t.freq, c);
    PendingAt(t, c, l);
    AboveLeader(t, l, i);
    SummedAfterSwap(t.freq, t.son, c, l, i, t.prnt[l]);
  }

  lemma PendingAt(t: Tree, c: int, i: int)
    requires Pending(t, c) && 0 <= i < T
    ensures 0 <= c <= R && Sized(t) && Linked(t.son, t.prnt) && Points(i, t.son[i]) && SummedAt(t, c, i)
  {
  }

  lemma StepTables(t: Tree, c: int)
    requires Pending(t, c) && c < R
    ensures var l, t' := Leader(t.freq, c), Step(t, c);
      && Sized(t')
      && t'.freq == t.freq[l := t.freq[c] + 1] && t'.son == t.son[c := t.son[l]][l := t.son[c]]
  {
    StepSized(t, c);
  }

  /** The arithmetic of a step at node i. */
  lemma SummedAfterSwap(f: seq<int>, son: seq<int>, c: int, l: int, i: int, q: int)
    requires |f| == |son| == T + 1 && 0 <= c <= l < R && l < q <= R && 0 <= i < T && f[c] == f[l]
    requires Points(c, son[c]) && Points(c, son[l]) && Points(i, son[i])
    requires i == q <==> son[i] == Base(l)
    requires son[c] < T ==> f[c] + 1 == f[son[c]] + f[son[c] + 1]
    requires c != l && son[l] < T ==> f[l] == f[son[l]] + f[son[l] + 1]
    requires i != c && son[i] < T ==> f[i] == f[son[i]] + f[son[i] + 1]
    ensures var f', s' := f[l := f[c] + 1], son[c := son[l]][l := son[c]];
      s'[i] < T ==> 0 <= s'[i] < T - 1 && f'[i] + (if i == q then 1 else 0) == f'[s'[i]] + f'[s'[i] + 1]
  {
  }

  lemma StepParent(t: Tree, c: int)
    requires Pending(t, c) && c < R
    ensures Step(t, c).prnt[Leader(t.freq, c)] == t.prnt[Leader(t.freq, c)]
  {
    LeaderApart(t, c);
    StepSon(t, c);
    var l := Leader(t.freq, c);
    assert Points(c, t.son[c]) && Points(c, t.son[l]);
  }

  lemma StepSummed(t: Tree, c: int)
    requires Pending(t, c) && c < R
    ensures Sized(Step(t, c)) && Summed(Step(t, c), t.prnt[Leader(t.freq, c)])
  {
    StepSized(t, c);
    forall i | 0 <= i < T
      ensures SummedAt(Step(t, c), t.prnt[Leader(t.freq, c)], i)
    {
      StepSummedAt(t, c, i);
    }
  }

  lemma StepPending(t: Tree, c: int)
    requires Pending(t, c) && c < R
    ensures c < t.prnt[Leader(t.freq, c)] <= R
    ensures Step(t, c).prnt[Leader(t.freq, c)] == t.prnt[Leader(t.freq, c)]
    ensures Pending(Step(t, c), t.prnt[Leader(t.freq, c)])
  {
    LeaderApart(t, c);
    StepLinked(t, c);
    StepSorted(t, c);
    StepParent(t, c);
    StepSummed(t, c);
  }

  /** The sibling property comes back once the root has gained its one. */
  lemma {:induction false} BumpValid(t: Tree, c: int)
    requires Pending(t, c)
    ensures Valid(Bump(t, c)) && Bump(t, c).freq[R] == t.freq[R] + 1
    decreases R - c
  {
    if c == R {
      RootIsHeaviest(t, c);
      var t' := Bump(t, c);
      assert t'.freq[R] == t.freq[R] + 1 && t'.son == t.son && t'.prnt == t.prnt;
      forall i | 0 <= i < T
        ensures SummedAt(t', -1, i)
      {
        assert SummedAt(t, c, i) && Points(i, t.son[i]);
      }
    } else {
      StepPending(t, c);
      StepSorted(t, c);
      BumpValid(Step(t, c), t.prnt[Leader(t.freq, c)]);
    }
  }

  lemma StepWeight(t: Tree, c: int, s: int)
    requires Pending(t, c) && c < R && 0 <= s < N_CHAR
    ensures Pending(Step(t, c), t.prnt[Leader(t.freq, c)])
    ensures Weight(Step(t, c), s) == Weight(t, s) + if t.prnt[s + T] == c then 1 else 0
    ensures Step(t, c).prnt[s + T] != t.prnt[Leader(t.freq, c)]
  {
    hide Pending, Step, Leader, Points, Summed, Sorted;
    StepPending(t, c);
    StepSon(t, c);
    StepTables(t, c);
    PendingAt(t, c, R);
    LeaderApart(t, c);
    var l, x, t' := Leader(t.freq, c), t.prnt[s + T], Step(t, c);
    PendingAt(t', t.prnt[l], R);
    assert t.son[x] == Base(s + T) == s + T;
    assert t.prnt[t.son[c]] == c && t.prnt[t.son[l]] == l;
    assert t'.son[t'.prnt[s + T]] == s + T;
    assert t'.son[t'.prnt[l]] == Base(l);
  }

  /** Bumping the leaf of a symbol adds one to that symbol and leaves all others alone. */
  lemma {:induction false} BumpWeight(t: Tree, c: int, s: int)
    requires Pending(t, c) && 0 <= s < N_CHAR
    ensures Valid(Bump(t, c))
    ensures Weight(Bump(t, c), s) == Weight(t, s) + if t.prnt[s + T] == c then 1 else 0
    decreases R - c
  {
    BumpValid(t, c);
    if c == R {
      RootIsHeaviest(t, c);
      assert t.son[t.prnt[s + T]] == s + T;
    } else {
      StepPending(t, c);
      StepWeight(t, c, s);
      BumpWeight(Step(t, c), t.prnt[Leader(t.freq, c)], s);
    }
  }

  // ---- conservation: the root weighs what all symbols weigh together

  /** The weight of the leaves among the first n nodes. */
  ghost function LeafWeight(t: Tree, n: nat): int
    requires Sized(t) && n <= T
  {
    if n == 0 then 0 else LeafWeight(t, n - 1) + if t.son[n - 1] >= T then t.freq[n - 1] else 0
  }

  /** The parent, the root's being above all nodes. */
  ghost function Up(t: Tree, x: int): int
    requires Sized(t) && 0 <= x < T
  {
    if x == R then T else t.prnt[x]
  }

  /** The weight of those of the first n nodes that hang from node m or higher. */
  ghost function CutWeight(t: Tree, m: int, n: nat): int
    requires Sized(t) && n <= T
  {
    if n == 0 then 0 else CutWeight(t, m, n - 1) + if Up(t, n - 1) >= m then t.freq[n - 1] else 0
  }

  lemma {:induction false} CutStep(t: Tree, m: int, n: nat)
    requires Valid(t) && 0 <= m < T && n <= T
    ensures var s := t.son[m];
      CutWeight(t, m, n) == CutWeight(t, m + 1, n)
        + (if s < n then t.freq[s] else 0) + (if s + 1 < n && s < T then t.freq[s + 1] else 0)
  {
    assert Points(m, t.son[m]);
    if n > 0 {
      CutStep(t, m, n - 1);
      var s, x := t.son[m], n - 1;
      assert t.prnt[s] == m;
      if x != R {
        assert t.son[t.prnt[x]] == Base(x) && t.prnt[t.son[t.prnt[x]]] == t.prnt[x];
        assert t.prnt[x] == m <==> s == Base(x);
      }
    }
  }

  lemma {:induction false} CutTop(t: Tree, n: nat)
    requires Valid(t) && n <= T
    ensures CutWeight(t, T, n) == if n == T then t.freq[R] else 0
  {
    if n > 0 {
      CutTop(t, n - 1);
    }
  }

  lemma {:induction false} CutConserved(t: Tree, m: nat)
    requires Valid(t) && m <= T
    ensures CutWeight(t, m, m) + LeafWeight(t, T) - LeafWeight(t, m) == t.freq[R]
    decreases T - m
  {
    if m == T {
      CutTop(t, T);
    } else {
      CutConserved(t, m + 1);
      CutStep(t, m, m);
      assert Points(m, t.son[m]) && SummedAt(t, -1, m);
      assert Up(t, m) >= m + 1 by {
        if m < R { ParentAbove(t.son, t.prnt, m); }
      }
    }
  }

  lemma LeavesWeighRoot(t: Tree)
    requires Valid(t)
    ensures LeafWeight(t, T) == t.freq[R]
  {
    CutConserved(t, 0);
  }
}
