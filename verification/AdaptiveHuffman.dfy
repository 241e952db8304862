/** lzh_start_huff, lzh_reconst and lzh_update of encode/lzh.c on the arrays of lzh_t, each proved equal to a
    function on trees. */
module AdaptiveHuffman {
  import opened HuffmanTree
  import opened HuffmanRebuild

  /** The forest of all symbols, each of weight one. */
  ghost function Seeds(): Forest {
    Forest(seq(N_CHAR, i => 1), seq(N_CHAR, i => i + T))
  }

  lemma SeedsGrowing()
    ensures Growing(Seeds())
  {
    var w := Seeds();
    forall y | T <= y < T + N_CHAR
      ensures y in w.son
    {
      assert w.son[y - T] == y;
    }
  }

  /** The initial tree is the one a rebuild makes of equal leaves. */
  ghost function Start(): Tree {
    SeedsGrowing();
    StartPoints();
    var w := Grow(Seeds());
    Tree(w.freq + [SENTINEL], w.son + [0], Connect(w.son + [0], NoParents(), 0))
  }

  /** The parent table of a zeroed lzh_t. */
  ghost function NoParents(): (p: seq<int>)
    ensures |p| == T + N_CHAR && p[R] == 0
  {
    seq(T + N_CHAR, i => 0)
  }

  lemma StartPoints()
    ensures Growing(Grow(Seeds()))
    ensures forall m | 0 <= m < T :: Points(m, (Grow(Seeds()).son + [0])[m])
  {
    SeedsGrowing();
    GrowGrowing(Seeds());
    var w := Grow(Seeds());
    forall m | 0 <= m < T
      ensures Points(m, (w.son + [0])[m])
    {
      assert NodeOk(w, m);
    }
  }

  lemma {:induction false} SumOnes(s: seq<int>, i: nat)
    requires i <= |s| && forall x | 0 <= x < |s| :: s[x] == 1
    ensures SumFrom(s, i) == |s| - i
    decreases |s| - i
  {
    if i < |s| {
      SumOnes(s, i + 1);
    }
  }

  lemma StartWeight()
    ensures Growing(Seeds()) && Grow(Seeds()).freq[R] == N_CHAR
  {
    SeedsGrowing();
    GrowWeight(Seeds());
    SumOnes(Seeds().freq, 0);
  }

  lemma StartValid()
    ensures Valid(Start()) && Start().freq[R] == N_CHAR
  {
    hide Growing, Connect, Seeds, NoParents;
    StartPoints();
    StartWeight();
    var t, w := Start(), Grow(Seeds());
    assert t.freq[..T] == w.freq && t.son[..T] == w.son;
    ConnectLinked(w, 0, NoParents());
    GrownTree(w, t);
  }

  /** The tree after coding symbol s. */
  ghost function Updated(t: Tree, s: int): Tree
    requires Valid(t) && 0 <= s < N_CHAR
  {
    UpdatePending(t, s);
    var t' := Fresh(t);
    Bump(t', t'.prnt[s + T])
  }

  /** The tree that update climbs: rebuilt first when the root has reached its limit. */
  ghost function Fresh(t: Tree): Tree
    requires Valid(t)
  {
    if t.freq[R] == MAX_FREQ then Rebuild(t) else t
  }

  lemma FreshValid(t: Tree)
    requires Valid(t)
    ensures Valid(Fresh(t)) && Fresh(t).freq[R] < MAX_FREQ
    ensures t.freq[R] == MAX_FREQ ==> Fresh(t).freq[R] <= (MAX_FREQ + N_CHAR) / 2
  {
    if t.freq[R] == MAX_FREQ {
      RebuildValid(t);
    }
  }

  lemma UpdatePending(t: Tree, s: int)
    requires Valid(t) && 0 <= s < N_CHAR
    ensures Valid(Fresh(t)) && Pending(Fresh(t), Fresh(t).prnt[s + T])
  {
    FreshValid(t);
    var t' := Fresh(t);
    var c := t'.prnt[s + T];
    assert t'.son[c] == Base(s + T) == s + T;
    forall i | 0 <= i < T
      ensures SummedAt(t', c, i)
    {
      assert SummedAt(t', -1, i);
    }
  }

  /** Updating keeps the sibling property and adds one to the root, halved or not. */
  lemma UpdateValid(t: Tree, s: int)
    requires Valid(t) && 0 <= s < N_CHAR
    ensures Valid(Updated(t, s)) && Updated(t, s).freq[R] == Fresh(t).freq[R] + 1
  {
    UpdatePending(t, s);
    BumpValid(Fresh(t), Fresh(t).prnt[s + T]);
  }

  /** The coded symbol gains one; a rebuild halves all weights first, rounding up. */
  lemma UpdateWeight(t: Tree, s: int, x: int)
    requires Valid(t) && 0 <= s < N_CHAR && 0 <= x < N_CHAR
    ensures Valid(Updated(t, s))
    ensures Weight(Updated(t, s), x) ==
            (if t.freq[R] == MAX_FREQ then (Weight(t, x) + 1) / 2 else Weight(t, x)) + (if x == s then 1 else 0)
  {
    hide Valid, Pending, Bump, Rebuild, Fresh;
    UpdateValid(t, s);
    UpdatePending(t, s);
    var t' := Fresh(t);
    LeavesApart(t', s, x);
    BumpWeight(t', t'.prnt[s + T], x);
    FreshWeight(t, x);
  }

  lemma LeavesApart(t: Tree, s: int, x: int)
    requires Valid(t) && 0 <= s < N_CHAR && 0 <= x < N_CHAR
    ensures Sized(t) && Linked(t.son, t.prnt) && (t.prnt[x + T] == t.prnt[s + T] <==> x == s)
  {
    assert t.son[t.prnt[s + T]] == Base(s + T) && t.son[t.prnt[x + T]] == Base(x + T);
  }

  lemma FreshWeight(t: Tree, x: int)
    requires Valid(t) && Valid(Fresh(t)) && 0 <= x < N_CHAR
    ensures Weight(Fresh(t), x) == if t.freq[R] == MAX_FREQ then (Weight(t, x) + 1) / 2 else Weight(t, x)
  {
    hide Rebuild;
    if t.freq[R] == MAX_FREQ {
      RebuildWeight(t, x);
    }
  }

  /** A tree after coding some symbols. */
  ghost function Run(t: Tree, symbols: seq<int>): (r: Tree)
    requires Valid(t) && forall i | 0 <= i < |symbols| :: 0 <= symbols[i] < N_CHAR
    ensures Valid(r)
    decreases |symbols|
  {
    if symbols == [] then t
    else
      UpdateValid(t, symbols[0]);
      Run(Updated(t, symbols[0]), symbols[1..])
  }

  /** The parent table is determined by the sons. */
  lemma ParentsUnique(son: seq<int>, p: seq<int>, q: seq<int>)
    requires |son| >= T && |p| == |q| == T + N_CHAR && Linked(son, p) && Linked(son, q)
    ensures p == q
  {
    forall x | 0 <= x < T + N_CHAR
      ensures p[x] == q[x]
    {
      if x != R {
        assert son[p[x]] == Base(x) == son[q[x]];
        assert q[son[p[x]]] == p[x] && q[son[q[x]]] == q[x];
      }
    }
  }

  /** Conversion to a signed 16-bit value. */
  function Short(x: int): int
    requires 0 <= x < 0x1_0000
  {
    if x >= 0x8000 then x - 0x1_0000 else x
  }

  /** Conversion of a signed value to an unsigned 32-bit one. */
  function Unsigned(k: int): int {
    if k < 0 then k + 0x1_0000_0000 else k
  }

  class HuffmanArrays {
    const freq: array<int>
    const son: array<int>
    const prnt: array<int>

    ghost predicate Shape() {
      && freq != son && freq != prnt && son != prnt
      && freq.Length == T + 1 && son.Length == T + 1 && prnt.Length == T + N_CHAR
    }

    ghost function View(): Tree
      reads freq, son, prnt
    {
      Tree(freq[..], son[..], prnt[..])
    }

    /** A zeroed lzh_t. */
    constructor ()
      ensures Shape() && fresh(freq) && fresh(son) && fresh(prnt)
      ensures forall i | 0 <= i <= T :: son[i] == 0
    {
      freq := new int[T + 1](_ => 0);
      son := new int[T + 1](_ => 0);
      prnt := new int[T + N_CHAR](_ => 0);
    }

    /** lzh_start_huff */
    method StartHuff()
      requires Shape() && son[T] == 0
      modifies freq, son, prnt
      ensures View() == Start() && Valid(View())
    {
      hide Valid, Start, Linked;
      SetLeaves();
      PairUp();
      freq[T] := SENTINEL;
      prnt[R] := 0;
      StartIs(freq[..], son[..], prnt[..]);
    }

    /** The first loop: a leaf of weight 1 for each symbol. */
    method SetLeaves()
      requires Shape() && son[T] == 0
      modifies freq, son, prnt
      ensures son[T] == 0 && forall m | 0 <= m < N_CHAR :: freq[m] == 1 && son[m] == m + T
      ensures forall x | T <= x < T + N_CHAR :: prnt[x] == x - T
    {
      for i := 0 to N_CHAR
        invariant son[T] == 0
        invariant forall m | 0 <= m < i :: freq[m] == 1 && son[m] == m + T
        invariant forall x | T <= x < T + i :: prnt[x] == x - T
      {
        freq[i] := 1;
        son[i] := i + T;
        prnt[i + T] := i;
      }
    }

    /** The second loop: adjacent nodes are paired from the front on. */
    method PairUp()
      requires Shape() && son[T] == 0 && forall m | 0 <= m < N_CHAR :: freq[m] == 1 && son[m] == m + T
      requires forall x | T <= x < T + N_CHAR :: prnt[x] == x - T
      modifies freq, son, prnt
      ensures son[T] == 0 && forall m | 0 <= m < N_CHAR :: freq[m] == 1 && son[m] == m + T
      ensures forall x | T <= x < T + N_CHAR :: prnt[x] == x - T
      ensures forall m | N_CHAR <= m < T :: son[m] == Front(m) && freq[m] == freq[Front(m)] + freq[Front(m) + 1]
      ensures forall x | 0 <= x < R :: prnt[x] == N_CHAR + x / 2
    {
      var i, j := 0, N_CHAR;
      while j <= R
        invariant N_CHAR <= j <= T && i == Front(j) && son[T] == 0
        invariant forall m | 0 <= m < N_CHAR :: freq[m] == 1 && son[m] == m + T
        invariant forall x | T <= x < T + N_CHAR :: prnt[x] == x - T
        invariant forall m | N_CHAR <= m < j :: son[m] == Front(m) && freq[m] == freq[Front(m)] + freq[Front(m) + 1]
        invariant forall x | 0 <= x < i :: prnt[x] == N_CHAR + x / 2
        decreases T - j
      {
        freq[j] := freq[i] + freq[i + 1];
        son[j] := i;
        prnt[i] := j;
        prnt[i + 1] := j;
        i, j := i + 2, j + 1;
      }
    }

    /** lzh_reconst */
    method Reconst()
      requires Shape() && Valid(View())
      modifies freq, son, prnt
      ensures View() == Rebuild(old(View()))
    {
      HalveLeaves();
      JoinPairs(old(View()));
      ConnectParents(old(View()));
    }

    /** First loop: the leaves move to the front, their weights halved. */
    method HalveLeaves()
      requires Shape() && Valid(View())
      modifies freq, son
      ensures Forest(freq[..N_CHAR], son[..N_CHAR]) == Halves(old(View()), T)
      ensures freq[T] == old(freq[T]) && son[T] == old(son[T]) && prnt[..] == old(prnt[..])
    {
      hide Halves;
      ghost var t := View();
      HalvesNone(t);
      var j := 0;
      for i := 0 to T
        invariant 0 <= j <= i && j == |Halves(t, i).son|
        invariant freq[..j] == Halves(t, i).freq && son[..j] == Halves(t, i).son
        invariant forall m | i <= m <= T :: freq[m] == t.freq[m] && son[m] == t.son[m]
        invariant prnt[..] == t.prnt
      {
        HalvesStep(t, i);
        if son[i] >= T {
          freq[j] := (freq[i] + 1) / 2;
          son[j] := son[i];
          j := j + 1;
        }
      }
      HalvesCount(t);
    }

    /** memmove by one place, entries k to j - 1 moving up, and the new entry in the gap. */
    method OpenGap(a: array<int>, k: nat, j: nat, v: int)
      requires k <= j < a.Length
      modifies a
      ensures a[..j + 1] == InsertAt(old(a[..j]), k, v)
      ensures forall x | j < x < a.Length :: a[x] == old(a[x])
    {
      ghost var was := a[..j];
      forall x | k < x <= j {
        a[x] := a[x - 1];
      }
      assert a[..k] == was[..k] && a[k + 1..j + 1] == was[k..];
      a[k] := v;
      assert a[..k] == was[..k] && a[k + 1..j + 1] == was[k..];
      assert a[..j + 1] == a[..k] + [v] + a[k + 1..j + 1];
    }

    /** Second loop: pairs are joined until one tree is left. */
    method JoinPairs(ghost t: Tree)
      requires Shape() && Valid(t) && Forest(freq[..N_CHAR], son[..N_CHAR]) == Halves(t, T)
      modifies freq, son
      ensures Growing(Halves(t, T)) && Forest(freq[..T], son[..T]) == Grow(Halves(t, T))
      ensures freq[T] == old(freq[T]) && son[T] == old(son[T]) && prnt[..] == old(prnt[..])
    {
      hide Growing, Join;
      HalvesGrowing(t);
      var i, j := 0, N_CHAR;
      while j < T
        invariant N_CHAR <= j <= T && i == Front(j)
        invariant Growing(Forest(freq[..j], son[..j]))
        invariant Grow(Forest(freq[..j], son[..j])) == Grow(Halves(t, T))
        invariant freq[T] == old(freq[T]) && son[T] == old(son[T]) && prnt[..] == old(prnt[..])
        decreases T - j
      {
        JoinGrowing(Forest(freq[..j], son[..j]));
        JoinOne(i, j);
        i, j := i + 2, j + 1;
      }
    }

    /** One round of the second loop. */
    method JoinOne(i: nat, j: nat)
      requires Shape() && N_CHAR <= j < T && i == Front(j) && Growing(Forest(freq[..j], son[..j]))
      modifies freq, son
      ensures Forest(freq[..j + 1], son[..j + 1]) == Join(old(Forest(freq[..j], son[..j])))
      ensures freq[T] == old(freq[T]) && son[T] == old(son[T]) && prnt[..] == old(prnt[..])
    {
      hide Growing, Slot, InsertAt;
      ghost var w := Forest(freq[..j], son[..j]);
      SlotAbovePair(w);
      var f := freq[i] + freq[i + 1];
      freq[j] := f;
      assert freq[..j] == w.freq;
      var k := FindSlot(f, i, j);
      OpenGap(freq, k, j, f);
      OpenGap(son, k, j, i);
    }

    /** The scan down from the last node. */
    method FindSlot(f: int, i: nat, j: nat) returns (k: nat)
      requires Shape() && i + 1 < j <= T && i + 2 <= Slot(freq[..j], f, j)
      ensures k == Slot(freq[..j], f, j)
    {
      k := j - 1;
      while f < freq[k]
        invariant i + 1 <= k < j && Slot(freq[..j], f, k + 1) == Slot(freq[..j], f, j)
        decreases k
      {
        k := k - 1;
      }
      k := k + 1;
    }

    /** Third loop: the parent table is written anew. */
    method ConnectParents(ghost t: Tree)
      requires Shape() && Valid(t) && Growing(Halves(t, T)) && Forest(freq[..T], son[..T]) == Grow(Halves(t, T))
      requires freq[T] == t.freq[T] && son[T] == t.son[T] && prnt[..] == t.prnt
      modifies prnt
      ensures View() == Rebuild(t)
    {
      hide Growing, Grow, Connect, Points, SetParent;
      GrowPoints(t);
      ghost var s := son[..];
      assert s == son[..T] + [t.son[T]] && freq[..] == freq[..T] + [t.freq[T]];
      for i := 0 to T
        invariant son[..] == s
        invariant Connect(s, prnt[..], i) == Connect(s, t.prnt, 0)
      {
        ConnectStep(s, prnt[..], i);
        OwnSons(son[i], i);
      }
      ConnectStep(s, prnt[..], T);
    }

    /** Node i becomes the parent of the symbol or the pair at k. */
    method OwnSons(k: int, i: int)
      requires Shape() && 0 <= k < T + N_CHAR
      modifies prnt
      ensures prnt[..] == SetParent(old(prnt[..]), k, i)
    {
      prnt[k] := i;
      if k < T {
        prnt[k + 1] := i;
      }
    }

    /** lzh_update */
    method Update(s: int)
      requires Shape() && Valid(View()) && 0 <= s < N_CHAR
      modifies freq, son, prnt
      ensures View() == Updated(old(View()), s) && Valid(View())
    {
      UpdatePending(View(), s);
      UpdateValid(View(), s);
      ghost var t := View();
      if freq[R] == MAX_FREQ {
        Reconst();
      }
      assert View() == Fresh(t);
      var c := prnt[s + T];
      while true
        invariant Pending(View(), c) && Bump(View(), c) == Updated(t, s)
        decreases R - c
      {
        ghost var before := View();
        if c < R { StepPending(before, c); }
        c := Raise(c);
        c := prnt[c];
        if !(c != 0 && c < T) {
          break;
        }
      }
    }

    /** One round of the loop: node c gains one and trades places if it must; its new place is returned. */
    method Raise(c: nat) returns (l: nat)
      requires Shape() && Pending(View(), c)
      modifies freq, son, prnt
      ensures l == Leader(old(freq[..]), c)
      ensures c < R ==> View() == Step(old(View()), c)
      ensures c == R ==> View() == Bump(old(View()), c)
    {
      hide Pending, Step, Bump, Leader, SetParent;
      ghost var t := View();
      RaiseFacts(t, c);
      RaiseResult(t, c);
      freq[c] := freq[c] + 1;
      var k := Short(freq[c]);
      l := c;
      if Unsigned(k) > freq[c + 1] {
        l := ScanUp(c, k, t.freq);
        Exchange(c, l, k);
      }
    }

    /** The scan for the last lighter node. At the root the bound of the table stops it. */
    method ScanUp(c: nat, k: int, ghost was: seq<int>) returns (l: nat)
      requires Shape() && c <= R && |was| == T + 1 && freq[..] == was[c := was[c] + 1]
      requires c < R ==> k == was[c] + 1 && was[c + 1] == was[c] && k <= was[T]
      requires forall i, j | 0 <= i <= j < T :: was[i] <= was[j]
      ensures c <= l < T && l == Leader(was, c)
    {
      l := c + 1;
      var heavier := true;
      while heavier
        invariant c < l <= T && (c == R ==> l == T)
        invariant c < R ==> forall x | c < x < l :: was[x] == was[c]
        invariant c < R ==> (heavier <==> was[l] < k)
        decreases T - l, heavier
      {
        if l < T {
          l := l + 1;
          heavier := k > freq[l];
        } else {
          heavier := false;
        }
      }
      l := l - 1;
      LeaderIs(was, c, l);
    }

    /** Nodes c and l trade their sons; l gets weight k, stored as an unsigned 16-bit value. */
    method Exchange(c: nat, l: nat, k: int)
      requires Shape() && c < T && l < T && -0x8000 <= k < 0x8000
      requires 0 <= son[c] < T + N_CHAR && 0 <= son[l] < T + N_CHAR
      modifies freq, son, prnt
      ensures freq[..] == old(freq[..])[c := old(freq[l])][l := k % 0x1_0000]
      ensures son[..] == old(son[..])[c := old(son[l])][l := old(son[c])]
      ensures prnt[..] == SetParent(SetParent(old(prnt[..]), old(son[c]), l), old(son[l]), c)
    {
      freq[c] := freq[l];
      freq[l] := k % 0x1_0000;
      var i := son[c];
      prnt[i] := l;
      if i < T { prnt[i + 1] := l; }
      var j := son[l];
      son[l] := i;
      prnt[j] := c;
      if j < T { prnt[j + 1] := c; }
      son[c] := j;
    }
  }

  lemma {:induction false} LeaderIs(freq: seq<int>, c: int, l: int)
    requires 0 <= c <= l < T <= |freq|
    requires forall x | c <= x <= l :: freq[x] == freq[c]
    requires l + 1 < T ==> freq[l + 1] != freq[c]
    ensures Leader(freq, c) == l
    decreases l - c
  {
    if c < l {
      LeaderIs(freq, c + 1, l);
    }
  }

  /** What Raise needs to know of a pending tree. */
  lemma RaiseFacts(t: Tree, c: int)
    requires Pending(t, c)
    ensures |t.freq| == |t.son| == T + 1 && |t.prnt| == T + N_CHAR && t.freq[T] == SENTINEL
    ensures forall i, j | 0 <= i <= j < T :: t.freq[i] <= t.freq[j]
    ensures forall i | 0 <= i < T :: 0 <= t.son[i] < T + N_CHAR
    ensures 0 <= t.freq[c] < MAX_FREQ && (c < R ==> t.freq[c] + 1 < MAX_FREQ)
    ensures Leader(t.freq, c) == c ==> SetParent(SetParent(t.prnt, t.son[c], c), t.son[c], c) == t.prnt
  {
    RootIsHeaviest(t, c);
    forall i | 0 <= i < T
      ensures 0 <= t.son[i] < T + N_CHAR
    {
      assert Points(i, t.son[i]);
    }
    OwnParent(t.son, t.prnt, c);
  }

  lemma RaiseResult(t: Tree, c: int)
    requires Pending(t, c)
    requires forall i | 0 <= i < T :: 0 <= t.son[i] < T + N_CHAR
    ensures c < R ==> Step(t, c) == var l := Leader(t.freq, c);
      Tree(t.freq[l := t.freq[c] + 1], t.son[c := t.son[l]][l := t.son[c]],
           SetParent(SetParent(t.prnt, t.son[c], l), t.son[l], c))
    ensures c == R ==> Bump(t, c) == t.(freq := t.freq[R := t.freq[R] + 1])
  {
    hide Linked, Sorted, Summed;
  }

  /** Entering the parent of a pair again changes nothing. */
  lemma OwnParent(son: seq<int>, prnt: seq<int>, c: int)
    requires |son| >= T && |prnt| == T + N_CHAR && Linked(son, prnt) && 0 <= c < T
    ensures 0 <= son[c] < T + N_CHAR && SetParent(SetParent(prnt, son[c], c), son[c], c) == prnt
  {
    var s := son[c];
    assert Points(c, s) && prnt[s] == c;
    if s < T {
      assert son[prnt[s + 1]] == Base(s + 1) == s;
      assert prnt[s + 1] == c;
      assert prnt[s := c][s + 1 := c] == prnt;
    }
  }

  /** What lzh_start_huff leaves in the first j entries. */
  ghost predicate Initial(freq: seq<int>, son: seq<int>, j: int)
    ensures Initial(freq, son, j) ==> T <= |freq| && T <= |son|
  {
    && N_CHAR <= j <= T <= |freq| && T <= |son|
    && (forall m | 0 <= m < N_CHAR :: freq[m] == 1 && son[m] == m + T)
    && (forall m | N_CHAR <= m < j :: son[m] == Front(m) && freq[m] == freq[Front(m)] + freq[Front(m) + 1])
  }

  /** In the initial tree a new node is never lighter than the last one. */
  lemma LastNotHeavier(freq: seq<int>, son: seq<int>, j: int)
    requires Initial(freq, son, T) && N_CHAR <= j < T && Growing(Forest(freq[..j], son[..j]))
    ensures freq[j - 1] <= freq[Front(j)] + freq[Front(j) + 1]
  {
    var w, i := freq[..j], Front(j);
    assert NodeOk(Forest(w, son[..j]), i);
    assert w[i] == freq[i] && w[i + 1] == freq[i + 1];
    if j > N_CHAR {
      assert freq[j - 1] == freq[Front(j - 1)] + freq[Front(j - 1) + 1];
      assert w[i - 2] <= w[i] && w[i - 1] <= w[i + 1];
    } else {
      assert w[j - 1] == 1;
    }
  }

  lemma JoinAtEnd(freq: seq<int>, son: seq<int>, j: int)
    requires Initial(freq, son, T) && N_CHAR <= j < T && Growing(Forest(freq[..j], son[..j]))
    ensures Join(Forest(freq[..j], son[..j])) == Forest(freq[..j + 1], son[..j + 1])
  {
    LastNotHeavier(freq, son, j);
    SlotAbovePair(Forest(freq[..j], son[..j]));
    assert freq[j] == freq[Front(j)] + freq[Front(j) + 1] && son[j] == Front(j);
    AppendIsJoin(freq, son, j);
  }

  lemma AppendIsJoin(freq: seq<int>, son: seq<int>, j: int)
    requires N_CHAR <= j < T <= |freq| && T <= |son|
    requires freq[j - 1] <= freq[j] == freq[Front(j)] + freq[Front(j) + 1] && son[j] == Front(j)
    ensures Join(Forest(freq[..j], son[..j])) == Forest(freq[..j + 1], son[..j + 1])
  {
    var w := freq[..j];
    assert Slot(w, freq[j], j) == j;
    assert InsertAt(w, j, freq[j]) == freq[..j + 1];
    assert InsertAt(son[..j], j, son[j]) == son[..j + 1];
  }

  lemma {:induction false} InitialGrows(freq: seq<int>, son: seq<int>, j: int)
    requires Initial(freq, son, T) && N_CHAR <= j <= T && Growing(Forest(freq[..j], son[..j]))
    ensures Grow(Forest(freq[..j], son[..j])) == Forest(freq[..T], son[..T])
    decreases T - j
  {
    hide Growing, Initial, Grow, Join, Front;
    GrowStep(Forest(freq[..j], son[..j]));
    if j < T {
      JoinAtEnd(freq, son, j);
      InitialGrows(freq, son, j + 1);
    }
  }

  lemma GrowStep(w: Forest)
    requires Growing(w)
    ensures |w.freq| < T ==> Growing(Join(w)) && Grow(w) == Grow(Join(w))
    ensures |w.freq| == T ==> Grow(w) == w
  {
    hide Growing, Join;
    if |w.freq| < T {
      JoinGrowing(w);
    }
  }

  lemma StartIs(freq: seq<int>, son: seq<int>, prnt: seq<int>)
    requires |freq| == |son| == T + 1 && |prnt| == T + N_CHAR
    requires Initial(freq, son, T) && freq[T] == SENTINEL && son[T] == 0
    requires forall x | T <= x < T + N_CHAR :: prnt[x] == x - T
    requires forall x | 0 <= x < R :: prnt[x] == N_CHAR + x / 2
    requires prnt[R] == 0
    ensures Tree(freq, son, prnt) == Start() && Valid(Start())
  {
    SeedsGrowing();
    assert freq[..N_CHAR] == Seeds().freq && son[..N_CHAR] == Seeds().son;
    InitialGrows(freq, son, N_CHAR);
    SameForest(freq, son);
    InitialLinked(son, prnt);
    StartValid();
    ParentsUnique(son, prnt, Start().prnt);
  }

  lemma SameForest(freq: seq<int>, son: seq<int>)
    requires |freq| == |son| == T + 1 && freq[T] == SENTINEL && son[T] == 0
    requires |Seeds().freq| == |Seeds().son| == N_CHAR && Grow(Seeds()) == Forest(freq[..T], son[..T])
    ensures freq == Start().freq && son == Start().son
  {
    hide Connect, Grow, Seeds, NoParents;
    assert freq == freq[..T] + [SENTINEL] && son == son[..T] + [0];
  }

  lemma InitialLinked(son: seq<int>, prnt: seq<int>)
    requires |son| >= T && |prnt| == T + N_CHAR
    requires forall m | 0 <= m < N_CHAR :: son[m] == m + T
    requires forall x | T <= x < T + N_CHAR :: prnt[x] == x - T
    requires forall m | N_CHAR <= m < T :: son[m] == Front(m)
    requires forall x | 0 <= x < R :: prnt[x] == N_CHAR + x / 2
    requires prnt[R] == 0
    ensures Linked(son, prnt)
  {
    forall x | 0 <= x < T + N_CHAR && x != R
      ensures 0 <= prnt[x] < T && son[prnt[x]] == Base(x)
    {
    }
    forall i | 0 <= i < T
      ensures Points(i, son[i]) && prnt[son[i]] == i
    {
    }
  }

  // ---- weights over runs

  lemma {:induction false} RunConcat(t: Tree, a: seq<int>, b: seq<int>)
    requires Valid(t) && forall i | 0 <= i < |a| :: 0 <= a[i] < N_CHAR
    requires forall i | 0 <= i < |b| :: 0 <= b[i] < N_CHAR
    ensures forall i | 0 <= i < |a + b| :: 0 <= (a + b)[i] < N_CHAR
    ensures Run(t, a + b) == Run(Run(t, a), b)
    decreases |a|
  {
    hide Valid, Updated;
    if a == [] {
      assert a + b == b;
    } else {
      UpdateValid(t, a[0]);
      assert (a + b)[1..] == a[1..] + b;
      RunConcat(Updated(t, a[0]), a[1..], b);
    }
  }

  function Occurrences(symbols: seq<int>, x: int): nat {
    if symbols == [] then 0 else (if symbols[0] == x then 1 else 0) + Occurrences(symbols[1..], x)
  }

  /** As long as there is no rebuild, coding symbols adds to the weight of each as often as it occurs. */
  lemma {:induction false} RunWeight(t: Tree, symbols: seq<int>, x: int)
    requires Valid(t) && (forall i | 0 <= i < |symbols| :: 0 <= symbols[i] < N_CHAR) && 0 <= x < N_CHAR
    requires t.freq[R] + |symbols| <= MAX_FREQ
    ensures Run(t, symbols).freq[R] == t.freq[R] + |symbols|
    ensures Weight(Run(t, symbols), x) == Weight(t, x) + Occurrences(symbols, x)
    decreases |symbols|
  {
    hide Updated;
    if symbols != [] {
      UpdateValid(t, symbols[0]);
      UpdateWeight(t, symbols[0], x);
      RunWeight(Updated(t, symbols[0]), symbols[1..], x);
    }
  }

  /** All symbols weigh one at first. */
  lemma StartWeighs(s: int)
    requires 0 <= s < N_CHAR
    ensures Valid(Start()) && Weight(Start(), s) == 1
  {
    hide Grow, Connect, Growing, NoParents, Linked, Sorted;
    StartValid();
    SeedsGrowing();
    var v := seq(N_CHAR, i => 1);
    GrowWeighs(Seeds(), v);
    var t, w := Start(), Grow(Seeds());
    assert t.freq[..T] == w.freq && t.son[..T] == w.son;
    GrownWeight(w, t, v, s);
  }

  /** Up to 32454 updates from the initial tree, each symbol weighs one more than it has been coded. */
  lemma FirstWeights(symbols: seq<int>, x: int)
    requires |symbols| <= 32454 && (forall i | 0 <= i < |symbols| :: 0 <= symbols[i] < N_CHAR) && 0 <= x < N_CHAR
    ensures Valid(Start()) && Weight(Run(Start(), symbols), x) == 1 + Occurrences(symbols, x)
  {
    hide Start, Run;
    StartValid();
    StartWeighs(x);
    RunWeight(Start(), symbols, x);
  }

  /** And the next update halves all weights, rounding up. */
  lemma FirstRebuild(symbols: seq<int>, s: int, x: int)
    requires |symbols| == 32454 && (forall i | 0 <= i < |symbols| :: 0 <= symbols[i] < N_CHAR)
    requires 0 <= s < N_CHAR && 0 <= x < N_CHAR
    ensures Valid(Start()) && var t := Run(Start(), symbols);
      Valid(Updated(t, s)) &&
      Weight(Updated(t, s), x) == (2 + Occurrences(symbols, x)) / 2 + if x == s then 1 else 0
  {
    hide Start, Run, Updated;
    FirstWeights(symbols, x);
    StartValid();
    RunWeight(Start(), symbols, x);
    UpdateWeight(Run(Start(), symbols), s, x);
  }
}
