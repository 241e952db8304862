/** Codes of 17 bits, more than the word of lzh_encode_char holds, are reached by coding some bytes often enough. */
module LongCodes {
  import opened HuffmanTree
  import opened AdaptiveHuffman
  import opened HuffmanCode

  // ---- eight symbols that outweigh each other

  /** What the light symbols and the first i heavy ones weigh together. */
  function Total(i: nat): nat {
    if i == 0 then 306 else if i == 1 then 612 else Total(i - 1) + Total(i - 2) + 1
  }

  /** The weight of the i-th heavy symbol, which is symbol i - 1: just above the total of the first i - 2. */
  function Heavy(i: nat): nat
    requires i > 0
  {
    if i == 1 then 306 else Total(i - 2) + 1
  }

  lemma TotalStep(i: nat)
    requires i > 0
    ensures Total(i) == Total(i - 1) + Heavy(i) && Heavy(i) >= 306
    ensures i > 1 ==> Heavy(i - 1) < Heavy(i) < Total(i - 1)
    ensures 2 * Heavy(i) + (if i > 1 then Heavy(i - 1) else 1) > Total(i)
  {
    if i > 2 {
      TotalStep(i - 1);
      TotalStep(i - 2);
    }
  }

  lemma TotalEight()
    ensures Total(8) == 16863
  {
    assert Total(2) == 919 && Total(3) == 1532;
    assert Total(4) == 2452 && Total(5) == 3985;
    assert Total(6) == 6438 && Total(7) == 10424;
  }

  function Goal(k: nat, s: nat): int {
    if s < k then Heavy(s + 1) else 1
  }

  /** The first k heavy symbols have got their weight, all others are as in the initial tree. */
  ghost predicate Weighted(t: Tree, k: nat)
    ensures Weighted(t, k) ==> Valid(t)
  {
    && Valid(t) && k <= 8 && t.freq[R] == Total(k) + 8 - k
    && forall s | 0 <= s < N_CHAR :: Weight(t, s) == Goal(k, s)
  }

  // ---- a run that gives them their weights

  function Times(s: int, n: nat): (r: seq<int>)
    ensures |r| == n && forall i | 0 <= i < n :: r[i] == s
  {
    seq(n, i => s)
  }

  /** Symbol 0 is coded so many times, then symbol 1, and so on. */
  function Often(k: nat): (r: seq<int>)
    requires k <= 8
    ensures forall i | 0 <= i < |r| :: 0 <= r[i] < N_CHAR
  {
    if k == 0 then []
    else
      TotalStep(k);
      Often(k - 1) + Times(k - 1, Heavy(k) - 1)
  }

  lemma {:induction false} OccurrencesOf(s: int, n: nat, x: int)
    ensures Occurrences(Times(s, n), x) == if x == s then n else 0
  {
    if n > 0 {
      assert Times(s, n)[1..] == Times(s, n - 1);
      OccurrencesOf(s, n - 1, x);
    }
  }

  lemma StartWeighted()
    ensures Weighted(Start(), 0)
  {
    hide Start;
    StartValid();
    forall s | 0 <= s < N_CHAR
      ensures Weight(Start(), s) == 1
    {
      StartWeighs(s);
    }
  }

  lemma {:induction false} OftenWeighted(k: nat)
    requires k <= 8
    ensures Valid(Start()) && Weighted(Run(Start(), Often(k)), k)
    decreases k
  {
    hide Valid, Start, Weighted;
    StartValid();
    if k == 0 {
      StartWeighted();
    } else {
      OftenWeighted(k - 1);
      TotalStep(k);
      RunConcat(Start(), Often(k - 1), Times(k - 1, Heavy(k) - 1));
      MoreWeighted(Run(Start(), Often(k - 1)), k);
    }
  }

  lemma {:induction false} TotalRises(i: nat, j: nat)
    requires i <= j
    ensures Total(i) <= Total(j)
    decreases j
  {
    if i < j {
      TotalStep(j);
      TotalRises(i, j - 1);
    }
  }

  lemma MoreWeighted(t: Tree, k: nat)
    requires 0 < k <= 8 && Weighted(t, k - 1)
    ensures Heavy(k) > 0 && Weighted(Run(t, Times(k - 1, Heavy(k) - 1)), k)
  {
    hide Run, Total, Heavy, Times, Linked, Sorted, Summed;
    TotalStep(k);
    TotalRises(k, 8);
    TotalEight();
    var t' := Run(t, Times(k - 1, Heavy(k) - 1));
    forall x | 0 <= x < N_CHAR
      ensures Weight(t', x) == Goal(k, x)
    {
      RunWeight(t, Times(k - 1, Heavy(k) - 1), x);
      OccurrencesOf(k - 1, Heavy(k) - 1, x);
    }
    RunWeight(t, Times(k - 1, Heavy(k) - 1), 0);
  }

  // ---- the shape that the weights force

  /** The node m levels down, on the way along the heavier sons. */
  function Inner(m: nat): int {
    if m == 0 then R else R + 1 - 2 * m
  }

  /** The first node of the pair below it. */
  function Pair(m: nat): int {
    R - 2 - 2 * m
  }

  /** Down to level j, each pair consists of the leaf of a heavy symbol and the node that goes on. */
  ghost predicate Spine(t: Tree, j: nat)
    requires WellLinked(t)
  {
    && j <= 7
    && (forall m | 0 <= m < j :: t.son[Inner(m)] == Pair(m) && t.son[Pair(m)] == T + 7 - m)
    && t.freq[Inner(j)] == Total(8 - j)
  }

  /** A node behind the next pair is a leaf or an inner node of the spine. */
  lemma Behind(j: nat, y: int) returns (m: nat)
    requires j <= 7 && Pair(j) + 1 < y <= R
    ensures (m < j && y == Pair(m)) || (m <= j && y == Inner(m))
  {
    m := if y == R then 0 else if y % 2 == 0 then (R - 2 - y) / 2 else (R + 1 - y) / 2;
  }

  lemma SpinePair(t: Tree, j: nat)
    requires WellLinked(t) && Spine(t, j)
    ensures t.son[Inner(j)] == Pair(j)
  {
    var x := Pair(j) + 1;
    ParentAbove(t.son, t.prnt, x);
    var p := t.prnt[x];
    assert t.son[p] == Base(x) == Pair(j);
    var m := Behind(j, p);
  }

  /** A node below the next pair is neither a leaf nor an inner node of the spine. */
  lemma SpineBelow(t: Tree, j: nat, y: int)
    requires WellLinked(t) && Spine(t, j) && 0 <= y <= R
    requires T <= t.son[y] < T + 8 - j || 0 <= t.son[y] < Pair(j)
    ensures y <= Pair(j) + 1
  {
    SpinePair(t, j);
    if y > Pair(j) + 1 {
      var m := Behind(j, y);
    }
  }

  /** The heaviest symbol that is left stands in the next pair: anywhere below, it would make that too heavy. */
  lemma SpineLeaf(t: Tree, j: nat) returns (y: int)
    requires WellLinked(t) && Weighted(t, 8) && Spine(t, j)
    ensures y == Pair(j) || y == Pair(j) + 1
    ensures t.son[y] == T + 7 - j && t.freq[y] == Heavy(8 - j)
    ensures t.freq[Pair(j)] + t.freq[Pair(j) + 1] == Total(8 - j)
  {
    hide Valid, WellLinked;
    LeafOf(t, 7 - j);
    y := t.prnt[T + 7 - j];
    SpineBelow(t, j, y);
    SpinePair(t, j);
    PairSum(t, Inner(j));
    if y < Pair(j) {
      TotalStep(8 - j);
      AboveLight(t, j, y);
      var p := t.prnt[y];
      SpineBelow(t, j, p);
      InOrder(t, y, Pair(j));
      InOrder(t, p, Pair(j) + 1);
    }
  }

  lemma AboveLight(t: Tree, j: nat, y: int)
    requires WellLinked(t) && Weighted(t, 8) && j <= 7
    requires 0 <= y < Pair(j) && t.freq[y] == Heavy(8 - j)
    ensures y < t.prnt[y] <= R && 0 <= t.son[t.prnt[y]] < Pair(j)
    ensures t.freq[t.prnt[y]] >= t.freq[y] + if j < 7 then Heavy(7 - j) else 1
  {
    hide Valid, WellLinked;
    ParentWeight(t, y);
    Around(t, y);
    if j < 7 {
      TotalStep(8 - j);
      LeafOf(t, 6 - j);
      var z := t.prnt[T + 6 - j];
      if y <= z {
        InOrder(t, y, z);
      }
      InOrder(t, z, y - 1);
    }
  }

  lemma LeafOf(t: Tree, s: int)
    requires WellLinked(t) && Weighted(t, 8) && 0 <= s < N_CHAR
    ensures var y := t.prnt[T + s]; 0 <= y < R && t.son[y] == T + s && t.freq[y] == Goal(8, s)
  {
    assert Weight(t, s) == Goal(8, s);
    ClimbStart(t, s);
    assert t.son[t.prnt[s + T]] == Base(s + T);
  }

  lemma PairSum(t: Tree, x: int)
    requires Valid(t) && 0 <= x <= R && t.son[x] < T
    ensures 0 <= t.son[x] && t.son[x] + 1 < x && t.freq[x] == t.freq[t.son[x]] + t.freq[t.son[x] + 1]
  {
    assert Points(x, t.son[x]) && SummedAt(t, -1, x);
  }

  lemma InOrder(t: Tree, x: int, y: int)
    requires Valid(t) && 0 <= x <= y <= R
    ensures 1 <= t.freq[x] <= t.freq[y]
  {
  }

  lemma SpineStep(t: Tree, j: nat)
    requires WellLinked(t) && Weighted(t, 8) && Spine(t, j) && j < 7
    ensures Spine(t, j + 1)
  {
    hide Valid, WellLinked;
    SpinePair(t, j);
    var y := SpineLeaf(t, j);
    TotalStep(8 - j);
    InOrder(t, Pair(j), Pair(j) + 1);
    assert y == Pair(j) && Inner(j + 1) == Pair(j) + 1;
  }

  lemma {:induction false} SpineHolds(t: Tree, j: nat)
    requires WellLinked(t) && Weighted(t, 8) && j <= 7
    ensures Spine(t, j)
  {
    hide WellLinked, Valid;
    if j > 0 {
      SpineHolds(t, j - 1);
      SpineStep(t, j - 1);
    }
  }

  lemma {:induction false} SpineDepth(t: Tree, m: nat)
    requires WellLinked(t) && Spine(t, 7) && m <= 7
    ensures |Path(t, Inner(m))| == m
    ensures |Path(t, Pair(m))| == |Path(t, Pair(m) + 1)| == m + 1
  {
    hide WellLinked;
    SpinePair(t, 7);
    assert t.son[Inner(m)] == Pair(m);
    Around(t, Inner(m));
    if m > 0 {
      SpineDepth(t, m - 1);
      assert Inner(m) == Pair(m - 1) + 1;
    }
  }

  // ---- the light symbols

  function Power(n: nat): nat {
    if n == 0 then 1 else 2 * Power(n - 1)
  }

  /** Where all leaves weigh one, the heavier sons lead as deep as the weight can be halved. */
  lemma {:induction false} Deep(t: Tree, x: int, n: nat) returns (s: int)
    requires WellLinked(t) && Valid(t) && 0 <= x <= R && 2 * t.freq[x] > Power(n)
    requires forall y | 0 <= y <= x && t.son[y] >= T :: t.freq[y] == 1
    ensures 0 <= s < N_CHAR && |Code(t, s)| >= |Path(t, x)| + n
    decreases n
  {
    hide WellLinked, Valid;
    if n == 0 {
      s := LeafBelow(t, x);
    } else {
      PowerPositive(n - 1);
      PairSum(t, x);
      OneDeeper(t, x);
      var c := t.son[x];
      InOrder(t, c, c + 1);
      s := Deep(t, c + 1, n - 1);
    }
  }

  lemma {:induction false} PowerPositive(n: nat)
    ensures Power(n) >= 1
  {
    if n > 0 {
      PowerPositive(n - 1);
    }
  }

  /** Below the last pair of the spine there are light symbols only. */
  lemma LightBelow(t: Tree, y: int)
    requires WellLinked(t) && Weighted(t, 8) && Spine(t, 7) && 0 <= y < Pair(7) && t.son[y] >= T
    ensures t.freq[y] == 1
  {
    hide Valid, WellLinked;
    Around(t, y);
    var s := t.son[y] - T;
    LeafOf(t, s);
    if s == 0 {
      var z := SpineLeaf(t, 7);
      Around(t, z);
    } else if s < 8 {
      assert t.son[Pair(7 - s)] == T + s;
      Around(t, Pair(7 - s));
    }
  }

  /** The node beside the leaf of symbol 0 weighs as much as all light symbols. */
  lemma NoLeaf(t: Tree, x: int, y: int)
    requires WellLinked(t) && Weighted(t, 8) && 0 <= x < R && 0 <= y <= R && x != y
    requires t.son[y] == T && t.freq[x] == 306
    ensures t.son[x] < T
  {
    hide Valid, WellLinked, Weighted;
    Around(t, x);
    Around(t, y);
    if t.son[x] >= T {
      var s := t.son[x] - T;
      LeafOf(t, s);
      if s < 8 {
        TotalStep(s + 1);
        if s > 0 { TotalStep(s); }
      }
    }
  }

  lemma OneDeeper(t: Tree, x: int)
    requires WellLinked(t) && 0 <= x <= R && 0 <= t.son[x] < T - 1
    ensures |Path(t, t.son[x] + 1)| == |Path(t, x)| + 1
  {
    hide WellLinked;
    Around(t, x);
    Around(t, t.son[x] + 1);
  }

  lemma LongPath(t: Tree) returns (s: int)
    requires WellLinked(t) && Weighted(t, 8)
    ensures 0 <= s < N_CHAR && |Code(t, s)| >= 17
  {
    hide Valid, WellLinked, Code, Path, Weighted;
    SpineHolds(t, 7);
    SpineDepth(t, 7);
    var y := SpineLeaf(t, 7);
    var x := if y == Pair(7) then Pair(7) + 1 else Pair(7);
    NoLeaf(t, x, y);
    var c := t.son[x];
    PairSum(t, x);
    OneDeeper(t, x);
    InOrder(t, c, c + 1);
    forall z | 0 <= z <= c + 1 && t.son[z] >= T
      ensures t.freq[z] == 1
    {
      LightBelow(t, z);
    }
    assert Power(4) == 16 && Power(8) == 256;
    s := Deep(t, c + 1, 8);
  }

  /** After these updates some code has 17 bits or more, so some symbol is lost. */
  lemma LongCode() returns (s: int, lost: int)
    ensures Valid(Start()) && Valid(Run(Start(), Often(8)))
    ensures 0 <= s < N_CHAR && |Code(Run(Start(), Often(8)), s)| >= 17
    ensures 0 <= lost < N_CHAR && !Survives(Run(Start(), Often(8)), lost)
  {
    hide Survives, HuffmanTree.Valid, WellLinked, Code, Run, Start;
    OftenWeighted(8);
    var t := Run(Start(), Often(8));
    ValidLinked(t);
    s := LongPath(t);
    lost := SymbolLost(t, s);
  }
}
