/** The binary search trees of encode/lzh.c as values: positions of the text buffer ordered by the F bytes
    that start there, and how such trees lie in the arrays lson, rson and dad. */
module SearchTree {
  import opened Words
  import opened Parameters

  /** A text buffer: the ring and a copy of its first F - 1 bytes. */
  ghost predicate IsText(txt: seq<byte>) {
    |txt| == N + F - 1
  }

  // ---- keys

  /** Byte m of the key at position a. */
  ghost function Key(txt: seq<byte>, a: int, m: int): byte
    requires IsText(txt) && 0 <= a < N && 0 <= m < F
  {
    txt[a + m]
  }

  /** The number of equal bytes at the start of two keys. */
  ghost function Lcp(txt: seq<byte>, a: int, b: int): (k: nat)
    requires IsText(txt) && 0 <= a < N && 0 <= b < N
    ensures k <= F && Agree(txt, a, b, k)
    ensures k < F ==> Key(txt, a, k) != Key(txt, b, k)
  {
    LcpFrom(txt, a, b, 0)
  }

  ghost predicate Agree(txt: seq<byte>, a: int, b: int, k: nat)
    requires IsText(txt) && 0 <= a < N && 0 <= b < N && k <= F
  {
    forall m | 0 <= m < k :: Key(txt, a, m) == Key(txt, b, m)
  }

  ghost function LcpFrom(txt: seq<byte>, a: int, b: int, i: nat): (k: nat)
    requires IsText(txt) && 0 <= a < N && 0 <= b < N && i <= F
    requires Agree(txt, a, b, i)
    ensures i <= k <= F && Agree(txt, a, b, k)
    ensures k < F ==> Key(txt, a, k) != Key(txt, b, k)
    decreases F - i
  {
    if i < F && Key(txt, a, i) == Key(txt, b, i) then LcpFrom(txt, a, b, i + 1) else i
  }

  lemma LcpUnique(txt: seq<byte>, a: int, b: int, k: nat)
    requires IsText(txt) && 0 <= a < N && 0 <= b < N && k <= F
    requires Agree(txt, a, b, k) && (k < F ==> Key(txt, a, k) != Key(txt, b, k))
    ensures Lcp(txt, a, b) == k == Lcp(txt, b, a)
  {
  }

  /** Keys compare as unsigned bytes, from left to right. */
  ghost predicate Less(txt: seq<byte>, a: int, b: int)
    requires IsText(txt) && 0 <= a < N && 0 <= b < N
  {
    var k := Lcp(txt, a, b);
    k < F && Key(txt, a, k) < Key(txt, b, k)
  }

  /** The order is transitive, and what lies further away shares less. */
  lemma LessTransitive(txt: seq<byte>, a: int, b: int, c: int)
    requires IsText(txt) && 0 <= a < N && 0 <= b < N && 0 <= c < N
    requires Less(txt, a, b) && Less(txt, b, c)
    ensures Less(txt, a, c)
    ensures Lcp(txt, a, c) <= Lcp(txt, a, b) && Lcp(txt, a, c) <= Lcp(txt, b, c)
  {
    var i, j := Lcp(txt, a, b), Lcp(txt, b, c);
    var k := if i < j then i else j;
    forall m | 0 <= m < k
      ensures Key(txt, a, m) == Key(txt, c, m)
    {
      assert Key(txt, a, m) == Key(txt, b, m) && Key(txt, b, m) == Key(txt, c, m);
    }
    if i < j { assert Key(txt, b, i) == Key(txt, c, i); }
    if j < i { assert Key(txt, a, j) == Key(txt, b, j); }
    LcpUnique(txt, a, c, k);
  }

  lemma LessTotal(txt: seq<byte>, a: int, b: int)
    requires IsText(txt) && 0 <= a < N && 0 <= b < N
    ensures Lcp(txt, a, b) == Lcp(txt, b, a)
    ensures Lcp(txt, a, b) < F ==> (Less(txt, a, b) <==> !Less(txt, b, a))
    ensures Lcp(txt, a, b) == F ==> !Less(txt, a, b) && !Less(txt, b, a)
  {
    LcpUnique(txt, a, b, Lcp(txt, a, b));
  }

  // ---- trees

  datatype Bst = Leaf | Node(left: Bst, pos: int, right: Bst)

  ghost function Nodes(t: Bst): set<int> {
    match t
    case Leaf => {}
    case Node(l, x, r) => Nodes(l) + {x} + Nodes(r)
  }

  /** Strictly ordered by key, so no two registered positions have the same key. */
  ghost predicate Ordered(txt: seq<byte>, t: Bst)
    requires IsText(txt)
  {
    match t
    case Leaf => true
    case Node(l, x, r) =>
      && 0 <= x < N && Ordered(txt, l) && Ordered(txt, r)
      && AllLess(txt, Nodes(l), x) && AllGreater(txt, Nodes(r), x)
  }

  ghost predicate AllLess(txt: seq<byte>, ys: set<int>, x: int)
    requires IsText(txt) && 0 <= x < N
  {
    forall y | y in ys :: 0 <= y < N && Less(txt, y, x)
  }

  ghost predicate AllGreater(txt: seq<byte>, ys: set<int>, x: int)
    requires IsText(txt) && 0 <= x < N
  {
    forall y | y in ys :: 0 <= y < N && Less(txt, x, y)
  }

  /** No position occurs twice. */
  ghost predicate Distinct(t: Bst) {
    match t
    case Leaf => true
    case Node(l, x, r) => x !in Nodes(l) && x !in Nodes(r) && Nodes(l) !! Nodes(r) && Distinct(l) && Distinct(r)
  }

  lemma {:induction false} OrderedDistinct(txt: seq<byte>, t: Bst)
    requires IsText(txt) && Ordered(txt, t)
    ensures Distinct(t) && forall y | y in Nodes(t) :: 0 <= y < N
  {
    match t
    case Leaf =>
    case Node(l, x, r) =>
      OrderedDistinct(txt, l);
      OrderedDistinct(txt, r);
      LessTotal(txt, x, x);
      forall y | y in Nodes(l)
        ensures y !in Nodes(r)
      {
        LessTotal(txt, x, y);
      }
  }

  /** Where the search for the key at r ends: at an open place below a node, or at a node with the same key. */
  datatype Spot = Open(parent: int, right: bool) | Found(pos: int)

  ghost function Find(txt: seq<byte>, t: Bst, r: int, parent: int, right: bool): Spot
    requires IsText(txt) && Ordered(txt, t) && 0 <= r < N
  {
    match t
    case Leaf => Open(parent, right)
    case Node(l, x, rt) =>
      if Lcp(txt, r, x) == F then Found(x)
      else if Less(txt, r, x) then Find(txt, l, r, x, false)
      else Find(txt, rt, r, x, true)
  }

  /** The positions that the search for the key at r comes by, the one with the same key included. */
  ghost function Visited(txt: seq<byte>, t: Bst, r: int): (ps: set<int>)
    requires IsText(txt) && Ordered(txt, t) && 0 <= r < N
    ensures ps <= Nodes(t)
  {
    match t
    case Leaf => {}
    case Node(l, x, rt) =>
      {x} + if Lcp(txt, r, x) == F then {} else if Less(txt, r, x) then Visited(txt, l, r) else Visited(txt, rt, r)
  }

  /** The tree with position r registered; a position with the same key gives way. */
  ghost function Insert(txt: seq<byte>, t: Bst, r: int): Bst
    requires IsText(txt) && Ordered(txt, t) && 0 <= r < N
  {
    match t
    case Leaf => Node(Leaf, r, Leaf)
    case Node(l, x, rt) =>
      if Lcp(txt, r, x) == F then Node(l, r, rt)
      else if Less(txt, r, x) then Node(Insert(txt, l, r), x, rt)
      else Node(l, x, Insert(txt, rt, r))
  }

  /** The largest position of a tree, and the tree without it. */
  ghost function MaxOut(t: Bst): (int, Bst)
    requires t.Node?
  {
    if t.right.Leaf? then (t.pos, t.left)
    else
      var (m, r) := MaxOut(t.right);
      (m, Node(t.left, t.pos, r))
  }

  /** What takes the place of a removed node with the given subtrees. */
  ghost function Joined(l: Bst, r: Bst): Bst {
    if r.Leaf? then l
    else if l.Leaf? then r
    else
      var (m, l') := MaxOut(l);
      Node(l', m, r)
  }

  /** The tree with the subtree at p replaced. */
  ghost function Graft(t: Bst, p: int, s: Bst): Bst {
    match t
    case Leaf => Leaf
    case Node(l, x, r) => if x == p then s else Node(Graft(l, p, s), x, Graft(r, p, s))
  }

  /** The subtree at p. */
  ghost function Sub(t: Bst, p: int): Bst {
    match t
    case Leaf => Leaf
    case Node(l, x, r) => if x == p then t else if p in Nodes(l) then Sub(l, p) else Sub(r, p)
  }

  ghost function Remove(t: Bst, p: int): Bst {
    var s := Sub(t, p);
    if s.Leaf? then t else Graft(t, p, Joined(s.left, s.right))
  }

  // ---- insertion and removal keep the order

  lemma SameKey(txt: seq<byte>, x: int, r: int, y: int)
    requires IsText(txt) && 0 <= x < N && 0 <= r < N && 0 <= y < N && Lcp(txt, r, x) == F
    ensures Lcp(txt, x, y) == Lcp(txt, r, y) == Lcp(txt, y, r) == Lcp(txt, y, x)
    ensures Less(txt, x, y) <==> Less(txt, r, y)
    ensures Less(txt, y, x) <==> Less(txt, y, r)
  {
    var k := Lcp(txt, x, y);
    forall m | 0 <= m < k
      ensures Key(txt, r, m) == Key(txt, y, m)
    {
      assert Key(txt, r, m) == Key(txt, x, m) && Key(txt, x, m) == Key(txt, y, m);
    }
    if k < F { assert Key(txt, r, k) == Key(txt, x, k); }
    LcpUnique(txt, r, y, k);
    LcpUnique(txt, x, y, k);
  }

  /** The position that gives way to r, if any. */
  ghost function Displaced(txt: seq<byte>, t: Bst, r: int): set<int>
    requires IsText(txt) && Ordered(txt, t) && 0 <= r < N
  {
    match Find(txt, t, r, NIL, true)
    case Found(x) => {x}
    case Open(_, _) => {}
  }

  lemma {:induction false} FindParent(txt: seq<byte>, t: Bst, r: int, p: int, p': int, d: bool, d': bool)
    requires IsText(txt) && Ordered(txt, t) && 0 <= r < N
    ensures Find(txt, t, r, p, d).Found? <==> Find(txt, t, r, p', d').Found?
    ensures t.Node? || Find(txt, t, r, p, d).Found? ==> Find(txt, t, r, p, d) == Find(txt, t, r, p', d')
  {
  }

  lemma NodeOrdered(txt: seq<byte>, l: Bst, x: int, r: Bst)
    requires IsText(txt) && 0 <= x < N && Ordered(txt, l) && Ordered(txt, r)
    requires AllLess(txt, Nodes(l), x) && AllGreater(txt, Nodes(r), x)
    ensures Ordered(txt, Node(l, x, r))
    ensures Nodes(Node(l, x, r)) == Nodes(l) + ({x} + Nodes(r)) == Nodes(r) + ({x} + Nodes(l))
  {
  }

  lemma SubsetLess(txt: seq<byte>, a: set<int>, b: set<int>, x: int)
    requires IsText(txt) && 0 <= x < N && a <= b
    ensures AllLess(txt, b, x) ==> AllLess(txt, a, x)
    ensures AllGreater(txt, b, x) ==> AllGreater(txt, a, x)
  {
  }

  lemma Swap(a: set<int>, rest: set<int>, out: set<int>, in': set<int>)
    requires out <= a && rest !! out
    ensures (a - out + in') + rest == (a + rest) - out + in'
  {
  }

  /** The search for r in the tree that holds it comes by the same positions, but for one with the same key. */
  lemma {:induction false} VisitedInserted(txt: seq<byte>, t: Bst, r: int)
    requires IsText(txt) && Ordered(txt, t) && 0 <= r < N && Ordered(txt, Insert(txt, t, r))
    ensures Visited(txt, Insert(txt, t, r), r) ==
      {r} + set p | p in Visited(txt, t, r) && 0 <= p < N && Lcp(txt, r, p) < F
  {
    hide Less, AllLess, AllGreater;
    LcpUnique(txt, r, r, F);
    match t
    case Leaf =>
    case Node(l, x, rt) =>
      if Lcp(txt, r, x) < F {
        VisitedInserted(txt, if Less(txt, r, x) then l else rt, r);
      }
  }

  lemma {:induction false} InsertOrdered(txt: seq<byte>, t: Bst, r: int)
    requires IsText(txt) && Ordered(txt, t) && 0 <= r < N && r !in Nodes(t)
    ensures Ordered(txt, Insert(txt, t, r))
    ensures Displaced(txt, t, r) <= Nodes(t)
    ensures forall x | x in Displaced(txt, t, r) :: 0 <= x < N && Lcp(txt, r, x) == F
    ensures Nodes(Insert(txt, t, r)) == Nodes(t) - Displaced(txt, t, r) + {r}
  {
    match t
    case Leaf =>
    case Node(l, x, rt) =>
      OrderedDistinct(txt, t);
      LessTotal(txt, r, x);
      if Lcp(txt, r, x) == F {
        ReplaceKey(txt, t, r);
      } else if Less(txt, r, x) {
        InsertOrdered(txt, l, r);
        FindParent(txt, l, r, x, NIL, false, true);
        NodeOrdered(txt, l, x, rt);
        Swap(Nodes(l), {x} + Nodes(rt), Displaced(txt, l, r), {r});
        JoinLess(txt, Nodes(l) - Displaced(txt, l, r), r, x);
        NodeOrdered(txt, Insert(txt, l, r), x, rt);
      } else {
        InsertOrdered(txt, rt, r);
        FindParent(txt, rt, r, x, NIL, true, true);
        NodeOrdered(txt, l, x, rt);
        Swap(Nodes(rt), {x} + Nodes(l), Displaced(txt, rt, r), {r});
        JoinGreater(txt, Nodes(rt) - Displaced(txt, rt, r), r, x);
        NodeOrdered(txt, l, x, Insert(txt, rt, r));
      }
  }

  lemma JoinLess(txt: seq<byte>, ys: set<int>, r: int, x: int)
    requires IsText(txt) && 0 <= x < N && 0 <= r < N && Less(txt, r, x) && AllLess(txt, ys, x)
    ensures AllLess(txt, ys + {r}, x)
  {
  }

  lemma JoinGreater(txt: seq<byte>, ys: set<int>, r: int, x: int)
    requires IsText(txt) && 0 <= x < N && 0 <= r < N && Less(txt, x, r) && AllGreater(txt, ys, x)
    ensures AllGreater(txt, ys + {r}, x)
  {
  }

  lemma ReplaceKey(txt: seq<byte>, t: Bst, r: int)
    requires IsText(txt) && Ordered(txt, t) && t.Node? && 0 <= r < N && r !in Nodes(t) && Lcp(txt, r, t.pos) == F
    ensures Ordered(txt, Node(t.left, r, t.right))
    ensures Nodes(Node(t.left, r, t.right)) == Nodes(t) - {t.pos} + {r}
  {
    OrderedDistinct(txt, t);
    forall y | y in Nodes(t.left) || y in Nodes(t.right)
      ensures Less(txt, y, t.pos) <==> Less(txt, y, r)
      ensures Less(txt, t.pos, y) <==> Less(txt, r, y)
    {
      SameKey(txt, t.pos, r, y);
    }
    NodeOrdered(txt, t.left, r, t.right);
  }

  lemma {:induction false} MaxOutOrdered(txt: seq<byte>, t: Bst)
    requires IsText(txt) && Ordered(txt, t) && t.Node?
    ensures var (m, t') := MaxOut(t);
      && 0 <= m < N && m in Nodes(t) && Ordered(txt, t') && Nodes(t') == Nodes(t) - {m}
      && AllLess(txt, Nodes(t'), m)
  {
    OrderedDistinct(txt, t);
    if t.right.Node? {
      MaxOutOrdered(txt, t.right);
      var (m, r) := MaxOut(t.right);
      forall y | y in Nodes(t.left)
        ensures Less(txt, y, m)
      {
        LessTransitive(txt, y, t.pos, m);
      }
    }
  }

  lemma JoinedOrdered(txt: seq<byte>, t: Bst)
    requires IsText(txt) && Ordered(txt, t) && t.Node?
    ensures Ordered(txt, Joined(t.left, t.right))
    ensures Nodes(Joined(t.left, t.right)) == Nodes(t) - {t.pos}
  {
    hide Less, Lcp, Agree, MaxOut;
    OrderedDistinct(txt, t);
    if t.left.Node? && t.right.Node? {
      MaxOutOrdered(txt, t.left);
      var (m, l) := MaxOut(t.left);
      forall y | y in Nodes(t.right)
        ensures 0 <= y < N && Less(txt, m, y)
      {
        LessTransitive(txt, m, t.pos, y);
      }
      NodeOrdered(txt, l, m, t.right);
      assert Nodes(Node(l, m, t.right)) == Nodes(t.left) + Nodes(t.right);
    }
  }

  lemma {:induction false} SubOrdered(txt: seq<byte>, t: Bst, p: int)
    requires IsText(txt) && Ordered(txt, t) && p in Nodes(t)
    ensures Sub(t, p).Node? && Sub(t, p).pos == p && Ordered(txt, Sub(t, p)) && Nodes(Sub(t, p)) <= Nodes(t)
  {
    if t.pos != p {
      if p in Nodes(t.left) {
        SubOrdered(txt, t.left, p);
      } else {
        SubOrdered(txt, t.right, p);
      }
    }
  }

  lemma {:induction false} GraftAway(t: Bst, p: int, s: Bst)
    requires p !in Nodes(t)
    ensures Graft(t, p, s) == t
  {
    if t.Node? {
      GraftAway(t.left, p, s);
      GraftAway(t.right, p, s);
    }
  }

  lemma {:induction false} GraftOrdered(txt: seq<byte>, t: Bst, p: int, s: Bst)
    requires IsText(txt) && Ordered(txt, t) && p in Nodes(t)
    requires Ordered(txt, s) && Nodes(s) <= Nodes(Sub(t, p))
    ensures Ordered(txt, Graft(t, p, s))
    ensures Nodes(Graft(t, p, s)) == Nodes(t) - Nodes(Sub(t, p)) + Nodes(s)
  {
    OrderedDistinct(txt, t);
    SubOrdered(txt, t, p);
    var l, x, r := t.left, t.pos, t.right;
    if x != p {
      var out := Nodes(Sub(t, p));
      NodeOrdered(txt, l, x, r);
      if p in Nodes(l) {
        GraftOrdered(txt, l, p, s);
        GraftAway(r, p, s);
        SubOrdered(txt, l, p);
        Swap(Nodes(l), {x} + Nodes(r), out, Nodes(s));
        SubsetLess(txt, Nodes(Graft(l, p, s)), Nodes(l), x);
        NodeOrdered(txt, Graft(l, p, s), x, r);
      } else {
        GraftOrdered(txt, r, p, s);
        GraftAway(l, p, s);
        SubOrdered(txt, r, p);
        Swap(Nodes(r), {x} + Nodes(l), out, Nodes(s));
        SubsetLess(txt, Nodes(Graft(r, p, s)), Nodes(r), x);
        NodeOrdered(txt, l, x, Graft(r, p, s));
      }
    }
  }

  /** Removing a registered position keeps the tree ordered and takes out that position only. */
  lemma RemoveOrdered(txt: seq<byte>, t: Bst, p: int)
    requires IsText(txt) && Ordered(txt, t) && p in Nodes(t)
    ensures Ordered(txt, Remove(t, p)) && Nodes(Remove(t, p)) == Nodes(t) - {p}
  {
    SubOrdered(txt, t, p);
    JoinedOrdered(txt, Sub(t, p));
    var s := Sub(t, p);
    GraftOrdered(txt, t, p, Joined(s.left, s.right));
  }

  /** Removal undoes the insertion of a new key. */
  lemma {:induction false} RemoveInserted(txt: seq<byte>, t: Bst, r: int)
    requires IsText(txt) && Ordered(txt, t) && 0 <= r < N && r !in Nodes(t)
    requires Displaced(txt, t, r) == {}
    ensures Remove(Insert(txt, t, r), r) == t
  {
    hide Lcp, AllLess, AllGreater;
    match t
    case Leaf =>
    case Node(l, x, rt) =>
      InsertOrdered(txt, t, r);
      if Less(txt, r, x) {
        InsertOrdered(txt, l, r);
        FindParent(txt, l, r, x, NIL, false, true);
        RemoveInserted(txt, l, r);
        var s := Sub(Insert(txt, l, r), r);
        SubOrdered(txt, Insert(txt, l, r), r);
        GraftAway(rt, r, Joined(s.left, s.right));
      } else {
        InsertOrdered(txt, rt, r);
        FindParent(txt, rt, r, x, NIL, true, true);
        RemoveInserted(txt, rt, r);
        var s := Sub(Insert(txt, rt, r), r);
        SubOrdered(txt, Insert(txt, rt, r), r);
        GraftAway(l, r, Joined(s.left, s.right));
      }
  }

  /** The node that is taken out has the largest key and no right subtree; its left subtree takes its place. */
  lemma {:induction false} MaxOutIs(txt: seq<byte>, t: Bst)
    requires IsText(txt) && Ordered(txt, t) && t.Node?
    ensures var (m, rest) := MaxOut(t);
      && m in Nodes(t) && 0 <= m < N && Sub(t, m).Node? && Sub(t, m).right == Leaf
      && rest == Graft(t, m, Sub(t, m).left)
      && forall y | y in Nodes(t) && y != m :: 0 <= y < N && Less(txt, y, m)
    decreases t
  {
    hide Less;
    var Node(l, x, r) := t;
    OrderedDistinct(txt, t);
    if r.Node? {
      MaxOutIs(txt, r);
      var m := MaxOut(r).0;
      GraftAway(l, m, Sub(r, m).left);
      forall y | y in Nodes(l)
        ensures Less(txt, y, m)
      {
        LessTransitive(txt, y, x, m);
      }
    }
  }

  /** What takes the place of a node: its other subtree if one is empty, or the largest node of the left one. */
  lemma JoinedIs(txt: seq<byte>, l: Bst, r: Bst)
    requires IsText(txt) && Ordered(txt, l)
    ensures r.Leaf? ==> Joined(l, r) == l
    ensures l.Leaf? ==> Joined(l, r) == r
    ensures l.Node? && r.Node? ==> exists m ::
      && m in Nodes(l) && 0 <= m < N && (forall y | y in Nodes(l) && y != m :: 0 <= y < N && Less(txt, y, m))
      && Sub(l, m).Node? && Joined(l, r) == Node(Graft(l, m, Sub(l, m).left), m, r)
  {
    hide Less;
    if l.Node? && r.Node? {
      MaxOutIs(txt, l);
      assert MaxOut(l).0 in Nodes(l);
    }
  }

  /** A new position is a leaf of the tree, or takes the place of the one with the same key; all else stays where it
      is. */
  lemma {:induction false} InsertPlace(txt: seq<byte>, t: Bst, r: int, p: int, d: bool)
    requires IsText(txt) && Ordered(txt, t) && 0 <= r < N && r !in Nodes(t)
    ensures r in Nodes(Insert(txt, t, r))
    ensures var s := Sub(Insert(txt, t, r), r);
      match Find(txt, t, r, p, d)
      case Open(_, _) => s == Node(Leaf, r, Leaf) && Graft(Insert(txt, t, r), r, Leaf) == t
      case Found(x) =>
        && Sub(t, x).Node? && s == Node(Sub(t, x).left, r, Sub(t, x).right)
        && Graft(Insert(txt, t, r), r, Sub(t, x)) == t
  {
    hide Lcp, Less, AllLess, AllGreater;
    match t
    case Leaf =>
    case Node(l, x, rt) =>
      OrderedDistinct(txt, t);
      if Lcp(txt, r, x) < F {
        var left := Less(txt, r, x);
        var inner, outer := if left then l else rt, if left then rt else l;
        InsertPlace(txt, inner, r, x, !left);
        FindInside(txt, inner, r, x, !left);
        var spot := Find(txt, inner, r, x, !left);
        GraftAway(outer, r, if spot.Found? then Sub(inner, spot.pos) else Leaf);
      }
  }

  /** An open place is below a node of the tree, or is the place of the whole tree. */
  lemma {:induction false} FindInside(txt: seq<byte>, t: Bst, r: int, p: int, right: bool)
    requires IsText(txt) && Ordered(txt, t) && 0 <= r < N
    ensures var spot := Find(txt, t, r, p, right);
      match spot
      case Open(q, d) => if t.Leaf? then q == p && d == right else q in Nodes(t)
      case Found(x) => x in Nodes(t)
  {
    hide Less, AllLess, AllGreater;
    match t
    case Leaf =>
    case Node(l, x, rt) =>
      if Lcp(txt, r, x) < F {
        if Less(txt, r, x) {
          FindInside(txt, l, r, x, false);
        } else {
          FindInside(txt, rt, r, x, true);
        }
      }
  }
}
