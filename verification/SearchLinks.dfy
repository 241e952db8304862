/** How the search trees of encode/lzh.c lie in the arrays lson, rson and dad, and what the pointer surgery of
    lzh_insert_node and lzh_delete_node does to them. */
module SearchLinks {
  import opened Words
  import opened Parameters
  import opened SearchTree

  /** The arrays; rson[N + 1 + c] is the root of the tree for first byte c. */
  datatype Links = Links(lson: seq<int>, rson: seq<int>, dad: seq<int>)

  ghost predicate IsLinks(a: Links) {
    |a.lson| == N + 1 && |a.rson| == N + 257 && |a.dad| == N + 1
  }

  /** Bst t hangs at pointer value n, below node or root entry p. */
  ghost predicate Hangs(a: Links, t: Bst, n: int, p: int)
    requires IsLinks(a)
  {
    match t
    case Leaf => n == NIL
    case Node(l, x, r) =>
      n == x && 0 <= x < N && a.dad[x] == p && Hangs(a, l, a.lson[x], x) && Hangs(a, r, a.rson[x], x)
  }

  /** Two link tables agree on the entries of the given nodes. */
  ghost predicate SameOn(a: Links, b: Links, s: set<int>)
    requires IsLinks(a) && IsLinks(b)
  {
    forall x | x in s && 0 <= x < N :: a.lson[x] == b.lson[x] && a.rson[x] == b.rson[x] && a.dad[x] == b.dad[x]
  }

  lemma {:induction false} HangsFrame(a: Links, b: Links, t: Bst, n: int, p: int)
    requires IsLinks(a) && IsLinks(b) && Hangs(a, t, n, p) && SameOn(a, b, Nodes(t))
    ensures Hangs(b, t, n, p)
  {
    match t
    case Leaf =>
    case Node(l, x, r) =>
      HangsFrame(a, b, l, a.lson[x], x);
      HangsFrame(a, b, r, a.rson[x], x);
  }

  /** Only the parent entry of the top node differs. */
  lemma Rehang(a: Links, b: Links, t: Bst, n: int, p: int, q: int)
    requires IsLinks(a) && IsLinks(b) && Hangs(a, t, n, p) && Distinct(t)
    requires n in Nodes(t) ==>
               SameOn(a, b, Nodes(t) - {n}) && a.lson[n] == b.lson[n] && a.rson[n] == b.rson[n] && b.dad[n] == q
    ensures Hangs(b, t, n, q)
  {
    match t
    case Leaf =>
    case Node(l, x, r) =>
      HangsFrame(a, b, l, a.lson[x], x);
      HangsFrame(a, b, r, a.rson[x], x);
  }

  lemma {:induction false} HangsBounds(a: Links, t: Bst, n: int, p: int)
    requires IsLinks(a) && Hangs(a, t, n, p)
    ensures forall x | x in Nodes(t) :: 0 <= x < N
    ensures 0 <= n <= NIL && (n == NIL <==> t.Leaf?)
  {
    match t
    case Leaf =>
    case Node(l, x, r) =>
      HangsBounds(a, l, a.lson[x], x);
      HangsBounds(a, r, a.rson[x], x);
  }

  // ---- a new leaf

  /** b is a with r put at the open place below node or root entry p. */
  ghost predicate Attached(a: Links, b: Links, p: int, right: bool, r: int)
    requires IsLinks(a) && IsLinks(b) && 0 <= r < N
    requires 0 <= p < N + 257 && (!right ==> p <= N)
  {
    && b.lson[r] == NIL && b.rson[r] == NIL && b.dad[r] == p
    && (if right then b.rson[p] == r else b.lson[p] == r)
    && (forall x | 0 <= x < N && x != r && (right || x != p) :: b.lson[x] == a.lson[x])
    && (forall x | 0 <= x < N && x != r && (!right || x != p) :: b.rson[x] == a.rson[x])
    && (forall x | 0 <= x < N && x != r :: b.dad[x] == a.dad[x])
    && (forall x | N <= x < N + 257 && (!right || x != p) :: b.rson[x] == a.rson[x])
  }

  lemma {:induction false} AttachHangs(txt: seq<byte>, a: Links, b: Links, t: Bst, n: int, p: int, right: bool, r: int)
    requires IsText(txt) && Ordered(txt, t) && IsLinks(a) && IsLinks(b) && Hangs(a, t, n, p)
    requires 0 <= r < N && r !in Nodes(t) && p !in Nodes(t) && p != r
    requires 0 <= p < N + 257 && (!right ==> p <= N)
    requires var spot := Find(txt, t, r, p, right);
      spot.Open? && 0 <= spot.parent < N + 257 && (!spot.right ==> spot.parent <= N)
      && Attached(a, b, spot.parent, spot.right, r)
    ensures Hangs(b, Insert(txt, t, r), if t.Leaf? then r else n, p)
  {
    hide Lcp, Less, AllLess, AllGreater;
    match t
    case Leaf =>
    case Node(l, x, rt) =>
      OrderedDistinct(txt, t);
      var spot := Find(txt, t, r, p, right);
      FindInside(txt, t, r, p, right);
      if Less(txt, r, x) {
        FindInside(txt, l, r, x, false);
        AttachHangs(txt, a, b, l, a.lson[x], x, false, r);
        HangsFrame(a, b, rt, a.rson[x], x);
      } else {
        FindInside(txt, rt, r, x, true);
        AttachHangs(txt, a, b, rt, a.rson[x], x, true, r);
        HangsFrame(a, b, l, a.lson[x], x);
      }
  }

  // ---- another subtree in the place of one

  ghost function Redirect(v: int, p: int, q: int): int {
    if v == p then q else v
  }

  /** Outside the given nodes, b is a with pointers to p redirected to q. */
  ghost predicate Redirected(a: Links, b: Links, s: set<int>, p: int, q: int)
    requires IsLinks(a) && IsLinks(b)
  {
    forall x | x in s && 0 <= x < N ::
      b.lson[x] == Redirect(a.lson[x], p, q) && b.rson[x] == Redirect(a.rson[x], p, q) && b.dad[x] == a.dad[x]
  }

  /** Where p is not, redirecting changes nothing. */
  lemma {:induction false} RedirectAway(a: Links, b: Links, t: Bst, n: int, up: int, p: int, q: int)
    requires IsLinks(a) && IsLinks(b) && Hangs(a, t, n, up) && 0 <= p < N && p !in Nodes(t)
    requires Redirected(a, b, Nodes(t), p, q)
    ensures Hangs(b, t, n, up) && n != p
  {
    match t
    case Leaf =>
    case Node(l, x, r) =>
      RedirectAway(a, b, l, a.lson[x], x, p, q);
      RedirectAway(a, b, r, a.rson[x], x, p, q);
  }

  lemma {:induction false} GraftHangs(a: Links, b: Links, t: Bst, n: int, up: int, p: int, q: int, s: Bst)
    requires IsLinks(a) && IsLinks(b) && Hangs(a, t, n, up) && Distinct(t) && p in Nodes(t) && 0 <= p < N
    requires Redirected(a, b, Nodes(t) - Nodes(Sub(t, p)), p, q)
    requires Hangs(b, s, q, a.dad[p])
    ensures Hangs(b, Graft(t, p, s), Redirect(n, p, q), up)
  {
    var l, x, r := t.left, t.pos, t.right;
    if x != p {
      if p in Nodes(l) {
        SubInside(l, p);
        GraftHangs(a, b, l, a.lson[x], x, p, q, s);
        GraftAway(r, p, s);
        RedirectAway(a, b, r, a.rson[x], x, p, q);
      } else {
        SubInside(r, p);
        GraftHangs(a, b, r, a.rson[x], x, p, q, s);
        GraftAway(l, p, s);
        RedirectAway(a, b, l, a.lson[x], x, p, q);
      }
    }
  }

  lemma {:induction false} SubInside(t: Bst, p: int)
    requires Distinct(t) && p in Nodes(t)
    ensures Sub(t, p).Node? && Sub(t, p).pos == p && Nodes(Sub(t, p)) <= Nodes(t) && Distinct(Sub(t, p))
  {
    if t.pos != p {
      if p in Nodes(t.left) { SubInside(t.left, p); } else { SubInside(t.right, p); }
    }
  }

  lemma {:induction false} SubHangs(a: Links, t: Bst, n: int, up: int, p: int)
    requires IsLinks(a) && Hangs(a, t, n, up) && Distinct(t) && p in Nodes(t)
    ensures Sub(t, p).Node? && 0 <= p < N && Hangs(a, Sub(t, p), p, a.dad[p])
    ensures n == p ==> a.dad[p] == up
    ensures n != p ==> a.dad[p] in Nodes(t) && a.dad[p] !in Nodes(Sub(t, p))
    ensures forall x | x in Nodes(t) && 0 <= x < N :: (a.lson[x] == p || a.rson[x] == p) ==> n != p && x == a.dad[p]
    ensures n != p ==> 0 <= a.dad[p] < N && (a.lson[a.dad[p]] == p <==> a.rson[a.dad[p]] != p)
  {
    HangsBounds(a, t, n, up);
    var l, x, r := t.left, t.pos, t.right;
    HangsBounds(a, l, a.lson[x], x);
    HangsBounds(a, r, a.rson[x], x);
    NoPointer(a, l, a.lson[x], x, p);
    NoPointer(a, r, a.rson[x], x, p);
    if x != p {
      if p in Nodes(l) {
        SubHangs(a, l, a.lson[x], x, p);
        SubInside(l, p);
      } else {
        SubHangs(a, r, a.rson[x], x, p);
        SubInside(r, p);
      }
    }
  }

  /** No node points to a position outside its tree. */
  lemma {:induction false} NoPointer(a: Links, t: Bst, n: int, up: int, p: int)
    requires IsLinks(a) && Hangs(a, t, n, up) && 0 <= p < N
    ensures p !in Nodes(t) ==> n != p && forall x | x in Nodes(t) && 0 <= x < N :: a.lson[x] != p && a.rson[x] != p
    ensures Distinct(t) && n == p ==> forall x | x in Nodes(t) && 0 <= x < N :: a.lson[x] != p && a.rson[x] != p
  {
    match t
    case Leaf =>
    case Node(l, x, r) =>
      NoPointer(a, l, a.lson[x], x, p);
      NoPointer(a, r, a.rson[x], x, p);
  }

  // ---- joining the subtrees of a node that goes away

  /** Nothing but entries of the given nodes, and the unused parent entry of NIL, has changed. */
  ghost predicate Untouched(a: Links, b: Links, s: set<int>)
    requires IsLinks(a) && IsLinks(b)
  {
    && (forall x | 0 <= x < N && x !in s :: b.lson[x] == a.lson[x] && b.rson[x] == a.rson[x] && b.dad[x] == a.dad[x])
    && (forall x | N <= x < N + 257 :: b.rson[x] == a.rson[x])
  }

  /** The last node of the right spine is cut out. */
  ghost function CutMax(a: Links, m: int): Links
    requires IsLinks(a) && 0 <= m < N && 0 <= a.dad[m] < N && 0 <= a.lson[m] <= N
  {
    Links(a.lson, a.rson[a.dad[m] := a.lson[m]], a.dad[a.lson[m] := a.dad[m]])
  }

  lemma {:induction false} MaxOutInside(t: Bst)
    requires t.Node? && Distinct(t)
    ensures MaxOut(t).0 in Nodes(t) && Nodes(MaxOut(t).1) == Nodes(t) - {MaxOut(t).0} && Distinct(MaxOut(t).1)
    ensures t.right.Node? ==> MaxOut(t).0 != t.pos && MaxOut(t).1.Node? && MaxOut(t).1.pos == t.pos
  {
    if t.right.Node? {
      MaxOutInside(t.right);
    }
  }

  /** The largest node of a hanging tree: no right son, and its parent in the tree. */
  lemma {:induction false} MaxHangs(a: Links, t: Bst, n: int, p: int)
    requires IsLinks(a) && Hangs(a, t, n, p) && Distinct(t) && t.Node? && t.right.Node?
    ensures var m := MaxOut(t).0;
      0 <= m < N && a.dad[m] in Nodes(t) && m in Nodes(t) && 0 <= a.dad[m] < N && a.dad[m] != m
      && 0 <= a.lson[m] <= N && (a.lson[m] < N ==> a.lson[m] in Nodes(t)) && a.lson[m] != n
  {
    HangsBounds(a, t, n, p);
    MaxOutInside(t);
    MaxOutInside(t.right);
    HangsBounds(a, t.right, a.rson[n], n);
    if t.right.right.Node? {
      MaxHangs(a, t.right, a.rson[n], n);
    } else {
      HangsBounds(a, t.right.left, a.lson[t.right.pos], t.right.pos);
    }
  }

  lemma {:induction false} CutMaxHangs(a: Links, t: Bst, n: int, p: int)
    requires IsLinks(a) && Hangs(a, t, n, p) && Distinct(t) && t.Node? && t.right.Node?
    ensures var m := MaxOut(t).0;
      && 0 <= m < N && 0 <= a.dad[m] < N && 0 <= a.lson[m] <= N
      && Hangs(CutMax(a, m), MaxOut(t).1, n, p)
  {
    MaxHangs(a, t, n, p);
    var l, x, r := t.left, t.pos, t.right;
    var m := MaxOut(t).0;
    var b := CutMax(a, m);
    MaxOutInside(r);
    HangsBounds(a, l, a.lson[x], x);
    HangsBounds(a, r, a.rson[x], x);
    if r.right.Node? {
      MaxHangs(a, r, a.rson[x], x);
      CutMaxHangs(a, r, a.rson[x], x);
      HangsFrame(a, b, l, a.lson[x], x);
    } else {
      HangsBounds(a, r.left, a.lson[m], m);
      HangsFrame(a, b, l, a.lson[x], x);
      Rehang(a, b, r.left, a.lson[m], m, x);
    }
  }

  // ---- the forest of 256 trees

  ghost predicate Rooted(txt: seq<byte>, a: Links, trees: seq<Bst>, c: int)
    requires IsText(txt) && IsLinks(a) && |trees| == 256 && 0 <= c < 256
  {
    && Ordered(txt, trees[c])
    && Hangs(a, trees[c], a.rson[N + 1 + c], N + 1 + c)
    && forall x | x in Nodes(trees[c]) :: 0 <= x < N && txt[x] == c
  }

  ghost predicate Registered(txt: seq<byte>, trees: seq<Bst>, x: int)
    requires IsText(txt) && |trees| == 256 && 0 <= x < N
  {
    x in Nodes(trees[txt[x]])
  }

  ghost predicate Forest(txt: seq<byte>, a: Links, trees: seq<Bst>)
    ensures Forest(txt, a, trees) ==> IsText(txt) && IsLinks(a) && |trees| == 256
  {
    && IsText(txt) && IsLinks(a) && |trees| == 256
    && (forall c | 0 <= c < 256 :: Rooted(txt, a, trees, c))
    && (forall x | 0 <= x < N :: a.dad[x] != NIL <==> Registered(txt, trees, x))
  }

  /** Registered positions have a parent. */
  lemma {:induction false} DadNotNil(a: Links, t: Bst, n: int, p: int)
    requires IsLinks(a) && Hangs(a, t, n, p) && p != NIL
    ensures forall x | x in Nodes(t) :: 0 <= x < N && a.dad[x] != NIL
  {
    match t
    case Leaf =>
    case Node(l, x, r) =>
      DadNotNil(a, l, a.lson[x], x);
      DadNotNil(a, r, a.rson[x], x);
  }
}
