/** lzh_init_tree, lzh_insert_node and lzh_delete_node of encode/lzh.c on the arrays of lzh_t. */
module Matcher {
  import opened Words
  import opened Parameters
  import opened SearchTree
  import opened SearchLinks

  class TextWindow {
    const text: array<byte>
    const lson: array<int>
    const rson: array<int>
    const dad: array<int>
    var matchPosition: int
    var matchLength: int
    ghost var trees: seq<Bst>

    /** The zeroed lzh_t of lzh_encode. */
    constructor ()
      ensures Shape() && fresh(text) && fresh(lson) && fresh(rson) && fresh(dad)
      ensures forall i | 0 <= i < N + F - 1 :: text[i] == 0
    {
      text := new byte[N + F - 1](_ => 0);
      lson := new int[N + 1](_ => 0);
      rson := new int[N + 257](_ => 0);
      dad := new int[N + 1](_ => 0);
      matchPosition, matchLength := 0, 0;
    }

    ghost predicate Shape() {
      && lson != rson && lson != dad && rson != dad
      && text.Length == N + F - 1 && lson.Length == N + 1 && rson.Length == N + 257 && dad.Length == N + 1
    }

    ghost function View(): Links
      reads lson, rson, dad
    {
      Links(lson[..], rson[..], dad[..])
    }

    ghost predicate Valid()
      reads this, text, lson, rson, dad
    {
      Shape() && Forest(text[..], View(), trees)
    }

    /** The surgery of lzh_delete_node inside the subtree of p: its two subtrees are joined below q. */
    method JoinSubtrees(p: int, ghost s: Bst) returns (q: int)
      requires Shape() && 0 <= p < N && Hangs(View(), s, p, dad[p]) && Distinct(s) && s.Node?
      modifies lson, rson, dad
      ensures Untouched(old(View()), View(), Nodes(s.left) + Nodes(s.right))
      ensures var j := Joined(s.left, s.right);
        if j.Leaf? then q == NIL
        else q == j.pos && 0 <= q < N && Hangs(View(), j.left, lson[q], q) && Hangs(View(), j.right, rson[q], q)
    {
      ghost var a := View();
      HangsBounds(a, s.left, a.lson[p], p);
      HangsBounds(a, s.right, a.rson[p], p);
      if rson[p] == NIL {
        q := lson[p];
      } else if lson[p] == NIL {
        q := rson[p];
      } else {
        q := lson[p];
        HangsBounds(a, s.left.right, a.rson[q], q);
        if rson[q] != NIL {
          q := WalkRight(q, p, s.left);
          MaxHangs(a, s.left, lson[p], p);
          CutMaxHangs(a, s.left, lson[p], p);
          MaxOutInside(s.left);
          LiftHangs(a, s, q, p);
          CutOut(q);
          Lift(q, p);
        } else {
          AdoptRight(q, p, s);
        }
      }
    }

    /** The do-while loop down the right spine. */
    method WalkRight(start: int, p: int, ghost t: Bst) returns (q: int)
      requires Shape() && Hangs(View(), t, start, p) && t.Node? && t.right.Node?
      ensures q == MaxOut(t).0
    {
      q := start;
      ghost var cur, up := t, p;
      while true
        invariant cur.Node? && cur.right.Node? && Hangs(View(), cur, q, up) && MaxOut(cur).0 == MaxOut(t).0
        decreases cur
      {
        up := q;
        q := rson[q];
        cur := cur.right;
        HangsBounds(View(), cur.right, rson[q], q);
        if rson[q] == NIL {
          break;
        }
      }
    }

    /** The largest node q is unhooked: its left subtree takes its place. */
    method CutOut(q: int)
      requires Shape() && 0 <= q < N && 0 <= dad[q] < N && 0 <= lson[q] <= N
      modifies rson, dad
      ensures View() == CutMax(old(View()), q)
    {
      rson[dad[q]] := lson[q];
      dad[lson[q]] := dad[q];
    }

    /** q takes over the subtrees of p. */
    method Lift(q: int, p: int)
      requires Shape() && 0 <= p < N && 0 <= q < N && 0 <= lson[p] <= N && 0 <= rson[p] <= N && p != q
      modifies lson, rson, dad
      ensures View() == Lifted(old(View()), q, p)
    {
      lson[q] := lson[p];
      dad[lson[p]] := q;
      rson[q] := rson[p];
      dad[rson[p]] := q;
    }

    /** q, the left son of p without a right son of its own, takes over the right subtree. */
    method AdoptRight(q: int, p: int, ghost s: Bst)
      requires Shape() && 0 <= p < N && Hangs(View(), s, p, dad[p]) && Distinct(s)
      requires s.Node? && s.left.Node? && s.left.right.Leaf? && s.right.Node? && q == lson[p]
      modifies rson, dad
      ensures Untouched(old(View()), View(), Nodes(s.left) + Nodes(s.right))
      ensures 0 <= q < N && Hangs(View(), s.left.left, lson[q], q) && Hangs(View(), s.right, rson[q], q)
    {
      ghost var a := View();
      HangsBounds(a, s.right, a.rson[p], p);
      rson[q] := rson[p];
      dad[rson[p]] := q;
      Rehang(a, View(), s.right, a.rson[p], p, q);
      HangsFrame(a, View(), s.left.left, a.lson[q], q);
    }

    /** lzh_delete_node */
    method DeleteNode(p: int)
      requires Valid() && 0 <= p < N
      modifies lson, rson, dad, `trees
      ensures Valid()
      ensures var c := text[p];
        trees == if old(dad[p]) == NIL then old(trees) else old(trees)[c := Remove(old(trees)[c], p)]
      ensures dad[p] == NIL && !Registered(text[..], trees, p)
    {
      if dad[p] == NIL {
        return;
      }
      ghost var a, c := View(), text[p];
      ghost var s := Sub(trees[c], p);
      DeleteFacts(text[..], a, trees, p);
      JoinedFacts(text[..], a, trees, p);
      var q := JoinSubtrees(p, s);
      Replace(p, q, s, a);
      ForestRemove(text[..], a, View(), trees, c, p, q);
      trees := trees[c := Remove(trees[c], p)];
    }

    /** The parent's pointer to p becomes one to q. */
    method RedirectSon(up: int, p: int, q: int)
      requires Shape() && 0 <= up < N + 257 && (rson[up] == p || up <= N)
      modifies lson, rson
      ensures rson[..] == if old(rson[up]) == p then old(rson[..])[up := q] else old(rson[..])
      ensures lson[..] == if old(rson[up]) == p then old(lson[..]) else old(lson[..])[up := q]
    {
      if rson[up] == p {
        rson[up] := q;
      } else {
        lson[up] := q;
      }
    }

    /** The last step of lzh_delete_node: q takes the place of p below its parent. */
    method Replace(p: int, q: int, ghost s: Bst, ghost a: Links)
      requires Shape() && IsLinks(a) && 0 <= p < N && s.Node? && s.pos == p
      requires Untouched(a, View(), Nodes(s.left) + Nodes(s.right)) && p !in Nodes(s.left) + Nodes(s.right)
      requires 0 <= a.dad[p] < N + 257 && a.dad[p] != NIL && a.dad[p] !in Nodes(s)
      requires a.rson[a.dad[p]] == p || (a.dad[p] < N && a.lson[a.dad[p]] == p)
      requires var j := Joined(s.left, s.right);
        Distinct(j) && Nodes(j) == Nodes(s.left) + Nodes(s.right) &&
        if j.Leaf? then q == NIL
        else q == j.pos && 0 <= q < N && Hangs(View(), j.left, lson[q], q) && Hangs(View(), j.right, rson[q], q)
      modifies lson, rson, dad
      ensures Replaced(a, View(), Nodes(s), p, q)
      ensures Hangs(View(), Joined(s.left, s.right), q, a.dad[p])
    {
      hide Nodes, Hangs, Distinct, Joined, Untouched, Replaced, SameOn;
      ghost var b, j := View(), Joined(s.left, s.right);
      PlaceTaken(a, b, s, p, q);
      dad[q] := dad[p];
      RedirectSon(dad[p], p, q);
      dad[p] := NIL;
      TopHangs(b, View(), j, q, a.dad[p]);
    }

    /** lzh_init_tree */
    method InitTree()
      requires Shape()
      modifies rson, dad, `trees
      ensures Valid()
      ensures forall c | 0 <= c < 256 :: trees[c] == Leaf
      ensures forall x | 0 <= x < N :: dad[x] == NIL
    {
      var i := N + 1;
      while i <= N + 256
        invariant N + 1 <= i <= N + 257
        invariant forall x | N + 1 <= x < i :: rson[x] == NIL
      {
        rson[i] := NIL;
        i := i + 1;
      }
      i := 0;
      while i < N
        invariant 0 <= i <= N
        invariant forall x | N + 1 <= x < N + 257 :: rson[x] == NIL
        invariant forall x | 0 <= x < i :: dad[x] == NIL
      {
        dad[i] := NIL;
        i := i + 1;
      }
      trees := seq(256, _ => Leaf);
      EmptyForest(text[..], View(), trees);
    }

    /** The comparison loop: i is the length of the common part, cmp the first difference behind it. */
    method Compare(r: int, p: int) returns (i: int, cmp: int)
      requires Shape() && 0 <= r < N && 0 <= p < N && text[r] == text[p]
      ensures i == Lcp(text[..], r, p) >= 1
      ensures cmp == if i < F then text[r + i] as int - text[p + i] else 0
    {
      cmp := 0;
      i := 1;
      while i < F
        invariant 1 <= i <= F && Agree(text[..], r, p, i) && cmp == 0
      {
        cmp := text[r + i] as int - text[p + i];
        if cmp != 0 {
          break;
        }
        i := i + 1;
      }
      LcpUnique(text[..], r, p, i);
    }

    /** The loop of lzh_insert_node: the search goes down from the root entry to an open place (below p, right
        when cmp >= 0) or to a node p with the same key, and the longest match on the way is kept. */
    method Search(r: int, ghost t: Bst) returns (found: bool, p: int, cmp: int)
      requires Shape() && 0 <= r < N && SearchTreeOf(text[..], View(), t, r)
      modifies `matchPosition, `matchLength
      ensures Ordered(text[..], t)
      ensures var spot := Find(text[..], t, r, N + 1 + text[r], true);
        spot == if found then Found(p) else Open(p, cmp >= 0)
      ensures Candidate(text[..], t, r, matchLength, matchPosition)
      ensures Covered(text[..], t, Leaf, r, matchLength)
      ensures Nearest(text[..], Visited(text[..], t, r), r, matchLength, matchPosition)
    {
      hide Heading, Candidate, Covered, Find, Ordered, Hangs, Less, Agree, Lcp, Nodes, Visited, Nearest;
      ghost var txt, a := text[..], View();
      found, cmp, p := false, 1, N + 1 + text[r];
      matchLength := 0;
      ghost var cur, seen: set<int> := t, {};
      NothingSeen(txt, r, matchPosition);
      StartSearch(txt, a, t, r, matchPosition);
      while true
        invariant 0 <= p < N + 257 && (cmp < 0 ==> p < N)
        invariant Heading(txt, a, t, cur, r, p, cmp >= 0)
        invariant Find(txt, t, r, N + 1 + text[r], true) == Find(txt, cur, r, p, cmp >= 0)
        invariant Candidate(txt, t, r, matchLength, matchPosition) && matchLength < F
        invariant Covered(txt, t, cur, r, matchLength)
        invariant Visited(txt, t, r) == seen + Visited(txt, cur, r) && Nearest(txt, seen, r, matchLength, matchPosition)
        decreases cur
      {
        Arrive(txt, a, t, cur, r, p, cmp >= 0);
        var q := if cmp >= 0 then rson[p] else lson[p];
        if q == NIL {
          NoneVisited(txt, r);
          return;
        }
        ghost var up, d := p, cmp >= 0;
        p := q;
        var i;
        i, cmp := Compare(r, p);
        ghost var len := matchLength;
        VisitedHere(txt, cur, r);
        Keep(r, p, i, t, seen);
        seen := seen + {p};
        if i >= F {
          found := true;
          FullMatch(txt, t, r, matchLength);
          FindHere(txt, cur, r, up, d);
          assert seen == Visited(txt, t, r);
          return;
        }
        Branch(txt, a, t, cur, r, i, cmp, up, d);
        StillCovered(txt, t, cur, r, len, matchLength);
        DescendStep(txt, t, cur, r, i, matchLength);
        cur := if cmp >= 0 then cur.right else cur.left;
      }
    }

    /** The match found at p is kept if it is longer, or as long and nearer. */
    method Keep(r: int, p: int, i: int, ghost t: Bst, ghost seen: set<int>)
      requires Shape() && 0 <= r < N && 0 <= p < N && r != p && p in Nodes(t) && i == Lcp(text[..], r, p)
      requires Candidate(text[..], t, r, matchLength, matchPosition)
      requires Nearest(text[..], seen, r, matchLength, matchPosition)
      modifies `matchPosition, `matchLength
      ensures Candidate(text[..], t, r, matchLength, matchPosition)
      ensures matchLength == if i > THRESHOLD && i > old(matchLength) then i else old(matchLength)
      ensures matchLength == old(matchLength) > 0 ==> matchPosition <= old(matchPosition)
      ensures Nearest(text[..], seen + {p}, r, matchLength, matchPosition)
    {
      RingBack(r, p);
      if i > THRESHOLD {
        if i > matchLength {
          matchPosition := (r - p) % N - 1;
          matchLength := i;
        }
        if i == matchLength {
          var c := (r - p) % N - 1;
          if c < matchPosition {
            matchPosition := c;
          }
        }
      }
    }

    /** lzh_insert_node: r is registered, and the longest match with an older position is found. */
    method InsertNode(r: int)
      requires Valid() && 0 <= r < N && dad[r] == NIL
      modifies lson, rson, dad, `trees, `matchPosition, `matchLength
      ensures Valid()
      ensures Ordered(text[..], old(trees)[text[r]])
      ensures trees == old(trees)[text[r] := Insert(text[..], old(trees)[text[r]], r)]
      ensures Candidate(text[..], old(trees)[text[r]], r, matchLength, matchPosition)
      ensures Covered(text[..], old(trees)[text[r]], Leaf, r, matchLength)
      ensures Nearest(text[..], Visited(text[..], old(trees)[text[r]], r), r, matchLength, matchPosition)
    {
      hide Forest, Visited, Nearest, SearchTreeOf, Ordered, Candidate, Covered, Find, Insert, Graft, Attached, Hangs,
        Distinct, Sub;
      ghost var txt, c, t := text[..], text[r], trees[text[r]];
      Unregistered(txt, View(), trees, r);
      ghost var a0 := View();
      rson[r] := NIL;
      lson[r] := NIL;
      ghost var a := View();
      ForestIdle(txt, a0, a, trees, r);
      var found, p, cmp := Search(r, t);
      ghost var root := N + 1 + text[r];
      if !found {
        SpotBounds(txt, a, trees, r, p, cmp >= 0);
        if cmp >= 0 {
          rson[p] := r;
        } else {
          lson[p] := r;
        }
        dad[r] := p;
        IsAttached(a, View(), p, cmp >= 0, r);
        ForestAttach(txt, a, View(), trees, r);
      } else {
        FoundFacts(txt, a, trees, r, p);
        Displace(r, p);
        DisplacedReplaced(a, Sub(t, p), r, p);
        ForestDisplace(txt, a, View(), trees, r, p);
      }
      trees := trees[c := Insert(txt, t, r)];
    }

    /** The end of lzh_insert_node: r takes the place of p, which has the same key. */
    method Displace(r: int, p: int)
      requires Shape() && 0 <= r < N && 0 <= p < N && CanDisplace(View(), r, p)
      modifies lson, rson, dad
      ensures View() == DisplacedBy(old(View()), r, p)
    {
      dad[r] := dad[p];
      lson[r] := lson[p];
      rson[r] := rson[p];
      dad[lson[p]] := r;
      dad[rson[p]] := r;
      RedirectSon(dad[p], p, r);
      dad[p] := NIL;
    }
  }

  ghost function Lifted(b: Links, q: int, p: int): (c: Links)
    requires IsLinks(b) && 0 <= p < N && 0 <= q < N && 0 <= b.lson[p] <= N && 0 <= b.rson[p] <= N
    ensures IsLinks(c)
  {
    Links(b.lson[q := b.lson[p]], b.rson[q := b.rson[p]], b.dad[b.lson[p] := q][b.rson[p] := q])
  }

  /** The largest node q of the left subtree, cut out, takes over the subtrees of p. */
  lemma LiftHangs(a: Links, s: Bst, q: int, p: int)
    requires IsLinks(a) && 0 <= p < N && Hangs(a, s, p, a.dad[p]) && Distinct(s)
    requires s.Node? && s.left.Node? && s.left.right.Node? && s.right.Node?
    requires q == MaxOut(s.left).0 && q in Nodes(s.left) && 0 <= q < N
    requires 0 <= a.dad[q] < N && a.dad[q] in Nodes(s.left) && 0 <= a.lson[q] <= N &&
      (a.lson[q] < N ==> a.lson[q] in Nodes(s.left))
    requires Hangs(CutMax(a, q), MaxOut(s.left).1, a.lson[p], p)
    ensures var b := CutMax(a, q);
      && p != q && 0 <= b.lson[p] <= N && 0 <= b.rson[p] <= N
      && var c := Lifted(b, q, p);
      && Untouched(a, c, Nodes(s.left) + Nodes(s.right))
      && Hangs(c, MaxOut(s.left).1, c.lson[q], q) && Hangs(c, s.right, c.rson[q], q)
  {
    hide MaxOut, Untouched;
    var b, l := CutMax(a, q), MaxOut(s.left).1;
    MaxOutInside(s.left);
    HangsBounds(b, l, b.lson[p], p);
    HangsBounds(a, s.right, a.rson[p], p);
    LiftUntouched(a, s, q, p);
    assert p !in Nodes(l) && p !in Nodes(s.right);
    HangsFrame(a, b, s.right, a.rson[p], p);
    var b1 := b.(lson := b.lson[q := b.lson[p]], dad := b.dad[b.lson[p] := q]);
    Rehang(b, b1, l, b.lson[p], p, q);
    HangsFrame(b, b1, s.right, b.rson[p], p);
    var c := Lifted(b, q, p);
    Rehang(b1, c, s.right, b1.rson[p], p, q);
    HangsFrame(b1, c, l, b1.lson[p], q);
  }

  lemma LiftUntouched(a: Links, s: Bst, q: int, p: int)
    requires IsLinks(a) && 0 <= p < N && Hangs(a, s, p, a.dad[p]) && Distinct(s)
    requires s.Node? && s.left.Node? && s.right.Node? && q in Nodes(s.left) && 0 <= q < N
    requires 0 <= a.dad[q] < N && a.dad[q] in Nodes(s.left) && 0 <= a.lson[q] <= N &&
      (a.lson[q] < N ==> a.lson[q] in Nodes(s.left))
    requires p != q && 0 <= CutMax(a, q).lson[p] <= N && 0 <= CutMax(a, q).rson[p] <= N
    ensures Untouched(a, Lifted(CutMax(a, q), q, p), Nodes(s.left) + Nodes(s.right))
  {
    HangsBounds(a, s.left, a.lson[p], p);
    HangsBounds(a, s.right, a.rson[p], p);
  }

  ghost predicate CanDisplace(a: Links, r: int, p: int)
    requires IsLinks(a) && 0 <= r < N && 0 <= p < N
  {
    && r != p && 0 <= a.dad[p] < N + 257 && a.dad[p] != NIL && a.dad[p] != r
    && 0 <= a.lson[p] <= N && 0 <= a.rson[p] <= N && a.lson[p] != p && a.rson[p] != p
    && (a.rson[a.dad[p]] == p || (a.dad[p] < N && a.lson[a.dad[p]] == p))
  }

  ghost function DisplacedBy(a: Links, r: int, p: int): (b: Links)
    requires IsLinks(a) && 0 <= r < N && 0 <= p < N && CanDisplace(a, r, p)
    ensures IsLinks(b)
  {
    var up := a.dad[p];
    var l, rs := a.lson[r := a.lson[p]], a.rson[r := a.rson[p]];
    Links(if a.rson[up] == p then l else l[up := r],
          if a.rson[up] == p then rs[up := r] else rs,
          a.dad[r := up][a.lson[p] := r][a.rson[p] := r][p := NIL])
  }

  lemma DisplacedReplaced(a: Links, s: Bst, r: int, p: int)
    requires IsLinks(a) && 0 <= r < N && 0 <= p < N && CanDisplace(a, r, p)
    requires s.Node? && s.pos == p && Distinct(s) && Hangs(a, s, p, a.dad[p]) && r !in Nodes(s) && a.dad[p] !in Nodes(s)
    ensures Replaced(a, DisplacedBy(a, r, p), Nodes(s) + {r}, p, r)
    ensures Hangs(DisplacedBy(a, r, p), Node(s.left, r, s.right), r, a.dad[p])
  {
    hide Hangs, Distinct, Replaced, DisplacedBy;
    SonsInside(a, s, p, a.dad[p]);
    DisplacedLinks(a, Nodes(s), r, p);
    DisplacedInside(a, Nodes(s), r, p);
    DisplacedHangs(a, DisplacedBy(a, r, p), s, p, r, a.dad[p]);
  }

  lemma DisplacedLinks(a: Links, inner: set<int>, r: int, p: int)
    requires IsLinks(a) && 0 <= r < N && 0 <= p < N && CanDisplace(a, r, p)
    requires p in inner && r !in inner && a.dad[p] !in inner
    requires a.lson[p] == NIL || a.lson[p] in inner
    requires a.rson[p] == NIL || a.rson[p] in inner
    ensures Replaced(a, DisplacedBy(a, r, p), inner + {r}, p, r)
  {
  }

  lemma DisplacedInside(a: Links, inner: set<int>, r: int, p: int)
    requires IsLinks(a) && 0 <= r < N && 0 <= p < N && CanDisplace(a, r, p)
    requires p in inner && r !in inner && a.dad[p] !in inner
    requires a.lson[p] == NIL || a.lson[p] in inner
    requires a.rson[p] == NIL || a.rson[p] in inner
    ensures var b := DisplacedBy(a, r, p);
      && b.lson[r] == a.lson[p] && b.rson[r] == a.rson[p] && b.dad[r] == a.dad[p]
      && forall x | x in inner && x != p && 0 <= x < N ::
        && a.lson[x] == b.lson[x] && a.rson[x] == b.rson[x]
        && b.dad[x] == if x == a.lson[p] || x == a.rson[p] then r else a.dad[x]
  {
  }

  lemma SonsInside(a: Links, s: Bst, p: int, up: int)
    requires IsLinks(a) && 0 <= p < N && s.Node? && s.pos == p && Distinct(s) && Hangs(a, s, p, up)
    ensures a.lson[p] == NIL || (0 <= a.lson[p] < N && a.lson[p] in Nodes(s) && a.lson[p] != p)
    ensures a.rson[p] == NIL || (0 <= a.rson[p] < N && a.rson[p] in Nodes(s) && a.rson[p] != p)
    ensures a.lson[p] == NIL || a.lson[p] != a.rson[p]
  {
    HangsBounds(a, s.left, a.lson[p], p);
    HangsBounds(a, s.right, a.rson[p], p);
  }

  lemma DisplacedHangs(a: Links, b: Links, s: Bst, p: int, r: int, up: int)
    requires IsLinks(a) && IsLinks(b) && 0 <= p < N && 0 <= r < N && s.Node? && s.pos == p && Distinct(s)
    requires Hangs(a, s, p, up) && r !in Nodes(s)
    requires forall x | x in Nodes(s) && x != p && 0 <= x < N :: a.lson[x] == b.lson[x] && a.rson[x] == b.rson[x]
    requires forall x | x in Nodes(s) && x != p && 0 <= x < N ::
      b.dad[x] == if x == a.lson[p] || x == a.rson[p] then r else a.dad[x]
    requires b.lson[r] == a.lson[p] && b.rson[r] == a.rson[p] && b.dad[r] == up
    ensures Hangs(b, Node(s.left, r, s.right), r, up)
  {
    HangsBounds(a, s.left, a.lson[p], p);
    HangsBounds(a, s.right, a.rson[p], p);
    assert a.lson[p] < N ==> a.lson[p] in Nodes(s.left) && a.lson[p] !in Nodes(s.right);
    assert a.rson[p] < N ==> a.rson[p] in Nodes(s.right) && a.rson[p] !in Nodes(s.left);
    Rehang(a, b, s.left, a.lson[p], p, r);
    Rehang(a, b, s.right, a.rson[p], p, r);
  }

  /** A tree whose top node has been given another parent. */
  lemma TopHangs(a: Links, b: Links, j: Bst, q: int, up: int)
    requires IsLinks(a) && IsLinks(b) && Distinct(j) && SameOn(a, b, Nodes(j) - {q})
    requires if j.Leaf? then q == NIL
      else q == j.pos && 0 <= q < N && Hangs(a, j.left, a.lson[q], q) && Hangs(a, j.right, a.rson[q], q)
    requires j.Node? ==> a.lson[q] == b.lson[q] && a.rson[q] == b.rson[q] && b.dad[q] == up
    ensures Hangs(b, j, q, up)
  {
    if j.Node? {
      HangsFrame(a, b, j.left, a.lson[q], q);
      HangsFrame(a, b, j.right, a.rson[q], q);
    }
  }

  /** q takes the place of p below the parent of p. */
  ghost function PlaceOf(b: Links, up: int, p: int, q: int): Links
    requires IsLinks(b) && 0 <= p < N && 0 <= q <= N && 0 <= up < N + 257 && (b.rson[up] == p || up <= N)
  {
    Links(if b.rson[up] == p then b.lson else b.lson[up := q], if b.rson[up] == p then b.rson[up := q] else b.rson,
      b.dad[q := b.dad[p]][p := NIL])
  }

  lemma PlaceTaken(a: Links, b: Links, s: Bst, p: int, q: int)
    requires IsLinks(a) && IsLinks(b) && 0 <= p < N && s.Node? && s.pos == p
    requires Untouched(a, b, Nodes(s.left) + Nodes(s.right)) && p !in Nodes(s.left) + Nodes(s.right)
    requires 0 <= a.dad[p] < N + 257 && a.dad[p] != NIL && a.dad[p] !in Nodes(s)
    requires a.rson[a.dad[p]] == p || (a.dad[p] < N && a.lson[a.dad[p]] == p)
    requires var j := Joined(s.left, s.right);
      Nodes(j) == Nodes(s.left) + Nodes(s.right) && if j.Leaf? then q == NIL else q == j.pos && 0 <= q < N
    ensures b.dad[p] == a.dad[p] && (b.rson[a.dad[p]] == p || a.dad[p] <= N)
    ensures var c, j := PlaceOf(b, a.dad[p], p, q), Joined(s.left, s.right);
      && Replaced(a, c, Nodes(s), p, q) && SameOn(b, c, Nodes(j) - {q})
      && (j.Node? ==> b.lson[q] == c.lson[q] && b.rson[q] == c.rson[q] && c.dad[q] == a.dad[p])
  {
    hide Joined;
    var j := Joined(s.left, s.right);
    assert j.Node? ==> q in Nodes(j);
  }

  lemma FindHere(txt: seq<byte>, cur: Bst, r: int, up: int, d: bool)
    requires IsText(txt) && 0 <= r < N && cur.Node? && Ordered(txt, cur) && Lcp(txt, r, cur.pos) == F
    ensures Find(txt, cur, r, up, d) == Found(cur.pos)
  {
  }

  /** The search for r has come to the place below p where cur hangs. */
  ghost predicate Heading(txt: seq<byte>, a: Links, t: Bst, cur: Bst, r: int, p: int, right: bool)
    requires IsText(txt) && IsLinks(a) && 0 <= r < N && 0 <= p < N + 257 && (!right ==> p < N)
    ensures Heading(txt, a, t, cur, r, p, right) ==> Ordered(txt, t) && Ordered(txt, cur)
  {
    && Ordered(txt, t) && r !in Nodes(t) && (forall x | x in Nodes(t) :: 0 <= x < N && txt[x] == txt[r])
    && Ordered(txt, cur) && Nodes(cur) <= Nodes(t) && Hangs(a, cur, if right then a.rson[p] else a.lson[p], p)
  }

  lemma StartSearch(txt: seq<byte>, a: Links, t: Bst, r: int, pos: int)
    requires IsText(txt) && IsLinks(a) && 0 <= r < N && SearchTreeOf(txt, a, t, r)
    ensures Heading(txt, a, t, t, r, N + 1 + txt[r], true) && Candidate(txt, t, r, 0, pos) && Covered(txt, t, t, r, 0)
  {
  }

  lemma Arrive(txt: seq<byte>, a: Links, t: Bst, cur: Bst, r: int, p: int, right: bool)
    requires IsText(txt) && IsLinks(a) && 0 <= r < N && 0 <= p < N + 257 && (!right ==> p < N)
    requires Heading(txt, a, t, cur, r, p, right)
    ensures var q := if right then a.rson[p] else a.lson[p];
      if q == NIL then cur == Leaf && Find(txt, cur, r, p, right) == Open(p, right)
      else cur.Node? && cur.pos == q && 0 <= q < N && q != r && q in Nodes(t) && txt[q] == txt[r]
  {
    HangsBounds(a, cur, if right then a.rson[p] else a.lson[p], p);
  }

  /** At a node with another key the search goes on in one of the subtrees, by the sign of cmp. */
  lemma Branch(txt: seq<byte>, a: Links, t: Bst, cur: Bst, r: int, i: int, cmp: int, up: int, d: bool)
    requires IsText(txt) && IsLinks(a) && 0 <= r < N && 0 <= up < N + 257 && (!d ==> up < N) && cur.Node?
    requires Heading(txt, a, t, cur, r, up, d)
    requires i == Lcp(txt, r, cur.pos) < F && cmp == txt[r + i] as int - txt[cur.pos + i]
    ensures Less(txt, r, cur.pos) <==> cmp < 0
    ensures var next := if cmp >= 0 then cur.right else cur.left;
      Heading(txt, a, t, next, r, cur.pos, cmp >= 0)
      && Find(txt, cur, r, up, d) == Find(txt, next, r, cur.pos, cmp >= 0)
  {
    assert Key(txt, r, i) == txt[r + i] && Key(txt, cur.pos, i) == txt[cur.pos + i];
  }

  /** A tree that the search for position r may go down. */
  ghost predicate SearchTreeOf(txt: seq<byte>, a: Links, t: Bst, r: int)
    requires IsText(txt) && IsLinks(a) && 0 <= r < N
  {
    && Ordered(txt, t) && Hangs(a, t, a.rson[N + 1 + txt[r]], N + 1 + txt[r])
    && r !in Nodes(t) && forall x | x in Nodes(t) :: 0 <= x < N && txt[x] == txt[r]
  }

  /** A match is a registered position at distance pos + 1 that has len bytes in common with position r. */
  ghost predicate Candidate(txt: seq<byte>, t: Bst, r: int, len: int, pos: int)
    requires IsText(txt) && 0 <= r < N
  {
    len == 0 ||
    (3 <= len <= F && 0 <= pos < N - 1 && var p := (r - pos - 1) % N; p in Nodes(t) && Lcp(txt, r, p) == len)
  }

  /** No position of t outside rest has more in common with r than len bytes, or than is worth a match. */
  ghost predicate Covered(txt: seq<byte>, t: Bst, rest: Bst, r: int, len: int)
    requires IsText(txt) && 0 <= r < N
  {
    forall q | q in Nodes(t) && q !in Nodes(rest) && 0 <= q < N ::
      Lcp(txt, r, q) <= if len > THRESHOLD then len else THRESHOLD
  }

  /** Of the given positions, none has more in common with r than the match, or than is worth one; the match is at one
      of them, and of those that have as much in common it is the nearest. */
  ghost predicate Nearest(txt: seq<byte>, ps: set<int>, r: int, len: int, pos: int)
    requires IsText(txt) && 0 <= r < N
  {
    && (len > 0 ==> (r - pos - 1) % N in ps)
    && forall p | p in ps && 0 <= p < N ::
      && Lcp(txt, r, p) <= (if len > THRESHOLD then len else THRESHOLD)
      && (len > 0 && Lcp(txt, r, p) == len ==> pos <= (r - p) % N - 1)
  }

  lemma NothingSeen(txt: seq<byte>, r: int, pos: int)
    requires IsText(txt) && 0 <= r < N
    ensures Nearest(txt, {}, r, 0, pos)
  {
  }

  lemma NoneVisited(txt: seq<byte>, r: int)
    requires IsText(txt) && 0 <= r < N
    ensures Visited(txt, Leaf, r) == {}
  {
  }

  lemma VisitedHere(txt: seq<byte>, cur: Bst, r: int)
    requires IsText(txt) && 0 <= r < N && cur.Node? && Ordered(txt, cur)
    ensures 0 <= cur.pos < N && Ordered(txt, cur.left) && Ordered(txt, cur.right)
    ensures Visited(txt, cur, r) == {cur.pos} + if Lcp(txt, r, cur.pos) == F then {}
      else if Less(txt, r, cur.pos) then Visited(txt, cur.left, r) else Visited(txt, cur.right, r)
  {
  }

  /** The search through one tree is a search through all of them: a match found is at a registered position, and
      no registered position has more in common with r. */
  lemma LongestOfAll(txt: seq<byte>, a: Links, trees: seq<Bst>, r: int, len: int, pos: int)
    requires Forest(txt, a, trees) && 0 <= r < N
    requires Candidate(txt, trees[txt[r]], r, len, pos) && Covered(txt, trees[txt[r]], Leaf, r, len)
    ensures len == 0 || THRESHOLD < len <= F
    ensures len > 0 ==> var p := (r - pos - 1) % N; Registered(txt, trees, p) && Lcp(txt, r, p) == len
    ensures forall y | 0 <= y < N && Registered(txt, trees, y) ::
      Lcp(txt, r, y) <= if len > THRESHOLD then len else THRESHOLD
  {
    assert Rooted(txt, a, trees, txt[r]);
    forall y | 0 <= y < N && Registered(txt, trees, y)
      ensures Lcp(txt, r, y) <= if len > THRESHOLD then len else THRESHOLD
    {
      if txt[y] != txt[r] {
        assert Key(txt, r, 0) != Key(txt, y, 0);
        assert Lcp(txt, r, y) == 0;
      }
    }
  }

  lemma RingBack(r: int, p: int)
    requires 0 <= r < N && 0 <= p < N && r != p
    ensures 1 <= (r - p) % N < N && (r - ((r - p) % N - 1) - 1) % N == p
  {
    if r > p {
      assert (r - p) % N == r - p;
    } else {
      assert (r - p) % N == r - p + N;
    }
  }

  lemma FullMatch(txt: seq<byte>, t: Bst, r: int, len: int)
    requires IsText(txt) && 0 <= r < N && len == F
    ensures Covered(txt, t, Leaf, r, len)
  {
  }

  lemma StillCovered(txt: seq<byte>, t: Bst, cur: Bst, r: int, len: int, len': int)
    requires IsText(txt) && 0 <= r < N && len <= len'
    ensures Covered(txt, t, cur, r, len) ==> Covered(txt, t, cur, r, len')
  {
  }

  /** On either side of a node, everything beyond it has less in common with r than the node itself. */
  lemma DescendStep(txt: seq<byte>, t: Bst, cur: Bst, r: int, i: int, len: int)
    requires IsText(txt) && 0 <= r < N && cur.Node? && Ordered(txt, cur) && Covered(txt, t, cur, r, len)
    requires i == Lcp(txt, r, cur.pos) < F && (i <= THRESHOLD || i <= len)
    ensures Covered(txt, t, if Less(txt, r, cur.pos) then cur.left else cur.right, r, len)
  {
    var x := cur.pos;
    LessTotal(txt, r, x);
    forall q | q in Nodes(t) && 0 <= q < N && q !in Nodes(if Less(txt, r, x) then cur.left else cur.right)
      ensures Lcp(txt, r, q) <= if len > THRESHOLD then len else THRESHOLD
    {
      if q in Nodes(cur.right) && Less(txt, r, x) {
        LessTransitive(txt, r, x, q);
      } else if q in Nodes(cur.left) && Less(txt, x, r) {
        LessTransitive(txt, q, x, r);
        LessTotal(txt, q, r);
      }
    }
  }

  /** What deleting a registered position can rely on. */
  lemma DeleteFacts(txt: seq<byte>, a: Links, trees: seq<Bst>, p: int)
    requires Forest(txt, a, trees) && 0 <= p < N && a.dad[p] != NIL
    ensures var t := trees[txt[p]]; var s := Sub(t, p); var up := a.dad[p];
      && p in Nodes(t) && s.Node? && s.pos == p && Distinct(s) && Hangs(a, s, p, up)
      && p !in Nodes(s.left) + Nodes(s.right)
      && 0 <= up < N + 257 && up != NIL && up !in Nodes(s)
      && (a.rson[up] == p || (up < N && a.lson[up] == p))
  {
    var c := txt[p];
    var t := trees[c];
    var s := Sub(t, p);
    assert Registered(txt, trees, p) && Rooted(txt, a, trees, c);
    OrderedDistinct(txt, t);
    SubHangs(a, t, a.rson[N + 1 + c], N + 1 + c, p);
    SubInside(t, p);
  }

  lemma JoinedFacts(txt: seq<byte>, a: Links, trees: seq<Bst>, p: int)
    requires Forest(txt, a, trees) && 0 <= p < N && p in Nodes(trees[txt[p]])
    ensures var s := Sub(trees[txt[p]], p);
      s.Node? && var j := Joined(s.left, s.right);
        Distinct(j) && Nodes(j) == Nodes(s.left) + Nodes(s.right)
  {
    var t := trees[txt[p]];
    var s := Sub(t, p);
    assert Rooted(txt, a, trees, txt[p]);
    OrderedDistinct(txt, t);
    SubInside(t, p);
    SubOrdered(txt, t, p);
    JoinedOrdered(txt, s);
    OrderedDistinct(txt, Joined(s.left, s.right));
  }

  /** b is a with the subtree at p replaced by one at q, p being unregistered; inner entries may have changed. */
  ghost predicate Replaced(a: Links, b: Links, inner: set<int>, p: int, q: int)
    requires IsLinks(a) && IsLinks(b) && 0 <= p < N && 0 <= a.dad[p] < N + 257
  {
    var up := a.dad[p];
    && b.dad[p] == NIL
    && (forall x | 0 <= x < N && x !in inner && x != up ::
          b.lson[x] == a.lson[x] && b.rson[x] == a.rson[x] && b.dad[x] == a.dad[x])
    && (forall x | N <= x < N + 257 && x != up :: b.rson[x] == a.rson[x])
    && (if a.rson[up] == p then b.rson[up] == q && (up < N ==> b.lson[up] == a.lson[up])
        else b.rson[up] == a.rson[up] && (up < N ==> b.lson[up] == q))
    && (up < N ==> b.dad[up] == a.dad[up])
  }

  /** In tree c the subtree at p gives way to j, whose top is q; the only position that may join is r. */
  ghost predicate Exchanged(txt: seq<byte>, a: Links, b: Links, trees: seq<Bst>, c: int, p: int, q: int, j: Bst,
                            r: int) {
    && Forest(txt, a, trees) && IsLinks(b) && 0 <= c < 256 && p in Nodes(trees[c]) && 0 <= p < N && 0 <= r < N
    && (r == p || (r !in Nodes(trees[c]) && txt[r] == c && b.dad[r] != NIL))
    && var s := Sub(trees[c], p);
      && s.Node? && 0 <= a.dad[p] < N + 257
      && Replaced(a, b, Nodes(s) + {r}, p, q) && Hangs(b, j, q, a.dad[p])
      && Ordered(txt, Graft(trees[c], p, j))
      && Nodes(Graft(trees[c], p, j)) == Nodes(trees[c]) - {p} + (if r == p then {} else {r})
  }

  lemma ExchangedHere(txt: seq<byte>, a: Links, b: Links, trees: seq<Bst>, c: int, p: int, q: int, j: Bst, r: int)
    requires Exchanged(txt, a, b, trees, c, p, q, j, r)
    ensures Rooted(txt, b, trees[c := Graft(trees[c], p, j)], c)
    ensures Nodes(Sub(trees[c], p)) <= Nodes(trees[c])
    ensures a.dad[p] in Nodes(trees[c]) || a.dad[p] == N + 1 + c
  {
    var t, s, root := trees[c], Sub(trees[c], p), N + 1 + c;
    assert Rooted(txt, a, trees, c);
    OrderedDistinct(txt, t);
    SubHangs(a, t, a.rson[root], root, p);
    SubInside(t, p);
    assert Redirected(a, b, Nodes(t) - Nodes(s), p, q);
    GraftHangs(a, b, t, a.rson[root], root, p, q, j);
  }

  lemma ExchangedElsewhere(txt: seq<byte>, a: Links, b: Links, trees: seq<Bst>, c: int, p: int, q: int, j: Bst,
                           r: int, d: int)
    requires Exchanged(txt, a, b, trees, c, p, q, j, r) && 0 <= d < 256 && d != c
    ensures Rooted(txt, b, trees[c := Graft(trees[c], p, j)], d)
  {
    ExchangedHere(txt, a, b, trees, c, p, q, j, r);
    assert Rooted(txt, a, trees, c) && Rooted(txt, a, trees, d);
    HangsFrame(a, b, trees[d], a.rson[N + 1 + d], N + 1 + d);
  }

  /** Registered positions go on having a parent, and others none. */
  lemma ExchangedParents(txt: seq<byte>, a: Links, b: Links, trees: seq<Bst>, c: int, p: int, q: int, j: Bst, r: int,
                         x: int)
    requires Exchanged(txt, a, b, trees, c, p, q, j, r) && 0 <= x < N
    ensures b.dad[x] != NIL <==> Registered(txt, trees[c := Graft(trees[c], p, j)], x)
  {
    hide Hangs, Graft, Ordered, Sub;
    var trees' := trees[c := Graft(trees[c], p, j)];
    ExchangedHere(txt, a, b, trees, c, p, q, j, r);
    ExchangedDad(txt, a, b, trees, c, p, q, j, r, x);
    if x in Nodes(trees'[c]) {
      InTree(txt, b, trees', c, x);
    } else {
      InTree(txt, a, trees, c, x);
    }
  }

  /** What stands in a tree has a parent. */
  lemma InTree(txt: seq<byte>, a: Links, trees: seq<Bst>, c: int, x: int)
    requires IsText(txt) && IsLinks(a) && |trees| == 256 && 0 <= c < 256 && 0 <= x < N && Rooted(txt, a, trees, c)
    ensures x in Nodes(trees[c]) ==> txt[x] == c && a.dad[x] != NIL
  {
    if x in Nodes(trees[c]) { DadNotNil(a, trees[c], a.rson[N + 1 + c], N + 1 + c); }
  }

  /** Outside the tree the parents are as before. */
  lemma ExchangedDad(txt: seq<byte>, a: Links, b: Links, trees: seq<Bst>, c: int, p: int, q: int, j: Bst, r: int,
                     x: int)
    requires Exchanged(txt, a, b, trees, c, p, q, j, r) && 0 <= x < N
    ensures Rooted(txt, a, trees, c) && (a.dad[x] != NIL <==> Registered(txt, trees, x))
    ensures b.dad[p] == NIL && (x !in Nodes(Graft(trees[c], p, j)) ==> b.dad[x] == if x == p then NIL else a.dad[x])
  {
    hide Hangs, Ordered;
    assert Rooted(txt, a, trees, c);
    ExchangedHere(txt, a, b, trees, c, p, q, j, r);
  }

  lemma ExchangedForest(txt: seq<byte>, a: Links, b: Links, trees: seq<Bst>, c: int, p: int, q: int, j: Bst, r: int)
    requires Exchanged(txt, a, b, trees, c, p, q, j, r)
    ensures Forest(txt, b, trees[c := Graft(trees[c], p, j)])
    ensures !Registered(txt, trees[c := Graft(trees[c], p, j)], p)
  {
    hide Hangs, Replaced, Rooted, Sub;
    var trees' := trees[c := Graft(trees[c], p, j)];
    ExchangedHere(txt, a, b, trees, c, p, q, j, r);
    forall d | 0 <= d < 256
      ensures Rooted(txt, b, trees', d)
    {
      if d != c { ExchangedElsewhere(txt, a, b, trees, c, p, q, j, r, d); }
    }
    forall x | 0 <= x < N
      ensures b.dad[x] != NIL <==> Registered(txt, trees', x)
    {
      ExchangedParents(txt, a, b, trees, c, p, q, j, r, x);
    }
    ExchangedDad(txt, a, b, trees, c, p, q, j, r, p);
  }

  lemma ForestRemove(txt: seq<byte>, a: Links, b: Links, trees: seq<Bst>, c: int, p: int, q: int)
    requires Forest(txt, a, trees) && IsLinks(b) && 0 <= c < 256 && p in Nodes(trees[c]) && 0 <= p < N
    requires 0 <= a.dad[p] < N + 257
    requires var s := Sub(trees[c], p);
      s.Node? && Replaced(a, b, Nodes(s), p, q) && Hangs(b, Joined(s.left, s.right), q, a.dad[p])
    ensures Forest(txt, b, trees[c := Remove(trees[c], p)])
    ensures !Registered(txt, trees[c := Remove(trees[c], p)], p)
  {
    var s := Sub(trees[c], p);
    assert Rooted(txt, a, trees, c);
    RemoveOrdered(txt, trees[c], p);
    OrderedDistinct(txt, trees[c]);
    SubInside(trees[c], p);
    assert Nodes(s) + {p} == Nodes(s);
    ExchangedForest(txt, a, b, trees, c, p, q, Joined(s.left, s.right), p);
  }

  lemma EmptyForest(txt: seq<byte>, a: Links, trees: seq<Bst>)
    requires IsText(txt) && IsLinks(a) && |trees| == 256
    requires forall c | 0 <= c < 256 :: trees[c] == Leaf
    requires forall x | N + 1 <= x < N + 257 :: a.rson[x] == NIL
    requires forall x | 0 <= x < N :: a.dad[x] == NIL
    ensures Forest(txt, a, trees)
  {
    forall c | 0 <= c < 256
      ensures Rooted(txt, a, trees, c)
    {
      assert trees[c] == Leaf;
    }
    forall x | 0 <= x < N
      ensures !Registered(txt, trees, x)
    {
      assert trees[txt[x]] == Leaf;
    }
  }

  // ---- registering a position

  lemma Unregistered(txt: seq<byte>, a: Links, trees: seq<Bst>, r: int)
    requires Forest(txt, a, trees) && 0 <= r < N && a.dad[r] == NIL
    ensures forall c | 0 <= c < 256 :: r !in Nodes(trees[c])
    ensures SearchTreeOf(txt, a, trees[txt[r]], r)
  {
    assert !Registered(txt, trees, r);
    forall c | 0 <= c < 256
      ensures r !in Nodes(trees[c])
    {
      assert Rooted(txt, a, trees, c);
    }
    assert Rooted(txt, a, trees, txt[r]);
  }

  /** The son entries of an unregistered position do not matter. */
  lemma ForestIdle(txt: seq<byte>, a: Links, b: Links, trees: seq<Bst>, r: int)
    requires Forest(txt, a, trees) && 0 <= r < N && a.dad[r] == NIL
    requires IsLinks(b) && b.dad == a.dad && b.lson == a.lson[r := NIL] && b.rson == a.rson[r := NIL]
    ensures Forest(txt, b, trees) && SearchTreeOf(txt, b, trees[txt[r]], r) && Ordered(txt, trees[txt[r]])
  {
    Unregistered(txt, a, trees, r);
    forall c | 0 <= c < 256
      ensures Rooted(txt, b, trees, c)
    {
      assert Rooted(txt, a, trees, c);
      HangsFrame(a, b, trees[c], a.rson[N + 1 + c], N + 1 + c);
    }
    Unregistered(txt, b, trees, r);
  }

  lemma IsAttached(a: Links, b: Links, p: int, right: bool, r: int)
    requires IsLinks(a) && IsLinks(b) && 0 <= r < N && 0 <= p < N + 257 && (!right ==> p <= N) && p != r
    requires a.lson[r] == NIL && a.rson[r] == NIL && b.dad == a.dad[r := p]
    requires if right then b.rson == a.rson[p := r] && b.lson == a.lson
             else b.lson == a.lson[p := r] && b.rson == a.rson
    ensures Attached(a, b, p, right, r)
  {
  }

  lemma SpotBounds(txt: seq<byte>, a: Links, trees: seq<Bst>, r: int, p: int, right: bool)
    requires Forest(txt, a, trees) && 0 <= r < N && a.dad[r] == NIL && Ordered(txt, trees[txt[r]])
    requires Find(txt, trees[txt[r]], r, N + 1 + txt[r], true) == Open(p, right)
    ensures 0 <= p < N + 257 && p != NIL && p != r && (!right ==> p < N)
    ensures if trees[txt[r]].Leaf? then p == N + 1 + txt[r] && right else p in Nodes(trees[txt[r]])
  {
    var t := trees[txt[r]];
    Unregistered(txt, a, trees, r);
    OrderedDistinct(txt, t);
    FindInside(txt, t, r, N + 1 + txt[r], true);
  }

  lemma AttachedRooted(txt: seq<byte>, a: Links, b: Links, trees: seq<Bst>, r: int)
    requires Forest(txt, a, trees) && IsLinks(b) && 0 <= r < N && a.dad[r] == NIL && Ordered(txt, trees[txt[r]])
    requires var spot := Find(txt, trees[txt[r]], r, N + 1 + txt[r], true);
      spot.Open? && 0 <= spot.parent < N + 257 && (!spot.right ==> spot.parent <= N)
      && Attached(a, b, spot.parent, spot.right, r)
    ensures Rooted(txt, b, trees[txt[r] := Insert(txt, trees[txt[r]], r)], txt[r])
    ensures Nodes(Insert(txt, trees[txt[r]], r)) == Nodes(trees[txt[r]]) + {r}
  {
    hide Less, AllLess, AllGreater, Agree, Lcp, Ordered, Distinct, Insert, Find, Hangs;
    var c := txt[r];
    var t, root := trees[c], N + 1 + c;
    var spot := Find(txt, t, r, root, true);
    Unregistered(txt, a, trees, r);
    SpotBounds(txt, a, trees, r, spot.parent, spot.right);
    assert Rooted(txt, a, trees, c);
    OrderedDistinct(txt, t);
    FindParent(txt, t, r, root, NIL, true, true);
    InsertOrdered(txt, t, r);
    AttachHangs(txt, a, b, t, a.rson[root], root, true, r);
  }

  lemma ForestAttach(txt: seq<byte>, a: Links, b: Links, trees: seq<Bst>, r: int)
    requires Forest(txt, a, trees) && IsLinks(b) && 0 <= r < N && a.dad[r] == NIL && Ordered(txt, trees[txt[r]])
    requires var spot := Find(txt, trees[txt[r]], r, N + 1 + txt[r], true);
      spot.Open? && 0 <= spot.parent < N + 257 && (!spot.right ==> spot.parent <= N)
      && Attached(a, b, spot.parent, spot.right, r)
    ensures Forest(txt, b, trees[txt[r] := Insert(txt, trees[txt[r]], r)])
  {
    var c := txt[r];
    var t, root := trees[c], N + 1 + c;
    var spot := Find(txt, t, r, root, true);
    var trees' := trees[c := Insert(txt, t, r)];
    Unregistered(txt, a, trees, r);
    SpotBounds(txt, a, trees, r, spot.parent, spot.right);
    assert Rooted(txt, a, trees, c);
    AttachedRooted(txt, a, b, trees, r);
    forall d | 0 <= d < 256
      ensures Rooted(txt, b, trees', d)
    {
      assert Rooted(txt, a, trees, d);
      if d != c { HangsFrame(a, b, trees[d], a.rson[N + 1 + d], N + 1 + d); }
    }
    forall x | 0 <= x < N
      ensures b.dad[x] != NIL <==> Registered(txt, trees', x)
    {
      assert a.dad[x] != NIL <==> Registered(txt, trees, x);
    }
  }

  lemma FoundFacts(txt: seq<byte>, a: Links, trees: seq<Bst>, r: int, p: int)
    requires Forest(txt, a, trees) && 0 <= r < N && a.dad[r] == NIL && Ordered(txt, trees[txt[r]])
    requires Find(txt, trees[txt[r]], r, N + 1 + txt[r], true) == Found(p)
    ensures var t := trees[txt[r]]; var s := Sub(t, p);
      && p in Nodes(t) && 0 <= p < N && r != p && s.Node? && s.pos == p && Distinct(s)
      && 0 <= a.dad[p] < N + 257 && Hangs(a, s, p, a.dad[p]) && r !in Nodes(s) && a.dad[p] !in Nodes(s)
      && CanDisplace(a, r, p)
  {
    var t := trees[txt[r]];
    Unregistered(txt, a, trees, r);
    FindInside(txt, t, r, N + 1 + txt[r], true);
    assert Rooted(txt, a, trees, txt[r]);
    assert Registered(txt, trees, p);
    DeleteFacts(txt, a, trees, p);
    OrderedDistinct(txt, t);
    SubInside(t, p);
    SubHangs(a, t, a.rson[N + 1 + txt[r]], N + 1 + txt[r], p);
    SonsInside(a, Sub(t, p), p, a.dad[p]);
  }

  lemma {:induction false} InsertIsGraft(txt: seq<byte>, t: Bst, r: int, p: int)
    requires IsText(txt) && Ordered(txt, t) && 0 <= r < N && p in Nodes(t)
    requires Find(txt, t, r, NIL, true) == Found(p)
    ensures Sub(t, p).Node? && Insert(txt, t, r) == Graft(t, p, Node(Sub(t, p).left, r, Sub(t, p).right))
  {
    OrderedDistinct(txt, t);
    SubInside(t, p);
    var l, x, rt := t.left, t.pos, t.right;
    var j := Node(Sub(t, p).left, r, Sub(t, p).right);
    if Lcp(txt, r, x) != F {
      if Less(txt, r, x) {
        FindParent(txt, l, r, x, NIL, false, true);
        FindInside(txt, l, r, NIL, true);
        InsertIsGraft(txt, l, r, p);
        GraftAway(rt, p, j);
      } else {
        FindParent(txt, rt, r, x, NIL, true, true);
        FindInside(txt, rt, r, NIL, true);
        InsertIsGraft(txt, rt, r, p);
        GraftAway(l, p, j);
      }
    }
  }

  lemma ForestDisplace(txt: seq<byte>, a: Links, b: Links, trees: seq<Bst>, r: int, p: int)
    requires Forest(txt, a, trees) && IsLinks(b) && 0 <= r < N && a.dad[r] == NIL && Ordered(txt, trees[txt[r]])
    requires Find(txt, trees[txt[r]], r, N + 1 + txt[r], true) == Found(p)
    requires 0 <= p < N && 0 <= a.dad[p] < N + 257
    requires var s := Sub(trees[txt[r]], p);
      s.Node? && Replaced(a, b, Nodes(s) + {r}, p, r) && Hangs(b, Node(s.left, r, s.right), r, a.dad[p])
    ensures Forest(txt, b, trees[txt[r] := Insert(txt, trees[txt[r]], r)])
  {
    var t := trees[txt[r]];
    var s := Sub(t, p);
    FoundFacts(txt, a, trees, r, p);
    Unregistered(txt, a, trees, r);
    FindParent(txt, t, r, N + 1 + txt[r], NIL, true, true);
    InsertOrdered(txt, t, r);
    InsertIsGraft(txt, t, r, p);
    ExchangedForest(txt, a, b, trees, txt[r], p, r, Node(s.left, r, s.right), r);
  }
}
