/**
 * What `moveChild` does to the arena and to the ghost lists when `remove`
 * uses it to take a node out of the tree: the node's only child (or null)
 * takes its place, or, for a black leaf, a fresh placeholder node does.
 */
module Removal {
  import opened Outcomes
  import opened Songs
  import opened Arena
  import opened Rotations

  /**
   * The arena after moveChild(parent, deleted, newChild) when `deleted` is
   * a child of `parent`: `newChild` takes its slot and points back to
   * `parent`.
   */
  function MovedNodes(nodes: seq<Node>, parent: Ptr, deleted: nat, newChild: Ptr): (r: seq<Node>)
    ensures |r| == |nodes|
  {
    var n1 :=
      if parent.Null? || parent.i >= |nodes| then nodes
      else if nodes[parent.i].left == Ref(deleted) then nodes[parent.i := nodes[parent.i].(left := newChild)]
      else nodes[parent.i := nodes[parent.i].(right := newChild)];
    if newChild.Ref? && newChild.i < |n1| then n1[newChild.i := n1[newChild.i].(parent := parent)] else n1
  }

  /** The root after moveChild: `newChild` when `parent` is null. */
  function MovedRoot(root: Ptr, parent: Ptr, newChild: Ptr): Ptr {
    if parent.Null? then newChild else root
  }

  /** moveChild changes links only: every slot keeps its element and its colour. */
  lemma MovedContents(nodes: seq<Node>, parent: Ptr, deleted: nat, newChild: Ptr)
    ensures SameContents(nodes, MovedNodes(nodes, parent, deleted, newChild))
    ensures forall j :: DataAt(MovedNodes(nodes, parent, deleted, newChild), j) == DataAt(nodes, j)
  {
  }

  /** The list `s` with every `x` replaced by the list `r`. */
  ghost function Subst(s: seq<nat>, x: nat, r: seq<nat>): seq<nat> {
    if s == [] then [] else (if s[0] == x then r else [s[0]]) + Subst(s[1..], x, r)
  }

  lemma {:induction false} SubstAppend(a: seq<nat>, b: seq<nat>, x: nat, r: seq<nat>)
    ensures Subst(a + b, x, r) == Subst(a, x, r) + Subst(b, x, r)
  {
    if a == [] {
      assert a + b == b;
    } else {
      assert (a + b)[0] == a[0] && (a + b)[1..] == a[1..] + b;
      SubstAppend(a[1..], b, x, r);
      var h := if a[0] == x then r else [a[0]];
      assert h + (Subst(a[1..], x, r) + Subst(b, x, r)) == (h + Subst(a[1..], x, r)) + Subst(b, x, r);
    }
  }

  lemma {:induction false} SubstAbsent(s: seq<nat>, x: nat, r: seq<nat>)
    requires x !in s
    ensures Subst(s, x, r) == s
  {
    if s != [] {
      SubstAbsent(s[1..], x, r);
      assert s == [s[0]] + s[1..];
    }
  }

  lemma {:induction false} SubstMembers(s: seq<nat>, x: nat, r: seq<nat>)
    ensures forall y :: y in Subst(s, x, r) <==> (y in s && y != x) || (x in s && y in r)
  {
    if s != [] {
      SubstMembers(s[1..], x, r);
      assert s == [s[0]] + s[1..];
    }
  }

  /** The lists after `x` is replaced by `r` everywhere; `x` is no longer live. */
  ghost function SubstSubs(sub: Subs, x: nat, r: seq<nat>): Subs {
    map i | i in sub && i != x :: Subst(sub[i], x, r)
  }

  /** `x` has at most one child, and `c` is that child (null when there is none). */
  ghost predicate OnlyChild(nodes: seq<Node>, x: nat, c: Ptr)
    requires x < |nodes|
  {
    (c == nodes[x].left && nodes[x].right.Null?) || (c == nodes[x].right && nodes[x].left.Null?)
  }

  /** Taking `x` out of `L + [x] + R` leaves `L + R`. */
  lemma DropMiddle(L: seq<nat>, x: nat, R: seq<nat>)
    requires x !in L && x !in R
    ensures Subst(L + [x] + R, x, []) == L + R
  {
    calc {
      Subst(L + [x] + R, x, []);
      == { SubstAppend(L + [x], R, x, []); }
      Subst(L + [x], x, []) + Subst(R, x, []);
      == { SubstAppend(L, [x], x, []); assert Subst([x], x, []) == []; }
      Subst(L, x, []) + Subst(R, x, []);
      == { SubstAbsent(L, x, []); SubstAbsent(R, x, []); }
      L + R;
    }
  }

  /** Replacing `x` in `L + [i] + R`, for `i` other than `x`, works on `L` and `R` alone. */
  lemma SubstAround(L: seq<nat>, i: nat, R: seq<nat>, x: nat, r: seq<nat>)
    requires i != x
    ensures Subst(L + [i] + R, x, r) == Subst(L, x, r) + [i] + Subst(R, x, r)
  {
    SubstAppend(L + [i], R, x, r);
    SubstAppend(L, [i], x, r);
    assert Subst([i], x, r) == [i];
  }

  /** A live node's two children are different nodes. */
  lemma ChildrenDiffer(nodes: seq<Node>, root: Ptr, sub: Subs, i: nat)
    requires Wf(nodes, root, sub) && i in sub
    ensures i < |nodes| && (nodes[i].left.Ref? ==> nodes[i].left != nodes[i].right)
    ensures nodes[i].left != Ref(i) && nodes[i].right != Ref(i)
  {
    Shape(nodes, root, sub, i);
    Links(nodes, root, sub, i);
    var l, r := nodes[i].left, nodes[i].right;
    if l.Ref? { ListAt(nodes, root, sub, l.i); assert l.i in SubOf(sub, l); }
    if r.Ref? { ListAt(nodes, root, sub, r.i); assert r.i in SubOf(sub, r); }
  }

  /** The parent of `x` is live and holds `x` in exactly one of its slots; a parentless `x` is the root. */
  lemma SpliceParent(nodes: seq<Node>, root: Ptr, sub: Subs, x: nat)
    requires Wf(nodes, root, sub) && x in sub
    ensures x < |nodes|
    ensures var p := nodes[x].parent;
      (p.Null? ==> root == Ref(x)) &&
      (p.Ref? ==> p.i in sub && p.i < |nodes| && p.i != x && (nodes[p.i].left == Ref(x) <==> nodes[p.i].right != Ref(x)))
  {
    Links(nodes, root, sub, x);
    var p := nodes[x].parent;
    if p.Ref? {
      ChildrenDiffer(nodes, root, sub, p.i);
    }
  }

  /** The only child of `x` is live, points back to `x`, and does not list `x`; `x`'s list less `x` is its list. */
  lemma SpliceChild(nodes: seq<Node>, root: Ptr, sub: Subs, x: nat, c: Ptr)
    requires Wf(nodes, root, sub) && x in sub && x < |nodes| && OnlyChild(nodes, x, c)
    ensures c.Ref? ==> c.i in sub && c.i < |nodes| && c.i != x && nodes[c.i].parent == Ref(x) && x !in sub[c.i]
    ensures Subst(sub[x], x, []) == SubOf(sub, c)
  {
    Local(nodes, root, sub, x);
    if c.Ref? {
      Local(nodes, root, sub, c.i);
    }
    var L, R := SubOf(sub, nodes[x].left), SubOf(sub, nodes[x].right);
    DropMiddle(L, x, R);
  }

  /**
   * `nodes'` is `nodes` with `x` spliced out: its parent's slot holds `c`,
   * `c` points back to that parent, and every other node is unchanged.
   */
  ghost predicate Spliced(nodes: seq<Node>, nodes': seq<Node>, x: nat, c: Ptr)
    requires x < |nodes|
  {
    var p := nodes[x].parent;
    |nodes'| == |nodes| &&
    (p.Ref? ==> p.i < |nodes| && nodes'[p.i] == WithChild(nodes[p.i], nodes[p.i].left == Ref(x), c)) &&
    (c.Ref? ==> c.i < |nodes| && p != c && nodes'[c.i] == nodes[c.i].(parent := p)) &&
    (forall j :: 0 <= j < |nodes| && Ref(j) != p && Ref(j) != c ==> nodes'[j] == nodes[j])
  }

  /** moveChild(parent of `x`, `x`, `c`) splices `x` out. */
  lemma SpliceNodes(nodes: seq<Node>, root: Ptr, sub: Subs, x: nat, c: Ptr)
    requires Wf(nodes, root, sub) && x in sub && x < |nodes| && OnlyChild(nodes, x, c)
    ensures Spliced(nodes, MovedNodes(nodes, nodes[x].parent, x, c), x, c)
  {
    SpliceParent(nodes, root, sub, x);
    SpliceChild(nodes, root, sub, x, c);
    var p := nodes[x].parent;
    if c.Ref? && p.Ref? {
      ParentLonger(nodes, root, sub, x);
      ParentLonger(nodes, root, sub, c.i);
    }
  }

  /**
   * A child of a live node other than `x` has as its new list its old one
   * without `x`, once `x` is spliced out and its child takes its slot.
   */
  lemma SpliceChildList(nodes: seq<Node>, root: Ptr, sub: Subs, x: nat, c: Ptr, nodes': seq<Node>, i: nat, left: bool)
    requires Wf(nodes, root, sub) && x in sub && x < |nodes| && OnlyChild(nodes, x, c)
    requires Spliced(nodes, nodes', x, c)
    requires i in sub && i != x
    ensures i < |nodes'| &&
      SubOf(SubstSubs(sub, x, []), Child(nodes'[i], left)) == Subst(SubOf(sub, Child(nodes[i], left)), x, [])
  {
    SpliceParent(nodes, root, sub, x);
    SpliceChild(nodes, root, sub, x, c);
    Links(nodes, root, sub, i);
    var p := nodes[x].parent;
    var k := Child(nodes[i], left);
    if k == Ref(x) {
      assert p == Ref(i);
      assert Child(nodes'[i], left) == c;
      if c.Ref? {
        SubstAbsent(sub[c.i], x, []);
      }
    } else {
      assert Child(nodes'[i], left) == k;
      if k.Null? {
        assert Subst([], x, []) == [];
      } else {
        Links(nodes, root, sub, k.i);
      }
    }
  }

  /** After the splice, every live node other than `x` keeps a well-formed list. */
  lemma SpliceShapeAt(nodes: seq<Node>, root: Ptr, sub: Subs, x: nat, c: Ptr, nodes': seq<Node>, i: nat)
    requires Wf(nodes, root, sub) && x in sub && x < |nodes| && OnlyChild(nodes, x, c)
    requires Spliced(nodes, nodes', x, c)
    requires i in sub && i != x
    ensures var sub' := SubstSubs(sub, x, []);
      i < |nodes'| && i in sub' && ShapeOk(nodes', sub', i)
  {
    Shape(nodes, root, sub, i);
    var sub' := SubstSubs(sub, x, []);
    assert forall j :: DataAt(nodes', j) == DataAt(nodes, j);
    assert nodes'[i].blackHeight == nodes[i].blackHeight;
    SpliceChildList(nodes, root, sub, x, c, nodes', i, true);
    SpliceChildList(nodes, root, sub, x, c, nodes', i, false);
    var L, R := SubOf(sub, nodes[i].left), SubOf(sub, nodes[i].right);
    var L', R' := SubOf(sub', nodes'[i].left), SubOf(sub', nodes'[i].right);
    SubstAround(L, i, R, x, []);
    assert sub'[i] == L' + [i] + R';
    SubstMembers(L, x, []);
    SubstMembers(R, x, []);
    assert forall j :: j in L' ==> Ordered(nodes', j, i) by {
      forall j | j in L' ensures Ordered(nodes', j, i) { assert j in L && Ordered(nodes, j, i); }
    }
    assert forall j :: j in R' ==> Ordered(nodes', i, j) by {
      forall j | j in R' ensures Ordered(nodes', i, j) { assert j in R && Ordered(nodes, i, j); }
    }
  }

  /** After the splice, a child link of a live node other than `x` is consistent. */
  lemma SpliceChildLinkAt(nodes: seq<Node>, root: Ptr, sub: Subs, x: nat, c: Ptr, nodes': seq<Node>, i: nat, left: bool)
    requires Wf(nodes, root, sub) && x in sub && x < |nodes| && OnlyChild(nodes, x, c)
    requires Spliced(nodes, nodes', x, c)
    requires i in sub && i != x
    ensures i < |nodes'| && ChildLinkOk(nodes', SubstSubs(sub, x, []), i, Child(nodes'[i], left))
  {
    SpliceParent(nodes, root, sub, x);
    SpliceChild(nodes, root, sub, x, c);
    Links(nodes, root, sub, i);
    var p := nodes[x].parent;
    var k := Child(nodes[i], left);
    if k == Ref(x) {
      assert p == Ref(i) && Child(nodes'[i], left) == c;
    } else if k.Ref? {
      Links(nodes, root, sub, k.i);
      assert Child(nodes'[i], left) == k;
      assert k != c;
    }
  }

  /** After the splice, the parent link of a live node other than `x` is consistent. */
  lemma SpliceParentLinkAt(nodes: seq<Node>, root: Ptr, sub: Subs, x: nat, c: Ptr, nodes': seq<Node>, i: nat)
    requires Wf(nodes, root, sub) && x in sub && x < |nodes| && OnlyChild(nodes, x, c)
    requires Spliced(nodes, nodes', x, c)
    requires i in sub && i != x
    ensures i < |nodes'| && ParentLinkOk(nodes', MovedRoot(root, nodes[x].parent, c), SubstSubs(sub, x, []), i)
  {
    SpliceParent(nodes, root, sub, x);
    SpliceChild(nodes, root, sub, x, c);
    Links(nodes, root, sub, i);
    var p := nodes[x].parent;
    var q := nodes[i].parent;
    if Ref(i) != c {
      assert nodes'[i].parent == q;
      if q.Ref? {
        Links(nodes, root, sub, q.i);
        assert q.i != x;
        if q == p {
          assert nodes[q.i].left == Ref(i) || nodes[q.i].right == Ref(i);
        }
      } else {
        assert root == Ref(i) && p.Ref?;
      }
    }
  }

  /** The root after the splice is null exactly when `x` was the whole tree. */
  lemma SpliceRootLive(nodes: seq<Node>, root: Ptr, sub: Subs, x: nat, c: Ptr, nodes': seq<Node>)
    requires Wf(nodes, root, sub) && x in sub && x < |nodes| && OnlyChild(nodes, x, c)
    requires Spliced(nodes, nodes', x, c)
    ensures var root', sub' := MovedRoot(root, nodes[x].parent, c), SubstSubs(sub, x, []);
      (root'.Null? ==> sub' == map[]) &&
      (root'.Ref? ==> root'.i < |nodes'| && root'.i in sub' && nodes'[root'.i].parent == Null)
  {
    SpliceParent(nodes, root, sub, x);
    SpliceChild(nodes, root, sub, x, c);
    var p := nodes[x].parent;
    if p.Null? {
      if c.Null? {
        OrderIsLive(nodes, root, sub);
        ListAt(nodes, root, sub, x);
        assert sub.Keys == {x} by {
          forall j | j in sub ensures j == x { assert j in Order(root, sub); }
        }
      }
    } else {
      Links(nodes, root, sub, root.i);
      assert root.i != x && Ref(root.i) != c;
    }
  }

  /** The in-order list after the splice is the old one without `x`. */
  lemma SpliceOrder(nodes: seq<Node>, root: Ptr, sub: Subs, x: nat, c: Ptr)
    requires Wf(nodes, root, sub) && x in sub && x < |nodes| && OnlyChild(nodes, x, c)
    ensures Order(MovedRoot(root, nodes[x].parent, c), SubstSubs(sub, x, [])) == Subst(Order(root, sub), x, [])
  {
    SpliceParent(nodes, root, sub, x);
    SpliceChild(nodes, root, sub, x, c);
    var p := nodes[x].parent;
    if p.Null? {
      assert Order(root, sub) == sub[x];
      if c.Ref? {
        SubstAbsent(sub[c.i], x, []);
      }
    } else {
      Links(nodes, root, sub, root.i);
      assert root.i != x;
    }
  }

  /** Splicing out `x` keeps the tree well formed. */
  lemma SpliceWfGen(nodes: seq<Node>, root: Ptr, sub: Subs, x: nat, c: Ptr, nodes': seq<Node>)
    requires Wf(nodes, root, sub) && x in sub && x < |nodes| && OnlyChild(nodes, x, c)
    requires Spliced(nodes, nodes', x, c)
    ensures Wf(nodes', MovedRoot(root, nodes[x].parent, c), SubstSubs(sub, x, []))
  {
    var root', sub' := MovedRoot(root, nodes[x].parent, c), SubstSubs(sub, x, []);
    forall i | i in sub' ensures LocalOk(nodes', root', sub', i) {
      SpliceShapeAt(nodes, root, sub, x, c, nodes', i);
      SpliceChildLinkAt(nodes, root, sub, x, c, nodes', i, true);
      SpliceChildLinkAt(nodes, root, sub, x, c, nodes', i, false);
      SpliceParentLinkAt(nodes, root, sub, x, c, nodes', i);
    }
    SpliceRootLive(nodes, root, sub, x, c, nodes');
  }

  /** Splicing out `x` keeps the tree well formed; its in-order list loses `x` and nothing else. */
  lemma SpliceWf(nodes: seq<Node>, root: Ptr, sub: Subs, x: nat, c: Ptr)
    requires Wf(nodes, root, sub) && x in sub && x < |nodes| && OnlyChild(nodes, x, c)
    ensures var p := nodes[x].parent;
      var nodes', root', sub' := MovedNodes(nodes, p, x, c), MovedRoot(root, p, c), SubstSubs(sub, x, []);
      Wf(nodes', root', sub') && sub'.Keys == sub.Keys - {x} &&
      Order(root', sub') == Subst(Order(root, sub), x, [])
  {
    SpliceNodes(nodes, root, sub, x, c);
    SpliceWfGen(nodes, root, sub, x, c, MovedNodes(nodes, nodes[x].parent, x, c));
    SpliceOrder(nodes, root, sub, x, c);
  }

  /** The node `new Node<>(null)` with its colour set to black: the placeholder of `remove`. */
  const Placeholder := Node(None, Null, Null, Null, BLACK)

  /** `x` is live and has no children. */
  ghost predicate IsLeaf(nodes: seq<Node>, sub: Subs, x: nat) {
    x in sub && x < |nodes| && nodes[x].left.Null? && nodes[x].right.Null?
  }

  /** The lists after the leaf `x` gives way to the placeholder at index `n`. */
  ghost function PlacedSubs(sub: Subs, x: nat, n: nat): Subs {
    SubstSubs(sub, x, [n])[n := [n]]
  }

  /**
   * `nodes'` is `nodes` with the placeholder appended at index `n` in the
   * place of the leaf `x`: the parent's slot holds `n`, the placeholder
   * points back to it, and every other node is unchanged.
   */
  ghost predicate Placed(nodes: seq<Node>, nodes': seq<Node>, x: nat, n: nat)
    requires x < |nodes|
  {
    var p := nodes[x].parent;
    n == |nodes| && |nodes'| == n + 1 && nodes'[n] == Placeholder.(parent := p) &&
    (p.Ref? ==> p.i < |nodes| && nodes'[p.i] == WithChild(nodes[p.i], nodes[p.i].left == Ref(x), Ref(n))) &&
    (forall j :: 0 <= j < |nodes| && Ref(j) != p ==> nodes'[j] == nodes[j])
  }

  /** Every index in the list of a live node is a live index of the arena. */
  lemma ListLive(nodes: seq<Node>, root: Ptr, sub: Subs, i: nat)
    requires Wf(nodes, root, sub) && i in sub
    ensures forall j :: j in sub[i] ==> j in sub && j < |nodes|
  {
    SubClosed(nodes, root, sub, i);
    forall j | j in sub[i] ensures j < |nodes| { Links(nodes, root, sub, j); }
  }

  /** moveChild(parent of `x`, `x`, placeholder) puts the placeholder in the place of the leaf `x`. */
  lemma PlaceNodes(nodes: seq<Node>, root: Ptr, sub: Subs, x: nat)
    requires Wf(nodes, root, sub) && IsLeaf(nodes, sub, x)
    ensures Placed(nodes, MovedNodes(nodes + [Placeholder], nodes[x].parent, x, Ref(|nodes|)), x, |nodes|)
  {
    SpliceParent(nodes, root, sub, x);
  }

  /** A child of a live node other than `x` has as its new list its old one with `x` replaced by the placeholder. */
  lemma PlaceChildList(nodes: seq<Node>, root: Ptr, sub: Subs, x: nat, n: nat, nodes': seq<Node>, i: nat, left: bool)
    requires Wf(nodes, root, sub) && IsLeaf(nodes, sub, x) && Placed(nodes, nodes', x, n)
    requires i in sub && i != x
    ensures i < |nodes| &&
      SubOf(PlacedSubs(sub, x, n), Child(nodes'[i], left)) == Subst(SubOf(sub, Child(nodes[i], left)), x, [n])
  {
    SpliceParent(nodes, root, sub, x);
    Links(nodes, root, sub, i);
    var p := nodes[x].parent;
    var k := Child(nodes[i], left);
    if k == Ref(x) {
      assert p == Ref(i);
      assert Child(nodes'[i], left) == Ref(n);
      ListAt(nodes, root, sub, x);
      assert sub[x] == [x];
      assert Subst([x], x, [n]) == [n] + Subst([], x, [n]);
    } else {
      assert Child(nodes'[i], left) == k;
      if k.Null? {
        assert Subst([], x, [n]) == [];
      } else {
        Links(nodes, root, sub, k.i);
      }
    }
  }

  /** Replacing `x` by a new index `n` in two disjoint lists keeps them disjoint and free of `i`. */
  lemma PlaceMembers(L: seq<nat>, R: seq<nat>, x: nat, n: nat, i: nat)
    requires i != x && i != n && n !in L && n !in R && i !in L && i !in R
    requires forall j :: j in L ==> j !in R
    ensures var L', R' := Subst(L, x, [n]), Subst(R, x, [n]);
      i !in L' && i !in R' && (forall j :: j in L' ==> j !in R') &&
      (forall j :: j in L' && j != n ==> j in L) && (forall j :: j in R' && j != n ==> j in R)
  {
    SubstMembers(L, x, [n]);
    SubstMembers(R, x, [n]);
  }

  /** After the placement, every live node other than `x` keeps a well-formed list. */
  lemma PlaceShapeAt(nodes: seq<Node>, root: Ptr, sub: Subs, x: nat, n: nat, nodes': seq<Node>, i: nat)
    requires Wf(nodes, root, sub) && IsLeaf(nodes, sub, x) && Placed(nodes, nodes', x, n)
    requires i in sub && i != x
    ensures var sub' := PlacedSubs(sub, x, n);
      i < |nodes'| && i in sub' && ShapeOk(nodes', sub', i)
  {
    Shape(nodes, root, sub, i);
    ListLive(nodes, root, sub, i);
    var sub' := PlacedSubs(sub, x, n);
    PlaceChildList(nodes, root, sub, x, n, nodes', i, true);
    PlaceChildList(nodes, root, sub, x, n, nodes', i, false);
    var L, R := SubOf(sub, nodes[i].left), SubOf(sub, nodes[i].right);
    var L', R' := SubOf(sub', nodes'[i].left), SubOf(sub', nodes'[i].right);
    assert n !in L && n !in R by {
      assert forall j :: j in L ==> j in sub[i];
      assert forall j :: j in R ==> j in sub[i];
    }
    PlaceMembers(L, R, x, n, i);
    SubstAround(L, i, R, x, [n]);
    assert sub'[i] == L' + [i] + R';
    assert nodes'[i].blackHeight == nodes[i].blackHeight;
    assert DataAt(nodes', i) == DataAt(nodes, i);
    assert forall j :: j in L' ==> Ordered(nodes', j, i) by {
      forall j | j in L' ensures Ordered(nodes', j, i) {
        if j != n { assert DataAt(nodes', j) == DataAt(nodes, j) && Ordered(nodes, j, i); }
      }
    }
    assert forall j :: j in R' ==> Ordered(nodes', i, j) by {
      forall j | j in R' ensures Ordered(nodes', i, j) {
        if j != n { assert DataAt(nodes', j) == DataAt(nodes, j) && Ordered(nodes, i, j); }
      }
    }
  }

  /** After the placement, a child link of a live node other than `x` is consistent. */
  lemma PlaceChildLinkAt(nodes: seq<Node>, root: Ptr, sub: Subs, x: nat, n: nat, nodes': seq<Node>, i: nat, left: bool)
    requires Wf(nodes, root, sub) && IsLeaf(nodes, sub, x) && Placed(nodes, nodes', x, n)
    requires i in sub && i != x
    ensures i < |nodes'| && ChildLinkOk(nodes', PlacedSubs(sub, x, n), i, Child(nodes'[i], left))
  {
    SpliceParent(nodes, root, sub, x);
    Links(nodes, root, sub, i);
    var k := Child(nodes[i], left);
    if k == Ref(x) {
      assert nodes[x].parent == Ref(i) && Child(nodes'[i], left) == Ref(n);
    } else if k.Ref? {
      Links(nodes, root, sub, k.i);
      assert Child(nodes'[i], left) == k;
    }
  }

  /** After the placement, the parent link of a live node other than `x` is consistent. */
  lemma PlaceParentLinkAt(nodes: seq<Node>, root: Ptr, sub: Subs, x: nat, n: nat, nodes': seq<Node>, i: nat)
    requires Wf(nodes, root, sub) && IsLeaf(nodes, sub, x) && Placed(nodes, nodes', x, n)
    requires i in sub && i != x
    ensures i < |nodes'| && ParentLinkOk(nodes', MovedRoot(root, nodes[x].parent, Ref(n)), PlacedSubs(sub, x, n), i)
  {
    SpliceParent(nodes, root, sub, x);
    Links(nodes, root, sub, i);
    var p := nodes[x].parent;
    var q := nodes[i].parent;
    assert nodes'[i].parent == q;
    if q.Ref? {
      Links(nodes, root, sub, q.i);
      assert q.i != x;
      if q == p {
        assert nodes[q.i].left == Ref(i) || nodes[q.i].right == Ref(i);
      }
    } else {
      assert root == Ref(i) && p.Ref?;
    }
  }

  /** The placeholder itself is a well-formed leaf under `x`'s parent. */
  lemma PlaceAtNew(nodes: seq<Node>, root: Ptr, sub: Subs, x: nat, n: nat, nodes': seq<Node>)
    requires Wf(nodes, root, sub) && IsLeaf(nodes, sub, x) && Placed(nodes, nodes', x, n)
    ensures LocalOk(nodes', MovedRoot(root, nodes[x].parent, Ref(n)), PlacedSubs(sub, x, n), n)
  {
    SpliceParent(nodes, root, sub, x);
    var p := nodes[x].parent;
    if p.Ref? {
      assert p.i != n;
    }
  }

  /** The root after the placement is the placeholder when `x` was the root, the old root otherwise. */
  lemma PlaceRoot(nodes: seq<Node>, root: Ptr, sub: Subs, x: nat, n: nat, nodes': seq<Node>)
    requires Wf(nodes, root, sub) && IsLeaf(nodes, sub, x) && Placed(nodes, nodes', x, n)
    ensures var root', sub' := MovedRoot(root, nodes[x].parent, Ref(n)), PlacedSubs(sub, x, n);
      root'.Ref? && root'.i < |nodes'| && root'.i in sub' && nodes'[root'.i].parent == Null &&
      Order(root', sub') == Subst(Order(root, sub), x, [n])
  {
    SpliceParent(nodes, root, sub, x);
    ListAt(nodes, root, sub, x);
    var p := nodes[x].parent;
    if p.Null? {
      assert Order(root, sub) == [x];
      assert Subst([x], x, [n]) == [n] + Subst([], x, [n]);
    } else {
      Links(nodes, root, sub, root.i);
      assert root.i != x && root.i != n;
    }
  }

  /**
   * Putting the placeholder in the place of the leaf `x` keeps the tree
   * well formed; in the in-order list the placeholder takes `x`'s place.
   */
  lemma PlaceWf(nodes: seq<Node>, root: Ptr, sub: Subs, x: nat)
    requires Wf(nodes, root, sub) && IsLeaf(nodes, sub, x)
    ensures var p, n := nodes[x].parent, |nodes|;
      var nodes', root', sub' := MovedNodes(nodes + [Placeholder], p, x, Ref(n)), MovedRoot(root, p, Ref(n)), PlacedSubs(sub, x, n);
      Wf(nodes', root', sub') && sub'.Keys == sub.Keys - {x} + {n} && sub'[n] == [n] &&
      Order(root', sub') == Subst(Order(root, sub), x, [n])
  {
    var p, n := nodes[x].parent, |nodes|;
    var nodes', root', sub' := MovedNodes(nodes + [Placeholder], p, x, Ref(n)), MovedRoot(root, p, Ref(n)), PlacedSubs(sub, x, n);
    PlaceNodes(nodes, root, sub, x);
    forall i | i in sub' ensures LocalOk(nodes', root', sub', i) {
      if i == n {
        PlaceAtNew(nodes, root, sub, x, n, nodes');
      } else {
        PlaceShapeAt(nodes, root, sub, x, n, nodes', i);
        PlaceChildLinkAt(nodes, root, sub, x, n, nodes', i, true);
        PlaceChildLinkAt(nodes, root, sub, x, n, nodes', i, false);
        PlaceParentLinkAt(nodes, root, sub, x, n, nodes', i);
      }
    }
    PlaceRoot(nodes, root, sub, x, n, nodes');
  }
}
