/**
 * The node graph of the red-black tree, as an arena: every node lives at an
 * index of a sequence, and its parent and children are indices (or null).
 *
 * A node is live when the ghost map `sub` has an entry for it; that entry is
 * the in-order list of the indices in the node's subtree. Well-formedness is
 * stated node by node (LocalOk), so that a rotation or a recolouring only
 * has to be checked at the few nodes it touches.
 */
module Arena {
  import opened Outcomes
  import opened Songs

  /** A node reference: `Null` is Java's null. */
  datatype Ptr = Null | Ref(i: nat)

  /**
   * RedBlackTree.Node: the element (null only in the placeholder node that
   * `remove` links in for a deleted black leaf), the three links and the
   * colour, where blackHeight 0 is red and 1 is black.
   */
  datatype Node = Node(data: Option<Song>, parent: Ptr, left: Ptr, right: Ptr, blackHeight: int)

  type Subs = map<nat, seq<nat>>

  const RED := 0
  const BLACK := 1

  /** The child of `n` on the left side (`left`) or the right side (`!left`). */
  function Child(n: Node, left: bool): Ptr {
    if left then n.left else n.right
  }

  /** `n` with the child on the given side replaced. */
  function WithChild(n: Node, left: bool, c: Ptr): (r: Node)
    ensures Child(r, left) == c && Child(r, !left) == Child(n, !left)
    ensures r.data == n.data && r.parent == n.parent && r.blackHeight == n.blackHeight
  {
    if left then n.(left := c) else n.(right := c)
  }

  /** The in-order index list of the subtree at `p` (empty for null). */
  ghost function SubOf(sub: Subs, p: Ptr): seq<nat> {
    if p.Ref? && p.i in sub then sub[p.i] else []
  }

  /** The in-order index list of the whole tree. */
  ghost function Order(root: Ptr, sub: Subs): seq<nat> {
    SubOf(sub, root)
  }

  /** The in-order list of node `i` computed from its links and its children's lists. */
  ghost function InOrderAt(nodes: seq<Node>, sub: Subs, i: nat): seq<nat>
    requires i < |nodes|
  {
    SubOf(sub, nodes[i].left) + [i] + SubOf(sub, nodes[i].right)
  }

  /** The element stored at index `j`, or null. */
  function DataAt(nodes: seq<Node>, j: nat): Option<Song> {
    if j < |nodes| then nodes[j].data else None
  }

  /** The elements at `j` and `i`, when both are present, are in strictly ascending order. */
  ghost predicate Ordered(nodes: seq<Node>, j: nat, i: nat) {
    DataAt(nodes, j).Some? && DataAt(nodes, i).Some? ==>
      Before(DataAt(nodes, j).value, DataAt(nodes, i).value)
  }

  /** `c` is null or a live node whose parent link points back to `i`. */
  ghost predicate ChildLinkOk(nodes: seq<Node>, sub: Subs, i: nat, c: Ptr) {
    c.Ref? ==> c.i < |nodes| && c.i in sub && nodes[c.i].parent == Ref(i)
  }

  /** The parent of `i` is live and has `i` as one of its children; a parentless node is the root. */
  ghost predicate ParentLinkOk(nodes: seq<Node>, root: Ptr, sub: Subs, i: nat)
    requires i < |nodes|
  {
    var p := nodes[i].parent;
    (p.Null? ==> root == Ref(i)) &&
    (p.Ref? ==> p.i < |nodes| && p.i in sub && (nodes[p.i].left == Ref(i) || nodes[p.i].right == Ref(i)))
  }

  /** The links of node `i` agree with those of its parent and children. */
  ghost predicate LinksOk(nodes: seq<Node>, root: Ptr, sub: Subs, i: nat)
    requires i < |nodes|
  {
    ChildLinkOk(nodes, sub, i, nodes[i].left) && ChildLinkOk(nodes, sub, i, nodes[i].right) &&
    ParentLinkOk(nodes, root, sub, i)
  }

  /**
   * The list of `i` is its left list, itself and its right list, with no
   * index twice; its colour is red or black; and the elements of its left
   * (right) subtree come before (after) its own.
   */
  ghost predicate ShapeOk(nodes: seq<Node>, sub: Subs, i: nat)
    requires i < |nodes| && i in sub
  {
    var n := nodes[i];
    var L := SubOf(sub, n.left);
    var R := SubOf(sub, n.right);
    sub[i] == L + [i] + R &&
    i !in L && i !in R && (forall j :: j in L ==> j !in R) &&
    (n.blackHeight == RED || n.blackHeight == BLACK) &&
    (forall j :: j in L ==> Ordered(nodes, j, i)) &&
    (forall j :: j in R ==> Ordered(nodes, i, j))
  }

  /** Everything the tree requires of one live node. */
  ghost predicate LocalOk(nodes: seq<Node>, root: Ptr, sub: Subs, i: nat) {
    i < |nodes| && i in sub && LinksOk(nodes, root, sub, i) && ShapeOk(nodes, sub, i)
  }

  /** ShapeOk only looks at the node's colour, element and child lists, and at the elements. */
  lemma ShapeFrame(nodes: seq<Node>, sub: Subs, nodes': seq<Node>, sub': Subs, i: nat)
    requires i < |nodes| && i in sub && ShapeOk(nodes, sub, i)
    requires i < |nodes'| && i in sub' && sub'[i] == sub[i]
    requires nodes'[i].blackHeight == nodes[i].blackHeight
    requires SubOf(sub', nodes'[i].left) == SubOf(sub, nodes[i].left)
    requires SubOf(sub', nodes'[i].right) == SubOf(sub, nodes[i].right)
    requires forall j :: j in sub[i] ==> DataAt(nodes', j) == DataAt(nodes, j)
    ensures ShapeOk(nodes', sub', i)
  {
    var L, R := SubOf(sub, nodes[i].left), SubOf(sub, nodes[i].right);
    assert i in sub[i];
    assert forall j :: j in L ==> Ordered(nodes', j, i) == Ordered(nodes, j, i);
    assert forall j :: j in R ==> Ordered(nodes', i, j) == Ordered(nodes, i, j);
  }

  /** The arena, the root and the ghost lists form a binary search tree with parent links. */
  ghost predicate Wf(nodes: seq<Node>, root: Ptr, sub: Subs) {
    (root.Null? ==> sub == map[]) &&
    (root.Ref? ==> root.i < |nodes| && root.i in sub && nodes[root.i].parent == Null) &&
    forall i {:trigger LocalOk(nodes, root, sub, i)} :: i in sub ==> LocalOk(nodes, root, sub, i)
  }

  /** The local conditions of one live node, taken from Wf. */
  lemma Local(nodes: seq<Node>, root: Ptr, sub: Subs, i: nat)
    requires Wf(nodes, root, sub) && i in sub
    ensures LocalOk(nodes, root, sub, i)
  {
  }

  /** The links of one live node, taken from Wf. */
  lemma Links(nodes: seq<Node>, root: Ptr, sub: Subs, i: nat)
    requires Wf(nodes, root, sub) && i in sub
    ensures i < |nodes| && LinksOk(nodes, root, sub, i)
  {
    Local(nodes, root, sub, i);
  }

  /** The list of one live node, taken from Wf. */
  lemma ListAt(nodes: seq<Node>, root: Ptr, sub: Subs, i: nat)
    requires Wf(nodes, root, sub) && i in sub
    ensures i < |nodes| && sub[i] == InOrderAt(nodes, sub, i) && i in sub[i]
  {
    Local(nodes, root, sub, i);
  }

  /** The shape conditions of one live node, taken from Wf. */
  lemma Shape(nodes: seq<Node>, root: Ptr, sub: Subs, i: nat)
    requires Wf(nodes, root, sub) && i in sub
    ensures i < |nodes| && ShapeOk(nodes, sub, i)
  {
    Local(nodes, root, sub, i);
  }

  /** No live node holds null: the placeholder of `remove` is absent. */
  ghost predicate NoNull(nodes: seq<Node>, sub: Subs) {
    forall i :: i in sub ==> DataAt(nodes, i).Some?
  }

  /** A sequence of elements in strictly ascending key order, wherever both entries are present. */
  ghost predicate Sorted(s: seq<Option<Song>>) {
    forall a, b :: 0 <= a < b < |s| && s[a].Some? && s[b].Some? ==> Before(s[a].value, s[b].value)
  }

  /** A sequence without repetitions. */
  ghost predicate Distinct(s: seq<nat>) {
    forall a, b :: 0 <= a < b < |s| ==> s[a] != s[b]
  }

  /** The elements of a sequence of indices. */
  ghost function DataSeq(nodes: seq<Node>, s: seq<nat>): (r: seq<Option<Song>>)
    ensures |r| == |s| && forall k :: 0 <= k < |s| ==> r[k] == DataAt(nodes, s[k])
  {
    if s == [] then [] else [DataAt(nodes, s[0])] + DataSeq(nodes, s[1..])
  }

  // ---------------------------------------------------------------------
  // Structural facts that follow from the local conditions
  // ---------------------------------------------------------------------

  /** Every index listed in a live node's subtree is live, and its own subtree is listed there too. */
  lemma {:induction false} SubClosed(nodes: seq<Node>, root: Ptr, sub: Subs, i: nat)
    requires Wf(nodes, root, sub) && i in sub
    ensures forall j :: j in sub[i] ==> j in sub && forall x :: x in sub[j] ==> x in sub[i]
    decreases |sub[i]|
  {
    Local(nodes, root, sub, i);
    var n := nodes[i];
    if n.left.Ref? { SubClosed(nodes, root, sub, n.left.i); }
    if n.right.Ref? { SubClosed(nodes, root, sub, n.right.i); }
  }

  /** A live node's list has no repetitions. */
  lemma {:induction false} SubDistinct(nodes: seq<Node>, root: Ptr, sub: Subs, i: nat)
    requires Wf(nodes, root, sub) && i in sub
    ensures Distinct(sub[i])
    decreases |sub[i]|
  {
    Local(nodes, root, sub, i);
    var n := nodes[i];
    var L, R := SubOf(sub, n.left), SubOf(sub, n.right);
    if n.left.Ref? { SubDistinct(nodes, root, sub, n.left.i); }
    if n.right.Ref? { SubDistinct(nodes, root, sub, n.right.i); }
    var s := sub[i];
    forall a, b | 0 <= a < b < |s| ensures s[a] != s[b] {
      if a < |L| && b > |L| {
        assert s[a] in L && s[b] == R[b - |L| - 1];
      } else if a < |L| && b == |L| {
        assert s[a] in L;
      } else if a == |L| {
        assert s[b] == R[b - |L| - 1];
      } else if a > |L| {
        assert s[a] == R[a - |L| - 1] && s[b] == R[b - |L| - 1];
      }
    }
  }

  /** A node listed below `i`, other than `i`, has its parent listed below `i` as well. */
  lemma {:induction false} ParentInSub(nodes: seq<Node>, root: Ptr, sub: Subs, i: nat, j: nat)
    requires Wf(nodes, root, sub) && i in sub && j in sub[i] && j != i
    ensures j < |nodes| && nodes[j].parent.Ref? && nodes[j].parent.i in sub[i]
    decreases |sub[i]|
  {
    Local(nodes, root, sub, i);
    var n := nodes[i];
    SubClosed(nodes, root, sub, i);
    if j in SubOf(sub, n.left) {
      if n.left != Ref(j) { ParentInSub(nodes, root, sub, n.left.i, j); }
    } else {
      assert j in SubOf(sub, n.right);
      if n.right != Ref(j) { ParentInSub(nodes, root, sub, n.right.i, j); }
    }
  }

  /** The list of a live node is at most as long as the number of live nodes. */
  lemma SubBounded(nodes: seq<Node>, root: Ptr, sub: Subs, i: nat)
    requires Wf(nodes, root, sub) && i in sub
    ensures |sub[i]| <= |sub.Keys|
  {
    SubClosed(nodes, root, sub, i);
    SubDistinct(nodes, root, sub, i);
    DistinctCard(sub[i]);
    assert ElemSet(sub[i]) <= sub.Keys;
    SubsetCard(ElemSet(sub[i]), sub.Keys);
  }

  lemma {:induction false} DistinctCard(s: seq<nat>)
    requires Distinct(s)
    ensures |ElemSet(s)| == |s|
  {
    if s != [] {
      var t := s[1..];
      assert Distinct(t) by {
        forall a, b | 0 <= a < b < |t| ensures t[a] != t[b] {
          assert t[a] == s[a + 1] && t[b] == s[b + 1];
        }
      }
      DistinctCard(t);
      var A := ElemSet(t);
      assert ElemSet(s) == A + {s[0]};
      assert s[0] !in A by {
        forall k | 0 <= k < |t| ensures t[k] != s[0] {
          assert t[k] == s[k + 1];
        }
      }
      assert |A + {s[0]}| == |A| + 1;
    }
  }

  /** The set of entries of a sequence. */
  ghost function ElemSet(s: seq<nat>): set<nat> {
    set j | j in s
  }

  lemma SubsetCard(a: set<nat>, b: set<nat>)
    requires a <= b
    ensures |a| <= |b|
  {
    if a != {} {
      var x :| x in a;
      SubsetCard(a - {x}, b - {x});
    }
  }

  /** Every live node is listed in the root's list: the live nodes are exactly the tree's nodes. */
  lemma {:induction false} LiveInOrder(nodes: seq<Node>, root: Ptr, sub: Subs, i: nat)
    requires Wf(nodes, root, sub) && i in sub
    ensures i in Order(root, sub)
    decreases |sub.Keys| - |sub[i]|
  {
    Local(nodes, root, sub, i);
    var p := nodes[i].parent;
    if p.Ref? {
      var q := p.i;
      Local(nodes, root, sub, q);
      assert sub[q] == InOrderAt(nodes, sub, q);
      assert i in sub[q];
      SubBounded(nodes, root, sub, q);
      LiveInOrder(nodes, root, sub, q);
      SubClosed(nodes, root, sub, root.i);
    }
  }

  /** The live nodes are the distinct entries of the root's list. */
  lemma OrderIsLive(nodes: seq<Node>, root: Ptr, sub: Subs)
    requires Wf(nodes, root, sub)
    ensures Distinct(Order(root, sub))
    ensures forall j :: j in sub <==> j in Order(root, sub)
    ensures |Order(root, sub)| == |sub.Keys|
  {
    if root.Ref? {
      SubDistinct(nodes, root, sub, root.i);
      SubClosed(nodes, root, sub, root.i);
      forall j | j in sub ensures j in Order(root, sub) {
        LiveInOrder(nodes, root, sub, j);
      }
      DistinctCard(Order(root, sub));
      assert ElemSet(Order(root, sub)) == sub.Keys;
    }
  }

  /** The elements of a live node's list are in strictly ascending order. */
  lemma {:induction false} SubSorted(nodes: seq<Node>, root: Ptr, sub: Subs, i: nat)
    requires Wf(nodes, root, sub) && NoNull(nodes, sub) && i in sub
    ensures forall a, b :: 0 <= a < b < |sub[i]| ==> Ordered(nodes, sub[i][a], sub[i][b])
    decreases |sub[i]|
  {
    Local(nodes, root, sub, i);
    var n := nodes[i];
    var L, R := SubOf(sub, n.left), SubOf(sub, n.right);
    SubClosed(nodes, root, sub, i);
    if n.left.Ref? { SubSorted(nodes, root, sub, n.left.i); }
    if n.right.Ref? { SubSorted(nodes, root, sub, n.right.i); }
    var s := sub[i];
    forall a, b | 0 <= a < b < |s| ensures Ordered(nodes, s[a], s[b]) {
      if a < |L| && b > |L| {
        assert s[a] in L && s[b] == R[b - |L| - 1];
        assert s[b] in R;
        BeforeIsStrictTotalOrder(DataAt(nodes, s[a]).value, DataAt(nodes, i).value, DataAt(nodes, s[b]).value);
      } else if a < |L| && b == |L| {
        assert s[a] in L;
      } else if a == |L| {
        assert s[b] == R[b - |L| - 1];
      } else if a > |L| {
        assert s[a] == R[a - |L| - 1] && s[b] == R[b - |L| - 1];
      }
    }
  }
}

module Rotations {
  import opened Outcomes
  import opened Songs
  import opened Arena

  /**
   * The arena `nodes'` (with root `root'`) is `nodes` after rotating the
   * child `c` of `p` (on the left side when `cIsLeft`) up into `p`'s place:
   * `c`'s inner child `b` moves over to `p`, and `p` becomes `c`'s child.
   */
  ghost predicate IsRotation(nodes: seq<Node>, root: Ptr, nodes': seq<Node>, root': Ptr, p: nat, c: nat, cIsLeft: bool)
    requires p < |nodes| && c < |nodes|
  {
    var b := Child(nodes[c], !cIsLeft);
    var g := nodes[p].parent;
    |nodes'| == |nodes| &&
    nodes'[c] == WithChild(nodes[c], !cIsLeft, Ref(p)).(parent := g) &&
    nodes'[p] == WithChild(nodes[p], cIsLeft, b).(parent := Ref(c)) &&
    (b.Ref? ==> b.i < |nodes| && nodes'[b.i] == nodes[b.i].(parent := Ref(p))) &&
    (g.Ref? ==> (g.i < |nodes| &&
      nodes'[g.i] == if nodes[g.i].left == Ref(p) then nodes[g.i].(left := Ref(c)) else nodes[g.i].(right := Ref(c)))) &&
    root' == (if g.Null? then Ref(c) else root) &&
    forall j :: 0 <= j < |nodes| && j != p && j != c && Ref(j) != b && Ref(j) != g ==> nodes'[j] == nodes[j]
  }

  /** The ghost lists after a rotation: only `p` and `c` get new ones. */
  ghost function RotatedSubs(nodes': seq<Node>, sub: Subs, p: nat, c: nat): Subs
    requires p < |nodes'| && c < |nodes'|
  {
    var sub1 := sub[p := InOrderAt(nodes', sub, p)];
    sub1[c := InOrderAt(nodes', sub1, c)]
  }

  /** Every slot keeps its element and its colour. */
  ghost predicate SameContents(nodes: seq<Node>, nodes': seq<Node>) {
    |nodes'| == |nodes| &&
    forall j :: 0 <= j < |nodes| ==> nodes'[j].data == nodes[j].data && nodes'[j].blackHeight == nodes[j].blackHeight
  }

  lemma RotationKeepsContents(nodes: seq<Node>, root: Ptr, nodes': seq<Node>, root': Ptr, p: nat, c: nat, cIsLeft: bool)
    requires p < |nodes| && c < |nodes| && IsRotation(nodes, root, nodes', root', p, c, cIsLeft)
    ensures SameContents(nodes, nodes')
    ensures forall j :: DataAt(nodes', j) == DataAt(nodes, j)
  {
  }

  /** A child's list is strictly shorter than its parent's. */
  lemma ChildShorter(nodes: seq<Node>, root: Ptr, sub: Subs, i: nat, left: bool)
    requires Wf(nodes, root, sub) && i in sub && i < |nodes| && Child(nodes[i], left).Ref?
    ensures var c := Child(nodes[i], left).i;
      c in sub && c < |nodes| && nodes[c].parent == Ref(i) && |sub[c]| < |sub[i]| && c in sub[c]
  {
    Local(nodes, root, sub, i);
    Local(nodes, root, sub, Child(nodes[i], left).i);
  }

  /** The parent of a live node is live, and its list is strictly longer. */
  lemma ParentLonger(nodes: seq<Node>, root: Ptr, sub: Subs, i: nat)
    requires Wf(nodes, root, sub) && i in sub
    ensures i < |nodes|
    ensures nodes[i].parent.Ref? ==>
      nodes[i].parent.i in sub && nodes[i].parent.i < |nodes| && |sub[i]| < |sub[nodes[i].parent.i]|
  {
    Links(nodes, root, sub, i);
    var p := nodes[i].parent;
    if p.Ref? {
      if nodes[p.i].left == Ref(i) {
        ChildShorter(nodes, root, sub, p.i, true);
      } else {
        ChildShorter(nodes, root, sub, p.i, false);
      }
    }
  }

  /** The nodes a rotation touches are pairwise distinct. */
  lemma RotationDistinct(nodes: seq<Node>, root: Ptr, sub: Subs, p: nat, c: nat, cIsLeft: bool)
    requires Wf(nodes, root, sub) && p in sub && p < |nodes|
    requires Child(nodes[p], cIsLeft) == Ref(c)
    ensures c in sub && c < |nodes| && c != p
    ensures var b, e, s, g := Child(nodes[c], !cIsLeft), Child(nodes[c], cIsLeft), Child(nodes[p], !cIsLeft), nodes[p].parent;
      (b.Ref? ==> b.i in sub && b.i != p && b.i != c) &&
      (e.Ref? ==> e.i in sub && e.i != p && e.i != c && e != b) &&
      (s.Ref? ==> s.i in sub && s.i != p && s.i != c && s != b && s != e) &&
      (g.Ref? ==> g.i in sub && g.i != p && g.i != c && g != b && g != e && g != s)
  {
    ChildShorter(nodes, root, sub, p, cIsLeft);
    Local(nodes, root, sub, p);
    Local(nodes, root, sub, c);
    var P, C := nodes[p], nodes[c];
    var b, e, s, g := Child(C, !cIsLeft), Child(C, cIsLeft), Child(P, !cIsLeft), P.parent;
    if b.Ref? { ChildShorter(nodes, root, sub, c, !cIsLeft); }
    if e.Ref? { ChildShorter(nodes, root, sub, c, cIsLeft); }
    if s.Ref? { ChildShorter(nodes, root, sub, p, !cIsLeft); }
    if g.Ref? {
      Local(nodes, root, sub, g.i);
      if nodes[g.i].left == Ref(p) {
        ChildShorter(nodes, root, sub, g.i, true);
      } else {
        ChildShorter(nodes, root, sub, g.i, false);
      }
    }
  }

  /** Regrouping four concatenated lists. */
  lemma Regroup<T>(x: seq<T>, y: seq<T>, z: seq<T>, w: seq<T>)
    ensures ((x + y) + z) + w == x + ((y + z) + w)
  {
  }

  /** The lists of `p` and `c` after the rotation, from the two lists before it. */
  lemma RotatedListsCore(nodes: seq<Node>, root: Ptr, sub: Subs, nodes': seq<Node>, root': Ptr, p: nat, c: nat, cIsLeft: bool)
    requires p < |nodes| && c < |nodes| && p in sub && c in sub && p != c
    requires Child(nodes[p], cIsLeft) == Ref(c)
    requires sub[p] == InOrderAt(nodes, sub, p) && sub[c] == InOrderAt(nodes, sub, c)
    requires IsRotation(nodes, root, nodes', root', p, c, cIsLeft)
    requires var b, e := Child(nodes[c], !cIsLeft), Child(nodes[c], cIsLeft);
      b != Ref(p) && b != Ref(c) && e != Ref(p) && e != Ref(c) && Child(nodes[p], !cIsLeft) != Ref(p)
    ensures var sub' := RotatedSubs(nodes', sub, p, c);
      var B, E, S := SubOf(sub, Child(nodes[c], !cIsLeft)), SubOf(sub, Child(nodes[c], cIsLeft)), SubOf(sub, Child(nodes[p], !cIsLeft));
      sub[c] == (if cIsLeft then E + [c] + B else B + [c] + E) &&
      sub[p] == (if cIsLeft then sub[c] + [p] + S else S + [p] + sub[c]) &&
      sub'[p] == (if cIsLeft then B + [p] + S else S + [p] + B) &&
      sub'[c] == sub[p] && sub'.Keys == sub.Keys &&
      (forall i :: i in sub && i != p && i != c ==> sub'[i] == sub[i])
  {
    var sub' := RotatedSubs(nodes', sub, p, c);
    var b, e, s := Child(nodes[c], !cIsLeft), Child(nodes[c], cIsLeft), Child(nodes[p], !cIsLeft);
    var B, E, S := SubOf(sub, b), SubOf(sub, e), SubOf(sub, s);
    if cIsLeft {
      assert nodes'[p].left == b && nodes'[p].right == s;
      assert nodes'[c].left == e && nodes'[c].right == Ref(p);
      assert sub'[p] == B + [p] + S;
      assert sub'[c] == (E + [c]) + ((B + [p]) + S);
      Regroup(E + [c], B, [p], S);
    } else {
      assert nodes'[p].left == s && nodes'[p].right == b;
      assert nodes'[c].left == Ref(p) && nodes'[c].right == e;
      assert sub'[p] == S + [p] + B;
      assert sub'[c] == (((S + [p]) + B) + [c]) + E;
      Regroup(S + [p], B, [c], E);
    }
  }

  /** The lists of `p` and `c` after the rotation, in terms of the three subtrees that move. */
  lemma RotationLists(nodes: seq<Node>, root: Ptr, sub: Subs, nodes': seq<Node>, root': Ptr, p: nat, c: nat, cIsLeft: bool)
    requires Wf(nodes, root, sub) && p in sub && p < |nodes| && c < |nodes|
    requires Child(nodes[p], cIsLeft) == Ref(c)
    requires IsRotation(nodes, root, nodes', root', p, c, cIsLeft)
    ensures c in sub
    ensures var sub' := RotatedSubs(nodes', sub, p, c);
      var B, E, S := SubOf(sub, Child(nodes[c], !cIsLeft)), SubOf(sub, Child(nodes[c], cIsLeft)), SubOf(sub, Child(nodes[p], !cIsLeft));
      sub[c] == (if cIsLeft then E + [c] + B else B + [c] + E) &&
      sub[p] == (if cIsLeft then sub[c] + [p] + S else S + [p] + sub[c]) &&
      sub'[p] == (if cIsLeft then B + [p] + S else S + [p] + B) &&
      sub'[c] == sub[p] && sub'.Keys == sub.Keys &&
      (forall i :: i in sub && i != p && i != c ==> sub'[i] == sub[i])
  {
    RotationDistinct(nodes, root, sub, p, c, cIsLeft);
    ListAt(nodes, root, sub, p);
    ListAt(nodes, root, sub, c);
    RotatedListsCore(nodes, root, sub, nodes', root', p, c, cIsLeft);
  }

  lemma RotationLinksAtP(nodes: seq<Node>, root: Ptr, sub: Subs, nodes': seq<Node>, root': Ptr, p: nat, c: nat, cIsLeft: bool)
    requires Wf(nodes, root, sub) && p in sub && p < |nodes| && c < |nodes|
    requires Child(nodes[p], cIsLeft) == Ref(c)
    requires IsRotation(nodes, root, nodes', root', p, c, cIsLeft)
    ensures LinksOk(nodes', root', RotatedSubs(nodes', sub, p, c), p)
  {
    Links(nodes, root, sub, p);
    RotationDistinct(nodes, root, sub, p, c, cIsLeft);
    Links(nodes, root, sub, c);
    assert RotatedSubs(nodes', sub, p, c).Keys == sub.Keys;
    var b, s := Child(nodes[c], !cIsLeft), Child(nodes[p], !cIsLeft);
    assert Child(nodes'[p], cIsLeft) == b && Child(nodes'[p], !cIsLeft) == s;
    if s.Ref? { assert nodes'[s.i] == nodes[s.i]; }
    if b.Ref? { assert nodes'[b.i].parent == Ref(p); }
    assert nodes'[p].parent == Ref(c) && Child(nodes'[c], !cIsLeft) == Ref(p);
  }

  lemma RotationShapeAtP(nodes: seq<Node>, root: Ptr, sub: Subs, nodes': seq<Node>, root': Ptr, p: nat, c: nat, cIsLeft: bool)
    requires Wf(nodes, root, sub) && p in sub && p < |nodes| && c < |nodes|
    requires Child(nodes[p], cIsLeft) == Ref(c)
    requires IsRotation(nodes, root, nodes', root', p, c, cIsLeft)
    ensures p in RotatedSubs(nodes', sub, p, c) && ShapeOk(nodes', RotatedSubs(nodes', sub, p, c), p)
  {
    var sub' := RotatedSubs(nodes', sub, p, c);
    Shape(nodes, root, sub, p);
    RotationDistinct(nodes, root, sub, p, c, cIsLeft);
    RotationLists(nodes, root, sub, nodes', root', p, c, cIsLeft);
    RotationKeepsContents(nodes, root, nodes', root', p, c, cIsLeft);
    var b, s := Child(nodes[c], !cIsLeft), Child(nodes[p], !cIsLeft);
    var S, B := SubOf(sub, s), SubOf(sub, b);
    assert forall j :: j in B ==> j in sub[c];
    assert SubOf(sub', b) == B && SubOf(sub', s) == S;
    assert Child(nodes'[p], cIsLeft) == b && Child(nodes'[p], !cIsLeft) == s;
    assert forall j :: Ordered(nodes', j, p) == Ordered(nodes, j, p);
    assert forall j :: Ordered(nodes', p, j) == Ordered(nodes, p, j);
  }

  lemma RotationAtP(nodes: seq<Node>, root: Ptr, sub: Subs, nodes': seq<Node>, root': Ptr, p: nat, c: nat, cIsLeft: bool)
    requires Wf(nodes, root, sub) && p in sub && p < |nodes| && c < |nodes|
    requires Child(nodes[p], cIsLeft) == Ref(c)
    requires IsRotation(nodes, root, nodes', root', p, c, cIsLeft)
    ensures LocalOk(nodes', root', RotatedSubs(nodes', sub, p, c), p)
  {
    RotationLinksAtP(nodes, root, sub, nodes', root', p, c, cIsLeft);
    RotationShapeAtP(nodes, root, sub, nodes', root', p, c, cIsLeft);
  }

  lemma RotationLinksAtC(nodes: seq<Node>, root: Ptr, sub: Subs, nodes': seq<Node>, root': Ptr, p: nat, c: nat, cIsLeft: bool)
    requires Wf(nodes, root, sub) && p in sub && p < |nodes| && c < |nodes|
    requires Child(nodes[p], cIsLeft) == Ref(c)
    requires IsRotation(nodes, root, nodes', root', p, c, cIsLeft)
    ensures LinksOk(nodes', root', RotatedSubs(nodes', sub, p, c), c)
  {
    Local(nodes, root, sub, p);
    Local(nodes, root, sub, c);
    RotationDistinct(nodes, root, sub, p, c, cIsLeft);
    RotationLists(nodes, root, sub, nodes', root', p, c, cIsLeft);
    var e, g := Child(nodes[c], cIsLeft), nodes[p].parent;
    if e.Ref? { Local(nodes, root, sub, e.i); }
    if g.Ref? { Local(nodes, root, sub, g.i); }
  }

  /**
   * The shape at a node `c` whose lists are `L` and `R`, from the list
   * facts and the order facts given one by one; `R` (or `L`) is the list
   * `p` heads after a rotation, so its far part is ordered through `p`.
   */
  lemma ShapeOfRotatedC(nodes: seq<Node>, nodes': seq<Node>, sub': Subs, p: nat, c: nat, cIsLeft: bool,
                        E: seq<nat>, B: seq<nat>, S: seq<nat>)
    requires c < |nodes'| && c in sub' && c != p
    requires forall j :: DataAt(nodes', j) == DataAt(nodes, j)
    requires nodes'[c].blackHeight == RED || nodes'[c].blackHeight == BLACK
    requires SubOf(sub', Child(nodes'[c], cIsLeft)) == E
    requires SubOf(sub', Child(nodes'[c], !cIsLeft)) == (if cIsLeft then B + [p] + S else S + [p] + B)
    requires sub'[c] == (if cIsLeft then E + [c] + (B + [p] + S) else (S + [p] + B) + [c] + E)
    requires c !in E && c !in B && c !in S
    requires forall j :: j in E ==> j !in B && j != p && j !in S
    requires DataAt(nodes, p).Some?
    requires if cIsLeft then Ordered(nodes, c, p) else Ordered(nodes, p, c)
    requires forall j :: j in E ==> if cIsLeft then Ordered(nodes, j, c) else Ordered(nodes, c, j)
    requires forall j :: j in B ==> if cIsLeft then Ordered(nodes, c, j) else Ordered(nodes, j, c)
    requires forall j :: j in S ==> if cIsLeft then Ordered(nodes, p, j) else Ordered(nodes, j, p)
    ensures ShapeOk(nodes', sub', c)
  {
    forall j | j in S ensures if cIsLeft then Ordered(nodes, c, j) else Ordered(nodes, j, c) {
      if DataAt(nodes, j).Some? && DataAt(nodes, c).Some? {
        if cIsLeft {
          BeforeIsStrictTotalOrder(DataAt(nodes, c).value, DataAt(nodes, p).value, DataAt(nodes, j).value);
        } else {
          BeforeIsStrictTotalOrder(DataAt(nodes, j).value, DataAt(nodes, p).value, DataAt(nodes, c).value);
        }
      }
    }
    assert forall j :: Ordered(nodes', j, c) == Ordered(nodes, j, c);
    assert forall j :: Ordered(nodes', c, j) == Ordered(nodes, c, j);
  }

  lemma RotationShapeAtC(nodes: seq<Node>, root: Ptr, sub: Subs, nodes': seq<Node>, root': Ptr, p: nat, c: nat, cIsLeft: bool)
    requires Wf(nodes, root, sub) && p in sub && p < |nodes| && c < |nodes|
    requires Child(nodes[p], cIsLeft) == Ref(c)
    requires nodes[p].data.Some?
    requires IsRotation(nodes, root, nodes', root', p, c, cIsLeft)
    ensures c in RotatedSubs(nodes', sub, p, c) && ShapeOk(nodes', RotatedSubs(nodes', sub, p, c), c)
  {
    var sub' := RotatedSubs(nodes', sub, p, c);
    Shape(nodes, root, sub, p);
    RotationDistinct(nodes, root, sub, p, c, cIsLeft);
    Shape(nodes, root, sub, c);
    RotationLists(nodes, root, sub, nodes', root', p, c, cIsLeft);
    RotationKeepsContents(nodes, root, nodes', root', p, c, cIsLeft);
    var P := nodes[p];
    var b, e, s := Child(nodes[c], !cIsLeft), Child(nodes[c], cIsLeft), Child(P, !cIsLeft);
    var S, B, E := SubOf(sub, s), SubOf(sub, b), SubOf(sub, e);
    assert SubOf(sub', e) == E;
    assert c in sub[c];
    assert forall j :: j in S ==> j !in sub[c];
    assert forall j :: j in E ==> j in sub[c];
    assert forall j :: j in B ==> j in sub[c];
    assert forall j :: j in E ==> j !in B;
    ShapeOfRotatedC(nodes, nodes', sub', p, c, cIsLeft, E, B, S);
  }

  lemma RotationAtC(nodes: seq<Node>, root: Ptr, sub: Subs, nodes': seq<Node>, root': Ptr, p: nat, c: nat, cIsLeft: bool)
    requires Wf(nodes, root, sub) && p in sub && p < |nodes| && c < |nodes|
    requires Child(nodes[p], cIsLeft) == Ref(c)
    requires nodes[p].data.Some?
    requires IsRotation(nodes, root, nodes', root', p, c, cIsLeft)
    ensures LocalOk(nodes', root', RotatedSubs(nodes', sub, p, c), c)
  {
    RotationLinksAtC(nodes, root, sub, nodes', root', p, c, cIsLeft);
    RotationShapeAtC(nodes, root, sub, nodes', root', p, c, cIsLeft);
  }

  lemma RotationChildLinksAtG(nodes: seq<Node>, root: Ptr, sub: Subs, nodes': seq<Node>, root': Ptr, p: nat, c: nat, cIsLeft: bool)
    requires Wf(nodes, root, sub) && p in sub && p < |nodes| && c < |nodes|
    requires Child(nodes[p], cIsLeft) == Ref(c)
    requires IsRotation(nodes, root, nodes', root', p, c, cIsLeft)
    requires nodes[p].parent.Ref?
    ensures var g := nodes[p].parent.i; var sub' := RotatedSubs(nodes', sub, p, c);
      g < |nodes'| && ChildLinkOk(nodes', sub', g, nodes'[g].left) && ChildLinkOk(nodes', sub', g, nodes'[g].right)
  {
    var g := nodes[p].parent.i;
    Links(nodes, root, sub, p);
    ListAt(nodes, root, sub, p);
    Shape(nodes, root, sub, g);
    Links(nodes, root, sub, g);
    RotationDistinct(nodes, root, sub, p, c, cIsLeft);
    assert RotatedSubs(nodes', sub, p, c).Keys == sub.Keys;
    var n := nodes[g];
    var b := Child(nodes[c], !cIsLeft);
    Links(nodes, root, sub, c);
    if b.Ref? { Links(nodes, root, sub, b.i); }
    assert p in sub[p];
    var xLeft := n.left != Ref(p);
    var x := Child(n, xLeft);
    if x.Ref? {
      ChildShorter(nodes, root, sub, g, xLeft);
      assert x.i != c && x.i != p && x != b && x.i != g;
      assert nodes'[x.i].parent == Ref(g);
    }
  }

  lemma RotationChildLinksElsewhere(nodes: seq<Node>, root: Ptr, sub: Subs, nodes': seq<Node>, root': Ptr, p: nat, c: nat, cIsLeft: bool, i: nat)
    requires Wf(nodes, root, sub) && p in sub && p < |nodes| && c < |nodes|
    requires Child(nodes[p], cIsLeft) == Ref(c)
    requires IsRotation(nodes, root, nodes', root', p, c, cIsLeft)
    requires i in sub && i != p && i != c
    ensures i < |nodes'|
    ensures var sub' := RotatedSubs(nodes', sub, p, c);
      ChildLinkOk(nodes', sub', i, nodes'[i].left) && ChildLinkOk(nodes', sub', i, nodes'[i].right)
  {
    if Ref(i) == nodes[p].parent {
      RotationChildLinksAtG(nodes, root, sub, nodes', root', p, c, cIsLeft);
    } else {
      Links(nodes, root, sub, p);
      Links(nodes, root, sub, i);
      RotationDistinct(nodes, root, sub, p, c, cIsLeft);
      assert RotatedSubs(nodes', sub, p, c).Keys == sub.Keys;
      var n := nodes[i];
      var b := Child(nodes[c], !cIsLeft);
      Links(nodes, root, sub, c);
      if b.Ref? { Links(nodes, root, sub, b.i); }
      assert nodes'[i].left == n.left && nodes'[i].right == n.right;
      if n.left.Ref? {
        ChildShorter(nodes, root, sub, i, true);
        assert n.left.i != p && n.left.i != c && n.left.i != i;
        assert nodes'[n.left.i].parent == Ref(i);
      }
      if n.right.Ref? {
        ChildShorter(nodes, root, sub, i, false);
        assert n.right.i != p && n.right.i != c && n.right.i != i;
        assert nodes'[n.right.i].parent == Ref(i);
      }
    }
  }

  lemma RotationParentLinkElsewhere(nodes: seq<Node>, root: Ptr, sub: Subs, nodes': seq<Node>, root': Ptr, p: nat, c: nat, cIsLeft: bool, i: nat)
    requires Wf(nodes, root, sub) && p in sub && p < |nodes| && c < |nodes|
    requires Child(nodes[p], cIsLeft) == Ref(c)
    requires IsRotation(nodes, root, nodes', root', p, c, cIsLeft)
    requires i in sub && i != p && i != c
    ensures i < |nodes'| && ParentLinkOk(nodes', root', RotatedSubs(nodes', sub, p, c), i)
  {
    Links(nodes, root, sub, p);
    Links(nodes, root, sub, c);
    Links(nodes, root, sub, i);
    RotationDistinct(nodes, root, sub, p, c, cIsLeft);
    assert RotatedSubs(nodes', sub, p, c).Keys == sub.Keys;
    var q := nodes[i].parent;
    var b, e, s, g := Child(nodes[c], !cIsLeft), Child(nodes[c], cIsLeft), Child(nodes[p], !cIsLeft), nodes[p].parent;
    if Ref(i) == b {
      assert nodes'[i].parent == Ref(p) && Child(nodes'[p], cIsLeft) == Ref(i);
    } else if q.Null? {
      assert g.Ref? && root' == root;
    } else {
      Links(nodes, root, sub, q.i);
      assert nodes'[i].parent == q;
      if q.i == p {
        assert Ref(i) == s && Child(nodes'[p], !cIsLeft) == s;
      } else if q.i == c {
        assert Ref(i) == e && Child(nodes'[c], cIsLeft) == e;
      } else if q == g {
        assert nodes'[q.i].left == Ref(i) || nodes'[q.i].right == Ref(i);
      } else {
        assert nodes'[q.i].left == nodes[q.i].left && nodes'[q.i].right == nodes[q.i].right;
      }
    }
  }

  lemma RotationLinksElsewhere(nodes: seq<Node>, root: Ptr, sub: Subs, nodes': seq<Node>, root': Ptr, p: nat, c: nat, cIsLeft: bool, i: nat)
    requires Wf(nodes, root, sub) && p in sub && p < |nodes| && c < |nodes|
    requires Child(nodes[p], cIsLeft) == Ref(c)
    requires IsRotation(nodes, root, nodes', root', p, c, cIsLeft)
    requires i in sub && i != p && i != c
    ensures i < |nodes'| && LinksOk(nodes', root', RotatedSubs(nodes', sub, p, c), i)
  {
    RotationChildLinksElsewhere(nodes, root, sub, nodes', root', p, c, cIsLeft, i);
    RotationParentLinkElsewhere(nodes, root, sub, nodes', root', p, c, cIsLeft, i);
  }

  lemma RotationShapeElsewhere(nodes: seq<Node>, root: Ptr, sub: Subs, nodes': seq<Node>, root': Ptr, p: nat, c: nat, cIsLeft: bool, i: nat)
    requires Wf(nodes, root, sub) && p in sub && p < |nodes| && c < |nodes|
    requires Child(nodes[p], cIsLeft) == Ref(c)
    requires IsRotation(nodes, root, nodes', root', p, c, cIsLeft)
    requires i in sub && i != p && i != c
    ensures i < |nodes'| && i in RotatedSubs(nodes', sub, p, c) && ShapeOk(nodes', RotatedSubs(nodes', sub, p, c), i)
  {
    var sub' := RotatedSubs(nodes', sub, p, c);
    Local(nodes, root, sub, p);
    Local(nodes, root, sub, i);
    RotationDistinct(nodes, root, sub, p, c, cIsLeft);
    RotationLists(nodes, root, sub, nodes', root', p, c, cIsLeft);
    RotationKeepsContents(nodes, root, nodes', root', p, c, cIsLeft);
    var n := nodes[i];
    if Ref(i) == nodes[p].parent {
      assert p in sub[p];
      if n.left == Ref(p) {
        assert n.right != Ref(p);
        if n.right.Ref? { Local(nodes, root, sub, n.right.i); assert n.right.i != c; }
      } else {
        assert n.right == Ref(p);
        if n.left.Ref? { Local(nodes, root, sub, n.left.i); assert n.left.i != c; }
      }
      assert SubOf(sub', nodes'[i].left) == SubOf(sub, n.left);
      assert SubOf(sub', nodes'[i].right) == SubOf(sub, n.right);
    } else {
      Local(nodes, root, sub, c);
      if n.left.Ref? { Local(nodes, root, sub, n.left.i); }
      if n.right.Ref? { Local(nodes, root, sub, n.right.i); }
      assert nodes'[i].left == n.left && nodes'[i].right == n.right;
      assert n.left.Ref? ==> n.left.i != p && n.left.i != c;
      assert n.right.Ref? ==> n.right.i != p && n.right.i != c;
    }
    ShapeFrame(nodes, sub, nodes', sub', i);
  }

  lemma RotationElsewhere(nodes: seq<Node>, root: Ptr, sub: Subs, nodes': seq<Node>, root': Ptr, p: nat, c: nat, cIsLeft: bool, i: nat)
    requires Wf(nodes, root, sub) && p in sub && p < |nodes| && c < |nodes|
    requires Child(nodes[p], cIsLeft) == Ref(c)
    requires IsRotation(nodes, root, nodes', root', p, c, cIsLeft)
    requires i in sub && i != p && i != c
    ensures LocalOk(nodes', root', RotatedSubs(nodes', sub, p, c), i)
  {
    RotationLinksElsewhere(nodes, root, sub, nodes', root', p, c, cIsLeft, i);
    RotationShapeElsewhere(nodes, root, sub, nodes', root', p, c, cIsLeft, i);
  }

  lemma RotationAllLocal(nodes: seq<Node>, root: Ptr, sub: Subs, nodes': seq<Node>, root': Ptr, p: nat, c: nat, cIsLeft: bool)
    requires Wf(nodes, root, sub) && p in sub && p < |nodes| && c < |nodes|
    requires Child(nodes[p], cIsLeft) == Ref(c)
    requires nodes[p].data.Some?
    requires IsRotation(nodes, root, nodes', root', p, c, cIsLeft)
    ensures var sub' := RotatedSubs(nodes', sub, p, c);
      forall i :: i in sub' ==> LocalOk(nodes', root', sub', i)
  {
    var sub' := RotatedSubs(nodes', sub, p, c);
    forall i | i in sub' ensures LocalOk(nodes', root', sub', i) {
      if i == p {
        RotationAtP(nodes, root, sub, nodes', root', p, c, cIsLeft);
      } else if i == c {
        RotationAtC(nodes, root, sub, nodes', root', p, c, cIsLeft);
      } else {
        RotationElsewhere(nodes, root, sub, nodes', root', p, c, cIsLeft, i);
      }
    }
  }

  /** The root after a rotation: `c` when `p` was the root, the old root otherwise. */
  lemma RotationRoot(nodes: seq<Node>, root: Ptr, sub: Subs, nodes': seq<Node>, root': Ptr, p: nat, c: nat, cIsLeft: bool)
    requires Wf(nodes, root, sub) && p in sub && p < |nodes| && c < |nodes|
    requires Child(nodes[p], cIsLeft) == Ref(c)
    requires IsRotation(nodes, root, nodes', root', p, c, cIsLeft)
    ensures var sub' := RotatedSubs(nodes', sub, p, c);
      root'.Ref? && root'.i < |nodes'| && root'.i in sub' && nodes'[root'.i].parent == Null &&
      Order(root', sub') == Order(root, sub)
  {
    RotationDistinct(nodes, root, sub, p, c, cIsLeft);
    RotationLists(nodes, root, sub, nodes', root', p, c, cIsLeft);
    Local(nodes, root, sub, p);
    Local(nodes, root, sub, c);
    if nodes[p].parent.Null? {
      assert root == Ref(p);
    } else {
      assert root.Ref? && root.i in sub && root.i != p && root.i != c;
      var b := Child(nodes[c], !cIsLeft);
      if b.Ref? { Local(nodes, root, sub, b.i); }
      assert nodes'[root.i].parent == Null;
    }
  }

  /**
   * A rotation keeps the tree well formed and keeps its in-order sequence;
   * `c` takes over `p`'s list. The node moved down must hold an element
   * (the order of its old subtree relative to `c` is read through it).
   */
  lemma RotationWf(nodes: seq<Node>, root: Ptr, sub: Subs, nodes': seq<Node>, root': Ptr, p: nat, c: nat, cIsLeft: bool)
    requires Wf(nodes, root, sub) && p in sub && p < |nodes| && c < |nodes|
    requires Child(nodes[p], cIsLeft) == Ref(c)
    requires nodes[p].data.Some?
    requires IsRotation(nodes, root, nodes', root', p, c, cIsLeft)
    ensures var sub' := RotatedSubs(nodes', sub, p, c);
      Wf(nodes', root', sub') && sub'.Keys == sub.Keys && sub'[c] == sub[p] &&
      Order(root', sub') == Order(root, sub)
  {
    RotationLists(nodes, root, sub, nodes', root', p, c, cIsLeft);
    RotationAllLocal(nodes, root, sub, nodes', root', p, c, cIsLeft);
    RotationRoot(nodes, root, sub, nodes', root', p, c, cIsLeft);
  }

  /**
   * The six field assignments of leftRotation (`cIsLeft` false) and
   * rightRotation (`cIsLeft` true), in their order, make up a rotation.
   */
  lemma RotationBySteps(nodes0: seq<Node>, root0: Ptr, p: nat, c: nat, cIsLeft: bool,
                        n1: seq<Node>, n2: seq<Node>, n3: seq<Node>, n4: seq<Node>, n5: seq<Node>, n6: seq<Node>, root': Ptr)
    requires p < |nodes0| && c < |nodes0| && p != c
    requires var b, g := Child(nodes0[c], !cIsLeft), nodes0[p].parent;
      (b.Ref? ==> b.i < |nodes0| && b.i != p && b.i != c) &&
      (g.Ref? ==> g.i < |nodes0| && g.i != p && g.i != c && g != b)
    requires n1 == nodes0[p := WithChild(nodes0[p], cIsLeft, Child(nodes0[c], !cIsLeft))]
    requires var b := Child(nodes0[c], !cIsLeft);
      n2 == if b.Ref? then n1[b.i := n1[b.i].(parent := Ref(p))] else n1
    requires n3 == n2[c := n2[c].(parent := nodes0[p].parent)]
    requires var g := nodes0[p].parent;
      (g.Null? ==> n4 == n3 && root' == Ref(c)) &&
      (g.Ref? ==> (root' == root0 &&
        n4 == if n3[g.i].left == Ref(p) then n3[g.i := n3[g.i].(left := Ref(c))] else n3[g.i := n3[g.i].(right := Ref(c))]))
    requires n5 == n4[c := WithChild(n4[c], !cIsLeft, Ref(p))]
    requires n6 == n5[p := n5[p].(parent := Ref(c))]
    ensures IsRotation(nodes0, root0, n6, root', p, c, cIsLeft)
  {
  }

  /** Keeping the live set and every element keeps the absence of placeholders. */
  lemma NoNullKept(nodes: seq<Node>, sub: Subs, nodes': seq<Node>, sub': Subs)
    requires NoNull(nodes, sub) && sub'.Keys == sub.Keys
    requires forall j :: DataAt(nodes', j) == DataAt(nodes, j)
    ensures NoNull(nodes', sub')
  {
    forall i | i in sub' ensures DataAt(nodes', i).Some? {
      assert i in sub;
    }
  }
}
