/**
 * What the fix-up of `remove` keeps: the tree stays well formed, the only
 * node that may hold null is the placeholder, and the placeholder stays a
 * leaf, so that unlinking it at the end takes out nothing else.
 */
module FixUp {
  import opened Outcomes
  import opened Songs
  import opened Arena
  import opened Rotations
  import opened Colours
  import opened Removal

  /** Every live node other than the placeholder `ph` holds an element. */
  ghost predicate NullOnly(nodes: seq<Node>, sub: Subs, ph: Ptr) {
    forall i :: i in sub && Ref(i) != ph ==> DataAt(nodes, i).Some?
  }

  /** The placeholder, when there is one, is a live leaf holding null. */
  ghost predicate PhLeaf(nodes: seq<Node>, sub: Subs, ph: Ptr) {
    ph.Ref? ==> ph.i in sub && sub[ph.i] == [ph.i] && DataAt(nodes, ph.i).None?
  }

  /** The state the fix-up works in. */
  ghost predicate FixOk(nodes: seq<Node>, root: Ptr, sub: Subs, ph: Ptr) {
    Wf(nodes, root, sub) && NullOnly(nodes, sub, ph) && PhLeaf(nodes, sub, ph)
  }

  /** Every slot keeps its element. */
  ghost predicate SameData(nodes: seq<Node>, nodes': seq<Node>) {
    |nodes'| == |nodes| && forall j :: DataAt(nodes', j) == DataAt(nodes, j)
  }

  /** Without a placeholder, the fix-up's state is a valid tree. */
  lemma FixOkNull(nodes: seq<Node>, root: Ptr, sub: Subs)
    ensures FixOk(nodes, root, sub, Null) <==> Wf(nodes, root, sub) && NoNull(nodes, sub)
  {
  }

  /** A live node with a child is not the placeholder, and holds an element. */
  lemma PivotHasData(nodes: seq<Node>, root: Ptr, sub: Subs, ph: Ptr, p: nat, left: bool)
    requires FixOk(nodes, root, sub, ph) && p in sub && p < |nodes| && Child(nodes[p], left).Ref?
    ensures Ref(p) != ph && nodes[p].data.Some?
  {
    ChildShorter(nodes, root, sub, p, left);
    ListAt(nodes, root, sub, p);
  }

  /** A rotation that does not lift the placeholder keeps the fix-up's state, the in-order list and every element. */
  lemma RotationFix(nodes: seq<Node>, root: Ptr, sub: Subs, nodes': seq<Node>, root': Ptr, p: nat, c: nat, cIsLeft: bool, ph: Ptr)
    requires FixOk(nodes, root, sub, ph) && p in sub && p < |nodes| && c < |nodes|
    requires Child(nodes[p], cIsLeft) == Ref(c)
    requires ph.Ref? ==> ph.i !in SubOf(sub, Ref(c))
    requires IsRotation(nodes, root, nodes', root', p, c, cIsLeft)
    ensures var sub' := RotatedSubs(nodes', sub, p, c);
      FixOk(nodes', root', sub', ph) && sub'.Keys == sub.Keys && c in sub && sub'[c] == sub[p] &&
      Order(root', sub') == Order(root, sub) && SameData(nodes, nodes') &&
      (forall j :: j in sub && j != p && j != c ==> sub'[j] == sub[j])
  {
    PivotHasData(nodes, root, sub, ph, p, cIsLeft);
    ChildShorter(nodes, root, sub, p, cIsLeft);
    RotationWf(nodes, root, sub, nodes', root', p, c, cIsLeft);
    RotationKeepsContents(nodes, root, nodes', root', p, c, cIsLeft);
  }

  /** Recolouring keeps the fix-up's state and every element. */
  lemma ColourFix(nodes: seq<Node>, root: Ptr, sub: Subs, ph: Ptr, i: nat, c: int)
    requires FixOk(nodes, root, sub, ph) && (c == RED || c == BLACK)
    ensures FixOk(SetColour(nodes, i, c), root, sub, ph) && SameData(nodes, SetColour(nodes, i, c))
  {
    SetColourWf(nodes, root, sub, i, c);
  }

  /**
   * A rotation at `p` leaves the node `x` on the other side of `p` as it
   * was: its own links are untouched and it stays on the same side of `p`.
   */
  lemma RotationKeepsSide(nodes: seq<Node>, root: Ptr, nodes': seq<Node>, root': Ptr, p: nat, c: nat, cIsLeft: bool, x: nat)
    requires p < |nodes| && c < |nodes| && x < |nodes| && IsRotation(nodes, root, nodes', root', p, c, cIsLeft)
    requires x != p && x != c && Child(nodes[c], !cIsLeft) != Ref(x) && nodes[p].parent != Ref(x)
    requires Child(nodes[p], !cIsLeft) == Ref(x) && Child(nodes[p], cIsLeft) == Ref(c)
    ensures nodes'[x] == nodes[x]
    ensures nodes'[p].left == Ref(x) <==> nodes[p].left == Ref(x)
  {
  }

  /** A rotation at `q` leaves untouched every live node outside `q`'s subtree but its parent. */
  lemma RotationKeepsOutside(nodes: seq<Node>, root: Ptr, sub: Subs, nodes': seq<Node>, root': Ptr, q: nat, c: nat, cIsLeft: bool, x: nat)
    requires Wf(nodes, root, sub) && q in sub && q < |nodes| && Child(nodes[q], cIsLeft) == Ref(c)
    requires c < |nodes| && IsRotation(nodes, root, nodes', root', q, c, cIsLeft)
    requires x in sub && x !in sub[q] && nodes[q].parent != Ref(x)
    ensures x < |nodes| && nodes'[x] == nodes[x]
  {
    Links(nodes, root, sub, x);
    ListAt(nodes, root, sub, q);
    ChildShorter(nodes, root, sub, q, cIsLeft);
    ListAt(nodes, root, sub, c);
    SubClosed(nodes, root, sub, q);
    var b := Child(nodes[c], !cIsLeft);
    if b.Ref? {
      ChildShorter(nodes, root, sub, c, !cIsLeft);
      assert b.i in sub[c];
    }
  }

  /**
   * The parent of a non-root node `x` whose subtree holds the placeholder:
   * it holds an element, has `x` on exactly one side, and its subtree is
   * longer; the sibling and the sibling's children are live and do not
   * hold the placeholder.
   */
  lemma SiblingFacts(nodes: seq<Node>, root: Ptr, sub: Subs, ph: Ptr, x: nat)
    requires FixOk(nodes, root, sub, ph) && x in sub && (ph.Ref? ==> ph.i in sub[x])
    requires x < |nodes| && nodes[x].parent.Ref?
    ensures var p := nodes[x].parent.i;
      p in sub && p < |nodes| && Ref(p) != ph && nodes[p].data.Some? &&
      |sub[x]| < |sub[p]| && (ph.Ref? ==> ph.i in sub[p]) &&
      (nodes[p].left == Ref(x) || nodes[p].right == Ref(x)) &&
      (nodes[p].left == Ref(x) ==> nodes[p].right != Ref(x)) && nodes[p].parent != Ref(x)
    ensures var p := nodes[x].parent.i;
      var s := Child(nodes[p], nodes[p].left != Ref(x));
      s.Ref? ==> (s.i in sub && s.i < |nodes| && s.i != x && nodes[s.i].parent == Ref(p) &&
        x !in sub[s.i] && (ph.Ref? ==> ph.i !in sub[s.i]) &&
        (forall left :: var t := Child(nodes[s.i], left);
          t.Ref? ==> t.i in sub && t.i < |nodes| && t.i != x && (ph.Ref? ==> ph.i !in sub[t.i])))
  {
    Links(nodes, root, sub, x);
    ParentLonger(nodes, root, sub, x);
    var p := nodes[x].parent.i;
    ParentLonger(nodes, root, sub, p);
    ListAt(nodes, root, sub, x);
    Shape(nodes, root, sub, p);
    Links(nodes, root, sub, p);
    ChildrenDiffer(nodes, root, sub, p);
    ListAt(nodes, root, sub, p);
    SubClosed(nodes, root, sub, p);
    var s := Child(nodes[p], nodes[p].left != Ref(x));
    if nodes[x].left.Ref? { ChildShorter(nodes, root, sub, x, true); }
    PivotHasData(nodes, root, sub, ph, p, nodes[p].left == Ref(x));
    if s.Ref? {
      Links(nodes, root, sub, s.i);
      SubClosed(nodes, root, sub, s.i);
      ListAt(nodes, root, sub, s.i);
      forall left ensures var t := Child(nodes[s.i], left);
        t.Ref? ==> t.i in sub && t.i < |nodes| && t.i != x && (ph.Ref? ==> ph.i !in sub[t.i])
      {
        var t := Child(nodes[s.i], left);
        if t.Ref? {
          ChildShorter(nodes, root, sub, s.i, left);
          assert t.i in sub[s.i];
        }
      }
    }
  }

  /** Putting the placeholder in the place of a leaf of a valid tree gives the fix-up's state. */
  lemma PlaceFix(nodes: seq<Node>, root: Ptr, sub: Subs, x: nat)
    requires Wf(nodes, root, sub) && NoNull(nodes, sub) && IsLeaf(nodes, sub, x)
    ensures var p, n := nodes[x].parent, |nodes|;
      var nodes' := MovedNodes(nodes + [Placeholder], p, x, Ref(n));
      FixOk(nodes', MovedRoot(root, p, Ref(n)), PlacedSubs(sub, x, n), Ref(n)) &&
      nodes'[x] == nodes[x] && (forall j: nat :: j < |nodes| ==> DataAt(nodes', j) == DataAt(nodes, j))
  {
    PlaceWf(nodes, root, sub, x);
    PlaceNodes(nodes, root, sub, x);
    SpliceParent(nodes, root, sub, x);
    var p, n := nodes[x].parent, |nodes|;
    var nodes', sub' := MovedNodes(nodes + [Placeholder], p, x, Ref(n)), PlacedSubs(sub, x, n);
    assert forall j: nat :: j < |nodes| ==> DataAt(nodes', j) == DataAt(nodes, j);
    forall i | i in sub' && Ref(i) != Ref(n) ensures DataAt(nodes', i).Some? {
      assert i in sub;
      Links(nodes, root, sub, i);
    }
    assert DataAt(nodes', n).None?;
  }

  /** Splicing a node with at most one child out of a valid tree gives a valid tree. */
  lemma SpliceFix(nodes: seq<Node>, root: Ptr, sub: Subs, x: nat, c: Ptr)
    requires Wf(nodes, root, sub) && NoNull(nodes, sub) && x in sub && x < |nodes| && OnlyChild(nodes, x, c)
    ensures var p := nodes[x].parent;
      var nodes' := MovedNodes(nodes, p, x, c);
      FixOk(nodes', MovedRoot(root, p, c), SubstSubs(sub, x, []), Null) &&
      nodes'[x] == nodes[x] && SameData(nodes, nodes')
  {
    SpliceWf(nodes, root, sub, x, c);
    SpliceNodes(nodes, root, sub, x, c);
    SpliceParent(nodes, root, sub, x);
    MovedContents(nodes, nodes[x].parent, x, c);
  }

  /** Unlinking the placeholder leaf leaves a valid tree whose in-order list has lost the placeholder only. */
  lemma UnlinkFix(nodes: seq<Node>, root: Ptr, sub: Subs, ph: nat)
    requires FixOk(nodes, root, sub, Ref(ph))
    ensures ph < |nodes| && OnlyChild(nodes, ph, Null)
    ensures var p := nodes[ph].parent;
      var nodes', root', sub' := MovedNodes(nodes, p, ph, Null), MovedRoot(root, p, Null), SubstSubs(sub, ph, []);
      FixOk(nodes', root', sub', Null) && SameData(nodes, nodes') && sub'.Keys == sub.Keys - {ph} &&
      Order(root', sub') == Subst(Order(root, sub), ph, [])
  {
    ListAt(nodes, root, sub, ph);
    if nodes[ph].left.Ref? { ChildShorter(nodes, root, sub, ph, true); }
    if nodes[ph].right.Ref? { ChildShorter(nodes, root, sub, ph, false); }
    SpliceWf(nodes, root, sub, ph, Null);
    MovedContents(nodes, nodes[ph].parent, ph, Null);
  }

  /** The nodes a rotation of `c` up into `p`'s place touches are in range and distinct, and `p`'s parent holds `p`. */
  ghost predicate RotatePre(nodes: seq<Node>, p: nat, c: nat, cIsLeft: bool) {
    p < |nodes| && c < |nodes| && p != c &&
    var b, g := Child(nodes[c], !cIsLeft), nodes[p].parent;
    (b.Ref? ==> b.i < |nodes| && b.i != p && b.i != c) &&
    (g.Ref? ==> (g.i < |nodes| && g.i != p && g.i != c && g != b &&
      (nodes[g.i].left == Ref(p) || nodes[g.i].right == Ref(p))))
  }

  /** In a well-formed tree, a live node and one of its children can be rotated. */
  lemma RotateReady(nodes: seq<Node>, root: Ptr, sub: Subs, p: nat, cIsLeft: bool)
    requires Wf(nodes, root, sub) && p in sub && p < |nodes| && Child(nodes[p], cIsLeft).Ref?
    ensures RotatePre(nodes, p, Child(nodes[p], cIsLeft).i, cIsLeft)
  {
    var c := Child(nodes[p], cIsLeft).i;
    RotationDistinct(nodes, root, sub, p, c, cIsLeft);
    Links(nodes, root, sub, p);
    Links(nodes, root, sub, c);
    if Child(nodes[c], !cIsLeft).Ref? { Links(nodes, root, sub, Child(nodes[c], !cIsLeft).i); }
    if nodes[p].parent.Ref? { Links(nodes, root, sub, nodes[p].parent.i); }
  }

  /**
   * The four field assignments of rotateLeft (`cIsLeft` false) and of
   * rightRotation(node) (`cIsLeft` true), in their order, followed by
   * moveChild(parent, node, child), make up a rotation.
   */
  lemma RotationByMoveSteps(nodes0: seq<Node>, root0: Ptr, p: nat, c: nat, cIsLeft: bool,
                            n1: seq<Node>, n2: seq<Node>, n3: seq<Node>, n4: seq<Node>)
    requires RotatePre(nodes0, p, c, cIsLeft)
    requires n1 == nodes0[p := WithChild(nodes0[p], cIsLeft, Child(nodes0[c], !cIsLeft))]
    requires var b := Child(nodes0[c], !cIsLeft);
      n2 == if b.Ref? then n1[b.i := n1[b.i].(parent := Ref(p))] else n1
    requires n3 == n2[c := WithChild(n2[c], !cIsLeft, Ref(p))]
    requires n4 == n3[p := n3[p].(parent := Ref(c))]
    ensures var g := nodes0[p].parent;
      g.Ref? ==> g.i < |n4| && (n4[g.i].left == Ref(p) || n4[g.i].right == Ref(p))
    ensures var g := nodes0[p].parent;
      IsRotation(nodes0, root0, MovedNodes(n4, g, p, Ref(c)), MovedRoot(root0, g, Ref(c)), p, c, cIsLeft)
  {
  }

  /**
   * The both-nephews case for a left child as the source writes it: the
   * parent `p` is rotated right, which brings `node` itself (not its
   * sibling) up into `p`'s place with `p` below it. When `p` is the root,
   * `node` becomes a root with `p` as its right child, and the moveChild
   * that removeHelper then applies to a placeholder `node` makes the root
   * null, although the tree held at least three nodes.
   */
  lemma AsWrittenUnlinkEmptiesTree(nodes: seq<Node>, root: Ptr, sub: Subs, p: nat, node: nat, s: nat,
                                   rotated: seq<Node>, root': Ptr)
    requires Wf(nodes, root, sub) && root == Ref(p) && p < |nodes| && node < |nodes|
    requires nodes[p].left == Ref(node) && nodes[p].right == Ref(s)
    requires IsRotation(nodes, root, rotated, root', p, node, true)
    ensures root' == Ref(node) && rotated[node].parent.Null? && rotated[node].right == Ref(p)
    ensures MovedRoot(root', rotated[node].parent, Null).Null?
    ensures |Order(root, sub)| >= 3
  {
    Links(nodes, root, sub, p);
    ListAt(nodes, root, sub, p);
    ListAt(nodes, root, sub, node);
    ListAt(nodes, root, sub, s);
  }
}
