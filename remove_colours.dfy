/**
 * Why the colour repair of `remove` (RedBlackTree.java:569-656) never
 * dereferences null on a red-black tree: it only reaches a sibling or a
 * nephew where the black counts say that node exists.
 *
 * The invariant is the textbook one for deletion. The subtree at the node
 * `x` being repaired has one black node fewer on each path than its
 * sibling's; every other pair of siblings agrees; and `x` is the only red
 * node that may have a red parent. The counts are again a ghost annotation
 * `bh`, and the placeholder `ph` counts as no node at all.
 */
module RemoveColours {
  import opened Songs
  import opened Arena
  import opened Rotations
  import opened Colours
  import opened Removal
  import opened FixUp
  import opened RemovalOrder

  /** The black count of `p`, counting `p` itself, where the placeholder `ph` counts like null. */
  ghost function FixH(nodes: seq<Node>, bh: Heights, ph: Ptr, p: Ptr): int {
    if p == ph then 0 else BlackH(nodes, bh, p)
  }

  /** Both children of `i` have the count `bh` records for `i`, except that `x` has one less. */
  ghost predicate ShortAt(nodes: seq<Node>, bh: Heights, ph: Ptr, x: nat, i: nat) {
    i < |nodes| && i in bh &&
    FixH(nodes, bh, ph, nodes[i].left) + (if nodes[i].left == Ref(x) then 1 else 0) == bh[i] &&
    FixH(nodes, bh, ph, nodes[i].right) + (if nodes[i].right == Ref(x) then 1 else 0) == bh[i]
  }

  /** The deficit invariant for the counts `bh`. */
  ghost predicate ShortBy(nodes: seq<Node>, sub: Subs, bh: Heights, x: nat, ph: Ptr) {
    (forall i {:trigger ShortAt(nodes, bh, ph, x, i)} :: i in sub ==> ShortAt(nodes, bh, ph, x, i)) &&
    RedRedOnly(nodes, sub, Ref(x))
  }

  /** The subtree at `x` is one black node short, and the red-black rules hold everywhere else. */
  ghost predicate Short(nodes: seq<Node>, sub: Subs, x: nat, ph: Ptr) {
    exists bh :: ShortBy(nodes, sub, bh, x, ph)
  }

  // ---------------------------------------------------------------------
  // Facts read off the invariant
  // ---------------------------------------------------------------------

  /** No count is negative. */
  lemma {:induction false} ShortNonNeg(nodes: seq<Node>, root: Ptr, sub: Subs, bh: Heights, x: nat, ph: Ptr, i: nat)
    requires Wf(nodes, root, sub) && ShortBy(nodes, sub, bh, x, ph) && i in sub
    ensures i < |nodes| && i in bh && bh[i] >= 0 && FixH(nodes, bh, ph, Ref(i)) >= 0
    decreases |sub[i]|
  {
    assert ShortAt(nodes, bh, ph, x, i);
    Colour(nodes, root, sub, i);
    var l := nodes[i].left;
    if l.Ref? {
      ChildShorter(nodes, root, sub, i, true);
      ShortNonNeg(nodes, root, sub, bh, x, ph, l.i);
    }
  }

  /** In a red-black tree no count is negative. */
  lemma {:induction false} BalancedNonNeg(nodes: seq<Node>, root: Ptr, sub: Subs, bh: Heights, i: nat)
    requires Wf(nodes, root, sub) && Balanced(nodes, sub, bh) && i in sub
    ensures i < |nodes| && i in bh && bh[i] >= 0
    decreases |sub[i]|
  {
    BalancedAtX(nodes, sub, bh, i);
    var l := nodes[i].left;
    if l.Ref? {
      ChildShorter(nodes, root, sub, i, true);
      BalancedNonNeg(nodes, root, sub, bh, l.i);
      Colour(nodes, root, sub, l.i);
    }
  }

  /** The state enforceRBTPropertiesAfterRemove works in below the root. */
  ghost predicate BelowRoot(nodes: seq<Node>, root: Ptr, sub: Subs, bh: Heights, x: nat, ph: Ptr) {
    FixOk(nodes, root, sub, ph) && ShortBy(nodes, sub, bh, x, ph) && x in sub && (ph.Ref? ==> ph.i in sub[x]) &&
    x < |nodes| && nodes[x].parent.Ref? && nodes[x].parent.i < |nodes|
  }

  /**
   * Below the root, getSiblingNode finds a node: the sibling is present,
   * is not the placeholder, and its count is one more than that of `x`,
   * so at least one.
   */
  lemma ShortSibling(nodes: seq<Node>, root: Ptr, sub: Subs, bh: Heights, x: nat, ph: Ptr)
    requires BelowRoot(nodes, root, sub, bh, x, ph)
    ensures var p := nodes[x].parent.i; var s := Child(nodes[p], nodes[p].left != Ref(x));
      p in sub && p in bh && s.Ref? && s.i in sub && s.i < |nodes| && s.i in bh && s != ph && Ref(p) != ph &&
      FixH(nodes, bh, ph, s) == bh[p] && FixH(nodes, bh, ph, Ref(x)) + 1 == bh[p] && bh[p] >= 1
  {
    SiblingFacts(nodes, root, sub, ph, x);
    ShortNonNeg(nodes, root, sub, bh, x, ph, x);
    var p := nodes[x].parent.i;
    assert ShortAt(nodes, bh, ph, x, p);
    var s := Child(nodes[p], nodes[p].left != Ref(x));
    if s.Ref? {
      ListAt(nodes, root, sub, s.i);
      assert ShortAt(nodes, bh, ph, x, s.i);
    }
  }

  /**
   * A black child of the sibling has a partner: when either child of the
   * sibling is black, both are present. This is what keeps the null checks
   * of enforceRBTPropertiesAfterRemove and fixBlackSiblingWithOneOrZeroChild
   * from firing.
   */
  lemma ShortNephews(nodes: seq<Node>, root: Ptr, sub: Subs, bh: Heights, x: nat, ph: Ptr)
    requires BelowRoot(nodes, root, sub, bh, x, ph)
    ensures var p := nodes[x].parent.i; var s := Child(nodes[p], nodes[p].left != Ref(x));
      s.Ref? && s.i < |nodes| &&
      (IsBlack(nodes, nodes[s.i].left) || IsBlack(nodes, nodes[s.i].right) ==> nodes[s.i].left.Ref? && nodes[s.i].right.Ref?)
  {
    ShortSibling(nodes, root, sub, bh, x, ph);
    SiblingFacts(nodes, root, sub, ph, x);
    var p := nodes[x].parent.i;
    var s := Child(nodes[p], nodes[p].left != Ref(x)).i;
    assert ShortAt(nodes, bh, ph, x, s);
    var sl, sr := nodes[s].left, nodes[s].right;
    assert sl == Child(nodes[s], true) && sr == Child(nodes[s], false);
    if sl.Ref? {
      ListAt(nodes, root, sub, sl.i);
      ShortNonNeg(nodes, root, sub, bh, x, ph, sl.i);
    }
    if sr.Ref? {
      ListAt(nodes, root, sub, sr.i);
      ShortNonNeg(nodes, root, sub, bh, x, ph, sr.i);
    }
  }

  // ---------------------------------------------------------------------
  // The recolouring case: a black sibling with two black children
  // ---------------------------------------------------------------------

  ghost predicate RecolourPre(nodes: seq<Node>, root: Ptr, sub: Subs, bh: Heights, x: nat, ph: Ptr) {
    BelowRoot(nodes, root, sub, bh, x, ph) &&
    var p := nodes[x].parent.i;
    var s := Child(nodes[p], nodes[p].left != Ref(x));
    IsBlack(nodes, s) && IsBlack(nodes, nodes[s.i].left) && IsBlack(nodes, nodes[s.i].right) &&
    nodes[p].blackHeight != RED
  }

  /** The parent, the sibling and their counts in the recolouring case. */
  lemma RecolourFacts(nodes: seq<Node>, root: Ptr, sub: Subs, bh: Heights, x: nat, ph: Ptr)
    requires RecolourPre(nodes, root, sub, bh, x, ph)
    ensures var p := nodes[x].parent.i; var s := Child(nodes[p], nodes[p].left != Ref(x)).i;
      p in sub && p in bh && s in bh && s != p && s != x && p != x && Ref(s) != ph && Ref(p) != ph &&
      nodes[s].parent == Ref(p) && FixH(nodes, bh, ph, Ref(s)) == bh[p] && FixH(nodes, bh, ph, Ref(x)) + 1 == bh[p] &&
      {nodes[p].left, nodes[p].right} == {Ref(x), Ref(s)} && nodes[p].parent != Ref(p)
  {
    ShortSibling(nodes, root, sub, bh, x, ph);
    SiblingFacts(nodes, root, sub, ph, x);
    var p := nodes[x].parent.i;
    var s := Child(nodes[p], nodes[p].left != Ref(x)).i;
    ChildrenDiffer(nodes, root, sub, p);
    Links(nodes, root, sub, p);
  }

  /** The parent, with `x` and the sibling `s` below it, is the new short node. */
  lemma RecolourAtParent(nodes: seq<Node>, bh: Heights, x: nat, ph: Ptr, p: nat, s: nat)
    requires p < |nodes| && s < |nodes| && x < |nodes| && s != p && s != x && p != x
    requires {nodes[p].left, nodes[p].right} == {Ref(x), Ref(s)}
    requires p in bh && s in bh && Ref(s) != ph && Ref(p) != ph
    requires FixH(nodes, bh, ph, Ref(s)) == bh[p] && FixH(nodes, bh, ph, Ref(x)) + 1 == bh[p]
    requires nodes[s].blackHeight == BLACK
    ensures ShortAt(SetColour(nodes, s, RED), bh[p := bh[p] - 1], ph, p, p)
  {
    assert nodes[p].left == Ref(x) || nodes[p].left == Ref(s);
    assert nodes[p].right == Ref(x) || nodes[p].right == Ref(s);
  }

  /** The node above the parent sees the parent's count go down by the one black node it lost. */
  lemma RecolourAtAbove(nodes: seq<Node>, sub: Subs, bh: Heights, x: nat, ph: Ptr, p: nat, s: nat, g: nat)
    requires g < |nodes| && p < |nodes| && s < |nodes| && ShortAt(nodes, bh, ph, x, g)
    requires nodes[g].left == Ref(p) || nodes[g].right == Ref(p)
    requires nodes[g].left != nodes[g].right && g != p && p != x && s != p && nodes[s].parent == Ref(p)
    requires x < |nodes| && nodes[x].parent == Ref(p)
    requires ChildLinkOk(nodes, sub, g, nodes[g].left) && ChildLinkOk(nodes, sub, g, nodes[g].right)
    requires p in bh && Ref(p) != ph
    ensures ShortAt(SetColour(nodes, s, RED), bh[p := bh[p] - 1], ph, p, g)
  {
    var nodes', bh' := SetColour(nodes, s, RED), bh[p := bh[p] - 1];
    var o := if nodes[g].left == Ref(p) then nodes[g].right else nodes[g].left;
    assert o.Ref? ==> nodes[o.i].parent == Ref(g) && o.i != p && o.i != s && o.i != x;
    SameCount(nodes, bh, nodes', bh', ph, o);
  }

  /** Any other node has neither the parent nor the sibling as a child, and keeps its counts. */
  lemma RecolourElsewhere(nodes: seq<Node>, sub: Subs, bh: Heights, x: nat, ph: Ptr, p: nat, s: nat, i: nat)
    requires i < |nodes| && p < |nodes| && s < |nodes| && x < |nodes| && ShortAt(nodes, bh, ph, x, i)
    requires i != p && nodes[p].parent != Ref(i) && s != p && nodes[s].parent == Ref(p) && nodes[x].parent == Ref(p)
    requires ChildLinkOk(nodes, sub, i, nodes[i].left) && ChildLinkOk(nodes, sub, i, nodes[i].right)
    requires p in bh
    ensures ShortAt(SetColour(nodes, s, RED), bh[p := bh[p] - 1], ph, p, i)
  {
    var nodes', bh' := SetColour(nodes, s, RED), bh[p := bh[p] - 1];
    var l, r := nodes[i].left, nodes[i].right;
    assert l.Ref? ==> nodes[l.i].parent == Ref(i) && l.i != p && l.i != s && l.i != x;
    assert r.Ref? ==> nodes[r.i].parent == Ref(i) && r.i != p && r.i != s && r.i != x;
    SameCount(nodes, bh, nodes', bh', ph, l);
    SameCount(nodes, bh, nodes', bh', ph, r);
    ShortAtSame(nodes, bh, nodes', bh', ph, x, p, i);
  }

  /**
   * The case of a black sibling `s` with two black children and a parent
   * that is not red: `s` turning red takes one black node off every path
   * through the parent, so the parent becomes the short node.
   */
  lemma RecolourShort(nodes: seq<Node>, root: Ptr, sub: Subs, bh: Heights, x: nat, ph: Ptr)
    requires RecolourPre(nodes, root, sub, bh, x, ph)
    ensures var p := nodes[x].parent.i; var s := Child(nodes[p], nodes[p].left != Ref(x)).i;
      p in bh && ShortBy(SetColour(nodes, s, RED), sub, bh[p := bh[p] - 1], p, ph)
  {
    RecolourFacts(nodes, root, sub, bh, x, ph);
    var p := nodes[x].parent.i;
    var s := Child(nodes[p], nodes[p].left != Ref(x)).i;
    RecolourCounts(nodes, root, sub, bh, x, ph);
    RecolourNoRedRed(nodes, root, sub, bh, x, ph);
  }

  lemma RecolourCounts(nodes: seq<Node>, root: Ptr, sub: Subs, bh: Heights, x: nat, ph: Ptr)
    requires RecolourPre(nodes, root, sub, bh, x, ph)
    ensures var p := nodes[x].parent.i; var s := Child(nodes[p], nodes[p].left != Ref(x)).i;
      p in bh && forall i {:trigger ShortAt(SetColour(nodes, s, RED), bh[p := bh[p] - 1], ph, p, i)} ::
        i in sub ==> ShortAt(SetColour(nodes, s, RED), bh[p := bh[p] - 1], ph, p, i)
  {
    RecolourFacts(nodes, root, sub, bh, x, ph);
    var p := nodes[x].parent.i;
    var s := Child(nodes[p], nodes[p].left != Ref(x)).i;
    var nodes', bh' := SetColour(nodes, s, RED), bh[p := bh[p] - 1];
    forall i | i in sub ensures ShortAt(nodes', bh', ph, p, i) {
      Links(nodes, root, sub, i);
      assert ShortAt(nodes, bh, ph, x, i);
      if i == p {
        RecolourAtParent(nodes, bh, x, ph, p, s);
      } else if nodes[p].parent == Ref(i) {
        ChildrenDiffer(nodes, root, sub, i);
        Links(nodes, root, sub, p);
        RecolourAtAbove(nodes, sub, bh, x, ph, p, s, i);
      } else {
        RecolourElsewhere(nodes, sub, bh, x, ph, p, s, i);
      }
    }
  }

  /** After the recolouring no red node has a red parent. */
  lemma RecolourNoRedRed(nodes: seq<Node>, root: Ptr, sub: Subs, bh: Heights, x: nat, ph: Ptr)
    requires RecolourPre(nodes, root, sub, bh, x, ph)
    ensures var p := nodes[x].parent.i; var s := Child(nodes[p], nodes[p].left != Ref(x)).i;
      forall i {:trigger RedRed(SetColour(nodes, s, RED), i)} :: i in sub ==> !RedRed(SetColour(nodes, s, RED), i)
  {
    RecolourFacts(nodes, root, sub, bh, x, ph);
    var p := nodes[x].parent.i;
    var s := Child(nodes[p], nodes[p].left != Ref(x)).i;
    var nodes' := SetColour(nodes, s, RED);
    forall i | i in sub ensures !RedRed(nodes', i) {
      Links(nodes, root, sub, i);
      if i != s && i != x && nodes[i].parent != Ref(s) {
        NoRedRedAt(nodes, sub, Ref(x), i);
      }
    }
  }


  // ---------------------------------------------------------------------
  // The red sibling: fixRedSibling
  // ---------------------------------------------------------------------

  /** The red sibling `s` turns black, the parent red, and `s` is rotated up; `nodes1` is the result. */
  ghost predicate RedStep(nodes: seq<Node>, root: Ptr, sub: Subs, bh: Heights, x: nat, ph: Ptr, nodes1: seq<Node>, root1: Ptr) {
    BelowRoot(nodes, root, sub, bh, x, ph) &&
    var p := nodes[x].parent.i;
    var side := nodes[p].left != Ref(x);
    var s := Child(nodes[p], side);
    IsRed(nodes, s) &&
    IsRotation(SetColour(SetColour(nodes, s.i, BLACK), p, RED), root, nodes1, root1, p, s.i, side)
  }

  /** The nodes fixRedSibling changes, and how. */
  lemma RedShape(nodes: seq<Node>, root: Ptr, sub: Subs, bh: Heights, x: nat, ph: Ptr, nodes1: seq<Node>, root1: Ptr)
    requires RedStep(nodes, root, sub, bh, x, ph, nodes1, root1)
    ensures var p := nodes[x].parent.i; var side := nodes[p].left != Ref(x); var s := Child(nodes[p], side).i;
      var b, e, g := Child(nodes[s], !side), Child(nodes[s], side), nodes[p].parent;
      p in sub && s in sub && s < |nodes| && p != s && x != p && x != s && |nodes1| == |nodes| &&
      Child(nodes[p], !side) == Ref(x) &&
      nodes1[s] == WithChild(nodes[s], !side, Ref(p)).(parent := g, blackHeight := BLACK) &&
      nodes1[p] == WithChild(nodes[p], side, b).(parent := Ref(s), blackHeight := RED) &&
      (b.Ref? ==> (b.i in sub && b.i < |nodes| && b.i != x && b.i != p && b.i != s &&
                   nodes1[b.i] == nodes[b.i].(parent := Ref(p)) && nodes[b.i].parent == Ref(s))) &&
      (e.Ref? ==> (e.i in sub && e.i < |nodes| && e.i != x && e.i != p && e.i != s && e != b &&
                   nodes[e.i].parent == Ref(s))) &&
      (g.Ref? ==> (g.i in sub && g.i < |nodes| && g.i != x && g.i != p && g.i != s && g != b &&
                   nodes1[g.i] == WithChild(nodes[g.i], nodes[g.i].left == Ref(p), Ref(s)) &&
                   (nodes[g.i].left == Ref(p) || nodes[g.i].right == Ref(p)))) &&
      nodes1[x] == nodes[x]
  {
    SiblingFacts(nodes, root, sub, ph, x);
    var p := nodes[x].parent.i;
    var side := nodes[p].left != Ref(x);
    var s := Child(nodes[p], side).i;
    RotationDistinct(nodes, root, sub, p, s, side);
    Links(nodes, root, sub, p);
    Links(nodes, root, sub, s);
    var g := nodes[p].parent;
    if g.Ref? {
      Links(nodes, root, sub, g.i);
    }
  }

  /**
   * What fixRedSibling leaves alone: the colour of every node but the
   * parent and the sibling, the children of every node but those two and
   * the node above, and the parent link of every node but those two and
   * the nephew that moves.
   */
  lemma RedFrame(nodes: seq<Node>, root: Ptr, sub: Subs, bh: Heights, x: nat, ph: Ptr, nodes1: seq<Node>, root1: Ptr)
    requires RedStep(nodes, root, sub, bh, x, ph, nodes1, root1)
    ensures var p := nodes[x].parent.i; var side := nodes[p].left != Ref(x); var s := Child(nodes[p], side).i;
      var b, g := Child(nodes[s], !side), nodes[p].parent;
      |nodes1| == |nodes| &&
      (forall j :: 0 <= j < |nodes| && j != p && j != s ==> nodes1[j].blackHeight == nodes[j].blackHeight) &&
      (forall j :: 0 <= j < |nodes| && j != p && j != s && Ref(j) != g ==>
        nodes1[j].left == nodes[j].left && nodes1[j].right == nodes[j].right) &&
      (forall j :: 0 <= j < |nodes| && j != p && j != s && Ref(j) != b ==> nodes1[j].parent == nodes[j].parent)
  {
    RedShape(nodes, root, sub, bh, x, ph, nodes1, root1);
  }

  /** The colours and counts around the red sibling before fixRedSibling. */
  lemma RedHeights(nodes: seq<Node>, root: Ptr, sub: Subs, bh: Heights, x: nat, ph: Ptr, nodes1: seq<Node>, root1: Ptr)
    requires RedStep(nodes, root, sub, bh, x, ph, nodes1, root1)
    ensures var p := nodes[x].parent.i; var side := nodes[p].left != Ref(x); var s := Child(nodes[p], side).i;
      var b, e := Child(nodes[s], !side), Child(nodes[s], side);
      p in bh && s in bh && nodes[p].blackHeight == BLACK && Ref(p) != ph && Ref(s) != ph &&
      bh[s] == bh[p] && FixH(nodes, bh, ph, Ref(x)) + 1 == bh[p] &&
      b.Ref? && b.i < |nodes| && b.i in bh && b != ph && nodes[b.i].blackHeight == BLACK && bh[b.i] + 1 == bh[p] &&
      e.Ref? && e.i < |nodes| && e.i in bh && e != ph && nodes[e.i].blackHeight == BLACK && bh[e.i] + 1 == bh[p]
  {
    ShortSibling(nodes, root, sub, bh, x, ph);
    SiblingFacts(nodes, root, sub, ph, x);
    var p := nodes[x].parent.i;
    var side := nodes[p].left != Ref(x);
    var s := Child(nodes[p], side).i;
    NoRedRedAt(nodes, sub, Ref(x), s);
    Colour(nodes, root, sub, p);
    assert ShortAt(nodes, bh, ph, x, s);
    var b, e := Child(nodes[s], !side), Child(nodes[s], side);
    if b.Ref? {
      ChildShorter(nodes, root, sub, s, !side);
      ListAt(nodes, root, sub, b.i);
      ShortNonNeg(nodes, root, sub, bh, x, ph, b.i);
      NoRedRedAt(nodes, sub, Ref(x), b.i);
      Colour(nodes, root, sub, b.i);
    }
    if e.Ref? {
      ChildShorter(nodes, root, sub, s, side);
      ListAt(nodes, root, sub, e.i);
      ShortNonNeg(nodes, root, sub, bh, x, ph, e.i);
      NoRedRedAt(nodes, sub, Ref(x), e.i);
      Colour(nodes, root, sub, e.i);
    }
  }

  /** The parent and the sibling after fixRedSibling. */
  lemma RedAtTop(nodes: seq<Node>, root: Ptr, sub: Subs, bh: Heights, x: nat, ph: Ptr, nodes1: seq<Node>, root1: Ptr)
    requires RedStep(nodes, root, sub, bh, x, ph, nodes1, root1)
    ensures var p := nodes[x].parent.i; var s := Child(nodes[p], nodes[p].left != Ref(x)).i;
      p in bh && ShortAt(nodes1, bh[s := bh[p]], ph, x, p) && ShortAt(nodes1, bh[s := bh[p]], ph, x, s)
  {
    RedShape(nodes, root, sub, bh, x, ph, nodes1, root1);
    RedFrame(nodes, root, sub, bh, x, ph, nodes1, root1);
    RedHeights(nodes, root, sub, bh, x, ph, nodes1, root1);
    var p := nodes[x].parent.i;
    var side := nodes[p].left != Ref(x);
    var s := Child(nodes[p], side).i;
    var b, e := Child(nodes[s], !side), Child(nodes[s], side);
    assert Child(nodes1[p], side) == b && Child(nodes1[p], !side) == Ref(x);
    assert Child(nodes1[s], side) == e && Child(nodes1[s], !side) == Ref(p);
  }

  /** The node above the parent after fixRedSibling: its slot now holds the sibling. */
  lemma RedAtAbove(nodes: seq<Node>, root: Ptr, sub: Subs, bh: Heights, x: nat, ph: Ptr, nodes1: seq<Node>, root1: Ptr)
    requires RedStep(nodes, root, sub, bh, x, ph, nodes1, root1)
    requires nodes[nodes[x].parent.i].parent.Ref?
    ensures var p := nodes[x].parent.i; var s := Child(nodes[p], nodes[p].left != Ref(x)).i;
      p in bh && ShortAt(nodes1, bh[s := bh[p]], ph, x, nodes[p].parent.i)
  {
    var p := nodes[x].parent.i;
    var s := Child(nodes[p], nodes[p].left != Ref(x)).i;
    var g := nodes[p].parent.i;
    var pLeft := nodes[g].left == Ref(p);
    var o := Child(nodes[g], !pLeft);
    assert g in sub && g < |nodes| && s != x && s != g && |nodes1| == |nodes| && s < |nodes| && p < |nodes| &&
           nodes1[g] == WithChild(nodes[g], pLeft, Ref(s)) && Child(nodes[g], pLeft) == Ref(p) by {
      RedShape(nodes, root, sub, bh, x, ph, nodes1, root1);
    }
    assert p in bh && s in bh && nodes[p].blackHeight == BLACK && Ref(p) != ph && Ref(s) != ph &&
           bh[s] == bh[p] && nodes1[s].blackHeight == BLACK by {
      RedShape(nodes, root, sub, bh, x, ph, nodes1, root1);
      RedHeights(nodes, root, sub, bh, x, ph, nodes1, root1);
    }
    assert ShortAt(nodes, bh, ph, x, g);
    assert nodes[g].left != Ref(x) && nodes[g].right != Ref(x) && (o.Ref? ==> o.i < |nodes| && o.i != s && o.i != p) by {
      SiblingFacts(nodes, root, sub, ph, x);
      ChildrenDiffer(nodes, root, sub, g);
      Links(nodes, root, sub, g);
    }
    assert o.Ref? ==> nodes1[o.i].blackHeight == nodes[o.i].blackHeight by {
      RedFrame(nodes, root, sub, bh, x, ph, nodes1, root1);
      assert p == nodes[x].parent.i && s == Child(nodes[p], nodes[p].left != Ref(x)).i;
    }
    RedAboveAt(nodes, nodes1, bh, ph, x, p, s, g);
  }

  /** The counting step behind RedAtAbove, from the facts it needs alone. */
  lemma RedAboveAt(nodes: seq<Node>, nodes1: seq<Node>, bh: Heights, ph: Ptr, x: nat, p: nat, s: nat, g: nat)
    requires ShortAt(nodes, bh, ph, x, g) && g < |nodes1| && g != s && s != x
    requires nodes[g].left != Ref(x) && nodes[g].right != Ref(x)
    requires p < |nodes| && p in bh && s in bh && s < |nodes1| && bh[s] == bh[p]
    requires nodes[p].blackHeight == BLACK && nodes1[s].blackHeight == BLACK && Ref(p) != ph && Ref(s) != ph
    requires Child(nodes[g], nodes[g].left == Ref(p)) == Ref(p)
    requires nodes1[g] == WithChild(nodes[g], nodes[g].left == Ref(p), Ref(s))
    requires var o := Child(nodes[g], nodes[g].left != Ref(p));
      o.Ref? ==> o.i < |nodes| && o.i < |nodes1| && o.i != s && nodes1[o.i].blackHeight == nodes[o.i].blackHeight
    ensures ShortAt(nodes1, bh[s := bh[p]], ph, x, g)
  {
    var bh1 := bh[s := bh[p]];
    var pLeft := nodes[g].left == Ref(p);
    var o := Child(nodes[g], !pLeft);
    SameCount(nodes, bh, nodes1, bh1, ph, o);
    assert FixH(nodes1, bh1, ph, Ref(s)) == FixH(nodes, bh, ph, Ref(p));
    assert Child(nodes1[g], pLeft) == Ref(s) && Child(nodes1[g], !pLeft) == o;
  }

  /** Every other node keeps its children and their counts. */
  lemma RedElsewhere(nodes: seq<Node>, root: Ptr, sub: Subs, bh: Heights, x: nat, ph: Ptr, nodes1: seq<Node>, root1: Ptr, i: nat)
    requires RedStep(nodes, root, sub, bh, x, ph, nodes1, root1)
    requires i in sub && i != nodes[x].parent.i && Ref(i) != Child(nodes[nodes[x].parent.i], nodes[nodes[x].parent.i].left != Ref(x))
    requires nodes[nodes[x].parent.i].parent != Ref(i)
    ensures var p := nodes[x].parent.i; var s := Child(nodes[p], nodes[p].left != Ref(x)).i;
      p in bh && ShortAt(nodes1, bh[s := bh[p]], ph, x, i)
  {
    var p := nodes[x].parent.i;
    var s := Child(nodes[p], nodes[p].left != Ref(x)).i;
    assert p in bh && s in sub && nodes[s].parent == Ref(p) by {
      SiblingFacts(nodes, root, sub, ph, x);
      assert ShortAt(nodes, bh, ph, x, p);
    }
    var bh1 := bh[s := bh[p]];
    Links(nodes, root, sub, i);
    assert ShortAt(nodes, bh, ph, x, i);
    RedFrame(nodes, root, sub, bh, x, ph, nodes1, root1);
    var l, r := nodes[i].left, nodes[i].right;
    assert l.Ref? ==> nodes[l.i].parent == Ref(i) && l.i != p && l.i != s;
    assert r.Ref? ==> nodes[r.i].parent == Ref(i) && r.i != p && r.i != s;
    SameCount(nodes, bh, nodes1, bh1, ph, l);
    SameCount(nodes, bh, nodes1, bh1, ph, r);
    ShortAtSame(nodes, bh, nodes1, bh1, ph, x, x, i);
  }

  /** The count of `p` is the same in two trees that give it the same colour and the same count. */
  lemma SameCount(nodes: seq<Node>, bh: Heights, nodes1: seq<Node>, bh1: Heights, ph: Ptr, p: Ptr)
    requires p.Ref? ==> ((p.i < |nodes1| <==> p.i < |nodes|) &&
                         (p.i < |nodes| ==> nodes1[p.i].blackHeight == nodes[p.i].blackHeight) &&
                         (p.i in bh1 <==> p.i in bh) && (p.i in bh ==> bh1[p.i] == bh[p.i]))
    ensures FixH(nodes1, bh1, ph, p) == FixH(nodes, bh, ph, p)
  {
  }

  /**
   * A node whose children and their counts are unchanged, and which has
   * neither the old nor the new short node `x1` as a child, keeps its part
   * of the invariant.
   */
  lemma ShortAtSame(nodes: seq<Node>, bh: Heights, nodes1: seq<Node>, bh1: Heights, ph: Ptr, x: nat, x1: nat, i: nat)
    requires ShortAt(nodes, bh, ph, x, i) && i < |nodes1| && i in bh1 && bh1[i] == bh[i]
    requires nodes1[i].left == nodes[i].left && nodes1[i].right == nodes[i].right
    requires (nodes[i].left == Ref(x1)) == (nodes[i].left == Ref(x)) && (nodes[i].right == Ref(x1)) == (nodes[i].right == Ref(x))
    requires FixH(nodes1, bh1, ph, nodes[i].left) == FixH(nodes, bh, ph, nodes[i].left)
    requires FixH(nodes1, bh1, ph, nodes[i].right) == FixH(nodes, bh, ph, nodes[i].right)
    ensures ShortAt(nodes1, bh1, ph, x1, i)
  {
  }


  /** After fixRedSibling, `x` is still the only node that may be a red child of a red parent. */
  lemma RedRedAfter(nodes: seq<Node>, root: Ptr, sub: Subs, bh: Heights, x: nat, ph: Ptr, nodes1: seq<Node>, root1: Ptr, i: nat)
    requires RedStep(nodes, root, sub, bh, x, ph, nodes1, root1)
    requires i in sub && i != x
    ensures !RedRed(nodes1, i)
  {
    RedShape(nodes, root, sub, bh, x, ph, nodes1, root1);
    RedFrame(nodes, root, sub, bh, x, ph, nodes1, root1);
    RedHeights(nodes, root, sub, bh, x, ph, nodes1, root1);
    var p := nodes[x].parent.i;
    var side := nodes[p].left != Ref(x);
    var s := Child(nodes[p], side).i;
    var b, e := Child(nodes[s], !side), Child(nodes[s], side);
    if i != p && i != s && Ref(i) != b {
      Links(nodes, root, sub, i);
      ChildrenDiffer(nodes, root, sub, p);
      if nodes[i].parent.Ref? && nodes[i].parent.i != s && nodes[i].parent.i != p {
        NoRedRedAt(nodes, sub, Ref(x), i);
      }
    }
  }

  /**
   * fixRedSibling keeps the invariant: the sibling's inner child, black,
   * becomes the new sibling of `x`, and the counts are those of before
   * with the sibling given the parent's.
   */
  lemma RedSiblingShort(nodes: seq<Node>, root: Ptr, sub: Subs, bh: Heights, x: nat, ph: Ptr, nodes1: seq<Node>, root1: Ptr, sub1: Subs)
    requires RedStep(nodes, root, sub, bh, x, ph, nodes1, root1) && sub1.Keys == sub.Keys
    ensures var p := nodes[x].parent.i; var s := Child(nodes[p], nodes[p].left != Ref(x)).i;
      p in bh && ShortBy(nodes1, sub1, bh[s := bh[p]], x, ph)
    ensures var p := nodes[x].parent.i;
      x < |nodes1| && nodes1[x] == nodes[x] && p < |nodes1| &&
      IsBlack(nodes1, Child(nodes1[p], nodes1[p].left != Ref(x)))
  {
    RedShape(nodes, root, sub, bh, x, ph, nodes1, root1);
    RedHeights(nodes, root, sub, bh, x, ph, nodes1, root1);
    RedCounts(nodes, root, sub, bh, x, ph, nodes1, root1);
    forall i | i in sub1 && i != x ensures !RedRed(nodes1, i) {
      RedRedAfter(nodes, root, sub, bh, x, ph, nodes1, root1, i);
    }
  }

  /** The counts after fixRedSibling: those of before, with the sibling given the parent's. */
  lemma RedCounts(nodes: seq<Node>, root: Ptr, sub: Subs, bh: Heights, x: nat, ph: Ptr, nodes1: seq<Node>, root1: Ptr)
    requires RedStep(nodes, root, sub, bh, x, ph, nodes1, root1)
    ensures var p := nodes[x].parent.i; var s := Child(nodes[p], nodes[p].left != Ref(x)).i;
      p in bh && forall i {:trigger ShortAt(nodes1, bh[s := bh[p]], ph, x, i)} ::
        i in sub ==> ShortAt(nodes1, bh[s := bh[p]], ph, x, i)
  {
    var p := nodes[x].parent.i;
    var s := Child(nodes[p], nodes[p].left != Ref(x)).i;
    assert p in bh && s in sub by {
      SiblingFacts(nodes, root, sub, ph, x);
      assert ShortAt(nodes, bh, ph, x, p);
    }
    var bh1 := bh[s := bh[p]];
    forall i | i in sub ensures ShortAt(nodes1, bh1, ph, x, i) {
      if i == p || i == s {
        RedAtTop(nodes, root, sub, bh, x, ph, nodes1, root1);
      } else if nodes[p].parent == Ref(i) {
        RedAtAbove(nodes, root, sub, bh, x, ph, nodes1, root1);
      } else {
        RedElsewhere(nodes, root, sub, bh, x, ph, nodes1, root1, i);
      }
    }
  }

  // ---------------------------------------------------------------------
  // Taking a black node out establishes the invariant
  // ---------------------------------------------------------------------

  /** A child that keeps its colour and its recorded count keeps its black count. */
  lemma KeptCount(nodes: seq<Node>, bh: Heights, nodes1: seq<Node>, bh1: Heights, ph: Ptr, q: Ptr)
    requires q.Ref? ==> (q != ph && q.i < |nodes| && q.i < |nodes1| && nodes1[q.i].blackHeight == nodes[q.i].blackHeight &&
                         (q.i in bh1 <==> q.i in bh) && (q.i in bh ==> bh1[q.i] == bh[q.i]))
    ensures FixH(nodes1, bh1, ph, q) == BlackH(nodes, bh, q)
  {
  }

  /** A node whose children and their counts are unchanged, and neither of which is `x1`, is not short. */
  lemma KeptAt(nodes: seq<Node>, bh: Heights, nodes1: seq<Node>, bh1: Heights, ph: Ptr, x1: nat, i: nat)
    requires BalancedAt(nodes, bh, i) && i < |nodes1| && i in bh1 && bh1[i] == bh[i]
    requires nodes1[i].left == nodes[i].left && nodes1[i].right == nodes[i].right
    requires nodes[i].left != Ref(x1) && nodes[i].right != Ref(x1)
    requires FixH(nodes1, bh1, ph, nodes[i].left) == BlackH(nodes, bh, nodes[i].left)
    requires FixH(nodes1, bh1, ph, nodes[i].right) == BlackH(nodes, bh, nodes[i].right)
    ensures ShortAt(nodes1, bh1, ph, x1, i)
  {
  }

  /**
   * The parent of the black node `x` taken out: the slot of `x`, whose
   * black count was one, now holds `x1`, whose count is zero.
   */
  lemma ParentShort(nodes: seq<Node>, bh: Heights, nodes1: seq<Node>, bh1: Heights, ph: Ptr, x: nat, x1: nat, i: nat)
    requires BalancedAt(nodes, bh, i) && i < |nodes1| && i in bh1 && bh1[i] == bh[i]
    requires x < |nodes| && x in bh && bh[x] == 0 && nodes[x].blackHeight == BLACK
    requires nodes[i].left == Ref(x) || nodes[i].right == Ref(x)
    requires nodes1[i] == WithChild(nodes[i], nodes[i].left == Ref(x), Ref(x1)) && FixH(nodes1, bh1, ph, Ref(x1)) == 0
    requires var o := Child(nodes[i], nodes[i].left != Ref(x));
      o != Ref(x) && o != Ref(x1) && FixH(nodes1, bh1, ph, o) == BlackH(nodes, bh, o)
    ensures ShortAt(nodes1, bh1, ph, x1, i)
  {
    var side := nodes[i].left == Ref(x);
    assert Child(nodes1[i], side) == Ref(x1) && Child(nodes1[i], !side) == Child(nodes[i], !side);
  }

  /**
   * removeForAtleastOneChild on a black node `x` with the one child `c`
   * (RedBlackTree.java:544-552): the subtree now at `c` is one black node
   * short, and the red-black rules hold everywhere else.
   */
  lemma SpliceShort(nodes: seq<Node>, root: Ptr, sub: Subs, bh: Heights, x: nat, c: nat)
    requires Wf(nodes, root, sub) && RedBlack(nodes, sub, bh) && x in sub && x < |nodes|
    requires OnlyChild(nodes, x, Ref(c)) && nodes[x].blackHeight == BLACK
    ensures ShortBy(MovedNodes(nodes, nodes[x].parent, x, Ref(c)), SubstSubs(sub, x, []), bh, c, Null)
  {
    var p := nodes[x].parent;
    var nodes1, sub1 := MovedNodes(nodes, p, x, Ref(c)), SubstSubs(sub, x, []);
    forall i | i in sub1 ensures ShortAt(nodes1, bh, Null, c, i) {
      SpliceAt(nodes, root, sub, bh, x, c, i);
    }
    forall i | i in sub1 && i != c ensures !RedRed(nodes1, i) {
      SpliceNodes(nodes, root, sub, x, Ref(c));
      MovedContents(nodes, p, x, Ref(c));
      Links(nodes, root, sub, i);
      NoRedRedAt(nodes, sub, Null, i);
    }
  }

  /** One node of SpliceShort's counting. */
  lemma SpliceAt(nodes: seq<Node>, root: Ptr, sub: Subs, bh: Heights, x: nat, c: nat, i: nat)
    requires Wf(nodes, root, sub) && RedBlack(nodes, sub, bh) && x in sub && x < |nodes|
    requires OnlyChild(nodes, x, Ref(c)) && nodes[x].blackHeight == BLACK && i in sub && i != x
    ensures ShortAt(MovedNodes(nodes, nodes[x].parent, x, Ref(c)), bh, Null, c, i)
  {
    var p := nodes[x].parent;
    var nodes1 := MovedNodes(nodes, p, x, Ref(c));
    assert Spliced(nodes, nodes1, x, Ref(c)) && c < |nodes| && nodes[c].parent == Ref(x) && c != x by {
      SpliceNodes(nodes, root, sub, x, Ref(c));
      SpliceChild(nodes, root, sub, x, Ref(c));
    }
    assert forall j :: 0 <= j < |nodes| ==> nodes1[j].blackHeight == nodes[j].blackHeight by {
      MovedContents(nodes, p, x, Ref(c));
    }
    assert bh[x] == 0 && BlackH(nodes, bh, Ref(c)) == 0 by {
      BalancedAtX(nodes, sub, bh, x);
    }
    BalancedAtX(nodes, sub, bh, i);
    Links(nodes, root, sub, i);
    var l, r := nodes[i].left, nodes[i].right;
    assert l.Ref? ==> l.i < |nodes| && nodes[l.i].parent == Ref(i);
    assert r.Ref? ==> r.i < |nodes| && nodes[r.i].parent == Ref(i);
    if p == Ref(i) {
      assert nodes[i].left == Ref(x) || nodes[i].right == Ref(x) by {
        SpliceParent(nodes, root, sub, x);
      }
      ChildrenDiffer(nodes, root, sub, i);
      SpliceAtParent(nodes, bh, nodes1, x, c, i);
    } else {
      SpliceAtOther(nodes, bh, nodes1, c, i);
    }
  }

  /** SpliceAt at a node other than the parent of `x`, from the facts it needs alone. */
  lemma SpliceAtOther(nodes: seq<Node>, bh: Heights, nodes1: seq<Node>, c: nat, i: nat)
    requires BalancedAt(nodes, bh, i) && |nodes1| == |nodes| && i in bh
    requires nodes1[i].left == nodes[i].left && nodes1[i].right == nodes[i].right
    requires nodes[i].left != Ref(c) && nodes[i].right != Ref(c)
    requires nodes[i].left.Ref? ==> nodes[i].left.i < |nodes|
    requires nodes[i].right.Ref? ==> nodes[i].right.i < |nodes|
    requires forall j :: 0 <= j < |nodes| ==> nodes1[j].blackHeight == nodes[j].blackHeight
    ensures ShortAt(nodes1, bh, Null, c, i)
  {
    KeptCount(nodes, bh, nodes1, bh, Null, nodes[i].left);
    KeptCount(nodes, bh, nodes1, bh, Null, nodes[i].right);
    KeptAt(nodes, bh, nodes1, bh, Null, c, i);
  }

  /** SpliceAt at the parent of `x`, from the facts it needs alone. */
  lemma SpliceAtParent(nodes: seq<Node>, bh: Heights, nodes1: seq<Node>, x: nat, c: nat, i: nat)
    requires BalancedAt(nodes, bh, i) && |nodes1| == |nodes| && x < |nodes| && c < |nodes| && c != x
    requires x in bh && bh[x] == 0 && nodes[x].blackHeight == BLACK && BlackH(nodes, bh, Ref(c)) == 0
    requires nodes[i].left == Ref(x) || nodes[i].right == Ref(x)
    requires nodes[i].left.Ref? ==> nodes[i].left != nodes[i].right
    requires nodes1[i] == WithChild(nodes[i], nodes[i].left == Ref(x), Ref(c))
    requires forall j :: 0 <= j < |nodes| ==> nodes1[j].blackHeight == nodes[j].blackHeight
    requires var o := Child(nodes[i], nodes[i].left != Ref(x)); o.Ref? ==> o.i < |nodes| && o.i != c
    ensures ShortAt(nodes1, bh, Null, c, i)
  {
    var o := Child(nodes[i], nodes[i].left != Ref(x));
    KeptCount(nodes, bh, nodes1, bh, Null, o);
    KeptCount(nodes, bh, nodes1, bh, Null, Ref(c));
    ParentShort(nodes, bh, nodes1, bh, Null, x, c, i);
  }

  /**
   * removeForAtleastOneChild on a black leaf `x` (RedBlackTree.java:557-564):
   * the new black placeholder at index `|nodes|`, counted as no node, is one
   * black node short, and the red-black rules hold everywhere else.
   */
  lemma PlaceShort(nodes: seq<Node>, root: Ptr, sub: Subs, bh: Heights, x: nat)
    requires Wf(nodes, root, sub) && RedBlack(nodes, sub, bh) && IsLeaf(nodes, sub, x)
    requires nodes[x].blackHeight == BLACK
    ensures var n := |nodes|;
      ShortBy(MovedNodes(nodes + [Placeholder], nodes[x].parent, x, Ref(n)), PlacedSubs(sub, x, n), bh[n := 0], n, Ref(n))
  {
    var p, n := nodes[x].parent, |nodes|;
    var nodes1, sub1, bh1 := MovedNodes(nodes + [Placeholder], p, x, Ref(n)), PlacedSubs(sub, x, n), bh[n := 0];
    PlaceNodes(nodes, root, sub, x);
    forall i | i in sub1 ensures ShortAt(nodes1, bh1, Ref(n), n, i) {
      if i == n {
        assert nodes1[n] == Placeholder.(parent := p);
      } else {
        PlaceAt(nodes, root, sub, bh, x, i);
      }
    }
    forall i | i in sub1 && i != n ensures !RedRed(nodes1, i) {
      assert forall j :: 0 <= j < |nodes| ==> nodes1[j].blackHeight == nodes[j].blackHeight;
      Links(nodes, root, sub, i);
      NoRedRedAt(nodes, sub, Null, i);
    }
  }

  /** One node of PlaceShort's counting, other than the placeholder. */
  lemma PlaceAt(nodes: seq<Node>, root: Ptr, sub: Subs, bh: Heights, x: nat, i: nat)
    requires Wf(nodes, root, sub) && RedBlack(nodes, sub, bh) && IsLeaf(nodes, sub, x)
    requires nodes[x].blackHeight == BLACK && i in sub && i != x
    ensures var n := |nodes|;
      ShortAt(MovedNodes(nodes + [Placeholder], nodes[x].parent, x, Ref(n)), bh[n := 0], Ref(n), n, i)
  {
    var p, n := nodes[x].parent, |nodes|;
    var nodes1, bh1 := MovedNodes(nodes + [Placeholder], p, x, Ref(n)), bh[n := 0];
    assert Placed(nodes, nodes1, x, n) by {
      PlaceNodes(nodes, root, sub, x);
    }
    assert p.Ref? ==> p.i < |nodes| && (nodes[p.i].left == Ref(x) || nodes[p.i].right == Ref(x)) by {
      SpliceParent(nodes, root, sub, x);
    }
    assert forall j :: 0 <= j < |nodes| ==> nodes1[j].blackHeight == nodes[j].blackHeight;
    assert bh[x] == 0 by {
      BalancedAtX(nodes, sub, bh, x);
    }
    BalancedAtX(nodes, sub, bh, i);
    Links(nodes, root, sub, i);
    var l, r := nodes[i].left, nodes[i].right;
    assert l.Ref? ==> l.i < |nodes| && nodes[l.i].parent == Ref(i) && l.i in sub;
    assert r.Ref? ==> r.i < |nodes| && nodes[r.i].parent == Ref(i) && r.i in sub;
    if p == Ref(i) {
      ChildrenDiffer(nodes, root, sub, i);
      var o := Child(nodes[i], nodes[i].left != Ref(x));
      KeptCount(nodes, bh, nodes1, bh1, Ref(n), o);
      ParentShort(nodes, bh, nodes1, bh1, Ref(n), x, n, i);
    } else {
      KeptCount(nodes, bh, nodes1, bh1, Ref(n), l);
      KeptCount(nodes, bh, nodes1, bh1, Ref(n), r);
      KeptAt(nodes, bh, nodes1, bh1, Ref(n), n, i);
    }
  }

  /** Writing an element into a slot changes no link and no colour, so the invariant stays. */
  lemma ShortWithData(nodes: seq<Node>, sub: Subs, bh: Heights, y: nat, ph: Ptr, x: nat, d: Song)
    requires ShortBy(nodes, sub, bh, y, ph) && x < |nodes|
    ensures ShortBy(WithData(nodes, x, d), sub, bh, y, ph)
  {
    var nodes1 := WithData(nodes, x, d);
    forall i | i in sub ensures ShortAt(nodes1, bh, ph, y, i) {
      assert ShortAt(nodes, bh, ph, y, i);
      SameCount(nodes, bh, nodes1, bh, ph, nodes[i].left);
      SameCount(nodes, bh, nodes1, bh, ph, nodes[i].right);
    }
    forall i | i in sub && RedRed(nodes1, i) ensures Ref(i) == Ref(y) {
      assert RedRed(nodes, i);
    }
  }

  // ---------------------------------------------------------------------
  // The invariant with its counts left implicit, as the methods use it
  // ---------------------------------------------------------------------

  /** A node below the root whose subtree is one black node short, in the state the fix-up works in. */
  ghost predicate ShortBelowRoot(nodes: seq<Node>, root: Ptr, sub: Subs, x: nat, ph: Ptr) {
    FixOk(nodes, root, sub, ph) && Short(nodes, sub, x, ph) && x in sub && (ph.Ref? ==> ph.i in sub[x]) &&
    x < |nodes| && nodes[x].parent.Ref? && nodes[x].parent.i < |nodes|
  }

  /** getSiblingNode finds a node that is not the placeholder (RedBlackTree.java:575 and 579). */
  lemma SiblingPresent(nodes: seq<Node>, root: Ptr, sub: Subs, x: nat, ph: Ptr)
    requires ShortBelowRoot(nodes, root, sub, x, ph)
    ensures var p := nodes[x].parent.i; var s := Child(nodes[p], nodes[p].left != Ref(x));
      s.Ref? && s.i in sub && s.i < |nodes| && s != ph
  {
    var bh :| ShortBy(nodes, sub, bh, x, ph);
    ShortSibling(nodes, root, sub, bh, x, ph);
  }

  /**
   * None of the dereferences of a nephew next to a black one fails
   * (RedBlackTree.java:582-583, 602 and 609): a black nephew has a partner.
   */
  lemma NephewsPaired(nodes: seq<Node>, root: Ptr, sub: Subs, x: nat, ph: Ptr)
    requires ShortBelowRoot(nodes, root, sub, x, ph)
    ensures var p := nodes[x].parent.i; var s := Child(nodes[p], nodes[p].left != Ref(x));
      s.Ref? && s.i < |nodes| &&
      (IsBlack(nodes, nodes[s.i].left) || IsBlack(nodes, nodes[s.i].right) ==> nodes[s.i].left.Ref? && nodes[s.i].right.Ref?)
  {
    var bh :| ShortBy(nodes, sub, bh, x, ph);
    ShortNephews(nodes, root, sub, bh, x, ph);
  }

  /**
   * Colouring a black sibling with two black children red under a black
   * parent (RedBlackTree.java:584-588) moves the missing black node up to
   * the parent.
   */
  lemma RecolourClimbs(nodes: seq<Node>, root: Ptr, sub: Subs, x: nat, ph: Ptr)
    requires ShortBelowRoot(nodes, root, sub, x, ph)
    requires var p := nodes[x].parent.i; var s := Child(nodes[p], nodes[p].left != Ref(x));
      IsBlack(nodes, s) && IsBlack(nodes, nodes[s.i].left) && IsBlack(nodes, nodes[s.i].right) &&
      nodes[p].blackHeight != RED
    ensures var p := nodes[x].parent.i; var s := Child(nodes[p], nodes[p].left != Ref(x)).i;
      Short(SetColour(nodes, s, RED), sub, p, ph)
  {
    var bh :| ShortBy(nodes, sub, bh, x, ph);
    RecolourShort(nodes, root, sub, bh, x, ph);
  }

  /**
   * fixRedSibling (RedBlackTree.java:577-579, 658-669) keeps the subtree at `x` one
   * black node short and gives it a black sibling.
   */
  lemma RedSiblingStaysShort(nodes: seq<Node>, root: Ptr, sub: Subs, x: nat, ph: Ptr, nodes1: seq<Node>, root1: Ptr, sub1: Subs)
    requires ShortBelowRoot(nodes, root, sub, x, ph) && sub1.Keys == sub.Keys
    requires var p := nodes[x].parent.i; var side := nodes[p].left != Ref(x); var s := Child(nodes[p], side);
      IsRed(nodes, s) && IsRotation(SetColour(SetColour(nodes, s.i, BLACK), p, RED), root, nodes1, root1, p, s.i, side)
    ensures Short(nodes1, sub1, x, ph)
    ensures var p := nodes[x].parent.i;
      x < |nodes1| && nodes1[x] == nodes[x] && p < |nodes1| &&
      IsBlack(nodes1, Child(nodes1[p], nodes1[p].left != Ref(x)))
  {
    var bh :| ShortBy(nodes, sub, bh, x, ph);
    RedSiblingShort(nodes, root, sub, bh, x, ph, nodes1, root1, sub1);
  }
}
