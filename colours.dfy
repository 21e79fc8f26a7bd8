/**
 * The colour rules of the red-black tree and how the steps of the insert
 * fix-up (RedBlackTree.java, handleCase1-3) keep them.
 *
 * Java keeps the colour in the field `blackHeight`: 0 is red, 1 is black.
 * Equal black counts on all paths are stated with a ghost annotation `bh`
 * that gives, for every live node, the number of black nodes on each path
 * from one of its children down to null; `BlackH(p)` adds `p`'s own colour.
 */
module Colours {
  import opened Outcomes
  import opened Songs
  import opened Arena
  import opened Rotations
  import opened Linking

  type Heights = map<nat, int>

  /** `nodes` with the colour of `i` set to `c`. */
  function SetColour(nodes: seq<Node>, i: nat, c: int): (r: seq<Node>)
    ensures |r| == |nodes|
    ensures forall j :: 0 <= j < |nodes| && j != i ==> r[j] == nodes[j]
    ensures i < |nodes| ==> r[i] == nodes[i].(blackHeight := c)
  {
    if i < |nodes| then nodes[i := nodes[i].(blackHeight := c)] else nodes
  }

  /** Recolouring one node to red or black keeps the local conditions of every live node. */
  lemma SetColourLocal(nodes: seq<Node>, root: Ptr, sub: Subs, i: nat, c: int, j: nat)
    requires Wf(nodes, root, sub) && (c == RED || c == BLACK) && j in sub
    ensures LocalOk(SetColour(nodes, i, c), root, sub, j)
  {
    var nodes' := SetColour(nodes, i, c);
    Links(nodes, root, sub, j);
    Shape(nodes, root, sub, j);
    var N := nodes[j];
    if N.left.Ref? { Links(nodes, root, sub, N.left.i); }
    if N.right.Ref? { Links(nodes, root, sub, N.right.i); }
    if N.parent.Ref? { Links(nodes, root, sub, N.parent.i); }
    assert LinksOk(nodes', root, sub, j);
    assert forall k: nat :: DataAt(nodes', k) == DataAt(nodes, k);
    assert forall k: nat, l: nat :: Ordered(nodes', k, l) == Ordered(nodes, k, l);
  }

  /** Recolouring one node to red or black leaves the tree well formed. */
  lemma SetColourWf(nodes: seq<Node>, root: Ptr, sub: Subs, i: nat, c: int)
    requires Wf(nodes, root, sub) && (c == RED || c == BLACK)
    ensures Wf(SetColour(nodes, i, c), root, sub)
    ensures forall j :: DataAt(SetColour(nodes, i, c), j) == DataAt(nodes, j)
  {
    var nodes' := SetColour(nodes, i, c);
    forall j | j in sub ensures LocalOk(nodes', root, sub, j) {
      SetColourLocal(nodes, root, sub, i, c, j);
    }
    if root.Ref? { Links(nodes, root, sub, root.i); }
  }

  /** The black count of the paths below `p`, counting `p` itself (0 for null). */
  ghost function BlackH(nodes: seq<Node>, bh: Heights, p: Ptr): int {
    if p.Ref? && p.i < |nodes| && p.i in bh then bh[p.i] + nodes[p.i].blackHeight else 0
  }

  /** Both children of `i` have the black count that `bh` records for `i`. */
  ghost predicate BalancedAt(nodes: seq<Node>, bh: Heights, i: nat) {
    i < |nodes| && i in bh &&
    BlackH(nodes, bh, nodes[i].left) == bh[i] && BlackH(nodes, bh, nodes[i].right) == bh[i]
  }

  /** Every path from a node down to null has the same number of black nodes. */
  ghost predicate Balanced(nodes: seq<Node>, sub: Subs, bh: Heights) {
    bh.Keys == sub.Keys &&
    forall i {:trigger BalancedAt(nodes, bh, i)} :: i in sub ==> BalancedAt(nodes, bh, i)
  }

  /** `p` is a node coloured red. */
  predicate IsRed(nodes: seq<Node>, p: Ptr) {
    p.Ref? && p.i < |nodes| && nodes[p.i].blackHeight == RED
  }

  /** `p` is a node coloured black. */
  predicate IsBlack(nodes: seq<Node>, p: Ptr) {
    p.Ref? && p.i < |nodes| && nodes[p.i].blackHeight == BLACK
  }

  /** `i` is red and so is its parent. */
  ghost predicate RedRed(nodes: seq<Node>, i: nat) {
    i < |nodes| && IsRed(nodes, Ref(i)) && IsRed(nodes, nodes[i].parent)
  }

  /** No live node other than `v` is a red child of a red parent (none at all when `v` is null). */
  ghost predicate RedRedOnly(nodes: seq<Node>, sub: Subs, v: Ptr) {
    forall i {:trigger RedRed(nodes, i)} :: i in sub && RedRed(nodes, i) ==> Ref(i) == v
  }

  /** A red child of a red parent occurs only right below the root. */
  ghost predicate RedRedBelowRoot(nodes: seq<Node>, root: Ptr, sub: Subs) {
    forall i {:trigger RedRed(nodes, i)} :: i in sub && RedRed(nodes, i) ==> nodes[i].parent == root
  }

  /** The red-black rules: equal black counts, and no red node with a red parent. */
  ghost predicate RedBlack(nodes: seq<Node>, sub: Subs, bh: Heights) {
    Balanced(nodes, sub, bh) && RedRedOnly(nodes, sub, Null)
  }

  /**
   * What enforceRBTreePropertiesAfterInsert may assume of its argument `y`:
   * the only red-red pair is at `y`; or `y` is black and the only pair is at
   * its parent; or `y` is the root and the pairs are right below it.
   */
  ghost predicate InsertFixPre(nodes: seq<Node>, root: Ptr, sub: Subs, bh: Heights, y: Ptr) {
    Balanced(nodes, sub, bh) &&
    (RedRedOnly(nodes, sub, y) ||
     (y.Ref? && y.i < |nodes| && nodes[y.i].blackHeight == BLACK && RedRedOnly(nodes, sub, nodes[y.i].parent)) ||
     (y.Ref? && y.i < |nodes| && nodes[y.i].parent.Null? && RedRedBelowRoot(nodes, root, sub)))
  }

  // ---------------------------------------------------------------------
  // Facts read off a well-formed, balanced tree
  // ---------------------------------------------------------------------

  lemma BalancedAtX(nodes: seq<Node>, sub: Subs, bh: Heights, i: nat)
    requires Balanced(nodes, sub, bh) && i in sub
    ensures BalancedAt(nodes, bh, i)
  {
  }

  lemma NoRedRedAt(nodes: seq<Node>, sub: Subs, v: Ptr, i: nat)
    requires RedRedOnly(nodes, sub, v) && i in sub && Ref(i) != v
    ensures !RedRed(nodes, i)
  {
  }

  /** Every live node is red or black. */
  lemma Colour(nodes: seq<Node>, root: Ptr, sub: Subs, i: nat)
    requires Wf(nodes, root, sub) && i in sub
    ensures i < |nodes| && (nodes[i].blackHeight == RED || nodes[i].blackHeight == BLACK)
  {
    Shape(nodes, root, sub, i);
  }

  // ---------------------------------------------------------------------
  // Linking the new red leaf
  // ---------------------------------------------------------------------

  lemma LinkColoursAt(nodes: seq<Node>, root: Ptr, sub: Subs, nodes': seq<Node>, t: nat, d: Song, left: bool, bh: Heights, i: nat)
    requires LinkCase(nodes, root, sub, nodes', t, d, left) && RedBlack(nodes, sub, bh)
    requires i in sub || i == |nodes|
    ensures BalancedAt(nodes', bh[|nodes| := 0], i)
    ensures RedRed(nodes', i) ==> i == |nodes|
  {
    var n := |nodes|;
    var bh' := bh[n := 0];
    LiveBelow(nodes, root, sub);
    if i != n {
      Links(nodes, root, sub, i);
      Colour(nodes, root, sub, i);
      BalancedAtX(nodes, sub, bh, i);
      var N := nodes[i];
      assert nodes'[i].left == N.left || (i == t && left && nodes'[i].left == Ref(n) && N.left == Null);
      assert nodes'[i].right == N.right || (i == t && !left && nodes'[i].right == Ref(n) && N.right == Null);
      assert nodes'[i].parent == N.parent && nodes'[i].blackHeight == N.blackHeight;
      if N.left.Ref? {
        assert N.left.i < n && nodes'[N.left.i].blackHeight == nodes[N.left.i].blackHeight;
      }
      if N.right.Ref? {
        assert N.right.i < n && nodes'[N.right.i].blackHeight == nodes[N.right.i].blackHeight;
      }
      if N.parent.Ref? {
        assert N.parent.i < n && nodes'[N.parent.i].blackHeight == nodes[N.parent.i].blackHeight;
        NoRedRedAt(nodes, sub, Null, i);
      }
    }
  }

  /**
   * Linking a red leaf below a node of a red-black tree keeps the black
   * counts (a red leaf adds none) and can create a red-red pair only at the
   * new leaf.
   */
  lemma LinkColours(nodes: seq<Node>, root: Ptr, sub: Subs, nodes': seq<Node>, t: nat, d: Song, left: bool, bh: Heights)
    requires LinkCase(nodes, root, sub, nodes', t, d, left) && RedBlack(nodes, sub, bh)
    ensures var sub' := LinkedSubs(sub, t, |nodes|, left);
      Balanced(nodes', sub', bh[|nodes| := 0]) && RedRedOnly(nodes', sub', Ref(|nodes|))
  {
    var n := |nodes|;
    var sub' := LinkedSubs(sub, t, n, left);
    forall i | i in sub' ensures BalancedAt(nodes', bh[n := 0], i) && (RedRed(nodes', i) ==> i == n) {
      LinkColoursAt(nodes, root, sub, nodes', t, d, left, bh, i);
    }
  }

  // ---------------------------------------------------------------------
  // propertiesHelper: the red-red pair at `x`
  // ---------------------------------------------------------------------

  /** The sibling of `q` below `g`: Java's `uncle` of a child of `q`. */
  function Uncle(nodes: seq<Node>, g: nat, q: nat): Ptr
    requires g < |nodes|
  {
    if nodes[g].left == Ref(q) then nodes[g].right else nodes[g].left
  }

  /**
   * The situation propertiesHelper repairs: `x` is red under a red parent
   * that is not the root, no other red-red pair exists, and the black
   * counts agree.
   */
  ghost predicate Violation(nodes: seq<Node>, root: Ptr, sub: Subs, bh: Heights, x: nat) {
    Wf(nodes, root, sub) && Balanced(nodes, sub, bh) && x in sub &&
    RedRedOnly(nodes, sub, Ref(x)) && RedRed(nodes, x) &&
    nodes[nodes[x].parent.i].parent.Ref? &&
    nodes[nodes[x].parent.i].parent.i < |nodes| && nodes[nodes[x].parent.i].parent.i in sub
  }

  /** The nodes around a red-red pair, and what the colour rules say about them. */
  lemma ViolationFacts(nodes: seq<Node>, root: Ptr, sub: Subs, bh: Heights, x: nat)
    requires Violation(nodes, root, sub, bh, x)
    ensures var q := nodes[x].parent.i; var g := nodes[q].parent.i; var u := Uncle(nodes, g, q);
      q in sub && g in sub && q < |nodes| && g < |nodes| &&
      x != q && x != g && q != g &&
      (nodes[q].left == Ref(x) || nodes[q].right == Ref(x)) &&
      (nodes[g].left == Ref(q) || nodes[g].right == Ref(q)) &&
      nodes[x].blackHeight == RED && nodes[q].blackHeight == RED && nodes[g].blackHeight == BLACK &&
      bh[x] == bh[q] == bh[g] &&
      (u.Ref? ==> u.i in sub && u.i < |nodes| && nodes[u.i].parent == Ref(g) && u.i != q && u.i != g && u.i != x &&
                  (nodes[u.i].blackHeight == RED || nodes[u.i].blackHeight == BLACK)) &&
      BlackH(nodes, bh, u) == bh[g]
  {
    var q := nodes[x].parent.i;
    Links(nodes, root, sub, x);
    Links(nodes, root, sub, q);
    var g := nodes[q].parent.i;
    Links(nodes, root, sub, g);
    Colour(nodes, root, sub, g);
    if nodes[q].left == Ref(x) { ChildShorter(nodes, root, sub, q, true); } else { ChildShorter(nodes, root, sub, q, false); }
    if nodes[g].left == Ref(q) { ChildShorter(nodes, root, sub, g, true); } else { ChildShorter(nodes, root, sub, g, false); }
    NoRedRedAt(nodes, sub, Ref(x), q);
    BalancedAtX(nodes, sub, bh, q);
    BalancedAtX(nodes, sub, bh, g);
    ListAt(nodes, root, sub, q);
    ListAt(nodes, root, sub, g);
    Shape(nodes, root, sub, g);
    var u := Uncle(nodes, g, q);
    if u.Ref? {
      Links(nodes, root, sub, u.i);
      Colour(nodes, root, sub, u.i);
      ListAt(nodes, root, sub, u.i);
      if nodes[g].left == Ref(q) {
        ChildShorter(nodes, root, sub, g, false);
        assert u.i in SubOf(sub, nodes[g].right) && q in SubOf(sub, nodes[g].left);
      } else {
        ChildShorter(nodes, root, sub, g, true);
        assert u.i in SubOf(sub, nodes[g].left) && q in SubOf(sub, nodes[g].right);
      }
    }
  }

  /** The tree after handleCase3: grandparent red, parent and uncle black. */
  ghost function Case3Nodes(nodes: seq<Node>, x: nat): seq<Node>
    requires x < |nodes| && nodes[x].parent.Ref? && nodes[x].parent.i < |nodes|
    requires nodes[nodes[x].parent.i].parent.Ref? && nodes[nodes[x].parent.i].parent.i < |nodes|
  {
    var q := nodes[x].parent.i;
    var g := nodes[q].parent.i;
    var u := Uncle(nodes, g, q);
    SetColour(SetColour(SetColour(nodes, g, RED), q, BLACK), if u.Ref? then u.i else g, BLACK)
  }

  /** What Case3Nodes changes: three colours and nothing else. */
  lemma Case3NodesAre(nodes: seq<Node>, root: Ptr, sub: Subs, bh: Heights, x: nat)
    requires Violation(nodes, root, sub, bh, x)
    requires IsRed(nodes, Uncle(nodes, nodes[nodes[x].parent.i].parent.i, nodes[x].parent.i))
    ensures var q := nodes[x].parent.i; var g := nodes[q].parent.i; var u := Uncle(nodes, g, q).i;
      var nodes' := Case3Nodes(nodes, x);
      |nodes'| == |nodes| &&
      nodes'[g] == nodes[g].(blackHeight := RED) &&
      nodes'[q] == nodes[q].(blackHeight := BLACK) &&
      nodes'[u] == nodes[u].(blackHeight := BLACK) &&
      forall j :: 0 <= j < |nodes| && j != g && j != q && j != u ==> nodes'[j] == nodes[j]
  {
    ViolationFacts(nodes, root, sub, bh, x);
  }

  lemma Case3BalancedAt(nodes: seq<Node>, root: Ptr, sub: Subs, bh: Heights, x: nat, i: nat)
    requires Violation(nodes, root, sub, bh, x)
    requires IsRed(nodes, Uncle(nodes, nodes[nodes[x].parent.i].parent.i, nodes[x].parent.i))
    requires i in sub
    ensures var g := nodes[nodes[x].parent.i].parent.i;
      BalancedAt(Case3Nodes(nodes, x), bh[g := bh[g] + 1], i)
  {
    ViolationFacts(nodes, root, sub, bh, x);
    Case3NodesAre(nodes, root, sub, bh, x);
    var q := nodes[x].parent.i;
    var g := nodes[q].parent.i;
    var u := Uncle(nodes, g, q).i;
    var nodes' := Case3Nodes(nodes, x);
    var bh' := bh[g := bh[g] + 1];
    Links(nodes, root, sub, i);
    BalancedAtX(nodes, sub, bh, i);
    var N := nodes[i];
    assert nodes'[i].left == N.left && nodes'[i].right == N.right;
    forall c: Ptr | c == N.left || c == N.right
      ensures BlackH(nodes', bh', c) == BlackH(nodes, bh, c) + (if i == g then 1 else 0)
    {
      if c.Ref? {
        Links(nodes, root, sub, c.i);
        if i == g {
          assert c == Ref(q) || c == Ref(u);
        } else {
          assert c.i != q && c.i != u;
        }
      }
    }
  }

  lemma Case3RedAt(nodes: seq<Node>, root: Ptr, sub: Subs, bh: Heights, x: nat, i: nat)
    requires Violation(nodes, root, sub, bh, x)
    requires IsRed(nodes, Uncle(nodes, nodes[nodes[x].parent.i].parent.i, nodes[x].parent.i))
    requires i in sub
    ensures RedRed(Case3Nodes(nodes, x), i) ==> i == nodes[nodes[x].parent.i].parent.i
  {
    ViolationFacts(nodes, root, sub, bh, x);
    Case3NodesAre(nodes, root, sub, bh, x);
    var q := nodes[x].parent.i;
    var g := nodes[q].parent.i;
    var u := Uncle(nodes, g, q).i;
    var nodes' := Case3Nodes(nodes, x);
    if RedRed(nodes', i) && i != g {
      Links(nodes, root, sub, i);
      assert i != q && i != u;
      var P := nodes[i].parent.i;
      Links(nodes, root, sub, P);
      assert P != q && P != u;
      if P == g {
        assert false;
      }
      assert RedRed(nodes, i);
      assert false;
    }
  }

  /**
   * handleCase3 (red uncle): recolouring grandparent red and parent and
   * uncle black keeps the black counts, with the grandparent one higher, and
   * moves the only possible red-red pair up to the grandparent.
   */
  lemma Case3Colours(nodes: seq<Node>, root: Ptr, sub: Subs, bh: Heights, x: nat)
    requires Violation(nodes, root, sub, bh, x)
    requires IsRed(nodes, Uncle(nodes, nodes[nodes[x].parent.i].parent.i, nodes[x].parent.i))
    ensures var g := nodes[nodes[x].parent.i].parent.i;
      Balanced(Case3Nodes(nodes, x), sub, bh[g := bh[g] + 1]) &&
      RedRedOnly(Case3Nodes(nodes, x), sub, Ref(g))
  {
    var g := nodes[nodes[x].parent.i].parent.i;
    ViolationFacts(nodes, root, sub, bh, x);
    var bh', n' := bh[g := bh[g] + 1], Case3Nodes(nodes, x);
    assert g in bh && bh'.Keys == bh.Keys;
    forall i | i in sub ensures BalancedAt(n', bh', i) {
      Case3BalancedAt(nodes, root, sub, bh, x, i);
    }
    assert Balanced(n', sub, bh');
    forall i | i in sub && RedRed(n', i) ensures Ref(i) == Ref(g) {
      Case3RedAt(nodes, root, sub, bh, x, i);
    }
  }

  /** handleCase1's recolouring after its rotation: `q` black, `g` red. */
  function Case1Nodes(nodes1: seq<Node>, q: nat, g: nat): seq<Node> {
    SetColour(SetColour(nodes1, q, BLACK), g, RED)
  }

  /**
   * handleCase1's situation: the uncle is not red, `x` is the outer child
   * of `q`, and `nodes1` is the tree after rotating `q` up over `g`.
   */
  ghost predicate Case1Pre(nodes: seq<Node>, root: Ptr, sub: Subs, bh: Heights, x: nat) {
    Violation(nodes, root, sub, bh, x) &&
    var q := nodes[x].parent.i;
    var g := nodes[q].parent.i;
    !IsRed(nodes, Uncle(nodes, g, q)) &&
    Child(nodes[q], nodes[g].left == Ref(q)) == Ref(x)
  }

  ghost predicate Case1Step(nodes: seq<Node>, root: Ptr, sub: Subs, bh: Heights, x: nat, nodes1: seq<Node>, root1: Ptr) {
    Violation(nodes, root, sub, bh, x) &&
    var q := nodes[x].parent.i;
    var g := nodes[q].parent.i;
    var side := nodes[g].left == Ref(q);
    !IsRed(nodes, Uncle(nodes, g, q)) &&
    Child(nodes[q], side) == Ref(x) &&
    IsRotation(nodes, root, nodes1, root1, g, q, side)
  }

  /** The nodes handleCase1 changes, and how. */
  lemma Case1Shape(nodes: seq<Node>, root: Ptr, sub: Subs, bh: Heights, x: nat, nodes1: seq<Node>, root1: Ptr)
    requires Case1Step(nodes, root, sub, bh, x, nodes1, root1)
    ensures var q := nodes[x].parent.i; var g := nodes[q].parent.i;
      var side := nodes[g].left == Ref(q);
      var b, u, gg := Child(nodes[q], !side), Child(nodes[g], !side), nodes[g].parent;
      var nodes2 := Case1Nodes(nodes1, q, g);
      q in sub && g in sub && q < |nodes| && g < |nodes| && x != q && x != g && q != g &&
      |nodes2| == |nodes| &&
      nodes2[q] == WithChild(nodes[q], !side, Ref(g)).(parent := gg, blackHeight := BLACK) &&
      nodes2[g] == WithChild(nodes[g], side, b).(parent := Ref(q), blackHeight := RED) &&
      (b.Ref? ==>
        b.i in sub && b.i < |nodes| && b.i != x && b.i != q && b.i != g &&
        nodes2[b.i] == nodes[b.i].(parent := Ref(g)) && nodes[b.i].parent == Ref(q)) &&
      (u.Ref? ==>
        u.i in sub && u.i < |nodes| && u.i != x && u.i != q && u.i != g && u != b &&
        nodes2[u.i] == nodes[u.i] && nodes[u.i].parent == Ref(g)) &&
      (gg.Ref? ==>
        gg.i in sub && gg.i < |nodes| && gg.i != x && gg != b && gg != u && gg.i != q && gg.i != g &&
        nodes2[gg.i] == (if nodes[gg.i].left == Ref(g) then nodes[gg.i].(left := Ref(q)) else nodes[gg.i].(right := Ref(q))) &&
        (nodes[gg.i].left == Ref(g) || nodes[gg.i].right == Ref(g))) &&
      nodes2[x] == nodes[x] &&
      (forall j :: 0 <= j < |nodes| && j != q && j != g && Ref(j) != b && Ref(j) != gg ==> nodes2[j] == nodes[j])
  {
    ViolationFacts(nodes, root, sub, bh, x);
    var q := nodes[x].parent.i;
    var g := nodes[q].parent.i;
    var side := nodes[g].left == Ref(q);
    RotationDistinct(nodes, root, sub, g, q, side);
    Links(nodes, root, sub, g);
    Links(nodes, root, sub, q);
    var b, gg := Child(nodes[q], !side), nodes[g].parent;
    if gg.Ref? {
      Links(nodes, root, sub, gg.i);
    }
  }

  /** The colours and black counts around the pair before handleCase1. */
  lemma Case1Heights(nodes: seq<Node>, root: Ptr, sub: Subs, bh: Heights, x: nat, nodes1: seq<Node>, root1: Ptr)
    requires Case1Step(nodes, root, sub, bh, x, nodes1, root1)
    ensures var q := nodes[x].parent.i; var g := nodes[q].parent.i;
      var side := nodes[g].left == Ref(q);
      var b, u := Child(nodes[q], !side), Child(nodes[g], !side);
      (b.Ref? ==> b.i < |nodes| && nodes[b.i].blackHeight == BLACK) &&
      (u.Ref? ==> u.i < |nodes| && nodes[u.i].blackHeight == BLACK) &&
      BlackH(nodes, bh, b) == bh[g] && BlackH(nodes, bh, u) == bh[g] && BlackH(nodes, bh, Ref(x)) == bh[g]
  {
    ViolationFacts(nodes, root, sub, bh, x);
    var q := nodes[x].parent.i;
    var g := nodes[q].parent.i;
    var side := nodes[g].left == Ref(q);
    BalancedAtX(nodes, sub, bh, q);
    var b := Child(nodes[q], !side);
    if b.Ref? {
      Links(nodes, root, sub, q);
      Colour(nodes, root, sub, b.i);
      Links(nodes, root, sub, b.i);
      ListAt(nodes, root, sub, q);
      ListAt(nodes, root, sub, b.i);
      Shape(nodes, root, sub, q);
      assert b.i != x;
      NoRedRedAt(nodes, sub, Ref(x), b.i);
    }
  }

  lemma Case1BalancedAtTop(nodes: seq<Node>, root: Ptr, sub: Subs, bh: Heights, x: nat, nodes1: seq<Node>, root1: Ptr)
    requires Case1Step(nodes, root, sub, bh, x, nodes1, root1)
    ensures var q := nodes[x].parent.i; var g := nodes[q].parent.i;
      BalancedAt(Case1Nodes(nodes1, q, g), bh, q) && BalancedAt(Case1Nodes(nodes1, q, g), bh, g)
  {
    ViolationFacts(nodes, root, sub, bh, x);
    Case1Shape(nodes, root, sub, bh, x, nodes1, root1);
    Case1Heights(nodes, root, sub, bh, x, nodes1, root1);
    var q := nodes[x].parent.i;
    var g := nodes[q].parent.i;
    var side := nodes[g].left == Ref(q);
    var b := Child(nodes[q], !side);
    var nodes2 := Case1Nodes(nodes1, q, g);
    assert Child(nodes2[q], side) == Ref(x) && Child(nodes2[q], !side) == Ref(g);
    assert Child(nodes2[g], side) == b && Child(nodes2[g], !side) == Child(nodes[g], !side);
  }

  lemma Case1BalancedAtAbove(nodes: seq<Node>, root: Ptr, sub: Subs, bh: Heights, x: nat, nodes1: seq<Node>, root1: Ptr)
    requires Case1Step(nodes, root, sub, bh, x, nodes1, root1)
    requires nodes[nodes[nodes[x].parent.i].parent.i].parent.Ref?
    ensures var q := nodes[x].parent.i; var g := nodes[q].parent.i;
      BalancedAt(Case1Nodes(nodes1, q, g), bh, nodes[g].parent.i)
  {
    ViolationFacts(nodes, root, sub, bh, x);
    Case1Shape(nodes, root, sub, bh, x, nodes1, root1);
    var q := nodes[x].parent.i;
    var g := nodes[q].parent.i;
    var side := nodes[g].left == Ref(q);
    var b, u, i := Child(nodes[q], !side), Child(nodes[g], !side), nodes[g].parent.i;
    var nodes2 := Case1Nodes(nodes1, q, g);
    BalancedAtX(nodes, sub, bh, i);
    Links(nodes, root, sub, i);
    assert BlackH(nodes2, bh, Ref(q)) == BlackH(nodes, bh, Ref(g));
    var o := if nodes[i].left == Ref(g) then nodes[i].right else nodes[i].left;
    if o.Ref? {
      Links(nodes, root, sub, o.i);
      Shape(nodes, root, sub, i);
      ListAt(nodes, root, sub, o.i);
      ListAt(nodes, root, sub, g);
      assert o.i != g && o.i != q && o != b && o != Ref(i);
      assert nodes2[o.i] == nodes[o.i];
    }
  }

  lemma Case1BalancedElsewhere(nodes: seq<Node>, root: Ptr, sub: Subs, bh: Heights, x: nat, nodes1: seq<Node>, root1: Ptr, i: nat)
    requires Case1Step(nodes, root, sub, bh, x, nodes1, root1)
    requires i in sub && i != nodes[x].parent.i && i != nodes[nodes[x].parent.i].parent.i
    requires nodes[nodes[nodes[x].parent.i].parent.i].parent != Ref(i)
    ensures BalancedAt(Case1Nodes(nodes1, nodes[x].parent.i, nodes[nodes[x].parent.i].parent.i), bh, i)
  {
    Case1Shape(nodes, root, sub, bh, x, nodes1, root1);
    var q := nodes[x].parent.i;
    var g := nodes[q].parent.i;
    var nodes2 := Case1Nodes(nodes1, q, g);
    Links(nodes, root, sub, i);
    BalancedAtX(nodes, sub, bh, i);
    var N := nodes[i];
    assert nodes2[i].left == N.left && nodes2[i].right == N.right;
    forall c: Ptr | c == N.left || c == N.right
      ensures BlackH(nodes2, bh, c) == BlackH(nodes, bh, c)
    {
      if c.Ref? {
        Links(nodes, root, sub, c.i);
        assert c.i != q && c.i != g;
        assert nodes2[c.i].blackHeight == nodes[c.i].blackHeight;
      }
    }
  }

  lemma Case1RedAt(nodes: seq<Node>, root: Ptr, sub: Subs, bh: Heights, x: nat, nodes1: seq<Node>, root1: Ptr, i: nat)
    requires Case1Step(nodes, root, sub, bh, x, nodes1, root1)
    requires i in sub
    ensures !RedRed(Case1Nodes(nodes1, nodes[x].parent.i, nodes[nodes[x].parent.i].parent.i), i)
  {
    ViolationFacts(nodes, root, sub, bh, x);
    Case1Shape(nodes, root, sub, bh, x, nodes1, root1);
    Case1Heights(nodes, root, sub, bh, x, nodes1, root1);
    var q := nodes[x].parent.i;
    var g := nodes[q].parent.i;
    var side := nodes[g].left == Ref(q);
    var b, u, gg := Child(nodes[q], !side), Child(nodes[g], !side), nodes[g].parent;
    var nodes2 := Case1Nodes(nodes1, q, g);
    if i != q && i != g && i != x && Ref(i) != b && Ref(i) != u {
      Links(nodes, root, sub, i);
      assert nodes2[i].parent == nodes[i].parent && nodes2[i].blackHeight == nodes[i].blackHeight;
      if nodes[i].parent.Ref? {
        var P := nodes[i].parent.i;
        Links(nodes, root, sub, P);
        assert P != q && P != g;
        if Ref(P) == b || Ref(P) == gg {
          assert nodes2[P].blackHeight == nodes[P].blackHeight;
        }
        NoRedRedAt(nodes, sub, Ref(x), i);
      }
    }
  }

  /**
   * handleCase1 (uncle not red, `x` on the outer side): after rotating `q`
   * up over `g` and recolouring them, the black counts are unchanged and no
   * red-red pair is left.
   */
  lemma Case1Colours(nodes: seq<Node>, root: Ptr, sub: Subs, bh: Heights, x: nat, nodes1: seq<Node>, root1: Ptr)
    requires Case1Step(nodes, root, sub, bh, x, nodes1, root1)
    ensures var q := nodes[x].parent.i; var g := nodes[q].parent.i;
      var sub1 := RotatedSubs(nodes1, sub, g, q);
      Balanced(Case1Nodes(nodes1, q, g), sub1, bh) && RedRedOnly(Case1Nodes(nodes1, q, g), sub1, Null)
  {
    var q := nodes[x].parent.i;
    var g := nodes[q].parent.i;
    var side := nodes[g].left == Ref(q);
    ViolationFacts(nodes, root, sub, bh, x);
    RotationLists(nodes, root, sub, nodes1, root1, g, q, side);
    var sub1 := RotatedSubs(nodes1, sub, g, q);
    forall i | i in sub1 ensures BalancedAt(Case1Nodes(nodes1, q, g), bh, i) && !RedRed(Case1Nodes(nodes1, q, g), i) {
      if i == q || i == g {
        Case1BalancedAtTop(nodes, root, sub, bh, x, nodes1, root1);
      } else if nodes[g].parent == Ref(i) {
        Case1BalancedAtAbove(nodes, root, sub, bh, x, nodes1, root1);
      } else {
        Case1BalancedElsewhere(nodes, root, sub, bh, x, nodes1, root1, i);
      }
      Case1RedAt(nodes, root, sub, bh, x, nodes1, root1, i);
    }
  }

  /**
   * handleCase2's situation: the uncle is not red, `x` is the inner child
   * of `q`, and `nodes1` is the tree after rotating `x` up over `q`.
   */
  ghost predicate Case2Pre(nodes: seq<Node>, root: Ptr, sub: Subs, bh: Heights, x: nat) {
    Violation(nodes, root, sub, bh, x) &&
    var q := nodes[x].parent.i;
    var g := nodes[q].parent.i;
    !IsRed(nodes, Uncle(nodes, g, q)) &&
    Child(nodes[q], nodes[g].left != Ref(q)) == Ref(x)
  }

  ghost predicate Case2Step(nodes: seq<Node>, root: Ptr, sub: Subs, bh: Heights, x: nat, nodes1: seq<Node>, root1: Ptr) {
    Violation(nodes, root, sub, bh, x) &&
    var q := nodes[x].parent.i;
    var g := nodes[q].parent.i;
    var side := nodes[g].left == Ref(q);
    !IsRed(nodes, Uncle(nodes, g, q)) &&
    Child(nodes[q], !side) == Ref(x) &&
    IsRotation(nodes, root, nodes1, root1, q, x, !side)
  }

  /** The nodes the first rotation of handleCase2 changes, and how. */
  lemma Case2Shape(nodes: seq<Node>, root: Ptr, sub: Subs, bh: Heights, x: nat, nodes1: seq<Node>, root1: Ptr)
    requires Case2Step(nodes, root, sub, bh, x, nodes1, root1)
    ensures var q := nodes[x].parent.i; var g := nodes[q].parent.i;
      var side := nodes[g].left == Ref(q);
      var b, e, o := Child(nodes[x], side), Child(nodes[x], !side), Child(nodes[q], side);
      q in sub && g in sub && q < |nodes| && g < |nodes| && x != q && x != g && q != g &&
      |nodes1| == |nodes| &&
      nodes1[x] == WithChild(nodes[x], side, Ref(q)).(parent := Ref(g)) &&
      nodes1[q] == WithChild(nodes[q], !side, b).(parent := Ref(x)) &&
      nodes1[g] == (if side then nodes[g].(left := Ref(x)) else nodes[g].(right := Ref(x))) &&
      (b.Ref? ==>
        b.i in sub && b.i < |nodes| && b.i != x && b.i != q && b.i != g &&
        nodes1[b.i] == nodes[b.i].(parent := Ref(q)) && nodes[b.i].parent == Ref(x)) &&
      (e.Ref? ==>
        e.i in sub && e.i < |nodes| && e.i != x && e.i != q && e.i != g && e != b &&
        nodes1[e.i] == nodes[e.i] && nodes[e.i].parent == Ref(x)) &&
      (o.Ref? ==>
        o.i in sub && o.i < |nodes| && o.i != x && o.i != q && o.i != g && o != b && o != e &&
        nodes1[o.i] == nodes[o.i] && nodes[o.i].parent == Ref(q)) &&
      (forall j :: 0 <= j < |nodes| && j != q && j != x && j != g && Ref(j) != b ==> nodes1[j] == nodes[j])
  {
    ViolationFacts(nodes, root, sub, bh, x);
    var q := nodes[x].parent.i;
    var g := nodes[q].parent.i;
    var side := nodes[g].left == Ref(q);
    RotationDistinct(nodes, root, sub, q, x, !side);
    Links(nodes, root, sub, x);
    Links(nodes, root, sub, q);
    var b, e, o := Child(nodes[x], side), Child(nodes[x], !side), Child(nodes[q], side);
    if b.Ref? { Links(nodes, root, sub, b.i); }
    if e.Ref? { Links(nodes, root, sub, e.i); }
    if o.Ref? { Links(nodes, root, sub, o.i); }
  }

  /** The children of `x` and the sibling of `x` are black (or null), with the black count of `q`. */
  lemma Case2Heights(nodes: seq<Node>, root: Ptr, sub: Subs, bh: Heights, x: nat, nodes1: seq<Node>, root1: Ptr)
    requires Case2Step(nodes, root, sub, bh, x, nodes1, root1)
    ensures var q := nodes[x].parent.i; var g := nodes[q].parent.i;
      var side := nodes[g].left == Ref(q);
      var b, e, o := Child(nodes[x], side), Child(nodes[x], !side), Child(nodes[q], side);
      (b.Ref? ==> b.i < |nodes| && nodes[b.i].blackHeight == BLACK) &&
      (e.Ref? ==> e.i < |nodes| && nodes[e.i].blackHeight == BLACK) &&
      (o.Ref? ==> o.i < |nodes| && nodes[o.i].blackHeight == BLACK) &&
      BlackH(nodes, bh, b) == bh[g] && BlackH(nodes, bh, e) == bh[g] && BlackH(nodes, bh, o) == bh[g]
  {
    ViolationFacts(nodes, root, sub, bh, x);
    Case2Shape(nodes, root, sub, bh, x, nodes1, root1);
    var q := nodes[x].parent.i;
    var g := nodes[q].parent.i;
    var side := nodes[g].left == Ref(q);
    BalancedAtX(nodes, sub, bh, q);
    BalancedAtX(nodes, sub, bh, x);
    var b, e, o := Child(nodes[x], side), Child(nodes[x], !side), Child(nodes[q], side);
    if b.Ref? { Colour(nodes, root, sub, b.i); NoRedRedAt(nodes, sub, Ref(x), b.i); }
    if e.Ref? { Colour(nodes, root, sub, e.i); NoRedRedAt(nodes, sub, Ref(x), e.i); }
    if o.Ref? { Colour(nodes, root, sub, o.i); NoRedRedAt(nodes, sub, Ref(x), o.i); }
  }

  lemma Case2BalancedAtTop(nodes: seq<Node>, root: Ptr, sub: Subs, bh: Heights, x: nat, nodes1: seq<Node>, root1: Ptr)
    requires Case2Step(nodes, root, sub, bh, x, nodes1, root1)
    ensures var q := nodes[x].parent.i; var g := nodes[q].parent.i;
      BalancedAt(nodes1, bh, x) && BalancedAt(nodes1, bh, q) && BalancedAt(nodes1, bh, g)
  {
    ViolationFacts(nodes, root, sub, bh, x);
    Case2Shape(nodes, root, sub, bh, x, nodes1, root1);
    Case2Heights(nodes, root, sub, bh, x, nodes1, root1);
    var q := nodes[x].parent.i;
    var g := nodes[q].parent.i;
    var side := nodes[g].left == Ref(q);
    var b, e, o := Child(nodes[x], side), Child(nodes[x], !side), Child(nodes[q], side);
    assert Child(nodes1[x], side) == Ref(q) && Child(nodes1[x], !side) == e;
    assert Child(nodes1[q], !side) == b && Child(nodes1[q], side) == o;
    BalancedAtX(nodes, sub, bh, g);
    var u := Uncle(nodes, g, q);
    assert Child(nodes1[g], side) == Ref(x) && Child(nodes1[g], !side) == u;
    if u.Ref? { assert nodes1[u.i] == nodes[u.i]; }
  }

  lemma Case2BalancedElsewhere(nodes: seq<Node>, root: Ptr, sub: Subs, bh: Heights, x: nat, nodes1: seq<Node>, root1: Ptr, i: nat)
    requires Case2Step(nodes, root, sub, bh, x, nodes1, root1)
    requires i in sub && i != x && i != nodes[x].parent.i && i != nodes[nodes[x].parent.i].parent.i
    ensures BalancedAt(nodes1, bh, i)
  {
    Case2Shape(nodes, root, sub, bh, x, nodes1, root1);
    var q := nodes[x].parent.i;
    var g := nodes[q].parent.i;
    Links(nodes, root, sub, i);
    BalancedAtX(nodes, sub, bh, i);
    var N := nodes[i];
    assert nodes1[i].left == N.left && nodes1[i].right == N.right;
    forall c: Ptr | c == N.left || c == N.right
      ensures BlackH(nodes1, bh, c) == BlackH(nodes, bh, c)
    {
      if c.Ref? {
        Links(nodes, root, sub, c.i);
        assert c.i != q && c.i != x;
        assert nodes1[c.i].blackHeight == nodes[c.i].blackHeight;
      }
    }
  }

  lemma Case2RedAt(nodes: seq<Node>, root: Ptr, sub: Subs, bh: Heights, x: nat, nodes1: seq<Node>, root1: Ptr, i: nat)
    requires Case2Step(nodes, root, sub, bh, x, nodes1, root1)
    requires i in sub
    ensures RedRed(nodes1, i) ==> i == nodes[x].parent.i
  {
    ViolationFacts(nodes, root, sub, bh, x);
    Case2Shape(nodes, root, sub, bh, x, nodes1, root1);
    Case2Heights(nodes, root, sub, bh, x, nodes1, root1);
    var q := nodes[x].parent.i;
    var g := nodes[q].parent.i;
    var side := nodes[g].left == Ref(q);
    var b, e, o := Child(nodes[x], side), Child(nodes[x], !side), Child(nodes[q], side);
    if i != q && i != x && Ref(i) != b && Ref(i) != e && Ref(i) != o {
      Links(nodes, root, sub, i);
      assert nodes1[i].parent == nodes[i].parent && nodes1[i].blackHeight == nodes[i].blackHeight;
      if nodes[i].parent.Ref? {
        var P := nodes[i].parent.i;
        Links(nodes, root, sub, P);
        assert P != q && P != x;
        assert nodes1[P].blackHeight == nodes[P].blackHeight;
        NoRedRedAt(nodes, sub, Ref(x), i);
      }
    }
  }

  /**
   * handleCase2's first rotation (uncle not red, `x` on the inner side):
   * rotating the red `x` up over its red parent `q` keeps the tree well
   * formed and the black counts, and leaves the handleCase1 situation with
   * `q` as the red child of `x` on the outer side.
   */
  lemma Case2Colours(nodes: seq<Node>, root: Ptr, sub: Subs, bh: Heights, x: nat, nodes1: seq<Node>, root1: Ptr)
    requires Case2Step(nodes, root, sub, bh, x, nodes1, root1)
    requires nodes[nodes[x].parent.i].data.Some?
    ensures var q := nodes[x].parent.i; var g := nodes[q].parent.i;
      var side := nodes[g].left == Ref(q);
      var sub1 := RotatedSubs(nodes1, sub, q, x);
      Violation(nodes1, root1, sub1, bh, q) &&
      nodes1[q].parent == Ref(x) && nodes1[x].parent == Ref(g) &&
      (nodes1[g].left == Ref(x)) == side && Child(nodes1[x], side) == Ref(q) &&
      Uncle(nodes1, g, x) == Uncle(nodes, g, q) && !IsRed(nodes1, Uncle(nodes1, g, x))
  {
    var q := nodes[x].parent.i;
    var g := nodes[q].parent.i;
    var side := nodes[g].left == Ref(q);
    ViolationFacts(nodes, root, sub, bh, x);
    Case2Shape(nodes, root, sub, bh, x, nodes1, root1);
    RotationWf(nodes, root, sub, nodes1, root1, q, x, !side);
    var sub1 := RotatedSubs(nodes1, sub, q, x);
    forall i | i in sub1 ensures BalancedAt(nodes1, bh, i) && (RedRed(nodes1, i) ==> i == q) {
      if i == x || i == q || i == g {
        Case2BalancedAtTop(nodes, root, sub, bh, x, nodes1, root1);
      } else {
        Case2BalancedElsewhere(nodes, root, sub, bh, x, nodes1, root1, i);
      }
      Case2RedAt(nodes, root, sub, bh, x, nodes1, root1, i);
    }
    var u := Uncle(nodes, g, q);
    if u.Ref? {
      assert nodes1[u.i] == nodes[u.i];
    }
  }

  lemma RootBlackenAt(nodes: seq<Node>, root: Ptr, sub: Subs, bh: Heights, i: nat)
    requires Wf(nodes, root, sub) && Balanced(nodes, sub, bh) && RedRedBelowRoot(nodes, root, sub)
    requires root.Ref? && i in sub
    ensures BalancedAt(SetColour(nodes, root.i, BLACK), bh, i) && !RedRed(SetColour(nodes, root.i, BLACK), i)
  {
    var nodes' := SetColour(nodes, root.i, BLACK);
    Links(nodes, root, sub, i);
    BalancedAtX(nodes, sub, bh, i);
    var N := nodes[i];
    if N.left.Ref? { Links(nodes, root, sub, N.left.i); }
    if N.right.Ref? { Links(nodes, root, sub, N.right.i); }
    assert N.left != root && N.right != root;
    if RedRed(nodes', i) {
      assert i != root.i && N.parent != root;
      assert RedRed(nodes, i);
      assert false;
    }
  }

  /**
   * insert's final `root.blackHeight = 1`: when the only red-red pairs are
   * right below the root, blackening the root leaves a red-black tree.
   */
  lemma RootBlacken(nodes: seq<Node>, root: Ptr, sub: Subs, bh: Heights)
    requires Wf(nodes, root, sub) && Balanced(nodes, sub, bh) && RedRedBelowRoot(nodes, root, sub)
    requires root.Ref?
    ensures RedBlack(SetColour(nodes, root.i, BLACK), sub, bh)
  {
    forall i | i in sub ensures BalancedAt(SetColour(nodes, root.i, BLACK), bh, i) && !RedRed(SetColour(nodes, root.i, BLACK), i) {
      RootBlackenAt(nodes, root, sub, bh, i);
    }
  }
}
