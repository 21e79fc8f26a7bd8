/**
 * Cutting a whole subtree off the tree: what the final moveChild of
 * `removeHelper` does when the node it unlinks is not a leaf. The tree that
 * is left stays well formed, and its in-order list is the old one without
 * the indices of the cut subtree.
 */
module SubtreeLoss {
  import opened Outcomes
  import opened Songs
  import opened Arena
  import opened Rotations
  import opened Removal

  /** `s` without the entries that occur in `x`. */
  ghost function Without(s: seq<nat>, x: seq<nat>): seq<nat> {
    if s == [] then [] else (if s[0] in x then [] else [s[0]]) + Without(s[1..], x)
  }

  lemma {:induction false} WithoutAppend(a: seq<nat>, b: seq<nat>, x: seq<nat>)
    ensures Without(a + b, x) == Without(a, x) + Without(b, x)
  {
    if a == [] {
      assert a + b == b;
    } else {
      assert (a + b)[0] == a[0] && (a + b)[1..] == a[1..] + b;
      WithoutAppend(a[1..], b, x);
    }
  }

  lemma {:induction false} WithoutMembers(s: seq<nat>, x: seq<nat>)
    ensures forall y :: y in Without(s, x) <==> y in s && y !in x
  {
    if s != [] {
      WithoutMembers(s[1..], x);
      assert s == [s[0]] + s[1..];
    }
  }

  lemma {:induction false} WithoutAll(s: seq<nat>, x: seq<nat>)
    requires forall y :: y in s ==> y in x
    ensures Without(s, x) == []
  {
    if s != [] {
      assert s[0] in s;
      WithoutAll(s[1..], x);
    }
  }

  /** The lists after the subtree listed by `x` is cut off: its nodes are no longer live. */
  ghost function CutSubs(sub: Subs, x: seq<nat>): Subs {
    map k | k in sub && k !in x :: Without(sub[k], x)
  }

  /** The list of a child after the cut, when the child is not the cut node `x`. */
  lemma CutChild(nodes: seq<Node>, root: Ptr, sub: Subs, x: nat, k: nat, c: Ptr)
    requires Wf(nodes, root, sub) && x in sub && k in sub && k !in sub[x]
    requires c.Ref? ==> c != Ref(x) && ChildLinkOk(nodes, sub, k, c)
    ensures c.Ref? ==> c.i in CutSubs(sub, sub[x])
    ensures SubOf(CutSubs(sub, sub[x]), c) == Without(SubOf(sub, c), sub[x])
  {
    if c.Ref? {
      if c.i in sub[x] {
        ParentInSub(nodes, root, sub, x, c.i);
      }
    }
  }

  /** The cut node `x` itself: its slot becomes null, and nothing of its list is left. */
  lemma CutSelf(nodes: seq<Node>, root: Ptr, sub: Subs, x: nat)
    requires Wf(nodes, root, sub) && x in sub
    ensures Without(SubOf(sub, Ref(x)), sub[x]) == [] == SubOf(CutSubs(sub, sub[x]), Null)
  {
    WithoutAll(sub[x], sub[x]);
  }

  /** `nodes'` is `nodes` with the slot of `g` that held `x` set to null. */
  ghost predicate IsCut(nodes: seq<Node>, nodes': seq<Node>, g: nat, x: nat) {
    g < |nodes| && |nodes'| == |nodes| &&
    (forall j :: 0 <= j < |nodes| && j != g ==> nodes'[j] == nodes[j]) &&
    (forall j :: 0 <= j < |nodes| ==>
      nodes'[j].parent == nodes[j].parent && nodes'[j].data == nodes[j].data &&
      nodes'[j].blackHeight == nodes[j].blackHeight) &&
    (nodes[g].left == Ref(x) ==> nodes'[g] == nodes[g].(left := Null) && nodes[g].right != Ref(x)) &&
    (nodes[g].left != Ref(x) ==> nodes'[g] == nodes[g].(right := Null) && nodes[g].right == Ref(x))
  }

  /** moveChild(g, x, null) changes only the slot of `g` that held `x`. */
  lemma CutNodes(nodes: seq<Node>, root: Ptr, sub: Subs, x: nat, g: nat, nodes': seq<Node>)
    requires Wf(nodes, root, sub) && x in sub && x < |nodes| && nodes[x].parent == Ref(g)
    requires nodes' == MovedNodes(nodes, Ref(g), x, Null)
    ensures g in sub && IsCut(nodes, nodes', g, x)
  {
    Links(nodes, root, sub, x);
    ChildrenDiffer(nodes, root, sub, g);
  }

  /** The children of a live node `k` after the cut, and their lists. */
  lemma CutKids(nodes: seq<Node>, root: Ptr, sub: Subs, x: nat, g: nat, nodes': seq<Node>, k: nat)
    requires Wf(nodes, root, sub) && x in sub && x < |nodes| && nodes[x].parent == Ref(g) && g in sub
    requires IsCut(nodes, nodes', g, x)
    requires k in CutSubs(sub, sub[x])
    ensures k < |nodes| && k < |nodes'| && k != x
    ensures nodes'[k].parent == nodes[k].parent && nodes'[k].data == nodes[k].data
    ensures nodes'[k].blackHeight == nodes[k].blackHeight
    ensures nodes'[k].left.Ref? ==> nodes'[k].left == nodes[k].left && nodes'[k].left.i in CutSubs(sub, sub[x])
    ensures nodes'[k].right.Ref? ==> nodes'[k].right == nodes[k].right && nodes'[k].right.i in CutSubs(sub, sub[x])
    ensures SubOf(CutSubs(sub, sub[x]), nodes'[k].left) == Without(SubOf(sub, nodes[k].left), sub[x])
    ensures SubOf(CutSubs(sub, sub[x]), nodes'[k].right) == Without(SubOf(sub, nodes[k].right), sub[x])
  {
    Links(nodes, root, sub, k);
    ListAt(nodes, root, sub, x);
    CutSelf(nodes, root, sub, x);
    var n, n' := nodes[k], nodes'[k];
    CutChild(nodes, root, sub, x, k, n'.left);
    CutChild(nodes, root, sub, x, k, n'.right);
  }

  /** The shape conditions of `k` survive when every list loses the entries of `X` and no element moves. */
  lemma ShapeWithout(nodes: seq<Node>, sub: Subs, nodes': seq<Node>, sub': Subs, k: nat, X: seq<nat>)
    requires k < |nodes| && k in sub && ShapeOk(nodes, sub, k) && k !in X
    requires k < |nodes'| && k in sub' && sub'[k] == Without(sub[k], X)
    requires nodes'[k].blackHeight == nodes[k].blackHeight
    requires SubOf(sub', nodes'[k].left) == Without(SubOf(sub, nodes[k].left), X)
    requires SubOf(sub', nodes'[k].right) == Without(SubOf(sub, nodes[k].right), X)
    requires forall j :: DataAt(nodes', j) == DataAt(nodes, j)
    ensures ShapeOk(nodes', sub', k)
  {
    var L, R := SubOf(sub, nodes[k].left), SubOf(sub, nodes[k].right);
    WithoutAppend(L + [k], R, X);
    WithoutAppend(L, [k], X);
    assert Without([k], X) == [k];
    WithoutMembers(L, X);
    WithoutMembers(R, X);
    assert forall j :: j in Without(L, X) ==> Ordered(nodes', j, k) == Ordered(nodes, j, k);
    assert forall j :: j in Without(R, X) ==> Ordered(nodes', k, j) == Ordered(nodes, k, j);
  }

  /** A live node keeps its shape conditions after the cut. */
  lemma CutShape(nodes: seq<Node>, root: Ptr, sub: Subs, x: nat, g: nat, nodes': seq<Node>, k: nat)
    requires Wf(nodes, root, sub) && x in sub && x < |nodes| && nodes[x].parent == Ref(g) && g in sub
    requires IsCut(nodes, nodes', g, x)
    requires k in CutSubs(sub, sub[x])
    ensures k < |nodes'| && ShapeOk(nodes', CutSubs(sub, sub[x]), k)
  {
    CutKids(nodes, root, sub, x, g, nodes', k);
    Shape(nodes, root, sub, k);
    assert forall j :: DataAt(nodes', j) == DataAt(nodes, j);
    ShapeWithout(nodes, sub, nodes', CutSubs(sub, sub[x]), k, sub[x]);
  }

  /** The links of `k` survive when only a slot of `g` other than the one holding `k` is nulled. */
  lemma LinksAfterCut(nodes: seq<Node>, root: Ptr, sub: Subs, nodes': seq<Node>, sub': Subs, g: nat, x: nat, k: nat)
    requires k < |nodes| && LinksOk(nodes, root, sub, k) && IsCut(nodes, nodes', g, x) && k != x
    requires nodes'[k].left.Ref? ==> nodes'[k].left == nodes[k].left && nodes'[k].left.i in sub'
    requires nodes'[k].right.Ref? ==> nodes'[k].right == nodes[k].right && nodes'[k].right.i in sub'
    requires nodes[k].parent.Ref? ==> nodes[k].parent.i in sub'
    ensures LinksOk(nodes', root, sub', k)
  {
  }

  /** The parent of a live node outside the cut subtree is outside it too. */
  lemma CutParent(nodes: seq<Node>, root: Ptr, sub: Subs, x: nat, k: nat)
    requires Wf(nodes, root, sub) && x in sub && k in sub && k !in sub[x]
    ensures k < |nodes| && (nodes[k].parent.Ref? ==> nodes[k].parent.i in sub && nodes[k].parent.i !in sub[x])
  {
    Links(nodes, root, sub, k);
    var q := nodes[k].parent;
    if q.Ref? {
      ListAt(nodes, root, sub, q.i);
      ListAt(nodes, root, sub, k);
      assert k in sub[q.i];
      if q.i in sub[x] {
        SubClosed(nodes, root, sub, x);
      }
    }
  }

  /** A live node keeps its links after the cut. */
  lemma CutLinks(nodes: seq<Node>, root: Ptr, sub: Subs, x: nat, g: nat, nodes': seq<Node>, k: nat)
    requires Wf(nodes, root, sub) && x in sub && x < |nodes| && nodes[x].parent == Ref(g) && g in sub
    requires IsCut(nodes, nodes', g, x)
    requires k in CutSubs(sub, sub[x])
    ensures k < |nodes'| && LinksOk(nodes', root, CutSubs(sub, sub[x]), k)
  {
    CutKids(nodes, root, sub, x, g, nodes', k);
    Links(nodes, root, sub, k);
    CutParent(nodes, root, sub, x, k);
    LinksAfterCut(nodes, root, sub, nodes', CutSubs(sub, sub[x]), g, x, k);
  }

  /**
   * moveChild(g, x, null) on the parent `g` of a live node `x`: the tree
   * keeps its root and stays well formed, and exactly the nodes of `x`'s
   * subtree leave its in-order list.
   */
  lemma CutWf(nodes: seq<Node>, root: Ptr, sub: Subs, x: nat, g: nat, nodes': seq<Node>)
    requires Wf(nodes, root, sub) && x in sub && x < |nodes| && nodes[x].parent == Ref(g)
    requires nodes' == MovedNodes(nodes, Ref(g), x, Null)
    ensures Wf(nodes', root, CutSubs(sub, sub[x]))
    ensures Order(root, CutSubs(sub, sub[x])) == Without(Order(root, sub), sub[x])
    ensures forall j :: j in Order(root, CutSubs(sub, sub[x])) <==> j in Order(root, sub) && j !in sub[x]
  {
    var sub' := CutSubs(sub, sub[x]);
    Links(nodes, root, sub, x);
    assert root.Ref? && root.i in sub;
    if root.i in sub[x] {
      Links(nodes, root, sub, root.i);
      if root.i != x {
        ParentInSub(nodes, root, sub, x, root.i);
      }
    }
    assert root.i in sub';
    CutNodes(nodes, root, sub, x, g, nodes');
    assert nodes'[root.i].parent == Null;
    forall k | k in sub' ensures LocalOk(nodes', root, sub', k) {
      CutShape(nodes, root, sub, x, g, nodes', k);
      CutLinks(nodes, root, sub, x, g, nodes', k);
    }
    WithoutMembers(Order(root, sub), sub[x]);
  }

  /**
   * The both-nephews case for a left child as the source writes it, when
   * the parent `p` is not the root: rotating `p` right lifts `node` into
   * p's slot under the grandparent, with all of p's old subtree below it
   * (the recolouring that follows changes no link). The moveChild that
   * removeHelper then applies to a placeholder `node` cuts that subtree
   * off: the root stays, the tree stays well formed, and `p`, its other
   * child `s` and both of s's children leave the in-order list.
   */
  lemma AsWrittenUnlinkDropsSubtree(nodes: seq<Node>, root: Ptr, sub: Subs, p: nat, node: nat, s: nat,
                                    rotated: seq<Node>, root': Ptr)
    requires Wf(nodes, root, sub) && p in sub && p < |nodes| && node < |nodes| && s < |nodes|
    requires nodes[p].parent.Ref? && nodes[p].data.Some?
    requires nodes[p].left == Ref(node) && nodes[p].right == Ref(s)
    requires nodes[s].left.Ref? && nodes[s].right.Ref?
    requires IsRotation(nodes, root, rotated, root', p, node, true)
    ensures root' == root && rotated[node].parent == nodes[p].parent
    ensures MovedRoot(root', rotated[node].parent, Null) == root
    ensures var sub1 := RotatedSubs(rotated, sub, p, node);
      var sub2 := CutSubs(sub1, sub[p]);
      Wf(MovedNodes(rotated, rotated[node].parent, node, Null), root, sub2) &&
      forall j :: j in Order(root, sub2) <==> j in Order(root, sub) && j !in sub[p]
    ensures p in sub[p] && s in sub[p] && nodes[s].left.i in sub[p] && nodes[s].right.i in sub[p]
  {
    Links(nodes, root, sub, p);
    RotationWf(nodes, root, sub, rotated, root', p, node, true);
    var sub1 := RotatedSubs(rotated, sub, p, node);
    var g := nodes[p].parent;
    assert node in sub1 && sub1[node] == sub[p];
    CutWf(rotated, root, sub1, node, g.i, MovedNodes(rotated, g, node, Null));
    ListAt(nodes, root, sub, p);
    ListAt(nodes, root, sub, s);
    Links(nodes, root, sub, s);
    ListAt(nodes, root, sub, nodes[s].left.i);
    ListAt(nodes, root, sub, nodes[s].right.i);
  }
}
