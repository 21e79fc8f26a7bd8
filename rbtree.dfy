/**
 * RedBlackTree: a binary search tree of songs ordered by title, with
 * parent links and a colour per node, kept balanced by the insert fix-up.
 *
 * The Java object graph is an arena (`nodes`) with `root` and `size` as in
 * the source; the ghost field `sub` gives every live node the in-order list
 * of its subtree, which is what the contracts below speak about.
 */
module RedBlackTrees {
  import opened Outcomes
  import opened Songs
  import opened Arena
  import opened Rotations
  import opened Linking
  import opened Colours
  import opened Lookup
  import opened Rendering
  import opened Removal
  import opened FixUp
  import opened RemovalOrder
  import opened SuccessorRemoval
  import opened RemoveColours
  import JavaStrings

  /**
   * Node.isLeftChild: the node has a parent, and is that parent's left
   * child.
   */
  function IsLeftChild(nodes: seq<Node>, i: nat): (r: bool)
    requires i < |nodes|
    ensures r ==> nodes[i].parent.Ref? && nodes[i].parent.i < |nodes|
  {
    var p := nodes[i].parent;
    p.Ref? && p.i < |nodes| && nodes[p.i].left == Ref(i)
  }

  /** In a well-formed tree a live node that is not a left child is the root or a right child. */
  lemma IsLeftChildCases(nodes: seq<Node>, root: Ptr, sub: Subs, i: nat)
    requires Wf(nodes, root, sub) && i in sub
    ensures i < |nodes|
    ensures IsLeftChild(nodes, i) ==> i in SubOf(sub, nodes[nodes[i].parent.i].left)
    ensures !IsLeftChild(nodes, i) <==>
      root == Ref(i) || (nodes[i].parent.Ref? && nodes[i].parent.i < |nodes| && nodes[nodes[i].parent.i].right == Ref(i))
  {
    Links(nodes, root, sub, i);
    var p := nodes[i].parent;
    if p.Ref? {
      Shape(nodes, root, sub, p.i);
      ListAt(nodes, root, sub, i);
      if nodes[p.i].left == Ref(i) {
        ChildShorter(nodes, root, sub, p.i, true);
      } else {
        ChildShorter(nodes, root, sub, p.i, false);
        assert i in SubOf(sub, nodes[p.i].right);
      }
      assert root != Ref(i);
    }
  }

  /** Placing `n` next to `t` is inserting `n` at one position of the list. */
  lemma {:induction false} InsertAdjSplit(s: seq<nat>, t: nat, n: nat, before: bool) returns (k: nat)
    requires t in s
    ensures k <= |s| && InsertAdj(s, t, n, before) == s[..k] + [n] + s[k..]
  {
    if s[0] == t {
      k := if before then 0 else 1;
      assert s == [s[0]] + s[1..];
    } else {
      var k' := InsertAdjSplit(s[1..], t, n, before);
      k := k' + 1;
      assert s[..k] == [s[0]] + s[1..][..k'];
      assert s[k..] == s[1..][k'..];
    }
  }

  /** The elements of a list with one index inserted at position `k`. */
  lemma DataSeqInsert(nodes: seq<Node>, s: seq<nat>, k: nat, n: nat)
    requires k <= |s|
    ensures DataSeq(nodes, s[..k] + [n] + s[k..]) == DataSeq(nodes, s)[..k] + [DataAt(nodes, n)] + DataSeq(nodes, s)[k..]
  {
    var a := DataSeq(nodes, s[..k] + [n] + s[k..]);
    var b := DataSeq(nodes, s)[..k] + [DataAt(nodes, n)] + DataSeq(nodes, s)[k..];
    assert |a| == |b|;
    forall i | 0 <= i < |a| ensures a[i] == b[i] {
      if i < k {
        assert (s[..k] + [n] + s[k..])[i] == s[i];
      } else if i > k {
        assert (s[..k] + [n] + s[k..])[i] == s[i - 1];
      }
    }
  }

  /**
   * The elements after linking a new node `n` next to `t`: the old elements
   * with the new one inserted at some position.
   */
  lemma LinkElements(nodes: seq<Node>, nodes': seq<Node>, s: seq<nat>, t: nat, n: nat, before: bool) returns (k: nat)
    requires t in s && n !in s
    requires forall j :: j in s ==> DataAt(nodes', j) == DataAt(nodes, j)
    ensures k <= |s|
    ensures DataSeq(nodes', InsertAdj(s, t, n, before)) == DataSeq(nodes, s)[..k] + [DataAt(nodes', n)] + DataSeq(nodes, s)[k..]
  {
    k := InsertAdjSplit(s, t, n, before);
    DataSeqInsert(nodes', s, k, n);
    DataSeqSame(nodes, nodes', s);
  }

  /**
   * `nodes'`, `root'` and `sub'` are the tree after a rotation of `c` up
   * over `p`: still well formed and free of placeholders, with the same
   * live nodes and the same element sequence, and `c` now spans what `p`
   * spanned.
   */
  ghost predicate RotatedTree(nodes: seq<Node>, root: Ptr, sub: Subs, nodes': seq<Node>, root': Ptr, sub': Subs,
                              p: nat, c: nat, cIsLeft: bool)
    requires p < |nodes| && c < |nodes|
  {
    IsRotation(nodes, root, nodes', root', p, c, cIsLeft) && sub' == RotatedSubs(nodes', sub, p, c) &&
    Wf(nodes', root', sub') && NoNull(nodes', sub') && sub'.Keys == sub.Keys && p in sub && c in sub' &&
    sub'[c] == sub[p] && DataSeq(nodes', Order(root', sub')) == DataSeq(nodes, Order(root, sub))
  }

  /**
   * A rotation of a tree without placeholders keeps it well formed, free of
   * placeholders, and keeps its element sequence.
   */
  lemma RotationKeepsValid(nodes: seq<Node>, root: Ptr, sub: Subs, nodes': seq<Node>, root': Ptr, p: nat, c: nat, cIsLeft: bool)
    requires Wf(nodes, root, sub) && NoNull(nodes, sub) && p in sub && p < |nodes| && c < |nodes|
    requires Child(nodes[p], cIsLeft) == Ref(c)
    requires IsRotation(nodes, root, nodes', root', p, c, cIsLeft)
    ensures RotatedTree(nodes, root, sub, nodes', root', RotatedSubs(nodes', sub, p, c), p, c, cIsLeft)
  {
    RotationWf(nodes, root, sub, nodes', root', p, c, cIsLeft);
    RotationKeepsContents(nodes, root, nodes', root', p, c, cIsLeft);
    NoNullKept(nodes, sub, nodes', RotatedSubs(nodes', sub, p, c));
    DataSeqSame(nodes, nodes', Order(root, sub));
  }

  /** The indices a rotation of `c` up over `p` touches are in the arena and pairwise distinct. */
  lemma RotationIndices(nodes: seq<Node>, root: Ptr, sub: Subs, p: nat, c: nat, cIsLeft: bool)
    requires Wf(nodes, root, sub) && p in sub && p < |nodes| && Child(nodes[p], cIsLeft) == Ref(c)
    ensures c < |nodes| && p != c
    ensures var b, g := Child(nodes[c], !cIsLeft), nodes[p].parent;
      (b.Ref? ==> b.i < |nodes| && b.i != p && b.i != c) &&
      (g.Ref? ==> g.i < |nodes| && g.i != p && g.i != c && g != b)
  {
    RotationDistinct(nodes, root, sub, p, c, cIsLeft);
    Links(nodes, root, sub, p);
    Links(nodes, root, sub, c);
  }

  /** Recolouring a node red or black keeps the tree valid and its elements. */
  lemma RecolourKeepsValid(nodes: seq<Node>, root: Ptr, sub: Subs, i: nat, c: int)
    requires Wf(nodes, root, sub) && NoNull(nodes, sub) && (c == RED || c == BLACK)
    ensures Wf(SetColour(nodes, i, c), root, sub) && NoNull(SetColour(nodes, i, c), sub)
    ensures DataSeq(SetColour(nodes, i, c), Order(root, sub)) == DataSeq(nodes, Order(root, sub))
  {
    SetColourWf(nodes, root, sub, i, c);
    NoNullKept(nodes, sub, SetColour(nodes, i, c), sub);
    DataSeqSame(nodes, SetColour(nodes, i, c), Order(root, sub));
  }

  /**
   * When the node the fix-up has reached is not red under a red parent,
   * what the fix-up may assume holds one level up.
   */
  lemma FixPreUp(nodes: seq<Node>, root: Ptr, sub: Subs, bh: Heights, y: nat)
    requires y < |nodes| && nodes[y].parent.Ref? && !RedRed(nodes, y)
    requires InsertFixPre(nodes, root, sub, bh, Ref(y))
    ensures InsertFixPre(nodes, root, sub, bh, nodes[y].parent)
  {
    if RedRedOnly(nodes, sub, Ref(y)) {
      assert RedRedOnly(nodes, sub, nodes[y].parent);
    }
  }

  /** At the root, or past it, the only red-red pairs left are right below the root. */
  lemma FixPreDone(nodes: seq<Node>, root: Ptr, sub: Subs, bh: Heights, y: Ptr)
    requires Wf(nodes, root, sub) && InsertFixPre(nodes, root, sub, bh, y)
    requires y.Ref? ==> y.i < |nodes| && nodes[y.i].parent.Null?
    ensures Balanced(nodes, sub, bh) && RedRedBelowRoot(nodes, root, sub)
  {
    forall i | i in sub && RedRed(nodes, i) ensures nodes[i].parent == root {
      assert Ref(i) != y;
    }
  }

  /** A red-red pair whose upper node is the root leaves the pairs right below the root. */
  lemma FixPreAtRoot(nodes: seq<Node>, root: Ptr, sub: Subs, bh: Heights, x: nat)
    requires Wf(nodes, root, sub) && Balanced(nodes, sub, bh) && x in sub
    requires RedRedOnly(nodes, sub, Ref(x)) && RedRed(nodes, x)
    requires nodes[nodes[x].parent.i].parent.Null?
    ensures InsertFixPre(nodes, root, sub, bh, nodes[x].parent)
  {
    Links(nodes, root, sub, x);
    Links(nodes, root, sub, nodes[x].parent.i);
  }

  /**
   * The recolouring that ends handleCase1 keeps the rotated tree valid, and
   * in the handleCase1 situation makes it red-black.
   */
  lemma Case1Finish(nodes0: seq<Node>, root0: Ptr, sub0: Subs, bh: Heights, x: nat, q: nat, g: nat,
                    nodes1: seq<Node>, root1: Ptr, sub1: Subs)
    requires Wf(nodes0, root0, sub0) && q in sub0 && g in sub0 && q < |nodes0| && g < |nodes0|
    requires nodes0[q].parent == Ref(g)
    requires IsRotation(nodes0, root0, nodes1, root1, g, q, nodes0[g].left == Ref(q))
    requires sub1 == RotatedSubs(nodes1, sub0, g, q)
    requires Wf(nodes1, root1, sub1) && NoNull(nodes1, sub1) && sub1.Keys == sub0.Keys
    ensures var nodes2 := SetColour(SetColour(nodes1, q, BLACK), g, RED);
      Wf(nodes2, root1, sub1) && NoNull(nodes2, sub1) &&
      DataSeq(nodes2, Order(root1, sub1)) == DataSeq(nodes1, Order(root1, sub1)) &&
      nodes2[q].blackHeight == BLACK && nodes2[g].blackHeight == RED && nodes2[g].parent == Ref(q) &&
      (Case1Pre(nodes0, root0, sub0, bh, x) && nodes0[x].parent == Ref(q) ==> RedBlack(nodes2, sub1, bh))
  {
    RecolourKeepsValid(nodes1, root1, sub1, q, BLACK);
    RecolourKeepsValid(SetColour(nodes1, q, BLACK), root1, sub1, g, RED);
    Links(nodes0, root0, sub0, q);
    RotationIndices(nodes0, root0, sub0, g, q, nodes0[g].left == Ref(q));
    if Case1Pre(nodes0, root0, sub0, bh, x) && nodes0[x].parent == Ref(q) {
      Case1Colours(nodes0, root0, sub0, bh, x, nodes1, root1);
    }
  }

  /**
   * After the first rotation of handleCase2 `x` is the child of `g`, and in
   * the handleCase2 situation the handleCase1 situation holds with `q` as
   * the red child of `x`.
   */
  lemma Case2Middle(nodes0: seq<Node>, root0: Ptr, sub0: Subs, bh: Heights, x: nat, q: nat, g: nat,
                    nodes1: seq<Node>, root1: Ptr, sub1: Subs)
    requires Wf(nodes0, root0, sub0) && NoNull(nodes0, sub0) && x in sub0 && q in sub0 && g in sub0
    requires x < |nodes0| && q < |nodes0| && nodes0[x].parent == Ref(q) && nodes0[q].parent == Ref(g)
    requires IsRotation(nodes0, root0, nodes1, root1, q, x, nodes0[q].left == Ref(x))
    requires sub1 == RotatedSubs(nodes1, sub0, q, x)
    ensures g in sub1 && x < |nodes1| && nodes1[x].parent == Ref(g) && sub1[g] == sub0[g]
    ensures Case2Pre(nodes0, root0, sub0, bh, x) ==> Case1Pre(nodes1, root1, sub1, bh, q) && nodes1[q].parent == Ref(x)
  {
    Links(nodes0, root0, sub0, x);
    RotationIndices(nodes0, root0, sub0, q, x, nodes0[q].left == Ref(x));
    Links(nodes0, root0, sub0, q);
    if Case2Pre(nodes0, root0, sub0, bh, x) {
      Shape(nodes0, root0, sub0, q);
      ListAt(nodes0, root0, sub0, x);
      assert DataAt(nodes0, q).Some?;
      Case2Colours(nodes0, root0, sub0, bh, x, nodes1, root1);
    }
  }

  /**
   * propertiesHelper's view of a red-red pair at `x` below `q` below `g`:
   * its uncle, and its case 1 (same side) and case 2 (other side) tests.
   */
  lemma ViolationCases(nodes: seq<Node>, root: Ptr, sub: Subs, bh: Heights, x: nat, q: nat, g: nat)
    requires Wf(nodes, root, sub) && x in sub && x < |nodes| && q < |nodes| && g < |nodes|
    requires nodes[x].parent == Ref(q) && nodes[q].parent == Ref(g)
    requires Balanced(nodes, sub, bh) && RedRedOnly(nodes, sub, Ref(x)) && RedRed(nodes, x)
    ensures var u := if IsLeftChild(nodes, q) then nodes[g].right else nodes[g].left;
      Violation(nodes, root, sub, bh, x) && Uncle(nodes, g, q) == u &&
      (!IsRed(nodes, u) && IsLeftChild(nodes, q) == IsLeftChild(nodes, x) ==> Case1Pre(nodes, root, sub, bh, x)) &&
      (!IsRed(nodes, u) && IsLeftChild(nodes, q) != IsLeftChild(nodes, x) ==> Case2Pre(nodes, root, sub, bh, x))
  {
    Links(nodes, root, sub, x);
    Links(nodes, root, sub, q);
    Shape(nodes, root, sub, q);
    ListAt(nodes, root, sub, x);
  }

  /** What propertiesHelper knows of a red-red pair at `x` below `q` below `g`. */
  ghost predicate PairAt(nodes: seq<Node>, root: Ptr, sub: Subs, bh: Heights, x: nat, q: nat, g: nat) {
    Wf(nodes, root, sub) && x in sub && x < |nodes| && q < |nodes| && g < |nodes| &&
    nodes[x].parent == Ref(q) && nodes[q].parent == Ref(g) &&
    Balanced(nodes, sub, bh) && RedRedOnly(nodes, sub, Ref(x)) && RedRed(nodes, x)
  }

  /** The uncle as propertiesHelper finds it. */
  function UncleOf(nodes: seq<Node>, q: nat, g: nat): Ptr
    requires q < |nodes| && g < |nodes|
  {
    if IsLeftChild(nodes, q) then nodes[g].right else nodes[g].left
  }

  /** Case 1 of propertiesHelper: afterwards the tree is red-black. */
  lemma Case1Done(nodes0: seq<Node>, root0: Ptr, sub0: Subs, bh: Heights, x: nat, q: nat, g: nat,
                  nodes: seq<Node>, root: Ptr, sub: Subs, y: Ptr)
    requires PairAt(nodes0, root0, sub0, bh, x, q, g)
    requires !IsRed(nodes0, UncleOf(nodes0, q, g)) && IsLeftChild(nodes0, q) == IsLeftChild(nodes0, x)
    requires Case1Pre(nodes0, root0, sub0, bh, x) && nodes0[x].parent == Ref(q) ==> RedBlack(nodes, sub, bh)
    ensures InsertFixPre(nodes, root, sub, bh, y)
  {
    ViolationCases(nodes0, root0, sub0, bh, x, q, g);
  }

  /** Case 2 of propertiesHelper: afterwards the tree is red-black. */
  lemma Case2Done(nodes0: seq<Node>, root0: Ptr, sub0: Subs, bh: Heights, x: nat, q: nat, g: nat,
                  nodes: seq<Node>, root: Ptr, sub: Subs, y: Ptr)
    requires PairAt(nodes0, root0, sub0, bh, x, q, g)
    requires !IsRed(nodes0, UncleOf(nodes0, q, g)) && IsLeftChild(nodes0, q) != IsLeftChild(nodes0, x)
    requires Case2Pre(nodes0, root0, sub0, bh, x) ==> RedBlack(nodes, sub, bh)
    ensures InsertFixPre(nodes, root, sub, bh, y)
  {
    ViolationCases(nodes0, root0, sub0, bh, x, q, g);
  }

  /** Case 3 of propertiesHelper: the pair, if any, is now at the grandparent, above the black parent. */
  lemma Case3Done(nodes0: seq<Node>, root0: Ptr, sub0: Subs, bh: Heights, x: nat, q: nat, g: nat, u: nat, nodes: seq<Node>)
    requires PairAt(nodes0, root0, sub0, bh, x, q, g)
    requires UncleOf(nodes0, q, g) == Ref(u) && IsRed(nodes0, Ref(u))
    requires nodes == SetColour(SetColour(SetColour(nodes0, g, RED), q, BLACK), u, BLACK)
    ensures x < |nodes| && nodes[x].parent == Ref(q) && g in bh
    ensures InsertFixPre(nodes, root0, sub0, bh[g := bh[g] + 1], Ref(q))
  {
    ViolationCases(nodes0, root0, sub0, bh, x, q, g);
    ViolationFacts(nodes0, root0, sub0, bh, x);
    Case3Colours(nodes0, root0, sub0, bh, x);
    assert nodes == Case3Nodes(nodes0, x);
  }

  /** A red-black tree meets what the fix-up may assume, at any node. */
  lemma RedBlackFixPre(nodes: seq<Node>, root: Ptr, sub: Subs, bh: Heights, y: Ptr)
    requires RedBlack(nodes, sub, bh)
    ensures InsertFixPre(nodes, root, sub, bh, y)
  {
  }

  /**
   * The trailing ", " that the helper leaves after the last entry is what
   * toInOrderString cuts off, and only when there is an entry.
   */
  lemma Bracketed(nodes: seq<Node>, root: Ptr, sub: Subs, body: string)
    requires Wf(nodes, root, sub) && body == "" + Trailing(Entries(nodes, Order(root, sub)))
    ensures var sb, items := "[ " + body, Entries(nodes, Order(root, sub));
      |sb| >= 2 &&
      (if root.Ref? then sb[..|sb| - 2] else sb) + " ]" == "[ " + Join(items) + " ]"
  {
    var items := Entries(nodes, Order(root, sub));
    assert body == Trailing(items);
    if root.Ref? {
      assert items != [] by {
        ListAt(nodes, root, sub, root.i);
      }
      CloseTrailing(items);
    } else {
      assert items == [];
    }
  }

  /** A set with two different members has at least two. */
  lemma TwoMembers(s: set<nat>, a: nat, b: nat)
    requires a in s && b in s && a != b
    ensures |s| >= 2
  {
    var rest := s - {a};
    assert b in rest;
    assert s == rest + {a};
  }

  /** The element of a live node is one of the tree's elements. */
  lemma LiveHasTitle(nodes: seq<Node>, root: Ptr, sub: Subs, i: nat)
    requires Wf(nodes, root, sub) && NoNull(nodes, sub) && i in sub
    ensures DataAt(nodes, i).Some? && HasTitle(DataSeq(nodes, Order(root, sub)), DataAt(nodes, i).value.title)
  {
    LiveInOrder(nodes, root, sub, i);
    var s := Order(root, sub);
    var j :| 0 <= j < |s| && s[j] == i;
    assert DataSeq(nodes, s)[j] == DataAt(nodes, i);
  }

  /** A tree of one red node holding `d`, appended to the arena, is valid and red-black. */
  lemma SingletonValid(nodes: seq<Node>, d: Song)
    ensures var nodes' := nodes + [Node(Some(d), Null, Null, Null, RED)];
      var n := |nodes|;
      var sub' := map[n := [n]];
      Wf(nodes', Ref(n), sub') && NoNull(nodes', sub') && RedBlack(nodes', sub', map[n := 0]) &&
      DataSeq(nodes', Order(Ref(n), sub')) == [Some(d)] && |sub'.Keys| == 1 &&
      DataSeq(nodes, Order(Null, map[])) == [] && !HasTitle([], d.title)
  {
    var nodes' := nodes + [Node(Some(d), Null, Null, Null, RED)];
    var n := |nodes|;
    var sub' := map[n := [n]];
    assert LocalOk(nodes', Ref(n), sub', n);
    assert BalancedAt(nodes', map[n := 0], n);
  }

  /**
   * Linking a new red leaf holding `d` below `t`, in the slot the descent
   * found, keeps the tree valid, inserts `d` into the element sequence, and
   * leaves a red-black tree with at most one red-red pair, at the new leaf.
   */
  lemma LinkKeepsValid(nodes: seq<Node>, root: Ptr, sub: Subs, ns: seq<Node>, t: nat, d: Song, left: bool, bh: Heights)
    returns (k: nat)
    requires Wf(nodes, root, sub) && NoNull(nodes, sub) && t in sub && t < |nodes| && Child(nodes[t], left) == Null
    requires Fits(nodes, sub, t, d) && (if left then KeyBefore(nodes, d, t) else KeyAfter(nodes, d, t))
    requires ns == (nodes + [Node(Some(d), Null, Null, Null, RED)])[t := WithChild(nodes[t], left, Ref(|nodes|))]
                   [|nodes| := Node(Some(d), Ref(t), Null, Null, RED)]
    ensures var sub' := LinkedSubs(sub, t, |nodes|, left);
      var s := DataSeq(nodes, Order(root, sub));
      Wf(ns, root, sub') && NoNull(ns, sub') && sub'.Keys == sub.Keys + {|nodes|} && |nodes| !in sub &&
      k <= |s| && DataSeq(ns, Order(root, sub')) == s[..k] + [Some(d)] + s[k..] &&
      (RedBlack(nodes, sub, bh) ==> InsertFixPre(ns, root, sub', bh[|nodes| := 0], Ref(|nodes|)))
  {
    var n := |nodes|;
    assert IsLink(nodes, ns, t, d, left);
    LinkLeafWf(nodes, root, sub, ns, t, d, left);
    LinkData(nodes, ns, t, d, left);
    LiveBelow(nodes, root, sub);
    var sub' := LinkedSubs(sub, t, n, left);
    forall i | i in sub' ensures DataAt(ns, i).Some? {
      if i != n { assert i in sub; }
    }
    LiveInOrder(nodes, root, sub, t);
    OrderIsLive(nodes, root, sub);
    k := LinkElements(nodes, ns, Order(root, sub), t, n, left);
    if RedBlack(nodes, sub, bh) {
      LinkColours(nodes, root, sub, ns, t, d, left, bh);
    }
  }

  /**
   * Placing `d` at position `k` of the elements keeps them ascending only if
   * no element had its title, and the elements gain exactly `d`.
   */
  lemma InsertedTitleNew(s: seq<Option<Song>>, k: nat, d: Song)
    requires k <= |s| && Sorted(s[..k] + [Some(d)] + s[k..])
    ensures !HasTitle(s, d.title)
    ensures multiset(s[..k] + [Some(d)] + s[k..]) == multiset(s) + multiset{Some(d)}
  {
    InsertedIsNew(s, k, d);
    assert s == s[..k] + s[k..];
    forall j | 0 <= j < |s| && s[j].Some? ensures s[j].value.title != d.title {
      assert Some(s[j].value) in s;
    }
  }

  /**
   * The end of a successful insert below the root: colouring the root black
   * keeps the tree valid with the same elements, one more live node, and
   * makes it red-black again.
   */
  lemma InsertDone(nodes0: seq<Node>, sub0: Subs, bh: Heights, n: nat,
                   nodes1: seq<Node>, root1: Ptr, sub1: Subs, bh': Heights)
    requires Wf(nodes1, root1, sub1) && NoNull(nodes1, sub1) && root1.Ref?
    requires sub1.Keys == sub0.Keys + {n} && n !in sub0
    requires RedBlack(nodes0, sub0, bh) ==> Balanced(nodes1, sub1, bh') && RedRedBelowRoot(nodes1, root1, sub1)
    ensures var nodes2 := SetColour(nodes1, root1.i, BLACK);
      Wf(nodes2, root1, sub1) && NoNull(nodes2, sub1) && |sub1.Keys| == |sub0.Keys| + 1 &&
      DataSeq(nodes2, Order(root1, sub1)) == DataSeq(nodes1, Order(root1, sub1)) &&
      (RedBlack(nodes0, sub0, bh) ==> RedBlack(nodes2, sub1, bh')) &&
      root1.i < |nodes2| && nodes2[root1.i].blackHeight == BLACK
  {
    Links(nodes1, root1, sub1, root1.i);
    RecolourKeepsValid(nodes1, root1, sub1, root1.i, BLACK);
    if RedBlack(nodes0, sub0, bh) {
      RootBlacken(nodes1, root1, sub1, bh');
    }
  }

  /** Once one element with the title is taken out of a sorted sequence, none with that title is left. */
  lemma RemovedOneLeavesNone(before: seq<Option<Song>>, after: seq<Option<Song>>, title: string)
    requires Sorted(before) && RemovedOne(before, after, title)
    ensures !HasTitle(after, title)
  {
    var k :| 0 <= k < |before| && before[k].Some? && before[k].value.title == title &&
      after == before[..k] + before[k+1..];
    forall j | 0 <= j < |after| && after[j].Some? ensures after[j].value.title != title {
      var m := if j < k then j else j + 1;
      assert after[j] == before[m];
      CompareToProperties(before[k].value, before[m].value);
    }
  }

  /** The elements of a well-formed tree without placeholders are strictly ascending. */
  /**
   * After insertHelper linked the new element `d` at position `k` of the
   * in-order list: `d`'s title was new, the elements gained exactly `d`,
   * and colouring the root black leaves a valid tree, red-black when the
   * tree was.
   */
  lemma InsertFinished(nodes0: seq<Node>, root0: Ptr, sub0: Subs, bh: Heights, k: nat, d: Song,
                       nodes1: seq<Node>, root1: Ptr, sub1: Subs, bh': Heights)
    requires Wf(nodes1, root1, sub1) && NoNull(nodes1, sub1) && root1.Ref?
    requires sub1.Keys == sub0.Keys + {|nodes0|} && |nodes0| !in sub0
    requires var before := DataSeq(nodes0, Order(root0, sub0));
      k <= |before| && DataSeq(nodes1, Order(root1, sub1)) == before[..k] + [Some(d)] + before[k..]
    requires RedBlack(nodes0, sub0, bh) ==> Balanced(nodes1, sub1, bh') && RedRedBelowRoot(nodes1, root1, sub1)
    ensures var nodes2, before := SetColour(nodes1, root1.i, BLACK), DataSeq(nodes0, Order(root0, sub0));
      Wf(nodes2, root1, sub1) && NoNull(nodes2, sub1) && |sub1.Keys| == |sub0.Keys| + 1 &&
      !HasTitle(before, d.title) &&
      multiset(DataSeq(nodes2, Order(root1, sub1))) == multiset(before) + multiset{Some(d)} &&
      (RedBlack(nodes0, sub0, bh) ==> RedBlack(nodes2, sub1, bh')) &&
      root1.i < |nodes2| && nodes2[root1.i].blackHeight == BLACK
  {
    OrderSorted(nodes1, root1, sub1);
    InsertedTitleNew(DataSeq(nodes0, Order(root0, sub0)), k, d);
    InsertDone(nodes0, sub0, bh, |nodes0|, nodes1, root1, sub1, bh');
  }

  lemma OrderSorted(nodes: seq<Node>, root: Ptr, sub: Subs)
    requires Wf(nodes, root, sub) && NoNull(nodes, sub)
    ensures Sorted(DataSeq(nodes, Order(root, sub)))
    ensures forall k :: 0 <= k < |Order(root, sub)| ==> DataSeq(nodes, Order(root, sub))[k].Some?
  {
    var s := Order(root, sub);
    if root.Ref? {
      SubSorted(nodes, root, sub, root.i);
      SubClosed(nodes, root, sub, root.i);
      forall k | 0 <= k < |s| ensures DataSeq(nodes, s)[k].Some? {
        assert s[k] in sub[root.i];
      }
    }
  }

  /** A new element inserted into a strictly ascending sequence has a title none of the others has. */
  lemma InsertedIsNew(s: seq<Option<Song>>, k: nat, d: Song)
    requires k <= |s| && Sorted(s[..k] + [Some(d)] + s[k..])
    ensures forall e :: Some(e) in s ==> e.title != d.title
  {
    var s' := s[..k] + [Some(d)] + s[k..];
    forall e | Some(e) in s ensures e.title != d.title {
      var i :| 0 <= i < |s| && s[i] == Some(e);
      if i < k {
        assert s'[i] == s[i] && s'[k] == Some(d);
        BeforeIsStrictTotalOrder(e, d, d);
        CompareToProperties(e, d);
      } else {
        assert s'[i + 1] == s[i] && s'[k] == Some(d);
        BeforeIsStrictTotalOrder(d, e, e);
        CompareToProperties(d, e);
      }
    }
  }

  /** The descent starts at the root, which has no ancestor to agree with. */
  lemma FitsRoot(nodes: seq<Node>, root: Ptr, sub: Subs, d: Song)
    requires Wf(nodes, root, sub) && root.Ref?
    ensures Fits(nodes, sub, root.i, d)
  {
    forall x | x in sub ensures FitsAt(nodes, sub, root.i, d, x) {
      if x < |nodes| && x != root.i && root.i in sub[x] {
        ParentInSub(nodes, root, sub, x, root.i);
      }
    }
  }

  /** Going down to the child on the side the comparison chose keeps the descent in agreement. */
  lemma FitsDescend(nodes: seq<Node>, root: Ptr, sub: Subs, t: nat, d: Song, left: bool)
    requires Wf(nodes, root, sub) && t in sub && t < |nodes| && Fits(nodes, sub, t, d)
    requires Child(nodes[t], left).Ref?
    requires if left then KeyBefore(nodes, d, t) else KeyAfter(nodes, d, t)
    ensures Child(nodes[t], left).i in sub && Fits(nodes, sub, Child(nodes[t], left).i, d)
  {
    var c := Child(nodes[t], left).i;
    ChildShorter(nodes, root, sub, t, left);
    forall x | x in sub ensures FitsAt(nodes, sub, c, d, x) {
      if x < |nodes| && x != c && c in sub[x] {
        Shape(nodes, root, sub, x);
        var L, R := SubOf(sub, nodes[x].left), SubOf(sub, nodes[x].right);
        if x == t {
          assert c in sub[c];
          assert left ==> c in L;
          assert !left ==> c in R;
        } else {
          ParentInSub(nodes, root, sub, x, c);
          FitsAtX(nodes, sub, t, d, x);
          if c in L {
            var l := nodes[x].left.i;
            Links(nodes, root, sub, x);
            ParentInSub(nodes, root, sub, l, c);
          }
          if c in R {
            var r := nodes[x].right.i;
            Links(nodes, root, sub, x);
            ParentInSub(nodes, root, sub, r, c);
          }
        }
      }
    }
  }

  /**
   * The links leftRotation rewrites: `child`, the right child of `parent`, takes
   * its place and `parent` becomes its left child.
   * Every field assignment of the Java method, on a copy of the arena.
   */
  method LeftRelink(nodes: seq<Node>, root: Ptr, parent: nat, child: nat) returns (ns: seq<Node>, r: Ptr)
    requires parent < |nodes| && child < |nodes| && parent != child && nodes[parent].right == Ref(child)
    requires var b, g := nodes[child].left, nodes[parent].parent;
      (b.Ref? ==> b.i < |nodes| && b.i != parent && b.i != child) &&
      (g.Ref? ==> g.i < |nodes| && g.i != parent && g.i != child && g != b)
    ensures IsRotation(nodes, root, ns, r, parent, child, false)
  {
    r := root;
    var grandChild := nodes[child].left;
    ns := nodes[parent := nodes[parent].(right := grandChild)];
    ghost var n1 := ns;
    if grandChild.Ref? {
      ns := ns[grandChild.i := ns[grandChild.i].(parent := Ref(parent))];
    }
    ghost var n2 := ns;
    var g := ns[parent].parent;
    ns := ns[child := ns[child].(parent := g)];
    ghost var n3 := ns;
    if g.Null? {
      r := Ref(child);
    } else if IsLeftChild(ns, parent) {
      ns := ns[g.i := ns[g.i].(left := Ref(child))];
    } else {
      ns := ns[g.i := ns[g.i].(right := Ref(child))];
    }
    ghost var n4 := ns;
    ns := ns[child := ns[child].(left := Ref(parent))];
    ghost var n5 := ns;
    ns := ns[parent := ns[parent].(parent := Ref(child))];
    RotationBySteps(nodes, root, parent, child, false, n1, n2, n3, n4, n5, ns, r);
  }

  /**
   * The links rightRotation rewrites: `child`, the left child of `parent`, takes
   * its place and `parent` becomes its right child.
   * Every field assignment of the Java method, on a copy of the arena.
   */
  method RightRelink(nodes: seq<Node>, root: Ptr, parent: nat, child: nat) returns (ns: seq<Node>, r: Ptr)
    requires parent < |nodes| && child < |nodes| && parent != child && nodes[parent].left == Ref(child)
    requires var b, g := nodes[child].right, nodes[parent].parent;
      (b.Ref? ==> b.i < |nodes| && b.i != parent && b.i != child) &&
      (g.Ref? ==> g.i < |nodes| && g.i != parent && g.i != child && g != b)
    ensures IsRotation(nodes, root, ns, r, parent, child, true)
  {
    r := root;
    var grandChild := nodes[child].right;
    ns := nodes[parent := nodes[parent].(left := grandChild)];
    ghost var n1 := ns;
    if grandChild.Ref? {
      ns := ns[grandChild.i := ns[grandChild.i].(parent := Ref(parent))];
    }
    ghost var n2 := ns;
    var g := ns[parent].parent;
    ns := ns[child := ns[child].(parent := g)];
    ghost var n3 := ns;
    if g.Null? {
      r := Ref(child);
    } else if IsLeftChild(ns, parent) {
      ns := ns[g.i := ns[g.i].(left := Ref(child))];
    } else {
      ns := ns[g.i := ns[g.i].(right := Ref(child))];
    }
    ghost var n4 := ns;
    ns := ns[child := ns[child].(right := Ref(parent))];
    ghost var n5 := ns;
    ns := ns[parent := ns[parent].(parent := Ref(child))];
    RotationBySteps(nodes, root, parent, child, true, n1, n2, n3, n4, n5, ns, r);
  }

  /**
   * The four field assignments rotateLeft (`cIsLeft` false) and
   * rightRotation(node) (`cIsLeft` true) make before their call to
   * moveChild: `p` adopts `c`'s inner subtree, and `c` takes `p` as child.
   */
  method RotateLinks(nodes: seq<Node>, ghost root: Ptr, p: nat, c: nat, cIsLeft: bool) returns (ns: seq<Node>)
    requires RotatePre(nodes, p, c, cIsLeft)
    ensures var g := nodes[p].parent;
      g.Ref? ==> g.i < |ns| && (ns[g.i].left == Ref(p) || ns[g.i].right == Ref(p))
    ensures var g := nodes[p].parent;
      IsRotation(nodes, root, MovedNodes(ns, g, p, Ref(c)), MovedRoot(root, g, Ref(c)), p, c, cIsLeft)
  {
    var b := Child(nodes[c], !cIsLeft);
    ns := nodes[p := WithChild(nodes[p], cIsLeft, b)];
    ghost var n1 := ns;
    if b.Ref? {
      ns := ns[b.i := ns[b.i].(parent := Ref(p))];
    }
    ghost var n2 := ns;
    ns := ns[c := WithChild(ns[c], !cIsLeft, Ref(p))];
    ghost var n3 := ns;
    ns := ns[p := ns[p].(parent := Ref(c))];
    RotationByMoveSteps(nodes, root, p, c, cIsLeft, n1, n2, n3, ns);
  }

  /**
   * The in-order list around a node `x` and its successor `s`, the first
   * node of its right subtree: they are adjacent, each occurs once, and
   * dropping the element of `x` from the element sequence leaves that of
   * the list without `x`.
   */
  lemma SuccessorSplit(nodes: seq<Node>, root: Ptr, sub: Subs, x: nat, xr: nat, s: nat) returns (A: seq<nat>, B: seq<nat>)
    requires Wf(nodes, root, sub) && NoNull(nodes, sub) && x in sub && x < |nodes| && nodes[x].right == Ref(xr)
    requires xr in sub && |sub[xr]| > 0 && sub[xr][0] == s
    ensures Order(root, sub) == A + [x] + [s] + B
    ensures x !in A && x !in B && x != s && s !in A + [x] && s !in B
    ensures forall j :: j in A || j in B ==> j < |nodes|
    ensures Ascending(nodes, A + [x] + [s] + B)
    ensures var E := DataSeq(nodes, Order(root, sub));
      |A| < |E| && E[|A|] == DataAt(nodes, x) && E[..|A|] + E[|A|+1..] == DataSeq(nodes, A + ([s] + B))
  {
    var Q;
    A, Q := OrderAround(nodes, root, sub, x);
    B := sub[xr][1..] + Q;
    assert sub[xr] == [s] + sub[xr][1..];
    assert Order(root, sub) == (A + [x]) + [s] + B;
    assert A + [x] + ([s] + B) == Order(root, sub);
    OrderIsLive(nodes, root, sub);
    DistinctMiddle(A + [x], s, B);
    DropEntry(nodes, A, x, [s] + B);
    OrderSorted(nodes, root, sub);
    AscendingIsSorted(nodes, Order(root, sub));
    assert forall j :: j in A || j in B ==> j in Order(root, sub);
  }

  class RedBlackTree {
    var nodes: seq<Node>
    var root: Ptr
    var size: int
    ghost var sub: Subs

    /** The arena holds a well-formed binary search tree, with no placeholder node in it. */
    ghost predicate Valid()
      reads this
    {
      Wf(nodes, root, sub) && NoNull(nodes, sub)
    }

    /** The colours obey the red-black rules for some choice of black counts. */
    ghost predicate IsRedBlack()
      reads this
    {
      exists bh :: RedBlack(nodes, sub, bh)
    }

    /** The elements in in-order sequence. */
    ghost function Elements(): seq<Option<Song>>
      reads this
    {
      DataSeq(nodes, Order(root, sub))
    }

    /** The implicit constructor: an empty tree of size 0. */
    constructor ()
      ensures Valid() && IsRedBlack() && Counted() && root == Null && size == 0 && Elements() == []
    {
      nodes := [];
      root := Null;
      size := 0;
      sub := map[];
      assert RedBlack([], map[], map[]);
    }

    /** The elements of a valid tree are present and strictly ascending. */
    lemma ElementsSorted()
      requires Valid()
      ensures Sorted(Elements())
      ensures forall k :: 0 <= k < |Elements()| ==> Elements()[k].Some?
      ensures |Elements()| == |sub.Keys|
    {
      OrderSorted(nodes, root, sub);
      OrderIsLive(nodes, root, sub);
    }

    /**
     * leftRotation: `child`, the right child of `parent`, takes `parent`'s
     * place; `parent` becomes its left child and adopts its left subtree.
     */
    method LeftRotation(child: nat, parent: nat)
      requires Valid() && parent in sub && parent < |nodes| && child < |nodes| && nodes[parent].right == Ref(child)
      modifies this
      ensures RotatedTree(old(nodes), old(root), old(sub), nodes, root, sub, parent, child, false)
      ensures size == old(size)
    {
      RotationIndices(nodes, root, sub, parent, child, false);
      var ns, r := LeftRelink(nodes, root, parent, child);
      RotationKeepsValid(nodes, root, sub, ns, r, parent, child, false);
      nodes, root, sub := ns, r, RotatedSubs(ns, sub, parent, child);
    }

    /**
     * rightRotation: `child`, the left child of `parent`, takes `parent`'s
     * place; `parent` becomes its right child and adopts its right subtree.
     */
    method RightRotation(child: nat, parent: nat)
      requires Valid() && parent in sub && parent < |nodes| && child < |nodes| && nodes[parent].left == Ref(child)
      modifies this
      ensures RotatedTree(old(nodes), old(root), old(sub), nodes, root, sub, parent, child, true)
      ensures size == old(size)
    {
      RotationIndices(nodes, root, sub, parent, child, true);
      var ns, r := RightRelink(nodes, root, parent, child);
      RotationKeepsValid(nodes, root, sub, ns, r, parent, child, true);
      nodes, root, sub := ns, r, RotatedSubs(ns, sub, parent, child);
    }

    /**
     * rotate: a right rotation when `child` is the left child of `parent`,
     * a left rotation when it is the right child, and IllegalArgument when
     * the two are not parent and child.
     */
    method Rotate(child: nat, parent: nat) returns (r: Result<()>)
      requires Valid() && child in sub && parent in sub && child < |nodes| && parent < |nodes|
      modifies this
      ensures r.Err? <==> old(nodes[child].parent != Ref(parent) || (nodes[parent].left != Ref(child) && nodes[parent].right != Ref(child)))
      ensures r.Err? ==> r.error == IllegalArgument && nodes == old(nodes) && root == old(root) && sub == old(sub)
      ensures r.Ok? ==> IsRotation(old(nodes), old(root), nodes, root, parent, child, old(nodes[parent].left == Ref(child)))
      ensures r.Ok? ==> sub == RotatedSubs(nodes, old(sub), parent, child) && sub[child] == old(sub[parent])
      ensures Valid() && sub.Keys == old(sub.Keys) && Elements() == old(Elements()) && size == old(size)
    {
      if nodes[child].parent != Ref(parent) || (nodes[parent].left != Ref(child) && nodes[parent].right != Ref(child)) {
        return Err(IllegalArgument);
      }
      if IsLeftChild(nodes, child) {
        RightRotation(child, parent);
      } else {
        LeftRotation(child, parent);
      }
      r := Ok(());
    }

    /**
     * handleCase3 (the uncle is red): the grandparent turns red, the parent
     * and the uncle black.
     */
    method HandleCase3(parent: nat, grandParent: nat, uncle: nat)
      requires Valid()
      modifies this
      ensures nodes == SetColour(SetColour(SetColour(old(nodes), grandParent, RED), parent, BLACK), uncle, BLACK)
      ensures root == old(root) && sub == old(sub) && size == old(size)
      ensures Valid() && Elements() == old(Elements())
    {
      RecolourKeepsValid(nodes, root, sub, grandParent, RED);
      nodes := SetColour(nodes, grandParent, RED);
      RecolourKeepsValid(nodes, root, sub, parent, BLACK);
      nodes := SetColour(nodes, parent, BLACK);
      RecolourKeepsValid(nodes, root, sub, uncle, BLACK);
      nodes := SetColour(nodes, uncle, BLACK);
    }

    /**
     * handleCase1 (the uncle is not red, and the red `x` is on the same side
     * of its parent `node` as `node` is of `parent`): rotate `node` up over
     * `parent`, then colour `node` black and `parent` red. The tree is then
     * red-black again, with the same black counts.
     */
    method HandleCase1(node: nat, parent: nat, ghost x: nat, ghost bh: Heights)
      requires Valid() && node in sub && parent in sub && node < |nodes| && nodes[node].parent == Ref(parent)
      modifies this
      ensures Valid() && sub.Keys == old(sub.Keys) && Elements() == old(Elements())
      ensures size == old(size) && |nodes| == old(|nodes|)
      ensures nodes[node].blackHeight == BLACK && nodes[parent].blackHeight == RED && nodes[parent].parent == Ref(node)
      ensures sub == old(sub)[parent := sub[parent]][node := old(sub[parent])]
      ensures old(Case1Pre(nodes, root, sub, bh, x) && nodes[x].parent == Ref(node)) ==> RedBlack(nodes, sub, bh)
    {
      ghost var nodes0, root0, sub0 := nodes, root, sub;
      Links(nodes, root, sub, node);
      var r := Rotate(node, parent);
      assert r.Ok?;
      ghost var nodes1 := nodes;
      nodes := SetColour(nodes, node, BLACK);
      nodes := SetColour(nodes, parent, RED);
      Case1Finish(nodes0, root0, sub0, bh, x, node, parent, nodes1, root, sub);
    }

    /**
     * handleCase2 (the uncle is not red, and the red `node` is on the other
     * side of its parent than the parent is of `grandParent`): rotate `node`
     * up over `parent`, which leaves the handleCase1 situation, and finish
     * with handleCase1 on `node` and `grandParent`.
     */
    method HandleCase2(node: nat, parent: nat, grandParent: nat, ghost bh: Heights)
      requires Valid() && node in sub && parent in sub && grandParent in sub && node < |nodes| && parent < |nodes|
      requires nodes[node].parent == Ref(parent) && nodes[parent].parent == Ref(grandParent)
      modifies this
      ensures Valid() && sub.Keys == old(sub.Keys) && Elements() == old(Elements())
      ensures size == old(size) && |nodes| == old(|nodes|)
      ensures sub[node] == old(sub[grandParent])
      ensures old(Case2Pre(nodes, root, sub, bh, node)) ==> RedBlack(nodes, sub, bh)
    {
      ghost var nodes0, root0, sub0 := nodes, root, sub;
      Links(nodes, root, sub, node);
      var r := Rotate(node, parent);
      assert r.Ok?;
      Case2Middle(nodes0, root0, sub0, bh, node, parent, grandParent, nodes, root, sub);
      HandleCase1(node, grandParent, parent, bh);
    }

    /**
     * propertiesHelper: repairs a red `node` under a red parent by case 1,
     * 2 or 3. If that pair was the only one and the black counts agreed, the
     * fix-up can go on from the node's (new) parent.
     */
    method PropertiesHelper(node: nat, ghost bh: Heights) returns (ghost bh': Heights)
      requires Valid() && node in sub
      modifies this
      ensures Valid() && sub.Keys == old(sub.Keys) && Elements() == old(Elements())
      ensures size == old(size) && |nodes| == old(|nodes|)
      ensures node < |nodes| && |sub[node]| >= old(|sub[node]|)
      ensures old(Balanced(nodes, sub, bh) && RedRedOnly(nodes, sub, Ref(node)) && RedRed(nodes, node)) ==>
        InsertFixPre(nodes, root, sub, bh', nodes[node].parent)
    {
      bh' := bh;
      ghost var nodes0, root0, sub0 := nodes, root, sub;
      ghost var pre := Balanced(nodes, sub, bh) && RedRedOnly(nodes, sub, Ref(node)) && RedRed(nodes, node);
      ParentLonger(nodes, root, sub, node);
      if nodes[node].parent.Null? {
        return;
      }
      var parent := nodes[node].parent.i;
      ParentLonger(nodes, root, sub, parent);
      if nodes[parent].parent.Null? {
        if pre {
          FixPreAtRoot(nodes, root, sub, bh, node);
        }
        return;
      }
      var grandParent := nodes[parent].parent.i;
      bh' := RepairRedPair(node, parent, grandParent, bh);
    }

    /**
     * The three cases of propertiesHelper, once the red `node`, its parent
     * and its grandparent are known.
     */
    method RepairRedPair(node: nat, parent: nat, grandParent: nat, ghost bh: Heights) returns (ghost bh': Heights)
      requires Valid() && node in sub && parent in sub && grandParent in sub
      requires node < |nodes| && parent < |nodes| && nodes[node].parent == Ref(parent) && nodes[parent].parent == Ref(grandParent)
      requires |sub[node]| < |sub[parent]| < |sub[grandParent]|
      modifies this
      ensures Valid() && sub.Keys == old(sub.Keys) && Elements() == old(Elements())
      ensures size == old(size) && |nodes| == old(|nodes|)
      ensures node < |nodes| && |sub[node]| >= old(|sub[node]|)
      ensures old(Balanced(nodes, sub, bh) && RedRedOnly(nodes, sub, Ref(node)) && RedRed(nodes, node)) ==>
        InsertFixPre(nodes, root, sub, bh', nodes[node].parent)
    {
      bh' := bh;
      ghost var nodes0, root0, sub0 := nodes, root, sub;
      ghost var pre := Balanced(nodes, sub, bh) && RedRedOnly(nodes, sub, Ref(node)) && RedRed(nodes, node);
      Links(nodes, root, sub, grandParent);
      assert node != parent && node != grandParent && parent != grandParent;
      var uncle := if IsLeftChild(nodes, parent) then nodes[grandParent].right else nodes[grandParent].left;
      var kind := if uncle.Ref? && nodes[uncle.i].blackHeight == 0 then 3
        else if IsLeftChild(nodes, parent) == IsLeftChild(nodes, node) then 1
        else 2;
      ghost var pair := PairAt(nodes, root, sub, bh, node, parent, grandParent);
      assert pre ==> pair;
      if kind == 1 {
        HandleCase1(parent, grandParent, node, bh);
        assert sub.Keys == sub0.Keys && sub[node] == sub0[node];
        if pre {
          Case1Done(nodes0, root0, sub0, bh, node, parent, grandParent, nodes, root, sub, nodes[node].parent);
        }
      } else if kind == 2 {
        HandleCase2(node, parent, grandParent, bh);
        assert |sub[node]| == |sub0[grandParent]| > |sub0[parent]| > |sub0[node]|;
        if pre {
          Case2Done(nodes0, root0, sub0, bh, node, parent, grandParent, nodes, root, sub, nodes[node].parent);
        }
      } else {
        HandleCase3(parent, grandParent, uncle.i);
        assert sub == sub0;
        if pre {
          Case3Done(nodes0, root0, sub0, bh, node, parent, grandParent, uncle.i, nodes);
          bh' := bh[grandParent := bh[grandParent] + 1];
        }
      }
    }

    /**
     * enforceRBTreePropertiesAfterInsert: walks from `y` up to the root and
     * repairs each red node found under a red parent. From what a fresh red
     * leaf gives it, it leaves the black counts equal and red-red pairs only
     * right below the root, which insert removes by colouring the root black.
     */
    method EnforceRBTreePropertiesAfterInsert(y: Ptr, ghost bh: Heights) returns (ghost bh': Heights)
      requires Valid() && (y.Ref? ==> y.i in sub)
      modifies this
      ensures Valid() && sub.Keys == old(sub.Keys) && Elements() == old(Elements())
      ensures size == old(size) && |nodes| == old(|nodes|)
      ensures old(InsertFixPre(nodes, root, sub, bh, y)) ==> Balanced(nodes, sub, bh') && RedRedBelowRoot(nodes, root, sub)
      decreases if y.Ref? && y.i in sub then |sub.Keys| - |sub[y.i]| + 1 else 0
    {
      bh' := bh;
      ghost var fixPre := InsertFixPre(nodes, root, sub, bh, y);
      if y.Null? {
        if fixPre {
          FixPreDone(nodes, root, sub, bh, y);
        }
        return;
      }
      ParentLonger(nodes, root, sub, y.i);
      SubBounded(nodes, root, sub, y.i);
      if nodes[y.i].parent.Null? {
        if fixPre {
          FixPreDone(nodes, root, sub, bh, y);
        }
        return;
      }
      bh' := CheckRedPair(y.i, bh);
      ParentLonger(nodes, root, sub, y.i);
      var parent := nodes[y.i].parent;
      if parent.Ref? {
        SubBounded(nodes, root, sub, parent.i);
      }
      bh' := EnforceRBTreePropertiesAfterInsert(parent, bh');
    }

    /**
     * The test of enforceRBTreePropertiesAfterInsert at a node `y` below the
     * root: a red `y` under a red parent goes to propertiesHelper.
     */
    method CheckRedPair(y: nat, ghost bh: Heights) returns (ghost bh': Heights)
      requires Valid() && y in sub && y < |nodes| && nodes[y].parent.Ref? && nodes[y].parent.i < |nodes|
      modifies this
      ensures Valid() && sub.Keys == old(sub.Keys) && Elements() == old(Elements())
      ensures size == old(size) && |nodes| == old(|nodes|)
      ensures y < |nodes| && |sub[y]| >= old(|sub[y]|)
      ensures old(InsertFixPre(nodes, root, sub, bh, Ref(y))) ==> InsertFixPre(nodes, root, sub, bh', nodes[y].parent)
    {
      bh' := bh;
      ghost var fixPre := InsertFixPre(nodes, root, sub, bh, Ref(y));
      if nodes[y].blackHeight == 0 && nodes[nodes[y].parent.i].blackHeight == 0 {
        bh' := PropertiesHelper(y, bh);
      } else if fixPre {
        FixPreUp(nodes, root, sub, bh, y);
      }
    }

    /**
     * The linking steps of insertHelper: `newNode` (holding `d`, red) becomes
     * the child of `subtree` on the given side, and its parent is set.
     */
    method LinkLeaf(d: Song, subtree: nat, left: bool, ghost bh: Heights) returns (newNode: nat, ghost k: nat)
      requires Valid() && subtree in sub && subtree < |nodes| && Child(nodes[subtree], left) == Null
      requires Fits(nodes, sub, subtree, d) && (if left then KeyBefore(nodes, d, subtree) else KeyAfter(nodes, d, subtree))
      modifies this
      ensures newNode == old(|nodes|) && |nodes| == newNode + 1 && root == old(root) && size == old(size)
      ensures Valid() && sub.Keys == old(sub.Keys) + {newNode} && newNode !in old(sub)
      ensures k <= |old(Elements())| && Elements() == old(Elements())[..k] + [Some(d)] + old(Elements())[k..]
      ensures old(RedBlack(nodes, sub, bh)) ==> InsertFixPre(nodes, root, sub, bh[newNode := 0], Ref(newNode))
    {
      newNode := |nodes|;
      var ns := nodes + [Node(Some(d), Null, Null, Null, RED)];
      if left {
        ns := ns[subtree := ns[subtree].(left := Ref(newNode))];
      } else {
        ns := ns[subtree := ns[subtree].(right := Ref(newNode))];
      }
      ns := ns[newNode := ns[newNode].(parent := Ref(subtree))];
      k := LinkKeepsValid(nodes, root, sub, ns, subtree, d, left, bh);
      nodes, sub := ns, LinkedSubs(sub, subtree, newNode, left);
    }

    /**
     * insertHelper: descends from `subtree` by comparing titles. An equal
     * title stops the descent without change; an empty slot on the chosen
     * side receives the new node.
     */
    method InsertHelper(d: Song, subtree: nat, ghost bh: Heights) returns (inserted: bool, ghost k: nat, ghost bh': Heights)
      requires Valid() && subtree in sub && subtree < |nodes| && Fits(nodes, sub, subtree, d)
      modifies this
      ensures Valid() && size == old(size)
      ensures !inserted ==> nodes == old(nodes) && root == old(root) && sub == old(sub) && HasTitle(Elements(), d.title)
      ensures inserted ==> |nodes| == old(|nodes|) + 1 && sub.Keys == old(sub.Keys) + {old(|nodes|)} && old(|nodes|) !in old(sub)
      ensures inserted ==> k <= |old(Elements())| && Elements() == old(Elements())[..k] + [Some(d)] + old(Elements())[k..]
      ensures inserted && old(RedBlack(nodes, sub, bh)) ==> Balanced(nodes, sub, bh') && RedRedBelowRoot(nodes, root, sub)
      decreases |sub[subtree]|
    {
      LiveHasTitle(nodes, root, sub, subtree);
      var compare := d.CompareTo(nodes[subtree].data.value);
      if compare == 0 {
        CompareToProperties(d, nodes[subtree].data.value);
        return false, 0, bh;
      } else if compare < 0 {
        if nodes[subtree].left.Null? {
          var newNode;
          newNode, k := LinkLeaf(d, subtree, true, bh);
          bh' := EnforceRBTreePropertiesAfterInsert(Ref(newNode), bh[newNode := 0]);
          return true, k, bh';
        } else {
          FitsDescend(nodes, root, sub, subtree, d, true);
          ChildShorter(nodes, root, sub, subtree, true);
          inserted, k, bh' := InsertHelper(d, nodes[subtree].left.i, bh);
        }
      } else {
        CompareToProperties(d, nodes[subtree].data.value);
        if nodes[subtree].right.Null? {
          var newNode;
          newNode, k := LinkLeaf(d, subtree, false, bh);
          bh' := EnforceRBTreePropertiesAfterInsert(Ref(newNode), bh[newNode := 0]);
          return true, k, bh';
        } else {
          FitsDescend(nodes, root, sub, subtree, d, false);
          ChildShorter(nodes, root, sub, subtree, false);
          inserted, k, bh' := InsertHelper(d, nodes[subtree].right.i, bh);
        }
      }
    }

    /**
     * insert: null is refused with NullPointerException; into an empty tree
     * the new node becomes the (red) root; otherwise it is placed by
     * insertHelper, a title already present is refused with
     * IllegalArgumentException, and the root is coloured black.
     */
    method Insert(data: Option<Song>) returns (r: Result<bool>)
      requires Valid()
      modifies this
      ensures Valid()
      ensures data.None? ==> r == Err(NullPointer)
      ensures data.Some? ==> (r.Err? <==> old(HasTitle(Elements(), data.value.title)))
      ensures data.Some? && r.Err? ==> r.error == IllegalArgument
      ensures r.Err? ==> nodes == old(nodes) && root == old(root) && sub == old(sub) && size == old(size)
      ensures r.Ok? ==> r.value && size == old(size) + 1 && |sub.Keys| == old(|sub.Keys|) + 1
      ensures r.Ok? ==> multiset(Elements()) == old(multiset(Elements())) + multiset{data}
      ensures old(IsRedBlack()) ==> IsRedBlack()
      ensures r.Ok? && old(root).Null? ==> root.Ref? && root.i < |nodes| && nodes[root.i].blackHeight == RED
      ensures r.Ok? && old(root).Ref? ==> root.Ref? && root.i < |nodes| && nodes[root.i].blackHeight == BLACK
    {
      if data.None? {
        r := Err(NullPointer);
      } else if root.Null? {
        var d := data.value;
        SingletonValid(nodes, d);
        var newNode := |nodes|;
        nodes := nodes + [Node(Some(d), Null, Null, Null, RED)];
        root := Ref(newNode);
        sub := map[newNode := [newNode]];
        size := size + 1;
        r := Ok(true);
      } else {
        r := InsertBelowRoot(data.value);
      }
    }

    /**
     * The non-empty case of insert: insertHelper places the new node from
     * the root down; a title already present is refused with
     * IllegalArgumentException, otherwise the size grows and the root is
     * coloured black.
     */
    method InsertBelowRoot(d: Song) returns (r: Result<bool>)
      requires Valid() && root.Ref?
      modifies this
      ensures Valid()
      ensures r.Err? <==> old(HasTitle(Elements(), d.title))
      ensures r.Err? ==> r.error == IllegalArgument
      ensures r.Err? ==> nodes == old(nodes) && root == old(root) && sub == old(sub) && size == old(size)
      ensures r.Ok? ==> r.value && size == old(size) + 1 && |sub.Keys| == old(|sub.Keys|) + 1
      ensures r.Ok? ==> multiset(Elements()) == old(multiset(Elements())) + multiset{Some(d)}
      ensures old(IsRedBlack()) ==> IsRedBlack()
      ensures r.Ok? ==> root.Ref? && root.i < |nodes| && nodes[root.i].blackHeight == BLACK
    {
      ghost var bh: Heights := map[];
      ghost var wasRedBlack := IsRedBlack();
      if wasRedBlack {
        bh :| RedBlack(nodes, sub, bh);
      }
      ghost var nodes0, root0, sub0 := nodes, root, sub;
      FitsRoot(nodes, root, sub, d);
      var returnValue, k, bh' := InsertHelper(d, root.i, bh);
      if returnValue {
        r := FinishInsert(d, k, nodes0, root0, sub0, bh, bh');
      } else {
        r := Err(IllegalArgument);
      }
    }

    /**
     * The end of insert once insertHelper has linked `d` in: the size grows
     * and the root is coloured black. `nodes0`, `root0` and `sub0` are the
     * tree before the insertion.
     */
    method FinishInsert(d: Song, ghost k: nat, ghost nodes0: seq<Node>, ghost root0: Ptr, ghost sub0: Subs,
                        ghost bh: Heights, ghost bh': Heights) returns (r: Result<bool>)
      requires Valid() && root.Ref?
      requires sub.Keys == sub0.Keys + {|nodes0|} && |nodes0| !in sub0
      requires var before := DataSeq(nodes0, Order(root0, sub0));
        k <= |before| && Elements() == before[..k] + [Some(d)] + before[k..]
      requires RedBlack(nodes0, sub0, bh) ==> Balanced(nodes, sub, bh') && RedRedBelowRoot(nodes, root, sub)
      modifies this
      ensures var before := DataSeq(nodes0, Order(root0, sub0));
        Valid() && r == Ok(true) && !HasTitle(before, d.title) &&
        multiset(Elements()) == multiset(before) + multiset{Some(d)}
      ensures size == old(size) + 1 && |sub.Keys| == |sub0.Keys| + 1
      ensures RedBlack(nodes0, sub0, bh) ==> IsRedBlack()
      ensures root.Ref? && root.i < |nodes| && nodes[root.i].blackHeight == BLACK
    {
      size := size + 1;
      InsertFinished(nodes0, root0, sub0, bh, k, d, nodes, root, sub, bh');
      nodes := SetColour(nodes, root.i, BLACK);
      if RedBlack(nodes0, sub0, bh) {
        assert RedBlack(nodes, sub, bh');
      }
      r := Ok(true);
    }

    /** The size counter agrees with the number of nodes in the tree. */
    ghost predicate Counted()
      reads this
    {
      size == |sub.Keys|
    }

    /** size: the counter, which is the number of elements while it is kept in step. */
    function Size(): (r: int)
      reads this
      requires Valid()
      ensures Counted() ==> r == |Elements()|
    {
      ElementsSorted();
      size
    }

    /** isEmpty: size() is zero, which means no elements while the counter is kept in step. */
    function IsEmpty(): (r: bool)
      reads this
      requires Valid()
      ensures r <==> Size() == 0
      ensures Counted() ==> (r <==> Elements() == [])
    {
      Size() == 0
    }

    /**
     * containsHelper: the descent from `subtree` that compares `d` with each
     * element; true exactly when the subtree holds an element with d's title.
     */
    function ContainsHelper(d: Song, subtree: Ptr): (r: bool)
      reads this
      requires Valid() && (subtree.Ref? ==> subtree.i in sub)
      ensures r <==> HasTitle(DataSeq(nodes, SubOf(sub, subtree)), d.title)
      decreases |SubOf(sub, subtree)|
    {
      if subtree.Null? then false
      else
        DescentStep(nodes, root, sub, subtree.i, d);
        var compare := d.CompareTo(nodes[subtree.i].data.value);
        if compare < 0 then ContainsHelper(d, nodes[subtree.i].left)
        else if compare > 0 then ContainsHelper(d, nodes[subtree.i].right)
        else true
    }

    /** contains: null is refused; otherwise whether some element has the title of `data`. */
    function Contains(data: Option<Song>): (r: Result<bool>)
      reads this
      requires Valid()
      ensures data.None? ==> r == Err(NullPointer)
      ensures data.Some? ==> r.Ok? && (r.value <==> HasTitle(Elements(), data.value.title))
    {
      if data.None? then Err(NullPointer)
      else Ok(ContainsHelper(data.value, root))
    }

    /**
     * moveChild: `newChild` takes the slot of `deletedChild` under `parent`
     * (becomes the root when `parent` is null) and points back to `parent`;
     * IllegalStateException when `deletedChild` is not a child of `parent`.
     */
    method MoveChild(parent: Ptr, deletedChild: nat, newChild: Ptr) returns (r: Result<()>)
      requires parent.Ref? ==> parent.i < |nodes|
      requires newChild.Ref? ==> newChild.i < |nodes|
      modifies this
      ensures r.Err? <==> parent.Ref? && old(nodes[parent.i].left) != Ref(deletedChild) && old(nodes[parent.i].right) != Ref(deletedChild)
      ensures r.Err? ==> r.error == IllegalState && nodes == old(nodes) && root == old(root)
      ensures r.Ok? ==> nodes == MovedNodes(old(nodes), parent, deletedChild, newChild) && root == MovedRoot(old(root), parent, newChild)
      ensures sub == old(sub) && size == old(size)
    {
      if parent.Null? {
        root := newChild;
      } else if nodes[parent.i].left == Ref(deletedChild) {
        nodes := nodes[parent.i := nodes[parent.i].(left := newChild)];
      } else if nodes[parent.i].right == Ref(deletedChild) {
        nodes := nodes[parent.i := nodes[parent.i].(right := newChild)];
      } else {
        return Err(IllegalState);
      }
      if newChild.Ref? {
        nodes := nodes[newChild.i := nodes[newChild.i].(parent := parent)];
      }
      r := Ok(());
    }

    /**
     * getSiblingNode: the other child of `node`'s parent (possibly null);
     * NullPointerException for a parentless node, IllegalStateException
     * when the parent does not have `node` as a child.
     */
    function GetSiblingNode(node: nat): (r: Result<Ptr>)
      reads this
      requires node < |nodes|
      ensures var p := nodes[node].parent;
        (p.Null? ==> r == Err(NullPointer)) &&
        (p.Ref? && p.i < |nodes| && nodes[p.i].left == Ref(node) ==> r == Ok(nodes[p.i].right)) &&
        (p.Ref? && p.i < |nodes| && nodes[p.i].left != Ref(node) && nodes[p.i].right == Ref(node) ==> r == Ok(nodes[p.i].left)) &&
        (p.Ref? && p.i < |nodes| && nodes[p.i].left != Ref(node) && nodes[p.i].right != Ref(node) ==> r == Err(IllegalState))
    {
      var p := nodes[node].parent;
      if p.Null? || p.i >= |nodes| then Err(NullPointer)
      else if nodes[p.i].left == Ref(node) then Ok(nodes[p.i].right)
      else if nodes[p.i].right == Ref(node) then Ok(nodes[p.i].left)
      else Err(IllegalState)
    }

    /** In a well-formed tree getSiblingNode never fails below the root: its IllegalStateException is unreachable. */
    lemma SiblingFound(node: nat)
      requires Wf(nodes, root, sub) && node in sub && Ref(node) != root
      ensures node < |nodes| && nodes[node].parent.Ref? && GetSiblingNode(node).Ok?
      ensures var p := nodes[node].parent.i;
        GetSiblingNode(node).value == Child(nodes[p], nodes[p].left != Ref(node))
    {
      Links(nodes, root, sub, node);
      var p := nodes[node].parent;
      ChildrenDiffer(nodes, root, sub, p.i);
    }

    /**
     * rotateLeft: the right child of `node` takes its place, `node` becomes
     * that child's left child and adopts its former left subtree.
     */
    method RotateLeft(node: nat, ghost ph: Ptr)
      requires FixOk(nodes, root, sub, ph) && node in sub && node < |nodes|
      requires nodes[node].right.Ref? && nodes[node].right.i < |nodes|
      requires ph.Ref? ==> ph.i !in SubOf(sub, nodes[node].right)
      modifies this
      ensures IsRotation(old(nodes), old(root), nodes, root, node, old(nodes[node].right.i), false)
      ensures sub == RotatedSubs(nodes, old(sub), node, old(nodes[node].right.i))
      ensures sub[old(nodes[node].right.i)] == old(sub[node])
      ensures FixOk(nodes, root, sub, ph) && sub.Keys == old(sub.Keys) && SameData(old(nodes), nodes)
      ensures Order(root, sub) == old(Order(root, sub)) && size == old(size)
    {
      RotateReady(nodes, root, sub, node, false);
      ghost var n0, r0 := nodes, root;
      var parent := nodes[node].parent;
      var child := nodes[node].right.i;
      nodes := RotateLinks(nodes, root, node, child, false);
      var r := MoveChild(parent, node, Ref(child));
      RotationFix(n0, r0, sub, nodes, root, node, child, false, ph);
      sub := RotatedSubs(nodes, sub, node, child);
    }

    /**
     * rightRotation(node): the left child of `node` takes its place, `node`
     * becomes that child's right child and adopts its former right subtree.
     */
    method RightRotationAt(node: nat, ghost ph: Ptr)
      requires FixOk(nodes, root, sub, ph) && node in sub && node < |nodes|
      requires nodes[node].left.Ref? && nodes[node].left.i < |nodes|
      requires ph.Ref? ==> ph.i !in SubOf(sub, nodes[node].left)
      modifies this
      ensures IsRotation(old(nodes), old(root), nodes, root, node, old(nodes[node].left.i), true)
      ensures sub == RotatedSubs(nodes, old(sub), node, old(nodes[node].left.i))
      ensures sub[old(nodes[node].left.i)] == old(sub[node])
      ensures FixOk(nodes, root, sub, ph) && sub.Keys == old(sub.Keys) && SameData(old(nodes), nodes)
      ensures Order(root, sub) == old(Order(root, sub)) && size == old(size)
    {
      RotateReady(nodes, root, sub, node, true);
      ghost var n0, r0 := nodes, root;
      var parent := nodes[node].parent;
      var child := nodes[node].left.i;
      nodes := RotateLinks(nodes, root, node, child, true);
      var r := MoveChild(parent, node, Ref(child));
      RotationFix(n0, r0, sub, nodes, root, node, child, true, ph);
      sub := RotatedSubs(nodes, sub, node, child);
    }

    /**
     * least: follows left children from `node` down to the first node of
     * its subtree in in-order sequence, which holds the subtree's least
     * element.
     */
    method Least(node: nat) returns (s: nat)
      requires Wf(nodes, root, sub) && node in sub
      ensures s in sub && s < |nodes| && nodes[s].left.Null?
      ensures |sub[s]| > 0 && sub[s][0] == s && |sub[node]| > 0 && sub[node][0] == s
      ensures NoNull(nodes, sub) ==> forall k :: 0 < k < |sub[node]| ==> Ordered(nodes, s, sub[node][k])
    {
      s := node;
      ListAt(nodes, root, sub, s);
      while nodes[s].left.Ref?
        invariant s in sub && s < |nodes| && |sub[s]| > 0 && sub[s][0] == sub[node][0]
        decreases |sub[s]|
      {
        ListAt(nodes, root, sub, s);
        ChildShorter(nodes, root, sub, s, true);
        var l := nodes[s].left.i;
        ListAt(nodes, root, sub, l);
        s := l;
      }
      ListAt(nodes, root, sub, s);
      ListAt(nodes, root, sub, node);
      if NoNull(nodes, sub) {
        SubSorted(nodes, root, sub, node);
      }
    }

    /**
     * removeForAtleastOneChild: `x`, which has at most one child, gives its
     * slot to that child; a leaf gives it to null when it is red and to a
     * new black placeholder holding null when it is black. The result is
     * the node that moved up, and the placeholder (if any) is the only
     * node without an element.
     */
    method RemoveForAtleastOneChild(x: nat) returns (movedUp: Ptr, ghost ph: Ptr)
      requires Valid() && x in sub && x < |nodes| && (nodes[x].left.Null? || nodes[x].right.Null?)
      modifies this
      ensures var n, left, right := |old(nodes)|, old(nodes[x].left), old(nodes[x].right);
        movedUp == (if left.Ref? then left else if right.Ref? then right
                    else if old(nodes[x].blackHeight) == BLACK then Ref(n) else Null) &&
        (ph.Ref? <==> left.Null? && right.Null? && old(nodes[x].blackHeight) == BLACK) &&
        (ph.Ref? ==> ph == movedUp)
      ensures nodes == MovedNodes(if ph.Ref? then old(nodes) + [Placeholder] else old(nodes), old(nodes[x].parent), x, movedUp)
      ensures root == MovedRoot(old(root), old(nodes[x].parent), movedUp)
      ensures FixOk(nodes, root, sub, ph) && sub.Keys == old(sub.Keys) - {x} + (if ph.Ref? then {ph.i} else {})
      ensures Order(root, sub) == Subst(old(Order(root, sub)), x, if ph.Ref? then [ph.i] else [])
      ensures movedUp.Ref? ==> movedUp.i in sub && (ph.Ref? ==> ph.i in sub[movedUp.i])
      ensures x < |nodes| && nodes[x] == old(nodes[x]) && size == old(size)
      ensures forall j :: 0 <= j < |old(nodes)| ==> DataAt(nodes, j) == old(DataAt(nodes, j))
      ensures old(IsRedBlack()) && old(nodes[x].blackHeight) == BLACK ==> movedUp.Ref? && Short(nodes, sub, movedUp.i, ph)
    {
      ghost var bh: Heights := map[];
      ghost var wasRedBlack := IsRedBlack();
      if wasRedBlack {
        bh :| RedBlack(nodes, sub, bh);
      }
      if nodes[x].left.Ref? || nodes[x].right.Ref? {
        var c := if nodes[x].left.Ref? then nodes[x].left else nodes[x].right;
        if wasRedBlack && nodes[x].blackHeight == BLACK {
          SpliceShort(nodes, root, sub, bh, x, c.i);
        }
        SpliceOut(x, c);
        movedUp, ph := c, Null;
        assert wasRedBlack && old(nodes[x].blackHeight) == BLACK ==> ShortBy(nodes, sub, bh, c.i, Null);
      } else if nodes[x].blackHeight == BLACK {
        if wasRedBlack {
          PlaceShort(nodes, root, sub, bh, x);
        }
        var n := PlaceOut(x);
        movedUp, ph := Ref(n), Ref(n);
        assert wasRedBlack ==> ShortBy(nodes, sub, bh[n := 0], n, Ref(n));
      } else {
        SpliceOut(x, Null);
        movedUp, ph := Null, Null;
      }
    }

    /** `x`, with at most the one child `c`, gives its slot to `c`. */
    method SpliceOut(x: nat, c: Ptr)
      requires Valid() && x in sub && x < |nodes| && OnlyChild(nodes, x, c)
      modifies this
      ensures nodes == MovedNodes(old(nodes), old(nodes[x].parent), x, c)
      ensures root == MovedRoot(old(root), old(nodes[x].parent), c) && sub == SubstSubs(old(sub), x, [])
      ensures FixOk(nodes, root, sub, Null) && sub.Keys == old(sub.Keys) - {x}
      ensures Order(root, sub) == Subst(old(Order(root, sub)), x, [])
      ensures c.Ref? ==> c.i in sub
      ensures x < |nodes| && nodes[x] == old(nodes[x]) && SameData(old(nodes), nodes) && size == old(size)
    {
      var parent := nodes[x].parent;
      SpliceParent(nodes, root, sub, x);
      SpliceFix(nodes, root, sub, x, c);
      SpliceWf(nodes, root, sub, x, c);
      SpliceChild(nodes, root, sub, x, c);
      var r := MoveChild(parent, x, c);
      sub := SubstSubs(sub, x, []);
    }

    /** The leaf `x` gives its slot to a new black placeholder holding null, at index `n`. */
    method PlaceOut(x: nat) returns (n: nat)
      requires Valid() && IsLeaf(nodes, sub, x)
      modifies this
      ensures n == |old(nodes)| && nodes == MovedNodes(old(nodes) + [Placeholder], old(nodes[x].parent), x, Ref(n))
      ensures root == MovedRoot(old(root), old(nodes[x].parent), Ref(n)) && sub == PlacedSubs(old(sub), x, n)
      ensures FixOk(nodes, root, sub, Ref(n)) && sub.Keys == old(sub.Keys) - {x} + {n}
      ensures Order(root, sub) == Subst(old(Order(root, sub)), x, [n])
      ensures x < |nodes| && nodes[x] == old(nodes[x]) && size == old(size)
      ensures forall j :: 0 <= j < |old(nodes)| ==> DataAt(nodes, j) == old(DataAt(nodes, j))
    {
      var parent := nodes[x].parent;
      n := |nodes|;
      SpliceParent(nodes, root, sub, x);
      PlaceFix(nodes, root, sub, x);
      PlaceWf(nodes, root, sub, x);
      nodes := nodes + [Placeholder];
      var r := MoveChild(parent, x, Ref(n));
      sub := PlacedSubs(sub, x, n);
    }

    /**
     * The state after a node has been taken out of the tree and before the
     * fix-up: `movedUp` is the node that took its place (present whenever
     * the removed colour is black), the placeholder if any is `movedUp`,
     * and `keep` is the in-order list once the placeholder is unlinked.
     */
    ghost predicate Detached(movedUp: Ptr, colour: int, ph: Ptr, keep: seq<nat>)
      reads this
    {
      FixOk(nodes, root, sub, ph) &&
      (colour == BLACK ==> movedUp.Ref? && movedUp.i in sub && (ph.Ref? ==> ph.i in sub[movedUp.i])) &&
      (colour != BLACK ==> ph.Null?) && (ph.Ref? ==> ph == movedUp) &&
      (if ph.Ref? then Subst(Order(root, sub), ph.i, []) else Order(root, sub)) == keep
    }

    /** removeHelper on a node `x` with at most one child: `x` itself is taken out. */
    method DetachDirect(x: nat) returns (movedUp: Ptr, colour: int, ghost ph: Ptr, ghost keep: seq<nat>, ghost k: nat)
      requires Valid() && x in sub && x < |nodes| && (nodes[x].left.Null? || nodes[x].right.Null?)
      modifies this
      ensures Detached(movedUp, colour, ph, keep) && colour == old(nodes[x].blackHeight) && size == old(size)
      ensures k < |old(Elements())| && old(Elements())[k] == old(DataAt(nodes, x))
      ensures DataSeq(nodes, keep) == old(Elements())[..k] + old(Elements())[k+1..]
      ensures old(IsRedBlack()) && colour == BLACK ==> movedUp.Ref? && Short(nodes, sub, movedUp.i, ph)
    {
      ghost var A, Q := OrderAround(nodes, root, sub, x);
      ghost var B := SubOf(sub, nodes[x].right) + Q;
      ghost var n0, O0 := nodes, Order(root, sub);
      DropEntry(nodes, A, x, B);
      movedUp, ph := RemoveForAtleastOneChild(x);
      colour := nodes[x].blackHeight;
      keep, k := A + B, |A|;
      KeepAfterDetach(O0, A, x, B, Order(root, sub), ph, |n0|);
      assert forall j :: j in A + B ==> j in O0;
      DataSeqSame(n0, nodes, A + B);
    }

    /**
     * removeHelper on a node `x` with two children: its successor `s`, the
     * least node of its right subtree, is taken out and its element moves
     * into `x`. (The source writes the element into `x` first; the two
     * steps touch different fields, and taking `s` out first keeps every
     * intermediate tree free of a repeated element.)
     */
    method DetachSuccessor(x: nat) returns (movedUp: Ptr, colour: int, s: nat, ghost ph: Ptr, ghost keep: seq<nat>, ghost k: nat)
      requires Valid() && x in sub && x < |nodes| && nodes[x].left.Ref? && nodes[x].right.Ref?
      modifies this
      ensures s < |old(nodes)| && colour == old(nodes[s].blackHeight) && x < |nodes| && DataAt(nodes, x) == old(DataAt(nodes, s))
      ensures Detached(movedUp, colour, ph, keep) && size == old(size)
      ensures k < |old(Elements())| && old(Elements())[k] == old(DataAt(nodes, x))
      ensures DataSeq(nodes, keep) == old(Elements())[..k] + old(Elements())[k+1..]
      ensures old(IsRedBlack()) && colour == BLACK ==> movedUp.Ref? && Short(nodes, sub, movedUp.i, ph)
    {
      ghost var n0, O0 := nodes, Order(root, sub);
      var d;
      ghost var A, B;
      movedUp, colour, s, d, ph, A, B := DetachLeast(x);
      ghost var n1 := nodes;
      if old(IsRedBlack()) && colour == BLACK {
        ghost var bh :| ShortBy(nodes, sub, bh, movedUp.i, ph);
        ShortWithData(nodes, sub, bh, movedUp.i, ph, x, d);
      }
      nodes := WithData(nodes, x, d);
      keep, k := A + [x] + B, |A|;
      assert Detached(movedUp, colour, ph, keep) && DataSeq(nodes, keep) == old(Elements())[..k] + old(Elements())[k+1..] by {
        RewriteFix(n1, root, sub, ph, x, d);
        SuccessorRewrite(n0, O0, n1, nodes, Order(root, sub), ph, A, x, s, B, old(Elements()));
      }
    }

    /**
     * The first half of the two-children case: the least node `s` of the
     * right subtree is taken out with removeForAtleastOneChild. Nothing is
     * written into `x` yet; the ensures say that writing the successor's
     * element `d` there keeps the elements ascending.
     */
    method DetachLeast(x: nat) returns (movedUp: Ptr, colour: int, s: nat, d: Song, ghost ph: Ptr, ghost A: seq<nat>, ghost B: seq<nat>)
      requires Valid() && x in sub && x < |nodes| && nodes[x].left.Ref? && nodes[x].right.Ref?
      modifies this
      ensures s < |old(nodes)| && colour == old(nodes[s].blackHeight) && old(DataAt(nodes, s)) == Some(d)
      ensures FixOk(nodes, root, sub, ph) && x < |nodes| && Ref(x) != ph && size == old(size)
      ensures (colour == BLACK ==> movedUp.Ref? && movedUp.i in sub && (ph.Ref? ==> ph.i in sub[movedUp.i]))
      ensures (colour != BLACK ==> ph.Null?) && (ph.Ref? ==> ph == movedUp && ph.i == |old(nodes)|)
      ensures old(Order(root, sub)) == (A + [x]) + [s] + B && s !in A + [x] && s !in B && x !in A && x !in B
      ensures forall j :: j in old(Order(root, sub)) ==> j < |old(nodes)|
      ensures Order(root, sub) == Subst(old(Order(root, sub)), s, if ph.Ref? then [ph.i] else [])
      ensures Ascending(WithData(nodes, x, d), Order(root, sub))
      ensures forall j :: j in A || j in B ==> DataAt(nodes, j) == old(DataAt(nodes, j))
      ensures var E := old(Elements());
        |A| < |E| && E[|A|] == old(DataAt(nodes, x)) && E[..|A|] + E[|A|+1..] == old(DataSeq(nodes, A + ([s] + B)))
      ensures old(IsRedBlack()) && colour == BLACK ==> movedUp.Ref? && Short(nodes, sub, movedUp.i, ph)
    {
      ChildShorter(nodes, root, sub, x, false);
      var xr := nodes[x].right.i;
      s := Least(xr);
      A, B := SuccessorSplit(nodes, root, sub, x, xr, s);
      ghost var n0, O0 := nodes, Order(root, sub);
      Visit(nodes, root, sub, s);
      d := nodes[s].data.value;
      movedUp, ph := RemoveForAtleastOneChild(s);
      colour := nodes[s].blackHeight;
      ghost var r := if ph.Ref? then [ph.i] else [];
      ReplaceMiddle(A + [x], s, B, r);
      assert O0 == (A + [x]) + [s] + B;
      forall j | j in O0 ensures j < |n0| {
        if j !in A && j !in B {
          assert j == x || j == s;
        }
      }
      SuccessorAscending(n0, nodes, A, x, s, B, r, d);
    }

    /**
     * enforceRBTPropertiesAfterRemove: `node` stands for a subtree that has
     * lost a black node. At the root it turns black; below it a red sibling
     * is first rotated up; a black sibling whose children are both present
     * and black turns red and the problem moves to the parent (unless the
     * parent is red, which then turns black); any other black sibling is
     * handled by fixBlackSiblingWithOneOrZeroChild. A missing sibling, or a
     * missing right nephew beside a black left one, dereferences null.
     */
    method EnforceRBTPropertiesAfterRemove(node: nat, ghost ph: Ptr) returns (r: Result<()>)
      requires FixOk(nodes, root, sub, ph) && node in sub && (ph.Ref? ==> ph.i in sub[node])
      modifies this
      ensures r.Err? ==> r.error == NullPointer
      ensures FixOk(nodes, root, sub, ph) && sub.Keys == old(sub.Keys) && SameData(old(nodes), nodes)
      ensures Order(root, sub) == old(Order(root, sub)) && size == old(size)
      ensures old(Short(nodes, sub, node, ph)) ==> r.Ok?
      decreases |sub.Keys| - |sub[node]|
    {
      Links(nodes, root, sub, node);
      if root == Ref(node) {
        ColourFix(nodes, root, sub, ph, node, BLACK);
        nodes := SetColour(nodes, node, BLACK);
        return Ok(());
      }
      ghost var short := Short(nodes, sub, node, ph);
      var found := SiblingForFixUp(node, ph);
      if found.Err? {
        return Err(NullPointer);
      }
      var sibling := found.value;
      SiblingFacts(nodes, root, sub, ph, node);
      if short {
        NephewsPaired(nodes, root, sub, node, ph);
      }
      var sl, sr := nodes[sibling].left, nodes[sibling].right;
      assert sl == Child(nodes[sibling], true) && sr == Child(nodes[sibling], false);
      if IsBlack(nodes, sl) && sr.Null? {
        return Err(NullPointer);
      }
      if IsBlack(nodes, sl) && IsBlack(nodes, sr) {
        var p := nodes[node].parent.i;
        var up := RecolourSiblingRed(node, sibling, ph);
        if up {
          SubBounded(nodes, root, sub, p);
          r := EnforceRBTPropertiesAfterRemove(p, ph);
        } else {
          r := Ok(());
        }
      } else {
        r := FixBlackSiblingWithOneOrZeroChild(node, sibling, ph);
      }
    }

    /**
     * The sibling enforceRBTPropertiesAfterRemove works with: the sibling
     * of `node`, where a red one is first rotated up by fixRedSibling and
     * the sibling fetched again. A null sibling, before or after, throws a
     * NullPointerException.
     */
    method SiblingForFixUp(node: nat, ghost ph: Ptr) returns (r: Result<nat>)
      requires FixOk(nodes, root, sub, ph) && node in sub && (ph.Ref? ==> ph.i in sub[node]) && Ref(node) != root
      requires node < |nodes| && nodes[node].parent.Ref? && nodes[node].parent.i < |nodes|
      modifies this
      ensures var p := old(nodes[node].parent.i); var s := old(Child(nodes[p], nodes[p].left != Ref(node)));
        s.Null? ==> r == Err(NullPointer) && nodes == old(nodes) && root == old(root) && sub == old(sub)
      ensures var p := old(nodes[node].parent.i); var s := old(Child(nodes[p], nodes[p].left != Ref(node)));
        s.Ref? && s.i < |old(nodes)| && old(nodes[s.i].blackHeight) != RED ==>
          r == Ok(s.i) && nodes == old(nodes) && root == old(root) && sub == old(sub)
      ensures var p := old(nodes[node].parent.i); var s := old(Child(nodes[p], nodes[p].left != Ref(node)));
        s.Ref? && s.i < |old(nodes)| && old(nodes[s.i].blackHeight) == RED ==>
          IsRotation(SetColour(SetColour(old(nodes), s.i, BLACK), p, RED), old(root), nodes, root, p, s.i, old(nodes[p].left != Ref(node)))
      ensures r.Err? ==> r.error == NullPointer
      ensures r.Ok? ==>
        node < |nodes| && nodes[node].parent.Ref? && nodes[node].parent.i < |nodes| &&
        var p := nodes[node].parent.i; Ref(r.value) == Child(nodes[p], nodes[p].left != Ref(node))
      ensures FixOk(nodes, root, sub, ph) && sub.Keys == old(sub.Keys) && SameData(old(nodes), nodes)
      ensures Order(root, sub) == old(Order(root, sub)) && size == old(size)
      ensures node in sub && sub[node] == old(sub[node]) && Ref(node) != root
      ensures old(Short(nodes, sub, node, ph)) ==> r.Ok? && Short(nodes, sub, node, ph) && IsBlack(nodes, Ref(r.value))
    {
      ghost var short := Short(nodes, sub, node, ph);
      if short {
        SiblingPresent(nodes, root, sub, node, ph);
      }
      SiblingFound(node);
      var sibling := GetSiblingNode(node).value;
      if sibling.Null? {
        return Err(NullPointer);
      }
      SiblingFacts(nodes, root, sub, ph, node);
      if nodes[sibling.i].blackHeight == RED {
        ghost var n0, r0, sub0 := nodes, root, sub;
        FixRedSibling(node, sibling.i, ph);
        if short {
          RedSiblingStaysShort(n0, r0, sub0, node, ph, nodes, root, sub);
        }
        SiblingFound(node);
        sibling := GetSiblingNode(node).value;
        if sibling.Null? {
          return Err(NullPointer);
        }
      } else {
        Colour(nodes, root, sub, sibling.i);
      }
      r := Ok(sibling.i);
    }

    /**
     * The case of enforceRBTPropertiesAfterRemove where both children of
     * the sibling `s` are black: `s` turns red, and a red parent turns
     * black. The result says whether the parent was black, in which case
     * the fix-up continues from the parent.
     */
    method RecolourSiblingRed(node: nat, s: nat, ghost ph: Ptr) returns (up: bool)
      requires FixOk(nodes, root, sub, ph) && node in sub && (ph.Ref? ==> ph.i in sub[node])
      requires node < |nodes| && nodes[node].parent.Ref? && nodes[node].parent.i < |nodes|
      requires var p := nodes[node].parent.i; Ref(s) == Child(nodes[p], nodes[p].left != Ref(node))
      modifies this
      ensures var p := old(nodes[node].parent.i);
        p < |old(nodes)| && s < |old(nodes)| && (up <==> old(nodes[p].blackHeight) != RED) &&
        nodes == (if up then SetColour(old(nodes), s, RED) else SetColour(SetColour(old(nodes), s, RED), p, BLACK))
      ensures FixOk(nodes, root, sub, ph) && sub == old(sub) && root == old(root) && SameData(old(nodes), nodes)
      ensures size == old(size)
      ensures var p := old(nodes[node].parent.i);
        p in sub && (ph.Ref? ==> ph.i in sub[p]) && |sub[node]| < |sub[p]|
      ensures var p := old(nodes[node].parent.i);
        (up && old(Short(nodes, sub, node, ph) && IsBlack(nodes, Ref(s)) &&
                   IsBlack(nodes, nodes[s].left) && IsBlack(nodes, nodes[s].right))) ==>
          Short(nodes, sub, p, ph)
    {
      SiblingFacts(nodes, root, sub, ph, node);
      var p := nodes[node].parent.i;
      if Short(nodes, sub, node, ph) && IsBlack(nodes, Ref(s)) && IsBlack(nodes, nodes[s].left) &&
         IsBlack(nodes, nodes[s].right) && nodes[p].blackHeight != RED {
        RecolourClimbs(nodes, root, sub, node, ph);
      }
      ChildrenDiffer(nodes, root, sub, p);
      ColourFix(nodes, root, sub, ph, s, RED);
      nodes := SetColour(nodes, s, RED);
      up := nodes[p].blackHeight != RED;
      if !up {
        ColourFix(nodes, root, sub, ph, p, BLACK);
        nodes := SetColour(nodes, p, BLACK);
      }
    }

    /**
     * The first step of fixBlackSiblingWithOneOrZeroChild when the nephew
     * on the far side of the sibling is black: the near nephew turns black,
     * the sibling red, and the near nephew is rotated up to be the new
     * sibling.
     */
    method RotateNephewUp(node: nat, s: nat, near: nat, ghost ph: Ptr)
      requires FixOk(nodes, root, sub, ph) && node in sub && (ph.Ref? ==> ph.i in sub[node])
      requires node < |nodes| && nodes[node].parent.Ref? && nodes[node].parent.i < |nodes|
      requires var p := nodes[node].parent.i; Ref(s) == Child(nodes[p], nodes[p].left != Ref(node))
      requires s < |nodes| && Ref(near) == Child(nodes[s], IsLeftChild(nodes, node))
      modifies this
      ensures near < |old(nodes)| &&
        IsRotation(SetColour(SetColour(old(nodes), near, BLACK), s, RED), old(root), nodes, root, s, near, old(IsLeftChild(nodes, node)))
      ensures FixOk(nodes, root, sub, ph) && sub.Keys == old(sub.Keys) && SameData(old(nodes), nodes)
      ensures Order(root, sub) == old(Order(root, sub)) && size == old(size)
      ensures node in sub && sub[node] == old(sub[node]) && node < |nodes| && nodes[node] == old(nodes[node])
      ensures IsLeftChild(nodes, node) == old(IsLeftChild(nodes, node))
      ensures var p := nodes[node].parent.i;
        p < |nodes| && Ref(near) == Child(nodes[p], nodes[p].left != Ref(node))
    {
      SiblingFacts(nodes, root, sub, ph, node);
      var left := IsLeftChild(nodes, node);
      ColourFix(nodes, root, sub, ph, near, BLACK);
      nodes := SetColour(nodes, near, BLACK);
      ColourFix(nodes, root, sub, ph, s, RED);
      nodes := SetColour(nodes, s, RED);
      RotateNearNephew(node, s, near, ph);
    }

    /** The rotation of RotateNephewUp: the near nephew `near` goes up over the sibling `s`. */
    method RotateNearNephew(node: nat, s: nat, near: nat, ghost ph: Ptr)
      requires FixOk(nodes, root, sub, ph) && node in sub && (ph.Ref? ==> ph.i in sub[node])
      requires node < |nodes| && nodes[node].parent.Ref? && nodes[node].parent.i < |nodes|
      requires var p := nodes[node].parent.i; Ref(s) == Child(nodes[p], nodes[p].left != Ref(node))
      requires s < |nodes| && Ref(near) == Child(nodes[s], IsLeftChild(nodes, node))
      modifies this
      ensures near < |old(nodes)| && IsRotation(old(nodes), old(root), nodes, root, s, near, old(IsLeftChild(nodes, node)))
      ensures FixOk(nodes, root, sub, ph) && sub.Keys == old(sub.Keys) && SameData(old(nodes), nodes)
      ensures Order(root, sub) == old(Order(root, sub)) && size == old(size)
      ensures node in sub && sub[node] == old(sub[node]) && node < |nodes| && nodes[node] == old(nodes[node])
      ensures IsLeftChild(nodes, node) == old(IsLeftChild(nodes, node))
      ensures var p := nodes[node].parent.i;
        p < |nodes| && Ref(near) == Child(nodes[p], nodes[p].left != Ref(node))
      ensures old(s in sub) && near in sub && sub[near] == old(sub[s])
    {
      SiblingFacts(nodes, root, sub, ph, node);
      var left := IsLeftChild(nodes, node);
      if left {
        RightRotationAt(s, ph);
      } else {
        RotateLeft(s, ph);
      }
      RotationKeepsOutside(old(nodes), old(root), old(sub), nodes, root, s, near, left, node);
    }

    /**
     * The first step of fixBlackSiblingWithOneOrZeroChild: the near nephew
     * is rotated up when the far nephew is black, and a missing near nephew
     * then dereferences null. The result is the sibling the rest of the
     * fix-up works with.
     */
    method PrepareBlackSibling(node: nat, s: nat, ghost ph: Ptr) returns (r: Result<nat>)
      requires FixOk(nodes, root, sub, ph) && node in sub && (ph.Ref? ==> ph.i in sub[node])
      requires node < |nodes| && nodes[node].parent.Ref? && nodes[node].parent.i < |nodes|
      requires var p := nodes[node].parent.i; Ref(s) == Child(nodes[p], nodes[p].left != Ref(node))
      modifies this
      ensures s < |old(nodes)|
      ensures var far := old(Child(nodes[s], !IsLeftChild(nodes, node)));
        !IsBlack(old(nodes), far) ==> r == Ok(s) && nodes == old(nodes) && root == old(root) && sub == old(sub)
      ensures var near, far := old(Child(nodes[s], IsLeftChild(nodes, node))), old(Child(nodes[s], !IsLeftChild(nodes, node)));
        IsBlack(old(nodes), far) && near.Null? ==>
          r == Err(NullPointer) && nodes == old(nodes) && root == old(root) && sub == old(sub)
      ensures var near, far := old(Child(nodes[s], IsLeftChild(nodes, node))), old(Child(nodes[s], !IsLeftChild(nodes, node)));
        IsBlack(old(nodes), far) && near.Ref? ==> (r == Ok(near.i) && near.i < |old(nodes)| &&
          IsRotation(SetColour(SetColour(old(nodes), near.i, BLACK), s, RED), old(root), nodes, root, s, near.i, old(IsLeftChild(nodes, node))))
      ensures FixOk(nodes, root, sub, ph) && sub.Keys == old(sub.Keys) && SameData(old(nodes), nodes)
      ensures Order(root, sub) == old(Order(root, sub)) && size == old(size)
      ensures node in sub && sub[node] == old(sub[node]) && node < |nodes| && nodes[node] == old(nodes[node])
      ensures IsLeftChild(nodes, node) == old(IsLeftChild(nodes, node))
      ensures r.Ok? ==> var p := nodes[node].parent.i;
        p < |nodes| && Ref(r.value) == Child(nodes[p], nodes[p].left != Ref(node))
    {
      SiblingFacts(nodes, root, sub, ph, node);
      var left := IsLeftChild(nodes, node);
      var near, far := Child(nodes[s], left), Child(nodes[s], !left);
      if !IsBlack(nodes, far) {
        return Ok(s);
      }
      if near.Null? {
        return Err(NullPointer);
      }
      RotateNephewUp(node, s, near.i, ph);
      r := Ok(near.i);
    }

    /**
     * The rest of fixBlackSiblingWithOneOrZeroChild for a left child
     * `node` whose sibling `s` has just taken the parent's colour while the
     * parent turned black: one or two rotations bring a nephew or the
     * sibling up. With both nephews present the parent is rotated left (see
     * the findings in README.md for the rotation the source performs).
     */
    method FixBlackSiblingLeft(node: nat, s: nat, ghost ph: Ptr)
      requires FixOk(nodes, root, sub, ph) && node in sub && (ph.Ref? ==> ph.i in sub[node])
      requires node < |nodes| && nodes[node].parent.Ref? && nodes[node].parent.i < |nodes|
      requires var p := nodes[node].parent.i; nodes[p].left == Ref(node) && nodes[p].right == Ref(s)
      modifies this
      ensures FixOk(nodes, root, sub, ph) && sub.Keys == old(sub.Keys) && SameData(old(nodes), nodes)
      ensures Order(root, sub) == old(Order(root, sub)) && size == old(size)
    {
      SiblingFacts(nodes, root, sub, ph, node);
      var p := nodes[node].parent.i;
      var sl, sr := nodes[s].left, nodes[s].right;
      assert sl == Child(nodes[s], true) && sr == Child(nodes[s], false);
      if sr.Ref? && sl.Null? {
        ColourFix(nodes, root, sub, ph, sr.i, BLACK);
        nodes := SetColour(nodes, sr.i, BLACK);
        RotateLeft(p, ph);
      } else if sl.Ref? && sr.Null? {
        RotateNearNephewTwice(node, s, true, ph);
      } else if sl.Ref? && sr.Ref? {
        RotateLeft(p, ph);
        ColourFix(nodes, root, sub, ph, sr.i, BLACK);
        nodes := SetColour(nodes, nodes[s].right.i, BLACK);
      }
    }

    /**
     * The both-nephews case of FixBlackSiblingLeft as the source writes
     * it: rightRotation(node.parent), then the sibling's right child turns
     * black. The rotation brings `node` itself up into its parent's place
     * (AsWrittenUnlinkEmptiesTree, for a parent that is the root, and
     * SubtreeLoss.AsWrittenUnlinkDropsSubtree, for one that is not, say what
     * removeHelper then does to the tree); the sibling `s` is not moved.
     */
    method FixBlackSiblingLeftAsWritten(node: nat, s: nat, ghost ph: Ptr) returns (ghost rotated: seq<Node>)
      requires FixOk(nodes, root, sub, ph) && node in sub && (ph.Ref? ==> ph.i in sub[node])
      requires node < |nodes| && nodes[node].parent.Ref? && nodes[node].parent.i < |nodes|
      requires var p := nodes[node].parent.i; nodes[p].left == Ref(node) && nodes[p].right == Ref(s)
      requires s < |nodes| && nodes[s].left.Ref? && nodes[s].right.Ref?
      modifies this
      ensures var p := old(nodes[node].parent.i);
        IsRotation(old(nodes), old(root), rotated, root, p, node, true) && s < |rotated| && rotated[s] == old(nodes[s])
      ensures nodes == SetColour(rotated, old(nodes[s].right.i), BLACK)
      ensures sub == old(sub) && size == old(size)
    {
      SiblingFacts(nodes, root, sub, ph, node);
      var p := nodes[node].parent.i;
      Links(nodes, root, sub, node);
      ChildrenDiffer(nodes, root, sub, p);
      ChildShorter(nodes, root, sub, p, false);
      ParentLonger(nodes, root, sub, p);
      RotateReady(nodes, root, sub, p, true);
      ghost var n0, r0 := nodes, root;
      var parent := nodes[p].parent;
      nodes := RotateLinks(nodes, root, p, node, true);
      var moved := MoveChild(parent, p, Ref(node));
      rotated := nodes;
      RotationKeepsSide(n0, r0, nodes, root, p, node, true, s);
      nodes := SetColour(nodes, nodes[s].right.i, BLACK);
    }

    /** The mirror image of FixBlackSiblingLeft, for a right child `node`. */
    method FixBlackSiblingRight(node: nat, s: nat, ghost ph: Ptr)
      requires FixOk(nodes, root, sub, ph) && node in sub && (ph.Ref? ==> ph.i in sub[node])
      requires node < |nodes| && nodes[node].parent.Ref? && nodes[node].parent.i < |nodes|
      requires var p := nodes[node].parent.i; nodes[p].right == Ref(node) && nodes[p].left == Ref(s)
      modifies this
      ensures FixOk(nodes, root, sub, ph) && sub.Keys == old(sub.Keys) && SameData(old(nodes), nodes)
      ensures Order(root, sub) == old(Order(root, sub)) && size == old(size)
    {
      SiblingFacts(nodes, root, sub, ph, node);
      var p := nodes[node].parent.i;
      var sl, sr := nodes[s].left, nodes[s].right;
      assert sl == Child(nodes[s], true) && sr == Child(nodes[s], false);
      if sl.Ref? && sr.Null? {
        ColourFix(nodes, root, sub, ph, sl.i, BLACK);
        nodes := SetColour(nodes, sl.i, BLACK);
        RightRotationAt(p, ph);
      } else if sr.Ref? && sl.Null? {
        RotateNearNephewTwice(node, s, false, ph);
      } else if sl.Ref? && sr.Ref? {
        RightRotationAt(p, ph);
        ColourFix(nodes, root, sub, ph, sl.i, BLACK);
        nodes := SetColour(nodes, nodes[s].left.i, BLACK);
      }
    }

    /**
     * A sibling `s` whose only child is the nephew nearer to `node` (on the
     * side `left` of `node`): the nephew is rotated up over `s`, then over
     * the parent, and `s` turns black.
     */
    method RotateNearNephewTwice(node: nat, s: nat, left: bool, ghost ph: Ptr)
      requires FixOk(nodes, root, sub, ph) && node in sub && (ph.Ref? ==> ph.i in sub[node])
      requires node < |nodes| && nodes[node].parent.Ref? && nodes[node].parent.i < |nodes|
      requires var p := nodes[node].parent.i; Child(nodes[p], left) == Ref(node) && Child(nodes[p], !left) == Ref(s)
      requires s < |nodes| && Child(nodes[s], left).Ref? && Child(nodes[s], !left).Null?
      modifies this
      ensures FixOk(nodes, root, sub, ph) && sub.Keys == old(sub.Keys) && SameData(old(nodes), nodes)
      ensures Order(root, sub) == old(Order(root, sub)) && size == old(size)
    {
      SiblingFacts(nodes, root, sub, ph, node);
      var p := nodes[node].parent.i;
      var near := Child(nodes[s], left).i;
      RotateNearNephew(node, s, near, ph);
      if left {
        RotateLeft(p, ph);
      } else {
        RightRotationAt(p, ph);
      }
      ColourFix(nodes, root, sub, ph, s, BLACK);
      nodes := SetColour(nodes, s, BLACK);
    }

    /**
     * The sibling takes the parent's colour, the parent turns black, and the
     * side of `node` decides the rotations.
     */
    method FinishBlackSibling(node: nat, sibling: nat, ghost ph: Ptr)
      requires FixOk(nodes, root, sub, ph) && node in sub && (ph.Ref? ==> ph.i in sub[node])
      requires node < |nodes| && nodes[node].parent.Ref? && nodes[node].parent.i < |nodes|
      requires var p := nodes[node].parent.i; Ref(sibling) == Child(nodes[p], nodes[p].left != Ref(node))
      modifies this
      ensures FixOk(nodes, root, sub, ph) && sub.Keys == old(sub.Keys) && SameData(old(nodes), nodes)
      ensures Order(root, sub) == old(Order(root, sub)) && size == old(size)
    {
      SiblingFacts(nodes, root, sub, ph, node);
      var p := nodes[node].parent.i;
      Shape(nodes, root, sub, p);
      ColourFix(nodes, root, sub, ph, sibling, nodes[p].blackHeight);
      nodes := SetColour(nodes, sibling, nodes[p].blackHeight);
      ColourFix(nodes, root, sub, ph, p, BLACK);
      nodes := SetColour(nodes, p, BLACK);
      if IsLeftChild(nodes, node) {
        FixBlackSiblingLeft(node, sibling, ph);
      } else {
        FixBlackSiblingRight(node, sibling, ph);
      }
    }

    /**
     * fixBlackSiblingWithOneOrZeroChild: after the first step, the sibling
     * takes the parent's colour, the parent turns black, and the side of
     * `node` decides the rotations. Only the first step can fail.
     */
    method FixBlackSiblingWithOneOrZeroChild(node: nat, s: nat, ghost ph: Ptr) returns (r: Result<()>)
      requires FixOk(nodes, root, sub, ph) && node in sub && (ph.Ref? ==> ph.i in sub[node])
      requires node < |nodes| && nodes[node].parent.Ref? && nodes[node].parent.i < |nodes|
      requires var p := nodes[node].parent.i; Ref(s) == Child(nodes[p], nodes[p].left != Ref(node))
      modifies this
      ensures s < |old(nodes)|
      ensures var near, far := old(Child(nodes[s], IsLeftChild(nodes, node))), old(Child(nodes[s], !IsLeftChild(nodes, node)));
        r.Err? <==> IsBlack(old(nodes), far) && near.Null?
      ensures r.Err? ==> r.error == NullPointer && nodes == old(nodes) && root == old(root) && sub == old(sub)
      ensures FixOk(nodes, root, sub, ph) && sub.Keys == old(sub.Keys) && SameData(old(nodes), nodes)
      ensures Order(root, sub) == old(Order(root, sub)) && size == old(size)
    {
      var first := PrepareBlackSibling(node, s, ph);
      if first.Err? {
        return Err(NullPointer);
      }
      FinishBlackSibling(node, first.value, ph);
      r := Ok(());
    }

    /**
     * fixRedSibling: the red sibling of `node` turns black and their parent
     * red, and the sibling is rotated up into the parent's place, so that
     * `node` gets a black sibling.
     */
    method FixRedSibling(node: nat, redSibling: nat, ghost ph: Ptr)
      requires FixOk(nodes, root, sub, ph) && node in sub && (ph.Ref? ==> ph.i in sub[node])
      requires node < |nodes| && nodes[node].parent.Ref? && nodes[node].parent.i < |nodes|
      requires var p := nodes[node].parent.i; Ref(redSibling) == Child(nodes[p], nodes[p].left != Ref(node))
      modifies this
      ensures var p := old(nodes[node].parent.i);
        p < |old(nodes)| && redSibling < |old(nodes)| &&
        IsRotation(SetColour(SetColour(old(nodes), redSibling, BLACK), p, RED), old(root), nodes, root, p, redSibling, old(nodes[p].left != Ref(node)))
      ensures FixOk(nodes, root, sub, ph) && sub.Keys == old(sub.Keys) && SameData(old(nodes), nodes)
      ensures Order(root, sub) == old(Order(root, sub)) && size == old(size)
      ensures node in sub && sub[node] == old(sub[node]) && node < |nodes| && nodes[node] == old(nodes[node])
      ensures IsLeftChild(nodes, node) == old(IsLeftChild(nodes, node)) && Ref(node) != root
    {
      SiblingFacts(nodes, root, sub, ph, node);
      var p := nodes[node].parent.i;
      var cIsLeft := Ref(node) != nodes[p].left;
      ghost var b := Child(nodes[redSibling], !cIsLeft);
      assert b != Ref(node);
      ColourFix(nodes, root, sub, ph, redSibling, BLACK);
      nodes := SetColour(nodes, redSibling, BLACK);
      ColourFix(nodes, root, sub, ph, p, RED);
      nodes := SetColour(nodes, p, RED);
      assert Child(nodes[redSibling], !cIsLeft) == b;
      ghost var n1, r1 := nodes, root;
      if !cIsLeft {
        RotateLeft(p, ph);
      } else {
        RightRotationAt(p, ph);
      }
      RotationKeepsSide(n1, r1, nodes, root, p, redSibling, cIsLeft, node);
    }

    /**
     * The end of removeHelper's match case: after a black node was taken
     * out, enforceRBTPropertiesAfterRemove runs from the node that moved
     * up, and a placeholder that moved up is then unlinked from its parent
     * with moveChild. A NullPointerException inside the fix-up leaves the
     * tree well formed but not necessarily free of the placeholder.
     */
    method RestoreAfterDetach(movedUp: Ptr, colour: int, ghost ph: Ptr, ghost keep: seq<nat>) returns (r: Result<()>)
      requires Detached(movedUp, colour, ph, keep)
      modifies this
      ensures r.Err? ==> r.error == NullPointer && Wf(nodes, root, sub)
      ensures r.Ok? ==> Valid() && Order(root, sub) == keep && SameData(old(nodes), nodes)
      ensures size == old(size)
      ensures (colour == BLACK ==> old(Short(nodes, sub, movedUp.i, ph))) ==> r.Ok?
    {
      if colour != BLACK {
        return Ok(());
      }
      r := EnforceRBTPropertiesAfterRemove(movedUp.i, ph);
      if r.Err? {
        return;
      }
      Links(nodes, root, sub, movedUp.i);
      if nodes[movedUp.i].data.None? {
        ghost var n1 := nodes;
        UnlinkFix(nodes, root, sub, movedUp.i);
        SpliceParent(nodes, root, sub, movedUp.i);
        var parent := nodes[movedUp.i].parent;
        var moved := MoveChild(parent, movedUp.i, Null);
        sub := SubstSubs(sub, movedUp.i, []);
      }
      r := Ok(());
    }

    /**
     * The match case of removeHelper: the node `x` holding the title is
     * taken out directly when it has at most one child, and otherwise its
     * successor is taken out and the successor's element moves into `x`;
     * then the colours are repaired. On success exactly that element is
     * gone from the in-order sequence.
     */
    method DeleteNode(x: nat, ghost title: string) returns (r: Result<()>)
      requires Valid() && x in sub && TitleAt(nodes, x, title)
      modifies this
      ensures r.Err? ==> r.error == NullPointer && Wf(nodes, root, sub)
      ensures r.Ok? ==> Valid() && RemovedOne(old(Elements()), Elements(), title) && |sub.Keys| + 1 == |old(sub.Keys)|
      ensures size == old(size)
      ensures old(IsRedBlack()) ==> r.Ok?
    {
      Links(nodes, root, sub, x);
      OrderIsLive(nodes, root, sub);
      var movedUp: Ptr, colour: int;
      ghost var ph: Ptr, keep: seq<nat>, k: nat;
      if nodes[x].left.Null? || nodes[x].right.Null? {
        movedUp, colour, ph, keep, k := DetachDirect(x);
      } else {
        var s;
        movedUp, colour, s, ph, keep, k := DetachSuccessor(x);
      }
      ghost var n1 := nodes;
      r := RestoreAfterDetach(movedUp, colour, ph, keep);
      if r.Ok? {
        DataSeqSame(n1, nodes, keep);
        OrderIsLive(nodes, root, sub);
        assert Elements() == old(Elements())[..k] + old(Elements())[k+1..];
      }
    }

    /**
     * removeHelper: descends from `subtree` by comparing titles to the node
     * holding the title of `key`, deletes it there, and on the way back up
     * colours the root black at every level, which throws a
     * NullPointerException once the tree has become empty.
     */
    method RemoveHelper(key: Song, subtree: nat) returns (r: Result<bool>)
      requires Valid() && subtree in sub && HasTitle(DataSeq(nodes, sub[subtree]), key.title)
      modifies this
      ensures r.Err? ==> r.error == NullPointer && Wf(nodes, root, sub)
      ensures r.Ok? ==> r.value && Valid() && RemovedOne(old(Elements()), Elements(), key.title)
      ensures r.Ok? ==> |sub.Keys| + 1 == |old(sub.Keys)| && IsBlack(nodes, root)
      ensures size == old(size)
      ensures old(IsRedBlack()) && old(|sub.Keys|) > 1 ==> r.Ok?
      decreases |sub[subtree]|
    {
      DescentStep(nodes, root, sub, subtree, key);
      var compare := key.CompareTo(nodes[subtree].data.value);
      if compare == 0 {
        CompareToProperties(key, nodes[subtree].data.value);
        var d := DeleteNode(subtree, key.title);
        if d.Err? {
          return Err(NullPointer);
        }
      } else {
        var child := if compare < 0 then nodes[subtree].left.i else nodes[subtree].right.i;
        r := RemoveHelper(key, child);
        if r.Err? {
          return;
        }
      }
      r := ColourRootBlack();
    }

    /**
     * The last step of removeHelper, `root.blackHeight = 1`, which throws a
     * NullPointerException when the tree has become empty.
     */
    method ColourRootBlack() returns (r: Result<bool>)
      requires Valid()
      modifies this
      ensures r == (if old(root).Ref? then Ok(true) else Err(NullPointer))
      ensures Valid() && root == old(root) && sub == old(sub) && size == old(size) && Elements() == old(Elements())
      ensures r.Ok? ==> IsBlack(nodes, root)
    {
      if root.Null? {
        return Err(NullPointer);
      }
      RecolourKeepsValid(nodes, root, sub, root.i, BLACK);
      nodes := SetColour(nodes, root.i, BLACK);
      r := Ok(true);
    }

    /** A root without children is the only node, and its element the only element. */
    lemma LeafRootAlone()
      requires Valid() && root.Ref? && root.i < |nodes| && nodes[root.i].left.Null? && nodes[root.i].right.Null?
      ensures Elements() == [nodes[root.i].data] && |sub.Keys| == 1
    {
      Visit(nodes, root, sub, root.i);
      assert Order(root, sub) == [root.i];
      ElementsSorted();
    }

    /** A tree of one node is a root without children. */
    lemma OnlyRootIsLeaf()
      requires Valid() && |sub.Keys| == 1
      ensures root.Ref? && root.i < |nodes| && nodes[root.i].left.Null? && nodes[root.i].right.Null?
    {
      assert root.Ref? by {
        assert sub != map[];
      }
      Visit(nodes, root, sub, root.i);
      var c := if nodes[root.i].left.Ref? then nodes[root.i].left else nodes[root.i].right;
      if c.Ref? {
        assert c.i in sub && |sub[c.i]| < |sub[root.i]|;
        TwoMembers(sub.Keys, root.i, c.i);
        assert false;
      }
    }

    /**
     * remove: null is refused with NullPointerException, an empty tree or
     * a title not in the tree with IllegalArgumentException. When the
     * element passed is the very object held by a root without children
     * (`sameObject`; the source compares references there) the tree becomes
     * empty; otherwise removeHelper takes the element out, and the size
     * goes down when it returns.
     */
    method Remove(data: Option<Song>, sameObject: bool) returns (r: Result<bool>)
      requires Valid()
      requires sameObject ==> root.Ref? && root.i < |nodes| && nodes[root.i].data == data
      modifies this
      ensures data.None? ==> r == Err(NullPointer)
      ensures data.Some? ==> (r == Err(IllegalArgument) <==> !old(HasTitle(Elements(), data.value.title)))
      ensures r.Err? ==> r.error == NullPointer || r.error == IllegalArgument
      ensures r.Err? && (data.None? || r.error == IllegalArgument) ==>
        nodes == old(nodes) && root == old(root) && sub == old(sub)
      ensures r.Err? ==> Wf(nodes, root, sub) && size == old(size)
      ensures r.Ok? ==> r.value && Valid() && data.Some? && RemovedOne(old(Elements()), Elements(), data.value.title)
      ensures r.Ok? ==> !HasTitle(Elements(), data.value.title)
      ensures r.Ok? ==> size == old(size) - 1 && |sub.Keys| + 1 == old(|sub.Keys|) && (old(Counted()) ==> Counted())
      ensures r.Ok? ==> root.Null? || IsBlack(nodes, root)
      ensures data.Some? && old(HasTitle(Elements(), data.value.title)) && old(|sub.Keys|) == 1 && !sameObject ==>
        r == Err(NullPointer)
      ensures data.Some? && sameObject && old(|sub.Keys|) == 1 ==> r == Ok(true) && root.Null?
      ensures (data.Some? && old(HasTitle(Elements(), data.value.title)) && old(IsRedBlack()) &&
               (old(|sub.Keys|) > 1 || sameObject)) ==> r.Ok?
    {
      if data.None? {
        return Err(NullPointer);
      }
      if root.Null? {
        return Err(IllegalArgument);
      }
      if sameObject {
        LiveHasTitle(nodes, root, sub, root.i);
      }
      var found := Contains(data);
      if !found.value {
        return Err(IllegalArgument);
      }
      r := RemoveContained(data.value, sameObject);
    }

    /**
     * The rest of remove once the element is known to be there: the root
     * leaf holding the very object is dropped, and otherwise removeHelper
     * runs and the size goes down when it returns.
     */
    method RemoveContained(d: Song, sameObject: bool) returns (r: Result<bool>)
      requires Valid() && HasTitle(Elements(), d.title)
      requires sameObject ==> root.Ref? && root.i < |nodes| && nodes[root.i].data == Some(d)
      modifies this
      ensures r.Err? ==> r.error == NullPointer && Wf(nodes, root, sub) && size == old(size)
      ensures r.Ok? ==> r.value && Valid() && RemovedOne(old(Elements()), Elements(), d.title)
      ensures r.Ok? ==> !HasTitle(Elements(), d.title)
      ensures r.Ok? ==> size == old(size) - 1 && |sub.Keys| + 1 == old(|sub.Keys|) && (old(Counted()) ==> Counted())
      ensures r.Ok? ==> root.Null? || IsBlack(nodes, root)
      ensures old(|sub.Keys|) == 1 && !sameObject ==> r == Err(NullPointer)
      ensures sameObject && old(|sub.Keys|) == 1 ==> r == Ok(true) && root.Null?
      ensures old(IsRedBlack()) && (old(|sub.Keys|) > 1 || sameObject) ==> r.Ok?
    {
      assert root.Ref? by {
        ElementsSorted();
      }
      Visit(nodes, root, sub, root.i);
      if |sub.Keys| == 1 {
        OnlyRootIsLeaf();
      }
      if sameObject && nodes[root.i].left.Null? && nodes[root.i].right.Null? {
        LeafRootAlone();
        ghost var before := Elements();
        assert before[..0] + before[1..] == [];
        root := Null;
        sub := map[];
        size := size - 1;
        assert Elements() == [];
        return Ok(true);
      }
      ElementsSorted();
      ghost var before := Elements();
      r := RemoveHelper(d, root.i);
      if r.Ok? {
        size := size - 1;
        RemovedOneLeavesNone(before, Elements(), d.title);
      }
    }

    /**
     * searchHelper: the node below `subtree` whose element compares equal to
     * `val`; NoSuchElementException at a null subtree, and a null `val`
     * fails in compareTo as soon as there is a node to compare with.
     */
    function SearchHelper(subtree: Ptr, val: Option<Song>): (r: Result<nat>)
      reads this
      requires Valid() && (subtree.Ref? ==> subtree.i in sub)
      ensures subtree.Null? ==> r == Err(NoSuchElement)
      ensures subtree.Ref? && val.None? ==> r == Err(NullPointer)
      ensures val.Some? ==> (r.Ok? <==> HasTitle(DataSeq(nodes, SubOf(sub, subtree)), val.value.title))
      ensures val.Some? && r.Err? ==> r.error == NoSuchElement
      ensures r.Ok? ==> val.Some? && r.value in SubOf(sub, subtree) && r.value in sub
      ensures r.Ok? ==> TitleAt(nodes, r.value, val.value.title)
      decreases |SubOf(sub, subtree)|
    {
      if subtree.Null? then Err(NoSuchElement)
      else if val.None? then Err(NullPointer)
      else
        var v := val.value;
        DescentStep(nodes, root, sub, subtree.i, v);
        var e := nodes[subtree.i].data.value;
        CompareToProperties(e, v);
        if e.CompareTo(v) == 0 then Ok(subtree.i)
        else if e.CompareTo(v) > 0 then SearchHelper(nodes[subtree.i].left, val)
        else SearchHelper(nodes[subtree.i].right, val)
    }

    /**
     * search: the stored element whose title equals that of `data`, or
     * NoSuchElementException when there is none; a null `data` is refused
     * with a NullPointerException unless the tree is empty.
     */
    function Search(data: Option<Song>): (r: Result<Song>)
      reads this
      requires Valid()
      ensures data.None? ==> r == Err(if root.Null? then NoSuchElement else NullPointer)
      ensures data.Some? ==> (r.Ok? <==> HasTitle(Elements(), data.value.title))
      ensures data.Some? && r.Err? ==> r.error == NoSuchElement
      ensures r.Ok? ==> Some(r.value) in Elements() && r.value.title == data.value.title
    {
      match SearchHelper(root, data)
      case Err(e) => Err(e)
      case Ok(target) =>
        LiveInOrder(nodes, root, sub, target);
        DataInList(nodes, Order(root, sub), target);
        Ok(nodes[target].data.value)
    }
 
    /**
     * toInOrderStringHelper: `str` followed by the entry of every node of
     * the subtree at `node`, each with ", " after it, in in-order sequence.
     */
    function ToInOrderStringHelper(str: string, node: Ptr): (r: string)
      reads this
      requires Valid() && (node.Ref? ==> node.i in sub)
      ensures r == str + Trailing(Entries(nodes, SubOf(sub, node)))
      decreases |SubOf(sub, node)|
    {
      if node.Null? then str
      else
        var n := nodes[node.i];
        Visit(nodes, root, sub, node.i);
        var left := ToInOrderStringHelper(str, n.left);
        var entry := n.data.value.ToString() + "-" + JavaStrings.IntToString(n.blackHeight);
        var here := left + (entry + ", ");
        HelperStep(nodes, str, SubOf(sub, n.left), node.i, SubOf(sub, n.right), entry);
        ToInOrderStringHelper(here, n.right)
    }

    /**
     * toInOrderString: the entries of all nodes in in-order sequence,
     * separated by ", " and wrapped in "[ " and " ]".
     */
    method ToInOrderString() returns (r: string)
      requires Valid()
      ensures r == "[ " + Join(Entries(nodes, Order(root, sub))) + " ]"
    {
      var body := ToInOrderStringHelper("", root);
      Bracketed(nodes, root, sub, body);
      var sb := "[ ";
      sb := sb + body;
      if root.Ref? {
        sb := sb[..|sb| - 2];
      }
      sb := sb + " ]";
      r := sb;
    }
  }
}
