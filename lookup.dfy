/**
 * Looking a title up in the tree: what one step of the descent that
 * `containsHelper` and `searchHelper` make tells about the subtree below.
 */
module Lookup {
  import opened Outcomes
  import opened Songs
  import opened Arena
  import opened Rotations

  /** Some element of `s` has the given title. */
  ghost predicate HasTitle(s: seq<Option<Song>>, title: string) {
    exists j :: 0 <= j < |s| && s[j].Some? && s[j].value.title == title
  }

  /** Index `j` holds an element with the given title. */
  ghost predicate TitleAt(nodes: seq<Node>, j: nat, title: string) {
    DataAt(nodes, j).Some? && DataAt(nodes, j).value.title == title
  }

  /** HasTitle of the elements of an index list, stated on the indices. */
  lemma HasTitleOfList(nodes: seq<Node>, s: seq<nat>, title: string)
    ensures HasTitle(DataSeq(nodes, s), title) <==> exists j :: j in s && TitleAt(nodes, j, title)
  {
    var r := DataSeq(nodes, s);
    if HasTitle(r, title) {
      var k :| 0 <= k < |r| && r[k].Some? && r[k].value.title == title;
      assert s[k] in s && TitleAt(nodes, s[k], title);
    }
    if j :| j in s && TitleAt(nodes, j, title) {
      var k :| 0 <= k < |s| && s[k] == j;
      assert r[k] == DataAt(nodes, j);
    }
  }

  /** A live node has an element, its list is its children's lists around it, and they are shorter. */
  lemma Visit(nodes: seq<Node>, root: Ptr, sub: Subs, i: nat)
    requires Wf(nodes, root, sub) && NoNull(nodes, sub) && i in sub
    ensures i < |nodes| && nodes[i].data.Some?
    ensures sub[i] == SubOf(sub, nodes[i].left) + [i] + SubOf(sub, nodes[i].right)
    ensures var n := nodes[i];
      (n.left.Ref? ==> n.left.i in sub && |sub[n.left.i]| < |sub[i]|) &&
      (n.right.Ref? ==> n.right.i in sub && |sub[n.right.i]| < |sub[i]|)
  {
    ListAt(nodes, root, sub, i);
    if nodes[i].left.Ref? { ChildShorter(nodes, root, sub, i, true); }
    if nodes[i].right.Ref? { ChildShorter(nodes, root, sub, i, false); }
  }

  /**
   * The sides of node `i` that the descent can skip: every element of the
   * left (right) subtree sorts before (after) the node's own, so a title
   * that sorts before (after) the node's occurs below the node only on the
   * left (right), and one equal to the node's occurs at the node.
   */
  lemma DescentStep(nodes: seq<Node>, root: Ptr, sub: Subs, i: nat, d: Song)
    requires Wf(nodes, root, sub) && NoNull(nodes, sub) && i in sub
    ensures i < |nodes| && nodes[i].data.Some?
    ensures sub[i] == SubOf(sub, nodes[i].left) + [i] + SubOf(sub, nodes[i].right)
    ensures var n := nodes[i];
      (n.left.Ref? ==> n.left.i in sub && |sub[n.left.i]| < |sub[i]|) &&
      (n.right.Ref? ==> n.right.i in sub && |sub[n.right.i]| < |sub[i]|)
    ensures var n := nodes[i];
      var c := d.CompareTo(n.data.value);
      var here := HasTitle(DataSeq(nodes, sub[i]), d.title);
      (c == 0 ==> here) &&
      (c < 0 ==> (here <==> HasTitle(DataSeq(nodes, SubOf(sub, n.left)), d.title))) &&
      (c > 0 ==> (here <==> HasTitle(DataSeq(nodes, SubOf(sub, n.right)), d.title)))
  {
    var n := nodes[i];
    Shape(nodes, root, sub, i);
    if n.left.Ref? { ChildShorter(nodes, root, sub, i, true); }
    if n.right.Ref? { ChildShorter(nodes, root, sub, i, false); }
    SubClosed(nodes, root, sub, i);
    var e := n.data.value;
    var L, R := SubOf(sub, n.left), SubOf(sub, n.right);
    assert DataAt(nodes, i) == Some(e);
    HasTitleOfList(nodes, sub[i], d.title);
    HasTitleOfList(nodes, L, d.title);
    HasTitleOfList(nodes, R, d.title);
    CompareToProperties(d, e);
    if d.CompareTo(e) == 0 {
      assert i in sub[i] && TitleAt(nodes, i, d.title);
    }
    forall j | j in L && TitleAt(nodes, j, d.title)
      ensures d.CompareTo(e) < 0
    {
      assert Ordered(nodes, j, i);
      var x := DataAt(nodes, j).value;
      CompareToReadsTitlesOnly(x, e, d, e);
    }
    forall j | j in R && TitleAt(nodes, j, d.title)
      ensures d.CompareTo(e) > 0
    {
      assert Ordered(nodes, i, j);
      var x := DataAt(nodes, j).value;
      CompareToReadsTitlesOnly(e, x, e, d);
      CompareToProperties(e, d);
    }
  }

  /** The element of an index in a list is one of the list's elements. */
  lemma DataInList(nodes: seq<Node>, s: seq<nat>, j: nat)
    requires j in s
    ensures DataAt(nodes, j) in DataSeq(nodes, s)
  {
    var k :| 0 <= k < |s| && s[k] == j;
    assert DataSeq(nodes, s)[k] == DataAt(nodes, j);
  }
}
