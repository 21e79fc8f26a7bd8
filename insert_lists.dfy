/**
 * Linking a new leaf below a node: what happens to the ghost in-order lists
 * and why the tree stays well formed (the descent that led to the leaf's
 * slot is what keeps the order).
 */
module Linking {
  import opened Outcomes
  import opened Songs
  import opened Arena

  /** `s` with `n` placed right before (`before`) or right after the first `t`. */
  ghost function InsertAdj(s: seq<nat>, t: nat, n: nat, before: bool): (r: seq<nat>)
    ensures t in s ==> |r| == |s| + 1
    ensures t !in s ==> r == s
    ensures forall x :: x in r <==> x in s || (x == n && t in s)
  {
    if s == [] then []
    else if s[0] == t then (if before then [n, t] else [t, n]) + s[1..]
    else [s[0]] + InsertAdj(s[1..], t, n, before)
  }

  /** Inserting next to `t` in a concatenation works on the half that holds `t`. */
  lemma {:induction false} InsertAdjAppend(a: seq<nat>, b: seq<nat>, t: nat, n: nat, before: bool)
    requires t !in a || t !in b
    ensures InsertAdj(a + b, t, n, before) == InsertAdj(a, t, n, before) + InsertAdj(b, t, n, before)
  {
    if a == [] {
      assert a + b == b;
    } else {
      var ab := a + b;
      assert ab[0] == a[0] && ab[1..] == a[1..] + b;
      if a[0] == t {
        var h := if before then [n, t] else [t, n];
        assert t in a;
        calc {
          InsertAdj(ab, t, n, before);
          h + (a[1..] + b);
          (h + a[1..]) + b;
          InsertAdj(a, t, n, before) + b;
          InsertAdj(a, t, n, before) + InsertAdj(b, t, n, before);
        }
      } else {
        InsertAdjAppend(a[1..], b, t, n, before);
        calc {
          InsertAdj(ab, t, n, before);
          [a[0]] + InsertAdj(a[1..] + b, t, n, before);
          [a[0]] + (InsertAdj(a[1..], t, n, before) + InsertAdj(b, t, n, before));
          ([a[0]] + InsertAdj(a[1..], t, n, before)) + InsertAdj(b, t, n, before);
          InsertAdj(a, t, n, before) + InsertAdj(b, t, n, before);
        }
      }
    }
  }

  /** The ghost lists after linking leaf `n` below `t` on the given side. */
  ghost function LinkedSubs(sub: Subs, t: nat, n: nat, left: bool): Subs {
    map i | i in sub.Keys + {n} :: if i == n then [n] else if t in sub[i] then InsertAdj(sub[i], t, n, left) else sub[i]
  }

  /** The element `d` is before (after) the element at `x`, when there is one. */
  ghost predicate KeyBefore(nodes: seq<Node>, d: Song, x: nat) {
    DataAt(nodes, x).Some? ==> Before(d, DataAt(nodes, x).value)
  }

  ghost predicate KeyAfter(nodes: seq<Node>, d: Song, x: nat) {
    DataAt(nodes, x).Some? ==> Before(DataAt(nodes, x).value, d)
  }

  /**
   * The descent to `t` agrees with `d`: every proper ancestor of `t` that
   * has `t` on its left (right) holds an element after (before) `d`.
   */
  ghost predicate Fits(nodes: seq<Node>, sub: Subs, t: nat, d: Song) {
    forall x {:trigger FitsAt(nodes, sub, t, d, x)} :: x in sub ==> FitsAt(nodes, sub, t, d, x)
  }

  /** The condition of Fits at one live node `x`. */
  ghost predicate FitsAt(nodes: seq<Node>, sub: Subs, t: nat, d: Song, x: nat)
    requires x in sub
  {
    x < |nodes| && x != t && t in sub[x] ==>
      (t in SubOf(sub, nodes[x].left) ==> KeyBefore(nodes, d, x)) &&
      (t in SubOf(sub, nodes[x].right) ==> KeyAfter(nodes, d, x))
  }

  lemma FitsAtX(nodes: seq<Node>, sub: Subs, t: nat, d: Song, x: nat)
    requires Fits(nodes, sub, t, d) && x in sub
    ensures FitsAt(nodes, sub, t, d, x)
  {
  }

  /** The arena after linking a new red leaf holding `d` below `t`. */
  ghost predicate IsLink(nodes: seq<Node>, nodes': seq<Node>, t: nat, d: Song, left: bool)
    requires t < |nodes|
  {
    var n := |nodes|;
    |nodes'| == n + 1 &&
    nodes'[n] == Node(Some(d), Ref(t), Null, Null, RED) &&
    nodes'[t] == WithChild(nodes[t], left, Ref(n)) &&
    forall j :: 0 <= j < n && j != t ==> nodes'[j] == nodes[j]
  }

  /** The requirements shared by the lemmas below. */
  ghost predicate LinkCase(nodes: seq<Node>, root: Ptr, sub: Subs, nodes': seq<Node>, t: nat, d: Song, left: bool) {
    Wf(nodes, root, sub) && t in sub && t < |nodes| &&
    Child(nodes[t], left) == Null &&
    Fits(nodes, sub, t, d) &&
    (if left then KeyBefore(nodes, d, t) else KeyAfter(nodes, d, t)) &&
    IsLink(nodes, nodes', t, d, left)
  }

  /** Every live index is below the arena's length, so the new index is not live. */
  lemma LiveBelow(nodes: seq<Node>, root: Ptr, sub: Subs)
    requires Wf(nodes, root, sub)
    ensures forall i :: i in sub ==> i < |nodes|
  {
    forall i | i in sub ensures i < |nodes| { Local(nodes, root, sub, i); }
  }

  /** Linking keeps every old element where it was. */
  lemma LinkData(nodes: seq<Node>, nodes': seq<Node>, t: nat, d: Song, left: bool)
    requires t < |nodes| && IsLink(nodes, nodes', t, d, left)
    ensures forall j: nat :: j < |nodes| ==> DataAt(nodes', j) == DataAt(nodes, j)
    ensures DataAt(nodes', |nodes|) == Some(d)
    ensures forall j: nat, i: nat :: j < |nodes| && i < |nodes| ==> Ordered(nodes', j, i) == Ordered(nodes, j, i)
  {
  }

  lemma LinkAtNew(nodes: seq<Node>, root: Ptr, sub: Subs, nodes': seq<Node>, t: nat, d: Song, left: bool)
    requires LinkCase(nodes, root, sub, nodes', t, d, left)
    ensures LocalOk(nodes', root, LinkedSubs(sub, t, |nodes|, left), |nodes|)
  {
    var n := |nodes|;
    var sub' := LinkedSubs(sub, t, n, left);
    assert Child(nodes'[t], left) == Ref(n);
    assert SubOf(sub', Null) == [];
  }

  lemma LinkLinksAtAncestor(nodes: seq<Node>, root: Ptr, sub: Subs, nodes': seq<Node>, t: nat, d: Song, left: bool, i: nat)
    requires LinkCase(nodes, root, sub, nodes', t, d, left)
    requires i in sub && t in sub[i]
    ensures i < |nodes'| && LinksOk(nodes', root, LinkedSubs(sub, t, |nodes|, left), i)
  {
    var n := |nodes|;
    LiveBelow(nodes, root, sub);
    Links(nodes, root, sub, i);
    var N := nodes[i];
    if N.left.Ref? { Links(nodes, root, sub, N.left.i); }
    if N.right.Ref? { Links(nodes, root, sub, N.right.i); }
    if N.parent.Ref? { Links(nodes, root, sub, N.parent.i); }
    if i == t {
      assert nodes'[i] == WithChild(N, left, Ref(n));
    } else {
      assert nodes'[i] == N;
    }
  }

  /** The value of the linked lists at a node that was live before. */
  lemma LinkedAt(sub: Subs, t: nat, n: nat, left: bool, x: nat)
    requires x in sub && x != n
    ensures x in LinkedSubs(sub, t, n, left)
    ensures LinkedSubs(sub, t, n, left)[x] == InsertAdj(sub[x], t, n, left)
  {
  }

  /** Linking adds exactly the new index to the live nodes. */
  lemma LinkedKeys(sub: Subs, t: nat, n: nat, left: bool)
    ensures LinkedSubs(sub, t, n, left).Keys == sub.Keys + {n}
  {
  }

  /** A node whose left list gained `n`, with `n`'s element before its own, keeps its shape. */
  lemma ShapeGrowLeft(nodes: seq<Node>, sub: Subs, nodes': seq<Node>, sub': Subs, i: nat, L: seq<nat>, R: seq<nat>, L': seq<nat>, n: nat)
    requires i < |nodes| && i in sub && ShapeOk(nodes, sub, i)
    requires L == SubOf(sub, nodes[i].left) && R == SubOf(sub, nodes[i].right)
    requires i < |nodes'| && i in sub' && nodes'[i].blackHeight == nodes[i].blackHeight
    requires SubOf(sub', nodes'[i].left) == L' && SubOf(sub', nodes'[i].right) == R && sub'[i] == L' + [i] + R
    requires forall x :: x in L' <==> x in L || x == n
    requires n != i && n !in R
    requires forall j :: j in sub[i] ==> DataAt(nodes', j) == DataAt(nodes, j)
    requires Ordered(nodes', n, i)
    ensures ShapeOk(nodes', sub', i)
  {
    assert i in sub[i];
    forall j | j in L' ensures Ordered(nodes', j, i) {
      if j != n { assert j in sub[i]; }
    }
    forall j | j in R ensures Ordered(nodes', i, j) {
      assert j in sub[i];
    }
  }

  /** A node whose right list gained `n`, with `n`'s element after its own, keeps its shape. */
  lemma ShapeGrowRight(nodes: seq<Node>, sub: Subs, nodes': seq<Node>, sub': Subs, i: nat, L: seq<nat>, R: seq<nat>, R': seq<nat>, n: nat)
    requires i < |nodes| && i in sub && ShapeOk(nodes, sub, i)
    requires L == SubOf(sub, nodes[i].left) && R == SubOf(sub, nodes[i].right)
    requires i < |nodes'| && i in sub' && nodes'[i].blackHeight == nodes[i].blackHeight
    requires SubOf(sub', nodes'[i].left) == L && SubOf(sub', nodes'[i].right) == R' && sub'[i] == L + [i] + R'
    requires forall x :: x in R' <==> x in R || x == n
    requires n != i && n !in L
    requires forall j :: j in sub[i] ==> DataAt(nodes', j) == DataAt(nodes, j)
    requires Ordered(nodes', i, n)
    ensures ShapeOk(nodes', sub', i)
  {
    assert i in sub[i];
    forall j | j in L ensures Ordered(nodes', j, i) {
      assert j in sub[i];
    }
    forall j | j in R' ensures Ordered(nodes', i, j) {
      if j != n { assert j in sub[i]; }
    }
  }

  /** What linking on the left of `t` does to `t`'s node and lists. */
  lemma LinkAtTLeftFacts(nodes: seq<Node>, root: Ptr, sub: Subs, nodes': seq<Node>, t: nat, d: Song)
    requires LinkCase(nodes, root, sub, nodes', t, d, true)
    ensures var n, sub' := |nodes|, LinkedSubs(sub, t, |nodes|, true);
      var R := SubOf(sub, nodes[t].right);
      t < |nodes| && t in sub && ShapeOk(nodes, sub, t) && SubOf(sub, nodes[t].left) == [] &&
      t < |nodes'| && t in sub' && nodes'[t].blackHeight == nodes[t].blackHeight &&
      SubOf(sub', nodes'[t].left) == [n] && SubOf(sub', nodes'[t].right) == R && sub'[t] == [n] + [t] + R &&
      n != t && n !in R &&
      (forall j :: j in sub[t] ==> DataAt(nodes', j) == DataAt(nodes, j)) &&
      Ordered(nodes', n, t)
  {
    var n := |nodes|;
    var N := nodes[t];
    var R := SubOf(sub, N.right);
    assert ShapeOk(nodes, sub, t) && SubOf(sub, N.left) == [] && sub[t] == [t] + R && t !in R &&
      (forall j :: j in sub[t] ==> j < n) && n !in R && (N.right.Ref? ==> N.right.i in sub && N.right.i < n && sub[N.right.i] == R) by {
      LiveBelow(nodes, root, sub);
      Shape(nodes, root, sub, t);
      Links(nodes, root, sub, t);
      SubClosed(nodes, root, sub, t);
      assert forall j :: j in R ==> j in [t] + R;
    }
    LinkedLeft(nodes, sub, nodes', t, d, R);
  }

  /** LinkAtTLeftFacts from the facts about `t`'s lists it needs alone. */
  lemma LinkedLeft(nodes: seq<Node>, sub: Subs, nodes': seq<Node>, t: nat, d: Song, R: seq<nat>)
    requires t < |nodes| && t in sub && IsLink(nodes, nodes', t, d, true) && KeyBefore(nodes, d, t)
    requires R == SubOf(sub, nodes[t].right) && SubOf(sub, nodes[t].left) == [] && sub[t] == [t] + R
    requires t !in R && |nodes| !in R && forall j :: j in sub[t] ==> j < |nodes|
    requires nodes[t].right.Ref? ==> nodes[t].right.i in sub && nodes[t].right.i < |nodes| && sub[nodes[t].right.i] == R
    ensures var n, sub' := |nodes|, LinkedSubs(sub, t, |nodes|, true);
      t < |nodes'| && t in sub' && nodes'[t].blackHeight == nodes[t].blackHeight &&
      SubOf(sub', nodes'[t].left) == [n] && SubOf(sub', nodes'[t].right) == R && sub'[t] == [n] + [t] + R &&
      (forall j :: j in sub[t] ==> DataAt(nodes', j) == DataAt(nodes, j)) &&
      Ordered(nodes', n, t)
  {
    var n := |nodes|;
    var sub' := LinkedSubs(sub, t, n, true);
    var N := nodes[t];
    LinkData(nodes, nodes', t, d, true);
    LinkedAt(sub, t, n, true, t);
    assert SubOf(sub', Ref(n)) == [n];
    assert nodes'[t] == WithChild(N, true, Ref(n));
    if N.right.Ref? { LinkedAt(sub, t, n, true, N.right.i); }
    InsertAdjAppend([t], R, t, n, true);
  }

  /** The new leaf hangs on the left of `t`: `t`'s list becomes `[n, t] + R`. */
  lemma LinkShapeAtTLeft(nodes: seq<Node>, root: Ptr, sub: Subs, nodes': seq<Node>, t: nat, d: Song)
    requires LinkCase(nodes, root, sub, nodes', t, d, true)
    ensures t < |nodes'| && t in LinkedSubs(sub, t, |nodes|, true) && ShapeOk(nodes', LinkedSubs(sub, t, |nodes|, true), t)
  {
    LinkAtTLeftFacts(nodes, root, sub, nodes', t, d);
    var n := |nodes|;
    ShapeGrowLeft(nodes, sub, nodes', LinkedSubs(sub, t, n, true), t, [], SubOf(sub, nodes[t].right), [n], n);
  }

  /** What linking on the right of `t` does to `t`'s node and lists. */
  lemma LinkAtTRightFacts(nodes: seq<Node>, root: Ptr, sub: Subs, nodes': seq<Node>, t: nat, d: Song)
    requires LinkCase(nodes, root, sub, nodes', t, d, false)
    ensures var n, sub' := |nodes|, LinkedSubs(sub, t, |nodes|, false);
      var L := SubOf(sub, nodes[t].left);
      t < |nodes| && t in sub && ShapeOk(nodes, sub, t) && SubOf(sub, nodes[t].right) == [] &&
      t < |nodes'| && t in sub' && nodes'[t].blackHeight == nodes[t].blackHeight &&
      SubOf(sub', nodes'[t].left) == L && SubOf(sub', nodes'[t].right) == [n] && sub'[t] == L + [t] + [n] &&
      n != t && n !in L &&
      (forall j :: j in sub[t] ==> DataAt(nodes', j) == DataAt(nodes, j)) &&
      Ordered(nodes', t, n)
  {
    var n := |nodes|;
    var sub' := LinkedSubs(sub, t, n, false);
    var N := nodes[t];
    var L := SubOf(sub, N.left);
    assert ShapeOk(nodes, sub, t) && SubOf(sub, N.right) == [] && sub[t] == L + [t] && t !in L && n !in L &&
      (N.left.Ref? ==> N.left.i in sub && N.left.i < n && sub[N.left.i] == L) && (forall j :: j in sub[t] ==> j < n) by {
      LiveBelow(nodes, root, sub);
      Shape(nodes, root, sub, t);
      Links(nodes, root, sub, t);
      SubClosed(nodes, root, sub, t);
    }
    LinkedRight(nodes, sub, nodes', t, d, L);
  }

  /** LinkAtTRightFacts from the facts about `t`'s lists it needs alone. */
  lemma LinkedRight(nodes: seq<Node>, sub: Subs, nodes': seq<Node>, t: nat, d: Song, L: seq<nat>)
    requires t < |nodes| && t in sub && IsLink(nodes, nodes', t, d, false) && KeyAfter(nodes, d, t)
    requires L == SubOf(sub, nodes[t].left) && SubOf(sub, nodes[t].right) == [] && sub[t] == L + [t]
    requires t !in L && |nodes| !in L && forall j :: j in sub[t] ==> j < |nodes|
    requires nodes[t].left.Ref? ==> nodes[t].left.i in sub && nodes[t].left.i < |nodes| && sub[nodes[t].left.i] == L
    ensures var n, sub' := |nodes|, LinkedSubs(sub, t, |nodes|, false);
      t < |nodes'| && t in sub' && nodes'[t].blackHeight == nodes[t].blackHeight &&
      SubOf(sub', nodes'[t].left) == L && SubOf(sub', nodes'[t].right) == [n] && sub'[t] == L + [t] + [n] &&
      (forall j :: j in sub[t] ==> DataAt(nodes', j) == DataAt(nodes, j)) &&
      Ordered(nodes', t, n)
  {
    var n := |nodes|;
    var sub' := LinkedSubs(sub, t, n, false);
    var N := nodes[t];
    LinkData(nodes, nodes', t, d, false);
    LinkedAt(sub, t, n, false, t);
    assert SubOf(sub', Ref(n)) == [n];
    assert nodes'[t] == WithChild(N, false, Ref(n));
    if N.left.Ref? { LinkedAt(sub, t, n, false, N.left.i); }
    InsertAdjAppend(L, [t], t, n, false);
  }

  /** The new leaf hangs on the right of `t`: `t`'s list becomes `L + [t, n]`. */
  lemma LinkShapeAtTRight(nodes: seq<Node>, root: Ptr, sub: Subs, nodes': seq<Node>, t: nat, d: Song)
    requires LinkCase(nodes, root, sub, nodes', t, d, false)
    ensures t < |nodes'| && t in LinkedSubs(sub, t, |nodes|, false) && ShapeOk(nodes', LinkedSubs(sub, t, |nodes|, false), t)
  {
    LinkAtTRightFacts(nodes, root, sub, nodes', t, d);
    var n := |nodes|;
    ShapeGrowRight(nodes, sub, nodes', LinkedSubs(sub, t, n, false), t, SubOf(sub, nodes[t].left), [], [n], n);
  }

  lemma LinkShapeAbove(nodes: seq<Node>, root: Ptr, sub: Subs, nodes': seq<Node>, t: nat, d: Song, left: bool, i: nat)
    requires LinkCase(nodes, root, sub, nodes', t, d, left)
    requires i in sub && t in sub[i] && i != t
    ensures i < |nodes'| && i in LinkedSubs(sub, t, |nodes|, left) && ShapeOk(nodes', LinkedSubs(sub, t, |nodes|, left), i)
  {
    var n := |nodes|;
    var sub' := LinkedSubs(sub, t, n, left);
    LiveBelow(nodes, root, sub);
    Shape(nodes, root, sub, i);
    Links(nodes, root, sub, i);
    SubClosed(nodes, root, sub, i);
    LinkData(nodes, nodes', t, d, left);
    FitsAtX(nodes, sub, t, d, i);
    LinkedAt(sub, t, n, left, i);
    var N := nodes[i];
    var L, R := SubOf(sub, N.left), SubOf(sub, N.right);
    assert n !in L && n !in R;
    assert nodes'[i] == N;
    assert t in L || t in R;
    InsertAdjAppend(L + [i], R, t, n, left);
    InsertAdjAppend(L, [i], t, n, left);
    if t in L {
      LinkedAt(sub, t, n, left, N.left.i);
      if N.right.Ref? { LinkedAt(sub, t, n, left, N.right.i); assert t !in sub[N.right.i]; }
      ShapeGrowLeft(nodes, sub, nodes', sub', i, L, R, InsertAdj(L, t, n, left), n);
    } else {
      LinkedAt(sub, t, n, left, N.right.i);
      if N.left.Ref? { LinkedAt(sub, t, n, left, N.left.i); assert t !in sub[N.left.i]; }
      ShapeGrowRight(nodes, sub, nodes', sub', i, L, R, InsertAdj(R, t, n, left), n);
    }
  }

  lemma LinkAtAncestor(nodes: seq<Node>, root: Ptr, sub: Subs, nodes': seq<Node>, t: nat, d: Song, left: bool, i: nat)
    requires LinkCase(nodes, root, sub, nodes', t, d, left)
    requires i in sub && t in sub[i]
    ensures LocalOk(nodes', root, LinkedSubs(sub, t, |nodes|, left), i)
  {
    LinkLinksAtAncestor(nodes, root, sub, nodes', t, d, left, i);
    if i == t && left {
      LinkShapeAtTLeft(nodes, root, sub, nodes', t, d);
    } else if i == t {
      LinkShapeAtTRight(nodes, root, sub, nodes', t, d);
    } else {
      LinkShapeAbove(nodes, root, sub, nodes', t, d, left, i);
    }
  }

  lemma LinkElsewhere(nodes: seq<Node>, root: Ptr, sub: Subs, nodes': seq<Node>, t: nat, d: Song, left: bool, i: nat)
    requires LinkCase(nodes, root, sub, nodes', t, d, left)
    requires i in sub && t !in sub[i]
    ensures LocalOk(nodes', root, LinkedSubs(sub, t, |nodes|, left), i)
  {
    var n := |nodes|;
    var sub' := LinkedSubs(sub, t, n, left);
    LiveBelow(nodes, root, sub);
    Links(nodes, root, sub, i);
    Shape(nodes, root, sub, i);
    ListAt(nodes, root, sub, t);
    SubClosed(nodes, root, sub, i);
    LinkData(nodes, nodes', t, d, left);
    var N := nodes[i];
    assert i != t;
    assert nodes'[i] == N;
    if N.left.Ref? { Links(nodes, root, sub, N.left.i); assert t !in sub[N.left.i]; }
    if N.right.Ref? { Links(nodes, root, sub, N.right.i); assert t !in sub[N.right.i]; }
    if N.parent.Ref? { Links(nodes, root, sub, N.parent.i); }
    assert SubOf(sub', N.left) == SubOf(sub, N.left);
    assert SubOf(sub', N.right) == SubOf(sub, N.right);
    ShapeFrame(nodes, sub, nodes', sub', i);
  }

  /**
   * Linking a new leaf in the slot the descent found keeps the tree well
   * formed, and the new index appears next to `t` in the in-order list.
   */
  /** Every live node satisfies the local conditions after linking. */
  lemma LinkLocal(nodes: seq<Node>, root: Ptr, sub: Subs, nodes': seq<Node>, t: nat, d: Song, left: bool)
    requires LinkCase(nodes, root, sub, nodes', t, d, left)
    ensures var sub' := LinkedSubs(sub, t, |nodes|, left);
      forall i :: i in sub' ==> LocalOk(nodes', root, sub', i)
  {
    var n := |nodes|;
    var sub' := LinkedSubs(sub, t, n, left);
    forall i | i in sub' ensures LocalOk(nodes', root, sub', i) {
      if i == n {
        LinkAtNew(nodes, root, sub, nodes', t, d, left);
      } else if t in sub[i] {
        LinkAtAncestor(nodes, root, sub, nodes', t, d, left, i);
      } else {
        LinkElsewhere(nodes, root, sub, nodes', t, d, left, i);
      }
    }
  }

  lemma LinkLeafWf(nodes: seq<Node>, root: Ptr, sub: Subs, nodes': seq<Node>, t: nat, d: Song, left: bool)
    requires LinkCase(nodes, root, sub, nodes', t, d, left)
    ensures var sub' := LinkedSubs(sub, t, |nodes|, left);
      Wf(nodes', root, sub') && sub'.Keys == sub.Keys + {|nodes|} &&
      Order(root, sub') == InsertAdj(Order(root, sub), t, |nodes|, left)
  {
    var n := |nodes|;
    var sub' := LinkedSubs(sub, t, n, left);
    LinkLocal(nodes, root, sub, nodes', t, d, left);
    assert root.Ref? && root.i < n && root.i in sub && nodes[root.i].parent == Null by {
      assert t in sub;
    }
    LiveInOrder(nodes, root, sub, t);
    LinkedAt(sub, t, n, left, root.i);
    assert nodes'[root.i].parent == Null;
    LinkedKeys(sub, t, n, left);
  }
}
