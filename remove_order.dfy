/**
 * Where `remove` leaves the elements: the subtree of a node is one
 * stretch of the in-order list, and taking a node out (or moving its
 * successor's element into it) removes exactly one entry of the element
 * sequence.
 */
module RemovalOrder {
  import opened Outcomes
  import opened Songs
  import opened Arena
  import opened Rotations
  import opened Removal
  import opened FixUp

  /** `after` is `before` less one present element with the given title. */
  ghost predicate RemovedOne(before: seq<Option<Song>>, after: seq<Option<Song>>, title: string) {
    exists k :: 0 <= k < |before| && before[k].Some? && before[k].value.title == title &&
      after == before[..k] + before[k+1..]
  }

  /** The elements at the indices of `s` are in strictly ascending order. */
  ghost predicate Ascending(nodes: seq<Node>, s: seq<nat>) {
    forall a, b :: 0 <= a < b < |s| ==> Ordered(nodes, s[a], s[b])
  }

  lemma AscendingIsSorted(nodes: seq<Node>, s: seq<nat>)
    ensures Ascending(nodes, s) <==> Sorted(DataSeq(nodes, s))
  {
  }

  lemma DataSeqAppend(nodes: seq<Node>, a: seq<nat>, b: seq<nat>)
    ensures DataSeq(nodes, a + b) == DataSeq(nodes, a) + DataSeq(nodes, b)
  {
  }

  /** The subtree of a live node is one stretch of the in-order list. */
  lemma {:induction false} Segment(nodes: seq<Node>, root: Ptr, sub: Subs, y: nat) returns (P: seq<nat>, Q: seq<nat>)
    requires Wf(nodes, root, sub) && y in sub
    ensures Order(root, sub) == P + sub[y] + Q
    decreases |sub.Keys| - |sub[y]|
  {
    Links(nodes, root, sub, y);
    var q := nodes[y].parent;
    if q.Null? {
      P, Q := [], [];
    } else {
      ParentLonger(nodes, root, sub, y);
      SubBounded(nodes, root, sub, q.i);
      var P', Q' := Segment(nodes, root, sub, q.i);
      ListAt(nodes, root, sub, q.i);
      var L, R := SubOf(sub, nodes[q.i].left), SubOf(sub, nodes[q.i].right);
      if nodes[q.i].left == Ref(y) {
        P, Q := P', [q.i] + R + Q';
      } else {
        P, Q := P' + L + [q.i], Q';
      }
    }
  }

  /** Replacing the one occurrence of `y` in `A + [y] + B` by `r`. */
  lemma ReplaceMiddle(A: seq<nat>, y: nat, B: seq<nat>, r: seq<nat>)
    requires y !in A && y !in B
    ensures Subst(A + [y] + B, y, r) == A + r + B
  {
    SubstAppend(A + [y], B, y, r);
    SubstAppend(A, [y], y, r);
    assert Subst([y], y, r) == r + Subst([], y, r);
    SubstAbsent(A, y, r);
    SubstAbsent(B, y, r);
  }

  /** Taking the entry at position |A| out of a sequence. */
  lemma DropAt<T>(A: seq<T>, y: T, B: seq<T>)
    ensures var s := A + [y] + B; s[..|A|] + s[|A|+1..] == A + B
  {
    var s := A + [y] + B;
    assert s[..|A|] == A;
    assert s[|A|+1..] == B;
  }

  /**
   * Replacing `y` by the placeholder `n`, then unlinking the placeholder,
   * takes `y` out of the list and nothing else.
   */
  lemma PlaceThenUnlink(A: seq<nat>, y: nat, B: seq<nat>, r: seq<nat>, n: nat)
    requires y !in A && y !in B && n !in A && n !in B && (r == [] || r == [n])
    ensures Subst(Subst(A + [y] + B, y, r), n, []) == A + B
  {
    ReplaceMiddle(A, y, B, r);
    if r == [] {
      assert A + r + B == A + B;
      assert n !in A + B;
      SubstAbsent(A + B, n, []);
    } else {
      ReplaceMiddle(A, n, B, []);
    }
  }

  /** Dropping one entry of a sorted sequence leaves it sorted. */
  lemma SortedDrop(u: seq<Option<Song>>, e: Option<Song>, v: seq<Option<Song>>)
    requires Sorted(u + [e] + v)
    ensures Sorted(u + v)
  {
    var s, t := u + [e] + v, u + v;
    forall a, b | 0 <= a < b < |t| && t[a].Some? && t[b].Some? ensures Before(t[a].value, t[b].value) {
      var a', b' := if a < |u| then a else a + 1, if b < |u| then b else b + 1;
      assert t[a] == s[a'] && t[b] == s[b'];
    }
  }

  /** Putting absent entries into a sorted sequence leaves it sorted. */
  lemma SortedWithNone(u: seq<Option<Song>>, r: seq<Option<Song>>, v: seq<Option<Song>>)
    requires Sorted(u + v) && forall k :: 0 <= k < |r| ==> r[k].None?
    ensures Sorted(u + r + v)
  {
    var s, t := u + v, u + r + v;
    forall a, b | 0 <= a < b < |t| && t[a].Some? && t[b].Some? ensures Before(t[a].value, t[b].value) {
      assert !(|u| <= a < |u| + |r|) && !(|u| <= b < |u| + |r|);
      var a', b' := if a < |u| then a else a - |r|, if b < |u| then b else b - |r|;
      assert t[a] == s[a'] && t[b] == s[b'];
    }
  }

  /** In an ascending list, a node's left list sorts before it and its right list after it. */
  lemma AscendingAround(nodes: seq<Node>, P: seq<nat>, L: seq<nat>, i: nat, R: seq<nat>, Q: seq<nat>)
    requires Ascending(nodes, P + (L + [i] + R) + Q)
    ensures forall j :: j in L ==> Ordered(nodes, j, i)
    ensures forall j :: j in R ==> Ordered(nodes, i, j)
  {
    var O := P + (L + [i] + R) + Q;
    assert O[|P| + |L|] == i;
    forall j | j in L ensures Ordered(nodes, j, i) {
      var a :| 0 <= a < |L| && L[a] == j;
      assert O[|P| + a] == j;
    }
    forall j | j in R ensures Ordered(nodes, i, j) {
      var a :| 0 <= a < |R| && R[a] == j;
      assert O[|P| + |L| + 1 + a] == j;
    }
  }

  /** `nodes` with the element of `x` replaced by `d`. */
  function WithData(nodes: seq<Node>, x: nat, d: Song): (r: seq<Node>)
    requires x < |nodes|
    ensures |r| == |nodes| && r[x].data == Some(d)
    ensures forall j :: 0 <= j < |nodes| ==> r[j] == (if j == x then nodes[x].(data := Some(d)) else nodes[j])
  {
    nodes[x := nodes[x].(data := Some(d))]
  }

  /** After `x` takes element `d`, a live node keeps its links and, the in-order list being ascending, its shape. */
  lemma RewriteAt(nodes: seq<Node>, root: Ptr, sub: Subs, x: nat, d: Song, i: nat)
    requires Wf(nodes, root, sub) && x < |nodes| && i in sub
    requires Ascending(WithData(nodes, x, d), Order(root, sub))
    ensures LocalOk(WithData(nodes, x, d), root, sub, i)
  {
    var nodes' := WithData(nodes, x, d);
    Local(nodes, root, sub, i);
    var n := nodes[i];
    if n.left.Ref? { Links(nodes, root, sub, n.left.i); }
    if n.right.Ref? { Links(nodes, root, sub, n.right.i); }
    if n.parent.Ref? { Links(nodes, root, sub, n.parent.i); }
    assert LinksOk(nodes', root, sub, i);
    var P, Q := Segment(nodes, root, sub, i);
    AscendingAround(nodes', P, SubOf(sub, n.left), i, SubOf(sub, n.right), Q);
  }

  /** Giving `x` an element that keeps the in-order list ascending keeps the tree well formed. */
  lemma RewriteWf(nodes: seq<Node>, root: Ptr, sub: Subs, x: nat, d: Song)
    requires Wf(nodes, root, sub) && x < |nodes|
    requires Ascending(WithData(nodes, x, d), Order(root, sub))
    ensures Wf(WithData(nodes, x, d), root, sub)
  {
    forall i | i in sub ensures LocalOk(WithData(nodes, x, d), root, sub, i) {
      RewriteAt(nodes, root, sub, x, d, i);
    }
  }

  /** In a list without repetitions, the entry between `A` and `B` is in neither. */
  lemma DistinctMiddle(A: seq<nat>, x: nat, B: seq<nat>)
    requires Distinct(A + [x] + B)
    ensures x !in A && x !in B
  {
    var s := A + [x] + B;
    assert s[|A|] == x;
    assert forall a :: 0 <= a < |A| ==> s[a] == A[a];
    assert forall b :: 0 <= b < |B| ==> s[|A| + 1 + b] == B[b];
  }

  /**
   * The in-order list around a live node `x`: what comes before it, `x`
   * itself, its right subtree and what comes after. Every entry is an
   * index below |nodes|, and `x` occurs once.
   */
  lemma OrderAround(nodes: seq<Node>, root: Ptr, sub: Subs, x: nat) returns (A: seq<nat>, Q: seq<nat>)
    requires Wf(nodes, root, sub) && x in sub
    ensures x < |nodes| && Order(root, sub) == A + [x] + (SubOf(sub, nodes[x].right) + Q)
    ensures x !in A && x !in SubOf(sub, nodes[x].right) + Q
    ensures forall j :: j in Order(root, sub) ==> j < |nodes|
  {
    var P, Q' := Segment(nodes, root, sub, x);
    ListAt(nodes, root, sub, x);
    var L, R := SubOf(sub, nodes[x].left), SubOf(sub, nodes[x].right);
    A, Q := P + L, Q';
    assert Order(root, sub) == A + [x] + (R + Q);
    OrderIsLive(nodes, root, sub);
    DistinctMiddle(A, x, R + Q);
    forall j | j in Order(root, sub) ensures j < |nodes| {
      Links(nodes, root, sub, j);
    }
  }

  /** Two arenas with the same elements give the same element sequence for any index list. */
  lemma DataSeqSame(nodes: seq<Node>, nodes': seq<Node>, s: seq<nat>)
    requires forall j :: j in s ==> DataAt(nodes', j) == DataAt(nodes, j)
    ensures DataSeq(nodes', s) == DataSeq(nodes, s)
  {
    var a, b := DataSeq(nodes', s), DataSeq(nodes, s);
    assert |a| == |b|;
    forall k | 0 <= k < |a| ensures a[k] == b[k] {
      assert s[k] in s;
    }
  }

  /** Taking the entry `x` out of the list takes its element out of the element sequence. */
  lemma DropEntry(nodes: seq<Node>, A: seq<nat>, x: nat, B: seq<nat>)
    ensures var E := DataSeq(nodes, A + [x] + B);
      |A| < |E| && E[|A|] == DataAt(nodes, x) && E[..|A|] + E[|A|+1..] == DataSeq(nodes, A + B)
  {
    var u, y, v := DataSeq(nodes, A), DataAt(nodes, x), DataSeq(nodes, B);
    DataSeqAppend(nodes, A + [x], B);
    DataSeqAppend(nodes, A, [x]);
    assert DataSeq(nodes, [x]) == [y];
    assert DataSeq(nodes, A + [x] + B) == u + [y] + v;
    DataSeqAppend(nodes, A, B);
    DropAt(u, y, v);
  }

  /** WithData changes the element of `x` only. */
  lemma WithDataElsewhere(nodes: seq<Node>, x: nat, d: Song, j: nat)
    requires x < |nodes| && j != x
    ensures DataAt(WithData(nodes, x, d), j) == DataAt(nodes, j)
  {
  }

  /** The element sequence of a list made of four parts. */
  lemma DataSeqOfParts(nodes: seq<Node>, A: seq<nat>, x: nat, r: seq<nat>, B: seq<nat>)
    ensures DataSeq(nodes, A + [x] + r + B) == DataSeq(nodes, A) + [DataAt(nodes, x)] + DataSeq(nodes, r) + DataSeq(nodes, B)
  {
    DataSeqAppend(nodes, A + [x] + r, B);
    DataSeqAppend(nodes, A + [x], r);
    DataSeqAppend(nodes, A, [x]);
  }

  /**
   * Dropping `e0` from a sorted sequence and putting absent entries after
   * the element that followed it leaves it sorted.
   */
  lemma SortedSwap(u: seq<Option<Song>>, e0: Option<Song>, e: Option<Song>, w: seq<Option<Song>>, v: seq<Option<Song>>)
    requires Sorted(u + [e0] + [e] + v) && forall k :: 0 <= k < |w| ==> w[k].None?
    ensures Sorted(u + [e] + w + v)
  {
    assert u + [e0] + [e] + v == u + [e0] + ([e] + v);
    SortedDrop(u, e0, [e] + v);
    assert u + ([e] + v) == (u + [e]) + v;
    SortedWithNone(u + [e], w, v);
  }

  /**
   * The successor's element moved into `x` once the successor `s`, which
   * came right after `x`, has given way to `r` (nothing, or the
   * placeholder): the list stays ascending.
   */
  lemma SuccessorSorted(n0: seq<Node>, n1: seq<Node>, A: seq<nat>, x: nat, s: nat, B: seq<nat>, r: seq<nat>, d: Song)
    requires Sorted(DataSeq(n0, A + [x] + [s] + B)) && DataAt(n0, s) == Some(d) && x < |n1|
    requires forall j :: j in A || j in B ==> DataAt(n1, j) == DataAt(n0, j)
    requires forall j :: j in r ==> DataAt(n1, j).None?
    requires x !in A && x !in B && x !in r
    ensures Sorted(DataSeq(WithData(n1, x, d), A + [x] + r + B))
  {
    var n2 := WithData(n1, x, d);
    var u, v, w := DataSeq(n0, A), DataSeq(n0, B), DataSeq(n2, r);
    DataSeqOfParts(n0, A, x, [s], B);
    assert DataSeq(n0, [s]) == [Some(d)];
    forall j | j in A || j in B || j in r ensures DataAt(n2, j) == DataAt(n1, j) {
      WithDataElsewhere(n1, x, d, j);
    }
    DataSeqSame(n0, n2, A);
    DataSeqSame(n0, n2, B);
    forall k | 0 <= k < |w| ensures w[k].None? {
      assert r[k] in r;
    }
    SortedSwap(u, DataAt(n0, x), Some(d), w, v);
    DataSeqOfParts(n2, A, x, r, B);
  }

  /** SuccessorSorted, stated on ascending index lists. */
  lemma SuccessorAscending(n0: seq<Node>, n1: seq<Node>, A: seq<nat>, x: nat, s: nat, B: seq<nat>, r: seq<nat>, d: Song)
    requires Ascending(n0, A + [x] + [s] + B) && DataAt(n0, s) == Some(d) && x < |n1|
    requires forall j :: j in A || j in B ==> DataAt(n1, j) == DataAt(n0, j)
    requires forall j :: j in r ==> DataAt(n1, j).None?
    requires x !in A && x !in B && x !in r
    ensures Ascending(WithData(n1, x, d), A + [x] + r + B)
  {
    AscendingIsSorted(n0, A + [x] + [s] + B);
    SuccessorSorted(n0, n1, A, x, s, B, r, d);
    AscendingIsSorted(WithData(n1, x, d), A + [x] + r + B);
  }


  /** Moving an element into a node of the fix-up's state keeps it, when the list stays ascending. */
  lemma RewriteFix(nodes: seq<Node>, root: Ptr, sub: Subs, ph: Ptr, x: nat, d: Song)
    requires FixOk(nodes, root, sub, ph) && x < |nodes| && Ref(x) != ph
    requires Ascending(WithData(nodes, x, d), Order(root, sub))
    ensures FixOk(WithData(nodes, x, d), root, sub, ph)
    ensures forall j :: j != x ==> DataAt(WithData(nodes, x, d), j) == DataAt(nodes, j)
  {
    RewriteWf(nodes, root, sub, x, d);
    forall j | j != x ensures DataAt(WithData(nodes, x, d), j) == DataAt(nodes, j) {
      WithDataElsewhere(nodes, x, d, j);
    }
  }

  /**
   * The in-order list once `x` has given way to nothing or to a new
   * placeholder (an index not yet in use), and the placeholder has been
   * unlinked: `x` is gone and nothing else.
   */
  lemma KeepAfterDetach(O0: seq<nat>, A: seq<nat>, x: nat, B: seq<nat>, O1: seq<nat>, ph: Ptr, bound: nat)
    requires O0 == A + [x] + B && x !in A && x !in B && (forall j :: j in O0 ==> j < bound)
    requires O1 == Subst(O0, x, if ph.Ref? then [ph.i] else []) && (ph.Ref? ==> ph.i == bound)
    ensures (if ph.Ref? then Subst(O1, ph.i, []) else O1) == A + B
  {
    if ph.Ref? {
      assert forall j :: j in A || j in B ==> j in O0;
      PlaceThenUnlink(A, x, B, [ph.i], ph.i);
    } else {
      ReplaceMiddle(A, x, B, []);
      assert A + [] + B == A + B;
    }
  }

  /** Two lists that differ in one entry holding the same element have the same element sequence. */
  lemma DataSeqSwapEntry(n0: seq<Node>, n1: seq<Node>, A: seq<nat>, x: nat, s: nat, B: seq<nat>)
    requires forall j :: j in A || j in B ==> DataAt(n1, j) == DataAt(n0, j)
    requires DataAt(n1, x) == DataAt(n0, s)
    ensures DataSeq(n1, A + [x] + B) == DataSeq(n0, A + ([s] + B))
  {
    var l, m := A + [x] + B, A + ([s] + B);
    forall i | 0 <= i < |l| ensures DataSeq(n1, l)[i] == DataSeq(n0, m)[i] {
      if i < |A| {
        assert l[i] == A[i] == m[i] && A[i] in A;
      } else if i > |A| {
        assert l[i] == B[i - |A| - 1] == m[i] && B[i - |A| - 1] in B;
      }
    }
  }
}

/** The slot bookkeeping of the two-children case of removeHelper, on its own. */
module SuccessorRemoval {
  import opened Outcomes
  import opened Songs
  import opened Arena
  import opened Removal
  import opened RemovalOrder

  /**
   * After the successor `s` is taken out and its element written into `x`,
   * the slots left in order are those before minus `s`, and their elements
   * are those before with `x`'s element dropped.
   */
  lemma SuccessorRewrite(n0: seq<Node>, O0: seq<nat>, n1: seq<Node>, n2: seq<Node>, O1: seq<nat>, ph: Ptr,
                         A: seq<nat>, x: nat, s: nat, B: seq<nat>, E: seq<Option<Song>>)
    requires O0 == (A + [x]) + [s] + B && s !in A + [x] && s !in B && x !in A && x !in B
    requires forall j :: j in O0 ==> j < |n0|
    requires O1 == Subst(O0, s, if ph.Ref? then [ph.i] else []) && (ph.Ref? ==> ph.i == |n0|)
    requires forall j :: j in A || j in B ==> DataAt(n1, j) == DataAt(n0, j)
    requires forall j :: j != x ==> DataAt(n2, j) == DataAt(n1, j)
    requires DataAt(n2, x) == DataAt(n0, s)
    requires |A| < |E| && E[..|A|] + E[|A|+1..] == DataSeq(n0, A + ([s] + B))
    ensures (if ph.Ref? then Subst(O1, ph.i, []) else O1) == A + [x] + B
    ensures DataSeq(n2, A + [x] + B) == E[..|A|] + E[|A|+1..]
  {
    forall j | j in A || j in B ensures DataAt(n2, j) == DataAt(n0, j) {
      assert j != x;
    }
    KeepAfterDetach(O0, A + [x], s, B, O1, ph, |n0|);
    DataSeqSwapEntry(n0, n2, A, x, s, B);
  }
}
