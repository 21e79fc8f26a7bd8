/**
 * RedBlackTree.iterator(): an in-order iterator over the tree that keeps a
 * stack of nodes whose left subtrees are being visited and the node to
 * descend from next. The stack is null until the first call of next().
 */
module TreeIterators {
  import opened Outcomes
  import opened Songs
  import opened Arena
  import opened Rotations
  import opened RedBlackTrees

  /** The nodes a stack still owes: each entry, then its right subtree, from the top (the end) down. */
  ghost function Owed(nodes: seq<Node>, sub: Subs, s: seq<nat>): seq<nat>
    requires forall k :: 0 <= k < |s| ==> s[k] < |nodes|
  {
    if s == [] then []
    else
      var top := s[|s| - 1];
      [top] + SubOf(sub, nodes[top].right) + Owed(nodes, sub, s[..|s| - 1])
  }

  /** Every entry of the stack is a live node. */
  ghost predicate AllLive(nodes: seq<Node>, sub: Subs, s: seq<nat>) {
    forall k :: 0 <= k < |s| ==> s[k] in sub && s[k] < |nodes|
  }

  /**
   * Pushing `c` and moving to its left child owes the same nodes: `c`'s
   * subtree is its left subtree, `c`, and its right subtree.
   */
  lemma {:induction false} PushLeft(nodes: seq<Node>, root: Ptr, sub: Subs, s: seq<nat>, c: nat)
    requires Wf(nodes, root, sub) && c in sub && AllLive(nodes, sub, s)
    ensures c < |nodes| && AllLive(nodes, sub, s + [c])
    ensures var l := nodes[c].left;
      (l.Ref? ==> l.i in sub && |sub[l.i]| < |sub[c]|) &&
      SubOf(sub, Ref(c)) + Owed(nodes, sub, s) == SubOf(sub, l) + Owed(nodes, sub, s + [c])
  {
    ListAt(nodes, root, sub, c);
    if nodes[c].left.Ref? {
      ChildShorter(nodes, root, sub, c, true);
    }
    var t := s + [c];
    assert t[|t| - 1] == c && t[..|t| - 1] == s;
    var L, R, O := SubOf(sub, nodes[c].left), SubOf(sub, nodes[c].right), Owed(nodes, sub, s);
    assert Owed(nodes, sub, t) == [c] + R + O;
    assert (L + [c] + R) + O == L + ([c] + R + O);
  }

  /** Popping the top entry: it is owed first, then its right subtree, then the rest. */
  lemma {:induction false} PopTop(nodes: seq<Node>, root: Ptr, sub: Subs, s: seq<nat>)
    requires Wf(nodes, root, sub) && NoNull(nodes, sub) && AllLive(nodes, sub, s) && s != []
    ensures var top := s[|s| - 1];
      var rt := nodes[top].right;
      DataAt(nodes, top).Some? && AllLive(nodes, sub, s[..|s| - 1]) &&
      (rt.Ref? ==> rt.i in sub) &&
      Owed(nodes, sub, s) == [top] + (SubOf(sub, rt) + Owed(nodes, sub, s[..|s| - 1]))
  {
    Links(nodes, root, sub, s[|s| - 1]);
  }

  /**
   * The nodes returned so far, then the subtree at `cur`, then what the
   * stack owes, make up the tree's in-order list.
   */
  ghost predicate Accounts(nodes: seq<Node>, root: Ptr, sub: Subs, produced: seq<nat>, cur: Ptr, s: seq<nat>) {
    AllLive(nodes, sub, s) && (cur.Ref? ==> cur.i in sub) &&
    produced + (SubOf(sub, cur) + Owed(nodes, sub, s)) == Order(root, sub)
  }

  /** Returning the top of the stack and moving to its right child keeps the account. */
  lemma PopAccounts(nodes: seq<Node>, root: Ptr, sub: Subs, produced: seq<nat>, s: seq<nat>)
    requires Wf(nodes, root, sub) && NoNull(nodes, sub) && s != []
    requires Accounts(nodes, root, sub, produced, Null, s)
    ensures var top := s[|s| - 1];
      top < |nodes| && nodes[top].data.Some? && Owed(nodes, sub, s)[0] == top &&
      Accounts(nodes, root, sub, produced + [top], nodes[top].right, s[..|s| - 1])
  {
    PopTop(nodes, root, sub, s);
    var top := s[|s| - 1];
    var rest := SubOf(sub, nodes[top].right) + Owed(nodes, sub, s[..|s| - 1]);
    assert produced + ([top] + rest) == (produced + [top]) + rest;
  }

  class TreeIterator {
    /** The tree the iterator was created by; it does not change while iterating. */
    const tree: RedBlackTree
    /** The Java Stack, top at the end; None is the stack before the first next(). */
    var stack: Option<seq<nat>>
    var current: Ptr
    /** The nodes returned so far. */
    ghost var produced: seq<nat>

    /** The entries of the stack (none before the first next()). */
    function StackEntries(): seq<nat>
      reads this
    {
      if stack.Some? then stack.value else []
    }

    /** Everything the stack holds is a live node of the tree. */
    ghost predicate StackLive()
      reads this, tree
    {
      AllLive(tree.nodes, tree.sub, StackEntries())
    }

    /** The nodes still to be returned, in the order next() returns them. */
    ghost function Remaining(): seq<nat>
      reads this, tree
      requires StackLive()
    {
      SubOf(tree.sub, current) + Owed(tree.nodes, tree.sub, StackEntries())
    }

    /**
     * The tree is valid, the iterator points into it, and what it has
     * returned followed by what it still owes is the tree's in-order list.
     */
    ghost predicate Valid()
      reads this, tree
    {
      tree.Valid() &&
      (stack.None? ==> current == tree.root && produced == []) &&
      Accounts(tree.nodes, tree.root, tree.sub, produced, current, StackEntries())
    }

    /** iterator(): a fresh iterator, with a null stack and `current` at the root. */
    constructor (t: RedBlackTree)
      requires t.Valid()
      ensures tree == t && stack.None? && current == t.root
      ensures Valid() && produced == [] && Remaining() == Order(t.root, t.sub)
    {
      tree := t;
      stack := None;
      current := t.root;
      produced := [];
    }

    /** A node owed below `current` or on the stack makes the remaining list non-empty. */
    lemma RemainingEmpty()
      requires Valid()
      ensures Remaining() == [] <==> current.Null? && StackEntries() == []
    {
      if current.Ref? {
        ListAt(tree.nodes, tree.root, tree.sub, current.i);
      }
    }

    /** hasNext: false exactly when nothing remains to be returned. */
    function HasNext(): (r: bool)
      reads this, tree
      requires Valid()
      ensures r <==> Remaining() != []
    {
      RemainingEmpty();
      !(current.Null? && (stack.None? || stack.value == []))
    }

    /**
     * next: the element of the first remaining node, which then counts as
     * returned; NoSuchElementException when nothing remains.
     */
    method Next() returns (r: Result<Song>)
      requires Valid()
      modifies this
      ensures Valid()
      ensures old(Remaining()) == [] ==> r == Err(NoSuchElement) && produced == old(produced)
      ensures old(Remaining()) != [] ==>
        produced == old(produced) + [old(Remaining())[0]] && r.Ok? &&
        DataAt(tree.nodes, old(Remaining())[0]) == Some(r.value)
    {
      ghost var rem := Remaining();
      ghost var nodes, sub := tree.nodes, tree.sub;
      var s := StackEntries();
      var cur := if stack.None? then tree.root else current;
      while cur.Ref?
        invariant Accounts(nodes, tree.root, sub, produced, cur, s)
        invariant SubOf(sub, cur) + Owed(nodes, sub, s) == rem
        invariant unchanged(this)
        decreases |SubOf(sub, cur)|
      {
        PushLeft(nodes, tree.root, sub, s, cur.i);
        s, cur := s + [cur.i], tree.nodes[cur.i].left;
      }
      if s != [] {
        PopAccounts(nodes, tree.root, sub, produced, s);
        var processedNode := s[|s| - 1];
        stack, current := Some(s[..|s| - 1]), tree.nodes[processedNode].right;
        produced := produced + [processedNode];
        r := Ok(tree.nodes[processedNode].data.value);
      } else {
        stack, current := Some(s), cur;
        r := Err(NoSuchElement);
      }
    }

    /**
     * Once hasNext is false, the iterator has returned the tree's elements
     * in ascending order, each one once.
     */
    lemma Exhausted()
      requires Valid() && !HasNext()
      ensures DataSeq(tree.nodes, produced) == tree.Elements()
      ensures Sorted(DataSeq(tree.nodes, produced))
      ensures |produced| == |tree.sub.Keys|
    {
      tree.ElementsSorted();
    }
  }
}
