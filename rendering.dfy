/**
 * The text toInOrderString produces: one entry "element-blackHeight" per
 * node in in-order sequence, separated by ", " and wrapped in "[ " and " ]".
 */
module Rendering {
  import opened Outcomes
  import opened Songs
  import opened Arena
  import JavaStrings

  /** The entry of node `j`: its element's toString, a dash and its blackHeight. */
  function Entry(nodes: seq<Node>, j: nat): string {
    if j < |nodes| && nodes[j].data.Some? then
      nodes[j].data.value.ToString() + "-" + JavaStrings.IntToString(nodes[j].blackHeight)
    else ""
  }

  /** The entries of the nodes of `s`, in order. */
  function Entries(nodes: seq<Node>, s: seq<nat>): (r: seq<string>)
    ensures |r| == |s| && forall k :: 0 <= k < |s| ==> r[k] == Entry(nodes, s[k])
  {
    seq(|s|, k requires 0 <= k < |s| => Entry(nodes, s[k]))
  }

  /** Every entry followed by ", ", as the helper appends them. */
  function Trailing(items: seq<string>): string {
    if items == [] then "" else items[0] + ", " + Trailing(items[1..])
  }

  /** The entries separated by ", ". */
  function Join(items: seq<string>): string {
    if items == [] then ""
    else if |items| == 1 then items[0]
    else items[0] + ", " + Join(items[1..])
  }

  /** Appending the entries of two lists one after the other. */
  lemma {:induction false} TrailingAppend(a: seq<string>, b: seq<string>)
    ensures Trailing(a + b) == Trailing(a) + Trailing(b)
  {
    if a != [] {
      assert (a + b)[0] == a[0] && (a + b)[1..] == a[1..] + b;
      TrailingAppend(a[1..], b);
    } else {
      assert a + b == b;
    }
  }

  /** With at least one entry, the trailing form is the joined form plus a final ", ". */
  lemma {:induction false} TrailingIsJoinPlusSeparator(items: seq<string>)
    requires items != []
    ensures Trailing(items) == Join(items) + ", "
  {
    if |items| > 1 {
      TrailingIsJoinPlusSeparator(items[1..]);
    } else {
      assert items[1..] == [];
    }
  }

  /** Dropping the final ", " of the bracketed trailing form leaves the bracketed joined form. */
  lemma CloseTrailing(items: seq<string>)
    requires items != []
    ensures var sb := "[ " + Trailing(items);
      |sb| >= 2 && sb[..|sb| - 2] + " ]" == "[ " + Join(items) + " ]"
  {
    TrailingIsJoinPlusSeparator(items);
    var sb := "[ " + Trailing(items);
    assert sb == ("[ " + Join(items)) + ", ";
    assert sb[..|sb| - 2] == "[ " + Join(items);
  }

  /** The entries of an in-order list split like the list does. */
  lemma EntriesSplit(nodes: seq<Node>, L: seq<nat>, i: nat, R: seq<nat>)
    ensures Trailing(Entries(nodes, L + [i] + R)) ==
      Trailing(Entries(nodes, L)) + (Entry(nodes, i) + ", ") + Trailing(Entries(nodes, R))
  {
    var E := Entries(nodes, L + [i] + R);
    assert E == Entries(nodes, L) + [Entry(nodes, i)] + Entries(nodes, R);
    TrailingAppend(Entries(nodes, L) + [Entry(nodes, i)], Entries(nodes, R));
    TrailingAppend(Entries(nodes, L), [Entry(nodes, i)]);
    assert Trailing([Entry(nodes, i)]) == Entry(nodes, i) + ", ";
  }

  /** One step of the helper: what comes before, the left part, the node's entry `e`, the right part. */
  lemma HelperStep(nodes: seq<Node>, str: string, L: seq<nat>, i: nat, R: seq<nat>, e: string)
    requires e == Entry(nodes, i)
    ensures (str + Trailing(Entries(nodes, L)) + (e + ", ")) + Trailing(Entries(nodes, R))
      == str + Trailing(Entries(nodes, L + [i] + R))
  {
    EntriesSplit(nodes, L, i, R);
    AppendThree(str, Trailing(Entries(nodes, L)), e + ", ", Trailing(Entries(nodes, R)), Trailing(Entries(nodes, L + [i] + R)));
  }

  /** Appending three parts one by one appends their concatenation. */
  lemma AppendThree(str: string, a: string, b: string, c: string, t: string)
    requires t == a + b + c
    ensures (str + a + b) + c == str + t
  {
    assert (str + a + b) + c == str + (a + b + c);
  }
}
