# SongPlaylist red-black tree, modelled in Dafny

SongPlaylist keeps a catalogue of songs in a red-black tree keyed by song
title. A small backend puts an optional author filter on top of the tree and
answers two queries: an exact-title lookup and a linear scan by release year.
This project models, and proves properties of:

- the tree (`RedBlackTree.java`): insert with its fix-up, rotations, size,
  contains, search, the in-order iterator, the in-order rendering, and remove
  with successor substitution and its fix-up;
- the record (`Song.java`) whose `compareTo` orders the tree by title;
- the backend (`SongPlayerBackend.java`).

## Representation

- **Arena.** The tree is the class `RedBlackTrees.RedBlackTree`. Its nodes
  live in an arena `nodes: seq<Node>`. A node holds its element
  (`Option<Song>`: `None` is the placeholder remove links in), its parent, its
  left and right children (`Ptr = Null | Ref(i)`) and `blackHeight`, where 0
  is red and 1 is black.
- **Fields.** The fields `root` and `size` are those of the Java class.
- **Ghost map.** A ghost map `sub` gives every live node the in-order list of
  its subtree, and its domain is the set of live nodes. Well-formedness is
  checked node by node: links agree both ways, each list is the left list,
  the node and the right list, and each node is ordered against its
  subtrees.
- **Elements.** `Elements()` is the in-order element sequence, and every
  property is stated through it.
- **Methods and pure code.** Methods that update node fields reassign
  `nodes`, `root` and `size`. Read-only recursion (`containsHelper`,
  `searchHelper`, `toInOrderStringHelper`) is written as functions.
- **Java exceptions** are `Result` values: `Err(NullPointer)`,
  `Err(IllegalArgument)`, `Err(IllegalState)` and `Err(NoSuchElement)`.
  A null Java argument is `None`.
- **Song** is a datatype. `String.compareTo` is modelled on characters: the
  difference of the first differing characters, otherwise the difference of
  the lengths. A Dafny `char` is a Unicode scalar value where a Java `char`
  is a UTF-16 code unit, so the two agree on text inside the Basic
  Multilingual Plane (see "Left out").
- **Backend.** The backend class holds the tree as its ascending sequence of
  songs, and holds the filter as `Option<string>`.

## Where the code differs from a textbook red-black tree

The model follows the code in every one of these places. It departs from the
code at one line only: at RedBlackTree.java:631 the remove chain runs the
corrected rotation, and the rotation as written is modelled beside it (see
"Findings").

- **Insert into an empty tree** leaves the new root red. Only an insert into
  a non-empty tree colours the root black.
- **`rotate` on two nodes that are not parent and child** throws
  IllegalArgumentException. It is not an assertion.
- **Removing from an empty tree** throws IllegalArgumentException.
- **The single-leaf shortcut in `remove` compares references.** The
  `sameObject` parameter of `Remove` says whether the argument is the object
  stored at the root.
  - When it is not, `removeHelper` empties the tree and then colours a null
    root at line 512. That is a NullPointerException, and `size` is not
    decremented.
- **The delete fix-up** runs even when the node that moved up is red. It
  treats null nephews as non-black, and it dereferences nephews and siblings
  that can be null. Each such dereference is an `Err(NullPointer)` in the
  model, and the tree stays well formed.
- **On a red-black tree none of those dereferences fails.** When a black
  node leaves, the subtree that takes its place is one black node short and
  the colour rules hold everywhere else. Under that invariant the sibling
  exists, and a black nephew always has a partner. So removing a present
  title succeeds, except for a lone element that is not the same object.
- **Remove does not restore the red-black colour rules.** After a removal
  the model claims a valid binary search tree with a black root, not the
  equal black counts.

## Model

| member | source | states |
|---|---|---|
| Songs.NewSong | Song.java:6-10 | the getters of the new song return the title, artist and year passed in, whatever the order of the constructor's arguments |
| Songs.Song.SetTitle | Song.java:60-62 | getTitle of the result returns the new title; getReleaseYear and getArtist return what they returned before |
| Songs.Song.SetReleaseYear | Song.java:70-72 | getReleaseYear of the result returns the new year; getTitle and getArtist return what they returned before |
| Songs.Song.SetArtist | Song.java:80-82 | getArtist of the result returns the new artist; getTitle and getReleaseYear return what they returned before |
| Songs.ToStringIsKey | Song.java:85-87 | two songs render alike exactly when compareTo finds them equal, and a new song renders as the title it was given |
| Songs.CompareToReadsTitlesOnly | Song.java:40-42 | songs with equal titles compare alike, whatever their artist and year |
| Songs.CompareToProperties | Song.java:40-42 | Song.compareTo (Songs.Song.CompareTo) is zero iff the titles are equal, and swapping the operands negates it |
| Songs.BeforeIsStrictTotalOrder | Song.java:40-42 | "compares below" is irreflexive, asymmetric, transitive and total on titles |
| JavaStrings.CompareToSpec | Song.java:41 | String.compareTo returns the difference of the characters at the first index where the strings differ, or the difference of the lengths when one is a prefix of the other |
| JavaStrings.CompareToZeroIff | Song.java:41 | String.compareTo is zero exactly on equal strings |
| JavaStrings.CompareToAntisymmetric | Song.java:41 | String.compareTo(a, b) is minus String.compareTo(b, a) |
| JavaStrings.LessTransitive | Song.java:41 | a negative compareTo is transitive |
| JavaStrings.LessAsymmetric | Song.java:41 | a negative compareTo is irreflexive and asymmetric |
| JavaStrings.LessTotal | Song.java:41 | of two different strings one compares below the other |
| JavaStrings.Trim | SongPlayerBackend.java:83 | String.trim: the slice left once spaces and control characters are dropped from both ends, which neither starts nor ends with one |
| JavaStrings.Contains | SongPlayerBackend.java:85 | String.contains: true iff the string occurs at some position |
| JavaStrings.IntToStringSpec | RedBlackTree.java:361 | Integer.toString: a minus sign exactly for a negative value, then decimal digits, and reading the text back gives the value |
| JavaStrings.NatToString | RedBlackTree.java:361 | the decimal digits of a natural number: at least one, and no leading zero unless the number is zero |
| JavaStrings.NatToStringValue | RedBlackTree.java:361 | the digits of a natural number read back as that number |
| RedBlackTrees.IsLeftChild | RedBlackTree.java:26-28 | true only for a node with a parent |
| RedBlackTrees.IsLeftChildCases | RedBlackTree.java:26-28 | in a well-formed tree, a live node is not a left child iff it is the root or a right child |
| RedBlackTrees.RedBlackTree.constructor | RedBlackTree.java:31-32 | the new tree is empty, valid, red-black, and has size 0 |
| RedBlackTrees.RedBlackTree.ElementsSorted | RedBlackTree.java:75-101 | the elements of a valid tree are present, strictly ascending by title, and one per live node |
| RedBlackTrees.LeftRelink | RedBlackTree.java:226-243 | the field assignments of leftRotation make the right child take the parent's place, with the parent as its left child |
| RedBlackTrees.RightRelink | RedBlackTree.java:252-270 | the field assignments of rightRotation make the left child take the parent's place, with the parent as its right child |
| RedBlackTrees.RotationKeepsValid | RedBlackTree.java:212-274 | a rotation keeps the tree well formed, keeps its live nodes and its element sequence, and the child now spans what the parent spanned |
| RedBlackTrees.RedBlackTree.LeftRotation | RedBlackTree.java:226-247 | is a rotation of the child up over the parent; keeps validity, nodes, elements and size |
| RedBlackTrees.RedBlackTree.RightRotation | RedBlackTree.java:252-274 | is a rotation of the child up over the parent; keeps validity, nodes, elements and size |
| RedBlackTrees.RedBlackTree.Rotate | RedBlackTree.java:212-221 | IllegalArgument iff the two are not parent and child, with nothing changed; otherwise a rotation that reseats the root when needed; elements kept either way |
| RedBlackTrees.RedBlackTree.HandleCase3 | RedBlackTree.java:192-196 | grandparent red, parent and uncle black, nothing else changes |
| RedBlackTrees.RedBlackTree.HandleCase1 | RedBlackTree.java:157-164 | the node rotates over the parent, turns black, and the parent turns red; in the case-1 situation the tree is red-black afterwards |
| RedBlackTrees.RedBlackTree.HandleCase2 | RedBlackTree.java:176-182 | the node ends in the grandparent's place with the same elements; in the case-2 situation the tree is red-black afterwards |
| RedBlackTrees.Case1Done | RedBlackTree.java:131-137 | after case 1 the fix-up may go on from the node's new position |
| RedBlackTrees.Case2Done | RedBlackTree.java:139-141 | after case 2 the fix-up may go on from the node's new position |
| RedBlackTrees.Case3Done | RedBlackTree.java:143-145 | after case 3 the only red-red pair left is at the grandparent, with its black count one higher |
| RedBlackTrees.RedBlackTree.PropertiesHelper | RedBlackTree.java:123-147 | keeps validity and elements; repairs the only red-red pair, or moves it up to the grandparent, keeping black counts equal |
| RedBlackTrees.RedBlackTree.RepairRedPair | RedBlackTree.java:123-147 | the case analysis on the uncle's colour and the four shapes: keeps validity and elements; repairs the only red-red pair at the node or moves it up, keeping black counts equal |
| RedBlackTrees.RedBlackTree.CheckRedPair | RedBlackTree.java:108-116 | keeps validity and elements; a red node under a red parent is repaired, and either way the red-red pair may now sit only at the parent |
| RedBlackTrees.FixPreAtRoot | RedBlackTree.java:108-116 | a red-red pair whose upper node is the root only leaves pairs right below the root |
| RedBlackTrees.RedBlackTree.EnforceRBTreePropertiesAfterInsert | RedBlackTree.java:108-116 | keeps validity and elements; after a new red leaf, black counts are equal and red-red pairs occur only right below the root |
| RedBlackTrees.SingletonValid | RedBlackTree.java:49-53 | a single red node is a valid red-black tree |
| RedBlackTrees.LinkKeepsValid | RedBlackTree.java:82-97 | linking a red leaf in the slot the descent found keeps the tree valid, inserts the element in order, and leaves one red-red pair at most, at the leaf |
| RedBlackTrees.InsertedTitleNew | RedBlackTree.java:76-80 | an element can be placed into a strictly ascending sequence only if no element has its title; the multiset gains exactly it |
| RedBlackTrees.InsertDone | RedBlackTree.java:61 | colouring the root black after the fix-up keeps the tree valid and makes it red-black |
| RedBlackTrees.RedBlackTree.LinkLeaf | RedBlackTree.java:82-97 | a new red node holding the element becomes a child of the subtree's node; the elements gain it at one position |
| RedBlackTrees.RedBlackTree.InsertHelper | RedBlackTree.java:75-101 | on an equal title nothing changes and the title is present; otherwise one new node, the elements gain the new one in order, and red-black balance is repaired up to the root |
| RedBlackTrees.RedBlackTree.InsertBelowRoot | RedBlackTree.java:54-63 | IllegalArgument iff the title is present, with nothing changed; otherwise size and node count grow by one, the elements gain exactly the song, the root is black, and a red-black tree stays red-black |
| RedBlackTrees.InsertFinished | RedBlackTree.java:55-61 | after a link and repair, the new title was absent before, the elements gained exactly the new song, and colouring the root black keeps a well-formed tree that is red-black when the old one was |
| RedBlackTrees.RedBlackTree.FinishInsert | RedBlackTree.java:56-62 | size grows by one, the root turns black and true is returned; the tree is valid and red-black when it was before the insertion |
| RedBlackTrees.RedBlackTree.Insert | RedBlackTree.java:44-64 | None gives NullPointer; a present title gives IllegalArgument with nothing changed; otherwise true, size + 1, elements plus exactly the song, root red into an empty tree and black otherwise, red-black kept |
| RedBlackTrees.RedBlackTree.Size | RedBlackTree.java:281-283 | while the counter is in step, the number of elements |
| RedBlackTrees.RedBlackTree.IsEmpty | RedBlackTree.java:290-292 | true iff size is zero, which means no elements while the counter is in step |
| RedBlackTrees.RedBlackTree.ContainsHelper | RedBlackTree.java:314-331 | true iff the subtree holds an element with the same title |
| RedBlackTrees.RedBlackTree.Contains | RedBlackTree.java:300-305 | None gives NullPointer; otherwise true iff some element has the title (false on an empty tree) |
| RedBlackTrees.RedBlackTree.SearchHelper | RedBlackTree.java:436-444 | NoSuchElement at null; a null value fails with NullPointer at the first node; otherwise finds a node holding the title iff the subtree has it |
| RedBlackTrees.RedBlackTree.Search | RedBlackTree.java:431-434 | the stored element with the title iff one exists; NoSuchElement otherwise, including on an empty tree; None gives NullPointer on a non-empty tree |
| TreeIterators.TreeIterator.constructor | RedBlackTree.java:400-403 | a fresh iterator with nothing produced and every node still to come, in in-order sequence |
| TreeIterators.TreeIterator.HasNext | RedBlackTree.java:424-426 | true iff some element is still to come |
| TreeIterators.TreeIterator.Next | RedBlackTree.java:405-422 | returns the next element in in-order sequence and records it as produced; NoSuchElement when none is left |
| TreeIterators.TreeIterator.RemainingEmpty | RedBlackTree.java:424-426 | nothing is left iff `current` is null and the stack is empty |
| TreeIterators.TreeIterator.Exhausted | RedBlackTree.java:400-429 | once hasNext is false, the produced elements are exactly the tree's elements, ascending, each node once |
| TreeIterators.PushLeft | RedBlackTree.java:410-413 | pushing a node and going left keeps the stack made of live nodes and keeps what is owed |
| TreeIterators.PopTop | RedBlackTree.java:414-417 | the popped node is next in in-order sequence, followed by its right subtree |
| RedBlackTrees.RedBlackTree.ToInOrderStringHelper | RedBlackTree.java:356-364 | the prefix followed by "title-colour, " for each node of the subtree, in in-order sequence |
| Rendering.TrailingIsJoinPlusSeparator | RedBlackTree.java:349-351 | a non-empty list with ", " after every entry is the ", "-joined list plus one trailing ", " |
| RedBlackTrees.RedBlackTree.ToInOrderString | RedBlackTree.java:343-354 | "[ ", the entries of all nodes in in-order sequence joined by ", ", then " ]" |
| RedBlackTrees.Bracketed | RedBlackTree.java:343-354 | dropping the last two characters, only when the root is not null, turns "[ " plus the helper's output into "[ " and the ", "-joined entries |
| RedBlackTrees.RedBlackTree.MoveChild | RedBlackTree.java:517-531 | IllegalState iff the parent does not have that child, with nothing changed; otherwise the new child takes the slot, or becomes the root under a null parent, and points back to the parent |
| RedBlackTrees.RedBlackTree.GetSiblingNode | RedBlackTree.java:701-710 | NullPointer without a parent, IllegalState when the parent does not have the node as a child, otherwise the parent's other child |
| RedBlackTrees.RedBlackTree.SiblingFound | RedBlackTree.java:701-710 | in a well-formed tree getSiblingNode succeeds below the root |
| RedBlackTrees.RedBlackTree.Least | RedBlackTree.java:533-540 | the node without a left child that comes first in the subtree, holding its least element |
| RedBlackTrees.RedBlackTree.SpliceOut | RedBlackTree.java:544-552 | a node with one child gives its slot to that child; the node leaves the in-order list and nothing else changes in it |
| RedBlackTrees.RedBlackTree.PlaceOut | RedBlackTree.java:554-565 | a black leaf gives its slot to a new black placeholder that takes its place in the in-order list |
| RedBlackTrees.RedBlackTree.RemoveForAtleastOneChild | RedBlackTree.java:542-567 | the node's slot goes to its child, to null (red leaf) or to a new placeholder (black leaf); the in-order list loses the node, or has the placeholder in its place; the placeholder is the only node without an element; on a red-black tree a black node leaves the subtree in its place one black node short |
| RedBlackTrees.SuccessorSplit | RedBlackTree.java:488-496 | a node and its successor are adjacent in the in-order list, and each occurs once |
| RedBlackTrees.RedBlackTree.DetachDirect | RedBlackTree.java:481-486 | the node leaves the tree; once any placeholder is unlinked, the elements are the old ones minus exactly its element; on a red-black tree a black node leaves the subtree in its place one black node short |
| RedBlackTrees.RedBlackTree.DetachLeast | RedBlackTree.java:490-495 | the successor leaves the tree, and writing its element into the node keeps the elements ascending; on a red-black tree a black successor leaves the subtree in its place one black node short |
| RedBlackTrees.RedBlackTree.DetachSuccessor | RedBlackTree.java:488-496 | the node takes its successor's element and the successor leaves the tree; the elements are the old ones minus exactly the node's element; on a red-black tree a black successor leaves the subtree in its place one black node short |
| SuccessorRemoval.SuccessorRewrite | RedBlackTree.java:490-495 | taking out the successor and writing its element into the node drops exactly the node's old element from the sequence |
| RedBlackTrees.RedBlackTree.RotateLeft | RedBlackTree.java:671-684 | a rotation of the right child up over the node; keeps well-formedness, the in-order list, elements and size |
| RedBlackTrees.RedBlackTree.RightRotationAt | RedBlackTree.java:686-699 | a rotation of the left child up over the node; keeps well-formedness, the in-order list, elements and size |
| RedBlackTrees.RotateLinks | RedBlackTree.java:671-699 | the four link assignments before moveChild: the parent adopts the child's inner subtree and the child takes the parent as child |
| RedBlackTrees.RedBlackTree.FixRedSibling | RedBlackTree.java:658-669 | sibling black, parent red, then the sibling rotates up into the parent's place; the in-order list is kept |
| RedBlackTrees.RedBlackTree.SiblingForFixUp | RedBlackTree.java:575-580 | NullPointer when the sibling is null, with nothing changed; a sibling that is not red is returned with nothing changed; a red sibling turns black, the parent red, and the sibling rotates up over the parent (fixRedSibling) before the new sibling is returned; the in-order list is kept; when the subtree is one black node short it succeeds, stays short, and the sibling returned is black |
| RedBlackTrees.RedBlackTree.RecolourSiblingRed | RedBlackTree.java:582-590 | the sibling turns red; when the parent was red it turns black and the fix-up stops, otherwise the fix-up goes on at the parent |
| RedBlackTrees.RedBlackTree.RotateNephewUp | RedBlackTree.java:599-612 | the near nephew turns black, the sibling red, and the nephew rotates up to become the sibling |
| RedBlackTrees.RedBlackTree.PrepareBlackSibling | RedBlackTree.java:599-613 | far nephew not black: nothing changes; far nephew black and near nephew null: NullPointer with nothing changed; otherwise the near nephew rotates up |
| RedBlackTrees.RedBlackTree.RotateNearNephew | RedBlackTree.java:604-605 | the near nephew rotates up over the sibling and becomes the new sibling; well-formedness, the in-order list and elements are kept |
| RedBlackTrees.RedBlackTree.FixBlackSiblingLeft | RedBlackTree.java:617-636 | the left-side rotations with line 631 corrected; keep well-formedness, the in-order list, elements and size |
| RedBlackTrees.RedBlackTree.FixBlackSiblingLeftAsWritten | RedBlackTree.java:630-633 | the rotation at line 631 as written moves `node` itself up over its parent and leaves the sibling in place |
| FixUp.AsWrittenUnlinkEmptiesTree | RedBlackTree.java:631 | when the parent is the root, the rotation at line 631 makes the placeholder the parentless root, so the unlink at line 503 empties a tree of three or more nodes |
| SubtreeLoss.AsWrittenUnlinkDropsSubtree | RedBlackTree.java:631 | when the parent is not the root, the rotation at line 631 lifts the placeholder into the parent's slot above the parent's whole subtree, so the unlink at line 503 keeps the root and a well-formed tree but drops the parent, the sibling and both nephews from the in-order list |
| SubtreeLoss.CutWf | RedBlackTree.java:517-531 | moveChild(parent, x, null) on a node `x` with a parent keeps the root and a well-formed tree whose in-order list is the old one less exactly the nodes of x's subtree |
| RedBlackTrees.RedBlackTree.FixBlackSiblingRight | RedBlackTree.java:637-655 | the right-side rotations; keep well-formedness, the in-order list, elements and size |
| RedBlackTrees.RedBlackTree.RotateNearNephewTwice | RedBlackTree.java:623-627 | a sibling whose only child is the near nephew: the nephew rotates up, then over the parent; well-formedness, the in-order list, elements and size are kept |
| RedBlackTrees.RedBlackTree.FinishBlackSibling | RedBlackTree.java:615-655 | the sibling takes the parent's colour and the parent turns black before the rotations; the in-order list is kept |
| RedBlackTrees.RedBlackTree.FixBlackSiblingWithOneOrZeroChild | RedBlackTree.java:597-656 | NullPointer iff the far nephew is black and the near one is null, with nothing changed; otherwise the in-order list is kept |
| RedBlackTrees.RedBlackTree.EnforceRBTPropertiesAfterRemove | RedBlackTree.java:569-595 | fails only with NullPointer; keeps well-formedness, the live nodes, the in-order list, the elements and size; never fails when the subtree at the node is one black node short and the colour rules hold elsewhere |
| RemoveColours.SpliceShort | RedBlackTree.java:544-552 | splicing out a black node with one child on a red-black tree leaves the child's subtree one black node short, with the colour rules holding everywhere else |
| RemoveColours.PlaceShort | RedBlackTree.java:557-564 | replacing a black leaf by the placeholder leaves the placeholder one black node short, with the colour rules holding everywhere else |
| RemoveColours.ShortWithData | RedBlackTree.java:491 | writing the successor's element into a node keeps the deficit invariant |
| RemoveColours.SiblingPresent | RedBlackTree.java:575-579 | a short subtree below the root has a sibling, and it is not the placeholder |
| RemoveColours.NephewsPaired | RedBlackTree.java:582-612 | under a short subtree, if either nephew is black then both nephews exist |
| RemoveColours.RecolourShort | RedBlackTree.java:584-588 | a black sibling with black children turned red under a black parent makes the parent the short node, with the counts of all other nodes kept |
| RemoveColours.RecolourClimbs | RedBlackTree.java:584-588 | the same step with the counts left implicit: the parent becomes the short node |
| RemoveColours.RedSiblingShort | RedBlackTree.java:658-669 | the red-sibling rotation keeps the subtree short, with the sibling taking the parent's count, and gives it a black sibling |
| RemoveColours.RedSiblingStaysShort | RedBlackTree.java:577-579 | the same step with the counts left implicit |
| RedBlackTrees.RedBlackTree.RestoreAfterDetach | RedBlackTree.java:498-505 | on success the tree is valid again, with the placeholder unlinked and the in-order list the one the detach promised; a NullPointer keeps the tree well formed; it succeeds whenever the detached node was red or left a subtree one black node short |
| RedBlackTrees.RedBlackTree.DeleteNode | RedBlackTree.java:477-505 | on success the tree is valid and has lost exactly the element with that title and one node; a NullPointer keeps the tree well formed; on a red-black tree it succeeds |
| RedBlackTrees.RedBlackTree.RemoveHelper | RedBlackTree.java:473-515 | on success true, exactly the element with the key's title is gone, one node less, the root is black; a NullPointer keeps the tree well formed and size unchanged; on a red-black tree of more than one node it succeeds |
| RedBlackTrees.RedBlackTree.ColourRootBlack | RedBlackTree.java:512-513 | a null root gives NullPointer; otherwise the root turns black and true is returned, with the tree, its elements and size unchanged |
| RedBlackTrees.RedBlackTree.Remove | RedBlackTree.java:446-471 | None gives NullPointer; IllegalArgument iff the title is absent (including on an empty tree), with nothing changed; otherwise true, size − 1, exactly one element with that title gone, none with that title left and a black or null root; a lone element that is not the same object gives NullPointer, the same object gives true and an empty tree; a present title on a red-black tree of more than one node is always removed |
| RedBlackTrees.RedBlackTree.RemoveContained | RedBlackTree.java:456-470 | a present title: true with exactly that element gone, or NullPointer with the tree well formed; a lone element succeeds iff it is the same object; on a red-black tree of more than one node it succeeds |
| RedBlackTrees.RedBlackTree.OnlyRootIsLeaf | RedBlackTree.java:458 | a valid tree of one node has a root with no children |
| RedBlackTrees.RedBlackTree.LeafRootAlone | RedBlackTree.java:458-461 | a valid tree whose root has no children holds exactly the root's element |
| Backend.InsertByTitleAscending | SongPlayerBackend.java:21-24 | inserting a song with a new title into an ascending sequence keeps it ascending |
| Backend.RemoveByTitleGone | SongPlayerBackend.java:32-35 | removing a present title keeps the sequence ascending, drops exactly that song, and the title is gone |
| Backend.MatchingAscending | SongPlayerBackend.java:76-94 | the songs a year scan keeps are still ascending |
| Backend.Matching | SongPlayerBackend.java:80-92 | a song is kept iff it is stored, its year equals the trimmed year, and with a filter its artist contains the trimmed filter |
| Backend.SongPlayerBackend.constructor | SongPlayerBackend.java:11-13 | no songs and no filter |
| Backend.SongPlayerBackend.AddSong | SongPlayerBackend.java:21-24 | None gives NullPointer; a present title gives IllegalArgument; otherwise the song joins the ascending sequence; the filter is unchanged |
| Backend.SongPlayerBackend.RemoveSong | SongPlayerBackend.java:32-35 | None gives NullPointer; an absent title gives IllegalArgument; otherwise exactly the song with that title leaves and the title is gone |
| Backend.SongPlayerBackend.SetAuthorFilter | SongPlayerBackend.java:43-46 | getAuthorFilter then returns the value set; the songs are unchanged |
| Backend.SongPlayerBackend.ResetAuthorFilter | SongPlayerBackend.java:63-66 | getAuthorFilter then returns null; the songs are unchanged |
| Backend.SongPlayerBackend.SearchByYear | SongPlayerBackend.java:76-94 | exactly the matching songs in ascending order; a null year fails with NullPointer as soon as there is a song to compare with; nothing changes |
| Backend.SongPlayerBackend.SearchByName | SongPlayerBackend.java:104-115 | the stored song with that title iff one exists and, with a filter, its artist equals the filter exactly; otherwise NoSuchElement; a null title gives NoSuchElement on an empty catalogue and NullPointer on any other |

## Left out

- The Java `int` width of `size`: the counter is an unbounded integer, because a tree of 2^31 nodes is beyond what the program can hold.
- The `System.out.println` catch blocks in leftRotation and rightRotation (RedBlackTree.java:244-246, 271-273): they catch an exception that the rotations cannot throw.
- Exception message strings: only the kind of exception is modelled.
- `toLevelOrderString` and `toString` (RedBlackTree.java:376-397): the level-order rendering is not modelled.
- The iterator under concurrent mutation of the tree: the iterator's contract holds only while the tree is unchanged.
- The unused `Random` import.
- JavaStrings.CompareTo: compares Unicode scalar values, where Java compares UTF-16 code units; for text outside the Basic Multilingual Plane the sign can differ (Java puts "\uFFFF" after "\U00010000", whose first code unit is a surrogate below it). JavaStrings.Trim and JavaStrings.Contains work on scalar values for the same reason.
- Songs.Song: the title, release year and artist are never null. Java's constructor and setters accept null strings (Song.java:6-10, 60-82), and on such a song `compareTo` (Song.java:41) and the year scan's `equals` and `contains` (SongPlayerBackend.java:82-85) throw NullPointerException. The program builds its songs from XML text and console lines, which are never null, and its lookup key from the search word (an `Option<string>` in SearchByName) with a constant artist and year.
- Songs.Song.SetTitle: the setters return an updated value instead of assigning a field in place, so aliasing is not modelled (a stored song whose title is changed through another reference would break the tree's order in Java).
- RedBlackTrees.RedBlackTree.Remove: does not claim the red-black colour rules after a removal, only a valid search tree with a black root, because the fix-up's final colours are not specified. After a NullPointerException, which on a red-black tree happens only for a lone element that is not the same object, it promises a well-formed tree with the same `size`.
- RedBlackTrees.RedBlackTree.EnforceRBTPropertiesAfterRemove: states the invariants it keeps, not its final colours and links.
- RedBlackTrees.RedBlackTree.FixBlackSiblingLeft: states the invariants it keeps, not its final colours and links.
- RedBlackTrees.RedBlackTree.FixBlackSiblingRight: states the invariants it keeps, not its final colours and links.
- RedBlackTrees.RedBlackTree.FinishBlackSibling: states the invariants it keeps, not its final colours and links.
- RedBlackTrees.RedBlackTree.FixBlackSiblingWithOneOrZeroChild: states the invariants it keeps and its error condition, not its final colours and links.
- RedBlackTrees.RedBlackTree.RestoreAfterDetach: states the invariants it keeps, not its final colours.
- RedBlackTrees.RedBlackTree.Remove: runs the corrected rotation for RedBlackTree.java:631 (see "Findings"). As written, removing a left child whose black sibling has two children loses the parent's subtree, and when that parent is not the root the source still returns true and decrements `size`; this contract describes the corrected code, not that outcome.
- RedBlackTrees.RedBlackTree.RemoveHelper: runs the corrected rotation for RedBlackTree.java:631 (see "Findings"). As written, removing a left child whose black sibling has two children loses the parent's subtree, and when that parent is not the root the source still returns true and decrements `size`; this contract describes the corrected code, not that outcome.
- RedBlackTrees.RedBlackTree.DeleteNode: runs the corrected rotation for RedBlackTree.java:631 (see "Findings"). As written, removing a left child whose black sibling has two children loses the parent's subtree, and when that parent is not the root the source still returns true and decrements `size`; this contract describes the corrected code, not that outcome.
- RedBlackTrees.RedBlackTree.RestoreAfterDetach: runs the corrected rotation for RedBlackTree.java:631 (see "Findings"). As written, removing a left child whose black sibling has two children loses the parent's subtree, and when that parent is not the root the source still returns true and decrements `size`; this contract describes the corrected code, not that outcome.
- RedBlackTrees.RedBlackTree.EnforceRBTPropertiesAfterRemove: runs the corrected rotation for RedBlackTree.java:631 (see "Findings"). As written, removing a left child whose black sibling has two children loses the parent's subtree, and when that parent is not the root the source still returns true and decrements `size`; this contract describes the corrected code, not that outcome.
- RedBlackTrees.RedBlackTree.FinishBlackSibling: runs the corrected rotation for RedBlackTree.java:631 (see "Findings"). As written, removing a left child whose black sibling has two children loses the parent's subtree, and when that parent is not the root the source still returns true and decrements `size`; this contract describes the corrected code, not that outcome.
- RedBlackTrees.RedBlackTree.FixBlackSiblingWithOneOrZeroChild: runs the corrected rotation for RedBlackTree.java:631 (see "Findings"). As written, removing a left child whose black sibling has two children loses the parent's subtree, and when that parent is not the root the source still returns true and decrements `size`; this contract describes the corrected code, not that outcome.
- RedBlackTrees.RedBlackTree.DetachSuccessor: takes the successor out before writing its element into the node, where the source writes the element first; the two steps touch different fields.
- Backend.SongPlayerBackend.RemoveSong: works on the ascending sequence, so it does not show the tree's NullPointerException paths of remove (the lone non-identical element, and the fix-up's null dereferences).
- Backend.SongPlayerBackend.GetAuthorFilter: has no contract of its own; the contracts of SetAuthorFilter and ResetAuthorFilter state what it returns.
- `BD_Song` (SongPlayerBackend.java:105) is modelled as a `Song`, because only its title matters to the lookup. `SortedCollectionInterface` is not part of this model; the backend uses the tree's operations as its ascending sequence.
- SongPlayerFrontend.java, SongPlayer.java, XMLReader.java and the interfaces ISong, ISongPlayerBackend, ISongPlayerFrontend and IXMLReader are not part of this model: they are console I/O, wiring, XML parsing through the JDK, and signatures.

## Findings

| source | as written | input that shows it | evidently intended | confidence | as-written member | corrected member |
|---|---|---|---|---|---|---|
| RedBlackTree.java:631 | `rightRotation(node.parent)`: for a left child `node` whose black sibling has two children, it rotates `node` itself up over its parent | insert 20, 10, 30, 25, 35, then remove 10: the placeholder for 10 becomes the root, the unlink at line 503 sets `root` to null, line 512 throws NullPointerException, and `size` stays 5 while 20, 25, 30 and 35 are lost. Insert 50, 20, 70, 10, 30, 60, 80, 25, 35, then remove 10: the placeholder for 10 takes 20's place under 50, the unlink drops 20, 25, 30 and 35, and remove returns true with `size` 8 while 4 elements are left | `rotateLeft(node.parent)`, the mirror of line 650, which keeps the tree and its elements | not executed | RedBlackTrees.RedBlackTree.FixBlackSiblingLeftAsWritten, FixUp.AsWrittenUnlinkEmptiesTree, SubtreeLoss.AsWrittenUnlinkDropsSubtree | RedBlackTrees.RedBlackTree.FixBlackSiblingLeft |
