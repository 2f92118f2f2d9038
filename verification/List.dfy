/** The kernel's intrusive doubly linked list. */
module List {

  class ListNode {
    var prev: ListNode?
    var next: ListNode?

    constructor ()
      ensures prev == null && next == null
    {
      prev, next := null, null;
    }
  }

  // ---------------------------------------------------------------------
  // Chains
  // ---------------------------------------------------------------------

  ghost function At(list: seq<ListNode>, i: int): ListNode? {
    if 0 <= i < |list| then list[i] else null
  }

  ghost predicate Distinct(list: seq<ListNode>) {
    forall i, j :: 0 <= i < j < |list| ==> list[i] != list[j]
  }

  /** A node's neighbours are those of its place. */
  ghost predicate Placed(list: seq<ListNode>, i: nat)
    requires i < |list|
    reads list[i]
  {
    list[i].prev == At(list, i - 1) && list[i].next == At(list, i + 1)
  }

  /** The nodes form one chain, in this order: no node twice, and both directions agree. */
  ghost predicate IsList(list: seq<ListNode>)
    reads list
  {
    Distinct(list) && forall i {:trigger Placed(list, i)} :: 0 <= i < |list| ==> Placed(list, i)
  }

  ghost function Inserted(list: seq<ListNode>, i: nat, node: ListNode): (r: seq<ListNode>)
    requires i <= |list|
    ensures |r| == |list| + 1
  {
    list[..i] + [node] + list[i..]
  }

  ghost function Deleted(list: seq<ListNode>, i: nat): (r: seq<ListNode>)
    requires i < |list|
    ensures |r| == |list| - 1
  {
    list[..i] + list[i + 1..]
  }

  lemma InsertedAt(list: seq<ListNode>, i: nat, node: ListNode, k: int)
    requires i <= |list|
    ensures At(Inserted(list, i, node), k) == if k < i then At(list, k) else if k == i then node else At(list, k - 1)
  { }

  lemma DeletedAt(list: seq<ListNode>, i: nat, k: int)
    requires i < |list|
    ensures At(Deleted(list, i), k) == if k < i then At(list, k) else At(list, k + 1)
  { }

  lemma InsertedDistinct(list: seq<ListNode>, i: nat, node: ListNode)
    requires Distinct(list) && i <= |list| && node !in list
    ensures Distinct(Inserted(list, i, node))
  { }

  lemma DeletedDistinct(list: seq<ListNode>, i: nat)
    requires Distinct(list) && i < |list|
    ensures Distinct(Deleted(list, i))
  { }

  /** Taking out what was put in gives the list back. */
  lemma InsertedDeleted(list: seq<ListNode>, i: nat, node: ListNode)
    requires i <= |list|
    ensures Deleted(Inserted(list, i, node), i) == list
  { }

  /** Two lists without a common node. */
  ghost predicate Apart(a: seq<ListNode>, b: seq<ListNode>) {
    forall n :: n in a ==> n !in b
  }

  /** Putting back what was taken out, too. */
  lemma DeletedInserted(list: seq<ListNode>, i: nat)
    requires Distinct(list) && i < |list|
    ensures Inserted(Deleted(list, i), i, list[i]) == list && list[i] !in Deleted(list, i)
  { }

  // ---------------------------------------------------------------------
  // Inserting and removing
  // ---------------------------------------------------------------------

  /** A list that shares no node with what is changed stays a list. */
  twostate lemma OthersKeep(other: seq<ListNode>)
    requires old(IsList(other)) && forall n :: n in other ==> unchanged(n)
    ensures IsList(other)
  {
    forall k | 0 <= k < |other|
      ensures Placed(other, k)
    {
      assert old(Placed(other, k)) && other[k] in other;
    }
  }

  /** A node that is not in the list goes to place `i`, between the neighbours it is linked to. */
  twostate lemma InsertedIsList(list: seq<ListNode>, new i: nat, new node: ListNode)
    requires old(IsList(list)) && i <= |list| && node !in list
    requires node.prev == At(list, i - 1) && node.next == At(list, i)
    requires forall k :: 0 <= k < |list| ==>
               list[k].prev == (if k == i then node else old(list[k].prev)) &&
               list[k].next == (if k == i - 1 then node else old(list[k].next))
    ensures IsList(Inserted(list, i, node))
  {
    var r := Inserted(list, i, node);
    InsertedDistinct(list, i, node);
    forall k: nat | k < |r|
      ensures Placed(r, k)
    {
      InsertedAt(list, i, node, k - 1);
      InsertedAt(list, i, node, k);
      InsertedAt(list, i, node, k + 1);
      if k < i {
        assert old(Placed(list, k));
      } else if k > i {
        assert old(Placed(list, k - 1));
      }
    }
  }

  method ListInsertAfter(pos: ListNode, node: ListNode, ghost list: seq<ListNode>, ghost i: nat)
    requires IsList(list) && i < |list| && list[i] == pos && node !in list
    modifies pos, node, pos.next
    ensures IsList(Inserted(list, i + 1, node))
    ensures forall other: seq<ListNode> ::
              old(allocated(other)) && old(IsList(other)) && Apart(other, list + [node]) ==> IsList(other)
  {
    assert Placed(list, i);
    node.next := pos.next;
    node.prev := pos;
    if pos.next != null {
      pos.next.prev := node;
    }
    pos.next := node;
    InsertedIsList(list, i + 1, node);
    forall other: seq<ListNode> | old(allocated(other)) && old(IsList(other)) && Apart(other, list + [node])
      ensures IsList(other)
    {
      OthersKeep(other);
    }
  }

  method ListInsertBefore(pos: ListNode, node: ListNode, ghost list: seq<ListNode>, ghost i: nat)
    requires IsList(list) && i < |list| && list[i] == pos && node !in list
    modifies pos, node, pos.prev
    ensures IsList(Inserted(list, i, node))
    ensures forall other: seq<ListNode> ::
              old(allocated(other)) && old(IsList(other)) && Apart(other, list + [node]) ==> IsList(other)
  {
    assert Placed(list, i);
    node.prev := pos.prev;
    node.next := pos;
    if pos.prev != null {
      pos.prev.next := node;
    }
    pos.prev := node;
    InsertedIsList(list, i, node);
    forall other: seq<ListNode> | old(allocated(other)) && old(IsList(other)) && Apart(other, list + [node])
      ensures IsList(other)
    {
      OthersKeep(other);
    }
  }

  /** The neighbours of place `i` are linked to each other, and the rest is as before. */
  twostate lemma DeletedIsList(list: seq<ListNode>, new i: nat)
    requires old(IsList(list)) && i < |list|
    requires forall k :: 0 <= k < |list| && k != i ==>
               list[k].prev == (if k == i + 1 then At(list, i - 1) else old(list[k].prev)) &&
               list[k].next == (if k == i - 1 then At(list, i + 1) else old(list[k].next))
    ensures IsList(Deleted(list, i))
  {
    var r := Deleted(list, i);
    DeletedDistinct(list, i);
    forall k: nat | k < |r|
      ensures Placed(r, k)
    {
      DeletedAt(list, i, k - 1);
      DeletedAt(list, i, k);
      DeletedAt(list, i, k + 1);
      assert old(Placed(list, if k < i then k else k + 1));
    }
  }

  /** The node is alone afterwards, and the others close the gap. */
  method ListRemove(node: ListNode, ghost list: seq<ListNode>, ghost i: nat)
    requires IsList(list) && i < |list| && list[i] == node
    modifies node, node.prev, node.next
    ensures IsList(Deleted(list, i)) && node.prev == null && node.next == null
    ensures forall other: seq<ListNode> ::
              old(allocated(other)) && old(IsList(other)) && Apart(other, list) ==> IsList(other)
  {
    assert Placed(list, i);
    if node.prev != null {
      node.prev.next := node.next;
    }
    if node.next != null {
      node.next.prev := node.prev;
    }
    node.prev, node.next := null, null;
    DeletedIsList(list, i);
    forall other: seq<ListNode> | old(allocated(other)) && old(IsList(other)) && Apart(other, list)
      ensures IsList(other)
    {
      OthersKeep(other);
    }
  }

  // ---------------------------------------------------------------------
  // Ends
  // ---------------------------------------------------------------------

  method Front(node: ListNode, ghost list: seq<ListNode>, ghost i: nat) returns (front: ListNode)
    requires IsList(list) && i < |list| && list[i] == node
    ensures front == list[0]
  {
    front := node;
    ghost var k: nat := i;
    assert Placed(list, k);
    while front.prev != null
      invariant k < |list| && front == list[k] && Placed(list, k)
      decreases k
    {
      front := front.prev;
      k := k - 1;
      assert Placed(list, k);
    }
  }

  method Back(node: ListNode, ghost list: seq<ListNode>, ghost i: nat) returns (back: ListNode)
    requires IsList(list) && i < |list| && list[i] == node
    ensures back == list[|list| - 1]
  {
    back := node;
    ghost var k: nat := i;
    assert Placed(list, k);
    while back.next != null
      invariant k < |list| && back == list[k] && Placed(list, k)
      decreases |list| - k
    {
      back := back.next;
      k := k + 1;
      assert Placed(list, k);
    }
  }

  // ---------------------------------------------------------------------
  // There and back again
  // ---------------------------------------------------------------------

  /** The order of a list determines all its links. */
  twostate lemma SameLinks(list: seq<ListNode>)
    requires old(IsList(list)) && IsList(list)
    ensures forall n :: n in list ==> n.prev == old(n.prev) && n.next == old(n.next)
  {
    forall n | n in list
      ensures n.prev == old(n.prev) && n.next == old(n.next)
    {
      var k :| 0 <= k < |list| && list[k] == n;
      assert Placed(list, k) && old(Placed(list, k));
    }
  }

  lemma InsertedPlace(list: seq<ListNode>, i: nat, node: ListNode)
    requires i <= |list| && IsList(Inserted(list, i, node))
    ensures node.prev == At(list, i - 1) && node.next == At(list, i) && Inserted(list, i, node)[i] == node
  {
    InsertedAt(list, i, node, i - 1);
    InsertedAt(list, i, node, i + 1);
    assert Placed(Inserted(list, i, node), i);
  }

  method TakeOut(node: ListNode, ghost list: seq<ListNode>, ghost i: nat)
    requires i <= |list| && IsList(Inserted(list, i, node))
    modifies list, node
    ensures IsList(list)
  {
    InsertedPlace(list, i, node);
    InsertedDeleted(list, i, node);
    ListRemove(node, Inserted(list, i, node), i);
  }

  /** Inserting a node and removing it leaves every link of the list as it was. */
  method InsertAfterAndRemove(pos: ListNode, node: ListNode, ghost list: seq<ListNode>, ghost i: nat)
    requires IsList(list) && i < |list| && list[i] == pos && node !in list
    modifies list, node
    ensures IsList(list)
    ensures forall n :: n in list ==> n.prev == old(n.prev) && n.next == old(n.next)
  {
    assert Placed(list, i);
    ListInsertAfter(pos, node, list, i);
    TakeOut(node, list, i + 1);
    SameLinks(list);
  }

  method InsertBeforeAndRemove(pos: ListNode, node: ListNode, ghost list: seq<ListNode>, ghost i: nat)
    requires IsList(list) && i < |list| && list[i] == pos && node !in list
    modifies list, node
    ensures IsList(list)
    ensures forall n :: n in list ==> n.prev == old(n.prev) && n.next == old(n.next)
  {
    assert Placed(list, i);
    ListInsertBefore(pos, node, list, i);
    TakeOut(node, list, i);
    SameLinks(list);
  }

  /** Removing a node and inserting it after the one it followed leaves every link as it was. */
  method RemoveAndInsert(node: ListNode, ghost list: seq<ListNode>, ghost i: nat)
    requires IsList(list) && 0 < i < |list| && list[i] == node
    modifies list
    ensures IsList(list)
    ensures forall n :: n in list ==> n.prev == old(n.prev) && n.next == old(n.next)
  {
    assert Placed(list, i);
    var pos := node.prev;
    ghost var rest := Deleted(list, i);
    ListRemove(node, list, i);
    DeletedInserted(list, i);
    assert rest[i - 1] == pos && Placed(rest, i - 1);
    ListInsertAfter(pos, node, rest, i - 1);
    SameLinks(list);
  }
}
