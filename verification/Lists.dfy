/**
 The intrusive circular doubly linked list of include/yios/list.h. A pointer
 is the address of a list_head; the two fields of every list_head live in the
 maps next and prev, which the operations rewrite in place.
 */
module Lists {

  type Links = map<nat, nat>

  /** Position i of the circle that starts at the head and comes back to it. */
  function At(head: nat, nodes: seq<nat>, i: nat): nat
    requires i <= |nodes| + 1
  {
    if i == 0 || i == |nodes| + 1 then head else nodes[i - 1]
  }

  /** next and prev agree on the step from a to b. */
  predicate Linked(next: Links, prev: Links, a: nat, b: nat) {
    a in next && next[a] == b && b in prev && prev[b] == a
  }

  /** The i-th element occurs only there. */
  ghost predicate Once(s: seq<nat>, i: nat)
    requires i < |s|
  {
    forall j :: 0 <= j < |s| && s[j] == s[i] ==> j == i
  }

  ghost predicate NoRepeat(s: seq<nat>) {
    forall i {:trigger Once(s, i)} :: 0 <= i < |s| ==> Once(s, i)
  }

  /** The step from position i of the circle to the next. */
  ghost predicate LinkedAt(next: Links, prev: Links, head: nat, nodes: seq<nat>, i: nat)
    requires i <= |nodes|
  {
    Linked(next, prev, At(head, nodes, i), At(head, nodes, i + 1))
  }

  /** A well-formed ring: no repetition, and every step of the circle is linked both ways. */
  ghost predicate Ring(next: Links, prev: Links, head: nat, nodes: seq<nat>) {
    && head !in nodes && NoRepeat(nodes)
    && forall i {:trigger LinkedAt(next, prev, head, nodes, i)} ::
         0 <= i <= |nodes| ==> LinkedAt(next, prev, head, nodes, i)
  }

  lemma InRing(head: nat, nodes: seq<nat>, i: nat)
    requires i <= |nodes| + 1
    ensures At(head, nodes, i) == head || At(head, nodes, i) in nodes
  {
  }

  /** Every address of the ring has both links. */
  lemma RingHas(next: Links, prev: Links, head: nat, nodes: seq<nat>, a: nat)
    requires Ring(next, prev, head, nodes) && (a == head || a in nodes)
    ensures a in next && a in prev
  {
    if a == head {
      assert LinkedAt(next, prev, head, nodes, 0);
      assert LinkedAt(next, prev, head, nodes, |nodes|);
    } else {
      var i :| 0 <= i < |nodes| && nodes[i] == a;
      assert LinkedAt(next, prev, head, nodes, i);
      assert LinkedAt(next, prev, head, nodes, i + 1);
    }
  }

  /** The four stores of __list_add(new, before, after). */
  lemma InsertKeepsRing(next: Links, prev: Links, head: nat, nodes: seq<nat>, k: nat, x: nat)
    requires Ring(next, prev, head, nodes) && k <= |nodes| && x != head && x !in nodes
    ensures var before, after := At(head, nodes, k), At(head, nodes, k + 1);
            Ring(next[x := after][before := x], prev[after := x][x := before], head, nodes[..k] + [x] + nodes[k..])
  {
    var before, after := At(head, nodes, k), At(head, nodes, k + 1);
    var nodes' := nodes[..k] + [x] + nodes[k..];
    var next', prev' := next[x := after][before := x], prev[after := x][x := before];
    InsertKeepsOnce(nodes, k, x);
    forall i | 0 <= i <= |nodes'| ensures LinkedAt(next', prev', head, nodes', i) {
      InRing(head, nodes, k);
      InRing(head, nodes, k + 1);
      if i < k {
        assert LinkedAt(next, prev, head, nodes, i);
        PositionsDiffer(head, nodes, i, k);
        PositionsDiffer(head, nodes, k + 1, i + 1);
        InRing(head, nodes, i + 1);
        InRing(head, nodes, i);
      } else if i > k + 1 {
        assert LinkedAt(next, prev, head, nodes, i - 1);
        PositionsDiffer(head, nodes, i - 1, k);
        PositionsDiffer(head, nodes, k + 1, i);
        InRing(head, nodes, i);
        InRing(head, nodes, i - 1);
      }
    }
  }

  /** Two positions hold the same address only if they are equal, or are both ends of the circle. */
  lemma PositionsDiffer(head: nat, nodes: seq<nat>, i: nat, j: nat)
    requires head !in nodes && NoRepeat(nodes)
    requires i <= |nodes| + 1 && j <= |nodes| + 1 && i != j
    ensures At(head, nodes, i) == At(head, nodes, j) ==> (i == 0 && j == |nodes| + 1) || (j == 0 && i == |nodes| + 1)
  {
    if 0 < i <= |nodes| { assert Once(nodes, i - 1); }
  }

  /** __list_del of the k-th node. */
  lemma DeleteKeepsRing(next: Links, prev: Links, head: nat, nodes: seq<nat>, k: nat, poison1: nat, poison2: nat)
    requires Ring(next, prev, head, nodes) && k < |nodes|
    ensures var x, before, after := nodes[k], At(head, nodes, k), At(head, nodes, k + 2);
            && x in next && next[x] == after && x in prev && prev[x] == before
            && Ring(next[before := after][x := poison1], prev[after := before][x := poison2],
                    head, nodes[..k] + nodes[k + 1..])
  {
    var x, before, after := nodes[k], At(head, nodes, k), At(head, nodes, k + 2);
    var nodes' := nodes[..k] + nodes[k + 1..];
    var next', prev' := next[before := after][x := poison1], prev[after := before][x := poison2];
    assert LinkedAt(next, prev, head, nodes, k);
    assert LinkedAt(next, prev, head, nodes, k + 1);
    forall i | 0 <= i <= |nodes'| ensures LinkedAt(next', prev', head, nodes', i) {
      if i < k {
        assert LinkedAt(next, prev, head, nodes, i);
        PositionsDiffer(head, nodes, i, k);
        PositionsDiffer(head, nodes, i, k + 1);
        PositionsDiffer(head, nodes, i + 1, k + 1);
        PositionsDiffer(head, nodes, i + 1, k + 2);
      } else if i > k {
        assert LinkedAt(next, prev, head, nodes, i + 1);
        PositionsDiffer(head, nodes, i + 1, k);
        PositionsDiffer(head, nodes, i + 1, k + 1);
        PositionsDiffer(head, nodes, i + 2, k + 1);
        PositionsDiffer(head, nodes, i + 2, k + 2);
      } else {
        PositionsDiffer(head, nodes, k, k + 1);
        PositionsDiffer(head, nodes, k + 1, k + 2);
      }
    }
    DeleteKeepsOnce(nodes, k);
    assert forall a :: 0 <= a < |nodes'| ==> nodes'[a] in nodes;
  }

  lemma DeleteKeepsOnce(nodes: seq<nat>, k: nat)
    requires NoRepeat(nodes) && k < |nodes|
    ensures NoRepeat(nodes[..k] + nodes[k + 1..])
  {
    var nodes' := nodes[..k] + nodes[k + 1..];
    forall a | 0 <= a < |nodes'| ensures Once(nodes', a) {
      assert Once(nodes, if a < k then a else a + 1);
      forall b | 0 <= b < |nodes'| && nodes'[b] == nodes'[a] ensures b == a {
        assert nodes'[b] == nodes[if b < k then b else b + 1];
      }
    }
  }

  lemma InsertKeepsOnce(nodes: seq<nat>, k: nat, x: nat)
    requires NoRepeat(nodes) && k <= |nodes| && x !in nodes
    ensures NoRepeat(nodes[..k] + [x] + nodes[k..])
  {
    var nodes' := nodes[..k] + [x] + nodes[k..];
    forall a | 0 <= a < |nodes'| ensures Once(nodes', a) {
      if a != k { assert Once(nodes, if a < k then a else a - 1); }
      forall b | 0 <= b < |nodes'| && nodes'[b] == nodes'[a] ensures b == a {
        if b != k { assert nodes'[b] == nodes[if b < k then b else b - 1]; }
      }
    }
  }

  // ---------- adding a node twice ----------

  /** The address that n steps of list_for_each reach from a. */
  function Follow(next: Links, a: nat, n: nat): nat
    decreases n
  {
    if n == 0 || a !in next then a else Follow(next, next[a], n - 1)
  }

  /** A list_for_each over the list comes back to its head. */
  ghost predicate Returns(next: Links, head: nat) {
    exists n: nat :: n > 0 && Follow(next, head, n) == head
  }

  lemma {:induction false} FollowRing(next: Links, prev: Links, head: nat, nodes: seq<nat>, i: nat, n: nat)
    requires Ring(next, prev, head, nodes) && i + n <= |nodes| + 1
    ensures Follow(next, At(head, nodes, i), n) == At(head, nodes, i + n)
    decreases n
  {
    if n > 0 {
      assert LinkedAt(next, prev, head, nodes, i);
      FollowRing(next, prev, head, nodes, i + 1, n - 1);
    }
  }

  /** After list_add of the k-th node of a ring, the first k + 1 nodes form a cycle without the head. */
  lemma {:induction false} FollowCycle(next: Links, prev: Links, head: nat, nodes: seq<nat>, k: nat, j: nat, n: nat)
    requires Ring(next, prev, head, nodes) && j <= k < |nodes|
    ensures Follow(next[nodes[k] := nodes[0]][head := nodes[k]], nodes[j], n) in nodes
    decreases n
  {
    if n > 0 {
      assert LinkedAt(next, prev, head, nodes, j + 1) && Once(nodes, k);
      FollowCycle(next, prev, head, nodes, k, if j == k then 0 else j + 1, n - 1);
    }
  }

  /** list_add leaves a list that can be walked to its end if and only if the node was not on it. */
  lemma AddedOnce(next: Links, prev: Links, head: nat, nodes: seq<nat>, x: nat)
    requires Ring(next, prev, head, nodes) && x != head
    ensures head in next && (Returns(next[x := next[head]][head := x], head) <==> x !in nodes)
  {
    assert LinkedAt(next, prev, head, nodes, 0);
    var next' := next[x := next[head]][head := x];
    if x in nodes {
      var k :| 0 <= k < |nodes| && nodes[k] == x;
      forall n: nat | n > 0 ensures Follow(next', head, n) != head {
        FollowCycle(next, prev, head, nodes, k, k, n - 1);
      }
    } else {
      InsertKeepsRing(next, prev, head, nodes, 0, x);
      var all := nodes[..0] + [x] + nodes[0..];
      FollowRing(next', prev[At(head, nodes, 1) := x][x := head], head, all, 0, |all| + 1);
    }
  }

  const LIST_POISON1: nat := 0xdead_0000_0010_0100
  const LIST_POISON2: nat := 0xdead_0000_0020_0200

  class ListHeads {
    var next: Links
    var prev: Links

    constructor ()
      ensures next == map[] && prev == map[]
    {
      next, prev := map[], map[];
    }

    method InitListHead(list: nat)
      modifies this
      ensures Ring(next, prev, list, [])
      ensures next == old(next)[list := list] && prev == old(prev)[list := list]
    {
      next := next[list := list];
      prev := prev[list := list];
    }

    /** __list_add. */
    method Insert(x: nat, before: nat, after: nat)
      modifies this
      ensures next == old(next)[x := after][before := x] && prev == old(prev)[after := x][x := before]
    {
      prev := prev[after := x];
      next := next[x := after];
      prev := prev[x := before];
      next := next[before := x];
    }

    /** list_add: the new node becomes the first. */
    method ListAdd(x: nat, head: nat, ghost nodes: seq<nat>)
      requires Ring(next, prev, head, nodes) && x != head && x !in nodes
      modifies this
      ensures Ring(next, prev, head, [x] + nodes)
      ensures forall a :: a != x && a != head && a !in nodes ==>
                (a in next <==> a in old(next)) && (a in next ==> next[a] == old(next)[a]) &&
                (a in prev <==> a in old(prev)) && (a in prev ==> prev[a] == old(prev)[a])
    {
      RingHas(next, prev, head, nodes, head);
      InsertKeepsRing(next, prev, head, nodes, 0, x);
      assert LinkedAt(next, prev, head, nodes, 0);
      InRing(head, nodes, 1);
      assert nodes[..0] + [x] + nodes[0..] == [x] + nodes;
      Insert(x, head, next[head]);
    }

    /** list_add_tail: the new node becomes the last. */
    method ListAddTail(x: nat, head: nat, ghost nodes: seq<nat>)
      requires Ring(next, prev, head, nodes) && x != head && x !in nodes
      modifies this
      ensures Ring(next, prev, head, nodes + [x])
    {
      RingHas(next, prev, head, nodes, head);
      InsertKeepsRing(next, prev, head, nodes, |nodes|, x);
      assert LinkedAt(next, prev, head, nodes, |nodes|);
      assert nodes[..|nodes|] + [x] + nodes[|nodes|..] == nodes + [x];
      Insert(x, prev[head], head);
    }

    /** list_del: the node leaves the ring and its links are poisoned. */
    method ListDel(x: nat, ghost head: nat, ghost nodes: seq<nat>, ghost k: nat)
      requires Ring(next, prev, head, nodes) && k < |nodes| && nodes[k] == x
      modifies this
      ensures Ring(next, prev, head, nodes[..k] + nodes[k + 1..])
      ensures x in next && next[x] == LIST_POISON1 && x in prev && prev[x] == LIST_POISON2
      ensures forall a :: a != head && a !in nodes ==>
                (a in next <==> a in old(next)) && (a in next ==> next[a] == old(next)[a]) &&
                (a in prev <==> a in old(prev)) && (a in prev ==> prev[a] == old(prev)[a])
    {
      RingHas(next, prev, head, nodes, x);
      DeleteKeepsRing(next, prev, head, nodes, k, LIST_POISON1, LIST_POISON2);
      InRing(head, nodes, k);
      InRing(head, nodes, k + 2);
      var before, after := prev[x], next[x];
      prev := prev[after := before];
      next := next[before := after];
      next := next[x := LIST_POISON1];
      prev := prev[x := LIST_POISON2];
    }
  }
}
