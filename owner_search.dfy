/**
 * `findCoordinator(owning:in:)` of AppCoordinator: a depth-first search of a
 * list of coordinators and their descendants for the one whose root screen is
 * a given view controller, and the pre-order listing it is proved against.
 */
module OwnerSearch {
  import opened Wrappers
  import opened Coordinator

  /** Every id of `list` names a coordinator of the arena at or above `lo`. */
  ghost predicate InRange(nodes: seq<Node>, list: seq<CoordId>, lo: nat) {
    forall i :: 0 <= i < |list| ==> lo <= list[i] < |nodes|
  }

  /**
   * The search as the source runs it: for each coordinator in order, check
   * its root, then search its children, then move to the next sibling.
   * `lo` is a lower bound on the ids of `list`; children have larger ids than
   * their owner, which is why the recursion ends.
   */
  function FindIn(nodes: seq<Node>, vc: Screen, list: seq<CoordId>, ghost lo: nat): (r: Option<CoordId>)
    requires Ordered(nodes) && InRange(nodes, list, lo)
    ensures r.Some? ==> lo <= r.value < |nodes| && nodes[r.value].root == Some(vc)
    decreases |nodes| - lo, |list|
  {
    if list == [] then None
    else if nodes[list[0]].root == Some(vc) then Some(list[0])
    else match FindIn(nodes, vc, nodes[list[0]].children, list[0] + 1)
      case Some(nested) => Some(nested)
      case None => FindIn(nodes, vc, list[1..], lo)
  }

  /**
   * The pre-order listing of `list` and its descendants: each coordinator,
   * then its subtree, then the later siblings.
   */
  ghost function PreOrder(nodes: seq<Node>, list: seq<CoordId>, lo: nat): (order: seq<CoordId>)
    requires Ordered(nodes) && InRange(nodes, list, lo)
    ensures InRange(nodes, order, lo)
    ensures forall i :: 0 <= i < |list| ==> list[i] in order
    decreases |nodes| - lo, |list|
  {
    if list == [] then []
    else
      var x := list[0];
      [x] + PreOrder(nodes, nodes[x].children, x + 1) + PreOrder(nodes, list[1..], lo)
  }

  /** Position `k` of `order` holds the first coordinator whose root is `vc`. */
  ghost predicate FirstAt(nodes: seq<Node>, vc: Screen, order: seq<CoordId>, k: nat)
    requires forall i :: 0 <= i < |order| ==> order[i] < |nodes|
  {
    && k < |order|
    && nodes[order[k]].root == Some(vc)
    && forall i :: 0 <= i < k ==> nodes[order[i]].root != Some(vc)
  }

  /** The first coordinator of a listing whose root is `vc`, by a linear scan. */
  ghost function FirstOwner(nodes: seq<Node>, vc: Screen, order: seq<CoordId>): (r: Option<CoordId>)
    requires forall i :: 0 <= i < |order| ==> order[i] < |nodes|
    ensures r.None? <==> forall i :: 0 <= i < |order| ==> nodes[order[i]].root != Some(vc)
    ensures r.Some? ==> exists k: nat :: FirstAt(nodes, vc, order, k) && order[k] == r.value
  {
    if order == [] then None
    else if nodes[order[0]].root == Some(vc) then
      assert FirstAt(nodes, vc, order, 0);
      Some(order[0])
    else
      var r := FirstOwner(nodes, vc, order[1..]);
      assert r.Some? ==> exists k: nat :: FirstAt(nodes, vc, order, k) && order[k] == r.value by {
        if r.Some? {
          var k: nat :| FirstAt(nodes, vc, order[1..], k) && order[1..][k] == r.value;
          assert order[k + 1] == r.value;
          forall i | 0 <= i < k + 1 ensures nodes[order[i]].root != Some(vc) {
            if i > 0 {
              assert order[i] == order[1..][i - 1];
            }
          }
          assert FirstAt(nodes, vc, order, k + 1);
        }
      }
      assert r.None? ==> forall i :: 0 <= i < |order| ==> nodes[order[i]].root != Some(vc) by {
        if r.None? {
          forall i | 0 <= i < |order| ensures nodes[order[i]].root != Some(vc) {
            if i > 0 {
              assert order[i] == order[1..][i - 1];
            }
          }
        }
      }
      r
  }

  /** Scanning a concatenation scans the first part, then the second. */
  lemma {:induction false} FirstOwnerConcat(nodes: seq<Node>, vc: Screen, a: seq<CoordId>, b: seq<CoordId>)
    requires forall i :: 0 <= i < |a| ==> a[i] < |nodes|
    requires forall i :: 0 <= i < |b| ==> b[i] < |nodes|
    ensures FirstOwner(nodes, vc, a + b) ==
      if FirstOwner(nodes, vc, a).Some? then FirstOwner(nodes, vc, a) else FirstOwner(nodes, vc, b)
  {
    if a == [] {
      assert a + b == b;
    } else {
      assert (a + b)[0] == a[0];
      assert (a + b)[1..] == a[1..] + b;
      FirstOwnerConcat(nodes, vc, a[1..], b);
    }
  }

  /** Scanning a listing that starts with `x`: `x` itself if it owns `vc`, else the rest. */
  lemma FirstOwnerCons(nodes: seq<Node>, vc: Screen, x: CoordId, rest: seq<CoordId>)
    requires x < |nodes| && forall i :: 0 <= i < |rest| ==> rest[i] < |nodes|
    ensures FirstOwner(nodes, vc, [x] + rest) ==
      if nodes[x].root == Some(vc) then Some(x) else FirstOwner(nodes, vc, rest)
  {
  }

  /** One step of the listing: a coordinator, its subtree, then its later siblings. */
  lemma PreOrderCons(nodes: seq<Node>, list: seq<CoordId>, lo: nat)
    requires Ordered(nodes) && InRange(nodes, list, lo) && list != []
    ensures InRange(nodes, nodes[list[0]].children, list[0] + 1)
    ensures InRange(nodes, list[1..], lo)
    ensures PreOrder(nodes, list, lo) ==
      [list[0]] + (PreOrder(nodes, nodes[list[0]].children, list[0] + 1) + PreOrder(nodes, list[1..], lo))
  {
  }

  /** One step of the search: the first coordinator, then its subtree, then the later siblings. */
  lemma FindInCons(nodes: seq<Node>, vc: Screen, list: seq<CoordId>, lo: nat)
    requires Ordered(nodes) && InRange(nodes, list, lo) && list != []
    ensures InRange(nodes, nodes[list[0]].children, list[0] + 1)
    ensures InRange(nodes, list[1..], lo)
    ensures FindIn(nodes, vc, list, lo) ==
      if nodes[list[0]].root == Some(vc) then Some(list[0])
      else if FindIn(nodes, vc, nodes[list[0]].children, list[0] + 1).Some? then
        FindIn(nodes, vc, nodes[list[0]].children, list[0] + 1)
      else FindIn(nodes, vc, list[1..], lo)
  {
  }

  /** The search returns exactly the first owner of `vc` in pre-order. */
  lemma {:induction false} FindIsFirstInPreOrder(nodes: seq<Node>, vc: Screen, list: seq<CoordId>, lo: nat)
    requires Ordered(nodes) && InRange(nodes, list, lo)
    ensures FindIn(nodes, vc, list, lo) == FirstOwner(nodes, vc, PreOrder(nodes, list, lo))
    decreases |nodes| - lo, |list|
  {
    if list != [] {
      var x := list[0];
      PreOrderCons(nodes, list, lo);
      FindInCons(nodes, vc, list, lo);
      var below := PreOrder(nodes, nodes[x].children, x + 1);
      var later := PreOrder(nodes, list[1..], lo);
      FirstOwnerCons(nodes, vc, x, below + later);
      if nodes[x].root != Some(vc) {
        FindIsFirstInPreOrder(nodes, vc, nodes[x].children, x + 1);
        FindIsFirstInPreOrder(nodes, vc, list[1..], lo);
        FirstOwnerConcat(nodes, vc, below, later);
      }
    }
  }

  /** The search finds nothing exactly when no coordinator of the subtrees owns `vc`. */
  lemma FindNoneIffUnowned(nodes: seq<Node>, vc: Screen, list: seq<CoordId>, lo: nat)
    requires Ordered(nodes) && InRange(nodes, list, lo)
    ensures var order := PreOrder(nodes, list, lo);
      FindIn(nodes, vc, list, lo).None? <==> forall i :: 0 <= i < |order| ==> nodes[order[i]].root != Some(vc)
  {
    FindIsFirstInPreOrder(nodes, vc, list, lo);
  }

  /**
   * A found coordinator owns `vc` and is the first such one in pre-order:
   * every coordinator visited before it (a node before its descendants, an
   * earlier sibling before a later one) has another root.
   */
  lemma FindReturnsFirstOwner(nodes: seq<Node>, vc: Screen, list: seq<CoordId>, lo: nat)
    requires Ordered(nodes) && InRange(nodes, list, lo)
    requires FindIn(nodes, vc, list, lo).Some?
    ensures var order := PreOrder(nodes, list, lo);
      var c := FindIn(nodes, vc, list, lo).value;
      exists k: nat :: FirstAt(nodes, vc, order, k) && order[k] == c
  {
    FindIsFirstInPreOrder(nodes, vc, list, lo);
  }

  /** Searching a coordinator's children never visits the coordinator itself. */
  lemma SearchSkipsOwner(nodes: seq<Node>, vc: Screen, owner: CoordId)
    requires Ordered(nodes) && owner < |nodes|
    ensures InRange(nodes, nodes[owner].children, owner + 1)
    ensures owner !in PreOrder(nodes, nodes[owner].children, owner + 1)
    ensures FindIn(nodes, vc, nodes[owner].children, owner + 1) != Some(owner)
  {
  }
}
