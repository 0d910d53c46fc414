/**
 * The coordinator node and the three operations every coordinator shares:
 * `addChild`, `removeChild` and `finish` (the protocol extension in
 * Coordinator.swift and the identical methods of BaseCoordinator).
 *
 * Coordinators live in an arena: a coordinator's identity is its index in a
 * `seq<Node>`. The child list holds identities (the owning edges); the parent
 * link and the list coordinator's delegate are identities too, never owning
 * references, which is how the weak back-links are represented.
 */
module Coordinator {
  import opened Wrappers

  /** Identity of a coordinator: its index in the arena. */
  type CoordId = nat

  /** An article record of the data layer; only its identifier is modelled. */
  datatype Article = Article(id: int)

  /** What a presented view controller shows. */
  datatype ScreenContent = ArticleListScreen | ArticleDetailScreen(article: Article)

  /** A view controller. Screens are compared by identity, as `===` does. */
  class Screen {
    const content: ScreenContent

    constructor (content: ScreenContent)
      ensures this.content == content
    {
      this.content := content;
    }
  }

  /**
   * The concrete class of a coordinator. `Base` is a plain BaseCoordinator
   * subclass that adds nothing (as the tests' DummyCoordinator does). The
   * article of a detail coordinator is fixed at construction.
   */
  datatype Kind = Base | App | ArticleList | ArticleDetail(article: Article)

  /** The classes that conform to ParentCoordinator. */
  predicate IsParentCoordinator(k: Kind) {
    k.App? || k.ArticleList?
  }

  /**
   * The mutable state of one coordinator: `childCoordinators`,
   * `parentCoordinator`, `rootViewController` and, for a list coordinator,
   * its weak `delegate`.
   */
  datatype Node = Node(
    kind: Kind,
    children: seq<CoordId>,
    parent: Option<CoordId>,
    root: Option<Screen>,
    delegate: Option<CoordId>)

  ghost predicate NoDuplicates(s: seq<CoordId>) {
    forall i, j :: 0 <= i < j < |s| ==> s[i] != s[j]
  }

  // ---------------------------------------------------------------------
  // removeChild: `childCoordinators.removeAll { $0 === coordinator }`
  // ---------------------------------------------------------------------

  /** The list with every occurrence of `c` dropped. */
  function Without(list: seq<CoordId>, c: CoordId): (r: seq<CoordId>)
    ensures c !in r
    ensures forall x :: x in r <==> x in list && x != c
    ensures |r| <= |list|
  {
    if list == [] then []
    else if list[0] == c then Without(list[1..], c)
    else [list[0]] + Without(list[1..], c)
  }

  /** Removing an absent coordinator leaves the list as it was. */
  lemma {:induction false} WithoutAbsent(list: seq<CoordId>, c: CoordId)
    requires c !in list
    ensures Without(list, c) == list
  {
    if list != [] {
      WithoutAbsent(list[1..], c);
    }
  }

  /** Filtering distributes over concatenation: the survivors keep their order. */
  lemma {:induction false} WithoutConcat(a: seq<CoordId>, b: seq<CoordId>, c: CoordId)
    ensures Without(a + b, c) == Without(a, c) + Without(b, c)
  {
    if a == [] {
      assert a + b == b;
    } else {
      assert (a + b)[1..] == a[1..] + b;
      WithoutConcat(a[1..], b, c);
    }
  }

  /** Removing a coordinator that occurs once closes the gap and keeps the rest in order. */
  lemma {:induction false} WithoutSingle(a: seq<CoordId>, b: seq<CoordId>, c: CoordId)
    requires c !in a && c !in b
    ensures Without(a + [c] + b, c) == a + b
  {
    var ac := a + [c];
    WithoutConcat(ac, b, c);
    WithoutConcat(a, [c], c);
    WithoutAbsent(a, c);
    WithoutAbsent(b, c);
    assert Without([c], c) == [];
    assert Without(ac, c) == a;
  }

  /** Every other coordinator keeps its number of occurrences. */
  lemma {:induction false} WithoutKeepsCount(list: seq<CoordId>, c: CoordId, x: CoordId)
    requires x != c
    ensures multiset(Without(list, c))[x] == multiset(list)[x]
  {
    if list != [] {
      WithoutKeepsCount(list[1..], c, x);
      assert list == [list[0]] + list[1..];
    }
  }

  /** A list without repetitions stays without repetitions. */
  lemma {:induction false} WithoutNoDuplicates(list: seq<CoordId>, c: CoordId)
    requires NoDuplicates(list)
    ensures NoDuplicates(Without(list, c))
  {
    if list != [] {
      assert NoDuplicates(list[1..]) by {
        forall i, j | 0 <= i < j < |list[1..]| ensures list[1..][i] != list[1..][j] {
          assert list[1..][i] == list[i + 1] && list[1..][j] == list[j + 1];
        }
      }
      WithoutNoDuplicates(list[1..], c);
      var rest := Without(list[1..], c);
      if list[0] != c {
        assert list[0] !in list[1..];
        assert list[0] !in rest;
        forall i, j | 0 <= i < j < |[list[0]] + rest| ensures ([list[0]] + rest)[i] != ([list[0]] + rest)[j] {
          if i > 0 {
            assert ([list[0]] + rest)[i] == rest[i - 1];
          }
          assert ([list[0]] + rest)[j] == rest[j - 1];
        }
      }
    }
  }

  // ---------------------------------------------------------------------
  // The tree operations on the whole arena
  // ---------------------------------------------------------------------

  /** `self as? ParentCoordinator`: the link a child of `p` receives. */
  function LinkTo(nodes: seq<Node>, p: CoordId): (link: Option<CoordId>)
    requires p < |nodes|
    ensures link.Some? <==> IsParentCoordinator(nodes[p].kind)
    ensures link.Some? ==> link.value == p
  {
    if IsParentCoordinator(nodes[p].kind) then Some(p) else None
  }

  /** The arena after `p.addChild(c)`. */
  function WithChild(nodes: seq<Node>, p: CoordId, c: CoordId): (r: seq<Node>)
    requires p < |nodes| && c < |nodes|
    ensures |r| == |nodes|
    ensures r[p].children == nodes[p].children + [c]
    ensures r[c].parent == LinkTo(nodes, p)
    ensures forall n :: 0 <= n < |r| && n != p ==> r[n].children == nodes[n].children
    ensures forall n :: 0 <= n < |r| && n != c ==> r[n].parent == nodes[n].parent
    ensures forall n :: 0 <= n < |r| ==>
      r[n].kind == nodes[n].kind && r[n].root == nodes[n].root && r[n].delegate == nodes[n].delegate
  {
    var appended := nodes[p := nodes[p].(children := nodes[p].children + [c])];
    appended[c := appended[c].(parent := LinkTo(nodes, p))]
  }

  /** The arena after `p.removeChild(c)`: only `p`'s child list changes. */
  function WithoutChild(nodes: seq<Node>, p: CoordId, c: CoordId): (r: seq<Node>)
    requires p < |nodes|
    ensures |r| == |nodes|
    ensures c !in r[p].children
    ensures r[p] == nodes[p].(children := Without(nodes[p].children, c))
    ensures forall n :: 0 <= n < |r| && n != p ==> r[n] == nodes[n]
  {
    nodes[p := nodes[p].(children := Without(nodes[p].children, c))]
  }

  /** The static type of `parentCoordinator` (ParentCoordinator?), stated on ids. */
  predicate ParentTyped(nodes: seq<Node>, c: CoordId)
    requires c < |nodes|
  {
    match nodes[c].parent
    case None => true
    case Some(p) => p < c && IsParentCoordinator(nodes[p].kind)
  }

  /**
   * The arena after `c.finish()`: `parentCoordinator?.childDidFinish(self)`,
   * where both ParentCoordinator conformers answer with `removeChild`.
   */
  function Finished(nodes: seq<Node>, c: CoordId): (r: seq<Node>)
    requires c < |nodes| && ParentTyped(nodes, c)
    ensures |r| == |nodes|
  {
    match nodes[c].parent
    case None => nodes
    case Some(p) => WithoutChild(nodes, p, c)
  }

  /** `finish()` with no parent changes nothing. */
  lemma FinishWithoutParent(nodes: seq<Node>, c: CoordId)
    requires c < |nodes| && ParentTyped(nodes, c) && nodes[c].parent.None?
    ensures Finished(nodes, c) == nodes
  {
  }

  /**
   * `finish()` touches only the parent's list: the finished coordinator keeps
   * its own children and its (now stale) parent link.
   */
  lemma FinishKeepsOwnState(nodes: seq<Node>, c: CoordId, p: CoordId)
    requires c < |nodes| && ParentTyped(nodes, c) && nodes[c].parent == Some(p)
    ensures Finished(nodes, c)[c] == nodes[c]
    ensures c !in Finished(nodes, c)[p].children
  {
  }

  /** `finish()` with a parent is exactly that parent's `removeChild(self)`. */
  lemma FinishWithParent(nodes: seq<Node>, c: CoordId, p: CoordId)
    requires c < |nodes| && ParentTyped(nodes, c) && nodes[c].parent == Some(p)
    ensures Finished(nodes, c) == WithoutChild(nodes, p, c)
    ensures c !in Finished(nodes, c)[p].children
    ensures Finished(nodes, c)[p].children == Without(nodes[p].children, c)
    ensures forall n :: 0 <= n < |nodes| && n != p ==> Finished(nodes, c)[n] == nodes[n]
  {
  }

  // ---------------------------------------------------------------------
  // The tree invariant
  // ---------------------------------------------------------------------

  /**
   * Every child id names a coordinator created after its owner: the arena
   * holds no cycle, so the depth-first search terminates.
   */
  ghost predicate Ordered(nodes: seq<Node>) {
    forall p, i :: 0 <= p < |nodes| && 0 <= i < |nodes[p].children| ==>
      p < nodes[p].children[i] < |nodes|
  }

  /** The weak links have the types the source gives them. */
  ghost predicate Typed(nodes: seq<Node>) {
    && (forall c :: 0 <= c < |nodes| ==> ParentTyped(nodes, c))
    && (forall l :: 0 <= l < |nodes| && nodes[l].delegate.Some? ==>
          nodes[l].delegate.value < |nodes| && nodes[nodes[l].delegate.value].kind.App?)
  }

  /** What every operation needs in order to run as the source does. */
  ghost predicate WellFormed(nodes: seq<Node>) {
    Ordered(nodes) && Typed(nodes)
  }

  /** A coordinator resident in `p`'s list links back to `p` (or to none, if `p` is no ParentCoordinator). */
  ghost predicate BackLinks(nodes: seq<Node>) {
    forall p, i :: 0 <= p < |nodes| && 0 <= i < |nodes[p].children| && nodes[p].children[i] < |nodes| ==>
      nodes[nodes[p].children[i]].parent == LinkTo(nodes, p)
  }

  /** A coordinator is in at most one child list, and at most once there. */
  ghost predicate SoleOwner(nodes: seq<Node>) {
    && (forall p, q, c :: 0 <= p < |nodes| && 0 <= q < |nodes| &&
          c in nodes[p].children && c in nodes[q].children
          ==> p == q)
    && (forall p :: 0 <= p < |nodes| ==> NoDuplicates(nodes[p].children))
  }

  /** A screen is the root of at most one coordinator. */
  ghost predicate UniqueRoots(nodes: seq<Node>) {
    forall a, b :: 0 <= a < |nodes| && 0 <= b < |nodes| &&
      nodes[a].root.Some? && nodes[a].root == nodes[b].root
      ==> a == b
  }

  ghost predicate Valid(nodes: seq<Node>) {
    WellFormed(nodes) && BackLinks(nodes) && SoleOwner(nodes) && UniqueRoots(nodes)
  }

  /** `c` is in nobody's child list. */
  ghost predicate Detached(nodes: seq<Node>, c: CoordId) {
    forall q :: 0 <= q < |nodes| ==> c !in nodes[q].children
  }

  /** A freshly constructed coordinator is in no child list. */
  lemma NewIsDetached(nodes: seq<Node>, kind: Kind)
    requires Ordered(nodes)
    ensures Detached(nodes + [Node(kind, [], None, None, None)], |nodes|)
  {
  }

  /** A freshly constructed coordinator keeps ids ordered and links typed. */
  lemma NewKeepsWellFormed(nodes: seq<Node>, kind: Kind)
    requires WellFormed(nodes)
    ensures WellFormed(nodes + [Node(kind, [], None, None, None)])
  {
    var r := nodes + [Node(kind, [], None, None, None)];
    assert forall p :: 0 <= p < |nodes| ==> r[p] == nodes[p];
    forall n | 0 <= n < |r| ensures ParentTyped(r, n) {
      if n < |nodes| {
        assert ParentTyped(nodes, n);
      }
    }
  }

  /** A freshly constructed coordinator joins the arena without breaking the invariant. */
  lemma NewKeepsValid(nodes: seq<Node>, kind: Kind)
    requires Valid(nodes)
    ensures Valid(nodes + [Node(kind, [], None, None, None)])
    ensures Detached(nodes + [Node(kind, [], None, None, None)], |nodes|)
  {
    NewKeepsWellFormed(nodes, kind);
    NewIsDetached(nodes, kind);
    var r := nodes + [Node(kind, [], None, None, None)];
    assert forall p :: 0 <= p < |nodes| ==> r[p] == nodes[p];
  }

  /** Adding a younger child keeps ids ordered and links typed. */
  lemma AddChildKeepsWellFormed(nodes: seq<Node>, p: CoordId, c: CoordId)
    requires WellFormed(nodes) && p < c < |nodes|
    ensures WellFormed(WithChild(nodes, p, c))
  {
    var r := WithChild(nodes, p, c);
    forall n | 0 <= n < |r| ensures ParentTyped(r, n) {
      assert ParentTyped(nodes, n);
    }
    forall n, i | 0 <= n < |r| && 0 <= i < |r[n].children| ensures n < r[n].children[i] < |r| {
      if n == p && i == |nodes[p].children| {
        assert r[n].children[i] == c;
      } else {
        assert r[n].children[i] == nodes[n].children[i];
      }
    }
  }

  /** Adding a detached child keeps every resident child linked back to its owner. */
  lemma AddChildKeepsBackLinks(nodes: seq<Node>, p: CoordId, c: CoordId)
    requires BackLinks(nodes) && p < |nodes| && c < |nodes| && Detached(nodes, c)
    ensures BackLinks(WithChild(nodes, p, c))
  {
  }

  /** Adding a detached child keeps every coordinator in at most one list, once. */
  lemma AddChildKeepsSoleOwner(nodes: seq<Node>, p: CoordId, c: CoordId)
    requires SoleOwner(nodes) && p < |nodes| && c < |nodes| && Detached(nodes, c)
    ensures SoleOwner(WithChild(nodes, p, c))
  {
  }

  /** Adding a detached, younger coordinator keeps the tree a tree. */
  lemma AddChildKeepsValid(nodes: seq<Node>, p: CoordId, c: CoordId)
    requires Valid(nodes) && p < c < |nodes| && Detached(nodes, c)
    ensures Valid(WithChild(nodes, p, c))
  {
    AddChildKeepsWellFormed(nodes, p, c);
    AddChildKeepsBackLinks(nodes, p, c);
    AddChildKeepsSoleOwner(nodes, p, c);
  }

  /** Removing a child (and so finishing one) keeps the tree a tree. */
  lemma RemoveChildKeepsValid(nodes: seq<Node>, p: CoordId, c: CoordId)
    requires Valid(nodes) && p < |nodes|
    ensures Valid(WithoutChild(nodes, p, c))
  {
    var r := WithoutChild(nodes, p, c);
    forall n | 0 <= n < |r| ensures ParentTyped(r, n) {
      assert ParentTyped(nodes, n);
    }
    forall n, i | 0 <= n < |r| && 0 <= i < |r[n].children| ensures n < r[n].children[i] < |r| {
      assert r[n].children[i] in nodes[n].children;
    }
    forall n, i | 0 <= n < |r| && 0 <= i < |r[n].children| && r[n].children[i] < |r|
      ensures r[r[n].children[i]].parent == LinkTo(r, n)
    {
      assert r[n].children[i] in nodes[n].children;
    }
    forall n | 0 <= n < |r| ensures NoDuplicates(r[n].children) {
      if n == p {
        WithoutNoDuplicates(nodes[p].children, c);
      }
    }
    assert Valid(r);
  }

  /** Assigning a screen that no coordinator owns yet as `c`'s root keeps the invariant. */
  lemma SetRootKeepsValid(nodes: seq<Node>, c: CoordId, s: Screen)
    requires Valid(nodes) && c < |nodes|
    requires forall n :: 0 <= n < |nodes| ==> nodes[n].root != Some(s)
    ensures Valid(nodes[c := nodes[c].(root := Some(s))])
  {
    var r := nodes[c := nodes[c].(root := Some(s))];
    forall n | 0 <= n < |r| ensures ParentTyped(r, n) {
      assert ParentTyped(nodes, n);
    }
    forall p, i | 0 <= p < |r| && 0 <= i < |r[p].children| && r[p].children[i] < |r|
      ensures r[r[p].children[i]].parent == LinkTo(r, p)
    {
      assert r[p].children == nodes[p].children;
    }
  }

  /** Pointing a coordinator's delegate at an AppCoordinator keeps the invariant. */
  lemma SetDelegateKeepsValid(nodes: seq<Node>, l: CoordId, d: CoordId)
    requires Valid(nodes) && l < |nodes| && d < |nodes| && nodes[d].kind.App?
    ensures Valid(nodes[l := nodes[l].(delegate := Some(d))])
  {
    var r := nodes[l := nodes[l].(delegate := Some(d))];
    forall n | 0 <= n < |r| ensures ParentTyped(r, n) {
      assert ParentTyped(nodes, n);
    }
    forall p, i | 0 <= p < |r| && 0 <= i < |r[p].children| && r[p].children[i] < |r|
      ensures r[r[p].children[i]].parent == LinkTo(r, p)
    {
      assert r[p].children == nodes[p].children;
    }
  }

  /** Every coordinator keeps its class (and a detail coordinator its article). */
  ghost predicate KindsKept(before: seq<Node>, after: seq<Node>) {
    |before| <= |after| && forall n :: 0 <= n < |before| ==> after[n].kind == before[n].kind
  }

  /** After `finish()` (with a parent) the coordinator is in no child list at all. */
  lemma FinishDetaches(nodes: seq<Node>, c: CoordId)
    requires Valid(nodes) && c < |nodes| && nodes[c].parent.Some?
    ensures Valid(Finished(nodes, c))
    ensures Detached(Finished(nodes, c), c)
  {
    var p := nodes[c].parent.value;
    assert ParentTyped(nodes, c);
    RemoveChildKeepsValid(nodes, p, c);
    var r := Finished(nodes, c);
    forall q | 0 <= q < |nodes| ensures c in nodes[q].children ==> q == p {
      if c in nodes[q].children {
        var i :| 0 <= i < |nodes[q].children| && nodes[q].children[i] == c;
        assert nodes[c].parent == LinkTo(nodes, q);
      }
    }
  }

  /**
   * A resident coordinator's parent link names the coordinator whose list
   * holds it; and the weak link is never an owning edge back up the tree.
   */
  lemma ParentLinkIsNotOwning(nodes: seq<Node>, c: CoordId, p: CoordId)
    requires Valid(nodes) && c < |nodes| && nodes[c].parent == Some(p)
    ensures p < |nodes| && IsParentCoordinator(nodes[p].kind)
    ensures p !in nodes[c].children
    ensures forall q :: 0 <= q < |nodes| && c in nodes[q].children ==> q == p
  {
    assert ParentTyped(nodes, c);
    assert forall i :: 0 <= i < |nodes[c].children| ==> c < nodes[c].children[i];
    forall q | 0 <= q < |nodes| && c in nodes[q].children ensures q == p {
      var i :| 0 <= i < |nodes[q].children| && nodes[q].children[i] == c;
      assert nodes[c].parent == LinkTo(nodes, q);
    }
  }
}
