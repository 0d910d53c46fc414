/**
 * BaseCoordinator: the stored state of every coordinator and the shared
 * implementations of `finish`, `addChild` and `removeChild`, here as methods
 * of the arena that holds all coordinators.
 */
module BaseCoordinator {
  import opened Wrappers
  import opened Coordinator

  class Arena {
    /** All coordinators ever constructed; a coordinator's id is its index. */
    var nodes: seq<Node>

    constructor ()
      ensures nodes == []
    {
      nodes := [];
    }

    ghost predicate Valid()
      reads this
    {
      Coordinator.Valid(nodes)
    }

    /** `init(navigationController:)`: no children, no parent, no root screen. */
    method Create(kind: Kind) returns (id: CoordId)
      modifies this
      ensures id == |old(nodes)|
      ensures nodes == old(nodes) + [Node(kind, [], None, None, None)]
      ensures KindsKept(old(nodes), nodes)
      ensures old(Valid()) ==> Valid() && Detached(nodes, id)
    {
      if Valid() {
        NewKeepsValid(nodes, kind);
      }
      id := |nodes|;
      nodes := nodes + [Node(kind, [], None, None, None)];
    }

    /** `addChild(_:)`: append `c` and set its parent to `self as? ParentCoordinator`. */
    method AddChild(p: CoordId, c: CoordId)
      requires p < |nodes| && c < |nodes|
      modifies this
      ensures nodes == WithChild(old(nodes), p, c)
      ensures KindsKept(old(nodes), nodes)
      ensures old(Valid()) && p < c && Detached(old(nodes), c) ==> Valid()
    {
      if Valid() && p < c && Detached(nodes, c) {
        AddChildKeepsValid(nodes, p, c);
      }
      var link := LinkTo(nodes, p);
      nodes := nodes[p := nodes[p].(children := nodes[p].children + [c])];
      nodes := nodes[c := nodes[c].(parent := link)];
    }

    /** `removeChild(_:)`: drop every entry identical to `c`. */
    method RemoveChild(p: CoordId, c: CoordId)
      requires p < |nodes|
      modifies this
      ensures nodes == WithoutChild(old(nodes), p, c)
      ensures KindsKept(old(nodes), nodes)
      ensures old(Valid()) ==> Valid()
    {
      if Valid() {
        RemoveChildKeepsValid(nodes, p, c);
      }
      nodes := nodes[p := nodes[p].(children := Without(nodes[p].children, c))];
    }

    /** `childDidFinish(_:)`: both ParentCoordinator conformers remove the child. */
    method ChildDidFinish(p: CoordId, c: CoordId)
      requires p < |nodes| && IsParentCoordinator(nodes[p].kind)
      modifies this
      ensures nodes == WithoutChild(old(nodes), p, c)
      ensures KindsKept(old(nodes), nodes)
      ensures old(Valid()) ==> Valid()
    {
      RemoveChild(p, c);
    }

    /** `finish()`: `parentCoordinator?.childDidFinish(self)`. */
    method Finish(c: CoordId)
      requires c < |nodes| && ParentTyped(nodes, c)
      modifies this
      ensures nodes == Finished(old(nodes), c)
      ensures KindsKept(old(nodes), nodes)
      ensures old(Valid()) ==> Valid()
      ensures old(Valid()) && old(nodes[c].parent).Some? ==> Detached(nodes, c)
    {
      if Valid() && nodes[c].parent.Some? {
        FinishDetaches(nodes, c);
      }
      match nodes[c].parent {
        case None =>
        case Some(p) => ChildDidFinish(p, c);
      }
    }

    /** `rootViewController = vc`. */
    method SetRoot(c: CoordId, vc: Screen)
      requires c < |nodes|
      modifies this
      ensures nodes == old(nodes)[c := old(nodes)[c].(root := Some(vc))]
      ensures KindsKept(old(nodes), nodes)
      ensures old(Valid()) && (forall n :: 0 <= n < |old(nodes)| ==> old(nodes)[n].root != Some(vc)) ==> Valid()
    {
      if Valid() && forall n :: 0 <= n < |nodes| ==> nodes[n].root != Some(vc) {
        SetRootKeepsValid(nodes, c, vc);
      }
      nodes := nodes[c := nodes[c].(root := Some(vc))];
    }

    /** `delegate = d` on a list coordinator. */
    method SetDelegate(l: CoordId, d: CoordId)
      requires l < |nodes| && d < |nodes| && nodes[d].kind.App?
      modifies this
      ensures nodes == old(nodes)[l := old(nodes)[l].(delegate := Some(d))]
      ensures KindsKept(old(nodes), nodes)
      ensures old(Valid()) ==> Valid()
    {
      if Valid() {
        SetDelegateKeepsValid(nodes, l, d);
      }
      nodes := nodes[l := nodes[l].(delegate := Some(d))];
    }
  }
}
