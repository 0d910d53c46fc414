/**
 * The platform navigation controller that every coordinator drives: one
 * back-stack of screens and the delegate that hears its did-show events.
 * It is a collaborator of the coordinators, not part of them.
 */
module Navigation {
  import opened Wrappers
  import opened Coordinator

  class NavigationController {
    /** The back-stack, bottom first. */
    var viewControllers: seq<Screen>
    /** The coordinator installed as `delegate`. */
    var delegate: Option<CoordId>

    constructor ()
      ensures viewControllers == [] && delegate == None
    {
      viewControllers := [];
      delegate := None;
    }

    /** `pushViewController(_:animated:)`. */
    method PushViewController(vc: Screen)
      modifies this
      ensures viewControllers == old(viewControllers) + [vc]
      ensures delegate == old(delegate)
    {
      viewControllers := viewControllers + [vc];
    }

    /** `setViewControllers(_:animated:)`: replaces the whole stack. */
    method SetViewControllers(vcs: seq<Screen>)
      modifies this
      ensures viewControllers == vcs
      ensures delegate == old(delegate)
    {
      viewControllers := vcs;
    }
  }
}
