/**
 * ArticleDetailCoordinator: holds one article, pushes its detail screen, and
 * overrides `finish` with the same parent notification as the base class.
 */
module ArticleDetailCoordinator {
  import opened Wrappers
  import opened Coordinator
  import opened Navigation
  import opened BaseCoordinator

  /** `init(navigationController:article:)`: the article is stored in the coordinator's class. */
  method Create(tree: Arena, article: Article) returns (d: CoordId)
    modifies tree
    ensures d == |old(tree.nodes)|
    ensures tree.nodes == old(tree.nodes) + [Node(ArticleDetail(article), [], None, None, None)]
    ensures old(tree.Valid()) ==> tree.Valid() && Detached(tree.nodes, d)
  {
    d := tree.Create(ArticleDetail(article));
  }

  /** `start()`: a new detail screen for the article becomes the root and is pushed. */
  method Start(tree: Arena, nav: NavigationController, d: CoordId)
    requires d < |tree.nodes| && tree.nodes[d].kind.ArticleDetail?
    modifies tree, nav
    ensures |tree.nodes| == |old(tree.nodes)|
    ensures tree.nodes[d].root.Some? && fresh(tree.nodes[d].root.value)
    ensures tree.nodes[d].root.value.content == ArticleDetailScreen(old(tree.nodes[d].kind).article)
    ensures tree.nodes == old(tree.nodes)[d := old(tree.nodes)[d].(root := tree.nodes[d].root)]
    ensures nav.viewControllers == old(nav.viewControllers) + [tree.nodes[d].root.value]
    ensures nav.delegate == old(nav.delegate)
    ensures KindsKept(old(tree.nodes), tree.nodes)
    ensures old(tree.Valid()) ==> tree.Valid()
  {
    var detailVC := new Screen(ArticleDetailScreen(tree.nodes[d].kind.article));
    tree.SetRoot(d, detailVC);
    nav.PushViewController(detailVC);
  }

  /** `finish()`: `parentCoordinator?.childDidFinish(self)`. */
  method Finish(tree: Arena, d: CoordId)
    requires d < |tree.nodes| && tree.nodes[d].kind.ArticleDetail? && ParentTyped(tree.nodes, d)
    modifies tree
    ensures tree.nodes == Finished(old(tree.nodes), d)
    ensures old(tree.Valid()) ==> tree.Valid()
    ensures old(tree.Valid()) && old(tree.nodes[d].parent).Some? ==> Detached(tree.nodes, d)
  {
    if tree.Valid() && tree.nodes[d].parent.Some? {
      FinishDetaches(tree.nodes, d);
    }
    match tree.nodes[d].parent {
      case None =>
      case Some(p) => tree.ChildDidFinish(p, d);
    }
  }
}
