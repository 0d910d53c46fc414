/**
 * ArticleListCoordinator: shows the article list as the whole stack and
 * forwards a selection to its delegate. As a ParentCoordinator its
 * `childDidFinish` is `BaseCoordinator.Arena.ChildDidFinish`.
 */
module ArticleListCoordinator {
  import opened Wrappers
  import opened Coordinator
  import opened Navigation
  import opened BaseCoordinator

  /** `start()`: a new list screen becomes the root and replaces the stack. */
  method Start(tree: Arena, nav: NavigationController, l: CoordId)
    requires l < |tree.nodes| && tree.nodes[l].kind.ArticleList?
    modifies tree, nav
    ensures |tree.nodes| == |old(tree.nodes)|
    ensures tree.nodes[l].root.Some? && fresh(tree.nodes[l].root.value)
    ensures tree.nodes[l].root.value.content == ArticleListScreen
    ensures tree.nodes == old(tree.nodes)[l := old(tree.nodes)[l].(root := tree.nodes[l].root)]
    ensures nav.viewControllers == [tree.nodes[l].root.value]
    ensures nav.delegate == old(nav.delegate)
    ensures KindsKept(old(tree.nodes), tree.nodes)
    ensures old(tree.Valid()) ==> tree.Valid()
  {
    var listVC := new Screen(ArticleListScreen);
    tree.SetRoot(l, listVC);
    nav.SetViewControllers([listVC]);
  }

  /** A call `delegate.coordinator(_:didSelect:)`: which delegate, from which list, which article. */
  datatype Selection = Selection(delegate: CoordId, coordinator: CoordId, article: Article)

  /**
   * The list screen's selection closure: the delegate call it makes for
   * `article`, none when no delegate is set.
   */
  function Forwarded(nodes: seq<Node>, l: CoordId, article: Article): (call: Option<Selection>)
    requires l < |nodes|
    ensures call.None? <==> nodes[l].delegate.None?
    ensures call.Some? ==> call.value.delegate == nodes[l].delegate.value
    ensures call.Some? ==> call.value.coordinator == l && call.value.article == article
  {
    match nodes[l].delegate
    case None => None
    case Some(d) => Some(Selection(d, l, article))
  }
}
