/**
 * AppCoordinator: the root of the coordinator tree. It starts the list flow,
 * adds a detail flow for each selected article, removes finished children,
 * and, as the navigation controller's delegate, detects a pop from the stack
 * and finishes the coordinator that owned the screen that disappeared.
 */
module AppCoordinator {
  import opened Wrappers
  import opened Coordinator
  import opened OwnerSearch
  import opened Navigation
  import opened BaseCoordinator
  import ArticleListCoordinator
  import ArticleDetailCoordinator

  /** `init(navigationController:)`: a new AppCoordinator installed as the delegate. */
  method Create(tree: Arena, nav: NavigationController) returns (app: CoordId)
    modifies tree, nav
    ensures app == |old(tree.nodes)|
    ensures tree.nodes == old(tree.nodes) + [Node(App, [], None, None, None)]
    ensures nav.delegate == Some(app)
    ensures nav.viewControllers == old(nav.viewControllers)
    ensures old(tree.Valid()) ==> tree.Valid()
  {
    app := tree.Create(App);
    nav.delegate := Some(app);
  }

  /**
   * `start()`: a new list coordinator, with this coordinator as its delegate,
   * is appended as a child and started.
   */
  method Start(tree: Arena, nav: NavigationController, app: CoordId)
    requires app < |tree.nodes| && tree.nodes[app].kind.App?
    modifies tree, nav
    ensures |tree.nodes| == |old(tree.nodes)| + 1
    ensures var l := |old(tree.nodes)|;
      && tree.nodes[app] == old(tree.nodes[app]).(children := old(tree.nodes[app].children) + [l])
      && tree.nodes[l].kind == ArticleList
      && tree.nodes[l].children == []
      && tree.nodes[l].parent == Some(app)
      && tree.nodes[l].delegate == Some(app)
      && tree.nodes[l].root.Some? && fresh(tree.nodes[l].root.value)
      && tree.nodes[l].root.value.content == ArticleListScreen
      && nav.viewControllers == [tree.nodes[l].root.value]
    ensures forall n :: 0 <= n < |old(tree.nodes)| && n != app ==> tree.nodes[n] == old(tree.nodes[n])
    ensures nav.delegate == old(nav.delegate)
    ensures old(tree.Valid()) ==> tree.Valid()
  {
    var l := tree.Create(ArticleList);
    tree.SetDelegate(l, app);
    tree.AddChild(app, l);
    ArticleListCoordinator.Start(tree, nav, l);
  }

  /**
   * `coordinator(_:didSelect:)`: a new detail coordinator for `article` is
   * appended as a child and started; the existing children are unchanged.
   */
  method DidSelect(tree: Arena, nav: NavigationController, app: CoordId, article: Article)
    requires app < |tree.nodes| && tree.nodes[app].kind.App?
    modifies tree, nav
    ensures |tree.nodes| == |old(tree.nodes)| + 1
    ensures var d := |old(tree.nodes)|;
      && tree.nodes[app] == old(tree.nodes[app]).(children := old(tree.nodes[app].children) + [d])
      && tree.nodes[d].kind == ArticleDetail(article)
      && tree.nodes[d].children == []
      && tree.nodes[d].parent == Some(app)
      && tree.nodes[d].delegate == None
      && tree.nodes[d].root.Some? && fresh(tree.nodes[d].root.value)
      && tree.nodes[d].root.value.content == ArticleDetailScreen(article)
      && nav.viewControllers == old(nav.viewControllers) + [tree.nodes[d].root.value]
    ensures forall n :: 0 <= n < |old(tree.nodes)| && n != app ==> tree.nodes[n] == old(tree.nodes[n])
    ensures nav.delegate == old(nav.delegate)
    ensures old(tree.Valid()) ==> tree.Valid()
  {
    var d := ArticleDetailCoordinator.Create(tree, article);
    tree.AddChild(app, d);
    ArticleDetailCoordinator.Start(tree, nav, d);
  }

  /**
   * A tap on an article of list coordinator `l`'s screen: the closure forwards
   * it to the delegate, which handles it as `DidSelect`.
   */
  method SelectArticle(tree: Arena, nav: NavigationController, l: CoordId, article: Article)
    requires l < |tree.nodes| && WellFormed(tree.nodes)
    modifies tree, nav
    ensures old(tree.nodes[l].delegate).None? ==>
      tree.nodes == old(tree.nodes) && nav.viewControllers == old(nav.viewControllers)
    ensures old(tree.nodes[l].delegate).Some? ==>
      var app := old(tree.nodes[l].delegate).value;
      var d := |old(tree.nodes)|;
      && |tree.nodes| == d + 1
      && tree.nodes[app] == old(tree.nodes[app]).(children := old(tree.nodes[app].children) + [d])
      && tree.nodes[d].kind == ArticleDetail(article)
      && tree.nodes[d].children == []
      && tree.nodes[d].parent == Some(app)
      && tree.nodes[d].delegate == None
      && tree.nodes[d].root.Some? && fresh(tree.nodes[d].root.value)
      && tree.nodes[d].root.value.content == ArticleDetailScreen(article)
      && nav.viewControllers == old(nav.viewControllers) + [tree.nodes[d].root.value]
      && forall n :: 0 <= n < d && n != app ==> tree.nodes[n] == old(tree.nodes[n])
    ensures nav.delegate == old(nav.delegate)
    ensures old(tree.Valid()) ==> tree.Valid()
  {
    var call := ArticleListCoordinator.Forwarded(tree.nodes, l, article);
    if call.Some? {
      DidSelect(tree, nav, call.value.delegate, call.value.article);
    }
  }

  /**
   * The arena after the did-show event: when the "from" screen has left the
   * stack, the coordinator owning it (searched below `app`) is finished.
   */
  function Reconciled(nodes: seq<Node>, app: CoordId, from: Option<Screen>, stack: seq<Screen>): (r: seq<Node>)
    requires WellFormed(nodes) && app < |nodes|
    ensures |r| == |nodes|
  {
    if from.None? || from.value in stack then nodes
    else match FindIn(nodes, from.value, nodes[app].children, app + 1)
      case None => nodes
      case Some(c) => Finished(nodes, c)
  }

  /** `navigationController(_:didShow:animated:)`: pop detection. */
  method DidShow(tree: Arena, nav: NavigationController, app: CoordId, from: Option<Screen>)
    requires app < |tree.nodes| && WellFormed(tree.nodes)
    modifies tree
    ensures tree.nodes == Reconciled(old(tree.nodes), app, from, nav.viewControllers)
    ensures old(tree.Valid()) ==> tree.Valid()
  {
    if from.None? || from.value in nav.viewControllers {
      return;
    }
    var popped := FindIn(tree.nodes, from.value, tree.nodes[app].children, app + 1);
    if popped.Some? {
      tree.Finish(popped.value);
    }
  }

  /** A push (or no transition at all) changes nothing. */
  lemma NoPopNoChange(nodes: seq<Node>, app: CoordId, from: Option<Screen>, stack: seq<Screen>)
    requires WellFormed(nodes) && app < |nodes|
    requires from.None? || from.value in stack
    ensures Reconciled(nodes, app, from, stack) == nodes
  {
  }

  /** A popped screen that no coordinator below `app` owns changes nothing. */
  lemma UnownedPopNoChange(nodes: seq<Node>, app: CoordId, vc: Screen, stack: seq<Screen>)
    requires WellFormed(nodes) && app < |nodes|
    requires var order := PreOrder(nodes, nodes[app].children, app + 1);
      forall i :: 0 <= i < |order| ==> nodes[order[i]].root != Some(vc)
    ensures Reconciled(nodes, app, Some(vc), stack) == nodes
  {
    FindNoneIffUnowned(nodes, vc, nodes[app].children, app + 1);
  }

  /** A popped screen owned by a coordinator `c` below `app` makes the did-show event finish `c`. */
  lemma PopFindsOwner(nodes: seq<Node>, app: CoordId, vc: Screen, stack: seq<Screen>, c: CoordId)
    requires Valid(nodes) && app < |nodes|
    requires vc !in stack
    requires c in PreOrder(nodes, nodes[app].children, app + 1)
    requires nodes[c].root == Some(vc)
    ensures c < |nodes| && ParentTyped(nodes, c)
    ensures Reconciled(nodes, app, Some(vc), stack) == Finished(nodes, c)
  {
    var list := nodes[app].children;
    FindNoneIffUnowned(nodes, vc, list, app + 1);
    var found := FindIn(nodes, vc, list, app + 1);
    assert found.Some?;
    assert nodes[found.value].root == Some(vc);
    assert c < |nodes|;
    assert found.value == c;
    assert ParentTyped(nodes, c);
  }

  /**
   * When screen `vc`, owned by coordinator `c` with parent `p`, leaves the
   * stack, `c` leaves `p`'s children (and every other list), `p`'s other
   * children keep their order, and no other coordinator changes.
   */
  lemma PopFinishesOwner(nodes: seq<Node>, app: CoordId, vc: Screen, stack: seq<Screen>, c: CoordId, p: CoordId)
    requires Valid(nodes) && app < |nodes|
    requires vc !in stack
    requires c in PreOrder(nodes, nodes[app].children, app + 1)
    requires nodes[c].root == Some(vc) && nodes[c].parent == Some(p)
    ensures var r := Reconciled(nodes, app, Some(vc), stack);
      && p < |r|
      && r[p].children == Without(nodes[p].children, c)
      && Detached(r, c)
      && (forall n :: 0 <= n < |nodes| && n != p ==> r[n] == nodes[n])
      && Valid(r)
  {
    PopFindsOwner(nodes, app, vc, stack, c);
    FinishWithParent(nodes, c, p);
    FinishDetaches(nodes, c);
  }

  /**
   * On a concrete list: if `p`'s children were `before + [c] + after`, they
   * are `before + after` once `c`'s screen has been popped.
   */
  lemma PopClosesGap(nodes: seq<Node>, app: CoordId, vc: Screen, stack: seq<Screen>, c: CoordId, p: CoordId,
                     before: seq<CoordId>, after: seq<CoordId>)
    requires Valid(nodes) && app < |nodes| && p < |nodes|
    requires vc !in stack
    requires c in PreOrder(nodes, nodes[app].children, app + 1)
    requires nodes[c].root == Some(vc) && nodes[c].parent == Some(p)
    requires nodes[p].children == before + [c] + after
    ensures Reconciled(nodes, app, Some(vc), stack)[p].children == before + after
  {
    PopFindsOwner(nodes, app, vc, stack, c);
    FinishWithParent(nodes, c, p);
    assert NoDuplicates(nodes[p].children);
    var i := |before|;
    assert nodes[p].children[i] == c;
    forall j | 0 <= j < |before| ensures before[j] != c {
      assert nodes[p].children[j] == before[j];
    }
    forall j | 0 <= j < |after| ensures after[j] != c {
      assert nodes[p].children[i + 1 + j] == after[j];
    }
    WithoutSingle(before, after, c);
  }

  /** Reconciliation keeps the tree a tree. */
  lemma ReconcileKeepsValid(nodes: seq<Node>, app: CoordId, from: Option<Screen>, stack: seq<Screen>)
    requires Valid(nodes) && app < |nodes|
    ensures Valid(Reconciled(nodes, app, from, stack))
  {
    if from.Some? && from.value !in stack {
      var found := FindIn(nodes, from.value, nodes[app].children, app + 1);
      if found.Some? {
        assert ParentTyped(nodes, found.value);
        if nodes[found.value].parent.Some? {
          FinishDetaches(nodes, found.value);
        }
      }
    }
  }

  /**
   * Launch, then select `article` in the list: two children, the list flow
   * and a detail flow for that article whose screen is on top of the stack.
   */
  method LaunchAndSelect(article: Article)
    returns (tree: Arena, nav: NavigationController, app: CoordId, list: CoordId, detail: CoordId)
    ensures fresh(tree) && fresh(nav) && tree.Valid()
    ensures app < |tree.nodes| && list < |tree.nodes| && detail < |tree.nodes|
    ensures tree.nodes[app].children == [list, detail]
    ensures tree.nodes[list].kind == ArticleList && tree.nodes[list].parent == Some(app)
    ensures tree.nodes[detail].kind == ArticleDetail(article) && tree.nodes[detail].parent == Some(app)
    ensures tree.nodes[list].root.Some? && tree.nodes[detail].root.Some?
    ensures tree.nodes[detail].root.value.content == ArticleDetailScreen(article)
    ensures nav.viewControllers == [tree.nodes[list].root.value, tree.nodes[detail].root.value]
    ensures nav.delegate == Some(app)
  {
    tree := new Arena();
    nav := new NavigationController();
    app := Create(tree, nav);
    Start(tree, nav, app);
    list := tree.nodes[app].children[0];
    ghost var listVC := tree.nodes[list].root.value;
    SelectArticle(tree, nav, list, article);
    detail := tree.nodes[app].children[1];
    assert tree.nodes[list].root == Some(listVC);
  }

  /**
   * The back gesture on a launched app with one selection: popping the
   * detail screen leaves the AppCoordinator with only the list flow.
   */
  lemma BackGestureLeavesList(nodes: seq<Node>, app: CoordId, list: CoordId, detail: CoordId,
                              listVC: Screen, detailVC: Screen)
    requires Valid(nodes) && app < |nodes| && nodes[app].children == [list, detail]
    requires detail < |nodes| && nodes[detail].root == Some(detailVC) && nodes[detail].parent == Some(app)
    requires listVC != detailVC
    ensures Reconciled(nodes, app, Some(detailVC), [listVC])[app].children == [list]
    ensures Detached(Reconciled(nodes, app, Some(detailVC), [listVC]), detail)
  {
    assert nodes[app].children[1] == detail;
    assert detail in PreOrder(nodes, nodes[app].children, app + 1);
    assert nodes[app].children == [list] + [detail] + [];
    PopClosesGap(nodes, app, detailVC, [listVC], detail, app, [list], []);
    PopFinishesOwner(nodes, app, detailVC, [listVC], detail, app);
  }

  /**
   * The back-gesture scenario: after selecting article 7 the platform pops the
   * detail screen and reports it as the "from" screen; only the list flow is
   * left and the detail flow is in no child list.
   */
  method BackGestureScenario()
  {
    var tree, nav, app, list, detail := LaunchAndSelect(Article(7));
    var listVC := tree.nodes[list].root.value;
    var detailVC := tree.nodes[detail].root.value;
    assert listVC != detailVC by {
      assert tree.nodes[list].root != tree.nodes[detail].root;
    }

    nav.SetViewControllers([listVC]);
    BackGestureLeavesList(tree.nodes, app, list, detail, listVC, detailVC);
    DidShow(tree, nav, app, Some(detailVC));
    assert tree.nodes[app].children == [list];
    assert Detached(tree.nodes, detail);
  }
}
