# NYTimesUIKit coordinators and image cache, in Dafny

This project models two parts of the NYTimesUIKit client.

1. **The coordinator tree.** It owns the app's navigation flow.
   - Every coordinator holds an ordered list of child coordinators, a weak
     link to its parent and an optional root view controller.
   - `addChild`, `removeChild` and `finish` edit the tree.
   - The `AppCoordinator` starts one article-list flow. It adds one
     article-detail flow for each selected article.
   - As the navigation controller's delegate, it detects a pop. When the
     screen that was shown ("from") has left the stack, it searches its
     subtree depth-first for the coordinator whose root screen that was, and
     finishes that coordinator.
2. **The cache-aside image loader**, `UIImageView.setImage(from:placeholder:cache:session:)`.
   - It shows the placeholder, then looks the URL's `absoluteString` up in the
     cache.
   - On a hit it shows the cached image.
   - On a miss it downloads the image. When the download decodes, it stores
     the image and then shows it.
   - A network error or a decode failure leaves the placeholder.

## How the model is built

- **Arena.** Coordinators are the entries of a `seq<Node>` held by the class
  `BaseCoordinator.Arena`. A coordinator's identity is its index.
  - A child list holds indices; these are the owning edges.
  - The parent link and the list coordinator's `delegate` are
    `Option<CoordId>`, so a back-link is never an owning reference.
  - The class of a coordinator (`Kind`) decides whether it is a
    `ParentCoordinator`: the App and ArticleList coordinators are.
  - `Kind` also carries the article a detail coordinator was built with.
- **Screens.** View controllers are a Dafny class `Screen`. They are compared
  by identity, as `===` does, and each `start()` allocates a fresh one.
- **Navigation controller.** `Navigation.NavigationController` holds the
  back-stack as a `seq<Screen>` and the installed delegate.
- **Tree invariant** (`Coordinator.Valid`):
  - A child is always created after its owner (`Ordered`). This is why the
    depth-first search terminates. The source itself does not rule out a
    cycle: after `a.addChild(b); b.addChild(a)` its `findCoordinator` would
    recurse without end. The model assumes the creation order that every
    caller in the source follows, and so does not cover a cyclic child graph.
  - Parent links point at ParentCoordinators, and delegates point at
    AppCoordinators (`Typed`).
  - A resident child's parent link is `self as? ParentCoordinator` of the
    coordinator whose list holds it (`BackLinks`). That is the holder itself
    when the holder is an App or ArticleList coordinator, and none when it is
    a plain base or detail coordinator.
  - A coordinator sits in at most one list, at most once (`SoleOwner`).
  - A screen is the root of at most one coordinator (`UniqueRoots`).
- **Methods and the functions that specify them.** Each state-changing method ensures
  that the new arena equals a pure function of the old one
  (`WithChild`, `WithoutChild`, `Finished`, `Reconciled`). The properties are
  proved as lemmas about those functions.
- **Depth-first search.** `OwnerSearch.FindIn` is the search exactly as
  written. It is proved equal to the first owner in the pre-order listing
  `PreOrder`.
- **Scenario methods.**
  - `AppCoordinator.BackGestureScenario`: launch, select article 7, then the
    platform pops the detail screen. Only the list flow is left.
  - `ImageLoading.LoadTwiceScenario`: the first load downloads and the second
    load hits the cache without a request.
- **Image loader.** The loader is one sequential run.
  - Ghost logs record every value assigned to `image`, every key the cache was
    asked for and every URL requested.
  - The method is tied to the pure `CacheAside` function, and the cases are
    lemmas about it.
  - The session's answer for a URL is a constructor parameter of `Session`
    (network error, or data that does or does not decode).

Finishing a coordinator keeps that coordinator's own state:

- `finish()` only asks the parent to remove the child.
- The finished coordinator keeps its own children and its weak parent link,
  so a non-nil parent link need not name a coordinator that lists the child.
- `Coordinator.FinishKeepsOwnState` states this.
- The tree invariant therefore asks only coordinators that are still resident
  in a list to link back.

## Model

| member | source | states |
|---|---|---|
| `Coordinator.Without` | NYTimesUIKit/Coordinators/Coordinator.swift:40-42 | after `removeChild(c)` no entry is `c`; an element survives exactly when it was there and is not `c`; the list never grows |
| `Coordinator.WithoutAbsent` | NYTimesUIKit/Coordinators/Coordinator.swift:41 | removing a coordinator that is not in the list leaves the list unchanged |
| `Coordinator.WithoutConcat` | NYTimesUIKit/Coordinators/Coordinator.swift:41 | the filter works element by element, so the survivors keep their relative order |
| `Coordinator.WithoutSingle` | NYTimesUIKit/Coordinators/BaseCoordinator.swift:34-36 | removing a coordinator that occurs once from `a + [c] + b` gives exactly `a + b` |
| `Coordinator.WithoutKeepsCount` | NYTimesUIKit/Coordinators/BaseCoordinator.swift:35 | every other coordinator keeps its number of occurrences |
| `Coordinator.WithoutNoDuplicates` | NYTimesUIKit/Coordinators/BaseCoordinator.swift:34-36 | a list without repetitions stays without repetitions |
| `Coordinator.LinkTo` | NYTimesUIKit/Coordinators/Coordinator.swift:37 | `self as? ParentCoordinator`: the link is the callee exactly when the callee is a ParentCoordinator, and none otherwise |
| `Coordinator.WithChild` | NYTimesUIKit/Coordinators/Coordinator.swift:35-38 | `addChild(c)`: the callee's list is the old list plus `c` at the end; `c`'s parent is `LinkTo` of the callee; no other list, link, root or delegate changes |
| `Coordinator.WithoutChild` | NYTimesUIKit/Coordinators/Coordinator.swift:40-42 | `removeChild(c)`: only the callee's list changes, to the filtered list, and `c` is not in it |
| `Coordinator.Finished` | NYTimesUIKit/Coordinators/Coordinator.swift:31-33 | `finish()` on the arena; its own contract states only that no coordinator is added or removed, and its behaviour is given by `FinishWithoutParent`, `FinishWithParent` and `FinishDetaches` |
| `Coordinator.FinishWithoutParent` | NYTimesUIKit/Coordinators/Coordinator.swift:31-33 | `finish()` without a parent changes nothing |
| `Coordinator.FinishWithParent` | NYTimesUIKit/Coordinators/Coordinator.swift:31-33 | `finish()` with parent `p` is `p.removeChild(self)`: `self` leaves `p`'s list and no other coordinator changes |
| `Coordinator.FinishKeepsOwnState` | NYTimesUIKit/Coordinators/BaseCoordinator.swift:25-27 | `finish()` does not touch the finished coordinator: it keeps its children and its parent link, but is gone from the parent's list |
| `Coordinator.NewIsDetached` | NYTimesUIKit/Coordinators/BaseCoordinator.swift:13 | a freshly constructed coordinator is in no child list |
| `Coordinator.NewKeepsWellFormed` | NYTimesUIKit/Coordinators/BaseCoordinator.swift:13-19 | a new coordinator with no children and no parent keeps ids ordered and links typed |
| `Coordinator.NewKeepsValid` | NYTimesUIKit/Coordinators/BaseCoordinator.swift:13-19 | a new coordinator, with no children, no parent and no root, keeps the tree a tree and is in no list |
| `Coordinator.AddChildKeepsWellFormed` | NYTimesUIKit/Coordinators/BaseCoordinator.swift:29-32 | adding a child created after the callee keeps ids ordered, and the new parent link is a ParentCoordinator or none |
| `Coordinator.AddChildKeepsBackLinks` | NYTimesUIKit/Coordinators/BaseCoordinator.swift:29-32 | after adding a detached child, every resident child still links back to the coordinator whose list holds it |
| `Coordinator.AddChildKeepsSoleOwner` | NYTimesUIKit/Coordinators/BaseCoordinator.swift:30 | after adding a detached child, every coordinator is in at most one list, at most once |
| `Coordinator.AddChildKeepsValid` | NYTimesUIKit/Coordinators/BaseCoordinator.swift:29-32 | adding a detached coordinator created after the callee keeps the tree invariant |
| `Coordinator.RemoveChildKeepsValid` | NYTimesUIKit/Coordinators/BaseCoordinator.swift:34-36 | `removeChild` keeps the tree invariant |
| `Coordinator.SetRootKeepsValid` | NYTimesUIKit/Coordinators/ArticleListCoordinator.swift:33 | assigning an unowned screen as `rootViewController` keeps the tree invariant |
| `Coordinator.SetDelegateKeepsValid` | NYTimesUIKit/Coordinators/ArticleListCoordinator.swift:18 | pointing a list coordinator's weak delegate at an AppCoordinator keeps the tree invariant |
| `Coordinator.FinishDetaches` | NYTimesUIKit/Coordinators/Coordinator.swift:31-33 | after `finish()` with a parent, the tree invariant holds and the coordinator is in no child list at all |
| `Coordinator.ParentLinkIsNotOwning` | NYTimesUIKit/Coordinators/BaseCoordinator.swift:14 | a parent link names a ParentCoordinator that is not among the child's own children, and it is the only coordinator whose list can hold the child |
| `BaseCoordinator.Arena.constructor` | NYTimesUIKit/Coordinators/BaseCoordinator.swift:11-13 | the arena starts with no coordinators |
| `BaseCoordinator.Arena.Create` | NYTimesUIKit/Coordinators/BaseCoordinator.swift:17-19 | `init`: a new coordinator of the given class, with no children, no parent and no root, is appended; the invariant is kept and the new coordinator is detached |
| `BaseCoordinator.Arena.AddChild` | NYTimesUIKit/Coordinators/BaseCoordinator.swift:29-32 | the new arena is `WithChild` of the old one; the invariant is kept for a detached, younger child |
| `BaseCoordinator.Arena.RemoveChild` | NYTimesUIKit/Coordinators/BaseCoordinator.swift:34-36 | the new arena is `WithoutChild` of the old one, and the invariant is kept |
| `BaseCoordinator.Arena.ChildDidFinish` | NYTimesUIKit/Coordinators/AppCoordinator.swift:30-32 | the App and ArticleList conformers (the latter at ArticleListCoordinator.swift:39-43) both answer `childDidFinish(c)` with `removeChild(c)` |
| `BaseCoordinator.Arena.Finish` | NYTimesUIKit/Coordinators/BaseCoordinator.swift:25-27 | the new arena is `Finished` of the old one; the invariant is kept; with a parent, the coordinator ends up in no list |
| `BaseCoordinator.Arena.SetRoot` | NYTimesUIKit/Coordinators/Coordinator.swift:23 | only the coordinator's root changes |
| `BaseCoordinator.Arena.SetDelegate` | NYTimesUIKit/Coordinators/ArticleListCoordinator.swift:18 | only the list coordinator's delegate changes |
| `Navigation.NavigationController.constructor` | NYTimesUIKit/Coordinators/BaseCoordinator.swift:12 | the navigation controller starts with an empty stack and no delegate |
| `Navigation.NavigationController.PushViewController` | NYTimesUIKit/Coordinators/ArticleDetailCoordinator.swift:27 | pushing appends exactly that screen on top and keeps the delegate |
| `Navigation.NavigationController.SetViewControllers` | NYTimesUIKit/Coordinators/ArticleListCoordinator.swift:35 | the stack becomes exactly the given screens, and the delegate is kept |
| `Coordinator.Screen.constructor` | NYTimesUIKit/Coordinators/ArticleListCoordinator.swift:28-31 | a new view controller with the given content |
| `ArticleListCoordinator.Start` | NYTimesUIKit/Coordinators/ArticleListCoordinator.swift:21-36 | the root is a new list screen, the stack is exactly `[root]`, and nothing else changes (so neither does the child list); the invariant is kept |
| `ArticleListCoordinator.Forwarded` | NYTimesUIKit/Coordinators/ArticleListCoordinator.swift:28-31 | the selection closure calls the delegate exactly when one is set, with this coordinator and the same article |
| `ArticleDetailCoordinator.Create` | NYTimesUIKit/Coordinators/ArticleDetailCoordinator.swift:14-17 | a new detail coordinator holding the article, with no children, parent or root |
| `ArticleDetailCoordinator.Start` | NYTimesUIKit/Coordinators/ArticleDetailCoordinator.swift:20-28 | the root is a new screen for the stored article, pushed on top of the unchanged earlier stack; the children, the parent link and the article stay |
| `ArticleDetailCoordinator.Finish` | NYTimesUIKit/Coordinators/ArticleDetailCoordinator.swift:30-32 | the override is the base `finish()`: the new arena is `Finished` of the old one |
| `OwnerSearch.FindIn` | NYTimesUIKit/Coordinators/AppCoordinator.swift:67-80 | a found coordinator is a coordinator of the arena created after the searched lists' owner, and has the screen as its root; that it is the first owner in the subtrees is `FindIsFirstInPreOrder` |
| `OwnerSearch.PreOrder` | NYTimesUIKit/Coordinators/AppCoordinator.swift:71-77 | the visiting order: each coordinator, then its subtree, then the later siblings; every listed coordinator occurs in it |
| `OwnerSearch.FirstOwner` | NYTimesUIKit/Coordinators/AppCoordinator.swift:71-74 | a linear scan: none exactly when no listed coordinator has the screen as root, otherwise the first one that does |
| `OwnerSearch.FirstOwnerConcat` | NYTimesUIKit/Coordinators/AppCoordinator.swift:71-79 | scanning a concatenation finds the first part's owner, if it has one, before the second part's |
| `OwnerSearch.FindIsFirstInPreOrder` | NYTimesUIKit/Coordinators/AppCoordinator.swift:67-80 | the search returns exactly the first owner of the screen in pre-order |
| `OwnerSearch.FindNoneIffUnowned` | NYTimesUIKit/Coordinators/AppCoordinator.swift:79 | the search finds nothing exactly when no coordinator of the subtrees owns the screen |
| `OwnerSearch.FindReturnsFirstOwner` | NYTimesUIKit/Coordinators/AppCoordinator.swift:72-76 | a found coordinator owns the screen, and every coordinator visited before it (a node before its descendants, earlier siblings before later ones) does not |
| `OwnerSearch.SearchSkipsOwner` | NYTimesUIKit/Coordinators/AppCoordinator.swift:62 | searching a coordinator's children never visits that coordinator itself, so the AppCoordinator is never examined |
| `AppCoordinator.Create` | NYTimesUIKit/Coordinators/AppCoordinator.swift:13-16 | `init` installs the new AppCoordinator as the navigation controller's delegate and leaves the stack alone |
| `AppCoordinator.Start` | NYTimesUIKit/Coordinators/AppCoordinator.swift:18-24 | exactly one new child, a list coordinator, is appended; its parent and its delegate are the AppCoordinator; its new screen is the whole stack |
| `AppCoordinator.DidSelect` | NYTimesUIKit/Coordinators/AppCoordinator.swift:39-46 | exactly one detail coordinator carrying the article is appended, with no children, no delegate and the AppCoordinator as parent; its screen is pushed; only the AppCoordinator's child list changes among the existing coordinators |
| `AppCoordinator.SelectArticle` | NYTimesUIKit/Coordinators/ArticleListCoordinator.swift:28-31 | a tap on a list without a delegate changes nothing; with one, the delegate's child list gains one new detail flow for that article (no children, no delegate, the delegate as parent, its screen pushed) and no other field of any existing coordinator changes |
| `AppCoordinator.Reconciled` | NYTimesUIKit/Coordinators/AppCoordinator.swift:52-65 | the arena after a did-show event keeps every coordinator; its behaviour is stated by the lemmas below |
| `AppCoordinator.DidShow` | NYTimesUIKit/Coordinators/AppCoordinator.swift:52-65 | the new arena is `Reconciled` of the old one, and the invariant is kept |
| `AppCoordinator.NoPopNoChange` | NYTimesUIKit/Coordinators/AppCoordinator.swift:57-60 | with no "from" screen, or one still on the stack (a push), nothing changes |
| `AppCoordinator.UnownedPopNoChange` | NYTimesUIKit/Coordinators/AppCoordinator.swift:62-64 | a popped screen that no coordinator below the AppCoordinator owns changes nothing |
| `AppCoordinator.PopFindsOwner` | NYTimesUIKit/Coordinators/AppCoordinator.swift:57-64 | when the popped screen belongs to a coordinator below the AppCoordinator, the did-show event finishes exactly that coordinator |
| `AppCoordinator.PopFinishesOwner` | NYTimesUIKit/Coordinators/AppCoordinator.swift:62-64 | when coordinator C with parent P owns the popped screen, C leaves P's list (and every list), no other coordinator changes, and the invariant holds |
| `AppCoordinator.PopClosesGap` | NYTimesUIKit/Coordinators/AppCoordinator.swift:63 | if P's children were `before + [C] + after`, they are `before + after` after the pop |
| `AppCoordinator.ReconcileKeepsValid` | NYTimesUIKit/Coordinators/AppCoordinator.swift:52-65 | reconciliation keeps the tree a tree |
| `AppCoordinator.LaunchAndSelect` | NYTimesUIKit/Coordinators/AppCoordinator.swift:18-46 | after launch and one selection, the AppCoordinator has exactly the list flow and one detail flow for that article, whose screens make up the stack |
| `AppCoordinator.BackGestureLeavesList` | NYTimesUIKit/Coordinators/AppCoordinator.swift:52-65 | with children `[list, detail]`, popping the detail screen leaves exactly `[list]`, and the detail flow is in no list |
| `ImageLoading.Lookup` | NYTimesUIKitTests/UIImageView+ImageCacheTests.swift:41-44 | `get` finds an image exactly when the key is stored, and it is the stored image |
| `ImageLoading.ImageCache.constructor` | NYTimesUIKitTests/UIImageView+ImageCacheTests.swift:34-35 | the cache starts empty and has not been asked yet |
| `ImageLoading.ImageCache.Get` | NYTimesUIKitTests/UIImageView+ImageCacheTests.swift:41-44 | returns the stored image for the key and records the key |
| `ImageLoading.ImageCache.Set` | NYTimesUIKitTests/UIImageView+ImageCacheTests.swift:37-39 | maps the key to the image, keeping every other key |
| `ImageLoading.ImageCache.Clear` | NYTimesUIKitTests/UIImageView+ImageCacheTests.swift:46-48 | empties the store |
| `ImageLoading.CacheContract` | NYTimesUIKitTests/UIImageView+ImageCacheTests.swift:37-48 | the `get` after `set` returns the image; the `get`s after `clear`, of that key and of any other, return nothing; the store ends empty |
| `ImageLoading.Session.constructor` | NYTimesUIKit/Common/Extensions/UIImageView+ImageCache.swift:17 | the session answers with the given outcome per URL and has made no request yet |
| `ImageLoading.Session.Data` | NYTimesUIKit/Common/Extensions/UIImageView+ImageCache.swift:27-28 | returns the outcome for the URL and records the request |
| `ImageLoading.CacheAside` | NYTimesUIKit/Common/Extensions/UIImageView+ImageCache.swift:18-34 | the placeholder is always assigned first; a fetch happens exactly on a cache miss |
| `ImageLoading.Final` | NYTimesUIKit/Common/Extensions/UIImageView+ImageCache.swift:18-30 | the image a view keeps after a load is one of the values assigned to it during that load |
| `ImageLoading.HitShowsCached` | NYTimesUIKit/Common/Extensions/UIImageView+ImageCache.swift:21-24 | on a hit the final image is the cached one, the cache is unchanged and nothing is fetched |
| `ImageLoading.MissStoresDownload` | NYTimesUIKit/Common/Extensions/UIImageView+ImageCache.swift:27-30 | on a miss and a decoded download, the cache gains the key with that image, the other keys are unchanged, and the final image is that image |
| `ImageLoading.FailureKeepsPlaceholder` | NYTimesUIKit/Common/Extensions/UIImageView+ImageCache.swift:26-34 | on a miss and then a network error or a decode failure, only the placeholder is shown and the cache is unchanged |
| `ImageLoading.SecondLoadHits` | NYTimesUIKit/Common/Extensions/UIImageView+ImageCache.swift:21-30 | once a download has been stored, the next load of the same key shows it without fetching |
| `ImageLoading.ImageView.constructor` | NYTimesUIKit/Common/Extensions/UIImageView+ImageCache.swift:12 | a view with no image |
| `ImageLoading.ImageView.SetImage` | NYTimesUIKit/Common/Extensions/UIImageView+ImageCache.swift:14-36 | the images assigned, the final image, the new cache and the requests made are exactly those of `CacheAside`; the cache is asked once, with `url.absoluteString` |

## Left out

- `start()` of BaseCoordinator only traps with `fatalError`. A member nobody may call states nothing, so it has no counterpart. Every concrete coordinator's `start` is modelled.
- The `Task {}` of `setImage`, its `await` points and any interleaving with other loads are not modelled. The load is one sequential run, so the model says nothing about two loads racing for the same view.
- `URLSession` networking and `UIImage(data:)` decoding are abstracted as `Response`. `Session` answers each URL with one fixed outcome, so a session whose answers change over time is not modelled.
- The `print` of a failed download is left out. It is output only and changes no state.
- `transitionCoordinator` is not modelled. The "from" screen is an input of `AppCoordinator.DidShow`.
- Deallocation is not modelled. A weak reference that becomes nil when its target goes away is not represented, and the arena never frees a coordinator.
- NYTKit is not part of this model. `Article` is reduced to an identifier. The view models, `NYTArticlesRepository`, `NetworkMonitor` and the real `ImageCache` are omitted; the cache follows the tests' mock.
- View controllers are reduced to their identity and content. Layout, rendering and the `animated` flags are not modelled.
- BaseCoordinator.Arena.AddChild: the invariant is promised only for a child that is in no list and was created after its new parent. That is how the source uses it. Adding an already-parented child is a programmer error the source does not guard against.
- BaseCoordinator.Arena.SetRoot: the invariant is promised only when the screen is not already some coordinator's root. The source always assigns a freshly constructed screen.
- AppCoordinator.Reconciled: its own contract states only that no coordinator is added or removed. Its behaviour is stated by NoPopNoChange, UnownedPopNoChange, PopFinishesOwner, PopClosesGap and ReconcileKeepsValid.
