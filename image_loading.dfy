/**
 * `UIImageView.setImage(from:placeholder:cache:session:)`: cache-aside image
 * loading. The task it starts is modelled as one sequential run.
 */
module ImageLoading {
  import opened Wrappers

  /** A decoded image; its pixels are not modelled. */
  datatype Image = Image(id: nat)

  /** A resource locator; the cache key is its `absoluteString`. */
  datatype Url = Url(absoluteString: string)

  /** What `session.data(from:)` and then `UIImage(data:)` produce. */
  datatype Response = NetworkError | Downloaded(decoded: Option<Image>)

  /** The cached image for `key`, if any. */
  function Lookup(store: map<string, Image>, key: string): (r: Option<Image>)
    ensures r.Some? <==> key in store
    ensures r.Some? ==> r.value == store[key]
  {
    if key in store then Some(store[key]) else None
  }

  /** ImageCacheProtocol, with the behaviour the tests' MockImageCache gives it. */
  class ImageCache {
    var storedImages: map<string, Image>
    /** Every key `get(forKey:)` was asked for, oldest first. */
    ghost var queried: seq<string>

    constructor ()
      ensures storedImages == map[] && queried == []
    {
      storedImages := map[];
      queried := [];
    }

    /** `get(forKey:)`. */
    method Get(key: string) returns (img: Option<Image>)
      modifies this`queried
      ensures img == Lookup(storedImages, key)
      ensures queried == old(queried) + [key]
    {
      queried := queried + [key];
      img := Lookup(storedImages, key);
    }

    /** `set(_:forKey:)`: replaces any entry for `key`. */
    method Set(img: Image, key: string)
      modifies this`storedImages
      ensures storedImages == old(storedImages)[key := img]
    {
      storedImages := storedImages[key := img];
    }

    /** `clear()`. */
    method Clear()
      modifies this`storedImages
      ensures storedImages == map[]
    {
      storedImages := map[];
    }
  }

  /**
   * `get` right after `set` yields the image; after `clear` every `get`
   * yields nothing.
   */
  method CacheContract(cache: ImageCache, key: string, other: string, img: Image)
    returns (afterSet: Option<Image>, afterClear: Option<Image>, otherAfterClear: Option<Image>)
    modifies cache
    ensures afterSet == Some(img)
    ensures afterClear == None && otherAfterClear == None
    ensures cache.storedImages == map[]
  {
    cache.Set(img, key);
    afterSet := cache.Get(key);
    cache.Clear();
    afterClear := cache.Get(key);
    otherAfterClear := cache.Get(other);
  }

  /** The URL session: it answers every request for a URL with the same response. */
  class Session {
    const respond: Url -> Response
    /** Every URL requested, oldest first. */
    ghost var requested: seq<Url>

    constructor (respond: Url -> Response)
      ensures this.respond == respond && requested == []
    {
      this.respond := respond;
      requested := [];
    }

    /** `data(from:)` followed by the decode. */
    method Data(url: Url) returns (r: Response)
      modifies this`requested
      ensures r == respond(url)
      ensures requested == old(requested) + [url]
    {
      requested := requested + [url];
      r := respond(url);
    }
  }

  /** The effect of one load: the images assigned in order, the new store, and whether it fetched. */
  datatype Run = Run(shown: seq<Option<Image>>, store: map<string, Image>, fetched: bool)

  /** The cache-aside algorithm on values. */
  function CacheAside(store: map<string, Image>, key: string, placeholder: Option<Image>, response: Response): (run: Run)
    ensures |run.shown| >= 1 && run.shown[0] == placeholder
    ensures run.fetched <==> key !in store
  {
    if key in store then Run([placeholder, Some(store[key])], store, false)
    else match response
      case NetworkError => Run([placeholder], store, true)
      case Downloaded(None) => Run([placeholder], store, true)
      case Downloaded(Some(img)) => Run([placeholder, Some(img)], store[key := img], true)
  }

  /** The image a view shows once the load is over. */
  function Final(run: Run): (r: Option<Image>)
    requires |run.shown| >= 1
    ensures r in run.shown
  {
    run.shown[|run.shown| - 1]
  }

  /** A hit shows the cached image, leaves the cache alone and does not fetch. */
  lemma HitShowsCached(store: map<string, Image>, key: string, placeholder: Option<Image>, response: Response)
    requires key in store
    ensures var run := CacheAside(store, key, placeholder, response);
      Final(run) == Some(store[key]) && run.store == store && !run.fetched
  {
  }

  /** A miss and a decoded download store the image under the key, change no other key, and show it. */
  lemma MissStoresDownload(store: map<string, Image>, key: string, placeholder: Option<Image>, img: Image)
    requires key !in store
    ensures var run := CacheAside(store, key, placeholder, Downloaded(Some(img)));
      && Final(run) == Some(img)
      && run.store.Keys == store.Keys + {key}
      && run.store[key] == img
      && (forall k :: k in store ==> run.store[k] == store[k])
  {
  }

  /** A miss followed by a network error or an undecodable body leaves the placeholder and the cache. */
  lemma FailureKeepsPlaceholder(store: map<string, Image>, key: string, placeholder: Option<Image>, response: Response)
    requires key !in store
    requires response.NetworkError? || response.decoded.None?
    ensures var run := CacheAside(store, key, placeholder, response);
      Final(run) == placeholder && run.shown == [placeholder] && run.store == store
  {
  }

  /** A second load of a key that the first load downloaded is a hit on the same image, without a fetch. */
  lemma SecondLoadHits(store: map<string, Image>, key: string, first: Option<Image>, second: Option<Image>,
                       img: Image, response: Response)
    requires key !in store
    ensures var again := CacheAside(CacheAside(store, key, first, Downloaded(Some(img))).store, key, second, response);
      Final(again) == Some(img) && !again.fetched
  {
  }

  class ImageView {
    var image: Option<Image>
    /** Every value assigned to `image`, oldest first. */
    ghost var history: seq<Option<Image>>

    constructor ()
      ensures image == None && history == []
    {
      image := None;
      history := [];
    }

    /**
     * `setImage(from:placeholder:cache:session:)`: show the placeholder, then
     * the cached image on a hit, or else the downloaded image after storing
     * it; a failed download or decode leaves the placeholder.
     */
    method SetImage(url: Url, placeholder: Option<Image>, cache: ImageCache, session: Session)
      modifies this, cache, session
      ensures var run := CacheAside(old(cache.storedImages), url.absoluteString, placeholder, session.respond(url));
        && history == old(history) + run.shown
        && image == Final(run)
        && cache.storedImages == run.store
        && session.requested == old(session.requested) + (if run.fetched then [url] else [])
      ensures cache.queried == old(cache.queried) + [url.absoluteString]
    {
      image := placeholder;
      history := history + [placeholder];

      var cached := cache.Get(url.absoluteString);
      if cached.Some? {
        image := cached;
        history := history + [cached];
        return;
      }

      var response := session.Data(url);
      match response {
        case NetworkError =>
        case Downloaded(decoded) =>
          if decoded.Some? {
            cache.Set(decoded.value, url.absoluteString);
            image := decoded;
            history := history + [decoded];
          }
      }
    }
  }

  /** The load scenario: an empty cache, one load that downloads, a second load that hits. */
  method LoadTwiceScenario(img: Image, placeholder: Image)
  {
    var url := Url("https://x/img.png");
    var cache := new ImageCache();
    var session := new Session(u => Downloaded(Some(img)));
    var view := new ImageView();
    view.SetImage(url, Some(placeholder), cache, session);
    assert view.history == [Some(placeholder), Some(img)];
    assert session.requested == [url];
    var other := new ImageView();
    other.SetImage(url, Some(placeholder), cache, session);
    assert other.image == Some(img);
    assert session.requested == [url];
  }
}
