/** The route's `handler` (lines 58-88): resolve the category to listing pages,
    extract the stubs of every page in order, attach each article's description,
    and build the feed header. Fetching is a parameter: `listing` and `article`
    stand for the HTTP requests and the DOM queries behind them. */
module Route {
  import opened Results
  import opened Text
  import opened Links
  import opened Listing
  import opened Markup

  /** One entry of `categoryMap`: its key, the listing's path below the site root
      and its display name. */
  datatype Category = Category(key: string, path: string, name: string)

  /** `categoryMap`, in its declaration order, which is also the order of
      `Object.values`. */
  const Categories: seq<Category> := [
    Category("mto", "/3938", "教学运行管理"),
    Category("mttb", "/3939", "培养与教学建设管理"),
    Category("gi", "/zhglbgs", "综合信息"),
    Category("mpt", "/3940", "实践教学管理"),
    Category("fai", "/3941", "学院教务信息")
  ]

  const DefaultKey: string := "all"
  const TitlePrefix: string := "华理教务处 - "
  const AllName: string := "全部"

  /** The first category in `cats` with the given key. */
  function Find(cats: seq<Category>, key: string): (c: Option<Category>)
    ensures c.Some? ==> c.value in cats && c.value.key == key
    ensures c.None? <==> forall i :: 0 <= i < |cats| ==> cats[i].key != key
  {
    if cats == [] then None
    else if cats[0].key == key then Some(cats[0])
    else Find(cats[1..], key)
  }

  predicate KeysDistinct(cats: seq<Category>) {
    forall i, j :: 0 <= i < j < |cats| ==> cats[i].key != cats[j].key
  }

  /** With distinct keys, a category is found under its own key. */
  lemma {:induction false} FindOwnKey(cats: seq<Category>, c: Category)
    requires KeysDistinct(cats) && c in cats
    ensures Find(cats, c.key) == Some(c)
  {
    if cats[0] != c {
      assert cats[0].key != c.key by {
        var j :| 0 <= j < |cats| && cats[j] == c;
      }
      assert c in cats[1..] by {
        var j :| 0 <= j < |cats| && cats[j] == c;
        assert cats[1..][j - 1] == c;
      }
      FindOwnKey(cats[1..], c);
    }
  }

  lemma CategoryKeysDistinct()
    ensures KeysDistinct(Categories)
  {
  }

  /** The five entries of `categoryMap`, as the lookup by key returns them. */
  lemma CategoryLookups()
    ensures Find(Categories, "mto") == Some(Category("mto", "/3938", "教学运行管理"))
    ensures Find(Categories, "mttb") == Some(Category("mttb", "/3939", "培养与教学建设管理"))
    ensures Find(Categories, "gi") == Some(Category("gi", "/zhglbgs", "综合信息"))
    ensures Find(Categories, "mpt") == Some(Category("mpt", "/3940", "实践教学管理"))
    ensures Find(Categories, "fai") == Some(Category("fai", "/3941", "学院教务信息"))
  {
    var cs := Categories;
    CategoryKeysDistinct();
    FindOwnKey(cs, cs[0]);
    FindOwnKey(cs, cs[1]);
    FindOwnKey(cs, cs[2]);
    FindOwnKey(cs, cs[3]);
    FindOwnKey(cs, cs[4]);
  }

  /** `${baseUrl}${item.link}/list.htm` */
  function ListingUrl(c: Category): (u: string)
    ensures IsPrefix(BaseUrl, u) && |u| > |BaseUrl|
  {
    BaseUrl + c.path + "/list.htm"
  }

  /** The pages to fetch and the feed's title and link. */
  datatype Header = Header(pageUrls: seq<string>, title: string, link: string)

  /** The optional route parameter, defaulting to `'all'`; a key of `categoryMap`
      selects its single listing, anything else selects every listing. */
  function Resolve(category: Option<string>): (h: Header)
    ensures |h.pageUrls| == 1 || |h.pageUrls| == |Categories|
    ensures |h.pageUrls| == 1 <==> Find(Categories, category.GetOr(DefaultKey)).Some?
    ensures IsPrefix(TitlePrefix, h.title)
    ensures forall u :: u in h.pageUrls ==> IsPrefix(BaseUrl, u)
  {
    match Find(Categories, category.GetOr(DefaultKey))
    case Some(c) => Header([ListingUrl(c)], TitlePrefix + c.name, ListingUrl(c))
    case None =>
      Header(seq(|Categories|, i requires 0 <= i < |Categories| => ListingUrl(Categories[i])),
             TitlePrefix + AllName, BaseUrl)
  }

  /** A known key yields its one listing page, its name in the title, and that
      page as the feed link. */
  lemma ResolveKnown(c: Category)
    requires c in Categories
    ensures Resolve(Some(c.key)) ==
      Header([BaseUrl + c.path + "/list.htm"], "华理教务处 - " + c.name, BaseUrl + c.path + "/list.htm")
  {
    CategoryKeysDistinct();
    FindOwnKey(Categories, c);
  }

  lemma BaseUrlIsSiteRoot()
    ensures BaseUrl == "https://jwc.ecust.edu.cn"
  {
  }

  lemma ListingUrlIs(c: Category, tail: string)
    requires c.path + "/list.htm" == tail
    ensures ListingUrl(c) == BaseUrl + tail
  {
    assert BaseUrl + c.path + "/list.htm" == BaseUrl + (c.path + "/list.htm");
  }

  /** The listing URLs of all categories, in declaration order. */
  lemma AllListingUrls()
    ensures seq(|Categories|, i requires 0 <= i < |Categories| => ListingUrl(Categories[i])) == [
      BaseUrl + "/3938/list.htm", BaseUrl + "/3939/list.htm", BaseUrl + "/zhglbgs/list.htm",
      BaseUrl + "/3940/list.htm", BaseUrl + "/3941/list.htm"]
  {
    var c := Categories;
    ListingUrlIs(c[0], "/3938/list.htm");
    ListingUrlIs(c[1], "/3939/list.htm");
    ListingUrlIs(c[2], "/zhglbgs/list.htm");
    ListingUrlIs(c[3], "/3940/list.htm");
    ListingUrlIs(c[4], "/3941/list.htm");
  }

  /** An absent or unknown category yields the five listings in declaration order,
      the title for all notices and the site root as the feed link. */
  lemma ResolveFallback(category: Option<string>)
    requires forall c :: c in Categories ==> category != Some(c.key)
    ensures Resolve(category).pageUrls == [
      BaseUrl + "/3938/list.htm", BaseUrl + "/3939/list.htm", BaseUrl + "/zhglbgs/list.htm",
      BaseUrl + "/3940/list.htm", BaseUrl + "/3941/list.htm"]
    ensures Resolve(category).title == "华理教务处 - 全部"
    ensures Resolve(category).link == "https://jwc.ecust.edu.cn"
  {
    FallbackNotFound(category);
    AllListingUrls();
    BaseUrlIsSiteRoot();
  }

  lemma FallbackNotFound(category: Option<string>)
    requires forall c :: c in Categories ==> category != Some(c.key)
    ensures Find(Categories, category.GetOr(DefaultKey)).None?
  {
    if category.Some? {
      forall i | 0 <= i < |Categories| ensures Categories[i].key != category.value {
        assert Categories[i] in Categories;
      }
    } else {
      assert DefaultKey != "mto" && DefaultKey != "mttb" && DefaultKey != "gi";
      assert DefaultKey != "mpt" && DefaultKey != "fai";
    }
  }

  /** A missing parameter and the default key `all` give the same header. */
  lemma DefaultIsAll()
    ensures Resolve(None) == Resolve(Some(DefaultKey))
    ensures |Resolve(None).pageUrls| == |Categories|
  {
  }

  /** Without a known key, every listing is fetched. */
  lemma ResolveAll()
    ensures Resolve(None) == Header(
      seq(|Categories|, i requires 0 <= i < |Categories| => ListingUrl(Categories[i])), TitlePrefix + AllName, BaseUrl)
  {
    assert Find(Categories, DefaultKey).None?;
  }

  /** The pages of the "all" feed are the pages of the category feeds, one each,
      in declaration order. */
  lemma AllPagesAreCategoryPages()
    ensures |Resolve(None).pageUrls| == |Categories|
    ensures forall i :: 0 <= i < |Categories| ==>
      Resolve(Some(Categories[i].key)).pageUrls == [Resolve(None).pageUrls[i]]
  {
    ResolveAll();
    forall i | 0 <= i < |Categories|
      ensures Resolve(Some(Categories[i].key)).pageUrls == [Resolve(None).pageUrls[i]]
    {
      ResolveKnown(Categories[i]);
    }
  }

  /** A feed item: the stub's fields and, when the article has a non-empty
      content container, the collapsed description. */
  datatype Item<D> = Item(title: string, link: string, pubDate: D, description: Option<string>)

  /** The description step for one stub. `body` is the content container's inner
      HTML after sanitising, `None` where `.html()` gives `null`; an empty string
      is falsy, so it leaves the description unset too. */
  function Enrich<D>(stub: Stub<D>, body: Option<string>): (it: Item<D>)
    ensures it.title == stub.title && it.link == stub.link && it.pubDate == stub.pubDate
    ensures it.description.Some? <==> body.Some? && body.value != []
    ensures it.description.Some? ==> it.description.value == Describe(body.value)
    ensures it.description.Some? ==> |it.description.value| <= |body.value|
  {
    match body
    case Some(html) =>
      if html == [] then Item(stub.title, stub.link, stub.pubDate, None)
      else Item(stub.title, stub.link, stub.pubDate, Some(Describe(html)))
    case None => Item(stub.title, stub.link, stub.pubDate, None)
  }

  /** A description that holds no boundary is stored exactly as the body was. */
  lemma EnrichKeepsPlainBody<D>(stub: Stub<D>, html: string)
    requires html != []
    requires forall i :: 0 <= i < |html| ==> BoundaryAt(html[i..]).None?
    ensures Enrich(stub, Some(html)).description == Some(html)
  {
    PassIdentity(html);
  }

  /** What the handler cannot see: the listing page's rows (`None` when the request
      fails), the date parser, and an article's container HTML (`None` when the
      request fails; `Some(None)` when the page has no container). */
  datatype Env<D> = Env(
    listing: string -> Option<seq<Row>>,
    parseDate: string -> D,
    article: string -> Option<Option<string>>)

  /** Why the handler rejects: a request failed, or a listing row had no `href`. */
  datatype Failure = FetchFailed(url: string) | MissingHref(url: string, row: nat)

  /** `get_from_link` for one listing URL. */
  function ExtractPage<D>(url: string, env: Env<D>): (r: Result<seq<Stub<D>>, Failure>)
    ensures env.listing(url).None? ==> r == Failure(FetchFailed(url))
    ensures r.Success? <==> env.listing(url).Some? && ExtractRows(env.listing(url).value, env.parseDate).Success?
    ensures r.Success? ==> r.value == ExtractRows(env.listing(url).value, env.parseDate).value
    ensures r.Failure? && env.listing(url).Some? ==>
      r.error.MissingHref? && r.error.url == url && r.error.row < |env.listing(url).value|
      && !HasHref(env.listing(url).value[r.error.row])
  {
    match env.listing(url)
    case None => Failure(FetchFailed(url))
    case Some(rows) =>
      match ExtractRows(rows, env.parseDate)
      case Failure(i) => ExtractRowsFails(rows, env.parseDate); Failure(MissingHref(url, i))
      case Success(stubs) => Success(stubs)
  }

  /** Keeps the first failure, else concatenates. */
  function Join<T>(a: Result<seq<T>, Failure>, b: Result<seq<T>, Failure>): (r: Result<seq<T>, Failure>)
    ensures r.Success? <==> a.Success? && b.Success?
    ensures r.Success? ==> r.value == a.value + b.value
    ensures r.Failure? ==> r.error == if a.Failure? then a.error else b.error
  {
    match a
    case Failure(e) => Failure(e)
    case Success(x) =>
      match b
      case Failure(e) => Failure(e)
      case Success(y) => Success(x + y)
  }

  /** `(await Promise.all(pageUrl.map(get_from_link))).flat()`: the stubs of every
      page, page after page. */
  function ExtractAll<D>(urls: seq<string>, env: Env<D>): (r: Result<seq<Stub<D>>, Failure>)
    ensures r.Success? <==> forall i :: 0 <= i < |urls| ==> ExtractPage(urls[i], env).Success?
    ensures r.Failure? ==> exists i :: 0 <= i < |urls| && ExtractPage(urls[i], env) == Failure(r.error)
  {
    if urls == [] then Success([])
    else
      var r := Join(ExtractPage(urls[0], env), ExtractAll(urls[1..], env));
      assert r.Success? <==> forall i :: 0 <= i < |urls| ==> ExtractPage(urls[i], env).Success? by {
        forall i | 1 <= i < |urls| ensures urls[i] == urls[1..][i - 1] { }
      }
      assert r.Failure? && ExtractPage(urls[0], env).Success? ==>
        exists i :: 1 <= i < |urls| && ExtractPage(urls[i], env) == Failure(r.error) by {
        if r.Failure? && ExtractPage(urls[0], env).Success? {
          var j :| 0 <= j < |urls[1..]| && ExtractPage(urls[1..][j], env) == Failure(r.error);
          assert urls[1..][j] == urls[j + 1];
        }
      }
      r
  }

  lemma JoinAssoc<T>(a: Result<seq<T>, Failure>, b: Result<seq<T>, Failure>, c: Result<seq<T>, Failure>)
    ensures Join(a, Join(b, c)) == Join(Join(a, b), c)
  {
    if a.Success? && b.Success? && c.Success? {
      assert a.value + (b.value + c.value) == (a.value + b.value) + c.value;
    }
  }

  /** The stub order is the URL order: extracting two URL lists one after the other
      is extracting their concatenation. */
  lemma {:induction false} ExtractAllAppend<D>(u: seq<string>, v: seq<string>, env: Env<D>)
    ensures ExtractAll(u + v, env) == Join(ExtractAll(u, env), ExtractAll(v, env))
  {
    if u == [] {
      assert u + v == v;
      var r := ExtractAll(v, env);
      if r.Success? {
        assert [] + r.value == r.value;
      }
    } else {
      assert (u + v)[0] == u[0] && (u + v)[1..] == u[1..] + v;
      ExtractAllAppend(u[1..], v, env);
      JoinAssoc(ExtractPage(u[0], env), ExtractAll(u[1..], env), ExtractAll(v, env));
    }
  }

  /** A single page's stubs are the page's own. */
  lemma ExtractOne<D>(url: string, env: Env<D>)
    ensures ExtractAll([url], env) == ExtractPage(url, env)
  {
    assert [url][1..] == [];
    var r := ExtractPage(url, env);
    if r.Success? {
      assert r.value + [] == r.value;
    }
  }

  /** The article request for `stub` fails, with error `e`. */
  predicate ArticleFails<D>(stub: Stub<D>, env: Env<D>, e: Failure) {
    env.article(stub.link).None? && e == FetchFailed(stub.link)
  }

  /** The second `Promise.all`: every stub's article, in stub order. */
  function EnrichAll<D>(stubs: seq<Stub<D>>, env: Env<D>): (r: Result<seq<Item<D>>, Failure>)
    ensures r.Success? <==> forall i :: 0 <= i < |stubs| ==> env.article(stubs[i].link).Some?
    ensures r.Success? ==> |r.value| == |stubs|
    ensures r.Success? ==> forall i :: 0 <= i < |stubs| ==>
      r.value[i] == Enrich(stubs[i], env.article(stubs[i].link).value)
    ensures r.Failure? ==> exists i :: 0 <= i < |stubs| && ArticleFails(stubs[i], env, r.error)
  {
    if stubs == [] then Success([])
    else
      match env.article(stubs[0].link)
      case None => Failure(FetchFailed(stubs[0].link))
      case Some(body) =>
        match EnrichAll(stubs[1..], env)
        case Failure(e) =>
          assert exists i :: 1 <= i < |stubs| && ArticleFails(stubs[i], env, e) by {
            var j :| 0 <= j < |stubs[1..]| && ArticleFails(stubs[1..][j], env, e);
            assert stubs[1..][j] == stubs[j + 1];
          }
          Failure(e)
        case Success(items) => Success([Enrich(stubs[0], body)] + items)
  }

  /** Every stub of every page, enriched. All listing pages are awaited before
      any article is requested. */
  function Items<D>(urls: seq<string>, env: Env<D>): (r: Result<seq<Item<D>>, Failure>)
    ensures r.Success? <==> ExtractAll(urls, env).Success? && EnrichAll(ExtractAll(urls, env).value, env).Success?
    ensures r.Success? ==> r.value == EnrichAll(ExtractAll(urls, env).value, env).value
    ensures ExtractAll(urls, env).Failure? ==> r == Failure(ExtractAll(urls, env).error)
  {
    match ExtractAll(urls, env)
    case Failure(e) => Failure(e)
    case Success(stubs) => EnrichAll(stubs, env)
  }

  /** Enriching two stub lists one after the other is enriching their concatenation. */
  lemma {:induction false} EnrichAllAppend<D>(a: seq<Stub<D>>, b: seq<Stub<D>>, env: Env<D>)
    requires EnrichAll(a, env).Success? && EnrichAll(b, env).Success?
    ensures EnrichAll(a + b, env) == Success(EnrichAll(a, env).value + EnrichAll(b, env).value)
  {
    var r, x, y := EnrichAll(a + b, env), EnrichAll(a, env).value, EnrichAll(b, env).value;
    forall i | 0 <= i < |a + b| ensures env.article((a + b)[i].link).Some? {
      if i >= |a| { assert (a + b)[i] == b[i - |a|]; }
    }
    assert r.Success?;
    forall i | 0 <= i < |a + b| ensures r.value[i] == (x + y)[i] {
      if i >= |a| {
        assert (a + b)[i] == b[i - |a|] && (x + y)[i] == y[i - |a|];
      } else {
        assert (a + b)[i] == a[i] && (x + y)[i] == x[i];
      }
    }
    assert r.value == x + y;
  }

  /** The items for two URL lists one after the other are the items for their
      concatenation. */
  lemma ItemsAppend<D>(u: seq<string>, v: seq<string>, env: Env<D>)
    requires Items(u, env).Success? && Items(v, env).Success?
    ensures Items(u + v, env) == Success(Items(u, env).value + Items(v, env).value)
  {
    ExtractAllAppend(u, v, env);
    EnrichAllAppend(ExtractAll(u, env).value, ExtractAll(v, env).value, env);
  }

  /** The feed the handler returns. */
  datatype Feed<D> = Feed(title: string, link: string, items: seq<Item<D>>)

  /** `handler`: the header of the resolved category and the items of its pages. */
  function Handle<D>(category: Option<string>, env: Env<D>): (r: Result<Feed<D>, Failure>)
    ensures r.Success? <==> Items(Resolve(category).pageUrls, env).Success?
    ensures r.Success? ==> r.value.title == Resolve(category).title && r.value.link == Resolve(category).link
    ensures r.Success? ==> r.value.items == Items(Resolve(category).pageUrls, env).value
    ensures r.Failure? ==> r.error == Items(Resolve(category).pageUrls, env).error
  {
    var h := Resolve(category);
    match Items(h.pageUrls, env)
    case Failure(e) => Failure(e)
    case Success(items) => Success(Feed(h.title, h.link, items))
  }

  /** Every item of a feed links to a canonical absolute URL. */
  lemma {:induction false} ExtractAllLinksCanonical<D>(urls: seq<string>, env: Env<D>)
    requires ExtractAll(urls, env).Success?
    ensures forall s :: s in ExtractAll(urls, env).value ==> IsCanonical(s.link)
  {
    if urls != [] {
      assert ExtractPage(urls[0], env).Success?;
      ExtractAllLinksCanonical(urls[1..], env);
      ExtractedLinksCanonical(env.listing(urls[0]).value, env.parseDate);
    }
  }

  lemma FeedLinksCanonical<D>(category: Option<string>, env: Env<D>)
    requires Handle(category, env).Success?
    ensures forall it :: it in Handle(category, env).value.items ==> IsCanonical(it.link)
  {
    var stubs := ExtractAll(Resolve(category).pageUrls, env).value;
    ExtractAllLinksCanonical(Resolve(category).pageUrls, env);
    var items := Handle(category, env).value.items;
    forall it | it in items ensures IsCanonical(it.link) {
      var i :| 0 <= i < |items| && items[i] == it;
      assert stubs[i] in stubs;
    }
  }

  lemma SplitFive<T>(u: seq<T>)
    requires |u| == 5
    ensures u == [u[0]] + [u[1]] + [u[2]] + [u[3]] + [u[4]]
  {
  }

  /** The "all" feed's items are the items of the five category feeds (mto, mttb,
      gi, mpt, fai) one after the other, whenever all of those succeed. */
  lemma AllFeedIsCategoryFeeds<D>(env: Env<D>)
    requires forall i :: 0 <= i < |Categories| ==> Handle(Some(Categories[i].key), env).Success?
    ensures Handle(None, env).Success?
    ensures Handle(None, env).value.items ==
      Handle(Some(Categories[0].key), env).value.items + Handle(Some(Categories[1].key), env).value.items
      + Handle(Some(Categories[2].key), env).value.items + Handle(Some(Categories[3].key), env).value.items
      + Handle(Some(Categories[4].key), env).value.items
  {
    AllPagesAreCategoryPages();
    var u := Resolve(None).pageUrls;
    SplitFive(u);
    forall i | 0 <= i < 5 ensures Items([u[i]], env).Success? {
      assert Handle(Some(Categories[i].key), env).Success?;
    }
    ItemsAppend([u[0]], [u[1]], env);
    ItemsAppend([u[0]] + [u[1]], [u[2]], env);
    ItemsAppend([u[0]] + [u[1]] + [u[2]], [u[3]], env);
    ItemsAppend([u[0]] + [u[1]] + [u[2]] + [u[3]], [u[4]], env);
  }
}
