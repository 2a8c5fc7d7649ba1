/** src/pages/og-new.ts: the `GET` handler written for `/og/{section}/{slug}[-light].png` and its
    static path list.
    The content store and the renderer are parameters: the store answers `getCollection`, and the
    renderer stands for whatever `renderOgImage` the page is linked against. */
module OgRoute {
  import opened Wrappers
  import opened Text
  import OgNew
  import Raster

  /** `COLLECTION_MAP`, in declaration order: URL section to collection name. */
  const CollectionMap: seq<(string, string)> := [("writings", "writing"), ("thoughts", "thought")]

  /** The value of the first entry with key `key`, if any. */
  function Lookup(entries: seq<(string, string)>, key: string): (r: Option<string>)
    ensures r.Some? <==> exists i :: 0 <= i < |entries| && entries[i].0 == key
    ensures r.Some? ==> exists i :: 0 <= i < |entries| && entries[i] == (key, r.value)
    decreases |entries|
  {
    if entries == [] then None
    else if entries[0].0 == key then Some(entries[0].1)
    else
      var r := Lookup(entries[1..], key);
      assert forall i :: 0 <= i < |entries| - 1 ==> entries[1..][i] == entries[i + 1];
      assert r.Some? ==> exists i :: 0 <= i < |entries| && entries[i] == (key, r.value) by {
        if r.Some? {
          var i :| 0 <= i < |entries| - 1 && entries[1..][i] == (key, r.value);
          assert entries[i + 1] == (key, r.value);
        }
      }
      r
  }

  /** `COLLECTION_MAP[section]`: only the two URL sections name a collection. */
  function CollectionName(section: string): (r: Option<string>)
    ensures r == (if section == "writings" then Some("writing")
                  else if section == "thoughts" then Some("thought")
                  else None)
  {
    Lookup(CollectionMap, section)
  }

  /** One entry of a collection: its slug and `data.title`. */
  datatype Post = Post(slug: string, title: string)

  /** `getCollection(name)`: the posts, or `None` when the call throws. */
  type Store = string -> Option<seq<Post>>

  /** `renderOgImage(title, collectionName, baseUrl)`: both images, or `None` when it throws. */
  type Renderer = (string, string) -> Option<OgNew.PngPair>

  const PngExt: string := ".png"
  const LightSuffix: string := "-light"

  /** The dark image path of a post. */
  function DarkPath(section: string, slug: string): string {
    section + "/" + slug + PngExt
  }

  /** The light image path of a post. */
  function LightPath(section: string, slug: string): string {
    section + "/" + slug + LightSuffix + PngExt
  }

  /** Posts of one collection, each as its dark path then its light path. */
  function PostPaths(section: string, posts: seq<Post>): (paths: seq<string>)
    ensures |paths| == 2 * |posts|
    ensures forall k :: 0 <= k < |posts| ==>
      paths[2 * k] == DarkPath(section, posts[k].slug) && paths[2 * k + 1] == LightPath(section, posts[k].slug)
    decreases |posts|
  {
    if posts == [] then []
    else
      var rest := PostPaths(section, posts[1..]);
      var here := [DarkPath(section, posts[0].slug), LightPath(section, posts[0].slug)];
      assert forall k :: 1 <= k < |posts| ==> posts[k] == posts[1..][k - 1];
      assert forall k :: 1 <= k < |posts| ==> (here + rest)[2 * k] == rest[2 * (k - 1)];
      assert forall k :: 1 <= k < |posts| ==> (here + rest)[2 * k + 1] == rest[2 * (k - 1) + 1];
      here + rest
  }

  /** Paths of the collections named by `entries`; a collection whose lookup throws adds nothing. */
  function EntryPaths(entries: seq<(string, string)>, store: Store): seq<string>
    decreases |entries|
  {
    if entries == [] then []
    else
      var here := match store(entries[0].1)
        case None => []
        case Some(posts) => PostPaths(entries[0].0, posts);
      here + EntryPaths(entries[1..], store)
  }

  /** `getStaticPaths`: the sections in map order, and within each the posts in collection order. */
  function StaticPaths(store: Store): (paths: seq<string>)
    ensures
      var w := store("writing").GetOr([]);
      var t := store("thought").GetOr([]);
      && |paths| == 2 * (|w| + |t|)
      && paths[..2 * |w|] == PostPaths("writings", w)
      && paths[2 * |w|..] == PostPaths("thoughts", t)
  {
    EntryPaths(CollectionMap, store)
  }

  /** A path is listed exactly when it is the dark or light path of a post of a collection whose
      lookup succeeded, under that collection's section. */
  predicate Generated(entries: seq<(string, string)>, store: Store, p: string) {
    exists i, k :: 0 <= i < |entries| && store(entries[i].1).Some? && 0 <= k < |store(entries[i].1).value|
      && (p == DarkPath(entries[i].0, store(entries[i].1).value[k].slug)
          || p == LightPath(entries[i].0, store(entries[i].1).value[k].slug))
  }

  lemma PostPathsMembership(section: string, posts: seq<Post>, p: string)
    ensures p in PostPaths(section, posts) <==>
      exists k :: 0 <= k < |posts| && (p == DarkPath(section, posts[k].slug) || p == LightPath(section, posts[k].slug))
  {
    var paths := PostPaths(section, posts);
    if p in paths {
      var j :| 0 <= j < |paths| && paths[j] == p;
      var k := j / 2;
      assert j == 2 * k || j == 2 * k + 1;
    }
  }

  lemma {:induction false} EntryPathsMembership(entries: seq<(string, string)>, store: Store, p: string)
    ensures p in EntryPaths(entries, store) <==> Generated(entries, store, p)
    decreases |entries|
  {
    if entries != [] {
      EntryPathsMembership(entries[1..], store, p);
      var name := entries[0].1;
      if store(name).Some? {
        PostPathsMembership(entries[0].0, store(name).value, p);
      }
      if Generated(entries, store, p) {
        var i, k :| 0 <= i < |entries| && store(entries[i].1).Some? && 0 <= k < |store(entries[i].1).value|
          && (p == DarkPath(entries[i].0, store(entries[i].1).value[k].slug)
              || p == LightPath(entries[i].0, store(entries[i].1).value[k].slug));
        if i > 0 {
          assert entries[1..][i - 1] == entries[i];
        }
      }
      if Generated(entries[1..], store, p) {
        var i, k :| 0 <= i < |entries[1..]| && store(entries[1..][i].1).Some? && 0 <= k < |store(entries[1..][i].1).value|
          && (p == DarkPath(entries[1..][i].0, store(entries[1..][i].1).value[k].slug)
              || p == LightPath(entries[1..][i].0, store(entries[1..][i].1).value[k].slug));
        assert entries[1..][i] == entries[i + 1];
      }
    }
  }

  /** Every listed path belongs to a post, and every post of a readable collection is listed twice over. */
  lemma StaticPathsMembership(store: Store, p: string)
    ensures p in StaticPaths(store) <==> Generated(CollectionMap, store, p)
  {
    EntryPathsMembership(CollectionMap, store, p);
  }

  /** The pieces `GET` takes out of the path parameter. */
  datatype Route = Route(section: string, slugWithExt: string, isLight: bool, slug: string)

  /** `slugWithExt.replace(/(-light)?\.png$/, "")`: the leftmost match wins, so a trailing
      "-light.png" is removed whole, otherwise a trailing ".png". */
  function StripPng(slugWithExt: string): (slug: string)
    ensures EndsWith(slugWithExt, LightSuffix + PngExt) ==> slugWithExt == slug + LightSuffix + PngExt
    ensures !EndsWith(slugWithExt, LightSuffix + PngExt) && EndsWith(slugWithExt, PngExt) ==> slugWithExt == slug + PngExt
    ensures !EndsWith(slugWithExt, PngExt) ==> slug == slugWithExt
  {
    if EndsWith(slugWithExt, LightSuffix + PngExt) then slugWithExt[..|slugWithExt| - 10]
    else if EndsWith(slugWithExt, PngExt) then slugWithExt[..|slugWithExt| - 4]
    else slugWithExt
  }

  /** The parsing part of `GET`: the section is the text before the first `/`, the rest is kept
      whole with its later slashes, and the image suffix is stripped. */
  function ParsePath(path: string): (r: Route)
    ensures '/' !in r.section
    ensures '/' in path ==> path == r.section + "/" + r.slugWithExt
    ensures '/' !in path ==> r.section == path && r.slugWithExt == ""
    ensures r.isLight <==> EndsWith(r.slugWithExt, LightSuffix + PngExt)
    ensures r.slug == StripPng(r.slugWithExt)
  {
    var parts := Split(path, '/');
    SplitHeadTail(path, '/');
    assert parts[0] in parts;
    var slugWithExt := Join(parts[1..], '/');
    Route(parts[0], slugWithExt, EndsWith(slugWithExt, LightSuffix + PngExt), StripPng(slugWithExt))
  }

  /** `posts.find(p => p.slug === slug)`: the first post with that slug. */
  function FindPost(posts: seq<Post>, slug: string): (r: Option<Post>)
    ensures r.None? <==> forall i :: 0 <= i < |posts| ==> posts[i].slug != slug
    ensures r.Some? ==> r.value.slug == slug && exists i :: (0 <= i < |posts| && posts[i] == r.value
      && forall j :: 0 <= j < i ==> posts[j].slug != slug)
    decreases |posts|
  {
    if posts == [] then None
    else if posts[0].slug == slug then Some(posts[0])
    else
      var r := FindPost(posts[1..], slug);
      assert forall i :: 1 <= i < |posts| ==> posts[i] == posts[1..][i - 1];
      assert r.Some? ==> exists i :: (0 <= i < |posts| && posts[i] == r.value
        && forall j :: 0 <= j < i ==> posts[j].slug != slug) by {
        if r.Some? {
          var i :| 0 <= i < |posts| - 1 && posts[1..][i] == r.value
            && forall j :: 0 <= j < i ==> posts[1..][j].slug != slug;
          assert posts[i + 1] == r.value;
          assert forall j :: 1 <= j < i + 1 ==> posts[j].slug != slug by {
            forall j | 1 <= j < i + 1 ensures posts[j].slug != slug {
              assert posts[j] == posts[1..][j - 1];
            }
          }
        }
      }
      r
  }

  /** What `GET` answers. */
  datatype Response = Redirect(location: string, status: nat) | Image(body: Raster.Png, headers: seq<(string, string)>)

  /** The 302 to the static image, used for every failure. */
  const Fallback: Response := Redirect("/images/ogimage.png", 302)

  const ImageHeaders: seq<(string, string)> := [
    ("Content-Type", "image/png"),
    ("Cache-Control", "public, max-age=86400, s-maxage=604800")
  ]

  /** `GET`: every failure (unknown section, empty slug, lookup error, unknown slug, render error)
      becomes the fallback redirect; otherwise the light or dark image with the cache headers. */
  function Get(pathParam: Option<string>, store: Store, render: Renderer): (r: Response)
    ensures r == Fallback || (r.Image? && r.headers == ImageHeaders)
    ensures r != Fallback <==>
      var route := ParsePath(pathParam.GetOr(""));
      var name := CollectionName(route.section);
      && name.Some?
      && route.slug != ""
      && store(name.value).Some?
      && FindPost(store(name.value).value, route.slug).Some?
      && render(FindPost(store(name.value).value, route.slug).value.title, name.value).Some?
    ensures r != Fallback ==>
      var route := ParsePath(pathParam.GetOr(""));
      var name := CollectionName(route.section).value;
      var images := render(FindPost(store(name).value, route.slug).value.title, name).value;
      r.body == (if route.isLight then images.light else images.dark)
  {
    var route := ParsePath(pathParam.GetOr(""));
    match CollectionName(route.section)
    case None => Fallback
    case Some(name) =>
      if route.slug == "" then Fallback
      else
        match store(name)
        case None => Fallback
        case Some(posts) =>
          match FindPost(posts, route.slug)
          case None => Fallback
          case Some(post) =>
            match render(post.title, name)
            case None => Fallback
            case Some(images) => Image(if route.isLight then images.light else images.dark, ImageHeaders)
  }

  /** A section without `/` followed by `/` and any rest parses into exactly those two pieces. */
  lemma ParseSectionAndRest(section: string, rest: string)
    requires '/' !in section
    ensures ParsePath(section + "/" + rest).section == section
    ensures ParsePath(section + "/" + rest).slugWithExt == rest
  {
    SplitAtFirst(section, '/', rest);
    var parts := Split(section + "/" + rest, '/');
    assert parts[1..] == Split(rest, '/');
    JoinSplit(rest, '/');
  }

  /** A dark path parses back to its section and slug, provided the slug does not itself end in "-light". */
  lemma ParseDarkPath(section: string, slug: string)
    requires '/' !in section
    requires !EndsWith(slug, LightSuffix)
    ensures ParsePath(DarkPath(section, slug)) == Route(section, slug + PngExt, false, slug)
  {
    var swe := slug + PngExt;
    assert DarkPath(section, slug) == section + "/" + swe;
    ParseSectionAndRest(section, swe);
    EndsWithConcat(slug, PngExt);
    assert swe[..|swe| - 4] == slug;
  }

  /** A light path always parses back to its section and slug. */
  lemma ParseLightPath(section: string, slug: string)
    requires '/' !in section
    ensures ParsePath(LightPath(section, slug)) == Route(section, slug + LightSuffix + PngExt, true, slug)
  {
    var swe := slug + LightSuffix + PngExt;
    assert LightPath(section, slug) == section + "/" + swe;
    ParseSectionAndRest(section, swe);
    assert swe == slug + (LightSuffix + PngExt);
    EndsWithConcat(slug, LightSuffix + PngExt);
    assert swe[..|swe| - 10] == slug;
  }

  /** The path scheme is ambiguous: the dark path of slug "x-light" is the light path of slug "x",
      and it is served as the latter. */
  lemma DarkPathOfLightSlug()
    ensures DarkPath("writings", "x-light") == LightPath("writings", "x")
    ensures ParsePath(DarkPath("writings", "x-light")) == Route("writings", "x-light.png", true, "x")
  {
    assert "x-light" == "x" + LightSuffix;
    assert DarkPath("writings", "x-light") == LightPath("writings", "x");
    assert '/' !in "writings";
    ParseLightPath("writings", "x");
    assert "x" + LightSuffix + PngExt == "x-light.png";
  }

  /** The empty slug is rejected, even for a known section. */
  lemma EmptySlugFallsBack(store: Store, render: Renderer)
    ensures Get(Some("writings/.png"), store, render) == Fallback
  {
    assert '/' !in "writings";
    assert !EndsWith("", LightSuffix);
    ParseDarkPath("writings", "");
    assert DarkPath("writings", "") == "writings/.png";
  }

  /** A path with no slug part is rejected, even for a known section. */
  lemma MissingSlugFallsBack(store: Store, render: Renderer)
    ensures Get(Some("writings"), store, render) == Fallback
  {
    assert '/' !in "writings";
    var r := ParsePath("writings");
    assert r.slugWithExt == "";
  }

  /** Without a path parameter, or with a section outside the map, the answer is the fallback. */
  lemma UnknownSectionFallsBack(pathParam: Option<string>, store: Store, render: Renderer)
    requires CollectionName(ParsePath(pathParam.GetOr("")).section).None?
    ensures Get(pathParam, store, render) == Fallback
  {
  }

  /** Where the file sits the route has no `path` segment, so every request carries no parameter
      and is redirected. */
  lemma NoPathParameterFallsBack(store: Store, render: Renderer)
    ensures Get(None, store, render) == Fallback
  {
    assert ParsePath("").section == "";
  }

  /** A slug that no post of the collection carries is answered with the fallback. */
  lemma MissingPostFallsBack(pathParam: Option<string>, store: Store, render: Renderer)
    requires var route := ParsePath(pathParam.GetOr(""));
      && CollectionName(route.section).Some?
      && store(CollectionName(route.section).value).Some?
      && forall p <- store(CollectionName(route.section).value).value :: p.slug != route.slug
    ensures Get(pathParam, store, render) == Fallback
  {
  }

  /** The stub renderer the page is linked against today: it always throws. */
  function StubRenderer(title: string, section: string): Option<OgNew.PngPair> {
    None
  }

  /** With the stub renderer every request is redirected to the fallback image. */
  lemma StubAlwaysFallsBack(pathParam: Option<string>, store: Store)
    ensures Get(pathParam, store, StubRenderer) == Fallback
  {
  }

  /** End to end: a listed path of a post is answered with the render of the first post carrying
      its slug, in the theme the path names, or with the fallback when rendering fails. */
  lemma {:induction false} ServesStaticPaths(store: Store, render: Renderer, i: nat, k: nat)
    requires i < |CollectionMap|
    requires store(CollectionMap[i].1).Some?
    requires k < |store(CollectionMap[i].1).value|
    requires store(CollectionMap[i].1).value[k].slug != ""
    ensures
      var (section, name) := CollectionMap[i];
      var posts := store(name).value;
      var slug := posts[k].slug;
      var post := FindPost(posts, slug).value;
      && Get(Some(LightPath(section, slug)), store, render)
         == (match render(post.title, name) case None => Fallback case Some(imgs) => Image(imgs.light, ImageHeaders))
      && (!EndsWith(slug, LightSuffix) ==>
            Get(Some(DarkPath(section, slug)), store, render)
            == (match render(post.title, name) case None => Fallback case Some(imgs) => Image(imgs.dark, ImageHeaders)))
  {
    var (section, name) := CollectionMap[i];
    var slug := store(name).value[k].slug;
    assert '/' !in section;
    assert CollectionName(section) == Some(name);
    ParseLightPath(section, slug);
    if !EndsWith(slug, LightSuffix) {
      ParseDarkPath(section, slug);
    }
  }

  /** The page linked against og-new's renderer: the body is the rasterised document of the
      requested theme for the first post with the slug. */
  lemma ServesOgNewImage(store: Store, raster: Raster.Rasterizer, section: string, slug: string, post: Post)
    requires section == "writings" || section == "thoughts"
    requires slug != ""
    requires store(CollectionName(section).value).Some?
    requires FindPost(store(CollectionName(section).value).value, slug) == Some(post)
    requires post.title != ""
    ensures
      var name := CollectionName(section).value;
      var svgs := OgNew.BuildSvgs(post.title, name);
      raster(svgs.dark).Some? && raster(svgs.light).Some? ==>
        Get(Some(LightPath(section, slug)), store, (t, s) => OgNew.RenderOgImage(t, s, raster).ToOption())
        == Image(raster(svgs.light).value, ImageHeaders)
  {
    var name := CollectionName(section).value;
    var svgs := OgNew.BuildSvgs(post.title, name);
    if raster(svgs.dark).Some? && raster(svgs.light).Some? {
      var render: Renderer := (t, s) => OgNew.RenderOgImage(t, s, raster).ToOption();
      var images := OgNew.PngPair(raster(svgs.dark).value, raster(svgs.light).value);
      assert render(post.title, name) == Some(images);
      ParseLightPath(section, slug);
      GetServesRoute(LightPath(section, slug), store, render, name, post, images);
    }
  }

  /** Once every stage of the request succeeds, the answer is the image of the requested theme. */
  lemma GetServesRoute(path: string, store: Store, render: Renderer, name: string, post: Post, images: OgNew.PngPair)
    requires CollectionName(ParsePath(path).section) == Some(name)
    requires ParsePath(path).slug != ""
    requires store(name).Some?
    requires FindPost(store(name).value, ParsePath(path).slug) == Some(post)
    requires render(post.title, name) == Some(images)
    ensures Get(Some(path), store, render)
      == Image(if ParsePath(path).isLight then images.light else images.dark, ImageHeaders)
  {
  }
}
