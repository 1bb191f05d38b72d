/**
 * The MetadataExtractor object: a target URL, its host, and the results
 * dictionary that each extraction step adds its keys to. The HTTP answers,
 * the parsed page, URL joining, image fetching and NFKC normalisation are
 * given to the steps that use them.
 */
module Extractor {
  import opened Wrappers
  import opened Text
  import opened Sequences
  import opened Http
  import opened SecurityHeaders
  import opened Page
  import opened Technologies
  import opened SocialMedia
  import opened Scripts
  import opened Images
  import opened Domains

  /** A value stored under a key of the results dictionary. */
  datatype Value =
    | Str(text: string)                    // a string
    | Null                                 // None
    | StrList(items: seq<string>)          // a list of strings
    | StrSet(members: set<string>)         // a list built from a set, whose order is not modelled
    | StrMap(entries: map<string, string>) // a dictionary of strings
    | HeaderDict(headers: Headers)         // dict(response.headers)
    | TechList(techs: seq<Tech>)
    | ProfileMap(profiles: seq<Profiles>)
    | LibraryList(libraries: seq<JsLibrary>)
    | ImageList(images: seq<ImageInfo>)

  /** The most links the results keep. */
  const MaxLinks := 50

  /** What the extraction steps promise about the value they store under a key. */
  predicate Fits(key: string, v: Value, domain: string) {
    if key == "missing_security_headers" then
      v.StrList? && v.items != [] && forall m :: m in v.items ==> m in Messages(Required)
    else if key == "links" then
      v.StrList? && |v.items| <= MaxLinks
    else if key == "technologies" then
      v.TechList? && NoDuplicateKeys(v.techs)
    else if key == "social_media" then
      v.ProfileMap? && v.profiles != [] && forall p :: p in v.profiles ==> p.links != []
    else if key == "image_metadata" then
      v.ImageList? && 0 < |v.images| <= MaxImages
    else if key == "js_libraries" then
      v.LibraryList? && v.libraries != []
    else if key == "subdomains" then
      v.StrSet? && v.members != {}
      && forall s :: s in v.members ==> EndsWith(s, BaseDomain(domain)) && s != BaseDomain(domain)
    else true
  }

  /** Every stored value keeps the promise of its key. */
  predicate ResultsConsistent(results: map<string, Value>, domain: string) {
    forall key :: key in results ==> Fits(key, results[key], domain)
  }

  class MetadataExtractor {
    const url: string
    const domain: string
    var results: map<string, Value>

    predicate Consistent()
      reads this
    {
      ResultsConsistent(results, domain)
    }

    /** `self.results[key] = v`, for a value that keeps the promise of its key. */
    method Record(key: string, v: Value)
      requires Consistent() && Fits(key, v, domain)
      modifies this
      ensures results == old(results)[key := v] && Consistent()
    {
      results := results[key := v];
    }

    /** `MetadataExtractor(url)`: the host is the URL's network location and no result is recorded yet. */
    constructor(url: string)
      ensures this.url == url && domain == Netloc(url) && results == map[]
      ensures Consistent()
    {
      this.url := url;
      domain := Netloc(url);
      results := map[];
    }

    /**
     * extract_http_headers, given the answer to the HEAD request: the headers
     * are recorded, and so are the messages of the missing security headers
     * when there is at least one.
     */
    method ExtractHttpHeaders(head: Option<Response>)
      requires Consistent()
      modifies this
      ensures Consistent()
      ensures !Http.Truthy(head) ==> results == old(results)
      ensures Http.Truthy(head) ==>
        var missing := MissingOf(Required, head.value.headers);
        var recorded := old(results)["http_headers" := HeaderDict(head.value.headers)];
        results == if missing != [] then recorded["missing_security_headers" := StrList(missing)] else recorded
    {
      if Http.Truthy(head) {
        var headers := head.value.headers;
        Record("http_headers", HeaderDict(headers));
        var missing := FindMissing(Required, headers);
        if missing != [] {
          MissingFromMessages(Required, headers);
          Record("missing_security_headers", StrList(missing));
        }
      }
    }

    /**
     * extract_html_metadata, given the page answer and its parse: the
     * generator's content when there is a generator, the meta tags, the first
     * fifty links, the script sources and the comments.
     */
    method ExtractHtmlMetadata(response: Option<Response>, page: Document, join: (string, string) -> string)
      requires Consistent()
      modifies this
      ensures Consistent()
      ensures !Http.Truthy(response) ==> results == old(results)
      ensures Http.Truthy(response) ==>
        var generator := Generator(page.metas);
        var withCms := if generator.None? then old(results)
                       else if generator.value.content.Some? then old(results)["cms" := Str(generator.value.content.value)]
                       else old(results)["cms" := Null];
        results == withCms["meta_tags" := StrMap(MetaTags(page))]
                          ["links" := StrList(Take(LinksOf(page.anchors, url, join), MaxLinks))]
                          ["scripts" := StrList(page.scripts)]
                          ["comments" := StrList(CommentsOf(page.texts))]
    {
      if Http.Truthy(response) {
        var metaTags := CollectMetaTags(page.metas);
        if page.title.Some? {
          metaTags := metaTags["title" := page.title.value];
        }
        var generator := Generator(page.metas);
        if generator.Some? {
          var cms := if generator.value.content.Some? then Str(generator.value.content.value) else Null;
          Record("cms", cms);
        }
        var links := CollectLinks(page.anchors, url, join);
        var comments := CollectComments(page.texts);
        var stored := StrList(if |links| <= MaxLinks then links else links[..MaxLinks]);
        assert stored == StrList(Take(links, MaxLinks));
        Record("meta_tags", StrMap(metaTags));
        Record("links", stored);
        Record("scripts", StrList(page.scripts));
        Record("comments", StrList(comments));
      }
    }

    /** extract_server_info, given the answer to the HEAD request: the Server and X-Powered-By values, when sent. */
    method ExtractServerInfo(head: Option<Response>)
      requires Consistent()
      modifies this
      ensures Consistent()
      ensures !Http.Truthy(head) ==> results == old(results)
      ensures Http.Truthy(head) ==>
        var headers := head.value.headers;
        var server := Lookup(headers, "Server");
        var poweredBy := Lookup(headers, "X-Powered-By");
        var withServer := if server.Some? then old(results)["server" := Str(server.value)] else old(results);
        results == if poweredBy.Some? then withServer["powered_by" := Str(poweredBy.value)] else withServer
    {
      if Http.Truthy(head) && Has(head.value.headers, "Server") {
        Record("server", Str(Lookup(head.value.headers, "Server").value));
      }
      if Http.Truthy(head) && Has(head.value.headers, "X-Powered-By") {
        Record("powered_by", Str(Lookup(head.value.headers, "X-Powered-By").value));
      }
    }

    /**
     * extract_technologies, given the page answer: the technologies found,
     * without repeated names, always recorded when there is an answer.
     */
    method ExtractTechnologies(response: Option<Response>)
      requires Consistent()
      modifies this
      ensures Consistent()
      ensures !Http.Truthy(response) ==> results == old(results)
      ensures Http.Truthy(response) ==>
        results == old(results)["technologies" := TechList(Dedupe(Detect(response.value.text, response.value.headers)))]
    {
      if Http.Truthy(response) {
        var unique := DetectTechnologies(response.value.text, response.value.headers);
        DedupeUnique(Detect(response.value.text, response.value.headers));
        Record("technologies", TechList(unique));
      }
    }

    /** extract_social_media, given the page answer and its parse: the platforms with links, when there are any. */
    method ExtractSocialMedia(response: Option<Response>, page: Document)
      requires Consistent()
      modifies this
      ensures Consistent()
      ensures !Http.Truthy(response) ==> results == old(results)
      ensures Http.Truthy(response) ==>
        var profiles := KeepNonEmpty(BucketsOf(page.anchors, Platforms));
        results == if profiles != [] then old(results)["social_media" := ProfileMap(profiles)] else old(results)
    {
      if Http.Truthy(response) {
        var buckets := FileLinks(page.anchors, Platforms);
        var profiles := KeepNonEmpty(buckets);
        if profiles != [] {
          Record("social_media", ProfileMap(profiles));
        }
      }
    }

    /**
     * extract_image_metadata, given the page answer, its parse and the image
     * fetches: the entries of the images that answered 200, when there are
     * any; it also returns the URLs it fetched.
     */
    method ExtractImageMetadata(response: Option<Response>, page: Document, join: (string, string) -> string,
                                fetch: string -> Option<Response>)
      returns (requested: seq<string>)
      requires Consistent()
      modifies this
      ensures Consistent()
      ensures !Http.Truthy(response) ==> results == old(results) && requested == []
      ensures Http.Truthy(response) ==>
        var infos := InfosOf(Take(page.images, MaxImages), url, join, fetch);
        && requested == RequestsOf(Take(page.images, MaxImages), url, join)
        && results == if infos != [] then old(results)["image_metadata" := ImageList(infos)] else old(results)
    {
      requested := [];
      if Http.Truthy(response) {
        var infos;
        infos, requested := CollectImages(page.images, url, join, fetch);
        if infos != [] {
          ImageLimits(page.images, url, join, fetch);
          Record("image_metadata", ImageList(infos));
        }
      }
    }

    /** extract_js_libraries, given the page answer and its parse: an entry per script, when there are any. */
    method ExtractJsLibraries(response: Option<Response>, page: Document, join: (string, string) -> string)
      requires Consistent()
      modifies this
      ensures Consistent()
      ensures !Http.Truthy(response) ==> results == old(results)
      ensures Http.Truthy(response) ==>
        var libraries := LibrariesOf(page.scripts, url, join);
        results == if libraries != [] then old(results)["js_libraries" := LibraryList(libraries)] else old(results)
    {
      if Http.Truthy(response) {
        var libraries := ListLibraries(page.scripts, url, join);
        if libraries != [] {
          Record("js_libraries", LibraryList(libraries));
        }
      }
    }

    /**
     * extract_subdomains, given the names the zone transfers returned, the
     * page answer and its parse: the subdomains found, when there are any.
     */
    method ExtractSubdomains(transferred: seq<string>, response: Option<Response>, page: Document,
                               normalize: string -> string)
      requires Consistent()
      modifies this
      ensures Consistent()
      ensures var subdomains := Subdomains(transferred, if Http.Truthy(response) then page.anchors else [], domain, normalize);
        results == if subdomains != {} then old(results)["subdomains" := StrSet(subdomains)] else old(results)
    {
      var hrefs := if Http.Truthy(response) then page.anchors else [];
      var subdomains := CollectSubdomains(transferred, hrefs, domain, normalize);
      if subdomains != {} {
        forall s | s in subdomains
          ensures EndsWith(s, BaseDomain(domain)) && s != BaseDomain(domain)
        {
          SubdomainsSound(transferred, hrefs, domain, normalize, s);
        }
        Record("subdomains", StrSet(subdomains));
      }
    }
  }

  /** No step records a Web Server technology unless the answer it read carried a Server header. */
  lemma WebServerRecordedOnlyWithServerHeader(response: Response, x: Tech)
    requires x in Dedupe(Detect(response.text, response.headers)) && x.category == WebServer
    ensures Has(response.headers, "Server")
  {
    WebServerNeedsServerHeader(response.text, response.headers);
  }
}
