/**
 * Technology fingerprinting: fixed signature tables scanned in order against
 * the lower-cased page, the Server header and the printed headers, followed
 * by removal of entries whose lower-cased name was already seen.
 */
module Technologies {
  import opened Wrappers
  import opened Text
  import opened Http

  datatype Category = CMS | JavaScriptFramework | WebServer | Analytics | ProgrammingLanguage

  datatype Confidence = High | Medium

  /** The 'type' string recorded for a category. */
  function CategoryLabel(c: Category): string {
    match c
    case CMS => "CMS"
    case JavaScriptFramework => "JavaScript Framework"
    case WebServer => "Web Server"
    case Analytics => "Analytics"
    case ProgrammingLanguage => "Programming Language"
  }

  function ConfidenceLabel(c: Confidence): string {
    match c
    case High => "High"
    case Medium => "Medium"
  }

  /** One recorded technology: {'name': ..., 'type': ..., 'confidence': ...}. */
  datatype Tech = Tech(name: string, category: Category, confidence: Confidence)

  /** A technology name with the substrings that reveal it. */
  datatype Signature = Signature(name: string, patterns: seq<string>)

  /** A signature table; every match from it gets the same category and confidence. */
  datatype Table = Table(category: Category, confidence: Confidence, entries: seq<Signature>)

  const CmsTable := Table(CMS, High, [
    Signature("wordpress", ["wp-content", "wp-includes", "wordpress"]),
    Signature("joomla", ["joomla", "com_content", "com_users"]),
    Signature("drupal", ["drupal", "sites/all", "sites/default"]),
    Signature("magento", ["magento", "skin/frontend", "mage/"]),
    Signature("shopify", ["cdn.shopify.com", "shopify.com"]),
    Signature("wix", ["wix.com", "wixsite.com"]),
    Signature("squarespace", ["squarespace.com", "static.squarespace.com"]),
    Signature("webflow", ["webflow.com", "assets.website-files.com"])
  ])

  const FrameworkTable := Table(JavaScriptFramework, Medium, [
    Signature("jquery", ["jquery"]),
    Signature("react", ["react", "reactjs", "react.js", "react-dom"]),
    Signature("angular", ["angular", "ng-app", "ng-controller"]),
    Signature("vue", ["vue", "vue.js", "vuejs"]),
    Signature("bootstrap", ["bootstrap"]),
    Signature("tailwind", ["tailwind", "tailwindcss"]),
    Signature("gsap", ["gsap", "tweenmax"]),
    Signature("three.js", ["three.js", "threejs"])
  ])

  const ServerTable := Table(WebServer, High, [
    Signature("apache", ["apache"]),
    Signature("nginx", ["nginx"]),
    Signature("iis", ["iis", "microsoft-iis"]),
    Signature("cloudflare", ["cloudflare"]),
    Signature("litespeed", ["litespeed"]),
    Signature("openresty", ["openresty"])
  ])

  const AnalyticsTable := Table(Analytics, Medium, [
    Signature("google analytics", ["google-analytics.com", "ga.js", "analytics.js", "gtag"]),
    Signature("google tag manager", ["googletagmanager.com", "gtm.js"]),
    Signature("facebook pixel", ["connect.facebook.net", "fbevents.js"]),
    Signature("hotjar", ["hotjar.com", "hotjar"]),
    Signature("matomo", ["matomo.js", "piwik.js"]),
    Signature("mixpanel", ["mixpanel.com", "mixpanel"]),
    Signature("segment", ["segment.com", "segment"])
  ])

  const LanguageTable := Table(ProgrammingLanguage, Medium, [
    Signature("php", [".php", "php"]),
    Signature("asp.net", [".aspx", ".asp", "asp.net"]),
    Signature("java", [".jsp", "java", "jsessionid"]),
    Signature("python", ["python", "django", "flask"]),
    Signature("ruby", ["ruby", "rails"]),
    Signature("node.js", ["node", "express"])
  ])

  /** Where a table's patterns are looked for. */
  datatype Probe =
    | Content(html: string)                               // the lower-cased body
    | ContentOrHeaders(html: string, headerText: string)  // the body, then the lower-cased printed headers
    | Banner(server: string)                              // the Server header, both sides lower-cased

  predicate Hit(probe: Probe, pattern: string) {
    match probe
    case Content(html) => Contains(html, pattern)
    case ContentOrHeaders(html, headerText) => Contains(html, pattern) || Contains(headerText, pattern)
    case Banner(server) => Contains(Lower(server), Lower(pattern))
  }

  predicate AnyHit(patterns: seq<string>, probe: Probe) {
    exists j :: 0 <= j < |patterns| && Hit(probe, patterns[j])
  }

  /** The record a table entry produces: the capitalized name with the table's labels. */
  function Found(entry: Signature, category: Category, confidence: Confidence): Tech {
    Tech(Capitalize(entry.name), category, confidence)
  }

  /** The matches of a list of entries, in entry order, one per entry with a hit. */
  function MatchesOf(entries: seq<Signature>, category: Category, confidence: Confidence, probe: Probe): seq<Tech>
  {
    if entries == [] then []
    else
      var last := entries[|entries| - 1];
      MatchesOf(entries[..|entries| - 1], category, confidence, probe)
        + (if AnyHit(last.patterns, probe) then [Found(last, category, confidence)] else [])
  }

  function Matches(t: Table, probe: Probe): seq<Tech> {
    MatchesOf(t.entries, t.category, t.confidence, probe)
  }

  /**
   * One table scan of extract_technologies: for each entry, try its patterns
   * in order and record the entry at the first pattern that hits.
   */
  method ScanTable(t: Table, probe: Probe) returns (found: seq<Tech>)
    ensures found == Matches(t, probe)
  {
    found := [];
    for i := 0 to |t.entries|
      invariant found == MatchesOf(t.entries[..i], t.category, t.confidence, probe)
    {
      var entry := t.entries[i];
      assert t.entries[..i + 1][..i] == t.entries[..i];
      var j := 0;
      while j < |entry.patterns|
        invariant 0 <= j <= |entry.patterns|
        invariant found == MatchesOf(t.entries[..i], t.category, t.confidence, probe)
        invariant forall k :: 0 <= k < j ==> !Hit(probe, entry.patterns[k])
      {
        if Hit(probe, entry.patterns[j]) {
          found := found + [Found(entry, t.category, t.confidence)];
          break;
        }
        j := j + 1;
      }
    }
    assert t.entries[..|t.entries|] == t.entries;
  }

  /** The Server-header table's matches, or none when there is no Server header. */
  function ServerMatches(headers: Headers): seq<Tech> {
    match Lookup(headers, "Server")
    case Some(server) => Matches(ServerTable, Banner(server))
    case None => []
  }

  /** Every match of every table, in table order, before duplicates are removed. */
  function Detect(text: string, headers: Headers): seq<Tech> {
    var html := Lower(text);
    Matches(CmsTable, Content(html))
    + Matches(FrameworkTable, Content(html))
    + ServerMatches(headers)
    + Matches(AnalyticsTable, Content(html))
    + Matches(LanguageTable, ContentOrHeaders(html, Lower(HeadersText(headers))))
  }

  // ---------------------------------------------------------------------------
  // Removing duplicates by lower-cased name

  function Key(t: Tech): string {
    Lower(t.name)
  }

  function KeysOf(ts: seq<Tech>): (keys: set<string>)
    ensures forall k :: k in keys <==> exists i :: 0 <= i < |ts| && Key(ts[i]) == k
  {
    if ts == [] then {}
    else
      var init := ts[..|ts| - 1];
      var keys := KeysOf(init) + {Key(ts[|ts| - 1])};
      assert forall i :: 0 <= i < |ts| - 1 ==> ts[i] == init[i];
      keys
  }

  predicate NoDuplicateKeys(ts: seq<Tech>) {
    forall i, j :: 0 <= i < j < |ts| ==> Key(ts[i]) != Key(ts[j])
  }

  /** The entries kept by the duplicate removal: each whose key no earlier entry had. */
  function Dedupe(ts: seq<Tech>): seq<Tech> {
    if ts == [] then []
    else
      var init := ts[..|ts| - 1];
      var last := ts[|ts| - 1];
      if Key(last) in KeysOf(init) then Dedupe(init) else Dedupe(init) + [last]
  }

  /** The index of the first entry with the given key. */
  ghost function FirstIndex(ts: seq<Tech>, key: string): (i: nat)
    requires key in KeysOf(ts)
    ensures i < |ts| && Key(ts[i]) == key
    ensures forall j :: 0 <= j < i ==> Key(ts[j]) != key
  {
    var init := ts[..|ts| - 1];
    if key in KeysOf(init) then
      var i := FirstIndex(init, key);
      assert forall j :: 0 <= j < |init| ==> ts[j] == init[j];
      i
    else |ts| - 1
  }

  /** The loop at the end of extract_technologies, with its set of names already seen. */
  method RemoveDuplicates(technologies: seq<Tech>) returns (unique: seq<Tech>)
    ensures unique == Dedupe(technologies)
  {
    unique := [];
    var names: set<string> := {};
    for i := 0 to |technologies|
      invariant unique == Dedupe(technologies[..i])
      invariant names == KeysOf(technologies[..i])
    {
      var tech := technologies[i];
      assert technologies[..i + 1][..i] == technologies[..i];
      if Lower(tech.name) !in names {
        names := names + {Lower(tech.name)};
        unique := unique + [tech];
      }
    }
    assert technologies[..|technologies|] == technologies;
  }

  /** extract_technologies after the fetch: scan the five tables, then remove duplicates. */
  method DetectTechnologies(text: string, headers: Headers) returns (unique: seq<Tech>)
    ensures unique == Dedupe(Detect(text, headers))
  {
    var html := Lower(text);
    var cms := ScanTable(CmsTable, Content(html));
    var frameworks := ScanTable(FrameworkTable, Content(html));
    var servers: seq<Tech> := [];
    var server := Lookup(headers, "Server");
    if server.Some? {
      servers := ScanTable(ServerTable, Banner(server.value));
    }
    var analytics := ScanTable(AnalyticsTable, Content(html));
    var languages := ScanTable(LanguageTable, ContentOrHeaders(html, Lower(HeadersText(headers))));
    assert servers == ServerMatches(headers);
    var technologies := cms + frameworks + servers + analytics + languages;
    unique := RemoveDuplicates(technologies);
  }

  // ---------------------------------------------------------------------------
  // Properties of the tables

  /** Every name is written in lower case. */
  predicate NamesLower(entries: seq<Signature>) {
    forall i :: 0 <= i < |entries| ==> IsLower(entries[i].name)
  }

  /** No two entries share a name. */
  predicate NamesDiffer(entries: seq<Signature>) {
    forall i, j :: 0 <= i < j < |entries| ==> entries[i].name != entries[j].name
  }

  /** No entry of one list shares a name with an entry of the other. */
  predicate NamesApart(entries: seq<Signature>, others: seq<Signature>) {
    forall i, j :: 0 <= i < |entries| && 0 <= j < |others| ==> entries[i].name != others[j].name
  }

  /** No two entries have names that are equal ignoring case. */
  predicate DistinctNames(entries: seq<Signature>) {
    forall i, j :: 0 <= i < j < |entries| ==> Lower(entries[i].name) != Lower(entries[j].name)
  }

  predicate WellFormed(t: Table) {
    NamesLower(t.entries) && NamesDiffer(t.entries)
  }

  lemma CmsTableWellFormed()
    ensures WellFormed(CmsTable)
  {
    CmsNamesLower();
    CmsNamesDiffer();
  }

  lemma CmsNamesLower()
    ensures NamesLower(CmsTable.entries)
  {
    var e := CmsTable.entries;
    forall i | 0 <= i < |e|
      ensures IsLower(e[i].name)
    {
      if i == 0 {
        assert e[0].name == "wordpress";
      } else if i == 1 {
        assert e[1].name == "joomla";
      } else if i == 2 {
        assert e[2].name == "drupal";
      } else if i == 3 {
        assert e[3].name == "magento";
      } else if i == 4 {
        assert e[4].name == "shopify";
      } else if i == 5 {
        assert e[5].name == "wix";
      } else if i == 6 {
        assert e[6].name == "squarespace";
      } else if i == 7 {
        assert e[7].name == "webflow";
      }
    }
  }

  lemma CmsNamesDiffer()
    ensures NamesDiffer(CmsTable.entries)
  {
  }

  lemma FrameworkTableWellFormed()
    ensures WellFormed(FrameworkTable)
  {
    FrameworkNamesLower();
    FrameworkNamesDiffer();
  }

  lemma FrameworkNamesLower()
    ensures NamesLower(FrameworkTable.entries)
  {
    var e := FrameworkTable.entries;
    forall i | 0 <= i < |e|
      ensures IsLower(e[i].name)
    {
      if i == 0 {
        assert e[0].name == "jquery";
      } else if i == 1 {
        assert e[1].name == "react";
      } else if i == 2 {
        assert e[2].name == "angular";
      } else if i == 3 {
        assert e[3].name == "vue";
      } else if i == 4 {
        assert e[4].name == "bootstrap";
      } else if i == 5 {
        assert e[5].name == "tailwind";
      } else if i == 6 {
        assert e[6].name == "gsap";
      } else if i == 7 {
        assert e[7].name == "three.js";
      }
    }
  }

  lemma FrameworkNamesDiffer()
    ensures NamesDiffer(FrameworkTable.entries)
  {
  }

  lemma ServerTableWellFormed()
    ensures WellFormed(ServerTable)
  {
    ServerNamesLower();
    ServerNamesDiffer();
  }

  lemma ServerNamesLower()
    ensures NamesLower(ServerTable.entries)
  {
    var e := ServerTable.entries;
    forall i | 0 <= i < |e|
      ensures IsLower(e[i].name)
    {
      if i == 0 {
        assert e[0].name == "apache";
      } else if i == 1 {
        assert e[1].name == "nginx";
      } else if i == 2 {
        assert e[2].name == "iis";
      } else if i == 3 {
        assert e[3].name == "cloudflare";
      } else if i == 4 {
        assert e[4].name == "litespeed";
      } else if i == 5 {
        assert e[5].name == "openresty";
      }
    }
  }

  lemma ServerNamesDiffer()
    ensures NamesDiffer(ServerTable.entries)
  {
  }

  lemma AnalyticsTableWellFormed()
    ensures WellFormed(AnalyticsTable)
  {
    AnalyticsNamesLower();
    AnalyticsNamesDiffer();
  }

  lemma AnalyticsNamesLower()
    ensures NamesLower(AnalyticsTable.entries)
  {
    AnalyticsGoogleNamesLower();
    AnalyticsOtherNamesLower();
  }

  lemma AnalyticsGoogleNamesLower()
    ensures forall i :: 0 <= i < 3 ==> IsLower(AnalyticsTable.entries[i].name)
  {
    var e := AnalyticsTable.entries;
    forall i | 0 <= i < 3
      ensures IsLower(e[i].name)
    {
      if i == 0 {
        assert e[0].name == "google analytics";
      } else if i == 1 {
        assert e[1].name == "google tag manager";
      } else {
        assert e[2].name == "facebook pixel";
      }
    }
  }

  lemma AnalyticsOtherNamesLower()
    ensures forall i :: 3 <= i < |AnalyticsTable.entries| ==> IsLower(AnalyticsTable.entries[i].name)
  {
    var e := AnalyticsTable.entries;
    forall i | 3 <= i < |e|
      ensures IsLower(e[i].name)
    {
      if i == 3 {
        assert e[3].name == "hotjar";
      } else if i == 4 {
        assert e[4].name == "matomo";
      } else if i == 5 {
        assert e[5].name == "mixpanel";
      } else {
        assert e[6].name == "segment";
      }
    }
  }

  lemma AnalyticsNamesDiffer()
    ensures NamesDiffer(AnalyticsTable.entries)
  {
  }

  lemma LanguageTableWellFormed()
    ensures WellFormed(LanguageTable)
  {
    LanguageNamesLower();
    LanguageNamesDiffer();
  }

  lemma LanguageNamesLower()
    ensures NamesLower(LanguageTable.entries)
  {
    var e := LanguageTable.entries;
    forall i | 0 <= i < |e|
      ensures IsLower(e[i].name)
    {
      if i == 0 {
        assert e[0].name == "php";
      } else if i == 1 {
        assert e[1].name == "asp.net";
      } else if i == 2 {
        assert e[2].name == "java";
      } else if i == 3 {
        assert e[3].name == "python";
      } else if i == 4 {
        assert e[4].name == "ruby";
      } else if i == 5 {
        assert e[5].name == "node.js";
      }
    }
  }

  lemma LanguageNamesDiffer()
    ensures NamesDiffer(LanguageTable.entries)
  {
  }

  // No technology name occurs in two tables.

  lemma CmsFrameworkApart()
    ensures NamesApart(CmsTable.entries, FrameworkTable.entries)
  {
  }

  lemma CmsServerApart()
    ensures NamesApart(CmsTable.entries, ServerTable.entries)
  {
  }

  lemma CmsAnalyticsApart()
    ensures NamesApart(CmsTable.entries, AnalyticsTable.entries)
  {
  }

  lemma CmsLanguageApart()
    ensures NamesApart(CmsTable.entries, LanguageTable.entries)
  {
  }

  lemma FrameworkServerApart()
    ensures NamesApart(FrameworkTable.entries, ServerTable.entries)
  {
  }

  lemma FrameworkAnalyticsApart()
    ensures NamesApart(FrameworkTable.entries, AnalyticsTable.entries)
  {
  }

  lemma FrameworkLanguageApart()
    ensures NamesApart(FrameworkTable.entries, LanguageTable.entries)
  {
  }

  lemma ServerAnalyticsApart()
    ensures NamesApart(ServerTable.entries, AnalyticsTable.entries)
  {
  }

  lemma ServerLanguageApart()
    ensures NamesApart(ServerTable.entries, LanguageTable.entries)
  {
  }

  lemma AnalyticsLanguageApart()
    ensures NamesApart(AnalyticsTable.entries, LanguageTable.entries)
  {
  }

  lemma {:induction false} WellFormedDistinct(entries: seq<Signature>)
    requires NamesLower(entries) && NamesDiffer(entries)
    ensures DistinctNames(entries)
  {
    forall i, j | 0 <= i < j < |entries|
      ensures Lower(entries[i].name) != Lower(entries[j].name)
    {
      LowerOfLower(entries[i].name);
      LowerOfLower(entries[j].name);
    }
  }

  // ---------------------------------------------------------------------------
  // What one table scan records

  /** The record of an entry carries the entry's name, ignoring case. */
  lemma FoundKey(entry: Signature, category: Category, confidence: Confidence)
    ensures Key(Found(entry, category, confidence)) == Lower(entry.name)
  {
    CapitalizeCase(entry.name);
  }

  /** x is the record of one of the entries, and one of that entry's patterns hits. */
  predicate FoundIn(x: Tech, entries: seq<Signature>, category: Category, confidence: Confidence, probe: Probe) {
    exists k :: 0 <= k < |entries| && x == Found(entries[k], category, confidence) && AnyHit(entries[k].patterns, probe)
  }

  /** A record that comes from one of the first n entries comes from one of the entries. */
  lemma FoundInPrefix(x: Tech, entries: seq<Signature>, n: nat, category: Category, confidence: Confidence, probe: Probe)
    requires n <= |entries| && FoundIn(x, entries[..n], category, confidence, probe)
    ensures FoundIn(x, entries, category, confidence, probe)
  {
    var k :| 0 <= k < n && x == Found(entries[..n][k], category, confidence) && AnyHit(entries[..n][k].patterns, probe);
    assert entries[..n][k] == entries[k];
  }

  /** Each record of a scan comes from an entry with a hit; there is at most one per entry. */
  lemma {:induction false} MatchesOfSound(entries: seq<Signature>, category: Category, confidence: Confidence, probe: Probe)
    ensures var r := MatchesOf(entries, category, confidence, probe);
      |r| <= |entries| && forall i :: 0 <= i < |r| ==> FoundIn(r[i], entries, category, confidence, probe)
  {
    if entries != [] {
      var n := |entries| - 1;
      var init := entries[..n];
      var last := entries[n];
      MatchesOfSound(init, category, confidence, probe);
      var r0 := MatchesOf(init, category, confidence, probe);
      var r := MatchesOf(entries, category, confidence, probe);
      forall i | 0 <= i < |r0|
        ensures FoundIn(r0[i], entries, category, confidence, probe)
      {
        FoundInPrefix(r0[i], entries, n, category, confidence, probe);
      }
      if AnyHit(last.patterns, probe) {
        assert r == r0 + [Found(last, category, confidence)];
        assert FoundIn(Found(last, category, confidence), entries, category, confidence, probe);
      } else {
        assert r == r0;
      }
    }
  }

  /** When the names differ ignoring case, no two records of a scan share a name. */
  lemma {:induction false} MatchesOfUnique(entries: seq<Signature>, category: Category, confidence: Confidence, probe: Probe)
    requires DistinctNames(entries)
    ensures NoDuplicateKeys(MatchesOf(entries, category, confidence, probe))
  {
    if entries != [] {
      var n := |entries| - 1;
      var init := entries[..n];
      var last := entries[n];
      assert DistinctNames(init) by {
        assert forall k :: 0 <= k < n ==> init[k] == entries[k];
      }
      MatchesOfUnique(init, category, confidence, probe);
      NewKeyNotFound(init, Lower(last.name), category, confidence, probe);
      FoundKey(last, category, confidence);
      var r0 := MatchesOf(init, category, confidence, probe);
      var r := MatchesOf(entries, category, confidence, probe);
      assert r == r0 + (if AnyHit(last.patterns, probe) then [Found(last, category, confidence)] else []);
      forall i, j | 0 <= i < j < |r|
        ensures Key(r[i]) != Key(r[j])
      {
        assert r[i] == r0[i];
        if j < |r0| {
          assert r[j] == r0[j];
        } else {
          assert r[j] == Found(last, category, confidence) && r0[i] in r0;
        }
      }
    }
  }

  /** When the names differ ignoring case, an entry's record is in the scan exactly when one of its patterns hits. */
  lemma {:induction false} MatchesOfComplete(entries: seq<Signature>, category: Category, confidence: Confidence, probe: Probe, k: nat)
    requires DistinctNames(entries) && k < |entries|
    ensures Found(entries[k], category, confidence) in MatchesOf(entries, category, confidence, probe)
      <==> AnyHit(entries[k].patterns, probe)
  {
    var n := |entries| - 1;
    var init := entries[..n];
    var last := entries[n];
    var f := Found(entries[k], category, confidence);
    var r0 := MatchesOf(init, category, confidence, probe);
    var tail := if AnyHit(last.patterns, probe) then [Found(last, category, confidence)] else [];
    assert MatchesOf(entries, category, confidence, probe) == r0 + tail;
    if k < n {
      assert init[k] == entries[k];
      assert DistinctNames(init) by {
        assert forall a :: 0 <= a < n ==> init[a] == entries[a];
      }
      MatchesOfComplete(init, category, confidence, probe, k);
      FoundKey(entries[k], category, confidence);
      FoundKey(last, category, confidence);
      assert f !in tail;
    } else {
      assert forall a :: 0 <= a < n ==> init[a] == entries[a];
      NewKeyNotFound(init, Lower(last.name), category, confidence, probe);
      FoundKey(last, category, confidence);
    }
  }

  /** No record of a scan carries a name that differs, ignoring case, from every entry's name. */
  lemma NewKeyNotFound(entries: seq<Signature>, name: string, category: Category, confidence: Confidence, probe: Probe)
    requires forall k :: 0 <= k < |entries| ==> Lower(entries[k].name) != name
    ensures forall x :: x in MatchesOf(entries, category, confidence, probe) ==> Key(x) != name
  {
    var r := MatchesOf(entries, category, confidence, probe);
    MatchesOfSound(entries, category, confidence, probe);
    forall x | x in r
      ensures Key(x) != name
    {
      var i :| 0 <= i < |r| && r[i] == x;
      var k :| 0 <= k < |entries| && r[i] == Found(entries[k], category, confidence) && AnyHit(entries[k].patterns, probe);
      FoundKey(entries[k], category, confidence);
    }
  }

  /** The record of a table entry is in the scan exactly when one of its patterns hits. */
  lemma ScanRecordsHits(t: Table, probe: Probe, k: nat)
    requires WellFormed(t) && k < |t.entries|
    ensures Found(t.entries[k], t.category, t.confidence) in Matches(t, probe)
      <==> AnyHit(t.entries[k].patterns, probe)
  {
    WellFormedDistinct(t.entries);
    MatchesOfComplete(t.entries, t.category, t.confidence, probe, k);
  }

  // ---------------------------------------------------------------------------
  // What the duplicate removal keeps

  /** The duplicate removal keeps one record for every name ignoring case, and no more. */
  lemma {:induction false} DedupeUnique(ts: seq<Tech>)
    ensures NoDuplicateKeys(Dedupe(ts))
    ensures KeysOf(Dedupe(ts)) == KeysOf(ts)
  {
    if ts != [] {
      var n := |ts| - 1;
      var init := ts[..n];
      var last := ts[n];
      DedupeUnique(init);
      var d := Dedupe(init);
      assert KeysOf(ts) == KeysOf(init) + {Key(last)};
      if Key(last) !in KeysOf(init) {
        UniqueAppend(d, last);
      }
    }
  }

  /** Appending a record with a new name keeps the names distinct and adds that name. */
  lemma UniqueAppend(d: seq<Tech>, x: Tech)
    requires NoDuplicateKeys(d) && Key(x) !in KeysOf(d)
    ensures NoDuplicateKeys(d + [x]) && KeysOf(d + [x]) == KeysOf(d) + {Key(x)}
  {
    var d2 := d + [x];
    assert d2[..|d2| - 1] == d && d2[|d2| - 1] == x;
    assert KeysOf(d2) == KeysOf(d) + {Key(x)};
    forall i, j | 0 <= i < j < |d2|
      ensures Key(d2[i]) != Key(d2[j])
    {
      assert d2[i] == d[i];
      if j < |d| {
        assert d2[j] == d[j];
      } else {
        assert Key(d[i]) in KeysOf(d);
      }
    }
  }

  /**
   * Each kept record is the first record with its name, and the kept records
   * are in the order of those first occurrences.
   */
  lemma {:induction false} DedupeKeepsFirstOccurrences(ts: seq<Tech>)
    ensures forall i :: 0 <= i < |Dedupe(ts)| ==>
      Key(Dedupe(ts)[i]) in KeysOf(ts) && Dedupe(ts)[i] == ts[FirstIndex(ts, Key(Dedupe(ts)[i]))]
    ensures forall i, j :: 0 <= i < j < |Dedupe(ts)| ==>
      FirstIndex(ts, Key(Dedupe(ts)[i])) < FirstIndex(ts, Key(Dedupe(ts)[j]))
  {
    if ts != [] {
      var n := |ts| - 1;
      var init := ts[..n];
      var last := ts[n];
      DedupeKeepsFirstOccurrences(init);
      var r0 := Dedupe(init);
      assert forall i :: 0 <= i < |r0| ==> Key(r0[i]) in KeysOf(init);
      assert KeysOf(ts) == KeysOf(init) + {Key(last)};
      forall i | 0 <= i < |r0|
        ensures Key(r0[i]) in KeysOf(ts) && FirstIndex(ts, Key(r0[i])) == FirstIndex(init, Key(r0[i])) < n
        ensures r0[i] == ts[FirstIndex(ts, Key(r0[i]))]
      {
        var k := FirstIndex(init, Key(r0[i]));
        assert init[k] == ts[k];
      }
      if Key(last) !in KeysOf(init) {
        var r := r0 + [last];
        assert FirstIndex(ts, Key(last)) == n;
        forall i | 0 <= i < |r|
          ensures Key(r[i]) in KeysOf(ts) && r[i] == ts[FirstIndex(ts, Key(r[i]))]
          ensures FirstIndex(ts, Key(r[i])) <= n
        {
          if i < |r0| {
            assert r[i] == r0[i];
          }
        }
        forall i, j | 0 <= i < j < |r|
          ensures FirstIndex(ts, Key(r[i])) < FirstIndex(ts, Key(r[j]))
        {
          assert r[i] == r0[i];
          if j < |r0| {
            assert r[j] == r0[j];
          }
        }
      }
    }
  }

  /** A list without repeated names passes through the duplicate removal unchanged. */
  lemma {:induction false} DedupeOfUnique(ts: seq<Tech>)
    requires NoDuplicateKeys(ts)
    ensures Dedupe(ts) == ts
  {
    if ts != [] {
      var n := |ts| - 1;
      var init := ts[..n];
      assert NoDuplicateKeys(init);
      DedupeOfUnique(init);
      assert Key(ts[n]) !in KeysOf(init);
      assert Dedupe(ts) == init + [ts[n]];
      assert init + [ts[n]] == ts;
    }
  }

  // ---------------------------------------------------------------------------
  // What the whole detection reports

  /** Every record of a table scan carries the table's category and confidence. */
  lemma MatchesLabels(t: Table, probe: Probe)
    ensures forall x :: x in Matches(t, probe) ==> x.category == t.category && x.confidence == t.confidence
  {
    MatchesOfSound(t.entries, t.category, t.confidence, probe);
  }

  /** A record is detected exactly when the scan of the table of its category produced it. */
  lemma DetectByCategory(text: string, headers: Headers, x: Tech)
    ensures var html := Lower(text);
      x in Detect(text, headers) <==>
        (x.category == CMS && x in Matches(CmsTable, Content(html)))
        || (x.category == JavaScriptFramework && x in Matches(FrameworkTable, Content(html)))
        || (x.category == WebServer && x in ServerMatches(headers))
        || (x.category == Analytics && x in Matches(AnalyticsTable, Content(html)))
        || (x.category == ProgrammingLanguage
            && x in Matches(LanguageTable, ContentOrHeaders(html, Lower(HeadersText(headers)))))
  {
    var html := Lower(text);
    MatchesLabels(CmsTable, Content(html));
    MatchesLabels(FrameworkTable, Content(html));
    if server :| Lookup(headers, "Server") == Some(server) {
      MatchesLabels(ServerTable, Banner(server));
    }
    MatchesLabels(AnalyticsTable, Content(html));
    MatchesLabels(LanguageTable, ContentOrHeaders(html, Lower(HeadersText(headers))));
  }

  /** A "Web Server" record is only ever reported when the response has a Server header. */
  lemma WebServerNeedsServerHeader(text: string, headers: Headers)
    ensures forall x :: x in Dedupe(Detect(text, headers)) && x.category == WebServer ==> Has(headers, "Server")
  {
    var ts := Detect(text, headers);
    var r := Dedupe(ts);
    DedupeKeepsFirstOccurrences(ts);
    forall x | x in r && x.category == WebServer
      ensures Has(headers, "Server")
    {
      var i :| 0 <= i < |r| && r[i] == x;
      assert x in ts;
      DetectByCategory(text, headers, x);
    }
  }

  /**
   * A CMS, JavaScript framework or analytics entry is detected exactly when
   * one of its patterns occurs in the lower-cased page.
   */
  lemma PageTableDetection(t: Table, text: string, headers: Headers, k: nat)
    requires t == CmsTable || t == FrameworkTable || t == AnalyticsTable
    requires k < |t.entries|
    ensures Found(t.entries[k], t.category, t.confidence) in Detect(text, headers)
      <==> exists p :: p in t.entries[k].patterns && Contains(Lower(text), p)
  {
    if t == CmsTable {
      CmsTableWellFormed();
    } else if t == FrameworkTable {
      FrameworkTableWellFormed();
    } else {
      AnalyticsTableWellFormed();
    }
    ScanRecordsHits(t, Content(Lower(text)), k);
    DetectByCategory(text, headers, Found(t.entries[k], t.category, t.confidence));
    var ps := t.entries[k].patterns;
    assert AnyHit(ps, Content(Lower(text))) <==> exists p :: p in ps && Contains(Lower(text), p) by {
      if exists p :: p in ps && Contains(Lower(text), p) {
        var p :| p in ps && Contains(Lower(text), p);
        var j :| 0 <= j < |ps| && ps[j] == p;
        assert Hit(Content(Lower(text)), ps[j]);
      }
    }
  }

  /**
   * A web server entry is detected exactly when there is a Server header and
   * one of the entry's patterns occurs in its value, ignoring case.
   */
  lemma ServerDetection(text: string, headers: Headers, k: nat)
    requires k < |ServerTable.entries|
    ensures Found(ServerTable.entries[k], WebServer, High) in Detect(text, headers)
      <==> (Has(headers, "Server")
             && exists p :: p in ServerTable.entries[k].patterns
                  && ContainsIgnoringCase(Lookup(headers, "Server").value, p))
  {
    var e := ServerTable.entries[k];
    DetectByCategory(text, headers, Found(e, WebServer, High));
    if server :| Lookup(headers, "Server") == Some(server) {
      ServerTableWellFormed();
      ScanRecordsHits(ServerTable, Banner(server), k);
      assert AnyHit(e.patterns, Banner(server))
        <==> exists p :: p in e.patterns && ContainsIgnoringCase(server, p) by {
        forall j | 0 <= j < |e.patterns|
          ensures Hit(Banner(server), e.patterns[j]) <==> ContainsIgnoringCase(server, e.patterns[j])
        {
          BannerIgnoresCase(server, e.patterns[j]);
        }
        if exists p :: p in e.patterns && ContainsIgnoringCase(server, p) {
          var p :| p in e.patterns && ContainsIgnoringCase(server, p);
          var j :| 0 <= j < |e.patterns| && e.patterns[j] == p;
        }
      }
    }
  }

  /** The Server header is compared with both sides lower-cased: a search that ignores case. */
  lemma BannerIgnoresCase(server: string, pattern: string)
    ensures Hit(Banner(server), pattern) <==> ContainsIgnoringCase(server, pattern)
  {
    LowerIsLower(pattern);
    CaseInsensitiveSearch(server, Lower(pattern));
    LowerTwice(pattern);
    assert forall i :: OccursIgnoringCaseAt(server, Lower(pattern), i) <==> OccursIgnoringCaseAt(server, pattern, i);
  }

  /**
   * A programming language entry is detected exactly when one of its
   * patterns occurs in the lower-cased page or the lower-cased printed headers.
   */
  lemma LanguageDetection(text: string, headers: Headers, k: nat)
    requires k < |LanguageTable.entries|
    ensures Found(LanguageTable.entries[k], ProgrammingLanguage, Medium) in Detect(text, headers)
      <==> exists p :: p in LanguageTable.entries[k].patterns
             && (Contains(Lower(text), p) || Contains(Lower(HeadersText(headers)), p))
  {
    var e := LanguageTable.entries[k];
    var probe := ContentOrHeaders(Lower(text), Lower(HeadersText(headers)));
    LanguageTableWellFormed();
    ScanRecordsHits(LanguageTable, probe, k);
    DetectByCategory(text, headers, Found(e, ProgrammingLanguage, Medium));
    if exists p :: p in e.patterns && (Contains(Lower(text), p) || Contains(Lower(HeadersText(headers)), p)) {
      var p :| p in e.patterns && (Contains(Lower(text), p) || Contains(Lower(HeadersText(headers)), p));
      var j :| 0 <= j < |e.patterns| && e.patterns[j] == p;
      assert Hit(probe, e.patterns[j]);
    }
  }

  /** A language pattern written in a header value is found through the printed headers. */
  lemma LanguageInHeaderValue(text: string, headers: Headers, k: nat, i: nat, p: string)
    requires k < |LanguageTable.entries| && p in LanguageTable.entries[k].patterns
    requires i < |headers| && IsLower(p) && Contains(Lower(headers[i].value), p)
    ensures Found(LanguageTable.entries[k], ProgrammingLanguage, Medium) in Detect(text, headers)
  {
    HeadersTextShowsValues(headers, i);
    ContainsLower(HeadersText(headers), headers[i].value);
    ContainsTransitive(Lower(HeadersText(headers)), Lower(headers[i].value), p);
    LanguageDetection(text, headers, k);
  }

  /** Every record's name, ignoring case, is the name of one of the entries. */
  predicate KeysFrom(ts: seq<Tech>, entries: seq<Signature>) {
    forall i :: 0 <= i < |ts| ==> KeyFrom(ts[i], entries)
  }

  /** The record's name, ignoring case, is the name of one of the entries. */
  predicate KeyFrom(t: Tech, entries: seq<Signature>) {
    exists k :: 0 <= k < |entries| && Key(t) == entries[k].name
  }

  lemma MatchesKeysFrom(t: Table, probe: Probe)
    requires NamesLower(t.entries)
    ensures KeysFrom(Matches(t, probe), t.entries)
  {
    var r := Matches(t, probe);
    MatchesOfSound(t.entries, t.category, t.confidence, probe);
    forall i | 0 <= i < |r|
      ensures KeyFrom(r[i], t.entries)
    {
      var k :| 0 <= k < |t.entries| && r[i] == Found(t.entries[k], t.category, t.confidence)
        && AnyHit(t.entries[k].patterns, probe);
      FoundKey(t.entries[k], t.category, t.confidence);
      LowerOfLower(t.entries[k].name);
    }
  }

  /** Joining two record lists whose names come from separate tables creates no repeated name. */
  lemma UniqueConcat(a: seq<Tech>, b: seq<Tech>, ea: seq<Signature>, eb: seq<Signature>)
    requires NoDuplicateKeys(a) && NoDuplicateKeys(b)
    requires KeysFrom(a, ea) && KeysFrom(b, eb) && NamesApart(ea, eb)
    ensures NoDuplicateKeys(a + b) && KeysFrom(a + b, ea + eb)
  {
    var ab := a + b;
    forall i, j | 0 <= i < j < |ab|
      ensures Key(ab[i]) != Key(ab[j])
    {
      if i < |a| && j >= |a| {
        var ka :| 0 <= ka < |ea| && Key(a[i]) == ea[ka].name;
        var kb :| 0 <= kb < |eb| && Key(b[j - |a|]) == eb[kb].name;
        assert ab[i] == a[i] && ab[j] == b[j - |a|];
      } else if i >= |a| {
        assert ab[i] == b[i - |a|] && ab[j] == b[j - |a|];
      } else {
        assert ab[i] == a[i] && ab[j] == a[j];
      }
    }
    KeysFromConcat(a, b, ea, eb);
  }

  lemma KeysFromConcat(a: seq<Tech>, b: seq<Tech>, ea: seq<Signature>, eb: seq<Signature>)
    requires KeysFrom(a, ea) && KeysFrom(b, eb)
    ensures KeysFrom(a + b, ea + eb)
  {
    var ab, eab := a + b, ea + eb;
    forall i | 0 <= i < |ab|
      ensures KeyFrom(ab[i], eab)
    {
      if i < |a| {
        assert KeyFrom(a[i], ea);
        var k :| 0 <= k < |ea| && Key(a[i]) == ea[k].name;
        assert ab[i] == a[i] && eab[k] == ea[k];
      } else {
        var j := i - |a|;
        assert ab[i] == b[j];
        assert KeyFrom(b[j], eb);
        var k :| 0 <= k < |eb| && Key(b[j]) == eb[k].name;
        assert eab[|ea| + k] == eb[k];
      }
    }
  }

  lemma NamesApartConcat(ea: seq<Signature>, eb: seq<Signature>, ec: seq<Signature>)
    requires NamesApart(ea, ec) && NamesApart(eb, ec)
    ensures NamesApart(ea + eb, ec)
  {
    forall i, j | 0 <= i < |ea + eb| && 0 <= j < |ec|
      ensures (ea + eb)[i].name != ec[j].name
    {
      if i >= |ea| {
        assert (ea + eb)[i] == eb[i - |ea|];
      }
    }
  }

  lemma ScanUnique(t: Table, probe: Probe)
    requires WellFormed(t)
    ensures NoDuplicateKeys(Matches(t, probe)) && KeysFrom(Matches(t, probe), t.entries)
  {
    WellFormedDistinct(t.entries);
    MatchesOfUnique(t.entries, t.category, t.confidence, probe);
    MatchesKeysFrom(t, probe);
  }

  /**
   * No name is ever detected twice, so the duplicate removal of
   * extract_technologies never drops anything.
   */
  lemma DetectHasNoDuplicates(text: string, headers: Headers)
    ensures NoDuplicateKeys(Detect(text, headers))
    ensures Dedupe(Detect(text, headers)) == Detect(text, headers)
  {
    var html := Lower(text);
    var cms := Matches(CmsTable, Content(html));
    var frameworks := Matches(FrameworkTable, Content(html));
    var servers := ServerMatches(headers);
    var analytics := Matches(AnalyticsTable, Content(html));
    var languages := Matches(LanguageTable, ContentOrHeaders(html, Lower(HeadersText(headers))));
    CmsTableWellFormed();
    FrameworkTableWellFormed();
    ServerTableWellFormed();
    AnalyticsTableWellFormed();
    LanguageTableWellFormed();
    CmsFrameworkApart();
    CmsServerApart();
    CmsAnalyticsApart();
    CmsLanguageApart();
    FrameworkServerApart();
    FrameworkAnalyticsApart();
    FrameworkLanguageApart();
    ServerAnalyticsApart();
    ServerLanguageApart();
    AnalyticsLanguageApart();
    ScanUnique(CmsTable, Content(html));
    ScanUnique(FrameworkTable, Content(html));
    if server :| Lookup(headers, "Server") == Some(server) {
      ScanUnique(ServerTable, Banner(server));
      assert servers == Matches(ServerTable, Banner(server));
    } else {
      assert servers == [];
    }
    ScanUnique(AnalyticsTable, Content(html));
    ScanUnique(LanguageTable, ContentOrHeaders(html, Lower(HeadersText(headers))));
    var e1 := CmsTable.entries;
    var e2 := e1 + FrameworkTable.entries;
    var e3 := e2 + ServerTable.entries;
    var e4 := e3 + AnalyticsTable.entries;
    UniqueConcat(cms, frameworks, e1, FrameworkTable.entries);
    NamesApartConcat(e1, FrameworkTable.entries, ServerTable.entries);
    UniqueConcat(cms + frameworks, servers, e2, ServerTable.entries);
    NamesApartConcat(e1, FrameworkTable.entries, AnalyticsTable.entries);
    NamesApartConcat(e2, ServerTable.entries, AnalyticsTable.entries);
    UniqueConcat(cms + frameworks + servers, analytics, e3, AnalyticsTable.entries);
    NamesApartConcat(e1, FrameworkTable.entries, LanguageTable.entries);
    NamesApartConcat(e2, ServerTable.entries, LanguageTable.entries);
    NamesApartConcat(e3, AnalyticsTable.entries, LanguageTable.entries);
    UniqueConcat(cms + frameworks + servers + analytics, languages, e4, LanguageTable.entries);
    assert Detect(text, headers) == cms + frameworks + servers + analytics + languages;
    DedupeOfUnique(Detect(text, headers));
  }
}
