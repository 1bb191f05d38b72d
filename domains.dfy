/**
 * Host names: the network location urlparse finds in a URL, the base domain
 * (the last two labels of the host), the subdomains collected from zone
 * transfer answers and page links, and the scheme a bare target is given.
 */
module Domains {
  import opened Wrappers
  import opened Text

  /** Characters urlsplit removes before it looks at a URL: C0 controls and the space. */
  predicate IsControlOrSpace(c: char) {
    c <= ' '
  }

  /** `url.lstrip(_WHATWG_C0_CONTROL_OR_SPACE)` */
  function StripLeading(url: string): (r: string)
    ensures |r| <= |url| && r == url[|url| - |r|..]
    ensures forall k :: 0 <= k < |url| - |r| ==> IsControlOrSpace(url[k])
    ensures r == [] || !IsControlOrSpace(r[0])
  {
    if url != [] && IsControlOrSpace(url[0]) then
      var r := StripLeading(url[1..]);
      assert url[1..][|url| - 1 - |r|..] == url[|url| - |r|..];
      r
    else url
  }

  /** Tab, carriage return and line feed, which urlsplit deletes wherever they occur. */
  predicate IsUnsafe(c: char) {
    c == '\t' || c == '\r' || c == '\n'
  }

  function RemoveUnsafe(url: string): (r: string)
    ensures forall k :: 0 <= k < |r| ==> !IsUnsafe(r[k])
  {
    if url == [] then []
    else (if IsUnsafe(url[0]) then [] else [url[0]]) + RemoveUnsafe(url[1..])
  }

  /** Removal works piece by piece: the other characters are kept, in order. */
  lemma {:induction false} RemoveUnsafeConcat(a: string, b: string)
    ensures RemoveUnsafe(a + b) == RemoveUnsafe(a) + RemoveUnsafe(b)
  {
    if a != [] {
      var ab := a + b;
      var head := if IsUnsafe(a[0]) then [] else [a[0]];
      assert ab[0] == a[0] && ab[1..] == a[1..] + b;
      assert RemoveUnsafe(ab) == head + RemoveUnsafe(a[1..] + b);
      RemoveUnsafeConcat(a[1..], b);
      assert RemoveUnsafe(a) == head + RemoveUnsafe(a[1..]);
    } else {
      assert a + b == b;
    }
  }

  /** A single tab, carriage return or line feed is deleted; any other character is kept as it is. */
  lemma RemoveUnsafeOne(c: char)
    ensures RemoveUnsafe([c]) == if IsUnsafe(c) then [] else [c]
  {
    assert [c][1..] == [];
  }

  lemma {:induction false} RemoveUnsafeKeeps(url: string)
    requires forall k :: 0 <= k < |url| ==> !IsUnsafe(url[k])
    ensures RemoveUnsafe(url) == url
  {
    if url != [] {
      RemoveUnsafeKeeps(url[1..]);
      assert [url[0]] + url[1..] == url;
    }
  }

  /** The index of the first c in s, or |s| when there is none. */
  function IndexOf(s: string, c: char): (r: nat)
    ensures r <= |s| && c !in s[..r] && (r < |s| ==> s[r] == c)
  {
    if s == [] then 0
    else if s[0] == c then 0
    else
      var r := 1 + IndexOf(s[1..], c);
      assert s[..r] == [s[0]] + s[1..][..r - 1];
      r
  }

  predicate IsSchemeChar(c: char) {
    IsLetter(c) || IsDigit(c) || c == '+' || c == '-' || c == '.'
  }

  /** What follows the scheme and its colon, when the text before the first colon is a scheme. */
  function AfterScheme(url: string): string {
    var i := IndexOf(url, ':');
    if 0 < i < |url| && IsLetter(url[0]) && forall k :: 0 <= k < i ==> IsSchemeChar(url[k]) then url[i + 1..]
    else url
  }

  predicate IsDelimiter(c: char) {
    c == '/' || c == '?' || c == '#'
  }

  /** The first '/', '?' or '#' at or after index from, or |s|. */
  function DelimiterFrom(s: string, from: nat): (r: nat)
    requires from <= |s|
    ensures from <= r <= |s| && (r < |s| ==> IsDelimiter(s[r]))
    ensures forall k :: from <= k < r ==> !IsDelimiter(s[k])
    decreases |s| - from
  {
    if from == |s| || IsDelimiter(s[from]) then from else DelimiterFrom(s, from + 1)
  }

  /** What urlsplit looks at once it has cleaned the URL. */
  function Sanitize(url: string): string {
    RemoveUnsafe(StripLeading(url))
  }

  /** The location of what follows the scheme: after "//", up to the first '/', '?' or '#'; empty without "//". */
  function LocationOf(rest: string): (r: string)
    ensures forall k :: 0 <= k < |r| ==> !IsDelimiter(r[k])
  {
    if StartsWith(rest, "//") then
      var e := DelimiterFrom(rest, 2);
      assert forall k :: 0 <= k < e - 2 ==> rest[2..e][k] == rest[2 + k];
      rest[2..e]
    else []
  }

  /** `urlparse(url).netloc` */
  function Netloc(url: string): (r: string)
    ensures forall k :: 0 <= k < |r| ==> !IsDelimiter(r[k])
  {
    LocationOf(AfterScheme(Sanitize(url)))
  }

  /** urlsplit refuses a location with an unmatched bracket ("Invalid IPv6 URL"). */
  predicate BracketsMatched(netloc: string) {
    ('[' in netloc) == (']' in netloc)
  }

  /** A host is plain when it holds nothing that a URL would read as ending it or that urlsplit would drop. */
  predicate PlainHost(host: string) {
    forall k :: 0 <= k < |host| ==> !IsDelimiter(host[k]) && !IsUnsafe(host[k])
  }

  /** Nothing is removed from a URL that starts with a letter and has no tab or line break. */
  lemma SanitizeKeeps(url: string)
    requires url != [] && IsLetter(url[0])
    requires forall k :: 0 <= k < |url| ==> !IsUnsafe(url[k])
    ensures Sanitize(url) == url
  {
    RemoveUnsafeKeeps(url);
  }

  /** The http and https schemes are recognised and removed with their colon. */
  lemma AfterHttpScheme(prefix: string, rest: string)
    requires prefix == "http://" || prefix == "https://"
    ensures AfterScheme(prefix + rest) == "//" + rest
  {
    var url := prefix + rest;
    var n := |prefix| - 3;
    var i := IndexOf(url, ':');
    assert url[n] == ':';
    assert forall k :: 0 <= k < n ==> url[k] == prefix[k];
    if i < n {
      assert false;
    }
    assert url[..i + 1][n] == ':';
    if i > n {
      assert false;
    }
    assert url[i + 1..] == prefix[n + 1..] + rest;
  }

  /** After "//", a plain host followed by a path that starts with a delimiter is the location. */
  lemma LocationOfHost(host: string, path: string)
    requires PlainHost(host)
    requires path == [] || IsDelimiter(path[0])
    ensures LocationOf("//" + host + path) == host
  {
    var rest := "//" + host + path;
    var e := DelimiterFrom(rest, 2);
    if e < 2 + |host| {
      assert false;
    }
    assert 2 + |host| < |rest| ==> rest[2 + |host|] == path[0];
    if e > 2 + |host| {
      assert false;
    }
    assert rest[2..e] == host;
  }

  /** The location of an http URL is its host, whatever path follows. */
  lemma NetlocOfHttpUrl(prefix: string, host: string, path: string)
    requires prefix == "http://" || prefix == "https://"
    requires PlainHost(host) && forall k :: 0 <= k < |path| ==> !IsUnsafe(path[k])
    requires path == [] || IsDelimiter(path[0])
    ensures Netloc(prefix + host + path) == host
  {
    var rest := host + path;
    var url := prefix + rest;
    assert prefix + host + path == url;
    SafeConcat(host, path);
    SchemeIsSafe(prefix);
    SafeConcat(prefix, rest);
    assert url[0] == 'h';
    SanitizeKeeps(url);
    AfterHttpScheme(prefix, rest);
    assert "//" + rest == "//" + host + path;
    LocationOfHost(host, path);
    assert Netloc(url) == LocationOf(AfterScheme(url)) == LocationOf("//" + host + path);
  }

  /** The http and https prefixes hold no tab or line break. */
  lemma SchemeIsSafe(prefix: string)
    requires prefix == "http://" || prefix == "https://"
    ensures forall k :: 0 <= k < |prefix| ==> !IsUnsafe(prefix[k])
  {
  }

  /** Two pieces without tab or line break make a URL without them. */
  lemma SafeConcat(a: string, b: string)
    requires forall k :: 0 <= k < |a| ==> !IsUnsafe(a[k])
    requires forall k :: 0 <= k < |b| ==> !IsUnsafe(b[k])
    ensures forall k :: 0 <= k < |a + b| ==> !IsUnsafe((a + b)[k])
  {
    forall k | |a| <= k < |a + b| ensures !IsUnsafe((a + b)[k]) {
      assert (a + b)[k] == b[k - |a|];
    }
  }

  /**
   * The base domain: the last two dot-separated labels when the host has
   * more than two, otherwise the host itself.
   */
  function BaseDomain(domain: string): string {
    var labels := Split(domain, '.');
    if |labels| > 2 then Join(labels[|labels| - 2..], '.') else domain
  }

  /** A join of trailing pieces is a suffix of the join of all pieces. */
  lemma {:induction false} JoinSuffix(parts: seq<string>, sep: char, k: nat)
    requires k < |parts|
    ensures EndsWith(Join(parts, sep), Join(parts[k..], sep))
  {
    if k > 0 {
      JoinSuffix(parts[1..], sep, k - 1);
      assert parts[1..][k - 1..] == parts[k..];
      var tail := Join(parts[1..], sep);
      var whole := Join(parts, sep);
      assert whole == parts[0] + [sep] + tail;
      var j := Join(parts[k..], sep);
      assert whole[|whole| - |tail|..] == tail;
      assert whole[|whole| - |j|..] == tail[|tail| - |j|..];
    } else {
      assert parts[0..] == parts;
    }
  }

  /**
   * The host ends with its base domain, and when the host has more than two
   * labels the base domain consists of exactly its last two labels.
   */
  lemma BaseDomainIsSuffix(domain: string)
    ensures EndsWith(domain, BaseDomain(domain))
    ensures var labels := Split(domain, '.');
      |labels| > 2 ==> Split(BaseDomain(domain), '.') == labels[|labels| - 2..]
  {
    var labels := Split(domain, '.');
    if |labels| > 2 {
      JoinSplit(domain, '.');
      JoinSuffix(labels, '.', |labels| - 2);
      SplitJoin(labels[|labels| - 2..], '.');
    }
  }

  /** A base domain has at most two labels, and a host with at most two labels is its own base domain. */
  lemma BaseDomainLabels(domain: string)
    ensures |Split(domain, '.')| <= 2 ==> BaseDomain(domain) == domain
    ensures |Split(BaseDomain(domain), '.')| <= 2
  {
    BaseDomainIsSuffix(domain);
  }

  /** A name from a zone transfer is kept when it ends with the base domain and is not the base domain. */
  predicate TransferredSubdomain(name: string, base: string) {
    EndsWith(name, base) && name != base
  }

  /** Python's str.isascii(). */
  predicate IsAscii(s: string) {
    forall k :: 0 <= k < |s| ==> s[k] < '\U{80}'
  }

  /** The location without the '@', ':', '#' and '?' characters, which urlsplit drops before it normalises. */
  function WithoutSeparators(netloc: string): (r: string)
    ensures forall k :: 0 <= k < |r| ==> r[k] !in "@:#?"
  {
    if netloc == [] then []
    else (if netloc[0] in "@:#?" then [] else [netloc[0]]) + WithoutSeparators(netloc[1..])
  }

  /**
   * urlsplit's check of a location (_checknetloc): an empty or ASCII location
   * passes; otherwise, with '@', ':', '#' and '?' dropped, the text must be
   * unchanged by NFKC normalisation, or its normal form must hold none of
   * '/', '?', '#', '@' and ':' ("netloc contains invalid characters under
   * NFKC normalization"). normalize stands for unicodedata.normalize('NFKC', _).
   */
  predicate NfkcChecked(netloc: string, normalize: string -> string) {
    netloc == [] || IsAscii(netloc) ||
    var n := WithoutSeparators(netloc);
    var m := normalize(n);
    m == n || ('/' !in m && '?' !in m && '#' !in m && '@' !in m && ':' !in m)
  }

  /** The location of a link, when the link is an absolute http(s) URL that urlsplit accepts. */
  function LinkHost(href: string, normalize: string -> string): (r: Option<string>)
    ensures r.Some? ==> (StartsWith(href, "http://") || StartsWith(href, "https://")) && BracketsMatched(r.value)
    ensures r.Some? ==> r.value == Netloc(href) && NfkcChecked(r.value, normalize)
    ensures ((StartsWith(href, "http://") || StartsWith(href, "https://"))
      && BracketsMatched(Netloc(href)) && NfkcChecked(Netloc(href), normalize)) ==> r.Some?
  {
    if StartsWith(href, "http://") || StartsWith(href, "https://") then
      var netloc := Netloc(href);
      if BracketsMatched(netloc) && NfkcChecked(netloc, normalize) then Some(netloc) else None
    else None
  }

  /** An absolute link whose plain ASCII host has matched brackets yields that host, whatever NFKC does. */
  lemma LinkHostOfUrl(prefix: string, host: string, path: string, normalize: string -> string)
    requires prefix == "http://" || prefix == "https://"
    requires PlainHost(host) && IsAscii(host) && BracketsMatched(host)
    requires forall k :: 0 <= k < |path| ==> !IsUnsafe(path[k])
    requires path == [] || IsDelimiter(path[0])
    ensures LinkHost(prefix + host + path, normalize) == Some(host)
  {
    var url := prefix + host + path;
    NetlocOfHttpUrl(prefix, host, path);
    assert StartsWith(url, prefix) by {
      assert url[..|prefix|] == prefix;
    }
    LinkHostOfNetloc(url, normalize);
  }

  /** An absolute http(s) link whose location has matched brackets and passes the NFKC check yields that location. */
  lemma LinkHostOfNetloc(href: string, normalize: string -> string)
    requires StartsWith(href, "http://") || StartsWith(href, "https://")
    requires BracketsMatched(Netloc(href)) && NfkcChecked(Netloc(href), normalize)
    ensures LinkHost(href, normalize) == Some(Netloc(href))
  {
  }

  /** A location without separators is left as it is by WithoutSeparators. */
  lemma {:induction false} WithoutSeparatorsKeeps(netloc: string)
    requires forall k :: 0 <= k < |netloc| ==> netloc[k] !in "@:#?"
    ensures WithoutSeparators(netloc) == netloc
  {
    if netloc != [] {
      WithoutSeparatorsKeeps(netloc[1..]);
      assert [netloc[0]] + netloc[1..] == netloc;
    }
  }

  /**
   * A link whose non-ASCII host NFKC-normalises to text with a '/' is skipped,
   * as the ValueError from urlsplit is caught.
   */
  lemma LinkHostRefusesNfkcSlash(prefix: string, host: string, path: string, normalize: string -> string)
    requires prefix == "http://" || prefix == "https://"
    requires PlainHost(host) && !IsAscii(host)
    requires forall k :: 0 <= k < |host| ==> host[k] !in "@:#?"
    requires forall k :: 0 <= k < |path| ==> !IsUnsafe(path[k])
    requires path == [] || IsDelimiter(path[0])
    requires normalize(host) != host && '/' in normalize(host)
    ensures LinkHost(prefix + host + path, normalize) == None
  {
    NetlocOfHttpUrl(prefix, host, path);
    WithoutSeparatorsKeeps(host);
  }

  /** U+2100 (ACCOUNT OF) normalises to "a/c", so `http://a\U{2100}b/` has no host. */
  lemma AccountOfHostRefused(host: string, normalize: string -> string)
    requires host == "a\U{2100}b" && normalize(host) == "aa/cb"
    ensures LinkHost("http://" + host + "/", normalize) == None
  {
    assert PlainHost(host) && !IsAscii(host) && forall k :: 0 <= k < |host| ==> host[k] !in "@:#?" by {
      assert host[1] == '\U{2100}';
    }
    assert '/' in normalize(host) by {
      assert normalize(host)[2] == '/';
    }
    LinkHostRefusesNfkcSlash("http://", host, "/", normalize);
  }

  /** A link's location is kept when it ends with the base domain and is neither the base domain nor the target's host. */
  predicate LinkedSubdomain(host: string, base: string, domain: string) {
    EndsWith(host, base) && host != base && host != domain
  }

  /** The subdomains found in the zone transfer answers. */
  function TransferSubdomains(names: seq<string>, base: string): set<string> {
    if names == [] then {}
    else
      var name := names[|names| - 1];
      TransferSubdomains(names[..|names| - 1], base) + (if TransferredSubdomain(name, base) then {name} else {})
  }

  /** The location of every link, in page order. */
  function LinkHosts(hrefs: seq<string>, normalize: string -> string): seq<Option<string>> {
    seq(|hrefs|, i requires 0 <= i < |hrefs| => LinkHost(hrefs[i], normalize))
  }

  /** The subdomains found among the links' locations. */
  function LinkSubdomains(hosts: seq<Option<string>>, base: string, domain: string): set<string> {
    if hosts == [] then {}
    else
      var host := hosts[|hosts| - 1];
      LinkSubdomains(hosts[..|hosts| - 1], base, domain)
        + (if host.Some? && LinkedSubdomain(host.value, base, domain) then {host.value} else {})
  }

  /** The subdomain set extract_subdomains builds. */
  function Subdomains(names: seq<string>, hrefs: seq<string>, domain: string, normalize: string -> string): set<string> {
    var base := BaseDomain(domain);
    TransferSubdomains(names, base) + LinkSubdomains(LinkHosts(hrefs, normalize), base, domain)
  }

  /** The loop of extract_subdomains over the names the zone transfers returned. */
  method CollectTransferred(names: seq<string>, base: string) returns (found: set<string>)
    ensures found == TransferSubdomains(names, base)
  {
    found := {};
    for i := 0 to |names|
      invariant found == TransferSubdomains(names[..i], base)
    {
      assert names[..i + 1][..i] == names[..i];
      if EndsWith(names[i], base) && names[i] != base {
        found := found + {names[i]};
      }
    }
    assert names[..|names|] == names;
  }

  /** The loop of extract_subdomains over the page's links; a link urlparse refuses is skipped. */
  method CollectLinked(hrefs: seq<string>, base: string, domain: string, normalize: string -> string) returns (found: set<string>)
    ensures found == LinkSubdomains(LinkHosts(hrefs, normalize), base, domain)
  {
    found := {};
    for i := 0 to |hrefs|
      invariant found == LinkSubdomains(LinkHosts(hrefs[..i], normalize), base, domain)
    {
      var host := LinkHost(hrefs[i], normalize);
      LinkSubdomainsStep(hrefs, i, base, domain, normalize);
      if host.Some? && EndsWith(host.value, base) && host.value != base && host.value != domain {
        found := found + {host.value};
      }
    }
    assert hrefs[..|hrefs|] == hrefs;
  }

  /** One more link adds its location to the linked subdomains when it passes the filter. */
  lemma LinkSubdomainsStep(hrefs: seq<string>, i: nat, base: string, domain: string, normalize: string -> string)
    requires i < |hrefs|
    ensures var host := LinkHost(hrefs[i], normalize);
      LinkSubdomains(LinkHosts(hrefs[..i + 1], normalize), base, domain)
      == LinkSubdomains(LinkHosts(hrefs[..i], normalize), base, domain)
         + (if host.Some? && LinkedSubdomain(host.value, base, domain) then {host.value} else {})
  {
    var hosts := LinkHosts(hrefs[..i + 1], normalize);
    assert hosts[..i] == LinkHosts(hrefs[..i], normalize);
  }

  /** extract_subdomains after the fetches: the base domain, then the two loops into one set. */
  method CollectSubdomains(names: seq<string>, hrefs: seq<string>, domain: string, normalize: string -> string) returns (subdomains: set<string>)
    ensures subdomains == Subdomains(names, hrefs, domain, normalize)
  {
    var labels := Split(domain, '.');
    var base := if |labels| > 2 then Join(labels[|labels| - 2..], '.') else domain;
    var transferred := CollectTransferred(names, base);
    var linked := CollectLinked(hrefs, base, domain, normalize);
    subdomains := transferred + linked;
  }

  /** A name is a transferred subdomain exactly when some answer carries it and it passes the filter. */
  lemma {:induction false} TransferSubdomainsMembers(names: seq<string>, base: string, s: string)
    ensures s in TransferSubdomains(names, base)
      <==> TransferredSubdomain(s, base) && exists i :: 0 <= i < |names| && names[i] == s
  {
    if names != [] {
      var n := |names| - 1;
      TransferSubdomainsMembers(names[..n], base, s);
      assert forall i :: 0 <= i < n ==> names[..n][i] == names[i];
    }
  }

  /** A host is a linked subdomain exactly when it is the location of some link and passes the filter. */
  lemma {:induction false} LinkSubdomainsMembers(hosts: seq<Option<string>>, base: string, domain: string, s: string)
    ensures s in LinkSubdomains(hosts, base, domain) <==> LinkedSubdomain(s, base, domain) && Some(s) in hosts
  {
    if hosts != [] {
      var n := |hosts| - 1;
      LinkSubdomainsMembers(hosts[..n], base, domain, s);
      assert hosts == hosts[..n] + [hosts[n]];
    }
  }

  /**
   * Every subdomain found ends with the base domain and differs from it; one
   * that no transferred name explains also differs from the target's host and
   * is the location of an absolute http(s) link.
   */
  lemma SubdomainsSound(names: seq<string>, hrefs: seq<string>, domain: string, normalize: string -> string, s: string)
    requires s in Subdomains(names, hrefs, domain, normalize)
    ensures EndsWith(s, BaseDomain(domain)) && s != BaseDomain(domain)
    ensures s !in names ==> s != domain && exists i :: 0 <= i < |hrefs| && LinkHost(hrefs[i], normalize) == Some(s)
  {
    var base := BaseDomain(domain);
    TransferSubdomainsMembers(names, base, s);
    LinkSubdomainsMembers(LinkHosts(hrefs, normalize), base, domain, s);
  }

  /** A src as the extractor uses it: kept when it starts with "http://" or "https://", otherwise joined to the page URL. */
  function Resolve(src: string, base: string, join: (string, string) -> string): string {
    if StartsWith(src, "http://") || StartsWith(src, "https://") then src else join(base, src)
  }

  /** `if not url.startswith(('http://', 'https://')): url = 'http://' + url` */
  function NormalizeTarget(url: string): (r: string)
    ensures StartsWith(r, "http://") || StartsWith(r, "https://")
    ensures EndsWith(r, url)
    ensures StartsWith(url, "http://") || StartsWith(url, "https://") ==> r == url
    ensures !(StartsWith(url, "http://") || StartsWith(url, "https://")) ==> r == "http://" + url
  {
    if StartsWith(url, "http://") || StartsWith(url, "https://") then url
    else
      var r := "http://" + url;
      assert r[|r| - |url|..] == url;
      r
  }

  /** A bare host name given as the target becomes an http URL whose location is that host. */
  lemma NormalizeBareHost(host: string)
    requires PlainHost(host) && !StartsWith(host, "http://") && !StartsWith(host, "https://")
    ensures NormalizeTarget(host) == "http://" + host
    ensures Netloc(NormalizeTarget(host)) == host
  {
    NetlocOfHttpUrl("http://", host, []);
    assert "http://" + host + [] == "http://" + host;
  }
}
