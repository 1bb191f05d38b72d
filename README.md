# Metadata extractor, modelled in Dafny

This project models the core of `metadata_extractor.py`: the
`MetadataExtractor` object that gathers reconnaissance metadata about one web
target into a results dictionary. It proves properties of that model.

What is modelled:
- the object itself: the target URL, the host that `urlparse` finds in it, and
  the results dictionary (a `class` whose methods update the map in place);
- the security-header audit of `extract_http_headers`;
- the Server and X-Powered-By values of `extract_server_info`;
- the lists built by `extract_html_metadata`: meta tags (the last tag with a
  name wins), the generator, at most fifty links made absolute, the script
  sources, and the comment-like texts;
- technology fingerprinting in `extract_technologies`. This covers five
  signature tables, scanned against the lower-cased page, the Server header
  and the printed headers. Entries whose lower-cased name was already seen
  are then removed;
- social-media link filing in `extract_social_media`;
- image discovery in `extract_image_metadata`: the first ten images, `data:`
  URIs skipped, an entry kept for each fetch that answers 200;
- JavaScript library discovery in `extract_js_libraries`: the file name after
  the last `/`, and the version the regular expression
  `[\.-](\d+(?:\.\d+)+)` captures from it;
- the subdomain filters of `extract_subdomains`: the base domain (the last
  two labels), the zone-transfer names and the hosts of absolute links;
- the scheme defaulting of `main`.

The HTTP answers and the parsed page are inputs to each step. An answer is an
`Option<Response>`; `None` stands for a failed request. The parsed page is a
`Document` holding what the HTML parser would return. URL joining, image
fetching and the NFKC normalisation that urlsplit applies to a non-ASCII
network location are function-typed parameters.

Modules, one per file: `Wrappers`, `Text` (ASCII case mapping, capitalize,
split and join), `Whitespace` (strip), `Sequences`, `Http`, `SecurityHeaders`, `Page`,
`Technologies`, `SocialMedia`, `Scripts`, `Images`, `Domains` and
`Extractor`.

Each loop of the source is a `method` proved equal to a specification
function. The properties are lemmas about those functions.

A framework match is recorded with the type "JavaScript Framework"
(metadata_extractor.py:382); `Technologies.CategoryLabel` follows it.

## Model

| member | source | states |
|---|---|---|
| Extractor.MetadataExtractor.constructor | metadata_extractor.py:113-117 | the host is the URL's network location and the results start empty |
| Extractor.MetadataExtractor.Record | metadata_extractor.py:298-301 | a store into the results changes exactly that key and keeps every key's promise |
| Extractor.MetadataExtractor.ExtractHttpHeaders | metadata_extractor.py:136-160 | nothing changes without a truthy answer; otherwise the headers are stored, and the missing-header messages are stored only when there are some |
| Extractor.MetadataExtractor.ExtractHtmlMetadata | metadata_extractor.py:252-301 | with a truthy answer, "cms" is the first generator's content (or None); the meta tags, the first 50 resolved links, the script sources and the comments are stored |
| Extractor.MetadataExtractor.ExtractServerInfo | metadata_extractor.py:312-326 | "server" and "powered_by" are stored exactly when the answer is truthy and carries that header, with its value |
| Extractor.MetadataExtractor.ExtractTechnologies | metadata_extractor.py:331-459 | a truthy answer always stores the detected technologies without repeated names; otherwise nothing changes |
| Extractor.MetadataExtractor.ExtractSocialMedia | metadata_extractor.py:466-511 | the non-empty platform buckets are stored, and only when at least one exists |
| Extractor.MetadataExtractor.ExtractImageMetadata | metadata_extractor.py:543-599 | the entries of the first ten images that answered 200 are stored when there are any; the fetched URLs are returned, in order |
| Extractor.MetadataExtractor.ExtractJsLibraries | metadata_extractor.py:607-643 | one entry per script src is stored, when there are any |
| Extractor.MetadataExtractor.ExtractSubdomains | metadata_extractor.py:653-703 | the union of the transferred and the linked subdomains is stored when it is not empty; every member ends with the base domain and differs from it |
| Extractor.WebServerRecordedOnlyWithServerHeader | metadata_extractor.py:388-459 | a stored Web Server technology implies the answer had a Server header |
| SecurityHeaders.FindMissing | metadata_extractor.py:154-157 | the loop yields the messages of the absent headers, in table order |
| SecurityHeaders.Messages | metadata_extractor.py:144-152 | the messages of the table, one per header, in order |
| SecurityHeaders.MissingExactly | metadata_extractor.py:154-157 | a message is reported if and only if its header is absent, given distinct messages |
| SecurityHeaders.MissingFromMessages | metadata_extractor.py:154-157 | every reported message is one of the table's messages |
| SecurityHeaders.MissingInOrder | metadata_extractor.py:154-157 | the reported messages are a subsequence of the table's messages |
| SecurityHeaders.NothingMissingIffAllPresent | metadata_extractor.py:154-159 | nothing is reported if and only if all audited headers are present |
| SecurityHeaders.RequiredMessagesDistinct | metadata_extractor.py:144-152 | the seven messages are pairwise distinct |
| SecurityHeaders.RequiredMissingExactly | metadata_extractor.py:144-157 | for the seven audited headers, a message is reported if and only if its header is absent |
| Http.Lookup | metadata_extractor.py:316-317 | a header lookup succeeds if and only if some header has that name ignoring case; it returns the first such header's value |
| Http.HeadersTextShowsValues | metadata_extractor.py:442 | every header value occurs in the printed header dictionary |
| Http.EntriesTextShowsValues | metadata_extractor.py:442 | every header value occurs in the printed entries |
| Page.CollectMetaTags | metadata_extractor.py:262-267 | the meta loop yields the meta-tag map |
| Page.MetaTagsLastWins | metadata_extractor.py:262-267 | a name is a key if and only if some recorded meta carries it; its value is the content of the last such meta |
| Page.Generator | metadata_extractor.py:275 | the first meta named "generator", or None if and only if there is none |
| Page.CollectLinks | metadata_extractor.py:280-288 | the link loop yields exactly those links |
| Page.StoredLinks | metadata_extractor.py:299 | the stored links are the first min(n, 50) resolved anchors, in order |
| Page.CommentsStep | metadata_extractor.py:294-296 | one more text node adds its stripped form exactly when that opens with "<!--" |
| Page.CollectComments | metadata_extractor.py:294-296 | the comment loop yields the stripped texts that open with "<!--" |
| Page.OpenersMembers | metadata_extractor.py:295 | a string is kept if and only if it is an input that opens with "<!--"; order is kept |
| Page.CommentsSound | metadata_extractor.py:294-296 | every stored comment opens with "<!--", has no surrounding whitespace and is the stripped form of a text node |
| Page.CommentsComplete | metadata_extractor.py:295-296 | a text node's stripped form is stored if and only if it opens with "<!--" |
| Technologies.ScanTable | metadata_extractor.py:355-363 | the pattern loop of a table yields the table's matches: one record per entry with a hit, in entry order |
| Technologies.KeysOf | metadata_extractor.py:452-456 | the names seen are exactly the lower-cased names of the records |
| Technologies.FirstIndex | metadata_extractor.py:454-457 | the first record with a given lower-cased name |
| Technologies.RemoveDuplicates | metadata_extractor.py:451-457 | the duplicate-removal loop yields the deduplicated list |
| Technologies.DetectTechnologies | metadata_extractor.py:338-457 | the five scans and the duplicate removal yield the deduplicated detection |
| Technologies.CmsTableWellFormed | metadata_extractor.py:344-353 | the CMS names are lower-case and differ from each other |
| Technologies.CmsNamesLower | metadata_extractor.py:344-353 | the CMS names are lower-case |
| Technologies.CmsNamesDiffer | metadata_extractor.py:344-353 | the CMS names differ from each other |
| Technologies.FrameworkTableWellFormed | metadata_extractor.py:366-375 | the framework names are lower-case and differ from each other |
| Technologies.FrameworkNamesLower | metadata_extractor.py:366-375 | the framework names are lower-case |
| Technologies.FrameworkNamesDiffer | metadata_extractor.py:366-375 | the framework names differ from each other |
| Technologies.ServerTableWellFormed | metadata_extractor.py:390-397 | the web server names are lower-case and differ from each other |
| Technologies.ServerNamesLower | metadata_extractor.py:390-397 | the web server names are lower-case |
| Technologies.ServerNamesDiffer | metadata_extractor.py:390-397 | the web server names differ from each other |
| Technologies.AnalyticsTableWellFormed | metadata_extractor.py:410-418 | the analytics names are lower-case and differ from each other |
| Technologies.AnalyticsNamesLower | metadata_extractor.py:410-418 | the analytics names are lower-case |
| Technologies.AnalyticsGoogleNamesLower | metadata_extractor.py:411-413 | the first three analytics names are lower-case |
| Technologies.AnalyticsOtherNamesLower | metadata_extractor.py:414-417 | the remaining analytics names are lower-case |
| Technologies.AnalyticsNamesDiffer | metadata_extractor.py:410-418 | the analytics names differ from each other |
| Technologies.LanguageTableWellFormed | metadata_extractor.py:431-438 | the language names are lower-case and differ from each other |
| Technologies.LanguageNamesLower | metadata_extractor.py:431-438 | the language names are lower-case |
| Technologies.LanguageNamesDiffer | metadata_extractor.py:431-438 | the language names differ from each other |
| Technologies.CmsFrameworkApart | metadata_extractor.py:344-375 | no CMS name is a framework name |
| Technologies.CmsServerApart | metadata_extractor.py:344-397 | no CMS name is a web server name |
| Technologies.CmsAnalyticsApart | metadata_extractor.py:344-418 | no CMS name is an analytics name |
| Technologies.CmsLanguageApart | metadata_extractor.py:344-438 | no CMS name is a language name |
| Technologies.FrameworkServerApart | metadata_extractor.py:366-397 | no framework name is a web server name |
| Technologies.FrameworkAnalyticsApart | metadata_extractor.py:366-418 | no framework name is an analytics name |
| Technologies.FrameworkLanguageApart | metadata_extractor.py:366-438 | no framework name is a language name |
| Technologies.ServerAnalyticsApart | metadata_extractor.py:390-418 | no web server name is an analytics name |
| Technologies.ServerLanguageApart | metadata_extractor.py:390-438 | no web server name is a language name |
| Technologies.AnalyticsLanguageApart | metadata_extractor.py:410-438 | no analytics name is a language name |
| Technologies.WellFormedDistinct | metadata_extractor.py:344-438 | lower-case names that differ also differ ignoring case |
| Technologies.FoundKey | metadata_extractor.py:359 | the capitalized name, lower-cased, is the entry's name lower-cased |
| Technologies.FoundInPrefix | metadata_extractor.py:355-363 | a record from a prefix of the entries comes from the entries |
| Technologies.MatchesOfSound | metadata_extractor.py:355-363 | each record comes from an entry with a hit; there are at most as many records as entries |
| Technologies.MatchesOfUnique | metadata_extractor.py:355-363 | with names distinct ignoring case, no two records of a scan share a name |
| Technologies.MatchesOfComplete | metadata_extractor.py:355-363 | with names distinct ignoring case, an entry's record is produced if and only if one of its patterns hits |
| Technologies.NewKeyNotFound | metadata_extractor.py:355-363 | no record carries a name that no entry has |
| Technologies.ScanRecordsHits | metadata_extractor.py:355-363 | for a well-formed table, an entry's record is produced if and only if one of its patterns hits |
| Technologies.DedupeUnique | metadata_extractor.py:451-457 | the kept records have no repeated name and cover every name seen |
| Technologies.UniqueAppend | metadata_extractor.py:455-457 | appending a record with an unseen name keeps names distinct and adds exactly that name |
| Technologies.DedupeKeepsFirstOccurrences | metadata_extractor.py:451-457 | each kept record is the first with its name, in order of first occurrence |
| Technologies.DedupeOfUnique | metadata_extractor.py:451-457 | a list without repeated names is left unchanged |
| Technologies.MatchesLabels | metadata_extractor.py:358-362 | every record carries its table's type and confidence |
| Technologies.DetectByCategory | metadata_extractor.py:338-448 | a record is detected if and only if the table of its category produced it |
| Technologies.WebServerNeedsServerHeader | metadata_extractor.py:388-407 | a Web Server record implies a Server header |
| Technologies.PageTableDetection | metadata_extractor.py:341-428 | a CMS, framework or analytics entry is detected if and only if one of its patterns occurs in the lower-cased page |
| Technologies.ServerDetection | metadata_extractor.py:388-407 | a web server entry is detected if and only if there is a Server header whose value contains one of its patterns, ignoring case |
| Technologies.BannerIgnoresCase | metadata_extractor.py:401 | comparing both sides lower-cased is a search that ignores case |
| Technologies.LanguageDetection | metadata_extractor.py:440-448 | a language entry is detected if and only if one of its patterns occurs in the lower-cased page or the lower-cased printed headers |
| Technologies.LanguageInHeaderValue | metadata_extractor.py:440-448 | a lower-case language pattern inside a lower-cased header value is detected |
| Technologies.MatchesKeysFrom | metadata_extractor.py:355-363 | every record's lower-cased name is the name of an entry |
| Technologies.UniqueConcat | metadata_extractor.py:338-448 | joining scans of tables with separate names creates no repeated name |
| Technologies.KeysFromConcat | metadata_extractor.py:338-448 | names coming from two tables come from their concatenation |
| Technologies.NamesApartConcat | metadata_extractor.py:344-438 | names apart from a third table stay apart after concatenation |
| Technologies.ScanUnique | metadata_extractor.py:355-363 | a scan of a well-formed table has no repeated name, and its names come from the table |
| Technologies.DetectHasNoDuplicates | metadata_extractor.py:338-459 | the detection never repeats a name, so the duplicate removal drops nothing |
| Text.CapitalizeCase | metadata_extractor.py:359 | capitalize keeps the length and the lower-cased text; the first character is not lower-case and the rest has no upper case |
| Text.Split | metadata_extractor.py:657 | at least one piece; no piece holds the separator; more than one piece if and only if the separator occurs |
| Text.JoinSplit | metadata_extractor.py:657-659 | joining the pieces of a split gives the string back |
| Text.SplitJoin | metadata_extractor.py:657-659 | splitting pieces joined by a separator they lack gives the pieces back |
| Text.LastPieceIsSuffix | metadata_extractor.py:627 | the last piece of a split is a suffix of the string, preceded by the separator unless it is the whole string |
| Whitespace.Strip | metadata_extractor.py:296 | the stripped text is a slice s[a..b] of the original with only whitespace before a and after b, and it neither starts nor ends with whitespace |
| Whitespace.StripStripped | metadata_extractor.py:296 | a text without whitespace at either end is returned unchanged |
| Whitespace.StripWithin | metadata_extractor.py:296 | the stripped text occurs in the original |
| SocialMedia.Visit | metadata_extractor.py:502-505 | filing one link keeps every platform's bucket in place |
| SocialMedia.BucketsOf | metadata_extractor.py:499-505 | one bucket per platform, in platform order |
| SocialMedia.KeepNonEmpty | metadata_extractor.py:508 | exactly the platforms with links are kept, with their links |
| SocialMedia.FileLinks | metadata_extractor.py:499-505 | the link loop yields the buckets |
| SocialMedia.PlaceEachOnce | metadata_extractor.py:503-505 | a link is added once, when some pattern occurs in it and it is new |
| SocialMedia.BucketMembers | metadata_extractor.py:499-505 | a bucket holds exactly the lower-cased links containing one of its platform's patterns |
| SocialMedia.BucketsOrderedUnique | metadata_extractor.py:499-505 | no link is filed twice under a platform, and links keep page order |
| SocialMedia.BucketsLower | metadata_extractor.py:500-505 | every filed link is lower-case and mentions its platform |
| SocialMedia.NoProfilesIffNoMention | metadata_extractor.py:499-510 | nothing is kept if and only if no link mentions any platform |
| SocialMedia.SomeMention | metadata_extractor.py:508-510 | a non-empty result implies some link mentions some platform |
| Scripts.FileName | metadata_extractor.py:627 | the file name is a slash-free suffix of the URL, preceded by '/' unless it is the whole URL |
| Scripts.ChainEnd | metadata_extractor.py:636 | where the greedy dotted-number run stops: after a digit, not extendable |
| Scripts.MatchAtSound | metadata_extractor.py:636 | a successful attempt captures a dotted number after '.' or '-', and the match cannot be extended |
| Scripts.MatchAtLongest | metadata_extractor.py:636 | when the pattern matches at a position, the attempt there succeeds with that group or a longer one |
| Scripts.MatchAtNone | metadata_extractor.py:636 | a failed attempt means no match at that position |
| Scripts.SearchFromLeftmost | metadata_extractor.py:636-638 | the search finds the leftmost match's greedy group, and nothing if and only if there is no match |
| Scripts.NoMatchHereExtends | metadata_extractor.py:636 | when nothing matches at p, the leftmost match from p + 1 is the leftmost from p |
| Scripts.NoMatchHereExtendsNone | metadata_extractor.py:636 | when nothing matches at p nor after it, nothing matches from p |
| Scripts.VersionOfJqueryBundle | metadata_extractor.py:636-638 | "jquery-3.6.0.min.js" has version "3.6.0" |
| Scripts.JqueryVersionAt | metadata_extractor.py:636 | the attempt at the hyphen of that name captures "3.6.0" |
| Scripts.NoVersionInPlainName | metadata_extractor.py:636-638 | "bootstrap.min.js" has no version |
| Scripts.ListLibraries | metadata_extractor.py:619-640 | the script loop yields those entries |
| Scripts.LibraryFields | metadata_extractor.py:619-638 | an absolute src is kept as the URL; the file name is its slash-free tail; a version is the leftmost match's group, and is absent if and only if nothing matches |
| Images.ImageUrl | metadata_extractor.py:556-564 | an image is fetched if and only if its resolved src does not start with "data:", and then at exactly that resolved URL |
| Images.RequestsMembers | metadata_extractor.py:555-567 | a URL is requested if and only if some image resolves to it and it does not start with "data:" |
| Images.ImagesStep | metadata_extractor.py:555-593 | one more image adds its request and its entry, when it has them |
| Images.CollectImages | metadata_extractor.py:555-593 | the image loop over images[:10] yields the kept entries and the fetched URLs |
| Images.RequestsBounded | metadata_extractor.py:555-567 | no more requests than images, none for a data: URI |
| Images.InfosMembers | metadata_extractor.py:555-593 | an entry is kept if and only if some image's outcome is that entry; its URL was requested |
| Images.OutcomeFields | metadata_extractor.py:556-575 | an entry records a fetched non-data: URL that answered 200, its alt text (or ""), size and content type (or "") |
| Images.ImageLimits | metadata_extractor.py:555-593 | at most ten requests and ten entries, none for data:, each entry from one of the first ten images |
| Images.InfosBounded | metadata_extractor.py:555-593 | no more entries than requests |
| Domains.StripLeading | metadata_extractor.py:117 | the result is a suffix of the URL, everything removed is a control character or space, and the result does not start with one |
| Domains.RemoveUnsafe | metadata_extractor.py:117 | no tab, carriage return or line feed remains |
| Domains.RemoveUnsafeConcat | metadata_extractor.py:117 | removal works piece by piece, so the remaining characters keep their order |
| Domains.RemoveUnsafeOne | metadata_extractor.py:117 | a single tab, carriage return or line feed is deleted and any other character is kept; with RemoveUnsafeConcat this fixes the result for every URL |
| Domains.RemoveUnsafeKeeps | metadata_extractor.py:117 | a URL without them is unchanged |
| Domains.IndexOf | metadata_extractor.py:117 | the first position of a character, or the length |
| Domains.DelimiterFrom | metadata_extractor.py:117 | the first '/', '?' or '#' from a position, or the length |
| Domains.LocationOf | metadata_extractor.py:117 | the location holds no '/', '?' or '#' |
| Domains.Netloc | metadata_extractor.py:117 | the network location holds no '/', '?' or '#' |
| Domains.SanitizeKeeps | metadata_extractor.py:117 | a URL starting with a letter and free of tabs and line breaks is not changed by cleaning |
| Domains.AfterHttpScheme | metadata_extractor.py:117 | the http and https schemes are removed with their colon |
| Domains.LocationOfHost | metadata_extractor.py:117 | after "//", a plain host followed by a delimiter or nothing is the location |
| Domains.NetlocOfHttpUrl | metadata_extractor.py:695 | the location of an http(s) URL is its host |
| Domains.JoinSuffix | metadata_extractor.py:657-659 | a join of trailing pieces is a suffix of the whole join |
| Domains.BaseDomainIsSuffix | metadata_extractor.py:657-661 | the host ends with its base domain, which is the last two labels when there are more than two |
| Domains.BaseDomainLabels | metadata_extractor.py:657-661 | a host with at most two labels is its own base domain, and a base domain never has more than two labels |
| Domains.WithoutSeparators | metadata_extractor.py:695 | the network location urlsplit normalises holds no '@', ':', '#' or '?' |
| Domains.LinkHost | metadata_extractor.py:693-695 | a link has a host if and only if it is absolute http(s), the brackets of its network location match and that location passes urlsplit's NFKC check; the host is that network location |
| Domains.LinkHostOfNetloc | metadata_extractor.py:693-695 | an absolute http(s) link whose network location has matched brackets and passes the NFKC check yields that location |
| Domains.LinkHostOfUrl | metadata_extractor.py:693-695 | an http(s) link with a plain ASCII host and matched brackets, followed by a path, yields that host whatever the normalisation does |
| Domains.LinkHostRefusesNfkcSlash | metadata_extractor.py:693-699 | a link whose non-ASCII host normalises to different text containing '/' has no host, so the loop skips it |
| Domains.AccountOfHostRefused | metadata_extractor.py:693-699 | `http://a℀b/` has no host when U+2100 normalises to "a/c" |
| Domains.CollectTransferred | metadata_extractor.py:673-677 | the zone-transfer loop yields the transferred subdomains |
| Domains.CollectLinked | metadata_extractor.py:691-697 | the link loop yields the linked subdomains |
| Domains.LinkSubdomainsStep | metadata_extractor.py:691-697 | one more link adds its host when it passes the filter |
| Domains.CollectSubdomains | metadata_extractor.py:657-697 | the base domain and the two loops yield the subdomain set |
| Domains.TransferSubdomainsMembers | metadata_extractor.py:673-677 | a name is kept if and only if some answer carries it, it ends with the base domain and it differs from it |
| Domains.LinkSubdomainsMembers | metadata_extractor.py:691-697 | a host is kept if and only if some link has it, it ends with the base domain and it is neither the base domain nor the target host |
| Domains.SubdomainsSound | metadata_extractor.py:657-697 | every subdomain ends with the base domain and differs from it; one that is not a transferred name is a link's host other than the target host |
| Domains.NormalizeTarget | metadata_extractor.py:724-725 | a target that starts with http:// or https:// is unchanged; any other target becomes "http://" followed by it |
| Domains.NormalizeBareHost | metadata_extractor.py:724-731 | a bare host becomes "http://" + host, whose network location is that host |
| Sequences.Take | metadata_extractor.py:299 | the first min(n, length) elements |

## Left out

- Network requests and the user agent: each step takes the answer as an input. The timeout of the request helper is not modelled.
- DNS records, WHOIS and the AXFR queries: no resolver is modelled. The names a zone transfer returns are an input to `ExtractSubdomains`, and only the filter applied to them is modelled.
- Email address extraction: its regular expression is not modelled.
- EXIF extraction with the imaging library: an image entry holds the URL, alt text, size and content type, but no EXIF data.
- HTML parsing: a `Document` holds what the parser would return.
- URL joining and NFKC normalisation (`unicodedata.normalize`, which urlsplit calls on a non-ASCII network location): both are function parameters.
- Console output, colours, the `verbose` flag and writing JSON: none of these affect the results.
- Exceptions caught inside the steps, for example a parse error in `extract_html_metadata` or a failing image fetch: the model assumes the happy path of each `try`.
- The order of the results dictionary's keys, and the order of the subdomain list (built from a set).
- `extract_all_metadata`: it is a fixed sequence of the step calls above, with no logic of its own.
- `run.py`: it calls a method the extractor does not define.
- Domains.Netloc: urlsplit's "Invalid IPv6 URL" error for unmatched brackets is modelled only where links are read, by `LinkHost`. The same holds for urlsplit's NFKC check of a non-ASCII location ("netloc contains invalid characters under NFKC normalization"), which `LinkHost` models for links. For the target URL, the model gives the location unchanged in both cases, where the source's constructor raises. Port and credential parsing are not modelled either; the network location is the whole text between "//" and the next delimiter, as urlparse returns it.
- Text.Lower, Text.Capitalize and Whitespace.Strip: only ASCII case mapping and ASCII whitespace are modelled, not the full Unicode rules of Python's string methods.
- Http.HeadersTextShowsValues: the printed header dictionary is modelled as the Python dict representation without escaping of quotes or backslashes.
- Http.Lookup: when the same header name appears twice, the first value is returned. In the HTTP library repeated headers are merged, so this case does not arise there.
- Scripts.ChainEnd, Scripts.MatchAtSound, Scripts.SearchFromLeftmost and Scripts.LibraryFields: the version pattern's `\d` is read as an ASCII digit 0-9 (`Text.IsDigit`). Python's `\d` matches any Unicode decimal digit, so a file name such as `jquery-٣.٦.js` has a version in the source and none in the model.
- Domains.LinkHost and Domains.LinkSubdomains: urlsplit is modelled as it was before Python 3.11.4, where the only bracket check is the "Invalid IPv6 URL" error for an unmatched '[' or ']'. Later versions also refuse text around a bracketed host and a bracketed host that is not an IPv6 address. A link such as `http://x[y]z.example.com/` is then skipped by the try/except at metadata_extractor.py:693-699, while the model keeps its host.
