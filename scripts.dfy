/**
 * JavaScript library discovery: every <script src=...> is made absolute, its
 * file name is the text after the last '/', and a version is read from the
 * file name with the search `[\.-](\d+(?:\.\d+)+)`: the leftmost '.' or '-'
 * followed by a dotted number, taken as long as the greedy repetitions allow.
 */
module Scripts {
  import opened Wrappers
  import opened Text
  import opened Domains

  /** One entry of js_libraries; version is absent when the file name shows none. */
  datatype JsLibrary = JsLibrary(url: string, filename: string, version: Option<string>)

  /** `src.split('/')[-1]`: the longest suffix without a '/'. */
  function FileName(src: string): (r: string)
    ensures EndsWith(src, r) && '/' !in r
    ensures |r| == |src| || src[|src| - |r| - 1] == '/'
  {
    LastPieceIsSuffix(src, '/');
    var parts := Split(src, '/');
    parts[|parts| - 1]
  }

  /**
   * What the group `\d+(?:\.\d+)+` matches in full: digits and dots, starting
   * and ending with a digit, every dot followed by a digit, at least one dot.
   */
  predicate IsDottedNumber(v: string) {
    && |v| > 0
    && IsDigit(v[0]) && IsDigit(v[|v| - 1])
    && (forall k :: 0 <= k < |v| ==> IsDigit(v[k]) || v[k] == '.')
    && (forall k :: 0 <= k < |v| - 1 && v[k] == '.' ==> IsDigit(v[k + 1]))
    && '.' in v
  }

  /** The pattern matches s at p with v as its group. */
  predicate MatchesAt(s: string, p: int, v: string) {
    && 0 <= p && p + 1 + |v| <= |s|
    && (s[p] == '.' || s[p] == '-')
    && s[p + 1..p + 1 + |v|] == v
    && IsDottedNumber(v)
  }

  /** Neither another digit nor a dot with a digit after it follows position e: the greedy repetitions stop there. */
  predicate Stops(s: string, e: int) {
    0 <= e <= |s|
    && (e == |s| || (!IsDigit(s[e]) && !(s[e] == '.' && e + 1 < |s| && IsDigit(s[e + 1]))))
  }

  /** Inside a run that ends at e, position k holds a digit, or a dot with a digit after it. */
  predicate Continues(s: string, k: int, e: int)
    requires 0 <= k < e <= |s|
  {
    IsDigit(s[k]) || (s[k] == '.' && k + 1 < e && IsDigit(s[k + 1]))
  }

  /**
   * Where the greedy `\d+(?:\.\d+)*` that has already read the digit s[j - 1]
   * stops: the run goes on over digits, and over a dot when a digit follows it.
   */
  function ChainEnd(s: string, j: nat): (e: nat)
    requires 0 < j <= |s| && IsDigit(s[j - 1])
    ensures j <= e <= |s| && IsDigit(s[e - 1]) && Stops(s, e)
    ensures forall k :: j <= k < e ==> Continues(s, k, e)
    decreases |s| - j
  {
    if j < |s| && IsDigit(s[j]) then ChainEnd(s, j + 1)
    else if j + 1 < |s| && s[j] == '.' && IsDigit(s[j + 1]) then ChainEnd(s, j + 2)
    else j
  }

  /** The attempt of the search at position p: the group it captures, if the pattern matches there. */
  function MatchAt(s: string, p: nat): Option<string> {
    if p + 1 < |s| && (s[p] == '.' || s[p] == '-') && IsDigit(s[p + 1]) then
      var v := s[p + 1..ChainEnd(s, p + 2)];
      if '.' in v then Some(v) else None
    else None
  }

  /** re.search from position p onwards: the first attempt that succeeds. */
  function SearchFrom(s: string, p: nat): Option<string>
    decreases |s| - p
  {
    if p >= |s| then None
    else if MatchAt(s, p).Some? then MatchAt(s, p)
    else SearchFrom(s, p + 1)
  }

  /** `re.search(r'[\.-](\d+(?:\.\d+)+)', name).group(1)`, when there is a match. */
  function Version(name: string): Option<string> {
    SearchFrom(name, 0)
  }

  /** An attempt that succeeds captures a dotted number that the greedy repetitions cannot extend. */
  lemma MatchAtSound(s: string, p: nat)
    requires MatchAt(s, p).Some?
    ensures MatchesAt(s, p, MatchAt(s, p).value)
    ensures Stops(s, p + 1 + |MatchAt(s, p).value|)
  {
    var e := ChainEnd(s, p + 2);
    var v := s[p + 1..e];
    forall k | 0 <= k < |v| ensures IsDigit(v[k]) || v[k] == '.' {
      assert v[k] == s[p + 1 + k];
      if k > 0 {
        assert Continues(s, p + 1 + k, e);
      }
    }
    forall k | 0 <= k < |v| - 1 && v[k] == '.' ensures IsDigit(v[k + 1]) {
      assert v[k] == s[p + 1 + k] && v[k + 1] == s[p + 2 + k];
      assert Continues(s, p + 1 + k, e);
    }
  }

  /**
   * Whenever the pattern matches at p, the attempt at p succeeds and captures
   * that group or a longer one that begins with it.
   */
  lemma MatchAtLongest(s: string, p: nat, v: string)
    requires MatchesAt(s, p, v)
    ensures MatchAt(s, p).Some? && StartsWith(MatchAt(s, p).value, v)
  {
    assert s[p + 1] == v[0];
    var e := ChainEnd(s, p + 2);
    if e < p + 1 + |v| {
      assert false;
    }
    var m := s[p + 1..e];
    assert m[..|v|] == v;
    var i :| 0 <= i < |v| && v[i] == '.';
    assert m[i] == '.';
  }

  /** The pattern matches at no position from p up to, but not including, q. */
  ghost predicate NoMatchBetween(s: string, p: int, q: int) {
    forall q', w :: p <= q' < q ==> !MatchesAt(s, q', w)
  }

  /** The pattern matches nowhere in s from position p on. */
  ghost predicate NoMatchFrom(s: string, p: nat) {
    forall q, w :: p <= q ==> !MatchesAt(s, q, w)
  }

  /** v is the group of the leftmost match at or after p, at q, and the greedy repetitions end with it. */
  ghost predicate LeftmostAt(s: string, p: int, q: int, v: string) {
    p <= q && MatchesAt(s, q, v) && Stops(s, q + 1 + |v|) && NoMatchBetween(s, p, q)
  }

  /** An attempt that fails means the pattern does not match at that position. */
  lemma MatchAtNone(s: string, p: nat)
    requires MatchAt(s, p).None?
    ensures forall w :: !MatchesAt(s, p, w)
  {
    forall w | MatchesAt(s, p, w) ensures false {
      MatchAtLongest(s, p, w);
    }
  }

  /**
   * The search finds the group of the leftmost match, as long as the greedy
   * repetitions make it; it finds nothing exactly when the pattern matches nowhere.
   */
  lemma {:induction false} SearchFromLeftmost(s: string, p: nat)
    ensures SearchFrom(s, p).None? <==> NoMatchFrom(s, p)
    ensures SearchFrom(s, p).Some? ==> exists q :: LeftmostAt(s, p, q, SearchFrom(s, p).value)
    decreases |s| - p
  {
    if p >= |s| {
      NoMatchPastEnd(s, p);
    } else if MatchAt(s, p).Some? {
      var v := MatchAt(s, p).value;
      MatchAtSound(s, p);
      assert LeftmostAt(s, p, p, v);
    } else {
      assert SearchFrom(s, p) == SearchFrom(s, p + 1);
      SearchFromLeftmost(s, p + 1);
      MatchAtNone(s, p);
      if SearchFrom(s, p + 1).Some? {
        var v := SearchFrom(s, p + 1).value;
        var q :| LeftmostAt(s, p + 1, q, v);
        NoMatchHereExtends(s, p, q, v);
      } else {
        NoMatchHereExtendsNone(s, p);
      }
    }
  }

  /** No match starts at or after the end of the string. */
  lemma NoMatchPastEnd(s: string, p: nat)
    requires p >= |s|
    ensures NoMatchFrom(s, p)
  {
    forall q, w | p <= q ensures !MatchesAt(s, q, w) { }
  }

  /** The leftmost match from p + 1 is the leftmost from p when nothing matches at p. */
  lemma NoMatchHereExtends(s: string, p: nat, q: int, v: string)
    requires LeftmostAt(s, p + 1, q, v) && forall w :: !MatchesAt(s, p, w)
    ensures LeftmostAt(s, p, q, v) && !NoMatchFrom(s, p)
  {
    assert MatchesAt(s, q, v);
  }

  /** Nothing matches from p when nothing matches at p nor from p + 1. */
  lemma NoMatchHereExtendsNone(s: string, p: nat)
    requires NoMatchFrom(s, p + 1) && forall w :: !MatchesAt(s, p, w)
    ensures NoMatchFrom(s, p)
  {
  }

  /** The version of the file name of a typical versioned library. */
  lemma VersionOfJqueryBundle()
    ensures Version("jquery-3.6.0.min.js") == Some("3.6.0")
  {
    var s := "jquery-3.6.0.min.js";
    JqueryVersionAt(s);
    assert forall p :: 0 <= p < 6 ==> !IsDigit(s[p]) && s[p] != '.' && s[p] != '-';
    assert MatchAt(s, 5) == None && MatchAt(s, 4) == None && MatchAt(s, 3) == None;
    assert MatchAt(s, 2) == None && MatchAt(s, 1) == None && MatchAt(s, 0) == None;
    assert SearchFrom(s, 0) == SearchFrom(s, 6);
  }

  /** The attempt at the hyphen of "jquery-3.6.0.min.js" captures "3.6.0". */
  lemma JqueryVersionAt(s: string)
    requires s == "jquery-3.6.0.min.js"
    ensures SearchFrom(s, 6) == Some("3.6.0")
  {
    assert s[6] == '-' && s[7] == '3' && s[8] == '.' && s[9] == '6';
    assert s[10] == '.' && s[11] == '0' && s[12] == '.' && s[13] == 'm';
    assert ChainEnd(s, 12) == 12;
    assert ChainEnd(s, 10) == 12;
    assert ChainEnd(s, 8) == 12;
    assert s[7..12] == "3.6.0";
    assert MatchAt(s, 6) == Some("3.6.0");
  }

  /** A name without a dotted version has none. */
  lemma NoVersionInPlainName()
    ensures Version("bootstrap.min.js") == None
  {
    var s := "bootstrap.min.js";
    forall q, w | 0 <= q && MatchesAt(s, q, w) ensures false { }
    assert NoMatchFrom(s, 0);
    SearchFromLeftmost(s, 0);
  }

  /** The entry recorded for one script src. */
  function Library(src: string, base: string, join: (string, string) -> string): (r: JsLibrary) {
    var url := Resolve(src, base, join);
    var name := FileName(url);
    JsLibrary(url, name, Version(name))
  }

  /** The entries for every script src, in page order. */
  function LibrariesOf(srcs: seq<string>, base: string, join: (string, string) -> string): seq<JsLibrary> {
    seq(|srcs|, i requires 0 <= i < |srcs| => Library(srcs[i], base, join))
  }

  /** The script loop of extract_js_libraries. */
  method ListLibraries(srcs: seq<string>, base: string, join: (string, string) -> string)
    returns (libraries: seq<JsLibrary>)
    ensures libraries == LibrariesOf(srcs, base, join)
  {
    libraries := [];
    for i := 0 to |srcs|
      invariant libraries == LibrariesOf(srcs[..i], base, join)
    {
      var src := srcs[i];
      if !(StartsWith(src, "http://") || StartsWith(src, "https://")) {
        src := join(base, src);
      }
      var name := FileName(src);
      assert srcs[..i + 1] == srcs[..i] + [srcs[i]];
      libraries := libraries + [JsLibrary(src, name, Version(name))];
    }
    assert srcs[..|srcs|] == srcs;
  }

  /**
   * Every entry: its URL is the src as written when absolute; its file name
   * is the slash-free tail of the URL; a version, when present, is a dotted
   * number that follows a '.' or '-' in the file name.
   */
  lemma LibraryFields(src: string, base: string, join: (string, string) -> string)
    ensures var lib := Library(src, base, join);
      && (StartsWith(src, "http://") || StartsWith(src, "https://") ==> lib.url == src)
      && EndsWith(lib.url, lib.filename) && '/' !in lib.filename
      && (lib.version.Some? ==> exists q :: LeftmostAt(lib.filename, 0, q, lib.version.value))
      && (lib.version.None? <==> NoMatchFrom(lib.filename, 0))
  {
    SearchFromLeftmost(FileName(Resolve(src, base, join)), 0);
  }
}
