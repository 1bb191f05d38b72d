/**
 * The lists extract_html_metadata builds from a parsed page: meta tags (the
 * last tag with a given name wins), the title, the generator, the links made
 * absolute (at most 50 kept), the script sources and the comment-like texts.
 * The HTML parser itself is not modelled: a Document is what it produced.
 */
module Page {
  import opened Wrappers
  import opened Text
  import opened Whitespace
  import opened Sequences

  /** A <meta> element's name, property and content attributes, when present. */
  datatype Meta = Meta(name: Option<string>, property: Option<string>, content: Option<string>)

  /** An <img src=...> element with its alt attribute, when present. */
  datatype ImageTag = ImageTag(src: string, alt: Option<string>)

  /** What the parser found in the page. */
  datatype Document = Document(
    metas: seq<Meta>,          // every <meta>, in document order
    title: Option<string>,     // the text of the first <title>, if there is one
    anchors: seq<string>,      // the href of every <a href=...>
    scripts: seq<string>,      // the src of every <script src=...>
    texts: seq<string>,        // every text node
    images: seq<ImageTag>)     // every <img src=...>

  /** Python truthiness of an optional string: present and not empty. */
  predicate HasText(s: Option<string>) {
    s.Some? && s.value != ""
  }

  /** `meta.get('name') or meta.get('property')` */
  function TagName(m: Meta): Option<string> {
    if HasText(m.name) then m.name else m.property
  }

  /** `if name and content:` */
  predicate Recorded(m: Meta) {
    HasText(TagName(m)) && HasText(m.content)
  }

  /** The meta_tags dictionary built from the <meta> elements, before the title is added. */
  function MetaTagsOf(metas: seq<Meta>): map<string, string> {
    if metas == [] then map[]
    else
      var m := metas[|metas| - 1];
      var tags := MetaTagsOf(metas[..|metas| - 1]);
      if Recorded(m) then tags[TagName(m).value := m.content.value] else tags
  }

  /** The meta_tags dictionary stored in the results: the meta tags, then the title. */
  function MetaTags(page: Document): map<string, string> {
    var tags := MetaTagsOf(page.metas);
    if page.title.Some? then tags["title" := page.title.value] else tags
  }

  /** The loop of extract_html_metadata over the <meta> elements. */
  method CollectMetaTags(metas: seq<Meta>) returns (tags: map<string, string>)
    ensures tags == MetaTagsOf(metas)
  {
    tags := map[];
    for i := 0 to |metas|
      invariant tags == MetaTagsOf(metas[..i])
    {
      assert metas[..i + 1][..i] == metas[..i];
      var m := metas[i];
      var name := if m.name.Some? && m.name.value != "" then m.name else m.property;
      if name.Some? && name.value != "" && m.content.Some? && m.content.value != "" {
        tags := tags[name.value := m.content.value];
      }
    }
    assert metas[..|metas|] == metas;
  }

  /**
   * A name is in the meta tags exactly when some recorded <meta> carries it,
   * and its value is the content of the last such <meta>.
   */
  lemma {:induction false} MetaTagsLastWins(metas: seq<Meta>, key: string)
    ensures key in MetaTagsOf(metas) <==>
      exists i :: 0 <= i < |metas| && Recorded(metas[i]) && TagName(metas[i]).value == key
    ensures forall i ::
              0 <= i < |metas| && Recorded(metas[i]) && TagName(metas[i]).value == key
              && (forall j :: i < j < |metas| ==> !(Recorded(metas[j]) && TagName(metas[j]).value == key))
              ==> key in MetaTagsOf(metas) && MetaTagsOf(metas)[key] == metas[i].content.value
  {
    if metas != [] {
      var n := |metas| - 1;
      var init := metas[..n];
      MetaTagsLastWins(init, key);
      assert forall i :: 0 <= i < n ==> init[i] == metas[i];
    }
  }

  /** The first <meta name="generator">, as soup.find returns it. */
  function Generator(metas: seq<Meta>): (r: Option<Meta>)
    ensures r.None? <==> forall i :: 0 <= i < |metas| ==> metas[i].name != Some("generator")
    ensures r.Some? ==>
      exists i ::
        0 <= i < |metas| && metas[i] == r.value && metas[i].name == Some("generator")
        && forall j :: 0 <= j < i ==> metas[j].name != Some("generator")
  {
    if metas == [] then None
    else if metas[0].name == Some("generator") then Some(metas[0])
    else
      var r := Generator(metas[1..]);
      assert forall i :: 1 <= i < |metas| ==> metas[i] == metas[1..][i - 1];
      r
  }

  /** A link as stored: kept when it starts with "http", otherwise resolved against the page URL. */
  function AbsoluteLink(href: string, base: string, join: (string, string) -> string): string {
    if StartsWith(href, "http") then href else join(base, href)
  }

  /** Every anchor's link, resolved. */
  function LinksOf(anchors: seq<string>, base: string, join: (string, string) -> string): seq<string> {
    seq(|anchors|, i requires 0 <= i < |anchors| => AbsoluteLink(anchors[i], base, join))
  }

  /** The loop of extract_html_metadata over the anchors. */
  method CollectLinks(anchors: seq<string>, base: string, join: (string, string) -> string)
    returns (links: seq<string>)
    ensures links == LinksOf(anchors, base, join)
  {
    links := [];
    for i := 0 to |anchors|
      invariant links == LinksOf(anchors[..i], base, join)
    {
      var href := anchors[i];
      if StartsWith(href, "http") {
        links := links + [href];
      } else {
        links := links + [join(base, href)];
      }
    }
    assert anchors[..|anchors|] == anchors;
  }

  /**
   * links[:50]: the stored list is the first min(50, n) resolved anchors, in
   * order, and every one of them is either an absolute link as written or the
   * resolution of a relative one.
   */
  lemma StoredLinks(anchors: seq<string>, base: string, join: (string, string) -> string)
    ensures var stored := Take(LinksOf(anchors, base, join), 50);
      && |stored| == (if |anchors| < 50 then |anchors| else 50)
      && forall i :: 0 <= i < |stored| ==>
           stored[i] == (if StartsWith(anchors[i], "http") then anchors[i] else join(base, anchors[i]))
  {
  }

  /** Every text node with its surrounding whitespace stripped. */
  function StrippedTexts(texts: seq<string>): seq<string> {
    seq(|texts|, i requires 0 <= i < |texts| => Strip(texts[i]))
  }

  /** The strings that open with "<!--", in order. */
  function Openers(ss: seq<string>): seq<string> {
    if ss == [] then []
    else
      var t := ss[|ss| - 1];
      Openers(ss[..|ss| - 1]) + (if StartsWith(t, "<!--") then [t] else [])
  }

  /** The comments list: the stripped texts that start with a comment opener. */
  function CommentsOf(texts: seq<string>): seq<string> {
    Openers(StrippedTexts(texts))
  }

  /** One more text node adds its stripped form when that opens with "<!--". */
  lemma CommentsStep(texts: seq<string>, i: nat)
    requires i < |texts|
    ensures var t := Strip(texts[i]);
      CommentsOf(texts[..i + 1]) == CommentsOf(texts[..i]) + (if StartsWith(t, "<!--") then [t] else [])
  {
    var ss := StrippedTexts(texts[..i + 1]);
    var init := StrippedTexts(texts[..i]);
    var t := Strip(texts[i]);
    assert |ss| == i + 1 && ss[i] == t;
    assert forall k :: 0 <= k < i ==> ss[k] == init[k];
    assert ss[..i] == init;
    assert ss == init + [t];
  }

  /** The comment loop of extract_html_metadata. */
  method CollectComments(texts: seq<string>) returns (comments: seq<string>)
    ensures comments == CommentsOf(texts)
  {
    comments := [];
    for i := 0 to |texts|
      invariant comments == CommentsOf(texts[..i])
    {
      CommentsStep(texts, i);
      var stripped := Strip(texts[i]);
      if StartsWith(stripped, "<!--") {
        comments := comments + [stripped];
      }
    }
    assert texts[..|texts|] == texts;
  }

  /** A string is kept exactly when it is one of the inputs and opens with "<!--"; the kept ones keep their order. */
  lemma {:induction false} OpenersMembers(ss: seq<string>)
    ensures forall c :: c in Openers(ss) <==> c in ss && StartsWith(c, "<!--")
    ensures IsSubsequence(Openers(ss), ss)
  {
    if ss != [] {
      var n := |ss| - 1;
      var init := ss[..n];
      var t := ss[n];
      OpenersMembers(init);
      assert ss == init + [t];
      var kept := Openers(init);
      if StartsWith(t, "<!--") {
        var k := kept + [t];
        assert Openers(ss) == k;
        assert k[..|k| - 1] == kept;
      } else {
        assert Openers(ss) == kept;
        SubsequenceExtend(kept, init, t);
      }
    }
  }

  /** c opens with "<!--" and has no whitespace at either end. */
  predicate CommentShape(c: string) {
    StartsWith(c, "<!--") && !IsSpace(c[0]) && !IsSpace(c[|c| - 1])
  }

  /** c is the stripped form of one of the text nodes. */
  predicate StrippedFrom(c: string, texts: seq<string>) {
    exists i :: 0 <= i < |texts| && c == Strip(texts[i])
  }

  /**
   * Every stored comment opens with "<!--", has no surrounding whitespace
   * and is the stripped form of a text node.
   */
  lemma CommentsSound(texts: seq<string>)
    ensures forall c :: c in CommentsOf(texts) ==> CommentShape(c) && StrippedFrom(c, texts)
  {
    var ss := StrippedTexts(texts);
    OpenersMembers(ss);
    forall c | c in CommentsOf(texts)
      ensures CommentShape(c) && StrippedFrom(c, texts)
    {
      assert c in ss && StartsWith(c, "<!--");
      var i :| 0 <= i < |ss| && ss[i] == c;
      assert ss[i] == Strip(texts[i]);
      assert StrippedFrom(c, texts);
    }
  }

  /** A text node's stripped form is stored exactly when it opens with "<!--". */
  lemma CommentsComplete(texts: seq<string>, i: nat)
    requires i < |texts|
    ensures Strip(texts[i]) in CommentsOf(texts) <==> StartsWith(Strip(texts[i]), "<!--")
  {
    var ss := StrippedTexts(texts);
    OpenersMembers(ss);
    assert ss[i] == Strip(texts[i]);
  }
}
