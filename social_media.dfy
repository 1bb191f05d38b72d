/**
 * Social media profile discovery: every link of the page, lower-cased, is
 * filed under each platform whose domain patterns it contains, once per
 * platform; platforms left empty are dropped.
 */
module SocialMedia {
  import opened Text
  import opened Sequences

  /** A platform with the substrings that identify its links. */
  datatype Platform = Platform(name: string, patterns: seq<string>)

  /** The platforms in the order of the source's dictionary. */
  const Platforms := [
    Platform("facebook", ["facebook.com", "fb.com"]),
    Platform("twitter", ["twitter.com", "x.com"]),
    Platform("instagram", ["instagram.com"]),
    Platform("linkedin", ["linkedin.com"]),
    Platform("youtube", ["youtube.com", "youtu.be"]),
    Platform("github", ["github.com"]),
    Platform("pinterest", ["pinterest.com"]),
    Platform("tiktok", ["tiktok.com"])
  ]

  /** The links filed so far under one platform. */
  datatype Bucket = Bucket(platform: Platform, links: seq<string>)

  /** One entry of the result: a platform's name and the links filed under it. */
  datatype Profiles = Profiles(platform: string, links: seq<string>)

  /** href contains one of the patterns. */
  predicate Mentions(href: string, patterns: seq<string>) {
    exists j :: 0 <= j < |patterns| && Contains(href, patterns[j])
  }

  /**
   * The innermost loop over a platform's patterns: each pattern that occurs in
   * href appends it, unless it is already there.
   */
  function PlaceEach(links: seq<string>, href: string, patterns: seq<string>): seq<string> {
    if patterns == [] then links
    else
      var b := PlaceEach(links, href, patterns[..|patterns| - 1]);
      if Contains(href, patterns[|patterns| - 1]) && href !in b then b + [href] else b
  }

  /** Filing one lower-cased link under every platform. */
  function Visit(buckets: seq<Bucket>, href: string): (r: seq<Bucket>)
    ensures |r| == |buckets| && forall q :: 0 <= q < |r| ==> r[q].platform == buckets[q].platform
  {
    seq(|buckets|, q requires 0 <= q < |buckets| =>
      Bucket(buckets[q].platform, PlaceEach(buckets[q].links, href, buckets[q].platform.patterns)))
  }

  /** The empty lists the dictionary starts with. */
  function Start(platforms: seq<Platform>): seq<Bucket> {
    seq(|platforms|, q requires 0 <= q < |platforms| => Bucket(platforms[q], []))
  }

  /** The buckets after the whole link loop, one per platform. */
  function BucketsOf(hrefs: seq<string>, platforms: seq<Platform>): (r: seq<Bucket>)
    ensures |r| == |platforms| && forall q :: 0 <= q < |r| ==> r[q].platform == platforms[q]
  {
    if hrefs == [] then Start(platforms)
    else Visit(BucketsOf(hrefs[..|hrefs| - 1], platforms), Lower(hrefs[|hrefs| - 1]))
  }

  /** The dictionary comprehension that keeps only platforms with at least one link. */
  function KeepNonEmpty(buckets: seq<Bucket>): (r: seq<Profiles>)
    ensures forall i :: 0 <= i < |r| ==> r[i].links != []
    ensures forall q :: 0 <= q < |buckets| && buckets[q].links != [] ==>
      Profiles(buckets[q].platform.name, buckets[q].links) in r
    ensures forall x :: x in r ==>
      exists q :: 0 <= q < |buckets| && x == Profiles(buckets[q].platform.name, buckets[q].links)
  {
    if buckets == [] then []
    else
      var n := |buckets| - 1;
      var r := KeepNonEmpty(buckets[..n]);
      assert forall q :: 0 <= q < n ==> buckets[..n][q] == buckets[q];
      var b := buckets[n];
      if b.links == [] then r else r + [Profiles(b.platform.name, b.links)]
  }

  /** The link loop of extract_social_media over the page's hrefs. */
  method FileLinks(hrefs: seq<string>, platforms: seq<Platform>) returns (buckets: seq<Bucket>)
    ensures buckets == BucketsOf(hrefs, platforms)
  {
    buckets := Start(platforms);
    for i := 0 to |hrefs|
      invariant buckets == BucketsOf(hrefs[..i], platforms)
    {
      assert hrefs[..i + 1][..i] == hrefs[..i];
      var href := Lower(hrefs[i]);
      ghost var before := buckets;
      for q := 0 to |buckets|
        invariant |buckets| == |before|
        invariant forall r :: 0 <= r < q ==>
          buckets[r] == Bucket(before[r].platform, PlaceEach(before[r].links, href, before[r].platform.patterns))
        invariant forall r :: q <= r < |buckets| ==> buckets[r] == before[r]
      {
        var patterns := buckets[q].platform.patterns;
        var links := buckets[q].links;
        for j := 0 to |patterns|
          invariant links == PlaceEach(before[q].links, href, patterns[..j])
        {
          assert patterns[..j + 1][..j] == patterns[..j];
          if Contains(href, patterns[j]) && href !in links {
            links := links + [href];
          }
        }
        assert patterns[..|patterns|] == patterns;
        buckets := buckets[q := buckets[q].(links := links)];
      }
    }
    assert hrefs[..|hrefs|] == hrefs;
  }

  /** Running through all the patterns files href at most once: when one matches and it is new. */
  lemma {:induction false} PlaceEachOnce(bucket: seq<string>, href: string, patterns: seq<string>)
    ensures PlaceEach(bucket, href, patterns)
      == if Mentions(href, patterns) && href !in bucket then bucket + [href] else bucket
  {
    if patterns != [] {
      var n := |patterns| - 1;
      var init := patterns[..n];
      PlaceEachOnce(bucket, href, init);
      assert forall j :: 0 <= j < n ==> init[j] == patterns[j];
      if Mentions(href, patterns) && !Mentions(href, init) {
        assert Contains(href, patterns[n]);
      }
    }
  }

  /** Lower-casing every link. */
  function LowerAll(hrefs: seq<string>): seq<string> {
    seq(|hrefs|, i requires 0 <= i < |hrefs| => Lower(hrefs[i]))
  }

  /** Lower-casing a list one link longer adds that link, lower-cased, at the end. */
  lemma LowerAllAppend(hrefs: seq<string>, h: string)
    ensures LowerAll(hrefs + [h]) == LowerAll(hrefs) + [Lower(h)]
  {
    var a := LowerAll(hrefs + [h]);
    var b := LowerAll(hrefs) + [Lower(h)];
    assert |a| == |b|;
    forall i | 0 <= i < |a| ensures a[i] == b[i] {
      if i < |hrefs| {
        assert (hrefs + [h])[i] == hrefs[i];
      }
    }
  }

  /**
   * A platform's bucket holds exactly the lower-cased links that contain one
   * of its patterns.
   */
  lemma {:induction false} BucketMembers(hrefs: seq<string>, platforms: seq<Platform>, q: nat, h: string)
    requires q < |platforms|
    ensures h in BucketsOf(hrefs, platforms)[q].links
      <==> exists i :: 0 <= i < |hrefs| && h == Lower(hrefs[i]) && Mentions(h, platforms[q].patterns)
  {
    if hrefs == [] {
      assert BucketsOf(hrefs, platforms)[q] == Bucket(platforms[q], []);
    } else {
      var n := |hrefs| - 1;
      var init := hrefs[..n];
      var before := BucketsOf(init, platforms)[q].links;
      var href := Lower(hrefs[n]);
      var patterns := platforms[q].patterns;
      BucketStep(hrefs, platforms, q);
      PlaceEachOnce(before, href, patterns);
      BucketMembers(init, platforms, q, h);
      assert (exists i :: 0 <= i < |hrefs| && h == Lower(hrefs[i]) && Mentions(h, patterns))
        <==> (exists i :: 0 <= i < n && h == Lower(init[i]) && Mentions(h, patterns)) || (h == href && Mentions(h, patterns))
      by {
        assert forall i :: 0 <= i < n ==> init[i] == hrefs[i];
      }
    }
  }

  /** The last link is filed under a platform on top of what the earlier links filed there. */
  lemma BucketStep(hrefs: seq<string>, platforms: seq<Platform>, q: nat)
    requires hrefs != [] && q < |platforms|
    ensures var n := |hrefs| - 1;
      BucketsOf(hrefs, platforms)[q].links
      == PlaceEach(BucketsOf(hrefs[..n], platforms)[q].links, Lower(hrefs[n]), platforms[q].patterns)
  {
  }

  /** No link is filed twice under one platform, and links keep the page order. */
  lemma {:induction false} BucketsOrderedUnique(hrefs: seq<string>, platforms: seq<Platform>, q: nat)
    requires q < |platforms|
    ensures Distinct(BucketsOf(hrefs, platforms)[q].links)
    ensures IsSubsequence(BucketsOf(hrefs, platforms)[q].links, LowerAll(hrefs))
  {
    if hrefs == [] {
      assert BucketsOf(hrefs, platforms)[q] == Bucket(platforms[q], []);
    } else {
      var n := |hrefs| - 1;
      var init := hrefs[..n];
      var b0 := BucketsOf(init, platforms)[q].links;
      var href := Lower(hrefs[n]);
      BucketsOrderedUnique(init, platforms, q);
      BucketStep(hrefs, platforms, q);
      PlaceEachOnce(b0, href, platforms[q].patterns);
      assert LowerAll(hrefs) == LowerAll(init) + [href] by {
        LowerAllAppend(init, hrefs[n]);
        assert init + [hrefs[n]] == hrefs;
      }
      if Mentions(href, platforms[q].patterns) && href !in b0 {
        DistinctAppend(b0, href);
        SubsequenceAppendBoth(b0, LowerAll(init), href);
      } else {
        SubsequenceExtend(b0, LowerAll(init), href);
      }
    }
  }

  /** Every filed link is lower-case. */
  lemma BucketsLower(hrefs: seq<string>, platforms: seq<Platform>, q: nat, h: string)
    requires q < |platforms| && h in BucketsOf(hrefs, platforms)[q].links
    ensures IsLower(h) && Mentions(h, platforms[q].patterns)
  {
    BucketMembers(hrefs, platforms, q, h);
    var i :| 0 <= i < |hrefs| && h == Lower(hrefs[i]) && Mentions(h, platforms[q].patterns);
    LowerIsLower(hrefs[i]);
  }

  /** The kept profiles are empty exactly when no link mentions any platform. */
  lemma NoProfilesIffNoMention(hrefs: seq<string>, platforms: seq<Platform>)
    ensures KeepNonEmpty(BucketsOf(hrefs, platforms)) == []
      <==> forall i, q :: 0 <= i < |hrefs| && 0 <= q < |platforms| ==>
             !Mentions(Lower(hrefs[i]), platforms[q].patterns)
  {
    var buckets := BucketsOf(hrefs, platforms);
    if KeepNonEmpty(buckets) == [] {
      forall i, q | 0 <= i < |hrefs| && 0 <= q < |platforms|
        ensures !Mentions(Lower(hrefs[i]), platforms[q].patterns)
      {
        assert buckets[q].links == [];
        BucketMembers(hrefs, platforms, q, Lower(hrefs[i]));
      }
    } else {
      SomeMention(hrefs, platforms);
    }
  }

  /** Some link mentions some platform. */
  predicate AnyMention(hrefs: seq<string>, platforms: seq<Platform>) {
    exists i, q :: 0 <= i < |hrefs| && 0 <= q < |platforms| && Mentions(Lower(hrefs[i]), platforms[q].patterns)
  }

  lemma SomeMention(hrefs: seq<string>, platforms: seq<Platform>)
    requires KeepNonEmpty(BucketsOf(hrefs, platforms)) != []
    ensures AnyMention(hrefs, platforms)
  {
    var buckets := BucketsOf(hrefs, platforms);
    var kept := KeepNonEmpty(buckets);
    assert kept[0] in kept;
    var q :| 0 <= q < |buckets| && kept[0] == Profiles(buckets[q].platform.name, buckets[q].links);
    var h := buckets[q].links[0];
    BucketMembers(hrefs, platforms, q, h);
  }
}
