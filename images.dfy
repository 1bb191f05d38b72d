/**
 * Image metadata: the first ten <img src=...> of the page are made absolute,
 * data: URIs are skipped, every other image is fetched, and an entry is kept
 * for each fetch that answers 200.
 */
module Images {
  import opened Wrappers
  import opened Text
  import opened Http
  import opened Page
  import opened Domains
  import opened Sequences

  /** One entry of image_metadata. */
  datatype ImageInfo = ImageInfo(url: string, alt: string, size: nat, contentType: string)

  /** At most this many images are looked at. */
  const MaxImages := 10

  /** `img.get('alt', '')` */
  function AltText(img: ImageTag): string {
    if img.alt.Some? then img.alt.value else ""
  }

  /** The URL an image is fetched from, or None when it is a data: URI and is skipped. */
  function ImageUrl(img: ImageTag, base: string, join: (string, string) -> string): (r: Option<string>)
    ensures r.Some? <==> !StartsWith(Resolve(img.src, base, join), "data:")
    ensures r.Some? ==> r.value == Resolve(img.src, base, join) && !StartsWith(r.value, "data:")
  {
    var src := Resolve(img.src, base, join);
    if StartsWith(src, "data:") then None else Some(src)
  }

  /** The entry for an image whose fetch answered 200. */
  function InfoOf(url: string, img: ImageTag, response: Response): ImageInfo {
    var contentType := Lookup(response.headers, "Content-Type");
    ImageInfo(url, AltText(img), response.contentLength, if contentType.Some? then contentType.value else "")
  }

  /** The outcome for one image: its entry when it is fetched and the answer is 200. */
  function Outcome(img: ImageTag, base: string, join: (string, string) -> string,
                   fetch: string -> Option<Response>): Option<ImageInfo>
  {
    var url := ImageUrl(img, base, join);
    if url.Some? && fetch(url.value).Some? && fetch(url.value).value.status == 200 then
      Some(InfoOf(url.value, img, fetch(url.value).value))
    else None
  }

  /** The URLs fetched for a list of images, in order. */
  function RequestsOf(imgs: seq<ImageTag>, base: string, join: (string, string) -> string): seq<string> {
    if imgs == [] then []
    else
      var url := ImageUrl(imgs[|imgs| - 1], base, join);
      RequestsOf(imgs[..|imgs| - 1], base, join) + (if url.Some? then [url.value] else [])
  }

  /** The entries kept for a list of images, in order. */
  function InfosOf(imgs: seq<ImageTag>, base: string, join: (string, string) -> string,
                   fetch: string -> Option<Response>): seq<ImageInfo>
  {
    if imgs == [] then []
    else
      var outcome := Outcome(imgs[|imgs| - 1], base, join, fetch);
      InfosOf(imgs[..|imgs| - 1], base, join, fetch) + (if outcome.Some? then [outcome.value] else [])
  }

  /** One more image adds its request and its entry, when it has them. */
  lemma ImagesStep(imgs: seq<ImageTag>, i: nat, base: string, join: (string, string) -> string,
                   fetch: string -> Option<Response>)
    requires i < |imgs|
    ensures var url := ImageUrl(imgs[i], base, join);
      RequestsOf(imgs[..i + 1], base, join) == RequestsOf(imgs[..i], base, join) + (if url.Some? then [url.value] else [])
    ensures var outcome := Outcome(imgs[i], base, join, fetch);
      InfosOf(imgs[..i + 1], base, join, fetch) == InfosOf(imgs[..i], base, join, fetch) + (if outcome.Some? then [outcome.value] else [])
  {
    assert imgs[..i + 1][..i] == imgs[..i];
  }

  /**
   * The image loop of extract_image_metadata over images[:10]: it returns the
   * entries kept and the URLs it fetched, in order.
   */
  method CollectImages(images: seq<ImageTag>, base: string, join: (string, string) -> string,
                       fetch: string -> Option<Response>)
    returns (infos: seq<ImageInfo>, requested: seq<string>)
    ensures infos == InfosOf(Take(images, MaxImages), base, join, fetch)
    ensures requested == RequestsOf(Take(images, MaxImages), base, join)
  {
    var imgs := if |images| <= MaxImages then images else images[..MaxImages];
    assert imgs == Take(images, MaxImages);
    infos := [];
    requested := [];
    for i := 0 to |imgs|
      invariant infos == InfosOf(imgs[..i], base, join, fetch)
      invariant requested == RequestsOf(imgs[..i], base, join)
    {
      ImagesStep(imgs, i, base, join, fetch);
      var img := imgs[i];
      var src := img.src;
      if !(StartsWith(src, "http://") || StartsWith(src, "https://")) {
        src := join(base, src);
      }
      if StartsWith(src, "data:") {
        continue;
      }
      requested := requested + [src];
      var response := fetch(src);
      if Truthy(response) && response.value.status == 200 {
        var contentType := Lookup(response.value.headers, "Content-Type");
        var alt := if img.alt.Some? then img.alt.value else "";
        infos := infos + [ImageInfo(src, alt, response.value.contentLength,
                                    if contentType.Some? then contentType.value else "")];
      }
    }
    assert imgs[..|imgs|] == imgs;
  }

  /** Each image is fetched at most once, so there are no more requests than images and no data: request. */
  lemma {:induction false} RequestsBounded(imgs: seq<ImageTag>, base: string, join: (string, string) -> string)
    ensures |RequestsOf(imgs, base, join)| <= |imgs|
    ensures forall u :: u in RequestsOf(imgs, base, join) ==> !StartsWith(u, "data:")
  {
    if imgs != [] {
      RequestsBounded(imgs[..|imgs| - 1], base, join);
    }
  }

  /**
   * A URL is fetched exactly when some image resolves to it and it is not a
   * data: URI.
   */
  lemma {:induction false} RequestsMembers(imgs: seq<ImageTag>, base: string, join: (string, string) -> string, u: string)
    ensures u in RequestsOf(imgs, base, join)
      <==> !StartsWith(u, "data:") && exists i :: 0 <= i < |imgs| && Resolve(imgs[i].src, base, join) == u
  {
    if imgs != [] {
      var n := |imgs| - 1;
      var init := imgs[..n];
      RequestsMembers(init, base, join, u);
      assert imgs == init + [imgs[n]];
      assert forall i :: 0 <= i < n ==> init[i] == imgs[i];
    }
  }

  /** An entry is kept exactly for the images whose outcome is that entry; each kept entry was a request. */
  lemma {:induction false} InfosMembers(imgs: seq<ImageTag>, base: string, join: (string, string) -> string,
                                        fetch: string -> Option<Response>, x: ImageInfo)
    ensures x in InfosOf(imgs, base, join, fetch)
      <==> exists i :: 0 <= i < |imgs| && Outcome(imgs[i], base, join, fetch) == Some(x)
    ensures x in InfosOf(imgs, base, join, fetch) ==> x.url in RequestsOf(imgs, base, join)
  {
    if imgs != [] {
      var n := |imgs| - 1;
      var init := imgs[..n];
      InfosMembers(init, base, join, fetch, x);
      assert imgs == init + [imgs[n]];
      assert forall i :: 0 <= i < n ==> init[i] == imgs[i];
    }
  }

  /** What an entry records: a fetched, non-data: URL that answered 200, with its alt text, size and content type. */
  lemma OutcomeFields(img: ImageTag, base: string, join: (string, string) -> string,
                      fetch: string -> Option<Response>)
    requires Outcome(img, base, join, fetch).Some?
    ensures var x := Outcome(img, base, join, fetch).value;
      && x.url == Resolve(img.src, base, join) && !StartsWith(x.url, "data:")
      && fetch(x.url).Some? && fetch(x.url).value.status == 200
      && x.size == fetch(x.url).value.contentLength
      && (img.alt.Some? ==> x.alt == img.alt.value) && (img.alt.None? ==> x.alt == "")
      && x.contentType == (var h := fetch(x.url).value.headers;
                           if Has(h, "Content-Type") then Lookup(h, "Content-Type").value else "")
  {
  }

  /**
   * At most ten images are fetched and at most ten entries kept, never a
   * data: URI, and every entry comes from one of the first ten images.
   */
  lemma ImageLimits(images: seq<ImageTag>, base: string, join: (string, string) -> string,
                    fetch: string -> Option<Response>)
    ensures |RequestsOf(Take(images, MaxImages), base, join)| <= MaxImages
    ensures |InfosOf(Take(images, MaxImages), base, join, fetch)| <= MaxImages
    ensures forall u :: u in RequestsOf(Take(images, MaxImages), base, join) ==> !StartsWith(u, "data:")
    ensures forall x :: x in InfosOf(Take(images, MaxImages), base, join, fetch) ==>
      exists i :: 0 <= i < |images| && i < MaxImages && Outcome(images[i], base, join, fetch) == Some(x)
  {
    var imgs := Take(images, MaxImages);
    RequestsBounded(imgs, base, join);
    InfosBounded(imgs, base, join, fetch);
    forall x | x in InfosOf(imgs, base, join, fetch)
      ensures exists i :: 0 <= i < |images| && i < MaxImages && Outcome(images[i], base, join, fetch) == Some(x)
    {
      InfosMembers(imgs, base, join, fetch, x);
      var i :| 0 <= i < |imgs| && Outcome(imgs[i], base, join, fetch) == Some(x);
      assert imgs[i] == images[i];
    }
  }

  lemma {:induction false} InfosBounded(imgs: seq<ImageTag>, base: string, join: (string, string) -> string,
                                        fetch: string -> Option<Response>)
    ensures |InfosOf(imgs, base, join, fetch)| <= |RequestsOf(imgs, base, join)|
  {
    if imgs != [] {
      InfosBounded(imgs[..|imgs| - 1], base, join, fetch);
    }
  }
}
