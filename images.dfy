/**
 * `extract_image_urls`: the gallery slide images first, then every other
 * program image not already listed, with site-relative paths made absolute.
 * Each `src` attribute is `None` when the element has none.
 */
module Images {
  import opened Wrappers
  import opened Text

  const Origin: string := "https://www.templestay.com"

  /** A `src` that is present and not empty (Python truthiness). */
  predicate HasSource(src: Option<string>) { src.Some? && src.value != "" }

  /** A path starting with `/` is prefixed with the site origin. */
  function Resolve(src: string): (r: string)
    ensures src != "" ==> r != "" && r[0] != '/'
    ensures src != "" && src[0] == '/' ==> r == Origin + src
  {
    if src != "" && src[0] == '/' then Origin + src else src
  }

  /** The resolved sources of the slides that have one, in slide order, duplicates kept. */
  function SlideUrls(slides: seq<Option<string>>): seq<string> {
    if slides == [] then []
    else
      var last := slides[|slides| - 1];
      SlideUrls(slides[..|slides| - 1]) + (if HasSource(last) then [Resolve(last.value)] else [])
  }

  /** An image whose source contains `templePrg`. */
  predicate IsProgramImage(src: Option<string>) { HasSource(src) && Contains(src.value, "templePrg") }

  /** The second pass over `imgs`, appending each new program image to `urls`. */
  function WithProgramImages(urls: seq<string>, imgs: seq<Option<string>>): seq<string> {
    if imgs == [] then urls
    else
      var acc := WithProgramImages(urls, imgs[..|imgs| - 1]);
      var src := imgs[|imgs| - 1];
      if IsProgramImage(src) && Resolve(src.value) !in acc then acc + [Resolve(src.value)] else acc
  }

  function ImageUrls(slides: seq<Option<string>>, imgs: seq<Option<string>>): seq<string> {
    WithProgramImages(SlideUrls(slides), imgs)
  }

  /** `extract_image_urls(soup)`, given the slide image sources and the sources of all images. */
  method ExtractImageUrls(slides: seq<Option<string>>, imgs: seq<Option<string>>) returns (urls: seq<string>)
    ensures urls == ImageUrls(slides, imgs)
  {
    urls := [];
    var i := 0;
    while i < |slides|
      invariant 0 <= i <= |slides|
      invariant urls == SlideUrls(slides[..i])
    {
      var src := slides[i];
      if src.Some? && src.value != "" {
        var s := src.value;
        if s[0] == '/' {
          s := Origin + s;
        }
        urls := urls + [s];
      }
      assert slides[..i + 1][..i] == slides[..i];
      i := i + 1;
    }
    assert slides[..i] == slides;
    ghost var first := urls;
    var j := 0;
    while j < |imgs|
      invariant 0 <= j <= |imgs|
      invariant urls == WithProgramImages(first, imgs[..j])
    {
      var src := imgs[j];
      if src.Some? && src.value != "" && Contains(src.value, "templePrg") {
        var s := src.value;
        if s[0] == '/' {
          s := Origin + s;
        }
        if s !in urls {
          urls := urls + [s];
        }
      }
      assert imgs[..j + 1][..j] == imgs[..j];
      j := j + 1;
    }
    assert imgs[..j] == imgs;
  }

  /** The second pass only appends: the slide images stay first, in order. */
  lemma {:induction false} ProgramImagesExtend(urls: seq<string>, imgs: seq<Option<string>>)
    ensures var r := WithProgramImages(urls, imgs); |urls| <= |r| && r[..|urls|] == urls
  {
    if imgs != [] {
      ProgramImagesExtend(urls, imgs[..|imgs| - 1]);
    }
  }

  /** Every image the second pass appends is new: it repeats neither an earlier entry nor another appended one. */
  lemma {:induction false} ProgramImagesFresh(urls: seq<string>, imgs: seq<Option<string>>)
    ensures var r := WithProgramImages(urls, imgs);
      forall i, j :: 0 <= i < j < |r| && |urls| <= j ==> r[i] != r[j]
  {
    if imgs != [] {
      ProgramImagesFresh(urls, imgs[..|imgs| - 1]);
      ProgramImagesExtend(urls, imgs[..|imgs| - 1]);
    }
  }

  /** Every program image ends up in the list. */
  lemma {:induction false} ProgramImagesComplete(urls: seq<string>, imgs: seq<Option<string>>)
    ensures forall k :: 0 <= k < |imgs| && IsProgramImage(imgs[k]) ==>
      Resolve(imgs[k].value) in WithProgramImages(urls, imgs)
  {
    if imgs != [] {
      var init := imgs[..|imgs| - 1];
      ProgramImagesComplete(urls, init);
      forall k | 0 <= k < |imgs| - 1 ensures imgs[k] == init[k] {}
    }
  }

  /** Everything the second pass appends comes from a program image. */
  lemma {:induction false} ProgramImagesSound(urls: seq<string>, imgs: seq<Option<string>>)
    ensures var r := WithProgramImages(urls, imgs);
      forall j :: |urls| <= j < |r| ==> exists k :: 0 <= k < |imgs| && IsProgramImage(imgs[k]) && r[j] == Resolve(imgs[k].value)
  {
    if imgs != [] {
      var init := imgs[..|imgs| - 1];
      ProgramImagesSound(urls, init);
      ProgramImagesExtend(urls, init);
      var r := WithProgramImages(urls, imgs);
      var acc := WithProgramImages(urls, init);
      forall j | |urls| <= j < |r|
        ensures exists k :: 0 <= k < |imgs| && IsProgramImage(imgs[k]) && r[j] == Resolve(imgs[k].value)
      {
        if j < |acc| {
          var k :| 0 <= k < |init| && IsProgramImage(init[k]) && acc[j] == Resolve(init[k].value);
          assert imgs[k] == init[k];
        } else {
          assert r[j] == Resolve(imgs[|imgs| - 1].value);
        }
      }
    }
  }

  predicate Absolute(url: string) { url != "" && url[0] != '/' }

  lemma {:induction false} SlideUrlsAbsolute(slides: seq<Option<string>>)
    ensures forall u :: u in SlideUrls(slides) ==> Absolute(u)
  {
    if slides != [] { SlideUrlsAbsolute(slides[..|slides| - 1]); }
  }

  lemma {:induction false} ProgramImagesAbsolute(urls: seq<string>, imgs: seq<Option<string>>)
    requires forall u :: u in urls ==> Absolute(u)
    ensures forall u :: u in WithProgramImages(urls, imgs) ==> Absolute(u)
  {
    if imgs != [] { ProgramImagesAbsolute(urls, imgs[..|imgs| - 1]); }
  }

  /** No image URL in the result is site-relative. */
  lemma ImageUrlsAbsolute(slides: seq<Option<string>>, imgs: seq<Option<string>>)
    ensures forall u :: u in ImageUrls(slides, imgs) ==> Absolute(u)
  {
    SlideUrlsAbsolute(slides);
    ProgramImagesAbsolute(SlideUrls(slides), imgs);
  }
}
