/**
 * The home page's choice of files: the slideshow images and the press
 * release offered for download.
 */
module Home {
  import opened Wrappers
  import opened Text

  /** The extensions the slideshow accepts, compared on the lower-cased name. */
  const ImageExtensions: seq<string> := [".jpg", ".jpeg", ".png", ".gif"]

  /** The page header's own picture, never shown in the slideshow. */
  const HeaderImage := "headerbmkg.jpg"

  /** A slideshow image: its lower-cased name ends in an accepted extension, and it is not the header picture. */
  predicate IsSlide(name: string)
  {
    (exists e :: e in ImageExtensions && EndsWith(Lower(name), e)) && name != HeaderImage
  }

  /** The slideshow images of a listing, in listing order. */
  function SlideImages(listing: seq<string>): (images: seq<string>)
    ensures |images| <= |listing|
    ensures forall x :: x in images <==> x in listing && IsSlide(x)
  {
    if listing == [] then []
    else (if IsSlide(listing[0]) then [listing[0]] else []) + SlideImages(listing[1..])
  }

  /** A name ending in `.JPG` lower-cases to one ending in `.jpg`. */
  lemma LowerJpg(stem: string)
    ensures EndsWith(Lower(stem + ".JPG"), ".jpg")
  {
    var name := stem + ".JPG";
    var low := Lower(name);
    var n := |stem|;
    assert name[n] == '.' && name[n + 1] == 'J' && name[n + 2] == 'P' && name[n + 3] == 'G';
    assert low[n] == '.' && low[n + 1] == 'j' && low[n + 2] == 'p' && low[n + 3] == 'g';
    assert low[n..] == ".jpg";
  }

  /** The extension test ignores case; the header test does not. */
  lemma SlideIgnoresCase(stem: string)
    ensures IsSlide(stem + ".JPG")
    ensures !IsSlide(HeaderImage)
    ensures IsSlide("HEADERBMKG.JPG")
  {
    var name := stem + ".JPG";
    LowerJpg(stem);
    assert ImageExtensions[0] == ".jpg";
    assert name != HeaderImage by {
      assert name[|name| - 1] == 'G' && HeaderImage[|HeaderImage| - 1] == 'g';
    }
    LowerJpg("HEADERBMKG");
    assert "HEADERBMKG" + ".JPG" == "HEADERBMKG.JPG";
  }

  /** The press release offered: the first `.pdf` in the listing, if any. */
  function PressFile(listing: seq<string>): (r: Option<string>)
    ensures r.None? <==> forall j :: 0 <= j < |listing| ==> !EndsWith(listing[j], ".pdf")
    ensures r.Some? ==> exists i :: 0 <= i < |listing| && listing[i] == r.value && EndsWith(r.value, ".pdf")
                          && forall j :: 0 <= j < i ==> !EndsWith(listing[j], ".pdf")
  {
    if listing == [] then None
    else if EndsWith(listing[0], ".pdf") then Some(listing[0])
    else
      var r := PressFile(listing[1..]);
      assert forall j :: 1 <= j < |listing| ==> listing[j] == listing[1..][j - 1];
      if r.Some? then
        var i :| 0 <= i < |listing[1..]| && listing[1..][i] == r.value && EndsWith(r.value, ".pdf")
                 && forall j :: 0 <= j < i ==> !EndsWith(listing[1..][j], ".pdf");
        assert listing[i + 1] == r.value;
        r
      else r
  }
}
