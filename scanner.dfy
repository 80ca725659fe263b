/**
 * Directory scanner (`get_images`): keeps the listing entries whose names end
 * in ".jpg" or ".png", case-sensitively, in listing order. The listing itself
 * (`os.listdir`) is an input.
 */
module Scanner {
  import opened Strings
  import opened Sequences

  /** The test `get_images` applies to each entry. */
  predicate IsImageName(name: string): (b: bool)
    ensures b <==> |name| >= 4 && name[|name| - 4..] in {".jpg", ".png"}
  {
    EndsWith(name, ".jpg") || EndsWith(name, ".png")
  }

  /** The suffix test is case-sensitive: upper-case extensions are not images. */
  lemma UpperCaseExtensionIsNotImage()
    ensures !IsImageName("photo.JPG") && !IsImageName("photo.PNG")
  {
    assert "photo.JPG"[5..] == ".JPG" && "photo.PNG"[5..] == ".PNG";
  }

  /** The entries `get_images` returns, as a filter over the listing. */
  function SelectImages(listing: seq<string>): (r: seq<string>)
    ensures |r| <= |listing|
    ensures forall k :: 0 <= k < |r| ==> IsImageName(r[k])
  {
    if listing == [] then []
    else (if IsImageName(listing[0]) then [listing[0]] else []) + SelectImages(listing[1..])
  }

  /** An entry is selected exactly when it is in the listing and has an image suffix. */
  lemma {:induction false} SelectImagesMembers(listing: seq<string>, name: string)
    ensures name in SelectImages(listing) <==> name in listing && IsImageName(name)
  {
    if listing != [] {
      SelectImagesMembers(listing[1..], name);
      assert listing == [listing[0]] + listing[1..];
    }
  }

  /** The selection keeps listing order: it is a subsequence of the listing. */
  lemma {:induction false} SelectImagesIsSubsequence(listing: seq<string>)
    ensures IsSubsequence(SelectImages(listing), listing)
  {
    if listing != [] {
      var rest := SelectImages(listing[1..]);
      SelectImagesIsSubsequence(listing[1..]);
      if IsImageName(listing[0]) {
        assert SelectImages(listing)[1..] == rest;
      } else {
        assert SelectImages(listing) == rest;
      }
    }
  }

  /** A listing made only of ".jpg" and ".png" names is returned whole. */
  lemma {:induction false} SelectEveryImage(listing: seq<string>)
    requires forall k :: 0 <= k < |listing| ==> IsImageName(listing[k])
    ensures SelectImages(listing) == listing
  {
    if listing != [] {
      SelectEveryImage(listing[1..]);
      assert listing == [listing[0]] + listing[1..];
    }
  }

  /** `get_images`: the append loop over the listing. */
  method GetImages(listing: seq<string>) returns (images: seq<string>)
    ensures images == SelectImages(listing)
    ensures forall name :: name in images <==> name in listing && IsImageName(name)
    ensures IsSubsequence(images, listing)
  {
    images := [];
    var i := 0;
    while i < |listing|
      invariant 0 <= i <= |listing|
      invariant images + SelectImages(listing[i..]) == SelectImages(listing)
    {
      var file := listing[i];
      assert listing[i..][1..] == listing[i + 1..];
      if IsImageName(file) {
        images := images + [file];
      }
      i := i + 1;
    }
    assert listing[i..] == [];
    forall name ensures name in images <==> name in listing && IsImageName(name) {
      SelectImagesMembers(listing, name);
    }
    SelectImagesIsSubsequence(listing);
  }
}
