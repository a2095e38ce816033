/**
 What the save handler does before handing the image to the encoder: it completes
 a path that lacks a recognised extension with the one named by the chosen file
 filter, and for a JPEG target turns an image with alpha or a palette into RGB.
 */
module SavePath {
  import opened Wrappers
  import opened Imaging

  /** Lower-casing of one character (ASCII letters only). */
  function LowerChar(c: char): char {
    if 'A' <= c <= 'Z' then (c as int + ('a' as int - 'A' as int)) as char else c
  }

  /** `s.lower()` */
  function Lower(s: string): (r: string)
    ensures |r| == |s|
    ensures forall i :: 0 <= i < |s| ==> r[i] == LowerChar(s[i])
  {
    seq(|s|, i requires 0 <= i < |s| => LowerChar(s[i]))
  }

  /** `s.endswith(suffix)` */
  predicate EndsWith(s: string, suffix: string) {
    |suffix| <= |s| && s[|s| - |suffix|..] == suffix
  }

  /** `pattern` occurs in `text` starting at index `i`. */
  predicate OccursAt(text: string, pattern: string, i: int) {
    0 <= i && i + |pattern| <= |text| && text[i..i + |pattern|] == pattern
  }

  /** `pattern in text` for strings: a substring test. */
  predicate Contains(text: string, pattern: string) {
    exists i :: 0 <= i <= |text| - |pattern| && OccursAt(text, pattern, i)
  }

  /** The path already names one of the formats the save dialog offers, ignoring case. */
  predicate HasKnownExtension(path: string) {
    KnownEnding(Lower(path))
  }

  predicate KnownEnding(lower: string) {
    EndsWith(lower, ".png") || EndsWith(lower, ".jpg") || EndsWith(lower, ".jpeg") || EndsWith(lower, ".bmp")
  }

  /** The target is written as JPEG, ignoring case. */
  predicate IsJpegPath(path: string) {
    var lower := Lower(path);
    EndsWith(lower, ".jpg") || EndsWith(lower, ".jpeg")
  }

  /** The extension the chosen filter asks for; PNG is tested first, then JPEG, then BMP. */
  function FilterExtension(filter: string): (r: Option<string>)
    ensures r.None? <==> !Contains(filter, "PNG") && !Contains(filter, "JPEG") && !Contains(filter, "BMP")
    ensures Contains(filter, "PNG") ==> r == Some(".png")
    ensures !Contains(filter, "PNG") && Contains(filter, "JPEG") ==> r == Some(".jpg")
    ensures !Contains(filter, "PNG") && !Contains(filter, "JPEG") && Contains(filter, "BMP") ==> r == Some(".bmp")
    ensures r.Some? ==> r.value in [".png", ".jpg", ".bmp"]
  {
    if Contains(filter, "PNG") then Some(".png")
    else if Contains(filter, "JPEG") then Some(".jpg")
    else if Contains(filter, "BMP") then Some(".bmp")
    else None
  }

  /** Lower-casing leaves a string without capitals as it is. */
  lemma LowerNoCapitals(s: string)
    requires forall i :: 0 <= i < |s| ==> !('A' <= s[i] <= 'Z')
    ensures Lower(s) == s
  {
  }

  lemma LowerAppend(a: string, b: string)
    ensures Lower(a + b) == Lower(a) + Lower(b)
  {
  }

  lemma AppendedEndsWith(path: string, ext: string)
    requires Lower(ext) == ext
    ensures EndsWith(Lower(path + ext), ext)
  {
    LowerAppend(path, ext);
  }

  /** Appending one of the filter extensions gives a path with a recognised extension. */
  lemma AppendedExtensionIsKnown(path: string, ext: string)
    requires ext in [".png", ".jpg", ".bmp"]
    ensures EndsWith(Lower(path + ext), ext)
    ensures HasKnownExtension(path + ext)
  {
    assert Lower(ext) == ext by {
      if ext == ".png" {
        LowerNoCapitals(".png");
      } else if ext == ".jpg" {
        LowerNoCapitals(".jpg");
      } else {
        LowerNoCapitals(".bmp");
      }
    }
    AppendedEndsWith(path, ext);
  }

  /** The path the image is saved to. */
  function NormalizeSavePath(path: string, filter: string): (r: string)
    ensures path <= r
    ensures HasKnownExtension(path) ==> r == path
    ensures FilterExtension(filter).None? ==> r == path
    ensures HasKnownExtension(r) <==> HasKnownExtension(path) || FilterExtension(filter).Some?
  {
    if HasKnownExtension(path) then path
    else match FilterExtension(filter)
      case None => path
      case Some(ext) =>
        AppendedExtensionIsKnown(path, ext);
        path + ext
  }

  /** A path without a recognised extension receives exactly the filter's extension. */
  lemma NormalizeAppendsFilterExtension(path: string, filter: string)
    requires !HasKnownExtension(path) && FilterExtension(filter).Some?
    ensures NormalizeSavePath(path, filter) == path + FilterExtension(filter).value
  {
  }

  /** Normalising a normalised path changes nothing. */
  lemma NormalizeSavePathIdempotent(path: string, filter: string)
    ensures NormalizeSavePath(NormalizeSavePath(path, filter), filter) == NormalizeSavePath(path, filter)
  {
  }

  /** A string ending in `suffix` has the suffix's second-to-last character in that place. */
  lemma EndsWithPenultimate(s: string, suffix: string)
    requires EndsWith(s, suffix) && |suffix| > 1
    ensures s[|s| - 2] == suffix[|suffix| - 2]
  {
  }

  /**
   A path without a recognised extension saved under a JPEG filter (and not a PNG
   one) becomes a JPEG target; a path that already ends in ".png" or ".bmp" never
   does, whatever the filter.
   */
  lemma {:induction false} JpegTarget(path: string, filter: string)
    ensures !HasKnownExtension(path) && !Contains(filter, "PNG") && Contains(filter, "JPEG") ==>
              IsJpegPath(NormalizeSavePath(path, filter))
    ensures EndsWith(Lower(path), ".png") || EndsWith(Lower(path), ".bmp") ==>
              !IsJpegPath(NormalizeSavePath(path, filter))
  {
    if !HasKnownExtension(path) && !Contains(filter, "PNG") && Contains(filter, "JPEG") {
      AppendedExtensionIsKnown(path, ".jpg");
    }
    var lower := Lower(path);
    if EndsWith(lower, ".png") || EndsWith(lower, ".bmp") {
      EndsWithPenultimate(lower, if EndsWith(lower, ".png") then ".png" else ".bmp");
      if EndsWith(lower, ".jpg") {
        EndsWithPenultimate(lower, ".jpg");
      }
      if EndsWith(lower, ".jpeg") {
        EndsWithPenultimate(lower, ".jpeg");
      }
    }
  }

  /**
   The image handed to the encoder: for a JPEG target an RGBA or palette image is
   converted to RGB; every other image and target is left as it is.
   */
  function PrepareForSave(img: ImageDesc, path: string): (r: ImageDesc)
    ensures r.width == img.width && r.height == img.height
    ensures IsJpegPath(path) ==> r.mode != "RGBA" && r.mode != "P"
    ensures !IsJpegPath(path) || (img.mode != "RGBA" && img.mode != "P") ==> r == img
    ensures r != img ==> r.mode == "RGB"
  {
    if IsJpegPath(path) && (img.mode == "RGBA" || img.mode == "P") then Convert(img, "RGB") else img
  }
}
