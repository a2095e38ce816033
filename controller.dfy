/**
 The resize controller behind the image-resizer window: the loaded original, the
 current resized image, the aspect-ratio anchor, the lock checkbox, the two
 dimension text fields and the enabled state of the save button, with the four
 event handlers that change them (open, edit a dimension, toggle the lock, save).

 Each handler is specified by a transition function on `ControllerState`; the
 lemmas state what the handlers promise, and class `ResizerController` carries
 the same state in fields and implements each handler step by step.
 */
module Controller {
  import opened Wrappers
  import opened Decimal
  import opened Imaging
  import opened Aspect
  import opened SavePath

  datatype ControllerState = ControllerState(
    original: Option<ImageDesc>,
    resized: Option<ImageDesc>,
    ratioWidth: int,        // the aspect ratio is ratioWidth / ratioHeight
    ratioHeight: int,
    lockAspect: bool,
    widthText: string,
    heightText: string,
    saveEnabled: bool)

  /** What the open dialog and the decoder produced. */
  datatype OpenOutcome = Cancelled | Failed | Opened(image: ImageDesc)

  /** What is handed to the encoder: the final path and the image written there. */
  datatype SaveRequest = SaveRequest(path: string, image: ImageDesc)

  datatype SaveResult = SaveResult(next: ControllerState, written: Option<SaveRequest>)

  /** The window as constructed: nothing loaded, empty fields, lock checked, save disabled, ratio 1.0. */
  const Initial := ControllerState(None, None, 1, 1, true, "", "", false)

  /** A resized image was produced from the original, possibly converted to RGB for a JPEG save. */
  predicate ModeFrom(resized: ImageDesc, original: ImageDesc) {
    resized.mode == original.mode
    || ((original.mode == "RGBA" || original.mode == "P") && resized.mode == "RGB")
  }

  /**
   The controller invariant: the ratio anchor is the original's size whenever an
   image is loaded, a resized image exists only beside an original and has a
   positive size, and the save button is enabled exactly when there is a resized
   image to save.
   */
  predicate Inv(s: ControllerState) {
    && s.ratioWidth > 0 && s.ratioHeight > 0
    && (s.original.Some? ==>
          Decodable(s.original.value)
          && s.ratioWidth == s.original.value.width && s.ratioHeight == s.original.value.height)
    && (s.resized.Some? ==>
          s.original.Some? && Decodable(s.resized.value) && ModeFrom(s.resized.value, s.original.value))
    && s.saveEnabled == s.resized.Some?
  }

  predicate WellFormedOutcome(o: OpenOutcome) {
    o.Opened? ==> Decodable(o.image)
  }

  // ---------------------------------------------------------------------------
  // Transitions

  /** `open_image`: a cancelled dialog or a failed decode leaves everything as it was. */
  function Open(s: ControllerState, o: OpenOutcome): ControllerState {
    match o
    case Cancelled => s
    case Failed => s
    case Opened(img) =>
      s.(original := Some(img), resized := None,
         ratioWidth := img.width, ratioHeight := img.height,
         widthText := Show(img.width), heightText := Show(img.height),
         saveEnabled := false)
  }

  /** `resize_image(width_changed)`. */
  function Resize(s: ControllerState, widthChanged: bool): ControllerState
    requires Inv(s)
  {
    if s.original.None? || s.widthText == "" || s.heightText == "" then s
    else
      var parsedWidth, parsedHeight := Parse(s.widthText), Parse(s.heightText);
      if parsedWidth.None? || parsedHeight.None? then s
      else if parsedWidth.value <= 0 || parsedHeight.value <= 0 then s
      else
        var w, h := parsedWidth.value, parsedHeight.value;
        var (newWidth, newHeight, fields) :=
          if !s.lockAspect then (w, h, s)
          else if widthChanged then
            var dh := DeriveHeight(w, s.ratioWidth, s.ratioHeight);
            (w, dh, s.(heightText := Show(dh)))
          else
            var dw := DeriveWidth(h, s.ratioWidth, s.ratioHeight);
            (dw, h, s.(widthText := Show(dw)));
        var result := Resample(s.original.value, newWidth, newHeight);
        if result.None? then fields else fields.(resized := result, saveEnabled := true)
  }

  /** The user types `text` into the width field (`textEdited` runs `resize_image(True)`). */
  function EditWidth(s: ControllerState, text: string): ControllerState
    requires Inv(s)
  {
    Resize(s.(widthText := text), true)
  }

  /** The user types `text` into the height field (`textEdited` runs `resize_image(False)`). */
  function EditHeight(s: ControllerState, text: string): ControllerState
    requires Inv(s)
  {
    Resize(s.(heightText := text), false)
  }

  /** A click on the lock checkbox flips it, then `toggle_aspect_ratio` runs. */
  function Toggle(s: ControllerState): ControllerState
    requires Inv(s)
  {
    var flipped := s.(lockAspect := !s.lockAspect);
    if flipped.lockAspect && flipped.original.Some? then
      Resize(flipped.(ratioWidth := s.original.value.width, ratioHeight := s.original.value.height), true)
    else
      flipped
  }

  /** `save_image` with the path and filter chosen in the save dialog (an empty path: cancelled). */
  function Save(s: ControllerState, path: string, filter: string): SaveResult {
    if s.resized.None? || path == "" then SaveResult(s, None)
    else
      var target := NormalizeSavePath(path, filter);
      var img := PrepareForSave(s.resized.value, target);
      SaveResult(s.(resized := Some(img)), Some(SaveRequest(target, img)))
  }

  // ---------------------------------------------------------------------------
  // The invariant is established and kept

  lemma InitialInv()
    ensures Inv(Initial) && Initial.lockAspect && Initial.original.None?
  {
  }

  lemma OpenKeepsInv(s: ControllerState, o: OpenOutcome)
    requires Inv(s) && WellFormedOutcome(o)
    ensures Inv(Open(s, o))
  {
  }

  lemma ResizeKeepsInv(s: ControllerState, widthChanged: bool)
    requires Inv(s)
    ensures Inv(Resize(s, widthChanged))
  {
  }

  lemma ToggleKeepsInv(s: ControllerState)
    requires Inv(s)
    ensures Inv(Toggle(s))
  {
  }

  lemma SaveKeepsInv(s: ControllerState, path: string, filter: string)
    requires Inv(s)
    ensures Inv(Save(s, path, filter).next)
  {
  }

  // ---------------------------------------------------------------------------
  // open_image

  /** A cancelled dialog or a decode failure changes nothing. */
  lemma OpenWithoutImageChangesNothing(s: ControllerState, o: OpenOutcome)
    requires !o.Opened?
    ensures Open(s, o) == s
  {
  }

  /**
   A successful open installs the image, clears the resized image, anchors the ratio
   to the new image, shows its size in both fields and disables save; nothing of the
   previous session but the lock checkbox survives.
   */
  lemma OpenStartsNewSession(s1: ControllerState, s2: ControllerState, img: ImageDesc)
    ensures var t := Open(s1, Opened(img));
      && t.original == Some(img) && t.resized.None?
      && t.ratioWidth == img.width && t.ratioHeight == img.height
      && Parse(t.widthText) == Some(img.width) && Parse(t.heightText) == Some(img.height)
      && !t.saveEnabled && t.lockAspect == s1.lockAspect
    ensures Open(s2, Opened(img)) == Open(s1, Opened(img)).(lockAspect := s2.lockAspect)
  {
    ParseShow(img.width);
    ParseShow(img.height);
  }

  // ---------------------------------------------------------------------------
  // resize_image

  /** Without a loaded image, or with either field empty, a resize does nothing. */
  lemma ResizeNeedsImageAndBothFields(s: ControllerState, widthChanged: bool)
    requires Inv(s)
    requires s.original.None? || s.widthText == "" || s.heightText == ""
    ensures Resize(s, widthChanged) == s
  {
  }

  /**
   A field that is not a number, or a value that is not positive, is only reported:
   the resized image, both fields and the save button are unchanged.
   */
  lemma ResizeRejectsInvalid(s: ControllerState, widthChanged: bool)
    requires Inv(s)
    requires Parse(s.widthText).None? || Parse(s.heightText).None?
             || Parse(s.widthText).value <= 0 || Parse(s.heightText).value <= 0
    ensures Resize(s, widthChanged) == s
  {
  }

  /** Unlocked, a valid edit resizes to exactly the two values typed. */
  lemma ResizeUnlocked(s: ControllerState, widthChanged: bool, w: int, h: int)
    requires Inv(s) && s.original.Some? && !s.lockAspect
    requires Parse(s.widthText) == Some(w) && Parse(s.heightText) == Some(h) && w > 0 && h > 0
    ensures Resize(s, widthChanged)
         == s.(resized := Some(ImageDesc(w, h, s.original.value.mode)), saveEnabled := true)
  {
  }

  /**
   Locked, a width edit keeps the typed width and writes the height derived from the
   original's ratio into the height field. That height is not checked again: when it
   is 0 the library refuses the resize and only the height field has changed.
   */
  lemma ResizeLockedWidth(s: ControllerState, w: int, h: int)
    requires Inv(s) && s.original.Some? && s.lockAspect
    requires Parse(s.widthText) == Some(w) && Parse(s.heightText) == Some(h) && w > 0 && h > 0
    ensures var img := s.original.value;
      var dh := DeriveHeight(w, img.width, img.height);
      var t := Resize(s, true);
      && Parse(t.heightText) == Some(dh) && t.widthText == s.widthText
      && (dh > 0 ==> t == s.(heightText := Show(dh), resized := Some(ImageDesc(w, dh, img.mode)), saveEnabled := true))
      && (dh == 0 <==> w * img.height < img.width)
      && (dh == 0 ==> t == s.(heightText := "0"))
  {
    var img := s.original.value;
    var dh := DeriveHeight(w, img.width, img.height);
    ParseShow(dh);
    DerivedZero(w, img.width, img.height);
  }

  /** Locked, a height edit keeps the typed height and derives the width the same way. */
  lemma ResizeLockedHeight(s: ControllerState, w: int, h: int)
    requires Inv(s) && s.original.Some? && s.lockAspect
    requires Parse(s.widthText) == Some(w) && Parse(s.heightText) == Some(h) && w > 0 && h > 0
    ensures var img := s.original.value;
      var dw := DeriveWidth(h, img.width, img.height);
      var t := Resize(s, false);
      && Parse(t.widthText) == Some(dw) && t.heightText == s.heightText
      && (dw > 0 ==> t == s.(widthText := Show(dw), resized := Some(ImageDesc(dw, h, img.mode)), saveEnabled := true))
      && (dw == 0 <==> h * img.width < img.height)
      && (dw == 0 ==> t == s.(widthText := "0"))
  {
    var img := s.original.value;
    var dw := DeriveWidth(h, img.width, img.height);
    ParseShow(dw);
    DerivedZero(h, img.width, img.height);
  }

  /** A resize touches neither the original, the ratio anchor nor the lock. */
  lemma ResizeKeepsSession(s: ControllerState, widthChanged: bool)
    requires Inv(s)
    ensures var t := Resize(s, widthChanged);
      t.original == s.original && t.ratioWidth == s.ratioWidth && t.ratioHeight == s.ratioHeight
      && t.lockAspect == s.lockAspect
  {
  }

  /**
   Right after an open, a resize (locked or not, from either field) reproduces the
   original's size: the fields read back as the size and the ratio maps it to itself.
   */
  lemma {:induction false} ResizeAfterOpenKeepsSize(s: ControllerState, img: ImageDesc, widthChanged: bool)
    requires Inv(s) && Decodable(img)
    ensures var t := Open(s, Opened(img));
      Inv(t) && Resize(t, widthChanged) == t.(resized := Some(img), saveEnabled := true)
  {
    var t := Open(s, Opened(img));
    OpenKeepsInv(s, Opened(img));
    ParseShow(img.width);
    ParseShow(img.height);
    DeriveAtAnchor(img.width, img.height);
  }

  // ---------------------------------------------------------------------------
  // Typing into a field

  /** Clearing a field never resizes, even when the other field holds a valid number. */
  lemma EditToEmptyChangesOnlyField(s: ControllerState)
    requires Inv(s)
    ensures EditWidth(s, "") == s.(widthText := "")
    ensures EditHeight(s, "") == s.(heightText := "")
  {
  }

  /** Unlocked, typing a positive width resizes to that width and the height shown. */
  lemma EditWidthUnlocked(s: ControllerState, w: int, h: int)
    requires Inv(s) && s.original.Some? && !s.lockAspect
    requires w > 0 && Parse(s.heightText) == Some(h) && h > 0
    ensures EditWidth(s, Show(w)).resized == Some(ImageDesc(w, h, s.original.value.mode))
  {
    ParseShow(w);
  }

  // ---------------------------------------------------------------------------
  // toggle_aspect_ratio

  /** Unchecking the lock, or checking it with no image loaded, only flips the checkbox. */
  lemma ToggleWithoutEffect(s: ControllerState)
    requires Inv(s) && (s.lockAspect || s.original.None?)
    ensures Toggle(s) == s.(lockAspect := !s.lockAspect)
  {
  }

  /**
   Checking the lock with an image loaded re-anchors the ratio to the original's
   size (never to the resized image's) and runs the width-edited resize.
   */
  lemma ToggleOnAnchorsToOriginal(s: ControllerState)
    requires Inv(s) && !s.lockAspect && s.original.Some?
    ensures var t := Toggle(s);
      && t.lockAspect
      && t.ratioWidth == s.original.value.width && t.ratioHeight == s.original.value.height
      && t == Resize(s.(lockAspect := true), true)
  {
  }

  /** Two sessions that differ only in their resized image toggle to the same ratio and resize. */
  lemma ToggleIgnoresResized(s1: ControllerState, s2: ControllerState)
    requires Inv(s1) && Inv(s2) && !s1.lockAspect
    requires s2 == s1.(resized := s2.resized, saveEnabled := s2.saveEnabled)
    requires s1.original.Some?
    ensures Toggle(s1).ratioWidth == Toggle(s2).ratioWidth
    ensures Toggle(s1).ratioHeight == Toggle(s2).ratioHeight
    ensures Toggle(s1).widthText == Toggle(s2).widthText
    ensures Toggle(s1).heightText == Toggle(s2).heightText
  {
  }

  // ---------------------------------------------------------------------------
  // save_image

  /** Without a resized image, or with the dialog cancelled, saving does nothing. */
  lemma SaveNeedsResizedAndPath(s: ControllerState, path: string, filter: string)
    requires s.resized.None? || path == ""
    ensures Save(s, path, filter) == SaveResult(s, None)
  {
  }

  /**
   Saving writes the stored resized image, converted for a JPEG target, to the
   normalised path; the conversion stays in the controller afterwards, and nothing
   else changes.
   */
  lemma SaveWritesStoredImage(s: ControllerState, path: string, filter: string)
    requires s.resized.Some? && path != ""
    ensures var r := Save(s, path, filter);
      && r.written.Some?
      && r.written.value.path == NormalizeSavePath(path, filter)
      && HasKnownExtension(r.written.value.path) == (HasKnownExtension(path) || FilterExtension(filter).Some?)
      && r.next.resized == Some(r.written.value.image)
      && r.written.value.image.width == s.resized.value.width
      && r.written.value.image.height == s.resized.value.height
      && r.next == s.(resized := r.next.resized)
      && r.written.value.image == PrepareForSave(s.resized.value, r.written.value.path)
  {
  }

  /** An RGBA or palette image saved to a JPEG target is written, and kept, as RGB. */
  lemma SaveJpegDropsAlpha(s: ControllerState, path: string, filter: string)
    requires s.resized.Some? && path != ""
    requires s.resized.value.mode == "RGBA" || s.resized.value.mode == "P"
    requires IsJpegPath(NormalizeSavePath(path, filter))
    ensures Save(s, path, filter).next.resized == Some(s.resized.value.(mode := "RGB"))
    ensures Save(s, path, filter).written.value.image.mode == "RGB"
  {
  }

  /** A path without a recognised extension saved under a JPEG (and not PNG) filter is such a target. */
  lemma SaveBarePathUnderJpegFilter(s: ControllerState, path: string, filter: string)
    requires s.resized.Some? && path != ""
    requires s.resized.value.mode == "RGBA" || s.resized.value.mode == "P"
    requires !HasKnownExtension(path) && !Contains(filter, "PNG") && Contains(filter, "JPEG")
    ensures Save(s, path, filter).next.resized == Some(s.resized.value.(mode := "RGB"))
    ensures Save(s, path, filter).written.value.image.mode == "RGB"
  {
    JpegTarget(path, filter);
    SaveJpegDropsAlpha(s, path, filter);
  }

  /**
   Every other mode and every target that is not JPEG leave the stored image as it
   is: the save changes no controller state at all.
   */
  lemma SaveOtherwiseKeepsImage(s: ControllerState, path: string, filter: string)
    requires s.resized.Some? && path != ""
    requires !IsJpegPath(NormalizeSavePath(path, filter))
             || (s.resized.value.mode != "RGBA" && s.resized.value.mode != "P")
    ensures Save(s, path, filter).next == s
    ensures Save(s, path, filter).written.value.image == s.resized.value
  {
  }

  /** A second save with the same choices changes the controller no further. */
  lemma {:induction false} SaveTwiceSameAsOnce(s: ControllerState, path: string, filter: string)
    ensures var once := Save(s, path, filter);
      Save(once.next, path, filter).next == once.next
      && (once.written.Some? ==> Save(once.next, path, filter).written == once.written)
  {
  }

  // ---------------------------------------------------------------------------
  // The controller object

  class ResizerController {
    var original: Option<ImageDesc>
    var resized: Option<ImageDesc>
    var ratioWidth: int
    var ratioHeight: int
    var lockAspect: bool
    var widthText: string
    var heightText: string
    var saveEnabled: bool

    function Current(): ControllerState
      reads this
    {
      ControllerState(original, resized, ratioWidth, ratioHeight, lockAspect, widthText, heightText, saveEnabled)
    }

    ghost predicate Valid()
      reads this
    {
      Inv(Current())
    }

    constructor ()
      ensures Valid() && Current() == Initial
    {
      original, resized := None, None;
      ratioWidth, ratioHeight := 1, 1;
      lockAspect := true;
      widthText, heightText := "", "";
      saveEnabled := false;
    }

    method OpenImage(outcome: OpenOutcome)
      requires Valid() && WellFormedOutcome(outcome)
      modifies this
      ensures Valid() && Current() == Open(old(Current()), outcome)
    {
      OpenKeepsInv(Current(), outcome);
      if !outcome.Opened? {
        return;
      }
      var img := outcome.image;
      original := Some(img);
      resized := None;
      ratioWidth, ratioHeight := img.width, img.height;
      widthText := Show(img.width);
      heightText := Show(img.height);
      saveEnabled := false;
    }

    method ResizeImage(widthChanged: bool)
      requires Valid()
      modifies this
      ensures Valid() && Current() == Resize(old(Current()), widthChanged)
    {
      ResizeKeepsInv(Current(), widthChanged);
      if original.None? {
        return;
      }
      if widthText == "" || heightText == "" {
        return;
      }
      var parsedWidth, parsedHeight := Parse(widthText), Parse(heightText);
      if parsedWidth.None? || parsedHeight.None? {
        return;
      }
      var newWidth, newHeight := parsedWidth.value, parsedHeight.value;
      if newWidth <= 0 || newHeight <= 0 {
        return;
      }
      if lockAspect {
        if widthChanged {
          newHeight := DeriveHeight(newWidth, ratioWidth, ratioHeight);
          heightText := Show(newHeight);
        } else {
          newWidth := DeriveWidth(newHeight, ratioWidth, ratioHeight);
          widthText := Show(newWidth);
        }
      }
      var result := Resample(original.value, newWidth, newHeight);
      if result.None? {
        return;
      }
      resized := result;
      saveEnabled := true;
    }

    method EditWidthText(text: string)
      requires Valid()
      modifies this
      ensures Valid() && Current() == EditWidth(old(Current()), text)
    {
      widthText := text;
      ResizeImage(true);
    }

    method EditHeightText(text: string)
      requires Valid()
      modifies this
      ensures Valid() && Current() == EditHeight(old(Current()), text)
    {
      heightText := text;
      ResizeImage(false);
    }

    method ToggleAspectRatio()
      requires Valid()
      modifies this
      ensures Valid() && Current() == Toggle(old(Current()))
    {
      lockAspect := !lockAspect;
      if lockAspect && original.Some? {
        ratioWidth, ratioHeight := original.value.width, original.value.height;
        ResizeImage(true);
      }
    }

    method SaveImage(path: string, filter: string) returns (written: Option<SaveRequest>)
      requires Valid()
      modifies this
      ensures Valid()
      ensures Current() == Save(old(Current()), path, filter).next
      ensures written == Save(old(Current()), path, filter).written
    {
      SaveKeepsInv(Current(), path, filter);
      if resized.None? || path == "" {
        return None;
      }
      var target := NormalizeSavePath(path, filter);
      if IsJpegPath(target) && (resized.value.mode == "RGBA" || resized.value.mode == "P") {
        resized := Some(Convert(resized.value, "RGB"));
      }
      written := Some(SaveRequest(target, resized.value));
    }
  }
}
