# Image resizer controller, in Dafny

The program is a one-window image resizer. The user opens an image, types a target
width or height (optionally with the aspect ratio locked), previews the result and
saves it as PNG, JPEG or BMP. Behind the widgets sits a small controller: the loaded
original, the current resized image, the aspect-ratio anchor, the lock checkbox, the
two dimension text fields and the enabled state of the save button, changed by four
event handlers in `ImageResizerApp` (app.py). This project models that controller and
proves what the handlers promise.

Modules:

- `Wrappers`: the `Option` type.
- `Decimal`: `str(n)` and `int(text)` between the text fields and integers, as a
  sign-plus-digits grammar, with the round trip `Parse(Show(n)) == Some(n)`.
- `Imaging`: an image as `(width, height, mode)`, plus the library's resize and
  colour-mode conversion.
- `Aspect`: the paired dimension under the lock. The ratio is kept exactly as the
  original's `(width, height)`. The derived value is the truncated quotient, and the
  lemmas state its floor bounds, its behaviour at the anchor, when it is 0, its
  monotonicity and the round trip back.
- `SavePath`: completing a save path with the filter's extension, and the JPEG
  colour-mode rule.
- `Controller`: `ControllerState`, its invariant `Inv`, and one transition function
  per handler (`Open`, `Resize`, `EditWidth`, `EditHeight`, `Toggle`, `Save`). The
  lemmas state the handlers' properties. Class `ResizerController` holds the same
  state in fields. Each of its methods implements a handler with the source's early
  returns, keeps `Valid()`, and ends in the state its transition function gives.

Three behaviours of the code are easy to miss:

- A failed open keeps the previous session. Nothing is discarded.
- A rejected dimension edit only posts a status message. No error value is returned.
- With the lock on, the derived dimension is not checked for positivity. It is
  written into the other field. When it is 0, the library's resize refuses the size
  (ValueError, caught at app.py:227), so only that field changes.

The model takes two facts from the image library. Its resize refuses a size below 1
in either dimension and otherwise keeps the mode (allocation failures for huge sizes
are not modelled; see `Imaging.Resample` below). It also refuses to open an image
whose size is not positive (the `Decodable` precondition of `OpenImage`).

## Model

| member | source | states |
|---|---|---|
| `Decimal.Show` | app.py:181-182 | `str(n)` is non-empty and starts with a minus sign exactly when `n` is negative |
| `Decimal.Parse` | app.py:201-202 | `int(text)` succeeds exactly on one or more digits, optionally after a single sign; the value is the digits' decimal value, negated after a minus |
| `Decimal.ParseShow` | app.py:181-202 | every number written into a field by `str` reads back as itself through `int` |
| `Imaging.Resample` | app.py:219-221 | the resize succeeds exactly when both dimensions are positive, and the result has exactly the requested size and the source's mode |
| `Imaging.Convert` | app.py:269 | conversion keeps the size and sets the mode |
| `Aspect.DeriveHeight` | app.py:209 | the derived height is the largest h >= 0 with h * w0 <= W * h0 (truncation of W / (w0/h0)) |
| `Aspect.DeriveWidth` | app.py:214 | the derived width is the largest w >= 0 with w * h0 <= H * w0 (truncation of H * (w0/h0)) |
| `Aspect.DeriveAtAnchor` | app.py:207-217 | editing a dimension to the original's value derives exactly the original's other dimension |
| `Aspect.DerivedZero` | app.py:204-217 | the derived dimension is 0 exactly when the exact paired value is below 1, so the positivity check on the edited value does not cover it |
| `Aspect.DeriveHeightMonotone` | app.py:209 | a larger edited width never derives a smaller height |
| `Aspect.DeriveBack` | app.py:207-217 | width to height and back never exceeds the edited width, and is exact when the first quotient has no remainder |
| `SavePath.Lower` | app.py:258 | lower-casing keeps the length and lower-cases each character |
| `SavePath.FilterExtension` | app.py:259-264 | the first of PNG, JPEG, BMP named in the filter gives .png, .jpg or .bmp; no extension exactly when the filter names none of them |
| `SavePath.AppendedExtensionIsKnown` | app.py:258-264 | a path with a filter extension appended ends in that extension and is recognised |
| `SavePath.NormalizeSavePath` | app.py:258-264 | the path is only ever extended; a recognised extension (any case) is kept; the result is recognised exactly when the path was or the filter names a format |
| `SavePath.NormalizeAppendsFilterExtension` | app.py:258-264 | a path without a recognised extension gets exactly the filter's extension |
| `SavePath.NormalizeSavePathIdempotent` | app.py:258-264 | normalising twice is the same as once |
| `SavePath.JpegTarget` | app.py:258-267 | a bare path under a JPEG (not PNG) filter becomes a JPEG target; a path ending in .png or .bmp never does |
| `SavePath.PrepareForSave` | app.py:266-269 | for a JPEG target the image has neither alpha nor palette; otherwise it is untouched; size is always kept, and any change is to RGB |
| `SavePath.HasKnownExtension` | app.py:258 | the lower-cased path ends in .png, .jpg, .jpeg or .bmp |
| `SavePath.IsJpegPath` | app.py:267 | the lower-cased path ends in .jpg or .jpeg |
| `Controller.Open` | app.py:175-188 | the open handler as a transition: cancel and failure keep the state; a decoded image starts a new session |
| `Controller.Resize` | app.py:190-230 | the resize handler as a transition, with its early returns, the lock derivation and the library's size check |
| `Controller.EditWidth` | app.py:165 | a width edit stores the text, then runs the width-edited resize |
| `Controller.EditHeight` | app.py:166 | a height edit stores the text, then runs the height-edited resize |
| `Controller.Toggle` | app.py:276-279 | a checkbox click flips the lock, then re-anchors and resizes when it became checked with an image loaded |
| `Controller.Save` | app.py:246-274 | the save handler as a transition: the guards, path normalisation and the persisted JPEG conversion |
| `Controller.InitialInv` | app.py:121 | the window starts with the lock checked, no image and the invariant holding |
| `Controller.OpenKeepsInv` | app.py:175-185 | opening keeps the controller invariant |
| `Controller.ResizeKeepsInv` | app.py:190-228 | resizing keeps the controller invariant (anchor = original size, save enabled iff a resized image exists) |
| `Controller.ToggleKeepsInv` | app.py:276-279 | toggling the lock keeps the controller invariant |
| `Controller.SaveKeepsInv` | app.py:255-269 | saving keeps the controller invariant |
| `Controller.OpenWithoutImageChangesNothing` | app.py:175-188 | a cancelled dialog or a failed decode changes nothing |
| `Controller.OpenStartsNewSession` | app.py:177-185 | a successful open installs the image, clears the resized image, anchors the ratio to it, shows its size in both fields, disables save, and keeps nothing of the previous session but the lock |
| `Controller.ResizeNeedsImageAndBothFields` | app.py:191-199 | no image loaded or either field empty: nothing changes |
| `Controller.ResizeRejectsInvalid` | app.py:201-205 | a non-numeric or non-positive field: nothing changes |
| `Controller.ResizeUnlocked` | app.py:219-224 | unlocked, a valid edit stores an image of exactly the typed size and enables save, and nothing else changes |
| `Controller.ResizeLockedWidth` | app.py:207-212 | locked width edit: the width is kept, the derived height is written into the height field, and the image has that size; a derived 0 changes only the height field |
| `Controller.ResizeLockedHeight` | app.py:213-217 | locked height edit: the height is kept, the derived width is written into the width field, and the image has that size; a derived 0 changes only the width field |
| `Controller.ResizeKeepsSession` | app.py:190-228 | resizing never touches the original, the ratio anchor or the lock |
| `Controller.ResizeAfterOpenKeepsSize` | app.py:177-221 | right after an open, any resize reproduces the original's size |
| `Controller.EditToEmptyChangesOnlyField` | app.py:198-199 | clearing a field changes only that field, even when the other holds a valid number |
| `Controller.EditWidthUnlocked` | app.py:165 | unlocked, typing a positive width resizes to that width and the height shown |
| `Controller.ToggleWithoutEffect` | app.py:276-277 | unchecking the lock, or checking it with no image, only flips the checkbox |
| `Controller.ToggleOnAnchorsToOriginal` | app.py:276-279 | checking the lock with an image re-anchors the ratio to the original's size and runs the width-edited resize |
| `Controller.ToggleIgnoresResized` | app.py:278 | the re-anchored ratio and fields do not depend on the resized image |
| `Controller.SaveNeedsResizedAndPath` | app.py:246-255 | without a resized image or with a cancelled dialog, saving does nothing |
| `Controller.SaveWritesStoredImage` | app.py:255-271 | saving writes to the normalised path the stored image as the JPEG mode rule prepares it for that path, of the resized size; the stored image becomes the written one and nothing else changes |
| `Controller.SaveJpegDropsAlpha` | app.py:266-269 | an RGBA or palette image saved to a JPEG target (any case of .jpg/.jpeg, given or appended) is written and kept as RGB |
| `Controller.SaveBarePathUnderJpegFilter` | app.py:258-269 | a path without a recognised extension under a JPEG (not PNG) filter is such a JPEG target, so its RGBA or palette image becomes RGB |
| `Controller.SaveOtherwiseKeepsImage` | app.py:266-269 | for any other mode or a non-JPEG target the written image is the stored one and the controller state is unchanged |
| `Controller.SaveTwiceSameAsOnce` | app.py:258-269 | a second save with the same choices writes the same thing and changes nothing further |
| `Controller.ResizerController.constructor` | app.py:30-121 | a new controller has no image, no resized image, ratio 1:1 (app.py:30-32), empty fields, save off (app.py:90) and lock on (app.py:121) |
| `Controller.ResizerController.OpenImage` | app.py:169-188 | the open handler ends in `Open` of the old state and keeps the invariant |
| `Controller.ResizerController.ResizeImage` | app.py:190-230 | the resize handler ends in `Resize` of the old state and keeps the invariant |
| `Controller.ResizerController.EditWidthText` | app.py:165 | a width edit stores the text and runs the width-edited resize |
| `Controller.ResizerController.EditHeightText` | app.py:166 | a height edit stores the text and runs the height-edited resize |
| `Controller.ResizerController.ToggleAspectRatio` | app.py:276-279 | a checkbox click ends in `Toggle` of the old state and keeps the invariant |
| `Controller.ResizerController.SaveImage` | app.py:246-274 | the save handler ends in `Save` of the old state and returns the request handed to the encoder |

## Left out

- Widgets, styling, layout, the gradient background, status-bar and message-box
  texts (app.py:12-167). A field written by the controller never triggers another
  resize: the handlers listen to `textEdited` (app.py:165-166), which `setText` does
  not emit, so the `blockSignals` calls at app.py:210-216 are redundant.
- The file dialogs (app.py:170-173, 250-253). The chosen path, filter and decode
  outcome are inputs to the handlers.
- `display_image` and `resizeEvent` (app.py:232-244, 281-286). They only redraw
  cached images.
- Decoding, LANCZOS resampling of pixels, encoding and writing files. An image is
  only its size and mode. A failure of the final encode (app.py:271-274) changes no
  controller state and is not modelled. Unexpected exceptions from the resize other
  than the size check (app.py:229-230) are not modelled either.
- Opening an image whose size is not positive is not modelled. The library refuses
  such files, and line 179 would otherwise divide by zero.
- `Aspect.DeriveHeight`: idealises the float ratio `w0 / h0` (app.py:179, 209, 214) as
  exact integer arithmetic. Where IEEE rounding lands just below an integer, the
  program can derive one less. For edited values beyond the library's size limit the
  float quotient can differ by more than one, in either direction
  (`int((3*10**17+1) / (7/3))` is 128571428571428560, the exact quotient ends in 571).
  Above about 1.8e308, lines 209 and 214 raise OverflowError (caught at app.py:229)
  before the paired field is written; the model always writes the exact value.
- `Aspect.DeriveWidth`: the same idealisation of the float ratio. It also moves the
  zero boundary of `Aspect.DerivedZero`: `int(49 * (2 / 98))` is 0, so for a 2×98
  original a locked height edit to 49 derives width 0 in the program (only the width
  field changes), while the model derives width 1 and stores a 1×49 image.
- `Aspect.DeriveAtAnchor`: holds of the exact ratio only. With floats,
  `int(100 / (100 / 127))` is 126, so for a 100×127 original the program derives
  height 126 from width 100; likewise `int(333 * (500 / 333))` is 499 for a 500×333
  original edited by height.
- `Controller.ResizeAfterOpenKeepsSize`: holds of the exact ratio only. For a 100×127
  original, unchecking and re-checking the lock right after opening writes height 126
  in the program, not 127.
- `Imaging.Resample`: succeeds for every positive size. A size too large for the
  library to allocate or pass to its C code raises an exception caught at
  app.py:229-230, where the program keeps its state while the model stores the image.
- `Decimal.Parse`: accepts only an optional sign and ASCII digits. Python's `int`
  also accepts surrounding whitespace, underscores between digits and non-ASCII digits.
  Python's `int` also rejects texts of more than 4300 digits (ValueError, caught at
  app.py:227, nothing changes), which the model parses.
- `SavePath.Lower`: folds only ASCII capitals. Python's `lower` also folds other
  Unicode letters.
- The checkbox is modelled as a click that flips the lock before the handler runs.
  That is when `stateChanged` fires.
