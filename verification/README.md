# Sprite viewer core, modelled in Dafny

The sprite viewer is a browser page. The user picks a section, and for the
section "Clothing" also a subsection. The page then shows the sprite files
that the manifest (`sprites.json`) lists for that choice as thumbnails. It
loads the chosen sprite onto a canvas and paints a hue/saturation/value tint
over the sprite's opaque pixels. This project models the sequential core of
`script.js` and proves properties of that model:

- `color.dfy`, module `Color`: `hsvToHsl`, the conversion from the sliders'
  HSV values to the `hsl(...)` fill colour. It uses exact `real` arithmetic.
  JavaScript division of finite numbers is modelled explicitly: `0/0` is NaN,
  and `x/0` with `x != 0` is an infinity. The `isNaN` guard then becomes the
  0/0 case. The module also holds the textbook conversion and its inverse
  (see Findings).
- `sprites.dfy`, module `Sprites`: the manifest
  (`map<string, Entry>`, where an `Entry` is a list of files or, for
  "Clothing", a map from subsections to lists), and the file-list lookup with
  its `|| []` fallback. It also holds the path rule
  `sprites/<section>/[<subsection>/]<file>`. The script writes that rule
  twice, once for thumbnails and once for `loadSprite`. Both copies are the
  same expression, so the model defines it once, as `SpritePath`.
- `viewer.dfy`, module `Viewer`: class `SpriteViewer`. It replaces the DOM
  and the module-level globals with fields:
  - the thumbnail strip (file, `src`, "selected" class);
  - `currentFileName`;
  - the values of the two select controls;
  - the visibility of the subsection control;
  - the two status texts;
  - a log of what was done to the canvas: cleared, or a sprite load
    requested for a given path.

  Its methods are the rebuild (`updateSpriteThumbnails`), the thumbnail
  click handler, the section and subsection change handlers, and `init`. The
  class invariant `Valid()` says that a non-empty strip has exactly one
  selected thumbnail, and that this thumbnail shows the current file.

Behaviour of the script that the model keeps:

- The lookup does not always fall back to an empty list. If the manifest
  has no "Clothing" key, `spritesManifest["Clothing"][...]` throws a
  TypeError before the strip is touched. If a section other than "Clothing"
  holds an object, the strip is emptied and then `forEach` throws. Both
  cases are modelled as `Thrown` results.
- The saturation that `hsvToHsl` returns is not confined to [0,100]; see
  Findings.
- The click handler computes the load path from the section and subsection
  selected at click time, not from the ones the strip was built for. The two
  agree while the strip is in step with the selection (`Synced()`). They
  differ after a rebuild that threw because "Clothing" was missing.
- The visibility of the subsection control is set only by the section
  change handler. Before the first section change it keeps its initial
  value from the page, so the constructor takes it as a parameter.

## Model

| member | source | states |
|---|---|---|
| `Color.Divide` | script.js:27-28 | JavaScript's `/` on finite operands: the result is finite iff the divisor is nonzero (and then quotient × divisor = dividend); it is NaN iff both are 0; otherwise it is an infinity with the dividend's sign |
| `Color.HsvToHsl` | script.js:25-30 | the hue is returned unchanged; the saturation is never NaN; the saturation is finite exactly when the divisor is nonzero or `s·v` is 0 |
| `Color.LightnessBranchOnly` | script.js:22-27 | for s, v in [0,1] the lightness lies in [0,1], so the divisor is always `l` and the `2 - l` branch is never taken |
| `Color.ZeroDivisorOnlyForBlack` | script.js:26-28 | for s, v in [0,1] the divisor is 0 exactly when v = 0; then the quotient is 0/0 (NaN), and the result is hue, saturation 0, lightness 0 |
| `Color.BlackHasNoSaturation` | script.js:26-29 | at v = 0, for any s, the division is 0/0 and the colour is (h, 0, 0) |
| `Color.ScriptLightness` | script.js:25-28 | for s, v in [0,1] the lightness is `(2 - s)·v/2·100` and lies in [0,100] |
| `Color.ScriptSaturation` | script.js:25-28 | for s, v in [0,1] the saturation is finite; it is `200·s/(2 - s)` when v > 0, and always lies in [0,200] |
| `Color.ScriptSaturationPositive` | script.js:25-28 | for s, v in [0,1] with v > 0 the saturation is the finite value `200·s/(2 - s)`, in [0,200] |
| `Color.ScriptSaturationClosedForm` | script.js:25-26 | for s, v in [0,1] with v > 0 the quotient `s·v/l` equals `2s/(2 - s)`, which lies in [0,2] |
| `Color.WorkedExample` | script.js:25-29 | HSV (120, 0.5, 0.8) gives hue 120, saturation 200/3 %, lightness 60 % |
| `Color.ScriptSaturationOutOfRange` | script.js:26-29 | as written, s = v = 1 yields saturation 200 %, where the textbook conversion gives 100 % |
| `Color.StandardHsvToHsl` | script.js:22-30 | the corrected conversion keeps the hue, and puts both saturation and lightness in [0,100] for s, v in [0,1] |
| `Color.SaturationFraction` | script.js:26-27 | the corrected saturation fraction lies in [0,1] |
| `Color.SaturationSpan` | script.js:26-27 | the corrected saturation times min(l, 1 - l) is `s·v/2`, the quantity the inverse conversion needs |
| `Color.StandardRoundTrip` | script.js:22-30 | the corrected conversion is invertible: converting back to HSV gives the original colour whenever v > 0 |
| `Color.StandardSaturationLowBranch` | script.js:25-26 | for v > 0 and `(2 - s)·v ≤ 1` the corrected saturation fraction is `s/(2 - s)`, half the script's quotient `2s/(2 - s)` |
| `Color.ScriptAgainstStandard` | script.js:26-29 | the script and the corrected conversion agree on lightness; whenever `(2 - s)·v ≤ 1` the script's saturation is exactly twice the corrected one |
| `Sprites.FileList` | script.js:52-58 | the lookup throws exactly when "Clothing" is selected and missing, or when another section holds a map. It returns the manifest's list whenever the manifest has one for the selection, and the empty list otherwise |
| `Sprites.SplitPath` | script.js:65-71 | cutting a path at '/' always yields at least one segment |
| `Sprites.SplitJoin` | script.js:65-71 | splitting a '/'-join of slash-free segments gives the segments back |
| `Sprites.SpritePath` | script.js:65-71 | every sprite path starts with `sprites/` |
| `Sprites.SpritePathJoins` | script.js:65-71 | a sprite path is `sprites`, the section, the subsection (for "Clothing" only) and the file, joined by '/' |
| `Sprites.ClothingPathJoins` | script.js:66-71 | the "Clothing" path is `sprites`, `Clothing`, the subsection and the file, joined by '/' |
| `Sprites.SectionPathJoins` | script.js:68-71 | the path under any other section is `sprites`, the section and the file, joined by '/' |
| `Sprites.SpritePathSegments` | script.js:65-71 | for slash-free names, cutting the path at '/' gives exactly those segments back |
| `Sprites.SpritePathDetermines` | script.js:65-71 | for slash-free names, the path determines the section and the file, and also the subsection when the section is "Clothing" |
| `Sprites.PathExamples` | script.js:54-71 | `{"Hats": ["a.png","b.png"]}` lists both files and gives the path `sprites/Hats/a.png`; `{"Clothing": {"Shirts": ["x.png"]}}` gives `sprites/Clothing/Shirts/x.png` |
| `Viewer.SpriteViewer.constructor` | script.js:1-3 | before the manifest arrives there is no thumbnail, the current file is "", nothing has been loaded or cleared, and the handlers are not wired |
| `Viewer.SpriteViewer.ClearCanvas` | script.js:129-131 | appends one "cleared" event to the canvas log and changes nothing else |
| `Viewer.SpriteViewer.LoadSprite` | script.js:103-114 | appends a load request for the file's path under the section and subsection selected now |
| `Viewer.SpriteViewer.UpdateSelectedInfo` | script.js:35-43 | the status shows the section, and shows the subsection only when the section is "Clothing" (otherwise "") |
| `Viewer.SpriteViewer.ShowFiles` | script.js:60-97 | the strip becomes one thumbnail per file, in order, with the file's sprite path as `src`. A non-empty list marks exactly the first thumbnail selected, makes its file current and requests its load; an empty list clears the canvas and leaves the current file alone |
| `Viewer.SpriteViewer.Rebuild` | script.js:48-98 | keeps `Valid()` and refreshes the status. When the lookup succeeds, the strip is one thumbnail per listed file, in order, with the shared sprite path as `src`. A non-empty list marks exactly the first thumbnail selected, makes its file current and requests its load. An empty list clears the canvas and leaves the current file alone. The two thrown errors leave the state as the script leaves it |
| `Viewer.SpriteViewer.DeselectAll` | script.js:80 | every thumbnail loses "selected"; nothing else about the strip changes |
| `Viewer.SpriteViewer.Click` | script.js:75-82 | thumbnail i becomes the only selected one, and the strip is otherwise unchanged. Its file becomes current and its load is requested. While the strip is in step with the selection, the requested path is that thumbnail's `src`. The method preserves `Valid()` and `Synced()` |
| `Viewer.SpriteViewer.ChangeSection` | script.js:167-174 | sets the section. Once wired, it shows the subsection control iff the section is "Clothing" and rebuilds the strip; before wiring nothing else changes |
| `Viewer.SpriteViewer.ChangeSubsection` | script.js:176 | sets the subsection; once wired, rebuilds the strip |
| `Viewer.SpriteViewer.Init` | script.js:166-184 | stores the manifest, wires the handlers and performs the first rebuild, with all the guarantees of `Rebuild` |
| `Viewer.CurrentFileIsListed` | script.js:88-94 | while the strip is non-empty and in step with the selection, the current file is one of the files the manifest lists for that selection |
| `Viewer.HatsExample` | script.js:48-98 | with manifest `{"Hats": ["a.png","b.png"]}` and section "Hats", the strip is a.png (selected) then b.png, a.png is current, and only `sprites/Hats/a.png` has been requested |

## Left out

- Fetching and parsing `sprites.json` (script.js:187-195) is network I/O. The manifest is an input to `Init`. A failed fetch leaves the page inert, which is the state the constructor describes.
- Asynchronous image loading and its `onload`/`onerror` callbacks (script.js:113-123) are left out, and so is the "last completion wins" race between loads. A load is recorded only as the request of its path.
- Canvas drawing in `drawSprite` (script.js:137-161) is left out: `drawImage`, the `source-atop` tint fill, the `complete`/`naturalWidth` guard, and the slider string parsing and readouts. These are rendering APIs and DOM string coercions. `hsvToHsl` takes numeric h, s and v directly.
- IEEE-754 rounding and signed zeros in `hsvToHsl` are not modelled (JavaScript's −0 makes the sign of x/0 depend on both operands); the arithmetic is exact over `real`.
- Event-listener wiring, `console.error`, and the slider `input` handlers (script.js:178-180) are left out; only the state transitions those handlers invoke are modelled.
- `Sprites.FileList`: manifest values other than a list of strings or a map of such lists are not modelled (JSON allows any value). Nor are section names that hit inherited object properties (`"toString"`). When the "Clothing" entry is a plain list and the subsection name is an array property (`"0"`, `"length"`), the model reads it as absent. A subsection name that is an inherited object property (`"constructor"`) yields a function: the script empties the strip and then `forEach` throws without clearing the canvas, whereas the model gives `Listed([])` and clears the canvas.

## Findings

| source | as written | input that shows it | evidently intended | confidence | as-written member | corrected member |
|---|---|---|---|---|---|---|
| script.js:26-29 | `l` is halved before the `l <= 1` test and before the division. The test therefore always passes, and the saturation comes out as `2s/(2 - s)`, up to 200 %. | s = 1, v = 1 gives saturation 200 % (textbook: 100 %). s = 0.5, v = 0.8 gives 66.67 % (textbook: 50 %). | The textbook HSV→HSL conversion, which compares and divides by `(2 - s)·v` before halving. Its saturation stays in [0,100] % and it inverts back to HSV. | high; not executed | `Color.ScriptSaturationOutOfRange` | `Color.StandardRoundTrip` |
