# Click-to-erase image editor, modelled in Dafny

This project models the editing core of a background-removal desktop tool:
the `ImageEditor` of `image_editor.py`. The editor holds one image (BGR
pixels), a Lab copy of it, and at most one selection mask. A press on the
label showing the image is mapped to a pixel. A breadth-first flood fill then
grows the 4-connected region of pixels whose Lab colour is within distance 20
of the clicked pixel's colour. That region becomes the selection and is
previewed in red. Delete whitens the selected pixels in place and drops the
selection. Escape drops the selection and leaves the image alone.

Modules:

- `Wrappers` (wrappers.dfy): `Option`, standing for Python's `None` result.
- `Color` (color.dfy): 8-bit channels, BGR and Lab pixels, white and red, and
  the tolerance test. The test compares the exact integer squared distance
  with 20² = 400.
- `Region` (region.dfy): pixel coordinates, 4-adjacency and the four
  neighbours the fill enqueues. It also gives an independent definition of
  the selected region: every pixel that a 4-connected walk of within-tolerance
  pixels reaches from the seed. Its lemmas cover seed inclusion, soundness,
  connectivity, closure and minimality.
- `Click` (click.dfy): mapping a label position to an image pixel, as written
  and corrected (see Findings).
- `Editor` (editor.dfy): the class `ImageEditor`. Its fields are `image`
  (an `array2` changed in place), `lab` (read-only) and `selectedMask`
  (`null` for no selection). Its methods are the fill, the overlay, the mouse
  handler and the key handler. The module also holds the loop invariant of the
  fill, with one lemma per branch of the loop.
- `Scenarios` (scenarios.dfy): whole-session consequences (click then
  Escape, click then Delete, repeated fills) and two concrete images.

## Model

| member | source | states |
|---|---|---|
| Color.DistSq | image_editor.py:104-107 | the squared Lab distance is computed on exact integers and is 0 exactly when the two colours are equal |
| Color.SimilarToItself | image_editor.py:85-110 | a colour is within tolerance of itself, so the seed always passes the distance test |
| Region.Neighbors | image_editor.py:112-113 | the four enqueued coordinates are exactly the 4-adjacent pixels (Manhattan distance 1), so no diagonal neighbour is enqueued |
| Region.SeedInRegion | image_editor.py:85-110 | an in-bounds seed belongs to its own region |
| Region.RegionSimilar | image_editor.py:99-110 | every region pixel is inside the image and within tolerance of the seed colour |
| Region.RegionStep | image_editor.py:109-113 | an accepted 4-neighbour of a region pixel is in the region |
| Region.RegionConnected | image_editor.py:93-113 | every region pixel is joined to the seed by a 4-connected walk whose pixels all lie in the region |
| Region.RegionLeastClosed | image_editor.py:93-113 | the region lies inside every set that holds the seed and is closed under accepted 4-neighbours, so nothing the fill cannot reach is selected |
| Region.ReachAlongRow | image_editor.py:109-113 | a straight horizontal run of accepted pixels from a region pixel stays in the region |
| Region.ReachAlongColumn | image_editor.py:109-113 | a straight vertical run of accepted pixels from a region pixel stays in the region |
| Region.UniformImageFullySelected | image_editor.py:93-113 | when every pixel of a rectangular image is within tolerance of the seed, the region is exactly the whole image |
| Click.MapClickAsWritten | image_editor.py:40-59 | the mapping as written: no pixmap gives no pixel; otherwise each coordinate is scaled by image/label size and truncated toward zero; only results at or beyond the image width or height are rejected |
| Click.ScaledBelowImage | image_editor.py:50-56 | for a non-negative label coordinate, the scaled value is its floor, and it is below the image size exactly when the coordinate is below the label size |
| Click.MapClick | image_editor.py:40-59 | a click is accepted exactly when it lies inside a label that shows a non-empty image; the pixel is then inside the image and is the one whose scaled cell contains the click; it agrees with the as-written mapping wherever it accepts |
| Click.NegativeClickAccepted | image_editor.py:53-57 | the as-written mapping accepts label position (-1, 0) as pixel (-1, 0); the corrected mapping rejects it |
| Editor.ImageEditor.constructor | image_editor.py:8-14 | a new editor holds the loaded image and its Lab copy of the same dimensions, with no selection |
| Editor.ImageEditor.FloodFillLab | image_editor.py:80-116 | the returned mask has the image's dimensions and holds 255 exactly at the pixels of the seed's region and 0 everywhere else; the seed is marked; every marked pixel is within tolerance of the seed colour |
| Editor.SearchStart | image_editor.py:88-91 | the initial queue [seed] with nothing visited satisfies the fill's invariant |
| Editor.SkipVisited | image_editor.py:94-96 | popping an already visited coordinate keeps the invariant |
| Editor.SkipRejected | image_editor.py:97-109 | visiting a coordinate outside the image or out of tolerance, without marking it, keeps the invariant |
| Editor.AcceptNext | image_editor.py:109-113 | marking an accepted pixel and enqueuing its four neighbours keeps the invariant |
| Editor.SearchDone | image_editor.py:93 | once the queue is empty, the marked pixels are exactly the region |
| Editor.ImageEditor.OverlayMask | image_editor.py:118-122 | the preview is a fresh copy of the image, red (0,0,255) exactly where the mask is 255 and the original pixel elsewhere; the image is not modified |
| Editor.ImageEditor.MousePress | image_editor.py:61-78 | a click that maps to no pixel leaves the selection unchanged; otherwise the selection becomes the region mask of the clicked pixel, replacing the old one, and its red preview is returned |
| Editor.ImageEditor.KeyPress | image_editor.py:124-143 | Delete with a selection makes every selected pixel white, leaves every other pixel unchanged and clears the selection; Delete with no selection changes nothing; Escape clears the selection and leaves the image unchanged; other keys change nothing |
| Scenarios.FillTwiceSameMask | image_editor.py:80-116 | two fills from the same pixel with no edit in between give the same mask |
| Scenarios.SelectThenEscape | image_editor.py:61-78 | a click followed by Escape leaves every image pixel as it was before the click, with nothing selected |
| Scenarios.SelectThenDelete | image_editor.py:124-136 | a click on a pixel followed by Delete whitens exactly the region of that pixel and leaves every other pixel unchanged |
| Scenarios.UniformImageErased | image_editor.py:61-136 | on a 4-by-4 image of one colour, a click on pixel (1, 1) and Delete turn all sixteen pixels white |
| Scenarios.TwinBlocksSeparate | image_editor.py:93-113 | with two identical red 2-by-2 blocks separated by a blue column, seeding in the left block selects exactly the left block |

## Left out

- main.py is not part of this model. It is Qt window wiring, file dialogs and a thread that runs the background-removal script per image; its progress percentage is float arithmetic.
- remove_background.py is not part of this model. It is a command-line wrapper around an external background-removal library and file I/O. It writes `Remove_background/<stem>.png`, while main.py:107-109 looks for `output_images/<name>`; that mismatch is in the glue, not in the editor.
- Loading the image and converting it to Lab (image_editor.py:12-13) are foreign library calls. The constructor takes the image and its Lab copy as parameters and requires equal dimensions.
- `display_image`, the Qt focus and mouse-tracking setup, `enter_edit_mode`, the console messages and `processEvents` (image_editor.py:15-38, 145-149) are presentation only. The one redraw payload modelled is the red preview that `MousePress` returns; the plain redraws after Delete and Escape are not modelled.
- Color.Similar: the floating-point `np.linalg.norm(d) < 20` is replaced by the exact test `dL² + da² + db² < 400`. The two agree on integer differences.
- Click.MapClick: the float scale factors `img / lbl` are idealised as exact rationals, followed by truncation toward zero. Float rounding near an integer boundary is not modelled.
- Click.MapClick: it requires a positive label size when the label shows an image. The source would raise a division-by-zero error on a zero-size label, which cannot receive a press anyway.
- Editor.ImageEditor.FloodFillLab: it requires the seed to be a pixel of the image. The source's only caller passes the mapping's result, and with the corrected mapping that is always a pixel. With the as-written mapping, a negative seed would be read through numpy's negative indexing (see Findings).
- Editor.ImageEditor.FloodFillLab: "each coordinate is processed at most once" is not stated as a postcondition. It is what the loop's termination measure uses: the measure is the unvisited part of the image plus a one-pixel border.
- Editor.ImageEditor.MousePress: the `mask is None` branch (image_editor.py:77-78) is dead code, because the fill always returns a mask. A description of the tool says an empty mask leaves the editor without a selection. The code installs whatever the fill returns, and the model follows the code. For an in-bounds seed the mask is never empty, because the seed is always marked.
- The mask is an `array2<int>` holding 0 and 255. numpy's uint8 type is not modelled separately, because only those two values occur.

## Findings

| source | as written | input that shows it | evidently intended | confidence | as-written member | corrected member |
|---|---|---|---|---|---|---|
| image_editor.py:56 | only `mapped_x >= img_w or mapped_y >= img_h` is rejected; a negative scaled coordinate passes | a press at label position (-1, 0) on a 10-pixel-wide label that shows a 10-pixel-wide image maps to (-1, 0), which is not a pixel, and is accepted; the fill then finds its seed out of bounds and returns an all-zero mask, which replaces the current selection | a press outside the label is rejected, so every accepted press lands on a pixel of the image and a failed press leaves the selection unchanged | low; not executed; Qt normally reports presses on the label with non-negative positions | Click.NegativeClickAccepted | Click.MapClick |
