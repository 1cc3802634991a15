# Point & Prompt — a verified model of the point-annotation editor

Point & Prompt is a ComfyUI node for writing multimodal instructions. The
user clicks points on an image. Each click drops a numbered marker on the
image and inserts a matching non-editable tag into a rich-text instruction
field. The field is kept in sync with a plain-text prompt in which every tag
is written as the placeholder `标记点N`. The node saves and reloads this
state with the workflow. On the Python side, the node draws the markers
into the image, appends a removal note to the prompt and computes a cache
key.

This project models that behaviour in Dafny and proves properties of it.

- `maybe.dfy` — `Maybe`: the `Option` type.
- `text.dfy` — `Text`: decimal numerals (`String(n)`, `str(n)`), reading a
  run of digits back (`parseInt`), and whitespace trimming. JavaScript's
  `trim` and Python's `str.strip()` are modelled separately, because their
  notions of whitespace differ.
- `geometry.dfy` — `Geometry`: the letterbox rectangle of
  `_getImageDisplayInfo` inside the 400 × 250 preview container. Also the
  two mappings between container pixels and coordinates relative to the
  image, and the clamp used while dragging. All of it is on `real`.
- `richtext.dfy` — `RichText`: the editable field as a tree of text nodes,
  tags, `BR`s and elements. It includes:
  - the recursive serialiser of `_updatePromptData`, as a method proved
    against a function;
  - the regex parse loop of `_restorePromptContent`;
  - the counter loop of `_updateTagNumbers`;
  - tag removal (delete, clear) and tag insertion (at the caret or at the
    end).
- `editor.dfy` — `Editor`: the node object as a class `PointPromptNode`.
  Its fields are the point list, the selection, the image state, the field
  content, the prompt text and the two hidden widgets that mirror them.
  Each handler is a method whose `ensures` gives the whole new state. It
  also models the data part of `serialize` and `configure`.
- `backend.dfy` — `Backend`: the pure helpers of `__init__.py`. These are:
  - the final prompt of `process`, including its error path when `len()`
    raises;
  - the marker sizes;
  - the layout of a number's digits;
  - the seven-segment tables and segment geometry;
  - the `IS_CHANGED` key.

The main results:

- **Invariants.** After every add, delete and clear, the points stay
  numbered by position (`index == i + 1`) and lie on the image.
- **Exact state changes.** A click adds exactly one point, or nothing.
  Delete removes exactly the selected point and exactly the tags carrying
  its number, then renumbers the remaining tags `1..k` in document order.
- **Round trip.** Restoring a plain text and serialising the result gives
  back the trimmed text, provided no placeholder number has a leading zero.
  The model's numbers are unbounded, so for the program itself this holds
  for numbers below 2^53 (see "## Left out").
  Conversely, restoring the rendering of any content in the form a restore
  produces gives that content back.

Three behaviours of the code are modelled as written:

- A saved prompt that is truthy but not a string makes `configure`'s
  deferred restore throw a `TypeError` before it restores anything.
  `Configure` returns `completed == false` for that case.
- `configure` does not reset the selection. A delete with a selection left
  over from before a load therefore renumbers the points. If the field
  holds a tag, it then fails when reading the missing point's number.
  `DeleteSelectedMarker` returns `completed == false` for that case.
- The image's `onload` clears every marker (`ImageLoaded`), and
  `configure` starts loading the image after it has restored the points.

## Model

| member | source | states |
|---|---|---|
| Text.NatToString | js/point_and_prompt.js:873-876 | the numeral of a marker number is canonical (digits only, no leading zero), and has one character exactly for numbers below 10 |
| Text.ValueOfNatToString | js/point_and_prompt.js:994-1015 | reading back the numeral of `n` gives `n` |
| Text.NatToStringOfValue | js/point_and_prompt.js:994-1015 | a canonical numeral is the numeral of its own value |
| Text.NatToStringInjective | js/point_and_prompt.js:873-876 | two marker numbers with the same label are the same number |
| Text.LeadingDigitPositive | js/point_and_prompt.js:994 | a digit run that does not start with 0 has a positive value |
| Text.LeadLen | js/point_and_prompt.js:847 | the leading run of whitespace is maximal: all whitespace, followed by a non-space or the end |
| Text.TrailLen | js/point_and_prompt.js:847 | the trailing run of whitespace is maximal |
| Text.Trim | js/point_and_prompt.js:847 | the trimmed text is empty exactly when the input is all whitespace; otherwise it neither starts nor ends with whitespace, and it is the input with only whitespace removed at both ends |
| Text.TrimUntouched | __init__.py:103 | a text with no whitespace at either end is its own trim |
| Text.TrimIdempotent | js/point_and_prompt.js:847 | trimming twice is trimming once |
| Geometry.OrOne | js/point_and_prompt.js:488-489 | a natural size of 0 counts as 1; any other size is kept |
| Geometry.WideFit | js/point_and_prompt.js:496-500 | for an image relatively wider than the container, the width-filling rectangle is letterboxed |
| Geometry.TallFit | js/point_and_prompt.js:501-505 | for any other image, the height-filling rectangle is letterboxed |
| Geometry.DisplayInfo | js/point_and_prompt.js:482-514 | the display rectangle lies inside the container and is centred in it; it keeps the image's aspect ratio (0 counting as 1); it has `width == 400` and `x == 0` when the image is relatively wider than the container, and `height == 250` and `y == 0` otherwise |
| Geometry.InDisplayIffUnit | js/point_and_prompt.js:455-463 | a click passes the inclusive bounds test if and only if its normalised coordinates lie in [0,1]² |
| Geometry.PixelOfNormalized | js/point_and_prompt.js:462-463 | mapping a click to normalised coordinates and back to pixels gives the click |
| Geometry.NormalizedOfPixel | js/point_and_prompt.js:533-534 | mapping a point's coordinates to its marker pixel and back gives the point's coordinates |
| Geometry.MarkerOnImage | js/point_and_prompt.js:533-534 | the marker of a point in [0,1]² is drawn inside the display rectangle |
| Geometry.Clamp01 | js/point_and_prompt.js:594-595 | the clamp lies in [0,1], keeps values already there, and sends values below 0 to 0 and above 1 to 1 |
| Geometry.SquareImageExample | js/point_and_prompt.js:482-514 | an 800×800 image is shown at (75, 0, 250, 250), and the container's centre maps to the image's centre |
| RichText.CircledNumber | js/point_and_prompt.js:873-876 | a marker's label is non-empty and starts with a digit |
| RichText.CircledNumberValue | js/point_and_prompt.js:873-876 | a marker's label is the canonical numeral whose value is the marker number |
| RichText.TagsInConcat | js/point_and_prompt.js:756 | the tags of two sibling runs, in document order, are those of the first followed by those of the second |
| RichText.TextsInConcat | js/point_and_prompt.js:785 | the same for text nodes |
| RichText.SameShapeSameCount | js/point_and_prompt.js:794-802 | trees of the same shape hold the same number of tags |
| RichText.ShapeAndTagsDetermine | js/point_and_prompt.js:794-802 | two trees with the same shape and the same tag numbers are equal |
| RichText.SetTagIn | js/point_and_prompt.js:797-798 | renumbering the k-th tag changes exactly that tag's number and nothing of the shape |
| RichText.RenumberTags | js/point_and_prompt.js:794-802 | after the counter loop the tags read 1..k in document order, their count is unchanged, nothing but tag numbers changes, and tags already reading 1..k are left alone |
| RichText.Filter | js/point_and_prompt.js:757-761 | a tag number remains exactly when it was present and is not doomed; clearing leaves none |
| RichText.RemoveTagsIn | js/point_and_prompt.js:756-761 | the document-order walk of the result is the old walk with exactly the doomed tags left out, so every text node, `BR`, element and other tag stays in place; the remaining tag numbers and the texts are in order |
| RichText.DropConcat | js/point_and_prompt.js:756-761 | leaving out the doomed tags works piece by piece along the walk |
| RichText.RemoveMissesNothing | js/point_and_prompt.js:756-761 | a removal that hits no tag leaves the field unchanged |
| RichText.RemoveOnlyTags | js/point_and_prompt.js:782-786 | a delete followed by a clear leaves what a clear alone leaves |
| RichText.RemoveConcat | js/point_and_prompt.js:756-761 | removal works run by run: removing from a concatenation concatenates the removals |
| RichText.RemoveDoomedTag | js/point_and_prompt.js:758-759 | a tag that is doomed disappears |
| RichText.CaretPos | js/point_and_prompt.js:669-682 | the insertion point is a valid position among the top-level children |
| RichText.InsertTagEffect | js/point_and_prompt.js:669-682 | the new tag's number appears among the tag numbers exactly at the caret, no text changes, and removing every tag undoes the insertion |
| RichText.InsertThenDelete | js/point_and_prompt.js:631-684 | deleting the tags of a number the field did not hold undoes inserting a tag with that number |
| RichText.InsertSplit | js/point_and_prompt.js:672-681 | inserting a tag between two runs adds its number between their tags and changes neither text nor the tag-free tree |
| RichText.Serialize | js/point_and_prompt.js:819-844 | the recursive serialiser writes exactly the specified text: texts verbatim, tags as placeholders, `BR` as a newline, `DIV`/`P` ending the current line when it is non-empty and not already ended |
| RichText.EmitExtends | js/point_and_prompt.js:819-844 | serialising only appends to the text already written |
| RichText.EmitNoBlankLine | js/point_and_prompt.js:830-836 | without `BR`s or typed newlines, paragraph boundaries never produce an empty line |
| RichText.MarkerTextLineFree | js/point_and_prompt.js:828 | a placeholder contains no newline |
| RichText.DigitEnd | js/point_and_prompt.js:982 | the greedy `\d+` run is all digits, is followed by a non-digit or the end, and is non-empty after a digit |
| RichText.FindMarker | js/point_and_prompt.js:986 | a match found at or after `lastIndex` is a placeholder followed by a digit |
| RichText.FindMarkerFirst | js/point_and_prompt.js:982-986 | the match is the first placeholder at or after `lastIndex`; no match means there is none |
| RichText.RestoreAdvance | js/point_and_prompt.js:986-1019 | one round of the loop appends the text before the match (when non-empty) and the match's tag, and resumes right after the digits |
| RichText.RestoreTail | js/point_and_prompt.js:1022-1025 | after the last match, the remaining text (when non-empty) is the last piece |
| RichText.RestorePieces | js/point_and_prompt.js:976-1025 | the parse loop produces exactly the specified pieces |
| RichText.EmitFlat | js/point_and_prompt.js:819-828 | on content of text pieces and tags, the serialiser writes the rendered text |
| RichText.MarkerRoundTrip | js/point_and_prompt.js:994-1015 | a placeholder whose number has no leading zero is rewritten verbatim by its tag |
| RichText.RenderRestoreFrom | js/point_and_prompt.js:986-1025 | rendering the restored pieces gives back the restored text |
| RichText.RenderJoin | js/point_and_prompt.js:988-1018 | the text before a match, the match's tag and pieces that render the rest together render everything from `lastIndex` on |
| RichText.SerializeRestored | js/point_and_prompt.js:976-1025 | serialising restored content gives the trimmed input back |
| RichText.MarkerTextAt | js/point_and_prompt.js:1015 | a tag's placeholder followed by a non-digit is read back as that tag's number |
| RichText.TagStep | js/point_and_prompt.js:994-1018 | such a placeholder is read back as one tag, and reading resumes right behind it |
| RichText.TextStep | js/point_and_prompt.js:988-991 | a non-empty placeholder-free text up to the next placeholder or the end is read back as one text piece |
| RichText.RestoreRenderFrom | js/point_and_prompt.js:986-1025 | restoring the rendering of content in normal form gives the content back |
| RichText.RestoreOfRender | js/point_and_prompt.js:976-1025 | restore is a left inverse of rendering on content in normal form |
| RichText.RestoreNormalFrom | js/point_and_prompt.js:988-1025 | restore never emits an empty text piece, a text piece holding a placeholder, two adjacent text pieces, or a text piece after a tag that starts with a digit |
| RichText.RestoreNormal | js/point_and_prompt.js:976-1025 | the output of restore is always in normal form |
| RichText.NormalStep | js/point_and_prompt.js:988-1018 | one round of the loop keeps the pieces in normal form |
| Editor.RenumberedDense | js/point_and_prompt.js:751-753 | renumbering keeps the length and coordinates, numbers by position, keeps points on the image, and leaves dense lists alone |
| Editor.SplicedRemovesOne | js/point_and_prompt.js:748 | `splice(idx, 1)` removes exactly the element at `idx` and keeps the others in order |
| Editor.SplicedOnImage | js/point_and_prompt.js:748 | splicing keeps every point on the image |
| Editor.AppendPoint | js/point_and_prompt.js:465-470 | appending the point numbered after the last keeps numbering dense, and appending one on the image keeps all on the image |
| Editor.DraggedStaysOnImage | js/point_and_prompt.js:589-595 | a dragged point keeps its number and stays on the image, and so does its marker |
| Editor.ReplacePoint | js/point_and_prompt.js:598-599 | replacing a point by one with the same number on the image keeps both invariants |
| Editor.ClickedOnMarker | js/point_and_prompt.js:424-431 | the parent walk reports a hit exactly when a marker lies on the path below the preview container |
| Editor.MarkersDrawn | js/point_and_prompt.js:531-542 | one marker per point; markers of points on the image lie on the image; with dense numbering the marker at position i reads i + 1 |
| Editor.RestoredPoints | js/point_and_prompt.js:916-928 | configure takes over the saved points only when they are a non-empty array, and takes them over verbatim |
| Editor.RestoredPrompt | js/point_and_prompt.js:917-940 | configure takes over the saved text verbatim when it is a non-blank string; when it is missing, blank or falsy the result is `""` |
| Editor.SaveLoadRoundTrip | js/point_and_prompt.js:882-940 | saved data never makes the load throw, and saving and loading keeps the points and any prompt text the field produced |
| Editor.ReloadedPromptStable | js/point_and_prompt.js:931-936 | after a load, the rebuilt field serialises to the saved prompt again, given no padded placeholder numbers |
| Editor.PointPromptNode.Display | js/point_and_prompt.js:482-514 | the display rectangle has positive width and height |
| Editor.PointPromptNode.constructor | js/point_and_prompt.js:31-44 | a new node has no points, an empty field and prompt, no image shown, and is marked new |
| Editor.PointPromptNode.UpdatePromptData | js/point_and_prompt.js:817-859 | the prompt and the `prompt_text` widget become the trimmed serialisation of the field; nothing else changes |
| Editor.PointPromptNode.UpdatePointsWidget | js/point_and_prompt.js:807-812 | the `points_data` widget mirrors the point list; nothing else changes |
| Editor.PointPromptNode.LoadImage | js/point_and_prompt.js:391-403 | an empty file name changes nothing; any other shows the image |
| Editor.PointPromptNode.ImageLoaded | js/point_and_prompt.js:404-407 | the natural size is recorded and every marker, tag and point is cleared; text nodes stay |
| Editor.PointPromptNode.ImageLoadFailed | js/point_and_prompt.js:410-415 | the image is hidden; nothing else changes |
| Editor.PointPromptNode.InsertMarkerTag | js/point_and_prompt.js:631-684 | the field gains one tag at the caret (or at the end), and the prompt is updated from it |
| Editor.PointPromptNode.HandleImageClick | js/point_and_prompt.js:422-476 | a click on a marker, with no image, or outside the inclusive display rectangle changes nothing; any other click appends exactly one point at its normalised position, on the image and numbered after the last, inserts its tag, and updates both widgets; both invariants are kept |
| Editor.PointPromptNode.AddPoint | js/point_and_prompt.js:465-475 | the accepted point is appended, its tag inserted, and both widgets updated |
| Editor.PointPromptNode.SelectMarker | js/point_and_prompt.js:722-735 | the selection becomes the given position; nothing else changes |
| Editor.PointPromptNode.DragMove | js/point_and_prompt.js:582-609 | the dragged point's coordinates move by the scaled pixel distance and are clamped to [0,1]; its number and every other point stay; the marker lands on the mapped position inside the image; both invariants are kept |
| Editor.PointPromptNode.DragEnd | js/point_and_prompt.js:611-617 | releasing the button writes the points to their widget |
| Editor.PointPromptNode.RenumberPoints | js/point_and_prompt.js:751-753 | the points are renumbered by position; nothing else changes |
| Editor.PointPromptNode.UpdateTagNumbers | js/point_and_prompt.js:794-802 | the tags read 1..k in document order; their count and the field's shape and text are unchanged |
| Editor.PointPromptNode.DeleteSelectedMarker | js/point_and_prompt.js:739-773 | no selection: nothing changes. A valid selection: exactly that point is removed and the rest renumbered by position; exactly the tags carrying its number are removed and the rest renumbered 1..k; the selection is cleared and both widgets are updated. A stale selection: the points are renumbered, and the delete fails exactly when the field holds a tag |
| Editor.PointPromptNode.ClearAllMarkers | js/point_and_prompt.js:778-789 | no points, no selection and no tags remain; every text node stays in order; both widgets are updated |
| Editor.PointPromptNode.EditContent | js/point_and_prompt.js:311-313 | an edit of the field updates the prompt from the new content |
| Editor.PointPromptNode.RestorePromptContent | js/point_and_prompt.js:972-1025 | the field is rebuilt from the text by the restore parse |
| Editor.PointPromptNode.SerializeData | js/point_and_prompt.js:882-891 | the saved prompt is a string, so loading it does not throw, and loading the saved data gives back the point list |
| Editor.PointPromptNode.Configure | js/point_and_prompt.js:905-953 | the node is marked as loaded; a truthy non-string prompt throws and nothing else changes; otherwise the points and prompt are taken over or reset, the field is rebuilt from the prompt, the prompt widget is updated only for a non-blank prompt, the named image starts loading, and the selection is kept |
| Editor.PointPromptNode.RestoreSaved | js/point_and_prompt.js:914-944 | the deferred restore: points and their widget taken over or reset, prompt taken over or cleared, field rebuilt from it, prompt widget set only for a non-blank prompt, image loading started when one is named |
| Editor.SerializeConfigureRoundTrip | js/point_and_prompt.js:882-953 | configuring from a serialised node does not throw, and gives back its points and prompt |
| Backend.HasPoints | __init__.py:101 | `points and len(points) > 0` raises exactly for a truthy number or boolean, and holds exactly for a truthy array, object or string |
| Backend.NoPointsPromptUnchanged | __init__.py:82-105 | with an empty list, or with `points_data` that does not parse, the prompt passes through unchanged |
| Backend.MarkedPromptShape | __init__.py:98-105 | with points the prompt ends in the removal note; a non-empty prompt is stripped before the note, and an empty one becomes exactly the note |
| Backend.BlankPromptKeepsSpace | __init__.py:102-105 | every non-empty whitespace-only prompt yields exactly the note with its leading space, because `strip()` runs after the emptiness test |
| Backend.StripRemovesMoreThanTrim | __init__.py:103 | a prompt the editor's `trim` leaves alone can still lose a character to Python's `strip()` |
| Backend.TrimmedPromptKept | __init__.py:103 | a prompt with no whitespace at either end gets only the note appended |
| Backend.MarkerRadius | __init__.py:136 | the radius is at least 14 and at least `min(w, h) // 40`, and equals one of them |
| Backend.OutlineWidth | __init__.py:137 | the outline is at least 2 and at least `radius // 10`, and equals one of them |
| Backend.LineWidth | __init__.py:203 | the stroke is at least 2 and at least `radius // 5`, and equals one of them |
| Backend.RadiusThreshold | __init__.py:136 | the radius is the minimum 14 exactly for images whose shorter side is under 600 pixels |
| Backend.RadiusMonotone | __init__.py:136 | a larger shorter side never yields a smaller radius |
| Backend.DivMonotone | __init__.py:136 | floor division by a positive number is monotone |
| Backend.OutlineThreshold | __init__.py:136-137 | the outline is thicker than 2 exactly for images whose shorter side is at least 1200 pixels |
| Backend.TotalWidth | __init__.py:206 | a run of at least one digit is at least one digit width wide |
| Backend.EvenSpacing | __init__.py:207-212 | neighbouring digit centres are one digit width plus the spacing apart |
| Backend.CentresIncrease | __init__.py:210-212 | digit centres increase strictly from left to right when width plus spacing is positive |
| Backend.LayoutCentred | __init__.py:206-212 | the first and last digit centres are mirror images about `cx`, up to one pixel of rounding |
| Backend.DigitsInsideRun | __init__.py:206-212 | every digit's box lies inside `[start_x, start_x + total_width]` |
| Backend.MulMonotone | __init__.py:212 | multiplying by a natural number is monotone |
| Backend.NumberDigits | __init__.py:197-211 | a marker number has at least one digit, each below 10, and as many digits as `str(number)` has characters |
| Backend.NumberDigitsSpellNumber | __init__.py:197-213 | the drawn digits spell `str(number)` character for character and in full, and its value is the number |
| Backend.SegmentsReadBack | __init__.py:238-252 | every digit 0–9 lights a pattern that reads back as that digit; a digit outside the table draws no segment |
| Backend.DistinctDigitsLookDistinct | __init__.py:238-249 | no two digits light the same segments |
| Backend.SegmentTableFacts | __init__.py:238-249 | 8 lights all seven segments, and 1 lights exactly b and c |
| Backend.NoSegmentTwice | __init__.py:238-249 | no digit lists a segment twice |
| Backend.SegmentGeometry | __init__.py:219-235 | a, g and d are horizontal with the same x-extent, at `cy - hh`, `cy` and `cy + hh`; b and c lie on `x = cx + hw`, and e and f on `x = cx - hw`; the left strokes mirror the right ones, and d mirrors a |
| Backend.CacheKeyDefaults | __init__.py:273-275 | a missing argument keys like its default (`"[]"`, `""`) |
| Backend.IndexOf | __init__.py:275 | the result is the position of the first `c`: `c` sits there and nowhere before it, or there is none and the result is the length |
| Backend.IndexOfSeparator | __init__.py:275 | in `a + "_" + x` with no `_` in `a`, the first `_` is right after `a` |
| Backend.SplitAtSeparator | __init__.py:275 | a key prefix without `_` is recovered uniquely |
| Backend.CacheKeyCollides | __init__.py:275 | with a `_` in the image name two different inputs share a key, which is why CacheKeyInjective needs its restriction |
| Backend.CacheKeyInjective | __init__.py:273-275 | when neither the image name nor the points data contains `_`, equal keys mean equal inputs |

## Left out

- DOM creation, CSS styling, widget hiding, node sizing, port removal
  and host registration are not modelled. The same goes for the event
  wiring around the handlers (`stopPropagation`, attaching and detaching
  the document-level mouse listeners). These are user-interface plumbing.
  Each handler is modelled from its first effect on the node's data.
- The `setTimeout` delays in `configure` and `onNodeCreated` are not
  modelled. `Configure` performs the delayed data steps at once, and the
  delayed re-render of the markers is not modelled.
- The image download is reduced to its three events:
  - `LoadImage`, the start, shows the image;
  - `ImageLoaded` is the `onload`;
  - `ImageLoadFailed` is the `onerror`.

  URL construction is not modelled, and the image size is a parameter.
- Caret lookup (`window.getSelection`, `caretRangeFromPoint`) and tag
  drag-and-drop are not modelled. The caret is a position among the
  field's top-level children, or "outside", which appends. A caret inside
  a text node, which splits the node, and `deleteContents` of a non-empty
  selection are not modelled.
- The pointer scale correction from `getBoundingClientRect` is not
  modelled. Click positions and drag distances are taken already divided
  by it.
- The JSON encoding of the `points_data` widget is not modelled. The
  widget holds the point list itself.
- Restored points are not validated by the code, so the model does not
  validate them either. A saved `index` is taken to be a natural number.
- `Backend.ProcessPrompt` reduces `json.loads` to the shape of the value:
  its Python truthiness and whether `len` applies. Exceptions raised
  inside `_draw_markers` are not modelled. These include an entry that is
  not an object, a non-numeric `x` or `y`, and an `index` whose `str()` is
  not all digits (`-1`, `1.5`, `True`).
- The PIL ellipses and lines, alpha compositing, numpy/torch conversion,
  `folder_paths`, `os.listdir` and `VALIDATE_INPUTS` are not modelled.
  They are calls into external libraries and the file system.
- The float-to-int conversions `int(rel_x * img_width)`,
  `int(radius * 0.55)` and `int(radius * 0.15)` are not modelled. They are
  floating point; their results are integer parameters of the layout and
  segment members.
- The serialiser's last branch is not modelled. It writes the
  `textContent` of a node that is none of text node, tag, `BR`, `DIV`/`P`
  or element with children. The field holds only text nodes and elements,
  so non-element nodes such as comments and processing instructions are
  not represented.
- The `this.graph.change()` call at the end of `_updatePromptData` is not
  modelled. It only notifies the host graph.
- The image widget's callback (the user choosing another file) is not
  modelled, so `imageName` keeps the value the node was created with.
- MarkerRoundTrip: marker numbers are unbounded naturals. `parseInt` and
  `String` in the program work on doubles. They round numbers above 2^53
  and write numbers from 10^21 on in exponent form. So the placeholder is
  rewritten verbatim by the program only for numbers below 2^53.
- SerializeRestored: holds for the program only when every placeholder's
  number is below 2^53, for the same reason. It is stated over unbounded
  numbers.
- ReloadedPromptStable: holds for the program only when every placeholder's
  number is below 2^53, for the same reason.
- The restore parse and the tag comparison of `_deleteSelectedMarker`
  read marker numbers exactly. The program's `parseInt` reads them as
  doubles, which agrees only below 2^53. Marker numbers the editor itself
  creates never exceed the number of points.
- Geometry uses `real` where the program uses doubles. The exact
  equalities of PixelOfNormalized, NormalizedOfPixel and
  SquareImageExample, and the edges of the inclusive bounds test, hold
  exactly only over reals. Floating-point rounding is not modelled.
- Editor.PointPromptNode.DragMove: requires that the dragged position
  exists. The handler holds a closure over a `point` object that a later
  delete may have detached; that aliasing is not modelled.
- Editor.PointPromptNode.HandleImageClick: requires that the caret lies
  within the field's top-level children, which the browser guarantees.
