# Vertical-line extraction for Japanese OCR training data

This project models, in Dafny, the core of the dataset builder in
`extract.py` (`pdf_to_images_text_labels`). For each PDF, the builder
renders every page to an image and reads the page's layout. It keeps the
character glyphs that lie inside horizontal text boxes and pads each of
them into a pixel box. It then groups the boxes into vertical text lines
by their horizontal centre: a box joins the first existing group whose key
is less than 20 pixels away, or else it opens a new group keyed by its
own centre. For every group, in the order the groups were opened, the
builder computes the line's enclosing rectangle, clamped to the image. It
skips the group when the crop of the rendered page is empty. Otherwise it
writes the crop and a label text under the name
`<stem>_page<counter>_line<index>`. The label text comes from a second
scan over all of the page's glyph boxes.

The model is organised by module:

- `Text`: Python's `str.strip()`, decimal rendering of indices, and the
  file names.
- `Geometry`: rectangles, padding and partial clamping, centres, the
  enclosing rectangle, the vertical sort, and the size of a numpy slice.
- `Glyphs`: the walk over the layout (three nested loops) that builds the
  page's glyph list.
- `Clustering`: the greedy grouping by centre (a loop over the glyph list
  with an inner first-match search).
- `Labels`: the label re-scan (a loop).
- `Pipeline`: the per-group loop that writes one record per kept line,
  the page loop, and the naming properties.

Loops in the source are methods with loop invariants. Each method is
proved equal to a specification function, and the properties are lemmas
about those functions. The dictionary `x_groups` is a sequence of groups
in insertion order. This is exact because a new key is always more than
19 pixels from every existing key (`Clustering.KeysApart`), so neither the
membership test nor the insertion ever meets an existing key. A written
line (its `.png` crop and its `.txt` label) is a `LineRecord` holding its
file name, its crop rectangle and its label text.

Two consequences of the code are worth stating plainly.

- Only the left edge (at 0) and the right edge (at W) of a padded glyph
  box are clamped to the image. The top and bottom are not: the swapped
  vertical pair is `max(0, y1) - 4` and `min(y0, H) + 4`, so the top can
  be -4 and the bottom H + 4 (`Geometry.PadBox`).
- Two boxes presented one after the other whose centres differ by less
  than 20 pixels can still fall in different groups. A box is compared
  with the group keys, not with the previous box: centres 100, 119, 125
  give the keys 100 and 125. The box at 119 joins the first group and the
  box at 125 opens the second (`Clustering.ConsecutiveNearBoxesSplit`).

The label scan has behaviours of its own. A group's label can take a
glyph that belongs to another group (`Pipeline.LabelTakesOtherGroupsBox`).
A member of the group whose padded top edge lies outside the image, above
it (a glyph at the top of the page, `Pipeline.TopGlyphLeftOutOfLabel`) or
below it, contributes to the crop but not to the label
(`Pipeline.OutsideImageLeftOut`). For a member whose top edge is not below
its own bottom edge, this is the only way to be missing from its label
(`Pipeline.MemberInLabel`).

## Model

| member | source | states |
|---|---|---|
| Text.Strip | extract.py:40 | Python's `str.strip()` with no argument, removing Python whitespace from both ends; its meaning for the filter is stated by Text.StripEmptyIff |
| Text.StripEmptyIff | extract.py:40 | a glyph's text strips to the empty string exactly when every character is Python whitespace |
| Text.NatToString | extract.py:92 | an index renders as a non-empty digit string with no leading zero |
| Text.DigitsRoundTrip | extract.py:124 | reading back the rendered digits gives the index back |
| Text.LineName | extract.py:92-124 | the file name `<stem>_page<counter>_line<index>`; Text.LineNameInjective states that it identifies the page and the line |
| Text.LineNameInjective | extract.py:92-124 | two line names built from the same stem are equal only when their page counters and line indices are equal |
| Geometry.PadBox | extract.py:46-48 | the padded box has its left edge at least 0 and its right edge at most W, its top at least -4 and its bottom at most H + 4; no edge moves by more than its padding (left edge at most 5 left of the glyph's and at most the glyph's left edge or 0, right edge at most 2 past the glyph's), and the vertical pair is swapped (the top comes from the mapped y1, the bottom from the mapped y0) |
| Geometry.PadHorizontal | extract.py:46-47 | for a glyph inside the image horizontally, the padded box is well formed horizontally and contains the glyph, its left edge moved left by at most 5 and its right edge right by at most 2 |
| Geometry.PadVertical | extract.py:48 | for a glyph whose mapped top and bottom lie inside the image, the vertical pair is swapped and padded by exactly 4 on each side, so the box is 8 pixels taller than the glyph |
| Geometry.Center | extract.py:59 | the centre is the floor of the midpoint: twice it is the sum of the two edges or one less |
| Geometry.LeastIsMinimum | extract.py:103-104 | the computed minimum of one coordinate is attained by some member and is at most every member's |
| Geometry.GreatestIsMaximum | extract.py:105-106 | the computed maximum of one coordinate is attained by some member and is at least every member's |
| Geometry.EnclosingRect | extract.py:103-106 | the line rectangle lies inside the image: x0 and y0 at least 0, x1 at most W, y1 at most H |
| Geometry.EnclosingRectTight | extract.py:103-106 | every member lies inside the line rectangle as far as the image allows, and each edge of the rectangle is some member's edge clamped to the image, so the rectangle is exactly the clamped minimum and maximum of the members' edges |
| Geometry.EnclosingIgnoresOrder | extract.py:99-106 | the rectangle of the sorted members equals the rectangle of the members in any other order |
| Geometry.SortByTop | extract.py:99 | the sorted members are ordered by top edge and are a permutation of the group's members |
| Geometry.InsertByTop | extract.py:99 | inserting one box into a sorted sequence keeps it sorted and adds exactly that box |
| Geometry.SliceLen | extract.py:109 | a slice along an axis of length n has at most n elements, has stop - start elements for bounds inside the axis, and is empty when 0 <= stop <= start; a negative bound counts from the far edge |
| Geometry.EmptyCrop | extract.py:109-112 | the crop test `line_image.size == 0` on an H x W image; its meaning is stated by Geometry.EmptyCropIff |
| Geometry.SliceIndex | extract.py:109 | a slice bound is clipped into the axis, and a bound already inside the axis is kept unchanged |
| Geometry.EmptyCropIff | extract.py:109-113 | for bounds inside the image, the crop is empty exactly when the rectangle has no width or no height |
| Glyphs.ExtractLine | extract.py:38-51 | the glyph boxes of one text line are the line's emitted glyphs, padded |
| Glyphs.ExtractTextBox | extract.py:37-51 | the glyph boxes of one horizontal text box are those of its lines, in order |
| Glyphs.ExtractTextBoxes | extract.py:35-51 | the page's glyph list is the one the walk defines |
| Glyphs.FilterEmits | extract.py:36-40 | every item kept by the filter is a glyph with visible text |
| Glyphs.GlyphBoxesIsPadded | extract.py:35-51 | the glyph list is exactly the walk's items inside horizontal text boxes, filtered to non-blank glyphs and padded one by one in walk order |
| Glyphs.GlyphBoxesBounds | extract.py:40-51 | every glyph-list entry has visible text and a box with 0 <= x0, x1 <= W, -4 <= y0 and y1 <= H + 4 |
| Clustering.FirstMatch | extract.py:63-67 | the chosen group is the earliest one within tolerance, and no earlier key is within tolerance; none is chosen when no key is within tolerance |
| Clustering.FirstMatchUnique | extract.py:63-67 | any index that is within tolerance and has no earlier match is the chosen one |
| Clustering.FirstMatchAppend | extract.py:63-71 | adding a key at the end leaves every earlier match unchanged |
| Clustering.JoinKeys | extract.py:63-71 | a box either leaves the keys unchanged (it joined a group) or appends its own centre as a new key |
| Clustering.Join | extract.py:59-71 | one step of the grouping; Clustering.JoinKeys states what it does to the keys and Clustering.MembershipStep to the members |
| Clustering.Clusters | extract.py:57-71 | the greedy grouping of the glyph list; its properties are stated by Clustering.Membership, Clustering.Partition, Clustering.KeysApart, Clustering.KeysStable and Clustering.Tolerance |
| Clustering.GroupBoxes | extract.py:57-71 | the grouping loop computes the groups the greedy definition gives |
| Clustering.KeysApart | extract.py:63-71 | any two distinct group keys are at least 20 pixels apart |
| Clustering.KeyIsFirstCentre | extract.py:70-71 | every group is non-empty, and its key is the centre of its first member |
| Clustering.KeysStable | extract.py:63-71 | processing more boxes never changes an existing key and only appends to an existing group's members |
| Clustering.ClustersCover | extract.py:58-71 | after grouping, every box's centre is within tolerance of some key |
| Clustering.CoveredStep | extract.py:63-71 | one grouping step keeps every earlier box within tolerance of some key and puts the new box within tolerance of one too |
| Clustering.MembersOf | extract.py:63-65 | every box listed for a group has that group as its first match among the final keys |
| Clustering.MembersOfSameMatch | extract.py:63-71 | the members of a group depend only on each box's first-matching group |
| Clustering.MembersOfNone | extract.py:63-71 | a group that no box first-matches has no members |
| Clustering.Membership | extract.py:58-71 | each group's members are exactly the boxes whose first match among the final keys is that group, in extraction order |
| Clustering.Tolerance | extract.py:59-65 | every member of a group is within tolerance of its group's key |
| Clustering.TotalMembersUpdate | extract.py:65 | replacing one group changes the total member count by the difference in that group's size |
| Clustering.Partition | extract.py:58-71 | the groups hold exactly as many boxes as the page has, so each box is in exactly one group |
| Clustering.TwoLines | extract.py:57-71 | centres 100, 102, 104 and 500 form two groups, keyed 100 and 500, of three boxes and one box |
| Clustering.ClustersSnoc | extract.py:58-71 | grouping one more box is one more greedy step |
| Clustering.KeysAfterTwo | extract.py:63-71 | centres 100 then 119 leave the single key 100 |
| Clustering.ConsecutiveNearBoxesSplit | extract.py:59-71 | consecutive boxes whose centres (119, 125) differ by less than 20 can still fall in different groups |
| Labels.InLabel | extract.py:118-120 | the label test: the box's centre is within tolerance of the group key and its top edge lies between the rectangle's top and bottom; Labels.SelectedIff states its use |
| Labels.LineText | extract.py:116-121 | the label is the concatenation, in extraction order, of the texts of the page's boxes that pass the centre and top-edge test |
| Labels.Chosen | extract.py:116-121 | the chosen positions are increasing, and a position is chosen exactly when its box passes the test |
| Labels.SelectedAtChosen | extract.py:116-121 | the selected boxes are the boxes at the chosen positions, in order |
| Labels.SelectedIff | extract.py:118-121 | a box is part of the label exactly when it is on the page, its centre is within tolerance of the key and its top edge lies between the rectangle's top and bottom |
| Pipeline.ProcessPage | extract.py:27-135 | a page's records are the ones its glyph list and groups define |
| Pipeline.EmitGroups | extract.py:95-135 | the per-group loop writes one record for each group whose crop is not empty, in group order |
| Pipeline.KeptLines | extract.py:95-113 | the written line indices are increasing, and an index is written exactly when its group's crop is not empty |
| Pipeline.EmitLinesAt | extract.py:95-124 | the i-th record written is the record of the i-th kept group, named with that group's own index |
| Pipeline.PageRecordsComplete | extract.py:95-135 | every group whose crop is not empty has its record written |
| Pipeline.PageNamesDistinct | extract.py:92-124 | all the records of a page are named for that page's counter, and no two share a name |
| Pipeline.PageCropsInside | extract.py:103-113 | every written crop lies inside the image and is not empty |
| Pipeline.MembersOfHas | extract.py:63-65 | a box belongs to the group that is its first match |
| Pipeline.MemberInLabel | extract.py:103-121 | a member of a group whose padded top edge lies in [0, H] and not below its own bottom edge is part of that group's label |
| Pipeline.OutsideImageLeftOut | extract.py:103-121 | a box whose padded top edge lies above or below the image is in no group's label |
| Pipeline.LabelTakesOtherGroupsBox | extract.py:116-121 | centres 100, 120, 110 form two groups; the box at 110 belongs to the first group, yet it is also in the second group's label "bc" |
| Pipeline.TopGlyphLeftOutOfLabel | extract.py:103-121 | a glyph padded to a top edge of -4 is cropped but left out of the label, so the line gets an empty label |
| Pipeline.PagesDone | extract.py:26-138 | the loop completes a prefix of the pages no longer than either the pages or the images; every completed page was readable, and the loop stops early only at an unreadable page |
| Pipeline.ProcessNextPage | extract.py:26-136 | processing the next readable page appends that page's records |
| Pipeline.ProcessDocument | extract.py:24-138 | the document's records are the pages' records in page order, up to the pages the loop completes; a failure is reported exactly when the page after the completed ones exists and cannot be read, even if the images have run out, since the zip draws the page first |
| Pipeline.OutputsOfAppend | extract.py:26-136 | the per-page outputs stay those of pages 0, 1, ... after one more page |
| Pipeline.FlattenOutputs | extract.py:26-136 | concatenating the per-page outputs gives the document's records |
| Pipeline.PagesDoneUnique | extract.py:26-138 | the number of completed pages is determined by where the first unreadable page or the end of the shorter sequence lies |
| Pipeline.ZipTruncates | extract.py:26 | when every page is readable, the loop runs over as many pages as the shorter of the pages and the images |
| Pipeline.PageOutputNames | extract.py:92-136 | every record of page p is named for page p, and no two share a name |
| Pipeline.FlattenNames | extract.py:92-136 | records of pages 0 to n-1 are named for pages before n, and no two share a name |
| Pipeline.AppendNamedBefore | extract.py:92-136 | adding the records of page n to records named for earlier pages gives records named for pages up to n |
| Pipeline.AppendDistinct | extract.py:92-136 | adding page n's records to distinctly named earlier records keeps all names distinct |
| Pipeline.DocNamesDistinct | extract.py:92-136 | across the whole document, no two written lines share a file name, and each is named for one of the completed pages |

## Left out

- Rendering the PDF to images and parsing its layout are not modelled. A page is given as its sequence of layout elements, and an image as its width and height.
- Coordinate scaling is not modelled: `int((x / page_width) * image_width)` and the flipped vertical mapping use floating point. A glyph carries its already-mapped integer coordinates.
- `Path.stem` is not modelled: the PDF's stem is an input string.
- File output is not modelled (`os.makedirs`, `cv2.imwrite`, the label file writes, the directory listing). A `LineRecord` stands for the two files of a line, and the crop stands for its rectangle, not its pixels.
- The parallel run over files (`process_map`) and the first-300-files cut are not modelled. The model covers one document.
- The exception handler is reduced to pages that cannot be read (`PageSource.Unreadable`). Such a page stops the document, and every record already written is kept. An exception raised in the middle of a page, after some of its lines were written, is not modelled, and neither is the printed message.
- `labels_str` is built but never used, so it is not modelled.
- `Geometry.SortByTop`: sortedness and permutation are proved, but stability (ties in top edge keep their order) is not. Only the rectangle, which does not depend on the order, is used.
- `crawl.py` and the remaining repository scripts are not part of this model.
