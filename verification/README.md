# Markdown image previews, modelled in Dafny

This project models the core of `md_image.py`, a Sublime Text plugin that shows the images a Markdown document links to as phantoms (inline overlays) under the link's line. The model covers:

- **`get_image_size`**: sniffs a PNG, GIF or JPEG head and reads the pixel size straight out of the bytes. This includes the JPEG marker-segment scan. (`image_size.dfy`, over the byte decoders in `bytes.dfy`)
- **Merging link regions**: the host reports a link with a space in it as several link regions, and the show pass merges the ones separated only by whitespace. (`regions.dfy`, with `view.line`)
- **`check_imgattr`**: the greedy `.*\)\{(.*)\}` match that finds custom attributes such as `{width="300"}`. (`img_attr.dfy`)
- **Sizing**: the width cap and the `width="…" height="…"` attribute. (`sizing.dfy`)
- **Deciding where a link points**: remote or local, the skip rules, `get_path_for`, and the `file:` URI. (`links.dfy`)
- **Phantoms and the host display**: what `add_phantom` and `erase_phantoms` do to what the editor shows, the key → phantom map of a pass, and the erase loop. (`phantoms.dfy`)
- **`ImageHandler` itself**: `show_images`, `hide_images` / `_erase_phantoms` and `on_close`, over a per-view state of tracked phantoms and cached remote bytes. (`handler.dfy`)

The model's parts:

- **State.** `State` holds two maps keyed by view id: the tracked `(key, html)` phantoms and the URL cache.
- **Show pass.** It runs over the merged regions, last first, as `for region in reversed(img_regs)` does. It returns the new state and the log of host calls (`Fetch`, `Add`, `Erase`).
- **Display.** What the host displays is a sequence of phantoms. `add_phantom` appends one; `erase_phantoms(key)` removes every displayed phantom with that key.
- **Outside world.** Library, file and network access enter as the fields of an `Env` value (`fetch`, `readFile`, `base64`, and the path functions of `Links.PathLib`). Nothing is assumed about them.
- **Set iteration order.** Python's order for iterating a set is modelled by `Phantoms.Enumerate`, an arbitrary but fixed listing of the set. That makes the show and hide passes `ghost` functions.

Two defects in the show pass are logged under "## Findings". The handler is written once with a `Variant` switch:

- `AsWritten` follows the code line by line.
- `Corrected` differs in two places:
  - `Place` erases a line's key before adding the line's new phantom.
  - `Size` uses `Sizing.SizeAttrFixed`, which treats a missing dimension like a non-positive one.

Behaviours of the code a reader may not expect:

- **Cache writes.** Fetched bytes are stored in the cache only when a new phantom is added (md_image.py:272-273), not on every successful fetch.
- **Unknown JPEG size.** A JPEG whose size cannot be read is not skipped. Without a custom attribute it raises out of the whole pass (finding 2). With a custom attribute it is shown.
- **Width cap.** A width setting of `0` also falls back to 1024 (`not max_width`).
- **SVG.** `<svg` is treated like any unrecognised head: the result is `(None, None, None)`.
- **Sniffing order.** `imghdr` tests for JPEG before GIF, so a GIF whose size bytes spell `JFIF` is taken for a JPEG (`ImageSize.GifSpellingJfifIsSniffedAsJpeg`).
- **Changed images.** A changed image on a line is not reliably replaced: the erase by key after the add removes it (finding 1).

## Model

| member | source | states |
|---|---|---|
| Bytes.U16BE | md_image.py:346 | `'>H'`: a value in 0..65535 whose high byte is the first byte read and whose low byte is the second |
| Bytes.U16LE | md_image.py:332 | `'<H'`: a value in 0..65535 whose low byte is the first byte read |
| Bytes.I32BE | md_image.py:325 | `'>i'` is signed: a value in -2^31..2^31-1, negative exactly when the top bit of the first byte is set |
| Bytes.EncodeU16BE | md_image.py:349 | the two bytes it writes decode back to the same value, so `'>H'` has an inverse to round-trip against |
| Bytes.EncodeU16LE | md_image.py:332 | the two bytes it writes decode back to the same value under `'<H'` |
| Bytes.EncodeI32BE | md_image.py:328 | the four bytes it writes decode back to the same signed value under `'>i'` |
| ImageSize.Head | md_image.py:315 | `f.read(24)`: a prefix of the data, 24 bytes long unless the data is shorter |
| ImageSize.Sniff | md_image.py:322-333 | a head is taken for a JPEG exactly when bytes 6..10 are `JFIF` or `Exif`; one taken for a PNG starts with the PNG signature; one taken for a GIF starts with `GIF87a` or `GIF89a` |
| ImageSize.SkipFill | md_image.py:343-344 | the inner loop stops at the first byte that is not 0xFF, every byte before it being 0xFF, or reports a short read when only 0xFF bytes remain |
| ImageSize.ReadMarker | md_image.py:342-346 | a marker and length are read exactly when the 0xFF run ends with at least three bytes left; the marker is that byte and the length is the big-endian pair after it |
| ImageSize.JpegScan | md_image.py:336-349 | a result means a marker in 0xC0..0xCF sits at or after the scan's start with that height and width stored after its length and precision byte |
| ImageSize.JpegMeasure | md_image.py:349-352 | a JPEG always has a type; it has a size exactly when the scan reached a frame, with width and height swapped out of the frame's height-first order |
| ImageSize.GetImageSize | md_image.py:311-362 | only a head shorter than 24 bytes can raise; no type means no size; a PNG and a GIF always have both dimensions, a GIF's within 16 bits; a JPEG has both or neither |
| ImageSize.SegmentRead | md_image.py:340-346 | a well-formed marker segment is read as its own marker and length, and the scan resumes right after its payload |
| ImageSize.FrameRead | md_image.py:340-349 | a frame header where the scan looks ends it with the header's height and width |
| ImageSize.ScanSkipsSegments | md_image.py:340-349 | any run of well-formed non-frame segments followed by a frame header yields that frame's height and width |
| ImageSize.PngCheckAlwaysHolds | md_image.py:322-327 | bytes 4..8 of every head sniffed as PNG equal 0x0D0A1A0A, so the sizeless PNG branch is unreachable |
| ImageSize.PngRoundTrip | md_image.py:322-328 | signature, 8 bytes, then two signed big-endian integers: the result is those integers as width and height, type png |
| ImageSize.PngShortHeadRaises | md_image.py:328 | a PNG head shorter than 24 bytes makes the IHDR unpack raise |
| ImageSize.GifRoundTrip | md_image.py:329-332 | a GIF signature followed by two little-endian 16-bit values yields them as width and height, type gif, unless those bytes spell `JFIF`/`Exif` |
| ImageSize.GifSpellingJfifIsSniffedAsJpeg | md_image.py:322-333 | a GIF 17994 x 17993 is sniffed as a JPEG, because the JPEG test comes first |
| ImageSize.JpegMeasured | md_image.py:333-349 | a head sniffed as JPEG whose scan reaches a frame yields the frame's width and height, type jpeg |
| ImageSize.JfifSegmentSniffed | md_image.py:333 | data whose first segment after SOI carries `JFIF` or `Exif` is sniffed as JPEG |
| ImageSize.JpegRoundTrip | md_image.py:333-349 | SOI, a JFIF/Exif segment, any other segments, a frame header and any tail: the result is the frame's width and height, type jpeg |
| ImageSize.UnrecognisedHasNoType | md_image.py:353-361 | an `<svg` head or any other unrecognised head yields no width, no height and no type |
| ImageSize.TruncatedJpegHasNoSize | md_image.py:336-352 | a JPEG cut off before its frame header yields type jpeg with no size |
| ImageSize.DhtTakenAsFrame | md_image.py:340 | a DHT marker (0xC4) ends the scan as if it were a frame header |
| Regions.Cover | md_image.py:125 | `cover`: a region holding both, and inside every region that holds both |
| Regions.JoinFlags | md_image.py:115-121 | one flag per gap, set exactly when the text between the two links is non-empty and all whitespace |
| Regions.GroupCount | md_image.py:122-127 | the merged region a link falls in is its index less the merges before it |
| Regions.GroupMonotone | md_image.py:122-127 | later links never fall in earlier merged regions, and an unmerged gap moves every later link to a later region |
| Regions.MergeShape | md_image.py:122-128 | the merge loop's output is ordered, covers every link by the region its group names, starts and ends where its first and last links do, and has one region fewer per merged gap |
| Regions.InExactlyOneGroup | md_image.py:122-127 | each link lies in exactly one output region of the merge loop |
| Regions.MergeRegions | md_image.py:115-128 | the merged regions are ordered and inside the text, and there is one fewer per whitespace gap |
| Regions.InExactlyOneRegion | md_image.py:115-128 | each link lies in exactly one merged region |
| Regions.SameGroupIffFlag | md_image.py:122-127 | links i and i+1 share a merged region exactly when gap i is flagged |
| Regions.MergedIffWhitespaceGap | md_image.py:115-128 | links i and i+1 share a merged region exactly when the text between them is non-empty whitespace |
| Regions.LineStart | md_image.py:240 | the start of a line: just after a newline or at 0, with no newline up to the offset |
| Regions.LineEnd | md_image.py:240 | the end of a line: at a newline or the end of the text, with no newline before it |
| Regions.Line | md_image.py:240 | `view.line(region)` holds the region and stays inside the text |
| Text.Without | md_image.py:186 | `replace('\n', '')`: no newline remains, every other character is kept, and the length drops by exactly the number of newlines |
| Text.WithoutConcat | md_image.py:186 | the removal acts on each piece of a string separately, so the characters kept stay in their order |
| Text.WithoutOne | md_image.py:186 | a single character is dropped exactly when it is a newline, and kept otherwise |
| Text.ReplaceFirstAt | md_image.py:230 | `replace(pat, repl, 1)` splices `repl` in at the first occurrence of `pat` |
| Text.ReplaceFirstAbsent | md_image.py:230 | without an occurrence of `pat`, `replace(pat, repl, 1)` changes nothing |
| Text.Decimal | md_image.py:257 | `str(n)`: decimal digits with no leading zero, a single digit exactly below 10 |
| Text.DecimalInjective | md_image.py:257 | different numbers print differently |
| ImgAttr.FirstLine | md_image.py:297-300 | the text up to the first newline, since `.` never matches a newline |
| ImgAttr.LastBrace | md_image.py:300 | the last `}` before a bound, or none at all |
| ImgAttr.LastOpen | md_image.py:300 | the last `){` ending by a bound, or none at all |
| ImgAttr.FindAttr | md_image.py:300 | the match exists exactly when the pattern can match, and its `){` and `}` are the rightmost of any match |
| ImgAttr.GreatestIsFound | md_image.py:300 | the rightmost match is unique and is the one found |
| ImgAttr.CheckImgAttr | md_image.py:295-303 | `''` when the first line has no `){` with a `}` after it; otherwise the text between the rightmost such `){` and the last `}`; never a newline |
| ImgAttr.NoOpenInAttr | md_image.py:300-302 | the attributes returned never contain `){` |
| ImgAttr.NoBraceNoAttr | md_image.py:300-303 | a line without `}` has no custom attributes |
| ImgAttr.AnnotationMatch | md_image.py:300 | in `prefix){attrs}rest`, with no `}` in `rest` and no `){` in `attrs`, the match found is the one around `attrs` |
| ImgAttr.AnnotationRoundTrip | md_image.py:295-303 | a link followed by `){attrs}` and nothing with `}` after it on the line yields exactly `attrs` |
| Sizing.EffectiveMaxWidth | md_image.py:103-104 | the cap is positive; it is the setting exactly when the setting is positive, and 1024 otherwise |
| Sizing.Fit | md_image.py:243-246 | the width is `min(w, max_width)` and width/height keep the image's aspect ratio, the height never growing |
| Sizing.SizeAttr | md_image.py:241-247 | a custom attribute wins; `TypeError` exactly when `w` is `None`, or `w > 0` and `h` is `None`; a size attribute only for positive sides, never wider than the cap |
| Sizing.SizeAttrFixed | md_image.py:242-247 | the corrected step: a missing side gives no attribute instead of raising |
| Sizing.FixedAgrees | md_image.py:242-247 | the corrected step agrees with the original wherever the original does not raise |
| Sizing.UnknownSizeRaises | md_image.py:242 | no custom attribute and no size: the original raises, the corrected step gives no attribute |
| Sizing.NegativeSideNoAttr | md_image.py:242 | a non-positive side (a negative signed PNG size) gives no size attribute |
| Sizing.FitWithinCap | md_image.py:243-247 | an image no wider than the cap keeps its size; a wider one is scaled to the cap with its aspect ratio kept |
| Sizing.HalvedExample | md_image.py:243-247 | 2048 x 1024 under the default cap is shown 1024 x 512 |
| Links.GetPathFor | md_image.py:365-374 | the folder of the view's file, else the folder of the project file, else `/` |
| Links.StripAngle | md_image.py:138-139 | a trailing `>` is dropped and nothing else changes |
| Links.LocalPath | md_image.py:199-211 | the path is the drive letter put back in front of a normalised path; when the link joined to the base folder (or the link alone, with no base folder) is absolute, it is that path normalised |
| Links.FileUri | md_image.py:213-230 | without a drive the URI is `urlunparse` of the link with scheme `file` and the resolved path |
| Links.NoTripleSlashUnchanged | md_image.py:229-230 | a URI without `file:///` is used unchanged, drive or not |
| Links.DriveUriLosesOneSlash | md_image.py:229-230 | on a drive path `file:///rest` becomes `file://rest` |
| Links.Resolve | md_image.py:138-158 | remote exactly for a scheme other than none and `file` with remote images on and no `.svg` path; local exactly for the rest with local images on; a remote URL is the link after the drive split, a local path keeps the drive; a local path is the one `LocalPath` computes for the link, and its URI is `FileUri` of it |
| Links.RelativeAnchoredAtViewFolder | md_image.py:199-209 | a relative link with no base folder is joined to the folder `get_path_for` names |
| Links.RelativeUnderBaseAnchored | md_image.py:203-209 | a link joined to the base folder that is still relative is then joined to the folder `get_path_for` names |
| Links.AbsoluteIgnoresViewFolder | md_image.py:203-209 | an absolute path, or one made absolute by the base folder, does not depend on the view's file |
| Links.AngleBracketIgnored | md_image.py:138-139 | a link closed by `>` resolves like the same link without it |
| Links.NothingShownWhenBothOff | md_image.py:148-150 | with both kinds switched off every link is skipped |
| Phantoms.KeyFor | md_image.py:257 | the key is `mdimage-` followed by at least one character |
| Phantoms.KeyForInjective | md_image.py:257 | two links share a key exactly when their lines end at the same offset |
| Phantoms.DropKey | md_image.py:278 | `erase_phantoms(key)` removes every displayed phantom with that key and leaves every other one |
| Phantoms.Apply | md_image.py:267-278 | a fetch leaves the display; an add shows one more of that phantom; an erase hides every phantom with its key |
| Phantoms.ErasesRemove | md_image.py:276-279 | erases never show a phantom more often, and an erase of its key hides it |
| Phantoms.ErasedDisplay | md_image.py:278 | under a log of erases a phantom is shown as before unless its key is erased, then not at all |
| Phantoms.EraseKeyKeeps | md_image.py:278-279 | erasing a key and dropping the tracked phantoms with it keeps tracked and shown in step |
| Phantoms.AddFreshKeyKeeps | md_image.py:267-271 | adding a phantom whose key nothing tracked uses keeps tracked and shown in step |
| Phantoms.Desired | md_image.py:261 | the map sends each key to a produced phantom with that key, and has every produced key |
| Phantoms.DesiredIsLast | md_image.py:261 | for each key, the map keeps the phantom produced last |
| Phantoms.EraseStale | md_image.py:276-279 | the loop drops exactly the stale phantoms it visits, logs only erases, and erases the key of each of them |
| Phantoms.OneErasePerStale | md_image.py:276-279 | one `erase_phantoms` call per stale phantom visited |
| Phantoms.CountStaleIsCard | md_image.py:276-279 | visiting each tracked phantom once, the erases number the stale tracked phantoms |
| Phantoms.EraseLeavesDesired | md_image.py:276-279 | the loop leaves exactly the tracked phantoms the pass produced as final for their key |
| Phantoms.SettledErasesNothing | md_image.py:276-279 | when every tracked phantom is final for its key, the loop erases nothing and keeps everything |
| Phantoms.EraseStaleKeeps | md_image.py:276-279 | with unique keys, the erase loop keeps tracked and shown in step |
| Phantoms.Enumerate | md_image.py:276 | `list(set)`: each element once, nothing else |
| Phantoms.EraseAll | md_image.py:290-291 | one erase per tracked phantom, of its key |
| Phantoms.HideClearsTracked | md_image.py:289-292 | after the erases, nothing that was tracked is shown |
| Handler.Store | md_image.py:271-282 | the view's entries become the given ones, an empty entry being dropped, and other views are untouched |
| Handler.Measured | md_image.py:175-180 | a size is used exactly when `get_image_size` returns with a type; a raise or no type skips the link; bytes that give a size are never empty |
| Handler.DataUri | md_image.py:182-188 | the `src` starts with `data:image/<type>;base64,`, and the rest is the base64 text of the bytes with its newlines removed |
| Handler.RemoteData | md_image.py:161-173 | the bytes used are the cached ones when they are non-empty, and otherwise what the fetch returns |
| Handler.LoadRemote | md_image.py:160-189 | an image exactly when the bytes used measure with a type; its size is theirs, its `src` the `data:` URI of them, and its cache entry the URL with them; non-empty cached bytes mean no fetch, otherwise one fetch |
| Handler.LoadLocal | md_image.py:215-223 | never a fetch or a cache entry; an image exactly when the file reads and names a type; its size is the file's and its `src` is the file URI |
| Handler.Size | md_image.py:241-247 | as written the sizing step itself; corrected it never raises and agrees wherever the original does not raise |
| Handler.Place | md_image.py:257-273 | the phantom is recorded and tracked; an already-tracked one causes no add and no cache write; an untracked one is added, and its cache entry, if any, is written, the cache changing only then |
| Handler.TargetOf | md_image.py:133-158 | the link text resolved with the pass's settings and the view's file names: remote only with remote images on, local only with local images on |
| Handler.LoadTarget | md_image.py:138-232 | a skipped link loads nothing; a local link goes to `LoadLocal` and a remote one to `LoadRemote`; only a remote image carries a cache entry, under its own URL, with non-empty bytes |
| Handler.Examine | md_image.py:130-260 | the link's fetches are its load's; it is skipped exactly when it resolves to a skip or loads no image; it raises exactly when sizing the loaded image raises; a placed phantom's html is the image's `src` with the custom attribute or computed size, its cache entry is the load's, and it is keyed by and anchored at the end of the link's line; corrected it never raises |
| Handler.Advance | md_image.py:130-273 | the log only grows, and at most one phantom is recorded, tagged with the link's index |
| Handler.ProcessLink | md_image.py:130-273 | corrected, no link raises out of the pass |
| Handler.ProbeLinks | md_image.py:130 | the pass examines each merged region on its own; every probe logs only fetches and caches only non-empty bytes; corrected no probe raises |
| Handler.RunLinks | md_image.py:130-273 | a loop none of whose links raises runs to the end |
| Handler.Start | md_image.py:106-108 | the pass starts from the view's tracked phantoms and cache, with nothing produced or logged |
| Handler.RunAll | md_image.py:106-273 | corrected, the loop over the merged regions always completes |
| Handler.Finish | md_image.py:275-282 | after the erase loop the cache is the pass's, the produced phantoms are kept, and other views are untouched |
| Handler.ShowImages | md_image.py:94-282 | with both kinds off nothing happens; corrected it never raises; the phantoms produced and the cache written back are the loop's; other views are untouched |
| Handler.HideImages | md_image.py:284-293 | the view's tracked set becomes empty, one erase per tracked phantom, the cache is kept, other views are untouched |
| Handler.OnClose | md_image.py:89-92 | hides as `hide_images` does and drops the view's cache too, other views untouched |
| Handler.DesiredAppend | md_image.py:261 | producing one more phantom overrides its key in the map |
| Handler.RunAllKeeps | md_image.py:130-273 | through the loop, phantoms come in decreasing link order, each final phantom is tracked, and the cache changes only with an add |
| Handler.ShowTracksDesired | md_image.py:257-282 | after a completed pass the tracked set is exactly the set of values of the pass's key -> phantom map |
| Handler.LeftmostIsLast | md_image.py:130-261 | in decreasing link order, the leftmost link's phantom is the last one for its key |
| Handler.LeftmostLinkWins | md_image.py:130-261 | of several links on a line, the leftmost one's phantom is the one the pass keeps |
| Handler.CacheChangesOnlyWithAdd | md_image.py:262-273 | a pass changes the view's cache only if it calls `add_phantom` |
| Handler.AsWrittenAddsOnlyUntracked | md_image.py:262-271 | a pass adds only phantoms not tracked when it began; a pass that raises has erased nothing and tracked only grows |
| Handler.CorrectedStaysConsistent | md_image.py:257-282 | corrected, a pass keeps every tracked phantom shown exactly once and no untracked one shown, keys unique |
| Handler.SkippedLinkLeavesPass | md_image.py:148-158 | a link the skip rules drop leaves the pass untouched |
| Handler.RemoteFetchedUnlessCached | md_image.py:161-167 | a remote image with cached non-empty bytes is not fetched again; any other is fetched once |
| Handler.Reach | md_image.py:130 | the loop as link `j` comes up: when still running, the rest of the loop runs from that pass; when stopped, the loop's result is that stop |
| Handler.StepKeepsCached | md_image.py:262-273 | a link whose probe caches only non-empty bytes never takes a URL out of the cache |
| Handler.ReachKeepsCached | md_image.py:130-273 | a URL in the cache with non-empty bytes stays so for every link the loop reaches afterwards |
| Handler.RunKeepsCached | md_image.py:130-273 | a URL in the cache with non-empty bytes stays so to the end of the loop |
| Handler.AddedRemoteIsCached | md_image.py:160-273 | a remote image the loop adds is cached under its URL with the bytes it was measured from |
| Handler.FirstStepCached | md_image.py:130-273 | a URL the first link leaves cached is cached for every later link and at the end of the loop |
| Handler.AddedRemoteNotRefetched | md_image.py:130-273 | after the loop adds a remote image, a later link with the same URL is served from the cache without a fetch, and the loop ends with the bytes still cached |
| Handler.ShowKeepsCached | md_image.py:94-282 | a URL cached when a show pass starts is still cached for the next pass |
| Handler.UnsizedJpegAborts | md_image.py:232-242 | a local JPEG without a readable size and without custom attributes: as written the pass aborts; corrected it is placed with no size attribute |
| Handler.UnsizedJpegProbe | md_image.py:218-242 | such a link fetches nothing and raises, or, corrected, yields its sizeless phantom at the line end |
| Handler.AddedThenErased | md_image.py:262-279 | as written, a phantom added where a tracked one shares its key stays tracked but is no longer shown |
| Handler.CorrectedKeepsAdded | md_image.py:262-279 | corrected, the phantom added stays tracked and is shown exactly once after the erase loop |
| Handler.HideErasesDisplay | md_image.py:289-292 | after hiding, nothing the plugin tracked for the view is shown |

## Left out

- The Sublime API is not modelled:
  - `find_by_selector`, `substr`, `line`, `add_phantom` and `erase_phantoms`.
  - The settings, the event listener and the two text commands.
  - The link regions and the text are inputs. Host calls are entries of an effect log.
- Network and file I/O (`urlopen`, `read`, `open`) are oracle functions of `Env`.
  - A failed open or read is `None`, which skips the link as the `except` clauses do.
  - An empty body counts as no data.
- `urllib.parse` and `os.path` are uninterpreted functions of `Links.PathLib`. Only the order in which the code calls them is modelled.
- `base64.encodestring` is an uninterpreted function. Only the removal of its newlines is modelled.
- Floating point and number formatting.
  - The scaled height is a real number.
  - The `<img>` tag is kept as structured `Html(src, attr)` rather than formatted text, so `512` and `512.0` are not told apart.
  - For the same reason, a custom attribute typed exactly as `width="100" height="50"` gives the same html text in the plugin as a computed size of 100 x 50, so the plugin takes the phantom as unchanged (md_image.py:262). The model keeps `Custom` and `Dims` apart and sees a new phantom.
  - Float rounding of the scaled height can print two different real heights as the same text. The model compares the real values and sees two phantoms.
- `imghdr` is modelled only by its JPEG (JFIF/Exif), PNG and GIF signature tests, in its own order.
- `debug` output.
- `defaultdict` creating an empty entry on a read is not modelled.
  - The model drops empty entries instead. No operation can tell the two apart.
  - On the path where the pass raises, `Store` also drops the view's entry if the tracked set is empty.
- Set iteration order is left open: `Phantoms.Enumerate` is some listing of the set without repeats.
- Handler.ShowImages: it has no "tracked = displayed" ensures. That property holds only for the corrected variant, and it is stated as `Handler.CorrectedStaysConsistent`. The version as written breaks it (finding 1).

## Findings

| source | as written | input that shows it | evidently intended | confidence | as-written member | corrected member |
|---|---|---|---|---|---|---|
| md_image.py:262-279 | A new phantom is added (267-271), and then the erase loop calls `erase_phantoms(key)` for a stale tracked phantom with the same key (278). That call also removes the new phantom from the display, yet the new phantom stays in the tracked set. A later `show_images` that does not hide first then sees it as unchanged and does not show it; the load and save handlers (md_image.py:67-71) hide first, which clears the tracked set. | Two image links on one line: on every entry point the right link's phantom `(k, hR)` is added first, then the left one's `(k, hL)`, and the erase for the stale `(k, hR)` also removes `(k, hL)`. Also, through the show command (md_image.py:382-392), which does not hide first: an image link edited so that the html changes but the line end does not, the tracked `(k, h1)` being erased after `(k, h2)` is added. | The phantom that replaces an old one on its line stays displayed. Tracked and displayed agree. | not executed | Handler.AddedThenErased | Handler.CorrectedKeepsAdded |
| md_image.py:232-242 | A JPEG whose scan falls short returns `(None, None, 'jpeg')` and passes `if not ttype`. With no custom attribute, `w > 0` compares `None` with `0` and raises `TypeError`. That ends the whole show pass, and the erase loop never runs. | A local file holding `FF D8 FF E0 00 10 'JFIF'`, which is cut off before any frame header. | An image of unknown size is shown without a size attribute, or skipped. It does not abort the pass. | not executed | Handler.UnsizedJpegAborts | Sizing.SizeAttrFixed |
