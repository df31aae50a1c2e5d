# Dock window preview, modelled in Dafny

This is a model of the logic in dock-window-preview, a macOS helper that
shows live thumbnails of an application's windows when the pointer rests
on the application's dock icon. The model covers four parts:

- **the preview controller** (`lib/preview.js`). A 100 ms poll of the
  pointer decides whether to look up the hovered item's windows, capture
  them and show them as a strip of thumbnails above the dock. Other parts
  are the delayed hide when the pointer leaves the dock, the surface's
  pointer handlers (enter, move, leave, press-to-raise) and what the
  surface paints. Modules `Dock`, `Layout`, `Preview` and
  `PreviewProperties`.
- **the single-window prototype** (`index.js`). It is the predecessor of
  the controller: it previews only the first matching window, tracks it by
  window id, and hides at once. Module `Prototype`.
- **the BMP encoder** `bmp_img_encoder` (`lib/utils.js`). It writes a
  54-byte BITMAPFILEHEADER + BITMAPINFOHEADER for a top-down 32-bit image,
  followed by the pixels. Module `Bmp`.
- **`deep_merge`** (`lib/config.js`). It lays the user's JSON configuration
  over the defaults. Module `Config`.

The native accessibility layer and the window toolkit are not code of
this repository. What they report becomes the inputs of a step:

- the pointer position;
- the element under the pointer;
- the window list;
- the capture of each window (absent when it fails).

What the code asks of them becomes an `Effect` list, in call order:

- list windows;
- capture a window;
- show or hide the surface;
- activate;
- repaint;
- raise a window;
- arm the 500 ms hide timer.

Timers are a pending flag plus an explicit "timer fired" event. Each
handler is a pure function from state and event to the next state and
the effects.

Modelling choices:

- **Positions are integers.** In-view x is a `nat`. Centring is stated
  as `2·x + width`, so an odd dock width needs no halving.
- **Bytes are integers in `[0, 256)`.** A Node `Buffer` write that is
  out of range (`writeUInt32LE`, `writeInt32LE`) throws `RangeError`. It
  is modelled as a `Failure` carrying the first field that does not fit.
- **JSON values are a datatype.** Objects are maps, because the order of
  keys cannot affect the merge. JavaScript's `for…in` over an array or a
  string visits the decimal index keys `"0"`, `"1"`, … and the model
  does the same.

## Model

| member | source | states |
|---|---|---|
| Bmp.FromLEOfLE | lib/utils.js:12-25 | Reading back `n` little-endian bytes written for `v < 256^n` gives `v`. |
| Bmp.LEOfFromLE | lib/utils.js:12-25 | Every `n`-byte sequence is the little-endian encoding of the number it denotes, which is below `256^n`. |
| Bmp.CheckRanges | lib/utils.js:12-17 | Reports no error exactly when the file size and the width fit an unsigned 32-bit field and `-height` fits a signed one. |
| Bmp.TwosComplement | lib/utils.js:17 | The unsigned 32-bit pattern stored for a value in signed range reads back, as two's complement, as that value. |
| Bmp.Pixels | lib/utils.js:27 | The pixel area has exactly the allocated length; byte `i` is the source's byte `i` where one exists and 0 otherwise. A longer source is cut at the end of the buffer. |
| Bmp.HeaderWords | lib/utils.js:12-25 | The fourteen header fields each fit their width, and all are 4 bytes except planes and bits-per-pixel, which are 2. |
| Bmp.Header | lib/utils.js:10-26 | The header is exactly 54 bytes. |
| Bmp.Encode | lib/utils.js:4-30 | For non-negative dimensions, succeeds exactly when every field fits its width, and otherwise fails with the first field written that does not. On success the length is `54 + 4·w·h`, and every byte from 54 on is the pixel data, zero-padded. |
| Bmp.EncodedFileHeader | lib/utils.js:11-14 | Bytes 0-1 are `B`,`M`. The size field at 2 equals the buffer's length. The reserved field at 6 is 0, and the data offset at 10 is 54. |
| Bmp.EncodedDimensions | lib/utils.js:15-17 | The info-header size at 14 is 40 and the width at 18 is `w`. The height at 22, read as a signed 32-bit value, is `-h` (top-down rows). |
| Bmp.EncodedPixelFormat | lib/utils.js:18-21 | Planes at 26 is 1, bits-per-pixel at 28 is 32, compression at 30 is 0, and the image size at 34 is `4·w·h`. |
| Bmp.EncodedTrailingZeros | lib/utils.js:22-25 | Bytes 38 to 53 (resolution and colour counts) are all zero. |
| Bmp.EncodeDecode | lib/utils.js:4-30 | For pixel data of exactly `4·w·h` bytes, decoding the encoded file gives back `w`, `h` (from the negated height) and the pixels. |
| Config.IndexedAt | lib/config.js:15 | `for…in` over an array or a string visits exactly the decimal keys `"0"`…`"n-1"`, each holding the element at that index. |
| Config.OverlayProps | lib/config.js:14-22 | One pass over a source keeps every earlier key, adds every key of the source, and sets each of the source's keys to its merged value; keys the source lacks are unchanged. |
| Config.CopyProps | lib/config.js:14-22 | Merging a single source visits exactly that source's keys and rebuilds its objects and nulls as fresh objects. |
| Config.CopyIsMergeIntoEmpty | lib/config.js:12-18 | Merging a value into an empty object is the same as copying it. This is what the recursive call does first with the earlier value, or `{}` when that is falsy. |
| Config.NestedMergeIsTwoSourceMerge | lib/config.js:16-18 | The value stored for an object-or-null property is exactly the two-source merge of the earlier value (or `{}` when that is falsy) with the new value. |
| Config.DeepMerge | lib/config.js:11-26 | The merge of the sources, laid one after another over `{}`. Its properties are exactly those the `for…in` loops visit in some source. |
| Config.SingleSourceIsCopy | lib/config.js:11-26 | `deep_merge(x)` is a copy of `x`. |
| Config.DeepMergeKeys | lib/config.js:14-15 | A key is in the result if and only if some source has it. |
| Config.LastSourceWins | lib/config.js:19-20 | For a primitive or array value, the last source that defines the key decides the result, and arrays are replaced whole. |
| Config.DeepMergeNullFree | lib/config.js:16-18 | No object of a merge result that is reached without passing through an array holds a null: a null source value takes the object branch and becomes an object. Arrays are kept as given, so a null inside an array, or inside an object within an array, stays. |
| Config.CopyOfNullFree | lib/config.js:11-26 | Copying a null-free object gives the same object back. |
| Config.ObjectsMergeRecursively | lib/config.js:16-18 | A later plain object over an earlier one keeps the keys of both. Later primitives and arrays win, earlier-only values are copied, and nested objects are merged by the same two-source merge. |
| Config.NullDoesNotOverride | lib/config.js:16-18 | A null over an earlier (null-free) object leaves it unchanged. A null over any other truthy earlier value (a string, a number, `true`, an array) replaces it with the object of that value's `for…in` properties, so `"ab"` becomes `{"0":"a","1":"b"}` and `5` becomes `{}`. A null with nothing or a falsy value before it becomes `{}`. |
| Config.NullKeepsMergedObject | lib/config.js:14-18 | When the last source sets a key to null, the key keeps the object the earlier sources built. |
| Config.EarlierArrayBecomesIndexed | lib/config.js:16-18 | An earlier array under a later object is not replaced. Its indices become keys of the merged object, next to the later object's keys. |
| Config.MergeWithEmptyCustom | lib/config.js:39-68 | Null-free defaults merged with the empty fallback configuration give the defaults back. |
| Config.OverlaySelf | lib/config.js:14-22 | Laying a null-free object over itself leaves it unchanged. |
| Config.MergeWithItself | lib/config.js:34-68 | Null-free defaults merged with a configuration file freshly written from them give the defaults back. |
| Dock.ResolveName | lib/preview.js:190 | The name is the alias when the title has a non-empty alias, and the title otherwise. |
| Dock.Matches | lib/preview.js:206 | A window is kept if and only if its owner name equals the name, and the kept windows are in window-list order. |
| Dock.MatchesCounts | lib/preview.js:206 | `filter` keeps every copy of a window with the name, duplicates included, and no copy of any other window. |
| Dock.FirstMatch | index.js:90 | Finds nothing exactly when no window has the name. Otherwise it finds a window with the name, and no window before it has that name. |
| Dock.FirstMatchIsFirstOfMatches | index.js:90 | The prototype's `find` picks the first window the controller's `filter` keeps. |
| Dock.Captured | lib/preview.js:208-238 | A thumbnail is kept exactly for each matched window whose capture succeeded, and there are never more thumbnails than matched windows. The thumbnails keep the order of the matched windows, since `map` and `filter` both preserve order. |
| Dock.CapturedCounts | lib/preview.js:208-238 | Each window id appears among the thumbnails exactly as often as among the matched windows when its capture succeeded, and not at all when it failed. |
| Dock.CaptureCalls | lib/preview.js:208-211 | One capture per matched window, in the order of the matches. |
| Layout.MouseToPreviewIndex | lib/preview.js:25-27 | The index is the 240-pixel cell the position falls in. |
| Layout.IndexInRange | lib/preview.js:25-27 | The index names one of `n` thumbnails if and only if `x < 240·n`. |
| Layout.SameCell | lib/preview.js:25-27 | A position inside cell `i` maps to index `i`. |
| Layout.RightMarginIsOnePastTheEnd | lib/preview.js:82-85 | Every position in `[240·n, 240·n+10)` maps to index `n`, one past the last thumbnail. That band is the strip's last 5 pixels plus the 5-pixel right margin, because the hit test ignores the left margin. |
| Layout.HighlightUnderPointer | lib/preview.js:138-142 | The highlight is drawn at the cell the pointer selects, shifted 5 pixels right. Across the strip's height it covers the pointer if and only if the pointer is at least 5 pixels into its cell (`x mod 240 ≥ 5`). |
| Layout.SurfaceBounds | lib/preview.js:82-86 | The surface is `240·n + 10` wide and 210 high. It is horizontally centred on the dock item (`2·x + w = 2·dock.x + dock.width`), and its bottom edge is 50 pixels above the item. |
| Layout.ContentOnSurface | lib/preview.js:131-147 | The background strip lies on the surface, and the border lies on the strip. |
| Layout.ThumbInCell | lib/preview.js:135-155 | Thumbnail `i` of `n` lies in highlight cell `i`, and the cell lies on the background strip. |
| Layout.ThumbsLeftToRight | lib/preview.js:150-155 | Thumbnails run strictly left to right with a 40-pixel gap and never overlap. |
| Layout.ThumbSelectsItsIndex | lib/preview.js:150-155 | A pointer over thumbnail `i` selects index `i`. |
| Preview.HidePreview | lib/preview.js:57-66 | Does nothing when no pid is tracked. Otherwise it cancels the pending hide, clears `showing`, the name and the pid, and makes exactly one call, `setVisible(false)`. The thumbnails, the dock item and the pointer bookkeeping are kept either way. |
| Preview.HidePreviewDelay | lib/preview.js:49-55 | Arms the timer, and makes a hide pending, exactly when none is pending and a pid is tracked. Nothing else changes. |
| Preview.ShowPreview | lib/preview.js:68-93 | Leaves the preview showing with no hide pending. The given pid, thumbnails and dock item are stored, and the surface is shown at the bounds for that many thumbnails. |
| Preview.OnPointerDownAsWritten | lib/preview.js:120-127 | The press throws if and only if its index is not that of an existing thumbnail. |
| Preview.OnPointerDown | lib/preview.js:120-127 | The corrected press: one whose index names no thumbnail leaves everything as it is. |
| Preview.OnDockItem | lib/preview.js:187-255 | Over the item last looked up, nothing happens. Otherwise the item's name is recorded, unless a tracked preview is hidden, which clears it. The thumbnails change only when the preview is then showing, with at least one thumbnail. Pointer bookkeeping is untouched and no hide timer is armed. |
| Preview.OnTick | lib/preview.js:169-265 | With the pointer over the surface or unmoved, nothing happens. Otherwise the pointer is recorded. Off the dock, the visibility and thumbnails stay, and a hide becomes pending exactly when the preview is showing, tracked and none is pending. |
| Preview.Step | lib/preview.js:95-127 | Only entering and leaving the surface change whether the pointer is inside. Only a pointer move changes the in-view position. Only a poll changes the thumbnails or the recorded pointer, or arms the hide timer. The timer firing with no hide pending does nothing. A press is handled by the corrected `Preview.OnPointerDown`. |
| Preview.Draw | lib/preview.js:129-158 | Paints exactly when there are thumbnails, one per thumbnail in order, each with its own capture. |
| PreviewProperties.InitialInv | lib/preview.js:29-38 | The controller starts hidden, with no hide pending and no name, satisfying the invariant. |
| PreviewProperties.StepPreservesInv | lib/preview.js:49-265 | Every handler keeps the invariant: a pending hide implies a visible, tracked session, and a visible session has thumbnails. |
| PreviewProperties.VisibleAfterQuietPrefix | lib/preview.js:200-211 | Window-list and capture calls do not change the surface's visibility. |
| PreviewProperties.ShowingMirrorsSurface | lib/preview.js:57-265 | After any event, `showing_preview` equals the surface's visibility as set by that event's show and hide calls. |
| PreviewProperties.PollIgnoredWhilePointerInside | lib/preview.js:173-175 | While the pointer is over the surface, a poll changes nothing and calls nothing. |
| PreviewProperties.PollIgnoredWhenPointerStill | lib/preview.js:177-181 | A poll at the previous pointer position changes nothing and calls nothing. |
| PreviewProperties.SameItemOnlyRecordsPointer | lib/preview.js:183-196 | Hovering the item last looked up only records the new pointer position. It makes no native call, and a pending hide stays pending. |
| PreviewProperties.ProviderCallsOnlyForNewItem | lib/preview.js:187-211 | The window list and captures are fetched only when the pointer has moved onto a running dock item other than the last one, and then in the order: list, then one capture per match. |
| PreviewProperties.HoverShowsMatchingWindows | lib/preview.js:190-246 | A new running item with a capturable window shows the captured matches in list order, for the pid of the first matching window, centred over the item. It cancels any pending hide. |
| PreviewProperties.FailedCapturesKeepSurface | lib/preview.js:207-246 | When every capture fails, nothing is shown or hidden; only the pointer and the item's name are recorded. |
| PreviewProperties.NothingToShowHidesAtOnce | lib/preview.js:200-255 | A non-running item, or one with no window, hides a tracked preview at once. An untracked one is left as it is. |
| PreviewProperties.LeavingDockArmsHide | lib/preview.js:256-264 | Moving off the dock arms the delayed hide exactly when the preview is visible, tracked and not already pending, and hides nothing yet. |
| PreviewProperties.HideTimerArmedOnlyWhenIdle | lib/preview.js:49-55 | The hide timer is armed only by a poll, only when no hide is pending, and only for a visible tracked session. |
| PreviewProperties.HideTimerHides | lib/preview.js:53-66 | When the pending hide fires it hides the surface and clears the session. |
| PreviewProperties.EnteringCancelsHide | lib/preview.js:95-108 | Entering the surface cancels a pending hide and reactivates the surface, without changing what is shown. |
| PreviewProperties.PreviewStaysWhileHovered | lib/preview.js:95-175 | After the pointer enters the surface, any run of polls, pointer moves and timer firings leaves the session, its thumbnails and its visibility as they were. |
| PreviewProperties.PressRaisesThumbUnderPointer | lib/preview.js:120-127 | Pressing thumbnail `i` raises exactly window `i`, passing its position, and then hides a tracked preview. |
| PreviewProperties.PressAgreesWithAsWritten | lib/preview.js:120-127 | For every press with `x < 240·n`, the corrected handler does what the handler as written does. |
| PreviewProperties.MarginPressFaults | lib/preview.js:120-124 | As written, a press with `x ≥ 240·n` on the surface throws, naming the missing thumbnail `n`. That covers the strip's last 5 pixels and the 5-pixel right margin. |
| PreviewProperties.MarginPressExample | lib/preview.js:120-124 | With one thumbnail, a press at x = 245 (right margin) and one at x = 242 (on the painted strip) both throw as written and are ignored when corrected. |
| PreviewProperties.DrawLaysOutThumbs | lib/preview.js:129-158 | The painted strip lies on the surface. The highlight is drawn at the cell the pointer's index selects, and covers the pointer exactly when it is at least 5 pixels into that cell. Each thumbnail is in its own cell and on the strip, and thumbnails never overlap. |
| PreviewProperties.ShowingPaints | lib/preview.js:130 | A visible session always has something to paint. |
| Prototype.Tick | index.js:76-109 | An unmoved pointer changes nothing. Otherwise the pointer is recorded, and a previewed window id is always a window of the hovered running item's aliased name. A capture is made only when that id changes, and the capture (or null) becomes the preview. |
| Prototype.Draw | index.js:28-65 | Paints exactly when a capture is held, and paints that capture. |
| Prototype.StillPointerIgnored | index.js:77-80 | A poll at the previous pointer position changes nothing and calls nothing. |
| Prototype.NewWindowIsCaptured | index.js:85-100 | The first window, in list order, owned by the item's aliased name is captured once. Its capture (or null), its id and the item's position are recorded, and a repaint is requested. |
| Prototype.SameWindowNotRecaptured | index.js:91-92 | When the first match is the window already previewed, the windows are listed but nothing is captured or repainted; only the pointer is recorded. |
| Prototype.NothingToPreviewHides | index.js:85-108 | Off the dock, over a non-running item, or with no matching window: the surface is hidden at once and the window id forgotten, with no capture. |
| Prototype.DrawGeometry | index.js:30-63 | The surface is a 210-pixel square centred on the item, with its bottom edge 50 pixels above it. The background is `(5, 5, 200, 200)`, the border `(5, 5, 198, 198)` and the image `(25, 25, 160, 160)`; all three lie inside the surface. |
| Prototype.PlacedLikeController | index.js:35-38 | For the same item, the prototype's surface has the same top edge, height and horizontal centre as the controller's one-thumbnail surface. |
| Prototype.PreviewsControllerPrimaryWindow | index.js:89-90 | The window the prototype previews is the first window the controller would keep for the same item. |

## Left out

- The native accessibility layer (`axlib`) and the window toolkit (`gui`): window creation, painter calls, colours and images. Their results are step inputs and their calls are effects.
- PNG conversion (`pngjs`) of captures and the toolkit image built from it (lib/preview.js:215-225, index.js:43-47, 60). A capture is an opaque value; its pixel data is not looked at.
- Real timers: the 100 ms poll and the 500 ms hide are events. The one-off `setVisible(false)` 100 ms after start-up (lib/preview.js:165-167, index.js:72-74) is not modelled; the model starts hidden.
- `load_config`/`init` in lib/config.js: file-system access, `JSON.parse`, file watching and the error window. The merge results for their two inputs, the empty fallback and a freshly written defaults file, are covered by `Config.MergeWithEmptyCustom` and `Config.MergeWithItself`.
- The `Component` class in lib/utils.js. lib/permissions.js, lib/tray.js, lib/login.js and lib/debug.js are not part of this model (permission dialogs, menus, login-item files, logging).
- Fractional coordinates. Positions are integers and the in-view x is a `nat`, so `parseInt`'s truncation is the floor. The fractional surface x is kept doubled.
- JSON numbers are integers; floating point is not modelled. Alias values are strings. A non-string alias, or a title that names an inherited property such as `constructor`, is not modelled.
- Aliasing between the merge result and its sources: the model has immutable values. The source builds fresh objects but assigns arrays by reference (lib/config.js:20), so a later mutation of an array in the result is shared with the source configuration. The model cannot express that sharing.
- Config.DeepMerge: `for…in` over a string visits UTF-16 code units, while a Dafny `char` is a Unicode scalar value. A string holding a character outside the Basic Multilingual Plane gets one index key in the model and two in JavaScript.
- Config.DeepMerge: a `"__proto__"` key goes through the prototype setter at lib/config.js:17-20, so JavaScript stores no own property for it. The model stores it as an ordinary key.
- Preview.Step: a press is handled by the corrected `Preview.OnPointerDown`, so `PreviewProperties.StepPreservesInv`, `PreviewProperties.ShowingMirrorsSurface` and the other run lemmas are about the corrected controller. As written, the press throws at lib/preview.js:124, before any assignment or call. This assumes that the window toolkit's event dispatch catches the `TypeError` and the process keeps running; the state is then the same as the corrected handler leaves it, and those lemmas carry over. Under Node's default handling of an uncaught exception the process would exit instead, which the model does not represent.
- The largest `Buffer` the runtime can allocate: only the 32-bit field limits are modelled.
- Bmp.Encode: the width and height are `nat`, so negative dimensions are not modelled. As written, they mostly throw `RangeError`: at the allocation (lib/utils.js:8) when the size is negative, at the width write (lib/utils.js:16), at the image-size write (lib/utils.js:21), or at whichever write first runs past the end of a buffer shorter than 54 bytes. A zero width with a negative height is accepted, and its height is stored as a bottom-up (positive) value. Capture sizes reported by the native layer are never negative.
- Config.NullDoesNotOverride: the object case is stated for earlier objects without nulls outside arrays, which is what every merge result is (`Config.DeepMergeNullFree`). A null over a raw earlier source object holding nulls gives that object's copy, which differs from it.
- PreviewProperties.SameItemOnlyRecordsPointer: a poll over the same item is not a complete no-op, because the previous pointer position is updated first (lib/preview.js:183). The lemma states exactly that change. Prototype.SameWindowNotRecaptured likewise records the pointer (index.js:82).
- The pid is compared by JavaScript truthiness: a pid of 0 counts as untracked, so `hidePreview` ignores it. `PreviewProperties.LeavingDockArmsHide` carries this condition.

## Findings

| source | as written | input that shows it | evidently intended | confidence | as-written member | corrected member |
|---|---|---|---|---|---|---|
| lib/preview.js:120-127 | The press handler indexes `current_windows` with `MouseToPreviewIndex(x)` without a bound check. The hit test ignores the 5-pixel left margin and the surface is 10 pixels wider than the cells (lib/preview.js:85). So a press with `x ≥ 240·n` — the strip's last 5 pixels or the right margin — reads `.id` of `undefined`, and the resulting `TypeError` escapes the handler. | One thumbnail (surface 250 wide), press at view x = 245, or at x = 242 on the strip: index 1, `current_windows[1]` is undefined. | A press whose index names no thumbnail is ignored. | medium; not executed | PreviewProperties.MarginPressExample | Preview.OnPointerDown |
