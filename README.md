# Dicom2DTest viewer logic in Dafny

Dicom2DTest is a one-screen SwiftUI viewer. It loads the `.dcm` files bundled with the app and orders them by a number taken from each file name. It then plays them as a loop at six frames per second. For each frame it draws two grayscale images cut from the raw pixel buffer and shows a three-line caption. This project models the logic in `Dicom2DTest/ContentView.swift` that can be stated without UIKit, Core Graphics or the DICOM parser, and proves properties of it:

- `SwiftText` (`swift_text.dfy`): the Swift standard-library behaviour the viewer relies on.
  - `split(separator:)`, which drops empty pieces.
  - `hasSuffix`.
  - The failable `Int(_:)` initialiser, on a 64-bit platform.
- `FileOrder` (`file_order.dfy`): the selection and ordering of file names.
  - `extractNumber(from:)`, modelled both as written and corrected (see Findings).
  - The `.dcm` filter and the ascending sort by that key in `loadDicomFiles`.
- `SafeIndex` (`safe_index.dfy`): the `Array` extension `subscript(safe:)`.
- `DicomData` (`dicom_data.dfy`): the parsed dataset, seen only through its lookups. These are string tags and `Int16` tags, each a map keyed by tag name.
- `Render` (`render.dfy`): the arithmetic of `imageFromPixelDataLeft` and `imageFromPixelDataRight`.
  - Validation of `Rows` and `Columns`.
  - Width, height, bit depths and bytes per row.
  - The byte range handed to the data provider.
- `Metadata` (`metadata.dfy`): `extractMetadata`, with a reader of the caption as its inverse.
- `Playback` and `ContentView` (`content_view.dfy`): the view's `@State` as a class.
  - The fields `datasets`, `currentIndex`, `timer` and `errorMessage`.
  - The run loop's set of timers that still fire.
  - `startVideoLoop`, `stopVideoLoop`, the timer tick, and `loadDicomFiles` with its append loop.

Runtime traps are modelled explicitly: `fatalError`, an out-of-range subscript, an inverted `Range` and `%` by zero. Each is either a `Trap` result or a `requires` that the code's callers meet. The one exception is the trap in `extractNumber` described under Findings: the ordering uses the corrected key (see "## Left out").

Some facts about the code that the model keeps:

- The code has no recoverable path for bad geometry: a zero or missing `Rows` or `Columns` reaches `fatalError`.
- A tick with no frames traps; the view only starts the timer once frames are loaded.
- `sorted(by:)` with a strict `<` is not promised stable, so no stability is claimed.
- The key is taken from `split` pieces, so empty pieces are skipped and a second piece's first `.`-piece is parsed.

## Model

| member | source | states |
|---|---|---|
| SwiftText.Split | Dicom2DTest/ContentView.swift:215 | every piece of `split(separator:)` is non-empty and free of the separator |
| SwiftText.SplitKeepsText | Dicom2DTest/ContentView.swift:215 | the pieces laid end to end are the input with every separator removed |
| SwiftText.SplitEmptyIff | Dicom2DTest/ContentView.swift:216 | the split is empty exactly when the input consists of separators only |
| SwiftText.SplitJoin | Dicom2DTest/ContentView.swift:215 | splitting the join of non-empty separator-free pieces gives the pieces back |
| SwiftText.ParseInt | Dicom2DTest/ContentView.swift:216 | `Int(_:)` yields a value in the 64-bit range, and only for an optionally signed run of ASCII digits |
| SwiftText.ParseDigits | Dicom2DTest/ContentView.swift:216 | a non-empty digit string that fits in `Int` parses to its decimal value, leading zeros included |
| SwiftText.ParseDecimal | Dicom2DTest/ContentView.swift:216 | every non-negative `Int` parses back from its decimal rendering |
| SwiftText.ParseSigned | Dicom2DTest/ContentView.swift:216 | a leading `+` parses like the bare digits; a leading `-` gives the negated value when it is at least `Int.min` and `nil` below it |
| SwiftText.ParseRejects | Dicom2DTest/ContentView.swift:216 | the empty string, a lone sign and any text containing `.` do not parse |
| SwiftText.ParseRejectsShape | Dicom2DTest/ContentView.swift:216 | text that is not an optionally signed run of ASCII digits does not parse |
| SwiftText.ParseRejectsOverflow | Dicom2DTest/ContentView.swift:216 | a digit run whose value exceeds `Int.max` does not parse |
| SwiftText.HasSuffix | Dicom2DTest/ContentView.swift:186 | `hasSuffix` holds exactly when the string is some prefix followed by the suffix |
| FileOrder.ExtractNumberAsWritten | Dicom2DTest/ContentView.swift:213-220 | traps exactly when there is a second `-` piece made of dots only; otherwise yields an `Int` |
| FileOrder.ExtractNumber | Dicom2DTest/ContentView.swift:213-220 | the corrected key never traps and is always an `Int` |
| FileOrder.ExtractNumberMatchesAsWritten | Dicom2DTest/ContentView.swift:214-220 | the corrected key equals the code's result wherever the code does not trap, and is 0 where it does |
| FileOrder.KeyOfSecondPiece | Dicom2DTest/ContentView.swift:215-217 | a second piece starting with a digit run that ends there or continues with `.` gives that run's value |
| FileOrder.ExtractNumberOfPattern | Dicom2DTest/ContentView.swift:213-217 | every name `X-N.dcm` (label without `-`, digits `N` within `Int`) has key `N` |
| FileOrder.ExtractNumberDocExample | Dicom2DTest/ContentView.swift:213 | `"1-01.dcm"` has key 1 |
| FileOrder.ExtractNumberIgnoresLaterPieces | Dicom2DTest/ContentView.swift:215-216 | in `X-N-…` the pieces after `N` do not affect the key |
| FileOrder.ExtractNumberSkipsEmptyPiece | Dicom2DTest/ContentView.swift:215 | a doubled `-` after the first piece gives the same key as a single one |
| FileOrder.ExtractNumberLeadingDash | Dicom2DTest/ContentView.swift:215-219 | a name `-T` with no other `-` has one piece only and key 0 |
| FileOrder.ExtractNumberLeadingDashSkipped | Dicom2DTest/ContentView.swift:215 | a leading `-` is dropped, so `-T` has the key of `T` for every `T` |
| FileOrder.ExtractNumberSkipsLeadingDot | Dicom2DTest/ContentView.swift:216 | a second piece starting with `.` has the key of the piece without it, since `split` drops the empty piece before that `.` |
| FileOrder.ExtractNumberLeadingDotExample | Dicom2DTest/ContentView.swift:216 | `"a-.5.dcm"` has key 5 |
| FileOrder.ExtractNumberWithoutDash | Dicom2DTest/ContentView.swift:215-219 | a name without `-` has no second piece and key 0 |
| FileOrder.ExtractNumberNoSecondPieceExample | Dicom2DTest/ContentView.swift:215-219 | `"scan.dcm"` has key 0 |
| FileOrder.KeyOfFirstDotPiece | Dicom2DTest/ContentView.swift:215-219 | when the second piece starts with a `.`-free word ended by nothing or `.`, the key is `Int(word)`, or 0 when it does not parse |
| FileOrder.ExtractNumberNonNumeric | Dicom2DTest/ContentView.swift:216-219 | a second piece whose first `.`-piece is not an optionally signed digit run gives key 0 |
| FileOrder.ExtractNumberOverflow | Dicom2DTest/ContentView.swift:216-219 | a second piece whose digit run exceeds `Int.max` gives key 0 |
| FileOrder.ExtractNumberNonNumericExample | Dicom2DTest/ContentView.swift:216-219 | `"a-1x.dcm"` has key 0 |
| FileOrder.ExtractNumberTrapsOnDotPiece | Dicom2DTest/ContentView.swift:216 | every `X-…-rest` whose second piece is all dots traps as written and has corrected key 0 |
| FileOrder.ExtractNumberTrapsOnDots | Dicom2DTest/ContentView.swift:216 | `"a-..-1.dcm"` passes the `.dcm` filter and traps as written |
| FileOrder.IsDicomName | Dicom2DTest/ContentView.swift:186 | a name is kept exactly when it is some stem followed by `.dcm` |
| FileOrder.DicomNames | Dicom2DTest/ContentView.swift:186 | the filter keeps every `.dcm` name as often as it occurs and nothing else |
| FileOrder.Insert | Dicom2DTest/ContentView.swift:188-192 | inserting into a key-ascending list adds exactly one name and keeps it ascending |
| FileOrder.SortBy | Dicom2DTest/ContentView.swift:188-192 | the sort is a permutation of its input, ascending by key |
| FileOrder.SelectDicomFiles | Dicom2DTest/ContentView.swift:186-192 | the names read are exactly the `.dcm` names of the listing, with multiplicity, ascending by `extractNumber` |
| FileOrder.SelectedAscendAsWritten | Dicom2DTest/ContentView.swift:188-192 | when no selected name traps in `extractNumber` as written, the order also ascends by the code's own key |
| SafeIndex.IndicesContain | Dicom2DTest/ContentView.swift:251 | `indices.contains(i)` holds exactly when `0 <= i < count` |
| SafeIndex.Indices | Dicom2DTest/ContentView.swift:251 | `indices` of `n` elements is `0, 1, …, n-1` in order |
| SafeIndex.SafeGet | Dicom2DTest/ContentView.swift:250-252 | `a[safe: i]` is the element `a[i]` when `0 <= i < count`, and `nil` exactly otherwise |
| Render.LeftImage | Dicom2DTest/ContentView.swift:97-113 | traps exactly when `Rows` or `Columns` is missing or not positive; otherwise the whole buffer at `Columns` x `Rows`, 8 bits, rows `2 * width` bytes apart |
| Render.RightImage | Dicom2DTest/ContentView.swift:127-150 | traps on bad geometry or when the buffer is shorter than `2 * (Columns / 2)`; otherwise an even width that is `Columns` rounded down, stride `2 * width`, starting `width` bytes in, on a suffix of the buffer that is left intact |
| Render.Dimension | Dicom2DTest/ContentView.swift:98-99 | `integer16(forTag:) ?? 0`: the tag's `Int16` value when present, 0 when absent |
| Render.MissingGeometryTraps | Dicom2DTest/ContentView.swift:98-103 | a dataset lacking `Rows` or `Columns` is rejected by both renderers |
| Render.HalvesSplitEachRow | Dicom2DTest/ContentView.swift:106-150 | with an even column count both images share size and stride; pixel `(x, y)` is byte `2*Columns*y + x` on the left and `2*Columns*y + Columns + x` on the right |
| Render.FourColumnExample | Dicom2DTest/ContentView.swift:109-150 | 4 columns and 2 rows give a left stride of 8 bytes and a right image 4 bytes in, 4 wide, on the remaining 16 bytes |
| Metadata.CaptionLines | Dicom2DTest/ContentView.swift:88-92 | the caption is its three labelled lines joined by line feeds |
| Metadata.ValueOrUnknown | Dicom2DTest/ContentView.swift:84-86 | the tag's string when present, `Unknown` when absent |
| Metadata.ExtractMetadata | Dicom2DTest/ContentView.swift:83-93 | the caption starts with the patient-name line and a line feed, and ends with a line feed and the study-date line |
| Metadata.MetadataRoundTrip | Dicom2DTest/ContentView.swift:83-93 | when no value contains a line feed, reading the caption back gives patient name, modality and study date, each `Unknown` when its tag is absent |
| Metadata.MissingStudyDate | Dicom2DTest/ContentView.swift:86-91 | a dataset without a study date still gets a caption ending in `Study Date: Unknown` |
| Playback.Remainder | Dicom2DTest/ContentView.swift:166 | Swift's truncating `%` agrees with the Euclidean remainder for a non-negative dividend, and for a negative one is the negated remainder of its magnitude, for any non-zero divisor |
| Playback.NextIndex | Dicom2DTest/ContentView.swift:166 | from a valid cursor, a tick stays in `[0, count)` and moves one on, wrapping from the last frame to the first |
| Playback.Ticks | Dicom2DTest/ContentView.swift:165-166 | repeated ticks from a valid cursor keep it in `[0, count)` |
| Playback.TicksAdvance | Dicom2DTest/ContentView.swift:165-166 | `n` ticks from a valid cursor `i` land on `(i + n) % count` |
| Playback.TicksFromStart | Dicom2DTest/ContentView.swift:166 | from the first frame, `n` ticks show frame `n % count` |
| Playback.SevenTicksOverFive | Dicom2DTest/ContentView.swift:166 | seven ticks over five frames from the start reach frame 2 |
| ContentView.Loaded | Dicom2DTest/ContentView.swift:194-207 | every loaded frame carries a selected name whose read gave exactly its dataset; no more frames than names |
| ContentView.Readable | Dicom2DTest/ContentView.swift:198-206 | the names whose read gives a dataset, in order: each readable name is kept and only readable names are kept |
| ContentView.LoadedIsReadable | Dicom2DTest/ContentView.swift:194-207 | the loaded frames' names are exactly the readable names, in order; a failed read skips only its own file |
| ContentView.LoadedKeepsOrder | Dicom2DTest/ContentView.swift:188-207 | skipping unreadable files keeps the key order of the rest |
| ContentView.LoadedAll | Dicom2DTest/ContentView.swift:194-207 | when every file reads, every selected name is loaded, in order |
| ContentView.ContentViewState.constructor | Dicom2DTest/ContentView.swift:22-25 | the view starts with no frames, cursor 0, no timer, no error and nothing scheduled |
| ContentView.ContentViewState.StopVideoLoop | Dicom2DTest/ContentView.swift:170-173 | unschedules the held timer and clears it; frames and cursor unchanged; with no timer held nothing changes |
| ContentView.ContentViewState.StartVideoLoop | Dicom2DTest/ContentView.swift:163-168 | needs loaded frames, as its only caller is inside the non-empty branch; after stopping, exactly one timer is scheduled, a new one, and it is the one held; frames and cursor unchanged |
| ContentView.ContentViewState.Tick | Dicom2DTest/ContentView.swift:165-167 | a firing of a scheduled timer advances the cursor by `NextIndex` and keeps it valid; the invariant guarantees frames exist, so `%` never divides by zero |
| ContentView.ContentViewState.CurrentFrame | Dicom2DTest/ContentView.swift:37 | the frame on screen exists exactly when frames are loaded and is the one at the cursor |
| ContentView.ContentViewState.LoadDicomFiles | Dicom2DTest/ContentView.swift:177-211 | no resource folder sets the error message; a failed listing changes nothing; otherwise appends the readable frames of the selected, key-ordered names |
| ContentView.ContentViewState.AppendDatasets | Dicom2DTest/ContentView.swift:194-207 | the loop appends, in order, one frame per name whose read gives a dataset, keeping the class invariant |

## Left out

- The SwiftUI `body` (lines 28-79): layout, the placeholder icon and text, and the `onAppear`/`onDisappear` wiring. Only the `datasets[safe: currentIndex]` lookup it makes is modelled, as `CurrentFrame`.
- Timer scheduling: the 1/6 s interval and `Timer.scheduledTimer`. A timer is an object. The run loop's record of timers that still fire is a field of the view, and a firing is a call to `Tick`.
- File-system and parser I/O are inputs to `LoadDicomFiles`: `Bundle.main.resourcePath`, `contentsOfDirectory`, and `DicomInputStream.readDataset`. The reader is a function of the file name. Path joining with `appendingPathComponent` is not modelled.
- `Logger` calls: they have no effect on state.
- `retrieveDataSet` (lines 223-245): it is I/O only, and nothing in the view calls it.
- The `pixelData()` extension: the renderers take the pixel bytes as a parameter, so the element lookup is not modelled. The tag lookups are map lookups over an abstract dataset. The DICOM parser itself is not part of this model.
- Bitmap construction: `CGDataProvider`, `CGImage`, `UIImage`, the `provider!` unwrap, and whether Core Graphics accepts a buffer shorter than the layout needs. So the "no image" result for a short buffer is not modelled, only the layout that is requested.
- FileOrder.SortBy: it fixes one order among names with equal keys (insertion order). Only a permutation that ascends by key is claimed, because `sorted(by:)` with a strict `<` does not promise stability.
- FileOrder.SelectDicomFiles: it sorts by the corrected key, so a listing such as `["a-..-1.dcm", "b-2.dcm"]` loads frames in the model where the code's comparator traps (see Findings). FileOrder.SelectedAscendAsWritten shows the two orders agree whenever the code does not trap.
- ContentView.ContentViewState.LoadDicomFiles: for the same reason it does not model the trap on a name whose second `-` piece is all dots.
- SwiftText.Split: Swift splits a `String` by `Character` (grapheme cluster). The model splits by Unicode scalar. The two can differ when a separator is joined to a neighbour into one `Character`, for example when it is followed by a combining mark or preceded by a prepend character such as U+0600.
- SwiftText.HasSuffix: Swift compares by `Character` as well. A name whose final `.dcm` is joined to a preceding character into one `Character` is kept by the model but may be dropped by Swift.
- Render.RightImage: `Data.subdata(in:)` takes the buffer's own indices. The model's buffer is a sequence indexed from 0, as for a `Data` whose `startIndex` is 0, which is what the parser's element data is assumed to be.
- Metadata.MetadataRoundTrip: it needs values without a line feed. A `PatientName` such as `"A\nB"` makes the caption four lines long, and the reader then gives no result.
- SwiftText.ParseInt: it models `Int(_:)` for a 64-bit `Int`, as on current iOS devices.

## Findings

| source | as written | input that shows it | evidently intended | confidence | as-written member | corrected member |
|---|---|---|---|---|---|---|
| Dicom2DTest/ContentView.swift:216 | `components[1].split(separator: ".")[0]` subscripts an empty array when the second `-` piece is made of dots only, and the process traps | `"a-..-1.dcm"`: it passes the `.dcm` filter, and the sort's comparator traps on it once a second `.dcm` name is present | an unparsable second piece falls back to key 0, like every other unparsable name | not executed; high (follows from `split` dropping empty pieces) | FileOrder.ExtractNumberAsWritten, shown by FileOrder.ExtractNumberTrapsOnDots | FileOrder.ExtractNumber, proved by FileOrder.ExtractNumberMatchesAsWritten and used by the sort |
