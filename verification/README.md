# Signal Inspector core, modelled in Dafny

Signal Inspector is a desktop tool for reverse-engineering digital radio
signals. It takes a recording through a spectrogram and a demodulator, then
slices the analog envelope into integer symbols and recovers the symbol
clock. The Inspector tab turns those symbols into a bit string that can be
searched, aligned and exported. This project models the parts of that
pipeline that are logic rather than signal processing:

- `slicer.dfy` (module `Slicer`): `slice_signal`, thresholding with the
  semantics of `np.digitize`. Samples are modelled as exact reals.
- `clock_sync.dfy` (module `ClockSync`): the edge-snapping loop of
  `find_clock_sync`, over integer sample indices.
- `line_decoder.dfy` (module `LineDecoder`): `invert_symbols`,
  `decode_differential` (NRZ-I) and `decode_manchester_string` (IEEE 802.3
  and G.E. Thomas conventions). Each comes with a reference encoder it is
  proved to invert.
- `mosaic_plan.dfy` (module `MosaicPlan`): the window-start planner of
  `compute_mosaic_spectrogram`.
- `spectrogram_budget.dfy` (module `SpectrogramBudget`): the read-range and
  RAM-budget decision of `refresh_spectrogram`.
- `mapping_presets.dfy` (module `MappingPresets`): the Binary and Gray
  symbol-to-bits presets and the default map of `load_input`.
- `bit_stream.dfy` (module `BitStream`): the bit-string side of the
  Inspector. This covers packing into bytes for the hex view and the binary
  export, the hex table layout, hex-pattern expansion, the wrapping
  substring search, and the alternating-byte highlighter.
- `inspector.dfy` (module `Inspector`): the Inspector tab as a class.
  - Its fields are the loaded symbols, the mapping table, the logic
    options, the editor text and cursor, the bytes behind the hex table and
    the hex table's current cell.
  - Its methods are the tab's slots: `load_input`, `set_mapping_preset`,
    `apply_mapping`, `update_hex_view`, both highlight synchronisers,
    `find_pattern`, `align_pattern` and `export_data`.
  - A Qt signal that runs a slot is modelled as a call of that slot's
    method.
- `arith.dfy` (module `Arith`) and `wrappers.dfy` (module `Wrappers`):
  shared helpers. `Arith` holds facts about Euclidean remainders; `Wrappers`
  holds `Option` and `Result`.

Each loop of the source (the clock-recovery loop, byte packing, hex
expansion, the highlighter loop, the Manchester chunk loop and the table
fill) is a method with loop invariants. Each such method is proved equal to
a specification function, and the properties are proved about that
function.

An exception the source raises is modelled as an `Err` result carrying a
fixed prefix of Python's message. Examples are a symbol without a table row
and a non-binary export. An early `return` or a `None` result is modelled as `None`.

One point where the code and its design description differ: the design
says that a symbol with no row in the mapping table is left blank. In the
code, `full_text_arr` keeps `None` for such a symbol and `"".join` raises a
`TypeError`. The model follows the code: `MapSymbols` and `ApplyMapping`
return the error, and the editor keeps its text.

## Model

| member | source | states |
|---|---|---|
| Slicer.SliceSignal | utils/dsp_lib.py:126-136 | succeeds exactly when the thresholds are empty, increasing or decreasing; one level per sample; every level lies between 0 and the number of thresholds (1 for the mean default) |
| Slicer.Digitize | utils/dsp_lib.py:136 | the level of one sample never exceeds the number of bins |
| Slicer.AscendingBin | utils/dsp_lib.py:136 | with increasing thresholds, level k means every threshold before k is at or below the sample and every threshold from k on is above it |
| Slicer.DescendingBin | utils/dsp_lib.py:136 | with decreasing thresholds, level k means the first k thresholds are above the sample and the rest are at or below it |
| Slicer.CountLeMonotone | utils/dsp_lib.py:136 | with increasing bins, a larger sample never gets a lower level |
| Slicer.CountGtAntitone | utils/dsp_lib.py:136 | with decreasing bins, a larger sample never gets a higher level |
| Slicer.SliceMonotone | utils/dsp_lib.py:126-136 | with increasing thresholds, samples in order get levels in the same order |
| Slicer.SliceDefaultIsMean | utils/dsp_lib.py:129-132 | with no thresholds, a sample gets level 1 exactly when it is at or above the mean, and level 0 otherwise |
| ClockSync.NearestChange | utils/dsp_lib.py:232-242 | a found change lies inside the window |
| ClockSync.NearestChangeSpec | utils/dsp_lib.py:233-242 | finds nothing exactly when the window has no transition; otherwise finds a transition at least as near the target as any other, and strictly nearer than every earlier one (argmin keeps the first of a tie) |
| ClockSync.Step | utils/dsp_lib.py:224-246 | a new cursor moves strictly forward, stays below the limit and lands strictly within the search radius of the prediction |
| ClockSync.Sync | utils/dsp_lib.py:223-248 | the loop as a function: at most budget symbols are added; every symbol advances the cursor by at least one sample; the cursor stays below the limit once a symbol is added; a cursor already at the limit adds nothing |
| ClockSync.Advance | utils/dsp_lib.py:224-246 | one pass of the loop body computes exactly Step |
| ClockSync.Walk | utils/dsp_lib.py:223-249 | the while loop with its break returns exactly the final cursor and count of Sync |
| ClockSync.FindClockSync | utils/dsp_lib.py:221-251 | success is always reported; the result is Sync with the 10000-symbol cap; count at most 10000; the cursor advances at least one sample per symbol and stays below the limit when anything was added; a start at the limit changes nothing |
| ClockSync.StepStops | utils/dsp_lib.py:224-230 | the loop breaks exactly when the prediction reaches the limit or the clipped window is empty |
| ClockSync.StepSnaps | utils/dsp_lib.py:237-243 | when the window holds a transition, the new cursor is a transition inside the window, at least as near the prediction as any other, and strictly nearer than every earlier one |
| ClockSync.StepCoasts | utils/dsp_lib.py:244-246 | with no transition in the window, the cursor advances by exactly the width estimate |
| LineDecoder.InvertSymbols | utils/dsp_lib.py:253-254 | same length; each output plus its input is m - 1; in-range symbols stay in range |
| LineDecoder.InvertInvolution | utils/dsp_lib.py:253-254 | inverting twice gives the original stream back |
| LineDecoder.DecodeDifferential | utils/dsp_lib.py:256-268 | same length; the first output is 0; every output lies in [0, m) |
| LineDecoder.DecodeDifferentialWraps | utils/dsp_lib.py:262-263 | the documented wrap: 0 - 1 becomes 3 modulo 4, so the stream 1, 0 decodes to 0, 3 |
| LineDecoder.DecodeOfEncode | utils/dsp_lib.py:256-268 | decoding a running-sum encoding gives back every symbol after the first; the first becomes 0 |
| LineDecoder.EncodeOfDecode | utils/dsp_lib.py:256-268 | re-encoding the decoded stream, seeded with the first symbol, reproduces the original stream when its later symbols lie in [0, m) |
| LineDecoder.PairValue | utils/dsp_lib.py:280-293 | a chunk decodes to '0', '1' or 'E', and to 'E' exactly when it is neither "10" nor "01" |
| LineDecoder.ManchesterDecode | utils/dsp_lib.py:270-295 | for a known scheme the output has one character per whole chunk; for any other scheme the output is the input cut to even length |
| LineDecoder.ManchesterDecodeAt | utils/dsp_lib.py:277-293 | output character i is the decoded chunk at positions 2i and 2i+1 |
| LineDecoder.DecodeManchesterString | utils/dsp_lib.py:270-295 | the trim, the scheme fallback and the chunk loop compute exactly ManchesterDecode |
| LineDecoder.DecodePairs | utils/dsp_lib.py:290-293 | the chunk loop emits, for every chunk, its PairValue |
| LineDecoder.ManchesterRoundTrip | utils/dsp_lib.py:270-295 | Manchester-encoding a bit string and decoding it with the same scheme gives it back |
| LineDecoder.ManchesterExample | utils/dsp_lib.py:280-293 | "1010" IEEE-encodes to "10011001" and decodes back; a "11" chunk decodes to 'E' in place |
| LineDecoder.ManchesterViolations | utils/dsp_lib.py:290-293 | each output is '0', '1' or 'E', and it is 'E' exactly where the chunk is neither "10" nor "01" |
| LineDecoder.ThomasComplementsIeee | utils/dsp_lib.py:280-285 | Thomas decodes every chunk to the complement of the IEEE result and marks the same violations |
| MosaicPlan.ArangeElements | utils/dsp_lib.py:41 | element j of np.arange is lo + j*step and lies in [lo, hi) |
| MosaicPlan.ArangeExtent | utils/dsp_lib.py:41 | the range is empty exactly when lo >= hi; one step past its last element reaches hi |
| MosaicPlan.Stride | utils/dsp_lib.py:36-38 | the stride is a whole, positive number of FFT windows |
| MosaicPlan.PlanEmpty | utils/dsp_lib.py:33-47 | there is no image exactly when the range holds at most fft_size samples (so exactly fft_size samples gives no window) |
| MosaicPlan.PlanWindowsInside | utils/dsp_lib.py:36-45 | 1 to target_width windows; window j starts at start + j*stride; every window lies inside the range; no two windows overlap |
| MosaicPlan.PlanCovers | utils/dsp_lib.py:41-44 | when the plan is not cut, its last window is within one stride of stop - fft_size |
| SpectrogramBudget.MaxSamples | tabs/spectrogram_tab.py:225-226 | the sample budget times 8 bytes is exactly the RAM limit in bytes |
| SpectrogramBudget.PlanRead | tabs/spectrogram_tab.py:218-264 | every range that is read lies inside the recording and is non-empty |
| SpectrogramBudget.PlanSkips | tabs/spectrogram_tab.py:218-221 | the range is clamped to [max(0, start), min(length, stop)), and nothing is computed exactly when that range is empty |
| SpectrogramBudget.PlanWithinBudget | tabs/spectrogram_tab.py:231-234 | a clamped range within budget is read whole, whatever the sparse option |
| SpectrogramBudget.PlanClamps | tabs/spectrogram_tab.py:240-244 | over budget without the sparse option, exactly max_samples samples are read from the start of the clamped range, a strict prefix of it |
| SpectrogramBudget.PlanMosaic | tabs/spectrogram_tab.py:254-264 | over budget with the sparse option, the mosaic plans the whole clamped range; the image is kept unless that range holds more than fft_size samples; all windows lie inside it |
| SpectrogramBudget.PlanBounded | tabs/spectrogram_tab.py:228-264 | a contiguous read never exceeds the budget; the mosaic reads at most 2000 windows |
| MappingPresets.BitsPerSymbol | tabs/inspector_tab.py:257 | ceil(log2(rows)) is the least n with 2^n >= rows |
| MappingPresets.PresetTable | tabs/inspector_tab.py:255-266 | one cell per table row |
| MappingPresets.GrayBelow | tabs/inspector_tab.py:262-263 | the Gray code of an n-bit level fits in n bits |
| MappingPresets.GrayInjective | tabs/inspector_tab.py:262-263 | distinct levels get distinct Gray codes |
| MappingPresets.GrayAdjacent | tabs/inspector_tab.py:262-263 | the Gray codes of consecutive levels differ in exactly one bit |
| MappingPresets.PresetCells | tabs/inspector_tab.py:257-266 | every preset cell is binary and reads back as the level's code; with two or more rows it has exactly ceil(log2(rows)) digits; a single row gets "0" |
| MappingPresets.PresetDistinct | tabs/inspector_tab.py:259-266 | no two rows of a preset hold the same cell |
| MappingPresets.DefaultIsBinary | tabs/inspector_tab.py:242-247 | the default cell of load_input is the Binary preset cell for max_sym + 1 rows |
| BitStream.Without | tabs/inspector_tab.py:320 | the stripped text contains none of the removed characters and is no longer than the input |
| BitStream.Pad | tabs/inspector_tab.py:321-322 | the padded string is the input followed by fewer than 8 characters, and its length is a multiple of 8 |
| BitStream.PadBinary | tabs/inspector_tab.py:454-455 | the padded text is binary exactly when the text is: zero padding neither adds nor removes a bad digit |
| BitStream.ByteBound | tabs/inspector_tab.py:329 | int(chunk, 2) of an 8-digit chunk is below 256 |
| BitStream.BinValueInjective | tabs/inspector_tab.py:329 | binary strings of the same length with the same value are equal |
| BitStream.FormatBinValue | tabs/inspector_tab.py:245-246 | "{:b}" formatting yields a binary string that int(_, 2) reads back as the value |
| BitStream.BinValueFormat | tabs/inspector_tab.py:245-246 | formatting the value of a binary string at its own width gives the string back |
| BitStream.FormatFixedLength | tabs/inspector_tab.py:265-266 | a value below base^width is formatted with exactly width digits |
| BitStream.PackChunks | tabs/inspector_tab.py:325-331 | at most one byte per 8-character chunk (a non-binary chunk is skipped) |
| BitStream.PackBound | tabs/inspector_tab.py:329 | every packed byte is below 256 |
| BitStream.PackBinary | tabs/inspector_tab.py:325-331 | a binary string packs to exactly one byte per chunk, byte k being the value of chunk k |
| BitStream.PackBytes | tabs/inspector_tab.py:320-331 | the loop of update_hex_view computes exactly the bytes of the stripped, padded text |
| BitStream.PackPadded | tabs/inspector_tab.py:325-331 | the packing loop with its bare except computes exactly PackChunks |
| BitStream.ExportBin | tabs/inspector_tab.py:445-458 | the binary export computes exactly its specification, raising on a non-binary chunk |
| BitStream.PackStrict | tabs/inspector_tab.py:456-458 | the export loop yields the packed bytes when every chunk is binary, and otherwise int()'s error |
| BitStream.ExportRoundTrip | tabs/inspector_tab.py:453-458 | the export succeeds exactly when the text is binary; its bytes number ceil(len/8) and unpack to the text followed by padding zeros |
| BitStream.UnpackPack | tabs/inspector_tab.py:456-458 | unpacking the packed bytes of a padded binary string gives the string back |
| BitStream.CellOf | tabs/inspector_tab.py:362-364 | the hex column of a byte is in 1..16 |
| BitStream.CellRoundTrip | tabs/inspector_tab.py:362-364 | byte index to (row, col) and back is the identity in both directions; an existing byte's row exists in the table |
| BitStream.AsciiChar | tabs/inspector_tab.py:347-348 | printable bytes 32..126 show as themselves, every other byte as '.' |
| BitStream.RowLength | tabs/inspector_tab.py:342-350 | a row shows at most 16 bytes, all of them existing, and fewer only at the end of the data |
| BitStream.HexTable | tabs/inspector_tab.py:334 | the table has ceil(bytes/16) rows |
| BitStream.RenderRowShows | tabs/inspector_tab.py:343-348 | a row's cell and ASCII character at a column show that byte |
| BitStream.HexTableShows | tabs/inspector_tab.py:336-352 | every byte appears, as two hex digits and as its ASCII character, at its (row, col) cell |
| BitStream.HexDigitValue | tabs/inspector_tab.py:405 | int(c, 16) of one digit is below 16 |
| BitStream.ExpandHex | tabs/inspector_tab.py:401-407 | the expansion loop computes exactly the specification, stopping at the first bad digit |
| BitStream.ExpandHexStuck | tabs/inspector_tab.py:402-410 | once a prefix has a bad digit, the whole pattern is rejected |
| BitStream.ExpandHexSome | tabs/inspector_tab.py:401-410 | the expansion succeeds exactly when every character is a hex digit |
| BitStream.ExpandHexShape | tabs/inspector_tab.py:404-406 | an expanded pattern is binary, has four bits per digit, and nibble k reads back as digit k |
| BitStream.Find | tabs/inspector_tab.py:419 | str.find's result is -1 or a position at or after the start whose match fits in the text |
| BitStream.FindSpec | tabs/inspector_tab.py:419 | a result other than -1 is a match with no earlier match from the start; -1 means there is no match from the start |
| BitStream.FindWrappedFinds | tabs/inspector_tab.py:419-421 | -1 exactly when the pattern does not occur; otherwise a match, the first one at or after the cursor, or else the first one in the text |
| BitStream.HighlightBlock | tabs/inspector_tab.py:30-34 | the loop formats exactly the spans SpanAt(n, j), one per i in range(8, n, 16) |
| BitStream.SpanCountAt | tabs/inspector_tab.py:32 | span j exists exactly when its start 8 + 16j is inside the line |
| BitStream.HighlightSpans | tabs/inspector_tab.py:31-34 | every span is non-empty, ends inside the line, and ends before the next one starts |
| BitStream.HighlightCovers | tabs/inspector_tab.py:31-34 | a character is highlighted exactly when it lies in an odd 8-character group |
| Inspector.Scheme | tabs/inspector_tab.py:305-308 | both Manchester entries pass a scheme that decode_manchester_string knows |
| Inspector.Processed | tabs/inspector_tab.py:274-283 | same length; after differential decoding, or on in-range input, the symbols are in range of the table |
| Inspector.MapSymbols | tabs/inspector_tab.py:285-302 | the join succeeds exactly when every symbol has a row, and otherwise raises the TypeError |
| Inspector.MapChunks | tabs/inspector_tab.py:289-302 | with cells of one width w, the bit string has w characters per symbol and chunk k is the cell of symbol k |
| Inspector.MapInjective | tabs/inspector_tab.py:289-302 | with distinct cells of one non-zero width, two streams that map to the same bits are the same stream |
| Inspector.PresetDecodable | tabs/inspector_tab.py:255-302 | under either preset the bit string determines the symbol stream |
| Inspector.RenderBits | tabs/inspector_tab.py:270-308 | the editor text is produced exactly when every processed symbol has a row, and always with differential decoding on |
| Inspector.Render | tabs/inspector_tab.py:274-308 | the mapping code computes exactly RenderBits |
| Inspector.NrziMarksChanges | tabs/inspector_tab.py:132-134 | with two levels, the Binary preset and differential decoding, bit k is '1' exactly when symbol k differs from symbol k-1 |
| Inspector.DifferentialBit | utils/dsp_lib.py:256-268 | with two levels the differential output marks exactly the changes |
| Inspector.MaxSymbol | tabs/inspector_tab.py:233-234 | the maximum bounds every symbol and is attained |
| Inspector.MaxLevel | tabs/inspector_tab.py:233-234 | every symbol has a row among max_sym + 1, and max_sym is attained when there are symbols (1 for an empty stream) |
| Inspector.LoadedTable | tabs/inspector_tab.py:236-247 | the table has max_sym + 1 rows and every row has a cell |
| Inspector.FillTable | tabs/inspector_tab.py:236-247 | the row loop computes exactly LoadedTable |
| Inspector.LoadKeepsCells | tabs/inspector_tab.py:242-243 | a cell already in the table survives a reload |
| Inspector.FreshLoadIsBinary | tabs/inspector_tab.py:242-247 | loading into an empty table writes the Binary preset |
| Inspector.SelectRange | tabs/inspector_tab.py:384-385 | setPosition(end), then setPosition(start, KeepAnchor), selects [start, end) with the anchor at the end; out-of-range positions are ignored as Qt does |
| Inspector.ClickRoundTrip | tabs/inspector_tab.py:373-392 | clicking hex cell (row, col) selects exactly that byte's 8 bits, and the cursor maps back to the same cell |
| Inspector.CursorRowExists | tabs/inspector_tab.py:359-369 | a cursor over an existing byte highlights that byte's cell |
| Inspector.SelectedBitsAreByte | tabs/inspector_tab.py:379-381 | the 8 bits selected for byte b are exactly the bits the hex view packs into byte b |
| Inspector.ParseQuery | tabs/inspector_tab.py:395-410 | the query is blank exactly when it is spaces only; a searchable pattern is non-empty |
| Inspector.SearchSelectsMatch | tabs/inspector_tab.py:412-429 | "not found" exactly when the pattern does not occur, leaving the cursor alone; otherwise it selects a match, the first at or after the cursor (after the selection's far end), or else the first in the text |
| Inspector.HexQueryBits | tabs/inspector_tab.py:401-407 | a hex query becomes 4 bits per digit, each nibble reading back as its digit |
| Inspector.SearchText | tabs/inspector_tab.py:394-429 | the search computes exactly Search and keeps the cursor inside the text |
| Inspector.FindFromCursor | tabs/inspector_tab.py:419-421 | the two str.find calls compute exactly the wrapped search |
| Inspector.ReadQuery | tabs/inspector_tab.py:395-410 | the query loop computes exactly ParseQuery |
| Inspector.InspectorTab.constructor | tabs/inspector_tab.py:37-46 | nothing is loaded; table and editor are empty; every option is off |
| Inspector.InspectorTab.UpdateHexView | tabs/inspector_tab.py:316-353 | the hex table shows exactly the packed bytes of the editor text |
| Inspector.InspectorTab.ApplyMapping | tabs/inspector_tab.py:270-314 | the editor gets the rendered bits with the cursor at 0 and the hex table follows; when nothing is loaded, or the join raises, the editor is unchanged; nothing is raised when every symbol has a row |
| Inspector.InspectorTab.ShowBits | tabs/inspector_tab.py:310-314 | setPlainText puts the bits in the editor, resets the cursor and refreshes the hex table |
| Inspector.InspectorTab.SetLogic | tabs/inspector_tab.py:128-141 | changing an option re-runs the mapping under the new options |
| Inspector.InspectorTab.LoadInput | tabs/inspector_tab.py:226-250 | with no symbols: reports failure and changes nothing; otherwise: stores the symbols, fills the table to max_sym + 1 rows keeping existing cells, maps every symbol, and reports the count |
| Inspector.InspectorTab.SetMappingPreset | tabs/inspector_tab.py:255-268 | an empty table raises int()'s OverflowError; otherwise every row gets the preset cell and the mapping is re-applied |
| Inspector.InspectorTab.SyncHighlightToHex | tabs/inspector_tab.py:355-371 | the current hex cell becomes the cursor's byte when that row exists, and is unchanged otherwise |
| Inspector.InspectorTab.SyncHighlightToBits | tabs/inspector_tab.py:373-392 | a click outside columns 1..16 is ignored; otherwise the clicked byte's 8 bits are selected |
| Inspector.InspectorTab.FindPattern | tabs/inspector_tab.py:394-429 | the cursor becomes Search's result; the hex highlight follows a moved cursor |
| Inspector.InspectorTab.AlignPattern | tabs/inspector_tab.py:431-442 | searches first when nothing is selected; a selection starting after 0 cuts the text before it, the cursor goes to 0 and the highlight to the first cell; otherwise the text and hex table are kept, the cursor is the search result and the highlight moves only if the search moved the cursor |
| Inspector.InspectorTab.CutBefore | tabs/inspector_tab.py:439-442 | the editor keeps the text from the cut on, the cursor is at 0 and the first cell is highlighted |
| Inspector.InspectorTab.ExportData | tabs/inspector_tab.py:444-463 | txt writes the text without newlines; bin succeeds exactly when that text is binary, writing ceil(len/8) bytes that unpack to the text and its padding |

## Left out

- FFT, dB and colour-map maths (`compute_spectrogram`, the FFT columns of `compute_mosaic_spectrogram`), `mix_and_filter`, AM/FM demodulation, matched filters and the root-raised-cosine generator: floating-point signal processing.
- The float prelude of `find_clock_sync` (times to indices via `int(t * sr)`, the width estimate and the radius): the loop gets integer indices.
- ClockSync.FindClockSync: requires a non-negative start index and a limit within the data; Python's negative indexing and a limit time past the data are not modelled.
- ClockSync.FindClockSync: requires a width estimate that is positive, or a radius that is not positive, as the prelude's truncated percentage always gives.
- Slicer.SliceSignal: samples are exact reals; NaN and float rounding are not modelled.
- Python's `int(s, 2)` and `int(c, 16)` also accept signs, surrounding whitespace, underscores and prefixes; the model accepts only plain digits.
- Qt widgets, colours, fonts, the light/dark mode, the offset column and the row labels of the tables: presentation only.
- File writing and the save dialog of `export_data`: ExportData returns the file contents; a cancelled dialog is not modelled.
- Message boxes: FindPattern and SearchText return a notice value instead.
- The `is_syncing` re-entrancy guard and `blockSignals`: the model calls the slots in the order the signals fire; the guard never trips in that order.
- Inspector.InspectorTab.AlignPattern: assumes `setPlainText` fires `textChanged` (update_hex_view) before `cursorPositionChanged` (sync_highlight_to_hex), so the highlight sees the new hex table.
- Inspector.InspectorTab.LoadInput: requires non-negative symbols; a negative maximum would make Qt's `setRowCount` fail.
- Inspector.InspectorTab.ApplyMapping, Inspector.InspectorTab.UpdateHexView: keep the hex table's current cell when `setRowCount` changes the row count; Qt may move or clear that cell when the table shrinks, and the model does not capture this.
- Inspector.MapSymbols, BitStream.ExportBinSpec: the `Err` messages leave out the parts Python fills in from the data. These are the item index in the `TypeError` ("sequence item 0: …") and the `: '<chunk>'` suffix of the `ValueError` for a non-binary chunk.
- User editing of the editor text and of table cells, other than through the tab's own slots.
- SpectrogramBudget.PlanRead: starts from integer indices; the conversion of the region's times and `fft_size` or `target_width` of zero or less are not modelled.
- MappingPresets.BitsPerSymbol: exact ceil(log2(rows)); float rounding of `np.log2` for row counts near 2^53 is not modelled.
