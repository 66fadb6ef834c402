# pikchr build and fiddle core, modelled in Dafny

This project models two parts of the pikchr repository.

**mkversion.c** is the build-time generator of `VERSION.h`. It reads three files and
prints C `#define`s. The model covers these parts of it:

- The first line of `manifest.uuid` gives MANIFEST_UUID and MANIFEST_VERSION.
- Every `D ` card of the Fossil manifest gives MANIFEST_DATE, MANIFEST_YEAR,
  MANIFEST_ISODATE, MANIFEST_NUMERIC_DATE and MANIFEST_NUMERIC_TIME.
- The first line of `VERSION` gives RELEASE_VERSION, RELEASE_VERSION_NUMBER
  (`%d%02d%02d` of the first three digit runs) and RELEASE_RESOURCE_VERSION.
  The resource version is the version with its dots written as commas, cut at a `-` or a
  fourth dot, and padded with `,0` to four parts.
- The static `hash` routine is a key schedule over a 256-byte state array, followed by a
  keystream written out as lower-case hexadecimal. In this source `main` never calls it.
  The model proves it on its own, over arrays, as the C code does it in place.

The modules for mkversion.c are these:

- `CText` holds characters, digits, decimal values and the first-line cut.
- `ManifestDates` holds the `D ` branch.
- `ReleaseVersion` holds the version scan, the version number and the resource version.
- `KeyHash` holds `hash`.
- `MkVersion` holds `main` without its I/O. It takes the first line of each file as an
  `Option` (None when `fgets` finds nothing), and the manifest as its sequence of lines.
  It returns the header values or the error that stops the program.

**fiddle/fiddle.js** is the main-thread side of the pikchr web fiddle. The `PikchrFiddle`
object becomes the class `Fiddle.PikchrFiddle`. Its fields are these:

- `_msgMap`, the registry of worker-message handlers;
- `renderMode` and `config.renderAutoScale`;
- the page state its handlers drive: whether the render button is enabled, and the output
  element (its `data-pikchr`, its `error` and `text` classes, its content and its inline
  size);
- the messages posted to the worker.

The other fiddle modules are these:

- `MsgRegistry` holds the specification functions for the registry and their properties.
- `JsText` models the two JavaScript string operations the fiddle depends on:
  `String.prototype.trim` and `String.prototype.split` with a one-character separator.

## Model

| member | source | states |
|---|---|---|
| CText.TrimLine | mkversion.c:107-108 | The cursor walk leaves exactly the first line: the longest prefix free of NUL, CR and LF (`FirstLine`). |
| CText.FirstLine | mkversion.c:146-147 | The cut line is a prefix of the buffer with no line end in it, stopped by the end of the text or a NUL, CR or LF, and it holds no NUL. |
| CText.FirstLineUnique | mkversion.c:107-108 | Any prefix with those properties is the first line: the cut is determined. |
| CText.Digits | mkversion.c:119-134 | Keeping only the `isdigit` characters yields a digit string no longer than the input. |
| CText.Value | mkversion.c:151-153 | Definition of the value that `x = x*10 + z[0] - '0'` accumulates over a digit string, most significant digit first. Its properties are stated by `ValueAppend` and `ValueOfDecimal`. |
| CText.DigitsAppend | mkversion.c:119-121 | Keeping the digits commutes with concatenation. |
| CText.DigitsOfDigitString | mkversion.c:119-121 | A digit string is kept whole. |
| CText.ValueAppend | mkversion.c:151-152 | Reading a concatenation of digit strings shifts the left part by the width of the right part. |
| CText.Decimal | mkversion.c:162 | `%d` of a non-negative number is a non-empty digit string with no leading zero unless the number is 0. |
| CText.ValueOfDecimal | mkversion.c:162 | Reading back the `%d` text of `n` gives `n`. |
| ManifestDates.StripZeros | mkversion.c:135 | The stripped text is a suffix of the input, everything dropped is '0', and it does not start with '0'. |
| ManifestDates.StripZerosValue | mkversion.c:135 | Stripping leading zeros keeps a digit string's value. |
| ManifestDates.StripLeadingZeros | mkversion.c:135 | The loop that skips leading '0' characters computes `StripZeros`. |
| ManifestDates.StripZerosOfZeros | mkversion.c:135 | A string made only of zeros strips to nothing. |
| ManifestDates.ClockDigits | mkversion.c:131-133 | The digits of a time `a:b:c` made of digit fields are the three fields run together. |
| ManifestDates.MidnightDigits | mkversion.c:131-133 | The time `00:00:00` yields the digits `000000`. |
| ManifestDates.MidnightNumericTimeIsEmpty | mkversion.c:135-136 | As written, a check-in at 00:00:00 prints MANIFEST_NUMERIC_TIME with an empty value. |
| ManifestDates.NumericTime | mkversion.c:135-136 | The corrected MANIFEST_NUMERIC_TIME is never empty, and it has no leading zero unless it is "0". |
| ManifestDates.NumericTimeValue | mkversion.c:135-136 | The corrected MANIFEST_NUMERIC_TIME is a digit string with the same value as the time digits. |
| ManifestDates.IsoDateIsDateThenTime | mkversion.c:115-129 | MANIFEST_YEAR has 4 characters and MANIFEST_DATE has 19. When the character between date and time is not a digit, MANIFEST_ISODATE is MANIFEST_NUMERIC_DATE followed by the time's digits. |
| ManifestDates.CollectDigits | mkversion.c:119-134 | Each digit-collecting loop returns the digits of its fixed window of the line. |
| ManifestDates.DateOf | mkversion.c:116-136 | The five values of one `D ` line. MANIFEST_DATE has 19 characters and MANIFEST_YEAR is its first four. The ISO date, the numeric date and the numeric time are digit strings. MANIFEST_NUMERIC_TIME is what the zero skip of :135 leaves, except that it is "0" where that leaves nothing (the corrected form). |
| ManifestDates.ExtractDate | mkversion.c:113-136 | The `D ` branch computes the five date values of `DateOf`, with MANIFEST_NUMERIC_TIME corrected to "0" at midnight. |
| ManifestDates.DateLineCount | mkversion.c:112-113 | The number of lines that pass the `strncmp("D ", b, 2)` test, at most the number of lines. |
| ManifestDates.DatesOf | mkversion.c:112-138 | There are exactly as many sets of date values as `D ` lines (`DateLineCount`), so no more than there are lines. |
| ManifestDates.ScanManifest | mkversion.c:112-138 | The manifest loop yields, in order, the date values of every `D ` line and nothing for other lines (with the corrected MANIFEST_NUMERIC_TIME). |
| ReleaseVersion.Fields | mkversion.c:149-160 | The digit runs the scan closes: there is always at least one. |
| ReleaseVersion.FieldsSnoc | mkversion.c:151-157 | One more character extends the field list: a digit joins the last field, anything else opens a new one. |
| ReleaseVersion.FieldsAreDigits | mkversion.c:151-152 | Every field is a digit string. |
| ReleaseVersion.FieldCount | mkversion.c:153-156 | There is one more field than there are non-digit characters. |
| ReleaseVersion.FieldsConcat | mkversion.c:149-160 | Read in order, the fields are exactly the digits of the text. |
| ReleaseVersion.FieldsOfDigits | mkversion.c:149-160 | A text without a separator is a single field. |
| ReleaseVersion.FieldsSplit | mkversion.c:153-156 | A separator splits the field list in two. |
| ReleaseVersion.VersionOf | mkversion.c:149-160 | The version triple is the values of the first three fields. A version with fewer than three fields has patch 0, and one with a single field also has minor 0. |
| ReleaseVersion.FieldValue | mkversion.c:151-157 | Definition of the value of field `k` (the `x` stored at :155), 0 for a field the text does not have. Its properties are stated by `VersionOf` and `VersionRoundTrip`. |
| ReleaseVersion.ScanDigit | mkversion.c:151-152 | A digit extends the value of the open field by one decimal place and leaves the other fields alone. |
| ReleaseVersion.ScanSeparator | mkversion.c:153-156 | A non-digit closes the open field and opens a new one worth 0. |
| ReleaseVersion.ThreeFields | mkversion.c:149-160 | Three digit strings joined by '.' are three fields. |
| ReleaseVersion.VersionRoundTrip | mkversion.c:149-160 | Scanning "a.b.c" built from `%d` texts gives back (a, b, c). |
| ReleaseVersion.LaterFieldsIgnored | mkversion.c:155 | Whatever follows the third field does not change the triple. |
| ReleaseVersion.VersionExamples | mkversion.c:149-160 | "3.39.2" gives (3, 39, 2), and "1.0" gives (1, 0, 0) because the unstored slots stay 0. |
| ReleaseVersion.ScanStateDigit | mkversion.c:151-152 | The scan invariant is kept across a digit. |
| ReleaseVersion.ScanStateSeparator | mkversion.c:153-156 | The scan invariant is kept across a separator: `vn[j]` stores `x` while `j < 3`, and `x` resets. |
| ReleaseVersion.ScanDone | mkversion.c:155 | Once the NUL has closed the last field, `vn` holds the first three field values. |
| ReleaseVersion.ScanChar | mkversion.c:151-157 | One step of the scan keeps the scan invariant. |
| ReleaseVersion.ParseVersion | mkversion.c:149-160 | The loop over the version text and its NUL stores `VersionOf` of the text in `vn`. |
| ReleaseVersion.Pad2 | mkversion.c:162 | `%02d` is a digit string with the value of `n`, exactly two characters below 100. |
| ReleaseVersion.VersionNumber | mkversion.c:162 | RELEASE_VERSION_NUMBER is a digit string. |
| ReleaseVersion.VersionNumberValue | mkversion.c:162 | With minor and patch below 100, RELEASE_VERSION_NUMBER reads as major*10000 + minor*100 + patch. |
| ReleaseVersion.VersionNumberCollision | mkversion.c:162 | 1.100.0 and 11.0.0 print the same RELEASE_VERSION_NUMBER, so the format is not injective from 100 on. |
| ReleaseVersion.CountAppend | mkversion.c:163-178 | Occurrence counts add over concatenation. |
| ReleaseVersion.Commas | mkversion.c:170-173 | Writing dots as commas keeps the length. |
| ReleaseVersion.CommasAt | mkversion.c:170-173 | Each '.' becomes ',' and every other character stays in place. |
| ReleaseVersion.Cut | mkversion.c:165-177 | The kept part never holds more dots than the budget of three allows. |
| ReleaseVersion.ResourceVersionOf | mkversion.c:163-181 | Definition of RELEASE_RESOURCE_VERSION: the kept part with dots as commas, then one `,0` per missing part. Its properties are stated by `ResourceVersionSeparators` and `ResourceVersionOfTriple`. |
| ReleaseVersion.CutIsTruncation | mkversion.c:165-177 | The kept part is a prefix of the version with no '-'. It stops at the end, at the first '-', or at the fourth '.'. |
| ReleaseVersion.CutKeepsShort | mkversion.c:165-177 | A version with no '-' and at most three dots is kept whole. |
| ReleaseVersion.CutUnique | mkversion.c:165-177 | Any prefix that satisfies the stopping rule is the kept part. |
| ReleaseVersion.Padding | mkversion.c:180 | The `k` copies of `,0` printed for the missing parts: two characters each. |
| ReleaseVersion.PaddingCount | mkversion.c:180 | The `,0` padding for `k` missing parts has exactly `k` commas, no dot and no dash. |
| ReleaseVersion.CommasCount | mkversion.c:170-173 | The rewrite leaves no dot, turns each dot into a comma and keeps every dash. |
| ReleaseVersion.ResourceVersionSeparators | mkversion.c:163-181 | RELEASE_RESOURCE_VERSION holds no '.' and no '-'. It has exactly three more commas than the kept part had before the rewrite. |
| ReleaseVersion.CommasOfDigits | mkversion.c:170-173 | A digit string is not changed by the rewrite. |
| ReleaseVersion.ResourceVersionOfTriple | mkversion.c:163-181 | A release "a.b.c" gives the resource version "a,b,c,0". |
| ReleaseVersion.WalkStop | mkversion.c:165-177 | Where the walk stops, the C string left in the buffer is the kept part with its dots as commas. |
| ReleaseVersion.RewriteBuffer | mkversion.c:163-178 | The in-place walk over `vx` leaves `Commas(Cut(version))`, and `d` counts the dots it rewrote. |
| ReleaseVersion.ResourceVersion | mkversion.c:163-181 | RELEASE_RESOURCE_VERSION is the rewritten buffer plus one `,0` per missing part (`ResourceVersionOf`). |
| MkVersion.Spaces | mkversion.c:110 | The padding `%10.10s` puts before a short hash: exactly `n` characters, all spaces. |
| MkVersion.ManifestVersion | mkversion.c:110 | `[%10.10s]` has 12 characters in brackets. It holds the first ten characters of the hash, or a shorter hash right-justified with spaces. |
| MkVersion.HeaderOf | mkversion.c:107-181 | Definition of the header: the first lines of both files, MANIFEST_VERSION, the dates of every `D ` line (with the corrected MANIFEST_NUMERIC_TIME), the version number and the resource version. |
| MkVersion.MakeHeader | mkversion.c:84-181 | An empty manifest.uuid stops with its error before anything else is read. An empty VERSION stops with its error. Otherwise the header holds the trimmed uuid, MANIFEST_VERSION, the dates of every `D ` line (MANIFEST_NUMERIC_TIME corrected to "0" at midnight), the trimmed release, its version number and its resource version. |
| KeyHash.Identity | mkversion.c:62 | The state after the first loop has 256 entries. |
| KeyHash.Swap | mkversion.c:66-68 | Definition of the exchange of two state entries through `t`, here and at :73-76. It keeps the length. Its properties are stated by `SwapExchanges` and `SwapPermutes`. |
| KeyHash.SwapExchanges | mkversion.c:66-68 | The entries at the two indices trade places and every other entry stays put. |
| KeyHash.SwapPermutes | mkversion.c:66-68 | The three-assignment exchange keeps the multiset of entries. |
| KeyHash.ScheduleRound | mkversion.c:64-68 | One round of the key schedule keeps a 256-entry state. |
| KeyHash.KeySchedule | mkversion.c:63-69 | The key schedule keeps a 256-entry state. |
| KeyHash.KeySchedulePermutes | mkversion.c:63-69 | After every round of the key schedule the state is a permutation of 0..255. |
| KeyHash.KeyIndexStep | mkversion.c:63-65 | The key index `n` that goes back to 0 after the NUL is the round number modulo the key's length with its NUL. |
| KeyHash.Keystream | mkversion.c:70-77 | After `k` rounds the keystream has produced `k` bytes and kept a 256-entry state. |
| KeyHash.Round | mkversion.c:72-77 | One keystream round keeps a 256-entry state. |
| KeyHash.KeystreamNext | mkversion.c:71-77 | One more round appends the byte that round produces. |
| KeyHash.KeystreamPermutes | mkversion.c:72-76 | The output loop keeps the state a permutation. |
| KeyHash.PermutationBytes | mkversion.c:61 | A permutation of 0..255 holds only `unsigned char` values. |
| KeyHash.Rounds | mkversion.c:71 | Definition of the number of output rounds for N. Its meaning is stated by `RoundsBound` and `RoundsLength`. |
| KeyHash.RoundsBound | mkversion.c:71 | The output loop runs one more time exactly while twice the rounds done stays below N-2. |
| KeyHash.RoundsLength | mkversion.c:71 | The loop ends at N-2 for even N and at N-1 for odd N. |
| KeyHash.HexByte | mkversion.c:78-79 | A byte becomes two lower-case hexadecimal digits. |
| KeyHash.Hex | mkversion.c:78-79 | The text the output loop writes for a byte sequence has two characters per byte, each byte's digits in order. Its properties are stated by `HexSnoc`, `HexIsHex` and `HexByteRoundTrip`. |
| KeyHash.HexDigitValue | mkversion.c:78-79 | The digit table at position d reads back as d. |
| KeyHash.HexByteRoundTrip | mkversion.c:78-79 | The two digits, high nibble first, read back as the byte. |
| KeyHash.HexSnoc | mkversion.c:78-79 | One more byte appends its two digits. |
| KeyHash.HexIsHex | mkversion.c:78-79 | The hexadecimal text holds only hexadecimal digits. |
| KeyHash.HashText | mkversion.c:58-82 | The text `hash` writes before its NUL has 2*Rounds(N) characters: the hexadecimal keystream after the key schedule. |
| KeyHash.HashTextShape | mkversion.c:70-81 | The hash text is 2*Rounds(N) hexadecimal digits, which is N-2 of them for even N. |
| KeyHash.HashStatePermutes | mkversion.c:58-82 | The state array is a permutation of 0..255 after every round of both phases. |
| KeyHash.NewIdentity | mkversion.c:62 | The first loop fills a fresh array with 0..255 in order. |
| KeyHash.SwapEntries | mkversion.c:66-68 | The exchange through `t` swaps the two entries in place. |
| KeyHash.ScheduleKey | mkversion.c:63-69 | The key-schedule loop leaves the array equal to `KeySchedule` after 256 rounds. |
| KeyHash.WriteStep | mkversion.c:78-79 | Writing a byte's two digits extends what the buffer holds by that byte's hexadecimal text. |
| KeyHash.WriteNul | mkversion.c:81 | The final NUL ends the hexadecimal text and leaves the rest of the buffer as it was. |
| KeyHash.StreamRound | mkversion.c:72-77 | One pass of the loop body on the array is one keystream round. |
| KeyHash.WriteHexByte | mkversion.c:78-79 | The two stores write the high digit, then the low digit. |
| KeyHash.EmitStep | mkversion.c:72-79 | One pass of the output loop advances the keystream by one byte and writes its two digits. |
| KeyHash.Emit | mkversion.c:70-81 | The output loop writes the hexadecimal keystream of Rounds(N) bytes and a NUL after it, and leaves the rest of `zOut` alone. The state array ends as the keystream state after Rounds(N) rounds. |
| KeyHash.Hash | mkversion.c:58-82 | `hash` writes `HashText(zIn, N)` followed by a NUL, and leaves the rest of `zOut` alone. |
| JsText.Lead | fiddle/fiddle.js:177-179 | The leading white-space run of `trim` ends before the first character that is not white space. |
| JsText.Trail | fiddle/fiddle.js:177-179 | The trailing white-space run ends after the last character that is not white space. |
| JsText.LeadIsSpace | fiddle/fiddle.js:177-179 | The leading run is all white space. |
| JsText.TrailIsSpace | fiddle/fiddle.js:177-179 | The trailing run is all white space. |
| JsText.Trim | fiddle/fiddle.js:177-179 | `trim()` neither starts nor ends with white space and is no longer than its input. |
| JsText.TrimIsPiece | fiddle/fiddle.js:177-179 | What `trim` keeps is one contiguous piece of the input. |
| JsText.TrimDropsSpace | fiddle/fiddle.js:177-179 | Everything `trim` drops, before and after that piece, is white space. |
| JsText.TrimOfSlice | fiddle/fiddle.js:177 | Trimming a `substring` keeps a piece of the whole input that lies inside the selection. |
| JsText.PieceOfSlice | fiddle/fiddle.js:177 | A piece of a slice is a piece of the whole text, shifted by the slice's start. |
| JsText.LeadAllSpace | fiddle/fiddle.js:177-181 | The leading run covers the whole text exactly when the text is all white space. |
| JsText.TrimEmpty | fiddle/fiddle.js:177-181 | `trim()` is empty exactly when the text is all white space. |
| JsText.TrimKeeps | fiddle/fiddle.js:177-179 | A text with no white space at either end is left as it is. |
| JsText.Split | fiddle/fiddle.js:238 | `split(' ')` always yields at least one piece. |
| JsText.SplitCount | fiddle/fiddle.js:238-239 | There is one more piece than there are separators (`CText.Count`), so four pieces means three spaces. |
| JsText.SplitPiecesFree | fiddle/fiddle.js:238 | No piece contains the separator. |
| JsText.JoinExtendLast | fiddle/fiddle.js:238 | One more character on the last piece is one more character at the end of the joined text. |
| JsText.SplitJoin | fiddle/fiddle.js:238 | Joining the pieces with the separator gives back the viewBox text. |
| MsgRegistry.HandlersOf | fiddle/fiddle.js:62-63 | A type without an entry has no handlers. |
| MsgRegistry.Pushed | fiddle/fiddle.js:55-57 | Definition of one push: the type's list, created when absent, with the callback at its end. Its properties are stated by `PushedHandlers`. |
| MsgRegistry.Registered | fiddle/fiddle.js:50-59 | Definition of `addMsgHandler` on the map, recursive over nested arrays. Its properties are stated by `RegisteredHandlers` and `RegisteredInOrder`. |
| MsgRegistry.Cleared | fiddle/fiddle.js:73 | Definition of `delete _msgMap[type]`. Its properties are stated by `ClearedForgets`. |
| MsgRegistry.PushedFresh | fiddle/fiddle.js:55-57 | Pushing onto a type with no entry creates a list that holds just the callback. |
| MsgRegistry.Repeat | fiddle/fiddle.js:51-53 | `n` copies of the callback. |
| MsgRegistry.AppendRepeats | fiddle/fiddle.js:51-53 | Copies appended in two batches are the same as copies appended in one. |
| MsgRegistry.PushedHandlers | fiddle/fiddle.js:55-57 | A push appends the callback to the end of its type's list, even when the callback is already there. It creates the list when absent and changes no other list. |
| MsgRegistry.RegisteredHandlers | fiddle/fiddle.js:50-59 | Registering appends the callback once per occurrence of each type name in the (nested) array. The types with a list afterwards are the old ones plus those named. |
| MsgRegistry.RegisteredFirstHandlers | fiddle/fiddle.js:51-53 | The same holds for the first `k` elements of an array. |
| MsgRegistry.RegisteredFirstPrefix | fiddle/fiddle.js:51-53 | Registering a prefix of an array does not depend on the elements after it. |
| MsgRegistry.RegisteredInOrder | fiddle/fiddle.js:51-53 | An array is registered element by element, in array order. |
| MsgRegistry.ClearedForgets | fiddle/fiddle.js:72-75 | After clearing, the type has no entry and dispatches like a type never registered. Every other type keeps its list. |
| MsgRegistry.RegisteredKeepsNoEmptyLists | fiddle/fiddle.js:55-57 | Registration keeps every existing list non-empty, because lists are only created by a push. |
| Fiddle.IndexOf | fiddle/fiddle.js:253 | `indexOf` is -1 exactly when the mode is absent. Otherwise it is the first position of the mode. |
| Fiddle.NextRenderMode | fiddle/fiddle.js:251-255 | The toggle always yields one of the two modes. |
| Fiddle.RenderModeCycle | fiddle/fiddle.js:251-255 | 'text' goes to 'html' and 'html' goes to 'text'; any other mode goes to 'text'. On the two modes the toggle is its own inverse. |
| Fiddle.Substring | fiddle/fiddle.js:177 | `substring` is no longer than the input. |
| Fiddle.Selected | fiddle/fiddle.js:176-179 | Definition of the text considered: the `substring` of the selection when it is non-empty, else the whole input. |
| Fiddle.RenderText | fiddle/fiddle.js:176-180 | The text the button sends never starts or ends with white space. |
| Fiddle.RenderTextBlank | fiddle/fiddle.js:176-181 | Nothing is rendered exactly when the selection, or else the whole input, is all white space. |
| Fiddle.RenderTextOfSelection | fiddle/fiddle.js:176-177 | With a selection inside the input, the selection trimmed is sent. |
| Fiddle.RenderTextWholeInput | fiddle/fiddle.js:178-179 | Without a selection, the sent text is a piece of the input with only white space around it. |
| Fiddle.OutputSizeAsWritten | fiddle/fiddle.js:234-245 | Definition of the size decision as written, with the TypeError of `null.split` as an outcome. Stated by `OutputSizeAsWrittenAgrees` and `MissingViewBoxThrows`. |
| Fiddle.OutputSize | fiddle/fiddle.js:234-245 | Definition of the corrected size decision. Stated by `OutputSizeSet`. |
| Fiddle.OutputSizeSet | fiddle/fiddle.js:234-247 | Corrected: the output gets a size exactly when auto-scale is off, there is no error, the mode is 'html' and the SVG has a viewBox with three spaces. The size is then its third and fourth fields. |
| Fiddle.OutputSizeAsWrittenAgrees | fiddle/fiddle.js:236-244 | As written, the handler throws exactly for an SVG without a viewBox under the sizing conditions. Otherwise it agrees with the corrected decision. |
| Fiddle.MissingViewBoxThrows | fiddle/fiddle.js:238 | An SVG without a viewBox in 'html' mode with auto-scale off makes `split` throw on null. The corrected decision leaves the size unset. |
| Fiddle.ButtonStep | fiddle/fiddle.js:202 | Definition of the button after one event: a render disables it; a 'working' 'end' enables it (:261-268). |
| Fiddle.ButtonAfter | fiddle/fiddle.js:202 | Definition of the button after a sequence of events. Stated by `ButtonAfterEvents`. |
| Fiddle.ButtonAfterEvents | fiddle/fiddle.js:202 | After any sequence of renders and 'working' messages, the button is disabled exactly when some render has no 'end' after it, or when it started disabled and no 'end' came. |
| Fiddle.PikchrFiddle.constructor | fiddle/fiddle.js:29-47 | Initial state: an empty registry, mode 'html', auto-scale off, the button enabled with no label saved, nothing shown or posted. |
| Fiddle.PikchrFiddle.RegisterStartupHandlers | fiddle/fiddle.js:85-147 | The script's own registrations push the stdout, stderr, module and fiddle-ready handlers in that order (:85-86, :100, :144). Nothing else changes. |
| Fiddle.StartupRegistryOfNew | fiddle/fiddle.js:85-147 | From a new object's empty registry, those four types have exactly their one handler each. |
| Fiddle.StartupRegistry | fiddle/fiddle.js:85-144 | Definition of the registry after the script's pushes for 'stdout' (:85), 'stderr' (:86), 'module' (:100) and 'fiddle-ready' (:144), in that order. Stated by `StartupRegistryOfNew`. |
| Fiddle.PikchrFiddle.AddMsgHandler | fiddle/fiddle.js:50-59 | The registry becomes `Registered(old, type, callback)`, including for nested arrays. Every list stays non-empty and nothing else changes. |
| Fiddle.PikchrFiddle.RunMsgHandlers | fiddle/fiddle.js:61-70 | Returns true exactly when the type has a list. The handlers invoked are that list, in order, and none when there is no list. |
| Fiddle.PikchrFiddle.ClearMsgHandlers | fiddle/fiddle.js:72-75 | The type's entry is removed and nothing else changes. |
| Fiddle.PikchrFiddle.WMsg | fiddle/fiddle.js:77-80 | Exactly one message `{type, data}` is posted and nothing else changes. The object's invariant `Valid()` is kept. |
| Fiddle.PikchrFiddle.Render | fiddle/fiddle.js:192-211 | The button's label is saved, the button is disabled, and the text is posted as a 'pikchr' message. `Valid()` is kept. |
| Fiddle.ClickRenders | fiddle/fiddle.js:173-181 | Definition of when a click renders: the button is enabled, because a disabled button receives no click, and the trimmed text is not blank (:180). Used by the contracts of `ClickRender`, `KeyDown`, `OnLoaded` and `OnFiddleReady`. |
| Fiddle.PikchrFiddle.ClickRender | fiddle/fiddle.js:173-182 | A click on the enabled button posts a non-blank `RenderText` and disables the button. A click on a disabled button is not delivered, and a blank text is not rendered: both change nothing. `Valid()` is kept. |
| Fiddle.PikchrFiddle.KeyDown | fiddle/fiddle.js:164-170 | Ctrl-Enter or Shift-Enter clicks the render button, with that click's effect. Any other key changes nothing. `Valid()` is kept. |
| Fiddle.PikchrFiddle.OnPikchr | fiddle/fiddle.js:215-248 | The output takes the reply's pikchr and error flag, and the `text` class exactly in 'text' mode. Its content is the result, wrapped in a textarea in 'text' mode. Its size comes from the corrected size decision. `Valid()` is kept. |
| Fiddle.PikchrFiddle.ClickRenderMode | fiddle/fiddle.js:250-259 | The mode moves to the other one. The shown pikchr, if any, is posted again. |
| Fiddle.PikchrFiddle.OnWorking | fiddle/fiddle.js:261-271 | 'end' enables the button once a render has saved its label. Before that, reading the label throws at :266 and nothing changes. 'start' and any other value leave the button alone. Under the object's invariant this is `ButtonStep`. |
| Fiddle.PikchrFiddle.OnAutoScaleChanged | fiddle/fiddle.js:299-309 | The setting takes the checkbox value. In 'html' mode the shown pikchr, if any, is posted again. `Valid()` is kept. |
| Fiddle.PikchrFiddle.CmdClick | fiddle/fiddle.js:312 | The button's command text is posted as it is. `Valid()` is kept. |
| Fiddle.PikchrFiddle.OnLoaded | fiddle/fiddle.js:154-395 | Loading appends the 'pikchr' and 'working' handlers to the registry (:215, :261). It then clicks the render button (:395), which renders the input's text unless it is blank or the button is disabled. |
| Fiddle.PikchrFiddle.OnFiddleReady | fiddle/fiddle.js:144-147 | Every 'fiddle-ready' handler is removed. Loading then registers its handlers and renders the input's text as `OnLoaded` does. |
| Fiddle.AfterFiddleReady | fiddle/fiddle.js:145-146 | Definition of the registry after the 'fiddle-ready' handler: its own type cleared, then 'pikchr' (:215) and 'working' (:261) pushed. Stated by `FiddleReadyOneShot`. |
| Fiddle.FiddleReadyOneShot | fiddle/fiddle.js:144-147 | After 'fiddle-ready' has run, a second 'fiddle-ready' finds no handlers. 'pikchr' and 'working' each gain their handler at the end, and every other type keeps its list. |

## Left out

- I/O: opening and closing files, `printf`, the usage check and `exit`. Each file's first line and the manifest's lines are parameters. The printed `#define`s are the `Header` values.
- The COMPILER define (mkversion.c:182-191) depends only on the compiler that built the program.
- The loop at mkversion.c:161 walks a buffer that is all zeros at that point, so it has no effect.
- The `fgets` size limit of 998 characters is not modelled: a longer line would be split into several lines.
- MkVersion.MakeHeader: a `D ` line shorter than 21 characters is excluded by a precondition. The C code then reads whatever an earlier line left in the buffer.
- ReleaseVersion.ParseVersion: the C `int x` can overflow on a digit run too long for 32 bits; the model uses unbounded integers.
- ReleaseVersion.VersionNumber: `%d` of a negative `vn` value cannot arise without that overflow and is not modelled.
- mkversion.c works on bytes, and the model's strings are sequences of Unicode code points. Every byte count in it is a character count in the model: the `[%10.10s]` width (:110), the fixed offsets `b+2` and `b+13` and the widths of `%.10s %.8s` and `%.4s` (:114-136), the windows of the digit loops (:119-133), and `isdigit` on a possibly signed `char`. They agree for ASCII text, which is what a Fossil manifest and VERSION hold.
- ManifestDates.ExtractDate: MANIFEST_NUMERIC_TIME is "0" where mkversion.c:135-136 prints an empty value (a check-in at 00:00:00). Everywhere else it is what the C code prints. `MidnightNumericTimeIsEmpty` states the value as written.
- ManifestDates.ScanManifest: the same correction of MANIFEST_NUMERIC_TIME, once per `D ` line.
- ManifestDates.DateOf: the same correction of MANIFEST_NUMERIC_TIME. Its contract states the agreement with the value as written wherever that value is not empty.
- MkVersion.MakeHeader: the same correction of MANIFEST_NUMERIC_TIME in the header's dates.
- MkVersion.HeaderOf: the same correction of MANIFEST_NUMERIC_TIME.
- MkVersion.MakeHeader: a `D ` line must hold no NUL (`NoNul` in `WellFormedDateLine`). `fgets` can read a NUL, and then `%.10s` and `%.8s` stop at it while the digit loops read past it. The model does not follow the two apart.
- `hash` is static and `main` does not call it. KeyHash models it on its own, with the key as bytes that end in a single NUL.
- The worker thread and `postMessage` are not modelled. `wMsg` appends to the `posted` log, and the worker's replies are handler calls with their data.
- The DOM is not modelled. The output element and the render button are fields. `:scope > svg` and its viewBox attribute are a parameter of `OnPikchr`.
- Fiddle.PikchrFiddle.RunMsgHandlers returns the handlers it would call, in order, instead of calling them. The "No handlers found" warning is the `false` result.
- Fiddle.PikchrFiddle.OnPikchr: the inline size keeps the third and fourth viewBox fields as text. The `+vb[2] + 10` number conversion and the "px" suffix are floating-point work.
- The bodies of the 'stdout', 'stderr' and 'module' handlers (console output and the progress display, fiddle/fiddle.js:85-138) are not modelled. Only their registration is.
- Fiddle.PikchrFiddle.OnWorking does not model restoring the button label or the console warning for an unknown value. The TypeError thrown by an 'end' that arrives before any render (fiddle/fiddle.js:266) is modelled as the handler leaving everything unchanged.
- `onPFLoaded` deleting itself is not modelled, and neither is un-hiding elements. The clear button (fiddle/fiddle.js:159-162) only empties the input, and the input is a parameter of the methods that read it. The CSS-class checkboxes and the `if(0)` file loader change nothing the model holds. The keyboard shortcut is `KeyDown`.
- The `data-config` checkbox bindings are modelled only for `renderAutoScale`, which `OnAutoScaleChanged` combines with the auto-scale handler.
- JsText.Split models `split` with a one-character separator only, which is the only kind fiddle.js uses.
- MsgRegistry.Registered treats `_msgMap` as a plain map from strings. As an object literal it is not one for two keys. `addMsgHandler('__proto__', cb)` goes through the prototype setter at fiddle/fiddle.js:55-57 and creates no entry, so a later `runMsgHandlers` for '__proto__' finds none and returns false. `addMsgHandler('hasOwnProperty', cb)` creates an entry that hides the method, and every later `addMsgHandler` or `runMsgHandlers` throws a TypeError. The script itself registers neither name.
- Fiddle.PikchrFiddle.AddMsgHandler: the same two keys behave as in the line above, while the model registers and dispatches them like any other type.
- Fiddle.PikchrFiddle.RunMsgHandlers: after a registration of 'hasOwnProperty' the source throws, while the model returns the handlers. A '__proto__' message finds the handler in the model but not in the source.
- Fiddle.PikchrFiddle.OnPikchr: it uses the corrected size decision. For an SVG without a viewBox under the sizing conditions, the source throws at fiddle/fiddle.js:238 and the output keeps its old inline size, while the model sets `NoSize`. `OutputSizeAsWrittenAgrees` and `MissingViewBoxThrows` state the behaviour as written.
- JavaScript strings, `substring` and the selection offsets count UTF-16 code units, while the model's strings are sequences of code points. For text with characters outside the Basic Multilingual Plane, the offsets and the cut text differ.

## Findings

| source | as written | input that shows it | evidently intended | confidence | as-written member | corrected member |
|---|---|---|---|---|---|---|
| mkversion.c:135-136 | The loop strips every leading '0' of the time digits, so nothing may be left. | A `D ` card with time 00:00:00 prints `#define MANIFEST_NUMERIC_TIME` with no value. | An integer literal whose value is the time: "0" at midnight. | not executed | ManifestDates.MidnightNumericTimeIsEmpty | ManifestDates.NumericTimeValue |
| fiddle/fiddle.js:238 | `svg.getAttribute('viewBox').split(' ')` has no null check. | An SVG result without a viewBox attribute, in 'html' mode with auto-scale off. `split` is called on null and throws a TypeError, and the warning at :242-244 is never reached. | Treat a missing viewBox like a malformed one: warn and leave the size unset. | not executed | Fiddle.MissingViewBoxThrows | Fiddle.OutputSizeSet |
