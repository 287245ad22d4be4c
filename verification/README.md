# Whisplay chatbot display server and helpers, modelled in Dafny

This project models the core logic of a Raspberry Pi chatbot device with a
240×280 LCD "Whisplay" board and a small helper set on the Node side.

- **Python display server.**
  - Pixel codecs: RGB565 packing and unpacking, hex and int colour decoding, luminance.
  - Emoji asset names and greedy character wrapping.
  - The SPI/GPIO wire trace of the panel driver: command/data phases, address windows, 4096-byte chunking, pixels, lines, fill, image bounds.
  - The backlight duty and the 20-step LED fade arithmetic.
  - The display state with its partial update and scroll rule.
  - The per-line JSON command handler with its per-chunk UTF-8 decoding, its newline framing and its replies.
  - The render-frame dispatch.
  - The camera-button state machine.
- **TypeScript helpers.**
  - The WAV duration parser (a RIFF chunk walk).
  - The SenseVoice stdout parser.
  - The GPIO debug-table pin lookup.
  - The gen/captured image lists with their consume-once display slot, the directory loaders' filter and stable mtime sort, and MIME types by extension.

Hardware is modelled as an appended trace. Every GPIO level change and SPI
transfer is an event, and `Panel.Run` folds the trace into a list of
commands, each with its parameters, as the Python integers handed to the SPI
driver; `Panel.OnWire` is the driver's truncation of those integers to bytes.
Threads and timers become explicit timed events in `CameraMode`. File
contents, directory listings, decoded images, the JSON parser and the glyph
widths are parameters.

Modules, one per file: `Wrappers` and `Bytes` (wrappers.dfy), `Strings`,
`Color`, `Emoji`, `TextWrap`, `Panel`, `LedFade`, `Display`, `Render`,
`CameraMode`, `Protocol`, `Wav`, `SenseVoice`, `PinConvert`, `ImageStore`.

## Model

| member | source | states |
|---|---|---|
| Bytes.HiLoRecombine | python/whisplay.py:171 | high byte times 256 plus low byte gives back every 16-bit colour |
| Color.Widen5 | python/utils.py:16 | the 5-bit to 8-bit widening `v*255//31` stays within 8v..8v+7 |
| Color.Widen6 | python/utils.py:17 | the 6-bit to 8-bit widening `v*255//63` stays within 4v..4v+3 |
| Color.Rgb565ToRgb255 | python/utils.py:11-19 | decoding maps 0x0000 to black and 0xFFFF to white, and every channel is a byte |
| Color.DecodePackIdentity | python/utils.py:11-19 | unpacking any 16-bit word and packing it again returns the same word |
| Color.Pack565Fields | python/utils.py:76-79 | the packed word's fields are r>>3, g>>2 and b>>3 |
| Color.PackDecodeWithinRounding | python/utils.py:76-79 | packing and then decoding returns red and blue within 7 and green within 3 of the original |
| Color.PackedBytes | python/utils.py:79-80 | pixel i occupies bytes 2i and 2i+1, high byte first |
| Color.PackedBufferDecodes | python/utils.py:75-80 | a packed buffer decodes to one pixel per input pixel, each within rounding of the original |
| Color.UnpackedBufferRepacks | python/utils.py:75-80 | every even-length byte buffer is the packing of its own decoding |
| Color.Letterbox | python/utils.py:71-74 | the pasted picture is w×h, the image is centred with floor offsets, and everything else is black |
| Color.ImageToRgb565 | python/utils.py:68-80 | the buffer for a w×h screen has 2·w·h bytes |
| Color.CameraFrameToRgb565 | python/utils.py:83-90 | the camera buffer has 2 bytes per frame pixel |
| Color.FullImagePacksLikeCamera | python/utils.py:83-90 | an image that already fills the screen packs to exactly the camera path's bytes |
| Color.HexToRgb255 | python/utils.py:22-38 | after stripping leading '#', a value is returned iff the rest is all hex digits of length 6 or 8 |
| Color.HexRoundTrip | python/utils.py:22-31 | "#" plus the six-digit hex of a colour decodes back to that colour |
| Color.HexAlphaIgnored | python/utils.py:32-36 | an eight-digit string decodes to its first three bytes, and the alpha pair is ignored |
| Color.AnyColorDecoding | python/utils.py:41-55 | ints decode as RGB565 iff in 0..0xFFFF, strings go through the hex decoder, bools act as ints, and anything else gives None |
| Color.Luminance | python/utils.py:58-63 | None gives -1 (as -1000 thousandths); colours give 0..255000, with black 0 and white 255000 |
| Color.LuminanceMonotone | python/utils.py:63 | a channel-wise brighter colour never has lower luminance |
| Emoji.IsEmoji | python/utils.py:123-124 | the one-line definition, case by case: a symbol-category character is an emoji, so is any code point above 0x1F000, and no other character is |
| Emoji.HexParts | python/utils.py:105 | each codepoint becomes its lowercase hex digits, in order |
| Emoji.SingleCodepointFilename | python/utils.py:104-105 | one character names the file "<hex>.svg" |
| Emoji.FilenameInjective | python/utils.py:104-105 | two strings with the same asset filename are equal |
| Strings.SplitJoin | src/device/pin-convert.ts:21 | joining the parts of a split with the separator gives back the string |
| Strings.JoinSplit | src/device/pin-convert.ts:21 | splitting a separator-free list joined by the separator gives back the list |
| Strings.TrimStart | python/utils.py:24 | the result is a suffix that does not start with a stripped character, and everything removed was strippable |
| Strings.ParseFormat | python/utils.py:105 | parsing the digits a number is formatted to returns the number, in any base 2..16 |
| Strings.FormatInjective | python/utils.py:105 | different numbers format to different digit strings |
| TextWrap.CharWidth | python/utils.py:133-148 | an emoji is as wide as the font size when its asset exists and 0 otherwise; any other character has its glyph width |
| TextWrap.WidthAppend | python/utils.py:165-167 | the width of a line is additive over concatenation |
| TextWrap.WrapFromWrapped | python/utils.py:203-215 | every line the loop emits fits the width or is one oversize character, and only the first can be empty |
| TextWrap.WrapFromConcat | python/utils.py:203-215 | the emitted lines concatenate to the lines so far, the pending line and the unread text |
| TextWrap.WrapFromExtends | python/utils.py:203-215 | the loop only appends lines, and a pending non-empty line starts the next emitted line |
| TextWrap.WrapTextCorrect | python/utils.py:199-216 | the lines join back to the text; empty text gives []; each line fits or is a single oversize character; the first line is empty iff the first character is oversize |
| Panel.Chunks | python/whisplay.py:148-152 | the chunks concatenate back to the data |
| Panel.ChunksShape | python/whisplay.py:150-152 | every chunk has 1..4096 bytes, and there are ceil(n/4096) of them |
| Panel.RunSendData | python/whisplay.py:148-152 | a data phase leaves DC high and appends exactly the data to the current command's parameters |
| Panel.RunSendCommand | python/whisplay.py:141-146 | a command starts a new command with its arguments, and DC is high afterwards iff there were arguments |
| Panel.RunAppend | python/whisplay.py:141-152 | replaying a trace is compositional over concatenation |
| Panel.AddressParamsDecode | python/whisplay.py:156-164 | hi·256+lo recovers each coordinate, and all four parameters are bytes for 16-bit coordinates |
| Panel.OnWire | python/whisplay.py:141-152 | each value sent is put on the wire as the one byte congruent to it modulo 256 |
| Panel.AddressParamsOnWire | python/whisplay.py:156-164 | for coordinates in 0..0xFFFF the wire bytes are the address parameters themselves, so the controller reads the coordinates |
| Panel.NegativeAddressOnWire | python/whisplay.py:156-164 | a coordinate of -1 is sent as 0xFF 0xFF and read by the controller as 0xFFFF |
| Panel.RunSetWindow | python/whisplay.py:154-165 | modes 0/1 send 0x2A x0,x1 then 0x2B y0+20,y1+20, modes 2/3 put the offset on x, then 0x2C; other modes send 0x2C alone |
| Panel.DrawPixel | python/whisplay.py:167-169 | a pixel at or beyond the right or bottom edge produces no traffic |
| Panel.RunDrawPixel | python/whisplay.py:167-171 | an on-screen pixel gives a 1×1 window whose memory write carries the colour's high then low byte |
| Panel.RunFillScreen | python/whisplay.py:192-199 | a full-screen window whose memory write is 240·280 repeated (high, low) pairs |
| Panel.DrawImage | python/whisplay.py:201-203 | an error iff x+width > 240 or y+height > 280 |
| Panel.RunDrawImage | python/whisplay.py:204-205 | an accepted image sets the window (x, y, x+w-1, y+h-1) and sends the pixel data unchanged |
| Panel.BresenhamStep | python/whisplay.py:184-190 | one step moves along at least one axis, never past the end, and keeps the error term's closed form |
| Panel.WalkStep | python/whisplay.py:180-190 | one loop iteration keeps the walk invariant and strictly increases the distance covered |
| Panel.LineStep | python/whisplay.py:184-190 | one pass of the loop body keeps the walk invariant (pixels connected, inside the box, error term tied to the steps taken, trace equal to the pixels drawn) and takes at least one step towards the end point |
| Panel.DrawLine | python/whisplay.py:173-190 | the loop terminates; the line starts at (x0,y0) and ends at (x1,y1); successive pixels are distinct 8-neighbours inside the bounding box; at most dx+dy+1 pixels; the trace is exactly those pixels drawn |
| Panel.SetBacklight | python/whisplay.py:76-79 | a duty is set iff brightness is in 0..100, and it is 100−brightness |
| Panel.BacklightAntitone | python/whisplay.py:76-79 | a brighter setting gives a strictly smaller duty |
| LedFade.TruncDiv | python/whisplay.py:239-241 | `int()` of n/d truncates toward zero: for n ≥ 0 the quotient times d is at most n and within d of it, for n < 0 it is at least n and within d of it |
| LedFade.Clamp | python/whisplay.py:244-246 | the clamped value is a byte: a negative input gives 0, an input above 255 gives 255, and a byte input is kept |
| LedFade.StepBetween | python/whisplay.py:235-247 | for byte endpoints every step lies between start and target, step 0 is start and step 20 is target |
| LedFade.StepMonotone | python/whisplay.py:235-247 | the steps move monotonically toward the target |
| LedFade.FadeWorker | python/whisplay.py:235-248 | the worker checks the cancel flag before every step and returns at the first one set; every step before it sends that step's clamped colour, and the calls are the first k−1 fade steps, k the first flagged step (21 if none) |
| LedFade.FirstFlagged | python/whisplay.py:235-237 | the first step whose cancel check sees the flag set: no earlier check does, and this one does unless no check ever does |
| LedFade.FadeWorkerCalls | python/whisplay.py:235-248 | any call list the worker can produce for a flag sequence equals the fade's first FirstFlagged−1 steps |
| LedFade.FadeEnds | python/whisplay.py:235-248 | an uncancelled fade ends at the target, and the final colour is always in range |
| Display.UpdateDisplayData | python/chatbot-ui.py:259-275 | non-continuation text resets scroll and empties the line cache, otherwise both are kept; every None argument leaves its field and every other argument overwrites it |
| Display.ContinuationKeepsScroll | python/chatbot-ui.py:264-267 | text extending the current text keeps the scroll position and the cache |
| Display.UpdateIdempotent | python/chatbot-ui.py:259-275 | applying the same update twice equals applying it once |
| Display.EmptyUpdateIsIdentity | python/chatbot-ui.py:268-275 | an update with every argument None changes nothing |
| Display.VisibleContiguous | python/chatbot-ui.py:139 | the visible lines form a contiguous run |
| Display.FirstVisible | python/chatbot-ui.py:138-143 | the index of the first visible line at or after i |
| Display.FirstHidden | python/chatbot-ui.py:138-141 | the end of the run of visible lines starting at i |
| Display.ScanBeforeRun | python/chatbot-ui.py:138-143 | the scan collects exactly the visible run and offsets it by the hidden lines before it |
| Display.VisibleWindow | python/chatbot-ui.py:135-143 | the lines shown are lines[a..b], drawn at a·lh, where line j is visible iff a ≤ j < b |
| Display.Advance | python/chatbot-ui.py:160-161 | the top never decreases; it moves iff speed > 0 and top < (n+1)·lh − area, and when it moves it moves by exactly the speed |
| Display.AdvanceFramesBounded | python/chatbot-ui.py:160-161 | over any number of frames the top never decreases, and it stays below the limit plus one speed step once it has moved |
| Display.ScrollAfterFrame | python/chatbot-ui.py:125-126 | empty text returns before scrolling; the top never decreases |
| Render.CropBox | python/chatbot-ui.py:77-89 | a crop box exists iff the image has height |
| Render.CropBoxShape | python/chatbot-ui.py:80-89 | the crop is centred, keeps the full height or the full width, and the other side is the floor of the 240:280 ratio |
| Render.Crop | python/chatbot-ui.py:84 | the cropped image is the box's pixels |
| Render.BatteryFill | python/chatbot-ui.py:224-225 | the body is filled iff the colour is not black, and then with that colour |
| Render.BatteryTextContrast | python/chatbot-ui.py:242-247 | the text is dark on white and light on black, and brighter fills never switch it back to light |
| Render.TextAreaShowsVisibleLines | python/chatbot-ui.py:122-157 | the text area of a frame (with the corrected strip cache) holds exactly the visible wrapped lines, below the height of the hidden lines above them |
| Render.MainTextAsWrittenAgrees | python/chatbot-ui.py:145-157 | as written, the pasted strip shows the visible lines at their offset iff their joined text differs from the cache key or the cached strip is already the right one |
| Render.StaleStripExample | python/chatbot-ui.py:138-157 | as written, ten equal lines scrolled from 24 to 48 pixels keep the strip built at offset 0 although the visible lines now start 24 pixels down |
| Render.MainTextShowsVisibleLines | python/chatbot-ui.py:122-157 | with the cache keyed by the lines and their offset, the text area always shows exactly the visible run at its offset, whatever was cached |
| Render.TextAreaIsMainText | python/chatbot-ui.py:117-157 | the frame's text area is the strip the corrected cache pastes for the wrapped text |
| Render.StaleImageAsWritten | python/chatbot-ui.py:68-72 | as written, a cached image is drawn whatever the current non-empty path is |
| Render.StaleImageExample | python/chatbot-ui.py:68-93 | as written, switching from a.png to b.png keeps showing a.png |
| Render.RenderFrameShowsCurrentImage | python/chatbot-ui.py:64-97 | the corrected frame always shows the image at the current path, or nothing if it cannot be loaded |
| Render.RenderFrameAgrees | python/chatbot-ui.py:64-118 | the corrected frame equals the as-written one whenever the path did not change |
| Render.CameraModeSkips | python/chatbot-ui.py:66-67 | camera mode draws nothing and keeps the scroll position |
| Render.TextFrameTiles | python/chatbot-ui.py:96-118 | without an image, the header and text area tile the screen and the image cache is cleared |
| Render.DrawsFitPanel | python/chatbot-ui.py:64-118 | every draw the frame issues is accepted by the panel's bounds check |
| CameraMode.ExitCameraMode | python/chatbot-ui.py:293-301 | exiting clears the flag and the thread, broadcasts exit_camera_mode, and stops the camera iff one was running |
| CameraMode.ButtonOutsideCameraMode | python/chatbot-ui.py:310-341 | outside camera mode, press and release only broadcast button_pressed / button_released |
| CameraMode.ButtonInCameraMode | python/chatbot-ui.py:312-337 | in camera mode a press records its time and arms a check; a release never broadcasts button_released, and it captures iff release−press ≤ 2 s with a live thread |
| CameraMode.CheckExitsOnlyOnLongPress | python/chatbot-ui.py:303-308 | the check exits iff camera mode is on and release < press, and otherwise does nothing |
| CameraMode.CommandOffIsSilent | python/chatbot-ui.py:399-404 | camera_mode=false clears the flag without broadcasting |
| CameraMode.CommandOnTwiceOrphans | python/chatbot-ui.py:394-398 | turning camera mode on again starts a second thread without stopping the first |
| CameraMode.RunKeepsThreadInCameraMode | python/chatbot-ui.py:293-404 | over any run of events a camera thread exists only while camera mode is on |
| CameraMode.TurnOn | python/chatbot-ui.py:393-398 | camera_mode=true from any state turns camera mode on with a running camera |
| CameraMode.ShortPressScenario | python/chatbot-ui.py:303-335 | from any state in camera mode with a camera, a press at p released at r with p ≤ r ≤ p+2 s captures once, then the check does nothing and the exit timer stops the camera; the clients hear camera_capture then exit_camera_mode |
| CameraMode.LongPressScenario | python/chatbot-ui.py:303-341 | from any state in camera mode, a press still held when the check fires exits camera mode without a capture (stopping a running camera), and any later release then broadcasts button_released |
| Protocol.Wire | python/chatbot-ui.py:414-427 | each reply is one newline-terminated line: "OK", "ERROR: " plus the message, or a {"response": …} object |
| Protocol.ScrollSpeedArg | python/chatbot-ui.py:369 | an absent scroll_speed becomes 2, an explicit null becomes None |
| Protocol.FadeEffects | python/chatbot-ui.py:378-380 | a fade starts iff RGB is truthy, toward its decoded colour |
| Protocol.LightEffects | python/chatbot-ui.py:387-388 | the backlight changes iff brightness is in 1..100, to duty 100−brightness |
| Protocol.CameraCommands | python/chatbot-ui.py:390-404 | the capture path is updated whenever given, and camera mode changes only when camera_mode is given |
| Protocol.HandleCommandReplies | python/chatbot-ui.py:378-427 | for fields of the types the handler expects: an undecodable RGB gives one error reply and changes nothing; otherwise "OK" then a response iff one is truthy, and the display is updated iff a display field is present |
| Protocol.HandleCommandHardware | python/chatbot-ui.py:378-388 | the fade comes first iff RGB is truthy, and a backlight effect occurs iff brightness is in 1..100 |
| Protocol.BatteryColorOutcome | python/chatbot-ui.py:382-412 | in a display update, a missing, null or falsy colour makes the battery black, an undecodable one keeps the old colour, and a decodable one sets it |
| Protocol.ScrollSpeedDefaulting | python/chatbot-ui.py:369 | a display update without scroll_speed sets the speed to 2, and an explicit null keeps it |
| Protocol.CapturePathBeforeCameraMode | python/chatbot-ui.py:390-398 | a capture path given with camera_mode=true is the one the new camera thread uses |
| Protocol.HandleLine | python/chatbot-ui.py:357-358 | a whitespace-only line is skipped; any other line gets at least one reply |
| Protocol.HandleLinesAppend | python/chatbot-ui.py:355-427 | handling lines in sequence composes over concatenation |
| Protocol.RepliesPerLine | python/chatbot-ui.py:355-427 | each non-blank line gets one or two replies |
| Protocol.Frame | python/chatbot-ui.py:355-356 | the complete lines and the remainder contain no newline |
| Protocol.FrameJoin | python/chatbot-ui.py:353-356 | the complete lines and the remainder joined by newlines give back the buffer |
| Protocol.FrameAppend | python/chatbot-ui.py:353-356 | framing a longer buffer first frames the earlier part and then carries its remainder forward |
| Protocol.ChunkingIrrelevant | python/chatbot-ui.py:348-359 | when every received chunk is valid UTF-8 on its own, how the stream is cut into chunks does not change the outcome or the remainder |
| Protocol.ServeStopsAtUndecodable | python/chatbot-ui.py:349-353 | a chunk that is not valid UTF-8 on its own closes the connection: the outcome is that of the chunks before it, and no later chunk is looked at |
| Protocol.ConnectionOutcome | python/chatbot-ui.py:348-359 | a connection whose chunks all decode handles exactly the newline-terminated lines of the decoded stream, in order, answering each, and keeps the remainder |
| Protocol.UndecodableChunkCloses | python/chatbot-ui.py:429-434 | a connection with an undecodable chunk handles only the lines completed before it and is closed for the decoding error |
| Protocol.UnterminatedIgnored | python/chatbot-ui.py:350-356 | data without a newline produces no reply and stays buffered |
| Wav.AsciiSlice | src/utils/wav.ts:8 | the decoded slice has the clamped length of the range |
| Wav.IdAtIsAsciiCompare | src/utils/wav.ts:20-23 | the chunk-id test is the ASCII decoding of four bytes compared with the id |
| Wav.ReadU16 | src/utils/wav.ts:25-29 | a read fails iff it runs past the end, reporting the offset; otherwise the value is below 2^16 |
| Wav.ReadU32 | src/utils/wav.ts:21 | a read fails iff it runs past the end, reporting the offset; otherwise the value is below 2^32 |
| Wav.ReadLe32 | src/utils/wav.ts:21 | reading four little-endian bytes returns the value they encode |
| Wav.Ratio | src/utils/wav.ts:57-59 | the duration is 8·dataSize/(channels·bits·rate) when the divisor is non-zero, NaN for 0/0, and Infinity otherwise |
| Wav.ScanFormat | src/utils/wav.ts:13-37 | the first loop returns the first fmt chunk's fields, none, or the read error |
| Wav.ScanDataSize | src/utils/wav.ts:39-50 | the second loop returns the first data chunk's size, 0, or the read error |
| Wav.ComputeWavDuration | src/utils/wav.ts:2-60 | the whole parse equals the chunk-walk definition, including the early returns of 0 |
| Wav.WalkErrorsAtEnd | src/utils/wav.ts:19-21 | a walk fails only at a header cut short by the end of the buffer |
| Wav.CanonicalFormat | src/utils/wav.ts:13-37 | a canonical 44-byte-header file has RIFF, WAVE and its own format fields |
| Wav.CanonicalData | src/utils/wav.ts:39-50 | a canonical file's data size is its payload length |
| Wav.CanonicalDuration | src/utils/wav.ts:2-59 | a canonical file's duration is its payload over its byte rate |
| SenseVoice.Close | src/cloud-api/m5stack/m5stack-asr.ts:117 | the lazy match closes at the first matching quote, with no quote or line break before it |
| SenseVoice.CloseNone | src/cloud-api/m5stack/m5stack-asr.ts:117 | if no closing quote is found, every later quote is behind a line break |
| SenseVoice.Segments | src/cloud-api/m5stack/m5stack-asr.ts:117-124 | the extracted segments contain no line terminator |
| SenseVoice.NonEmpty | src/cloud-api/m5stack/m5stack-asr.ts:121-123 | empty segments are dropped and the rest are kept in order |
| SenseVoice.LastBracketed | src/cloud-api/m5stack/m5stack-asr.ts:99-108 | the result is a bracketed line of the output, and it is missing iff no line is bracketed |
| SenseVoice.LastBracketedIsLast | src/cloud-api/m5stack/m5stack-asr.ts:102-108 | no bracketed line follows the one chosen |
| SenseVoice.TrimLines | src/cloud-api/m5stack/m5stack-asr.ts:103 | every line is trimmed |
| SenseVoice.RecognizeAudio | src/cloud-api/m5stack/m5stack-asr.ts:36-92 | the result is "" when SenseVoice is unavailable, the audio is missing or the process cannot start; otherwise stdout is parsed, whatever the exit code |
| SenseVoice.SegmentsOfJoin | src/cloud-api/m5stack/m5stack-asr.ts:117-124 | the segments of a quoted, comma-separated list are its items |
| SenseVoice.PyListRoundTrip | src/cloud-api/m5stack/m5stack-asr.ts:99-136 | the printed Python list of plain items parses to the items joined by spaces, or "" for an empty list |
| SenseVoice.LastListWins | src/cloud-api/m5stack/m5stack-asr.ts:99-108 | a list printed on the last line is the one chosen, whatever precedes it |
| PinConvert.LeadingDigits | src/device/pin-convert.ts:27 | the digits taken are the longest digit prefix |
| PinConvert.ParseIntOfFormat | src/device/pin-convert.ts:27 | parseInt of a formatted integer followed by a non-digit returns that integer |
| PinConvert.ParseIntNaN | src/device/pin-convert.ts:27 | parseInt of a string without digits is NaN |
| PinConvert.QueryNeedsSpace | src/device/pin-convert.ts:22 | for all pins n and m, the pattern of pin n occurs in the text "GPIO<m> " iff n = m; without the space, pin 1's "GPIO1" would begin pin 12's text |
| PinConvert.IntToStringInjective | src/device/pin-convert.ts:22 | distinct pins have distinct decimal notations, sign included |
| PinConvert.FirstWithPrefix | src/device/pin-convert.ts:24-25 | the token found starts with the prefix (so an empty token from doubled spaces never matches), and there is none iff no token does |
| PinConvert.FirstWithPrefixIsFirst | src/device/pin-convert.ts:25 | no earlier token starts with the prefix |
| PinConvert.RemovePrefix | src/device/pin-convert.ts:27 | replacing the first "gpio-" in a "gpio-" token yields the rest of the token |
| PinConvert.PinOfLineFound | src/device/pin-convert.ts:24-27 | a line whose first "gpio-" token is "gpio-<n>" plus a non-digit tail yields n |
| PinConvert.ScanNone | src/device/pin-convert.ts:22-31 | the scan finds nothing iff no line both contains the pattern and has a "gpio-" token |
| PinConvert.ScanFromHit | src/device/pin-convert.ts:22-29 | whatever the scan finds comes from a matching line |
| PinConvert.FirstHitDecides | src/device/pin-convert.ts:22-29 | the first matching line decides the result, whatever follows it |
| PinConvert.ConvertPin | src/device/pin-convert.ts:12-32 | a read failure or no matching line returns the input pin |
| PinConvert.ConvertPinFindsPin | src/device/pin-convert.ts:21-28 | when the first line naming the pin has `gpio-<n>` as its first `gpio-` token, the lookup returns n |
| PinConvert.GetData | src/device/pin-convert.ts:6-10 | the first read is cached, and a cached read is returned as is |
| PinConvert.GetDataSticks | src/device/pin-convert.ts:6-10 | the second call returns the first read's result even if the file changed |
| ImageStore.LastOr | src/utils/image.ts:90-103 | the last element, or "" for an empty list |
| ImageStore.SetLatestGenImg | src/utils/image.ts:67-70 | appends to the generated list and sets the display slot, leaving the rest unchanged |
| ImageStore.GetLatestDisplayImg | src/utils/image.ts:72-76 | returns the slot and clears it, leaving the rest unchanged |
| ImageStore.ShowLatest | src/utils/image.ts:78-88 | an empty list gives false and no change; otherwise the slot becomes the last element, the result is whether it is non-empty, and only then is it recorded as shown |
| ImageStore.SetLatestCapturedImg | src/utils/image.ts:94-97 | appends to the captured list and records it as shown, without touching the display slot |
| ImageStore.DisplayConsumedOnce | src/utils/image.ts:72-76 | a second immediate take returns "" and changes nothing |
| ImageStore.GenThenTake | src/utils/image.ts:67-76 | a generated image is both the next image taken and the latest generated one |
| ImageStore.CaptureThenQuery | src/utils/image.ts:94-103 | a captured image is the latest captured and the last shown, and the display slot is unchanged |
| ImageStore.ShowIdempotent | src/utils/image.ts:78-88 | showing the latest generated image twice is the same as once |
| ImageStore.Listed | src/utils/image.ts:21 | only .jpg and .png names from the listing are kept |
| ImageStore.ListedKeepsImages | src/utils/image.ts:21 | every .jpg or .png entry is kept |
| ImageStore.InsertKeepsSorted | src/utils/image.ts:29-30 | inserting into an mtime-sorted list keeps it sorted |
| ImageStore.InsertWithMtime | src/utils/image.ts:29-30 | an inserted entry goes after every entry with the same mtime |
| ImageStore.SortByMtimeSorted | src/utils/image.ts:29-30 | the sorted entries are in ascending mtime order |
| ImageStore.SortByMtimePermutes | src/utils/image.ts:29-30 | sorting is a permutation |
| ImageStore.SortByMtimeStable | src/utils/image.ts:29-30 | entries with equal mtime keep their listing order |
| ImageStore.Paths | src/utils/image.ts:31 | each entry becomes dir/file, in order |
| ImageStore.LoadImages | src/utils/image.ts:16-36 | a failed listing leaves the list unchanged; any load only appends |
| ImageStore.LoadImagesAppendsSorted | src/utils/image.ts:16-33 | a listing appends exactly its .jpg/.png entries, sorted stably by mtime, as dir/file paths |
| ImageStore.InitImageLists | src/utils/image.ts:63-65 | both lists only grow, keeping their existing entries, and the slots are untouched |
| ImageStore.Extname | src/utils/image.ts:122 | the extension is empty or a dot-led, slash-free, single-dot suffix of the path |
| ImageStore.ExtnameOfFile | src/utils/image.ts:122 | dir/stem.ext has extension ".ext" |
| ImageStore.MimeOfFile | src/utils/image.ts:121-138 | a file's MIME type is chosen by its lower-cased extension |
| ImageStore.KnownExtensions | src/utils/image.ts:121-138 | for every extension e: image/jpeg iff lower(e) is .jpg or .jpeg, image/png, gif, bmp, webp iff lower(e) is that extension, and application/octet-stream iff lower(e) is none of the six |
| ImageStore.MimeIgnoresCase | src/utils/image.ts:122 | extensions that differ only in letter case get the same type |
| ImageStore.KnownExtensionSpellings | src/utils/image.ts:121-138 | examples: .JPG, .jpeg, .Png, .GIF, .bmp, .WebP get their image types and .tiff the generic one |
| ImageStore.ExtnameNone | src/utils/image.ts:122 | a last component with no dot, or only a leading one, has no extension |
| ImageStore.MimeOfNoExtension | src/utils/image.ts:135-136 | a path without an extension gets application/octet-stream |
| ImageStore.MimeOfDotfile | src/utils/image.ts:121-138 | ".png" on its own is a dotfile with no extension |

## Left out

- Sockets, threads and timers are not modelled as such.
  - A connection is the sequence of received chunks.
  - Button and timer callbacks are explicit events carrying millisecond timestamps.
  - Concurrent clients, the fade thread's join/cancel race and the loaders running concurrently are not modelled.
- GPIO, SPI, PWM and the fixed panel init and reset sequences are hardware. The model records the DC level and the written bytes as a trace; the sleeps and the init command table are not modelled.
- PIL, cv2, cairosvg and picamera2 are external libraries.
  - Images are abstract pixel grids.
  - Thumbnailing, LANCZOS resizing and rasterising are function parameters.
  - Glyph widths and the emoji asset check come from an abstract font.
  - The camera capture loop (python/camera.py) is not part of this model.
- `unicodedata.category` is an uninterpreted predicate.
- JSON parsing and `json.dumps` are parameters.
  - A command is an already-parsed record with optional fields, plus a parse-error case.
  - Only the error and reply shapes are modelled.
- File-system access is replaced by its results: `readFile`, `readdir`, `stat`, `existsSync` and process spawning.
  - A read is an `Option` of its contents.
  - A directory listing is an `Option` of (name, mtime) entries.
- Render.CropBox: the crop ratio is computed in exact rational arithmetic (240:280), not in Python floats.
- Color.Luminance: computed in integer thousandths, not in floating point.
- LedFade.StepValue: computed in integers, not in floating point.
- Wav.Ratio: the duration is an exact fraction, not a float.
- `set_rgb` duty cycles are floating point and are not modelled.
- The fps of the render loop and the frame timing are not modelled.
- ImageStore.Extname: follows `path.extname` for POSIX paths without normalisation. `path.join`'s collapsing of repeated or trailing separators is not modelled: JoinPath is plain concatenation with "/".
- ImageStore.MimeType: lower-cases with ASCII folding only; JavaScript's full Unicode `toLowerCase` is not modelled.
- PinConvert.ParseInt10: models `parseInt(s, 10)` only for integral results. Number precision beyond 2^53 is not modelled.
- Render.TextArea: glyph drawing is not modelled; a strip is described by its lines and the blank height above them. The frame uses the corrected strip cache (see Findings), which always shows the visible lines at their offset; the cache as written, keyed by the joined visible text alone, is modelled separately by Render.MainTextAsWritten.
- Render.MainTextAsWritten: pasting a strip that was never built (`NoStrip`: the joined visible text equals the initial empty key before any strip exists) hands `None` to the imaging library; what that does is not modelled.
- Protocol.HandleCommandReplies (and Protocol.HandleCommand): command fields are assumed to have the types the handler expects: brightness and scroll_speed are integers, and status, emoji, text and the paths are strings. Only two fields of another type make the source raise inside the handler, after some effects have already happened, and answer `ERROR: <message>`: a `text` that is not a string raises at `text.startswith` (python/chatbot-ui.py:265), for example `"text": 5` or `5.0`; a truthy `brightness` that is not a number, for example `"50"` or a list, raises at the range comparison in `set_backlight` (python/whisplay.py:77). That error path is not modelled. Every other ill-typed field passes through the handler and is answered "OK": a float brightness such as 50.0 sets a duty of 50.0, and an ill-typed status, emoji, battery_level, image, capture_image_path or scroll_speed is stored as given. Those values are not modelled either, nor is any failure they cause later in the render thread.
- Protocol.Serve: UTF-8 decoding of a received chunk is a parameter (`decode`), `None` where Python's `bytes.decode` raises.
- The TypeError text for a truthy RGB that names no colour (`Protocol.UnpackNone`) is CPython 3.9 and later's wording, which names the method with its module; CPython 3.8 and earlier omit the `whisplay.WhisplayBoard.` part.
- The header's text placement and the battery outline geometry are not modelled, since they are PIL drawing calls. Only the fill and the text-colour decisions are modelled.
- Panel.Run: the trace and the commands it folds into hold the Python integers handed to spidev, not the bytes on the wire. The conclusions of Panel.RunSetWindow, Panel.RunDrawPixel and Panel.RunDrawImage describe what the controller reads only for coordinates in 0..0xFFFF (Panel.AddressParamsOnWire); for negative coordinates such as `draw_pixel(-1, 0, c)` the controller reads 0xFFFF instead (Panel.NegativeAddressOnWire).
- Panel.SetBacklight: brightness outside 0..100 is ignored, not clamped.

## Findings

| source | as written | input that shows it | evidently intended | confidence | as-written member | corrected member |
|---|---|---|---|---|---|---|
| python/chatbot-ui.py:68-72 | once an image is cached, `render_frame` redraws the cached image for any non-empty `current_image_path`; the cache is only cleared when the path becomes empty | show "a.png", then send `{"image": "b.png"}` without an empty image in between: the frame keeps showing a.png | the frame shows the image at the current path, reloading it when the path changes | not executed | Render.StaleImageExample | Render.RenderFrameShowsCurrentImage |
| python/chatbot-ui.py:145-157 | the text strip is cached under `"".join(display_lines)` alone, so a new strip is built only when the joined visible text changes; the blank height above the lines (`render_y`) is not part of the key | ten equal wrapped lines of 24-pixel height, scrolled with `scroll_speed` 24: at 24 lines 0..8 are visible, at 48 lines 1..9, which join to the same text, so the strip built at offset 0 is pasted again and the last visible line is missing | the cached strip is reused only for the same visible lines at the same offset | not executed | Render.StaleStripExample | Render.MainTextShowsVisibleLines |
