# Load-cell bench: verified model of the protocol, the worker and the dashboard logic

The system is a load-cell force bench (balancaGFIG). A microcontroller streams
binary frames over a serial line. A Python gateway (`server.py`) checks and
decodes them, turns them into JSON and broadcasts that over a WebSocket. The
gateway also turns JSON commands from the browser back into binary command
frames. In the browser:

- a worker (`data/dataWorker.js`) splits the WebSocket text into JSON
  objects, buffers force readings for the page and turns the page's text
  commands into JSON;
- the dashboard (`script.js`) plots a sliding or accumulating window of
  readings, runs a calibration wizard and merges locally stored sessions
  with those of the database;
- the burn analysis (`burn_analysis.js`, `data/burn_analysis.js`) selects
  the burn window of a recorded motor test;
- two "Thor's hammer" strength games (`data/martelo-do-thor.js`,
  `data/martelo-do-thor-novo.js`) keep peaks, attempts and rankings.

This project models that core in Dafny and proves what it promises.

| file | module | models |
|---|---|---|
| `wrappers.dfy` | `Wrappers` | `Option` |
| `bytes.dfy` | `Bytes` | little-endian `struct` fields `<H`, `<I`, `<i` |
| `crc.dfy` | `Crc16` | `crc16_ccitt`, as a loop proved equal to a masked specification |
| `json.dfy` | `Json` | JSON values, binary32 floats as bit patterns, `sanitize_for_json` |
| `codec.dfy` | `Codec` | the three frame decoders and the command encoder |
| `framesync.dfy` | `FrameSync` | the resynchronising loop of `serial_reader`, as class `Synchronizer` |
| `jstext.dfy`, `jsnumber.dfy` | `JsText`, `JsNumber` | the JavaScript string and number built-ins the worker and the pages use (`trim`, `split`, `lastIndexOf`, `parseInt`, `parseFloat`, `String(n)`) |
| `splitter.dfy` | `Splitter` | the worker's JSON stream splitter, as class `MessageBuffer` |
| `dataworker.dfy` | `DataWorker` | the WebSocket address, `sendCommand` parsing, and the reading buffer as class `DataBuffer` |
| `burn.dfy` | `BurnAnalysis` | burn-window detection and filtering, and the editor state as class `BurnEditor` |
| `ranking.dfy` | `Ranking` | the stable sort by descending key that both games use |
| `martelo.dfy` | `ThorHammer` | the fullscreen game, as class `Game` |
| `martelo_novo.dfy` | `HammerTest` | the in-page test and its roster, as class `Hammer` |
| `sessions.dfy` | `SessionList` | the local/database session merge |
| `ui.dfy` | `Dashboard` | the wizard, the chart window, the unit cycle and the page-to-worker command message |

Modelling choices:

- Bytes are integers in 0..255.
- A binary32 field is kept as its 32-bit pattern. NaN and the infinities are
  recognised by the exponent field, so no floating-point arithmetic is
  modelled.
- Browser numbers are rationals, NaN or ±Infinity.
- Readings, times and forces in the pages are `real`.
- The Python and JavaScript loops that update state are Dafny methods with
  loop invariants. Each is proved equal to a specification function, and the
  properties are proved about that function.

## Model

| member | source | states |
|---|---|---|
| Crc16.Crc16Ccitt | server.py:1143-1149 | the register loop, run unmasked as written, returns a value below 0x10000, returns 0xFFFF for no data, and equals the CRC-16/CCITT-FALSE that masks to 16 bits after every shift |
| Crc16.RawShiftsLow | server.py:1146-1149 | masking once after any number of unmasked shifts equals masking after each shift, because only bit 15 ever decides the xor |
| Crc16.CrcAppend | server.py:1145-1148 | one more byte is xored into the high byte of the CRC of the bytes before it, then shifted eight times |
| Crc16.ByteStep | server.py:1145-1148 | one pass of the outer loop takes a register whose low 16 bits are the CRC of a prefix to one whose low 16 bits are the CRC of the prefix one byte longer |
| Crc16.Crc | server.py:1143-1149 | the CRC-16/CCITT-FALSE of any data, masked after every shift, fits 16 bits |
| Bytes.Le16RoundTrip | server.py:1241 | a `<H` field written at an offset reads back as the same value |
| Bytes.Le32RoundTrip | server.py:1235-1239 | a `<I` field written at an offset reads back as the same value |
| Bytes.U16AtInverse | server.py:1154 | writing back a `<H` field that was read gives the same two bytes |
| Bytes.U32AtInverse | server.py:1154 | writing back a `<I` field that was read gives the same four bytes |
| Bytes.I32At | server.py:1170 | a signed `<i` field lies in the 32-bit range and is non-negative exactly when its top byte is below 128 |
| Codec.Header | server.py:98-108 | the header reads magic 0xA1B2, version 1 and the given type |
| Codec.MagicBytes | server.py:1306 | the little-endian magic field is 0xA1B2 exactly when the first two bytes are B2 A1, the marker the reader searches for |
| Codec.SealCrcOk | server.py:1238-1241 | a frame passes the decoders' CRC check exactly when it is its first bytes followed by their little-endian CRC, as the encoder builds it |
| Codec.Seal | server.py:1238-1241 | sealing keeps the body and adds two bytes |
| Codec.DecodeData | server.py:1151-1160 | a DATA event comes only from a 16-byte frame with magic, version 1, type 0x01 and a matching CRC |
| Codec.DataRoundTrip | server.py:1151-1160 | every DATA frame a device sends decodes to its time in seconds (`t_ms/1000`), its force and its raw status byte, whatever the padding byte |
| Codec.DataAcceptedIsFrame | server.py:1151-1160 | every frame the DATA decoder accepts is the DATA frame of the fields it reports |
| Codec.DecodeConfig | server.py:1162-1184 | a CONFIG result comes only from a 64-byte frame with the right header and CRC, and holds no NaN or infinity |
| Codec.ConfigRoundTrip | server.py:1162-1184 | a CONFIG frame is accepted whatever its 58-byte field block holds, reserved bytes included |
| Codec.ConfigAcceptedIsFrame | server.py:1162-1169 | every accepted CONFIG frame is the CONFIG frame of its own field block |
| Codec.ConfigDecoded | server.py:1170-1184 | the decoded config has exactly fourteen keys, `type` and the thirteen fields of the layout, each field sanitised |
| Codec.ConfigIntValues | server.py:1170-1180 | every integer field of the config is reported as the layout places it, `tareOffset` as a signed 32-bit value |
| Codec.ConfigFloatValues | server.py:1170-1182 | every binary32 field is reported as it is, unless it is NaN or infinite, which becomes null |
| Codec.KindNames | server.py:1194-1197 | kinds 0..3 have four different names; any other kind reads as "info" |
| Codec.Hex2RoundTrip | server.py:1198 | a code rendered as two upper-case hexadecimal digits reads back as the same code |
| Codec.StatusMessageInjective | server.py:1195-1198 | two codes with the same status message are the same code, so the message never loses the code |
| Codec.DecodeStatus | server.py:1186-1200 | a STATUS event comes only from a 14-byte frame with the right header and CRC |
| Codec.StatusRoundTrip | server.py:1186-1200 | every STATUS frame decodes, for every kind and every code, to its kind name, message, code, value and time in seconds |
| Codec.StatusAcceptedIsFrame | server.py:1186-1193 | every accepted STATUS frame is the STATUS frame of the fields it reports |
| Codec.Lower | server.py:1204 | the command name is lower-cased character by character: each ASCII capital becomes its small letter and every other character is kept |
| Codec.LowerKeepsLower | server.py:1204 | a name with no upper-case letter is its own lower case |
| Codec.NameCaseIgnored | server.py:1204 | names that differ only in case, such as `TARA` and `Tara`, `C` and `Calibrate`, `GET_CONFIG`, `SET` and `Set_Param`, select the same command |
| Codec.CommandName | server.py:1204 | the name is read exactly when `cmd` is text (`.lower()` raises otherwise), keeps its length, and is empty when `cmd` is missing |
| Codec.Trunc | server.py:1234 | `int(x)` truncates toward zero |
| Codec.PyFloat | server.py:1210 | `float()` fails exactly on null, lists, objects and strings `float(str)` rejects; a float passes unchanged |
| Codec.PyInt | server.py:1234 | `int()` fails exactly on null, lists, objects, NaN, infinities and strings `int(str)` rejects; a finite float becomes an integer less than 1 away from it |
| Codec.PackIntField | server.py:1234-1239 | the integer field holds the parameter's value: unsigned as written, two's complement for the signed parameter when corrected |
| Codec.EmptyCommand | server.py:1207-1214 | TARA and GET_CONFIG frames are well formed with a zero u16 payload |
| Codec.EncodeCalibrate | server.py:1209-1212 | a CALIBRATE result is a well-formed frame of type 0x11; `massa_g` goes through Python's `float()`, strings included |
| Codec.SetParamCommand | server.py:1235-1241 | the SET_PARAM frame is well formed, of type 0x13, and carries the id, float bits and integer of its body |
| Codec.EncodeSetParam | server.py:1215-1236 | a SET_PARAM result is a well-formed frame of type 0x13; the value goes through Python's `float()` or `int()`, strings included |
| Codec.EncodeCommand | server.py:1203-1244 | every frame the encoder produces, numeric text arguments included, has a known type, that type's exact size, the header and a valid CRC |
| Codec.EncodeWith | server.py:1203-1244 | with either packing of the integer field, every frame the encoder produces is well formed |
| Codec.EncodeFollowsName | server.py:1204-1244 | a frame is produced only for a known lower-cased name and has the type that name selects; `t`/`tara` and `get_config` always give an 8-byte frame with zero payload; unknown names give nothing |
| Codec.CalibrateFrame | server.py:1209-1212 | CALIBRATE is sent exactly when `massa_g` (a number, a boolean or a numeric string) converts with `float()` to a value above zero that packs to binary32, never when it is missing, and its payload is that value |
| Codec.SetParamFrame | server.py:1215-1236 | SET_PARAM is sent if and only if the parameter is in the table and its value (numeric strings included) converts with `float()` and packs, or converts with `int()` and fits the unsigned field; the frame carries the id, a float parameter fills the float field and leaves the integer 0, an integer parameter the reverse |
| Codec.NegativeTareOffsetDropped | server.py:1224-1239 | as written, a negative `tareOffset` gives no frame (the unsigned pack raises) |
| Codec.EncodeCommandCorrected | server.py:1203-1244 | the corrected encoder also produces only well-formed frames |
| Codec.TareOffsetCorrected | server.py:1224-1239 | corrected, every 32-bit `tareOffset` is sent with id 0x08 and its field reads back as the same signed value |
| Json.ExponentField | server.py:1127 | the exponent field of a binary32 pattern is below 256 |
| Json.Sanitize | server.py:1119-1130 | the result holds no NaN or infinity; lists keep their length and each element is that element sanitised; dicts keep their keys and each value is that value sanitised; a non-finite float becomes null; a finite float and any other scalar are unchanged |
| Json.SanitizeAt | server.py:1119-1130 | a path reaches a value in the result exactly when it reaches one in the input, and what it reaches is the input's value sanitised |
| Json.SanitizeLeaf | server.py:1119-1130 | a scalar at any depth is kept, unless it is a non-finite float, which becomes null in the same place |
| Json.SanitizeClean | server.py:1119-1130 | a value holding no NaN or infinity is left exactly as it is |
| Json.SanitizeIdempotent | server.py:1119-1130 | sanitising twice is sanitising once |
| FrameSync.FindMagic | server.py:1306 | the result is the first index of the marker B2 A1, or -1 when there is none |
| FrameSync.FrameSize | server.py:1327-1328 | only the three frame types have a size, between 8 and 64 |
| FrameSync.Invalid | server.py:1333-1338 | one more invalid frame keeps the counter within its limit, and either keeps the buffer or clears buffer and counter together |
| FrameSync.Step | server.py:1305-1359 | every pass of the loop that does not stop shrinks the buffer, so the loop ends |
| FrameSync.DrainShort | server.py:1305 | a buffer shorter than eight bytes is left as it is and nothing is emitted |
| FrameSync.Drain | server.py:1305-1359 | every event emitted used up at least eight bytes of the buffer, so the loop never leaves more than it was given |
| FrameSync.NoMarkerKeepsTail | server.py:1307-1311 | a buffer of eight bytes or more with no marker keeps only its last 256 bytes, or all of them when shorter, emits nothing and leaves the counter alone |
| FrameSync.DrainBounds | server.py:1307-1311 | after the loop at most 256 bytes stay buffered and the counter is within its limit |
| FrameSync.DrainSuffix | server.py:1305-1359 | the loop only ever removes bytes from the front of the buffer |
| FrameSync.DrainQuiescent | server.py:1305-1359 | running the loop again on the state it left changes nothing and emits nothing |
| FrameSync.DrainSettles | server.py:1305-1359 | wherever it starts within the counter's limit, the loop ends in a settled state |
| FrameSync.DecodedFrameIsGood | server.py:1327-1348 | a whole frame of a known type that decodes is one the reader accepts |
| FrameSync.DataFrameIsGood | server.py:1151-1160 | every DATA frame a device sends is accepted by the reader |
| FrameSync.StepGoodFrame | server.py:1340-1352 | a good frame at the front is cut off, decoded and emitted, and the counter is reset |
| FrameSync.DrainNoiseThenFrames | server.py:1305-1352 | noise without a marker followed by good frames yields exactly the frames' events, in stream order, and an empty buffer |
| FrameSync.PartialFrameWaits | server.py:1340-1341 | an incomplete frame is kept whole and nothing is emitted until the rest arrives |
| FrameSync.UnknownTypeDropsOneByte | server.py:1330-1338 | a marker followed by an unknown type byte costs exactly one byte and one count |
| FrameSync.StepRejectedFrame | server.py:1343-1359 | a whole frame of a known type that its parser rejects is cut off at once, emits nothing and costs one count |
| FrameSync.CorruptDataFrameDropped | server.py:1343-1359 | a DATA frame whose CRC does not match is dropped whole and counted |
| FrameSync.StopIsQuiescent | server.py:1305-1341 | a pass that stops leaves a state on which the next pass stops at once in the same state |
| FrameSync.Synchronizer.constructor | server.py:1296-1298 | a connection starts with an empty buffer and a zero counter |
| FrameSync.Synchronizer.Pass | server.py:1305-1359 | one pass of the loop changes the buffer and the counter as the pass specification says and returns its event |
| FrameSync.Synchronizer.Feed | server.py:1300-1359 | after a chunk, the buffer, the counter and the events emitted in order are those of the whole loop over the old buffer plus the chunk, and the state is settled again |
| JsText.Trim | data/dataWorker.js:43 | the result is the slice of the text between its leading and trailing white space, with no white space at either end |
| JsText.TrimIdempotent | data/dataWorker.js:43 | trimming twice is trimming once |
| JsText.TrimNoSpace | data/dataWorker.js:326 | a text with no white space at either end is its own trim |
| JsText.LastIndexOf | data/dataWorker.js:51-52 | the result is the last index holding the character, or -1 when none does |
| JsText.Split | data/dataWorker.js:321 | a split has at least one piece, and no piece holds the separator |
| JsText.SplitJoin | data/dataWorker.js:321 | joining the pieces of a split with the separator gives back the text |
| JsText.SplitTwo | data/dataWorker.js:321-325 | a text holding the separator exactly once splits into exactly the two parts around it |
| JsNumber.LeadingDigits | script.js:602 | the count of leading decimal digits stops at the first non-digit |
| JsNumber.ParseInt | script.js:602 | blank text is NaN; text starting, after white space, with a digit (and not `0x`) is a non-negative integer; a negative result needs a leading `-` |
| JsNumber.ParseFloat | data/dataWorker.js:304 | blank text is NaN; text starting, after white space, with a digit is a non-negative number; a negative result needs a leading `-` |
| JsNumber.NatToString | script.js:600 | the decimal rendering of a natural number is a non-empty string of digits |
| JsNumber.DigitsOfNatToString | script.js:600 | the digits of the rendering spell the number |
| JsNumber.ParseIntNatToString | script.js:602 | `parseInt(String(n))` is `n` |
| JsNumber.ParseIntNegative | script.js:602-603 | `parseInt("-" + String(n))` is `-n`, which the max-points handler refuses |
| JsNumber.ParseIntNaN | script.js:602-603 | text that does not start, after white space, with a sign or a digit parses to NaN |
| JsNumber.ParseFloatNatToString | data/dataWorker.js:304 | `parseFloat(String(n))` is `n` |
| JsNumber.ParseFloatNaN | data/dataWorker.js:304-305 | text that does not start, after white space, with a sign, a digit, a point or `Infinity` parses to NaN |
| Splitter.Scan | data/dataWorker.js:105-130 | the scan ends, if it does, at a closing bracket at or after its start |
| Splitter.FindEnd | data/dataWorker.js:105-130 | the inner `for` loop returns -1 exactly when the scan does not finish, and otherwise the index where the depth returns to 0 |
| Splitter.SplitFrom | data/dataWorker.js:98-144 | the outer loop stops at or after its start and within the text |
| Splitter.Leftover | data/dataWorker.js:145-149 | the buffer after a message never exceeds 10000 characters |
| Splitter.SplitReconstructs | data/dataWorker.js:99-145 | the skipped characters and candidates, in order, followed by what is left, are exactly the text |
| Splitter.SplitStops | data/dataWorker.js:131-145 | the loop stops at the end of the text or at an opening bracket whose object is incomplete |
| Splitter.SplitPieces | data/dataWorker.js:99-130 | no skipped character is `{` or `[`, and every candidate, split again on its own, is exactly one candidate |
| Splitter.ScanWindow | data/dataWorker.js:109-130 | the scan only reads characters up to where it ends |
| Splitter.ScanExtend | data/dataWorker.js:109-130 | text appended after a finished scan does not change it |
| Splitter.SplitExtend | data/dataWorker.js:99-144 | text appended after where the loop stopped does not change the candidates before that point |
| Splitter.SplitDrop | data/dataWorker.js:145 | text in front of where the loop starts leaves its candidates unchanged and shifts where it stops |
| Splitter.SplitDelivery | data/dataWorker.js:96-150 | when the leftover is within the cap, two messages hand `JSON.parse` the same candidates, and leave the same rest, as their concatenation in one message |
| Splitter.MessageBuffer.constructor | data/dataWorker.js:13 | the buffer starts empty |
| Splitter.MessageBuffer.OnMessage | data/dataWorker.js:96-150 | the candidates handed over are those of the old buffer plus the message, in order, and the new buffer is their leftover, dropped when over 10000 characters |
| DataWorker.WithScheme | data/dataWorker.js:46-48 | the address starts with `ws://` or `wss://` |
| DataWorker.FallbackUrl | data/dataWorker.js:33-41 | without a custom address, port 81 on the page's host, or on localhost in development |
| DataWorker.NormalizeUrl | data/dataWorker.js:43-62 | a custom address is trimmed, given a scheme, and given `:81` or nothing more |
| DataWorker.ConnectUrl | data/dataWorker.js:30-62 | without a custom address the fallback is opened, otherwise the custom address normalised as written; either way the address has a WebSocket scheme |
| DataWorker.NoBracketNoDefaultPort | data/dataWorker.js:51-60 | as written, an address without `]` never receives `:81`, because the scheme's own `:` is found |
| DataWorker.BareHostAsWritten | data/dataWorker.js:51-60 | as written, a bare host is left without a port |
| DataWorker.DeviceAddressAsWritten | data/dataWorker.js:51-60 | as written, the device's own address 192.168.4.1 is opened without a port |
| DataWorker.NormalizeUrlCorrected | data/dataWorker.js:43-62 | the corrected normaliser also only trims, adds a scheme and possibly `:81` |
| DataWorker.BareHostCorrected | data/dataWorker.js:51-60 | corrected, a bare host receives `:81`, the address the fallback builds for the same host |
| DataWorker.HostPortCorrected | data/dataWorker.js:51-60 | corrected, a host with a port keeps its port and gets no second one |
| DataWorker.Ipv6Literal | data/dataWorker.js:51-60 | a bracketed IPv6 literal without a port receives `:81`, both as written and corrected |
| DataWorker.Ipv6PortCorrected | data/dataWorker.js:51-60 | corrected, a bracketed IPv6 literal with a port keeps its port |
| DataWorker.SendCommand | data/dataWorker.js:273-366 | nothing is sent while the socket is not open; an unknown payload is refused with `Comando desconhecido: ` and the payload; a calibration is sent only with a numeric mass above 0; a parameter only with a numeric value and a name without `:` |
| DataWorker.SendCommandCases | data/dataWorker.js:288-355 | on an open socket, `c:` sends the mass read by `parseFloat` exactly when it is above 0 and otherwise gives the mass error; `set_param:` with other than two parts gives the format error; with two parts it sends exactly when the value reads as a number, the name being the trimmed first part and the value `parseFloat` of the second; each command kind comes only from its own prefix |
| DataWorker.SetParamTooManyParts | data/dataWorker.js:320-354 | a parameter request with three or more parts is refused with the format error |
| DataWorker.CalibrateSends | data/dataWorker.js:303-313 | `c:<t>` on an open socket sends `parseFloat(t)` grams whenever that is a number above 0, whatever the text |
| DataWorker.SetParamSends | data/dataWorker.js:316-345 | `set_param:<p>:<t>` sends the trimmed name and `parseFloat(t)`, or the invalid-value error naming the trimmed parameter when `t` is not a number |
| DataWorker.CalibrateRoundTrip | data/dataWorker.js:303-313 | `c:<n>` sends a calibration of n grams when n > 0 and is refused when n is 0 |
| DataWorker.SetParamRoundTrip | data/dataWorker.js:316-345 | `set_param:<p>:<n>` sends parameter p with value n |
| DataWorker.SetParamNeedsTwoParts | data/dataWorker.js:320-354 | a parameter request without a second `:` is refused with the format error |
| DataWorker.JsonNumber | data/dataWorker.js:370 | a number is serialised as JSON to the same value, and NaN or ±Infinity to null |
| DataWorker.CommandReachesDevice | data/dataWorker.js:368-374 | tare and configuration requests always become their frames at the gateway; a finite mass becomes a frame when it packs to binary32; an infinite mass arrives as null and gives no frame |
| DataWorker.PointOf | data/dataWorker.js:190-212 | only an object whose `type` is `data` contributes a reading |
| DataWorker.ListPoints | data/dataWorker.js:157-162 | an array contributes at most one reading per element |
| DataWorker.NullStopsArray | data/dataWorker.js:157-162 | elements after a `null` element are never read, because reading `null` throws |
| DataWorker.ArrayInOrder | data/dataWorker.js:157-162 | without `null` elements an array contributes the readings of its parts, in order |
| DataWorker.DataBuffer.constructor | data/dataWorker.js:4 | the buffer starts empty, with nothing received or delivered |
| DataWorker.DataBuffer.ProcessDataPoint | data/dataWorker.js:190-212 | a `data` reading is appended to the buffer and to the readings received; nothing else is |
| DataWorker.DataBuffer.ProcessMessage | data/dataWorker.js:156-185 | the message's readings are appended in order, and what was delivered followed by what waits is still all that was received |
| DataWorker.DataBuffer.RequestData | data/dataWorker.js:259-267 | a non-empty buffer is posted whole and emptied; an empty one posts nothing; no reading is lost or posted twice |
| BurnAnalysis.SeqMax | burn_analysis.js:218 | `Math.max` over a non-empty list is one of its values and no value exceeds it |
| BurnAnalysis.SeqMin | burn_analysis.js:64 | `Math.min` over a non-empty list is one of its values and no value is below it |
| BurnAnalysis.FirstAbove | burn_analysis.js:221-225 | the first index from the start whose force exceeds the threshold, or none when no force does |
| BurnAnalysis.LastAbove | burn_analysis.js:235-239 | the last index whose force exceeds the threshold, or none when no force does |
| BurnAnalysis.BurnStart | burn_analysis.js:216-228 | the start is undefined exactly for an empty recording and is otherwise one of its times |
| BurnAnalysis.BurnEnd | burn_analysis.js:230-242 | the end is undefined exactly for an empty recording and is otherwise one of its times |
| BurnAnalysis.BurnStartIsFirstAbove | burn_analysis.js:216-228 | the start is the time of the first sample above 5% of the peak force, or the first time when no sample is above it |
| BurnAnalysis.BurnEndIsLastAbove | burn_analysis.js:230-242 | the end is the time of the last sample above 5% of the peak force, or the last time when no sample is above it |
| BurnAnalysis.DetectBurnStart | burn_analysis.js:216-228 | the loop returns the time of the first sample above 5% of the peak force, else the first time; `data/burn_analysis.js:123-135` holds the same code |
| BurnAnalysis.DetectBurnEnd | burn_analysis.js:230-242 | the loop returns the time of the last sample above 5% of the peak force, else the last time; `data/burn_analysis.js:137-149` holds the same code |
| BurnAnalysis.PositivePeakIsFound | burn_analysis.js:216-242 | with a positive peak neither search falls back, and the first hit is not after the last |
| BurnAnalysis.DetectedWindowOrdered | burn_analysis.js:216-242 | on a recording in time order with a positive peak, the detected start is not after the detected end |
| BurnAnalysis.Indices | burn_analysis.js:52-60 | the picked indices are increasing and each one is selected |
| BurnAnalysis.IndicesComplete | burn_analysis.js:52-60 | every selected index is picked |
| BurnAnalysis.PickAt | burn_analysis.js:52-60 | the k-th filtered value is the value at the k-th selected index, so filtered times and forces stay paired |
| BurnAnalysis.WindowMask | burn_analysis.js:53 | a sample is selected exactly when its time lies between start and end inclusive |
| BurnAnalysis.Span | burn_analysis.js:63-65 | the duration of the filtered samples is never negative |
| BurnAnalysis.FilterWindow | burn_analysis.js:52-60 | the loop's filtered times, forces and kgf values are exactly the samples selected by the window, in order |
| BurnAnalysis.FilterIsWindow | burn_analysis.js:52-60 | every filtered time lies in the window, paired with its own force, and every sample of the window is kept |
| BurnAnalysis.WholeRecordingKept | burn_analysis.js:52-60 | a window covering the whole recording keeps every sample |
| BurnAnalysis.ApplyBurnPoints | burn_analysis.js:25-76 | no result exactly when the session or its table is missing; otherwise saved points win unless null or undefined, the custom flag mirrors the saved start, and the filtered arrays, count and duration are those of the window; `data/burn_analysis.js:13-64` holds the same code |
| BurnAnalysis.ModalPoint | burn_analysis.js:102-103 | `saved \|\| detected`: the saved point unless it is missing or exactly 0, and then the detected one |
| BurnAnalysis.ModalDiffersOnlyAtZero | burn_analysis.js:102-103 | the modal and the filter pick different points exactly when a saved point is 0 and detection gives another value |
| BurnAnalysis.Click | burn_analysis.js:383-390 | a click moves one endpoint to the clicked time and leaves the other |
| BurnAnalysis.ClickMovesCloser | burn_analysis.js:383-390 | the start moves exactly when it is strictly closer to the click; on a tie the end moves |
| BurnAnalysis.ClickIdempotent | data/burn_analysis.js:194-203 | clicking the same time twice is clicking it once |
| BurnAnalysis.BurnEditor.constructor | data/burn_analysis.js:4-5 | no session is loaded and both points are null |
| BurnAnalysis.BurnEditor.Open | data/burn_analysis.js:66-95 | a missing or empty recording changes nothing; otherwise the session is loaded with saved points read through `\|\|` and the rest detected |
| BurnAnalysis.BurnEditor.Close | data/burn_analysis.js:109-121 | closing unloads the session and clears both points |
| BurnAnalysis.BurnEditor.OnChartClick | data/burn_analysis.js:191-203 | the endpoints become those of the click rule |
| BurnAnalysis.BurnEditor.OnStartInput | data/burn_analysis.js:357-366 | a numeric entry replaces the start while a session is loaded; anything else is ignored; the end never changes |
| BurnAnalysis.BurnEditor.OnEndInput | data/burn_analysis.js:368-377 | a numeric entry replaces the end while a session is loaded; anything else is ignored; the start never changes |
| Ranking.InsertSorted | data/martelo-do-thor.js:470 | inserting into a ranking in order keeps it in order |
| Ranking.SortDescSorted | data/martelo-do-thor.js:470 | the sort orders by descending key |
| Ranking.SortDescPermutes | data/martelo-do-thor.js:470 | the sort neither loses nor duplicates an entry |
| Ranking.SortDescOfSorted | data/martelo-do-thor.js:470 | a ranking already in descending order is left unchanged by the sort |
| Ranking.AddToSorted | data/martelo-do-thor.js:462-470 | appending one entry to a ranking in order and sorting places it after every entry with an equal or higher key |
| Ranking.TakeSorted | data/martelo-do-thor.js:471 | keeping the leading entries keeps the order and adds nothing |
| Ranking.TakeAround | data/martelo-do-thor.js:471 | an entry at index i survives the cut to n exactly when i < n |
| Ranking.StrictMaxFirst | data/martelo-do-thor-novo.js:273 | an entry whose key is strictly above every other sorts first |
| ThorHammer.MaxOr0 | data/martelo-do-thor.js:263-269 | the maximum starting at 0 bounds every value and is 0 or one of them |
| ThorHammer.MaxOr0Append | data/martelo-do-thor.js:263-269 | one more reading raises the maximum to it when it exceeds it |
| ThorHammer.ForceColor | data/martelo-do-thor.js:363-370 | the colour is one of the six; blue exactly below 10 kg and magenta exactly from 200 kg |
| ThorHammer.Level | data/martelo-do-thor.js:372-386 | the sound level is at most 6 and is 0 exactly for a force at or below 0 |
| ThorHammer.LevelMonotone | data/martelo-do-thor.js:372-386 | the level never falls as the force rises |
| ThorHammer.ColorMatchesLevel | data/martelo-do-thor.js:363-386 | a positive force's colour is the colour of its level, because both use the bands 10, 30, 60, 100 and 200 |
| ThorHammer.MessageBand | data/martelo-do-thor.js:447-453 | the first message is for a force below 10 kg, the last for one of 200 kg or more |
| ThorHammer.Message | data/martelo-do-thor.js:447-453 | the message is one of the five; the first exactly below 10 kg and the last exactly from 200 kg |
| ThorHammer.MessageMonotone | data/martelo-do-thor.js:447-453 | the message band never falls as the force rises |
| ThorHammer.SaveToRanking | data/martelo-do-thor.js:459-474 | the stored ranking never exceeds 50 entries |
| ThorHammer.SavedRankingOrdered | data/martelo-do-thor.js:459-474 | the saved ranking is in descending force order, holds only old entries and the new one, and, below 50 entries, all of them |
| ThorHammer.SavedEntryPlace | data/martelo-do-thor.js:459-474 | the new entry goes after every entry at least as strong, and survives exactly when fewer than 50 of those exist |
| ThorHammer.PeaksAfterReading | data/martelo-do-thor.js:263-272 | a reading keeps every attempt peak within the game peak and the game peak one of them |
| ThorHammer.PeaksAfterRestart | data/martelo-do-thor.js:239-242 | restarting an attempt at 0 keeps those bounds |
| ThorHammer.TotalIsBestPeak | data/martelo-do-thor.js:263-272 | without a restarted attempt, the game peak is the highest attempt peak |
| ThorHammer.Game.constructor | data/martelo-do-thor.js:6-15 | a game starts at attempt 1 with no name, all peaks 0 and no history |
| ThorHammer.Game.StartGame | data/martelo-do-thor.js:157-169 | an empty trimmed name is refused and changes nothing; otherwise attempt 1 begins with all peaks 0, and the attempt history of earlier games is kept |
| ThorHammer.Game.StartAttempt | data/martelo-do-thor.js:239-242 | the current attempt's peak restarts from 0 and the game runs |
| ThorHammer.Game.Tick | data/martelo-do-thor.js:259-272 | a reading raises the attempt peak and the game peak to it when above them, and sounds its level only when it beats the attempt peak |
| ThorHammer.Game.TotalIsBestAttempt | data/martelo-do-thor.js:263-272 | in a game with no restarted attempt, the game peak is the highest attempt peak |
| ThorHammer.Game.EndAttempt | data/martelo-do-thor.js:396-444 | one record is appended; before the third attempt the game moves on; after it the game peak is saved to the ranking and its message returned |
| ThorHammer.Game.ResetGame | data/martelo-do-thor.js:511-517 | name, attempt counter, peaks and history return to their initial values |
| HammerTest.IndexOf | data/martelo-do-thor-novo.js:171 | the index of the named player, or none exactly when no player has that name |
| HammerTest.UpdateConsistent | data/martelo-do-thor-novo.js:175-186 | a new attempt is appended and the best and mean stay those of all attempts |
| HammerTest.Register | data/martelo-do-thor-novo.js:167-193 | a new name adds exactly one record; a known name, or a new name that objects inherit from `Object.prototype`, adds none |
| HammerTest.RegisterSpec | data/martelo-do-thor-novo.js:167-193 | registering keeps names unique, adds a new player at the end with the one attempt, leaves the roster unchanged for a new name that objects inherit, appends to a known player only, and keeps every best and mean consistent |
| HammerTest.RegisterUnique | data/martelo-do-thor-novo.js:171-173 | registering keeps the names unique |
| HammerTest.RegisterAbsent | data/martelo-do-thor-novo.js:171-181 | a new player whose name objects do not inherit is added at the end with the one attempt |
| HammerTest.RegisterInherited | data/martelo-do-thor-novo.js:171-192 | a new name that objects inherit (`constructor`, `toString`, `__proto__`, ...) finds the inherited member, so no record is created; the `push` on its missing `tentativas` throws, and the `catch` leaves the roster unchanged |
| HammerTest.RegisterPresent | data/martelo-do-thor-novo.js:181-186 | a known player gets the attempt appended and nobody else changes |
| HammerTest.RegisterConsistent | data/martelo-do-thor-novo.js:181-186 | every record's best and mean stay those of its attempts |
| HammerTest.RankingGlobal | data/martelo-do-thor-novo.js:265-277 | the ranking has ten rows, or one per player when there are fewer |
| HammerTest.Rows | data/martelo-do-thor-novo.js:266-272 | one row per player with its name, best, attempt count and mean |
| HammerTest.RankingOrdered | data/martelo-do-thor-novo.js:265-277 | the ranking has at most ten rows, in descending best force, taken from the roster |
| HammerTest.StrictlyBestIsFirst | data/martelo-do-thor-novo.js:265-277 | a player strictly better than every other is first |
| HammerTest.FindRow | data/martelo-do-thor-novo.js:350 | the first row with the name, or none when no row has it |
| HammerTest.Position | data/martelo-do-thor-novo.js:348-352 | a place is below ten and below the number of players |
| HammerTest.PositionLabel | data/martelo-do-thor-novo.js:348-352 | the label is never empty and starts with the place number exactly when the player has a place |
| HammerTest.SmallRosterAllRanked | data/martelo-do-thor-novo.js:348-352 | with at most ten players, every player has a place |
| HammerTest.PositionLabelFS | data/martelo-do-thor-novo.js:206-212 | the label starts with the chart icon ("Fora do top 10") exactly when the player has no place, with `#` exactly from the fourth place on, and with a medal for the first three |
| HammerTest.AbsentUnranked | data/martelo-do-thor-novo.js:198-210 | a name the roster does not hold has no place in the ranking |
| HammerTest.RegisteredIsRanked | data/martelo-do-thor-novo.js:167-212 | after registering into a roster of fewer than ten others, the player has a place exactly when it was already there or its name is not one objects inherit |
| HammerTest.InheritedNameUnranked | data/martelo-do-thor-novo.js:167-212 | a new name that objects inherit leaves the stored roster unchanged and is shown "📊 Fora do top 10", whatever the force |
| HammerTest.StaleRankingAsWritten | data/martelo-do-thor-novo.js:167-277 | a first result, under a name objects do not inherit, is ranked first in the stored roster while the in-memory roster the ranking views read stays empty |
| HammerTest.Hammer.constructor | data/martelo-do-thor-novo.js:5-30 | the stored roster, when there is one, is loaded into memory |
| HammerTest.Hammer.Start | data/martelo-do-thor-novo.js:35-45 | an empty trimmed name is refused and changes nothing; otherwise the test runs from a peak of 0 |
| HammerTest.Hammer.Poll | data/martelo-do-thor-novo.js:76-89 | a defined force raises the peak in kg to it when above it; an undefined one changes nothing |
| HammerTest.Hammer.RegisterResult | data/martelo-do-thor-novo.js:167-193 | the peak is registered in the stored roster as `Register` says, names stay unique, and nothing else changes |
| HammerTest.Hammer.Finish | data/martelo-do-thor-novo.js:122-162 | one attempt fewer; the peak is registered in the stored roster as `Register` says, which leaves it unchanged for a new name that objects inherit; the message band and the stored place are returned; the in-memory roster is unchanged |
| HammerTest.Hammer.FinishCorrected | data/martelo-do-thor-novo.js:122-162 | as `Finish`, but the in-memory roster is the stored one, so a player among fewer than ten others gets a place exactly when already listed or not named like an inherited member |
| HammerTest.Hammer.Clear | data/martelo-do-thor-novo.js:390-399 | once confirmed, the roster is emptied in memory and in storage; otherwise nothing changes |
| SessionList.Find | script.js:1532 | the index of an entry with the id, or none exactly when no entry has it |
| SessionList.PutGet | script.js:1516 | `map.set` keeps ids unique and changes only the entry under the key set |
| SessionList.FindUnique | script.js:1532 | with unique ids, the entry with an id is the one `map.get` returns |
| SessionList.DbEntry | script.js:1530-1550 | a database session's entry carries its id and is marked as in the database |
| SessionList.LastWith | script.js:1502-1554 | the last session with an id, or none exactly when no session has it |
| SessionList.Conflict | script.js:1534-1537 | a conflict needs both dates readable, and copies with the same date never conflict |
| SessionList.MapHoldsExpected | script.js:1499-1554 | before sorting, the map holds under each id the expected entry: local, database, or local fields overwritten by the database's with the conflict flag |
| SessionList.MergeSessions | script.js:1499-1556 | the two `forEach` loops and the sort compute the merged list |
| SessionList.Combined | script.js:1499-1556 | the shown list is in descending id order |
| SessionList.CombinedIsMerge | script.js:1499-1556 | the shown list is in descending id order, lists each id once, lists exactly the ids of either source, and under each the expected entry |
| SessionList.ReorderedMap | script.js:1556 | sorting the map's values keeps every id once with its entry |
| Dashboard.Wizard.constructor | script.js:3-5 | the wizard starts at step 0 with nothing saved |
| Dashboard.Wizard.Open | script.js:8-12 | opening returns to step 0 with an empty state |
| Dashboard.Wizard.GoToStep | script.js:53-66 | forward needs the current step valid and saves it first; a move that would leave steps 0 to 5 stays put; the step is always within 0 to 5 |
| Dashboard.UnitIndex | script.js:627 | the unit's index in the list, -1 exactly when it is not one |
| Dashboard.NextUnit | script.js:626-631 | the next unit is always one of kgf, N and gf |
| Dashboard.UnitCycle | script.js:626-631 | three clicks return to the same unit and each click changes it; an unknown unit goes to kgf |
| Dashboard.Chart.constructor | script.js:463-473 | the chart starts empty and sliding, with 100 points, unit kgf and not paused |
| Dashboard.Chart.ShowPointCount | script.js:987-994 | in accumulated mode, or paused after accumulating, the box shows the point count; otherwise it keeps its text; nothing else changes |
| Dashboard.Chart.Clear | script.js:892-899 | clearing empties the buffer and the history; a box showing the count then reads 0, any other keeps its text; mode, pause, limit, unit and accumulating flag are kept |
| Dashboard.Chart.Update | script.js:1225-1292 | a paused update changes nothing; otherwise, in sliding mode with the buffer at or past the limit, the buffer becomes the old one plus the point without its oldest point, and in every other case the old one plus the point; the limit, mode, flag and box text are kept; the buffer is always the latest part of every point appended |
| Dashboard.Chart.SetMaxPoints | script.js:600-615 | a positive integer is accepted and the buffer trimmed to its last points; anything else restores the old value in the box; no appended point is forgotten |
| Dashboard.Chart.ClickUnit | script.js:624-632 | a click switches to the next unit of the cycle; the buffer, history, mode, pause, flag, limit and box text stay as they were |
| Dashboard.Chart.SetChartMode | script.js:941-985 | paused exactly in pause mode; leaving accumulated mode always sets the accumulating flag, even towards sliding, and otherwise a switch to sliding clears it; the box shows the point count in accumulated mode or when paused after accumulating, and the limit otherwise; the points are untouched |
| Dashboard.Chart.TogglePause | script.js:996-1007 | with an argument the chart always ends paused; without one the pause flips between paused and sliding; leaving accumulated mode sets the accumulating flag and reaching sliding clears it; the box shows the count or the limit as the new mode says; points, history, limit and unit are kept |
| Dashboard.PauseKeepsCount | script.js:941-966 | pausing from accumulated mode keeps showing the point count, and sliding mode with the flag cleared shows the limit |
| Dashboard.CommandPayload | script.js:1198-1219 | `cmd` is always set; a value is attached as `sessionData` for `save_session_to_mysql` and as `value` otherwise; no value adds nothing |
| Dashboard.PostedMessage | script.js:1198-1219 | a message is posted exactly when there is a worker, as a `sendCommand` with that payload |
| Dashboard.WorkerReceives | data/dataWorker.js:273-366 | a closed socket refuses the command; an open one throws on a payload that is not text |
| Dashboard.DashboardCommandsThrow | script.js:378-446 | as written, tare, calibration, parameter and configuration requests from the dashboard all make the worker throw, so none reaches the device |
| Dashboard.CorrectedCommandsArrive | data/dataWorker.js:288-366 | sent as the text the worker parses, each of those requests becomes the worker command it names |
| Dashboard.TareArrives | data/dataWorker.js:291-294 | the text `t` becomes a tare |
| Dashboard.GetConfigArrives | data/dataWorker.js:297-300 | the text `get_config` becomes a configuration request |
| Dashboard.CalibrateArrives | data/dataWorker.js:303-313 | `c:<m>` becomes a calibration of m grams for m > 0 and is refused for 0 |
| Dashboard.SetParamArrives | data/dataWorker.js:316-345 | `set_param:<p>:<v>` becomes the parameter p with value v |

## Left out

- Serial and network plumbing is not modelled: opening and reopening the port, the outer read loop, the back-off sleeps, the WebSocket server and broadcast fan-out, the MySQL and HTTP handlers and the OS clock synchronisation. The model starts at the chunk of bytes read and ends at the event or frame produced.
- Concurrency between the serial thread and the event loop is not modelled.
- IEEE-754 arithmetic is not modelled. Binary32 fields stay 32-bit patterns. The rounding of `struct.pack("<f", x)` is the parameter `packReal` of the encoder, which may also refuse a value that overflows.
- `Codec.PyNumbers`: the grammar of Python's `float(str)` and `int(str)` (signs, spaces, underscores, `inf`, `nan`) is not modelled. The two readings are parameters of the encoder, so the model says where a numeric string is read but not which strings read.
- JavaScript strings are modelled as sequences of Unicode scalar values, not UTF-16 code units. A character outside the Basic Multilingual Plane counts as one character, where JavaScript counts two; this affects only lengths and indices of such text, never the commands and addresses modelled here.
- `JSON.parse` and `json.loads` are not modelled as parsers. The splitter hands its candidates on whether or not they parse, which is what the worker does. The worker's message handler takes already-parsed values.
- `Codec.EncodeCommand`: commands are taken as the values `json.loads` can produce, so a command never carries a binary32 pattern.
- `DataWorker.DataBuffer.ProcessDataPoint`: the moving average, the running maximum, the mass in kg and the readings-per-second estimate are left out (floating point). A buffered reading holds only the `tempo` and `forca` fields.
- `BurnAnalysis.ApplyBurnPoints`: it takes the output of `processarDadosSimples` as parallel arrays. That function is not part of this model.
- The cumulative-impulse colouring, the motor classification, the PDF report, the notifications and every DOM, chart, sound and storage call are not modelled.
- `ThorHammer.Game` and `HammerTest.Hammer` take the timer ticks and the force readings as method calls. Real time and `setInterval` are not modelled.
- Local storage is a field of the game classes. Reading and writing it is not modelled as I/O.
- `SessionList.MergeSessions`: the per-session impulse computation for local sessions is not modelled. A date is a parameter `parseDate` from the modification text to milliseconds (None for a text `new Date` cannot read, which never raises a conflict), missing dates read as 0. A `data_modificacao` that is not a string is read as missing.
- `SessionList.MergeSessions`: the `localModified` and `dbModified` fields a merged entry receives are not modelled. They are copies of the two `data_modificacao` values, kept for display, and nothing in the merge reads them.
- `HammerTest.RankingGlobal`: the `jogadores` object is modelled as a list of entries in insertion order. JavaScript's `Object.entries` lists integer-like keys first, in numeric order, so for players named like `42` the listing order, and so the order of tied scores in the ranking, can differ from the model.
- `SessionList.CombinedIsMerge`: it assumes the database returns each id at most once. With duplicate ids the last one wins in the map, which the model computes but this lemma does not describe.
- `Dashboard.Chart.Update`: the filter pipeline before the push and the overload modal are left out. The method takes the filtered force.
- `Dashboard.Chart.ShowPointCount`: the `requestAnimationFrame` loop of `processChartUpdates` (script.js:1342-1355), which refreshes the count box on every frame, is not modelled as a loop. Each refresh is one call of this method, which the caller makes when it wants the box updated.
- `Dashboard.Wizard.GoToStep`: the form validation of each step is a parameter.
- Duplicate definitions from line 2894 on in `script.js` are not modelled. Only the first definitions are.

## Findings

| source | as written | input that shows it | evidently intended | confidence | as-written member | corrected member |
|---|---|---|---|---|---|---|
| server.py:1224-1239 | `tareOffset` is declared signed, but every integer parameter is packed with the unsigned `I` format, so a negative offset raises and no frame is sent | `{"cmd": "set_param", "param": "tareOffset", "value": -5}` | pack the signed parameter as two's complement, so the device reads back -5 | not executed | Codec.NegativeTareOffsetDropped | Codec.TareOffsetCorrected |
| data/dataWorker.js:51-60 | the port test runs on the address with its scheme, whose own `:` always counts as "last colon after last bracket", so a bare host never gets `:81` | custom address `192.168.4.1` opens `ws://192.168.4.1` (port 80) | `ws://192.168.4.1:81`, the port the fallback uses | not executed | DataWorker.DeviceAddressAsWritten | DataWorker.BareHostCorrected |
| data/martelo-do-thor-novo.js:167-277 | results are registered in local storage, but the ranking views read the in-memory roster loaded once at start-up, so a new player does not appear until the ranking tab is clicked (data/martelo-do-thor-novo.js:409-412 reloads the roster) or the page reloads | a first test on an empty roster by any player whose name objects do not inherit | the ranking shows the registered result | not executed | HammerTest.StaleRankingAsWritten | HammerTest.Hammer.FinishCorrected |
| script.js:1198-1219 | the dashboard posts an object `{cmd, value}` as the payload, while the worker compares it with strings and calls `startsWith` on it, which throws | the wizard's tare, `sendCommandToWorker("t")` | post the command text the worker parses, such as `t` or `c:1000` | not executed | Dashboard.DashboardCommandsThrow | Dashboard.CorrectedCommandsArrive |
