# Subtitle translator extension: icon encoder and background worker

This Dafny project models two parts of a browser extension that adds
translated subtitles to lecture videos.

**The PNG icon encoder of the build script** (`scripts/generate-icons.mjs`):

- its bitwise CRC-32 (reflected polynomial 0xEDB88320, preset and final XOR
  0xFFFFFFFF, as in section 5.5 of the PNG specification, ISO/IEC 15948);
- the chunk framing: length, type, data, CRC;
- the imperative construction of the raw scanline buffer, with filter byte 0
  on every row;
- the IHDR header, filled by successive `writeUInt32BE`/`writeUInt8` calls;
- the signature and the chunk order of the file;
- the pixel classifier of `buildIcon`.

A chunk reader and a file reader are defined next to the writers. The lemmas
prove that they invert each other in both directions.

**The translation worker of the extension** is modelled in both of its
versions: the TypeScript `src/background.ts` and the older `background.js`.

- `translateText` trims its input and short-circuits on blank text.
- It derives the cache key `lang::text`.
- It consults the module-level `translationCache`. A hit is a truthy value
  in TypeScript and is decided by `has` in JavaScript.
- On a miss it asks the provider and flattens the nested-array payload with
  JavaScript's own semantics:
  - `?.[0]` and `??`;
  - `Array.prototype.join` over ToString, including the TypeError ToString
    raises for an object that has a member of its own named `toString`;
  - `String.prototype.trim` over the WhiteSpace and LineTerminator
    characters.
- It stores the result.
- The `runtime.onMessage` listener routes `TRANSLATE_TEXT` messages to
  `translateText`. It wraps the outcome as a `TranslateResponse`.

The cache is the `cache` field of a `TranslationService` class. Its methods
`TranslateText` and `OnMessage` are proved equal to the specification
functions `Translate` and `Dispatch` of the old cache. A ghost log records
every request sent to the provider. The module `Versions` compares the two
versions:

- the hit tests differ exactly on an entry holding the empty string;
- a payload segment contributes differently exactly when it is a non-empty
  string or an object whose member "0" renders as something other than "";
- sufficient conditions under which the whole flattening, and the whole of
  translateText, agree.

Modules, one per file:

| file | modules |
|---|---|
| `wrappers.dfy` | `Wrappers` |
| `bytes.dfy` | `Bytes` |
| `crc.dfy` | `Crc` |
| `png.dfy` | `Png` |
| `icon.dfy` | `Icon` |
| `jstext.dfy` | `JsText` |
| `json.dfy` | `Json` |
| `translation.dfy` | `Translation` (shared by both worker versions) |
| `background_ts.dfy` | `BackgroundTs` |
| `background_js.dfy` | `BackgroundJs` |
| `versions.dfy` | `Versions` |

Some behaviour a reader might expect from a translation cache is absent
from this code. The model follows the code, and each point has a lemma:

- No size bound and no eviction. Both versions use an unbounded `Map` that
  never evicts and never shrinks; `CacheUpdate` proves that a call removes
  no entry.
- No protection of technical terms and no rewriting of the text. The one
  request a call sends asks for exactly the trimmed input in the requested
  language (`FetchRule`). Nothing invalidates cache entries.
- No deduplication of requests. In `background.js` a second call for the
  same text is answered from the cache only after a successful first call
  (`BackgroundJs.Repeat`). A failed call leaves the cache unchanged
  (`FailureKeepsCache`), so the next call fetches again. In
  `src/background.ts` a cached empty translation is not truthy, so that
  text is fetched again every time (`BackgroundTs.Repeat`,
  `BackgroundTs.EmptyEntryRefetched`, `Versions.RequestsDiffer`). Requests
  made while another is still in flight are not modelled.
- No fallback to an empty translation for a malformed payload. The
  flattening throws when the payload's first element is present, not null
  and not an array. It also throws when element 0 of a segment is an object
  with a member of its own named `toString`, directly or through arrays. In
  TypeScript this counts only for an array segment; in JavaScript it also
  counts for an object segment's member "0". The listener then answers
  `{ok: false, error}`. See `BackgroundTs.FlattenCases`,
  `BackgroundJs.FlattenCases`, `Versions.ToStringMember` and
  `Versions.ObjectSegment`. Later elements of a segment are never converted
  (`Versions.LaterElementsIgnored`).

## Model

| member | source | states |
|---|---|---|
| Bytes.ReadWriteBE32 | scripts/generate-icons.mjs:25 | the four bytes `writeUInt32BE` stores read back big-endian as the value written |
| Bytes.WriteReadBE32 | scripts/generate-icons.mjs:28 | every four bytes are the `writeUInt32BE` encoding of the number they denote (the field has no redundancy) |
| Crc.ShiftStep | scripts/generate-icons.mjs:15-16 | one pass of the inner loop, `mask = -(crc & 1)` then `crc = (crc >>> 1) ^ (0xedb88320 & mask)`, on the 32-bit register pattern (the lemmas below state its meaning) |
| Crc.ByteStep | scripts/generate-icons.mjs:13-17 | one pass of the outer loop: `crc ^= buf[i]`, then eight inner passes |
| Crc.Register | scripts/generate-icons.mjs:11-18 | the register after the outer loop has consumed the buffer |
| Crc.MaskIsAllOrNothing | scripts/generate-icons.mjs:15 | the mask `-(crc & 1)` is all ones when the low bit is set and zero otherwise |
| Crc.ShiftStepIsConditionalXor | scripts/generate-icons.mjs:14-17 | an inner step is `(crc >>> 1) ^ 0xEDB88320` when the low bit is set and `crc >>> 1` otherwise |
| Crc.Unsigned | scripts/generate-icons.mjs:19 | `>>> 0` reads the register as a number below 2^32, and reads the zero pattern as 0 |
| Crc.Crc32 | scripts/generate-icons.mjs:10-20 | crc32 is always in [0, 2^32) and is 0 for the empty buffer |
| Crc.RegisterSplit | scripts/generate-icons.mjs:11-18 | the register after `a ++ b` is the register after processing b starting from the register reached after a |
| Crc.RegisterSnoc | scripts/generate-icons.mjs:12-18 | one more byte costs exactly one more outer pass |
| Crc.Crc32Split | scripts/generate-icons.mjs:10-20 | the checksum of `a ++ b` is finished from the register reached after a |
| Crc.CheckValue | scripts/generate-icons.mjs:10-20 | the ASCII digits "123456789" give the standard CRC-32 check value 0xCBF43926 |
| Crc.IendCrc | scripts/generate-icons.mjs:64 | the CRC of the type "IEND" with no data is 0xAE426082 |
| Crc.FoldByte | scripts/generate-icons.mjs:13-17 | `crc ^= buf[i]` followed by the inner loop of eight shift steps gives one outer pass |
| Crc.ComputeCrc32 | scripts/generate-icons.mjs:10-20 | the nested loop computes exactly Crc32 of the buffer |
| Png.Chunk | scripts/generate-icons.mjs:22-30 | a chunk is 8 bytes longer than its type and data |
| Png.ChunkLayout | scripts/generate-icons.mjs:22-29 | a chunk is 12 + length(data) bytes: the data length big-endian, the type, the data, then crc32(type ++ data) big-endian |
| Png.ParseChunkOfChunk | scripts/generate-icons.mjs:22-29 | the chunk reader recovers the type and data of every chunk written, and its CRC check passes |
| Png.ParseChunkSound | scripts/generate-icons.mjs:22-29 | whatever the chunk reader accepts is exactly a chunk `chunk` writes, followed by the rest |
| Png.IhdrLayout | scripts/generate-icons.mjs:48-55 | the 13 IHDR data bytes are width and height big-endian, then 8, 6, 0, 0, 0 |
| Png.IhdrDataOfRead | scripts/generate-icons.mjs:48-55 | IHDR data with that tail is the data written for the width and height it holds |
| Png.WriteUInt32BE | scripts/generate-icons.mjs:25 | writes the big-endian bytes at the offset and changes no other byte |
| Png.BuildIhdr | scripts/generate-icons.mjs:48-55 | the ihdr buffer after its seven writes is IhdrData(width, height) |
| Png.IhdrData | scripts/generate-icons.mjs:48-55 | the 13 IHDR data bytes |
| Png.RawImage | scripts/generate-icons.mjs:33-46 | the raw buffer, row by row: filter byte 0, then each pixel's r, g, b, a; its length is Rows(height, 4 * width + 1) |
| Png.RowsIsProduct | scripts/generate-icons.mjs:34 | n rows of s bytes take n * s bytes |
| Png.RawImageLength | scripts/generate-icons.mjs:33-34 | the raw buffer holds (4 * width + 1) * height bytes |
| Png.FilterBytes | scripts/generate-icons.mjs:36-37 | byte y * (4 * width + 1) of the raw buffer is filter type 0 for every row y |
| Png.PixelBytes | scripts/generate-icons.mjs:38-45 | channel c of pixel (x, y) is at offset y * (4w + 1) + 1 + 4x + c |
| Png.PixelOffsetsDisjoint | scripts/generate-icons.mjs:38-45 | pixel offsets are in bounds, distinct for distinct (pixel, channel) pairs, and never a filter byte |
| Png.WritePixel | scripts/generate-icons.mjs:41-44 | the four channel writes store r, g, b, a at idx through idx + 3 and change nothing else |
| Png.FillPixels | scripts/generate-icons.mjs:38-45 | the inner loop writes the row's pixels in order and leaves the bytes around them unchanged |
| Png.FillRow | scripts/generate-icons.mjs:36-45 | one outer iteration writes the row's scanline (filter byte, then pixels) and nothing else |
| Png.BuildRaw | scripts/generate-icons.mjs:33-46 | the raw buffer, once filled, is RawImage(width, height, pixelFn) |
| Png.MakeChunk | scripts/generate-icons.mjs:22-30 | chunk(type, data), with its CRC computed by the loop, is Chunk(type, data) |
| Png.IendChunkBytes | scripts/generate-icons.mjs:64 | the IEND chunk is 00 00 00 00 "IEND" AE 42 60 82 |
| Png.PngFile | scripts/generate-icons.mjs:59-65 | the file createPng returns for a given IDAT payload (its layout is stated by PngLayout) |
| Png.PngLayout | scripts/generate-icons.mjs:59-65 | the file is the signature, the 25-byte IHDR chunk, the IDAT chunk, then the 12-byte IEND chunk |
| Png.ParsePngOfPngFile | scripts/generate-icons.mjs:59-65 | reading a file createPng writes gives back its width, height and IDAT payload |
| Png.PngFileOfParsePng | scripts/generate-icons.mjs:59-65 | every file the reader accepts is the one createPng writes for what was read |
| Png.CreatePng | scripts/generate-icons.mjs:32-68 | createPng returns PngFile(width, height, deflate(RawImage(width, height, pixelFn))) |
| Icon.IconPixel | scripts/generate-icons.mjs:86-107 | the classifier passed to createPng (its cases are stated by IconPixelCases) |
| Icon.PaletteDistinct | scripts/generate-icons.mjs:70-74 | the background, bar1 and bar2 colours are pairwise distinct |
| Icon.IconPixelCases | scripts/generate-icons.mjs:86-107 | bar1's colour iff the pixel is in bar1; bar2's iff it is in bar2 and not bar1; the background iff it is in neither |
| Icon.HalfOpenEdges | scripts/generate-icons.mjs:87-97 | a bar contains its left and top edges and its last pixel, but not the pixels at x + width or y + height |
| Icon.IconRawBytes | scripts/generate-icons.mjs:86-107 | in an icon's raw buffer, every channel byte of a pixel is that channel of the colour the classifier picks |
| Icon.BuildIcon | scripts/generate-icons.mjs:76-109 | buildIcon is a square PNG of the given size, painted by the classifier |
| JsText.IsWhite | src/background.ts:4 | the WhiteSpace and LineTerminator characters `trim` removes |
| JsText.Trim | src/background.ts:4 | `text.trim()` (its shape is stated by TrimShape and TrimUnique) |
| JsText.TrimShape | src/background.ts:4 | the text is a whitespace prefix, then trim(text), then a whitespace suffix, and trim(text) has whitespace at neither end |
| JsText.TrimUnique | src/background.ts:4 | whitespace around a trimmed text trims to that text |
| JsText.TrimIdempotent | src/background.ts:4 | trimming twice is trimming once |
| JsText.TrimPadded | src/background.ts:4 | surrounding whitespace does not change what trim returns |
| JsText.TrimEmpty | src/background.ts:4-5 | trim gives "" exactly when every character is whitespace |
| Json.Lookup | src/background.ts:28 | a member lookup is defined exactly when some member has that name, and gives the value of a member with that name |
| Json.At0 | src/background.ts:28 | `v?.[0]`: undefined for null, a boolean, a number or an empty string or array; the first element of an array or the first character of a string; the member "0" of an object |
| Json.Coalesce | src/background.ts:28 | `o ?? d` keeps o unless it is undefined or null, and otherwise gives d |
| Json.ToString | src/background.ts:30 | ToString as join applies it: arrays joined with ",", objects as "[object Object]", and a TypeError for an object with a member of its own named `toString` |
| Json.Render | src/background.ts:30 | join renders null as "" and anything else by ToString |
| Json.JoinFrom | src/background.ts:30 | Array.prototype.join over the elements from i on; it throws if one of them does |
| Json.Join | src/background.ts:30 | `items.join(sep)` |
| Json.JoinFromDefined | src/background.ts:30 | join succeeds exactly when every element renders |
| Json.ToStringDefined | src/background.ts:30 | ToString throws exactly on the values from which an object with its own `toString` member can be reached through arrays |
| Json.RenderDefined | src/background.ts:30 | the same for join's rendering of an element |
| Json.JoinAsConcat | src/background.ts:30 | `join("")` succeeds exactly when every element renders, and is then the concatenation of the renderings (null as "") |
| Translation.CacheKey | src/background.ts:9 | the key is exactly as long as the language, the separator "::" and the trimmed text together |
| Translation.CacheKeyInjective | src/background.ts:9 | for languages without ':', two calls share a key iff they agree on language and trimmed text |
| Translation.CacheKeyCollision | src/background.ts:9 | without that restriction, ("a::b", "c") and ("a", "b::c") share a key |
| Translation.DecimalRoundTrip | src/background.ts:24 | the decimal text of a status reads back as that status |
| Translation.RequestFailedMessageInjective | src/background.ts:24 | "Translation request failed: <status>" messages are equal iff the statuses are |
| Translation.Receive | src/background.ts:22-31 | a rejection fails with its message; a status outside 200-299 fails with it; a `json()` failure fails with its message; otherwise the outcome is the flattening's, text or error |
| Translation.Route | src/background.ts:39-43 | not handled iff the message is missing or its type is not TRANSLATE_TEXT; otherwise text defaults to "" and language to "ko" |
| Translation.ErrorMessage | src/background.ts:24 | the `error.message` sent for each way of failing |
| Translation.Respond | src/background.ts:44-54 | `{ok: true, translatedText}` iff the translation succeeded; otherwise `{ok: false, error}` carries the error's message |
| BackgroundTs.Segment | src/background.ts:29 | `Array.isArray(segment) ? segment?.[0] ?? "" : ""` |
| BackgroundTs.Flatten | src/background.ts:27-31 | the flattening of the payload, or the TypeError it throws (its cases are stated by FlattenCases) |
| BackgroundTs.SegmentRendersPiece | src/background.ts:29 | an array segment contributes its element 0 rendered by join; any other segment contributes "" |
| BackgroundTs.PieceThrows | src/background.ts:29-30 | a segment makes join throw exactly when it is a non-empty array whose first element cannot be converted |
| BackgroundTs.FlattenCases | src/background.ts:27-31 | a missing head gives ""; `.map` throws iff the head is present, not null and not an array; join throws iff an array head has a segment that cannot be converted; otherwise the result is the trimmed concatenation of the pieces |
| BackgroundTs.FlattenTrimmed | src/background.ts:28-31 | the flattened text is already trimmed |
| BackgroundTs.Hit | src/background.ts:10-11 | `translationCache.get(cacheKey)` is truthy |
| BackgroundTs.Translate | src/background.ts:3-35 | one call of translateText: its outcome, the cache after it, and the request sent (its properties are the lemmas below) |
| BackgroundTs.BlankInput | src/background.ts:4-7 | blank text gives "" with no request and the cache unchanged |
| BackgroundTs.PaddingIrrelevant | src/background.ts:4-9 | texts that differ only in surrounding whitespace behave identically, through one cache entry |
| BackgroundTs.FetchRule | src/background.ts:9-22 | a request goes out iff the trimmed text is non-blank and not a truthy hit, and asks for that text in that language |
| BackgroundTs.HitAnswers | src/background.ts:10-13 | a truthy hit returns the cached value, with no request and no cache change |
| BackgroundTs.EmptyEntryRefetched | src/background.ts:11 | an entry holding "" is not a hit: that text is fetched again |
| BackgroundTs.FailureKeepsCache | src/background.ts:22-25 | a failure leaves the cache unchanged; a status that is not ok fails with that status |
| BackgroundTs.CacheUpdate | src/background.ts:33 | a successful fetch sets exactly cache[key] := translated; other entries are unchanged and none is removed |
| BackgroundTs.TranslateKeepsTrimmed | src/background.ts:31-33 | a cache of trimmed values stays trimmed, and every translation returned is trimmed |
| BackgroundTs.Repeat | src/background.ts:10-33 | after a successful fetch, a second call for the same text fetches again iff the translation was "" |
| BackgroundTs.Dispatch | src/background.ts:37-58 | the listener's return value, response, cache and request for one message |
| BackgroundTs.IgnoresOtherMessages | src/background.ts:39-41 | a message that is not TRANSLATE_TEXT gets false, no response, no request and no cache change |
| BackgroundTs.MissingFieldsDefault | src/background.ts:43 | missing text and language behave as "" and "ko" |
| BackgroundTs.MissingTextAnswersEmpty | src/background.ts:43 | a message without text is answered `{ok: true, translatedText: ""}` without a request |
| BackgroundTs.AnswersTranslateRequests | src/background.ts:43-56 | a TRANSLATE_TEXT message returns true and is always answered: ok with the text on success, the error's message on failure |
| BackgroundTs.TranslationService.constructor | src/background.ts:1 | the worker starts with an empty cache and no requests sent |
| BackgroundTs.TranslationService.TranslateText | src/background.ts:3-35 | the outcome and the new cache are those of Translate on the old cache; the request log grows by the request sent, if any; the cache stays trimmed and every translation returned is trimmed |
| BackgroundTs.TranslationService.OnMessage | src/background.ts:37-58 | the return value, the response, the new cache and the log are those of Dispatch on the old cache |
| BackgroundJs.Segment | background.js:28 | `segment?.[0] ?? ""` |
| BackgroundJs.Flatten | background.js:26-30 | the flattening of the payload, or the TypeError it throws (its cases are stated by FlattenCases) |
| BackgroundJs.SegmentRendersPiece | background.js:28 | a segment contributes the rendering of its element 0 (null, undefined and missing give ""), with no array check |
| BackgroundJs.PieceThrows | background.js:28-29 | a segment makes join throw exactly when it has an element 0 that cannot be converted |
| BackgroundJs.FlattenCases | background.js:26-30 | a missing head gives ""; `.map` throws iff the head is present, not null and not an array; join throws iff an array head has a segment that cannot be converted; otherwise the result is the trimmed concatenation of the pieces |
| BackgroundJs.FlattenTrimmed | background.js:27-30 | the flattened text is already trimmed |
| BackgroundJs.Hit | background.js:10 | `translationCache.has(cacheKey)` |
| BackgroundJs.Translate | background.js:3-34 | one call of translateText: its outcome, the cache after it, and the request sent (its properties are the lemmas below) |
| BackgroundJs.BlankInput | background.js:4-7 | blank text gives "" with no request and the cache unchanged |
| BackgroundJs.PaddingIrrelevant | background.js:4-9 | texts that differ only in surrounding whitespace behave identically, through one cache entry |
| BackgroundJs.FetchRule | background.js:9-21 | a request goes out iff the trimmed text is non-blank and its key is absent, and asks for that text in that language |
| BackgroundJs.HitAnswers | background.js:10-12 | any entry, "" included, is returned with no request and no cache change |
| BackgroundJs.FailureKeepsCache | background.js:22-24 | a failure leaves the cache unchanged; a status that is not ok fails with that status |
| BackgroundJs.CacheUpdate | background.js:32 | a successful fetch sets exactly cache[key] := translated; other entries are unchanged and none is removed |
| BackgroundJs.TranslateKeepsTrimmed | background.js:30-32 | a cache of trimmed values stays trimmed, and every translation returned is trimmed |
| BackgroundJs.Repeat | background.js:10-32 | after a successful fetch, a second call for the same text answers from the cache without a request |
| BackgroundJs.Dispatch | background.js:36-50 | the listener's return value, response, cache and request for one message |
| BackgroundJs.IgnoresOtherMessages | background.js:37-39 | a message that is not TRANSLATE_TEXT gets false, no response, no request and no cache change |
| BackgroundJs.MissingFieldsDefault | background.js:41 | missing text and language behave as "" and "ko" |
| BackgroundJs.MissingTextAnswersEmpty | background.js:41 | a message without text is answered `{ok: true, translatedText: ""}` without a request |
| BackgroundJs.AnswersTranslateRequests | background.js:41-49 | a TRANSLATE_TEXT message returns true and is always answered: ok with the text on success, the error's message on failure |
| BackgroundJs.TranslationService.constructor | background.js:1 | the worker starts with an empty cache and no requests sent |
| BackgroundJs.TranslationService.TranslateText | background.js:3-34 | the outcome and the new cache are those of Translate on the old cache; the request log grows by the request sent, if any; the cache stays trimmed and every translation returned is trimmed |
| BackgroundJs.TranslationService.OnMessage | background.js:36-50 | the return value, the response, the new cache and the log are those of Dispatch on the old cache |
| Versions.HitTestsDiffer | src/background.ts:11 | the truthiness hit test and the `has` hit test (background.js line 10) disagree exactly on an entry holding "" |
| Versions.RequestsDiffer | background.js:10-12 | the versions send different requests iff the text is non-blank and its entry holds "" |
| Versions.PiecesDiffer | src/background.ts:29 | a segment contributes differently iff it is a non-empty string or an object whose member "0" renders as something other than ""; a non-empty string contributes "" in TypeScript and its first character in JavaScript |
| Versions.FlattenAgrees | background.js:28 | without string or object segments both versions flatten a payload alike |
| Versions.StringSegment | background.js:28 | the payload [["hi"]] flattens to "" in TypeScript and to "h" in JavaScript |
| Versions.ToStringMember | src/background.ts:30 | the payload [[[{"toString": 1}]]] makes join throw in both versions, with the message "Cannot convert object to primitive value" |
| Versions.LaterElementsIgnored | src/background.ts:29 | only element 0 of a segment is rendered: [[["a", {"toString": 1}]]] flattens to "a" in both versions |
| Versions.ObjectSegment | background.js:28 | [[{"0": {"toString": 1}}]] flattens to "" in TypeScript, where the array guard skips the object segment, and throws the join TypeError in JavaScript |
| Versions.TranslateAgrees | background.js:3-34 | with no empty cache entry, and a payload both versions flatten alike, the two translateText functions behave identically |

## Left out

- `deflateSync` (zlib) is foreign code. It is the `deflate` parameter of
  `CreatePng`, and the IDAT payload is opaque bytes.
- Icon.BuildIcon: the bar rectangles come from `Math.round` of
  floating-point multiples of the size. They are a `Layout` parameter, so
  the model does not show which rectangles each icon size gets.
- File output and logging (`mkdirSync`, `writeFileSync`, `console.log`) and
  the loop over the icon sizes 16, 32, 48 and 128 are not modelled.
- Png.WriteUInt32BE and Png.Chunk require values and data lengths below
  2^32, where `writeUInt32BE` would throw a RangeError. The icon sizes are
  far below that bound.
- The `URL`/`searchParams` construction and `fetch` are not modelled. The
  provider's answer is the `Reply` parameter, and the request is recorded
  as its language and trimmed text.
- Promises, `await` and `then`/`catch` are not modelled. An operation
  settles synchronously to an `Outcome`, and interleavings of concurrent
  calls are not modelled.
- Chrome messaging: `sendResponse` is the response the listener returns.
  The `_sender` argument is not used.
- JavaScript strings are UTF-16 code units. A Dafny char stands for a code
  point, so `?.[0]` on a string whose first character lies outside the
  Basic Multilingual Plane would take half of it in JavaScript but the
  whole character here.
- Png.Rgba: a pixel's channels are bytes. `raw[idx] = r` would reduce any
  other number modulo 256, but the only pixel function passes palette
  colours, whose channels are all bytes.
- Translation.NotAFunction: the TypeError text for `.map` on a non-array is
  engine-specific. The model fixes one wording, and so does
  `Translation.NotPrimitiveMessage` for the TypeError of join.
- JSON numbers are carried by their ToString text. Floating point is not
  modelled.
- Non-string `text`, `targetLanguage` or `type` fields of a message are not
  modelled. A field is a string or missing (undefined or null), as
  `TranslateRequest` in `src/types/global.d.ts` declares.
- `response.json()` failures are an `Unparsable` body carrying the error
  message. The wording is the engine's.
