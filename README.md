# ImageColorizer core, modelled in Dafny

ImageColorizer is an iOS app. It sends a photo to a colorization backend and shows the colorized result. It also keeps a history of what was colorized. This project models the three parts of the app that hold logic, and proves properties about each:

- **The history log** (`foundation.dfy`, `history_model.dfy`):
  - `HistoryItem` records and their hand-written `Codable` pair.
  - `HistoryManager`, which keeps the items newest first and at most 100 of them.
  - After every change, `HistoryManager` writes the whole encoded list into `UserDefaults` under `"colorization_history"`.
  - `UserDefaults` is a class holding a map from key to stored blob. JSON is modelled one level above the bytes: an item is a keyed container, a list is a JSON array of containers, and anything else stored is unparsable.
- **The colorization request** (`content_view.dfy`):
  - The `multipart/form-data` body (RFC 7578) that `ContentView.colorizeImage` assembles around the JPEG bytes. Its delimiters follow section 5.1.1 of RFC 2046.
  - The `Content-Type` header carrying the boundary.
  - How a receiver that follows section 5.1.1 of RFC 2046 reads the file back out of the body: up to the first CRLF `--` boundary.
  - The `isLoading` / `outputImage` state that the guards and the completion handler update.
- **`Color(hex:)`** (`glow_effect.dfy`): the `Scanner` steps (skip whitespace, an optional `#`, `scanHexInt64`) and the three mask-and-shift channel extractions, in exact integer arithmetic.

The following foreign calls become parameters of the operations that make them:
- `UUID()`
- `Date()`
- `jpegData(compressionQuality:)`
- `prepareThumbnail`
- `UIImage(data:)`
- the day formatter

`URL(string:)` is modelled as `Foundation.ParseUrl`: a non-empty string of the characters RFC 3986 allows unescaped (sections 2.2 and 2.3), plus `%` when it starts a percent-encoded octet (two hexadecimal digits follow), with at most one `#`.

## Model

| member | source | states |
|---|---|---|
| Foundation.UuidString | ImageColorizer/ContentView.swift:109 | `uuidString` is 36 characters: upper-case hexadecimal digits, with dashes at exactly positions 8, 13, 18 and 23 |
| Foundation.ParseUrl | ImageColorizer/HistoryModel.swift:41 | `URL(string:)` gives nil when the string is empty, holds a character a URL cannot carry unescaped, has a `%` not followed by two hexadecimal digits, or has a second `#`; otherwise the URL's `absoluteString` is the string itself |
| Foundation.AbsoluteStringRoundTrip | ImageColorizer/HistoryModel.swift:41-56 | parsing the `absoluteString` of a parsed URL gives the same URL back, which is what the stored `fileURLString` relies on |
| HexColor.SkipWhitespace | ImageColorizer/GlowEffect.swift:83-84 | the scanner drops a prefix made only of skipped characters and stops at the first character that is not skipped |
| HexColor.ScanString | ImageColorizer/GlowEffect.swift:84 | `scanString(prefix)` leaves a suffix of the input. When it consumes anything, it consumes skipped characters followed by exactly `prefix`. A non-empty `prefix` next after the whitespace is always consumed; otherwise the input is left untouched |
| HexColor.ScanHexInt64 | ImageColorizer/GlowEffect.swift:86-87 | the scan fails exactly when no hexadecimal digit follows the whitespace and an optional `0x` |
| HexColor.ScanDigitsThen | ImageColorizer/GlowEffect.swift:86-87 | hexadecimal digits followed by anything that is not a digit scan to their value, or to `UInt64.max` when the value does not fit; only a lone `0` before `x` is read as the prefix instead |
| HexColor.HexNumber | ImageColorizer/GlowEffect.swift:83-87 | `hexNumber` is a `UInt64` that stays 0 when no hexadecimal digit follows the optional `#`, the whitespace and an optional `0x` |
| HexColor.BitAnd | ImageColorizer/GlowEffect.swift:89-91 | `a & b` on unsigned integers is never larger than either operand |
| HexColor.ShiftRight | ImageColorizer/GlowEffect.swift:89-90 | `x >> k` on an unsigned integer is never larger than `x` |
| HexColor.LowByte | ImageColorizer/GlowEffect.swift:91 | `n & 0x0000ff` is n mod 256 |
| HexColor.MaskShiftIsByte | ImageColorizer/GlowEffect.swift:89-90 | `(n & (0xff << k)) >> k` is the byte of n starting at bit k, i.e. `(n >> k) mod 256`, for every k |
| HexColor.ShiftRightDivides | ImageColorizer/GlowEffect.swift:89-90 | `n >> 8` is n / 256 and `n >> 16` is n / 65536 |
| HexColor.MaskedByte | ImageColorizer/GlowEffect.swift:89-91 | `(n & mask) >> k` with `mask = 0xff << k` is the byte `(n >> k) mod 256` |
| HexColor.ColorFromHex | ImageColorizer/GlowEffect.swift:82-94 | red, green and blue are bits 16-23, 8-15 and 0-7 of the scanned number, so each is in 0..255 |
| HexColor.ChannelsPackLow24Bits | ImageColorizer/GlowEffect.swift:89-91 | red·65536 + green·256 + blue equals the scanned number mod 2^24; bits above 24 are ignored |
| HexColor.HashIsOptional | ImageColorizer/GlowEffect.swift:84-87 | prefixing `#` to a string that does not already start with one changes neither the number nor the colour |
| HexColor.NoDigitsIsBlack | ImageColorizer/GlowEffect.swift:86-87 | with no hexadecimal digit to scan the number stays 0, and so does every channel |
| HexColor.SixDigitColor | ImageColorizer/GlowEffect.swift:82-94 | for any six hex digits, with or without `#`, each channel is the value of its own pair of digits |
| HexColor.SettingsRed | ImageColorizer/GlowEffect.swift:84-91 | `"#FF6778"` and `"FF6778"` both give (255, 103, 120) |
| Colorization.Utf8Data | ImageColorizer/ContentView.swift:114-119 | `data(using: .utf8)` yields at least one byte per character |
| Colorization.Utf8DataAppend | ImageColorizer/ContentView.swift:114-119 | encoding a concatenation is concatenating the encodings |
| Colorization.AsciiData | ImageColorizer/ContentView.swift:115-116 | an ASCII string encodes to one byte per character, each byte its code |
| Colorization.Boundary | ImageColorizer/ContentView.swift:109 | `"Boundary-" + uuidString` is 45 ASCII characters and a valid RFC 2046 boundary (1-70 `bchars`, not ending in a space) |
| Colorization.ContentTypeValue | ImageColorizer/ContentView.swift:110 | the header value is the 30-character `multipart/form-data; boundary=` prefix followed by the boundary itself |
| Colorization.MultipartBody | ImageColorizer/ContentView.swift:113-119 | the body is the part head, then the image, then the tail, with nothing else added |
| Colorization.BuildBody | ImageColorizer/ContentView.swift:113-120 | the six successive appends onto empty `Data` produce exactly the multipart body |
| Colorization.StripFraming | ImageColorizer/ContentView.swift:113-119 | a positional inverse of the body: cutting off the part head and tail by length succeeds only on a body framed for that boundary, and rebuilding from what is left gives the body back |
| Colorization.StripBuiltBody | ImageColorizer/ContentView.swift:113-119 | cutting the framing off a built body leaves exactly the image bytes |
| Colorization.BodyIsInjective | ImageColorizer/ContentView.swift:113-119 | different images under the same boundary give different bodies |
| Colorization.ContentAfter | ImageColorizer/ContentView.swift:113-119 | what a receiver following section 5.1.1 of RFC 2046 reads after a part head: it starts right after the head, is followed by the delimiter, and contains no delimiter itself |
| Colorization.ExtractFile | ImageColorizer/ContentView.swift:113-119 | a receiver following section 5.1.1 of RFC 2046 reads the `file` part out of the body: the file follows the part head, is followed by CRLF `--` boundary, and contains no such delimiter |
| Colorization.PartEndBytes | ImageColorizer/ContentView.swift:109-118 | CRLF `--` boundary holds exactly one carriage return, its first byte, since a boundary has none |
| Colorization.ExtractBuiltBody | ImageColorizer/ContentView.swift:113-119 | a receiver gets back exactly the image bytes, whenever the image does not contain CRLF `--` boundary |
| Colorization.CollidingImageIsCut | ImageColorizer/ContentView.swift:113-119 | when the image does contain CRLF `--` boundary, a receiver gets a shorter file, cut at or before that occurrence |
| Colorization.BodyFraming | ImageColorizer/ContentView.swift:114-119 | the body starts with `"--" + boundary + CRLF` and ends with `"--" + boundary + "--" + CRLF` |
| Colorization.ImagePlacement | ImageColorizer/ContentView.swift:115-118 | the image bytes appear verbatim. They come directly after the disposition line (field `file`, filename `image.jpg`) and `Content-Type: image/jpeg` CRLF CRLF, and directly before a CRLF |
| Colorization.DispositionLineIsAscii | ImageColorizer/ContentView.swift:115 | the disposition line is ASCII and 67 characters long |
| Colorization.ImageTypeLineIsAscii | ImageColorizer/ContentView.swift:116 | the content type line and the empty line after it are ASCII and 28 characters long |
| Colorization.BodyLength | ImageColorizer/ContentView.swift:113-119 | body length = 107 fixed bytes + 2·(boundary bytes) + image length |
| Colorization.GeneratedBodyLength | ImageColorizer/ContentView.swift:109-119 | with a generated boundary the body is exactly 197 bytes longer than the image |
| Colorization.ContentView.constructor | ImageColorizer/ContentView.swift:5-9 | the screen starts with no input image, no output image and `isLoading` false |
| Colorization.ContentView.PickImage | ImageColorizer/ContentView.swift:162-165 | picking an image sets the input image and nothing else |
| Colorization.ContentView.ColorizeImage | ImageColorizer/ContentView.swift:87-120 | with no image nothing changes; when JPEG conversion or URL parsing fails `isLoading` is back to false and there is no request; otherwise `isLoading` is true and the request is a POST to the parsed URL whose only header is the `Content-Type` for `Boundary(uuid)` and whose body is the multipart body for that same boundary |
| Colorization.ContentView.ReceiveResponse | ImageColorizer/ContentView.swift:123-136 | `isLoading` becomes false; the output image changes only when there is no error and the data decodes as an image, and then it becomes that image |
| HistoryModel.RawValue | ImageColorizer/HistoryModel.swift:7-10 | each media type has its own raw value, `"Image"` or `"Video"` |
| HistoryModel.MediaTypeFromRawValue | ImageColorizer/HistoryModel.swift:7-10 | only `"Image"` and `"Video"` are raw values, and each maps back to its own raw value |
| HistoryModel.EncodeItem | ImageColorizer/HistoryModel.swift:47-58 | id, date and media type are always written; `thumbnailData` and `fileURLString` are written exactly when present |
| HistoryModel.DecodeUuid | ImageColorizer/HistoryModel.swift:34 | a required UUID decodes exactly when its key holds a UUID, and then to that UUID |
| HistoryModel.DecodeDate | ImageColorizer/HistoryModel.swift:35 | a required date decodes exactly when its key holds a date, and then to that date |
| HistoryModel.DecodeMediaType | ImageColorizer/HistoryModel.swift:36 | the media type decodes exactly when its key holds one of the raw values, and then to the case with that raw value |
| HistoryModel.DecodeDataIfPresent | ImageColorizer/HistoryModel.swift:37 | `decodeIfPresent`: succeeds exactly when the key is missing, null or holds data; missing or null gives nil, and data gives those bytes |
| HistoryModel.DecodeStringIfPresent | ImageColorizer/HistoryModel.swift:40 | `decodeIfPresent`: succeeds exactly when the key is missing, null or holds a string; missing or null gives nil, and a string gives that string |
| HistoryModel.DecodeItem | ImageColorizer/HistoryModel.swift:32-45 | succeeds exactly when all five field decoders do, and the item carries what they decoded. A missing id is `keyNotFound`. A missing or null `fileURLString` gives a nil URL, and a string gives `URL(string:)` of it, which is nil rather than an error when it does not parse |
| HistoryModel.ItemRoundTrip | ImageColorizer/HistoryModel.swift:32-58 | decoding an encoded item gives back the same id, date, media type, thumbnail and URL |
| HistoryModel.EncodeHistory | ImageColorizer/HistoryModel.swift:99-110 | the stored value is a JSON array with one element per item, and decoding it gives back the same list, in the same order |
| HistoryModel.DecodeElements | ImageColorizer/HistoryModel.swift:99 | the array decodes exactly when every element does, and then element i decodes to item i |
| HistoryModel.DecodeHistory | ImageColorizer/HistoryModel.swift:99 | data that is not a JSON array fails to decode |
| HistoryModel.WithoutId | ImageColorizer/HistoryModel.swift:203 | an entry survives exactly when its id differs from the removed id |
| HistoryModel.WithoutIdAppend | ImageColorizer/HistoryModel.swift:203 | removal works piece by piece, so the surviving entries keep their relative order |
| HistoryModel.WithoutIdCounts | ImageColorizer/HistoryModel.swift:203 | every copy of an entry with that id goes; every other entry keeps its multiplicity |
| HistoryModel.WithoutAbsentId | ImageColorizer/HistoryModel.swift:203 | removing an id that no entry has leaves the list unchanged |
| HistoryModel.ItemsOnDay | ImageColorizer/HistoryModel.swift:195-199 | the entries of one day are exactly the listed entries with that day label |
| HistoryModel.ItemsOnDayCounts | ImageColorizer/HistoryModel.swift:195-199 | each entry is in the group of its own day label, as often as in the list, and in no other group |
| HistoryModel.GroupByDay | ImageColorizer/HistoryModel.swift:195-199 | the group keys are exactly the day labels that occur, and no group is empty |
| HistoryModel.GroupsAreDays | ImageColorizer/HistoryModel.swift:195-199 | each group is the in-order list of that day's entries |
| HistoryModel.KeyValueStore.Set | ImageColorizer/HistoryModel.swift:111 | `set(_:forKey:)` replaces the entry under that key and no other |
| HistoryModel.HistoryManager.constructor | ImageColorizer/HistoryModel.swift:91-93 | the list starts empty and is then loaded from the store |
| HistoryModel.HistoryManager.LoadHistory | ImageColorizer/HistoryModel.swift:96-105 | with nothing stored the list is unchanged; stored data that decodes replaces the list; data that fails to decode empties it |
| HistoryModel.HistoryManager.SaveHistory | ImageColorizer/HistoryModel.swift:108-115 | the store under `"colorization_history"` holds the encoded current list, and it decodes back to that list |
| HistoryModel.HistoryManager.Insert | ImageColorizer/HistoryModel.swift:160-167 | the new item is at index 0 and the old items follow in order. The length becomes min(old + 1, 100), so entries past the first 99 of the old list are dropped. Then the list is saved |
| HistoryModel.HistoryManager.AddImageHistory | ImageColorizer/HistoryModel.swift:118-170 | when the thumbnail or its JPEG conversion gives nothing, neither the list nor the store changes; otherwise an `.image` entry with that thumbnail and no URL goes in at index 0, the list is bounded to 100 entries and saved |
| HistoryModel.HistoryManager.AddVideoHistory | ImageColorizer/HistoryModel.swift:173-192 | a `.video` entry with the given URL is inserted at index 0, bounded to 100 entries, then saved. It has a thumbnail exactly when one was given and converts to JPEG |
| HistoryModel.HistoryManager.GroupedHistoryItems | ImageColorizer/HistoryModel.swift:195-199 | the keys are the day labels of the list, and each group is that day's entries in list order |
| HistoryModel.HistoryManager.RemoveItem | ImageColorizer/HistoryModel.swift:202-205 | the list loses every entry with the item's id, and is then saved |
| HistoryModel.HistoryManager.ClearAllHistory | ImageColorizer/HistoryModel.swift:208-211 | the list is empty and the store holds the empty list |

## Left out

- `Color(hex:)`: the division of each channel by 255 and `Color.init(red:green:blue:)` are floating point. `HexColor.ColorFromHex` returns the integer channels.
- HexColor.IsSkipped: the scanner's default skip set is `.whitespacesAndNewlines`. Only its ASCII members are modelled (space, tab, line feed, vertical tab, form feed, carriage return). Unicode spaces such as U+00A0 or U+2028 are not skipped in the model.
- Foundation.ParseUrl: `URL(string:)` is reduced to four rules: the string is non-empty; every character is allowed unescaped by RFC 3986; every `%` is followed by two hexadecimal digits; and there is at most one `#`. The rest of the component grammar of RFC 3986 is not checked (for example `[` and `]` outside a host, or a malformed scheme or port), so the model accepts some strings that `URL(string:)` rejects.
- Foundation.ParseUrl: apps built against the iOS 17 SDK or later get invalid characters percent-encoded by `URL(string:)` instead of `nil`. The model follows the earlier behaviour, where such a string gives `nil`.
- JSON: the byte-level JSON format of `JSONEncoder`/`JSONDecoder` is not modelled, including the date and data encoding strategies. Items are keyed containers; the stored list is an array of them.
- `Date` is a whole number of seconds. The app only stores dates and formats them.
- `formattedDay` is the `dayLabel` parameter of `GroupedHistoryItems`, because it depends on the locale. `formattedDate`, `formattedTime` and `thumbnail` are display-only and are not part of this model.
- `generateThumbnail` (`AVAssetImageGenerator`) is not part of this model. For `AddImageHistory`, `prepareThumbnail` and the 300 × 300 redraw are a `thumbnail` parameter; `jpegData(compressionQuality:)` is a `jpegData` parameter.
- Asynchrony:
  - The `prepareThumbnail` completion and `DispatchQueue.main.async` are modelled as steps that run right away, in order.
  - `ColorizeImage` returns the request it would hand to `URLSession`. The completion handler is the separate `ReceiveResponse`.
  - Sending the request and the backend are not modelled.
- HistoryModel.HistoryManager.SaveHistory: the `catch` branch for an encoding error is not modelled. Encoding these fields (UUID, date, string, data) cannot fail, so the model always stores the list.
- `print` calls (error logging) have no effect on state and are omitted.
- `UUID()` and `Date()` are the `id`/`uuid` and `now` parameters. The generated values themselves are not modelled.
- The `@Published`/`@State` change notifications and every view body are not modelled: `HistoryView.swift`, `SettingsView.swift`, `MainView.swift`, `URLInputView.swift` and `ImageColorizerApp.swift`.
- In `GlowEffect.swift`, the random gradient stops and their animation timer are randomness and floating point, so they are not modelled.
- The Python backend (`backend/app.py`, `backend/colorization_pipeline.py`) is not part of this model. `Colorization.ExtractFile` is a receiver that follows section 5.1.1 of RFC 2046, not the backend's own parser. The backend does image inference and file I/O, and the app has no job-polling code to model.
- Colorization.ExtractFile: models a receiver that follows section 5.1.1 of RFC 2046 to the letter. The multipart parser behind `request.files["file"]` (backend/app.py:164) belongs to Flask and is not part of this model.
  - That parser also ends a part at a bare LF or CR before `--` boundary, so it cuts at more delimiter forms than `ExtractFile` does.
  - For that receiver, the no-collision precondition of `ExtractBuiltBody` is not enough. An image holding LF `--` boundary followed by a line break can be cut short.
- Colorization.ExtractFile: a receiver's other checks (the part's own headers, the `--` after the last delimiter, a preamble) are not modelled. That a random `"Boundary-" + UUID` is unlikely to occur in the JPEG bytes is a matter of probability and is not modelled; `ExtractBuiltBody` takes it as a precondition.
