# White-background remover: a Dafny model of its pixel core

The application lets a user upload an image and turns its near-white background
transparent, entirely in the browser. After the browser decodes the image onto a canvas,
the processing step walks the flat RGBA byte buffer four bytes at a time. A pixel is
background when the L1 (Manhattan) distance of its RGB from white is at most 30. Such a
pixel gets alpha 0 in place; nothing else is written. Around this loop sit a few pure
helpers: the `#RRGGBB` colour parser `hexToRgb`, the distance `colorDifference`, the
30 MiB upload size gate, and the name given to the downloaded PNG.

The project has one module per concern of `App.tsx`:

- `Wrappers`: the `Option` type, used for `hexToRgb`'s `null`.
- `Color`: the `{ r, g, b }` triple and `colorDifference`, with its metric properties.
- `Hex`: `hexToRgb`. The regular expression's language is stated on its own (`MatchesHexColor`). The parser is proved to accept exactly that language, to invert a `#RRGGBB` formatter and to ignore letter case.
- `Classifier`: the pixel loop. It is a method over `array<byte>` with `modifies data`, proved against `RemoveBackground`, a pixel-by-pixel function on the buffer's contents. The loop's promises are proved as lemmas about that function: a background pixel becomes transparent, every other pixel keeps all four bytes, only alpha bytes are written, idempotence, independence of chunks, and the inclusive threshold.
- `Upload`: the size check `handleFileChange` makes before reading a file.
- `Download`: the file-name expression, with JavaScript's `lastIndexOf` and `substring` semantics. `substring` clamps a negative end to 0, so a name with no '.' or with only a leading '.' is kept whole.

A trailing partial pixel never comes out of a canvas, but the model still covers it the
way the JavaScript behaves. Reading a channel past the end gives `undefined`, so the
distance is `NaN` and the comparison fails. A write to alpha past the end is ignored by a
typed array. Either way, those bytes stay as they were, and the loop has no
length-multiple-of-4 precondition.

Three further facts about the source shape the model:
- The buffer's length is never validated.
- The size limit is checked before the file is read, not while it is decoded.
- The target colour and tolerance are fixed constants, not parameters.

## Model

| member | source | states |
|---|---|---|
| `Color.ColorDifference` | App.tsx:25-27 | the L1 distance is a natural number, and it is 0 exactly when the two colours are equal |
| `Color.ColorDifferenceSymmetric` | App.tsx:25-27 | the distance does not depend on the order of its arguments |
| `Color.ColorDifferenceBounded` | App.tsx:25-27 | two colours with 8-bit channels are at most 765 apart |
| `Color.ColorDifferenceTriangle` | App.tsx:25-27 | the distance satisfies the triangle inequality |
| `Color.DistanceFromWhite` | App.tsx:25-27 | for an 8-bit colour, the distance from white is 765 minus the channel sum |
| `Hex.PairValue` | App.tsx:17-19 | `parseInt` of a two-digit hex group is at most 255, with the high digit as quotient by 16 and the low digit as remainder |
| `Hex.HexToRgb` | App.tsx:13-22 | every colour the parser returns has channels in [0, 255] |
| `Hex.HexToRgbDefinedIff` | App.tsx:14-21 | a colour comes back exactly when the input is six hex digits, with or without one leading '#'; otherwise the result is `null` |
| `Hex.HexRoundTrip` | App.tsx:13-22 | parsing the `#RRGGBB` spelling of any 8-bit colour, with or without the '#', gives that colour back |
| `Hex.HexToRgbIgnoresCase` | App.tsx:14 | under the `i` flag, lower-casing the input does not change the result |
| `Hex.WhiteHexParses` | App.tsx:94-99 | `hexToRgb('#FFFFFF')` is (255, 255, 255), so the internal-error branch is never taken |
| `Classifier.RemoveBackground` | App.tsx:102-110 | processing the buffer keeps its length |
| `Classifier.RemoveBackgroundAt` | App.tsx:102-110 | each byte of the processed buffer follows the per-pixel rule: an alpha byte becomes 0 when its pixel is within 30 of white, and every other byte keeps its value |
| `Classifier.BackgroundBecomesTransparent` | App.tsx:106-109 | a pixel at L1 distance <= 30 from white ends with alpha 0 and with its colour unchanged |
| `Classifier.ForegroundUnchanged` | App.tsx:106-110 | a pixel at distance > 30 keeps all four bytes |
| `Classifier.OnlyAlphaWritten` | App.tsx:103-108 | red, green and blue bytes, and the bytes of a trailing partial pixel, are never changed |
| `Classifier.RemoveBackgroundIdempotent` | App.tsx:102-110 | processing an already processed buffer changes nothing |
| `Classifier.RemoveBackgroundChunks` | App.tsx:102-110 | processing two parts split at a pixel boundary separately gives the same buffer as processing the whole, so there is no dependency between pixels |
| `Classifier.ThresholdInclusive` | App.tsx:100-107 | distance 30 is background and distance 31 is not; (240, 240, 240) at distance 45 and black stay opaque |
| `Classifier.BackgroundIffBrightEnough` | App.tsx:106-107 | an 8-bit pixel is background exactly when r + g + b >= 735 |
| `Classifier.AllWhiteScenario` | App.tsx:102-110 | an all-white 2 x 2 buffer comes out with every alpha 0 and every colour byte unchanged |
| `Classifier.OpaqueScenarios` | App.tsx:102-110 | an opaque black pixel and an opaque (240, 240, 240) pixel come out unchanged |
| `Classifier.PixelColorKept` | App.tsx:103-108 | the red, green and blue bytes of every whole pixel come out unchanged |
| `Classifier.PixelStep` | App.tsx:103-109 | one turn of the loop on a whole pixel leaves its colour bytes and sets its alpha to 0 exactly when `colorDifference` from white is at most the tolerance |
| `Classifier.TailStep` | App.tsx:102-110 | a trailing partial pixel keeps all its bytes |
| `Classifier.ByteRuleIsRemoveBackground` | App.tsx:102-110 | a buffer in which every byte follows the per-byte rule equals the pixel-by-pixel result |
| `Classifier.RemoveWhiteBackground` | App.tsx:94-110 | after the loop, the buffer equals `RemoveBackground` of its original contents |
| `Upload.CheckFileSize` | App.tsx:44-49 | a file is refused, with the "too large" message, exactly when its size exceeds 31457280 bytes |
| `Upload.CheckFileSizeBoundary` | App.tsx:9-10 | a file of exactly 30 * 1024 * 1024 bytes is accepted, and one byte more is refused |
| `Download.LastIndexOf` | App.tsx:127 | the result is -1 when the character does not occur; otherwise it is an index holding the character with none after it |
| `Download.Substring` | App.tsx:127 | `substring(start, end)` is the slice between in-range indices, and a negative end behaves as 0 |
| `Download.BaseName` | App.tsx:127 | the base is a prefix of the original name, and it is empty only when the name is |
| `Download.DownloadName` | App.tsx:127-128 | every download name is a prefix of the original name followed by `_transparent_white_bg.png`, and that prefix is non-empty unless the name is empty |
| `Download.DownloadNameStripsExtension` | App.tsx:127-128 | when the last '.' comes after some text, the download name is the text before it plus `_transparent_white_bg.png` |
| `Download.DownloadNameWithoutDot` | App.tsx:127-128 | a name without '.' is kept whole before the suffix |
| `Download.DownloadNameLeadingDot` | App.tsx:127-128 | a name whose only '.' is its first character is kept whole before the suffix |

## Left out

- React state and hooks (`useState`, `useCallback`, the reading and processing flags, App.tsx:30-37, 52-56, 73-77). They sequence the UI and are driven by asynchronous callbacks.
- Reading the file (`FileReader`, App.tsx:58-68). Loading the image and the canvas calls (`Image`, `getContext`, `drawImage`, `getImageData`, `putImageData`, `toDataURL`, App.tsx:79-92, 112-120) are left out too. These are browser decode and encode APIs whose code is not visible, so the PNG's lossless round trip is not modelled. The model starts from the decoded RGBA buffer.
- The "could not get canvas context" error (App.tsx:85-89) belongs to the canvas API and is left out.
- The DOM link used for the download (App.tsx:125-131) is left out, except for the file-name expression.
- The `if (file)` test in `handleFileChange` (App.tsx:43) is left out: the size gate takes the size of a file that exists.
- The list of accepted extensions (App.tsx:134) is left out. It is only an `accept` hint on the file input, and the code never checks it.
- The JSX in App.tsx (lines 137-277) and the files under components/ and pages/ are purely presentational and are not part of this model.
- `Uint8ClampedArray` clamping is not modelled: the loop only ever writes the constant 0, so bytes are the integers 0 to 255.
- JavaScript strings are UTF-16 code units and Dafny strings are sequences of characters. This does not matter here, because every character examined is ASCII.
