# Star-Web client core in Dafny

A Dafny model of the part of the Star-Web browser client (`app.js`) that runs when audio
frames arrive and render jobs start:

- **frame decoding** (`handleBinaryMessage`). A frame holds a little-endian 16-bit identifier
  length, then the identifier, then the audio payload. The identifier is split on `_`.
- **routing**. A frame whose second identifier part is the current `renderID` in decimal
  is an item of the running render. Any other well-formed frame is quickspeak audio and is
  played.
- **the render session**. The module-level `renderCount`, `itemCount`, `renderID` and `zip`
  are counted, stored and reset as items arrive.
- **script filtering and request building** (`sendRequest`). Lines are split, trimmed, and
  blank or `;`-comment lines are dropped. The count and the list that is sent are built this
  way.
- **`hex`**. A buffer is read as 32-bit big-endian words, and each word is written as 8
  zero-padded lowercase hex digits.

Modules:

- `Results`: `Result` and `Option`.
- `Bytes`: bytes, and `split`/`join` on sequences.
- `Radix`: `Number.prototype.toString(base)` on naturals, and fixed-width digit strings.
- `Hex`: `hex`, written as a loop method. It is proved against a function, which is then
  proved to be the bytewise hex encoding.
- `Frame`: the decoder, its inverse, and the router.
- `Script`: JavaScript `trim`, line filtering, and the request message.
- `Session`: the pure session transitions `OnFrame` and `StartRender` with their
  properties. It also holds the class `Client`, whose fields are the module-level variables
  and whose methods mirror `handleBinaryMessage` and `sendRequest`. Each method is proved to
  perform exactly the pure transition.

Two behaviours of the code that a reader may not expect:

- Starting a render does not clear the archive (app.js:172-177). The entries of an abandoned
  render are therefore shipped with the next one (`Session.AbandonedRenderLeaks`).
- A completed render keeps its `renderID` (app.js:111-118). A late item carrying the old
  token is therefore archived again into the fresh archive rather than played
  (`Session.StragglerAfterCompletion`). It is played only once a new render has drawn a new
  token.

## Model

| member | source | states |
|---|---|---|
| Frame.Decode | app.js:89-95 | fails exactly when the buffer has fewer than 2 bytes (`getUint16` throws). Otherwise the buffer is the 2 length bytes, then the identifier, then the payload. The identifier is as long as the little-endian length, clamped to what is present |
| Frame.Encode | app.js:92-95 | a frame laid out as `[L & 0xff, L >> 8] ++ id ++ payload` is two bytes longer than identifier and payload together, and carries the identifier's length as its length field |
| Frame.DecodeEncode | app.js:92-95 | decoding an encoded frame gives back its identifier and payload |
| Frame.EncodeDecode | app.js:92-95 | a buffer whose length field fits is re-encoded from its decoding byte for byte |
| Frame.DecodeTruncated | app.js:93-95 | when the length field overruns the buffer, `slice` clamps: the identifier is the rest of the buffer and the payload is empty |
| Frame.Uint16LE | app.js:92 | the little-endian length is below 65536 |
| Frame.Token | app.js:103 | `renderID.toString()` as bytes: non-empty and free of `_` |
| Frame.Classify | app.js:97-106 | malformed exactly when the identifier has fewer than two `_`. A render item's key holds no `_` |
| Frame.ClassifyParts | app.js:97-106 | for an identifier `kind_token_key[_…]`, the frame is the render item `key` exactly when `token` is the decimal text of `renderID`, and is played otherwise. Parts after the third are ignored |
| Frame.LeadingZeroNeverMatches | app.js:103 | a token of two or more characters starting with `0` never matches any render id |
| Frame.TokenExample | app.js:103 | `"7"` matches render 7 and `"007"` does not |
| Frame.TokenInjective | app.js:103 | distinct render ids have distinct tokens |
| Bytes.Split | app.js:97 | `split` always yields at least one part |
| Bytes.JoinSplit | app.js:97 | joining the parts of `split` with the separator gives the input back |
| Bytes.SplitPiecesFree | app.js:97 | no part of `split` contains the separator |
| Bytes.SplitCount | app.js:97-98 | `split` gives one more part than there are separators |
| Bytes.SplitFree | app.js:173 | a text without the separator splits into itself alone |
| Bytes.SplitConcat | app.js:97 | splitting at a separator occurrence splits each side independently |
| Bytes.SplitJoin | app.js:97 | separator-free parts joined with the separator split back into the same parts |
| Bytes.Concat | app.js:231 | `join('')` is empty exactly when every piece is empty |
| Bytes.Ascii | app.js:94 | ASCII text as bytes, one byte per character with the same code |
| Bytes.AsciiInjective | app.js:94 | distinct ASCII texts give distinct bytes |
| Radix.Digit | app.js:225 | the digit character of a value reads back as that value |
| Radix.ToRadix | app.js:103 | `n.toString(base)` is non-empty, uses only the base's digits, and has no leading zero except for `"0"` itself |
| Radix.FromToRadix | app.js:225 | reading the digits of `n.toString(base)` back gives `n` |
| Radix.ToRadixInjective | app.js:103 | distinct numbers have distinct digit strings |
| Radix.Decimal | app.js:179 | `renderID.toString()` consists of decimal digits |
| Radix.PaddedRadix | app.js:225-228 | a number below `base^width`, left-padded with zeros, is its `width`-digit representation |
| Radix.FixedWidthZero | app.js:227-228 | zero in fixed width is all zeros |
| Hex.Uint32At | app.js:224 | `getUint32(i)`, big-endian, fits in 32 bits |
| Hex.PadTo8 | app.js:227-228 | `('00000000' + s).slice(-8)` is 8 characters long |
| Hex.WordHex | app.js:225-228 | one word as `hex` writes it is 8 lowercase hex digits |
| Hex.HexOfWords | app.js:222-231 | the words' padded text in order has `2 * byteLength` hex digits |
| Hex.PadTo8Pads | app.js:227-228 | for a digit string of at most 8 characters, the padding prepends zeros |
| Hex.WordHexFixed | app.js:224-228 | each word is written as its exact 8-digit lowercase hex |
| Hex.PeelByte | app.js:224-228 | the last two of the fixed-width hex digits of `high * 256 + low` are the two digits of byte `low`, the rest are those of `high` |
| Hex.WordFixedBytes | app.js:224-228 | the 8 fixed-width hex digits of a big-endian word are the 2-digit hex of its four bytes, most significant first |
| Hex.WordHexBytes | app.js:222-229 | the 8 digits of word `i` are the 2-digit hex of its four bytes in order |
| Hex.Hex | app.js:219-232 | succeeds exactly when the length is a multiple of 4, and then returns the words' hex in order. Otherwise it reports `getUint32`'s range error at the first incomplete word |
| Hex.HexOfWordsBytewise | app.js:219-232 | the word-by-word output equals the plain bytewise hex encoding |
| Hex.HexRoundTrip | app.js:219-232 | the output has `2 * byteLength` lowercase hex digits (64 for a 32-byte digest) and decodes back to the buffer |
| Hex.ByteHex | app.js:225-228 | a byte is two hex digits |
| Hex.BytewiseHexDigits | app.js:219-232 | the bytewise encoding consists of hex digits |
| Hex.UnhexBytewise | app.js:219-232 | decoding the bytewise encoding gives the bytes back |
| Script.LeadingSpaces | app.js:173 | the count of leading whitespace never exceeds the length |
| Script.Trim | app.js:173 | `trim` is no longer than its input and neither starts nor ends with whitespace |
| Script.TrimStartSpec | app.js:173 | trimming the start drops exactly the leading whitespace |
| Script.TrimEndSpec | app.js:173 | trimming the end drops exactly the trailing whitespace |
| Script.TrimSpec | app.js:173 | `trim` returns the slice between the leading and trailing whitespace. That slice neither starts nor ends with whitespace, and is empty exactly when the line is all whitespace |
| Script.TrimUnpadded | app.js:180 | `trim` leaves a line without surrounding whitespace unchanged |
| Script.TrimTrimmed | app.js:173-180 | `trim` is idempotent, so trimming once (line 180) or twice (line 173) filters alike |
| Script.Lines | app.js:173 | splitting the script on newlines yields at least one line |
| Script.CountItems | app.js:173 | the count of item lines is at most the number of lines |
| Script.ItemCount | app.js:173 | `itemCount` is at most the number of script lines and equals the length of the request list of line 180 |
| Script.TrimAll | app.js:180 | `map(line => line.trim())` keeps the number of lines |
| Script.TrimAllAt | app.js:180 | the i-th mapped line is the i-th line trimmed |
| Script.KeepItems | app.js:180 | the filter keeps at most all lines, and every line it keeps is non-empty and does not start with `;` |
| Script.RequestLines | app.js:180 | the request list has at most one entry per script line, each an item line |
| Script.KeepItemsAppend | app.js:180 | the filter distributes over concatenation, so kept lines keep their original order |
| Script.KeepItemsMembers | app.js:180 | a line is kept exactly when it is present, non-empty and does not start with `;` |
| Script.KeptCount | app.js:173-180 | the filtered list of line 180 is as long as the count of line 173 |
| Script.RequestLinesSound | app.js:173-180 | the request list has `itemCount` entries. It holds exactly the trimmed item lines, each non-empty, not a comment, and already trimmed |
| Script.TrimAllUnpadded | app.js:180 | mapping `trim` over lines without surrounding whitespace changes nothing |
| Script.ExampleLines | app.js:173 | `"a\n;comment\n\nb"` splits into four lines |
| Script.ExampleTrimmed | app.js:180 | those four lines are already trimmed |
| Script.ExampleKept | app.js:180 | of those, `"a"` and `"b"` are kept |
| Script.ScriptExample | app.js:173-185 | `"a\n;comment\n\nb"` yields the request `["a", "b"]` and an item count of 2 |
| Script.BuildRequest | app.js:179-185 | the message id is `renderID` in decimal when rendering and `"quickspeak"` exactly when not. The user is 2. The request list is `RequestLines(text)`: it has `itemCount` entries, each non-empty, not a comment and already trimmed |
| Session.FileName | app.js:106 | the archive name is the key followed by `.wav` |
| Session.Reset | app.js:114-116 | after completion both counters are zero and the archive is empty, while the token is kept |
| Session.OnFrame | app.js:89-125 | keeps `renderID`. A frame that is ignored or played leaves the whole state unchanged |
| Session.StartRender | app.js:172-177 | `itemCount` becomes the number of request lines, `renderCount` becomes 0, `renderID` becomes the new id, and the archive is left as it was |
| Session.IgnoredIffMalformed | app.js:92-101 | a frame is ignored exactly when it is shorter than 2 bytes or its identifier has fewer than two `_`, and then nothing changes |
| Session.MalformedFrame | app.js:97-101 | an identifier with fewer than three parts changes neither counters, token nor archive, and plays nothing |
| Session.MatchingFrame | app.js:103-121 | an item of the current render is archived under `<key>.wav`, replacing any earlier entry, and is never played. `renderCount` rises by one, and on reaching `itemCount` the archive is delivered and the session reset |
| Session.ForeignFrame | app.js:103-125 | a frame with another token is played and changes nothing |
| Session.CompletionIff | app.js:109-118 | a frame completes the render exactly when it is a current item that brings `renderCount` to `itemCount`. Completion zeroes both counters and empties the archive |
| Session.Run | app.js:89-125 | frames handled in turn yield one event each |
| Session.AtMostOneCompletion | app.js:104-121 | a render completes at most once, and never once `renderCount` has reached `itemCount` |
| Session.CompletesOnLastItem | app.js:104-121 | exactly the missing number of current items completes the render, once, on the last item, and leaves it reset |
| Session.ItemFrame | app.js:92-95 | the frame `kind_<renderID>_key` decodes to that identifier and payload |
| Session.ItemStep | app.js:103-121 | `MatchingFrame` for a three-part identifier |
| Session.RunCons | app.js:89-125 | handling frames in turn is handling the first and then the rest |
| Session.RunTwo | app.js:89-125 | two frames handled in turn |
| Session.TwoItemRender | app.js:103-121 | a two-item render receiving two distinct keys reports progress 1/2, then delivers both entries at once and resets |
| Session.RepeatedKey | app.js:106-109 | a repeated key replaces the earlier payload, while completion still counts raw frames |
| Session.AbandonedEntriesCarryOver | app.js:172-177 | starting a render keeps every archive entry |
| Session.AbandonedRenderLeaks | app.js:172-177 | the item of a render abandoned halfway is shipped in the next render's archive |
| Session.StragglerAfterCompletion | app.js:103-121 | after completion, a late item with the unchanged token is archived against a zero item count instead of being played |
| Session.Client.constructor | app.js:5-10 | the script starts with zero counters, an empty archive and a random token in `[0, 65534]` |
| Session.Client.HandleBinaryMessage | app.js:89-125 | the new session variables are those of `OnFrame`. The played payload, if any, is appended to the playback log, and the delivered archive, if any, is appended to the saved log |
| Session.Client.SendRequest | app.js:166-188 | when connected it sends the built request, and when also rendering it performs `StartRender`. The sent request then lists the script's request lines (`itemCount` of them when rendering) under the decimal token of the new `renderID`. Nothing is played or saved |

## Left out

- Session.FileName: names an archive entry by the key's raw bytes, not by its `TextDecoder` text. Two keys that differ as bytes but are both invalid UTF-8, such as `[0xFF]` and `[0xFE]`, decode to the same U+FFFD in the source and so name one JSZip entry, the later payload replacing the earlier (app.js:94, 106-107). The model keeps two entries for them. Keys that are valid UTF-8 decode injectively, so for them the archives agree.
- WebSocket setup, reconnection and `handleTextMessage` / `updateVoicesList` (app.js:30-87, 128-155) are transport and UI code. `serverConnected` is the `connected` parameter of `Session.Client.SendRequest`, and `ws.send` is the `sent` log, holding the message before JSON serialisation.
- `playAudioFromData` and `saveAs` are foreign library calls. They are the `played` and `saved` logs of `Session.Client`, and the JSZip archive is a map from file-name bytes to payload bytes.
- The completion reset runs in the `generateAsync` promise callback in the source. Here it happens atomically with the completing frame, so a frame arriving before the promise resolves is not modelled.
- `displayStatus` texts are not modelled. `Session.OnFrame` returns a `Progress(received, expected)` or `Completed` event in their place.
- `Math.random` is not modelled. The new `renderID` is a parameter bounded to `[0, 65534]`.
- `TextDecoder` is not modelled: the identifier stays a byte sequence split on `_` (0x5F). Replacement of invalid UTF-8 and BOM stripping only affect identifier parts that never hold `_`, so routing is unaffected. The archive name is the key's bytes followed by `.wav`, where the source uses the decoded key text (`Session.FileName`).
- `sha256` (app.js:212-217) is not modelled, because `crypto.subtle` is a foreign asynchronous digest. Only `hex`, which formats its result, is modelled.
- `starspeak` and its `demoCache`, `onQuickspeakSubmit` and `onRenderClick` are not modelled, because they are UI glue. The non-empty-script guard of `onRenderClick` is not needed: every script is accepted by `StartRender`.
