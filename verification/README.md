# Upload decoder and key intake, modelled in Dafny

This project models the logic core of two HTTP handlers of a small IoT-device
backend (`functions/src/index.ts`):

- **`saveImage`'s upload decoder.** The handler receives a raw binary body:
  a hand-written multipart-style header, the four bytes CR LF CR LF, then the
  image. It slides a one-byte-stride window over the buffer and compares
  `readUInt32BE(offset).toString(16)` with `"d0a0d0a"`. The payload starts four
  bytes past the first match. Every byte before the payload start, terminator
  included, is decoded into header text with `String.fromCharCode`. The rest
  of the buffer is the payload. The file name is read from ten characters past
  the first `filename=` up to the next `"`. The device identifier is the file
  name up to its first `_`.
- **`saveKey`'s record rule.** The key schema requires the string fields `key`,
  `cksum` and `MAC`. It allows the string fields `state`, `timestamp` and
  `version` and forbids every other field. The handler then sets
  `state = "unclaimed"` whatever the body held, and stores the record only if
  the body validated.

Files and modules:

- `wrappers.dfy` (`Wrappers`): `Option`. `None` stands for a thrown exception.
- `js_string.dfy` (`JsString`): `indexOf` and `substring` with JavaScript's
  clamping of positions. `substring` also swaps its arguments when the first
  exceeds the second.
- `node_buffer.dfy` (`NodeBuffer`): bytes, `readUInt32BE` (a range error is
  `None`), `Number.prototype.toString(16)` with its inverse, and byte-for-byte
  text decoding with its inverse.
- `upload_decoder.dfy` (`UploadDecoder`): the scan (as a recursive function,
  and as the source's while loop proved equal to it), the header loop, file
  name, device id, and the whole `Decode`.
- `upload_properties.dfy` (`UploadProperties`): file-name extraction in every
  case, payload-after-terminator, the framing round trip, and worked examples.
- `key_intake.dfy` (`KeyIntake`): JSON values, a schema-driven validator, the
  key schema, stamping, `SaveKey`, and a typed `KeyRecord` view with round
  trips.

Three edge cases of the code, as the model captures them:

- **Missing terminator.** `readUInt32BE` throws a range error once fewer than
  four bytes remain (functions/src/index.ts:112). So a non-empty body without
  CR LF CR LF fails, and `Decode` returns `None`. An empty body never enters
  the loop. It decodes to an empty header, file name, device id and payload.
- **No `_` in the file name.** `substring(0, -1)` yields `""`
  (functions/src/index.ts:142). `DeviceIdWithoutUnderscore` shows this for the
  example name in the handler's header comment.
- **No `filename=`.** `indexOf` gives -1, so the name starts at index 9.
  `FileNameWithoutKey` and `FileNameWithoutKeyUnclosed` state the result.

## Model

| member | source | states |
|---|---|---|
| JsString.IndexOf | functions/src/index.ts:134-136 | `indexOf(pat, from)` returns the first occurrence at or after the clamped `from`, and -1 exactly when there is none |
| JsString.Substring | functions/src/index.ts:137 | in-range arguments give that slice; an end past the length gives the suffix from the start; a negative end gives the prefix up to the clamped start; a non-positive start gives the prefix up to the end |
| JsString.SubstringSymmetric | functions/src/index.ts:142 | `substring` does not depend on the order of its two positions |
| NodeBuffer.ReadUInt32BE | functions/src/index.ts:112 | succeeds exactly when four bytes remain at the offset; the value is below 2^32 and its big-endian bytes are the four bytes read |
| NodeBuffer.ToHex | functions/src/index.ts:113 | `toString(16)` is non-empty, all lower-case hex digits, with no leading zero unless the number is 0 |
| NodeBuffer.FromHexToHex | functions/src/index.ts:113 | reading the hex text back gives the number, so equal hex text means equal numbers |
| NodeBuffer.HexMatchesExactly | functions/src/index.ts:113-114 | the hex text equals "d0a0d0a" exactly when the value is 0x0D0A0D0A |
| NodeBuffer.WindowTestExact | functions/src/index.ts:112-114 | the window test holds exactly when the four bytes are CR LF CR LF |
| NodeBuffer.FromCharCode | functions/src/index.ts:124-125 | the decoded character's code is the byte |
| NodeBuffer.Latin1Decode | functions/src/index.ts:122-126 | the header text has one character per byte, and its code at k is byte k |
| NodeBuffer.Latin1Encode | functions/src/index.ts:122-126 | the inverse encoding has one byte per character, equal to its code |
| NodeBuffer.Latin1DecodeEncode | functions/src/index.ts:122-126 | encoding then decoding single-byte text gives the text back |
| NodeBuffer.Latin1EncodeDecode | functions/src/index.ts:122-126 | decoding then encoding bytes gives the bytes back |
| NodeBuffer.Latin1DecodeAppend | functions/src/index.ts:122-126 | decoding distributes over concatenation |
| UploadDecoder.ScanFrom | functions/src/index.ts:110-119 | from an offset, the scan yields four past the first window at or after it, or fails only when no window remains |
| UploadDecoder.Scan | functions/src/index.ts:110-119 | an empty buffer gives 0; otherwise the scan succeeds exactly when some window matches, and then returns four past the least match |
| UploadDecoder.FindPayloadStart | functions/src/index.ts:110-119 | the source's while loop, throwing on a short read and stopping at the first match, computes the same result as `Scan` |
| UploadDecoder.DecodeHeader | functions/src/index.ts:122-126 | the header loop builds text of length offset whose code at k is byte k |
| UploadDecoder.SplitIsLossless | functions/src/index.ts:122-130 | the header bytes followed by the payload are the buffer, and a header ending at a window ends with CR LF CR LF |
| UploadDecoder.FileName | functions/src/index.ts:134-137 | the name is a piece of the header no longer than it; `UploadProperties.FileNameBetweenQuotes`, `FileNameUnclosed`, `FileNameWithoutKey`, `FileNameWithoutKeyUnclosed` and `FileNameOfFramedHeader` state its value in every case |
| UploadDecoder.DeviceId | functions/src/index.ts:141-142 | with a `_`, the id is the prefix before the first `_` and holds no `_`; without one, it is empty |
| UploadDecoder.Decode | functions/src/index.ts:110-142 | succeeds exactly for an empty buffer or one with a window; the split is lossless, the header ends with the first CR LF CR LF, and the name and id come from the header |
| UploadDecoder.DecodeUpload | functions/src/index.ts:110-142 | the handler's steps in order (scan loop, header loop, slice, name, id) compute exactly `Decode` |
| UploadProperties.IndexOfFinds | functions/src/index.ts:134-136 | `indexOf` from a non-negative position returns the first occurrence there |
| UploadProperties.IndexOfMisses | functions/src/index.ts:136 | `indexOf` of a non-empty pattern returns -1 when nothing occurs from the position on, even past the end |
| UploadProperties.FileNameBetweenQuotes | functions/src/index.ts:134-137 | with `filename=` first at f and the next `"` from f+10 at e, the name is `header[f+10..e)` and holds no `"` |
| UploadProperties.FileNameUnclosed | functions/src/index.ts:134-137 | with no `"` after f+10, the name is the header up to f+10 because `substring` swaps its arguments |
| UploadProperties.FileNameWithoutKey | functions/src/index.ts:134-137 | with no `filename=`, the name runs from index 9 to the next `"` |
| UploadProperties.FileNameWithoutKeyUnclosed | functions/src/index.ts:134-137 | with neither `filename=` nor a later `"`, the name is the first nine characters |
| UploadProperties.KeyFirstAfterPrefix | functions/src/index.ts:134 | if the prefix holds no `filename=`, the first `filename=` of a framed header is the framing one |
| UploadProperties.FileNameOfFramedHeader | functions/src/index.ts:134-137 | framing a name that holds no `"` as `filename="name"` and extracting gives the name back |
| UploadProperties.ScanFindsFirstWindow | functions/src/index.ts:110-119 | a window with none before it is where the scan stops |
| UploadProperties.PayloadAfterTerminator | functions/src/index.ts:110-130 | for `A ++ CR LF CR LF ++ B` with no window starting in `A`, the payload is B whatever B holds, and the header is A's text plus CR LF CR LF |
| UploadProperties.NoCarriageReturnNoMatch | functions/src/index.ts:110-119 | header text without a CR cannot start a window |
| UploadProperties.UploadRoundTrip | functions/src/index.ts:103-142 | framing a name and a payload as a client does and decoding returns that name, its device id and the payload byte for byte |
| UploadProperties.UnalignedTerminator | functions/src/index.ts:110-119 | a terminator starting at index 1 is found, so the stride is one byte |
| UploadProperties.MissingTerminatorFails | functions/src/index.ts:111-112 | a short body without a terminator makes the read throw |
| UploadProperties.EmptyBodyDecodes | functions/src/index.ts:110-142 | an empty body decodes to empty header, name, id and payload |
| UploadProperties.DeviceIdBeforeUnderscore | functions/src/index.ts:141-142 | `device42_photo.png` gives the id `device42` |
| UploadProperties.DeviceIdWithoutUnderscore | functions/src/index.ts:141-142 | the name from the handler's header comment, which has no `_`, gives the empty id |
| KeyIntake.KeyValidate | functions/src/index.ts:23-34 | the schema-driven validator accepts exactly the records with `key`, `cksum` and `MAC`, no undeclared field, and a string in every field |
| KeyIntake.Stamp | functions/src/index.ts:76 | `state` becomes "unclaimed" whatever it was, it is added if absent, and every other field is unchanged |
| KeyIntake.SaveKey | functions/src/index.ts:73-87 | a record is stored exactly when the body as received is valid; the stored record has state "unclaimed", the body's other fields unchanged, and passes the schema |
| KeyIntake.StampKeepsValidity | functions/src/index.ts:73-79 | stamping a valid record leaves it valid |
| KeyIntake.ValidatedBeforeStamping | functions/src/index.ts:73-79 | a body whose `state` is a number is rejected even though its stamped form would pass, because validation runs first |
| KeyIntake.ToFields | functions/src/index.ts:23-34 | every typed key record is sent as a body the schema accepts |
| KeyIntake.ParseKeyRecord | functions/src/index.ts:23-34 | the typed reading exists exactly when the schema accepts the body |
| KeyIntake.ParseToFields | functions/src/index.ts:23-34 | reading back the body of a typed record gives the record |
| KeyIntake.ToFieldsParse | functions/src/index.ts:23-34 | the body of the typed reading of a valid body is that body |

## Left out

- Firebase setup, the Firestore `add` and the Cloud Storage `file.save`, including its fixed `image/png` content type and `device_id` metadata (functions/src/index.ts:41-60, 80-83, 145-160). These are calls into external services. The model ends at the values handed to them.
- The HTTP plumbing: the POST-only guard, status codes and JSON responses (functions/src/index.ts:66-68, 82, 86, 94-96, 158, 164). The guard's branch does not return, so a non-POST request still runs the rest of the handler. This is request handling, not decoding logic.
- The order of the success response and the storage callback (functions/src/index.ts:155-164). This is an asynchronous callback concern.
- Ajv itself and its error-text formatting (functions/src/index.ts:36-38, 85). The model states the schema's meaning with its own validator over a field map.
- Bodies that are not JSON objects. Ajv would accept them vacuously, because the schema declares no `"type": "object"`. Then `doc.state = ...` throws on a primitive in strict mode. The model takes the body as a field map.
- Node's `Buffer` representation. A buffer is a sequence of integers in 0..255. A body that is not a buffer is not modelled.
- JSON numbers are modelled as reals. Only their type matters to the schema.
