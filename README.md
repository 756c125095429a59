# File-signature validation and video choice of ReactDemo, in Dafny

This project models the two decision procedures of the ReactDemo front end.

- **The magic-number validator** (`src/FileValidator.ts`). A registry maps a
  MIME type to its signature bytes. `registerFileType` adds or overwrites an
  entry and ignores an empty type or an empty signature. `initialize`
  registers PNG, JPEG (under the key `image/jpg`) and PDF. `checkMagicNumber`
  reads a 4-byte signature as two header bytes plus two trailer bytes, and a
  longer signature as a prefix. A shorter signature never matches.
  `validate` accepts as soon as one allowed type is registered and its
  signature matches. Otherwise it rejects with `File formats not supported`.
  The static `magicNumbers` map is the field of class
  `FileValidator.Registry`. Its constructor plays the module load: an empty
  map, then `FileValidator.initialize()`.
- **The content check of `validateFile`** (`src/App.tsx`). It is hard-coded.
  JPEG is checked as header `FF D8` plus trailer `FF D9`. PNG and PDF are
  checked as true 4-byte prefixes. Any other type string fails. A file is
  accepted iff some allowed type passes. Otherwise it is rejected with
  `File content does not match allowed formats.`.
- **The video choice of `setVideo`** (`src/App.tsx`). The device memory, the
  CPU core count and the connection type pick the small, mid or large video
  URL. Missing readings default to `0`, `0` and `"4g"`.

JavaScript reads outside a `Uint8Array` as `undefined`, which equals no
number. `Validation.ReadIs` models that read: an out-of-range index is a
mismatch, never an error. Buffers are `seq<Byte>`, with `Byte` the integers
0 to 255. Signatures are `seq<int>`, like the source's `number[]`.

Module `Agreement` compares the two validators. They agree on JPEG, but under
different keys. They agree on PNG and PDF for 4-byte buffers. They disagree
on longer PNG and PDF files. The registry reads those 4-byte signatures as
header plus trailer, so a real PNG file, which ends in `AE 42 60 82`, fails
the registry's PNG entry and passes `validateFile`; likewise a real PDF
file, which ends in `%%EOF`, fails the registry's PDF entry.

Files: `validation.dfy` (bytes, JavaScript reads, verdicts),
`file_validator.dfy`, `app.dfy`, `agreement.dfy`.

## Model

| member | source | states |
|---|---|---|
| `FileValidator.CheckMagicNumber` | src/FileValidator.ts:44-57 | a 4-byte signature matches iff the buffer has at least 2 bytes, its first two bytes are the signature's first two and its last two bytes the signature's last two; a longer signature matches iff it is a prefix of the buffer; a shorter one never matches |
| `FileValidator.Register` | src/FileValidator.ts:10-16 | an empty type or an empty signature leaves the registry unchanged; otherwise the entry for the type becomes exactly the signature, overwriting any earlier one, and every other entry is unchanged; the "no empty key, no empty signature" invariant is preserved |
| `FileValidator.Initialized` | src/FileValidator.ts:4-8 | after `initialize`, `image/png`, `image/jpg` and `application/pdf` map to their three signatures and every other entry is as before |
| `FileValidator.Registry.constructor` | src/FileValidator.ts:60 | once the module is loaded the registry holds exactly the three entries of `initialize` and satisfies its invariant |
| `FileValidator.Registry.Initialize` | src/FileValidator.ts:4-8 | the new registry is the old one with the three registrations applied, and the invariant is kept |
| `FileValidator.Registry.RegisterFileType` | src/FileValidator.ts:10-16 | the new registry is `Register` of the old one, and the invariant is kept |
| `FileValidator.Registry.Validate` | src/FileValidator.ts:26-33 | accepts iff some allowed type is registered and its signature matches the buffer; unregistered types are skipped; every rejection carries `File formats not supported`, so an empty list rejects |
| `FileValidator.JpgEntryIsHeaderAndTrailer` | src/FileValidator.ts:6 | after `initialize`, the `image/jpg` entry passes iff the buffer starts with `FF D8` and ends with `FF D9` |
| `FileValidator.AcceptsDependsOnlyOnTypeSet` | src/FileValidator.ts:26-31 | two allowed-type lists with the same members get the same verdict, whatever their order and duplicates |
| `FileValidator.AcceptsConcat` | src/FileValidator.ts:26-31 | allowing the types of two lists accepts iff one of the lists alone accepts |
| `FileValidator.ShortBufferRejected` | src/FileValidator.ts:44-57 | a buffer of 0 or 1 bytes is rejected for every registry and every allowed list, without an out-of-range read |
| `FileValidator.RegisterKeepsOtherVerdicts` | src/FileValidator.ts:15 | registering a type changes no verdict for an allowed list that does not contain that type |
| `FileValidator.JpegKeyUnregistered` | src/FileValidator.ts:4-8 | after `initialize` the key `image/jpeg` is not registered, so allowing only it rejects every file |
| `App.TypeCheck` | src/App.tsx:72-81 | `image/jpeg` passes iff the buffer starts with `FF D8` and ends with `FF D9`; `image/png` iff its first four bytes are `89 50 4E 47`; `application/pdf` iff they are `25 50 44 46`; any other type never passes |
| `App.AnyTypeMatches` | src/App.tsx:71 | the short-circuiting `some` over the allowed types holds iff some allowed type passes its check |
| `App.ValidateFile` | src/App.tsx:71-88 | accepts iff some allowed type passes its check; every rejection carries `File content does not match allowed formats.`, so an empty list rejects |
| `App.ValidateFileDependsOnlyOnTypeSet` | src/App.tsx:71-82 | two allowed-type lists with the same members get the same verdict |
| `App.JpegOnlyUpload` | src/App.tsx:72-73 | with only `image/jpeg` allowed, a file passes iff its first two bytes are `FF D8` and its last two `FF D9` |
| `App.EmptyBufferRejected` | src/App.tsx:71-88 | an empty buffer is rejected for every allowed list |
| `App.SizeFor` | src/App.tsx:34-45 | small iff memory < 4 or cores <= 2 or the connection is `2g` or `3g`; large iff memory >= 4, cores >= 4 and the connection is neither; mid iff memory >= 4, cores = 3 and the connection is neither |
| `App.SizeForMonotone` | src/App.tsx:34-45 | on the same connection, more memory and more cores never choose a smaller video |
| `App.SetVideo` | src/App.tsx:29-46 | the URL given to `setVideoSrc` is the one given to `sentMsg`; it is one of the three URLs; a missing memory or core reading forces the small video; the large video is chosen iff memory and cores are both present and at least 4 and the connection is not `2g` or `3g` |
| `App.MissingConnectionIs4g` | src/App.tsx:32 | a missing connection reading gives the same choice as `4g` |
| `App.UrlOfInjective` | src/App.tsx:20-22 | the three URLs are distinct, so the URL sent tells which size was chosen |
| `Agreement.InitialTable` | src/FileValidator.ts:60 | the registry after module load has exactly the keys `image/png`, `image/jpg` and `application/pdf` and satisfies the invariant |
| `Agreement.JpegAgreement` | src/App.tsx:72-73 | `validateFile` with `image/jpeg` accepts exactly the buffers that the registry accepts with `image/jpg` |
| `Agreement.FourByteBuffersAgree` | src/FileValidator.ts:45-51 | on 4-byte buffers the registry's PNG and PDF entries accept exactly what `validateFile` accepts for those types |
| `Agreement.PngFileDisagreement` | src/FileValidator.ts:5 | a buffer with the PNG header `89 50 4E 47 0D 0A 1A 0A` and the PNG trailer `AE 42 60 82` passes `validateFile` as PNG and fails the registry's PNG entry |
| `Agreement.PdfFileDisagreement` | src/FileValidator.ts:7 | a buffer with the PDF header `%PDF-1.4` and the PDF trailer `%%EOF` plus a line feed passes `validateFile` as PDF and fails the registry's PDF entry |
| `Agreement.HeadTailDisagreement` | src/FileValidator.ts:45-51 | the bytes `89 50 00 4E 47` pass the registry's PNG entry and fail `validateFile`'s PNG check |

## Left out

- Reading the file: the `FileReader`, its `onloadend`/`onerror` callbacks and the promise (src/FileValidator.ts:19-24 and 36-40, src/App.tsx:63-69 and 91-95). Both validators are modelled from the bytes read to the verdict. The `Error reading file.` rejection is I/O and is not modelled.
- The `console.log` of `registerFileType` (src/FileValidator.ts:12) is a side effect; only the unchanged registry is modelled.
- `FileValidator.Registry.RegisterFileType`: the source stores the caller's array by reference, so a later change to that array would change the registry; the model stores a copy.
- `registerFileType` tests `!mimeType`; the model takes only strings, so only the empty string is rejected (a `null` or `undefined` from untyped callers is not modelled).
- Signature entries are JavaScript numbers; the model takes integers. A fractional or `NaN` entry would also never equal a byte.
- `setVideo` reads `navigator.deviceMemory`, `navigator.hardwareConcurrency` and `navigator.connection.effectiveType`; the model takes them as parameters, with `Missing` for `undefined`. Memory is a real; the core count is an integer.
- `sentMsg` posts to `window.ReactNativeWebView` only when that bridge exists (src/App.tsx:57-61); the model records the URL passed to `sentMsg`, not the bridge.
- React state, rendering and event handlers (`handleFileChange`, `handleVideoPlay`, `videoChange`, the JSX) are UI, and `handleUpload` is an HTTP request.
- src/components/GPRC.tsx and src/components/Service.ts are network calls and UI state with no decision logic.
- ZIP or archive inspection, executable-disguise detection and a separate "buffer too short" reason: the code has none of these, only one rejection reason per validator, and the model follows it.
