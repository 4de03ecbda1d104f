# Upload validation trigger, modelled in Dafny

This project models the storage trigger that vets image uploads
(`amplify/storage/storage-triggers/validate-upload.ts`). For every
object-created record of an S3 event, the trigger:

- decodes the object key, `+` to space first and then `decodeURIComponent`;
- runs the size check (at most 200 MiB) and the extension check
  (`.jpg`, `.jpeg`, `.png` after the last dot, lower-cased). Both always run;
- only when both pass, reads the first 12 bytes and sniffs a JPEG or PNG
  signature;
- on rejection, makes one best-effort delete of the object and throws
  `File validation failed: ` followed by the errors joined with `; `. The
  throw ends the batch.

The modules follow that structure:

- `Wrappers`: the `Option` type.
- `JsString`: the JavaScript string operations the trigger relies on:
  - `toLowerCase`, `lastIndexOf`, `substring` and `join`;
  - `(size / 1024 / 1024).toFixed(2)`, computed exactly with integers.
- `KeyDecoding`:
  - `replace(/\+/g, ' ')` and `decodeURIComponent`, with multi-octet UTF-8
    escapes and `None` for the URIError;
  - a reference percent-encoder that decoding is proved to invert.
- `ObjectStore`: the bucket as a class. It holds:
  - the object contents;
  - the objects whose ranged read fails and those whose delete fails;
  - ghost logs of every read and delete issued.
- `UploadChecks`:
  - the constants, `validateFileSize` and `validateFileExtension`;
  - the signature classification inside `validateMimeType`;
  - the verdict the handler assembles for one object;
  - the error and failure message texts.
- `UploadHandler`:
  - `validateMimeType` and `removeInvalidFile` as methods on the store;
  - the body of the handler's loop (`ValidateUpload`, `HandleRecord`);
  - the loop itself (`Handler`).

  The reference definition `RunBatch` says what a batch does: its result,
  the reads it issues in order, and the object it deletes. `Handler` is
  proved to do exactly that, and the fail-fast, read-gating and
  delete properties are proved about `RunBatch`. `RunBatch` folds the
  one-record step `Extend` over the records' steps from the first. A
  step adds its reads and decides the result while the batch is still
  succeeding, and changes nothing once it has failed.

Where the code's behaviour is surprising, the model follows the code:

- Size and extension both run, with no short-circuit between them, and
  both errors are kept in that order. Only the signature check is gated.
- A key that does not decode makes the handler throw a URIError. It is not
  turned into a validation error, and nothing is read or deleted for it.
- The batch is fail-fast: records after the first rejection are never examined.
- The extension includes the dot. A key without a dot yields the whole lower-cased key.
- `+` is replaced before percent-decoding, so `%2B` decodes to a literal `+`.

## Model

| member | source | states |
|---|---|---|
| UploadChecks.ValidateFileSize | amplify/storage/storage-triggers/validate-upload.ts:18-26 | rejects iff size > 209,715,200 (a size exactly at the limit passes); the error carries the size; no warnings |
| UploadChecks.FileExtension | amplify/storage/storage-triggers/validate-upload.ts:32 | with no dot the extension is the whole lower-cased key; otherwise a suffix of the lower-cased key that starts with its only dot |
| UploadChecks.ValidateFileExtension | amplify/storage/storage-triggers/validate-upload.ts:31-41 | rejects iff the extracted extension is not one of the three allowed; the error carries that extension |
| UploadChecks.ExtensionAcceptedIff | amplify/storage/storage-triggers/validate-upload.ts:31-41 | the extension check passes iff the lower-cased key ends in `.jpg`, `.jpeg` or `.png` |
| UploadChecks.DotlessExtensionRejected | amplify/storage/storage-triggers/validate-upload.ts:32-34 | a key without a dot is always rejected |
| UploadChecks.DottedExtension | amplify/storage/storage-triggers/validate-upload.ts:32-34 | for a key with a dot, acceptance is the same as ending in an allowed suffix |
| UploadChecks.ExtensionIsSuffix | amplify/storage/storage-triggers/validate-upload.ts:32 | the extracted extension is always a suffix of the lower-cased key |
| UploadChecks.SuffixIsExtension | amplify/storage/storage-triggers/validate-upload.ts:32 | if a dotted key ends in an allowed suffix, that suffix is exactly the extracted extension |
| UploadChecks.ExtensionAfterLastDot | amplify/storage/storage-triggers/validate-upload.ts:32 | for `stem.tail` with no dot in tail, the extension is `.` plus the lower-cased tail, whatever dots the stem has |
| UploadChecks.UpperCaseExtensionAccepted | amplify/storage/storage-triggers/validate-upload.ts:31-41 | `a.PNG` passes |
| UploadChecks.DotlessKeyRejected | amplify/storage/storage-triggers/validate-upload.ts:31-41 | `png` is rejected with extension `png` |
| UploadChecks.LastDotDecides | amplify/storage/storage-triggers/validate-upload.ts:31-41 | any key ending in `.exe` (for instance `a.jpg.exe`) is rejected with extension `.exe` |
| UploadChecks.TrailingDotRejected | amplify/storage/storage-triggers/validate-upload.ts:31-41 | `a.` is rejected with extension `.` |
| UploadChecks.ClassifySignature | amplify/storage/storage-triggers/validate-upload.ts:57-88 | a failed read gives valid with the read-error warning; a body under 2 bytes gives valid with the no-headers warning; a longer body is valid (no warnings) iff it starts FF D8 FF or 89 50 4E 47, else invalid with the signature error |
| UploadChecks.ShortBodies | amplify/storage/storage-triggers/validate-upload.ts:68-75 | every 2-byte body is rejected; a 3-byte body passes only if it is FF D8 FF |
| UploadChecks.CheapErrors | amplify/storage/storage-triggers/validate-upload.ts:122-134 | at most two errors; none iff size and extension both pass |
| UploadChecks.CheapErrorsExactly | amplify/storage/storage-triggers/validate-upload.ts:122-134 | the cheap errors are exactly the size error (carrying the size) when the size is over the limit, followed by the extension error (carrying the extracted extension) when it is not allowed |
| UploadChecks.SizeOnlyError | amplify/storage/storage-triggers/validate-upload.ts:122-134 | an oversized file with an allowed extension is rejected with the size error alone, whatever its content |
| UploadChecks.ExtensionOnlyError | amplify/storage/storage-triggers/validate-upload.ts:122-134 | a file within the limit with a disallowed extension is rejected with the extension error alone, whatever its content |
| UploadChecks.ValidateObject | amplify/storage/storage-triggers/validate-upload.ts:118-146 | accepted iff size, extension and signature all pass; a rejection carries at least one error |
| UploadChecks.BothCheapErrorsInOrder | amplify/storage/storage-triggers/validate-upload.ts:122-134 | when size and extension both fail, the errors are exactly [size error, extension error] |
| UploadChecks.ReadIrrelevantWhenCheapFails | amplify/storage/storage-triggers/validate-upload.ts:136-146 | when size or extension fails, the read result changes nothing and the errors are the cheap errors |
| UploadChecks.InconclusiveReadAccepts | amplify/storage/storage-triggers/validate-upload.ts:136-146 | after passing size and extension, a failed read accepts with the read-error warning alone, and a body under 2 bytes with the no-headers warning alone |
| UploadChecks.SignatureVerdict | amplify/storage/storage-triggers/validate-upload.ts:136-146 | after passing size and extension, a body of 2+ bytes is accepted with no warnings on a signature match and rejected with the signature error alone otherwise |
| UploadChecks.FailureMessageOne | amplify/storage/storage-triggers/validate-upload.ts:156 | one error: the message is the prefix followed by that error's text |
| UploadChecks.FailureMessageTwo | amplify/storage/storage-triggers/validate-upload.ts:156 | two errors: the prefix, then the texts joined by `; ` |
| UploadChecks.ErrorText | amplify/storage/storage-triggers/validate-upload.ts:22-79 | an error text starts `File size ` iff it is the size error; the extension error's text starts `File extension '` followed by the offending extension |
| UploadChecks.FailureMessage | amplify/storage/storage-triggers/validate-upload.ts:156 | the thrown message always starts `File validation failed: `, followed by the first error's text when there is one |
| UploadChecks.SizeErrorExample | amplify/storage/storage-triggers/validate-upload.ts:22 | 300 MiB renders as `300.00` |
| JsString.ToLower | amplify/storage/storage-triggers/validate-upload.ts:32 | same length; each character lower-cased on its own (ASCII) |
| JsString.LastIndexOf | amplify/storage/storage-triggers/validate-upload.ts:32 | -1 iff the character is absent; otherwise it is found there and nowhere after |
| JsString.SubstringSuffix | amplify/storage/storage-triggers/validate-upload.ts:32 | `substring(start)` is a suffix of the string, of length `|s|` for a start at or below 0, empty for a start at or past the end, `|s| - start` otherwise |
| JsString.MiBHundredths | amplify/storage/storage-triggers/validate-upload.ts:22 | the integer nearest to 100 * size / 2^20, the larger on a tie (what `toFixed(2)` picks) |
| JsString.MiBTextValue | amplify/storage/storage-triggers/validate-upload.ts:22 | the size text is digits, a point and two digits, and reads back as exactly `MiBHundredths` |
| JsString.DecimalRoundTrip | amplify/storage/storage-triggers/validate-upload.ts:22 | the integer part's digits read back as the number |
| JsString.NatToDecimal | amplify/storage/storage-triggers/validate-upload.ts:22 | at least one character, all decimal digits, with no leading zero |
| JsString.MiBText | amplify/storage/storage-triggers/validate-upload.ts:22 | at least four characters, with the decimal point third from the end |
| JsString.JoinTwo | amplify/storage/storage-triggers/validate-upload.ts:156 | joining two parts puts the separator between them |
| JsString.Join | amplify/storage/storage-triggers/validate-upload.ts:156 | a non-empty join starts with the first part, and its length is the parts' total length plus one separator between each pair of neighbours |
| KeyDecoding.ReplacePlusPointwise | amplify/storage/storage-triggers/validate-upload.ts:113 | every `+` becomes a space; nothing else changes |
| KeyDecoding.ReplacePlus | amplify/storage/storage-triggers/validate-upload.ts:113 | the result has the same length and no `+` left |
| KeyDecoding.DecodeUriComponent | amplify/storage/storage-triggers/validate-upload.ts:113 | a successful decode is never longer than its input |
| KeyDecoding.DecodedKeyShorter | amplify/storage/storage-triggers/validate-upload.ts:113 | a decoded key (`+` replaced, then percent-decoded) is never longer than the raw key |
| KeyDecoding.DecodeEscape | amplify/storage/storage-triggers/validate-upload.ts:113 | a decoded escape sequence spans 3, 6, 9 or 12 characters, all of them well-formed `%XX` escapes |
| KeyDecoding.DecodeWithoutEscapes | amplify/storage/storage-triggers/validate-upload.ts:113 | a string without `%` decodes to itself |
| KeyDecoding.MalformedEscapeFails | amplify/storage/storage-triggers/validate-upload.ts:113 | a `%` not followed by two hex digits anywhere makes decoding fail |
| KeyDecoding.PercentInsideEscape | amplify/storage/storage-triggers/validate-upload.ts:113 | every `%` inside a decoded escape sequence starts a well-formed escape |
| KeyDecoding.PlainKeyDecoding | amplify/storage/storage-triggers/validate-upload.ts:113 | a raw key without `%` decodes to the key with `+` made spaces, and has no `+` left |
| KeyDecoding.DecodeOfEncode | amplify/storage/storage-triggers/validate-upload.ts:113 | decoding inverts percent-encoding (UTF-8 octets) on every string |
| KeyDecoding.PlusIsSpace | amplify/storage/storage-triggers/validate-upload.ts:113 | `a+b.png` decodes to `a b.png` |
| KeyDecoding.EscapedPlus | amplify/storage/storage-triggers/validate-upload.ts:113 | `%2B` decodes to a literal `+` |
| KeyDecoding.Utf8Example | amplify/storage/storage-triggers/validate-upload.ts:113 | `%C3%A9.png` decodes to `é.png` |
| KeyDecoding.TruncatedEscapeFails | amplify/storage/storage-triggers/validate-upload.ts:113 | `bad%2.png` fails to decode |
| KeyDecoding.MissingContinuationFails | amplify/storage/storage-triggers/validate-upload.ts:113 | `%C3.png` (a lead octet with no continuation) fails to decode |
| ObjectStore.RangedRead | amplify/storage/storage-triggers/validate-upload.ts:48-55 | fails iff the object is missing or unreadable; otherwise the first min(12, length) bytes of the object |
| ObjectStore.Store.GetRange | amplify/storage/storage-triggers/validate-upload.ts:48-55 | returns `RangedRead` of the current contents and logs one read |
| ObjectStore.Store.Delete | amplify/storage/storage-triggers/validate-upload.ts:96-100 | succeeds iff the object is deletable; removes it then, leaves the contents alone otherwise; logs one delete |
| UploadHandler.ValidateMimeType | amplify/storage/storage-triggers/validate-upload.ts:46-89 | one ranged read of the object, classified by `ClassifySignature` |
| UploadHandler.RemoveInvalidFile | amplify/storage/storage-triggers/validate-upload.ts:94-105 | exactly one delete attempt; the object is gone unless its delete fails, and a failure is swallowed |
| UploadHandler.ValidateUpload | amplify/storage/storage-triggers/validate-upload.ts:118-146 | the flag and error/warning lists end as `ValidateObject` says; one read is issued iff size and extension passed |
| UploadHandler.HandleRecord | amplify/storage/storage-triggers/validate-upload.ts:111-157 | the outcome is `ExamineRecord` of the record against the contents before it; it issues exactly the record's reads and, for a rejected object only, one delete |
| UploadHandler.ExamineRecordCases | amplify/storage/storage-triggers/validate-upload.ts:111-146 | a record is skipped iff it is not an object-created event, and is a URIError (carrying the raw key) iff it is created and its key does not decode; otherwise the verdict names the object in the record's bucket under the decoded key, and a rejection carries at least one error |
| UploadHandler.RecordReads | amplify/storage/storage-triggers/validate-upload.ts:136-138 | a record issues at most one ranged read |
| UploadHandler.RecordReadsCases | amplify/storage/storage-triggers/validate-upload.ts:136-138 | a record reads its object iff it is created, its key decodes and size and extension pass; the read is of the object its verdict names; a created, decodable record that reads nothing is rejected |
| UploadHandler.RunBatch | amplify/storage/storage-triggers/validate-upload.ts:107-169 | a batch deletes something iff it failed with a validation error, and issues at most one read per record |
| UploadHandler.ReadsBounded | amplify/storage/storage-triggers/validate-upload.ts:110-146 | steps that read at most once each give a batch with no more reads than steps |
| UploadHandler.HandleNext | amplify/storage/storage-triggers/validate-upload.ts:110-157 | after a successful prefix, either the batch goes on with the record's reads added, or the store's logs and contents are those of the whole batch |
| UploadHandler.Handler | amplify/storage/storage-triggers/validate-upload.ts:107-169 | the result, reads, delete attempts and final contents are exactly those of `RunBatch` on the contents at the start |
| UploadHandler.RunSteps | amplify/storage/storage-triggers/validate-upload.ts:110-166 | a batch deletes something iff it failed with a validation error |
| UploadHandler.FailureIsFinal | amplify/storage/storage-triggers/validate-upload.ts:156 | once a prefix of the batch has failed, the rest changes nothing |
| UploadHandler.SuccessIffAllContinue | amplify/storage/storage-triggers/validate-upload.ts:110-168 | the steps succeed iff every step lets the handler move on |
| UploadHandler.BatchSucceedsIffAllContinue | amplify/storage/storage-triggers/validate-upload.ts:110-168 | a batch succeeds iff every record is skipped or accepted, and then nothing is deleted |
| UploadHandler.StopsAtFirstFailure | amplify/storage/storage-triggers/validate-upload.ts:156 | the first record that stops the handler fixes the batch: later records change nothing; the batch throws that record's error and deletes only its object |
| UploadHandler.IgnoredRecordChangesNothing | amplify/storage/storage-triggers/validate-upload.ts:111 | a record that is not an object-created event, wherever it sits, changes nothing: no read, no delete, no failure |
| UploadHandler.IgnoredStepChangesNothing | amplify/storage/storage-triggers/validate-upload.ts:111 | a skipped step anywhere among the steps leaves the trace unchanged |
| UploadHandler.RemovedObjectWasRejected | amplify/storage/storage-triggers/validate-upload.ts:149-157 | the only object a batch deletes is one the checks rejected, and the batch throws that object's errors: accepted objects are never deleted |
| UploadHandler.RemovalComesFromSteps | amplify/storage/storage-triggers/validate-upload.ts:149-157 | a removal in the trace comes from a failed step with the errors thrown |
| UploadHandler.ReadsComeFromSteps | amplify/storage/storage-triggers/validate-upload.ts:136-138 | every read of the batch is a read of one of its steps |
| UploadHandler.ReadsOnlyAfterCheapChecks | amplify/storage/storage-triggers/validate-upload.ts:136-138 | every ranged read is of a created record's decoded key whose size and extension both passed |
| UploadHandler.StepsConcat | amplify/storage/storage-triggers/validate-upload.ts:110 | the records are examined one by one: the steps of a concatenated batch are the concatenated steps |

## Left out

- The AWS SDK calls (`S3Client`, `GetObjectCommand`, `DeleteObjectCommand`, `transformToByteArray`) are replaced by the `Store` class.
- `async`/`await` is left out: the model is sequential, as the handler is.
- All `console` logging is left out, including the per-file line that formats the size a second time.
- Transport failures are not modelled as nondeterministic. The store holds a fixed set of objects whose ranged read fails and a fixed set whose delete fails.
- ObjectStore.RangedRead: a response with no body is not modelled separately. It is classified exactly like an empty body (the no-headers warning), so the model folds it into `Body([])`.
- ObjectStore.Store.Delete: the model does not tell a missing object apart from an existing one. Deleting a missing object succeeds as long as the object is deletable.
- UploadHandler.Handler: returns the thrown error as data (`MalformedKey` or `ValidationFailed` with the error list) instead of an `Error` object. `UploadChecks.FailureMessage` renders the thrown text from that list. The URIError's own message is not modelled.
- JsString.ToLower: lower-cases ASCII letters only. Full Unicode case mapping is left out, and it can change a string's length. `"İ".toLowerCase()` is two code units, so the code rejects the key `İ.png` (extension `\u0307.png`), while the model keeps `İ` and accepts it.
- KeyDecoding: a Dafny `char` is a Unicode scalar value, so a decoded supplementary character is one character rather than two UTF-16 code units. The extension depends only on ASCII dots and is not affected.
- JsString.MiBHundredths: exact for sizes below 2^53, where dividing by 1024 twice is exact in binary floating point. Larger sizes, and sizes that are not non-negative integers, are not modelled.
- `toFixed(2)` is modelled exactly, as integer hundredths rounded to nearest with ties up, rather than abstracted away.
- `amplify/auth/post-confirmation/handler.ts` is not part of this model. It is concurrent glue over Cognito and GraphQL, with no decision logic.
- `src/App.tsx` is not part of this model. It is UI, and its size text is display copy.
- The Amplify resource and constant files are not part of this model. They are declarative configuration.
