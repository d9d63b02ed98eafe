# PII Guardian Pro backend: a verified model of the placeholder-redaction pipeline

This project models the backend of PII Guardian Pro in Dafny. The backend's
job is to hide personal data in an uploaded PDF and later put it back.

- **Detection** (`PiiDetection`): named entities and pattern matches become
  PII fields with a masked preview and a confidence. Fields below the 0.60
  threshold are filtered out. Then the first field for each
  (type, original value) pair is kept.
- **Field encryption** (`Encrypt`): a key is derived from the passkey. Each
  field gets the id `ENCRYPTED_FIELD_NNN` and its value is encrypted with
  Fernet. The fields go into `encrypted_fields` and `field_mapping`. If
  decryption of any field fails, it all fails with one "Invalid passkey
  provided" error.
- **PDF rewriting** (`PdfUtils`, `Substitution`, `Paths`):
  - Every occurrence of a field's value on every page is replaced by the
    placeholder text `[id:type]`.
  - The metadata is written to a JSON sidecar next to the encrypted PDF.
  - Restoring reads the sidecar, decrypts the fields and replaces each
    placeholder with its value.
  - Output names follow fixed rules: `encrypted_<stem>.pdf`, `<that>.json`,
    `decrypted_<stem without "encrypted_">.pdf` and `redacted_<name>`.
- **Document store** (`Api`): the API's in-memory `documents_store`. Upload,
  analyze, encrypt and decrypt move a record through the statuses uploaded,
  processing, analyzed or error, encrypted and decrypted. The handlers'
  error codes are modelled as the client sees them: a broad
  `except Exception` turns their own 400 and 404 into a 500.

Helper modules:
- `Wrappers`: Option and Result.
- `Strings`: decimal numerals, zero padding, `str.replace`, `lower()`.
- `Dicts`: a Python dict as a sequence of pairs with distinct keys, in
  insertion order; assigning to a key overwrites it in place or appends it.
- `Records`: the field, mapping-entry and metadata dictionaries, and the
  exceptions.

Modelling choices:
- **Crypto and encodings.** PBKDF2-HMAC-SHA256, Fernet, base64 and UTF-8
  are the fields of a `Primitives` value, not definitions. What the code
  relies on them for is stated as three predicates, which the theorems take
  as hypotheses:
  - `RoundTrips`: decoding undoes encoding, and decryption under the same
    key undoes encryption.
  - `Authenticating`: a token made under one key is rejected under another.
  - `KeysSeparate`: for a fixed salt, different passkeys give different keys.

  `RoundTrips` holds of the real primitives. `Authenticating` and
  `KeysSeparate` are idealisations: real PBKDF2 keys can collide, and a
  Fernet token can be accepted under another key, with negligible but
  non-zero probability. The wrong-passkey theorems hold only up to these
  two idealisations. Fernet's per-token randomness is the `nonce` parameter.
- **Salt.** The docstring of `generate_key_from_passkey`
  (backend/utils/encrypt.py:17) says the salt is "generated if None". The
  code (backend/utils/encrypt.py:22-23) instead uses the fixed salt
  `urlsafe_b64encode(b"piiguardian_salt_2024")` when none is given, and the
  model follows the code.
- **Pages.** A page is its text.
  - `search_for` is leftmost non-overlapping find-all.
  - A redaction annotation covers a character span.
  - `apply_redactions` scans left to right. At each position it applies the
    first-added annotation that starts there, and otherwise copies the
    character.
  - Search is exact and case-sensitive. PyMuPDF's `search_for` ignores ASCII
    case; see "## Left out".
- **Confidences** are integers in hundredths.
- **Files.** The file system is a map from path to stored file, held by a
  `Disk` object.

The main theorems:
- `PdfUtils.EncryptThenDecrypt` and `Api.AnalyzedDocumentRoundTrip`:
  encrypting a PDF and then decrypting the result with the same passkey
  gives back the original pages, provided no page contains '['.
- `Encrypt.WrongPasskeyRejected` and `Api.WrongPasskeyIs401`: under another
  passkey, restoring fails with the fixed invalid-passkey error, which
  reaches the client as a 401. Both assume `Authenticating` and
  `KeysSeparate`.
- `Substitution.SubstituteOneIsReplace`: for one non-empty value, searching
  and applying the redactions is exactly Python's `str.replace`, so no
  occurrence is left behind.

## Model

| member | source | states |
|---|---|---|
| Strings.NatToStringInjective | backend/main.py:62 | distinct counts give distinct decimal ids `str(n)` |
| Strings.ZeroPadNumeral | backend/utils/encrypt.py:54 | `{n:03d}` is all digits, at least 3 wide, and denotes n |
| Strings.ZeroPadInjective | backend/utils/encrypt.py:54 | zero padding of two numerals to the same width is injective |
| Strings.ReplaceAbsent | backend/utils/pdf_utils.py:119 | `str.replace` of a substring that does not occur leaves the string unchanged |
| Strings.Lower | backend/main.py:53 | `lower()` keeps the length and lowers each character |
| Strings.LowerEndsWithPdf | backend/main.py:53 | the upload check accepts exactly the names ending in '.' and the letters p, d, f in either case |
| Dicts.Get | backend/main.py:84-87 | a lookup is absent exactly when the key is not in the dict |
| Dicts.Insert | backend/main.py:71 | `d[k] = v` overwrites a present key in place, otherwise appends; the keys become keys(d) + {k} |
| Dicts.GetAt | backend/main.py:87 | the value stored at a position is what lookup of its key returns |
| Encrypt.GenerateKeyFromPasskey | backend/utils/encrypt.py:11-32 | the salt used is the given one, or when none is given the fixed demo salt; the key is PBKDF2 (SHA-256, 32 bytes, 100000 iterations) of the passkey, URL-safe base64 encoded |
| Encrypt.PlaceholderId | backend/utils/encrypt.py:52-54 | the id of field i is "ENCRYPTED_FIELD_" then at least three digits denoting i + 1; it has no bracket or colon |
| Encrypt.PlaceholderIdInjective | backend/utils/encrypt.py:52-54 | different field indices get different ids, even when values repeat |
| Encrypt.PlaceholderText | backend/utils/encrypt.py:129-140 | the placeholder is '[', the id, ':', the type and ']', in that order and nothing else |
| Encrypt.PlaceholderTextIsMarker | backend/utils/encrypt.py:129-140 | `[id:type]` of a bracket-free id and type starts with '[', ends with ']' and has no other bracket |
| Encrypt.PlaceholderTextInjective | backend/utils/encrypt.py:140 | for colon-free ids, equal placeholder texts have equal id and equal type |
| Encrypt.MetadataFor | backend/utils/encrypt.py:45-84 | the lengths of `encrypted_fields` and `field_mapping` equal the number of input fields; record i is input field i with exactly `placeholder_id`, `encrypted_value` and `encrypted`=True set; mapping entry i has key id i and the field's original value, type and location, plus the record's encrypted value; the salt is b64encode of the fixed salt; the method label is "AES-256-Fernet" |
| Encrypt.EncryptPiiFields | backend/utils/encrypt.py:45-84 | the loop that grows `encrypted_fields` and `field_mapping` returns exactly that metadata |
| Encrypt.OuterError | backend/utils/encrypt.py:123-127 | an error mentioning "Invalid passkey" becomes ValueError("Invalid passkey provided"); any other becomes Exception("Failed to decrypt PII fields: " + message) |
| Encrypt.FieldFailureSurfaces | backend/utils/encrypt.py:116-125 | a failed field's ValueError("Invalid passkey or corrupted data") surfaces as ValueError("Invalid passkey provided") |
| Encrypt.DecryptValue | backend/utils/encrypt.py:110-112 | a value decrypts exactly when b64decode, Fernet decryption and UTF-8 decoding all succeed |
| Encrypt.DecryptAll | backend/utils/encrypt.py:106-119 | all or nothing: a result exists exactly when every field decrypts, and it pairs each key with its plaintext in the mapping's order |
| Encrypt.DecryptOutcome | backend/utils/encrypt.py:90-127 | an undecodable salt fails with the prefixed message; otherwise, under the key rederived from the stored salt, the result succeeds exactly when every field decrypts; any field failure gives the single invalid-passkey error |
| Encrypt.DecryptPiiFields | backend/utils/encrypt.py:101-121 | the loop that aborts at the first failing field returns exactly that outcome, with no partial map |
| Encrypt.DecryptedIsDict | backend/utils/encrypt.py:106-114 | the decrypted map has distinct keys, namely the keys of `field_mapping` |
| Encrypt.DecryptErrors | backend/utils/encrypt.py:116-127 | every failure is ValueError("Invalid passkey provided") or a prefixed salt-decoding Exception |
| Encrypt.DecryptRoundTrip | backend/utils/encrypt.py:102-114 | with the passkey used to encrypt, decryption decodes the stored salt back to the salt used and maps each id i to field i's original value |
| Encrypt.WrongPasskeyRejected | backend/utils/encrypt.py:109-125 | with authenticated tokens and separating keys, any other passkey fails with ValueError("Invalid passkey provided") when there is a field |
| Encrypt.ValidatePasskeyStrength | backend/utils/encrypt.py:142-160 | true exactly when the passkey has at least 8 characters |
| Substitution.FindAllFrom | backend/utils/pdf_utils.py:43 | every hit is an occurrence at or after the start; hits are increasing and do not overlap; an empty needle finds nothing (that no occurrence is missed is FindAllFromCovers) |
| Substitution.FindAllFromCovers | backend/utils/pdf_utils.py:43 | no occurrence is missed: every occurrence of a non-empty needle lies inside some hit |
| Substitution.FindAllFromComplete | backend/utils/pdf_utils.py:43 | for a needle that cannot overlap itself, every occurrence is itself a hit |
| Substitution.FirstAt | backend/utils/pdf_utils.py:51 | the annotation applied at a position is the first-added one starting there, and none starts there if it is absent |
| Substitution.ApplyFromAnnot | backend/utils/pdf_utils.py:51 | where an annotation applies, its replacement is emitted and the scan resumes at the annotation's end |
| Substitution.ApplyFromCopy | backend/utils/pdf_utils.py:51 | where no annotation starts, the character is kept and the scan moves on by one |
| Substitution.Apply | backend/utils/pdf_utils.py:51 | annotations that cover nothing inside the text have no effect: such a page is unchanged |
| Substitution.HitAnnots | backend/utils/pdf_utils.py:44-48 | one annotation per hit, spanning the needle and carrying the replacement |
| Substitution.PairAnnotsSound | backend/utils/pdf_utils.py:37-48 | every annotation added covers an occurrence of some field's needle and carries that field's replacement |
| Substitution.PairAnnotsComplete | backend/utils/pdf_utils.py:37-48 | every occurrence the search finds for a field gets an annotation with that field's replacement |
| Substitution.ScanAgrees | backend/utils/pdf_utils.py:43-51 | for one needle, the redaction scan from any position the search reaches produces what `str.replace` produces on the rest of the text |
| Substitution.SubstituteOneIsReplace | backend/utils/pdf_utils.py:37-51 | for one non-empty value, searching, annotating every hit and applying the redactions equals `text.replace(value, replacement)` |
| Substitution.Swap | backend/utils/pdf_utils.py:103-113 | the restoring pairs are the redaction pairs with needle and replacement exchanged |
| Substitution.SubstituteRoundTrip | backend/utils/pdf_utils.py:99-116 | on text without '[', with distinct well-formed markers, restoring after redacting gives back the text |
| Paths.Name | backend/utils/pdf_utils.py:207 | `Path.name` has no '/' and ends the path |
| Paths.Dir | backend/utils/pdf_utils.py:55 | the parent part plus the name is the path, and it is empty or ends in '/' |
| Paths.SuffixStart | backend/utils/pdf_utils.py:54 | the suffix starts at the last dot when that dot is neither first nor last in the name; otherwise there is no suffix (no dot, a leading dot only, or a trailing dot) |
| Paths.Stem | backend/utils/pdf_utils.py:54 | the stem followed by the suffix is the name; where the cut falls is SuffixStart's contract |
| Paths.WithSuffix | backend/utils/pdf_utils.py:85 | `with_suffix` fails exactly for an empty name (ValueError); otherwise it gives parent + stem + suffix |
| Paths.UploadPath | backend/main.py:57 | `UPLOAD_DIR / filename` is the filename itself when absolute, else "uploads/" + filename |
| Paths.EncryptedPdfPath | backend/utils/pdf_utils.py:54-55 | the encrypted PDF lies in the original's directory and is named "encrypted_" + stem + ".pdf" |
| Paths.SidecarPath | backend/utils/pdf_utils.py:60 | `with_suffix('.json')` fails exactly for an empty name; otherwise the sidecar lies in the same directory and is named stem + ".json" |
| Paths.SidecarOfEncrypted | backend/utils/pdf_utils.py:60 | the sidecar path of the encrypted PDF always exists and differs from the PDF's path |
| Paths.DecryptedPdfPath | backend/utils/pdf_utils.py:119-120 | the decrypted PDF lies beside the encrypted one, named "decrypted_" + stem with every "encrypted_" removed + ".pdf" |
| Paths.DecryptedNameOfEncrypted | backend/utils/pdf_utils.py:119-120 | for an original stem without "encrypted_", the decrypted file is "decrypted_" + original stem + ".pdf" beside the original |
| Paths.RedactedPdfPath | backend/utils/pdf_utils.py:207-208 | the redacted copy lies beside the original and is named "redacted_" + name |
| Paths.OutputsDistinct | backend/utils/pdf_utils.py:119-121 | the decrypted PDF never overwrites the encrypted one, and the redacted copy never overwrites the original |
| PiiDetection.MapSpacyLabel | backend/utils/pii_detection.py:95-104 | a kept entity label gets a display name; any other label is returned unchanged |
| PiiDetection.FormatPiiType | backend/utils/pii_detection.py:106-119 | a pattern name gets its display name; any other has '_' replaced by ' ' and is title-cased |
| PiiDetection.GetPatternConfidence | backend/utils/pii_detection.py:142-155 | every score is between 0.70 and 0.95; a name not in the table gets 0.70 |
| PiiDetection.MaskValue | backend/utils/pii_detection.py:121-140 | every preview that exists contains the "***" mask |
| PiiDetection.MaskMissing | backend/utils/pii_detection.py:121-140 | the preview is None exactly for a number-like type whose value is shorter than 4, or an e-mail without '@' |
| PiiDetection.MaskLastFour | backend/utils/pii_detection.py:123-136 | a number-like preview depends only on the last four characters and ends with them |
| PiiDetection.MaskLastFourShape | backend/utils/pii_detection.py:123-136 | a number-like preview is "***-**-", "***-***-" or "****-****-****-" (social security, phone, card) followed by the last four characters; the mask is only '*' and '-' |
| PiiDetection.MaskEmail | backend/utils/pii_detection.py:129-133 | an e-mail preview depends only on the first two characters of the user part (or its shortness) and the domain, and ends with "@" + domain |
| PiiDetection.MaskOther | backend/utils/pii_detection.py:137-140 | another value longer than 4 previews as its first two characters, "***" and its last two, and depends on nothing else; a shorter value gives "***" |
| PiiDetection.MaskAliases | backend/utils/pii_detection.py:121-136 | a pattern name and its display name mask every value the same way |
| PiiDetection.Confident | backend/utils/pii_detection.py:160-161 | keeps exactly the fields with confidence at least 0.60, each as often as in the input (multisets), and changes nothing when all qualify |
| PiiDetection.ConfidentSubsequence | backend/utils/pii_detection.py:160-161 | the kept fields are in input order: a subsequence of the input |
| PiiDetection.Deduplicate | backend/utils/pii_detection.py:164-173 | the de-duplicated list is never longer than its input |
| PiiDetection.FilterAndDeduplicate | backend/utils/pii_detection.py:157-173 | the loop with the `seen` set returns the de-duplicated confident fields |
| PiiDetection.DedupDistinct | backend/utils/pii_detection.py:164-173 | no two kept fields share a (type, original value) pair, and every pair present in the input is kept |
| PiiDetection.DedupSubsequence | backend/utils/pii_detection.py:164-173 | the output is a subsequence of the input, in input order |
| PiiDetection.DedupFirstOccurrences | backend/utils/pii_detection.py:164-173 | each kept field is the first input field with its pair |
| PiiDetection.DedupMembers | backend/utils/pii_detection.py:164-173 | every kept field is an input field |
| PiiDetection.DedupIdempotent | backend/utils/pii_detection.py:164-173 | de-duplicating twice gives the same result as once |
| PiiDetection.DedupOfDistinct | backend/utils/pii_detection.py:164-173 | input whose pairs are already distinct is returned unchanged |
| PiiDetection.EntityDetections | backend/utils/pii_detection.py:47-63 | the entity loop yields one field per entity with a kept label, in entity order |
| PiiDetection.MatchDetections | backend/utils/pii_detection.py:67-83 | the match loop yields one field per match, in match order |
| PiiDetection.DetectPii | backend/utils/pii_detection.py:40-89 | the result is the entity fields followed by each pattern's fields in table order, filtered and de-duplicated |
| PiiDetection.CandidatesShaped | backend/utils/pii_detection.py:47-83 | every candidate is on page 1 with an all-zero box, unencrypted, has a display type, has confidence at least 0.70, and comes from one of the two methods |
| PiiDetection.DetectPiiResult | backend/utils/pii_detection.py:53-86 | the 0.60 filter never drops a candidate; every result is a well-shaped candidate, and no two results share a pair |
| PiiDetection.DisplayTypesMarkerSafe | backend/utils/pii_detection.py:97-118 | no display type contains a bracket or ':', so each is safe inside a placeholder |
| PdfUtils.Disk.Save | backend/utils/pdf_utils.py:56 | saving a path replaces what it held and nothing else |
| PdfUtils.OpenPdf | backend/utils/pdf_utils.py:30 | opening succeeds exactly for a stored PDF and gives its pages; a missing path is a FileNotFoundError |
| PdfUtils.LoadMetadata | backend/utils/pdf_utils.py:89-90 | reading succeeds exactly for a JSON sidecar and gives its metadata; anything else is a ValueError |
| PdfUtils.Page.constructor | backend/utils/pdf_utils.py:34 | a loaded page has its text and no annotations |
| PdfUtils.Page.SearchFor | backend/utils/pdf_utils.py:43 | the hits are the leftmost non-overlapping occurrences of the needle |
| PdfUtils.Page.AddRedactAnnot | backend/utils/pdf_utils.py:46-48 | adds one annotation with the replacement text; the page text is untouched |
| PdfUtils.Page.ApplyRedactions | backend/utils/pdf_utils.py:51 | the text becomes the annotations carried out, and the annotations are cleared |
| PdfUtils.AnnotateInstances | backend/utils/pdf_utils.py:44-48 | the instance loop adds exactly one annotation per hit, in order |
| PdfUtils.RedactFields | backend/utils/pdf_utils.py:36-51 | after the field loop and `apply_redactions`, the page is its text with every found value replaced by that field's placeholder |
| PdfUtils.RedactOneField | backend/utils/pdf_utils.py:36-51 | with one field of non-empty value, the redacted page is `text.replace(value, placeholder)` |
| PdfUtils.RestorePlaceholders | backend/utils/pdf_utils.py:102-116 | after the mapping loop and `apply_redactions`, the page has every `[id:type]` (type from `field_mapping[id]`) replaced by the decrypted value |
| PdfUtils.RedactPages | backend/utils/pdf_utils.py:33-51 | every page is redacted with the same pairs and kept in order |
| PdfUtils.RestorePages | backend/utils/pdf_utils.py:99-116 | every page is restored with the same pairs and kept in order |
| PdfUtils.EncryptFailure | backend/utils/pdf_utils.py:67-69 | every error becomes Exception("Failed to generate encrypted PDF: " + message) |
| PdfUtils.DecryptFailure | backend/utils/pdf_utils.py:127-133 | a ValueError mentioning "Invalid passkey" becomes ValueError("Invalid passkey provided"); other ValueErrors pass through; the rest get the "Failed to generate decrypted PDF: " prefix |
| PdfUtils.DecryptFailureShaped | backend/utils/pdf_utils.py:127-133 | what the handlers re-raise is always the fixed passkey error, a ValueError not mentioning the passkey, or a prefixed Exception |
| PdfUtils.GenerateEncryptedPdf | backend/utils/pdf_utils.py:25-69 | on success it writes the rewritten PDF to "encrypted_<stem>.pdf" and then the metadata to its ".json" sibling, and returns the PDF path; on failure it returns the prefixed error and writes nothing |
| PdfUtils.GenerateDecryptedPdf | backend/utils/pdf_utils.py:83-133 | steps run in the code's order: sidecar path, sidecar present, sidecar read, fields decrypted, PDF opened; on success only the decrypted PDF is written; on failure nothing is written |
| PdfUtils.CreateRedactedPdfSimple | backend/utils/pdf_utils.py:185-217 | every page is written unchanged and in order to "redacted_" + name; the replaced text is discarded; a failure to open gives the prefixed error |
| PdfUtils.RedactedKeepsOriginal | backend/utils/pdf_utils.py:207-211 | writing the redacted copy leaves the original file as it was |
| PdfUtils.SidecarFound | backend/utils/pdf_utils.py:85-96 | restoring reads from `with_suffix('.json')` exactly the metadata that redaction wrote, and opens the rewritten PDF |
| PdfUtils.EncryptPairsOfMetadata | backend/utils/pdf_utils.py:37-40 | redaction replaces field i's original value with `[ENCRYPTED_FIELD_NNN:type]` for id i |
| PdfUtils.RestorePairsReverse | backend/utils/pdf_utils.py:103-105 | after a successful decryption, the pairs restoring uses are the redaction pairs swapped |
| PdfUtils.DecryptAfterEncrypt | backend/utils/pdf_utils.py:85-116 | after encryption, decrypting with the same passkey succeeds and restores each rewritten page with the swapped pairs |
| PdfUtils.PagesRoundTrip | backend/utils/pdf_utils.py:99-116 | pages without '[' that are redacted and then restored are unchanged, provided the field types have no brackets |
| PdfUtils.EncryptThenDecrypt | backend/utils/pdf_utils.py:93-116 | decrypting the output of encryption with the same passkey gives back the original pages |
| PdfUtils.DecryptWithOtherPasskey | backend/utils/pdf_utils.py:127-129 | decrypting the output of encryption with another passkey fails with ValueError("Invalid passkey provided") |
| PdfUtils.InvalidPasskeyKept | backend/utils/pdf_utils.py:127-129 | the fixed invalid-passkey error passes through the handlers unchanged |
| PdfUtils.MissingMetadata | backend/utils/pdf_utils.py:85-87 | a missing sidecar fails with "Failed to generate decrypted PDF: Encryption metadata not found" before anything is decrypted or opened |
| PdfUtils.DecryptedPdfErrors | backend/utils/pdf_utils.py:127-133 | every failure of generate_decrypted_pdf has one of the three shapes the handlers produce |
| Api.HttpStr | backend/main.py:78 | `str()` of an HTTPException starts with its status code and ends with ": " + detail |
| Api.Reissued | backend/main.py:76-78 | a handler's own HTTPException reaches the client as a 500 whose detail is "<what> failed: " followed by the original "<code>: <detail>" |
| Api.StatusName | backend/main.py:107-108 | only the failed status is named "error" |
| Api.DecryptHttpError | backend/main.py:179-185 | a ValueError mentioning "Invalid passkey" is a 401 "Invalid passkey", any other ValueError a 400 with its message, anything else a 500 "Decryption failed: ..." |
| Api.DecryptStatuses | backend/main.py:179-185 | every decryption failure reaches the client as 400, 401 or 500, and a 401 exactly for the fixed invalid-passkey error |
| Api.NextIdFresh | backend/main.py:62 | the id `str(len(store) + 1)` is never in use, because nothing is deleted |
| Api.AppendKeepsValid | backend/main.py:62-71 | a new record under the next id is appended, and the store's invariant holds |
| Api.ReplaceKeepsValid | backend/main.py:98-100 | updating a stored record in place keeps the keys, the size and the invariant |
| Api.InsertTwice | backend/main.py:88-100 | the "processing" write is overwritten by the final write |
| Api.Values | backend/main.py:190 | the listed records are the stored values, in order |
| Api.DocumentStore.constructor | backend/main.py:41 | the store starts empty |
| Api.DocumentStore.Upload | backend/main.py:48-78 | a name not ending in ".pdf" (in any case) is a 500 "Upload failed: 400: ..." and changes nothing; otherwise the file is saved under uploads/ and an "uploaded" record without detections or encrypted path is appended under a fresh id |
| Api.DocumentStore.Analyze | backend/main.py:80-109 | an unknown id is a 500 "Analysis failed: 404: ..." and changes nothing; a failed OCR leaves the status "error"; otherwise the detected fields are stored and the status is "analyzed" |
| Api.DocumentStore.Encrypt | backend/main.py:111-147 | the checks run in order (unknown id, no detections, passkey shorter than 8), each a 500; only on success the encrypted path and status "encrypted" are set; on failure the record and files are untouched |
| Api.DocumentStore.Decrypt | backend/main.py:149-185 | an unknown id or a missing encrypted path is a 500; a failure maps to 401, 400 or 500 and changes nothing; success writes the decrypted PDF and changes only the status, to "decrypted" |
| Api.DocumentStore.GetDocuments | backend/main.py:187-190 | returns every stored record, in insertion order |
| Api.WrongPasskeyIs401 | backend/main.py:179-181 | a document encrypted under one passkey and decrypted under another gets a 401 "Invalid passkey" |
| Api.AnalyzedDocumentRoundTrip | backend/main.py:128-167 | for the fields detection produces, decrypting the encrypted document with the same passkey gives back the original pages (pages without '[') |

## Left out

- OCR (backend/utils/ocr.py) is not part of this model. `process_ocr` is a parameter of `Analyze`: the text for a path, or the error it raises.
- The spaCy model and the regular expressions of `PII_PATTERNS` are not interpreted. They are the `entities` and `finditer` functions of an `Nlp` value. `str.title` is its `title` function.
- PBKDF2, Fernet, base64 and UTF-8 are uninterpreted functions with stated properties (see above). So are Fernet's IV and timestamp. The "AES-256-Fernet" label is only a constant.
- `encrypt_pii_fields`' `except Exception` wrapper, and `detect_pii`'s, are absent. With typed records and total primitives nothing inside them can raise.
- Only `decrypt_pii_fields` has an error path. Its missing-key cases (`encrypted_metadata["salt"]`, a malformed `field_mapping`) cannot arise with typed metadata.
- PyMuPDF geometry is left out: rectangles, fonts, rendering, and how overlapping redactions interact in the real library. Overlapping annotations follow the scan rule above.
- Substitution.FindAllFrom: search is exact and case-sensitive. PyMuPDF's `search_for` ignores ASCII case, so in the real library "John" also redacts "JOHN".
- Paths are the pathlib cases the code meets on POSIX strings. Normalisation (`.`, `..`, repeated slashes, trailing slash) is left out.
- `Strings.Lower` folds ASCII letters only.
- Write failures of the file system and of `json.dump`, and text that is no valid JSON, are left out. A sidecar holds the metadata written to it. Any non-sidecar content at that path reads as a JSON decoding ValueError with a fixed message.
- The messages of library exceptions (a missing file, a PDF that cannot be opened, a salt that cannot be decoded) are stand-ins. The code forwards their `str()` unchanged, which the model keeps.
- `extract_text_with_coordinates` (backend/utils/pdf_utils.py:135-172) returns PyMuPDF's text spans with geometry. Nothing in the pipeline calls it, so it is left out.
- `pii_fields` of generate_decrypted_pdf and `file_path` of detect_pii are unused by the code. They are parameters the model ignores as well.
- `encrypt_document` checks the passkey length itself (backend/main.py:123) rather than calling `validate_passkey_strength`. The model keeps the inline check.
- In the real code, pages are loaded from a document and changed in place. In the model each page is a fresh `Page` whose text is collected back into the document, so aliasing between page objects and the document is not represented.
- The FileResponse body, the health endpoint, CORS, async handling and concurrent requests are left out; the store is handled as a sequential map. Logging is left out.
- PdfUtils.EncryptThenDecrypt, Api.AnalyzedDocumentRoundTrip: the round trip is proved only for pages without '['. A page that already contains text of the form `[ENCRYPTED_FIELD_NNN:type]` could be altered by restoring. It is also proved only for the model's exact-case search. With PyMuPDF's case-insensitive search, a page holding "JOHN" for the detected value "John" is redacted there too and restored as "John", so the real round trip is exact only on pages where every occurrence of a value up to ASCII case has the detected casing.
- Api.Reissued, Api.HttpStr: the decimal form of the status code is `Strings.NatToString`. The contracts state the prefix and suffix of the detail, not its exact text.
- PiiDetection.MapSpacyLabel, PiiDetection.FormatPiiType: the contracts state that a table entry is one of the display names, not which one. The exact table is the definition.
