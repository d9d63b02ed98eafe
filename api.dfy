/** backend/main.py without the HTTP layer: the in-memory `documents_store`
    and the handlers that move a document record through its statuses.
    Every handler catches what it raises itself with a broad
    `except Exception`, so its own 400 and 404 reach the client as a 500
    whose detail is "<what> failed: <status>: <detail>". OCR is a parameter
    (the text or the error `process_ocr` produces for a path); detection is
    the PiiDetection model, files are the PdfUtils disk. */
module Api {
  import opened Wrappers
  import opened Strings
  import opened Dicts
  import opened Records
  import opened Paths
  import opened Encrypt
  import opened PiiDetection
  import opened PdfUtils

  /** The record's "status" value. `Processing` is set while analysis runs
      and never survives a handler; `Failed` is "error". */
  datatype Status = Uploaded | Processing | Analyzed | Encrypted | Decrypted | Failed

  function StatusName(s: Status): (name: string)
    ensures s == Failed <==> name == "error"
  {
    match s
    case Uploaded => "uploaded"
    case Processing => "processing"
    case Analyzed => "analyzed"
    case Encrypted => "encrypted"
    case Decrypted => "decrypted"
    case Failed => "error"
  }

  /** One `doc_record`. */
  datatype DocRecord = DocRecord(
    id: string,
    filename: string,
    originalPath: string,
    status: Status,
    detectedPii: Option<seq<PiiField>>,
    encryptedPath: Option<string>)

  /** An `HTTPException(status_code, detail)`. */
  datatype HttpError = HttpError(statusCode: nat, detail: string)

  /** `str(exc)` of an HTTPException: "<status>: <detail>". */
  function HttpStr(e: HttpError): (s: string)
    ensures StartsWith(s, NatToString(e.statusCode)) && EndsWith(s, ": " + e.detail)
  {
    var code := NatToString(e.statusCode);
    assert (code + ": " + e.detail)[..|code|] == code;
    assert (code + ": " + e.detail)[|code|..] == ": " + e.detail;
    code + ": " + e.detail
  }

  /** A handler's broad `except Exception` around its own HTTPException. */
  function Reissued(what: string, e: HttpError): (h: HttpError)
    ensures h.statusCode == 500
    ensures StartsWith(h.detail, what + " failed: ") && EndsWith(h.detail, HttpStr(e))
  {
    var head := what + " failed: ";
    assert (head + HttpStr(e))[..|head|] == head;
    assert (head + HttpStr(e))[|head|..] == HttpStr(e);
    HttpError(500, head + HttpStr(e))
  }

  const NotFound: HttpError := HttpError(404, "Document not found")
  const OnlyPdf: HttpError := HttpError(400, "Only PDF files are supported")
  const NotAnalyzed: HttpError := HttpError(400, "Document must be analyzed first")
  const ShortPasskey: HttpError := HttpError(400, "Passkey must be at least 8 characters")
  const NoEncryptedDocument: HttpError := HttpError(404, "Encrypted document not found")

  /** `not doc["detected_pii"]` is false: present and non-empty. */
  predicate HasDetections(pii: Option<seq<PiiField>>) {
    pii.Some? && |pii.value| > 0
  }

  /** `not doc["encrypted_path"]` is false: present and non-empty. */
  predicate HasEncryptedPath(path: Option<string>) {
    path.Some? && path.value != ""
  }

  /** decrypt_document's handlers for what generate_decrypted_pdf raises. */
  function DecryptHttpError(e: Error): (h: HttpError)
    ensures e.ValueError? && Contains(e.msg, InvalidPasskeyMessage) ==> h == HttpError(401, "Invalid passkey")
    ensures e.ValueError? && !Contains(e.msg, InvalidPasskeyMessage) ==> h == HttpError(400, e.msg)
    ensures !e.ValueError? ==> h == HttpError(500, "Decryption failed: " + Str(e))
  {
    if e.ValueError? then
      if Contains(e.msg, InvalidPasskeyMessage) then HttpError(401, "Invalid passkey") else HttpError(400, Str(e))
    else HttpError(500, "Decryption failed: " + Str(e))
  }

  /** What holds of every stored record between requests: a fresh upload
      has neither detections nor an encrypted file, an analyzed record has
      detections, an encrypted one has non-empty detections and an encrypted
      path, a decrypted one an encrypted path; no record stays processing. */
  predicate RecordInvariant(r: DocRecord) {
    && (r.status == Uploaded ==> r.detectedPii.None? && r.encryptedPath.None?)
    && (r.status == Analyzed ==> r.detectedPii.Some?)
    && (r.status == Encrypted ==> HasDetections(r.detectedPii) && r.encryptedPath.Some?)
    && (r.status == Decrypted ==> r.encryptedPath.Some?)
    && r.status != Processing
  }

  /** The store as uploads build it: the k-th record has id str(k + 1),
      under that key, and satisfies the record invariant. */
  predicate ValidDocs(d: Dict<string, DocRecord>) {
    forall k :: 0 <= k < |d| ==> d[k].0 == NatToString(k + 1) && d[k].1.id == d[k].0 && RecordInvariant(d[k].1)
  }

  /** The id the next upload takes is not in use: ids never collide. */
  lemma NextIdFresh(d: Dict<string, DocRecord>)
    requires ValidDocs(d)
    ensures NatToString(|d| + 1) !in Keys(d)
  {
    forall k | 0 <= k < |d| ensures d[k].0 != NatToString(|d| + 1) {
      if d[k].0 == NatToString(|d| + 1) {
        NatToStringInjective(k + 1, |d| + 1);
      }
    }
  }

  /** A record under the next id extends a valid store. */
  lemma AppendKeepsValid(d: Dict<string, DocRecord>, r: DocRecord)
    requires ValidDocs(d) && r.id == NatToString(|d| + 1) && RecordInvariant(r)
    ensures r.id !in Keys(d) && Insert(d, r.id, r) == d + [(r.id, r)]
    ensures ValidDocs(d + [(r.id, r)])
  {
    NextIdFresh(d);
    var e: seq<(string, DocRecord)> := d + [(r.id, r)];
    forall k | 0 <= k < |e| ensures e[k].0 == NatToString(k + 1) {
      if k < |d| {
        assert e[k] == d[k];
      } else {
        assert k == |d| && e[k] == (r.id, r);
      }
    }
    forall k | 0 <= k < |e| ensures e[k].1.id == e[k].0 && RecordInvariant(e[k].1) {
      if k < |d| {
        assert e[k] == d[k];
      }
    }
  }

  /** Replacing a stored record by one with the same id that keeps the
      record invariant keeps the store valid, in the same order. */
  lemma ReplaceKeepsValid(d: Dict<string, DocRecord>, id: string, r: DocRecord)
    requires ValidDocs(d) && id in Keys(d) && r.id == id && RecordInvariant(r)
    ensures ValidDocs(Insert(d, id, r)) && Keys(Insert(d, id, r)) == Keys(d)
    ensures |Insert(d, id, r)| == |d| && Get(Insert(d, id, r), id) == Some(r)
  {
    var i := IndexOf(d, id);
    var e: seq<(string, DocRecord)> := Insert(d, id, r);
    assert e == d[i := (id, r)];
    assert |e| == |d|;
    forall k | 0 <= k < |e|
      ensures e[k].0 == NatToString(k + 1) && e[k].1.id == e[k].0 && RecordInvariant(e[k].1)
    {
      if k == i {
        assert e[k] == (id, r) && d[k].0 == id;
      } else {
        assert e[k] == d[k];
      }
    }
    GetAt(e, i);
  }

  /** The record `upload_document` creates for the n-th upload. */
  function NewRecord(n: nat, filename: string): DocRecord {
    DocRecord(NatToString(n + 1), filename, UploadPath(filename), Uploaded, None, None)
  }

  /** `list(documents_store.values())`, in insertion order. */
  function Values(d: Dict<string, DocRecord>): (vs: seq<DocRecord>)
    ensures |vs| == |d| && forall k :: 0 <= k < |d| ==> vs[k] == d[k].1
  {
    seq(|d|, k requires 0 <= k < |d| => d[k].1)
  }

  class DocumentStore {
    var documents: Dict<string, DocRecord>
    const disk: Disk

    ghost predicate Valid()
      reads this
    {
      ValidDocs(documents)
    }

    /** The module-level `documents_store = {}`. */
    constructor(disk: Disk)
      ensures Valid() && documents == [] && this.disk == disk
    {
      documents := [];
      this.disk := disk;
    }

    /** `upload_document(document)`: only a name ending in ".pdf" in any
        case is accepted; the file is saved under uploads/ and a new record
        "uploaded", without detections or encrypted path, is appended under
        the next id. */
    method Upload(filename: string, content: File) returns (r: Result<DocRecord, HttpError>)
      requires Valid()
      modifies this, disk
      ensures Valid()
      ensures !EndsWith(Lower(filename), ".pdf") ==>
        && r == Err(Reissued("Upload", OnlyPdf))
        && documents == old(documents) && disk.files == old(disk.files)
      ensures EndsWith(Lower(filename), ".pdf") ==>
        && r == Ok(NewRecord(|old(documents)|, filename))
        && r.value.id !in Keys(old(documents))
        && documents == old(documents) + [(r.value.id, r.value)]
        && disk.files == old(disk.files)[UploadPath(filename) := content]
    {
      if !EndsWith(Lower(filename), ".pdf") {
        return Err(Reissued("Upload", OnlyPdf));
      }
      var filePath := UploadPath(filename);
      disk.Save(filePath, content);
      var docId := NatToString(|documents| + 1);
      var docRecord := DocRecord(docId, filename, filePath, Uploaded, None, None);
      NextIdFresh(documents);
      AppendKeepsValid(documents, docRecord);
      documents := Insert(documents, docId, docRecord);
      return Ok(docRecord);
    }

    /** `analyze_document(document_id)`: an unknown id changes nothing; a
        failed OCR leaves the record "error"; otherwise the detected fields
        are stored and the record is "analyzed". */
    method Analyze(documentId: string, ocr: string -> Result<string, Error>, nlp: Nlp)
        returns (r: Result<(DocRecord, seq<PiiField>), HttpError>)
      requires Valid()
      modifies this
      ensures Valid() && Keys(documents) == Keys(old(documents)) && |documents| == |old(documents)|
      ensures documentId !in Keys(old(documents)) ==>
        r == Err(Reissued("Analysis", NotFound)) && documents == old(documents)
      ensures documentId in Keys(old(documents)) ==>
        var doc := Get(old(documents), documentId).value;
        var text := ocr(doc.originalPath);
        && (text.Err? ==>
              && r == Err(HttpError(500, "Analysis failed: " + Str(text.error)))
              && documents == Insert(old(documents), documentId, doc.(status := Failed)))
        && (text.Ok? ==>
              var fields := Deduplicate(Confident(Candidates(text.value, nlp)));
              var updated := doc.(detectedPii := Some(fields), status := Analyzed);
              && r == Ok((updated, fields))
              && documents == Insert(old(documents), documentId, updated))
    {
      var found := Get(documents, documentId);
      if found.None? {
        return Err(Reissued("Analysis", NotFound));
      }
      var doc := found.value;
      assert doc.id == documentId by {
        var i := IndexOf(documents, documentId);
        GetAt(documents, i);
      }
      ghost var before := documents;
      documents := Insert(documents, documentId, doc.(status := Processing));
      assert Keys(documents) == Keys(before);
      var extractedText := ocr(doc.originalPath);
      if extractedText.Err? {
        ReplaceKeepsValid(before, documentId, doc.(status := Failed));
        documents := Insert(documents, documentId, doc.(status := Failed));
        InsertTwice(before, documentId, doc.(status := Processing), doc.(status := Failed));
        return Err(HttpError(500, "Analysis failed: " + Str(extractedText.error)));
      }
      var detectedPii := DetectPii(extractedText.value, doc.originalPath, nlp);
      var updated := doc.(detectedPii := Some(detectedPii), status := Analyzed);
      ReplaceKeepsValid(before, documentId, updated);
      documents := Insert(documents, documentId, updated);
      InsertTwice(before, documentId, doc.(status := Processing), updated);
      return Ok((updated, detectedPii));
    }

    /** `encrypt_document(document_id, passkey)`: the checks run in order
        (unknown id, no detections, passkey shorter than 8), each reissued
        as a 500; on success the encrypted PDF and its sidecar are written
        and the record gets the encrypted path and status "encrypted"; on
        any failure the record and the files are unchanged. The response
        is the encrypted file, offered as "encrypted_" + filename. */
    method Encrypt(documentId: string, passkey: string, p: Primitives, nonce: nat -> Bytes)
        returns (r: Result<(string, string), HttpError>)
      requires Valid()
      modifies this, disk
      ensures Valid() && Keys(documents) == Keys(old(documents))
      ensures documentId !in Keys(old(documents)) ==>
        r == Err(Reissued("Encryption", NotFound)) && documents == old(documents) && disk.files == old(disk.files)
      ensures documentId in Keys(old(documents)) ==>
        var doc := Get(old(documents), documentId).value;
        && (!HasDetections(doc.detectedPii) ==>
              r == Err(Reissued("Encryption", NotAnalyzed)) && documents == old(documents) && disk.files == old(disk.files))
        && (HasDetections(doc.detectedPii) && |passkey| < 8 ==>
              r == Err(Reissued("Encryption", ShortPasskey)) && documents == old(documents) && disk.files == old(disk.files))
        && (HasDetections(doc.detectedPii) && |passkey| >= 8 ==>
              var o := EncryptedPdfOutcome(p, old(disk.files), doc.originalPath, doc.detectedPii.value, passkey, nonce);
              && (o.Err? ==>
                    r == Err(HttpError(500, "Encryption failed: " + Str(o.error)))
                    && documents == old(documents) && disk.files == old(disk.files))
              && (o.Ok? ==>
                    && r == Ok((EncryptedPdfPath(doc.originalPath), EncryptedPrefix + doc.filename))
                    && documents == Insert(old(documents), documentId,
                         doc.(encryptedPath := Some(EncryptedPdfPath(doc.originalPath)), status := Encrypted))
                    && disk.files == AfterEncryption(old(disk.files), doc.originalPath, o.value.0, o.value.1)))
    {
      var found := Get(documents, documentId);
      if found.None? {
        return Err(Reissued("Encryption", NotFound));
      }
      var doc := found.value;
      assert doc.id == documentId by {
        var i := IndexOf(documents, documentId);
        GetAt(documents, i);
      }
      if !HasDetections(doc.detectedPii) {
        return Err(Reissued("Encryption", NotAnalyzed));
      }
      if |passkey| < 8 {
        return Err(Reissued("Encryption", ShortPasskey));
      }
      var encrypted := GenerateEncryptedPdf(p, disk, doc.originalPath, doc.detectedPii.value, passkey, nonce);
      if encrypted.Err? {
        return Err(HttpError(500, "Encryption failed: " + Str(encrypted.error)));
      }
      var updated := doc.(encryptedPath := Some(encrypted.value), status := Encrypted);
      ReplaceKeepsValid(documents, documentId, updated);
      documents := Insert(documents, documentId, updated);
      return Ok((encrypted.value, EncryptedPrefix + doc.filename));
    }

    /** `decrypt_document(document_id, passkey)`: an unknown id or a record
        without encrypted path is reissued as a 500; a ValueError mentioning
        an invalid passkey is a 401, any other ValueError a 400 with its
        message, anything else a 500. On success the decrypted PDF is
        written and only the status changes, to "decrypted"; on failure
        nothing changes. */
    method Decrypt(documentId: string, passkey: string, p: Primitives)
        returns (r: Result<(string, string), HttpError>)
      requires Valid()
      modifies this, disk
      ensures Valid() && Keys(documents) == Keys(old(documents))
      ensures documentId !in Keys(old(documents)) ==>
        r == Err(Reissued("Decryption", NotFound)) && documents == old(documents) && disk.files == old(disk.files)
      ensures documentId in Keys(old(documents)) ==>
        var doc := Get(old(documents), documentId).value;
        && (!HasEncryptedPath(doc.encryptedPath) ==>
              r == Err(Reissued("Decryption", NoEncryptedDocument)) && documents == old(documents) && disk.files == old(disk.files))
        && (HasEncryptedPath(doc.encryptedPath) ==>
              var o := DecryptedPdfOutcome(p, old(disk.files), doc.encryptedPath.value, passkey);
              && (o.Err? ==>
                    r == Err(DecryptHttpError(o.error)) && documents == old(documents) && disk.files == old(disk.files))
              && (o.Ok? ==>
                    && r == Ok((DecryptedPdfPath(doc.encryptedPath.value), DecryptedPrefix + doc.filename))
                    && documents == Insert(old(documents), documentId, doc.(status := Decrypted))
                    && disk.files == old(disk.files)[DecryptedPdfPath(doc.encryptedPath.value) := Pdf(o.value)]))
    {
      var found := Get(documents, documentId);
      if found.None? {
        return Err(Reissued("Decryption", NotFound));
      }
      var doc := found.value;
      assert doc.id == documentId by {
        var i := IndexOf(documents, documentId);
        GetAt(documents, i);
      }
      if !HasEncryptedPath(doc.encryptedPath) {
        return Err(Reissued("Decryption", NoEncryptedDocument));
      }
      var decrypted := GenerateDecryptedPdf(p, disk, doc.encryptedPath.value, OptionOr(doc.detectedPii), passkey);
      if decrypted.Err? {
        return Err(DecryptHttpError(decrypted.error));
      }
      var updated := doc.(status := Decrypted);
      ReplaceKeepsValid(documents, documentId, updated);
      documents := Insert(documents, documentId, updated);
      return Ok((decrypted.value, DecryptedPrefix + doc.filename));
    }

    /** `get_documents()`: every stored record, in insertion order. */
    method GetDocuments() returns (docs: seq<DocRecord>)
      ensures docs == Values(documents)
    {
      docs := Values(documents);
    }
  }

  /** generate_decrypted_pdf ignores the fields it is passed; an absent
      list is passed as empty. */
  function OptionOr(pii: Option<seq<PiiField>>): seq<PiiField> {
    if pii.Some? then pii.value else []
  }

  /** Two updates of the same present key: the second one wins. */
  lemma InsertTwice(d: Dict<string, DocRecord>, id: string, a: DocRecord, b: DocRecord)
    requires id in Keys(d)
    ensures Insert(Insert(d, id, a), id, b) == Insert(d, id, b)
  {
    var i := IndexOf(d, id);
    var e := Insert(d, id, a);
    assert e == d[i := (id, a)];
    assert e[i].0 == id;
  }

  // ---------------------------------------------------------------------------
  // Properties of the whole flow
  // ---------------------------------------------------------------------------

  /** The client sees a wrong passkey as a 401 "Invalid passkey": the error
      generate_decrypted_pdf raises for it maps to exactly that response. */
  lemma WrongPasskeyIs401(p: Primitives, files: map<string, File>, originalPath: string,
                          fields: seq<PiiField>, passkey: string, other: string, nonce: nat -> Bytes)
    requires RoundTrips(p) && Authenticating(p) && KeysSeparate(p)
    requires |fields| > 0 && other != passkey
    requires originalPath in files && files[originalPath].Pdf?
    ensures var o := EncryptedPdfOutcome(p, files, originalPath, fields, passkey, nonce);
      && o.Ok?
      && var d := DecryptedPdfOutcome(p, AfterEncryption(files, originalPath, o.value.0, o.value.1),
                                      EncryptedPdfPath(originalPath), other);
         d.Err? && DecryptHttpError(d.error) == HttpError(401, "Invalid passkey")
  {
    DecryptWithOtherPasskey(p, files, originalPath, fields, passkey, other, nonce);
    InvalidPasskeyKept();
  }

  /** Every response decrypt_document gives for a failure of
      generate_decrypted_pdf is a 401, a 400 or a 500. */
  lemma DecryptStatuses(e: Error)
    requires DecryptFailureShape(e)
    ensures DecryptHttpError(e).statusCode in {400, 401, 500}
    ensures DecryptHttpError(e).statusCode == 401 <==> e == ValueError(InvalidPasskeyProvided)
  {
    InvalidPasskeyKept();
  }

  /** The types detection assigns are safe inside a placeholder, so an
      analyzed document whose pages have no '[' is restored exactly by
      encrypting and then decrypting with the same passkey. */
  lemma AnalyzedDocumentRoundTrip(p: Primitives, files: map<string, File>, originalPath: string,
                                  text: string, nlp: Nlp, passkey: string, nonce: nat -> Bytes)
    requires RoundTrips(p)
    requires originalPath in files && files[originalPath].Pdf?
    requires forall i :: 0 <= i < |files[originalPath].pages| ==> Lacks(files[originalPath].pages[i], '[')
    ensures var fields := Deduplicate(Confident(Candidates(text, nlp)));
      var o := EncryptedPdfOutcome(p, files, originalPath, fields, passkey, nonce);
      && o.Ok?
      && DecryptedPdfOutcome(p, AfterEncryption(files, originalPath, o.value.0, o.value.1),
                             EncryptedPdfPath(originalPath), passkey)
         == Ok(files[originalPath].pages)
  {
    var fields := Deduplicate(Confident(Candidates(text, nlp)));
    DetectPiiResult(text, nlp);
    forall i | 0 <= i < |fields| ensures Lacks(fields[i].piiType, '[') && Lacks(fields[i].piiType, ']') {
      assert fields[i] in fields;
      DisplayTypesMarkerSafe(fields[i].piiType);
    }
    EncryptThenDecrypt(p, files, originalPath, fields, passkey, nonce);
  }
}
