/** backend/utils/pdf_utils.py: the page loops that replace every detected
    value by its "[id:type]" placeholder and later put the values back, the
    JSON sidecar that carries the encryption metadata between the two, and
    the exceptions each step re-raises. A PDF is the sequence of its pages'
    text (see the Substitution module); the file system is a `Disk`, a map
    from path to stored file. */
module PdfUtils {
  import opened Wrappers
  import opened Strings
  import opened Dicts
  import opened Records
  import opened Paths
  import opened Substitution
  import opened Encrypt

  // ---------------------------------------------------------------------------
  // Files
  // ---------------------------------------------------------------------------

  /** What a path holds: a PDF, a JSON sidecar written by `json.dump` of the
      encryption metadata, or any other content. */
  datatype File = Pdf(pages: seq<string>) | Json(meta: EncryptionMetadata) | Other

  /** The file system the three functions read and write. */
  class Disk {
    var files: map<string, File>

    constructor(initial: map<string, File>)
      ensures files == initial
    {
      files := initial;
    }

    /** Writing a path replaces what it held. */
    method Save(path: string, f: File)
      modifies this
      ensures files == old(files)[path := f]
    {
      files := files[path := f];
    }
  }

  /** `fitz.open(path)` / `PdfReader(open(path, 'rb'))`: the stored PDF's
      pages, a file-not-found error, or a failure to parse anything else. */
  function OpenPdf(files: map<string, File>, path: string): (r: Result<seq<string>, Error>)
    ensures r.Ok? <==> path in files && files[path].Pdf?
    ensures r.Ok? ==> r.value == files[path].pages
    ensures path !in files ==> r.Err? && r.error.FileNotFoundError?
  {
    if path !in files then Err(FileNotFoundError("no such file: '" + path + "'"))
    else if files[path].Pdf? then Ok(files[path].pages)
    else Err(Exception("Failed to open file '" + path + "'."))
  }

  /** `json.load(f)`: the sidecar's metadata; any other content is not JSON
      the code can read, a `ValueError` (json.JSONDecodeError). */
  function LoadMetadata(f: File): (r: Result<EncryptionMetadata, Error>)
    ensures r.Ok? <==> f.Json?
    ensures r.Ok? ==> r.value == f.meta
    ensures r.Err? ==> r.error.ValueError?
  {
    if f.Json? then Ok(f.meta) else Err(ValueError("Expecting value: line 1 column 1 (char 0)"))
  }

  // ---------------------------------------------------------------------------
  // A page and its redaction annotations
  // ---------------------------------------------------------------------------

  /** A loaded page: its text and the redaction annotations added to it since
      the last `apply_redactions`. */
  class Page {
    var text: string
    var annots: seq<Annot>

    /** `pdf_document.load_page(page_num)` of a page with this text. */
    constructor(content: string)
      ensures text == content && annots == []
    {
      text := content;
      annots := [];
    }

    /** `page.search_for(needle)`: where the needle occurs, leftmost first,
      without overlap. */
    method SearchFor(needle: string) returns (hits: seq<nat>)
      ensures hits == FindAll(text, needle)
    {
      hits := FindAll(text, needle);
    }

    /** `page.add_redact_annot(inst)`, `set_text(replacement)`, `update()`:
        one more annotation over text[start..end]; the text is untouched. */
    method AddRedactAnnot(start: nat, end: nat, replacement: string)
      modifies this
      ensures text == old(text) && annots == old(annots) + [Annot(start, end, replacement)]
    {
      annots := annots + [Annot(start, end, replacement)];
    }

    /** `page.apply_redactions()`: every annotation is carried out and removed. */
    method ApplyRedactions()
      modifies this
      ensures text == Apply(old(text), old(annots)) && annots == []
    {
      text := Apply(text, annots);
      annots := [];
    }
  }

  // ---------------------------------------------------------------------------
  // The (needle, replacement) pairs of each direction
  // ---------------------------------------------------------------------------

  predicate HasPlaceholders(fields: seq<PiiField>) {
    forall i :: 0 <= i < |fields| ==> fields[i].placeholderId.Some?
  }

  /** Redaction: each encrypted field's original value is replaced by
      `generate_placeholder_text(field["placeholder_id"], field["type"])`. */
  function EncryptPairs(fields: seq<PiiField>): seq<(string, string)>
    requires HasPlaceholders(fields)
  {
    seq(|fields|, i requires 0 <= i < |fields| =>
      (fields[i].originalValue, PlaceholderText(fields[i].placeholderId.value, fields[i].piiType)))
  }

  /** Every decrypted id is a key of `field_mapping`. */
  predicate MappedKeys(mapping: seq<(string, string)>, fieldMapping: Dict<string, MappingEntry>) {
    forall k :: 0 <= k < |mapping| ==> mapping[k].0 in Keys(fieldMapping)
  }

  /** Restoring: the placeholder of each decrypted id, typed as
      `field_mapping[id]["type"]`, is replaced by the decrypted value. */
  function RestorePairs(mapping: seq<(string, string)>, fieldMapping: Dict<string, MappingEntry>): seq<(string, string)>
    requires MappedKeys(mapping, fieldMapping)
  {
    seq(|mapping|, k requires 0 <= k < |mapping| =>
      (PlaceholderText(mapping[k].0, Get(fieldMapping, mapping[k].0).value.piiType), mapping[k].1))
  }

  /** Every page rewritten with the same pairs. */
  function RewrittenPages(pages: seq<string>, pairs: seq<(string, string)>): seq<string> {
    seq(|pages|, i requires 0 <= i < |pages| => Substitute(pages[i], pairs))
  }

  // ---------------------------------------------------------------------------
  // The per-page loops
  // ---------------------------------------------------------------------------

  /** The field and instance loops of generate_encrypted_pdf on one page,
      then `apply_redactions`: the page becomes its text with every found
      original value replaced by its placeholder. */
  method RedactFields(page: Page, fields: seq<PiiField>)
    requires HasPlaceholders(fields) && page.annots == []
    modifies page
    ensures page.text == Substitute(old(page.text), EncryptPairs(fields)) && page.annots == []
  {
    ghost var t := page.text;
    ghost var pairs := EncryptPairs(fields);
    for j := 0 to |fields|
      invariant page.text == t && page.annots == PairAnnots(t, pairs[..j])
    {
      var field := fields[j];
      var originalValue := field.originalValue;
      var placeholderText := PlaceholderText(field.placeholderId.value, field.piiType);
      assert pairs[j] == (originalValue, placeholderText);
      var textInstances := page.SearchFor(originalValue);
      AnnotateInstances(page, textInstances, |originalValue|, placeholderText);
      PairAnnotsStep(t, pairs, j);
    }
    assert pairs[..|pairs|] == pairs;
    page.ApplyRedactions();
  }

  /** With one field of non-empty value, the redacted page is the page's
      `text.replace(value, placeholder)`: every occurrence is replaced. */
  lemma RedactOneField(t: string, field: PiiField)
    requires field.placeholderId.Some? && |field.originalValue| > 0
    ensures Substitute(t, EncryptPairs([field]))
            == Replace(t, field.originalValue, PlaceholderText(field.placeholderId.value, field.piiType))
  {
    var m := PlaceholderText(field.placeholderId.value, field.piiType);
    assert EncryptPairs([field]) == [(field.originalValue, m)];
    SubstituteOneIsReplace(t, field.originalValue, m);
  }

  /** The mapping and instance loops of generate_decrypted_pdf on one page,
      then `apply_redactions`. */
  method RestorePlaceholders(page: Page, mapping: seq<(string, string)>, fieldMapping: Dict<string, MappingEntry>)
    requires MappedKeys(mapping, fieldMapping) && page.annots == []
    modifies page
    ensures page.text == Substitute(old(page.text), RestorePairs(mapping, fieldMapping)) && page.annots == []
  {
    ghost var t := page.text;
    ghost var pairs := RestorePairs(mapping, fieldMapping);
    for j := 0 to |mapping|
      invariant page.text == t && page.annots == PairAnnots(t, pairs[..j])
    {
      var (placeholderId, originalValue) := mapping[j];
      var fieldData := Get(fieldMapping, placeholderId).value;
      var placeholderText := PlaceholderText(placeholderId, fieldData.piiType);
      assert pairs[j] == (placeholderText, originalValue);
      var textInstances := page.SearchFor(placeholderText);
      AnnotateInstances(page, textInstances, |placeholderText|, originalValue);
      PairAnnotsStep(t, pairs, j);
    }
    assert pairs[..|pairs|] == pairs;
    page.ApplyRedactions();
  }

  /** The page loop of generate_encrypted_pdf: every page loaded, redacted
      and kept in order. */
  method RedactPages(pdfDocument: seq<string>, fields: seq<PiiField>) returns (rewritten: seq<string>)
    requires HasPlaceholders(fields)
    ensures rewritten == RewrittenPages(pdfDocument, EncryptPairs(fields))
  {
    ghost var pairs := EncryptPairs(fields);
    rewritten := [];
    for pageNum := 0 to |pdfDocument|
      invariant |rewritten| == pageNum
      invariant forall i :: 0 <= i < pageNum ==> rewritten[i] == Substitute(pdfDocument[i], pairs)
    {
      var page := new Page(pdfDocument[pageNum]);
      RedactFields(page, fields);
      rewritten := rewritten + [page.text];
    }
  }

  /** The page loop of generate_decrypted_pdf. */
  method RestorePages(pdfDocument: seq<string>, mapping: seq<(string, string)>, fieldMapping: Dict<string, MappingEntry>)
      returns (rewritten: seq<string>)
    requires MappedKeys(mapping, fieldMapping)
    ensures rewritten == RewrittenPages(pdfDocument, RestorePairs(mapping, fieldMapping))
  {
    ghost var pairs := RestorePairs(mapping, fieldMapping);
    rewritten := [];
    for pageNum := 0 to |pdfDocument|
      invariant |rewritten| == pageNum
      invariant forall i :: 0 <= i < pageNum ==> rewritten[i] == Substitute(pdfDocument[i], pairs)
    {
      var page := new Page(pdfDocument[pageNum]);
      RestorePlaceholders(page, mapping, fieldMapping);
      rewritten := rewritten + [page.text];
    }
  }

  /** `for inst in text_instances:` one redaction annotation per found
      occurrence, each covering the needle's length and carrying the
      replacement. */
  method AnnotateInstances(page: Page, textInstances: seq<nat>, len: nat, replacement: string)
    modifies page
    ensures page.text == old(page.text)
    ensures page.annots == old(page.annots) + HitAnnots(textInstances, len, replacement)
  {
    for k := 0 to |textInstances|
      invariant page.text == old(page.text)
      invariant page.annots == old(page.annots) + HitAnnots(textInstances[..k], len, replacement)
    {
      var inst := textInstances[k];
      HitAnnotsStep(textInstances, k, len, replacement);
      page.AddRedactAnnot(inst, inst + len, replacement);
    }
    assert textInstances[..|textInstances|] == textInstances;
  }

  lemma HitAnnotsStep(hits: seq<nat>, k: nat, len: nat, replacement: string)
    requires k < |hits|
    ensures HitAnnots(hits[..k + 1], len, replacement)
      == HitAnnots(hits[..k], len, replacement) + [Annot(hits[k], hits[k] + len, replacement)]
  {
    assert hits[..k + 1][..k] == hits[..k];
  }

  lemma PairAnnotsStep(t: string, pairs: seq<(string, string)>, j: nat)
    requires j < |pairs|
    ensures PairAnnots(t, pairs[..j + 1])
      == PairAnnots(t, pairs[..j]) + HitAnnots(FindAll(t, pairs[j].0), |pairs[j].0|, pairs[j].1)
  {
    assert pairs[..j + 1][..j] == pairs[..j];
  }

  // ---------------------------------------------------------------------------
  // Re-raised errors
  // ---------------------------------------------------------------------------

  const EncryptFailurePrefix: string := "Failed to generate encrypted PDF: "
  const DecryptFailurePrefix: string := "Failed to generate decrypted PDF: "
  const RedactFailurePrefix: string := "Failed to create redacted PDF: "
  const MetadataNotFound: Error := FileNotFoundError("Encryption metadata not found")
  const InvalidPasskeyProvided: string := "Invalid passkey provided"

  /** generate_encrypted_pdf's `except Exception`: every error is prefixed. */
  function EncryptFailure(e: Error): (r: Error)
    ensures r.Exception? && r.msg == EncryptFailurePrefix + Str(e)
  {
    Exception(EncryptFailurePrefix + Str(e))
  }

  /** generate_decrypted_pdf's two handlers: a ValueError mentioning an
      invalid passkey is replaced by a fixed one, any other ValueError passes
      through, and every other error is prefixed. */
  function DecryptFailure(e: Error): (r: Error)
    ensures e.ValueError? && Contains(e.msg, InvalidPasskeyMessage) ==> r == ValueError(InvalidPasskeyProvided)
    ensures e.ValueError? && !Contains(e.msg, InvalidPasskeyMessage) ==> r == e
    ensures !e.ValueError? ==> r == Exception(DecryptFailurePrefix + Str(e))
  {
    if e.ValueError? then
      if Contains(e.msg, InvalidPasskeyMessage) then ValueError(InvalidPasskeyProvided) else e
    else Exception(DecryptFailurePrefix + Str(e))
  }

  /** What the caller of generate_decrypted_pdf can be handed. */
  predicate DecryptFailureShape(e: Error) {
    || e == ValueError(InvalidPasskeyProvided)
    || (e.ValueError? && !Contains(e.msg, InvalidPasskeyMessage))
    || (e.Exception? && StartsWith(e.msg, DecryptFailurePrefix))
  }

  lemma DecryptFailureShaped(e: Error)
    ensures DecryptFailureShape(DecryptFailure(e))
  {
    if !e.ValueError? {
      assert (DecryptFailurePrefix + Str(e))[..|DecryptFailurePrefix|] == DecryptFailurePrefix;
    }
  }

  // ---------------------------------------------------------------------------
  // generate_encrypted_pdf
  // ---------------------------------------------------------------------------

  /** What generate_encrypted_pdf computes from the files it finds: the
      rewritten pages and the metadata, or the error it raises. */
  function EncryptedPdfOutcome(p: Primitives, files: map<string, File>, originalPath: string,
                               fields: seq<PiiField>, passkey: string, nonce: nat -> Bytes)
    : Result<(seq<string>, EncryptionMetadata), Error>
  {
    var meta := MetadataFor(p, fields, passkey, nonce);
    var pdf := OpenPdf(files, originalPath);
    if pdf.Err? then Err(EncryptFailure(pdf.error))
    else Ok((RewrittenPages(pdf.value, EncryptPairs(meta.encryptedFields)), meta))
  }

  /** `generate_encrypted_pdf(original_path, pii_fields, passkey)`: on
      success the rewritten PDF is saved as "encrypted_<stem>.pdf" beside the
      original, then the metadata beside it with suffix ".json", and the
      PDF's path is returned; on failure nothing is written. */
  method GenerateEncryptedPdf(p: Primitives, disk: Disk, originalPath: string, piiFields: seq<PiiField>,
                              passkey: string, nonce: nat -> Bytes)
      returns (r: Result<string, Error>)
    modifies disk
    ensures var o := EncryptedPdfOutcome(p, old(disk.files), originalPath, piiFields, passkey, nonce);
      && (o.Err? ==> r == Err(o.error) && disk.files == old(disk.files))
      && (o.Ok? ==>
            && r == Ok(EncryptedPdfPath(originalPath))
            && disk.files == old(disk.files)[EncryptedPdfPath(originalPath) := Pdf(o.value.0)]
                                            [EncryptedSidecarPath(originalPath) := Json(o.value.1)])
  {
    var encryptionMetadata := EncryptPiiFields(p, piiFields, passkey, nonce);
    var pdf := OpenPdf(disk.files, originalPath);
    if pdf.Err? {
      return Err(EncryptFailure(pdf.error));
    }
    var pdfDocument := pdf.value;
    var rewritten := RedactPages(pdfDocument, encryptionMetadata.encryptedFields);
    var encryptedPath := EncryptedPdfPath(originalPath);
    disk.Save(encryptedPath, Pdf(rewritten));
    SidecarOfEncrypted(originalPath);
    var metadataPath := SidecarPath(encryptedPath).value;
    disk.Save(metadataPath, Json(encryptionMetadata));
    return Ok(encryptedPath);
  }

  // ---------------------------------------------------------------------------
  // generate_decrypted_pdf
  // ---------------------------------------------------------------------------

  /** What generate_decrypted_pdf computes from the files it finds: the
      restored pages, or the error it raises. The steps run in the code's
      order: sidecar path, sidecar present, sidecar read, fields decrypted,
      PDF opened. */
  function DecryptedPdfOutcome(p: Primitives, files: map<string, File>, encryptedPath: string, passkey: string)
    : Result<seq<string>, Error>
  {
    var metadataPath := SidecarPath(encryptedPath);
    if metadataPath.Err? then Err(DecryptFailure(metadataPath.error))
    else if metadataPath.value !in files then Err(DecryptFailure(MetadataNotFound))
    else
      var loaded := LoadMetadata(files[metadataPath.value]);
      if loaded.Err? then Err(DecryptFailure(loaded.error))
      else
        var meta := loaded.value;
        var decrypted := DecryptOutcome(p, meta, passkey);
        if decrypted.Err? then Err(DecryptFailure(decrypted.error))
        else
          var pdf := OpenPdf(files, encryptedPath);
          if pdf.Err? then Err(DecryptFailure(pdf.error))
          else
            DecryptedIsDict(p, meta, passkey);
            Ok(RewrittenPages(pdf.value, RestorePairs(decrypted.value, meta.fieldMapping)))
  }

  /** `generate_decrypted_pdf(encrypted_path, pii_fields, passkey)`: on
      success the restored PDF is saved beside the encrypted one as
      "decrypted_" + stem without "encrypted_" + ".pdf" and its path is
      returned; on failure nothing is written. `pii_fields` is unused. */
  method GenerateDecryptedPdf(p: Primitives, disk: Disk, encryptedPath: string, piiFields: seq<PiiField>, passkey: string)
      returns (r: Result<string, Error>)
    modifies disk
    ensures var o := DecryptedPdfOutcome(p, old(disk.files), encryptedPath, passkey);
      && (o.Err? ==> r == Err(o.error) && disk.files == old(disk.files))
      && (o.Ok? ==>
            && r == Ok(DecryptedPdfPath(encryptedPath))
            && disk.files == old(disk.files)[DecryptedPdfPath(encryptedPath) := Pdf(o.value)])
  {
    var metadataPath := SidecarPath(encryptedPath);
    if metadataPath.Err? {
      return Err(DecryptFailure(metadataPath.error));
    }
    if metadataPath.value !in disk.files {
      return Err(DecryptFailure(MetadataNotFound));
    }
    var loaded := LoadMetadata(disk.files[metadataPath.value]);
    if loaded.Err? {
      return Err(DecryptFailure(loaded.error));
    }
    var encryptionMetadata := loaded.value;
    var decrypted := DecryptPiiFields(p, encryptionMetadata, passkey);
    if decrypted.Err? {
      return Err(DecryptFailure(decrypted.error));
    }
    var decryptedMapping := decrypted.value;
    var pdf := OpenPdf(disk.files, encryptedPath);
    if pdf.Err? {
      return Err(DecryptFailure(pdf.error));
    }
    var pdfDocument := pdf.value;
    DecryptedIsDict(p, encryptionMetadata, passkey);
    var rewritten := RestorePages(pdfDocument, decryptedMapping, encryptionMetadata.fieldMapping);
    var decryptedPath := DecryptedPdfPath(encryptedPath);
    disk.Save(decryptedPath, Pdf(rewritten));
    return Ok(decryptedPath);
  }

  // ---------------------------------------------------------------------------
  // create_redacted_pdf_simple
  // ---------------------------------------------------------------------------

  /** `content.replace(original, replacement)` for each item in turn. */
  function ReplaceEach(content: string, replacements: seq<(string, string)>): string {
    if replacements == [] then content
    else
      var last := replacements[|replacements| - 1];
      Replace(ReplaceEach(content, replacements[..|replacements| - 1]), last.0, last.1)
  }

  /** `create_redacted_pdf_simple(original_path, replacements)`: the replaced
      text of every page is computed and dropped, and the pages are written,
      unchanged and in order, to "redacted_" + name beside the original. */
  method CreateRedactedPdfSimple(disk: Disk, originalPath: string, replacements: Dict<string, string>)
      returns (r: Result<string, Error>)
    modifies disk
    ensures var pdf := OpenPdf(old(disk.files), originalPath);
      && (pdf.Err? ==> r == Err(Exception(RedactFailurePrefix + Str(pdf.error))) && disk.files == old(disk.files))
      && (pdf.Ok? ==>
            && r == Ok(RedactedPdfPath(originalPath))
            && disk.files == old(disk.files)[RedactedPdfPath(originalPath) := Pdf(pdf.value)])
  {
    var pdf := OpenPdf(disk.files, originalPath);
    if pdf.Err? {
      return Err(Exception(RedactFailurePrefix + Str(pdf.error)));
    }
    var reader := pdf.value;
    var writer: seq<string> := [];
    for pageNum := 0 to |reader|
      invariant writer == reader[..pageNum]
    {
      var page := reader[pageNum];
      var content := page;
      for j := 0 to |replacements|
        invariant content == ReplaceEach(page, replacements[..j])
      {
        var (original, replacement) := replacements[j];
        assert replacements[..j + 1][..j] == replacements[..j];
        content := Replace(content, original, replacement);
      }
      writer := writer + [page];
    }
    assert reader[..|reader|] == reader;
    var redactedPath := RedactedPdfPath(originalPath);
    disk.Save(redactedPath, Pdf(writer));
    return Ok(redactedPath);
  }

  /** The redacted copy never replaces its original. */
  lemma RedactedKeepsOriginal(files: map<string, File>, originalPath: string, pages: seq<string>)
    requires originalPath in files
    ensures originalPath in files[RedactedPdfPath(originalPath) := Pdf(pages)]
    ensures files[RedactedPdfPath(originalPath) := Pdf(pages)][originalPath] == files[originalPath]
  {
    RedactedNotOriginal(originalPath);
  }

  // ---------------------------------------------------------------------------
  // The two directions together
  // ---------------------------------------------------------------------------

  /** The files after a successful generate_encrypted_pdf. */
  function AfterEncryption(files: map<string, File>, originalPath: string, pages: seq<string>, meta: EncryptionMetadata)
    : map<string, File>
  {
    files[EncryptedPdfPath(originalPath) := Pdf(pages)][EncryptedSidecarPath(originalPath) := Json(meta)]
  }

  /** Restoring reads exactly the sidecar redaction wrote: from the files
      redaction leaves, the metadata found at the encrypted PDF's
      `with_suffix('.json')` is the metadata written, and the PDF opened is
      the rewritten one. */
  lemma SidecarFound(files: map<string, File>, originalPath: string, pages: seq<string>, meta: EncryptionMetadata)
    ensures var after := AfterEncryption(files, originalPath, pages, meta);
      && SidecarPath(EncryptedPdfPath(originalPath)) == Ok(EncryptedSidecarPath(originalPath))
      && EncryptedSidecarPath(originalPath) in after
      && LoadMetadata(after[EncryptedSidecarPath(originalPath)]) == Ok(meta)
      && OpenPdf(after, EncryptedPdfPath(originalPath)) == Ok(pages)
  {
    SidecarOfEncrypted(originalPath);
    StoredBoth(files, EncryptedPdfPath(originalPath), EncryptedSidecarPath(originalPath), pages, meta);
  }

  /** A PDF and a sidecar stored at two different paths are both read back. */
  lemma StoredBoth(files: map<string, File>, pdfPath: string, sidecar: string, pages: seq<string>, meta: EncryptionMetadata)
    requires pdfPath != sidecar
    ensures var after := files[pdfPath := Pdf(pages)][sidecar := Json(meta)];
      && sidecar in after && LoadMetadata(after[sidecar]) == Ok(meta)
      && OpenPdf(after, pdfPath) == Ok(pages)
  {
  }

  /** The pairs of redaction in terms of the input fields: field i's value
      and the placeholder of id i and the field's type. */
  function ForwardPairs(fields: seq<PiiField>): seq<(string, string)> {
    seq(|fields|, i requires 0 <= i < |fields| =>
      (fields[i].originalValue, PlaceholderText(PlaceholderId(i), fields[i].piiType)))
  }

  lemma EncryptPairsOfMetadata(p: Primitives, fields: seq<PiiField>, passkey: string, nonce: nat -> Bytes)
    ensures HasPlaceholders(MetadataFor(p, fields, passkey, nonce).encryptedFields)
    ensures EncryptPairs(MetadataFor(p, fields, passkey, nonce).encryptedFields) == ForwardPairs(fields)
  {
    var meta := MetadataFor(p, fields, passkey, nonce);
    var e := EncryptPairs(meta.encryptedFields);
    forall i | 0 <= i < |fields| ensures e[i] == ForwardPairs(fields)[i] {
      var f := meta.encryptedFields[i];
      assert f.(placeholderId := fields[i].placeholderId, encryptedValue := fields[i].encryptedValue,
                encrypted := fields[i].encrypted) == fields[i];
    }
  }

  /** The pairs restoring uses are the pairs redaction used, read backwards. */
  lemma RestorePairsReverse(p: Primitives, fields: seq<PiiField>, passkey: string, nonce: nat -> Bytes)
    requires RoundTrips(p)
    ensures var meta := MetadataFor(p, fields, passkey, nonce);
      var d := DecryptOutcome(p, meta, passkey);
      && d.Ok? && MappedKeys(d.value, meta.fieldMapping)
      && RestorePairs(d.value, meta.fieldMapping) == Swap(ForwardPairs(fields))
  {
    DecryptRoundTrip(p, fields, passkey, nonce);
    RestoreOfOriginals(p, fields, passkey, nonce);
  }

  /** The restoring pairs of the decrypted originals are the redaction pairs
      swapped. */
  lemma RestoreOfOriginals(p: Primitives, fields: seq<PiiField>, passkey: string, nonce: nat -> Bytes)
    ensures var m := MetadataFor(p, fields, passkey, nonce).fieldMapping;
      var d := seq(|fields|, i requires 0 <= i < |fields| => (PlaceholderId(i), fields[i].originalValue));
      && MappedKeys(d, m)
      && RestorePairs(d, m) == Swap(ForwardPairs(fields))
  {
    var m := MetadataFor(p, fields, passkey, nonce).fieldMapping;
    var d := seq(|fields|, i requires 0 <= i < |fields| => (PlaceholderId(i), fields[i].originalValue));
    assert MappedKeys(d, m) by {
      forall k | 0 <= k < |d| ensures d[k].0 in Keys(m) {
        assert m[k].0 == d[k].0;
      }
    }
    RestoreAll(m, fields, d);
  }

  lemma RestoreAll(m: Dict<string, MappingEntry>, fields: seq<PiiField>, d: seq<(string, string)>)
    requires |fields| == |m| == |d| && MappedKeys(d, m)
    requires forall k :: 0 <= k < |fields| ==> m[k].0 == PlaceholderId(k) && m[k].1.piiType == fields[k].piiType
    requires forall k :: 0 <= k < |fields| ==> d[k] == (PlaceholderId(k), fields[k].originalValue)
    ensures RestorePairs(d, m) == Swap(ForwardPairs(fields))
  {
    var back := RestorePairs(d, m);
    forall k | 0 <= k < |fields| ensures back[k] == Swap(ForwardPairs(fields))[k] {
      RestorePairAt(m, fields, d, k);
    }
    assert back == Swap(ForwardPairs(fields));
  }

  lemma RestorePairAt(m: Dict<string, MappingEntry>, fields: seq<PiiField>, d: seq<(string, string)>, k: nat)
    requires k < |fields| == |m| == |d| && MappedKeys(d, m)
    requires m[k].0 == PlaceholderId(k) && m[k].1.piiType == fields[k].piiType
    requires d[k] == (PlaceholderId(k), fields[k].originalValue)
    ensures RestorePairs(d, m)[k] == (PlaceholderText(PlaceholderId(k), fields[k].piiType), fields[k].originalValue)
  {
    GetAt(m, k);
  }

  /** Redaction with the placeholders of bracket-free types can be undone on
      any page without '['. */
  lemma ForwardPairsReversible(fields: seq<PiiField>, t: string)
    requires Lacks(t, '[')
    requires forall i :: 0 <= i < |fields| ==> Lacks(fields[i].piiType, '[') && Lacks(fields[i].piiType, ']')
    ensures Reversible(t, ForwardPairs(fields))
  {
    var pairs := ForwardPairs(fields);
    forall l | 0 <= l < |pairs| ensures WellFormedMarker(pairs[l].1) {
      PlaceholderTextIsMarker(PlaceholderId(l), fields[l].piiType);
    }
    forall l, l' | 0 <= l < l' < |pairs| ensures pairs[l].1 != pairs[l'].1 {
      PlaceholderIdInjective(l, l');
      if pairs[l].1 == pairs[l'].1 {
        PlaceholderTextInjective(PlaceholderId(l), fields[l].piiType, PlaceholderId(l'), fields[l'].piiType);
      }
    }
  }

  /** Encrypting a PDF and then decrypting the result with the same passkey
      gives back the original pages, provided no page has a '[' and no field
      type has a bracket. */
  lemma EncryptThenDecrypt(p: Primitives, files: map<string, File>, originalPath: string,
                           fields: seq<PiiField>, passkey: string, nonce: nat -> Bytes)
    requires RoundTrips(p)
    requires originalPath in files && files[originalPath].Pdf?
    requires forall i :: 0 <= i < |files[originalPath].pages| ==> Lacks(files[originalPath].pages[i], '[')
    requires forall i :: 0 <= i < |fields| ==> Lacks(fields[i].piiType, '[') && Lacks(fields[i].piiType, ']')
    ensures var o := EncryptedPdfOutcome(p, files, originalPath, fields, passkey, nonce);
      && o.Ok?
      && DecryptedPdfOutcome(p, AfterEncryption(files, originalPath, o.value.0, o.value.1),
                             EncryptedPdfPath(originalPath), passkey)
         == Ok(files[originalPath].pages)
  {
    DecryptAfterEncrypt(p, files, originalPath, fields, passkey, nonce);
    PagesRoundTrip(files[originalPath].pages, fields);
  }

  /** Redacting every page with the pairs of bracket-free types and then
      restoring with the swapped pairs gives back every page without '['. */
  lemma PagesRoundTrip(pages: seq<string>, fields: seq<PiiField>)
    requires forall i :: 0 <= i < |pages| ==> Lacks(pages[i], '[')
    requires forall i :: 0 <= i < |fields| ==> Lacks(fields[i].piiType, '[') && Lacks(fields[i].piiType, ']')
    ensures RewrittenPages(RewrittenPages(pages, ForwardPairs(fields)), Swap(ForwardPairs(fields))) == pages
  {
    var pairs := ForwardPairs(fields);
    var encrypted := RewrittenPages(pages, pairs);
    var restored := RewrittenPages(encrypted, Swap(pairs));
    forall i | 0 <= i < |pages| ensures restored[i] == pages[i] {
      ForwardPairsReversible(fields, pages[i]);
      SubstituteRoundTrip(pages[i], pairs);
    }
    assert restored == pages;
  }

  /** Decryption after encryption restores every page with the swapped
      pairs. */
  lemma DecryptAfterEncrypt(p: Primitives, files: map<string, File>, originalPath: string,
                            fields: seq<PiiField>, passkey: string, nonce: nat -> Bytes)
    requires RoundTrips(p)
    requires originalPath in files && files[originalPath].Pdf?
    ensures var o := EncryptedPdfOutcome(p, files, originalPath, fields, passkey, nonce);
      && o == Ok((RewrittenPages(files[originalPath].pages, ForwardPairs(fields)), MetadataFor(p, fields, passkey, nonce)))
      && DecryptedPdfOutcome(p, AfterEncryption(files, originalPath, o.value.0, o.value.1),
                             EncryptedPdfPath(originalPath), passkey)
         == Ok(RewrittenPages(o.value.0, Swap(ForwardPairs(fields))))
  {
    var meta := MetadataFor(p, fields, passkey, nonce);
    EncryptPairsOfMetadata(p, fields, passkey, nonce);
    var encrypted := RewrittenPages(files[originalPath].pages, ForwardPairs(fields));
    SidecarFound(files, originalPath, encrypted, meta);
    RestorePairsReverse(p, fields, passkey, nonce);
  }

  /** Decrypting with another passkey fails, with the fixed invalid-passkey
      error and without writing anything, when there is at least one field
      and Fernet and the key derivation behave as specified. */
  lemma DecryptWithOtherPasskey(p: Primitives, files: map<string, File>, originalPath: string,
                                fields: seq<PiiField>, passkey: string, other: string, nonce: nat -> Bytes)
    requires RoundTrips(p) && Authenticating(p) && KeysSeparate(p)
    requires |fields| > 0 && other != passkey
    requires originalPath in files && files[originalPath].Pdf?
    ensures var o := EncryptedPdfOutcome(p, files, originalPath, fields, passkey, nonce);
      && o.Ok?
      && DecryptedPdfOutcome(p, AfterEncryption(files, originalPath, o.value.0, o.value.1),
                             EncryptedPdfPath(originalPath), other)
         == Err(ValueError(InvalidPasskeyProvided))
  {
    var meta := MetadataFor(p, fields, passkey, nonce);
    var encrypted := RewrittenPages(files[originalPath].pages, ForwardPairs(fields));
    EncryptedOutcomeOk(p, files, originalPath, fields, passkey, nonce);
    WrongPasskeyRejected(p, fields, passkey, other, nonce);
    DecryptFailsAfterEncryption(p, files, originalPath, encrypted, meta, other);
    InvalidPasskeyKept();
  }

  /** The fixed invalid-passkey error mentions an invalid passkey, so it
      passes through the handlers unchanged. */
  lemma InvalidPasskeyKept()
    ensures Contains(InvalidPasskeyProvided, InvalidPasskeyMessage)
    ensures DecryptFailure(ValueError(InvalidPasskeyProvided)) == ValueError(InvalidPasskeyProvided)
  {
    assert StartsWith(InvalidPasskeyProvided, InvalidPasskeyMessage);
  }

  /** Redaction of an existing PDF succeeds, with the redaction pairs of the
      input fields and the metadata built from them. */
  lemma EncryptedOutcomeOk(p: Primitives, files: map<string, File>, originalPath: string,
                           fields: seq<PiiField>, passkey: string, nonce: nat -> Bytes)
    requires originalPath in files && files[originalPath].Pdf?
    ensures EncryptedPdfOutcome(p, files, originalPath, fields, passkey, nonce)
      == Ok((RewrittenPages(files[originalPath].pages, ForwardPairs(fields)), MetadataFor(p, fields, passkey, nonce)))
  {
    EncryptPairsOfMetadata(p, fields, passkey, nonce);
  }

  /** When the fields of the sidecar redaction wrote cannot be decrypted,
      generate_decrypted_pdf reports that error through its handlers. */
  lemma DecryptFailsAfterEncryption(p: Primitives, files: map<string, File>, originalPath: string,
                                    pages: seq<string>, meta: EncryptionMetadata, passkey: string)
    requires DecryptOutcome(p, meta, passkey).Err?
    ensures DecryptedPdfOutcome(p, AfterEncryption(files, originalPath, pages, meta), EncryptedPdfPath(originalPath), passkey)
      == Err(DecryptFailure(DecryptOutcome(p, meta, passkey).error))
  {
    SidecarFound(files, originalPath, pages, meta);
  }

  /** A missing sidecar fails before anything is decrypted or opened. */
  lemma MissingMetadata(p: Primitives, files: map<string, File>, encryptedPath: string, passkey: string)
    requires SidecarPath(encryptedPath).Ok? && SidecarPath(encryptedPath).value !in files
    ensures DecryptedPdfOutcome(p, files, encryptedPath, passkey)
      == Err(Exception(DecryptFailurePrefix + "Encryption metadata not found"))
  {
  }

  /** Every failure of generate_decrypted_pdf is the fixed invalid-passkey
      error, a ValueError not mentioning the passkey, or a prefixed
      Exception. */
  lemma DecryptedPdfErrors(p: Primitives, files: map<string, File>, encryptedPath: string, passkey: string)
    requires DecryptedPdfOutcome(p, files, encryptedPath, passkey).Err?
    ensures DecryptFailureShape(DecryptedPdfOutcome(p, files, encryptedPath, passkey).error)
  {
    var metadataPath := SidecarPath(encryptedPath);
    if metadataPath.Err? {
      DecryptFailureShaped(metadataPath.error);
    } else if metadataPath.value !in files {
      DecryptFailureShaped(MetadataNotFound);
    } else {
      var loaded := LoadMetadata(files[metadataPath.value]);
      if loaded.Err? {
        DecryptFailureShaped(loaded.error);
      } else {
        var decrypted := DecryptOutcome(p, loaded.value, passkey);
        if decrypted.Err? {
          DecryptFailureShaped(decrypted.error);
        } else {
          DecryptFailureShaped(OpenPdf(files, encryptedPath).error);
        }
      }
    }
  }
}
