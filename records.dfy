/** The records that flow between detection, encryption and the PDF layer,
    and the exceptions they raise. Python builds these as dictionaries; each
    key the code reads or writes is a field here. */
module Records {
  import opened Wrappers
  import opened Dicts

  /** `location`: page number, bounding box and character offsets. */
  datatype Location = Location(page: int, bbox: seq<int>, start: int, end: int)

  /** One detected PII field. `value` is the masked preview, which the masking
      rules can leave as None. `confidence` is in hundredths. `placeholderId`
      and `encryptedValue` are absent (None) until encryption adds them. */
  datatype PiiField = PiiField(
    piiType: string,
    value: Option<string>,
    originalValue: string,
    confidence: nat,
    location: Location,
    encrypted: bool,
    detectionMethod: string,
    placeholderId: Option<string>,
    encryptedValue: Option<string>)

  /** One entry of `field_mapping`: what restoring a placeholder needs. */
  datatype MappingEntry = MappingEntry(
    originalValue: string,
    encryptedValue: string,
    piiType: string,
    location: Location)

  /** The metadata dictionary written to the JSON sidecar. */
  datatype EncryptionMetadata = EncryptionMetadata(
    encryptedFields: seq<PiiField>,
    fieldMapping: Dict<string, MappingEntry>,
    salt: string,
    encryptionMethod: string)

  /** The Python exception classes the code raises or tests for. */
  datatype Error =
    | ValueError(msg: string)
    | FileNotFoundError(msg: string)
    | Exception(msg: string)

  /** `str(e)`: every exception here carries one message argument. */
  function Str(e: Error): string {
    e.msg
  }
}
