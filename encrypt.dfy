/** Field-level encryption of detected PII (backend/utils/encrypt.py).

    The cryptographic and encoding primitives are not modelled: they are the
    fields of a `Primitives` value, and what the code relies on them for
    (decoding undoes encoding, Fernet decryption undoes encryption under the
    same key) is the predicate `RoundTrips`, which the theorems assume. The
    randomness Fernet draws for each token (its IV and timestamp) is the
    parameter `nonce`, one per field. */
module Encrypt {
  import opened Wrappers
  import opened Strings
  import opened Dicts
  import opened Records
  import Substitution

  type Byte = x: int | 0 <= x < 256
  type Bytes = seq<Byte>

  /** The library functions encrypt.py calls. */
  datatype Primitives = Primitives(
    utf8Encode: string -> Bytes,                   // str.encode()
    utf8Decode: Bytes -> Option<string>,           // bytes.decode(), None when it raises
    urlsafeB64Encode: Bytes -> Bytes,              // base64.urlsafe_b64encode
    b64Encode: Bytes -> string,                    // base64.b64encode(..).decode()
    b64Decode: string -> Result<Bytes, string>,    // base64.b64decode, Err(str(e)) when it raises
    pbkdf2Sha256: (Bytes, Bytes, nat, nat) -> Bytes, // PBKDF2HMAC(SHA256, length, salt, iterations).derive(password)
    fernetEncrypt: (Bytes, Bytes, Bytes) -> Bytes, // Fernet(key).encrypt(data), with the token's random part
    fernetDecrypt: (Bytes, Bytes) -> Option<Bytes>) // Fernet(key).decrypt(token), None on InvalidToken

  /** Decoding undoes encoding and decryption under the encryption key
      recovers the plaintext. */
  ghost predicate RoundTrips(p: Primitives) {
    && (forall s :: p.utf8Decode(p.utf8Encode(s)) == Some(s))
    && (forall b :: p.b64Decode(p.b64Encode(b)) == Ok(b))
    && (forall k, m, n :: p.fernetDecrypt(k, p.fernetEncrypt(k, m, n)) == Some(m))
  }

  /** Fernet tokens are authenticated: a token made under one key is rejected
      under any other. */
  ghost predicate Authenticating(p: Primitives) {
    forall k1, k2, m, n :: k1 != k2 ==> p.fernetDecrypt(k2, p.fernetEncrypt(k1, m, n)).None?
  }

  /** The key derivation separates passkeys: for a fixed salt, different
      passkeys give different keys. */
  ghost predicate KeysSeparate(p: Primitives) {
    forall pk1, pk2, salt :: pk1 != pk2 ==> DerivedKey(p, pk1, salt) != DerivedKey(p, pk2, salt)
  }

  // ---------------------------------------------------------------------------
  // generate_key_from_passkey
  // ---------------------------------------------------------------------------

  const KdfIterations: nat := 100000
  const KeyLength: nat := 32
  const DemoSaltText: string := "piiguardian_salt_2024"

  /** The bytes of an ASCII string. */
  function AsciiBytes(s: string): (b: Bytes)
    requires forall i :: 0 <= i < |s| ==> s[i] as int < 128
    ensures |b| == |s| && forall i :: 0 <= i < |s| ==> b[i] == s[i] as int
  {
    seq(|s|, i requires 0 <= i < |s| => s[i] as int)
  }

  /** The fixed salt used when none is given: the URL-safe base64 encoding of
      the bytes b"piiguardian_salt_2024". */
  function DefaultSalt(p: Primitives): Bytes {
    p.urlsafeB64Encode(AsciiBytes(DemoSaltText))
  }

  /** The Fernet key derived from a passkey and a salt. */
  function DerivedKey(p: Primitives, passkey: string, salt: Bytes): Bytes {
    p.urlsafeB64Encode(p.pbkdf2Sha256(p.utf8Encode(passkey), salt, KdfIterations, KeyLength))
  }

  /** `generate_key_from_passkey(passkey, salt)`: the key and the salt used. */
  function GenerateKeyFromPasskey(p: Primitives, passkey: string, salt: Option<Bytes>): (r: (Bytes, Bytes))
    ensures salt.Some? ==> r.1 == salt.value
    ensures salt.None? ==> r.1 == DefaultSalt(p)
    ensures r.0 == DerivedKey(p, passkey, r.1)
  {
    var s := if salt.None? then DefaultSalt(p) else salt.value;
    (DerivedKey(p, passkey, s), s)
  }

  // ---------------------------------------------------------------------------
  // Placeholders
  // ---------------------------------------------------------------------------

  const PlaceholderPrefix: string := "ENCRYPTED_FIELD_"

  /** The placeholder id of the field at index i, `f"ENCRYPTED_FIELD_{i+1:03d}"`. */
  function PlaceholderId(i: nat): (id: string)
    ensures StartsWith(id, PlaceholderPrefix)
    ensures AllDigits(id[|PlaceholderPrefix|..]) && |id| >= |PlaceholderPrefix| + 3
    ensures DecimalValue(id[|PlaceholderPrefix|..]) == i + 1
    ensures Lacks(id, '[') && Lacks(id, ']') && Lacks(id, ':')
  {
    var digits := ZeroPad(NatToString(i + 1), 3);
    ZeroPadNumeral(i + 1, 3);
    PrefixedDigits(digits);
    PlaceholderPrefix + digits
  }

  /** The prefix followed by digits starts with the prefix, has the digits
      after it, and has no bracket or colon. */
  lemma PrefixedDigits(digits: string)
    requires AllDigits(digits)
    ensures var id := PlaceholderPrefix + digits;
      && StartsWith(id, PlaceholderPrefix) && id[|PlaceholderPrefix|..] == digits
      && Lacks(id, '[') && Lacks(id, ']') && Lacks(id, ':')
  {
    var id := PlaceholderPrefix + digits;
    assert id[..|PlaceholderPrefix|] == PlaceholderPrefix;
    assert id[|PlaceholderPrefix|..] == digits;
    PrefixSafe();
    LacksConcat(PlaceholderPrefix, digits, '[');
    LacksConcat(PlaceholderPrefix, digits, ']');
    LacksConcat(PlaceholderPrefix, digits, ':');
  }

  lemma PrefixSafe()
    ensures Lacks(PlaceholderPrefix, '[') && Lacks(PlaceholderPrefix, ']') && Lacks(PlaceholderPrefix, ':')
  {
  }

  /** Different fields get different placeholder ids. */
  lemma PlaceholderIdInjective(i: nat, j: nat)
    requires i != j
    ensures PlaceholderId(i) != PlaceholderId(j)
  {
    var n := |PlaceholderPrefix|;
    assert DecimalValue(PlaceholderId(i)[n..]) != DecimalValue(PlaceholderId(j)[n..]);
  }

  /** `generate_placeholder_text(placeholder_id, pii_type)`: "[id:type]". */
  function PlaceholderText(id: string, piiType: string): (r: string)
    ensures |r| == |id| + |piiType| + 3
    ensures r[0] == '[' && r[1..|id| + 1] == id && r[|id| + 1] == ':'
    ensures r[|id| + 2..|r| - 1] == piiType && r[|r| - 1] == ']'
  {
    "[" + id + ":" + piiType + "]"
  }

  /** A placeholder with bracket-free id and type is a well-formed marker. */
  lemma PlaceholderTextIsMarker(id: string, piiType: string)
    requires Lacks(id, '[') && Lacks(id, ']') && Lacks(piiType, '[') && Lacks(piiType, ']')
    ensures Substitution.WellFormedMarker(PlaceholderText(id, piiType))
  {
    var m := PlaceholderText(id, piiType);
    forall k | 0 < k < |m| - 1 ensures m[k] != '[' && m[k] != ']' {
      if k <= |id| {
        assert m[k] == id[k - 1];
      } else if k > |id| + 1 {
        assert m[k] == piiType[k - |id| - 2];
      }
    }
  }

  /** The placeholder text determines the id (ids have no ':'). */
  lemma PlaceholderTextInjective(id1: string, t1: string, id2: string, t2: string)
    requires Lacks(id1, ':') && Lacks(id2, ':')
    requires PlaceholderText(id1, t1) == PlaceholderText(id2, t2)
    ensures id1 == id2 && t1 == t2
  {
    var s := PlaceholderText(id1, t1);
    assert s[1..] == id1 + [':'] + (t1 + "]");
    assert s[1..] == id2 + [':'] + (t2 + "]");
    FindCharAfter(id1, ':', t1 + "]");
    FindCharAfter(id2, ':', t2 + "]");
    assert id1 == s[1..1 + |id1|] == id2;
    assert t1 == s[2 + |id1|..|s| - 1] == t2;
  }

  // ---------------------------------------------------------------------------
  // encrypt_pii_fields
  // ---------------------------------------------------------------------------

  const EncryptionMethod: string := "AES-256-Fernet"

  /** `base64.b64encode(fernet.encrypt(value.encode())).decode()`. */
  function EncryptedValue(p: Primitives, key: Bytes, value: string, nonce: Bytes): string {
    p.b64Encode(p.fernetEncrypt(key, p.utf8Encode(value), nonce))
  }

  /** The i-th encrypted field record: the field with placeholder id, encrypted
      value and the encrypted flag added. */
  function EncryptedRecord(p: Primitives, key: Bytes, fields: seq<PiiField>, i: nat, nonce: nat -> Bytes): PiiField
    requires i < |fields|
  {
    fields[i].(placeholderId := Some(PlaceholderId(i)),
               encryptedValue := Some(EncryptedValue(p, key, fields[i].originalValue, nonce(i))),
               encrypted := true)
  }

  /** The first n records of `encrypted_fields`. */
  function RecordsPrefix(p: Primitives, key: Bytes, fields: seq<PiiField>, n: nat, nonce: nat -> Bytes): (r: seq<PiiField>)
    requires n <= |fields|
    ensures |r| == n && forall i :: 0 <= i < n ==> r[i] == EncryptedRecord(p, key, fields, i, nonce)
  {
    seq(n, i requires 0 <= i < n => EncryptedRecord(p, key, fields, i, nonce))
  }

  lemma RecordsPrefixStep(p: Primitives, key: Bytes, fields: seq<PiiField>, i: nat, nonce: nat -> Bytes)
    requires i < |fields|
    ensures RecordsPrefix(p, key, fields, i + 1, nonce)
      == RecordsPrefix(p, key, fields, i, nonce) + [EncryptedRecord(p, key, fields, i, nonce)]
  {
    var a := RecordsPrefix(p, key, fields, i + 1, nonce);
    var init := RecordsPrefix(p, key, fields, i, nonce);
    var b := init + [EncryptedRecord(p, key, fields, i, nonce)];
    forall k | 0 <= k < i + 1 ensures a[k] == b[k] {
      if k < i {
        assert b[k] == init[k];
      }
    }
    assert a == b;
  }

  /** The i-th `field_mapping` item. */
  function MappingItem(p: Primitives, key: Bytes, fields: seq<PiiField>, i: nat, nonce: nat -> Bytes): (string, MappingEntry)
    requires i < |fields|
  {
    (PlaceholderId(i),
     MappingEntry(fields[i].originalValue,
                  EncryptedValue(p, key, fields[i].originalValue, nonce(i)),
                  fields[i].piiType, fields[i].location))
  }

  /** The first n items of `field_mapping`; their keys are distinct because
      the placeholder ids are. */
  function MappingPrefix(p: Primitives, key: Bytes, fields: seq<PiiField>, n: nat, nonce: nat -> Bytes): (m: Dict<string, MappingEntry>)
    requires n <= |fields|
    ensures |m| == n && forall i :: 0 <= i < n ==> m[i] == MappingItem(p, key, fields, i, nonce)
  {
    var m := seq(n, i requires 0 <= i < n => MappingItem(p, key, fields, i, nonce));
    assert DistinctKeys(m) by {
      forall a, b | 0 <= a < b < n ensures m[a].0 != m[b].0 {
        PlaceholderIdInjective(a, b);
      }
    }
    m
  }

  /** The metadata `encrypt_pii_fields` returns. */
  function MetadataFor(p: Primitives, fields: seq<PiiField>, passkey: string, nonce: nat -> Bytes): (meta: EncryptionMetadata)
    ensures |meta.encryptedFields| == |fields| && |meta.fieldMapping| == |fields|
    // each record is the input field with exactly three keys set
    ensures forall i :: 0 <= i < |fields| ==>
      var f := meta.encryptedFields[i];
      && f.placeholderId == Some(PlaceholderId(i)) && f.encrypted && f.encryptedValue.Some?
      && f.(placeholderId := fields[i].placeholderId, encryptedValue := fields[i].encryptedValue,
            encrypted := fields[i].encrypted) == fields[i]
    // one mapping entry per field, under its placeholder id, holding the
    // same encrypted value as the record
    ensures forall i :: 0 <= i < |fields| ==>
      && meta.fieldMapping[i].0 == PlaceholderId(i)
      && meta.fieldMapping[i].1.originalValue == fields[i].originalValue
      && meta.fieldMapping[i].1.piiType == fields[i].piiType
      && meta.fieldMapping[i].1.location == fields[i].location
      && Some(meta.fieldMapping[i].1.encryptedValue) == meta.encryptedFields[i].encryptedValue
    ensures meta.salt == p.b64Encode(DefaultSalt(p)) && meta.encryptionMethod == EncryptionMethod
  {
    var (key, salt) := GenerateKeyFromPasskey(p, passkey, None);
    EncryptionMetadata(
      RecordsPrefix(p, key, fields, |fields|, nonce),
      MappingPrefix(p, key, fields, |fields|, nonce),
      p.b64Encode(salt),
      EncryptionMethod)
  }

  /** `encrypt_pii_fields(pii_fields, passkey)`. With typed fields and total
      primitives nothing in the loop can raise. */
  method EncryptPiiFields(p: Primitives, fields: seq<PiiField>, passkey: string, nonce: nat -> Bytes)
      returns (meta: EncryptionMetadata)
    ensures meta == MetadataFor(p, fields, passkey, nonce)
  {
    var (key, salt) := GenerateKeyFromPasskey(p, passkey, None);
    var encryptedFields: seq<PiiField> := [];
    var fieldMapping: Dict<string, MappingEntry> := [];
    for i := 0 to |fields|
      invariant encryptedFields == RecordsPrefix(p, key, fields, i, nonce)
      invariant fieldMapping == MappingPrefix(p, key, fields, i, nonce)
    {
      var placeholderId := PlaceholderId(i);
      var encryptedValue := EncryptedValue(p, key, fields[i].originalValue, nonce(i));
      var encryptedField := fields[i].(placeholderId := Some(placeholderId),
                                       encryptedValue := Some(encryptedValue),
                                       encrypted := true);
      assert encryptedField == EncryptedRecord(p, key, fields, i, nonce);
      RecordsPrefixStep(p, key, fields, i, nonce);
      encryptedFields := encryptedFields + [encryptedField];
      var entry := MappingEntry(fields[i].originalValue, encryptedValue, fields[i].piiType, fields[i].location);
      assert (placeholderId, entry) == MappingItem(p, key, fields, i, nonce);
      MappingPrefixStep(p, key, fields, i, nonce);
      fieldMapping := Insert(fieldMapping, placeholderId, entry);
    }
    meta := EncryptionMetadata(encryptedFields, fieldMapping, p.b64Encode(salt), EncryptionMethod);
  }

  /** The mapping grows by one fresh key per field. */
  lemma MappingPrefixStep(p: Primitives, key: Bytes, fields: seq<PiiField>, i: nat, nonce: nat -> Bytes)
    requires i < |fields|
    ensures PlaceholderId(i) !in Keys(MappingPrefix(p, key, fields, i, nonce))
    ensures MappingPrefix(p, key, fields, i + 1, nonce)
      == MappingPrefix(p, key, fields, i, nonce) + [MappingItem(p, key, fields, i, nonce)]
  {
    var m := MappingPrefix(p, key, fields, i, nonce);
    forall k | 0 <= k < i ensures m[k].0 != PlaceholderId(i) {
      PlaceholderIdInjective(k, i);
    }
    var a := MappingPrefix(p, key, fields, i + 1, nonce);
    var b := m + [MappingItem(p, key, fields, i, nonce)];
    forall k | 0 <= k < i + 1 ensures a[k] == b[k] {
      if k < i {
        assert b[k] == m[k];
      }
    }
    assert a == b;
  }

  // ---------------------------------------------------------------------------
  // decrypt_pii_fields
  // ---------------------------------------------------------------------------

  /** What the per-field handler raises, whatever went wrong. */
  const FieldFailure: Error := ValueError("Invalid passkey or corrupted data")

  const InvalidPasskeyMessage: string := "Invalid passkey"

  /** The outer handler: an error whose message mentions an invalid passkey
      becomes `ValueError("Invalid passkey provided")`, any other is wrapped. */
  function OuterError(msg: string): (e: Error)
    ensures Contains(msg, InvalidPasskeyMessage) ==> e == ValueError("Invalid passkey provided")
    ensures !Contains(msg, InvalidPasskeyMessage) ==> e == Exception("Failed to decrypt PII fields: " + msg)
  {
    if Contains(msg, InvalidPasskeyMessage) then ValueError("Invalid passkey provided")
    else Exception("Failed to decrypt PII fields: " + msg)
  }

  /** A failed field always surfaces as the invalid-passkey error. */
  lemma FieldFailureSurfaces()
    ensures OuterError(Str(FieldFailure)) == ValueError("Invalid passkey provided")
  {
    assert StartsWith(Str(FieldFailure), InvalidPasskeyMessage);
  }

  /** One field: base64-decode the token, Fernet-decrypt it, decode UTF-8. */
  function DecryptValue(p: Primitives, key: Bytes, encryptedValue: string): (r: Option<string>)
    ensures r.Some? <==> (p.b64Decode(encryptedValue).Ok?
      && p.fernetDecrypt(key, p.b64Decode(encryptedValue).value).Some?
      && p.utf8Decode(p.fernetDecrypt(key, p.b64Decode(encryptedValue).value).value).Some?)
  {
    match p.b64Decode(encryptedValue)
    case Err(_) => None
    case Ok(token) =>
      match p.fernetDecrypt(key, token)
      case None => None
      case Some(plain) => p.utf8Decode(plain)
  }

  /** The loop over `field_mapping.items()`: the decrypted mapping, or None as
      soon as one field fails. */
  function DecryptAll(p: Primitives, key: Bytes, m: seq<(string, MappingEntry)>): (r: Option<seq<(string, string)>>)
    ensures r.Some? <==> forall k :: 0 <= k < |m| ==> DecryptValue(p, key, m[k].1.encryptedValue).Some?
    ensures r.Some? ==> |r.value| == |m| && forall k :: 0 <= k < |m| ==>
      r.value[k] == (m[k].0, DecryptValue(p, key, m[k].1.encryptedValue).value)
    decreases |m|
  {
    if m == [] then Some([])
    else
      var init := m[..|m| - 1];
      var last := m[|m| - 1];
      match DecryptAll(p, key, init)
      case None => None
      case Some(d) =>
        match DecryptValue(p, key, last.1.encryptedValue)
        case None => None
        case Some(v) => Some(d + [(last.0, v)])
  }

  /** `decrypt_pii_fields(encrypted_metadata, passkey)`. */
  function DecryptOutcome(p: Primitives, meta: EncryptionMetadata, passkey: string): (r: Result<seq<(string, string)>, Error>)
    ensures p.b64Decode(meta.salt).Err? ==> r == Err(OuterError(p.b64Decode(meta.salt).error))
    ensures p.b64Decode(meta.salt).Ok? ==>
      var key := DerivedKey(p, passkey, p.b64Decode(meta.salt).value);
      && (r.Ok? <==> DecryptAll(p, key, meta.fieldMapping).Some?)
      && (r.Ok? ==> r.value == DecryptAll(p, key, meta.fieldMapping).value)
      && (r.Err? ==> r.error == OuterError(Str(FieldFailure)))
  {
    match p.b64Decode(meta.salt)
    case Err(msg) => Err(OuterError(msg))
    case Ok(salt) =>
      var (key, _) := GenerateKeyFromPasskey(p, passkey, Some(salt));
      match DecryptAll(p, key, meta.fieldMapping)
      case None => Err(OuterError(Str(FieldFailure)))
      case Some(d) => Ok(d)
  }

  /** The decrypted mapping has the keys of `field_mapping`, in its order, so
      it is itself a dictionary. */
  lemma DecryptedIsDict(p: Primitives, meta: EncryptionMetadata, passkey: string)
    requires DecryptOutcome(p, meta, passkey).Ok?
    ensures DistinctKeys(DecryptOutcome(p, meta, passkey).value)
    ensures Keys(DecryptOutcome(p, meta, passkey).value) == Keys(meta.fieldMapping)
  {
    var d := DecryptOutcome(p, meta, passkey).value;
    assert |d| == |meta.fieldMapping|;
    assert forall k :: 0 <= k < |d| ==> d[k].0 == meta.fieldMapping[k].0;
    SameKeys(d, meta.fieldMapping);
  }

  /** Every way `decrypt_pii_fields` can fail: an undecodable salt, reported
      as such, or a failed field, reported as an invalid passkey. */
  lemma DecryptErrors(p: Primitives, meta: EncryptionMetadata, passkey: string)
    requires DecryptOutcome(p, meta, passkey).Err?
    ensures var e := DecryptOutcome(p, meta, passkey).error;
      e == ValueError("Invalid passkey provided")
      || (p.b64Decode(meta.salt).Err? && e == Exception("Failed to decrypt PII fields: " + p.b64Decode(meta.salt).error))
  {
    FieldFailureSurfaces();
  }

  /** `decrypt_pii_fields`, as the loop the code runs. */
  method DecryptPiiFields(p: Primitives, meta: EncryptionMetadata, passkey: string)
      returns (r: Result<seq<(string, string)>, Error>)
    ensures r == DecryptOutcome(p, meta, passkey)
  {
    var salt := p.b64Decode(meta.salt);
    if salt.Err? {
      return Err(OuterError(salt.error));
    }
    var (key, _) := GenerateKeyFromPasskey(p, passkey, Some(salt.value));
    var decryptedMapping: Dict<string, string> := [];
    for i := 0 to |meta.fieldMapping|
      invariant DecryptAll(p, key, meta.fieldMapping[..i]) == Some(decryptedMapping)
    {
      var (placeholderId, fieldData) := meta.fieldMapping[i];
      var encryptedBytes := p.b64Decode(fieldData.encryptedValue);
      if encryptedBytes.Err? {
        NoneFromFailedField(p, key, meta.fieldMapping, i);
        return Err(OuterError(Str(FieldFailure)));
      }
      var plain := p.fernetDecrypt(key, encryptedBytes.value);
      if plain.None? {
        NoneFromFailedField(p, key, meta.fieldMapping, i);
        return Err(OuterError(Str(FieldFailure)));
      }
      var decryptedValue := p.utf8Decode(plain.value);
      if decryptedValue.None? {
        NoneFromFailedField(p, key, meta.fieldMapping, i);
        return Err(OuterError(Str(FieldFailure)));
      }
      DecryptAllStep(p, key, meta.fieldMapping, i, decryptedMapping, decryptedValue.value);
      forall k | 0 <= k < |decryptedMapping| ensures decryptedMapping[k].0 != placeholderId {
        assert decryptedMapping[k].0 == meta.fieldMapping[k].0;
      }
      decryptedMapping := Insert(decryptedMapping, placeholderId, decryptedValue.value);
    }
    assert meta.fieldMapping[..|meta.fieldMapping|] == meta.fieldMapping;
    return Ok(decryptedMapping);
  }

  /** The loop step: one more field decrypted. */
  lemma DecryptAllStep(p: Primitives, key: Bytes, m: seq<(string, MappingEntry)>, i: nat, d: seq<(string, string)>, v: string)
    requires i < |m| && DecryptAll(p, key, m[..i]) == Some(d)
    requires DecryptValue(p, key, m[i].1.encryptedValue) == Some(v)
    ensures DecryptAll(p, key, m[..i + 1]) == Some(d + [(m[i].0, v)])
  {
    assert m[..i + 1][..i] == m[..i];
  }

  /** One failed field makes the whole mapping fail. */
  lemma NoneFromFailedField(p: Primitives, key: Bytes, m: seq<(string, MappingEntry)>, i: nat)
    requires i < |m| && DecryptValue(p, key, m[i].1.encryptedValue).None?
    ensures DecryptAll(p, key, m).None?
  {
  }

  // ---------------------------------------------------------------------------
  // Round trip and wrong passkey
  // ---------------------------------------------------------------------------

  /** The first n mapping items decrypt to their original values. */
  lemma DecryptMappingPrefix(p: Primitives, key: Bytes, fields: seq<PiiField>, n: nat, nonce: nat -> Bytes)
    requires RoundTrips(p) && n <= |fields|
    ensures DecryptAll(p, key, MappingPrefix(p, key, fields, n, nonce))
      == Some(seq(n, i requires 0 <= i < n => (PlaceholderId(i), fields[i].originalValue)))
  {
    var m := MappingPrefix(p, key, fields, n, nonce);
    var expected := seq(n, i requires 0 <= i < n => (PlaceholderId(i), fields[i].originalValue));
    forall k | 0 <= k < n
      ensures m[k].0 == expected[k].0 && DecryptValue(p, key, m[k].1.encryptedValue) == Some(expected[k].1)
    {
      DecryptMappingItem(p, key, fields, k, nonce);
    }
    DecryptAllOf(p, key, m, expected);
  }

  /** A mapping whose every value decrypts decrypts to the pairs of its keys
      and those values. */
  lemma DecryptAllOf(p: Primitives, key: Bytes, m: seq<(string, MappingEntry)>, expected: seq<(string, string)>)
    requires |m| == |expected|
    requires forall k :: 0 <= k < |m| ==>
      m[k].0 == expected[k].0 && DecryptValue(p, key, m[k].1.encryptedValue) == Some(expected[k].1)
    ensures DecryptAll(p, key, m) == Some(expected)
  {
    var d := DecryptAll(p, key, m);
    assert d.Some?;
    assert d.value == expected;
  }

  /** One mapping item decrypts to its original value. */
  lemma DecryptMappingItem(p: Primitives, key: Bytes, fields: seq<PiiField>, k: nat, nonce: nat -> Bytes)
    requires RoundTrips(p) && k < |fields|
    ensures DecryptValue(p, key, MappingItem(p, key, fields, k, nonce).1.encryptedValue) == Some(fields[k].originalValue)
  {
    var token := p.fernetEncrypt(key, p.utf8Encode(fields[k].originalValue), nonce(k));
    assert p.b64Decode(p.b64Encode(token)) == Ok(token);
  }

  /** Decrypting with the passkey used for encryption gives back every
      original value under its placeholder id. */
  lemma DecryptRoundTrip(p: Primitives, fields: seq<PiiField>, passkey: string, nonce: nat -> Bytes)
    requires RoundTrips(p)
    ensures p.b64Decode(MetadataFor(p, fields, passkey, nonce).salt) == Ok(DefaultSalt(p))
    ensures DecryptOutcome(p, MetadataFor(p, fields, passkey, nonce), passkey)
      == Ok(seq(|fields|, i requires 0 <= i < |fields| => (PlaceholderId(i), fields[i].originalValue)))
  {
    var meta := MetadataFor(p, fields, passkey, nonce);
    var salt := DefaultSalt(p);
    assert p.b64Decode(meta.salt) == Ok(salt);
    var key := DerivedKey(p, passkey, salt);
    DecryptMappingPrefix(p, key, fields, |fields|, nonce);
  }

  /** With authenticated tokens and a key derivation that separates
      passkeys, any other passkey is rejected as invalid (provided there is
      at least one field to decrypt). */
  lemma WrongPasskeyRejected(p: Primitives, fields: seq<PiiField>, passkey: string, other: string, nonce: nat -> Bytes)
    requires RoundTrips(p) && Authenticating(p) && KeysSeparate(p)
    requires |fields| > 0 && other != passkey
    ensures DecryptOutcome(p, MetadataFor(p, fields, passkey, nonce), other) == Err(ValueError("Invalid passkey provided"))
  {
    var meta := MetadataFor(p, fields, passkey, nonce);
    var salt := DefaultSalt(p);
    assert p.b64Decode(meta.salt) == Ok(salt);
    var key := DerivedKey(p, passkey, salt);
    var wrong := DerivedKey(p, other, salt);
    assert key != wrong;
    var token := p.fernetEncrypt(key, p.utf8Encode(fields[0].originalValue), nonce(0));
    assert p.b64Decode(meta.fieldMapping[0].1.encryptedValue) == Ok(token);
    assert p.fernetDecrypt(wrong, token).None?;
    NoneFromFailedField(p, wrong, meta.fieldMapping, 0);
    FieldFailureSurfaces();
  }

  // ---------------------------------------------------------------------------
  // validate_passkey_strength
  // ---------------------------------------------------------------------------

  const MinPasskeyLength: nat := 8

  /** `validate_passkey_strength(passkey)`: only the length is checked. */
  function ValidatePasskeyStrength(passkey: string): (ok: bool)
    ensures ok <==> |passkey| >= MinPasskeyLength
  {
    |passkey| >= MinPasskeyLength
  }
}
