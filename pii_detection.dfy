/** PII detection (backend/utils/pii_detection.py): turning named entities
    and pattern matches into PII field records, masking their previews,
    and filtering and de-duplicating the result.

    spaCy's entity recogniser, the regular expressions of `PII_PATTERNS` and
    `str.title` are not modelled: they are the fields of an `Nlp` value. The
    detection code only reads what they return. */
module PiiDetection {
  import opened Wrappers
  import opened Strings
  import opened Records

  /** A named entity: `ent.label_`, `ent.text`, `ent.start_char`, `ent.end_char`. */
  datatype Entity = Entity(labelName: string, text: string, startChar: int, endChar: int)

  /** A regular-expression match: `match.group()`, `match.start()`, `match.end()`. */
  datatype Match = Match(text: string, start: int, end: int)

  /** The libraries detection calls: the entities spaCy finds in a text, the
      matches of the pattern registered under a name (`finditer`), and
      `str.title`. */
  datatype Nlp = Nlp(
    entities: string -> seq<Entity>,
    finditer: (string, string) -> seq<Match>,
    title: string -> string)

  // ---------------------------------------------------------------------------
  // Tables
  // ---------------------------------------------------------------------------

  /** The entity labels detection keeps. */
  const NerLabels: seq<string> := ["PERSON", "ORG", "GPE", "DATE", "MONEY"]

  /** The keys of `PII_PATTERNS`, in the order the dictionary lists them. */
  const PatternNames: seq<string> :=
    ["ssn", "phone", "email", "credit_card", "date_of_birth", "zip_code", "ip_address", "passport", "driver_license"]

  predicate IsPatternName(n: string) {
    n == "ssn" || n == "phone" || n == "email" || n == "credit_card" || n == "date_of_birth"
    || n == "zip_code" || n == "ip_address" || n == "passport" || n == "driver_license"
  }

  lemma PatternNamesKnown(n: string)
    requires n in PatternNames
    ensures IsPatternName(n)
  {
  }

  /** The display names of the kept entity labels. */
  predicate IsNerDisplayType(t: string) {
    t == "Person Name" || t == "Organization" || t == "Location" || t == "Date" || t == "Financial Information"
  }

  /** The display names of the patterns. */
  predicate IsPatternDisplayType(t: string) {
    t == "Social Security Number" || t == "Phone Number" || t == "Email Address" || t == "Credit Card Number"
    || t == "Date of Birth" || t == "ZIP Code" || t == "IP Address" || t == "Passport Number" || t == "Driver License"
  }

  /** Confidence scores are in hundredths: 0.85 is 85. */
  const NerConfidence: nat := 85
  const DefaultPatternConfidence: nat := 70
  const MinConfidence: nat := 60

  const NerMethod: string := "spacy_ner"
  const RegexMethod: string := "regex_pattern"

  /** `_map_spacy_label(label)`: the display name of a kept label; any other
      label is returned unchanged. */
  function MapSpacyLabel(spacyLabel: string): (r: string)
    ensures spacyLabel in NerLabels ==> IsNerDisplayType(r)
    ensures spacyLabel !in NerLabels ==> r == spacyLabel
  {
    if spacyLabel == "PERSON" then "Person Name"
    else if spacyLabel == "ORG" then "Organization"
    else if spacyLabel == "GPE" then "Location"
    else if spacyLabel == "DATE" then "Date"
    else if spacyLabel == "MONEY" then "Financial Information"
    else spacyLabel
  }

  /** `_format_pii_type(pii_type)`: the display name of a pattern; any other
      name has '_' replaced by ' ' and is title-cased. */
  function FormatPiiType(piiType: string, nlp: Nlp): (r: string)
    ensures IsPatternName(piiType) ==> IsPatternDisplayType(r)
    ensures !IsPatternName(piiType) ==> r == nlp.title(Replace(piiType, "_", " "))
  {
    if piiType == "ssn" then "Social Security Number"
    else if piiType == "phone" then "Phone Number"
    else if piiType == "email" then "Email Address"
    else if piiType == "credit_card" then "Credit Card Number"
    else if piiType == "date_of_birth" then "Date of Birth"
    else if piiType == "zip_code" then "ZIP Code"
    else if piiType == "ip_address" then "IP Address"
    else if piiType == "passport" then "Passport Number"
    else if piiType == "driver_license" then "Driver License"
    else nlp.title(Replace(piiType, "_", " "))
  }

  /** `_get_pattern_confidence(pii_type)`, in hundredths; 70 for a name not
      in the table. */
  function GetPatternConfidence(piiType: string): (c: nat)
    ensures DefaultPatternConfidence <= c <= 95
    ensures !IsPatternName(piiType) ==> c == DefaultPatternConfidence
  {
    if piiType == "ssn" then 95
    else if piiType == "phone" then 85
    else if piiType == "email" then 95
    else if piiType == "credit_card" then 90
    else if piiType == "date_of_birth" then 75
    else if piiType == "zip_code" then 70
    else if piiType == "ip_address" then 80
    else if piiType == "passport" then 85
    else if piiType == "driver_license" then 80
    else DefaultPatternConfidence
  }

  // ---------------------------------------------------------------------------
  // _mask_value
  // ---------------------------------------------------------------------------

  const SsnTypes: seq<string> := ["ssn", "Social Security Number"]
  const PhoneTypes: seq<string> := ["phone", "Phone Number"]
  const EmailTypes: seq<string> := ["email", "Email Address"]
  const CardTypes: seq<string> := ["credit_card", "Credit Card Number"]

  /** `value.split("@", 1)[0]` when value holds an '@'. */
  function EmailUser(value: string): string {
    value[..FindChar(value, '@')]
  }

  /** `value.split("@", 1)[1]` when value holds an '@'. */
  function EmailDomain(value: string): string
    requires !Lacks(value, '@')
  {
    FindCharBound(value, '@');
    value[FindChar(value, '@') + 1..]
  }

  lemma FindCharBound(s: string, c: char)
    requires !Lacks(s, c)
    ensures FindChar(s, c) < |s| && s[FindChar(s, c)] == c
    ensures Lacks(s[..FindChar(s, c)], c)
    decreases |s|
  {
    if s[0] != c {
      FindCharBound(s[1..], c);
      assert s[..FindChar(s, c)] == [s[0]] + s[1..][..FindChar(s[1..], c)];
    }
  }

  /** Which branch of `_mask_value` a type takes. */
  function MaskClass(piiType: string): nat {
    if piiType in SsnTypes then 0
    else if piiType in PhoneTypes then 1
    else if piiType in EmailTypes then 2
    else if piiType in CardTypes then 3
    else 4
  }

  /** `_mask_value(value, pii_type)`. The code falls off the end of its
      first four branches when the value is too short (or has no '@'), and
      then returns None. */
  function MaskValue(value: string, piiType: string): (r: Option<string>)
    ensures r.Some? ==> Contains(r.value, "***")
  {
    var c := MaskClass(piiType);
    if c == 0 then
      if |value| >= 4 then
        var last4 := value[|value| - 4..];
        ShowsMask([], "-**-" + last4, "***-**-" + last4);
        Some("***-**-" + last4)
      else None
    else if c == 1 then
      if |value| >= 4 then
        var last4 := value[|value| - 4..];
        ShowsMask([], "-***-" + last4, "***-***-" + last4);
        Some("***-***-" + last4)
      else None
    else if c == 2 then
      if !Lacks(value, '@') then
        var user := EmailUser(value);
        var maskedUser := if |user| > 2 then user[..2] + "***" else "***";
        ShowsMask(if |user| > 2 then user[..2] else [], "@" + EmailDomain(value), maskedUser + "@" + EmailDomain(value));
        Some(maskedUser + "@" + EmailDomain(value))
      else None
    else if c == 3 then
      if |value| >= 4 then
        var last4 := value[|value| - 4..];
        ShowsMask("*", "-****-****-" + last4, "****-****-****-" + last4);
        Some("****-****-****-" + last4)
      else None
    else if |value| > 4 then
      ShowsMask(value[..2], value[|value| - 2..], value[..2] + "***" + value[|value| - 2..]);
      Some(value[..2] + "***" + value[|value| - 2..])
    else
      ShowsMask([], [], "***");
      Some("***")
  }

  /** A preview made of some text, the "***" mask and some more text shows
      the mask. */
  lemma ShowsMask(before: string, after: string, preview: string)
    requires preview == before + "***" + after
    ensures Contains(preview, "***")
  {
    ContainsMiddle(before, "***", after);
  }

  /** The types whose preview shows the last four characters. */
  predicate LastFourType(piiType: string) {
    piiType in SsnTypes || piiType in PhoneTypes || piiType in CardTypes
  }

  /** A preview is missing exactly for a too-short number-like value or an
      e-mail address without '@'. */
  lemma MaskMissing(value: string, piiType: string)
    ensures MaskValue(value, piiType).None? <==>
      (LastFourType(piiType) && |value| < 4) || (piiType in EmailTypes && Lacks(value, '@'))
  {
  }

  /** The preview of a number-like value depends on its last four
      characters only, and ends with them. */
  lemma MaskLastFour(v1: string, v2: string, piiType: string)
    requires LastFourType(piiType) && |v1| >= 4 && |v2| >= 4
    requires v1[|v1| - 4..] == v2[|v2| - 4..]
    ensures MaskValue(v1, piiType) == MaskValue(v2, piiType)
    ensures MaskValue(v1, piiType).Some? && EndsWith(MaskValue(v1, piiType).value, v1[|v1| - 4..])
  {
  }

  /** The masked part of a number-like preview: only '*' and '-'. */
  predicate MaskedOnly(p: string) {
    forall k :: 0 <= k < |p| ==> p[k] == '*' || p[k] == '-'
  }

  /** A number-like preview is a fixed mask laid out like the number
      (ddd-dd-dddd for a social security number, ddd-ddd-dddd for a phone
      number, dddd-dddd-dddd-dddd for a card) followed by the last four
      characters, so nothing else of the value shows. */
  lemma MaskLastFourShape(value: string, piiType: string)
    requires LastFourType(piiType) && |value| >= 4
    ensures var p := if piiType in SsnTypes then "***-**-"
                     else if piiType in PhoneTypes then "***-***-"
                     else "****-****-****-";
            MaskedOnly(p) && MaskValue(value, piiType) == Some(p + value[|value| - 4..])
  {
  }

  /** The preview of an e-mail address keeps the domain and depends on the
      user name only through its first two characters and whether it is
      longer than two. */
  lemma MaskEmail(v1: string, v2: string)
    requires !Lacks(v1, '@') && !Lacks(v2, '@')
    requires EmailDomain(v1) == EmailDomain(v2)
    requires (|EmailUser(v1)| > 2) == (|EmailUser(v2)| > 2)
    requires |EmailUser(v1)| > 2 ==> EmailUser(v1)[..2] == EmailUser(v2)[..2]
    ensures MaskValue(v1, "email") == MaskValue(v2, "email")
    ensures MaskValue(v1, "email").Some? && EndsWith(MaskValue(v1, "email").value, "@" + EmailDomain(v1))
  {
    assert MaskClass("email") == 2;
    var m1 := if |EmailUser(v1)| > 2 then EmailUser(v1)[..2] + "***" else "***";
    var m2 := if |EmailUser(v2)| > 2 then EmailUser(v2)[..2] + "***" else "***";
    assert m1 == m2;
    assert MaskValue(v1, "email") == Some(m1 + "@" + EmailDomain(v1));
    assert MaskValue(v2, "email") == Some(m2 + "@" + EmailDomain(v2));
    assert (m1 + "@" + EmailDomain(v1))[|m1|..] == "@" + EmailDomain(v1);
  }

  /** Any other value longer than four shows only its first and last two
      characters; a shorter one shows nothing. */
  lemma MaskOther(v1: string, v2: string, piiType: string)
    requires !LastFourType(piiType) && piiType !in EmailTypes
    requires |v1| > 4 ==> |v2| > 4 && v1[..2] == v2[..2] && v1[|v1| - 2..] == v2[|v2| - 2..]
    requires |v1| <= 4 ==> |v2| <= 4
    ensures MaskValue(v1, piiType) == MaskValue(v2, piiType)
    ensures |v1| > 4 ==> MaskValue(v1, piiType) == Some(v1[..2] + "***" + v1[|v1| - 2..])
    ensures |v1| <= 4 ==> MaskValue(v1, piiType) == Some("***")
  {
  }

  /** Masking by a pattern name and by its display name agree. */
  lemma MaskAliases(value: string, name: string, nlp: Nlp)
    requires IsPatternName(name)
    ensures MaskValue(value, FormatPiiType(name, nlp)) == MaskValue(value, name)
  {
    var t := FormatPiiType(name, nlp);
    if name == "ssn" {
      assert t == "Social Security Number" && MaskClass(t) == 0 == MaskClass(name);
    } else if name == "phone" {
      assert t == "Phone Number" && MaskClass(t) == 1 == MaskClass(name);
    } else if name == "email" {
      assert t == "Email Address" && MaskClass(t) == 2 == MaskClass(name);
    } else if name == "credit_card" {
      assert t == "Credit Card Number" && MaskClass(t) == 3 == MaskClass(name);
    } else {
      assert MaskClass(name) == 4;
      assert IsPatternDisplayType(t);
      assert MaskClass(t) == 4;
    }
  }

  // ---------------------------------------------------------------------------
  // The records detect_pii builds
  // ---------------------------------------------------------------------------

  /** Detection has no page tracking or coordinates: every field is placed
      on page 1 with an all-zero bounding box. */
  function DetectedLocation(start: int, end: int): Location {
    Location(1, [0, 0, 0, 0], start, end)
  }

  function NerField(e: Entity): PiiField {
    PiiField(MapSpacyLabel(e.labelName), MaskValue(e.text, e.labelName), e.text, NerConfidence,
             DetectedLocation(e.startChar, e.endChar), false, NerMethod, None, None)
  }

  function PatternField(name: string, m: Match, nlp: Nlp): PiiField {
    PiiField(FormatPiiType(name, nlp), MaskValue(m.text, name), m.text, GetPatternConfidence(name),
             DetectedLocation(m.start, m.end), false, RegexMethod, None, None)
  }

  /** The fields of the entities with a kept label, in entity order. */
  function NerFields(ents: seq<Entity>): seq<PiiField> {
    if ents == [] then []
    else
      var init := NerFields(ents[..|ents| - 1]);
      var e := ents[|ents| - 1];
      if e.labelName in NerLabels then init + [NerField(e)] else init
  }

  /** The fields of one pattern's matches, in match order. */
  function MatchFields(name: string, ms: seq<Match>, nlp: Nlp): seq<PiiField> {
    seq(|ms|, k requires 0 <= k < |ms| => PatternField(name, ms[k], nlp))
  }

  /** The fields of the named patterns, pattern by pattern. */
  function PatternFields(names: seq<string>, text: string, nlp: Nlp): seq<PiiField> {
    if names == [] then []
    else
      var name := names[|names| - 1];
      PatternFields(names[..|names| - 1], text, nlp) + MatchFields(name, nlp.finditer(name, text), nlp)
  }

  /** Everything detect_pii collects before filtering. */
  function Candidates(text: string, nlp: Nlp): seq<PiiField> {
    NerFields(nlp.entities(text)) + PatternFields(PatternNames, text, nlp)
  }

  // ---------------------------------------------------------------------------
  // _filter_and_deduplicate_pii
  // ---------------------------------------------------------------------------

  /** The key duplicates are recognised by. */
  function Key(f: PiiField): (string, string) {
    (f.piiType, f.originalValue)
  }

  function KeySet(s: seq<PiiField>): (ks: set<(string, string)>)
  {
    set i | 0 <= i < |s| :: Key(s[i])
  }

  lemma KeySetAppend(s: seq<PiiField>, f: PiiField)
    ensures KeySet(s + [f]) == KeySet(s) + {Key(f)}
  {
    var t := s + [f];
    assert t[|s|] == f;
    forall k | k in KeySet(t) ensures k in KeySet(s) + {Key(f)} {
      var j :| 0 <= j < |t| && Key(t[j]) == k;
      if j < |s| {
        assert t[j] == s[j];
      }
    }
    forall k | k in KeySet(s) ensures k in KeySet(t) {
      var j :| 0 <= j < |s| && Key(s[j]) == k;
      assert t[j] == s[j];
    }
  }

  /** `[pii for pii in pii_list if pii["confidence"] >= MIN_CONFIDENCE]`. */
  function Confident(s: seq<PiiField>): (r: seq<PiiField>)
    ensures forall f :: f in r <==> f in s && f.confidence >= MinConfidence
    ensures forall f :: multiset(r)[f] == if f.confidence >= MinConfidence then multiset(s)[f] else 0
    ensures (forall i :: 0 <= i < |s| ==> s[i].confidence >= MinConfidence) ==> r == s
  {
    if s == [] then []
    else
      var init := Confident(s[..|s| - 1]);
      var f := s[|s| - 1];
      assert s == s[..|s| - 1] + [f];
      if f.confidence >= MinConfidence then init + [f] else init
  }

  /** The de-duplicated list: each field whose key has not been seen before,
      in order. */
  function Deduplicate(s: seq<PiiField>): (r: seq<PiiField>)
    ensures |r| <= |s|
  {
    if s == [] then []
    else
      var init := s[..|s| - 1];
      var f := s[|s| - 1];
      if Key(f) in KeySet(init) then Deduplicate(init) else Deduplicate(init) + [f]
  }

  lemma DedupAppend(s: seq<PiiField>, f: PiiField)
    ensures Deduplicate(s + [f]) == if Key(f) in KeySet(s) then Deduplicate(s) else Deduplicate(s) + [f]
  {
    assert (s + [f])[..|s|] == s;
  }

  /** One more field: its key joins the seen keys, and it is kept exactly
      when its key is new. */
  lemma DedupStep(s: seq<PiiField>, i: nat)
    requires i < |s|
    ensures KeySet(s[..i + 1]) == KeySet(s[..i]) + {Key(s[i])}
    ensures Deduplicate(s[..i + 1]) ==
      if Key(s[i]) in KeySet(s[..i]) then Deduplicate(s[..i]) else Deduplicate(s[..i]) + [s[i]]
  {
    assert s[..i + 1] == s[..i] + [s[i]];
    KeySetAppend(s[..i], s[i]);
    DedupAppend(s[..i], s[i]);
  }

  /** `_filter_and_deduplicate_pii(pii_list)`, with the loop over a set of
      seen keys. */
  method FilterAndDeduplicate(piiList: seq<PiiField>) returns (deduplicated: seq<PiiField>)
    ensures deduplicated == Deduplicate(Confident(piiList))
  {
    var filtered := Confident(piiList);
    var seen: set<(string, string)> := {};
    deduplicated := [];
    for i := 0 to |filtered|
      invariant seen == KeySet(filtered[..i])
      invariant deduplicated == Deduplicate(filtered[..i])
    {
      var pii := filtered[i];
      var key := (pii.piiType, pii.originalValue);
      DedupStep(filtered, i);
      if key !in seen {
        seen := seen + {key};
        deduplicated := deduplicated + [pii];
      }
    }
    assert filtered[..|filtered|] == filtered;
  }

  /** Deduplicate keeps one field per key, and every key. */
  lemma {:induction false} DedupDistinct(s: seq<PiiField>)
    ensures forall a, b :: 0 <= a < b < |Deduplicate(s)| ==> Key(Deduplicate(s)[a]) != Key(Deduplicate(s)[b])
    ensures KeySet(Deduplicate(s)) == KeySet(s)
  {
    if s != [] {
      var init := s[..|s| - 1];
      var f := s[|s| - 1];
      DedupDistinct(init);
      assert s == init + [f];
      KeySetAppend(init, f);
      var d := Deduplicate(init);
      if Key(f) !in KeySet(init) {
        KeySetAppend(d, f);
        var r := d + [f];
        forall a, b | 0 <= a < b < |r| ensures Key(r[a]) != Key(r[b]) {
          if b < |d| {
            assert r[a] == d[a] && r[b] == d[b];
          } else {
            assert r[a] == d[a];
            assert Key(d[a]) in KeySet(d);
          }
        }
      }
    }
  }

  /** ... keeps the first field of each key, in order: it is a subsequence
      of its input ... */
  predicate Subsequence(r: seq<PiiField>, s: seq<PiiField>)
    decreases |s|
  {
    if r == [] then true
    else if s == [] then false
    else (r[|r| - 1] == s[|s| - 1] && Subsequence(r[..|r| - 1], s[..|s| - 1])) || Subsequence(r, s[..|s| - 1])
  }

  lemma {:induction false} DedupSubsequence(s: seq<PiiField>)
    ensures Subsequence(Deduplicate(s), s)
  {
    if s != [] {
      var init := s[..|s| - 1];
      var d := Deduplicate(init);
      DedupSubsequence(init);
      if Key(s[|s| - 1]) !in KeySet(init) {
        assert (d + [s[|s| - 1]])[..|d|] == d;
      }
    }
  }

  /** The filter keeps the order of the fields it keeps. */
  lemma {:induction false} ConfidentSubsequence(s: seq<PiiField>)
    ensures Subsequence(Confident(s), s)
  {
    if s != [] {
      var init := s[..|s| - 1];
      var c := Confident(init);
      ConfidentSubsequence(init);
      if s[|s| - 1].confidence >= MinConfidence {
        assert (c + [s[|s| - 1]])[..|c|] == c;
      }
    }
  }

  /** ... in which every field is the first of its key in the input ... */
  lemma {:induction false} DedupFirstOccurrences(s: seq<PiiField>)
    ensures forall k :: 0 <= k < |Deduplicate(s)| ==>
      exists i :: 0 <= i < |s| && Deduplicate(s)[k] == s[i] && Key(s[i]) !in KeySet(s[..i])
  {
    if s != [] {
      var init := s[..|s| - 1];
      var f := s[|s| - 1];
      var d := Deduplicate(init);
      var r := Deduplicate(s);
      DedupFirstOccurrences(init);
      forall k | 0 <= k < |r|
        ensures exists i :: 0 <= i < |s| && r[k] == s[i] && Key(s[i]) !in KeySet(s[..i])
      {
        if k < |d| {
          assert r[k] == d[k];
          var i :| 0 <= i < |init| && d[k] == init[i] && Key(init[i]) !in KeySet(init[..i]);
          assert s[..i] == init[..i];
          assert s[i] == init[i];
          assert r[k] == s[i] && Key(s[i]) !in KeySet(s[..i]);
        } else {
          assert Key(f) !in KeySet(init);
          assert r == d + [f] && r[k] == f;
          var i := |s| - 1;
          assert s[..i] == init;
          assert r[k] == s[i] && Key(s[i]) !in KeySet(s[..i]);
        }
      }
      assert r == Deduplicate(s);
    } else {
      assert Deduplicate(s) == [];
    }
  }

  /** ... and applying it again changes nothing. */
  lemma DedupIdempotent(s: seq<PiiField>)
    ensures Deduplicate(Deduplicate(s)) == Deduplicate(s)
  {
    DedupDistinct(s);
    DedupOfDistinct(Deduplicate(s));
  }

  /** A list without duplicate keys is its own de-duplication. */
  lemma {:induction false} DedupOfDistinct(s: seq<PiiField>)
    requires forall a, b :: 0 <= a < b < |s| ==> Key(s[a]) != Key(s[b])
    ensures Deduplicate(s) == s
  {
    if s != [] {
      var init := s[..|s| - 1];
      DedupOfDistinct(init);
      forall j | 0 <= j < |init| ensures Key(init[j]) != Key(s[|s| - 1]) {
        assert init[j] == s[j];
      }
      assert s == init + [s[|s| - 1]];
    }
  }

  // ---------------------------------------------------------------------------
  // detect_pii
  // ---------------------------------------------------------------------------

  /** `detect_pii(text, file_path)`: entity fields, then the matches of each
      pattern in table order, then filtering and de-duplication. `file_path`
      is unused by the code. */
  method DetectPii(text: string, filePath: string, nlp: Nlp) returns (fields: seq<PiiField>)
    ensures fields == Deduplicate(Confident(Candidates(text, nlp)))
  {
    var detected := EntityDetections(nlp.entities(text));
    ghost var ner := detected;
    for j := 0 to |PatternNames|
      invariant detected == ner + PatternFields(PatternNames[..j], text, nlp)
    {
      var piiType := PatternNames[j];
      var matches := nlp.finditer(piiType, text);
      var found := MatchDetections(piiType, matches, nlp);
      PatternFieldsStep(PatternNames, j, text, nlp);
      ConcatAssoc(ner, PatternFields(PatternNames[..j], text, nlp), found);
      detected := detected + found;
    }
    assert PatternNames[..|PatternNames|] == PatternNames;
    fields := FilterAndDeduplicate(detected);
  }

  /** The entity loop of detect_pii. */
  method EntityDetections(ents: seq<Entity>) returns (detected: seq<PiiField>)
    ensures detected == NerFields(ents)
  {
    detected := [];
    for i := 0 to |ents|
      invariant detected == NerFields(ents[..i])
    {
      var ent := ents[i];
      NerFieldsStep(ents, i);
      if ent.labelName in NerLabels {
        var piiField := PiiField(MapSpacyLabel(ent.labelName), MaskValue(ent.text, ent.labelName), ent.text,
          NerConfidence, Location(1, [0, 0, 0, 0], ent.startChar, ent.endChar), false, NerMethod, None, None);
        assert piiField == NerField(ent);
        detected := detected + [piiField];
      }
    }
    assert ents[..|ents|] == ents;
  }

  /** The match loop of detect_pii for one pattern. */
  method MatchDetections(piiType: string, matches: seq<Match>, nlp: Nlp) returns (found: seq<PiiField>)
    ensures found == MatchFields(piiType, matches, nlp)
  {
    found := [];
    for k := 0 to |matches|
      invariant found == MatchFields(piiType, matches[..k], nlp)
    {
      var m := matches[k];
      var piiField := PiiField(FormatPiiType(piiType, nlp), MaskValue(m.text, piiType), m.text,
        GetPatternConfidence(piiType), Location(1, [0, 0, 0, 0], m.start, m.end), false, RegexMethod, None, None);
      assert piiField == PatternField(piiType, m, nlp);
      MatchFieldsStep(piiType, matches, k, nlp);
      found := found + [piiField];
    }
    assert matches[..|matches|] == matches;
  }

  lemma NerFieldsStep(ents: seq<Entity>, i: nat)
    requires i < |ents|
    ensures NerFields(ents[..i + 1]) ==
      if ents[i].labelName in NerLabels then NerFields(ents[..i]) + [NerField(ents[i])] else NerFields(ents[..i])
  {
    assert ents[..i + 1][..i] == ents[..i];
  }

  lemma MatchFieldsStep(name: string, ms: seq<Match>, k: nat, nlp: Nlp)
    requires k < |ms|
    ensures MatchFields(name, ms[..k + 1], nlp) == MatchFields(name, ms[..k], nlp) + [PatternField(name, ms[k], nlp)]
  {
  }

  lemma PatternFieldsStep(names: seq<string>, j: nat, text: string, nlp: Nlp)
    requires j < |names|
    ensures PatternFields(names[..j + 1], text, nlp) ==
      PatternFields(names[..j], text, nlp) + MatchFields(names[j], nlp.finditer(names[j], text), nlp)
  {
    assert names[..j + 1][..j] == names[..j];
  }

  /** What every detected field looks like before filtering: not encrypted,
      on page 1 with an all-zero box, typed with a display name, and at least
      as confident as the default pattern score. */
  predicate WellShaped(f: PiiField) {
    && f.location.page == 1 && f.location.bbox == [0, 0, 0, 0]
    && !f.encrypted && f.placeholderId.None? && f.encryptedValue.None?
    && (IsNerDisplayType(f.piiType) || IsPatternDisplayType(f.piiType))
    && f.confidence >= DefaultPatternConfidence
    && (f.detectionMethod == NerMethod || f.detectionMethod == RegexMethod)
  }

  lemma {:induction false} NerFieldsShaped(ents: seq<Entity>)
    ensures forall f :: f in NerFields(ents) ==> WellShaped(f) && f.detectionMethod == NerMethod
  {
    if ents != [] {
      NerFieldsShaped(ents[..|ents| - 1]);
    }
  }

  lemma {:induction false} PatternFieldsShaped(names: seq<string>, text: string, nlp: Nlp)
    requires forall n :: n in names ==> IsPatternName(n)
    ensures forall f :: f in PatternFields(names, text, nlp) ==> WellShaped(f) && f.detectionMethod == RegexMethod
  {
    if names != [] {
      var init := names[..|names| - 1];
      assert forall n :: n in init ==> n in names;
      PatternFieldsShaped(init, text, nlp);
    }
  }

  lemma CandidatesShaped(text: string, nlp: Nlp)
    ensures forall f :: f in Candidates(text, nlp) ==> WellShaped(f)
  {
    NerFieldsShaped(nlp.entities(text));
    forall n | n in PatternNames ensures IsPatternName(n) {
      PatternNamesKnown(n);
    }
    PatternFieldsShaped(PatternNames, text, nlp);
  }

  /** Every score detection assigns clears the confidence threshold, so the
      filter never drops a field; what detect_pii returns is the
      de-duplicated candidate list, every field of which is well shaped and
      of a distinct (type, value) pair. */
  lemma DetectPiiResult(text: string, nlp: Nlp)
    ensures Confident(Candidates(text, nlp)) == Candidates(text, nlp)
    ensures forall f :: f in Deduplicate(Candidates(text, nlp)) ==> WellShaped(f) && f in Candidates(text, nlp)
    ensures var r := Deduplicate(Candidates(text, nlp));
      forall a, b :: 0 <= a < b < |r| ==> Key(r[a]) != Key(r[b])
  {
    var c := Candidates(text, nlp);
    CandidatesShaped(text, nlp);
    assert forall i :: 0 <= i < |c| ==> c[i] in c;
    DedupDistinct(c);
    DedupMembers(c);
  }

  lemma {:induction false} DedupMembers(s: seq<PiiField>)
    ensures forall f :: f in Deduplicate(s) ==> f in s
  {
    if s != [] {
      DedupMembers(s[..|s| - 1]);
    }
  }

  /** No bracket and no ':': what a placeholder type must avoid. */
  predicate MarkerSafe(t: string) {
    forall i :: 0 <= i < |t| ==> t[i] != '[' && t[i] != ']' && t[i] != ':'
  }

  /** The display names are marker safe, so a placeholder "[id:type]" built
      from one is a well-formed marker. */
  lemma DisplayTypesMarkerSafe(t: string)
    requires IsNerDisplayType(t) || IsPatternDisplayType(t)
    ensures MarkerSafe(t)
  {
    if IsNerDisplayType(t) {
      NerDisplayTypesSafe();
    } else {
      PatternDisplayTypesSafe();
    }
  }

  lemma NerDisplayTypesSafe()
    ensures forall t :: IsNerDisplayType(t) ==> MarkerSafe(t)
  {
    assert MarkerSafe("Person Name") && MarkerSafe("Organization") && MarkerSafe("Location");
    assert MarkerSafe("Date") && MarkerSafe("Financial Information");
  }

  lemma PatternDisplayTypesSafe()
    ensures forall t :: IsPatternDisplayType(t) ==> MarkerSafe(t)
  {
    NumberTypesSafe();
    OtherPatternTypesSafe();
  }

  lemma NumberTypesSafe()
    ensures MarkerSafe("Social Security Number") && MarkerSafe("Phone Number")
    ensures MarkerSafe("Credit Card Number") && MarkerSafe("Passport Number")
  {
  }

  lemma OtherPatternTypesSafe()
    ensures MarkerSafe("Email Address") && MarkerSafe("Date of Birth") && MarkerSafe("ZIP Code")
    ensures MarkerSafe("IP Address") && MarkerSafe("Driver License")
  {
  }
}
