/** The text-level abstraction of the PDF backend that the substitution
    protocol drives. A page is its text. `page.search_for(s)` finds the
    occurrences of `s` from left to right without overlap; each found
    occurrence becomes a redaction annotation carrying a replacement text;
    `page.apply_redactions()` then rewrites the page once, scanning it from
    left to right: where an annotation starts, its replacement is written
    and the covered text is skipped (the earliest-added annotation wins when
    several start at the same place, and annotations starting inside skipped
    text are dropped); all other characters are kept. */
module Substitution {
  import opened Wrappers
  import Strings

  /** A redaction annotation: replace t[start..end] by `replacement`. */
  datatype Annot = Annot(start: nat, end: nat, replacement: string)

  predicate OccursAt(t: string, needle: string, i: nat) {
    i + |needle| <= |t| && t[i..i + |needle|] == needle
  }

  // ---------------------------------------------------------------------------
  // search_for
  // ---------------------------------------------------------------------------

  /** The occurrences of `needle` in t at or after i, leftmost first, each
      search resuming after the previous hit. An empty needle finds nothing. */
  function FindAllFrom(t: string, needle: string, i: nat): (hits: seq<nat>)
    ensures forall k :: 0 <= k < |hits| ==> i <= hits[k] && OccursAt(t, needle, hits[k])
    ensures forall k :: 0 <= k < |hits| - 1 ==> hits[k] + |needle| <= hits[k + 1]
    ensures |needle| == 0 ==> hits == []
    decreases |t| - i
  {
    if |needle| == 0 || i + |needle| > |t| then []
    else if t[i..i + |needle|] == needle then [i] + FindAllFrom(t, needle, i + |needle|)
    else FindAllFrom(t, needle, i + 1)
  }

  function FindAll(t: string, needle: string): seq<nat> {
    FindAllFrom(t, needle, 0)
  }

  /** A needle whose first character occurs nowhere else in it: two of its
      occurrences can never overlap. */
  predicate SelfDisjoint(needle: string) {
    |needle| > 0 && forall k :: 0 < k < |needle| ==> needle[k] != needle[0]
  }

  /** Two occurrences that overlap put the needle's first character at the
      offset between them. */
  lemma OverlapShift(t: string, needle: string, i: nat, p: nat)
    requires OccursAt(t, needle, i) && OccursAt(t, needle, p) && i < p
    ensures p < i + |needle| ==> needle[p - i] == needle[0]
  {
    if p < i + |needle| {
      assert t[p] == t[p..p + |needle|][0] == needle[0];
      assert t[p] == t[i..i + |needle|][p - i];
    }
  }

  /** Occurrences of a self-disjoint needle never overlap. */
  lemma NoOverlap(t: string, needle: string, i: nat, p: nat)
    requires SelfDisjoint(needle) && OccursAt(t, needle, i) && OccursAt(t, needle, p) && i < p
    ensures i + |needle| <= p
  {
    OverlapShift(t, needle, i, p);
  }

  /** For such a needle the search misses no occurrence. */
  lemma {:induction false} FindAllFromComplete(t: string, needle: string, i: nat, p: nat)
    requires SelfDisjoint(needle) && OccursAt(t, needle, p) && i <= p
    ensures p in FindAllFrom(t, needle, i)
    decreases |t| - i
  {
    var n := |needle|;
    assert n > 0 && i + n <= |t|;
    if t[i..i + n] == needle {
      assert FindAllFrom(t, needle, i) == [i] + FindAllFrom(t, needle, i + n);
      if p != i {
        NoOverlap(t, needle, i, p);
        FindAllFromComplete(t, needle, i + n, p);
      }
    } else {
      assert FindAllFrom(t, needle, i) == FindAllFrom(t, needle, i + 1);
      assert i < p;
      FindAllFromComplete(t, needle, i + 1, p);
    }
  }

  /** Position p lies inside one of the hits of a needle of length n. */
  predicate Covered(hits: seq<nat>, n: nat, p: nat) {
    exists k :: 0 <= k < |hits| && hits[k] <= p < hits[k] + n
  }

  lemma CoveredCons(x: nat, rest: seq<nat>, n: nat, p: nat)
    requires Covered(rest, n, p) || x <= p < x + n
    ensures Covered([x] + rest, n, p)
  {
    var hits := [x] + rest;
    if x <= p < x + n {
      assert hits[0] == x;
    } else {
      var k :| 0 <= k < |rest| && rest[k] <= p < rest[k] + n;
      assert hits[k + 1] == rest[k];
    }
  }

  /** Every occurrence at or after the start lies inside some hit: an
      occurrence is either found or overlaps one that was. */
  lemma {:induction false} FindAllFromCovers(t: string, needle: string, i: nat, p: nat)
    requires |needle| > 0 && i <= p && OccursAt(t, needle, p)
    ensures Covered(FindAllFrom(t, needle, i), |needle|, p)
    decreases |t| - i
  {
    var n := |needle|;
    if t[i..i + n] == needle {
      var rest := FindAllFrom(t, needle, i + n);
      assert FindAllFrom(t, needle, i) == [i] + rest;
      if i + n <= p {
        FindAllFromCovers(t, needle, i + n, p);
      }
      CoveredCons(i, rest, n, p);
    } else {
      assert i != p;
      assert FindAllFrom(t, needle, i) == FindAllFrom(t, needle, i + 1);
      FindAllFromCovers(t, needle, i + 1, p);
    }
  }

  // ---------------------------------------------------------------------------
  // apply_redactions
  // ---------------------------------------------------------------------------

  /** Annotation a starts at i and covers a non-empty part of a text of length n. */
  predicate StartsAt(a: Annot, i: nat, n: nat) {
    a.start == i && i < a.end <= n
  }

  /** The first annotation (in the order they were added) that starts at i. */
  function FirstAt(annots: seq<Annot>, i: nat, n: nat): (r: Option<nat>)
    ensures r.Some? ==> r.value < |annots| && StartsAt(annots[r.value], i, n)
    ensures r.Some? ==> forall k :: 0 <= k < r.value ==> !StartsAt(annots[k], i, n)
    ensures r.None? ==> forall k :: 0 <= k < |annots| ==> !StartsAt(annots[k], i, n)
    decreases |annots|
  {
    if annots == [] then None
    else if StartsAt(annots[0], i, n) then Some(0)
    else
      match FirstAt(annots[1..], i, n)
      case None => None
      case Some(k) => Some(k + 1)
  }

  /** The text from position i on, after the redactions are applied. */
  function ApplyFrom(t: string, annots: seq<Annot>, i: nat): string
    requires i <= |t|
    decreases |t| - i
  {
    if i == |t| then []
    else
      match FirstAt(annots, i, |t|)
      case Some(k) => annots[k].replacement + ApplyFrom(t, annots, annots[k].end)
      case None => [t[i]] + ApplyFrom(t, annots, i + 1)
  }

  /** One step of the scan where an annotation starts. */
  lemma ApplyFromAnnot(t: string, annots: seq<Annot>, i: nat, k: nat)
    requires i < |t| && FirstAt(annots, i, |t|) == Some(k)
    ensures ApplyFrom(t, annots, i) == annots[k].replacement + ApplyFrom(t, annots, annots[k].end)
  {
  }

  /** The same step, for an annotation known by its parts. */
  lemma ApplyFromAt(t: string, annots: seq<Annot>, i: nat, k: nat, e: nat, r: string)
    requires i < |t| && FirstAt(annots, i, |t|) == Some(k) && annots[k] == Annot(i, e, r)
    ensures e <= |t| && ApplyFrom(t, annots, i) == r + ApplyFrom(t, annots, e)
  {
  }

  /** One step of the scan where no annotation starts. */
  lemma ApplyFromCopy(t: string, annots: seq<Annot>, i: nat)
    requires i < |t| && FirstAt(annots, i, |t|).None?
    ensures ApplyFrom(t, annots, i) == [t[i]] + ApplyFrom(t, annots, i + 1)
  {
  }

  lemma SliceSplit(t: string, i: nat, e: nat)
    requires i <= e <= |t|
    ensures t[i..] == t[i..e] + t[e..]
  {
  }

  /** `apply_redactions` on a text: an annotation that covers nothing inside
      the text has no effect, so a page without one is unchanged. */
  function Apply(t: string, annots: seq<Annot>): (r: string)
    ensures (forall k :: 0 <= k < |annots| ==> !Covers(annots[k], |t|)) ==> r == t
  {
    if forall k :: 0 <= k < |annots| ==> !Covers(annots[k], |t|) then
      ApplyFromUntouched(t, annots, 0);
      assert t[0..] == t;
      ApplyFrom(t, annots, 0)
    else ApplyFrom(t, annots, 0)
  }

  /** Annotation a covers a non-empty part of a text of length n. */
  predicate Covers(a: Annot, n: nat) {
    a.start < a.end <= n
  }

  /** Without an annotation covering part of the text, the scan copies it. */
  lemma {:induction false} ApplyFromUntouched(t: string, annots: seq<Annot>, i: nat)
    requires i <= |t|
    requires forall k :: 0 <= k < |annots| ==> !Covers(annots[k], |t|)
    ensures ApplyFrom(t, annots, i) == t[i..]
    decreases |t| - i
  {
    if i < |t| {
      assert forall k :: 0 <= k < |annots| ==> !StartsAt(annots[k], i, |t|);
      ApplyFromCopy(t, annots, i);
      ApplyFromUntouched(t, annots, i + 1);
      assert t[i..] == [t[i]] + t[i + 1..];
    }
  }

  // ---------------------------------------------------------------------------
  // One page: search every needle, annotate every hit, apply once
  // ---------------------------------------------------------------------------

  /** One annotation per hit, in hit order. */
  function HitAnnots(hits: seq<nat>, len: nat, replacement: string): (r: seq<Annot>)
    ensures |r| == |hits|
    ensures forall k :: 0 <= k < |hits| ==> r[k] == Annot(hits[k], hits[k] + len, replacement)
  {
    if hits == [] then []
    else HitAnnots(hits[..|hits| - 1], len, replacement) + [Annot(hits[|hits| - 1], hits[|hits| - 1] + len, replacement)]
  }

  /** The annotations added to page text t for the (needle, replacement)
      pairs, pair by pair; every search runs on the unmodified text. */
  function PairAnnots(t: string, pairs: seq<(string, string)>): seq<Annot> {
    if pairs == [] then []
    else
      var last := pairs[|pairs| - 1];
      PairAnnots(t, pairs[..|pairs| - 1]) + HitAnnots(FindAll(t, last.0), |last.0|, last.1)
  }

  /** The page text after searching every needle and applying the redactions. */
  function Substitute(t: string, pairs: seq<(string, string)>): string {
    Apply(t, PairAnnots(t, pairs))
  }

  /** Every annotation stands for a found occurrence of one pair's needle and
      carries that pair's replacement. */
  lemma {:induction false} PairAnnotsSound(t: string, pairs: seq<(string, string)>, a: Annot)
    requires a in PairAnnots(t, pairs)
    ensures exists j :: (0 <= j < |pairs| && a.replacement == pairs[j].1
                         && a.end == a.start + |pairs[j].0| && OccursAt(t, pairs[j].0, a.start))
    decreases |pairs|
  {
    var init := pairs[..|pairs| - 1];
    var last := pairs[|pairs| - 1];
    if a in PairAnnots(t, init) {
      PairAnnotsSound(t, init, a);
      var j :| 0 <= j < |init| && a.replacement == init[j].1
        && a.end == a.start + |init[j].0| && OccursAt(t, init[j].0, a.start);
      assert pairs[j] == init[j];
    } else {
      var hits := FindAll(t, last.0);
      var k :| 0 <= k < |hits| && HitAnnots(hits, |last.0|, last.1)[k] == a;
      assert OccursAt(t, pairs[|pairs| - 1].0, a.start);
    }
  }

  /** Every found occurrence of every needle gets its annotation. */
  lemma {:induction false} PairAnnotsComplete(t: string, pairs: seq<(string, string)>, j: nat, h: nat)
    requires j < |pairs| && h in FindAll(t, pairs[j].0)
    ensures Annot(h, h + |pairs[j].0|, pairs[j].1) in PairAnnots(t, pairs)
    decreases |pairs|
  {
    var init := pairs[..|pairs| - 1];
    var last := pairs[|pairs| - 1];
    var tail := HitAnnots(FindAll(t, last.0), |last.0|, last.1);
    assert PairAnnots(t, pairs) == PairAnnots(t, init) + tail;
    var a := Annot(h, h + |pairs[j].0|, pairs[j].1);
    if j < |pairs| - 1 {
      assert init[j] == pairs[j];
      PairAnnotsComplete(t, init, j, h);
      assert a in PairAnnots(t, init);
    } else {
      assert last == pairs[j];
      var hits := FindAll(t, last.0);
      var k :| 0 <= k < |hits| && hits[k] == h;
      assert tail[k] == a;
      assert a in tail;
    }
  }

  // ---------------------------------------------------------------------------
  // One pair: the same text as `str.replace`
  // ---------------------------------------------------------------------------

  /** The first annotation starting at i is the one at index b. */
  lemma FirstAtIs(annots: seq<Annot>, b: nat, i: nat, n: nat)
    requires b < |annots| && StartsAt(annots[b], i, n)
    requires forall k :: 0 <= k < b ==> annots[k].start != i
    ensures FirstAt(annots, i, n) == Some(b)
  {
  }

  /** No annotation starts at i. */
  lemma FirstAtNone(annots: seq<Annot>, i: nat, n: nat)
    requires forall k :: 0 <= k < |annots| ==> annots[k].start != i
    ensures FirstAt(annots, i, n).None?
  {
  }

  /** `str.replace` where the text starts with the needle. */
  lemma ReplaceHit(s: string, v: string, m: string)
    requires |v| > 0 && Strings.StartsWith(s, v)
    ensures Strings.Replace(s, v, m) == m + Strings.Replace(s[|v|..], v, m)
  {
  }

  /** `str.replace` where the text does not start with the needle. */
  lemma ReplaceMiss(s: string, v: string, m: string)
    requires |v| > 0 && s != [] && !Strings.StartsWith(s, v)
    ensures Strings.Replace(s, v, m) == [s[0]] + Strings.Replace(s[1..], v, m)
  {
  }

  /** At a hit, the hit is the next one, and the search resumes after it. */
  lemma ScanHitIndex(t: string, v: string, hits: seq<nat>, b: nat, i: nat)
    requires |v| > 0 && i + |v| <= |t| && t[i..i + |v|] == v
    requires b <= |hits| && hits[b..] == FindAllFrom(t, v, i)
    ensures b < |hits| && hits[b] == i && hits[b + 1..] == FindAllFrom(t, v, i + |v|)
  {
    assert hits[b..] == [i] + FindAllFrom(t, v, i + |v|);
    assert hits[b] == hits[b..][0];
    assert hits[b + 1..] == hits[b..][1..];
  }

  /** annots[k] is the annotation of hits[k]: the needle's span there and
      the replacement m. */
  predicate AnnotatesHits(annots: seq<Annot>, hits: seq<nat>, n: nat, m: string) {
    |annots| == |hits| && forall k :: 0 <= k < |hits| ==> annots[k] == Annot(hits[k], hits[k] + n, m)
  }

  /** A scan step at a hit: the hit's annotation is the first one starting
      there, and `str.replace` writes the replacement at the same place. */
  lemma ScanHit(t: string, v: string, m: string, annots: seq<Annot>, hits: seq<nat>, b: nat, i: nat)
    requires |v| > 0 && i + |v| <= |t| && t[i..i + |v|] == v
    requires AnnotatesHits(annots, hits, |v|, m)
    requires b < |hits| && hits[b] == i
    requires forall k :: 0 <= k < b ==> hits[k] < i
    ensures ApplyFrom(t, annots, i) == m + ApplyFrom(t, annots, i + |v|)
    ensures Strings.Replace(t[i..], v, m) == m + Strings.Replace(t[i + |v|..], v, m)
  {
    assert forall k :: 0 <= k < b ==> annots[k].start < i;
    ApplyAtFirst(t, annots, b, i, |v|, m);
    ReplaceAt(t, v, m, i);
  }

  /** The scan at an annotation that no earlier-added one competes with. */
  lemma ApplyAtFirst(t: string, annots: seq<Annot>, b: nat, i: nat, n: nat, m: string)
    requires 0 < n && i + n <= |t| && b < |annots| && annots[b] == Annot(i, i + n, m)
    requires forall k :: 0 <= k < b ==> annots[k].start < i
    ensures ApplyFrom(t, annots, i) == m + ApplyFrom(t, annots, i + n)
  {
    FirstAtIs(annots, b, i, |t|);
    ApplyFromAt(t, annots, i, b, i + n, m);
  }

  /** `str.replace` on the text from a place where the needle occurs. */
  lemma ReplaceAt(t: string, v: string, m: string, i: nat)
    requires |v| > 0 && i + |v| <= |t| && t[i..i + |v|] == v
    ensures Strings.Replace(t[i..], v, m) == m + Strings.Replace(t[i + |v|..], v, m)
  {
    assert t[i..][..|v|] == v;
    ReplaceHit(t[i..], v, m);
    assert t[i..][|v|..] == t[i + |v|..];
  }

  /** Where the needle does not occur, no hit from index b on is there. */
  lemma ScanMissIndex(t: string, v: string, hits: seq<nat>, b: nat, i: nat)
    requires |v| > 0 && i < |t| && !(i + |v| <= |t| && t[i..i + |v|] == v)
    requires b <= |hits| && hits[b..] == FindAllFrom(t, v, i)
    ensures hits[b..] == FindAllFrom(t, v, i + 1)
    ensures forall k :: b <= k < |hits| ==> hits[k] != i
  {
    var rest := FindAllFrom(t, v, i);
    assert rest == FindAllFrom(t, v, i + 1);
    assert forall k :: b <= k < |hits| ==> hits[k] == rest[k - b];
  }

  /** A scan step where no hit starts: both copy the character. */
  lemma ScanMiss(t: string, v: string, m: string, annots: seq<Annot>, hits: seq<nat>, i: nat)
    requires |v| > 0 && i < |t| && !(i + |v| <= |t| && t[i..i + |v|] == v)
    requires AnnotatesHits(annots, hits, |v|, m)
    requires forall k :: 0 <= k < |hits| ==> hits[k] != i
    ensures ApplyFrom(t, annots, i) == [t[i]] + ApplyFrom(t, annots, i + 1)
    ensures Strings.Replace(t[i..], v, m) == [t[i]] + Strings.Replace(t[i + 1..], v, m)
  {
    assert forall k :: 0 <= k < |annots| ==> annots[k].start != i;
    FirstAtNone(annots, i, |t|);
    ApplyFromCopy(t, annots, i);
    ReplaceMiss(t[i..], v, m);
    assert t[i..][1..] == t[i + 1..];
  }

  /** The scan and `str.replace` both end with the text. */
  lemma ScanEnd(t: string, v: string, m: string, annots: seq<Annot>)
    requires |v| > 0
    ensures ApplyFrom(t, annots, |t|) == Strings.Replace(t[|t|..], v, m) == []
  {
    assert t[|t|..] == [];
  }

  /** When the hits from index b on are the search from position i, and the
      earlier ones lie before i, the scan of `apply_redactions` over the
      hits' annotations from i agrees with `str.replace` on the rest of the
      text. */
  lemma {:induction false} ScanAgrees(t: string, v: string, m: string, annots: seq<Annot>, hits: seq<nat>, b: nat, i: nat)
    requires |v| > 0 && i <= |t|
    requires AnnotatesHits(annots, hits, |v|, m)
    requires b <= |hits| && hits[b..] == FindAllFrom(t, v, i)
    requires forall k :: 0 <= k < b ==> hits[k] < i
    ensures ApplyFrom(t, annots, i) == Strings.Replace(t[i..], v, m)
    decreases |t| - i
  {
    if i == |t| {
      ScanEnd(t, v, m, annots);
    } else if i + |v| <= |t| && t[i..i + |v|] == v {
      ScanHitIndex(t, v, hits, b, i);
      ScanAgrees(t, v, m, annots, hits, b + 1, i + |v|);
      ScanHit(t, v, m, annots, hits, b, i);
    } else {
      ScanMissIndex(t, v, hits, b, i);
      ScanMiss(t, v, m, annots, hits, i);
      ScanAgrees(t, v, m, annots, hits, b, i + 1);
    }
  }

  /** Searching one non-empty needle and applying the redactions is Python's
      `t.replace(v, m)`: every occurrence is replaced, leftmost first. */
  lemma SubstituteOneIsReplace(t: string, v: string, m: string)
    requires |v| > 0
    ensures Substitute(t, [(v, m)]) == Strings.Replace(t, v, m)
  {
    assert [(v, m)][..0] == [];
    var hits := FindAll(t, v);
    var annots := HitAnnots(hits, |v|, m);
    assert PairAnnots(t, [(v, m)]) == annots;
    ScanAgrees(t, v, m, annots, hits, 0, 0);
    assert t[0..] == t;
  }

  // ---------------------------------------------------------------------------
  // Reversibility of a substitution
  // ---------------------------------------------------------------------------

  /** A placeholder marker: '[' first, ']' last, and no bracket in between. */
  predicate WellFormedMarker(m: string) {
    |m| >= 2 && m[0] == '[' && m[|m| - 1] == ']'
    && forall k :: 0 < k < |m| - 1 ==> m[k] != '[' && m[k] != ']'
  }

  /** The conditions under which replacing needles by markers can be undone
      by replacing the markers by the needles: the page has no '[', every
      replacement is a well-formed marker and no two markers are equal. */
  predicate Reversible(t: string, pairs: seq<(string, string)>) {
    && (forall k :: 0 <= k < |t| ==> t[k] != '[')
    && AllMarkers(pairs)
    && MarkersDistinct(pairs)
  }

  /** The pairs read backwards: marker to needle. */
  function Swap(pairs: seq<(string, string)>): (r: seq<(string, string)>)
    ensures |r| == |pairs|
    ensures forall j :: 0 <= j < |pairs| ==> r[j] == (pairs[j].1, pairs[j].0)
  {
    seq(|pairs|, j requires 0 <= j < |pairs| => (pairs[j].1, pairs[j].0))
  }

  /** Two well-formed markers that both start a text are the same marker. */
  lemma MarkersAligned(m1: string, m2: string, s: string)
    requires WellFormedMarker(m1) && WellFormedMarker(m2)
    requires |m1| <= |s| && s[..|m1|] == m1 && |m2| <= |s| && s[..|m2|] == m2
    ensures m1 == m2
  {
    assert |m1| <= |m2| ==> m2[|m1| - 1] == s[|m1| - 1] == m1[|m1| - 1];
    assert |m2| <= |m1| ==> m1[|m2| - 1] == s[|m2| - 1] == m2[|m2| - 1];
    assert |m1| == |m2|;
  }

  /** Where a text has no '[', no marker annotation starts. */
  lemma NoMarkerAt(r: string, markerPairs: seq<(string, string)>, q: nat)
    requires q < |r| && r[q] != '['
    requires forall j :: 0 <= j < |markerPairs| ==> WellFormedMarker(markerPairs[j].0)
    ensures FirstAt(PairAnnots(r, markerPairs), q, |r|).None?
  {
    var b := PairAnnots(r, markerPairs);
    forall k | 0 <= k < |b| ensures !StartsAt(b[k], q, |r|) {
      PairAnnotsSound(r, markerPairs, b[k]);
    }
  }

  predicate MarkersDistinct(pairs: seq<(string, string)>) {
    forall l, l' :: 0 <= l < l' < |pairs| ==> pairs[l].1 != pairs[l'].1
  }

  predicate AllMarkers(pairs: seq<(string, string)>) {
    forall l :: 0 <= l < |pairs| ==> WellFormedMarker(pairs[l].1)
  }

  /** Where the marker of pair j occurs, the restoring pass annotates it. */
  lemma MarkerAnnotated(r: string, pairs: seq<(string, string)>, j: nat, q: nat)
    requires j < |pairs| && WellFormedMarker(pairs[j].1) && OccursAt(r, pairs[j].1, q)
    ensures Annot(q, q + |pairs[j].1|, pairs[j].0) in PairAnnots(r, Swap(pairs))
  {
    var swapped := Swap(pairs);
    assert swapped[j] == (pairs[j].1, pairs[j].0);
    FindAllFromComplete(r, pairs[j].1, 0, q);
    PairAnnotsComplete(r, swapped, j, q);
  }

  /** An annotation starting at q makes FirstAt find one. */
  lemma FirstAtFinds(b: seq<Annot>, a: Annot, q: nat, n: nat)
    requires a in b && StartsAt(a, q, n)
    ensures FirstAt(b, q, n).Some?
  {
    var idx :| 0 <= idx < |b| && b[idx] == a;
  }

  /** The only marker annotation that can start where the marker of pair j
      occurs is the one for pair j. */
  lemma MarkerAnnotUnique(r: string, pairs: seq<(string, string)>, j: nat, q: nat, c: Annot)
    requires AllMarkers(pairs) && MarkersDistinct(pairs)
    requires j < |pairs| && OccursAt(r, pairs[j].1, q)
    requires c in PairAnnots(r, Swap(pairs)) && c.start == q
    ensures c == Annot(q, q + |pairs[j].1|, pairs[j].0)
  {
    var swapped := Swap(pairs);
    PairAnnotsSound(r, swapped, c);
    var l :| 0 <= l < |swapped| && c.replacement == swapped[l].1
      && c.end == c.start + |swapped[l].0| && OccursAt(r, swapped[l].0, c.start);
    assert swapped[l] == (pairs[l].1, pairs[l].0);
    MarkerIndexUnique(r, pairs, l, j, q);
  }

  /** At most one pair's marker occurs at a given place. */
  lemma MarkerIndexUnique(r: string, pairs: seq<(string, string)>, l: nat, j: nat, q: nat)
    requires AllMarkers(pairs) && MarkersDistinct(pairs)
    requires l < |pairs| && j < |pairs|
    requires OccursAt(r, pairs[l].1, q) && OccursAt(r, pairs[j].1, q)
    ensures l == j
  {
    var ml, mj := pairs[l].1, pairs[j].1;
    var s := r[q..];
    assert s[..|ml|] == ml;
    assert s[..|mj|] == mj;
    MarkersAligned(ml, mj, s);
  }

  /** Where the marker of pair j starts, the restoring scan writes back the
      needle of pair j and skips the marker. */
  lemma MarkerRestoredAt(r: string, pairs: seq<(string, string)>, j: nat, q: nat)
    requires AllMarkers(pairs) && MarkersDistinct(pairs)
    requires j < |pairs| && OccursAt(r, pairs[j].1, q)
    ensures FirstAt(PairAnnots(r, Swap(pairs)), q, |r|).Some?
    ensures var b := PairAnnots(r, Swap(pairs));
      b[FirstAt(b, q, |r|).value] == Annot(q, q + |pairs[j].1|, pairs[j].0)
  {
    var b := PairAnnots(r, Swap(pairs));
    MarkerAnnotated(r, pairs, j, q);
    FirstAtFinds(b, Annot(q, q + |pairs[j].1|, pairs[j].0), q, |r|);
    var k := FirstAt(b, q, |r|).value;
    MarkerAnnotUnique(r, pairs, j, q, b[k]);
  }

  /** Where the redacting scan wrote a marker for position i, the restoring
      scan writes back the needle it replaced. */
  lemma RestoreMarker(t: string, pairs: seq<(string, string)>, r: string, i: nat, q: nat, k: nat)
      returns (e: nat, q2: nat)
    requires Reversible(t, pairs) && i < |t| && q <= |r|
    requires FirstAt(PairAnnots(t, pairs), i, |t|) == Some(k)
    requires r[q..] == ApplyFrom(t, PairAnnots(t, pairs), i)
    ensures i < e <= |t| && q2 <= |r|
    ensures r[q2..] == ApplyFrom(t, PairAnnots(t, pairs), e)
    ensures ApplyFrom(r, PairAnnots(r, Swap(pairs)), q) == t[i..e] + ApplyFrom(r, PairAnnots(r, Swap(pairs)), q2)
  {
    var a := PairAnnots(t, pairs);
    var j := AnnotOrigin(t, pairs, a[k]);
    var m := pairs[j].1;
    e := a[k].end;
    ApplyFromAnnot(t, a, i, k);
    q2 := q + |m|;
    MarkerPrefix(r, q, m, ApplyFrom(t, a, e));
    MarkerRestoredAt(r, pairs, j, q);
    var b := PairAnnots(r, Swap(pairs));
    var k2 := FirstAt(b, q, |r|).value;
    ApplyFromAnnot(r, b, q, k2);
  }

  /** PairAnnotsSound with the pair named. */
  lemma AnnotOrigin(t: string, pairs: seq<(string, string)>, a: Annot) returns (j: nat)
    requires a in PairAnnots(t, pairs)
    ensures j < |pairs| && a == Annot(a.start, a.start + |pairs[j].0|, pairs[j].1)
    ensures OccursAt(t, pairs[j].0, a.start) && t[a.start..a.end] == pairs[j].0
  {
    PairAnnotsSound(t, pairs, a);
    j :| 0 <= j < |pairs| && a.replacement == pairs[j].1
      && a.end == a.start + |pairs[j].0| && OccursAt(t, pairs[j].0, a.start);
  }

  lemma MarkerPrefix(r: string, q: nat, m: string, rest: string)
    requires q <= |r| && r[q..] == m + rest
    ensures q + |m| <= |r| && OccursAt(r, m, q) && r[q + |m|..] == rest
  {
    assert r[q..q + |m|] == r[q..][..|m|];
    assert r[q + |m|..] == r[q..][|m|..];
  }

  /** Where the redacting scan copied the character at position i, so does
      the restoring scan. */
  lemma RestorePlain(t: string, pairs: seq<(string, string)>, r: string, i: nat, q: nat)
    requires Reversible(t, pairs) && i < |t| && q <= |r|
    requires FirstAt(PairAnnots(t, pairs), i, |t|).None?
    requires r[q..] == ApplyFrom(t, PairAnnots(t, pairs), i)
    ensures q < |r| && r[q + 1..] == ApplyFrom(t, PairAnnots(t, pairs), i + 1)
    ensures ApplyFrom(r, PairAnnots(r, Swap(pairs)), q) == t[i..i + 1] + ApplyFrom(r, PairAnnots(r, Swap(pairs)), q + 1)
  {
    var a := PairAnnots(t, pairs);
    ApplyFromCopy(t, a, i);
    assert r[q..] == [t[i]] + ApplyFrom(t, a, i + 1);
    assert r[q] == r[q..][0] == t[i];
    assert r[q + 1..] == r[q..][1..];
    forall l | 0 <= l < |pairs| ensures WellFormedMarker(Swap(pairs)[l].0) {
      assert Swap(pairs)[l].0 == pairs[l].1;
    }
    NoMarkerAt(r, Swap(pairs), q);
    ApplyFromCopy(r, PairAnnots(r, Swap(pairs)), q);
    assert t[i..i + 1] == [t[i]];
  }

  /** The restoring scan, started where the redacting scan wrote the text of
      position i, reproduces the original text from i on. */
  lemma {:induction false} RestoreScan(t: string, pairs: seq<(string, string)>, r: string, i: nat, q: nat)
    requires Reversible(t, pairs)
    requires i <= |t| && q <= |r| && r[q..] == ApplyFrom(t, PairAnnots(t, pairs), i)
    ensures ApplyFrom(r, PairAnnots(r, Swap(pairs)), q) == t[i..]
    decreases |t| - i
  {
    if i == |t| {
      assert q == |r|;
    } else {
      var e, q2;
      match FirstAt(PairAnnots(t, pairs), i, |t|) {
        case Some(k) =>
          e, q2 := RestoreMarker(t, pairs, r, i, q, k);
        case None =>
          RestorePlain(t, pairs, r, i, q);
          e, q2 := i + 1, q + 1;
      }
      RestoreScan(t, pairs, r, e, q2);
      SliceSplit(t, i, e);
    }
  }

  /** Substituting markers for needles and then needles for markers gives the
      original page back. */
  lemma SubstituteRoundTrip(t: string, pairs: seq<(string, string)>)
    requires Reversible(t, pairs)
    ensures Substitute(Substitute(t, pairs), Swap(pairs)) == t
  {
    var r := Substitute(t, pairs);
    RestoreScan(t, pairs, r, 0, 0);
  }
}
