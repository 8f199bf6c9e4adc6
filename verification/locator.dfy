/** `get_data` of anc_cli/utils.py: finds the OCR words that near-match a field label
    and collects every word whose upper-left point lies in the band the label's
    polygon defines, with the words before and after it in scan order. */
module Locator {
  import opened Wrappers
  import opened Strings
  import opened Geometry
  import opened Fuzzy

  /** One entry of `textAnnotations`: a description and its bounding polygon. */
  datatype Annotation = Annotation(description: string, poly: Quad)

  /** One Vision response; entry 0 of its annotations is the whole-page text. Vision
      omits `textAnnotations` for an image in which it finds no text. */
  datatype Response = Response(textAnnotations: Option<seq<Annotation>>)

  /** One page as the pipeline stores it: the Vision reply plus its page number and
      the file it came from. */
  datatype Form = Form(responses: seq<Response>, page: int, filename: string)

  /** One result dictionary of get_data. */
  datatype Entry = Entry(value: string, key: string, page: int, filename: string,
                         nextWord: string, priorWord: string)

  /** A label annotation index paired with a candidate annotation index. */
  datatype Hit = Hit(keyAt: nat, candidate: nat)

  /** For every annotation, how many near matches
      `find_near_matches(field.lower(), description.lower(), max_l_dist=difference)`
      reports. */
  function MatchCounts(anns: seq<Annotation>, field: string, difference: nat,
                       near: NearMatcher): (r: seq<nat>)
    ensures |r| == |anns|
    ensures forall i :: 0 <= i < |anns| ==>
      r[i] == near(LowerStr(field), LowerStr(anns[i].description), difference)
  {
    if |anns| == 0 then []
    else
      var last := near(LowerStr(field), LowerStr(anns[|anns| - 1].description), difference);
      MatchCounts(anns[..|anns| - 1], field, difference, near) + [last]
  }

  /** Annotation j's upper-left point passes the band test of label annotation i. */
  predicate Qualifies(anns: seq<Annotation>, i: nat, j: nat)
    requires i < |anns| && j < |anns|
  {
    InLabelBand(anns[i].poly, anns[j].poly.v0)
  }

  /** The candidates, from index j on, that lie in label i's band, in scan order. */
  function BandHits(anns: seq<Annotation>, i: nat, j: nat): (r: seq<Hit>)
    requires i < |anns|
    ensures forall h :: h in r ==>
      h.keyAt == i && j <= h.candidate < |anns| && Qualifies(anns, i, h.candidate)
    decreases |anns| - j
  {
    if j >= |anns| then []
    else (if Qualifies(anns, i, j) then [Hit(i, j)] else []) + BandHits(anns, i, j + 1)
  }

  /** The hits of r come in increasing candidate order. */
  predicate Increasing(r: seq<Hit>) {
    forall m, n :: 0 <= m < n < |r| ==> r[m].candidate < r[n].candidate
  }

  /** The band list is in increasing candidate order, as the scan over the words is. */
  lemma {:induction false} BandHitsIncreasing(anns: seq<Annotation>, i: nat, j: nat)
    requires i < |anns|
    ensures Increasing(BandHits(anns, i, j))
    decreases |anns| - j
  {
    if j < |anns| {
      BandHitsIncreasing(anns, i, j + 1);
      var rest := BandHits(anns, i, j + 1);
      var r := BandHits(anns, i, j);
      if Qualifies(anns, i, j) {
        assert r == [Hit(i, j)] + rest;
        forall m, n | 0 <= m < n < |r|
          ensures r[m].candidate < r[n].candidate
        {
          assert r[n] == rest[n - 1] && rest[n - 1] in rest;
          if m > 0 {
            assert r[m] == rest[m - 1];
          }
        }
      } else {
        assert r == [] + rest;
      }
    } else {
      assert BandHits(anns, i, j) == [];
    }
  }

  /** n copies of s, one after the other. */
  function Repeat<T>(n: nat, s: seq<T>): (r: seq<T>)
    ensures |r| == n * |s|
    ensures forall x :: x in r ==> x in s
  {
    if n == 0 then [] else s + Repeat(n - 1, s)
  }

  /** The hits of labels i, i+1, ...: every near match inside label i re-appends
      label i's whole candidate list. Every hit pairs a near-matching label with an
      in-band candidate, neither of them annotation 0. */
  function HitsFrom(anns: seq<Annotation>, counts: seq<nat>, i: nat): (r: seq<Hit>)
    requires |counts| == |anns| && i >= 1
    ensures forall h :: h in r ==>
      && i <= h.keyAt < |anns| && 1 <= h.candidate < |anns|
      && Qualifies(anns, h.keyAt, h.candidate) && counts[h.keyAt] > 0
    decreases |anns| - i
  {
    if i >= |anns| then []
    else Repeat(counts[i], BandHits(anns, i, 1)) + HitsFrom(anns, counts, i + 1)
  }

  /** All hits of get_data, label index by label index (annotation 0 skipped). */
  function Hits(anns: seq<Annotation>, field: string, difference: nat, near: NearMatcher)
    : seq<Hit>
  {
    HitsFrom(anns, MatchCounts(anns, field, difference, near), 1)
  }

  /** `form['responses'][0]['textAnnotations']` exists. */
  predicate Readable(form: Form) {
    |form.responses| > 0 && form.responses[0].textAnnotations.Some?
  }

  /** The annotation list get_data reads: that of the form's first response. */
  function Annotations(form: Form): seq<Annotation>
    requires Readable(form)
  {
    form.responses[0].textAnnotations.value
  }

  /** The result dictionary for one hit. */
  function EntryOf(form: Form, h: Hit): Entry
    requires Readable(form)
    requires 1 <= h.candidate < |Annotations(form)| && h.keyAt < |Annotations(form)|
  {
    var anns := Annotations(form);
    Entry(anns[h.candidate].description, anns[h.keyAt].description, form.page, form.filename,
          if h.candidate + 1 < |anns| then anns[h.candidate + 1].description else "",
          anns[h.candidate - 1].description)
  }

  /** `get_data(form, field, difference)`. Each entry pairs a label annotation (not
      annotation 0) that near-matches the field with a candidate annotation (not
      annotation 0) in that label's band; the prior word is the annotation before the
      candidate (annotation 0 for candidate 1), the next word the one after it or ""
      for the last; page and filename are the form's. */
  function GetData(form: Form, field: string, difference: nat, near: NearMatcher)
    : (r: seq<Entry>)
    requires Readable(form)
    ensures var anns := Annotations(form);
      var hits := Hits(anns, field, difference, near);
      && |r| == |hits|
      && forall k :: 0 <= k < |r| ==>
        && 1 <= hits[k].keyAt < |anns| && 1 <= hits[k].candidate < |anns|
        && near(LowerStr(field), LowerStr(anns[hits[k].keyAt].description), difference) > 0
        && InLabelBand(anns[hits[k].keyAt].poly, anns[hits[k].candidate].poly.v0)
        && r[k].key == anns[hits[k].keyAt].description
        && r[k].value == anns[hits[k].candidate].description
        && r[k].priorWord == anns[hits[k].candidate - 1].description
        && r[k].nextWord == (if hits[k].candidate + 1 < |anns|
                             then anns[hits[k].candidate + 1].description else "")
        && r[k].page == form.page && r[k].filename == form.filename
  {
    var anns := Annotations(form);
    var hits := Hits(anns, field, difference, near);
    assert forall k :: 0 <= k < |hits| ==> hits[k] in hits;
    seq(|hits|, k requires 0 <= k < |hits| => EntryOf(form, hits[k]))
  }

  // Order.

  /** The hits of r come label by label. */
  predicate LabelOrdered(r: seq<Hit>) {
    forall m, n :: 0 <= m < n < |r| ==> r[m].keyAt <= r[n].keyAt
  }

  lemma OrderedAppend(a: seq<Hit>, b: seq<Hit>, i: nat)
    requires forall h :: h in a ==> h.keyAt == i
    requires forall h :: h in b ==> h.keyAt > i
    requires LabelOrdered(b)
    ensures LabelOrdered(a + b)
  {
    var r := a + b;
    forall m, n | 0 <= m < n < |r|
      ensures r[m].keyAt <= r[n].keyAt
    {
      if n < |a| {
        assert r[m] == a[m] && r[n] == a[n];
        assert a[m] in a && a[n] in a;
      } else if m < |a| {
        assert r[m] == a[m] && r[n] == b[n - |a|];
        assert a[m] in a && b[n - |a|] in b;
      } else {
        assert r[m] == b[m - |a|] && r[n] == b[n - |a|];
      }
    }
  }

  /** The hits of labels i, i+1, ... come label by label. */
  lemma {:induction false} HitsFromOrdered(anns: seq<Annotation>, counts: seq<nat>, i: nat)
    requires |counts| == |anns| && i >= 1
    ensures LabelOrdered(HitsFrom(anns, counts, i))
    decreases |anns| - i
  {
    if i < |anns| {
      HitsFromOrdered(anns, counts, i + 1);
      var own := Repeat(counts[i], BandHits(anns, i, 1));
      var rest := HitsFrom(anns, counts, i + 1);
      assert HitsFrom(anns, counts, i) == own + rest;
      OrderedAppend(own, rest, i);
    } else {
      assert HitsFrom(anns, counts, i) == [];
    }
  }

  /** Results follow the label order of the annotations. */
  lemma GetDataLabelOrder(form: Form, field: string, difference: nat, near: NearMatcher)
    requires Readable(form)
    ensures var hits := Hits(Annotations(form), field, difference, near);
      forall m, n :: 0 <= m < n < |hits| ==> hits[m].keyAt <= hits[n].keyAt
  {
    var anns := Annotations(form);
    assert Hits(anns, field, difference, near) ==
      HitsFrom(anns, MatchCounts(anns, field, difference, near), 1);
    HitsFromOrdered(anns, MatchCounts(anns, field, difference, near), 1);
  }

  /** The hits of label l, in their order in r. */
  function OfLabel(r: seq<Hit>, l: nat): seq<Hit>
    decreases |r|
  {
    if |r| == 0 then [] else (if r[0].keyAt == l then [r[0]] else []) + OfLabel(r[1..], l)
  }

  lemma {:induction false} OfLabelAppend(a: seq<Hit>, b: seq<Hit>, l: nat)
    ensures OfLabel(a + b, l) == OfLabel(a, l) + OfLabel(b, l)
    decreases |a|
  {
    if |a| == 0 {
      assert a + b == b;
    } else {
      OfLabelAppend(a[1..], b, l);
      var head: seq<Hit> := if a[0].keyAt == l then [a[0]] else [];
      assert (a + b)[1..] == a[1..] + b && (a + b)[0] == a[0];
      assert OfLabel(a + b, l) == head + OfLabel(a[1..] + b, l);
      assert OfLabel(a, l) == head + OfLabel(a[1..], l);
      assert head + (OfLabel(a[1..], l) + OfLabel(b, l)) == (head + OfLabel(a[1..], l)) + OfLabel(b, l);
    }
  }

  lemma {:induction false} OfLabelAll(a: seq<Hit>, l: nat)
    requires forall h :: h in a ==> h.keyAt == l
    ensures OfLabel(a, l) == a
    decreases |a|
  {
    if |a| > 0 {
      assert a[0] in a;
      assert forall h :: h in a[1..] ==> h in a;
      OfLabelAll(a[1..], l);
    }
  }

  lemma {:induction false} OfLabelNone(a: seq<Hit>, l: nat)
    requires forall h :: h in a ==> h.keyAt != l
    ensures OfLabel(a, l) == []
    decreases |a|
  {
    if |a| > 0 {
      assert a[0] in a;
      assert forall h :: h in a[1..] ==> h in a;
      OfLabelNone(a[1..], l);
    }
  }

  lemma {:induction false} HitsOfLabel(anns: seq<Annotation>, counts: seq<nat>, i: nat, l: nat)
    requires |counts| == |anns| && i >= 1
    ensures OfLabel(HitsFrom(anns, counts, i), l) ==
      (if i <= l < |anns| then Repeat(counts[l], BandHits(anns, l, 1)) else [])
    decreases |anns| - i
  {
    if i >= |anns| {
      assert HitsFrom(anns, counts, i) == [];
    } else {
      HitsOfLabel(anns, counts, i + 1, l);
      HitsOfLabelStep(anns, counts, i, l);
    }
  }

  lemma HitsFromCons(anns: seq<Annotation>, counts: seq<nat>, i: nat)
    requires |counts| == |anns| && 1 <= i < |anns|
    ensures HitsFrom(anns, counts, i)
      == Repeat(counts[i], BandHits(anns, i, 1)) + HitsFrom(anns, counts, i + 1)
  {
  }

  /** Label i's block followed by the hits of the later labels. */
  lemma HitsOfLabelStep(anns: seq<Annotation>, counts: seq<nat>, i: nat, l: nat)
    requires |counts| == |anns| && 1 <= i < |anns|
    requires OfLabel(HitsFrom(anns, counts, i + 1), l) ==
      (if i + 1 <= l < |anns| then Repeat(counts[l], BandHits(anns, l, 1)) else [])
    ensures OfLabel(HitsFrom(anns, counts, i), l) ==
      (if i <= l < |anns| then Repeat(counts[l], BandHits(anns, l, 1)) else [])
  {
    var own := Repeat(counts[i], BandHits(anns, i, 1));
    var rest := HitsFrom(anns, counts, i + 1);
    HitsFromCons(anns, counts, i);
    OfLabelBlock(own, rest, i, l);
    if l == i {
      assert own + [] == own;
    }
  }

  /** A block of label i's hits contributes itself to label i and nothing to the
      other labels. */
  lemma OfLabelBlock(own: seq<Hit>, rest: seq<Hit>, i: nat, l: nat)
    requires forall h :: h in own ==> h.keyAt == i
    ensures OfLabel(own + rest, l) == if l == i then own + OfLabel(rest, l) else OfLabel(rest, l)
  {
    OfLabelAppend(own, rest, l);
    if l == i {
      OfLabelAll(own, l);
    } else {
      OfLabelNone(own, l);
      assert [] + OfLabel(rest, l) == OfLabel(rest, l);
    }
  }

  /** Within one label the results come near match by near match, and each near match
      lists the label's in-band candidates in increasing annotation order: the hits of
      label l are its band list repeated once per near match. Together with
      GetDataLabelOrder this fixes the order of the results completely. */
  lemma GetDataWithinLabel(anns: seq<Annotation>, field: string, difference: nat,
                           near: NearMatcher, l: nat)
    ensures 1 <= l < |anns| ==>
      OfLabel(Hits(anns, field, difference, near), l) ==
      Repeat(near(LowerStr(field), LowerStr(anns[l].description), difference), BandHits(anns, l, 1))
    ensures !(1 <= l < |anns|) ==> OfLabel(Hits(anns, field, difference, near), l) == []
    ensures l < |anns| ==> Increasing(BandHits(anns, l, 1))
  {
    if l < |anns| {
      BandHitsIncreasing(anns, l, 1);
    }
    HitsOfLabel(anns, MatchCounts(anns, field, difference, near), 1, l);
  }

  // Multiplicities.

  /** How many times x occurs in s. */
  function Count<T(==)>(s: seq<T>, x: T): nat
    decreases |s|
  {
    if |s| == 0 then 0 else (if s[0] == x then 1 else 0) + Count(s[1..], x)
  }

  lemma {:induction false} CountAppend<T>(a: seq<T>, b: seq<T>, x: T)
    ensures Count(a + b, x) == Count(a, x) + Count(b, x)
    decreases |a|
  {
    if |a| > 0 {
      CountAppend(a[1..], b, x);
      assert (a + b)[1..] == a[1..] + b;
    } else {
      assert a + b == b;
    }
  }

  lemma {:induction false} CountPositive<T>(s: seq<T>, x: T)
    ensures x in s <==> Count(s, x) > 0
    decreases |s|
  {
    if |s| > 0 {
      CountPositive(s[1..], x);
      assert s == [s[0]] + s[1..];
    }
  }

  lemma {:induction false} BandMultiplicity(anns: seq<Annotation>, i: nat, j: nat, h: Hit)
    requires i < |anns|
    ensures Count(BandHits(anns, i, j), h) ==
      (if h.keyAt == i && j <= h.candidate < |anns| && Qualifies(anns, i, h.candidate) then 1 else 0)
    decreases |anns| - j
  {
    if j < |anns| {
      var rest := BandHits(anns, i, j + 1);
      BandMultiplicity(anns, i, j + 1, h);
      var pre: seq<Hit> := if Qualifies(anns, i, j) then [Hit(i, j)] else [];
      assert BandHits(anns, i, j) == pre + rest;
      CountAppend(pre, rest, h);
      var c := if h == Hit(i, j) && Qualifies(anns, i, j) then 1 else 0;
      assert Count(pre, h) == c by {
        if Qualifies(anns, i, j) {
          assert pre[1..] == [];
        }
      }
    } else {
      assert BandHits(anns, i, j) == [];
    }
  }

  lemma {:induction false} RepeatMultiplicity<T>(n: nat, s: seq<T>, x: T)
    ensures Count(Repeat(n, s), x) == n * Count(s, x)
  {
    if n > 0 {
      RepeatMultiplicity(n - 1, s, x);
      CountAppend(s, Repeat(n - 1, s), x);
      assert n * Count(s, x) == Count(s, x) + (n - 1) * Count(s, x);
    }
  }

  lemma {:induction false} HitsFromMultiplicity(anns: seq<Annotation>, counts: seq<nat>, i: nat,
                                                h: Hit)
    requires |counts| == |anns| && i >= 1
    ensures Count(HitsFrom(anns, counts, i), h) ==
      (if i <= h.keyAt < |anns| && 1 <= h.candidate < |anns| && Qualifies(anns, h.keyAt, h.candidate)
       then counts[h.keyAt] else 0)
    decreases |anns| - i
  {
    if i < |anns| {
      var rest := HitsFrom(anns, counts, i + 1);
      var own := Repeat(counts[i], BandHits(anns, i, 1));
      HitsFromMultiplicity(anns, counts, i + 1, h);
      assert HitsFrom(anns, counts, i) == own + rest;
      CountAppend(own, rest, h);
      OwnMultiplicity(anns, counts, i, h);
    } else {
      assert HitsFrom(anns, counts, i) == [];
    }
  }

  /** In label i's own block a hit occurs once per near match of the label when it is
      one of the label's in-band candidates. */
  lemma OwnMultiplicity(anns: seq<Annotation>, counts: seq<nat>, i: nat, h: Hit)
    requires |counts| == |anns| && 1 <= i < |anns|
    ensures Count(Repeat(counts[i], BandHits(anns, i, 1)), h) ==
      (if h.keyAt == i && 1 <= h.candidate < |anns| && Qualifies(anns, i, h.candidate)
       then counts[i] else 0)
  {
    var band := BandHits(anns, i, 1);
    RepeatMultiplicity(counts[i], band, h);
    BandMultiplicity(anns, i, 1, h);
    if h.keyAt == i && 1 <= h.candidate < |anns| && Qualifies(anns, i, h.candidate) {
      assert Count(band, h) == 1;
    } else {
      assert Count(band, h) == 0;
    }
  }

  /** Each (label, candidate) pair occurs in the results once per near match inside the
      label when the candidate is in the label's band, and not at all otherwise;
      annotation 0 is never a label nor a candidate. */
  lemma HitMultiplicity(anns: seq<Annotation>, field: string, difference: nat,
                        near: NearMatcher, i: nat, j: nat)
    ensures Count(Hits(anns, field, difference, near), Hit(i, j)) ==
      (if 1 <= i < |anns| && 1 <= j < |anns| && Qualifies(anns, i, j)
       then near(LowerStr(field), LowerStr(anns[i].description), difference) else 0)
  {
    HitsFromMultiplicity(anns, MatchCounts(anns, field, difference, near), 1, Hit(i, j));
  }

  /** A label whose upper-left corner is not right of its lower-right corner, or not
      below its lower-left corner, is never returned as its own value. */
  lemma LabelNeverOwnValue(anns: seq<Annotation>, field: string, difference: nat,
                           near: NearMatcher, i: nat)
    requires i < |anns|
    requires anns[i].poly.v0.x <= anns[i].poly.v2.x || anns[i].poly.v0.y <= anns[i].poly.v1.y
    ensures Hit(i, i) !in Hits(anns, field, difference, near)
  {
    HitMultiplicity(anns, field, difference, near, i, i);
    LabelNotInOwnBand(anns[i].poly);
    CountPositive(Hits(anns, field, difference, near), Hit(i, i));
  }

  // Result count.

  /** The candidates j..|anns|-1 in label i's band, as a set of indices. */
  function BandSet(anns: seq<Annotation>, i: nat, j: nat): set<nat>
    requires i < |anns|
  {
    set c: nat | j <= c < |anns| && Qualifies(anns, i, c)
  }

  lemma {:induction false} BandHitsSize(anns: seq<Annotation>, i: nat, j: nat)
    requires i < |anns|
    ensures |BandHits(anns, i, j)| == |BandSet(anns, i, j)|
    decreases |anns| - j
  {
    if j >= |anns| {
      assert BandSet(anns, i, j) == {};
    } else {
      BandHitsSize(anns, i, j + 1);
      if Qualifies(anns, i, j) {
        assert BandSet(anns, i, j) == {j} + BandSet(anns, i, j + 1);
      } else {
        assert BandSet(anns, i, j) == BandSet(anns, i, j + 1);
      }
    }
  }

  /** Σ over labels i.. of (near matches in the label) × (words in its band). */
  function ExpectedCount(anns: seq<Annotation>, counts: seq<nat>, i: nat): nat
    requires |counts| == |anns|
    decreases |anns| - i
  {
    if i >= |anns| then 0
    else counts[i] * |BandSet(anns, i, 1)| + ExpectedCount(anns, counts, i + 1)
  }

  lemma {:induction false} HitsFromCount(anns: seq<Annotation>, counts: seq<nat>, i: nat)
    requires |counts| == |anns| && i >= 1
    ensures |HitsFrom(anns, counts, i)| == ExpectedCount(anns, counts, i)
    decreases |anns| - i
  {
    if i < |anns| {
      HitsFromCount(anns, counts, i + 1);
      BandHitsSize(anns, i, 1);
    }
  }

  /** get_data returns, summed over the label annotations after annotation 0, the
      number of near matches in the label times the number of words in its band. */
  lemma GetDataCount(form: Form, field: string, difference: nat, near: NearMatcher)
    requires Readable(form)
    ensures var anns := Annotations(form);
      |GetData(form, field, difference, near)| ==
      ExpectedCount(anns, MatchCounts(anns, field, difference, near), 1)
  {
    var anns := Annotations(form);
    HitsFromCount(anns, MatchCounts(anns, field, difference, near), 1);
  }
}
