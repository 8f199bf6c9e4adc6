/** The pure steps of the `process` command of anc_cli/main.py: the term filter, the
    selection of pages, the pairing of token and span place matches into records, and
    the aggregation of records into one row per file.

    The spaCy pipeline and the spaczz FuzzyMatcher are not reimplemented: a matcher is a
    parameter that maps a text to the tuples `matcher(nlp(text))` reports. */
module Matching {
  import opened Wrappers
  import opened Strings
  import opened Fuzzy
  import opened Locator

  /** One `(match_id, start, end, ratio)` tuple of a spaczz FuzzyMatcher. */
  datatype MatchTuple = MatchTuple(matchId: string, start: int, end: int, ratio: int)

  /** `matcher(nlp(text))`. */
  type SpanMatcher = string -> seq<MatchTuple>

  /** One element of `output`: the keys match_term, match_name, filename and page. */
  datatype Record = Record(matchTerm: string, matchName: string, filename: string, page: int)

  // Term filter.

  /** `[match_id for match_id, start, end, ratio in matches if ratio > match_ratio]`. */
  function TermsFound(matches: seq<MatchTuple>, matchRatio: int): (r: seq<string>)
    ensures |r| <= |matches|
    ensures forall k :: 0 <= k < |matches| && matches[k].ratio > matchRatio ==>
      matches[k].matchId in r
    ensures forall id :: id in r ==>
      exists k :: 0 <= k < |matches| && matches[k].ratio > matchRatio && matches[k].matchId == id
    ensures r == [] <==> forall k :: 0 <= k < |matches| ==> matches[k].ratio <= matchRatio
    decreases |matches|
  {
    if |matches| == 0 then []
    else
      var rest := TermsFound(matches[1..], matchRatio);
      assert forall k :: 1 <= k < |matches| ==> matches[k] == matches[1..][k - 1];
      (if matches[0].ratio > matchRatio then [matches[0].matchId] else []) + rest
  }

  // Page selection.

  /** The response's whole-page text (annotation 0) has a term match above the ratio. */
  predicate ResponseHasTerms(resp: Response, termMatcher: SpanMatcher, matchRatio: int) {
    resp.textAnnotations.Some? && |resp.textAnnotations.value| > 0
    && TermsFound(termMatcher(resp.textAnnotations.value[0].description), matchRatio) != []
  }

  /** The number of annotations of a response; none when the key is absent. */
  function AnnotationCount(resp: Response): nat {
    match resp.textAnnotations
    case None => 0
    case Some(anns) => |anns|
  }

  /** Every response of every page carries `textAnnotations`: the loop over
      `response['textAnnotations']` raises KeyError at the first that does not. */
  predicate Annotated(data: seq<Form>) {
    forall p, q :: 0 <= p < |data| && 0 <= q < |data[p].responses| ==>
      data[p].responses[q].textAnnotations.Some?
  }

  /** The numbers lo, lo+1, ..., hi-1. */
  function Range(lo: nat, hi: nat): (r: seq<nat>)
    ensures forall i: int :: i in r <==> lo <= i < hi
    decreases hi - lo
  {
    if lo >= hi then [] else [lo] + Range(lo + 1, hi)
  }

  /** What one response appends to `doc_w_term`: the index of every annotation, when
      its annotation 0 has terms. */
  function ResponseIndices(resp: Response, termMatcher: SpanMatcher, matchRatio: int)
    : (r: seq<nat>)
    ensures forall i: int :: i in r <==>
      ResponseHasTerms(resp, termMatcher, matchRatio) && 0 <= i < AnnotationCount(resp)
  {
    if ResponseHasTerms(resp, termMatcher, matchRatio)
    then Range(0, AnnotationCount(resp)) else []
  }

  function PageIndices(responses: seq<Response>, termMatcher: SpanMatcher, matchRatio: int)
    : seq<nat>
    decreases |responses|
  {
    if |responses| == 0 then []
    else
      ResponseIndices(responses[0], termMatcher, matchRatio)
      + PageIndices(responses[1..], termMatcher, matchRatio)
  }

  /** `doc_w_term` after the loop over every response of every page. */
  function DocWithTerm(data: seq<Form>, termMatcher: SpanMatcher, matchRatio: int)
    : seq<nat>
    decreases |data|
  {
    if |data| == 0 then []
    else
      PageIndices(data[0].responses, termMatcher, matchRatio)
      + DocWithTerm(data[1..], termMatcher, matchRatio)
  }

  /** Some response of the page has terms and at least i + 1 annotations. */
  predicate Covers(form: Form, termMatcher: SpanMatcher, matchRatio: int, i: nat) {
    exists q :: 0 <= q < |form.responses| && CoversAt(form, termMatcher, matchRatio, q, i)
  }

  predicate CoversAt(form: Form, termMatcher: SpanMatcher, matchRatio: int, q: int, i: nat)
    requires 0 <= q < |form.responses|
  {
    ResponseHasTerms(form.responses[q], termMatcher, matchRatio)
    && i < AnnotationCount(form.responses[q])
  }

  lemma {:induction false} PageIndicesMembers(form: Form, termMatcher: SpanMatcher,
                                              matchRatio: int, j: nat, i: nat)
    requires j <= |form.responses|
    ensures i in PageIndices(form.responses[j..], termMatcher, matchRatio) <==>
      exists q :: j <= q < |form.responses| && CoversAt(form, termMatcher, matchRatio, q, i)
    decreases |form.responses| - j
  {
    var rs := form.responses[j..];
    if j < |form.responses| {
      PageIndicesMembers(form, termMatcher, matchRatio, j + 1, i);
      assert rs[1..] == form.responses[j + 1..];
      assert rs[0] == form.responses[j];
      assert PageIndices(rs, termMatcher, matchRatio) ==
        ResponseIndices(form.responses[j], termMatcher, matchRatio)
        + PageIndices(form.responses[j + 1..], termMatcher, matchRatio);
      var own := ResponseIndices(form.responses[j], termMatcher, matchRatio);
      assert i in own <==> CoversAt(form, termMatcher, matchRatio, j, i);
      if exists q :: j <= q < |form.responses| && CoversAt(form, termMatcher, matchRatio, q, i) {
        var q :| j <= q < |form.responses| && CoversAt(form, termMatcher, matchRatio, q, i);
        if q > j {
          assert j + 1 <= q < |form.responses| && CoversAt(form, termMatcher, matchRatio, q, i);
        }
      }
    } else {
      assert rs == [];
    }
  }

  /** An index is in `doc_w_term` exactly when some response of some page has terms
      and more annotations than the index. */
  lemma {:induction false} DocWithTermMembers(data: seq<Form>, termMatcher: SpanMatcher,
                                              matchRatio: int, i: nat)
    ensures i in DocWithTerm(data, termMatcher, matchRatio) <==>
      exists p :: 0 <= p < |data| && Covers(data[p], termMatcher, matchRatio, i)
    decreases |data|
  {
    if |data| > 0 {
      var rest := data[1..];
      DocWithTermMembers(rest, termMatcher, matchRatio, i);
      PageIndicesMembers(data[0], termMatcher, matchRatio, 0, i);
      assert data[0].responses[0..] == data[0].responses;
      assert forall p :: 1 <= p < |data| ==> data[p] == rest[p - 1];
      assert DocWithTerm(data, termMatcher, matchRatio) ==
        PageIndices(data[0].responses, termMatcher, matchRatio)
        + DocWithTerm(rest, termMatcher, matchRatio);
      if exists p :: 0 <= p < |rest| && Covers(rest[p], termMatcher, matchRatio, i) {
        var p :| 0 <= p < |rest| && Covers(rest[p], termMatcher, matchRatio, i);
        assert data[p + 1] == rest[p];
      }
    }
  }

  /** `[i for i, d in enumerate(data) if i in doc_w_term]`, from page j on. */
  function SelectedFrom(data: seq<Form>, docWithTerm: seq<nat>, j: nat): (r: seq<nat>)
    ensures forall p :: p in r <==> j <= p < |data| && p in docWithTerm
    ensures forall k :: 0 <= k < |r| ==> j <= r[k] < |data|
    ensures forall m, n :: 0 <= m < n < |r| ==> r[m] < r[n]
    decreases |data| - j
  {
    if j >= |data| then []
    else
      var rest := SelectedFrom(data, docWithTerm, j + 1);
      (if j in docWithTerm then [j] else []) + rest
  }

  /** The pages the second loop of `process` visits, in page order. */
  function SelectedPages(data: seq<Form>, termMatcher: SpanMatcher, matchRatio: int)
    : seq<nat>
  {
    SelectedFrom(data, DocWithTerm(data, termMatcher, matchRatio), 0)
  }

  /** Page p is visited exactly when some response of some page (not necessarily p)
      has terms and more than p annotations: page indices are compared with annotation
      indices. */
  lemma PageSelectionAsWritten(data: seq<Form>, termMatcher: SpanMatcher, matchRatio: int,
                               p: nat)
    ensures p in SelectedPages(data, termMatcher, matchRatio) <==>
      p < |data| && exists p' :: 0 <= p' < |data| && Covers(data[p'], termMatcher, matchRatio, p)
  {
    DocWithTermMembers(data, termMatcher, matchRatio, p);
  }

  /** Page p has a response whose whole-page text has terms. */
  predicate PageHasTerms(form: Form, termMatcher: SpanMatcher, matchRatio: int) {
    exists q | 0 <= q < |form.responses| :: ResponseHasTerms(form.responses[q], termMatcher, matchRatio)
  }

  /** The pages with terms, from page j on, in page order: the selection the loops
      evidently aim at. */
  function PagesWithTerms(data: seq<Form>, termMatcher: SpanMatcher, matchRatio: int, j: nat)
    : (r: seq<nat>)
    ensures forall p :: p in r <==> j <= p < |data| && PageHasTerms(data[p], termMatcher, matchRatio)
    ensures forall k :: 0 <= k < |r| ==> j <= r[k] < |data|
    ensures forall m, n :: 0 <= m < n < |r| ==> r[m] < r[n]
    decreases |data| - j
  {
    if j >= |data| then []
    else
      var rest := PagesWithTerms(data, termMatcher, matchRatio, j + 1);
      (if PageHasTerms(data[j], termMatcher, matchRatio) then [j] else []) + rest
  }

  /** A term matcher that finds a term in the text "x" only. */
  function OnlyX(text: string): seq<MatchTuple> {
    if text == "x" then [MatchTuple("TERM", 0, 1, 100)] else []
  }

  /** Three one-word pages; only the last has a term. Vision lists each page's
      whole text and then its word, so every page has two annotations. */
  function ThreePages(): seq<Form> {
    var box := Geometry.Quad(Geometry.Vertex(0, 0), Geometry.Vertex(0, 0),
                             Geometry.Vertex(0, 0), Geometry.Vertex(0, 0));
    [Form([Response(Some([Annotation("a", box), Annotation("a", box)]))], 0, "f.pdf"),
     Form([Response(Some([Annotation("b", box), Annotation("b", box)]))], 1, "f.pdf"),
     Form([Response(Some([Annotation("x", box), Annotation("x", box)]))], 2, "f.pdf")]
  }

  /** `doc_w_term` for the pages above: the two annotation indices of page 2. */
  lemma ThreePagesDocWithTerm()
    ensures DocWithTerm(ThreePages(), OnlyX, 50) == [0, 1]
  {
    var data := ThreePages();
    OneWordPageIndices(data[0], "a");
    OneWordPageIndices(data[1], "b");
    OneWordPageIndices(data[2], "x");
    DocWithTermOfThree(data, OnlyX, 50);
    assert [] + [] + [0, 1] == [0, 1];
  }

  /** A page whose one response lists a word twice, as vision lists a one-word page,
      contributes its two indices when the word is "x" and nothing otherwise. */
  lemma OneWordPageIndices(form: Form, w: string)
    requires |form.responses| == 1 && form.responses[0].textAnnotations.Some?
    requires var anns := form.responses[0].textAnnotations.value;
      |anns| == 2 && anns[0].description == w
    ensures PageIndices(form.responses, OnlyX, 50) == if w == "x" then [0, 1] else []
  {
    SingleResponseIndices(form, OnlyX, 50);
    var resp := form.responses[0];
    assert AnnotationCount(resp) == 2;
    if w == "x" {
      var m := OnlyX(w);
      assert m == [MatchTuple("TERM", 0, 1, 100)] && m[0].ratio > 50;
      assert ResponseHasTerms(resp, OnlyX, 50);
      assert Range(2, 2) == [] && Range(1, 2) == [1] && Range(0, 2) == [0, 1];
    } else {
      assert OnlyX(w) == [];
    }
  }

  /** A page with one response appends that response's indices. */
  lemma SingleResponseIndices(form: Form, termMatcher: SpanMatcher, matchRatio: int)
    requires |form.responses| == 1
    ensures PageIndices(form.responses, termMatcher, matchRatio) ==
      ResponseIndices(form.responses[0], termMatcher, matchRatio)
  {
    assert form.responses[1..] == [];
    assert PageIndices(form.responses[1..], termMatcher, matchRatio) == [];
  }

  /** `doc_w_term` of three pages is their indices, page after page. */
  lemma DocWithTermOfThree(data: seq<Form>, termMatcher: SpanMatcher, matchRatio: int)
    requires |data| == 3
    ensures DocWithTerm(data, termMatcher, matchRatio) ==
      PageIndices(data[0].responses, termMatcher, matchRatio)
      + PageIndices(data[1].responses, termMatcher, matchRatio)
      + PageIndices(data[2].responses, termMatcher, matchRatio)
  {
    var a := PageIndices(data[0].responses, termMatcher, matchRatio);
    var b := PageIndices(data[1].responses, termMatcher, matchRatio);
    var c := PageIndices(data[2].responses, termMatcher, matchRatio);
    var d1 := data[1..];
    var d2 := d1[1..];
    assert DocWithTerm(d2, termMatcher, matchRatio) == c by {
      DocWithTermCons(d2, termMatcher, matchRatio);
      assert d2[0] == data[2] && |d2[1..]| == 0;
      assert c + [] == c;
    }
    assert DocWithTerm(d1, termMatcher, matchRatio) == b + c by {
      DocWithTermCons(d1, termMatcher, matchRatio);
      assert d1[0] == data[1];
    }
    DocWithTermCons(data, termMatcher, matchRatio);
    assert a + (b + c) == a + b + c;
  }

  /** `doc_w_term` of a non-empty list is the first page's indices followed by the rest's. */
  lemma DocWithTermCons(data: seq<Form>, termMatcher: SpanMatcher, matchRatio: int)
    requires |data| > 0
    ensures DocWithTerm(data, termMatcher, matchRatio) ==
      PageIndices(data[0].responses, termMatcher, matchRatio)
      + DocWithTerm(data[1..], termMatcher, matchRatio)
  {
  }

  /** The pages above with terms: page 2 only. */
  lemma ThreePagesWithTerms()
    ensures PagesWithTerms(ThreePages(), OnlyX, 50, 0) == [2]
  {
    var data := ThreePages();
    assert !PageHasTerms(data[0], OnlyX, 50) by {
      assert !ResponseHasTerms(data[0].responses[0], OnlyX, 50);
    }
    assert !PageHasTerms(data[1], OnlyX, 50) by {
      assert !ResponseHasTerms(data[1].responses[0], OnlyX, 50);
    }
    assert PageHasTerms(data[2], OnlyX, 50) by {
      assert ResponseHasTerms(data[2].responses[0], OnlyX, 50);
    }
    assert PagesWithTerms(data, OnlyX, 50, 3) == [];
    assert PagesWithTerms(data, OnlyX, 50, 2) == [2];
    assert PagesWithTerms(data, OnlyX, 50, 1) == [2];
  }

  /** With the pages above, the two pages without terms are processed and the page
      with the term is not: `doc_w_term` holds the annotation indices 0 and 1 of page
      2, and those are read as page numbers. */
  lemma SelectionMissesTermPage()
    ensures SelectedPages(ThreePages(), OnlyX, 50) == [0, 1]
    ensures PagesWithTerms(ThreePages(), OnlyX, 50, 0) == [2]
  {
    var data := ThreePages();
    ThreePagesDocWithTerm();
    ThreePagesWithTerms();
    SelectFirstTwo(data);
    assert SelectedPages(data, OnlyX, 50) == SelectedFrom(data, [0, 1], 0);
  }

  /** Of three pages, the indices 0 and 1 select the first two. */
  lemma SelectFirstTwo(data: seq<Form>)
    requires |data| == 3
    ensures SelectedFrom(data, [0, 1], 0) == [0, 1]
  {
    var d: seq<nat> := [0, 1];
    assert 0 in d && 1 in d && 2 !in d;
    var s3 := SelectedFrom(data, d, 3);
    assert s3 == [];
    var s2 := SelectedFrom(data, d, 2);
    assert s2 == [] + s3;
    var s1 := SelectedFrom(data, d, 1);
    assert s1 == [1] + s2;
    assert SelectedFrom(data, d, 0) == [0] + s1;
  }

  // Token/span disambiguation.

  /** `match_id.split("_")[0]`: the kind of place, municipio or departamento: the text
      before the first `_`, or all of it when there is none. */
  function Category(matchId: string): (r: string)
    ensures |r| <= |matchId| && matchId[..|r|] == r && '_' !in r
    ensures |r| == |matchId| || matchId[|r|] == '_'
  {
    SplitFirst(matchId, '_');
    Split(matchId, '_')[0]
  }

  /** `match_id.split("_")[1]`: the place name, the text after the first `_` up to the
      second `_` or the end. */
  function PlaceName(matchId: string): (r: string)
    requires '_' in matchId
    ensures var n := |Category(matchId)|;
      && n + 1 + |r| <= |matchId| && matchId[n] == '_'
      && matchId[n + 1..n + 1 + |r|] == r && '_' !in r
      && (n + 1 + |r| == |matchId| || matchId[n + 1 + |r|] == '_')
  {
    SplitSecond(matchId, '_');
    Split(matchId, '_')[1]
  }

  /** `name.title().replace('Del', 'del')`. */
  function Normalize(name: string): (r: string)
    ensures |r| == |name|
    ensures !Contains(r, "Del")
    ensures forall k :: 0 <= k < |name| ==>
      r[k] == (if DelAt(Title(name), k) then 'd' else Title(name)[k])
  {
    ReplaceDelPointwise(Title(name));
    NoDelAfterReplace(Title(name));
    ReplaceAll(Title(name), "Del", "del")
  }

  /** The pair of matches gives a record: either ratio is above the threshold. */
  predicate Accepted(token: MatchTuple, span: MatchTuple, matchRatio: int) {
    token.ratio > matchRatio || span.ratio > matchRatio
  }

  /** The record of an accepted pair. Name and term come from the span match when both
      matches name the same kind of place, from the token match otherwise; either way
      the term is the token's kind, title-cased. */
  function PairRecord(token: MatchTuple, span: MatchTuple, e: Entry): (r: Record)
    requires '_' in token.matchId && '_' in span.matchId
    ensures r.matchTerm == Title(Category(token.matchId))
    ensures r.matchName == Normalize(PlaceName(
      if Category(span.matchId) == Category(token.matchId) then span.matchId else token.matchId))
    ensures !Contains(r.matchName, "Del")
    ensures r.filename == e.filename && r.page == e.page
  {
    var tokenTerm := Category(token.matchId);
    var spanTerm := Category(span.matchId);
    if spanTerm == tokenTerm then
      Record(Title(spanTerm), Normalize(PlaceName(span.matchId)), e.filename, e.page)
    else
      Record(Title(tokenTerm), Normalize(PlaceName(token.matchId)), e.filename, e.page)
  }

  /** Every label carries a `_` after its kind, as `'municipio_' + name` and
      `'departamento_' + name` do. */
  predicate AllLabelled(ms: seq<MatchTuple>) {
    forall k :: 0 <= k < |ms| ==> '_' in ms[k].matchId
  }

  /** The loop over `zip(token_matches, span_matches)`. */
  function Disambiguate(tokens: seq<MatchTuple>, spans: seq<MatchTuple>, e: Entry,
                        matchRatio: int): (r: seq<Record>)
    requires AllLabelled(tokens) && AllLabelled(spans)
    ensures |r| <= |tokens| && |r| <= |spans|
    ensures forall k :: 0 <= k < |tokens| && k < |spans| && Accepted(tokens[k], spans[k], matchRatio) ==>
      PairRecord(tokens[k], spans[k], e) in r
    ensures forall x :: x in r ==>
      exists k :: (0 <= k < |tokens| && k < |spans| && Accepted(tokens[k], spans[k], matchRatio)
                   && x == PairRecord(tokens[k], spans[k], e))
    decreases |tokens|
  {
    if |tokens| == 0 || |spans| == 0 then []
    else
      LabelledSuffix(tokens, 1);
      LabelledSuffix(spans, 1);
      var rest := Disambiguate(tokens[1..], spans[1..], e, matchRatio);
      var head := if Accepted(tokens[0], spans[0], matchRatio)
                  then [PairRecord(tokens[0], spans[0], e)] else [];
      DisambiguateCons(tokens, spans, e, matchRatio, rest);
      head + rest
  }

  /** The first pair's record, if accepted, followed by the records of the other
      pairs, gives a record for exactly the accepted pairs. */
  lemma DisambiguateCons(tokens: seq<MatchTuple>, spans: seq<MatchTuple>, e: Entry,
                         matchRatio: int, rest: seq<Record>)
    requires AllLabelled(tokens) && AllLabelled(spans) && |tokens| > 0 && |spans| > 0
    requires AllLabelled(tokens[1..]) && AllLabelled(spans[1..])
    requires |rest| <= |tokens| - 1 && |rest| <= |spans| - 1
    requires forall k :: 0 <= k < |tokens| - 1 && k < |spans| - 1 ==>
      Accepted(tokens[1..][k], spans[1..][k], matchRatio) ==>
      PairRecord(tokens[1..][k], spans[1..][k], e) in rest
    requires forall x :: x in rest ==>
      exists k :: (0 <= k < |tokens| - 1 && k < |spans| - 1
                   && Accepted(tokens[1..][k], spans[1..][k], matchRatio)
                   && x == PairRecord(tokens[1..][k], spans[1..][k], e))
    ensures var r := (if Accepted(tokens[0], spans[0], matchRatio)
                      then [PairRecord(tokens[0], spans[0], e)] else []) + rest;
      && |r| <= |tokens| && |r| <= |spans|
      && (forall k :: 0 <= k < |tokens| && k < |spans| && Accepted(tokens[k], spans[k], matchRatio) ==>
            PairRecord(tokens[k], spans[k], e) in r)
      && (forall x :: x in r ==>
            exists k :: (0 <= k < |tokens| && k < |spans| && Accepted(tokens[k], spans[k], matchRatio)
                         && x == PairRecord(tokens[k], spans[k], e)))
  {
    assert forall k :: 1 <= k < |tokens| ==> tokens[k] == tokens[1..][k - 1];
    assert forall k :: 1 <= k < |spans| ==> spans[k] == spans[1..][k - 1];
  }

  /** The number of accepted pairs among the first min(|tokens|, |spans|). */
  function AcceptedCount(tokens: seq<MatchTuple>, spans: seq<MatchTuple>, matchRatio: int): nat
    decreases |tokens|
  {
    if |tokens| == 0 || |spans| == 0 then 0
    else
      var rest := AcceptedCount(tokens[1..], spans[1..], matchRatio);
      (if Accepted(tokens[0], spans[0], matchRatio) then 1 else 0) + rest
  }

  /** One record per accepted pair: pairs past the shorter list and pairs with both
      ratios at or below the threshold give none. */
  lemma {:induction false} DisambiguateCount(tokens: seq<MatchTuple>, spans: seq<MatchTuple>,
                                             e: Entry, matchRatio: int)
    requires AllLabelled(tokens) && AllLabelled(spans)
    ensures |Disambiguate(tokens, spans, e, matchRatio)| == AcceptedCount(tokens, spans, matchRatio)
    decreases |tokens|
  {
    if |tokens| > 0 && |spans| > 0 {
      DisambiguateCount(tokens[1..], spans[1..], e, matchRatio);
      assert AllLabelled(tokens[1..]) && AllLabelled(spans[1..]);
    }
  }

  /** The indices from i on, below both lengths, whose pair is accepted, in
      increasing order. */
  function AcceptedFrom(tokens: seq<MatchTuple>, spans: seq<MatchTuple>, matchRatio: int,
                        i: nat): (ks: seq<nat>)
    ensures forall k :: k in ks <==>
      i <= k < |tokens| && k < |spans| && Accepted(tokens[k], spans[k], matchRatio)
    ensures forall a :: 0 <= a < |ks| ==> i <= ks[a]
    ensures forall a, b :: 0 <= a < b < |ks| ==> ks[a] < ks[b]
    decreases |tokens| - i
  {
    if i >= |tokens| || i >= |spans| then []
    else
      (if Accepted(tokens[i], spans[i], matchRatio) then [i] else [])
      + AcceptedFrom(tokens, spans, matchRatio, i + 1)
  }

  /** The labels of a suffix are labels of the whole list. */
  lemma LabelledSuffix(ms: seq<MatchTuple>, i: nat)
    requires AllLabelled(ms) && i <= |ms|
    ensures AllLabelled(ms[i..])
  {
    assert forall k :: 0 <= k < |ms| - i ==> ms[i..][k] == ms[i + k];
  }

  /** One step of the zip, taken at index i. */
  lemma DisambiguateStep(tokens: seq<MatchTuple>, spans: seq<MatchTuple>, e: Entry,
                         matchRatio: int, i: nat)
    requires AllLabelled(tokens) && AllLabelled(spans)
    requires i < |tokens| && i < |spans|
    ensures AllLabelled(tokens[i..]) && AllLabelled(spans[i..])
    ensures AllLabelled(tokens[i + 1..]) && AllLabelled(spans[i + 1..])
    ensures Disambiguate(tokens[i..], spans[i..], e, matchRatio)
      == (if Accepted(tokens[i], spans[i], matchRatio)
          then [PairRecord(tokens[i], spans[i], e)] else [])
         + Disambiguate(tokens[i + 1..], spans[i + 1..], e, matchRatio)
  {
    LabelledSuffix(tokens, i);
    LabelledSuffix(spans, i);
    LabelledSuffix(tokens, i + 1);
    LabelledSuffix(spans, i + 1);
    assert tokens[i..][1..] == tokens[i + 1..] && spans[i..][1..] == spans[i + 1..];
    assert tokens[i..][0] == tokens[i] && spans[i..][0] == spans[i];
  }

  /** r has one record per index in ks: record a is the record of the token and span
      pair at index ks[a]. */
  predicate RecordsAt(r: seq<Record>, ks: seq<nat>, tokens: seq<MatchTuple>,
                      spans: seq<MatchTuple>, e: Entry)
    requires AllLabelled(tokens) && AllLabelled(spans)
  {
    && |r| == |ks|
    && forall a :: 0 <= a < |ks| ==>
         ks[a] < |tokens| && ks[a] < |spans| && r[a] == PairRecord(tokens[ks[a]], spans[ks[a]], e)
  }

  lemma RecordsAtCons(rest: seq<Record>, restKs: seq<nat>, tokens: seq<MatchTuple>,
                      spans: seq<MatchTuple>, e: Entry, i: nat)
    requires AllLabelled(tokens) && AllLabelled(spans)
    requires i < |tokens| && i < |spans|
    requires RecordsAt(rest, restKs, tokens, spans, e)
    ensures RecordsAt([PairRecord(tokens[i], spans[i], e)] + rest, [i] + restKs, tokens, spans, e)
  {
    var r, ks := [PairRecord(tokens[i], spans[i], e)] + rest, [i] + restKs;
    forall a | 0 <= a < |ks|
      ensures ks[a] < |tokens| && ks[a] < |spans| && r[a] == PairRecord(tokens[ks[a]], spans[ks[a]], e)
    {
      if a > 0 {
        assert r[a] == rest[a - 1] && ks[a] == restKs[a - 1];
      }
    }
  }

  /** Disambiguate over the pairs from index i on gives one record per accepted pair,
      in pair order. */
  lemma {:induction false} DisambiguateFrom(tokens: seq<MatchTuple>, spans: seq<MatchTuple>,
                                            e: Entry, matchRatio: int, i: nat)
    requires AllLabelled(tokens) && AllLabelled(spans)
    requires i <= |tokens| && i <= |spans|
    ensures AllLabelled(tokens[i..]) && AllLabelled(spans[i..])
    ensures RecordsAt(Disambiguate(tokens[i..], spans[i..], e, matchRatio),
                      AcceptedFrom(tokens, spans, matchRatio, i), tokens, spans, e)
    decreases |tokens| - i
  {
    LabelledSuffix(tokens, i);
    LabelledSuffix(spans, i);
    if i < |tokens| && i < |spans| {
      DisambiguateFrom(tokens, spans, e, matchRatio, i + 1);
      DisambiguateStep(tokens, spans, e, matchRatio, i);
      var rest := Disambiguate(tokens[i + 1..], spans[i + 1..], e, matchRatio);
      var restKs := AcceptedFrom(tokens, spans, matchRatio, i + 1);
      if Accepted(tokens[i], spans[i], matchRatio) {
        RecordsAtCons(rest, restKs, tokens, spans, e, i);
      } else {
        assert [] + rest == rest;
      }
    }
  }

  /** The records come in the order of the pairs: record a is the record of the a-th
      accepted pair, and the accepted pairs are exactly those with either ratio above
      the threshold. */
  lemma DisambiguateOrder(tokens: seq<MatchTuple>, spans: seq<MatchTuple>, e: Entry,
                          matchRatio: int)
    requires AllLabelled(tokens) && AllLabelled(spans)
    ensures var r := Disambiguate(tokens, spans, e, matchRatio);
      var ks := AcceptedFrom(tokens, spans, matchRatio, 0);
      && |r| == |ks|
      && forall a :: 0 <= a < |ks| ==>
           ks[a] < |tokens| && ks[a] < |spans| && r[a] == PairRecord(tokens[ks[a]], spans[ks[a]], e)
  {
    DisambiguateFrom(tokens, spans, e, matchRatio, 0);
    assert tokens[0..] == tokens && spans[0..] == spans;
  }

  /** Every label a place matcher reports carries a `_`. */
  ghost predicate Labelled(place: SpanMatcher) {
    forall text, k :: 0 <= k < |place(text)| ==> '_' in place(text)[k].matchId
  }

  /** The text the span matcher reads: prior word, value and next word. */
  function SpanText(e: Entry): string {
    e.priorWord + " " + e.value + " " + e.nextWord
  }

  /** The records of one get_data result. */
  function EntryRecords(e: Entry, place: SpanMatcher, matchRatio: int): seq<Record>
    requires Labelled(place)
  {
    Disambiguate(place(e.value), place(SpanText(e)), e, matchRatio)
  }

  /** Pair j of the token and span place matches of result e is accepted and gives x. */
  predicate Produces(e: Entry, j: nat, place: SpanMatcher, matchRatio: int, x: Record)
    requires Labelled(place)
  {
    var tokens, spans := place(e.value), place(SpanText(e));
    && j < |tokens| && j < |spans| && Accepted(tokens[j], spans[j], matchRatio)
    && x == PairRecord(tokens[j], spans[j], e)
  }

  /** A result gives exactly the records of its accepted pairs. */
  lemma EntryRecordsMembers(e: Entry, place: SpanMatcher, matchRatio: int, x: Record)
    requires Labelled(place)
    ensures x in EntryRecords(e, place, matchRatio) <==> exists j :: Produces(e, j, place, matchRatio, x)
  {
    var tokens, spans := place(e.value), place(SpanText(e));
    if x in EntryRecords(e, place, matchRatio) {
      var j :| 0 <= j < |tokens| && j < |spans| && Accepted(tokens[j], spans[j], matchRatio)
        && x == PairRecord(tokens[j], spans[j], e);
      assert Produces(e, j, place, matchRatio, x);
    }
  }

  /** A get_data result to its records. */
  function EntryRecordsOf(place: SpanMatcher, matchRatio: int): (f: Entry -> seq<Record>)
    requires Labelled(place)
    ensures forall e :: f(e) == EntryRecords(e, place, matchRatio)
  {
    e => EntryRecords(e, place, matchRatio)
  }

  /** The records of each get_data result, in result order. */
  function PerEntry(es: seq<Entry>, place: SpanMatcher, matchRatio: int): (r: seq<seq<Record>>)
    requires Labelled(place)
    ensures |r| == |es| && forall k :: 0 <= k < |es| ==> r[k] == EntryRecords(es[k], place, matchRatio)
  {
    MapSeq(es, EntryRecordsOf(place, matchRatio))
  }

  /** The records of a list of get_data results, result by result. */
  function EntriesRecords(es: seq<Entry>, place: SpanMatcher, matchRatio: int): (r: seq<Record>)
    requires Labelled(place)
    ensures |es| == 1 ==> r == EntryRecords(es[0], place, matchRatio)
    ensures forall x :: x in r ==> !Contains(x.matchName, "Del")
    ensures forall x :: x in r ==>
      exists k :: 0 <= k < |es| && x.filename == es[k].filename && x.page == es[k].page
  {
    var pieces := PerEntry(es, place, matchRatio);
    assert |es| == 1 ==> pieces == [EntryRecords(es[0], place, matchRatio)];
    assert forall x :: x in Flatten(pieces) ==>
      !Contains(x.matchName, "Del")
      && exists k :: 0 <= k < |es| && x.filename == es[k].filename && x.page == es[k].page
    by {
      forall x | x in Flatten(pieces)
        ensures !Contains(x.matchName, "Del")
        ensures exists k :: 0 <= k < |es| && x.filename == es[k].filename && x.page == es[k].page
      {
        FlattenMembers(pieces, x);
        var k :| 0 <= k < |pieces| && x in pieces[k];
        EntryRecordsMembers(es[k], place, matchRatio, x);
        var j :| Produces(es[k], j, place, matchRatio, x);
      }
    }
    if |es| == 1 then FlattenOne(pieces[0]); Flatten(pieces) else Flatten(pieces)
  }

  /** The records of two lists of results, one after the other, are the records of the
      first followed by those of the second. */
  lemma EntriesRecordsAppend(a: seq<Entry>, b: seq<Entry>, place: SpanMatcher, matchRatio: int)
    requires Labelled(place)
    ensures EntriesRecords(a + b, place, matchRatio)
      == EntriesRecords(a, place, matchRatio) + EntriesRecords(b, place, matchRatio)
  {
    MapSeqAppend(a, b, EntryRecordsOf(place, matchRatio));
    FlattenAppend(PerEntry(a, place, matchRatio), PerEntry(b, place, matchRatio));
  }

  /** A record comes out of a list of results exactly when some result has an accepted
      pair of place matches that gives it. */
  lemma EntriesRecordsMembers(es: seq<Entry>, place: SpanMatcher, matchRatio: int, x: Record)
    requires Labelled(place)
    ensures x in EntriesRecords(es, place, matchRatio) <==>
      exists k, j :: 0 <= k < |es| && Produces(es[k], j, place, matchRatio, x)
  {
    var pieces := PerEntry(es, place, matchRatio);
    FlattenMembers(pieces, x);
    if x in EntriesRecords(es, place, matchRatio) {
      var k :| 0 <= k < |pieces| && x in pieces[k];
      EntryRecordsMembers(es[k], place, matchRatio, x);
      var j :| Produces(es[k], j, place, matchRatio, x);
    }
    if exists k, j :: 0 <= k < |es| && Produces(es[k], j, place, matchRatio, x) {
      var k, j :| 0 <= k < |es| && Produces(es[k], j, place, matchRatio, x);
      EntryRecordsMembers(es[k], place, matchRatio, x);
      assert x in pieces[k];
    }
  }

  /** get_data distance used by `process`. */
  const Difference: nat := 2

  /** The records of page `form` for term t: those of `get_data(form, t, 2)`. */
  function TermRecords(form: Form, t: string, place: SpanMatcher, near: NearMatcher,
                       matchRatio: int): seq<Record>
    requires Readable(form) && Labelled(place)
  {
    EntriesRecords(GetData(form, t, Difference, near), place, matchRatio)
  }

  /** Term t to its records on page `form`. */
  function TermRecordsOf(form: Form, place: SpanMatcher, near: NearMatcher, matchRatio: int)
    : (f: string -> seq<Record>)
    requires Readable(form) && Labelled(place)
    ensures forall t :: f(t) == TermRecords(form, t, place, near, matchRatio)
  {
    t => TermRecords(form, t, place, near, matchRatio)
  }

  /** The records of each term, in term order. */
  function PerTerm(form: Form, terms: seq<string>, place: SpanMatcher, near: NearMatcher,
                   matchRatio: int): (r: seq<seq<Record>>)
    requires Readable(form) && Labelled(place)
    ensures |r| == |terms|
    ensures forall i :: 0 <= i < |terms| ==> r[i] == TermRecords(form, terms[i], place, near, matchRatio)
  {
    MapSeq(terms, TermRecordsOf(form, place, near, matchRatio))
  }

  /** The records of one page, term by term. */
  function TermsRecords(form: Form, terms: seq<string>, place: SpanMatcher, near: NearMatcher,
                        matchRatio: int): (r: seq<Record>)
    requires Readable(form) && Labelled(place)
    ensures |terms| == 1 ==> r == TermRecords(form, terms[0], place, near, matchRatio)
    ensures forall x :: x in r ==>
      x.filename == form.filename && x.page == form.page && !Contains(x.matchName, "Del")
  {
    var pieces := PerTerm(form, terms, place, near, matchRatio);
    assert |terms| == 1 ==> pieces == [TermRecords(form, terms[0], place, near, matchRatio)];
    if |terms| == 1 then FlattenOne(pieces[0]); Flatten(pieces)
    else
      assert forall x :: x in Flatten(pieces) ==>
        x.filename == form.filename && x.page == form.page && !Contains(x.matchName, "Del")
      by {
        forall x | x in Flatten(pieces)
          ensures x.filename == form.filename && x.page == form.page && !Contains(x.matchName, "Del")
        {
          FlattenMembers(pieces, x);
          var i :| 0 <= i < |pieces| && x in pieces[i];
          var es := GetData(form, terms[i], Difference, near);
          var k :| 0 <= k < |es| && x.filename == es[k].filename && x.page == es[k].page;
        }
      }
      Flatten(pieces)
  }

  /** The records of two lists of terms, one after the other, are the records of the
      first followed by those of the second. */
  lemma TermsRecordsAppend(form: Form, s: seq<string>, t: seq<string>, place: SpanMatcher,
                           near: NearMatcher, matchRatio: int)
    requires Readable(form) && Labelled(place)
    ensures TermsRecords(form, s + t, place, near, matchRatio)
      == TermsRecords(form, s, place, near, matchRatio) + TermsRecords(form, t, place, near, matchRatio)
  {
    MapSeqAppend(s, t, TermRecordsOf(form, place, near, matchRatio));
    FlattenAppend(PerTerm(form, s, place, near, matchRatio), PerTerm(form, t, place, near, matchRatio));
  }

  /** A record comes out of a page exactly when the get_data results of one of the
      terms give it. */
  lemma TermsRecordsMembers(form: Form, terms: seq<string>, place: SpanMatcher,
                            near: NearMatcher, matchRatio: int, x: Record)
    requires Readable(form) && Labelled(place)
    ensures x in TermsRecords(form, terms, place, near, matchRatio) <==>
      exists i :: 0 <= i < |terms| && x in TermRecords(form, terms[i], place, near, matchRatio)
  {
    var pieces := PerTerm(form, terms, place, near, matchRatio);
    FlattenMembers(pieces, x);
  }

  /** The records of one visited page; `form['responses'][0]['textAnnotations']` fails
      on a page without responses, or whose first response has no annotations, once
      there is a term to look up. */
  function PageRecords(form: Form, terms: seq<string>, place: SpanMatcher, near: NearMatcher,
                       matchRatio: int): (r: Result<seq<Record>, string>)
    requires Labelled(place)
    ensures r.Failure? <==> |terms| > 0 && !Readable(form)
    ensures r.Success? ==> forall x :: x in r.value ==>
      x.filename == form.filename && x.page == form.page
    ensures r.Success? ==>
      r.value == if |terms| == 0 then [] else TermsRecords(form, terms, place, near, matchRatio)
  {
    if |terms| == 0 then Success([])
    else if |form.responses| == 0 then Failure("IndexError: page without responses")
    else if form.responses[0].textAnnotations.None? then Failure("KeyError: textAnnotations")
    else Success(TermsRecords(form, terms, place, near, matchRatio))
  }

  /** The records of the given pages, in order; the first failing page ends the run. */
  function PagesRecords(data: seq<Form>, pages: seq<nat>, terms: seq<string>,
                        place: SpanMatcher, near: NearMatcher, matchRatio: int)
    : (r: Result<seq<Record>, string>)
    requires Labelled(place)
    requires forall k :: 0 <= k < |pages| ==> pages[k] < |data|
    ensures r.Failure? <==>
      |terms| > 0 && exists k :: 0 <= k < |pages| && !Readable(data[pages[k]])
    ensures r.Success? ==> forall x :: x in r.value ==>
      exists k :: 0 <= k < |pages| && x.filename == data[pages[k]].filename && x.page == data[pages[k]].page
    decreases |pages|
  {
    if |pages| == 0 then Success([])
    else
      var head := PageRecords(data[pages[0]], terms, place, near, matchRatio);
      var rest := PagesRecords(data, pages[1..], terms, place, near, matchRatio);
      PagesRecordsCons(data, pages, terms, head, rest);
      Then(head, rest)
  }

  /** One step of `PagesRecords`: a page's records followed by those of the pages after
      it fail exactly when some of those pages is unreadable, and come from those pages. */
  lemma PagesRecordsCons(data: seq<Form>, pages: seq<nat>, terms: seq<string>,
                         head: Result<seq<Record>, string>, rest: Result<seq<Record>, string>)
    requires 0 < |pages| && forall k :: 0 <= k < |pages| ==> pages[k] < |data|
    requires head.Failure? <==> |terms| > 0 && !Readable(data[pages[0]])
    requires head.Success? ==> forall x :: x in head.value ==>
      x.filename == data[pages[0]].filename && x.page == data[pages[0]].page
    requires rest.Failure? <==>
      |terms| > 0 && exists k :: 1 <= k < |pages| && !Readable(data[pages[k]])
    requires rest.Success? ==> forall x :: x in rest.value ==>
      exists k :: 1 <= k < |pages| && x.filename == data[pages[k]].filename && x.page == data[pages[k]].page
    ensures Then(head, rest).Failure? <==>
      |terms| > 0 && exists k :: 0 <= k < |pages| && !Readable(data[pages[k]])
    ensures Then(head, rest).Success? ==> forall x :: x in Then(head, rest).value ==>
      exists k :: 0 <= k < |pages| && x.filename == data[pages[k]].filename && x.page == data[pages[k]].page
  {
    var r := Then(head, rest);
    if r.Success? {
      forall x | x in r.value
        ensures exists k :: 0 <= k < |pages| && x.filename == data[pages[k]].filename && x.page == data[pages[k]].page
      {
        if x in head.value {
          assert x.filename == data[pages[0]].filename && x.page == data[pages[0]].page;
        } else {
          assert x in rest.value;
        }
      }
    }
  }

  /** The records of two lists of pages, one after the other: those of the first
      followed by those of the second, or the first failure. */
  lemma {:induction false} PagesRecordsAppend(data: seq<Form>, p: seq<nat>, q: seq<nat>,
                                              terms: seq<string>, place: SpanMatcher,
                                              near: NearMatcher, matchRatio: int)
    requires Labelled(place)
    requires forall k :: 0 <= k < |p| ==> p[k] < |data|
    requires forall k :: 0 <= k < |q| ==> q[k] < |data|
    ensures forall k :: 0 <= k < |p + q| ==> (p + q)[k] < |data|
    ensures PagesRecords(data, p + q, terms, place, near, matchRatio)
      == Then(PagesRecords(data, p, terms, place, near, matchRatio),
              PagesRecords(data, q, terms, place, near, matchRatio))
    decreases |p|
  {
    assert forall k :: 0 <= k < |p + q| ==> (p + q)[k] < |data| by {
      forall k | 0 <= k < |p + q|
        ensures (p + q)[k] < |data|
      {
        if k < |p| {
          assert (p + q)[k] == p[k];
        } else {
          assert (p + q)[k] == q[k - |p|];
        }
      }
    }
    if |p| == 0 {
      assert p + q == q;
      var b := PagesRecords(data, q, terms, place, near, matchRatio);
      if b.Success? {
        assert [] + b.value == b.value;
      }
    } else {
      assert (p + q)[0] == p[0] && (p + q)[1..] == p[1..] + q;
      PagesRecordsAppend(data, p[1..], q, terms, place, near, matchRatio);
      var head := PageRecords(data[p[0]], terms, place, near, matchRatio);
      ThenAssociative(head, PagesRecords(data, p[1..], terms, place, near, matchRatio),
                      PagesRecords(data, q, terms, place, near, matchRatio));
    }
  }

  /** With no failure, a record comes out of a list of pages exactly when one of the
      pages gives it for one of the terms. */
  lemma {:induction false} PagesRecordsMembers(data: seq<Form>, pages: seq<nat>, terms: seq<string>,
                                               place: SpanMatcher, near: NearMatcher,
                                               matchRatio: int, x: Record)
    requires Labelled(place)
    requires forall k :: 0 <= k < |pages| ==> pages[k] < |data|
    requires PagesRecords(data, pages, terms, place, near, matchRatio).Success?
    ensures x in PagesRecords(data, pages, terms, place, near, matchRatio).value <==>
      exists p :: p in pages && p < |data| && Readable(data[p])
        && x in TermsRecords(data[p], terms, place, near, matchRatio)
    decreases |pages|
  {
    if |pages| > 0 {
      var tail := pages[1..];
      assert forall k :: 1 <= k < |pages| ==> pages[k] == tail[k - 1];
      PagesRecordsMembers(data, tail, terms, place, near, matchRatio, x);
      var p0 := pages[0];
      assert forall p :: p in pages <==> p == p0 || p in tail;
      if |terms| == 0 {
        forall p | p in pages && p < |data| && Readable(data[p])
          ensures TermsRecords(data[p], terms, place, near, matchRatio) == []
        {
          TermsRecordsMembers(data[p], terms, place, near, matchRatio, x);
          FlattenOne<Record>([]);
        }
      }
    }
  }

  /** `output` of `process`, over the pages it visits. A response without
      `textAnnotations` anywhere stops the run in the first loop; a visited page
      without a readable first response stops it in the second. */
  function Output(data: seq<Form>, terms: seq<string>, termMatcher: SpanMatcher,
                  place: SpanMatcher, near: NearMatcher, matchRatio: int)
    : (r: Result<seq<Record>, string>)
    requires Labelled(place)
    ensures r.Failure? <==>
      !Annotated(data)
      || (|terms| > 0 && exists p :: p in SelectedPages(data, termMatcher, matchRatio) && p < |data|
                                     && !Readable(data[p]))
  {
    var pages := SelectedPages(data, termMatcher, matchRatio);
    if !Annotated(data) then Failure("KeyError: textAnnotations")
    else
      var r := PagesRecords(data, pages, terms, place, near, matchRatio);
      assert r.Failure? <==> |terms| > 0 && exists p :: p in pages && p < |data| && !Readable(data[p]) by {
        assert forall k :: 0 <= k < |pages| ==> pages[k] in pages;
      }
      r
  }

  /** When the run succeeds, a record is in `output` exactly when a visited page gives
      it for one of the terms. */
  lemma OutputMembers(data: seq<Form>, terms: seq<string>, termMatcher: SpanMatcher,
                      place: SpanMatcher, near: NearMatcher, matchRatio: int, x: Record)
    requires Labelled(place)
    requires Output(data, terms, termMatcher, place, near, matchRatio).Success?
    ensures x in Output(data, terms, termMatcher, place, near, matchRatio).value <==>
      exists p, i :: p in SelectedPages(data, termMatcher, matchRatio) && p < |data|
        && Readable(data[p]) && 0 <= i < |terms|
        && x in TermRecords(data[p], terms[i], place, near, matchRatio)
  {
    var pages := SelectedPages(data, termMatcher, matchRatio);
    PagesRecordsMembers(data, pages, terms, place, near, matchRatio, x);
    forall p | p in pages && p < |data| && Readable(data[p])
      ensures x in TermsRecords(data[p], terms, place, near, matchRatio) <==>
        exists i :: 0 <= i < |terms| && x in TermRecords(data[p], terms[i], place, near, matchRatio)
    {
      TermsRecordsMembers(data[p], terms, place, near, matchRatio, x);
    }
  }

  /** When the run succeeds, `output` holds exactly the records of the accepted pairs of
      place matches of the get_data results, over the visited pages and the terms. */
  lemma OutputEmits(data: seq<Form>, terms: seq<string>, termMatcher: SpanMatcher,
                    place: SpanMatcher, near: NearMatcher, matchRatio: int, x: Record)
    requires Labelled(place)
    requires Output(data, terms, termMatcher, place, near, matchRatio).Success?
    ensures x in Output(data, terms, termMatcher, place, near, matchRatio).value <==>
      exists p, i, k, j :: p in SelectedPages(data, termMatcher, matchRatio) && p < |data|
        && Readable(data[p]) && 0 <= i < |terms|
        && 0 <= k < |GetData(data[p], terms[i], Difference, near)|
        && Produces(GetData(data[p], terms[i], Difference, near)[k], j, place, matchRatio, x)
  {
    OutputMembers(data, terms, termMatcher, place, near, matchRatio, x);
    var pages := SelectedPages(data, termMatcher, matchRatio);
    forall p, i | p in pages && p < |data| && Readable(data[p]) && 0 <= i < |terms|
      ensures x in TermRecords(data[p], terms[i], place, near, matchRatio) <==>
        exists k, j :: 0 <= k < |GetData(data[p], terms[i], Difference, near)|
          && Produces(GetData(data[p], terms[i], Difference, near)[k], j, place, matchRatio, x)
    {
      EntriesRecordsMembers(GetData(data[p], terms[i], Difference, near), place, matchRatio, x);
    }
  }

  /** `output` over the pages that have terms, the selection the loops evidently aim at. */
  function OutputIntended(data: seq<Form>, terms: seq<string>, termMatcher: SpanMatcher,
                          place: SpanMatcher, near: NearMatcher, matchRatio: int)
    : (r: Result<seq<Record>, string>)
    requires Labelled(place)
  {
    if !Annotated(data) then Failure("KeyError: textAnnotations")
    else PagesRecords(data, PagesWithTerms(data, termMatcher, matchRatio, 0), terms, place, near,
                      matchRatio)
  }

  /** Every record of the intended output comes from a page whose own text has terms. */
  lemma IntendedProvenance(data: seq<Form>, terms: seq<string>, termMatcher: SpanMatcher,
                           place: SpanMatcher, near: NearMatcher, matchRatio: int, x: Record)
    requires Labelled(place)
    requires OutputIntended(data, terms, termMatcher, place, near, matchRatio).Success?
    requires x in OutputIntended(data, terms, termMatcher, place, near, matchRatio).value
    ensures exists p ::
      0 <= p < |data| && PageHasTerms(data[p], termMatcher, matchRatio)
      && x.filename == data[p].filename && x.page == data[p].page
  {
    var pages := PagesWithTerms(data, termMatcher, matchRatio, 0);
    var k :| 0 <= k < |pages| && x.filename == data[pages[k]].filename
      && x.page == data[pages[k]].page;
    assert pages[k] in pages;
  }

  /** Every record of `output` carries the filename and page of a visited page, and
      its name has no `Del`. */
  lemma OutputProvenance(data: seq<Form>, terms: seq<string>, termMatcher: SpanMatcher,
                         place: SpanMatcher, near: NearMatcher, matchRatio: int, x: Record)
    requires Labelled(place)
    requires Output(data, terms, termMatcher, place, near, matchRatio).Success?
    requires x in Output(data, terms, termMatcher, place, near, matchRatio).value
    ensures exists p ::
      p in SelectedPages(data, termMatcher, matchRatio) && p < |data|
      && x.filename == data[p].filename && x.page == data[p].page
  {
    var pages := SelectedPages(data, termMatcher, matchRatio);
    assert forall k :: 0 <= k < |pages| ==> pages[k] < |data|;
    var k :| 0 <= k < |pages| && x.filename == data[pages[k]].filename
      && x.page == data[pages[k]].page;
    assert pages[k] in pages;
  }

  // Aggregation.

  /** `filename.split('/')[-1]`. */
  function Basename(f: string): (r: string)
    ensures |r| <= |f| && r == f[|f| - |r|..] && '/' !in r
    ensures |r| < |f| ==> f[|f| - |r| - 1] == '/'
  {
    SplitLast(f, '/');
    var parts := Split(f, '/');
    parts[|parts| - 1]
  }

  /** The elements of s, each once, in order of first occurrence. */
  function Distinct(s: seq<string>): (r: seq<string>)
    ensures forall x :: x in r <==> x in s
    ensures forall m, n :: 0 <= m < n < |r| ==> r[m] != r[n]
    decreases |s|
  {
    if |s| == 0 then []
    else
      var d := Distinct(s[..|s| - 1]);
      assert s == s[..|s| - 1] + [s[|s| - 1]];
      if s[|s| - 1] in d then d else d + [s[|s| - 1]]
  }

  /** A sequence without repetitions has as many elements as its set. */
  lemma {:induction false} NoDupCard(s: seq<string>)
    requires forall m, n :: 0 <= m < n < |s| ==> s[m] != s[n]
    ensures |set x | x in s| == |s|
    decreases |s|
  {
    if |s| > 0 {
      var t := s[1..];
      NoDupCard(t);
      assert (set x | x in s) == {s[0]} + (set x | x in t);
      assert s[0] !in t by {
        forall n | 0 <= n < |t|
          ensures t[n] != s[0]
        {
          assert t[n] == s[n + 1];
        }
      }
    } else {
      assert (set x | x in s) == {};
    }
  }

  function Filenames(output: seq<Record>): (r: seq<string>)
    ensures |r| == |output| && forall k :: 0 <= k < |r| ==> r[k] == output[k].filename
  {
    seq(|output|, k requires 0 <= k < |output| => output[k].filename)
  }

  /** The record belongs to the file and carries the term's title-cased form. */
  predicate Fits(x: Record, term: string, file: string) {
    x.matchTerm == Title(term) && x.filename == file
  }

  /** The name of the first record, in output order, that fits the term and file. */
  function FirstName(output: seq<Record>, term: string, file: string): (r: Option<string>)
    ensures r.None? <==> forall k :: 0 <= k < |output| ==> !Fits(output[k], term, file)
    ensures r.Some? ==>
      exists k :: (0 <= k < |output| && Fits(output[k], term, file) && output[k].matchName == r.value
                   && forall j :: 0 <= j < k ==> !Fits(output[j], term, file))
    decreases |output|
  {
    if |output| == 0 then None
    else if Fits(output[0], term, file) then Some(output[0].matchName)
    else
      var rest := FirstName(output[1..], term, file);
      assert forall k :: 1 <= k < |output| ==> output[k] == output[1..][k - 1];
      if rest.Some? then
        var k :| 0 <= k < |output[1..]| && Fits(output[1..][k], term, file)
          && output[1..][k].matchName == rest.value
          && forall j :: 0 <= j < k ==> !Fits(output[1..][j], term, file);
        assert forall j :: 0 <= j < k + 1 ==> !Fits(output[j], term, file);
        rest
      else rest
  }

  /** The row after the terms, starting from `row`: a term with a fitting record sets
      its column to the first such record's name; every other key keeps its value. */
  function RowFrom(output: seq<Record>, terms: seq<string>, file: string,
                   row: map<string, string>): (r: map<string, string>)
    ensures forall key :: key in r <==> key in row || (key in terms && FirstName(output, key, file).Some?)
    ensures forall key :: key in r ==>
      r[key] == (if key in terms && FirstName(output, key, file).Some?
                 then FirstName(output, key, file).value else row[key])
    decreases |terms|
  {
    if |terms| == 0 then row
    else
      var t := terms[0];
      var next := match FirstName(output, t, file)
        case Some(n) => row[t := n]
        case None => row;
      assert forall u :: u in terms <==> u == t || u in terms[1..];
      RowFrom(output, terms[1..], file, next)
  }

  /** Some record of the output fits the term and file. */
  predicate HasFit(output: seq<Record>, term: string, file: string) {
    exists k :: 0 <= k < |output| && Fits(output[k], term, file)
  }

  /** The row of one file: `filename` is the basename, then one column per term that
      has a fitting record, holding the first fitting name. */
  function Row(output: seq<Record>, terms: seq<string>, file: string): (r: map<string, string>)
    ensures "filename" in r
    ensures "filename" !in terms ==> r["filename"] == Basename(file)
    ensures forall t :: t in terms && t != "filename" ==> (t in r <==> HasFit(output, t, file))
    ensures forall t :: t in terms && FirstName(output, t, file).Some? ==>
      t in r && r[t] == FirstName(output, t, file).value
    ensures forall key :: key in r ==> key == "filename" || key in terms
  {
    var r := RowFrom(output, terms, file, map["filename" := Basename(file)]);
    RowColumns(output, terms, file, r);
    r
  }

  /** A term's column is present exactly when some record fits it. */
  lemma RowColumns(output: seq<Record>, terms: seq<string>, file: string, r: map<string, string>)
    requires forall key :: key in r <==> key == "filename" || (key in terms && FirstName(output, key, file).Some?)
    ensures forall t :: t in terms && t != "filename" ==> (t in r <==> HasFit(output, t, file))
  {
    forall t | t in terms && t != "filename"
      ensures t in r <==> HasFit(output, t, file)
    {
      if FirstName(output, t, file).None? {
        assert !HasFit(output, t, file);
      }
    }
  }

  /** The rows written to the CSV file, one per distinct filename of the output, in
      order of first occurrence. Python iterates over `set(filenames)`, whose order is
      not fixed. Each row names its file and has a term's column exactly when a record
      of that file carries the term. */
  function Aggregate(output: seq<Record>, terms: seq<string>): (r: seq<map<string, string>>)
    ensures var files := Distinct(Filenames(output));
      |r| == |files|
      && (forall k :: 0 <= k < |r| ==> "filename" in r[k] && files[k] in Filenames(output))
      && (forall k :: 0 <= k < |r| && "filename" !in terms ==> r[k]["filename"] == Basename(files[k]))
    ensures var files := Distinct(Filenames(output));
      forall k, t :: 0 <= k < |r| && t in terms && t != "filename" ==>
        (t in r[k] <==> HasFit(output, t, files[k]))
    ensures var files := Distinct(Filenames(output));
      forall k, t :: 0 <= k < |r| && t in terms && FirstName(output, t, files[k]).Some? ==>
        t in r[k] && r[k][t] == FirstName(output, t, files[k]).value
  {
    var files := Distinct(Filenames(output));
    seq(|files|, k requires 0 <= k < |files| => Row(output, terms, files[k]))
  }

  /** There is exactly one row per distinct filename of the output, and every
      filename of the output has its row. */
  lemma AggregateOneRowPerFile(output: seq<Record>, terms: seq<string>)
    ensures |Aggregate(output, terms)| == |set k | 0 <= k < |output| :: output[k].filename|
    ensures forall k :: 0 <= k < |output| ==> output[k].filename in Distinct(Filenames(output))
  {
    var names := Filenames(output);
    var files := Distinct(names);
    NoDupCard(files);
    assert (set x | x in files) == (set k | 0 <= k < |output| :: output[k].filename) by {
      forall f | f in (set k | 0 <= k < |output| :: output[k].filename)
        ensures f in files
      {
        var k :| 0 <= k < |output| && output[k].filename == f;
        assert names[k] == f;
      }
    }
    assert forall k :: 0 <= k < |output| ==> names[k] in names;
  }
}
