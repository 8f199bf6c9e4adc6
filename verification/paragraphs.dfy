/** The paragraph lines of a Vision `fullTextAnnotation` and the "next word" search of
    altofromvision.py and anc-forms.py (the two scripts carry identical copies), and the
    per-image rows anc-forms.py builds from them. */
module Paragraphs {
  import opened Wrappers
  import opened Strings
  import opened Geometry

  datatype Symbol = Symbol(text: string)

  datatype Word = Word(symbols: seq<Symbol>)

  datatype Paragraph = Paragraph(words: seq<Word>, boundingBox: Quad)

  datatype Block = Block(paragraphs: seq<Paragraph>)

  datatype TextPage = TextPage(blocks: seq<Block>, width: int, height: int)

  datatype FullText = FullText(pages: seq<TextPage>)

  /** One image's annotation; Vision omits `fullTextAnnotation` when it finds no text. */
  datatype ImageResponse = ImageResponse(fullTextAnnotation: Option<FullText>)

  datatype VisionReply = VisionReply(responses: seq<ImageResponse>)

  /** One `{'text': ..., 'bbox': ...}` line. */
  datatype Line = Line(text: string, bbox: Quad)

  /** A word's symbols concatenated. */
  function WordText(w: Word): string {
    SymbolsText(w.symbols)
  }

  function SymbolsText(ss: seq<Symbol>): (r: string)
    ensures |ss| == 0 ==> r == ""
    decreases |ss|
  {
    if |ss| == 0 then "" else ss[0].text + SymbolsText(ss[1..])
  }

  function WordTexts(ws: seq<Word>): (r: seq<string>)
    ensures |r| == |ws| && forall k :: 0 <= k < |ws| ==> r[k] == WordText(ws[k])
  {
    seq(|ws|, k requires 0 <= k < |ws| => WordText(ws[k]))
  }

  /** The paragraph text: every word followed by one space. */
  function ParagraphText(ws: seq<Word>): string
    decreases |ws|
  {
    if |ws| == 0 then "" else WordText(ws[0]) + " " + ParagraphText(ws[1..])
  }

  /** The paragraph text is the word texts joined by spaces, with one space more at
      the end; a paragraph without words gives "". */
  lemma {:induction false} ParagraphJoin(ws: seq<Word>)
    ensures ParagraphText(ws) == Join(WordTexts(ws) + [""], ' ')
    decreases |ws|
  {
    if |ws| > 0 {
      ParagraphJoin(ws[1..]);
      var parts := WordTexts(ws) + [""];
      var tail := WordTexts(ws[1..]) + [""];
      assert parts[1..] == tail;
      assert Join(parts, ' ') == parts[0] + [' '] + Join(tail, ' ');
    } else {
      assert WordTexts(ws) + [""] == [""];
    }
  }

  /** When no word contains a space, splitting a line's text at spaces gives back the
      words, then the empty piece after the final space. */
  lemma ParagraphSplit(ws: seq<Word>)
    requires forall k :: 0 <= k < |ws| ==> ' ' !in WordText(ws[k])
    ensures Split(ParagraphText(ws), ' ') == WordTexts(ws) + [""]
  {
    ParagraphJoin(ws);
    var texts := WordTexts(ws);
    var parts := texts + [""];
    forall k | 0 <= k < |parts|
      ensures ' ' !in parts[k]
    {
      if k < |texts| {
        assert parts[k] == texts[k] == WordText(ws[k]);
      } else {
        assert parts[k] == "";
      }
    }
    SplitJoin(parts, ' ');
  }

  /** The line of one paragraph. */
  function LineOf(p: Paragraph): Line {
    Line(ParagraphText(p.words), p.boundingBox)
  }

  /** The paragraphs of the blocks, block after block. */
  function AllParagraphs(blocks: seq<Block>): seq<Paragraph>
    decreases |blocks|
  {
    if |blocks| == 0 then [] else blocks[0].paragraphs + AllParagraphs(blocks[1..])
  }

  function ParagraphLines(ps: seq<Paragraph>): seq<Line>
    decreases |ps|
  {
    if |ps| == 0 then [] else [LineOf(ps[0])] + ParagraphLines(ps[1..])
  }

  /** The loops over blocks and paragraphs. */
  function BlockLines(blocks: seq<Block>): seq<Line>
    decreases |blocks|
  {
    if |blocks| == 0 then []
    else ParagraphLines(blocks[0].paragraphs) + BlockLines(blocks[1..])
  }

  lemma {:induction false} ParagraphLinesOrder(ps: seq<Paragraph>)
    ensures |ParagraphLines(ps)| == |ps|
    ensures forall k :: 0 <= k < |ps| ==> ParagraphLines(ps)[k] == LineOf(ps[k])
    decreases |ps|
  {
    if |ps| > 0 {
      ParagraphLinesOrder(ps[1..]);
      assert forall k :: 1 <= k < |ps| ==> ps[k] == ps[1..][k - 1];
    }
  }

  /** Exactly one line per paragraph, in block-then-paragraph order, each with the
      paragraph's text and bounding box. */
  lemma {:induction false} BlockLinesOrder(blocks: seq<Block>)
    ensures var ps := AllParagraphs(blocks);
      |BlockLines(blocks)| == |ps| &&
      forall k :: 0 <= k < |ps| ==> BlockLines(blocks)[k] == LineOf(ps[k])
    decreases |blocks|
  {
    if |blocks| > 0 {
      BlockLinesOrder(blocks[1..]);
      ParagraphLinesOrder(blocks[0].paragraphs);
      var ps := AllParagraphs(blocks);
      var own := ParagraphLines(blocks[0].paragraphs);
      var rest := BlockLines(blocks[1..]);
      assert BlockLines(blocks) == own + rest;
      assert ps == blocks[0].paragraphs + AllParagraphs(blocks[1..]);
      forall k | 0 <= k < |ps|
        ensures BlockLines(blocks)[k] == LineOf(ps[k])
      {
        if k >= |own| {
          assert ps[k] == AllParagraphs(blocks[1..])[k - |own|];
        }
      }
    }
  }

  /** `lines_from_paragraphs(response)`: the lines of the first response's first page.
      A reply without responses, without a text annotation, or without pages fails, as
      the indexing does in the script. */
  function LinesFromParagraphs(reply: VisionReply): (r: Result<seq<Line>, string>)
    ensures r.Failure? <==>
      |reply.responses| == 0 || reply.responses[0].fullTextAnnotation.None?
      || |reply.responses[0].fullTextAnnotation.value.pages| == 0
    ensures r.Success? ==>
      r.value == BlockLines(reply.responses[0].fullTextAnnotation.value.pages[0].blocks)
  {
    if |reply.responses| == 0 then Failure("IndexError: no responses")
    else match reply.responses[0].fullTextAnnotation
      case None => Failure("KeyError: fullTextAnnotation")
      case Some(full) =>
        if |full.pages| == 0 then Failure("IndexError: no pages")
        else Success(BlockLines(full.pages[0].blocks))
  }

  // The next-word search.

  /** The lowered text of the line contains the lowered search text. */
  predicate Mentions(l: Line, text: string) {
    Contains(LowerStr(l.text), LowerStr(text))
  }

  /** t's first vertex is strictly right of and strictly below start's. */
  predicate BelowRight(t: Line, start: Line) {
    t.bbox.v0.x > start.bbox.v0.x && t.bbox.v0.y > start.bbox.v0.y
  }

  /** The index of the first line satisfying p, from index j on. */
  function FirstIndex(lines: seq<Line>, p: Line -> bool, j: nat): (r: Option<nat>)
    ensures r.None? <==> forall k :: j <= k < |lines| ==> !p(lines[k])
    ensures r.Some? ==>
      j <= r.value < |lines| && p(lines[r.value])
      && forall k :: j <= k < r.value ==> !p(lines[k])
    decreases |lines| - j
  {
    if j >= |lines| then None
    else if p(lines[j]) then Some(j)
    else FirstIndex(lines, p, j + 1)
  }

  /** The index of the start line: the first that mentions the text. */
  function StartIndex(lines: seq<Line>, text: string): Option<nat> {
    FirstIndex(lines, l => Mentions(l, text), 0)
  }

  /** The index of the line `find_next_word` returns. */
  function NextIndex(lines: seq<Line>, text: string): (r: Option<nat>)
    ensures var start := StartIndex(lines, text);
      r.None? <==> start.None? || forall k :: 0 <= k < |lines| ==> !BelowRight(lines[k], lines[start.value])
  {
    match StartIndex(lines, text)
    case None => None
    case Some(s) => FirstIndex(lines, t => BelowRight(t, lines[s]), 0)
  }

  /** `find_next_word(lines, text)`. */
  function FindNextWord(lines: seq<Line>, text: string): (r: Option<Line>)
    ensures r.None? <==> NextIndex(lines, text).None?
    ensures r.Some? ==>
      NextIndex(lines, text).value < |lines| && r.value == lines[NextIndex(lines, text).value]
  {
    match NextIndex(lines, text)
    case None => None
    case Some(n) => Some(lines[n])
  }

  /** The start is the first line mentioning the text; the result is the first line
      strictly below-right of the start, so never the start line itself. */
  lemma NextWordMeaning(lines: seq<Line>, text: string)
    ensures var start := StartIndex(lines, text);
      start.Some? ==>
        start.value < |lines| && Mentions(lines[start.value], text)
        && forall k :: 0 <= k < start.value ==> !Mentions(lines[k], text)
    ensures var start := StartIndex(lines, text);
      var next := NextIndex(lines, text);
      next.Some? ==>
        start.Some? && start.value < |lines| && next.value < |lines|
        && next.value != start.value
        && BelowRight(lines[next.value], lines[start.value])
        && forall k :: 0 <= k < next.value ==> !BelowRight(lines[k], lines[start.value])
  {
    var start := StartIndex(lines, text);
    if start.Some? {
      assert Mentions(lines[start.value], text);
    }
  }

  // The rows of anc-forms.py.

  /** The row of one image: each of the three columns holds the text of the line that
      follows its search text, and is absent when there is none. */
  function FormRow(lines: seq<Line>): (r: map<string, string>)
    ensures r.Keys <= {"municipio", "depintcom", "departamento"}
    ensures "municipio" in r <==> FindNextWord(lines, "municip").Some?
    ensures "municipio" in r ==> r["municipio"] == FindNextWord(lines, "municip").value.text
    ensures "depintcom" in r <==> FindNextWord(lines, "dep.int").Some?
    ensures "depintcom" in r ==> r["depintcom"] == FindNextWord(lines, "dep.int").value.text
    ensures "departamento" in r <==> FindNextWord(lines, "departamen").Some?
    ensures "departamento" in r ==>
      r["departamento"] == FindNextWord(lines, "departamen").value.text
  {
    var row0: map<string, string> := map[];
    var row1 := match FindNextWord(lines, "municip")
      case Some(l) => row0["municipio" := l.text]
      case None => row0;
    var row2 := match FindNextWord(lines, "dep.int")
      case Some(l) => row1["depintcom" := l.text]
      case None => row1;
    match FindNextWord(lines, "departamen")
    case Some(l) => row2["departamento" := l.text]
    case None => row2
  }

  /** One row per page image, in image order; a reply without lines stops the run. */
  function ImageRows(replies: seq<VisionReply>): (r: Result<seq<map<string, string>>, string>)
    ensures r.Failure? <==> exists k :: 0 <= k < |replies| && LinesFromParagraphs(replies[k]).Failure?
    ensures r.Success? ==> |r.value| == |replies| && forall k :: 0 <= k < |replies| ==>
      r.value[k] == FormRow(LinesFromParagraphs(replies[k]).value)
    decreases |replies|
  {
    if |replies| == 0 then Success([])
    else
      var rest := ImageRows(replies[1..]);
      assert forall k :: 1 <= k < |replies| ==> replies[k] == replies[1..][k - 1];
      match LinesFromParagraphs(replies[0])
      case Failure(e) => Failure(e)
      case Success(lines) =>
        if rest.Failure? then Failure(rest.error)
        else Success([FormRow(lines)] + rest.value)
  }
}
