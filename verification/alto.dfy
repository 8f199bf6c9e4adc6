/** The attribute values `vision_to_alto` of altofromvision.py writes for each
    paragraph line: a TextBlock with its Polygon, a TextLine and a String, in the
    ALTO v4 layout schema of the Library of Congress. Element construction and
    serialisation are not modelled; only the attribute strings are. */
module Alto {
  import opened Wrappers
  import opened Strings
  import opened Decimal
  import opened Geometry
  import opened Paragraphs

  /** The HPOS, VPOS, WIDTH and HEIGHT attributes. */
  datatype BoxAttrs = BoxAttrs(hpos: string, vpos: string, width: string, height: string)

  /** Every attribute written for one line. */
  datatype LineAttrs = LineAttrs(blockBox: BoxAttrs, blockId: string, points: string,
                                 lineId: string, baseline: string, lineBox: BoxAttrs,
                                 content: string, stringBox: BoxAttrs)

  /** Position and size of a bounding box, from its first and third vertex. */
  function Box(q: Quad): (r: BoxAttrs)
    ensures ParseInt(r.hpos) == Some(q.v0.x) && ParseInt(r.vpos) == Some(q.v0.y)
    ensures ParseInt(r.width) == Some(q.v2.x - q.v0.x)
    ensures ParseInt(r.height) == Some(q.v2.y - q.v0.y)
  {
    IntRoundTrip(q.v0.x);
    IntRoundTrip(q.v0.y);
    IntRoundTrip(q.v2.x - q.v0.x);
    IntRoundTrip(q.v2.y - q.v0.y);
    BoxAttrs(IntToString(q.v0.x), IntToString(q.v0.y),
             IntToString(q.v2.x - q.v0.x), IntToString(q.v2.y - q.v0.y))
  }

  /** The four numbers a box's attributes read back as. */
  function BoxValues(b: BoxAttrs): seq<Option<int>> {
    [ParseInt(b.hpos), ParseInt(b.vpos), ParseInt(b.width), ParseInt(b.height)]
  }

  /** Reading the attributes back, the box spans from the first vertex to the third:
      HPOS + WIDTH and VPOS + HEIGHT give the third vertex. */
  lemma BoxSpan(q: Quad)
    ensures var v := BoxValues(Box(q));
      && v[0].Some? && v[1].Some? && v[2].Some? && v[3].Some?
      && v[0].value == q.v0.x && v[1].value == q.v0.y
      && v[0].value + v[2].value == q.v2.x && v[1].value + v[3].value == q.v2.y
  {
  }

  /** `f"{vertex['x']} {vertex['y']}"`. */
  function VertexText(v: Vertex): string {
    IntToString(v.x) + " " + IntToString(v.y)
  }

  /** The POINTS attribute: the vertices' "x y" texts joined by spaces. */
  function Points(q: Quad): string {
    Join([VertexText(q.v0), VertexText(q.v1), VertexText(q.v2), VertexText(q.v3)], ' ')
  }

  /** The eight coordinates of a box, vertex by vertex. */
  function Coordinates(q: Quad): (r: seq<int>)
    ensures |r| == 8
  {
    [q.v0.x, q.v0.y, q.v1.x, q.v1.y, q.v2.x, q.v2.y, q.v3.x, q.v3.y]
  }

  function Rendered(xs: seq<int>): (r: seq<string>)
    ensures |r| == |xs| && forall k :: 0 <= k < |xs| ==> r[k] == IntToString(xs[k])
  {
    seq(|xs|, k requires 0 <= k < |xs| => IntToString(xs[k]))
  }

  /** The "x y" texts of a list of pairs. */
  function PairTexts(ps: seq<(string, string)>): (r: seq<string>)
    ensures |r| == |ps| && forall k :: 0 <= k < |ps| ==> r[k] == ps[k].0 + " " + ps[k].1
  {
    seq(|ps|, k requires 0 <= k < |ps| => ps[k].0 + " " + ps[k].1)
  }

  /** The pairs' components, one after the other: pair k's x at 2k and its y at 2k + 1. */
  function Flat(ps: seq<(string, string)>): (r: seq<string>)
    ensures |r| == 2 * |ps|
    ensures forall k :: 0 <= k < |ps| ==> r[2 * k] == ps[k].0 && r[2 * k + 1] == ps[k].1
    decreases |ps|
  {
    if |ps| == 0 then []
    else
      var rest := Flat(ps[1..]);
      assert forall k :: 1 <= k < |ps| ==> ps[k] == ps[1..][k - 1];
      [ps[0].0, ps[0].1] + rest
  }

  /** Joining "x y" texts by spaces is joining all the components by spaces. */
  lemma {:induction false} JoinPairs(ps: seq<(string, string)>)
    requires |ps| > 0
    ensures Join(PairTexts(ps), ' ') == Join(Flat(ps), ' ')
    decreases |ps|
  {
    var a, b := ps[0].0, ps[0].1;
    var flat := Flat(ps);
    assert flat[1..] == [b] + Flat(ps[1..]);
    if |ps| == 1 {
      assert Flat(ps[1..]) == [];
      assert Join(flat[1..], ' ') == b;
      assert Join(PairTexts(ps), ' ') == a + " " + b;
    } else {
      JoinPairs(ps[1..]);
      assert PairTexts(ps)[1..] == PairTexts(ps[1..]);
      assert ([b] + Flat(ps[1..]))[1..] == Flat(ps[1..]);
      assert Join(flat[1..], ' ') == b + [' '] + Join(Flat(ps[1..]), ' ');
    }
  }

  /** The rendered coordinates of the vertices, as (x, y) pairs. */
  function VertexPairs(q: Quad): seq<(string, string)> {
    [(IntToString(q.v0.x), IntToString(q.v0.y)), (IntToString(q.v1.x), IntToString(q.v1.y)),
     (IntToString(q.v2.x), IntToString(q.v2.y)), (IntToString(q.v3.x), IntToString(q.v3.y))]
  }

  /** POINTS is the eight coordinates joined by single spaces. */
  lemma PointsFlat(q: Quad)
    ensures Points(q) == Join(Rendered(Coordinates(q)), ' ')
  {
    var ps := VertexPairs(q);
    JoinPairs(ps);
    assert PairTexts(ps) == [VertexText(q.v0), VertexText(q.v1), VertexText(q.v2), VertexText(q.v3)];
    assert Flat(ps[3..]) == [ps[3].0, ps[3].1] by {
      assert ps[3..][1..] == [];
    }
    assert Flat(ps[2..]) == [ps[2].0, ps[2].1] + Flat(ps[3..]) by {
      assert ps[2..][1..] == ps[3..];
    }
    assert Flat(ps[1..]) == [ps[1].0, ps[1].1] + Flat(ps[2..]) by {
      assert ps[1..][1..] == ps[2..];
    }
    assert Flat(ps) == Rendered(Coordinates(q));
  }

  /** Every rendered coordinate is free of spaces, so the pieces of a split are exact. */
  lemma RenderedNoSpace(xs: seq<int>)
    ensures forall k :: 0 <= k < |Rendered(xs)| ==> ' ' !in Rendered(xs)[k]
  {
    forall k | 0 <= k < |xs|
      ensures ' ' !in Rendered(xs)[k]
    {
      NoSeparators(xs[k]);
    }
  }

  /** Splitting POINTS at spaces gives eight numerals that read back as the vertices'
      coordinates, in vertex order. */
  lemma PointsRoundTrip(q: Quad)
    ensures var pieces := Split(Points(q), ' ');
      |pieces| == 8 && forall k :: 0 <= k < 8 ==> ParseInt(pieces[k]) == Some(Coordinates(q)[k])
  {
    PointsFlat(q);
    RenderedNoSpace(Coordinates(q));
    SplitJoin(Rendered(Coordinates(q)), ' ');
    forall k | 0 <= k < 8
      ensures ParseInt(Rendered(Coordinates(q))[k]) == Some(Coordinates(q)[k])
    {
      IntRoundTrip(Coordinates(q)[k]);
    }
  }

  /** The TextLine ID: "line_" followed by the first vertex's x and y, separated by `_`. */
  function LineId(q: Quad): string {
    "line_" + IntToString(q.v0.x) + "_" + IntToString(q.v0.y)
  }

  /** A line ID splits at `_` into "line" and two numerals that read back as the first
      vertex. */
  lemma LineIdRoundTrip(q: Quad)
    ensures var pieces := Split(LineId(q), '_');
      && |pieces| == 3 && pieces[0] == "line"
      && ParseInt(pieces[1]) == Some(q.v0.x) && ParseInt(pieces[2]) == Some(q.v0.y)
  {
    var x, y := IntToString(q.v0.x), IntToString(q.v0.y);
    NoSeparators(q.v0.x);
    NoSeparators(q.v0.y);
    assert Join([x, y], '_') == x + "_" + y by {
      assert [x, y][1..] == [y];
    }
    assert Join(["line", x, y], '_') == LineId(q) by {
      assert ["line", x, y][1..] == [x, y];
    }
    SplitJoin(["line", x, y], '_');
    IntRoundTrip(q.v0.x);
    IntRoundTrip(q.v0.y);
  }

  /** The BASELINE attribute: x of the first vertex, its y plus the box height, then
      the third vertex's x and y. */
  function Baseline(q: Quad): string {
    var height := q.v2.y - q.v0.y;
    IntToString(q.v0.x) + " " + IntToString(q.v0.y + height) + " "
      + IntToString(q.v2.x) + " " + IntToString(q.v2.y)
  }

  /** BASELINE reads back as the segment from (v0.x, v2.y) to (v2.x, v2.y): the
      baseline runs along the lower edge of the box. */
  lemma BaselineRoundTrip(q: Quad)
    ensures var pieces := Split(Baseline(q), ' ');
      && |pieces| == 4
      && ParseInt(pieces[0]) == Some(q.v0.x) && ParseInt(pieces[1]) == Some(q.v2.y)
      && ParseInt(pieces[2]) == Some(q.v2.x) && ParseInt(pieces[3]) == Some(q.v2.y)
  {
    var xs := [q.v0.x, q.v2.y, q.v2.x, q.v2.y];
    var r := Rendered(xs);
    assert r == [IntToString(q.v0.x), IntToString(q.v2.y), IntToString(q.v2.x), IntToString(q.v2.y)];
    assert Join(r, ' ') == Baseline(q) by {
      JoinFour(r[0], r[1], r[2], r[3], ' ');
      assert q.v0.y + (q.v2.y - q.v0.y) == q.v2.y;
    }
    RenderedNoSpace(xs);
    SplitJoin(r, ' ');
    IntRoundTrip(q.v0.x);
    IntRoundTrip(q.v2.y);
    IntRoundTrip(q.v2.x);
  }

  /** The attributes of one line. */
  function LineAttrsOf(l: Line): (r: LineAttrs)
    ensures r.blockBox == r.lineBox == r.stringBox == Box(l.bbox)
    ensures r.blockId == "text_block_1" && r.content == l.text
    ensures r.points == Points(l.bbox) && r.lineId == LineId(l.bbox)
    ensures r.baseline == Baseline(l.bbox)
  {
    LineAttrs(Box(l.bbox), "text_block_1", Points(l.bbox), LineId(l.bbox), Baseline(l.bbox),
              Box(l.bbox), l.text, Box(l.bbox))
  }

  /** The attributes of a whole reply: one entry per paragraph line, in line order,
      each carrying the line's text and the block ID "text_block_1". */
  function AltoLines(reply: VisionReply): (r: Result<seq<LineAttrs>, string>)
    ensures r.Failure? <==> LinesFromParagraphs(reply).Failure?
    ensures r.Success? ==> var lines := LinesFromParagraphs(reply).value;
      |r.value| == |lines| && forall k :: 0 <= k < |lines| ==>
        r.value[k].content == lines[k].text && r.value[k].blockId == "text_block_1"
        && r.value[k].lineBox == Box(lines[k].bbox)
    ensures r.Success? ==> var lines := LinesFromParagraphs(reply).value;
      |r.value| == |lines| && forall k :: 0 <= k < |lines| ==> r.value[k] == LineAttrsOf(lines[k])
  {
    match LinesFromParagraphs(reply)
    case Failure(e) => Failure(e)
    case Success(lines) => Success(seq(|lines|, k requires 0 <= k < |lines| => LineAttrsOf(lines[k])))
  }
}
