/** Vertices, bounding quadrilaterals and the strict point-in-band test of
    anc_cli/utils.py. */
module Geometry {

  datatype Vertex = Vertex(x: int, y: int)

  /** A four-vertex bounding polygon. The code names the vertices, in order, upper
      left, lower left, lower right and upper right (image coordinates, y downwards). */
  datatype Quad = Quad(v0: Vertex, v1: Vertex, v2: Vertex, v3: Vertex)

  /** The fixed vertical slack, in pixels, below the band's lower edge. */
  const Slack: int := 75

  /** An axis-parallel band with open edges: left < x, top < y < bottom. */
  datatype Band = Band(left: int, top: int, bottom: int)

  predicate InBand(b: Band, p: Vertex) {
    b.left < p.x && b.top < p.y && p.y < b.bottom
  }

  /** `in_box(box_top_right, box_bottom_right, word_upper_left)`: the word lies to the
      right of the first point and strictly between the first point's y and the second
      point's y plus the slack. */
  predicate InBox(first: Vertex, second: Vertex, p: Vertex) {
    p.x > first.x && first.y < p.y && p.y < second.y + Slack
  }

  /** in_box is membership in the open band its two points span; points on any of the
      three edges are rejected. */
  lemma InBoxIsOpenBand(first: Vertex, second: Vertex, p: Vertex)
    ensures InBox(first, second, p) <==> InBand(Band(first.x, first.y, second.y + Slack), p)
    ensures !InBox(first, second, Vertex(first.x, p.y))
    ensures !InBox(first, second, Vertex(p.x, first.y))
    ensures !InBox(first, second, Vertex(p.x, second.y + Slack))
  {
  }

  /** The test get_data applies to a word's upper-left point for a label polygon q:
      it passes (lower-right x, lower-left y) as in_box's first point and
      (upper-right x, upper-right y) as its second. */
  predicate InLabelBand(q: Quad, p: Vertex) {
    InBox(Vertex(q.v2.x, q.v1.y), Vertex(q.v3.x, q.v3.y), p)
  }

  /** The band get_data really searches: right of the lower-right x, below the lower-left
      y and above the upper-right y plus the slack. */
  lemma LabelBandAsWritten(q: Quad, p: Vertex)
    ensures InLabelBand(q, p) <==> InBand(Band(q.v2.x, q.v1.y, q.v3.y + Slack), p)
    ensures InLabelBand(q, p) <==> p.x > q.v2.x && q.v1.y < p.y < q.v3.y + Slack
  {
  }

  /** A label whose upper-left corner is not right of its lower-right corner, or not
      below its lower-left corner, is never inside its own band. */
  lemma LabelNotInOwnBand(q: Quad)
    requires q.v0.x <= q.v2.x || q.v0.y <= q.v1.y
    ensures !InLabelBand(q, q.v0)
  {
  }
}
