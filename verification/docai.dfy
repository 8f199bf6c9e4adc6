/** Table text extraction of anc_cli/doc_ai.py: Document AI addresses the text of a
    cell by segments of offsets into the whole document's text. */
module DocAi {
  import opened Chars
  import opened Strings

  /** One `text_segments` entry; unset offsets read as 0. */
  datatype Segment = Segment(startIndex: int, endIndex: int)

  datatype TextAnchor = TextAnchor(textSegments: seq<Segment>)

  datatype Layout = Layout(textAnchor: TextAnchor)

  datatype TableCell = TableCell(layout: Layout)

  datatype TableRow = TableRow(cells: seq<TableCell>)

  /** Python's normalisation of a slice bound for a sequence of length n: a negative
      bound counts from the end, and the result is clamped to 0..n. */
  function SliceBound(i: int, n: nat): (r: nat)
    ensures r <= n
    ensures 0 <= i <= n ==> r == i
    ensures i > n ==> r == n
    ensures i < 0 ==> r == (if i + n < 0 then 0 else i + n)
  {
    if i < 0 then (if i + n < 0 then 0 else i + n) else if i > n then n else i
  }

  /** Python's `s[a:b]`. */
  function PySlice(s: string, a: int, b: int): (r: string)
    ensures |r| <= |s|
    ensures exists lo :: OccursAt(s, r, lo)
    ensures 0 <= a <= b <= |s| ==> r == s[a..b]
    ensures 0 <= b <= a ==> r == ""
    ensures a >= |s| ==> r == ""
    ensures var lo, hi := SliceBound(a, |s|), SliceBound(b, |s|);
      r == (if lo < hi then s[lo..hi] else "")
  {
    var lo := SliceBound(a, |s|);
    var hi := SliceBound(b, |s|);
    if lo < hi then
      assert OccursAt(s, s[lo..hi], lo);
      s[lo..hi]
    else
      assert OccursAt(s, "", 0);
      ""
  }

  /** The slice of every segment, in segment order. */
  function Slices(segments: seq<Segment>, text: string): (r: seq<string>)
    ensures |r| == |segments|
    ensures forall k :: 0 <= k < |segments| ==>
      r[k] == PySlice(text, segments[k].startIndex, segments[k].endIndex)
  {
    seq(|segments|, k requires 0 <= k < |segments| =>
      PySlice(text, segments[k].startIndex, segments[k].endIndex))
  }

  /** The slices of all segments, concatenated in segment order. */
  function Concatenation(segments: seq<Segment>, text: string): (r: string)
    ensures |segments| == 0 ==> r == ""
    ensures |segments| == 1 ==> r == PySlice(text, segments[0].startIndex, segments[0].endIndex)
  {
    var pieces := Slices(segments, text);
    assert |pieces| == 1 ==> pieces == [pieces[0]];
    if |pieces| == 1 then FlattenOne(pieces[0]); Flatten(pieces) else Flatten(pieces)
  }

  /** The text of consecutive segment lists is the concatenation of their texts: each
      segment contributes its own slice, in segment order. */
  lemma ConcatenationAppend(s: seq<Segment>, t: seq<Segment>, text: string)
    ensures Concatenation(s + t, text) == Concatenation(s, text) + Concatenation(t, text)
  {
    assert Slices(s + t, text) == Slices(s, text) + Slices(t, text);
    FlattenAppend(Slices(s, text), Slices(t, text));
  }

  /** Newlines become spaces, other characters stay. */
  function NewlineToSpace(c: char): char {
    if c == '\n' then ' ' else c
  }

  /** r is the part of c from lo on with every newline replaced by a space, and only
      whitespace of c lies around that part. */
  predicate SpacedCoreAt(r: string, c: string, lo: int) {
    && 0 <= lo <= |c| - |r|
    && (forall k :: 0 <= k < |r| ==> r[k] == NewlineToSpace(c[lo + k]))
    && (forall k :: 0 <= k < lo ==> IsSpace(c[k]))
    && (forall k :: lo + |r| <= k < |c| ==> IsSpace(c[k]))
  }

  /** `text_anchor_to_text(anchor, text)`: the concatenated slices, stripped of the
      surrounding whitespace, with newlines turned into spaces. The result has no
      newline, neither starts nor ends with whitespace, is no longer than the
      concatenation, and is "" for an anchor without segments. */
  function TextAnchorToText(anchor: TextAnchor, text: string): (r: string)
    ensures '\n' !in r
    ensures Trimmed(r)
    ensures exists lo :: SpacedCoreAt(r, Concatenation(anchor.textSegments, text), lo)
    ensures |anchor.textSegments| == 0 ==> r == ""
  {
    var c := Concatenation(anchor.textSegments, text);
    var t := Strip(c);
    var r := ReplaceAll(t, "\n", " ");
    SpacedStrip(c, t, r);
    r
  }

  /** Replacing the newlines of a stripped text keeps it trimmed and free of newlines. */
  lemma SpacedStrip(c: string, t: string, r: string)
    requires Trimmed(t) && CoreOf(t, c)
    requires r == ReplaceAll(t, "\n", " ")
    ensures '\n' !in r && Trimmed(r)
    ensures exists lo :: SpacedCoreAt(r, c, lo)
  {
    assert "\n" == ['\n'] && " " == [' '];
    ReplaceCharPointwise(t, '\n', ' ');
    var lo :| CoreAt(t, c, lo);
    forall k | 0 <= k < |r|
      ensures r[k] == NewlineToSpace(t[k]) && t[k] == c[lo + k]
    {
    }
    assert SpacedCoreAt(r, c, lo);
    assert forall k :: 0 <= k < |r| ==> r[k] != '\n';
  }

  /** Stripping and the newline replacement never lengthen the text: the result is
      at most as long as the slices together. */
  lemma AnchorTextBound(anchor: TextAnchor, text: string)
    ensures |TextAnchorToText(anchor, text)| <= |Concatenation(anchor.textSegments, text)|
  {
    var c := Concatenation(anchor.textSegments, text);
    var r := TextAnchorToText(anchor, text);
    var lo :| SpacedCoreAt(r, c, lo);
  }

  /** A single segment inside the text contributes exactly that piece of the text. */
  lemma SingleSegment(text: string, a: nat, b: nat)
    requires a <= b <= |text|
    ensures Concatenation([Segment(a, b)], text) == text[a..b]
  {
    assert [Segment(a, b)][1..] == [];
  }

  /** `get_table_data(rows, text)`: one list per row and one string per cell, in
      order, each cell's string being its anchor's text. */
  function GetTableData(rows: seq<TableRow>, text: string): (r: seq<seq<string>>)
    ensures |r| == |rows|
    ensures forall i :: 0 <= i < |rows| ==> |r[i]| == |rows[i].cells|
    ensures forall i, j :: 0 <= i < |rows| && 0 <= j < |rows[i].cells| ==>
      r[i][j] == TextAnchorToText(rows[i].cells[j].layout.textAnchor, text)
  {
    seq(|rows|, i requires 0 <= i < |rows| =>
      seq(|rows[i].cells|, j requires 0 <= j < |rows[i].cells| =>
        TextAnchorToText(rows[i].cells[j].layout.textAnchor, text)))
  }

  /** No table cell carries a newline or surrounding whitespace. */
  lemma TableCellsClean(rows: seq<TableRow>, text: string)
    ensures var r := GetTableData(rows, text);
      forall i, j :: 0 <= i < |r| && 0 <= j < |r[i]| ==> '\n' !in r[i][j] && Trimmed(r[i][j])
  {
    var r := GetTableData(rows, text);
    forall i, j | 0 <= i < |r| && 0 <= j < |r[i]|
      ensures '\n' !in r[i][j] && Trimmed(r[i][j])
    {
      assert r[i][j] == TextAnchorToText(rows[i].cells[j].layout.textAnchor, text);
    }
  }
}
