# ANC-cli place extraction, modelled in Dafny

ANC-cli reads scanned forms. Google Vision OCR turns each page into words with
bounding polygons. The tool then looks for the form's field
labels ("departamento", "municipio", ...) and takes the words in a band beside each
label. It matches those words against dictionaries of place names and writes one row
per file.

This project models the pure logic of that pipeline as immutable datatypes and
functions, and proves properties of it:

- `Geometry` holds the strict point-in-band test `in_box`, as `get_data` calls it.
- `Locator` models `get_data`: near-matching labels, in-band candidates, and the prior
  and next words.
- `Fuzzy` covers Levenshtein distance and the near-match search, which the model takes
  as a parameter. It also holds `has_terms`.
- `Matching` holds the pure steps of the `process` command:
  - the term filter;
  - page selection;
  - the pairing of token and span place matches into records;
  - name normalisation;
  - the fold of the records into one row per file.
- `Paragraphs` holds the paragraph lines of a Vision `fullTextAnnotation`, the
  "next word" search, and the per-image rows of the forms script.
- `Alto` holds the per-line attribute values of the ALTO v4 export.
- `DocAi` holds the Document AI text-anchor slicing and table extraction.
- `Chars`, `Strings`, `Decimal` and `Wrappers` hold the Python string and integer
  behaviour the scripts rely on: `lower`, `title`, `in`, `replace`, `split`, `join`,
  `strip` and `str(int)`, plus `Option`/`Result`.

The spaczz `FuzzyMatcher`, spaCy tokenisation and `fuzzysearch.find_near_matches` are
not reimplemented. They are function-valued parameters:

- a place or term matcher maps a text to the `(match_id, start, end, ratio)` tuples
  it reports;
- the near-match search maps (pattern, text, maximum distance) to the number of matches.

`Fuzzy.Faithful` states what the model assumes about that search: it reports a match
exactly when some substring of the text is within the given Levenshtein distance.

`in_box` is modelled as the code calls it. `get_data` passes the label's
(lower-right x, lower-left y) as the first corner and its (upper-right x, upper-right y)
as the second. The band actually searched is therefore x > lower-right x, lower-left y
< y < upper-right y + 75. That is not the band to the right of the label that the
variable names describe.

## Model

| member | source | states |
|---|---|---|
| Geometry.InBoxIsOpenBand | anc_cli/utils.py:14-33 | in_box holds exactly when the point is inside the open band right of the first point, between its y and the second point's y plus 75; points on any edge are rejected |
| Geometry.LabelBandAsWritten | anc_cli/utils.py:72-87 | with the call-site argument order, the band checked is x > lower-right x and lower-left y < y < upper-right y + 75 |
| Geometry.LabelNotInOwnBand | anc_cli/utils.py:58-87 | a label whose upper-left corner is not right of its lower-right corner, or not below its lower-left corner, is not in its own band |
| Locator.MatchCounts | anc_cli/utils.py:54-57 | for every annotation, the number of near matches of the lowered field in its lowered description at the given distance |
| Locator.BandHits | anc_cli/utils.py:81-87 | every candidate gathered for a label lies after annotation 0, inside that label's band |
| Locator.HitsFrom | anc_cli/utils.py:54-87 | every (label, candidate) pair has a near-matching label and an in-band candidate, neither being annotation 0 |
| Locator.GetData | anc_cli/utils.py:35-99 | each result pairs a near-matching label with an in-band candidate: key and value are their descriptions, prior word the annotation before the candidate, next word the one after it or "" for the last, page and filename the form's |
| Locator.GetDataLabelOrder | anc_cli/utils.py:54-98 | results come label by label, in annotation order |
| Locator.GetDataWithinLabel | anc_cli/utils.py:54-87 | within one label the results are the label's in-band candidates in increasing annotation order, repeated once per near match; with GetDataLabelOrder this fixes the order of all results |
| Locator.HitMultiplicity | anc_cli/utils.py:54-98 | a (label, candidate) pair appears once per near match inside the label when the candidate is in its band and neither is annotation 0, and never otherwise |
| Locator.LabelNeverOwnValue | anc_cli/utils.py:60-87 | under the corner condition above, a label is never returned as its own value |
| Locator.GetDataCount | anc_cli/utils.py:54-98 | the number of results is the sum over labels of near matches times words in the label's band |
| Fuzzy.HasTermsMeaning | anc_cli/utils.py:107-113 | with a faithful matcher, has_terms holds exactly when "departamento" or "municipo" is within distance 1 of a piece of the lowered text |
| Fuzzy.UpperTermNeverNear | anc_cli/utils.py:109-111 | the unlowered term "DEP.INT.COM." is never within distance 1 of any piece of a lowered text |
| Fuzzy.LoweredTermFound | anc_cli/utils.py:107-113 | with the terms lowered too, a text containing "dep.int.com." is recognised |
| Matching.TermsFound | anc_cli/main.py:97 | a match id is kept exactly when some match has a ratio strictly above the threshold; the list is empty exactly when no ratio exceeds it |
| Matching.DocWithTermMembers | anc_cli/main.py:80-100 | an index is in doc_w_term exactly when some response of some page has terms in its annotation 0 and more annotations than the index |
| Matching.SelectedFrom | anc_cli/main.py:113-114 | the visited page indices are exactly the indices of pages that occur in doc_w_term, in increasing order |
| Matching.PageSelectionAsWritten | anc_cli/main.py:83-114 | page p is visited exactly when some response of any page has terms and more than p annotations |
| Matching.SelectionMissesTermPage | anc_cli/main.py:83-114 | with three one-word pages (two annotations each) of which only the last has a term, pages 0 and 1 are visited and page 2 is not |
| Matching.PagesWithTerms | anc_cli/main.py:84-100 | the corrected selection holds exactly the pages one of whose responses has terms, in page order |
| Matching.PlaceName | anc_cli/main.py:134 | the name is the text after the first `_` of the label, up to the next `_` or the end |
| Matching.Normalize | anc_cli/main.py:134-137 | the normalised name has the length of the name, contains no "Del", and is the title-cased name with the "D" of each "Del" lowered |
| Strings.TitleOrdinalAndMicro | anc_cli/main.py:134 | `title()` treats the ordinal indicators as cased, so "1ºa" stays "1ºa", and starts a word with the micro sign as capital mu |
| Matching.PairRecord | anc_cli/main.py:129-139 | the record's term is always the token label's kind, title-cased; its name comes from the span label when both kinds agree and from the token label otherwise; file and page are the result's |
| Matching.Category | anc_cli/main.py:129-130 | the kind is the text of the label before its first `_`, or the whole label when it has none |
| Matching.Disambiguate | anc_cli/main.py:125-140 | at most min(token matches, span matches) records; a record for every zipped pair with either ratio above the threshold and for no other pair |
| Matching.DisambiguateCount | anc_cli/main.py:125-126 | exactly one record per accepted zipped pair |
| Matching.DisambiguateOrder | anc_cli/main.py:125-140 | the records come in zip order: record a is the record of the a-th accepted pair, where the accepted pair indices are exactly those below both lengths with either ratio above the threshold, in increasing order |
| Matching.EntriesRecords | anc_cli/main.py:119-140 | a single result gives exactly its own records; every record carries the filename and page of the result it came from and no "Del" in its name |
| Matching.EntriesRecordsAppend | anc_cli/main.py:119-140 | the records of two result lists one after the other are the first list's records followed by the second's: results are processed in order |
| Matching.EntriesRecordsMembers | anc_cli/main.py:119-140 | a record is produced exactly when some result has an accepted zipped pair of token and span place matches that gives it |
| Matching.TermsRecords | anc_cli/main.py:115-140 | a single term gives exactly the records of its get_data results; every record of a page carries that page's filename and page number |
| Matching.TermsRecordsAppend | anc_cli/main.py:115-140 | the records of two term lists one after the other are the first list's records followed by the second's: terms are processed in order |
| Matching.TermsRecordsMembers | anc_cli/main.py:115-140 | a record comes out of a page exactly when the get_data results of one of the terms give it |
| Matching.PageRecords | anc_cli/main.py:115-118 | a visited page fails exactly when there is a term and the page has no response or its first response has no `textAnnotations`; otherwise its records are those of its terms, none without terms |
| Matching.PagesRecords | anc_cli/main.py:113-140 | the run fails exactly when there are terms and a visited page has no readable first response; otherwise every record comes from a visited page |
| Matching.PagesRecordsAppend | anc_cli/main.py:112-140 | the records of two page lists one after the other are the first list's records followed by the second's, or the first failure: pages are processed in order |
| Matching.PagesRecordsMembers | anc_cli/main.py:112-140 | without a failure, a record comes out exactly when one of the pages gives it for one of the terms |
| Matching.Output | anc_cli/main.py:80-118 | the run fails exactly when some response of some page lacks `textAnnotations`, or when there are terms and a visited page has no readable first response |
| Matching.OutputMembers | anc_cli/main.py:112-140 | on success, a record is in output exactly when a visited page gives it for one of the terms |
| Matching.OutputEmits | anc_cli/main.py:112-140 | on success, output holds exactly the records of the accepted zipped place-match pairs of the get_data results, over the visited pages and the terms |
| Matching.OutputProvenance | anc_cli/main.py:112-140 | every record of output carries the filename and page number of a visited page |
| Matching.IntendedProvenance | anc_cli/main.py:112-140 | with the corrected selection, every record comes from a page whose own text has terms |
| Matching.Basename | anc_cli/main.py:169 | the row's filename is the longest suffix without `/`: either the whole name or the text after the last `/` |
| Matching.Distinct | anc_cli/main.py:166-167 | the distinct filenames are exactly the output's filenames, each once |
| Matching.FirstName | anc_cli/main.py:171-174 | the name of the first record, in output order, with the file and the title-cased term; none exactly when no record fits |
| Matching.RowFrom | anc_cli/main.py:170-174 | each term with a fitting record adds its column, set to the first fitting name; other keys keep their value |
| Matching.Row | anc_cli/main.py:168-174 | "filename" holds the basename; a term has a column exactly when some record of the file carries its title-cased form, and the column holds the first such record's name; no other keys |
| Matching.Aggregate | anc_cli/main.py:163-175 | one row per distinct filename of the output; each row has its file's basename under "filename", a term's column exactly when some record of that file carries the term, holding the first such record's name |
| Matching.AggregateOneRowPerFile | anc_cli/main.py:166-175 | the number of rows is the number of distinct filenames, and every filename of the output has a row |
| Paragraphs.ParagraphJoin | altofromvision.py:16-21 | a line's text is its words' texts joined by spaces, with a trailing space; a paragraph without words gives "" |
| Paragraphs.ParagraphSplit | altofromvision.py:16-21 | when no word contains a space, splitting the line at spaces gives back the words and one empty piece |
| Paragraphs.BlockLinesOrder | altofromvision.py:12-23 | exactly one line per paragraph, in block-then-paragraph order, with the paragraph's text and bounding box |
| Paragraphs.LinesFromParagraphs | altofromvision.py:10-24 | fails exactly when the reply has no response, no text annotation or no page; otherwise the lines of the first page of the first response |
| Paragraphs.NextIndex | altofromvision.py:26-33 | none exactly when no line mentions the text or no line lies strictly below-right of the start line |
| Paragraphs.FindNextWord | anc-forms.py:29-36 | none exactly when there is no start or no next line; otherwise the line at the next index |
| Paragraphs.NextWordMeaning | altofromvision.py:28-30 | the start is the first line whose lowered text contains the lowered search text; the result is the first line strictly below-right of it, and never the start itself |
| Paragraphs.FormRow | anc-forms.py:70-81 | each of "municipio", "depintcom" and "departamento" is present exactly when its search ('municip', 'dep.int', 'departamen') finds a next line, and holds that line's text; no other key |
| Paragraphs.ImageRows | anc-forms.py:69-82 | one row per image, in image order, unless some reply has no lines |
| Alto.Box | altofromvision.py:71 | HPOS, VPOS, WIDTH and HEIGHT read back as v0.x, v0.y, v2.x − v0.x and v2.y − v0.y |
| Alto.BoxSpan | altofromvision.py:71-79 | HPOS + WIDTH is the third vertex's x and VPOS + HEIGHT its y |
| Alto.PointsFlat | altofromvision.py:73 | POINTS is the eight coordinates, vertex by vertex, joined by single spaces |
| Alto.PointsRoundTrip | altofromvision.py:73 | splitting POINTS at spaces gives eight numerals that read back as the vertices' coordinates |
| Alto.LineIdRoundTrip | altofromvision.py:75 | the line ID splits at `_` into "line" and the first vertex's x and y |
| Alto.BaselineRoundTrip | altofromvision.py:76-78 | BASELINE reads back as v0.x, v2.y, v2.x, v2.y: a segment along the lower edge of the box |
| Alto.LineAttrsOf | altofromvision.py:68-79 | TextBlock, TextLine and String carry the same box; the block ID is "text_block_1"; POINTS, the line ID and BASELINE are those of the line's box; the String content is the line's text |
| Alto.AltoLines | altofromvision.py:67-79 | one attribute set per line, in line order, each that line's attributes; fails exactly when the lines cannot be read |
| DocAi.SliceBound | anc_cli/doc_ai.py:38-40 | a slice bound in range is kept, one past the end is clamped to the length, a negative one counts from the end and is clamped at 0 |
| DocAi.PySlice | anc_cli/doc_ai.py:40 | the slice is the text between the two normalised bounds, or "" when they do not increase: in-range bounds give text[a..b], an end past the text is clamped, negative bounds count from the end |
| DocAi.Concatenation | anc_cli/doc_ai.py:34-40 | no segments give "", one segment gives its slice |
| DocAi.ConcatenationAppend | anc_cli/doc_ai.py:34-40 | the text of two segment lists one after the other is the first text followed by the second: each segment contributes its slice in segment order |
| DocAi.TextAnchorToText | anc_cli/doc_ai.py:29-41 | the result is the concatenation with surrounding whitespace removed and newlines turned into spaces: no newline, no leading or trailing whitespace, "" without segments |
| DocAi.AnchorTextBound | anc_cli/doc_ai.py:37-41 | the result is no longer than the concatenated slices |
| DocAi.SingleSegment | anc_cli/doc_ai.py:37-40 | one in-range segment contributes exactly that piece of the text |
| DocAi.GetTableData | anc_cli/doc_ai.py:13-27 | one list per row and one string per cell, in order, each the cell anchor's text |
| DocAi.TableCellsClean | anc_cli/doc_ai.py:19-27 | no cell string has a newline or surrounding whitespace |

## Left out

- Cloud OCR calls, PDF rasterisation, file reading and writing, and CSV, JSON and YAML
  output are not modelled. This covers `pdf_to_data` and `image_to_byte_array` in
  anc_cli/utils.py, `vision` and `pdf_to_img` in anc-forms.py, and `pdf_to_data` in
  anc_cli/doc_ai.py. They are I/O.
- The typer commands, settings loading, the output directory and `docAI` in
  anc_cli/main.py are not modelled. They are command wiring around the modelled steps.
  The module-level loop of anc-forms.py is reduced to `Paragraphs.ImageRows`.
- The spaCy tokeniser, the spaczz `FuzzyMatcher` and `spacy.util.filter_spans` are
  parameters, as is `fuzzysearch.find_near_matches`. Only the count of matches is
  modelled. These are foreign libraries.
- `doc_places` is not modelled. `process` fills it (anc_cli/main.py:101-104) and never
  reads it.
- ALTO element construction and serialisation are not modelled. This includes the
  fixed Description and Tags elements and the page WIDTH and HEIGHT. Only the per-line
  attribute values are modelled.
- Bounding polygons are modelled with exactly four vertices with integer `x` and `y`.
  - Vision omits a zero coordinate. `get_data` and `vision_to_alto` then raise
    KeyError. `find_next_word` swallows it in its bare `except` and returns None
    (altofromvision.py:26-33), so the form row silently loses that column.
  - A polygon with a different number of vertices would change POINTS.
  - Both are left out.
- Case mapping covers the ASCII letters, the Latin-1 letters (the ordinal indicators
  `ª` and `º` and the micro sign `µ` included) and the Greek mu pair `Μ`/`μ` that `µ`
  upper-cases into. Other Unicode letters are treated as uncased. `ß` and `ÿ`
  upper-case to themselves, where Python expands `ß` to "SS" and maps `ÿ` to U+0178.
- Matching.Aggregate: Python iterates over `set(filenames)`, whose order is not fixed.
  The model takes the order of first occurrence. Only the set of rows and their number
  are promised.
- Matching.Disambiguate: requires every token and span label to contain `_`. The code
  only splits the chosen label of an accepted pair. The labels are built as
  `'municipio_' + name` and `'departamento_' + name` (anc_cli/main.py:33-36), so every
  label does contain `_`.
- Locator.GetData: requires the form's first response to exist and to carry
  `textAnnotations`. `get_data` raises IndexError or KeyError otherwise (anc_cli/utils.py:54);
  `Matching.PageRecords` models that failure.
- Paragraphs.LinesFromParagraphs: models a missing response, text annotation or page as
  a failure. Other missing keys are not modelled.

## Findings

| source | as written | input that shows it | evidently intended | confidence | as-written member | corrected member |
|---|---|---|---|---|---|---|
| anc_cli/utils.py:109-111 | the term 'DEP.INT.COM.' is searched unlowered in `text.lower()` | any text, such as "DEP.INT.COM. 5": the lowered text has no capitals, and two capitals cannot be edited away in one step | the third term is found in texts that contain it | high, not executed | Fuzzy.UpperTermNeverNear | Fuzzy.LoweredTermFound |
| anc_cli/main.py:99-114 | `doc_w_term` collects annotation indices, which are then compared with page indices | three one-word pages, each with two annotations (the whole text, then the word), only page 2 with a term: doc_w_term is [0, 1], so pages 0 and 1 are processed and page 2 is not | process the pages whose text has terms | high, not executed | Matching.SelectionMissesTermPage | Matching.PagesWithTerms |
