/** `parse_pdf`: the walk over the pages, their blocks in reading order and
    the lines of each block that turns a cause list into case records, and
    the final filter that keeps the complete ones.

    The walk is specified by folds: `LineStep` is what one line does,
    `RunLines`, `RunBlocks`, `PageStep` and `RunDoc` apply it to a block, a
    page and the whole document, and `ParseSpec` is the result. The method
    `ParsePdf` is the loop nest of the source, proved equal to `ParseSpec`. */
module Parser {
  import opened Wrappers
  import opened Seqs
  import opened Text
  import opened Patterns
  import opened Normalize
  import opened Geometry
  import opened ReadingOrder

  /** One case record, the dictionary with keys "court", "serial",
      "petitioner", "respondent" and "page". */
  datatype Entry = Entry(court: Option<nat>, serial: string, petitioner: Option<string>,
                         respondent: Option<string>, page: nat)

  /** Python truth of a court number: None and 0 are false. */
  predicate CourtTruthy(c: Option<nat>) {
    c.Some? && c.value != 0
  }

  /** Python truth of a party name: None and "" are false. */
  predicate NameTruthy(t: Option<string>) {
    t.Some? && t.value != []
  }

  /** The test of the final filter: a court, a petitioner and a respondent. */
  predicate Complete(e: Entry) {
    CourtTruthy(e.court) && NameTruthy(e.petitioner) && NameTruthy(e.respondent)
  }

  /** `detect_court_number(page) or last_court`. */
  function ResolveCourt(detected: Option<nat>, last: Option<nat>): Option<nat> {
    if CourtTruthy(detected) then detected else last
  }

  // ---------------------------------------------------------------------
  // One line
  // ---------------------------------------------------------------------

  /** What a stripped, non-empty line is, tested in the source's order: a
      serial (left column only), boilerplate, a "Versus" line, or content. */
  datatype LineKind = SerialLine(serial: string) | MetaLine | VersusLine | ContentLine

  function Classify(line: string, isLeft: bool): LineKind {
    if isLeft && SerialMatch(line).Some? then SerialLine(SerialMatch(line).value)
    else if IsMetaLine(line) then MetaLine
    else if IsVersus(line) then VersusLine
    else ContentLine
  }

  /** The walk within one page: every record so far, the index of the record
      being filled (`current`, None until the page's first serial) and
      whether a "Versus" line is waiting for its respondent (`capture_resp`). */
  datatype Walk = Walk(items: seq<Entry>, current: Option<nat>, capture: bool)

  predicate Valid(w: Walk) {
    w.current.Some? ==> w.current.value < |w.items|
  }

  /** What the page gives each record it opens: its court and its page
      number, counted from 1. */
  datatype PageInfo = PageInfo(court: Option<nat>, page: nat)

  /** A left-column content line while a record is open: it names the
      petitioner if there is none yet and no "Versus" line is pending, else
      the respondent if a "Versus" line is pending and there is none yet,
      which ends the capture; otherwise it is dropped. The record is changed
      where it sits in `items`, as the source changes the dictionary that
      both `current` and `items` refer to. */
  function FillSlot(w: Walk, line: string): Walk
    requires Valid(w) && w.current.Some?
  {
    var c := w.current.value;
    var e := w.items[c];
    if e.petitioner.None? && !w.capture then
      w.(items := w.items[c := e.(petitioner := Some(SmartTitle(line)))])
    else if w.capture && e.respondent.None? then
      Walk(w.items[c := e.(respondent := Some(SmartTitle(line)))], w.current, false)
    else w
  }

  /** One raw line of a block, in the left column or not. */
  function LineStep(w: Walk, info: PageInfo, isLeft: bool, raw: string): (r: Walk)
    requires Valid(w)
    ensures Valid(r)
  {
    var line := Strip(raw);
    if line == [] then w
    else
      match Classify(line, isLeft)
      case SerialLine(n) =>
        Walk(w.items + [Entry(info.court, n, None, None, info.page)], Some(|w.items|), false)
      case MetaLine => w
      case VersusLine => w.(capture := true)
      case ContentLine => if isLeft && w.current.Some? then FillSlot(w, line) else w
  }

  // ---------------------------------------------------------------------
  // Blocks, pages, the document
  // ---------------------------------------------------------------------

  /** The lines of a block, one after another. */
  function RunLines(w: Walk, info: PageInfo, isLeft: bool, lines: seq<string>): (r: Walk)
    requires Valid(w)
    ensures Valid(r)
    decreases |lines|
  {
    if lines == [] then w
    else LineStep(RunLines(w, info, isLeft, lines[..|lines| - 1]), info, isLeft, lines[|lines| - 1])
  }

  /** A block is in the left column when its left edge is before the split. */
  function BlockStep(w: Walk, info: PageInfo, splitX: real, b: Block): (r: Walk)
    requires Valid(w)
    ensures Valid(r)
  {
    RunLines(w, info, b.x0 < splitX, SplitLines(b.text))
  }

  /** The blocks of a page, one after another. */
  function RunBlocks(w: Walk, info: PageInfo, splitX: real, bs: seq<Block>): (r: Walk)
    requires Valid(w)
    ensures Valid(r)
    decreases |bs|
  {
    if bs == [] then w
    else BlockStep(RunBlocks(w, info, splitX, bs[..|bs| - 1]), info, splitX, bs[|bs| - 1])
  }

  /** The walk over the document: every record so far and `last_court`. */
  datatype Doc = Doc(items: seq<Entry>, lastCourt: Option<nat>)

  /** The court of a page: the one it names, or the last one named before. */
  function PageCourt(d: Doc, p: Page): Option<nat> {
    ResolveCourt(CourtOfPage(p), d.lastCourt)
  }

  /** Page `pno` (from 0): its blocks in reading order, walked from no open
      record and no pending "Versus" line. */
  function PageStep(d: Doc, pno: nat, p: Page): Doc {
    var court := PageCourt(d, p);
    var w := RunBlocks(Walk(d.items, None, false), PageInfo(court, pno + 1), PageSplitX(p), SortBlocks(p.blocks));
    Doc(w.items, if CourtTruthy(court) then court else d.lastCourt)
  }

  /** The pages, one after another. */
  function RunDoc(pages: seq<Page>): Doc
    decreases |pages|
  {
    if pages == [] then Doc([], None)
    else PageStep(RunDoc(pages[..|pages| - 1]), |pages| - 1, pages[|pages| - 1])
  }

  /** What `parse_pdf` returns: the complete records, in order. */
  function ParseSpec(pages: seq<Page>): seq<Entry> {
    Filter(RunDoc(pages).items, Complete)
  }

  // ---------------------------------------------------------------------
  // parse_pdf
  // ---------------------------------------------------------------------

  /** `parse_pdf`, with its loops over pages, blocks and lines; the document
      is given as its pages. */
  method ParsePdf(pages: seq<Page>) returns (result: seq<Entry>)
    ensures result == ParseSpec(pages)
  {
    var items: seq<Entry> := [];
    var lastCourt: Option<nat> := None;
    for pno := 0 to |pages|
      invariant Doc(items, lastCourt) == RunDoc(pages[..pno])
    {
      items, lastCourt := ParsePage(items, lastCourt, pno, pages[pno]);
      PrefixStep(pages, pno);
    }
    assert pages[..|pages|] == pages;
    result := Filter(items, Complete);
  }

  lemma PrefixStep<T>(s: seq<T>, i: nat)
    requires i < |s|
    ensures s[..i + 1][..i] == s[..i] && s[..i + 1][i] == s[i]
  {
  }

  /** The body of the page loop: the page's court, its column split, its
      blocks in reading order, and the walk over them. */
  method ParsePage(items: seq<Entry>, lastCourt: Option<nat>, pno: nat, page: Page)
    returns (items': seq<Entry>, lastCourt': Option<nat>)
    ensures Doc(items', lastCourt') == PageStep(Doc(items, lastCourt), pno, page)
  {
    var detected := DetectCourtNumber(page);
    var court := if CourtTruthy(detected) then detected else lastCourt;
    lastCourt' := lastCourt;
    if CourtTruthy(court) {
      lastCourt' := court;
    }
    var splitX := PageSplitX(page);
    var blocks := SortBlocks(page.blocks);
    items' := items;
    var current: Option<nat> := None;
    var capture := false;
    ghost var info := PageInfo(court, pno + 1);
    ghost var start := Walk(items, None, false);
    for bi := 0 to |blocks|
      invariant Walk(items', current, capture) == RunBlocks(start, info, splitX, blocks[..bi])
    {
      var isLeft := blocks[bi].x0 < splitX;
      items', current, capture := ParseBlock(items', current, capture, court, pno + 1, isLeft, blocks[bi].text);
      PrefixStep(blocks, bi);
    }
    assert blocks[..|blocks|] == blocks;
  }

  /** The body of the block loop: the walk over the lines of one block. */
  method ParseBlock(items: seq<Entry>, current: Option<nat>, capture: bool, court: Option<nat>,
                    pageNo: nat, isLeft: bool, text: string)
    returns (items': seq<Entry>, current': Option<nat>, capture': bool)
    requires Valid(Walk(items, current, capture))
    ensures Walk(items', current', capture') ==
            RunLines(Walk(items, current, capture), PageInfo(court, pageNo), isLeft, SplitLines(text))
  {
    var lines := SplitLines(text);
    items', current', capture' := items, current, capture;
    for li := 0 to |lines|
      invariant Walk(items', current', capture') ==
                RunLines(Walk(items, current, capture), PageInfo(court, pageNo), isLeft, lines[..li])
    {
      items', current', capture' := HandleLine(items', current', capture', court, pageNo, isLeft, lines[li]);
      PrefixStep(lines, li);
    }
    assert lines[..|lines|] == lines;
  }

  /** The body of the line loop. */
  method HandleLine(items: seq<Entry>, current: Option<nat>, capture: bool, court: Option<nat>,
                    pageNo: nat, isLeft: bool, raw: string)
    returns (items': seq<Entry>, current': Option<nat>, capture': bool)
    requires Valid(Walk(items, current, capture))
    ensures Walk(items', current', capture') ==
            LineStep(Walk(items, current, capture), PageInfo(court, pageNo), isLeft, raw)
  {
    items', current', capture' := items, current, capture;
    var line := Strip(raw);
    if line == [] {
      return;
    }
    if isLeft {
      var m := SerialMatch(line);
      if m.Some? {
        assert Classify(line, isLeft) == SerialLine(m.value);
        items' := items + [Entry(court, m.value, None, None, pageNo)];
        current' := Some(|items'| - 1);
        capture' := false;
        return;
      }
    }
    if IsMetaLine(line) {
      assert Classify(line, isLeft) == MetaLine;
      return;
    }
    if IsVersus(line) {
      assert Classify(line, isLeft) == VersusLine;
      capture' := true;
      return;
    }
    assert Classify(line, isLeft) == ContentLine;
    if isLeft && current.Some? {
      var c := current.value;
      if items[c].petitioner.None? && !capture {
        items' := items[c := items[c].(petitioner := Some(SmartTitle(line)))];
        return;
      }
      if capture && items[c].respondent.None? {
        items' := items[c := items[c].(respondent := Some(SmartTitle(line)))];
        capture' := false;
        return;
      }
    }
  }
}
