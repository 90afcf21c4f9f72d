/** What the parser reads off one page: the court number of the page and the
    x coordinate that separates the left column (serials, parties) from the
    right one (advocates). A page is given as plain data: its text, its text
    blocks and its words, each a box with its text, and the page size. */
module Geometry {
  import opened Wrappers
  import opened Seqs
  import opened Text
  import opened Patterns

  /** A text block or a word of a page: its bounding box and its text. */
  datatype Span = Span(x0: real, y0: real, x1: real, y1: real, text: string)

  type Block = Span
  type Word = Span

  /** A page: `get_text("text")`, `get_text("blocks")` in the given order,
      `get_text("words")`, and `page.rect`. */
  datatype Page = Page(text: string, blocks: seq<Block>, words: seq<Word>, width: real, height: real)

  // ---------------------------------------------------------------------
  // detect_court_number
  // ---------------------------------------------------------------------

  /** Blocks that end lower than this are past the page header. */
  const HeaderLimit: real := 180.0

  /** The court a piece of text names: 1 for the chief justice's court,
      else the first `COURT NO` number, else None. */
  function CourtMention(t: string): Option<nat> {
    if ChiefJustice(t) then Some(1) else CourtNumberSearch(t)
  }

  /** The block scan from block `i` on: it stops at the first block that
      ends below the header limit, and otherwise returns the first block's
      mention. */
  function BlockScanFrom(bs: seq<Block>, i: nat): Option<nat>
    requires i <= |bs|
    decreases |bs| - i
  {
    if i == |bs| || bs[i].y1 > HeaderLimit then None
    else if CourtMention(bs[i].text).Some? then CourtMention(bs[i].text)
    else BlockScanFrom(bs, i + 1)
  }

  /** `detect_court_number(page)`. */
  function CourtOfPage(p: Page): Option<nat> {
    if CourtMention(p.text).Some? then CourtMention(p.text) else BlockScanFrom(p.blocks, 0)
  }

  /** `detect_court_number`, with its early-exit scan of the blocks. */
  method DetectCourtNumber(page: Page) returns (r: Option<nat>)
    ensures r == CourtOfPage(page)
  {
    if ChiefJustice(page.text) {
      return Some(1);
    }
    var m := CourtNumberSearch(page.text);
    if m.Some? {
      return m;
    }
    var bs := page.blocks;
    var i := 0;
    while i < |bs|
      invariant 0 <= i <= |bs|
      invariant BlockScanFrom(bs, i) == BlockScanFrom(bs, 0)
    {
      if bs[i].y1 > HeaderLimit {
        break;
      }
      if ChiefJustice(bs[i].text) {
        return Some(1);
      }
      var mm := CourtNumberSearch(bs[i].text);
      if mm.Some? {
        return mm;
      }
      i := i + 1;
    }
    return None;
  }

  /** The number of header blocks: those before the first block that ends
      below the header limit. */
  function HeaderEnd(bs: seq<Block>, i: nat): (n: nat)
    requires i <= |bs|
    ensures i <= n <= |bs|
    ensures forall k | i <= k < n :: bs[k].y1 <= HeaderLimit
    ensures n < |bs| ==> bs[n].y1 > HeaderLimit
    decreases |bs| - i
  {
    if i == |bs| || bs[i].y1 > HeaderLimit then i else HeaderEnd(bs, i + 1)
  }

  /** The mentions of blocks `i` up to `n`, in order. */
  function Mentions(bs: seq<Block>, i: nat, n: nat): (r: seq<Option<nat>>)
    requires i <= n <= |bs|
    ensures |r| == n - i
  {
    seq(n - i, k requires 0 <= k < n - i => CourtMention(bs[i + k].text))
  }

  lemma MentionsTail(bs: seq<Block>, i: nat, n: nat)
    requires i < n <= |bs|
    ensures Mentions(bs, i, n)[0] == CourtMention(bs[i].text)
    ensures Mentions(bs, i, n)[1..] == Mentions(bs, i + 1, n)
  {
  }

  /** The block scan returns the first mention among the header blocks. */
  lemma {:induction false} BlockScanIsFirstHeaderMention(bs: seq<Block>, i: nat)
    requires i <= |bs|
    ensures BlockScanFrom(bs, i) == FirstSome(Mentions(bs, i, HeaderEnd(bs, i)))
    decreases |bs| - i
  {
    var n := HeaderEnd(bs, i);
    if i < n {
      MentionsTail(bs, i, n);
      BlockScanIsFirstHeaderMention(bs, i + 1);
    }
  }

  /** `detect_court_number` is a fallback chain: the chief justice's court
      in the page text, then the first `COURT NO` number in the page text,
      then the first mention among the header blocks, in their given order;
      None when there is none. */
  lemma CourtOfPageFallback(p: Page)
    ensures ChiefJustice(p.text) ==> CourtOfPage(p) == Some(1)
    ensures !ChiefJustice(p.text) && CourtNumberSearch(p.text).Some? ==>
              CourtOfPage(p) == CourtNumberSearch(p.text)
    ensures !ChiefJustice(p.text) && CourtNumberSearch(p.text).None? ==>
              CourtOfPage(p) == FirstSome(Mentions(p.blocks, 0, HeaderEnd(p.blocks, 0)))
  {
    BlockScanIsFirstHeaderMention(p.blocks, 0);
  }

  /** A block past the header limit ends the scan: what follows it is never
      looked at. */
  lemma BlockScanStopsAtLimit(bs: seq<Block>, rest: seq<Block>)
    requires HeaderEnd(bs, 0) < |bs|
    ensures BlockScanFrom(bs + rest, 0) == BlockScanFrom(bs, 0)
  {
    var n := HeaderEnd(bs, 0);
    BlockScanIsFirstHeaderMention(bs, 0);
    BlockScanIsFirstHeaderMention(bs + rest, 0);
    HeaderEndPrefix(bs, rest, 0);
    assert Mentions(bs + rest, 0, n) == Mentions(bs, 0, n);
  }

  lemma {:induction false} HeaderEndPrefix(bs: seq<Block>, rest: seq<Block>, i: nat)
    requires i <= HeaderEnd(bs, 0) < |bs|
    ensures HeaderEnd(bs + rest, i) == HeaderEnd(bs, i)
    decreases |bs| - i
  {
    var s := bs + rest;
    assert s[i] == bs[i];
    if i < HeaderEnd(bs, 0) {
      HeaderEndPrefix(bs, rest, i + 1);
    }
  }

  // ---------------------------------------------------------------------
  // page_split_x
  // ---------------------------------------------------------------------

  /** The band at the top of the page where the column headings are. */
  predicate InHeadingBand(w: Word, height: real) {
    w.y0 < height * 0.35
  }

  /** A word starting "advocate" (any case) in the heading band. */
  predicate IsAdvocateHeading(w: Word, height: real) {
    StartsWith(Lower(w.text), "advocate") && InHeadingBand(w, height)
  }

  /** A word containing "petitioner/respondent" (any case) in the heading
      band. */
  predicate IsPartyHeading(w: Word, height: real) {
    Contains(Lower(w.text), "petitioner/respondent") && InHeadingBand(w, height)
  }

  function AdvocateHeadings(p: Page): seq<Word> {
    Filter(p.words, w => IsAdvocateHeading(w, p.height))
  }

  function PartyHeadings(p: Page): seq<Word> {
    Filter(p.words, w => IsPartyHeading(w, p.height))
  }

  /** `min(w[0] for w in ws)`. */
  function MinX0(ws: seq<Word>): (r: real)
    requires ws != []
    ensures exists i | 0 <= i < |ws| :: r == ws[i].x0
    ensures forall i | 0 <= i < |ws| :: r <= ws[i].x0
    decreases |ws|
  {
    if |ws| == 1 then ws[0].x0
    else
      var m := MinX0(ws[1..]);
      assert forall i | 1 <= i < |ws| :: ws[i] == ws[1..][i - 1];
      if ws[0].x0 <= m then ws[0].x0 else m
  }

  /** `max(w[2] for w in ws)`. */
  function MaxX1(ws: seq<Word>): (r: real)
    requires ws != []
    ensures exists i | 0 <= i < |ws| :: r == ws[i].x1
    ensures forall i | 0 <= i < |ws| :: ws[i].x1 <= r
    decreases |ws|
  {
    if |ws| == 1 then ws[0].x1
    else
      var m := MaxX1(ws[1..]);
      assert forall i | 1 <= i < |ws| :: ws[i] == ws[1..][i - 1];
      if ws[0].x1 >= m then ws[0].x1 else m
  }

  /** `page_split_x(page)`. */
  function PageSplitX(p: Page): real {
    var adv := AdvocateHeadings(p);
    if adv != [] then MinX0(adv)
    else
      var pr := PartyHeadings(p);
      if pr != [] then MaxX1(pr) + 10.0 else p.width * 0.70
  }

  /** The heading filters keep exactly the words they test for. */
  lemma HeadingMembers(p: Page, w: Word)
    ensures w in AdvocateHeadings(p) <==> w in p.words && IsAdvocateHeading(w, p.height)
    ensures w in PartyHeadings(p) <==> w in p.words && IsPartyHeading(w, p.height)
  {
    FilterMembers(p.words, w => IsAdvocateHeading(w, p.height), w);
    FilterMembers(p.words, w => IsPartyHeading(w, p.height), w);
  }

  /** The split is the left edge of the leftmost "advocate" heading. */
  lemma SplitAtAdvocateHeading(p: Page)
    requires exists w | w in p.words :: IsAdvocateHeading(w, p.height)
    ensures exists w | w in p.words && IsAdvocateHeading(w, p.height) :: PageSplitX(p) == w.x0
    ensures forall w | w in p.words && IsAdvocateHeading(w, p.height) :: PageSplitX(p) <= w.x0
  {
    var adv := AdvocateHeadings(p);
    var w0 :| w0 in p.words && IsAdvocateHeading(w0, p.height);
    HeadingMembers(p, w0);
    var i :| 0 <= i < |adv| && MinX0(adv) == adv[i].x0;
    HeadingMembers(p, adv[i]);
    forall w | w in p.words && IsAdvocateHeading(w, p.height)
      ensures PageSplitX(p) <= w.x0
    {
      HeadingMembers(p, w);
      var j :| 0 <= j < |adv| && adv[j] == w;
    }
  }

  /** Without one, the split is 10 past the right edge of the rightmost
      "petitioner/respondent" heading. */
  lemma SplitAfterPartyHeading(p: Page)
    requires forall w | w in p.words :: !IsAdvocateHeading(w, p.height)
    requires exists w | w in p.words :: IsPartyHeading(w, p.height)
    ensures exists w | w in p.words && IsPartyHeading(w, p.height) :: PageSplitX(p) == w.x1 + 10.0
    ensures forall w | w in p.words && IsPartyHeading(w, p.height) :: w.x1 + 10.0 <= PageSplitX(p)
  {
    var adv, pr := AdvocateHeadings(p), PartyHeadings(p);
    if adv != [] {
      HeadingMembers(p, adv[0]);
    }
    var w0 :| w0 in p.words && IsPartyHeading(w0, p.height);
    HeadingMembers(p, w0);
    var i :| 0 <= i < |pr| && MaxX1(pr) == pr[i].x1;
    HeadingMembers(p, pr[i]);
    forall w | w in p.words && IsPartyHeading(w, p.height)
      ensures w.x1 + 10.0 <= PageSplitX(p)
    {
      HeadingMembers(p, w);
      var j :| 0 <= j < |pr| && pr[j] == w;
    }
  }

  /** With neither heading, the split is at 70% of the page width. */
  lemma SplitByDefault(p: Page)
    requires forall w | w in p.words :: !IsAdvocateHeading(w, p.height) && !IsPartyHeading(w, p.height)
    ensures PageSplitX(p) == p.width * 0.70
  {
    var adv, pr := AdvocateHeadings(p), PartyHeadings(p);
    if adv != [] {
      HeadingMembers(p, adv[0]);
    }
    if pr != [] {
      HeadingMembers(p, pr[0]);
    }
  }
}
