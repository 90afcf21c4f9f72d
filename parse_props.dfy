/** What the walk of `parse_pdf` guarantees: the rule for each kind of line,
    that a party once named is never renamed, that a page never touches the
    records of earlier pages, which court and page number every record
    carries, and which records the final filter keeps. */
module ParseProperties {
  import opened Wrappers
  import opened Seqs
  import opened Text
  import opened Patterns
  import opened Normalize
  import opened Geometry
  import opened ReadingOrder
  import opened Parser

  // ---------------------------------------------------------------------
  // The rule for each kind of line
  // ---------------------------------------------------------------------

  /** A left-column line that SERIAL_RE matches opens a record with the
      page's court and page number and no parties, makes it the current one
      and ends a pending "Versus" line. Nothing else is tested first, so a
      serial line that also looks like boilerplate still opens a record. */
  lemma SerialLineOpensRecord(w: Walk, info: PageInfo, raw: string)
    requires Valid(w) && SerialMatch(Strip(raw)).Some?
    ensures LineStep(w, info, true, raw) ==
            Walk(w.items + [Entry(info.court, SerialMatch(Strip(raw)).value, None, None, info.page)],
                 Some(|w.items|), false)
  {
  }

  /** No other line opens a record or changes which one is current. */
  lemma OnlySerialLinesOpenRecords(w: Walk, info: PageInfo, isLeft: bool, raw: string)
    requires Valid(w) && !(isLeft && SerialMatch(Strip(raw)).Some?)
    ensures |LineStep(w, info, isLeft, raw).items| == |w.items|
    ensures LineStep(w, info, isLeft, raw).current == w.current
  {
  }

  /** Boilerplate is skipped without a trace, unless it is a left-column
      serial line. */
  lemma MetaLineIsSkipped(w: Walk, info: PageInfo, isLeft: bool, raw: string)
    requires Valid(w) && IsMetaLine(Strip(raw)) && !(isLeft && SerialMatch(Strip(raw)).Some?)
    ensures LineStep(w, info, isLeft, raw) == w
  {
  }

  /** A "Versus" line, in either column, arms the capture of the respondent
      and changes nothing else. */
  lemma VersusLineArmsCapture(w: Walk, info: PageInfo, isLeft: bool, raw: string)
    requires Valid(w) && IsVersus(Strip(raw)) && !IsMetaLine(Strip(raw))
    requires !(isLeft && SerialMatch(Strip(raw)).Some?)
    ensures LineStep(w, info, isLeft, raw) == w.(capture := true)
  {
  }

  /** A right-column line never opens or fills a record: it can only arm the
      capture, when it is a "Versus" line. */
  lemma RightColumnOnlyArmsCapture(w: Walk, info: PageInfo, raw: string)
    requires Valid(w)
    ensures var line := Strip(raw);
            LineStep(w, info, false, raw) ==
              if line != [] && !IsMetaLine(line) && IsVersus(line) then w.(capture := true) else w
  {
  }

  // ---------------------------------------------------------------------
  // A party is named at most once
  // ---------------------------------------------------------------------

  /** `f` is record `e` at a later time: court, serial and page are as they
      were, and a party named in `e` is still the same in `f`. */
  predicate Keeps(e: Entry, f: Entry) {
    && f.court == e.court && f.serial == e.serial && f.page == e.page
    && (e.petitioner.Some? ==> f.petitioner == e.petitioner)
    && (e.respondent.Some? ==> f.respondent == e.respondent)
  }

  /** The records `b` are the records `a` at a later time, with perhaps more
      after them. */
  predicate Extends(a: seq<Entry>, b: seq<Entry>) {
    |a| <= |b| && forall k | 0 <= k < |a| :: Keeps(a[k], b[k])
  }

  /** How one line can change an existing record: only the current one, and
      only by naming a party that was unnamed, the petitioner from a
      left-column line while no "Versus" line is pending, the respondent from
      a left-column line while one is pending, which ends the capture. Both
      are the line as `smart_title` renders it. */
  lemma LineStepSlots(w: Walk, info: PageInfo, isLeft: bool, raw: string, k: nat)
    requires Valid(w) && k < |w.items|
    ensures var r := LineStep(w, info, isLeft, raw);
            k < |r.items| && Keeps(w.items[k], r.items[k])
    ensures var r := LineStep(w, info, isLeft, raw);
            w.current != Some(k) ==> r.items[k] == w.items[k]
    ensures var r := LineStep(w, info, isLeft, raw);
            r.items[k].petitioner != w.items[k].petitioner ==>
              && isLeft && w.current == Some(k) && !w.capture && w.items[k].petitioner.None?
              && r.items[k].petitioner == Some(SmartTitle(Strip(raw)))
    ensures var r := LineStep(w, info, isLeft, raw);
            r.items[k].respondent != w.items[k].respondent ==>
              && isLeft && w.current == Some(k) && w.capture && w.items[k].respondent.None?
              && r.items[k].respondent == Some(SmartTitle(Strip(raw))) && !r.capture
  {
    var line := Strip(raw);
    if line != [] && Classify(line, isLeft) == ContentLine && isLeft && w.current.Some? {
      FillSlotSlots(w, line, k);
    } else if line != [] && Classify(line, isLeft).SerialLine? {
      assert LineStep(w, info, isLeft, raw).items[k] == w.items[k];
    }
  }

  lemma FillSlotSlots(w: Walk, line: string, k: nat)
    requires Valid(w) && w.current.Some? && k < |w.items|
    ensures var r := FillSlot(w, line);
            |r.items| == |w.items| && Keeps(w.items[k], r.items[k])
    ensures var r := FillSlot(w, line);
            w.current != Some(k) ==> r.items[k] == w.items[k]
    ensures var r := FillSlot(w, line);
            r.items[k].petitioner != w.items[k].petitioner ==>
              && w.current == Some(k) && !w.capture && w.items[k].petitioner.None?
              && r.items[k].petitioner == Some(SmartTitle(line))
    ensures var r := FillSlot(w, line);
            r.items[k].respondent != w.items[k].respondent ==>
              && w.current == Some(k) && w.capture && w.items[k].respondent.None?
              && r.items[k].respondent == Some(SmartTitle(line)) && !r.capture
  {
  }

  lemma LineStepExtends(w: Walk, info: PageInfo, isLeft: bool, raw: string)
    requires Valid(w)
    ensures Extends(w.items, LineStep(w, info, isLeft, raw).items)
  {
    forall k | 0 <= k < |w.items|
      ensures Keeps(w.items[k], LineStep(w, info, isLeft, raw).items[k])
    {
      LineStepSlots(w, info, isLeft, raw, k);
    }
  }

  lemma ExtendsTrans(a: seq<Entry>, b: seq<Entry>, c: seq<Entry>)
    requires Extends(a, b) && Extends(b, c)
    ensures Extends(a, c)
  {
  }

  /** Later lines of a block never rename a party. */
  lemma {:induction false} RunLinesExtends(w: Walk, info: PageInfo, isLeft: bool, lines: seq<string>)
    requires Valid(w)
    ensures Extends(w.items, RunLines(w, info, isLeft, lines).items)
    decreases |lines|
  {
    if lines != [] {
      var v := RunLines(w, info, isLeft, lines[..|lines| - 1]);
      RunLinesExtends(w, info, isLeft, lines[..|lines| - 1]);
      LineStepExtends(v, info, isLeft, lines[|lines| - 1]);
      ExtendsTrans(w.items, v.items, RunLines(w, info, isLeft, lines).items);
    }
  }

  /** Later blocks of a page never rename a party. */
  lemma {:induction false} RunBlocksExtends(w: Walk, info: PageInfo, splitX: real, bs: seq<Block>)
    requires Valid(w)
    ensures Extends(w.items, RunBlocks(w, info, splitX, bs).items)
    decreases |bs|
  {
    if bs != [] {
      var v := RunBlocks(w, info, splitX, bs[..|bs| - 1]);
      var b := bs[|bs| - 1];
      RunBlocksExtends(w, info, splitX, bs[..|bs| - 1]);
      RunLinesExtends(v, info, b.x0 < splitX, SplitLines(b.text));
      ExtendsTrans(w.items, v.items, RunBlocks(w, info, splitX, bs).items);
    }
  }

  // ---------------------------------------------------------------------
  // One page
  // ---------------------------------------------------------------------

  /** The walk of a page that started from the records `base`: those are
      untouched, the current record is the last one and one of this page's,
      and this page's records carry its court and page number. */
  predicate OnPage(base: seq<Entry>, info: PageInfo, w: Walk) {
    && |base| <= |w.items|
    && w.items[..|base|] == base
    && (w.current.Some? ==> |base| <= w.current.value == |w.items| - 1)
    && forall k | |base| <= k < |w.items| :: w.items[k].court == info.court && w.items[k].page == info.page
  }

  /** Only the current record can change, and it keeps its court and page. */
  lemma LineStepTouchesOnlyCurrent(w: Walk, info: PageInfo, isLeft: bool, raw: string)
    requires Valid(w)
    ensures var r := LineStep(w, info, isLeft, raw);
            |w.items| <= |r.items| &&
            forall k | 0 <= k < |w.items| ::
              (w.current != Some(k) ==> r.items[k] == w.items[k]) &&
              r.items[k].court == w.items[k].court && r.items[k].page == w.items[k].page
  {
    var r := LineStep(w, info, isLeft, raw);
    forall k | 0 <= k < |w.items|
      ensures (w.current != Some(k) ==> r.items[k] == w.items[k])
      ensures r.items[k].court == w.items[k].court && r.items[k].page == w.items[k].page
    {
      LineStepSlots(w, info, isLeft, raw, k);
    }
  }

  lemma OnPageUpdate(base: seq<Entry>, info: PageInfo, w: Walk, r: Walk)
    requires OnPage(base, info, w) && |r.items| == |w.items| && r.current == w.current
    requires forall k | 0 <= k < |w.items| ::
               (w.current != Some(k) ==> r.items[k] == w.items[k]) &&
               r.items[k].court == w.items[k].court && r.items[k].page == w.items[k].page
    ensures OnPage(base, info, r)
  {
    assert forall k | 0 <= k < |base| :: r.items[..|base|][k] == w.items[..|base|][k];
  }

  lemma OnPageAppend(base: seq<Entry>, info: PageInfo, w: Walk, x: Entry, capture: bool)
    requires OnPage(base, info, w) && x.court == info.court && x.page == info.page
    ensures OnPage(base, info, Walk(w.items + [x], Some(|w.items|), capture))
  {
    assert (w.items + [x])[..|base|] == w.items[..|base|];
  }

  lemma LineStepOnPage(base: seq<Entry>, info: PageInfo, w: Walk, isLeft: bool, raw: string)
    requires Valid(w) && OnPage(base, info, w)
    ensures OnPage(base, info, LineStep(w, info, isLeft, raw))
  {
    if isLeft && SerialMatch(Strip(raw)).Some? {
      SerialLineOpensRecord(w, info, raw);
      OnPageAppend(base, info, w, Entry(info.court, SerialMatch(Strip(raw)).value, None, None, info.page), false);
    } else {
      OnlySerialLinesOpenRecords(w, info, isLeft, raw);
      LineStepTouchesOnlyCurrent(w, info, isLeft, raw);
      OnPageUpdate(base, info, w, LineStep(w, info, isLeft, raw));
    }
  }

  lemma {:induction false} RunLinesOnPage(base: seq<Entry>, info: PageInfo, w: Walk, isLeft: bool, lines: seq<string>)
    requires Valid(w) && OnPage(base, info, w)
    ensures OnPage(base, info, RunLines(w, info, isLeft, lines))
    decreases |lines|
  {
    if lines != [] {
      var v := RunLines(w, info, isLeft, lines[..|lines| - 1]);
      RunLinesOnPage(base, info, w, isLeft, lines[..|lines| - 1]);
      LineStepOnPage(base, info, v, isLeft, lines[|lines| - 1]);
    }
  }

  lemma {:induction false} RunBlocksOnPage(base: seq<Entry>, info: PageInfo, w: Walk, splitX: real, bs: seq<Block>)
    requires Valid(w) && OnPage(base, info, w)
    ensures OnPage(base, info, RunBlocks(w, info, splitX, bs))
    decreases |bs|
  {
    if bs != [] {
      var v := RunBlocks(w, info, splitX, bs[..|bs| - 1]);
      var b := bs[|bs| - 1];
      RunBlocksOnPage(base, info, w, splitX, bs[..|bs| - 1]);
      RunLinesOnPage(base, info, v, b.x0 < splitX, SplitLines(b.text));
    }
  }

  /** A page appends records and touches no earlier one; everything it
      appends carries the page's court and the page number `pno + 1`; and it
      moves `last_court` on exactly when the court it detects is truthy. */
  lemma PageStepFacts(d: Doc, pno: nat, p: Page)
    ensures var r := PageStep(d, pno, p);
            |d.items| <= |r.items| && r.items[..|d.items|] == d.items
    ensures var r := PageStep(d, pno, p);
            forall k | |d.items| <= k < |r.items| ::
              r.items[k].court == PageCourt(d, p) && r.items[k].page == pno + 1
    ensures PageStep(d, pno, p).lastCourt ==
            if CourtTruthy(CourtOfPage(p)) then CourtOfPage(p) else d.lastCourt
  {
    var info := PageInfo(PageCourt(d, p), pno + 1);
    RunBlocksOnPage(d.items, info, Walk(d.items, None, false), PageSplitX(p), SortBlocks(p.blocks));
  }

  // ---------------------------------------------------------------------
  // The document
  // ---------------------------------------------------------------------

  /** The court most recently detected as truthy among `pages`, or None. */
  function LastDetected(pages: seq<Page>): (r: Option<nat>)
    ensures r.None? || CourtTruthy(r)
    decreases |pages|
  {
    if pages == [] then None
    else if CourtTruthy(CourtOfPage(pages[|pages| - 1])) then CourtOfPage(pages[|pages| - 1])
    else LastDetected(pages[..|pages| - 1])
  }

  /** `last_court` after a run of pages is the last truthy court detected
      among them. */
  lemma {:induction false} LastCourtIsLastDetected(pages: seq<Page>)
    ensures RunDoc(pages).lastCourt == LastDetected(pages)
    decreases |pages|
  {
    if pages != [] {
      var q := pages[..|pages| - 1];
      LastCourtIsLastDetected(q);
      PageStepFacts(RunDoc(q), |pages| - 1, pages[|pages| - 1]);
    }
  }

  /** The court in force on page `i` (from 0): the one detected there if
      truthy, else the last truthy one detected before, else None. A
      detected 0 counts as none. */
  function CourtInForce(pages: seq<Page>, i: nat): (r: Option<nat>)
    requires i < |pages|
    ensures r.None? || CourtTruthy(r)
  {
    ResolveCourt(CourtOfPage(pages[i]), LastDetected(pages[..i]))
  }

  /** A later page never changes the records of the earlier ones. */
  lemma {:induction false} EarlierPagesAreFinal(pages: seq<Page>, n: nat)
    requires n <= |pages|
    ensures var a, b := RunDoc(pages[..n]).items, RunDoc(pages).items;
            |a| <= |b| && b[..|a|] == a
    decreases |pages|
  {
    if n < |pages| {
      var q := pages[..|pages| - 1];
      assert q[..n] == pages[..n];
      EarlierPagesAreFinal(q, n);
      LastPageRecords(pages);
      PrefixTrans(RunDoc(pages[..n]).items, RunDoc(q).items, RunDoc(pages).items);
    } else {
      assert pages[..n] == pages;
    }
  }

  lemma PrefixTrans(a: seq<Entry>, b: seq<Entry>, c: seq<Entry>)
    requires |a| <= |b| && b[..|a|] == a && |b| <= |c| && c[..|b|] == b
    ensures |a| <= |c| && c[..|a|] == a
  {
    assert c[..|a|] == c[..|b|][..|a|];
  }

  /** Every record of `d` names a page of `pages` (from 1) and carries the
      court in force there. */
  predicate CarriesPageCourt(pages: seq<Page>, d: seq<Entry>) {
    forall k | 0 <= k < |d| :: 1 <= d[k].page <= |pages| && d[k].court == CourtInForce(pages, d[k].page - 1)
  }

  predicate InPageOrder(d: seq<Entry>) {
    forall i, j | 0 <= i < j < |d| :: d[i].page <= d[j].page
  }

  /** The records the last page of `pages` appends carry its page number and
      the court in force there. */
  lemma LastPageRecords(pages: seq<Page>)
    requires pages != []
    ensures var n := |pages| - 1;
            var c, d := RunDoc(pages[..n]).items, RunDoc(pages).items;
            && |c| <= |d| && d[..|c|] == c
            && forall k | |c| <= k < |d| :: d[k].page == n + 1 && d[k].court == CourtInForce(pages, n)
  {
    var n := |pages| - 1;
    LastCourtIsLastDetected(pages[..n]);
    PageStepFacts(RunDoc(pages[..n]), n, pages[n]);
  }

  /** Appending the records of one more page keeps every record's page and
      court right. */
  lemma CarriesPageCourtStep(pages: seq<Page>, c: seq<Entry>, d: seq<Entry>)
    requires pages != [] && CarriesPageCourt(pages[..|pages| - 1], c)
    requires |c| <= |d| && d[..|c|] == c
    requires forall k | |c| <= k < |d| ::
               d[k].page == |pages| && d[k].court == CourtInForce(pages, |pages| - 1)
    ensures CarriesPageCourt(pages, d)
  {
    var q := pages[..|pages| - 1];
    forall k | 0 <= k < |d|
      ensures 1 <= d[k].page <= |pages| && d[k].court == CourtInForce(pages, d[k].page - 1)
    {
      if k < |c| {
        var i := c[k].page - 1;
        assert d[k] == c[k];
        assert q[i] == pages[i] && q[..i] == pages[..i];
      }
    }
  }

  lemma InPageOrderStep(c: seq<Entry>, d: seq<Entry>, m: nat)
    requires InPageOrder(c) && forall k | 0 <= k < |c| :: c[k].page <= m
    requires |c| <= |d| && d[..|c|] == c
    requires forall k | |c| <= k < |d| :: d[k].page == m
    ensures InPageOrder(d)
  {
    forall i, j | 0 <= i < j < |d|
      ensures d[i].page <= d[j].page
    {
      if i < |c| {
        assert d[i] == c[i];
        if j < |c| {
          assert d[j] == c[j];
        }
      }
    }
  }

  /** Every record names the page it was found on (from 1) and carries the
      court in force there, which is never 0. */
  lemma {:induction false} RecordsCarryPageAndCourt(pages: seq<Page>)
    ensures CarriesPageCourt(pages, RunDoc(pages).items)
    decreases |pages|
  {
    if pages != [] {
      var q := pages[..|pages| - 1];
      RecordsCarryPageAndCourt(q);
      LastPageRecords(pages);
      CarriesPageCourtStep(pages, RunDoc(q).items, RunDoc(pages).items);
    }
  }

  /** Records come in the order of their pages. */
  lemma {:induction false} RecordsInPageOrder(pages: seq<Page>)
    ensures InPageOrder(RunDoc(pages).items)
    decreases |pages|
  {
    if pages != [] {
      var q := pages[..|pages| - 1];
      RecordsInPageOrder(q);
      RecordsCarryPageAndCourt(q);
      LastPageRecords(pages);
      InPageOrderStep(RunDoc(q).items, RunDoc(pages).items, |pages|);
    }
  }

  // ---------------------------------------------------------------------
  // The result
  // ---------------------------------------------------------------------

  /** `parse_pdf` returns exactly the complete records; their order is
      stated by `ResultInOpeningOrder` and `EarlierResultsArePrefix`. */
  lemma ResultIsCompleteRecords(pages: seq<Page>, e: Entry)
    ensures e in ParseSpec(pages) <==> e in RunDoc(pages).items && Complete(e)
  {
    FilterMembers(RunDoc(pages).items, Complete, e);
  }

  /** The result lists the records in the order they were opened: around
      record `i`, the result is what is kept of the records before it, then
      record `i` itself when it is complete, then what is kept of the records
      after it. */
  lemma ResultInOpeningOrder(pages: seq<Page>, i: nat)
    requires i < |RunDoc(pages).items|
    ensures var s := RunDoc(pages).items;
            ParseSpec(pages) ==
              Filter(s[..i], Complete) + (if Complete(s[i]) then [s[i]] else []) + Filter(s[i + 1..], Complete)
  {
    var s := RunDoc(pages).items;
    SplitAround(s, i);
    FilterAround(s[..i], s[i], s[i + 1..], Complete);
  }

  /** What `parse_pdf` returns for the first `n` pages is the start of what
      it returns for the whole document: later pages only add records. */
  lemma EarlierResultsArePrefix(pages: seq<Page>, n: nat)
    requires n <= |pages|
    ensures var a, b := ParseSpec(pages[..n]), ParseSpec(pages);
            |a| <= |b| && b[..|a|] == a
  {
    var a, b := RunDoc(pages[..n]).items, RunDoc(pages).items;
    EarlierPagesAreFinal(pages, n);
    assert b == a + b[|a|..];
    FilterAppend(a, b[|a|..], Complete);
  }

  /** A party named "" (what `smart_title` makes of a line of commas,
      periods and hyphens) stays "", and the record is dropped. */
  lemma EmptyNameIsFinal(e: Entry, f: Entry)
    requires Keeps(e, f) && (e.petitioner == Some("") || e.respondent == Some(""))
    ensures !Complete(f)
  {
  }

  // ---------------------------------------------------------------------
  // Examples
  // ---------------------------------------------------------------------

  /** "12 No. x" opens record 12 in the left column, and is boilerplate (it
      holds "No.") in the right one. */
  lemma CaseNumberLineByColumn()
    ensures Classify("12 No. x", true) == SerialLine("12")
    ensures Classify("12 No. x", false) == MetaLine
  {
    var s := "12 No. x";
    assert SkipSpace(s, 0) == 0;
    assert DigitRunEnd(s, 0) == 2 by {
      assert IsDigit(s[0]) && IsDigit(s[1]) && !IsDigit(s[2]);
    }
    assert s[0..2] == "12";
    MetaCaseNumberLine();
  }

  lemma CommaLine()
    ensures Strip(",") == ","
    ensures SerialMatch(",").None?
    ensures !IsVersus(",")
  {
    assert SkipSpace(",", 0) == 0;
    assert TrimEnd(",", 0, 1, Whitespace) == 1;
  }

  lemma CommaIsNotMeta()
    ensures !IsMetaLine(",")
  {
    var s := ",";
    assert !IgnoreHead(s) by {
      forall p | p in IgnoreHeadPhrases
        ensures !ContainsCI(s, p)
      {
      }
    }
    assert !NoAbbreviation(s);
    assert RomanRunEnd(s, 0) == 0;
    assert !IsNumericPunct(s[0]);
    assert !PilCode(s);
    assert !MiscCode(s) by {
      forall p | p in MiscPhrases
        ensures !ContainsCI(s, p)
      {
      }
    }
  }

  lemma SmartTitleComma()
    ensures SmartTitle(",") == ""
  {
    var s := ",";
    CommaLine();
    assert CollapseSpaces(s) == s;
    assert Split(s) == [s] by {
      assert SkipSpace(s, 0) == 0;
      assert TokenEnd(s, 0) == 1;
      assert SkipSpace(s, 1) == 1;
    }
    assert NormToken(s, 0) == s by {
      assert !HasDigit(s);
      assert Upper(s) == s && Lower(s) == s;
      assert Capitalize(s) == s;
    }
    assert NormTokens([s]) == [s];
    assert Joined(s) == s;
    assert SkipChars(s, 0, Edge) == 1;
  }

  /** A petitioner line of just "," is taken as the petitioner, named "",
      so the record can never be complete. */
  lemma CommaPetitionerDropsRecord(w: Walk, info: PageInfo, f: Entry)
    requires Valid(w) && w.current.Some? && !w.capture && w.items[w.current.value].petitioner.None?
    requires Keeps(LineStep(w, info, true, ",").items[w.current.value], f)
    ensures LineStep(w, info, true, ",").items[w.current.value].petitioner == Some("")
    ensures !Complete(f)
  {
    CommaLine();
    CommaIsNotMeta();
    SmartTitleComma();
    assert Classify(",", true) == ContentLine;
  }

  /** No case-insensitive occurrence of `lit` in `s` when a letter of `lit`
      occurs in `s` in neither case. */
  lemma AbsentLetter(s: string, lit: string, j: nat)
    requires j < |lit| && forall k | 0 <= k < |s| :: LowerChar(s[k]) != LowerChar(lit[j])
    ensures !ContainsCI(s, lit)
  {
    forall i | 0 <= i <= |s|
      ensures !MatchAtCI(s, i, lit)
    {
      if i + |lit| <= |s| {
        assert Lower(s[i..i + |lit|])[j] == LowerChar(s[i + j]);
        assert Lower(lit)[j] == LowerChar(lit[j]);
      }
    }
  }

  /** No case-sensitive occurrence of `lit` in `s` when its first character
      does not occur in `s`. */
  lemma AbsentFirst(s: string, lit: string)
    requires lit != [] && lit[0] !in s
    ensures forall i | 0 <= i <= |s| :: !MatchAt(s, i, lit)
  {
    forall i | 0 <= i <= |s|
      ensures !MatchAt(s, i, lit)
    {
      if i + |lit| <= |s| {
        assert s[i..i + |lit|][0] == s[i];
      }
    }
  }

  lemma VersusHasNoHeadPhrase()
    ensures !IgnoreHead("versus")
  {
    var s := "versus";
    forall p | p in IgnoreHeadPhrases
      ensures !ContainsCI(s, p)
    {
      if p == "SUPREME COURT OF INDIA" {
        AbsentLetter(s, p, 2);
      } else {
        AbsentLetter(s, p, 0);
      }
    }
    AbsentLetter(s, "SNo.", 1);
  }

  lemma VersusHasNoCode()
    ensures !MiscCode("versus")
    ensures !NoAbbreviation("versus") && !PilCode("versus")
  {
    var s := "versus";
    forall p | p in MiscPhrases
      ensures !ContainsCI(s, p)
    {
      if p == "EXEMPTION FROM FILING" {
        AbsentLetter(s, p, 1);
      } else {
        AbsentLetter(s, p, 0);
      }
    }
    AbsentFirst(s, "No.");
    AbsentFirst(s, "PIL");
  }

  /** "versus" is no boilerplate, so it arms the capture. */
  lemma VersusIsVersusLine()
    ensures Strip("versus") == "versus" && SerialMatch("versus").None?
    ensures !IsMetaLine("versus") && IsVersus("versus")
  {
    var s := "versus";
    StripUnpadded(s);
    VersusHasNoHeadPhrase();
    VersusHasNoCode();
    assert RomanRunEnd(s, 0) == 0;
    assert !IsNumericPunct(s[0]);
    assert SkipSpace(s, 0) == 0;
    assert VersusEnd(s, 0) == 6;
  }

  lemma SerialLineExample()
    ensures Strip("5  Petitioner One") == "5  Petitioner One"
    ensures SerialMatch("5  Petitioner One") == Some("5")
  {
    var s := "5  Petitioner One";
    StripUnpadded(s);
    assert SkipSpace(s, 0) == 0;
    assert DigitRunEnd(s, 0) == 1 by {
      assert IsDigit(s[0]) && !IsDigit(s[1]);
    }
    assert WordBoundary(s, 1);
    assert s[0..1] == "5";
  }

  lemma RespondentLineExample()
    ensures Strip("Respondent One") == "Respondent One"
    ensures SerialMatch("Respondent One").None?
    ensures !IsVersus("Respondent One")
  {
    var s := "Respondent One";
    StripUnpadded(s);
    assert SkipSpace(s, 0) == 0;
    AbsentLetter(s, "versus", 0);
  }

  /** No case-insensitive occurrence of `lit` in `s` when the first two
      letters of `lit` never occur side by side in `s`, in either case. */
  lemma AbsentPair(s: string, lit: string)
    requires |lit| >= 2
    requires forall k | 0 <= k < |s| - 1 ::
               !(LowerChar(s[k]) == LowerChar(lit[0]) && LowerChar(s[k + 1]) == LowerChar(lit[1]))
    ensures !ContainsCI(s, lit)
  {
    forall i | 0 <= i <= |s|
      ensures !MatchAtCI(s, i, lit)
    {
      if i + |lit| <= |s| {
        assert Lower(s[i..i + |lit|])[0] == LowerChar(s[i]);
        assert Lower(s[i..i + |lit|])[1] == LowerChar(s[i + 1]);
        assert Lower(lit)[0] == LowerChar(lit[0]) && Lower(lit)[1] == LowerChar(lit[1]);
      }
    }
  }

  lemma RespondentHasNoHeadPhrase()
    ensures !IgnoreHead("Respondent One")
  {
    var s := "Respondent One";
    forall p | p in IgnoreHeadPhrases
      ensures !ContainsCI(s, p)
    {
      if p == "NOTE" {
        AbsentPair(s, p);
      } else if p == "Petitioner/Respondent" {
        AbsentLetter(s, p, 3);
      } else if p == "SUPREME COURT OF INDIA" || p == "DAILY CAUSE LIST"
             || p == "PUBLIC INTEREST LITIGATIONS" {
        AbsentLetter(s, p, 1);
      } else {
        AbsentLetter(s, p, 0);
      }
    }
    AbsentPair(s, "SNo.");
  }

  lemma RespondentHasNoCode()
    ensures !MiscCode("Respondent One")
    ensures !NoAbbreviation("Respondent One") && !PilCode("Respondent One")
  {
    var s := "Respondent One";
    forall p | p in MiscPhrases
      ensures !ContainsCI(s, p)
    {
      if p == "EXEMPTION FROM FILING" || p == "O.T." {
        AbsentLetter(s, p, 1);
      } else {
        AbsentLetter(s, p, 0);
      }
    }
    AbsentFirst(s, "No.");
    AbsentFirst(s, "PIL");
  }

  /** "Respondent One" is a plain content line. */
  lemma RespondentIsContent()
    ensures !IsMetaLine("Respondent One")
  {
    var s := "Respondent One";
    RespondentHasNoHeadPhrase();
    RespondentHasNoCode();
    assert RomanRunEnd(s, 0) == 0;
    assert !IsNumericPunct(s[0]);
  }

  /** The rest of a serial line is never read: the left-column lines
      "5  Petitioner One", "versus", "Respondent One" open record 5 and leave
      its petitioner unset, since "Petitioner One" is part of the serial line
      and the capture is armed when the next content line comes. That line
      fills the respondent and ends the capture. */
  lemma SerialLineRestIsDropped(w: Walk, info: PageInfo)
    requires Valid(w)
    ensures var r := RunLines(w, info, true, ["5  Petitioner One", "versus", "Respondent One"]);
            && |r.items| == |w.items| + 1 && r.current == Some(|w.items|)
            && r.items[|w.items|].serial == "5"
            && r.items[|w.items|].petitioner.None?
            && r.items[|w.items|].respondent == Some(SmartTitle("Respondent One"))
            && !r.capture
  {
    var l1, l2, l3 := "5  Petitioner One", "versus", "Respondent One";
    var n := |w.items|;
    var e := Entry(info.court, "5", None, None, info.page);
    var w1 := Walk(w.items + [e], Some(n), false);
    assert LineStep(w, info, true, l1) == w1 by {
      SerialLineExample();
      SerialLineOpensRecord(w, info, l1);
    }
    var w2 := w1.(capture := true);
    assert LineStep(w1, info, true, l2) == w2 by {
      VersusIsVersusLine();
      VersusLineArmsCapture(w1, info, true, l2);
    }
    var w3 := Walk(w1.items[n := e.(respondent := Some(SmartTitle(l3)))], Some(n), false);
    assert LineStep(w2, info, true, l3) == w3 by {
      RespondentFills(w2, info, n);
    }
    RunThreeLines(w, info, true, l1, l2, l3);
  }

  /** While a capture is pending, the left-column line "Respondent One"
      names the open record's respondent and ends the capture. */
  lemma RespondentFills(w: Walk, info: PageInfo, c: nat)
    requires Valid(w) && w.current == Some(c) && w.capture && w.items[c].respondent.None?
    ensures LineStep(w, info, true, "Respondent One") ==
            Walk(w.items[c := w.items[c].(respondent := Some(SmartTitle("Respondent One")))], w.current, false)
  {
    RespondentLineExample();
    RespondentIsContent();
    assert Classify("Respondent One", true) == ContentLine;
  }

  lemma RunThreeLines(w: Walk, info: PageInfo, isLeft: bool, a: string, b: string, c: string)
    requires Valid(w)
    ensures RunLines(w, info, isLeft, [a, b, c]) ==
            LineStep(LineStep(LineStep(w, info, isLeft, a), info, isLeft, b), info, isLeft, c)
  {
    assert [a, b, c] == [a, b] + [c] && [a, b] == [a] + [b] && [a] == [] + [a];
    RunLinesSnoc(w, info, isLeft, [], a);
    RunLinesSnoc(w, info, isLeft, [a], b);
    RunLinesSnoc(w, info, isLeft, [a, b], c);
  }

  /** One more line is one more step. */
  lemma RunLinesSnoc(w: Walk, info: PageInfo, isLeft: bool, ls: seq<string>, x: string)
    requires Valid(w)
    ensures RunLines(w, info, isLeft, ls + [x]) == LineStep(RunLines(w, info, isLeft, ls), info, isLeft, x)
  {
    assert (ls + [x])[..|ls|] == ls;
  }
}
