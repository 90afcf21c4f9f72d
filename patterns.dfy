/** The regular expressions of the cause-list parser, each written out by
    hand as a predicate or function over strings, and the boilerplate test
    `is_meta_line`. Character classes follow module Text: `\s` is Python's
    whitespace, `\d` and `\w` are ASCII, and IGNORECASE folds ASCII letters. */
module Patterns {
  import opened Wrappers
  import opened Seqs
  import opened Text

  /** The regex assertion `\b` at position `i` of `s`. */
  predicate WordBoundary(s: string, i: nat)
    requires i <= |s|
  {
    (i > 0 && IsWordChar(s[i - 1])) != (i < |s| && IsWordChar(s[i]))
  }

  // ---------------------------------------------------------------------
  // SERIAL_RE = ^\s*(\d{1,3}(?:\.\d+)?)\b, applied with re.match
  // ---------------------------------------------------------------------

  /** The serial captured by `SERIAL_RE.match(s)`, or None when it fails. */
  function SerialMatch(s: string): Option<string> {
    var p := SkipSpace(s, 0);
    var q := DigitRunEnd(s, p);
    if q - p < 1 || q - p > 3 then None
    else if q < |s| && s[q] == '.' && DigitRunEnd(s, q + 1) > q + 1
            && WordBoundary(s, DigitRunEnd(s, q + 1))
    then Some(s[p..DigitRunEnd(s, q + 1)])
    else if WordBoundary(s, q) then Some(s[p..q])
    else None
  }

  function SerialEnd(w: nat, k: nat, m: nat): nat {
    if m == 0 then w + k else w + k + 1 + m
  }

  /** One way the regex can match `s`: `\s*` takes `w` characters, `\d{1,3}`
      takes `k`, the optional group `\.\d+` is either absent (`m == 0`) or
      takes a period and `m` digits, and `\b` holds where the group ends. */
  ghost predicate SerialCandidate(s: string, w: nat, k: nat, m: nat) {
    && 1 <= k <= 3
    && SerialEnd(w, k, m) <= |s|
    && (forall j | 0 <= j < w :: IsSpace(s[j]))
    && (forall j | w <= j < w + k :: IsDigit(s[j]))
    && (m > 0 ==> s[w + k] == '.' && forall j | w + k + 1 <= j < w + k + 1 + m :: IsDigit(s[j]))
    && WordBoundary(s, SerialEnd(w, k, m))
  }

  /** Every candidate match starts where the leading whitespace ends and its
      integer part is the whole leading digit run. */
  lemma SerialCandidateForced(s: string, w: nat, k: nat, m: nat)
    requires SerialCandidate(s, w, k, m)
    ensures w == SkipSpace(s, 0) && w + k == DigitRunEnd(s, w)
    ensures m > 0 ==> SerialEnd(w, k, m) == DigitRunEnd(s, w + k + 1)
  {
    var p := SkipSpace(s, 0);
    assert IsDigit(s[w]);
    assert p < |s| ==> !IsSpace(s[p]);
    assert w == p;
    var q := DigitRunEnd(s, w);
    assert q < |s| ==> !IsDigit(s[q]);
    assert w + k < |s| ==> m == 0 || s[w + k] == '.';
    assert w + k == q;
    if m > 0 {
      var e := DigitRunEnd(s, w + k + 1);
      var f := w + k + 1 + m;
      assert e < |s| ==> !IsDigit(s[e]);
      assert f < |s| ==> IsDigit(s[f - 1]);
      assert f == e;
    }
  }

  /** What SerialMatch captures is one of the ways the regex can match. */
  lemma SerialMatchHasCandidate(s: string)
    requires SerialMatch(s).Some?
    ensures exists w: nat, k: nat, m: nat :: SerialCandidate(s, w, k, m)
  {
    var p := SkipSpace(s, 0);
    var q := DigitRunEnd(s, p);
    if q < |s| && s[q] == '.' && DigitRunEnd(s, q + 1) > q + 1 && WordBoundary(s, DigitRunEnd(s, q + 1)) {
      var m := DigitRunEnd(s, q + 1) - q - 1;
      assert SerialEnd(p, q - p, m) == DigitRunEnd(s, q + 1);
      assert SerialCandidate(s, p, q - p, m);
    } else {
      assert SerialCandidate(s, p, q - p, 0);
    }
  }

  /** Whenever the regex has a way to match, SerialMatch succeeds. */
  lemma SerialCandidateSucceeds(s: string, w: nat, k: nat, m: nat)
    requires SerialCandidate(s, w, k, m)
    ensures SerialMatch(s).Some?
  {
    SerialCandidateForced(s, w, k, m);
    if m > 0 {
      assert s[w + k] == '.' && DigitRunEnd(s, w + k + 1) > w + k + 1;
    } else {
      assert WordBoundary(s, w + k);
    }
  }

  /** SerialMatch succeeds exactly when the regex has some way to match. */
  lemma SerialMatchSucceedsIffRegexMatches(s: string)
    ensures SerialMatch(s).Some? <==> exists w: nat, k: nat, m: nat :: SerialCandidate(s, w, k, m)
  {
    if SerialMatch(s).Some? {
      SerialMatchHasCandidate(s);
    }
    if exists w: nat, k: nat, m: nat :: SerialCandidate(s, w, k, m) {
      var w: nat, k: nat, m: nat :| SerialCandidate(s, w, k, m);
      SerialCandidateSucceeds(s, w, k, m);
    }
  }

  /** Like Python's backtracking matcher, SerialMatch prefers a match that
      takes the optional `\.\d+` group: its capture is then the serial. */
  lemma SerialMatchPrefersFraction(s: string, w: nat, k: nat, m: nat)
    requires SerialCandidate(s, w, k, m) && m > 0
    ensures SerialMatch(s) == Some(s[w..SerialEnd(w, k, m)])
  {
    SerialCandidateForced(s, w, k, m);
  }

  /** Only when no match takes the group is the bare digit run the serial. */
  lemma SerialMatchFallsBackToDigits(s: string, w: nat, k: nat)
    requires SerialCandidate(s, w, k, 0)
    requires forall m: nat | m > 0 :: !SerialCandidate(s, w, k, m)
    ensures SerialMatch(s) == Some(s[w..w + k])
  {
    SerialCandidateForced(s, w, k, 0);
    var q := w + k;
    if q < |s| && s[q] == '.' && DigitRunEnd(s, q + 1) > q + 1 && WordBoundary(s, DigitRunEnd(s, q + 1)) {
      var m := DigitRunEnd(s, q + 1) - q - 1;
      assert SerialCandidate(s, w, k, m);
    }
  }

  // ---------------------------------------------------------------------
  // VERSUS_RE = ^\s*versus\.?\s*$ with IGNORECASE, applied with re.match
  // ---------------------------------------------------------------------

  /** Where `versus\.?` ends when `versus` starts at `a`. */
  function VersusEnd(s: string, a: nat): nat {
    if a + 6 < |s| && s[a + 6] == '.' then a + 7 else a + 6
  }

  predicate IsVersus(s: string) {
    var a := SkipSpace(s, 0);
    MatchAtCI(s, a, "versus") && SkipSpace(s, VersusEnd(s, a)) == |s|
  }

  lemma LowerVersusLiteral()
    ensures Lower("versus") == "versus" && Lower(".") == "."
    ensures "versus" + "." == "versus."
  {
  }

  lemma VersusEndsInLetterOrPeriod(s: string, a: nat)
    requires MatchAtCI(s, a, "versus")
    ensures a + 6 <= VersusEnd(s, a) <= |s|
    ensures !IsSpace(s[VersusEnd(s, a) - 1])
  {
    LowerVersusLiteral();
    var v := s[a..a + 6];
    assert Lower(v)[5] == LowerChar(v[5]) == 's';
    if VersusEnd(s, a) == a + 6 {
      LetterIsNotSpace(v[5]);
    }
  }

  /** Two ends of a non-blank slice, each followed only by whitespace and
      each preceded by a non-whitespace character, coincide. */
  lemma TrailingSpaceEnd(s: string, b: nat, e: nat)
    requires 0 < b <= |s| && 0 < e <= |s|
    requires !IsSpace(s[b - 1]) && !IsSpace(s[e - 1])
    requires forall k | b <= k < |s| :: IsSpace(s[k])
    requires forall k | e <= k < |s| :: IsSpace(s[k])
    ensures b == e
  {
  }

  lemma VersusSliceForward(s: string, a: nat, e: nat)
    requires a == SkipSpace(s, 0) && a <= e <= |s|
    requires forall k | e <= k < |s| :: IsSpace(s[k])
    requires e > a ==> !IsSpace(s[e - 1])
    requires MatchAtCI(s, a, "versus") && SkipSpace(s, VersusEnd(s, a)) == |s|
    ensures Lower(s[a..e]) == "versus" || Lower(s[a..e]) == "versus."
  {
    var b := VersusEnd(s, a);
    VersusEndsInLetterOrPeriod(s, a);
    assert e > a by {
      assert !IsSpace(s[b - 1]);
    }
    TrailingSpaceEnd(s, b, e);
    LowerVersusLiteral();
    var v := s[a..a + 6];
    if b == a + 7 {
      assert s[a..e] == v + ".";
      LowerAppend(v, ".");
    }
  }

  lemma VersusSliceBackward(s: string, a: nat, e: nat)
    requires a == SkipSpace(s, 0) && a <= e <= |s|
    requires forall k | e <= k < |s| :: IsSpace(s[k])
    requires Lower(s[a..e]) == "versus" || Lower(s[a..e]) == "versus."
    ensures IsVersus(s)
  {
    LowerVersusLiteral();
    var t := s[a..e];
    if Lower(t) == "versus" {
      assert s[a..a + 6] == t;
      assert VersusEnd(s, a) == a + 6 by {
        assert a + 6 < |s| ==> IsSpace(s[a + 6]);
      }
    } else {
      assert Lower(t)[6] == LowerChar(s[a + 6]) == '.';
      assert Lower(s[a..a + 6]) == Lower(t)[..6];
      assert VersusEnd(s, a) == e;
    }
    SkipSpaceToEnd(s, VersusEnd(s, a));
  }

  /** VERSUS_RE matches exactly the lines whose stripped text is "versus"
      or "versus." in any mix of case. */
  lemma VersusIsWholeLine(s: string)
    ensures IsVersus(s) <==> (Lower(Strip(s)) == "versus" || Lower(Strip(s)) == "versus.")
  {
    StripIsSlice(s);
    var a := SkipSpace(s, 0);
    var e := a + |Strip(s)|;
    assert Strip(s) == s[a..e];
    if IsVersus(s) {
      VersusSliceForward(s, a, e);
    }
    if Lower(s[a..e]) == "versus" || Lower(s[a..e]) == "versus." {
      VersusSliceBackward(s, a, e);
    }
  }

  // ---------------------------------------------------------------------
  // The boilerplate test is_meta_line and IGNORE_HEAD
  // ---------------------------------------------------------------------

  /** The literal alternatives of IGNORE_HEAD (matched ignoring case). */
  const IgnoreHeadPhrases: seq<string> :=
    ["SUPREME COURT OF INDIA", "IT WILL BE APPRECIATED", "LISTED BEFORE",
     "DAILY CAUSE LIST", "NOTE", "MISCELLANEOUS HEARING",
     "PUBLIC INTEREST LITIGATIONS", "Petitioner/Respondent"]

  /** The remaining alternative of IGNORE_HEAD, `SNo\.\s*Case No\.`, at `i`. */
  predicate SNoCaseNoAt(s: string, i: nat) {
    MatchAtCI(s, i, "SNo.") && MatchAtCI(s, SkipSpace(s, i + 4), "Case No.")
  }

  /** `IGNORE_HEAD.search(s)`. */
  predicate IgnoreHead(s: string) {
    || (exists p | p in IgnoreHeadPhrases :: ContainsCI(s, p))
    || (exists i | 0 <= i <= |s| :: SNoCaseNoAt(s, i))
  }

  /** `re.search(r"\bNo\.", s)` (case-sensitive). */
  predicate NoAbbreviation(s: string) {
    exists i | 0 <= i <= |s| :: WordBoundary(s, i) && MatchAt(s, i, "No.")
  }

  predicate IsRomanDigit(c: char) {
    c == 'I' || c == 'V' || c == 'X' || c == 'L' || c == 'C'
  }

  /** The end of the run of Roman-numeral letters that starts at `i`. */
  function RomanRunEnd(s: string, i: nat): (r: nat)
    requires i <= |s|
    ensures i <= r <= |s|
    ensures forall k | i <= k < r :: IsRomanDigit(s[k])
    ensures r < |s| ==> !IsRomanDigit(s[r])
    decreases |s| - i
  {
    if i < |s| && IsRomanDigit(s[i]) then RomanRunEnd(s, i + 1) else i
  }

  /** `re.fullmatch(r"[IVXLC]+(-[A-Z])?", s)`. */
  predicate RomanHeading(s: string) {
    var k := RomanRunEnd(s, 0);
    && k >= 1
    && (k == |s| || (k + 2 == |s| && s[k] == '-' && IsUpper(s[k + 1])))
  }

  /** The first `k` characters of `s` are all Roman-numeral letters. */
  predicate RomanPrefix(s: string, k: nat) {
    k <= |s| && forall j | 0 <= j < k :: IsRomanDigit(s[j])
  }

  /** What may follow the numeral: nothing, or "-" and one capital letter. */
  predicate HeadingSuffix(s: string, k: nat) {
    k == |s| || (k + 2 == |s| && s[k] == '-' && IsUpper(s[k + 1]))
  }

  /** The run of Roman letters from `i` ends at `k` when every letter before
      `k` is one and the one at `k` (if any) is not. */
  lemma {:induction false} RomanRunEndAt(s: string, i: nat, k: nat)
    requires i <= k <= |s|
    requires forall j | i <= j < k :: IsRomanDigit(s[j])
    requires k == |s| || !IsRomanDigit(s[k])
    ensures RomanRunEnd(s, i) == k
    decreases k - i
  {
    if i < k {
      RomanRunEndAt(s, i + 1, k);
    }
  }

  /** The heading test, stated without the scanning function: a non-empty
      run of the letters I, V, X, L, C that is the whole line, or is followed
      by "-" and one capital letter that end the line. */
  lemma RomanHeadingIff(s: string)
    ensures RomanHeading(s) <==>
            exists k | 1 <= k :: RomanPrefix(s, k) && HeadingSuffix(s, k)
  {
    var r := RomanRunEnd(s, 0);
    if RomanHeading(s) {
      assert RomanPrefix(s, r) && HeadingSuffix(s, r);
    }
    if exists k | 1 <= k :: RomanPrefix(s, k) && HeadingSuffix(s, k) {
      var k :| 1 <= k && RomanPrefix(s, k) && HeadingSuffix(s, k);
      RomanRunEndAt(s, 0, k);
    }
  }

  predicate IsNumericPunct(c: char) {
    IsDigit(c) || c == '/' || c == '(' || c == ')' || c == '.' || c == '-'
  }

  /** `re.fullmatch(r"[\d/().-]+", s)`. */
  predicate NumericLine(s: string) {
    |s| > 0 && forall k | 0 <= k < |s| :: IsNumericPunct(s[k])
  }

  /** `re.search(r"\bPIL(?:-W|\b)", s)` (case-sensitive). */
  predicate PilCode(s: string) {
    exists i | 0 <= i <= |s| ::
      && WordBoundary(s, i)
      && MatchAt(s, i, "PIL")
      && (MatchAt(s, i + 3, "-W") || WordBoundary(s, i + 3))
  }

  /** The `-W` alternative adds nothing: a word boundary already follows
      `PIL` whenever `-W` does. */
  lemma PilSuffixIsWordBoundary(s: string)
    ensures PilCode(s) <==> exists i | 0 <= i <= |s| ::
              WordBoundary(s, i) && MatchAt(s, i, "PIL") && WordBoundary(s, i + 3)
  {
    if PilCode(s) {
      var i :| 0 <= i <= |s| && WordBoundary(s, i) && MatchAt(s, i, "PIL")
               && (MatchAt(s, i + 3, "-W") || WordBoundary(s, i + 3));
      var t := s[i..i + 3];
      assert t == "PIL" && t[2] == s[i + 2];
      if MatchAt(s, i + 3, "-W") {
        var u := s[i + 3..i + 5];
        assert u == "-W" && u[0] == s[i + 3];
      }
      assert WordBoundary(s, i + 3);
    }
  }

  /** The alternatives of the filing-code search (matched ignoring case). */
  const MiscPhrases: seq<string> :=
    ["IA No.", "FOR ADMISSION", "EXEMPTION FROM FILING", "CONDONATION OF DELAY", "O.T."]

  predicate MiscCode(s: string) {
    exists p | p in MiscPhrases :: ContainsCI(s, p)
  }

  /** `is_meta_line(s)`: the line is boilerplate to be skipped. */
  predicate IsMetaLine(s: string) {
    || IgnoreHead(s)
    || NoAbbreviation(s)
    || RomanHeading(s)
    || NumericLine(s)
    || PilCode(s)
    || MiscCode(s)
    || s == "Connected"
  }

  // ---------------------------------------------------------------------
  // CHIEF_JUSTICE_RE and COURT_NUM_RE, applied with re.search
  // ---------------------------------------------------------------------

  /** `CHIEF\s+JUSTICE'?S\s+COURT` matched at `i`, ignoring case. */
  predicate ChiefJusticeAt(s: string, i: nat) {
    && MatchAtCI(s, i, "CHIEF")
    && (var a := SkipSpace(s, i + 5);
        && a > i + 5
        && MatchAtCI(s, a, "JUSTICE")
        && (var b := if a + 7 < |s| && s[a + 7] == '\'' then a + 8 else a + 7;
            && MatchAtCI(s, b, "S")
            && (var c := SkipSpace(s, b + 1);
                c > b + 1 && MatchAtCI(s, c, "COURT"))))
  }

  /** `CHIEF_JUSTICE_RE.search(s)`. */
  predicate ChiefJustice(s: string) {
    exists i | 0 <= i <= |s| :: ChiefJusticeAt(s, i)
  }

  /** One way `CHIEF\s+JUSTICE'?S\s+COURT` can match at `i`, ignoring case:
      "CHIEF" at `i`, at least one whitespace up to `a`, "JUSTICE" at `a`, an
      optional apostrophe ending at `b`, "S" at `b`, at least one whitespace
      up to `c`, and "COURT" at `c`. */
  ghost predicate ChiefCandidate(s: string, i: nat, a: nat, b: nat, c: nat) {
    && i + 5 < a && a + 7 <= b && b + 1 < c && c + 5 <= |s|
    && MatchAtCI(s, i, "CHIEF")
    && (forall j | i + 5 <= j < a :: IsSpace(s[j]))
    && MatchAtCI(s, a, "JUSTICE")
    && (b == a + 7 || (b == a + 8 && s[a + 7] == '\''))
    && MatchAtCI(s, b, "S")
    && (forall j | b + 1 <= j < c :: IsSpace(s[j]))
    && MatchAtCI(s, c, "COURT")
  }

  /** Every way the pattern can match at `i` is the one the matcher checks:
      the whitespace runs are whole, and an apostrophe is always taken. */
  lemma ChiefCandidateForced(s: string, i: nat, a: nat, b: nat, c: nat)
    requires ChiefCandidate(s, i, a, b, c)
    ensures ChiefJusticeAt(s, i)
  {
    LetterIsNoSpace(s, a, "JUSTICE", 0);
    assert a == SkipSpace(s, i + 5);
    LetterAt(s, b, "S", 0);
    assert b == if a + 7 < |s| && s[a + 7] == '\'' then a + 8 else a + 7;
    LetterIsNoSpace(s, c, "COURT", 0);
    assert c == SkipSpace(s, b + 1);
  }

  /** A character matched ignoring case has the lower-case form of the
      pattern's letter. */
  lemma LetterAt(s: string, a: nat, lit: string, k: nat)
    requires MatchAtCI(s, a, lit) && k < |lit|
    ensures LowerChar(s[a + k]) == LowerChar(lit[k])
  {
    assert Lower(s[a..a + |lit|])[k] == LowerChar(s[a + k]);
    assert Lower(lit)[k] == LowerChar(lit[k]);
  }

  /** The matcher's own positions are a way for the pattern to match. */
  lemma ChiefJusticeAtHasCandidate(s: string, i: nat) returns (a: nat, b: nat, c: nat)
    requires ChiefJusticeAt(s, i)
    ensures ChiefCandidate(s, i, a, b, c)
  {
    a := SkipSpace(s, i + 5);
    b := if a + 7 < |s| && s[a + 7] == '\'' then a + 8 else a + 7;
    c := SkipSpace(s, b + 1);
  }

  /** The matcher holds at `i` exactly when the pattern has a way to match
      there. */
  lemma ChiefJusticeAtIffRegexMatches(s: string, i: nat)
    ensures ChiefJusticeAt(s, i) <==> exists a: nat, b: nat, c: nat :: ChiefCandidate(s, i, a, b, c)
  {
    if ChiefJusticeAt(s, i) {
      var a, b, c := ChiefJusticeAtHasCandidate(s, i);
    }
    if exists a: nat, b: nat, c: nat :: ChiefCandidate(s, i, a, b, c) {
      var a: nat, b: nat, c: nat :| ChiefCandidate(s, i, a, b, c);
      ChiefCandidateForced(s, i, a, b, c);
    }
  }

  /** Where the only "h" is the second character, the phrase can only start
      at the start. */
  lemma ChiefOnlyAtStart(s: string)
    requires forall k | 2 <= k < |s| :: LowerChar(s[k]) != 'h'
    ensures forall i | 1 <= i <= |s| :: !ChiefJusticeAt(s, i)
  {
    forall i | 1 <= i <= |s|
      ensures !MatchAtCI(s, i, "CHIEF")
    {
      if MatchAtCI(s, i, "CHIEF") {
        LetterAt(s, i, "CHIEF", 1);
      }
    }
  }

  /** The possessive form of the phrase, in mixed case. */
  lemma ChiefJusticePossessive()
    ensures ChiefJustice("Chief Justice's Court")
  {
    var s := "Chief Justice's Court";
    PossessiveParts(s);
    assert ChiefJusticeAt(s, 0);
  }

  lemma PossessiveParts(s: string)
    requires s == "Chief Justice's Court"
    ensures SkipSpace(s, 5) == 6 && SkipSpace(s, 15) == 16 && s[13] == '\''
    ensures MatchAtCI(s, 0, "CHIEF") && MatchAtCI(s, 6, "JUSTICE")
    ensures MatchAtCI(s, 14, "S") && MatchAtCI(s, 16, "COURT")
  {
    assert !IsSpace(s[6]) && !IsSpace(s[16]);
    assert Lower(s[0..5]) == Lower("CHIEF");
    assert Lower(s[6..13]) == Lower("JUSTICE");
    assert Lower(s[14..15]) == Lower("S");
    assert Lower(s[16..21]) == Lower("COURT");
  }

  /** The form without the apostrophe, with two spaces, in upper case. */
  lemma ChiefJusticePlural()
    ensures ChiefJustice("CHIEF  JUSTICES COURT")
  {
    var s := "CHIEF  JUSTICES COURT";
    assert SkipSpace(s, 5) == 7 && SkipSpace(s, 15) == 16;
    assert Lower(s[0..5]) == Lower("CHIEF");
    assert Lower(s[7..14]) == Lower("JUSTICE");
    assert Lower(s[14..15]) == Lower("S");
    assert Lower(s[16..21]) == Lower("COURT");
    assert ChiefJusticeAt(s, 0);
  }

  /** The "S" must follow "JUSTICE" or its apostrophe directly. */
  lemma ChiefJusticeDetachedS()
    ensures !ChiefJustice("CHIEF JUSTICE S COURT")
  {
    var s := "CHIEF JUSTICE S COURT";
    DetachedParts(s);
    ChiefOnlyAtStart(s);
    if MatchAtCI(s, 13, "S") {
      LetterAt(s, 13, "S", 0);
    }
    assert !ChiefJusticeAt(s, 0);
  }

  lemma DetachedParts(s: string)
    requires s == "CHIEF JUSTICE S COURT"
    ensures forall k | 2 <= k < |s| :: LowerChar(s[k]) != 'h'
    ensures SkipSpace(s, 5) == 6 && s[13] == ' '
  {
    assert !IsSpace(s[6]);
  }

  /** "CHIEF" and "JUSTICE" must be apart. */
  lemma ChiefJusticeJoined()
    ensures !ChiefJustice("ChiefJustice's Court")
  {
    var s := "ChiefJustice's Court";
    ChiefOnlyAtStart(s);
    assert !IsSpace(s[5]) && SkipSpace(s, 5) == 5;
    assert !ChiefJusticeAt(s, 0);
  }

  /** The number captured by `COURT\s*NO\.?\s*[:\-]?\s*(\d+)` (ignoring case)
      when it matches at `i`, converted with `int`. */
  function CourtNumberAt(s: string, i: nat): Option<nat> {
    if !MatchAtCI(s, i, "COURT") then None
    else
      var a := SkipSpace(s, i + 5);
      if !MatchAtCI(s, a, "NO") then None
      else
        var e := DigitsStart(s, a);
        var f := DigitRunEnd(s, e);
        if f == e then None else Some(DigitsValue(s[e..f]))
  }

  /** Where `(\d+)` starts once "NO" has matched at `a`: past an optional
      period, whitespace, an optional colon or hyphen, and whitespace. */
  function DigitsStart(s: string, a: nat): nat
    requires a + 2 <= |s|
  {
    var b := if a + 2 < |s| && s[a + 2] == '.' then a + 3 else a + 2;
    var c := SkipSpace(s, b);
    var d := if c < |s| && (s[c] == ':' || s[c] == '-') then c + 1 else c;
    SkipSpace(s, d)
  }

  /** One way `COURT\s*NO\.?\s*[:\-]?\s*(\d+)` can match at `i`, ignoring
      case: "COURT" at `i`, whitespace up to `a`, "NO" at `a`, an optional
      period ending at `b`, whitespace up to `c`, an optional colon or hyphen
      ending at `d`, whitespace up to `e`, and digits from `e` to `f`. */
  ghost predicate CourtCandidate(s: string, i: nat, a: nat, b: nat, c: nat, d: nat, e: nat, f: nat) {
    && i + 5 <= a <= |s|
    && MatchAtCI(s, i, "COURT")
    && (forall j | i + 5 <= j < a :: IsSpace(s[j]))
    && MatchAtCI(s, a, "NO")
    && NumberTail(s, a, b, c, d, e, f)
  }

  /** The part of a match after "NO" at `a`, as in `CourtCandidate`. */
  ghost predicate NumberTail(s: string, a: nat, b: nat, c: nat, d: nat, e: nat, f: nat) {
    && a + 2 <= b <= c <= d <= e < f <= |s|
    && (b == a + 2 || (b == a + 3 && s[a + 2] == '.'))
    && (forall j | b <= j < c :: IsSpace(s[j]))
    && (d == c || (d == c + 1 && (s[c] == ':' || s[c] == '-')))
    && (forall j | d <= j < e :: IsSpace(s[j]))
    && (forall j | e <= j < f :: IsDigit(s[j]))
  }

  /** A character that matches a letter of a pattern ignoring case is no
      whitespace. */
  lemma LetterIsNoSpace(s: string, a: nat, lit: string, k: nat)
    requires MatchAtCI(s, a, lit) && k < |lit| && IsLower(LowerChar(lit[k]))
    ensures !IsSpace(s[a + k])
  {
    assert Lower(s[a..a + |lit|])[k] == LowerChar(s[a + k]);
    assert Lower(lit)[k] == LowerChar(lit[k]);
  }

  /** Every way the rest of the pattern can match after "NO" starts its
      digits where the matcher starts them. */
  lemma NumberTailForced(s: string, a: nat, b: nat, c: nat, d: nat, e: nat, f: nat)
    requires NumberTail(s, a, b, c, d, e, f)
    ensures e == DigitsStart(s, a)
  {
    var b0 := if a + 2 < |s| && s[a + 2] == '.' then a + 3 else a + 2;
    assert IsDigit(s[e]) && !IsSpace(s[e]);
    // Leaving the period unmatched would leave no way to reach a digit.
    assert b == b0;
    var c0 := SkipSpace(s, b);
    var d0 := if c0 < |s| && (s[c0] == ':' || s[c0] == '-') then c0 + 1 else c0;
    if d == c + 1 {
      assert !IsSpace(s[c]);
      assert c == c0 && d == d0;
    } else {
      assert forall j | b <= j < e :: IsSpace(s[j]);
      assert e == c0;
      assert d0 == c0;
    }
  }

  /** Every way the pattern can match at `i` has "NO" where the matcher puts
      it and the digits starting where the matcher starts them, and the
      capture `(\d+)`, being greedy with nothing after it, is the whole digit
      run. */
  lemma CourtCandidateForced(s: string, i: nat, a: nat, b: nat, c: nat, d: nat, e: nat, f: nat)
    requires CourtCandidate(s, i, a, b, c, d, e, f)
    ensures CourtNumberAt(s, i) == Some(DigitsValue(s[e..DigitRunEnd(s, e)]))
  {
    LetterIsNoSpace(s, a, "NO", 0);
    assert a == SkipSpace(s, i + 5);
    NumberTailForced(s, a, b, c, d, e, f);
    assert DigitRunEnd(s, e) > e;
  }

  /** Whenever the matcher finds a number at `i`, the pattern matches there. */
  lemma CourtNumberAtHasCandidate(s: string, i: nat)
    requires CourtNumberAt(s, i).Some?
    ensures exists a: nat, b: nat, c: nat, d: nat, e: nat, f: nat :: CourtCandidate(s, i, a, b, c, d, e, f)
  {
    var a := SkipSpace(s, i + 5);
    assert MatchAtCI(s, i, "COURT") && MatchAtCI(s, a, "NO");
    var e := DigitsStart(s, a);
    var f := DigitRunEnd(s, e);
    assert f > e;
    var b, c, d := DigitsStartTail(s, a);
    assert CourtCandidate(s, i, a, b, c, d, e, f);
  }

  /** The matcher's own positions after "NO" form a way for the rest of the
      pattern to match, whenever a digit follows them. */
  lemma DigitsStartTail(s: string, a: nat) returns (b: nat, c: nat, d: nat)
    requires a + 2 <= |s| && DigitRunEnd(s, DigitsStart(s, a)) > DigitsStart(s, a)
    ensures NumberTail(s, a, b, c, d, DigitsStart(s, a), DigitRunEnd(s, DigitsStart(s, a)))
  {
    b := if a + 2 < |s| && s[a + 2] == '.' then a + 3 else a + 2;
    c := SkipSpace(s, b);
    d := if c < |s| && (s[c] == ':' || s[c] == '-') then c + 1 else c;
  }

  /** The matcher finds a number at `i` exactly when the pattern has a way to
      match there, and the number is that of the whole digit run the match
      starts. */
  lemma CourtNumberAtIffRegexMatches(s: string, i: nat)
    ensures CourtNumberAt(s, i).Some? <==>
            exists a: nat, b: nat, c: nat, d: nat, e: nat, f: nat :: CourtCandidate(s, i, a, b, c, d, e, f)
    ensures forall a: nat, b: nat, c: nat, d: nat, e: nat, f: nat | CourtCandidate(s, i, a, b, c, d, e, f) ::
              CourtNumberAt(s, i) == Some(DigitsValue(s[e..DigitRunEnd(s, e)]))
  {
    if CourtNumberAt(s, i).Some? {
      CourtNumberAtHasCandidate(s, i);
    }
    forall a: nat, b: nat, c: nat, d: nat, e: nat, f: nat | CourtCandidate(s, i, a, b, c, d, e, f)
      ensures CourtNumberAt(s, i) == Some(DigitsValue(s[e..DigitRunEnd(s, e)]))
    {
      CourtCandidateForced(s, i, a, b, c, d, e, f);
    }
  }

  /** `int(COURT_NUM_RE.search(s).group(1))`: the search tries the start
      positions from left to right and takes the first that matches; None
      when nothing matches. */
  function CourtNumberSearch(s: string): Option<nat> {
    FirstSome(seq(|s| + 1, k requires 0 <= k <= |s| => CourtNumberAt(s, k)))
  }

  /** The search returns the number of the leftmost match, and None exactly
      when the pattern matches nowhere. */
  lemma CourtNumberSearchIsLeftmost(s: string)
    ensures CourtNumberSearch(s).Some? ==>
              exists k | 0 <= k <= |s| :: CourtNumberAt(s, k) == CourtNumberSearch(s)
                && forall j | 0 <= j < k :: CourtNumberAt(s, j).None?
    ensures CourtNumberSearch(s).None? <==> forall k | 0 <= k <= |s| :: CourtNumberAt(s, k).None?
  {
    var xs := seq(|s| + 1, k requires 0 <= k <= |s| => CourtNumberAt(s, k));
    FirstSomeIsLeftmost(xs);
    assert forall k | 0 <= k <= |s| :: xs[k] == CourtNumberAt(s, k);
  }

  /** A match at the very start is the one the search returns. */
  lemma CourtNumberSearchAtStart(s: string)
    requires CourtNumberAt(s, 0).Some?
    ensures CourtNumberSearch(s) == CourtNumberAt(s, 0)
  {
    var xs := seq(|s| + 1, k requires 0 <= k <= |s| => CourtNumberAt(s, k));
    assert xs[0] == CourtNumberAt(s, 0);
  }

  // ---------------------------------------------------------------------
  // Worked examples
  // ---------------------------------------------------------------------

  /** The digit runs of a line that starts "115.30" followed by no digit. */
  lemma SerialExampleRuns(s: string)
    requires |s| > 6 && s[..6] == "115.30" && !IsDigit(s[6])
    ensures SkipSpace(s, 0) == 0 && DigitRunEnd(s, 0) == 3 && DigitRunEnd(s, 4) == 6
  {
    assert s[0] == '1' && s[1] == '1' && s[2] == '5' && s[3] == '.';
    assert s[4] == '3' && s[5] == '0';
    assert DigitRunEnd(s, 3) == 3;
    assert DigitRunEnd(s, 6) == 6;
  }

  /** A serial with a fractional part is captured whole. */
  lemma SerialWithFraction()
    ensures SerialMatch("115.30 Some text") == Some("115.30")
  {
    var s := "115.30 Some text";
    SerialExampleRuns(s);
    assert s[3] == '.' && WordBoundary(s, 6);
    assert s[0..6] == "115.30";
  }

  /** When no word boundary follows the fraction, the matcher backtracks
      and the integer part alone is the serial. */
  lemma SerialFractionBacktracks()
    ensures SerialMatch("115.30x") == Some("115")
  {
    var s := "115.30x";
    SerialExampleRuns(s);
    assert s[3] == '.' && !WordBoundary(s, 6);
    assert WordBoundary(s, 3);
    assert s[0..3] == "115";
  }

  /** Four leading digits never form a serial. */
  lemma SerialRejectsFourDigits()
    ensures SerialMatch("1234 text") == None
  {
    var s := "1234 text";
    assert s[0] == '1' && SkipSpace(s, 0) == 0;
    assert DigitRunEnd(s, 4) == 4;
    assert DigitRunEnd(s, 3) == 4;
    assert DigitRunEnd(s, 2) == 4;
    assert DigitRunEnd(s, 1) == 4;
  }
  /** A digit run glued to letters is not a serial. */
  lemma SerialNeedsWordBoundary()
    ensures SerialMatch("12abc") == None
  {
    var s := "12abc";
    assert s[0] == '1' && SkipSpace(s, 0) == 0;
    assert DigitRunEnd(s, 2) == 2;
    assert DigitRunEnd(s, 1) == 2;
  }
  /** IGNORE_HEAD matches "NOTE" inside any word, in any case. */
  lemma MetaNoteInsideWord()
    ensures IsMetaLine("Noted")
  {
    var s := "Noted";
    assert s[0..4] == "Note";
    assert Lower("Note") == "note" == Lower("NOTE");
    assert MatchAtCI(s, 0, "NOTE");
    assert ContainsCI(s, "NOTE");
    assert "NOTE" in IgnoreHeadPhrases;
  }
  /** A Roman-numeral section heading with a letter suffix is boilerplate. */
  lemma MetaRomanHeading()
    ensures IsMetaLine("XIV-A")
  {
    var s := "XIV-A";
    assert RomanRunEnd(s, 3) == 3;
    assert RomanRunEnd(s, 2) == 3;
    assert RomanRunEnd(s, 1) == 3;
    assert RomanRunEnd(s, 0) == 3;
    assert RomanHeading(s);
  }
  /** Any line holding "No." (case-sensitive) that starts the line or
      follows a character other than a letter, digit or underscore is
      boilerplate, whatever else the line holds. */
  lemma CaseNumberMarkIsMeta(s: string, i: nat)
    requires i + 3 <= |s| && s[i..i + 3] == "No."
    requires i == 0 || !IsWordChar(s[i - 1])
    ensures IsMetaLine(s)
  {
    assert s[i] == s[i..i + 3][0] == 'N';
    assert WordBoundary(s, i) && MatchAt(s, i, "No.");
  }

  /** A line with a case number "No." is boilerplate. */
  lemma MetaCaseNumberLine()
    ensures IsMetaLine("12 No. x")
  {
    var s := "12 No. x";
    assert s[3..6] == "No." && !IsWordChar(s[2]);
    CaseNumberMarkIsMeta(s, 3);
  }
  /** The court number follows "COURT NO." */
  lemma CourtNumberExample()
    ensures CourtNumberSearch("COURT NO. 2") == Some(2)
  {
    CourtNumberAtExample();
    CourtNumberSearchAtStart("COURT NO. 2");
  }

  lemma CourtNumberAtExample()
    ensures CourtNumberAt("COURT NO. 2", 0) == Some(2)
  {
    var s := "COURT NO. 2";
    assert MatchAtCI(s, 0, "COURT");
    CourtExampleSpaces();
    assert MatchAtCI(s, 6, "NO");
    assert DigitRunEnd(s, 10) == 11;
    assert s[10..11] == "2";
    assert DigitsValue("2") == 2;
  }

  lemma CourtExampleSpaces()
    ensures SkipSpace("COURT NO. 2", 5) == 6
    ensures SkipSpace("COURT NO. 2", 9) == 10
    ensures SkipSpace("COURT NO. 2", 10) == 10
  {
    var s := "COURT NO. 2";
    assert s[5] == ' ' && s[6] == 'N';
    assert s[9] == ' ' && s[10] == '2';
  }
}
