/** `smart_title`: the normaliser applied to every petitioner and respondent
    line. The line is stripped and its whitespace runs collapsed, each
    whitespace-separated token is recased by its own rule, the tokens are
    joined with single spaces and the result loses any leading or trailing
    space, comma, period and hyphen. */
module Normalize {
  import opened Text

  /** Abbreviations kept as written (the code tests `w.upper() in kept`). */
  const Kept: set<string> :=
    {"U.P.", "NCT", "SLP", "S.L.P.", "IA", "I.A.", "Ltd.", "LTD.", "CBI", "GST",
     "W.P.(C)", "T.P.(C)", "T.P.(Crl.)"}

  /** Small words written in lower case anywhere but at the front. */
  const Lowers: set<string> :=
    {"and", "of", "the", "by", "on", "for", "to", "in", "vs", "vs.", "alias", "@"}

  /** The argument of the final `strip(" ,.-")`. */
  const Edge: StripChars := Chars(" ,.-")

  predicate IsEdge(c: char) {
    Strips(Edge, c)
  }

  predicate HasDigit(w: string) {
    exists k | 0 <= k < |w| :: IsDigit(w[k])
  }

  /** A token copied without any change of case. */
  predicate Verbatim(w: string) {
    HasDigit(w) || ('.' in w && Upper(w) == w) || Upper(w) in Kept
  }

  /** The token `w` at position `i` of the line, recased. */
  function NormToken(w: string, i: nat): string {
    if Verbatim(w) then w
    else if Lower(w) in Lowers && i != 0 then Lower(w)
    else Capitalize(Lower(w))
  }

  /** Every token recased by its position, in order. */
  function NormTokens(ws: seq<string>): (r: seq<string>)
    ensures |r| == |ws|
  {
    seq(|ws|, k requires 0 <= k < |ws| => NormToken(ws[k], k))
  }

  /** `s.strip()`, whitespace runs collapsed, then `split()`. */
  function Tokens(s: string): seq<string> {
    Split(CollapseSpaces(Strip(s)))
  }

  /** The joined output before the final strip. */
  function Joined(s: string): string {
    Join(NormTokens(Tokens(s)))
  }

  /** `smart_title(s)`. */
  function SmartTitle(s: string): string {
    StripBy(Joined(s), Edge)
  }

  // ---------------------------------------------------------------------
  // The rule for one token
  // ---------------------------------------------------------------------

  /** What happens to one token: a verbatim token is copied; any other keeps
      its letters and changes only their case, becoming all lower-case if it
      is one of the small words after the first position and capitalised
      otherwise. Since a string is fixed by its lower-case form together with
      being capitalised (`Text.CapitalizedUnique`), this determines the
      output (`NormTokenDetermined`). */
  lemma NormTokenRules(w: string, i: nat)
    ensures Verbatim(w) ==> NormToken(w, i) == w
    ensures !Verbatim(w) ==> Lower(NormToken(w, i)) == Lower(w)
    ensures !Verbatim(w) && i > 0 && Lower(w) in Lowers ==>
              Lower(NormToken(w, i)) == NormToken(w, i)
    ensures !Verbatim(w) && !(i > 0 && Lower(w) in Lowers) ==> Capitalized(NormToken(w, i))
  {
    LowerIdempotent(w);
    CapitalizeIsCapitalized(Lower(w));
  }

  /** The rules fix the output: a token that is not copied comes out as the
      one string with its letters, in the case the rules prescribe. */
  lemma NormTokenDetermined(w: string, i: nat, v: string)
    requires !Verbatim(w) && Lower(v) == Lower(w)
    requires if i > 0 && Lower(w) in Lowers then Lower(v) == v else Capitalized(v)
    ensures NormToken(w, i) == v
  {
    NormTokenRules(w, i);
    var r := NormToken(w, i);
    if i > 0 && Lower(w) in Lowers {
      assert r == Lower(r) == Lower(w) == Lower(v) == v;
    } else {
      CapitalizedUnique(r, v);
    }
  }

  /** Recasing never changes what the case-insensitive view of a token is. */
  lemma NormTokenSameLower(w: string, i: nat)
    ensures Lower(NormToken(w, i)) == Lower(w)
  {
    NormTokenRules(w, i);
  }

  /** Recasing keeps a token a token. */
  lemma NormTokenIsToken(w: string, i: nat)
    requires IsToken(w)
    ensures IsToken(NormToken(w, i))
  {
    var r := NormToken(w, i);
    if !Verbatim(w) {
      var l := Lower(w);
      forall k | 0 <= k < |l| ensures !IsSpace(l[k]) {
        CaseKeepsSpace(w[k]);
      }
      if r != l {
        assert r == [UpperChar(l[0])] + Lower(l[1..]);
        CaseKeepsSpace(l[0]);
        forall k | 0 <= k < |r| ensures !IsSpace(r[k]) {
          if k > 0 {
            assert r[k] == LowerChar(l[k]);
            CaseKeepsSpace(l[k]);
          }
        }
      }
    }
  }

  /** Normalising a token twice is normalising it once. */
  lemma NormTokenIdempotent(w: string, i: nat)
    ensures NormToken(NormToken(w, i), i) == NormToken(w, i)
  {
    var r := NormToken(w, i);
    NormTokenSameLower(w, i);
    if !Verbatim(r) {
      assert !Verbatim(w);
    }
  }

  lemma NormTokensAreTokens(ws: seq<string>)
    requires AllTokens(ws)
    ensures AllTokens(NormTokens(ws))
  {
    forall k | 0 <= k < |ws| ensures IsToken(NormTokens(ws)[k]) {
      NormTokenIsToken(ws[k], k);
    }
  }

  lemma NormTokensIdempotent(ws: seq<string>)
    ensures NormTokens(NormTokens(ws)) == NormTokens(ws)
  {
    forall k | 0 <= k < |ws| ensures NormTokens(NormTokens(ws))[k] == NormTokens(ws)[k] {
      NormTokenIdempotent(ws[k], k);
    }
  }

  /** The spelling quirks of the `kept` test, first half: "ltd." is
      protected because its upper-case form "LTD." is listed. */
  lemma KeptIsTestedInUpperCase()
    ensures NormToken("ltd.", 1) == "ltd."
  {
    assert Upper("ltd.") == "LTD.";
  }

  /** Second half: "T.P.(Crl.)" is not protected, because its upper-case
      form "T.P.(CRL.)" is not listed. */
  lemma KeptMissesMixedCase()
    ensures NormToken("T.P.(Crl.)", 0) == "T.p.(crl.)"
  {
    MixedCaseNotVerbatim();
    MixedCaseRecased();
  }

  lemma MixedCaseNotVerbatim()
    ensures !Verbatim("T.P.(Crl.)")
  {
    var w := "T.P.(Crl.)";
    assert Upper(w) == "T.P.(CRL.)";
    assert Upper(w)[7] != w[7];
    assert !HasDigit(w);
  }

  lemma MixedCaseRecased()
    ensures Capitalize(Lower("T.P.(Crl.)")) == "T.p.(crl.)"
  {
    var w := "T.P.(Crl.)";
    var c := Capitalize(Lower(w));
    CapitalizeLowerAt(w);
    assert c[0] == 'T' && c[1] == '.' && c[2] == 'p' && c[3] == '.' && c[4] == '(';
    assert c[5] == 'c' && c[6] == 'r' && c[7] == 'l' && c[8] == '.' && c[9] == ')';
  }

  // ---------------------------------------------------------------------
  // The whole line
  // ---------------------------------------------------------------------

  lemma TokensAreTokens(s: string)
    ensures AllTokens(Tokens(s))
  {
    SplitIsTokens(CollapseSpaces(Strip(s)));
  }

  /** Two strings of equal length whose characters agree on `chars` are
      stripped at the same places. */
  lemma {:induction false} SkipCharsAlike(x: string, y: string, i: nat, chars: StripChars)
    requires i <= |x| == |y| && forall k | 0 <= k < |x| :: Strips(chars, x[k]) == Strips(chars, y[k])
    ensures SkipChars(x, i, chars) == SkipChars(y, i, chars)
    decreases |x| - i
  {
    if i < |x| && Strips(chars, x[i]) {
      SkipCharsAlike(x, y, i + 1, chars);
    }
  }

  lemma {:induction false} TrimEndAlike(x: string, y: string, lo: nat, j: nat, chars: StripChars)
    requires lo <= j <= |x| == |y| && forall k | 0 <= k < |x| :: Strips(chars, x[k]) == Strips(chars, y[k])
    ensures TrimEnd(x, lo, j, chars) == TrimEnd(y, lo, j, chars)
    decreases j
  {
    if j > lo && Strips(chars, x[j - 1]) {
      TrimEndAlike(x, y, lo, j - 1, chars);
    }
  }

  /** Stripping edge characters commutes with the case-insensitive view. */
  lemma StripEdgeSameLower(x: string, y: string)
    requires Lower(x) == Lower(y)
    ensures Lower(StripBy(x, Edge)) == Lower(StripBy(y, Edge))
  {
    forall k | 0 <= k < |x| ensures Strips(Edge, x[k]) == Strips(Edge, y[k]) {
      assert Lower(x)[k] == LowerChar(x[k]) && Lower(y)[k] == LowerChar(y[k]);
    }
    SkipCharsAlike(x, y, 0, Edge);
    var a := SkipChars(x, 0, Edge);
    TrimEndAlike(x, y, a, |x|, Edge);
    var e := TrimEnd(x, a, |x|, Edge);
    LowerSlice(x, a, e);
    LowerSlice(y, a, e);
  }

  lemma {:induction false} JoinSameLower(xs: seq<string>, ys: seq<string>)
    requires |xs| == |ys| && forall k | 0 <= k < |xs| :: Lower(xs[k]) == Lower(ys[k])
    ensures Lower(Join(xs)) == Lower(Join(ys))
    decreases |xs|
  {
    if |xs| > 1 {
      JoinSameLower(xs[1..], ys[1..]);
      LowerAppend(xs[0] + " ", Join(xs[1..]));
      LowerAppend(ys[0] + " ", Join(ys[1..]));
      LowerAppend(xs[0], " ");
      LowerAppend(ys[0], " ");
    }
  }

  /** smart_title changes only the case of letters, besides collapsing
      whitespace and trimming the edge characters: its output agrees, ignoring
      case, with the tokens rejoined and trimmed unchanged. */
  lemma SmartTitleOnlyRecases(s: string)
    ensures Lower(SmartTitle(s)) == Lower(StripBy(Join(Tokens(s)), Edge))
  {
    var ws := Tokens(s);
    forall k | 0 <= k < |ws| ensures Lower(NormTokens(ws)[k]) == Lower(ws[k]) {
      NormTokenSameLower(ws[k], k);
    }
    JoinSameLower(NormTokens(ws), ws);
    StripEdgeSameLower(Joined(s), Join(ws));
  }

  /** Trimming edge characters keeps a single-spaced string single-spaced. */
  lemma StripEdgeShape(j: string)
    requires SingleSpaced(j)
    ensures SingleSpaced(StripBy(j, Edge))
    ensures StripBy(j, Edge) != [] ==>
              !IsEdge(StripBy(j, Edge)[0]) && !IsEdge(StripBy(j, Edge)[|StripBy(j, Edge)| - 1])
  {
    StripByIsSlice(j, Edge);
    var n := SkipChars(j, 0, Edge);
    var r := StripBy(j, Edge);
    if r != [] {
      assert r[0] == j[n] && r[|r| - 1] == j[n + |r| - 1];
    }
    SingleSpacedSlice(j, n, n + |r|);
  }

  /** The output is single-spaced and neither starts nor ends with a space,
      comma, period or hyphen. */
  lemma SmartTitleShape(s: string)
    ensures SingleSpaced(SmartTitle(s))
    ensures SmartTitle(s) != [] ==>
              !IsEdge(SmartTitle(s)[0]) && !IsEdge(SmartTitle(s)[|SmartTitle(s)| - 1])
  {
    TokensAreTokens(s);
    NormTokensAreTokens(Tokens(s));
    JoinTokens(NormTokens(Tokens(s)));
    StripEdgeShape(Joined(s));
  }

  /** A line of whitespace normalises to the empty string. */
  lemma SmartTitleBlank(s: string)
    requires forall k | 0 <= k < |s| :: IsSpace(s[k])
    ensures SmartTitle(s) == ""
  {
    StripIsSlice(s);
    SkipSpaceToEnd(s, 0);
    assert Strip(s) == "";
  }

  /** Re-normalising gives the same string whenever the final strip took
      nothing off, that is, when the recased first token does not start and
      the recased last token does not end with a space, comma, period or
      hyphen. */
  lemma SmartTitleIdempotentWhenUntrimmed(s: string)
    requires Joined(s) == [] || (!IsEdge(Joined(s)[0]) && !IsEdge(Joined(s)[|Joined(s)| - 1]))
    ensures SmartTitle(SmartTitle(s)) == SmartTitle(s)
  {
    var ws := NormTokens(Tokens(s));
    var j := Join(ws);
    TokensAreTokens(s);
    NormTokensAreTokens(Tokens(s));
    StripEdgeUntrimmed(j);
    assert SmartTitle(s) == j;
    StripJoin(ws);
    CollapseJoin(ws);
    SplitJoin(ws);
    assert Tokens(j) == ws;
    NormTokensIdempotent(Tokens(s));
  }

  lemma StripEdgeUntrimmed(j: string)
    requires j == [] || (!IsEdge(j[0]) && !IsEdge(j[|j| - 1]))
    ensures StripBy(j, Edge) == j
  {
    assert SkipChars(j, 0, Edge) == 0;
    assert TrimEnd(j, 0, |j|, Edge) == |j|;
    assert j[0..|j|] == j;
  }

  /** Tokens already joined by single spaces are read back unchanged. */
  lemma TokensOfJoin(ws: seq<string>)
    requires AllTokens(ws)
    ensures Tokens(Join(ws)) == ws
  {
    StripJoin(ws);
    CollapseJoin(ws);
    SplitJoin(ws);
  }

  /** smart_title of a line of two tokens. */
  lemma SmartTitleOfTwo(a: string, b: string)
    requires IsToken(a) && IsToken(b)
    ensures SmartTitle(a + " " + b) == StripBy(NormToken(a, 0) + " " + NormToken(b, 1), Edge)
  {
    var ws := [a, b];
    assert ws[1..] == [b];
    assert Join(ws) == a + " " + b;
    assert AllTokens(ws) by {
      assert ws[0] == a && ws[1] == b;
    }
    TokensOfJoin(ws);
    var ns := NormTokens(ws);
    assert ns == [NormToken(a, 0), NormToken(b, 1)];
    assert ns[1..] == [NormToken(b, 1)];
    assert Join(ns) == NormToken(a, 0) + " " + NormToken(b, 1);
  }

  // ---------------------------------------------------------------------
  // Why idempotence needs the condition above
  // ---------------------------------------------------------------------

  /** Lower-case letters and periods only. */
  predicate PlainWord(v: string) {
    forall k | 0 <= k < |v| :: IsLower(v[k]) || v[k] == '.'
  }

  /** What the small words other than "@" have in common: plain words of at
      least two characters, the first two of them letters, whose upper-case
      form is no kept abbreviation, and all but "vs." end with a letter. */
  predicate SmallWordFacts(v: string) {
    PlainWord(v) && |v| >= 2 && IsLower(v[0]) && IsLower(v[1]) && Upper(v) !in Kept &&
    (v != "vs." ==> IsLower(v[|v| - 1]))
  }

  // One lemma per small word: each is the same fact about a different
  // literal. They are kept apart only so that each proof stays cheap; with
  // the whole `Lowers` set in one context the solver runs out of resource.
  // `SmallWordFactsHold` gathers them.

  lemma SmallWordFactsAnd(v: string)
    requires v == "and"
    ensures SmallWordFacts(v)
  {
    assert Upper(v) == "AND";
  }

  lemma SmallWordFactsOf(v: string)
    requires v == "of"
    ensures SmallWordFacts(v)
  {
    assert Upper(v) == "OF";
  }

  lemma SmallWordFactsThe(v: string)
    requires v == "the"
    ensures SmallWordFacts(v)
  {
    assert Upper(v) == "THE";
  }

  lemma SmallWordFactsBy(v: string)
    requires v == "by"
    ensures SmallWordFacts(v)
  {
    assert Upper(v) == "BY";
  }

  lemma SmallWordFactsOn(v: string)
    requires v == "on"
    ensures SmallWordFacts(v)
  {
    assert Upper(v) == "ON";
  }

  lemma SmallWordFactsFor(v: string)
    requires v == "for"
    ensures SmallWordFacts(v)
  {
    assert Upper(v) == "FOR";
  }

  lemma SmallWordFactsTo(v: string)
    requires v == "to"
    ensures SmallWordFacts(v)
  {
    assert Upper(v) == "TO";
  }

  lemma SmallWordFactsIn(v: string)
    requires v == "in"
    ensures SmallWordFacts(v)
  {
    assert Upper(v) == "IN";
  }

  lemma SmallWordFactsVs(v: string)
    requires v == "vs"
    ensures SmallWordFacts(v)
  {
    assert Upper(v) == "VS";
  }

  lemma SmallWordFactsVsDot(v: string)
    requires v == "vs."
    ensures SmallWordFacts(v)
  {
    assert Upper(v) == "VS.";
  }

  lemma SmallWordFactsAlias(v: string)
    requires v == "alias"
    ensures SmallWordFacts(v)
  {
    assert Upper(v) == "ALIAS";
  }

  lemma SmallWordFactsHold(v: string)
    requires v in Lowers && v != "@"
    ensures SmallWordFacts(v)
  {
    if v == "and" { SmallWordFactsAnd(v); }
    else if v == "of" { SmallWordFactsOf(v); }
    else if v == "the" { SmallWordFactsThe(v); }
    else if v == "by" { SmallWordFactsBy(v); }
    else if v == "on" { SmallWordFactsOn(v); }
    else if v == "for" { SmallWordFactsFor(v); }
    else if v == "to" { SmallWordFactsTo(v); }
    else if v == "in" { SmallWordFactsIn(v); }
    else if v == "vs" { SmallWordFactsVs(v); }
    else if v == "vs." { SmallWordFactsVsDot(v); }
    else { SmallWordFactsAlias(v); }
  }

  /** A plain word has no whitespace and no digit, and is its own lower-case
      form. */
  lemma PlainWordShape(v: string)
    requires PlainWord(v) && v != []
    ensures IsToken(v) && Lower(v) == v && !HasDigit(v)
  {
    assert forall k | 0 <= k < |v| :: Lower(v)[k] == v[k];
  }

  /** The small words other than "@" are lower-case words of at least two
      letters' length that start with a letter, and all but "vs." end with
      one. */
  lemma SmallWordShape(v: string)
    requires v in Lowers && v != "@"
    ensures IsToken(v) && Lower(v) == v && |v| >= 2 && IsLower(v[0])
    ensures v != "vs." ==> IsLower(v[|v| - 1])
  {
    SmallWordFactsHold(v);
    PlainWordShape(v);
  }

  /** No small word is copied verbatim, capitalised or not. */
  lemma SmallWordNotVerbatim(v: string)
    requires v in Lowers && v != "@"
    ensures !Verbatim(v) && !Verbatim(Capitalize(v))
  {
    SmallWordFactsHold(v);
    FactsNotVerbatim(v);
  }

  lemma FactsNotVerbatim(v: string)
    requires SmallWordFacts(v)
    ensures !Verbatim(v) && !Verbatim(Capitalize(v))
  {
    PlainWordShape(v);
    PlainWordRecased(v);
    UpperCapitalize(v);
  }

  /** A plain word that starts with two letters is not its own upper-case
      form, and neither is its capitalised form, which has no digit. */
  lemma PlainWordRecased(v: string)
    requires PlainWord(v) && |v| >= 2 && IsLower(v[0]) && IsLower(v[1])
    ensures Upper(v) != v
    ensures Upper(Capitalize(v)) != Capitalize(v) && !HasDigit(Capitalize(v))
  {
    assert Upper(v)[0] != v[0];
    var c := Capitalize(v);
    assert c[1] == LowerChar(v[1]) == v[1];
    assert Upper(c)[1] != c[1];
    forall k | 0 <= k < |c|
      ensures !IsDigit(c[k])
    {
      if k > 0 {
        assert c[k] == LowerChar(v[k]);
      }
    }
  }

  /** No kept abbreviation starts or ends with a hyphen. */
  lemma KeptHasNoHyphenEnds(k: string)
    ensures k in Kept ==> k != [] && k[0] != '-' && k[|k| - 1] != '-'
  {
  }

  /** No small word starts or ends with a hyphen. */
  lemma LowersHaveNoHyphenEnds(k: string)
    ensures k in Lowers ==> k != [] && k[0] != '-' && k[|k| - 1] != '-'
  {
  }

  lemma HasDigitAppend(a: string, b: string)
    ensures HasDigit(a + b) <==> HasDigit(a) || HasDigit(b)
  {
    if HasDigit(a + b) {
      var k :| 0 <= k < |a + b| && IsDigit((a + b)[k]);
      if k < |a| {
        assert a[k] == (a + b)[k];
      } else {
        assert b[k - |a|] == (a + b)[k];
      }
    }
    if HasDigit(a) {
      var k :| 0 <= k < |a| && IsDigit(a[k]);
      assert (a + b)[k] == a[k];
    }
    if HasDigit(b) {
      var k :| 0 <= k < |b| && IsDigit(b[k]);
      assert (a + b)[|a| + k] == b[k];
    }
  }

  lemma UpperAppend(a: string, b: string)
    ensures Upper(a + b) == Upper(a) + Upper(b)
  {
    assert forall i | 0 <= i < |a + b| :: Upper(a + b)[i] == (Upper(a) + Upper(b))[i];
  }

  /** Gluing a hyphen to a small word at either end keeps it from being
      copied verbatim. */
  lemma HyphenatedNotVerbatim(v: string)
    requires v in Lowers && v != "@"
    ensures !Verbatim("-" + v) && !Verbatim(v + "-")
  {
    SmallWordShape(v);
    SmallWordNotVerbatim(v);
    HasDigitAppend("-", v);
    HasDigitAppend(v, "-");
    assert !HasDigit("-") by {
      assert !IsDigit("-"[0]);
    }
    UpperAppend("-", v);
    UpperAppend(v, "-");
    assert Upper("-") == "-";
    var p, q := "-" + v, v + "-";
    assert Upper(p)[1] == UpperChar(v[0]) != v[0] == p[1];
    assert Upper(q)[0] == UpperChar(v[0]) != v[0] == q[0];
    assert Upper(p)[0] == '-' && Upper(q)[|q| - 1] == '-';
    KeptHasNoHyphenEnds(Upper(p));
    KeptHasNoHyphenEnds(Upper(q));
  }

  lemma CapitalizeAppendHyphen(v: string)
    requires v != []
    ensures Capitalize(v + "-") == Capitalize(v) + "-"
  {
    assert (v + "-")[0] == v[0];
    assert (v + "-")[1..] == v[1..] + "-";
    LowerAppend(v[1..], "-");
    assert Lower("-") == "-";
  }

  /** Case mapping never turns a character into, or out of, an edge
      character. */
  lemma CaseKeepsEdge(c: char)
    ensures IsEdge(LowerChar(c)) == IsEdge(c) && IsEdge(UpperChar(c)) == IsEdge(c)
  {
  }

  /** Recasing keeps the characters a strip by edge characters would drop. */
  lemma NormTokenKeepsEdges(w: string, i: nat)
    ensures |NormToken(w, i)| == |w|
    ensures forall k | 0 <= k < |w| :: IsEdge(NormToken(w, i)[k]) == IsEdge(w[k])
  {
    var r := NormToken(w, i);
    if !Verbatim(w) {
      var l := Lower(w);
      forall k | 0 <= k < |w|
        ensures IsEdge(r[k]) == IsEdge(w[k])
      {
        assert l[k] == LowerChar(w[k]);
        CaseKeepsEdge(w[k]);
        if r != l {
          assert r == Capitalize(l);
          if k == 0 {
            assert r[0] == UpperChar(l[0]);
          } else {
            assert r[k] == LowerChar(l[k]);
          }
          CaseKeepsEdge(l[k]);
        }
      }
    }
  }

  /** Two words that start and end with no edge character, joined by a
      space, are left alone by the strip... */
  lemma StripPairUntrimmed(p: string, q: string)
    requires p != [] && q != [] && !IsEdge(p[0]) && !IsEdge(q[|q| - 1])
    ensures StripBy(p + " " + q, Edge) == p + " " + q
  {
    var j := p + " " + q;
    assert j[0] == p[0] && j[|j| - 1] == q[|q| - 1];
    StripEdgeUntrimmed(j);
  }

  /** ... and a hyphen in front of them, or behind them, is stripped. */
  lemma StripPairLeadingHyphen(p: string, q: string)
    requires p != [] && q != [] && !IsEdge(p[0]) && !IsEdge(q[|q| - 1])
    ensures StripBy("-" + p + " " + q, Edge) == p + " " + q
  {
    var r := p + " " + q;
    var j := "-" + r;
    assert j == "-" + p + " " + q;
    assert j[0] == '-' && j[1] == p[0] && j[|j| - 1] == q[|q| - 1];
    assert SkipChars(j, 1, Edge) == 1;
    assert SkipChars(j, 0, Edge) == 1;
    assert TrimEnd(j, 1, |j|, Edge) == |j|;
    assert j[1..|j|] == r;
  }

  lemma StripPairTrailingHyphen(p: string, q: string)
    requires p != [] && q != [] && !IsEdge(p[0]) && !IsEdge(q[|q| - 1])
    ensures StripBy(p + " " + (q + "-"), Edge) == p + " " + q
  {
    var r := p + " " + q;
    var j := p + " " + (q + "-");
    assert j == r + "-";
    assert j[0] == p[0] && j[|j| - 1] == '-' && j[|j| - 2] == q[|q| - 1];
    assert SkipChars(j, 0, Edge) == 0;
    assert TrimEnd(j, 0, |j| - 1, Edge) == |j| - 1;
    assert TrimEnd(j, 0, |j|, Edge) == |j| - 1;
    assert j[0..|j| - 1] == r;
  }

  /** A small word behind a hyphen, at the front of the line, is capitalised
      with the hyphen kept. */
  lemma HyphenSmallWordFirst(v: string)
    requires v in Lowers && v != "@"
    ensures IsToken("-" + v) && NormToken("-" + v, 0) == "-" + v
  {
    var a := "-" + v;
    SmallWordShape(v);
    assert IsToken(a) && Lower(a) == a by {
      LowerAppend("-", v);
      assert Lower("-") == "-";
      TokenJoin("-", v);
    }
    assert !Verbatim(a) by {
      HyphenatedNotVerbatim(v);
    }
    assert a[1..] == v;
    assert Capitalize(a) == [UpperChar(a[0])] + Lower(v);
  }

  /** A small word with a hyphen behind it, after the front, is capitalised
      with the hyphen kept. */
  lemma SmallWordHyphenLater(v: string)
    requires v in Lowers && v != "@"
    ensures IsToken(v + "-") && NormToken(v + "-", 1) == Capitalize(v) + "-"
  {
    SmallWordShape(v);
    HyphenatedNotVerbatim(v);
    var b := v + "-";
    assert forall k | 0 <= k < |v| :: b[k] == v[k];
    LowerAppend(v, "-");
    assert Lower("-") == "-";
    assert b[|b| - 1] == '-';
    LowersHaveNoHyphenEnds(b);
    CapitalizeAppendHyphen(v);
  }

  /** A small word is capitalised at the front and lower-cased after it. */
  lemma SmallWordRecased(v: string)
    requires v in Lowers && v != "@"
    ensures NormToken(v, 0) == Capitalize(v) && NormToken(Capitalize(v), 1) == v
    ensures IsToken(Capitalize(v)) && Capitalize(v)[0] != v[0]
    ensures Capitalize(v)[|v| - 1] == v[|v| - 1]
  {
    SmallWordShape(v);
    SmallWordNotVerbatim(v);
    CapitalizeIsCapitalized(v);
    var c := Capitalize(v);
    forall k | 0 <= k < |c| ensures !IsSpace(c[k]) {
      if k == 0 {
        CaseKeepsSpace(v[0]);
      } else {
        assert c[k] == LowerChar(v[k]);
        CaseKeepsSpace(v[k]);
      }
    }
    assert c[|v| - 1] == LowerChar(v[|v| - 1]);
  }

  /** Two words joined by a space differ when one of the words differs at
      its first character. */
  lemma PairsDiffer(a: string, b: string, c: string, d: string)
    requires |a| == |c| && a != [] && b != [] && d != []
    requires a[0] != c[0] || b[0] != d[0]
    ensures a + " " + b != c + " " + d
  {
    var l, r := a + " " + b, c + " " + d;
    assert l[0] == a[0] && r[0] == c[0];
    assert l[|a| + 1] == b[0] && r[|a| + 1] == d[0];
  }

  lemma UpperLetterIsNotEdge(c: char)
    requires IsLower(c)
    ensures !IsEdge(UpperChar(c))
  {
  }

  lemma LowerIsNotEdge(c: char)
    requires IsLower(c)
    ensures !IsEdge(c)
  {
  }

  /** Recasing a token keeps its last character an edge character or not. */
  lemma NormTokenLastEdge(x: string, i: nat)
    requires x != []
    ensures |NormToken(x, i)| == |x|
    ensures IsEdge(NormToken(x, i)[|x| - 1]) == IsEdge(x[|x| - 1])
    ensures IsEdge(NormToken(x, i)[0]) == IsEdge(x[0])
  {
    NormTokenKeepsEdges(x, i);
  }

  lemma FrontFirstPass(v: string, x: string)
    requires v in Lowers && v != "@"
    requires IsToken(x) && !IsEdge(x[|x| - 1])
    ensures SmartTitle("-" + v + " " + x) == v + " " + NormToken(x, 1)
  {
    SmallWordShape(v);
    LowerIsNotEdge(v[0]);
    NormTokenLastEdge(x, 1);
    HyphenSmallWordFirst(v);
    SmartTitleOfTwo("-" + v, x);
    StripPairLeadingHyphen(v, NormToken(x, 1));
  }

  lemma FrontSecondPass(v: string, y: string)
    requires v in Lowers && v != "@"
    requires IsToken(y) && !IsEdge(y[|y| - 1]) && NormToken(y, 1) == y
    ensures SmartTitle(v + " " + y) == Capitalize(v) + " " + y
  {
    SmallWordShape(v);
    SmallWordRecased(v);
    SmartTitleOfTwo(v, y);
    CapitalizeIsCapitalized(v);
    assert !IsEdge(Capitalize(v)[0]) by {
      LowerIsNotEdge(v[0]);
    }
    StripPairUntrimmed(Capitalize(v), y);
  }

  /** Trimming can expose a small word at the front, and the second pass
      then capitalises it: "-and x" gives "and X", which gives "And X". */
  lemma FrontSmallWordExposed(v: string, x: string)
    requires v in Lowers && v != "@"
    requires IsToken(x) && !IsEdge(x[|x| - 1])
    ensures SmartTitle("-" + v + " " + x) == v + " " + NormToken(x, 1)
    ensures SmartTitle(SmartTitle("-" + v + " " + x)) == Capitalize(v) + " " + NormToken(x, 1)
    ensures SmartTitle(SmartTitle("-" + v + " " + x)) != SmartTitle("-" + v + " " + x)
  {
    var y := NormToken(x, 1);
    FrontFirstPass(v, x);
    NormTokenLastEdge(x, 1);
    NormTokenIsToken(x, 1);
    NormTokenIdempotent(x, 1);
    FrontSecondPass(v, y);
    SmallWordRecased(v);
    PairsDiffer(Capitalize(v), y, v, y);
  }

  /** The ends of a small word other than "vs." and of its capitalised
      form are letters. */
  lemma SmallWordEnds(v: string)
    requires v in Lowers && v != "@" && v != "vs."
    ensures |Capitalize(v)| == |v| >= 2
    ensures !IsEdge(v[0]) && !IsEdge(v[|v| - 1])
    ensures !IsEdge(Capitalize(v)[0]) && !IsEdge(Capitalize(v)[|v| - 1])
  {
    SmallWordShape(v);
    SmallWordRecased(v);
    LowerIsNotEdge(v[0]);
    LowerIsNotEdge(v[|v| - 1]);
    UpperLetterIsNotEdge(v[0]);
  }

  lemma BackFirstPass(x: string, v: string)
    requires v in Lowers && v != "@" && v != "vs."
    requires IsToken(x) && !IsEdge(x[0])
    ensures SmartTitle(x + " " + (v + "-")) == NormToken(x, 0) + " " + Capitalize(v)
  {
    SmallWordHyphenLater(v);
    SmallWordEnds(v);
    NormTokenLastEdge(x, 0);
    SmartTitleOfTwo(x, v + "-");
    StripPairTrailingHyphen(NormToken(x, 0), Capitalize(v));
  }

  lemma BackSecondPass(y: string, v: string)
    requires v in Lowers && v != "@" && v != "vs."
    requires IsToken(y) && !IsEdge(y[0]) && NormToken(y, 0) == y
    ensures SmartTitle(y + " " + Capitalize(v)) == y + " " + v
  {
    SmallWordShape(v);
    SmallWordRecased(v);
    SmartTitleOfTwo(y, Capitalize(v));
    LowerIsNotEdge(v[|v| - 1]);
    StripPairUntrimmed(y, v);
  }

  /** Trimming can likewise expose a small word at the back, and the second
      pass then lower-cases it: "x and-" gives "X And", which gives "X and". */
  lemma BackSmallWordExposed(x: string, v: string)
    requires v in Lowers && v != "@" && v != "vs."
    requires IsToken(x) && !IsEdge(x[0])
    ensures SmartTitle(x + " " + (v + "-")) == NormToken(x, 0) + " " + Capitalize(v)
    ensures SmartTitle(SmartTitle(x + " " + (v + "-"))) == NormToken(x, 0) + " " + v
    ensures SmartTitle(SmartTitle(x + " " + (v + "-"))) != SmartTitle(x + " " + (v + "-"))
  {
    var y := NormToken(x, 0);
    BackFirstPass(x, v);
    NormTokenLastEdge(x, 0);
    NormTokenIsToken(x, 0);
    NormTokenIdempotent(x, 0);
    BackSecondPass(y, v);
    SmallWordRecased(v);
    PairsDiffer(y, Capitalize(v), y, v);
  }
}
