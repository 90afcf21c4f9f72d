/** The parts of Python's `str` type that the parser relies on: the
    whitespace class (`str.isspace`, which is also what the regex class `\s`
    matches), line boundaries of `str.splitlines`, ASCII digits, word
    characters and case mapping, `strip`, `split`, `" ".join`, `re.sub(r"\s+",
    " ", ...)`, substring tests and decimal conversion. */
module Text {

  /** `str.isspace` (and the regex class `\s`) for one character. */
  predicate IsSpace(c: char) {
    var n := c as int;
    (9 <= n <= 13) || (28 <= n <= 32) || n == 0x85 || n == 0xA0 || n == 0x1680
    || (0x2000 <= n <= 0x200A) || n == 0x2028 || n == 0x2029 || n == 0x202F
    || n == 0x205F || n == 0x3000
  }

  /** The characters at which `str.splitlines` ends a line. */
  predicate IsLineBreak(c: char) {
    var n := c as int;
    (10 <= n <= 13) || (28 <= n <= 30) || n == 0x85 || n == 0x2028 || n == 0x2029
  }

  predicate IsDigit(c: char) { '0' <= c <= '9' }
  predicate IsUpper(c: char) { 'A' <= c <= 'Z' }
  predicate IsLower(c: char) { 'a' <= c <= 'z' }

  /** The regex class `\w`, restricted to ASCII. */
  predicate IsWordChar(c: char) { IsDigit(c) || IsUpper(c) || IsLower(c) || c == '_' }

  function LowerChar(c: char): char {
    if IsUpper(c) then (c as int + 32) as char else c
  }

  function UpperChar(c: char): char {
    if IsLower(c) then (c as int - 32) as char else c
  }

  /** `str.lower()` on ASCII letters. */
  function Lower(s: string): (r: string)
    ensures |r| == |s|
  {
    seq(|s|, i requires 0 <= i < |s| => LowerChar(s[i]))
  }

  /** `str.upper()` on ASCII letters. */
  function Upper(s: string): (r: string)
    ensures |r| == |s|
  {
    seq(|s|, i requires 0 <= i < |s| => UpperChar(s[i]))
  }

  /** `str.capitalize()`: first character upper-cased, the rest lower-cased. */
  function Capitalize(s: string): (r: string)
    ensures |r| == |s|
  {
    if s == [] then [] else [UpperChar(s[0])] + Lower(s[1..])
  }

  lemma LowerAppend(a: string, b: string)
    ensures Lower(a + b) == Lower(a) + Lower(b)
  {
    assert forall i | 0 <= i < |a + b| :: Lower(a + b)[i] == (Lower(a) + Lower(b))[i];
  }

  lemma LowerSlice(s: string, a: nat, e: nat)
    requires a <= e <= |s|
    ensures Lower(s[a..e]) == Lower(s)[a..e]
  {
  }

  lemma LowerIdempotent(s: string)
    ensures Lower(Lower(s)) == Lower(s)
  {
  }

  lemma LowerCapitalize(s: string)
    ensures Lower(Capitalize(s)) == Lower(s)
  {
    if s != [] {
      LowerAppend([UpperChar(s[0])], Lower(s[1..]));
      LowerAppend([s[0]], s[1..]);
      assert s == [s[0]] + s[1..];
    }
  }

  /** Capitalising does not change the upper-case form. */
  lemma UpperCapitalize(s: string)
    ensures Upper(Capitalize(s)) == Upper(s)
  {
    if s != [] {
      var c := Capitalize(s);
      forall k | 0 <= k < |s|
        ensures Upper(c)[k] == Upper(s)[k]
      {
        if k > 0 {
          assert c[k] == LowerChar(s[k]);
        }
      }
    }
  }

  /** `Capitalize(Lower(s))` character by character. */
  lemma CapitalizeLowerAt(s: string)
    requires s != []
    ensures |Capitalize(Lower(s))| == |s|
    ensures Capitalize(Lower(s))[0] == UpperChar(s[0])
    ensures forall k | 1 <= k < |s| :: Capitalize(Lower(s))[k] == LowerChar(s[k])
  {
    var c := Capitalize(Lower(s));
    forall k | 1 <= k < |s|
      ensures c[k] == LowerChar(s[k])
    {
      assert c[k] == LowerChar(Lower(s)[k]);
    }
  }

  /** A character that folds to a letter is not whitespace. */
  lemma LetterIsNotSpace(c: char)
    requires IsLower(LowerChar(c))
    ensures !IsSpace(c)
  {
  }

  /** A character's case mapping never turns it into, or out of, whitespace. */
  lemma CaseKeepsSpace(c: char)
    ensures IsSpace(LowerChar(c)) == IsSpace(c)
    ensures IsSpace(UpperChar(c)) == IsSpace(c)
  {
  }

  /** Capitalised: the first character is not a lower-case letter and the
      rest has no upper-case letter (what `str.capitalize()` produces). */
  predicate Capitalized(t: string) {
    t == [] || (!IsLower(t[0]) && Lower(t[1..]) == t[1..])
  }

  lemma CapitalizeIsCapitalized(s: string)
    ensures Capitalized(Capitalize(s))
    ensures Lower(Capitalize(s)) == Lower(s)
  {
    LowerCapitalize(s);
    if s != [] {
      var c := Capitalize(s);
      assert c[1..] == Lower(s[1..]);
      LowerIdempotent(s[1..]);
    }
  }

  /** Two capitalised strings that agree up to case are equal. */
  lemma {:induction false} CapitalizedUnique(x: string, y: string)
    requires Capitalized(x) && Capitalized(y) && Lower(x) == Lower(y)
    ensures x == y
  {
    if x != [] {
      assert Lower(x)[0] == LowerChar(x[0]) && Lower(y)[0] == LowerChar(y[0]);
      assert x[0] == y[0];
      forall k | 1 <= k < |x| ensures x[k] == y[k] {
        assert Lower(x[1..])[k - 1] == LowerChar(x[k]) == Lower(x)[k];
        assert Lower(y[1..])[k - 1] == LowerChar(y[k]) == Lower(y)[k];
      }
    }
  }

  /** The first index at or after `i` that does not hold whitespace. */
  function SkipSpace(s: string, i: nat): (r: nat)
    requires i <= |s|
    ensures i <= r <= |s|
    ensures forall k | i <= k < r :: IsSpace(s[k])
    ensures r < |s| ==> !IsSpace(s[r])
  {
    SkipChars(s, i, Whitespace)
  }

  /** Skipping whitespace from `i` reaches the end exactly when only
      whitespace follows `i`. */
  lemma SkipSpaceToEnd(s: string, i: nat)
    requires i <= |s|
    ensures SkipSpace(s, i) == |s| <==> forall k | i <= k < |s| :: IsSpace(s[k])
  {
  }

  /** The first index at or after `i` that holds whitespace. */
  function TokenEnd(s: string, i: nat): (r: nat)
    requires i <= |s|
    ensures i <= r <= |s|
    ensures forall k | i <= k < r :: !IsSpace(s[k])
    ensures r < |s| ==> IsSpace(s[r])
    decreases |s| - i
  {
    if i < |s| && !IsSpace(s[i]) then TokenEnd(s, i + 1) else i
  }

  /** The end of the run of ASCII digits that starts at `i`. */
  function DigitRunEnd(s: string, i: nat): (r: nat)
    requires i <= |s|
    ensures i <= r <= |s|
    ensures forall k | i <= k < r :: IsDigit(s[k])
    ensures r < |s| ==> !IsDigit(s[r])
    decreases |s| - i
  {
    if i < |s| && IsDigit(s[i]) then DigitRunEnd(s, i + 1) else i
  }

  /** The first index at or after `i` that holds a line boundary. */
  function LineEnd(s: string, i: nat): (r: nat)
    requires i <= |s|
    ensures i <= r <= |s|
    ensures forall k | i <= k < r :: !IsLineBreak(s[k])
    ensures r < |s| ==> IsLineBreak(s[r])
    decreases |s| - i
  {
    if i < |s| && !IsLineBreak(s[i]) then LineEnd(s, i + 1) else i
  }

  /** The argument of `str.strip`: none strips whitespace, a string strips
      the characters it holds. */
  datatype StripChars = Whitespace | Chars(cs: string)

  predicate Strips(chars: StripChars, c: char) {
    match chars
    case Whitespace => IsSpace(c)
    case Chars(cs) => c in cs
  }

  /** The first index at or after `i` whose character `chars` does not name. */
  function SkipChars(s: string, i: nat, chars: StripChars): (r: nat)
    requires i <= |s|
    ensures i <= r <= |s|
    ensures forall k | i <= k < r :: Strips(chars, s[k])
    ensures r < |s| ==> !Strips(chars, s[r])
    decreases |s| - i
  {
    if i < |s| && Strips(chars, s[i]) then SkipChars(s, i + 1, chars) else i
  }

  /** Where the run of characters named by `chars` that ends at `j` begins,
      going no lower than `lo`. */
  function TrimEnd(s: string, lo: nat, j: nat, chars: StripChars): (r: nat)
    requires lo <= j <= |s|
    ensures lo <= r <= j
    ensures forall k | r <= k < j :: Strips(chars, s[k])
    ensures r > lo ==> !Strips(chars, s[r - 1])
    decreases j
  {
    if j > lo && Strips(chars, s[j - 1]) then TrimEnd(s, lo, j - 1, chars) else j
  }

  /** `str.strip(chars)`: drops the leading characters `chars` names, then
      the trailing ones. */
  function StripBy(s: string, chars: StripChars): string {
    var a := SkipChars(s, 0, chars);
    s[a..TrimEnd(s, a, |s|, chars)]
  }

  /** `str.strip()` with no argument. */
  function Strip(s: string): string {
    StripBy(s, Whitespace)
  }

  /** `str.strip(chars)` keeps the one slice of `s` that neither starts nor
      ends with a character `chars` names, and everything outside that
      slice is such a character. */
  lemma StripByIsSlice(s: string, chars: StripChars)
    ensures var a, r := SkipChars(s, 0, chars), StripBy(s, chars);
      && a + |r| <= |s| && r == s[a..a + |r|]
      && (forall k | 0 <= k < a :: Strips(chars, s[k]))
      && (forall k | a + |r| <= k < |s| :: Strips(chars, s[k]))
      && (r != [] ==> !Strips(chars, r[0]) && !Strips(chars, r[|r| - 1]))
  {
    var a := SkipChars(s, 0, chars);
    var e := TrimEnd(s, a, |s|, chars);
    var r := s[a..e];
    if r != [] {
      assert r[0] == s[a] && r[|r| - 1] == s[e - 1];
    }
  }

  /** A string that neither starts nor ends with whitespace is its own
      `strip()`. */
  lemma StripUnpadded(s: string)
    requires s != [] ==> !IsSpace(s[0]) && !IsSpace(s[|s| - 1])
    ensures Strip(s) == s
  {
    assert SkipChars(s, 0, Whitespace) == 0;
    assert TrimEnd(s, 0, |s|, Whitespace) == |s|;
    assert s[0..|s|] == s;
  }

  /** `str.strip()` keeps the slice that starts where the leading
      whitespace ends, only whitespace follows it, and it ends in a
      non-whitespace character. */
  lemma StripIsSlice(s: string)
    ensures SkipSpace(s, 0) + |Strip(s)| <= |s|
    ensures Strip(s) == s[SkipSpace(s, 0)..SkipSpace(s, 0) + |Strip(s)|]
    ensures forall k | SkipSpace(s, 0) + |Strip(s)| <= k < |s| :: IsSpace(s[k])
    ensures Strip(s) != [] ==> !IsSpace(Strip(s)[|Strip(s)| - 1])
  {
    StripByIsSlice(s, Whitespace);
    var a := SkipChars(s, 0, Whitespace);
    var r := Strip(s);
    assert SkipSpace(s, 0) == a;
    forall k | a + |r| <= k < |s| ensures IsSpace(s[k]) {
      assert Strips(Whitespace, s[k]);
    }
    if r != [] {
      assert Strips(Whitespace, r[|r| - 1]) == IsSpace(r[|r| - 1]);
    }
  }

  /** A piece of `str.split()`'s result: non-empty, without whitespace. */
  predicate IsToken(t: string) {
    t != [] && forall k | 0 <= k < |t| :: !IsSpace(t[k])
  }

  /** `str.split()` with no argument: the maximal runs of non-whitespace. */
  function Split(s: string): seq<string> {
    SplitFrom(s, 0)
  }

  /** The pieces `str.split()` finds from index `i` on. */
  function SplitFrom(s: string, i: nat): seq<string>
    requires i <= |s|
    decreases |s| - i
  {
    var a := SkipSpace(s, i);
    if a == |s| then []
    else
      var b := TokenEnd(s, a);
      [s[a..b]] + SplitFrom(s, b)
  }

  /** `" ".join(ws)`. */
  function Join(ws: seq<string>): string
    decreases |ws|
  {
    if |ws| == 0 then ""
    else if |ws| == 1 then ws[0]
    else ws[0] + " " + Join(ws[1..])
  }

  /** `re.sub(r"\s+", " ", s)`: every maximal whitespace run becomes one space. */
  function CollapseSpaces(s: string): string
    decreases |s|
  {
    if s == [] then []
    else if IsSpace(s[0]) then " " + CollapseSpaces(s[SkipSpace(s, 0)..])
    else [s[0]] + CollapseSpaces(s[1..])
  }

  /** `str.splitlines()`: a line ends at any line boundary, and `"\r\n"`
      counts as one boundary; no empty line is produced after a final
      boundary. */
  function SplitLines(s: string): seq<string>
    decreases |s|
  {
    if s == [] then []
    else
      var i := LineEnd(s, 0);
      if i == |s| then [s]
      else
        var next := if s[i] == '\r' && i + 1 < |s| && s[i + 1] == '\n' then i + 2 else i + 1;
        [s[..i]] + SplitLines(s[next..])
  }

  /** `lit` occurs in `s` at position `i`. */
  predicate MatchAt(s: string, i: nat, lit: string) {
    i + |lit| <= |s| && s[i..i + |lit|] == lit
  }

  /** `lit` occurs in `s` at position `i`, ignoring the case of ASCII letters. */
  predicate MatchAtCI(s: string, i: nat, lit: string) {
    i + |lit| <= |s| && Lower(s[i..i + |lit|]) == Lower(lit)
  }

  /** `lit in s`. */
  predicate Contains(s: string, lit: string) {
    exists i | 0 <= i <= |s| :: MatchAt(s, i, lit)
  }

  /** A case-insensitive regex search for the literal `lit`. */
  predicate ContainsCI(s: string, lit: string) {
    exists i | 0 <= i <= |s| :: MatchAtCI(s, i, lit)
  }

  /** `s.startswith(p)`. */
  predicate StartsWith(s: string, p: string) {
    MatchAt(s, 0, p)
  }

  predicate AllDigits(s: string) {
    forall k | 0 <= k < |s| :: IsDigit(s[k])
  }

  function DigitChar(d: nat): char
    requires d < 10
  {
    ('0' as int + d) as char
  }

  /** `int(ds)` for a string of ASCII digits (leading zeros allowed). */
  function DigitsValue(ds: string): nat
    requires AllDigits(ds)
    decreases |ds|
  {
    if ds == [] then 0
    else DigitsValue(ds[..|ds| - 1]) * 10 + (ds[|ds| - 1] as int - '0' as int)
  }

  /** `str(n)` for a natural number. */
  function NatToString(n: nat): (r: string)
    ensures r != [] && AllDigits(r)
  {
    if n < 10 then [DigitChar(n)] else NatToString(n / 10) + [DigitChar(n % 10)]
  }

  /** Reading back the decimal text of `n` gives `n`. */
  lemma {:induction false} NatToStringRoundTrip(n: nat)
    ensures DigitsValue(NatToString(n)) == n
  {
    var r := NatToString(n);
    if n >= 10 {
      NatToStringRoundTrip(n / 10);
      assert r[..|r| - 1] == NatToString(n / 10);
    }
  }

  lemma NatToStringInjective(m: nat, n: nat)
    requires NatToString(m) == NatToString(n)
    ensures m == n
  {
    NatToStringRoundTrip(m);
    NatToStringRoundTrip(n);
  }
  // ---------------------------------------------------------------------
  // Joining tokens and splitting them apart again
  // ---------------------------------------------------------------------

  /** Two tokens glued together make a token. */
  lemma TokenJoin(a: string, b: string)
    requires IsToken(a) && IsToken(b)
    ensures IsToken(a + b)
  {
    forall k | 0 <= k < |a + b|
      ensures !IsSpace((a + b)[k])
    {
      if k < |a| {
        assert (a + b)[k] == a[k];
      } else {
        assert (a + b)[k] == b[k - |a|];
      }
    }
  }

  predicate AllTokens(ws: seq<string>) {
    forall k | 0 <= k < |ws| :: IsToken(ws[k])
  }

  /** Every piece of `str.split()`'s result is a token. */
  lemma {:induction false} SplitFromIsTokens(s: string, i: nat)
    requires i <= |s|
    ensures AllTokens(SplitFrom(s, i))
    decreases |s| - i
  {
    var a := SkipSpace(s, i);
    if a < |s| {
      var b := TokenEnd(s, a);
      var w := s[a..b];
      var rest := SplitFrom(s, b);
      SplitFromIsTokens(s, b);
      assert IsToken(w) by {
        assert forall k | 0 <= k < |w| :: w[k] == s[a + k];
      }
      var r := SplitFrom(s, i);
      assert r == [w] + rest;
      forall k | 0 <= k < |r| ensures IsToken(r[k]) {
        if k > 0 {
          assert r[k] == rest[k - 1];
        }
      }
    }
  }

  lemma SplitIsTokens(s: string)
    ensures AllTokens(Split(s))
  {
    SplitFromIsTokens(s, 0);
  }

  lemma AllTokensTail(ws: seq<string>)
    requires AllTokens(ws) && ws != []
    ensures IsToken(ws[0]) && AllTokens(ws[1..])
  {
    forall k | 0 <= k < |ws| - 1 ensures IsToken(ws[1..][k]) {
      assert ws[1..][k] == ws[k + 1];
    }
  }

  /** The only whitespace in `t` is single `' '` characters, each with a
      non-whitespace character on both sides. */
  predicate SingleSpaced(t: string) {
    forall k | 0 <= k < |t| && IsSpace(t[k]) :: t[k] == ' ' && 0 < k < |t| - 1 && !IsSpace(t[k + 1])
  }

  /** Joining tokens gives a single-spaced string that starts with the first
      token's first character and ends with the last token's last one. */
  lemma {:induction false} JoinTokens(ws: seq<string>)
    requires AllTokens(ws)
    ensures ws == [] <==> Join(ws) == []
    ensures ws != [] ==> !IsSpace(Join(ws)[0]) && !IsSpace(Join(ws)[|Join(ws)| - 1])
    ensures SingleSpaced(Join(ws))
    decreases |ws|
  {
    if |ws| == 1 {
      assert IsToken(ws[0]);
    } else if |ws| > 1 {
      var w := ws[0];
      var r := Join(ws[1..]);
      AllTokensTail(ws);
      JoinTokens(ws[1..]);
      assert IsToken(w);
      var j := w + " " + r;
      assert Join(ws) == j;
      assert forall k | 0 <= k < |w| :: j[k] == w[k];
      forall k | 0 <= k < |j| && IsSpace(j[k])
        ensures j[k] == ' ' && 0 < k < |j| - 1 && !IsSpace(j[k + 1])
      {
        if k == |w| {
          assert j[k + 1] == r[0];
        } else if k > |w| {
          assert j[k] == r[k - |w| - 1];
          if k + 1 < |j| {
            assert j[k + 1] == r[k - |w|];
          }
        }
      }
      assert j[0] == w[0];
      assert j[|j| - 1] == r[|r| - 1];
    }
  }

  /** `s` continues, from index `n` on, exactly as `r`. */
  predicate Shifted(s: string, r: string, n: nat) {
    |s| == n + |r| && forall k | 0 <= k < |r| :: s[n + k] == r[k]
  }

  lemma ShiftedAppend(p: string, r: string)
    ensures Shifted(p + r, r, |p|)
  {
  }

  /** Whitespace skipping in `s` past `n` is skipping in `r`. */
  lemma {:induction false} SkipSpaceShifted(s: string, r: string, n: nat, i: nat)
    requires Shifted(s, r, n) && i <= |r|
    ensures SkipSpace(s, n + i) == n + SkipSpace(r, i)
    decreases |r| - i
  {
    if i < |r| {
      assert s[n + i] == r[i];
      if IsSpace(r[i]) {
        SkipSpaceShifted(s, r, n, i + 1);
      }
    }
  }

  lemma {:induction false} TokenEndShifted(s: string, r: string, n: nat, i: nat)
    requires Shifted(s, r, n) && i <= |r|
    ensures TokenEnd(s, n + i) == n + TokenEnd(r, i)
    decreases |r| - i
  {
    if i < |r| {
      assert s[n + i] == r[i];
      if !IsSpace(r[i]) {
        TokenEndShifted(s, r, n, i + 1);
      }
    }
  }

  lemma SliceShifted(s: string, r: string, n: nat, a: nat, b: nat)
    requires Shifted(s, r, n) && a <= b <= |r|
    ensures s[n + a..n + b] == r[a..b]
  {
    assert forall k | 0 <= k < b - a :: s[n + a..n + b][k] == r[a..b][k];
  }

  /** One step of the split: the token `s[a..b]` found first, then the
      rest. */
  lemma SplitFromStep(s: string, i: nat, a: nat, b: nat)
    requires i <= |s| && a == SkipSpace(s, i) < |s| && b == TokenEnd(s, a)
    ensures SplitFrom(s, i) == [s[a..b]] + SplitFrom(s, b)
  {
  }

  /** Splitting `s` past `n` is splitting `r`. */
  lemma {:induction false} SplitFromShifted(s: string, r: string, n: nat, i: nat)
    requires Shifted(s, r, n) && i <= |r|
    ensures SplitFrom(s, n + i) == SplitFrom(r, i)
    decreases |r| - i
  {
    var a := SkipSpace(r, i);
    SkipSpaceShifted(s, r, n, i);
    if a < |r| {
      var b := TokenEnd(r, a);
      TokenEndShifted(s, r, n, a);
      SliceShifted(s, r, n, a, b);
      SplitFromShifted(s, r, n, b);
      SplitFromStep(s, n + i, n + a, n + b);
      SplitFromStep(r, i, a, b);
    } else {
      assert SplitFrom(s, n + i) == [];
      assert SplitFrom(r, i) == [];
    }
  }

  /** A whitespace character where the split resumes is skipped. */
  lemma SplitFromSkipsSpace(s: string, i: nat)
    requires i < |s| && IsSpace(s[i])
    ensures SplitFrom(s, i) == SplitFrom(s, i + 1)
  {
    assert SkipSpace(s, i) == SkipSpace(s, i + 1);
  }

  /** A token followed by whitespace (or nothing) is split off whole. */
  lemma SplitTokenPrefix(w: string, t: string)
    requires IsToken(w) && (t == [] || IsSpace(t[0]))
    ensures Split(w + t) == [w] + SplitFrom(w + t, |w|)
  {
    var s := w + t;
    assert s[0] == w[0];
    assert SkipSpace(s, 0) == 0;
    var b := TokenEnd(s, 0);
    assert forall k | 0 <= k < |w| :: s[k] == w[k];
    assert b >= |w|;
    if t != [] {
      assert s[|w|] == t[0];
    }
    assert b == |w|;
    assert s[0..b] == w;
  }

  /** Splitting joined tokens gives the tokens back. */
  lemma {:induction false} SplitJoin(ws: seq<string>)
    requires AllTokens(ws)
    ensures Split(Join(ws)) == ws
    decreases |ws|
  {
    if |ws| == 1 {
      SplitTokenPrefix(ws[0], []);
      assert ws[0] + [] == ws[0];
    } else if |ws| > 1 {
      var w, r := ws[0], Join(ws[1..]);
      var j := w + (" " + r);
      assert Join(ws) == j;
      AllTokensTail(ws);
      SplitTokenPrefix(w, " " + r);
      assert j[|w|] == ' ';
      SplitFromSkipsSpace(j, |w|);
      assert j == (w + " ") + r;
      ShiftedAppend(w + " ", r);
      SplitFromShifted(j, r, |w| + 1, 0);
      SplitJoin(ws[1..]);
      assert [w] + ws[1..] == ws;
    }
  }

  lemma {:induction false} CollapseNoSpacePrefix(w: string, t: string)
    requires forall k | 0 <= k < |w| :: !IsSpace(w[k])
    ensures CollapseSpaces(w + t) == w + CollapseSpaces(t)
    decreases |w|
  {
    if w != [] {
      assert (w + t)[0] == w[0];
      assert (w + t)[1..] == w[1..] + t;
      CollapseNoSpacePrefix(w[1..], t);
    } else {
      assert w + t == t;
    }
  }

  /** Joined tokens are already collapsed. */
  lemma {:induction false} CollapseJoin(ws: seq<string>)
    requires AllTokens(ws)
    ensures CollapseSpaces(Join(ws)) == Join(ws)
    decreases |ws|
  {
    if |ws| == 1 {
      assert IsToken(ws[0]);
      CollapseNoSpacePrefix(ws[0], []);
      assert ws[0] + [] == ws[0];
    } else if |ws| > 1 {
      var r := Join(ws[1..]);
      AllTokensTail(ws);
      JoinTokens(ws[1..]);
      CollapseJoin(ws[1..]);
      assert IsToken(ws[0]);
      var t := " " + r;
      CollapseNoSpacePrefix(ws[0], t);
      assert ws[0] + " " + r == ws[0] + t;
      assert t[1] == r[0];
      assert SkipSpace(t, 1) == 1;
      assert SkipSpace(t, 0) == 1;
      assert t[1..] == r;
    }
  }

  /** Joined tokens have no whitespace at either end. */
  lemma StripJoin(ws: seq<string>)
    requires AllTokens(ws)
    ensures Strip(Join(ws)) == Join(ws)
  {
    JoinTokens(ws);
  }
  /** A slice of a single-spaced string that neither starts nor ends with
      `' '` is single-spaced. */
  lemma SingleSpacedSlice(j: string, n: nat, m: nat)
    requires SingleSpaced(j) && n <= m <= |j|
    requires n < m ==> j[n] != ' ' && j[m - 1] != ' '
    ensures SingleSpaced(j[n..m])
  {
    var r := j[n..m];
    forall k | 0 <= k < |r| && IsSpace(r[k])
      ensures r[k] == ' ' && 0 < k < |r| - 1 && !IsSpace(r[k + 1])
    {
      assert r[k] == j[n + k];
      assert r[0] == j[n] && r[|r| - 1] == j[m - 1];
      if k + 1 < |r| {
        assert r[k + 1] == j[n + k + 1];
      }
    }
  }
}
