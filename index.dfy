/** The index of the parsed records by `"{court}/{serial}"` (`build_index`),
    the report line of a record (`format_line`) and the answer to one
    requested reference. */
module RecordIndex {
  import opened Wrappers
  import opened Text
  import opened Patterns
  import opened Parser

  /** `f"{court}"`: "None" when there is no court, else its decimal digits. */
  function CourtText(c: Option<nat>): (r: string)
    ensures r != [] && '/' !in r
  {
    if c.None? then "None" else NatToString(c.value)
  }

  /** `f"{name}"`: "None" when the party was never named. */
  function NameText(t: Option<string>): string {
    if t.None? then "None" else t.value
  }

  /** The index key of a record. */
  function Key(e: Entry): string {
    CourtText(e.court) + "/" + e.serial
  }

  /** The index after the records `items`: each key maps to the first record
      that has it. */
  function IndexOf(items: seq<Entry>): map<string, Entry>
    decreases |items|
  {
    if items == [] then map[]
    else
      var m := IndexOf(items[..|items| - 1]);
      var e := items[|items| - 1];
      if Key(e) in m then m else m[Key(e) := e]
  }

  /** `build_index`, with its loop and its first-wins test. */
  method BuildIndex(items: seq<Entry>) returns (idx: map<string, Entry>)
    ensures idx == IndexOf(items)
  {
    idx := map[];
    for i := 0 to |items|
      invariant idx == IndexOf(items[..i])
    {
      var key := Key(items[i]);
      if key !in idx {
        idx := idx[key := items[i]];
      }
      assert items[..i + 1][..i] == items[..i];
    }
    assert items[..|items|] == items;
  }

  /** Record `i` is the first of `items` with key `k`. */
  predicate FirstWithKey(items: seq<Entry>, k: string, i: nat) {
    i < |items| && Key(items[i]) == k && forall j | 0 <= j < i :: Key(items[j]) != k
  }

  /** The key of every record is in the index. */
  lemma {:induction false} RecordKeyIsIndexed(items: seq<Entry>, i: nat)
    requires i < |items|
    ensures Key(items[i]) in IndexOf(items)
    decreases |items|
  {
    var n := |items| - 1;
    if i < n {
      RecordKeyIsIndexed(items[..n], i);
      assert items[..n][i] == items[i];
    }
  }

  /** Each key of the index maps to the first record that has it. */
  lemma {:induction false} IndexMapsToFirst(items: seq<Entry>, k: string)
    requires k in IndexOf(items)
    ensures exists i | 0 <= i < |items| :: FirstWithKey(items, k, i) && IndexOf(items)[k] == items[i]
    decreases |items|
  {
    var n := |items| - 1;
    var q := items[..n];
    if k in IndexOf(q) {
      IndexMapsToFirst(q, k);
      var i :| 0 <= i < |q| && FirstWithKey(q, k, i) && IndexOf(q)[k] == q[i];
      assert forall j | 0 <= j <= i :: q[j] == items[j];
      assert FirstWithKey(items, k, i);
    } else {
      forall j | 0 <= j < n
        ensures Key(items[j]) != k
      {
        RecordKeyIsIndexed(q, j);
        assert q[j] == items[j];
      }
      assert FirstWithKey(items, k, n);
    }
  }

  /** The index holds exactly the keys of the records. */
  lemma IndexHasRecordKeys(items: seq<Entry>, k: string)
    ensures k in IndexOf(items) <==> exists i | 0 <= i < |items| :: Key(items[i]) == k
  {
    if k in IndexOf(items) {
      IndexMapsToFirst(items, k);
    } else {
      forall i | 0 <= i < |items|
        ensures Key(items[i]) != k
      {
        RecordKeyIsIndexed(items, i);
      }
    }
  }

  /** Every key of the index is the key of the record it maps to. */
  lemma {:induction false} IndexKeysMatch(items: seq<Entry>)
    ensures forall k | k in IndexOf(items) :: Key(IndexOf(items)[k]) == k
    decreases |items|
  {
    if items != [] {
      IndexKeysMatch(items[..|items| - 1]);
    }
  }

  /** The key gives back the court and the serial: the court's text never
      holds "/", so the first "/" of the key ends it. */
  lemma KeyDeterminesRecordId(e: Entry, f: Entry)
    requires Key(e) == Key(f)
    ensures e.court == f.court && e.serial == f.serial
  {
    var a, b := CourtText(e.court), CourtText(f.court);
    SlashEndsCourt(e);
    SlashEndsCourt(f);
    if |a| < |b| {
      assert false;
    } else if |b| < |a| {
      assert false;
    }
    assert a == Key(e)[..|a|] && b == Key(f)[..|b|];
    assert e.serial == Key(e)[|a| + 1..] && f.serial == Key(f)[|b| + 1..];
    CourtTextInjective(e.court, f.court);
  }

  lemma SlashEndsCourt(e: Entry)
    ensures var a := CourtText(e.court);
            Key(e)[|a|] == '/' && forall j | 0 <= j < |a| :: Key(e)[j] == a[j] && Key(e)[j] != '/'
  {
  }

  lemma CourtTextInjective(c: Option<nat>, d: Option<nat>)
    requires CourtText(c) == CourtText(d)
    ensures c == d
  {
    CourtTextStart(c);
    CourtTextStart(d);
    if c.Some? && d.Some? {
      NatToStringInjective(c.value, d.value);
    }
  }

  /** A court's text starts with a digit, and "None" does not. */
  lemma CourtTextStart(c: Option<nat>)
    ensures IsDigit(CourtText(c)[0]) <==> c.Some?
  {
    if c.None? {
      assert CourtText(c)[0] == 'N';
    }
  }

  /** `format_line(it)`. */
  function FormatLine(e: Entry): string {
    Key(e) + " - " + NameText(e.petitioner) + " Vs " + NameText(e.respondent)
  }

  /** The reference at the head of a report line: the text before its first
      " - ", or the whole line when there is none. */
  function RefOf(line: string): (r: string)
    ensures |r| <= |line| && line[..|r|] == r
  {
    line[..RefEnd(line, 0)]
  }

  /** The first position at or after `i` where " - " starts, else the end. */
  function RefEnd(line: string, i: nat): (r: nat)
    requires i <= |line|
    ensures i <= r <= |line|
    decreases |line| - i
  {
    if i == |line| || MatchAt(line, i, " - ") then i else RefEnd(line, i + 1)
  }

  /** The search for " - " stops at `j` when nothing before it starts one. */
  lemma {:induction false} RefEndAt(line: string, i: nat, j: nat)
    requires i <= j <= |line| && MatchAt(line, j, " - ")
    requires forall k | i <= k < j :: !MatchAt(line, k, " - ")
    ensures RefEnd(line, i) == j
    decreases j - i
  {
    if i < j {
      RefEndAt(line, i + 1, j);
    }
  }

  /** A serial as `SERIAL_RE` captures it: digits and periods only. */
  predicate SerialText(t: string) {
    forall k | 0 <= k < |t| :: IsDigit(t[k]) || t[k] == '.'
  }

  /** Every serial `SERIAL_RE` captures is made of digits and periods. */
  lemma CapturedSerialIsSerialText(line: string)
    requires SerialMatch(line).Some?
    ensures SerialText(SerialMatch(line).value)
  {
    var p := SkipSpace(line, 0);
    var q := DigitRunEnd(line, p);
    if q < |line| && line[q] == '.' && DigitRunEnd(line, q + 1) > q + 1
       && WordBoundary(line, DigitRunEnd(line, q + 1)) {
      var t := line[p..DigitRunEnd(line, q + 1)];
      assert forall k | 0 <= k < |t| :: t[k] == line[p + k];
    }
  }

  /** The key of a record with such a serial holds no hyphen. */
  lemma KeyHasNoHyphen(e: Entry)
    requires SerialText(e.serial)
    ensures forall k | 0 <= k < |Key(e)| :: Key(e)[k] != '-'
  {
    var a := CourtText(e.court);
    if e.court.Some? {
      assert AllDigits(a);
    }
    forall k | 0 <= k < |Key(e)|
      ensures Key(e)[k] != '-'
    {
      if k < |a| {
        assert Key(e)[k] == a[k];
      } else if k > |a| {
        assert Key(e)[k] == e.serial[k - |a| - 1];
      }
    }
  }

  /** The reference at the head of a record's report line is the record's
      key, so (by `KeyDeterminesRecordId`) the line names the court and
      serial it was made from. */
  lemma FormatLineNamesKey(e: Entry)
    requires SerialText(e.serial)
    ensures RefOf(FormatLine(e)) == Key(e)
  {
    var line, k := FormatLine(e), Key(e);
    assert line == k + (" - " + NameText(e.petitioner) + " Vs " + NameText(e.respondent));
    KeyHasNoHyphen(e);
    forall j | 0 <= j < |k|
      ensures !MatchAt(line, j, " - ")
    {
      if j + 3 <= |line| {
        assert line[j..j + 3][1] == line[j + 1];
        if j + 1 < |k| {
          assert line[j + 1] == k[j + 1];
        } else {
          assert line[j + 1] == ' ';
        }
      }
    }
    assert line[|k|..|k| + 3] == " - ";
    RefEndAt(line, 0, |k|);
  }

  /** Two report lines that start with the same reference come from records
      with the same court and serial. */
  lemma FormatLineIdentifiesRecord(e: Entry, f: Entry)
    requires SerialText(e.serial) && SerialText(f.serial)
    requires RefOf(FormatLine(e)) == RefOf(FormatLine(f))
    ensures e.court == f.court && e.serial == f.serial
  {
    FormatLineNamesKey(e);
    FormatLineNamesKey(f);
    KeyDeterminesRecordId(e, f);
  }

  /** The answer to a requested reference `r`: the record's line if the
      index has `r`, else `"{r} - NOT FOUND"`. */
  function LookupLine(idx: map<string, Entry>, r: string): string {
    if r in idx then FormatLine(idx[r]) else r + " - NOT FOUND"
  }

  /** The answer to a reference names it first, whether found or not. */
  lemma LookupNamesRef(idx: map<string, Entry>, r: string)
    requires forall k | k in idx :: Key(idx[k]) == k
    ensures |r| <= |LookupLine(idx, r)| && LookupLine(idx, r)[..|r|] == r
  {
    if r in idx {
      var e := idx[r];
      assert FormatLine(e) == r + (" - " + NameText(e.petitioner) + " Vs " + NameText(e.respondent));
    }
  }

  /** A reference no record has is answered `"{r} - NOT FOUND"`; any other
      is answered with the line of the first record with that key, that is
      (by `KeyDeterminesRecordId`) with that court and serial. */
  lemma LookupAnswers(items: seq<Entry>, r: string)
    ensures (forall i | 0 <= i < |items| :: Key(items[i]) != r) ==>
              LookupLine(IndexOf(items), r) == r + " - NOT FOUND"
    ensures forall i: nat | FirstWithKey(items, r, i) :: LookupLine(IndexOf(items), r) == FormatLine(items[i])
    ensures |r| <= |LookupLine(IndexOf(items), r)| && LookupLine(IndexOf(items), r)[..|r|] == r
  {
    var idx := IndexOf(items);
    IndexHasRecordKeys(items, r);
    IndexKeysMatch(items);
    LookupNamesRef(idx, r);
    if r in idx {
      IndexMapsToFirst(items, r);
      var i :| 0 <= i < |items| && FirstWithKey(items, r, i) && idx[r] == items[i];
      forall j: nat | FirstWithKey(items, r, j)
        ensures j == i
      {
        FirstIsUnique(items, r, i, j);
      }
    }
  }

  lemma FirstIsUnique(items: seq<Entry>, k: string, i: nat, j: nat)
    requires FirstWithKey(items, k, i) && FirstWithKey(items, k, j)
    ensures i == j
  {
  }

  /** The loop over the requested references: one answer each, in order. */
  method AnswerRefs(idx: map<string, Entry>, refs: seq<string>) returns (out: seq<string>)
    ensures |out| == |refs|
    ensures forall i | 0 <= i < |refs| :: out[i] == LookupLine(idx, refs[i])
  {
    out := [];
    for i := 0 to |refs|
      invariant |out| == i
      invariant forall j | 0 <= j < i :: out[j] == LookupLine(idx, refs[j])
    {
      var it := if refs[i] in idx then Some(idx[refs[i]]) else None;
      out := out + [if it.Some? then FormatLine(it.value) else refs[i] + " - NOT FOUND"];
    }
  }

  /** A complete record with court 3, serial "10", parties "Abc Ltd." and
      "Xyz" is reported as "3/10 - Abc Ltd. Vs Xyz". */
  lemma FormatLineExample()
    ensures FormatLine(Entry(Some(3), "10", Some("Abc Ltd."), Some("Xyz"), 1)) == "3/10 - Abc Ltd. Vs Xyz"
  {
    KeyExample();
  }

  lemma KeyExample()
    ensures Key(Entry(Some(3), "10", Some("Abc Ltd."), Some("Xyz"), 1)) == "3/10"
  {
    assert CourtText(Some(3)) == "3";
  }
}
