/** Python's `None`-or-value, used wherever the source stores `None`. */
module Wrappers {

  datatype Option<+T> = None | Some(value: T)
}

/** Order-preserving filtering of sequences (Python's list comprehension
    `[x for x in s if keep(x)]`). */
module Seqs {
  import opened Wrappers

  function Filter<T>(s: seq<T>, keep: T -> bool): (r: seq<T>)
    ensures |r| <= |s|
    ensures forall i | 0 <= i < |r| :: keep(r[i])
    decreases |s|
  {
    if s == [] then []
    else (if keep(s[0]) then [s[0]] else []) + Filter(s[1..], keep)
  }

  /** Filtering keeps exactly the elements that satisfy `keep`. */
  lemma {:induction false} FilterMembers<T>(s: seq<T>, keep: T -> bool, x: T)
    ensures x in Filter(s, keep) <==> x in s && keep(x)
    decreases |s|
  {
    if s != [] {
      FilterMembers(s[1..], keep, x);
      assert s == [s[0]] + s[1..];
    }
  }

  /** Filtering distributes over concatenation: it keeps the order of the
      elements it keeps, and each as often as it occurs. */
  lemma {:induction false} FilterAppend<T>(a: seq<T>, b: seq<T>, keep: T -> bool)
    ensures Filter(a + b, keep) == Filter(a, keep) + Filter(b, keep)
    decreases |a|
  {
    if a != [] {
      assert (a + b)[0] == a[0];
      assert (a + b)[1..] == a[1..] + b;
      FilterAppend(a[1..], b, keep);
    } else {
      assert a + b == b;
    }
  }

  /** Filtering around one element: what is kept of `a + [x] + c` is what
      is kept of `a`, then `x` if it is kept, then what is kept of `c`. */
  lemma FilterAround<T>(a: seq<T>, x: T, c: seq<T>, keep: T -> bool)
    ensures Filter(a + [x] + c, keep) == Filter(a, keep) + (if keep(x) then [x] else []) + Filter(c, keep)
  {
    FilterAppend(a + [x], c, keep);
    FilterAppend(a, [x], keep);
    FilterOne(x, keep);
  }

  /** A sequence is its elements before `i`, element `i`, and the rest. */
  lemma SplitAround<T>(s: seq<T>, i: nat)
    requires i < |s|
    ensures s == s[..i] + [s[i]] + s[i + 1..]
  {
    assert s[..i + 1] == s[..i] + [s[i]];
    assert s == s[..i + 1] + s[i + 1..];
  }

  lemma FilterOne<T>(x: T, keep: T -> bool)
    ensures Filter([x], keep) == if keep(x) then [x] else []
  {
    assert [x][1..] == [];
  }

  /** The first present value of `xs`, or None when every entry is None. */
  function FirstSome<T>(xs: seq<Option<T>>): Option<T>
    decreases |xs|
  {
    if xs == [] then None
    else if xs[0].Some? then xs[0]
    else FirstSome(xs[1..])
  }

  /** FirstSome returns the leftmost present entry, and None exactly when
      there is none. */
  lemma {:induction false} FirstSomeIsLeftmost<T>(xs: seq<Option<T>>)
    ensures FirstSome(xs).Some? ==>
              exists k | 0 <= k < |xs| :: xs[k] == FirstSome(xs) && forall j | 0 <= j < k :: xs[j].None?
    ensures FirstSome(xs).None? <==> forall k | 0 <= k < |xs| :: xs[k].None?
    decreases |xs|
  {
    if xs != [] {
      var t := xs[1..];
      FirstSomeIsLeftmost(t);
      assert forall j | 0 <= j < |t| :: t[j] == xs[j + 1];
      if xs[0].Some? {
        assert xs[0] == FirstSome(xs);
      } else if FirstSome(t).Some? {
        var k :| 0 <= k < |t| && t[k] == FirstSome(t) && forall j | 0 <= j < k :: t[j].None?;
        assert xs[k + 1] == FirstSome(xs);
        assert forall j | 0 <= j < k + 1 :: xs[j].None?;
      }
    }
  }
}
