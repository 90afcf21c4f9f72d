/** The reading order of a page's blocks: `blocks.sort(key=lambda b:
    (round(b[1],1), round(b[0],1)))`, a stable sort by the top edge and then
    the left edge, each rounded to one decimal. */
module ReadingOrder {
  import opened Geometry

  /** `round(x, 1)` in tenths: `x * 10` rounded to the nearest integer, a
      tie going to the even one. The coordinate is taken as an exact real
      rather than a binary float. */
  function RoundTenths(x: real): int {
    var t := x * 10.0;
    var f := t.Floor;
    var d := t - f as real;
    if d < 0.5 then f
    else if d > 0.5 then f + 1
    else if f % 2 == 0 then f
    else f + 1
  }

  /** RoundTenths rounds to a nearest tenth, and a tie to the even one. */
  lemma RoundTenthsIsNearest(x: real)
    ensures var r := RoundTenths(x) as real;
      r - 0.5 <= x * 10.0 <= r + 0.5
    ensures var r := RoundTenths(x) as real;
      (x * 10.0 == r - 0.5 || x * 10.0 == r + 0.5) ==> RoundTenths(x) % 2 == 0
  {
  }

  /** Rounding keeps the order of coordinates (ties aside). */
  lemma RoundTenthsMonotone(x: real, y: real)
    requires x <= y
    ensures RoundTenths(x) <= RoundTenths(y)
  {
    var tx, ty := x * 10.0, y * 10.0;
    assert tx.Floor <= ty.Floor;
  }

  /** The sort key of a block. */
  function Key(b: Block): (int, int) {
    (RoundTenths(b.y0), RoundTenths(b.x0))
  }

  /** Python's tuple comparison `a <= b`. */
  predicate KeyLe(a: (int, int), b: (int, int)) {
    a.0 < b.0 || (a.0 == b.0 && a.1 <= b.1)
  }

  predicate Sorted(s: seq<Block>) {
    forall i, j | 0 <= i < j < |s| :: KeyLe(Key(s[i]), Key(s[j]))
  }

  /** Inserts `b` in front of the first block whose key is not below its
      own, so that it stays ahead of blocks with an equal key. */
  function Insert(b: Block, s: seq<Block>): (r: seq<Block>)
    ensures |r| == |s| + 1
    decreases |s|
  {
    if s == [] || KeyLe(Key(b), Key(s[0])) then [b] + s
    else [s[0]] + Insert(b, s[1..])
  }

  /** `sorted(blocks, key=Key)`: insertion sort, stable. */
  function SortBlocks(bs: seq<Block>): (r: seq<Block>)
    ensures |r| == |bs|
    decreases |bs|
  {
    if bs == [] then [] else Insert(bs[0], SortBlocks(bs[1..]))
  }

  /** The blocks with key `k`, in order. */
  function WithKey(s: seq<Block>, k: (int, int)): seq<Block>
    decreases |s|
  {
    if s == [] then []
    else (if Key(s[0]) == k then [s[0]] else []) + WithKey(s[1..], k)
  }

  lemma {:induction false} InsertPermutes(b: Block, s: seq<Block>)
    ensures multiset(Insert(b, s)) == multiset(s) + multiset{b}
    decreases |s|
  {
    if s != [] && !KeyLe(Key(b), Key(s[0])) {
      InsertPermutes(b, s[1..]);
      assert s == [s[0]] + s[1..];
    }
  }

  lemma {:induction false} InsertMembers(b: Block, s: seq<Block>, x: Block)
    ensures x in Insert(b, s) <==> x == b || x in s
    decreases |s|
  {
    if s != [] && !KeyLe(Key(b), Key(s[0])) {
      InsertMembers(b, s[1..], x);
      assert s == [s[0]] + s[1..];
    }
  }

  lemma SortedTail(s: seq<Block>)
    requires Sorted(s) && s != []
    ensures Sorted(s[1..])
    ensures forall y | y in s[1..] :: KeyLe(Key(s[0]), Key(y))
  {
    var t := s[1..];
    assert forall i | 0 <= i < |t| :: t[i] == s[i + 1];
  }

  lemma ConsSorted(x: Block, t: seq<Block>)
    requires Sorted(t) && forall y | y in t :: KeyLe(Key(x), Key(y))
    ensures Sorted([x] + t)
  {
    var r := [x] + t;
    forall i, j | 0 <= i < j < |r|
      ensures KeyLe(Key(r[i]), Key(r[j]))
    {
      assert r[j] == t[j - 1];
      if i > 0 {
        assert r[i] == t[i - 1];
      }
    }
  }

  lemma {:induction false} InsertSorted(b: Block, s: seq<Block>)
    requires Sorted(s)
    ensures Sorted(Insert(b, s))
    decreases |s|
  {
    if s == [] {
      ConsSorted(b, s);
    } else if KeyLe(Key(b), Key(s[0])) {
      SortedTail(s);
      ConsSorted(b, s);
    } else {
      SortedTail(s);
      var t := Insert(b, s[1..]);
      InsertSorted(b, s[1..]);
      forall y | y in t
        ensures KeyLe(Key(s[0]), Key(y))
      {
        InsertMembers(b, s[1..], y);
      }
      ConsSorted(s[0], t);
    }
  }

  lemma {:induction false} InsertStable(b: Block, s: seq<Block>, k: (int, int))
    requires Sorted(s)
    ensures WithKey(Insert(b, s), k) == WithKey([b] + s, k)
    decreases |s|
  {
    if s != [] && !KeyLe(Key(b), Key(s[0])) {
      var t := s[1..];
      assert Sorted(t) by {
        assert forall i | 0 <= i < |t| :: t[i] == s[i + 1];
      }
      InsertStable(b, t, k);
      assert ([b] + t)[0] == b && ([b] + t)[1..] == t;
      assert ([b] + s)[0] == b && ([b] + s)[1..] == s;
      assert (([s[0]] + Insert(b, t)))[1..] == Insert(b, t);
      assert Key(s[0]) != Key(b);
    }
  }

  /** The sorted blocks are in key order. */
  lemma {:induction false} SortBlocksSorted(bs: seq<Block>)
    ensures Sorted(SortBlocks(bs))
    decreases |bs|
  {
    if bs != [] {
      SortBlocksSorted(bs[1..]);
      InsertSorted(bs[0], SortBlocks(bs[1..]));
    }
  }

  /** Sorting neither loses nor duplicates a block. */
  lemma {:induction false} SortBlocksPermutes(bs: seq<Block>)
    ensures multiset(SortBlocks(bs)) == multiset(bs)
    decreases |bs|
  {
    if bs != [] {
      SortBlocksPermutes(bs[1..]);
      InsertPermutes(bs[0], SortBlocks(bs[1..]));
      assert bs == [bs[0]] + bs[1..];
    }
  }

  /** The sort is stable: the blocks of any one key keep their order. */
  lemma {:induction false} SortBlocksStable(bs: seq<Block>, k: (int, int))
    ensures WithKey(SortBlocks(bs), k) == WithKey(bs, k)
    decreases |bs|
  {
    if bs != [] {
      var t := SortBlocks(bs[1..]);
      SortBlocksSorted(bs[1..]);
      SortBlocksStable(bs[1..], k);
      InsertStable(bs[0], t, k);
      assert ([bs[0]] + t)[0] == bs[0] && ([bs[0]] + t)[1..] == t;
    }
  }

  /** Blocks already in key order are left as they are. */
  lemma {:induction false} SortBlocksKeepsSorted(bs: seq<Block>)
    requires Sorted(bs)
    ensures SortBlocks(bs) == bs
    decreases |bs|
  {
    if bs != [] {
      var t := bs[1..];
      assert Sorted(t) by {
        assert forall i | 0 <= i < |t| :: t[i] == bs[i + 1];
      }
      SortBlocksKeepsSorted(t);
      if t != [] {
        assert KeyLe(Key(bs[0]), Key(t[0])) by {
          assert t[0] == bs[1];
        }
      }
      assert [bs[0]] + t == bs;
    }
  }
}
