/** The two in-place sorts the core performs on `Vec<String>`: `sort()`
    (lexical) and `sort_unstable_by(compare_len_alpha)` (length first). Both
    orders are total with `Equal` only for equal strings, so the sorted
    permutation is unique and an unstable sort is as good as a stable one. */
module Sorting {
  import opened Text

  datatype Order = Lexical | LengthFirst

  function Compare(o: Order, a: string, b: string): (r: Ordering)
    ensures r == Equal <==> a == b
  {
    match o
    case Lexical => LexCmp(a, b)
    case LengthFirst => LenAlphaCmp(a, b)
  }

  lemma CompareFlip(o: Order, a: string, b: string)
    ensures Compare(o, b, a) == Compare(o, a, b).Flip()
  {
    match o
    case Lexical => LexFlip(a, b);
    case LengthFirst => LenAlphaFlip(a, b);
  }

  lemma CompareTrans(o: Order, a: string, b: string, c: string)
    requires Compare(o, a, b) != Greater && Compare(o, b, c) != Greater
    ensures Compare(o, a, c) != Greater
  {
    match o
    case Lexical => LexTrans(a, b, c);
    case LengthFirst => LenAlphaTrans(a, b, c);
  }

  ghost predicate Sorted(o: Order, s: seq<string>) {
    forall i, j :: 0 <= i < j < |s| ==> Compare(o, s[i], s[j]) != Greater
  }

  /** Putting in front an element no greater than any element keeps a list sorted. */
  lemma PrependSorted(o: Order, x: string, s: seq<string>)
    requires Sorted(o, s)
    requires forall y :: y in s ==> Compare(o, x, y) != Greater
    ensures Sorted(o, [x] + s)
  {
    var r := [x] + s;
    forall i, j | 0 <= i < j < |r|
      ensures Compare(o, r[i], r[j]) != Greater
    {
      if i == 0 {
        assert r[j] == s[j - 1] && s[j - 1] in s;
      } else {
        assert r[i] == s[i - 1] && r[j] == s[j - 1];
      }
    }
  }

  /** Insertion of `x` into a sorted list. */
  function Insert(o: Order, x: string, s: seq<string>): (r: seq<string>)
    requires Sorted(o, s)
    ensures Sorted(o, r) && multiset(r) == multiset(s) + multiset{x}
  {
    if s == [] then [x]
    else if Compare(o, x, s[0]) != Greater then
      PrependLeast(o, x, s);
      [x] + s
    else
      var rest := Insert(o, x, s[1..]);
      CompareFlip(o, x, s[0]);
      HeadLeast(o, s, x, rest);
      PrependSorted(o, s[0], rest);
      assert s == [s[0]] + s[1..];
      [s[0]] + rest
  }

  /** The head of a sorted list is no greater than anything in a
      permutation of its tail with one element below it added. */
  lemma HeadLeast(o: Order, s: seq<string>, x: string, rest: seq<string>)
    requires Sorted(o, s) && s != [] && Compare(o, s[0], x) != Greater
    requires multiset(rest) == multiset(s[1..]) + multiset{x}
    ensures forall y :: y in rest ==> Compare(o, s[0], y) != Greater
  {
    forall y | y in rest ensures Compare(o, s[0], y) != Greater {
      assert y in multiset(rest);
      if y != x {
        assert y in multiset(s[1..]);
        var j :| 0 <= j < |s[1..]| && s[1..][j] == y;
        assert s[j + 1] == y;
      }
    }
  }

  /** `x` no greater than the head of a sorted list goes in front. */
  lemma PrependLeast(o: Order, x: string, s: seq<string>)
    requires Sorted(o, s) && s != [] && Compare(o, x, s[0]) != Greater
    ensures Sorted(o, [x] + s)
  {
    forall y | y in s ensures Compare(o, x, y) != Greater {
      var j :| 0 <= j < |s| && s[j] == y;
      if j > 0 {
        CompareTrans(o, x, s[0], y);
      }
    }
    PrependSorted(o, x, s);
  }

  /** The sorted permutation of `s`. */
  function Sort(o: Order, s: seq<string>): (r: seq<string>)
    ensures Sorted(o, r) && multiset(r) == multiset(s)
  {
    if s == [] then []
    else
      assert s == [s[0]] + s[1..];
      Insert(o, s[0], Sort(o, s[1..]))
  }

  /** Sorted permutations of one another start with the same element. */
  lemma SameHead(o: Order, a: seq<string>, b: seq<string>)
    requires Sorted(o, a) && Sorted(o, b) && multiset(a) == multiset(b) && a != []
    ensures b != [] && a[0] == b[0]
  {
    assert a[0] in multiset(b);
    var i :| 0 <= i < |b| && b[i] == a[0];
    assert b[0] in multiset(a);
    var j :| 0 <= j < |a| && a[j] == b[0];
    assert Compare(o, b[0], a[0]) != Greater;
    assert Compare(o, a[0], b[0]) != Greater;
    CompareFlip(o, a[0], b[0]);
  }

  lemma TailMultiset(a: seq<string>, b: seq<string>)
    requires a != [] && b != [] && a[0] == b[0] && multiset(a) == multiset(b)
    ensures multiset(a[1..]) == multiset(b[1..])
  {
    assert a == [a[0]] + a[1..] && b == [b[0]] + b[1..];
    assert multiset(a[1..]) == multiset(a) - multiset{a[0]};
    assert multiset(b[1..]) == multiset(b) - multiset{b[0]};
  }

  /** Two sorted permutations of the same strings are equal: the result of
      an unstable sort is determined by its input. */
  lemma {:induction false} SortedUnique(o: Order, a: seq<string>, b: seq<string>)
    requires Sorted(o, a) && Sorted(o, b) && multiset(a) == multiset(b)
    ensures a == b
    decreases |a|
  {
    if a != [] {
      SameHead(o, a, b);
      TailMultiset(a, b);
      SortedUnique(o, a[1..], b[1..]);
      assert a == [a[0]] + a[1..] && b == [b[0]] + b[1..];
    } else {
      assert |b| == |multiset(b)| == 0;
    }
  }
}
