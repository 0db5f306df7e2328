/** Sequence helpers for the `Vec` manipulations of the core: `insert(0, x)`
    builds lists in reverse order, `contains` guards against duplicates. */
module Seqs {
  import opened Wrappers

  /** The elements of `s` from last to first. */
  function Reverse<T>(s: seq<T>): (r: seq<T>)
    ensures |r| == |s|
    ensures forall i :: 0 <= i < |s| ==> r[i] == s[|s| - 1 - i]
  {
    if s == [] then [] else [s[|s| - 1]] + Reverse(s[..|s| - 1])
  }

  lemma ReverseIn<T>(s: seq<T>)
    ensures forall x :: x in Reverse(s) <==> x in s
  {
    var r := Reverse(s);
    forall x | x in s ensures x in r {
      var i :| 0 <= i < |s| && s[i] == x;
      assert r[|s| - 1 - i] == x;
    }
  }

  lemma ReverseReverse<T>(s: seq<T>)
    ensures Reverse(Reverse(s)) == s
  {
  }

  /** `v.insert(0, x)` on the reverse of `s` is the reverse of `s + [x]`. */
  lemma ReverseSnoc<T>(s: seq<T>, x: T)
    ensures Reverse(s + [x]) == [x] + Reverse(s)
  {
  }

  /** Reversing a concatenation reverses and swaps the parts. */
  lemma {:induction false} ReverseAppend<T>(x: seq<T>, y: seq<T>)
    ensures Reverse(x + y) == Reverse(y) + Reverse(x)
    decreases |y|
  {
    if y != [] {
      var init := y[..|y| - 1];
      ReverseAppend(x, init);
      assert (x + y)[..|x + y| - 1] == x + init;
    } else {
      assert x + y == x;
    }
  }

  /** No element occurs twice. */
  predicate NoDup<T(==)>(s: seq<T>) {
    forall i, j :: 0 <= i < j < |s| ==> s[i] != s[j]
  }

  /** The distinct elements of `s`, each put in front the first time it is
      met: what a loop of `if !v.contains(&x) { v.insert(0, x) }` leaves. */
  function FrontDistinct<T(==,!new)>(s: seq<T>): (r: seq<T>)
    ensures NoDup(r)
    ensures forall x :: x in r <==> x in s
  {
    if s == [] then []
    else
      var d, x := FrontDistinct(s[..|s| - 1]), s[|s| - 1];
      assert s == s[..|s| - 1] + [x];
      if x in d then d else [x] + d
  }

  /** The elements `keep` accepts, in order; `None` as soon as `keep`
      cannot decide an element. */
  function Select<T>(keep: T -> Option<bool>, s: seq<T>): Option<seq<T>> {
    if s == [] then Some([])
    else
      var init :- Select(keep, s[..|s| - 1]);
      var k :- keep(s[|s| - 1]);
      if k then Some(init + [s[|s| - 1]]) else Some(init)
  }

  lemma SelectStep<T>(keep: T -> Option<bool>, init: seq<T>, x: T)
    ensures Select(keep, init + [x]) ==
              if Select(keep, init).None? || keep(x).None? then None
              else if keep(x).value then Some(Select(keep, init).value + [x])
              else Select(keep, init)
  {
    var s := init + [x];
    assert s[..|s| - 1] == init && s[|s| - 1] == x;
  }

  /** Selection succeeds exactly when `keep` decides every element. */
  lemma {:induction false} SelectDefined<T>(keep: T -> Option<bool>, s: seq<T>)
    ensures Select(keep, s).Some? <==> forall x :: x in s ==> keep(x).Some?
    decreases |s|
  {
    if s != [] {
      var init, last := s[..|s| - 1], s[|s| - 1];
      SelectDefined(keep, init);
      assert s == init + [last];
      SelectStep(keep, init, last);
    }
  }

  /** The selected elements are the accepted ones. */
  lemma {:induction false} SelectMembers<T>(keep: T -> Option<bool>, s: seq<T>)
    requires Select(keep, s).Some?
    ensures forall x :: x in Select(keep, s).value <==> x in s && keep(x) == Some(true)
    decreases |s|
  {
    if s != [] {
      var init, last := s[..|s| - 1], s[|s| - 1];
      assert s == init + [last];
      SelectStep(keep, init, last);
      SelectMembers(keep, init);
    }
  }

  /** The selected elements come from the list. */
  lemma {:induction false} SelectIn<T>(keep: T -> Option<bool>, s: seq<T>)
    requires Select(keep, s).Some?
    ensures forall x :: x in Select(keep, s).value ==> x in s
    decreases |s|
  {
    if s != [] {
      var init, last := s[..|s| - 1], s[|s| - 1];
      assert s == init + [last];
      SelectStep(keep, init, last);
      SelectIn(keep, init);
    }
  }

  /** Selecting from two lists one after the other. */
  lemma {:induction false} SelectAppend<T>(keep: T -> Option<bool>, a: seq<T>, b: seq<T>)
    ensures Select(keep, a + b) ==
              if Select(keep, a).Some? && Select(keep, b).Some?
              then Some(Select(keep, a).value + Select(keep, b).value)
              else None
    decreases |b|
  {
    if b == [] {
      assert a + b == a;
      if Select(keep, a).Some? {
        assert Select(keep, a).value + [] == Select(keep, a).value;
      }
    } else {
      var init, last := b[..|b| - 1], b[|b| - 1];
      SelectAppend(keep, a, init);
      assert a + b == (a + init) + [last];
      assert b == init + [last];
      SelectStep(keep, a + init, last);
      SelectStep(keep, init, last);
      if Select(keep, a).Some? && Select(keep, init).Some? && keep(last) == Some(true) {
        assert Select(keep, a).value + Select(keep, init).value + [last]
            == Select(keep, a).value + (Select(keep, init).value + [last]);
      }
    }
  }

  /** A rejected element can be taken out without changing the selection. */
  lemma SelectRejected<T>(keep: T -> Option<bool>, a: seq<T>, x: T, b: seq<T>)
    requires keep(x) == Some(false)
    ensures Select(keep, a + [x] + b) == Select(keep, a + b)
  {
    SelectAppend(keep, a + [x], b);
    SelectStep(keep, a, x);
    SelectAppend(keep, a, b);
  }
}
