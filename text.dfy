/** Rust `str` operations the core relies on, over `string` (a sequence of
    Unicode scalar values): substring search, `split`/`nth`, joining, and the
    two string orders the core sorts by. */
module Text {
  import opened Wrappers

  /** `std::cmp::Ordering`. */
  datatype Ordering = Less | Equal | Greater {
    function Flip(): Ordering {
      match this
      case Less => Greater
      case Equal => Equal
      case Greater => Less
    }

    /** `Ordering::then`: the first non-`Equal` comparison decides. */
    function Then(next: Ordering): Ordering {
      if Equal? then next else this
    }
  }

  /** `pat` occurs in `s` starting at index `i`. */
  predicate OccursAt(s: string, pat: string, i: nat) {
    i + |pat| <= |s| && s[i..i + |pat|] == pat
  }

  /** Leftmost occurrence of `pat` in `s` at or after index `i`. */
  function FindFrom(s: string, pat: string, i: nat): (r: Option<nat>)
    requires i <= |s|
    ensures r.Some? ==> i <= r.value && OccursAt(s, pat, r.value)
    ensures r.Some? ==> forall j: nat :: i <= j < r.value ==> !OccursAt(s, pat, j)
    ensures r.None? ==> forall j: nat :: i <= j ==> !OccursAt(s, pat, j)
    decreases |s| - i
  {
    if i + |pat| > |s| then None
    else if OccursAt(s, pat, i) then Some(i)
    else FindFrom(s, pat, i + 1)
  }

  /** `str::find`: the index of the leftmost occurrence of `pat`. */
  function Find(s: string, pat: string): (r: Option<nat>)
    ensures r.Some? ==> OccursAt(s, pat, r.value)
    ensures r.Some? ==> forall j: nat :: j < r.value ==> !OccursAt(s, pat, j)
    ensures r.None? ==> forall j: nat :: !OccursAt(s, pat, j)
  {
    FindFrom(s, pat, 0)
  }

  /** `str::contains`. */
  predicate Contains(s: string, pat: string) {
    Find(s, pat).Some?
  }

  lemma ContainsAt(s: string, pat: string, j: nat)
    requires OccursAt(s, pat, j)
    ensures Contains(s, pat)
  {
  }

  /** The leftmost occurrence is the only one that can be found first. */
  lemma FindIs(s: string, pat: string, i: nat)
    requires OccursAt(s, pat, i)
    requires forall j: nat :: j < i ==> !OccursAt(s, pat, j)
    ensures Find(s, pat) == Some(i)
  {
  }

  /** A string without the character `pat[k]` cannot contain `pat`. */
  lemma NotContainsWithout(s: string, pat: string, k: nat)
    requires k < |pat| && pat[k] !in s
    ensures !Contains(s, pat)
  {
    forall j: nat
      ensures !OccursAt(s, pat, j)
    {
      if j + |pat| <= |s| {
        assert s[j..j + |pat|][k] == s[j + k];
      }
    }
  }

  /** With no occurrence of `pat` starting before `n`, the prefix `s[..n]`
      does not contain `pat`. */
  lemma NoneInPrefix(s: string, pat: string, n: nat)
    requires pat != [] && n <= |s|
    requires forall j: nat :: j < n ==> !OccursAt(s, pat, j)
    ensures !Contains(s[..n], pat)
  {
    forall j: nat
      ensures !OccursAt(s[..n], pat, j)
    {
      if j + |pat| <= n {
        assert s[..n][j..j + |pat|] == s[j..j + |pat|];
        assert !OccursAt(s, pat, j);
      }
    }
  }

  /** `str::split(pat)` for a non-empty pattern: the pieces between the
      non-overlapping occurrences of `pat`, scanning left to right. */
  function Split(s: string, pat: string): (r: seq<string>)
    requires pat != []
    ensures |r| >= 1 && r[0] <= s
    ensures |r| >= 2 <==> Contains(s, pat)
    ensures !Contains(r[0], pat)
    ensures |r| >= 2 ==> Find(s, pat) == Some(|r[0]|)
    decreases |s|
  {
    match Find(s, pat)
    case None => [s]
    case Some(i) =>
      NoneInPrefix(s, pat, i);
      [s[..i]] + Split(s[i + |pat|..], pat)
  }

  /** No piece of a split holds the pattern. */
  lemma SplitPieces(s: string, pat: string)
    requires pat != []
    ensures forall k :: 0 <= k < |Split(s, pat)| ==> !Contains(Split(s, pat)[k], pat)
  {
    forall k | 0 <= k < |Split(s, pat)|
      ensures !Contains(Split(s, pat)[k], pat)
    {
      SplitPiece(s, pat, k);
    }
  }

  lemma {:induction false} SplitPiece(s: string, pat: string, k: nat)
    requires pat != [] && k < |Split(s, pat)|
    ensures !Contains(Split(s, pat)[k], pat)
    decreases k
  {
    var r := Split(s, pat);
    if k > 0 {
      var tail := SplitRest(s, pat);
      SplitPiece(tail, pat, k - 1);
      assert r[k] == r[1..][k - 1];
    }
  }

  /** What follows the first piece and its separator, split on its own,
      gives the remaining pieces. */
  lemma SplitRest(s: string, pat: string) returns (tail: string)
    requires pat != [] && Contains(s, pat)
    ensures Split(s, pat)[1..] == Split(tail, pat)
  {
    SplitStep(s, pat);
    tail := s[|Split(s, pat)[0]| + |pat|..];
  }

  /** Without the pattern, the split is the whole string. */
  lemma SplitNone(s: string, pat: string)
    requires pat != [] && !Contains(s, pat)
    ensures Split(s, pat) == [s]
  {
  }

  /** Splitting at the first occurrence: the head piece, then the split of
      what follows the separator. */
  lemma SplitStep(s: string, pat: string)
    requires pat != [] && Contains(s, pat)
    ensures Split(s, pat) == [Split(s, pat)[0]] + Split(s[|Split(s, pat)[0]| + |pat|..], pat)
  {
    var i := Find(s, pat).value;
    SplitAt(s, pat, i);
  }

  /** One unfolding of `Split` at the first occurrence `i`. */
  lemma SplitAt(s: string, pat: string, i: nat)
    requires pat != [] && Find(s, pat) == Some(i)
    ensures i + |pat| <= |s| && Split(s, pat) == [s[..i]] + Split(s[i + |pat|..], pat)
  {
  }

  /** The inverse of `Split`: the pieces with `sep` between them. */
  function Join(pieces: seq<string>, sep: string): string
    requires |pieces| >= 1
  {
    if |pieces| == 1 then pieces[0] else pieces[0] + sep + Join(pieces[1..], sep)
  }

  /** Joining the pieces of a split gives back the original string. */
  lemma {:induction false} SplitJoin(s: string, pat: string)
    requires pat != []
    ensures Join(Split(s, pat), pat) == s
    decreases |s|
  {
    match Find(s, pat)
    case None =>
    case Some(i) =>
      var rest := s[i + |pat|..];
      SplitJoin(rest, pat);
      var r := Split(s, pat);
      assert r == [s[..i]] + Split(rest, pat);
      assert r[1..] == Split(rest, pat);
      assert s == s[..i] + pat + rest;
  }

  /** Joining one more piece adds the separator and that piece. */
  lemma {:induction false} JoinSnoc(ps: seq<string>, sep: string, x: string)
    requires |ps| >= 1
    ensures Join(ps + [x], sep) == Join(ps, sep) + sep + x
    decreases |ps|
  {
    if |ps| > 1 {
      JoinSnoc(ps[1..], sep, x);
      assert (ps + [x])[1..] == ps[1..] + [x];
    } else {
      assert (ps + [x])[1..] == [x];
    }
  }

  /** Joining two lists is joining each and putting a separator between. */
  lemma {:induction false} JoinAppend(a: seq<string>, b: seq<string>, sep: string)
    requires |a| >= 1 && |b| >= 1
    ensures Join(a, sep) + sep + Join(b, sep) == Join(a + b, sep)
    decreases |a|
  {
    if |a| > 1 {
      JoinAppend(a[1..], b, sep);
      assert (a + b)[1..] == a[1..] + b;
    } else {
      assert (a + b)[1..] == b;
    }
  }

  /** Each piece preceded by `sep`: what a loop of `s += sep + piece`
      appends. */
  function Prefixed(pieces: seq<string>, sep: string): string {
    if pieces == [] then "" else Prefixed(pieces[..|pieces| - 1], sep) + sep + pieces[|pieces| - 1]
  }

  lemma {:induction false} PrefixedAppend(a: seq<string>, b: seq<string>, sep: string)
    ensures Prefixed(a + b, sep) == Prefixed(a, sep) + Prefixed(b, sep)
    decreases |b|
  {
    if b != [] {
      var b' := b[..|b| - 1];
      PrefixedAppend(a, b', sep);
      assert (a + b)[..|a + b| - 1] == a + b';
    } else {
      assert a + b == a;
    }
  }

  /** A first piece followed by `sep`-prefixed pieces is their join. */
  lemma {:induction false} JoinPrefixed(x: string, pieces: seq<string>, sep: string)
    ensures x + Prefixed(pieces, sep) == Join([x] + pieces, sep)
    decreases |pieces|
  {
    if pieces != [] {
      var init := pieces[..|pieces| - 1];
      JoinPrefixed(x, init, sep);
      JoinSnoc([x] + init, sep, pieces[|pieces| - 1]);
      assert [x] + pieces == ([x] + init) + [pieces[|pieces| - 1]];
    }
  }

  /** `pat[k]` is a character that occurs nowhere else in `pat`. */
  predicate UniqueAt(pat: string, k: nat) {
    k < |pat| && forall m :: 0 <= m < |pat| && m != k ==> pat[m] != pat[k]
  }

  /** The first occurrence of `sep` in `x + sep + y` is the one after `x`,
      when `x` lacks a character that occurs in `sep` exactly once. */
  lemma FindAfterPiece(x: string, sep: string, y: string, k: nat)
    requires UniqueAt(sep, k) && sep[k] !in x
    ensures Find(x + sep + y, sep) == Some(|x|)
  {
    var s := x + sep + y;
    assert s[|x|..|x| + |sep|] == sep;
    forall j: nat | j < |x|
      ensures !OccursAt(s, sep, j)
    {
      assert s[j..j + |sep|][k] == s[j + k];
      if j + k < |x| {
        assert s[j + k] == x[j + k];
      } else {
        assert s[j + k] == sep[j + k - |x|];
      }
    }
    FindIs(s, sep, |x|);
  }

  /** The first piece of `x + sep + y` is `x`, under the same condition. */
  lemma SplitHead(x: string, sep: string, y: string, k: nat)
    requires UniqueAt(sep, k) && sep[k] !in x
    ensures Split(x + sep + y, sep)[0] == x
  {
    FindAfterPiece(x, sep, y, k);
    var s := x + sep + y;
    assert OccursAt(s, sep, |x|);
    assert s[..|x|] == x;
  }

  /** Splitting `x + sep + y` under the condition of `SplitHead`: `x`,
      then the pieces of `y`. */
  lemma SplitAfterPiece(x: string, sep: string, y: string, k: nat)
    requires UniqueAt(sep, k) && sep[k] !in x
    ensures Split(x + sep + y, sep) == [x] + Split(y, sep)
  {
    FindAfterPiece(x, sep, y, k);
    var s := x + sep + y;
    assert s[..|x|] == x;
    assert s[|x| + |sep|..] == y;
  }

  /** Splitting a join gives back the pieces, provided no piece holds a
      character that appears exactly once in the separator. */
  lemma {:induction false} SplitOfJoin(pieces: seq<string>, sep: string, k: nat)
    requires |pieces| >= 1 && UniqueAt(sep, k)
    requires forall p :: p in pieces ==> sep[k] !in p
    ensures Split(Join(pieces, sep), sep) == pieces
    decreases |pieces|
  {
    if |pieces| == 1 {
      NotContainsWithout(pieces[0], sep, k);
    } else {
      var x, rest := pieces[0], pieces[1..];
      assert x in pieces;
      forall p | p in rest ensures sep[k] !in p {
        assert p in pieces;
      }
      SplitOfJoin(rest, sep, k);
      SplitAfterPiece(x, sep, Join(rest, sep), k);
      assert pieces == [x] + rest;
    }
  }

  /** A one-character pattern occurs exactly when its character does. */
  lemma ContainsChar(s: string, c: char)
    ensures Contains(s, [c]) <==> c in s
  {
    if c in s {
      var i :| 0 <= i < |s| && s[i] == c;
      assert s[i..i + 1] == [c];
      ContainsAt(s, [c], i);
    } else {
      NotContainsWithout(s, [c], 0);
    }
  }

  /** For a two-character pattern whose characters differ, the first
      occurrence in `x + pat + y` is the one after `x` when `x` has none. */
  lemma FindAfterPair(x: string, pat: string, y: string)
    requires |pat| == 2 && pat[0] != pat[1] && !Contains(x, pat)
    ensures Find(x + pat + y, pat) == Some(|x|)
  {
    var s := x + pat + y;
    assert s[|x|..|x| + 2] == pat;
    forall j: nat | j < |x|
      ensures !OccursAt(s, pat, j)
    {
      if j + 2 <= |x| {
        assert s[j..j + 2] == x[j..j + 2];
        assert !OccursAt(x, pat, j);
      } else {
        assert s[j + 1] == pat[0];
        assert s[j..j + 2][1] == s[j + 1];
      }
    }
    FindIs(s, pat, |x|);
  }

  /** Splitting `x + pat + y` under the condition of `FindAfterPair`. */
  lemma SplitAfterPair(x: string, pat: string, y: string)
    requires |pat| == 2 && pat[0] != pat[1] && !Contains(x, pat)
    ensures Split(x + pat + y, pat) == [x] + Split(y, pat)
  {
    FindAfterPair(x, pat, y);
    var s := x + pat + y;
    assert s[..|x|] == x;
    assert s[|x| + 2..] == y;
  }

  /** `nth(k)` of a split, `None` when there are too few pieces. */
  function SplitNth(s: string, pat: string, k: nat): (r: Option<string>)
    requires pat != []
    ensures r.Some? <==> k < |Split(s, pat)|
    ensures r.Some? ==> r.value == Split(s, pat)[k]
  {
    var pieces := Split(s, pat);
    if k < |pieces| then Some(pieces[k]) else None
  }

  /** `str::cmp`: lexicographic order by character (which for Rust's UTF-8
      strings is the same as comparing bytes). */
  function LexCmp(a: string, b: string): (r: Ordering)
    ensures r == Equal <==> a == b
  {
    if a == [] then (if b == [] then Equal else Less)
    else if b == [] then Greater
    else if a[0] < b[0] then Less
    else if a[0] > b[0] then Greater
    else
      var r := LexCmp(a[1..], b[1..]);
      assert a == [a[0]] + a[1..] && b == [b[0]] + b[1..];
      r
  }

  lemma {:induction false} LexFlip(a: string, b: string)
    ensures LexCmp(b, a) == LexCmp(a, b).Flip()
  {
    if a != [] && b != [] && a[0] == b[0] {
      LexFlip(a[1..], b[1..]);
    }
  }

  lemma {:induction false} LexTrans(a: string, b: string, c: string)
    requires LexCmp(a, b) != Greater && LexCmp(b, c) != Greater
    ensures LexCmp(a, c) != Greater
  {
    if a != [] && b != [] && c != [] && a[0] == b[0] == c[0] {
      LexTrans(a[1..], b[1..], c[1..]);
    }
  }

  /** Number of bytes in the UTF-8 encoding of `c`. */
  function Utf8Width(c: char): (r: nat)
    ensures 1 <= r <= 4 && (r == 1 <==> c as int < 0x80)
  {
    if c as int < 0x80 then 1
    else if c as int < 0x800 then 2
    else if c as int < 0x10000 then 3
    else 4
  }

  /** `String::len`: the byte length of the UTF-8 encoding. */
  function Utf8Len(s: string): (r: nat)
    ensures r >= |s|
    ensures (forall i :: 0 <= i < |s| ==> s[i] as int < 0x80) ==> r == |s|
  {
    if s == [] then 0 else Utf8Width(s[0]) + Utf8Len(s[1..])
  }

  /** Compare byte lengths first and, on equal length, the strings
      lexicographically. */
  function LenAlphaCmp(a: string, b: string): (r: Ordering)
    ensures r == Equal <==> a == b
    ensures Utf8Len(a) < Utf8Len(b) ==> r == Less
    ensures Utf8Len(a) > Utf8Len(b) ==> r == Greater
  {
    var la, lb := Utf8Len(a), Utf8Len(b);
    if la < lb then Less
    else if la > lb then Greater
    else LexCmp(a, b)
  }

  lemma LenAlphaFlip(a: string, b: string)
    ensures LenAlphaCmp(b, a) == LenAlphaCmp(a, b).Flip()
  {
    LexFlip(a, b);
  }

  lemma LenAlphaTrans(a: string, b: string, c: string)
    requires LenAlphaCmp(a, b) != Greater && LenAlphaCmp(b, c) != Greater
    ensures LenAlphaCmp(a, c) != Greater
  {
    if Utf8Len(a) == Utf8Len(b) == Utf8Len(c) {
      LexTrans(a, b, c);
    }
  }
}
