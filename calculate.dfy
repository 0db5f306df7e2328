/** Revision A of the upgrade-path engine (src/calculate/upgradepath.rs):
    the version heuristics that read a version out of a bundle name, and
    `list_channel_info`, which keeps the entries at or above the starting
    version, prunes the replaced and skipped ones and reports what is left. */
module Calculate {
  import opened Wrappers
  import opened Text
  import opened Seqs
  import opened Semver
  import opened Catalog
  import Isc

  // ------------------------------------------------------ version payload

  /** The version text of a bundle name: after the first `.v` up to the
      next one when the name has `.v`; otherwise the text between the
      first and the second occurrence of the name's first `.`-segment,
      without its first character (`get(1..)`, which fails when that
      character is not one byte). `split` on the empty segment (a name
      starting with `.`) yields the first character as its second piece. */
  function ExtractPayload(name: string): (r: Option<string>)
  {
    if Contains(name, ".v") then Some(Split(name, ".v")[1])
    else
      var n := Split(name, ".")[0];
      if n == [] then (if name == [] then None else Some([]))
      else
        var pieces := Split(name, n);
        if |pieces| < 2 then None
        else
          var piece := pieces[1];
          if piece == [] || Utf8Width(piece[0]) > 1 then None else Some(piece[1..])
  }

  /** `split(n)` of a name whose first `.`-segment `n` is not empty: the
      first piece is empty, and the second starts with the `.` after `n`
      whenever the name has one, and is empty otherwise. */
  lemma PlainPieces(name: string)
    requires Split(name, ".")[0] != []
    ensures var n := Split(name, ".")[0];
            var pieces := Split(name, n);
            |pieces| >= 2
            && (Contains(name, ".") ==> pieces[1] != [] && pieces[1][0] == '.')
            && (!Contains(name, ".") ==> pieces[1] == [])
  {
    var n := Split(name, ".")[0];
    var rest := name[|n|..];
    SplitAtStart(name, n);
    if Contains(name, ".") {
      assert name[|n|..|n| + 1] == ".";
      assert rest[0] == '.';
      ContainsChar(n, '.');
      assert n[0] != '.';
      HeadPieceStarts(rest, n);
    } else {
      assert n == name;
      assert rest == [];
    }
  }

  /** Splitting on a non-empty prefix of the text: an empty first piece,
      then the pieces of what follows it. */
  lemma SplitAtStart(s: string, pat: string)
    requires pat != [] && pat <= s
    ensures Split(s, pat) == [[]] + Split(s[|pat|..], pat)
  {
    assert OccursAt(s, pat, 0);
    FindIs(s, pat, 0);
    SplitAt(s, pat, 0);
  }

  /** When the text does not start like the pattern, the first piece is
      not empty and starts like the text. */
  lemma HeadPieceStarts(s: string, pat: string)
    requires pat != [] && s != [] && pat[0] != s[0]
    ensures var p := Split(s, pat)[0]; p != [] && p[0] == s[0]
  {
    var p := Split(s, pat)[0];
    assert !OccursAt(s, pat, 0) by {
      if |pat| <= |s| {
        assert s[..|pat|][0] == s[0];
      }
    }
    if Contains(s, pat) {
      assert Find(s, pat) == Some(|p|);
    } else {
      SplitNone(s, pat);
    }
  }

  /** A payload exists exactly when the name has a `.`. */
  lemma PayloadExists(name: string)
    ensures ExtractPayload(name).Some? <==> Contains(name, ".")
  {
    var n := Split(name, ".")[0];
    if Contains(name, ".v") {
      var i := Find(name, ".v").value;
      assert name[i..i + 2][0] == name[i];
      assert name[i..i + 1] == ".";
      ContainsAt(name, ".", i);
    } else if n == [] {
      if name != [] {
        assert |Split(name, ".")| >= 2;
      }
    } else {
      PlainPieces(name);
    }
  }

  /** A name with `.v`: the payload is what follows the first `.v`, up to
      the next `.v`. */
  lemma PayloadAfterV(pkg: string, ver: string)
    requires !Contains(pkg, ".v")
    ensures ExtractPayload(pkg + ".v" + ver) == Some(Split(ver, ".v")[0])
  {
    var name := pkg + ".v" + ver;
    SplitAfterPair(pkg, ".v", ver);
    assert OccursAt(name, ".v", |pkg|) by {
      assert name[|pkg|..|pkg| + 2] == ".v";
    }
    ContainsAt(name, ".v", |pkg|);
  }

  /** A name without `.v` whose first segment is `pkg`: the payload is the
      text after `pkg + "."` up to the next occurrence of `pkg`. */
  lemma PayloadAfterSegment(pkg: string, ver: string)
    requires pkg != [] && '.' !in pkg && !Contains(pkg + "." + ver, ".v")
    ensures var rest := "." + ver;
            Split(rest, pkg)[0] != []
            && ExtractPayload(pkg + "." + ver) == Some(Split(rest, pkg)[0][1..])
  {
    var name := pkg + "." + ver;
    var rest := "." + ver;
    SplitHead(pkg, ".", ver, 0);
    assert name == pkg + rest;
    assert OccursAt(name, pkg, 0) by {
      assert name[..|pkg|] == pkg;
    }
    ContainsAt(name, pkg, 0);
    FindIs(name, pkg, 0);
    SplitStep(name, pkg);
    assert name[|pkg|..] == rest;
    assert !OccursAt(rest, pkg, 0) by {
      if |pkg| <= |rest| {
        assert rest[..|pkg|][0] == '.';
        assert pkg[0] in pkg;
      }
    }
    var tail := Split(rest, pkg);
    if |tail| >= 2 {
      assert Find(rest, pkg) == Some(|tail[0]|);
    }
    assert tail[0][0] == rest[0];
  }

  /** When `pkg` does not occur again, the payload is all of `ver`. */
  lemma PayloadAfterPackage(pkg: string, ver: string)
    requires pkg != [] && '.' !in pkg && !Contains(pkg + "." + ver, ".v")
    requires !Contains(ver, pkg)
    ensures ExtractPayload(pkg + "." + ver) == Some(ver)
  {
    PayloadAfterSegment(pkg, ver);
    NotAfterDot(pkg, ver);
    var rest := "." + ver;
    assert Split(rest, pkg)[0] == rest;
    assert rest[1..] == ver;
  }

  lemma NotAfterDot(pkg: string, ver: string)
    requires pkg != [] && '.' !in pkg && !Contains(ver, pkg)
    ensures !Contains("." + ver, pkg)
  {
    var rest := "." + ver;
    forall j: nat
      ensures !OccursAt(rest, pkg, j)
    {
      if j == 0 {
        if |pkg| <= |rest| {
          assert rest[..|pkg|][0] == '.';
          assert pkg[0] in pkg;
        }
      } else if j + |pkg| <= |rest| {
        assert rest[j..j + |pkg|] == ver[j - 1..j - 1 + |pkg|];
        assert !OccursAt(ver, pkg, j - 1);
      }
    }
  }

  // ---------------------------------------------------- heuristic semver

  /** `build_semver`: with more than one `.`-field, major, minor and patch
      from the first three (extra fields ignored; exactly two fields fail
      on the missing patch), the patch field split at `-` into the patch
      and the prerelease (its second `-`-piece); with no `.`, only a
      major: the text after the first `v` up to the next one, or the
      whole text. Every number goes through `str::parse::<u64>`; build
      metadata is always empty. */
  function BuildSemver(s: string): (r: Option<Version>)
    ensures |Split(s, ".")| == 2 ==> r.None?
    ensures !Contains(s, ".") && r.Some? ==> r.value.minor == 0 && r.value.patch == 0 && r.value.pre == []
    ensures r.Some? ==> r.value.major < U64Bound && r.value.minor < U64Bound && r.value.patch < U64Bound
  {
    var parts := Split(s, ".");
    if |parts| > 1 then
      if |parts| < 3 then None
      else
        var field := parts[2];
        var patchText := if Contains(field, "-") then Split(field, "-")[0] else field;
        var preText := if Contains(field, "-") then Split(field, "-")[1] else "";
        var major :- ParseU64(parts[0]);
        var minor :- ParseU64(parts[1]);
        var patch :- ParseU64(patchText);
        var pre :- ParsePrerelease(preText);
        Some(Version(major, minor, patch, pre))
    else if Contains(s, "v") then
      var major :- ParseU64(Split(s, "v")[1]);
      Some(Version(major, 0, 0, []))
    else
      var major :- ParseU64(parts[0]);
      Some(Version(major, 0, 0, []))
  }

  /** A character missing from `f` is missing from its second piece. */
  lemma SecondPieceAvoids(f: string, sep: string, c: char)
    requires sep != [] && |Split(f, sep)| >= 2 && c !in f
    ensures c !in Split(f, sep)[1]
  {
    var i := Find(f, sep).value;
    var rest := f[i + |sep|..];
    assert Split(f, sep)[1] == Split(rest, sep)[0];
    var p := Split(rest, sep)[0];
    assert p <= rest;
    forall k | 0 <= k < |p| ensures p[k] != c {
      assert p[k] == rest[k] == f[i + |sep| + k];
    }
  }

  /** The prerelease comes from a single `.`-field, so it has at most one
      identifier. */
  lemma BuildSemverPre(s: string)
    requires BuildSemver(s).Some?
    ensures |BuildSemver(s).value.pre| <= 1
  {
    var parts := Split(s, ".");
    if |parts| > 1 {
      var field := parts[2];
      if Contains(field, "-") {
        SplitPieces(s, ".");
        assert !Contains(field, ".");
        ContainsChar(field, '.');
        SecondPieceAvoids(field, "-", '.');
        var preText := Split(field, "-")[1];
        ContainsChar(preText, '.');
        if preText != [] {
          SplitNone(preText, ".");
        }
      }
    }
  }

  /** The patch field of a rendered version: the patch digits, then `-`
      and the prerelease identifier when there is one. */
  function PatchField(v: Version): string
    requires |v.pre| <= 1
  {
    Decimal(v.patch) + (if v.pre == [] then "" else "-" + v.pre[0])
  }

  lemma PatchFieldAvoids(v: Version, c: char)
    requires WellFormed(v) && |v.pre| <= 1 && !IsDigit(c) && c != '-'
    requires !IdentChar(c)
    ensures c !in PatchField(v)
  {
    DecimalAvoids(v.patch, c);
    if v.pre != [] {
      assert v.pre[0] in v.pre;
      assert ValidIdent(v.pre[0]);
    }
  }

  lemma RenderIsFields(v: Version)
    requires |v.pre| <= 1
    ensures Render(v) == Decimal(v.major) + "." + Decimal(v.minor) + "." + PatchField(v)
  {
    if v.pre != [] {
      assert PreText(v.pre) == v.pre[0];
    }
  }

  /** The piece before a one-character separator that `c` lacks, when
      the separator is the tail's first character or the tail is empty. */
  lemma HeadPiece(c: string, sep: char, tail: string)
    requires sep !in c
    requires tail == "" || tail[0] == sep
    ensures Split(c + tail, [sep])[0] == c
  {
    if tail == "" {
      NotContainsWithout(c, [sep], 0);
      assert c + tail == c;
    } else {
      SplitHead(c, [sep], tail[1..], 0);
      assert c + tail == c + [sep] + tail[1..];
    }
  }

  /** The first three `.`-fields of `a.b.c` followed by a tail that is
      empty or starts with `.`. */
  lemma ThreeFields(a: string, b: string, c: string, tail: string)
    requires '.' !in a && '.' !in b && '.' !in c
    requires tail == "" || tail[0] == '.'
    ensures var parts := Split(a + "." + b + "." + c + tail, ".");
            |parts| >= 3 && parts[0] == a && parts[1] == b && parts[2] == c
  {
    var r2 := c + tail;
    var r1 := b + "." + r2;
    assert a + "." + b + "." + c + tail == a + "." + r1;
    SplitAfterPiece(a, ".", r1, 0);
    SplitAfterPiece(b, ".", r2, 0);
    assert Split(a + "." + r1, ".") == [a] + ([b] + Split(r2, "."));
    HeadPiece(c, '.', tail);
  }

  /** The first three `.`-fields of a rendered version followed by a tail
      that is empty or starts with `.`. */
  lemma RenderedFields(v: Version, tail: string)
    requires WellFormed(v) && |v.pre| <= 1
    requires tail == "" || tail[0] == '.'
    ensures var parts := Split(Render(v) + tail, ".");
            |parts| >= 3 && parts[0] == Decimal(v.major) && parts[1] == Decimal(v.minor)
            && parts[2] == PatchField(v)
  {
    DecimalAvoids(v.major, '.');
    DecimalAvoids(v.minor, '.');
    PatchFieldAvoids(v, '.');
    RenderIsFields(v);
    ThreeFields(Decimal(v.major), Decimal(v.minor), PatchField(v), tail);
  }

  /** The patch field splits at `-` into the patch digits and the
      prerelease identifier, when there is one. */
  lemma PatchFieldSplit(v: Version)
    requires WellFormed(v) && |v.pre| <= 1 && (v.pre != [] ==> '-' !in v.pre[0])
    ensures var pf := PatchField(v);
            (Contains(pf, "-") <==> v.pre != [])
            && (v.pre == [] ==> pf == Decimal(v.patch))
            && (v.pre != [] ==> Split(pf, "-")[0] == Decimal(v.patch) && Split(pf, "-")[1] == v.pre[0])
  {
    var dp := Decimal(v.patch);
    DecimalAvoids(v.patch, '-');
    if v.pre == [] {
      NotContainsWithout(dp, "-", 0);
    } else {
      var id := v.pre[0];
      assert PatchField(v) == dp + "-" + id;
      SplitAfterPiece(dp, "-", id, 0);
      SplitNone(id, "-") by {
        NotContainsWithout(id, "-", 0);
      }
    }
  }

  /** A version rendered with at most one prerelease identifier (holding
      no `-`) reads back as itself, whatever `.`-fields follow it. */
  lemma BuildSemverOfRender(v: Version, tail: string)
    requires WellFormed(v) && |v.pre| <= 1 && (v.pre != [] ==> '-' !in v.pre[0])
    requires tail == "" || tail[0] == '.'
    ensures BuildSemver(Render(v) + tail) == Some(v)
  {
    RenderedFields(v, tail);
    PatchFieldSplit(v);
    U64RoundTrip(v.major);
    U64RoundTrip(v.minor);
    U64RoundTrip(v.patch);
    if v.pre != [] {
      assert PreText(v.pre) == v.pre[0];
      PrereleaseRoundTrip(v.pre);
    }
  }

  /** The patch field followed by a `-`-led rest still splits at its
      first `-` into the patch digits and the identifier. */
  lemma PatchRestSplit(v: Version, rest: string)
    requires WellFormed(v) && |v.pre| == 1 && '-' !in v.pre[0]
    requires (rest == "" || rest[0] == '-') && '.' !in rest
    ensures var field := PatchField(v) + rest;
            '.' !in field && Contains(field, "-")
            && |Split(field, "-")| >= 2
            && Split(field, "-")[0] == Decimal(v.patch) && Split(field, "-")[1] == v.pre[0]
  {
    var dp, id := Decimal(v.patch), v.pre[0];
    var field := PatchField(v) + rest;
    assert field == dp + "-" + (id + rest);
    PatchFieldAvoids(v, '.');
    DecimalAvoids(v.patch, '-');
    SplitAfterPiece(dp, "-", id + rest, 0);
    HeadPiece(id, '-', rest);
    assert OccursAt(field, "-", |dp|) by {
      assert field[|dp|..|dp| + 1] == "-";
    }
    ContainsAt(field, "-", |dp|);
  }

  /** A text whose first three `.`-fields are a version's major, minor,
      and patch `-` prerelease identifier reads as that version. */
  lemma BuildSemverOfFields(s: string, v: Version)
    requires WellFormed(v) && |v.pre| == 1
    requires var parts := Split(s, ".");
             |parts| >= 3 && parts[0] == Decimal(v.major) && parts[1] == Decimal(v.minor)
             && Contains(parts[2], "-") && |Split(parts[2], "-")| >= 2
             && Split(parts[2], "-")[0] == Decimal(v.patch) && Split(parts[2], "-")[1] == v.pre[0]
    ensures BuildSemver(s) == Some(v)
  {
    U64RoundTrip(v.major);
    U64RoundTrip(v.minor);
    U64RoundTrip(v.patch);
    assert PreText(v.pre) == v.pre[0];
    PrereleaseRoundTrip(v.pre);
  }

  /** The first three `.`-fields of `a.b.c` when `c` is followed by a
      `.`-free rest and then a tail that is empty or starts with `.`. */
  lemma FieldsWithRest(a: string, b: string, c: string, rest: string, tail: string)
    requires '.' !in a && '.' !in b && '.' !in c && '.' !in rest
    requires tail == "" || tail[0] == '.'
    ensures var parts := Split(a + "." + b + "." + c + rest + tail, ".");
            |parts| >= 3 && parts[0] == a && parts[1] == b && parts[2] == c + rest
  {
    assert a + "." + b + "." + c + rest + tail == a + "." + b + "." + (c + rest) + tail;
    ThreeFields(a, b, c + rest, tail);
  }

  /** The first three `.`-fields of a rendered version with one
      prerelease identifier, a `-`-led rest and a `.`-led tail. */
  lemma RenderRestFields(v: Version, rest: string, tail: string)
    requires WellFormed(v) && |v.pre| == 1 && '.' !in rest
    requires tail == "" || tail[0] == '.'
    ensures var parts := Split(Render(v) + rest + tail, ".");
            |parts| >= 3 && parts[0] == Decimal(v.major) && parts[1] == Decimal(v.minor)
            && parts[2] == PatchField(v) + rest
  {
    DecimalAvoids(v.major, '.');
    DecimalAvoids(v.minor, '.');
    PatchFieldAvoids(v, '.');
    RenderIsFields(v);
    FieldsWithRest(Decimal(v.major), Decimal(v.minor), PatchField(v), rest, tail);
  }

  /** The prerelease is the second `-`-piece of the patch field: anything
      from a further `-` up to the next `.` is dropped. */
  lemma BuildSemverDropsRest(v: Version, rest: string, tail: string)
    requires WellFormed(v) && |v.pre| == 1 && '-' !in v.pre[0]
    requires (rest == "" || rest[0] == '-') && '.' !in rest
    requires tail == "" || tail[0] == '.'
    ensures BuildSemver(Render(v) + rest + tail) == Some(v)
  {
    RenderRestFields(v, rest, tail);
    PatchRestSplit(v, rest);
    BuildSemverOfFields(Render(v) + rest + tail, v);
  }

  /** `1.2.3-rc-1` reads as prerelease `rc`: the `-1` is lost. */
  lemma BuildSemverDashInPre()
    ensures BuildSemver("1.2.3-rc-1") == Some(Version(1, 2, 3, ["rc"]))
  {
    var v := Version(1, 2, 3, ["rc"]);
    assert Decimal(1) == "1" && Decimal(2) == "2" && Decimal(3) == "3";
    assert Render(v) == "1.2.3-rc" by {
      RenderIsFields(v);
    }
    assert ValidPreIdent("rc") by {
      assert "rc"[0] == 'r' && "rc"[1] == 'c';
    }
    assert "1.2.3-rc-1" == Render(v) + "-1" + "";
    BuildSemverDropsRest(v, "-1", "");
  }

  /** Without a `.` and a `v`, the whole text is the major version. */
  lemma BuildSemverMajor(n: nat)
    requires n < U64Bound
    ensures BuildSemver(Decimal(n)) == Some(Version(n, 0, 0, []))
  {
    DecimalAvoids(n, '.');
    DecimalAvoids(n, 'v');
    NotContainsWithout(Decimal(n), ".", 0);
    NotContainsWithout(Decimal(n), "v", 0);
    U64RoundTrip(n);
  }

  /** Without a `.`, the major version is read between the first `v` and
      the next one. */
  lemma BuildSemverAfterV(x: string, n: nat, y: string)
    requires n < U64Bound && '.' !in x && 'v' !in x && '.' !in y && (y == "" || y[0] == 'v')
    ensures BuildSemver(x + "v" + Decimal(n) + y) == Some(Version(n, 0, 0, []))
  {
    var d := Decimal(n);
    var s := x + "v" + d + y;
    DecimalAvoids(n, '.');
    DecimalAvoids(n, 'v');
    assert '.' !in s;
    NotContainsWithout(s, ".", 0);
    assert s == x + "v" + (d + y);
    SplitAfterPiece(x, "v", d + y, 0);
    HeadPiece(d, 'v', y);
    assert Split(s, "v")[1] == d;
    assert OccursAt(s, "v", |x|) by {
      assert s[|x|..|x| + 1] == "v";
    }
    ContainsAt(s, "v", |x|);
    U64RoundTrip(n);
  }

  // ------------------------------------------------------ compare_semver

  /** `compare_semver`: when both names have `.v`, the versions after it;
      otherwise the versions read from the second `.`-field of each name.
      Both versions carry no build metadata, so `Ord for Version` is
      precedence. `None` when a field is missing or a number does not
      parse. */
  function CompareSemver(a: string, b: string): (r: Option<Ordering>)
  {
    if Contains(a, ".v") && Contains(b, ".v") then
      var y :- BuildSemver(Split(a, ".v")[1]);
      var z :- BuildSemver(Split(b, ".v")[1]);
      Some(VersionCmp(y, z))
    else
      var w :- SplitNth(a, ".", 1);
      var x :- SplitNth(b, ".", 1);
      var y :- BuildSemver(w);
      var z :- BuildSemver(x);
      Some(VersionCmp(y, z))
  }

  /** Unless both names hold `.v`, a second `.`-field of `b` that
      `build_semver` cannot read makes `compare_semver` panic. */
  lemma CompareSemverFieldFails(a: string, b: string)
    requires !Contains(a, ".v") && SplitNth(b, ".", 1).Some?
    requires BuildSemver(SplitNth(b, ".", 1).value).None?
    ensures CompareSemver(a, b).None?
  {
  }

  /** `pkg.1.0.0` beside `pkg.x.v1.0.0`: only one name holds `.v`, so the
      second `.`-fields `1` and `x` are read, and `x` is no number. */
  lemma CompareSemverFails()
    ensures CompareSemver("pkg.1.0.0", "pkg.x.v1.0.0").None?
  {
    var a, b := "pkg.1.0.0", "pkg.x.v1.0.0";
    NotContainsWithout(a, ".v", 1);
    SecondFieldX(b);
    NoNumberX();
    CompareSemverFieldFails(a, b);
  }

  lemma SecondFieldX(b: string)
    requires b == "pkg.x.v1.0.0"
    ensures SplitNth(b, ".", 1) == Some("x")
  {
    assert b == "pkg" + "." + ("x" + "." + "v1.0.0");
    SplitAfterPiece("pkg", ".", "x" + "." + "v1.0.0", 0);
    SplitHead("x", ".", "v1.0.0", 0);
  }

  lemma NoNumberX()
    ensures BuildSemver("x").None?
  {
    NotContainsWithout("x", ".", 0);
    SplitNone("x", ".");
    NotContainsWithout("x", "v", 0);
    assert !AllDigits("x") by {
      assert !IsDigit("x"[0]);
    }
  }

  /** Swapping the names flips the comparison. */
  lemma CompareSemverFlip(a: string, b: string)
    ensures CompareSemver(b, a).Some? <==> CompareSemver(a, b).Some?
    ensures CompareSemver(a, b).Some? ==> CompareSemver(b, a).value == CompareSemver(a, b).value.Flip()
  {
    if Contains(a, ".v") && Contains(b, ".v") {
      var y, z := BuildSemver(Split(a, ".v")[1]), BuildSemver(Split(b, ".v")[1]);
      if y.Some? && z.Some? {
        VersionFlip(y.value, z.value);
      }
    } else {
      var w, x := SplitNth(a, ".", 1), SplitNth(b, ".", 1);
      if w.Some? && x.Some? {
        var y, z := BuildSemver(w.value), BuildSemver(x.value);
        if y.Some? && z.Some? {
          VersionFlip(y.value, z.value);
        }
      }
    }
  }

  /** Unless both names have `.v`, only the major versions count: the
      second `.`-field has no `.`, so it yields a bare major. */
  lemma CompareSemverMajorOnly(a: string, b: string)
    requires !(Contains(a, ".v") && Contains(b, ".v")) && CompareSemver(a, b).Some?
    ensures var y := BuildSemver(Split(a, ".")[1]).value;
            var z := BuildSemver(Split(b, ".")[1]).value;
            CompareSemver(a, b) == Some(CmpNat(y.major, z.major))
  {
    SplitPieces(a, ".");
    SplitPieces(b, ".");
  }

  /** Names of the form `pkg.v<version>` compare by the precedence of
      their versions. */
  lemma CompareSemverRendered(p: string, v: Version, q: string, w: Version)
    requires !Contains(p, ".v") && !Contains(q, ".v")
    requires !Contains(Render(v), ".v") && !Contains(Render(w), ".v")
    requires WellFormed(v) && |v.pre| <= 1 && (v.pre != [] ==> '-' !in v.pre[0])
    requires WellFormed(w) && |w.pre| <= 1 && (w.pre != [] ==> '-' !in w.pre[0])
    ensures CompareSemver(p + ".v" + Render(v), q + ".v" + Render(w)) == Some(VersionCmp(v, w))
  {
    SplitAfterPair(p, ".v", Render(v));
    SplitAfterPair(q, ".v", Render(w));
    SplitNone(Render(v), ".v");
    SplitNone(Render(w), ".v");
    var a, b := p + ".v" + Render(v), q + ".v" + Render(w);
    assert Split(a, ".v")[1] == Render(v) && Split(b, ".v")[1] == Render(w);
    BuildSemverOfRender(v, "");
    BuildSemverOfRender(w, "");
    assert Render(v) + "" == Render(v) && Render(w) + "" == Render(w);
  }

  // ------------------------------------------------------------ frontier

  /** The version of a bundle, read from its name. */
  function EntryVersion(e: ChannelEntry): Option<Version> {
    var payload :- ExtractPayload(e.name);
    BuildSemver(payload)
  }

  /** Whether an entry is at or above the start; `None` when its version
      cannot be read. */
  function Liveness(start: StartPoint, e: ChannelEntry): Option<bool> {
    var v :- EntryVersion(e);
    Some(AtOrAbove(start, v, ""))
  }

  /** An entry whose version is at or above the start. */
  predicate IsLive(start: StartPoint, e: ChannelEntry)
    requires EntryVersion(e).Some?
  {
    AtOrAbove(start, EntryVersion(e).value, "")
  }

  /** The live entries of a channel, in source order; `None` when the
      version of some entry cannot be read (the `unwrap`s panic). */
  function LiveEntries(start: StartPoint, es: seq<ChannelEntry>): Option<seq<ChannelEntry>> {
    Select(Reader(start), es)
  }

  /** The liveness test against one start. */
  function Reader(start: StartPoint): ChannelEntry -> Option<bool> {
    e => Liveness(start, e)
  }

  /** The names the entries replace, in order. */
  function ReplacedList(es: seq<ChannelEntry>): seq<string> {
    if es == [] then []
    else
      var e := es[|es| - 1];
      ReplacedList(es[..|es| - 1]) + (if e.replaced.Some? then [e.replaced.value] else [])
  }

  function ReplacedNames(es: seq<ChannelEntry>): set<string> {
    set e | e in es && e.replaced.Some? :: e.replaced.value
  }

  function SkippedNames(es: seq<ChannelEntry>): set<string> {
    set e, n | e in es && n in Skips(e) :: n
  }

  /** The entries whose names are not in `drop`, in order. */
  function Keep(es: seq<ChannelEntry>, drop: set<string>): seq<ChannelEntry> {
    if es == [] then []
    else
      var init, e := Keep(es[..|es| - 1], drop), es[|es| - 1];
      if e.name in drop then init else init + [e]
  }

  /** `Keep` retains exactly the entries whose names are not dropped. */
  lemma {:induction false} KeepIn(es: seq<ChannelEntry>, drop: set<string>)
    ensures forall e :: e in Keep(es, drop) <==> e in es && e.name !in drop
    decreases |es|
  {
    if es != [] {
      KeepIn(es[..|es| - 1], drop);
      assert es == es[..|es| - 1] + [es[|es| - 1]];
    }
  }

  lemma KeepOne(x: ChannelEntry, drop: set<string>)
    ensures Keep([x], drop) == if x.name in drop then [] else [x]
  {
    assert [x][..0] == [];
  }

  /** The frontier: the live entries that no live entry replaces or skips,
      last first. */
  function Frontier(live: seq<ChannelEntry>): seq<ChannelEntry> {
    Reverse(Keep(live, ReplacedNames(live) + SkippedNames(live)))
  }

  lemma {:induction false} ReplacedListNames(es: seq<ChannelEntry>)
    ensures forall x :: x in ReplacedList(es) <==> x in ReplacedNames(es)
    decreases |es|
  {
    if es != [] {
      var init := es[..|es| - 1];
      ReplacedListNames(init);
      assert es == init + [es[|es| - 1]];
    }
  }

  lemma {:induction false} KeepAppend(x: seq<ChannelEntry>, y: seq<ChannelEntry>, drop: set<string>)
    ensures Keep(x + y, drop) == Keep(x, drop) + Keep(y, drop)
    decreases |y|
  {
    if y != [] {
      var init := y[..|y| - 1];
      KeepAppend(x, init, drop);
      assert (x + y)[..|x + y| - 1] == x + init;
    } else {
      assert x + y == x;
    }
  }

  /** Filtering commutes with reversal. */
  lemma {:induction false} KeepReverse(s: seq<ChannelEntry>, drop: set<string>)
    ensures Keep(Reverse(s), drop) == Reverse(Keep(s, drop))
    decreases |s|
  {
    if s != [] {
      var init, last := s[..|s| - 1], s[|s| - 1];
      var k := Keep([last], drop);
      KeepOne(last, drop);
      assert Reverse(k) == k;
      calc {
        Keep(Reverse(s), drop);
        { assert Reverse(s) == [last] + Reverse(init); }
        Keep([last] + Reverse(init), drop);
        { KeepAppend([last], Reverse(init), drop); }
        k + Keep(Reverse(init), drop);
        { KeepReverse(init, drop); }
        k + Reverse(Keep(init, drop));
        Reverse(k) + Reverse(Keep(init, drop));
        { ReverseAppend(Keep(init, drop), k); }
        Reverse(Keep(init, drop) + k);
        { assert s == init + [last]; KeepAppend(init, [last], drop); }
        Reverse(Keep(s, drop));
      }
    }
  }

  /** Filtering twice is filtering by both. */
  lemma {:induction false} KeepKeep(s: seq<ChannelEntry>, a: set<string>, b: set<string>)
    ensures Keep(Keep(s, a), b) == Keep(s, a + b)
    decreases |s|
  {
    if s != [] {
      var init, last := s[..|s| - 1], s[|s| - 1];
      KeepKeep(init, a, b);
      var k := Keep(init, a);
      if last.name !in a {
        assert (k + [last])[..|k|] == k;
      }
    }
  }

  /** The skipped names of a list are those of its reverse. */
  lemma SkippedReverse(es: seq<ChannelEntry>)
    ensures SkippedNames(Reverse(es)) == SkippedNames(es)
    ensures ReplacedNames(Reverse(es)) == ReplacedNames(es)
  {
    ReverseIn(es);
  }

  /** A live entry is on the frontier exactly when no live entry replaces
      or skips it. */
  lemma FrontierMembers(live: seq<ChannelEntry>, e: ChannelEntry)
    ensures e in Frontier(live) <==>
              e in live && e.name !in ReplacedNames(live) && e.name !in SkippedNames(live)
  {
    KeepIn(live, ReplacedNames(live) + SkippedNames(live));
    ReverseIn(Keep(live, ReplacedNames(live) + SkippedNames(live)));
  }

  /** What the three `insert(0, …)` passes compute is the frontier: the
      first and the second reversal cancel and the two filters combine. */
  lemma PassesGiveFrontier(live: seq<ChannelEntry>)
    ensures Reverse(Keep(Reverse(Keep(Reverse(live), ReplacedNames(live))), SkippedNames(Reverse(live))))
            == Frontier(live)
  {
    var r, sk := ReplacedNames(live), SkippedNames(live);
    SkippedReverse(live);
    KeepReverse(live, r);
    ReverseReverse(Keep(live, r));
    KeepKeep(live, r, sk);
  }

  // ------------------------------------------------------- live entries

  /** Against the start, liveness is precedence: a bundle version above
      the start is live, one equal to it only when the start carries no
      build metadata (any metadata orders above none). */
  lemma LiveByPrecedence(start: StartPoint, e: ChannelEntry)
    requires EntryVersion(e).Some? && (start.build == "" || ValidBuild(start.build))
    ensures var c := VersionCmp(start.version, EntryVersion(e).value);
            IsLive(start, e) <==> c == Less || (c == Equal && start.build == "")
  {
    NotGreaterThanPlain(start.version, start.build, EntryVersion(e).value);
  }

  /** The live entries exist exactly when every entry's version can be
      read, and they are the entries at or above the start. */
  lemma LiveMembers(start: StartPoint, es: seq<ChannelEntry>)
    ensures LiveEntries(start, es).Some? <==> forall e :: e in es ==> EntryVersion(e).Some?
    ensures LiveEntries(start, es).Some? ==>
              forall e :: e in LiveEntries(start, es).value <==>
                          e in es && EntryVersion(e).Some? && IsLive(start, e)
  {
    var keep := Reader(start);
    SelectDefined(keep, es);
    if LiveEntries(start, es).Some? {
      SelectMembers(keep, es);
    }
  }

  /** An entry below the start changes nothing: whatever it replaces or
      skips stays, as if it were not in the channel. */
  lemma BelowStartIgnored(start: StartPoint, a: seq<ChannelEntry>, e: ChannelEntry, b: seq<ChannelEntry>)
    requires EntryVersion(e).Some? && !IsLive(start, e)
    ensures LiveEntries(start, a + [e] + b) == LiveEntries(start, a + b)
  {
    SelectRejected(Reader(start), a, e, b);
  }

  // ------------------------------------------------------ reported text

  /** The first token of the path: `?` for the text `0.0.0`. */
  function StartToken(text: string): string {
    if text == "0.0.0" then "?" else text
  }

  function Names(es: seq<ChannelEntry>): (r: seq<string>)
    ensures |r| == |es| && forall i :: 0 <= i < |es| ==> r[i] == es[i].name
  {
    if es == [] then [] else Names(es[..|es| - 1]) + [es[|es| - 1].name]
  }

  /** The skip ranges of the entries that have one, in order. */
  function Ranges(es: seq<ChannelEntry>): seq<string> {
    if es == [] then []
    else
      var e := es[|es| - 1];
      Ranges(es[..|es| - 1]) + (if e.skipRange.Some? then [e.skipRange.value] else [])
  }

  /** `"<start> -> a -> b"`. */
  function PathText(token: string, es: seq<ChannelEntry>): string {
    token + Prefixed(Names(es), " -> ")
  }

  /** `" : r1 : r2"`, no deduplication. */
  function RangesText(es: seq<ChannelEntry>): string {
    Prefixed(Ranges(es), " : ")
  }

  /** The path reads back as the start token and the frontier names. */
  lemma PathSplit(token: string, es: seq<ChannelEntry>)
    requires '>' !in token && forall e :: e in es ==> '>' !in e.name
    ensures Split(PathText(token, es), " -> ") == [token] + Names(es)
  {
    var ps := [token] + Names(es);
    JoinPrefixed(token, Names(es), " -> ");
    forall p | p in ps ensures " -> "[2] !in p {
      if p != token {
        var i :| 0 <= i < |Names(es)| && Names(es)[i] == p;
        assert es[i] in es;
      }
    }
    SplitOfJoin(ps, " -> ", 2);
  }

  lemma {:induction false} RangesIn(es: seq<ChannelEntry>)
    ensures forall r :: r in Ranges(es) ==> exists e :: e in es && e.skipRange == Some(r)
    decreases |es|
  {
    if es != [] {
      RangesIn(es[..|es| - 1]);
      assert es == es[..|es| - 1] + [es[|es| - 1]];
    }
  }

  /** The skip-range text reads back as an empty piece and then every
      range, in order. */
  lemma RangesSplit(es: seq<ChannelEntry>)
    requires forall e :: e in es && e.skipRange.Some? ==> ':' !in e.skipRange.value
    ensures Split(RangesText(es), " : ") == [""] + Ranges(es)
  {
    var ps := [""] + Ranges(es);
    JoinPrefixed("", Ranges(es), " : ");
    RangesIn(es);
    assert forall p :: p in ps ==> " : "[1] !in p;
    SplitOfJoin(ps, " : ", 1);
  }

  /** The ImageSetConfiguration generated for one frontier bundle: one
      operator holding one package (with an empty name) holding the
      bundle. */
  function BundleIsc(name: string): Isc.IscV3Alpha1 {
    Isc.New().(operators := [Isc.Catalog([Isc.Package("", [Isc.Bundle(name)])])])
  }

  /** Its document, as `to_yaml` writes it. */
  function Manifest(name: string): string {
    Isc.Yaml(BundleIsc(name))
  }

  /** Line by line, a manifest is the header for `v3alpha1`, the packages
      mark, the bundles mark and the bundle's name line. */
  lemma ManifestLines(name: string)
    requires '\n' !in name
    ensures Split(Manifest(name), "\n") ==
              Isc.HeaderLines("v3alpha1") + [Isc.PackagesMark, Isc.BundlesMark, Isc.NameMark + name]
  {
    var isc := BundleIsc(name);
    BundleIscSingle(name);
    Isc.SingleOperatorAgrees(isc);
    Isc.SeparatedLines(isc);
    BundleIscLines(name);
  }

  lemma BundleIscSingle(name: string)
    requires '\n' !in name
    ensures Isc.SingleLineNames(BundleIsc(name))
  {
    var isc := BundleIsc(name);
    forall c, p, b | c in isc.operators && p in c.packages && b in p.bundles
      ensures '\n' !in b.name
    {
      assert c == isc.operators[0] && p == c.packages[0] && b == p.bundles[0];
    }
  }

  lemma BundleIscLines(name: string)
    ensures Isc.AllLines(BundleIsc(name).operators) == [Isc.PackagesMark, Isc.BundlesMark, Isc.NameMark + name]
  {
    var c := Isc.Catalog([Isc.Package("", [Isc.Bundle(name)])]);
    var pk := c.packages[0];
    assert [c][..0] == [] && c.packages[..0] == [] && pk.bundles[..0] == [];
    assert Isc.BundleLines(pk.bundles) == [Isc.NameMark + name];
    assert Isc.PackagesLines(c.packages) == [Isc.BundlesMark, Isc.NameMark + name];
    assert Isc.AllLines([c]) == Isc.OperatorLines(c);
  }

  /** One manifest per entry, in order. */
  function Manifests(es: seq<ChannelEntry>): (r: seq<string>)
    ensures |r| == |es|
  {
    if es == [] then [] else Manifests(es[..|es| - 1]) + [Manifest(es[|es| - 1].name)]
  }

  /** What `list_channel_info` reports for one channel: the path, the skip
      ranges, and the manifests it generates when the channel key holds
      the default channel. */
  datatype ChannelReport = ChannelReport(key: string, path: string, skipRanges: string, manifests: seq<string>)

  function Report(start: StartPoint, defaultChannel: string, key: string, entries: seq<ChannelEntry>): Option<ChannelReport> {
    var live :- LiveEntries(start, entries);
    var f := Frontier(live);
    Some(ChannelReport(key, PathText(StartToken(start.text), f), RangesText(f),
                       if Contains(key, defaultChannel) then Manifests(f) else []))
  }

  /** The default channel: that of the first record whose key names a
      package (`None` when it has none: the `unwrap` panics), `""` when no
      key names a package. */
  function DefaultChannel(dc: seq<(string, DeclarativeConfig)>): Option<string> {
    if dc == [] then Some("")
    else if Contains(dc[0].0, "olm.package") then dc[0].1.defaultChannel
    else DefaultChannel(dc[1..])
  }

  /** The first package record decides the default channel. */
  lemma {:induction false} DefaultChannelFirst(dc: seq<(string, DeclarativeConfig)>, i: nat)
    requires i < |dc| && Contains(dc[i].0, "olm.package")
    requires forall j :: 0 <= j < i ==> !Contains(dc[j].0, "olm.package")
    ensures DefaultChannel(dc) == dc[i].1.defaultChannel
    decreases i
  {
    if i > 0 {
      assert !Contains(dc[0].0, "olm.package");
      DefaultChannelFirst(dc[1..], i - 1);
    }
  }

  /** Without a package record the default channel is empty. */
  lemma {:induction false} DefaultChannelAbsent(dc: seq<(string, DeclarativeConfig)>)
    requires forall j :: 0 <= j < |dc| ==> !Contains(dc[j].0, "olm.package")
    ensures DefaultChannel(dc) == Some("")
    decreases |dc|
  {
    if dc != [] {
      assert !Contains(dc[0].0, "olm.package");
      DefaultChannelAbsent(dc[1..]);
    }
  }

  /** The reports of the channel records, in order; `None` when a channel
      has no entries or an entry's version cannot be read. */
  function Reports(start: StartPoint, defaultChannel: string, dc: seq<(string, DeclarativeConfig)>): Option<seq<ChannelReport>> {
    if dc == [] then Some([])
    else
      var init :- Reports(start, defaultChannel, dc[..|dc| - 1]);
      var (k, v) := dc[|dc| - 1];
      if !Contains(k, "olm.channel") then Some(init)
      else
        var es :- v.entries;
        var r :- Report(start, defaultChannel, k, es);
        Some(init + [r])
  }

  /** Once a channel fails, the listing fails whatever follows. */
  lemma {:induction false} ReportsFail(start: StartPoint, d: string, a: seq<(string, DeclarativeConfig)>, b: seq<(string, DeclarativeConfig)>)
    requires Reports(start, d, a).None?
    ensures Reports(start, d, a + b).None?
    decreases |b|
  {
    if b == [] {
      assert a + b == a;
    } else {
      ReportsFail(start, d, a, b[..|b| - 1]);
      assert (a + b)[..|a + b| - 1] == a + b[..|b| - 1];
    }
  }

  /** Only channel records are reported, one report each. */
  lemma {:induction false} ReportsKeys(start: StartPoint, d: string, dc: seq<(string, DeclarativeConfig)>)
    requires Reports(start, d, dc).Some?
    ensures forall r :: r in Reports(start, d, dc).value ==>
              Contains(r.key, "olm.channel") && exists i :: 0 <= i < |dc| && dc[i].0 == r.key
    decreases |dc|
  {
    if dc != [] {
      var init := dc[..|dc| - 1];
      ReportsKeys(start, d, init);
      forall r | r in Reports(start, d, dc).value
        ensures Contains(r.key, "olm.channel") && exists i :: 0 <= i < |dc| && dc[i].0 == r.key
      {
        if r !in Reports(start, d, init).value {
          assert r.key == dc[|dc| - 1].0;
        } else {
          var i :| 0 <= i < |init| && init[i].0 == r.key;
          assert dc[i] == init[i];
        }
      }
    }
  }

  /** What `list_channel_info` reports for an operator's catalog records. */
  function Listing(dc: seq<(string, DeclarativeConfig)>, filter: FilterOperator): Option<seq<ChannelReport>> {
    var start :- Start(filter.fromVersion);
    var d :- DefaultChannel(dc);
    Reports(start, d, dc)
  }

  /** A channel's report: the path is the start token and the frontier
      names, the skip ranges are those of the frontier, and there is one
      manifest per frontier bundle exactly when the key holds the default
      channel; every bundle on the path is live, and neither replaced nor
      skipped by a live bundle. */
  lemma ReportFacts(start: StartPoint, d: string, key: string, es: seq<ChannelEntry>)
    requires Report(start, d, key, es).Some?
    requires '>' !in StartToken(start.text) && forall e :: e in es ==> '>' !in e.name
    requires forall e :: e in es && e.skipRange.Some? ==> ':' !in e.skipRange.value
    ensures var r := Report(start, d, key, es).value;
            var live := LiveEntries(start, es).value;
            && Split(r.path, " -> ") == [StartToken(start.text)] + Names(Frontier(live))
            && Split(r.skipRanges, " : ") == [""] + Ranges(Frontier(live))
            && (|r.manifests| == |Frontier(live)| <==> Contains(key, d) || Frontier(live) == [])
            && forall e :: e in Frontier(live) <==>
                 e in es && EntryVersion(e).Some? && IsLive(start, e)
                 && e.name !in ReplacedNames(live) && e.name !in SkippedNames(live)
  {
    var live := LiveEntries(start, es).value;
    var f := Frontier(live);
    LiveMembers(start, es);
    forall e | e in f ensures e in live {
      FrontierMembers(live, e);
    }
    PathSplit(StartToken(start.text), f);
    RangesSplit(f);
    forall e ensures e in f <==> e in es && EntryVersion(e).Some? && IsLive(start, e)
                                 && e.name !in ReplacedNames(live) && e.name !in SkippedNames(live) {
      FrontierMembers(live, e);
    }
  }

  // ----------------------------------------------------- the loops

  lemma ReplacedSnoc(es: seq<ChannelEntry>, e: ChannelEntry)
    ensures ReplacedList(es + [e]) == ReplacedList(es) + (if e.replaced.Some? then [e.replaced.value] else [])
  {
    assert (es + [e])[..|es|] == es;
  }

  /** The entry loop: `keep` reads each entry's version and compares it
      with the start; the live entries, and the names they replace, are
      put in front. */
  method CollectLive(keep: ChannelEntry -> Option<bool>, es: seq<ChannelEntry>)
    returns (r: Option<(seq<ChannelEntry>, seq<string>)>)
    ensures r.None? <==> Select(keep, es).None?
    ensures r.Some? ==> var live := Select(keep, es).value;
                        r.value == (Reverse(live), Reverse(ReplacedList(live)))
  {
    ghost var live: seq<ChannelEntry> := [];
    var current: seq<ChannelEntry> := [];
    var replace: seq<string> := [];
    var i := 0;
    while i < |es|
      invariant 0 <= i <= |es|
      invariant Select(keep, es[..i]) == Some(live)
      invariant current == Reverse(live)
      invariant replace == Reverse(ReplacedList(live))
    {
      var y := es[i];
      var k := keep(y);
      assert es[..i + 1] == es[..i] + [y];
      SelectStep(keep, es[..i], y);
      if k.None? {
        assert es == es[..i + 1] + es[i + 1..];
        SelectAppend(keep, es[..i + 1], es[i + 1..]);
        return None;
      }
      if k.value {
        current := [y] + current;
        ReverseSnoc(live, y);
        ReplacedSnoc(live, y);
        if y.replaced.Some? {
          replace := [y.replaced.value] + replace;
          ReverseSnoc(ReplacedList(live), y.replaced.value);
        } else {
          assert ReplacedList(live) + [] == ReplacedList(live);
        }
        live := live + [y];
      }
      i := i + 1;
    }
    assert es[..i] == es;
    r := Some((current, replace));
  }

  /** The stage loop: the entries of `current` that nothing in `replace`
      names, put in front one by one. */
  method DropReplaced(current: seq<ChannelEntry>, replace: seq<string>) returns (stage: seq<ChannelEntry>)
    ensures stage == Reverse(Keep(current, set x | x in replace))
  {
    ghost var drop := set x | x in replace;
    stage := [];
    var i := 0;
    while i < |current|
      invariant 0 <= i <= |current|
      invariant stage == Reverse(Keep(current[..i], drop))
    {
      var ce := current[i];
      var found := false;
      var j := 0;
      while j < |replace|
        invariant 0 <= j <= |replace|
        invariant found <==> ce.name in replace[..j]
      {
        if replace[j] == ce.name {
          found := true;
        }
        assert replace[..j + 1] == replace[..j] + [replace[j]];
        j := j + 1;
      }
      assert replace[..j] == replace;
      assert current[..i + 1][..i] == current[..i];
      if !found {
        ReverseSnoc(Keep(current[..i], drop), ce);
        stage := [ce] + stage;
      }
      i := i + 1;
    }
    assert current[..i] == current;
  }

  /** Whether some entry of `current` skips `name`. */
  method IsSkipped(name: string, current: seq<ChannelEntry>) returns (found: bool)
    ensures found <==> name in SkippedNames(current)
  {
    found := false;
    var j := 0;
    while j < |current|
      invariant 0 <= j <= |current|
      invariant found <==> exists c :: c in current[..j] && name in Skips(c)
    {
      var ce := current[j];
      var inner := SkipsName(ce, name);
      assert current[..j + 1] == current[..j] + [ce];
      if inner {
        assert ce in current[..j + 1];
      }
      found := found || inner;
      j := j + 1;
    }
    assert current[..j] == current;
  }

  /** Whether the entry's skip list holds `name`. */
  method SkipsName(ce: ChannelEntry, name: string) returns (inner: bool)
    ensures inner <==> name in Skips(ce)
  {
    inner := false;
    if ce.skips.Some? {
      var sk := ce.skips.value;
      var k := 0;
      while k < |sk|
        invariant 0 <= k <= |sk|
        invariant inner <==> name in sk[..k]
      {
        if sk[k] == name {
          inner := true;
        }
        assert sk[..k + 1] == sk[..k] + [sk[k]];
        k := k + 1;
      }
      assert sk[..k] == sk;
    }
  }

  /** The updated loop: the entries of `stage` that no entry of `current`
      skips, put in front one by one. */
  method DropSkipped(stage: seq<ChannelEntry>, current: seq<ChannelEntry>) returns (updated: seq<ChannelEntry>)
    ensures updated == Reverse(Keep(stage, SkippedNames(current)))
  {
    updated := [];
    var i := 0;
    while i < |stage|
      invariant 0 <= i <= |stage|
      invariant updated == Reverse(Keep(stage[..i], SkippedNames(current)))
    {
      var n := stage[i];
      var found := IsSkipped(n.name, current);
      assert stage[..i + 1][..i] == stage[..i];
      if !found {
        ReverseSnoc(Keep(stage[..i], SkippedNames(current)), n);
        updated := [n] + updated;
      }
      i := i + 1;
    }
    assert stage[..i] == stage;
  }

  lemma RangesSnoc(es: seq<ChannelEntry>, e: ChannelEntry)
    ensures RangesText(es + [e]) == RangesText(es) + if e.skipRange.Some? then " : " + e.skipRange.value else ""
  {
    assert (es + [e])[..|es|] == es;
    var rs := Ranges(es);
    if e.skipRange.Some? {
      assert (rs + [e.skipRange.value])[..|rs|] == rs;
    } else {
      assert rs + [] == rs;
    }
  }

  lemma PathSnoc(token: string, es: seq<ChannelEntry>, e: ChannelEntry)
    ensures PathText(token, es + [e]) == PathText(token, es) + " -> " + e.name
  {
    assert (es + [e])[..|es|] == es;
    var ns := Names(es);
    assert Names(es + [e]) == ns + [e.name];
    assert (ns + [e.name])[..|ns|] == ns;
  }

  lemma ManifestsSnoc(es: seq<ChannelEntry>, e: ChannelEntry)
    ensures Manifests(es + [e]) == Manifests(es) + [Manifest(e.name)]
  {
    assert (es + [e])[..|es|] == es;
  }

  /** The ImageSetConfiguration of one bundle, built by pushing a bundle
      into a default package, the package into a default catalog and the
      catalog into a new configuration, then written out. */
  method BundleManifest(name: string) returns (yaml: string)
    ensures yaml == Manifest(name)
  {
    var isc := Isc.New();
    var package := Isc.Package("", []);
    package := package.(bundles := package.bundles + [Isc.Bundle(name)]);
    var catalog := Isc.Catalog([]);
    catalog := catalog.(packages := catalog.packages + [package]);
    isc := isc.(operators := isc.operators + [catalog]);
    assert package == Isc.Package("", [Isc.Bundle(name)]);
    assert catalog == Isc.Catalog([package]);
    assert isc.operators == [catalog];
    yaml := Isc.ToYaml(isc);
  }

  /** One frontier entry: its name extends the path, its skip range (if
      any) the skip-range text, and its manifest the manifests. */
  method RenderEntry(token: string, ghost done: seq<ChannelEntry>, p: ChannelEntry, generate: bool,
                     path: string, skipRange: string, manifests: seq<string>)
    returns (path': string, skipRange': string, manifests': seq<string>)
    requires path == PathText(token, done) && skipRange == RangesText(done)
    requires manifests == if generate then Manifests(done) else []
    ensures path' == PathText(token, done + [p]) && skipRange' == RangesText(done + [p])
    ensures manifests' == if generate then Manifests(done + [p]) else []
  {
    PathSnoc(token, done, p);
    path' := path + " -> " + p.name;
    RangesSnoc(done, p);
    skipRange' := skipRange;
    if p.skipRange.Some? {
      skipRange' := skipRange + " : " + p.skipRange.value;
    }
    manifests' := manifests;
    if generate {
      var yaml := BundleManifest(p.name);
      ManifestsSnoc(done, p);
      manifests' := manifests + [yaml];
    }
  }

  /** The path, skip-range and manifest loop over the frontier. */
  method RenderChannel(startText: string, updated: seq<ChannelEntry>, key: string, defaultChannel: string)
    returns (path: string, skipRange: string, manifests: seq<string>)
    ensures path == PathText(StartToken(startText), updated)
    ensures skipRange == RangesText(updated)
    ensures manifests == if Contains(key, defaultChannel) then Manifests(updated) else []
  {
    path := startText;
    if startText == "0.0.0" {
      path := "?";
    }
    skipRange := "";
    manifests := [];
    var generate := Contains(key, defaultChannel);
    assert updated[..0] == [];
    assert path == PathText(StartToken(startText), []);
    assert skipRange == RangesText([]) && Manifests([]) == [];
    var i := 0;
    while i < |updated|
      invariant 0 <= i <= |updated|
      invariant path == PathText(StartToken(startText), updated[..i])
      invariant skipRange == RangesText(updated[..i])
      invariant manifests == if generate then Manifests(updated[..i]) else []
    {
      assert updated[..i + 1] == updated[..i] + [updated[i]];
      path, skipRange, manifests :=
        RenderEntry(StartToken(startText), updated[..i], updated[i], generate, path, skipRange, manifests);
      i := i + 1;
    }
    assert updated[..i] == updated;
  }

  /** The default-channel loop, stopping at the first package record. */
  method PickDefaultChannel(dc: seq<(string, DeclarativeConfig)>) returns (r: Option<string>)
    ensures r == DefaultChannel(dc)
  {
    var i := 0;
    while i < |dc|
      invariant 0 <= i <= |dc|
      invariant DefaultChannel(dc[i..]) == DefaultChannel(dc)
    {
      if Contains(dc[i].0, "olm.package") {
        return dc[i].1.defaultChannel;
      }
      assert dc[i..][1..] == dc[i + 1..];
      i := i + 1;
    }
    r := Some("");
  }

  /** The replaced names the stage loop drops are those of the live entries. */
  lemma ReplaceSet(live: seq<ChannelEntry>)
    ensures (set x | x in Reverse(ReplacedList(live))) == ReplacedNames(live)
  {
    ReverseIn(ReplacedList(live));
    ReplacedListNames(live);
  }

  /** `list_channel_info`: the report of every channel record of the
      operator's catalog, in the order of `dc`. */
  method ListChannelInfo(dc: seq<(string, DeclarativeConfig)>, filter: FilterOperator)
    returns (r: Option<seq<ChannelReport>>)
    ensures r == Listing(dc, filter)
  {
    var start := Start(filter.fromVersion);
    if start.None? {
      return None;
    }
    var d := PickDefaultChannel(dc);
    if d.None? {
      return None;
    }
    r := ListChannels(start.value, d.value, dc);
  }

  lemma ReportsSnoc(start: StartPoint, d: string, dc: seq<(string, DeclarativeConfig)>,
                    k: string, v: DeclarativeConfig, o: Option<ChannelReport>)
    requires Reports(start, d, dc).Some?
    requires Contains(k, "olm.channel") ==>
               o == if v.entries.None? then None else Report(start, d, k, v.entries.value)
    ensures Reports(start, d, dc + [(k, v)]) ==
              if !Contains(k, "olm.channel") then Reports(start, d, dc)
              else if o.None? then None
              else Some(Reports(start, d, dc).value + [o.value])
  {
    assert (dc + [(k, v)])[..|dc|] == dc;
  }

  /** The three passes and the rendering for one channel record. */
  method ReportChannel(start: StartPoint, d: string, k: string, entries: Option<seq<ChannelEntry>>)
    returns (r: Option<ChannelReport>)
    ensures r == if entries.None? then None else Report(start, d, k, entries.value)
  {
    if entries.None? {
      return None;
    }
    var collected := CollectLive(Reader(start), entries.value);
    if collected.None? {
      return None;
    }
    var (current, replace) := collected.value;
    var stage := DropReplaced(current, replace);
    var updated := DropSkipped(stage, current);
    ghost var live := LiveEntries(start, entries.value).value;
    ReplaceSet(live);
    PassesGiveFrontier(live);
    var path, skipRange, manifests := RenderChannel(start.text, updated, k, d);
    r := Some(ChannelReport(k, path, skipRange, manifests));
  }

  /** The channel loop over the catalog records. */
  method ListChannels(start: StartPoint, d: string, dc: seq<(string, DeclarativeConfig)>)
    returns (r: Option<seq<ChannelReport>>)
    ensures r == Reports(start, d, dc)
  {
    var reports: seq<ChannelReport> := [];
    var i := 0;
    while i < |dc|
      invariant 0 <= i <= |dc|
      invariant Reports(start, d, dc[..i]) == Some(reports)
    {
      var (k, v) := dc[i];
      assert dc[..i + 1] == dc[..i] + [(k, v)];
      if Contains(k, "olm.channel") {
        var out := ReportChannel(start, d, k, v.entries);
        ReportsSnoc(start, d, dc[..i], k, v, out);
        if out.None? {
          assert dc == dc[..i + 1] + dc[i + 1..];
          ReportsFail(start, d, dc[..i + 1], dc[i + 1..]);
          return None;
        }
        reports := reports + [out.value];
      } else {
        ReportsSnoc(start, d, dc[..i], k, v, None);
      }
      i := i + 1;
    }
    assert dc[..i] == dc;
    r := Some(reports);
  }
}
