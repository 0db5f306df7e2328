/** Versions as the `semver` crate (Semantic Versioning 2.0.0) has them:
    the strict `Version::parse` grammar, `Prerelease::new`, the integer parse
    `str::parse::<u64>` that the heuristic parser uses, and the precedence
    order (`Ord for Version`). A `Version` here holds the fields that
    decide precedence; the build metadata, which `Ord for Version` only
    consults as a final tie-break, is kept apart as its text. */
module Semver {
  import opened Wrappers
  import opened Text

  /** Exclusive upper bound of `u64`. */
  const U64Bound: nat := 0x1_0000_0000_0000_0000

  /** `major.minor.patch[-pre]`; `pre == []` is `Prerelease::EMPTY`. */
  datatype Version = Version(major: nat, minor: nat, patch: nat, pre: seq<string>)

  /** `0.0.0`, the default starting point of an upgrade path. */
  const Zero := Version(0, 0, 0, [])

  // ---------------------------------------------------------------- numbers

  predicate IsDigit(c: char) { '0' <= c <= '9' }

  predicate AllDigits(s: string) {
    forall i :: 0 <= i < |s| ==> IsDigit(s[i])
  }

  function DigitValue(c: char): (r: nat)
    requires IsDigit(c)
    ensures r < 10
  {
    c as int - '0' as int
  }

  function DigitChar(d: nat): (c: char)
    requires d < 10
    ensures IsDigit(c) && DigitValue(c) == d
  {
    (d + '0' as int) as char
  }

  /** The value of a string of decimal digits, most significant first. */
  function DigitsValue(s: string): nat
    requires AllDigits(s)
  {
    if s == [] then 0 else DigitsValue(s[..|s| - 1]) * 10 + DigitValue(s[|s| - 1])
  }

  /** Canonical decimal rendering: digits, no leading zero. */
  function Decimal(n: nat): (r: string)
    ensures |r| >= 1 && AllDigits(r) && DigitsValue(r) == n
    ensures |r| > 1 ==> r[0] != '0'
  {
    if n < 10 then [DigitChar(n)]
    else
      var r := Decimal(n / 10) + [DigitChar(n % 10)];
      assert r[..|r| - 1] == Decimal(n / 10);
      r
  }

  /** `str::parse::<u64>()`: an optional `+`, then at least one decimal
      digit (leading zeros allowed), with a value that fits in 64 bits. */
  function ParseU64(s: string): (r: Option<nat>)
    ensures r.Some? ==> r.value < U64Bound
  {
    var digits := if |s| > 0 && s[0] == '+' then s[1..] else s;
    if digits == [] || !AllDigits(digits) || DigitsValue(digits) >= U64Bound then None
    else Some(DigitsValue(digits))
  }

  /** A numeric field of a strict version: digits without a leading zero
      (except `0` itself), fitting in 64 bits. */
  function ParseNumeric(s: string): (r: Option<nat>)
    ensures r.Some? ==> r.value < U64Bound
  {
    if s == [] || !AllDigits(s) || (|s| > 1 && s[0] == '0') || DigitsValue(s) >= U64Bound then None
    else Some(DigitsValue(s))
  }

  lemma {:induction false} LeadingDigitPositive(s: string)
    requires s != [] && AllDigits(s) && s[0] != '0'
    ensures DigitsValue(s) >= 1
    decreases |s|
  {
    if |s| > 1 {
      LeadingDigitPositive(s[..|s| - 1]);
    }
  }

  /** Digits without a leading zero are the decimal rendering of their value. */
  lemma {:induction false} CanonicalDigits(s: string)
    requires s != [] && AllDigits(s) && (|s| > 1 ==> s[0] != '0')
    ensures s == Decimal(DigitsValue(s))
    decreases |s|
  {
    if |s| > 1 {
      var init := s[..|s| - 1];
      LeadingDigitPositive(init);
      CanonicalDigits(init);
      assert s == init + [s[|s| - 1]];
    }
  }

  /** The strict numeric grammar accepts exactly the canonical decimals. */
  lemma NumericIsDecimal(s: string, n: nat)
    ensures ParseNumeric(s) == Some(n) <==> s == Decimal(n) && n < U64Bound
  {
    if ParseNumeric(s) == Some(n) {
      CanonicalDigits(s);
    }
  }

  /** Rendering then parsing a 64-bit value gives it back (the `+` and
      leading zeros the integer parser tolerates are never produced). */
  lemma U64RoundTrip(n: nat)
    requires n < U64Bound
    ensures ParseU64(Decimal(n)) == Some(n)
  {
  }

  // ---------------------------------------------------- prerelease idents

  predicate IdentChar(c: char) {
    ('a' <= c <= 'z') || ('A' <= c <= 'Z') || IsDigit(c) || c == '-'
  }

  /** A non-empty run of `[0-9A-Za-z-]`. */
  predicate ValidIdent(id: string) {
    id != [] && forall i :: 0 <= i < |id| ==> IdentChar(id[i])
  }

  /** A prerelease identifier: numeric ones carry no leading zero. */
  predicate ValidPreIdent(id: string) {
    ValidIdent(id) && (AllDigits(id) && |id| > 1 ==> id[0] != '0')
  }

  /** `Prerelease::new`: the empty string, or dot-separated valid identifiers. */
  function ParsePrerelease(s: string): (r: Option<seq<string>>)
    ensures r.Some? ==> forall id :: id in r.value ==> ValidPreIdent(id)
    ensures r == Some([]) <==> s == []
  {
    if s == [] then Some([])
    else
      var ids := Split(s, ".");
      if forall id :: id in ids ==> ValidPreIdent(id) then Some(ids) else None
  }

  /** The text of a prerelease: its identifiers joined by `.`. */
  function PreText(pre: seq<string>): string {
    if pre == [] then "" else Join(pre, ".")
  }

  lemma PrereleaseRoundTrip(pre: seq<string>)
    requires forall id :: id in pre ==> ValidPreIdent(id)
    ensures ParsePrerelease(PreText(pre)) == Some(pre)
  {
    if pre != [] {
      forall id | id in pre ensures "."[0] !in id {
        assert ValidIdent(id);
      }
      SplitOfJoin(pre, ".", 0);
      assert PreText(pre) != [] by {
        assert pre[0] in pre;
        JoinStartsWith(pre, ".");
      }
    }
  }

  lemma JoinStartsWith(pieces: seq<string>, sep: string)
    requires |pieces| >= 1
    ensures pieces[0] <= Join(pieces, sep)
  {
  }

  // --------------------------------------------------- strict Version::parse

  /** Build metadata: dot-separated non-empty `[0-9A-Za-z-]` identifiers. */
  predicate ValidBuild(b: string) {
    b != [] && forall id :: id in Split(b, ".") ==> ValidIdent(id)
  }

  /** The text before the first `+`, provided what follows it is valid
      build metadata. */
  function StripBuild(s: string): (r: Option<string>)
    ensures r.Some? ==> r.value <= s
  {
    var main := Split(s, "+")[0];
    if Contains(s, "+") && !ValidBuild(s[|main| + 1..]) then None else Some(main)
  }

  /** `MAJOR.MINOR.PATCH` split from an optional `-PRERELEASE`. */
  function SplitPre(main: string): (r: Option<(string, seq<string>)>)
    ensures r.Some? ==> forall id :: id in r.value.1 ==> ValidPreIdent(id)
  {
    var core := Split(main, "-")[0];
    if !Contains(main, "-") then Some((core, []))
    else if |main| == |core| + 1 then None
    else
      var pre :- ParsePrerelease(main[|core| + 1..]);
      Some((core, pre))
  }

  /** Exactly three strict numeric fields separated by `.`. */
  function ParseCore(core: string): (r: Option<(nat, nat, nat)>)
    ensures r.Some? ==> r.value.0 < U64Bound && r.value.1 < U64Bound && r.value.2 < U64Bound
  {
    var nums := Split(core, ".");
    if |nums| != 3 then None
    else
      var major :- ParseNumeric(nums[0]);
      var minor :- ParseNumeric(nums[1]);
      var patch :- ParseNumeric(nums[2]);
      Some((major, minor, patch))
  }

  /** `Version::parse`: `MAJOR.MINOR.PATCH`, an optional `-PRERELEASE` and
      an optional `+BUILD`, nothing else. The build metadata is checked and
      dropped. */
  function ParseVersion(s: string): (r: Option<Version>)
    ensures r.Some? ==> WellFormed(r.value)
  {
    var main :- StripBuild(s);
    var split :- SplitPre(main);
    var nums :- ParseCore(split.0);
    Some(Version(nums.0, nums.1, nums.2, split.1))
  }

  /** A version `Version::parse` can produce. */
  predicate WellFormed(v: Version) {
    && v.major < U64Bound && v.minor < U64Bound && v.patch < U64Bound
    && forall id :: id in v.pre ==> ValidPreIdent(id)
  }

  /** The `Display` text of a version (without build metadata). */
  function Render(v: Version): string {
    Decimal(v.major) + "." + Decimal(v.minor) + "." + Decimal(v.patch)
    + (if v.pre == [] then "" else "-" + PreText(v.pre))
  }

  /** The core text `MAJOR.MINOR.PATCH`. */
  function CoreText(v: Version): string {
    Decimal(v.major) + "." + Decimal(v.minor) + "." + Decimal(v.patch)
  }

  lemma SplitCore(v: Version)
    ensures Split(CoreText(v), ".") == [Decimal(v.major), Decimal(v.minor), Decimal(v.patch)]
  {
    var d1, d2, d3 := Decimal(v.major), Decimal(v.minor), Decimal(v.patch);
    var ps := [d1, d2, d3];
    forall p | p in ps ensures "."[0] !in p {
      DecimalAvoids(if p == d1 then v.major else if p == d2 then v.minor else v.patch, '.');
    }
    assert ps[1..][1..] == [d3];
    assert Join(ps[1..], ".") == d2 + "." + d3;
    assert Join(ps, ".") == d1 + "." + (d2 + "." + d3);
    assert CoreText(v) == d1 + "." + (d2 + "." + d3);
    SplitOfJoin(ps, ".", 0);
  }

  lemma DecimalAvoids(n: nat, c: char)
    requires !IsDigit(c)
    ensures c !in Decimal(n)
  {
    var d := Decimal(n);
    assert forall i :: 0 <= i < |d| ==> IsDigit(d[i]);
  }

  lemma CoreAvoids(v: Version, c: char)
    requires !IsDigit(c) && c != '.'
    ensures c !in CoreText(v)
  {
    DecimalAvoids(v.major, c);
    DecimalAvoids(v.minor, c);
    DecimalAvoids(v.patch, c);
  }

  /** A join avoids a character that neither its pieces nor its separator hold. */
  lemma {:induction false} JoinAvoids(pieces: seq<string>, sep: string, c: char)
    requires |pieces| >= 1 && c !in sep
    requires forall id :: id in pieces ==> c !in id
    ensures c !in Join(pieces, sep)
    decreases |pieces|
  {
    assert pieces[0] in pieces;
    if |pieces| > 1 {
      JoinAvoids(pieces[1..], sep, c);
    }
  }

  lemma PreAvoidsPlus(pre: seq<string>)
    requires forall id :: id in pre ==> ValidPreIdent(id)
    ensures '+' !in PreText(pre)
  {
    if pre != [] {
      forall id | id in pre ensures '+' !in id {
        assert ValidIdent(id);
        assert forall i :: 0 <= i < |id| ==> IdentChar(id[i]);
      }
      JoinAvoids(pre, ".", '+');
    }
  }

  lemma ParseCoreText(v: Version)
    requires WellFormed(v)
    ensures ParseCore(CoreText(v)) == Some((v.major, v.minor, v.patch))
  {
    SplitCore(v);
    NumericIsDecimal(Decimal(v.major), v.major);
    NumericIsDecimal(Decimal(v.minor), v.minor);
    NumericIsDecimal(Decimal(v.patch), v.patch);
  }

  lemma SplitPreOf(v: Version)
    requires WellFormed(v)
    ensures SplitPre(Render(v)) == Some((CoreText(v), v.pre))
  {
    var s := Render(v);
    var core := CoreText(v);
    CoreAvoids(v, '-');
    if v.pre == [] {
      assert s == core;
      NotContainsWithout(core, "-", 0);
    } else {
      var p := PreText(v.pre);
      PrereleaseRoundTrip(v.pre);
      assert s == core + "-" + p;
      SplitHead(core, "-", p, 0);
      ContainsAt(s, "-", |core|);
      assert |p| > 0 by {
        JoinStartsWith(v.pre, ".");
        assert v.pre[0] in v.pre;
        assert ValidIdent(v.pre[0]);
      }
      assert s[|core| + 1..] == p;
    }
  }

  lemma StripBuildOf(v: Version)
    requires WellFormed(v)
    ensures StripBuild(Render(v)) == Some(Render(v))
  {
    var s := Render(v);
    CoreAvoids(v, '+');
    PreAvoidsPlus(v.pre);
    assert '+' !in s;
    NotContainsWithout(s, "+", 0);
  }

  /** Parsing the rendering of a well-formed version gives it back. */
  lemma ParseRender(v: Version)
    requires WellFormed(v)
    ensures ParseVersion(Render(v)) == Some(v)
  {
    var s := Render(v);
    StripBuildOf(v);
    SplitPreOf(v);
    ParseCoreText(v);
  }

  lemma CoreOfParse(core: string)
    requires ParseCore(core).Some?
    ensures var n := ParseCore(core).value; core == CoreText(Version(n.0, n.1, n.2, []))
  {
    var nums := Split(core, ".");
    CoreFields(core);
    SplitJoin(core, ".");
    JoinThree(nums, ".");
  }

  /** The three fields of a parsed core are the canonical decimals of its numbers. */
  lemma CoreFields(core: string)
    requires ParseCore(core).Some?
    ensures var n := ParseCore(core).value;
            Split(core, ".") == [Decimal(n.0), Decimal(n.1), Decimal(n.2)]
  {
    var nums := Split(core, ".");
    var n := ParseCore(core).value;
    assert |nums| == 3;
    NumericIsDecimal(nums[0], n.0);
    NumericIsDecimal(nums[1], n.1);
    NumericIsDecimal(nums[2], n.2);
  }

  lemma JoinThree(ps: seq<string>, sep: string)
    requires |ps| == 3
    ensures Join(ps, sep) == ps[0] + sep + ps[1] + sep + ps[2]
  {
    assert ps[1..][1..] == [ps[2]];
    assert Join(ps[1..], sep) == ps[1] + sep + ps[2];
  }

  lemma MainOfSplitPre(main: string)
    requires SplitPre(main).Some?
    ensures var r := SplitPre(main).value; main == r.0 + (if r.1 == [] then "" else "-" + PreText(r.1))
  {
    if Contains(main, "-") {
      MainWithPre(main);
    } else {
      assert Split(main, "-") == [main];
    }
  }

  lemma MainWithPre(main: string)
    requires SplitPre(main).Some? && Contains(main, "-")
    ensures var r := SplitPre(main).value; r.1 != [] && main == r.0 + "-" + PreText(r.1)
  {
    var core := Split(main, "-")[0];
    var rest := main[|core| + 1..];
    var r := SplitPre(main).value;
    assert rest != [] && ParsePrerelease(rest) == Some(r.1) && r.0 == core;
    MainAroundDash(main);
    PreTextOfParse(rest);
  }

  /** The text around the first `-`. */
  lemma MainAroundDash(main: string)
    requires Contains(main, "-")
    ensures var core := Split(main, "-")[0];
            |core| < |main| && main == core + "-" + main[|core| + 1..]
  {
    var core := Split(main, "-")[0];
    assert OccursAt(main, "-", |core|);
    assert main[..|core|] == core;
  }

  lemma PreTextOfParse(rest: string)
    requires rest != [] && ParsePrerelease(rest).Some?
    ensures PreText(ParsePrerelease(rest).value) == rest
  {
    SplitJoin(rest, ".");
  }

  /** Conversely, a string without build metadata that parses is the
      rendering of its version: the strict grammar has one spelling per
      version. */
  lemma RenderParse(s: string)
    requires ParseVersion(s).Some? && '+' !in s
    ensures Render(ParseVersion(s).value) == s
  {
    NotContainsWithout(s, "+", 0);
    var split := SplitPre(s).value;
    MainOfSplitPre(s);
    CoreOfParse(split.0);
  }

  // ------------------------------------------------------------ precedence

  function CmpNat(a: nat, b: nat): Ordering {
    if a < b then Less else if a > b then Greater else Equal
  }

  /** One prerelease identifier against another: numeric identifiers by
      length and then text (their numeric order), numeric below
      alphanumeric, alphanumeric ones lexically. */
  function IdentCmp(a: string, b: string): (r: Ordering)
    ensures r == Equal <==> a == b
  {
    var an, bn := AllDigits(a), AllDigits(b);
    if an && bn then LenAlphaCmp(a, b)
    else if an then Less
    else if bn then Greater
    else LexCmp(a, b)
  }

  /** Identifier by identifier; a longer list that agrees on the shorter
      one's identifiers is greater. */
  function IdentsCmp(a: seq<string>, b: seq<string>): (r: Ordering)
    ensures r == Equal <==> a == b
  {
    if a == [] then (if b == [] then Equal else Less)
    else if b == [] then Greater
    else
      var r := IdentCmp(a[0], b[0]).Then(IdentsCmp(a[1..], b[1..]));
      assert a == [a[0]] + a[1..] && b == [b[0]] + b[1..];
      r
  }

  /** `Ord for Prerelease`: no prerelease is above every prerelease. */
  function PreCmp(a: seq<string>, b: seq<string>): (r: Ordering)
    ensures r == Equal <==> a == b
    ensures a == [] && b != [] ==> r == Greater
  {
    if a == [] && b == [] then Equal
    else if a == [] then Greater
    else if b == [] then Less
    else IdentsCmp(a, b)
  }

  /** SemVer precedence (section 11 of Semantic Versioning 2.0.0). */
  function VersionCmp(a: Version, b: Version): (r: Ordering)
    ensures r == Equal <==> a == b
    ensures a.major < b.major ==> r == Less
    ensures a.major == b.major && a.minor < b.minor ==> r == Less
    ensures a.major == b.major && a.minor == b.minor && a.patch < b.patch ==> r == Less
    ensures a.major == b.major && a.minor == b.minor && a.patch == b.patch && a.pre == [] && b.pre != [] ==> r == Greater
  {
    CmpNat(a.major, b.major).Then(CmpNat(a.minor, b.minor)).Then(CmpNat(a.patch, b.patch)).Then(PreCmp(a.pre, b.pre))
  }

  lemma IdentFlip(a: string, b: string)
    ensures IdentCmp(b, a) == IdentCmp(a, b).Flip()
  {
    LenAlphaFlip(a, b);
    LexFlip(a, b);
  }

  lemma IdentTrans(a: string, b: string, c: string)
    requires IdentCmp(a, b) != Greater && IdentCmp(b, c) != Greater
    ensures IdentCmp(a, c) != Greater
  {
    if AllDigits(a) && AllDigits(b) && AllDigits(c) {
      LenAlphaTrans(a, b, c);
    } else if !AllDigits(a) && !AllDigits(b) && !AllDigits(c) {
      LexTrans(a, b, c);
    }
  }

  lemma {:induction false} IdentsFlip(a: seq<string>, b: seq<string>)
    ensures IdentsCmp(b, a) == IdentsCmp(a, b).Flip()
  {
    if a != [] && b != [] {
      IdentFlip(a[0], b[0]);
      IdentsFlip(a[1..], b[1..]);
    }
  }

  lemma {:induction false} IdentsTrans(a: seq<string>, b: seq<string>, c: seq<string>)
    requires IdentsCmp(a, b) != Greater && IdentsCmp(b, c) != Greater
    ensures IdentsCmp(a, c) != Greater
  {
    if a != [] && b != [] && c != [] {
      IdentTrans(a[0], b[0], c[0]);
      if a[0] == b[0] == c[0] {
        IdentsTrans(a[1..], b[1..], c[1..]);
      } else if a[0] == c[0] {
        IdentFlip(a[0], b[0]);
      }
    }
  }

  lemma PreFlip(a: seq<string>, b: seq<string>)
    ensures PreCmp(b, a) == PreCmp(a, b).Flip()
  {
    IdentsFlip(a, b);
  }

  lemma PreTrans(a: seq<string>, b: seq<string>, c: seq<string>)
    requires PreCmp(a, b) != Greater && PreCmp(b, c) != Greater
    ensures PreCmp(a, c) != Greater
  {
    if a != [] && b != [] && c != [] {
      IdentsTrans(a, b, c);
    }
  }

  /** Precedence is antisymmetric. */
  lemma VersionFlip(a: Version, b: Version)
    ensures VersionCmp(b, a) == VersionCmp(a, b).Flip()
  {
    PreFlip(a.pre, b.pre);
  }

  /** Precedence is transitive. */
  lemma VersionTrans(a: Version, b: Version, c: Version)
    requires VersionCmp(a, b) != Greater && VersionCmp(b, c) != Greater
    ensures VersionCmp(a, c) != Greater
  {
    if a.major == b.major == c.major && a.minor == b.minor == c.minor && a.patch == b.patch == c.patch {
      PreTrans(a.pre, b.pre, c.pre);
    }
  }

  // ------------------------------------------------------ build metadata

  /** The build metadata text of `s` (after the first `+`), `""` when there
      is none, as `Version::parse` stores it. */
  function BuildText(s: string): (r: string)
    ensures !Contains(s, "+") ==> r == ""
    ensures Contains(s, "+") && ParseVersion(s).Some? ==> ValidBuild(r)
  {
    if Contains(s, "+") then s[|Split(s, "+")[0]| + 1..] else ""
  }

  /** The digits of a numeric identifier without its leading zeros. */
  function TrimZeros(s: string): (r: string)
    ensures |r| <= |s|
  {
    if s != [] && s[0] == '0' then TrimZeros(s[1..]) else s
  }

  /** A string is the zeros `TrimZeros` drops followed by what it keeps. */
  lemma {:induction false} TrimZerosSplit(s: string)
    ensures s[|s| - |TrimZeros(s)|..] == TrimZeros(s)
    ensures forall i :: 0 <= i < |s| - |TrimZeros(s)| ==> s[i] == '0'
    decreases |s|
  {
    if s != [] && s[0] == '0' {
      TrimZerosSplit(s[1..]);
    }
  }

  /** Equal length and equal significant digits make equal identifiers. */
  lemma SameTrimmed(a: string, b: string)
    ensures |a| == |b| && TrimZeros(a) == TrimZeros(b) ==> a == b
  {
    if |a| == |b| && TrimZeros(a) == TrimZeros(b) {
      TrimZerosSplit(a);
      TrimZerosSplit(b);
      var k := |a| - |TrimZeros(a)|;
      assert a == a[..k] + a[k..] && b == b[..k] + b[k..];
      assert a[..k] == b[..k];
    }
  }

  /** One build identifier against another (`Ord for BuildMetadata`):
      numeric ones by value, then by their count of leading zeros;
      numeric below alphanumeric; alphanumeric ones lexically. */
  function BuildIdentCmp(a: string, b: string): (r: Ordering)
    ensures r == Equal <==> a == b
  {
    var an, bn := AllDigits(a), AllDigits(b);
    if an && bn then
      var ta, tb := TrimZeros(a), TrimZeros(b);
      var r := CmpNat(|ta|, |tb|).Then(LexCmp(ta, tb)).Then(CmpNat(|a|, |b|));
      SameTrimmed(a, b);
      r
    else if an then Less
    else if bn then Greater
    else LexCmp(a, b)
  }

  /** Identifier by identifier; a longer list that agrees on the shorter
      one's identifiers is greater. */
  function BuildIdentsCmp(a: seq<string>, b: seq<string>): (r: Ordering)
    ensures r == Equal <==> a == b
  {
    if a == [] then (if b == [] then Equal else Less)
    else if b == [] then Greater
    else
      var r := BuildIdentCmp(a[0], b[0]).Then(BuildIdentsCmp(a[1..], b[1..]));
      assert a == [a[0]] + a[1..] && b == [b[0]] + b[1..];
      r
  }

  /** `Ord for BuildMetadata`, over the text split at `.`; the empty
      metadata is the single empty identifier. */
  function BuildCmp(a: string, b: string): (r: Ordering)
    ensures r == Equal <==> a == b
  {
    var r := BuildIdentsCmp(Split(a, "."), Split(b, "."));
    SplitJoin(a, ".");
    SplitJoin(b, ".");
    r
  }

  /** Any build metadata is above none. */
  lemma BuildAboveEmpty(b: string)
    requires b != ""
    requires forall id :: id in Split(b, ".") ==> ValidIdent(id)
    ensures BuildCmp(b, "") == Greater
  {
    var ids := Split(b, ".");
    assert ids[0] in ids;
    assert Split("", ".") == [""] by {
      NotContainsWithout("", ".", 0);
    }
  }

  /** `Ord for Version`: precedence, then build metadata. */
  function FullCmp(a: Version, ab: string, b: Version, bb: string): (r: Ordering)
    ensures r == Equal <==> a == b && ab == bb
    ensures VersionCmp(a, b) != Equal ==> r == VersionCmp(a, b)
  {
    VersionCmp(a, b).Then(BuildCmp(ab, bb))
  }

  /** Against a version without build metadata, `Ord for Version` says
      "not greater" exactly when precedence is lower, or equal and the
      first version has no build metadata either. */
  lemma NotGreaterThanPlain(a: Version, ab: string, b: Version)
    requires ab == "" || ValidBuild(ab)
    ensures FullCmp(a, ab, b, "") != Greater <==>
            VersionCmp(a, b) == Less || (VersionCmp(a, b) == Equal && ab == "")
  {
    if ab != "" {
      BuildAboveEmpty(ab);
    }
  }
}
