/** The ImageSetConfiguration emitter (`IscV3Alpha1` in src/isc/generate.rs):
    a fixed header followed by the operator, package and bundle entries,
    written by appending text in three nested loops. */
module Isc {
  import opened Text

  datatype Bundle = Bundle(name: string)
  datatype Package = Package(name: string, bundles: seq<Bundle>)
  datatype Catalog = Catalog(packages: seq<Package>)
  datatype IscV3Alpha1 = IscV3Alpha1(apiVersion: string, operators: seq<Catalog>)

  /** `IscV3Alpha1::new`. */
  function New(): (r: IscV3Alpha1)
    ensures r.apiVersion == "v3alpha1" && r.operators == []
  {
    IscV3Alpha1("v3alpha1", [])
  }

  /** The name the header records as the document's author. */
  const Tool := "rust-catalog-introspection-tool"

  /** The lines of the fixed header; the annotations line keeps its
      trailing space. */
  function HeaderLines(apiVersion: string): seq<string> {
    ["", "---", "apiVersion: mirror.openshift/" + apiVersion, "kind: ImageSetConfiguration",
     "metadata:", "  name: ImageSetConfiguration", "  annotations: ",
     "    autogenerated: '" + Tool + "'", "mirror:", "  operators:"]
  }

  /** The fixed header: its lines, each ended by a newline. */
  function Header(apiVersion: string): string {
    Join(HeaderLines(apiVersion), "\n") + "\n"
  }

  const PackagesMark := "  - packages:"
  const BundlesMark := "      - bundles:"
  const NameMark := "        - name: "

  /** One `"\n        - name: " + name` per bundle, in order. */
  function BundlesText(bs: seq<Bundle>): string {
    if bs == [] then ""
    else BundlesText(bs[..|bs| - 1]) + "\n" + NameMark + bs[|bs| - 1].name
  }

  /** One `"\n      - bundles:"` per package followed by its bundles; the
      package name is not written. */
  function PackagesText(ps: seq<Package>): string {
    if ps == [] then ""
    else PackagesText(ps[..|ps| - 1]) + "\n" + BundlesMark + BundlesText(ps[|ps| - 1].bundles)
  }

  /** The block of one operator. */
  function OperatorText(c: Catalog): string {
    PackagesMark + PackagesText(c.packages)
  }

  /** The operator blocks as `to_yaml` writes them: one after another with
      nothing between them. */
  function OperatorsText(os: seq<Catalog>): string {
    if os == [] then "" else OperatorsText(os[..|os| - 1]) + OperatorText(os[|os| - 1])
  }

  /** The document `to_yaml` returns, as written. */
  function Yaml(isc: IscV3Alpha1): string {
    Header(isc.apiVersion) + OperatorsText(isc.operators)
  }

  /** The operator blocks separated by a newline, which the YAML layout
      calls for. */
  function OperatorsSeparated(os: seq<Catalog>): string {
    if os == [] then ""
    else if |os| == 1 then OperatorText(os[0])
    else OperatorsSeparated(os[..|os| - 1]) + "\n" + OperatorText(os[|os| - 1])
  }

  /** The document with each operator block on lines of its own. */
  function YamlSeparated(isc: IscV3Alpha1): string {
    Header(isc.apiVersion) + OperatorsSeparated(isc.operators)
  }

  /** The bundle loop of `to_yaml`. */
  method AppendBundles(body: string, bs: seq<Bundle>) returns (r: string)
    ensures r == body + BundlesText(bs)
  {
    r := body;
    var k := 0;
    while k < |bs|
      invariant k <= |bs|
      invariant r == body + BundlesText(bs[..k])
    {
      r := r + "\n" + NameMark + bs[k].name;
      assert bs[..k + 1][..k] == bs[..k];
      k := k + 1;
    }
    assert bs[..k] == bs;
  }

  /** The package loop of `to_yaml`. */
  method AppendPackages(body: string, ps: seq<Package>) returns (r: string)
    ensures r == body + PackagesText(ps)
  {
    r := body;
    var j := 0;
    while j < |ps|
      invariant j <= |ps|
      invariant r == body + PackagesText(ps[..j])
    {
      r := AppendBundles(r + "\n" + BundlesMark, ps[j].bundles);
      PackagesSnoc(body, ps[..j], ps[j]);
      assert ps[..j + 1] == ps[..j] + [ps[j]];
      j := j + 1;
    }
    assert ps[..j] == ps;
  }

  lemma PackagesSnoc(body: string, ps: seq<Package>, p: Package)
    ensures body + PackagesText(ps + [p]) ==
            body + PackagesText(ps) + "\n" + BundlesMark + BundlesText(p.bundles)
  {
    assert (ps + [p])[..|ps|] == ps;
  }

  lemma OperatorsSnoc(os: seq<Catalog>, c: Catalog)
    ensures OperatorsText(os + [c]) == OperatorsText(os) + PackagesMark + PackagesText(c.packages)
  {
    assert (os + [c])[..|os|] == os;
  }

  /** `IscV3Alpha1::to_yaml`. */
  method ToYaml(isc: IscV3Alpha1) returns (all: string)
    ensures all == Yaml(isc)
  {
    var body := "";
    var yaml := Header(isc.apiVersion);
    var i := 0;
    while i < |isc.operators|
      invariant i <= |isc.operators|
      invariant body == OperatorsText(isc.operators[..i])
    {
      body := AppendPackages(body + PackagesMark, isc.operators[i].packages);
      OperatorsSnoc(isc.operators[..i], isc.operators[i]);
      assert isc.operators[..i + 1] == isc.operators[..i] + [isc.operators[i]];
      i := i + 1;
    }
    assert isc.operators[..i] == isc.operators;
    all := yaml + body;
  }

  // ------------------------------------------------------------ as lines

  function BundleLines(bs: seq<Bundle>): seq<string> {
    if bs == [] then [] else BundleLines(bs[..|bs| - 1]) + [NameMark + bs[|bs| - 1].name]
  }

  function PackagesLines(ps: seq<Package>): seq<string> {
    if ps == [] then []
    else PackagesLines(ps[..|ps| - 1]) + [BundlesMark] + BundleLines(ps[|ps| - 1].bundles)
  }

  /** The lines of one operator block: the packages mark, then per package
      the bundles mark and one line per bundle. */
  function OperatorLines(c: Catalog): seq<string> {
    [PackagesMark] + PackagesLines(c.packages)
  }

  function AllLines(os: seq<Catalog>): seq<string> {
    if os == [] then [] else AllLines(os[..|os| - 1]) + OperatorLines(os[|os| - 1])
  }

  lemma {:induction false} BundlesTextLines(bs: seq<Bundle>)
    ensures BundlesText(bs) == Prefixed(BundleLines(bs), "\n")
    decreases |bs|
  {
    if bs != [] {
      BundlesTextLines(bs[..|bs| - 1]);
      var l := BundleLines(bs[..|bs| - 1]);
      assert (l + [NameMark + bs[|bs| - 1].name])[..|l|] == l;
    }
  }

  lemma {:induction false} PackagesTextLines(ps: seq<Package>)
    ensures PackagesText(ps) == Prefixed(PackagesLines(ps), "\n")
    decreases |ps|
  {
    if ps != [] {
      var init, last := ps[..|ps| - 1], ps[|ps| - 1];
      PackagesTextLines(init);
      BundlesTextLines(last.bundles);
      PrefixedAppend(PackagesLines(init) + [BundlesMark], BundleLines(last.bundles), "\n");
      PrefixedAppend(PackagesLines(init), [BundlesMark], "\n");
      PrefixedOne(BundlesMark, "\n");
    }
  }

  lemma PrefixedOne(x: string, sep: string)
    ensures Prefixed([x], sep) == sep + x
  {
    var none: seq<string> := [];
    assert [x][..0] == none;
    assert Prefixed([x], sep) == Prefixed(none, sep) + sep + x;
  }

  /** An operator block is its lines joined by newlines. */
  lemma OperatorTextLines(c: Catalog)
    ensures OperatorText(c) == Join(OperatorLines(c), "\n")
  {
    PackagesTextLines(c.packages);
    JoinPrefixed(PackagesMark, PackagesLines(c.packages), "\n");
  }

  /** Separated operator blocks are all their lines joined by newlines. */
  lemma {:induction false} SeparatedIsLines(os: seq<Catalog>)
    requires os != []
    ensures |AllLines(os)| >= 1
    ensures OperatorsSeparated(os) == Join(AllLines(os), "\n")
    decreases |os|
  {
    var init, last := os[..|os| - 1], os[|os| - 1];
    OperatorTextLines(last);
    if |os| == 1 {
      assert init == [];
      assert AllLines(os) == OperatorLines(last);
    } else {
      SeparatedIsLines(init);
      JoinAppend(AllLines(init), OperatorLines(last), "\n");
    }
  }

  /** No line of the document holds a newline of its own. */
  predicate SingleLineNames(isc: IscV3Alpha1) {
    '\n' !in isc.apiVersion
    && forall c, p, b :: c in isc.operators && p in c.packages && b in p.bundles ==> '\n' !in b.name
  }

  lemma HeaderLinesSingle(v: string)
    requires '\n' !in v
    ensures forall l :: l in HeaderLines(v) ==> '\n' !in l
  {
    FixedLinesSingle();
    ToolLineSingle();
    assert '\n' !in "apiVersion: mirror.openshift/" + v;
  }

  lemma FixedLinesSingle()
    ensures '\n' !in "---" && '\n' !in "kind: ImageSetConfiguration" && '\n' !in "metadata:"
    ensures '\n' !in "  name: ImageSetConfiguration" && '\n' !in "  annotations: "
    ensures '\n' !in "mirror:" && '\n' !in "  operators:"
  {
    KindLinesSingle();
  }

  lemma KindLinesSingle()
    ensures '\n' !in "kind: ImageSetConfiguration" && '\n' !in "  name: ImageSetConfiguration"
  {
  }

  lemma ToolLineSingle()
    ensures '\n' !in "    autogenerated: '" + Tool + "'"
  {
    assert '\n' !in "rust-catalog-" && '\n' !in "introspection-tool";
  }

  lemma {:induction false} AllLinesSingle(isc: IscV3Alpha1, os: seq<Catalog>)
    requires SingleLineNames(isc) && forall c :: c in os ==> c in isc.operators
    ensures forall l :: l in AllLines(os) ==> '\n' !in l
    decreases |os|
  {
    if os != [] {
      var init, last := os[..|os| - 1], os[|os| - 1];
      AllLinesSingle(isc, init);
      PackagesLinesSingle(isc, last, last.packages);
    }
  }

  lemma {:induction false} PackagesLinesSingle(isc: IscV3Alpha1, c: Catalog, ps: seq<Package>)
    requires SingleLineNames(isc) && c in isc.operators && forall p :: p in ps ==> p in c.packages
    ensures forall l :: l in PackagesLines(ps) ==> '\n' !in l
    decreases |ps|
  {
    if ps != [] {
      var init, last := ps[..|ps| - 1], ps[|ps| - 1];
      PackagesLinesSingle(isc, c, init);
      BundleLinesSingle(isc, c, last, last.bundles);
    }
  }

  lemma {:induction false} BundleLinesSingle(isc: IscV3Alpha1, c: Catalog, p: Package, bs: seq<Bundle>)
    requires SingleLineNames(isc) && c in isc.operators && p in c.packages
    requires forall b :: b in bs ==> b in p.bundles
    ensures forall l :: l in BundleLines(bs) ==> '\n' !in l
    decreases |bs|
  {
    if bs != [] {
      BundleLinesSingle(isc, c, p, bs[..|bs| - 1]);
    }
  }

  /** Reading the separated document back line by line gives exactly the
      header lines, then per operator its packages mark, per package its
      bundles mark and per bundle its name line. */
  lemma SeparatedLines(isc: IscV3Alpha1)
    requires isc.operators != [] && SingleLineNames(isc)
    ensures Split(YamlSeparated(isc), "\n") == HeaderLines(isc.apiVersion) + AllLines(isc.operators)
  {
    var hl, al := HeaderLines(isc.apiVersion), AllLines(isc.operators);
    SeparatedIsLines(isc.operators);
    JoinAppend(hl, al, "\n");
    HeaderLinesSingle(isc.apiVersion);
    AllLinesSingle(isc, isc.operators);
    SplitOfJoin(hl + al, "\n", 0);
  }

  /** With at most one operator, the text `to_yaml` writes is the
      separated document. */
  lemma SingleOperatorAgrees(isc: IscV3Alpha1)
    requires |isc.operators| <= 1
    ensures Yaml(isc) == YamlSeparated(isc)
  {
    if |isc.operators| == 1 {
      assert isc.operators[..0] == [];
      assert OperatorsText(isc.operators) == OperatorText(isc.operators[0]);
    }
  }

  /** With several operators, `to_yaml` drops one newline between each
      pair of consecutive operator blocks. */
  lemma {:induction false} RunTogether(os: seq<Catalog>)
    requires os != []
    ensures |OperatorsSeparated(os)| == |OperatorsText(os)| + |os| - 1
    decreases |os|
  {
    if |os| > 1 {
      RunTogether(os[..|os| - 1]);
    } else {
      assert os[..0] == [];
    }
  }

  /** Two operators with one bundle each: the name line of the first
      bundle and the packages mark of the second end up on one line. */
  lemma RunTogetherExample(a: string, b: string)
    ensures var isc := IscV3Alpha1("v3alpha1", [Catalog([Package("p", [Bundle(a)])]),
                                                Catalog([Package("q", [Bundle(b)])])]);
            Yaml(isc) == Header("v3alpha1") + OneBundleBlock(a) + OneBundleBlock(b)
            && Yaml(isc) != YamlSeparated(isc)
  {
    var c := Catalog([Package("p", [Bundle(a)])]);
    var d := Catalog([Package("q", [Bundle(b)])]);
    OneBundleText("p", a);
    OneBundleText("q", b);
    assert [c, d][..1] == [c];
    assert [c][..0] == [];
    assert OperatorsText([c]) == OperatorText(c);
    RunTogether([c, d]);
  }

  /** The block of an operator with one package holding one bundle. */
  function OneBundleBlock(name: string): string {
    PackagesMark + "\n" + BundlesMark + "\n" + NameMark + name
  }

  lemma OneBundleText(p: string, name: string)
    ensures OperatorText(Catalog([Package(p, [Bundle(name)])])) == OneBundleBlock(name)
  {
    var bs := [Bundle(name)];
    var ps := [Package(p, bs)];
    assert bs[..0] == [];
    assert BundlesText(bs) == "\n" + NameMark + name;
    assert ps[..0] == [];
    assert PackagesText(ps) == "\n" + BundlesMark + "\n" + NameMark + name;
  }
}
