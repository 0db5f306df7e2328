/** The parts of the command-line driver (src/main.rs) that decide
    something: the log-level mapping, the catalog-image consistency check
    of the `update` command and the operator list it hands to the catalog
    fetch. */
module Driver {
  import opened Wrappers
  import opened Text
  import opened Seqs

  // --------------------------------------------------------- log level

  datatype Level = Info | Debug | Trace

  /** The `--loglevel` text as a level: unknown texts log at `Info`. */
  function LevelOf(s: string): (r: Level)
    ensures r == Debug <==> s == "debug"
    ensures r == Trace <==> s == "trace"
    ensures r == Info <==> s != "debug" && s != "trace"
  {
    match s
    case "info" => Info
    case "debug" => Debug
    case "trace" => Trace
    case _ => Info
  }

  // ------------------------------------------------------ image check

  /** A catalog image's base: its text before the first `:` (the whole
      text when there is none). */
  function ImageBase(img: string): (r: string)
    ensures r <= img && ':' !in r
    ensures ':' !in img ==> r == img
  {
    ContainsChar(Split(img, ":")[0], ':');
    ContainsChar(img, ':');
    if ':' !in img then SplitNone(img, ":"); Split(img, ":")[0] else Split(img, ":")[0]
  }

  /** The base and the rest: an image is its base, then nothing or a `:`
      and the tag. */
  lemma ImageBaseRest(img: string)
    ensures ImageBase(img) == img || img[|ImageBase(img)|] == ':'
  {
    var b := ImageBase(img);
    if b != img {
      ContainsChar(img, ':');
      var f := Find(img, ":");
      assert f.Some? && f.value == |b|;
      assert OccursAt(img, ":", |b|);
    }
  }

  function Bases(imgs: seq<string>): (r: seq<string>)
    ensures |r| == |imgs| && forall i :: 0 <= i < |imgs| ==> r[i] == ImageBase(imgs[i])
  {
    if imgs == [] then [] else Bases(imgs[..|imgs| - 1]) + [ImageBase(imgs[|imgs| - 1])]
  }

  /** The distinct bases, each put in front the first time it is met;
      `ok` when there is at most one. */
  method CheckCatalogImages(catalogs: seq<string>) returns (imgs: seq<string>, ok: bool)
    ensures imgs == FrontDistinct(Bases(catalogs))
    ensures ok <==> |imgs| <= 1
  {
    imgs := [];
    var k := 0;
    while k < |catalogs|
      invariant 0 <= k <= |catalogs|
      invariant imgs == FrontDistinct(Bases(catalogs[..k]))
    {
      var i := Split(catalogs[k], ":")[0];
      assert catalogs[..k + 1][..k] == catalogs[..k];
      assert Bases(catalogs[..k + 1]) == Bases(catalogs[..k]) + [i];
      if !(i in imgs) {
        imgs := [i] + imgs;
      }
      k := k + 1;
    }
    assert catalogs[..k] == catalogs;
    ok := !(|imgs| > 1);
  }

  /** A list without duplicates has at most one element exactly when all
      its elements are equal to one another. */
  lemma AtMostOne(d: seq<string>)
    requires NoDup(d)
    ensures |d| <= 1 <==> forall x, y :: x in d && y in d ==> x == y
  {
    if |d| > 1 {
      assert d[0] in d && d[1] in d;
    }
  }

  /** The check passes exactly when every catalog has the same base: an
      empty list passes, and so do tags differing only after the `:`. */
  lemma CheckPasses(catalogs: seq<string>)
    ensures |FrontDistinct(Bases(catalogs))| <= 1 <==>
              forall i, j :: 0 <= i < |catalogs| && 0 <= j < |catalogs| ==>
                ImageBase(catalogs[i]) == ImageBase(catalogs[j])
  {
    var d := FrontDistinct(Bases(catalogs));
    AtMostOne(d);
    if |d| <= 1 {
      OneBaseSame(catalogs);
    } else {
      TwoBasesDiffer(catalogs);
    }
  }

  lemma OneBaseSame(catalogs: seq<string>)
    requires |FrontDistinct(Bases(catalogs))| <= 1
    ensures forall i, j :: 0 <= i < |catalogs| && 0 <= j < |catalogs| ==>
              ImageBase(catalogs[i]) == ImageBase(catalogs[j])
  {
    var bs := Bases(catalogs);
    var d := FrontDistinct(bs);
    AtMostOne(d);
    forall i, j | 0 <= i < |catalogs| && 0 <= j < |catalogs|
      ensures ImageBase(catalogs[i]) == ImageBase(catalogs[j])
    {
      assert bs[i] in d && bs[j] in d;
    }
  }

  lemma TwoBasesDiffer(catalogs: seq<string>)
    requires |FrontDistinct(Bases(catalogs))| > 1
    ensures exists i, j :: 0 <= i < |catalogs| && 0 <= j < |catalogs| &&
              ImageBase(catalogs[i]) != ImageBase(catalogs[j])
  {
    var bs := Bases(catalogs);
    var d := FrontDistinct(bs);
    var x, y := d[0], d[1];
    assert x != y && x in bs && y in bs;
    var i :| 0 <= i < |bs| && bs[i] == x;
    var j :| 0 <= j < |bs| && bs[j] == y;
    assert ImageBase(catalogs[i]) != ImageBase(catalogs[j]);
  }

  // --------------------------------------------------------- operators

  /** `mirror_config::Operator`: a catalog image and an optional package
      list. */
  datatype MirrorOperator = MirrorOperator(catalog: string, packages: Option<seq<string>>)

  /** The operator list: one operator per catalog, without packages, each
      put in front. */
  method ToOperators(catalogs: seq<string>) returns (operators: seq<MirrorOperator>)
    ensures |operators| == |catalogs|
    ensures forall i :: 0 <= i < |catalogs| ==>
              operators[i] == MirrorOperator(catalogs[|catalogs| - 1 - i], None)
    ensures forall o :: o in operators ==> o.packages == None
  {
    operators := [];
    var k := 0;
    while k < |catalogs|
      invariant 0 <= k <= |catalogs|
      invariant |operators| == k
      invariant forall i :: 0 <= i < k ==> operators[i] == MirrorOperator(catalogs[k - 1 - i], None)
      invariant forall o :: o in operators ==> o.packages == None
    {
      var o := MirrorOperator(catalogs[k], None);
      operators := [o] + operators;
      k := k + 1;
    }
  }

  function CatalogsOf(operators: seq<MirrorOperator>): (r: seq<string>)
    ensures |r| == |operators| && forall i :: 0 <= i < |operators| ==> r[i] == operators[i].catalog
  {
    if operators == [] then [] else [operators[0].catalog] + CatalogsOf(operators[1..])
  }

  /** Operators built in reverse give back the catalogs when reversed. */
  lemma OperatorsCatalogs(catalogs: seq<string>, operators: seq<MirrorOperator>)
    requires |operators| == |catalogs|
    requires forall i :: 0 <= i < |catalogs| ==>
               operators[i] == MirrorOperator(catalogs[|catalogs| - 1 - i], None)
    ensures Reverse(CatalogsOf(operators)) == catalogs
  {
    var cs := CatalogsOf(operators);
    forall i | 0 <= i < |catalogs| ensures Reverse(cs)[i] == catalogs[i] {
      assert cs[|cs| - 1 - i] == operators[|cs| - 1 - i].catalog;
    }

  }

  /** What the `update` command does after reading its configuration. */
  datatype Outcome = Mismatch | NothingToFetch | Fetch(operators: seq<MirrorOperator>)

  /** The `update` command's decisions: fail on more than one image base;
      otherwise fetch the operators of the catalogs, when there are any. */
  method Update(catalogs: seq<string>) returns (r: Outcome)
    ensures r == Mismatch <==>
              exists i, j :: 0 <= i < |catalogs| && 0 <= j < |catalogs| &&
                ImageBase(catalogs[i]) != ImageBase(catalogs[j])
    ensures r == NothingToFetch <==> catalogs == []
    ensures r.Fetch? ==> Reverse(CatalogsOf(r.operators)) == catalogs &&
                         forall o :: o in r.operators ==> o.packages == None
  {
    var imgs, ok := CheckCatalogImages(catalogs);
    CheckPasses(catalogs);
    if !ok {
      return Mismatch;
    }
    if |catalogs| > 0 {
      var operators := ToOperators(catalogs);
      OperatorsCatalogs(catalogs, operators);
      return Fetch(operators);
    }
    return NothingToFetch;
  }
}
