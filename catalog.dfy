/** The catalog records both upgrade-path revisions read (`ChannelEntry`,
    `DeclarativeConfig` and the revision-B `Channel`, which come from the
    catalog library), the filter configuration of src/api/schema.rs, and
    the starting version both revisions derive from a filter. */
module Catalog {
  import opened Wrappers
  import opened Text
  import opened Semver

  /** One bundle of a channel and the upgrade edges it declares; `replaced`
      is the catalog's `replaces` field (a reserved word in Dafny). */
  datatype ChannelEntry = ChannelEntry(
    name: string,
    replaced: Option<string>,
    skips: Option<seq<string>>,
    skipRange: Option<string>)

  /** A declarative-config record: the package record carries the default
      channel, a channel record carries the entries. */
  datatype DeclarativeConfig = DeclarativeConfig(
    defaultChannel: Option<string>,
    entries: Option<seq<ChannelEntry>>)

  /** A channel record as revision B reads it. */
  datatype Channel = Channel(schema: string, name: string, entries: Option<seq<ChannelEntry>>)

  /** `FilterOperator`: one operator of the filter configuration. */
  datatype FilterOperator = FilterOperator(
    name: string,
    channel: Option<string>,
    fromVersion: Option<string>)

  /** `FilterConfig`: the configuration file's contents. */
  datatype FilterConfig = FilterConfig(
    kind: string,
    apiVersion: string,
    catalogs: seq<string>,
    operators: Option<seq<FilterOperator>>)

  /** The names an entry skips (none when `skips` is absent). */
  function Skips(e: ChannelEntry): seq<string> {
    if e.skips.Some? then e.skips.value else []
  }

  /** Where an upgrade path starts: the filter's version text and its
      parse, build metadata apart. */
  datatype StartPoint = StartPoint(text: string, version: Version, build: string)

  /** The version `Version::parse` gives for the text `"0.0.0"`. */
  lemma ZeroText()
    ensures ParseVersion("0.0.0") == Some(Zero) && BuildText("0.0.0") == ""
  {
    assert Render(Zero) == "0.0.0";
    ParseRender(Zero);
    NotContainsWithout("0.0.0", "+", 0);
  }

  /** `fromVersion`, or `"0.0.0"` when the filter has none, parsed
      strictly; `None` when it does not parse (the `unwrap` panics). */
  function Start(fromVersion: Option<string>): (r: Option<StartPoint>)
    ensures fromVersion.None? ==> r == Some(StartPoint("0.0.0", Zero, ""))
    ensures fromVersion.Some? ==> (r.Some? <==> ParseVersion(fromVersion.value).Some?)
    ensures fromVersion.Some? && r.Some? ==>
              r.value.text == fromVersion.value && Some(r.value.version) == ParseVersion(fromVersion.value)
    ensures r.Some? ==> r.value.build == "" || ValidBuild(r.value.build)
  {
    var text := if fromVersion.Some? then fromVersion.value else "0.0.0";
    ZeroText();
    var v :- ParseVersion(text);
    Some(StartPoint(text, v, BuildText(text)))
  }

  /** `start.cmp(&bundle) != Ordering::Greater`: the bundle is at or
      above the start. */
  predicate AtOrAbove(start: StartPoint, v: Version, build: string) {
    FullCmp(start.version, start.build, v, build) != Greater
  }
}
