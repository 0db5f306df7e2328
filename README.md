# Upgrade-path engine of rust-catalog-introspection-tool, in Dafny

rust-catalog-introspection-tool reads the declarative configuration of an
operator catalog and suggests upgrade paths for the operator's bundles.
It starts at a `fromVersion` taken from a filter configuration and ends at
the "frontier": the bundles that no other bundle at or above the start
replaces or skips. This project models the tool's core and proves
properties of that model.

- **Version heuristics** (module `Calculate`, file `calculate.dfy`):
  - how a version payload is cut out of a bundle name;
  - `build_semver`, which reads that payload as major, minor, patch and prerelease;
  - `compare_semver`.
- **Revision A of the frontier** (`Calculate`): `list_channel_info` of
  src/calculate/upgradepath.rs.
  - It keeps the live entries and drops those a live entry replaces, then
    those a live entry skips.
  - It builds the `"<start> -> a -> b"` path and the `" : range"` skip-range text.
  - For the default channel, it writes an ImageSetConfiguration per frontier bundle.
- **Revision B of the frontier** (`Process`, file `process.dfy`):
  `list_channel_info` of src/process/upgradepath.rs.
  - It selects channels by name or `"all"`.
  - It pushes each live entry to the front and then removes, with `retain`, what the entry replaces and skips.
  - It deduplicates skip ranges by their lower bound, first one seen wins.
  - It sorts the path with `compare_len_alpha` and the ranges lexically.
- **The ImageSetConfiguration writer** (`Isc`, file `isc.dfy`): `IscV3Alpha1::new`, `to_yaml`
  and the `Catalog`/`Package`/`Bundle` records.
- **The `update` command's checks** (`Driver`, file `driver.dfy`) from src/main.rs:
  - the log-level mapping;
  - the catalog image base deduplication and the one-base check;
  - the operator list built from the catalogs.
- **Supporting modules**:
  - `Text`: `str::find`, `split`, `nth`, byte length, lexical and length-first orders.
  - `Seqs`: reversal, front-inserted deduplication, and a filter whose test can fail.
  - `Sorting`: a sort specified as sorted and a permutation, shown unique.
  - `Semver`: the strict `Version::parse` grammar and the semver crate's `Ord`.
  - `Catalog`: the catalog records, the filter records and the start point.
  - `Wrappers`: `Option`.

Modelling choices:
- Every `unwrap` and every `panic!` becomes `None`. A listing is `None` as
  soon as one selected channel fails, whatever was logged before.
- The `HashMap` of declarative-config records is a sequence of key/value
  pairs in an arbitrary order. No property depends on the order across channels.
- Output that the tool logs is returned instead: the path text, the
  skip-range text, the generated manifests and the sorted lists.
- Loops that build vectors with `insert(0, …)`, `retain` or string
  appends are methods. Each is proved equal to a function of its inputs,
  and lemmas state what that function means.
- Integers are unbounded. Wherever the source parses a `u64`, the model
  checks the value is below 2^64.

Behaviours of the code worth knowing, which the model keeps:
- Revision A takes the payload after the **first** `.v`, up to the next `.v`.
- In the no-dot branch of `build_semver`, major is the text between the
  first and second `v`.
- In `build_semver` the prerelease is the second `-`-piece of the patch
  field, so `1.2.3-rc-1` reads as prerelease `rc`.
- A name such as `4.5.1-rc1` has no version in revision A. The payload
  after the package segment is `5.1-rc1`, which has two `.`-fields, so
  reading its patch fails.
- Revision A's frontier is not sorted by version. It comes out in reverse
  source order.
- The start token is `"?"` whenever the start text is `"0.0.0"`, even
  when the filter gives `"0.0.0"` explicitly.
- Revision A compares versions with the full `Ord` of `semver::Version`.
  The start's build metadata therefore matters: a start with build
  metadata is above the plain version with the same precedence.

## Model

| member | source | states |
|---|---|---|
| Text.Find | src/calculate/upgradepath.rs:107 | the result is the first position where the pattern occurs; `None` exactly when it occurs nowhere |
| Text.Split | src/calculate/upgradepath.rs:108 | there is at least one piece, and the first is a prefix of the text. There are two or more pieces iff the pattern occurs, and the first piece ends at its first occurrence |
| Text.SplitPieces | src/calculate/upgradepath.rs:108 | no piece contains the pattern |
| Text.SplitJoin | src/calculate/upgradepath.rs:108 | joining the pieces with the pattern gives back the text |
| Text.SplitOfJoin | src/calculate/upgradepath.rs:178-182 | splitting a join gives back the pieces when the separator has a character that occurs once in it and in no piece |
| Text.SplitNth | src/calculate/upgradepath.rs:214-215 | `nth(k)` exists iff there are more than k pieces, and it is the k-th piece |
| Text.LexCmp | src/process/upgradepath.rs:99 | the byte-wise order is `Equal` exactly on equal strings |
| Text.LexFlip | src/process/upgradepath.rs:85 | swapping the operands flips the lexical order |
| Text.LexTrans | src/process/upgradepath.rs:85 | the lexical order is transitive |
| Text.Utf8Len | src/process/upgradepath.rs:96 | the byte length is at least the character count, and equal to it for ASCII text |
| Text.LenAlphaCmp | src/process/upgradepath.rs:94-102 | a shorter byte length is `Less`, a longer one `Greater`; `Equal` exactly on equal strings |
| Text.LenAlphaFlip | src/process/upgradepath.rs:94-102 | swapping the operands flips `compare_len_alpha` |
| Text.LenAlphaTrans | src/process/upgradepath.rs:94-102 | `compare_len_alpha` is transitive, so it is a total order |
| Seqs.Reverse | src/calculate/upgradepath.rs:127 | front insertion yields the elements in reverse: element i is the input's element n-1-i |
| Seqs.ReverseReverse | src/main.rs:98-105 | reversing twice restores the sequence |
| Seqs.FrontDistinct | src/main.rs:70-76 | the result has no duplicates and holds exactly the input's elements |
| Seqs.SelectDefined | src/calculate/upgradepath.rs:99-126 | filtering entries succeeds iff the test succeeds on every entry |
| Seqs.SelectMembers | src/calculate/upgradepath.rs:99-126 | a successful filter keeps exactly the elements whose test is true |
| Seqs.SelectRejected | src/calculate/upgradepath.rs:126 | an element the test rejects changes nothing |
| Sorting.Compare | src/process/upgradepath.rs:80-85 | both orders in use are `Equal` exactly on equal strings |
| Sorting.CompareFlip | src/process/upgradepath.rs:80-85 | swapping operands flips either order |
| Sorting.CompareTrans | src/process/upgradepath.rs:80-85 | either order is transitive |
| Sorting.Sort | src/process/upgradepath.rs:80-85 | the result is sorted and a permutation of the input |
| Sorting.SortedUnique | src/process/upgradepath.rs:80 | two sorted permutations of the same list are equal, so an unstable sort has only one possible result |
| Semver.Decimal | src/calculate/upgradepath.rs:244-246 | the text of n is all digits, has no leading zero and has value n |
| Semver.ParseU64 | src/calculate/upgradepath.rs:244-246 | a parsed number is below 2^64 |
| Semver.U64RoundTrip | src/calculate/upgradepath.rs:244-246 | `str::parse::<u64>` reads back the decimal text of every value below 2^64 |
| Semver.NumericIsDecimal | src/process/upgradepath.rs:55 | a strict numeric field parses to n iff it is exactly the decimal text of n, below 2^64 |
| Semver.ParsePrerelease | src/calculate/upgradepath.rs:247 | every identifier of a parsed prerelease is valid; the empty text, and only it, is the empty prerelease |
| Semver.PrereleaseRoundTrip | src/calculate/upgradepath.rs:247 | the dotted text of valid identifiers parses back to them |
| Semver.ParseVersion | src/process/upgradepath.rs:55 | a parsed version is well formed: fields below 2^64 and valid prerelease identifiers |
| Semver.ParseRender | src/process/upgradepath.rs:55 | every well-formed version parses back from its rendering |
| Semver.RenderParse | src/process/upgradepath.rs:55 | text without build metadata that parses renders back to itself |
| Semver.PreCmp | src/calculate/upgradepath.rs:125 | `Equal` exactly on equal prereleases; no prerelease is above any prerelease |
| Semver.VersionCmp | src/calculate/upgradepath.rs:125 | `Equal` exactly on equal versions. Major, then minor, then patch decide; otherwise a version without prerelease is above one with |
| Semver.VersionFlip | src/calculate/upgradepath.rs:125 | swapping the operands flips precedence |
| Semver.VersionTrans | src/calculate/upgradepath.rs:125 | precedence is transitive |
| Semver.BuildText | src/process/upgradepath.rs:55 | text without `+` has no build metadata; a parsed version's build metadata is valid |
| Semver.BuildCmp | src/process/upgradepath.rs:57 | the build metadata order is `Equal` exactly on equal texts |
| Semver.BuildAboveEmpty | src/process/upgradepath.rs:57 | any non-empty valid build metadata is above none |
| Semver.FullCmp | src/process/upgradepath.rs:57 | `Equal` exactly when versions and build metadata agree; differing precedence decides |
| Semver.NotGreaterThanPlain | src/process/upgradepath.rs:57-58 | a start is not above a version without build metadata iff it has lower precedence, or equal precedence and no build metadata |
| Catalog.ZeroText | src/calculate/upgradepath.rs:62 | `"0.0.0"` parses to the zero version with no build metadata |
| Catalog.Start | src/calculate/upgradepath.rs:62-69 | without `fromVersion` the start is 0.0.0. With it, the start exists iff the text parses strictly, and then carries that text and its parse |
| Calculate.ExtractPayload | src/calculate/upgradepath.rs:105-123 | the version payload of a bundle name, `None` where an `unwrap` or `get(1..)` fails; what it yields is stated by the `Payload…` lemmas below |
| Calculate.PayloadExists | src/calculate/upgradepath.rs:105-123 | a bundle name has a payload iff it contains a `.` |
| Calculate.PayloadAfterV | src/calculate/upgradepath.rs:107-108 | for `pkg.vVER`, the payload is the text after the first `.v` up to the next `.v` |
| Calculate.PlainPieces | src/calculate/upgradepath.rs:113-118 | splitting a name on its first `.`-segment gives at least two pieces; the second starts with the `.` after that segment, or is empty |
| Calculate.PayloadAfterSegment | src/calculate/upgradepath.rs:113-122 | for `pkg.VER` without `.v`, the payload is the second piece of splitting on `pkg`, without its leading `.` |
| Calculate.PayloadAfterPackage | src/calculate/upgradepath.rs:113-122 | for `pkg.VER` without `.v`, where `pkg` does not recur in `VER`, the payload is `VER` |
| Calculate.BuildSemver | src/calculate/upgradepath.rs:222-261 | exactly two `.`-fields fail. Without a `.`, minor and patch are 0 and there is no prerelease. Every field is below 2^64 |
| Calculate.BuildSemverPre | src/calculate/upgradepath.rs:238-247 | the prerelease has at most one identifier, since it comes from one `.`-field |
| Calculate.BuildSemverDropsRest | src/calculate/upgradepath.rs:238-247 | the prerelease is the patch field's second `-`-piece: a version with one identifier, followed by any `-`-led rest up to the next `.`, reads as that version, the rest dropped |
| Calculate.BuildSemverDashInPre | src/calculate/upgradepath.rs:238-247 | `1.2.3-rc-1` reads as 1.2.3 with prerelease `rc` |
| Calculate.BuildSemverOfRender | src/calculate/upgradepath.rs:233-248 | a rendered version, with any `.`-led tail, reads back as that version. Extra fields are ignored |
| Calculate.BuildSemverMajor | src/calculate/upgradepath.rs:256-258 | a bare number n reads as n.0.0 |
| Calculate.BuildSemverAfterV | src/calculate/upgradepath.rs:253-255 | in a text without `.`, major is the number between the first and second `v` |
| Calculate.CompareSemver | src/calculate/upgradepath.rs:206-219 | `compare_semver`, `None` where it panics; stated by the `CompareSemver…` lemmas below |
| Calculate.CompareSemverFieldFails | src/calculate/upgradepath.rs:214-217 | unless both names hold `.v`, an unreadable second `.`-field makes the comparison panic |
| Calculate.CompareSemverFails | src/calculate/upgradepath.rs:214-217 | `pkg.1.0.0` against `pkg.x.v1.0.0` panics, because `x` is no number |
| Calculate.CompareSemverFlip | src/calculate/upgradepath.rs:206-219 | `compare_semver` succeeds for both argument orders or neither, and swapping flips it |
| Calculate.CompareSemverMajorOnly | src/calculate/upgradepath.rs:214-218 | unless both names hold `.v`, only the majors read from the second `.`-field are compared |
| Calculate.CompareSemverRendered | src/calculate/upgradepath.rs:207-212 | for two `pkg.vVERSION` names, the result is the versions' precedence |
| Calculate.LiveByPrecedence | src/calculate/upgradepath.rs:124-126 | an entry is live iff the start has lower precedence, or equal precedence and no build metadata |
| Calculate.LiveMembers | src/calculate/upgradepath.rs:99-131 | the live filter succeeds iff every entry's version reads. It keeps exactly the entries at or above the start |
| Calculate.BelowStartIgnored | src/calculate/upgradepath.rs:126-131 | an entry below the start changes nothing: it neither appears nor contributes a `replaces` |
| Calculate.RangesIn | src/calculate/upgradepath.rs:180-182 | every listed skip range belongs to some listed entry |
| Calculate.KeepIn | src/calculate/upgradepath.rs:138-163 | a pruning pass keeps exactly the entries whose names are not dropped |
| Calculate.Frontier | src/calculate/upgradepath.rs:127-163 | the live entries in reverse order, less those a live entry replaces or skips; stated by `FrontierMembers` and `PassesGiveFrontier` |
| Calculate.FrontierMembers | src/calculate/upgradepath.rs:138-163 | a bundle is on the frontier iff it is live and no live entry replaces or skips its name |
| Calculate.PassesGiveFrontier | src/calculate/upgradepath.rs:127-161 | the three front-inserting passes give the live entries in reverse source order, pruned |
| Calculate.StartToken | src/calculate/upgradepath.rs:172-176 | the path starts with `?` when the start text is `0.0.0`, and with the start text otherwise |
| Calculate.PathSplit | src/calculate/upgradepath.rs:172-179 | the path reads back as the start token followed by the frontier names, in order |
| Calculate.RangesSplit | src/calculate/upgradepath.rs:173-182 | the skip-range text reads back as each frontier entry's range in order, without deduplication |
| Calculate.ManifestLines | src/calculate/upgradepath.rs:183-194 | a bundle's manifest is the `v3alpha1` header, then the packages, bundles and name lines |
| Calculate.DefaultChannel | src/calculate/upgradepath.rs:77-87 | the default channel; stated by `DefaultChannelFirst` and `DefaultChannelAbsent` |
| Calculate.DefaultChannelFirst | src/calculate/upgradepath.rs:77-87 | the first `olm.package` record decides the default channel; `None` when it has none |
| Calculate.DefaultChannelAbsent | src/calculate/upgradepath.rs:78-87 | without an `olm.package` record the default channel is empty |
| Calculate.ReportsFail | src/calculate/upgradepath.rs:94-100 | once a channel fails, the listing fails whatever follows |
| Calculate.ReportsKeys | src/calculate/upgradepath.rs:94-95 | every report comes from a record whose key holds `olm.channel` |
| Calculate.Report | src/calculate/upgradepath.rs:96-196 | one channel's path, skip-range text and manifests; stated by `ReportFacts` |
| Calculate.ReportFacts | src/calculate/upgradepath.rs:94-196 | a channel report's path and ranges read back from the frontier. Manifests are there exactly when the key holds the default channel. The frontier is exactly the live, unreplaced, unskipped entries |
| Calculate.CollectLive | src/calculate/upgradepath.rs:99-132 | the entry loop fails iff some version does not read. Otherwise it yields the live entries and their `replaces` names, each reversed |
| Calculate.DropReplaced | src/calculate/upgradepath.rs:138-148 | the first pass keeps, reversed, the entries whose names nothing replaces |
| Calculate.SkipsName | src/calculate/upgradepath.rs:152-157 | the inner loop finds a name iff the entry skips it |
| Calculate.IsSkipped | src/calculate/upgradepath.rs:150-159 | the search finds a name iff some live entry skips it |
| Calculate.DropSkipped | src/calculate/upgradepath.rs:149-163 | the second pass keeps, reversed, the entries whose names no live entry skips |
| Calculate.BundleManifest | src/calculate/upgradepath.rs:185-193 | the generated document is the one-bundle ImageSetConfiguration of the name |
| Calculate.RenderEntry | src/calculate/upgradepath.rs:178-195 | one step extends the path, the ranges and, for the default channel, the manifests by one entry |
| Calculate.RenderChannel | src/calculate/upgradepath.rs:172-196 | the loop yields the path, the concatenated ranges, and the manifests only for the default channel |
| Calculate.PickDefaultChannel | src/calculate/upgradepath.rs:77-87 | the key loop gives the default channel of the first package record |
| Calculate.ReportChannel | src/calculate/upgradepath.rs:95-196 | one channel's processing is its report, or fails without entries |
| Calculate.ListChannels | src/calculate/upgradepath.rs:94-202 | the channel loop yields the reports of the channel records in order |
| Calculate.ListChannelInfo | src/calculate/upgradepath.rs:56-203 | the whole listing: the start, the default channel, then the channel reports |
| Process.EntryVersion | src/process/upgradepath.rs:54-55 | only a name holding `.v` has a version |
| Process.NoVersionFails | src/process/upgradepath.rs:54 | a name without `.v` makes its channel fail |
| Process.LiveMembers | src/process/upgradepath.rs:52-58 | the live filter succeeds iff every version parses strictly. It keeps exactly the entries the start is not above |
| Process.RemoveCounts | src/process/upgradepath.rs:63 | `retain` removes every copy of the name and keeps every other name's count |
| Process.RemoveAllCounts | src/process/upgradepath.rs:65-69 | removing a list of names zeroes exactly their counts |
| Process.Admit | src/process/upgradepath.rs:60-69 | the list after one live entry; stated by `AdmitEffect` and `AdmitIn` |
| Process.AdmitEffect | src/process/upgradepath.rs:60-69 | admitting an entry adds its name once and removes all it replaces or skips. No other count changes |
| Process.AdmitIn | src/process/upgradepath.rs:60-69 | after admission a name is present iff it is not dropped and is the entry's own name or was present |
| Process.Lower | src/process/upgradepath.rs:72 | the lower bound is the range's text before its first `<`, or the whole range when it has no `<` |
| Process.RunNames | src/process/upgradepath.rs:52-69 | every name in the final list is the name of some live entry |
| Process.Survives | src/process/upgradepath.rs:52-69 | an entry that neither it nor any later entry replaces or skips stays in the final list |
| Process.OrderMatters | src/process/upgradepath.rs:60-64 | a name admitted after the entry that replaces it is not removed |
| Process.Track | src/process/upgradepath.rs:70-77 | a range and its bound are put in front only when the bound is new; stated by `TrackStep` |
| Process.Run | src/process/upgradepath.rs:52-79 | the list, bounds and ranges after the live entries in order; stated by the lemmas below |
| Process.Tracked | src/process/upgradepath.rs:70-77 | tracker and ranges have the same length, each tracked bound is its range's lower bound, and no bound is tracked twice |
| Process.TrackStep | src/process/upgradepath.rs:70-77 | a range is added, with its bound, iff its bound is not tracked yet |
| Process.TrackerBounds | src/process/upgradepath.rs:70-77 | a bound is tracked iff some live entry's range has it |
| Process.FirstRangeWins | src/process/upgradepath.rs:70-77 | a range is kept iff it is the first range, in entry order, with its lower bound |
| Process.ResultsFail | src/process/upgradepath.rs:44-52 | once a selected channel fails, the listing fails whatever follows |
| Process.Selected | src/process/upgradepath.rs:45-46 | a record is processed iff its schema is `olm.channel` and the filter channel is its name or `all` |
| Process.ResultsSelected | src/process/upgradepath.rs:44-46 | only `olm.channel` records matching the filter channel or `"all"` are reported |
| Process.Finish | src/process/upgradepath.rs:80-87 | the sorted path and, when there are any, the sorted ranges; stated by `FinishFacts` |
| Process.FinishFacts | src/process/upgradepath.rs:80-87 | the reported path is the final list sorted by `compare_len_alpha`, the ranges are the kept ranges sorted lexically, and every path name is a live entry's |
| Process.OutcomeNames | src/process/upgradepath.rs:52-80 | every reported name belongs to a live entry of the channel |
| Process.Retain | src/process/upgradepath.rs:63 | the in-place `retain` removes every copy of one name |
| Process.RetainAll | src/process/upgradepath.rs:65-69 | the skips loop removes every listed name |
| Process.AdmitEntry | src/process/upgradepath.rs:60-69 | front insertion, then the `replaces` and `skips` removals, is admission |
| Process.StepEntry | src/process/upgradepath.rs:60-77 | one live entry's processing is admission and range tracking |
| Process.RunEntries | src/process/upgradepath.rs:52-79 | the entry loop fails iff some version does not parse, and otherwise ends in the run over the live entries |
| Process.ProcessChannel | src/process/upgradepath.rs:47-87 | one channel's processing is its outcome, sorts included |
| Process.ListChannels | src/process/upgradepath.rs:44-90 | the channel loop yields the results of the selected channels in order |
| Process.ListChannelInfo | src/process/upgradepath.rs:23-91 | the whole listing: the start, the filter channel, then the channel results |
| Isc.New | src/isc/generate.rs:27-32 | a new document has API version `v3alpha1` and no operators |
| Isc.Header | src/isc/generate.rs:36-47 | the fixed header: a newline, `---`, the API version line, then the fixed lines through `  operators:`, each ended by a newline |
| Isc.Yaml | src/isc/generate.rs:34-59 | the document as written: header, then the operator blocks back to back; stated by `ToYaml` and the `Isc` lemmas below |
| Isc.AppendBundles | src/isc/generate.rs:52-54 | the bundle loop appends one name line per bundle, in order |
| Isc.AppendPackages | src/isc/generate.rs:50-55 | the package loop appends one bundles mark per package, then its bundles; package names are not written |
| Isc.ToYaml | src/isc/generate.rs:34-59 | the output is the header, then each operator's block, with nothing between blocks |
| Isc.BundlesTextLines | src/isc/generate.rs:52-54 | the bundles text is one newline-led line per bundle |
| Isc.PackagesTextLines | src/isc/generate.rs:50-55 | the packages text is one newline-led line per mark and per bundle |
| Isc.OperatorTextLines | src/isc/generate.rs:49-55 | an operator block is its lines joined by newlines, with no trailing newline |
| Isc.HeaderLinesSingle | src/isc/generate.rs:36-47 | with a one-line API version, every header line is a single line |
| Isc.AllLinesSingle | src/isc/generate.rs:48-56 | with one-line bundle names, every block line is a single line |
| Isc.OneBundleText | src/isc/generate.rs:49-54 | a one-bundle operator's block is the packages mark, the bundles mark and the name line |
| Isc.SingleOperatorAgrees | src/isc/generate.rs:48-56 | with at most one operator, the output is the line-separated document |
| Isc.RunTogether | src/isc/generate.rs:48-56 | the output is one character shorter per operator boundary than the line-separated document |
| Isc.RunTogetherExample | src/isc/generate.rs:48-56 | two operators' blocks are written back to back and differ from the line-separated document |
| Isc.SeparatedIsLines | src/isc/generate.rs:48-56 | newline-separated blocks are all blocks' lines joined by newlines |
| Isc.SeparatedLines | src/isc/generate.rs:36-56 | the separated document splits on newlines into the header lines and then every block's lines |
| Driver.LevelOf | src/main.rs:33-38 | `debug` and `trace` map to their levels, and every other text to info |
| Driver.ImageBase | src/main.rs:72 | the base is a colon-free prefix of the image; the whole image when it has no colon |
| Driver.ImageBaseRest | src/main.rs:72 | the base ends at the image's first colon, or is the whole image |
| Driver.Bases | src/main.rs:71-72 | one base per catalog, in order |
| Driver.CheckCatalogImages | src/main.rs:70-82 | `imgs` holds each distinct base once, in the order of newest first sighting; the check passes iff there is at most one |
| Driver.CheckPasses | src/main.rs:70-82 | the check passes iff all catalogs share one base, the empty list included |
| Driver.ToOperators | src/main.rs:97-105 | one operator per catalog, in reverse order, none with packages |
| Driver.OperatorsCatalogs | src/main.rs:98-105 | reversing the operators' catalogs gives back the configured catalogs |
| Driver.Update | src/main.rs:70-105 | a mismatch iff two catalogs have different bases; nothing to fetch iff there are no catalogs; otherwise the operators of all catalogs |

## Left out

- `list_components` in both upgrade-path files: directory walking, catalog file reads and async plumbing.
- src/list/render.rs: terminal rendering and a filesystem walk, with no behaviour beyond printing. It is not part of this model.
- src/api/schema.rs: the clap command-line struct and the serde derives. Only the shapes of `FilterConfig` and `FilterOperator` are kept, as datatypes.
- The rest of src/main.rs is not modelled. That is command-line parsing, configuration loading, directory creation, the registry fetch (`get_operator_catalog`), `render_list`, `process_upgradepath` and `process::exit`. `Driver.Update` stops at the decision to fetch.
- Logging and log-level gating: the logged values are returned instead.
- Calculate.ListChannelInfo: the model's listing is the source's result only for runs in which the `available_versions` sort does not panic. That list (src/calculate/upgradepath.rs:92, 102-104) gathers bundle names across channels. It is sorted with `compare_semver` on every channel, before the debug loop (lines 165-170). That sort panics when it compares two names that do not both hold `.v` and one of them has a second `.`-field that is not a number (`Calculate.CompareSemverFails`). Which pairs an unstable sort compares is not specified, so the list and its sort are not modelled; `compare_semver` itself is modelled as `Calculate.CompareSemver`.
- serde_json deserialisation of revision B's channels: the model starts from the parsed records.
- Output that the tool logs before a later `unwrap` panics: a failing run is `None`, with nothing partial.
- The `HashMap` iteration order: the records are a sequence in an arbitrary order, and no property depends on that order across channels.
- The semver crate is not part of this model. `Version::parse`, `Prerelease::new` and the `Ord` of versions are modelled from the grammar and precedence rules of Semantic Versioning 2.0.0. Build metadata compares after precedence, with numeric identifiers before alphanumeric ones.
- Calculate.BuildSemver: its own contract states only the branch facts and bounds; what it reads is stated by `BuildSemverOfRender`, `BuildSemverMajor` and `BuildSemverAfterV`, for texts that come from a rendered version.
- Calculate.CompareSemverMajorOnly: stated only for pairs on which the comparison succeeds.
- The `Vec::sort_unstable_by` and `Vec::sort` algorithms are modelled by an insertion sort. `Sorting.SortedUnique` shows any correct sort gives the same list.
- The channel filter of revision A (src/calculate/upgradepath.rs:72-75) is computed and never used, so it has no counterpart.

## Findings

| source | as written | input that shows it | evidently intended | confidence | as-written member | corrected member |
|---|---|---|---|---|---|---|
| src/isc/generate.rs:48-56 | each operator block starts with `"  - packages:"` with no newline before it, so from the second operator on, the block continues the last bundle line | two operators with one bundle each, `a` and `b`: the output holds `"- name: a  - packages:"` | each operator block starts on a line of its own, as the YAML sequence layout calls for | medium, not executed | Isc.RunTogetherExample, Isc.RunTogether | Isc.YamlSeparated, Isc.SeparatedLines |
