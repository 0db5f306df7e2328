/** Revision B of the upgrade-path listing (`list_channel_info` in
    src/process/upgradepath.rs): channels are selected by schema and name,
    the frontier is kept in one list that each live entry updates by
    putting its name in front and removing what it replaces and skips,
    skip ranges are deduplicated by their lower bound, and both lists are
    sorted before they are reported. */
module Process {
  import opened Wrappers
  import opened Text
  import opened Seqs
  import opened Semver
  import opened Catalog
  import opened Sorting

  // ----------------------------------------------------------- entries

  /** The version of a bundle: the text after the first `.v` of its name,
      parsed strictly, with the build metadata kept apart. */
  function EntryVersion(e: ChannelEntry): (r: Option<(Version, string)>)
    ensures r.Some? ==> Contains(e.name, ".v")
  {
    var text :- SplitNth(e.name, ".v", 1);
    var v :- ParseVersion(text);
    Some((v, BuildText(text)))
  }

  /** Whether the entry's version is at or above the start; `None` when
      the version cannot be read (the `unwrap`s panic). */
  function Liveness(start: StartPoint, e: ChannelEntry): Option<bool> {
    var vb :- EntryVersion(e);
    Some(FullCmp(start.version, start.build, vb.0, vb.1) != Greater)
  }

  /** The liveness test against one start. */
  function Reader(start: StartPoint): ChannelEntry -> Option<bool> {
    e => Liveness(start, e)
  }

  /** The live entries of a channel, in order. */
  function LiveEntries(start: StartPoint, es: seq<ChannelEntry>): Option<seq<ChannelEntry>> {
    Select(Reader(start), es)
  }

  /** A name without `.v` has no version: the channel fails. */
  lemma NoVersionFails(start: StartPoint, es: seq<ChannelEntry>, e: ChannelEntry)
    requires e in es && !Contains(e.name, ".v")
    ensures LiveEntries(start, es).None?
  {
    SelectDefined(Reader(start), es);
  }

  /** The live entries are those whose version is at or above the start,
      and they exist exactly when every version can be read. */
  lemma LiveMembers(start: StartPoint, es: seq<ChannelEntry>)
    ensures LiveEntries(start, es).Some? <==> forall e :: e in es ==> EntryVersion(e).Some?
    ensures LiveEntries(start, es).Some? ==>
              forall e :: e in LiveEntries(start, es).value <==>
                e in es && EntryVersion(e).Some? &&
                FullCmp(start.version, start.build, EntryVersion(e).value.0, EntryVersion(e).value.1) != Greater
  {
    var keep := Reader(start);
    SelectDefined(keep, es);
    if LiveEntries(start, es).Some? {
      SelectMembers(keep, es);
    }
  }

  // ----------------------------------------------------------- retain

  /** `v.retain(|y| *y != x)`: the elements other than `x`, in order. */
  function Remove(s: seq<string>, x: string): (r: seq<string>)
    ensures |r| <= |s|
  {
    if s == [] then []
    else Remove(s[..|s| - 1], x) + if s[|s| - 1] == x then [] else [s[|s| - 1]]
  }

  /** Removal deletes every occurrence of `x` and nothing else. */
  lemma {:induction false} RemoveCounts(s: seq<string>, x: string)
    ensures multiset(Remove(s, x))[x] == 0
    ensures forall y :: y != x ==> multiset(Remove(s, x))[y] == multiset(s)[y]
    decreases |s|
  {
    if s != [] {
      var init, last := s[..|s| - 1], s[|s| - 1];
      RemoveCounts(init, x);
      assert s == init + [last];
      var kept := if last == x then [] else [last];
      assert multiset(Remove(s, x)) == multiset(Remove(init, x)) + multiset(kept);
      assert multiset(s) == multiset(init) + multiset{last};
    }
  }

  /** Removal of each name of `xs` in turn. */
  function RemoveAll(s: seq<string>, xs: seq<string>): seq<string> {
    if xs == [] then s else Remove(RemoveAll(s, xs[..|xs| - 1]), xs[|xs| - 1])
  }

  lemma {:induction false} RemoveAllCounts(s: seq<string>, xs: seq<string>)
    ensures forall y :: multiset(RemoveAll(s, xs))[y] == if y in xs then 0 else multiset(s)[y]
    decreases |xs|
  {
    if xs != [] {
      var init := xs[..|xs| - 1];
      RemoveAllCounts(s, init);
      RemoveCounts(RemoveAll(s, init), xs[|xs| - 1]);
      assert xs == init + [xs[|xs| - 1]];
    }
  }

  // ------------------------------------------------------------- state

  /** The per-channel state: the frontier names, last admitted first, the
      lower bounds seen and the skip ranges kept. */
  datatype Tally = Tally(current: seq<string>, tracker: seq<string>, ranges: seq<string>)

  /** The names a live entry removes: what it replaces, then what it skips. */
  function Drops(e: ChannelEntry): seq<string> {
    (if e.replaced.Some? then [e.replaced.value] else []) + Skips(e)
  }

  /** The frontier after admitting a live entry. */
  function Admit(current: seq<string>, e: ChannelEntry): seq<string> {
    RemoveAll([e.name] + current, Drops(e))
  }

  /** Admitting an entry adds its name once, removes everything it drops
      (its own name included, when it drops it) and changes nothing else. */
  lemma AdmitEffect(current: seq<string>, e: ChannelEntry)
    ensures forall y :: multiset(Admit(current, e))[y] ==
              if y in Drops(e) then 0 else multiset(current)[y] + if y == e.name then 1 else 0
  {
    RemoveAllCounts([e.name] + current, Drops(e));
  }

  /** The lower bound of a skip range: its text before the first `<`. */
  function Lower(range: string): (r: string)
    ensures r <= range && '<' !in r
    ensures '<' !in range ==> r == range
    ensures r == range || range[|r|] == '<'
  {
    ContainsChar(Split(range, "<")[0], '<');
    ContainsChar(range, '<');
    if !Contains(range, "<") then
      SplitNone(range, "<");
      Split(range, "<")[0]
    else
      var n := |Split(range, "<")[0]|;
      assert range[n..n + 1] == "<";
      Split(range, "<")[0]
  }

  /** A skip range is kept only when its lower bound is new. */
  function Track(t: Tally, range: string): Tally {
    if Lower(range) in t.tracker then t
    else t.(tracker := [Lower(range)] + t.tracker, ranges := [range] + t.ranges)
  }

  function Step(t: Tally, e: ChannelEntry): Tally {
    var t' := t.(current := Admit(t.current, e));
    if e.skipRange.Some? then Track(t', e.skipRange.value) else t'
  }

  /** The state after the live entries, in order. */
  function Run(live: seq<ChannelEntry>): Tally {
    if live == [] then Tally([], [], [])
    else Step(Run(live[..|live| - 1]), live[|live| - 1])
  }

  lemma RunSnoc(live: seq<ChannelEntry>, e: ChannelEntry)
    ensures Run(live + [e]) == Step(Run(live), e)
  {
    assert (live + [e])[..|live|] == live;
  }

  /** Membership after admitting an entry: its own name or an earlier
      name, and every such name not dropped. */
  lemma AdmitIn(current: seq<string>, e: ChannelEntry, n: string)
    ensures n in Admit(current, e) ==> n == e.name || n in current
    ensures n !in Drops(e) && (n == e.name || n in current) ==> n in Admit(current, e)
  {
    AdmitEffect(current, e);
    assert n in Admit(current, e) <==> n in multiset(Admit(current, e));
    assert n in current <==> n in multiset(current);
  }

  lemma RunCurrent(live: seq<ChannelEntry>)
    requires live != []
    ensures Run(live).current == Admit(Run(live[..|live| - 1]).current, live[|live| - 1])
  {
  }

  /** Every name on the frontier is the name of a live entry. */
  lemma {:induction false} RunNames(live: seq<ChannelEntry>)
    ensures forall n :: n in Run(live).current ==> exists e :: e in live && e.name == n
    decreases |live|
  {
    if live != [] {
      var init, e := live[..|live| - 1], live[|live| - 1];
      RunNames(init);
      RunCurrent(live);
      forall n | n in Run(live).current ensures exists x :: x in live && x.name == n {
        AdmitIn(Run(init).current, e, n);
        if n == e.name {
          assert e in live;
        } else {
          var x :| x in init && x.name == n;
          assert x in live;
        }
      }
    }
  }

  /** A live entry's name stays on the frontier when neither the entry
      itself nor any later live entry drops it, whatever earlier entries
      replace or skip: removal only reaches names already present. */
  lemma {:induction false} Survives(live: seq<ChannelEntry>, i: nat)
    requires i < |live|
    requires forall j :: i <= j < |live| ==> live[i].name !in Drops(live[j])
    ensures live[i].name in Run(live).current
    decreases |live|
  {
    var init, e := live[..|live| - 1], live[|live| - 1];
    if i < |live| - 1 {
      assert init[i] == live[i];
      Survives(init, i);
    }
    RunCurrent(live);
    AdmitIn(Run(init).current, e, live[i].name);
  }

  /** Removal is order dependent: an entry replacing `a` removes it only
      when `a` came first. */
  lemma OrderMatters(a: ChannelEntry, b: ChannelEntry)
    requires b.replaced == Some(a.name) && a.name != b.name
    requires a.name !in Drops(a)
    ensures a.name !in Run([a, b]).current
    ensures a.name in Run([b, a]).current
  {
    RunSnoc([a], b);
    assert [a][..0] == [];
    AdmitEffect(Run([a]).current, b);
    assert a.name in Drops(b);
    assert multiset(Run([a, b]).current)[a.name] == 0;
    Survives([b, a], 1);
  }

  /** The two skip-range lists stay in step, the tracker holding each kept
      range's lower bound, with no lower bound twice. */
  lemma {:induction false} Tracked(live: seq<ChannelEntry>)
    ensures var t := Run(live);
            && |t.tracker| == |t.ranges|
            && (forall i :: 0 <= i < |t.ranges| ==> t.tracker[i] == Lower(t.ranges[i]))
            && NoDup(t.tracker)
    decreases |live|
  {
    if live != [] {
      var init := live[..|live| - 1];
      Tracked(init);
      TrackStep(init, live[|live| - 1]);
    }
  }

  /** One entry's effect on the tracker and the kept ranges: its range and
      lower bound go in front when the bound is new. */
  lemma TrackStep(init: seq<ChannelEntry>, e: ChannelEntry)
    ensures var t, t' := Run(init), Run(init + [e]);
            if e.skipRange.Some? && Lower(e.skipRange.value) !in t.tracker
            then t'.tracker == [Lower(e.skipRange.value)] + t.tracker && t'.ranges == [e.skipRange.value] + t.ranges
            else t'.tracker == t.tracker && t'.ranges == t.ranges
  {
    RunSnoc(init, e);
  }

  /** Some entry of `live` has a skip range with lower bound `b`. */
  predicate BoundSeen(live: seq<ChannelEntry>, b: string) {
    exists j :: 0 <= j < |live| && live[j].skipRange.Some? && Lower(live[j].skipRange.value) == b
  }

  /** Entry `i` has skip range `r`, and no earlier entry has a skip range
      with the same lower bound. */
  predicate FirstOfBound(live: seq<ChannelEntry>, i: int, r: string) {
    0 <= i < |live| && live[i].skipRange == Some(r) && !BoundSeen(live[..i], Lower(r))
  }

  /** A skip range is kept exactly when it is the first, in entry order,
      with its lower bound. */
  lemma {:induction false} FirstRangeWins(live: seq<ChannelEntry>, r: string)
    ensures r in Run(live).ranges <==> exists i :: FirstOfBound(live, i, r)
    decreases |live|
  {
    if live != [] {
      var init, e := live[..|live| - 1], live[|live| - 1];
      FirstRangeWins(init, r);
      TrackerBounds(init);
      TrackStep(init, e);
      assert init + [e] == live;
      if r in Run(live).ranges {
        if r in Run(init).ranges {
          var i :| FirstOfBound(init, i, r);
          FirstOfBoundGrows(init, e, i, r);
        } else {
          assert live[..|init|] == init;
          assert FirstOfBound(live, |init|, r);
        }
      } else {
        forall i | 0 <= i < |live| ensures !FirstOfBound(live, i, r) {
          if i < |init| {
            FirstOfBoundGrows(init, e, i, r);
          } else {
            assert live[..i] == init;
          }
        }
      }
    }
  }

  lemma FirstOfBoundGrows(init: seq<ChannelEntry>, e: ChannelEntry, i: int, r: string)
    requires 0 <= i < |init|
    ensures FirstOfBound(init, i, r) <==> FirstOfBound(init + [e], i, r)
  {
    assert (init + [e])[..i] == init[..i];
  }

  /** The tracker holds exactly the lower bounds of the ranges seen. */
  lemma {:induction false} TrackerBounds(live: seq<ChannelEntry>)
    ensures forall b :: b in Run(live).tracker <==> BoundSeen(live, b)
    ensures forall r :: r in Run(live).ranges ==> Lower(r) in Run(live).tracker
    decreases |live|
  {
    if live != [] {
      var init, e := live[..|live| - 1], live[|live| - 1];
      TrackerBounds(init);
      TrackStep(init, e);
      assert init + [e] == live;
      forall b ensures b in Run(live).tracker <==> BoundSeen(live, b) {
        BoundSeenSnoc(init, e, b);
      }
    }
  }

  lemma BoundSeenSnoc(init: seq<ChannelEntry>, e: ChannelEntry, b: string)
    ensures BoundSeen(init + [e], b) <==>
              BoundSeen(init, b) || (e.skipRange.Some? && Lower(e.skipRange.value) == b)
  {
    var live := init + [e];
    if BoundSeen(live, b) {
      var j :| 0 <= j < |live| && live[j].skipRange.Some? && Lower(live[j].skipRange.value) == b;
      if j < |init| {
        assert init[j] == live[j];
      }
    }
    if BoundSeen(init, b) {
      var j :| 0 <= j < |init| && init[j].skipRange.Some? && Lower(init[j].skipRange.value) == b;
      assert live[j] == init[j];
    }
    if e.skipRange.Some? && Lower(e.skipRange.value) == b {
      assert live[|init|] == e;
    }
  }

  // ---------------------------------------------------------- listing

  /** A channel is listed when it is an `olm.channel` record and the filter
      names it or is `all`. */
  predicate Selected(filterChannel: string, c: Channel) {
    c.schema == "olm.channel" && (filterChannel == c.name || filterChannel == "all")
  }

  /** What is reported for one channel: the frontier sorted length first
      and the kept skip ranges sorted lexically. */
  datatype ChannelResult = ChannelResult(name: string, path: seq<string>, skipRanges: seq<string>)

  function Finish(name: string, t: Tally): ChannelResult {
    ChannelResult(name, Sort(LengthFirst, t.current),
                  if |t.ranges| > 0 then Sort(Lexical, t.ranges) else t.ranges)
  }

  function ChannelOutcome(start: StartPoint, c: Channel): Option<ChannelResult> {
    var es :- c.entries;
    var live :- LiveEntries(start, es);
    Some(Finish(c.name, Run(live)))
  }

  function Results(start: StartPoint, filterChannel: string, cs: seq<Channel>): Option<seq<ChannelResult>> {
    if cs == [] then Some([])
    else
      var init :- Results(start, filterChannel, cs[..|cs| - 1]);
      var c := cs[|cs| - 1];
      if !Selected(filterChannel, c) then Some(init)
      else
        var r :- ChannelOutcome(start, c);
        Some(init + [r])
  }

  lemma {:induction false} ResultsFail(start: StartPoint, f: string, a: seq<Channel>, b: seq<Channel>)
    requires Results(start, f, a).None?
    ensures Results(start, f, a + b).None?
    decreases |b|
  {
    if b == [] {
      assert a + b == a;
    } else {
      ResultsFail(start, f, a, b[..|b| - 1]);
      assert (a + b)[..|a + b| - 1] == a + b[..|b| - 1];
    }
  }

  lemma ResultsSnoc(start: StartPoint, f: string, cs: seq<Channel>, c: Channel, o: Option<ChannelResult>)
    requires Results(start, f, cs).Some?
    requires Selected(f, c) ==> o == ChannelOutcome(start, c)
    ensures Results(start, f, cs + [c]) ==
              if !Selected(f, c) then Results(start, f, cs)
              else if o.None? then None
              else Some(Results(start, f, cs).value + [o.value])
  {
    assert (cs + [c])[..|cs|] == cs;
  }

  /** The listing of an operator's channels under its filter. */
  function Listing(cs: seq<Channel>, filter: FilterOperator): Option<seq<ChannelResult>> {
    var start :- Start(filter.fromVersion);
    Results(start, if filter.channel.Some? then filter.channel.value else "all", cs)
  }

  /** Only selected channels are reported, in order. */
  lemma {:induction false} ResultsSelected(start: StartPoint, f: string, cs: seq<Channel>)
    requires Results(start, f, cs).Some?
    ensures forall r :: r in Results(start, f, cs).value ==>
              exists c :: c in cs && Selected(f, c) && c.name == r.name
    decreases |cs|
  {
    if cs != [] {
      var init := cs[..|cs| - 1];
      ResultsSelected(start, f, init);
      forall r | r in Results(start, f, cs).value
        ensures exists c :: c in cs && Selected(f, c) && c.name == r.name
      {
        if r in Results(start, f, init).value {
          var c :| c in init && Selected(f, c) && c.name == r.name;
          assert c in cs;
        } else {
          assert cs[|cs| - 1] in cs;
        }
      }
    }
  }

  /** A reported path is sorted length first and holds, as a multiset,
      the frontier, every name on it a live bundle's; the reported skip
      ranges are sorted and hold the kept ranges. */
  lemma FinishFacts(name: string, live: seq<ChannelEntry>)
    ensures var r := Finish(name, Run(live));
            && Sorted(LengthFirst, r.path) && multiset(r.path) == multiset(Run(live).current)
            && Sorted(Lexical, r.skipRanges) && multiset(r.skipRanges) == multiset(Run(live).ranges)
            && forall n :: n in r.path ==> exists e :: e in live && e.name == n
  {
    var r := Finish(name, Run(live));
    RunNames(live);
    forall n | n in r.path ensures exists e :: e in live && e.name == n {
      assert n in multiset(r.path);
      assert n in multiset(Run(live).current);
      assert n in Run(live).current;
    }
  }

  /** The bundles on a reported path are live entries of the channel. */
  lemma OutcomeNames(start: StartPoint, c: Channel)
    requires ChannelOutcome(start, c).Some?
    ensures forall n :: n in ChannelOutcome(start, c).value.path ==>
              exists e :: e in c.entries.value && e.name == n && e in LiveEntries(start, c.entries.value).value
  {
    var live := LiveEntries(start, c.entries.value).value;
    FinishFacts(c.name, live);
    SelectIn(Reader(start), c.entries.value);
  }

  // ------------------------------------------------------------ loops

  /** `current.retain(|y| *y != x)`. */
  method Retain(current: seq<string>, x: string) returns (r: seq<string>)
    ensures r == Remove(current, x)
  {
    r := [];
    var i := 0;
    while i < |current|
      invariant 0 <= i <= |current|
      invariant r == Remove(current[..i], x)
    {
      assert current[..i + 1][..i] == current[..i];
      if current[i] != x {
        r := r + [current[i]];
      }
      i := i + 1;
    }
    assert current[..i] == current;
  }

  /** Each name of `xs` removed in turn. */
  method RetainAll(current: seq<string>, xs: seq<string>) returns (r: seq<string>)
    ensures r == RemoveAll(current, xs)
  {
    r := current;
    var k := 0;
    while k < |xs|
      invariant 0 <= k <= |xs|
      invariant r == RemoveAll(current, xs[..k])
    {
      assert xs[..k + 1][..k] == xs[..k];
      r := Retain(r, xs[k]);
      k := k + 1;
    }
    assert xs[..k] == xs;
  }

  /** Removing `a` then `b` is removing `a + b`. */
  lemma {:induction false} RemoveAllAppend(s: seq<string>, a: seq<string>, b: seq<string>)
    ensures RemoveAll(RemoveAll(s, a), b) == RemoveAll(s, a + b)
    decreases |b|
  {
    if b == [] {
      assert a + b == a;
    } else {
      RemoveAllAppend(s, a, b[..|b| - 1]);
      assert (a + b)[..|a + b| - 1] == a + b[..|b| - 1];
    }
  }

  /** A live entry's name goes in front, then what it replaces and each
      name it skips are removed. */
  method AdmitEntry(current: seq<string>, e: ChannelEntry) returns (r: seq<string>)
    ensures r == Admit(current, e)
  {
    r := [e.name] + current;
    var replaced: seq<string> := [];
    if e.replaced.Some? {
      r := Retain(r, e.replaced.value);
      replaced := [e.replaced.value];
      assert replaced[..0] == [];
    }
    assert r == RemoveAll([e.name] + current, replaced);
    if e.skips.Some? {
      r := RetainAll(r, e.skips.value);
    }
    RemoveAllAppend([e.name] + current, replaced, Skips(e));
    assert replaced + Skips(e) == Drops(e);
  }

  /** One live entry: admitted to the frontier, then its skip range
      tracked. */
  method StepEntry(t: Tally, e: ChannelEntry) returns (r: Tally)
    ensures r == Step(t, e)
  {
    var current := AdmitEntry(t.current, e);
    r := t.(current := current);
    if e.skipRange.Some? {
      var sr := e.skipRange.value;
      var lower := Split(sr, "<")[0];
      if !(lower in r.tracker) {
        r := r.(tracker := [lower] + r.tracker, ranges := [sr] + r.ranges);
      }
    }
  }

  /** The entry loop of one channel: each entry's version is read and
      compared with the start by `keep`, and each live entry is applied to
      the state. */
  method RunEntries(keep: ChannelEntry -> Option<bool>, es: seq<ChannelEntry>) returns (r: Option<Tally>)
    ensures r.None? <==> Select(keep, es).None?
    ensures r.Some? ==> r.value == Run(Select(keep, es).value)
  {
    ghost var live: seq<ChannelEntry> := [];
    var t := Tally([], [], []);
    var i := 0;
    while i < |es|
      invariant 0 <= i <= |es|
      invariant Select(keep, es[..i]) == Some(live)
      invariant t == Run(live)
    {
      var y := es[i];
      var k := keep(y);
      assert es[..i + 1] == es[..i] + [y];
      SelectStep(keep, es[..i], y);
      if k.None? {
        assert es == es[..i + 1] + es[i + 1..];
        SelectAppend(keep, es[..i + 1], es[i + 1..]);
        return None;
      }
      if k.value {
        RunSnoc(live, y);
        t := StepEntry(t, y);
        live := live + [y];
      }
      i := i + 1;
    }
    assert es[..i] == es;
    r := Some(t);
  }

  /** The entry loop of one channel, then the two sorts. */
  method ProcessChannel(start: StartPoint, c: Channel) returns (r: Option<ChannelResult>)
    ensures r == ChannelOutcome(start, c)
  {
    if c.entries.None? {
      return None;
    }
    var t := RunEntries(Reader(start), c.entries.value);
    if t.None? {
      return None;
    }
    var path := Sort(LengthFirst, t.value.current);
    var ranges := t.value.ranges;
    if |ranges| > 0 {
      ranges := Sort(Lexical, ranges);
    }
    r := Some(ChannelResult(c.name, path, ranges));
  }

  /** `list_channel_info` of revision B over the decoded channel records. */
  method ListChannelInfo(cs: seq<Channel>, filter: FilterOperator) returns (r: Option<seq<ChannelResult>>)
    ensures r == Listing(cs, filter)
  {
    var start := Start(filter.fromVersion);
    if start.None? {
      return None;
    }
    var currentChannel := "all";
    if filter.channel.Some? {
      currentChannel := filter.channel.value;
    }
    r := ListChannels(start.value, currentChannel, cs);
  }

  /** The channel loop: each selected channel in turn. */
  method ListChannels(start: StartPoint, currentChannel: string, cs: seq<Channel>) returns (r: Option<seq<ChannelResult>>)
    ensures r == Results(start, currentChannel, cs)
  {
    var results: seq<ChannelResult> := [];
    var i := 0;
    while i < |cs|
      invariant 0 <= i <= |cs|
      invariant Results(start, currentChannel, cs[..i]) == Some(results)
    {
      var x := cs[i];
      assert cs[..i + 1] == cs[..i] + [x];
      if x.schema == "olm.channel" {
        if currentChannel == x.name || currentChannel == "all" {
          var out := ProcessChannel(start, x);
          ResultsSnoc(start, currentChannel, cs[..i], x, out);
          if out.None? {
            assert cs == cs[..i + 1] + cs[i + 1..];
            ResultsFail(start, currentChannel, cs[..i + 1], cs[i + 1..]);
            return None;
          }
          results := results + [out.value];
        } else {
          ResultsSnoc(start, currentChannel, cs[..i], x, None);
        }
      } else {
        ResultsSnoc(start, currentChannel, cs[..i], x, None);
      }
      i := i + 1;
    }
    assert cs[..i] == cs;
    r := Some(results);
  }
}
