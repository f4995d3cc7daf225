/** One run of the report builder as a step on the tracked file: validate, carry, supersede, merge, write. */
module ReproRun {
  import opened Order
  import opened ReproModel
  import opened ReproListing

  /** What a run is given: the current artifact name, the fresh local attestation, the explicit files. */
  datatype Input = Input(current: string, local: Attestation, explicit: seq<Raw<Attestation>>)

  function Explicit(input: Input): seq<Attestation> {
    Values(input.explicit)
  }

  // Carrying.

  /** Tracked attestations of the current artifact and commit whose label is not attested afresh. */
  function Carried(atts: seq<Attestation>, current: string, skip: set<string>, commit: string): seq<Attestation> {
    if atts == [] then []
    else
      var last := atts[|atts| - 1];
      Carried(atts[..|atts| - 1], current, skip, commit)
      + if last.artifactName == current && last.hostLabel !in skip && last.commit == commit then [last] else []
  }

  /** Tracked attestations the run leaves behind: an earlier release, or another commit of a host not skipped. */
  function LeftBehind(atts: seq<Attestation>, current: string, skip: set<string>, commit: string): seq<Entry> {
    if atts == [] then []
    else
      var last := atts[|atts| - 1];
      LeftBehind(atts[..|atts| - 1], current, skip, commit)
      + if last.artifactName != current then
          [Entry(last.hostLabel, last.commit, last.artifactSha256, PREVIOUS_RELEASE + last.artifactName)]
        else if last.hostLabel !in skip && last.commit != commit then
          [Entry(last.hostLabel, last.commit, last.artifactSha256, OTHER_COMMIT)]
        else []
  }

  datatype CarryOutcome = CarryRefused(code: Code) | CarryDone(carried: seq<Attestation>, superseded: seq<Entry>)

  ghost function Pool(t: Tracked, current: string, skip: set<string>, commit: string): seq<Entry> {
    LeftBehind(Held(t).0, current, skip, commit) + Held(t).1
  }

  ghost function Reattested(t: Tracked, current: string, skip: set<string>, commit: string): set<string> {
    skip + Labels(Carried(Held(t).0, current, skip, commit))
  }

  method CarriedAttestations(t: Tracked, current: string, skip: set<string>, commit: string) returns (r: CarryOutcome)
    ensures r.CarryRefused? ==>
              r.code == (if t != Absent && !Integral(t, current) then AttestationInvalid else AttestationConflict)
    ensures r.CarryRefused? <==> (t != Absent && !Integral(t, current))
                                 || Contradicts(Pool(t, current, skip, commit), Reattested(t, current, skip, commit),
                                    commit)
    ensures r.CarryDone? ==>
              && r.carried == Carried(Held(t).0, current, skip, commit)
              && IsSuperseded(r.superseded, Pool(t, current, skip, commit), Reattested(t, current, skip, commit))
  {
    if t == Absent { return CarryDone([], []); }
    if !Integral(t, current) { return CarryRefused(AttestationInvalid); }
    var (atts, listing) := Held(t);
    var carried: seq<Attestation>, listed: seq<Entry> := [], [];
    for i := 0 to |atts|
      invariant carried == Carried(atts[..i], current, skip, commit)
      invariant listed == LeftBehind(atts[..i], current, skip, commit)
    {
      var a := atts[i];
      assert atts[..i + 1][..i] == atts[..i];
      if a.artifactName != current {
        listed := listed + [Entry(a.hostLabel, a.commit, a.artifactSha256, PREVIOUS_RELEASE + a.artifactName)];
      } else if a.hostLabel in skip {
      } else if a.commit != commit {
        listed := listed + [Entry(a.hostLabel, a.commit, a.artifactSha256, OTHER_COMMIT)];
      } else {
        carried := carried + [a];
      }
    }
    assert atts[..|atts|] == atts;
    var refused, superseded := Supersede(listed + listing, skip + Labels(carried), commit);
    if refused { return CarryRefused(AttestationConflict); }
    return CarryDone(carried, superseded);
  }

  // Merging.

  function LabelsOf(atts: seq<Attestation>): seq<string> {
    seq(|atts|, i requires 0 <= i < |atts| => atts[i].hostLabel)
  }

  ghost predicate AllValid(atts: seq<Attestation>, current: string) {
    forall i :: 0 <= i < |atts| ==> Valid(atts[i], current, false)
  }

  ghost predicate SomeInvalid(atts: seq<Attestation>, current: string) {
    !AllValid(atts, current) || !Distinct(LabelsOf(atts))
  }

  ghost predicate TwoDigests(atts: seq<Attestation>) {
    exists a, b :: a in atts && b in atts && a.commit == b.commit && a.artifactSha256 != b.artifactSha256
  }

  /** The hosts of one commit, in report order. */
  function HostsOf(atts: seq<Attestation>, commit: string): seq<string> {
    if atts == [] then []
    else
      var last := atts[|atts| - 1];
      HostsOf(atts[..|atts| - 1], commit) + if last.commit == commit then [last.hostLabel] else []
  }

  ghost predicate CommitsMatch(commits: map<string, CommitFacts>, atts: seq<Attestation>) {
    && (forall c :: c in commits ==> commits[c].hosts == HostsOf(atts, c) != [])
    && (forall a :: a in atts ==> a.commit in commits && commits[a.commit].artifactSha256 == a.artifactSha256)
  }

  ghost predicate SharedCommit(atts: seq<Attestation>) {
    exists i, j :: 0 <= i < j < |atts| && atts[i].commit == atts[j].commit
  }

  /** `build_report` for a list it does not refuse. */
  ghost predicate IsReport(r: Report, atts: seq<Attestation>, superseded: seq<Entry>) {
    && Ascending(LabelsOf(r.attestations), TextLess)
    && (forall a :: a in r.attestations <==> a in atts)
    && r.distinctHosts == |r.attestations|
    && CommitsMatch(r.commits, r.attestations)
    && (r.multiHost <==> SharedCommit(r.attestations))
    && r.superseded == superseded
    && r.blockers == if r.multiHost then BLOCKERS[1..] else BLOCKERS
  }

  datatype BuildOutcome = BuildRefused(code: Code) | Built(report: Report)

  lemma {:induction false} HostsCount(atts: seq<Attestation>, c: string)
    ensures |HostsOf(atts, c)| >= 1 <==> exists i :: 0 <= i < |atts| && atts[i].commit == c
    ensures |HostsOf(atts, c)| >= 2 <==> exists i, j :: 0 <= i < j < |atts| && atts[i].commit == atts[j].commit == c
  {
    if atts != [] {
      var init := atts[..|atts| - 1];
      HostsCount(init, c);
      assert forall i :: 0 <= i < |init| ==> init[i] == atts[i];
    }
  }

  method ByLabel(atts: seq<Attestation>, current: string) returns (ok: bool, byLabel: map<string, Attestation>)
    ensures ok <==> !SomeInvalid(atts, current)
    ensures ok ==> Indexes(byLabel, atts)
  {
    byLabel := map[];
    for i := 0 to |atts|
      invariant !SomeInvalid(atts[..i], current)
      invariant Indexes(byLabel, atts[..i])
    {
      var a := atts[i];
      InvalidGrows(atts, i, current);
      LabelSeen(byLabel, atts, i);
      if !Valid(a, current, false) || a.hostLabel in byLabel { return false, map[]; }
      IndexGrows(byLabel, atts[..i], a);
      byLabel := byLabel[a.hostLabel := a];
      assert atts[..i + 1] == atts[..i] + [a];
    }
    assert atts[..|atts|] == atts;
    return true, byLabel;
  }

  lemma InvalidGrows(atts: seq<Attestation>, i: nat, current: string)
    requires i < |atts| && !SomeInvalid(atts[..i], current)
    ensures SomeInvalid(atts[..i + 1], current) <==>
            !Valid(atts[i], current, false) || exists k :: 0 <= k < i && LabelsOf(atts)[k] == LabelsOf(atts)[i]
    ensures SomeInvalid(atts[..i + 1], current) ==> SomeInvalid(atts, current)
  {
    assert LabelsOf(atts[..i]) == LabelsOf(atts)[..i] && LabelsOf(atts[..i + 1]) == LabelsOf(atts)[..i + 1];
    assert forall k :: 0 <= k < i ==> atts[..i][k] == atts[k] == atts[..i + 1][k];
    assert atts[..i + 1][i] == atts[i];
  }

  lemma LabelSeen(byLabel: map<string, Attestation>, atts: seq<Attestation>, i: nat)
    requires i < |atts| && Indexes(byLabel, atts[..i])
    ensures atts[i].hostLabel in byLabel <==> exists k :: 0 <= k < i && LabelsOf(atts)[k] == LabelsOf(atts)[i]
  {
    forall k | 0 <= k < i ensures LabelsOf(atts)[k] in byLabel { assert atts[..i][k] in atts[..i]; }
    if atts[i].hostLabel in byLabel {
      var k :| 0 <= k < i && atts[..i][k] == byLabel[atts[i].hostLabel];
      assert LabelsOf(atts)[k] == LabelsOf(atts)[i];
    }
  }

  lemma IndexGrows(byLabel: map<string, Attestation>, atts: seq<Attestation>, a: Attestation)
    requires Indexes(byLabel, atts) && a.hostLabel !in byLabel
    ensures Indexes(byLabel[a.hostLabel := a], atts + [a])
  {
  }

  ghost predicate Indexes(byLabel: map<string, Attestation>, atts: seq<Attestation>) {
    && (forall l :: l in byLabel ==> byLabel[l] in atts && byLabel[l].hostLabel == l)
    && (forall a :: a in atts ==> a.hostLabel in byLabel && byLabel[a.hostLabel] == a)
  }

  method GroupByCommit(atts: seq<Attestation>) returns (ok: bool, commits: map<string, CommitFacts>)
    ensures ok <==> !TwoDigests(atts)
    ensures ok ==> CommitsMatch(commits, atts)
  {
    commits := map[];
    for i := 0 to |atts|
      invariant CommitsMatch(commits, atts[..i])
      invariant forall c :: c in commits ==>
                exists a :: a in atts && a.commit == c && a.artifactSha256 == commits[c].artifactSha256
    {
      var a := atts[i];
      assert a in atts && atts[..i + 1] == atts[..i] + [a];
      var entry := if a.commit in commits then commits[a.commit] else CommitFacts(a.artifactSha256, []);
      if entry.artifactSha256 != a.artifactSha256 { return false, map[]; }
      CommitsGrow(commits, atts[..i], a, entry);
      commits := commits[a.commit := entry.(hosts := entry.hosts + [a.hostLabel])];
    }
    assert atts[..|atts|] == atts;
    return true, commits;
  }

  lemma CommitsGrow(commits: map<string, CommitFacts>, atts: seq<Attestation>, a: Attestation, entry: CommitFacts)
    requires CommitsMatch(commits, atts) && entry.artifactSha256 == a.artifactSha256
    requires entry == if a.commit in commits then commits[a.commit] else CommitFacts(a.artifactSha256, [])
    ensures CommitsMatch(commits[a.commit := entry.(hosts := entry.hosts + [a.hostLabel])], atts + [a])
  {
    if a.commit !in commits { NoHosts(atts, a.commit); }
    forall c ensures HostsOf(atts + [a], c) == HostsOf(atts, c) + if c == a.commit then [a.hostLabel] else [] {
      HostsGrow(atts, a, c);
    }
  }

  lemma HostsGrow(atts: seq<Attestation>, a: Attestation, c: string)
    ensures HostsOf(atts + [a], c) == HostsOf(atts, c) + if c == a.commit then [a.hostLabel] else []
  {
    assert (atts + [a])[..|atts|] == atts;
  }

  lemma NoHosts(atts: seq<Attestation>, c: string)
    requires forall a :: a in atts ==> a.commit != c
    ensures HostsOf(atts, c) == []
  {
    HostsCount(atts, c);
    forall k | 0 <= k < |atts| ensures atts[k].commit != c { assert atts[k] in atts; }
  }

  /** The attestations in the order of their labels. */
  method InLabelOrder(byLabel: map<string, Attestation>, ghost atts: seq<Attestation>)
    returns (sorted: seq<Attestation>)
    requires Indexes(byLabel, atts)
    ensures Ascending(LabelsOf(sorted), TextLess)
    ensures forall a :: a in sorted <==> a in atts
  {
    TextTotal();
    var labels := Listing(byLabel.Keys, TextLess);
    assert forall k :: 0 <= k < |labels| ==> labels[k] in Elements(labels);
    sorted := seq(|labels|, i requires 0 <= i < |labels| => byLabel[labels[i]]);
    assert LabelsOf(sorted) == labels;
    forall a ensures a in sorted <==> a in atts {
      if a in atts {
        assert a.hostLabel in Elements(labels);
        var k :| 0 <= k < |labels| && labels[k] == a.hostLabel;
        assert sorted[k] == a;
      }
    }
  }

  lemma MultiHost(commits: map<string, CommitFacts>, sorted: seq<Attestation>)
    requires CommitsMatch(commits, sorted)
    ensures (exists c :: c in commits && |commits[c].hosts| >= REQUIRED_HOSTS) <==> SharedCommit(sorted)
  {
    if i, j :| 0 <= i < j < |sorted| && sorted[i].commit == sorted[j].commit {
      assert sorted[i] in sorted;
      HostsCount(sorted, sorted[i].commit);
    }
    if c :| c in commits && |commits[c].hosts| >= REQUIRED_HOSTS {
      HostsCount(sorted, c);
    }
  }

  method BuildReport(atts: seq<Attestation>, current: string, superseded: seq<Entry>) returns (r: BuildOutcome)
    ensures r.BuildRefused? <==> SomeInvalid(atts, current) || TwoDigests(atts)
    ensures r.BuildRefused? ==> r.code == if SomeInvalid(atts, current) then AttestationInvalid else AttestationConflict
    ensures r.Built? ==> IsReport(r.report, atts, superseded)
  {
    var ok, byLabel := ByLabel(atts, current);
    if !ok { return BuildRefused(AttestationInvalid); }
    var sorted := InLabelOrder(byLabel, atts);
    var commits;
    ok, commits := GroupByCommit(sorted);
    if !ok { return BuildRefused(AttestationConflict); }
    var multiHost := exists c :: c in commits && |commits[c].hosts| >= REQUIRED_HOSTS;
    MultiHost(commits, sorted);
    var blockers := if multiHost then BLOCKERS[1..] else BLOCKERS;
    return Built(Report(|sorted|, sorted, commits, multiHost, superseded, blockers));
  }

  // The run.

  ghost function Skip(input: Input): set<string> {
    {input.local.hostLabel} + Labels(Explicit(input))
  }

  ghost function Merged(t: Tracked, input: Input): seq<Attestation> {
    [input.local] + Explicit(input) + Carried(Held(t).0, input.current, Skip(input), input.local.commit)
  }

  ghost predicate InputValid(input: Input) {
    Valid(input.local, input.current, false)
    && forall i :: 0 <= i < |input.explicit| ==> ValidRaw(input.explicit[i], input.current, false)
  }

  /** No check of a run fails. */
  ghost predicate Passes(t: Tracked, input: Input) {
    var commit, skip := input.local.commit, Skip(input);
    && Agree(input)
    && (t != Absent ==> Integral(t, input.current))
    && !Contradicts(Pool(t, input.current, skip, commit), Reattested(t, input.current, skip, commit), commit)
    && !SomeInvalid(Merged(t, input), input.current)
    && !TwoDigests(Merged(t, input))
  }

  /** The code of the first check that fails. */
  ghost function Refusal(t: Tracked, input: Input): Code
    requires !Passes(t, input)
  {
    var commit, skip := input.local.commit, Skip(input);
    if !InputValid(input) then AttestationInvalid
    else if exists a :: a in Explicit(input) && a.commit != commit then AttestationConflict
    else if t != Absent && !Integral(t, input.current) then AttestationInvalid
    else if Contradicts(Pool(t, input.current, skip, commit), Reattested(t, input.current, skip, commit), commit) then
      AttestationConflict
    else if SomeInvalid(Merged(t, input), input.current) then AttestationInvalid
    else AttestationConflict
  }

  /** The listing a run writes, when nothing in the pool contradicts it. */
  ghost predicate Lists(t: Tracked, input: Input, listing: seq<Entry>) {
    var commit, skip := input.local.commit, Skip(input);
    var pool, again := Pool(t, input.current, skip, commit), Reattested(t, input.current, skip, commit);
    !Contradicts(pool, again, commit) && IsSuperseded(listing, pool, again)
  }

  /** The report a run writes, when its attestations can be merged. */
  ghost predicate Merges(t: Tracked, input: Input, r: Report) {
    && !SomeInvalid(Merged(t, input), input.current) && !TwoDigests(Merged(t, input))
    && IsReport(r, Merged(t, input), r.superseded)
  }

  ghost predicate Agree(input: Input) {
    InputValid(input) && forall a :: a in Explicit(input) ==> a.commit == input.local.commit
  }

  /** The report of a run that does not refuse. */
  ghost predicate Writes(t: Tracked, input: Input, r: Report) {
    Agree(input) && (t != Absent ==> Integral(t, input.current)) && Lists(t, input, r.superseded) && Merges(t, input, r)
  }

  method LoadExplicit(input: Input) returns (ok: bool, explicit: seq<Attestation>)
    ensures ok <==> forall i :: 0 <= i < |input.explicit| ==> ValidRaw(input.explicit[i], input.current, false)
    ensures ok ==> explicit == Explicit(input)
  {
    explicit := [];
    for i := 0 to |input.explicit|
      invariant forall k :: 0 <= k < i ==> ValidRaw(input.explicit[k], input.current, false)
      invariant explicit == Values(input.explicit[..i])
    {
      if !ValidRaw(input.explicit[i], input.current, false) { return false, []; }
      assert input.explicit[..i + 1][..i] == input.explicit[..i];
      explicit := explicit + [input.explicit[i].value];
    }
    assert input.explicit[..|input.explicit|] == input.explicit;
    return true, explicit;
  }

  method ExplicitOfCurrentCommit(explicit: seq<Attestation>, commit: string) returns (ok: bool)
    ensures ok <==> forall a :: a in explicit ==> a.commit == commit
  {
    for i := 0 to |explicit|
      invariant forall k :: 0 <= k < i ==> explicit[k].commit == commit
    {
      if explicit[i].commit != commit {
        assert explicit[i] in explicit;
        return false;
      }
    }
    return true;
  }

  datatype RunOutcome = Refused(code: Code) | Passed(report: Report)

  /** The report file under the output path. */
  class ReportFile {
    var tracked: Tracked

    constructor (tracked: Tracked)
      ensures this.tracked == tracked
    {
      this.tracked := tracked;
    }

    /** The write path of `main`: a refused run leaves the file as it was. */
    method Rebuild(input: Input) returns (o: RunOutcome)
      modifies this
      ensures o.Refused? <==> !Passes(old(tracked), input)
      ensures o.Refused? ==> o.code == Refusal(old(tracked), input) && tracked == old(tracked)
      ensures o.Passed? ==> Writes(old(tracked), input, o.report) && tracked == Written(o.report)
    {
      var local, current := input.local, input.current;
      if !Valid(local, current, false) { return Refused(AttestationInvalid); }
      var ok, explicit := LoadExplicit(input);
      if !ok { return Refused(AttestationInvalid); }
      ok := ExplicitOfCurrentCommit(explicit, local.commit);
      if !ok { return Refused(AttestationConflict); }
      var skip := {local.hostLabel} + Labels(explicit);
      var carry := CarriedAttestations(tracked, current, skip, local.commit);
      if carry.CarryRefused? { return Refused(carry.code); }
      var built := BuildReport([local] + explicit + carry.carried, current, carry.superseded);
      if built.BuildRefused? { return Refused(built.code); }
      tracked := Written(built.report);
      return Passed(built.report);
    }
  }
}
