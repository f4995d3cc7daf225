/** What holds over every sequence of report rebuilds. */
module ReproTheorems {
  import opened Order
  import opened ReproModel
  import opened ReproListing
  import opened ReproRun

  // Members of what a run computes.

  ghost predicate IsCarried(a: Attestation, current: string, skip: set<string>, commit: string) {
    a.artifactName == current && a.hostLabel !in skip && a.commit == commit
  }

  lemma {:induction false} CarriedMembers(atts: seq<Attestation>, current: string, skip: set<string>, commit: string,
                                          a: Attestation)
    ensures a in Carried(atts, current, skip, commit) <==> a in atts && IsCarried(a, current, skip, commit)
  {
    if atts != [] {
      CarriedMembers(atts[..|atts| - 1], current, skip, commit, a);
      assert atts == atts[..|atts| - 1] + [atts[|atts| - 1]];
    }
  }

  /** Every tracked attestation is skipped, carried, or left behind as an entry of its own host, commit and digest. */
  lemma {:induction false} LeftBehindHas(atts: seq<Attestation>, current: string, skip: set<string>, commit: string,
                                         a: Attestation)
    requires a in atts && a.hostLabel !in skip && !IsCarried(a, current, skip, commit)
    ensures exists e :: e in LeftBehind(atts, current, skip, commit) && e.hostLabel == a.hostLabel
                        && e.commit == a.commit && e.artifactSha256 == a.artifactSha256
  {
    var init, last := atts[..|atts| - 1], atts[|atts| - 1];
    assert atts == init + [last];
    if a in init {
      LeftBehindHas(init, current, skip, commit, a);
    } else {
      var all := LeftBehind(atts, current, skip, commit);
      assert all[|all| - 1].hostLabel == a.hostLabel;
    }
  }

  lemma {:induction false} LeftBehindOnly(atts: seq<Attestation>, current: string, skip: set<string>, commit: string,
                                          e: Entry)
    requires e in LeftBehind(atts, current, skip, commit)
    ensures e.reason != ""
    ensures exists a :: a in atts && !IsCarried(a, current, skip, commit) && e.hostLabel == a.hostLabel
                        && e.commit == a.commit && e.artifactSha256 == a.artifactSha256
  {
    var init, last := atts[..|atts| - 1], atts[|atts| - 1];
    assert atts == init + [last];
    if e in LeftBehind(init, current, skip, commit) { LeftBehindOnly(init, current, skip, commit, e); }
  }

  lemma {:induction false} ValuesMembers<T>(raws: seq<Raw<T>>, v: T)
    ensures v in Values(raws) <==> Shaped(v) in raws
  {
    if raws != [] {
      ValuesMembers(raws[..|raws| - 1], v);
      assert raws == raws[..|raws| - 1] + [raws[|raws| - 1]];
    }
  }

  lemma {:induction false} ValuesOfShaped<T>(vs: seq<T>)
    ensures Values(AllShaped(vs)) == vs
  {
    if vs != [] {
      assert AllShaped(vs)[..|vs| - 1] == AllShaped(vs[..|vs| - 1]);
      ValuesOfShaped(vs[..|vs| - 1]);
    }
  }

  lemma HeldWritten(r: Report)
    ensures Held(Written(r)) == (r.attestations, r.superseded)
  {
    ValuesOfShaped(r.attestations);
    ValuesOfShaped(r.superseded);
  }

  /** The parameters every run lemma speaks about. */
  ghost function Again(t: Tracked, input: Input): set<string> {
    Reattested(t, input.current, Skip(input), input.local.commit)
  }

  /** The hosts a successful run attests are exactly the ones whose listing entries it retires. */
  lemma AttestedHosts(t: Tracked, input: Input, r: Report)
    requires Writes(t, input, r)
    ensures Labels(r.attestations) == Again(t, input)
  {
    var carried := Carried(Held(t).0, input.current, Skip(input), input.local.commit);
    SameLabels(r.attestations, Merged(t, input));
    LabelsConcat([input.local] + Explicit(input), carried);
    LabelsConcat([input.local], Explicit(input));
  }

  lemma SameLabels(a: seq<Attestation>, b: seq<Attestation>)
    requires forall x :: x in a <==> x in b
    ensures Labels(a) == Labels(b)
  {
  }

  lemma LabelsConcat(a: seq<Attestation>, b: seq<Attestation>)
    ensures Labels(a + b) == Labels(a) + Labels(b)
  {
    forall l | l in Labels(a) + Labels(b) ensures l in Labels(a + b) {
      var x :| (x in a || x in b) && x.hostLabel == l;
      assert x in a + b;
    }
  }

  // One run.

  /** A host the file knows attests again or is in the pool the listing is made from. */
  lemma HostPooled(t: Tracked, current: string, skip: set<string>, commit: string, host: string)
    requires host in KnownHosts(t) && host !in Reattested(t, current, skip, commit)
    ensures exists e :: e in Pool(t, current, skip, commit) && e.hostLabel == host
  {
    if a :| a in Held(t).0 && a.hostLabel == host {
      CarriedMembers(Held(t).0, current, skip, commit, a);
      LeftBehindHas(Held(t).0, current, skip, commit, a);
    } else {
      var e :| e in Held(t).1 && e.hostLabel == host;
      assert e in Pool(t, current, skip, commit);
    }
  }

  lemma PoolListed(listing: seq<Entry>, pool: seq<Entry>, reattested: set<string>, host: string)
    requires IsSuperseded(listing, pool, reattested) && host !in reattested
    requires exists e :: e in pool && e.hostLabel == host
    ensures host in Hosts(listing)
  {
    var e :| e in pool && e.hostLabel == host;
    var f :| f in listing && KeyOf(f) == KeyOf(e);
  }

  function KnownHosts(t: Tracked): set<string> {
    Labels(Held(t).0) + Hosts(Held(t).1)
  }

  /** No host disappears. */
  lemma HostsKept(t: Tracked, input: Input, r: Report)
    requires Writes(t, input, r)
    ensures KnownHosts(t) <= Labels(r.attestations) + Hosts(r.superseded)
  {
    AttestedHosts(t, input, r);
    forall host | host in KnownHosts(t) - Again(t, input) ensures host in Hosts(r.superseded) {
      HostPooled(t, input.current, Skip(input), input.local.commit, host);
      PoolListed(r.superseded, Pool(t, input.current, Skip(input), input.local.commit), Again(t, input), host);
    }
  }

  /** A file whose attestations name one commit and one digest under distinct labels, and whose listing is ascending
      by key, about other hosts, and about other commits. */
  ghost predicate Settled(atts: seq<Attestation>, listing: seq<Entry>) {
    && atts != [] && Ascending(LabelsOf(atts), TextLess)
    && (forall a, b :: a in atts && b in atts ==> a.commit == b.commit && a.artifactSha256 == b.artifactSha256)
    && (forall i, j :: 0 <= i < j < |listing| ==> KeyLess(KeyOf(listing[i]), KeyOf(listing[j])))
    && (forall e, a :: e in listing && a in atts ==> e.hostLabel != a.hostLabel && e.commit != a.commit)
  }

  lemma MergedOfRun(t: Tracked, input: Input, a: Attestation)
    requires Passes(t, input) && a in Merged(t, input)
    ensures a.commit == input.local.commit && Valid(a, input.current, false)
  {
    CarriedMembers(Held(t).0, input.current, Skip(input), input.local.commit, a);
    var i :| 0 <= i < |Merged(t, input)| && Merged(t, input)[i] == a;
  }

  lemma ListedApart(t: Tracked, input: Input, listing: seq<Entry>, e: Entry)
    requires IsSuperseded(listing, Pool(t, input.current, Skip(input), input.local.commit), Again(t, input))
    requires !Contradicts(Pool(t, input.current, Skip(input), input.local.commit), Again(t, input), input.local.commit)
    requires e in listing
    ensures e.hostLabel !in Again(t, input) && e.commit != input.local.commit
  {
    LeadsMember(Pool(t, input.current, Skip(input), input.local.commit), e);
  }

  lemma RunSettles(t: Tracked, input: Input, r: Report)
    requires Writes(t, input, r)
    ensures Settled(r.attestations, r.superseded)
    ensures forall a :: a in r.attestations ==> a.commit == input.local.commit && Valid(a, input.current, false)
    ensures input.local in r.attestations
  {
    assert input.local in Merged(t, input);
    forall a | a in r.attestations ensures a.commit == input.local.commit && Valid(a, input.current, false) {
      MergedOfRun(t, input, a);
    }
    AttestedHosts(t, input, r);
    forall e, a | e in r.superseded && a in r.attestations ensures e.hostLabel != a.hostLabel && e.commit != a.commit {
      assert a.hostLabel in Labels(r.attestations);
      ListedApart(t, input, r.superseded, e);
    }
  }

  // Every sequence of runs.

  ghost predicate Step(t: Tracked, input: Input, t': Tracked) {
    if Passes(t, input) then exists r :: Writes(t, input, r) && t' == Written(r) else t' == t
  }

  ghost predicate Runs(files: seq<Tracked>, inputs: seq<Input>) {
    |files| == |inputs| + 1 && forall i :: 0 <= i < |inputs| ==> StepAt(files, inputs, i)
  }

  ghost predicate StepAt(files: seq<Tracked>, inputs: seq<Input>, i: nat)
    requires |files| == |inputs| + 1 && i < |inputs|
  {
    Step(files[i], inputs[i], files[i + 1])
  }

  lemma StepKeepsHosts(t: Tracked, input: Input, t': Tracked)
    requires Step(t, input, t')
    ensures KnownHosts(t) <= KnownHosts(t')
  {
    if Passes(t, input) {
      var r :| Writes(t, input, r) && t' == Written(r);
      HeldWritten(r);
      HostsKept(t, input, r);
    }
  }

  /** Over every sequence of rebuilds, refused ones included, no host disappears. */
  lemma HostsKeptForever(files: seq<Tracked>, inputs: seq<Input>, i: nat, j: nat)
    requires Runs(files, inputs) && i <= j < |files|
    ensures KnownHosts(files[i]) <= KnownHosts(files[j])
  {
    var known := seq(|files|, k requires 0 <= k < |files| => KnownHosts(files[k]));
    forall k | 0 <= k < |known| - 1 ensures known[k] <= known[k + 1] { KeptAt(files, inputs, k); }
    ChainGrows(known, i, j);
  }

  lemma {:induction false} ChainGrows(sets: seq<set<string>>, i: nat, j: nat)
    requires i <= j < |sets| && forall k :: 0 <= k < |sets| - 1 ==> sets[k] <= sets[k + 1]
    ensures sets[i] <= sets[j]
    decreases j
  {
    if i < j { ChainGrows(sets, i, j - 1); }
  }

  lemma KeptAt(files: seq<Tracked>, inputs: seq<Input>, k: nat)
    requires Runs(files, inputs) && k < |inputs|
    ensures KnownHosts(files[k]) <= KnownHosts(files[k + 1])
  {
    assert StepAt(files, inputs, k);
    StepKeepsHosts(files[k], inputs[k], files[k + 1]);
  }

  ghost predicate SettledFile(t: Tracked) {
    Settled(Held(t).0, Held(t).1)
  }

  lemma StepSettles(t: Tracked, input: Input, t': Tracked)
    requires Step(t, input, t')
    ensures if Passes(t, input) then SettledFile(t') else t' == t
  {
    if Passes(t, input) {
      var r :| Writes(t, input, r) && t' == Written(r);
      RunSettles(t, input, r);
      HeldWritten(r);
    }
  }

  /** From the first successful run on, the file is settled. */
  lemma SettledForever(files: seq<Tracked>, inputs: seq<Input>, i: nat, j: nat)
    requires Runs(files, inputs) && i < j < |files| && Passes(files[i], inputs[i])
    ensures SettledFile(files[j])
  {
    var passes := seq(|inputs|, k requires 0 <= k < |inputs| => Passes(files[k], inputs[k]));
    forall k | 0 <= k < |inputs| ensures if passes[k] then SettledFile(files[k + 1]) else files[k + 1] == files[k] {
      assert StepAt(files, inputs, k);
      StepSettles(files[k], inputs[k], files[k + 1]);
    }
    Persists(passes, seq(|files|, k requires 0 <= k < |files| => SettledFile(files[k])), i, j);
  }

  lemma {:induction false} Persists(passes: seq<bool>, settled: seq<bool>, i: nat, j: nat)
    requires |settled| == |passes| + 1 && i < j < |settled| && passes[i]
    requires forall k :: 0 <= k < |passes| ==> if passes[k] then settled[k + 1] else settled[k + 1] == settled[k]
    ensures settled[j]
    decreases j
  {
    assert if passes[j - 1] then settled[j] else settled[j] == settled[j - 1];
    if !passes[j - 1] { Persists(passes, settled, i, j - 1); }
  }

  // Building is a function of the attestations, not of their order.

  lemma ReportUnique(a: Report, b: Report, atts: seq<Attestation>, superseded: seq<Entry>)
    requires IsReport(a, atts, superseded) && IsReport(b, atts, superseded)
    ensures a == b
  {
    TextTotal();
    SameAttestations(a.attestations, b.attestations);
    forall c ensures c in a.commits <==> c in b.commits {
      CommitListed(a, c);
      CommitListed(b, c);
    }
    forall c | c in a.commits ensures a.commits[c] == b.commits[c] {
      HostsCount(a.attestations, c);
      var k :| 0 <= k < |a.attestations| && a.attestations[k].commit == c;
      assert a.attestations[k] in a.attestations;
    }
    assert a.commits == b.commits;
  }

  lemma CommitListed(r: Report, c: string)
    requires CommitsMatch(r.commits, r.attestations)
    ensures c in r.commits <==> exists a :: a in r.attestations && a.commit == c
  {
    HostsCount(r.attestations, c);
    if k :| 0 <= k < |r.attestations| && r.attestations[k].commit == c { assert r.attestations[k] in r.attestations; }
  }

  lemma SameAttestations(a: seq<Attestation>, b: seq<Attestation>)
    requires StrictTotal(TextLess) && Ascending(LabelsOf(a), TextLess) && Ascending(LabelsOf(b), TextLess)
    requires forall x :: x in a <==> x in b
    ensures a == b
  {
    forall l ensures l in LabelsOf(a) <==> l in LabelsOf(b) {
      if i :| 0 <= i < |a| && LabelsOf(a)[i] == l { LabelIndex(a, b, i); }
      if i :| 0 <= i < |b| && LabelsOf(b)[i] == l { LabelIndex(b, a, i); }
    }
    AscendingUnique(LabelsOf(a), LabelsOf(b), TextLess);
    forall i | 0 <= i < |a| ensures a[i] == b[i] {
      assert a[i] in b;
      var j :| 0 <= j < |b| && b[j] == a[i];
      assert LabelsOf(b)[j] == LabelsOf(a)[i] == LabelsOf(b)[i];
    }
  }

  lemma LabelIndex(a: seq<Attestation>, b: seq<Attestation>, i: nat)
    requires i < |a| && forall x :: x in a ==> x in b
    ensures LabelsOf(a)[i] in LabelsOf(b)
  {
    assert a[i] in b;
    var j :| 0 <= j < |b| && b[j] == a[i];
    assert LabelsOf(b)[j] == LabelsOf(a)[i];
  }

  /** `build_report` refuses with the same code and builds the same report whatever the order of its input. */
  lemma BuildOrderFree(a: seq<Attestation>, b: seq<Attestation>, current: string, r: Report, superseded: seq<Entry>)
    requires multiset(a) == multiset(b)
    ensures SomeInvalid(a, current) <==> SomeInvalid(b, current)
    ensures TwoDigests(a) <==> TwoDigests(b)
    ensures IsReport(r, a, superseded) <==> IsReport(r, b, superseded)
  {
    forall x ensures x in a <==> x in b { assert x in multiset(a) <==> x in multiset(b); }
    forall i | 0 <= i < |a| ensures a[i] in b { assert a[i] in a; }
    forall i | 0 <= i < |b| ensures b[i] in a { assert b[i] in b; }
    assert AllValid(a, current) <==> AllValid(b, current);
    assert |a| == |multiset(a)| == |multiset(b)| == |b|;
    forall l ensures l in LabelsOf(a) <==> l in LabelsOf(b) {
      if i :| 0 <= i < |a| && LabelsOf(a)[i] == l { LabelIndex(a, b, i); }
      if i :| 0 <= i < |b| && LabelsOf(b)[i] == l { LabelIndex(b, a, i); }
    }
    assert Elements(LabelsOf(a)) == Elements(LabelsOf(b));
    DistinctCount(LabelsOf(a));
    DistinctCount(LabelsOf(b));
  }
}
