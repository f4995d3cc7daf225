/** What is admitted, field by field: attestations, listed entries, tracked files, and through them whole runs and
    the code of every refusal. */
module ReproShapes {
  import opened Order
  import opened Text
  import opened ReproModel
  import opened ReproListing
  import opened ReproRun
  import opened ReproTheorems
  import opened ReproSelect
  import opened Wrappers

  /** `n` lower-case hexadecimal digits and at most one newline behind them. */
  predicate HexText(s: string, n: nat) {
    && n <= |s| <= n + 1
    && (forall i :: 0 <= i < n ==> '0' <= s[i] <= '9' || 'a' <= s[i] <= 'f')
    && (|s| == n + 1 ==> s[n] == '\n')
  }

  lemma HexLineExactly(s: string, n: nat)
    ensures HexLine(s, n) <==> HexText(s, n)
  {
    if HexText(s, n) && |s| == n + 1 { assert HexFull(s[..n], n); }
  }

  predicate Numeral(s: string) {
    s != "" && forall i :: 0 <= i < |s| ==> '0' <= s[i] <= '9'
  }

  ghost predicate Ending(ending: string) {
    ending == PLATFORM || ending == PLATFORM + "\n"
  }

  /** The artifact of a release: a prefix, three numerals between dots, and the platform. */
  ghost predicate ReleaseArtifact(s: string) {
    exists a, b, c, ending :: Release(s, a, b, c, ending)
  }

  ghost predicate Release(s: string, a: string, b: string, c: string, ending: string) {
    && Numeral(a) && Numeral(b) && Numeral(c) && Ending(ending)
    && s == "sley-" + (a + ("." + (b + ("." + (c + ending)))))
  }

  lemma {:induction false} RunOfDigits(digits: string, rest: string)
    requires Numeral(digits) && (rest == "" || !IsDigit(rest[0]))
    ensures DigitRun(digits + rest) == |digits|
    decreases |digits|
  {
    assert (digits + rest)[1..] == digits[1..] + rest;
    if |digits| > 1 {
      RunOfDigits(digits[1..], rest);
    } else {
      assert digits[1..] + rest == rest;
    }
  }

  lemma {:induction false} RunIsDigits(s: string)
    ensures forall i :: 0 <= i < DigitRun(s) ==> IsDigit(s[i])
    ensures DigitRun(s) < |s| ==> !IsDigit(s[DigitRun(s)])
  {
    if s != "" && IsDigit(s[0]) {
      RunIsDigits(s[1..]);
      forall i | 0 <= i < DigitRun(s) ensures IsDigit(s[i]) { assert i > 0 ==> s[i] == s[1..][i - 1]; }
    }
  }

  lemma LastVersioned(head: string, ending: string)
    requires Numeral(head) && Ending(ending)
    ensures IsVersioned(head + ending, 0)
  {
    RunOfDigits(head, ending);
    assert (head + ending)[|head|..] == ending;
  }

  lemma NextVersioned(head: string, rest: string, dots: nat)
    requires Numeral(head) && IsVersioned(rest, dots)
    ensures IsVersioned(head + ("." + rest), dots + 1)
  {
    var s := head + ("." + rest);
    RunOfDigits(head, "." + rest);
    assert s[|head|] == '.' && s[|head| + 1..] == rest;
  }

  lemma CutLast(s: string) returns (head: string, ending: string)
    requires IsVersioned(s, 0)
    ensures Numeral(head) && Ending(ending) && s == head + ending
  {
    RunIsDigits(s);
    head, ending := s[..DigitRun(s)], s[DigitRun(s)..];
  }

  lemma CutNext(s: string, dots: nat) returns (head: string, rest: string)
    requires dots > 0 && IsVersioned(s, dots)
    ensures Numeral(head) && s == head + ("." + rest) && IsVersioned(rest, dots - 1)
  {
    RunIsDigits(s);
    head, rest := s[..DigitRun(s)], s[DigitRun(s) + 1..];
    assert s[DigitRun(s)..] == "." + rest;
  }

  /** The pattern's matches are the release artifacts. */
  lemma ReleaseNameExactly(s: string)
    ensures IsReleaseName(s) <==> ReleaseArtifact(s)
  {
    if a, b, c, ending :| Release(s, a, b, c, ending) {
      var last := c + ending;
      var second := b + ("." + last);
      LastVersioned(c, ending);
      NextVersioned(b, last, 0);
      NextVersioned(a, second, 1);
      assert s[5..] == a + ("." + second);
    }
    if IsReleaseName(s) { ReleaseFound(s); }
  }

  lemma ReleaseFound(s: string)
    requires IsReleaseName(s)
    ensures ReleaseArtifact(s)
  {
    var a, second := CutNext(s[5..], 2);
    var b, last := CutNext(second, 1);
    var c, ending := CutLast(last);
    assert s == "sley-" + s[5..];
    assert Release(s, a, b, c, ending);
  }

  // Attestations, entries, tracked files.

  /** The shape of an attestation, apart from the artifact it names. */
  ghost predicate Shape(a: Attestation) {
    && a.contract == "sley2.reproducibility-attestation.v1"
    && (exists i :: 0 <= i < |a.hostLabel| && !IsSpace(a.hostLabel[i]))
    && HexText(a.commit, 40) && HexText(a.artifactSha256, 64) && HexText(a.manifestDigest, 64)
    && a.sizeBytes > 0 && a.memberCount > 0
    && a.cargo != "" && a.rustc != ""
    && a.reproducibility == "REPRODUCIBLE" && a.workingTreeClean && a.differingMembers == []
  }

  ghost predicate Admitted(a: Attestation, current: string) {
    Shape(a) && a.artifactName == current
  }

  lemma ShapeExactly(a: Attestation, current: string)
    ensures Valid(a, current, false) <==> Admitted(a, current)
    ensures Valid(a, current, true) <==> Shape(a) && (a.artifactName == current || ReleaseArtifact(a.artifactName))
  {
    HexLineExactly(a.commit, 40);
    HexLineExactly(a.artifactSha256, 64);
    HexLineExactly(a.manifestDigest, 64);
    ReleaseNameExactly(a.artifactName);
  }

  ghost predicate TrackedAttestation(raw: Raw<Attestation>, current: string) {
    raw.Shaped? && Shape(raw.value) && (raw.value.artifactName == current || ReleaseArtifact(raw.value.artifactName))
  }

  /** A listed entry holds no newline behind its digits. */
  ghost predicate TrackedEntry(raw: Raw<Entry>) {
    && raw.Shaped? && raw.value.hostLabel != "" && raw.value.reason != ""
    && HexText(raw.value.commit, 40) && |raw.value.commit| == 40
    && HexText(raw.value.artifactSha256, 64) && |raw.value.artifactSha256| == 64
  }

  ghost predicate TrackedShape(t: Tracked, current: string) {
    && t.TrackedReport? && t.digestRecomputes
    && t.attestations.Items? && t.attestations.items != []
    && (forall raw :: raw in t.attestations.items ==> TrackedAttestation(raw, current))
    && t.listing.Items? && forall raw :: raw in t.listing.items ==> TrackedEntry(raw)
  }

  /** A tracked file is read on exactly when it holds a recomputing digest, attestations of this or an earlier release,
      at least one, and a well-formed listing. */
  lemma TrackedExactly(t: Tracked, current: string)
    ensures Integral(t, current) <==> TrackedShape(t, current)
  {
    forall raw ensures TrackedAttestation(raw, current) <==> ValidRaw(raw, current, true) {
      if raw.Shaped? { ShapeExactly(raw.value, current); }
    }
    forall raw ensures TrackedEntry(raw) <==> raw.Shaped? && EntryOk(raw.value) { EntryExactly(raw); }
  }

  lemma EntryExactly(raw: Raw<Entry>)
    ensures TrackedEntry(raw) <==> raw.Shaped? && EntryOk(raw.value)
  {
  }

  /** What a run makes of one tracked attestation that it does not carry. */
  ghost predicate LeavesAs(a: Attestation, current: string, skip: set<string>, commit: string, e: Entry) {
    && e.hostLabel == a.hostLabel && e.commit == a.commit && e.artifactSha256 == a.artifactSha256
    && if a.artifactName != current then e.reason == "attests the previous release artifact " + a.artifactName
       else a.hostLabel !in skip && a.commit != commit && e.reason == "attests a commit the re-mint superseded"
  }

  /** The entries a run adds: one for every attestation of another artifact, and for every attestation of another commit
      whose host does not attest afresh. */
  lemma {:induction false} LeftBehindExactly(atts: seq<Attestation>, current: string, skip: set<string>, commit: string,
                                             e: Entry)
    ensures e in LeftBehind(atts, current, skip, commit) <==>
            exists a :: a in atts && LeavesAs(a, current, skip, commit, e)
    decreases |atts|
  {
    if atts != [] {
      var init, last := atts[..|atts| - 1], atts[|atts| - 1];
      LeftBehindExactly(init, current, skip, commit, e);
      assert atts == init + [last];
      var all := LeftBehind(atts, current, skip, commit);
      if LeavesAs(last, current, skip, commit, e) { assert all[|all| - 1] == e; }
      if e in all && e !in LeftBehind(init, current, skip, commit) { assert LeavesAs(last, current, skip, commit, e); }
    }
  }

  // Runs.

  ghost predicate InputsAdmitted(input: Input) {
    Admitted(input.local, input.current)
    && forall raw :: raw in input.explicit ==> raw.Shaped? && Admitted(raw.value, input.current)
  }

  lemma InputsExactly(input: Input)
    ensures InputValid(input) <==> InputsAdmitted(input)
  {
    ShapeExactly(input.local, input.current);
    forall raw ensures ValidRaw(raw, input.current, false) <==> raw.Shaped? && Admitted(raw.value, input.current) {
      if raw.Shaped? { ShapeExactly(raw.value, input.current); }
    }
  }

  /** Every attestation of a written report is admitted, and of the run's commit. */
  lemma WrittenAdmitted(t: Tracked, input: Input, r: Report, a: Attestation)
    requires Writes(t, input, r) && a in r.attestations
    ensures Admitted(a, input.current) && a.commit == input.local.commit
  {
    RunSettles(t, input, r);
    ShapeExactly(a, input.current);
  }

  /** A first run without explicit files passes if and only if its local attestation is admitted. */
  lemma FreshRunExactly(input: Input)
    requires input.explicit == []
    ensures Passes(Absent, input) <==> Admitted(input.local, input.current)
  {
    ShapeExactly(input.local, input.current);
    assert Merged(Absent, input) == [input.local];
    assert LabelsOf([input.local]) == [input.local.hostLabel];
  }

  /** The fresh attestations are admitted and of one commit. */
  ghost predicate Fresh(input: Input) {
    InputsAdmitted(input) && forall a :: a in Explicit(input) ==> a.commit == input.local.commit
  }

  ghost predicate Readable(t: Tracked, current: string) {
    t == Absent || TrackedShape(t, current)
  }

  ghost predicate Contradicted(t: Tracked, input: Input) {
    var commit, skip := input.local.commit, Skip(input);
    Contradicts(Pool(t, input.current, skip, commit), Reattested(t, input.current, skip, commit), commit)
  }

  /** No label attests twice. */
  ghost predicate OneEach(t: Tracked, input: Input) {
    Distinct(LabelsOf(Merged(t, input)))
  }

  ghost predicate Disagree(t: Tracked, input: Input) {
    exists a, b :: a in Merged(t, input) && b in Merged(t, input) && a.artifactSha256 != b.artifactSha256
  }

  /** What each code says of a run. */
  ghost predicate RunFails(t: Tracked, input: Input, code: Code) {
    match code
    case AttestationInvalid =>
      || !InputsAdmitted(input)
      || (Fresh(input) && !Readable(t, input.current))
      || (Fresh(input) && Readable(t, input.current) && !Contradicted(t, input) && !OneEach(t, input))
    case AttestationConflict =>
      && InputsAdmitted(input)
      && (Fresh(input) ==>
            && Readable(t, input.current)
            && (Contradicted(t, input) || (OneEach(t, input) && Disagree(t, input))))
  }

  lemma MergedAdmitted(t: Tracked, input: Input, a: Attestation)
    requires InputValid(input) && (t != Absent ==> Integral(t, input.current)) && a in Merged(t, input)
    ensures Valid(a, input.current, false)
    ensures a == input.local || a in Explicit(input) || a.commit == input.local.commit
  {
    ValuesMembers(input.explicit, a);
    CarriedMembers(Held(t).0, input.current, Skip(input), input.local.commit, a);
    if t != Absent { ValuesMembers(t.attestations.items, a); }
  }

  lemma FreshMerged(t: Tracked, input: Input)
    requires Fresh(input) && Readable(t, input.current)
    ensures SomeInvalid(Merged(t, input), input.current) <==> !OneEach(t, input)
    ensures TwoDigests(Merged(t, input)) <==> Disagree(t, input)
  {
    InputsExactly(input);
    TrackedExactly(t, input.current);
    forall a | a in Merged(t, input) ensures Valid(a, input.current, false) && a.commit == input.local.commit {
      MergedAdmitted(t, input, a);
    }
  }

  /** A run refuses with a code if and only if `RunFails` says so, and passes exactly when neither code applies. */
  lemma RefusedExactly(t: Tracked, input: Input, code: Code)
    ensures !Passes(t, input) && Refusal(t, input) == code <==> RunFails(t, input, code)
  {
    InputsExactly(input);
    TrackedExactly(t, input.current);
    if Fresh(input) && Readable(t, input.current) { FreshMerged(t, input); }
  }

  /** What a selection can return: the admitted attestations of the report that name the commit and bind the candidate
      in all four fields. */
  lemma {:induction false} EligibleExactly(raws: seq<Raw<Attestation>>, current: string, candidate: Option<Candidate>,
                                           commit: Option<string>, a: Attestation)
    ensures a in EligibleOf(raws, current, candidate, commit) <==>
            && Shaped(a) in raws && Admitted(a, current) && (commit.Some? ==> a.commit == commit.value)
            && (candidate.Some? ==>
                  candidate.value == Candidate(Some(a.commit), Some(a.artifactSha256), Some(a.manifestDigest),
                                               Some(a.sizeBytes)))
    decreases |raws|
  {
    if raws != [] {
      var init, last := raws[..|raws| - 1], raws[|raws| - 1];
      EligibleExactly(init, current, candidate, commit, a);
      ShapeExactly(a, current);
      assert raws == init + [last];
    }
  }

  /** The second-host blocker stands exactly while no two attestations share a commit; the other three always stand. */
  lemma BlockersExactly(r: Report, atts: seq<Attestation>, superseded: seq<Entry>, blocker: string)
    requires IsReport(r, atts, superseded)
    ensures blocker in r.blockers <==>
            || blocker == "standards_sbom_and_provenance_s20_710_full"
            || blocker == "succession_thresholds_s20_640"
            || blocker == "council_reviews"
            || (blocker == "second_host_attestation_operator_lane"
                && forall i, j :: 0 <= i < j < |r.attestations| ==>
                     r.attestations[i].commit != r.attestations[j].commit)
  {
    assert BLOCKERS == [SECOND_HOST] + BLOCKERS[1..];
  }

  /** The hosts of a commit: the labels that attest it, ascending. */
  lemma {:induction false} HostsExactly(atts: seq<Attestation>, commit: string)
    requires Ascending(LabelsOf(atts), TextLess)
    ensures forall l :: l in HostsOf(atts, commit) <==> exists a :: a in atts && a.commit == commit && a.hostLabel == l
    ensures Ascending(HostsOf(atts, commit), TextLess)
    decreases |atts|
  {
    if atts != [] {
      var init, last := atts[..|atts| - 1], atts[|atts| - 1];
      assert atts == init + [last];
      assert LabelsOf(init) == LabelsOf(atts)[..|atts| - 1];
      HostsExactly(init, commit);
      var before := HostsOf(init, commit);
      forall i | 0 <= i < |before| ensures TextLess(before[i], last.hostLabel) {
        assert before[i] in before;
        var a :| a in init && a.hostLabel == before[i];
        var k :| 0 <= k < |init| && init[k] == a;
        assert TextLess(LabelsOf(atts)[k], LabelsOf(atts)[|atts| - 1]);
      }
    }
  }
}
