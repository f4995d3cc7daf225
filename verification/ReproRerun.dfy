/** Running again on what a run has written: a fixed point, unless the listing took in a commit or digest that ends
    in a newline, and then no later run can succeed. */
module ReproRerun {
  import opened Order
  import opened Text
  import opened ReproModel
  import opened ReproListing
  import opened ReproRun
  import opened ReproTheorems

  /** A later input of the same candidate: same artifact and local attestation, and only attestations the report
      already holds as explicit files (none, or the same ones). */
  ghost predicate SameCandidate(input: Input, later: Input, r: Report) {
    && later.current == input.current && later.local == input.local
    && (forall i :: 0 <= i < |later.explicit| ==>
       later.explicit[i].Shaped? && later.explicit[i].value in r.attestations)
    && Distinct(LabelsOf([later.local] + Explicit(later)))
  }

  ghost predicate ListingOk(listing: seq<Entry>) {
    forall e :: e in listing ==> EntryOk(e)
  }

  /** A tracked attestation this run neither renews nor carries, with a commit or digest that ends in a newline: the
      shape check admits it, the listing check does not. */
  ghost predicate LeavesNewline(t: Tracked, input: Input) {
    exists a :: a in Held(t).0 && a.hostLabel !in Again(t, input)
                && (EndsInNewline(a.commit) || EndsInNewline(a.artifactSha256))
  }

  lemma ExplicitHeld(later: Input, r: Report, a: Attestation)
    requires forall i :: 0 <= i < |later.explicit| ==>
             later.explicit[i].Shaped? && later.explicit[i].value in r.attestations
    requires a in Explicit(later)
    ensures a in r.attestations
  {
    ValuesMembers(later.explicit, a);
    var i :| 0 <= i < |later.explicit| && later.explicit[i] == Shaped(a);
  }

  lemma {:induction false} NothingLeft(atts: seq<Attestation>, current: string, skip: set<string>, commit: string)
    requires forall a :: a in atts ==> a.artifactName == current && a.commit == commit
    ensures LeftBehind(atts, current, skip, commit) == []
  {
    if atts != [] {
      var init := atts[..|atts| - 1];
      assert atts[|atts| - 1] in atts && forall a :: a in init ==> a in atts;
      NothingLeft(init, current, skip, commit);
    }
  }

  /** What a successful run leaves for a later run of the same candidate. */
  ghost predicate Repeatable(r: Report, later: Input) {
    && Settled(r.attestations, r.superseded)
    && (forall a :: a in r.attestations ==> a.artifactName == later.current && a.commit == later.local.commit)
    && later.local in r.attestations
    && (forall i :: 0 <= i < |later.explicit| ==>
       later.explicit[i].Shaped? && later.explicit[i].value in r.attestations)
  }

  lemma LaterPool(r: Report, later: Input)
    requires Repeatable(r, later)
    ensures Pool(Written(r), later.current, Skip(later), later.local.commit) == r.superseded
  {
    HeldWritten(r);
    NothingLeft(r.attestations, later.current, Skip(later), later.local.commit);
    assert [] + r.superseded == r.superseded;
  }

  lemma LaterMerged(r: Report, later: Input, a: Attestation)
    requires Repeatable(r, later)
    ensures a in Merged(Written(r), later) <==> a in r.attestations
  {
    HeldWritten(r);
    CarriedMembers(r.attestations, later.current, Skip(later), later.local.commit, a);
    if a in Explicit(later) { ExplicitHeld(later, r, a); }
    if a in r.attestations && a.hostLabel in Skip(later) { SkippedIsMerged(r, later, a); }
  }

  lemma LaterAgain(r: Report, later: Input, l: string)
    requires Repeatable(r, later)
    ensures l in Again(Written(r), later) <==> l in Labels(r.attestations)
  {
    HeldWritten(r);
    var current, skip, commit := later.current, Skip(later), later.local.commit;
    var carried := Carried(r.attestations, current, skip, commit);
    if l in Labels(r.attestations) && l !in skip {
      var a :| a in r.attestations && a.hostLabel == l;
      CarriedMembers(r.attestations, current, skip, commit, a);
    }
    if a :| a in carried && a.hostLabel == l { CarriedMembers(r.attestations, current, skip, commit, a); }
    if a :| a in Explicit(later) && a.hostLabel == l { ExplicitHeld(later, r, a); }
  }

  /** Labels in a report are distinct, so an attestation whose label is attested afresh is the fresh one. */
  lemma SkippedIsMerged(r: Report, later: Input, a: Attestation)
    requires Ascending(LabelsOf(r.attestations), TextLess) && later.local in r.attestations
    requires forall i :: 0 <= i < |later.explicit| ==>
             later.explicit[i].Shaped? && later.explicit[i].value in r.attestations
    requires a in r.attestations && a.hostLabel in Skip(later)
    ensures a == later.local || a in Explicit(later)
  {
    var b :| (b == later.local || b in Explicit(later)) && b.hostLabel == a.hostLabel;
    if b in Explicit(later) { ExplicitHeld(later, r, b); }
    var i :| 0 <= i < |r.attestations| && r.attestations[i] == a;
    var j :| 0 <= j < |r.attestations| && r.attestations[j] == b;
    TextTotal();
    AscendingDistinct(LabelsOf(r.attestations), TextLess);
    assert LabelsOf(r.attestations)[i] == LabelsOf(r.attestations)[j];
  }

  lemma RunRepeats(t: Tracked, input: Input, r: Report, later: Input)
    requires Writes(t, input, r) && SameCandidate(input, later, r)
    ensures Repeatable(r, later)
    ensures forall a :: a in r.attestations ==> Valid(a, later.current, false)
  {
    RunSettles(t, input, r);
  }

  lemma WrittenIntegral(r: Report, current: string)
    requires r.attestations != [] && forall a :: a in r.attestations ==> Valid(a, current, false)
    ensures Integral(Written(r), current) <==> ListingOk(r.superseded)
  {
    var t := Written(r);
    forall i | 0 <= i < |r.attestations| ensures ValidRaw(t.attestations.items[i], current, true) {
      assert r.attestations[i] in r.attestations;
    }
    if Integral(t, current) {
      forall e | e in r.superseded ensures EntryOk(e) {
        var i :| 0 <= i < |r.superseded| && r.superseded[i] == e;
        assert t.listing.items[i] == Shaped(e);
      }
    }
    if ListingOk(r.superseded) {
      forall i | 0 <= i < |t.listing.items| ensures t.listing.items[i].Shaped? && EntryOk(t.listing.items[i].value) {
        assert r.superseded[i] in r.superseded;
      }
    }
  }

  /** In a settled listing no entry contradicts the run, and every entry leads its key. */
  lemma SettledListing(listing: seq<Entry>, reattested: set<string>, commit: string)
    requires forall i, j :: 0 <= i < j < |listing| ==> KeyLess(KeyOf(listing[i]), KeyOf(listing[j]))
    requires forall e :: e in listing ==> e.hostLabel !in reattested && e.commit != commit
    ensures !Contradicts(listing, reattested, commit)
    ensures IsSuperseded(listing, listing, reattested)
  {
    KeyTotal();
    forall e, f | e in listing && f in listing && KeyOf(e) == KeyOf(f) ensures e == f {
      var i :| 0 <= i < |listing| && listing[i] == e;
      var j :| 0 <= j < |listing| && listing[j] == f;
      if i < j { assert KeyLess(KeyOf(listing[i]), KeyOf(listing[j])); }
      if j < i { assert KeyLess(KeyOf(listing[j]), KeyOf(listing[i])); }
    }
    forall e | e in listing ensures ReproListing.Leads(listing, e) {
      SelectMembers(listing, KeyOf(e), e);
      SelectMembers(listing, KeyOf(e), Select(listing, KeyOf(e))[0]);
    }
  }

  lemma LabelListConcat(a: seq<Attestation>, b: seq<Attestation>)
    ensures LabelsOf(a + b) == LabelsOf(a) + LabelsOf(b)
  {
  }

  lemma LabelsMember(atts: seq<Attestation>, l: string)
    ensures l in LabelsOf(atts) <==> l in Labels(atts)
  {
    if k :| 0 <= k < |atts| && LabelsOf(atts)[k] == l { assert atts[k] in atts; }
    if a :| a in atts && a.hostLabel == l {
      var k :| 0 <= k < |atts| && atts[k] == a;
      assert LabelsOf(atts)[k] == l;
    }
  }

  lemma LastLabelNew(atts: seq<Attestation>, a: Attestation)
    requires atts != [] && Distinct(LabelsOf(atts)) && a in atts[..|atts| - 1]
    ensures a.hostLabel != atts[|atts| - 1].hostLabel
  {
    var i :| 0 <= i < |atts| - 1 && atts[i] == a;
    assert LabelsOf(atts)[i] != LabelsOf(atts)[|atts| - 1];
  }

  lemma {:induction false} DistinctCarried(atts: seq<Attestation>, current: string, skip: set<string>, commit: string)
    requires Distinct(LabelsOf(atts))
    ensures Distinct(LabelsOf(Carried(atts, current, skip, commit)))
  {
    if atts != [] {
      var init, last := atts[..|atts| - 1], atts[|atts| - 1];
      assert LabelsOf(init) == LabelsOf(atts)[..|init|];
      DistinctCarried(init, current, skip, commit);
      var before := Carried(init, current, skip, commit);
      assert before + [] == before;
      LabelListConcat(before, [last]);
      forall l | l in LabelsOf(before) ensures l != last.hostLabel {
        LabelsMember(before, l);
        var a :| a in before && a.hostLabel == l;
        CarriedMembers(init, current, skip, commit, a);
        LastLabelNew(atts, a);
      }
      DistinctConcat(LabelsOf(before), LabelsOf([last]));
    }
  }

  lemma MergedFine(r: Report, later: Input)
    requires Repeatable(r, later) && Distinct(LabelsOf([later.local] + Explicit(later)))
    requires forall a :: a in r.attestations ==> Valid(a, later.current, false)
    ensures !SomeInvalid(Merged(Written(r), later), later.current) && !TwoDigests(Merged(Written(r), later))
  {
    var current, skip, commit := later.current, Skip(later), later.local.commit;
    var renewed, all := [later.local] + Explicit(later), Merged(Written(r), later);
    forall a | a in all ensures a in r.attestations { LaterMerged(r, later, a); }
    forall i | 0 <= i < |all| ensures Valid(all[i], current, false) { assert all[i] in all; }
    HeldWritten(r);
    var carried := Carried(r.attestations, current, skip, commit);
    LabelListConcat(renewed, carried);
    TextTotal();
    AscendingDistinct(LabelsOf(r.attestations), TextLess);
    DistinctCarried(r.attestations, current, skip, commit);
    forall l | l in LabelsOf(renewed) ensures l !in LabelsOf(carried) {
      LabelsMember(renewed, l);
      LabelsMember(carried, l);
      if a :| a in carried && a.hostLabel == l { CarriedMembers(r.attestations, current, skip, commit, a); }
    }
    DistinctConcat(LabelsOf(renewed), LabelsOf(carried));
  }

  lemma LaterListing(r: Report, later: Input)
    requires Repeatable(r, later)
    ensures Again(Written(r), later) == Labels(r.attestations)
    ensures IsSuperseded(r.superseded, r.superseded, Labels(r.attestations))
    ensures !Contradicts(r.superseded, Labels(r.attestations), later.local.commit)
  {
    forall l ensures l in Again(Written(r), later) <==> l in Labels(r.attestations) { LaterAgain(r, later, l); }
    assert Again(Written(r), later) == Labels(r.attestations);
    forall e | e in r.superseded ensures e.hostLabel !in Labels(r.attestations) && e.commit != later.local.commit {
    }
    SettledListing(r.superseded, Labels(r.attestations), later.local.commit);
  }

  lemma LaterPasses(r: Report, later: Input)
    requires Repeatable(r, later) && Distinct(LabelsOf([later.local] + Explicit(later)))
    requires forall a :: a in r.attestations ==> Valid(a, later.current, false)
    requires ListingOk(r.superseded)
    ensures Passes(Written(r), later)
  {
    WrittenIntegral(r, later.current);
    LaterPool(r, later);
    LaterListing(r, later);
    MergedFine(r, later);
    InputFine(r, later);
  }

  /** A later run of the same candidate on a well-formed listing writes the same report again. */
  lemma FixedPoint(t: Tracked, input: Input, r: Report, later: Input)
    requires Writes(t, input, r) && SameCandidate(input, later, r) && ListingOk(r.superseded)
    ensures Writes(Written(r), later, r)
  {
    RunRepeats(t, input, r, later);
    LaterPasses(r, later);
    LaterPool(r, later);
    LaterListing(r, later);
    ReportAgain(t, input, r, later);
  }

  lemma ReportAgain(t: Tracked, input: Input, r: Report, later: Input)
    requires Writes(t, input, r) && Repeatable(r, later)
    ensures IsReport(r, Merged(Written(r), later), r.superseded)
  {
    forall a ensures a in r.attestations <==> a in Merged(Written(r), later) { LaterMerged(r, later, a); }
  }

  /** A run's report is a function of the file and the input. */
  lemma WritesUnique(t: Tracked, input: Input, a: Report, b: Report)
    requires Writes(t, input, a) && Writes(t, input, b)
    ensures a == b
  {
    var pool := Pool(t, input.current, Skip(input), input.local.commit);
    SupersededUnique(a.superseded, b.superseded, pool, Again(t, input));
    ReportUnique(a, b, Merged(t, input), a.superseded);
  }

  lemma InputFine(r: Report, later: Input)
    requires Repeatable(r, later)
    requires forall a :: a in r.attestations ==> Valid(a, later.current, false)
    ensures InputValid(later)
    ensures forall a :: a in Explicit(later) ==> a.commit == later.local.commit
  {
    forall a | a in Explicit(later) ensures a.commit == later.local.commit { ExplicitHeld(later, r, a); }
  }

  // When the written file can be rebuilt.

  lemma EntryOfAttestation(a: Attestation, current: string, e: Entry)
    requires Valid(a, current, true) && e.reason != ""
    requires e.hostLabel == a.hostLabel && e.commit == a.commit && e.artifactSha256 == a.artifactSha256
    ensures EntryOk(e) <==> !EndsInNewline(a.commit) && !EndsInNewline(a.artifactSha256)
  {
    HexLineFull(a.commit, 40);
    HexLineFull(a.artifactSha256, 64);
  }

  lemma HeldIntegral(t: Tracked, current: string)
    requires Integral(t, current)
    ensures forall a :: a in Held(t).0 ==> Valid(a, current, true)
    ensures forall e :: e in Held(t).1 ==> EntryOk(e)
  {
    forall a | a in Held(t).0 ensures Valid(a, current, true) {
      ValuesMembers(t.attestations.items, a);
      var i :| 0 <= i < |t.attestations.items| && t.attestations.items[i] == Shaped(a);
      assert ValidRaw(t.attestations.items[i], current, true);
    }
    forall e | e in Held(t).1 ensures EntryOk(e) {
      ValuesMembers(t.listing.items, e);
      var i :| 0 <= i < |t.listing.items| && t.listing.items[i] == Shaped(e);
    }
  }

  /** A malformed entry of the new listing comes from an attestation left behind. */
  lemma BadEntrySource(t: Tracked, input: Input, e: Entry)
    requires t == Absent || Integral(t, input.current)
    requires e in Pool(t, input.current, Skip(input), input.local.commit) && e.hostLabel !in Again(t, input)
             && !EntryOk(e)
    ensures LeavesNewline(t, input)
  {
    var current, skip, commit := input.current, Skip(input), input.local.commit;
    if Integral(t, current) { HeldIntegral(t, current); }
    LeftBehindOnly(Held(t).0, current, skip, commit, e);
    var a :| a in Held(t).0 && e.hostLabel == a.hostLabel && e.commit == a.commit
        && e.artifactSha256 == a.artifactSha256;
    EntryOfAttestation(a, current, e);
  }

  lemma NewlineListed(t: Tracked, input: Input, listing: seq<Entry>)
    requires t == Absent || Integral(t, input.current)
    requires LeavesNewline(t, input)
    requires !Contradicts(Pool(t, input.current, Skip(input), input.local.commit), Again(t, input), input.local.commit)
    requires IsSuperseded(listing, Pool(t, input.current, Skip(input), input.local.commit), Again(t, input))
    ensures !ListingOk(listing)
  {
    var current, skip, commit := input.current, Skip(input), input.local.commit;
    var a :| a in Held(t).0 && a.hostLabel !in Again(t, input)
        && (EndsInNewline(a.commit) || EndsInNewline(a.artifactSha256));
    CarriedMembers(Held(t).0, current, skip, commit, a);
    LeftBehindHas(Held(t).0, current, skip, commit, a);
    var e :| e in LeftBehind(Held(t).0, current, skip, commit) && e.hostLabel == a.hostLabel
             && e.commit == a.commit && e.artifactSha256 == a.artifactSha256;
    assert e in Pool(t, current, skip, commit);
    var f :| f in listing && KeyOf(f) == KeyOf(e);
    LeadsMember(Pool(t, current, skip, commit), f);
    assert f.artifactSha256 == e.artifactSha256;
    assert EndsInNewline(f.commit) || EndsInNewline(f.artifactSha256);
    if HexFull(f.commit, 40) && HexFull(f.artifactSha256, 64) {
      HexLineFull(f.commit, 40);
      HexLineFull(f.artifactSha256, 64);
    }
  }

  /** The new listing is well-formed exactly when the run leaves no newline behind. */
  lemma ListingOkExactly(t: Tracked, input: Input, r: Report)
    requires Writes(t, input, r)
    ensures ListingOk(r.superseded) <==> !LeavesNewline(t, input)
  {
    if LeavesNewline(t, input) { NewlineListed(t, input, r.superseded); }
    if e :| e in r.superseded && !EntryOk(e) {
      LeadsMember(Pool(t, input.current, Skip(input), input.local.commit), e);
      BadEntrySource(t, input, e);
    }
  }

  /** A malformed entry in a written listing: every later run, whatever its input, refuses. */
  lemma Wedged(r: Report, later: Input)
    requires !ListingOk(r.superseded)
    ensures !Passes(Written(r), later)
  {
    var e :| e in r.superseded && !EntryOk(e);
    var i :| 0 <= i < |r.superseded| && r.superseded[i] == e;
    assert Written(r).listing.items[i] == Shaped(e);
  }

  /** After a successful run, a further run of the same candidate succeeds if and only if the first left no newline
      behind; and then it rewrites the same report. */
  lemma RerunExactly(t: Tracked, input: Input, r: Report, later: Input)
    requires Writes(t, input, r) && SameCandidate(input, later, r)
    ensures Passes(Written(r), later) <==> !LeavesNewline(t, input)
    ensures Passes(Written(r), later) ==> Writes(Written(r), later, r)
  {
    ListingOkExactly(t, input, r);
    if ListingOk(r.superseded) {
      FixedPoint(t, input, r, later);
    } else {
      Wedged(r, later);
    }
  }

  function Sample(host: string, commit: string): Attestation {
    Attestation(ATTESTATION_CONTRACT, host, commit, "sley-2.0.0-linux-x86_64.tar.gz", seq(64, _ => '0'), 1,
                seq(64, _ => '0'), 1, "cargo", "rustc", "REPRODUCIBLE", true, [])
  }

  lemma SampleValid(host: string, commit: string, current: string, previousOk: bool)
    requires host != "" && !IsSpace(host[0]) && HexLine(commit, 40) && current == "sley-2.0.0-linux-x86_64.tar.gz"
    ensures Valid(Sample(host, commit), current, previousOk)
  {
    assert HexFull(seq(64, _ => '0'), 64);
  }

  /** Such a run exists: a tracked attestation whose commit ends in a newline, and a re-mint at another commit. */
  lemma NewlineRunExists() returns (t: Tracked, input: Input)
    ensures Passes(t, input) && LeavesNewline(t, input)
  {
    var current := "sley-2.0.0-linux-x86_64.tar.gz";
    var old40, new40: string := seq(40, _ => '0'), seq(40, _ => '1');
    assert HexFull(old40, 40) && HexFull(new40, 40);
    assert (old40 + "\n")[..40] == old40;
    var tracked, local := Sample("b", old40 + "\n"), Sample("a", new40);
    SampleValid("b", old40 + "\n", current, true);
    SampleValid("a", new40, current, false);
    t := TrackedReport(Items([Shaped(tracked)]), Items([]), true);
    input := Input(current, local, []);
    SingleRun(t, input, tracked);
  }

  lemma SingleRun(t: Tracked, input: Input, a: Attestation)
    requires t == TrackedReport(Items([Shaped(a)]), Items([]), true) && input.explicit == []
    requires Valid(a, input.current, true) && a.artifactName == input.current && EndsInNewline(a.commit)
    requires Valid(input.local, input.current, false) && a.commit != input.local.commit
             && a.hostLabel != input.local.hostLabel
    ensures Passes(t, input) && LeavesNewline(t, input)
  {
    var current, skip, commit := input.current, Skip(input), input.local.commit;
    SingleHeld(t, a);
    assert Explicit(input) == [] && skip == {input.local.hostLabel};
    SingleCarry(a, current, skip, commit);
    assert Merged(t, input) == [input.local];
    assert a in Held(t).0;
  }

  lemma SingleHeld(t: Tracked, a: Attestation)
    requires t == TrackedReport(Items([Shaped(a)]), Items([]), true)
    ensures Held(t) == ([a], [])
  {
    assert AllShaped([a]) == [Shaped(a)];
    ValuesOfShaped([a]);
  }

  lemma SingleCarry(a: Attestation, current: string, skip: set<string>, commit: string)
    requires a.artifactName == current && a.commit != commit && a.hostLabel !in skip
    ensures Carried([a], current, skip, commit) == []
    ensures LeftBehind([a], current, skip, commit) == [Entry(a.hostLabel, a.commit, a.artifactSha256, OTHER_COMMIT)]
  {
    assert [a][..0] == [];
  }
}
