/** Selecting the one attestation of the current candidate. */
module ReproSelect {
  import opened Order
  import opened ReproModel
  import opened ReproRun
  import opened ReproTheorems
  import opened Wrappers

  /** A candidate evidence record; a missing key is `None` and never binds. */
  datatype Candidate = Candidate(commit: Option<string>, artifactSha256: Option<string>,
                                 manifestDigest: Option<string>, sizeBytes: Option<int>)

  predicate Binds(a: Attestation, c: Candidate) {
    && c.commit == Some(a.commit) && c.artifactSha256 == Some(a.artifactSha256)
    && c.manifestDigest == Some(a.manifestDigest) && c.sizeBytes == Some(a.sizeBytes)
  }

  predicate Eligible(r: Raw<Attestation>, current: string, candidate: Option<Candidate>, commit: Option<string>) {
    && ValidRaw(r, current, false)
    && (commit.Some? ==> r.value.commit == commit.value)
    && (candidate.Some? ==> Binds(r.value, candidate.value))
  }

  function EligibleOf(raws: seq<Raw<Attestation>>, current: string, candidate: Option<Candidate>,
                      commit: Option<string>): seq<Attestation> {
    if raws == [] then []
    else
      var last := raws[|raws| - 1];
      EligibleOf(raws[..|raws| - 1], current, candidate, commit)
      + if Eligible(last, current, candidate, commit) then [last.value] else []
  }

  function CommitsOf(pool: seq<Attestation>): seq<string> {
    seq(|pool|, i requires 0 <= i < |pool| => pool[i].commit)
  }

  function Tally(commits: seq<string>, c: string): nat {
    if commits == [] then 0
    else Tally(commits[..|commits| - 1], c) + if commits[|commits| - 1] == c then 1 else 0
  }

  /** How many of the pool's attestations name a commit. */
  function CountOf(pool: seq<Attestation>, c: string): nat {
    Tally(CommitsOf(pool), c)
  }

  /** The commit of `a` is attested by strictly more hosts than any other commit. */
  ghost predicate Dominates(pool: seq<Attestation>, a: Attestation) {
    forall b :: b in pool && b.commit != a.commit ==> CountOf(pool, b.commit) < CountOf(pool, a.commit)
  }

  /** The first place of the least label among the attestations of one commit: what `min` returns. */
  ghost predicate IsLeast(pool: seq<Attestation>, commit: string, at: nat) {
    && at < |pool| && pool[at].commit == commit
    && (forall k :: 0 <= k < |pool| && pool[k].commit == commit ==> !TextLess(pool[k].hostLabel, pool[at].hostLabel))
    && (forall k :: 0 <= k < at && pool[k].commit == commit ==> pool[k].hostLabel != pool[at].hostLabel)
  }

  /** The first of the least label of the single leading commit, or nothing when the pool is empty or commits tie. */
  ghost predicate IsSelected(pool: seq<Attestation>, r: Option<Attestation>) {
    match r
    case None => forall a :: a in pool ==> !Dominates(pool, a)
    case Some(a) => Dominates(pool, a) && exists at: nat :: IsLeast(pool, a.commit, at) && pool[at] == a
  }

  method CountHosts(commits: seq<string>) returns (hosts: map<string, nat>)
    ensures forall c :: c in hosts <==> c in commits
    ensures forall c :: c in hosts ==> hosts[c] == Tally(commits, c)
  {
    hosts := map[];
    for i := 0 to |commits|
      invariant forall c :: c in hosts <==> c in commits[..i]
      invariant forall c :: Tally(commits[..i], c) == if c in hosts then hosts[c] else 0
    {
      var c := commits[i];
      assert commits[..i + 1][..i] == commits[..i] && commits[..i + 1] == commits[..i] + [c];
      hosts := hosts[c := (if c in hosts then hosts[c] else 0) + 1];
    }
    assert commits[..|commits|] == commits;
  }

  method LeadingCommits(hosts: map<string, nat>) returns (leading: set<string>)
    requires hosts != map[]
    ensures leading != {} && leading <= hosts.Keys
    ensures forall c, d :: c in leading && d in hosts ==> hosts[d] <= hosts[c]
    ensures forall d :: d in hosts && d !in leading ==> forall c :: c in leading ==> hosts[d] < hosts[c]
  {
    var first :| first in hosts;
    var todo, most := hosts.Keys, hosts[first];
    while todo != {}
      invariant todo <= hosts.Keys
      invariant forall c :: c in hosts && c !in todo ==> hosts[c] <= most
      invariant exists c :: c in hosts && hosts[c] == most
      decreases |todo|
    {
      var c :| c in todo;
      if hosts[c] > most { most := hosts[c]; }
      todo := todo - {c};
    }
    leading := set c | c in hosts && hosts[c] == most;
    ghost var best :| best in hosts && hosts[best] == most;
    assert best in leading;
  }

  method LeastLabel(pool: seq<Attestation>, commit: string) returns (at: nat)
    requires exists k :: 0 <= k < |pool| && pool[k].commit == commit
    ensures IsLeast(pool, commit, at)
  {
    TextTotal();
    var best: Option<nat> := None;
    for i := 0 to |pool|
      invariant best.None? ==> forall k :: 0 <= k < i ==> pool[k].commit != commit
      invariant best.Some? ==> best.value < i && pool[best.value].commit == commit
      invariant best.Some? ==> forall k :: 0 <= k < i && pool[k].commit == commit ==>
                  !TextLess(pool[k].hostLabel, pool[best.value].hostLabel)
                  && (k < best.value ==> pool[k].hostLabel != pool[best.value].hostLabel)
    {
      if pool[i].commit == commit && (best.None? || TextLess(pool[i].hostLabel, pool[best.value].hostLabel)) {
        best := Some(i);
      }
    }
    return best.value;
  }

  lemma CommitsOfPool(pool: seq<Attestation>, c: string)
    ensures c in CommitsOf(pool) <==> exists a :: a in pool && a.commit == c
  {
    if k :| 0 <= k < |pool| && CommitsOf(pool)[k] == c { assert pool[k] in pool; }
    if a :| a in pool && a.commit == c {
      var k :| 0 <= k < |pool| && pool[k] == a;
      assert CommitsOf(pool)[k] == c;
    }
  }

  method SelectFrom(pool: seq<Attestation>) returns (r: Option<Attestation>)
    ensures IsSelected(pool, r)
  {
    if pool == [] { return None; }
    var hosts := CountHosts(CommitsOf(pool));
    forall a | a in pool ensures a.commit in hosts { CommitsOfPool(pool, a.commit); }
    assert pool[0] in pool;
    var leading := LeadingCommits(hosts);
    if |leading| != 1 {
      forall a | a in pool ensures !Dominates(pool, a) { Tied(pool, hosts, leading, a); }
      return None;
    }
    var c :| c in leading;
    assert |leading - {c}| == 0;
    CommitsOfPool(pool, c);
    var b :| b in pool && b.commit == c;
    var k :| 0 <= k < |pool| && pool[k] == b;
    var at := LeastLabel(pool, c);
    return Some(pool[at]);
  }

  method SelectAttestation(raws: seq<Raw<Attestation>>, current: string, candidate: Option<Candidate>,
                           commit: Option<string>)
    returns (r: Option<Attestation>)
    ensures IsSelected(EligibleOf(raws, current, candidate, commit), r)
  {
    r := SelectFrom(EligibleOf(raws, current, candidate, commit));
  }

  lemma Tied(pool: seq<Attestation>, hosts: map<string, nat>, leading: set<string>, a: Attestation)
    requires a in pool && |leading| != 1 && leading != {} && leading <= hosts.Keys && a.commit in hosts
    requires forall c :: c in hosts ==> hosts[c] == CountOf(pool, c) && c in CommitsOf(pool)
    requires forall c, d :: c in leading && d in hosts ==> hosts[d] <= hosts[c]
    ensures !Dominates(pool, a)
  {
    var c: string;
    if a.commit in leading {
      assert |leading - {a.commit}| > 0;
      c :| c in leading - {a.commit};
    } else {
      c :| c in leading;
    }
    CommitsOfPool(pool, c);
    var b :| b in pool && b.commit == c;
    assert CountOf(pool, a.commit) <= CountOf(pool, b.commit);
  }

  lemma {:induction false} AllEligible(atts: seq<Attestation>, current: string)
    requires forall a :: a in atts ==> Valid(a, current, false)
    ensures EligibleOf(AllShaped(atts), current, None, None) == atts
  {
    if atts != [] {
      var init := atts[..|atts| - 1];
      assert AllShaped(atts)[..|atts| - 1] == AllShaped(init);
      assert atts[|atts| - 1] in atts && forall a :: a in init ==> a in atts;
      AllEligible(init, current);
    }
  }

  lemma FirstOfOneCommit(atts: seq<Attestation>, selected: Option<Attestation>)
    requires atts != [] && Ascending(LabelsOf(atts), TextLess) && IsSelected(atts, selected)
    requires forall a, b :: a in atts && b in atts ==> a.commit == b.commit
    ensures selected == Some(atts[0])
  {
    assert atts[0] in atts && Dominates(atts, atts[0]);
    var i: nat :| IsLeast(atts, selected.value.commit, i) && atts[i] == selected.value;
    assert atts[i] in atts && atts[0].commit == selected.value.commit;
    assert LabelsOf(atts)[i] == selected.value.hostLabel && LabelsOf(atts)[0] == atts[0].hostLabel;
  }

  /** On a report a run has written, selection without a candidate never ties: it returns the first attestation,
      the one of the least label. */
  lemma SelectionOfWritten(t: Tracked, input: Input, r: Report, selected: Option<Attestation>)
    requires Writes(t, input, r)
    requires IsSelected(EligibleOf(AllShaped(r.attestations), input.current, None, None), selected)
    ensures r.attestations != [] && selected == Some(r.attestations[0])
  {
    RunSettles(t, input, r);
    AllEligible(r.attestations, input.current);
    FirstOfOneCommit(r.attestations, selected);
  }
}
