/** Host attestations, the tracked report, and the shape rules of the reproducibility builder.

    JSON values enter as parsed: `Malformed` is a value that is not an object, has other keys, or holds a field of
    another JSON type. Whether a tracked file's stored digest equals the one recomputed from its body is a fact
    of the file; a report the builder has just written has it. */
module ReproModel {
  import opened Order
  import opened Text

  datatype Code = AttestationInvalid | AttestationConflict

  datatype Attestation = Attestation(
    contract: string,
    hostLabel: string,
    commit: string,
    artifactName: string,
    artifactSha256: string,
    sizeBytes: int,
    manifestDigest: string,
    memberCount: int,
    cargo: string,
    rustc: string,
    reproducibility: string,
    workingTreeClean: bool,
    differingMembers: seq<string>)

  datatype Raw<+T> = Malformed | Shaped(value: T)

  datatype Entry = Entry(hostLabel: string, commit: string, artifactSha256: string, reason: string)

  datatype Key = Key(hostLabel: string, commit: string)

  /** A JSON field that should hold a list. */
  datatype Field<+T> = NotAList | Items(items: seq<T>)

  /** What the output path holds before a run. */
  datatype Tracked =
    | Absent
    | Unreadable
    | NotAReport
    | TrackedReport(attestations: Field<Raw<Attestation>>, listing: Field<Raw<Entry>>, digestRecomputes: bool)

  datatype CommitFacts = CommitFacts(artifactSha256: string, hosts: seq<string>)

  datatype Report = Report(
    distinctHosts: nat,
    attestations: seq<Attestation>,
    commits: map<string, CommitFacts>,
    multiHost: bool,
    superseded: seq<Entry>,
    blockers: seq<string>)

  const ATTESTATION_CONTRACT := "sley2.reproducibility-attestation.v1"
  const REQUIRED_HOSTS := 2
  const SECOND_HOST := "second_host_attestation_operator_lane"
  const BLOCKERS := [SECOND_HOST, "standards_sbom_and_provenance_s20_710_full", "succession_thresholds_s20_640",
    "council_reviews"]
  const PREVIOUS_RELEASE := "attests the previous release artifact "
  const OTHER_COMMIT := "attests a commit the re-mint superseded"

  function KeyOf(e: Entry): Key { Key(e.hostLabel, e.commit) }

  predicate KeyLess(a: Key, b: Key) {
    TextLess(a.hostLabel, b.hostLabel) || (a.hostLabel == b.hostLabel && TextLess(a.commit, b.commit))
  }

  lemma KeyTotal()
    ensures StrictTotal(KeyLess)
  {
    TextTotal();
  }

  const PLATFORM := "-linux-x86_64.tar.gz"

  /** Numerals with `dots` dots between them, the platform behind them, and perhaps one final newline. */
  predicate IsVersioned(s: string, dots: nat) {
    var n := DigitRun(s);
    n > 0 &&
    if dots == 0 then s[n..] == PLATFORM || s[n..] == PLATFORM + "\n"
    else n < |s| && s[n] == '.' && IsVersioned(s[n + 1..], dots - 1)
  }

  /** The name of a release artifact, as `match` with a final `$` reads it. */
  predicate IsReleaseName(s: string) {
    "sley-" <= s && IsVersioned(s[5..], 2)
  }

  /** The contract section 1 shape. */
  predicate Valid(a: Attestation, current: string, previousReleaseOk: bool) {
    && (a.artifactName == current || (previousReleaseOk && IsReleaseName(a.artifactName)))
    && a.contract == ATTESTATION_CONTRACT
    && !Blank(a.hostLabel)
    && HexLine(a.commit, 40)
    && HexLine(a.artifactSha256, 64) && HexLine(a.manifestDigest, 64)
    && a.sizeBytes > 0 && a.memberCount > 0
    && a.cargo != "" && a.rustc != ""
    && a.reproducibility == "REPRODUCIBLE"
    && a.workingTreeClean
    && a.differingMembers == []
  }

  predicate ValidRaw(r: Raw<Attestation>, current: string, previousReleaseOk: bool) {
    r.Shaped? && Valid(r.value, current, previousReleaseOk)
  }

  /** The section 2 shape of a listed entry; here the hexadecimal fields are matched in full. */
  predicate EntryOk(e: Entry) {
    e.hostLabel != "" && HexFull(e.commit, 40) && HexFull(e.artifactSha256, 64) && e.reason != ""
  }

  /** `verify_report` finds no problem. */
  predicate Integral(t: Tracked, current: string) {
    && t.TrackedReport?
    && t.digestRecomputes
    && t.attestations.Items? && t.attestations.items != []
    && (forall i :: 0 <= i < |t.attestations.items| ==> ValidRaw(t.attestations.items[i], current, true))
    && t.listing.Items?
    && (forall i :: 0 <= i < |t.listing.items| ==> t.listing.items[i].Shaped? && EntryOk(t.listing.items[i].value))
  }

  function Values<T>(raws: seq<Raw<T>>): seq<T> {
    if raws == [] then []
    else Values(raws[..|raws| - 1]) + match raws[|raws| - 1] case Malformed => [] case Shaped(a) => [a]
  }

  /** The attestations and the listed entries a tracked file holds. */
  function Held(t: Tracked): (seq<Attestation>, seq<Entry>) {
    if t.TrackedReport? then
      (if t.attestations.Items? then Values(t.attestations.items) else [],
       if t.listing.Items? then Values(t.listing.items) else [])
    else ([], [])
  }

  function AllShaped<T>(values: seq<T>): seq<Raw<T>> {
    seq(|values|, i requires 0 <= i < |values| => Shaped(values[i]))
  }

  /** The file a successful run writes. */
  function Written(r: Report): Tracked {
    TrackedReport(Items(AllShaped(r.attestations)), Items(AllShaped(r.superseded)), true)
  }

  function Labels(atts: seq<Attestation>): set<string> {
    set a | a in atts :: a.hostLabel
  }

  function Hosts(entries: seq<Entry>): set<string> {
    set e | e in entries :: e.hostLabel
  }
}
