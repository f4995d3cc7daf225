/** The supersession relation between review rounds, by the tokens of their field names, and its cycles. */
module Register {
  import opened Text
  import opened Wrappers

  /** A field name split at `_`. */
  type Field = seq<string>

  const REVIEWERS := ["ariadne", "nabu", "vulcan", "merlin", "codex"]
  const REVIEW_FILLER := ["review", "reviews"]
  const ROUND_EARLY := ["initial", "first", "revision"]
  const ROUND_LATE := ["final"]

  predicate Digits(t: string) {
    t != "" && forall i :: 0 <= i < |t| ==> IsDigit(t[i])
  }

  predicate EarlyToken(t: string) { t in ROUND_EARLY || Digits(t) }

  predicate SubjectToken(t: string) {
    t !in REVIEWERS && t !in REVIEW_FILLER && t !in ROUND_LATE && !EarlyToken(t)
  }

  /** `field_core` */
  function Core(f: Field): set<string> {
    set t | t in f && SubjectToken(t)
  }

  /** `field_early` */
  predicate Early(f: Field) {
    exists i :: 0 <= i < |f| && EarlyToken(f[i])
  }

  /** `field_late` */
  predicate Late(f: Field) {
    exists i :: 0 <= i < |f| && f[i] in ROUND_LATE
  }

  /** `contract_revision_round`: the number of a name that ends in `_revision_<N>`. */
  function RevisionRound(f: Field): Option<nat> {
    if |f| >= 3 && f[|f| - 2] == "revision" && Digits(f[|f| - 1]) then Some(Decimal(f[|f| - 1])) else None
  }

  /** `supersedes` */
  predicate Supersedes(pass: Field, fail: Field) {
    if pass == fail then false
    else if RevisionRound(pass).Some? && RevisionRound(fail).Some? then
      Core(pass) == Core(fail) && RevisionRound(pass).value > RevisionRound(fail).value
    else if !(Core(pass) <= Core(fail) || Core(fail) <= Core(pass)) then false
    else if Core(pass) < Core(fail) then Early(fail) || Late(pass)
    else Early(fail) && !Early(pass)
  }

  /** A name that carries both an early and a late round token. */
  predicate Mixed(f: Field) { Early(f) && Late(f) }

  /** Superseding moves down this order: from not-early to early, then to a larger core, then to an earlier revision. */
  ghost predicate Below(pass: Field, fail: Field) {
    || (!Early(pass) && Early(fail))
    || (Early(pass) == Early(fail) && Core(pass) < Core(fail))
    || (Early(pass) == Early(fail) && Core(pass) == Core(fail) && RevisionRound(pass).Some? && RevisionRound(fail).Some?
        && RevisionRound(pass).value > RevisionRound(fail).value)
  }

  lemma NumberedIsEarly(f: Field)
    requires RevisionRound(f).Some?
    ensures Early(f)
  {
    assert EarlyToken(f[|f| - 1]);
  }

  lemma BelowTransitive(a: Field, b: Field, c: Field)
    requires Below(a, b) && Below(b, c)
    ensures Below(a, c)
  {
  }

  /** A chain of rounds, each superseding the next. */
  ghost predicate Chain(fs: seq<Field>) {
    |fs| >= 2 && forall i :: 0 <= i < |fs| - 1 ==> Supersedes(fs[i], fs[i + 1])
  }

  /** Two rounds supersede each other exactly when one is mixed, the other is not early, and the other's subject is
      strictly more qualified. */
  lemma MutualExactly(a: Field, b: Field)
    ensures Supersedes(a, b) && Supersedes(b, a) <==>
            (Mixed(a) && !Early(b) && Core(a) < Core(b)) || (Mixed(b) && !Early(a) && Core(b) < Core(a))
  {
    if RevisionRound(a).Some? { NumberedIsEarly(a); }
    if RevisionRound(b).Some? { NumberedIsEarly(b); }
  }

  ghost predicate BothNumbered(pass: Field, fail: Field) {
    RevisionRound(pass).Some? && RevisionRound(fail).Some?
  }

  /** When one round supersedes another, by how their subjects compare: never across subjects that do not compare; a
      general PASS closes a qualified round that is early or when it is itself late; within one subject, and by a PASS
      on a part of the subject, only an early round is closed, by a PASS that is not; and two numbered rounds compare
      their numbers. */
  lemma SupersedesExactly(pass: Field, fail: Field)
    ensures !(Core(pass) <= Core(fail)) && !(Core(fail) <= Core(pass)) ==> !Supersedes(pass, fail)
    ensures Core(pass) < Core(fail) ==>
              (Supersedes(pass, fail) <==> !BothNumbered(pass, fail) && (Early(fail) || Late(pass)))
    ensures Core(fail) < Core(pass) ==> (Supersedes(pass, fail) <==> Early(fail) && !Early(pass))
    ensures Core(fail) == Core(pass) && !BothNumbered(pass, fail) ==>
              (Supersedes(pass, fail) <==> Early(fail) && !Early(pass))
    ensures Core(fail) == Core(pass) && BothNumbered(pass, fail) ==>
              (Supersedes(pass, fail) <==> RevisionRound(pass).value > RevisionRound(fail).value)
  {
    if RevisionRound(pass).Some? { NumberedIsEarly(pass); }
    if RevisionRound(fail).Some? { NumberedIsEarly(fail); }
  }

  lemma NumberedName(front: Field, n: string)
    requires front != [] && Digits(n)
    ensures RevisionRound(front + ["revision", n]) == Some(Decimal(n)) && Core(front + ["revision", n]) == Core(front)
  {
    var f := front + ["revision", n];
    assert f[|f| - 2] == "revision" && f[|f| - 1] == n;
    assert EarlyToken("revision") && EarlyToken(n);
    forall t ensures t in Core(f) <==> t in Core(front) {
      if t in f && t !in front { assert t == "revision" || t == n; }
    }
  }

  /** Of two numbered rounds of one name, the later closes the earlier and never the reverse. */
  lemma LaterRevisionCloses(front: Field, a: string, b: string)
    requires front != [] && Digits(a) && Digits(b)
    ensures Supersedes(front + ["revision", a], front + ["revision", b]) <==> Decimal(a) > Decimal(b)
  {
    NumberedName(front, a);
    NumberedName(front, b);
    SupersedesExactly(front + ["revision", a], front + ["revision", b]);
  }

  lemma ReadPlain(t: string)
    requires t in ["nabu", "slice", "review"]
    ensures !EarlyToken(t) && t !in ROUND_LATE && (SubjectToken(t) <==> t == "slice")
  {
    assert !IsDigit(t[0]);
  }

  /** A PASS on a part closes the overall round it belongs to when that round is early. */
  lemma SliceClosesOverall()
    ensures var slice, overall := ["nabu", "slice", "review"], ["nabu", "initial", "review"];
            Core(slice) == {"slice"} && Core(overall) == {} && Supersedes(slice, overall)
  {
    var slice, overall := ["nabu", "slice", "review"], ["nabu", "initial", "review"];
    ReadPlain("nabu");
    ReadPlain("slice");
    ReadPlain("review");
    assert slice[1] == "slice" && overall[1] == "initial" && EarlyToken(overall[1]);
    assert Core(slice) == {"slice"} && Core(overall) == {};
    SupersedesExactly(slice, overall);
  }

  // Cycles of any length.

  /** A mixed round and a strictly more qualified round that is not early: they supersede each other. */
  predicate MutualPair(a: Field, b: Field) {
    Mixed(a) && !Early(b) && Core(a) < Core(b)
  }

  /** Any other step of supersession descends. */
  lemma OtherStepsDescend(pass: Field, fail: Field)
    requires Supersedes(pass, fail) && !MutualPair(pass, fail)
    ensures Below(pass, fail)
  {
    if RevisionRound(pass).Some? { NumberedIsEarly(pass); }
    if RevisionRound(fail).Some? { NumberedIsEarly(fail); }
  }

  ghost predicate ClosedChain(fs: seq<Field>, names: set<Field>) {
    Chain(fs) && fs[0] == fs[|fs| - 1] && forall i :: 0 <= i < |fs| ==> fs[i] in names
  }

  lemma {:induction false} ChainDescends(fs: seq<Field>, i: nat)
    requires Chain(fs) && 0 < i < |fs| && forall k :: 0 <= k < |fs| - 1 ==> !MutualPair(fs[k], fs[k + 1])
    ensures Below(fs[0], fs[i])
    decreases i
  {
    assert !MutualPair(fs[i - 1], fs[i - 1 + 1]);
    OtherStepsDescend(fs[i - 1], fs[i]);
    if i > 1 {
      ChainDescends(fs, i - 1);
      BelowTransitive(fs[0], fs[i - 1], fs[i]);
    }
  }

  /** Some of these names supersede each other in a cycle, of whatever length, if and only if two of them do. */
  lemma CyclesExactly(names: set<Field>)
    ensures (exists fs :: ClosedChain(fs, names)) <==> exists a, b :: a in names && b in names && MutualPair(a, b)
  {
    if fs :| ClosedChain(fs, names) {
      if forall k :: 0 <= k < |fs| - 1 ==> !MutualPair(fs[k], fs[k + 1]) {
        ChainDescends(fs, |fs| - 1);
        assert false;
      }
    }
    if a, b :| a in names && b in names && MutualPair(a, b) {
      MutualExactly(a, b);
      assert ClosedChain([a, b, a], names);
    }
  }

  /** So every cycle goes through a name that carries both an early and a late token. */
  lemma CyclesNeedMixed(fs: seq<Field>)
    requires Chain(fs) && fs[0] == fs[|fs| - 1]
    ensures exists k :: 0 <= k < |fs| - 1 && Mixed(fs[k])
  {
    if forall k :: 0 <= k < |fs| - 1 ==> !MutualPair(fs[k], fs[k + 1]) {
      ChainDescends(fs, |fs| - 1);
      assert false;
    }
  }

  /** Such a pair exists: an `initial` round filed as `final`, and a qualified round of the same lane. */
  lemma MutualExample()
    ensures var mixed, qualified := ["vulcan", "initial", "final", "review"], ["vulcan", "query", "review"];
            MutualPair(mixed, qualified) && Supersedes(mixed, qualified) && Supersedes(qualified, mixed)
  {
    var mixed, qualified := ["vulcan", "initial", "final", "review"], ["vulcan", "query", "review"];
    assert EarlyToken(mixed[1]) && mixed[2] in ROUND_LATE;
    assert qualified[1] == "query" && !IsDigit("query"[0]);
    assert SubjectToken("query");
    assert "query" in Core(qualified) && "query" !in Core(mixed);
    assert Core(mixed) == {};
    assert !Early(qualified) by {
      assert !IsDigit("vulcan"[0]) && !IsDigit("query"[0]) && !IsDigit("review"[0]);
    }
    MutualExactly(mixed, qualified);
  }

  // Ancestry of scopes.

  /** Ancestry of commits: `descends(later, earlier)`. */
  predicate StrictlyLater(descends: (string, string) -> bool, later: Option<string>, earlier: Option<string>) {
    && later.Some? && earlier.Some? && later.value != "" && earlier.value != "" && later != earlier
    && descends(later.value, earlier.value)
  }
}
