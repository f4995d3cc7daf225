/** Folding failed review rounds into the history of a later PASS, in place over the register's rows. */
module RegisterFold {
  import opened Order
  import opened Register
  import opened Text
  import opened Wrappers

  datatype State = Pass | FailRound | Pending | Deferred | Other | HistoricalRound

  /** One obligation. Dates and scopes are what the round's note records, if anything. */
  datatype Row = Row(section: string, field: Field, state: State, reviewer: Option<string>, date: Option<string>,
                     scope: Option<string>, supersededBy: Option<Field>)

  predicate Scoped(scope: Option<string>) { scope.Some? && scope.value != "" }

  /** `scoped_before` */
  predicate ScopedBefore(descends: (string, string) -> bool, pass: Option<string>, fail: Option<string>) {
    Scoped(pass) && Scoped(fail) && !StrictlyLater(descends, pass, fail)
  }

  /** `dated_before` */
  predicate DatedBefore(pass: Option<string>, fail: Option<string>) {
    pass.Some? && fail.Some? && TextLess(pass.value, fail.value)
  }

  /** `numbered_round_chronology` */
  predicate NumberedChronology(descends: (string, string) -> bool, pass: Field, fail: Field,
                               passScope: Option<string>, failScope: Option<string>) {
    RevisionRound(pass).None? || RevisionRound(fail).None? || StrictlyLater(descends, passScope, failScope)
  }

  /** A PASS of this name, date and scope closes the failed round `f`. */
  predicate Closes(descends: (string, string) -> bool, pass: Field, date: Option<string>, scope: Option<string>,
                   f: Row) {
    && Supersedes(pass, f.field)
    && !DatedBefore(date, f.date)
    && !ScopedBefore(descends, scope, f.scope)
    && NumberedChronology(descends, pass, f.field, scope, f.scope)
  }

  type NoteKey = (string, Field)

  /** The dates and scopes by section and field: the last row of a key wins. */
  function Notes(rows: seq<Row>): map<NoteKey, (Option<string>, Option<string>)> {
    if rows == [] then map[]
    else
      var last := rows[|rows| - 1];
      Notes(rows[..|rows| - 1])[(last.section, last.field) := (last.date, last.scope)]
  }

  predicate Candidate(r: Row, f: Row) {
    r.state == Pass && r.section == f.section && r.reviewer == f.reviewer && f.reviewer.Some?
  }

  predicate ClosesByNotes(descends: (string, string) -> bool, rows: seq<Row>, pass: Row, f: Row) {
    && (pass.section, pass.field) in Notes(rows)
    && var (date, scope) := Notes(rows)[(pass.section, pass.field)];
       Candidate(pass, f) && Closes(descends, pass.field, date, scope, f)
  }

  /** The first PASS, in row order, that closes `f`. */
  function Superseder(descends: (string, string) -> bool, rows: seq<Row>, among: seq<Row>, f: Row): Option<Field>
    decreases |among|
  {
    if among == [] then None
    else if ClosesByNotes(descends, rows, among[0], f) then Some(among[0].field)
    else Superseder(descends, rows, among[1..], f)
  }

  function FoldRow(descends: (string, string) -> bool, rows: seq<Row>, f: Row): Row {
    if f.state != FailRound then f
    else
      match Superseder(descends, rows, rows, f)
      case None => f.(state := Pending)
      case Some(pass) => f.(state := HistoricalRound, supersededBy := Some(pass))
  }

  method CollectNotes(rows: array<Row>) returns (notes: map<NoteKey, (Option<string>, Option<string>)>)
    ensures notes == Notes(rows[..])
  {
    notes := map[];
    for i := 0 to rows.Length
      invariant notes == Notes(rows[..i])
    {
      assert rows[..i + 1][..i] == rows[..i];
      notes := notes[(rows[i].section, rows[i].field) := (rows[i].date, rows[i].scope)];
    }
    assert rows[..rows.Length] == rows[..];
  }

  method FindSuperseder(descends: (string, string) -> bool, ghost rows: seq<Row>, passes: seq<Row>,
                        notes: map<NoteKey, (Option<string>, Option<string>)>, f: Row) returns (r: Option<Field>)
    requires notes == Notes(rows) && forall i :: 0 <= i < |passes| ==> (passes[i].section, passes[i].field) in notes
    ensures r == Superseder(descends, rows, passes, f)
  {
    for i := 0 to |passes|
      invariant Superseder(descends, rows, passes, f) == Superseder(descends, rows, passes[i..], f)
    {
      var p := passes[i];
      var (date, scope) := notes[(p.section, p.field)];
      assert passes[i..][0] == p && passes[i..][1..] == passes[i + 1..];
      if Candidate(p, f) && Closes(descends, p.field, date, scope, f) { return Some(p.field); }
    }
    return None;
  }

  lemma {:induction false} NotesHold(rows: seq<Row>, i: nat)
    requires i < |rows|
    ensures (rows[i].section, rows[i].field) in Notes(rows)
    decreases |rows|
  {
    if i < |rows| - 1 { NotesHold(rows[..|rows| - 1], i); }
  }

  /** One turn of the fold: only a failed round changes. */
  method Folded(descends: (string, string) -> bool, rows: seq<Row>,
                notes: map<NoteKey, (Option<string>, Option<string>)>, f: Row)
    returns (r: Row)
    requires notes == Notes(rows) && forall i :: 0 <= i < |rows| ==> (rows[i].section, rows[i].field) in notes
    ensures r == FoldRow(descends, rows, f)
  {
    if f.state != FailRound { return f; }
    var pass := FindSuperseder(descends, rows, rows, notes, f);
    r := match pass
      case None => f.(state := Pending)
      case Some(field) => f.(state := HistoricalRound, supersededBy := Some(field));
  }

  lemma AllNotesHold(rows: seq<Row>)
    ensures forall i :: 0 <= i < |rows| ==> (rows[i].section, rows[i].field) in Notes(rows)
  {
    forall i | 0 <= i < |rows| ensures (rows[i].section, rows[i].field) in Notes(rows) { NotesHold(rows, i); }
  }

  /** The last loop of `collect`: rewrites the state of every failed round, and nothing else. */
  method Fold(descends: (string, string) -> bool, rows: array<Row>)
    modifies rows
    ensures forall i :: 0 <= i < rows.Length ==> rows[i] == FoldRow(descends, old(rows[..]), old(rows[i]))
  {
    var before := rows[..];
    var notes := CollectNotes(rows);
    AllNotesHold(before);
    for i := 0 to rows.Length
      invariant forall k :: 0 <= k < i ==> rows[k] == FoldRow(descends, before, before[k])
      invariant forall k :: i <= k < rows.Length ==> rows[k] == before[k]
    {
      var folded := Folded(descends, before, notes, rows[i]);
      rows[i] := folded;
    }
  }

  // What the fold decides.

  lemma {:induction false} SupersederExactly(descends: (string, string) -> bool, rows: seq<Row>, among: seq<Row>,
                                             f: Row)
    ensures Superseder(descends, rows, among, f).Some? <==>
            exists i :: 0 <= i < |among| && ClosesByNotes(descends, rows, among[i], f)
    ensures Superseder(descends, rows, among, f).Some? ==>
              exists i :: 0 <= i < |among| && ClosesByNotes(descends, rows, among[i], f)
                          && among[i].field == Superseder(descends, rows, among, f).value
    decreases |among|
  {
    if among != [] {
      var rest := among[1..];
      SupersederExactly(descends, rows, rest, f);
      if i :| 0 <= i < |rest| && ClosesByNotes(descends, rows, rest[i], f) { assert among[i + 1] == rest[i]; }
      if i :| 0 <= i < |rest| && ClosesByNotes(descends, rows, rest[i], f)
              && Superseder(descends, rows, rest, f) == Some(rest[i].field) {
        assert among[i + 1] == rest[i];
      }
      if i :| 0 <= i < |among| && ClosesByNotes(descends, rows, among[i], f) && i > 0 {
        assert rest[i - 1] == among[i];
      }
    }
  }

  /** The superseder is the first PASS, in row order, that closes the round. */
  lemma {:induction false} SupersederFirst(descends: (string, string) -> bool, rows: seq<Row>, among: seq<Row>, f: Row)
    returns (i: nat)
    requires Superseder(descends, rows, among, f).Some?
    ensures i < |among| && ClosesByNotes(descends, rows, among[i], f)
    ensures Superseder(descends, rows, among, f).value == among[i].field
    ensures forall k :: 0 <= k < i ==> !ClosesByNotes(descends, rows, among[k], f)
    decreases |among|
  {
    if ClosesByNotes(descends, rows, among[0], f) {
      i := 0;
    } else {
      var j := SupersederFirst(descends, rows, among[1..], f);
      i := j + 1;
      forall k | 0 <= k < i ensures !ClosesByNotes(descends, rows, among[k], f) {
        if k > 0 { assert among[k] == among[1..][k - 1]; }
      }
    }
  }

  ghost predicate SameKey(a: Row, b: Row) { a.section == b.section && a.field == b.field }

  /** Row `j` is the last of its section and field, which are those of row `i`: its note is the one that counts. */
  ghost predicate NoteRow(rows: seq<Row>, i: nat, j: nat) {
    i < |rows| && j < |rows| && SameKey(rows[i], rows[j]) && forall k :: j < k < |rows| ==> !SameKey(rows[i], rows[k])
  }

  lemma {:induction false} NoteFound(rows: seq<Row>, r: Row) returns (j: nat)
    requires exists i :: 0 <= i < |rows| && SameKey(rows[i], r)
    ensures j < |rows| && SameKey(rows[j], r) && forall k :: j < k < |rows| ==> !SameKey(rows[k], r)
    ensures (r.section, r.field) in Notes(rows) && Notes(rows)[(r.section, r.field)] == (rows[j].date, rows[j].scope)
    decreases |rows|
  {
    j := |rows| - 1;
    if !SameKey(rows[j], r) { j := NoteFound(rows[..j], r); }
  }

  /** Row `i` is a PASS that closes `f` by the note that counts for it. */
  ghost predicate ClosedAt(descends: (string, string) -> bool, rows: seq<Row>, i: nat, f: Row) {
    exists j: nat :: NoteRow(rows, i, j) && Candidate(rows[i], f)
      && Closes(descends, rows[i].field, rows[j].date, rows[j].scope, f)
  }

  lemma ClosedByNotes(descends: (string, string) -> bool, rows: seq<Row>, i: nat, f: Row)
    requires i < |rows|
    ensures ClosesByNotes(descends, rows, rows[i], f) <==> ClosedAt(descends, rows, i, f)
  {
    var j := NoteFound(rows, rows[i]);
    assert NoteRow(rows, i, j);
    forall k: nat | NoteRow(rows, i, k) ensures k == j {}
  }

  ghost predicate EverClosed(descends: (string, string) -> bool, rows: seq<Row>, f: Row) {
    exists i: nat :: ClosedAt(descends, rows, i, f)
  }

  lemma ClosedSomewhere(descends: (string, string) -> bool, rows: seq<Row>, f: Row)
    ensures Superseder(descends, rows, rows, f).Some? <==> EverClosed(descends, rows, f)
  {
    SupersederExactly(descends, rows, rows, f);
    if i: nat :| ClosedAt(descends, rows, i, f) { ClosedByNotes(descends, rows, i, f); }
    if Superseder(descends, rows, rows, f).Some? {
      var i :| 0 <= i < |rows| && ClosesByNotes(descends, rows, rows[i], f);
      ClosedByNotes(descends, rows, i, f);
    }
  }

  /** Row `i` closes the round, and no row before it does. */
  ghost predicate FirstClosing(descends: (string, string) -> bool, rows: seq<Row>, i: nat, f: Row) {
    ClosedAt(descends, rows, i, f) && forall k: nat :: k < i ==> !ClosedAt(descends, rows, k, f)
  }

  lemma ClosedAsNamed(descends: (string, string) -> bool, rows: seq<Row>, f: Row) returns (i: nat)
    requires Superseder(descends, rows, rows, f).Some?
    ensures i < |rows| && FirstClosing(descends, rows, i, f)
    ensures rows[i].field == Superseder(descends, rows, rows, f).value
  {
    i := SupersederFirst(descends, rows, rows, f);
    forall k: nat | k <= i ensures ClosedAt(descends, rows, k, f) <==> ClosesByNotes(descends, rows, rows[k], f) {
      ClosedByNotes(descends, rows, k, f);
    }
  }

  /** Every guard of a closing PASS, by the date and scope its note records. */
  ghost predicate Guarded(descends: (string, string) -> bool, pass: Row, date: Option<string>, scope: Option<string>,
                          f: Row) {
    && pass.state == Pass && pass.section == f.section && pass.reviewer.Some? && pass.reviewer == f.reviewer
    && Supersedes(pass.field, f.field)
    && (date.Some? && f.date.Some? ==> f.date.value == date.value || TextLess(f.date.value, date.value))
    && (scope.Some? && scope.value != "" && f.scope.Some? && f.scope.value != "" ==>
          scope.value != f.scope.value && descends(scope.value, f.scope.value))
    && (RevisionRound(pass.field).Some? && RevisionRound(f.field).Some? ==>
          scope.Some? && scope.value != "" && f.scope.Some? && f.scope.value != "")
  }

  /** A PASS closes a round if and only if its lane and section are the round's, its name supersedes the round's, its
      note is not dated before the round, its scope descends strictly from the round's when both record one, and
      between numbered rounds both do. */
  lemma ClosedExactly(descends: (string, string) -> bool, rows: seq<Row>, i: nat, f: Row)
    ensures ClosedAt(descends, rows, i, f) <==>
            exists j: nat :: NoteRow(rows, i, j) && Guarded(descends, rows[i], rows[j].date, rows[j].scope, f)
  {
    TextTotal();
    forall j: nat | NoteRow(rows, i, j)
      ensures Guarded(descends, rows[i], rows[j].date, rows[j].scope, f) <==>
              Candidate(rows[i], f) && Closes(descends, rows[i].field, rows[j].date, rows[j].scope, f)
    {
      GuardsExactly(descends, rows[i], rows[j].date, rows[j].scope, f);
    }
  }

  lemma GuardsExactly(descends: (string, string) -> bool, pass: Row, date: Option<string>, scope: Option<string>,
                      f: Row)
    ensures Guarded(descends, pass, date, scope, f) <==>
            Candidate(pass, f) && Closes(descends, pass.field, date, scope, f)
  {
    TextTotal();
  }

  /** After the fold no round is merely failed: it is historical exactly when a PASS of its own section and lane
      supersedes it within every chronology guard, it names the first such PASS, and otherwise it is open. */
  lemma FoldedExactly(descends: (string, string) -> bool, rows: seq<Row>, f: Row)
    requires f.state == FailRound
    ensures var r := FoldRow(descends, rows, f);
            && (r.state == HistoricalRound <==> EverClosed(descends, rows, f))
            && (r.state == HistoricalRound ==>
                  exists i: nat :: FirstClosing(descends, rows, i, f) && r.supersededBy == Some(rows[i].field))
            && (r.state != HistoricalRound ==> r.state == Pending)
  {
    ClosedSomewhere(descends, rows, f);
    if Superseder(descends, rows, rows, f).Some? { var i := ClosedAsNamed(descends, rows, f); }
  }

  /** The further rows bring no other note for a section and field that has one. */
  ghost predicate KeepsNotes(rows: seq<Row>, more: seq<Row>) {
    forall key :: key in Notes(rows) ==> key in Notes(more) && Notes(more)[key] == Notes(rows)[key]
  }

  /** Further rows that keep the notes never reopen a folded round. */
  lemma FoldMonotone(descends: (string, string) -> bool, rows: seq<Row>, more: seq<Row>, f: Row)
    requires (forall r :: r in rows ==> r in more) && KeepsNotes(rows, more) && f.state == FailRound
    requires FoldRow(descends, rows, f).state == HistoricalRound
    ensures FoldRow(descends, more, f).state == HistoricalRound
  {
    SupersederExactly(descends, rows, rows, f);
    SupersederExactly(descends, more, more, f);
    var i :| 0 <= i < |rows| && ClosesByNotes(descends, rows, rows[i], f);
    var p := rows[i];
    assert p in more && ClosesByNotes(descends, more, p, f);
    var j :| 0 <= j < |more| && more[j] == p;
  }

  /** A folded round is reopened by other rows if and only if no PASS among them closes it by the note that counts. */
  lemma FoldReopensExactly(descends: (string, string) -> bool, rows: seq<Row>, more: seq<Row>, f: Row)
    requires f.state == FailRound && FoldRow(descends, rows, f).state == HistoricalRound
    ensures FoldRow(descends, more, f).state == Pending <==> forall i: nat :: !ClosedAt(descends, more, i, f)
  {
    FoldedExactly(descends, more, f);
  }

  ghost predicate UniqueKeys(rows: seq<Row>) {
    forall i, j :: 0 <= i < j < |rows| ==> !SameKey(rows[i], rows[j])
  }

  /** Rows of distinct sections and fields keep the notes of whatever rows they contain. */
  lemma UniqueKeepsNotes(rows: seq<Row>, more: seq<Row>)
    requires UniqueKeys(more) && forall r :: r in rows ==> r in more
    ensures KeepsNotes(rows, more)
  {
    forall key | key in Notes(rows) ensures key in Notes(more) && Notes(more)[key] == Notes(rows)[key] {
      var i := NoteOrigin(rows, key);
      assert rows[i] in more;
      var j :| 0 <= j < |more| && more[j] == rows[i];
      var k := NoteFound(more, rows[i]);
      assert k == j;
    }
  }

  lemma {:induction false} NoteOrigin(rows: seq<Row>, key: NoteKey) returns (i: nat)
    requires key in Notes(rows)
    ensures i < |rows| && (rows[i].section, rows[i].field) == key && Notes(rows)[key] == (rows[i].date, rows[i].scope)
    decreases |rows|
  {
    i := |rows| - 1;
    if (rows[i].section, rows[i].field) != key { i := NoteOrigin(rows[..i], key); }
  }

  /** A row of a PASS, of a failed `initial` round of its lane, or of the PASS's own section and field once more. */
  function Example(field: Field, state: State, date: string): Row {
    Row("s", field, state, Some("vulcan"), Some(date), None, None)
  }

  /** A further row of the PASS's own section and field with an earlier date reopens the round. */
  lemma FoldReopens(descends: (string, string) -> bool, early: string, failed: string, passed: string)
    requires TextLess(early, failed) && !TextLess(passed, failed)
    ensures var pass, again := Example(["vulcan", "review"], Pass, passed), Example(["vulcan", "review"], Other, early);
            var fail := Example(["vulcan", "initial", "review"], FailRound, failed);
            && FoldRow(descends, [pass, fail], fail).state == HistoricalRound
            && FoldRow(descends, [pass, fail, again], fail).state == Pending
  {
    var pass, again := Example(["vulcan", "review"], Pass, passed), Example(["vulcan", "review"], Other, early);
    var fail := Example(["vulcan", "initial", "review"], FailRound, failed);
    ReopenNotes(pass, fail, again);
    ReopenSupersedes();
    assert Superseder(descends, [pass, fail], [pass, fail], fail).Some?;
    NotClosed(descends, [pass, fail, again], [pass, fail, again], fail);
  }

  lemma {:induction false} NotClosed(descends: (string, string) -> bool, rows: seq<Row>, among: seq<Row>, f: Row)
    requires forall i :: 0 <= i < |among| ==> !ClosesByNotes(descends, rows, among[i], f)
    ensures Superseder(descends, rows, among, f).None?
    decreases |among|
  {
    if among != [] { NotClosed(descends, rows, among[1..], f); }
  }

  lemma ReopenNotes(pass: Row, fail: Row, again: Row)
    requires SameKey(pass, again) && !SameKey(pass, fail)
    ensures (pass.section, pass.field) in Notes([pass, fail])
            && (pass.section, pass.field) in Notes([pass, fail, again])
    ensures Notes([pass, fail])[(pass.section, pass.field)] == (pass.date, pass.scope)
    ensures Notes([pass, fail, again])[(pass.section, pass.field)] == (again.date, again.scope)
  {
    assert [pass, fail][..1] == [pass] && [pass][..0] == [];
    assert [pass, fail, again][..2] == [pass, fail];
  }

  lemma ReopenSupersedes()
    ensures Supersedes(["vulcan", "review"], ["vulcan", "initial", "review"])
  {
    var pass, fail := ["vulcan", "review"], ["vulcan", "initial", "review"];
    assert Core(pass) == {} && Core(fail) == {};
    assert EarlyToken(fail[1]);
    assert !IsDigit("vulcan"[0]) && !IsDigit("review"[0]);
    assert !Early(pass);
  }
}
