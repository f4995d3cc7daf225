/** The license-expression recogniser on tokens: a recursive descent that returns positions, its grammar, and that it
    recognises exactly the printed forms of the grammar's trees, each of one tree. */
module Spdx {
  import opened Text
  import opened Wrappers

  predicate TokenChar(c: char) {
    IsLetter(c) || IsDigit(c) || c in ":._+-"
  }

  /** `[A-Za-z0-9:._+\-]+`, in full. */
  predicate LicenseToken(t: string) {
    t != "" && forall i :: 0 <= i < |t| ==> TokenChar(t[i])
  }

  predicate Operator(t: string) { t in ["AND", "OR", "WITH"] }

  predicate IsLicense(t: string) {
    && t != "(" && t != ")" && !Operator(t) && LicenseToken(t)
    && exists i :: 0 <= i < |t| && (IsLetter(t[i]) || IsDigit(t[i]))
  }

  predicate IsException(t: string) {
    t != "(" && t != ")" && !Operator(t) && LicenseToken(t)
  }

  // The grammar: WITH binds tighter than AND, AND tighter than OR, parentheses group.

  datatype Disj = One(c: Conj) | Or(c: Conj, rest: Disj)

  datatype Conj = Only(p: Primary) | And(p: Primary, rest: Conj)

  datatype Primary = License(id: string) | With(id: string, exception_: string) | Group(d: Disj)

  predicate OkDisj(d: Disj) {
    match d case One(c) => OkConj(c) case Or(c, rest) => OkConj(c) && OkDisj(rest)
  }

  predicate OkConj(c: Conj) {
    match c case Only(p) => OkPrimary(p) case And(p, rest) => OkPrimary(p) && OkConj(rest)
  }

  predicate OkPrimary(p: Primary) {
    match p
    case License(id) => IsLicense(id)
    case With(id, e) => IsLicense(id) && IsException(e)
    case Group(d) => OkDisj(d)
  }

  function PrintDisj(d: Disj): seq<string> {
    match d case One(c) => PrintConj(c) case Or(c, rest) => PrintConj(c) + ["OR"] + PrintDisj(rest)
  }

  function PrintConj(c: Conj): seq<string> {
    match c case Only(p) => PrintPrimary(p) case And(p, rest) => PrintPrimary(p) + ["AND"] + PrintConj(rest)
  }

  function PrintPrimary(p: Primary): seq<string> {
    match p
    case License(id) => [id]
    case With(id, e) => [id, "WITH", e]
    case Group(d) => ["("] + PrintDisj(d) + [")"]
  }

  // The descent, with the tree it walks along.

  predicate Next(ts: seq<string>, pos: nat, t: string) {
    pos < |ts| && ts[pos] == t
  }

  function ReadPrimary(ts: seq<string>, pos: nat): (r: Option<(Primary, nat)>)
    requires pos <= |ts|
    ensures r.Some? ==> pos < r.value.1 <= |ts|
    decreases |ts| - pos, 0
  {
    if pos >= |ts| then None
    else if ts[pos] == "(" then
      match ReadDisj(ts, pos + 1)
      case None => None
      case Some((d, end)) => if Next(ts, end, ")") then Some((Group(d), end + 1)) else None
    else if !IsLicense(ts[pos]) then None
    else if !Next(ts, pos + 1, "WITH") then Some((License(ts[pos]), pos + 1))
    else if pos + 2 >= |ts| || !IsException(ts[pos + 2]) then None
    else Some((With(ts[pos], ts[pos + 2]), pos + 3))
  }

  function ReadConj(ts: seq<string>, pos: nat): (r: Option<(Conj, nat)>)
    requires pos <= |ts|
    ensures r.Some? ==> pos < r.value.1 <= |ts|
    decreases |ts| - pos, 1
  {
    match ReadPrimary(ts, pos)
    case None => None
    case Some((p, end)) =>
      if !Next(ts, end, "AND") then Some((Only(p), end))
      else
        match ReadConj(ts, end + 1)
        case None => None
        case Some((rest, last)) => Some((And(p, rest), last))
  }

  function ReadDisj(ts: seq<string>, pos: nat): (r: Option<(Disj, nat)>)
    requires pos <= |ts|
    ensures r.Some? ==> pos < r.value.1 <= |ts|
    decreases |ts| - pos, 2
  {
    match ReadConj(ts, pos)
    case None => None
    case Some((c, end)) =>
      if !Next(ts, end, "OR") then Some((One(c), end))
      else
        match ReadDisj(ts, end + 1)
        case None => None
        case Some((rest, last)) => Some((Or(c, rest), last))
  }

  /** The position a reader ends at, or -1. */
  function EndOf<T>(r: Option<(T, nat)>): int {
    match r case None => -1 case Some((_, end)) => end
  }

  method ParsePrimary(ts: seq<string>, pos: nat) returns (end: int)
    requires pos <= |ts|
    ensures end == EndOf(ReadPrimary(ts, pos))
    decreases |ts| - pos, 0
  {
    if pos >= |ts| { return -1; }
    var token := ts[pos];
    if token == "(" {
      end := ParseOr(ts, pos + 1);
      if end < 0 || end >= |ts| || ts[end] != ")" { return -1; }
      return end + 1;
    }
    if Operator(token) || token == ")" { return -1; }
    if !LicenseToken(token) || !(exists i :: 0 <= i < |token| && (IsLetter(token[i]) || IsDigit(token[i]))) {
      return -1;
    }
    end := pos + 1;
    if end < |ts| && ts[end] == "WITH" {
      end := end + 1;
      if end >= |ts| || Operator(ts[end]) || ts[end] == "(" || ts[end] == ")" || !LicenseToken(ts[end]) { return -1; }
      end := end + 1;
    }
  }

  /** The loop continues exactly where the recursive reader does. */
  method ParseAnd(ts: seq<string>, pos: nat) returns (end: int)
    requires pos <= |ts|
    ensures end == EndOf(ReadConj(ts, pos))
    decreases |ts| - pos, 1
  {
    ConjFrom(ts, pos);
    end := ParsePrimary(ts, pos);
    while end >= 0 && end < |ts| && ts[end] == "AND"
      invariant -1 <= end <= |ts| && (end >= 0 ==> pos < end)
      invariant EndOf(ReadConj(ts, pos)) == ConjOnward(ts, end)
      decreases if end < 0 then 0 else |ts| - end + 1
    {
      var next: nat := end + 1;
      ConjFrom(ts, next);
      end := ParsePrimary(ts, next);
    }
  }

  /** Where a conjunction ends, from where its first primary ends. */
  function ConjOnward(ts: seq<string>, end: int): int
    requires end <= |ts|
  {
    if end >= 0 && Next(ts, end, "AND") then EndOf(ReadConj(ts, end + 1)) else end
  }

  function DisjOnward(ts: seq<string>, end: int): int
    requires end <= |ts|
  {
    if end >= 0 && Next(ts, end, "OR") then EndOf(ReadDisj(ts, end + 1)) else end
  }

  lemma ConjFrom(ts: seq<string>, pos: nat)
    requires pos <= |ts|
    ensures EndOf(ReadConj(ts, pos)) == ConjOnward(ts, EndOf(ReadPrimary(ts, pos)))
  {
  }

  lemma DisjFrom(ts: seq<string>, pos: nat)
    requires pos <= |ts|
    ensures EndOf(ReadDisj(ts, pos)) == DisjOnward(ts, EndOf(ReadConj(ts, pos)))
  {
  }

  method ParseOr(ts: seq<string>, pos: nat) returns (end: int)
    requires pos <= |ts|
    ensures end == EndOf(ReadDisj(ts, pos))
    decreases |ts| - pos, 2
  {
    DisjFrom(ts, pos);
    end := ParseAnd(ts, pos);
    while end >= 0 && end < |ts| && ts[end] == "OR"
      invariant -1 <= end <= |ts| && (end >= 0 ==> pos < end)
      invariant EndOf(ReadDisj(ts, pos)) == DisjOnward(ts, end)
      decreases if end < 0 then 0 else |ts| - end + 1
    {
      var next: nat := end + 1;
      DisjFrom(ts, next);
      end := ParseAnd(ts, next);
    }
  }

  ghost predicate IsPrinted(ts: seq<string>) {
    exists d :: OkDisj(d) && PrintDisj(d) == ts
  }

  /** The tokens are accepted exactly when they print some tree. */
  method ValidTokens(ts: seq<string>) returns (ok: bool)
    ensures ok <==> IsPrinted(ts)
  {
    if ts == [] {
      NothingPrintsEmpty();
      return false;
    }
    var end := ParseOr(ts, 0);
    RecognisedExactly(ts);
    return end == |ts|;
  }

  // Soundness: what was read is a tree that prints the tokens it covered.

  lemma {:induction false} PrimarySound(ts: seq<string>, pos: nat)
    requires pos <= |ts| && ReadPrimary(ts, pos).Some?
    ensures var (p, end) := ReadPrimary(ts, pos).value; OkPrimary(p) && PrintPrimary(p) == ts[pos..end]
    decreases |ts| - pos, 0
  {
    if ts[pos] == "(" {
      DisjSound(ts, pos + 1);
      var (_, end) := ReadDisj(ts, pos + 1).value;
      assert ts[pos..end + 1] == ["("] + ts[pos + 1..end] + [")"];
    } else {
      assert ts[pos..pos + 1] == [ts[pos]];
      if Next(ts, pos + 1, "WITH") { assert ts[pos..pos + 3] == [ts[pos], "WITH", ts[pos + 2]]; }
    }
  }

  lemma Spliced(ts: seq<string>, pos: nat, end: nat, last: nat, word: string)
    requires pos <= end < last <= |ts| && Next(ts, end, word)
    ensures ts[pos..last] == ts[pos..end] + [word] + ts[end + 1..last]
  {
  }

  lemma {:induction false} ConjSound(ts: seq<string>, pos: nat)
    requires pos <= |ts| && ReadConj(ts, pos).Some?
    ensures var (c, end) := ReadConj(ts, pos).value; OkConj(c) && PrintConj(c) == ts[pos..end]
    decreases |ts| - pos, 1
  {
    PrimarySound(ts, pos);
    var (p, end) := ReadPrimary(ts, pos).value;
    if Next(ts, end, "AND") {
      ConjSound(ts, end + 1);
      var (_, last) := ReadConj(ts, end + 1).value;
      Spliced(ts, pos, end, last, "AND");
    }
  }

  lemma {:induction false} DisjSound(ts: seq<string>, pos: nat)
    requires pos <= |ts| && ReadDisj(ts, pos).Some?
    ensures var (d, end) := ReadDisj(ts, pos).value; OkDisj(d) && PrintDisj(d) == ts[pos..end]
    decreases |ts| - pos, 2
  {
    ConjSound(ts, pos);
    var (c, end) := ReadConj(ts, pos).value;
    if Next(ts, end, "OR") {
      DisjSound(ts, end + 1);
      var (_, last) := ReadDisj(ts, end + 1).value;
      Spliced(ts, pos, end, last, "OR");
    }
  }

  // Completeness: a printed tree reads back as itself.

  /** Nothing at `pos` continues a conjunction, or a disjunction. */
  ghost predicate ConjStops(ts: seq<string>, pos: nat) {
    !Next(ts, pos, "WITH") && !Next(ts, pos, "AND")
  }

  ghost predicate DisjStops(ts: seq<string>, pos: nat) {
    ConjStops(ts, pos) && !Next(ts, pos, "OR")
  }

  ghost predicate Covers(ts: seq<string>, pos: nat, printed: seq<string>) {
    pos + |printed| <= |ts| && ts[pos..pos + |printed|] == printed
  }

  lemma CoversSplit(ts: seq<string>, pos: nat, a: seq<string>, word: string, b: seq<string>)
    requires Covers(ts, pos, a + [word] + b)
    ensures Covers(ts, pos, a) && Next(ts, pos + |a|, word) && Covers(ts, pos + |a| + 1, b)
  {
    var all := a + [word] + b;
    assert ts[pos..pos + |a|] == all[..|a|] == a;
    assert ts[pos + |a|] == all[|a|];
    assert ts[pos + |a| + 1..pos + |all|] == all[|a| + 1..] == b;
  }

  lemma GroupCovers(ts: seq<string>, pos: nat, inner: seq<string>)
    requires Covers(ts, pos, ["("] + inner + [")"])
    ensures Next(ts, pos, "(") && Covers(ts, pos + 1, inner) && Next(ts, pos + 1 + |inner|, ")")
  {
    assert ["("] + inner + [")"] == ([] + ["("] + inner) + [")"] + [];
    CoversSplit(ts, pos, [] + ["("] + inner, ")", []);
    CoversSplit(ts, pos, [], "(", inner);
  }

  lemma {:induction false} PrimaryComplete(ts: seq<string>, pos: nat, p: Primary, end: nat)
    requires OkPrimary(p) && Covers(ts, pos, PrintPrimary(p))
    requires end == pos + |PrintPrimary(p)| && !Next(ts, end, "WITH")
    ensures ReadPrimary(ts, pos) == Some((p, end))
    decreases p, 0
  {
    var printed := PrintPrimary(p);
    assert forall i :: 0 <= i < |printed| ==> ts[pos + i] == ts[pos..pos + |printed|][i] == printed[i];
    match p
    case License(_) =>
    case With(_, e) => assert printed[1] == "WITH" && printed[2] == e;
    case Group(d) =>
      GroupCovers(ts, pos, PrintDisj(d));
      DisjComplete(ts, pos + 1, d, end - 1);
  }

  // One turn of either loop.

  lemma OnlyReads(ts: seq<string>, pos: nat, p: Primary, end: nat)
    requires pos <= |ts| && ReadPrimary(ts, pos) == Some((p, end)) && !Next(ts, end, "AND")
    ensures ReadConj(ts, pos) == Some((Only(p), end))
  {
  }

  lemma AndReads(ts: seq<string>, pos: nat, p: Primary, end: nat, rest: Conj, last: nat)
    requires pos <= |ts| && ReadPrimary(ts, pos) == Some((p, end)) && Next(ts, end, "AND")
    requires ReadConj(ts, end + 1) == Some((rest, last))
    ensures ReadConj(ts, pos) == Some((And(p, rest), last))
  {
  }

  lemma OneReads(ts: seq<string>, pos: nat, c: Conj, end: nat)
    requires pos <= |ts| && ReadConj(ts, pos) == Some((c, end)) && !Next(ts, end, "OR")
    ensures ReadDisj(ts, pos) == Some((One(c), end))
  {
  }

  lemma OrReads(ts: seq<string>, pos: nat, c: Conj, end: nat, rest: Disj, last: nat)
    requires pos <= |ts| && ReadConj(ts, pos) == Some((c, end)) && Next(ts, end, "OR")
    requires ReadDisj(ts, end + 1) == Some((rest, last))
    ensures ReadDisj(ts, pos) == Some((Or(c, rest), last))
  {
  }

  lemma {:induction false} ConjComplete(ts: seq<string>, pos: nat, c: Conj, last: nat)
    requires OkConj(c) && Covers(ts, pos, PrintConj(c)) && last == pos + |PrintConj(c)| && ConjStops(ts, last)
    ensures ReadConj(ts, pos) == Some((c, last))
    decreases c, 1
  {
    match c
    case Only(p) =>
      PrimaryComplete(ts, pos, p, last);
      OnlyReads(ts, pos, p, last);
    case And(p, rest) =>
      CoversSplit(ts, pos, PrintPrimary(p), "AND", PrintConj(rest));
      AndComplete(ts, pos, p, pos + |PrintPrimary(p)|, rest, last);
  }

  lemma {:induction false} AndComplete(ts: seq<string>, pos: nat, p: Primary, end: nat, rest: Conj, last: nat)
    requires OkPrimary(p) && Covers(ts, pos, PrintPrimary(p)) && end == pos + |PrintPrimary(p)| && Next(ts, end, "AND")
    requires OkConj(rest) && Covers(ts, end + 1, PrintConj(rest)) && last == end + 1 + |PrintConj(rest)|
    requires ConjStops(ts, last)
    ensures ReadConj(ts, pos) == Some((And(p, rest), last))
    decreases And(p, rest), 0
  {
    PrimaryComplete(ts, pos, p, end);
    ConjComplete(ts, end + 1, rest, last);
    AndReads(ts, pos, p, end, rest, last);
  }

  lemma {:induction false} DisjComplete(ts: seq<string>, pos: nat, d: Disj, last: nat)
    requires OkDisj(d) && Covers(ts, pos, PrintDisj(d)) && last == pos + |PrintDisj(d)| && DisjStops(ts, last)
    ensures ReadDisj(ts, pos) == Some((d, last))
    decreases d, 1
  {
    match d
    case One(c) =>
      ConjComplete(ts, pos, c, last);
      OneReads(ts, pos, c, last);
    case Or(c, rest) =>
      CoversSplit(ts, pos, PrintConj(c), "OR", PrintDisj(rest));
      OrComplete(ts, pos, c, pos + |PrintConj(c)|, rest, last);
  }

  lemma {:induction false} OrComplete(ts: seq<string>, pos: nat, c: Conj, end: nat, rest: Disj, last: nat)
    requires OkConj(c) && Covers(ts, pos, PrintConj(c)) && end == pos + |PrintConj(c)| && Next(ts, end, "OR")
    requires OkDisj(rest) && Covers(ts, end + 1, PrintDisj(rest)) && last == end + 1 + |PrintDisj(rest)|
    requires DisjStops(ts, last)
    ensures ReadDisj(ts, pos) == Some((Or(c, rest), last))
    decreases Or(c, rest), 0
  {
    ConjComplete(ts, pos, c, end);
    DisjComplete(ts, end + 1, rest, last);
    OrReads(ts, pos, c, end, rest, last);
  }

  lemma PrintedReadsBack(d: Disj)
    requires OkDisj(d)
    ensures ReadDisj(PrintDisj(d), 0) == Some((d, |PrintDisj(d)|))
  {
    assert PrintDisj(d)[0..|PrintDisj(d)|] == PrintDisj(d);
    DisjComplete(PrintDisj(d), 0, d, |PrintDisj(d)|);
  }

  /** The descent ends at the last token exactly on printed trees. */
  lemma RecognisedExactly(ts: seq<string>)
    ensures EndOf(ReadDisj(ts, 0)) == |ts| <==> IsPrinted(ts)
  {
    if EndOf(ReadDisj(ts, 0)) == |ts| {
      DisjSound(ts, 0);
      assert ts[0..|ts|] == ts;
    }
    if d :| OkDisj(d) && PrintDisj(d) == ts { PrintedReadsBack(d); }
  }

  /** The grammar is unambiguous: two trees that print the same tokens are one tree. */
  lemma PrintInjective(a: Disj, b: Disj)
    requires OkDisj(a) && OkDisj(b) && PrintDisj(a) == PrintDisj(b)
    ensures a == b
  {
    PrintedReadsBack(a);
    PrintedReadsBack(b);
  }

  lemma NothingPrintsEmpty()
    ensures !IsPrinted([])
  {
    if d :| OkDisj(d) && PrintDisj(d) == [] { PrintedReadsBack(d); }
  }
}
