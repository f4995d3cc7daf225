/** The loop that resolves limits, and which references can go stale. */
module LimitsRun {
  import opened Limits
  import opened Wrappers

  ghost predicate Holds(values: map<string, set<int>>, facts: set<Fact>) {
    && (forall n :: n in values ==> values[n] != {})
    && (forall n, v :: (n in values && v in values[n]) <==> Fact(n, v) in facts)
  }

  ghost predicate IsKnown(known: map<string, int>, facts: set<Fact>) {
    forall n :: Lookup(known, n) == Known(facts, n)
  }

  lemma EvaluateGives(d: Decl, known: map<string, int>, facts: set<Fact>)
    requires IsKnown(known, facts)
    ensures Evaluate(d.init, known) == Gives(d, facts)
  {
    if Reference(d.init).Some? {
      assert Lookup(known, Reference(d.init).value) == Known(facts, Reference(d.init).value);
    }
  }

  /** One pass over the declarations, with the names known before it. */
  method Pass(decls: seq<Decl>, start: map<string, set<int>>, known: map<string, int>, ghost facts: set<Fact>)
    returns (values: map<string, set<int>>)
    requires Holds(start, facts) && IsKnown(known, facts)
    ensures Holds(values, Round(decls)(facts))
  {
    values := start;
    ghost var added: set<Fact> := {};
    for i := 0 to |decls|
      invariant Holds(values, facts + added)
      invariant added <= Contributions(decls, facts)
      invariant forall j :: 0 <= j < i && Gives(decls[j], facts).Some? ==>
                  Fact(decls[j].name, Gives(decls[j], facts).value) in added
    {
      var d := decls[i];
      EvaluateGives(d, known, facts);
      var value := Evaluate(d.init, known);
      if value.Some? {
        var soFar := if d.name in values then values[d.name] else {};
        values := values[d.name := soFar + {value.value}];
        AddFact(decls, facts, d);
        added := added + {Fact(d.name, value.value)};
      }
    }
    AllAdded(decls, facts, added);
  }

  lemma AddFact(decls: seq<Decl>, facts: set<Fact>, d: Decl)
    requires d in decls && Gives(d, facts).Some?
    ensures Fact(d.name, Gives(d, facts).value) in Contributions(decls, facts)
  {
  }

  lemma AllAdded(decls: seq<Decl>, facts: set<Fact>, added: set<Fact>)
    requires added <= Contributions(decls, facts)
    requires forall j :: 0 <= j < |decls| && Gives(decls[j], facts).Some? ==>
               Fact(decls[j].name, Gives(decls[j], facts).value) in added
    ensures facts + added == Round(decls)(facts)
  {
    forall f | f in Contributions(decls, facts) ensures f in added {
      var d :| d in decls && Gives(d, facts).Some? && f == Fact(d.name, Gives(d, facts).value);
      var j :| 0 <= j < |decls| && decls[j] == d;
    }
  }

  /** The names with exactly one value, each with that value. */
  method KnownOf(values: map<string, set<int>>, ghost facts: set<Fact>) returns (known: map<string, int>)
    requires Holds(values, facts)
    ensures IsKnown(known, facts)
  {
    known := map[];
    var todo := values.Keys;
    while todo != {}
      invariant todo <= values.Keys
      invariant forall n :: n in known ==> n in values.Keys - todo && values[n] == {known[n]}
      invariant forall n :: n in values.Keys - todo && |values[n]| == 1 ==> n in known
      decreases |todo|
    {
      var n :| n in todo;
      todo := todo - {n};
      if |values[n]| == 1 {
        Inhabited(values[n]);
        var v :| v in values[n];
        assert |values[n] - {v}| == 0;
        known := known[n := v];
      }
    }
    forall n ensures Lookup(known, n) == Known(facts, n) { KnownName(values, known, facts, n); }
  }

  lemma Inhabited(s: set<int>)
    requires s != {}
    ensures exists v :: v in s
  {
    assert (forall v :: v !in s) ==> s == {};
  }

  lemma OneValue(s: set<int>, v: int)
    requires v in s && forall w :: w in s ==> w == v
    ensures |s| == 1
  {
    var rest := s - {v};
    if rest != {} { Inhabited(rest); }
    assert |rest| == 0;
  }

  lemma KnownName(values: map<string, set<int>>, known: map<string, int>, facts: set<Fact>, n: string)
    requires Holds(values, facts)
    requires forall k :: k in known ==> k in values && values[k] == {known[k]}
    requires forall k :: k in values && |values[k]| == 1 ==> k in known
    ensures Lookup(known, n) == Known(facts, n)
  {
    if n in known {
      assert Unique(facts, n, known[n]) by {
        assert known[n] in values[n];
        forall w | Fact(n, w) in facts ensures w == known[n] { assert w in values[n]; }
      }
    } else if Known(facts, n).Some? {
      var v := Known(facts, n).value;
      assert Unique(facts, n, v);
      assert v in values[n];
      forall w | w in values[n] ensures w == v { assert Fact(n, w) in facts; }
      OneValue(values[n], v);
    }
  }

  lemma SameValues(a: map<string, set<int>>, b: map<string, set<int>>, fa: set<Fact>, fb: set<Fact>)
    requires Holds(a, fa) && Holds(b, fb)
    ensures a == b <==> fa == fb
  {
    if fa == fb {
      forall n ensures n in a <==> n in b {
        if n in a { Inhabited(a[n]); var v :| v in a[n]; assert Fact(n, v) in fa; }
        if n in b { Inhabited(b[n]); var v :| v in b[n]; assert Fact(n, v) in fb; }
      }
      forall n | n in a ensures a[n] == b[n] {
        forall v ensures v in a[n] <==> v in b[n] { assert v in a[n] <==> Fact(n, v) in fa; }
      }
    }
    if a == b {
      forall f ensures f in fa <==> f in fb { assert f == Fact(f.name, f.value); }
    }
  }

  /** The `while True` loop of `main`: it ends within one round more than there are declarations, with the final facts
      and the names that have exactly one value. */
  method Resolve(decls: seq<Decl>) returns (values: map<string, set<int>>, known: map<string, int>, ghost rounds: nat)
    ensures Holds(values, Final(decls)) && IsKnown(known, Final(decls))
    ensures rounds <= |decls| + 1
  {
    values, known, rounds := map[], map[], 0;
    assert Stage(decls, 0) == {};
    StableSoon(decls);
    ghost var last: nat :| last <= |decls| && Stage(decls, last + 1) == Stage(decls, last);
    while true
      invariant Holds(values, Stage(decls, rounds)) && IsKnown(known, Stage(decls, rounds))
      invariant forall j: nat :: j < rounds ==> Stage(decls, j + 1) != Stage(decls, j)
      invariant rounds <= last
      decreases last - rounds
    {
      var before := values;
      values := Pass(decls, values, known, Stage(decls, rounds));
      known := KnownOf(values, Stage(decls, rounds + 1));
      SameValues(before, values, Stage(decls, rounds), Stage(decls, rounds + 1));
      rounds := rounds + 1;
      if before == values { break; }
    }
    FinalStable(decls, rounds - 1);
  }

  // Stale references.

  ghost predicate EverKnown(decls: seq<Decl>, name: string) {
    exists k: nat :: Known(Stage(decls, k), name).Some?
  }

  /** The name had one value in some round and has more than one at the end. */
  ghost predicate Lost(decls: seq<Decl>, name: string) {
    EverKnown(decls, name) && Known(Final(decls), name).None?
  }

  lemma LostIsAmbiguous(decls: seq<Decl>, name: string)
    ensures Lost(decls, name) <==>
            EverKnown(decls, name) &&
            exists v, w :: v != w && Fact(name, v) in Final(decls) && Fact(name, w) in Final(decls)
  {
    if EverKnown(decls, name) {
      var k: nat :| Known(Stage(decls, k), name).Some?;
      var v := Known(Stage(decls, k), name).value;
      assert Unique(Stage(decls, k), name, v);
      StageBelowFinal(decls, k);
      if Known(Final(decls), name).None? {
        assert !Unique(Final(decls), name, v);
      } else {
        assert Unique(Final(decls), name, Known(Final(decls), name).value);
      }
    }
  }

  /** The guard that lets a second value in: while the name is known, a declaration of it gives another value. */
  ghost predicate Contests(facts: set<Fact>, name: string, d: Decl) {
    && d.name == name && Known(facts, name).Some? && Gives(d, facts).Some? && Gives(d, facts) != Known(facts, name)
  }

  ghost predicate Contested(decls: seq<Decl>, facts: set<Fact>, name: string) {
    exists d :: d in decls && Contests(facts, name, d)
  }

  lemma TwoValues(facts: set<Fact>, name: string, v: int, w: int)
    requires v != w && Fact(name, v) in facts && Fact(name, w) in facts
    ensures Known(facts, name).None?
  {
    assert forall u :: Unique(facts, name, u) ==> u == v && u == w;
  }

  /** A round makes a known name unknown if and only if the name is contested in it. */
  lemma RoundLoses(decls: seq<Decl>, facts: set<Fact>, name: string)
    requires Known(facts, name).Some?
    ensures Known(facts + Contributions(decls, facts), name).None? <==> Contested(decls, facts, name)
  {
    var next, v := facts + Contributions(decls, facts), Known(facts, name).value;
    assert Unique(facts, name, v);
    if d :| d in decls && Contests(facts, name, d) {
      var w := Gives(d, facts).value;
      assert Fact(name, w) in Contributions(decls, facts);
      TwoValues(next, name, v, w);
    }
    if Known(next, name).None? {
      assert !Unique(next, name, v);
      var w :| w != v && Fact(name, w) in next;
      var d :| d in decls && Gives(d, facts).Some? && Fact(name, w) == Fact(d.name, Gives(d, facts).value);
      assert Contests(facts, name, d);
    }
  }

  /** Facts of consecutive rounds. */
  ghost predicate Consecutive(decls: seq<Decl>, stages: seq<set<Fact>>) {
    forall i :: 0 <= i < |stages| - 1 ==> stages[i + 1] == stages[i] + Contributions(decls, stages[i])
  }

  lemma {:induction false} LossAt(decls: seq<Decl>, stages: seq<set<Fact>>, name: string) returns (m: nat)
    requires stages != [] && Consecutive(decls, stages)
    requires Known(stages[0], name).Some? && Known(stages[|stages| - 1], name).None?
    ensures m < |stages| && Contested(decls, stages[m], name)
    decreases |stages|
  {
    m := 0;
    RoundLoses(decls, stages[0], name);
    if Known(stages[1], name).Some? {
      m := LossAt(decls, stages[1..], name);
      m := m + 1;
    }
  }

  /** The facts of `n` rounds from round `k` on. */
  ghost function StagesFrom(decls: seq<Decl>, k: nat, n: nat): (stages: seq<set<Fact>>)
    ensures |stages| == n && forall i :: 0 <= i < n ==> stages[i] == Stage(decls, k + i)
  {
    seq(n, i requires 0 <= i < n => Stage(decls, k + i))
  }

  lemma StageNext(decls: seq<Decl>, k: nat)
    ensures Stage(decls, k + 1) == Stage(decls, k) + Contributions(decls, Stage(decls, k))
  {
  }

  lemma StagesConsecutive(decls: seq<Decl>, k: nat, n: nat)
    ensures Consecutive(decls, StagesFrom(decls, k, n))
  {
    var stages := StagesFrom(decls, k, n);
    forall i | 0 <= i < n - 1 ensures stages[i + 1] == stages[i] + Contributions(decls, stages[i]) {
      StageNext(decls, k + i);
      assert k + (i + 1) == k + i + 1;
    }
  }

  ghost predicate EverContested(decls: seq<Decl>, name: string) {
    exists k: nat :: ContestedAt(decls, name, k)
  }

  ghost predicate ContestedAt(decls: seq<Decl>, name: string, k: nat) {
    Contested(decls, Stage(decls, k), name)
  }

  /** A name lost between the first and the last of some rounds is contested in one of them. */
  lemma LostBetween(decls: seq<Decl>, name: string, k: nat, stages: seq<set<Fact>>)
    requires stages != [] && stages == StagesFrom(decls, k, |stages|)
    requires Known(stages[0], name).Some? && Known(stages[|stages| - 1], name).None?
    ensures EverContested(decls, name)
  {
    StagesConsecutive(decls, k, |stages|);
    var m := LossAt(decls, stages, name);
    assert stages[m] == Stage(decls, k + m);
    assert ContestedAt(decls, name, k + m);
  }

  lemma LostIsContested(decls: seq<Decl>, name: string, k: nat, m: nat, last: set<Fact>)
    requires k <= m && Stage(decls, m) == last && Known(Stage(decls, k), name).Some? && Known(last, name).None?
    ensures EverContested(decls, name)
  {
    var stages := StagesFrom(decls, k, m - k + 1);
    assert k + (m - k) == m;
    assert stages[0] == Stage(decls, k) && stages[m - k] == last;
    LostBetween(decls, name, k, stages);
  }

  lemma ContestedIsLost(decls: seq<Decl>, name: string, k: nat)
    requires ContestedAt(decls, name, k)
    ensures Lost(decls, name)
  {
    StageNext(decls, k);
    StageBelowFinal(decls, k + 1);
    ContestedStays(decls, Stage(decls, k), Stage(decls, k + 1), Final(decls), name);
  }

  lemma ContestedStays(decls: seq<Decl>, facts: set<Fact>, later: set<Fact>, last: set<Fact>, name: string)
    requires Contested(decls, facts, name) && later == facts + Contributions(decls, facts) && later <= last
    ensures Known(facts, name).Some? && Known(last, name).None?
  {
    RoundLoses(decls, facts, name);
    StaysLost(facts, later, last, name);
  }

  /** Facts are only added, so a name with two values keeps them. */
  lemma StaysLost(known: set<Fact>, later: set<Fact>, last: set<Fact>, name: string)
    requires known <= later <= last && Known(known, name).Some? && Known(later, name).None?
    ensures Known(last, name).None?
  {
    var v := Known(known, name).value;
    assert Unique(known, name, v) && !Unique(later, name, v);
    var w :| w != v && Fact(name, w) in later;
    TwoValues(last, name, v, w);
  }

  /** A name is lost if and only if, in some round in which it is known, a declaration of it gives another value. */
  lemma LostExactly(decls: seq<Decl>, name: string)
    ensures Lost(decls, name) <==> EverContested(decls, name)
  {
    if k: nat :| ContestedAt(decls, name, k) { ContestedIsLost(decls, name, k); }
    if Lost(decls, name) {
      var k: nat :| Known(Stage(decls, k), name).Some?;
      var m: nat := k + |decls|;
      FinalFrom(decls, m);
      LostIsContested(decls, name, k, m, Final(decls));
    }
  }

  /** The declaration once took its value from a reference that is not available at the end. */
  ghost predicate Stale(decls: seq<Decl>, d: Decl) {
    (exists k: nat :: Gives(d, Stage(decls, k)).Some?) && Gives(d, Final(decls)).None?
  }

  lemma StaleIsLost(decls: seq<Decl>, d: Decl)
    requires d in decls
    ensures Stale(decls, d) <==> Reference(d.init).Some? && Lost(decls, Reference(d.init).value)
  {
  }

  lemma TakenStays(decls: seq<Decl>, d: Decl, k: nat)
    requires d in decls && Gives(d, Stage(decls, k)).Some?
    ensures Fact(d.name, Gives(d, Stage(decls, k)).value) in Final(decls)
  {
    GivenStays(decls, k, k + 1, d);
    StageBelowFinal(decls, k + 1);
  }

  /** A declaration goes stale if and only if it refers to a name that is contested while known, and the value it took
      then stays among the final values of its own name. */
  lemma StaleExactly(decls: seq<Decl>, d: Decl)
    requires d in decls
    ensures Stale(decls, d) <==> Reference(d.init).Some? && EverContested(decls, Reference(d.init).value)
    ensures Stale(decls, d) ==> exists v :: Fact(d.name, v) in Final(decls)
  {
    StaleIsLost(decls, d);
    if Reference(d.init).Some? { LostExactly(decls, Reference(d.init).value); }
    if Stale(decls, d) {
      var k: nat :| Gives(d, Stage(decls, k)).Some?;
      TakenStays(decls, d, k);
    }
  }

  /** A condition on the declarations alone: every name declared in two ways has only literal initializers. */
  ghost predicate RivalsLiteral(decls: seq<Decl>) {
    forall d, e :: d in decls && e in decls && d.name == e.name && d != e ==>
      Reference(d.init).None? && Reference(e.init).None?
  }

  lemma {:induction false} FactGiven(decls: seq<Decl>, k: nat, f: Fact)
    requires f in Stage(decls, k)
    ensures exists d, j: nat :: j < k && d in decls && d.name == f.name && Gives(d, Stage(decls, j)) == Some(f.value)
    decreases k
  {
    if k > 0 {
      NewFact(decls, k, f);
      if f in Stage(decls, k - 1) { FactGiven(decls, k - 1, f); }
    }
  }

  lemma LiteralsFirst(decls: seq<Decl>, d: Decl, j: nat, k: nat)
    requires d in decls && Reference(d.init).None? && Gives(d, Stage(decls, j)).Some? && k > 0
    ensures Fact(d.name, Gives(d, Stage(decls, j)).value) in Stage(decls, k)
  {
    assert Gives(d, Stage(decls, 0)) == Gives(d, Stage(decls, j));
    GivenStays(decls, 0, k, d);
  }

  /** Under that condition no name is lost and no declaration goes stale: a name with two values is never available to a
      reference, as the source intends. */
  lemma NothingLost(decls: seq<Decl>, name: string)
    requires RivalsLiteral(decls)
    ensures !Lost(decls, name)
  {
    LostIsAmbiguous(decls, name);
    if Lost(decls, name) {
      var k: nat :| Known(Stage(decls, k), name).Some?;
      var v := Known(Stage(decls, k), name).value;
      assert Unique(Stage(decls, k), name, v);
      var w :| w != v && Fact(name, w) in Final(decls);
      FactGiven(decls, k, Fact(name, v));
      var d, i: nat :| i < k && d in decls && d.name == name && Gives(d, Stage(decls, i)) == Some(v);
      FactGiven(decls, |decls|, Fact(name, w));
      var e, j: nat :| j < |decls| && e in decls && e.name == name && Gives(e, Stage(decls, j)) == Some(w);
      if d == e { ContributesOnce(decls, i, j, d); }
      LiteralsFirst(decls, e, j, k);
      assert false;
    }
  }

  const STALE_EXAMPLE := [
    Decl("MAX_A", Numeric(5)), Decl("MAX_A", Alias("MAX_B")), Decl("MAX_B", Numeric(6)), Decl("MAX_C", Alias("MAX_A"))
  ]

  /** Without it the intent fails: `MAX_A` ends with two values, yet `MAX_C`, an alias of it, keeps the value 5. */
  lemma StaleExample()
    ensures Stale(STALE_EXAMPLE, Decl("MAX_C", Alias("MAX_A")))
    ensures Fact("MAX_A", 5) in Final(STALE_EXAMPLE) && Fact("MAX_A", 6) in Final(STALE_EXAMPLE)
    ensures Fact("MAX_C", 5) in Final(STALE_EXAMPLE)
  {
    var decls := STALE_EXAMPLE;
    var a, b, a', c := decls[0], decls[2], decls[1], decls[3];
    assert Stage(decls, 0) == {};
    assert Gives(a, {}) == Some(5) && Gives(b, {}) == Some(6);
    GivenStays(decls, 0, 1, a);
    GivenStays(decls, 0, 1, b);
    forall w | Fact("MAX_A", w) in Stage(decls, 1) ensures w == 5 { FirstRound(decls, Fact("MAX_A", w)); }
    forall w | Fact("MAX_B", w) in Stage(decls, 1) ensures w == 6 { FirstRound(decls, Fact("MAX_B", w)); }
    assert Unique(Stage(decls, 1), "MAX_A", 5) && Unique(Stage(decls, 1), "MAX_B", 6);
    assert Gives(a', Stage(decls, 1)) == Some(6) && Gives(c, Stage(decls, 1)) == Some(5);
    GivenStays(decls, 1, 2, a');
    GivenStays(decls, 1, 2, c);
    StageBelowFinal(decls, 1);
    StageBelowFinal(decls, 2);
  }

  lemma FirstRound(decls: seq<Decl>, f: Fact)
    requires decls == STALE_EXAMPLE && f in Stage(decls, 1)
    ensures f in {Fact("MAX_A", 5), Fact("MAX_B", 6)}
  {
    NewFact(decls, 1, f);
    var d :| d in decls && Gives(d, Stage(decls, 0)) == Some(f.value) && d.name == f.name;
  }
}
