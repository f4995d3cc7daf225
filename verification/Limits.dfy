/** The declared-limit fixed point: literals, aliases, offsets and multiples resolved round by round, where a name is
    known while it has exactly one value and can lose that standing. */
module Limits {
  import opened Wrappers

  /** An initializer, by the form its text matches. */
  datatype Init =
    | Numeric(value: nat)
    | Alias(name: string)
    | Offset(name: string, plus: bool, amount: nat)
    | Scaled(factor: nat, name: string)
    | Shift(bits: nat, plus: bool, amount: nat)
    | TypeMax(bits: nat)
    | Unsupported

  datatype Decl = Decl(name: string, init: Init)

  datatype Fact = Fact(name: string, value: int)

  function Pow2(n: nat): nat {
    if n == 0 then 1 else 2 * Pow2(n - 1)
  }

  function Signed(base: int, plus: bool, amount: nat): int {
    if plus then base + amount else base - amount
  }

  function Lookup(known: map<string, int>, name: string): Option<int> {
    if name in known then Some(known[name]) else None
  }

  /** The one name an initializer refers to, if any. */
  function Reference(init: Init): Option<string> {
    match init
    case Alias(name) => Some(name)
    case Offset(name, _, _) => Some(name)
    case Scaled(_, name) => Some(name)
    case _ => None
  }

  /** `evaluate` */
  function Evaluate(init: Init, known: map<string, int>): Option<int> {
    match init
    case Numeric(value) => Some(value)
    case Alias(name) => Lookup(known, name)
    case Offset(name, plus, amount) => if name in known then Some(Signed(known[name], plus, amount)) else None
    case Scaled(factor, name) => if name in known then Some(factor * known[name]) else None
    case Shift(bits, plus, amount) => Some(Signed(Pow2(bits), plus, amount))
    case TypeMax(bits) => Some(Pow2(bits) - 1)
    case Unsupported => None
  }

  /** The value of an initializer from the value of the name it refers to. */
  function Apply(init: Init, v: Option<int>): Option<int> {
    Evaluate(init, if Reference(init).Some? && v.Some? then map[Reference(init).value := v.value] else map[])
  }

  /** The number an initializer stands for, given the number its reference stands for. */
  predicate Denotes(init: Init, of: Option<int>, v: int) {
    match init
    case Numeric(value) => v == value
    case Alias(_) => of == Some(v)
    case Offset(_, plus, amount) => of.Some? && (if plus then v - amount else v + amount) == of.value
    case Scaled(factor, _) => of.Some? && v == of.value * factor
    case Shift(bits, plus, amount) => (if plus then v - amount else v + amount) == Pow2(bits)
    case TypeMax(bits) => v + 1 == Pow2(bits)
    case Unsupported => false
  }

  lemma DenotesExactly(init: Init, of: Option<int>, v: int)
    ensures Apply(init, of) == Some(v) <==> Denotes(init, of, v)
  {
  }

  lemma {:induction false} Pow2Adds(m: nat, n: nat)
    ensures Pow2(0) == 1 && Pow2(1) == 2 && Pow2(m + n) == Pow2(m) * Pow2(n)
    decreases n
  {
    if n > 0 { Pow2Adds(m, n - 1); }
  }

  // The meaning of a round.

  ghost predicate Unique(facts: set<Fact>, name: string, v: int) {
    Fact(name, v) in facts && forall w :: Fact(name, w) in facts ==> w == v
  }

  /** The value of a name that has exactly one. */
  ghost function Known(facts: set<Fact>, name: string): (r: Option<int>)
    ensures forall v :: r == Some(v) <==> Unique(facts, name, v)
  {
    if v :| Unique(facts, name, v) then Some(v) else None
  }

  /** What a declaration evaluates to once these facts have been found. */
  ghost function Gives(d: Decl, facts: set<Fact>): Option<int> {
    Apply(d.init, match Reference(d.init) case None => None case Some(name) => Known(facts, name))
  }

  ghost function Contributions(decls: seq<Decl>, facts: set<Fact>): set<Fact> {
    set d | d in decls && Gives(d, facts).Some? :: Fact(d.name, Gives(d, facts).value)
  }

  ghost function Iterate(round: set<Fact> -> set<Fact>, k: nat): set<Fact> {
    if k == 0 then {} else round(Iterate(round, k - 1))
  }

  ghost function Round(decls: seq<Decl>): set<Fact> -> set<Fact> {
    facts => facts + Contributions(decls, facts)
  }

  /** The facts after `k` rounds. Facts are never withdrawn; names can stop being known. */
  ghost function Stage(decls: seq<Decl>, k: nat): set<Fact> {
    Iterate(Round(decls), k)
  }

  lemma {:induction false} IterateGrows(round: set<Fact> -> set<Fact>, j: nat, k: nat)
    requires j <= k && forall x :: x <= round(x)
    ensures Iterate(round, j) <= Iterate(round, k)
    decreases k
  {
    if j < k { IterateGrows(round, j, k - 1); }
  }

  lemma {:induction false} IterateStable(round: set<Fact> -> set<Fact>, k: nat, j: nat)
    requires Iterate(round, k + 1) == Iterate(round, k) && k <= j
    ensures Iterate(round, j) == Iterate(round, k)
    decreases j
  {
    if k < j { IterateStable(round, k, j - 1); }
  }

  lemma StageGrows(decls: seq<Decl>, j: nat, k: nat)
    requires j <= k
    ensures Stage(decls, j) <= Stage(decls, k)
  {
    IterateGrows(Round(decls), j, k);
  }

  /** A name is known with at most one value, in any round. */
  lemma KnownOnce(decls: seq<Decl>, j: nat, k: nat, name: string)
    requires Known(Stage(decls, j), name).Some? && Known(Stage(decls, k), name).Some?
    ensures Known(Stage(decls, j), name) == Known(Stage(decls, k), name)
  {
    if j <= k { StageGrows(decls, j, k); } else { StageGrows(decls, k, j); }
    assert Unique(Stage(decls, j), name, Known(Stage(decls, j), name).value);
    assert Unique(Stage(decls, k), name, Known(Stage(decls, k), name).value);
  }

  /** So a declaration contributes at most one value over the whole run. */
  lemma ContributesOnce(decls: seq<Decl>, j: nat, k: nat, d: Decl)
    requires Gives(d, Stage(decls, j)).Some? && Gives(d, Stage(decls, k)).Some?
    ensures Gives(d, Stage(decls, j)) == Gives(d, Stage(decls, k))
  {
    if Reference(d.init).Some? { KnownOnce(decls, j, k, Reference(d.init).value); }
  }

  // Termination.

  /** A fact of one round was there before, or some declaration gave it. */
  lemma NewFact(decls: seq<Decl>, k: nat, f: Fact)
    requires k > 0 && f in Stage(decls, k)
    ensures f in Stage(decls, k - 1) ||
            exists d :: d in decls && Gives(d, Stage(decls, k - 1)) == Some(f.value) && d.name == f.name
  {
  }

  /** What a declaration gives in one round is a fact from then on. */
  lemma GivenStays(decls: seq<Decl>, j: nat, k: nat, d: Decl)
    requires j < k && d in decls && Gives(d, Stage(decls, j)).Some?
    ensures Fact(d.name, Gives(d, Stage(decls, j)).value) in Stage(decls, k)
  {
    GivenNext(decls, j, d);
    StageGrows(decls, j + 1, k);
  }

  lemma GivenNext(decls: seq<Decl>, j: nat, d: Decl)
    requires d in decls && Gives(d, Stage(decls, j)).Some?
    ensures Fact(d.name, Gives(d, Stage(decls, j)).value) in Stage(decls, j + 1)
  {
  }

  ghost predicate FiredWithin(decls: seq<Decl>, k: nat, d: Decl) {
    exists j: nat :: j < k && Gives(d, Stage(decls, j)).Some?
  }

  /** The declarations that have contributed within `k` rounds. */
  ghost function Fired(decls: seq<Decl>, k: nat): set<Decl> {
    set d | d in decls && FiredWithin(decls, k, d)
  }

  /** A round that adds a fact is the first in which some declaration contributes. */
  lemma ProgressFires(decls: seq<Decl>, k: nat)
    requires Stage(decls, k + 1) != Stage(decls, k)
    ensures Fired(decls, k) < Fired(decls, k + 1)
  {
    StageGrows(decls, k, k + 1);
    var f :| f in Stage(decls, k + 1) && f !in Stage(decls, k);
    NewFact(decls, k + 1, f);
    var d :| d in decls && Gives(d, Stage(decls, k)) == Some(f.value) && d.name == f.name;
    if FiredWithin(decls, k, d) {
      var j: nat :| j < k && Gives(d, Stage(decls, j)).Some?;
      ContributesOnce(decls, j, k, d);
      GivenStays(decls, j, k, d);
      assert false;
    }
    FiredGrows(decls, k, d);
  }

  lemma FiredGrows(decls: seq<Decl>, k: nat, d: Decl)
    requires d in decls && Gives(d, Stage(decls, k)).Some? && !FiredWithin(decls, k, d)
    ensures Fired(decls, k) < Fired(decls, k + 1)
  {
    assert FiredWithin(decls, k + 1, d);
    forall e | e in Fired(decls, k) ensures e in Fired(decls, k + 1) {
      var j: nat :| j < k && Gives(e, Stage(decls, j)).Some?;
      assert j < k + 1;
    }
    assert d in Fired(decls, k + 1) && d !in Fired(decls, k);
  }

  ghost function DeclSet(decls: seq<Decl>): set<Decl> {
    set d | d in decls
  }

  lemma {:induction false} DeclSetSize(decls: seq<Decl>)
    ensures |DeclSet(decls)| <= |decls|
  {
    if decls != [] {
      var init, last := decls[..|decls| - 1], decls[|decls| - 1];
      DeclSetSize(init);
      assert decls == init + [last];
      assert DeclSet(decls) == DeclSet(init) + {last};
    }
  }

  lemma SubsetSize<T>(a: set<T>, b: set<T>)
    requires a <= b
    ensures |a| <= |b| && (a != b ==> |a| < |b|)
  {
    assert |b - a| == |b| - |a|;
    if a != b { assert b - a != {}; }
  }

  lemma {:induction false} StrictGrowth<T>(sets: seq<set<T>>)
    requires sets != [] && forall j :: 0 <= j < |sets| - 1 ==> sets[j] < sets[j + 1]
    ensures |sets| - 1 <= |sets[|sets| - 1]|
    decreases |sets|
  {
    if |sets| > 1 {
      var init := sets[..|sets| - 1];
      assert forall j :: 0 <= j < |init| ==> init[j] == sets[j];
      StrictGrowth(init);
      assert sets[|sets| - 2] < sets[|sets| - 2 + 1];
      SubsetSize(sets[|sets| - 2], sets[|sets| - 1]);
    }
  }

  /** Some round within the number of declarations adds nothing. */
  lemma StableSoon(decls: seq<Decl>)
    ensures exists k: nat :: k <= |decls| && Stage(decls, k + 1) == Stage(decls, k)
  {
    var n := |decls| + 1;
    if forall j: nat :: j < n ==> Stage(decls, j + 1) != Stage(decls, j) {
      var fired := seq(n + 1, j requires 0 <= j <= n => Fired(decls, j));
      forall j | 0 <= j < n ensures fired[j] < fired[j + 1] { ProgressFires(decls, j); }
      EnoughRounds(decls, fired);
      assert false;
    }
  }

  lemma EnoughRounds(decls: seq<Decl>, fired: seq<set<Decl>>)
    requires fired != [] && forall j :: 0 <= j < |fired| - 1 ==> fired[j] < fired[j + 1]
    requires fired[|fired| - 1] <= DeclSet(decls)
    ensures |fired| - 1 <= |decls|
  {
    StrictGrowth(fired);
    SubsetSize(fired[|fired| - 1], DeclSet(decls));
    DeclSetSize(decls);
  }

  lemma StableForever(decls: seq<Decl>, k: nat, j: nat)
    requires Stage(decls, k + 1) == Stage(decls, k) && k <= j
    ensures Stage(decls, j) == Stage(decls, k)
  {
    IterateStable(Round(decls), k, j);
  }

  ghost function Final(decls: seq<Decl>): set<Fact> {
    Stage(decls, |decls|)
  }

  lemma FinalStable(decls: seq<Decl>, k: nat)
    requires Stage(decls, k + 1) == Stage(decls, k)
    ensures Stage(decls, k) == Final(decls)
  {
    StableSoon(decls);
    var s: nat :| s <= |decls| && Stage(decls, s + 1) == Stage(decls, s);
    StableForever(decls, s, |decls|);
    if s <= k { StableForever(decls, s, k); } else { StableForever(decls, k, s); }
  }

  lemma FinalFrom(decls: seq<Decl>, k: nat)
    requires k >= |decls|
    ensures Stage(decls, k) == Final(decls)
  {
    StableSoon(decls);
    var s: nat :| s <= |decls| && Stage(decls, s + 1) == Stage(decls, s);
    StableForever(decls, s, |decls|);
    StableForever(decls, s, k);
  }

  lemma StageBelowFinal(decls: seq<Decl>, k: nat)
    ensures Stage(decls, k) <= Final(decls)
  {
    StableSoon(decls);
    var s: nat :| s <= |decls| && Stage(decls, s + 1) == Stage(decls, s);
    FinalStable(decls, s);
    if k <= s { StageGrows(decls, k, s); } else { StableForever(decls, s, k); }
  }

  // Order.

  lemma RoundOrderFree(a: seq<Decl>, b: seq<Decl>, facts: set<Fact>)
    requires forall d :: d in a <==> d in b
    ensures Round(a)(facts) == Round(b)(facts)
  {
  }

  lemma {:induction false} IterateSame(f: set<Fact> -> set<Fact>, g: set<Fact> -> set<Fact>, k: nat)
    requires forall x :: f(x) == g(x)
    ensures Iterate(f, k) == Iterate(g, k)
  {
    if k > 0 { IterateSame(f, g, k - 1); }
  }

  /** Declaration order does not matter: the facts of every round depend on the set of declarations alone. */
  lemma OrderFree(a: seq<Decl>, b: seq<Decl>, k: nat)
    requires forall d :: d in a <==> d in b
    ensures Stage(a, k) == Stage(b, k)
  {
    forall facts ensures Round(a)(facts) == Round(b)(facts) { RoundOrderFree(a, b, facts); }
    IterateSame(Round(a), Round(b), k);
  }

  /** Nor for the outcome: the final values, and with them the names known at the end. */
  lemma FinalOrderFree(a: seq<Decl>, b: seq<Decl>)
    requires forall d :: d in a <==> d in b
    ensures Final(a) == Final(b)
  {
    StableSoon(a);
    var k: nat :| k <= |a| && Stage(a, k + 1) == Stage(a, k);
    OrderFree(a, b, k);
    OrderFree(a, b, k + 1);
    FinalStable(a, k);
    FinalStable(b, k);
  }

  // Derivations.

  /** A finite derivation: it starts at an initializer without reference, and each later declaration refers to the
      name before it. */
  ghost predicate Derivation(decls: seq<Decl>, ds: seq<Decl>, vs: seq<int>) {
    && |ds| == |vs| > 0 && (forall i :: 0 <= i < |ds| ==> ds[i] in decls)
    && Reference(ds[0].init).None? && Denotes(ds[0].init, None, vs[0])
    && forall i :: 0 < i < |ds| ==>
       Reference(ds[i].init) == Some(ds[i - 1].name) && Denotes(ds[i].init, Some(vs[i - 1]), vs[i])
  }

  ghost predicate Derives(decls: seq<Decl>, f: Fact, length: nat) {
    exists ds: seq<Decl>, vs: seq<int> :: Derivation(decls, ds, vs) && |ds| <= length
                     && ds[|ds| - 1].name == f.name && vs[|vs| - 1] == f.value
  }

  lemma DerivesLonger(decls: seq<Decl>, f: Fact, length: nat)
    requires Derives(decls, f, length)
    ensures Derives(decls, f, length + 1)
  {
    var ds: seq<Decl>, vs: seq<int> :| Derivation(decls, ds, vs) && |ds| <= length
                                       && ds[|ds| - 1].name == f.name && vs[|vs| - 1] == f.value;
  }

  lemma DerivesByReference(decls: seq<Decl>, d: Decl, name: string, v: int, f: Fact, length: nat)
    requires Derives(decls, Fact(name, v), length) && d in decls && d.name == f.name
    requires Reference(d.init) == Some(name) && Apply(d.init, Some(v)) == Some(f.value)
    ensures Derives(decls, f, length + 1)
  {
    var ds: seq<Decl>, vs: seq<int> :|
      Derivation(decls, ds, vs) && |ds| <= length && ds[|ds| - 1].name == name && vs[|vs| - 1] == v;
    ExtendDerivation(decls, ds, vs, d, f.value);
    assert (ds + [d])[|ds + [d]| - 1].name == f.name;
  }

  lemma DerivesAlone(decls: seq<Decl>, d: Decl, f: Fact)
    requires d in decls && d.name == f.name && Reference(d.init).None? && Apply(d.init, None) == Some(f.value)
    ensures Derives(decls, f, 1)
  {
    DenotesExactly(d.init, None, f.value);
    assert Derivation(decls, [d], [f.value]);
    assert [d][|[d]| - 1].name == f.name;
  }

  lemma {:induction false} DerivesWithin(decls: seq<Decl>, f: Fact, length: nat, k: nat)
    requires Derives(decls, f, length) && length <= k
    ensures Derives(decls, f, k)
    decreases k
  {
    if length < k {
      DerivesWithin(decls, f, length, k - 1);
      DerivesLonger(decls, f, k - 1);
    }
  }

  /** A declaration that gives a value has no reference, or refers to the one value a name has. */
  lemma GivenFrom(d: Decl, facts: set<Fact>, value: int)
    requires Gives(d, facts) == Some(value)
    ensures match Reference(d.init)
            case None => Apply(d.init, None) == Some(value)
            case Some(name) => exists v :: Fact(name, v) in facts && Apply(d.init, Some(v)) == Some(value)
  {
    if Reference(d.init).Some? {
      var name := Reference(d.init).value;
      var v := Known(facts, name).value;
      assert Unique(facts, name, v);
    }
  }

  /** Every value has a finite derivation from a literal, no longer than the round it appeared in. */
  lemma {:induction false} ValuesDerived(decls: seq<Decl>, k: nat, f: Fact)
    requires f in Stage(decls, k)
    ensures Derives(decls, f, k)
    decreases k
  {
    if k > 0 {
      NewFact(decls, k, f);
      var before := Stage(decls, k - 1);
      if f in before {
        ValuesDerived(decls, k - 1, f);
        DerivesLonger(decls, f, k - 1);
      } else {
        var d :| d in decls && Gives(d, before) == Some(f.value) && d.name == f.name;
        NewFactDerived(decls, k, f, d);
      }
    }
  }

  lemma {:induction false} NewFactDerived(decls: seq<Decl>, k: nat, f: Fact, d: Decl)
    requires k > 0 && d in decls && d.name == f.name && Gives(d, Stage(decls, k - 1)) == Some(f.value)
    ensures Derives(decls, f, k)
    decreases k, 0
  {
    GivenFrom(d, Stage(decls, k - 1), f.value);
    match Reference(d.init)
    case None =>
      DerivesAlone(decls, d, f);
      DerivesWithin(decls, f, 1, k);
    case Some(name) =>
      var v :| Fact(name, v) in Stage(decls, k - 1) && Apply(d.init, Some(v)) == Some(f.value);
      ValuesDerived(decls, k - 1, Fact(name, v));
      DerivesByReference(decls, d, name, v, f, k - 1);
  }

  lemma ExtendDerivation(decls: seq<Decl>, ds: seq<Decl>, vs: seq<int>, d: Decl, v: int)
    requires Derivation(decls, ds, vs) && d in decls
    requires Reference(d.init) == Some(ds[|ds| - 1].name) && Apply(d.init, Some(vs[|vs| - 1])) == Some(v)
    ensures Derivation(decls, ds + [d], vs + [v])
  {
    DenotesExactly(d.init, Some(vs[|vs| - 1]), v);
  }
}
