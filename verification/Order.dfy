/** Strict total orders, ascending sequences and the ascending listing of a set.

    The builders and oracles of the repository canonicalise with `sorted(...)` almost everywhere; this
    module gives that operation one meaning: the only ascending sequence with the given elements. */
module Order {

  ghost predicate StrictTotal<T(!new)>(lt: (T, T) -> bool) {
    && (forall x :: !lt(x, x))
    && (forall x, y, z :: lt(x, y) && lt(y, z) ==> lt(x, z))
    && (forall x, y :: x != y ==> lt(x, y) || lt(y, x))
  }

  ghost function Elements<T>(s: seq<T>): set<T> {
    set x | x in s
  }

  /** Strictly ascending, hence free of duplicates. */
  ghost predicate Ascending<T>(s: seq<T>, lt: (T, T) -> bool) {
    forall i, j :: 0 <= i < j < |s| ==> lt(s[i], s[j])
  }

  /** Ascending with repetitions allowed: what `values == sorted(values)` tests. */
  ghost predicate Sorted<T>(s: seq<T>, lt: (T, T) -> bool) {
    forall i, j :: 0 <= i < j < |s| ==> !lt(s[j], s[i])
  }

  ghost predicate Distinct<T>(s: seq<T>) {
    forall i, j :: 0 <= i < j < |s| ==> s[i] != s[j]
  }

  lemma AscendingDistinct<T(!new)>(s: seq<T>, lt: (T, T) -> bool)
    requires StrictTotal(lt) && Ascending(s, lt)
    ensures Distinct(s)
  {
    forall i, j | 0 <= i < j < |s| ensures s[i] != s[j] { assert lt(s[i], s[j]); }
  }

  lemma SortedStrict<T(!new)>(s: seq<T>, lt: (T, T) -> bool)
    requires StrictTotal(lt) && Sorted(s, lt)
    ensures Ascending(s, lt) <==> Distinct(s)
  {
    if Ascending(s, lt) { AscendingDistinct(s, lt); }
    if Distinct(s) {
      forall i, j | 0 <= i < j < |s| ensures lt(s[i], s[j]) { assert s[i] != s[j] && !lt(s[j], s[i]); }
    }
  }

  lemma DistinctConcat<T>(a: seq<T>, b: seq<T>)
    requires Distinct(a) && Distinct(b) && forall x :: x in a ==> x !in b
    ensures Distinct(a + b)
  {
    var s := a + b;
    forall i, j | 0 <= i < j < |s| ensures s[i] != s[j] {
      if i < |a| <= j { assert a[i] in a && b[j - |a|] in b; }
    }
  }

  /** A sequence is free of duplicates when it has as many elements as places. */
  lemma {:induction false} DistinctCount<T>(s: seq<T>)
    ensures |Elements(s)| <= |s|
    ensures Distinct(s) <==> |Elements(s)| == |s|
    decreases |s|
  {
    if s != [] {
      var init, last := s[..|s| - 1], s[|s| - 1];
      DistinctCount(init);
      assert s == init + [last];
      assert Elements(s) == Elements(init) + {last};
      if last in init {
        var i :| 0 <= i < |init| && init[i] == last;
        assert s[i] == s[|s| - 1];
      } else {
        assert last !in Elements(init);
        assert Distinct(init) ==> Distinct(s);
        if Distinct(s) {
          forall i, j | 0 <= i < j < |init| ensures init[i] != init[j] { assert s[i] != s[j]; }
        }
      }
    }
  }

  /** `r` is what `sorted(xs)` returns for a set `xs`. */
  ghost predicate IsListing<T>(r: seq<T>, xs: set<T>, lt: (T, T) -> bool) {
    Ascending(r, lt) && Elements(r) == xs
  }

  lemma {:induction false} AscendingUnique<T(!new)>(a: seq<T>, b: seq<T>, lt: (T, T) -> bool)
    requires StrictTotal(lt) && Ascending(a, lt) && Ascending(b, lt)
    requires forall x :: x in a <==> x in b
    ensures a == b
    decreases |a|
  {
    assert (a != [] ==> a[0] in b) && (b != [] ==> b[0] in a);
    if a != [] && b != [] {
      assert a[0] in b && b[0] in a;
      var i :| 0 <= i < |b| && b[i] == a[0];
      var j :| 0 <= j < |a| && a[j] == b[0];
      assert i == j == 0;
      forall x ensures x in a[1..] <==> x in b[1..] {
        AscendingTail(a, lt, x);
        AscendingTail(b, lt, x);
      }
      AscendingUnique(a[1..], b[1..], lt);
    }
  }

  /** In an ascending sequence the first element does not recur. */
  lemma AscendingTail<T(!new)>(a: seq<T>, lt: (T, T) -> bool, x: T)
    requires StrictTotal(lt) && Ascending(a, lt) && a != []
    ensures x in a[1..] <==> x in a && x != a[0]
  {
    if x in a[1..] {
      var i :| 0 <= i < |a[1..]| && a[1..][i] == x;
      assert lt(a[0], a[i + 1]);
    }
    if x in a && x != a[0] {
      var i :| 0 <= i < |a| && a[i] == x;
      assert a[1..][i - 1] == x;
    }
  }

  /** Two listings of one set are the same sequence, so `sorted` is a function of the set alone. */
  lemma ListingUnique<T(!new)>(a: seq<T>, b: seq<T>, xs: set<T>, lt: (T, T) -> bool)
    requires StrictTotal(lt) && IsListing(a, xs, lt) && IsListing(b, xs, lt)
    ensures a == b
  {
    forall x ensures x in a <==> x in b {
      assert x in a <==> x in Elements(a);
      assert x in b <==> x in Elements(b);
    }
    AscendingUnique(a, b, lt);
  }

  lemma {:induction false} ListingLength<T(!new)>(r: seq<T>, xs: set<T>, lt: (T, T) -> bool)
    requires StrictTotal(lt) && IsListing(r, xs, lt)
    ensures |r| == |xs|
    decreases |r|
  {
    if r != [] {
      forall x ensures x in Elements(r[1..]) <==> x in xs - {r[0]} {
        AscendingTail(r, lt, x);
        assert x in r <==> x in Elements(r);
      }
      ListingLength(r[1..], xs - {r[0]}, lt);
    }
  }

  /** The place of `x` in the ascending sequence `s`: how many elements lie below it. */
  method Place<T(==, !new)>(s: seq<T>, x: T, lt: (T, T) -> bool) returns (k: nat)
    requires StrictTotal(lt) && Ascending(s, lt)
    ensures k <= |s|
    ensures forall i :: 0 <= i < k ==> lt(s[i], x)
    ensures forall i :: k <= i < |s| ==> !lt(s[i], x)
  {
    k := 0;
    while k < |s| && lt(s[k], x)
      invariant k <= |s|
      invariant forall i :: 0 <= i < k ==> lt(s[i], x)
    {
      k := k + 1;
    }
    forall i | k <= i < |s| ensures !lt(s[i], x) {
      if k < i { assert lt(s[k], s[i]); }
    }
  }

  /** `sorted(set)`. */
  method Listing<T(==, !new)>(xs: set<T>, lt: (T, T) -> bool) returns (r: seq<T>)
    requires StrictTotal(lt)
    ensures IsListing(r, xs, lt)
  {
    r := [];
    var todo := xs;
    while todo != {}
      invariant todo <= xs && Ascending(r, lt) && Elements(r) == xs - todo
      decreases |todo|
    {
      var x :| x in todo;
      assert x !in Elements(r);
      var k := Place(r, x, lt);
      ghost var before := r;
      r := r[..k] + [x] + r[k..];
      InsertAscending(before, x, k, lt);
      todo := todo - {x};
    }
  }

  lemma InsertAscending<T(!new)>(s: seq<T>, x: T, k: nat, lt: (T, T) -> bool)
    requires StrictTotal(lt) && Ascending(s, lt) && x !in s && k <= |s|
    requires forall i :: 0 <= i < k ==> lt(s[i], x)
    requires forall i :: k <= i < |s| ==> !lt(s[i], x)
    ensures Ascending(s[..k] + [x] + s[k..], lt)
    ensures Elements(s[..k] + [x] + s[k..]) == Elements(s) + {x}
  {
    var r := s[..k] + [x] + s[k..];
    forall i | k <= i < |s| ensures lt(x, s[i]) { assert s[i] != x; }
    forall i, j | 0 <= i < j < |r| ensures lt(r[i], r[j]) {
      assert r[i] == if i < k then s[i] else if i == k then x else s[i - 1];
      assert r[j] == if j < k then s[j] else if j == k then x else s[j - 1];
    }
    forall y ensures y in r <==> y in s || y == x {
      assert s == s[..k] + s[k..];
    }
  }

  // Lexicographic order on sequences: Python's order on `bytes` and on `str`.

  predicate Lex<T(==)>(a: seq<T>, b: seq<T>, lt: (T, T) -> bool)
    decreases |a|
  {
    if b == [] then false
    else if a == [] then true
    else lt(a[0], b[0]) || (a[0] == b[0] && Lex(a[1..], b[1..], lt))
  }

  ghost predicate LessFrom<T(!new)>(a: seq<T>, b: seq<T>, lt: (T, T) -> bool, k: nat) {
    k <= |a| && k < |b| && a[..k] == b[..k] && (k == |a| || lt(a[k], b[k]))
  }

  /** Lexicographic: the first difference decides, and without one the shorter is less. */
  lemma {:induction false} LexExactly<T(!new)>(a: seq<T>, b: seq<T>, lt: (T, T) -> bool)
    requires StrictTotal(lt)
    ensures Lex(a, b, lt) <==> exists k: nat :: LessFrom(a, b, lt, k)
    decreases |a|
  {
    if a == [] || b == [] {
      if b != [] { assert LessFrom(a, b, lt, 0); }
    } else {
      LexExactly(a[1..], b[1..], lt);
      if lt(a[0], b[0]) { assert LessFrom(a, b, lt, 0); }
      if k: nat :| a[0] == b[0] && LessFrom(a[1..], b[1..], lt, k) {
        assert a[..k + 1] == [a[0]] + a[1..][..k] && b[..k + 1] == [b[0]] + b[1..][..k];
        assert LessFrom(a, b, lt, k + 1);
      }
      if k: nat :| k > 0 && LessFrom(a, b, lt, k) {
        assert a[0] == a[..k][0] == b[..k][0] == b[0];
        assert a[1..][..k - 1] == a[..k][1..] && b[1..][..k - 1] == b[..k][1..];
        assert LessFrom(a[1..], b[1..], lt, k - 1);
      }
    }
  }

  lemma {:induction false} LexIrreflexive<T(!new)>(a: seq<T>, lt: (T, T) -> bool)
    requires StrictTotal(lt)
    ensures !Lex(a, a, lt)
    decreases |a|
  {
    if a != [] { LexIrreflexive(a[1..], lt); }
  }

  lemma {:induction false} LexTransitive<T(!new)>(a: seq<T>, b: seq<T>, c: seq<T>, lt: (T, T) -> bool)
    requires StrictTotal(lt) && Lex(a, b, lt) && Lex(b, c, lt)
    ensures Lex(a, c, lt)
    decreases |a|
  {
    if a != [] {
      if a[0] == b[0] && b[0] == c[0] { LexTransitive(a[1..], b[1..], c[1..], lt); }
    }
  }

  lemma {:induction false} LexConnected<T(!new)>(a: seq<T>, b: seq<T>, lt: (T, T) -> bool)
    requires StrictTotal(lt) && a != b
    ensures Lex(a, b, lt) || Lex(b, a, lt)
    decreases |a|
  {
    if a != [] && b != [] && a[0] == b[0] {
      assert a[1..] != b[1..] by { assert a == [a[0]] + a[1..] && b == [b[0]] + b[1..]; }
      LexConnected(a[1..], b[1..], lt);
    }
  }

  // The orders the modelled scripts use.

  predicate IntLess(x: int, y: int) { x < y }

  predicate CharLess(x: char, y: char) { x < y }

  predicate BytesLess(a: seq<int>, b: seq<int>) { Lex(a, b, IntLess) }

  predicate TextLess(a: string, b: string) { Lex(a, b, CharLess) }

  lemma IntTotal()
    ensures StrictTotal(IntLess)
  {
  }

  lemma BytesTotal()
    ensures StrictTotal(BytesLess)
  {
    IntTotal();
    forall a ensures !BytesLess(a, a) { LexIrreflexive(a, IntLess); }
    forall a, b, c | BytesLess(a, b) && BytesLess(b, c) ensures BytesLess(a, c) { LexTransitive(a, b, c, IntLess); }
    forall a, b | a != b ensures BytesLess(a, b) || BytesLess(b, a) { LexConnected(a, b, IntLess); }
  }

  lemma TextTotal()
    ensures StrictTotal(TextLess)
  {
    assert StrictTotal(CharLess);
    forall a ensures !TextLess(a, a) { LexIrreflexive(a, CharLess); }
    forall a, b, c | TextLess(a, b) && TextLess(b, c) ensures TextLess(a, c) { LexTransitive(a, b, c, CharLess); }
    forall a, b | a != b ensures TextLess(a, b) || TextLess(b, a) { LexConnected(a, b, CharLess); }
  }
}
