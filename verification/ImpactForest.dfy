/** What the local rules give together: acceptance makes the namespaces a forest, partitioned by the trees of the
    workspace and of the packages, and it isolates packages from each other. */
module ImpactForest {
  import opened Reachability
  import opened ImpactModel
  import opened ImpactRules
  import opened Wrappers

  /** `root` is somewhere on the parent chain of `n`, `n` itself included. */
  ghost predicate Climbs(m: Bodies, n: Id, root: Id) {
    exists k: nat :: Up(m, n, k) == Some(root)
  }

  // Parent chains.

  lemma {:induction false} UpShift(m: Bodies, n: Id, q: Id, k: nat)
    requires Up(m, n, 1) == Some(q)
    ensures Up(m, n, k + 1) == Up(m, q, k)
    decreases k
  {
    if k > 0 { UpShift(m, n, q, k - 1); }
  }

  lemma {:induction false} UpStaysNone(m: Bodies, n: Id, j: nat, k: nat)
    requires j <= k && Up(m, n, j).None?
    ensures Up(m, n, k).None?
    decreases k
  {
    if j < k { UpStaysNone(m, n, j, k - 1); }
  }

  lemma {:induction false} UpIsNamespace(m: Bodies, n: Id, k: nat)
    requires Resolved(m) && n in Namespaces(m) && Up(m, n, k).Some?
    ensures Up(m, n, k).value in Namespaces(m)
    decreases k
  {
    if k > 0 { UpIsNamespace(m, n, k - 1); }
  }

  /** Two equal places on a chain make it go on forever. */
  lemma {:induction false} UpRepeats(m: Bodies, n: Id, i: nat, j: nat, k: nat)
    requires i < j && Up(m, n, j).Some? && Up(m, n, i) == Up(m, n, j)
    ensures Up(m, n, k).Some?
    decreases k
  {
    if k <= j {
      if Up(m, n, k).None? { UpStaysNone(m, n, k, j); }
    } else {
      UpRepeats(m, n, i, j, k - (j - i));
      UpPeriod(m, n, i, j, k - j);
    }
  }

  lemma {:induction false} UpPeriod(m: Bodies, n: Id, i: nat, j: nat, d: nat)
    requires Up(m, n, i) == Up(m, n, j)
    ensures Up(m, n, i + d) == Up(m, n, j + d)
    decreases d
  {
    if d > 0 { UpPeriod(m, n, i, j, d - 1); }
  }

  lemma {:induction false} Pigeonhole(s: seq<Id>, xs: set<Id>)
    requires forall i :: 0 <= i < |s| ==> s[i] in xs
    requires forall i, j :: 0 <= i < j < |s| ==> s[i] != s[j]
    ensures |s| <= |xs|
    decreases |s|
  {
    if s != [] {
      var init, last := s[..|s| - 1], s[|s| - 1];
      Pigeonhole(init, xs - {last});
    }
  }

  /** The oracle's step counter is exact: a chain longer than the number of namespaces never ends. */
  lemma CounterExact(m: Bodies, n: Id, k: nat)
    requires Resolved(m) && n in Namespaces(m) && |Namespaces(m)| <= k && Up(m, n, k).Some?
    ensures forall j: nat :: Up(m, n, j).Some?
  {
    forall j: nat | j <= k ensures Up(m, n, j).Some? {
      if Up(m, n, j).None? { UpStaysNone(m, n, j, k); }
    }
    var chain := seq(k + 1, j requires 0 <= j <= k => Up(m, n, j).value);
    forall j | 0 <= j < |chain| ensures chain[j] in Namespaces(m) { UpIsNamespace(m, n, j); }
    if forall i, j :: 0 <= i < j < |chain| ==> chain[i] != chain[j] {
      Pigeonhole(chain, Namespaces(m));
      assert false;
    }
    var i, j :| 0 <= i < j < |chain| && chain[i] == chain[j];
    forall d: nat ensures Up(m, n, d).Some? { UpRepeats(m, n, i, j, d); }
  }

  // Trees are climbs.

  /** Once links mirror each other, the tree grown down the member links from a root is the set of namespaces whose
      parent chain passes through it. */
  lemma TreeIsClimb(m: Bodies, root: Id, n: Id)
    requires Mirrored(m) && root in Namespaces(m)
    ensures InTree(m, root, n) <==> n in Namespaces(m) && Climbs(m, n, root)
  {
    if InTree(m, root, n) {
      var p: seq<Id> :| Path(Down(MemberLists(m)), p) && p[0] in {root} && p[|p| - 1] == n;
      PathClimbs(m, p, |p| - 1);
    }
    if n in Namespaces(m) && Climbs(m, n, root) {
      var k: nat :| Up(m, n, k) == Some(root);
      ClimbReaches(m, root, n, k);
    }
  }

  lemma {:induction false} PathClimbs(m: Bodies, p: seq<Id>, i: nat)
    requires Mirrored(m) && Path(Down(MemberLists(m)), p) && p[0] in Namespaces(m) && i < |p|
    ensures p[i] in Namespaces(m) && Climbs(m, p[i], p[0])
    decreases i
  {
    if i == 0 {
      assert Up(m, p[0], 0) == Some(p[0]);
    } else {
      PathClimbs(m, p, i - 1);
      assert Down(MemberLists(m))(p[i - 1], p[i]);
      var k: nat :| Up(m, p[i - 1], k) == Some(p[0]);
      assert Up(m, p[i], 0) == Some(p[i]);
      UpShift(m, p[i], p[i - 1], k);
    }
  }

  lemma {:induction false} ClimbReaches(m: Bodies, root: Id, n: Id, k: nat)
    requires Mirrored(m) && root in Namespaces(m) && n in Namespaces(m) && Up(m, n, k) == Some(root)
    ensures InTree(m, root, n)
    decreases k
  {
    if k == 0 {
      SeedReached(Down(MemberLists(m)), {root}, root);
    } else {
      assert Up(m, n, 0) == Some(n);
      if Up(m, n, 1).None? { UpStaysNone(m, n, 1, k); }
      var q := m[n].parent.value;
      UpShift(m, n, q, k - 1);
      ClimbReaches(m, root, q, k - 1);
      StepReached(Down(MemberLists(m)), {root}, q, n);
    }
  }

  // The forest.

  /** A parentless namespace ends every chain through it, so a namespace climbs to at most one. */
  lemma OneTop(m: Bodies, n: Id, r1: Id, r2: Id)
    requires Parentless(m, r1) && Parentless(m, r2) && Climbs(m, n, r1) && Climbs(m, n, r2)
    ensures r1 == r2
  {
    var k1: nat :| Up(m, n, k1) == Some(r1);
    var k2: nat :| Up(m, n, k2) == Some(r2);
    assert Up(m, n, k1 + 1).None? && Up(m, n, k2 + 1).None?;
    if k1 < k2 { UpStaysNone(m, n, k1 + 1, k2); }
    if k2 < k1 { UpStaysNone(m, n, k2 + 1, k1); }
  }

  lemma SomeTop(m: Bodies, n: Id)
    requires C6(m) && n in Namespaces(m)
    ensures exists r :: Parentless(m, r) && Climbs(m, n, r)
  {
    assert ChainEnds(m, n);
    var k: nat :| Up(m, n, k).None?;
    TopBelow(m, n, k);
  }

  lemma {:induction false} TopBelow(m: Bodies, n: Id, k: nat)
    requires Mirrored(m) && n in Namespaces(m) && Up(m, n, k).None?
    ensures exists r :: Parentless(m, r) && Climbs(m, n, r)
    decreases k
  {
    assert Up(m, n, 0) == Some(n);
    if Up(m, n, k - 1).None? {
      TopBelow(m, n, k - 1);
    } else {
      ChainInside(m, n, k - 1);
      var r := Up(m, n, k - 1).value;
      assert Parentless(m, r) && Climbs(m, n, r);
    }
  }

  lemma {:induction false} ChainInside(m: Bodies, n: Id, k: nat)
    requires Mirrored(m) && n in Namespaces(m) && Up(m, n, k).Some?
    ensures Up(m, n, k).value in Namespaces(m)
    decreases k
  {
    if k > 0 { ChainInside(m, n, k - 1); }
  }

  /** The namespaces are partitioned by owner: each lies in the tree of exactly one of the workspace and the
      packages, and that tree is the set of namespaces whose parent chain ends at the owner's root. */
  lemma ForestPartition(m: Bodies, n: Id)
    requires C5(m) && C6(m) && n in Namespaces(m)
    ensures exists o, r :: RootedAt(m, o, r) && InTree(m, r, n)
    ensures forall o1, r1, o2, r2 :: RootedAt(m, o1, r1) && RootedAt(m, o2, r2) && InTree(m, r1, n) && InTree(m, r2, n)
                                     ==> o1 == o2 && r1 == r2
    ensures forall o, r :: RootedAt(m, o, r) ==> (InTree(m, r, n) <==> Climbs(m, n, r))
  {
    forall o, r | RootedAt(m, o, r) ensures Parentless(m, r) && (InTree(m, r, n) <==> Climbs(m, n, r)) {
      TreeIsClimb(m, r, n);
    }
    SomeTop(m, n);
    var r :| Parentless(m, r) && Climbs(m, n, r);
    var o :| RootedAt(m, o, r);
    assert InTree(m, r, n);
    forall o1, r1, o2, r2 | RootedAt(m, o1, r1) && RootedAt(m, o2, r2) && InTree(m, r1, n) && InTree(m, r2, n)
      ensures o1 == o2 && r1 == r2
    {
      OneTop(m, n, r1, r2);
    }
  }

  // Isolation of packages.

  /** No entity is exported by two packages. */
  lemma ExportsDisjoint(m: Bodies, p1: Id, p2: Id, x: Id)
    requires C5(m) && C6(m) && C7(m) && C8(m)
    requires p1 in Packages(m) && p2 in Packages(m) && x in m[p1].exports && x in m[p2].exports
    ensures p1 == p2
  {
    assert ExportScoped(m, p1, x) && ExportScoped(m, p2, x);
    var n1 :| Owns(m, n1, x) && InTree(m, m[p1].rootNamespace, n1);
    var n2 :| Owns(m, n2, x) && InTree(m, m[p2].rootNamespace, n2);
    assert n1 == n2;
    ForestPartition(m, n1);
    assert RootedAt(m, p1, m[p1].rootNamespace) && RootedAt(m, p2, m[p2].rootNamespace);
  }

  /** Each dependency binding has one owning package, and that package's tree is the only package tree that holds
      the binding's local namespace. */
  lemma BindingIsolated(m: Bodies, d: Id)
    requires C5(m) && C6(m) && C11(m) && d in Bindings(m)
    ensures exists p :: Depends(m, p, d) && forall q :: q in Packages(m) ==>
              (Depends(m, q, d) <==> q == p) && (InTree(m, m[q].rootNamespace, m[d].localNamespace) <==> q == p)
  {
    var p :| Depends(m, p, d) && InTree(m, m[p].rootNamespace, m[d].localNamespace);
    var n := m[d].localNamespace;
    assert RootedAt(m, p, m[p].rootNamespace);
    assert Parentless(m, m[p].rootNamespace);
    TreeIsClimb(m, m[p].rootNamespace, n);
    ForestPartition(m, n);
    forall q | q in Packages(m)
      ensures (Depends(m, q, d) <==> q == p) && (InTree(m, m[q].rootNamespace, n) <==> q == p)
    {
      assert RootedAt(m, q, m[q].rootNamespace);
    }
  }

  /** No other package, and not the workspace, owns a namespace of a package's tree: an export of one package is
      never a member of a namespace in another package's tree. */
  lemma ExportOutsideOtherTrees(m: Bodies, p: Id, q: Id, x: Id, n: Id)
    requires C5(m) && C6(m) && C7(m) && C8(m)
    requires p in Packages(m) && x in m[p].exports && q != p
    requires RootedAt(m, q, n)
    ensures forall owner :: Owns(m, owner, x) ==> !InTree(m, n, owner)
  {
    assert ExportScoped(m, p, x);
    var home :| Owns(m, home, x) && InTree(m, m[p].rootNamespace, home);
    assert RootedAt(m, p, m[p].rootNamespace);
    ForestPartition(m, home);
  }
}
