/** `judge`, rule by rule in contract order, with the loops and dictionaries of the oracle, each proved to decide
    its order-free rule; and the reverse index with its transitive closure. */
module ImpactJudge {
  import opened Order
  import opened Reachability
  import opened ImpactModel
  import opened ImpactEdges
  import opened ImpactMentions
  import opened ImpactRules
  import opened ImpactForest
  import opened Wrappers

  /** `sorted_unique`: comparing neighbours decides strict ascent of the whole list. */
  method SortedUnique(values: seq<Id>) returns (ok: bool)
    ensures ok <==> Canonical(values)
  {
    for i := 0 to |values| - (if values == [] then 0 else 1)
      invariant forall j, k :: 0 <= j < k < |values| && k <= i ==> IdLess(values[j], values[k])
    {
      if !IdLess(values[i], values[i + 1]) {
        return false;
      }
      assert forall j :: 0 <= j < i ==> IdLess(values[j], values[i]);
    }
    return true;
  }

  method IdsOf(xs: set<Id>) returns (r: seq<Id>)
    ensures IsListing(r, xs, IdLess) && |r| == |xs|
    ensures forall x :: x in r <==> x in xs
    ensures forall k :: 0 <= k < |r| ==> r[k] in xs
  {
    IdTotal();
    r := Listing(xs, IdLess);
    ListingLength(r, xs, IdLess);
    assert forall x :: x in r <==> x in Elements(r);
  }

  /** Comparing a list with `sorted(...)` of a set. */
  lemma SameListing(given: seq<Id>, listing: seq<Id>, xs: set<Id>)
    requires IsListing(listing, xs, IdLess)
    ensures given == listing <==> IsListing(given, xs, IdLess)
  {
    IdTotal();
    if IsListing(given, xs, IdLess) { ListingUnique(given, listing, xs, IdLess); }
  }

  method CheckBodySets(entities: seq<Entity>) returns (ok: bool)
    requires Canonical(Ids(entities))
    ensures ok <==> BodySetsCanonical(BodiesOf(entities))
  {
    ghost var m := BodiesOf(entities);
    BodiesExact(entities);
    for i := 0 to |entities|
      invariant forall k :: 0 <= k < i ==> BodyCanonical(entities[k].body)
    {
      var sets := BodySets(entities[i].body);
      assert entities[i] in entities;
      for j := 0 to |sets|
        invariant forall k :: 0 <= k < j ==> Canonical(sets[k])
      {
        ok := SortedUnique(sets[j]);
        if !ok { return false; }
      }
    }
    forall id | id in m ensures BodyCanonical(m[id]) {
      var k :| 0 <= k < |entities| && entities[k] == Entity(id, m[id]);
    }
    return true;
  }

  method CheckC4(m: Bodies, w: Id) returns (ok: bool)
    requires Workspaces(m) == {w}
    ensures ok <==> C4(m)
  {
    assert w in Workspaces(m);
    var packages := IdsOf(Packages(m));
    SameListing(m[w].packages, packages, Packages(m));
    if m[w].packages != packages { return false; }
    for i := 0 to |packages|
      invariant forall k :: 0 <= k < i ==> m[packages[k]].workspace == w
    {
      if m[packages[i]].workspace != w {
        assert packages[i] in Packages(m);
        return false;
      }
    }
    return true;
  }

  predicate HasRoot(m: Bodies, o: Id) { o in m && (m[o].Workspace? || m[o].Package?) }

  predicate OwnersIn(m: Bodies, owners: seq<Id>) { forall i :: 0 <= i < |owners| ==> HasRoot(m, owners[i]) }

  function RootOf(m: Bodies, o: Id): (root: Id)
    requires HasRoot(m, o)
    ensures RootedAt(m, o, root)
  {
    m[o].rootNamespace
  }

  ghost predicate RootsKept(m: Bodies, owners: seq<Id>, roots: map<Id, Id>)
    requires OwnersIn(m, owners)
  {
    && (forall r :: r in roots ==> roots[r] in owners && RootedAt(m, roots[r], r) && Parentless(m, r))
    && (forall i :: 0 <= i < |owners| ==>
         RootOf(m, owners[i]) in roots && roots[RootOf(m, owners[i])] == owners[i])
  }

  /** The root of the workspace and of every package, each with its one owner. */
  method OwnedRoots(m: Bodies, owners: seq<Id>) returns (roots: Option<map<Id, Id>>)
    requires Distinct(owners)
    requires OwnersIn(m, owners)
    ensures match roots
            case Some(found) => RootsKept(m, owners, found)
            case None =>
              exists i :: 0 <= i < |owners| && var r := RootOf(m, owners[i]);
                !Parentless(m, r) || exists j :: 0 <= j < i && RootOf(m, owners[j]) == r
  {
    var found: map<Id, Id> := map[];
    for i := 0 to |owners|
      invariant RootsKept(m, owners[..i], found)
    {
      var root := RootOf(m, owners[i]);
      if root !in m || !m[root].Namespace? || m[root].parent.Some? {
        assert !Parentless(m, root);
        return None;
      }
      if root in found {
        var k :| 0 <= k < i && owners[..i][k] == found[root];
        return None;
      }
      ghost var before := found;
      found := found[root := owners[i]];
      RootsGrow(m, owners[..i], owners[i], before);
      assert owners[..i + 1] == owners[..i] + [owners[i]];
    }
    assert owners[..|owners|] == owners;
    return Some(found);
  }

  lemma RootsGrow(m: Bodies, owners: seq<Id>, o: Id, roots: map<Id, Id>)
    requires OwnersIn(m, owners) && HasRoot(m, o) && RootsKept(m, owners, roots)
    requires RootOf(m, o) !in roots && Parentless(m, RootOf(m, o))
    ensures RootsKept(m, owners + [o], roots[RootOf(m, o) := o])
  {
  }

  method CheckC5(m: Bodies, w: Id) returns (ok: bool)
    requires Workspaces(m) == {w}
    ensures ok <==> C5(m)
  {
    assert w in Workspaces(m);
    var packages := IdsOf(Packages(m));
    var owners := [w] + packages;
    OwnersDistinct(m, w, packages);
    assert forall i :: 0 < i < |owners| ==> owners[i] == packages[i - 1] && owners[i] in Elements(packages);
    var roots := OwnedRoots(m, owners);
    if roots.None? {
      assert !C5(m) by {
        var i :| 0 <= i < |owners| && var r := RootOf(m, owners[i]);
          !Parentless(m, r) || exists j :: 0 <= j < i && RootOf(m, owners[j]) == r;
        var r := RootOf(m, owners[i]);
        assert RootedAt(m, owners[i], r);
        if Parentless(m, r) {
          var j :| 0 <= j < i && RootOf(m, owners[j]) == r;
          assert RootedAt(m, owners[j], r) && owners[j] != owners[i];
        }
      }
      return false;
    }
    OwnersComplete(m, w, packages, roots.value);
    ok := CheckRootless(m, roots.value);
  }

  /** No other namespace may be parentless. */
  method CheckRootless(m: Bodies, roots: map<Id, Id>) returns (ok: bool)
    requires forall r :: r in roots ==> RootedAt(m, roots[r], r)
    requires forall o, r :: RootedAt(m, o, r) ==> r in roots
    ensures ok <==> forall n :: Parentless(m, n) ==> exists o :: RootedAt(m, o, n)
  {
    var namespaces := IdsOf(Namespaces(m));
    for i := 0 to |namespaces|
      invariant forall k :: 0 <= k < i && Parentless(m, namespaces[k]) ==> namespaces[k] in roots
    {
      if m[namespaces[i]].parent.None? && namespaces[i] !in roots {
        assert Parentless(m, namespaces[i]) && forall o :: !RootedAt(m, o, namespaces[i]);
        return false;
      }
    }
    forall n | Parentless(m, n) ensures exists o :: RootedAt(m, o, n) {
      assert n in namespaces;
      assert RootedAt(m, roots[n], n);
    }
    return true;
  }

  /** The workspace and the packages are all the owners, so their roots are all the roots. */
  lemma OwnersComplete(m: Bodies, w: Id, packages: seq<Id>, roots: map<Id, Id>)
    requires Workspaces(m) == {w} && IsListing(packages, Packages(m), IdLess)
    requires OwnersIn(m, [w] + packages) && RootsKept(m, [w] + packages, roots)
    ensures forall o, r :: RootedAt(m, o, r) ==> r in roots && roots[r] == o && Parentless(m, r)
  {
    var owners := [w] + packages;
    forall o, r | RootedAt(m, o, r) ensures r in roots && roots[r] == o && Parentless(m, r) {
      if o == w {
        assert owners[0] == w;
      } else {
        assert o in Packages(m) && o in Elements(packages);
        var k :| 0 <= k < |packages| && packages[k] == o;
        assert owners[k + 1] == o;
      }
    }
  }

  lemma OwnersDistinct(m: Bodies, w: Id, packages: seq<Id>)
    requires w in Workspaces(m) && IsListing(packages, Packages(m), IdLess)
    ensures Distinct([w] + packages)
  {
    AscendingDistinct(packages, IdLess);
    forall x | x in packages ensures x !in [w] { assert x in Elements(packages); }
    DistinctConcat([w], packages);
  }

  /** C6, with the step counter as the cycle detector. */
  method CheckC6(m: Bodies) returns (ok: bool)
    requires Resolved(m)
    ensures ok <==> C6(m)
  {
    var namespaces := IdsOf(Namespaces(m));
    ok := CheckPlaces(m, namespaces);
    C6Everywhere(m, namespaces);
  }

  method CheckPlaces(m: Bodies, namespaces: seq<Id>) returns (ok: bool)
    requires Resolved(m) && |namespaces| == |Namespaces(m)|
    requires forall k :: 0 <= k < |namespaces| ==> namespaces[k] in Namespaces(m)
    ensures ok <==> forall k :: 0 <= k < |namespaces| ==> C6At(m, namespaces[k])
  {
    for i := 0 to |namespaces|
      invariant forall k :: 0 <= k < i ==> C6At(m, namespaces[k])
    {
      ok := CheckPlace(m, namespaces[i], |namespaces|);
      if !ok { return; }
    }
    return true;
  }

  method CheckPlace(m: Bodies, n: Id, limit: nat) returns (ok: bool)
    requires Resolved(m) && n in Namespaces(m) && limit == |Namespaces(m)|
    ensures ok <==> C6At(m, n)
  {
    ok := CheckMirrored(m, n);
    if ok { ok := ChainEndsInTime(m, n, limit); }
  }

  ghost predicate C6At(m: Bodies, n: Id) { n in Namespaces(m) && MirroredAt(m, n) && ChainEnds(m, n) }

  method CheckMirrored(m: Bodies, n: Id) returns (ok: bool)
    requires Resolved(m) && n in Namespaces(m)
    ensures ok <==> MirroredAt(m, n)
  {
    if m[n].parent.Some? && n !in m[m[n].parent.value].members { return false; }
    var members := m[n].members;
    for j := 0 to |members|
      invariant forall k :: 0 <= k < j && members[k] in Namespaces(m) ==> m[members[k]].parent == Some(n)
    {
      if members[j] in m && m[members[j]].Namespace? && m[members[j]].parent != Some(n) {
        assert members[j] in Namespaces(m);
        return false;
      }
    }
    return true;
  }

  lemma C6Everywhere(m: Bodies, namespaces: seq<Id>)
    requires Elements(namespaces) == Namespaces(m)
    ensures C6(m) <==> forall k :: 0 <= k < |namespaces| ==> C6At(m, namespaces[k])
  {
    if forall k :: 0 <= k < |namespaces| ==> C6At(m, namespaces[k]) {
      forall n | n in Namespaces(m) ensures C6At(m, n) {
        assert n in Elements(namespaces);
        var k :| 0 <= k < |namespaces| && namespaces[k] == n;
        assert C6At(m, namespaces[k]);
      }
    }
    forall k | 0 <= k < |namespaces| && C6(m) ensures C6At(m, namespaces[k]) {
      assert namespaces[k] in Elements(namespaces);
    }
  }

  method ChainEndsInTime(m: Bodies, n: Id, limit: nat) returns (ends: bool)
    requires Resolved(m) && n in Namespaces(m) && limit == |Namespaces(m)|
    ensures ends <==> ChainEnds(m, n)
  {
    assert Up(m, n, 0) == Some(n);
    var cursor, steps := m[n].parent, 0;
    while cursor.Some?
      invariant 0 <= steps <= limit && cursor == Up(m, n, steps + 1)
      decreases limit - steps
    {
      steps := steps + 1;
      if steps > limit {
        CounterExact(m, n, steps);
        return false;
      }
      UpIsNamespace(m, n, steps);
      cursor := m[cursor.value].parent;
    }
    return true;
  }

  ghost predicate Lists(lists: map<Id, seq<Id>>, n: Id, x: Id) {
    n in lists && x in lists[n]
  }

  /** One turn of the loops of C7 and C11: `n` takes its items unless one is forbidden or already taken. */
  method Take(n: Id, items: seq<Id>, taken: map<Id, Id>, forbidden: set<Id>) returns (ok: bool, ownerOf: map<Id, Id>)
    requires Distinct(items)
    ensures ok <==> forall x :: x in items ==> x !in forbidden && x !in taken
    ensures ok ==> ownerOf.Keys == taken.Keys + Elements(items)
    ensures ok ==> forall x :: x in ownerOf ==> ownerOf[x] == if x in taken then taken[x] else n
  {
    ownerOf := taken;
    for j := 0 to |items|
      invariant forall k :: 0 <= k < j ==> items[k] !in forbidden && items[k] !in taken
      invariant ownerOf.Keys == taken.Keys + Elements(items[..j])
      invariant forall x :: x in ownerOf ==> ownerOf[x] == if x in taken then taken[x] else n
    {
      if items[j] in forbidden || items[j] in ownerOf {
        assert items[j] in items && items[j] !in items[..j];
        return false, map[];
      }
      ownerOf := ownerOf[items[j] := n];
      assert items[..j + 1] == items[..j] + [items[j]];
    }
    assert items[..|items|] == items;
    return true, ownerOf;
  }

  /** The loop of C7 and of C11: give every listed item its one lister, and refuse an item that is forbidden or
      already has one. */
  method AssignOwners(order: seq<Id>, lists: map<Id, seq<Id>>, forbidden: set<Id>)
    returns (ok: bool, ownerOf: map<Id, Id>)
    requires Distinct(order) && Elements(order) == lists.Keys
    requires forall n :: n in lists ==> Distinct(lists[n])
    ensures ok <==> (forall n, x :: Lists(lists, n, x) ==> x !in forbidden)
                    && (forall n1, n2, x :: Lists(lists, n1, x) && Lists(lists, n2, x) ==> n1 == n2)
    ensures ok ==> forall x, n :: (x in ownerOf && ownerOf[x] == n) <==> Lists(lists, n, x)
  {
    ownerOf := map[];
    for i := 0 to |order|
      invariant forall x :: x in ownerOf ==> Lists(lists, ownerOf[x], x) && ownerOf[x] in order[..i] && x !in forbidden
      invariant forall n, x :: n in order[..i] && Lists(lists, n, x) ==> x in ownerOf && ownerOf[x] == n
    {
      var n := order[i];
      assert n in Elements(order) && n !in order[..i] && order[..i + 1] == order[..i] + [n];
      ghost var before := ownerOf;
      ok, ownerOf := Take(n, lists[n], ownerOf, forbidden);
      if !ok {
        ghost var x :| x in lists[n] && (x in forbidden || x in before);
        assert Lists(lists, n, x);
        return;
      }
    }
    assert order[..|order|] == order;
    forall x, n | Lists(lists, n, x) ensures x in ownerOf && ownerOf[x] == n { assert n in Elements(order); }
    return true, ownerOf;
  }

  /** C7. The dictionary it fills gives every listed member its one namespace. */
  method CheckC7(m: Bodies) returns (ok: bool, ownerOf: map<Id, Id>)
    requires Resolved(m) && BodySetsCanonical(m)
    ensures ok <==> C7(m)
    ensures ok ==> forall x, n :: (x in ownerOf && ownerOf[x] == n) <==> Owns(m, n, x)
  {
    var namespaces := IdsOf(Namespaces(m));
    var lists := MemberLists(m);
    var forbidden := set x | x in m && ForbiddenMember(m[x].Kind());
    IdTotal();
    AscendingDistinct(namespaces, IdLess);
    forall n | n in lists ensures Distinct(lists[n]) {
      assert BodyCanonical(m[n]) && BodySets(m[n])[0] == lists[n];
      AscendingDistinct(lists[n], IdLess);
    }
    assert lists.Keys == Namespaces(m);
    assert forall n, x :: Lists(lists, n, x) <==> Owns(m, n, x);
    ok, ownerOf := AssignOwners(namespaces, lists, forbidden);
  }

  function Keep(ids: seq<Id>, xs: set<Id>): (r: seq<Id>)
    ensures forall x :: x in r <==> x in ids && x in xs
  {
    if ids == [] then []
    else if ids[0] in xs then [ids[0]] + Keep(ids[1..], xs)
    else Keep(ids[1..], xs)
  }

  /** The inner loop of both searches: mark and queue what has not been seen. */
  method Visit(successors: seq<Id>, seen: set<Id>, queued: seq<Id>) returns (visited: set<Id>, queue: seq<Id>)
    ensures visited == seen + Elements(successors)
    ensures forall x :: x in queue <==> x in queued || x in visited - seen
    ensures visited == seen ==> queue == queued
  {
    visited, queue := seen, queued;
    for j := 0 to |successors|
      invariant visited == seen + Elements(successors[..j])
      invariant forall x :: x in queue <==> x in queued || x in visited - seen
      invariant visited == seen ==> queue == queued
    {
      if successors[j] !in visited {
        visited := visited + {successors[j]};
        queue := queue + [successors[j]];
      }
      assert successors[..j + 1] == successors[..j] + [successors[j]];
    }
    assert successors[..|successors|] == successors;
  }

  /** One turn of either search. */
  method Turn(ghost step: (Id, Id) -> bool, ghost seeds: set<Id>, successors: seq<Id>, seen: set<Id>, queued: seq<Id>)
    returns (visited: set<Id>, queue: seq<Id>)
    requires queued != [] && Searching(step, seeds, seen, queued)
    requires forall y :: step(queued[0], y) <==> y in successors
    ensures Searching(step, seeds, visited, queue)
    ensures visited == seen + Elements(successors)
    ensures visited == seen ==> |queue| < |queued|
  {
    visited, queue := Visit(successors, seen, queued[1..]);
    SearchTurn(step, seeds, seen, queued, successors, visited, queue);
  }

  /** `namespace_tree`: breadth-first down the member links. It fails only when the root is not a namespace. */
  method NamespaceTree(namespaces: map<Id, seq<Id>>, root: Id) returns (ok: bool, tree: set<Id>)
    ensures ok <==> root in namespaces
    ensures ok ==> forall n :: n in tree <==> Reaches(Down(namespaces), {root}, n)
  {
    ghost var step := Down(namespaces);
    tree := {root};
    var queue := [root];
    SearchStarts(step, {root}, queue);
    while queue != []
      invariant Searching(step, {root}, tree, queue)
      invariant tree <= namespaces.Keys + {root}
      invariant root !in namespaces ==> queue == [root]
      decreases |namespaces.Keys + {root} - tree|, |queue|
    {
      var current := queue[0];
      assert current in queue;
      if current !in namespaces { return false, {}; }
      var successors := Keep(namespaces[current], namespaces.Keys);
      ghost var before := tree;
      tree, queue := Turn(step, {root}, successors, tree, queue);
      assert Elements(successors) <= namespaces.Keys;
      FewerLeft(namespaces.Keys + {root}, before, tree);
    }
    SearchEnds(step, {root}, tree);
    return true, tree;
  }

  method CheckC8(m: Bodies, ownerOf: map<Id, Id>) returns (ok: bool, trees: map<Id, set<Id>>)
    requires C5(m)
    requires forall x, n :: (x in ownerOf && ownerOf[x] == n) <==> Owns(m, n, x)
    ensures ok <==> C8(m)
    ensures ok ==> forall p :: p in Packages(m) ==>
              p in trees && forall n :: n in trees[p] <==> InTree(m, m[p].rootNamespace, n)
  {
    var packages := IdsOf(Packages(m));
    trees := map[];
    for i := 0 to |packages|
      invariant forall k, x :: 0 <= k < i && x in m[packages[k]].exports ==> ExportScoped(m, packages[k], x)
      invariant forall k :: 0 <= k < i ==>
        packages[k] in trees && forall n :: n in trees[packages[k]] <==> InTree(m, m[packages[k]].rootNamespace, n)
    {
      var p := packages[i];
      assert RootedAt(m, p, m[p].rootNamespace);
      var found, tree := NamespaceTree(MemberLists(m), m[p].rootNamespace);
      assert found;
      var exports := m[p].exports;
      for j := 0 to |exports|
        invariant forall k :: 0 <= k < j ==> ExportScoped(m, p, exports[k])
      {
        var x := exports[j];
        if x !in ownerOf || ownerOf[x] !in tree {
          assert !ExportScoped(m, p, x);
          return false, map[];
        }
        assert Owns(m, ownerOf[x], x);
      }
      trees := trees[p := tree];
    }
    return true, trees;
  }

  method CheckC11(m: Bodies, trees: map<Id, set<Id>>) returns (ok: bool)
    requires Resolved(m) && BodySetsCanonical(m)
    requires forall p :: p in Packages(m) ==>
               p in trees && forall n :: n in trees[p] <==> InTree(m, m[p].rootNamespace, n)
    ensures ok <==> C11(m)
  {
    var unique, bindingOwner := OwnDependencies(m);
    if !unique { return false; }
    var bindings := IdsOf(Bindings(m));
    for i := 0 to |bindings|
      invariant forall k :: 0 <= k < i ==>
        exists p :: Depends(m, p, bindings[k]) && InTree(m, m[p].rootNamespace, m[bindings[k]].localNamespace)
    {
      var d := bindings[i];
      assert d in bindingOwner ==> Depends(m, bindingOwner[d], d);
      if d !in bindingOwner || m[d].localNamespace !in trees[bindingOwner[d]] {
        assert forall p :: Depends(m, p, d) ==> d in bindingOwner && bindingOwner[d] == p;
        assert d in Bindings(m);
        return false;
      }
      assert Depends(m, bindingOwner[d], d);
    }
    return true;
  }

  method OwnDependencies(m: Bodies) returns (ok: bool, bindingOwner: map<Id, Id>)
    requires BodySetsCanonical(m)
    ensures ok <==> forall p1, p2, d :: Depends(m, p1, d) && Depends(m, p2, d) ==> p1 == p2
    ensures ok ==> forall d, p :: (d in bindingOwner && bindingOwner[d] == p) <==> Depends(m, p, d)
  {
    var packages := IdsOf(Packages(m));
    var lists := map p | p in Packages(m) :: m[p].dependencies;
    IdTotal();
    AscendingDistinct(packages, IdLess);
    forall p | p in lists ensures Distinct(lists[p]) {
      assert BodyCanonical(m[p]) && BodySets(m[p])[0] == lists[p];
      AscendingDistinct(lists[p], IdLess);
    }
    assert lists.Keys == Packages(m);
    assert forall p, d :: Lists(lists, p, d) <==> Depends(m, p, d);
    ok, bindingOwner := AssignOwners(packages, lists, {});
  }

  // The reverse index and its transitive closure.

  ghost function Dependents(edges: seq<Edge>, x: Id): seq<Id> {
    if edges == [] then []
    else
      var last := edges[|edges| - 1];
      Dependents(edges[..|edges| - 1], x) + if last.dependency == x then [last.dependent] else []
  }

  lemma {:induction false} DependentsExact(edges: seq<Edge>, x: Id, y: Id)
    ensures y in Dependents(edges, x) <==> exists k :: Edge(y, x, k) in edges
  {
    if edges != [] {
      var init, last := edges[..|edges| - 1], edges[|edges| - 1];
      DependentsExact(init, x, y);
      assert edges == init + [last];
      if last.dependency == x && last.dependent == y { assert Edge(y, x, last.kind) == last; }
    }
  }

  ghost predicate IsReverse(reverse: map<Id, seq<Id>>, edges: seq<Edge>) {
    forall x :: if x in reverse then reverse[x] == Dependents(edges, x) else Dependents(edges, x) == []
  }

  method BuildReverse(edges: seq<Edge>) returns (reverse: map<Id, seq<Id>>)
    ensures IsReverse(reverse, edges)
  {
    reverse := map[];
    for i := 0 to |edges|
      invariant IsReverse(reverse, edges[..i])
    {
      var e := edges[i];
      assert edges[..i + 1][..i] == edges[..i];
      var soFar := if e.dependency in reverse then reverse[e.dependency] else [];
      reverse := reverse[e.dependency := soFar + [e.dependent]];
    }
    assert edges[..|edges|] == edges;
  }

  ghost function Along(reverse: map<Id, seq<Id>>): (Id, Id) -> bool {
    (x, y) => x in reverse && y in reverse[x]
  }

  /** The direct-edge relation turned around. */
  ghost function Inverted(edges: seq<Edge>): (Id, Id) -> bool {
    (x, y) => exists k :: Edge(y, x, k) in edges
  }

  /** The ascending listing of everything reached from the seeds. */
  ghost predicate IsImpact(reverse: map<Id, seq<Id>>, seeds: seq<Id>, r: seq<Id>) {
    Ascending(r, IdLess) && forall x :: x in r <==> Reaches(Along(reverse), Elements(seeds), x)
  }

  /** `transitive`: the ascending listing of everything reached from the seeds, the seeds included. */
  method Transitive(reverse: map<Id, seq<Id>>, seeds: seq<Id>) returns (r: seq<Id>)
    ensures IsImpact(reverse, seeds, r)
  {
    ghost var step, start := Along(reverse), Elements(seeds);
    ghost var all := start + set x, y | x in reverse && y in reverse[x] :: y;
    var visited := set x | x in seeds;
    var queue := seeds;
    SearchStarts(step, start, queue);
    while queue != []
      invariant Searching(step, start, visited, queue)
      invariant visited <= all
      decreases |all - visited|, |queue|
    {
      var current := queue[0];
      var successors := if current in reverse then reverse[current] else [];
      assert Elements(successors) <= all;
      ghost var before := visited;
      visited, queue := Turn(step, start, successors, visited, queue);
      FewerLeft(all, before, visited);
    }
    SearchEnds(step, start, visited);
    r := IdsOf(visited);
  }

  /** Read through the reverse index, reaching is reaching along the turned-around direct edges. */
  lemma TransitiveMeaning(edges: seq<Edge>, reverse: map<Id, seq<Id>>, seeds: set<Id>, x: Id)
    requires IsReverse(reverse, edges)
    ensures Reaches(Along(reverse), seeds, x) <==> Reaches(Inverted(edges), seeds, x)
  {
    forall u, v ensures Along(reverse)(u, v) <==> Inverted(edges)(u, v) { DependentsExact(edges, u, v); }
    ReachesSame(Along(reverse), Inverted(edges), seeds, x);
  }

  /** The impact of an impact is that impact, and the impact of two seed lists together is the listing of both
      impacts. */
  lemma TransitiveLaws(reverse: map<Id, seq<Id>>, a: seq<Id>, b: seq<Id>, ra: seq<Id>, rb: seq<Id>, again: seq<Id>,
                       both: seq<Id>)
    requires IsImpact(reverse, a, ra) && IsImpact(reverse, b, rb)
    requires IsImpact(reverse, ra, again) && IsImpact(reverse, a + b, both)
    ensures again == ra
    ensures IsListing(both, Elements(ra) + Elements(rb), IdLess)
  {
    IdTotal();
    var step := Along(reverse);
    forall x ensures x in again <==> x in ra { ReachesIdempotent(step, Elements(a), Elements(ra), x); }
    AscendingUnique(again, ra, IdLess);
    assert Elements(a + b) == Elements(a) + Elements(b);
    forall x ensures x in both <==> x in ra || x in rb { ReachesUnion(step, Elements(a), Elements(b), x); }
  }

  // The whole judgment.

  datatype Judgment = Judgment(edges: seq<Edge>, workspace: Id, packages: nat, namespaces: nat, bound: nat,
                               reverse: map<Id, seq<Id>>)

  datatype Outcome = Accepted(judgment: Judgment) | Failed(code: Code)

  /** The facts of the record that an accepted request returns. */
  ghost predicate Reports(r: Request, j: Judgment) {
    var m := BodiesOf(r.entities);
    && IsListing(j.edges, EdgeSet(r.entities), EdgeLess)
    && Workspaces(m) == {j.workspace}
    && j.packages == |Packages(m)| && j.namespaces == |Namespaces(m)| && j.bound == |r.entities|
    && IsReverse(j.reverse, j.edges)
  }

  method BuildBodies(entities: seq<Entity>) returns (m: Bodies)
    ensures m == BodiesOf(entities)
  {
    m := map[];
    for i := 0 to |entities|
      invariant m == BodiesOf(entities[..i])
    {
      assert entities[..i + 1][..i] == entities[..i];
      m := m[entities[i].id := entities[i].body];
    }
    assert entities[..|entities|] == entities;
  }

  /** What each code of C3 to C11 says: its rule fails, and every rule before it holds. */
  ghost predicate ClosureFails(m: Bodies, facts: Facts, code: Code) {
    match code
    case WorkspaceMissing => forall i :: i in m ==> !m[i].Workspace?
    case WorkspaceAmbiguous => exists v, w :: v in Workspaces(m) && w in Workspaces(m) && v != w
    case PackageMembership => OneWorkspace(m) && !C4(m)
    case NamespaceRoot => OneWorkspace(m) && C4(m) && !C5(m)
    case NamespaceTree => OneWorkspace(m) && C4(m) && C5(m) && !C6(m)
    case MemberOwnership => OneWorkspace(m) && C4(m) && C5(m) && C6(m) && !C7(m)
    case ExportUnscoped => OneWorkspace(m) && C4(m) && C5(m) && C6(m) && C7(m) && !C8(m)
    case EntryPointsMismatch => OneWorkspace(m) && C4(m) && C5(m) && C6(m) && C7(m) && C8(m) && !C9(m, facts)
    case DependencyRootsMismatch =>
      OneWorkspace(m) && C4(m) && C5(m) && C6(m) && C7(m) && C8(m) && C9(m, facts) && !C10(m, facts)
    case DependencyBindingUnowned =>
      OneWorkspace(m) && C4(m) && C5(m) && C6(m) && C7(m) && C8(m) && C9(m, facts) && C10(m, facts) && !C11(m)
    case _ => false
  }

  ghost predicate OneWorkspace(m: Bodies) {
    exists w :: Workspaces(m) == {w}
  }

  lemma ClosureCodes(m: Bodies, facts: Facts, code: Code)
    ensures ClosureVerdict(m, facts) == Some(code) <==> ClosureFails(m, facts, code)
  {
    OneElement(Workspaces(m));
    TwoElements(Workspaces(m));
    if Workspaces(m) != {} { var w :| w in Workspaces(m); }
    if i :| i in m && m[i].Workspace? { assert i in Workspaces(m); }
  }

  lemma TwoElements<T>(xs: set<T>)
    ensures |xs| > 1 <==> exists x, y :: x in xs && y in xs && x != y
  {
    if |xs| > 1 {
      var x :| x in xs;
      assert |xs - {x}| == |xs| - 1;
      var y :| y in xs - {x};
    }
    if x, y :| x in xs && y in xs && x != y {
      assert |{x, y}| == 2 && |xs - {x, y}| == |xs| - 2;
    }
  }

  /** C3 to C11. */
  method JudgeClosure(m: Bodies, facts: Facts) returns (failure: Option<Code>)
    requires Resolved(m) && BodySetsCanonical(m)
    ensures failure == ClosureVerdict(m, facts)
    ensures forall code :: failure == Some(code) <==> ClosureFails(m, facts, code)
    ensures failure.None? ==> OneWorkspace(m)
  {
    forall code ensures ClosureVerdict(m, facts) == Some(code) <==> ClosureFails(m, facts, code) {
      ClosureCodes(m, facts, code);
    }
    var workspaces := IdsOf(Workspaces(m));
    if workspaces == [] { return Some(WorkspaceMissing); }
    if |workspaces| > 1 { return Some(WorkspaceAmbiguous); }
    var w := workspaces[0];
    assert Workspaces(m) == {w} by { assert forall x :: x in Workspaces(m) ==> x in workspaces; }
    var ok := CheckC4(m, w);
    if !ok { return Some(PackageMembership); }
    ok := CheckC5(m, w);
    if !ok { return Some(NamespaceRoot); }
    ok := CheckC6(m);
    if !ok { return Some(ImpactModel.NamespaceTree); }
    var ownerOf, trees;
    ok, ownerOf := CheckC7(m);
    if !ok { return Some(MemberOwnership); }
    ok, trees := CheckC8(m, ownerOf);
    if !ok { return Some(ExportUnscoped); }
    var listing := IdsOf(EntryPoints(m));
    SameListing(facts.entryPoints, listing, EntryPoints(m));
    if facts.entryPoints != listing { return Some(EntryPointsMismatch); }
    listing := IdsOf(DependencyRoots(m));
    SameListing(facts.dependencyRoots, listing, DependencyRoots(m));
    if facts.dependencyRoots != listing { return Some(DependencyRootsMismatch); }
    ok := CheckC11(m, trees);
    if !ok { return Some(DependencyBindingUnowned); }
    return None;
  }

  ghost predicate FactsCanonical(r: Request) {
    && Canonical(r.facts.boundEntities) && Canonical(r.facts.entryPoints) && Canonical(r.facts.dependencyRoots)
    && Canonical(Ids(r.entities))
  }

  /** What is checked in front of the references: canonical lists, and the inventory of C1. */
  ghost predicate Formed(r: Request) {
    && FactsCanonical(r) && Ids(r.entities) == r.facts.boundEntities && BodySetsCanonical(BodiesOf(r.entities))
  }

  /** A reference in walk order that fails, behind references that are all bound and of their kinds. */
  ghost predicate FirstFailing(m: Bodies, refs: seq<Ref>, at: nat) {
    && at < |refs| && !BoundAs(m, refs[at]) && forall k :: 0 <= k < at ==> BoundAs(m, refs[k])
  }

  /** What each code says of the request: its rule fails, and every rule before it holds. */
  ghost predicate FailsWith(r: Request, code: Code) {
    var m, refs := BodiesOf(r.entities), AllRefs(r.entities);
    match code
    case SetNotCanonical =>
      !FactsCanonical(r) || (Ids(r.entities) == r.facts.boundEntities && !BodySetsCanonical(m))
    case InventoryMismatch => FactsCanonical(r) && Ids(r.entities) != r.facts.boundEntities
    case UnresolvedEntity => Formed(r) && exists at: nat :: FirstFailing(m, refs, at) && refs[at].target !in m
    case WrongEntityKind => Formed(r) && exists at: nat :: FirstFailing(m, refs, at) && refs[at].target in m
    case _ => Formed(r) && C2(r.entities, m) && ClosureFails(m, r.facts, code)
  }

  lemma {:induction false} FirstFailingCode(m: Bodies, refs: seq<Ref>, at: nat)
    requires FirstFailing(m, refs, at)
    ensures FirstBad(m, refs) == Some(if refs[at].target in m then WrongEntityKind else UnresolvedEntity)
    decreases |refs|
  {
    var init := refs[..|refs| - 1];
    if at < |init| {
      FirstFailingCode(m, init, at);
    } else {
      forall r | r in init ensures Resolve(m, r).None? { assert exists k :: 0 <= k < at && refs[k] == r; }
      FirstBadNone(m, init);
    }
  }

  lemma {:induction false} FirstFailingFound(m: Bodies, refs: seq<Ref>) returns (at: nat)
    requires FirstBad(m, refs).Some?
    ensures FirstFailing(m, refs, at)
    decreases |refs|
  {
    var init := refs[..|refs| - 1];
    if FirstBad(m, init).Some? {
      at := FirstFailingFound(m, init);
    } else {
      FirstBadNone(m, init);
      at := |init|;
      forall k | 0 <= k < at ensures BoundAs(m, refs[k]) { assert init[k] in init; }
    }
  }

  /** C2 fails at its first failing reference, with the code of that reference. */
  lemma ReferenceCodes(m: Bodies, refs: seq<Ref>, code: Code)
    ensures FirstBad(m, refs) == Some(code) <==>
            exists at: nat :: FirstFailing(m, refs, at)
                              && code == if refs[at].target in m then WrongEntityKind else UnresolvedEntity
  {
    if FirstBad(m, refs).Some? {
      var at := FirstFailingFound(m, refs);
      FirstFailingCode(m, refs, at);
    }
    if at: nat :| FirstFailing(m, refs, at)
                  && code == if refs[at].target in m then WrongEntityKind else UnresolvedEntity {
      FirstFailingCode(m, refs, at);
    }
  }

  /** The verdict carries a code if and only if that code's rule fails and every rule before it holds. */
  lemma CodesExactly(r: Request, code: Code)
    ensures Verdict(r) == Some(code) <==> FailsWith(r, code)
  {
    var m := BodiesOf(r.entities);
    ReferenceCodes(m, AllRefs(r.entities), code);
    C2Exactly(r.entities, m);
    ClosureCodes(m, r.facts, code);
  }

  /** `judge` fails with the code of the first rule that does not hold, and accepts exactly when all hold. */
  method Judge(r: Request) returns (o: Outcome)
    ensures o.Failed? <==> Verdict(r).Some?
    ensures o.Failed? ==> Verdict(r) == Some(o.code)
    ensures forall code :: o == Failed(code) <==> FailsWith(r, code)
    ensures o.Accepted? ==> Reports(r, o.judgment)
  {
    forall code ensures Verdict(r) == Some(code) <==> FailsWith(r, code) { CodesExactly(r, code); }
    var ok := SortedUnique(r.facts.boundEntities);
    if !ok { return Failed(SetNotCanonical); }
    ok := SortedUnique(r.facts.entryPoints);
    if !ok { return Failed(SetNotCanonical); }
    ok := SortedUnique(r.facts.dependencyRoots);
    if !ok { return Failed(SetNotCanonical); }
    ok := SortedUnique(Ids(r.entities));
    if !ok { return Failed(SetNotCanonical); }
    if Ids(r.entities) != r.facts.boundEntities { return Failed(InventoryMismatch); }
    ok := CheckBodySets(r.entities);
    if !ok { return Failed(SetNotCanonical); }
    var m := BuildBodies(r.entities);
    var direct := DirectEdges(r.entities, m);
    if direct.Refused? { return Failed(direct.code); }
    ResolvedAfterC2(r);
    var failure := JudgeClosure(m, r.facts);
    if failure.Some? { return Failed(failure.value); }
    var reverse := BuildReverse(direct.sorted);
    var workspace :| workspace in Workspaces(m);
    return Accepted(Judgment(direct.sorted, workspace, |Packages(m)|, |Namespaces(m)|, |r.entities|, reverse));
  }

  /** The conjunction of all rules. */
  ghost predicate MeetsRules(r: Request) {
    var m := BodiesOf(r.entities);
    && Canonical(r.facts.boundEntities) && Canonical(r.facts.entryPoints) && Canonical(r.facts.dependencyRoots)
    && Ids(r.entities) == r.facts.boundEntities && BodySetsCanonical(m)
    && C2(r.entities, m)
    && OneWorkspace(m)
    && C4(m) && C5(m) && C6(m) && C7(m) && C8(m) && C9(m, r.facts) && C10(m, r.facts) && C11(m)
  }

  /** A request is accepted if and only if it meets the conjunction of all rules, and then C2 has resolved it. */
  lemma AcceptedExactly(r: Request)
    ensures Verdict(r).None? <==> MeetsRules(r)
    ensures MeetsRules(r) ==> Resolved(BodiesOf(r.entities))
  {
    OneElement(Workspaces(BodiesOf(r.entities)));
    C2Exactly(r.entities, BodiesOf(r.entities));
    if MeetsRules(r) { ResolvedAfterC2(r); }
  }

  lemma OneElement<T>(xs: set<T>)
    ensures xs != {} && |xs| <= 1 <==> exists x :: xs == {x}
  {
    if xs != {} && |xs| <= 1 {
      var x :| x in xs;
      assert |xs - {x}| == |xs| - 1;
    }
  }
}
