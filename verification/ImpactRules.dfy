/** The closure rules C1 to C11 as statements about the bound entities, in no visiting order, and the verdict
    they give together: the first rule that fails decides the code. */
module ImpactRules {
  import opened Order
  import opened Reachability
  import opened ImpactModel
  import opened Wrappers

  datatype Facts = Facts(boundEntities: seq<Id>, entryPoints: seq<Id>, dependencyRoots: seq<Id>)

  datatype Request = Request(entities: seq<Entity>, facts: Facts)

  ghost predicate Canonical(ids: seq<Id>) {
    Ascending(ids, IdLess)
  }

  function Ids(entities: seq<Entity>): seq<Id> {
    seq(|entities|, i requires 0 <= i < |entities| => entities[i].id)
  }

  function BodiesOf(entities: seq<Entity>): Bodies {
    if entities == [] then map[]
    else BodiesOf(entities[..|entities| - 1])[entities[|entities| - 1].id := entities[|entities| - 1].body]
  }

  // The entities of one kind.

  function Workspaces(m: Bodies): set<Id> { set i | i in m && m[i].Workspace? }

  function Packages(m: Bodies): set<Id> { set i | i in m && m[i].Package? }

  function Namespaces(m: Bodies): set<Id> { set i | i in m && m[i].Namespace? }

  function EntryPoints(m: Bodies): set<Id> { set i | i in m && m[i].EntryPoint? }

  function Bindings(m: Bodies): set<Id> { set i | i in m && m[i].DependencyBinding? }

  // The rules.

  /** The list fields that must be strictly ascending. */
  function BodySets(b: Body): seq<seq<Id>> {
    match b
    case Workspace(packages, _, capabilities, contracts, tests) => [packages, capabilities, contracts, tests]
    case Package(_, _, dependencies, exports) => [dependencies, exports]
    case Namespace(_, members) => [members]
    case PolicyBinding(_, requirements) => [requirements]
    case _ => []
  }

  ghost predicate BodyCanonical(b: Body) {
    forall k :: 0 <= k < |BodySets(b)| ==> Canonical(BodySets(b)[k])
  }

  ghost predicate BodySetsCanonical(m: Bodies) {
    forall i :: i in m ==> BodyCanonical(m[i])
  }

  ghost predicate C4(m: Bodies) {
    forall w :: w in Workspaces(m) ==>
      && IsListing(m[w].packages, Packages(m), IdLess)
      && forall p :: p in Packages(m) ==> m[p].workspace == w
  }

  /** The namespace an owner (the workspace or a package) names as its root. */
  ghost predicate RootedAt(m: Bodies, owner: Id, root: Id) {
    || (owner in Workspaces(m) && m[owner].rootNamespace == root)
    || (owner in Packages(m) && m[owner].rootNamespace == root)
  }

  ghost predicate Parentless(m: Bodies, n: Id) {
    n in Namespaces(m) && m[n].parent.None?
  }

  ghost predicate C5(m: Bodies) {
    && (forall o, r :: RootedAt(m, o, r) ==> Parentless(m, r))
    && (forall o1, o2, r :: RootedAt(m, o1, r) && RootedAt(m, o2, r) ==> o1 == o2)
    && (forall n :: Parentless(m, n) ==> exists o :: RootedAt(m, o, n))
  }

  /** The namespace `k` parent links above `n`, if there is one. */
  ghost function Up(m: Bodies, n: Id, k: nat): Option<Id> {
    if k == 0 then Some(n)
    else
      match Up(m, n, k - 1)
      case None => None
      case Some(x) => if x in Namespaces(m) then m[x].parent else None
  }

  /** Parent and member links mirror each other. */
  ghost predicate Mirrored(m: Bodies) {
    forall n :: n in Namespaces(m) ==> MirroredAt(m, n)
  }

  ghost predicate MirroredAt(m: Bodies, n: Id)
    requires n in Namespaces(m)
  {
    && (m[n].parent.Some? ==> m[n].parent.value in Namespaces(m) && n in m[m[n].parent.value].members)
    && (forall x :: x in m[n].members && x in Namespaces(m) ==> m[x].parent == Some(n))
  }

  ghost predicate ChainEnds(m: Bodies, n: Id) {
    exists k: nat :: Up(m, n, k).None?
  }

  ghost predicate C6(m: Bodies) {
    Mirrored(m) && forall n :: n in Namespaces(m) ==> ChainEnds(m, n)
  }

  predicate ForbiddenMember(kind: int) {
    kind in {1, 2, 6, 7, 8, 18}
  }

  ghost predicate Owns(m: Bodies, n: Id, x: Id) {
    n in Namespaces(m) && x in m[n].members
  }

  ghost predicate C7(m: Bodies) {
    && (forall n, x :: Owns(m, n, x) && x in m ==> !ForbiddenMember(m[x].Kind()))
    && (forall n1, n2, x :: Owns(m, n1, x) && Owns(m, n2, x) ==> n1 == n2)
  }

  function MemberLists(m: Bodies): map<Id, seq<Id>> {
    map n | n in Namespaces(m) :: m[n].members
  }

  /** `n` is a key listed under the key `q`: a namespace that is a member of a namespace. */
  ghost function Down(lists: map<Id, seq<Id>>): (Id, Id) -> bool {
    (q, n) => q in lists && n in lists && n in lists[q]
  }

  ghost predicate InTree(m: Bodies, root: Id, n: Id) {
    Reaches(Down(MemberLists(m)), {root}, n)
  }

  ghost predicate ExportScoped(m: Bodies, p: Id, x: Id)
    requires p in Packages(m)
  {
    exists n :: Owns(m, n, x) && InTree(m, m[p].rootNamespace, n)
  }

  ghost predicate C8(m: Bodies) {
    forall p, x :: p in Packages(m) && x in m[p].exports ==> ExportScoped(m, p, x)
  }

  ghost predicate C9(m: Bodies, facts: Facts) {
    IsListing(facts.entryPoints, EntryPoints(m), IdLess)
  }

  function DependencyRoots(m: Bodies): set<Id> {
    set d | d in Bindings(m) :: m[d].dependencyRoot
  }

  ghost predicate C10(m: Bodies, facts: Facts) {
    IsListing(facts.dependencyRoots, DependencyRoots(m), IdLess)
  }

  ghost predicate Depends(m: Bodies, p: Id, d: Id) {
    p in Packages(m) && d in m[p].dependencies
  }

  ghost predicate C11(m: Bodies) {
    && (forall p1, p2, d :: Depends(m, p1, d) && Depends(m, p2, d) ==> p1 == p2)
    && (forall d :: d in Bindings(m) ==>
          exists p :: Depends(m, p, d) && InTree(m, m[p].rootNamespace, m[d].localNamespace))
  }

  /** What `judge` decides: `None` accepts. C3 to C11 read only the map of bound entities and the facts. */
  ghost function ClosureVerdict(m: Bodies, facts: Facts): Option<Code> {
    if Workspaces(m) == {} then Some(WorkspaceMissing)
    else if |Workspaces(m)| > 1 then Some(WorkspaceAmbiguous)
    else if !C4(m) then Some(PackageMembership)
    else if !C5(m) then Some(NamespaceRoot)
    else if !C6(m) then Some(NamespaceTree)
    else if !C7(m) then Some(MemberOwnership)
    else if !C8(m) then Some(ExportUnscoped)
    else if !C9(m, facts) then Some(EntryPointsMismatch)
    else if !C10(m, facts) then Some(DependencyRootsMismatch)
    else if !C11(m) then Some(DependencyBindingUnowned)
    else None
  }

  ghost function Verdict(r: Request): Option<Code> {
    var m := BodiesOf(r.entities);
    if !(Canonical(r.facts.boundEntities) && Canonical(r.facts.entryPoints) && Canonical(r.facts.dependencyRoots)
         && Canonical(Ids(r.entities))) then Some(SetNotCanonical)
    else if Ids(r.entities) != r.facts.boundEntities then Some(InventoryMismatch)
    else if !BodySetsCanonical(m) then Some(SetNotCanonical)
    else if FirstBad(m, AllRefs(r.entities)).Some? then FirstBad(m, AllRefs(r.entities))
    else ClosureVerdict(m, r.facts)
  }

  // The inventory as a map.

  lemma {:induction false} BodiesExact(entities: seq<Entity>)
    requires Canonical(Ids(entities))
    ensures forall e :: e in entities ==> e.id in BodiesOf(entities) && BodiesOf(entities)[e.id] == e.body
    ensures forall i :: i in BodiesOf(entities) ==> Entity(i, BodiesOf(entities)[i]) in entities
    decreases |entities|
  {
    if entities != [] {
      var init, last := entities[..|entities| - 1], entities[|entities| - 1];
      assert entities == init + [last];
      forall i, j | 0 <= i < j < |init| ensures IdLess(Ids(init)[i], Ids(init)[j]) {
        assert IdLess(Ids(entities)[i], Ids(entities)[j]);
      }
      BodiesExact(init);
      forall e | e in init ensures e.id != last.id {
        var i :| 0 <= i < |init| && init[i] == e;
        assert IdLess(Ids(entities)[i], Ids(entities)[|entities| - 1]);
      }
    }
  }

  lemma RowRefWalked(b: Body, ref: Ref)
    requires ref in RowRefs(b)
    ensures ref in EntityRefs(b)
  {
  }

  lemma FlatResolved(m: Bodies, parts: seq<seq<Ref>>, k: nat, ref: Ref)
    requires FirstBad(m, Flat(parts)).None? && k < |parts| && ref in parts[k]
    ensures Resolve(m, ref).None?
  {
    FlatMembers(parts, ref);
    FirstBadNone(m, Flat(parts));
  }

  /** What C2 leaves for the closure rules: parents and roots are namespaces, members and dependencies are bound. */
  ghost predicate Resolved(m: Bodies) {
    && (forall n :: n in Namespaces(m) && m[n].parent.Some? ==> m[n].parent.value in Namespaces(m))
    && (forall n, x :: Owns(m, n, x) ==> x in m)
    && (forall p, d :: Depends(m, p, d) ==> d in Bindings(m))
  }

  lemma InMany(ids: seq<Id>, id: Id, edgeKind: int, expected: Option<int>)
    requires id in ids
    ensures Ref(id, edgeKind, expected) in Many(ids, edgeKind, expected)
  {
    var k :| 0 <= k < |ids| && ids[k] == id;
    assert Many(ids, edgeKind, expected)[k] == Ref(id, edgeKind, expected);
  }

  lemma NamespaceRows(b: Body)
    requires b.Namespace?
    ensures b.parent.Some? ==> Ref(b.parent.value, OWNERSHIP, Some(3)) in RowRefs(b)
    ensures forall x :: x in b.members ==> Ref(x, OWNERSHIP, None) in RowRefs(b)
  {
    if b.parent.Some? { assert One(b.parent.value, OWNERSHIP, Some(3))[0] == Ref(b.parent.value, OWNERSHIP, Some(3)); }
    forall x | x in b.members ensures Ref(x, OWNERSHIP, None) in RowRefs(b) { InMany(b.members, x, OWNERSHIP, None); }
  }

  lemma PackageRows(b: Body, d: Id)
    requires b.Package? && d in b.dependencies
    ensures Ref(d, OWNERSHIP, Some(18)) in RowRefs(b)
  {
    InMany(b.dependencies, d, OWNERSHIP, Some(18));
  }

  ghost predicate RowResolves(m: Bodies, i: Id, ref: Ref) {
    i in m && ref in RowRefs(m[i]) ==> Resolve(m, ref).None?
  }

  ghost predicate RowsResolve(m: Bodies) {
    forall i, ref :: RowResolves(m, i, ref)
  }

  lemma ParentResolved(m: Bodies, n: Id)
    requires RowsResolve(m) && n in Namespaces(m) && m[n].parent.Some?
    ensures m[n].parent.value in Namespaces(m)
  {
    NamespaceRows(m[n]);
    assert RowResolves(m, n, Ref(m[n].parent.value, OWNERSHIP, Some(3)));
  }

  lemma MemberResolved(m: Bodies, n: Id, x: Id)
    requires RowsResolve(m) && Owns(m, n, x)
    ensures x in m
  {
    NamespaceRows(m[n]);
    assert RowResolves(m, n, Ref(x, OWNERSHIP, None));
  }

  lemma DependencyResolved(m: Bodies, p: Id, d: Id)
    requires RowsResolve(m) && Depends(m, p, d)
    ensures d in Bindings(m)
  {
    PackageRows(m[p], d);
    assert RowResolves(m, p, Ref(d, OWNERSHIP, Some(18)));
  }

  lemma ResolvedAfterC2(r: Request)
    requires Canonical(Ids(r.entities)) && FirstBad(BodiesOf(r.entities), AllRefs(r.entities)).None?
    ensures Resolved(BodiesOf(r.entities))
  {
    var m := BodiesOf(r.entities);
    BodiesExact(r.entities);
    forall i, ref ensures RowResolves(m, i, ref) {
      if i in m && ref in RowRefs(m[i]) {
        var k :| 0 <= k < |r.entities| && r.entities[k] == Entity(i, m[i]);
        RowRefWalked(m[i], ref);
        FlatResolved(m, Parts(r.entities), k, ref);
      }
    }
    RowsGiveResolved(m);
  }

  lemma RowsGiveResolved(m: Bodies)
    requires RowsResolve(m)
    ensures Resolved(m)
  {
    forall n | n in Namespaces(m) && m[n].parent.Some? ensures m[n].parent.value in Namespaces(m) {
      ParentResolved(m, n);
    }
    forall n, x | Owns(m, n, x) ensures x in m { MemberResolved(m, n, x); }
    forall p, d | Depends(m, p, d) ensures d in Bindings(m) { DependencyResolved(m, p, d); }
  }
}
