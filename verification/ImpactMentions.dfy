/** What the walker's recursion means: an edge exists exactly when some row names the dependency, or some node
    that lies inside one of the entity's type expressions or constants names it. */
module ImpactMentions {
  import opened Reachability
  import opened ImpactModel
  import opened ImpactEdges
  import opened Wrappers

  datatype Node = OfType(t: TypeExpr) | OfConst(c: Const)

  predicate TypeChild(parent: TypeExpr, child: TypeExpr) {
    match parent
    case Tuple(items) => child in items
    case Named(_, arguments) => child in arguments
    case Wrapper(item) => child == item
    case MapType(key, value) => child == key || child == value
    case ResultType(ok, error) => child == ok || child == error
    case FunctionType(parameters, result, _) => child in parameters || child == result
    case _ => false
  }

  predicate ConstChild(parent: Const, child: Const) {
    parent.Value? &&
    match parent.data
    case Sequence(elements) => child in elements
    case Record(_, fields) => child in fields
    case Variant(_, payload) => child == payload
    case Mapping(entries) => exists e :: e in entries && (child == e.key || child == e.value)
    case Wrapped(inner) => child == inner
    case _ => false
  }

  predicate ConstType(parent: Const, t: TypeExpr) {
    parent.Value? && (t == parent.ty || (parent.data.FunctionReference? && t in parent.data.typeArguments))
  }

  /** `child` sits directly inside `parent`. */
  predicate Inside(parent: Node, child: Node) {
    match (parent, child)
    case (OfType(p), OfType(c)) => TypeChild(p, c)
    case (OfConst(p), OfConst(c)) => ConstChild(p, c)
    case (OfConst(p), OfType(t)) => ConstType(p, t)
    case (OfType(_), OfConst(_)) => false
  }

  /** The node itself, not its children, names `r`. */
  predicate Names(n: Node, r: Ref) {
    match n
    case OfType(Named(definition, _)) => r == Ref(definition, TYPE_REFERENCE, Some(4))
    case OfType(FunctionType(_, _, effects)) => r.target in effects && r == Ref(r.target, EFFECT, Some(11))
    case OfType(AdapterHandle(adapter)) => r == Ref(adapter, ADAPTER, Some(15))
    case OfType(CapabilityToken(capability)) => r == Ref(capability, CAPABILITY, Some(12))
    case OfConst(Value(_, Record(definition, _))) => r == Ref(definition, DEFINITION_MEMBER, Some(4))
    case OfConst(Value(_, Variant(definition, _))) => r == Ref(definition, DEFINITION_MEMBER, Some(4))
    case OfConst(Value(_, FunctionReference(callee, _))) => r == Ref(callee, CALL, Some(5))
    case _ => false
  }

  ghost predicate Mentions(root: Node, r: Ref) {
    exists n :: Reaches(Inside, {root}, n) && Names(n, r)
  }

  function NodeRefs(n: Node): seq<Ref> {
    match n case OfType(t) => TypeRefs(t) case OfConst(c) => ConstRefs(c)
  }

  // One level of the recursion.

  lemma TypesMembers(ts: seq<TypeExpr>, r: Ref)
    ensures r in TypesRefs(ts) <==> exists t :: t in ts && r in TypeRefs(t)
  {
    var parts := seq(|ts|, i requires 0 <= i < |ts| => TypeRefs(ts[i]));
    FlatMembers(parts, r);
    if i :| 0 <= i < |parts| && r in parts[i] { assert ts[i] in ts; }
    if t :| t in ts && r in TypeRefs(t) {
      var i :| 0 <= i < |ts| && ts[i] == t;
      assert r in parts[i];
    }
  }

  lemma ConstsMembers(cs: seq<Const>, r: Ref)
    ensures r in ConstsRefs(cs) <==> exists c :: c in cs && r in ConstRefs(c)
  {
    var parts := seq(|cs|, i requires 0 <= i < |cs| => ConstRefs(cs[i]));
    FlatMembers(parts, r);
    if i :| 0 <= i < |parts| && r in parts[i] { assert cs[i] in cs; }
    if c :| c in cs && r in ConstRefs(c) {
      var i :| 0 <= i < |cs| && cs[i] == c;
      assert r in parts[i];
    }
  }

  lemma EntriesMembers(es: seq<Entry>, r: Ref)
    ensures r in EntriesRefs(es) <==> exists e :: e in es && r in EntryRefs(e)
  {
    var parts := seq(|es|, i requires 0 <= i < |es| => EntryRefs(es[i]));
    FlatMembers(parts, r);
    if i :| 0 <= i < |parts| && r in parts[i] { assert es[i] in es; }
    if e :| e in es && r in EntryRefs(e) {
      var i :| 0 <= i < |es| && es[i] == e;
      assert r in parts[i];
    }
  }

  lemma TypeUnfold(t: TypeExpr, r: Ref)
    ensures r in TypeRefs(t) <==> Names(OfType(t), r) || exists c :: TypeChild(t, c) && r in TypeRefs(c)
  {
    match t
    case Tuple(items) => TypesMembers(items, r);
    case Named(_, arguments) => TypesMembers(arguments, r);
    case FunctionType(parameters, result, effects) =>
      TypesMembers(parameters, r);
      ManyMembers(effects, EFFECT, Some(11), r);
      assert TypeChild(t, result);
    case Wrapper(item) => assert TypeChild(t, item);
    case MapType(key, value) => assert TypeChild(t, key) && TypeChild(t, value);
    case ResultType(ok, error) => assert TypeChild(t, ok) && TypeChild(t, error);
    case _ =>
  }

  lemma ManyMembers(ids: seq<Id>, edgeKind: int, expected: Option<int>, r: Ref)
    ensures r in Many(ids, edgeKind, expected) <==> r.target in ids && r == Ref(r.target, edgeKind, expected)
  {
    var refs := Many(ids, edgeKind, expected);
    if r in refs {
      var i :| 0 <= i < |refs| && refs[i] == r;
      assert ids[i] == r.target;
    }
    if r.target in ids && r == Ref(r.target, edgeKind, expected) {
      var i :| 0 <= i < |ids| && ids[i] == r.target;
      assert refs[i] == r;
    }
  }

  lemma ConstUnfold(c: Const, r: Ref)
    ensures r in ConstRefs(c) <==>
            || Names(OfConst(c), r)
            || (exists t :: ConstType(c, t) && r in TypeRefs(t))
            || (exists d :: ConstChild(c, d) && r in ConstRefs(d))
  {
    match c
    case Null =>
    case Value(ty, data) =>
      assert ConstType(c, ty);
      match data {
        case Scalar =>
        case Sequence(elements) => ConstsMembers(elements, r);
        case Record(_, fields) => ConstsMembers(fields, r);
        case Variant(_, payload) => assert ConstChild(c, payload);
        case Mapping(entries) =>
          EntriesMembers(entries, r);
          if e :| e in entries && r in EntryRefs(e) {
            assert ConstChild(c, e.key) && ConstChild(c, e.value);
          }
        case Wrapped(inner) => assert ConstChild(c, inner);
        case FunctionReference(_, typeArguments) => TypesMembers(typeArguments, r);
      }
  }

  lemma NodeUnfold(n: Node, r: Ref)
    ensures r in NodeRefs(n) <==> Names(n, r) || exists c :: Inside(n, c) && r in NodeRefs(c)
  {
    match n
    case OfType(t) =>
      TypeUnfold(t, r);
      if c :| TypeChild(t, c) && r in TypeRefs(c) { assert Inside(n, OfType(c)) && r in NodeRefs(OfType(c)); }
    case OfConst(k) =>
      ConstUnfold(k, r);
      if t :| ConstType(k, t) && r in TypeRefs(t) { assert Inside(n, OfType(t)) && r in NodeRefs(OfType(t)); }
      if d :| ConstChild(k, d) && r in ConstRefs(d) { assert Inside(n, OfConst(d)) && r in NodeRefs(OfConst(d)); }
  }

  // The whole recursion.

  lemma MentionsChild(parent: Node, child: Node, r: Ref)
    requires Inside(parent, child) && Mentions(child, r)
    ensures Mentions(parent, r)
  {
    var n :| Reaches(Inside, {child}, n) && Names(n, r);
    var p: seq<Node> :| Path(Inside, p) && p[0] in {child} && p[|p| - 1] == n;
    var q := [parent] + p;
    assert Path(Inside, q) && q[0] in {parent} && q[|q| - 1] == n;
  }

  lemma {:induction false} TypeRefsMentioned(t: TypeExpr, r: Ref)
    requires r in TypeRefs(t)
    ensures Mentions(OfType(t), r)
    decreases t
  {
    TypeUnfold(t, r);
    if Names(OfType(t), r) {
      SeedReached(Inside, {OfType(t)}, OfType(t));
    } else {
      var c :| TypeChild(t, c) && r in TypeRefs(c);
      assert c < t;
      TypeRefsMentioned(c, r);
      MentionsChild(OfType(t), OfType(c), r);
    }
  }

  lemma {:induction false} ConstRefsMentioned(c: Const, r: Ref)
    requires r in ConstRefs(c)
    ensures Mentions(OfConst(c), r)
    decreases c
  {
    ConstUnfold(c, r);
    if Names(OfConst(c), r) {
      SeedReached(Inside, {OfConst(c)}, OfConst(c));
    } else if t :| ConstType(c, t) && r in TypeRefs(t) {
      TypeRefsMentioned(t, r);
      MentionsChild(OfConst(c), OfType(t), r);
    } else {
      var d :| ConstChild(c, d) && r in ConstRefs(d);
      ConstChildSmaller(c, d);
      ConstRefsMentioned(d, r);
      MentionsChild(OfConst(c), OfConst(d), r);
    }
  }

  lemma ConstChildSmaller(c: Const, d: Const)
    requires ConstChild(c, d)
    ensures d < c
  {
    if c.data.Mapping? {
      var e :| e in c.data.entries && (d == e.key || d == e.value);
      assert d < e < c.data < c;
    }
  }

  lemma {:induction false} PathMentioned(p: seq<Node>, r: Ref)
    requires Path(Inside, p) && Names(p[|p| - 1], r)
    ensures r in NodeRefs(p[0])
    decreases |p|
  {
    NodeUnfold(p[0], r);
    if |p| > 1 {
      assert Inside(p[0], p[1]);
      forall i | 0 <= i < |p[1..]| - 1 ensures Inside(p[1..][i], p[1..][i + 1]) { assert Inside(p[i + 1], p[i + 2]); }
      PathMentioned(p[1..], r);
    }
  }

  /** The recursion lists exactly the references named anywhere inside the node. */
  lemma NodeRefsExact(n: Node, r: Ref)
    ensures r in NodeRefs(n) <==> Mentions(n, r)
  {
    if r in NodeRefs(n) {
      match n
      case OfType(t) => TypeRefsMentioned(t, r);
      case OfConst(c) => ConstRefsMentioned(c, r);
    }
    if Mentions(n, r) {
      var m :| Reaches(Inside, {n}, m) && Names(m, r);
      var p: seq<Node> :| Path(Inside, p) && p[0] in {n} && p[|p| - 1] == m;
      PathMentioned(p, r);
    }
  }

  /** A row of the body names the target: field by field, with the kind of the edge and of what must stand there. */
  predicate RowNames(b: Body, r: Ref) {
    match b
    case Workspace(packages, rootNamespace, capabilityRequirements, contracts, tests) =>
      || (r.target in packages && r == Ref(r.target, OWNERSHIP, Some(2)))
      || r == Ref(rootNamespace, OWNERSHIP, Some(3))
      || (r.target in capabilityRequirements && r == Ref(r.target, CAPABILITY, Some(12)))
      || (r.target in contracts && r == Ref(r.target, CONTRACT, Some(13)))
      || (r.target in tests && r == Ref(r.target, TEST_TARGET, Some(14)))
    case Package(workspace, rootNamespace, dependencies, exports) =>
      || r == Ref(workspace, OWNERSHIP, Some(1))
      || r == Ref(rootNamespace, OWNERSHIP, Some(3))
      || (r.target in dependencies && r == Ref(r.target, OWNERSHIP, Some(18)))
      || (r.target in exports && r == Ref(r.target, OWNERSHIP, None))
    case Namespace(parent, members) =>
      || (parent == Some(r.target) && r == Ref(r.target, OWNERSHIP, Some(3)))
      || (r.target in members && r == Ref(r.target, OWNERSHIP, None))
    case TypeDefinition(invariants, _) => r.target in invariants && r == Ref(r.target, CONTRACT, Some(13))
    case Function(parameters, effects, entryBlock, blocks, contracts, _) =>
      || (r.target in parameters && r == Ref(r.target, OWNERSHIP, Some(6)))
      || (r.target in effects && r == Ref(r.target, EFFECT, Some(11)))
      || r == Ref(entryBlock, CONTROL_FLOW, Some(7))
      || (r.target in blocks && r == Ref(r.target, OWNERSHIP, Some(7)))
      || (r.target in contracts && r == Ref(r.target, CONTRACT, Some(13)))
    case Parameter(ofFunction, owner, _) => r == Ref(owner, OWNERSHIP, if ofFunction then Some(5) else Some(7))
    case Block(inFunction, parameters, operations, returnParameter) =>
      || r == Ref(inFunction, OWNERSHIP, Some(5))
      || (r.target in parameters && r == Ref(r.target, OWNERSHIP, Some(6)))
      || (r.target in operations && r == Ref(r.target, OWNERSHIP, Some(8)))
      || r == Ref(returnParameter, VALUE_REFERENCE, Some(6))
    case Global(initializer, _) => r == Ref(initializer, INITIALIZER, Some(9))
    case CapabilityRequirement(effect, constraintContracts, _) =>
      || r == Ref(effect, EFFECT, Some(11))
      || (r.target in constraintContracts && r == Ref(r.target, CONTRACT, Some(13)))
    case Contract(target, checker) => r == Ref(target, CONTRACT, None) || r == Ref(checker, CONTRACT, Some(5))
    case TestCase(target, _, _, _) => r == Ref(target, TEST_TARGET, Some(5))
    case AdapterImport(effects, _, _, _) => r.target in effects && r == Ref(r.target, EFFECT, Some(11))
    case EntryPoint(entry) => r == Ref(entry, OWNERSHIP, Some(5))
    case PolicyBinding(subject, requirements) =>
      || r == Ref(subject, OWNERSHIP, None)
      || (r.target in requirements && r == Ref(r.target, CAPABILITY, Some(12)))
    case DependencyBinding(localNamespace, _) => r == Ref(localNamespace, OWNERSHIP, Some(3))
    case _ => false
  }

  /** A whole type expression or constant that the body holds in one of its fields. */
  predicate Root(b: Body, n: Node) {
    match b
    case TypeDefinition(_, memberTypes) => n.OfType? && n.t in memberTypes
    case Function(_, _, _, _, _, resultType) => n == OfType(resultType)
    case Parameter(_, _, valueType) => n == OfType(valueType)
    case Constant(value) => n == OfConst(value)
    case Global(_, valueType) => n == OfType(valueType)
    case EffectDefinition(scope, request, response, failure) =>
      n.OfType? && (n.t == scope || n.t == request || n.t == response || n.t == failure)
    case CapabilityRequirement(_, _, allowedScopes) => n.OfConst? && n.c in allowedScopes
    case TestCase(_, inputs, expected, observations) =>
      n.OfConst? && (n.c in inputs || n.c == expected || n.c in observations)
    case AdapterImport(_, request, response, failure) =>
      n.OfType? && (n.t == request || n.t == response || n.t == failure)
    case _ => false
  }

  ghost predicate EntityMentions(b: Body, r: Ref) {
    RowNames(b, r) || exists n :: Root(b, n) && Mentions(n, r)
  }

  /** The rows list exactly what `RowNames` says. */
  lemma RowsExact(b: Body, r: Ref)
    ensures r in RowRefs(b) <==> RowNames(b, r)
  {
    match b
    case Workspace(packages, _, capabilityRequirements, contracts, tests) =>
      ManyMembers(packages, OWNERSHIP, Some(2), r);
      ManyMembers(capabilityRequirements, CAPABILITY, Some(12), r);
      ManyMembers(contracts, CONTRACT, Some(13), r);
      ManyMembers(tests, TEST_TARGET, Some(14), r);
    case Package(_, _, dependencies, exports) =>
      ManyMembers(dependencies, OWNERSHIP, Some(18), r);
      ManyMembers(exports, OWNERSHIP, None, r);
    case Namespace(_, members) => ManyMembers(members, OWNERSHIP, None, r);
    case TypeDefinition(invariants, _) => ManyMembers(invariants, CONTRACT, Some(13), r);
    case Function(parameters, effects, _, blocks, contracts, _) =>
      ManyMembers(parameters, OWNERSHIP, Some(6), r);
      ManyMembers(effects, EFFECT, Some(11), r);
      ManyMembers(blocks, OWNERSHIP, Some(7), r);
      ManyMembers(contracts, CONTRACT, Some(13), r);
    case Block(_, parameters, operations, _) =>
      ManyMembers(parameters, OWNERSHIP, Some(6), r);
      ManyMembers(operations, OWNERSHIP, Some(8), r);
    case CapabilityRequirement(_, constraintContracts, _) => ManyMembers(constraintContracts, CONTRACT, Some(13), r);
    case AdapterImport(effects, _, _, _) => ManyMembers(effects, EFFECT, Some(11), r);
    case PolicyBinding(_, requirements) => ManyMembers(requirements, CAPABILITY, Some(12), r);
    case _ =>
  }

  lemma FieldsExact(b: Body, n: Node)
    ensures Root(b, n) <==> if n.OfType? then n.t in TypeFields(b) else n.c in ConstFields(b)
  {
  }

  lemma EntityRefsExact(b: Body, r: Ref)
    ensures r in EntityRefs(b) <==> EntityMentions(b, r)
  {
    RowsExact(b, r);
    TypesMembers(TypeFields(b), r);
    ConstsMembers(ConstFields(b), r);
    if t :| t in TypeFields(b) && r in TypeRefs(t) {
      NodeRefsExact(OfType(t), r);
      FieldsExact(b, OfType(t));
    }
    if c :| c in ConstFields(b) && r in ConstRefs(c) {
      NodeRefsExact(OfConst(c), r);
      FieldsExact(b, OfConst(c));
    }
    if n :| Root(b, n) && Mentions(n, r) {
      NodeRefsExact(n, r);
      FieldsExact(b, n);
    }
  }

  /** The edge set of `direct_edges`, in terms of the mention relation alone. */
  lemma EdgeSetExact(entities: seq<Entity>, e: Edge)
    ensures e in EdgeSet(entities) <==>
            exists entity, r :: entity in entities && EntityMentions(entity.body, r)
                                && e == Edge(entity.id, r.target, r.edgeKind)
  {
    var made := Made(entities);
    UnionMembers(made, e);
    if i :| 0 <= i < |made| && e in made[i] {
      var r :| r in EntityRefs(entities[i].body) && e == Edge(entities[i].id, r.target, r.edgeKind);
      EntityRefsExact(entities[i].body, r);
    }
    if entity, r :| entity in entities && EntityMentions(entity.body, r) && e == Edge(entity.id, r.target, r.edgeKind) {
      EntityRefsExact(entity.body, r);
      var i :| 0 <= i < |entities| && entities[i] == entity;
      assert e in made[i];
    }
  }

  /** Bound, and of the kind its place demands. */
  predicate BoundAs(m: Bodies, r: Ref) {
    r.target in m && (r.expected.Some? ==> m[r.target].Kind() == r.expected.value)
  }

  ghost predicate Settled(m: Bodies, entity: Entity, r: Ref) {
    EntityMentions(entity.body, r) ==> BoundAs(m, r)
  }

  /** C2 as a statement about mentions, in no walking order. */
  ghost predicate C2(entities: seq<Entity>, m: Bodies) {
    forall entity, r :: entity in entities ==> Settled(m, entity, r)
  }

  /** On success every mention resolves to a bound entity of the kind its place demands. */
  lemma MentionsResolve(entities: seq<Entity>, m: Bodies, entity: Entity, r: Ref)
    requires FirstBad(m, AllRefs(entities)).None? && entity in entities && EntityMentions(entity.body, r)
    ensures BoundAs(m, r)
  {
    EntityRefsExact(entity.body, r);
    var parts := Parts(entities);
    var i :| 0 <= i < |entities| && entities[i] == entity;
    FlatMembers(parts, r);
    assert r in parts[i];
    FirstBadNone(m, AllRefs(entities));
  }

  lemma WalkedIsSettled(entities: seq<Entity>, m: Bodies, r: Ref)
    requires C2(entities, m) && r in AllRefs(entities)
    ensures Resolve(m, r).None?
  {
    FlatMembers(Parts(entities), r);
    var i :| 0 <= i < |entities| && r in Parts(entities)[i];
    EntityRefsExact(entities[i].body, r);
    assert Settled(m, entities[i], r);
  }

  /** The walk meets no failure if and only if every mention of every entity resolves. */
  lemma C2Exactly(entities: seq<Entity>, m: Bodies)
    ensures FirstBad(m, AllRefs(entities)).None? <==> C2(entities, m)
  {
    FirstBadNone(m, AllRefs(entities));
    if FirstBad(m, AllRefs(entities)).None? {
      forall entity, r | entity in entities ensures Settled(m, entity, r) {
        if EntityMentions(entity.body, r) { MentionsResolve(entities, m, entity, r); }
      }
    }
    if C2(entities, m) {
      forall r | r in AllRefs(entities) ensures Resolve(m, r).None? { WalkedIsSettled(entities, m, r); }
    }
  }
}
