/** The typed program graph the complete-root oracle judges, and the references it holds.

    Identifiers are fixed-width hexadecimal names that the oracle only compares, so their numeric values carry
    their order. A field the oracle would find absent is modelled by an identifier that the root does not bind. */
module ImpactModel {
  import opened Order
  import opened Wrappers

  /** An entity identity, by its value as a big-endian number. */
  datatype Id = Id(value: int)

  predicate IdLess(a: Id, b: Id) { a.value < b.value }

  const OWNERSHIP := 1
  const TYPE_REFERENCE := 2
  const VALUE_REFERENCE := 3
  const CONTROL_FLOW := 4
  const CALL := 5
  const EFFECT := 6
  const CAPABILITY := 7
  const CONTRACT := 8
  const INITIALIZER := 9
  const TEST_TARGET := 10
  const ADAPTER := 11
  const DEFINITION_MEMBER := 12

  /** Type expressions by tag. `Plain` is every tag that names nothing, and the null expression. */
  datatype TypeExpr =
    | Plain
    | Tuple(items: seq<TypeExpr>)
    | Named(definition: Id, arguments: seq<TypeExpr>)
    | Wrapper(item: TypeExpr)
    | MapType(key: TypeExpr, value: TypeExpr)
    | ResultType(ok: TypeExpr, error: TypeExpr)
    | FunctionType(parameters: seq<TypeExpr>, result: TypeExpr, effects: seq<Id>)
    | AdapterHandle(adapter: Id)
    | CapabilityToken(capability: Id)

  datatype Const = Null | Value(ty: TypeExpr, data: Data)

  datatype Entry = Entry(key: Const, value: Const)

  datatype Data =
    | Scalar
    | Sequence(elements: seq<Const>)
    | Record(recordDefinition: Id, fields: seq<Const>)
    | Variant(variantDefinition: Id, payload: Const)
    | Mapping(entries: seq<Entry>)
    | Wrapped(inner: Const)
    | FunctionReference(callee: Id, typeArguments: seq<TypeExpr>)

  /** One constructor per entity kind that has rows or nested expressions. `Rowless(tag)` stands for the
      operation kind 8 and for every tag outside 1..18, which the oracle also accepts without any row. */
  datatype Body =
    | Workspace(packages: seq<Id>, rootNamespace: Id, capabilityRequirements: seq<Id>, contracts: seq<Id>,
                tests: seq<Id>)
    | Package(workspace: Id, rootNamespace: Id, dependencies: seq<Id>, exports: seq<Id>)
    | Namespace(parent: Option<Id>, members: seq<Id>)
    | TypeDefinition(invariants: seq<Id>, memberTypes: seq<TypeExpr>)
    | Function(parameters: seq<Id>, effects: seq<Id>, entryBlock: Id, blocks: seq<Id>, contracts: seq<Id>,
               resultType: TypeExpr)
    | Parameter(ofFunction: bool, owner: Id, valueType: TypeExpr)
    | Block(inFunction: Id, parameters: seq<Id>, operations: seq<Id>, returnParameter: Id)
    | Rowless(tag: int)
    | Constant(value: Const)
    | Global(initializer: Id, valueType: TypeExpr)
    | EffectDefinition(scopeType: TypeExpr, requestType: TypeExpr, responseType: TypeExpr, failureType: TypeExpr)
    | CapabilityRequirement(effect: Id, constraintContracts: seq<Id>, allowedScopes: seq<Const>)
    | Contract(target: Id, checker: Id)
    | TestCase(target: Id, inputs: seq<Const>, expected: Const, observations: seq<Const>)
    | AdapterImport(effects: seq<Id>, requestType: TypeExpr, responseType: TypeExpr, failureType: TypeExpr)
    | EntryPoint(entry: Id)
    | PolicyBinding(subject: Id, requirements: seq<Id>)
    | DependencyBinding(localNamespace: Id, dependencyRoot: Id)
  {
    function Kind(): int {
      match this
      case Workspace(_, _, _, _, _) => 1
      case Package(_, _, _, _) => 2
      case Namespace(_, _) => 3
      case TypeDefinition(_, _) => 4
      case Function(_, _, _, _, _, _) => 5
      case Parameter(_, _, _) => 6
      case Block(_, _, _, _) => 7
      case Rowless(tag) => if 1 <= tag <= 18 then 8 else tag
      case Constant(_) => 9
      case Global(_, _) => 10
      case EffectDefinition(_, _, _, _) => 11
      case CapabilityRequirement(_, _, _) => 12
      case Contract(_, _) => 13
      case TestCase(_, _, _, _) => 14
      case AdapterImport(_, _, _, _) => 15
      case EntryPoint(_) => 16
      case PolicyBinding(_, _) => 17
      case DependencyBinding(_, _) => 18
    }
  }

  datatype Entity = Entity(id: Id, body: Body)

  type Bodies = map<Id, Body>

  datatype Code =
    | SetNotCanonical
    | UnresolvedEntity
    | WrongEntityKind
    | InventoryMismatch
    | WorkspaceMissing
    | WorkspaceAmbiguous
    | PackageMembership
    | NamespaceRoot
    | NamespaceTree
    | MemberOwnership
    | ExportUnscoped
    | EntryPointsMismatch
    | DependencyRootsMismatch
    | DependencyBindingUnowned

  /** One reference: what it names, the edge it makes, and the kind it must resolve to. */
  datatype Ref = Ref(target: Id, edgeKind: int, expected: Option<int>)

  datatype Edge = Edge(dependent: Id, dependency: Id, kind: int)

  predicate EdgeLess(a: Edge, b: Edge) {
    || IdLess(a.dependent, b.dependent)
    || (a.dependent == b.dependent && IdLess(a.dependency, b.dependency))
    || (a.dependent == b.dependent && a.dependency == b.dependency && a.kind < b.kind)
  }

  /** Edges are ordered as triples: by dependent, then dependency, then kind. */
  lemma EdgeOrder(a: Edge, b: Edge)
    ensures EdgeLess(a, b) <==>
            Lex(Triple(a), Triple(b), IntLess)
  {
    var x, y := Triple(a), Triple(b);
    LexExactly(x, y, IntLess);
    if EdgeLess(a, b) {
      var k := if x[0] != y[0] then 0 else if x[1] != y[1] then 1 else 2;
      assert LessFrom(x, y, IntLess, k);
    }
    if k: nat :| LessFrom(x, y, IntLess, k) {
      assert forall i :: 0 <= i < k ==> x[i] == x[..k][i] == y[..k][i] == y[i];
    }
  }

  function Triple(e: Edge): seq<int> {
    [e.dependent.value, e.dependency.value, e.kind]
  }

  lemma IdTotal()
    ensures StrictTotal(IdLess)
  {
  }

  lemma EdgeTotal()
    ensures StrictTotal(EdgeLess)
  {
  }

  // References in the order the oracle walks them.

  function Flat(parts: seq<seq<Ref>>): seq<Ref> {
    if parts == [] then [] else Flat(parts[..|parts| - 1]) + parts[|parts| - 1]
  }

  function Many(ids: seq<Id>, edgeKind: int, expected: Option<int>): seq<Ref> {
    seq(|ids|, i requires 0 <= i < |ids| => Ref(ids[i], edgeKind, expected))
  }

  function One(id: Id, edgeKind: int, expected: Option<int>): seq<Ref> {
    [Ref(id, edgeKind, expected)]
  }

  function TypeRefs(t: TypeExpr): seq<Ref>
    decreases t, 1
  {
    match t
    case Plain => []
    case Tuple(items) => TypesRefs(items)
    case Named(definition, arguments) => One(definition, TYPE_REFERENCE, Some(4)) + TypesRefs(arguments)
    case Wrapper(item) => TypeRefs(item)
    case MapType(key, value) => TypeRefs(key) + TypeRefs(value)
    case ResultType(ok, error) => TypeRefs(ok) + TypeRefs(error)
    case FunctionType(parameters, result, effects) =>
      TypesRefs(parameters) + TypeRefs(result) + Many(effects, EFFECT, Some(11))
    case AdapterHandle(adapter) => One(adapter, ADAPTER, Some(15))
    case CapabilityToken(capability) => One(capability, CAPABILITY, Some(12))
  }

  function TypesRefs(ts: seq<TypeExpr>): seq<Ref>
    decreases ts, 0
  {
    Flat(seq(|ts|, i requires 0 <= i < |ts| => TypeRefs(ts[i])))
  }

  function ConstRefs(c: Const): seq<Ref>
    decreases c, 1
  {
    match c
    case Null => []
    case Value(ty, data) => TypeRefs(ty) + DataRefs(data)
  }

  function DataRefs(d: Data): seq<Ref>
    decreases d, 1
  {
    match d
    case Scalar => []
    case Sequence(elements) => ConstsRefs(elements)
    case Record(definition, fields) => One(definition, DEFINITION_MEMBER, Some(4)) + ConstsRefs(fields)
    case Variant(definition, payload) => One(definition, DEFINITION_MEMBER, Some(4)) + ConstRefs(payload)
    case Mapping(entries) => EntriesRefs(entries)
    case Wrapped(inner) => ConstRefs(inner)
    case FunctionReference(callee, typeArguments) => One(callee, CALL, Some(5)) + TypesRefs(typeArguments)
  }

  function ConstsRefs(cs: seq<Const>): seq<Ref>
    decreases cs, 0
  {
    Flat(seq(|cs|, i requires 0 <= i < |cs| => ConstRefs(cs[i])))
  }

  function EntryRefs(e: Entry): seq<Ref>
    decreases e, 2
  {
    ConstRefs(e.key) + ConstRefs(e.value)
  }

  function EntriesRefs(es: seq<Entry>): seq<Ref>
    decreases es, 0
  {
    Flat(seq(|es|, i requires 0 <= i < |es| => EntryRefs(es[i])))
  }

  /** The edge rows of one body, in row order. */
  function RowRefs(b: Body): seq<Ref> {
    match b
    case Workspace(packages, rootNamespace, capabilityRequirements, contracts, tests) =>
      Many(packages, OWNERSHIP, Some(2)) + One(rootNamespace, OWNERSHIP, Some(3))
      + Many(capabilityRequirements, CAPABILITY, Some(12)) + Many(contracts, CONTRACT, Some(13))
      + Many(tests, TEST_TARGET, Some(14))
    case Package(workspace, rootNamespace, dependencies, exports) =>
      One(workspace, OWNERSHIP, Some(1)) + One(rootNamespace, OWNERSHIP, Some(3))
      + Many(dependencies, OWNERSHIP, Some(18)) + Many(exports, OWNERSHIP, None)
    case Namespace(parent, members) =>
      (if parent.Some? then One(parent.value, OWNERSHIP, Some(3)) else []) + Many(members, OWNERSHIP, None)
    case TypeDefinition(invariants, _) => Many(invariants, CONTRACT, Some(13))
    case Function(parameters, effects, entryBlock, blocks, contracts, _) =>
      Many(parameters, OWNERSHIP, Some(6)) + Many(effects, EFFECT, Some(11)) + One(entryBlock, CONTROL_FLOW, Some(7))
      + Many(blocks, OWNERSHIP, Some(7)) + Many(contracts, CONTRACT, Some(13))
    case Parameter(ofFunction, owner, _) => One(owner, OWNERSHIP, Some(if ofFunction then 5 else 7))
    case Block(inFunction, parameters, operations, returnParameter) =>
      One(inFunction, OWNERSHIP, Some(5)) + Many(parameters, OWNERSHIP, Some(6)) + Many(operations, OWNERSHIP, Some(8))
      + One(returnParameter, VALUE_REFERENCE, Some(6))
    case Rowless(_) => []
    case Constant(_) => []
    case Global(initializer, _) => One(initializer, INITIALIZER, Some(9))
    case EffectDefinition(_, _, _, _) => []
    case CapabilityRequirement(effect, constraintContracts, _) =>
      One(effect, EFFECT, Some(11)) + Many(constraintContracts, CONTRACT, Some(13))
    case Contract(target, checker) => One(target, CONTRACT, None) + One(checker, CONTRACT, Some(5))
    case TestCase(target, _, _, _) => One(target, TEST_TARGET, Some(5))
    case AdapterImport(effects, _, _, _) => Many(effects, EFFECT, Some(11))
    case EntryPoint(entry) => One(entry, OWNERSHIP, Some(5))
    case PolicyBinding(subject, requirements) =>
      One(subject, OWNERSHIP, None) + Many(requirements, CAPABILITY, Some(12))
    case DependencyBinding(localNamespace, _) => One(localNamespace, OWNERSHIP, Some(3))
  }

  function TypeFields(b: Body): seq<TypeExpr> {
    match b
    case TypeDefinition(_, memberTypes) => memberTypes
    case Function(_, _, _, _, _, resultType) => [resultType]
    case Parameter(_, _, valueType) => [valueType]
    case Global(_, valueType) => [valueType]
    case EffectDefinition(scope, request, response, failure) => [scope, request, response, failure]
    case AdapterImport(_, request, response, failure) => [request, response, failure]
    case _ => []
  }

  function ConstFields(b: Body): seq<Const> {
    match b
    case Constant(value) => [value]
    case CapabilityRequirement(_, _, allowedScopes) => allowedScopes
    case TestCase(_, inputs, expected, observations) => inputs + [expected] + observations
    case _ => []
  }

  function EntityRefs(b: Body): seq<Ref> {
    RowRefs(b) + TypesRefs(TypeFields(b)) + ConstsRefs(ConstFields(b))
  }

  function AllRefs(entities: seq<Entity>): seq<Ref> {
    Flat(Parts(entities))
  }

  function Parts(entities: seq<Entity>): (parts: seq<seq<Ref>>)
    ensures |parts| == |entities|
  {
    seq(|entities|, i requires 0 <= i < |entities| => EntityRefs(entities[i].body))
  }

  /** How one reference resolves against the bound entities. */
  function Resolve(m: Bodies, r: Ref): Option<Code> {
    if r.target !in m then Some(UnresolvedEntity)
    else if r.expected.Some? && m[r.target].Kind() != r.expected.value then Some(WrongEntityKind)
    else None
  }

  /** The failure of the first reference that does not resolve. */
  function FirstBad(m: Bodies, refs: seq<Ref>): Option<Code> {
    if refs == [] then None
    else
      var earlier := FirstBad(m, refs[..|refs| - 1]);
      if earlier.Some? then earlier else Resolve(m, refs[|refs| - 1])
  }

  ghost function EdgesOf(dependent: Id, refs: seq<Ref>): set<Edge> {
    set r | r in refs :: Edge(dependent, r.target, r.edgeKind)
  }

  // Facts about reference lists that every walking loop uses.

  lemma {:induction false} FirstBadConcat(m: Bodies, a: seq<Ref>, b: seq<Ref>)
    ensures FirstBad(m, a + b) == if FirstBad(m, a).Some? then FirstBad(m, a) else FirstBad(m, b)
    decreases |b|
  {
    if b == [] {
      assert a + b == a;
    } else {
      assert (a + b)[..|a + b| - 1] == a + b[..|b| - 1];
      FirstBadConcat(m, a, b[..|b| - 1]);
    }
  }

  lemma FlatStep(parts: seq<seq<Ref>>, i: nat)
    requires i < |parts|
    ensures Flat(parts[..i + 1]) == Flat(parts[..i]) + parts[i]
  {
    assert parts[..i + 1][..i] == parts[..i];
  }

  /** A failure inside a prefix of the walk is the failure of the whole walk. */
  lemma {:induction false} FirstBadPrefix(m: Bodies, parts: seq<seq<Ref>>, i: nat)
    requires i <= |parts| && FirstBad(m, Flat(parts[..i])).Some?
    ensures FirstBad(m, Flat(parts)) == FirstBad(m, Flat(parts[..i]))
    decreases |parts| - i
  {
    if i == |parts| {
      assert parts[..i] == parts;
    } else {
      FlatStep(parts, i);
      FirstBadConcat(m, Flat(parts[..i]), parts[i]);
      FirstBadPrefix(m, parts, i + 1);
    }
  }

  lemma {:induction false} FlatMembers(parts: seq<seq<Ref>>, r: Ref)
    ensures r in Flat(parts) <==> exists i :: 0 <= i < |parts| && r in parts[i]
    decreases |parts|
  {
    if parts != [] {
      var init := parts[..|parts| - 1];
      FlatMembers(init, r);
      if r in Flat(init) {
        var i :| 0 <= i < |init| && r in init[i];
        assert r in parts[i];
      }
      if i :| 0 <= i < |parts| && r in parts[i] && i < |init| {
        assert r in init[i];
      }
    }
  }

  lemma {:induction false} FirstBadNone(m: Bodies, refs: seq<Ref>)
    ensures FirstBad(m, refs).None? <==> forall r :: r in refs ==> Resolve(m, r).None?
    decreases |refs|
  {
    if refs != [] {
      FirstBadNone(m, refs[..|refs| - 1]);
      assert refs == refs[..|refs| - 1] + [refs[|refs| - 1]];
    }
  }
}
