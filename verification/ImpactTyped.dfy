/** What C2 leaves behind, without edge kinds or kind numbers: every field of every entity, and every node nested in
    one, names a bound entity of the sort its place calls for. */
module ImpactTyped {
  import opened Reachability
  import opened ImpactModel
  import opened ImpactMentions
  import opened ImpactRules
  import opened Wrappers

  /** The sorts a place can call for. Operations are the rowless bodies whose kind is modeled. */
  datatype Sort = Anything | AWorkspace | APackage | ANamespace | ATypeDefinition | AFunction | AParameter | ABlock
    | AnOperation | AConstant | AnEffect | ACapability | AContract | ATest | AnAdapter | ABinding

  predicate Is(b: Body, sort: Sort) {
    match sort
    case Anything => true
    case AWorkspace => b.Workspace?
    case APackage => b.Package?
    case ANamespace => b.Namespace?
    case ATypeDefinition => b.TypeDefinition?
    case AFunction => b.Function?
    case AParameter => b.Parameter?
    case ABlock => b.Block?
    case AnOperation => b.Rowless? && 1 <= b.tag <= 18
    case AConstant => b.Constant?
    case AnEffect => b.EffectDefinition?
    case ACapability => b.CapabilityRequirement?
    case AContract => b.Contract?
    case ATest => b.TestCase?
    case AnAdapter => b.AdapterImport?
    case ABinding => b.DependencyBinding?
  }

  predicate Bound(m: Bodies, id: Id, sort: Sort) {
    id in m && Is(m[id], sort)
  }

  predicate AllBound(m: Bodies, ids: seq<Id>, sort: Sort) {
    forall id :: id in ids ==> Bound(m, id, sort)
  }

  predicate FieldsTyped(m: Bodies, b: Body) {
    match b
    case Workspace(packages, rootNamespace, capabilityRequirements, contracts, tests) =>
      && AllBound(m, packages, APackage) && Bound(m, rootNamespace, ANamespace)
      && AllBound(m, capabilityRequirements, ACapability) && AllBound(m, contracts, AContract)
      && AllBound(m, tests, ATest)
    case Package(workspace, rootNamespace, dependencies, exports) =>
      && Bound(m, workspace, AWorkspace) && Bound(m, rootNamespace, ANamespace)
      && AllBound(m, dependencies, ABinding) && AllBound(m, exports, Anything)
    case Namespace(parent, members) =>
      (parent.Some? ==> Bound(m, parent.value, ANamespace)) && AllBound(m, members, Anything)
    case TypeDefinition(invariants, _) => AllBound(m, invariants, AContract)
    case Function(parameters, effects, entryBlock, blocks, contracts, _) =>
      && AllBound(m, parameters, AParameter) && AllBound(m, effects, AnEffect) && Bound(m, entryBlock, ABlock)
      && AllBound(m, blocks, ABlock) && AllBound(m, contracts, AContract)
    case Parameter(ofFunction, owner, _) => if ofFunction then Bound(m, owner, AFunction) else Bound(m, owner, ABlock)
    case Block(inFunction, parameters, operations, returnParameter) =>
      && Bound(m, inFunction, AFunction) && AllBound(m, parameters, AParameter) && AllBound(m, operations, AnOperation)
      && Bound(m, returnParameter, AParameter)
    case Global(initializer, _) => Bound(m, initializer, AConstant)
    case CapabilityRequirement(effect, constraintContracts, _) =>
      Bound(m, effect, AnEffect) && AllBound(m, constraintContracts, AContract)
    case Contract(target, checker) => Bound(m, target, Anything) && Bound(m, checker, AFunction)
    case TestCase(target, _, _, _) => Bound(m, target, AFunction)
    case AdapterImport(effects, _, _, _) => AllBound(m, effects, AnEffect)
    case EntryPoint(entry) => Bound(m, entry, AFunction)
    case PolicyBinding(subject, requirements) =>
      Bound(m, subject, Anything) && AllBound(m, requirements, ACapability)
    case DependencyBinding(localNamespace, _) => Bound(m, localNamespace, ANamespace)
    case _ => true
  }

  predicate NodeTyped(m: Bodies, n: Node) {
    match n
    case OfType(Named(definition, _)) => Bound(m, definition, ATypeDefinition)
    case OfType(FunctionType(_, _, effects)) => AllBound(m, effects, AnEffect)
    case OfType(AdapterHandle(adapter)) => Bound(m, adapter, AnAdapter)
    case OfType(CapabilityToken(capability)) => Bound(m, capability, ACapability)
    case OfConst(Value(_, Record(definition, _))) => Bound(m, definition, ATypeDefinition)
    case OfConst(Value(_, Variant(definition, _))) => Bound(m, definition, ATypeDefinition)
    case OfConst(Value(_, FunctionReference(callee, _))) => Bound(m, callee, AFunction)
    case _ => true
  }

  /** No entity names, in a field or anywhere inside one, what is not bound or of another sort. */
  ghost predicate AllTyped(entities: seq<Entity>, m: Bodies) {
    forall e :: e in entities ==> EntityTyped(m, e.body)
  }

  ghost predicate EntityTyped(m: Bodies, b: Body) {
    FieldsTyped(m, b) && forall root, n :: Root(b, root) && Reaches(Inside, {root}, n) ==> NodeTyped(m, n)
  }

  /** The kind number a reference demands, and the sort. */
  predicate Demands(expected: Option<int>, sort: Sort) {
    expected == match sort
      case Anything => None
      case AWorkspace => Some(1)
      case APackage => Some(2)
      case ANamespace => Some(3)
      case ATypeDefinition => Some(4)
      case AFunction => Some(5)
      case AParameter => Some(6)
      case ABlock => Some(7)
      case AnOperation => Some(8)
      case AConstant => Some(9)
      case AnEffect => Some(11)
      case ACapability => Some(12)
      case AContract => Some(13)
      case ATest => Some(14)
      case AnAdapter => Some(15)
      case ABinding => Some(18)
  }

  lemma DemandMet(m: Bodies, r: Ref, sort: Sort)
    requires Demands(r.expected, sort)
    ensures BoundAs(m, r) <==> Bound(m, r.target, sort)
  {
  }

  ghost predicate RowsBound(m: Bodies, b: Body) {
    forall r :: RowNames(b, r) ==> BoundAs(m, r)
  }

  lemma ManyBound(m: Bodies, b: Body, ids: seq<Id>, edgeKind: int, expected: Option<int>, sort: Sort)
    requires RowsBound(m, b) && Demands(expected, sort)
    requires forall id :: id in ids ==> RowNames(b, Ref(id, edgeKind, expected))
    ensures AllBound(m, ids, sort)
  {
    forall id | id in ids ensures Bound(m, id, sort) { DemandMet(m, Ref(id, edgeKind, expected), sort); }
  }

  lemma OneBound(m: Bodies, b: Body, id: Id, edgeKind: int, expected: Option<int>, sort: Sort)
    requires RowsBound(m, b) && Demands(expected, sort) && RowNames(b, Ref(id, edgeKind, expected))
    ensures Bound(m, id, sort)
  {
    DemandMet(m, Ref(id, edgeKind, expected), sort);
  }

  lemma BoundRowsTyped(m: Bodies, b: Body)
    requires RowsBound(m, b)
    ensures FieldsTyped(m, b)
  {
    match b
    case Workspace(packages, rootNamespace, capabilityRequirements, contracts, tests) =>
      ManyBound(m, b, packages, OWNERSHIP, Some(2), APackage);
      OneBound(m, b, rootNamespace, OWNERSHIP, Some(3), ANamespace);
      ManyBound(m, b, capabilityRequirements, CAPABILITY, Some(12), ACapability);
      ManyBound(m, b, contracts, CONTRACT, Some(13), AContract);
      ManyBound(m, b, tests, TEST_TARGET, Some(14), ATest);
    case Package(workspace, rootNamespace, dependencies, exports) =>
      OneBound(m, b, workspace, OWNERSHIP, Some(1), AWorkspace);
      OneBound(m, b, rootNamespace, OWNERSHIP, Some(3), ANamespace);
      ManyBound(m, b, dependencies, OWNERSHIP, Some(18), ABinding);
      ManyBound(m, b, exports, OWNERSHIP, None, Anything);
    case Namespace(parent, members) =>
      if parent.Some? { OneBound(m, b, parent.value, OWNERSHIP, Some(3), ANamespace); }
      ManyBound(m, b, members, OWNERSHIP, None, Anything);
    case TypeDefinition(invariants, _) => ManyBound(m, b, invariants, CONTRACT, Some(13), AContract);
    case Function(parameters, effects, entryBlock, blocks, contracts, _) =>
      ManyBound(m, b, parameters, OWNERSHIP, Some(6), AParameter);
      ManyBound(m, b, effects, EFFECT, Some(11), AnEffect);
      OneBound(m, b, entryBlock, CONTROL_FLOW, Some(7), ABlock);
      ManyBound(m, b, blocks, OWNERSHIP, Some(7), ABlock);
      ManyBound(m, b, contracts, CONTRACT, Some(13), AContract);
    case Parameter(ofFunction, owner, _) =>
      if ofFunction {
        OneBound(m, b, owner, OWNERSHIP, Some(5), AFunction);
      } else {
        OneBound(m, b, owner, OWNERSHIP, Some(7), ABlock);
      }
    case Block(inFunction, parameters, operations, returnParameter) =>
      OneBound(m, b, inFunction, OWNERSHIP, Some(5), AFunction);
      ManyBound(m, b, parameters, OWNERSHIP, Some(6), AParameter);
      ManyBound(m, b, operations, OWNERSHIP, Some(8), AnOperation);
      OneBound(m, b, returnParameter, VALUE_REFERENCE, Some(6), AParameter);
    case _ => BoundRowsTypedRest(m, b);
  }

  lemma BoundRowsTypedRest(m: Bodies, b: Body)
    requires RowsBound(m, b) && b.Kind() !in {1, 2, 3, 4, 5, 6, 7}
    ensures FieldsTyped(m, b)
  {
    match b
    case Global(initializer, _) => OneBound(m, b, initializer, INITIALIZER, Some(9), AConstant);
    case CapabilityRequirement(effect, constraintContracts, _) =>
      OneBound(m, b, effect, EFFECT, Some(11), AnEffect);
      ManyBound(m, b, constraintContracts, CONTRACT, Some(13), AContract);
    case Contract(target, checker) =>
      OneBound(m, b, target, CONTRACT, None, Anything);
      OneBound(m, b, checker, CONTRACT, Some(5), AFunction);
    case TestCase(target, _, _, _) => OneBound(m, b, target, TEST_TARGET, Some(5), AFunction);
    case AdapterImport(effects, _, _, _) => ManyBound(m, b, effects, EFFECT, Some(11), AnEffect);
    case EntryPoint(entry) => OneBound(m, b, entry, OWNERSHIP, Some(5), AFunction);
    case PolicyBinding(subject, requirements) =>
      OneBound(m, b, subject, OWNERSHIP, None, Anything);
      ManyBound(m, b, requirements, CAPABILITY, Some(12), ACapability);
    case DependencyBinding(localNamespace, _) => OneBound(m, b, localNamespace, OWNERSHIP, Some(3), ANamespace);
    case _ =>
  }

  lemma TypedRowsBound(m: Bodies, b: Body)
    requires FieldsTyped(m, b)
    ensures RowsBound(m, b)
  {
    forall r | RowNames(b, r) ensures BoundAs(m, r) { RowBound(m, b, r); }
  }

  lemma RowBound(m: Bodies, b: Body, r: Ref)
    requires FieldsTyped(m, b) && RowNames(b, r)
    ensures BoundAs(m, r)
  {
    forall sort | Demands(r.expected, sort) ensures Bound(m, r.target, sort) ==> BoundAs(m, r) {
      DemandMet(m, r, sort);
    }
  }

  lemma NodeBound(m: Bodies, n: Node)
    ensures NodeTyped(m, n) <==> forall r :: Names(n, r) ==> BoundAs(m, r)
  {
    if NodeTyped(m, n) {
      forall r | Names(n, r) ensures BoundAs(m, r) { NameBound(m, n, r); }
    }
    if forall r :: Names(n, r) ==> BoundAs(m, r) { BoundNamesTyped(m, n); }
  }

  lemma NameBound(m: Bodies, n: Node, r: Ref)
    requires NodeTyped(m, n) && Names(n, r)
    ensures BoundAs(m, r)
  {
    forall sort | Demands(r.expected, sort) ensures Bound(m, r.target, sort) ==> BoundAs(m, r) {
      DemandMet(m, r, sort);
    }
  }

  lemma BoundNamesTyped(m: Bodies, n: Node)
    requires forall r :: Names(n, r) ==> BoundAs(m, r)
    ensures NodeTyped(m, n)
  {
    match n
    case OfType(Named(definition, _)) => assert Names(n, Ref(definition, TYPE_REFERENCE, Some(4)));
    case OfType(FunctionType(_, _, effects)) =>
      forall e | e in effects ensures Bound(m, e, AnEffect) {
        assert Names(n, Ref(e, EFFECT, Some(11)));
      }
    case OfType(AdapterHandle(adapter)) => assert Names(n, Ref(adapter, ADAPTER, Some(15)));
    case OfType(CapabilityToken(capability)) => assert Names(n, Ref(capability, CAPABILITY, Some(12)));
    case OfConst(Value(_, Record(definition, _))) => assert Names(n, Ref(definition, DEFINITION_MEMBER, Some(4)));
    case OfConst(Value(_, Variant(definition, _))) => assert Names(n, Ref(definition, DEFINITION_MEMBER, Some(4)));
    case OfConst(Value(_, FunctionReference(callee, _))) => assert Names(n, Ref(callee, CALL, Some(5)));
    case _ =>
  }

  lemma EntitySettled(m: Bodies, b: Body)
    ensures EntityTyped(m, b) <==> forall r :: EntityMentions(b, r) ==> BoundAs(m, r)
  {
    if EntityTyped(m, b) {
      TypedRowsBound(m, b);
      forall r | EntityMentions(b, r) ensures BoundAs(m, r) {
        if root :| Root(b, root) && Mentions(root, r) {
          var n :| Reaches(Inside, {root}, n) && Names(n, r);
          NodeBound(m, n);
        }
      }
    }
    if forall r :: EntityMentions(b, r) ==> BoundAs(m, r) {
      BoundRowsTyped(m, b);
      forall root, n | Root(b, root) && Reaches(Inside, {root}, n) ensures NodeTyped(m, n) {
        forall r | Names(n, r) ensures BoundAs(m, r) { assert Mentions(root, r); }
        NodeBound(m, n);
      }
    }
  }

  /** C2 holds if and only if every field and every nested node names bound entities of the right sorts. */
  lemma C2Typed(entities: seq<Entity>, m: Bodies)
    ensures C2(entities, m) <==> AllTyped(entities, m)
  {
    if C2(entities, m) {
      forall e | e in entities ensures EntityTyped(m, e.body) {
        forall r | EntityMentions(e.body, r) ensures BoundAs(m, r) { assert Settled(m, e, r); }
        EntitySettled(m, e.body);
      }
    }
    if AllTyped(entities, m) {
      forall e, r | e in entities ensures Settled(m, e, r) {
        assert EntityTyped(m, e.body);
        EntitySettled(m, e.body);
      }
    }
  }

  // The other field rules.

  /** Which lists must be strictly ascending: four of a workspace, two of a package, a namespace's members and a
      policy's requirements. */
  lemma CanonicalFields(b: Body)
    ensures BodyCanonical(b) <==>
            match b
            case Workspace(packages, _, capabilities, contracts, tests) =>
              Canonical(packages) && Canonical(capabilities) && Canonical(contracts) && Canonical(tests)
            case Package(_, _, dependencies, exports) => Canonical(dependencies) && Canonical(exports)
            case Namespace(_, members) => Canonical(members)
            case PolicyBinding(_, requirements) => Canonical(requirements)
            case _ => true
  {
    match b
    case Workspace(packages, _, capabilities, contracts, tests) =>
      assert BodySets(b)[0] == packages && BodySets(b)[1] == capabilities;
      assert BodySets(b)[2] == contracts && BodySets(b)[3] == tests;
    case Package(_, _, dependencies, exports) =>
      assert BodySets(b)[0] == dependencies && BodySets(b)[1] == exports;
    case Namespace(_, members) => assert BodySets(b)[0] == members;
    case PolicyBinding(_, requirements) => assert BodySets(b)[0] == requirements;
    case _ =>
  }

  /** What no namespace may hold as a member. */
  lemma ForbiddenSorts(b: Body)
    ensures ForbiddenMember(b.Kind()) <==>
            || Is(b, AWorkspace) || Is(b, APackage) || Is(b, AParameter) || Is(b, ABlock) || Is(b, AnOperation)
            || Is(b, ABinding)
  {
  }
}
