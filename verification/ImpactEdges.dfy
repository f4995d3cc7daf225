/** Deriving the direct edges: the walker that adds to a shared edge set, and what its result means. */
module ImpactEdges {
  import opened Order
  import opened ImpactModel
  import opened Wrappers

  lemma EdgesOfConcat(dependent: Id, a: seq<Ref>, b: seq<Ref>)
    ensures EdgesOf(dependent, a + b) == EdgesOf(dependent, a) + EdgesOf(dependent, b)
  {
    forall e ensures e in EdgesOf(dependent, a + b) <==> e in EdgesOf(dependent, a) + EdgesOf(dependent, b) {
    }
  }

  /** The recursion over nested type expressions and constants. A failure is returned where the oracle raises. */
  class Walker {
    const bodies: Bodies
    var edges: set<Edge>

    constructor (bodies: Bodies)
      ensures this.bodies == bodies && edges == {}
    {
      this.bodies := bodies;
      edges := {};
    }

    /** The walk of a list of references succeeded exactly when each resolves, and then added their edges. */
    ghost predicate Walked(before: set<Edge>, dependent: Id, refs: seq<Ref>, failure: Option<Code>)
      reads this
    {
      && failure == FirstBad(bodies, refs)
      && (failure.None? ==> edges == before + EdgesOf(dependent, refs))
    }

    method Add(dependent: Id, r: Ref) returns (failure: Option<Code>)
      modifies this`edges
      ensures Walked(old(edges), dependent, [r], failure)
    {
      assert [r][..0] == [];
      if r.target !in bodies {
        return Some(UnresolvedEntity);
      }
      if r.expected.Some? && bodies[r.target].Kind() != r.expected.value {
        return Some(WrongEntityKind);
      }
      edges := edges + {Edge(dependent, r.target, r.edgeKind)};
      assert EdgesOf(dependent, [r]) == {Edge(dependent, r.target, r.edgeKind)};
      return None;
    }

    method AddAll(dependent: Id, refs: seq<Ref>) returns (failure: Option<Code>)
      modifies this`edges
      ensures Walked(old(edges), dependent, refs, failure)
    {
      for i := 0 to |refs|
        invariant Walked(old(edges), dependent, refs[..i], None)
      {
        failure := Add(dependent, refs[i]);
        assert refs[..i + 1] == refs[..i] + [refs[i]];
        FirstBadConcat(bodies, refs[..i], [refs[i]]);
        EdgesOfConcat(dependent, refs[..i], [refs[i]]);
        if failure.Some? {
          assert refs == refs[..i + 1] + refs[i + 1..];
          FirstBadConcat(bodies, refs[..i + 1], refs[i + 1..]);
          return;
        }
      }
      assert refs[..|refs|] == refs;
      return None;
    }

    method Types(dependent: Id, nodes: seq<TypeExpr>) returns (failure: Option<Code>)
      modifies this`edges
      ensures Walked(old(edges), dependent, TypesRefs(nodes), failure)
      decreases nodes, 0
    {
      ghost var parts := seq(|nodes|, i requires 0 <= i < |nodes| => TypeRefs(nodes[i]));
      for i := 0 to |nodes|
        invariant Walked(old(edges), dependent, Flat(parts[..i]), None)
      {
        failure := Type(dependent, nodes[i]);
        JoinPart(bodies, dependent, parts, i);
        if failure.Some? { return; }
      }
      assert parts[..|nodes|] == parts;
      return None;
    }

    method Type(dependent: Id, node: TypeExpr) returns (failure: Option<Code>)
      modifies this`edges
      ensures Walked(old(edges), dependent, TypeRefs(node), failure)
      decreases node, 1
    {
      match node
      case Plain => return None;
      case Tuple(items) => failure := Types(dependent, items);
      case Named(definition, arguments) =>
        ghost var own := One(definition, TYPE_REFERENCE, Some(4));
        JoinTwo(bodies, dependent, own, TypesRefs(arguments));
        failure := Add(dependent, Ref(definition, TYPE_REFERENCE, Some(4)));
        if failure.None? { failure := Types(dependent, arguments); }
      case Wrapper(item) => failure := Type(dependent, item);
      case MapType(key, value) =>
        JoinTwo(bodies, dependent, TypeRefs(key), TypeRefs(value));
        failure := Type(dependent, key);
        if failure.None? { failure := Type(dependent, value); }
      case ResultType(ok, error) =>
        JoinTwo(bodies, dependent, TypeRefs(ok), TypeRefs(error));
        failure := Type(dependent, ok);
        if failure.None? { failure := Type(dependent, error); }
      case FunctionType(parameters, result, effects) =>
        JoinTwo(bodies, dependent, TypesRefs(parameters), TypeRefs(result));
        JoinTwo(bodies, dependent, TypesRefs(parameters) + TypeRefs(result), Many(effects, EFFECT, Some(11)));
        failure := Types(dependent, parameters);
        if failure.None? {
          failure := Type(dependent, result);
          if failure.None? { failure := AddAll(dependent, Many(effects, EFFECT, Some(11))); }
        }
      case AdapterHandle(adapter) => failure := Add(dependent, Ref(adapter, ADAPTER, Some(15)));
      case CapabilityToken(capability) => failure := Add(dependent, Ref(capability, CAPABILITY, Some(12)));
    }

    method Consts(dependent: Id, nodes: seq<Const>) returns (failure: Option<Code>)
      modifies this`edges
      ensures Walked(old(edges), dependent, ConstsRefs(nodes), failure)
      decreases nodes, 0
    {
      ghost var parts := seq(|nodes|, i requires 0 <= i < |nodes| => ConstRefs(nodes[i]));
      for i := 0 to |nodes|
        invariant Walked(old(edges), dependent, Flat(parts[..i]), None)
      {
        failure := Const(dependent, nodes[i]);
        JoinPart(bodies, dependent, parts, i);
        if failure.Some? { return; }
      }
      assert parts[..|nodes|] == parts;
      return None;
    }

    method Const(dependent: Id, node: Const) returns (failure: Option<Code>)
      modifies this`edges
      ensures Walked(old(edges), dependent, ConstRefs(node), failure)
      decreases node, 1
    {
      match node
      case Null => return None;
      case Value(ty, data) =>
        JoinTwo(bodies, dependent, TypeRefs(ty), DataRefs(data));
        failure := Type(dependent, ty);
        if failure.None? { failure := DataValue(dependent, data); }
    }

    method DataValue(dependent: Id, data: Data) returns (failure: Option<Code>)
      modifies this`edges
      ensures Walked(old(edges), dependent, DataRefs(data), failure)
      decreases data, 1
    {
      match data
      case Scalar => return None;
      case Sequence(elements) => failure := Consts(dependent, elements);
      case Record(definition, fields) =>
        JoinTwo(bodies, dependent, One(definition, DEFINITION_MEMBER, Some(4)), ConstsRefs(fields));
        failure := Add(dependent, Ref(definition, DEFINITION_MEMBER, Some(4)));
        if failure.None? { failure := Consts(dependent, fields); }
      case Variant(definition, payload) =>
        JoinTwo(bodies, dependent, One(definition, DEFINITION_MEMBER, Some(4)), ConstRefs(payload));
        failure := Add(dependent, Ref(definition, DEFINITION_MEMBER, Some(4)));
        if failure.None? { failure := Const(dependent, payload); }
      case Mapping(entries) => failure := Entries(dependent, entries);
      case Wrapped(inner) => failure := Const(dependent, inner);
      case FunctionReference(callee, typeArguments) =>
        JoinTwo(bodies, dependent, One(callee, CALL, Some(5)), TypesRefs(typeArguments));
        failure := Add(dependent, Ref(callee, CALL, Some(5)));
        if failure.None? { failure := Types(dependent, typeArguments); }
    }

    method Entries(dependent: Id, entries: seq<Entry>) returns (failure: Option<Code>)
      modifies this`edges
      ensures Walked(old(edges), dependent, EntriesRefs(entries), failure)
      decreases entries, 0
    {
      ghost var parts := seq(|entries|, i requires 0 <= i < |entries| => EntryRefs(entries[i]));
      for i := 0 to |entries|
        invariant Walked(old(edges), dependent, Flat(parts[..i]), None)
      {
        failure := EntryPair(dependent, entries[i]);
        JoinPart(bodies, dependent, parts, i);
        if failure.Some? { return; }
      }
      assert parts[..|entries|] == parts;
      return None;
    }

    method EntryPair(dependent: Id, entry: Entry) returns (failure: Option<Code>)
      modifies this`edges
      ensures Walked(old(edges), dependent, EntryRefs(entry), failure)
      decreases entry, 2
    {
      JoinTwo(bodies, dependent, ConstRefs(entry.key), ConstRefs(entry.value));
      failure := Const(dependent, entry.key);
      if failure.None? { failure := Const(dependent, entry.value); }
    }

    /** The edge rows of one entity, then its type expressions, then its constants. */
    method Walk(entity: Entity) returns (failure: Option<Code>)
      modifies this`edges
      ensures Walked(old(edges), entity.id, EntityRefs(entity.body), failure)
    {
      ghost var rows, types := RowRefs(entity.body), TypesRefs(TypeFields(entity.body));
      JoinTwo(bodies, entity.id, rows, types);
      JoinTwo(bodies, entity.id, rows + types, ConstsRefs(ConstFields(entity.body)));
      failure := AddAll(entity.id, RowRefs(entity.body));
      if failure.None? {
        failure := Types(entity.id, TypeFields(entity.body));
        if failure.None? { failure := Consts(entity.id, ConstFields(entity.body)); }
      }
    }
  }

  /** Walking `a` and then `b`. */
  lemma JoinTwo(m: Bodies, dependent: Id, a: seq<Ref>, b: seq<Ref>)
    ensures FirstBad(m, a + b) == if FirstBad(m, a).Some? then FirstBad(m, a) else FirstBad(m, b)
    ensures EdgesOf(dependent, a + b) == EdgesOf(dependent, a) + EdgesOf(dependent, b)
  {
    FirstBadConcat(m, a, b);
    EdgesOfConcat(dependent, a, b);
  }

  /** Walking one more part of a flattened walk. */
  lemma JoinPart(m: Bodies, dependent: Id, parts: seq<seq<Ref>>, i: nat)
    requires i < |parts| && FirstBad(m, Flat(parts[..i])).None?
    ensures FirstBad(m, Flat(parts[..i + 1])) == FirstBad(m, parts[i])
    ensures EdgesOf(dependent, Flat(parts[..i + 1]))
            == EdgesOf(dependent, Flat(parts[..i])) + EdgesOf(dependent, parts[i])
    ensures FirstBad(m, parts[i]).Some? ==> FirstBad(m, Flat(parts)) == FirstBad(m, parts[i])
  {
    FlatStep(parts, i);
    JoinTwo(m, dependent, Flat(parts[..i]), parts[i]);
    if FirstBad(m, parts[i]).Some? { FirstBadPrefix(m, parts, i + 1); }
  }

  // The whole inventory.

  ghost function EdgesMade(entity: Entity): set<Edge> {
    EdgesOf(entity.id, EntityRefs(entity.body))
  }

  ghost function Union(sets: seq<set<Edge>>): set<Edge> {
    if sets == [] then {} else Union(sets[..|sets| - 1]) + sets[|sets| - 1]
  }

  /** Every edge the entities' references make. */
  ghost function EdgeSet(entities: seq<Entity>): set<Edge> {
    Union(Made(entities))
  }

  ghost function Made(entities: seq<Entity>): (made: seq<set<Edge>>)
    ensures |made| == |entities| && forall i :: 0 <= i < |made| ==> made[i] == EdgesMade(entities[i])
  {
    seq(|entities|, i requires 0 <= i < |entities| => EdgesMade(entities[i]))
  }

  lemma {:induction false} UnionMembers(sets: seq<set<Edge>>, e: Edge)
    ensures e in Union(sets) <==> exists i :: 0 <= i < |sets| && e in sets[i]
  {
    if sets != [] {
      var init := sets[..|sets| - 1];
      UnionMembers(init, e);
      if i :| 0 <= i < |init| && e in init[i] { assert e in sets[i]; }
      if i :| 0 <= i < |sets| && e in sets[i] && i < |init| { assert e in init[i]; }
    }
  }

  datatype Edges = Edges(sorted: seq<Edge>) | Refused(code: Code)

  method WalkAll(entities: seq<Entity>, m: Bodies) returns (failure: Option<Code>, edges: set<Edge>)
    ensures failure == FirstBad(m, AllRefs(entities))
    ensures failure.None? ==> edges == EdgeSet(entities)
  {
    var walker := new Walker(m);
    for i := 0 to |entities|
      invariant walker.bodies == m
      invariant FirstBad(m, AllRefs(entities[..i])).None?
      invariant walker.edges == EdgeSet(entities[..i])
    {
      WalkStep(m, entities, i);
      failure := walker.Walk(entities[i]);
      if failure.Some? { return failure, {}; }
    }
    assert entities[..|entities|] == entities;
    return None, walker.edges;
  }

  lemma WalkStep(m: Bodies, entities: seq<Entity>, i: nat)
    requires i < |entities| && FirstBad(m, AllRefs(entities[..i])).None?
    ensures FirstBad(m, AllRefs(entities[..i + 1])) == FirstBad(m, EntityRefs(entities[i].body))
    ensures FirstBad(m, EntityRefs(entities[i].body)).Some? ==>
              FirstBad(m, AllRefs(entities)) == FirstBad(m, EntityRefs(entities[i].body))
    ensures EdgeSet(entities[..i + 1]) == EdgeSet(entities[..i]) + EdgesMade(entities[i])
  {
    var parts := Parts(entities);
    PartsPrefix(entities, i);
    PartsPrefix(entities, i + 1);
    JoinPart(m, entities[i].id, parts, i);
    EdgeSetStep(entities, i);
  }

  lemma PartsPrefix(entities: seq<Entity>, n: nat)
    requires n <= |entities|
    ensures AllRefs(entities[..n]) == Flat(Parts(entities)[..n])
  {
    assert Parts(entities[..n]) == Parts(entities)[..n];
  }

  lemma EdgeSetStep(entities: seq<Entity>, i: nat)
    requires i < |entities|
    ensures EdgeSet(entities[..i + 1]) == EdgeSet(entities[..i]) + EdgesMade(entities[i])
  {
    var after := Made(entities[..i + 1]);
    assert after[..i] == Made(entities[..i]) && after[i] == EdgesMade(entities[i]);
  }

  /** `direct_edges`: the first reference that does not resolve decides the failure; otherwise the result is
      the ascending listing of exactly the edges. */
  method DirectEdges(entities: seq<Entity>, m: Bodies) returns (r: Edges)
    ensures r.Refused? <==> FirstBad(m, AllRefs(entities)).Some?
    ensures r.Refused? ==> FirstBad(m, AllRefs(entities)) == Some(r.code)
    ensures r.Edges? ==> IsListing(r.sorted, EdgeSet(entities), EdgeLess)
  {
    var failure, edges := WalkAll(entities, m);
    if failure.Some? { return Refused(failure.value); }
    EdgeTotal();
    var sorted := Listing(edges, EdgeLess);
    return Edges.Edges(sorted);
  }
}
