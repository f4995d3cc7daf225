/** The dictionary compression of a capsule: every decoded fact is written by its place in the entity table, and the
    table gives it back. */
module CapsuleTables {
  import opened Order
  import opened Bytes
  import opened CapsuleModel
  import opened CapsuleDecode
  import opened Wrappers

  // Every entity a fact is about is in the dictionary.

  /** The facts speak only about identities they list, and about the subject only if there is one. */
  ghost predicate Named(f: Facts, subjects: seq<Id>) {
    && (forall k :: k in f.kinds ==> k in f.ids)
    && (forall i :: 0 <= i < |f.edges| ==> f.edges[i].dependent in f.ids && f.edges[i].dependency in f.ids)
    && (f.subjectKind.Some? || f.obj.Some? || f.fingerprint.Some? ==> subjects != [])
  }

  /** Identities are 32 bytes, kinds unsigned 32-bit. */
  ghost predicate Sized(f: Facts) {
    && (forall x :: x in f.ids || x in f.roots ==> |x| == 32)
    && (forall k :: k in f.kinds ==> Fits32(f.kinds[k]))
    && (forall i :: 0 <= i < |f.edges| ==> Fits32(f.edges[i].kind))
    && (f.subjectKind.Some? ==> Fits32(f.subjectKind.value))
    && (f.obj.Some? ==> |f.obj.value| == 32) && (f.fingerprint.Some? ==> |f.fingerprint.value| == 32)
  }

  /** More identities and roots, at most one more kind fact and edge about them. */
  lemma FactsGrow(f: Facts, ids: seq<Id>, roots: seq<Id>, kind: Option<(Id, int)>, edges: seq<Edge>)
    requires Named(f, []) && Sized(f) && |edges| <= 1
    requires forall x :: x in ids || x in roots ==> |x| == 32
    requires kind.Some? ==> kind.value.0 in ids && Fits32(kind.value.1)
    requires edges != [] ==> edges[0].dependent in ids && edges[0].dependency in ids && Fits32(edges[0].kind)
    ensures var kinds := if kind.Some? then f.kinds[kind.value.0 := kind.value.1] else f.kinds;
            var g := f.(ids := f.ids + ids, roots := f.roots + roots, kinds := kinds, edges := f.edges + edges);
            Named(g, []) && Sized(g)
  {
  }

  lemma RowNamed(f: Facts, d: seq<int>, pos: nat, cls: int)
    requires IsBytes(d) && Named(f, []) && Sized(f) && pos + RowWidth(cls) <= |d|
    ensures Named(AddRow(f, d, pos, cls), []) && Sized(AddRow(f, d, pos, cls))
  {
    var ids, roots, kind: Option<(Id, int)>, edges: seq<Edge> := [Slice(d, pos)], [], None, [];
    if cls == 7 {
      ids, roots := [Slice(d, pos), Slice(d, pos + 64), Slice(d, pos + 96)], [Slice(d, pos + 32)];
    } else if cls == 8 {
      KindRead(d, pos + 32);
      kind := Some((Slice(d, pos), UnBE(d[pos + 32..pos + 36])));
    } else if cls == 11 {
      ids, roots := [], [Slice(d, pos)];
    } else if cls == 10 {
      ids := [Slice(d, pos), Slice(d, pos + 32)];
    } else if cls == 12 || cls == 13 {
      KindRead(d, pos + 64);
      ids := [Slice(d, pos), Slice(d, pos + 32)];
      edges := [Edge(Slice(d, pos), Slice(d, pos + 32), UnBE(d[pos + 64..pos + 68]))];
    }
    FactsGrow(f, ids, roots, kind, edges);
    assert f.roots + [] == f.roots && f.ids + [] == f.ids && f.edges + [] == f.edges;
  }

  lemma KindRead(d: seq<int>, pos: nat)
    requires IsBytes(d) && pos + 4 <= |d|
    ensures Fits32(UnBE(d[pos..pos + 4]))
  {
    PackedAt(d, pos, 4);
    Widths();
  }

  lemma {:induction false} RowsNamed(f: Facts, d: seq<int>, pos: nat, n: nat, cls: int)
    requires IsBytes(d) && Named(f, []) && Sized(f) && AddRows(f, d, pos, n, cls).Some?
    ensures var g := AddRows(f, d, pos, n, cls).value.0; Named(g, []) && Sized(g)
    decreases n
  {
    if n > 0 {
      RowNamed(f, d, pos, cls);
      RowsNamed(AddRow(f, d, pos, cls), d, pos + RowWidth(cls), n - 1, cls);
    }
  }

  lemma SubjectNamed(d: seq<int>, q: Query)
    requires IsBytes(d) && Asks(q) && (q.cls == 2 || q.cls == 3) && Decode(d, q.cls).Some?
    ensures Named(Decode(d, q.cls).value, NamedEntities(q)) && Sized(Decode(d, q.cls).value)
  {
    Widths();
    if q.cls == 2 { PackedAt(d, HeaderEnd(d, q.cls).value, 4); }
  }

  lemma ListingNamed(d: seq<int>, q: Query, start: nat)
    requires IsBytes(d) && q.cls !in {1, 2, 3} && HeaderEnd(d, q.cls) == Some(start) && Decode(d, q.cls).Some?
    ensures Named(Decode(d, q.cls).value, []) && Sized(Decode(d, q.cls).value)
  {
    RowsNamed(NO_FACTS, d, start + 8, UnBE(d[start..start + 8]), q.cls);
  }

  /** Whatever a record of a query's class decodes to, no dictionary lookup can fail. */
  lemma DecodedNamed(d: seq<int>, q: Query)
    requires IsBytes(d) && Asks(q) && Decode(d, q.cls).Some?
    ensures Named(Decode(d, q.cls).value, NamedEntities(q)) && Sized(Decode(d, q.cls).value)
  {
    if q.cls == 2 || q.cls == 3 {
      SubjectNamed(d, q);
    } else if q.cls != 1 {
      ListingNamed(d, q, HeaderEnd(d, q.cls).value);
    }
  }

  // What the tables hold.

  function KindOf(f: Facts, subjects: seq<Id>, e: Id): int {
    if f.subjectKind.Some? && subjects != [] && e == subjects[0] then f.subjectKind.value
    else if e in f.kinds then f.kinds[e]
    else 0
  }

  ghost predicate Points(r: Relationship, entities: seq<Id>, e: Edge) {
    && r.dependent < |entities| && r.dependency < |entities|
    && Edge(entities[r.dependent], entities[r.dependency], r.kind) == e
  }

  ghost predicate HangsOn(xs: seq<Attached>, entities: seq<Id>, subjects: seq<Id>, id: Option<Id>) {
    match id
    case None => xs == []
    case Some(x) =>
      |xs| == 1 && xs[0].id == x && xs[0].place < |entities| && subjects != [] && entities[xs[0].place] == subjects[0]
  }

  ghost predicate IsTables(t: Tables, f: Facts, subjects: seq<Id>) {
    && IsListing(t.entities, Elements(f.ids) + Elements(subjects), BytesLess)
    && |t.kinds| == |t.entities|
    && (forall i :: 0 <= i < |t.kinds| ==> t.kinds[i] == KindOf(f, subjects, t.entities[i]))
    && |t.relationships| == |f.edges|
    && (forall i :: 0 <= i < |f.edges| ==> Points(t.relationships[i], t.entities, f.edges[i]))
    && IsListing(t.roots, Elements(f.roots), BytesLess)
    && HangsOn(t.objects, t.entities, subjects, f.obj)
    && HangsOn(t.fingerprints, t.entities, subjects, f.fingerprint)
  }

  /** The dictionary `{entity: position}`. */
  ghost predicate IsIndex(index: map<Id, nat>, entities: seq<Id>) {
    && (forall i :: 0 <= i < |entities| ==> entities[i] in index)
    && (forall e :: e in index ==> index[e] < |entities| && entities[index[e]] == e)
  }

  method IndexOf(entities: seq<Id>) returns (index: map<Id, nat>)
    ensures IsIndex(index, entities)
  {
    index := map[];
    for i := 0 to |entities|
      invariant forall k :: 0 <= k < i ==> entities[k] in index
      invariant forall e :: e in index ==> index[e] < i && entities[index[e]] == e
    {
      index := index[entities[i] := i];
    }
  }

  /** All zeros, then one assignment for every kind fact. */
  method KindTable(f: Facts, subjects: seq<Id>, entities: seq<Id>, index: map<Id, nat>) returns (kinds: seq<int>)
    requires Distinct(entities) && IsIndex(index, entities)
    requires forall k :: k in f.kinds ==> k in index
    requires f.subjectKind.Some? ==> subjects != [] && subjects[0] in index
    ensures |kinds| == |entities| && forall i :: 0 <= i < |kinds| ==> kinds[i] == KindOf(f, subjects, entities[i])
  {
    kinds := seq(|entities|, _ => 0);
    var todo := f.kinds.Keys;
    while todo != {}
      invariant todo <= f.kinds.Keys && |kinds| == |entities|
      invariant forall i :: 0 <= i < |kinds| ==>
                  kinds[i] == if entities[i] in f.kinds && entities[i] !in todo then f.kinds[entities[i]] else 0
      decreases |todo|
    {
      var e :| e in todo;
      kinds := kinds[index[e] := f.kinds[e]];
      todo := todo - {e};
    }
    if f.subjectKind.Some? { kinds := kinds[index[subjects[0]] := f.subjectKind.value]; }
  }

  method RelationshipTable(f: Facts, entities: seq<Id>, index: map<Id, nat>) returns (r: seq<Relationship>)
    requires IsIndex(index, entities)
    requires forall i :: 0 <= i < |f.edges| ==> f.edges[i].dependent in index && f.edges[i].dependency in index
    ensures |r| == |f.edges| && forall i :: 0 <= i < |r| ==> Points(r[i], entities, f.edges[i])
  {
    r := seq(|f.edges|, i requires 0 <= i < |f.edges| =>
      Relationship(index[f.edges[i].dependent], index[f.edges[i].dependency], f.edges[i].kind));
  }

  /** The tables `build` writes. */
  method BuildTables(f: Facts, subjects: seq<Id>) returns (t: Tables)
    requires Named(f, subjects)
    ensures IsTables(t, f, subjects)
  {
    BytesTotal();
    var named := (set x | x in f.ids) + (set x | x in subjects);
    var entities := Listing(named, BytesLess);
    AscendingDistinct(entities, BytesLess);
    var index := IndexOf(entities);
    forall x | x in f.ids || x in subjects ensures x in index { assert x in Elements(entities); }
    var kinds := KindTable(f, subjects, entities, index);
    var relationships := RelationshipTable(f, entities, index);
    var roots := Listing((set x | x in f.roots), BytesLess);
    var objects := if f.obj.Some? then [Attached(index[subjects[0]], f.obj.value)] else [];
    var fingerprints := if f.fingerprint.Some? then [Attached(index[subjects[0]], f.fingerprint.value)] else [];
    t := Tables(entities, kinds, relationships, roots, objects, fingerprints);
  }

  // Nothing is lost.

  ghost predicate InRange(t: Tables) {
    && (forall i :: 0 <= i < |t.relationships| ==>
         t.relationships[i].dependent < |t.entities| && t.relationships[i].dependency < |t.entities|)
    && (forall i :: 0 <= i < |t.objects| ==> t.objects[i].place < |t.entities|)
    && (forall i :: 0 <= i < |t.fingerprints| ==> t.fingerprints[i].place < |t.entities|)
    && |t.kinds| == |t.entities|
  }

  ghost function RestoredEdges(t: Tables): seq<Edge>
    requires InRange(t)
  {
    seq(|t.relationships|, i requires 0 <= i < |t.relationships| =>
      Edge(t.entities[t.relationships[i].dependent], t.entities[t.relationships[i].dependency],
        t.relationships[i].kind))
  }

  ghost function RestoredIds(t: Tables): set<Id> { Elements(t.entities) }

  /** A table entry of kind 0 reads as no kind. */
  ghost function RestoredKinds(t: Tables): set<(Id, int)>
    requires InRange(t)
  {
    set i | 0 <= i < |t.entities| && t.kinds[i] != 0 :: (t.entities[i], t.kinds[i])
  }

  ghost function KindFacts(f: Facts, subjects: seq<Id>): set<(Id, int)> {
    (set k | k in f.kinds && !(f.subjectKind.Some? && subjects != [] && k == subjects[0]) :: (k, f.kinds[k]))
    + if f.subjectKind.Some? && subjects != [] then {(subjects[0], f.subjectKind.value)} else {}
  }

  /** Reading the tables back through the entity table restores the edges in order, the identities, the roots, and
      the object and fingerprint of the subject. The kinds come back exactly when no kind fact is 0. */
  lemma TablesRestore(t: Tables, f: Facts, subjects: seq<Id>)
    requires Named(f, subjects) && IsTables(t, f, subjects)
    ensures InRange(t) && RestoredEdges(t) == f.edges
    ensures RestoredIds(t) == Elements(f.ids) + Elements(subjects) && Elements(t.roots) == Elements(f.roots)
    ensures f.obj == if t.objects == [] then None else Some(t.objects[0].id)
    ensures f.fingerprint == if t.fingerprints == [] then None else Some(t.fingerprints[0].id)
    ensures forall a :: a in t.objects || a in t.fingerprints ==> t.entities[a.place] == subjects[0]
    ensures RestoredKinds(t) == KindFacts(f, subjects) <==> forall p :: p in KindFacts(f, subjects) ==> p.1 != 0
  {
    KindsRestore(t, f, subjects);
    forall i | 0 <= i < |f.edges| ensures RestoredEdges(t)[i] == f.edges[i] {
      assert Points(t.relationships[i], t.entities, f.edges[i]);
    }
  }

  lemma KindFactIs(f: Facts, subjects: seq<Id>, e: Id, kind: int)
    requires kind != 0
    ensures (e, kind) in KindFacts(f, subjects) <==> KindOf(f, subjects, e) == kind
  {
  }

  lemma KindsRestore(t: Tables, f: Facts, subjects: seq<Id>)
    requires Named(f, subjects) && IsTables(t, f, subjects) && InRange(t)
    ensures RestoredKinds(t) == (set p | p in KindFacts(f, subjects) && p.1 != 0)
    ensures RestoredKinds(t) == KindFacts(f, subjects) <==> forall p :: p in KindFacts(f, subjects) ==> p.1 != 0
  {
    forall e: Id, kind | kind != 0 ensures (e, kind) in RestoredKinds(t) <==> (e, kind) in KindFacts(f, subjects) {
      KindFactIs(f, subjects, e, kind);
      if (e, kind) in KindFacts(f, subjects) {
        assert e in Elements(f.ids) + Elements(subjects);
        assert e in Elements(t.entities);
        var i :| 0 <= i < |t.entities| && t.entities[i] == e;
        assert t.kinds[i] == kind;
      }
    }
  }

  /** Two sets of facts about the same subjects get the same tables exactly when they agree on everything but the
      order and repetition of identities and roots, and kind facts of 0. */
  lemma SameTables(t: Tables, u: Tables, f: Facts, g: Facts, subjects: seq<Id>)
    requires Named(f, subjects) && Named(g, subjects) && IsTables(t, f, subjects) && IsTables(u, g, subjects)
    ensures t == u <==>
            && Elements(f.ids) + Elements(subjects) == Elements(g.ids) + Elements(subjects)
            && (forall e :: KindOf(f, subjects, e) == KindOf(g, subjects, e))
            && f.edges == g.edges && Elements(f.roots) == Elements(g.roots)
            && f.obj == g.obj && f.fingerprint == g.fingerprint
  {
    if t == u {
      TablesRestore(t, f, subjects);
      TablesRestore(u, g, subjects);
      forall e ensures KindOf(f, subjects, e) == KindOf(g, subjects, e) { KindsRead(t, f, g, subjects, e); }
    }
    if && Elements(f.ids) + Elements(subjects) == Elements(g.ids) + Elements(subjects)
       && (forall e :: KindOf(f, subjects, e) == KindOf(g, subjects, e))
       && f.edges == g.edges && Elements(f.roots) == Elements(g.roots)
       && f.obj == g.obj && f.fingerprint == g.fingerprint {
      TablesDetermined(t, u, f, g, subjects);
    }
  }

  lemma KindsRead(t: Tables, f: Facts, g: Facts, subjects: seq<Id>, e: Id)
    requires Named(f, subjects) && Named(g, subjects) && IsTables(t, f, subjects) && IsTables(t, g, subjects)
    ensures KindOf(f, subjects, e) == KindOf(g, subjects, e)
  {
    if e in Elements(t.entities) {
      var i :| 0 <= i < |t.entities| && t.entities[i] == e;
      assert t.kinds[i] == KindOf(f, subjects, e) == KindOf(g, subjects, e);
    } else {
      assert e !in Elements(f.ids) + Elements(subjects) && e !in Elements(g.ids) + Elements(subjects);
    }
  }

  lemma TablesDetermined(t: Tables, u: Tables, f: Facts, g: Facts, subjects: seq<Id>)
    requires IsTables(t, f, subjects) && IsTables(u, g, subjects)
    requires Elements(f.ids) + Elements(subjects) == Elements(g.ids) + Elements(subjects)
    requires forall e :: KindOf(f, subjects, e) == KindOf(g, subjects, e)
    requires f.edges == g.edges && Elements(f.roots) == Elements(g.roots)
    requires f.obj == g.obj && f.fingerprint == g.fingerprint
    ensures t == u
  {
    BytesTotal();
    ListingUnique(t.entities, u.entities, Elements(f.ids) + Elements(subjects), BytesLess);
    ListingUnique(t.roots, u.roots, Elements(f.roots), BytesLess);
    AscendingDistinct(t.entities, BytesLess);
    assert t.kinds == u.kinds;
    forall i | 0 <= i < |f.edges| ensures t.relationships[i] == u.relationships[i] {
      assert Points(t.relationships[i], t.entities, f.edges[i]) && Points(u.relationships[i], t.entities, f.edges[i]);
    }
    assert t.relationships == u.relationships;
    assert t.objects == u.objects;
    assert t.fingerprints == u.fingerprints;
  }
}
