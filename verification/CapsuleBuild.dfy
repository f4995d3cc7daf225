/** Building a capsule from a question and the response record that answers it. */
module CapsuleBuild {
  import opened Order
  import opened Bytes
  import opened CapsuleModel
  import opened CapsuleDecode
  import opened CapsuleRows
  import opened CapsuleTables
  import opened CapsulePreimage
  import opened Wrappers

  /** A vector: what was asked, the response record, its counts, and the session the capsule is bound to. */
  datatype Vector = Vector(question: Question, queryId: Id, record: seq<int>, total: int, returned: int,
                           next: Option<After>, binding: int, session: Option<Id>)

  datatype Refusal = Undecodable | NoSession | NotPackable

  datatype Outcome = Refused(why: Refusal) | Built(record: seq<int>)

  /** A capsule is complete when it starts at the beginning and nothing is left. */
  ghost predicate IsStatus(s: Status, v: Vector) {
    && s.total == v.total && s.returned == v.returned && s.returned + s.omitted == s.total && s.next == v.next
    && (s.truncated <==> v.next.Some?)
    && (s.completeness == COMPLETE <==> v.next.None? && v.question.after.None?)
    && s.completeness in {COMPLETE, PAGE}
  }

  ghost predicate IsCapsule(c: Capsule, context: Context, v: Vector) {
    var facts := Decode(v.record, v.question.query.cls);
    && c.context == context && c.queryId == v.queryId && c.question == v.question && c.record == v.record
    && c.session == (if v.binding == SESSION_NEGOTIATED then v.session else None)
    && IsStatus(c.status, v)
    && facts.Some? && IsTables(c.tables, facts.value, NamedEntities(v.question.query))
  }

  /** `build`. `c` is the capsule whose record it writes. */
  method Build(context: Context, v: Vector, hash: seq<int> -> seq<int>) returns (r: Outcome, ghost c: Option<Capsule>)
    requires IsBytes(v.record) && Asks(v.question.query)
    ensures r == Refused(Undecodable) <==> Decode(v.record, v.question.query.cls).None?
    ensures r == Refused(NoSession) <==>
            Decode(v.record, v.question.query.cls).Some? && v.binding == SESSION_NEGOTIATED && v.session.None?
    ensures c.Some? <==> r.Built? || r.why == NotPackable
    ensures c.Some? ==> IsCapsule(c.value, context, v) && (CapsulePacks(c.value) <==> r.Built?)
    ensures r.Built? ==> r.record == Preimage(c.value) + hash(DOMAIN + Preimage(c.value))
  {
    c := None;
    var query := v.question.query;
    var facts, _ := DecodePayload(v.record, query.cls);
    if facts.None? { return Refused(Undecodable), c; }
    if v.binding == SESSION_NEGOTIATED && v.session.None? { return Refused(NoSession), c; }
    DecodedNamed(v.record, query);
    var tables := BuildTables(facts.value, NamedEntities(query));
    var truncated := v.next.Some?;
    var completeness := if !truncated && v.question.after.None? then COMPLETE else PAGE;
    var status := Status(completeness, truncated, v.total, v.returned, v.total - v.returned, v.next);
    var session := if v.binding == SESSION_NEGOTIATED then v.session else None;
    var capsule := Capsule(context, v.queryId, session, v.question, status, v.record, tables);
    c := Some(capsule);
    if !CapsulePacks(capsule) { return Refused(NotPackable), c; }
    var preimage := Preimage(capsule);
    return Built(preimage + hash(DOMAIN + preimage)), c;
  }

  lemma Few(t: Tables, f: Facts, subjects: seq<Id>)
    requires IsTables(t, f, subjects)
    ensures |t.entities| <= |f.ids| + |subjects| && |t.roots| <= |f.roots|
    ensures |t.objects| <= 1 && |t.fingerprints| <= 1 && |t.relationships| == |f.edges|
  {
    BytesTotal();
    ListingLength(t.entities, Elements(f.ids) + Elements(subjects), BytesLess);
    ListingLength(t.roots, Elements(f.roots), BytesLess);
    DistinctCount(f.ids);
    DistinctCount(subjects);
    DistinctCount(f.roots);
  }

  /** Places of the entity table that are written somewhere fit 32 bits. */
  ghost predicate PlacesPack(t: Tables) {
    && (forall i :: 0 <= i < |t.relationships| ==>
         Fits32(t.relationships[i].dependent) && Fits32(t.relationships[i].dependency))
    && (forall i :: 0 <= i < |t.objects| ==> Fits32(t.objects[i].place))
    && (forall i :: 0 <= i < |t.fingerprints| ==> Fits32(t.fingerprints[i].place))
  }

  lemma KindsFit(t: Tables, f: Facts, subjects: seq<Id>)
    requires Named(f, subjects) && Sized(f) && IsTables(t, f, subjects)
    ensures All32(t.kinds) && forall i :: 0 <= i < |t.relationships| ==> Fits32(t.relationships[i].kind)
  {
    forall i | 0 <= i < |t.relationships| ensures Fits32(t.relationships[i].kind) {
      assert Points(t.relationships[i], t.entities, f.edges[i]);
    }
  }

  lemma TablesFit(t: Tables, f: Facts, subjects: seq<Id>)
    requires Named(f, subjects) && Sized(f) && IsTables(t, f, subjects) && |f.roots| < LIMIT64 && |f.edges| < LIMIT64
    ensures TablesPack(t) <==> PlacesPack(t) && |t.entities| < LIMIT64
  {
    Few(t, f, subjects);
    KindsFit(t, f, subjects);
  }

  /** Packing a capsule fails exactly when the question or the next cursor holds an integer of the wrong width, the
      response returned more than it counted, or the record, the entity table or a place in it is too large. */
  lemma PacksExactly(c: Capsule, context: Context, v: Vector)
    requires IsBytes(v.record) && Asks(v.question.query) && IsCapsule(c, context, v)
    ensures CapsulePacks(c) <==>
            && QuestionPacks(v.question) && CursorPacks(v.next) && 0 <= v.returned <= v.total < LIMIT64
            && |v.record| < LIMIT64 && |c.tables.entities| < LIMIT64 && PlacesPack(c.tables)
  {
    var query := v.question.query;
    var facts := Decode(v.record, query.cls).value;
    DecodedNamed(v.record, query);
    DecodedCounts(v.record, query.cls);
    if |v.record| < LIMIT64 { TablesFit(c.tables, facts, NamedEntities(query)); }
    StatusFits(c.status, v);
  }

  /** With fewer than 2^32 identities every place fits. */
  lemma FewPlaces(c: Capsule, context: Context, v: Vector)
    requires IsCapsule(c, context, v)
    requires |Decode(v.record, v.question.query.cls).value.ids| + |NamedEntities(v.question.query)| < LIMIT32
    ensures |c.tables.entities| < LIMIT64 && PlacesPack(c.tables)
  {
    var facts := Decode(v.record, v.question.query.cls).value;
    Few(c.tables, facts, NamedEntities(v.question.query));
    forall i | 0 <= i < |c.tables.relationships|
      ensures Fits32(c.tables.relationships[i].dependent) && Fits32(c.tables.relationships[i].dependency)
    {
      assert Points(c.tables.relationships[i], c.tables.entities, facts.edges[i]);
    }
  }

  lemma StatusFits(s: Status, v: Vector)
    requires IsStatus(s, v)
    ensures StatusPacks(s) <==> CursorPacks(v.next) && 0 <= v.returned <= v.total < LIMIT64
  {
  }

  /** Every identity of the vector is 32 bytes. */
  ghost predicate VectorSized(context: Context, v: Vector) {
    ContextSized(context, v.queryId) && QuestionSized(v.question) && CursorSized(v.next)
      && (v.session.Some? ==> |v.session.value| == 32)
  }

  lemma BuiltTablesSized(t: Tables, f: Facts, subjects: seq<Id>)
    requires Sized(f) && IsTables(t, f, subjects) && Wide(subjects, 32)
    ensures TablesSized(t)
  {
    forall i | 0 <= i < |t.entities| ensures |t.entities[i]| == 32 {
      assert t.entities[i] in Elements(f.ids) + Elements(subjects);
    }
    forall i | 0 <= i < |t.roots| ensures |t.roots[i]| == 32 { assert t.roots[i] in Elements(f.roots); }
  }

  lemma BuiltSized(c: Capsule, context: Context, v: Vector)
    requires IsBytes(v.record) && VectorSized(context, v) && IsCapsule(c, context, v)
    ensures CapsuleSized(c)
  {
    var query := v.question.query;
    DecodedNamed(v.record, query);
    BuiltTablesSized(c.tables, Decode(v.record, query.cls).value, NamedEntities(query));
  }

  /** What a question names stands in the entity table. */
  ghost predicate AskedListed(a: Ask, entities: seq<Id>) {
    match a
    case OfEntity(e) => e in entities
    case OfFilter(e, _) => e in entities
    case OfSeeds(seeds) => forall s :: s in seeds ==> s in entities
    case _ => true
  }

  lemma SubjectsListed(a: Ask, q: Query, entities: seq<Id>)
    requires q.ask == a && Elements(NamedEntities(q)) <= Elements(entities)
    ensures AskedListed(a, entities)
  {
    forall e | e in NamedEntities(q) ensures e in entities { assert e in Elements(NamedEntities(q)); }
  }

  /** What a reader of the layout finds in a written capsule: the vector's question, record and counts, and tables that
      give the facts of the record back. */
  lemma WrittenFacts(c: Capsule, context: Context, v: Vector)
    requires IsBytes(v.record) && VectorSized(context, v) && IsCapsule(c, context, v) && CapsulePacks(c)
    ensures var f, subjects := Decode(v.record, v.question.query.cls).value, NamedEntities(v.question.query);
            var found := ReadCapsule(Preimage(c)); var t := found.tables;
            && found.context == context && found.queryId == v.queryId && found.question == v.question
            && found.record == v.record && IsStatus(found.status, v)
            && InRange(t) && RestoredEdges(t) == f.edges
            && RestoredIds(t) == Elements(f.ids) + Elements(subjects) && Elements(t.roots) == Elements(f.roots)
            && f.obj == (if t.objects == [] then None else Some(t.objects[0].id))
            && f.fingerprint == (if t.fingerprints == [] then None else Some(t.fingerprints[0].id))
            && (forall i :: 0 <= i < |t.entities| ==> t.kinds[i] == KindOf(f, subjects, t.entities[i]))
            && AskedListed(v.question.query.ask, t.entities)
  {
    BuiltSized(c, context, v);
    CapsuleReads(c);
    DecodedNamed(v.record, v.question.query);
    TablesRestore(c.tables, Decode(v.record, v.question.query.cls).value, NamedEntities(v.question.query));
    SubjectsListed(v.question.query.ask, v.question.query, c.tables.entities);
  }

  /** One capsule identity under two vectors: they asked the same question in the same context and session, and were
      answered by the same record with the same counts. */
  lemma CapsuleBinds(a: Capsule, x: Context, v: Vector, b: Capsule, y: Context, w: Vector)
    requires IsBytes(v.record) && VectorSized(x, v) && IsCapsule(a, x, v) && CapsulePacks(a)
    requires IsBytes(w.record) && VectorSized(y, w) && IsCapsule(b, y, w) && CapsulePacks(b)
    requires Preimage(a) == Preimage(b)
    ensures x == y && v.queryId == w.queryId && v.question == w.question && v.record == w.record
    ensures v.total == w.total && v.returned == w.returned && v.next == w.next
    ensures a.session == b.session
  {
    BuiltSized(a, x, v);
    BuiltSized(b, y, w);
    PreimageInjective(a, b);
  }
}
