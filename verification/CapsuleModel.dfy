/** Continuation cursors, questions and the `SLEYCCP1` capsule: their parts and how they print. */
module CapsuleModel {
  import opened Bytes
  import opened Wrappers

  type Id = seq<int>

  /** The tag of a cursor dictionary that is neither an entity nor a root cursor. */
  type LinkTag = t: int | t != CURSOR_ENTITY && t != CURSOR_ROOT witness CURSOR_EDGE

  datatype After = EntityAt(entity: Id) | RootAt(root: Id)
    | LinkAt(tag: LinkTag, dependent: Id, dependency: Id, kind: int)

  datatype Ask = Nothing | OfEntity(entity: Id) | OfKind(kind: int) | OfFilter(subject: Id, kinds: seq<int>)
    | OfSeeds(seeds: seq<Id>)

  /** A query: its class and what the class asks about. */
  datatype Query = Query(cls: int, ask: Ask)

  datatype Limits = Limits(entities: int, edges: int, depth: int, bytes: int, work: int)

  datatype Question = Question(query: Query, limits: Limits, continuation: bool, after: Option<After>)

  datatype Edge = Edge(dependent: Id, dependency: Id, kind: int)

  /** An edge, and an identity attached to an entity, by places in the entity table. */
  datatype Relationship = Relationship(dependent: nat, dependency: nat, kind: int)

  datatype Attached = Attached(place: nat, id: Id)

  datatype Tables = Tables(entities: seq<Id>, kinds: seq<int>, relationships: seq<Relationship>, roots: seq<Id>,
                           objects: seq<Attached>, fingerprints: seq<Attached>)

  datatype Context = Context(workspace: Id, epoch: Id, root: Id, snapshot: Id)

  datatype Status = Status(completeness: int, truncated: bool, total: int, returned: int, omitted: int,
                           next: Option<After>)

  datatype Capsule = Capsule(context: Context, queryId: Id, session: Option<Id>, question: Question, status: Status,
                             record: seq<int>, tables: Tables)

  const DOMAIN := Ascii("sley2.context-capsule.v1")
  const MAGIC := [83, 76, 69, 89, 67, 67, 80, 49]
  const RESPONSE_MAGIC := [83, 76, 69, 89, 82, 81, 82, 49]
  const SESSION_NONE := 1
  const SESSION_NEGOTIATED := 2
  const COMPLETE := 1
  const PAGE := 2
  const FLAG_FALSE := 1
  const FLAG_TRUE := 2
  const OPTION_NONE := 1
  const OPTION_SOME := 2
  const CURSOR_ENTITY := 1
  const CURSOR_EDGE := 2
  const CURSOR_ROOT := 3

  predicate EntityClass(cls: int) { cls in {2, 3, 6, 7, 8, 9, 16, 17, 18, 19} }

  /** What a query of each class carries. */
  predicate Asks(q: Query) {
    if EntityClass(q.cls) then q.ask.OfEntity?
    else if q.cls == 4 then q.ask.OfKind?
    else if q.cls == 12 || q.cls == 13 then q.ask.OfFilter?
    else if q.cls == 14 || q.cls == 15 then q.ask.OfSeeds?
    else q.ask.Nothing?
  }

  /** `named_entities` */
  function NamedEntities(q: Query): seq<Id> {
    match q.ask
    case OfEntity(e) => [e]
    case OfFilter(e, _) => [e]
    case OfSeeds(seeds) => seeds
    case _ => []
  }

  // What can be packed. `struct.pack` raises on anything else.

  predicate Fits32(v: int) { 0 <= v < LIMIT32 }

  predicate Fits64(v: int) { 0 <= v < LIMIT64 }

  predicate All32(vs: seq<int>) { forall i :: 0 <= i < |vs| ==> Fits32(vs[i]) }

  predicate CursorPacks(c: Option<After>) {
    c.Some? && c.value.LinkAt? ==> Fits32(c.value.tag) && Fits32(c.value.kind)
  }

  predicate AskPacks(a: Ask) {
    match a
    case OfKind(kind) => Fits32(kind)
    case OfFilter(_, kinds) => |kinds| < LIMIT64 && All32(kinds)
    case OfSeeds(seeds) => |seeds| < LIMIT64
    case _ => true
  }

  predicate LimitsPack(l: Limits) {
    Fits64(l.entities) && Fits64(l.edges) && Fits32(l.depth) && Fits64(l.bytes) && Fits64(l.work)
  }

  predicate QuestionPacks(q: Question) {
    Fits32(q.query.cls) && AskPacks(q.query.ask) && LimitsPack(q.limits) && CursorPacks(q.after)
  }

  predicate StatusPacks(s: Status) {
    Fits32(s.completeness) && Fits64(s.total) && Fits64(s.returned) && Fits64(s.omitted) && CursorPacks(s.next)
  }

  predicate TablesPack(t: Tables) {
    && All32(t.kinds)
    && (forall i :: 0 <= i < |t.relationships| ==>
         Fits32(t.relationships[i].dependent) && Fits32(t.relationships[i].dependency)
           && Fits32(t.relationships[i].kind))
    && (forall i :: 0 <= i < |t.objects| ==> Fits32(t.objects[i].place))
    && (forall i :: 0 <= i < |t.fingerprints| ==> Fits32(t.fingerprints[i].place))
    && |t.entities| < LIMIT64 && |t.kinds| < LIMIT64 && |t.relationships| < LIMIT64 && |t.roots| < LIMIT64
    && |t.objects| < LIMIT64 && |t.fingerprints| < LIMIT64
  }

  predicate CapsulePacks(c: Capsule) {
    QuestionPacks(c.question) && StatusPacks(c.status) && |c.record| < LIMIT64 && TablesPack(c.tables)
  }

  // Printing.

  function EncodeCursor(c: Option<After>): seq<int>
    requires CursorPacks(c)
  {
    match c
    case None => U32(OPTION_NONE)
    case Some(EntityAt(e)) => U32(OPTION_SOME) + (U32(CURSOR_ENTITY) + e)
    case Some(RootAt(r)) => U32(OPTION_SOME) + (U32(CURSOR_ROOT) + r)
    case Some(LinkAt(tag, from, to, kind)) => U32(OPTION_SOME) + (U32(tag) + (from + (to + U32(kind))))
  }

  function EncodeLimits(l: Limits): seq<int>
    requires LimitsPack(l)
  {
    U64(l.entities) + (U64(l.edges) + (U32(l.depth) + (U64(l.bytes) + U64(l.work))))
  }

  function Flat(rows: seq<seq<int>>): seq<int> {
    if rows == [] then [] else rows[0] + Flat(rows[1..])
  }

  /** A count and that many rows. */
  function Counted(rows: seq<seq<int>>): seq<int> {
    U64(|rows|) + Flat(rows)
  }

  function Words(vs: seq<int>): seq<seq<int>>
    requires All32(vs)
  {
    seq(|vs|, i requires 0 <= i < |vs| => U32(vs[i]))
  }

  function EncodeAsk(a: Ask): seq<int>
    requires AskPacks(a)
  {
    match a
    case Nothing => []
    case OfEntity(e) => e
    case OfKind(kind) => U32(kind)
    case OfFilter(e, kinds) => e + Counted(Words(kinds))
    case OfSeeds(seeds) => Counted(seeds)
  }

  function Flag(b: bool): seq<int> { U32(if b then FLAG_TRUE else FLAG_FALSE) }

  function EncodeQuery(q: Query): seq<int>
    requires Fits32(q.cls) && AskPacks(q.ask)
  {
    U32(q.cls) + EncodeAsk(q.ask)
  }

  function EncodeTerms(limits: Limits, continuation: bool, after: Option<After>): seq<int>
    requires LimitsPack(limits) && CursorPacks(after)
  {
    EncodeLimits(limits) + (Flag(continuation) + EncodeCursor(after))
  }

  function EncodeQuestion(q: Question): seq<int>
    requires QuestionPacks(q)
  {
    EncodeQuery(q.query) + EncodeTerms(q.limits, q.continuation, q.after)
  }

  function EncodeSession(s: Option<Id>): seq<int> {
    match s case None => U32(SESSION_NONE) case Some(id) => U32(SESSION_NEGOTIATED) + id
  }

  function EncodeStatus(s: Status): seq<int>
    requires StatusPacks(s)
  {
    U32(s.completeness)
      + (Flag(s.truncated) + (U64(s.total) + (U64(s.returned) + (U64(s.omitted) + EncodeCursor(s.next)))))
  }

  function RelationshipRow(r: Relationship): seq<int>
    requires r.kind >= 0
  {
    U32(r.dependent) + (U32(r.dependency) + U32(r.kind))
  }

  function RelationshipRows(rs: seq<Relationship>): seq<seq<int>>
    requires forall i :: 0 <= i < |rs| ==> rs[i].kind >= 0
  {
    seq(|rs|, i requires 0 <= i < |rs| => RelationshipRow(rs[i]))
  }

  function AttachedRows(xs: seq<Attached>): seq<seq<int>> {
    seq(|xs|, i requires 0 <= i < |xs| => U32(xs[i].place) + xs[i].id)
  }

  /** Entities, their kinds, and the relationships between them. */
  function EncodeGraph(t: Tables): seq<int>
    requires TablesPack(t)
  {
    Counted(t.entities) + (Counted(Words(t.kinds)) + Counted(RelationshipRows(t.relationships)))
  }

  /** Roots, and what hangs on the subject. */
  function EncodeRoots(t: Tables): seq<int> {
    Counted(t.roots) + (Counted(AttachedRows(t.objects)) + Counted(AttachedRows(t.fingerprints)))
  }

  function EncodeTables(t: Tables): seq<int>
    requires TablesPack(t)
  {
    EncodeGraph(t) + EncodeRoots(t)
  }

  function EncodeContext(c: Context, queryId: Id): seq<int> {
    MAGIC + (U32(1) + (U32(1) + (c.workspace + (c.epoch + (c.root + (c.snapshot + queryId))))))
  }

  /** Who asked what: context, session, question. */
  function EncodeAsked(c: Capsule): seq<int>
    requires QuestionPacks(c.question)
  {
    EncodeContext(c.context, c.queryId) + (EncodeSession(c.session) + EncodeQuestion(c.question))
  }

  /** The answer: status, the response record behind its length, the tables. */
  function EncodeAnswer(c: Capsule): seq<int>
    requires StatusPacks(c.status) && |c.record| < LIMIT64 && TablesPack(c.tables)
  {
    EncodeStatus(c.status) + ((U64(|c.record|) + c.record) + EncodeTables(c.tables))
  }

  function Preimage(c: Capsule): seq<int>
    requires CapsulePacks(c)
  {
    EncodeAsked(c) + EncodeAnswer(c)
  }
}
