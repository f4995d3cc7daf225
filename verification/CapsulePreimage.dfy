/** What stands where in a capsule's preimage: a reader of the layout gives the whole capsule back. */
module CapsulePreimage {
  import opened Bytes
  import opened CapsuleModel
  import opened CapsuleDecode
  import opened Wrappers

  // Fields at a place. Past the end there is nothing to read.

  ghost function Field(d: seq<int>, pos: nat, width: nat): seq<int> {
    if pos + width <= |d| then d[pos..pos + width] else []
  }

  ghost function Num(d: seq<int>, pos: nat, width: nat): nat {
    var v := UnBE(Field(d, pos, width));
    if v < 0 then 0 else v
  }

  lemma FieldAt(d: seq<int>, pos: nat, s: seq<int>)
    requires At(d, pos, s)
    ensures Field(d, pos, |s|) == s
  {
  }

  lemma Num32(d: seq<int>, pos: nat, v: nat)
    requires v < LIMIT32 && At(d, pos, U32(v))
    ensures Num(d, pos, 4) == v
  {
    Widths();
    ReadPacked(d, pos, v, 4);
  }

  lemma Num64(d: seq<int>, pos: nat, v: nat)
    requires v < LIMIT64 && At(d, pos, U64(v))
    ensures Num(d, pos, 8) == v
  {
    Widths();
    ReadPacked(d, pos, v, 8);
  }

  lemma Split2(d: seq<int>, pos: nat, a: seq<int>, b: seq<int>) returns (next: nat)
    requires At(d, pos, a + b)
    ensures next == pos + |a| && At(d, pos, a) && At(d, next, b)
  {
    next := pos + |a|;
    AtSplit(d, pos, a, b);
  }

  lemma Split3(d: seq<int>, pos: nat, a: seq<int>, b: seq<int>, c: seq<int>) returns (p: nat, q: nat, next: nat)
    requires At(d, pos, a + (b + c))
    ensures p == pos + |a| && q == p + |b| && next == q + |c| == pos + |a + (b + c)|
    ensures At(d, pos, a) && At(d, p, b) && At(d, q, c)
  {
    p := Split2(d, pos, a, b + c);
    q := Split2(d, p, b, c);
    next := q + |c|;
  }

  // Counted rows of one width.

  ghost predicate Wide(rows: seq<seq<int>>, w: nat) {
    forall i :: 0 <= i < |rows| ==> |rows[i]| == w
  }

  /** The place behind a counted list of rows. */
  ghost function Past(d: seq<int>, pos: nat, w: nat): nat {
    pos + 8 + w * Num(d, pos, 8)
  }

  lemma {:induction false} FlatLength(rows: seq<seq<int>>, w: nat)
    requires Wide(rows, w)
    ensures |Flat(rows)| == w * |rows|
    decreases |rows|
  {
    if rows != [] { FlatLength(rows[1..], w); }
  }

  lemma {:induction false} FlatAt(d: seq<int>, pos: nat, rows: seq<seq<int>>, w: nat, i: nat)
    requires Wide(rows, w) && At(d, pos, Flat(rows)) && i < |rows|
    ensures At(d, pos + w * i, rows[i])
    decreases i
  {
    AtSplit(d, pos, rows[0], Flat(rows[1..]));
    if i > 0 {
      FlatAt(d, pos + w, rows[1..], w, i - 1);
      assert w + w * (i - 1) == w * i;
    }
  }

  /** The place of row `i` behind the count at `pos`. */
  ghost function RowPlace(pos: nat, w: nat, i: nat): nat {
    pos + 8 + w * i
  }

  lemma RowsAt(d: seq<int>, pos: nat, rows: seq<seq<int>>, w: nat)
    requires Wide(rows, w) && |rows| < LIMIT64 && At(d, pos, Counted(rows))
    ensures Num(d, pos, 8) == |rows| && Past(d, pos, w) == pos + |Counted(rows)|
    ensures forall i :: 0 <= i < |rows| ==> At(d, RowPlace(pos, w, i), rows[i])
  {
    var next := Split2(d, pos, U64(|rows|), Flat(rows));
    Num64(d, pos, |rows|);
    FlatLength(rows, w);
    forall i | 0 <= i < |rows| ensures At(d, RowPlace(pos, w, i), rows[i]) {
      FlatAt(d, next, rows, w, i);
      assert next + w * i == RowPlace(pos, w, i);
    }
  }

  ghost function ReadIds(d: seq<int>, pos: nat): seq<Id> {
    seq(Num(d, pos, 8), (i: nat) => Field(d, RowPlace(pos, 32, i), 32))
  }

  lemma IdsRead(d: seq<int>, pos: nat, ids: seq<Id>, next: nat)
    requires Wide(ids, 32) && |ids| < LIMIT64 && At(d, pos, Counted(ids)) && next == pos + |Counted(ids)|
    ensures ReadIds(d, pos) == ids && Past(d, pos, 32) == next
  {
    RowsAt(d, pos, ids, 32);
    forall i | 0 <= i < |ids| ensures ReadIds(d, pos)[i] == ids[i] { FieldAt(d, RowPlace(pos, 32, i), ids[i]); }
  }

  ghost function ReadNumbers(d: seq<int>, pos: nat): seq<int> {
    seq(Num(d, pos, 8), (i: nat) => Num(d, RowPlace(pos, 4, i), 4))
  }

  lemma NumbersRead(d: seq<int>, pos: nat, vs: seq<int>, next: nat)
    requires All32(vs) && |vs| < LIMIT64 && At(d, pos, Counted(Words(vs))) && next == pos + |Counted(Words(vs))|
    ensures ReadNumbers(d, pos) == vs && Past(d, pos, 4) == next
  {
    RowsAt(d, pos, Words(vs), 4);
    forall i | 0 <= i < |vs| ensures ReadNumbers(d, pos)[i] == vs[i] {
      assert At(d, RowPlace(pos, 4, i), Words(vs)[i]);
      Num32(d, RowPlace(pos, 4, i), vs[i]);
    }
  }

  /** A row of the relationship table: dependent, dependency, kind. */
  ghost function ReadRelationship(d: seq<int>, pos: nat): Relationship {
    Relationship(Num(d, pos, 4), Num(d, pos + 4, 4), Num(d, pos + 8, 4))
  }

  ghost function ReadRelationships(d: seq<int>, pos: nat): seq<Relationship> {
    seq(Num(d, pos, 8), (i: nat) => ReadRelationship(d, RowPlace(pos, 12, i)))
  }

  ghost predicate RelationshipsPack(rs: seq<Relationship>) {
    |rs| < LIMIT64 && forall i :: 0 <= i < |rs| ==>
      Fits32(rs[i].dependent) && Fits32(rs[i].dependency) && Fits32(rs[i].kind)
  }

  lemma RelationshipRead(d: seq<int>, pos: nat, r: Relationship)
    requires Fits32(r.dependent) && Fits32(r.dependency) && Fits32(r.kind) && At(d, pos, RelationshipRow(r))
    ensures ReadRelationship(d, pos) == r
  {
    Three(d, pos, U32(r.dependent), U32(r.dependency), U32(r.kind));
    Num32(d, pos, r.dependent);
    Num32(d, pos + 4, r.dependency);
    Num32(d, pos + 8, r.kind);
  }

  lemma RelationshipsRead(d: seq<int>, pos: nat, rs: seq<Relationship>, next: nat)
    requires RelationshipsPack(rs) && At(d, pos, Counted(RelationshipRows(rs)))
    requires next == pos + |Counted(RelationshipRows(rs))|
    ensures ReadRelationships(d, pos) == rs && Past(d, pos, 12) == next
  {
    RowsAt(d, pos, RelationshipRows(rs), 12);
    forall i | 0 <= i < |rs| ensures ReadRelationships(d, pos)[i] == rs[i] {
      assert At(d, RowPlace(pos, 12, i), RelationshipRows(rs)[i]);
      RelationshipRead(d, RowPlace(pos, 12, i), rs[i]);
    }
  }

  /** An identity attached to an entity: the entity's place, then the identity. */
  ghost function ReadAttached(d: seq<int>, pos: nat): Attached {
    Attached(Num(d, pos, 4), Field(d, pos + 4, 32))
  }

  ghost function ReadAttachments(d: seq<int>, pos: nat): seq<Attached> {
    seq(Num(d, pos, 8), (i: nat) => ReadAttached(d, RowPlace(pos, 36, i)))
  }

  ghost predicate AttachedPack(xs: seq<Attached>) {
    |xs| < LIMIT64 && forall i :: 0 <= i < |xs| ==> Fits32(xs[i].place) && |xs[i].id| == 32
  }

  lemma AttachedRead(d: seq<int>, pos: nat, x: Attached)
    requires Fits32(x.place) && |x.id| == 32 && At(d, pos, U32(x.place) + x.id)
    ensures ReadAttached(d, pos) == x
  {
    AtSplit(d, pos, U32(x.place), x.id);
    Num32(d, pos, x.place);
    FieldAt(d, pos + 4, x.id);
  }

  lemma AttachmentsRead(d: seq<int>, pos: nat, xs: seq<Attached>, next: nat)
    requires AttachedPack(xs) && At(d, pos, Counted(AttachedRows(xs))) && next == pos + |Counted(AttachedRows(xs))|
    ensures ReadAttachments(d, pos) == xs && Past(d, pos, 36) == next
  {
    RowsAt(d, pos, AttachedRows(xs), 36);
    forall i | 0 <= i < |xs| ensures ReadAttachments(d, pos)[i] == xs[i] {
      var at: nat := RowPlace(pos, 36, i);
      assert At(d, at, AttachedRows(xs)[i]);
      AttachedRead(d, at, xs[i]);
    }
  }

  // The six tables.

  /** Entities, kinds, relationships. */
  ghost function ReadGraph(d: seq<int>, pos: nat): (seq<Id>, seq<int>, seq<Relationship>) {
    var kindsAt := Past(d, pos, 32);
    (ReadIds(d, pos), ReadNumbers(d, kindsAt), ReadRelationships(d, Past(d, kindsAt, 4)))
  }

  ghost function PastGraph(d: seq<int>, pos: nat): nat {
    Past(d, Past(d, Past(d, pos, 32), 4), 12)
  }

  /** Roots, objects, fingerprints. */
  ghost function ReadRoots(d: seq<int>, pos: nat): (seq<Id>, seq<Attached>, seq<Attached>) {
    var objectsAt := Past(d, pos, 32);
    (ReadIds(d, pos), ReadAttachments(d, objectsAt), ReadAttachments(d, Past(d, objectsAt, 36)))
  }

  ghost function ReadTables(d: seq<int>, pos: nat): Tables {
    var (entities, kinds, relationships) := ReadGraph(d, pos);
    var (roots, objects, fingerprints) := ReadRoots(d, PastGraph(d, pos));
    Tables(entities, kinds, relationships, roots, objects, fingerprints)
  }

  ghost predicate TablesSized(t: Tables) {
    && Wide(t.entities, 32) && Wide(t.roots, 32)
    && (forall i :: 0 <= i < |t.objects| ==> |t.objects[i].id| == 32)
    && (forall i :: 0 <= i < |t.fingerprints| ==> |t.fingerprints[i].id| == 32)
  }

  lemma GraphRead(d: seq<int>, pos: nat, t: Tables, next: nat)
    requires TablesPack(t) && TablesSized(t) && At(d, pos, EncodeGraph(t)) && next == pos + |EncodeGraph(t)|
    ensures ReadGraph(d, pos) == (t.entities, t.kinds, t.relationships) && PastGraph(d, pos) == next
  {
    var p, q, r :=
      Split3(d, pos, Counted(t.entities), Counted(Words(t.kinds)), Counted(RelationshipRows(t.relationships)));
    IdsRead(d, pos, t.entities, p);
    NumbersRead(d, p, t.kinds, q);
    RelationshipsRead(d, q, t.relationships, r);
  }

  lemma RootsRead(d: seq<int>, pos: nat, t: Tables)
    requires TablesPack(t) && TablesSized(t) && At(d, pos, EncodeRoots(t))
    ensures ReadRoots(d, pos) == (t.roots, t.objects, t.fingerprints)
  {
    var p, q, r :=
      Split3(d, pos, Counted(t.roots), Counted(AttachedRows(t.objects)), Counted(AttachedRows(t.fingerprints)));
    IdsRead(d, pos, t.roots, p);
    AttachmentsRead(d, p, t.objects, q);
    AttachmentsRead(d, q, t.fingerprints, r);
  }

  /** Each of the six sections stands where the counts in front of it say, row by row. */
  lemma TablesRead(d: seq<int>, pos: nat, t: Tables)
    requires TablesPack(t) && TablesSized(t) && At(d, pos, EncodeTables(t))
    ensures ReadTables(d, pos) == t
  {
    var rootsAt := Split2(d, pos, EncodeGraph(t), EncodeRoots(t));
    GraphRead(d, pos, t, rootsAt);
    RootsRead(d, rootsAt, t);
  }

  // The question.

  ghost function ReadCursor(d: seq<int>, pos: nat): Option<After> {
    var tag := Num(d, pos + 4, 4);
    if Num(d, pos, 4) == OPTION_NONE then None
    else if tag == CURSOR_ENTITY then Some(EntityAt(Field(d, pos + 8, 32)))
    else if tag == CURSOR_ROOT then Some(RootAt(Field(d, pos + 8, 32)))
    else Some(LinkAt(tag, Field(d, pos + 8, 32), Field(d, pos + 40, 32), Num(d, pos + 72, 4)))
  }

  ghost function PastCursor(d: seq<int>, pos: nat): nat {
    match ReadCursor(d, pos)
    case None => pos + 4
    case Some(EntityAt(_)) => pos + 40
    case Some(RootAt(_)) => pos + 40
    case Some(LinkAt(_, _, _, _)) => pos + 76
  }

  lemma TagsRead(d: seq<int>, pos: nat, tag: nat, rest: seq<int>)
    requires tag < LIMIT32 && At(d, pos, U32(OPTION_SOME) + (U32(tag) + rest))
    ensures Num(d, pos, 4) == OPTION_SOME && Num(d, pos + 4, 4) == tag && At(d, pos + 8, rest)
  {
    Three(d, pos, U32(OPTION_SOME), U32(tag), rest);
    Num32(d, pos, OPTION_SOME);
    Num32(d, pos + 4, tag);
  }

  lemma CursorReads(d: seq<int>, pos: nat, c: Option<After>)
    requires CursorPacks(c) && CursorSized(c) && At(d, pos, EncodeCursor(c))
    ensures ReadCursor(d, pos) == c && PastCursor(d, pos) == pos + |EncodeCursor(c)|
  {
    match c
    case None => Num32(d, pos, OPTION_NONE);
    case Some(EntityAt(e)) =>
      TagsRead(d, pos, CURSOR_ENTITY, e);
      FieldAt(d, pos + 8, e);
    case Some(RootAt(root)) =>
      TagsRead(d, pos, CURSOR_ROOT, root);
      FieldAt(d, pos + 8, root);
    case Some(LinkAt(tag, from, to, kind)) =>
      TagsRead(d, pos, tag, from + (to + U32(kind)));
      Three(d, pos + 8, from, to, U32(kind));
      FieldAt(d, pos + 8, from);
      FieldAt(d, pos + 40, to);
      Num32(d, pos + 72, kind);
  }

  ghost predicate AskSized(a: Ask) {
    match a
    case OfEntity(e) => |e| == 32
    case OfFilter(e, _) => |e| == 32
    case OfSeeds(seeds) => Wide(seeds, 32)
    case _ => true
  }

  ghost predicate QuestionSized(q: Question) {
    Asks(q.query) && AskSized(q.query.ask) && CursorSized(q.after)
  }

  ghost function ReadAsk(d: seq<int>, pos: nat, cls: int): Ask {
    if cls in {2, 3, 6, 7, 8, 9, 16, 17, 18, 19} then OfEntity(Field(d, pos, 32))
    else if cls == 4 then OfKind(Num(d, pos, 4))
    else if cls == 12 || cls == 13 then OfFilter(Field(d, pos, 32), ReadNumbers(d, pos + 32))
    else if cls == 14 || cls == 15 then OfSeeds(ReadIds(d, pos))
    else Nothing
  }

  ghost function PastAsk(d: seq<int>, pos: nat, cls: int): nat {
    if cls in {2, 3, 6, 7, 8, 9, 16, 17, 18, 19} then pos + 32
    else if cls == 4 then pos + 4
    else if cls == 12 || cls == 13 then Past(d, pos + 32, 4)
    else if cls == 14 || cls == 15 then Past(d, pos, 32)
    else pos
  }

  lemma AskReads(d: seq<int>, pos: nat, q: Query)
    requires AskPacks(q.ask) && AskSized(q.ask) && Asks(q) && At(d, pos, EncodeAsk(q.ask))
    ensures ReadAsk(d, pos, q.cls) == q.ask && PastAsk(d, pos, q.cls) == pos + |EncodeAsk(q.ask)|
  {
    match q.ask
    case Nothing =>
    case OfEntity(e) => FieldAt(d, pos, e);
    case OfKind(kind) => Num32(d, pos, kind);
    case OfFilter(e, kinds) =>
      AtSplit(d, pos, e, Counted(Words(kinds)));
      FieldAt(d, pos, e);
      NumbersRead(d, pos + 32, kinds, pos + |EncodeAsk(q.ask)|);
    case OfSeeds(seeds) => IdsRead(d, pos, seeds, pos + |EncodeAsk(q.ask)|);
  }

  ghost function ReadLimits(d: seq<int>, pos: nat): Limits {
    Limits(Num(d, pos, 8), Num(d, pos + 8, 8), Num(d, pos + 16, 4), Num(d, pos + 20, 8), Num(d, pos + 28, 8))
  }

  lemma LimitsAt(d: seq<int>, pos: nat, l: Limits)
    requires LimitsPack(l) && At(d, pos, EncodeLimits(l))
    ensures At(d, pos, U64(l.entities)) && At(d, pos + 8, U64(l.edges)) && At(d, pos + 16, U32(l.depth))
    ensures At(d, pos + 20, U64(l.bytes)) && At(d, pos + 28, U64(l.work)) && |EncodeLimits(l)| == 36
  {
    AtSplit(d, pos, U64(l.entities), U64(l.edges) + (U32(l.depth) + (U64(l.bytes) + U64(l.work))));
    AtSplit(d, pos + 8, U64(l.edges), U32(l.depth) + (U64(l.bytes) + U64(l.work)));
    AtSplit(d, pos + 16, U32(l.depth), U64(l.bytes) + U64(l.work));
    AtSplit(d, pos + 20, U64(l.bytes), U64(l.work));
  }

  lemma LimitsRead(d: seq<int>, pos: nat, l: Limits)
    requires LimitsPack(l) && At(d, pos, EncodeLimits(l))
    ensures ReadLimits(d, pos) == l
  {
    LimitsAt(d, pos, l);
    Num64(d, pos, l.entities);
    Num64(d, pos + 8, l.edges);
    Num32(d, pos + 16, l.depth);
    Num64(d, pos + 20, l.bytes);
    Num64(d, pos + 28, l.work);
  }

  ghost function ReadFlag(d: seq<int>, pos: nat): bool { Num(d, pos, 4) == FLAG_TRUE }

  lemma FlagReads(d: seq<int>, pos: nat, b: bool)
    requires At(d, pos, Flag(b))
    ensures ReadFlag(d, pos) == b
  {
    Num32(d, pos, if b then FLAG_TRUE else FLAG_FALSE);
  }

  ghost function ReadQuery(d: seq<int>, pos: nat): Query {
    Query(Num(d, pos, 4), ReadAsk(d, pos + 4, Num(d, pos, 4)))
  }

  ghost function PastQuery(d: seq<int>, pos: nat): nat {
    PastAsk(d, pos + 4, Num(d, pos, 4))
  }

  lemma QueryReads(d: seq<int>, pos: nat, q: Query, next: nat)
    requires Fits32(q.cls) && AskPacks(q.ask) && AskSized(q.ask) && Asks(q)
    requires At(d, pos, EncodeQuery(q)) && next == pos + |EncodeQuery(q)|
    ensures ReadQuery(d, pos) == q && PastQuery(d, pos) == next
  {
    AtSplit(d, pos, U32(q.cls), EncodeAsk(q.ask));
    Num32(d, pos, q.cls);
    AskReads(d, pos + 4, q);
  }

  /** Limits, the continuation flag and the cursor behind a query. */
  ghost function ReadTerms(d: seq<int>, pos: nat, q: Query): Question {
    Question(q, ReadLimits(d, pos), ReadFlag(d, pos + 36), ReadCursor(d, pos + 40))
  }

  lemma TermsRead(d: seq<int>, pos: nat, q: Question, next: nat)
    requires LimitsPack(q.limits) && CursorPacks(q.after) && CursorSized(q.after)
    requires At(d, pos, EncodeTerms(q.limits, q.continuation, q.after))
    requires next == pos + |EncodeTerms(q.limits, q.continuation, q.after)|
    ensures ReadTerms(d, pos, q.query) == q && PastCursor(d, pos + 40) == next
  {
    LimitsLength(q.limits);
    Three(d, pos, EncodeLimits(q.limits), Flag(q.continuation), EncodeCursor(q.after));
    LimitsRead(d, pos, q.limits);
    FlagReads(d, pos + 36, q.continuation);
    CursorReads(d, pos + 40, q.after);
  }

  ghost function ReadQuestion(d: seq<int>, pos: nat): Question {
    ReadTerms(d, PastQuery(d, pos), ReadQuery(d, pos))
  }

  ghost function PastQuestion(d: seq<int>, pos: nat): nat {
    PastCursor(d, PastQuery(d, pos) + 40)
  }

  lemma LimitsLength(l: Limits)
    requires LimitsPack(l)
    ensures |EncodeLimits(l)| == 36
  {
  }

  lemma QuestionReads(d: seq<int>, pos: nat, q: Question, next: nat)
    requires QuestionPacks(q) && QuestionSized(q) && At(d, pos, EncodeQuestion(q)) && next == pos + |EncodeQuestion(q)|
    ensures ReadQuestion(d, pos) == q && PastQuestion(d, pos) == next
  {
    var query, terms := EncodeQuery(q.query), EncodeTerms(q.limits, q.continuation, q.after);
    var termsAt := Split2(d, pos, query, terms);
    QueryReads(d, pos, q.query, termsAt);
    TermsRead(d, termsAt, q, next);
  }

  /** The encoded question determines the question, and where it ends. */
  lemma QuestionSame(d: seq<int>, pos: nat, a: Question, b: Question)
    requires QuestionPacks(a) && QuestionPacks(b) && QuestionSized(a) && QuestionSized(b)
    requires At(d, pos, EncodeQuestion(a)) && At(d, pos, EncodeQuestion(b))
    ensures a == b
  {
    QuestionReads(d, pos, a, pos + |EncodeQuestion(a)|);
    QuestionReads(d, pos, b, pos + |EncodeQuestion(b)|);
  }

  // Status and record.

  ghost function ReadStatus(d: seq<int>, pos: nat): Status {
    Status(Num(d, pos, 4), ReadFlag(d, pos + 4), Num(d, pos + 8, 8), Num(d, pos + 16, 8), Num(d, pos + 24, 8),
           ReadCursor(d, pos + 32))
  }

  lemma StatusAt(d: seq<int>, pos: nat, s: Status)
    requires StatusPacks(s) && At(d, pos, EncodeStatus(s))
    ensures At(d, pos, U32(s.completeness)) && At(d, pos + 4, Flag(s.truncated)) && At(d, pos + 8, U64(s.total))
    ensures At(d, pos + 16, U64(s.returned)) && At(d, pos + 24, U64(s.omitted)) && At(d, pos + 32, EncodeCursor(s.next))
  {
    var next := EncodeCursor(s.next);
    AtSplit(d, pos, U32(s.completeness), Flag(s.truncated)
      + (U64(s.total) + (U64(s.returned) + (U64(s.omitted) + next))));
    AtSplit(d, pos + 4, Flag(s.truncated), U64(s.total) + (U64(s.returned) + (U64(s.omitted) + next)));
    AtSplit(d, pos + 8, U64(s.total), U64(s.returned) + (U64(s.omitted) + next));
    AtSplit(d, pos + 16, U64(s.returned), U64(s.omitted) + next);
    AtSplit(d, pos + 24, U64(s.omitted), next);
  }

  lemma StatusReads(d: seq<int>, pos: nat, s: Status, next: nat)
    requires StatusPacks(s) && CursorSized(s.next) && At(d, pos, EncodeStatus(s)) && next == pos + |EncodeStatus(s)|
    ensures ReadStatus(d, pos) == s && PastCursor(d, pos + 32) == next
  {
    StatusAt(d, pos, s);
    Num32(d, pos, s.completeness);
    FlagReads(d, pos + 4, s.truncated);
    Num64(d, pos + 8, s.total);
    Num64(d, pos + 16, s.returned);
    Num64(d, pos + 24, s.omitted);
    CursorReads(d, pos + 32, s.next);
  }

  /** The response record behind its length. */
  ghost function ReadCopy(d: seq<int>, pos: nat): seq<int> {
    Field(d, pos + 8, Num(d, pos, 8))
  }

  lemma CopyReads(d: seq<int>, pos: nat, record: seq<int>, next: nat)
    requires |record| < LIMIT64 && At(d, pos, U64(|record|) + record) && next == pos + |U64(|record|) + record|
    ensures ReadCopy(d, pos) == record && Past(d, pos, 1) == next
  {
    var recordAt := Split2(d, pos, U64(|record|), record);
    Num64(d, pos, |record|);
    FieldAt(d, recordAt, record);
  }

  // The capsule.

  ghost predicate ContextSized(c: Context, queryId: Id) {
    |c.workspace| == |c.epoch| == |c.root| == |c.snapshot| == |queryId| == 32
  }

  ghost predicate CapsuleSized(c: Capsule) {
    && ContextSized(c.context, c.queryId) && (c.session.Some? ==> |c.session.value| == 32)
    && QuestionSized(c.question) && CursorSized(c.status.next) && TablesSized(c.tables)
  }

  lemma IdsAt(d: seq<int>, pos: nat, c: Context, queryId: Id)
    requires ContextSized(c, queryId) && At(d, pos, c.workspace + (c.epoch + (c.root + (c.snapshot + queryId))))
    ensures At(d, pos, c.workspace) && At(d, pos + 32, c.epoch) && At(d, pos + 64, c.root)
    ensures At(d, pos + 96, c.snapshot) && At(d, pos + 128, queryId)
  {
    Three(d, pos, c.workspace, c.epoch, c.root + (c.snapshot + queryId));
    Three(d, pos + 64, c.root, c.snapshot, queryId);
  }

  ghost function ReadSession(d: seq<int>, pos: nat): Option<Id> {
    if Num(d, pos, 4) == SESSION_NEGOTIATED then Some(Field(d, pos + 4, 32)) else None
  }

  lemma SessionReads(d: seq<int>, pos: nat, s: Option<Id>)
    requires (s.Some? ==> |s.value| == 32) && At(d, pos, EncodeSession(s))
    ensures ReadSession(d, pos) == s
  {
    match s
    case None => Num32(d, pos, SESSION_NONE);
    case Some(id) =>
      AtSplit(d, pos, U32(SESSION_NEGOTIATED), id);
      Num32(d, pos, SESSION_NEGOTIATED);
      FieldAt(d, pos + 4, id);
  }

  ghost function ReadContext(d: seq<int>): Context {
    Context(Field(d, 16, 32), Field(d, 48, 32), Field(d, 80, 32), Field(d, 112, 32))
  }

  /** The magic bytes and the two version words in front. */
  ghost predicate Marked(d: seq<int>) {
    Field(d, 0, 8) == Ascii("SLEYCCP1") && Num(d, 8, 4) == 1 && Num(d, 12, 4) == 1
  }

  /** The place of the question: behind the context, the query's identity and the session. */
  ghost function QuestionPlace(d: seq<int>): nat {
    if ReadSession(d, 176).Some? then 212 else 180
  }

  /** Status, record and tables. */
  ghost function ReadAnswer(d: seq<int>, pos: nat): (Status, seq<int>, Tables) {
    var recordAt := PastCursor(d, pos + 32);
    (ReadStatus(d, pos), ReadCopy(d, recordAt), ReadTables(d, Past(d, recordAt, 1)))
  }

  /** The whole preimage, field by field and row by row. */
  ghost function ReadCapsule(d: seq<int>): Capsule {
    var questionAt := QuestionPlace(d);
    var (status, record, tables) := ReadAnswer(d, PastQuestion(d, questionAt));
    Capsule(ReadContext(d), Field(d, 144, 32), ReadSession(d, 176), ReadQuestion(d, questionAt), status, record, tables)
  }

  lemma ContextReads(d: seq<int>, c: Context, queryId: Id)
    requires ContextSized(c, queryId) && At(d, 0, EncodeContext(c, queryId))
    ensures Marked(d) && ReadContext(d) == c && Field(d, 144, 32) == queryId && |EncodeContext(c, queryId)| == 176
  {
    var ids := c.workspace + (c.epoch + (c.root + (c.snapshot + queryId)));
    var p, q, next := Split3(d, 0, MAGIC, U32(1), U32(1) + ids);
    var idsAt := Split2(d, 12, U32(1), ids);
    FieldAt(d, 0, MAGIC);
    Num32(d, 8, 1);
    Num32(d, 12, 1);
    IdsAt(d, 16, c, queryId);
  }

  /** Session and question, from place 176 on. */
  lemma SessionQuestionReads(d: seq<int>, session: Option<Id>, q: Question, next: nat)
    requires (session.Some? ==> |session.value| == 32) && QuestionPacks(q) && QuestionSized(q)
    requires At(d, 176, EncodeSession(session) + EncodeQuestion(q))
    requires next == 176 + |EncodeSession(session) + EncodeQuestion(q)|
    ensures ReadSession(d, 176) == session
    ensures ReadQuestion(d, QuestionPlace(d)) == q && PastQuestion(d, QuestionPlace(d)) == next
  {
    var questionAt := Split2(d, 176, EncodeSession(session), EncodeQuestion(q));
    SessionReads(d, 176, session);
    assert questionAt == QuestionPlace(d);
    QuestionReads(d, questionAt, q, next);
  }

  lemma AskedReads(d: seq<int>, context: Context, queryId: Id, session: Option<Id>, q: Question, next: nat)
    requires ContextSized(context, queryId) && (session.Some? ==> |session.value| == 32)
    requires QuestionPacks(q) && QuestionSized(q)
    requires At(d, 0, EncodeContext(context, queryId) + (EncodeSession(session) + EncodeQuestion(q)))
    requires next == |EncodeContext(context, queryId) + (EncodeSession(session) + EncodeQuestion(q))|
    ensures Marked(d)
    ensures ReadContext(d) == context && Field(d, 144, 32) == queryId && ReadSession(d, 176) == session
    ensures ReadQuestion(d, QuestionPlace(d)) == q && PastQuestion(d, QuestionPlace(d)) == next
  {
    var sessionAt := Split2(d, 0, EncodeContext(context, queryId), EncodeSession(session) + EncodeQuestion(q));
    ContextReads(d, context, queryId);
    SessionQuestionReads(d, session, q, next);
  }

  lemma AnswerReads(d: seq<int>, pos: nat, c: Capsule)
    requires CapsulePacks(c) && CapsuleSized(c) && At(d, pos, EncodeAnswer(c))
    ensures ReadAnswer(d, pos) == (c.status, c.record, c.tables)
  {
    var p, q, next := Split3(d, pos, EncodeStatus(c.status), U64(|c.record|) + c.record, EncodeTables(c.tables));
    StatusReads(d, pos, c.status, p);
    CopyReads(d, p, c.record, q);
    TablesRead(d, q, c.tables);
  }

  /** Reading the layout off a preimage gives the capsule back, every field and every row of it. */
  lemma CapsuleReads(c: Capsule)
    requires CapsulePacks(c) && CapsuleSized(c)
    ensures Marked(Preimage(c)) && ReadCapsule(Preimage(c)) == c
  {
    var d := Preimage(c);
    AtWhole(d);
    var next := Split2(d, 0, EncodeAsked(c), EncodeAnswer(c));
    AskedReads(d, c.context, c.queryId, c.session, c.question, next);
    AnswerReads(d, next, c);
  }

  /** Equal preimages come from equal capsules: what the capsule identity hashes binds every fact of the capsule. */
  lemma PreimageInjective(a: Capsule, b: Capsule)
    requires CapsulePacks(a) && CapsulePacks(b) && CapsuleSized(a) && CapsuleSized(b)
    requires Preimage(a) == Preimage(b)
    ensures a == b
  {
    CapsuleReads(a);
    CapsuleReads(b);
  }
}
