/** Response records at which the capsule does not do what it is meant for. */
module CapsuleExamples {
  import opened Order
  import opened Bytes
  import opened CapsuleModel
  import opened CapsuleDecode
  import opened CapsuleHeader
  import opened CapsuleTables
  import opened CapsuleBuild
  import opened Wrappers

  /** A header without cursors. */
  function Plainly(cls: int, total: int, returned: int): Opening {
    Opening(seq(216, _ => 0), None, cls, total, returned, 0, None, seq(20, _ => 0))
  }

  lemma BytesJoin(a: seq<int>, b: seq<int>)
    requires IsBytes(a) && IsBytes(b)
    ensures IsBytes(a + b)
  {
  }

  lemma CountsBytes(h: Opening)
    requires OpeningFits(h)
    ensures IsBytes(PrintCounts(h)) && |PrintCounts(h)| == 24
  {
    BEBytes(h.cls, 4);
    BEBytes(h.total, 8);
    BEBytes(h.returned, 8);
    BEBytes(h.word, 4);
    BytesJoin(U64(h.returned), U32(h.word));
    BytesJoin(U64(h.total), U64(h.returned) + U32(h.word));
    BytesJoin(U32(h.cls), U64(h.total) + (U64(h.returned) + U32(h.word)));
  }

  lemma OpeningBytes(h: Opening)
    requires OpeningFits(h) && IsBytes(h.fixed) && IsBytes(h.work) && h.after.None? && h.next.None?
    ensures IsBytes(PrintOpening(h)) && |PrintOpening(h)| == 280
  {
    var cursor := EncodeCursor(None);
    CountsBytes(h);
    BEBytes(OPTION_NONE, 4);
    BEBytes(h.cls, 4);
    var last := h.work + U32(h.cls);
    BytesJoin(h.work, U32(h.cls));
    BytesJoin(cursor, last);
    BytesJoin(PrintCounts(h), cursor + last);
    BytesJoin(cursor, PrintCounts(h) + (cursor + last));
    BytesJoin(h.fixed, cursor + (PrintCounts(h) + (cursor + last)));
    BytesJoin(RESPONSE_MAGIC, h.fixed + (cursor + (PrintCounts(h) + (cursor + last))));
  }

  /** A record with that header: what both parsers make of it, and where its payload stands. */
  lemma PlainlyReads(cls: int, total: int, returned: int, payload: seq<int>)
    requires Fits32(cls) && Fits64(total) && Fits64(returned) && IsBytes(payload)
    ensures var d := PrintOpening(Plainly(cls, total, returned)) + payload;
            && IsBytes(d) && |d| == 280 + |payload| && At(d, 280, payload)
            && HeaderEnd(d, cls) == Some(280) && Counts(d) == Some((total, returned))
  {
    var h := Plainly(cls, total, returned);
    var d := PrintOpening(h) + payload;
    OpeningBytes(h);
    BytesJoin(PrintOpening(h), payload);
    AtWhole(d);
    AtSplit(d, 0, PrintOpening(h), payload);
    ParsersAgree(d, h);
  }

  /** A count of 0 ends a record of a listing class, with no facts. */
  lemma EmptyListing(d: seq<int>, cls: int)
    requires cls !in {1, 2, 3} && HeaderEnd(d, cls) == Some(280) && At(d, 280, U64(0)) && |d| == 288
    ensures Decode(d, cls) == Some(NO_FACTS)
  {
    Widths();
    ReadPacked(d, 280, 0, 8);
  }

  // More returned than counted.

  function OverReturned(): seq<int> {
    PrintOpening(Plainly(11, 0, 1)) + U64(0)
  }

  /** A vector whose capsule cannot be packed: its response record decodes, and states one returned of none counted. */
  lemma ReturnedAboveTotal() returns (v: Vector)
    ensures Asks(v.question.query) && Decode(v.record, v.question.query.cls).Some?
    ensures Counts(v.record) == Some((v.total, v.returned)) && v.returned > v.total && QuestionPacks(v.question)
    ensures forall c, context :: IsCapsule(c, context, v) ==> !CapsulePacks(c)
  {
    BEBytes(0, 8);
    PlainlyReads(11, 0, 1, U64(0));
    EmptyListing(OverReturned(), 11);
    var question := Question(Query(11, Nothing), Limits(0, 0, 0, 0, 0), false, None);
    v := Vector(question, [], OverReturned(), 0, 1, None, SESSION_NONE, None);
    forall c, context | IsCapsule(c, context, v) ensures !CapsulePacks(c) { PacksExactly(c, context, v); }
  }

  // A kind of 0.

  /** A listing of entities with their kinds that lists none. */
  function NoKinds(): seq<int> {
    PrintOpening(Plainly(8, 0, 0)) + U64(0)
  }

  function KindRow(id: Id): seq<int> {
    U64(1) + (id + U32(0))
  }

  /** One that lists the entity `id` with kind 0. */
  function ZeroKind(id: Id): seq<int> {
    PrintOpening(Plainly(8, 1, 1)) + KindRow(id)
  }

  lemma KindRowBytes(id: Id)
    requires |id| == 32 && IsBytes(id)
    ensures IsBytes(KindRow(id)) && |KindRow(id)| == 44
  {
    BEBytes(1, 8);
    BEBytes(0, 4);
    BytesJoin(id, U32(0));
    BytesJoin(U64(1), id + U32(0));
  }

  lemma KindRowReads(d: seq<int>, id: Id)
    requires |id| == 32 && At(d, 280, KindRow(id))
    ensures |d| >= 324 && UnBE(d[280..288]) == 1 && d[288..320] == id && UnBE(d[320..324]) == 0
  {
    Widths();
    Three(d, 280, U64(1), id, U32(0));
    ReadPacked(d, 280, 1, 8);
    ReadPacked(d, 320, 0, 4);
  }

  lemma OneRow(d: seq<int>, f: Facts, pos: nat)
    requires pos + 36 <= |d|
    ensures AddRows(f, d, pos, 1, 8) == Some((AddRow(f, d, pos, 8), pos + 36))
  {
    assert AddRows(AddRow(f, d, pos, 8), d, pos + 36, 0, 8) == Some((AddRow(f, d, pos, 8), pos + 36));
  }

  lemma KindRowAdds(d: seq<int>, pos: nat, id: Id)
    requires pos + 36 <= |d| && d[pos..pos + 32] == id && UnBE(d[pos + 32..pos + 36]) == 0
    ensures AddRow(NO_FACTS, d, pos, 8) == NO_FACTS.(ids := [id], kinds := map[id := 0])
  {
    assert [] + [id] == [id] && map[][id := 0] == map[id := 0];
  }

  lemma ZeroKindDecodes(id: Id)
    requires |id| == 32 && IsBytes(id)
    ensures IsBytes(ZeroKind(id)) && Decode(ZeroKind(id), 8) == Some(NO_FACTS.(ids := [id], kinds := map[id := 0]))
  {
    var d := ZeroKind(id);
    KindRowBytes(id);
    PlainlyReads(8, 1, 1, KindRow(id));
    KindRowReads(d, id);
    OneRow(d, NO_FACTS, 288);
    KindRowAdds(d, 288, id);
    assert Payload(d, 280, 8) == AddRows(NO_FACTS, d, 288, 1, 8);
  }

  lemma NoKindsDecodes()
    ensures IsBytes(NoKinds()) && Decode(NoKinds(), 8) == Some(NO_FACTS)
  {
    BEBytes(0, 8);
    PlainlyReads(8, 0, 0, U64(0));
    EmptyListing(NoKinds(), 8);
  }

  lemma SameOfZero(id: Id, t: Tables, u: Tables)
    requires IsTables(t, NO_FACTS.(ids := [id], kinds := map[id := 0]), [id]) && IsTables(u, NO_FACTS, [id])
    ensures t == u
  {
    SameTables(t, u, NO_FACTS.(ids := [id], kinds := map[id := 0]), NO_FACTS, [id]);
  }

  /** The tables of a query about an entity are the same, whether the response lists it with kind 0 or not at all. */
  lemma ZeroKindLost(id: Id)
    requires |id| == 32 && IsBytes(id)
    ensures var q := Query(8, OfEntity(id)); var named, none := Decode(ZeroKind(id), 8), Decode(NoKinds(), 8);
            && Asks(q) && named.Some? && none.Some? && id in named.value.kinds && id !in none.value.kinds
            && forall t, u ::
                 IsTables(t, named.value, NamedEntities(q)) && IsTables(u, none.value, NamedEntities(q)) ==> t == u
  {
    ZeroKindDecodes(id);
    NoKindsDecodes();
    var named, none := Decode(ZeroKind(id), 8).value, Decode(NoKinds(), 8).value;
    forall t, u | IsTables(t, named, [id]) && IsTables(u, none, [id]) ensures t == u { SameOfZero(id, t, u); }
  }

  lemma Slides(a: seq<int>, b: seq<int>, tail: seq<int>)
    requires b != []
    ensures a + (b + tail) == (a + b[..1]) + (b[1..] + tail)
  {
    assert b == b[..1] + b[1..];
  }

  /** The widths hold the preimage together: a byte of the schema epoch moved into the workspace gives another context,
      and the same preimage of its capsule. */
  lemma BoundarySlides(c: Capsule, x: Context, v: Vector)
    requires IsCapsule(c, x, v) && CapsulePacks(c) && x.epoch != []
    ensures var y := x.(workspace := x.workspace + x.epoch[..1], epoch := x.epoch[1..]); var d := c.(context := y);
            y != x && IsCapsule(d, y, v) && CapsulePacks(d) && Preimage(d) == Preimage(c)
  {
    var y := x.(workspace := x.workspace + x.epoch[..1], epoch := x.epoch[1..]);
    var tail := x.root + (x.snapshot + v.queryId);
    Slides(x.workspace, x.epoch, tail);
    assert EncodeContext(x, v.queryId) == EncodeContext(y, v.queryId);
    assert |y.workspace| != |x.workspace|;
  }
}
