/** The two parsers of the `SLEYRQR1` response record: one extracts the facts, the other re-reads two counts. */
module CapsuleDecode {
  import opened Bytes
  import opened Cursors
  import opened CapsuleModel
  import opened Wrappers

  /** What the payload states. `subjectKind` is the kind under the dictionary key `"subject"`. */
  datatype Facts = Facts(ids: seq<Id>, kinds: map<Id, int>, subjectKind: Option<int>, edges: seq<Edge>, roots: seq<Id>,
                         obj: Option<Id>, fingerprint: Option<Id>)

  const NO_FACTS := Facts([], map[], None, [], [], None, None)

  // Where each part of the record ends.

  /** Behind an optional cursor. Any option tag but 1 announces a cursor, any cursor tag but 2 a single identity. */
  function SkipCursor(d: seq<int>, pos: nat): (end: Option<nat>)
    ensures end.Some? ==> pos < end.value <= |d|
  {
    if pos + 4 > |d| then None
    else if UnBE(d[pos..pos + 4]) == OPTION_NONE then Some(pos + 4)
    else if pos + 40 > |d| then None
    else if UnBE(d[pos + 4..pos + 8]) != CURSOR_EDGE then Some(pos + 40)
    else if pos + 76 > |d| then None
    else Some(pos + 76)
  }

  const CURSOR_AT := 224

  /** Behind the header of a record of class `cls`. */
  function HeaderEnd(d: seq<int>, cls: int): (end: Option<nat>)
    ensures end.Some? ==> end.value <= |d|
  {
    if |d| < CURSOR_AT || d[..8] != RESPONSE_MAGIC then None
    else
      match SkipCursor(d, CURSOR_AT)
      case None => None
      case Some(p) =>
        if p + 24 > |d| || UnBE(d[p..p + 4]) != cls then None
        else
          match SkipCursor(d, p + 24)
          case None => None
          case Some(q) => if q + 24 > |d| || UnBE(d[q + 20..q + 24]) != cls then None else Some(q + 24)
  }

  /** `total_and_returned` */
  function Counts(d: seq<int>): Option<(int, int)> {
    if |d| < CURSOR_AT then None
    else
      match SkipCursor(d, CURSOR_AT)
      case None => None
      case Some(p) => if p + 20 > |d| then None else Some((UnBE(d[p + 4..p + 12]), UnBE(d[p + 12..p + 20])))
  }

  // The payload.

  function RowWidth(cls: int): nat {
    if cls == 7 then 128 else if cls == 8 then 36 else if cls == 10 || cls == 12 || cls == 13 then 68 else 32
  }

  function Slice(d: seq<int>, pos: nat): Id
    requires pos + 32 <= |d|
  {
    d[pos..pos + 32]
  }

  function AddRow(f: Facts, d: seq<int>, pos: nat, cls: int): Facts
    requires pos + RowWidth(cls) <= |d|
  {
    if cls == 7 then
      f.(ids := f.ids + [Slice(d, pos), Slice(d, pos + 64), Slice(d, pos + 96)],
         roots := f.roots + [Slice(d, pos + 32)])
    else if cls == 8 then
      f.(ids := f.ids + [Slice(d, pos)], kinds := f.kinds[Slice(d, pos) := UnBE(d[pos + 32..pos + 36])])
    else if cls == 10 then f.(ids := f.ids + [Slice(d, pos), Slice(d, pos + 32)])
    else if cls == 11 then f.(roots := f.roots + [Slice(d, pos)])
    else if cls == 12 || cls == 13 then
      f.(ids := f.ids + [Slice(d, pos), Slice(d, pos + 32)],
         edges := f.edges + [Edge(Slice(d, pos), Slice(d, pos + 32), UnBE(d[pos + 64..pos + 68]))])
    else f.(ids := f.ids + [Slice(d, pos)])
  }

  function AddRows(f: Facts, d: seq<int>, pos: nat, n: nat, cls: int): Option<(Facts, nat)>
    decreases n
  {
    if n == 0 then Some((f, pos))
    else if pos + RowWidth(cls) > |d| then None
    else AddRows(AddRow(f, d, pos, cls), d, pos + RowWidth(cls), n - 1, cls)
  }

  /** An optional fingerprint: any tag but 2 means none. */
  function ReadFingerprint(f: Facts, d: seq<int>, pos: nat): Option<(Facts, nat)> {
    if pos + 4 > |d| then None
    else if UnBE(d[pos..pos + 4]) != OPTION_SOME then Some((f, pos + 4))
    else if pos + 36 > |d| then None
    else Some((f.(fingerprint := Some(Slice(d, pos + 4))), pos + 36))
  }

  const SUMMARY_BYTES := 32 * 6 + 8 * 18 + 8 * 3

  function Payload(d: seq<int>, pos: nat, cls: int): Option<(Facts, nat)> {
    if cls == 1 then (if pos + SUMMARY_BYTES > |d| then None else Some((NO_FACTS, pos + SUMMARY_BYTES)))
    else if cls == 2 then
      if pos + 36 > |d| then None
      else
        var f := NO_FACTS.(subjectKind := Some(UnBE(d[pos..pos + 4])), obj := Some(Slice(d, pos + 4)));
        ReadFingerprint(f, d, pos + 36)
    else if cls == 3 then ReadFingerprint(NO_FACTS, d, pos)
    else if pos + 8 > |d| || UnBE(d[pos..pos + 8]) < 0 then None
    else AddRows(NO_FACTS, d, pos + 8, UnBE(d[pos..pos + 8]), cls)
  }

  function Decode(d: seq<int>, cls: int): Option<Facts> {
    match HeaderEnd(d, cls)
    case None => None
    case Some(start) =>
      match Payload(d, start, cls)
      case None => None
      case Some((f, end)) => if end == |d| then Some(f) else None
  }

  // The parsers.

  method OptionCursor(cursor: Cursor) returns (ok: bool)
    requires cursor.offset <= |cursor.data|
    modifies cursor`offset
    ensures cursor.offset <= |cursor.data|
    ensures ok <==> SkipCursor(cursor.data, old(cursor.offset)).Some?
    ensures ok ==> SkipCursor(cursor.data, old(cursor.offset)) == Some(cursor.offset)
  {
    var tag := cursor.TakeU32();
    if tag.None? { return false; }
    if tag.value == OPTION_NONE { return true; }
    var kind := cursor.TakeU32();
    if kind.None? { return false; }
    var id := cursor.Take(32);
    if id.None? { return false; }
    if kind.value == CURSOR_EDGE {
      id := cursor.Take(32);
      if id.None? { return false; }
      kind := cursor.TakeU32();
      if kind.None? { return false; }
    }
    return true;
  }

  method TakeRow(cursor: Cursor, facts: Facts, cls: int) returns (r: Option<Facts>)
    requires cursor.offset <= |cursor.data|
    modifies cursor`offset
    ensures cursor.offset <= |cursor.data|
    ensures r.Some? <==> old(cursor.offset) + RowWidth(cls) <= |cursor.data|
    ensures r.Some? ==> cursor.offset == old(cursor.offset) + RowWidth(cls)
    ensures r.Some? ==> r.value == AddRow(facts, cursor.data, old(cursor.offset), cls)
  {
    var a := cursor.Take(32);
    if a.None? { return None; }
    if cls == 7 {
      var root := cursor.Take(32);
      if root.None? { return None; }
      var b := cursor.Take(32);
      if b.None? { return None; }
      var c := cursor.Take(32);
      if c.None? { return None; }
      return Some(facts.(ids := facts.ids + [a.value, b.value, c.value], roots := facts.roots + [root.value]));
    }
    if cls == 8 {
      var kind := cursor.TakeU32();
      if kind.None? { return None; }
      return Some(facts.(ids := facts.ids + [a.value], kinds := facts.kinds[a.value := kind.value]));
    }
    if cls == 11 { return Some(facts.(roots := facts.roots + [a.value])); }
    if cls != 10 && cls != 12 && cls != 13 { return Some(facts.(ids := facts.ids + [a.value])); }
    var b := cursor.Take(32);
    if b.None? { return None; }
    var kind := cursor.TakeU32();
    if kind.None? { return None; }
    var named := facts.(ids := facts.ids + [a.value, b.value]);
    return Some(if cls == 10 then named else named.(edges := facts.edges + [Edge(a.value, b.value, kind.value)]));
  }

  method TakeFingerprint(cursor: Cursor, facts: Facts) returns (r: Option<Facts>)
    requires cursor.offset <= |cursor.data|
    modifies cursor`offset
    ensures cursor.offset <= |cursor.data|
    ensures match ReadFingerprint(facts, cursor.data, old(cursor.offset))
            case None => r.None?
            case Some((f, end)) => r == Some(f) && cursor.offset == end
  {
    var tag := cursor.TakeU32();
    if tag.None? { return None; }
    if tag.value != OPTION_SOME { return Some(facts); }
    var id := cursor.Take(32);
    if id.None? { return None; }
    return Some(facts.(fingerprint := Some(id.value)));
  }

  method TakePayload(cursor: Cursor, cls: int) returns (r: Option<Facts>)
    requires cursor.offset <= |cursor.data|
    modifies cursor`offset
    ensures cursor.offset <= |cursor.data|
    ensures match Payload(cursor.data, old(cursor.offset), cls)
            case None => r.None?
            case Some((f, end)) => r == Some(f) && cursor.offset == end
  {
    if cls == 1 {
      var summary := cursor.Take(SUMMARY_BYTES);
      return if summary.None? then None else Some(NO_FACTS);
    }
    if cls == 2 {
      var kind := cursor.TakeU32();
      if kind.None? { return None; }
      var id := cursor.Take(32);
      if id.None? { return None; }
      r := TakeFingerprint(cursor, NO_FACTS.(subjectKind := Some(kind.value), obj := Some(id.value)));
      return;
    }
    if cls == 3 {
      r := TakeFingerprint(cursor, NO_FACTS);
      return;
    }
    var n := cursor.TakeU64();
    if n.None? || n.value < 0 { return None; }
    ghost var d, base := cursor.data, cursor.offset;
    var facts := NO_FACTS;
    for i := 0 to n.value
      invariant cursor.offset <= |d|
      invariant AddRows(NO_FACTS, d, base, n.value, cls) == AddRows(facts, d, cursor.offset, n.value - i, cls)
    {
      var added := TakeRow(cursor, facts, cls);
      if added.None? { return None; }
      facts := added.value;
    }
    return Some(facts);
  }

  /** The counts behind the first cursor. */
  method TakeCounts(cursor: Cursor) returns (cls: int, r: Option<(int, int)>)
    requires cursor.offset <= |cursor.data|
    modifies cursor`offset
    ensures cursor.offset <= |cursor.data|
    ensures r.Some? <==> old(cursor.offset) + 20 <= |cursor.data|
    ensures r.Some? ==> var d, p := cursor.data, old(cursor.offset);
              cls == UnBE(d[p..p + 4]) && r.value == (UnBE(d[p + 4..p + 12]), UnBE(d[p + 12..p + 20]))
                && cursor.offset == p + 20
  {
    var tag := cursor.TakeU32();
    if tag.None? { return 0, None; }
    var total := cursor.TakeU64();
    if total.None? { return 0, None; }
    var returned := cursor.TakeU64();
    if returned.None? { return 0, None; }
    return tag.value, Some((total.value, returned.value));
  }

  /** The header, up to the payload. `skipped` is the total and the returned count it passes over. */
  method TakeHeader(cursor: Cursor, cls: int) returns (ok: bool, ghost skipped: Option<(int, int)>)
    requires cursor.offset == 0
    modifies cursor`offset
    ensures cursor.offset <= |cursor.data|
    ensures ok <==> HeaderEnd(cursor.data, cls).Some?
    ensures ok ==> HeaderEnd(cursor.data, cls) == Some(cursor.offset) && skipped == Counts(cursor.data)
  {
    skipped := None;
    var magic := cursor.Take(8);
    if magic != Some(RESPONSE_MAGIC) { return false, skipped; }
    var fixed := cursor.Take(216);
    if fixed.None? { return false, skipped; }
    ok := OptionCursor(cursor);
    if !ok { return false, skipped; }
    var tag, counts := TakeCounts(cursor);
    skipped := counts;
    if counts.None? || tag != cls { return false, skipped; }
    var word := cursor.TakeU32();
    if word.None? { return false, skipped; }
    ok := OptionCursor(cursor);
    if !ok { return false, skipped; }
    fixed := cursor.Take(20);
    if fixed.None? { return false, skipped; }
    word := cursor.TakeU32();
    return word == Some(cls), skipped;
  }

  /** `decode_payload` */
  method DecodePayload(record: seq<int>, cls: int) returns (r: Option<Facts>, ghost skipped: Option<(int, int)>)
    ensures r == Decode(record, cls)
    ensures r.Some? ==> skipped.Some? && skipped == Counts(record)
  {
    var cursor := new Cursor(record);
    var ok;
    ok, skipped := TakeHeader(cursor, cls);
    if !ok { return None, skipped; }
    var facts := TakePayload(cursor, cls);
    if facts.None? || cursor.offset != |record| { return None, skipped; }
    return facts, skipped;
  }

  /** `total_and_returned` */
  method TotalAndReturned(record: seq<int>) returns (r: Option<(int, int)>)
    ensures r == Counts(record)
  {
    var cursor := new Cursor(record);
    var fixed := cursor.Take(224);
    if fixed.None? { return None; }
    var ok := OptionCursor(cursor);
    if !ok { return None; }
    var _, counts := TakeCounts(cursor);
    return counts;
  }

  // Cursors: what is printed and what is skipped.

  ghost predicate CursorSized(c: Option<After>) {
    match c
    case None => true
    case Some(EntityAt(e)) => |e| == 32
    case Some(RootAt(r)) => |r| == 32
    case Some(LinkAt(_, from, to, _)) => |from| == |to| == 32
  }

  /** The cursor arms the profile knows. */
  predicate KnownArm(c: Option<After>) {
    c.Some? && c.value.LinkAt? ==> c.value.tag == CURSOR_EDGE
  }

  /** A printed cursor is skipped to its last byte exactly when its arm is known. */
  lemma SkipsPrinted(d: seq<int>, pos: nat, c: Option<After>)
    requires CursorPacks(c) && CursorSized(c) && At(d, pos, EncodeCursor(c))
    ensures SkipCursor(d, pos) == Some(pos + |EncodeCursor(c)|) <==> KnownArm(c)
    ensures !KnownArm(c) ==> SkipCursor(d, pos) == Some(pos + |EncodeCursor(c)| - 36)
  {
    Widths();
    match c
    case None => ReadPacked(d, pos, OPTION_NONE, 4);
    case Some(EntityAt(e)) =>
      TwoTags(d, pos, CURSOR_ENTITY, e);
    case Some(RootAt(r)) =>
      TwoTags(d, pos, CURSOR_ROOT, r);
    case Some(LinkAt(tag, from, to, kind)) =>
      TwoTags(d, pos, tag, from + (to + U32(kind)));
  }

  lemma TwoTags(d: seq<int>, pos: nat, tag: nat, rest: seq<int>)
    requires tag < LIMIT32 && At(d, pos, U32(OPTION_SOME) + (U32(tag) + rest))
    ensures UnBE(d[pos..pos + 4]) == OPTION_SOME && UnBE(d[pos + 4..pos + 8]) == tag && At(d, pos + 8, rest)
  {
    Widths();
    AtSplit(d, pos, U32(OPTION_SOME), U32(tag) + rest);
    AtSplit(d, pos + 4, U32(tag), rest);
    ReadPacked(d, pos, OPTION_SOME, 4);
    ReadPacked(d, pos + 4, tag, 4);
  }

  /** What is skipped at `pos` is a printed cursor. */
  ghost predicate Printed(d: seq<int>, pos: nat, end: nat) {
    exists c :: CursorPacks(c) && CursorSized(c) && KnownArm(c) && end == pos + |EncodeCursor(c)|
      && At(d, pos, EncodeCursor(c))
  }

  ghost predicate KnownTags(d: seq<int>, pos: nat)
    requires SkipCursor(d, pos).Some?
  {
    var tag := UnBE(d[pos..pos + 4]);
    tag == OPTION_NONE || (tag == OPTION_SOME && UnBE(d[pos + 4..pos + 8]) in {CURSOR_ENTITY, CURSOR_EDGE, CURSOR_ROOT})
  }

  /** What the skipper passes over is some cursor's print exactly when its tags are known. */
  lemma SkippedIsPrinted(d: seq<int>, pos: nat)
    requires IsBytes(d) && SkipCursor(d, pos).Some?
    ensures Printed(d, pos, SkipCursor(d, pos).value) <==> KnownTags(d, pos)
  {
    var end := SkipCursor(d, pos).value;
    if KnownTags(d, pos) {
      PackedAt(d, pos, 4);
      Widths();
      if UnBE(d[pos..pos + 4]) == OPTION_NONE {
        assert At(d, pos, EncodeCursor(None));
      } else {
        PrintsSome(d, pos, end);
      }
    }
    if Printed(d, pos, end) {
      var c :| CursorPacks(c) && CursorSized(c) && KnownArm(c) && end == pos + |EncodeCursor(c)|
        && At(d, pos, EncodeCursor(c));
      PrintedTags(d, pos, c);
    }
  }

  lemma PrintedTags(d: seq<int>, pos: nat, c: Option<After>)
    requires CursorPacks(c) && CursorSized(c) && KnownArm(c) && At(d, pos, EncodeCursor(c))
    ensures SkipCursor(d, pos) == Some(pos + |EncodeCursor(c)|) && KnownTags(d, pos)
  {
    SkipsPrinted(d, pos, c);
    Widths();
    match c
    case None => ReadPacked(d, pos, OPTION_NONE, 4);
    case Some(EntityAt(e)) => TwoTags(d, pos, CURSOR_ENTITY, e);
    case Some(RootAt(r)) => TwoTags(d, pos, CURSOR_ROOT, r);
    case Some(LinkAt(tag, from, to, kind)) => TwoTags(d, pos, tag, from + (to + U32(kind)));
  }

  /** Two tags in front of a tail. */
  lemma TagsJoin(d: seq<int>, pos: nat, tag: nat, tail: seq<int>)
    requires IsBytes(d) && pos + 8 <= |d| && UnBE(d[pos..pos + 4]) == OPTION_SOME && UnBE(d[pos + 4..pos + 8]) == tag
    requires At(d, pos + 8, tail)
    ensures At(d, pos, U32(OPTION_SOME) + (U32(tag) + tail))
  {
    PackedAt(d, pos, 4);
    PackedAt(d, pos + 4, 4);
    AtSplit(d, pos + 4, U32(tag), tail);
    AtSplit(d, pos, U32(OPTION_SOME), U32(tag) + tail);
  }

  lemma PrintsId(d: seq<int>, pos: nat, arm: int)
    requires IsBytes(d) && pos + 40 <= |d| && UnBE(d[pos..pos + 4]) == OPTION_SOME && UnBE(d[pos + 4..pos + 8]) == arm
    requires arm == CURSOR_ENTITY || arm == CURSOR_ROOT
    ensures Printed(d, pos, pos + 40)
  {
    var id := Slice(d, pos + 8);
    TagsJoin(d, pos, arm, id);
    var c := Some(if arm == CURSOR_ENTITY then EntityAt(id) else RootAt(id));
    assert EncodeCursor(c) == U32(OPTION_SOME) + (U32(arm) + id);
  }

  lemma PrintsEdge(d: seq<int>, pos: nat)
    requires IsBytes(d) && pos + 76 <= |d| && UnBE(d[pos..pos + 4]) == OPTION_SOME
             && UnBE(d[pos + 4..pos + 8]) == CURSOR_EDGE
    ensures Printed(d, pos, pos + 76)
  {
    var from, to, kind := Slice(d, pos + 8), Slice(d, pos + 40), UnBE(d[pos + 72..pos + 76]);
    EdgeTail(d, pos + 8);
    TagsJoin(d, pos, CURSOR_EDGE, from + (to + U32(kind)));
    var c := Some(LinkAt(CURSOR_EDGE, from, to, kind));
    assert EncodeCursor(c) == U32(OPTION_SOME) + (U32(CURSOR_EDGE) + (from + (to + U32(kind))));
  }

  lemma EdgeTail(d: seq<int>, pos: nat)
    requires IsBytes(d) && pos + 68 <= |d|
    ensures var kind := UnBE(d[pos + 64..pos + 68]);
            Fits32(kind) && At(d, pos, Slice(d, pos) + (Slice(d, pos + 32) + U32(kind)))
  {
    PackedAt(d, pos + 64, 4);
    Widths();
    AtSplit(d, pos + 32, Slice(d, pos + 32), U32(UnBE(d[pos + 64..pos + 68])));
    AtSplit(d, pos, Slice(d, pos), Slice(d, pos + 32) + U32(UnBE(d[pos + 64..pos + 68])));
  }

  lemma PrintsSome(d: seq<int>, pos: nat, end: nat)
    requires IsBytes(d) && SkipCursor(d, pos) == Some(end) && KnownTags(d, pos) && UnBE(d[pos..pos + 4]) == OPTION_SOME
    ensures Printed(d, pos, end)
  {
    if UnBE(d[pos + 4..pos + 8]) == CURSOR_EDGE {
      PrintsEdge(d, pos);
    } else {
      PrintsId(d, pos, UnBE(d[pos + 4..pos + 8]));
    }
  }

  /** A cursor of an unknown arm: the skipper leaves its last 36 bytes. */
  lemma UnknownArm(id: Id)
    requires |id| == 32
    ensures var c := Some(LinkAt(4, id, id, 0));
            CursorPacks(c) && |EncodeCursor(c)| == 76 && SkipCursor(EncodeCursor(c), 0) == Some(40)
  {
    var c := Some(LinkAt(4, id, id, 0));
    AtWhole(EncodeCursor(c));
    SkipsPrinted(EncodeCursor(c), 0, c);
  }
}
