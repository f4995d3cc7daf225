/** Both parsers against one printed header. */
module CapsuleHeader {
  import opened Bytes
  import opened CapsuleModel
  import opened CapsuleDecode
  import opened Wrappers

  /** The header fields of a response record. Only the cursors, the class and the two counts matter to the parsers. */
  datatype Opening = Opening(fixed: seq<int>, after: Option<After>, cls: int, total: int, returned: int, word: int,
                             next: Option<After>, work: seq<int>)

  ghost predicate OpeningFits(h: Opening) {
    && |h.fixed| == 216 && |h.work| == 20 && Fits32(h.cls) && Fits64(h.total) && Fits64(h.returned) && Fits32(h.word)
    && CursorPacks(h.after) && CursorSized(h.after) && CursorPacks(h.next) && CursorSized(h.next)
  }

  function PrintCounts(h: Opening): seq<int>
    requires Fits32(h.cls) && Fits64(h.total) && Fits64(h.returned) && Fits32(h.word)
  {
    U32(h.cls) + (U64(h.total) + (U64(h.returned) + U32(h.word)))
  }

  function PrintOpening(h: Opening): seq<int>
    requires OpeningFits(h)
  {
    RESPONSE_MAGIC
      + (h.fixed + (EncodeCursor(h.after) + (PrintCounts(h) + (EncodeCursor(h.next) + (h.work + U32(h.cls))))))
  }

  lemma CountsAt(d: seq<int>, p: nat, h: Opening)
    requires OpeningFits(h) && At(d, p, PrintCounts(h))
    ensures p + 24 <= |d| && UnBE(d[p..p + 4]) == h.cls
    ensures UnBE(d[p + 4..p + 12]) == h.total && UnBE(d[p + 12..p + 20]) == h.returned
  {
    Widths();
    AtSplit(d, p, U32(h.cls), U64(h.total) + (U64(h.returned) + U32(h.word)));
    AtSplit(d, p + 4, U64(h.total), U64(h.returned) + U32(h.word));
    AtSplit(d, p + 12, U64(h.returned), U32(h.word));
    ReadPacked(d, p, h.cls, 4);
    ReadPacked(d, p + 4, h.total, 8);
    ReadPacked(d, p + 12, h.returned, 8);
  }

  /** Where the parts of a printed header stand. */
  lemma PartsAt(d: seq<int>, h: Opening)
    requires OpeningFits(h)
    ensures var p := 224 + |EncodeCursor(h.after)|; var q := p + 24 + |EncodeCursor(h.next)|;
            && q + 24 == |PrintOpening(h)|
            && (At(d, 0, PrintOpening(h)) <==>
                At(d, 0, RESPONSE_MAGIC) && At(d, 8, h.fixed) && At(d, 224, EncodeCursor(h.after))
                  && At(d, p, PrintCounts(h))
                && At(d, p + 24, EncodeCursor(h.next)) && At(d, q, h.work) && At(d, q + 20, U32(h.cls)))
  {
    Chain(d, RESPONSE_MAGIC, h.fixed, EncodeCursor(h.after), PrintCounts(h), EncodeCursor(h.next), h.work, U32(h.cls));
  }

  /** Seven parts in a row. */
  lemma Chain(d: seq<int>, a: seq<int>, b: seq<int>, c: seq<int>, e: seq<int>, f: seq<int>, g: seq<int>, h: seq<int>)
    ensures var p := |a| + |b|; var q := p + |c|; var r := q + |e|; var s := r + |f|; var t := s + |g|;
            var whole := a + (b + (c + (e + (f + (g + h)))));
            && |whole| == t + |h|
            && (At(d, 0, whole) <==>
                At(d, 0, a) && At(d, |a|, b) && At(d, p, c) && At(d, q, e) && At(d, r, f) && At(d, s, g) && At(d, t, h))
  {
    var p, r := |a| + |b|, |a| + |b| + |c| + |e|;
    Three(d, 0, a, b, c + (e + (f + (g + h))));
    Three(d, p, c, e, f + (g + h));
    Three(d, r, f, g, h);
  }

  /** The cursors end at `p` and `q`, and the class stands behind both. */
  ghost predicate Framed(d: seq<int>, cls: int, p: nat, q: nat) {
    && 228 <= p && p + 28 <= q && q + 24 <= |d| && At(d, 0, RESPONSE_MAGIC)
    && UnBE(d[p..p + 4]) == UnBE(d[q + 20..q + 24]) == cls
  }

  lemma FramedReads(d: seq<int>, cls: int, p: nat, q: nat)
    requires Framed(d, cls, p, q) && SkipCursor(d, 224) == Some(p) && SkipCursor(d, p + 24) == Some(q)
    ensures HeaderEnd(d, cls) == Some(q + 24)
    ensures Counts(d) == Some((UnBE(d[p + 4..p + 12]), UnBE(d[p + 12..p + 20])))
  {
  }

  lemma PrintedFramed(d: seq<int>, h: Opening, p: nat, q: nat)
    requires OpeningFits(h) && At(d, 0, RESPONSE_MAGIC) && 228 <= p && p + 28 <= q && At(d, p, PrintCounts(h))
             && At(d, q + 20, U32(h.cls))
    ensures Framed(d, h.cls, p, q) && UnBE(d[p + 4..p + 12]) == h.total && UnBE(d[p + 12..p + 20]) == h.returned
  {
    CountsAt(d, p, h);
    Widths();
    ReadPacked(d, q + 20, h.cls, 4);
  }

  lemma CursorLength(c: Option<After>)
    requires CursorPacks(c)
    ensures |EncodeCursor(c)| >= 4
  {
  }

  lemma OpeningFramed(d: seq<int>, h: Opening, p: nat, q: nat)
    requires OpeningFits(h) && At(d, 0, PrintOpening(h))
    requires p == 224 + |EncodeCursor(h.after)| && q == p + 24 + |EncodeCursor(h.next)|
    ensures Framed(d, h.cls, p, q) && UnBE(d[p + 4..p + 12]) == h.total && UnBE(d[p + 12..p + 20]) == h.returned
  {
    PartsAt(d, h);
    CursorLength(h.after);
    CursorLength(h.next);
    PrintedFramed(d, h, p, q);
  }

  lemma OpeningSkipped(d: seq<int>, h: Opening, p: nat, q: nat)
    requires OpeningFits(h) && KnownArm(h.after) && KnownArm(h.next) && At(d, 0, PrintOpening(h))
    requires p == 224 + |EncodeCursor(h.after)| && q == p + 24 + |EncodeCursor(h.next)|
    ensures SkipCursor(d, 224) == Some(p) && SkipCursor(d, p + 24) == Some(q) && |PrintOpening(h)| == q + 24
  {
    PartsAt(d, h);
    PrintedTags(d, 224, h.after);
    PrintedTags(d, p + 24, h.next);
  }

  /** On a record that opens with a printed header of known cursor arms, one parser stops exactly behind the header
      and the other returns exactly its two counts. */
  lemma ParsersAgree(d: seq<int>, h: Opening)
    requires OpeningFits(h) && KnownArm(h.after) && KnownArm(h.next) && At(d, 0, PrintOpening(h))
    ensures HeaderEnd(d, h.cls) == Some(|PrintOpening(h)|)
    ensures Counts(d) == Some((h.total, h.returned))
  {
    var p := 224 + |EncodeCursor(h.after)|;
    var q := p + 24 + |EncodeCursor(h.next)|;
    OpeningFramed(d, h, p, q);
    OpeningSkipped(d, h, p, q);
    FramedReads(d, h.cls, p, q);
  }

  ghost predicate Opens(d: seq<int>, h: Opening, cls: int, end: nat) {
    OpeningFits(h) && KnownArm(h.after) && KnownArm(h.next) && h.cls == cls && At(d, 0, PrintOpening(h))
      && end == |PrintOpening(h)|
  }

  ghost predicate HasOpening(d: seq<int>, cls: int, end: nat) {
    exists h :: Opens(d, h, cls, end)
  }

  lemma HeaderFramed(d: seq<int>, cls: int) returns (p: nat, q: nat)
    requires HeaderEnd(d, cls).Some?
    ensures SkipCursor(d, 224) == Some(p) && SkipCursor(d, p + 24) == Some(q)
    ensures Framed(d, cls, p, q) && HeaderEnd(d, cls) == Some(q + 24)
  {
    p := SkipCursor(d, 224).value;
    q := SkipCursor(d, p + 24).value;
  }

  /** A record whose header is accepted opens with a printed header exactly when the tags of both cursors are known. */
  lemma AcceptedHeaderIsPrinted(d: seq<int>, cls: int)
    requires IsBytes(d) && HeaderEnd(d, cls).Some?
    ensures SkipCursor(d, 224).Some? && SkipCursor(d, SkipCursor(d, 224).value + 24).Some?
    ensures HasOpening(d, cls, HeaderEnd(d, cls).value) <==>
            KnownTags(d, 224) && KnownTags(d, SkipCursor(d, 224).value + 24)
  {
    var p, q := HeaderFramed(d, cls);
    if KnownTags(d, 224) && KnownTags(d, p + 24) { PrintedOpening(d, cls, p, q); }
    if HasOpening(d, cls, q + 24) { OpeningTags(d, cls, p, q); }
  }

  lemma OpeningTags(d: seq<int>, cls: int, p: nat, q: nat)
    requires SkipCursor(d, 224) == Some(p) && SkipCursor(d, p + 24) == Some(q) && HasOpening(d, cls, q + 24)
    ensures KnownTags(d, 224) && KnownTags(d, p + 24)
  {
    var h :| Opens(d, h, cls, q + 24);
    PartsAt(d, h);
    PrintedTags(d, 224, h.after);
    PrintedTags(d, 224 + |EncodeCursor(h.after)| + 24, h.next);
  }

  lemma PrintedOpening(d: seq<int>, cls: int, p: nat, q: nat)
    requires IsBytes(d) && Framed(d, cls, p, q) && SkipCursor(d, 224) == Some(p) && SkipCursor(d, p + 24) == Some(q)
    requires KnownTags(d, 224) && KnownTags(d, p + 24)
    ensures HasOpening(d, cls, q + 24)
  {
    var after := CursorAt(d, 224);
    var next := CursorAt(d, p + 24);
    var h := OpeningFound(d, cls, p, q, after, next);
  }

  lemma CursorAt(d: seq<int>, pos: nat) returns (c: Option<After>)
    requires IsBytes(d) && SkipCursor(d, pos).Some? && KnownTags(d, pos)
    ensures CursorPacks(c) && CursorSized(c) && KnownArm(c) && At(d, pos, EncodeCursor(c))
    ensures SkipCursor(d, pos).value == pos + |EncodeCursor(c)|
  {
    var end := SkipCursor(d, pos).value;
    SkippedIsPrinted(d, pos);
    c :| CursorPacks(c) && CursorSized(c) && KnownArm(c) && end == pos + |EncodeCursor(c)|
      && At(d, pos, EncodeCursor(c));
  }

  lemma OpeningFound(d: seq<int>, cls: int, p: nat, q: nat, after: Option<After>, next: Option<After>)
    returns (h: Opening)
    requires IsBytes(d) && Framed(d, cls, p, q)
    requires CursorPacks(after) && CursorSized(after) && p == 224 + |EncodeCursor(after)|
             && At(d, 224, EncodeCursor(after))
    requires CursorPacks(next) && CursorSized(next) && q == p + 24 + |EncodeCursor(next)|
             && At(d, p + 24, EncodeCursor(next))
    requires KnownArm(after) && KnownArm(next)
    ensures Opens(d, h, cls, q + 24)
  {
    h := FieldsRead(d, cls, p, q, after, next);
    PartsAt(d, h);
  }

  lemma FieldsRead(d: seq<int>, cls: int, p: nat, q: nat, after: Option<After>, next: Option<After>)
    returns (h: Opening)
    requires IsBytes(d) && Framed(d, cls, p, q)
    requires CursorPacks(after) && CursorSized(after) && CursorPacks(next) && CursorSized(next)
    ensures OpeningFits(h) && h.after == after && h.next == next && h.cls == cls
    ensures At(d, 8, h.fixed) && At(d, p, PrintCounts(h)) && At(d, q, h.work) && At(d, q + 20, U32(h.cls))
  {
    CountsJoin(d, p);
    var last: nat := q + 20;
    LastWord(d, last);
    assert At(d, last, U32(cls));
    var fixed, work := d[8..224], d[q..q + 20];
    var total, returned, word := UnBE(d[p + 4..p + 12]), UnBE(d[p + 12..p + 20]), UnBE(d[p + 20..p + 24]);
    h := Opening(fixed, after, cls, total, returned, word, next, work);
    assert PrintCounts(h) == U32(cls) + (U64(total) + (U64(returned) + U32(word)));
  }

  lemma LastWord(d: seq<int>, pos: nat)
    requires IsBytes(d) && pos + 4 <= |d|
    ensures Fits32(UnBE(d[pos..pos + 4])) && At(d, pos, U32(UnBE(d[pos..pos + 4])))
  {
    Widths();
    PackedAt(d, pos, 4);
  }

  lemma CountsRead(d: seq<int>, p: nat)
    requires IsBytes(d) && p + 24 <= |d|
    ensures var cls, total := UnBE(d[p..p + 4]), UnBE(d[p + 4..p + 12]);
            var returned, word := UnBE(d[p + 12..p + 20]), UnBE(d[p + 20..p + 24]);
            && Fits32(cls) && Fits64(total) && Fits64(returned) && Fits32(word)
            && At(d, p, U32(cls)) && At(d, p + 4, U64(total))
            && At(d, p + 12, U64(returned)) && At(d, p + 20, U32(word))
  {
    Widths();
    PackedAt(d, p, 4);
    PackedAt(d, p + 4, 8);
    PackedAt(d, p + 12, 8);
    PackedAt(d, p + 20, 4);
  }

  lemma CountsJoin(d: seq<int>, p: nat)
    requires IsBytes(d) && p + 24 <= |d|
    ensures var cls, total := UnBE(d[p..p + 4]), UnBE(d[p + 4..p + 12]);
            var returned, word := UnBE(d[p + 12..p + 20]), UnBE(d[p + 20..p + 24]);
            && Fits32(cls) && Fits64(total) && Fits64(returned) && Fits32(word)
            && At(d, p, U32(cls) + (U64(total) + (U64(returned) + U32(word))))
  {
    CountsRead(d, p);
    var cls, total := UnBE(d[p..p + 4]), UnBE(d[p + 4..p + 12]);
    var returned, word := UnBE(d[p + 12..p + 20]), UnBE(d[p + 20..p + 24]);
    AtSplit(d, p + 12, U64(returned), U32(word));
    Three(d, p, U32(cls), U64(total), U64(returned) + U32(word));
  }
}
