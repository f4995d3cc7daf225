/** Which code the inspector refuses a candidate with, in terms of the fields the candidate holds. */
module SnapshotCodes {
  import opened Bytes
  import opened SnapshotModel
  import opened SnapshotCodec
  import opened SnapshotInspect
  import opened Wrappers

  // The fields of a candidate, `d` being its bytes in front of the trailer.

  ghost predicate Versioned(d: seq<int>) {
    At(d, 8, U32(1)) && At(d, 12, U32(1))
  }

  ghost predicate RootAbsent(d: seq<int>) {
    At(d, 84, U32(1))
  }

  ghost predicate RootPresent(d: seq<int>) {
    At(d, 84, U32(2)) && |d| >= 120
  }

  ghost predicate InContext(d: seq<int>, epoch: seq<int>, root: seq<int>)
    requires |d| >= 120
  {
    d[16..48] == epoch && d[48..80] == FIELD_SCHEMA_HASH && d[88..120] == root
  }

  /** Everything in front of the completeness arm is as expected. */
  ghost predicate Fronted(d: seq<int>, epoch: seq<int>, root: seq<int>) {
    At(d, 0, MAGIC) && Versioned(d) && At(d, 80, U32(1)) && RootPresent(d) && InContext(d, epoch, root)
  }

  /** Behind the header stand three printed sections with modeled kinds, and nothing else. */
  ghost predicate Sectioned(d: seq<int>) {
    exists s: Snapshot :: Framed(s) && Fits(s) && AllModeled(s.inventory)
                          && At(d, 124, Body(s)) && 124 + |Body(s)| == |d|
  }

  /** What each code says of the header. */
  ghost predicate HeaderFails(d: seq<int>, epoch: seq<int>, root: seq<int>, code: Code) {
    match code
    case VersionUnsupported => At(d, 0, MAGIC) && !Versioned(d)
    case ProfileUnsupported => At(d, 0, MAGIC) && Versioned(d) && !At(d, 80, U32(1))
    case ContextMismatch =>
      && At(d, 0, MAGIC) && Versioned(d) && At(d, 80, U32(1))
      && (RootAbsent(d) || (RootPresent(d) && !InContext(d, epoch, root)))
    case CompletenessUnsupported => Fronted(d, epoch, root) && |d| >= 124 && !At(d, 120, U32(2))
    case FormatInvalid =>
      || !At(d, 0, MAGIC)
      || (Versioned(d) && At(d, 80, U32(1)) && !RootAbsent(d) && !RootPresent(d))
      || (Fronted(d, epoch, root) && |d| < 124)
    case _ => false
  }

  /** What each code says of a candidate. */
  ghost predicate InspectFails(candidate: seq<int>, epoch: seq<int>, root: seq<int>, hash: seq<int> -> seq<int>,
                               code: Code) {
    if |candidate| < 148 then code == FormatInvalid
    else if |candidate| > 67_108_864 then code == ResourceLimit
    else
      var d, trailer := candidate[..|candidate| - 32], candidate[|candidate| - 32..];
      || HeaderFails(d, epoch, root, code)
      || (Fronted(d, epoch, root) && At(d, 120, U32(2)) &&
          if Sectioned(d) then code == DigestMismatch && trailer != hash(DOMAIN + d) else code == FormatInvalid)
  }

  lemma SectionedExactly(d: seq<int>)
    requires IsBytes(d)
    ensures |d| >= 124 ==> (ReadBody(d, 124, true).Some? <==> Sectioned(d))
  {
    if |d| >= 124 && ReadBody(d, 124, true).Some? {
      var zeros, read := seq(32, _ => 0), ReadBody(d, 124, true).value;
      var s := Snapshot(zeros, zeros, 0, read.inventory, read.links, read.groups);
      PrintReadBody(d, 124, s, true);
    }
    if s: Snapshot :| Framed(s) && Fits(s) && AllModeled(s.inventory)
                      && At(d, 124, Body(s)) && 124 + |Body(s)| == |d| {
      ReadPrintedBody(d, 124, s, true);
    }
  }

  lemma HeaderWords(d: seq<int>)
    requires IsBytes(d) && |d| >= 116
    ensures Versioned(d) <==> UnBE(d[8..12]) == 1 && UnBE(d[12..16]) == 1
    ensures At(d, 80, U32(1)) <==> UnBE(d[80..84]) == 1
    ensures At(d, 84, U32(1)) <==> UnBE(d[84..88]) == 1
    ensures At(d, 84, U32(2)) <==> UnBE(d[84..88]) == 2
    ensures |d| >= 124 ==> (At(d, 120, U32(2)) <==> UnBE(d[120..124]) == 2)
  {
    FieldValue(d, 8, 1);
    FieldValue(d, 12, 1);
    FieldValue(d, 80, 1);
    FieldValue(d, 84, 1);
    FieldValue(d, 84, 2);
    if |d| >= 124 { FieldValue(d, 120, 2); }
  }

  lemma MagicWord(d: seq<int>)
    requires |d| >= 8
    ensures At(d, 0, MAGIC) <==> d[..8] == MAGIC
  {
    assert d[0..8] == d[..8] && |MAGIC| == 8;
  }

  lemma HeaderCodes(d: seq<int>, epoch: seq<int>, root: seq<int>, code: Code)
    requires IsBytes(d) && |d| >= 116
    ensures HeaderVerdict(d, epoch, root) == Some(code) <==> HeaderFails(d, epoch, root, code)
    ensures HeaderVerdict(d, epoch, root).None? <==> Fronted(d, epoch, root) && At(d, 120, U32(2))
  {
    MagicWord(d);
    HeaderWords(d);
  }

  /** The inspector refuses with a code if and only if the candidate's fields say so. */
  lemma InspectCodes(candidate: seq<int>, epoch: seq<int>, root: seq<int>, hash: seq<int> -> seq<int>, code: Code)
    requires IsBytes(candidate)
    ensures InspectVerdict(candidate, epoch, root, hash) == Some(code) <==>
            InspectFails(candidate, epoch, root, hash, code)
  {
    if 148 <= |candidate| <= 67_108_864 {
      var d := candidate[..|candidate| - 32];
      assert IsBytes(d);
      HeaderCodes(d, epoch, root, code);
      SectionedExactly(d);
    }
  }

  // Records that are not accepted.

  lemma RecordFields(s: Snapshot, candidate: seq<int>, hash: seq<int> -> seq<int>)
    requires Framed(s) && Fits(s) && candidate == Record(s, hash) && IsBytes(candidate)
    requires |hash(DOMAIN + Preimage(s))| == 32
    ensures candidate[..|candidate| - 32] == Preimage(s) && |Preimage(s)| >= 148 && |candidate| >= 180
    ensures IsBytes(Preimage(s))
    ensures At(Preimage(s), 0, Header(s.epoch, s.root, s.arm)) && At(Preimage(s), 124, Body(s))
    ensures 124 + |Body(s)| == |Preimage(s)|
  {
    var d := Preimage(s);
    AtWhole(d);
    HeaderFields(d, s.epoch, s.root, s.arm);
    AtSplit(d, 0, Header(s.epoch, s.root, s.arm), Body(s));
    assert candidate[..|candidate| - 32] == d;
    assert forall i :: 0 <= i < |d| ==> d[i] == candidate[i];
  }

  /** A record inspected against another epoch or root is out of context, whatever its arm and sections. */
  lemma OtherContext(s: Snapshot, candidate: seq<int>, epoch: seq<int>, root: seq<int>, hash: seq<int> -> seq<int>)
    requires Framed(s) && Fits(s) && candidate == Record(s, hash) && IsBytes(candidate)
    requires |hash(DOMAIN + Preimage(s))| == 32 && |candidate| <= 67_108_864
    requires epoch != s.epoch || root != s.root
    ensures InspectVerdict(candidate, epoch, root, hash) == Some(ContextMismatch)
  {
    RecordFields(s, candidate, hash);
    HeaderFields(Preimage(s), s.epoch, s.root, s.arm);
    InspectCodes(candidate, epoch, root, hash, ContextMismatch);
  }

  /** The bytes with the 32-bit word at one place replaced. */
  function Overwritten(d: seq<int>, at: nat, word: nat): seq<int>
    requires at + 4 <= |d|
  {
    d[..at] + (U32(word) + d[at + 4..])
  }

  lemma OverwrittenKeeps(d: seq<int>, at: nat, word: nat, pos: nat, part: seq<int>)
    requires at + 4 <= |d| && At(d, pos, part) && (pos + |part| <= at || at + 4 <= pos)
    ensures At(Overwritten(d, at, word), pos, part)
  {
    var e := Overwritten(d, at, word);
    if pos + |part| <= at {
      assert e[pos..pos + |part|] == d[..at][pos..pos + |part|];
    } else {
      assert e[pos..pos + |part|] == d[at + 4..][pos - at - 4..pos - at - 4 + |part|];
    }
  }

  lemma OverwrittenHolds(d: seq<int>, at: nat, word: nat, other: nat)
    requires at + 4 <= |d| && word < LIMIT32 && other < LIMIT32
    ensures At(Overwritten(d, at, word), at, U32(other)) <==> word == other
  {
    var e := Overwritten(d, at, word);
    assert e[at..at + 4] == U32(word);
    Widths();
    if At(e, at, U32(other)) {
      ReadPacked(e, at, word, 4);
      ReadPacked(e, at, other, 4);
    }
  }

  lemma OverwrittenBytes(d: seq<int>, at: nat, word: nat)
    requires IsBytes(d) && at + 4 <= |d| && word < LIMIT32
    ensures IsBytes(Overwritten(d, at, word)) && |Overwritten(d, at, word)| == |d|
  {
    BEBytes(word, 4);
  }

  /** The front of a header, with whatever word stands at one of its places. */
  lemma OverwrittenFront(d: seq<int>, s: Snapshot, at: nat, word: nat)
    requires Framed(s) && At(d, 0, Header(s.epoch, s.root, s.arm)) && at in {8, 12, 80, 84, 120} && word < LIMIT32
    ensures var e := Overwritten(d, at, word);
            && At(e, 0, MAGIC) && At(e, 16, s.epoch) && At(e, 48, FIELD_SCHEMA_HASH) && At(e, 88, s.root)
            && (at != 8 ==> At(e, 8, U32(1))) && (at != 12 ==> At(e, 12, U32(1)))
            && (at != 80 ==> At(e, 80, U32(1))) && (at != 84 ==> At(e, 84, U32(2)))
  {
    HeaderFields(d, s.epoch, s.root, s.arm);
    OverwrittenKeeps(d, at, word, 0, MAGIC);
    OverwrittenKeeps(d, at, word, 16, s.epoch);
    OverwrittenKeeps(d, at, word, 48, FIELD_SCHEMA_HASH);
    OverwrittenKeeps(d, at, word, 88, s.root);
    if at != 8 { OverwrittenKeeps(d, at, word, 8, U32(1)); }
    if at != 12 { OverwrittenKeeps(d, at, word, 12, U32(1)); }
    if at != 80 { OverwrittenKeeps(d, at, word, 80, U32(1)); }
    if at != 84 { OverwrittenKeeps(d, at, word, 84, U32(2)); }
  }

  /** The code of a header with another word at one of its places. */
  function WordCode(at: nat, word: nat): Code {
    if at == 8 || at == 12 then VersionUnsupported
    else if at == 80 then ProfileUnsupported
    else if at == 84 then if word == 1 then ContextMismatch else FormatInvalid
    else CompletenessUnsupported
  }

  lemma OtherWordFails(d: seq<int>, s: Snapshot, at: nat, word: nat)
    requires Framed(s) && |d| >= 124 && At(d, 0, Header(s.epoch, s.root, s.arm)) && word < LIMIT32
    requires at in {8, 12, 80, 84, 120} && word != if at == 84 || at == 120 then 2 else 1
    ensures HeaderFails(Overwritten(d, at, word), s.epoch, s.root, WordCode(at, word))
  {
    OverwrittenFront(d, s, at, word);
    OverwrittenHolds(d, at, word, 1);
    OverwrittenHolds(d, at, word, 2);
    assert |Overwritten(d, at, word)| == |d|;
  }

  lemma OverwrittenCut(d: seq<int>, trailer: seq<int>, at: nat, word: nat)
    requires at + 4 <= |d|
    ensures Overwritten(d + trailer, at, word) == Overwritten(d, at, word) + trailer
  {
  }

  /** A failing header decides. */
  lemma HeaderDecides(d: seq<int>, trailer: seq<int>, epoch: seq<int>, root: seq<int>, hash: seq<int> -> seq<int>,
                      code: Code)
    requires IsBytes(d + trailer) && |trailer| == 32 && 148 <= |d + trailer| <= 67_108_864
    requires HeaderFails(d, epoch, root, code)
    ensures InspectVerdict(d + trailer, epoch, root, hash) == Some(code)
  {
    assert (d + trailer)[..|d|] == d;
    InspectCodes(d + trailer, epoch, root, hash, code);
  }

  lemma OtherWordCode(d: seq<int>, trailer: seq<int>, s: Snapshot, at: nat, word: nat, hash: seq<int> -> seq<int>)
    requires Framed(s) && |d| >= 124 && At(d, 0, Header(s.epoch, s.root, s.arm)) && word < LIMIT32
    requires IsBytes(d + trailer) && |trailer| == 32 && |d + trailer| <= 67_108_864
    requires at in {8, 12, 80, 84, 120} && word != if at == 84 || at == 120 then 2 else 1
    ensures InspectVerdict(Overwritten(d + trailer, at, word), s.epoch, s.root, hash) == Some(WordCode(at, word))
  {
    OverwrittenBytes(d + trailer, at, word);
    OverwrittenCut(d, trailer, at, word);
    OtherWordFails(d, s, at, word);
    var e, code := Overwritten(d, at, word), WordCode(at, word);
    HeaderDecides(e, trailer, s.epoch, s.root, hash, code);
  }

  /** The code of a record whose version, profile, limits, option or arm word is another. */
  lemma OtherWord(s: Snapshot, record: seq<int>, at: nat, word: nat, hash: seq<int> -> seq<int>)
    requires Framed(s) && Fits(s) && record == Record(s, hash) && IsBytes(record)
    requires |hash(DOMAIN + Preimage(s))| == 32 && |record| <= 67_108_864 && word < LIMIT32
    requires at in {8, 12, 80, 84, 120} && word != if at == 84 || at == 120 then 2 else 1
    ensures InspectVerdict(Overwritten(record, at, word), s.epoch, s.root, hash) == Some(WordCode(at, word))
  {
    RecordFields(s, record, hash);
    OtherWordCode(Preimage(s), hash(DOMAIN + Preimage(s)), s, at, word, hash);
  }

  /** A record of modeled kinds behind which another trailer stands. */
  lemma OtherTrailer(s: Snapshot, trailer: seq<int>, hash: seq<int> -> seq<int>)
    requires Framed(s) && Fits(s) && s.arm == 2 && AllModeled(s.inventory)
    requires IsBytes(Preimage(s) + trailer) && |trailer| == 32 && |Preimage(s) + trailer| <= 67_108_864
    requires trailer != hash(DOMAIN + Preimage(s))
    ensures InspectVerdict(Preimage(s) + trailer, s.epoch, s.root, hash) == Some(DigestMismatch)
  {
    RecordFields(s, Preimage(s) + trailer, _ => trailer);
    HeaderFields(Preimage(s), s.epoch, s.root, s.arm);
    InspectCodes(Preimage(s) + trailer, s.epoch, s.root, hash, DigestMismatch);
  }
}
