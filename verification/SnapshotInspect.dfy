/** The bounded inspector: a cursor over the preimage, nested counted loops, and what acceptance means. */
module SnapshotInspect {
  import opened Bytes
  import opened Cursors
  import opened SnapshotModel
  import opened SnapshotCodec
  import opened Wrappers

  /** The preimage and the trailer of a candidate. */
  function Split(candidate: seq<int>): (seq<int>, seq<int>)
    requires |candidate| >= 32
  {
    (candidate[..|candidate| - 32], candidate[|candidate| - 32..])
  }

  /** What the header fields in front of the sections decide, in the order they are read. */
  function HeaderVerdict(d: seq<int>, epoch: seq<int>, root: seq<int>): Option<Code>
    requires |d| >= 116
  {
    if d[..8] != MAGIC then Some(FormatInvalid)
    else if UnBE(d[8..12]) != FORMAT_VERSION || UnBE(d[12..16]) != PROFILE_VERSION then Some(VersionUnsupported)
    else if UnBE(d[80..84]) != LIMITS_PROFILE then Some(ProfileUnsupported)
    else if UnBE(d[84..88]) == OPTION_NONE then Some(ContextMismatch)
    else if UnBE(d[84..88]) != OPTION_SOME || |d| < 120 then Some(FormatInvalid)
    else if d[16..48] != epoch || d[48..80] != FIELD_SCHEMA_HASH || d[88..120] != root then Some(ContextMismatch)
    else if |d| < 124 then Some(FormatInvalid)
    else if UnBE(d[120..124]) != COMPLETE_ROOT_ARM then Some(CompletenessUnsupported)
    else None
  }

  function InspectVerdict(candidate: seq<int>, epoch: seq<int>, root: seq<int>,
                          hash: seq<int> -> seq<int>): Option<Code> {
    if |candidate| < MIN_RECORD_BYTES then Some(FormatInvalid)
    else if |candidate| > MAX_RECORD_BYTES then Some(ResourceLimit)
    else
      var (d, trailer) := Split(candidate);
      if HeaderVerdict(d, epoch, root).Some? then HeaderVerdict(d, epoch, root)
      else if ReadBody(d, 124, true).None? then Some(FormatInvalid)
      else if hash(DOMAIN + d) != trailer then Some(DigestMismatch)
      else None
  }

  /** `36 * turns` is paid for by the bytes consumed, up to the turns that were started and failed. */
  ghost predicate Paid(turns: nat, from: nat, to: nat, failing: nat) {
    from <= to && 36 * turns <= to - from + 36 * failing
  }

  method SkipMembers(cursor: Cursor, n: nat, modeled: bool) returns (ok: bool, ghost turns: nat)
    requires cursor.offset <= |cursor.data|
    modifies cursor`offset
    ensures cursor.offset <= |cursor.data|
    ensures ok <==> ReadMembers(cursor.data, old(cursor.offset), n, modeled).Some?
    ensures ok ==> cursor.offset == ReadMembers(cursor.data, old(cursor.offset), n, modeled).value.1
    ensures Paid(turns, old(cursor.offset), cursor.offset, if ok then 0 else 1)
    ensures if ok then turns == n else 1 <= turns <= n
  {
    turns := 0;
    for i := 0 to n
      invariant cursor.offset <= |cursor.data| && turns == i
      invariant Paid(turns, old(cursor.offset), cursor.offset, 0)
      invariant ReadMembers(cursor.data, old(cursor.offset), n, modeled).Some? <==>
                ReadMembers(cursor.data, cursor.offset, n - i, modeled).Some?
      invariant ReadMembers(cursor.data, cursor.offset, n - i, modeled).Some? ==>
                ReadMembers(cursor.data, cursor.offset, n - i, modeled).value.1
                == ReadMembers(cursor.data, old(cursor.offset), n, modeled).value.1
    {
      turns := turns + 1;
      var id := cursor.Take(32);
      if id.None? { return false, turns; }
      var kind := cursor.TakeU32();
      if kind.None? { return false, turns; }
      if modeled && !(1 <= kind.value <= 18) { return false, turns; }
    }
    return true, turns;
  }

  method SkipLinks(cursor: Cursor, n: nat) returns (ok: bool, ghost turns: nat)
    requires cursor.offset <= |cursor.data|
    modifies cursor`offset
    ensures cursor.offset <= |cursor.data|
    ensures ok <==> ReadLinks(cursor.data, old(cursor.offset), n).Some?
    ensures ok ==> cursor.offset == ReadLinks(cursor.data, old(cursor.offset), n).value.1
    ensures Paid(turns, old(cursor.offset), cursor.offset, if ok then 0 else 1)
    ensures if ok then turns == n else 1 <= turns <= n
  {
    turns := 0;
    for i := 0 to n
      invariant cursor.offset <= |cursor.data| && turns == i
      invariant Paid(turns, old(cursor.offset), cursor.offset, 0)
      invariant ReadLinks(cursor.data, old(cursor.offset), n).Some? <==>
                ReadLinks(cursor.data, cursor.offset, n - i).Some?
      invariant ReadLinks(cursor.data, cursor.offset, n - i).Some? ==>
                ReadLinks(cursor.data, cursor.offset, n - i).value.1
                  == ReadLinks(cursor.data, old(cursor.offset), n).value.1
    {
      turns := turns + 1;
      var link := cursor.Take(68);
      if link.None? { return false, turns; }
    }
    return true, turns;
  }

  method SkipGroups(cursor: Cursor, n: nat) returns (ok: bool, ghost turns: nat)
    requires cursor.offset <= |cursor.data| && IsBytes(cursor.data)
    modifies cursor`offset
    ensures cursor.offset <= |cursor.data|
    ensures ok <==> ReadGroups(cursor.data, old(cursor.offset), n).Some?
    ensures ok ==> cursor.offset == ReadGroups(cursor.data, old(cursor.offset), n).value.1
    ensures Paid(turns, old(cursor.offset), cursor.offset, if ok then 0 else 2)
    ensures if ok then turns == n + Sizes(ReadGroups(cursor.data, old(cursor.offset), n).value.0) else turns >= 1
  {
    turns := 0;
    for i := 0 to n
      invariant cursor.offset <= |cursor.data|
      invariant Paid(turns, old(cursor.offset), cursor.offset, 0)
      invariant ReadGroups(cursor.data, old(cursor.offset), n).Some? <==>
                ReadGroups(cursor.data, cursor.offset, n - i).Some?
      invariant ReadGroups(cursor.data, cursor.offset, n - i).Some? ==>
                ReadGroups(cursor.data, cursor.offset, n - i).value.1
                  == ReadGroups(cursor.data, old(cursor.offset), n).value.1
      invariant ReadGroups(cursor.data, cursor.offset, n - i).Some? ==>
                turns + (n - i) + Sizes(ReadGroups(cursor.data, cursor.offset, n - i).value.0)
                == n + Sizes(ReadGroups(cursor.data, old(cursor.offset), n).value.0)
    {
      ghost var inner;
      ok, inner := SkipGroup(cursor);
      turns := turns + 1 + inner;
      if !ok { return false, turns; }
    }
    return true, turns;
  }

  method SkipGroup(cursor: Cursor) returns (ok: bool, ghost turns: nat)
    requires cursor.offset <= |cursor.data| && IsBytes(cursor.data)
    modifies cursor`offset
    ensures cursor.offset <= |cursor.data|
    ensures ok <==> ReadGroup(cursor.data, old(cursor.offset)).Some?
    ensures ok ==> cursor.offset == ReadGroup(cursor.data, old(cursor.offset)).value.1
    ensures Paid(turns + 1, old(cursor.offset), cursor.offset, if ok then 0 else 2)
    ensures ok ==> turns == |ReadGroup(cursor.data, old(cursor.offset)).value.0.members|
  {
    var key := cursor.Take(32);
    if key.None? { return false, 0; }
    assert cursor.offset + 8 <= |cursor.data| ==> ReadU64(cursor.data, cursor.offset).Some?;
    ghost var at := cursor.offset;
    var count := cursor.TakeU64();
    if count.None? { return false, 0; }
    CountRange(cursor.data, at);
    MembersCounted(cursor.data, cursor.offset, count.value, false);
    ok, turns := SkipMembers(cursor, count.value, false);
  }

  lemma {:induction false} MembersCounted(d: seq<int>, pos: nat, n: nat, modeled: bool)
    ensures ReadMembers(d, pos, n, modeled).Some? ==> |ReadMembers(d, pos, n, modeled).value.0| == n
    decreases n
  {
    if n > 0 { MembersCounted(d, pos + 36, n - 1, modeled); }
  }

  lemma {:induction false} LinksCounted(d: seq<int>, pos: nat, n: nat)
    ensures ReadLinks(d, pos, n).Some? ==> |ReadLinks(d, pos, n).value.0| == n
    decreases n
  {
    if n > 0 { LinksCounted(d, pos + 68, n - 1); }
  }

  lemma {:induction false} GroupsCounted(d: seq<int>, pos: nat, n: nat)
    ensures ReadGroups(d, pos, n).Some? ==> |ReadGroups(d, pos, n).value.0| == n
    decreases n
  {
    if n > 0 && ReadGroup(d, pos).Some? { GroupsCounted(d, ReadGroup(d, pos).value.1, n - 1); }
  }

  /** `inspect`. However large the declared counts, the loop turns it starts are paid for by the candidate's bytes,
      but for at most two that fail. */
  method Inspect(candidate: seq<int>, epoch: seq<int>, root: seq<int>, hash: seq<int> -> seq<int>)
    returns (failure: Option<Code>, ghost turns: nat)
    requires IsBytes(candidate)
    ensures failure == InspectVerdict(candidate, epoch, root, hash)
    ensures 36 * turns <= |candidate| + 72
    ensures failure in {None, Some(DigestMismatch)} ==>
              turns == Entries(ReadBody(Split(candidate).0, 124, true).value)
  {
    turns := 0;
    if |candidate| < MIN_RECORD_BYTES { return Some(FormatInvalid), 0; }
    if |candidate| > MAX_RECORD_BYTES { return Some(ResourceLimit), 0; }
    var (d, trailer) := Split(candidate);
    var cursor := new Cursor(d);
    failure := InspectHeader(cursor, epoch, root);
    if failure.Some? { return; }
    var ok;
    ok, turns := SkipBody(cursor);
    if !ok || cursor.offset != |d| { return Some(FormatInvalid), turns; }
    if hash(DOMAIN + d) != trailer { return Some(DigestMismatch), turns; }
    return None, turns;
  }

  method InspectHeader(cursor: Cursor, epoch: seq<int>, root: seq<int>) returns (failure: Option<Code>)
    requires cursor.offset == 0 && |cursor.data| >= 116
    modifies cursor`offset
    ensures failure == HeaderVerdict(cursor.data, epoch, root)
    ensures failure.None? ==> cursor.offset == 124 <= |cursor.data|
  {
    var magic := cursor.Take(8);
    if magic.value != MAGIC { return Some(FormatInvalid); }
    var format := cursor.TakeU32();
    if format.value != FORMAT_VERSION { return Some(VersionUnsupported); }
    var profile := cursor.TakeU32();
    if profile.value != PROFILE_VERSION { return Some(VersionUnsupported); }
    var foundEpoch := cursor.Take(32);
    var foundSchema := cursor.Take(32);
    var limits := cursor.TakeU32();
    if limits.value != LIMITS_PROFILE { return Some(ProfileUnsupported); }
    var option := cursor.TakeU32();
    var foundRoot: Option<seq<int>> := None;
    if option.value == OPTION_SOME {
      foundRoot := cursor.Take(32);
      if foundRoot.None? { return Some(FormatInvalid); }
    } else if option.value != OPTION_NONE {
      return Some(FormatInvalid);
    }
    if foundEpoch.value != epoch || foundSchema.value != FIELD_SCHEMA_HASH || foundRoot != Some(root) {
      return Some(ContextMismatch);
    }
    var arm := cursor.TakeU32();
    if arm.None? { return Some(FormatInvalid); }
    if arm.value != COMPLETE_ROOT_ARM { return Some(CompletenessUnsupported); }
    return None;
  }

  /** The three counted sections and where they end, without the closing check that nothing is left. */
  function ReadSections(d: seq<int>, pos: nat): Option<(Sections, nat)> {
    match ReadInventory(d, pos, true)
    case None => None
    case Some((inventory, p1)) =>
      match ReadLinkSection(d, p1)
      case None => None
      case Some((links, p2)) =>
        match ReadGroupSection(d, p2)
        case None => None
        case Some((groups, p3)) => Some((Sections(inventory, links, groups), p3))
  }

  /** One turn for every entry, edge, group and group member. */
  function Entries(s: Sections): nat {
    |s.inventory| + |s.links| + |s.groups| + Sizes(s.groups)
  }

  method SkipBody(cursor: Cursor) returns (ok: bool, ghost turns: nat)
    requires cursor.offset <= |cursor.data| && IsBytes(cursor.data)
    modifies cursor`offset
    ensures cursor.offset <= |cursor.data|
    ensures ok <==> ReadSections(cursor.data, old(cursor.offset)).Some?
    ensures ok ==> cursor.offset == ReadSections(cursor.data, old(cursor.offset)).value.1
    ensures ok ==> turns == Entries(ReadSections(cursor.data, old(cursor.offset)).value.0)
    ensures Paid(turns, old(cursor.offset), cursor.offset, 2)
  {
    turns := 0;
    ghost var more;
    ok, turns := SkipInventory(cursor);
    if !ok { return; }
    ok, more := SkipLinkSection(cursor);
    turns := turns + more;
    if !ok { return; }
    ok, more := SkipGroupSection(cursor);
    turns := turns + more;
  }

  method SkipInventory(cursor: Cursor) returns (ok: bool, ghost turns: nat)
    requires cursor.offset <= |cursor.data| && IsBytes(cursor.data)
    modifies cursor`offset
    ensures cursor.offset <= |cursor.data|
    ensures var read := ReadInventory(cursor.data, old(cursor.offset), true);
            (ok <==> read.Some?) && (ok ==> cursor.offset == read.value.1 && turns == |read.value.0|)
    ensures Paid(turns, old(cursor.offset), cursor.offset, if ok then 0 else 1)
  {
    ghost var at := cursor.offset;
    var count := cursor.TakeU64();
    if count.None? { return false, 0; }
    CountRange(cursor.data, at);
    MembersCounted(cursor.data, cursor.offset, count.value, true);
    ok, turns := SkipMembers(cursor, count.value, true);
  }

  method SkipLinkSection(cursor: Cursor) returns (ok: bool, ghost turns: nat)
    requires cursor.offset <= |cursor.data| && IsBytes(cursor.data)
    modifies cursor`offset
    ensures cursor.offset <= |cursor.data|
    ensures var read := ReadLinkSection(cursor.data, old(cursor.offset));
            (ok <==> read.Some?) && (ok ==> cursor.offset == read.value.1 && turns == |read.value.0|)
    ensures Paid(turns, old(cursor.offset), cursor.offset, if ok then 0 else 1)
  {
    ghost var at := cursor.offset;
    var count := cursor.TakeU64();
    if count.None? { return false, 0; }
    CountRange(cursor.data, at);
    LinksCounted(cursor.data, cursor.offset, count.value);
    ok, turns := SkipLinks(cursor, count.value);
  }

  method SkipGroupSection(cursor: Cursor) returns (ok: bool, ghost turns: nat)
    requires cursor.offset <= |cursor.data| && IsBytes(cursor.data)
    modifies cursor`offset
    ensures cursor.offset <= |cursor.data|
    ensures var read := ReadGroupSection(cursor.data, old(cursor.offset));
            (ok <==> read.Some?)
              && (ok ==> cursor.offset == read.value.1 && turns == |read.value.0| + Sizes(read.value.0))
    ensures Paid(turns, old(cursor.offset), cursor.offset, if ok then 0 else 2)
  {
    ghost var at := cursor.offset;
    var count := cursor.TakeU64();
    if count.None? { return false, 0; }
    CountRange(cursor.data, at);
    GroupsCounted(cursor.data, cursor.offset, count.value);
    ok, turns := SkipGroups(cursor, count.value);
  }

  // What acceptance means.

  /** The record of a snapshot under a digest. */
  function Record(s: Snapshot, hash: seq<int> -> seq<int>): seq<int>
    requires Fits(s)
  {
    Preimage(s) + hash(DOMAIN + Preimage(s))
  }

  /** The candidate is the record of some snapshot of this context with modeled kinds. */
  ghost predicate WellFormedRecord(candidate: seq<int>, epoch: seq<int>, root: seq<int>, hash: seq<int> -> seq<int>) {
    exists s: Snapshot :: Framed(s) && Fits(s) && s.epoch == epoch && s.root == root && s.arm == COMPLETE_ROOT_ARM
                          && AllModeled(s.inventory) && candidate == Record(s, hash)
  }

  lemma FieldValue(d: seq<int>, pos: nat, v: nat)
    requires IsBytes(d) && pos + 4 <= |d| && v < LIMIT32
    ensures UnBE(d[pos..pos + 4]) == v <==> At(d, pos, U32(v))
  {
    Widths();
    PackedAt(d, pos, 4);
    if At(d, pos, U32(v)) { ReadPacked(d, pos, v, 4); }
  }

  lemma FrontFields(d: seq<int>, rest: seq<int>)
    ensures At(d, 0, MAGIC + (U32(FORMAT_VERSION) + (U32(PROFILE_VERSION) + rest))) <==>
            At(d, 0, MAGIC) && At(d, 8, U32(FORMAT_VERSION)) && At(d, 12, U32(PROFILE_VERSION)) && At(d, 16, rest)
  {
    Three(d, 0, MAGIC, U32(FORMAT_VERSION), U32(PROFILE_VERSION) + rest);
    AtSplit(d, 12, U32(PROFILE_VERSION), rest);
  }

  lemma BackFields(d: seq<int>, root: seq<int>, arm: nat)
    requires |root| == 32
    ensures At(d, 80, U32(LIMITS_PROFILE) + (U32(OPTION_SOME) + (root + U32(arm)))) <==>
            At(d, 80, U32(LIMITS_PROFILE)) && At(d, 84, U32(OPTION_SOME)) && At(d, 88, root) && At(d, 120, U32(arm))
  {
    Three(d, 80, U32(LIMITS_PROFILE), U32(OPTION_SOME), root + U32(arm));
    AtSplit(d, 88, root, U32(arm));
  }

  /** The header at the front, field by field. */
  lemma HeaderFields(d: seq<int>, epoch: seq<int>, root: seq<int>, arm: nat)
    requires |epoch| == 32 && |root| == 32
    ensures |Header(epoch, root, arm)| == 124
    ensures At(d, 0, Header(epoch, root, arm)) <==>
            && At(d, 0, MAGIC) && At(d, 8, U32(FORMAT_VERSION)) && At(d, 12, U32(PROFILE_VERSION)) && At(d, 16, epoch)
            && At(d, 48, FIELD_SCHEMA_HASH) && At(d, 80, U32(LIMITS_PROFILE)) && At(d, 84, U32(OPTION_SOME))
            && At(d, 88, root) && At(d, 120, U32(arm))
  {
    var back := U32(LIMITS_PROFILE) + (U32(OPTION_SOME) + (root + U32(arm)));
    FrontFields(d, epoch + (FIELD_SCHEMA_HASH + back));
    Three(d, 16, epoch, FIELD_SCHEMA_HASH, back);
    BackFields(d, root, arm);
  }

  /** With a 124-byte header in front, the header check comes down to the completeness arm. */
  lemma HeaderAccepts(d: seq<int>, epoch: seq<int>, root: seq<int>, arm: nat)
    requires IsBytes(d) && |d| >= 124 && |epoch| == 32 && |root| == 32 && arm < LIMIT32
    requires At(d, 0, Header(epoch, root, arm))
    ensures HeaderVerdict(d, epoch, root) == if arm == COMPLETE_ROOT_ARM then None else Some(CompletenessUnsupported)
  {
    HeaderFields(d, epoch, root, arm);
    FieldValue(d, 8, FORMAT_VERSION);
    FieldValue(d, 12, PROFILE_VERSION);
    FieldValue(d, 80, LIMITS_PROFILE);
    FieldValue(d, 84, OPTION_SOME);
    FieldValue(d, 120, arm);
  }

  lemma AcceptedWords(d: seq<int>, epoch: seq<int>, root: seq<int>)
    requires |d| >= 116 && HeaderVerdict(d, epoch, root).None?
    ensures |d| >= 124 && UnBE(d[8..12]) == FORMAT_VERSION && UnBE(d[12..16]) == PROFILE_VERSION
    ensures UnBE(d[80..84]) == LIMITS_PROFILE && UnBE(d[84..88]) == OPTION_SOME
            && UnBE(d[120..124]) == COMPLETE_ROOT_ARM
    ensures d[..8] == MAGIC && d[16..48] == epoch && d[48..80] == FIELD_SCHEMA_HASH && d[88..120] == root
  {
  }

  lemma AcceptedIds(d: seq<int>, epoch: seq<int>, root: seq<int>)
    requires |d| >= 124 && |epoch| == 32 && |root| == 32
    requires d[..8] == MAGIC && d[16..48] == epoch && d[48..80] == FIELD_SCHEMA_HASH && d[88..120] == root
    ensures At(d, 0, MAGIC) && At(d, 16, epoch) && At(d, 48, FIELD_SCHEMA_HASH) && At(d, 88, root)
  {
  }

  lemma HeaderAccepted(d: seq<int>, epoch: seq<int>, root: seq<int>)
    requires IsBytes(d) && |d| >= 116 && |epoch| == 32 && |root| == 32
    requires HeaderVerdict(d, epoch, root).None?
    ensures At(d, 0, Header(epoch, root, COMPLETE_ROOT_ARM))
  {
    AcceptedWords(d, epoch, root);
    AcceptedIds(d, epoch, root);
    FieldValue(d, 8, FORMAT_VERSION);
    FieldValue(d, 12, PROFILE_VERSION);
    FieldValue(d, 80, LIMITS_PROFILE);
    FieldValue(d, 84, OPTION_SOME);
    FieldValue(d, 120, COMPLETE_ROOT_ARM);
    HeaderFields(d, epoch, root, COMPLETE_ROOT_ARM);
  }

  /** What the inspector says about a record, from the record's own fields. */
  lemma InspectRecord(s: Snapshot, candidate: seq<int>, hash: seq<int> -> seq<int>)
    requires Framed(s) && Fits(s) && candidate == Record(s, hash) && IsBytes(candidate)
    requires forall x :: |hash(x)| == 32
    ensures InspectVerdict(candidate, s.epoch, s.root, hash) ==
            if |candidate| > MAX_RECORD_BYTES then Some(ResourceLimit)
            else if s.arm != COMPLETE_ROOT_ARM then Some(CompletenessUnsupported)
            else if !AllModeled(s.inventory) then Some(FormatInvalid)
            else None
  {
    var d := Preimage(s);
    var header := Header(s.epoch, s.root, s.arm);
    assert candidate[..|candidate| - 32] == d && candidate[|candidate| - 32..] == hash(DOMAIN + d);
    AtWhole(d);
    AtSplit(d, 0, header, Body(s));
    HeaderFields(d, s.epoch, s.root, s.arm);
    assert IsBytes(d) by { assert forall i :: 0 <= i < |d| ==> d[i] == candidate[i]; }
    BodySections(s);
    HeaderAccepts(d, s.epoch, s.root, s.arm);
    ReadPrintedBody(d, 124, s, true);
  }

  lemma AcceptedIsRecord(candidate: seq<int>, epoch: seq<int>, root: seq<int>, hash: seq<int> -> seq<int>)
    requires IsBytes(candidate) && |epoch| == 32 && |root| == 32
    requires InspectVerdict(candidate, epoch, root, hash).None?
    ensures WellFormedRecord(candidate, epoch, root, hash)
  {
    var d, trailer := AcceptedParts(candidate, epoch, root, hash);
    var s := AcceptedSnapshot(d, epoch, root);
    assert candidate == Record(s, hash);
  }

  lemma AcceptedParts(candidate: seq<int>, epoch: seq<int>, root: seq<int>, hash: seq<int> -> seq<int>)
    returns (d: seq<int>, trailer: seq<int>)
    requires IsBytes(candidate) && InspectVerdict(candidate, epoch, root, hash).None?
    ensures candidate == d + trailer && IsBytes(d) && |d| >= 116 && trailer == hash(DOMAIN + d)
    ensures HeaderVerdict(d, epoch, root).None? && ReadBody(d, 124, true).Some?
  {
    d, trailer := candidate[..|candidate| - 32], candidate[|candidate| - 32..];
    assert forall i :: 0 <= i < |d| ==> d[i] == candidate[i];
  }

  lemma AcceptedSnapshot(d: seq<int>, epoch: seq<int>, root: seq<int>) returns (s: Snapshot)
    requires IsBytes(d) && |d| >= 116 && |epoch| == 32 && |root| == 32
    requires HeaderVerdict(d, epoch, root).None? && ReadBody(d, 124, true).Some?
    ensures Framed(s) && Fits(s) && s.epoch == epoch && s.root == root && s.arm == COMPLETE_ROOT_ARM
    ensures AllModeled(s.inventory) && d == Preimage(s)
  {
    HeaderAccepted(d, epoch, root);
    var read := ReadBody(d, 124, true).value;
    s := Snapshot(epoch, root, COMPLETE_ROOT_ARM, read.inventory, read.links, read.groups);
    PrintReadBody(d, 124, s, true);
    WholePreimage(d, s);
  }

  lemma WholePreimage(d: seq<int>, s: Snapshot)
    requires Framed(s) && Fits(s) && At(d, 0, Header(s.epoch, s.root, s.arm)) && At(d, 124, Body(s))
             && 124 + |Body(s)| == |d|
    ensures d == Preimage(s)
  {
    HeaderFields(d, s.epoch, s.root, s.arm);
    AtSplit(d, 0, Header(s.epoch, s.root, s.arm), Body(s));
  }

  /** Acceptance, exactly: a candidate within the size cap is accepted if and only if it is the record of a snapshot of
      the expected context with modeled kinds, every byte of it accounted for by the declared counts. */
  lemma InspectExact(candidate: seq<int>, epoch: seq<int>, root: seq<int>, hash: seq<int> -> seq<int>)
    requires IsBytes(candidate) && |epoch| == 32 && |root| == 32
    requires forall x :: |hash(x)| == 32
    ensures InspectVerdict(candidate, epoch, root, hash).None? <==>
            |candidate| <= MAX_RECORD_BYTES && WellFormedRecord(candidate, epoch, root, hash)
  {
    if WellFormedRecord(candidate, epoch, root, hash) {
      var s: Snapshot :| Framed(s) && Fits(s) && s.epoch == epoch && s.root == root && s.arm == COMPLETE_ROOT_ARM
                         && AllModeled(s.inventory) && candidate == Record(s, hash);
      InspectRecord(s, candidate, hash);
    }
    if InspectVerdict(candidate, epoch, root, hash).None? { AcceptedIsRecord(candidate, epoch, root, hash); }
  }

  /** The preimage determines the snapshot it prints: epoch, root, arm and all three sections. */
  lemma PreimageInjective(a: Snapshot, b: Snapshot)
    requires Framed(a) && Fits(a) && Framed(b) && Fits(b)
    requires Preimage(a) == Preimage(b)
    ensures a == b
  {
    PreimageReads(a);
    PreimageReads(b);
  }

  /** Everything a snapshot holds stands at its place in the preimage. */
  lemma PreimageReads(s: Snapshot)
    requires Framed(s) && Fits(s)
    ensures var d := Preimage(s);
            && |d| >= 124 && s.epoch == d[16..48] && s.root == d[88..120] && s.arm == UnBE(d[120..124])
            && ReadBody(d, 124, false) == Some(Sections(s.inventory, s.links, s.groups))
  {
    var d := Preimage(s);
    AtWhole(d);
    AtSplit(d, 0, Header(s.epoch, s.root, s.arm), Body(s));
    HeaderFields(d, s.epoch, s.root, s.arm);
    U32RoundTrip(s.arm);
    ReadPrintedBody(d, 124, s, false);
  }
}
