/** Reading what was printed gives it back, and printing what was read gives the bytes back. */
module SnapshotCodec {
  import opened Bytes
  import opened Cursors
  import opened SnapshotModel
  import opened Wrappers

  ghost predicate MemberFits(m: Member) { |m.id| == 32 && Packable(m.kind) }

  ghost predicate MembersFit(ms: seq<Member>) { forall i :: 0 <= i < |ms| ==> MemberFits(ms[i]) }

  ghost predicate LinksFit(ls: seq<Link>) {
    forall i :: 0 <= i < |ls| ==> |ls[i].dependent| == 32 && |ls[i].dependency| == 32 && Packable(ls[i].kind)
  }

  ghost predicate GroupFits(g: Group) { |g.key| == 32 && |g.members| < LIMIT64 && MembersFit(g.members) }

  ghost predicate GroupsFit(gs: seq<Group>) { forall i :: 0 <= i < |gs| ==> GroupFits(gs[i]) }

  predicate Modeled(kind: int) { 1 <= kind <= 18 }

  ghost predicate AllModeled(ms: seq<Member>) { forall i :: 0 <= i < |ms| ==> Modeled(ms[i].kind) }

  // Members.

  lemma ReadMemberAt(d: seq<int>, pos: nat, m: Member)
    requires MemberFits(m) && At(d, pos, PrintMember(m))
    ensures pos + 36 <= |d| && Member(d[pos..pos + 32], UnBE(d[pos + 32..pos + 36])) == m
  {
    AtSplit(d, pos, m.id, U32(m.kind));
    Widths();
    ReadPacked(d, pos + 32, m.kind, 4);
  }

  /** Printed members read back, unless a kind outside 1..18 stops a reader that checks kinds. */
  lemma {:induction false} ReadPrintedMembers(d: seq<int>, pos: nat, ms: seq<Member>, modeled: bool)
    requires MembersFit(ms) && At(d, pos, PrintMembers(ms))
    ensures |PrintMembers(ms)| == 36 * |ms|
    ensures ReadMembers(d, pos, |ms|, modeled) ==
            if modeled && !AllModeled(ms) then None else Some((ms, pos + 36 * |ms|))
    decreases |ms|
  {
    if ms != [] {
      AtSplit(d, pos, PrintMember(ms[0]), PrintMembers(ms[1..]));
      ReadMemberAt(d, pos, ms[0]);
      ReadPrintedMembers(d, pos + 36, ms[1..], modeled);
      MembersModeled(ms);
      ReadMembersStep(d, pos, ms[0], |ms| - 1, modeled);
      assert ms == [ms[0]] + ms[1..];
    }
  }

  lemma MembersModeled(ms: seq<Member>)
    requires ms != []
    ensures AllModeled(ms) <==> Modeled(ms[0].kind) && AllModeled(ms[1..])
  {
    assert ms == [ms[0]] + ms[1..];
  }

  lemma ReadMembersStep(d: seq<int>, pos: nat, m: Member, n: nat, modeled: bool)
    requires pos + 36 <= |d| && Member(d[pos..pos + 32], UnBE(d[pos + 32..pos + 36])) == m
    ensures ReadMembers(d, pos, n + 1, modeled) ==
            if modeled && !Modeled(m.kind) then None
            else match ReadMembers(d, pos + 36, n, modeled)
                 case None => None
                 case Some((rest, end)) => Some(([m] + rest, end))
  {
  }

  /** What a reader accepts is the print of what it read, and it consumed 36 bytes for each. */
  lemma {:induction false} PrintReadMembers(d: seq<int>, pos: nat, n: nat, modeled: bool)
    requires IsBytes(d) && pos <= |d| && ReadMembers(d, pos, n, modeled).Some?
    ensures var (ms, end) := ReadMembers(d, pos, n, modeled).value;
            && |ms| == n && MembersFit(ms) && (modeled ==> AllModeled(ms))
            && At(d, pos, PrintMembers(ms)) && end == pos + |PrintMembers(ms)| && end == pos + 36 * n
    decreases n
  {
    if n > 0 {
      var m := Member(d[pos..pos + 32], UnBE(d[pos + 32..pos + 36]));
      PackedAt(d, pos + 32, 4);
      Widths();
      PrintReadMembers(d, pos + 36, n - 1, modeled);
      var (rest, _) := ReadMembers(d, pos + 36, n - 1, modeled).value;
      AtSplit(d, pos, m.id, U32(m.kind));
      AtSplit(d, pos, PrintMember(m), PrintMembers(rest));
      assert ([m] + rest)[1..] == rest;
    }
  }

  // Links.

  lemma {:induction false} ReadPrintedLinks(d: seq<int>, pos: nat, ls: seq<Link>)
    requires LinksFit(ls) && At(d, pos, PrintLinks(ls))
    ensures |PrintLinks(ls)| == 68 * |ls|
    ensures ReadLinks(d, pos, |ls|) == Some((ls, pos + 68 * |ls|))
    decreases |ls|
  {
    if ls != [] {
      var l := ls[0];
      var ids, one := l.dependent + l.dependency, l.dependent + l.dependency + U32(l.kind);
      AtSplit(d, pos, one, PrintLinks(ls[1..]));
      AtSplit(d, pos, ids, U32(l.kind));
      AtSplit(d, pos, l.dependent, l.dependency);
      Widths();
      ReadPacked(d, pos + 64, l.kind, 4);
      ReadPrintedLinks(d, pos + 68, ls[1..]);
      assert ls == [l] + ls[1..];
    }
  }

  lemma {:induction false} PrintReadLinks(d: seq<int>, pos: nat, n: nat)
    requires IsBytes(d) && pos <= |d| && ReadLinks(d, pos, n).Some?
    ensures var (ls, end) := ReadLinks(d, pos, n).value;
            && |ls| == n && LinksFit(ls)
            && At(d, pos, PrintLinks(ls)) && end == pos + |PrintLinks(ls)| && end == pos + 68 * n
    decreases n
  {
    if n > 0 {
      var l := Link(d[pos..pos + 32], d[pos + 32..pos + 64], UnBE(d[pos + 64..pos + 68]));
      PackedAt(d, pos + 64, 4);
      Widths();
      PrintReadLinks(d, pos + 68, n - 1);
      var (rest, _) := ReadLinks(d, pos + 68, n - 1).value;
      AtSplit(d, pos, l.dependent, l.dependency);
      AtSplit(d, pos, l.dependent + l.dependency, U32(l.kind));
      AtSplit(d, pos, l.dependent + l.dependency + U32(l.kind), PrintLinks(rest));
      assert ([l] + rest)[1..] == rest;
    }
  }

  // Groups.

  lemma ReadPrintedGroup(d: seq<int>, pos: nat, g: Group, end: nat)
    requires GroupFits(g) && At(d, pos, PrintGroup(g)) && end == pos + |PrintGroup(g)|
    ensures ReadGroup(d, pos) == Some((g, end))
  {
    AtSplit(d, pos, g.key + U64(|g.members|), PrintMembers(g.members));
    AtSplit(d, pos, g.key, U64(|g.members|));
    Widths();
    ReadPacked(d, pos + 32, |g.members|, 8);
    ReadPrintedMembers(d, pos + 40, g.members, false);
  }

  lemma PrintReadGroup(d: seq<int>, pos: nat)
    requires IsBytes(d) && ReadGroup(d, pos).Some?
    ensures var (g, end) := ReadGroup(d, pos).value;
            GroupFits(g) && At(d, pos, PrintGroup(g)) && end == pos + |PrintGroup(g)|
              && end == pos + 40 + 36 * |g.members|
  {
    PackedAt(d, pos + 32, 8);
    Widths();
    var n := UnBE(d[pos + 32..pos + 40]);
    PrintReadMembers(d, pos + 40, n, false);
    var (g, _) := ReadGroup(d, pos).value;
    AtSplit(d, pos, g.key, U64(n));
    AtSplit(d, pos, g.key + U64(n), PrintMembers(g.members));
  }

  lemma GroupsSplit(d: seq<int>, pos: nat, g: Group, rest: seq<Group>)
    requires GroupsFit([g] + rest) && At(d, pos, PrintGroups([g] + rest))
    ensures GroupFits(g) && GroupsFit(rest)
    ensures At(d, pos, PrintGroup(g)) && At(d, pos + |PrintGroup(g)|, PrintGroups(rest))
    ensures |PrintGroups([g] + rest)| == |PrintGroup(g)| + |PrintGroups(rest)|
  {
    assert ([g] + rest)[1..] == rest;
    AtSplit(d, pos, PrintGroup(g), PrintGroups(rest));
  }

  lemma {:induction false} ReadPrintedGroups(d: seq<int>, pos: nat, gs: seq<Group>, end: nat)
    requires GroupsFit(gs) && At(d, pos, PrintGroups(gs)) && end == pos + |PrintGroups(gs)|
    ensures ReadGroups(d, pos, |gs|) == Some((gs, end))
    decreases |gs|
  {
    if gs != [] {
      var g, rest := gs[0], gs[1..];
      assert gs == [g] + rest;
      GroupsSplit(d, pos, g, rest);
      var next: nat := pos + |PrintGroup(g)|;
      ReadPrintedGroup(d, pos, g, next);
      ReadPrintedGroups(d, next, rest, end);
      ReadGroupsStep(d, pos, g, next, rest, end);
    }
  }

  lemma ReadGroupsStep(d: seq<int>, pos: nat, g: Group, next: nat, rest: seq<Group>, end: nat)
    requires ReadGroup(d, pos) == Some((g, next)) && ReadGroups(d, next, |rest|) == Some((rest, end))
    ensures ReadGroups(d, pos, |rest| + 1) == Some(([g] + rest, end))
  {
  }

  lemma GroupsAt(d: seq<int>, pos: nat, g: Group, rest: seq<Group>)
    requires GroupFits(g) && GroupsFit(rest) && At(d, pos, PrintGroup(g))
             && At(d, pos + |PrintGroup(g)|, PrintGroups(rest))
    ensures GroupsFit([g] + rest) && At(d, pos, PrintGroups([g] + rest))
    ensures |PrintGroups([g] + rest)| == |PrintGroup(g)| + |PrintGroups(rest)|
  {
    AtSplit(d, pos, PrintGroup(g), PrintGroups(rest));
    assert ([g] + rest)[1..] == rest;
  }

  lemma {:induction false} PrintReadGroups(d: seq<int>, pos: nat, n: nat)
    requires IsBytes(d) && pos <= |d| && ReadGroups(d, pos, n).Some?
    ensures var (gs, end) := ReadGroups(d, pos, n).value;
            && |gs| == n && GroupsFit(gs) && At(d, pos, PrintGroups(gs)) && end == pos + |PrintGroups(gs)|
    decreases n
  {
    if n > 0 {
      PrintReadGroup(d, pos);
      var (g, next) := ReadGroup(d, pos).value;
      PrintReadGroups(d, next, n - 1);
      var (rest, end) := ReadGroups(d, next, n - 1).value;
      GroupsAt(d, pos, g, rest);
      ReadGroupsStep(d, pos, g, next, rest, end);
    }
  }

  // The body: three counted sections that end with the data.

  datatype Sections = Sections(inventory: seq<Member>, links: seq<Link>, groups: seq<Group>)

  function ReadInventory(d: seq<int>, pos: nat, modeled: bool): Option<(seq<Member>, nat)> {
    match ReadU64(d, pos)
    case None => None
    case Some((n, next)) => if n < 0 then None else ReadMembers(d, next, n, modeled)
  }

  function ReadLinkSection(d: seq<int>, pos: nat): Option<(seq<Link>, nat)> {
    match ReadU64(d, pos)
    case None => None
    case Some((n, next)) => if n < 0 then None else ReadLinks(d, next, n)
  }

  function ReadGroupSection(d: seq<int>, pos: nat): Option<(seq<Group>, nat)> {
    match ReadU64(d, pos)
    case None => None
    case Some((n, next)) => if n < 0 then None else ReadGroups(d, next, n)
  }

  function ReadBody(d: seq<int>, pos: nat, modeled: bool): Option<Sections> {
    match ReadInventory(d, pos, modeled)
    case None => None
    case Some((inventory, p1)) =>
      match ReadLinkSection(d, p1)
      case None => None
      case Some((links, p2)) =>
        match ReadGroupSection(d, p2)
        case None => None
        case Some((groups, p3)) => if p3 == |d| then Some(Sections(inventory, links, groups)) else None
  }

  function PrintInventory(ms: seq<Member>): seq<int>
    requires forall i :: 0 <= i < |ms| ==> ms[i].kind >= 0
  {
    U64(|ms|) + PrintMembers(ms)
  }

  function PrintLinkSection(ls: seq<Link>): seq<int>
    requires forall i :: 0 <= i < |ls| ==> ls[i].kind >= 0
  {
    U64(|ls|) + PrintLinks(ls)
  }

  function PrintGroupSection(gs: seq<Group>): seq<int>
    requires forall i, j :: 0 <= i < |gs| && 0 <= j < |gs[i].members| ==> gs[i].members[j].kind >= 0
  {
    U64(|gs|) + PrintGroups(gs)
  }

  ghost predicate SectionsFit(s: Sections) {
    && MembersFit(s.inventory) && LinksFit(s.links) && GroupsFit(s.groups)
    && |s.inventory| < LIMIT64 && |s.links| < LIMIT64 && |s.groups| < LIMIT64
  }

  ghost predicate Framed(s: Snapshot) {
    |s.epoch| == 32 && |s.root| == 32 && 0 <= s.arm < LIMIT32 && SectionsFit(Sections(s.inventory, s.links, s.groups))
  }

  lemma FramedFits(s: Snapshot)
    requires Framed(s)
    ensures Fits(s)
  {
    forall i | 0 <= i < |s.inventory| ensures Packable(s.inventory[i].kind) { assert MemberFits(s.inventory[i]); }
    forall i, j | 0 <= i < |s.groups| && 0 <= j < |s.groups[i].members| ensures Packable(s.groups[i].members[j].kind) {
      assert GroupFits(s.groups[i]) && MemberFits(s.groups[i].members[j]);
    }
  }

  lemma CountedAt(d: seq<int>, pos: nat, n: nat)
    requires n < LIMIT64 && At(d, pos, U64(n))
    ensures ReadU64(d, pos) == Some((n, pos + 8))
  {
    Widths();
    ReadPacked(d, pos, n, 8);
  }

  lemma CountRange(d: seq<int>, pos: nat)
    requires IsBytes(d) && ReadU64(d, pos).Some?
    ensures var (n, end) := ReadU64(d, pos).value; 0 <= n < LIMIT64 && end == pos + 8 <= |d| && At(d, pos, U64(n))
  {
    PackedAt(d, pos, 8);
    Widths();
  }

  lemma InventoryBack(d: seq<int>, pos: nat, ms: seq<Member>, modeled: bool)
    requires MembersFit(ms) && |ms| < LIMIT64 && At(d, pos, PrintInventory(ms))
    ensures ReadInventory(d, pos, modeled) ==
            if modeled && !AllModeled(ms) then None else Some((ms, pos + |PrintInventory(ms)|))
  {
    AtSplit(d, pos, U64(|ms|), PrintMembers(ms));
    CountedAt(d, pos, |ms|);
    ReadPrintedMembers(d, pos + 8, ms, modeled);
  }

  lemma LinkSectionBack(d: seq<int>, pos: nat, ls: seq<Link>)
    requires LinksFit(ls) && |ls| < LIMIT64 && At(d, pos, PrintLinkSection(ls))
    ensures ReadLinkSection(d, pos) == Some((ls, pos + |PrintLinkSection(ls)|))
  {
    AtSplit(d, pos, U64(|ls|), PrintLinks(ls));
    CountedAt(d, pos, |ls|);
    ReadPrintedLinks(d, pos + 8, ls);
  }

  lemma GroupSectionBack(d: seq<int>, pos: nat, gs: seq<Group>)
    requires GroupsFit(gs) && |gs| < LIMIT64
    requires At(d, pos, PrintGroupSection(gs))
    ensures ReadGroupSection(d, pos) == Some((gs, pos + |PrintGroupSection(gs)|))
  {
    AtSplit(d, pos, U64(|gs|), PrintGroups(gs));
    CountedAt(d, pos, |gs|);
    ReadPrintedGroups(d, pos + 8, gs, pos + 8 + |PrintGroups(gs)|);
  }

  lemma InventoryRead(d: seq<int>, pos: nat, modeled: bool)
    requires IsBytes(d) && ReadInventory(d, pos, modeled).Some?
    ensures var (ms, end) := ReadInventory(d, pos, modeled).value;
            && MembersFit(ms) && (modeled ==> AllModeled(ms)) && |ms| < LIMIT64
            && At(d, pos, PrintInventory(ms)) && end == pos + |PrintInventory(ms)|
  {
    CountRange(d, pos);
    var (ms, _) := ReadInventory(d, pos, modeled).value;
    PrintReadMembers(d, pos + 8, UnBE(d[pos..pos + 8]), modeled);
    AtSplit(d, pos, U64(|ms|), PrintMembers(ms));
  }

  lemma LinkSectionRead(d: seq<int>, pos: nat)
    requires IsBytes(d) && ReadLinkSection(d, pos).Some?
    ensures var (ls, end) := ReadLinkSection(d, pos).value;
            LinksFit(ls) && |ls| < LIMIT64 && At(d, pos, PrintLinkSection(ls)) && end == pos + |PrintLinkSection(ls)|
  {
    CountRange(d, pos);
    var (ls, _) := ReadLinkSection(d, pos).value;
    PrintReadLinks(d, pos + 8, UnBE(d[pos..pos + 8]));
    AtSplit(d, pos, U64(|ls|), PrintLinks(ls));
  }

  lemma GroupSectionRead(d: seq<int>, pos: nat)
    requires IsBytes(d) && ReadGroupSection(d, pos).Some?
    ensures var (gs, end) := ReadGroupSection(d, pos).value;
            GroupsFit(gs) && |gs| < LIMIT64 && At(d, pos, PrintGroupSection(gs)) && end == pos + |PrintGroupSection(gs)|
  {
    CountRange(d, pos);
    var (gs, _) := ReadGroupSection(d, pos).value;
    PrintReadGroups(d, pos + 8, UnBE(d[pos..pos + 8]));
    AtSplit(d, pos, U64(|gs|), PrintGroups(gs));
  }

  lemma SectionsAt(d: seq<int>, pos: nat, s: Snapshot)
    requires Framed(s) && Fits(s) && At(d, pos, Body(s))
    ensures var p1 := pos + |PrintInventory(s.inventory)|;
            var p2 := p1 + |PrintLinkSection(s.links)|;
            && At(d, pos, PrintInventory(s.inventory)) && At(d, p1, PrintLinkSection(s.links))
            && At(d, p2, PrintGroupSection(s.groups)) && p2 + |PrintGroupSection(s.groups)| == pos + |Body(s)|
  {
    var ms, ls, gs := PrintInventory(s.inventory), PrintLinkSection(s.links), PrintGroupSection(s.groups);
    BodySections(s);
    AtSplit(d, pos, ms, ls + gs);
    AtSplit(d, pos + |ms|, ls, gs);
  }

  /** A printed body reads back, unless a reader that checks kinds meets one outside 1..18. */
  lemma ReadPrintedBody(d: seq<int>, pos: nat, s: Snapshot, modeled: bool)
    requires Framed(s) && Fits(s) && At(d, pos, Body(s)) && pos + |Body(s)| == |d|
    ensures ReadBody(d, pos, modeled) ==
            if modeled && !AllModeled(s.inventory) then None else Some(Sections(s.inventory, s.links, s.groups))
  {
    SectionsAt(d, pos, s);
    var p1 := pos + |PrintInventory(s.inventory)|;
    var p2 := p1 + |PrintLinkSection(s.links)|;
    InventoryBack(d, pos, s.inventory, modeled);
    LinkSectionBack(d, p1, s.links);
    GroupSectionBack(d, p2, s.groups);
    BodyReads(d, pos, p1, p2, s, modeled);
  }

  lemma BodyReads(d: seq<int>, pos: nat, p1: nat, p2: nat, s: Snapshot, modeled: bool)
    requires ReadInventory(d, pos, modeled) ==
             if modeled && !AllModeled(s.inventory) then None else Some((s.inventory, p1))
    requires ReadLinkSection(d, p1) == Some((s.links, p2)) && ReadGroupSection(d, p2) == Some((s.groups, |d|))
    ensures ReadBody(d, pos, modeled) ==
            if modeled && !AllModeled(s.inventory) then None else Some(Sections(s.inventory, s.links, s.groups))
  {
  }

  lemma BodySections(s: Snapshot)
    requires Fits(s)
    ensures Body(s) == PrintInventory(s.inventory) + (PrintLinkSection(s.links) + PrintGroupSection(s.groups))
  {
  }

  /** A body that reads is the print of what was read, down to the last byte. */
  lemma PrintReadBody(d: seq<int>, pos: nat, s: Snapshot, modeled: bool)
    requires IsBytes(d) && ReadBody(d, pos, modeled) == Some(Sections(s.inventory, s.links, s.groups))
    requires |s.epoch| == 32 && |s.root| == 32 && 0 <= s.arm < LIMIT32
    ensures Framed(s) && Fits(s) && (modeled ==> AllModeled(s.inventory)) && At(d, pos, Body(s))
            && pos + |Body(s)| == |d|
  {
    var p1, p2 := BodyParts(d, pos, s, modeled);
    InventoryRead(d, pos, modeled);
    LinkSectionRead(d, p1);
    GroupSectionRead(d, p2);
    FramedFits(s);
    SectionsJoin(d, pos, p1, p2, s);
  }

  lemma BodyParts(d: seq<int>, pos: nat, s: Snapshot, modeled: bool) returns (p1: nat, p2: nat)
    requires ReadBody(d, pos, modeled) == Some(Sections(s.inventory, s.links, s.groups))
    ensures ReadInventory(d, pos, modeled) == Some((s.inventory, p1))
    ensures ReadLinkSection(d, p1) == Some((s.links, p2)) && ReadGroupSection(d, p2) == Some((s.groups, |d|))
  {
    p1 := ReadInventory(d, pos, modeled).value.1;
    p2 := ReadLinkSection(d, p1).value.1;
  }

  lemma JoinAt(d: seq<int>, pos: nat, a: seq<int>, p1: nat, b: seq<int>, p2: nat, c: seq<int>)
    requires At(d, pos, a) && p1 == pos + |a| && At(d, p1, b) && p2 == p1 + |b| && At(d, p2, c)
    ensures At(d, pos, a + (b + c)) && pos + |a + (b + c)| == p2 + |c|
  {
    AtSplit(d, p1, b, c);
    AtSplit(d, pos, a, b + c);
  }

  lemma SectionsJoin(d: seq<int>, pos: nat, p1: nat, p2: nat, s: Snapshot)
    requires Framed(s) && Fits(s)
    requires At(d, pos, PrintInventory(s.inventory)) && p1 == pos + |PrintInventory(s.inventory)|
    requires At(d, p1, PrintLinkSection(s.links)) && p2 == p1 + |PrintLinkSection(s.links)|
    requires At(d, p2, PrintGroupSection(s.groups)) && |d| == p2 + |PrintGroupSection(s.groups)|
    ensures At(d, pos, Body(s)) && pos + |Body(s)| == |d|
  {
    var ms, ls, gs := PrintInventory(s.inventory), PrintLinkSection(s.links), PrintGroupSection(s.groups);
    BodySections(s);
    JoinAt(d, pos, ms, p1, ls, p2, gs);
  }
}
