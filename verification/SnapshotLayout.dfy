/** Where everything stands in a snapshot record: its header words, and every row of its three sections. */
module SnapshotLayout {
  import opened Bytes
  import opened SnapshotModel
  import opened SnapshotCodec
  import opened SnapshotInspect
  import opened SnapshotBuild
  import opened Order
  import opened Wrappers

  ghost predicate MemberStands(d: seq<int>, pos: nat, m: Member) {
    m.kind >= 0 && At(d, pos, m.id) && At(d, pos + 32, U32(m.kind))
  }

  ghost predicate LinkStands(d: seq<int>, pos: nat, l: Link) {
    l.kind >= 0 && At(d, pos, l.dependent) && At(d, pos + 32, l.dependency) && At(d, pos + 64, U32(l.kind))
  }

  /** A group: its key, the number of its members, the members. */
  ghost predicate GroupStands(d: seq<int>, pos: nat, g: Group) {
    && At(d, pos, g.key) && At(d, pos + 32, U64(|g.members|))
    && forall i :: 0 <= i < |g.members| ==> MemberStands(d, pos + 40 + 36 * i, g.members[i])
  }

  lemma {:induction false} MembersStand(d: seq<int>, pos: nat, ms: seq<Member>)
    requires MembersFit(ms) && At(d, pos, PrintMembers(ms))
    ensures |PrintMembers(ms)| == 36 * |ms|
    ensures forall i :: 0 <= i < |ms| ==> MemberStands(d, pos + 36 * i, ms[i])
    decreases |ms|
  {
    if ms != [] {
      var m, rest := ms[0], ms[1..];
      AtSplit(d, pos, PrintMember(m), PrintMembers(rest));
      AtSplit(d, pos, m.id, U32(m.kind));
      MembersStand(d, pos + 36, rest);
      forall i | 0 <= i < |ms| ensures MemberStands(d, pos + 36 * i, ms[i]) {
        if i > 0 { assert MemberStands(d, pos + 36 + 36 * (i - 1), rest[i - 1]); }
      }
    }
  }

  lemma LinkStandsFirst(d: seq<int>, pos: nat, l: Link, rest: seq<int>)
    requires |l.dependent| == 32 && |l.dependency| == 32 && l.kind >= 0
    requires At(d, pos, l.dependent + l.dependency + U32(l.kind) + rest)
    ensures LinkStands(d, pos, l) && At(d, pos + 68, rest)
  {
    AtSplit(d, pos, l.dependent + l.dependency + U32(l.kind), rest);
    AtSplit(d, pos, l.dependent + l.dependency, U32(l.kind));
    AtSplit(d, pos, l.dependent, l.dependency);
  }

  lemma {:induction false} LinksStand(d: seq<int>, pos: nat, ls: seq<Link>)
    requires LinksFit(ls) && At(d, pos, PrintLinks(ls))
    ensures |PrintLinks(ls)| == 68 * |ls|
    ensures forall i :: 0 <= i < |ls| ==> LinkStands(d, pos + 68 * i, ls[i])
    decreases |ls|
  {
    if ls != [] {
      var rest := ls[1..];
      LinkStandsFirst(d, pos, ls[0], PrintLinks(rest));
      LinksStand(d, pos + 68, rest);
      forall i | 0 <= i < |ls| ensures LinkStands(d, pos + 68 * i, ls[i]) {
        if i > 0 { assert LinkStands(d, pos + 68 + 68 * (i - 1), rest[i - 1]); }
      }
    }
  }

  /** The bytes that the groups before the `i`-th take. */
  function Before(gs: seq<Group>, i: nat): nat
    requires i <= |gs|
  {
    if i == 0 then 0 else 40 + 36 * |gs[0].members| + Before(gs[1..], i - 1)
  }

  lemma BeforeStep(gs: seq<Group>, i: nat)
    requires 0 < i < |gs|
    ensures Before(gs, i) == 40 + 36 * |gs[0].members| + Before(gs[1..], i - 1) && gs[1..][i - 1] == gs[i]
  {
  }

  lemma GroupStandsFirst(d: seq<int>, pos: nat, g: Group, rest: seq<int>, next: nat)
    requires GroupFits(g) && At(d, pos, PrintGroup(g) + rest) && next == pos + 40 + 36 * |g.members|
    ensures GroupStands(d, pos, g) && At(d, next, rest)
  {
    AtSplit(d, pos, PrintGroup(g), rest);
    AtSplit(d, pos, g.key + U64(|g.members|), PrintMembers(g.members));
    AtSplit(d, pos, g.key, U64(|g.members|));
    MembersStand(d, pos + 40, g.members);
  }

  lemma {:induction false} GroupsStand(d: seq<int>, pos: nat, gs: seq<Group>, i: nat)
    requires GroupsFit(gs) && At(d, pos, PrintGroups(gs)) && i < |gs|
    ensures GroupStands(d, pos + Before(gs, i), gs[i])
    decreases i
  {
    var next: nat := pos + 40 + 36 * |gs[0].members|;
    GroupStandsFirst(d, pos, gs[0], PrintGroups(gs[1..]), next);
    if i > 0 {
      GroupsStand(d, next, gs[1..], i - 1);
      BeforeStep(gs, i);
    }
  }

  ghost predicate InventoryListAt(d: seq<int>, pos: nat, ms: seq<Member>) {
    At(d, pos, U64(|ms|)) && forall i :: 0 <= i < |ms| ==> MemberStands(d, pos + 8 + 36 * i, ms[i])
  }

  ghost predicate LinkListAt(d: seq<int>, pos: nat, ls: seq<Link>) {
    At(d, pos, U64(|ls|)) && forall i :: 0 <= i < |ls| ==> LinkStands(d, pos + 8 + 68 * i, ls[i])
  }

  ghost predicate GroupListAt(d: seq<int>, pos: nat, gs: seq<Group>) {
    At(d, pos, U64(|gs|)) && forall i :: 0 <= i < |gs| ==> GroupStands(d, pos + 8 + Before(gs, i), gs[i])
  }

  /** The sections from place 124 on, each behind its count. */
  ghost predicate SectionsStand(d: seq<int>, s: Snapshot) {
    var linksAt := 132 + 36 * |s.inventory|;
    && InventoryListAt(d, 124, s.inventory) && LinkListAt(d, linksAt, s.links)
    && GroupListAt(d, linksAt + 8 + 68 * |s.links|, s.groups)
  }

  lemma InventoryStands(d: seq<int>, pos: nat, ms: seq<Member>)
    requires MembersFit(ms) && At(d, pos, PrintInventory(ms))
    ensures InventoryListAt(d, pos, ms) && |PrintInventory(ms)| == 8 + 36 * |ms|
  {
    var next: nat := pos + 8;
    AtSplit(d, pos, U64(|ms|), PrintMembers(ms));
    MembersStand(d, next, ms);
    forall i | 0 <= i < |ms| ensures MemberStands(d, pos + 8 + 36 * i, ms[i]) {
      assert MemberStands(d, next + 36 * i, ms[i]);
    }
  }

  lemma LinkSectionStands(d: seq<int>, pos: nat, ls: seq<Link>)
    requires LinksFit(ls) && At(d, pos, PrintLinkSection(ls))
    ensures LinkListAt(d, pos, ls) && |PrintLinkSection(ls)| == 8 + 68 * |ls|
  {
    var next: nat := pos + 8;
    AtSplit(d, pos, U64(|ls|), PrintLinks(ls));
    LinksStand(d, next, ls);
    forall i | 0 <= i < |ls| ensures LinkStands(d, pos + 8 + 68 * i, ls[i]) {
      assert LinkStands(d, next + 68 * i, ls[i]);
    }
  }

  lemma GroupSectionStands(d: seq<int>, pos: nat, gs: seq<Group>)
    requires GroupsFit(gs) && At(d, pos, PrintGroupSection(gs))
    ensures GroupListAt(d, pos, gs)
  {
    var next: nat := pos + 8;
    AtSplit(d, pos, U64(|gs|), PrintGroups(gs));
    forall i | 0 <= i < |gs| ensures GroupStands(d, pos + 8 + Before(gs, i), gs[i]) { GroupsStand(d, next, gs, i); }
  }

  lemma SectionPlaces(d: seq<int>, s: Snapshot) returns (p1: nat, p2: nat)
    requires Framed(s) && Fits(s) && At(d, 124, Body(s))
    ensures p1 == 124 + |PrintInventory(s.inventory)| && p2 == p1 + |PrintLinkSection(s.links)|
    ensures At(d, 124, PrintInventory(s.inventory)) && At(d, p1, PrintLinkSection(s.links))
    ensures At(d, p2, PrintGroupSection(s.groups))
  {
    SectionsAt(d, 124, s);
    p1 := 124 + |PrintInventory(s.inventory)|;
    p2 := p1 + |PrintLinkSection(s.links)|;
  }

  lemma SectionsJoined(d: seq<int>, s: Snapshot, p1: nat, p2: nat)
    requires InventoryListAt(d, 124, s.inventory) && LinkListAt(d, p1, s.links) && GroupListAt(d, p2, s.groups)
    requires p1 == 132 + 36 * |s.inventory| && p2 == p1 + 8 + 68 * |s.links|
    ensures SectionsStand(d, s)
  {
  }

  lemma BodyStands(d: seq<int>, s: Snapshot)
    requires Framed(s) && Fits(s) && At(d, 124, Body(s))
    ensures SectionsStand(d, s)
  {
    var p1, p2 := SectionPlaces(d, s);
    InventoryStands(d, 124, s.inventory);
    LinkSectionStands(d, p1, s.links);
    GroupSectionStands(d, p2, s.groups);
    SectionsJoined(d, s, p1, p2);
  }

  ghost predicate HeaderStands(d: seq<int>, epoch: seq<int>, root: seq<int>, arm: nat) {
    && At(d, 0, Ascii("SLEYIDX1")) && At(d, 8, U32(1)) && At(d, 12, U32(1)) && At(d, 16, epoch)
    && At(d, 48, FIELD_SCHEMA_HASH) && At(d, 80, U32(1)) && At(d, 84, U32(2)) && At(d, 88, root) && At(d, 120, U32(arm))
  }

  /** The layout of a record: magic, versions, epoch, schema, limits, option, root, arm; then inventory, edges and
      groups, counted and row by row; then the digest of all that, and nothing more. */
  lemma RecordLayout(s: Snapshot, hash: seq<int> -> seq<int>)
    requires Framed(s) && Fits(s)
    ensures var d := Preimage(s);
            && Record(s, hash) == d + hash(Ascii("sley2.index-snapshot.v1") + d)
            && HeaderStands(d, s.epoch, s.root, s.arm) && SectionsStand(d, s)
  {
    var d := Preimage(s);
    PreimageParts(d, s);
    HeaderFields(d, s.epoch, s.root, s.arm);
    MagicSpelled();
    BodyStands(d, s);
  }

  lemma PreimageParts(d: seq<int>, s: Snapshot)
    requires Framed(s) && Fits(s) && d == Preimage(s)
    ensures At(d, 0, Header(s.epoch, s.root, s.arm)) && At(d, 124, Body(s))
  {
    AtWhole(d);
    HeaderFields(d, s.epoch, s.root, s.arm);
    AtSplit(d, 0, Header(s.epoch, s.root, s.arm), Body(s));
  }

  lemma MagicSpelled()
    ensures MAGIC == Ascii("SLEYIDX1")
  {
  }

  // The order of edges.

  /** Strings of one length in front decide first. */
  lemma {:induction false} FrontDecides(a: seq<int>, x: seq<int>, b: seq<int>, y: seq<int>)
    requires |a| == |b|
    ensures BytesLess(a + x, b + y) <==> BytesLess(a, b) || (a == b && BytesLess(x, y))
    decreases |a|
  {
    if a == [] {
      assert a + x == x && b + y == y;
    } else {
      assert (a + x)[1..] == a[1..] + x && (b + y)[1..] == b[1..] + y;
      FrontDecides(a[1..], x, b[1..], y);
      assert a == [a[0]] + a[1..] && b == [b[0]] + b[1..];
    }
  }

  lemma Byte(v: int, w: int)
    ensures BytesLess([v], [w]) <==> v < w
  {
    assert [v][1..] == [] && [w][1..] == [] && !BytesLess([v][1..], [w][1..]);
  }

  /** Packed integers are ordered as their bytes. */
  lemma {:induction false} PackedOrder(v: nat, w: nat, n: nat)
    requires v < Pow256(n) && w < Pow256(n)
    ensures BytesLess(BE(v, n), BE(w, n)) <==> v < w
    ensures BE(v, n) == BE(w, n) <==> v == w
    decreases n
  {
    if n > 0 {
      PackedOrder(v / 256, w / 256, n - 1);
      FrontDecides(BE(v / 256, n - 1), [v % 256], BE(w / 256, n - 1), [w % 256]);
      Byte(v % 256, w % 256);
      UnBEOfBE(v, n);
      UnBEOfBE(w, n);
    }
  }

  /** The bytes of an edge in a record. */
  function EdgeBytes(l: Link): seq<int>
    requires l.kind >= 0
  {
    l.dependent + (l.dependency + U32(l.kind))
  }

  /** Edges are ordered exactly as the bytes a record holds for them. */
  lemma EdgesAsBytes(a: Link, b: Link)
    requires |a.dependent| == |a.dependency| == 32 && Packable(a.kind)
    requires |b.dependent| == |b.dependency| == 32 && Packable(b.kind)
    ensures LinkLess(a, b) <==> BytesLess(EdgeBytes(a), EdgeBytes(b))
  {
    Widths();
    FrontDecides(a.dependent, a.dependency + U32(a.kind), b.dependent, b.dependency + U32(b.kind));
    FrontDecides(a.dependency, U32(a.kind), b.dependency, U32(b.kind));
    PackedOrder(a.kind, b.kind, 4);
  }
}
