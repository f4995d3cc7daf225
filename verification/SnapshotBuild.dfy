/** Building a record: the grouping of the reverse index, and that it inverts the edge list exactly. */
module SnapshotBuild {
  import opened Order
  import opened Bytes
  import opened SnapshotModel
  import opened SnapshotCodec
  import opened SnapshotInspect
  import opened Wrappers

  predicate LinkLess(a: Link, b: Link) {
    || BytesLess(a.dependent, b.dependent)
    || (a.dependent == b.dependent && BytesLess(a.dependency, b.dependency))
    || (a.dependent == b.dependent && a.dependency == b.dependency && a.kind < b.kind)
  }

  predicate MemberLess(a: Member, b: Member) {
    BytesLess(a.id, b.id) || (a.id == b.id && a.kind < b.kind)
  }

  lemma LinkTotal()
    ensures StrictTotal(LinkLess)
  {
    BytesTotal();
  }

  function MemberIds(ms: seq<Member>): seq<seq<int>> {
    seq(|ms|, i requires 0 <= i < |ms| => ms[i].id)
  }

  /** The group of one dependency: its dependents in edge order. */
  function Sources(links: seq<Link>, key: seq<int>): seq<Member> {
    if links == [] then []
    else
      var last := links[|links| - 1];
      Sources(links[..|links| - 1], key) + if last.dependency == key then [Member(last.dependent, last.kind)] else []
  }

  function KeysOf(groups: seq<Group>): seq<seq<int>> {
    seq(|groups|, i requires 0 <= i < |groups| => groups[i].key)
  }

  ghost predicate IsInversion(groups: seq<Group>, links: seq<Link>) {
    && Ascending(KeysOf(groups), BytesLess)
    && (forall i :: 0 <= i < |groups| ==> groups[i].members == Sources(links, groups[i].key) != [])
    && (forall l :: l in links ==> l.dependency in KeysOf(groups))
  }

  // Building.

  ghost predicate InputPackable(inventory: seq<Member>, links: seq<Link>) {
    && (forall i :: 0 <= i < |inventory| ==> Packable(inventory[i].kind))
    && (forall i :: 0 <= i < |links| ==> Packable(links[i].kind))
    && |inventory| < LIMIT64 && |links| < LIMIT64
  }

  ghost function BuildRefusal(inventory: seq<Member>, links: seq<Link>, arm: int): Option<Code> {
    if arm != 1 && arm != COMPLETE_ROOT_ARM then Some(CompletenessUnsupported)
    else if arm == 1 && exists i :: 0 <= i < |inventory| && !(4 <= inventory[i].kind <= 15) then
      Some(CompletenessUnsupported)
    else if !Sorted(MemberIds(inventory), BytesLess) then Some(InventoryOrder)
    else if !Sorted(links, LinkLess) then Some(EdgeOrder)
    else if !InputPackable(inventory, links) then Some(NotPackable)
    else None
  }

  ghost predicate ArmFits(inventory: seq<Member>, arm: int) {
    arm == 2 || (arm == 1 && forall m :: m in inventory ==> m.kind in {4, 5, 6, 7, 8, 9, 10, 11, 12, 13, 14, 15})
  }

  ghost predicate IdsInOrder(inventory: seq<Member>) {
    forall i, j :: 0 <= i < j < |inventory| ==> !BytesLess(inventory[j].id, inventory[i].id)
  }

  ghost predicate EdgesInOrder(links: seq<Link>) {
    forall i, j :: 0 <= i < j < |links| ==> !LinkLess(links[j], links[i])
  }

  /** What each code says of the input: its check fails, and every check before it passes. */
  ghost predicate BuildFails(inventory: seq<Member>, links: seq<Link>, arm: int, code: Code) {
    match code
    case CompletenessUnsupported => !ArmFits(inventory, arm)
    case InventoryOrder => ArmFits(inventory, arm) && !IdsInOrder(inventory)
    case EdgeOrder => ArmFits(inventory, arm) && IdsInOrder(inventory) && !EdgesInOrder(links)
    case NotPackable =>
      && ArmFits(inventory, arm) && IdsInOrder(inventory) && EdgesInOrder(links)
      && (|inventory| >= LIMIT64 || |links| >= LIMIT64
          || (exists m :: m in inventory && !(0 <= m.kind < LIMIT32))
          || (exists l :: l in links && !(0 <= l.kind < LIMIT32)))
    case _ => false
  }

  lemma BuildCodes(inventory: seq<Member>, links: seq<Link>, arm: int, code: Code)
    ensures BuildRefusal(inventory, links, arm) == Some(code) <==> BuildFails(inventory, links, arm, code)
  {
    IdsOrdered(inventory);
    ArmRefused(inventory, arm);
    PackableExactly(inventory, links);
  }

  lemma IdsOrdered(inventory: seq<Member>)
    ensures Sorted(MemberIds(inventory), BytesLess) <==> IdsInOrder(inventory)
  {
    if IdsInOrder(inventory) {
      forall i, j | 0 <= i < j < |inventory| ensures !BytesLess(MemberIds(inventory)[j], MemberIds(inventory)[i]) {}
    }
    if Sorted(MemberIds(inventory), BytesLess) {
      forall i, j | 0 <= i < j < |inventory| ensures !BytesLess(inventory[j].id, inventory[i].id) {
        assert !BytesLess(MemberIds(inventory)[j], MemberIds(inventory)[i]);
      }
    }
  }

  lemma ArmRefused(inventory: seq<Member>, arm: int)
    ensures !ArmFits(inventory, arm) <==>
            || (arm != 1 && arm != COMPLETE_ROOT_ARM)
            || (arm == 1 && exists i :: 0 <= i < |inventory| && !(4 <= inventory[i].kind <= 15))
  {
    if m :| m in inventory && !(4 <= m.kind <= 15) { assert exists i :: 0 <= i < |inventory| && inventory[i] == m; }
  }

  lemma PackableExactly(inventory: seq<Member>, links: seq<Link>)
    ensures InputPackable(inventory, links) <==>
            && |inventory| < LIMIT64 && |links| < LIMIT64
            && (forall m :: m in inventory ==> 0 <= m.kind < LIMIT32)
            && (forall l :: l in links ==> 0 <= l.kind < LIMIT32)
  {
  }

  /** Comparing neighbours decides the order of the whole list. */
  method InOrder<T(!new)>(s: seq<T>, lt: (T, T) -> bool) returns (ok: bool)
    requires StrictTotal(lt)
    ensures ok <==> Sorted(s, lt)
  {
    for i := 0 to |s|
      invariant forall j, k :: 0 <= j < k < i ==> !lt(s[k], s[j])
    {
      if i > 0 && lt(s[i], s[i - 1]) { return false; }
      forall j | 0 <= j < i ensures !lt(s[i], s[j]) {
        if j < i - 1 { assert !lt(s[i - 1], s[j]); }
      }
    }
    return true;
  }

  method GroupLinks(links: seq<Link>) returns (groups: seq<Group>)
    ensures IsInversion(groups, links)
  {
    var reverse: map<seq<int>, seq<Member>> := map[];
    for i := 0 to |links|
      invariant forall k :: k in reverse ==> reverse[k] == Sources(links[..i], k) != []
      invariant forall k :: k !in reverse ==> Sources(links[..i], k) == []
      invariant forall l :: l in links[..i] ==> l.dependency in reverse
    {
      var l := links[i];
      assert links[..i + 1][..i] == links[..i] && links[..i + 1] == links[..i] + [l];
      var soFar := if l.dependency in reverse then reverse[l.dependency] else [];
      reverse := reverse[l.dependency := soFar + [Member(l.dependent, l.kind)]];
    }
    assert links[..|links|] == links;
    BytesTotal();
    var keys := Listing(reverse.Keys, BytesLess);
    assert forall i :: 0 <= i < |keys| ==> keys[i] in Elements(keys);
    groups := seq(|keys|, i requires 0 <= i < |keys| => Group(keys[i], reverse[keys[i]]));
    assert KeysOf(groups) == keys;
    forall l | l in links ensures l.dependency in keys { assert l.dependency in Elements(keys); }
  }

  method KindsPackable(inventory: seq<Member>, links: seq<Link>) returns (ok: bool)
    ensures ok <==> InputPackable(inventory, links)
  {
    for i := 0 to |inventory|
      invariant forall k :: 0 <= k < i ==> Packable(inventory[k].kind)
    {
      if !(0 <= inventory[i].kind < LIMIT32) { return false; }
    }
    for i := 0 to |links|
      invariant forall k :: 0 <= k < i ==> Packable(links[k].kind)
    {
      if !(0 <= links[i].kind < LIMIT32) { return false; }
    }
    return |inventory| < LIMIT64 && |links| < LIMIT64;
  }

  datatype Outcome = Refused(code: Code) | Built(record: seq<int>)

  /** `build_record`. `s` is the snapshot whose record it writes. */
  method BuildRecord(epoch: seq<int>, root: seq<int>, inventory: seq<Member>, links: seq<Link>, arm: int,
                     hash: seq<int> -> seq<int>)
    returns (r: Outcome, ghost s: Snapshot)
    ensures r.Refused? <==> BuildRefusal(inventory, links, arm).Some?
    ensures r.Refused? ==> BuildRefusal(inventory, links, arm) == Some(r.code)
    ensures forall code :: r == Refused(code) <==> BuildFails(inventory, links, arm, code)
    ensures r.Built? ==>
              && s.epoch == epoch && s.root == root && s.arm == arm && s.inventory == inventory && s.links == links
              && IsInversion(s.groups, links) && Fits(s) && r.record == Record(s, hash)
  {
    s := Snapshot([], [], 0, [], [], []);
    forall code ensures BuildRefusal(inventory, links, arm) == Some(code) <==> BuildFails(inventory, links, arm, code) {
      BuildCodes(inventory, links, arm, code);
    }
    if arm != 1 && arm != COMPLETE_ROOT_ARM { return Refused(CompletenessUnsupported), s; }
    if arm == 1 && exists i :: 0 <= i < |inventory| && !(4 <= inventory[i].kind <= 15) {
      return Refused(CompletenessUnsupported), s;
    }
    BytesTotal();
    var ok := InOrder(MemberIds(inventory), BytesLess);
    if !ok { return Refused(InventoryOrder), s; }
    LinkTotal();
    ok := InOrder(links, LinkLess);
    if !ok { return Refused(EdgeOrder), s; }
    ok := KindsPackable(inventory, links);
    if !ok { return Refused(NotPackable), s; }
    var groups := GroupLinks(links);
    s := Snapshot(epoch, root, arm, inventory, links, groups);
    InversionFits(s);
    var preimage := Header(epoch, root, arm) + Body(Snapshot(epoch, root, arm, inventory, links, groups));
    return Built(preimage + hash(DOMAIN + preimage)), s;
  }

  // Repetitions.

  /** What is built meets the strict order of the record if and only if nothing is repeated. */
  lemma StrictExactly(inventory: seq<Member>, links: seq<Link>, arm: int)
    requires BuildRefusal(inventory, links, arm).None?
    ensures Ascending(MemberIds(inventory), BytesLess) <==> Distinct(MemberIds(inventory))
    ensures Ascending(links, LinkLess) <==> Distinct(links)
  {
    BytesTotal();
    LinkTotal();
    SortedStrict(MemberIds(inventory), BytesLess);
    SortedStrict(links, LinkLess);
  }

  /** Repetitions are not refused: an inventory that lists one identity twice, and edges that list one edge twice. */
  lemma RepeatsAccepted()
    ensures var id := seq(32, _ => 0); var twice := [Member(id, 4), Member(id, 5)];
            var again := [Link(id, id, 5), Link(id, id, 5)];
            BuildRefusal(twice, again, COMPLETE_ROOT_ARM).None? && !Distinct(MemberIds(twice)) && !Distinct(again)
  {
    var id: seq<int> := seq(32, _ => 0);
    var twice, again := [Member(id, 4), Member(id, 5)], [Link(id, id, 5), Link(id, id, 5)];
    BytesTotal();
    LinkTotal();
    assert MemberIds(twice) == [id, id];
    assert again[0] == again[1] && MemberIds(twice)[0] == MemberIds(twice)[1];
  }

  // The reverse groups invert the edges.

  lemma {:induction false} SourcesMembers(links: seq<Link>, key: seq<int>, m: Member)
    ensures m in Sources(links, key) <==> Link(m.id, key, m.kind) in links
    ensures |Sources(links, key)| <= |links|
  {
    if links != [] {
      var init, last := links[..|links| - 1], links[|links| - 1];
      SourcesMembers(init, key, m);
      assert links == init + [last];
    }
  }

  lemma InversionFits(s: Snapshot)
    requires 0 <= s.arm < LIMIT32 && IsInversion(s.groups, s.links) && InputPackable(s.inventory, s.links)
    ensures Fits(s)
  {
    forall i, j | 0 <= i < |s.groups| && 0 <= j < |s.groups[i].members| ensures Packable(s.groups[i].members[j].kind) {
      var m := s.groups[i].members[j];
      assert m in Sources(s.links, s.groups[i].key);
      SourcesMembers(s.links, s.groups[i].key, m);
      var k :| 0 <= k < |s.links| && s.links[k] == Link(m.id, s.groups[i].key, m.kind);
    }
    forall i | 0 <= i < |s.groups| ensures |s.groups[i].members| < LIMIT64 {
      SourcesMembers(s.links, s.groups[i].key, s.groups[i].members[0]);
    }
    SizesAddUp(s.groups, s.links);
    UngroupLength(s.groups);
  }

  function Lift(key: seq<int>, ms: seq<Member>): seq<Link> {
    seq(|ms|, i requires 0 <= i < |ms| => Link(ms[i].id, key, ms[i].kind))
  }

  /** The edges the groups stand for. */
  function Ungroup(groups: seq<Group>): seq<Link> {
    if groups == [] then [] else Lift(groups[0].key, groups[0].members) + Ungroup(groups[1..])
  }

  function Keeping(links: seq<Link>, key: seq<int>, same: bool): seq<Link> {
    if links == [] then []
    else
      var last := links[|links| - 1];
      Keeping(links[..|links| - 1], key, same) + if (last.dependency == key) == same then [last] else []
  }

  lemma {:induction false} KeepingSplits(links: seq<Link>, key: seq<int>)
    ensures multiset(links) == multiset(Keeping(links, key, true)) + multiset(Keeping(links, key, false))
  {
    if links != [] {
      var init, last := links[..|links| - 1], links[|links| - 1];
      KeepingSplits(init, key);
      assert links == init + [last];
      KeepingGrows(links, key, true);
      KeepingGrows(links, key, false);
    }
  }

  lemma KeepingGrows(links: seq<Link>, key: seq<int>, same: bool)
    requires links != []
    ensures var init, last := links[..|links| - 1], links[|links| - 1];
            multiset(Keeping(links, key, same)) ==
            multiset(Keeping(init, key, same)) + if (last.dependency == key) == same then multiset{last} else multiset{}
  {
  }

  lemma {:induction false} KeepingLifts(links: seq<Link>, key: seq<int>)
    ensures Keeping(links, key, true) == Lift(key, Sources(links, key))
  {
    if links != [] {
      KeepingLifts(links[..|links| - 1], key);
    }
  }

  lemma {:induction false} KeepingOthers(links: seq<Link>, key: seq<int>, k: seq<int>)
    requires k != key
    ensures Sources(Keeping(links, key, false), k) == Sources(links, k)
  {
    if links != [] {
      var last := links[|links| - 1];
      var rest := Keeping(links[..|links| - 1], key, false);
      KeepingOthers(links[..|links| - 1], key, k);
      if last.dependency == key {
        assert rest + [] == rest;
      } else {
        assert (rest + [last])[..|rest|] == rest;
      }
    }
  }

  lemma {:induction false} KeepingMembers(links: seq<Link>, key: seq<int>, l: Link)
    ensures l in Keeping(links, key, false) <==> l in links && l.dependency != key
  {
    if links != [] {
      KeepingMembers(links[..|links| - 1], key, l);
      assert links == links[..|links| - 1] + [links[|links| - 1]];
    }
  }

  /** Taking the first group away leaves the inversion of the edges it does not stand for. */
  lemma InversionTail(groups: seq<Group>, links: seq<Link>)
    requires IsInversion(groups, links) && groups != []
    ensures IsInversion(groups[1..], Keeping(links, groups[0].key, false))
  {
    BytesTotal();
    var key, rest := groups[0].key, groups[1..];
    var left := Keeping(links, key, false);
    assert KeysOf(rest) == KeysOf(groups)[1..];
    forall i | 0 <= i < |rest| ensures rest[i].members == Sources(left, rest[i].key) != [] {
      assert BytesLess(KeysOf(groups)[0], KeysOf(groups)[i + 1]);
      KeepingOthers(links, key, rest[i].key);
    }
    forall l | l in left ensures l.dependency in KeysOf(rest) {
      KeepingMembers(links, key, l);
      var i :| 0 <= i < |groups| && KeysOf(groups)[i] == l.dependency;
      assert KeysOf(rest)[i - 1] == l.dependency;
    }
  }

  /** Un-grouping gives back the same edges, each as often. */
  lemma {:induction false} UngroupSame(groups: seq<Group>, links: seq<Link>)
    requires IsInversion(groups, links)
    ensures multiset(Ungroup(groups)) == multiset(links)
    decreases |groups|
  {
    assert links != [] ==> links[0] in links;
    if groups != [] {
      InversionTail(groups, links);
      UngroupSame(groups[1..], Keeping(links, groups[0].key, false));
      KeepingSplits(links, groups[0].key);
      KeepingLifts(links, groups[0].key);
    }
  }

  lemma {:induction false} UngroupLength(groups: seq<Group>)
    requires forall i :: 0 <= i < |groups| ==> groups[i].members != []
    ensures |Ungroup(groups)| == Sizes(groups) >= |groups|
  {
    if groups != [] { UngroupLength(groups[1..]); }
  }

  /** Group sizes add up to the number of edges. */
  lemma SizesAddUp(groups: seq<Group>, links: seq<Link>)
    requires IsInversion(groups, links)
    ensures Sizes(groups) == |links|
  {
    UngroupSame(groups, links);
    UngroupLength(groups);
    assert |multiset(Ungroup(groups))| == |multiset(links)|;
  }

  /** Sorted edges leave every group sorted. */
  lemma {:induction false} GroupsSorted(links: seq<Link>, key: seq<int>)
    requires Sorted(links, LinkLess)
    ensures Sorted(Sources(links, key), MemberLess)
  {
    if links != [] {
      var init, last := links[..|links| - 1], links[|links| - 1];
      GroupsSorted(init, key);
      if last.dependency == key {
        var before := Sources(init, key);
        forall i | 0 <= i < |before| ensures !MemberLess(Member(last.dependent, last.kind), before[i]) {
          assert before[i] in before;
          SourcesMembers(init, key, before[i]);
          var j :| 0 <= j < |init| && init[j] == Link(before[i].id, key, before[i].kind);
          assert !LinkLess(links[|links| - 1], links[j]);
        }
      }
    }
  }

  // Round trip.

  lemma BuiltFramed(s: Snapshot)
    requires |s.epoch| == 32 && |s.root| == 32 && 0 <= s.arm < LIMIT32
    requires MembersFit(s.inventory) && LinksFit(s.links) && |s.inventory| < LIMIT64 && |s.links| < LIMIT64
    requires IsInversion(s.groups, s.links)
    ensures Framed(s)
  {
    forall i | 0 <= i < |s.groups| ensures GroupFits(s.groups[i]) {
      var g := s.groups[i];
      forall j | 0 <= j < |g.members| ensures MemberFits(g.members[j]) {
        assert g.members[j] in g.members;
        SourcesMembers(s.links, g.key, g.members[j]);
        var k :| 0 <= k < |s.links| && s.links[k] == Link(g.members[j].id, g.key, g.members[j].kind);
      }
      SourcesMembers(s.links, g.key, g.members[0]);
      assert g.members[0] in g.members;
      var k :| 0 <= k < |s.links| && s.links[k] == Link(g.members[0].id, g.key, g.members[0].kind);
    }
    SizesAddUp(s.groups, s.links);
    UngroupLength(s.groups);
  }

  /** `inspect` of a built record: accepted exactly when the record fits the cap, the arm is complete-root and every
      kind is modeled; otherwise it is refused for the first of these that fails. */
  lemma RoundTrip(s: Snapshot, hash: seq<int> -> seq<int>)
    requires BuildRefusal(s.inventory, s.links, s.arm).None? && IsInversion(s.groups, s.links) && Fits(s)
    requires |s.epoch| == 32 && |s.root| == 32 && IsBytes(Record(s, hash))
    requires forall i :: 0 <= i < |s.inventory| ==> |s.inventory[i].id| == 32
    requires forall i :: 0 <= i < |s.links| ==> |s.links[i].dependent| == 32 && |s.links[i].dependency| == 32
    requires forall x :: |hash(x)| == 32
    ensures InspectVerdict(Record(s, hash), s.epoch, s.root, hash) ==
            if |Record(s, hash)| > MAX_RECORD_BYTES then Some(ResourceLimit)
            else if s.arm != COMPLETE_ROOT_ARM then Some(CompletenessUnsupported)
            else if !AllModeled(s.inventory) then Some(FormatInvalid)
            else None
  {
    BuiltFramed(s);
    InspectRecord(s, Record(s, hash), hash);
  }
}
