/** The `SLEYIDX1` record: its sections, how they print, and how a reader takes them apart again. */
module SnapshotModel {
  import opened Bytes
  import opened Wrappers

  /** One inventory entry, and one entry of a reverse group. */
  datatype Member = Member(id: seq<int>, kind: int)

  datatype Link = Link(dependent: seq<int>, dependency: seq<int>, kind: int)

  datatype Group = Group(key: seq<int>, members: seq<Member>)

  datatype Snapshot = Snapshot(epoch: seq<int>, root: seq<int>, arm: int, inventory: seq<Member>, links: seq<Link>,
                               groups: seq<Group>)

  datatype Code =
    | ProfileUnsupported
    | FormatInvalid
    | VersionUnsupported
    | ContextMismatch
    | DigestMismatch
    | CompletenessUnsupported
    | ResourceLimit
    | InventoryOrder
    | EdgeOrder
    | NotPackable

  const DOMAIN := Ascii("sley2.index-snapshot.v1")
  const MAGIC := [83, 76, 69, 89, 73, 68, 88, 49]
  const FORMAT_VERSION := 1
  const PROFILE_VERSION := 1
  const LIMITS_PROFILE := 1
  const OPTION_NONE := 1
  const OPTION_SOME := 2
  const COMPLETE_ROOT_ARM := 2
  const MIN_RECORD_BYTES := 148
  const MAX_RECORD_BYTES := 67_108_864
  const FIELD_SCHEMA_HASH :=
    [0x19, 0x83, 0xbc, 0x8d, 0x6a, 0xd9, 0xac, 0x3c, 0xb5, 0x39, 0x08, 0x53, 0xf4, 0x39, 0x59, 0xcf, 0x2c, 0x3d, 0xc0,
      0xae, 0x8e, 0x0c, 0xa1, 0x8c, 0xa8, 0x26, 0x4c, 0xa4, 0x96, 0x01, 0x33, 0xae]

  // Printing.

  ghost predicate Packable(kind: int) { 0 <= kind < LIMIT32 }

  function PrintMember(m: Member): seq<int>
    requires m.kind >= 0
  {
    m.id + U32(m.kind)
  }

  function PrintMembers(ms: seq<Member>): seq<int>
    requires forall i :: 0 <= i < |ms| ==> ms[i].kind >= 0
  {
    if ms == [] then [] else PrintMember(ms[0]) + PrintMembers(ms[1..])
  }

  function PrintLinks(ls: seq<Link>): seq<int>
    requires forall i :: 0 <= i < |ls| ==> ls[i].kind >= 0
  {
    if ls == [] then [] else ls[0].dependent + ls[0].dependency + U32(ls[0].kind) + PrintLinks(ls[1..])
  }

  function PrintGroup(g: Group): seq<int>
    requires forall i :: 0 <= i < |g.members| ==> g.members[i].kind >= 0
  {
    g.key + U64(|g.members|) + PrintMembers(g.members)
  }

  function PrintGroups(gs: seq<Group>): seq<int>
    requires forall i, j :: 0 <= i < |gs| && 0 <= j < |gs[i].members| ==> gs[i].members[j].kind >= 0
  {
    if gs == [] then [] else PrintGroup(gs[0]) + PrintGroups(gs[1..])
  }

  /** Every kind is an unsigned 32-bit integer and every count an unsigned 64-bit one. */
  ghost predicate Fits(s: Snapshot) {
    && 0 <= s.arm < LIMIT32
    && (forall i :: 0 <= i < |s.inventory| ==> Packable(s.inventory[i].kind))
    && (forall i :: 0 <= i < |s.links| ==> Packable(s.links[i].kind))
    && (forall i, j :: 0 <= i < |s.groups| && 0 <= j < |s.groups[i].members| ==> Packable(s.groups[i].members[j].kind))
    && |s.inventory| < LIMIT64 && |s.links| < LIMIT64 && |s.groups| < LIMIT64
    && (forall i :: 0 <= i < |s.groups| ==> |s.groups[i].members| < LIMIT64)
  }

  function Header(epoch: seq<int>, root: seq<int>, arm: nat): seq<int> {
    MAGIC + (U32(FORMAT_VERSION) + (U32(PROFILE_VERSION) + (epoch + (FIELD_SCHEMA_HASH + (U32(LIMITS_PROFILE)
    + (U32(OPTION_SOME) + (root + U32(arm))))))))
  }

  function Body(s: Snapshot): seq<int>
    requires Fits(s)
  {
    U64(|s.inventory|) + (PrintMembers(s.inventory) + (U64(|s.links|) + (PrintLinks(s.links)
    + (U64(|s.groups|) + PrintGroups(s.groups)))))
  }

  function Preimage(s: Snapshot): seq<int>
    requires Fits(s)
  {
    Header(s.epoch, s.root, s.arm) + Body(s)
  }

  function Sizes(groups: seq<Group>): nat {
    if groups == [] then 0 else |groups[0].members| + Sizes(groups[1..])
  }

  // Reading. Each reader returns what it read and the offset behind it.

  /** `modeled` also checks that kinds lie in 1..18. */
  function ReadMembers(d: seq<int>, pos: nat, n: nat, modeled: bool): Option<(seq<Member>, nat)>
    decreases n
  {
    if n == 0 then Some(([], pos))
    else if pos + 36 > |d| then None
    else
      var m := Member(d[pos..pos + 32], UnBE(d[pos + 32..pos + 36]));
      if modeled && !(1 <= m.kind <= 18) then None
      else
        match ReadMembers(d, pos + 36, n - 1, modeled)
        case None => None
        case Some((rest, end)) => Some(([m] + rest, end))
  }

  function ReadLinks(d: seq<int>, pos: nat, n: nat): Option<(seq<Link>, nat)>
    decreases n
  {
    if n == 0 then Some(([], pos))
    else if pos + 68 > |d| then None
    else
      var l := Link(d[pos..pos + 32], d[pos + 32..pos + 64], UnBE(d[pos + 64..pos + 68]));
      match ReadLinks(d, pos + 68, n - 1)
      case None => None
      case Some((rest, end)) => Some(([l] + rest, end))
  }

  function ReadGroup(d: seq<int>, pos: nat): Option<(Group, nat)> {
    if pos + 40 > |d| then None
    else
      var n := UnBE(d[pos + 32..pos + 40]);
      if n < 0 then None
      else
        match ReadMembers(d, pos + 40, n, false)
        case None => None
        case Some((members, end)) => Some((Group(d[pos..pos + 32], members), end))
  }

  function ReadGroups(d: seq<int>, pos: nat, n: nat): Option<(seq<Group>, nat)>
    decreases n
  {
    if n == 0 then Some(([], pos))
    else
      match ReadGroup(d, pos)
      case None => None
      case Some((g, next)) =>
        match ReadGroups(d, next, n - 1)
        case None => None
        case Some((rest, end)) => Some(([g] + rest, end))
  }
}
