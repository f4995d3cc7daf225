/** The ledger of re-stated claims of one section and severity: each entry is checked, its chain of `restates` links is
    walked with a growing set of seen claims, and acceptance of all entries shapes every chain. */
module RegisterLedger {
  import opened Order
  import opened Register
  import opened Wrappers

  datatype FindingKey = FindingKey(lane: Option<string>, kind: string, origin: string, identifier: string)

  datatype Entry = Entry(claim: string, restates: string)

  /** An entry as parsed. `Surplus` has further keys beside the two; `Malformed` is any other JSON shape. */
  datatype Raw = Malformed | Surplus(entry: Entry) | Shaped(entry: Entry)

  datatype Section = Section(severity: string, open_: seq<string>, closed: seq<string>, restated: seq<Raw>)

  /** What the prose readers say about a claim. */
  datatype Readers = Readers(
    key: string -> FindingKey,
    raisedSeverity: string -> Option<string>,
    unraised: string -> bool,
    isCarry: string -> bool,
    carrySha: string -> Option<string>,
    tagScope: string -> Option<string>,
    raisingScope: string -> Option<string>,
    descends: (string, string) -> bool)

  function Prefix(s: string, n: nat): string { if |s| <= n then s else s[..n] }

  /** The scope of the re-stated claim: its tag, else the round that raised it. */
  function TargetScope(r: Readers, claim: string): string {
    var tag := r.tagScope(claim);
    if tag.Some? && tag.value != "" then tag.value
    else match r.raisingScope(claim) case None => "" case Some(s) => s
  }

  /** Every check of one entry except the walk. */
  predicate EntryChecks(r: Readers, s: Section, e: Entry) {
    && (r.raisedSeverity(e.claim).Some? && r.raisedSeverity(e.claim).value != "" ==>
          r.raisedSeverity(e.claim).value == "P" + s.severity)
    && !r.unraised(e.claim)
    && e.claim !in s.open_ && e.claim !in s.closed && e.restates != e.claim
    && r.key(e.claim) == r.key(e.restates) && r.key(e.claim).lane.Some?
    && r.isCarry(e.claim) && r.carrySha(e.claim).Some? && r.carrySha(e.claim).value != ""
    && Prefix(TargetScope(r, e.restates), 7) == r.carrySha(e.claim).value
    && r.tagScope(e.claim).Some?
    && (r.tagScope(e.restates).Some? ==> StrictlyLater(r.descends, r.tagScope(e.claim), r.tagScope(e.restates)))
  }

  /** The commit a claim stands at: its own tag, and without one the round that raised it. */
  ghost predicate StandsAt(r: Readers, claim: string, scope: string) {
    || (r.tagScope(claim) == Some(scope) && scope != "")
    || (r.tagScope(claim) in {None, Some("")} && r.raisingScope(claim) == Some(scope))
    || (r.tagScope(claim) in {None, Some("")} && r.raisingScope(claim) == None && scope == "")
  }

  /** What re-stating a claim takes, the walk aside. */
  ghost predicate Restatable(r: Readers, s: Section, claim: string, target: string) {
    && !r.unraised(claim) && claim !in s.open_ && claim !in s.closed && claim != target
    && r.raisedSeverity(claim) in {None, Some(""), Some("P" + s.severity)}
    && r.key(claim) == r.key(target) && r.key(claim).lane != None
    && r.isCarry(claim)
    && (exists named, scope :: r.carrySha(claim) == Some(named) && named != "" && StandsAt(r, target, scope)
                               && named == if |scope| > 7 then scope[..7] else scope)
    && r.tagScope(claim) != None
    && (r.tagScope(target) != None ==> StrictlyLater(r.descends, r.tagScope(claim), r.tagScope(target)))
  }

  type Links = map<string, string>

  /** What every claim re-states, by the last entry that has both keys. */
  function LinksOf(entries: seq<Raw>): Links {
    if entries == [] then map[]
    else
      var links := LinksOf(entries[..|entries| - 1]);
      match entries[|entries| - 1]
      case Malformed => links
      case Surplus(e) => links[e.claim := e.restates]
      case Shaped(e) => links[e.claim := e.restates]
  }

  // The walk.

  /** The claim `k` links away from `start`, if the links go that far. */
  ghost function Follow(links: Links, start: string, k: nat): Option<string> {
    if k == 0 then Some(start)
    else
      match Follow(links, start, k - 1)
      case None => None
      case Some(c) => if c in links then Some(links[c]) else None
  }

  ghost predicate EndsAt(links: Links, start: string, end: string) {
    end !in links && exists k :: Follow(links, start, k) == Some(end)
  }

  /** A link path that starts at `start`. */
  ghost predicate Walked(links: Links, start: string, path: seq<string>) {
    && path != [] && path[0] == start
    && forall i :: 0 <= i < |path| - 1 ==> path[i] in links && path[i + 1] == links[path[i]]
  }

  lemma {:induction false} WalkedFollow(links: Links, start: string, path: seq<string>, i: nat)
    requires Walked(links, start, path) && i < |path|
    ensures Follow(links, start, i) == Some(path[i])
    decreases i
  {
    if i > 0 { WalkedFollow(links, start, path, i - 1); }
  }

  /** A set of linked claims that the links do not leave holds every walk that enters it. */
  lemma {:induction false} Trapped(links: Links, inside: set<string>, start: string, k: nat)
    requires start in inside && inside <= links.Keys && forall c :: c in inside ==> links[c] in inside
    ensures Follow(links, start, k).Some? && Follow(links, start, k).value in inside
    decreases k
  {
    if k > 0 { Trapped(links, inside, start, k - 1); }
  }

  /** The loop over `seen`. It ends on every input: with the end of the chain, or with a cycle, and then the chain has
      no end. */
  method Walk(links: Links, start: string) returns (end: Option<string>)
    ensures end.Some? ==> EndsAt(links, start, end.value)
    ensures end.None? ==> forall k: nat :: Follow(links, start, k).Some? && Follow(links, start, k).value in links
  {
    var seen: set<string>, target := {}, start;
    ghost var steps := 0;
    while target in links
      invariant Follow(links, start, steps) == Some(target)
      invariant seen <= links.Keys && start in seen + {target}
      invariant forall c :: c in seen ==> links[c] in seen + {target}
      decreases |links.Keys - seen|
    {
      if target in seen {
        assert seen + {target} == seen;
        forall k: nat ensures Follow(links, start, k).Some? && Follow(links, start, k).value in links {
          Trapped(links, seen, start, k);
        }
        return None;
      }
      assert links.Keys - (seen + {target}) == (links.Keys - seen) - {target};
      seen := seen + {target};
      target := links[target];
      steps := steps + 1;
    }
    return Some(target);
  }

  // The section.

  ghost predicate EntryAccepted(r: Readers, s: Section, e: Entry) {
    EntryChecks(r, s, e) && exists end :: EndsAt(LinksOf(s.restated), e.restates, end) && end in s.open_
  }

  /** `package_restated_claims` for one list: every entry well-shaped and accepted. */
  ghost predicate Accepted(r: Readers, s: Section) {
    forall i :: 0 <= i < |s.restated| ==> s.restated[i].Shaped? && EntryAccepted(r, s, s.restated[i].entry)
  }

  lemma {:induction false} FollowStops(links: Links, start: string, j: nat, k: nat)
    requires j < k && Follow(links, start, j).Some? && Follow(links, start, j).value !in links
    ensures Follow(links, start, k).None?
    decreases k
  {
    if j < k - 1 { FollowStops(links, start, j, k - 1); }
  }

  lemma OneEnd(links: Links, start: string, a: string, b: string)
    requires EndsAt(links, start, a) && EndsAt(links, start, b)
    ensures a == b
  {
    var j: nat :| Follow(links, start, j) == Some(a);
    var k: nat :| Follow(links, start, k) == Some(b);
    if j < k { FollowStops(links, start, j, k); }
    if k < j { FollowStops(links, start, k, j); }
  }

  method CheckSection(r: Readers, s: Section) returns (ok: bool)
    ensures ok <==> Accepted(r, s)
  {
    var links := BuildLinks(s.restated);
    for i := 0 to |s.restated|
      invariant forall k :: 0 <= k < i ==> s.restated[k].Shaped? && EntryAccepted(r, s, s.restated[k].entry)
    {
      if !s.restated[i].Shaped? { return false; }
      var e := s.restated[i].entry;
      if !EntryChecks(r, s, e) { return false; }
      var end := Walk(links, e.restates);
      if end.None? {
        assert !exists t :: EndsAt(links, e.restates, t);
        return false;
      }
      if end.value !in s.open_ {
        forall t | EndsAt(links, e.restates, t) ensures t == end.value { OneEnd(links, e.restates, t, end.value); }
        return false;
      }
    }
    return true;
  }

  lemma ChecksExactly(r: Readers, s: Section, e: Entry)
    ensures EntryChecks(r, s, e) <==> Restatable(r, s, e.claim, e.restates)
  {
    var scope := TargetScope(r, e.restates);
    assert StandsAt(r, e.restates, scope);
    assert forall x :: StandsAt(r, e.restates, x) ==> x == scope;
    assert Prefix(scope, 7) == if |scope| > 7 then scope[..7] else scope;
  }

  /** No accepted claim is open or closed in the section, each is a carry that names the first seven characters of the
      commit its target stands at, and each meets every other condition of a re-statement. */
  lemma AcceptedClaims(r: Readers, s: Section)
    ensures Accepted(r, s) <==>
            forall raw :: raw in s.restated ==>
              raw.Shaped? && Restatable(r, s, raw.entry.claim, raw.entry.restates)
              && exists end :: EndsAt(LinksOf(s.restated), raw.entry.restates, end) && end in s.open_
  {
    forall e ensures EntryChecks(r, s, e) <==> Restatable(r, s, e.claim, e.restates) { ChecksExactly(r, s, e); }
  }

  method BuildLinks(entries: seq<Raw>) returns (links: Links)
    ensures links == LinksOf(entries)
  {
    links := map[];
    for i := 0 to |entries|
      invariant links == LinksOf(entries[..i])
    {
      assert entries[..i + 1][..i] == entries[..i];
      if !entries[i].Malformed? { links := links[entries[i].entry.claim := entries[i].entry.restates]; }
    }
    assert entries[..|entries|] == entries;
  }

  // What acceptance gives.

  lemma {:induction false} LinkIsEntry(entries: seq<Raw>, c: string)
    requires c in LinksOf(entries)
    ensures Shaped(Entry(c, LinksOf(entries)[c])) in entries || Surplus(Entry(c, LinksOf(entries)[c])) in entries
    decreases |entries|
  {
    var init, last := entries[..|entries| - 1], entries[|entries| - 1];
    assert entries == init + [last];
    if last.Malformed? || last.entry.claim != c { LinkIsEntry(init, c); }
  }

  /** Git ancestry on scopes: a strict partial order. */
  ghost predicate StrictOrder(descends: (string, string) -> bool) {
    && (forall a, b :: descends(a, b) && descends(b, a) ==> a == b)
    && (forall a, b, c :: descends(a, b) && descends(b, c) ==> descends(a, c))
  }

  /** The chain of an entry: the claim, what it re-states, and on to the end. */
  ghost predicate IsChain(s: Section, e: Entry, chain: seq<string>) {
    && |chain| >= 2 && chain[0] == e.claim
    && Walked(LinksOf(s.restated), e.restates, chain[1..])
    && chain[|chain| - 1] !in LinksOf(s.restated)
  }

  lemma AcceptedEntry(r: Readers, s: Section, e: Entry)
    requires Accepted(r, s) && Shaped(e) in s.restated
    ensures EntryAccepted(r, s, e)
  {
    var i :| 0 <= i < |s.restated| && s.restated[i] == Shaped(e);
  }

  /** Each step of a chain is an accepted entry. */
  lemma ChainStep(r: Readers, s: Section, e: Entry, chain: seq<string>, i: nat)
    requires Accepted(r, s) && Shaped(e) in s.restated && IsChain(s, e, chain) && i < |chain| - 1
    ensures EntryChecks(r, s, Entry(chain[i], chain[i + 1]))
  {
    var tail := chain[1..];
    if i == 0 {
      assert tail[0] == chain[1];
      AcceptedEntry(r, s, e);
    } else {
      assert tail[i - 1] == chain[i] && tail[i] == chain[i + 1];
      LinkIsEntry(s.restated, chain[i]);
      AcceptedEntry(r, s, Entry(chain[i], chain[i + 1]));
    }
  }

  lemma {:induction false} ChainKeeps(r: Readers, s: Section, e: Entry, chain: seq<string>, i: nat)
    requires Accepted(r, s) && Shaped(e) in s.restated && IsChain(s, e, chain) && i < |chain|
    ensures r.key(chain[i]) == r.key(e.claim)
    decreases i
  {
    if i > 0 {
      ChainKeeps(r, s, e, chain, i - 1);
      ChainStep(r, s, e, chain, i - 1);
    }
  }

  /** Along a chain every tagged claim descends strictly from every tagged claim after it. */
  lemma {:induction false} ClaimsDescend(r: Readers, s: Section, e: Entry, chain: seq<string>, i: nat, j: nat)
    requires Accepted(r, s) && Shaped(e) in s.restated && IsChain(s, e, chain) && i < j < |chain|
    requires StrictOrder(r.descends) && r.tagScope(chain[j]).Some?
    ensures StrictlyLater(r.descends, r.tagScope(chain[i]), r.tagScope(chain[j]))
    decreases j
  {
    ChainStep(r, s, e, chain, j - 1);
    if i < j - 1 {
      ClaimsDescend(r, s, e, chain, i, j - 1);
      var a, b, c := r.tagScope(chain[i]).value, r.tagScope(chain[j - 1]).value, r.tagScope(chain[j]).value;
      assert r.descends(a, b) && r.descends(b, c);
      assert a == c ==> r.descends(c, b);
    }
  }

  lemma ChainEndOpen(r: Readers, s: Section, e: Entry, chain: seq<string>)
    requires Accepted(r, s) && Shaped(e) in s.restated && IsChain(s, e, chain)
    ensures chain[|chain| - 1] in s.open_
  {
    AcceptedEntry(r, s, e);
    var end :| EndsAt(LinksOf(s.restated), e.restates, end) && end in s.open_;
    WalkedFollow(LinksOf(s.restated), e.restates, chain[1..], |chain| - 2);
    OneEnd(LinksOf(s.restated), e.restates, end, chain[|chain| - 1]);
  }

  lemma ChainRepeatsNothing(r: Readers, s: Section, e: Entry, chain: seq<string>)
    requires Accepted(r, s) && Shaped(e) in s.restated && IsChain(s, e, chain) && StrictOrder(r.descends)
    ensures Distinct(chain)
  {
    ChainEndOpen(r, s, e, chain);
    forall i, j | 0 <= i < j < |chain| ensures chain[i] != chain[j] {
      ChainStep(r, s, e, chain, i);
      if j < |chain| - 1 {
        ChainStep(r, s, e, chain, j);
        ClaimsDescend(r, s, e, chain, i, j);
      }
    }
  }

  /** On an accepted section the chain of every entry exists and is finite, repeats no claim, keeps one finding key,
      descends strictly in ancestry between tagged claims, and ends at an open claim. */
  lemma AcceptedChains(r: Readers, s: Section, e: Entry)
    requires Accepted(r, s) && Shaped(e) in s.restated && StrictOrder(r.descends)
    ensures exists chain :: IsChain(s, e, chain) && Distinct(chain) && chain[|chain| - 1] in s.open_
              && (forall i :: 0 <= i < |chain| ==> r.key(chain[i]) == r.key(e.claim))
              && (forall i, j :: 0 <= i < j < |chain| && r.tagScope(chain[j]).Some? ==>
                    StrictlyLater(r.descends, r.tagScope(chain[i]), r.tagScope(chain[j])))
  {
    AcceptedEntry(r, s, e);
    var links := LinksOf(s.restated);
    var end :| EndsAt(links, e.restates, end) && end in s.open_;
    var k: nat :| Follow(links, e.restates, k) == Some(end);
    var path := FollowPath(links, e.restates, k);
    var chain := [e.claim] + path;
    assert chain[1..] == path;
    ChainEndOpen(r, s, e, chain);
    ChainRepeatsNothing(r, s, e, chain);
    forall i | 0 <= i < |chain| ensures r.key(chain[i]) == r.key(e.claim) { ChainKeeps(r, s, e, chain, i); }
    forall i, j | 0 <= i < j < |chain| && r.tagScope(chain[j]).Some?
      ensures StrictlyLater(r.descends, r.tagScope(chain[i]), r.tagScope(chain[j]))
    {
      ClaimsDescend(r, s, e, chain, i, j);
    }
  }

  lemma {:induction false} FollowPath(links: Links, start: string, k: nat) returns (path: seq<string>)
    requires Follow(links, start, k).Some?
    ensures Walked(links, start, path) && path[|path| - 1] == Follow(links, start, k).value
    decreases k
  {
    if k == 0 {
      path := [start];
    } else {
      var init := FollowPath(links, start, k - 1);
      path := init + [Follow(links, start, k).value];
    }
  }
}
