/** The superseded listing: sort the pool by host and commit, drop hosts that attest again, refuse contradictions,
    keep the first entry of each key. */
module ReproListing {
  import opened Order
  import opened ReproModel

  /** The entries of one key, in order: what a stable sort leaves alone. */
  function Select(entries: seq<Entry>, k: Key): seq<Entry> {
    if entries == [] then []
    else
      var last := entries[|entries| - 1];
      Select(entries[..|entries| - 1], k) + if KeyOf(last) == k then [last] else []
  }

  lemma {:induction false} SelectConcat(a: seq<Entry>, b: seq<Entry>, k: Key)
    ensures Select(a + b, k) == Select(a, k) + Select(b, k)
    decreases |b|
  {
    if b == [] {
      assert a + b == a;
    } else {
      assert (a + b)[..|a + b| - 1] == a + b[..|b| - 1];
      SelectConcat(a, b[..|b| - 1], k);
    }
  }

  lemma {:induction false} SelectMembers(entries: seq<Entry>, k: Key, e: Entry)
    ensures e in Select(entries, k) <==> e in entries && KeyOf(e) == k
  {
    if entries != [] {
      SelectMembers(entries[..|entries| - 1], k, e);
      assert entries == entries[..|entries| - 1] + [entries[|entries| - 1]];
    }
  }

  ghost predicate KeySorted(entries: seq<Entry>) {
    forall i, j :: 0 <= i < j < |entries| ==> !KeyLess(KeyOf(entries[j]), KeyOf(entries[i]))
  }

  /** A stable sort by host and commit: ordered by key, and the entries of each key as they were. */
  method SortByKey(entries: seq<Entry>) returns (r: seq<Entry>)
    ensures KeySorted(r)
    ensures forall k :: Select(r, k) == Select(entries, k)
  {
    r := [];
    for i := 0 to |entries|
      invariant KeySorted(r)
      invariant forall k :: Select(r, k) == Select(entries[..i], k)
    {
      ghost var before := r;
      var p := PlaceAfter(r, KeyOf(entries[i]));
      r := r[..p] + [entries[i]] + r[p..];
      InsertKeeps(before, entries[i], p);
      assert entries[..i + 1][..i] == entries[..i];
      forall k ensures Select(r, k) == Select(entries[..i + 1], k) { InsertSelect(before, entries[i], p, k); }
    }
    assert entries[..|entries|] == entries;
  }

  /** Behind every entry whose key is not greater. */
  method PlaceAfter(r: seq<Entry>, k: Key) returns (p: nat)
    requires KeySorted(r)
    ensures p <= |r|
    ensures forall i :: 0 <= i < p ==> !KeyLess(k, KeyOf(r[i]))
    ensures forall i :: p <= i < |r| ==> KeyLess(k, KeyOf(r[i]))
  {
    p := 0;
    while p < |r| && !KeyLess(k, KeyOf(r[p]))
      invariant p <= |r|
      invariant forall i :: 0 <= i < p ==> !KeyLess(k, KeyOf(r[i]))
    {
      p := p + 1;
    }
    KeyTotal();
    forall i | p <= i < |r| ensures KeyLess(k, KeyOf(r[i])) {
      if p < i { assert !KeyLess(KeyOf(r[i]), KeyOf(r[p])); }
    }
  }

  lemma InsertKeeps(r: seq<Entry>, e: Entry, p: nat)
    requires KeySorted(r) && p <= |r|
    requires forall i :: 0 <= i < p ==> !KeyLess(KeyOf(e), KeyOf(r[i]))
    requires forall i :: p <= i < |r| ==> KeyLess(KeyOf(e), KeyOf(r[i]))
    ensures KeySorted(r[..p] + [e] + r[p..])
  {
    var s := r[..p] + [e] + r[p..];
    KeyTotal();
    forall i, j | 0 <= i < j < |s| ensures !KeyLess(KeyOf(s[j]), KeyOf(s[i])) {
      assert s[i] == if i < p then r[i] else if i == p then e else r[i - 1];
      assert s[j] == if j < p then r[j] else if j == p then e else r[j - 1];
    }
  }

  lemma InsertSelect(r: seq<Entry>, e: Entry, p: nat, k: Key)
    requires p <= |r| && forall i :: p <= i < |r| ==> KeyLess(KeyOf(e), KeyOf(r[i]))
    ensures Select(r[..p] + [e] + r[p..], k) == Select(r, k) + if KeyOf(e) == k then [e] else []
  {
    var head, tail := r[..p], r[p..];
    assert r == head + tail;
    SelectConcat(head, tail, k);
    SelectAround(head, e, tail, k);
    if KeyOf(e) == k { SelectBehind(tail, k); }
  }

  lemma SelectAround(head: seq<Entry>, e: Entry, tail: seq<Entry>, k: Key)
    ensures Select(head + [e] + tail, k) == Select(head, k) + (if KeyOf(e) == k then [e] else []) + Select(tail, k)
  {
    SelectConcat(head + [e], tail, k);
    SelectConcat(head, [e], k);
    SelectOne(e, k);
  }

  lemma SelectOne(e: Entry, k: Key)
    ensures Select([e], k) == if KeyOf(e) == k then [e] else []
  {
    assert [e][..0] == [];
  }

  lemma SelectBehind(tail: seq<Entry>, k: Key)
    requires forall i :: 0 <= i < |tail| ==> KeyLess(k, KeyOf(tail[i]))
    ensures Select(tail, k) == []
  {
    KeyTotal();
    if Select(tail, k) != [] {
      var x := Select(tail, k)[0];
      SelectMembers(tail, k, x);
    }
  }

  /** Some listed host that does not attest again contradicts the run: an entry names the current commit, or one
      key carries two digests. */
  ghost predicate Contradicts(pool: seq<Entry>, reattested: set<string>, commit: string) {
    exists e :: e in pool && e.hostLabel !in reattested &&
      (e.commit == commit || exists f :: f in pool && KeyOf(f) == KeyOf(e) && f.artifactSha256 != e.artifactSha256)
  }

  /** The listing a run writes: ascending by key, holding for every key of the pool whose host does not attest
      again the pool's first entry, and nothing else. */
  ghost predicate IsSuperseded(listing: seq<Entry>, pool: seq<Entry>, reattested: set<string>) {
    && (forall i, j :: 0 <= i < j < |listing| ==> KeyLess(KeyOf(listing[i]), KeyOf(listing[j])))
    && (forall e :: e in listing ==> e.hostLabel !in reattested && Leads(pool, e))
    && (forall e :: e in pool && e.hostLabel !in reattested ==> exists f :: f in listing && KeyOf(f) == KeyOf(e))
  }

  /** `e` is the first entry of its key. */
  ghost predicate Leads(pool: seq<Entry>, e: Entry) {
    Select(pool, KeyOf(e)) != [] && Select(pool, KeyOf(e))[0] == e
  }

  lemma LeadsMember(pool: seq<Entry>, e: Entry)
    requires Leads(pool, e)
    ensures e in pool
  {
    SelectMembers(pool, KeyOf(e), e);
  }

  /** There is one such listing. */
  lemma SupersededUnique(a: seq<Entry>, b: seq<Entry>, pool: seq<Entry>, reattested: set<string>)
    requires IsSuperseded(a, pool, reattested) && IsSuperseded(b, pool, reattested)
    ensures a == b
  {
    KeyTotal();
    var ka := seq(|a|, i requires 0 <= i < |a| => KeyOf(a[i]));
    var kb := seq(|b|, i requires 0 <= i < |b| => KeyOf(b[i]));
    forall k ensures k in ka <==> k in kb {
      if k in ka { SameKeys(a, b, pool, reattested, k); }
      if k in kb { SameKeys(b, a, pool, reattested, k); }
    }
    AscendingUnique(ka, kb, KeyLess);
    forall i | 0 <= i < |a| ensures a[i] == b[i] {
      assert ka[i] == kb[i];
      assert a[i] in a && b[i] in b;
    }
  }

  lemma SameKeys(a: seq<Entry>, b: seq<Entry>, pool: seq<Entry>, reattested: set<string>, k: Key)
    requires IsSuperseded(a, pool, reattested) && IsSuperseded(b, pool, reattested)
    requires k in seq(|a|, i requires 0 <= i < |a| => KeyOf(a[i]))
    ensures k in seq(|b|, i requires 0 <= i < |b| => KeyOf(b[i]))
  {
    var i :| 0 <= i < |a| && KeyOf(a[i]) == k;
    assert a[i] in a;
    LeadsMember(pool, a[i]);
    var f :| f in b && KeyOf(f) == KeyOf(a[i]);
    var j :| 0 <= j < |b| && b[j] == f;
    assert seq(|b|, i requires 0 <= i < |b| => KeyOf(b[i]))[j] == k;
  }

  /** The loop over the sorted pool. */
  method Supersede(pool: seq<Entry>, reattested: set<string>, commit: string)
    returns (refused: bool, listing: seq<Entry>)
    ensures refused <==> Contradicts(pool, reattested, commit)
    ensures !refused ==> IsSuperseded(listing, pool, reattested)
  {
    var ordered := SortByKey(pool);
    forall e ensures e in ordered <==> e in pool {
      SelectMembers(ordered, KeyOf(e), e);
      SelectMembers(pool, KeyOf(e), e);
    }
    listing := [];
    var seen: map<Key, string> := map[];
    for i := 0 to |ordered|
      invariant forall j, k :: 0 <= j < k < |listing| ==> KeyLess(KeyOf(listing[j]), KeyOf(listing[k]))
      invariant Listed(ordered[..i], listing, seen, reattested, commit)
    {
      var e := ordered[i];
      assert e in ordered && ordered[..i + 1] == ordered[..i] + [e];
      if e.hostLabel in reattested {
        ListedSame(ordered[..i], e, listing, seen, reattested, commit);
      } else if e.commit == commit {
        return true, [];
      } else if KeyOf(e) in seen {
        if seen[KeyOf(e)] != e.artifactSha256 {
          ghost var f :| f in listing && KeyOf(f) == KeyOf(e) && f.artifactSha256 == seen[KeyOf(e)];
          LeadsMember(ordered[..i], f);
          assert f in ordered;
          return true, [];
        }
        ListedSame(ordered[..i], e, listing, seen, reattested, commit);
      } else {
        ListingExtends(ordered, listing, i);
        ListedMore(ordered[..i], e, listing, seen, reattested, commit);
        listing := listing + [e];
        seen := seen[KeyOf(e) := e.artifactSha256];
      }
    }
    assert ordered[..|ordered|] == ordered;
    ListedAll(pool, ordered, listing, seen, reattested, commit);
    return false, listing;
  }

  /** What the loop has made of the entries it is done with. */
  ghost predicate Listed(done: seq<Entry>, listing: seq<Entry>, seen: map<Key, string>, reattested: set<string>,
                         commit: string) {
    && (forall e :: e in listing ==> e.hostLabel !in reattested && Leads(done, e))
    && (forall e :: e in done && e.hostLabel !in reattested ==>
         KeyOf(e) in seen && seen[KeyOf(e)] == e.artifactSha256 && e.commit != commit)
    && (forall k :: k in seen ==> exists f :: f in listing && KeyOf(f) == k && f.artifactSha256 == seen[k])
  }

  lemma LeadsOn(done: seq<Entry>, e: Entry, x: Entry)
    requires Leads(done, x)
    ensures Leads(done + [e], x)
  {
    assert (done + [e])[..|done|] == done;
  }

  lemma ListedSame(done: seq<Entry>, e: Entry, listing: seq<Entry>, seen: map<Key, string>, reattested: set<string>,
                   commit: string)
    requires Listed(done, listing, seen, reattested, commit)
    requires e.hostLabel in reattested || (e.commit != commit && KeyOf(e) in seen && seen[KeyOf(e)] == e.artifactSha256)
    ensures Listed(done + [e], listing, seen, reattested, commit)
  {
    forall x | x in listing ensures Leads(done + [e], x) { LeadsOn(done, e, x); }
  }

  lemma ListedMore(done: seq<Entry>, e: Entry, listing: seq<Entry>, seen: map<Key, string>, reattested: set<string>,
                   commit: string)
    requires Listed(done, listing, seen, reattested, commit) && e.hostLabel !in reattested && e.commit != commit
    requires KeyOf(e) !in seen && Leads(done + [e], e)
    ensures Listed(done + [e], listing + [e], seen[KeyOf(e) := e.artifactSha256], reattested, commit)
  {
    var more := listing + [e];
    forall x | x in more ensures x.hostLabel !in reattested && Leads(done + [e], x) {
      if x in listing { LeadsOn(done, e, x); }
    }
    assert e in more && forall f :: f in listing ==> f in more;
  }

  lemma ListedAll(pool: seq<Entry>, ordered: seq<Entry>, listing: seq<Entry>, seen: map<Key, string>,
                  reattested: set<string>, commit: string)
    requires (forall e :: e in ordered <==> e in pool) && (forall k :: Select(ordered, k) == Select(pool, k))
    requires Listed(ordered, listing, seen, reattested, commit)
    requires forall j, k :: 0 <= j < k < |listing| ==> KeyLess(KeyOf(listing[j]), KeyOf(listing[k]))
    ensures IsSuperseded(listing, pool, reattested) && !Contradicts(pool, reattested, commit)
  {
    forall e | e in pool && e.hostLabel !in reattested ensures exists f :: f in listing && KeyOf(f) == KeyOf(e) {
      assert e in ordered;
    }
  }

  /** An entry whose key has not led so far leads, and sorts behind everything listed. */
  lemma ListingExtends(ordered: seq<Entry>, listing: seq<Entry>, i: nat)
    requires i < |ordered| && KeySorted(ordered)
    requires forall e :: e in listing ==> Leads(ordered[..i], e)
    requires forall e :: e in ordered[..i] ==> KeyOf(e) != KeyOf(ordered[i])
    ensures Leads(ordered[..i + 1], ordered[i])
    ensures forall j :: 0 <= j < |listing| ==> KeyLess(KeyOf(listing[j]), KeyOf(ordered[i]))
  {
    var e := ordered[i];
    assert ordered[..i + 1][..i] == ordered[..i];
    if Select(ordered[..i], KeyOf(e)) != [] {
      SelectMembers(ordered[..i], KeyOf(e), Select(ordered[..i], KeyOf(e))[0]);
    }
    KeyTotal();
    forall j | 0 <= j < |listing| ensures KeyLess(KeyOf(listing[j]), KeyOf(e)) {
      assert listing[j] in listing;
      LeadsMember(ordered[..i], listing[j]);
      var k :| 0 <= k < i && ordered[..i][k] == listing[j];
      assert !KeyLess(KeyOf(e), KeyOf(ordered[k]));
    }
  }
}
