/** What a response record of each class decodes to, by position: when it is accepted, and which identities, kinds,
    roots and edges stand in its rows. */
module CapsuleRows {
  import opened Bytes
  import opened CapsuleModel
  import opened CapsuleDecode
  import opened Wrappers

  // Rows and lengths.

  predicate ListingClass(cls: int) { cls != 1 && cls != 2 && cls != 3 }

  lemma {:induction false} RowsFit(f: Facts, d: seq<int>, pos: nat, n: nat, cls: int)
    requires pos <= |d|
    ensures AddRows(f, d, pos, n, cls).Some? <==> pos + RowWidth(cls) * n <= |d|
    ensures AddRows(f, d, pos, n, cls).Some? ==> AddRows(f, d, pos, n, cls).value.1 == pos + RowWidth(cls) * n
    decreases n
  {
    if n > 0 {
      var w := RowWidth(cls);
      assert w * n == w + w * (n - 1) && w * (n - 1) >= 0;
      if pos + w <= |d| { RowsFit(AddRow(f, d, pos, cls), d, pos + w, n - 1, cls); }
    }
  }

  function Count(d: seq<int>, start: nat): int
    requires start + 8 <= |d|
  {
    UnBE(d[start..start + 8])
  }

  /** A record of a listing class is accepted if and only if its count accounts for every byte behind the header. */
  lemma ListingRecordExactly(d: seq<int>, cls: int, start: nat)
    requires IsBytes(d) && ListingClass(cls) && HeaderEnd(d, cls) == Some(start)
    ensures Decode(d, cls).Some? <==> start + 8 <= |d| && |d| == start + 8 + RowWidth(cls) * Count(d, start)
    ensures Decode(d, cls).Some? ==>
            Count(d, start) >= 0 && RowsOf(d, cls, start + 8, Count(d, start)) == Some(Decode(d, cls).value)
  {
    if start + 8 <= |d| {
      PackedAt(d, start, 8);
      RowsFit(NO_FACTS, d, start + 8, Count(d, start), cls);
    }
  }

  /** The facts of `n` rows. */
  function RowsOf(d: seq<int>, cls: int, base: nat, n: nat): Option<Facts> {
    match AddRows(NO_FACTS, d, base, n, cls) case None => None case Some((f, _)) => Some(f)
  }

  // Records of one shape.

  /** A summary is accepted if and only if it has its one length, and states no facts. */
  lemma SummaryExactly(d: seq<int>, start: nat)
    requires HeaderEnd(d, 1) == Some(start)
    ensures Decode(d, 1) == if |d| == start + SUMMARY_BYTES then Some(NO_FACTS) else None
  {
  }

  /** Where a fingerprint option at `pos` ends the record, and what it says. */
  ghost predicate FingerprintEnds(d: seq<int>, pos: nat, fingerprint: Option<Id>) {
    && pos + 4 <= |d|
    && match fingerprint
       case None => UnBE(d[pos..pos + 4]) != OPTION_SOME && |d| == pos + 4
       case Some(id) => UnBE(d[pos..pos + 4]) == OPTION_SOME && |d| == pos + 36 && id == Slice(d, pos + 4)
  }

  /** A subject record states the kind and the object of the subject, and its fingerprint if any. */
  lemma SubjectExactly(d: seq<int>, start: nat, f: Facts)
    requires HeaderEnd(d, 2) == Some(start)
    ensures Decode(d, 2) == Some(f) <==>
            && start + 40 <= |d| && FingerprintEnds(d, start + 36, f.fingerprint)
            && f == NO_FACTS.(subjectKind := Some(UnBE(d[start..start + 4])), obj := Some(Slice(d, start + 4)),
                             fingerprint := f.fingerprint)
  {
  }

  lemma FingerprintExactly(d: seq<int>, start: nat, f: Facts)
    requires HeaderEnd(d, 3) == Some(start)
    ensures Decode(d, 3) == Some(f) <==>
            FingerprintEnds(d, start, f.fingerprint) && f == NO_FACTS.(fingerprint := f.fingerprint)
  {
  }

  // Class 7: bindings. Each row is a binding, a root and two more identities.

  ghost predicate Bindings(f: Facts, d: seq<int>, base: nat, n: nat) {
    && f == NO_FACTS.(ids := f.ids, roots := f.roots) && |f.ids| == 3 * n && |f.roots| == n && base + 128 * n <= |d|
    && (forall i :: 0 <= i < n ==> f.roots[i] == Slice(d, base + 128 * i + 32))
    && (forall i :: 0 <= i < n ==>
         f.ids[3 * i] == Slice(d, base + 128 * i) && f.ids[3 * i + 1] == Slice(d, base + 128 * i + 64)
         && f.ids[3 * i + 2] == Slice(d, base + 128 * i + 96))
  }

  lemma {:induction false} BindingRows(f: Facts, d: seq<int>, base: nat, done: nat, n: nat)
    requires Bindings(f, d, base, done) && AddRows(f, d, base + 128 * done, n, 7).Some?
    ensures Bindings(AddRows(f, d, base + 128 * done, n, 7).value.0, d, base, done + n)
    decreases n
  {
    if n > 0 {
      BindingRow(f, d, base, done);
      BindingRows(AddRow(f, d, base + 128 * done, 7), d, base, done + 1, n - 1);
    }
  }

  lemma BindingRow(f: Facts, d: seq<int>, base: nat, n: nat)
    requires Bindings(f, d, base, n) && base + 128 * n + 128 <= |d|
    ensures Bindings(AddRow(f, d, base + 128 * n, 7), d, base, n + 1)
  {
    var g := AddRow(f, d, base + 128 * n, 7);
    forall i | 0 <= i < n + 1
      ensures g.ids[3 * i] == Slice(d, base + 128 * i) && g.ids[3 * i + 1] == Slice(d, base + 128 * i + 64)
              && g.ids[3 * i + 2] == Slice(d, base + 128 * i + 96)
    {
      if i < n {
        assert g.ids[3 * i] == f.ids[3 * i] && g.ids[3 * i + 1] == f.ids[3 * i + 1]
               && g.ids[3 * i + 2] == f.ids[3 * i + 2];
      }
    }
  }

  // Class 8: entities with their kinds.

  /** No later place repeats the key of place `i`. */
  ghost predicate LastNamed<K>(keys: seq<K>, i: nat)
    requires i < |keys|
  {
    forall j :: i < j < |keys| ==> keys[j] != keys[i]
  }

  /** A dictionary filled key by key: every key has the value of its last place. */
  ghost predicate LastWins<K(!new), V>(keys: seq<K>, values: seq<V>, m: map<K, V>) {
    && |keys| == |values|
    && (forall x :: x in m <==> x in keys)
    && (forall i :: 0 <= i < |keys| && LastNamed(keys, i) ==> m[keys[i]] == values[i])
  }

  lemma LastWinsGrows<K(!new), V>(keys: seq<K>, values: seq<V>, m: map<K, V>, x: K, v: V)
    requires LastWins(keys, values, m)
    ensures LastWins(keys + [x], values + [v], m[x := v])
  {
    var more := keys + [x];
    forall i | 0 <= i < |more| && LastNamed(more, i) ensures m[x := v][more[i]] == (values + [v])[i] {
      if i < |keys| {
        assert more[|keys|] == x;
        assert forall j :: 0 <= j < |keys| ==> more[j] == keys[j];
        assert LastNamed(keys, i);
      }
    }
  }

  function EntitiesAt(d: seq<int>, base: nat, n: nat): seq<Id>
    requires base + 36 * n <= |d|
  {
    seq(n, i requires 0 <= i < n => Slice(d, base + 36 * i))
  }

  function KindsAt(d: seq<int>, base: nat, n: nat): seq<int>
    requires base + 36 * n <= |d|
  {
    seq(n, i requires 0 <= i < n => UnBE(d[base + 36 * i + 32..base + 36 * i + 36]))
  }

  /** The entities in row order, and for each the kind its last row states. */
  ghost predicate Kinds(f: Facts, d: seq<int>, base: nat, n: nat) {
    && base + 36 * n <= |d| && f == NO_FACTS.(ids := EntitiesAt(d, base, n), kinds := f.kinds)
    && LastWins(EntitiesAt(d, base, n), KindsAt(d, base, n), f.kinds)
  }

  lemma EntitiesGrow(d: seq<int>, base: nat, n: nat)
    requires base + 36 * n + 36 <= |d|
    ensures EntitiesAt(d, base, n + 1) == EntitiesAt(d, base, n) + [Slice(d, base + 36 * n)]
    ensures KindsAt(d, base, n + 1) == KindsAt(d, base, n) + [UnBE(d[base + 36 * n + 32..base + 36 * n + 36])]
  {
  }

  lemma KindRow(f: Facts, d: seq<int>, base: nat, n: nat)
    requires Kinds(f, d, base, n) && base + 36 * n + 36 <= |d|
    ensures Kinds(AddRow(f, d, base + 36 * n, 8), d, base, n + 1)
  {
    EntitiesGrow(d, base, n);
    LastWinsGrows(EntitiesAt(d, base, n), KindsAt(d, base, n), f.kinds, Slice(d, base + 36 * n),
                  UnBE(d[base + 36 * n + 32..base + 36 * n + 36]));
  }

  lemma {:induction false} KindRows(f: Facts, d: seq<int>, base: nat, done: nat, n: nat)
    requires Kinds(f, d, base, done) && AddRows(f, d, base + 36 * done, n, 8).Some?
    ensures Kinds(AddRows(f, d, base + 36 * done, n, 8).value.0, d, base, done + n)
    decreases n
  {
    if n > 0 {
      KindRow(f, d, base, done);
      KindRows(AddRow(f, d, base + 36 * done, 8), d, base, done + 1, n - 1);
    }
  }

  // Classes 10, 12 and 13: pairs of identities; 12 and 13 make them edges.

  ghost predicate Pairs(f: Facts, d: seq<int>, base: nat, n: nat) {
    && |f.ids| == 2 * n && base + 68 * n <= |d|
    && forall i :: 0 <= i < n ==>
         f.ids[2 * i] == Slice(d, base + 68 * i) && f.ids[2 * i + 1] == Slice(d, base + 68 * i + 32)
  }

  ghost predicate Edges(f: Facts, d: seq<int>, base: nat, n: nat) {
    && |f.edges| == n && base + 68 * n <= |d|
    && forall i :: 0 <= i < n ==>
         f.edges[i] == Edge(Slice(d, base + 68 * i), Slice(d, base + 68 * i + 32),
           UnBE(d[base + 68 * i + 64..base + 68 * i + 68]))
  }

  ghost predicate PairsOnly(f: Facts, d: seq<int>, base: nat, n: nat) {
    f == NO_FACTS.(ids := f.ids) && Pairs(f, d, base, n)
  }

  ghost predicate EdgePairs(f: Facts, d: seq<int>, base: nat, n: nat) {
    f == NO_FACTS.(ids := f.ids, edges := f.edges) && Pairs(f, d, base, n) && Edges(f, d, base, n)
  }

  lemma {:induction false} PairRows(f: Facts, d: seq<int>, base: nat, done: nat, n: nat)
    requires PairsOnly(f, d, base, done) && AddRows(f, d, base + 68 * done, n, 10).Some?
    ensures PairsOnly(AddRows(f, d, base + 68 * done, n, 10).value.0, d, base, done + n)
    decreases n
  {
    if n > 0 { PairRows(AddRow(f, d, base + 68 * done, 10), d, base, done + 1, n - 1); }
  }

  lemma EdgeRow(f: Facts, d: seq<int>, base: nat, n: nat, cls: int)
    requires (cls == 12 || cls == 13) && EdgePairs(f, d, base, n) && base + 68 * n + 68 <= |d|
    ensures EdgePairs(AddRow(f, d, base + 68 * n, cls), d, base, n + 1)
  {
  }

  lemma {:induction false} EdgeRows(f: Facts, d: seq<int>, base: nat, done: nat, n: nat, cls: int)
    requires (cls == 12 || cls == 13) && EdgePairs(f, d, base, done) && AddRows(f, d, base + 68 * done, n, cls).Some?
    ensures EdgePairs(AddRows(f, d, base + 68 * done, n, cls).value.0, d, base, done + n)
    decreases n
  {
    if n > 0 {
      EdgeRow(f, d, base, done, cls);
      EdgeRows(AddRow(f, d, base + 68 * done, cls), d, base, done + 1, n - 1, cls);
    }
  }

  // Class 11: roots. Every other listing class: identities.

  ghost predicate Plain(s: seq<Id>, d: seq<int>, base: nat, n: nat) {
    |s| == n && base + 32 * n <= |d| && forall i :: 0 <= i < n ==> s[i] == Slice(d, base + 32 * i)
  }

  lemma {:induction false} RootRows(f: Facts, d: seq<int>, base: nat, done: nat, n: nat)
    requires f == NO_FACTS.(roots := f.roots) && Plain(f.roots, d, base, done)
             && AddRows(f, d, base + 32 * done, n, 11).Some?
    ensures var g := AddRows(f, d, base + 32 * done, n, 11).value.0;
            g == NO_FACTS.(roots := g.roots) && Plain(g.roots, d, base, done + n)
    decreases n
  {
    if n > 0 { RootRows(AddRow(f, d, base + 32 * done, 11), d, base, done + 1, n - 1); }
  }

  predicate PlainClass(cls: int) { ListingClass(cls) && cls !in {7, 8, 10, 11, 12, 13} }

  lemma {:induction false} PlainRows(f: Facts, d: seq<int>, base: nat, done: nat, n: nat, cls: int)
    requires PlainClass(cls)
    requires f == NO_FACTS.(ids := f.ids) && Plain(f.ids, d, base, done)
             && AddRows(f, d, base + 32 * done, n, cls).Some?
    ensures var g := AddRows(f, d, base + 32 * done, n, cls).value.0;
            g == NO_FACTS.(ids := g.ids) && Plain(g.ids, d, base, done + n)
    decreases n
  {
    if n > 0 { PlainRows(AddRow(f, d, base + 32 * done, cls), d, base, done + 1, n - 1, cls); }
  }

  // All listing classes.

  /** The facts `n` rows at `base` state, in order, for each class. */
  ghost predicate Stands(f: Facts, d: seq<int>, base: nat, n: nat, cls: int) {
    if cls == 7 then Bindings(f, d, base, n)
    else if cls == 8 then Kinds(f, d, base, n)
    else if cls == 10 then PairsOnly(f, d, base, n)
    else if cls == 11 then f == NO_FACTS.(roots := f.roots) && Plain(f.roots, d, base, n)
    else if cls == 12 || cls == 13 then EdgePairs(f, d, base, n)
    else f == NO_FACTS.(ids := f.ids) && Plain(f.ids, d, base, n)
  }

  lemma RowsStand(d: seq<int>, base: nat, n: nat, cls: int)
    requires ListingClass(cls) && base <= |d| && RowsOf(d, cls, base, n).Some?
    ensures Stands(RowsOf(d, cls, base, n).value, d, base, n, cls)
  {
    if cls == 7 {
      BindingRows(NO_FACTS, d, base, 0, n);
    } else if cls == 8 {
      assert LastWins(EntitiesAt(d, base, 0), KindsAt(d, base, 0), NO_FACTS.kinds);
      KindRows(NO_FACTS, d, base, 0, n);
    } else {
      OtherRowsStand(d, base, n, cls);
    }
  }

  lemma OtherRowsStand(d: seq<int>, base: nat, n: nat, cls: int)
    requires ListingClass(cls) && cls != 7 && cls != 8 && base <= |d| && RowsOf(d, cls, base, n).Some?
    ensures Stands(RowsOf(d, cls, base, n).value, d, base, n, cls)
  {
    if cls == 10 {
      PairRows(NO_FACTS, d, base, 0, n);
    } else if cls == 11 {
      RootRows(NO_FACTS, d, base, 0, n);
    } else if cls == 12 || cls == 13 {
      EdgeRows(NO_FACTS, d, base, 0, n, cls);
    } else {
      PlainRows(NO_FACTS, d, base, 0, n, cls);
    }
  }

  /** No more roots and edges than bytes. */
  lemma DecodedCounts(d: seq<int>, cls: int)
    requires IsBytes(d) && Decode(d, cls).Some?
    ensures |Decode(d, cls).value.roots| <= |d| && |Decode(d, cls).value.edges| <= |d|
  {
    var start := HeaderEnd(d, cls).value;
    if ListingClass(cls) { ListedFacts(d, cls, start); }
  }

  /** What an accepted record of a listing class states: row by row, in order, and nothing else. */
  lemma ListedFacts(d: seq<int>, cls: int, start: nat)
    requires IsBytes(d) && ListingClass(cls) && HeaderEnd(d, cls) == Some(start) && Decode(d, cls).Some?
    ensures start + 8 <= |d| && Count(d, start) >= 0
    ensures Stands(Decode(d, cls).value, d, start + 8, Count(d, start), cls)
  {
    ListingRecordExactly(d, cls, start);
    RowsStand(d, start + 8, Count(d, start), cls);
  }
}
