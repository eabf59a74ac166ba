/** `std::map<std::string, V>`: a map iterated in ascending order of its keys. */
module OrderedMap {
  datatype Entry<+V> = Entry(key: string, value: V)

  /** `std::string`'s `operator<`: lexicographic order of unsigned bytes. */
  predicate Less(a: string, b: string) {
    if b == "" then false
    else if a == "" then true
    else a[0] < b[0] || (a[0] == b[0] && Less(a[1..], b[1..]))
  }

  /** The first difference is at `i`, and `a` has the smaller byte there. */
  predicate SmallerAt(a: string, b: string, i: nat) {
    i < |a| && i < |b| && a[..i] == b[..i] && a[i] < b[i]
  }

  /** `a` is a proper prefix of `b`, or has the smaller byte where they first differ. */
  ghost predicate Precedes(a: string, b: string) {
    a < b || exists i: nat :: SmallerAt(a, b, i)
  }

  lemma PrecedesTail(a: string, b: string)
    requires a != "" && b != "" && a[0] == b[0]
    ensures Precedes(a, b) <==> Precedes(a[1..], b[1..])
  {
    assert a == [a[0]] + a[1..] && b == [b[0]] + b[1..];
    assert a < b <==> a[1..] < b[1..];
    forall i: nat | SmallerAt(a, b, i) ensures i > 0 && SmallerAt(a[1..], b[1..], i - 1) {
      assert a[1..][..i - 1] == a[..i][1..] && b[1..][..i - 1] == b[..i][1..];
    }
    forall i: nat | SmallerAt(a[1..], b[1..], i) ensures SmallerAt(a, b, i + 1) {
      assert a[..i + 1] == [a[0]] + a[1..][..i] && b[..i + 1] == [b[0]] + b[1..][..i];
    }
    hide SmallerAt;
  }

  /** The order of keys is the lexicographic order of bytes. */
  lemma {:induction false} LessIsLexicographic(a: string, b: string)
    ensures Less(a, b) <==> Precedes(a, b)
    decreases |a|
  {
    if a == "" || b == "" || a[0] != b[0] {
      assert a != "" && b != "" && a[0] < b[0] ==> SmallerAt(a, b, 0);
    } else {
      PrecedesTail(a, b);
      LessIsLexicographic(a[1..], b[1..]);
    }
  }

  lemma {:induction false} LessTotal(a: string, b: string)
    ensures a == b || Less(a, b) || Less(b, a)
  {
    if a == "" || b == "" || a[0] != b[0] {
    } else {
      LessTotal(a[1..], b[1..]);
      assert a == [a[0]] + a[1..] && b == [b[0]] + b[1..];
    }
  }

  lemma {:induction false} LessTransitive(a: string, b: string, c: string)
    requires Less(a, b) && Less(b, c)
    ensures Less(a, c)
  {
    if a == "" || a[0] != b[0] || b[0] != c[0] {
    } else {
      LessTransitive(a[1..], b[1..], c[1..]);
    }
  }

  lemma {:induction false} LessIrreflexive(a: string)
    ensures !Less(a, a)
  {
    if a == "" {
    } else {
      LessIrreflexive(a[1..]);
    }
  }

  lemma LessAsymmetric(a: string, b: string)
    requires Less(a, b)
    ensures !Less(b, a) && a != b
  {
    LessIrreflexive(a);
    if Less(b, a) {
      LessTransitive(a, b, a);
    }
  }

  /** Every key of `es` is greater than `k`. */
  predicate Above<V>(k: string, es: seq<Entry<V>>) {
    forall i :: 0 <= i < |es| ==> Less(k, es[i].key)
  }

  predicate Ascending<V>(es: seq<Entry<V>>) {
    es == [] || (Above(es[0].key, es[1..]) && Ascending(es[1..]))
  }

  /** The key/value function the entries stand for. */
  function ToMap<V>(es: seq<Entry<V>>): (m: map<string, V>)
    ensures es == [] <==> m == map[]
  {
    if es == [] then map[]
    else
      var m := ToMap(es[1..])[es[0].key := es[0].value];
      assert es[0].key in m;
      m
  }

  /** `m[k] = v`. */
  function Put<V>(es: seq<Entry<V>>, k: string, v: V): seq<Entry<V>> {
    if es == [] || Less(k, es[0].key) then [Entry(k, v)] + es
    else if es[0].key == k then [Entry(k, v)] + es[1..]
    else [es[0]] + Put(es[1..], k, v)
  }

  /** Whether `k` is a key. */
  predicate Has<V>(es: seq<Entry<V>>, k: string) {
    exists i :: 0 <= i < |es| && es[i].key == k
  }

  lemma {:induction false} ToMapHas<V>(es: seq<Entry<V>>, k: string)
    ensures k in ToMap(es) <==> Has(es, k)
  {
    if es == [] {
    } else {
      ToMapHas(es[1..], k);
      assert forall i :: 1 <= i < |es| ==> es[i] == es[1..][i - 1];
      assert forall i :: 0 <= i < |es[1..]| ==> es[1..][i] == es[i + 1];
    }
  }

  lemma PutAbove<V>(es: seq<Entry<V>>, k: string, v: V, low: string)
    requires Above(low, es) && Less(low, k)
    ensures Above(low, Put(es, k, v))
  {
    if es == [] || Less(k, es[0].key) || es[0].key == k {
    } else {
      assert forall i :: 1 <= i < |es| ==> es[i] == es[1..][i - 1];
      PutAbove(es[1..], k, v, low);
    }
  }

  lemma {:induction false} PutAscending<V>(es: seq<Entry<V>>, k: string, v: V)
    requires Ascending(es)
    ensures Ascending(Put(es, k, v))
  {
    var r := Put(es, k, v);
    if es == [] {
      assert r[1..] == es;
    } else if Less(k, es[0].key) {
      assert r[1..] == es;
      forall i | 0 <= i < |es| ensures Less(k, es[i].key) {
        if i > 0 {
          assert es[i] == es[1..][i - 1];
          LessTransitive(k, es[0].key, es[i].key);
        }
      }
    } else if es[0].key == k {
      assert r[1..] == es[1..];
    } else {
      LessTotal(k, es[0].key);
      PutAscending(es[1..], k, v);
      PutAbove(es[1..], k, v, es[0].key);
      assert r[1..] == Put(es[1..], k, v);
    }
  }

  /** Assignment does to the map what it should. */
  lemma {:induction false} PutIsUpdate<V>(es: seq<Entry<V>>, k: string, v: V)
    ensures ToMap(Put(es, k, v)) == ToMap(es)[k := v]
  {
    var r := Put(es, k, v);
    if es == [] || Less(k, es[0].key) {
      assert r[1..] == es;
    } else if es[0].key == k {
      assert r[1..] == es[1..];
    } else {
      PutIsUpdate(es[1..], k, v);
      assert r[1..] == Put(es[1..], k, v);
    }
  }

  lemma UnionPut<V>(h: map<string, V>, m: map<string, V>, k: string, v: V)
    requires k !in m
    ensures h[k := v] + m == h + m[k := v]
  {
  }

  /** An entry greater than all others goes to the end. */
  lemma {:induction false} PutLast<V>(es: seq<Entry<V>>, k: string, v: V)
    requires forall i :: 0 <= i < |es| ==> Less(es[i].key, k)
    ensures Put(es, k, v) == es + [Entry(k, v)]
  {
    if es == [] {
    } else {
      LessAsymmetric(es[0].key, k);
      PutLast(es[1..], k, v);
    }
  }

  /** In an ascending sequence, each key is below all later ones. */
  lemma {:induction false} AscendingPair<V>(es: seq<Entry<V>>, i: nat, j: nat)
    requires Ascending(es) && i < j < |es|
    ensures Less(es[i].key, es[j].key)
  {
    if i == 0 {
      assert es[j] == es[1..][j - 1];
    } else {
      AscendingPair(es[1..], i - 1, j - 1);
    }
  }

  /** Keys in lexicographic order. */
  ghost predicate Sorted<V>(es: seq<Entry<V>>) {
    forall i, j :: 0 <= i < j < |es| ==> Precedes(es[i].key, es[j].key)
  }

  lemma {:induction false} SortedIsAscending<V>(es: seq<Entry<V>>)
    requires Sorted(es)
    ensures Ascending(es)
  {
    hide Precedes, Less;
    if es == [] {
    } else {
      assert forall i :: 0 <= i < |es[1..]| ==> es[1..][i] == es[i + 1];
      SortedIsAscending(es[1..]);
      forall i | 0 <= i < |es[1..]| ensures Less(es[0].key, es[1..][i].key) {
        LessIsLexicographic(es[0].key, es[i + 1].key);
      }
    }
  }

  /** Iteration goes through the keys in lexicographic order. */
  lemma AscendingIsSorted<V>(es: seq<Entry<V>>)
    ensures Ascending(es) <==> Sorted(es)
  {
    hide Precedes, Less;
    if Ascending(es) {
      forall i, j | 0 <= i < j < |es| ensures Precedes(es[i].key, es[j].key) {
        AscendingPair(es, i, j);
        LessIsLexicographic(es[i].key, es[j].key);
      }
    }
    if Sorted(es) {
      SortedIsAscending(es);
    }
  }

  lemma AscendingHead<V>(es: seq<Entry<V>>)
    requires Ascending(es) && es != []
    ensures es[0].key !in ToMap(es[1..])
    ensures ToMap(es) - {es[0].key} == ToMap(es[1..])
  {
    ToMapHas(es[1..], es[0].key);
    LessIrreflexive(es[0].key);
  }

  /** The first key of a map is the least key of any sequence standing for it. */
  lemma AscendingLeast<V>(a: seq<Entry<V>>, b: seq<Entry<V>>)
    requires Ascending(a) && a != [] && b != [] && ToMap(a) == ToMap(b)
    ensures a[0].key == b[0].key || Less(a[0].key, b[0].key)
  {
    ToMapHas(b, b[0].key);
    ToMapHas(a, b[0].key);
    var j :| 0 <= j < |a| && a[j].key == b[0].key;
    if j > 0 {
      AscendingPair(a, 0, j);
    }
  }

  /** The representation is canonical: equal maps have equal ascending sequences. */
  lemma {:induction false} AscendingUnique<V>(a: seq<Entry<V>>, b: seq<Entry<V>>)
    requires Ascending(a) && Ascending(b) && ToMap(a) == ToMap(b)
    ensures a == b
  {
    if a == [] {
    } else {
      AscendingLeast(a, b);
      AscendingLeast(b, a);
      if a[0].key != b[0].key {
        LessAsymmetric(a[0].key, b[0].key);
        assert false;
      }
      AscendingHead(a);
      AscendingHead(b);
      AscendingUnique(a[1..], b[1..]);
      assert ToMap(a)[a[0].key] == a[0].value && ToMap(b)[b[0].key] == b[0].value;
      assert a == [a[0]] + a[1..] && b == [b[0]] + b[1..];
    }
  }

  /** The ascending entries of a map, whatever order its keys are visited in. */
  ghost function FromMap<V>(m: map<string, V>): (es: seq<Entry<V>>)
    ensures Ascending(es) && ToMap(es) == m
    decreases |m|
  {
    if m == map[] then []
    else
      var k :| k in m;
      var rest := m - {k};
      assert |rest| < |m| by {
        assert rest.Keys == m.Keys - {k};
        assert |rest.Keys| < |m.Keys|;
      }
      var es := FromMap(rest);
      PutIsUpdate(es, k, m[k]);
      PutAscending(es, k, m[k]);
      assert rest[k := m[k]] == m;
      Put(es, k, m[k])
  }

  /** Every entry of an ascending sequence is in its map. */
  lemma {:induction false} EntryInMap<V>(es: seq<Entry<V>>, i: nat)
    requires Ascending(es) && i < |es|
    ensures es[i].key in ToMap(es) && ToMap(es)[es[i].key] == es[i].value
  {
    if i == 0 {
    } else {
      EntryInMap(es[1..], i - 1);
      AscendingPair(es, 0, i);
      LessAsymmetric(es[0].key, es[i].key);
    }
  }

  /** The value of each key, found among the entries. */
  lemma {:induction false} MapInEntries<V>(es: seq<Entry<V>>, k: string) returns (i: nat)
    requires k in ToMap(es)
    ensures i < |es| && es[i] == Entry(k, ToMap(es)[k])
  {
    if es[0].key == k {
      i := 0;
    } else {
      i := MapInEntries(es[1..], k);
      i := i + 1;
    }
  }

  predicate IsFirst<V>(m: map<string, V>, k: string) {
    k in m && forall j :: j in m ==> j == k || Less(k, j)
  }

  /** `begin()`: iteration visits the least key not visited yet. */
  method FirstKey<V>(m: map<string, V>) returns (k: string)
    requires m != map[]
    ensures IsFirst(m, k)
  {
    k :| k in m;
    var rest := m.Keys - {k};
    while rest != {}
      invariant rest <= m.Keys && k in m
      invariant forall j :: j in m && j !in rest ==> j == k || Less(k, j)
      decreases |rest|
    {
      var j :| j in rest;
      rest := rest - {j};
      LessTotal(j, k);
      if Less(j, k) {
        forall i | i in m && Less(k, i) ensures Less(j, i) {
          LessTransitive(j, k, i);
        }
        k := j;
      }
    }
  }

  lemma FirstEntry<V>(m: map<string, V>, k: string)
    requires IsFirst(m, k)
    ensures FromMap(m) == [Entry(k, m[k])] + FromMap(m - {k})
  {
    var rest := FromMap(m - {k});
    var es := [Entry(k, m[k])] + rest;
    forall i | 0 <= i < |rest| ensures Less(k, rest[i].key) {
      EntryInMap(rest, i);
    }
    assert es[1..] == rest;
    assert (m - {k})[k := m[k]] == m;
    AscendingUnique(es, FromMap(m));
  }
}
