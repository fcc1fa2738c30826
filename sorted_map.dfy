/** A `BTreeMap<String, V>` as the sequence of its entries in iteration
    order: keys unique and strictly ascending. */
module SortedMap {
  import opened Basics

  type Entries<V> = seq<(Text, V)>

  /** The container invariant: every key is below every later key. */
  predicate StrictlySorted<V>(es: Entries<V>)
  {
    forall i, j :: 0 <= i < j < |es| ==> Less(es[i].0, es[j].0)
  }

  /** Every key of `es` lies above `lo`. */
  predicate AllAbove<V>(lo: Text, es: Entries<V>)
  {
    forall i :: 0 <= i < |es| ==> Less(lo, es[i].0)
  }

  /** The abstract mapping the entries denote (the first entry of a key wins,
      which for sorted entries is the only one). */
  function ToMap<V>(es: Entries<V>): (m: map<Text, V>)
    ensures forall i :: 0 <= i < |es| ==> es[i].0 in m
    ensures forall k :: k in m ==> exists i :: 0 <= i < |es| && es[i].0 == k
  {
    if |es| == 0 then map[] else ToMap(es[1..])[es[0].0 := es[0].1]
  }

  /** `BTreeMap::keys`: the keys in iteration order. */
  function Keys<V>(es: Entries<V>): (ks: seq<Text>)
    ensures |ks| == |es|
    ensures forall i :: 0 <= i < |ks| ==> ks[i] in ToMap(es)
    ensures forall k :: k in ToMap(es) ==> k in ks
    ensures StrictlySorted(es) ==> forall i, j :: 0 <= i < j < |ks| ==> Less(ks[i], ks[j])
  {
    var ks := seq(|es|, i requires 0 <= i < |es| => es[i].0);
    assert forall k :: k in ToMap(es) ==> k in ks by {
      forall k | k in ToMap(es) ensures k in ks {
        var i :| 0 <= i < |es| && es[i].0 == k;
        assert ks[i] == k;
      }
    }
    ks
  }

  /** `BTreeMap::get`. */
  function Get<V>(es: Entries<V>, k: Text): (r: Option<V>)
    ensures r == if k in ToMap(es) then Some(ToMap(es)[k]) else None
  {
    if |es| == 0 then None
    else if es[0].0 == k then Some(es[0].1)
    else Get(es[1..], k)
  }

  /** `BTreeMap::insert`: overwrite the value of an existing key, otherwise
      add the key at its place in the order. */
  function Insert<V>(es: Entries<V>, k: Text, v: V): Entries<V>
  {
    if |es| == 0 then [(k, v)]
    else if es[0].0 == k then [(k, v)] + es[1..]
    else if Less(k, es[0].0) then [(k, v)] + es
    else [es[0]] + Insert(es[1..], k, v)
  }

  /** A key below the first key of sorted entries is not among them. */
  lemma BelowFirstIsAbsent<V>(es: Entries<V>, k: Text)
    requires StrictlySorted(es) && |es| > 0 && Less(k, es[0].0)
    ensures k !in ToMap(es)
  {
    if k in ToMap(es) {
      var i :| 0 <= i < |es| && es[i].0 == k;
      if i > 0 {
        LessTransitive(k, es[0].0, es[i].0);
      }
      LessIrreflexive(k);
    }
  }

  lemma {:induction false} InsertKeepsAbove<V>(lo: Text, es: Entries<V>, k: Text, v: V)
    requires AllAbove(lo, es) && Less(lo, k)
    ensures AllAbove(lo, Insert(es, k, v))
  {
    if |es| > 0 && es[0].0 != k && !Less(k, es[0].0) {
      InsertKeepsAbove(lo, es[1..], k, v);
    }
  }

  /** Inserting keeps the keys unique and ascending. */
  lemma {:induction false} InsertSorted<V>(es: Entries<V>, k: Text, v: V)
    requires StrictlySorted(es)
    ensures StrictlySorted(Insert(es, k, v))
  {
    var r := Insert(es, k, v);
    if |es| == 0 {
    } else if es[0].0 == k {
    } else if Less(k, es[0].0) {
      forall j | 0 < j < |r|
        ensures Less(k, r[j].0)
      {
        if j > 1 {
          LessTransitive(k, es[0].0, es[j - 1].0);
        }
      }
    } else {
      InsertSorted(es[1..], k, v);
      LessTotal(k, es[0].0);
      InsertKeepsAbove(es[0].0, es[1..], k, v);
    }
  }

  /** Inserting changes the denoted map at `k` alone. */
  lemma {:induction false} InsertUpdates<V>(es: Entries<V>, k: Text, v: V)
    ensures ToMap(Insert(es, k, v)) == ToMap(es)[k := v]
  {
    var r := Insert(es, k, v);
    if |es| == 0 {
    } else if es[0].0 == k {
      assert r[1..] == es[1..];
    } else if Less(k, es[0].0) {
      assert r[1..] == es;
    } else {
      assert r[1..] == Insert(es[1..], k, v);
      InsertUpdates(es[1..], k, v);
    }
  }

  /** Inserting adds an entry exactly when the key is new: overwriting an
      existing key leaves the count unchanged. */
  lemma {:induction false} InsertCount<V>(es: Entries<V>, k: Text, v: V)
    requires StrictlySorted(es)
    ensures |Insert(es, k, v)| == if k in ToMap(es) then |es| else |es| + 1
  {
    if |es| == 0 {
    } else if es[0].0 == k {
    } else if Less(k, es[0].0) {
      BelowFirstIsAbsent(es, k);
    } else {
      InsertCount(es[1..], k, v);
      assert k in ToMap(es) <==> k in ToMap(es[1..]);
    }
  }

  /** The first key of sorted entries is the least of their keys. */
  lemma FirstIsLeast<V>(es: Entries<V>, k: Text)
    requires StrictlySorted(es) && k in ToMap(es) && |es| > 0 && k != es[0].0
    ensures Less(es[0].0, k)
  {
  }

  /** The first key of sorted entries does not occur again after it. */
  lemma FirstKeyNotInTail<V>(es: Entries<V>)
    requires StrictlySorted(es) && |es| > 0
    ensures es[0].0 !in ToMap(es[1..])
  {
    var k := es[0].0;
    if k in ToMap(es[1..]) {
      var i :| 0 <= i < |es[1..]| && es[1..][i].0 == k;
      assert Less(k, es[i + 1].0);
      LessIrreflexive(k);
    }
  }

  /** For sorted entries, the entry count is the number of distinct keys:
      what `BTreeMap::len` reports. */
  lemma {:induction false} LenCountsKeys<V>(es: Entries<V>)
    requires StrictlySorted(es)
    ensures |ToMap(es).Keys| == |es|
  {
    if |es| > 0 {
      FirstKeyNotInTail(es);
      LenCountsKeys(es[1..]);
    }
  }

  lemma RemoveFresh<V>(m: map<Text, V>, k: Text, v: V)
    requires k !in m
    ensures m[k := v] - {k} == m
  {
  }

  /** Dropping the first entry of sorted entries removes exactly its key. */
  lemma TailMap<V>(es: Entries<V>)
    requires StrictlySorted(es) && |es| > 0
    ensures ToMap(es[1..]) == ToMap(es) - {es[0].0}
  {
    FirstKeyNotInTail(es);
    RemoveFresh(ToMap(es[1..]), es[0].0, es[0].1);
  }

  /** Sorted entries for the same mapping start with the same entry: the
      least key and its value. */
  lemma SameFirst<V>(a: Entries<V>, b: Entries<V>)
    requires StrictlySorted(a) && StrictlySorted(b)
    requires ToMap(a) == ToMap(b) && |a| > 0
    ensures |b| > 0 && a[0] == b[0]
  {
    assert a[0].0 in ToMap(b);
    assert b[0].0 in ToMap(a);
    if a[0].0 != b[0].0 {
      FirstIsLeast(a, b[0].0);
      FirstIsLeast(b, a[0].0);
      LessAsymmetric(a[0].0, b[0].0);
    }
  }

  /** Sorted entries are the canonical form of the map they denote: two
      sorted entry sequences holding the same mapping are equal, however
      the maps were built. */
  lemma {:induction false} Canonical<V>(a: Entries<V>, b: Entries<V>)
    requires StrictlySorted(a) && StrictlySorted(b)
    requires ToMap(a) == ToMap(b)
    ensures a == b
    decreases |a|
  {
    if |a| == 0 {
      if |b| > 0 {
        SameFirst(b, a);
      }
    } else {
      SameFirst(a, b);
      TailMap(a);
      TailMap(b);
      Canonical(a[1..], b[1..]);
      assert a == [a[0]] + a[1..] && b == [b[0]] + b[1..];
    }
  }
}
