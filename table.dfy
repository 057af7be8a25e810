/**
 * The hash table of nothashy.h: `TABLE_SIZE` buckets, each the head of a
 * chain of entries, and the C API `hash_table_create`, `hash_table_insert`,
 * `hash_table_get`, `hash_table_remove` and `hash_table_destroy`.
 *
 * The table's meaning is a finite map from keys to non-NULL values. The pure
 * predicate `TableInv` ties a snapshot of the buckets to that map; the
 * lemmas below prove that every update of the buckets keeps it.
 */
module NotHashy {

  import opened Wrappers
  import opened Hashing
  import opened Chain

  /**
   * The table's abstraction: the lookup in the key-to-value map that the
   * buckets stand for, with NULL for a missing key.
   */
  function MapGet<V>(m: map<Key, V>, k: Key): Option<V> {
    if k in m then Some(m[k]) else None
  }

  /** Every entry lies in the bucket its key hashes to. */
  ghost predicate WellHashed<V>(t: seq<seq<Entry<V>>>) {
    forall i, j :: 0 <= i < |t| && 0 <= j < |t[i]| ==> Hash(t[i][j].key) == i
  }

  /** No chain holds the same key twice. */
  ghost predicate ChainsDistinct<V>(t: seq<seq<Entry<V>>>) {
    forall i :: 0 <= i < |t| ==> DistinctKeys(t[i])
  }

  /** No stored value is NULL. */
  ghost predicate NoNullValues<V>(t: seq<seq<Entry<V>>>) {
    forall i, j :: 0 <= i < |t| && 0 <= j < |t[i]| ==> t[i][j].value.Some?
  }

  /** The buckets `t` hold exactly the associations of `m`. */
  ghost predicate Represents<V>(t: seq<seq<Entry<V>>>, m: map<Key, V>)
    requires |t| == TABLE_SIZE
  {
    && (forall i, j :: 0 <= i < |t| && 0 <= j < |t[i]| ==>
          t[i][j].key in m && t[i][j].value == Some(m[t[i][j].key]))
    && (forall k {:trigger Find(t[Hash(k)], k)} :: k in m ==> Find(t[Hash(k)], k) == Some(m[k]))
  }

  /** The table invariant: the bucket layout is well formed and abstracts to `m`. */
  ghost predicate TableInv<V>(t: seq<seq<Entry<V>>>, m: map<Key, V>) {
    && |t| == TABLE_SIZE
    && WellHashed(t)
    && ChainsDistinct(t)
    && NoNullValues(t)
    && Represents(t, m)
  }

  /** The freshly allocated table: every bucket empty, the map empty. */
  lemma EmptyTableInv<V>(t: seq<seq<Entry<V>>>)
    requires |t| == TABLE_SIZE
    requires forall i :: 0 <= i < |t| ==> t[i] == []
    ensures TableInv(t, map[])
  {
  }

  /** Scanning bucket `Hash(k)` answers exactly the map lookup, in both directions. */
  lemma LookupAgrees<V>(t: seq<seq<Entry<V>>>, m: map<Key, V>, k: Key)
    requires TableInv(t, m)
    ensures Find(t[Hash(k)], k) == MapGet(m, k)
  {
    if k !in m {
      FindAbsent(t[Hash(k)], k);
    }
  }

  /** Keys are pairwise distinct across the whole table, not only within one chain. */
  lemma KeysUniqueAcrossTable<V>(t: seq<seq<Entry<V>>>, m: map<Key, V>, i1: nat, j1: nat, i2: nat, j2: nat)
    requires TableInv(t, m)
    requires i1 < |t| && j1 < |t[i1]| && i2 < |t| && j2 < |t[i2]|
    requires (i1, j1) != (i2, j2)
    ensures t[i1][j1].key != t[i2][j2].key
  {
  }

  /** Pushing a new entry for an absent key at the head of its bucket adds that key to the map. */
  lemma InsertPreservesInv<V>(t: seq<seq<Entry<V>>>, m: map<Key, V>, k: Key, v: V)
    requires TableInv(t, m)
    requires k !in m
    ensures TableInv(t[Hash(k) := [Entry(k, Some(v))] + t[Hash(k)]], m[k := v])
  {
    var h := Hash(k);
    var t' := t[h := [Entry(k, Some(v))] + t[h]];
    var m' := m[k := v];
    assert t'[h][1..] == t[h];
    forall k' | k' in m'
      ensures Find(t'[Hash(k')], k') == Some(m'[k'])
    {
      if k' != k {
        assert Find(t[Hash(k')], k') == Some(m[k']);
      }
    }
  }

  /** Unlinking the entry that holds `k` removes `k` from the map and nothing else. */
  lemma RemoveAtPreservesInv<V>(t: seq<seq<Entry<V>>>, m: map<Key, V>, k: Key, i: nat)
    requires TableInv(t, m)
    requires i < |t[Hash(k)]| && t[Hash(k)][i].key == k
    ensures TableInv(t[Hash(k) := Cut(t[Hash(k)], i)], m - {k})
  {
    var h := Hash(k);
    var c := t[h];
    var t': seq<seq<Entry<V>>> := t[h := Cut(c, i)];
    CutDistinct(c, i);
    assert WellHashed(t') && NoNullValues(t') && ChainsDistinct(t') by {
      forall b: int, j: int | 0 <= b < |t'| && 0 <= j < |t'[b]|
        ensures Hash(t'[b][j].key) == b && t'[b][j].value.Some?
      {
        if b == h {
          CutAt(c, i, j);
        }
      }
    }
    RemoveAtRepresents(t, m, k, i);
  }

  /** The map half of `RemoveAtPreservesInv`. */
  lemma RemoveAtRepresents<V>(t: seq<seq<Entry<V>>>, m: map<Key, V>, k: Key, i: nat)
    requires TableInv(t, m)
    requires i < |t[Hash(k)]| && t[Hash(k)][i].key == k
    ensures Represents(t[Hash(k) := Cut(t[Hash(k)], i)], m - {k})
  {
    var h := Hash(k);
    var c := t[h];
    var t': seq<seq<Entry<V>>> := t[h := Cut(c, i)];
    var m' := m - {k};
    CutDistinct(c, i);
    forall b: int, j: int | 0 <= b < |t'| && 0 <= j < |t'[b]|
      ensures t'[b][j].key in m' && t'[b][j].value == Some(m'[t'[b][j].key])
    {
      if b == h {
        CutAt(c, i, j);
      }
    }
    assert ScanStopsAt(c, k, i) by {
      forall j | 0 <= j < i
        ensures c[j].key != k
      {
        assert DistinctKeys(c);
      }
    }
    UnlinkAtScanStop(c, k, i);
    forall k' | k' in m'
      ensures Find(t'[Hash(k')], k') == Some(m'[k'])
    {
      assert Find(t[Hash(k')], k') == Some(m[k']);
      if Hash(k') == h {
        FindAfterUnlink(c, k, k');
      }
    }
  }

  /** A table whose buckets are all empty represents the empty map. */
  lemma DrainedIsEmpty<V>(t: seq<seq<Entry<V>>>, m: map<Key, V>)
    requires TableInv(t, m)
    requires forall i :: 0 <= i < |t| ==> t[i] == []
    ensures m == map[]
  {
    forall k
      ensures k !in m
    {
      assert Find(t[Hash(k)], k) == None;
    }
    assert m.Keys == {};
  }

  /** `hash_table_t`: the bucket array and, as a ghost, the map it stands for. */
  class HashTable<V> {
    const entries: array<seq<Entry<V>>>
    ghost var Contents: map<Key, V>

    ghost predicate Valid()
      reads this, entries
    {
      TableInv(entries[..], Contents)
    }

    /** `hash_table_create`: `TABLE_SIZE` buckets, all empty. */
    constructor Create()
      ensures Valid() && fresh(entries)
      ensures entries.Length == TABLE_SIZE
      ensures forall i :: 0 <= i < entries.Length ==> entries[i] == []
      ensures Contents == map[]
    {
      entries := new seq<Entry<V>>[TABLE_SIZE](_ => []);
      Contents := map[];
      new;
      EmptyTableInv(entries[..]);
    }
  }

  /**
   * `hash_table_get`: NULL for a NULL table or key; otherwise the value the
   * table maps the key to, or NULL if it holds none.
   */
  method Get<V>(ht: HashTable?<V>, key: Option<Key>) returns (r: Option<V>)
    requires ht != null ==> ht.Valid()
    ensures r == if ht == null || key.None? then None else MapGet(ht.Contents, key.value)
    ensures ht != null && key.Some? ==> r == Find(ht.entries[Hash(key.value)], key.value)
  {
    if ht == null || key.None? {
      return None;
    }
    var k := key.value;
    var index := HtIndex(k);
    var chain := ht.entries[index];
    var tmp := 0;
    while tmp < |chain| && chain[tmp].key != k
      invariant 0 <= tmp <= |chain|
      invariant forall j :: 0 <= j < tmp ==> chain[j].key != k
    {
      tmp := tmp + 1;
    }
    FindAtScanStop(chain, k, tmp);
    LookupAgrees(ht.entries[..], ht.Contents, k);
    if tmp == |chain| {
      return None;
    }
    return chain[tmp].value;
  }

  /**
   * `hash_table_insert`: 1 when the table, key and value are non-NULL and the
   * key is new, in which case the entry is pushed at the head of its bucket;
   * 0 otherwise, with the table unchanged.
   */
  method Insert<V>(ht: HashTable?<V>, key: Option<Key>, value: Option<V>) returns (r: int)
    requires ht != null ==> ht.Valid()
    modifies if ht == null then {} else {ht, ht.entries}
    ensures ht != null ==> ht.Valid()
    ensures r == if ht != null && key.Some? && value.Some? && key.value !in old(ht.Contents) then 1 else 0
    ensures r == 0 && ht != null ==>
      ht.Contents == old(ht.Contents) && ht.entries[..] == old(ht.entries[..])
    ensures r == 1 ==>
      && ht != null && key.Some? && value.Some?
      && ht.Contents == old(ht.Contents)[key.value := value.value]
      && MapGet(ht.Contents, key.value) == value
      && ht.entries[Hash(key.value)] == [Entry(key.value, value)] + old(ht.entries[Hash(key.value)])
      && forall i :: 0 <= i < ht.entries.Length && i != Hash(key.value) ==> ht.entries[i] == old(ht.entries[i])
  {
    if ht == null || key.None? || value.None? {
      return 0;
    }
    var k := key.value;
    var index := HtIndex(k);
    var found := Get(ht, key);
    if found.Some? {
      return 0;
    }
    InsertPreservesInv(ht.entries[..], ht.Contents, k, value.value);
    ht.entries[index] := [Entry(k, value)] + ht.entries[index];
    ht.Contents := ht.Contents[k := value.value];
    return 1;
  }

  /**
   * `hash_table_remove`: NULL for a NULL table or key. Otherwise the value the
   * key was mapped to (NULL if absent); its entry is unlinked from the bucket,
   * through the head or through the predecessor, and nothing else changes.
   */
  method Remove<V>(ht: HashTable?<V>, key: Option<Key>) returns (r: Option<V>)
    requires ht != null ==> ht.Valid()
    modifies if ht == null then {} else {ht, ht.entries}
    ensures ht != null ==> ht.Valid()
    ensures r == if ht == null || key.None? then None else MapGet(old(ht.Contents), key.value)
    ensures ht != null && (key.None? || r.None?) ==>
      ht.Contents == old(ht.Contents) && ht.entries[..] == old(ht.entries[..])
    ensures ht != null && key.Some? ==>
      && ht.Contents == old(ht.Contents) - {key.value}
      && MapGet(ht.Contents, key.value) == None
      && ht.entries[Hash(key.value)] == Unlink(old(ht.entries[Hash(key.value)]), key.value)
      && forall i :: 0 <= i < ht.entries.Length && i != Hash(key.value) ==> ht.entries[i] == old(ht.entries[i])
  {
    if ht == null || key.None? {
      return None;
    }
    var k := key.value;
    var index := HtIndex(k);
    var chain := ht.entries[index];
    var tmp := 0;
    var prev := -1;  // -1 stands for a NULL predecessor
    while tmp < |chain| && chain[tmp].key != k
      invariant 0 <= tmp <= |chain|
      invariant prev == tmp - 1
      invariant forall j :: 0 <= j < tmp ==> chain[j].key != k
    {
      prev := tmp;
      tmp := tmp + 1;
    }
    FindAtScanStop(chain, k, tmp);
    UnlinkAtScanStop(chain, k, tmp);
    LookupAgrees(ht.entries[..], ht.Contents, k);
    if tmp == |chain| {
      return None;
    }
    RemoveAtPreservesInv(ht.entries[..], ht.Contents, k, tmp);
    if prev == -1 {
      assert chain[1..] == Cut(chain, 0);
      ht.entries[index] := chain[1..];
    } else {
      ht.entries[index] := chain[..prev + 1] + chain[tmp + 1..];
    }
    r := chain[tmp].value;
    ht.Contents := ht.Contents - {k};
  }

  /**
   * The bucket-draining loop of `hash_table_destroy`: a no-op on a NULL
   * table; otherwise every chain is unlinked head by head until every bucket
   * is empty, and the table then holds nothing.
   */
  method Destroy<V>(ht: HashTable?<V>)
    requires ht != null ==> ht.Valid()
    modifies if ht == null then {} else {ht, ht.entries}
    ensures ht != null ==> ht.Valid() && ht.Contents == map[]
    ensures ht != null ==> forall i :: 0 <= i < ht.entries.Length ==> ht.entries[i] == []
  {
    if ht == null {
      return;
    }
    for i := 0 to TABLE_SIZE
      invariant ht.Valid()
      invariant forall j :: 0 <= j < i ==> ht.entries[j] == []
    {
      DrainBucket(ht, i);
    }
    DrainedIsEmpty(ht.entries[..], ht.Contents);
  }

  /**
   * The inner `while (ht->entries[i])` loop of `hash_table_destroy`: the head
   * entry is unlinked until bucket `i` is empty; the other buckets keep their
   * chains.
   */
  method DrainBucket<V>(ht: HashTable<V>, i: nat)
    requires ht.Valid()
    requires i < ht.entries.Length
    modifies ht, ht.entries
    ensures ht.Valid()
    ensures ht.entries[i] == []
    ensures forall j :: 0 <= j < ht.entries.Length && j != i ==> ht.entries[j] == old(ht.entries[j])
    ensures forall k :: MapGet(ht.Contents, k) == if Hash(k) == i then None else MapGet(old(ht.Contents), k)
  {
    while ht.entries[i] != []
      invariant ht.Valid()
      invariant forall j :: 0 <= j < ht.entries.Length && j != i ==> ht.entries[j] == old(ht.entries[j])
      invariant forall k :: Hash(k) != i ==> MapGet(ht.Contents, k) == MapGet(old(ht.Contents), k)
      decreases |ht.entries[i]|
    {
      var tmp := ht.entries[i][0];
      ghost var t, m := ht.entries[..], ht.Contents;
      assert t[i] == ht.entries[i];
      RemoveAtPreservesInv(t, m, tmp.key, 0);
      assert ht.entries[i][1..] == Cut(t[i], 0);
      ht.entries[i] := ht.entries[i][1..];
      ht.Contents := m - {tmp.key};
      assert ht.entries[..] == t[i := Cut(t[i], 0)];
    }
    forall k | Hash(k) == i
      ensures MapGet(ht.Contents, k) == None
    {
      LookupAgrees(ht.entries[..], ht.Contents, k);
    }
  }
}
