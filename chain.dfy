/**
 * The collision chains of nothashy.h. An `entry_t` holds a key, a value and
 * a `next` link; a bucket's chain is modelled as the sequence of its entries
 * from the head, so `next` is the following position and NULL is the end.
 */
module Chain {

  import opened Wrappers
  import opened Hashing

  /** `entry_t`: the key is stored by value; the value is a possibly-NULL reference. */
  datatype Entry<V> = Entry(key: Key, value: Option<V>)

  /** What the lookup loop of `hash_table_get` yields: the value of the first entry with key `k`, or NULL. */
  function Find<V>(chain: seq<Entry<V>>, k: Key): Option<V> {
    if chain == [] then None
    else if chain[0].key == k then chain[0].value
    else Find(chain[1..], k)
  }

  /** The chain with its first entry whose key is `k` unlinked; the others keep their order. */
  function Unlink<V>(chain: seq<Entry<V>>, k: Key): seq<Entry<V>> {
    if chain == [] then []
    else if chain[0].key == k then chain[1..]
    else [chain[0]] + Unlink(chain[1..], k)
  }

  /** The keys of a chain, head first (the order `hash_table_print` lists them in). */
  function Keys<V>(chain: seq<Entry<V>>): (ks: seq<Key>)
    ensures |ks| == |chain|
    ensures forall j :: 0 <= j < |chain| ==> ks[j] == chain[j].key
  {
    if chain == [] then [] else [chain[0].key] + Keys(chain[1..])
  }

  /** No two entries of the chain share a key. */
  ghost predicate DistinctKeys<V>(chain: seq<Entry<V>>) {
    forall j1, j2 :: 0 <= j1 < j2 < |chain| ==> chain[j1].key != chain[j2].key
  }

  /**
   * `i` is where the scan `while (tmp != NULL && strcmp(tmp->key, key) != 0)`
   * stops: every earlier entry has another key, and `i` is either the end of
   * the chain or an entry with key `k`.
   */
  ghost predicate ScanStopsAt<V>(chain: seq<Entry<V>>, k: Key, i: nat) {
    && i <= |chain|
    && (forall j :: 0 <= j < i ==> chain[j].key != k)
    && (i == |chain| || chain[i].key == k)
  }

  /** The scan's stopping point determines `Find`: NULL at the end, the matched value otherwise. */
  lemma {:induction false} FindAtScanStop<V>(chain: seq<Entry<V>>, k: Key, i: nat)
    requires ScanStopsAt(chain, k, i)
    ensures Find(chain, k) == if i == |chain| then None else chain[i].value
  {
    if chain != [] && chain[0].key != k {
      FindAtScanStop(chain[1..], k, i - 1);
    }
  }

  /** A chain none of whose keys is `k` yields NULL. */
  lemma FindAbsent<V>(chain: seq<Entry<V>>, k: Key)
    requires forall j :: 0 <= j < |chain| ==> chain[j].key != k
    ensures Find(chain, k) == None
  {
  }

  /** In a chain with distinct keys, `Find` returns the value of the entry holding `k`. */
  lemma FindPresent<V>(chain: seq<Entry<V>>, k: Key, j: nat)
    requires DistinctKeys(chain)
    requires j < |chain| && chain[j].key == k
    ensures Find(chain, k) == chain[j].value
  {
    FindAtScanStop(chain, k, j);
  }

  /** Unlinking at the scan's stopping point removes exactly position `i`, or nothing at the end. */
  lemma {:induction false} UnlinkAtScanStop<V>(chain: seq<Entry<V>>, k: Key, i: nat)
    requires ScanStopsAt(chain, k, i)
    ensures i == |chain| ==> Unlink(chain, k) == chain
    ensures i < |chain| ==> Unlink(chain, k) == Cut(chain, i)
  {
    if chain != [] && chain[0].key != k {
      var tail := chain[1..];
      assert ScanStopsAt(tail, k, i - 1) by {
        forall j | 0 <= j < i - 1
          ensures tail[j].key != k
        {
          assert tail[j] == chain[j + 1];
        }
      }
      UnlinkAtScanStop(tail, k, i - 1);
      if i < |chain| {
        assert chain[..i] == [chain[0]] + tail[..i - 1];
        assert chain[i + 1..] == tail[i..];
        assert Cut(chain, i) == [chain[0]] + Cut(tail, i - 1);
      }
    }
  }

  /**
   * After unlinking `k` from a chain with distinct keys, `k` is gone and every
   * other key finds what it found before.
   */
  lemma {:induction false} FindAfterUnlink<V>(chain: seq<Entry<V>>, k: Key, k': Key)
    requires DistinctKeys(chain)
    ensures Find(Unlink(chain, k), k') == if k' == k then None else Find(chain, k')
  {
    if chain != [] {
      var tail := chain[1..];
      if chain[0].key == k {
        if k' == k {
          FindAbsent(tail, k);
        }
      } else {
        FindAfterUnlink(tail, k, k');
        assert ([chain[0]] + Unlink(tail, k))[1..] == Unlink(tail, k);
      }
    }
  }

  /** The chain with the entry at position `i` cut out, as `prev->next = tmp->next` leaves it. */
  function Cut<V>(chain: seq<Entry<V>>, i: nat): (r: seq<Entry<V>>)
    requires i < |chain|
    ensures |r| == |chain| - 1
  {
    chain[..i] + chain[i + 1..]
  }

  /** Position `j` of the cut chain holds old position `j` before the cut and `j + 1` after it. */
  lemma CutAt<V>(chain: seq<Entry<V>>, i: nat, j: nat)
    requires i < |chain| && j < |chain| - 1
    ensures Cut(chain, i)[j] == chain[if j < i then j else j + 1]
  {
  }

  /** Cutting the entry at `i` out of a chain with distinct keys keeps the keys distinct and drops that key. */
  lemma CutDistinct<V>(chain: seq<Entry<V>>, i: nat)
    requires DistinctKeys(chain)
    requires i < |chain|
    ensures DistinctKeys(Cut(chain, i))
    ensures forall j :: 0 <= j < |chain| - 1 ==> Cut(chain, i)[j].key != chain[i].key
  {
    var cut := Cut(chain, i);
    forall j1, j2 | 0 <= j1 < j2 < |cut|
      ensures cut[j1].key != cut[j2].key
    {
      CutAt(chain, i, j1);
      CutAt(chain, i, j2);
    }
    forall j | 0 <= j < |cut|
      ensures cut[j].key != chain[i].key
    {
      CutAt(chain, i, j);
      var a := if j < i then j else j + 1;
      if a < i {
        assert chain[a].key != chain[i].key;
      } else {
        assert chain[i].key != chain[a].key;
      }
    }
  }
}
