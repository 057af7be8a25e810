/**
 * Call sequences on the table, proved from its contracts alone: the duplicate
 * key and removal sequence, and three colliding keys sharing one chain.
 * Values are small integers standing for the caller's references.
 */
module Scenarios {

  import opened Wrappers
  import opened Hashing
  import opened Chain
  import opened NotHashy

  /** Three two-byte keys with one polynomial value: 70*37+120 == 71*37+83 == 72*37+46 == 2710. */
  const FX: Key := "Fx"
  const GS: Key := "GS"
  const HDOT: Key := "H."

  /** The three keys are distinct and all hash to bucket 2710. */
  lemma CollidingKeys()
    ensures FX != GS && GS != HDOT && FX != HDOT
    ensures Hash(FX) == 2710 && Hash(GS) == 2710 && Hash(HDOT) == 2710
  {
    assert FX == ['F', 'x'] && GS == ['G', 'S'] && HDOT == ['H', '.'];
    HashOfPair('F', 'x');
    HashOfPair('G', 'S');
    HashOfPair('H', '.');
    assert FX[0] != GS[0] && GS[0] != HDOT[0] && FX[0] != HDOT[0];
  }

  /**
   * Insert "a", insert it again, get it, remove it, get it, remove it:
   * the second insert is refused and the first value stays until removed.
   */
  method DuplicateThenRemove() returns (first: int, second: int, got: Option<int>,
                                        removed: Option<int>, gotAfter: Option<int>,
                                        removedAgain: Option<int>)
    ensures first == 1 && second == 0
    ensures got == Some(1) && removed == Some(1)
    ensures gotAfter == None && removedAgain == None
  {
    var t := new HashTable<int>.Create();
    var a: Key := "a";
    first := Insert(t, Some(a), Some(1));
    second := Insert(t, Some(a), Some(2));
    got := Get(t, Some(a));
    removed := Remove(t, Some(a));
    gotAfter := Get(t, Some(a));
    removedAgain := Remove(t, Some(a));
  }

  /** The table after inserting "Fx", "GS" and "H." in that order: one chain, most recent first. */
  method BuildCollidingTable() returns (t: HashTable<int>)
    ensures t.Valid() && fresh(t) && fresh(t.entries)
    ensures MapGet(t.Contents, FX) == Some(1) && MapGet(t.Contents, GS) == Some(2)
    ensures MapGet(t.Contents, HDOT) == Some(3)
    ensures t.entries[2710] == [Entry(HDOT, Some(3)), Entry(GS, Some(2)), Entry(FX, Some(1))]
  {
    CollidingKeys();
    t := new HashTable<int>.Create();
    ghost var c0 := t.entries[2710];
    var ok := Insert(t, Some(FX), Some(1));
    ghost var c1 := t.entries[2710];
    assert c1 == [Entry(FX, Some(1))] + c0;
    ok := Insert(t, Some(GS), Some(2));
    ghost var c2 := t.entries[2710];
    assert c2 == [Entry(GS, Some(2))] + c1;
    ok := Insert(t, Some(HDOT), Some(3));
    assert t.entries[2710] == [Entry(HDOT, Some(3))] + c2;
  }

  /**
   * Insert three colliding keys in the order "Fx", "GS", "H.": their chain
   * lists them most recent first; removing the middle one returns its value
   * and leaves the other two in order and still retrievable.
   */
  method CollidingChain() returns (bucket: nat, before: seq<Key>, removed: Option<int>,
                                   after: seq<Key>, first: Option<int>, last: Option<int>)
    ensures bucket == 2710
    ensures before == [HDOT, GS, FX]
    ensures removed == Some(2)
    ensures after == [HDOT, FX]
    ensures first == Some(1) && last == Some(3)
  {
    CollidingKeys();
    var t := BuildCollidingTable();
    ghost var chain := t.entries[2710];
    bucket := HtIndex(FX);
    before := Keys(t.entries[bucket]);
    assert Unlink(chain, GS) == [Entry(HDOT, Some(3)), Entry(FX, Some(1))] by {
      assert chain[1..] == [Entry(GS, Some(2)), Entry(FX, Some(1))];
    }
    removed := Remove(t, Some(GS));
    after := Keys(t.entries[bucket]);
    first := Get(t, Some(FX));
    last := Get(t, Some(HDOT));
  }
}
