# NotHashy in Dafny

A model of NotHashy, a fixed-size, separately chained hash table from
strings to opaque references, implemented in the single header
`nothashy.h`. The model keeps the C program's shape:

- `hash.dfy` (module `Hashing`): the bucket hash `hash`, a polynomial
  accumulation `value = value * 37 + key[i]` in a 64-bit `unsigned long`,
  reduced once modulo `TABLE_SIZE = 100000`, and `_ht_index`, which reduces
  it a second time. The loop reads `key_len` bytes, where `key_len` is
  `strlen(key)` stored in a 32-bit `unsigned int`. A key of 2^32 bytes or
  more is therefore hashed on its first `|key| mod 2^32` bytes only
  (`HashedPrefix`). Lookups still compare whole keys, and get, insert
  and remove all use the same hash, so such keys only collide. The loop is a method proved against the function `Hash`.
  Every multiply-add wraps modulo 2^64 explicitly.
- `chain.dfy` (module `Chain`): `entry_t` and its chains. A chain is the
  sequence of entries from the bucket head, so an entry's `next` link is
  the next position and NULL is the end. `Find` is what the lookup scan
  yields. `Unlink` removes the first entry with a key. Lemmas tie both to
  where the `strcmp` scan stops.
- `table.dfy` (module `NotHashy`): `hash_table_t` as the class `HashTable`.
  It holds an `array` of `TABLE_SIZE` chains and a ghost map `Contents`
  that the chains stand for; `MapGet` is the lookup in that map, NULL for a
  missing key. The pure predicate `TableInv` is the table
  invariant:
  - every entry sits in the bucket its key hashes to;
  - no chain repeats a key, so keys are unique across the table;
  - no stored value is NULL;
  - the chains hold exactly the associations of `Contents`.

  `hash_table_create`, `hash_table_get`, `hash_table_insert`,
  `hash_table_remove` and the draining loop of `hash_table_destroy` are
  methods over a possibly-null table, with `Option` standing for
  possibly-NULL keys and values. Get's `tmp` and Remove's `tmp`/`prev`
  pointer walks are index walks over the chain.
- `scenarios.dfy` (module `Scenarios`): call sequences proved from the
  table's contracts alone. The first inserts "a", inserts it again, then gets, removes,
  gets and removes it. The second builds one chain of three colliding keys.
- `wrappers.dfy` (module `Wrappers`): `Option`, where `None` is NULL.

Keys are sequences of bytes 1..255, since a C string has no NUL before its
terminator. A plain `char` is taken as signed (the x86 and x86-64
convention), so a byte of 128..255 adds its two's-complement value. The
sum is reduced modulo 2^64. `AsciiHash` shows that for 7-bit keys the hash
is the same whether `char` is signed or unsigned.

## Model

| member | source | states |
|---|---|---|
| Hashing.CharValue | nothashy.h:48 | `key[i]` adds a signed-char value in -128..127 that equals the byte modulo 256, and equals the byte for 7-bit bytes |
| Hashing.Step | nothashy.h:48 | one loop step `value * 37 + key[i]` stays inside the 64-bit `unsigned long` range |
| Hashing.Acc | nothashy.h:43-49 | the accumulator after the whole key is below 2^64 |
| Hashing.HashedPrefix | nothashy.h:45-47 | the loop reads a prefix of the key shorter than 2^32 bytes, and the whole key whenever it is shorter than 2^32 bytes |
| Hashing.Hash | nothashy.h:42-52 | the hash is always in [0, TABLE_SIZE), and a key whose length is a multiple of 2^32 (the empty key among them) hashes to 0 |
| Hashing.HashReadsPrefixOnly | nothashy.h:45-49 | a key hashes exactly like the prefix that `key_len` covers, so bytes beyond it never affect the bucket |
| Hashing.AccIsPolyModWord | nothashy.h:43-49 | wrapping modulo 2^64 at every step equals computing the exact polynomial and reducing it modulo 2^64 once |
| Hashing.AsciiPolyIsUnsigned | nothashy.h:48 | for keys of 7-bit bytes the polynomial is the same with signed and with unsigned `char` |
| Hashing.AsciiHash | nothashy.h:42-52 | for 7-bit keys the hash is the unsigned polynomial of the bytes read, reduced modulo 2^64 and then modulo TABLE_SIZE |
| Hashing.HashOfPair | nothashy.h:42-52 | a two-byte 7-bit key hashes to `a * 37 + b` modulo TABLE_SIZE, with no wrap-around |
| Hashing.ComputeHash | nothashy.h:42-52 | the accumulation loop over `key_len = strlen(key) mod 2^32` bytes returns exactly `Hash(key)` |
| Hashing.HtIndex | nothashy.h:54-56 | the second reduction modulo TABLE_SIZE is a no-op: the index is `Hash(key)` |
| Chain.Keys | nothashy.h:86-90 | lists a chain's keys position by position, head first |
| Chain.Find | nothashy.h:116-121 | what the `strcmp` scan of `hash_table_get` yields: the value of the first entry with the key, or NULL; `FindAtScanStop`, `FindAbsent` and `FindPresent` pin it to the scan's stopping point |
| Chain.Unlink | nothashy.h:128-141 | the chain after `hash_table_remove` unlinks the first entry with the key; `UnlinkAtScanStop` shows it is the head or predecessor splice at the scan's stop, and `FindAfterUnlink` what lookups give afterwards |
| Chain.Cut | nothashy.h:136-141 | unlinking position `i` leaves a chain one entry shorter |
| Chain.CutAt | nothashy.h:136-141 | after the unlink, entries before position `i` stay where they were and entries after it move up by one, in their order |
| Chain.FindAtScanStop | nothashy.h:116-121 | where the `strcmp` scan stops decides the lookup: NULL at the chain's end, otherwise the matched entry's value |
| Chain.FindAbsent | nothashy.h:117-120 | a chain with no entry for the key yields NULL |
| Chain.FindPresent | nothashy.h:116-121 | in a chain with distinct keys the lookup returns the value of the entry holding the key |
| Chain.UnlinkAtScanStop | nothashy.h:128-141 | unlinking at the scan's stop removes exactly that position (through the head or the predecessor), or nothing if the scan reached the end |
| Chain.FindAfterUnlink | nothashy.h:124-146 | after unlinking a key from a chain with distinct keys that key yields NULL and every other key yields what it did before |
| Chain.CutDistinct | nothashy.h:136-141 | unlinking an entry keeps the chain's keys distinct and removes that key from it |
| NotHashy.TableInv | nothashy.h:31-39 | the invariant of `entries`: TABLE_SIZE chains, each entry in the bucket of its key's hash, no chain repeating a key, no NULL value, and the chains holding exactly the map; `EmptyTableInv`, `InsertPreservesInv` and `RemoveAtPreservesInv` show create, insert and remove keep it |
| NotHashy.EmptyTableInv | nothashy.h:58-62 | TABLE_SIZE empty buckets satisfy the table invariant for the empty map |
| NotHashy.LookupAgrees | nothashy.h:112-121 | under the invariant, scanning bucket `Hash(k)` gives exactly the map lookup, both for present and for absent keys |
| NotHashy.KeysUniqueAcrossTable | nothashy.h:96-110 | under the invariant no two entries anywhere in the table share a key |
| NotHashy.InsertPreservesInv | nothashy.h:102-109 | pushing an entry for an absent key at the head of its bucket keeps the invariant and adds the key to the map |
| NotHashy.RemoveAtPreservesInv | nothashy.h:135-146 | unlinking the entry holding a key keeps the invariant and removes just that key from the map |
| NotHashy.RemoveAtRepresents | nothashy.h:135-146 | after the unlink the buckets represent the map without the removed key |
| NotHashy.DrainedIsEmpty | nothashy.h:64-74 | a table whose buckets are all empty represents the empty map |
| NotHashy.HashTable.Create | nothashy.h:58-62 | a fresh array of exactly TABLE_SIZE buckets, all empty; the invariant holds and the map is empty |
| NotHashy.Get | nothashy.h:112-121 | NULL for a NULL table or key; otherwise the value of the entry for the key in bucket `Hash(key)`, which is the map lookup; nothing is modified |
| NotHashy.Insert | nothashy.h:96-110 | returns 1 exactly when table, key and value are non-NULL and the key is new; then the entry heads bucket `Hash(key)` before that chain's old entries, other buckets are unchanged and get returns the value; otherwise returns 0 and nothing changes; the invariant is kept |
| NotHashy.Remove | nothashy.h:124-146 | NULL for a NULL table or key; otherwise returns the key's value, or NULL if absent with nothing changed; the bucket becomes `Unlink` of its old chain, other buckets are unchanged, the key leaves the map and a later get yields NULL; the invariant is kept |
| NotHashy.DrainBucket | nothashy.h:67-73 | the inner loop empties bucket `i`, leaves the other buckets' chains alone and drops from the map exactly the keys hashing to `i` |
| NotHashy.Destroy | nothashy.h:64-74 | a no-op for a NULL table; otherwise every bucket ends empty and the map is empty |
| Scenarios.CollidingKeys | nothashy.h:42-52 | "Fx", "GS" and "H." are three distinct keys that all hash to bucket 2710 |
| Scenarios.DuplicateThenRemove | nothashy.h:96-146 | insert "a" gives 1, inserting "a" again gives 0, get returns the first value, remove returns it, and then get and remove both give NULL |
| Scenarios.BuildCollidingTable | nothashy.h:96-110 | inserting "Fx", "GS", "H." in that order leaves bucket 2710 with the chain "H.", "GS", "Fx" (most recent first), all three retrievable |
| Scenarios.CollidingChain | nothashy.h:96-146 | removing "GS" from that chain returns its value and leaves "H.", "Fx" in order, and both other keys keep their values |

## Left out

- `hash_table_print` (nothashy.h:80-94): diagnostic output only. `Chain.Keys` gives the key order it would print.
- Memory management. The model does not cover `malloc`, `calloc` or `free`, and so does not cover the release of keys, values and nodes in `hash_table_destroy` (nothashy.h:70-72, 76-77). It also leaves out the key that `hash_table_remove` never frees (nothashy.h:144) and the question of who owns the values. `Destroy` is modelled only as the draining of every bucket; the table object stays in the model afterwards with no entries.
- Allocation failure: the source never checks the results of `malloc` or `calloc`, so there is no behaviour to model.
- The key copy with `strcpy` (nothashy.h:104-105): a key is stored by value, so buffer aliasing is not modelled.
- Pointer identity of values: a value is an opaque `V`, and NULL is `None`.
- Hashing.CharValue: follows a signed plain `char`. On platforms where `char` is unsigned, keys with bytes of 128 or above hash differently. For 7-bit keys `AsciiHash` shows the two agree.
- `unsigned long` is taken as 64 bits (LP64). A platform with a 32-bit `long` would wrap modulo 2^32 instead.
- The prototype `hash_table_destory` (nothashy.h:12) does not match the definition `hash_table_destroy` (nothashy.h:64). This is a naming and linkage issue with no behaviour to model.
- Concurrency: the source has none.
