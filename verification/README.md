# Open-addressing string hash map: a Dafny model

This project models the core of a small C hash map (`src/hash_table.c` and `src/prime.c`). The map
stores string keys and string values in one bucket array. It resolves collisions by open addressing
with double hashing, marks deleted entries with a tombstone, and grows when the load passes 70
percent. The model is functional. A table is an immutable value
`Table(baseSize, size, count, slots)`, the same four fields as `ht_hash_table`. Each bucket is a
`Slot`: `Empty`, `Deleted` (the shared `HT_DELETED_ITEM` sentinel) or `Occupied(key, value)`. Every
operation returns a new table. The key/value map a table stands for is `Reachability.View`, built from
its Occupied slots.

The modules follow the source:

- `Prime` models `is_prime` and `next_prime`.
- `Hash` models `ht_hash` and `ht_get_hash`, with the constants `HT_PRIME_1` = 157 and `HT_PRIME_2` = 211.
- `Slots` holds the bucket type, the probe walk shared by insert and search, and the delete walk.
- `Reachability` holds the abstract view and the reachability invariant.
- `HashTable` holds `ht_new_sized`, `ht_new` (`INIT_SIZE` = 53), `ht_resize`, `ht_size_up`,
  `ht_size_down`, `ht_insert`, `ht_search` and `ht_delete`.
- `TableProofs` and `Growth` prove what those operations promise. `Demo` replays `src/main.c`.

The model follows the code as written, including where the code departs from its own comments:

- `next_prime` loops *while* `is_prime(n) == 1`. It therefore returns the first non-prime at or above
  n. `ht_new` gets 54 buckets, and a table size is never prime.
- Insert stops only on an Empty slot or on the key. It steps over tombstones and never reuses them.
- `ht_size_down` asks for half the base size, and the guard in `ht_resize` always refuses it. A
  table never shrinks.
- `ht_resize` re-inserts through the full `ht_insert`, growth check included, so `Insert`, `SizeUp`,
  `Resize` and `Reinsert` are mutually recursive. `Growth.GrowthIsRehash` proves that this nested
  growth check never fires once the base size is at least 3.
- At 54 buckets, 157 and 211 are congruent modulo 54. The two hashes then coincide for every key,
  so the probe step is `hash_a + 1` (`Hash.InitialHashesCoincide`).

A note on what the code does on delete: the walk does not stop at the match. It tombstones every
entry for the key up to the first Empty slot, then decrements `count` even when nothing was
removed. So the invariant keeps only `count <= entries`, not equality.

The table size is composite, so the probe step can share a factor with it, and then the C probe
loops run forever. This happens two inserts after `ht_new`. At 54 buckets "aj" and "bo" both hash to
53, so their step is 54, and every attempt lands on slot 53. Inserting "aj" fills that slot.
Inserting "bo" next never returns, and a search for "bo" that answered "absent" before now never
returns either (`Demo.InsertCanHang`, `Demo.SearchTurnsIntoHang`). So the lemmas about insert and
delete speak of the calls that return, and `TableProofs.InsertThenSearch` promises nothing about
keys that were absent: their lookup can turn into a hang. Each walk is modelled with a bound of `size` attempts and an outcome
`Diverges`. The probe sequence depends only on the attempt number modulo `size`
(`Hash.ProbePeriodic`). So a walk that stops nowhere in its first `size` attempts never stops
(`Slots.NeverExits`, `Slots.DeleteNeverExits`).

The central invariant is reachability (`Reachability.Reachable`). Every stored key sits at some
attempt of its own probe sequence, and every earlier attempt lands on a slot that is not Empty.
Together with unique keys this is the same as `Findable`: the lookup walk for every stored key stops
on that key's slot (`Reachability.ReachableIffFindable`). `HashTable.Valid` adds
`size == next_prime(base_size)` and `count <= |View|`. Insert, resize and delete keep `Valid`. Under
it, search answers according to the view.

## Model

| member | source | states |
|---|---|---|
| Prime.IsPrime | src/prime.c:15-25 | The answer is -1, 0 or 1, and it is -1 exactly when n < 2. |
| Prime.IsPrimeCorrect | src/prime.c:15-25 | For n >= 2 the answer is 1 exactly when no d with 2 <= d < n divides n. Trial division by odd numbers with i * i <= n decides primality. |
| Prime.IsPrimeSmallCases | src/prime.c:16-18 | 2 and 3 give 1, and every even n >= 4 gives 0. |
| Prime.NextPrime | src/prime.c:31-36 | The result is at least n. It is n itself when `is_prime(n) != 1`. Every integer from n up to the result has `is_prime` 1, the result never does, and for n >= 2 it is at most n + 2. |
| Prime.NextPrimeOfInitSize | src/prime.c:31-36 | 53 is prime, so `next_prime(53)` is the non-prime 54. |
| Hash.StrHash | src/hash_table.c:38-46 | The hash of any string lies in [0, m). |
| Hash.HashIsPolynomial | src/hash_table.c:38-46 | Reducing at every step gives the polynomial sum of s[i] * a^(len-1-i), reduced once modulo m. |
| Hash.HashCongruent | src/hash_table.c:38-46 | Multipliers congruent modulo m give the same hash for every string. |
| Hash.GetHash | src/hash_table.c:52-56 | Attempt numbers give slot indexes in [0, num_buckets), and attempt 0 gives `hash_a`. |
| Hash.ProbePeriodic | src/hash_table.c:52-56 | The probe index depends only on the attempt number modulo the bucket count, so the sequence has period `size`. |
| Hash.InitialHashesCoincide | src/hash_table.c:52-56 | At 54 buckets `hash_a == hash_b` for every key, and attempt i lands on (h * (i + 1) + i) mod 54. |
| Slots.LocateFrom | src/hash_table.c:179-193 | The walk stops on an Empty slot or on an entry for the key. It reports `Cycles` exactly when every attempt in the bound lands on a tombstone or on another key. |
| Slots.LocateAttempt | src/hash_table.c:184-193 | The walk stops at the first attempt that is neither a tombstone nor another key. |
| Slots.NeverExits | src/hash_table.c:184-193 | If the bounded walk reports `Cycles`, no attempt number at all stops the C loop. |
| Slots.DeleteFrom | src/hash_table.c:209-219 | The delete walk only turns entries for the key into tombstones. When it ends, the lookup walk for the key ends on an Empty slot. It diverges exactly when no attempt in the bound reaches an Empty slot. |
| Slots.DeleteNeverExits | src/hash_table.c:209-219 | A diverging delete walk reaches no Empty slot at any attempt number, so the C loop never exits. |
| Reachability.ReachableIffFindable | src/hash_table.c:153-193 | Reachability plus unique keys holds exactly when the lookup walk for every stored key stops on that key's own slot. |
| Reachability.LocateMatchesView | src/hash_table.c:179-195 | Under the invariant, the walk stops on the key exactly when the key is in the view, and the slot holds the view's value. |
| Reachability.AfterFill | src/hash_table.c:169-174 | Filling the Empty slot where a new key's walk stopped keeps every key findable and adds the entry to the view. |
| Reachability.AfterUpdate | src/hash_table.c:159-166 | Rewriting a key's entry in place keeps every key findable and changes only that key in the view. |
| Reachability.AfterTombstones | src/hash_table.c:209-219 | After the delete walk no entry for the key remains, every other key stays findable, and the key leaves the view. |
| HashTable.NewSized | src/hash_table.c:66-75 | The table has base size b, size `next_prime(b)` (at least b and never prime), count 0, every slot Empty and an empty view. |
| HashTable.New | src/hash_table.c:124-126 | The new table has base size 53, 54 buckets, count 0 and an empty view, and it satisfies the invariant. |
| HashTable.Search | src/hash_table.c:179-195 | A value found is stored under the key in some slot. A diverging search is a loop no attempt number exits. |
| HashTable.Place | src/hash_table.c:152-174 | Exactly one slot is rewritten with (k, v). Either it was Empty and count goes up by 1, or it held k and count stays. Base size and size are unchanged, and search for k then gives v. |
| HashTable.Insert | src/hash_table.c:145-175 | After an insert, search for k gives v, the base size does not shrink and the shape is kept. |
| HashTable.SizeUp | src/hash_table.c:112-115 | A completed size-up has at least twice the base size. |
| HashTable.Resize | src/hash_table.c:78-104 | A base below the current one leaves the table unchanged. Otherwise the result has base size at least b. |
| HashTable.Reinsert | src/hash_table.c:84-89 | The copy loop keeps the table shaped, never lowers the base size and adds at most one Occupied slot per old entry. |
| HashTable.SizeDown | src/hash_table.c:107-110 | Size-down always returns the table unchanged. |
| HashTable.Delete | src/hash_table.c:199-221 | Base size and size stay. Count drops by exactly 1, whether or not the key was present. Only entries for the key become tombstones, and search for the key then reports absence. |
| TableProofs.PlaceCorrect | src/hash_table.c:152-174 | Placing keeps the invariant and stores v under k in the view. The gap between count and the number of entries is unchanged. |
| TableProofs.InsertCorrect | src/hash_table.c:145-175 | Insert keeps the invariant and updates the view to `View[k := v]`, leaving every other key's entry as it was. |
| TableProofs.ResizeCorrect | src/hash_table.c:78-104 | A resize keeps the invariant and the view. When it rebuilds, it drops every tombstone and sets count to the exact number of entries. |
| TableProofs.ReinsertCorrect | src/hash_table.c:82-92 | The copy loop adds the old slots' entries to the new table's view in slot order, with an exact count and no tombstones. |
| TableProofs.SearchCorrect | src/hash_table.c:179-195 | Under the invariant a stored key gives its stored value. Any other key gives absence or a loop that never returns. |
| TableProofs.InsertThenSearch | src/hash_table.c:145-195 | After inserting (k, v), search for k gives v and search for every other stored key gives what it gave before. |
| TableProofs.DeleteCorrect | src/hash_table.c:199-221 | Delete keeps the invariant, removes k from the view and lowers count by 1. |
| TableProofs.DeleteAbsentUndercounts | src/hash_table.c:209-220 | Deleting an absent key leaves the view alone but still lowers count, so an exact count becomes one less than the number of entries. |
| TableProofs.PlaceFillsFirstEmpty | src/hash_table.c:156-174 | A new key goes into the first Empty slot of its probe path. Every earlier attempt is a tombstone or another key, and count goes up by 1. |
| TableProofs.CountAtMostOccupied | src/hash_table.c:145-221 | Under the invariant, count is at most the number of Occupied slots. |
| Growth.Rehash | src/hash_table.c:84-89 | The reference copy loop, which places entries without a growth check, keeps base size and size. It adds at most one to count per old entry. |
| Growth.ReinsertNeverGrows | src/hash_table.c:82-92 | When the old table's entries, less one, stay below 71 percent of the new size, the growth check inside the copy loop never fires. The copy loop through `ht_insert` then equals the reference copy loop. |
| Growth.GrowthIsRehash | src/hash_table.c:107-115 | For base size >= 3 and size `next_prime(base)`, size-up is a plain rehash into an empty table for twice the base. No nested growth happens. |
| Growth.InsertGrowthPolicy | src/hash_table.c:145-150 | When the load exceeds 70 percent, insert doubles the base size, takes `next_prime` of it as the size and counts entries exactly. Otherwise base size and size stay. |
| Demo.InsertCanHang | src/hash_table.c:52-56 | Two inserts after `ht_new` the insert loop hangs: "aj" goes to slot 53, and then every attempt for "bo" lands on that same slot, so inserting "bo" diverges. |
| Demo.SearchTurnsIntoHang | src/hash_table.c:179-195 | A search for "bo" reports absence on a new table, but after "aj" is inserted the same search never returns. |
| Demo.DemoScenario | src/main.c:6-17 | The demo runs as follows. Insert "just", "12" and "ds", update "just" to "wooo", then delete "12". Every step ends, "12" is then absent, "just" gives "wooo", "ds" gives "test", and count is 2. |

## Left out

- Memory management is not modelled: `malloc`, `calloc`, `strdup`, `free`, `ht_new_item`, `ht_del_item` and `ht_del_hash_table`. Tables are values, and the swap-then-destroy step at the end of `ht_resize` becomes returning the rebuilt table.
- Hash.StrHash: `pow` is a double in the C code. The model uses the exact integer power. The C value agrees only for short keys, roughly seven or eight characters, before `double` precision and `long long` overflow set in. The table lemmas use only the hash's range and determinism.
- Hash.StrHash: character codes are non-negative code points. The negative codes of a signed C `char` are not modelled. Keys are any character sequence; C keys end at the first NUL.
- Prime.IsPrime: the bound `floor(sqrt(n))` is the exact integer condition `i * i <= n`, with no floating point.
- Machine integers are not modelled: overflow of `count * 100`, of `attempt * (hash_b + 1)` and of `int` in general. `count` may go below zero after repeated deletes of absent keys, as an unbounded integer rather than a wrapping one.
- Non-termination is represented, not executed: a probe loop that never exits is the outcome `Diverges`.
- `src/main.c` printing is left out; its scenario is the lemma `Demo.DemoScenario`.
- Growth.GrowthIsRehash: holds for base sizes of at least 3. Every table built by `ht_new` has base size 53 times a power of two, because `ht_new_sized` is static and base sizes only double.
