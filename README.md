# LongLongMap in Dafny

A model of `one.LongLongMap`, a hash map from `long` keys to `long` values
that keeps all of its data in one preallocated block of off-heap memory.
Given its address and size, the block is read and written one 8-byte
field at a time. It holds `size >> 5` records of 32 bytes each: key, value,
`next` and `origin`. A key of 0 marks an empty record, and a value of 0
stands for "absent".

The hash is chosen once, from the record count `n`:
- `key & (n - 1)` when `n` is a power of two;
- otherwise Java's truncating `key % n`.

A key's home record is `start + (hash << 5)`.

Collisions are resolved by open addressing:
- a new key whose home is taken goes into a free record found by a
  two-way probe;
- records of one hash are chained through `next`;
- a home record taken by a key of another hash points, through `origin`,
  to the first record of its own hash's chain.

The model has four modules:

- `Hashing` (hashing.dfy): Java's 64-bit `long`, the two's-complement `&`,
  the truncating `%`, the wrap-around of `<<`, the hasher `initHasher` picks,
  and the range of its hashes.
- `Layout` (layout.dfy): a record as a datatype and the block as a sequence of
  records. It also holds the invariant `Inv` that every `put` keeps, and the
  map's contents as a function of the block.
  - The invariant is stated over a ghost `Shape`:
    - `chains[h]` lists, in `next` order, the records holding keys of hash `h`;
    - `where[k]` is the record holding key `k`.
  - The invariant says:
    - every chain is linked through `next` and ends in 0;
    - every home record is either empty, the first link of its own chain, or
      taken by another hash and pointing through `origin` at its chain;
    - every stored key lies in the chain of its hash;
    - empty records are all zero.
  - `Contents` maps each key of `where` to its record's value.
- `OffHeap` (long_long_map.dfy): the class `LongLongMap`, with the block as
  an `array<Record>`, and `get`, `put` and the free-record probe
  `findFreeAddressForCollision` as methods with the source's loops.
  - `get` and `put` are proved against `Contents` and `PutOutcome`:
    `get` answers `Lookup(Contents(), key)`, and `put` answers the previous
    value and updates `Contents` at `key`.
  - The probe is proved against `ProbeRun`, its answer step by step: every
    step before the last reads two taken records, and the last one answers
    the left record if it is free, else the right one if it is free, else
    `MapFull` when the cursors meet, or `StrayRead` at a read outside the
    records. `ProbeSpec` restates this as a window of records: the answer
    is free exactly when the window has a free record.
- `Scenarios` (scenarios.dfy): the map's clients. They are small versions of
  the repository's tests, plus put-then-get and a negative key.

Addresses are absolute, as in the source, and `next`/`origin` store them.
The model does not read outside the records. Where the source would read
such an address, the model stops with an outcome that names the case:
- `OutsideBlock`: a home address before the block;
- `StrayRead`: a probe cursor outside the records.

Nothing changes in the block when either happens.

### Behaviour at the edges

The source's comments (`LongLongMap.java:136` and `:154-156`) describe the
probe as moving both cursors until one of them finds a free record or they
meet, and throwing `MapFullException` when there is no place for the key.
The code does not quite do that. Below, what the code does is told apart
from what the model answers.

- The first loop stops when a cursor reads a free record or the left cursor
  reaches the first record. Otherwise the right cursor reads
  `start + 32 * n`, just past the last record (`LongLongMap.java:158-162`).
  - The left record of that step is read first. When it is free, the code
    returns it whatever the right read gave (`:181-182`), and so does the
    model (`MoveApart`).
  - When it is taken, the model stops with `StrayRead`. The code goes on
    with the word it read (see "Left out").
- After the left cursor wraps to the last record, the two cursors' record
  indices add up to an odd number, so they never meet. The second loop then
  runs until it finds a free record or reads outside the records
  (`WrappedRunWindow`).
- In the model, `MapFull` comes from one start only: the right cursor
  wrapped at the start, which needs an odd record count and a whole number
  of records (`CrossRunWindow`). It is then answered exactly when every
  record is taken (`MapFullMeansFull`).
- Consequences in the model:
  - a new key put into a block whose records are all taken is never placed
    (`FullBlockOutcome`);
  - with an even record count the model never answers `MapFull`; it answers
    `StrayRead`. `Scenarios.EightRecords` shows this on eight records: the
    ninth key gives `StrayRead`.
- The records a probe reads before it stops, the window from `WindowLo` to
  `WindowHi`, can be fewer than the block's. The model then answers
  `StrayRead` even when a free record lies outside the window.
- With a record count that is not a power of two, the hash of a negative key
  is negative unless the key is a multiple of the count
  (`RemainderHashRange`). Its home address then lies before the block
  (`Scenarios.NegativeKey`).

## Model

| member | source | states |
|---|---|---|
| Hashing.Wrap | src/main/java/one/LongLongMap.java:293-297 | Java's `long` arithmetic: the result is the argument when that fits in a long, and is congruent to it modulo 2^64 in every case |
| Hashing.JavaAnd | src/main/java/one/LongLongMap.java:305-306 | Java's `&` on two longs: a non-negative operand bounds the result from above, and the result is then non-negative |
| Hashing.Apply | src/main/java/one/LongLongMap.java:306-307 | `hasher.applyAsLong`: a mask hash lies between 0 and a non-negative mask; a remainder hash lies strictly between `-d` and `d` and differs from the key by a multiple of `d` |
| Hashing.JavaRem | src/main/java/one/LongLongMap.java:307 | Java's `%` for a positive divisor: the remainder lies strictly between `-d` and `d`, takes the dividend's sign, and differs from the dividend by a multiple of `d` |
| Hashing.InitHasher | src/main/java/one/LongLongMap.java:304-308 | the mask `n - 1` is picked when `(n - 1) & n == 0`, otherwise the remainder by `n` (which is then positive) |
| Hashing.AndLowMask | src/main/java/one/LongLongMap.java:306 | AND with `2^k - 1` keeps exactly the low `k` bits: it equals the Euclidean remainder by `2^k`, also for negative keys |
| Hashing.PowerSelectsMask | src/main/java/one/LongLongMap.java:305-307 | a positive record count selects the mask exactly when it is a power of two, and the remainder otherwise |
| Hashing.NoBitBelowIsPow2 | src/main/java/one/LongLongMap.java:305 | a positive number that shares no bit with its predecessor is a power of two |
| Hashing.PowerOfTwoHash | src/main/java/one/LongLongMap.java:304-306 | with `2^k` records the hash of every key is `key mod 2^k`, a record index in `[0, 2^k)` |
| Hashing.MaskHashInRange | src/main/java/one/LongLongMap.java:306 | whenever the mask is selected, every hash is a record index |
| Hashing.RemainderHashRange | src/main/java/one/LongLongMap.java:307 | with the remainder hasher every hash lies in `(-n, n)`, and it is a record index exactly when the key is non-negative or a multiple of `n` |
| Hashing.HashInRange | src/main/java/one/LongLongMap.java:304-308 | whichever hasher is selected, every hash lies in `(-n, n)` |
| Hashing.NegativeKeyHashExample | src/main/java/one/LongLongMap.java:304-307 | three records select the remainder, and the key -1 hashes to -1 |
| Layout.WriteKeyAndValue | src/main/java/one/LongLongMap.java:247-254 | putKeyAndValue writes the key and value fields of one record and leaves its links and every other record alone |
| Layout.ZeroedBlockValid | src/main/java/one/LongLongMap.java:68-69 | a zeroed block satisfies the invariant with no chains and holds nothing |
| Layout.FoundKey | src/main/java/one/LongLongMap.java:100-101 | a record holding the key holds its stored value |
| Layout.MissingFromChain | src/main/java/one/LongLongMap.java:104-106 | a key absent from the chain of its own hash is absent from the map, so get's 0 is right |
| Layout.FromHome | src/main/java/one/LongLongMap.java:104 | from an occupied home holding another key, `next` (same hash) or `origin` (another hash) leads to the rest of the key's chain, or is 0 when there is none |
| Layout.ChainsAcyclic | src/main/java/one/LongLongMap.java:119-122 | a chain never visits a record twice, so following `next` ends |
| Layout.ChainLookupFinds | src/main/java/one/LongLongMap.java:116-129 | walking a chain from any link past links without the key answers the key's stored value, or 0 when the key is absent |
| Layout.MissingAtTail | src/main/java/one/LongLongMap.java:229-236 | a walk that met no copy of the key and stopped on a `next` of 0 stopped at the chain's last link, and the key is absent |
| Layout.PlaceInEmptyHome | src/main/java/one/LongLongMap.java:197-198 | a new key written into its empty home keeps the invariant and adds exactly that key |
| Layout.ReplaceValue | src/main/java/one/LongLongMap.java:234-235 | rewriting a stored key's record keeps the invariant and changes only that key's value |
| Layout.PlaceBehindStolenHome | src/main/java/one/LongLongMap.java:205-208 | the first key of a hash whose home another hash took, written into a free record that the home's `origin` then points at, keeps the invariant and adds exactly that key |
| Layout.AppendToChain | src/main/java/one/LongLongMap.java:238-242 | a new key written into a free record that the chain's last `next` then points at keeps the invariant and adds exactly that key |
| OffHeap.Attach | src/main/java/one/LongLongMap.java:207-208 | linking one record to a free one through `origin` or `next` and writing the key and value there changes those two records only, and only in those fields |
| OffHeap.LongLongMap.constructor | src/main/java/one/LongLongMap.java:59-71 | the block holds `size >> 5` zeroed records, the hasher is initHasher's, the map is valid and empty |
| OffHeap.LongLongMap.Get | src/main/java/one/LongLongMap.java:92-94 | get answers the stored value, or 0 for an absent key, whenever the key's home is in the block |
| OffHeap.LongLongMap.GetV | src/main/java/one/LongLongMap.java:96-107 | from the home record, through `origin` or `next`, getV finds the key's stored value, or 0 when it is absent |
| OffHeap.LongLongMap.GetCollision | src/main/java/one/LongLongMap.java:116-129 | the walk down linked records answers the value of the first one holding the key, or 0 |
| OffHeap.LongLongMap.Put | src/main/java/one/LongLongMap.java:82-84 | put answers `PutOutcome`: the previous value (0 for a new key) with the key now mapped to the value; or MapFullException or a stray read with nothing changed. In the block, a stored key's record gets the new key and value; a new key with a free home ends up alone in it; a new key behind a taken home lands in the free record the probe from the probe's start record answers (`ProbeRun`), linked from that start record through its `origin` (no chain yet) or its `next`, which held 0; the invariant is kept |
| OffHeap.LongLongMap.PutV | src/main/java/one/LongLongMap.java:192-215 | the same, branch by branch: free or matching home, stolen home without a chain, chain reached through `next` or `origin` |
| OffHeap.LongLongMap.PutBehindStolenHome | src/main/java/one/LongLongMap.java:201-208 | for a stolen home with `origin` 0, the probe from the home either places the key in the free record it answers (`ProbeRun`), which the home's `origin` then points at, nothing else changing, or answers the probe's failure with nothing changed |
| OffHeap.LongLongMap.StolenHomeProbe | src/main/java/one/LongLongMap.java:201-206 | a home taken by another hash whose `origin` is 0 means no key of its hash is stored |
| OffHeap.LongLongMap.PutCollision | src/main/java/one/LongLongMap.java:226-243 | putCollision rewrites the key and value of the record holding a key found on the chain, or places a new key in the free record the probe from the chain's last link answers (`ProbeRun`), which that link's `next`, 0 until then, points at, or answers the probe's failure with nothing changed |
| OffHeap.LongLongMap.WalkChain | src/main/java/one/LongLongMap.java:227-232 | the walk stops on the first link holding the key, or on a link whose `next` is 0, having passed only links without the key |
| OffHeap.LongLongMap.TailReached | src/main/java/one/LongLongMap.java:234-238 | a walk that did not find the key stopped on the chain's last link, where the probe starts |
| OffHeap.LongLongMap.PutBehindTail | src/main/java/one/LongLongMap.java:238-242 | the probe from the chain's last link places the new key in the free record it answers (`ProbeRun`), which the last `next`, 0 until then, points at, nothing else changing; or it answers MapFullException or a stray read with nothing changed |
| OffHeap.LongLongMap.Replace | src/main/java/one/LongLongMap.java:234-235 | a key found on its chain is the key's record; its key and value fields are rewritten, the key now maps to the new value, and put answers the old one |
| OffHeap.LongLongMap.Land | src/main/java/one/LongLongMap.java:207-208 | linking the probe's start record to the free record and writing the key and value there leaves the block as `Attach` says, keeps the invariant and maps the key to the value |
| OffHeap.LongLongMap.Store | src/main/java/one/LongLongMap.java:247-254 | putKeyAndValue on a record of the block answers the record's previous value and writes that key and value there |
| OffHeap.LongLongMap.PutKeyAndValue | src/main/java/one/LongLongMap.java:247-254 | answers the record's previous value and leaves the block as `WriteKeyAndValue` says |
| OffHeap.LongLongMap.WriteBehind | src/main/java/one/LongLongMap.java:240-242 | the link write followed by putKeyAndValue leaves the block as `Attach` says and answers the free record's old value |
| OffHeap.LongLongMap.PutNextOn | src/main/java/one/LongLongMap.java:264-266 | only the `next` field of that record changes |
| OffHeap.LongLongMap.PutOriginOn | src/main/java/one/LongLongMap.java:268-270 | only the `origin` field of that record changes |
| OffHeap.LongLongMap.KeyOn | src/main/java/one/LongLongMap.java:276-278 | the key word of the record at address `start + 32 i` is record `i`'s key |
| OffHeap.LongLongMap.ValueOn | src/main/java/one/LongLongMap.java:280-282 | the value word of the record at address `start + 32 i` is record `i`'s value |
| OffHeap.LongLongMap.NextOn | src/main/java/one/LongLongMap.java:284-286 | the `next` word of the record at address `start + 32 i` is record `i`'s `next` |
| OffHeap.LongLongMap.OriginOn | src/main/java/one/LongLongMap.java:288-290 | the `origin` word of the record at address `start + 32 i` is record `i`'s `origin` |
| OffHeap.LongLongMap.HomeStolen | src/main/java/one/LongLongMap.java:300-302 | hashesNotEquals of a taken home's key and the home's own hash holds exactly when another hash stole the home: the home is then not the first link of its hash's chain, and its `origin` leads to that link, or is 0 while the chain is empty |
| OffHeap.LongLongMap.HashToOffset | src/main/java/one/LongLongMap.java:296-298 | `hash << 5` is `32 * hash` when that fits in a long, and is congruent to it modulo 2^64 in every case |
| OffHeap.LongLongMap.MapAddressOnHash | src/main/java/one/LongLongMap.java:292-294 | the home address of a hash in `[0, n)` is that record's address |
| OffHeap.LongLongMap.HomeAddress | src/main/java/one/LongLongMap.java:292-298 | a key's home address is the address of a record exactly when its hash lies in `[0, n)` |
| OffHeap.LongLongMap.FindFreeAddressForCollision | src/main/java/one/LongLongMap.java:138-190 | the probe from an occupied record answers `ProbeRun`: every step before the last reads two taken records, and the last answers the free left record, else the free right one, else MapFullException where the cursors meet, else a stray read; so its answer lies in the window `ProbeSpec` describes |
| OffHeap.LongLongMap.MoveApart | src/main/java/one/LongLongMap.java:158-171 | the first loop passes steps of taken records and stops on a free record (the left one first, also when the right cursor read past the last record), or strays past the last record, or reaches the first record and sends the left cursor to the block's last record position, from where the steps go on one record at a time |
| OffHeap.LongLongMap.MoveTogether | src/main/java/one/LongLongMap.java:174-189 | the second loop continues the probe's steps until one stops it, and answers what that step answers |
| OffHeap.LongLongMap.RightStrayStop | src/main/java/one/LongLongMap.java:174-186 | a step whose right read alone lies outside the records answers the left record when it is free, since that is read and tested first, and a stray read otherwise |
| OffHeap.LongLongMap.ProbeRunUnique | src/main/java/one/LongLongMap.java:138-190 | the step-by-step answer is unique: the probe stops at the first step that does not pass |
| OffHeap.LongLongMap.LandingUnique | src/main/java/one/LongLongMap.java:181-186 | two free records the same probe run answers are the same record, so the record a colliding put fills is determined |
| OffHeap.LongLongMap.RunWindow | src/main/java/one/LongLongMap.java:138-190 | the step-by-step answer is the window one: a free record of the window, or no free record in it, and MapFullException exactly in the wrapped-at-start case |
| OffHeap.LongLongMap.CrossRunWindow | src/main/java/one/LongLongMap.java:146-152 | when the right cursor starts by wrapping to the first record, the cursors scan the block from both ends and stop inside it, meeting only when every record is taken |
| OffHeap.LongLongMap.ApartRunWindow | src/main/java/one/LongLongMap.java:158-162 | a probe stopped in the first loop answers a free record of its window, or strays after reading every record from the left cursor's to the last one |
| OffHeap.LongLongMap.ApartTaken | src/main/java/one/LongLongMap.java:158-162 | a first loop whose right cursor reached the end of the records had found every record from the left cursor's to the last one taken |
| OffHeap.LongLongMap.FirstLoopTaken | src/main/java/one/LongLongMap.java:158-167 | a probe that reaches the second loop found every record from the first to the right cursor's taken |
| OffHeap.LongLongMap.WrapContinues | src/main/java/one/LongLongMap.java:165-170 | the wrapped left cursor is not on the right cursor's record, and the second loop steps on from there one record at a time |
| OffHeap.LongLongMap.WrappedRunWindow | src/main/java/one/LongLongMap.java:165-179 | after the left cursor wraps in a block of whole records the cursors never meet: the probe answers a free record or strays after reading every record |
| OffHeap.LongLongMap.WrappedTaken | src/main/java/one/LongLongMap.java:174-179 | a wrapped second loop whose right cursor reached the end of the records had found every record above its start taken |
| OffHeap.LongLongMap.MisalignedRunWindow | src/main/java/one/LongLongMap.java:166-167 | with trailing bytes, the wrapped left cursor sits between two records and its first read is outside them |
| OffHeap.LongLongMap.WindowAnswer | src/main/java/one/LongLongMap.java:138-190 | the probe answers a free record exactly when its window has one |
| OffHeap.LongLongMap.ProbeOutcome | src/main/java/one/LongLongMap.java:206 | when put has to probe, it answers what the probe answers |
| OffHeap.LongLongMap.ProbeFor | src/main/java/one/LongLongMap.java:238 | the probe for a new key answers `PutOutcome`, step by step as `ProbeRun` from the probe's start record says, and, when it succeeds, a free record of the block |
| OffHeap.LongLongMap.Answer | src/main/java/one/LongLongMap.java:181-189 | a probe that answers no free record becomes put's MapFullException or stray read, and only a free record lets put succeed |
| OffHeap.LongLongMap.MapFullMeansFull | src/main/java/one/LongLongMap.java:189 | MapFullException is thrown only for a key that is absent, and only when every record holds a key |
| OffHeap.LongLongMap.FullBlockOutcome | src/main/java/one/LongLongMap.java:146 | a new key whose home is in a block with every record taken is never placed, and with an even record count the probe always reads outside the block |
| OffHeap.LongLongMap.StoredInBlock | src/main/java/one/LongLongMap.java:92-93 | a stored key's home lies in the block, so get reaches it |
| Scenarios.PutNext | src/test/java/one/LongLongMapTest.java:29-31 | key `i` put into eight records holding the keys `1..i-1` lands in its free home, and put answers 0 |
| Scenarios.PutOneToEight | src/test/java/one/LongLongMapTest.java:29-31 | putting `k -> k*k` for `k = 1..8` into eight empty records answers 0 each time, and leaves each key alone in its home |
| Scenarios.ReadBack | src/test/java/one/LongLongMapTest.java:56-60 | get of each of those keys answers its square |
| Scenarios.PutNinth | src/main/java/one/LongLongMap.java:146-190 | a ninth key in the full eight-record block makes put read outside the block |
| Scenarios.EightRecords | src/test/java/one/LongLongMapTest.java:49-61 | in eight records, keys 1..8 each answer 0 on put and their squares on get; a ninth key strays |
| Scenarios.PreviousValue | src/test/java/one/LongLongMapTest.java:34-47 | the first put of a key answers 0, the second the value the first stored |
| Scenarios.PutThenGet | src/test/java/one/LongLongMapTest.java:71-78 | whenever put succeeds, get of the same key answers the value just put; when it fails, nothing is stored |
| Scenarios.FreshGet | src/main/java/one/LongLongMap.java:59-71 | a fresh map answers 0 for every key whose home is in the block, and `OutsideBlock` for every other key |
| Scenarios.NegativeKey | src/main/java/one/LongLongMap.java:96-98 | in three records the key -1's home lies before the block, and get reads there |

## Left out

- The `Unsafe` object and raw memory. The block is an array of records in
  the model, and an address that is not the start of one of its records is
  never read.
  - Reads at such addresses end the operation with `OutsideBlock` or
    `StrayRead`. The source would read whatever lies there and go on.
  - What happens after such a read is not modelled. After a stray read
    whose own step read a taken left record, the source can throw
    `MapFullException` although a record is free, or return an address
    outside the records. Take four records, keys in records 1 to 3 and
    record 0 free, and a probe from record 3. Its first step reads past the
    last record. If that word is not 0, the right cursor restarts at record
    0 (`LongLongMap.java:169`) without reading it, and the cursors meet at
    record 1: the source throws. If the word is 0, the source returns the
    address past the last record. The model answers `StrayRead` in both
    cases.
- OffHeap.LongLongMap.Put: requires `key != 0`. The source does not check
  for key 0, but 0 marks an empty record. `put(0, v)` would leave a value
  in a record that still counts as empty, which no invariant over the block
  can describe.
- A trailing partial record (`size % 32 != 0`) is not part of the array.
  Only the probe's reads of it are modelled, and they are stray reads.
- The key and value of `putKeyAndValue` are written as one record update;
  the source makes two 8-byte writes. No one can observe the difference
  without concurrency.
- `toString` and `getMapRecord`: a debugging dump, not part of the map's
  behaviour.
- `MapFullException` is the `MapFull` outcome; its message and class are
  not modelled.
- Concurrency: the source is not thread-safe and the model is
  single-threaded.
- The random keys of the `sizeNotPowerOfTwo` and `stressTest` tests:
  randomness is not modelled. `Scenarios.PutThenGet` states their check
  for every key.
- The `put`, `prevValue` and `get` tests use 256 records, `stressTest`
  32768 and `sizeNotPowerOfTwo` 32769. `Scenarios.EightRecords` is the
  `put` and `get` tests at eight records.
- Scenarios.PutThenGet: for random keys, the tests expect get to answer the
  value put whenever put returns. The model states that only when put
  succeeds, because put of a new key can also stray or throw.
