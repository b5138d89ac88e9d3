/** The map object itself: a block of `mapSize` 32-byte records starting at
    `startAddress`, read and written one 8-byte field at a time, with the
    hash chosen at construction. Addresses are absolute, as in the source;
    a read at an address that is not the start of one of the block's records
    is where the model stops (`OutsideBlock`, `Strayed`). */
module OffHeap {
  import opened Hashing
  import opened Layout

  /** What `put` and `get` end in. `MapFull` is the `MapFullException`;
      `OutsideBlock` is a home address outside the block; `StrayRead` is a
      probe that reached an address outside the records. */
  datatype Outcome = Ok(value: Long) | MapFull | OutsideBlock | StrayRead

  /** What the two-way probe ends in: a free record's address, the
      `MapFullException`, or a read outside the records. */
  datatype Probe = Free(address: int) | Full | Strayed

  /** The hash function as a value the layout invariant can use. */
  function HashOf(hs: Hasher): Long -> int
    requires WellFormed(hs)
  {
    (k: Long) => Apply(hs, k)
  }

  /** The probe started at slot `ci` of `n` reads the slots of the window
      [WindowLo, WindowHi) before it returns or strays. The right cursor
      starts one slot further when `n` is odd. */
  function WindowLo(ci: int, n: int, aligned: bool): int
  {
    var r0 := ci + n % 2;
    if (aligned && r0 == n) || ci + r0 < n then 0 else ci + r0 - n
  }

  function WindowHi(ci: int, n: int, aligned: bool): int
  {
    var r0 := ci + n % 2;
    if aligned || ci + r0 >= n then n else ci + r0 + 1
  }

  /** Where the probe for a new key of hash `h` starts when its home slot is
      taken: the home itself while no chain of hash `h` exists (the home was
      stolen and its `origin` is still 0), the chain's last link otherwise. */
  function ProbeStart(sh: Shape, h: nat): nat
    requires h < |sh.chains|
  {
    if sh.chains[h] == [] then h else Last(sh.chains[h])
  }

  /** The block after a new key lands in the free slot `f`, linked from slot
      `p` through p's `origin` (a stolen home) or p's `next` (a chain tail). */
  function Attach(mem: seq<Record>, start: int, p: nat, f: nat, viaOrigin: bool, key: Long, value: Long): (mem': seq<Record>)
    requires Fits(start, |mem|) && p < |mem| && f < |mem| && p != f
    ensures |mem'| == |mem|
    ensures forall i | 0 <= i < |mem| && i != p && i != f :: mem'[i] == mem[i]
    ensures mem'[f] == Record(key, value, mem[f].next, mem[f].origin)
    ensures mem'[p].key == mem[p].key && mem'[p].value == mem[p].value
    ensures viaOrigin ==> mem'[p].next == mem[p].next && mem'[p].origin == AddressOf(start, f)
    ensures !viaOrigin ==> mem'[p].origin == mem[p].origin && mem'[p].next == AddressOf(start, f)
  {
    var linked := if viaOrigin then mem[p := mem[p].(origin := AddressOf(start, f))]
                  else mem[p := mem[p].(next := AddressOf(start, f))];
    WriteKeyAndValue(linked, f, key, value)
  }

  /** `mem'` is `mem` with a new key linked in behind the record `t`: the
      free record `f` takes the key and the value, and `t` points at it
      through its `origin` (a stolen home) or its `next` (a chain's last
      link), a field that held 0 until then. Nothing else changes. */
  ghost predicate LinkedBehind(mem: seq<Record>, mem': seq<Record>, start: int, t: nat, f: nat, viaOrigin: bool, key: Long, value: Long)
  {
    && Fits(start, |mem|)
    && t < |mem| && f < |mem| && f != t
    && (if viaOrigin then mem[t].origin == 0 else mem[t].next == 0)
    && mem[f].key == 0
    && mem' == Attach(mem, start, t, f, viaOrigin, key, value)
  }

  class LongLongMap {
    const startAddress: Long
    const addressSize: Long
    /** size >> 5: the number of whole records in the block. */
    const mapSize: nat
    const hasher: Hasher
    /** The block's records; a trailing partial record is not part of it. */
    const slots: array<Record>
    /** The hasher as a function value, for the layout invariant. */
    ghost const hashFunction: Long -> int
    /** The ghost view of the chains (see Layout.Shape). */
    ghost var shape: Shape

    /** The block's geometry, fixed at construction: `mapSize` whole records
        and less than one record's worth of trailing bytes, all at positive
        addresses a `long` can hold. */
    ghost predicate Block()
    {
      && 0 < startAddress
      && 0 <= addressSize
      && startAddress + addressSize <= LONG_MAX
      && RECORD_SIZE * mapSize <= addressSize < RECORD_SIZE * mapSize + RECORD_SIZE
      && slots.Length == mapSize
    }

    /** The geometry and the hasher, fixed at construction. */
    ghost predicate Geometry()
    {
      && Block()
      && WellFormed(hasher)
      && (forall k {:trigger Apply(hasher, k)} :: hashFunction(k) == Apply(hasher, k))
      && (forall k: Long :: mapSize == 0 || -(mapSize as int) < hashFunction(k) < mapSize)
    }

    /** The hasher is the one initHasher picks for the record count. */
    ghost predicate HasherOfSize()
    {
      mapSize <= LONG_MAX && hasher == InitHasher(mapSize)
    }

    ghost predicate Valid()
      reads this, slots
    {
      Geometry() && Inv(slots[..], startAddress, hashFunction, shape)
    }

    /** The key/value pairs the map holds. */
    ghost function Contents(): (m: map<Long, Long>)
      reads this, slots
      requires Valid()
      ensures 0 !in m
    {
      Layout.Contents(slots[..], startAddress, hashFunction, shape)
    }

    /** The block's size is a whole number of records. */
    ghost predicate Aligned()
    {
      addressSize == RECORD_SIZE * mapSize
    }

    /** The key's home slot lies inside the block. */
    ghost predicate InBlock(key: Long)
    {
      0 <= hashFunction(key) < mapSize
    }

    /** The probe for a new key of hash `h` whose home slot is taken reaches
        a free slot: not every slot of its window is taken. */
    ghost predicate ProbeFinds(h: nat)
      reads this, slots
      requires Valid() && h < mapSize
    {
      var p := ProbeStart(shape, h);
      !AllTaken(WindowLo(p, mapSize, Aligned()), WindowHi(p, mapSize, Aligned()))
    }

    /** Slot `i` exists and holds a key. */
    ghost predicate Taken(i: int)
      reads slots
      requires Block()
    {
      0 <= i < mapSize && slots[i].key != 0
    }

    /** Every slot of [lo, hi) is taken. */
    ghost predicate AllTaken(lo: int, hi: int)
      reads slots
      requires Block()
      decreases hi - lo
    {
      lo >= hi || (Taken(lo) && AllTaken(lo + 1, hi))
    }

    lemma {:induction false} AllTakenMeans(lo: int, hi: int)
      requires Block()
      ensures AllTaken(lo, hi) <==> forall i | lo <= i < hi :: Taken(i)
      decreases hi - lo
    {
      if lo < hi {
        AllTakenMeans(lo + 1, hi);
      }
    }

    /** The probe for a new key of hash `h` ends in `MapFullException`. */
    ghost predicate ProbeReportsFull(h: nat)
      reads this, slots
      requires Valid() && h < mapSize
    {
      !ProbeFinds(h) && Aligned() && ProbeStart(shape, h) + mapSize % 2 == mapSize
    }

    /** What put(key, value) answers in the current state: OutsideBlock
        when the key's home lies outside the block; the previous value (0 for
        a new key) when the key is stored, its home is free or the probe finds
        a free record; otherwise the probe's MapFullException or stray read. */
    ghost function PutOutcome(key: Long): Outcome
      reads this, slots
      requires Valid()
    {
      var h := hashFunction(key);
      if !(0 <= h < mapSize) then OutsideBlock
      else if key in Contents() || slots[h].key == 0 || ProbeFinds(h) then Ok(Lookup(Contents(), key))
      else if ProbeReportsFull(h) then MapFull
      else StrayRead
    }

    /** The probe's start is a slot of the block. */
    lemma ProbeStartInBlock(h: nat)
      requires Valid() && h < mapSize
      ensures ProbeStart(shape, h) < mapSize
    {
      if shape.chains[h] != [] {
        ChainTail(slots[..], startAddress, hashFunction, shape, h);
      }
    }

    /** A stored key's home lies in the block. */
    lemma StoredInBlock(key: Long)
      requires Valid() && key in Contents()
      ensures InBlock(key)
    {
      assert key in shape.where;
    }

    /** The record holding a stored key. */
    ghost function RecordOf(key: Long): (s: nat)
      reads this, slots
      requires Valid() && key in Contents()
      ensures s < mapSize && slots[s].key == key
    {
      shape.where[key]
    }

    /** A record holding a key is that key's record. */
    lemma RecordAt(s: nat)
      requires Valid() && s < mapSize && slots[s].key != 0
      ensures slots[s].key in Contents() && RecordOf(slots[s].key) == s
    {
      assert slots[..][s].key != 0;
    }

    /** MapFullException is thrown only when every record holds a key, and
        only for a key that is not stored. */
    lemma MapFullMeansFull(key: Long)
      requires Valid() && PutOutcome(key) == MapFull
      ensures key !in Contents()
      ensures forall i | 0 <= i < mapSize :: slots[i].key != 0
    {
      var h := hashFunction(key);
      assert 0 <= h < mapSize && key !in Contents();
      assert ProbeReportsFull(h);
      var ci := ProbeStart(shape, h);
      assert Aligned() && ci + mapSize % 2 == mapSize;
      assert WindowLo(ci, mapSize, true) == 0 && WindowHi(ci, mapSize, true) == mapSize;
      assert !AllTaken(0, mapSize) == ProbeFinds(h);
      AllTakenMeans(0, mapSize);
      forall i | 0 <= i < mapSize
        ensures slots[i].key != 0
      {
        assert Taken(i);
      }
    }

    /** A new key whose home is in a block with every record taken is never
        placed: put throws MapFullException or reads outside the records, and
        with an even record count it always reads outside them. */
    lemma FullBlockOutcome(key: Long)
      requires Valid() && InBlock(key) && key !in Contents()
      requires forall i | 0 <= i < mapSize :: slots[i].key != 0
      ensures PutOutcome(key) == MapFull || PutOutcome(key) == StrayRead
      ensures mapSize % 2 == 0 ==> PutOutcome(key) == StrayRead
    {
      var h := hashFunction(key);
      var ci := ProbeStart(shape, h);
      ProbeStartInBlock(h);
      var lo, hi := WindowLo(ci, mapSize, Aligned()), WindowHi(ci, mapSize, Aligned());
      AllTakenMeans(lo, hi);
      assert forall i | lo <= i < hi :: Taken(i);
      assert !ProbeFinds(h);
    }

    // -------------------------------------------------------------------
    // Addresses and field access

    /** The address of the first byte of one of the block's records. */
    predicate IsRecordAddress(a: int)
    {
      startAddress <= a < startAddress + RECORD_SIZE * mapSize && (a - startAddress) % RECORD_SIZE == 0
    }

    function SlotOf(a: int): (i: nat)
      requires IsRecordAddress(a)
      ensures i < mapSize && AddressOf(startAddress, i) == a
    {
      (a - startAddress) / RECORD_SIZE
    }

    lemma AddressSlot(i: int)
      ensures IsRecordAddress(AddressOf(startAddress, i)) <==> 0 <= i < mapSize
      ensures 0 <= i < mapSize ==> SlotOf(AddressOf(startAddress, i)) == i
    {
      assert AddressOf(startAddress, i) - startAddress == RECORD_SIZE * i;
    }

    /** An address strictly between two neighbouring records' addresses. */
    lemma BetweenRecords(a: int, i: int)
      requires AddressOf(startAddress, i) < a < AddressOf(startAddress, i + 1)
      ensures !IsRecordAddress(a)
    {
      var d := a - startAddress;
      DivModUnique(d, RECORD_SIZE, i, d - RECORD_SIZE * i);
    }

    /** getKeyOnAddress and its three siblings: one field of one record. */
    function KeyOn(a: int): (w: Long)
      reads slots
      requires Block() && IsRecordAddress(a)
      ensures forall i | 0 <= i < mapSize && a == AddressOf(startAddress, i) :: w == slots[i].key
    {
      slots[SlotOf(a)].key
    }

    function ValueOn(a: int): (w: Long)
      reads slots
      requires Block() && IsRecordAddress(a)
      ensures forall i | 0 <= i < mapSize && a == AddressOf(startAddress, i) :: w == slots[i].value
    {
      slots[SlotOf(a)].value
    }

    function NextOn(a: int): (w: Long)
      reads slots
      requires Block() && IsRecordAddress(a)
      ensures forall i | 0 <= i < mapSize && a == AddressOf(startAddress, i) :: w == slots[i].next
    {
      slots[SlotOf(a)].next
    }

    function OriginOn(a: int): (w: Long)
      reads slots
      requires Block() && IsRecordAddress(a)
      ensures forall i | 0 <= i < mapSize && a == AddressOf(startAddress, i) :: w == slots[i].origin
    {
      slots[SlotOf(a)].origin
    }

    /** hash << 5, wrapping like Java's shift. */
    function HashToOffset(hash: Long): (offset: Long)
      ensures LONG_MIN <= RECORD_SIZE * hash <= LONG_MAX ==> offset == RECORD_SIZE * hash
      ensures (offset - RECORD_SIZE * hash) % TWO_64 == 0
    {
      Wrap(hash * RECORD_SIZE)
    }

    function MapAddressOnHash(hash: Long): (a: Long)
      ensures Block() && 0 <= hash < mapSize ==> a == AddressOf(startAddress, hash)
    {
      Wrap(startAddress + HashToOffset(hash))
    }

    predicate HashesNotEquals(prevKey: Long, curHash: Long)
      requires WellFormed(hasher)
    {
      Apply(hasher, prevKey) != curHash
    }

    /** hashesNotEquals on a taken home and its own hash holds exactly when
        a key of another hash stole the home: the home is then not the first
        link of its hash's chain, and its `origin` leads to that link (0
        while the chain is empty). */
    lemma HomeStolen(h: nat)
      requires Valid() && h < mapSize && slots[h].key != 0
      ensures h <= LONG_MAX
      ensures HashesNotEquals(slots[h].key, h) <==> !(shape.chains[h] != [] && shape.chains[h][0] == h)
      ensures HashesNotEquals(slots[h].key, h) ==>
                slots[h].origin == if shape.chains[h] == [] then 0 else AddressOf(startAddress, shape.chains[h][0])
    {
      var c := shape.chains[h];
      assert HomeOk(slots[..], startAddress, hashFunction, c, h);
      assert hashFunction(slots[h].key) == Apply(hasher, slots[h].key);
      if c != [] {
        assert LinkOk(slots[..], startAddress, hashFunction, c, h, 0);
      }
    }

    /** A key's home address is a record address exactly when its hash lies
        in [0, mapSize), and then it is that slot's address. */
    lemma HomeAddress(key: Long)
      requires Geometry()
      ensures IsRecordAddress(MapAddressOnHash(Apply(hasher, key))) <==> InBlock(key)
      ensures InBlock(key) ==> SlotOf(MapAddressOnHash(Apply(hasher, key))) == Apply(hasher, key)
    {
      var hash := Apply(hasher, key);
      if mapSize > 0 {
        assert -(mapSize as int) < hashFunction(key) < mapSize;
        assert MapAddressOnHash(hash) == startAddress + RECORD_SIZE * hash;
        AddressSlot(hash);
      }
    }

    // -------------------------------------------------------------------
    // Construction

    /** The block of `size` bytes at `address`, zeroed. */
    constructor (address: Long, size: Long)
      requires 0 < address && 0 <= size && address + size <= LONG_MAX
      ensures Valid() && Contents() == map[]
      ensures HasherOfSize()
      ensures startAddress == address && addressSize == size && mapSize == size / RECORD_SIZE
      ensures fresh(slots) && forall i | 0 <= i < slots.Length :: slots[i] == EMPTY
    {
      startAddress := address;
      addressSize := size;
      var n := size / RECORD_SIZE;
      mapSize := n;
      hasher := InitHasher(n);
      hashFunction := HashOf(InitHasher(n));
      slots := new Record[n](_ => EMPTY);
      shape := Shape(seq(n, _ => []), map[]);
      new;
      assert slots[..] == seq(n, _ => EMPTY);
      forall k: Long
        ensures n == 0 || -n < hashFunction(k) < n
      {
        if n > 0 { HashInRange(n, k); }
      }
      ZeroedBlockValid(n, address, hashFunction);
    }

    // -------------------------------------------------------------------
    // get

    /** get(k): the stored value, or 0 for an absent key. */
    method Get(key: Long) returns (r: Outcome)
      requires Valid()
      ensures r == if InBlock(key) then Ok(Lookup(Contents(), key)) else OutsideBlock
    {
      r := GetV(Apply(hasher, key), key);
    }

    /** getV: the home record, then the chain its `origin` (a home taken by
        another hash) or its `next` (the chain's own home) leads to. */
    method GetV(hash: Long, key: Long) returns (r: Outcome)
      requires Valid() && hash == Apply(hasher, key)
      ensures r == if 0 <= hash < mapSize then Ok(Lookup(Contents(), key)) else OutsideBlock
    {
      var keyAddress := MapAddressOnHash(hash);
      HomeAddress(key);
      if !IsRecordAddress(keyAddress) {
        return OutsideBlock;
      }
      ghost var mem, h := slots[..], SlotOf(keyAddress);
      ghost var c := shape.chains[h];
      var keyOnAddress := KeyOn(keyAddress);
      if keyOnAddress == key || keyOnAddress == 0 {
        if keyOnAddress == 0 {
          assert HomeOk(mem, startAddress, hashFunction, c, h);
          MissingFromChain(mem, startAddress, hashFunction, shape, key, h);
        } else {
          FoundKey(mem, startAddress, hashFunction, shape, h, key);
        }
        return Ok(ValueOn(keyAddress));
      }
      var nextAddress := if HashesNotEquals(keyOnAddress, hash) then OriginOn(keyAddress) else NextOn(keyAddress);
      FromHome(mem, startAddress, hashFunction, shape, h, key);
      ghost var j0 := if hashFunction(keyOnAddress) == h then 1 else 0;
      if nextAddress == 0 {
        return Ok(0);
      }
      var value := GetCollision(nextAddress, key, c[j0..]);
      r := Ok(value);
    }

    /** getCollision: follows `next` from `address`, the first of the linked
        slots `c`, until it reads `key` or a `next` of 0. */
    method GetCollision(address: int, key: Long, ghost c: seq<nat>) returns (value: Long)
      requires Block() && c != [] && Linked(slots[..], startAddress, c)
      requires address == AddressOf(startAddress, c[0])
      ensures value == ChainLookup(slots[..], c, key)
    {
      ghost var mem := slots[..];
      AddressSlot(c[0]);
      var address := address;
      var curKey := KeyOn(address);
      ghost var j := 0;
      while curKey != key && NextOn(address) != 0
        invariant 0 <= j < |c| && c[j] < mapSize
        invariant address == AddressOf(startAddress, c[j]) && IsRecordAddress(address) && SlotOf(address) == c[j]
        invariant curKey == mem[c[j]].key
        invariant ChainLookup(mem, c[j..], key) == ChainLookup(mem, c, key)
        decreases |c| - j
      {
        assert LinksOn(mem, startAddress, c, j);
        assert LinksOn(mem, startAddress, c, j + 1);
        assert c[j..][1..] == c[j + 1..];
        address := NextOn(address);
        j := j + 1;
        AddressSlot(c[j]);
        curKey := KeyOn(address);
      }
      assert LinksOn(mem, startAddress, c, j);
      assert c[j..][1..] == c[j + 1..];
      if key == curKey {
        return ValueOn(address);
      }
      return 0;
    }

    // -------------------------------------------------------------------
    // put

    /** put(k, v): the previous value (0 for a new key), with `k` now mapped
        to `v`; or MapFullException or a read outside the records, with
        nothing changed. */
    method Put(key: Long, value: Long) returns (r: Outcome)
      requires Valid() && key != 0
      modifies this, slots
      ensures Valid()
      ensures r == old(PutOutcome(key))
      ensures r.Ok? ==> Contents() == old(Contents())[key := value]
      ensures !r.Ok? ==> slots[..] == old(slots[..]) && shape == old(shape)
      ensures old(InBlock(key) && slots[hashFunction(key)].key == 0) ==>
                slots[..] == old(slots[..])[hashFunction(key) := Record(key, value, 0, 0)]
      ensures old(key in Contents()) ==>
                slots[..] == WriteKeyAndValue(old(slots[..]), old(RecordOf(key)), key, value)
      ensures r.Ok? && old(key !in Contents() && InBlock(key) && slots[hashFunction(key)].key != 0) ==>
                exists f: nat ::
                  && old(ProbeRun(ProbeStart(shape, hashFunction(key)), Free(AddressOf(startAddress, f))))
                  && LinkedBehind(old(slots[..]), slots[..], startAddress, old(ProbeStart(shape, hashFunction(key))), f,
                                  old(shape.chains[hashFunction(key)] == []), key, value)
    {
      r := PutV(Apply(hasher, key), key, value);
    }

    /** putV: the home record takes the key when it is free or holds it;
        otherwise the key goes down the chain of its hash, reached through
        the home's `origin` when another hash took the home. The first key
        of a stolen home is placed by a probe from the home. */
    method PutV(hash: Long, key: Long, value: Long) returns (r: Outcome)
      requires Valid() && key != 0 && hash == Apply(hasher, key)
      modifies this, slots
      ensures Valid()
      ensures r == old(PutOutcome(key))
      ensures r.Ok? ==> Contents() == old(Contents())[key := value]
      ensures !r.Ok? ==> slots[..] == old(slots[..]) && shape == old(shape)
      ensures old(InBlock(key) && slots[hashFunction(key)].key == 0) ==>
                slots[..] == old(slots[..])[hashFunction(key) := Record(key, value, 0, 0)]
      ensures old(key in Contents()) ==>
                slots[..] == WriteKeyAndValue(old(slots[..]), old(RecordOf(key)), key, value)
      ensures r.Ok? && old(key !in Contents() && InBlock(key) && slots[hashFunction(key)].key != 0) ==>
                exists f: nat ::
                  && old(ProbeRun(ProbeStart(shape, hashFunction(key)), Free(AddressOf(startAddress, f))))
                  && LinkedBehind(old(slots[..]), slots[..], startAddress, old(ProbeStart(shape, hashFunction(key))), f,
                                  old(shape.chains[hashFunction(key)] == []), key, value)
    {
      var address := MapAddressOnHash(hash);
      HomeAddress(key);
      if !IsRecordAddress(address) {
        return OutsideBlock;
      }
      ghost var h := SlotOf(address);
      var prevKey := KeyOn(address);
      if prevKey == 0 || prevKey == key {
        ghost var sh' := shape;
        if prevKey == 0 {
          HomeLands(key, value, h);
          sh' := Shape(shape.chains[h := [h]], shape.where[key := h]);
        } else {
          ReplaceLands(key, value, h);
          RecordAt(h);
        }
        var prev := Store(address, key, value, sh');
        return Ok(prev);
      }
      assert HomeOk(slots[..], startAddress, hashFunction, shape.chains[h], h);
      if HashesNotEquals(prevKey, hash) {
        var originAddress := OriginOn(address);
        if originAddress == 0 {
          r := PutBehindStolenHome(address, key, value, h);
          return;
        }
        address := originAddress;
      }
      r := PutCollision(address, key, value, h);
    }

    /** The branch of putV for a home taken by another hash whose `origin`
        is still 0: the probe from the home finds the free record, the home's
        `origin` is pointed at it and the key and value are written there. */
    method PutBehindStolenHome(address: int, key: Long, value: Long, ghost h: nat) returns (r: Outcome)
      requires Valid() && key != 0 && h < mapSize && hashFunction(key) == h && address == AddressOf(startAddress, h)
      requires slots[h].key != 0 && hashFunction(slots[h].key) != h && slots[h].origin == 0
      modifies this, slots
      ensures Valid()
      ensures r == old(PutOutcome(key))
      ensures r.Ok? ==> Contents() == old(Contents())[key := value]
      ensures !r.Ok? ==> slots[..] == old(slots[..]) && shape == old(shape)
      ensures r.Ok? ==>
                exists f: nat ::
                  && old(ProbeRun(h, Free(AddressOf(startAddress, f))))
                  && LinkedBehind(old(slots[..]), slots[..], startAddress, h, f, true, key, value)
    {
      StolenHomeProbe(key, h);
      AddressSlot(h);
      var p := ProbeFor(address, key, h);
      if !p.Free? {
        return Answer(p);
      }
      StolenHomeLands(key, value, h, p.address);
      ghost var f := SlotOf(p.address);
      ghost var mem := slots[..];
      var prev := Land(address, p.address, key, value, true, Shape(shape.chains[h := [f]], shape.where[key := f]));
      assert old(ProbeRun(h, Free(AddressOf(startAddress, f))));
      assert LinkedBehind(mem, slots[..], startAddress, h, f, true, key, value);
      r := Ok(prev);
    }

    /** A home taken by another hash with `origin` 0: no key of its hash is
        stored, and the probe starts at the home. */
    lemma StolenHomeProbe(key: Long, h: nat)
      requires Valid() && key != 0 && h < mapSize && hashFunction(key) == h
      requires slots[h].key != 0 && hashFunction(slots[h].key) != h && slots[h].origin == 0
      ensures key !in Contents() && ProbeStart(shape, h) == h
    {
      assert HomeOk(slots[..], startAddress, hashFunction, shape.chains[h], h);
      MissingFromChain(slots[..], startAddress, hashFunction, shape, key, h);
    }

    /** The first key of a stolen home lands in the free record at `a`. */
    lemma StolenHomeLands(key: Long, value: Long, h: nat, a: int)
      requires Valid() && key != 0 && h < mapSize && hashFunction(key) == h
      requires slots[h].key != 0 && hashFunction(slots[h].key) != h && slots[h].origin == 0
      requires IsRecordAddress(a) && slots[SlotOf(a)].key == 0
      ensures var f := SlotOf(a);
              var mem' := Attach(slots[..], startAddress, h, f, true, key, value);
              var sh' := Shape(shape.chains[h := [f]], shape.where[key := f]);
              && f != h && slots[f].value == 0
              && Inv(mem', startAddress, hashFunction, sh')
              && Layout.Contents(mem', startAddress, hashFunction, sh') == Contents()[key := value]
    {
      var f := SlotOf(a);
      PlaceBehindStolenHome(slots[..], startAddress, hashFunction, shape, key, value, h, f);
      assert slots[..][f] == EMPTY;
    }

    /** putCollision: follows `next` from the first link of the chain of the
        key's hash until it reads the key, whose value it replaces, or the
        chain's last link, whose `next` it points at the free record the probe
        from there finds. */
    method PutCollision(address: int, key: Long, value: Long, ghost h: nat) returns (r: Outcome)
      requires Valid() && key != 0 && h < mapSize && hashFunction(key) == h && slots[h].key != 0
      requires shape.chains[h] != [] && address == AddressOf(startAddress, shape.chains[h][0])
      modifies this, slots
      ensures Valid()
      ensures r == old(PutOutcome(key))
      ensures r.Ok? ==> Contents() == old(Contents())[key := value]
      ensures !r.Ok? ==> slots[..] == old(slots[..]) && shape == old(shape)
      ensures old(key in Contents()) ==>
                slots[..] == WriteKeyAndValue(old(slots[..]), old(RecordOf(key)), key, value)
      ensures r.Ok? && old(key !in Contents()) ==>
                exists f: nat ::
                  && old(ProbeRun(Last(shape.chains[h]), Free(AddressOf(startAddress, f))))
                  && LinkedBehind(old(slots[..]), slots[..], startAddress, old(Last(shape.chains[h])), f, false, key, value)
    {
      ghost var c := shape.chains[h];
      ghost var outcome := PutOutcome(key);
      ChainLinked(h);
      var address, j := WalkChain(address, key, c);
      assert PutOutcome(key) == outcome;
      if KeyOn(address) == key {
        r := Replace(address, key, value);
        return;
      }
      TailReached(key, h, j);
      r := PutBehindTail(address, key, value, h);
    }

    /** A new key whose chain ends at `address`: the probe from there finds
        the free record that the chain's last `next` then links to. */
    method PutBehindTail(address: int, key: Long, value: Long, ghost h: nat) returns (r: Outcome)
      requires Valid() && key != 0 && h < mapSize && hashFunction(key) == h && slots[h].key != 0
      requires key !in Contents() && shape.chains[h] != []
      requires ProbeStart(shape, h) < mapSize && address == AddressOf(startAddress, ProbeStart(shape, h))
      requires slots[ProbeStart(shape, h)].key != 0
      modifies this, slots
      ensures Valid()
      ensures r == old(PutOutcome(key))
      ensures r.Ok? ==> Contents() == old(Contents())[key := value]
      ensures !r.Ok? ==> slots[..] == old(slots[..]) && shape == old(shape)
      ensures r.Ok? ==>
                exists f: nat ::
                  && old(ProbeRun(Last(shape.chains[h]), Free(AddressOf(startAddress, f))))
                  && LinkedBehind(old(slots[..]), slots[..], startAddress, old(Last(shape.chains[h])), f, false, key, value)
    {
      var p := ProbeFor(address, key, h);
      if !p.Free? {
        return Answer(p);
      }
      ghost var t, f := ProbeStart(shape, h), SlotOf(p.address);
      AddressSlot(t);
      AppendLands(key, value, h, t, f);
      ghost var mem := slots[..];
      var prev := Land(address, p.address, key, value, false, Shape(shape.chains[h := shape.chains[h] + [f]], shape.where[key := f]));
      assert old(ProbeRun(t, Free(AddressOf(startAddress, f))));
      assert LinkedBehind(mem, slots[..], startAddress, t, f, false, key, value);
      r := Ok(prev);
    }

    /** The chain of hash `h` is linked through `next`. */
    lemma ChainLinked(h: nat)
      requires Valid() && h < mapSize
      ensures Linked(slots[..], startAddress, shape.chains[h])
    {
      ChainSuffixLinked(slots[..], startAddress, hashFunction, shape, h, 0);
      assert shape.chains[h][0..] == shape.chains[h];
    }

    /** put of a key already stored at `address`: its value is replaced and
        the previous one answered. */
    method Replace(address: int, key: Long, value: Long) returns (r: Outcome)
      requires Valid() && key != 0 && IsRecordAddress(address) && slots[SlotOf(address)].key == key
      modifies this, slots
      ensures Valid()
      ensures r == old(PutOutcome(key)) && r.Ok?
      ensures Contents() == old(Contents())[key := value]
      ensures old(key in Contents() && RecordOf(key) == SlotOf(address))
      ensures slots[..] == WriteKeyAndValue(old(slots[..]), SlotOf(address), key, value)
    {
      ReplaceLands(key, value, SlotOf(address));
      RecordAt(SlotOf(address));
      var prev := Store(address, key, value, shape);
      r := Ok(prev);
    }

    /** The loop of putCollision: follows `next` from `address`, the first of
        the linked slots `c`, to the first of them that holds `key`, or to the
        last of them when none does. */
    method WalkChain(address: int, key: Long, ghost c: seq<nat>) returns (a: int, ghost j: nat)
      requires Block() && c != [] && Linked(slots[..], startAddress, c)
      requires address == AddressOf(startAddress, c[0])
      ensures j < |c| && c[j] < mapSize && IsRecordAddress(a) && a == AddressOf(startAddress, c[j]) && SlotOf(a) == c[j]
      ensures forall i | 0 <= i < j :: c[i] < |slots[..]| && slots[..][c[i]].key != key
      ensures slots[c[j]].key == key || slots[c[j]].next == 0
    {
      AddressSlot(c[0]);
      a := address;
      var curKey := KeyOn(a);
      j := 0;
      while key != curKey && NextOn(a) != 0
        invariant 0 <= j < |c| && c[j] < mapSize
        invariant a == AddressOf(startAddress, c[j]) && IsRecordAddress(a) && SlotOf(a) == c[j]
        invariant curKey == slots[c[j]].key
        invariant forall i | 0 <= i < j :: c[i] < mapSize && slots[c[i]].key != key
        decreases |c| - j
      {
        assert LinksOn(slots[..], startAddress, c, j);
        assert j + 1 < |c| && NextOn(a) == AddressOf(startAddress, c[j + 1]);
        assert LinksOn(slots[..], startAddress, c, j + 1);
        a := NextOn(a);
        j := j + 1;
        AddressSlot(c[j]);
        curKey := KeyOn(a);
      }
    }

    /** A walk down the chain of hash `h` that read no `key` and stopped at
        link `j` because its `next` is 0 stopped at the chain's last link, the
        probe's start; the key is not stored. */
    lemma TailReached(key: Long, h: nat, j: nat)
      requires Valid() && h < mapSize && hashFunction(key) == h && j < |shape.chains[h]|
      requires forall i | 0 <= i < j :: shape.chains[h][i] < |slots[..]| && slots[..][shape.chains[h][i]].key != key
      requires shape.chains[h][j] < mapSize && slots[shape.chains[h][j]].key != key
      requires slots[shape.chains[h][j]].next == 0
      ensures key !in Contents() && j == |shape.chains[h]| - 1
      ensures ProbeStart(shape, h) == shape.chains[h][j] && slots[shape.chains[h][j]].key != 0
    {
      MissingAtTail(slots[..], startAddress, hashFunction, shape, key, h, j);
    }

    /** A key found in slot `s`: put answers its value and rewrites it. */
    lemma ReplaceLands(key: Long, value: Long, s: nat)
      requires Valid() && key != 0 && s < mapSize && slots[s].key == key
      ensures PutOutcome(key) == Ok(slots[s].value)
      ensures Inv(WriteKeyAndValue(slots[..], s, key, value), startAddress, hashFunction, shape)
      ensures Layout.Contents(WriteKeyAndValue(slots[..], s, key, value), startAddress, hashFunction, shape) == Contents()[key := value]
    {
      ReplaceValue(slots[..], startAddress, hashFunction, shape, key, value, s);
      FoundKey(slots[..], startAddress, hashFunction, shape, s, key);
    }

    /** A free home: put answers 0 and the key starts its chain there. */
    lemma HomeLands(key: Long, value: Long, h: nat)
      requires Valid() && key != 0 && h < mapSize && hashFunction(key) == h && slots[h].key == 0
      ensures PutOutcome(key) == Ok(0) && slots[h] == EMPTY
      ensures var sh' := Shape(shape.chains[h := [h]], shape.where[key := h]);
              && Inv(WriteKeyAndValue(slots[..], h, key, value), startAddress, hashFunction, sh')
              && Layout.Contents(WriteKeyAndValue(slots[..], h, key, value), startAddress, hashFunction, sh') == Contents()[key := value]
    {
      PlaceInEmptyHome(slots[..], startAddress, hashFunction, shape, key, value, h);
      assert slots[..][h] == EMPTY;
    }

    /** A new key behind the chain's last link lands in the free slot `f`. */
    lemma AppendLands(key: Long, value: Long, h: nat, t: nat, f: nat)
      requires Valid() && key != 0 && h < mapSize && hashFunction(key) == h
      requires key !in Contents() && shape.chains[h] != []
      requires t == Last(shape.chains[h]) && t < mapSize && f < mapSize && t != f && slots[f].key == 0
      ensures var mem' := Attach(slots[..], startAddress, t, f, false, key, value);
              var sh' := Shape(shape.chains[h := shape.chains[h] + [f]], shape.where[key := f]);
              && slots[f].value == 0 && slots[t].next == 0
              && Inv(mem', startAddress, hashFunction, sh')
              && Layout.Contents(mem', startAddress, hashFunction, sh') == Contents()[key := value]
    {
      ChainTail(slots[..], startAddress, hashFunction, shape, h);
      AppendToChain(slots[..], startAddress, hashFunction, shape, key, value, h, t, f);
      assert slots[..][f] == EMPTY;
    }

    /** A key written in place at `address`, with the ghost shape `sh'` the
        layout lemmas computed for the new block. */
    method Store(address: int, key: Long, value: Long, ghost sh': Shape) returns (prev: Long)
      requires Valid() && IsRecordAddress(address)
      requires var mem' := WriteKeyAndValue(slots[..], SlotOf(address), key, value);
               && Inv(mem', startAddress, hashFunction, sh')
               && Layout.Contents(mem', startAddress, hashFunction, sh') == Contents()[key := value]
      modifies this, slots
      ensures Valid() && prev == old(slots[SlotOf(address)].value)
      ensures Contents() == old(Contents())[key := value]
      ensures slots[..] == WriteKeyAndValue(old(slots[..]), SlotOf(address), key, value)
    {
      prev := PutKeyAndValue(address, key, value);
      shape := sh';
    }

    /** What put answers for the probe's result when it does not write. */
    static function Answer(p: Probe): (r: Outcome)
      ensures r.Ok? <==> p.Free?
      ensures r == MapFull <==> p.Full?
    {
      match p
      case Free(_) => Ok(0)
      case Full => MapFull
      case Strayed => StrayRead
    }

    /** findFreeAddressForCollision from `address`, the slot where the probe
        for the new key `key` starts. */
    method ProbeFor(address: int, key: Long, ghost h: nat) returns (p: Probe)
      requires Valid() && key != 0 && h < mapSize && hashFunction(key) == h
      requires key !in Contents() && slots[h].key != 0
      requires ProbeStart(shape, h) < mapSize && address == AddressOf(startAddress, ProbeStart(shape, h))
      requires slots[ProbeStart(shape, h)].key != 0
      ensures PutOutcome(key) == Answer(p)
      ensures p.Free? ==> IsRecordAddress(p.address) && slots[SlotOf(p.address)].key == 0
      ensures ProbeRun(ProbeStart(shape, h), p)
    {
      AddressSlot(ProbeStart(shape, h));
      p := FindFreeAddressForCollision(address);
      ProbeOutcome(key, p);
    }

    /** When put has to probe (a new key whose home is taken), it answers what
        the probe from ProbeStart answers. */
    lemma ProbeOutcome(key: Long, p: Probe)
      requires Valid() && key != 0 && InBlock(key)
      requires key !in Contents() && slots[hashFunction(key)].key != 0
      requires ProbeStart(shape, hashFunction(key)) < mapSize
      requires ProbeSpec(ProbeStart(shape, hashFunction(key)), p)
      ensures PutOutcome(key) == Answer(p)
    {
      WindowAnswer(ProbeStart(shape, hashFunction(key)), p);
    }

    /** The probe answers a free record exactly when its window has one. */
    lemma WindowAnswer(ci: nat, p: Probe)
      requires Block() && ci < mapSize && ProbeSpec(ci, p)
      ensures p.Free? <==> !AllTaken(WindowLo(ci, mapSize, Aligned()), WindowHi(ci, mapSize, Aligned()))
    {
      var lo, hi := WindowLo(ci, mapSize, Aligned()), WindowHi(ci, mapSize, Aligned());
      AllTakenMeans(lo, hi);
      if p.Free? {
        var i := SlotOf(p.address);
        assert lo <= i < hi && !Taken(i);
      } else {
        forall i | lo <= i < hi
          ensures Taken(i)
        {
        }
      }
    }

    /** putKeyAndValue: the key and value fields of one record are written;
        the value they held is returned. */
    method PutKeyAndValue(address: int, key: Long, value: Long) returns (prev: Long)
      requires Block() && IsRecordAddress(address)
      modifies slots
      ensures prev == old(slots[SlotOf(address)].value)
      ensures slots[..] == WriteKeyAndValue(old(slots[..]), SlotOf(address), key, value)
    {
      var i := SlotOf(address);
      prev := slots[i].value;
      slots[i] := slots[i].(key := key, value := value);
    }

    /** A new key's insertion behind the record at `linkAddress`, with the
        ghost shape `sh'` the layout lemmas computed for the new block. */
    method Land(linkAddress: int, freeAddress: int, key: Long, value: Long, viaOrigin: bool, ghost sh': Shape) returns (prev: Long)
      requires Valid() && IsRecordAddress(linkAddress) && IsRecordAddress(freeAddress)
      requires SlotOf(linkAddress) != SlotOf(freeAddress) && slots[SlotOf(freeAddress)].value == 0
      requires var mem' := Attach(slots[..], startAddress, SlotOf(linkAddress), SlotOf(freeAddress), viaOrigin, key, value);
               && Inv(mem', startAddress, hashFunction, sh')
               && Layout.Contents(mem', startAddress, hashFunction, sh') == Contents()[key := value]
      modifies this, slots
      ensures Valid() && prev == 0
      ensures Contents() == old(Contents())[key := value]
      ensures slots[..] == Attach(old(slots[..]), startAddress, SlotOf(linkAddress), SlotOf(freeAddress), viaOrigin, key, value)
    {
      prev := WriteBehind(linkAddress, freeAddress, key, value, viaOrigin);
      shape := sh';
    }

    /** The last two steps of putV's and putCollision's insertions: the
        record at `linkAddress` is pointed at the free record at
        `freeAddress` (through `origin` or `next`), which then takes the key
        and value; the free record's old value is returned. */
    method WriteBehind(linkAddress: int, freeAddress: int, key: Long, value: Long, viaOrigin: bool) returns (prev: Long)
      requires Block() && IsRecordAddress(linkAddress) && IsRecordAddress(freeAddress)
      requires SlotOf(linkAddress) != SlotOf(freeAddress)
      modifies slots
      ensures prev == old(slots[SlotOf(freeAddress)].value)
      ensures slots[..] == Attach(old(slots[..]), startAddress, SlotOf(linkAddress), SlotOf(freeAddress), viaOrigin, key, value)
    {
      if viaOrigin {
        PutOriginOn(linkAddress, freeAddress);
      } else {
        PutNextOn(linkAddress, freeAddress);
      }
      prev := PutKeyAndValue(freeAddress, key, value);
    }

    /** putNextOnAddress. */
    method PutNextOn(address: int, next: Long)
      requires Block() && IsRecordAddress(address)
      modifies slots
      ensures slots[..] == old(slots[..])[SlotOf(address) := old(slots[SlotOf(address)]).(next := next)]
    {
      var i := SlotOf(address);
      slots[i] := slots[i].(next := next);
    }

    /** putOriginOnAddress. */
    method PutOriginOn(address: int, origin: Long)
      requires Block() && IsRecordAddress(address)
      modifies slots
      ensures slots[..] == old(slots[..])[SlotOf(address) := old(slots[SlotOf(address)]).(origin := origin)]
    {
      var i := SlotOf(address);
      slots[i] := slots[i].(origin := origin);
    }

    // -------------------------------------------------------------------
    // The two-way probe

    /** The record at address `a` exists and holds a key. */
    ghost predicate Occupied(a: int)
      reads slots
      requires Block()
    {
      IsRecordAddress(a) && slots[SlotOf(a)].key != 0
    }

    lemma OccupiedAt(i: int)
      requires Block()
      ensures Occupied(AddressOf(startAddress, i)) <==> 0 <= i < mapSize && slots[i].key != 0
    {
      AddressSlot(i);
    }

    /** The probe from the occupied slot `ci` answers `p`: a free slot of the
        window it reads, or, when it answers anything else, a window with no
        free slot; and `MapFullException` exactly when the block is a whole
        number of records and the right cursor started by wrapping to the
        first record. */
    ghost predicate ProbeSpec(ci: nat, p: Probe)
      reads slots
      requires Block() && ci < mapSize
    {
      var lo, hi := WindowLo(ci, mapSize, Aligned()), WindowHi(ci, mapSize, Aligned());
      && (p.Free? ==> IsRecordAddress(p.address) && slots[SlotOf(p.address)].key == 0 && lo <= SlotOf(p.address) < hi)
      && (!p.Free? ==> forall i | lo <= i < hi :: slots[i].key != 0)
      && (p.Full? <==> !p.Free? && Aligned() && ci + mapSize % 2 == mapSize)
    }

    /** The three tests after the second loop. */
    static function Exit(leftAddress: int, rightAddress: int, leftKey: Long, rightKey: Long): Probe
    {
      if leftKey == 0 then Free(leftAddress) else if rightKey == 0 then Free(rightAddress) else Full
    }

    // The probe step by step. Step 0 is where the cursors start; each step
    // moves the left cursor one record down and the right one one record up,
    // and reads the left record first.

    /** The right cursor starts by wrapping to the first record: the block is
        a whole number of records, their count is odd and the probe starts at
        the last one. Only the second loop runs. */
    ghost predicate CrossStart(ci: nat)
    {
      Aligned() && ci + mapSize % 2 == mapSize
    }

    /** The left cursor's address at step `t`: down from slot `ci` and, after
        the first loop has read the first record, down from
        `startAddress + addressSize - RECORD_SIZE`, where it is sent without
        reading it. */
    ghost function LeftAt(ci: nat, t: nat): int
    {
      if CrossStart(ci) || t <= ci then AddressOf(startAddress, ci - t)
      else startAddress + addressSize - RECORD_SIZE * (t - ci + 1)
    }

    /** The right cursor's address at step `t`: up from the first record when
        it started by wrapping, up from slot `ci + mapSize % 2` otherwise. */
    ghost function RightAt(ci: nat, t: nat): int
    {
      if CrossStart(ci) then AddressOf(startAddress, t)
      else AddressOf(startAddress, ci + mapSize % 2 + t)
    }

    /** Step `t` is one of the second loop, which also stops when the cursors
        meet. */
    ghost predicate MayMeet(ci: nat, t: nat)
    {
      CrossStart(ci) || t > ci
    }

    /** A step the probe goes on from: both cursors read occupied records and,
        in the second loop, stand at different addresses. */
    ghost predicate Passes(l: int, r: int, mayMeet: bool)
      reads slots
      requires Block()
    {
      Occupied(l) && Occupied(r) && !(mayMeet && l == r)
    }

    /** What a step the probe stops at answers, the left record being read
        first: a read outside the records stops the model, a free record is
        the answer, and cursors that meet on an occupied record are
        MapFullException. */
    ghost predicate Stop(l: int, r: int, mayMeet: bool, p: Probe)
      reads slots
      requires Block()
    {
      if !IsRecordAddress(l) then p == Strayed
      else if KeyOn(l) == 0 then p == Free(l)
      else if !IsRecordAddress(r) then p == Strayed
      else if KeyOn(r) == 0 then p == Free(r)
      else mayMeet && l == r && p == Full
    }

    /** Every step of the probe from `ci` before step `t` passes. */
    ghost predicate StepsPass(ci: nat, t: nat)
      reads slots
      requires Block()
    {
      forall s | 0 <= s < t :: Passes(LeftAt(ci, s), RightAt(ci, s), MayMeet(ci, s))
    }

    /** The probe from `ci` answers `p`, step by step: it passes every step
        before one where it stops with `p`. Every record read before that
        step is taken, and when both records of that step are free the
        answer is the left one. */
    ghost predicate ProbeRun(ci: nat, p: Probe)
      reads slots
      requires Block()
    {
      exists t: nat :: StepsPass(ci, t) && Stop(LeftAt(ci, t), RightAt(ci, t), MayMeet(ci, t), p)
    }

    /** From step `t0` on the cursors move one record a step from `l` and `r`,
        in the second loop. */
    ghost predicate Beyond(ci: nat, t0: nat, l: int, r: int)
    {
      forall t | t > t0 ::
        LeftAt(ci, t) == l - RECORD_SIZE * (t - t0) && RightAt(ci, t) == r + RECORD_SIZE * (t - t0) && MayMeet(ci, t)
    }

    lemma StopIsFinal(l: int, r: int, mayMeet: bool, p: Probe)
      requires Block() && Stop(l, r, mayMeet, p)
      ensures !Passes(l, r, mayMeet)
    {
    }

    lemma StepsPassMore(ci: nat, t: nat)
      requires Block() && StepsPass(ci, t) && Passes(LeftAt(ci, t), RightAt(ci, t), MayMeet(ci, t))
      ensures StepsPass(ci, t + 1)
    {
    }

    /** The probe's answer is determined: it stops at the first step that
        does not pass. */
    lemma ProbeRunUnique(ci: nat, p: Probe, p': Probe)
      requires Block() && ProbeRun(ci, p) && ProbeRun(ci, p')
      ensures p == p'
    {
      var t: nat :| StepsPass(ci, t) && Stop(LeftAt(ci, t), RightAt(ci, t), MayMeet(ci, t), p);
      var t': nat :| StepsPass(ci, t') && Stop(LeftAt(ci, t'), RightAt(ci, t'), MayMeet(ci, t'), p');
      StopIsFinal(LeftAt(ci, t), RightAt(ci, t), MayMeet(ci, t), p);
      StopIsFinal(LeftAt(ci, t'), RightAt(ci, t'), MayMeet(ci, t'), p');
      assert t == t';
    }

    /** The free record a probe lands on is determined by where it starts:
        after a put behind a taken home the new record is fixed. */
    lemma LandingUnique(ci: nat, f: nat, f': nat)
      requires Block()
      requires ProbeRun(ci, Free(AddressOf(startAddress, f))) && ProbeRun(ci, Free(AddressOf(startAddress, f')))
      ensures f == f'
    {
      ProbeRunUnique(ci, Free(AddressOf(startAddress, f)), Free(AddressOf(startAddress, f')));
    }

    /** findFreeAddressForCollision: two cursors move apart from an occupied
        record until one of them reads a free one (first loop, MoveApart),
        then, if the left one read the first record, towards each other with
        the left one restarted at the end of the block (second loop,
        MoveTogether). The answer is the step-by-step one and lies in the
        window ProbeSpec describes. */
    method FindFreeAddressForCollision(collisionAddress: int) returns (p: Probe)
      requires Block() && IsRecordAddress(collisionAddress) && slots[SlotOf(collisionAddress)].key != 0
      ensures ProbeRun(SlotOf(collisionAddress), p)
      ensures ProbeSpec(SlotOf(collisionAddress), p)
    {
      ghost var n, ci := mapSize, SlotOf(collisionAddress);
      var leftAddress := collisionAddress;
      var rightAddress := collisionAddress;
      var leftKey := KeyOn(leftAddress);
      var rightKey := KeyOn(rightAddress);
      var endMapAddress := startAddress + addressSize;
      var crossMapEnd := false;
      AddressSlot(ci);

      // (size >> 5) & 1 is the parity of the record count
      if mapSize % 2 == 1 {
        rightAddress := rightAddress + RECORD_SIZE;
        crossMapEnd := rightAddress == endMapAddress;
        rightAddress := if crossMapEnd then startAddress else rightAddress;
        if !IsRecordAddress(rightAddress) {
          assert StepsPass(ci, 0) && Stop(LeftAt(ci, 0), RightAt(ci, 0), MayMeet(ci, 0), Strayed);
          RunWindow(ci, Strayed);
          return Strayed;
        }
        rightKey := KeyOn(rightAddress);
      }
      assert crossMapEnd <==> CrossStart(ci);

      ghost var t0 := 0;
      if !crossMapEnd {
        var strayed;
        leftAddress, rightAddress, leftKey, rightKey, t0, strayed := MoveApart(leftAddress, rightAddress, leftKey, rightKey, ci);
        if strayed {
          RunWindow(ci, Strayed);
          return Strayed;
        }
      } else {
        AddressSlot(0);
      }
      p := MoveTogether(leftAddress, rightAddress, leftKey, rightKey, ci, t0);
      RunWindow(ci, p);
    }

    /** The first loop of findFreeAddressForCollision and the wrap after it:
        from step 0 the cursors move apart until one reads a free record, the
        right one reads past the last record (`strayed`, unless the left
        record read in that step is free), or the left one has read the first
        record, which sends it to `startAddress + addressSize - RECORD_SIZE`
        for the second loop. */
    method MoveApart(leftAddress: int, rightAddress: int, leftKey: Long, rightKey: Long, ghost ci: nat)
      returns (l: int, r: int, lk: Long, rk: Long, ghost t: nat, strayed: bool)
      requires Block() && ci < mapSize && ci + mapSize % 2 < mapSize
      requires leftAddress == AddressOf(startAddress, ci) && rightAddress == AddressOf(startAddress, ci + mapSize % 2)
      requires leftKey == slots[ci].key && rightKey == slots[ci + mapSize % 2].key
      ensures t <= ci && StepsPass(ci, t) && startAddress <= l
      ensures strayed ==> Stop(LeftAt(ci, t), RightAt(ci, t), MayMeet(ci, t), Strayed)
      ensures !strayed && !(lk != 0 && rk != 0) ==>
                Stop(LeftAt(ci, t), RightAt(ci, t), MayMeet(ci, t), Exit(l, r, lk, rk))
      ensures !strayed && lk != 0 && rk != 0 ==>
                && t == ci && Passes(LeftAt(ci, t), RightAt(ci, t), MayMeet(ci, t))
                && l == startAddress + addressSize - RECORD_SIZE && l != r && startAddress <= l
                && Beyond(ci, t, l, r)
    {
      ghost var n, r0 := mapSize, ci + mapSize % 2;
      l, r, lk, rk, t := leftAddress, rightAddress, leftKey, rightKey, 0;
      strayed := false;
      AddressSlot(ci);
      AddressSlot(r0);
      var endMapAddress := startAddress + addressSize;
      while lk != 0 && rk != 0 && l > startAddress && r < endMapAddress
        invariant t <= ci && StepsPass(ci, t)
        invariant l == LeftAt(ci, t) == AddressOf(startAddress, ci - t)
        invariant r == RightAt(ci, t) == AddressOf(startAddress, r0 + t)
        invariant IsRecordAddress(l) && IsRecordAddress(r) && lk == KeyOn(l) && rk == KeyOn(r)
        decreases ci - t
      {
        StepsPassMore(ci, t);
        l := l - RECORD_SIZE;
        r := r + RECORD_SIZE;
        t := t + 1;
        AddressSlot(ci - t);
        AddressSlot(r0 + t);
        lk := KeyOn(l);
        if !IsRecordAddress(r) {
          // the right cursor read outside the records; a free left record
          // still ends the loop and is the answer
          strayed := lk != 0;
          return;
        }
        rk := KeyOn(r);
      }
      if lk != 0 && rk != 0 {
        if l == startAddress {
          l := endMapAddress - RECORD_SIZE;
          WrapContinues(ci);
        } else {
          r := startAddress;
        }
      }
    }

    /** The left cursor sent to `startAddress + addressSize - RECORD_SIZE`
        after reading the first record is not where the right cursor is,
        and the second loop goes on from there one record a step. */
    lemma WrapContinues(ci: nat)
      requires Block() && ci < mapSize && ci + (ci + mapSize % 2) < mapSize
      ensures var l, r := startAddress + addressSize - RECORD_SIZE, AddressOf(startAddress, ci + (ci + mapSize % 2));
              startAddress <= l && l != r && Beyond(ci, ci, l, r)
    {
      var n := mapSize;
      assert n == 2 * (n / 2) + n % 2;
    }

    /** A step whose left read is outside the records ends the probe with a
        stray read. */
    lemma LeftStrayStop(ci: nat, t: nat)
      requires Block() && StepsPass(ci, t) && !IsRecordAddress(LeftAt(ci, t))
      ensures ProbeRun(ci, Strayed)
    {
      assert Stop(LeftAt(ci, t), RightAt(ci, t), MayMeet(ci, t), Strayed);
    }

    /** A step whose right read alone is outside the records ends the probe
        with the left record when it is free, read first, and with a stray
        read otherwise. */
    lemma RightStrayStop(ci: nat, t: nat, l: int, p: Probe)
      requires Block() && StepsPass(ci, t) && l == LeftAt(ci, t)
      requires IsRecordAddress(l) && !IsRecordAddress(RightAt(ci, t))
      requires p == if KeyOn(l) == 0 then Free(l) else Strayed
      ensures ProbeRun(ci, p)
    {
      assert Stop(l, RightAt(ci, t), MayMeet(ci, t), p);
    }

    /** A step of the second loop that reads two records and does not pass
        ends the probe with the three tests' answer. */
    lemma MeetStop(ci: nat, t: nat)
      requires Block() && StepsPass(ci, t) && MayMeet(ci, t)
      requires IsRecordAddress(LeftAt(ci, t)) && IsRecordAddress(RightAt(ci, t))
      requires !Passes(LeftAt(ci, t), RightAt(ci, t), MayMeet(ci, t))
      ensures ProbeRun(ci, Exit(LeftAt(ci, t), RightAt(ci, t), KeyOn(LeftAt(ci, t)), KeyOn(RightAt(ci, t))))
    {
      var l, r := LeftAt(ci, t), RightAt(ci, t);
      assert Stop(l, r, MayMeet(ci, t), Exit(l, r, KeyOn(l), KeyOn(r)));
    }

    /** A step of the second loop moves each cursor by one record. */
    lemma NextStep(ci: nat, t0: nat, t: nat, l: int, r: int)
      requires Beyond(ci, t0, l, r) && t0 <= t
      ensures LeftAt(ci, t + 1) == (if t == t0 then l else LeftAt(ci, t)) - RECORD_SIZE
      ensures RightAt(ci, t + 1) == (if t == t0 then r else RightAt(ci, t)) + RECORD_SIZE
      ensures MayMeet(ci, t + 1)
    {
      assert LeftAt(ci, t + 1) == l - RECORD_SIZE * (t + 1 - t0);
      if t > t0 {
        assert LeftAt(ci, t) == l - RECORD_SIZE * (t - t0);
      }
    }

    /** The second loop of findFreeAddressForCollision and the three tests
        after it, entered at step `t0` of the probe from `ci`: the cursors
        move towards each other until one reads a free record or they meet.
        A read outside the records stops the model, but a free left record
        read in the same step is still the answer. */
    method MoveTogether(leftAddress: int, rightAddress: int, leftKey: Long, rightKey: Long, ghost ci: nat, ghost t0: nat)
      returns (p: Probe)
      requires Block() && startAddress <= leftAddress && StepsPass(ci, t0)
      requires leftKey != 0 && rightKey != 0 && leftAddress != rightAddress ==>
                 Passes(LeftAt(ci, t0), RightAt(ci, t0), MayMeet(ci, t0)) && Beyond(ci, t0, leftAddress, rightAddress)
      requires !(leftKey != 0 && rightKey != 0 && leftAddress != rightAddress) ==>
                 Stop(LeftAt(ci, t0), RightAt(ci, t0), MayMeet(ci, t0), Exit(leftAddress, rightAddress, leftKey, rightKey))
      ensures ProbeRun(ci, p)
    {
      var l, r, lk, rk := leftAddress, rightAddress, leftKey, rightKey;
      ghost var t := t0;
      while lk != 0 && rk != 0 && l != r
        invariant t0 <= t && StepsPass(ci, t) && startAddress <= l
        invariant t == t0 ==> l == leftAddress && r == rightAddress && lk == leftKey && rk == rightKey
        invariant t > t0 ==> && Beyond(ci, t0, leftAddress, rightAddress)
                             && l == LeftAt(ci, t) && r == RightAt(ci, t) && MayMeet(ci, t)
                             && IsRecordAddress(l) && IsRecordAddress(r) && lk == KeyOn(l) && rk == KeyOn(r)
        decreases l - startAddress
      {
        StepsPassMore(ci, t);
        NextStep(ci, t0, t, leftAddress, rightAddress);
        l := l - RECORD_SIZE;
        r := r + RECORD_SIZE;
        t := t + 1;
        if !IsRecordAddress(l) {
          p := Strayed;
          LeftStrayStop(ci, t);
          return;
        }
        lk := KeyOn(l);
        if !IsRecordAddress(r) {
          p := if lk == 0 then Free(l) else Strayed;
          RightStrayStop(ci, t, l, p);
          return;
        }
        rk := KeyOn(r);
      }
      p := Exit(l, r, lk, rk);
      if t == t0 {
        assert Stop(LeftAt(ci, t), RightAt(ci, t), MayMeet(ci, t), p);
      } else {
        MeetStop(ci, t);
      }
    }

    /** The step-by-step answer is the one the window describes: the records
        the probe reads before it stops are those of [WindowLo, WindowHi). */
    lemma RunWindow(ci: nat, p: Probe)
      requires Block() && ci < mapSize && ProbeRun(ci, p)
      ensures ProbeSpec(ci, p)
    {
      var t: nat :| StepsPass(ci, t) && Stop(LeftAt(ci, t), RightAt(ci, t), MayMeet(ci, t), p);
      if CrossStart(ci) {
        CrossRunWindow(ci, t, p);
      } else if t <= ci {
        ApartRunWindow(ci, t, p);
      } else if Aligned() {
        WrappedRunWindow(ci, t, p);
      } else {
        MisalignedRunWindow(ci, t, p);
      }
    }

    /** The right cursor started on the first record: the cursors scan the
        block from both ends, stop inside it, and meet in the middle only
        when every record is taken. */
    lemma CrossRunWindow(ci: nat, t: nat, p: Probe)
      requires Block() && ci < mapSize && CrossStart(ci)
      requires StepsPass(ci, t) && Stop(LeftAt(ci, t), RightAt(ci, t), MayMeet(ci, t), p)
      ensures ProbeSpec(ci, p)
    {
      var n := mapSize;
      var m := (n - 1) / 2;
      assert 2 * m == n - 1 && ci == n - 1;
      assert LeftAt(ci, m) == RightAt(ci, m);
      assert t <= m;
      AddressSlot(n - 1 - t);
      AddressSlot(t);
      if p.Full? {
        forall i | 0 <= i < n
          ensures slots[i].key != 0
        {
          if i < t {
            assert Passes(LeftAt(ci, i), RightAt(ci, i), MayMeet(ci, i));
            OccupiedAt(i);
          } else if t < i {
            assert Passes(LeftAt(ci, n - 1 - i), RightAt(ci, n - 1 - i), MayMeet(ci, n - 1 - i));
            OccupiedAt(i);
          }
        }
      }
    }

    /** The probe stopped in the first loop, at step `t`: on a free record of
        the window, or with the right cursor just past the last record after
        reading every record from the left cursor's to the last one. */
    lemma ApartRunWindow(ci: nat, t: nat, p: Probe)
      requires Block() && ci < mapSize && !CrossStart(ci) && t <= ci
      requires StepsPass(ci, t) && Stop(LeftAt(ci, t), RightAt(ci, t), MayMeet(ci, t), p)
      ensures ProbeSpec(ci, p)
    {
      var n, r0 := mapSize, ci + mapSize % 2;
      if t > 0 {
        assert Passes(LeftAt(ci, t - 1), RightAt(ci, t - 1), MayMeet(ci, t - 1));
        AddressSlot(r0 + t - 1);
      }
      AddressSlot(ci - t);
      AddressSlot(r0 + t);
      if p.Strayed? {
        ApartTaken(ci, t);
      }
    }

    /** A first loop whose right cursor reached the end of the records at
        step `t` read every record from the left cursor's to the last one,
        and found each taken. */
    lemma ApartTaken(ci: nat, t: nat)
      requires Block() && ci < mapSize && !CrossStart(ci) && t <= ci && StepsPass(ci, t)
      requires ci + mapSize % 2 + t == mapSize && slots[ci - t].key != 0
      ensures forall i | ci - t <= i < mapSize :: slots[i].key != 0
    {
      var r0 := ci + mapSize % 2;
      forall i | ci - t <= i < mapSize
        ensures slots[i].key != 0
      {
        if i <= ci {
          if ci - i < t {
            assert Passes(LeftAt(ci, ci - i), RightAt(ci, ci - i), MayMeet(ci, ci - i));
          }
        } else {
          assert Passes(LeftAt(ci, i - r0), RightAt(ci, i - r0), MayMeet(ci, i - r0));
        }
        OccupiedAt(i);
      }
    }

    /** A probe that reaches the second loop has read every record from the
        first to slot q = ci + r0 and found it taken. */
    lemma FirstLoopTaken(ci: nat, t: nat)
      requires Block() && ci < mapSize && !CrossStart(ci) && ci < t && StepsPass(ci, t)
      ensures ci + (ci + mapSize % 2) < mapSize
      ensures forall i | 0 <= i <= ci + (ci + mapSize % 2) :: slots[i].key != 0
    {
      var r0 := ci + mapSize % 2;
      assert Passes(LeftAt(ci, ci), RightAt(ci, ci), MayMeet(ci, ci));
      AddressSlot(r0 + ci);
      forall i | 0 <= i <= ci + r0
        ensures slots[i].key != 0
      {
        if i <= ci {
          assert Passes(LeftAt(ci, ci - i), RightAt(ci, ci - i), MayMeet(ci, ci - i));
        } else {
          assert Passes(LeftAt(ci, i - r0), RightAt(ci, i - r0), MayMeet(ci, i - r0));
        }
        OccupiedAt(i);
      }
    }

    /** In a block of whole records, after the left cursor is sent to the last
        record the cursors' slots add up to an odd number, so they never
        meet: the second loop answers a free record, or strays after reading
        every record above q = ci + r0. */
    lemma WrappedRunWindow(ci: nat, t: nat, p: Probe)
      requires Block() && Aligned() && ci < mapSize && !CrossStart(ci) && ci < t
      requires StepsPass(ci, t) && Stop(LeftAt(ci, t), RightAt(ci, t), MayMeet(ci, t), p)
      ensures ProbeSpec(ci, p)
    {
      var n, r0 := mapSize, ci + mapSize % 2;
      FirstLoopTaken(ci, t);
      assert Passes(LeftAt(ci, t - 1), RightAt(ci, t - 1), MayMeet(ci, t - 1));
      AddressSlot(r0 + t - 1);
      assert LeftAt(ci, t) == AddressOf(startAddress, n - 1 + ci - t);
      AddressSlot(n - 1 + ci - t);
      AddressSlot(r0 + t);
      assert n == 2 * (n / 2) + n % 2;
      if !p.Free? {
        WrappedTaken(ci, t);
      }
    }

    /** A second loop that ran the right cursor up to the end of the records
        at step `t` found every record above q = ci + r0 taken. */
    lemma WrappedTaken(ci: nat, t: nat)
      requires Block() && ci < mapSize && !CrossStart(ci) && ci < t && StepsPass(ci, t)
      requires ci + mapSize % 2 + t == mapSize
      ensures forall i | ci + (ci + mapSize % 2) < i < mapSize :: slots[i].key != 0
    {
      var r0 := ci + mapSize % 2;
      forall i | ci + r0 < i < mapSize
        ensures slots[i].key != 0
      {
        assert Passes(LeftAt(ci, i - r0), RightAt(ci, i - r0), MayMeet(ci, i - r0));
        OccupiedAt(i);
      }
    }

    /** With trailing bytes after the last record, the left cursor is sent
        between two records and its first read in the second loop is outside
        them: the probe has read the records from the first to slot
        q = ci + r0 only. */
    lemma MisalignedRunWindow(ci: nat, t: nat, p: Probe)
      requires Block() && !Aligned() && ci < mapSize && ci < t
      requires StepsPass(ci, t) && Stop(LeftAt(ci, t), RightAt(ci, t), MayMeet(ci, t), p)
      ensures ProbeSpec(ci, p)
    {
      var n := mapSize;
      FirstLoopTaken(ci, t);
      BetweenRecords(LeftAt(ci, ci + 1), n - 2);
      if ci + 1 < t {
        assert false;
      }
    }
  }
}
