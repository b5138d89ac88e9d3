/** Clients of the map: the concrete eight-record case, the previous-value
    contract, put followed by get, and a negative key under a record count
    that is not a power of two. */
module Scenarios {
  import opened Hashing
  import opened Layout
  import opened OffHeap

  /** The key that lands in slot `s` when the keys 1..8 are put in order
      into eight records: key `s`, and key 8 in slot 0. */
  function KeyOfSlot(s: int): Long
    requires 0 <= s < 8
  {
    if s == 0 then 8 else s
  }

  /** The eight records after the keys 1..i-1 were put with values k*k. */
  function Filled(i: int): (mem: seq<Record>)
    ensures |mem| == 8
  {
    seq(8, s requires 0 <= s < 8 =>
      var k := KeyOfSlot(s);
      if k < i then Record(k, k * k, 0, 0) else EMPTY)
  }

  /** Putting key `i` into its free home `i % 8` extends the picture. */
  lemma FilledStep(i: Long)
    requires 1 <= i <= 8
    ensures Filled(i)[i % 8].key == 0
    ensures Filled(i)[i % 8 := Record(i, Square(i), 0, 0)] == Filled(i + 1)
  {
    assert KeyOfSlot(i % 8) == i;
    var a, b := Filled(i)[i % 8 := Record(i, Square(i), 0, 0)], Filled(i + 1);
    forall s | 0 <= s < 8
      ensures a[s] == b[s]
    {
      if s != i % 8 {
        assert KeyOfSlot(s) != i;
      }
    }
  }

  /** With eight records the hash is the key's low three bits. */
  lemma EightRecordHash(m: LongLongMap, k: Long)
    requires m.Valid() && m.mapSize == 8 && m.HasherOfSize()
    ensures m.hashFunction(k) == k % 8
  {
    PowerOfTwoHash(3, k);
    assert Pow2(3) == 8;
  }

  /** The keys 1..i-1, each mapped to its square. */
  function Squares(i: int): map<Long, Long>
  {
    map k: Long | 1 <= k < i && k <= 8 :: k * k
  }

  /** Key `i` put into the eight records holding the keys 1..i-1: it lands
      in its free home and put answers 0. */
  method PutNext(m: LongLongMap, i: Long) returns (r: Outcome)
    requires 1 <= i <= 8
    requires m.Valid() && m.mapSize == 8 && m.HasherOfSize()
    requires m.Contents() == Squares(i) && m.slots[..] == Filled(i)
    modifies m, m.slots
    ensures m.Valid() && r == Ok(0)
    ensures m.Contents() == Squares(i + 1) && m.slots[..] == Filled(i + 1)
  {
    EightRecordHash(m, i);
    FilledStep(i);
    assert m.slots[i % 8].key == 0;
    SquaresStep(i);
    r := m.Put(i, Square(i));
  }

  function Square(i: Long): (r: Long)
    requires 1 <= i <= 8
    ensures r == i * i
  {
    i * i
  }

  lemma SquaresStep(i: Long)
    requires 1 <= i <= 8
    ensures i !in Squares(i)
    ensures Squares(i)[i := Square(i)] == Squares(i + 1)
  {
  }

  /** A block of 256 bytes holds eight records. The keys 1..8 with values
      k*k each land in their own home and answer 0; each is then read back;
      a ninth key finds every record taken, and as the record count is even
      the probe reads outside the block instead of throwing
      MapFullException. */
  method EightRecords(address: Long) returns (puts: seq<Outcome>, gets: seq<Outcome>, ninth: Outcome)
    requires 0 < address && address + 256 <= LONG_MAX
    ensures |puts| == 8 && forall j | 0 <= j < 8 :: puts[j] == Ok(0)
    ensures |gets| == 8 && forall j | 0 <= j < 8 :: gets[j] == Ok(Square(j + 1))
    ensures ninth == StrayRead
  {
    var m := new LongLongMap(address, 256);
    FilledEmpty();
    assert m.slots[..] == Filled(1);
    puts := PutOneToEight(m);
    gets := ReadBack(m);
    ninth := PutNinth(m);
  }

  /** put(k, k*k) for k = 1..8 on eight empty records: each answers 0. */
  method PutOneToEight(m: LongLongMap) returns (answers: seq<Outcome>)
    requires m.Valid() && m.mapSize == 8 && m.HasherOfSize()
    requires m.Contents() == map[] && m.slots[..] == Filled(1)
    modifies m, m.slots
    ensures |answers| == 8 && forall j | 0 <= j < 8 :: answers[j] == Ok(0)
    ensures m.Valid() && m.Contents() == Squares(9) && m.slots[..] == Filled(9)
  {
    assert Squares(1) == map[];
    answers := [];
    var i: Long := 1;
    while i <= 8
      invariant 1 <= i <= 9 && |answers| == i - 1
      invariant forall j | 0 <= j < i - 1 :: answers[j] == Ok(0)
      invariant m.Valid() && m.Contents() == Squares(i) && m.slots[..] == Filled(i)
    {
      var r := PutNext(m, i);
      AnswerOneMore(answers, r, i);
      answers := answers + [r];
      i := i + 1;
    }
  }

  lemma AnswerOneMore(answers: seq<Outcome>, r: Outcome, i: Long)
    requires 1 <= i <= 8 && |answers| == i - 1 && r == Ok(0)
    requires forall j | 0 <= j < i - 1 :: answers[j] == Ok(0)
    ensures forall j | 0 <= j < i :: (answers + [r])[j] == Ok(0)
  {
  }

  lemma FilledEmpty()
    ensures Filled(1) == seq(8, _ => EMPTY)
  {
  }

  /** get(k) for k = 1..8 on the eight records holding the keys 1..8. */
  method ReadBack(m: LongLongMap) returns (gets: seq<Outcome>)
    requires m.Valid() && m.mapSize == 8 && m.HasherOfSize() && m.Contents() == Squares(9)
    ensures |gets| == 8 && forall j | 0 <= j < 8 :: gets[j] == Ok(Square(j + 1))
  {
    gets := [];
    var k: Long := 1;
    while k <= 8
      invariant 1 <= k <= 9 && |gets| == k - 1
      invariant forall j | 0 <= j < k - 1 :: gets[j] == Ok(Square(j + 1))
    {
      EightRecordHash(m, k);
      SquaresLookup(k);
      assert m.InBlock(k) && Lookup(m.Contents(), k) == Square(k);
      var g := m.Get(k);
      ReadOneMore(gets, g, k);
      gets := gets + [g];
      k := k + 1;
    }
  }

  /** put(9, 81) on the eight records holding the keys 1..8: every record
      is taken and the record count is even, so the probe strays. */
  method PutNinth(m: LongLongMap) returns (r: Outcome)
    requires m.Valid() && m.mapSize == 8 && m.HasherOfSize()
    requires m.Contents() == Squares(9) && m.slots[..] == Filled(9)
    modifies m, m.slots
    ensures r == StrayRead
  {
    EightRecordHash(m, 9);
    FilledFull();
    forall s | 0 <= s < 8
      ensures m.slots[s].key != 0
    {
      assert m.slots[..][s] == Filled(9)[s];
    }
    assert 9 !in Squares(9);
    m.FullBlockOutcome(9);
    ghost var outcome := m.PutOutcome(9);
    assert outcome == StrayRead;
    r := m.Put(9, 81);
    assert r == outcome;
  }

  lemma ReadOneMore(gets: seq<Outcome>, g: Outcome, k: Long)
    requires 1 <= k <= 8 && |gets| == k - 1 && g == Ok(Square(k))
    requires forall j | 0 <= j < k - 1 :: gets[j] == Ok(Square(j + 1))
    ensures forall j | 0 <= j < k :: (gets + [g])[j] == Ok(Square(j + 1))
  {
  }

  lemma SquaresLookup(k: Long)
    requires 1 <= k <= 8
    ensures k in Squares(9) && Squares(9)[k] == Square(k)
  {
  }

  lemma FilledFull()
    ensures forall s | 0 <= s < 8 :: Filled(9)[s].key != 0
  {
  }

  /** The first put of a key answers 0, the second the value the first
      stored. */
  method PreviousValue(address: Long) returns (first: Outcome, second: Outcome)
    requires 0 < address && address + 256 <= LONG_MAX
    ensures first == Ok(0) && second == Ok(10)
  {
    var m := new LongLongMap(address, 256);
    EightRecordHash(m, 1);
    first := m.Put(1, 10);
    second := m.Put(1, 20);
  }

  /** put(k, v) followed by get(k): get answers v whenever put succeeded. */
  method PutThenGet(m: LongLongMap, key: Long, value: Long) returns (put: Outcome, got: Outcome)
    requires m.Valid() && key != 0
    modifies m, m.slots
    ensures m.Valid()
    ensures put.Ok? ==> got == Ok(value)
    ensures !put.Ok? ==> m.Contents() == old(m.Contents())
  {
    put := m.Put(key, value);
    if put.Ok? {
      m.StoredInBlock(key);
    }
    got := m.Get(key);
  }

  /** A freshly built map answers 0 for every key whose home is in the
      block, and `OutsideBlock` for every other key. */
  method FreshGet(address: Long, size: Long, key: Long) returns (got: Outcome)
    requires 0 < address && 0 <= size && address + size <= LONG_MAX
    ensures got == if 0 <= Apply(InitHasher(size / RECORD_SIZE), key) < size / RECORD_SIZE
                   then Ok(0) else OutsideBlock
  {
    var m := new LongLongMap(address, size);
    got := m.Get(key);
  }

  /** Three records select the Java remainder, under which the key -1 has
      the hash -1: its home lies before the block, and get reads there. */
  method NegativeKey(address: Long) returns (got: Outcome)
    requires 0 < address && address + 96 <= LONG_MAX
    ensures got == OutsideBlock
  {
    var m := new LongLongMap(address, 96);
    NegativeKeyHashExample();
    got := m.Get(-1);
  }
}
