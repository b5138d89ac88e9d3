/** The record layout of the map's memory block and the invariant that the
    map's put keeps: collision chains linked through `next`, stolen home slots
    redirected through `origin`. Everything here is about values: a snapshot
    `mem` of the block's records, the block's start address, the hasher and a
    ghost `Shape` that names every chain. */
module Layout {
  import opened Hashing

  /** STRUCTURE_SIZE: one record is 1 << 5 bytes. */
  const RECORD_SIZE: int := 32

  /** Four 8-byte fields at offsets 0, 8, 16 and 24. `next` and `origin` hold
      absolute addresses; 0 means "none". A record whose key is 0 is empty. */
  datatype Record = Record(key: Long, value: Long, next: Long, origin: Long)

  const EMPTY: Record := Record(0, 0, 0, 0)

  /** The address of slot `i` of a block starting at `start`. */
  function AddressOf(start: int, i: int): int
  {
    start + RECORD_SIZE * i
  }

  /** The ghost view of the block: `chains[h]` lists, in `next` order, the
      slots holding the keys whose hash is `h`; `where[k]` is the slot that
      holds key `k`. */
  datatype Shape = Shape(chains: seq<seq<nat>>, where: map<Long, nat>)

  /** Slot `c[j]` is the j-th link of the chain of hash `h`. */
  ghost predicate LinkOk(mem: seq<Record>, start: int, hash: Long -> int, c: seq<nat>, h: int, j: int)
    requires 0 <= j < |c|
  {
    var s := c[j];
    && s < |mem|
    && mem[s].key != 0
    && hash(mem[s].key) == h
    && mem[s].next == (if j + 1 < |c| then AddressOf(start, c[j + 1]) else 0)
  }

  /** Slot `h` seen as the home slot of hash `h`: empty, so no key with that
      hash exists; holding a key of that hash, which is then the chain's first
      link; or stolen by a key of another hash, and then `origin` points to
      the chain's first link (0 while the chain is empty). */
  ghost predicate HomeOk(mem: seq<Record>, start: int, hash: Long -> int, c: seq<nat>, h: int)
    requires 0 <= h < |mem|
  {
    var r := mem[h];
    if r.key == 0 then c == []
    else if hash(r.key) == h then c != [] && c[0] == h && r.origin == 0
    else r.origin == (if c == [] then 0 else AddressOf(start, c[0]))
  }

  ghost predicate EmptiesClear(mem: seq<Record>)
  {
    forall i | 0 <= i < |mem| && mem[i].key == 0 :: mem[i] == EMPTY
  }

  ghost predicate SlotsIndexed(mem: seq<Record>, sh: Shape)
  {
    forall i | 0 <= i < |mem| && mem[i].key != 0 :: mem[i].key in sh.where && sh.where[mem[i].key] == i
  }

  ghost predicate KeysPlaced(mem: seq<Record>, hash: Long -> int, sh: Shape)
    requires |sh.chains| == |mem|
  {
    forall k | k in sh.where ::
      && k != 0
      && sh.where[k] < |mem|
      && mem[sh.where[k]].key == k
      && 0 <= hash(k) < |mem|
      && sh.where[k] in sh.chains[hash(k)]
  }

  ghost predicate ChainsLinked(mem: seq<Record>, start: int, hash: Long -> int, sh: Shape)
    requires |sh.chains| == |mem|
  {
    forall h, j | 0 <= h < |mem| && 0 <= j < |sh.chains[h]| :: LinkOk(mem, start, hash, sh.chains[h], h, j)
  }

  ghost predicate HomesMarked(mem: seq<Record>, start: int, hash: Long -> int, sh: Shape)
    requires |sh.chains| == |mem|
  {
    forall h | 0 <= h < |mem| :: HomeOk(mem, start, hash, sh.chains[h], h)
  }

  /** A block of `n` records starting at `start` lies at positive addresses
      that a `long` can hold, so no record address is 0. */
  predicate Fits(start: int, n: int)
  {
    0 < start && start + RECORD_SIZE * n <= LONG_MAX
  }

  /** The map's invariant over a snapshot of its records. */
  ghost predicate Inv(mem: seq<Record>, start: int, hash: Long -> int, sh: Shape)
  {
    && Fits(start, |mem|)
    && |sh.chains| == |mem|
    && EmptiesClear(mem)
    && SlotsIndexed(mem, sh)
    && KeysPlaced(mem, hash, sh)
    && ChainsLinked(mem, start, hash, sh)
    && HomesMarked(mem, start, hash, sh)
  }

  /** The key/value pairs the block holds. */
  ghost function Contents(mem: seq<Record>, start: int, hash: Long -> int, sh: Shape): (m: map<Long, Long>)
    requires Inv(mem, start, hash, sh)
    ensures m.Keys == sh.where.Keys
    ensures 0 !in m
  {
    Values(mem, sh.where)
  }

  /** The value of the record at `where[k]`, for each key `k` of `where`. */
  ghost function Values(mem: seq<Record>, where: map<Long, nat>): (m: map<Long, Long>)
    requires forall k | k in where :: where[k] < |mem|
    ensures m.Keys == where.Keys
  {
    map k | k in where :: mem[where[k]].value
  }

  /** Writing `value` into slot `s`, which no key but `key` occupies, changes
      what the keys read only at `key`. */
  lemma ValuesAfterWrite(mem: seq<Record>, mem': seq<Record>, where: map<Long, nat>, key: Long, value: Long, s: nat)
    requires forall k | k in where :: where[k] < |mem|
    requires |mem'| == |mem| && s < |mem| && mem'[s].value == value
    requires forall k | k in where && k != key :: where[k] != s
    requires forall i | 0 <= i < |mem| && i != s :: mem'[i].value == mem[i].value
    ensures Values(mem', where[key := s]) == Values(mem, where)[key := value]
  {
    var m, m' := Values(mem, where), Values(mem', where[key := s]);
    forall k | k in m'
      ensures m'[k] == m[key := value][k]
    {
      if k != key {
        assert where[k] != s;
      }
    }
  }

  /** What `get` promises: the stored value, or 0 for an absent key. */
  function Lookup(m: map<Long, Long>, k: Long): Long
  {
    if k in m then m[k] else 0
  }

  // ---------------------------------------------------------------------
  // Construction

  /** setMemory(address, size, 0): every field of every record is 0, no chain
      exists, nothing is stored. */
  lemma ZeroedBlockValid(n: nat, start: int, hash: Long -> int)
    requires Fits(start, n)
    ensures Inv(seq(n, _ => EMPTY), start, hash, Shape(seq(n, _ => []), map[]))
    ensures Contents(seq(n, _ => EMPTY), start, hash, Shape(seq(n, _ => []), map[])) == map[]
  {
  }

  // ---------------------------------------------------------------------
  // Reading: what a chain walk can conclude

  /** A key found in some slot is stored there. */
  lemma FoundKey(mem: seq<Record>, start: int, hash: Long -> int, sh: Shape, s: nat, k: Long)
    requires Inv(mem, start, hash, sh)
    requires s < |mem| && mem[s].key == k && k != 0
    ensures Lookup(Contents(mem, start, hash, sh), k) == mem[s].value
  {
  }

  /** A key missing from the chain of its own hash is not stored at all. */
  lemma MissingFromChain(mem: seq<Record>, start: int, hash: Long -> int, sh: Shape, k: Long, h: nat)
    requires Inv(mem, start, hash, sh)
    requires h < |mem| && hash(k) == h
    requires forall j | 0 <= j < |sh.chains[h]| :: sh.chains[h][j] < |mem| && mem[sh.chains[h][j]].key != k
    ensures k !in Contents(mem, start, hash, sh)
    ensures Lookup(Contents(mem, start, hash, sh), k) == 0
  {
  }

  /** A chain of hash `h` whose links up to `j` do not hold `k`, and whose
      link `j` has `next` 0: link `j` is the chain's last, and `k` is not
      stored. */
  lemma MissingAtTail(mem: seq<Record>, start: int, hash: Long -> int, sh: Shape, k: Long, h: nat, j: nat)
    requires Inv(mem, start, hash, sh)
    requires h < |mem| && hash(k) == h && j < |sh.chains[h]|
    requires forall i | 0 <= i < j :: sh.chains[h][i] < |mem| && mem[sh.chains[h][i]].key != k
    requires sh.chains[h][j] < |mem| && mem[sh.chains[h][j]].key != k && mem[sh.chains[h][j]].next == 0
    ensures j == |sh.chains[h]| - 1
    ensures mem[sh.chains[h][j]].key != 0
    ensures k !in Contents(mem, start, hash, sh)
  {
    var c := sh.chains[h];
    assert LinkOk(mem, start, hash, c, h, j);
    NoLinkHolds(mem, c, k, j);
    MissingFromChain(mem, start, hash, sh, k, h);
  }

  /** Links before `j` and link `j`, the last, do not hold `k`: no link does. */
  lemma NoLinkHolds(mem: seq<Record>, c: seq<nat>, k: Long, j: nat)
    requires j == |c| - 1
    requires forall i | 0 <= i < j :: c[i] < |mem| && mem[c[i]].key != k
    requires c[j] < |mem| && mem[c[j]].key != k
    ensures forall i | 0 <= i < |c| :: c[i] < |mem| && mem[c[i]].key != k
  {
    forall i | 0 <= i < |c|
      ensures c[i] < |mem| && mem[c[i]].key != k
    {
      if i < j {
        assert c[i] < |mem| && mem[c[i]].key != k;
      }
    }
  }

  /** Chains have no cycles: a chain never visits a slot twice. */
  lemma ChainsAcyclic(mem: seq<Record>, start: int, hash: Long -> int, sh: Shape, h: nat, j1: nat, j2: nat)
    requires Inv(mem, start, hash, sh)
    requires h < |mem| && j1 < j2 < |sh.chains[h]|
    ensures sh.chains[h][j1] != sh.chains[h][j2]
  {
    LinkedChainAcyclic(mem, start, hash, sh.chains[h], h, j1, j2);
  }

  lemma {:induction false} LinkedChainAcyclic(mem: seq<Record>, start: int, hash: Long -> int, c: seq<nat>, h: int, j1: nat, j2: nat)
    requires start > 0
    requires forall j | 0 <= j < |c| :: LinkOk(mem, start, hash, c, h, j)
    requires j1 < j2 < |c|
    ensures c[j1] != c[j2]
    decreases |c| - j2
  {
    assert LinkOk(mem, start, hash, c, h, j1) && LinkOk(mem, start, hash, c, h, j2);
    if j2 + 1 < |c| {
      // distinct successors, so distinct `next` fields
      LinkedChainAcyclic(mem, start, hash, c, h, j1 + 1, j2 + 1);
      assert mem[c[j1]].next == AddressOf(start, c[j1 + 1]);
      assert mem[c[j2]].next == AddressOf(start, c[j2 + 1]);
    } else {
      // c[j2] is the tail, whose `next` is 0 while c[j1]'s is not
      assert mem[c[j2]].next == 0;
      assert mem[c[j1]].next == AddressOf(start, c[j1 + 1]);
    }
  }

  /** The slots `c` are linked in order through `next`, and the last one's
      `next` is 0: what getCollision's walk relies on. */
  ghost predicate Linked(mem: seq<Record>, start: int, c: seq<nat>)
  {
    && (forall j | 0 <= j < |c| :: c[j] < |mem|)
    && (forall j | 0 <= j < |c| :: LinksOn(mem, start, c, j))
  }

  /** Link `j` of the slots `c` is a record whose `next` is the address of
      link `j + 1`, or 0 when it is the last. */
  ghost predicate LinksOn(mem: seq<Record>, start: int, c: seq<nat>, j: int)
    requires 0 <= j < |c|
  {
    c[j] < |mem| && mem[c[j]].next == (if j + 1 < |c| then AddressOf(start, c[j + 1]) else 0)
  }

  /** The value of the first record of the slots `c` that holds `k`, or 0. */
  function ChainLookup(mem: seq<Record>, c: seq<nat>, k: Long): Long
    requires forall j | 0 <= j < |c| :: c[j] < |mem|
  {
    if c == [] then 0
    else if mem[c[0]].key == k then mem[c[0]].value
    else ChainLookup(mem, c[1..], k)
  }

  /** Every tail of a chain is linked. */
  lemma ChainSuffixLinked(mem: seq<Record>, start: int, hash: Long -> int, sh: Shape, h: nat, j0: nat)
    requires Inv(mem, start, hash, sh)
    requires h < |mem| && j0 <= |sh.chains[h]|
    ensures Linked(mem, start, sh.chains[h][j0..])
  {
    var c := sh.chains[h];
    var d := c[j0..];
    forall j | 0 <= j < |d|
      ensures d[j] < |mem| && LinksOn(mem, start, d, j)
    {
      assert LinkOk(mem, start, hash, c, h, j0 + j);
      assert d[j] == c[j0 + j];
      if j + 1 < |d| {
        assert d[j + 1] == c[j0 + j + 1];
      }
    }
  }

  /** Walking the chain of `k`'s hash from link `j0`, past links that do not
      hold `k`, gives what the map holds for `k`. */
  lemma {:induction false} ChainLookupFinds(mem: seq<Record>, start: int, hash: Long -> int, sh: Shape, h: nat, k: Long, j0: nat)
    requires Inv(mem, start, hash, sh)
    requires h < |mem| && hash(k) == h && j0 <= |sh.chains[h]|
    requires forall i | 0 <= i < j0 :: sh.chains[h][i] < |mem| && mem[sh.chains[h][i]].key != k
    ensures forall j | 0 <= j < |sh.chains[h][j0..]| :: sh.chains[h][j0..][j] < |mem|
    ensures ChainLookup(mem, sh.chains[h][j0..], k) == Lookup(Contents(mem, start, hash, sh), k)
    decreases |sh.chains[h]| - j0
  {
    var c := sh.chains[h];
    ChainSuffixLinked(mem, start, hash, sh, h, j0);
    if j0 == |c| {
      MissingFromChain(mem, start, hash, sh, k, h);
    } else {
      assert LinkOk(mem, start, hash, c, h, j0);
      if mem[c[j0]].key == k {
        FoundKey(mem, start, hash, sh, c[j0], k);
      } else {
        assert c[j0..][1..] == c[j0 + 1..];
        ChainLookupFinds(mem, start, hash, sh, h, k, j0 + 1);
      }
    }
  }

  /** A home slot `h` holding a key other than `k` (of hash `h`) leads on to
      the rest of the chain of hash `h`: through `next` when its key has hash
      `h` (it is then the chain's first link), through `origin` when another
      hash took it. The field is 0 exactly when that rest is empty, and the
      rest holds what the map has for `k`. */
  lemma FromHome(mem: seq<Record>, start: int, hash: Long -> int, sh: Shape, h: nat, k: Long)
    requires Inv(mem, start, hash, sh)
    requires h < |mem| && hash(k) == h && mem[h].key != 0 && mem[h].key != k
    ensures var j0 := if hash(mem[h].key) == h then 1 else 0;
            var a := if hash(mem[h].key) == h then mem[h].next else mem[h].origin;
            && j0 <= |sh.chains[h]|
            && (a == 0 <==> j0 == |sh.chains[h]|)
            && (a != 0 ==> a == AddressOf(start, sh.chains[h][j0]))
            && Linked(mem, start, sh.chains[h][j0..])
            && (forall j | 0 <= j < |sh.chains[h][j0..]| :: sh.chains[h][j0..][j] < |mem|)
            && ChainLookup(mem, sh.chains[h][j0..], k) == Lookup(Contents(mem, start, hash, sh), k)
  {
    var c := sh.chains[h];
    assert HomeOk(mem, start, hash, c, h);
    var j0 := if hash(mem[h].key) == h then 1 else 0;
    if j0 == 1 {
      assert LinkOk(mem, start, hash, c, h, 0);
    }
    ChainSuffixLinked(mem, start, hash, sh, h, j0);
    ChainLookupFinds(mem, start, hash, sh, h, k, j0);
  }

  // ---------------------------------------------------------------------
  // Writing: the four ways put changes the block keep the invariant

  /** putKeyAndValue(address, key, value): only the key and value fields of
      one record change. */
  function WriteKeyAndValue(mem: seq<Record>, s: nat, key: Long, value: Long): (mem': seq<Record>)
    requires s < |mem|
    ensures |mem'| == |mem|
    ensures mem'[s] == Record(key, value, mem[s].next, mem[s].origin)
    ensures forall i | 0 <= i < |mem| && i != s :: mem'[i] == mem[i]
  {
    mem[s := mem[s].(key := key, value := value)]
  }

  /** An empty home slot takes the key in place; the key was absent and now
      starts a chain of its own. */
  lemma PlaceInEmptyHome(mem: seq<Record>, start: int, hash: Long -> int, sh: Shape, key: Long, value: Long, h: nat)
    requires Inv(mem, start, hash, sh)
    requires key != 0 && h < |mem| && hash(key) == h && mem[h].key == 0
    ensures key !in Contents(mem, start, hash, sh)
    ensures Inv(WriteKeyAndValue(mem, h, key, value), start, hash, Shape(sh.chains[h := [h]], sh.where[key := h]))
    ensures Contents(WriteKeyAndValue(mem, h, key, value), start, hash, Shape(sh.chains[h := [h]], sh.where[key := h]))
            == Contents(mem, start, hash, sh)[key := value]
  {
    var mem' := WriteKeyAndValue(mem, h, key, value);
    var sh' := Shape(sh.chains[h := [h]], sh.where[key := h]);
    assert HomeOk(mem, start, hash, sh.chains[h], h);
    assert sh.chains[h] == [] && key !in sh.where;
    assert mem[h] == EMPTY;
    NewSlotIndexed(mem, mem', hash, sh, sh', key, value, h);
    EmptyHomeLinks(mem, mem', start, hash, sh, sh', key, value, h);
    EmptyHomeMarks(mem, mem', start, hash, sh, sh', key, value, h);
    assert Inv(mem', start, hash, sh');
    InsertedContents(mem, mem', start, hash, sh, sh', key, value, h);
  }

  lemma EmptyHomeLinks(mem: seq<Record>, mem': seq<Record>, start: int, hash: Long -> int, sh: Shape, sh': Shape, key: Long, value: Long, h: nat)
    requires Fits(start, |mem|) && |sh.chains| == |mem| && ChainsLinked(mem, start, hash, sh)
    requires h < |mem| && mem[h] == EMPTY && hash(key) == h && key != 0
    requires mem' == WriteKeyAndValue(mem, h, key, value)
    requires sh' == Shape(sh.chains[h := [h]], sh.where[key := h])
    ensures ChainsLinked(mem', start, hash, sh')
  {
    forall g, j | 0 <= g < |mem'| && 0 <= j < |sh'.chains[g]|
      ensures LinkOk(mem', start, hash, sh'.chains[g], g, j)
    {
      if g != h {
        assert LinkOk(mem, start, hash, sh.chains[g], g, j);
      }
    }
  }

  lemma EmptyHomeMarks(mem: seq<Record>, mem': seq<Record>, start: int, hash: Long -> int, sh: Shape, sh': Shape, key: Long, value: Long, h: nat)
    requires Fits(start, |mem|) && |sh.chains| == |mem| && HomesMarked(mem, start, hash, sh)
    requires h < |mem| && mem[h] == EMPTY && hash(key) == h && key != 0
    requires mem' == WriteKeyAndValue(mem, h, key, value)
    requires sh' == Shape(sh.chains[h := [h]], sh.where[key := h])
    ensures HomesMarked(mem', start, hash, sh')
  {
    forall g | 0 <= g < |mem'|
      ensures HomeOk(mem', start, hash, sh'.chains[g], g)
    {
      if g != h {
        assert HomeOk(mem, start, hash, sh.chains[g], g);
      }
    }
  }

  /** A key already stored keeps its slot; only its value changes. */
  lemma ReplaceValue(mem: seq<Record>, start: int, hash: Long -> int, sh: Shape, key: Long, value: Long, s: nat)
    requires Inv(mem, start, hash, sh)
    requires s < |mem| && mem[s].key == key && key != 0
    ensures key in Contents(mem, start, hash, sh)
    ensures Inv(WriteKeyAndValue(mem, s, key, value), start, hash, sh)
    ensures Contents(WriteKeyAndValue(mem, s, key, value), start, hash, sh) == Contents(mem, start, hash, sh)[key := value]
  {
    var mem' := WriteKeyAndValue(mem, s, key, value);
    SameLinksValid(mem, mem', start, hash, sh);
    RewrittenContents(mem, mem', start, hash, sh, key, value, s);
  }

  /** Rewriting the values of occupied records keeps the invariant. */
  lemma SameLinksValid(mem: seq<Record>, mem': seq<Record>, start: int, hash: Long -> int, sh: Shape)
    requires Inv(mem, start, hash, sh)
    requires |mem'| == |mem|
    requires forall i | 0 <= i < |mem| ::
      && mem'[i].key == mem[i].key && mem'[i].next == mem[i].next && mem'[i].origin == mem[i].origin
      && (mem[i].key == 0 ==> mem'[i] == mem[i])
    ensures Inv(mem', start, hash, sh)
  {
    SameLinksLinked(mem, mem', start, hash, sh);
    SameLinksMarked(mem, mem', start, hash, sh);
  }

  /** The value of the stored key in slot `s` is the one that changed. */
  lemma RewrittenContents(mem: seq<Record>, mem': seq<Record>, start: int, hash: Long -> int, sh: Shape, key: Long, value: Long, s: nat)
    requires Inv(mem, start, hash, sh) && Inv(mem', start, hash, sh)
    requires s < |mem| == |mem'| && mem[s].key == key && key != 0 && mem'[s].value == value
    requires forall i | 0 <= i < |mem| && i != s :: mem'[i].value == mem[i].value
    ensures key in Contents(mem, start, hash, sh)
    ensures Contents(mem', start, hash, sh) == Contents(mem, start, hash, sh)[key := value]
  {
    assert sh.where[key] == s;
    assert sh.where[key := s] == sh.where;
    ValuesAfterWrite(mem, mem', sh.where, key, value, s);
  }

  /** Rewriting values only leaves the chains linked. */
  lemma SameLinksLinked(mem: seq<Record>, mem': seq<Record>, start: int, hash: Long -> int, sh: Shape)
    requires |sh.chains| == |mem| && ChainsLinked(mem, start, hash, sh)
    requires |mem'| == |mem|
    requires forall i | 0 <= i < |mem| :: mem'[i].key == mem[i].key && mem'[i].next == mem[i].next
    ensures ChainsLinked(mem', start, hash, sh)
  {
    forall g, j | 0 <= g < |mem'| && 0 <= j < |sh.chains[g]|
      ensures LinkOk(mem', start, hash, sh.chains[g], g, j)
    {
      assert LinkOk(mem, start, hash, sh.chains[g], g, j);
    }
  }

  /** Rewriting values only leaves the homes marked. */
  lemma SameLinksMarked(mem: seq<Record>, mem': seq<Record>, start: int, hash: Long -> int, sh: Shape)
    requires |sh.chains| == |mem| && HomesMarked(mem, start, hash, sh)
    requires |mem'| == |mem|
    requires forall i | 0 <= i < |mem| :: mem'[i].key == mem[i].key && mem'[i].origin == mem[i].origin
    ensures HomesMarked(mem', start, hash, sh)
  {
    forall g | 0 <= g < |mem'|
      ensures HomeOk(mem', start, hash, sh.chains[g], g)
    {
      assert HomeOk(mem, start, hash, sh.chains[g], g);
    }
  }

  /** The first key of hash `h` whose home slot `h` was taken by a key of
      another hash: it goes to the free slot `f`, and the home's `origin`
      (0 until now) points there. */
  lemma PlaceBehindStolenHome(mem: seq<Record>, start: int, hash: Long -> int, sh: Shape, key: Long, value: Long, h: nat, f: nat)
    requires Inv(mem, start, hash, sh)
    requires key != 0 && h < |mem| && hash(key) == h
    requires mem[h].key != 0 && hash(mem[h].key) != h && mem[h].origin == 0
    requires f < |mem| && mem[f].key == 0
    ensures key !in Contents(mem, start, hash, sh)
    ensures f != h
    ensures Inv(WriteKeyAndValue(mem[h := mem[h].(origin := AddressOf(start, f))], f, key, value),
                start, hash, Shape(sh.chains[h := [f]], sh.where[key := f]))
    ensures Contents(WriteKeyAndValue(mem[h := mem[h].(origin := AddressOf(start, f))], f, key, value),
                     start, hash, Shape(sh.chains[h := [f]], sh.where[key := f]))
            == Contents(mem, start, hash, sh)[key := value]
  {
    var mem' := WriteKeyAndValue(mem[h := mem[h].(origin := AddressOf(start, f))], f, key, value);
    var sh' := Shape(sh.chains[h := [f]], sh.where[key := f]);
    assert HomeOk(mem, start, hash, sh.chains[h], h);
    assert sh.chains[h] == [];
    assert key !in sh.where;
    assert mem[f] == EMPTY;
    assert f != h;
    LinkAndWriteFrame(mem, mem', h, f, key, value, mem[h].(origin := AddressOf(start, f)));
    StolenHomeValid(mem, mem', start, hash, sh, sh', key, value, h, f);
    InsertedContents(mem, mem', start, hash, sh, sh', key, value, f);
  }

  /** The invariant half of PlaceBehindStolenHome. */
  lemma StolenHomeValid(mem: seq<Record>, mem': seq<Record>, start: int, hash: Long -> int, sh: Shape, sh': Shape, key: Long, value: Long, h: nat, f: nat)
    requires Inv(mem, start, hash, sh)
    requires key != 0 && key !in sh.where && h < |mem| && hash(key) == h
    requires mem[h].key != 0 && hash(mem[h].key) != h && mem[h].origin == 0 && sh.chains[h] == []
    requires f < |mem| && f != h && mem[f] == EMPTY
    requires mem' == WriteKeyAndValue(mem[h := mem[h].(origin := AddressOf(start, f))], f, key, value)
    requires sh' == Shape(sh.chains[h := [f]], sh.where[key := f])
    requires forall i | 0 <= i < |mem| && i != f :: mem'[i].key == mem[i].key && (mem[i].key == 0 ==> mem'[i] == mem[i])
    ensures Inv(mem', start, hash, sh')
  {
    NewSlotIndexed(mem, mem', hash, sh, sh', key, value, f);
    StolenHomeLinks(mem, mem', start, hash, sh, sh', key, value, h, f);
    StolenHomeMarks(mem, mem', start, hash, sh, sh', key, value, h, f);
  }

  /** Linking slot `t`, which holds a key, to the slot `f` and writing a key
      and value into `f`: every other slot keeps its key and value, and empty
      slots stay as they were. */
  lemma LinkAndWriteFrame(mem: seq<Record>, mem': seq<Record>, t: nat, f: nat, key: Long, value: Long, linked: Record)
    requires t < |mem| && f < |mem| && t != f && mem[t].key != 0
    requires linked.key == mem[t].key && linked.value == mem[t].value
    requires mem' == WriteKeyAndValue(mem[t := linked], f, key, value)
    ensures |mem'| == |mem| && mem'[f].value == value
    ensures forall i | 0 <= i < |mem| && i != f :: mem'[i].key == mem[i].key && mem'[i].value == mem[i].value
                                                 && (mem[i].key == 0 ==> mem'[i] == mem[i])
  {
    forall i | 0 <= i < |mem| && i != f
      ensures mem'[i].key == mem[i].key && mem'[i].value == mem[i].value && (mem[i].key == 0 ==> mem'[i] == mem[i])
    {
      if i != t {
        assert mem'[i] == mem[i];
      }
    }
  }

  /** Writing a new key into the empty slot `f` adds exactly that key. */
  lemma InsertedContents(mem: seq<Record>, mem': seq<Record>, start: int, hash: Long -> int, sh: Shape, sh': Shape, key: Long, value: Long, f: nat)
    requires Inv(mem, start, hash, sh) && Inv(mem', start, hash, sh')
    requires |mem'| == |mem| && f < |mem| && mem[f].key == 0 && mem'[f].value == value
    requires forall i | 0 <= i < |mem| && i != f :: mem'[i].value == mem[i].value
    requires sh'.where == sh.where[key := f]
    ensures Contents(mem', start, hash, sh') == Contents(mem, start, hash, sh)[key := value]
  {
    forall k | k in sh.where && k != key
      ensures sh.where[k] != f
    {
    }
    ValuesAfterWrite(mem, mem', sh.where, key, value, f);
  }

  /** A new key written into the empty slot `f`: the slot index and the
      key placement stay exact, given the key's chain is updated to hold `f`. */
  lemma NewSlotIndexed(mem: seq<Record>, mem': seq<Record>, hash: Long -> int, sh: Shape, sh': Shape, key: Long, value: Long, f: nat)
    requires |sh.chains| == |mem| && SlotsIndexed(mem, sh) && KeysPlaced(mem, hash, sh) && EmptiesClear(mem)
    requires key != 0 && key !in sh.where && 0 <= hash(key) < |mem|
    requires f < |mem| && mem[f].key == 0
    requires |mem'| == |mem| && mem'[f] == Record(key, value, 0, 0)
    requires forall i | 0 <= i < |mem| && i != f :: mem'[i].key == mem[i].key && (mem[i].key == 0 ==> mem'[i] == mem[i])
    requires sh'.where == sh.where[key := f] && |sh'.chains| == |sh.chains|
    requires f in sh'.chains[hash(key)]
    requires forall g | 0 <= g < |mem| && g != hash(key) :: sh'.chains[g] == sh.chains[g]
    requires forall k | k in sh.where :: sh.where[k] in sh.chains[hash(k)] ==> sh.where[k] in sh'.chains[hash(k)]
    ensures SlotsIndexed(mem', sh') && KeysPlaced(mem', hash, sh')
    ensures EmptiesClear(mem')
  {
  }

  lemma StolenHomeLinks(mem: seq<Record>, mem': seq<Record>, start: int, hash: Long -> int, sh: Shape, sh': Shape, key: Long, value: Long, h: nat, f: nat)
    requires Fits(start, |mem|) && |sh.chains| == |mem| && ChainsLinked(mem, start, hash, sh)
    requires h < |mem| && f < |mem| && f != h && mem[f] == EMPTY && hash(key) == h && key != 0
    requires mem' == WriteKeyAndValue(mem[h := mem[h].(origin := AddressOf(start, f))], f, key, value)
    requires sh' == Shape(sh.chains[h := [f]], sh.where[key := f])
    requires sh.chains[h] == []
    ensures ChainsLinked(mem', start, hash, sh')
  {
    assert mem'[f] == Record(key, value, 0, 0);
    forall g, j | 0 <= g < |mem'| && 0 <= j < |sh'.chains[g]|
      ensures LinkOk(mem', start, hash, sh'.chains[g], g, j)
    {
      if g != h {
        var c := sh.chains[g];
        assert LinkOk(mem, start, hash, c, g, j);
        assert c[j] != f;
        assert mem'[c[j]].key == mem[c[j]].key && mem'[c[j]].next == mem[c[j]].next;
      }
    }
  }

  lemma StolenHomeMarks(mem: seq<Record>, mem': seq<Record>, start: int, hash: Long -> int, sh: Shape, sh': Shape, key: Long, value: Long, h: nat, f: nat)
    requires Fits(start, |mem|) && |sh.chains| == |mem| && HomesMarked(mem, start, hash, sh)
    requires h < |mem| && f < |mem| && f != h && mem[f] == EMPTY && hash(key) == h && key != 0
    requires mem[h].key != 0 && hash(mem[h].key) != h
    requires mem' == WriteKeyAndValue(mem[h := mem[h].(origin := AddressOf(start, f))], f, key, value)
    requires sh' == Shape(sh.chains[h := [f]], sh.where[key := f])
    ensures HomesMarked(mem', start, hash, sh')
  {
    assert HomeOk(mem, start, hash, sh.chains[f], f);
    forall g | 0 <= g < |mem'|
      ensures HomeOk(mem', start, hash, sh'.chains[g], g)
    {
      if g != h && g != f {
        assert HomeOk(mem, start, hash, sh.chains[g], g);
      }
    }
  }

  /** The last link of a chain ends it: its `next` is 0. */
  lemma ChainTail(mem: seq<Record>, start: int, hash: Long -> int, sh: Shape, h: nat)
    requires Inv(mem, start, hash, sh)
    requires h < |mem| && sh.chains[h] != []
    ensures Last(sh.chains[h]) < |mem|
    ensures mem[Last(sh.chains[h])].key != 0 && hash(mem[Last(sh.chains[h])].key) == h
    ensures mem[Last(sh.chains[h])].next == 0
  {
    assert LinkOk(mem, start, hash, sh.chains[h], h, |sh.chains[h]| - 1);
  }

  /** A new key of hash `h` whose chain exists and ends at slot `t`: it goes
      to the free slot `f`, and `t`'s `next` (0 until now) links to it. */
  lemma AppendToChain(mem: seq<Record>, start: int, hash: Long -> int, sh: Shape, key: Long, value: Long, h: nat, t: nat, f: nat)
    requires Inv(mem, start, hash, sh)
    requires key != 0 && key !in sh.where && h < |mem| && hash(key) == h
    requires sh.chains[h] != [] && t == Last(sh.chains[h]) && t < |mem|
    requires f < |mem| && mem[f].key == 0
    ensures Inv(WriteKeyAndValue(mem[t := mem[t].(next := AddressOf(start, f))], f, key, value),
                start, hash, Shape(sh.chains[h := sh.chains[h] + [f]], sh.where[key := f]))
    ensures Contents(WriteKeyAndValue(mem[t := mem[t].(next := AddressOf(start, f))], f, key, value),
                     start, hash, Shape(sh.chains[h := sh.chains[h] + [f]], sh.where[key := f]))
            == Contents(mem, start, hash, sh)[key := value]
  {
    var c := sh.chains[h];
    var mem' := WriteKeyAndValue(mem[t := mem[t].(next := AddressOf(start, f))], f, key, value);
    var sh' := Shape(sh.chains[h := c + [f]], sh.where[key := f]);
    ChainTail(mem, start, hash, sh, h);
    assert mem[f] == EMPTY;
    LinkAndWriteFrame(mem, mem', t, f, key, value, mem[t].(next := AddressOf(start, f)));
    AppendValid(mem, mem', start, hash, sh, sh', key, value, h, f);
    InsertedContents(mem, mem', start, hash, sh, sh', key, value, f);
  }

  /** The invariant half of AppendToChain. */
  lemma AppendValid(mem: seq<Record>, mem': seq<Record>, start: int, hash: Long -> int, sh: Shape, sh': Shape, key: Long, value: Long, h: nat, f: nat)
    requires Inv(mem, start, hash, sh)
    requires key != 0 && key !in sh.where && h < |mem| && hash(key) == h
    requires sh.chains[h] != [] && Last(sh.chains[h]) < |mem| && Last(sh.chains[h]) != f
    requires f < |mem| && mem[f] == EMPTY
    requires mem' == WriteKeyAndValue(mem[Last(sh.chains[h]) := mem[Last(sh.chains[h])].(next := AddressOf(start, f))], f, key, value)
    requires sh' == Shape(sh.chains[h := sh.chains[h] + [f]], sh.where[key := f])
    requires forall i | 0 <= i < |mem| && i != f :: mem'[i].key == mem[i].key && (mem[i].key == 0 ==> mem'[i] == mem[i])
    ensures Inv(mem', start, hash, sh')
  {
    NewSlotIndexed(mem, mem', hash, sh, sh', key, value, f);
    AppendLinks(mem, mem', start, hash, sh, sh', key, value, h, f);
    AppendMarks(mem, mem', start, hash, sh, sh', key, value, h, f);
  }

  lemma AppendLinks(mem: seq<Record>, mem': seq<Record>, start: int, hash: Long -> int, sh: Shape, sh': Shape, key: Long, value: Long, h: nat, f: nat)
    requires Fits(start, |mem|) && |sh.chains| == |mem| && ChainsLinked(mem, start, hash, sh)
    requires h < |mem| && f < |mem| && mem[f] == EMPTY && hash(key) == h && key != 0
    requires sh.chains[h] != [] && Last(sh.chains[h]) < |mem|
    requires mem' == WriteKeyAndValue(mem[Last(sh.chains[h]) := mem[Last(sh.chains[h])].(next := AddressOf(start, f))], f, key, value)
    requires sh' == Shape(sh.chains[h := sh.chains[h] + [f]], sh.where[key := f])
    ensures ChainsLinked(mem', start, hash, sh')
  {
    var c := sh.chains[h];
    var t := Last(c);
    assert LinkOk(mem, start, hash, c, h, |c| - 1);
    assert t != f;
    assert mem'[f] == Record(key, value, 0, 0);
    assert mem'[t].key == mem[t].key && mem'[t].next == AddressOf(start, f);
    forall g, j | 0 <= g < |mem'| && 0 <= j < |sh'.chains[g]|
      ensures LinkOk(mem', start, hash, sh'.chains[g], g, j)
    {
      if g != h {
        var cg := sh.chains[g];
        assert LinkOk(mem, start, hash, cg, g, j);
        assert cg[j] != f && cg[j] != t;
        assert mem'[cg[j]] == mem[cg[j]];
      } else if j < |c| - 1 {
        assert LinkOk(mem, start, hash, c, h, j);
        assert c[j] != t by { LinkedChainAcyclic(mem, start, hash, c, h, j, |c| - 1); }
        assert c[j] != f;
        assert mem'[c[j]] == mem[c[j]];
        assert sh'.chains[g][j + 1] == c[j + 1];
      }
    }
  }

  lemma AppendMarks(mem: seq<Record>, mem': seq<Record>, start: int, hash: Long -> int, sh: Shape, sh': Shape, key: Long, value: Long, h: nat, f: nat)
    requires Fits(start, |mem|) && |sh.chains| == |mem| && HomesMarked(mem, start, hash, sh)
    requires h < |mem| && f < |mem| && mem[f] == EMPTY && hash(key) == h && key != 0
    requires sh.chains[h] != [] && Last(sh.chains[h]) < |mem|
    requires mem' == WriteKeyAndValue(mem[Last(sh.chains[h]) := mem[Last(sh.chains[h])].(next := AddressOf(start, f))], f, key, value)
    requires sh' == Shape(sh.chains[h := sh.chains[h] + [f]], sh.where[key := f])
    ensures HomesMarked(mem', start, hash, sh')
  {
    assert HomeOk(mem, start, hash, sh.chains[f], f);
    assert HomeOk(mem, start, hash, sh.chains[h], h);
    forall g | 0 <= g < |mem'|
      ensures HomeOk(mem', start, hash, sh'.chains[g], g)
    {
      assert HomeOk(mem, start, hash, sh.chains[g], g);
    }
  }

  function Last(c: seq<nat>): nat
    requires c != []
  {
    c[|c| - 1]
  }
}
