// open_hash_map<Key, Type>: a separately chained hash map with a fixed
// number of slots.
//
// The slots_ array stays an array. The chain of nodes hanging off slot i,
// linked through nxt_, is modelled as the sequence of its entries, chain
// head first; a node pointer is the position (slot, index in chain) of its
// entry. The pure table functions (TableInsert, TableLookup, Flatten,
// NextNonEmpty) say what the methods compute and are reused by the JSON
// object model, whose properties live in such a table.
module HashMaps {
  import opened Wrappers

  /** The int returned by the hash function. */
  newtype Int32 = x: int | -0x8000_0000 <= x < 0x8000_0000

  const DEFAULT_CAPACITY: nat := 1024
  const TWO_TO_64: int := 0x1_0000_0000_0000_0000

  /** One node's key_ and val_. */
  datatype Entry<K, V> = Entry(key: K, val: V)

  /** A bucket chain, head first. */
  type Chain<K, V> = seq<Entry<K, V>>

  /** A node pointer: null, or the node at position pos of the chain in slot. */
  datatype NodeRef = Null | At(slot: nat, pos: nat)

  /**
   * hash_fn_(k) % capacity_: the int hash is converted to size_t, that is
   * taken modulo 2^64, before the remainder, so a negative hash selects
   * slot (2^64 + h) % capacity.
   */
  function SlotIndex(h: Int32, capacity: nat): (idx: nat)
    requires capacity > 0
    ensures idx < capacity
    ensures h >= 0 ==> idx == h as int % capacity
    ensures h < 0 ==> idx == (TWO_TO_64 + h as int) % capacity
  {
    ((h as int) % TWO_TO_64) % capacity
  }

  /** The position of the first node with key k in the chain, or its length when there is none. */
  function KeyPos<K(==), V>(chain: Chain<K, V>, k: K): (j: nat)
    ensures j <= |chain|
    ensures j < |chain| ==> chain[j].key == k
    ensures forall i :: 0 <= i < j ==> chain[i].key != k
  {
    if chain == [] then 0
    else if chain[0].key == k then 0
    else 1 + KeyPos(chain[1..], k)
  }

  predicate HasKey<K(==), V>(chain: Chain<K, V>, k: K)
  {
    KeyPos(chain, k) < |chain|
  }

  /** The value of the first node with key k in the chain. */
  function ChainLookup<K(==), V>(chain: Chain<K, V>, k: K): Option<V>
  {
    var j := KeyPos(chain, k);
    if j < |chain| then Some(chain[j].val) else None
  }

  /** The value stored for k: looked up in the chain of k's slot. */
  function TableLookup<K(==), V>(slots: seq<Chain<K, V>>, hash: K -> Int32, k: K): Option<V>
    requires |slots| > 0
  {
    ChainLookup(slots[SlotIndex(hash(k), |slots|)], k)
  }

  /**
   * insert_node: refused when k is already in its slot's chain, otherwise
   * the new node becomes the head of that chain.
   */
  function TableInsert<K(==), V>(slots: seq<Chain<K, V>>, hash: K -> Int32, k: K, v: V): (r: (seq<Chain<K, V>>, bool))
    requires |slots| > 0
  {
    var idx := SlotIndex(hash(k), |slots|);
    if HasKey(slots[idx], k) then (slots, false)
    else (slots[idx := [Entry(k, v)] + slots[idx]], true)
  }

  /** Every node of slot i's chain hashes to i, and no key occurs twice in it. */
  ghost predicate ChainOk<K, V>(chain: Chain<K, V>, i: nat, capacity: nat, hash: K -> Int32)
    requires capacity > 0
  {
    (forall j :: 0 <= j < |chain| ==> SlotIndex(hash(chain[j].key), capacity) == i) &&
    (forall j, l :: 0 <= j < l < |chain| ==> chain[j].key != chain[l].key)
  }

  /** The table invariant insert_node keeps. */
  ghost predicate WellHashed<K, V>(slots: seq<Chain<K, V>>, hash: K -> Int32)
  {
    |slots| > 0 && forall i :: 0 <= i < |slots| ==> ChainOk(slots[i], i, |slots|, hash)
  }

  /** All nodes, slot by slot and in chain order within a slot: the order of iteration. */
  function Flatten<K, V>(slots: seq<Chain<K, V>>): seq<Entry<K, V>>
  {
    if slots == [] then [] else Flatten(slots[..|slots| - 1]) + slots[|slots| - 1]
  }

  /** The first slot from j on (below cnt) whose chain is not empty, or j itself once j >= cnt, as the iterator's slot scan finds it. */
  function NextNonEmpty<K, V>(slots: seq<Chain<K, V>>, j: int, cnt: int): (s: int)
    requires 0 <= j && cnt <= |slots|
    ensures j <= s && (j < cnt ==> s <= cnt) && (j >= cnt ==> s == j)
    ensures s < cnt ==> slots[s] != []
    ensures forall i :: j <= i < s && i < cnt ==> slots[i] == []
    decreases cnt - j
  {
    if j >= cnt then j
    else if slots[j] != [] then j
    else NextNonEmpty(slots, j + 1, cnt)
  }

  /**
   * iterator::next: the next node of the same chain, or else the head of
   * the first non-empty slot after slot_idx_, or null; with the new slot_idx_.
   */
  function Successor<K, V>(slots: seq<Chain<K, V>>, ptr: NodeRef, slotIdx: int, slotCnt: int): (r: (NodeRef, int))
    requires ptr.At? && ptr.slot < |slots| && ptr.pos < |slots[ptr.slot]|
    requires -1 <= slotIdx && slotCnt <= |slots|
  {
    if ptr.pos + 1 < |slots[ptr.slot]| then (At(ptr.slot, ptr.pos + 1), slotIdx)
    else
      var s := NextNonEmpty(slots, slotIdx + 1, slotCnt);
      (if s < slotCnt then At(s, 0) else Null, s)
  }

  // ---------------------------------------------------------------------
  // Properties of the table functions

  /** After insert, k maps to v exactly when it was absent before; every other key keeps its value. */
  lemma TableInsertLookup<K, V>(slots: seq<Chain<K, V>>, hash: K -> Int32, k: K, v: V, k': K)
    requires |slots| > 0
    ensures TableInsert(slots, hash, k, v).1 <==> TableLookup(slots, hash, k) == None
    ensures TableLookup(TableInsert(slots, hash, k, v).0, hash, k') ==
      if k' == k && TableInsert(slots, hash, k, v).1 then Some(v) else TableLookup(slots, hash, k')
  {
    var idx := SlotIndex(hash(k), |slots|);
    var idx' := SlotIndex(hash(k'), |slots|);
    var (r, ok) := TableInsert(slots, hash, k, v);
    if ok && idx' == idx {
      var chain := [Entry(k, v)] + slots[idx];
      assert r[idx'] == chain;
      if k' != k {
        assert chain[1..] == slots[idx];
        assert KeyPos(chain, k') == 1 + KeyPos(slots[idx], k');
      }
    }
  }

  /** Inserting keeps the table well hashed. */
  lemma TableInsertWellHashed<K, V>(slots: seq<Chain<K, V>>, hash: K -> Int32, k: K, v: V)
    requires WellHashed(slots, hash)
    ensures WellHashed(TableInsert(slots, hash, k, v).0, hash)
  {
    var idx := SlotIndex(hash(k), |slots|);
    var (r, ok) := TableInsert(slots, hash, k, v);
    if ok {
      var chain := r[idx];
      assert chain == [Entry(k, v)] + slots[idx];
      assert ChainOk(slots[idx], idx, |slots|, hash);
      forall j, l | 0 <= j < l < |chain|
        ensures chain[j].key != chain[l].key
      {
        if j == 0 {
          assert chain[l] == slots[idx][l - 1];
        }
      }
      assert ChainOk(chain, idx, |slots|, hash);
    }
  }

  /** Flatten of a table whose slot i was replaced adds the difference of the chain lengths. */
  lemma {:induction false} FlattenUpdateLength<K, V>(slots: seq<Chain<K, V>>, i: nat, c: Chain<K, V>)
    requires i < |slots|
    ensures |Flatten(slots[i := c])| == |Flatten(slots)| - |slots[i]| + |c|
    decreases |slots|
  {
    var n := |slots| - 1;
    var r := slots[i := c];
    assert r[..n] == if i < n then slots[..n][i := c] else slots[..n];
    if i < n {
      FlattenUpdateLength(slots[..n], i, c);
    }
  }

  /** insert grows the node count by one exactly when it succeeds. */
  lemma TableInsertSize<K, V>(slots: seq<Chain<K, V>>, hash: K -> Int32, k: K, v: V)
    requires |slots| > 0
    ensures |Flatten(TableInsert(slots, hash, k, v).0)| ==
      |Flatten(slots)| + if TableInsert(slots, hash, k, v).1 then 1 else 0
  {
    var idx := SlotIndex(hash(k), |slots|);
    if !HasKey(slots[idx], k) {
      FlattenUpdateLength(slots, idx, [Entry(k, v)] + slots[idx]);
    }
  }

  /** A table of empty chains holds no node. */
  lemma {:induction false} FlattenEmpty<K, V>(slots: seq<Chain<K, V>>)
    requires forall i :: 0 <= i < |slots| ==> slots[i] == []
    ensures Flatten(slots) == []
  {
    if slots != [] {
      FlattenEmpty(slots[..|slots| - 1]);
    }
  }

  /** Where the node at (i, j) sits in the iteration order. */
  lemma {:induction false} FlattenAt<K, V>(slots: seq<Chain<K, V>>, i: nat, j: nat)
    requires i < |slots| && j < |slots[i]|
    ensures |Flatten(slots[..i])| + j < |Flatten(slots)|
    ensures Flatten(slots)[|Flatten(slots[..i])| + j] == slots[i][j]
    decreases |slots|
  {
    var n := |slots| - 1;
    assert slots[..n + 1] == slots;
    if i < n {
      assert slots[..n][..i] == slots[..i];
      FlattenAt(slots[..n], i, j);
    }
  }

  /** Every node of the iteration order comes from some slot's chain. */
  lemma {:induction false} FlattenMember<K, V>(slots: seq<Chain<K, V>>, p: nat)
    requires p < |Flatten(slots)|
    ensures exists i, j :: 0 <= i < |slots| && 0 <= j < |slots[i]| && p == |Flatten(slots[..i])| + j && Flatten(slots)[p] == slots[i][j]
    decreases |slots|
  {
    var n := |slots| - 1;
    var pre := Flatten(slots[..n]);
    if p < |pre| {
      FlattenMember(slots[..n], p);
      var i, j :| 0 <= i < n && 0 <= j < |slots[..n][i]| && p == |Flatten(slots[..n][..i])| + j && pre[p] == slots[..n][i][j];
      assert slots[..n][..i] == slots[..i];
      assert Flatten(slots)[p] == slots[i][j];
    } else {
      assert Flatten(slots)[p] == slots[n][p - |pre|];
    }
  }

  /** exists(k) agrees with iteration: k is found in its slot iff some node of the table has key k. */
  lemma LookupIffIterated<K, V>(slots: seq<Chain<K, V>>, hash: K -> Int32, k: K)
    requires WellHashed(slots, hash)
    ensures TableLookup(slots, hash, k).Some? <==> exists p :: 0 <= p < |Flatten(slots)| && Flatten(slots)[p].key == k
  {
    var idx := SlotIndex(hash(k), |slots|);
    var chain := slots[idx];
    if TableLookup(slots, hash, k).Some? {
      var j := KeyPos(chain, k);
      FlattenAt(slots, idx, j);
    }
    if p :| 0 <= p < |Flatten(slots)| && Flatten(slots)[p].key == k {
      FlattenMember(slots, p);
      var i, j :| 0 <= i < |slots| && 0 <= j < |slots[i]| && p == |Flatten(slots[..i])| + j && Flatten(slots)[p] == slots[i][j];
      assert ChainOk(slots[i], i, |slots|, hash);
      assert i == idx;
      assert KeyPos(chain, k) <= j;
    }
  }

  /** In a well-hashed table every key is visited at most once. */
  lemma IteratedKeysDistinct<K, V>(slots: seq<Chain<K, V>>, hash: K -> Int32)
    requires WellHashed(slots, hash)
    ensures forall p, q :: 0 <= p < q < |Flatten(slots)| ==> Flatten(slots)[p].key != Flatten(slots)[q].key
  {
    forall p, q | 0 <= p < q < |Flatten(slots)|
      ensures Flatten(slots)[p].key != Flatten(slots)[q].key
    {
      var all := Flatten(slots);
      FlattenMember(slots, p);
      FlattenMember(slots, q);
      var i1, j1 :| 0 <= i1 < |slots| && 0 <= j1 < |slots[i1]| && p == |Flatten(slots[..i1])| + j1 && all[p] == slots[i1][j1];
      var i2, j2 :| 0 <= i2 < |slots| && 0 <= j2 < |slots[i2]| && q == |Flatten(slots[..i2])| + j2 && all[q] == slots[i2][j2];
      assert ChainOk(slots[i1], i1, |slots|, hash);
      assert ChainOk(slots[i2], i2, |slots|, hash);
      if i1 == i2 {
        assert j1 < j2;
      }
    }
  }

  /** Slots a to b being empty, the nodes before slot b are those before slot a. */
  lemma {:induction false} FlattenSkip<K, V>(slots: seq<Chain<K, V>>, a: nat, b: nat)
    requires a <= b <= |slots|
    requires forall i :: a <= i < b ==> slots[i] == []
    ensures Flatten(slots[..b]) == Flatten(slots[..a])
    decreases b - a
  {
    if a < b {
      assert slots[..b][..b - 1] == slots[..b - 1];
      FlattenSkip(slots, a, b - 1);
    }
  }

  /**
   * How far a walk from begin() has got: es holds the nodes before the
   * iterator's node in iteration order, or all of them once it is null.
   */
  ghost predicate WalkedTo<K, V>(slots: seq<Chain<K, V>>, ptr: NodeRef, slotIdx: int, es: seq<Entry<K, V>>)
  {
    (ptr.At? ==>
       ptr.slot < |slots| && ptr.pos < |slots[ptr.slot]| && slotIdx == ptr.slot &&
       es == Flatten(slots[..ptr.slot]) + slots[ptr.slot][..ptr.pos]) &&
    (ptr.Null? ==> slotIdx == |slots| && es == Flatten(slots))
  }

  /** One ++ of a walk appends the current node and moves forward in the chain or to a later slot. */
  lemma WalkStep<K, V>(slots: seq<Chain<K, V>>, ptr: NodeRef, slotIdx: int, es: seq<Entry<K, V>>)
    requires WalkedTo(slots, ptr, slotIdx, es) && ptr.At?
    ensures WalkedTo(slots, Successor(slots, ptr, slotIdx, |slots|).0, Successor(slots, ptr, slotIdx, |slots|).1,
      es + [slots[ptr.slot][ptr.pos]])
    ensures Successor(slots, ptr, slotIdx, |slots|).1 > slotIdx ||
      (Successor(slots, ptr, slotIdx, |slots|) == (At(ptr.slot, ptr.pos + 1), slotIdx))
  {
    var s, p := ptr.slot, ptr.pos;
    assert slots[s][..p + 1] == slots[s][..p] + [slots[s][p]];
    if p + 1 == |slots[s]| {
      assert slots[s][..p + 1] == slots[s];
      assert slots[..s + 1][..s] == slots[..s];
      var t := NextNonEmpty(slots, s + 1, |slots|);
      FlattenSkip(slots, s + 1, t);
      if t == |slots| {
        assert slots[..t] == slots;
      }
    }
  }

  // ---------------------------------------------------------------------
  // The map object

  /** open_hash_map::iterator: the slots it walks, the current node and the slot scan position. */
  class MapIterator<K, V> {
    var slots: array<Chain<K, V>>
    var ptr: NodeRef
    var slotIdx: int
    var slotCnt: int

    constructor (slots: array<Chain<K, V>>, ptr: NodeRef, slotIdx: int, slotCnt: int)
      ensures this.slots == slots && this.ptr == ptr && this.slotIdx == slotIdx && this.slotCnt == slotCnt
    {
      this.slots, this.ptr, this.slotIdx, this.slotCnt := slots, ptr, slotIdx, slotCnt;
    }

    /** The current pointer is a node of its slots, and the slot scan stays inside the array. */
    ghost predicate Positioned()
      reads this, slots
    {
      ptr.At? && ptr.slot < slots.Length && ptr.pos < |slots[ptr.slot]| &&
      -1 <= slotIdx && slotCnt <= slots.Length
    }

    /**
     * operator==: only the node pointers are compared, so an iterator
     * equals end() exactly when it stands on no node.
     */
    predicate Equals(other: MapIterator<K, V>)
      reads this, other
      ensures ptr.Null? ==> (Equals(other) <==> other.ptr.Null?)
      ensures other.ptr.Null? ==> (Equals(other) <==> ptr.Null?)
    {
      ptr == other.ptr
    }

    /** operator*: the current node. */
    function Value(): (e: Entry<K, V>)
      requires Positioned()
      reads this, slots
      ensures e == slots[ptr.slot][ptr.pos]
    {
      slots[ptr.slot][ptr.pos]
    }

    /** operator++: next(). */
    method Next()
      requires Positioned()
      modifies this
      ensures slots == old(slots) && slotCnt == old(slotCnt)
      ensures (ptr, slotIdx) == Successor(slots[..], old(ptr), old(slotIdx), slotCnt)
    {
      var nxt := Null;
      if ptr.pos + 1 < |slots[ptr.slot]| {
        nxt := At(ptr.slot, ptr.pos + 1);
      } else {
        var idx := slotIdx + 1;
        while idx < slotCnt
          invariant slotIdx + 1 <= idx && (slotIdx + 1 < slotCnt ==> idx <= slotCnt)
          invariant slotIdx + 1 >= slotCnt ==> idx == slotIdx + 1
          invariant NextNonEmpty(slots[..], slotIdx + 1, slotCnt) == NextNonEmpty(slots[..], idx, slotCnt)
          invariant nxt == Null
          decreases slotCnt - idx
        {
          if slots[idx] != [] {
            nxt := At(idx, 0);
            break;
          }
          idx := idx + 1;
        }
        slotIdx := idx;
      }
      ptr := nxt;
    }
  }

  class HashMap<K(==), V> {
    var capacity: nat
    var size: nat
    var slots: array<Chain<K, V>>
    var hash: K -> Int32

    /**
     * slots_ has capacity_ slots (a positive int-sized count, since slot
     * indices and the iterator's slot counter are ints), the chains are
     * well hashed, and size_ counts the nodes.
     */
    ghost predicate Valid()
      reads this, slots
    {
      0 < capacity < 0x8000_0000 && slots.Length == capacity &&
      WellHashed(slots[..], hash) && size == |Flatten(slots[..])|
    }

    /** open_hash_map(c, hash): c empty slots. */
    constructor (c: nat, h: K -> Int32)
      requires 0 < c < 0x8000_0000
      ensures Valid() && capacity == c && hash == h && fresh(slots)
      ensures forall i :: 0 <= i < c ==> slots[i] == []
    {
      capacity, size, hash := c, 0, h;
      slots := new Chain<K, V>[c](_ => []);
      new;
      FlattenEmpty(slots[..]);
    }

    /** The copy constructor: same capacity, size and hash, and a node-by-node copy of every chain. */
    constructor Copy(rhs: HashMap<K, V>)
      requires rhs.Valid()
      ensures Valid() && fresh(slots)
      ensures capacity == rhs.capacity && size == rhs.size && hash == rhs.hash && slots[..] == rhs.slots[..]
    {
      capacity, size, hash := rhs.capacity, rhs.size, rhs.hash;
      slots := new Chain<K, V>[rhs.capacity](_ => []);
      new;
      CopyNodes(rhs);
      assert slots[..] == rhs.slots[..];
    }

    /** copy_nodes: each slot below both capacities gets a fresh copy of rhs's chain, in order. */
    method CopyNodes(rhs: HashMap<K, V>)
      requires slots != rhs.slots && slots.Length == capacity && rhs.slots.Length == rhs.capacity
      modifies slots
      ensures forall i :: 0 <= i < capacity && i < rhs.capacity ==> slots[i] == rhs.slots[i]
      ensures forall i :: rhs.capacity <= i < capacity ==> slots[i] == old(slots[i])
    {
      var i := 0;
      while i < capacity && i < rhs.capacity
        invariant 0 <= i <= capacity && i <= rhs.capacity
        invariant forall j :: 0 <= j < i ==> slots[j] == rhs.slots[j]
        invariant forall j :: i <= j < capacity ==> slots[j] == old(slots[j])
      {
        var src := rhs.slots[i];
        if src != [] {
          var cpy := [src[0]];
          var n := 1;
          while n < |src|
            invariant 1 <= n <= |src| && cpy == src[..n]
          {
            cpy := cpy + [src[n]];
            n := n + 1;
          }
          slots[i] := cpy;
        } else {
          slots[i] := [];
        }
        i := i + 1;
      }
    }

    /** delete_nodes: every chain is released and every slot emptied. */
    method DeleteNodes()
      requires slots.Length == capacity
      modifies slots
      ensures forall i :: 0 <= i < capacity ==> slots[i] == []
    {
      var i := 0;
      while i < capacity
        invariant 0 <= i <= capacity
        invariant forall j :: 0 <= j < i ==> slots[j] == []
      {
        if slots[i] != [] {
          slots[i] := [];
        }
        i := i + 1;
      }
    }

    /**
     * operator=: unless rhs is this, the nodes and slots are released and
     * capacity, size, hash and a copy of every chain are taken from rhs.
     */
    method Assign(rhs: HashMap<K, V>)
      requires Valid() && rhs.Valid()
      requires rhs != this ==> rhs.slots != slots
      modifies this, slots
      ensures Valid()
      ensures capacity == old(rhs.capacity) && size == old(rhs.size) && hash == old(rhs.hash)
      ensures slots[..] == old(rhs.slots[..])
      ensures rhs.slots[..] == old(rhs.slots[..])
    {
      if this != rhs {
        DeleteNodes();
        capacity, size, hash := rhs.capacity, rhs.size, rhs.hash;
        slots := new Chain<K, V>[capacity](_ => []);
        CopyNodes(rhs);
        assert slots[..] == rhs.slots[..];
      }
    }

    /** clear: no node left in any slot, size 0, capacity kept. */
    method Clear()
      requires Valid()
      modifies this, slots
      ensures Valid() && slots == old(slots) && capacity == old(capacity) && hash == old(hash) && size == 0
      ensures forall k :: TableLookup(slots[..], hash, k) == None
    {
      DeleteNodes();
      size := 0;
      FlattenEmpty(slots[..]);
      forall k
        ensures TableLookup(slots[..], hash, k) == None
      {
        assert slots[SlotIndex(hash(k), capacity)] == [];
      }
    }

    /** insert (through insert_node): as TableInsert, with size_ counting the new node. */
    method Insert(k: K, v: V) returns (inserted: bool)
      requires Valid()
      modifies this, slots
      ensures Valid() && slots == old(slots) && capacity == old(capacity) && hash == old(hash)
      ensures (slots[..], inserted) == TableInsert(old(slots[..]), hash, k, v)
      ensures size == old(size) + if inserted then 1 else 0
    {
      var idx := SlotIndex(hash(k), capacity);
      var chain := slots[idx];
      var j := 0;
      while j < |chain|
        invariant j <= |chain|
        invariant forall i :: 0 <= i < j ==> chain[i].key != k
      {
        if chain[j].key == k {
          return false;
        }
        j := j + 1;
      }
      ghost var before := slots[..];
      TableInsertWellHashed(before, hash, k, v);
      TableInsertSize(before, hash, k, v);
      slots[idx] := [Entry(k, v)] + chain;
      size := size + 1;
      inserted := true;
      assert slots[..] == before[idx := [Entry(k, v)] + chain];
    }

    /** exists: whether k's slot chain has a node with key k. */
    method Exists(k: K) returns (b: bool)
      requires Valid()
      ensures b <==> TableLookup(slots[..], hash, k).Some?
    {
      var idx := SlotIndex(hash(k), capacity);
      var chain := slots[idx];
      var j := 0;
      while j < |chain|
        invariant j <= |chain|
        invariant forall i :: 0 <= i < j ==> chain[i].key != k
      {
        if chain[j].key == k {
          return true;
        }
        j := j + 1;
      }
      return false;
    }

    /** find: an iterator on the node with key k in its slot's chain, or on null; its slot scan starts at k's slot. */
    method Find(k: K) returns (it: MapIterator<K, V>)
      requires Valid()
      ensures fresh(it) && it.slots == slots && it.slotCnt == capacity
      ensures it.slotIdx == SlotIndex(hash(k), capacity)
      ensures TableLookup(slots[..], hash, k).None? ==> it.ptr == Null
      ensures TableLookup(slots[..], hash, k).Some? ==>
        it.ptr == At(it.slotIdx, KeyPos(slots[it.slotIdx], k)) && it.Positioned() &&
        it.Value() == Entry(k, TableLookup(slots[..], hash, k).value)
    {
      var idx := SlotIndex(hash(k), capacity);
      var chain := slots[idx];
      var j := 0;
      while j < |chain|
        invariant j <= |chain|
        invariant forall i :: 0 <= i < j ==> chain[i].key != k
      {
        if chain[j].key == k {
          break;
        }
        j := j + 1;
      }
      it := new MapIterator(slots, if j < |chain| then At(idx, j) else Null, idx, capacity);
    }

    /** operator[]: the value of k's node (k must be present: a missing key dereferences null). */
    method Get(k: K) returns (v: V)
      requires Valid() && TableLookup(slots[..], hash, k).Some?
      ensures Some(v) == TableLookup(slots[..], hash, k)
    {
      var it := Find(k);
      v := it.Value().val;
    }

    /** begin: an iterator on the head of the first non-empty slot, or null when all are empty. */
    method Begin() returns (it: MapIterator<K, V>)
      requires Valid()
      ensures fresh(it) && it.slots == slots && it.slotCnt == capacity
      ensures it.slotIdx == NextNonEmpty(slots[..], 0, capacity)
      ensures it.ptr == if it.slotIdx < capacity then At(it.slotIdx, 0) else Null
    {
      var idx := 0;
      var p := Null;
      while idx < capacity
        invariant 0 <= idx <= capacity && p == Null
        invariant NextNonEmpty(slots[..], 0, capacity) == NextNonEmpty(slots[..], idx, capacity)
      {
        p := if slots[idx] != [] then At(idx, 0) else Null;
        if p != Null {
          break;
        }
        idx := idx + 1;
      }
      it := new MapIterator(slots, p, idx, capacity);
    }

    /** end: the null iterator with its slot scan finished. */
    method End() returns (it: MapIterator<K, V>)
      requires Valid()
      ensures fresh(it) && it.slots == slots && it.ptr == Null && it.slotIdx == capacity && it.slotCnt == capacity
    {
      it := new MapIterator(slots, Null, capacity, capacity);
    }

    /** size(). */
    function Size(): (n: nat)
      requires Valid()
      reads this, slots
      ensures n == |Flatten(slots[..])|
    {
      size
    }

    /**
     * A loop from begin() to end(): it visits every node once, slot by
     * slot and in chain order within a slot.
     */
    method Walk() returns (es: seq<Entry<K, V>>)
      requires Valid()
      ensures es == Flatten(slots[..]) && |es| == size
    {
      var it := Begin();
      var last := End();
      FlattenSkip(slots[..], 0, it.slotIdx);
      if it.ptr.Null? {
        assert slots[..it.slotIdx] == slots[..];
      }
      es := [];
      while !it.Equals(last)
        invariant fresh(it) && it != last && it.slots == slots && it.slotCnt == capacity && last.ptr == Null
        invariant WalkedTo(slots[..], it.ptr, it.slotIdx, es)
        decreases capacity - it.slotIdx, if it.ptr.At? then |slots[it.ptr.slot]| - it.ptr.pos else 0
      {
        WalkStep(slots[..], it.ptr, it.slotIdx, es);
        es := es + [it.Value()];
        it.Next();
      }
    }
  }
}
