/** The bucketed, string-keyed hash table of teeuniverses/tl/hashtable.h.

    `m_Table[TABLESIZE]` is an array of buckets; each bucket is the
    growable `array<entry>` of base/tl, modelled as a sequence that the
    methods reassign. An entry's key is a `dynamic_string`, modelled by its
    contents. Data is copied by plain assignment (the default allocator's
    `copy`). */
module HashTable {
  import opened CBase

  datatype Entry<T> = Entry(key: string, data: T)

  /** A C `char` is signed: a byte of 128 or more promotes to a negative
      `int` before it is added to the hash. */
  function SignedChar(c: char): (v: int)
    ensures -128 <= v < 128
    ensures v % 256 == c as int % 256
  {
    var b := c as int % 256;
    if b >= 128 then b - 256 else b
  }

  /** The djb2 value of `key` before the final modulo: start at 5381, then
      `Hash = (Hash << 5) + Hash + c` for each character, in unsigned 32-bit
      arithmetic (`(Hash << 5) + Hash` is `Hash * 33` modulo 2^32). */
  function Djb2(key: string): (h: int)
    ensures 0 <= h < TWO32
  {
    if key == [] then 5381
    else (Djb2(key[..|key| - 1]) * 33 + SignedChar(key[|key| - 1])) % TWO32
  }

  /** `hash(pKey)`: the bucket of a key. */
  function Hash(key: string, tableSize: int): (r: int)
    requires tableSize >= 1
    ensures 0 <= r < tableSize
  {
    Djb2(key) % tableSize
  }

  /** Hashing a longer key extends the fold by one step; the folds of keys
      with a common prefix agree on that prefix. */
  lemma Djb2Step(key: string, c: char)
    ensures Djb2(key + [c]) == (Djb2(key) * 33 + SignedChar(c)) % TWO32
  {
    assert (key + [c])[..|key|] == key;
  }

  /** Position of the first entry of `bucket` whose key is `key`, or -1:
      the search loop shared by `set`, `unset` and `get`. */
  function IndexOf<T>(bucket: seq<Entry<T>>, key: string): (r: int)
    ensures -1 <= r < |bucket|
    ensures r == -1 <==> forall j :: 0 <= j < |bucket| ==> bucket[j].key != key
    ensures r >= 0 ==> bucket[r].key == key && forall j :: 0 <= j < r ==> bucket[j].key != key
  {
    if bucket == [] then -1
    else if bucket[0].key == key then 0
    else
      var r := IndexOf(bucket[1..], key);
      if r == -1 then -1 else r + 1
  }

  /** The data stored under `key` in `bucket`, if any. */
  function Find<T>(bucket: seq<Entry<T>>, key: string): Option<T> {
    var i := IndexOf(bucket, key);
    if i < 0 then None else Some(bucket[i].data)
  }

  lemma FindAppend<T>(bucket: seq<Entry<T>>, e: Entry<T>, key: string)
    requires IndexOf(bucket, e.key) == -1
    ensures Find(bucket + [e], key) == if key == e.key then Some(e.data) else Find(bucket, key)
  {
    var b := bucket + [e];
    var i := IndexOf(bucket, key);
    if i >= 0 {
      assert b[i] == bucket[i];
      assert IndexOf(b, key) == i;
    } else {
      assert forall j :: 0 <= j < |bucket| ==> b[j] == bucket[j];
      assert b[|bucket|] == e;
      if key == e.key {
        assert IndexOf(b, key) == |bucket|;
      } else {
        assert IndexOf(b, key) == -1;
      }
    }
  }

  lemma FindRemove<T>(bucket: seq<Entry<T>>, i: nat, key: string)
    requires i < |bucket|
    requires forall j, k :: 0 <= j < k < |bucket| ==> bucket[j].key != bucket[k].key
    ensures Find(bucket[..i] + bucket[i + 1..], key)
         == if key == bucket[i].key then None else Find(bucket, key)
  {
    var b := bucket[..i] + bucket[i + 1..];
    assert forall j :: 0 <= j < i ==> b[j] == bucket[j];
    assert forall j :: i <= j < |b| ==> b[j] == bucket[j + 1];
    var x := IndexOf(bucket, key);
    if key == bucket[i].key {
      assert IndexOf(b, key) == -1;
    } else if x < 0 {
      assert IndexOf(b, key) == -1;
    } else if x < i {
      assert IndexOf(b, key) == x;
    } else {
      var r := IndexOf(b, key);
      assert b[x - 1] == bucket[x];
      assert r == x - 1;
    }
  }

  lemma FindUpdate<T>(bucket: seq<Entry<T>>, i: nat, d: T, key: string)
    requires i < |bucket|
    requires forall j, k :: 0 <= j < k < |bucket| ==> bucket[j].key != bucket[k].key
    ensures Find(bucket[i := Entry(bucket[i].key, d)], key)
         == if key == bucket[i].key then Some(d) else Find(bucket, key)
  {
    var b := bucket[i := Entry(bucket[i].key, d)];
    assert forall j :: 0 <= j < |b| ==> b[j].key == bucket[j].key;
    assert IndexOf(b, key) == IndexOf(bucket, key);
  }

  class HashTable<T> {
    const tableSize: int
    const table: array<seq<Entry<T>>>

    /** Every entry sits in the bucket of its key, and keys are unique
        within a bucket (hence in the whole table). */
    ghost predicate Valid()
      reads this, table
    {
      && tableSize >= 1
      && table.Length == tableSize
      && (forall i, j :: 0 <= i < table.Length && 0 <= j < |table[i]| ==> Hash(table[i][j].key, tableSize) == i)
      && (forall i, j, k :: 0 <= i < table.Length && 0 <= j < k < |table[i]| ==> table[i][j].key != table[i][k].key)
    }

    /** The table as a finite map: the data of `key`, if present. */
    function Lookup(key: string): Option<T>
      reads this, table
      requires tableSize >= 1 && table.Length == tableSize
    {
      Find(table[Hash(key, tableSize)], key)
    }

    constructor (tableSize: int)
      requires tableSize >= 1
      ensures Valid() && fresh(table) && this.tableSize == tableSize
      ensures forall i :: 0 <= i < tableSize ==> table[i] == []
    {
      this.tableSize := tableSize;
      table := new seq<Entry<T>>[tableSize](_ => []);
    }

    /** `clear`: every bucket emptied. */
    method Clear()
      requires Valid()
      modifies table
      ensures Valid()
      ensures forall i :: 0 <= i < tableSize ==> table[i] == []
      ensures forall k :: Lookup(k) == None
    {
      for i := 0 to tableSize
        invariant forall j :: 0 <= j < i ==> table[j] == []
        invariant forall j :: i <= j < tableSize ==> table[j] == old(table[j])
      {
        table[i] := [];
      }
    }

    /** The loop of `set`, `unset` and `get`: the first position in bucket
        `h` whose key is `key`, or -1. */
    method Search(h: int, key: string) returns (i: int)
      requires Valid() && 0 <= h < tableSize
      ensures i == IndexOf(table[h], key)
    {
      i := 0;
      while i < |table[h]|
        invariant 0 <= i <= |table[h]|
        invariant forall j :: 0 <= j < i ==> table[h][j].key != key
      {
        if StrCompZero(table[h][i].key, key) {
          return;
        }
        i := i + 1;
      }
      i := -1;
    }

    /** `set(pKey)`: returns (the location of) the entry of `key`. A present
        key is left alone; an absent one gets a new entry, holding the
        default-constructed value `init`, at the end of its bucket. */
    method SetDefault(key: string, init: T) returns (id: int, subId: int)
      requires Valid()
      modifies table
      ensures Valid()
      ensures id == Hash(key, tableSize) && 0 <= subId < |table[id]| && table[id][subId].key == key
      ensures IndexOf(old(table[id]), key) >= 0 ==> table[..] == old(table[..]) && subId == IndexOf(old(table[id]), key)
      ensures IndexOf(old(table[id]), key) == -1 ==> table[..] == old(table[..])[id := old(table[id]) + [Entry(key, init)]]
      ensures forall k :: Lookup(k) == if k == key && old(Lookup(k)).None? then Some(init) else old(Lookup(k))
    {
      id := Hash(key, tableSize);
      subId := Search(id, key);
      if subId >= 0 {
        return;
      }
      ghost var before := table[id];
      table[id] := table[id] + [Entry(key, init)];
      subId := |table[id]| - 1;
      forall k ensures Lookup(k) == if k == key && old(Lookup(k)).None? then Some(init) else old(Lookup(k)) {
        if Hash(k, tableSize) == id {
          FindAppend(before, Entry(key, init), k);
        }
      }
    }

    /** `set(pKey, Data)`: overwrites the data of a present key, otherwise
        inserts the key with that data. */
    method Set(key: string, data: T) returns (id: int, subId: int)
      requires Valid()
      modifies table
      ensures Valid()
      ensures id == Hash(key, tableSize) && 0 <= subId < |table[id]| && table[id][subId] == Entry(key, data)
      ensures IndexOf(old(table[id]), key) >= 0 ==>
        && subId == IndexOf(old(table[id]), key)
        && table[..] == old(table[..])[id := old(table[id])[subId := Entry(key, data)]]
      ensures IndexOf(old(table[id]), key) == -1 ==> table[..] == old(table[..])[id := old(table[id]) + [Entry(key, data)]]
      ensures forall k :: Lookup(k) == if k == key then Some(data) else old(Lookup(k))
    {
      id := Hash(key, tableSize);
      subId := Search(id, key);
      ghost var before := table[id];
      if subId >= 0 {
        table[id] := table[id][subId := Entry(key, data)];
        forall k ensures Lookup(k) == if k == key then Some(data) else old(Lookup(k)) {
          if Hash(k, tableSize) == id {
            FindUpdate(before, subId, data, k);
          }
        }
        return;
      }
      table[id] := table[id] + [Entry(key, data)];
      subId := |table[id]| - 1;
      forall k ensures Lookup(k) == if k == key then Some(data) else old(Lookup(k)) {
        if Hash(k, tableSize) == id {
          FindAppend(before, Entry(key, data), k);
        }
      }
    }

    /** `unset(pKey)`: removes the first entry of `key` from its bucket
        (keeping the order of the others), if there is one. */
    method Unset(key: string)
      requires Valid()
      modifies table
      ensures Valid()
      ensures var h := Hash(key, tableSize); var i := IndexOf(old(table[h]), key);
        table[..] == if i < 0 then old(table[..]) else old(table[..])[h := old(table[h])[..i] + old(table[h])[i + 1..]]
      ensures forall k :: Lookup(k) == if k == key then None else old(Lookup(k))
    {
      var h := Hash(key, tableSize);
      var i := Search(h, key);
      if i < 0 {
        return;
      }
      ghost var before := table[h];
      table[h] := table[h][..i] + table[h][i + 1..];
      forall k ensures Lookup(k) == if k == key then None else old(Lookup(k)) {
        if Hash(k, tableSize) == h {
          FindRemove(before, i, k);
        }
      }
    }

    /** `get(pKey)` (both the const and the non-const overload): the data
        of the first entry of bucket `hash(key)` with that key, or null. */
    method Get(key: string) returns (r: Option<T>)
      requires Valid()
      ensures r.None? <==> forall j :: 0 <= j < |table[Hash(key, tableSize)]| ==> table[Hash(key, tableSize)][j].key != key
      ensures r.Some? ==> Entry(key, r.value) in table[Hash(key, tableSize)]
      ensures r == Lookup(key)
    {
      var h := Hash(key, tableSize);
      var i := Search(h, key);
      if i < 0 {
        r := None;
      } else {
        r := Some(table[h][i].data);
      }
    }

    /** `get(Id, SubId)`: null outside the table. */
    function GetAt(id: int, subId: int): (r: Option<T>)
      reads this, table
      requires Valid()
      ensures r.Some? <==> 0 <= id < tableSize && 0 <= subId < |table[id]|
      ensures r.Some? ==> r.value == table[id][subId].data
    {
      if 0 <= id < tableSize && 0 <= subId < |table[id]| then Some(table[id][subId].data) else None
    }

    /** `get_key(Id, SubId)`: null outside the table. */
    function GetKey(id: int, subId: int): (r: Option<string>)
      reads this, table
      requires Valid()
      ensures r.Some? <==> 0 <= id < tableSize && 0 <= subId < |table[id]|
      ensures r.Some? ==> Hash(r.value, tableSize) == id
    {
      if 0 <= id < tableSize && 0 <= subId < |table[id]| then Some(table[id][subId].key) else None
    }

    /** `get_subtable_size(Table)`: no bounds check in the source. */
    function SubtableSize(i: int): (r: nat)
      reads this, table
      requires Valid() && 0 <= i < tableSize
      ensures r == |table[i]|
    {
      |table[i]|
    }
  }

  /** `str_comp(a, b) == 0`. */
  function StrCompZero(a: string, b: string): bool {
    a == b
  }

  // -----------------------------------------------------------------------
  // Iteration: positions (bucket, index) in bucket order, then the end
  // position (TABLESIZE, 0).
  // -----------------------------------------------------------------------

  /** The first non-empty bucket at or after `i`, or `|b|`. */
  function FirstNonEmpty<T>(b: seq<seq<Entry<T>>>, i: int): (r: int)
    requires 0 <= i <= |b|
    ensures i <= r <= |b|
    ensures r < |b| ==> |b[r]| > 0
    ensures forall j :: i <= j < r ==> |b[j]| == 0
    decreases |b| - i
  {
    if i == |b| then i else if |b[i]| > 0 then i else FirstNonEmpty(b, i + 1)
  }

  /** Where `operator++` goes from `(id, sub)`: the next entry of the same
      bucket, else the first entry of the next non-empty bucket, else the
      end position. */
  function NextPosition<T>(b: seq<seq<Entry<T>>>, pos: (int, int)): (int, int) {
    var (id, sub) := pos;
    if 0 <= id < |b| then
      if sub + 1 < |b[id]| then (id, sub + 1) else (FirstNonEmpty(b, id + 1), 0)
    else (|b|, 0)
  }

  /** All positions of the buckets from `i` on, in iteration order. */
  function PositionsFrom<T>(b: seq<seq<Entry<T>>>, i: int): (ps: seq<(int, int)>)
    requires 0 <= i <= |b|
    decreases |b| - i
  {
    if i == |b| then [] else seq(|b[i]|, j => (i, j)) + PositionsFrom(b, i + 1)
  }

  /** `n` applications of `operator++`. */
  function Iterate<T>(b: seq<seq<Entry<T>>>, pos: (int, int), n: nat): (int, int) {
    if n == 0 then pos else NextPosition(b, Iterate(b, pos, n - 1))
  }

  lemma {:induction false} PositionsStep<T>(b: seq<seq<Entry<T>>>, i: int)
    requires 0 <= i <= |b|
    ensures var ps := PositionsFrom(b, i);
      && (ps == [] <==> FirstNonEmpty(b, i) == |b|)
      && (ps != [] ==> ps[0] == (FirstNonEmpty(b, i), 0))
      && (ps != [] ==> NextPosition(b, ps[|ps| - 1]) == (|b|, 0))
      && (forall k :: 0 <= k < |ps| - 1 ==> NextPosition(b, ps[k]) == ps[k + 1])
    decreases |b| - i
  {
    if i < |b| {
      PositionsStep(b, i + 1);
      var head := seq(|b[i]|, j => (i, j));
      var rest := PositionsFrom(b, i + 1);
      var ps := PositionsFrom(b, i);
      assert ps == head + rest;
      forall k | 0 <= k < |ps| - 1
        ensures NextPosition(b, ps[k]) == ps[k + 1]
      {
        if k + 1 < |head| {
          assert ps[k] == (i, k) && ps[k + 1] == (i, k + 1);
        } else if k + 1 == |head| {
          assert ps[k] == (i, k) && ps[k + 1] == rest[0];
        } else {
          assert ps[k] == rest[k - |head|] && ps[k + 1] == rest[k - |head| + 1];
        }
      }
      if ps != [] {
        if rest == [] {
          assert ps[|ps| - 1] == (i, |b[i]| - 1);
        } else {
          assert ps[|ps| - 1] == rest[|rest| - 1];
        }
      }
    }
  }

  /** Starting from `begin()` and applying `operator++` visits every entry
      of the table exactly once, bucket by bucket in order, and then
      reaches `end()`. */
  lemma {:induction false} IterationVisitsEveryEntry<T>(b: seq<seq<Entry<T>>>)
    ensures var ps := PositionsFrom(b, 0); var begin := (FirstNonEmpty(b, 0), 0);
      && (forall k :: 0 <= k < |ps| ==> Iterate(b, begin, k) == ps[k])
      && Iterate(b, begin, |ps|) == (|b|, 0)
  {
    var ps := PositionsFrom(b, 0);
    var begin := (FirstNonEmpty(b, 0), 0);
    PositionsStep(b, 0);
    var n := 0;
    while n < |ps|
      invariant 0 <= n <= |ps|
      invariant forall k :: 0 <= k < n ==> Iterate(b, begin, k) == ps[k]
      invariant n < |ps| ==> Iterate(b, begin, n) == ps[n]
      invariant n == |ps| ==> Iterate(b, begin, n) == (|b|, 0)
    {
      if n + 1 < |ps| {
        assert Iterate(b, begin, n + 1) == NextPosition(b, ps[n]) == ps[n + 1];
      } else {
        assert Iterate(b, begin, n + 1) == NextPosition(b, ps[|ps| - 1]);
      }
      n := n + 1;
    }
  }

  /** The bucket indices `operator++` passes to `get_subtable_size`, as
      written: once for the current bucket, then once per bucket the loop
      steps onto, including the step onto `TABLESIZE` itself. */
  function ProbedBuckets<T>(b: seq<seq<Entry<T>>>, id: int, sub: int): seq<int>
    requires 0 <= id < |b|
  {
    [id] + if sub + 1 >= |b[id]| then ProbesFrom(b, id + 1) else []
  }

  function ProbesFrom<T>(b: seq<seq<Entry<T>>>, id: int): (ps: seq<int>)
    requires 0 <= id <= |b|
    decreases |b| - id
  {
    [id] + if id < |b| && |b[id]| == 0 then ProbesFrom(b, id + 1) else []
  }

  lemma {:induction false} ProbesFromEnd<T>(b: seq<seq<Entry<T>>>, id: int)
    requires 0 <= id <= |b|
    ensures var ps := ProbesFrom(b, id);
      && ps[|ps| - 1] == FirstNonEmpty(b, id)
      && (forall k :: 0 <= k < |ps| - 1 ==> ps[k] < FirstNonEmpty(b, id))
      && (forall k :: 0 <= k < |ps| ==> id <= ps[k])
    decreases |b| - id
  {
    if id < |b| && |b[id]| == 0 {
      ProbesFromEnd(b, id + 1);
      var ps := ProbesFrom(b, id);
      var rest := ProbesFrom(b, id + 1);
      assert ps == [id] + rest;
      forall k | 0 <= k < |ps|
        ensures k < |ps| - 1 ==> ps[k] < FirstNonEmpty(b, id)
        ensures id <= ps[k]
      {
        if k > 0 {
          assert ps[k] == rest[k - 1];
        }
      }
    }
  }

  /** The read past the last bucket: `operator++` asks for the size of bucket
      `TABLESIZE`, one past the end of `m_Table`, exactly when it moves to the
      end position from inside the table. */
  lemma IncrementReadsPastLastBucket<T>(b: seq<seq<Entry<T>>>, id: int, sub: int)
    requires 0 <= id < |b|
    ensures |b| in ProbedBuckets(b, id, sub) <==> NextPosition(b, (id, sub)) == (|b|, 0)
    ensures forall k :: k in ProbedBuckets(b, id, sub) ==> id <= k <= |b|
  {
    var ps := ProbedBuckets(b, id, sub);
    if sub + 1 >= |b[id]| {
      ProbesFromEnd(b, id + 1);
      var rest := ProbesFrom(b, id + 1);
      assert ps == [id] + rest;
      if FirstNonEmpty(b, id + 1) == |b| {
        assert ps[|ps| - 1] == |b|;
      }
      forall k | k in ps ensures id <= k <= |b| {
        var j :| 0 <= j < |ps| && ps[j] == k;
        if j > 0 {
          assert k == rest[j - 1];
        }
      }
    }
  }

  /** `hashtable::iterator`. */
  class Iterator<T> {
    const hashTable: HashTable<T>
    var id: int
    var subId: int

    /** `begin()`: the first entry of the first non-empty bucket. */
    constructor Begin(t: HashTable<T>)
      requires t.Valid()
      ensures hashTable == t && subId == 0
      ensures id == FirstNonEmpty(t.table[..], 0)
    {
      hashTable := t;
      subId := 0;
      var i := 0;
      while i < t.tableSize
        invariant 0 <= i <= t.tableSize
        invariant forall j :: 0 <= j < i ==> |t.table[j]| == 0
      {
        if t.SubtableSize(i) != 0 {
          break;
        }
        i := i + 1;
      }
      id := i;
    }

    /** `end()`. */
    constructor End(t: HashTable<T>)
      requires t.Valid()
      ensures hashTable == t && id == t.tableSize && subId == 0
    {
      hashTable := t;
      id := t.tableSize;
      subId := 0;
    }

    /** `operator++`. The source's loop asks for the size of bucket
        `TABLESIZE` when it steps past the last bucket; here that read is
        guarded and yields 0, which does not change where the loop stops. */
    method Next()
      requires hashTable.Valid() && 0 <= id <= hashTable.tableSize && 0 <= subId
      modifies this
      ensures (id, subId) == NextPosition(hashTable.table[..], (old(id), old(subId)))
      ensures 0 <= id <= hashTable.tableSize && 0 <= subId
    {
      var t := hashTable;
      ghost var b := t.table[..];
      if id < t.tableSize {
        subId := subId + 1;
        var tableSubSize := t.SubtableSize(id);
        while subId >= tableSubSize && id < t.tableSize
          invariant 0 <= id <= t.tableSize && 0 <= subId
          invariant id < t.tableSize ==> tableSubSize == |b[id]|
          invariant id == t.tableSize ==> tableSubSize == 0
          invariant || (id == old(id) && subId == old(subId) + 1)
                    || (old(id) < id && subId == 0 && old(subId) + 1 >= |b[old(id)]|
                        && FirstNonEmpty(b, old(id) + 1) == FirstNonEmpty(b, id))
          decreases t.tableSize - id
        {
          id := id + 1;
          subId := 0;
          tableSubSize := if id < t.tableSize then t.SubtableSize(id) else 0;
        }
      } else {
        id := t.tableSize;
        subId := 0;
      }
    }

    /** `data()`: null at the end position. */
    function Data(): (r: Option<T>)
      reads this, hashTable, hashTable.table
      requires hashTable.Valid()
      ensures r.Some? <==> 0 <= id < hashTable.tableSize && 0 <= subId < |hashTable.table[id]|
    {
      hashTable.GetAt(id, subId)
    }

    /** `key()`: null at the end position. */
    function Key(): (r: Option<string>)
      reads this, hashTable, hashTable.table
      requires hashTable.Valid()
      ensures r.Some? <==> 0 <= id < hashTable.tableSize && 0 <= subId < |hashTable.table[id]|
    {
      hashTable.GetKey(id, subId)
    }

    /** `operator==`: same table, same position. */
    function Equal(other: Iterator<T>): (r: bool)
      reads this, other
      ensures r <==> hashTable == other.hashTable && id == other.id && subId == other.subId
    {
      other.hashTable == hashTable && other.id == id && other.subId == subId
    }

    /** `operator!=`: written out field by field, it is the negation of
        `operator==`. */
    function NotEqual(other: Iterator<T>): (r: bool)
      reads this, other
      ensures r <==> !Equal(other)
    {
      other.hashTable != hashTable || other.id != id || other.subId != subId
    }
  }
}
