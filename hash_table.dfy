/** The value-level meaning of the name-lookup dictionary: a table of 23 bucket
    chains, the slot a key's hash code selects, the chain search, and what a lookup
    and an insertion do to the table. The class in dictionary.dfy keeps its array
    equal to `buckets` of a `Table` and is proved against the functions here. */
module HashTable {
  import opened Wrappers
  import opened LinkedLists

  /** .NET's `int`, the type of `GetHashCode()`. */
  newtype Int32 = x: int | -0x8000_0000 <= x < 0x8000_0000

  /** The number of buckets the table is allocated with. */
  const TableSize: nat := 23

  /** `h & 0x7fffffff`: the low 31 bits of the 32-bit two's-complement pattern of h,
      that is, h with its sign bit cleared. */
  function MaskSignBit(h: Int32): (r: nat)
    ensures r < 0x8000_0000
    ensures r == if h >= 0 then h as int else h as int + 0x8000_0000
  {
    ((h as int) % 0x1_0000_0000) % 0x8000_0000
  }

  /** The table location of a key whose hash code is h, in a table of `length`
      buckets: the masked hash code reduced modulo the table length. */
  function GetLocation(h: Int32, length: nat): (loc: nat)
    requires length > 0
    ensures loc < length
    ensures h >= 0 ==> loc == h as int % length
  {
    MaskSignBit(h) % length
  }

  /** Hash codes that differ by a multiple of 23 share a location. */
  lemma {:induction false} SameLocationAcrossPeriods(h1: Int32, h2: Int32, n: nat)
    requires 0 <= h1 && h2 as int == h1 as int + TableSize * n
    ensures GetLocation(h1, TableSize) == GetLocation(h2, TableSize)
  {
    if n > 0 {
      var h := h2 as int - TableSize;
      assert h == h1 as int + TableSize * (n - 1);
      SameLocationAcrossPeriods(h1, h as Int32, n - 1);
    }
  }

  /** 23 consecutive non-negative hash codes occupy 23 different locations. */
  lemma ConsecutiveHashesDistinctLocations(lo: Int32, i: nat, j: nat)
    requires 0 <= lo && lo as int + TableSize <= 0x8000_0000
    requires i < j < TableSize
    ensures GetLocation((lo as int + i) as Int32, TableSize) != GetLocation((lo as int + j) as Int32, TableSize)
  {
    var a, b := lo as int + i, lo as int + j;
    var qa, qb := a / TableSize, b / TableSize;
    assert a == TableSize * qa + a % TableSize;
    assert b == TableSize * qb + b % TableSize;
  }

  datatype KeyValuePair<K, V> = KeyValuePair(key: K, value: V)

  /** What GetCell computes: the first cell of `list`, in chain order, whose key
      Equals k (`eq(cellKey, k)`), or Nil when there is none. */
  function FindCell<K, V>(eq: (K, K) -> bool, k: K, list: LinkedList<KeyValuePair<K, V>>)
    : (cell: LinkedList<KeyValuePair<K, V>>)
    ensures |Elements(cell)| <= |Elements(list)|
    ensures Elements(cell) == Elements(list)[|Elements(list)| - |Elements(cell)|..]
    ensures forall i | 0 <= i < |Elements(list)| - |Elements(cell)| :: !eq(Elements(list)[i].key, k)
    ensures cell.Cell? ==> eq(cell.data.key, k)
    ensures cell.Nil? <==> forall p | p in Elements(list) :: !eq(p.key, k)
  {
    match list
    case Nil => Nil
    case Cell(data, next) => if eq(data.key, k) then list else FindCell(eq, k, next)
  }

  /** Within one chain, no cell's key Equals the key of a cell in front of it. This
      is what Add's duplicate check keeps true: a new key goes at the head only when
      no key already in the chain Equals it. */
  ghost predicate NoDuplicateKeys<K, V>(eq: (K, K) -> bool, s: seq<KeyValuePair<K, V>>) {
    forall a, b | 0 <= a < b < |s| :: !eq(s[b].key, s[a].key)
  }

  /** The error conditions Add and TryGetValue raise. */
  datatype Error =
    | ArgumentNull   // ArgumentNullException: the key is null
    | DuplicateKey   // the key is already in the dictionary

  /** The .NET Equals contract, which the dictionary does not check: the lemmas that
      rely on it say so. */
  ghost predicate Reflexive<K(!new)>(eq: (K, K) -> bool) {
    forall x :: eq(x, x)
  }

  ghost predicate Symmetric<K(!new)>(eq: (K, K) -> bool) {
    forall x, y :: eq(x, y) ==> eq(y, x)
  }

  ghost predicate Transitive<K(!new)>(eq: (K, K) -> bool) {
    forall x, y, z :: eq(x, y) && eq(y, z) ==> eq(x, z)
  }

  /** The .NET GetHashCode contract: keys that are Equal have equal hash codes. */
  ghost predicate HashConsistent<K(!new)>(hash: K -> Int32, eq: (K, K) -> bool) {
    forall x, y :: eq(x, y) ==> hash(x) == hash(y)
  }

  /** The dictionary's state: the key type's hash code and equality, and the array of
      bucket chains. */
  datatype Table<!K, V> = Table(hash: K -> Int32, eq: (K, K) -> bool, buckets: seq<LinkedList<KeyValuePair<K, V>>>)
  {
    /** The bucket a key belongs to. */
    function Location(k: K): (loc: nat)
      requires |buckets| > 0
      ensures loc < |buckets|
    {
      GetLocation(hash(k), |buckets|)
    }

    /** 23 buckets; every cell lies in the bucket of its key; no duplicates in a chain. */
    ghost predicate Valid() {
      && |buckets| == TableSize
      && (forall i, p | 0 <= i < |buckets| && p in Elements(buckets[i]) :: Location(p.key) == i)
      && (forall i | 0 <= i < |buckets| :: NoDuplicateKeys(eq, Elements(buckets[i])))
    }

    /** The value TryGetValue finds for k: that of the first cell of k's bucket whose
        key Equals k, or None when there is no such cell. */
    function Lookup(k: K): (r: Option<V>)
      requires |buckets| > 0
      ensures r.None? <==> forall p | p in Elements(buckets[Location(k)]) :: !eq(p.key, k)
    {
      var cell := FindCell(eq, k, buckets[Location(k)]);
      if cell.Nil? then None else Some(cell.data.value)
    }

    /** Add(k, v) on a non-null key: a DuplicateKey error when k's bucket holds a key
        that Equals k (no other bucket is consulted), else the table with a new cell
        (k, v) at the head of k's bucket and every other bucket as it was. */
    function Add(k: K, v: V): (r: Result<Table<K, V>, Error>)
      requires |buckets| > 0
      ensures r.Failure? <==> exists p | p in Elements(buckets[Location(k)]) :: eq(p.key, k)
      ensures r.Failure? ==> r.error == DuplicateKey
      ensures r.Success? ==>
        && r.value.hash == hash && r.value.eq == eq
        && |r.value.buckets| == |buckets|
        && (forall i | 0 <= i < |buckets| && i != Location(k) :: r.value.buckets[i] == buckets[i])
        && Elements(r.value.buckets[Location(k)]) == [KeyValuePair(k, v)] + Elements(buckets[Location(k)])
    {
      var loc := Location(k);
      if FindCell(eq, k, buckets[loc]).Cell? then Failure(DuplicateKey)
      else Success(Table(hash, eq, buckets[loc := Cell(KeyValuePair(k, v), buckets[loc])]))
    }
  }

  /** A freshly constructed dictionary: 23 empty buckets. */
  function Empty<K, V>(hash: K -> Int32, eq: (K, K) -> bool): (t: Table<K, V>)
    ensures |t.buckets| == TableSize
    ensures forall i | 0 <= i < TableSize :: t.buckets[i] == Nil
    ensures t.Valid()
  {
    Table(hash, eq, seq(TableSize, _ => Nil))
  }

  /** The empty dictionary finds nothing, whatever the key. */
  lemma EmptyLookup<K, V>(hash: K -> Int32, eq: (K, K) -> bool, k: K)
    ensures Empty<K, V>(hash, eq).Lookup(k) == None
  {
  }

  /** Putting a pair in front of a chain keeps it free of duplicates when no key
      already in the chain Equals the new key. */
  lemma {:induction false} PrependKeepsNoDuplicateKeys<K, V>(eq: (K, K) -> bool, kv: KeyValuePair<K, V>, s: seq<KeyValuePair<K, V>>)
    requires NoDuplicateKeys(eq, s)
    requires forall p | p in s :: !eq(p.key, kv.key)
    ensures NoDuplicateKeys(eq, [kv] + s)
  {
    var s' := [kv] + s;
    forall a, b | 0 <= a < b < |s'| ensures !eq(s'[b].key, s'[a].key) {
      assert s'[b] == s[b - 1];
      if a == 0 {
        assert s[b - 1] in s;
      } else {
        assert s'[a] == s[a - 1];
      }
    }
  }

  /** A successful Add keeps the table valid. */
  lemma AddPreservesValid<K, V>(t: Table<K, V>, k: K, v: V)
    requires t.Valid() && t.Add(k, v).Success?
    ensures t.Add(k, v).value.Valid()
  {
    var t', loc := t.Add(k, v).value, t.Location(k);
    var s := Elements(t.buckets[loc]);
    var s' := Elements(t'.buckets[loc]);
    assert s' == [KeyValuePair(k, v)] + s;
    forall i, p | 0 <= i < |t'.buckets| && p in Elements(t'.buckets[i])
      ensures t'.Location(p.key) == i
    {
      if i != loc {
        assert t'.buckets[i] == t.buckets[i];
      } else if p != KeyValuePair(k, v) {
        assert p in s;
      }
    }
    forall i | 0 <= i < |t'.buckets|
      ensures NoDuplicateKeys(t.eq, Elements(t'.buckets[i]))
    {
      if i == loc {
        PrependKeepsNoDuplicateKeys(t.eq, KeyValuePair(k, v), s);
      } else {
        assert t'.buckets[i] == t.buckets[i];
      }
    }
  }

  /** Lookup after a successful Add(k, v): a key k' of k's bucket that k Equals
      now finds the new cell, which is at the head; every other lookup is as before. */
  lemma LookupAfterAdd<K, V>(t: Table<K, V>, k: K, v: V, k': K)
    requires |t.buckets| > 0 && t.Add(k, v).Success?
    ensures t.Add(k, v).value.Lookup(k') ==
      if t.Location(k') == t.Location(k) && t.eq(k, k') then Some(v) else t.Lookup(k')
  {
    var t' := t.Add(k, v).value;
    assert t'.Location(k') == t.Location(k');
    if t.Location(k') == t.Location(k) {
      var loc := t.Location(k);
      assert t'.buckets[loc] == Cell(KeyValuePair(k, v), t.buckets[loc]);
    } else {
      assert t'.buckets[t.Location(k')] == t.buckets[t.Location(k')];
    }
  }

  /** A key that Equals itself (as every key does under a reflexive Equals) is found
      with its value right after it is added. */
  lemma AddThenLookup<K, V>(t: Table<K, V>, k: K, v: V)
    requires |t.buckets| > 0 && t.Add(k, v).Success?
    requires t.eq(k, k)
    ensures t.Add(k, v).value.Lookup(k) == Some(v)
  {
    LookupAfterAdd(t, k, v, k);
  }

  /** With an Equals that is symmetric and transitive, a successful Add does not
      disturb any key that was already found: collisions never overwrite entries. */
  lemma AddKeepsEarlierEntries<K(!new), V>(t: Table<K, V>, k: K, v: V, k': K)
    requires |t.buckets| > 0 && t.Add(k, v).Success?
    requires Symmetric(t.eq) && Transitive(t.eq)
    requires t.Lookup(k').Some?
    ensures t.Add(k, v).value.Lookup(k') == t.Lookup(k')
  {
    LookupAfterAdd(t, k, v, k');
  }

  /** In a valid table whose Equals is reflexive and symmetric, every stored pair is
      found by a lookup of its own key, with its own value: no entry is shadowed. */
  lemma StoredPairsRetrievable<K(!new), V>(t: Table<K, V>, i: nat, j: nat)
    requires t.Valid() && Reflexive(t.eq) && Symmetric(t.eq)
    requires i < |t.buckets| && j < |Elements(t.buckets[i])|
    ensures t.Lookup(Elements(t.buckets[i])[j].key) == Some(Elements(t.buckets[i])[j].value)
  {
    var s := Elements(t.buckets[i]);
    var p := s[j];
    assert p in s;
    assert t.Location(p.key) == i;
    var c := FindCell(t.eq, p.key, t.buckets[i]);
    assert t.eq(p.key, p.key);
    var n := |s| - |Elements(c)|;
    assert n <= j;
    assert c.Cell? && c.data == s[n];
    assert NoDuplicateKeys(t.eq, s);
  }

  /** For a key type that keeps the GetHashCode contract, looking only in k's own
      bucket finds every key of the table that Equals k: Add rejects k exactly when a
      key Equal to it is anywhere in the dictionary. */
  lemma AddFailsIffAnywhere<K(!new), V>(t: Table<K, V>, k: K, v: V)
    requires t.Valid() && HashConsistent(t.hash, t.eq)
    ensures t.Add(k, v).Failure? <==>
      exists i, p | 0 <= i < |t.buckets| && p in Elements(t.buckets[i]) :: t.eq(p.key, k)
  {
    var loc := t.Location(k);
    forall i, p | 0 <= i < |t.buckets| && p in Elements(t.buckets[i]) && t.eq(p.key, k)
      ensures p in Elements(t.buckets[loc])
    {
      assert t.hash(p.key) == t.hash(k);
      assert t.Location(p.key) == i;
    }
  }

  /** For a key type that keeps the GetHashCode contract and a symmetric Equals, a
      valid table holds no two Equal keys anywhere, not only within one chain. */
  lemma GlobalNoDuplicates<K(!new), V>(t: Table<K, V>, i: nat, a: nat, j: nat, b: nat)
    requires t.Valid() && HashConsistent(t.hash, t.eq) && Symmetric(t.eq)
    requires i < |t.buckets| && a < |Elements(t.buckets[i])|
    requires j < |t.buckets| && b < |Elements(t.buckets[j])|
    requires (i, a) != (j, b)
    ensures !t.eq(Elements(t.buckets[i])[a].key, Elements(t.buckets[j])[b].key)
  {
    var x, y := Elements(t.buckets[i])[a], Elements(t.buckets[j])[b];
    assert x in Elements(t.buckets[i]) && y in Elements(t.buckets[j]);
    if i == j {
      if a < b {
        assert !t.eq(y.key, x.key);
      }
    } else {
      assert t.hash(x.key) != t.hash(y.key);
    }
  }
}
