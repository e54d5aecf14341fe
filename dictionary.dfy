/** The generic name-lookup dictionary: a fixed array of 23 bucket chains, updated
    in place. The key type's GetHashCode and Equals are supplied as `hash` and `eq`,
    `default(TValue)` as `defaultValue`, and a null key is `None`. */
module NameLookup {
  import opened Wrappers
  import opened LinkedLists
  import opened HashTable

  class Dictionary<K, V> {
    const hash: K -> Int32
    const eq: (K, K) -> bool
    const defaultValue: V

    /** The keys and values in the dictionary, one chain per table location. */
    const elements: array<LinkedList<KeyValuePair<K, V>>>

    /** The table the array currently holds. */
    ghost function Model(): Table<K, V>
      reads elements
    {
      Table(hash, eq, elements[..])
    }

    ghost predicate Valid()
      reads elements
    {
      Model().Valid()
    }

    /** A new dictionary: 23 empty buckets. */
    constructor (hash: K -> Int32, eq: (K, K) -> bool, defaultValue: V)
      ensures Valid() && fresh(elements)
      ensures Model() == Empty(hash, eq)
      ensures this.defaultValue == defaultValue
    {
      this.hash := hash;
      this.eq := eq;
      this.defaultValue := defaultValue;
      elements := new LinkedList<KeyValuePair<K, V>>[TableSize](_ => Nil);
      new;
      assert elements[..] == Empty<K, V>(hash, eq).buckets;
    }

    /** Throws ArgumentNullException when the key is null. */
    static function CheckKey(key: Option<K>): (r: Outcome<Error>)
      ensures r == Pass <==> key.Some?
      ensures r.Fail? ==> r.error == ArgumentNull
    {
      if key.None? then Fail(ArgumentNull) else Pass
    }

    /** Walks `list` from its head and stops at the first cell whose key Equals k. */
    method GetCell(k: K, list: LinkedList<KeyValuePair<K, V>>) returns (cell: LinkedList<KeyValuePair<K, V>>)
      ensures cell == FindCell(eq, k, list)
    {
      cell := list;
      while cell.Cell? && !eq(cell.data.key, k)
        invariant FindCell(eq, k, cell) == FindCell(eq, k, list)
        decreases cell
      {
        cell := cell.next;
      }
    }

    /** Links `cell` in as the new head of the chain at `loc`. */
    method InsertCell(cell: LinkedList<KeyValuePair<K, V>>, loc: nat)
      requires cell.Cell? && loc < elements.Length
      modifies elements
      ensures elements[..] == old(elements[..])[loc := Cell(cell.data, old(elements[loc]))]
    {
      elements[loc] := Cell(cell.data, elements[loc]);
    }

    /** Makes a new cell holding (k, v) and links it in at `loc`. */
    method Insert(k: K, v: V, loc: nat)
      requires loc < elements.Length
      modifies elements
      ensures elements[..] == old(elements[..])[loc := Cell(KeyValuePair(k, v), old(elements[loc]))]
    {
      var cell := Cell(KeyValuePair(k, v), Nil);
      InsertCell(cell, loc);
    }

    /** Tries to get the value associated with k: (true, its value) when k's bucket
        holds a key that Equals k, else (false, default(TValue)). */
    method TryGetValue(k: Option<K>) returns (r: Result<(bool, V), Error>)
      requires Valid()
      ensures k.None? ==> r == Failure(ArgumentNull)
      ensures k.Some? ==> r == Success(
        match Model().Lookup(k.value)
        case Some(v) => (true, v)
        case None => (false, defaultValue))
    {
      var checked := CheckKey(k);
      if checked.Fail? {
        return Failure(checked.error);
      }
      var loc := GetLocation(hash(k.value), elements.Length);
      var cell := GetCell(k.value, elements[loc]);
      if cell.Nil? {
        r := Success((false, defaultValue));
      } else {
        r := Success((true, cell.data.value));
      }
    }

    /** Adds k with value v at the head of k's bucket; a null key or a key that Equals
        one already in k's bucket is rejected and the array is left as it was. */
    method Add(k: Option<K>, v: V) returns (r: Outcome<Error>)
      requires Valid()
      modifies elements
      ensures Valid()
      ensures k.None? ==> r == Fail(ArgumentNull) && elements[..] == old(elements[..])
      ensures k.Some? ==>
        match old(Model()).Add(k.value, v)
        case Failure(e) => r == Fail(e) && elements[..] == old(elements[..])
        case Success(t) => r == Pass && Model() == t
    {
      var checked := CheckKey(k);
      if checked.Fail? {
        return checked;
      }
      var loc := GetLocation(hash(k.value), elements.Length);
      var cell := GetCell(k.value, elements[loc]);
      if cell.Cell? {
        return Fail(DuplicateKey);
      }
      ghost var before := Model();
      Insert(k.value, v, loc);
      assert Model() == before.Add(k.value, v).value;
      AddPreservesValid(before, k.value, v);
      r := Pass;
    }
  }
}
