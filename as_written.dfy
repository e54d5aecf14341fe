/** The bodies of GetLocation, GetCell, Insert(cell, loc), TryGetValue and Add as
    they stand in Dictionary.cs, next to inputs on which they differ from what their
    documentation and the unit tests require. The rest of the model uses the intended
    versions in hash_table.dfy and dictionary.dfy. */
module AsWritten {
  import opened Wrappers
  import opened LinkedLists
  import opened HashTable

  /** The runtime exceptions the literal bodies raise. `Argument` carries the
      exceptions the intended dictionary also raises (`HashTable.Error`); the literal
      bodies only ever raise its ArgumentNull case, from CheckKey. */
  datatype Exception =
    | Argument(error: Error)
    | NullReferenceException
    | DivideByZeroException
    | IndexOutOfRangeException

  /** GetLocation as written: the masked hash code modulo itself. */
  function GetLocationAsWritten(h: Int32): (r: Result<nat, Exception>)
    ensures r.Failure? <==> MaskSignBit(h) == 0
    ensures r.Failure? ==> r.error == DivideByZeroException
    ensures r.Success? ==> r.value == 0
  {
    var x := MaskSignBit(h);
    if x == 0 then Failure(DivideByZeroException) else Success(x % x)
  }

  /** As written, hash codes 500 and 501 share location 0 and hash code 0 divides by
      zero; as intended they go to locations 17 and 18, and 0 to location 0. */
  lemma GetLocationAsWrittenCollapses()
    ensures GetLocationAsWritten(500) == GetLocationAsWritten(501) == Success(0)
    ensures GetLocationAsWritten(0) == Failure(DivideByZeroException)
    ensures GetLocation(500, TableSize) == 17 && GetLocation(501, TableSize) == 18
    ensures GetLocation(0, TableSize) == 0
  {
  }

  /** GetCell as written: it reads `list.Data` and `list.Next` without checking for
      null, and otherwise leaves its loop at once and returns null. Two assumptions
      about `Equals` are made: a non-null key never Equals null, so the first test is
      false; and a cell never Equals the boxed integer `_elements.Rank`, which holds
      under the default reference equality of LinkedListCell (that class is not part
      of this model), so the test in the loop is false too. */
  function GetCellAsWritten<K, V>(list: LinkedList<KeyValuePair<K, V>>)
    : (r: Result<LinkedList<KeyValuePair<K, V>>, Exception>)
    ensures r.Failure? <==> list.Nil? || list.next.Nil?
    ensures r.Failure? ==> r.error == NullReferenceException
    ensures r.Success? ==> r.value == Nil
  {
    if list.Nil? || list.next.Nil? then Failure(NullReferenceException) else Success(Nil)
  }

  /** A one-cell chain whose key is the key searched for: as written GetCell throws,
      as intended it returns that cell. */
  lemma GetCellAsWrittenMissesMatch<V>(v: V)
    ensures GetCellAsWritten(Cell(KeyValuePair(4 as Int32, v), Nil)).Failure?
    ensures FindCell((x: Int32, y: Int32) => x == y, 4, Cell(KeyValuePair(4 as Int32, v), Nil)) ==
      Cell(KeyValuePair(4 as Int32, v), Nil)
  {
  }

  /** Insert(cell, loc) as written: it calls GetCell on `cell` itself, which throws
      or returns null, and then reads `Data` of that null. So it always throws a
      NullReferenceException and never reaches its recursive call. */
  function InsertCellAsWritten<K, V>(cell: LinkedList<KeyValuePair<K, V>>, loc: int): (r: Outcome<Exception>)
    ensures r == Fail(NullReferenceException)
  {
    if cell.Nil? then Fail(NullReferenceException)
    else
      var temp := GetCellAsWritten(cell);
      if temp.Failure? then Fail(temp.error)
      else if temp.value.Nil? then Fail(NullReferenceException)
      else assert false; Fail(NullReferenceException)
  }

  /** Linking the cell (4, v) into a new dictionary: as written it throws, as intended
      the cell becomes the only one at location 4. */
  lemma InsertCellAsWrittenThrows<V>(v: V)
    ensures InsertCellAsWritten(Cell(KeyValuePair(4 as Int32, v), Nil), 4).Fail?
    ensures Empty<Int32, V>(x => x, (x, y) => x == y).Add(4, v).value.buckets[4] ==
      Cell(KeyValuePair(4 as Int32, v), Nil)
  {
    EmptyLookup<Int32, V>(x => x, (x, y) => x == y, 4);
  }

  /** TryGetValue as written: after the null check, the table is never null, so it
      reads the value of the first cell at location 0, whatever the key. */
  function TryGetValueAsWritten<K, V>(buckets: seq<LinkedList<KeyValuePair<K, V>>>, k: Option<K>)
    : (r: Result<(bool, V), Exception>)
    requires |buckets| > 0
    ensures k.None? ==> r == Failure(Argument(ArgumentNull))
    ensures k.Some? && buckets[0].Nil? ==> r == Failure(NullReferenceException)
    ensures k.Some? && buckets[0].Cell? ==> r == Success((true, buckets[0].data.value))
  {
    if k.None? then Failure(Argument(ArgumentNull))
    else if buckets[0].Nil? then Failure(NullReferenceException)
    else Success((true, buckets[0].data.value))
  }

  /** Looking up "key" in a new dictionary: as written a NullReferenceException, as
      intended (false, default). */
  lemma TryGetValueAsWrittenOnEmpty(hash: string -> Int32, eq: (string, string) -> bool)
    ensures TryGetValueAsWritten(Empty<string, int>(hash, eq).buckets, Some("key")) == Failure(NullReferenceException)
    ensures Empty<string, int>(hash, eq).Lookup("key") == None
  {
    EmptyLookup<string, int>(hash, eq, "key");
  }

  /** Add as written: after the null check it reads `_elements[_elements.Length]`,
      one past the end of the table. */
  function AddAsWritten<K, V>(buckets: seq<LinkedList<KeyValuePair<K, V>>>, k: Option<K>, v: V)
    : (r: Result<seq<LinkedList<KeyValuePair<K, V>>>, Exception>)
    ensures r.Failure?
    ensures r.error == if k.None? then Argument(ArgumentNull) else IndexOutOfRangeException
  {
    if k.None? then Failure(Argument(ArgumentNull)) else Failure(IndexOutOfRangeException)
  }

  /** The first Add of a test, Add(4, "four") on a new dictionary: as written it
      throws, as intended it succeeds. */
  lemma AddAsWrittenRejectsFirstKey()
    ensures AddAsWritten(Empty<Int32, string>(x => x, (x, y) => x == y).buckets, Some(4 as Int32), "four")
      == Failure(IndexOutOfRangeException)
    ensures Empty<Int32, string>(x => x, (x, y) => x == y).Add(4, "four").Success?
  {
    EmptyLookup<Int32, string>(x => x, (x, y) => x == y, 4);
  }
}
