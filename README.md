# Name-lookup dictionary: a verified Dafny model

This project models the generic `Dictionary<TKey, TValue>` of the name-lookup lab, a
hash table with separate chaining. It has a fixed array of 23 buckets. Each bucket
is a singly linked chain of key/value cells.

- **Location.** A key's location is its hash code with the sign bit masked off,
  modulo the table length.
- **Search.** `GetCell` walks a chain and returns the first cell whose key `Equals`
  the key searched for, or null.
- **Add.** `Add` rejects a null key. It rejects a key that `Equals` a key already in
  that key's own bucket. Otherwise it links a new cell in at the head of the bucket.
- **TryGetValue.** `TryGetValue` rejects a null key. It returns `(true, value)` for
  the first matching cell in the key's bucket, else `(false, default(TValue))`.

The checked-in method bodies do not do this. `GetLocation` computes `x % x`.
`GetCell` never walks the chain. `Insert(cell, loc)` always throws a
`NullReferenceException`, and `Insert(k, v, loc)` recurses without end.
`TryGetValue` always reads bucket 0. `Add` indexes one past the end of the array.
The model follows what the doc-comments and the unit tests in
`Ksu.Cis300.NameLookup.Tests/DictionaryTests.cs` require. The literal bodies of
`GetLocation`, `GetCell`, `Insert(cell, loc)`, `TryGetValue` and `Add` are modelled separately, in module
`AsWritten`, and compared with the intended versions under "## Findings".

Modules:

- `Wrappers` (`wrappers.dfy`): `Option` (a null key is `None`), `Result`, `Outcome` (an
  operation that returns or throws).
- `LinkedLists` (`linked_list.dfy`): the chain cell, `Cell(data, next)` or `Nil`
  (null).
- `HashTable` (`hash_table.dfy`): the value-level meaning.
  - `Int32` and the sign mask.
  - `GetLocation`.
  - `FindCell`, the specification of `GetCell`.
  - `Table`, the 23 chains together with the key type's `GetHashCode` (`hash`) and
    `Equals` (`eq`). Its `Lookup` and `Add` are the specifications of `TryGetValue`
    and `Add`.
  - The lemmas relating them.
- `NameLookup` (`dictionary.dfy`): class `Dictionary`.
  - Its `elements` array of chains is updated in place.
  - `GetCell` is a loop.
  - `Insert` and `InsertCell` state the whole new array in terms of the old one.
  - `TryGetValue` and `Add` are methods proved against `Table`.
- `DictionaryTests` (`dictionary_tests.dfy`): each unit-test scenario as a method.
  It builds its own dictionary and returns what the test observes. Its ensures are
  the test's assertions. Keys are of the test types `HashTableTester` (equal when the
  hash codes are equal) and `AllEqual` (always equal), or `int` or `string`.
- `AsWritten` (`as_written.dfy`): the literal bodies, with counterexamples.

Choices the code and tests force:

- **Insertion order.** New cells go at the head of their chain. The test comment at
  `DictionaryTests.cs:71-74` says the first of two keys added to one bucket "should
  be second in the list".
- **Duplicate detection.** Only the key's own bucket is searched. The doc-comment at
  `Dictionary.cs:133-135` says a key "already in the dictionary" is rejected.
  `TestEDifferentLocations` adds 22 keys that all `Equals` each other and expects
  every add to succeed. So "in the dictionary" can only mean "in the key's bucket".
- **Hash consistency.** Equal keys are not assumed to hash alike. The test key
  `AllEqual` (`DictionaryTests.cs:266-270`) breaks that rule on purpose. The two
  lemmas that show the bucket-only search covers the whole table,
  `AddFailsIffAnywhere` and `GlobalNoDuplicates`, require it as `HashConsistent`.
- **Duplicate-key error.** The doc-comment says `InvalidOperationException` and the
  test expects `ArgumentException`. The model has a single `DuplicateKey` error.
- **Equals contract.** `eq(cellKey, k)` is not assumed to be reflexive, symmetric or
  transitive. The lemmas that need one of these properties require it explicitly.

## Model

| member | source | states |
|---|---|---|
| `HashTable.MaskSignBit` | Ksu.Cis300.NameLookup/Dictionary.cs:35 | `h & 0x7fffffff`, the low 31 bits of the 32-bit pattern, lies in [0, 2^31) and equals h for h >= 0 and h + 2^31 for negative h |
| `HashTable.GetLocation` | Ksu.Cis300.NameLookup/Dictionary.cs:27-37 | the location of a hash code lies in [0, length), depends only on the hash code, and for a non-negative hash code is that code modulo the table length |
| `HashTable.SameLocationAcrossPeriods` | Ksu.Cis300.NameLookup.Tests/DictionaryTests.cs:136-150 | non-negative hash codes that differ by a multiple of 23 share a location (100 and 123, 1000 and 1023, 700, 723 and 746) |
| `HashTable.ConsecutiveHashesDistinctLocations` | Ksu.Cis300.NameLookup.Tests/DictionaryTests.cs:152-166 | 23 consecutive non-negative hash codes fall into 23 different locations |
| `HashTable.FindCell` | Ksu.Cis300.NameLookup/Dictionary.cs:41-49 | the cell returned is the suffix of the chain at the first cell whose key Equals k; no cell before it matches; it is Nil exactly when no cell of the chain has a key that Equals k |
| `HashTable.Table.Lookup` | Ksu.Cis300.NameLookup/Dictionary.cs:108-114 | a lookup finds nothing exactly when no cell in k's own bucket has a key that Equals k |
| `HashTable.Table.Add` | Ksu.Cis300.NameLookup/Dictionary.cs:132-139 | fails with DuplicateKey exactly when k's bucket holds a key that Equals k; on success only bucket GetLocation(k) changes, by the new pair (k, v) in front of its old cells, and hash and Equals are kept |
| `HashTable.Empty` | Ksu.Cis300.NameLookup/Dictionary.cs:20-24 | a new table has 23 empty buckets and satisfies the table invariant |
| `HashTable.EmptyLookup` | Ksu.Cis300.NameLookup.Tests/DictionaryTests.cs:16-31 | a lookup in a new dictionary finds nothing, for every key |
| `HashTable.PrependKeepsNoDuplicateKeys` | Ksu.Cis300.NameLookup/Dictionary.cs:132-139 | a chain free of duplicates stays so when a pair whose key no cell's key Equals is put in front |
| `HashTable.AddPreservesValid` | Ksu.Cis300.NameLookup/Dictionary.cs:132-139 | a successful Add keeps the invariant: 23 buckets, each cell in its key's bucket, no duplicate keys in a chain |
| `HashTable.LookupAfterAdd` | Ksu.Cis300.NameLookup.Tests/DictionaryTests.cs:53-134 | after a successful Add(k, v), a lookup of k' gives v when k' is in k's bucket and k Equals k', and otherwise what it gave before |
| `HashTable.AddThenLookup` | Ksu.Cis300.NameLookup.Tests/DictionaryTests.cs:53-69 | a key that Equals itself is found with its value right after Add |
| `HashTable.AddKeepsEarlierEntries` | Ksu.Cis300.NameLookup.Tests/DictionaryTests.cs:71-134 | with a symmetric and transitive Equals, every key found before a successful Add is found afterwards with the same value: collisions never overwrite |
| `HashTable.StoredPairsRetrievable` | Ksu.Cis300.NameLookup/Dictionary.cs:132-139 | in a valid table with a reflexive, symmetric Equals, every stored pair is found by a lookup of its own key, with its own value |
| `HashTable.AddFailsIffAnywhere` | Ksu.Cis300.NameLookup/Dictionary.cs:132-139 | for a key type whose GetHashCode agrees with Equals, a valid table's Add fails exactly when a key that Equals k is anywhere in the dictionary, so the bucket-only search keeps the promise that a key "already in the dictionary" is rejected |
| `HashTable.GlobalNoDuplicates` | Ksu.Cis300.NameLookup/Dictionary.cs:132-139 | for such a key type with a symmetric Equals, no two different cells of a valid table, in any buckets, hold keys that Equal each other |
| `NameLookup.Dictionary.constructor` | Ksu.Cis300.NameLookup/Dictionary.cs:23-24 | the array is fresh and holds 23 empty chains |
| `NameLookup.Dictionary.CheckKey` | Ksu.Cis300.NameLookup/Dictionary.cs:92-103 | the check fails, with ArgumentNull, exactly when the key is null |
| `NameLookup.Dictionary.GetCell` | Ksu.Cis300.NameLookup/Dictionary.cs:41-49 | the loop walking the chain returns exactly the cell FindCell specifies |
| `NameLookup.Dictionary.InsertCell` | Ksu.Cis300.NameLookup/Dictionary.cs:64-69 | the cell becomes the head of the chain at loc, in front of the old head; no other bucket changes |
| `NameLookup.Dictionary.Insert` | Ksu.Cis300.NameLookup/Dictionary.cs:76-82 | a new cell holding (k, v) becomes the head of the chain at loc; no other bucket changes |
| `NameLookup.Dictionary.TryGetValue` | Ksu.Cis300.NameLookup/Dictionary.cs:108-115 | a null key fails with ArgumentNull; otherwise (true, v) for the value Lookup finds, or (false, default) when it finds none; nothing changes |
| `NameLookup.Dictionary.Add` | Ksu.Cis300.NameLookup/Dictionary.cs:132-139 | a null key fails with ArgumentNull and a duplicate with DuplicateKey, both leaving every bucket as it was; otherwise the array equals Table.Add's result; the invariant is kept |
| `DictionaryTests.TesterKeys` | Ksu.Cis300.NameLookup.Tests/DictionaryTests.cs:184-264 | TesterHash and TesterEquals, HashTableTester's GetHashCode and Equals/==: the hash code is the one given to the constructor; two keys are equal exactly when built from the same hash code; Equals is an equivalence and equal keys hash alike |
| `DictionaryTests.AllEqualKeys` | Ksu.Cis300.NameLookup.Tests/DictionaryTests.cs:266-346 | AllEqualHash and AllEqualEquals, AllEqual's GetHashCode and Equals/==: the hash code is the one given to the constructor; every two keys are equal; Equals is an equivalence, but GetHashCode is not consistent with it |
| `DictionaryTests.IntKeys` | Ksu.Cis300.NameLookup.Tests/DictionaryTests.cs:37-44 | IntHash and IntEquals, the `int` keys of TestAAddDuplicateKey: the hash code is the value; Equals is value equality, an equivalence consistent with the hash |
| `DictionaryTests.TestALookUpEmpty` | Ksu.Cis300.NameLookup.Tests/DictionaryTests.cs:16-31 | looking up "key" in a new dictionary gives false and 0, for any string hash code and equality |
| `DictionaryTests.TestAAddDuplicateKey` | Ksu.Cis300.NameLookup.Tests/DictionaryTests.cs:33-51 | the first Add of int key 4 succeeds, and adding it a second time fails with DuplicateKey |
| `DictionaryTests.AddOneLookItUp` | Ksu.Cis300.NameLookup.Tests/DictionaryTests.cs:53-69 | an absent HashTableTester key, once added, is found with its value |
| `DictionaryTests.TestBAddOneLookItUp` | Ksu.Cis300.NameLookup.Tests/DictionaryTests.cs:53-69 | after Add(100000, "value") the lookup gives true and "value" |
| `DictionaryTests.AddTwo` | Ksu.Cis300.NameLookup.Tests/DictionaryTests.cs:71-110 | two different absent keys added in turn both succeed and are each found with their own value |
| `DictionaryTests.TestCAddTwoLookUpFirst` | Ksu.Cis300.NameLookup.Tests/DictionaryTests.cs:71-90 | with 1000 and 1023 in one bucket, the first key added gives true and "first" |
| `DictionaryTests.TestCAddTwoLookUpSecond` | Ksu.Cis300.NameLookup.Tests/DictionaryTests.cs:92-110 | with 10000 and 10023 in one bucket, the second key gives true and "second" |
| `DictionaryTests.AddFresh` | Ksu.Cis300.NameLookup.Tests/DictionaryTests.cs:112-134 | an absent key, once added, is found with its value and no lookup of a different key changes |
| `DictionaryTests.AddThree` | Ksu.Cis300.NameLookup.Tests/DictionaryTests.cs:112-134 | three different absent keys added with 1, 2, 3 all succeed and are found with 1, 2, 3 |
| `DictionaryTests.AddOneTwoThree` | Ksu.Cis300.NameLookup.Tests/DictionaryTests.cs:122-124 | the three Add calls leave the table that three Table.Add steps give |
| `DictionaryTests.TestDAddThreeLookUpAll` | Ksu.Cis300.NameLookup.Tests/DictionaryTests.cs:112-134 | the lookups of 700, 723 and 746 give [1, 2, 3] |
| `DictionaryTests.TestETwoInstancesSameLocation` | Ksu.Cis300.NameLookup.Tests/DictionaryTests.cs:136-150 | an AllEqual key with hash code 123 is found once one with hash code 100 is added |
| `DictionaryTests.SlotOwnerLocation` | Ksu.Cis300.NameLookup.Tests/DictionaryTests.cs:162-166 | the hash code assigned to location s among 500..522 does lie in location s |
| `DictionaryTests.SlotOwnerAt` | Ksu.Cis300.NameLookup.Tests/DictionaryTests.cs:175-180 | hash codes 523..545 land where 500..522 did, 23 lower |
| `DictionaryTests.AddFiveHundreds` | Ksu.Cis300.NameLookup.Tests/DictionaryTests.cs:162-166 | adding AllEqual keys 500..521 succeeds every time and fills each location but 16 with exactly its one pair |
| `DictionaryTests.LookUpAt` | Ksu.Cis300.NameLookup.Tests/DictionaryTests.cs:175-180 | once 500..521 are added, a lookup of hash code 522 finds nothing and one of j in 523..544 finds the value j - 23 |
| `DictionaryTests.LookUpEachLocation` | Ksu.Cis300.NameLookup.Tests/DictionaryTests.cs:175-180 | the lookups of 522..544 give 0 (location 16 is empty), then 500..521 |
| `DictionaryTests.TestEDifferentLocations` | Ksu.Cis300.NameLookup.Tests/DictionaryTests.cs:152-182 | the retrieved values are [0, 500, 501, ..., 521] |
| `AsWritten.GetLocationAsWritten` | Ksu.Cis300.NameLookup/Dictionary.cs:33-39 | as written, the location is 0 for every hash code, or a division by zero when the masked hash code is 0 |
| `AsWritten.GetLocationAsWrittenCollapses` | Ksu.Cis300.NameLookup/Dictionary.cs:36 | hash codes 500 and 501 both go to 0 as written but to 17 and 18 as intended; hash code 0 divides by zero |
| `AsWritten.GetCellAsWritten` | Ksu.Cis300.NameLookup/Dictionary.cs:49-62 | as written, GetCell throws on a null or one-cell chain and otherwise returns null |
| `AsWritten.GetCellAsWrittenMissesMatch` | Ksu.Cis300.NameLookup/Dictionary.cs:51-59 | on a one-cell chain holding the key, the literal body throws where the intended one returns that cell |
| `AsWritten.InsertCellAsWritten` | Ksu.Cis300.NameLookup/Dictionary.cs:69-74 | as written, Insert(cell, loc) throws a NullReferenceException for every cell and location, before it reaches its recursive call |
| `AsWritten.InsertCellAsWrittenThrows` | Ksu.Cis300.NameLookup/Dictionary.cs:71-72 | linking the cell (4, v) into a new dictionary throws as written where the intended insertion makes it the only cell at location 4 |
| `AsWritten.TryGetValueAsWritten` | Ksu.Cis300.NameLookup/Dictionary.cs:115-130 | as written, a non-null key gives the head value of bucket 0, whatever the key, or a null dereference when bucket 0 is empty |
| `AsWritten.TryGetValueAsWrittenOnEmpty` | Ksu.Cis300.NameLookup/Dictionary.cs:127 | on a new dictionary the literal body dereferences null where the intended one finds nothing |
| `AsWritten.AddAsWritten` | Ksu.Cis300.NameLookup/Dictionary.cs:139-144 | as written, Add always throws: ArgumentNull for a null key, else an index out of range |
| `AsWritten.AddAsWrittenRejectsFirstKey` | Ksu.Cis300.NameLookup/Dictionary.cs:143 | Add(4, "four") on a new dictionary throws as written where the intended Add succeeds |

## Left out

- `RemoveMininumKey` (`Dictionary.cs:146-166`): binary-search-tree code left over from
  an earlier lab. Nothing calls it, and it depends on `BinaryTreeNode.GetAvlTree` from
  the external TreeViewer library, which is not part of this model.
- The public field `x` (`Dictionary.cs:25`): it plays no part in any operation.
- The class `LinkedListCell<T>` is not modelled itself; a cell is an immutable
  `Cell(data, next)`. The dictionary never changes a cell after linking it in and
  never shares one between chains, so the chain is a value. What this does not
  capture is object identity: `GetCell`'s result is the matching suffix of the chain
  as a value, not a reference to a shared cell.
- `NameLookup.Dictionary.InsertCell`: the intended insertion sets the new cell's `Next` in place.
  The model builds a copy of the cell with the old head as `next`. Nothing else refers
  to that cell, so the two cannot be told apart.
- The literal body of `Insert(k, v, loc)` (`Dictionary.cs:85-89`) calls itself
  unconditionally and never returns. A Dafny function or method must terminate, so
  it is described here rather than modelled. The intended body is modelled. (The
  literal `Insert(cell, loc)` does terminate, by always throwing; it is modelled as
  `AsWritten.InsertCellAsWritten`.)
- `GetHashCode`, `Equals` of the key type and `default(TValue)` are parameters of the
  constructor. The .NET string hash code used by the first test is left as an
  arbitrary function.
- The `_elements == null` test in `TryGetValue` (`Dictionary.cs:120`) can never
  succeed, since the array is allocated at construction. It is described in the
  as-written model's comment.
- Concurrency is not modelled. The source is single-threaded.
- Resizing, removal and iteration are not modelled. The source does not have them.
- NUnit scaffolding is not modelled: fixtures, `Assert.Multiple`, and the
  "ordered and equivalent" collection constraints. Each test's assertion is stated
  as an exact equality on what it observes.

## Findings

| source | as written | input that shows it | evidently intended | confidence | as-written member | corrected member |
|---|---|---|---|---|---|---|
| Ksu.Cis300.NameLookup/Dictionary.cs:36 | `x % x`: always 0, or a division by zero | hash codes 500 and 501 both give 0; hash code 0 divides by zero | masked hash code modulo the table length, 23 | high; not executed | `AsWritten.GetLocationAsWritten`, `AsWritten.GetLocationAsWrittenCollapses` | `HashTable.GetLocation`, `HashTable.ConsecutiveHashesDistinctLocations` |
| Ksu.Cis300.NameLookup/Dictionary.cs:51-59 | no walk of the chain: throws on a null or one-cell chain, else returns null | the chain holding only (4, v), searched for 4 | the first cell whose key Equals k, else null | high; not executed | `AsWritten.GetCellAsWritten`, `AsWritten.GetCellAsWrittenMissesMatch` | `NameLookup.Dictionary.GetCell`, `HashTable.FindCell` |
| Ksu.Cis300.NameLookup/Dictionary.cs:71-72 | calls GetCell on the cell itself, which throws inside GetCell (:56) or, when it returns null, at :72 | the cell (4, v) at location 4 | link the cell in at the head of the chain at `loc` | high; not executed | `AsWritten.InsertCellAsWritten`, `AsWritten.InsertCellAsWrittenThrows` | `NameLookup.Dictionary.InsertCell`, `HashTable.AddPreservesValid` |
| Ksu.Cis300.NameLookup/Dictionary.cs:127 | reads bucket 0 whatever the key | TryGetValue("key") on a new dictionary dereferences null | look in the key's own bucket; (false, default) when absent | high; not executed | `AsWritten.TryGetValueAsWritten`, `AsWritten.TryGetValueAsWrittenOnEmpty` | `NameLookup.Dictionary.TryGetValue`, `HashTable.EmptyLookup` |
| Ksu.Cis300.NameLookup/Dictionary.cs:143 | indexes `_elements[_elements.Length]`, past the end | Add(4, "four") on a new dictionary | check k's bucket for a duplicate, then insert at GetLocation(k) | high; not executed | `AsWritten.AddAsWritten`, `AsWritten.AddAsWrittenRejectsFirstKey` | `NameLookup.Dictionary.Add`, `HashTable.AddPreservesValid` |
