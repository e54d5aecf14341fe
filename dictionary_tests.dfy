/** The unit-test scenarios for the dictionary, each as a method that builds its own
    dictionary and returns what the test observes; the ensures clauses are the
    outcomes the tests assert. */
module DictionaryTests {
  import opened Wrappers
  import opened LinkedLists
  import opened HashTable
  import opened NameLookup

  /** A key whose hash code is set by its constructor; two keys are equal exactly
      when their hash codes are. */
  datatype HashTableTester = HashTableTester(hashCode: Int32)

  function TesterHash(k: HashTableTester): Int32 { k.hashCode }

  function TesterEquals(x: HashTableTester, y: HashTableTester): bool { x.hashCode == y.hashCode }

  /** A key whose hash code is set by its constructor but which equals every other
      key: a deliberately broken Equals/GetHashCode pair. */
  datatype AllEqual = AllEqual(hashCode: Int32)

  function AllEqualHash(k: AllEqual): Int32 { k.hashCode }

  function AllEqualEquals(x: AllEqual, y: AllEqual): bool { true }

  /** `int` keys: GetHashCode is the value itself, Equals is value equality. */
  function IntHash(k: Int32): Int32 { k }

  function IntEquals(x: Int32, y: Int32): bool { x == y }

  /** HashTableTester's Equals and `==` are an equivalence that holds exactly between
      keys built from the same hash code, and equal keys hash alike. */
  lemma TesterKeys()
    ensures Reflexive(TesterEquals) && Symmetric(TesterEquals) && Transitive(TesterEquals)
    ensures forall x, y :: TesterEquals(x, y) <==> x == y
    ensures forall h: Int32 :: TesterHash(HashTableTester(h)) == h
    ensures HashConsistent(TesterHash, TesterEquals)
  {
  }

  /** AllEqual's Equals and `==` relate every two keys, so they are an equivalence,
      but its GetHashCode is not consistent with them: keys 0 and 1 are equal and
      hash differently. */
  lemma AllEqualKeys()
    ensures Reflexive(AllEqualEquals) && Symmetric(AllEqualEquals) && Transitive(AllEqualEquals)
    ensures forall x, y :: AllEqualEquals(x, y)
    ensures forall h: Int32 :: AllEqualHash(AllEqual(h)) == h
    ensures !HashConsistent(AllEqualHash, AllEqualEquals)
  {
    assert AllEqualEquals(AllEqual(0), AllEqual(1));
    assert AllEqualHash(AllEqual(0)) != AllEqualHash(AllEqual(1));
  }

  /** `int` keys: Equals is value equality, an equivalence, consistent with the hash. */
  lemma IntKeys()
    ensures Reflexive(IntEquals) && Symmetric(IntEquals) && Transitive(IntEquals)
    ensures forall x, y :: IntEquals(x, y) <==> x == y
    ensures forall h :: IntHash(h) == h
    ensures HashConsistent(IntHash, IntEquals)
  {
  }

  /** Looking a key up in a new dictionary gives false and the default value, for any
      string hash code and string equality. */
  method TestALookUpEmpty(stringHash: string -> Int32, stringEquals: (string, string) -> bool)
    returns (b: bool, v: int)
    ensures !b && v == 0
  {
    var d := new Dictionary<string, int>(stringHash, stringEquals, 0);
    EmptyLookup<string, int>(stringHash, stringEquals, "key");
    var r := d.TryGetValue(Some("key"));
    b, v := r.value.0, r.value.1;
  }

  /** Adding the same key twice: the first Add succeeds and the second fails with
      DuplicateKey. */
  method TestAAddDuplicateKey() returns (first: Outcome<Error>, e: Outcome<Error>)
    ensures first == Pass
    ensures e == Fail(DuplicateKey)
  {
    // "" stands for default(string), which is null in the source; no assertion
    // depends on it.
    var d := new Dictionary<Int32, string>(IntHash, IntEquals, "");
    first := d.Add(Some(4), "four");
    e := d.Add(Some(4), "again");
  }

  /** On the table level: a key absent from a dictionary of HashTableTester keys, once
      added, is found with its value. */
  lemma AddOneLookItUp(t0: Table<HashTableTester, string>, k: HashTableTester)
    requires |t0.buckets| > 0 && t0.eq == TesterEquals && t0.Lookup(k) == None
    ensures t0.Add(k, "value").Success?
    ensures t0.Add(k, "value").value.Lookup(k) == Some("value")
  {
    AddThenLookup(t0, k, "value");
  }

  /** A key just added is found with its value. */
  method TestBAddOneLookItUp() returns (b: bool, v: string)
    ensures b && v == "value"
  {
    // "" stands for default(string), which is null; no assertion depends on it.
    var d := new Dictionary<HashTableTester, string>(TesterHash, TesterEquals, "");
    var k := HashTableTester(100000);
    EmptyLookup<HashTableTester, string>(TesterHash, TesterEquals, k);
    AddOneLookItUp(d.Model(), k);
    var added := d.Add(Some(k), "value");
    var r := d.TryGetValue(Some(k));
    b, v := r.value.0, r.value.1;
  }

  /** On the table level: two different HashTableTester keys, both absent, added one
      after the other, are both found with their own values. */
  lemma AddTwo(t0: Table<HashTableTester, string>, k1: HashTableTester, k2: HashTableTester)
    requires |t0.buckets| > 0 && t0.eq == TesterEquals && k1 != k2
    requires t0.Lookup(k1) == None && t0.Lookup(k2) == None
    ensures t0.Add(k1, "first").Success?
    ensures t0.Add(k1, "first").value.Add(k2, "second").Success?
    ensures t0.Add(k1, "first").value.Add(k2, "second").value.Lookup(k1) == Some("first")
    ensures t0.Add(k1, "first").value.Add(k2, "second").value.Lookup(k2) == Some("second")
  {
    AddFresh(t0, k1, "first");
    var t1 := t0.Add(k1, "first").value;
    AddFresh(t1, k2, "second");
  }

  /** Two keys in the same bucket; the first one added, now second in its chain,
      is found. */
  method TestCAddTwoLookUpFirst() returns (b: bool, v: string)
    ensures b && v == "first"
  {
    // "" stands for default(string), which is null; no assertion depends on it.
    var d := new Dictionary<HashTableTester, string>(TesterHash, TesterEquals, "");
    var k1, k2 := HashTableTester(1000), HashTableTester(1023);
    EmptyLookup<HashTableTester, string>(TesterHash, TesterEquals, k1);
    EmptyLookup<HashTableTester, string>(TesterHash, TesterEquals, k2);
    AddTwo(d.Model(), k1, k2);
    var added := d.Add(Some(k1), "first");
    added := d.Add(Some(k2), "second");
    var r := d.TryGetValue(Some(k1));
    b, v := r.value.0, r.value.1;
  }

  /** Two keys in the same bucket; the second one added is found. */
  method TestCAddTwoLookUpSecond() returns (b: bool, v: string)
    ensures b && v == "second"
  {
    // "" stands for default(string), which is null; no assertion depends on it.
    var d := new Dictionary<HashTableTester, string>(TesterHash, TesterEquals, "");
    var k1, k2 := HashTableTester(10000), HashTableTester(10023);
    EmptyLookup<HashTableTester, string>(TesterHash, TesterEquals, k1);
    EmptyLookup<HashTableTester, string>(TesterHash, TesterEquals, k2);
    AddTwo(d.Model(), k1, k2);
    var added := d.Add(Some(k1), "first");
    added := d.Add(Some(k2), "second");
    var r := d.TryGetValue(Some(k2));
    b, v := r.value.0, r.value.1;
  }

  /** On the table level: a HashTableTester key absent from t0, added with value v,
      is found with v, and every key different from it is looked up as before. */
  lemma AddFresh<V>(t0: Table<HashTableTester, V>, k: HashTableTester, v: V)
    requires |t0.buckets| > 0 && t0.eq == TesterEquals && t0.Lookup(k) == None
    ensures t0.Add(k, v).Success?
    ensures t0.Add(k, v).value.Lookup(k) == Some(v)
    ensures forall k' | k' != k :: t0.Add(k, v).value.Lookup(k') == t0.Lookup(k')
  {
    AddThenLookup(t0, k, v);
    forall k' | k' != k ensures t0.Add(k, v).value.Lookup(k') == t0.Lookup(k') {
      LookupAfterAdd(t0, k, v, k');
    }
  }

  /** On the table level: three different HashTableTester keys, all absent, added with
      values 1, 2 and 3, are each found with their own value. */
  lemma AddThree(t0: Table<HashTableTester, int>, k1: HashTableTester, k2: HashTableTester, k3: HashTableTester)
    requires |t0.buckets| > 0 && t0.eq == TesterEquals && k1 != k2 && k1 != k3 && k2 != k3
    requires t0.Lookup(k1) == None && t0.Lookup(k2) == None && t0.Lookup(k3) == None
    ensures t0.Add(k1, 1).Success?
    ensures t0.Add(k1, 1).value.Add(k2, 2).Success?
    ensures t0.Add(k1, 1).value.Add(k2, 2).value.Add(k3, 3).Success?
    ensures var t3 := t0.Add(k1, 1).value.Add(k2, 2).value.Add(k3, 3).value;
      t3.Lookup(k1) == Some(1) && t3.Lookup(k2) == Some(2) && t3.Lookup(k3) == Some(3)
  {
    AddFresh(t0, k1, 1);
    var t1 := t0.Add(k1, 1).value;
    AddFresh(t1, k2, 2);
    var t2 := t1.Add(k2, 2).value;
    AddFresh(t2, k3, 3);
  }

  /** The three Add calls of TestDAddThreeLookUpAll. */
  method AddOneTwoThree(d: Dictionary<HashTableTester, int>, k1: HashTableTester, k2: HashTableTester, k3: HashTableTester)
    requires d.Valid()
    requires d.Model().Add(k1, 1).Success?
    requires d.Model().Add(k1, 1).value.Add(k2, 2).Success?
    requires d.Model().Add(k1, 1).value.Add(k2, 2).value.Add(k3, 3).Success?
    modifies d.elements
    ensures d.Valid()
    ensures d.Model() == old(d.Model()).Add(k1, 1).value.Add(k2, 2).value.Add(k3, 3).value
  {
    var added := d.Add(Some(k1), 1);
    added := d.Add(Some(k2), 2);
    added := d.Add(Some(k3), 3);
  }

  /** Three keys in one bucket are each found with their own value. */
  method TestDAddThreeLookUpAll() returns (list: seq<int>)
    ensures list == [1, 2, 3]
  {
    var d := new Dictionary<HashTableTester, int>(TesterHash, TesterEquals, 0);
    var k1, k2, k3 := HashTableTester(700), HashTableTester(723), HashTableTester(746);
    EmptyLookup<HashTableTester, int>(TesterHash, TesterEquals, k1);
    EmptyLookup<HashTableTester, int>(TesterHash, TesterEquals, k2);
    EmptyLookup<HashTableTester, int>(TesterHash, TesterEquals, k3);
    AddThree(d.Model(), k1, k2, k3);
    AddOneTwoThree(d, k1, k2, k3);
    var r1 := d.TryGetValue(Some(k1));
    var r2 := d.TryGetValue(Some(k2));
    var r3 := d.TryGetValue(Some(k3));
    list := [r1.value.1, r2.value.1, r3.value.1];
  }

  /** Hash codes 100 and 123 share a location, so with keys that are all equal the
      second is found once the first is added. */
  method TestETwoInstancesSameLocation() returns (b: bool)
    ensures b
  {
    var d := new Dictionary<AllEqual, int>(AllEqualHash, AllEqualEquals, 0);
    var k1, k2 := AllEqual(100), AllEqual(123);
    ghost var t0 := d.Model();
    EmptyLookup<AllEqual, int>(AllEqualHash, AllEqualEquals, k1);
    var added := d.Add(Some(k1), 7);
    SameLocationAcrossPeriods(100, 123, 1);
    LookupAfterAdd(t0, k1, 7, k2);
    var r := d.TryGetValue(Some(k2));
    b := r.value.0;
  }

  /** The hash code among 500..522 whose location is s. */
  function SlotOwner(s: nat): int {
    500 + (s + 6) % TableSize
  }

  lemma SlotOwnerLocation(s: nat)
    requires s < TableSize
    ensures SlotOwner(s) % TableSize == s
  {
  }

  lemma SlotOwnerAt(j: int)
    requires 500 <= j < 546
    ensures SlotOwner(j % TableSize) == if j < 523 then j else j - 23
  {
  }

  /** What the table holds once the keys with hash codes 500..i-1 have been added,
      each with its hash code as value: location s holds its owner's pair once the
      owner has been added, and nothing before. */
  ghost predicate FilledBelow(buckets: seq<LinkedList<KeyValuePair<AllEqual, int>>>, i: int) {
    && |buckets| == TableSize
    && forall s | 0 <= s < TableSize ::
         buckets[s] == if SlotOwner(s) < i then Cell(KeyValuePair(AllEqual(SlotOwner(s) as Int32), SlotOwner(s)), Nil) else Nil
  }

  /** The first loop of TestEDifferentLocations: adds hash codes 500..521. */
  method AddFiveHundreds(d: Dictionary<AllEqual, int>)
    requires d.Valid() && d.hash == AllEqualHash && d.eq == AllEqualEquals && FilledBelow(d.elements[..], 500)
    modifies d.elements
    ensures d.Valid() && FilledBelow(d.elements[..], 522)
  {
    var i := 500;
    while i < 522
      invariant 500 <= i <= 522
      invariant d.Valid() && FilledBelow(d.elements[..], i)
    {
      SlotOwnerAt(i);
      ghost var loc := i % TableSize;
      forall s | 0 <= s < TableSize ensures SlotOwner(s) == i ==> s == loc {
        SlotOwnerLocation(s);
      }
      ghost var before := d.Model();
      var k := AllEqual(i as Int32);
      assert before.Location(k) == loc && before.buckets[loc] == Nil;
      assert before.Add(k, i).Success?;
      var added := d.Add(Some(k), i);
      assert d.elements[..] == before.buckets[loc := Cell(KeyValuePair(k, i), Nil)];
      i := i + 1;
    }
  }

  /** In the table the first loop leaves, a lookup of hash code j in 522..544 finds
      nothing at the empty location 16 (j = 522) and hash code j - 23 elsewhere. */
  lemma LookUpAt(t: Table<AllEqual, int>, j: int)
    requires |t.buckets| == TableSize && t.hash == AllEqualHash && t.eq == AllEqualEquals
    requires FilledBelow(t.buckets, 522)
    requires 522 <= j < 545
    ensures t.Lookup(AllEqual(j as Int32)) == if j == 522 then None else Some(j - 23)
  {
    SlotOwnerAt(j);
    var loc := j % TableSize;
    assert t.Location(AllEqual(j as Int32)) == loc;
    assert t.buckets[loc] == if SlotOwner(loc) < 522 then Cell(KeyValuePair(AllEqual(SlotOwner(loc) as Int32), SlotOwner(loc)), Nil) else Nil;
  }

  /** The second loop of TestEDifferentLocations: looks up hash codes 522..544, one
      per location, starting with the one location left empty. */
  method LookUpEachLocation(d: Dictionary<AllEqual, int>) returns (retrieved: seq<int>)
    requires d.Valid() && d.hash == AllEqualHash && d.eq == AllEqualEquals && d.defaultValue == 0
    requires FilledBelow(d.elements[..], 522)
    ensures retrieved == [0] + seq(22, m => 500 + m)
  {
    retrieved := [];
    var j := 522;
    while j < 545
      invariant 522 <= j <= 545
      invariant |retrieved| == j - 522
      invariant forall m | 0 <= m < |retrieved| :: retrieved[m] == if m == 0 then 0 else 499 + m
    {
      LookUpAt(d.Model(), j);
      var r := d.TryGetValue(Some(AllEqual(j as Int32)));
      assert r.value.1 == if j == 522 then 0 else j - 23;
      retrieved := retrieved + [r.value.1];
      j := j + 1;
    }
  }

  /** Adds the keys with hash codes 500..521 (22 of the 23 locations, all but 16) and
      then looks up one key per location, hash codes 522..544: an empty location gives
      the default 0, a filled one the value of the first pair in its chain. */
  method TestEDifferentLocations() returns (retrieved: seq<int>)
    ensures retrieved == [0] + seq(22, m => 500 + m)
  {
    var d := new Dictionary<AllEqual, int>(AllEqualHash, AllEqualEquals, 0);
    AddFiveHundreds(d);
    retrieved := LookUpEachLocation(d);
  }
}
