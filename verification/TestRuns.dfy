/** gtest's registry of test cases and its run loop: registration keeps death tests in front, and
    every iteration visits each test case once, whatever the shuffling. */
module TestRuns {

  import opened Options
  import opened Shuffle
  import opened RunOrder
  import opened TestOrder
  import Filters

  // ----- registration order, death test cases first

  ghost function DeathCases(cases: seq<TestCase>): seq<TestCase> {
    if cases == [] then [] else
      var others, last := DeathCases(cases[..|cases| - 1]), cases[|cases| - 1];
      if Filters.IsDeathTestName(last.name) then others + [last] else others
  }

  ghost function OtherCases(cases: seq<TestCase>): seq<TestCase> {
    if cases == [] then [] else
      var others, last := OtherCases(cases[..|cases| - 1]), cases[|cases| - 1];
      if Filters.IsDeathTestName(last.name) then others else others + [last]
  }

  lemma OneMoreCase(cases: seq<TestCase>, c: TestCase)
    ensures DeathCases(cases + [c])
            == if Filters.IsDeathTestName(c.name) then DeathCases(cases) + [c] else DeathCases(cases)
    ensures OtherCases(cases + [c])
            == if Filters.IsDeathTestName(c.name) then OtherCases(cases) else OtherCases(cases) + [c]
  {
    assert (cases + [c])[..|cases|] == cases;
  }

  lemma {:induction false} DeathsAreDeaths(cases: seq<TestCase>)
    ensures forall c :: c in DeathCases(cases) ==> Filters.IsDeathTestName(c.name)
    ensures forall c :: c in OtherCases(cases) ==> !Filters.IsDeathTestName(c.name)
  {
    hide Filters.IsDeathTestName;
    if cases != [] {
      DeathsAreDeaths(cases[..|cases| - 1]);
    }
  }

  lemma {:induction false} DeathsAndOthers(cases: seq<TestCase>)
    ensures multiset(DeathCases(cases)) + multiset(OtherCases(cases)) == multiset(cases)
  {
    if cases != [] {
      hide Filters.IsDeathTestName;
      var init, last := cases[..|cases| - 1], cases[|cases| - 1];
      DeathsAndOthers(init);
      OneMoreCase(init, last);
      hide DeathCases, OtherCases;
      assert cases == init + [last];
    }
  }

  /** Test cases that share neither identity, name nor index vector, nor the given vector. */
  ghost predicate Apart(cases: seq<TestCase>, indices: Vector<int>) {
    (forall i, j :: 0 <= i < j < |cases| ==>
       cases[i] != cases[j] && cases[i].testIndices != cases[j].testIndices && cases[i].name != cases[j].name)
    && (forall i :: 0 <= i < |cases| ==> cases[i].testIndices != indices)
  }

  ghost predicate HasName(cases: seq<TestCase>, name: string) {
    exists i :: 0 <= i < |cases| && cases[i].name == name
  }

  function InsertedAt(cases: seq<TestCase>, k: nat, c: TestCase): (inserted: seq<TestCase>)
    requires k <= |cases|
    ensures |inserted| == |cases| + 1
  {
    cases[..k] + [c] + cases[k..]
  }

  lemma InsertKeepsApart(cases: seq<TestCase>, k: nat, c: TestCase, indices: Vector<int>)
    requires Apart(cases, indices) && k <= |cases| && !HasName(cases, c.name) && c.testIndices != indices
    requires forall i :: 0 <= i < |cases| ==> cases[i] != c && cases[i].testIndices != c.testIndices
    ensures Apart(InsertedAt(cases, k, c), indices)
  {
    var inserted := InsertedAt(cases, k, c);
    forall i, j | 0 <= i < j < |inserted|
      ensures inserted[i] != inserted[j] && inserted[i].testIndices != inserted[j].testIndices
      ensures inserted[i].name != inserted[j].name
    {
      var i', j' := if i < k then i else i - 1, if j < k then j else j - 1;
      assert i != k ==> inserted[i] == cases[i'];
      assert j != k ==> inserted[j] == cases[j'];
    }
  }

  /** A new test case goes behind the death test cases if it is one, and to the end otherwise. */
  lemma InsertKeepsBlocks(registered: seq<TestCase>, c: TestCase)
    ensures var cases, deaths := DeathCases(registered) + OtherCases(registered), |DeathCases(registered)|;
            var isDeath := Filters.IsDeathTestName(c.name);
            InsertedAt(cases, if isDeath then deaths else |cases|, c)
            == DeathCases(registered + [c]) + OtherCases(registered + [c])
            && |DeathCases(registered + [c])| == deaths + (if isDeath then 1 else 0)
  {
    OneMoreCase(registered, c);
  }

  /** One visited test case and the tests that ran in it, in order. */
  datatype Visit = Visit(testCase: TestCase, tests: seq<TestInfo>)

  function CasesOf(visits: seq<Visit>): (cases: seq<TestCase>)
    ensures |cases| == |visits|
  {
    if visits == [] then [] else [visits[0].testCase] + CasesOf(visits[1..])
  }

  lemma {:induction false} CasesOfIs(visits: seq<Visit>, cases: seq<TestCase>)
    requires |visits| == |cases| && forall j :: 0 <= j < |visits| ==> visits[j].testCase == cases[j]
    ensures CasesOf(visits) == cases
  {
    if visits != [] {
      CasesOfIs(visits[1..], cases[1..]);
    }
  }

  /** The order that the registry is to keep: no death test case after another one. */
  ghost predicate DeathsFirst(cases: seq<TestCase>) {
    forall i, j :: 0 <= i < j < |cases| && Filters.IsDeathTestName(cases[j].name) ==>
      Filters.IsDeathTestName(cases[i].name)
  }

  /** The first d cases are the death test cases. */
  ghost predicate DeathsUpTo(cases: seq<TestCase>, d: nat) {
    d <= |cases| && forall k :: 0 <= k < |cases| ==> (Filters.IsDeathTestName(cases[k].name) <==> k < d)
  }

  lemma InsertDeath(cases: seq<TestCase>, d: nat, c: TestCase)
    requires DeathsUpTo(cases, d) && Filters.IsDeathTestName(c.name)
    ensures DeathsUpTo(InsertedAt(cases, d, c), d + 1)
  {
    hide Filters.IsDeathTestName;
    var inserted := InsertedAt(cases, d, c);
    forall k | 0 <= k < |inserted|
      ensures Filters.IsDeathTestName(inserted[k].name) <==> k < d + 1
    {
      assert inserted[k] == if k < d then cases[k] else if k == d then c else cases[k - 1];
    }
  }

  /** Registering a death test case while the cases are shuffled, which callers are told not to do:
      a run then has no death test case after another one exactly if there are no other cases or the
      first of them is in its place. */
  lemma RegisterDeathShuffledIff(cases: seq<TestCase>, d: nat, c: TestCase, indices: seq<int>)
    requires DeathsUpTo(cases, d) && Filters.IsDeathTestName(c.name) && BlockOrder(indices, d, |cases|)
    ensures var inserted, grown := InsertedAt(cases, d, c), indices + [|cases|];
            InRange(grown, |inserted|)
            && (DeathsFirst(Ordered(inserted, grown)) <==> d == |cases| || indices[d] == d)
  {
    var n, inserted, grown := |cases|, InsertedAt(cases, d, c), indices + [|cases|];
    AppendKeepsBlockOrder(indices, d, n);
    BlockOrderInRange(grown, d, n + 1);
    BlockOrderInRange(indices, d, n);
    BlockOrderLength(indices, d, n);
    InsertDeath(cases, d, c);
    DeathInsertKeepsOrderIff(indices, d, n);
    var visited := Ordered(inserted, grown);
    forall k | 0 <= k < n + 1
      ensures Filters.IsDeathTestName(visited[k].name) <==> grown[k] < d + 1
    {
      OrderedAt(inserted, grown, k);
    }
    hide Ordered, InsertedAt, Filters.IsDeathTestName;
    if d == n || indices[d] == d {
      BlockOrderInRange(grown, d + 1, n + 1);
    } else {
      var j := IndexOf(indices, d, n);
      hide BlockOrder, InRange;
      assert grown[d] == indices[d] && grown[j] == d && d < j;
    }
  }

  /** Cases A and B are shuffled to B, A when CDeathTest is registered: it then runs after B. */
  lemma DeathTestRunsSecond(a: TestCase, b: TestCase, c: TestCase)
    requires a.name == "A" && b.name == "B" && c.name == "CDeathTest"
    ensures var inserted, grown := InsertedAt([a, b], 0, c), [1, 0] + [2];
            InRange(grown, |inserted|) && Ordered(inserted, grown) == [a, c, b]
            && !DeathsFirst(Ordered(inserted, grown))
  {
    var inserted, grown := InsertedAt([a, b], 0, c), [1, 0] + [2];
    assert inserted == [c, a, b];
    forall k | 0 <= k < 3
      ensures Ordered(inserted, grown)[k] == inserted[grown[k]]
    {
      OrderedAt(inserted, grown, k);
    }
    assert c.name[1..] == Filters.Death;
    assert !Filters.IsDeathTestName(a.name);
    assert Filters.IsDeathTestName(c.name);
    hide Filters.IsDeathTestName;
    assert [a, c, b][1] == c && [a, c, b][0] == a;
  }

  /** Where a block order has its first index past the first block. */
  lemma IndexOf(indices: seq<int>, d: nat, n: nat) returns (j: nat)
    requires BlockOrder(indices, d, n) && d < n
    ensures d <= j < n && indices[j] == d
  {
    var id := Identity(n);
    assert id[d..][0] == d;
    assert d in multiset(id[d..]);
    assert d in indices[d..];
    var k :| 0 <= k < |indices[d..]| && indices[d..][k] == d;
    j := d + k;
  }

  lemma CaseAt(visits: seq<Visit>, j: nat)
    requires j < |visits|
    ensures CasesOf(visits)[j] == visits[j].testCase
  {
    CasesOfIs(visits, seq(|visits|, i requires 0 <= i < |visits| => visits[i].testCase));
  }

  /** Visits of deaths, in any order, and then of others, in any order. */
  lemma SameBlocks(cases: seq<TestCase>, deaths: seq<TestCase>, others: seq<TestCase>)
    requires |deaths| <= |cases|
    requires multiset(cases[..|deaths|]) == multiset(deaths) && multiset(cases[|deaths|..]) == multiset(others)
    requires forall c :: c in deaths ==> Filters.IsDeathTestName(c.name)
    requires forall c :: c in others ==> !Filters.IsDeathTestName(c.name)
    ensures multiset(cases) == multiset(deaths + others) && DeathsFirst(cases)
  {
    hide Filters.IsDeathTestName;
    var d := |deaths|;
    assert cases == cases[..d] + cases[d..];
    forall i | 0 <= i < |cases|
      ensures Filters.IsDeathTestName(cases[i].name) <==> i < d
    {
      if d <= i {
        assert cases[d..][i - d] in multiset(cases[d..]);
        assert cases[i] in others;
      } else {
        assert cases[..d][i] in multiset(cases[..d]);
        assert cases[i] in deaths;
      }
    }
  }

  lemma OnceEach(cases: seq<TestCase>)
    requires forall i, j :: 0 <= i < j < |cases| ==> cases[i] != cases[j]
    ensures forall c :: c in cases ==> multiset(cases)[c] == 1
  {
    forall c | c in cases
      ensures multiset(cases)[c] == 1
    {
      var k :| 0 <= k < |cases| && cases[k] == c;
      assert cases == cases[..k] + [c] + cases[k + 1..];
      assert c !in cases[..k] && c !in cases[k + 1..];
    }
  }

  class UnitTestImpl {
    const random: Random
    var testCases: seq<TestCase>
    const testCaseIndices: Vector<int>
    /** Index of the last death test case; -1 if there is none. */
    var lastDeathTestCase: int
    var randomSeed: nat
    /** The test cases in the order of their registration. */
    ghost var registered: seq<TestCase>

    ghost function Vectors(): set<Vector<int>>
      reads this`testCases
    {
      set c | c in testCases :: c.testIndices
    }

    ghost predicate CasesValid()
      reads this`testCases, testCases, Vectors()
    {
      forall i :: 0 <= i < |testCases| ==> testCases[i].Valid()
    }

    ghost predicate CasesUnshuffled()
      reads this`testCases, testCases, Vectors()
    {
      forall i :: 0 <= i < |testCases| ==> testCases[i].Unshuffled()
    }

    ghost predicate Valid()
      reads this, testCaseIndices, testCases, Vectors()
    {
      |testCases| <= IntMax && Apart(testCases, testCaseIndices) && CasesValid()
      && testCases == DeathCases(registered) + OtherCases(registered)
      && lastDeathTestCase + 1 == |DeathCases(registered)|
      && BlockOrder(testCaseIndices.elements, lastDeathTestCase + 1, |testCases|)
    }

    ghost predicate Unshuffled()
      reads this, testCaseIndices, testCases, Vectors()
    {
      testCaseIndices.elements == Identity(|testCases|) && CasesUnshuffled()
    }

    constructor (seed: nat)
      ensures Valid() && Unshuffled() && registered == []
      ensures fresh(testCaseIndices) && fresh(random)
    {
      random := new Random(seed);
      testCases := [];
      testCaseIndices := new Vector<int>();
      lastDeathTestCase := -1;
      randomSeed := 0;
      registered := [];
    }

    method FindByName(name: string) returns (i: nat)
      ensures i <= |testCases| && forall k :: 0 <= k < i ==> testCases[k].name != name
      ensures i < |testCases| ==> testCases[i].name == name
    {
      i := 0;
      while i < |testCases| && testCases[i].name != name
        invariant i <= |testCases| && forall k :: 0 <= k < i ==> testCases[k].name != name
      {
        i := i + 1;
      }
    }

    /** The test case of that name: the registered one, or a new one, registered last. */
    method GetTestCase(name: string) returns (testCase: TestCase)
      requires Valid() && Unshuffled() && |testCases| < IntMax
      modifies this`testCases, this`lastDeathTestCase, this`registered, testCaseIndices
      ensures Valid() && Unshuffled()
      ensures testCase in testCases && testCase.name == name
      ensures HasName(old(testCases), name) ==>
                testCase in old(testCases) && testCases == old(testCases) && registered == old(registered)
      ensures !HasName(old(testCases), name) ==>
                fresh(testCase) && fresh(testCase.testIndices) && testCase.testInfoList == []
                && registered == old(registered) + [testCase]
                && multiset(testCases) == multiset(old(testCases)) + multiset{testCase}
    {
      var found := FindByName(name);
      if found < |testCases| {
        return testCases[found];
      }
      testCase := CreateTestCase(name);
      var isDeathTest := Filters.MatchesFilter(name, Filters.DeathTestCaseFilter);
      Filters.DeathFilterIsConvention(name);
      Register(testCase, isDeathTest);
    }

    method CreateTestCase(name: string) returns (testCase: TestCase)
      requires CasesValid() && CasesUnshuffled()
      ensures fresh(testCase) && fresh(testCase.testIndices) && testCase.name == name
      ensures testCase.Valid() && testCase.Unshuffled() && testCase.testInfoList == []
      ensures CasesValid() && CasesUnshuffled()
    {
      testCase := new TestCase(name);
    }

    method Register(testCase: TestCase, isDeathTest: bool)
      requires Valid() && Unshuffled() && |testCases| < IntMax && IsNew(testCase)
      requires testCase.Valid() && testCase.Unshuffled()
      requires isDeathTest <==> Filters.IsDeathTestName(testCase.name)
      modifies this`testCases, this`lastDeathTestCase, this`registered, testCaseIndices
      ensures Valid() && Unshuffled()
      ensures testCase in testCases && multiset(testCases) == multiset(old(testCases)) + multiset{testCase}
      ensures registered == old(registered) + [testCase]
    {
      InsertKeepsBlocks(registered, testCase);
      ghost var deaths, others := DeathCases(registered), OtherCases(registered);
      hide Apart, DeathCases, OtherCases, InsertedAt, Filters.IsDeathTestName;
      hide TestCase.Valid, TestCase.Unshuffled;
      if isDeathTest {
        InsertCase(lastDeathTestCase + 1, testCase);
        lastDeathTestCase := lastDeathTestCase + 1;
      } else {
        InsertCase(|testCases|, testCase);
      }
      registered := registered + [testCase];
      IdentityIsBlockOrder(lastDeathTestCase + 1, |testCases|);
      hide BlockOrder;
      AppendIndex();
    }

    /** Not registered, and sharing nothing with the registered test cases. */
    ghost predicate IsNew(testCase: TestCase)
      reads this
    {
      !HasName(testCases, testCase.name) && testCase.testIndices != testCaseIndices
      && forall i :: 0 <= i < |testCases| ==>
           testCases[i] != testCase && testCases[i].testIndices != testCase.testIndices
    }

    /** Inserts a test case into the vector in front of index k. */
    method InsertCase(k: nat, testCase: TestCase)
      requires k <= |testCases| && Apart(testCases, testCaseIndices) && CasesValid() && CasesUnshuffled()
      requires testCase.Valid() && testCase.Unshuffled()
      requires IsNew(testCase)
      modifies this`testCases
      ensures testCases == InsertedAt(old(testCases), k, testCase)
      ensures Apart(testCases, testCaseIndices) && CasesValid() && CasesUnshuffled()
      ensures testCase in testCases
      ensures multiset(testCases) == multiset(old(testCases)) + multiset{testCase}
    {
      InsertKeepsApart(testCases, k, testCase, testCaseIndices);
      assert testCases == testCases[..k] + testCases[k..];
      testCases := testCases[..k] + [testCase] + testCases[k..];
      hide Apart, TestCase.Valid, TestCase.Unshuffled;
      forall i | 0 <= i < |testCases|
        ensures testCases[i].Valid() && testCases[i].Unshuffled()
      {
        assert i < k ==> testCases[i] == old(testCases)[i];
        assert i > k ==> testCases[i] == old(testCases)[i - 1];
      }
    }

    method AppendIndex()
      requires |testCaseIndices.elements| + 1 == |testCases| && testCaseIndices.elements == Identity(|testCases| - 1)
      requires Apart(testCases, testCaseIndices) && CasesValid() && CasesUnshuffled()
      modifies testCaseIndices
      ensures testCaseIndices.elements == Identity(|testCases|)
      ensures CasesValid() && CasesUnshuffled()
    {
      testCaseIndices.elements := testCaseIndices.elements + [|testCaseIndices.elements|];
    }

    /** Adds a test to the test case it names, registering that first if it is new. */
    method AddTestInfo(test: TestInfo)
      requires Valid() && Unshuffled() && |testCases| < IntMax
      requires forall c :: c in testCases ==> |c.testInfoList| < IntMax
      modifies this`testCases, this`lastDeathTestCase, this`registered, testCaseIndices, testCases, Vectors()
      ensures Valid() && Unshuffled()
      ensures forall c :: c in old(testCases) ==>
                c in testCases
                && c.testInfoList == old(c.testInfoList) + (if c.name == test.testCaseName then [test] else [])
      ensures HasName(old(testCases), test.testCaseName) ==> registered == old(registered)
      ensures !HasName(old(testCases), test.testCaseName) ==>
                exists c :: registered == old(registered) + [c] && c.name == test.testCaseName
                            && c.testInfoList == [test]
    {
      var testCase := GetTestCase(test.testCaseName);
      AddToCase(testCase, test);
      assert !HasName(old(testCases), test.testCaseName) ==>
          registered == old(registered) + [testCase] && testCase.testInfoList == [test];
    }

    method AddToCase(testCase: TestCase, test: TestInfo)
      requires Valid() && Unshuffled() && testCase in testCases && |testCase.testInfoList| < IntMax
      modifies testCase, testCase.testIndices
      ensures Valid() && Unshuffled()
      ensures testCase.testInfoList == old(testCase.testInfoList) + [test]
      ensures forall c :: c in testCases && c.name != testCase.name ==> c.testInfoList == old(c.testInfoList)
    {
      testCase.AddTestInfo(test);
    }

    // ----- shuffling

    /** State of the random numbers when the tests of the first k test cases have been shuffled. */
    ghost function TestsState(state: nat, k: nat): nat
      reads this`testCases, testCases
      requires k <= |testCases|
    {
      if k == 0 then state else StateAfter(TestsState(state, k - 1), |testCases[k - 1].testInfoList|)
    }

    lemma TestsStateStarts(state: nat)
      ensures TestsState(state, 0) == state
    {
    }

    lemma TestsStateSteps(state: nat, k: nat)
      requires k < |testCases|
      ensures TestsState(state, k + 1) == StateAfter(TestsState(state, k), |testCases[k].testInfoList|)
    {
    }

    ghost function CasesState(state: nat): nat
      reads this`testCases, this`lastDeathTestCase
      requires 0 <= lastDeathTestCase + 1 <= |testCases|
    {
      StateAfter(StateAfter(state, lastDeathTestCase + 1), |testCases| - (lastDeathTestCase + 1))
    }

    method ShuffleTests()
      requires Valid()
      modifies random, testCaseIndices, Vectors()
      ensures Valid()
      ensures testCaseIndices.elements
              == ShuffledBlocks(old(random.state), lastDeathTestCase + 1, old(testCaseIndices.elements))
      ensures forall k :: 0 <= k < |testCases| ==>
                TestOrders()[k] == ShuffledOrder(TestsState(CasesState(old(random.state)), k), old(TestOrders())[k])
    {
      hide BlockOrder, DeathCases, OtherCases, ShuffledBlocks, ShuffledOrder, StateAfter;
      ShuffleCases();
      ShuffleTestsInside();
    }

    method ShuffleCases()
      requires |testCases| <= IntMax && Apart(testCases, testCaseIndices) && CasesValid()
      requires 0 <= lastDeathTestCase + 1
      requires BlockOrder(testCaseIndices.elements, lastDeathTestCase + 1, |testCases|)
      modifies random, testCaseIndices
      ensures CasesValid() && BlockOrder(testCaseIndices.elements, lastDeathTestCase + 1, |testCases|)
      ensures random.state == CasesState(old(random.state))
      ensures testCaseIndices.elements
              == ShuffledBlocks(old(random.state), lastDeathTestCase + 1, old(testCaseIndices.elements))
    {
      ShuffledBlocksKeepOrder(random.state, lastDeathTestCase + 1, testCaseIndices.elements, |testCases|);
      BlockOrderLength(testCaseIndices.elements, lastDeathTestCase + 1, |testCases|);
      ghost var state, indices := random.state, testCaseIndices.elements;
      hide Apart, CasesValid, BlockOrder, Shuffled, Draws, StateAfter;
      var deaths := lastDeathTestCase + 1;
      ShuffleIndices(0, deaths);
      ShuffleIndices(deaths, |testCases|);
      assert random.state == CasesState(state);
      assert testCaseIndices.elements == ShuffledBlocks(state, deaths, indices);
    }

    method ShuffleIndices(begin: nat, end: nat)
      requires begin <= end <= |testCaseIndices.elements| <= IntMax
      requires Apart(testCases, testCaseIndices) && CasesValid()
      modifies random, testCaseIndices
      ensures CasesValid()
      ensures testCaseIndices.elements
              == Shuffled(Draws(old(random.state), end - begin), begin, end - begin, old(testCaseIndices.elements))
      ensures random.state == StateAfter(old(random.state), end - begin)
    {
      ShuffleRange(random, begin, end, testCaseIndices);
    }

    /** The index vectors of the first i test cases. */
    ghost function OrdersUpTo(i: nat): (orders: seq<seq<int>>)
      reads this`testCases, testCases, Vectors()
      requires i <= |testCases|
      ensures |orders| == i
    {
      if i == 0 then [] else OrdersUpTo(i - 1) + [testCases[i - 1].testIndices.elements]
    }

    lemma OrdersUpToAt(i: nat, k: nat)
      requires k < i <= |testCases|
      ensures OrdersUpTo(i)[k] == testCases[k].testIndices.elements
    {
    }

    ghost function TestOrders(): (orders: seq<seq<int>>)
      reads this`testCases, testCases, Vectors()
      ensures |orders| == |testCases|
    {
      OrdersUpTo(|testCases|)
    }

    lemma TestOrdersAt()
      ensures forall k :: 0 <= k < |testCases| ==> TestOrders()[k] == testCases[k].testIndices.elements
    {
      forall k | 0 <= k < |testCases|
        ensures TestOrders()[k] == testCases[k].testIndices.elements
      {
        OrdersUpToAt(|testCases|, k);
      }
    }

    method ShuffleTestsInside()
      requires Apart(testCases, testCaseIndices) && CasesValid()
      modifies random, Vectors()
      ensures CasesValid() && testCaseIndices.elements == old(testCaseIndices.elements)
      ensures forall k :: 0 <= k < |testCases| ==>
                TestOrders()[k] == ShuffledOrder(TestsState(old(random.state), k), old(TestOrders())[k])
    {
      hide Apart, CasesValid, ShuffledOrder, StateAfter, TestsState, TestOrders;
      TestsStateStarts(random.state);
      ghost var state, before := random.state, TestOrders();
      var i := 0;
      while i < |testCases|
        invariant i <= |testCases| && CasesValid()
        invariant random.state == TestsState(state, i)
        invariant testCaseIndices.elements == old(testCaseIndices.elements)
        invariant forall k :: 0 <= k < i ==> TestOrders()[k] == ShuffledOrder(TestsState(state, k), before[k])
        invariant TestOrders()[i..] == before[i..]
      {
        ghost var orders := TestOrders();
        TestsStateSteps(state, i);
        ShuffleTestsOf(i);
        assert orders[i] == orders[i..][0] && before[i] == before[i..][0];
        assert orders[i + 1..] == orders[i..][1..] && before[i + 1..] == before[i..][1..];
        i := i + 1;
      }
    }

    method ShuffleTestsOf(i: nat)
      requires i < |testCases| && Apart(testCases, testCaseIndices) && CasesValid()
      modifies random, testCases[i].testIndices
      ensures CasesValid() && testCaseIndices.elements == old(testCaseIndices.elements)
      ensures random.state == StateAfter(old(random.state), |testCases[i].testInfoList|)
      ensures TestOrders() == old(TestOrders())[i := ShuffledOrder(old(random.state), old(TestOrders())[i])]
    {
      TestOrdersAt();
      testCases[i].ShuffleTests(random);
      TestOrdersAt();
    }

    /** Restores the order of registration. */
    method UnshuffleTests()
      requires Valid()
      modifies testCaseIndices, Vectors()
      ensures Valid() && Unshuffled()
    {
      var i := 0;
      while i < |testCases|
        invariant i <= |testCases| == |testCaseIndices.elements| && CasesValid()
        invariant forall k :: 0 <= k < i ==> testCases[k].Unshuffled() && testCaseIndices.elements[k] == k
      {
        UnshuffleTestsOf(i);
        testCaseIndices.elements := testCaseIndices.elements[i := i];
        i := i + 1;
      }
      assert testCaseIndices.elements == Identity(|testCases|);
      IdentityIsBlockOrder(lastDeathTestCase + 1, |testCases|);
    }

    method UnshuffleTestsOf(i: nat)
      requires i < |testCases| && Apart(testCases, testCaseIndices) && CasesValid()
      modifies testCases[i].testIndices
      ensures CasesValid() && testCases[i].Unshuffled()
      ensures forall k :: 0 <= k < |testCases| && k != i ==>
                testCases[k].Unshuffled() == old(testCases[k].Unshuffled())
      ensures testCaseIndices.elements == old(testCaseIndices.elements)
    {
      testCases[i].UnshuffleTests();
    }

    /** The index vector selects test cases. */
    ghost predicate Selects()
      reads this`testCases, testCaseIndices
    {
      InRange(testCaseIndices.elements, |testCases|) && |testCaseIndices.elements| == |testCases|
    }

    lemma ValidSelects()
      requires Valid()
      ensures Selects()
    {
      BlockOrderInRange(testCaseIndices.elements, lastDeathTestCase + 1, |testCases|);
    }

    method GetMutableTestCase(i: int) returns (testCase: Option<TestCase>)
      requires Selects()
      ensures testCase == if 0 <= i < |testCases| then Some(testCases[testCaseIndices.elements[i]]) else None
    {
      var index := GetElementOr(testCaseIndices.elements, i, -1);
      testCase := if index < 0 then None else Some(testCases[index]);
    }

    // ----- running

    /** The case that is run as the j-th follows the index vector, and so do its tests. */
    ghost predicate InCurrentOrder(visits: seq<Visit>)
      reads this`testCases, testCaseIndices, testCases, Vectors()
    {
      |visits| == |testCases| && InRange(testCaseIndices.elements, |testCases|)
      && CasesOf(visits) == Ordered(testCases, testCaseIndices.elements)
      && forall j :: 0 <= j < |visits| ==> RunAsOrdered(visits[j])
    }

    ghost predicate RunAsOrdered(visit: Visit)
      reads this`testCases, testCases, Vectors()
    {
      visit.testCase in testCases
      && InRange(visit.testCase.testIndices.elements, |visit.testCase.testInfoList|)
      && visit.tests == visit.testCase.TestsIn(visit.testCase.testIndices.elements)
    }

    method RunTestCases() returns (visits: seq<Visit>)
      requires Valid()
      ensures InCurrentOrder(visits)
    {
      visits := [];
      ValidSelects();
      ghost var order := Ordered(testCases, testCaseIndices.elements);
      hide Apart, CasesValid, BlockOrder, InRange, Ordered, DeathCases, OtherCases, RunAsOrdered;
      var i := 0;
      while i < |testCases|
        invariant i == |visits| <= |testCases|
        invariant forall j :: 0 <= j < i ==> RunAsOrdered(visits[j])
        invariant forall j :: 0 <= j < i ==> visits[j].testCase == order[j]
      {
        var visit := RunTestCase(i);
        visits := visits + [visit];
        i := i + 1;
      }
      CasesOfIs(visits, order);
    }

    /** One round of the loop of RunTestCases. */
    method RunTestCase(i: nat) returns (visit: Visit)
      requires Selects() && CasesValid() && i < |testCases|
      ensures RunAsOrdered(visit)
      ensures visit.testCase == Ordered(testCases, testCaseIndices.elements)[i]
    {
      hide Ordered, TestCase.Valid;
      var testCase := GetMutableTestCase(i);
      OrderedAt(testCases, testCaseIndices.elements, i);
      var tests := testCase.value.Run();
      visit := Visit(testCase.value, tests);
    }

    /** Every registered test case once, death test cases first; in each of them, if it is to run,
        every test once. */
    ghost predicate Complete(visits: seq<Visit>)
      reads this`testCases, this`registered, testCases
    {
      var deaths := |DeathCases(registered)|;
      deaths <= |visits|
      && multiset(CasesOf(visits)[..deaths]) == multiset(DeathCases(registered))
      && multiset(CasesOf(visits)[deaths..]) == multiset(OtherCases(registered))
      && forall j :: 0 <= j < |visits| ==> CompleteIn(visits[j])
    }

    ghost predicate CompleteIn(visit: Visit)
      reads this`testCases, testCases
    {
      visit.testCase in testCases
      && multiset(visit.tests) == if visit.testCase.shouldRun then multiset(visit.testCase.testInfoList) else multiset{}
    }

    /** Whatever has been shuffled, a run in the current order is complete. */
    lemma CurrentOrderIsComplete(visits: seq<Visit>)
      requires Valid() && InCurrentOrder(visits)
      ensures Complete(visits)
    {
      var deaths := |DeathCases(registered)|;
      BlockOrderVisits(testCases, testCaseIndices.elements, deaths);
      assert testCases[..deaths] == DeathCases(registered) && testCases[deaths..] == OtherCases(registered);
      forall j | 0 <= j < |visits|
        ensures CompleteIn(visits[j])
      {
        AllTestsRun(visits[j]);
      }
    }

    lemma AllTestsRun(visit: Visit)
      requires Valid() && RunAsOrdered(visit)
      ensures CompleteIn(visit)
    {
      var list, order := visit.testCase.testInfoList, visit.testCase.testIndices.elements;
      BlockOrderVisits(list, order, |list|);
      assert Ordered(list, order)[..|list|] == Ordered(list, order);
      assert list[..|list|] == list;
    }

    /** A complete run visits every registered test case exactly once, and no death test case after
        one that is not. */
    lemma EachCaseOnce(visits: seq<Visit>)
      requires Valid() && Complete(visits)
      ensures multiset(CasesOf(visits)) == multiset(registered)
      ensures forall c :: c in CasesOf(visits) ==> multiset(CasesOf(visits))[c] == 1
      ensures DeathsFirst(CasesOf(visits))
    {
      hide Filters.IsDeathTestName, DeathCases, OtherCases, CasesOf;
      DeathsAndOthers(registered);
      DeathsAreDeaths(registered);
      ghost var deaths, others := DeathCases(registered), OtherCases(registered);
      SameBlocks(CasesOf(visits), deaths, others);
      OnceEach(testCases);
    }

    // ----- iterations can be repeated from their seeds

    /** The order of cases in an iteration, given its seed if it shuffles. */
    ghost function CaseOrder(seed: Option<nat>): (order: seq<int>)
      reads this`testCases, this`lastDeathTestCase
      requires 0 <= lastDeathTestCase + 1 <= |testCases|
      ensures BlockOrder(order, lastDeathTestCase + 1, |testCases|)
    {
      var n, d := |testCases|, lastDeathTestCase + 1;
      IdentityIsBlockOrder(d, n);
      match seed
      case None => Identity(n)
      case Some(state) =>
        ShuffledBlocksKeepOrder(state, d, Identity(n), n);
        ShuffledBlocks(state, d, Identity(n))
    }

    /** The order of three test cases, none of them death tests, in an iteration with seed 1. */
    lemma OrderOfSeedOne()
      requires |testCases| == 3 && lastDeathTestCase == -1
      ensures CaseOrder(Some(1)) == [2, 1, 0]
    {
      ShuffleOfSeedOne();
      assert Identity(3) == [0, 1, 2];
    }

    /** The order of the tests in the k-th registered case. */
    ghost function TestsOrder(seed: Option<nat>, k: nat): (order: seq<int>)
      reads this`testCases, this`lastDeathTestCase, testCases
      requires 0 <= lastDeathTestCase + 1 <= |testCases| && k < |testCases|
      ensures BlockOrder(order, |testCases[k].testInfoList|, |testCases[k].testInfoList|)
    {
      var n := |testCases[k].testInfoList|;
      IdentityIsBlockOrder(n, n);
      match seed
      case None => Identity(n)
      case Some(state) =>
        ShuffledOrderKeepsOrder(TestsState(CasesState(state), k), Identity(n), n);
        ShuffledOrder(TestsState(CasesState(state), k), Identity(n))
    }

    /** The visits are those that the seed determines. */
    ghost predicate FollowsSeed(visits: seq<Visit>, seed: Option<nat>)
      reads this`testCases, this`lastDeathTestCase, testCases
    {
      0 <= lastDeathTestCase + 1 <= |testCases| == |visits|
      && InRange(CaseOrder(seed), |testCases|) && CasesOf(visits) == Ordered(testCases, CaseOrder(seed))
      && forall j :: 0 <= j < |visits| ==> TestsFollowSeed(visits[j], seed)
    }

    ghost predicate TestsFollowSeed(visit: Visit, seed: Option<nat>)
      reads this`testCases, this`lastDeathTestCase, testCases
      requires 0 <= lastDeathTestCase + 1 <= |testCases|
    {
      exists k :: 0 <= k < |testCases| && visit.testCase == testCases[k]
                  && InRange(TestsOrder(seed, k), |testCases[k].testInfoList|)
                  && visit.tests == testCases[k].TestsIn(TestsOrder(seed, k))
    }

    /** The index vectors are in the order the seed determines. */
    ghost predicate ShuffledBy(seed: Option<nat>)
      reads this`testCases, this`lastDeathTestCase, testCaseIndices, testCases, Vectors()
    {
      0 <= lastDeathTestCase + 1 <= |testCases| && testCaseIndices.elements == CaseOrder(seed)
      && forall k :: 0 <= k < |testCases| ==> TestOrders()[k] == TestsOrder(seed, k)
    }

    lemma CurrentFollowsSeed(visits: seq<Visit>, seed: Option<nat>)
      requires InCurrentOrder(visits) && ShuffledBy(seed)
      ensures FollowsSeed(visits, seed)
    {
      hide CaseOrder, TestsOrder, Ordered, InRange, TestOrders;
      forall j | 0 <= j < |visits|
        ensures TestsFollowSeed(visits[j], seed)
      {
        assert RunAsOrdered(visits[j]);
        var k :| 0 <= k < |testCases| && visits[j].testCase == testCases[k];
        TestOrdersAt();
      }
    }

    lemma SameCaseSameTests(visit: Visit, other: Visit, seed: Option<nat>)
      requires Apart(testCases, testCaseIndices) && 0 <= lastDeathTestCase + 1 <= |testCases|
      requires TestsFollowSeed(visit, seed) && TestsFollowSeed(other, seed) && visit.testCase == other.testCase
      ensures visit == other
    {
      hide TestsOrder, Ordered, InRange;
    }

    /** An iteration is reproduced by its seed. */
    lemma SameSeedSameVisits(visits: seq<Visit>, others: seq<Visit>, seed: Option<nat>)
      requires Apart(testCases, testCaseIndices)
      requires FollowsSeed(visits, seed) && FollowsSeed(others, seed)
      ensures visits == others
    {
      hide Apart, CaseOrder, TestsFollowSeed, CasesOf, Ordered, InRange;
      forall j | 0 <= j < |visits|
        ensures visits[j] == others[j]
      {
        CaseAt(visits, j);
        CaseAt(others, j);
        SameCaseSameTests(visits[j], others[j], seed);
      }
    }

    lemma UnshuffledFollowsNone()
      requires Valid() && Unshuffled()
      ensures ShuffledBy(None)
    {
      hide BlockOrder, DeathCases, OtherCases;
      TestOrdersAt();
    }

    /** Shuffles the registration order with freshly seeded random numbers. */
    method ShuffleFrom(seed: nat)
      requires Valid() && Unshuffled()
      modifies random, testCaseIndices, Vectors()
      ensures Valid() && ShuffledBy(Some(seed))
    {
      hide BlockOrder, DeathCases, OtherCases, ShuffledBlocks, ShuffledOrder, CasesState, TestsState, TestOrders;
      UnshuffledFollowsNone();
      random.Reseed(seed);
      ShuffleTests();
    }

    /** What an iteration reports: nothing if there is nothing to run, and else a complete run in
        the order of its seed. */
    ghost predicate Reported(visits: seq<Visit>, hasTestsToRun: bool, seed: Option<nat>)
      reads this`testCases, this`lastDeathTestCase, this`registered, testCases
    {
      if hasTestsToRun then Complete(visits) && FollowsSeed(visits, seed) else visits == []
    }

    /** What the i-th iteration reports: nothing either if the set-up of environments fails fatally. */
    ghost predicate ReportedAt(visits: seq<Visit>, hasTestsToRun: bool, shuffle: bool, first: nat,
                               setUpFails: nat -> bool, i: nat)
      requires 1 <= first <= 99999
      reads this`testCases, this`lastDeathTestCase, this`registered, testCases
    {
      Reported(visits, hasTestsToRun && !setUpFails(i), if shuffle then Some(SeedOf(first, i)) else None)
    }

    method RunIteration(hasTestsToRun: bool, shuffle: bool, seed: nat, setUpFails: bool) returns (visits: seq<Visit>)
      requires Valid() && Unshuffled()
      modifies random, testCaseIndices, Vectors()
      ensures Valid() && Unshuffled()
      ensures Reported(visits, hasTestsToRun && !setUpFails, if shuffle then Some(seed) else None)
    {
      hide Apart, CasesValid, CasesUnshuffled, BlockOrder, DeathCases, OtherCases;
      hide Complete, FollowsSeed, InCurrentOrder, ShuffledBy;
      visits := [];
      if hasTestsToRun && shuffle {
        ShuffleFrom(seed);
      } else {
        UnshuffledFollowsNone();
      }
      if hasTestsToRun && !setUpFails {
        visits := RunTestCases();
        CurrentOrderIsComplete(visits);
        CurrentFollowsSeed(visits, if shuffle then Some(seed) else None);
      }
      UnshuffleTests();
    }

    /** All iterations are complete, unless the environments' set-up fails fatally, each in the order
        of its own seed, and in the end the tests are back in the order of registration. */
    method RunAllTests(repeat: nat, hasTestsToRun: bool, shuffle: bool, seedFlag: int, now: int,
                       setUpFails: nat -> bool)
      returns (log: seq<seq<Visit>>)
      requires Valid() && Unshuffled()
      modifies this`randomSeed, random, testCaseIndices, Vectors()
      ensures Valid() && Unshuffled() && |log| == repeat
      ensures forall i :: 0 <= i < repeat ==>
                ReportedAt(log[i], hasTestsToRun, shuffle, GetRandomSeedFromFlag(seedFlag, now), setUpFails, i)
    {
      hide Apart, CasesValid, CasesUnshuffled, BlockOrder, DeathCases, OtherCases;
      hide Reported, ReportedAt, GetRandomSeedFromFlag, GetNextRandomSeed;
      randomSeed := if shuffle then GetRandomSeedFromFlag(seedFlag, now) else 0;
      ghost var first := GetRandomSeedFromFlag(seedFlag, now);
      log := [];
      var i := 0;
      while i < repeat
        invariant i == |log| <= repeat && Valid() && Unshuffled()
        invariant shuffle ==> randomSeed == SeedOf(first, i)
        invariant forall k :: 0 <= k < i ==> ReportedAt(log[k], hasTestsToRun, shuffle, first, setUpFails, k)
      {
        var visits := RunIteration(hasTestsToRun, shuffle, randomSeed, setUpFails(i));
        IsReportedAt(visits, hasTestsToRun, shuffle, first, setUpFails, i);
        log := log + [visits];
        if shuffle {
          randomSeed := GetNextRandomSeed(randomSeed);
        }
        i := i + 1;
      }
    }

    lemma IsReportedAt(visits: seq<Visit>, hasTestsToRun: bool, shuffle: bool, first: nat, setUpFails: nat -> bool,
                       i: nat)
      requires 1 <= first <= 99999
      requires Reported(visits, hasTestsToRun && !setUpFails(i), if shuffle then Some(SeedOf(first, i)) else None)
      ensures ReportedAt(visits, hasTestsToRun, shuffle, first, setUpFails, i)
    {
    }
  }
}
