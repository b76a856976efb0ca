/** gtest's test cases with their tests, in the order of registration or shuffled, and the random
    seeds of iterations. */
module TestOrder {

  import opened Options
  import opened Shuffle
  import opened RunOrder

  const IntMax := 0x7FFF_FFFF

  function GetElementOr<E>(v: seq<E>, i: int, defaultValue: E): E {
    if i < 0 || i >= |v| then defaultValue else v[i]
  }

  /** The seed of the first iteration, from the flag or else from the clock, in 32-bit arithmetic. */
  function GetRandomSeedFromFlag(flag: int, now: int): (seed: nat)
    ensures 1 <= seed <= 99999
    ensures 1 <= flag <= 99999 ==> seed == flag
    ensures var raw := (if flag == 0 then now else flag) % 0x1_0000_0000; raw > 0 ==> (raw - seed) % 99999 == 0
  {
    var raw := (if flag == 0 then now else flag) % 0x1_0000_0000;
    (raw - 1) % 0x1_0000_0000 % 99999 + 1
  }

  function GetNextRandomSeed(seed: nat): (next: nat)
    requires 1 <= seed <= 99999
    ensures 1 <= next <= 99999
  {
    if seed + 1 > 99999 then 1 else seed + 1
  }

  /** The seed of the i-th iteration. */
  function SeedOf(first: nat, i: nat): (seed: nat)
    requires 1 <= first <= 99999
    ensures 1 <= seed <= 99999
  {
    if i == 0 then first else GetNextRandomSeed(SeedOf(first, i - 1))
  }

  /** All seeds take their turn before one comes again. */
  lemma {:induction false} SeedsAreCyclic(first: nat, i: nat)
    requires 1 <= first <= 99999
    ensures SeedOf(first, i) == (first - 1 + i) % 99999 + 1
  {
    if i > 0 {
      SeedsAreCyclic(first, i - 1);
    }
  }

  datatype TestInfo = TestInfo(testCaseName: string, name: string)

  class TestCase {
    const name: string
    var testInfoList: seq<TestInfo>
    const testIndices: Vector<int>
    var shouldRun: bool

    ghost predicate Valid()
      reads this, testIndices
    {
      |testInfoList| <= IntMax && BlockOrder(testIndices.elements, |testInfoList|, |testInfoList|)
    }

    ghost predicate Unshuffled()
      reads this, testIndices
    {
      testIndices.elements == Identity(|testInfoList|)
    }

    constructor (name: string)
      ensures Valid() && Unshuffled() && fresh(testIndices)
      ensures this.name == name && testInfoList == [] && shouldRun
    {
      this.name := name;
      testInfoList := [];
      testIndices := new Vector<int>();
      shouldRun := true;
    }

    method GetMutableTestInfo(i: int) returns (test: Option<TestInfo>)
      requires Valid()
      ensures InRange(testIndices.elements, |testInfoList|)
      ensures test == if 0 <= i < |testInfoList| then Some(testInfoList[testIndices.elements[i]]) else None
    {
      BlockOrderInRange(testIndices.elements, |testInfoList|, |testInfoList|);
      var index := GetElementOr(testIndices.elements, i, -1);
      test := if index < 0 then None else Some(testInfoList[index]);
    }

    method AddTestInfo(test: TestInfo)
      requires Valid() && Unshuffled() && |testInfoList| < IntMax
      modifies this`testInfoList, testIndices
      ensures Valid() && Unshuffled()
      ensures testInfoList == old(testInfoList) + [test]
    {
      testInfoList := testInfoList + [test];
      testIndices.elements := testIndices.elements + [|testIndices.elements|];
      IdentityIsBlockOrder(|testInfoList|, |testInfoList|);
    }

    method ShuffleTests(random: Random)
      requires Valid()
      modifies random, testIndices
      ensures Valid()
      ensures testIndices.elements == ShuffledOrder(old(random.state), old(testIndices.elements))
      ensures random.state == StateAfter(old(random.state), |testInfoList|)
    {
      ShuffledOrderKeepsOrder(random.state, testIndices.elements, |testInfoList|);
      ShuffleAll(random, testIndices);
    }

    method UnshuffleTests()
      requires Valid()
      modifies testIndices
      ensures Valid() && Unshuffled()
    {
      var i := 0;
      while i < |testIndices.elements|
        invariant i <= |testIndices.elements| == |testInfoList|
        invariant forall k :: 0 <= k < i ==> testIndices.elements[k] == k
      {
        testIndices.elements := testIndices.elements[i := i];
        i := i + 1;
      }
      assert testIndices.elements == Identity(|testInfoList|);
      IdentityIsBlockOrder(|testInfoList|, |testInfoList|);
    }

    /** The tests that a run with the given indices visits. */
    ghost function TestsIn(indices: seq<int>): seq<TestInfo>
      reads this
      requires InRange(indices, |testInfoList|)
    {
      if shouldRun then Ordered(testInfoList, indices) else []
    }

    method Run() returns (tests: seq<TestInfo>)
      requires Valid()
      ensures InRange(testIndices.elements, |testInfoList|) && tests == TestsIn(testIndices.elements)
    {
      tests := [];
      BlockOrderInRange(testIndices.elements, |testInfoList|, |testInfoList|);
      if !shouldRun {
        return;
      }
      var i := 0;
      while i < |testInfoList|
        invariant i == |tests| <= |testInfoList|
        invariant forall k :: 0 <= k < i ==> tests[k] == testInfoList[testIndices.elements[k]]
      {
        var test := GetMutableTestInfo(i);
        tests := tests + [test.value];
        i := i + 1;
      }
      OrderedIs(testInfoList, testIndices.elements, tests);
    }
  }
}
