/** Orders given by index vectors: what stays the same when indices are shuffled block by block. */
module RunOrder {

  import opened Shuffle

  function Identity(n: nat): (s: seq<int>)
    ensures |s| == n && forall i :: 0 <= i < n ==> s[i] == i
  {
    if n == 0 then [] else Identity(n - 1) + [n - 1]
  }

  predicate InRange(indices: seq<int>, n: nat) {
    forall k :: 0 <= k < |indices| ==> 0 <= indices[k] < n
  }

  /** The elements of list that the indices select, in their order. */
  function Ordered<T>(list: seq<T>, indices: seq<int>): (r: seq<T>)
    requires InRange(indices, |list|)
    ensures |r| == |indices|
  {
    if indices == [] then [] else [list[indices[0]]] + Ordered(list, indices[1..])
  }

  lemma {:induction false} OrderedAt<T>(list: seq<T>, indices: seq<int>, k: nat)
    requires InRange(indices, |list|) && k < |indices|
    ensures Ordered(list, indices)[k] == list[indices[k]]
  {
    if k > 0 {
      OrderedAt(list, indices[1..], k - 1);
    }
  }

  /** Which elements a sequence has before and from index d, in whatever order. */
  ghost function Blocks<E>(s: seq<E>, d: nat): (multiset<E>, multiset<E>)
    requires d <= |s|
  {
    (multiset(s[..d]), multiset(s[d..]))
  }

  /** n indices, the first d of them in any order and then the others in any order. */
  ghost predicate BlockOrder(indices: seq<int>, d: nat, n: nat) {
    d <= n == |indices| && Blocks(indices, d) == Blocks(Identity(n), d)
  }

  lemma BlockOrderLength(indices: seq<int>, d: nat, n: nat)
    requires BlockOrder(indices, d, n)
    ensures d <= n == |indices|
  {
  }

  lemma IdentityIsBlockOrder(d: nat, n: nat)
    requires d <= n
    ensures BlockOrder(Identity(n), d, n)
  {
  }

  lemma ShuffleFirstBlock<E>(s: seq<E>, t: seq<E>, d: nat)
    requires d <= |s| == |t| && UpToOrder(t, 0, d) == UpToOrder(s, 0, d)
    ensures Blocks(t, d) == Blocks(s, d)
  {
    assert s[0..d] == s[..d] && t[0..d] == t[..d];
    assert s[0 + d..] == s[d..] && t[0 + d..] == t[d..];
  }

  lemma ShuffleLastBlock<E>(s: seq<E>, t: seq<E>, d: nat)
    requires d <= |s| == |t| && UpToOrder(t, d, |s| - d) == UpToOrder(s, d, |s| - d)
    ensures Blocks(t, d) == Blocks(s, d)
  {
    assert s[d..d + (|s| - d)] == s[d..] && t[d..d + (|s| - d)] == t[d..];
  }

  lemma BlockOrderInRange(indices: seq<int>, d: nat, n: nat)
    requires BlockOrder(indices, d, n)
    ensures InRange(indices, n)
    ensures forall k :: 0 <= k < n ==> (indices[k] < d <==> k < d)
  {
    var id := Identity(n);
    forall k | 0 <= k < n
      ensures 0 <= indices[k] < n && (indices[k] < d <==> k < d)
    {
      if k < d {
        assert indices[..d][k] in multiset(indices[..d]);
        assert indices[k] in id[..d];
      } else {
        assert indices[d..][k - d] in multiset(indices[d..]);
        assert indices[k] in id[d..];
      }
    }
  }

  lemma {:induction false} OrderedTogether<T>(list: seq<T>, a: seq<int>, b: seq<int>)
    requires InRange(a, |list|) && InRange(b, |list|)
    ensures InRange(a + b, |list|) && Ordered(list, a + b) == Ordered(list, a) + Ordered(list, b)
  {
    var joined := a + b;
    assert InRange(joined, |list|);
    if a == [] {
      assert joined == b;
    } else {
      assert joined[0] == a[0] && joined[1..] == a[1..] + b;
      OrderedTogether(list, a[1..], b);
    }
  }

  lemma {:induction false} OrderedIs<T>(list: seq<T>, indices: seq<int>, t: seq<T>)
    requires InRange(indices, |list|) && |t| == |indices|
    requires forall k :: 0 <= k < |t| ==> t[k] == list[indices[k]]
    ensures Ordered(list, indices) == t
  {
    if t != [] {
      OrderedIs(list, indices[1..], t[1..]);
    }
  }

  lemma InRangeParts(a: seq<int>, b: seq<int>, n: nat)
    ensures InRange(a + b, n) <==> InRange(a, n) && InRange(b, n)
  {
    assert forall k :: 0 <= k < |a| ==> (a + b)[k] == a[k];
    assert forall k :: 0 <= k < |b| ==> (a + b)[|a| + k] == b[k];
  }

  lemma InRangeOne(x: int, n: nat)
    ensures InRange([x], n) <==> 0 <= x < n
  {
    assert InRange([x], n) ==> 0 <= [x][0] < n;
  }

  /** One index contributes its element, wherever it stands. */
  lemma OrderedWithout<T>(list: seq<T>, before: seq<int>, x: int, after: seq<int>)
    requires InRange(before + [x] + after, |list|)
    ensures 0 <= x < |list| && InRange(before + after, |list|)
    ensures multiset(Ordered(list, before + [x] + after))
            == multiset{list[x]} + multiset(Ordered(list, before + after))
  {
    hide InRange, Ordered;
    InRangeParts(before + [x], after, |list|);
    InRangeParts(before, [x], |list|);
    InRangeParts(before, after, |list|);
    InRangeOne(x, |list|);
    OrderedTogether(list, before + [x], after);
    OrderedTogether(list, before, [x]);
    OrderedTogether(list, before, after);
    OrderedIs(list, [x], [list[x]]);
  }

  lemma TakeOut(b: seq<int>, x: int) returns (before: seq<int>, after: seq<int>)
    requires x in multiset(b)
    ensures b == before + [x] + after && multiset(before + after) == multiset(b) - multiset{x}
  {
    var i :| 0 <= i < |b| && b[i] == x;
    before, after := b[..i], b[i + 1..];
    assert b == before + [x] + after;
    assert multiset(b) == multiset(before) + multiset{x} + multiset(after);
  }

  lemma {:induction false} OrderedUpToOrder<T>(list: seq<T>, a: seq<int>, b: seq<int>)
    requires InRange(a, |list|) && InRange(b, |list|) && multiset(a) == multiset(b)
    ensures multiset(Ordered(list, a)) == multiset(Ordered(list, b))
    decreases |a|
  {
    hide InRange, Ordered;
    if a == [] {
      assert |multiset(b)| == 0;
    } else {
      var x, rest := a[0], a[1..];
      assert a == [] + [x] + rest && [] + rest == rest;
      assert multiset(a) == multiset{x} + multiset(rest);
      var before, after := TakeOut(b, x);
      OrderedWithout(list, [], x, rest);
      OrderedWithout(list, before, x, after);
      OrderedUpToOrder(list, rest, before + after);
    }
  }

  lemma FirstVisited<T>(list: seq<T>, indices: seq<int>, d: nat)
    requires d <= |list| && InRange(indices, |list|) && multiset(indices) == multiset(Identity(|list|)[..d])
    ensures multiset(Ordered(list, indices)) == multiset(list[..d])
  {
    var first := Identity(|list|)[..d];
    OrderedIs(list, first, list[..d]);
    OrderedUpToOrder(list, indices, first);
  }

  lemma LastVisited<T>(list: seq<T>, indices: seq<int>, d: nat)
    requires d <= |list| && InRange(indices, |list|) && multiset(indices) == multiset(Identity(|list|)[d..])
    ensures multiset(Ordered(list, indices)) == multiset(list[d..])
  {
    var last := Identity(|list|)[d..];
    OrderedIs(list, last, list[d..]);
    OrderedUpToOrder(list, indices, last);
  }

  lemma OrderedParts<T>(list: seq<T>, indices: seq<int>, d: nat)
    requires InRange(indices, |list|) && d <= |indices|
    ensures InRange(indices[..d], |list|) && Ordered(list, indices)[..d] == Ordered(list, indices[..d])
    ensures InRange(indices[d..], |list|) && Ordered(list, indices)[d..] == Ordered(list, indices[d..])
  {
    assert indices == indices[..d] + indices[d..];
    hide InRange;
    InRangeParts(indices[..d], indices[d..], |list|);
    OrderedTogether(list, indices[..d], indices[d..]);
  }

  /** Following a block order visits exactly the first d elements first and then exactly the others. */
  lemma BlockOrderVisits<T>(list: seq<T>, indices: seq<int>, d: nat)
    requires BlockOrder(indices, d, |list|)
    ensures InRange(indices, |list|)
    ensures Blocks(Ordered(list, indices), d) == Blocks(list, d)
  {
    BlockOrderInRange(indices, d, |list|);
    hide InRange, Ordered;
    OrderedParts(list, indices, d);
    FirstVisited(list, indices[..d], d);
    LastVisited(list, indices[d..], d);
  }

  // ----- registering while shuffled

  lemma IdentityGrows(n: nat, d: nat)
    requires d <= n
    ensures Identity(n + 1) == Identity(n) + [n]
    ensures Identity(n + 1)[..d] == Identity(n)[..d] && Identity(n + 1)[d..] == Identity(n)[d..] + [n]
    ensures d < n ==> Identity(n)[..d + 1] == Identity(n)[..d] + [d] && Identity(n)[d..] == [d] + Identity(n)[d + 1..]
  {
  }

  /** A case that is not a death test case may be registered in any state. */
  lemma AppendKeepsBlockOrder(indices: seq<int>, d: nat, n: nat)
    requires BlockOrder(indices, d, n)
    ensures BlockOrder(indices + [n], d, n + 1)
  {
    IdentityGrows(n, d);
    assert (indices + [n])[..d] == indices[..d] && (indices + [n])[d..] == indices[d..] + [n];
  }

  /** A death test case moves the first case of the others one up, so its registration keeps death
      tests in front exactly if there are no others or the first of them is in its place. */
  lemma DeathInsertKeepsOrderIff(indices: seq<int>, d: nat, n: nat)
    requires BlockOrder(indices, d, n)
    ensures BlockOrder(indices + [n], d + 1, n + 1) <==> d == n || indices[d] == d
  {
    var grown := indices + [n];
    BlockOrderInRange(indices, d, n);
    if BlockOrder(grown, d + 1, n + 1) {
      BlockOrderInRange(grown, d + 1, n + 1);
      assert d < n ==> grown[d] == indices[d] && indices[d] < d + 1;
    }
    if d == n || indices[d] == d {
      AppendKeepsBlockOrder(indices, d, n);
      IdentityGrows(n + 1, d);
      WideBlocks(grown, d, n + 1);
    }
  }

  lemma WideBlocks(indices: seq<int>, d: nat, n: nat)
    requires d < n && BlockOrder(indices, d, n) && indices[d] == d
    ensures BlockOrder(indices, d + 1, n)
  {
    IdentityGrows(n, d);
    assert indices[..d + 1] == indices[..d] + [d];
    assert indices[d..] == [d] + indices[d + 1..];
    assert multiset(indices[d + 1..]) == multiset(indices[d..]) - multiset{d};
    assert multiset(Identity(n)[d + 1..]) == multiset(Identity(n)[d..]) - multiset{d};
  }

  // ----- the orders that shuffling leads to

  /** The order that draws for the first d indices and then for the others lead to. */
  ghost function BlocksDrawn(draws: seq<nat>, others: seq<nat>, d: nat, indices: seq<int>): (shuffled: seq<int>)
    requires d <= |indices| && AreDraws(draws, d) && AreDraws(others, |indices| - d)
    ensures |shuffled| == |indices|
  {
    Shuffled(others, d, |indices| - d, Shuffled(draws, 0, d, indices))
  }

  /** Every order of both blocks is drawn by some draws. */
  lemma EveryBlockOrderIsDrawn(indices: seq<int>, target: seq<int>, d: nat)
    returns (draws: seq<nat>, others: seq<nat>)
    requires d <= |indices| == |target| && Blocks(target, d) == Blocks(indices, d)
    ensures AreDraws(draws, d) && AreDraws(others, |indices| - d)
    ensures BlocksDrawn(draws, others, d, indices) == target
  {
    hide AreDraws, Shuffled;
    var n, middle := |indices|, target[..d] + indices[d..];
    assert middle[0..d] == target[..d] && middle[0 + d..] == indices[d..] && middle[d..] == indices[d..];
    assert middle[d..d + (n - d)] == indices[d..] && target[d..d + (n - d)] == target[d..];
    assert middle[..d] == target[..d];
    assert middle[d + (n - d)..] == [] && target[d + (n - d)..] == [];
    assert indices[0..d] == indices[..d] && indices[0 + d..] == indices[d..];
    draws := DrawsTo(indices, middle, 0, d);
    others := DrawsTo(middle, target, d, n - d);
  }

  /** The case order after shuffling the first d indices and then the others. */
  ghost function ShuffledBlocks(state: nat, d: nat, indices: seq<int>): (shuffled: seq<int>)
    requires d <= |indices|
    ensures |shuffled| == |indices|
  {
    BlocksDrawn(Draws(state, d), Draws(StateAfter(state, d), |indices| - d), d, indices)
  }

  lemma ShuffledBlocksKeepOrder(state: nat, d: nat, indices: seq<int>, n: nat)
    requires BlockOrder(indices, d, n)
    ensures BlockOrder(ShuffledBlocks(state, d, indices), d, n)
  {
    hide UpToOrder, Blocks, Shuffled;
    var draws, draws' := Draws(state, d), Draws(StateAfter(state, d), n - d);
    var first := Shuffled(draws, 0, d, indices);
    ShuffleRearranges(draws, 0, d, indices);
    ShuffleFirstBlock(indices, first, d);
    ShuffleRearranges(draws', d, n - d, first);
    ShuffleLastBlock(first, ShuffledBlocks(state, d, indices), d);
  }

  /** The test order after shuffling all indices. */
  ghost function ShuffledOrder(state: nat, indices: seq<int>): (shuffled: seq<int>)
    ensures |shuffled| == |indices|
  {
    Shuffled(Draws(state, |indices|), 0, |indices|, indices)
  }

  lemma ShuffledOrderKeepsOrder(state: nat, indices: seq<int>, n: nat)
    requires BlockOrder(indices, n, n)
    ensures BlockOrder(ShuffledOrder(state, indices), n, n)
  {
    hide UpToOrder, Blocks, Shuffled;
    ShuffleRearranges(Draws(state, n), 0, n, indices);
    ShuffleFirstBlock(indices, ShuffledOrder(state, indices), n);
  }

  // ----- every place can be drawn from some state

  /** The generator comes by every state. */
  lemma {:induction false} StateBefore(target: nat, width: nat) returns (state: nat)
    requires target < 0x8000_0000
    ensures state < 0x8000_0000 && StateAfter(state, width) == target
    decreases width
  {
    if width < 2 {
      state := target;
    } else {
      var next := StateBefore(target, width - 1);
      state := PreviousState(next);
      StepForth(next);
      hide NextState, PreviousState;
    }
  }

  /** The first draw decides which element ends a shuffled range. */
  lemma FirstDrawEndsRange<E>(state: nat, begin: nat, width: nat, s: seq<E>, j: nat)
    requires begin + width <= |s| && j < width <= 0x8000_0000 && state == PreviousState(j)
    ensures Shuffled(Draws(state, width), begin, width, s)[begin + width - 1] == s[begin + j]
  {
    if width >= 2 {
      EveryNumberIsPicked(width, j);
      hide NextState, Pick, PreviousState;
      var draws := Draws(state, width);
      assert draws[0] == j && AreDraws(draws[1..], width - 1);
      EndIsKept(draws[1..], begin, width - 1, Swapped(s, begin + j, begin + width - 1));
    }
  }

  /** Each test of a case can be run as its last. */
  lemma EveryTestCanBeLast(indices: seq<int>, j: nat) returns (state: nat)
    requires j < |indices| <= 0x7FFF_FFFF
    ensures state < 0x8000_0000 && ShuffledOrder(state, indices)[|indices| - 1] == indices[j]
  {
    state := PreviousState(j);
    FirstDrawEndsRange(state, 0, |indices|, indices, j);
  }

  /** And each case as the last one of its block. */
  lemma EveryCaseCanBeLast(indices: seq<int>, d: nat, j: nat) returns (state: nat)
    requires d <= |indices| <= 0x7FFF_FFFF && j < |indices|
    ensures state < 0x8000_0000
    ensures ShuffledBlocks(state, d, indices)[if j < d then d - 1 else |indices| - 1] == indices[j]
  {
    hide Shuffled, Draws, AreDraws;
    var n := |indices|;
    if j < d {
      state := PreviousState(j);
      var first := Shuffled(Draws(state, d), 0, d, indices);
      FirstDrawEndsRange(state, 0, d, indices, j);
      FrontIsKept(Draws(StateAfter(state, d), n - d), d, n - d, first, d - 1);
    } else {
      state := StateBefore(PreviousState(j - d), d);
      var first := Shuffled(Draws(state, d), 0, d, indices);
      FirstDrawEndsRange(PreviousState(j - d), d, n - d, first, j - d);
      BackIsKept(Draws(state, d), 0, d, indices, j);
    }
  }

  lemma FrontIsKept<E>(draws: seq<nat>, begin: nat, width: nat, s: seq<E>, k: nat)
    requires begin + width <= |s| && AreDraws(draws, width) && k < begin
    ensures Shuffled(draws, begin, width, s)[k] == s[k]
  {
    ShuffleRearranges(draws, begin, width, s);
    hide Shuffled, AreDraws;
    var t := Shuffled(draws, begin, width, s);
    assert s[..begin][k] == s[k] && t[..begin][k] == t[k];
  }

  lemma BackIsKept<E>(draws: seq<nat>, begin: nat, width: nat, s: seq<E>, k: nat)
    requires begin + width <= k < |s| && AreDraws(draws, width)
    ensures Shuffled(draws, begin, width, s)[k] == s[k]
  {
    ShuffleRearranges(draws, begin, width, s);
    hide Shuffled, AreDraws;
    var t := Shuffled(draws, begin, width, s);
    assert s[begin + width..][k - begin - width] == s[k] && t[begin + width..][k - begin - width] == t[k];
  }

  /** From state 1 the draws for three elements are 0 and 1. */
  lemma ShuffleOfSeedOne()
    ensures ShuffledBlocks(1, 0, [0, 1, 2]) == [2, 1, 0]
  {
    var s, draws := [0, 1, 2], Draws(1, 3);
    assert NextState(1) == 1103527590 && NextState(1103527590) == 377401575;
    assert draws == [0, 1] && draws[1..] == [1];
    assert Swapped(s, 0, 2) == [2, 1, 0] && Swapped([2, 1, 0], 1, 1) == [2, 1, 0];
    assert Shuffled(draws, 0, 3, s) == Shuffled([1], 0, 2, [2, 1, 0]) == [2, 1, 0];
    assert StateAfter(1, 0) == 1 && Shuffled(Draws(1, 0), 0, 0, s) == s;
  }
}
