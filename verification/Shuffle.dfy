/** gtest's random numbers and its in-place shuffle of a range of a vector. */
module Shuffle {

  /** One step of the linear congruential generator, in 32-bit arithmetic. */
  function NextState(state: nat): (next: nat)
    ensures next < 0x8000_0000
  {
    (1103515245 * state + 12345) % 0x1_0000_0000 % 0x8000_0000
  }

  /** The step back: 1857678181 times the multiplier is 1 modulo 2^31. */
  function PreviousState(state: nat): (previous: nat)
    ensures previous < 0x8000_0000
  {
    (1857678181 * (state + 0x8000_0000 - 12345)) % 0x8000_0000
  }

  /** The generator steps through the 31-bit states one to one: each follows on exactly one. */
  lemma StepsAreBijective(state: nat, next: nat)
    requires state < 0x8000_0000 && next < 0x8000_0000
    ensures NextState(state) == next <==> state == PreviousState(next)
  {
    StepBack(state);
    StepForth(next);
  }

  lemma StepBack(state: nat)
    requires state < 0x8000_0000
    ensures PreviousState(NextState(state)) == state
  {
    var x := 1103515245 * state + 12345;
    var next, m := NextState(state), 1857678181;
    var q := (x - next) / 0x8000_0000;
    WrapTwice(x);
    assert x == q * 0x8000_0000 + next;
    assert m * (next + 0x8000_0000 - 12345) == state + (954594553 * state - m * q + m) * 0x8000_0000;
    RemainderIs(m * (next + 0x8000_0000 - 12345), 954594553 * state - m * q + m, state);
  }

  lemma StepForth(next: nat)
    requires next < 0x8000_0000
    ensures NextState(PreviousState(next)) == next
  {
    var m := 1857678181;
    var y := m * (next + 0x8000_0000 - 12345);
    var state := PreviousState(next);
    var q := y / 0x8000_0000;
    assert y == q * 0x8000_0000 + state;
    var x, p := 1103515245 * state + 12345, 954594553 * (next + 0x8000_0000 - 12345) - 1103515245 * q + 1;
    assert x == next + p * 0x8000_0000;
    WrapTwice(x);
    RemainderIs(x, p, next);
  }

  /** The wider modulus does not matter. */
  lemma WrapTwice(x: nat)
    ensures x % 0x1_0000_0000 % 0x8000_0000 == x % 0x8000_0000
  {
  }

  lemma RemainderIs(x: int, q: int, r: int)
    requires x == r + q * 0x8000_0000 && 0 <= r < 0x8000_0000
    ensures x % 0x8000_0000 == r
  {
  }

  function Pick(state: nat, range: nat): (n: nat)
    requires range > 0
    ensures n < range
  {
    state % range
  }

  /** Every number below the range is generated from some state. */
  lemma EveryNumberIsPicked(range: nat, n: nat)
    requires n < range <= 0x8000_0000
    ensures Pick(NextState(PreviousState(n)), range) == n
  {
    hide NextState, PreviousState;
    StepForth(n);
    SmallIsPicked(range, n);
  }

  lemma SmallIsPicked(range: nat, n: nat)
    requires n < range
    ensures Pick(n, range) == n
  {
  }

  class Random {
    var state: nat

    constructor (seed: nat)
      ensures state == seed
    {
      state := seed;
    }

    method Reseed(seed: nat)
      modifies this
      ensures state == seed
    {
      state := seed;
    }

    method Generate(range: nat) returns (n: nat)
      requires 0 < range <= 0x8000_0000
      modifies this
      ensures state == NextState(old(state))
      ensures n < range && n == Pick(state, range)
    {
      state := NextState(state);
      n := Pick(state, range);
    }
  }

  class Vector<E> {
    var elements: seq<E>

    constructor ()
      ensures elements == []
    {
      elements := [];
    }
  }

  // ----- the order a sequence of draws leads to

  function Swapped<E>(s: seq<E>, i: nat, j: nat): (t: seq<E>)
    requires i < |s| && j < |s|
    ensures |t| == |s|
  {
    s[i := s[j]][j := s[i]]
  }

  /** Draws for ranges of the given width, the next smaller one, and so on down to 2. */
  predicate AreDraws(draws: seq<nat>, width: nat) {
    |draws| == (if width < 2 then 0 else width - 1) && forall i :: 0 <= i < |draws| ==> draws[i] < width - i
  }

  /** Fisher-Yates: each draw selects the element that moves to the end of what is left of the range. */
  function Shuffled<E>(draws: seq<nat>, begin: nat, width: nat, s: seq<E>): (t: seq<E>)
    requires begin + width <= |s| && AreDraws(draws, width)
    ensures |t| == |s|
    decreases width
  {
    if width < 2 then s
    else Shuffled(draws[1..], begin, width - 1, Swapped(s, begin + draws[0], begin + width - 1))
  }

  function Draws(state: nat, width: nat): (draws: seq<nat>)
    ensures AreDraws(draws, width)
    decreases width
  {
    if width < 2 then [] else [Pick(NextState(state), width)] + Draws(NextState(state), width - 1)
  }

  function StateAfter(state: nat, width: nat): nat
    decreases width
  {
    if width < 2 then state else StateAfter(NextState(state), width - 1)
  }

  method ShuffleRange<E>(random: Random, begin: nat, end: nat, v: Vector<E>)
    requires begin <= end <= |v.elements| <= 0x7FFF_FFFF
    modifies random, v
    ensures v.elements == Shuffled(Draws(old(random.state), end - begin), begin, end - begin, old(v.elements))
    ensures random.state == StateAfter(old(random.state), end - begin)
  {
    hide NextState, Pick, Swapped;
    var rangeWidth := end - begin;
    while rangeWidth >= 2
      invariant 0 <= rangeWidth <= end - begin
      invariant |v.elements| == old(|v.elements|)
      invariant Shuffled(Draws(random.state, rangeWidth), begin, rangeWidth, v.elements)
                == Shuffled(Draws(old(random.state), end - begin), begin, end - begin, old(v.elements))
      invariant StateAfter(random.state, rangeWidth) == StateAfter(old(random.state), end - begin)
    {
      ghost var draws := Draws(random.state, rangeWidth);
      var lastInRange := begin + rangeWidth - 1;
      var selected := random.Generate(rangeWidth);
      selected := begin + selected;
      v.elements := Swapped(v.elements, selected, lastInRange);
      rangeWidth := rangeWidth - 1;
      assert draws[1..] == Draws(random.state, rangeWidth);
    }
  }

  method ShuffleAll<E>(random: Random, v: Vector<E>)
    requires |v.elements| <= 0x7FFF_FFFF
    modifies random, v
    ensures v.elements == Shuffled(Draws(old(random.state), |old(v.elements)|), 0, |old(v.elements)|, old(v.elements))
    ensures random.state == StateAfter(old(random.state), |old(v.elements)|)
  {
    ShuffleRange(random, 0, |v.elements|, v);
  }

  // ----- what a shuffle keeps

  /** What is left of a sequence when the order within a range is forgotten. */
  ghost function UpToOrder<E>(s: seq<E>, begin: nat, width: nat): (seq<E>, multiset<E>, seq<E>)
    requires begin + width <= |s|
  {
    (s[..begin], multiset(s[begin..begin + width]), s[begin + width..])
  }

  lemma SwapRearranges<E>(s: seq<E>, begin: nat, width: nat, i: nat, j: nat)
    requires begin + width <= |s| && i < width && j < width
    ensures UpToOrder(Swapped(s, begin + i, begin + j), begin, width) == UpToOrder(s, begin, width)
  {
    var block := s[begin..begin + width];
    assert Swapped(s, begin + i, begin + j)[begin..begin + width] == Swapped(block, i, j);
    assert multiset(block[i := block[j]][j := block[i]]) == multiset(block);
  }

  /** The element past a range is the same in both, so it may be added to the range or taken from it. */
  lemma RangeGrows<E>(s: seq<E>, t: seq<E>, begin: nat, width: nat)
    requires begin + width < |s| == |t|
    ensures UpToOrder(s, begin, width) == UpToOrder(t, begin, width)
            <==> UpToOrder(s, begin, width + 1) == UpToOrder(t, begin, width + 1)
                 && s[begin + width] == t[begin + width]
  {
    var end := begin + width;
    WithEnd(s, begin, end);
    WithEnd(t, begin, end);
    if s[end..] == t[end..] {
      assert s[end] == s[end..][0] && t[end] == t[end..][0];
      assert s[end + 1..] == s[end..][1..] && t[end + 1..] == t[end..][1..];
    }
  }

  lemma WithEnd<E>(s: seq<E>, begin: nat, end: nat)
    requires begin <= end < |s|
    ensures multiset(s[begin..end + 1]) == multiset(s[begin..end]) + multiset{s[end]}
    ensures multiset(s[begin..end]) == multiset(s[begin..end + 1]) - multiset{s[end]}
    ensures s[end..] == [s[end]] + s[end + 1..]
  {
    assert s[begin..end + 1] == s[begin..end] + [s[end]];
  }

  lemma DrawsSplit(draws: seq<nat>, width: nat)
    requires width >= 2 && AreDraws(draws, width)
    ensures |draws| > 0 && draws[0] < width && AreDraws(draws[1..], width - 1)
    ensures draws == [draws[0]] + draws[1..]
  {
  }

  /** However the draws fall, a shuffle only rearranges its range. */
  lemma {:induction false} ShuffleRearranges<E>(draws: seq<nat>, begin: nat, width: nat, s: seq<E>)
    requires begin + width <= |s| && AreDraws(draws, width)
    ensures UpToOrder(Shuffled(draws, begin, width, s), begin, width) == UpToOrder(s, begin, width)
    decreases width
  {
    hide UpToOrder, Swapped, AreDraws;
    if width >= 2 {
      DrawsSplit(draws, width);
      var swapped, t := Swapped(s, begin + draws[0], begin + width - 1), Shuffled(draws, begin, width, s);
      ShuffleRearranges(draws[1..], begin, width - 1, swapped);
      RangeGrows(swapped, t, begin, width - 1);
      SwapRearranges(s, begin, width, draws[0], width - 1);
    }
  }

  // ----- every order has its draws

  ghost predicate Distinct<E>(s: seq<E>) {
    forall i, j :: 0 <= i < j < |s| ==> s[i] != s[j]
  }

  lemma SwapKeepsDistinct<E>(s: seq<E>, i: nat, j: nat)
    requires Distinct(s) && i < |s| && j < |s|
    ensures Distinct(Swapped(s, i, j))
  {
  }

  /** Where the range of s has the element that t has at the range's end. */
  lemma PlaceOf<E>(s: seq<E>, t: seq<E>, begin: nat, width: nat) returns (i: nat)
    requires 0 < width && begin + width <= |s| == |t|
    requires UpToOrder(s, begin, width) == UpToOrder(t, begin, width)
    ensures i < width && s[begin + i] == t[begin + width - 1]
  {
    var block, wanted := s[begin..begin + width], t[begin + width - 1];
    assert wanted == t[begin..begin + width][width - 1];
    assert wanted in multiset(t[begin..begin + width]);
    assert wanted in block;
    i :| 0 <= i < |block| && block[i] == wanted;
  }

  lemma NothingRearranged<E>(s: seq<E>, t: seq<E>, begin: nat, width: nat)
    requires width < 2 && begin + width <= |s| == |t|
    requires UpToOrder(s, begin, width) == UpToOrder(t, begin, width)
    ensures s == t
  {
    assert s == s[..begin] + s[begin..begin + width] + s[begin + width..];
    assert t == t[..begin] + t[begin..begin + width] + t[begin + width..];
    if width == 1 {
      var i := PlaceOf(s, t, begin, width);
      assert s[begin..begin + 1] == [s[begin]] == t[begin..begin + 1];
    }
  }

  lemma SwapEnd<E>(s: seq<E>, i: nat, j: nat)
    requires i < |s| && j < |s|
    ensures Swapped(s, i, j)[j] == s[i]
  {
  }

  lemma DrawsJoin(i: nat, rest: seq<nat>, width: nat)
    requires i < width && width >= 2 && AreDraws(rest, width - 1)
    ensures AreDraws([i] + rest, width) && ([i] + rest)[1..] == rest
  {
  }

  lemma ShuffledJoins<E>(i: nat, rest: seq<nat>, begin: nat, width: nat, s: seq<E>)
    requires 2 <= width && begin + width <= |s| && i < width && AreDraws(rest, width - 1)
    ensures AreDraws([i] + rest, width)
    ensures Shuffled([i] + rest, begin, width, s)
            == Shuffled(rest, begin, width - 1, Swapped(s, begin + i, begin + width - 1))
  {
    DrawsJoin(i, rest, width);
    hide AreDraws, Swapped;
  }

  lemma NothingDrawn<E>(begin: nat, width: nat, s: seq<E>)
    requires width < 2 && begin + width <= |s|
    ensures AreDraws([], width) && Shuffled([], begin, width, s) == s
  {
  }

  lemma {:induction false} DrawsTo<E>(s: seq<E>, t: seq<E>, begin: nat, width: nat) returns (draws: seq<nat>)
    requires begin + width <= |s| == |t| && UpToOrder(s, begin, width) == UpToOrder(t, begin, width)
    ensures AreDraws(draws, width) && Shuffled(draws, begin, width, s) == t
    decreases width
  {
    hide UpToOrder, Swapped, AreDraws, Shuffled;
    if width < 2 {
      NothingRearranged(s, t, begin, width);
      NothingDrawn(begin, width, s);
      draws := [];
    } else {
      var i := PlaceOf(s, t, begin, width);
      var last := begin + width - 1;
      var swapped := Swapped(s, begin + i, last);
      SwapRearranges(s, begin, width, i, width - 1);
      SwapEnd(s, begin + i, last);
      RangeGrows(swapped, t, begin, width - 1);
      var rest := DrawsTo(swapped, t, begin, width - 1);
      ShuffledJoins(i, rest, begin, width, s);
      draws := [i] + rest;
    }
  }

  /** Every order of the range is reached by some draws. */
  lemma EveryOrderIsDrawn<E>(s: seq<E>, t: seq<E>, begin: nat, width: nat)
    requires begin + width <= |s| == |t| && UpToOrder(s, begin, width) == UpToOrder(t, begin, width)
    ensures exists draws: seq<nat> :: AreDraws(draws, width) && Shuffled(draws, begin, width, s) == t
  {
    var draws := DrawsTo(s, t, begin, width);
  }

  lemma SameEndSameDraw<E>(s: seq<E>, i: nat, j: nat, last: nat)
    requires Distinct(s) && i <= last && j <= last < |s|
    requires Swapped(s, i, last)[last] == Swapped(s, j, last)[last]
    ensures i == j
  {
  }

  lemma EndIsKept<E>(draws: seq<nat>, begin: nat, width: nat, s: seq<E>)
    requires begin + width < |s| && AreDraws(draws, width)
    ensures Shuffled(draws, begin, width, s)[begin + width] == s[begin + width]
  {
    var t := Shuffled(draws, begin, width, s);
    ShuffleRearranges(draws, begin, width, s);
    hide UpToOrder;
    RangeGrows(s, t, begin, width);
  }

  /** For elements that differ, no order is reached by two sequences of draws, so the shuffle is a
      bijection between draws and orders. */
  lemma {:induction false} DrawsAreUnique<E>(draws: seq<nat>, others: seq<nat>, begin: nat, width: nat, s: seq<E>)
    requires Distinct(s) && begin + width <= |s| && AreDraws(draws, width) && AreDraws(others, width)
    requires Shuffled(draws, begin, width, s) == Shuffled(others, begin, width, s)
    ensures draws == others
    decreases width
  {
    if width >= 2 {
      hide Swapped, Distinct, AreDraws;
      DrawsSplit(draws, width);
      DrawsSplit(others, width);
      var last, i, j := begin + width - 1, begin + draws[0], begin + others[0];
      EndIsKept(draws[1..], begin, width - 1, Swapped(s, i, last));
      EndIsKept(others[1..], begin, width - 1, Swapped(s, j, last));
      SameEndSameDraw(s, i, j, last);
      SwapKeepsDistinct(s, i, last);
      DrawsAreUnique(draws[1..], others[1..], begin, width - 1, Swapped(s, i, last));
    }
  }
}
