/** The bipartite graph that gmock's matching runs on, and the counter that enumerates all graphs. */
module Graphs {

  import opened Powers

  /** The graph as a value: edges run from left nodes [0, lhs) to right nodes [0, rhs). */
  datatype Graph = Graph(lhs: nat, rhs: nat, edges: set<(int, int)>)

  /** The flattened matrix has room for every coordinate, and different coordinates get
      different cells. */
  lemma SpaceIndexInjective(lhs: nat, rhs: nat, l: nat, r: nat, l': nat, r': nat)
    requires l < lhs && r < rhs && l' < lhs && r' < rhs
    ensures 0 <= l * rhs + r < lhs * rhs
    ensures l * rhs + r == l' * rhs + r' ==> l == l' && r == r'
  {
    RowsAreApart(l, lhs, rhs);
    if l < l' {
      RowsAreApart(l, l', rhs);
    } else if l' < l {
      RowsAreApart(l', l, rhs);
    }
  }

  lemma RowsAreApart(l: nat, l': nat, rhs: nat)
    requires l < l'
    ensures l * rhs + rhs <= l' * rhs
  {
    assert (l' - l - 1) * rhs >= 0;
    assert l' * rhs == l * rhs + rhs + (l' - l - 1) * rhs;
  }

  /** The matrix read as a binary number, first cell least significant. */
  function BitValue(bits: seq<bool>): nat {
    if bits == [] then 0 else (if bits[0] then 1 else 0) + 2 * BitValue(bits[1..])
  }

  function Zeros(n: nat): (z: seq<bool>)
    ensures |z| == n && forall i :: 0 <= i < n ==> !z[i]
  {
    seq(n, _ => false)
  }

  /** Ripple-carry increment: leading ones become zero, the first zero becomes one. */
  function Increment(bits: seq<bool>): seq<bool> {
    if bits == [] then [] else if bits[0] then [false] + Increment(bits[1..]) else [true] + bits[1..]
  }

  lemma {:induction false} BitValueBound(bits: seq<bool>)
    ensures BitValue(bits) < Pow2(|bits|)
    ensures BitValue(bits) == Pow2(|bits|) - 1 <==> forall i :: 0 <= i < |bits| ==> bits[i]
  {
    if bits != [] {
      BitValueBound(bits[1..]);
      assert (forall i :: 0 <= i < |bits| ==> bits[i]) <==>
             bits[0] && forall i :: 0 <= i < |bits[1..]| ==> bits[1..][i] by {
        if forall i :: 0 <= i < |bits[1..]| ==> bits[1..][i] {
          assert forall i :: 1 <= i < |bits| ==> bits[i] == bits[1..][i - 1];
        }
      }
    }
  }

  lemma {:induction false} BitValueInjective(a: seq<bool>, b: seq<bool>)
    requires |a| == |b| && BitValue(a) == BitValue(b)
    ensures a == b
  {
    if a != [] {
      assert a[0] == b[0];
      BitValueInjective(a[1..], b[1..]);
      assert a == [a[0]] + a[1..] && b == [b[0]] + b[1..];
    }
  }

  /** Increment adds one modulo the number of graphs. */
  lemma {:induction false} IncrementValue(bits: seq<bool>)
    ensures |Increment(bits)| == |bits|
    ensures BitValue(Increment(bits)) ==
            if BitValue(bits) == Pow2(|bits|) - 1 then 0 else BitValue(bits) + 1
  {
    if bits != [] {
      IncrementValue(bits[1..]);
      BitValueBound(bits[1..]);
      assert ([false] + Increment(bits[1..]))[1..] == Increment(bits[1..]);
      assert ([true] + bits[1..])[1..] == bits[1..];
    }
  }

  /** Wrap-around happens exactly when every cell is set, and only it yields zero. */
  lemma IncrementWraps(bits: seq<bool>)
    ensures if forall i :: 0 <= i < |bits| ==> bits[i]
            then BitValue(Increment(bits)) == 0
            else BitValue(Increment(bits)) == BitValue(bits) + 1
  {
    IncrementValue(bits);
    BitValueBound(bits);
  }

  /** What the flattened loop leaves behind after clearing k leading ones is the increment. */
  lemma {:induction false} IncrementShape(bits: seq<bool>, k: nat)
    requires k <= |bits| && forall i :: 0 <= i < k ==> bits[i]
    ensures k == |bits| ==> Increment(bits) == Zeros(k)
    ensures k < |bits| && !bits[k] ==> Increment(bits) == Zeros(k) + [true] + bits[k + 1..]
  {
    if k > 0 {
      IncrementShape(bits[1..], k - 1);
      assert Zeros(k) == [false] + Zeros(k - 1);
      if k < |bits| {
        assert bits[1..][k..] == bits[k + 1..];
      }
    }
  }

  /** The first k cells were set and have been cleared; the others are as before. */
  ghost predicate Cleared(before: seq<bool>, now: seq<bool>, k: nat) {
    && k <= |before| == |now|
    && (forall i :: 0 <= i < k ==> before[i] && !now[i])
    && (forall i :: k <= i < |now| ==> now[i] == before[i])
  }

  /** The graph after k calls of NextGraph on an empty matrix of n cells. */
  ghost function AfterCalls(n: nat, k: nat): seq<bool> {
    if k == 0 then Zeros(n) else Increment(AfterCalls(n, k - 1))
  }

  lemma {:induction false} AfterCallsValue(n: nat, k: nat)
    requires k < Pow2(n)
    ensures |AfterCalls(n, k)| == n && BitValue(AfterCalls(n, k)) == k
  {
    if k == 0 {
      EmptyValue(n);
    } else {
      AfterCallsValue(n, k - 1);
      IncrementValue(AfterCalls(n, k - 1));
    }
  }

  lemma {:induction false} EmptyValue(n: nat)
    ensures BitValue(Zeros(n)) == 0
  {
    if n > 0 {
      EmptyValue(n - 1);
      assert Zeros(n)[1..] == Zeros(n - 1);
    }
  }

  /** Enumeration from the empty graph visits every graph exactly once before it wraps around. */
  lemma EveryGraphVisitedOnce(bits: seq<bool>)
    ensures BitValue(bits) < Pow2(|bits|) && AfterCalls(|bits|, BitValue(bits)) == bits
    ensures forall k: nat :: k < Pow2(|bits|) && AfterCalls(|bits|, k) == bits ==> k == BitValue(bits)
  {
    BitValueBound(bits);
    AfterCallsValue(|bits|, BitValue(bits));
    BitValueInjective(AfterCalls(|bits|, BitValue(bits)), bits);
    forall k: nat | k < Pow2(|bits|) && AfterCalls(|bits|, k) == bits
      ensures k == BitValue(bits)
    {
      AfterCallsValue(|bits|, k);
    }
  }

  /** It wraps around to the empty graph after exactly 2^n calls. */
  lemma WrapsAround(n: nat)
    ensures AfterCalls(n, Pow2(n)) == Zeros(n)
  {
    BitValueBound(Zeros(n));
    var last := AfterCalls(n, Pow2(n) - 1);
    AfterCallsValue(n, Pow2(n) - 1);
    IncrementValue(last);
    EmptyValue(n);
    BitValueInjective(Increment(last), Zeros(n));
  }

  class MatchMatrix {
    const numElements: nat
    const numMatchers: nat
    var matched: seq<bool>

    constructor (numElements: nat, numMatchers: nat)
      ensures this.numElements == numElements && this.numMatchers == numMatchers
      ensures Valid()
      ensures Value() == Graph(numElements, numMatchers, {})
    {
      this.numElements, this.numMatchers := numElements, numMatchers;
      matched := seq(numElements * numMatchers, _ => false);
      new;
      forall l, r | 0 <= l < numElements && 0 <= r < numMatchers
        ensures !At(l, r)
      {
        SpaceIndexInjective(numElements, numMatchers, l, r, l, r);
      }
    }

    ghost predicate Valid()
      reads this
    {
      |matched| == numElements * numMatchers
    }

    ghost predicate At(l: nat, r: nat)
      requires Valid() && l < numElements && r < numMatchers
      reads this
    {
      SpaceIndexInjective(numElements, numMatchers, l, r, l, r);
      matched[l * numMatchers + r]
    }

    ghost function Value(): Graph
      requires Valid()
      reads this
    {
      Graph(numElements, numMatchers,
            set l: int, r: int | 0 <= l < numElements && 0 <= r < numMatchers && At(l, r) :: (l, r))
    }

    method HasEdge(ilhs: nat, irhs: nat) returns (edge: bool)
      requires Valid() && ilhs < numElements && irhs < numMatchers
      ensures edge <==> (ilhs, irhs) in Value().edges
    {
      SpaceIndexInjective(numElements, numMatchers, ilhs, irhs, ilhs, irhs);
      edge := matched[ilhs * numMatchers + irhs];
      assert edge == At(ilhs, irhs);
    }

    method SetEdge(ilhs: nat, irhs: nat, b: bool)
      requires Valid() && ilhs < numElements && irhs < numMatchers
      modifies this
      ensures Valid()
      ensures Value() == old(Value()).(edges := if b then old(Value()).edges + {(ilhs, irhs)}
                                                else old(Value()).edges - {(ilhs, irhs)})
    {
      SpaceIndexInjective(numElements, numMatchers, ilhs, irhs, ilhs, irhs);
      matched := matched[ilhs * numMatchers + irhs := b];
      forall l, r | 0 <= l < numElements && 0 <= r < numMatchers
        ensures At(l, r) == if l == ilhs && r == irhs then b else old(At(l, r))
      {
        SpaceIndexInjective(numElements, numMatchers, l, r, ilhs, irhs);
      }
    }

    /** Carries through one row, whose cells start at offset `row`: the inner loop of NextGraph. */
    method NextInRow(row: nat, ghost bits: seq<bool>) returns (more: bool)
      requires row + numMatchers <= |matched| && Cleared(bits, matched, row)
      modifies this
      ensures |matched| == |bits|
      ensures !more ==> Cleared(bits, matched, row + numMatchers)
      ensures more ==> matched == Increment(bits) && BitValue(matched) == BitValue(bits) + 1
    {
      for irhs := 0 to numMatchers
        invariant |matched| == |bits| && Cleared(bits, matched, row + irhs)
      {
        if !matched[row + irhs] {
          matched := matched[row + irhs := true];
          IncrementShape(bits, row + irhs);
          IncrementWraps(bits);
          assert matched == Zeros(row + irhs) + [true] + bits[row + irhs + 1..];
          return true;
        }
        matched := matched[row + irhs := false];
      }
      return false;
    }

    /** Adds one to the matrix; false exactly when that leaves the graph empty. */
    method NextGraph() returns (more: bool)
      requires Valid()
      modifies this
      ensures Valid() && matched == Increment(old(matched))
      ensures more <==> BitValue(matched) == BitValue(old(matched)) + 1
      ensures !more <==> BitValue(matched) == 0
    {
      ghost var bits := matched;
      for ilhs := 0 to numElements
        invariant Cleared(bits, matched, ilhs * numMatchers)
      {
        assert ilhs * numMatchers + numMatchers == (ilhs + 1) * numMatchers <= numElements * numMatchers;
        more := NextInRow(ilhs * numMatchers, bits);
        if more {
          return;
        }
      }
      IncrementShape(bits, |bits|);
      IncrementWraps(bits);
      assert matched == Zeros(|bits|);
      return false;
    }
  }
}
