/** Maximum bipartite matching by depth-first augmentation, as gmock uses it to pair
    elements with matchers. Maximality is proved with a Koenig-style certificate: the right
    nodes reached by failed searches form a "dead" set that no later search can leave. */
module BipartiteMatching {

  import opened Graphs

  /** The value size_t(-1) marks an unlinked node. */
  const UNUSED: int := -1

  type Links = seq<int>

  /** The links are mutually inverse along edges of g. One right node, `stale`, is exempt:
      while a search unwinds, the node just taken away from a left node still names it. */
  ghost predicate Mutual(g: Graph, left: Links, right: Links, stale: int) {
    && |left| == g.lhs && |right| == g.rhs
    && (forall l :: 0 <= l < g.lhs && left[l] != UNUSED ==>
          0 <= left[l] < g.rhs && (l, left[l]) in g.edges && right[left[l]] == l)
    && (forall r :: 0 <= r < g.rhs && right[r] != UNUSED ==>
          0 <= right[r] < g.lhs && (r != stale ==> left[right[r]] == r))
  }

  /** An alternating path: from l along an edge to path[0], from each right node back to the
      left node it is linked to, and so on until an unlinked right node. */
  ghost predicate AugmentingPath(g: Graph, right: Links, l: int, path: seq<int>)
    requires |right| == g.rhs
    decreases |path|
  {
    && path != []
    && 0 <= path[0] < g.rhs
    && (l, path[0]) in g.edges
    && if |path| == 1 then right[path[0]] == UNUSED
       else right[path[0]] != UNUSED && AugmentingPath(g, right, right[path[0]], path[1..])
  }

  /** Every edge out of l ends in s. */
  ghost predicate OnlyInto(g: Graph, l: int, s: set<int>) {
    forall r :: (l, r) in g.edges ==> r in s
  }

  /** A set of linked right nodes whose partners only have edges back into the set. */
  ghost predicate Closed(g: Graph, right: Links, s: set<int>)
    requires |right| == g.rhs
  {
    forall r :: r in s ==> 0 <= r < g.rhs && right[r] != UNUSED && OnlyInto(g, right[r], s)
  }

  /** What a search for l has established once it has tried the first n right nodes in vain:
      they are seen if l has an edge to them, and every newly seen node is linked to a left
      node that only has edges to seen nodes. */
  ghost predicate Exhausted(g: Graph, right: Links, l: int, n: int, before: seq<bool>, after: seq<bool>)
    requires |right| == |before| == |after| == g.rhs
  {
    && (forall r :: 0 <= r < g.rhs && before[r] ==> after[r])
    && (forall r :: 0 <= r < n && r < g.rhs && (l, r) in g.edges ==> after[r])
    && (forall r :: 0 <= r < g.rhs && after[r] && !before[r] ==>
          right[r] != UNUSED && OnlyInto(g, right[r], SeenNodes(after)))
  }

  ghost function SeenNodes(seen: seq<bool>): set<int> {
    set r: int | 0 <= r < |seen| && seen[r]
  }

  ghost function UnseenNodes(seen: seq<bool>): set<int> {
    set r: int | 0 <= r < |seen| && !seen[r]
  }

  /** A path that starts from a node with edges into a closed set only never gets out, so it
      can never reach an unlinked node. */
  lemma {:induction false} NoPathOutOfClosed(g: Graph, right: Links, l: int, path: seq<int>, s: set<int>)
    requires |right| == g.rhs
    requires Closed(g, right, s) && OnlyInto(g, l, s)
    ensures !AugmentingPath(g, right, l, path)
    decreases |path|
  {
    if AugmentingPath(g, right, l, path) && |path| > 1 {
      NoPathOutOfClosed(g, right, right[path[0]], path[1..], s);
    }
  }

  /** Hence an augmenting path never touches a closed set. */
  lemma {:induction false} PathAvoidsClosed(g: Graph, right: Links, l: int, path: seq<int>, s: set<int>)
    requires |right| == g.rhs
    requires Closed(g, right, s) && AugmentingPath(g, right, l, path)
    ensures forall r :: r in path ==> r !in s
    decreases |path|
  {
    if |path| > 1 {
      PathAvoidsClosed(g, right, right[path[0]], path[1..], s);
      if path[0] in s {
        NoPathOutOfClosed(g, right, right[path[0]], path[1..], s);
      }
      assert forall r :: r in path ==> r == path[0] || r in path[1..];
    }
  }

  ghost predicate Avoids(path: seq<int>, seen: seq<bool>) {
    forall i :: 0 <= i < |path| ==> 0 <= path[i] < |seen| && !seen[path[i]]
  }

  /** Each node of the path is linked to the left node that the path reaches it from: the first one
      to l, each other one to the former partner of the node before it. */
  ghost predicate Flipped(right0: Links, right1: Links, l: int, path: seq<int>) {
    && (forall i :: 0 <= i < |path| ==> 0 <= path[i] < |right0| == |right1|)
    && (path != [] ==> right1[path[0]] == l)
    && forall i :: 0 < i < |path| ==> right1[path[i]] == right0[path[i - 1]]
  }

  /** What a successful search for l has done: one augmenting path was flipped. Nodes off the
      path keep their link, nodes on it pass their partners on, and l is the one left node that
      gained a link (or changed it, in a nested search). */
  ghost predicate Augmented(g: Graph, left0: Links, right0: Links, left1: Links, right1: Links,
                            l: int, path: seq<int>)
    requires |left0| == |left1| == g.lhs && |right0| == |right1| == g.rhs && 0 <= l < g.lhs
  {
    && AugmentingPath(g, right0, l, path)
    && Mutual(g, left1, right1, left0[l])
    && left1[l] == path[0] && left1[l] != left0[l]
    && (forall k :: 0 <= k < g.lhs && k != l ==> (left1[k] == UNUSED <==> left0[k] == UNUSED))
    && (forall r :: 0 <= r < g.rhs && r !in path ==> right1[r] == right0[r])
    && (forall r :: r in path ==> 0 <= r < g.rhs && right1[r] != UNUSED)
    && Flipped(right0, right1, l, path)
  }

  lemma AugmentAtSink(g: Graph, left: Links, right: Links, l: int, r: int)
    requires 0 <= l < g.lhs && 0 <= r < g.rhs && (l, r) in g.edges
    requires Mutual(g, left, right, UNUSED) && right[r] == UNUSED
    ensures Augmented(g, left, right, left[l := r], right[r := l], l, [r])
  {
  }

  lemma FlippedFurther(right0: Links, right1: Links, l: int, r: int, rest: seq<int>)
    requires 0 <= r < |right0| == |right1| && r !in rest && Flipped(right0, right1, right0[r], rest)
    ensures Flipped(right0, right1[r := l], l, [r] + rest)
  {
  }

  /** r's partner has found another node for itself along `rest`, so l takes r. */
  lemma AugmentThrough(g: Graph, left0: Links, right0: Links, left1: Links, right1: Links,
                       l: int, r: int, rest: seq<int>)
    requires 0 <= l < g.lhs && 0 <= r < g.rhs && (l, r) in g.edges
    requires Mutual(g, left0, right0, UNUSED) && right0[r] != UNUSED
    requires |left1| == g.lhs && |right1| == g.rhs
    requires Augmented(g, left0, right0, left1, right1, right0[r], rest)
    requires r !in rest && left0[l] != r && left0[l] !in rest
    ensures Augmented(g, left0, right0, left1[l := r], right1[r := l], l, [r] + rest)
  {
    FlippedFurther(right0, right1, l, r, rest);
    hide Flipped;
    var path := [r] + rest;
    assert path[1..] == rest;
    assert forall k :: k in path <==> k == r || k in rest;
    assert left0[l] != UNUSED ==> right1[left0[l]] == l;
  }

  /** Trying node n in vain: the nested search only adds to what was seen before it. */
  lemma ExhaustedStep(g: Graph, right: Links, l: int, n: int, before: seq<bool>, middle: seq<bool>, after: seq<bool>)
    requires |right| == |before| == |middle| == |after| == g.rhs
    requires 0 <= n < g.rhs && right[n] != UNUSED
    requires forall e :: e in g.edges ==> 0 <= e.1 < g.rhs
    requires Exhausted(g, right, l, n, before, middle)
    requires Exhausted(g, right, right[n], g.rhs, middle[n := true], after)
    ensures Exhausted(g, right, l, n + 1, before, after)
  {
    assert SeenNodes(middle) <= SeenNodes(after);
  }

  /** A failed search leaves behind a closed set holding every node its left node has an edge to. */
  lemma FailureIsClosed(g: Graph, right: Links, l: int, seen: seq<bool>, dead: set<int>)
    requires |right| == |seen| == g.rhs
    requires forall e :: e in g.edges ==> 0 <= e.1 < g.rhs
    requires Exhausted(g, right, l, g.rhs, seq(g.rhs, _ => false), seen)
    requires Closed(g, right, dead)
    ensures Closed(g, right, dead + SeenNodes(seen))
    ensures OnlyInto(g, l, dead + SeenNodes(seen))
  {
  }

  /** A set that is closed stays closed whatever is augmented later; by NoPathOutOfClosed a
      left node with edges into it only can therefore never gain an augmenting path. */
  lemma ClosedSurvivesAugment(g: Graph, left0: Links, right0: Links, left1: Links, right1: Links,
                              l: int, path: seq<int>, dead: set<int>)
    requires |left0| == |left1| == g.lhs && |right0| == |right1| == g.rhs && 0 <= l < g.lhs
    requires Closed(g, right0, dead)
    requires Augmented(g, left0, right0, left1, right1, l, path)
    ensures Closed(g, right1, dead)
  {
    PathAvoidsClosed(g, right0, l, path, dead);
  }

  type Pairs = seq<(int, int)>

  /** A matching: edges of g, no two of them sharing a left or a right node. */
  ghost predicate IsMatching(g: Graph, m: Pairs) {
    && (forall i :: 0 <= i < |m| ==> m[i] in g.edges)
    && (forall i, j :: 0 <= i < j < |m| ==> m[i].0 != m[j].0 && m[i].1 != m[j].1)
  }

  ghost predicate Uses(m: Pairs, r: int) {
    exists i :: 0 <= i < |m| && m[i].1 == r
  }

  ghost predicate Saturates(g: Graph, m: Pairs) {
    forall r :: 0 <= r < g.rhs ==> Uses(m, r)
  }

  ghost function Below(n: nat): (s: set<int>)
    ensures |s| == n && forall i :: i in s <==> 0 <= i < n
  {
    if n == 0 then {} else Below(n - 1) + {n - 1}
  }

  ghost function LinkedNodes(left: Links, n: nat): set<int> {
    set l: int | 0 <= l < n && l < |left| && left[l] != UNUSED
  }

  lemma {:induction false} DistinctBound(s: seq<int>, u: set<int>)
    requires forall i, j :: 0 <= i < j < |s| ==> s[i] != s[j]
    requires forall i :: 0 <= i < |s| ==> s[i] in u
    ensures |s| <= |u|
  {
    if s != [] {
      DistinctBound(s[..|s| - 1], u - {s[|s| - 1]});
    }
  }

  /** No matching has more pairs than the links, once every unlinked left node has edges into
      a closed set only: send each pair of the other matching to the link that covers it. */
  lemma LinksAreMaximum(g: Graph, left: Links, right: Links, dead: set<int>, other: Pairs)
    requires Mutual(g, left, right, UNUSED) && Closed(g, right, dead)
    requires forall e :: e in g.edges ==> 0 <= e.0 < g.lhs && 0 <= e.1 < g.rhs
    requires forall l :: 0 <= l < g.lhs && left[l] == UNUSED ==> OnlyInto(g, l, dead)
    requires IsMatching(g, other)
    ensures |other| <= |LinkedNodes(left, g.lhs)|
  {
    var cover := seq(|other|, i requires 0 <= i < |other| =>
      if 0 <= other[i].1 < g.rhs && other[i].1 in dead then right[other[i].1] else other[i].0);
    forall i | 0 <= i < |cover|
      ensures cover[i] in LinkedNodes(left, g.lhs)
    {
      assert other[i] in g.edges && other[i] == (other[i].0, other[i].1);
    }
    forall i, j | 0 <= i < j < |cover|
      ensures cover[i] != cover[j]
    {
      assert other[i] in g.edges && other[j] in g.edges;
      assert other[i] == (other[i].0, other[i].1) && other[j] == (other[j].0, other[j].1);
    }
    DistinctBound(cover, LinkedNodes(left, g.lhs));
  }

  /** Counting pairs decides saturation: a matching uses every right node exactly when it has
      as many pairs as there are right nodes. */
  lemma SaturatesIffFull(g: Graph, m: Pairs)
    requires IsMatching(g, m)
    requires forall e :: e in g.edges ==> 0 <= e.1 < g.rhs
    ensures Saturates(g, m) <==> |m| == g.rhs
    ensures |m| <= g.rhs
  {
    var rights := seq(|m|, i requires 0 <= i < |m| => m[i].1);
    forall i | 0 <= i < |m|
      ensures rights[i] in Below(g.rhs)
    {
      assert m[i] in g.edges;
    }
    DistinctBound(rights, Below(g.rhs));
    if |m| == g.rhs {
      forall r | 0 <= r < g.rhs
        ensures Uses(m, r)
      {
        if !Uses(m, r) {
          DistinctBound(rights, Below(g.rhs) - {r});
        }
      }
    }
    if Saturates(g, m) {
      var users := seq(g.rhs, r requires 0 <= r < g.rhs => assert Uses(m, r); var i :| 0 <= i < |m| && m[i].1 == r; i);
      DistinctBound(users, Below(|m|));
    }
  }

  class MaxBipartiteMatchState {
    const graph: MatchMatrix
    ghost const g: Graph  // the value of the matrix, which the search only reads
    var left: Links
    var right: Links

    constructor (graph: MatchMatrix)
      requires graph.Valid()
      ensures this.graph == graph && Valid() && g == graph.Value()
      ensures left == seq(graph.numElements, _ => UNUSED)
      ensures right == seq(graph.numMatchers, _ => UNUSED)
    {
      this.graph := graph;
      g := graph.Value();
      left := seq(graph.numElements, _ => UNUSED);
      right := seq(graph.numMatchers, _ => UNUSED);
    }

    ghost predicate Valid()
      reads graph
    {
      graph.Valid() && graph.Value() == g
    }

    /** Depth-first search for an augmenting path from ilhs over unseen right nodes. */
    method TryAugment(ilhs: nat, seen: array<bool>) returns (found: bool, ghost path: seq<int>)
      requires Valid() && ilhs < g.lhs && seen.Length == g.rhs
      requires Mutual(g, left, right, UNUSED)
      requires left[ilhs] != UNUSED ==> seen[left[ilhs]]
      modifies this, seen
      // failure: nothing moved, and the reason is on record
      ensures !found ==> left == old(left) && right == old(right)
      ensures !found ==> Exhausted(g, right, ilhs, seen.Length, old(seen[..]), seen[..])
      // success: one augmenting path over unseen nodes was flipped
      ensures found ==> |left| == g.lhs && |right| == g.rhs
      ensures found ==> Augmented(g, old(left), old(right), left, right, ilhs, path)
      ensures found ==> Avoids(path, old(seen[..]))
      decreases UnseenNodes(seen[..])
    {
      hide AugmentingPath, OnlyInto, Augmented;
      path := [];
      ghost var left0, right0, seen0 := left, right, seen[..];
      for irhs := 0 to seen.Length
        invariant left == left0 && right == right0
        invariant Exhausted(g, right0, ilhs, irhs, seen0, seen[..])
      {
        if seen[irhs] { continue; }
        var edge := graph.HasEdge(ilhs, irhs);
        if !edge { continue; }
        ghost var seen1 := seen[..];
        seen[irhs] := true;
        assert seen[..] == seen1[irhs := true];
        if right[irhs] == UNUSED {
          AugmentAtSink(g, left0, right0, ilhs, irhs);
          left, right := left[ilhs := irhs], right[irhs := ilhs];
          return true, [irhs];
        }
        assert UnseenNodes(seen[..]) < UnseenNodes(seen0) by {
          assert irhs in UnseenNodes(seen0) && irhs !in UnseenNodes(seen[..]);
        }
        found, path := TryAugment(right[irhs], seen);
        if found {
          AugmentThrough(g, left0, right0, left, right, ilhs, irhs, path);
          left, right := left[ilhs := irhs], right[irhs := ilhs];
          return true, [irhs] + path;
        }
        ExhaustedStep(g, right0, ilhs, irhs, seen0, seen1, seen[..]);
      }
      return false, [];
    }

    /** The second half of Compute: the links as pairs, by increasing left node. */
    method LinkedPairs() returns (result: Pairs)
      requires |left| == g.lhs
      requires Mutual(g, left, right, UNUSED)
      ensures IsMatching(g, result) && |result| == |LinkedNodes(left, |left|)|
      ensures forall i :: 0 <= i < |result| ==> 0 <= result[i].0 < |left| && left[result[i].0] == result[i].1
      ensures forall i, j :: 0 <= i < j < |result| ==> result[i].0 < result[j].0
    {
      result := [];
      for ilhs := 0 to |left|
        invariant |result| == |LinkedNodes(left, ilhs)|
        invariant forall i :: 0 <= i < |result| ==> 0 <= result[i].0 < ilhs
        invariant forall i :: 0 <= i < |result| ==> result[i].1 != UNUSED && left[result[i].0] == result[i].1
        invariant forall i, j :: 0 <= i < j < |result| ==> result[i].0 < result[j].0
      {
        var irhs := left[ilhs];
        if irhs == UNUSED {
          assert LinkedNodes(left, ilhs + 1) == LinkedNodes(left, ilhs);
          continue;
        }
        assert LinkedNodes(left, ilhs + 1) == LinkedNodes(left, ilhs) + {ilhs};
        result := result + [(ilhs, irhs)];
      }
    }

    /** The pairs of a maximum matching: no matching of the graph has more. */
    method Compute() returns (result: Pairs)
      requires Valid()
      requires left == seq(g.lhs, _ => UNUSED)
      requires right == seq(g.rhs, _ => UNUSED)
      modifies this
      ensures IsMatching(g, result)
      ensures forall other :: IsMatching(g, other) ==> |other| <= |result|
      ensures forall i, j :: 0 <= i < j < |result| ==> result[i].0 < result[j].0
    {
      ghost var dead: set<int> := {};
      for ilhs := 0 to graph.numElements
        invariant Mutual(g, left, right, UNUSED)
        invariant forall l :: ilhs <= l < g.lhs ==> left[l] == UNUSED
        invariant Closed(g, right, dead)
        invariant forall l :: 0 <= l < ilhs && left[l] == UNUSED ==> OnlyInto(g, l, dead)
      {
        assert left[ilhs] == UNUSED;
        var seen := new bool[graph.numMatchers](_ => false);
        assert seen[..] == seq(g.rhs, _ => false);
        ghost var left0, right0 := left, right;
        var found;
        ghost var path;
        found, path := TryAugment(ilhs, seen);
        if found {
          ClosedSurvivesAugment(g, left0, right0, left, right, ilhs, path, dead);
        } else {
          FailureIsClosed(g, right, ilhs, seen[..], dead);
          dead := dead + SeenNodes(seen[..]);
        }
      }
      result := LinkedPairs();
      forall other | IsMatching(g, other)
        ensures |other| <= |result|
      {
        LinksAreMaximum(g, left, right, dead, other);
      }
    }
  }

  method FindMaxBipartiteMatching(g: MatchMatrix) returns (result: Pairs)
    requires g.Valid()
    ensures IsMatching(g.Value(), result)
    ensures forall other :: IsMatching(g.Value(), other) ==> |other| <= |result|
  {
    var state := new MaxBipartiteMatchState(g);
    result := state.Compute();
  }

  /** True exactly when some matching of elements to matchers leaves no matcher out. */
  method FindPairing(matrix: MatchMatrix) returns (result: bool, matches: Pairs)
    requires matrix.Valid()
    ensures IsMatching(matrix.Value(), matches)
    ensures result <==> exists m :: IsMatching(matrix.Value(), m) && Saturates(matrix.Value(), m)
    ensures result ==> Saturates(matrix.Value(), matches)
  {
    matches := FindMaxBipartiteMatching(matrix);
    result := |matches| == matrix.numMatchers;
    ghost var g := matrix.Value();
    SaturatesIffFull(g, matches);
    forall m | IsMatching(g, m) && Saturates(g, m)
      ensures result
    {
      SaturatesIffFull(g, m);
    }
  }
}
