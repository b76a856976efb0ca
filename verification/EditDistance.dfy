/** gtest's edit script between two line sequences: a cost table filled forward, a path traced back. */
module EditDistance {

  datatype EditType = Match | Add | Remove | Replace

  /** Weights in units of 0.00001: adding and removing cost one, replacing a little more. */
  const STEP: nat := 100000
  const REPLACE_STEP: nat := 100001

  function Weight(edit: EditType): nat {
    match edit
    case Match => 0
    case Add => STEP
    case Remove => STEP
    case Replace => REPLACE_STEP
  }

  function TotalWeight(edits: seq<EditType>): nat {
    if edits == [] then 0 else TotalWeight(edits[..|edits| - 1]) + Weight(edits[|edits| - 1])
  }

  /** Lines of the left side consumed by a script, and lines of the right side. */
  function LeftCount(edits: seq<EditType>): nat {
    if edits == [] then 0 else LeftCount(edits[..|edits| - 1]) + if edits[|edits| - 1] != Add then 1 else 0
  }

  function RightCount(edits: seq<EditType>): nat {
    if edits == [] then 0 else RightCount(edits[..|edits| - 1]) + if edits[|edits| - 1] != Remove then 1 else 0
  }

  /** The script turns left into right: it consumes both sides completely, in order, and
      matches equal lines only. */
  ghost predicate Transforms<T>(edits: seq<EditType>, left: seq<T>, right: seq<T>)
    decreases |edits|
  {
    if edits == [] then left == [] && right == []
    else
      var last, before := edits[|edits| - 1], edits[..|edits| - 1];
      match last
      case Add => right != [] && Transforms(before, left, right[..|right| - 1])
      case Remove => left != [] && Transforms(before, left[..|left| - 1], right)
      case Match => left != [] && right != [] && left[|left| - 1] == right[|right| - 1] &&
                    Transforms(before, left[..|left| - 1], right[..|right| - 1])
      case Replace => left != [] && right != [] &&
                      Transforms(before, left[..|left| - 1], right[..|right| - 1])
  }

  // ----- the table

  /** The move chosen for the prefixes of lengths i and j. */
  function Move<T(==)>(left: seq<T>, right: seq<T>, i: nat, j: nat): EditType
    requires i <= |left| && j <= |right|
    decreases i + j, 1
  {
    if j == 0 then Remove
    else if i == 0 then Add
    else if left[i - 1] == right[j - 1] then Match
    else
      var add, remove := Cost(left, right, i, j - 1), Cost(left, right, i - 1, j);
      var replace := Cost(left, right, i - 1, j - 1);
      if add < remove && add < replace then Add
      else if remove < add && remove < replace then Remove
      else Replace
  }

  /** What the script for the prefixes of lengths i and j costs. */
  function Cost<T(==)>(left: seq<T>, right: seq<T>, i: nat, j: nat): nat
    requires i <= |left| && j <= |right|
    decreases i + j, 2
  {
    if j == 0 then i * 100000
    else if i == 0 then j * 100000
    else match Move(left, right, i, j)
      case Match => Cost(left, right, i - 1, j - 1)
      case Add => Cost(left, right, i, j - 1) + 100000
      case Remove => Cost(left, right, i - 1, j) + 100000
      case Replace => Cost(left, right, i - 1, j - 1) + 100001
  }

  /** The path back from (i, j), first move last. */
  function Script<T(==)>(left: seq<T>, right: seq<T>, i: nat, j: nat): seq<EditType>
    requires i <= |left| && j <= |right|
    decreases i + j
  {
    if i == 0 && j == 0 then [] else
      var move := Move(left, right, i, j);
      Script(left, right, if move != Add then i - 1 else i, if move != Remove then j - 1 else j) + [move]
  }

  /** The script traced from any corner transforms the prefixes, and weighs what the table says. */
  lemma {:induction false} ScriptIsSound<T>(left: seq<T>, right: seq<T>, i: nat, j: nat)
    requires i <= |left| && j <= |right|
    ensures Transforms(Script(left, right, i, j), left[..i], right[..j])
    ensures TotalWeight(Script(left, right, i, j)) == Cost(left, right, i, j)
    decreases i + j
  {
    if i > 0 || j > 0 {
      var move := Move(left, right, i, j);
      var i', j' := if move != Add then i - 1 else i, if move != Remove then j - 1 else j;
      ScriptIsSound(left, right, i', j');
      var script := Script(left, right, i, j);
      assert script[..|script| - 1] == Script(left, right, i', j');
      assert i > 0 ==> left[..i][..i - 1] == left[..i - 1];
      assert j > 0 ==> right[..j][..j - 1] == right[..j - 1];
    }
  }

  // ----- how good the script is

  /** The least weight of any script for the prefixes of lengths i and j. */
  ghost function Distance<T>(left: seq<T>, right: seq<T>, i: nat, j: nat): nat
    requires i <= |left| && j <= |right|
    decreases i + j
  {
    if j == 0 then i * 100000
    else if i == 0 then j * 100000
    else Least(Distance(left, right, i, j - 1) + 100000, Distance(left, right, i - 1, j) + 100000,
               Distance(left, right, i - 1, j - 1) + if left[i - 1] == right[j - 1] then 0 else 100001)
  }

  function Least(a: nat, b: nat, c: nat): nat {
    if a <= b && a <= c then a else if b <= c then b else c
  }

  lemma {:induction false} NoScriptIsLighter<T>(edits: seq<EditType>, left: seq<T>, right: seq<T>, i: nat, j: nat)
    requires i <= |left| && j <= |right| && Transforms(edits, left[..i], right[..j])
    ensures Distance(left, right, i, j) <= TotalWeight(edits)
    decreases |edits|
  {
    if edits != [] {
      var last, before := edits[|edits| - 1], edits[..|edits| - 1];
      assert i > 0 ==> left[..i][..i - 1] == left[..i - 1];
      assert j > 0 ==> right[..j][..j - 1] == right[..j - 1];
      var i', j' := if last != Add then i - 1 else i, if last != Remove then j - 1 else j;
      NoScriptIsLighter(before, left, right, i', j');
      DistanceStep(left, right, i', j', last);
    }
  }

  /** One more edit adds at most its weight. */
  lemma DistanceStep<T>(left: seq<T>, right: seq<T>, i: nat, j: nat, edit: EditType)
    requires i <= |left| && j <= |right|
    requires edit != Add ==> i < |left|
    requires edit != Remove ==> j < |right|
    requires edit == Match ==> left[i] == right[j]
    ensures Distance(left, right, if edit != Add then i + 1 else i, if edit != Remove then j + 1 else j)
            <= Distance(left, right, i, j) + Weight(edit)
  {
  }

  lemma {:induction false} SomeScriptAttains<T>(left: seq<T>, right: seq<T>, i: nat, j: nat)
    returns (edits: seq<EditType>)
    requires i <= |left| && j <= |right|
    ensures Transforms(edits, left[..i], right[..j]) && TotalWeight(edits) == Distance(left, right, i, j)
    decreases i + j
  {
    if i == 0 && j == 0 {
      edits := [];
    } else {
      var last := LastEdit(left, right, i, j);
      var before := SomeScriptAttains(left, right, if last != Add then i - 1 else i,
                                      if last != Remove then j - 1 else j);
      edits := before + [last];
      assert edits[..|edits| - 1] == before;
      assert i > 0 ==> left[..i][..i - 1] == left[..i - 1];
      assert j > 0 ==> right[..j][..j - 1] == right[..j - 1];
    }
  }

  /** An edit that the least script can end with. */
  lemma LastEdit<T>(left: seq<T>, right: seq<T>, i: nat, j: nat) returns (last: EditType)
    requires i <= |left| && j <= |right| && i + j > 0
    ensures (last != Add ==> i > 0) && (last != Remove ==> j > 0) && (last == Match ==> left[i - 1] == right[j - 1])
    ensures Distance(left, right, i, j) == Weight(last) +
            Distance(left, right, if last != Add then i - 1 else i, if last != Remove then j - 1 else j)
  {
    var d := Distance(left, right, i, j);
    last := if i > 0 && (j == 0 || d == Distance(left, right, i - 1, j) + 100000) then Remove
            else if j > 0 && (i == 0 || d == Distance(left, right, i, j - 1) + 100000) then Add
            else if left[i - 1] == right[j - 1] then Match else Replace;
  }

  /** A cell whose three neighbours are tied so that a lighter script is given up: the lines differ, and of what
      leads to adding, removing and replacing one of the first two is no dearer than the third, but neither is
      strictly the cheapest. */
  ghost predicate BadTie<T>(left: seq<T>, right: seq<T>, i: nat, j: nat)
    requires 0 < i <= |left| && 0 < j <= |right|
  {
    var add, remove := Cost(left, right, i, j - 1), Cost(left, right, i - 1, j);
    var replace := Cost(left, right, i - 1, j - 1);
    && left[i - 1] != right[j - 1]
    && (add <= replace || remove <= replace)
    && !(add < remove && add < replace) && !(remove < add && remove < replace)
  }

  /** Taking one more line on one side changes the distance by at most one step. */
  lemma {:induction false} SmoothOnLeft<T>(left: seq<T>, right: seq<T>, i: nat, j: nat)
    requires 0 < i <= |left| && j <= |right|
    ensures Distance(left, right, i - 1, j) <= Distance(left, right, i, j) + 100000
    decreases j
  {
    if j > 0 {
      SmoothOnLeft(left, right, i, j - 1);
      DistanceStep(left, right, i - 1, j - 1, Add);
    }
  }

  lemma {:induction false} SmoothOnRight<T>(left: seq<T>, right: seq<T>, i: nat, j: nat)
    requires i <= |left| && 0 < j <= |right|
    ensures Distance(left, right, i, j - 1) <= Distance(left, right, i, j) + 100000
    decreases i
  {
    if i > 0 {
      SmoothOnRight(left, right, i - 1, j);
      DistanceStep(left, right, i - 1, j - 1, Remove);
    }
  }

  /** One cell is exact when its neighbours are, unless it is a bad tie. */
  lemma CellIsExactIff<T>(left: seq<T>, right: seq<T>, i: nat, j: nat)
    requires 0 < i <= |left| && 0 < j <= |right|
    requires Cost(left, right, i, j - 1) == Distance(left, right, i, j - 1)
    requires Cost(left, right, i - 1, j) == Distance(left, right, i - 1, j)
    requires Cost(left, right, i - 1, j - 1) == Distance(left, right, i - 1, j - 1)
    ensures Cost(left, right, i, j) == Distance(left, right, i, j) <==> !BadTie(left, right, i, j)
  {
    SmoothOnLeft(left, right, i, j - 1);
    SmoothOnRight(left, right, i - 1, j);
  }

  ghost predicate AllExact<T>(left: seq<T>, right: seq<T>) {
    forall i: nat, j: nat :: i <= |left| && j <= |right| ==> Cost(left, right, i, j) == Distance(left, right, i, j)
  }

  ghost predicate NoBadTie<T>(left: seq<T>, right: seq<T>) {
    forall i: nat, j: nat :: 0 < i <= |left| && 0 < j <= |right| ==> !BadTie(left, right, i, j)
  }

  lemma {:induction false} ExactWithoutTies<T>(left: seq<T>, right: seq<T>, i: nat, j: nat)
    requires i <= |left| && j <= |right| && NoBadTie(left, right)
    ensures Cost(left, right, i, j) == Distance(left, right, i, j)
    decreases i + j
  {
    if i > 0 && j > 0 {
      ExactWithoutTies(left, right, i, j - 1);
      ExactWithoutTies(left, right, i - 1, j);
      ExactWithoutTies(left, right, i - 1, j - 1);
      CellIsExactIff(left, right, i, j);
    }
  }

  /** The scripts are the lightest possible for all prefixes exactly when no cell is a bad tie. */
  lemma OptimalIffNoBadTie<T>(left: seq<T>, right: seq<T>)
    ensures AllExact(left, right) <==> NoBadTie(left, right)
  {
    if NoBadTie(left, right) {
      forall i: nat, j: nat | i <= |left| && j <= |right|
        ensures Cost(left, right, i, j) == Distance(left, right, i, j)
      {
        ExactWithoutTies(left, right, i, j);
      }
    }
    if AllExact(left, right) {
      forall i: nat, j: nat | 0 < i <= |left| && 0 < j <= |right|
        ensures !BadTie(left, right, i, j)
      {
        CellIsExactIff(left, right, i, j);
      }
    }
  }

  /** The script, read back from (i, j), matches wherever lines are equal and replaces at bad ties. */
  ghost predicate Obeys<T>(edits: seq<EditType>, left: seq<T>, right: seq<T>, i: nat, j: nat)
    requires i <= |left| && j <= |right|
    decreases |edits|
  {
    edits == [] ||
    var last := edits[|edits| - 1];
    (i > 0 && j > 0 ==> (left[i - 1] == right[j - 1] ==> last == Match)
                        && (BadTie(left, right, i, j) ==> last == Replace))
    && (last != Add ==> i > 0) && (last != Remove ==> j > 0)
    && Obeys(edits[..|edits| - 1], left, right, if last != Add then i - 1 else i, if last != Remove then j - 1 else j)
  }

  lemma {:induction false} ScriptObeys<T>(left: seq<T>, right: seq<T>, i: nat, j: nat)
    requires i <= |left| && j <= |right|
    ensures Obeys(Script(left, right, i, j), left, right, i, j)
    decreases i + j
  {
    if i > 0 || j > 0 {
      var move := Move(left, right, i, j);
      var i', j' := if move != Add then i - 1 else i, if move != Remove then j - 1 else j;
      ScriptObeys(left, right, i', j');
      var script := Script(left, right, i, j);
      assert script[..|script| - 1] == Script(left, right, i', j');
    }
  }

  /** Without adding or removing at equal lines and bad ties no script is lighter than the traced one. */
  lemma {:induction false} ObedientIsNoLighter<T>(edits: seq<EditType>, left: seq<T>, right: seq<T>, i: nat, j: nat)
    requires i <= |left| && j <= |right| && Transforms(edits, left[..i], right[..j]) && Obeys(edits, left, right, i, j)
    ensures Cost(left, right, i, j) <= TotalWeight(edits)
    decreases |edits|
  {
    if edits != [] {
      var last, before := edits[|edits| - 1], edits[..|edits| - 1];
      assert i > 0 ==> left[..i][..i - 1] == left[..i - 1];
      assert j > 0 ==> right[..j][..j - 1] == right[..j - 1];
      ObedientIsNoLighter(before, left, right, if last != Add then i - 1 else i, if last != Remove then j - 1 else j);
      hide Transforms, Obeys;
    }
  }

  ghost predicate IsLightest<T>(edits: seq<EditType>, left: seq<T>, right: seq<T>) {
    Transforms(edits, left, right) && TotalWeight(edits) == Distance(left, right, |left|, |right|)
  }

  /** The script for the whole sequences is a lightest one exactly when some lightest one can do
      without adding and removing at equal lines and bad ties. */
  lemma LightestIffObedient<T>(left: seq<T>, right: seq<T>)
    ensures IsLightest(Script(left, right, |left|, |right|), left, right)
            <==> exists edits :: IsLightest(edits, left, right) && Obeys(edits, left, right, |left|, |right|)
  {
    assert left[..|left|] == left && right[..|right|] == right;
    ScriptIsSound(left, right, |left|, |right|);
    ScriptObeys(left, right, |left|, |right|);
    if edits :| IsLightest(edits, left, right) && Obeys(edits, left, right, |left|, |right|) {
      ObedientIsNoLighter(edits, left, right, |left|, |right|);
      NoScriptIsLighter(Script(left, right, |left|, |right|), left, right, |left|, |right|);
    }
  }

  /** Ties do occur: turning ABA into BAB takes three replacements, although removing the first
      line and adding a last one would do. */
  lemma TiesCostOptimality()
    ensures var left, right := ['A', 'B', 'A'], ['B', 'A', 'B'];
            && Script(left, right, 3, 3) == [Replace, Replace, Replace]
            && Transforms([Remove, Match, Match, Add], left, right)
            && TotalWeight([Remove, Match, Match, Add]) < TotalWeight(Script(left, right, 3, 3))
  {
    var left, right := ['A', 'B', 'A'], ['B', 'A', 'B'];
    assert Cost(left, right, 1, 1) == 100001;
    assert Cost(left, right, 1, 2) == 100000 && Cost(left, right, 2, 1) == 100000;
    assert Move(left, right, 2, 2) == Replace && Cost(left, right, 2, 2) == 200002;
    assert Cost(left, right, 1, 3) == 200000 && Cost(left, right, 3, 1) == 200000;
    assert Cost(left, right, 2, 3) == 100000 && Cost(left, right, 3, 2) == 100000;
    var edits := [Remove, Match, Match, Add];
    assert edits[..3] == [Remove, Match, Match] && edits[..3][..2] == [Remove, Match];
    assert [Remove, Match][..1] == [Remove] && [Remove][..0] == [];
    assert left[..2] == ['A', 'B'] && left[..2][..1] == ['A'];
    assert right[..2] == ['B', 'A'] && right[..2][..1] == ['B'];
  }

  // ----- the algorithm

  /** The forward half: every cell of the move table is the chosen move. */
  method FillTables<T(==)>(left: seq<T>, right: seq<T>) returns (bestMove: array2<EditType>)
    ensures bestMove.Length0 == |left| + 1 && bestMove.Length1 == |right| + 1
    ensures forall i, j :: 0 <= i <= |left| && 0 <= j <= |right| ==> bestMove[i, j] == Move(left, right, i, j)
  {
    var costs := new nat[|left| + 1, |right| + 1];
    bestMove := new EditType[|left| + 1, |right| + 1]((_, _) => Match);
    for l := 0 to |left| + 1
      invariant forall i :: 0 <= i < l ==> IsCell(left, right, i, 0, costs[i, 0], bestMove[i, 0])
    {
      costs[l, 0] := l * STEP;
      bestMove[l, 0] := Remove;
    }
    for r := 1 to |right| + 1
      invariant forall i :: 0 <= i <= |left| ==> IsCell(left, right, i, 0, costs[i, 0], bestMove[i, 0])
      invariant forall j :: 0 <= j < r ==> IsCell(left, right, 0, j, costs[0, j], bestMove[0, j])
    {
      costs[0, r] := r * STEP;
      bestMove[0, r] := Add;
    }
    for l := 0 to |left|
      invariant forall i, j :: 0 <= i <= |left| && 0 <= j <= |right| && (i <= l || j == 0) ==>
                  IsCell(left, right, i, j, costs[i, j], bestMove[i, j])
    {
      for r := 0 to |right|
        invariant forall i, j :: 0 <= i <= |left| && 0 <= j <= |right|
                                 && (i <= l || j == 0 || (i == l + 1 && j <= r)) ==>
                    IsCell(left, right, i, j, costs[i, j], bestMove[i, j])
      {
        var cost, move := FillCell(left, right, l, r, costs[l + 1, r], costs[l, r + 1], costs[l, r]);
        costs[l + 1, r + 1] := cost;
        bestMove[l + 1, r + 1] := move;
      }
    }
  }

  method CalculateOptimalEdits<T(==)>(left: seq<T>, right: seq<T>) returns (bestPath: seq<EditType>)
    ensures bestPath == Script(left, right, |left|, |right|)
    ensures Transforms(bestPath, left, right) && TotalWeight(bestPath) == Cost(left, right, |left|, |right|)
    ensures IsLightest(bestPath, left, right) <==>
            exists edits :: IsLightest(edits, left, right) && Obeys(edits, left, right, |left|, |right|)
    ensures NoBadTie(left, right) ==> IsLightest(bestPath, left, right)
  {
    var bestMove := FillTables(left, right);
    bestPath := [];
    var l, r := |left|, |right|;
    while l > 0 || r > 0
      invariant 0 <= l <= |left| && 0 <= r <= |right|
      invariant Script(left, right, |left|, |right|) == Script(left, right, l, r) + Reversed(bestPath)
      decreases l + r
    {
      var move := bestMove[l, r];
      ghost var rest := bestPath;
      bestPath := bestPath + [move];
      assert bestPath[..|rest|] == rest;
      l := if move != Add then l - 1 else l;
      r := if move != Remove then r - 1 else r;
    }
    bestPath := Reversed(bestPath);
    ScriptIsSound(left, right, |left|, |right|);
    assert left[..|left|] == left && right[..|right|] == right;
    LightestIffObedient(left, right);
    if NoBadTie(left, right) {
      ExactWithoutTies(left, right, |left|, |right|);
    }
  }

  /** What the tables hold at (i, j); the corner's move is never looked at. */
  ghost predicate IsCell<T>(left: seq<T>, right: seq<T>, i: int, j: int, cost: nat, move: EditType)
    requires 0 <= i <= |left| && 0 <= j <= |right|
  {
    cost == Cost(left, right, i, j) && move == Move(left, right, i, j)
  }

  method FillCell<T(==)>(left: seq<T>, right: seq<T>, l: nat, r: nat, add: nat, remove: nat, replace: nat)
    returns (cost: nat, move: EditType)
    requires l < |left| && r < |right|
    requires add == Cost(left, right, l + 1, r) && remove == Cost(left, right, l, r + 1)
    requires replace == Cost(left, right, l, r)
    ensures IsCell(left, right, l + 1, r + 1, cost, move)
  {
    if left[l] == right[r] {
      return replace, Match;
    }
    if add < remove && add < replace {
      return add + STEP, Add;
    } else if remove < add && remove < replace {
      return remove + STEP, Remove;
    }
    return replace + REPLACE_STEP, Replace;
  }

  /** The reverse of a sequence. */
  function Reversed<T>(s: seq<T>): seq<T> {
    if s == [] then [] else [s[|s| - 1]] + Reversed(s[..|s| - 1])
  }

  // ----- lines as ids

  class InternalStrings {
    var ids: map<string, nat>

    constructor ()
      ensures ids == map[]
    {
      ids := map[];
    }

    /** Ids are handed out in order, so different strings have different ids. */
    ghost predicate Valid()
      reads this
    {
      && (forall s :: s in ids ==> ids[s] < |ids|)
      && (forall s, t :: s in ids && t in ids && ids[s] == ids[t] ==> s == t)
    }

    method GetId(str: string) returns (id: nat)
      requires Valid()
      modifies this
      ensures Valid() && str in ids && ids[str] == id
      ensures forall s :: s in old(ids) ==> s in ids && ids[s] == old(ids)[s]
    {
      if str in ids {
        return ids[str];
      }
      id := |ids|;
      ids := ids[str := id];
    }

    method GetIds(lines: seq<string>) returns (result: seq<nat>)
      requires Valid()
      modifies this
      ensures Valid() && |result| == |lines|
      ensures forall s :: s in old(ids) ==> s in ids && ids[s] == old(ids)[s]
      ensures forall i :: 0 <= i < |lines| ==> lines[i] in ids && ids[lines[i]] == result[i]
    {
      result := [];
      for i := 0 to |lines|
        invariant Valid() && |result| == i
        invariant forall s :: s in old(ids) ==> s in ids && ids[s] == old(ids)[s]
        invariant forall k :: 0 <= k < i ==> lines[k] in ids && ids[lines[k]] == result[k]
      {
        var id := GetId(lines[i]);
        result := result + [id];
      }
    }
  }

  ghost predicate SameEqualities<T, U>(a: seq<T>, b: seq<T>, x: seq<U>, y: seq<U>) {
    && |x| == |a| && |y| == |b|
    && forall k, l :: 0 <= k < |a| && 0 <= l < |b| ==> (a[k] == b[l] <==> x[k] == y[l])
  }

  lemma {:induction false} SameCosts<T, U>(a: seq<T>, b: seq<T>, x: seq<U>, y: seq<U>, i: nat, j: nat)
    requires SameEqualities(a, b, x, y) && i <= |a| && j <= |b|
    ensures Cost(a, b, i, j) == Cost(x, y, i, j) && Move(a, b, i, j) == Move(x, y, i, j)
    decreases i + j
  {
    if i > 0 && j > 0 {
      SameCosts(a, b, x, y, i, j - 1);
      SameCosts(a, b, x, y, i - 1, j);
      SameCosts(a, b, x, y, i - 1, j - 1);
      assert a[i - 1] == b[j - 1] <==> x[i - 1] == y[j - 1];
      assert Move(a, b, i, j) == Move(x, y, i, j);
    }
  }

  /** The script depends on which lines are equal only. */
  lemma {:induction false} SameScript<T, U>(a: seq<T>, b: seq<T>, x: seq<U>, y: seq<U>, i: nat, j: nat)
    requires SameEqualities(a, b, x, y) && i <= |a| && j <= |b|
    ensures Script(a, b, i, j) == Script(x, y, i, j)
    decreases i + j
  {
    if i > 0 || j > 0 {
      SameCosts(a, b, x, y, i, j);
      var move := Move(a, b, i, j);
      SameScript(a, b, x, y, if move != Add then i - 1 else i, if move != Remove then j - 1 else j);
    }
  }

  /** The script for two texts, computed on interned lines. */
  method CalculateOptimalLineEdits(left: seq<string>, right: seq<string>) returns (edits: seq<EditType>)
    ensures edits == Script(left, right, |left|, |right|)
    ensures Transforms(edits, left, right)
  {
    var internTable := new InternalStrings();
    var leftIds := internTable.GetIds(left);
    var rightIds := internTable.GetIds(right);
    edits := CalculateOptimalEdits(leftIds, rightIds);
    SameScript(leftIds, rightIds, left, right, |left|, |right|);
    ScriptIsSound(left, right, |left|, |right|);
    assert left[..|left|] == left && right[..|right|] == right;
  }
}
