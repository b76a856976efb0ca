/** Unified diff output: edit scripts are cut into hunks with context, removes are moved before
    adds, and each hunk gets a header. Applying the hunks to the left text yields the right one. */
module UnifiedDiff {

  import opened EditDistance
  import opened DiffText
  import opened Options

  /** The state of one hunk while lines are pushed. */
  class Hunk {
    const leftStart: nat
    const rightStart: nat
    var adds: nat
    var removes: nat
    var common: nat
    var hunk: seq<Line>
    var hunkAdds: seq<Line>
    var hunkRemoves: seq<Line>
    ghost var oldSide: seq<string>  // everything pushed so far that belongs to the left side
    ghost var newSide: seq<string>  // and to the right side
    ghost var layout: Layout  // how the lines pushed so far are laid out

    /** Pending removes and adds included, in the order in which they will be printed. */
    ghost predicate Valid()
      reads this
    {
      && Grouped(hunk) && EndsCommon(hunk) && Marked(hunkRemoves, '-') && Marked(hunkAdds, '+')
      && AddsUpTo(hunk + hunkRemoves + hunkAdds, Tally(oldSide, newSide, adds, removes, common), layout)
    }

    constructor (leftStart: nat, rightStart: nat)
      ensures this.leftStart == leftStart && this.rightStart == rightStart
      ensures Valid() && oldSide == [] && newSide == [] && adds == 0 && removes == 0
      ensures layout == Layout(0, false, 0, 0)
    {
      this.leftStart, this.rightStart := leftStart, rightStart;
      adds, removes, common := 0, 0, 0;
      hunk, hunkAdds, hunkRemoves := [], [], [];
      oldSide, newSide, layout := [], [], Layout(0, false, 0, 0);
    }

    /** Pending removes go before pending adds. */
    method FlushEdits()
      modifies this`hunk, this`hunkAdds, this`hunkRemoves
      ensures hunk == old(hunk) + old(hunkRemoves) + old(hunkAdds) && hunkAdds == [] && hunkRemoves == []
    {
      hunk := hunk + hunkRemoves;
      hunkRemoves := [];
      hunk := hunk + hunkAdds;
      hunkAdds := [];
    }

    method PushLine(edit: char, line: string)
      requires Valid() && edit in {' ', '-', '+'}
      modifies this
      ensures Valid()
      ensures oldSide == if edit != '+' then old(oldSide) + [line] else old(oldSide)
      ensures newSide == if edit != '-' then old(newSide) + [line] else old(newSide)
      ensures adds == old(adds) + if edit == '+' then 1 else 0
      ensures removes == old(removes) + if edit == '-' then 1 else 0
      ensures layout == old(layout).Plus(Line(edit, line))
    {
      match edit
      case ' ' => PushCommon(line);
      case '-' => PushRemove(line);
      case '+' => PushAdd(line);
    }

    method PushCommon(line: string)
      requires Valid()
      modifies this
      ensures Valid() && adds == old(adds) && removes == old(removes)
      ensures oldSide == old(oldSide) + [line] && newSide == old(newSide) + [line]
      ensures layout == old(layout).Plus(Line(' ', line))
    {
      hide AddsUpTo;
      ghost var tally := Tally(oldSide, newSide, adds, removes, common);
      PushAddsUp(hunk + hunkRemoves + hunkAdds, Line(' ', line), tally, layout);
      GroupedParts(hunk, hunkRemoves, hunkAdds);
      common := common + 1;
      layout := layout.Plus(Line(' ', line));
      FlushEdits();
      hunk := hunk + [Line(' ', line)];
      NothingPending(hunk);
      oldSide, newSide := oldSide + [line], newSide + [line];
    }

    method PushRemove(line: string)
      requires Valid()
      modifies this
      ensures Valid() && adds == old(adds) && removes == old(removes) + 1
      ensures oldSide == old(oldSide) + [line] && newSide == old(newSide)
      ensures layout == old(layout).Plus(Line('-', line))
    {
      hide AddsUpTo;
      ghost var tally := Tally(oldSide, newSide, adds, removes, common);
      RemoveAddsUp(hunk + hunkRemoves, Line('-', line), hunkAdds, tally, layout);
      removes := removes + 1;
      layout := layout.Plus(Line('-', line));
      Regroup(hunk, hunkRemoves, [Line('-', line)]);
      hunkRemoves := hunkRemoves + [Line('-', line)];
      oldSide := oldSide + [line];
    }

    method PushAdd(line: string)
      requires Valid()
      modifies this
      ensures Valid() && adds == old(adds) + 1 && removes == old(removes)
      ensures oldSide == old(oldSide) && newSide == old(newSide) + [line]
      ensures layout == old(layout).Plus(Line('+', line))
    {
      hide AddsUpTo;
      ghost var tally := Tally(oldSide, newSide, adds, removes, common);
      PushAddsUp(hunk + hunkRemoves + hunkAdds, Line('+', line), tally, layout);
      adds := adds + 1;
      layout := layout.Plus(Line('+', line));
      Regroup(hunk + hunkRemoves, hunkAdds, [Line('+', line)]);
      hunkAdds := hunkAdds + [Line('+', line)];
      newSide := newSide + [line];
    }

    /** What is printed, and as which hunk. */
    method PrintTo() returns (text: string, printed: HunkText)
      requires Valid()
      modifies this
      ensures text == Render(printed)
      ensures printed.leftStart == leftStart && printed.rightStart == rightStart
      ensures TallyOf(printed.lines) == Tally(old(oldSide), old(newSide), printed.adds, printed.removes, printed.common)
      ensures |old(oldSide)| == printed.removes + printed.common && |old(newSide)| == printed.adds + printed.common
      ensures printed.adds == old(adds) && printed.removes == old(removes) && printed.common == old(common)
      ensures LayoutOf(printed.lines) == old(layout) && IsMarked(printed.lines) && Grouped(printed.lines)
    {
      text := Header(HunkText(leftStart, rightStart, adds, removes, common, []));
      GroupedParts(hunk, hunkRemoves, hunkAdds);
      FlushEdits();
      var lines := PrintLines(hunk);
      text := text + lines;
      printed := HunkText(leftStart, rightStart, adds, removes, common, hunk);
      SideSizes(hunk);
    }

    static method PrintLines(lines: seq<Line>) returns (text: string)
      ensures text == Body(lines)
    {
      text := "";
      for i := 0 to |lines|
        invariant text == Body(lines[..i])
      {
        text := text + [lines[i].mark] + lines[i].text + "\n";
        assert lines[..i + 1][..i] == lines[..i];
      }
      assert lines[..|lines|] == lines;
    }

    predicate HasEdits()
      reads this
    {
      adds != 0 || removes != 0
    }
  }

  // ----- positions in a script

  /** Lines of each side used up by the first k edits. */
  function LeftAt(edits: seq<EditType>, k: nat): nat
    requires k <= |edits|
  {
    LeftCount(edits[..k])
  }

  function RightAt(edits: seq<EditType>, k: nat): nat
    requires k <= |edits|
  {
    RightCount(edits[..k])
  }

  lemma PositionStep(edits: seq<EditType>, k: nat)
    requires k < |edits|
    ensures LeftAt(edits, k + 1) == LeftAt(edits, k) + if edits[k] != Add then 1 else 0
    ensures RightAt(edits, k + 1) == RightAt(edits, k) + if edits[k] != Remove then 1 else 0
  {
    assert edits[..k + 1][..k] == edits[..k];
  }

  /** A transforming script never leaves either text, and matches equal lines. */
  ghost predicate InStep(edits: seq<EditType>, left: seq<string>, right: seq<string>) {
    && LeftAt(edits, |edits|) == |left| && RightAt(edits, |edits|) == |right|
    && forall k :: 0 <= k < |edits| ==> StepFits(edits, left, right, k)
  }

  ghost predicate StepFits(edits: seq<EditType>, left: seq<string>, right: seq<string>, k: nat)
    requires k < |edits|
  {
    var l, r := LeftAt(edits, k), RightAt(edits, k);
    && (edits[k] != Add ==> l < |left|)
    && (edits[k] != Remove ==> r < |right|)
    && (edits[k] == Match ==> left[l] == right[r])
  }

  lemma {:induction false} TransformsInStep(edits: seq<EditType>, left: seq<string>, right: seq<string>)
    requires Transforms(edits, left, right)
    ensures InStep(edits, left, right)
    decreases |edits|
  {
    if edits != [] {
      var n := |edits| - 1;
      var before, last := edits[..n], edits[n];
      var left' := if last != Add then left[..|left| - 1] else left;
      var right' := if last != Remove then right[..|right| - 1] else right;
      TransformsInStep(before, left', right');
      PositionStep(edits, n);
      assert edits[..|edits|] == edits && before[..n] == before;
      forall k | 0 <= k < |edits|
        ensures StepFits(edits, left, right, k)
      {
        if k < n {
          assert before[..k] == edits[..k];
          assert StepFits(before, left', right', k);
        }
      }
    }
  }

  ghost predicate AllMatch(edits: seq<EditType>, a: nat, b: nat) {
    a <= b <= |edits| && forall k :: a <= k < b ==> edits[k] == Match
  }

  /** A run of matches advances both sides together, over equal lines. */
  lemma {:induction false} MatchRun(edits: seq<EditType>, left: seq<string>, right: seq<string>, a: nat, b: nat)
    requires InStep(edits, left, right) && AllMatch(edits, a, b)
    ensures LeftAt(edits, b) == LeftAt(edits, a) + (b - a) <= |left|
    ensures RightAt(edits, b) == RightAt(edits, a) + (b - a) <= |right|
    ensures left[LeftAt(edits, a)..LeftAt(edits, b)] == right[RightAt(edits, a)..RightAt(edits, b)]
    decreases b - a
  {
    Bounded(edits, left, right, a);
    if a < b {
      MatchRun(edits, left, right, a, b - 1);
      PositionStep(edits, b - 1);
      assert StepFits(edits, left, right, b - 1);
      var l, r := LeftAt(edits, a), RightAt(edits, a);
      assert left[l..LeftAt(edits, b)] == left[l..LeftAt(edits, b - 1)] + [left[LeftAt(edits, b - 1)]];
      assert right[r..RightAt(edits, b)] == right[r..RightAt(edits, b - 1)] + [right[RightAt(edits, b - 1)]];
    }
  }

  lemma {:induction false} Bounded(edits: seq<EditType>, left: seq<string>, right: seq<string>, k: nat)
    requires InStep(edits, left, right) && k <= |edits|
    ensures LeftAt(edits, k) <= |left| && RightAt(edits, k) <= |right|
    decreases |edits| - k
  {
    if k < |edits| {
      PositionStep(edits, k);
      Bounded(edits, left, right, k + 1);
    }
  }

  // ----- applying hunks

  /** Where the left text stands after the last hunk. */
  function EndOf(hunks: seq<HunkText>): int {
    if hunks == [] then 0 else var h := hunks[|hunks| - 1]; h.leftStart - 1 + |OldSide(h.lines)|
  }

  /** The hunk's two sides are the lines of the two texts at the positions its header gives, as
      many as the header counts, and it changes something. */
  ghost predicate Fits(h: HunkText, left: seq<string>, right: seq<string>) {
    && h.leftStart >= 1 && h.rightStart >= 1 && h.adds + h.removes > 0
    && h.leftStart - 1 + (h.removes + h.common) <= |left|
    && h.rightStart - 1 + (h.adds + h.common) <= |right|
    && IsMarked(h.lines)
    && TallyOf(h.lines) == Tally(left[h.leftStart - 1..h.leftStart - 1 + (h.removes + h.common)],
                                 right[h.rightStart - 1..h.rightStart - 1 + (h.adds + h.common)],
                                 h.adds, h.removes, h.common)
  }

  /** Where the right text stands after the last hunk. */
  function RightEndOf(hunks: seq<HunkText>): int {
    if hunks == [] then 0 else var h := hunks[|hunks| - 1]; h.rightStart - 1 + |NewSide(h.lines)|
  }

  /** Hunks follow each other without overlapping, with as many lines between them on the right as on
      the left, and all fit. */
  ghost predicate Ordered(hunks: seq<HunkText>, left: seq<string>, right: seq<string>) {
    hunks != [] ==>
      var before, h := hunks[..|hunks| - 1], hunks[|hunks| - 1];
      Ordered(before, left, right) && Fits(h, left, right)
      && EndOf(before) <= h.leftStart - 1
      && h.rightStart - 1 - RightEndOf(before) == h.leftStart - 1 - EndOf(before)
  }

  /** The left text up to the end of the last hunk, patched: lines between hunks are kept, old
      sides give way to new sides. */
  ghost function Patched(hunks: seq<HunkText>, left: seq<string>, right: seq<string>): seq<string>
    requires Ordered(hunks, left, right)
  {
    if hunks == [] then [] else
      var before, h := hunks[..|hunks| - 1], hunks[|hunks| - 1];
      Patched(before, left, right) + left[EndOf(before)..h.leftStart - 1] + NewSide(h.lines)
  }

  /** Applying a patch: everything after the last hunk stays. */
  ghost function Patch(hunks: seq<HunkText>, left: seq<string>, right: seq<string>): seq<string>
    requires Ordered(hunks, left, right)
  {
    EndWithin(hunks, left, right);
    Patched(hunks, left, right) + left[EndOf(hunks)..]
  }

  /** So each hunk's right start is the line that the patched text has reached there. */
  lemma {:induction false} RightStartsArePatched(hunks: seq<HunkText>, left: seq<string>, right: seq<string>)
    requires Ordered(hunks, left, right)
    ensures |Patched(hunks, left, right)| == RightEndOf(hunks)
    ensures hunks != [] ==>
              var before, h := hunks[..|hunks| - 1], hunks[|hunks| - 1];
              h.rightStart - 1 == |Patched(before, left, right)| + (h.leftStart - 1 - EndOf(before))
  {
    if hunks != [] {
      RightStartsArePatched(hunks[..|hunks| - 1], left, right);
      EndWithin(hunks, left, right);
    }
  }

  lemma EndWithin(hunks: seq<HunkText>, left: seq<string>, right: seq<string>)
    requires Ordered(hunks, left, right)
    ensures 0 <= EndOf(hunks) <= |left|
  {
  }

  /** The hunks so far turn the first l lines of left into the first r lines of right. */
  ghost predicate DoneUpTo(hunks: seq<HunkText>, left: seq<string>, right: seq<string>, l: nat, r: nat) {
    && Ordered(hunks, left, right)
    && EndOf(hunks) == l && RightEndOf(hunks) == r <= |right|
    && Patched(hunks, left, right) == right[..r]
  }

  /** Once only matches are left, the patch is complete. */
  lemma DoneCompletely(hunks: seq<HunkText>, edits: seq<EditType>, left: seq<string>, right: seq<string>, k: nat)
    requires InStep(edits, left, right) && AllMatch(edits, k, |edits|)
    requires DoneUpTo(hunks, left, right, LeftAt(edits, k), RightAt(edits, k))
    ensures Patch(hunks, left, right) == right
  {
    MatchRun(edits, left, right, k, |edits|);
    var l, r := LeftAt(edits, k), RightAt(edits, k);
    assert left[l..] == left[l..|left|] && right[r..] == right[r..|right|];
    assert right == right[..r] + right[r..];
  }

  /** The lines skipped between two hunks are the same on both sides. */
  lemma SkippedAgree(edits: seq<EditType>, left: seq<string>, right: seq<string>, k: nat, e0: nat, prefix: nat)
    requires InStep(edits, left, right) && k <= e0 && AllMatch(edits, k, e0) && prefix <= e0 - k
    ensures var l0, r0 := LeftAt(edits, k), RightAt(edits, k);
            var ls, rs := LeftAt(edits, e0) - prefix, RightAt(edits, e0) - prefix;
            l0 <= ls <= |left| && r0 <= rs <= |right| && left[l0..ls] == right[r0..rs]
  {
    MatchRun(edits, left, right, k, e0 - prefix);
    MatchRun(edits, left, right, e0 - prefix, e0);
  }

  /** A hunk that starts after lines that agree, and fits, extends the patch. */
  lemma HunkExtends(hunks: seq<HunkText>, left: seq<string>, right: seq<string>, l0: nat, r0: nat,
                    ls: nat, rs: nat, l: nat, r: nat, h: HunkText)
    requires DoneUpTo(hunks, left, right, l0, r0)
    requires l0 <= ls <= l <= |left| && r0 <= rs <= r <= |right| && left[l0..ls] == right[r0..rs]
    requires h.leftStart == ls + 1 && h.rightStart == rs + 1 && h.adds + h.removes > 0
    requires TallyOf(h.lines) == Tally(left[ls..l], right[rs..r], h.adds, h.removes, h.common) && IsMarked(h.lines)
    requires l - ls == h.removes + h.common && r - rs == h.adds + h.common
    ensures DoneUpTo(hunks + [h], left, right, l, r)
  {
    assert Fits(h, left, right);
    assert |left[l0..ls]| == ls - l0 && |right[r0..rs]| == rs - r0;
    HunkAppends(hunks, h, left, right);
    Glue(right, r0, rs, r);
  }

  lemma HunkAppends(hunks: seq<HunkText>, h: HunkText, left: seq<string>, right: seq<string>)
    requires Ordered(hunks, left, right) && Fits(h, left, right) && EndOf(hunks) <= h.leftStart - 1
    requires h.rightStart - 1 - RightEndOf(hunks) == h.leftStart - 1 - EndOf(hunks)
    ensures Ordered(hunks + [h], left, right)
    ensures EndOf(hunks + [h]) == h.leftStart - 1 + |OldSide(h.lines)|
    ensures RightEndOf(hunks + [h]) == h.rightStart - 1 + |NewSide(h.lines)|
    ensures Patched(hunks + [h], left, right) ==
            Patched(hunks, left, right) + left[EndOf(hunks)..h.leftStart - 1] + NewSide(h.lines)
  {
    assert (hunks + [h])[..|hunks|] == hunks;
  }

  lemma Glue(s: seq<string>, a: nat, b: nat, c: nat)
    requires a <= b <= c <= |s|
    ensures s[..a] + s[a..b] + s[b..c] == s[..c]
  {
  }

  // ----- the text applies

  ghost predicate AreLines(lines: seq<string>) {
    forall i :: 0 <= i < |lines| ==> IsOneLine(lines[i])
  }

  lemma {:induction false} TextsOfSides(lines: seq<Line>)
    requires AreLines(OldSide(lines)) && AreLines(NewSide(lines))
    ensures forall i :: 0 <= i < |lines| ==> IsOneLine(lines[i].text)
    decreases |lines|
  {
    if lines != [] {
      hide IsOneLine;
      var init, last := lines[..|lines| - 1], lines[|lines| - 1];
      var before, after := TallyOf(init), TallyOf(lines);
      assert after.left == before.left || after.left == before.left + [last.text];
      assert after.right == before.right || after.right == before.right + [last.text];
      assert forall i :: 0 <= i < |before.left| ==> before.left[i] == after.left[i];
      assert forall i :: 0 <= i < |before.right| ==> before.right[i] == after.right[i];
      TextsOfSides(init);
      assert IsOneLine(last.text) by {
        if last.mark == '+' {
          assert after.right[|before.right|] == last.text;
        } else {
          assert after.left[|before.left|] == last.text;
        }
      }
    }
  }

  lemma FittingIsPrintable(h: HunkText, left: seq<string>, right: seq<string>)
    requires Fits(h, left, right) && AreLines(left) && AreLines(right)
    ensures Printable(h)
  {
    hide TallyOf, IsMarked;
    TextsOfSides(h.lines);
  }

  lemma {:induction false} OrderedArePrintable(hunks: seq<HunkText>, left: seq<string>, right: seq<string>)
    requires Ordered(hunks, left, right) && AreLines(left) && AreLines(right)
    ensures forall i :: 0 <= i < |hunks| ==> Printable(hunks[i])
    decreases |hunks|
  {
    if hunks != [] {
      hide Fits, Printable;
      OrderedArePrintable(hunks[..|hunks| - 1], left, right);
      FittingIsPrintable(hunks[|hunks| - 1], left, right);
    }
  }

  /** Applying what the text tells does what the hunks do. */
  lemma {:induction false} ToldHunksApply(hunks: seq<HunkText>, read: seq<ReadHunk>, left: seq<string>,
                                          right: seq<string>)
    requires Ordered(hunks, left, right) && AllTell(read, hunks)
    ensures ApplyHunks(read, left) == Some(Progress(EndOf(hunks), Patched(hunks, left, right)))
    decreases |hunks|
  {
    hide Fits, Tells, TallyOf, ApplyHunk;
    if hunks != [] {
      var before, h := hunks[..|hunks| - 1], hunks[|hunks| - 1];
      var init, r := read[..|read| - 1], read[|read| - 1];
      ToldHunksApply(before, init, left, right);
      RightStartsArePatched(before, left, right);
      EndWithin(before, left, right);
      ToldHunkApplies(h, r, Progress(EndOf(before), Patched(before, left, right)), left, right);
    }
  }

  lemma ToldHunkApplies(h: HunkText, r: ReadHunk, p: Progress, left: seq<string>, right: seq<string>)
    requires Fits(h, left, right) && Tells(r, h) && p.taken <= h.leftStart - 1
    requires h.rightStart - 1 - |p.out| == h.leftStart - 1 - p.taken
    ensures ApplyHunk(p, r, left) ==
            Some(Progress(h.leftStart - 1 + |OldSide(h.lines)|,
                          p.out + left[p.taken..h.leftStart - 1] + NewSide(h.lines)))
  {
    MarksCounted(h.lines);
    hide TallyOf, Marks;
  }

  /** Without newlines in its lines, the printed text itself patches left to what its hunks make of it. */
  lemma TextPatches(hunks: seq<HunkText>, left: seq<string>, right: seq<string>)
    requires Ordered(hunks, left, right) && AreLines(left) && AreLines(right)
    ensures PatchedBy(RenderAll(hunks), left) == Some(Patch(hunks, left, right))
  {
    OrderedArePrintable(hunks, left, right);
    EndWithin(hunks, left, right);
    hide Ordered, Printable, RenderAll, ReadDiff, AllTell, Patched, ApplyHunks, EndOf, AreLines;
    DiffReadsBack(hunks);
    ToldHunksApply(hunks, ReadDiff(RenderAll(hunks)).value, left, right);
  }

  lemma NothingDone(edits: seq<EditType>, left: seq<string>, right: seq<string>)
    ensures DoneUpTo([], left, right, 0, 0) && Patch([], left, right) == left
    ensures LeftAt(edits, 0) == 0 && RightAt(edits, 0) == 0
  {
    assert edits[..0] == [];
  }

  lemma OneMoreRendered(hunks: seq<HunkText>, h: HunkText)
    ensures RenderAll(hunks + [h]) == RenderAll(hunks) + Render(h)
  {
    hide Render;
    assert (hunks + [h])[..|hunks|] == hunks;
  }

  lemma NothingPrinted(left: seq<string>, context: nat)
    ensures RenderAll([]) == "" && AllInContext([], left, context)
  {
  }

  lemma TextIsPatch(text: string, hunks: seq<HunkText>, left: seq<string>, right: seq<string>)
    requires Ordered(hunks, left, right) && text == RenderAll(hunks)
    ensures AreLines(left) && AreLines(right) ==> PatchedBy(text, left) == Some(Patch(hunks, left, right))
  {
    if AreLines(left) && AreLines(right) {
      TextPatches(hunks, left, right);
    }
  }

  // ----- the printer

  /** The hunk shows `context` common lines before its first change, or all there are, as many behind its last one,
      or all there are, no two changes with twice as many between them, and removed lines in front of added ones. */
  ghost predicate InContext(h: HunkText, left: seq<string>, context: nat) {
    var layout := LayoutOf(h.lines);
    && layout.lead <= context && (layout.lead < context ==> h.leftStart == 1)
    && layout.run <= context && (layout.run < context ==> h.leftStart - 1 + |OldSide(h.lines)| == |left|)
    && layout.widest < 2 * context
    && Grouped(h.lines)
  }

  ghost predicate AllInContext(hunks: seq<HunkText>, left: seq<string>, context: nat) {
    forall i :: 0 <= i < |hunks| ==> InContext(hunks[i], left, context)
  }

  lemma OneMoreInContext(hunks: seq<HunkText>, h: HunkText, left: seq<string>, context: nat)
    requires AllInContext(hunks, left, context) && InContext(h, left, context)
    ensures AllInContext(hunks + [h], left, context)
  {
    hide InContext;
  }

  /** From edit i on there are only matches for the next `context` edits, or to the end. */
  ghost predicate Quiet(edits: seq<EditType>, i: nat, context: nat) {
    forall k :: i <= k < |edits| && k < i + context ==> edits[k] == Match
  }

  /** The context in front of a hunk consists of matches: the ones just skipped, and if they are
      too few, the ones that ended the hunk before. That only happens when no change follows. */
  lemma PrefixIsMatched(edits: seq<EditType>, left: seq<string>, right: seq<string>, k: nat, e0: nat,
                        l: nat, r: nat, context: nat, prefix: nat)
    requires e0 <= |edits| && l == LeftAt(edits, e0) && r == RightAt(edits, e0)
    requires InStep(edits, left, right) && AllMatch(edits, k, e0) && (e0 < |edits| ==> edits[e0] != Match)
    requires 0 < k < |edits| ==> Quiet(edits, k, context) && context <= k && AllMatch(edits, k - context, k)
    requires k < |edits| && prefix == if l < context then l else context
    ensures prefix <= l <= |left| && prefix <= r <= |right|
    ensures left[l - prefix..l] == right[r - prefix..r]
    ensures e0 < |edits| ==> prefix <= e0 - k
  {
    MatchRun(edits, left, right, k, e0);
    if k == 0 {
      assert edits[..0] == [];
    }
    MatchRun(edits, left, right, e0 - prefix, e0);
  }

  method SkipMatches(edits: seq<EditType>, i: nat) returns (it: nat)
    requires i <= |edits|
    ensures i <= it && AllMatch(edits, i, it) && (it < |edits| ==> edits[it] != Match)
  {
    it := i;
    while it < |edits| && edits[it] == Match
      invariant AllMatch(edits, i, it)
    {
      it := it + 1;
    }
  }

  /** Pushes the edits from e0 on until enough matches follow one another and the next change is
      at least `context` edits away, or the script ends. */
  method FillHunk(hunk: Hunk, edits: seq<EditType>, left: seq<string>, right: seq<string>, context: nat,
                  e0: nat, l0: nat, r0: nat, ghost ls: nat, ghost rs: nat, ghost lead: nat)
    returns (editI: nat, l: nat, r: nat)
    requires InStep(edits, left, right) && e0 <= |edits| && l0 == LeftAt(edits, e0) && r0 == RightAt(edits, e0)
    requires ls <= l0 <= |left| && rs <= r0 <= |right|
    requires e0 < |edits| ==> edits[e0] != Match
    requires hunk.Valid() && hunk.oldSide == left[ls..l0] && hunk.newSide == right[rs..r0] && !hunk.HasEdits()
    requires hunk.layout == Layout(lead, false, lead, 0)
    modifies hunk
    ensures hunk.Valid() && e0 <= editI <= |edits| && l == LeftAt(edits, editI) && r == RightAt(edits, editI)
    ensures ls <= l <= |left| && rs <= r <= |right|
    ensures hunk.oldSide == left[ls..l] && hunk.newSide == right[rs..r]
    ensures hunk.HasEdits() <==> editI > e0
    ensures editI > e0 <==> context > 0 && e0 < |edits|
    ensures e0 < editI < |edits| ==>
              Quiet(edits, editI, context) && context <= editI && AllMatch(edits, editI - context, editI)
    ensures editI > e0 ==> LaidOut(hunk.layout, lead, context, editI == |edits|)
  {
    hide Hunk.Valid;
    editI, l, r := e0, l0, r0;
    var nSuffix := 0;
    ghost var next := 0;  // the next change, while there are more than `context` matches before it
    while editI < |edits|
      invariant hunk.Valid() && e0 <= editI <= |edits| && l == LeftAt(edits, editI) && r == RightAt(edits, editI)
      invariant ls <= l <= |left| && rs <= r <= |right|
      invariant nSuffix <= editI - e0 && AllMatch(edits, editI - nSuffix, editI)
      invariant hunk.oldSide == left[ls..l] && hunk.newSide == right[rs..r]
      invariant hunk.HasEdits() <==> editI > e0
      invariant editI > e0 ==> context > 0
      invariant editI == e0 ==> hunk.layout == Layout(lead, false, lead, 0) && nSuffix == 0
      invariant editI > e0 ==> hunk.layout.changed && hunk.layout.lead == lead && hunk.layout.run == nSuffix
                               && hunk.layout.widest < 2 * context
      invariant nSuffix > context ==>
                  editI <= next < |edits| && edits[next] != Match && nSuffix + (next - editI) < 2 * context
    {
      if nSuffix >= context {
        var it := SkipMatches(edits, editI);
        if it == |edits| || it - editI >= context {
          break;
        }
        next := it;
      }
      assert StepFits(edits, left, right, editI);
      PositionStep(edits, editI);
      Bounded(edits, left, right, editI + 1);
      var edit := edits[editI];
      nSuffix := if edit == Match then nSuffix + 1 else 0;
      PushEdit(hunk, edit, left, right, l, r, ls, rs);
      l := if edit != Add then l + 1 else l;
      r := if edit != Remove then r + 1 else r;
      editI := editI + 1;
    }
  }

  /** The layout of a finished hunk: so many common lines in front, `context` behind unless the script is at its
      end, and never twice that many between changes. */
  ghost predicate LaidOut(layout: Layout, lead: nat, context: nat, atEnd: bool) {
    && layout.changed && layout.lead == lead
    && layout.run <= context && (layout.run < context ==> atEnd)
    && layout.widest < 2 * context
  }

  lemma SliceStep(s: seq<string>, a: nat, b: nat)
    requires a <= b < |s|
    ensures s[a..b] + [s[b]] == s[a..b + 1]
  {
  }

  /** One edit, as one or two lines. */
  method PushEdit(hunk: Hunk, edit: EditType, left: seq<string>, right: seq<string>, l: nat, r: nat, ghost ls: nat,
                  ghost rs: nat)
    requires hunk.Valid() && ls <= l <= |left| && rs <= r <= |right|
    requires hunk.oldSide == left[ls..l] && hunk.newSide == right[rs..r]
    requires edit != Add ==> l < |left|
    requires edit != Remove ==> r < |right|
    requires edit == Match ==> left[l] == right[r]
    modifies hunk
    ensures hunk.Valid() && (hunk.HasEdits() <==> old(hunk.HasEdits()) || edit != Match)
    ensures hunk.oldSide == left[ls..if edit != Add then l + 1 else l]
    ensures hunk.newSide == right[rs..if edit != Remove then r + 1 else r]
    ensures hunk.layout == old(hunk.layout).Plus(Line(if edit == Match then ' ' else '-', ""))
  {
    hide Hunk.Valid;
    if l < |left| {
      SliceStep(left, ls, l);
    }
    if r < |right| {
      SliceStep(right, rs, r);
    }
    if edit == Match || edit == Remove || edit == Replace {
      hunk.PushLine(if edit == Match then ' ' else '-', left[l]);
    }
    if edit == Add || edit == Replace {
      hunk.PushLine('+', right[r]);
    }
  }

  /** A hunk that holds the matched lines just before the first edit. */
  method StartHunk(left: seq<string>, right: seq<string>, l: nat, r: nat, prefix: nat, ghost ls: nat, ghost rs: nat)
    returns (hunk: Hunk)
    requires ls == l - prefix && rs == r - prefix && l <= |left| && r <= |right| && left[ls..l] == right[rs..r]
    ensures fresh(hunk) && hunk.leftStart == ls + 1 && hunk.rightStart == rs + 1
    ensures hunk.Valid() && hunk.oldSide == left[ls..l] && hunk.newSide == right[rs..r] && !hunk.HasEdits()
    ensures hunk.layout == Layout(prefix, false, prefix, 0)
  {
    hide Hunk.Valid;
    hunk := new Hunk(l - prefix + 1, r - prefix + 1);
    var i := prefix;
    ghost var a, b := ls, rs;
    while i > 0
      invariant 0 <= i <= prefix && a == l - i && b == r - i
      invariant hunk.Valid() && !hunk.HasEdits() && hunk.layout == Layout(prefix - i, false, prefix - i, 0)
      invariant hunk.oldSide == left[ls..a] && hunk.newSide == right[rs..b]
    {
      ContextStep(left, right, l, r, ls, rs, a, b);
      hunk.PushLine(' ', left[l - i]);
      i, a, b := i - 1, a + 1, b + 1;
    }
  }

  lemma ContextStep(left: seq<string>, right: seq<string>, l: nat, r: nat, ls: nat, rs: nat, a: nat, b: nat)
    requires ls <= a < l <= |left| && rs <= b < r <= |right| && a - ls == b - rs
    requires left[ls..l] == right[rs..r]
    ensures left[a] == right[b]
    ensures left[ls..a] + [left[a]] == left[ls..a + 1] && right[rs..b] + [left[a]] == right[rs..b + 1]
  {
    assert left[ls..l][a - ls] == left[a] && right[rs..r][b - rs] == right[b];
  }

  /** A hunk with its context in front, filled. */
  method MakeHunk(edits: seq<EditType>, left: seq<string>, right: seq<string>, context: nat, e0: nat, l0: nat, r0: nat,
                  prefix: nat, ghost ls: nat, ghost rs: nat)
    returns (hunk: Hunk, editI: nat, l: nat, r: nat)
    requires InStep(edits, left, right) && e0 <= |edits| && l0 == LeftAt(edits, e0) && r0 == RightAt(edits, e0)
    requires e0 < |edits| ==> edits[e0] != Match
    requires ls == l0 - prefix && rs == r0 - prefix && l0 <= |left| && r0 <= |right| && left[ls..l0] == right[rs..r0]
    ensures fresh(hunk) && hunk.Valid() && hunk.leftStart == ls + 1 && hunk.rightStart == rs + 1
    ensures e0 <= editI <= |edits| && l == LeftAt(edits, editI) && r == RightAt(edits, editI)
    ensures ls <= l <= |left| && rs <= r <= |right|
    ensures hunk.oldSide == left[ls..l] && hunk.newSide == right[rs..r]
    ensures hunk.HasEdits() <==> editI > e0
    ensures editI > e0 <==> context > 0 && e0 < |edits|
    ensures e0 < editI < |edits| ==>
              Quiet(edits, editI, context) && context <= editI && AllMatch(edits, editI - context, editI)
    ensures editI > e0 ==> LaidOut(hunk.layout, prefix, context, editI == |edits|)
  {
    hide Hunk.Valid;
    hunk := StartHunk(left, right, l0, r0, prefix, ls, rs);
    editI, l, r := FillHunk(hunk, edits, left, right, context, e0, l0, r0, ls, rs, prefix);
  }

  /** Where the outer loop stands: k edits are done, and a hunk that ends there ended in matches
      with no change near. */
  ghost predicate Between(edits: seq<EditType>, k: nat, context: nat) {
    && k <= |edits|
    && (k > 0 ==> context > 0)
    && (0 < k < |edits| ==> Quiet(edits, k, context) && context <= k && AllMatch(edits, k - context, k))
  }

  /** One round of the outer loop. `more` is false when no change is left to print. */
  method NextHunk(edits: seq<EditType>, left: seq<string>, right: seq<string>, context: nat,
                  k: nat, l0: nat, r0: nat, ghost hunks: seq<HunkText>)
    returns (more: bool, text: string, printed: HunkText, editI: nat, l: nat, r: nat)
    requires InStep(edits, left, right) && k < |edits| && Between(edits, k, context)
    requires l0 == LeftAt(edits, k) && r0 == RightAt(edits, k)
    requires DoneUpTo(hunks, left, right, l0, r0)
    ensures !more ==> context == 0 || AllMatch(edits, k, |edits|)
    ensures more ==> context > 0 && k < editI && Between(edits, editI, context)
    ensures more ==> text == Render(printed) && DoneUpTo(hunks + [printed], left, right, l, r)
    ensures more ==> l == LeftAt(edits, editI) && r == RightAt(edits, editI)
    ensures more ==> InContext(printed, left, context)
  {
    hide Hunk.Valid, Ordered, Patched, EndOf, RightEndOf, TallyOf, LeftAt, RightAt, InStep, Render, LayoutOf,
         LaidOut, InContext, Fits, DoneUpTo, Quiet;
    text, printed := "", HunkText(0, 0, 0, 0, 0, []);
    var e0 := SkipMatches(edits, k);
    MatchRun(edits, left, right, k, e0);
    l, r, editI := l0 + (e0 - k), r0 + (e0 - k), e0;
    var prefixContext := if l < context then l else context;
    PrefixIsMatched(edits, left, right, k, e0, l, r, context, prefixContext);
    ghost var ls, rs := l - prefixContext, r - prefixContext;
    var hunk;
    hunk, editI, l, r := MakeHunk(edits, left, right, context, e0, l, r, prefixContext, ls, rs);
    more := hunk.HasEdits();
    if !more {
      return;
    }
    text, printed := hunk.PrintTo();
    SkippedAgree(edits, left, right, k, e0, prefixContext);
    HunkExtends(hunks, left, right, l0, r0, ls, rs, l, r, printed);
    if editI == |edits| {
      StepEnds(edits, left, right);
    }
    ShowsContext(printed, left, context, prefixContext, ls, l, editI == |edits|);
  }

  lemma ShowsContext(h: HunkText, left: seq<string>, context: nat, prefix: nat, ls: nat, l: nat,
                     atEnd: bool)
    requires LaidOut(LayoutOf(h.lines), prefix, context, atEnd) && (atEnd ==> l == |left|)
    requires h.leftStart == ls + 1 && prefix <= context && (prefix < context ==> ls == 0)
    requires |OldSide(h.lines)| == l - ls && Grouped(h.lines)
    ensures InContext(h, left, context)
  {
    hide LayoutOf, TallyOf;
  }

  lemma StepEnds(edits: seq<EditType>, left: seq<string>, right: seq<string>)
    requires InStep(edits, left, right)
    ensures LeftAt(edits, |edits|) == |left|
  {
  }

  /** A diff of two different lines that has no hunks, as it has without context, patches nothing. */
  lemma NoHunksNoPatch()
    ensures var left, right := ["a"], ["b"]; Ordered([], left, right) && Patch([], left, right) == left != right
  {
    assert ["a"][0..] == ["a"];
    assert ["a"][0] != ["b"][0];
  }

  /** The diff, as text and as the hunks that the text prints. The hunks always fit and never
      overlap; applying them to `left` gives `right`, except that without context nothing is printed. */
  method CreateUnifiedDiff(left: seq<string>, right: seq<string>, context: nat)
    returns (text: string, hunks: seq<HunkText>)
    ensures text == RenderAll(hunks)
    ensures Ordered(hunks, left, right)
    ensures Patch(hunks, left, right) == right <==> context > 0 || left == right
    ensures context == 0 ==> hunks == [] && text == ""
    ensures AllInContext(hunks, left, context)
    ensures AreLines(left) && AreLines(right) ==>
              && PatchedBy(text, left).Some?
              && (PatchedBy(text, left).value == right <==> context > 0 || left == right)
  {
    hide Ordered, Patched, Patch, EndOf, RightEndOf, InStep, LeftAt, RightAt, InContext, AreLines, PatchedBy, Render,
         RenderAll, AllInContext, Quiet;
    var edits := CalculateOptimalLineEdits(left, right);
    TransformsInStep(edits, left, right);
    NothingDone(edits, left, right);
    NothingPrinted(left, context);
    var l, r, editI := 0, 0, 0;
    text, hunks := "", [];
    while editI < |edits|
      invariant Between(edits, editI, context) && l == LeftAt(edits, editI) && r == RightAt(edits, editI)
      invariant text == RenderAll(hunks) && DoneUpTo(hunks, left, right, l, r)
      invariant context == 0 ==> hunks == [] && text == ""
      invariant AllInContext(hunks, left, context)
      decreases |edits| - editI
    {
      var more, hunkText, printed, nextI, nextL, nextR := NextHunk(edits, left, right, context, editI, l, r, hunks);
      if !more {
        if context > 0 {
          DoneCompletely(hunks, edits, left, right, editI);
        }
        TextIsPatch(text, hunks, left, right);
        return;
      }
      OneMoreInContext(hunks, printed, left, context);
      OneMoreRendered(hunks, printed);
      hunks := hunks + [printed];
      text := text + hunkText;
      editI, l, r := nextI, nextL, nextR;
    }
    DoneCompletely(hunks, edits, left, right, editI);
    TextIsPatch(text, hunks, left, right);
  }
}
