/** gmock's partially ordered expectations: how calls are matched, how prerequisites retire, and
    the order of calls that this enforces over every run. */
module Expectations {

  /** What a call is answered with: the default action, the i-th of the actions that are used once,
      or the repeated one. */
  datatype Action = Default | Once(i: nat) | Repeated

  class ExpectationBase {
    /** Position in the order of creation. */
    ghost const order: nat
    const minCount: nat
    const maxCount: nat
    const immediatePrerequisites: seq<ExpectationBase>
    const retiresOnSaturation: bool
    /** How many actions are to be used once. */
    const actionCount: nat
    var callCount: nat
    var retired: bool

    constructor (minCount: nat, maxCount: nat, prerequisites: seq<ExpectationBase>, retiresOnSaturation: bool,
                 actionCount: nat, ghost order: nat)
      ensures this.minCount == minCount && this.maxCount == (if maxCount >= minCount then maxCount else minCount)
      ensures immediatePrerequisites == prerequisites && this.retiresOnSaturation == retiresOnSaturation
      ensures this.actionCount == actionCount && this.order == order && callCount == 0 && !retired
    {
      this.minCount, this.maxCount := minCount, if maxCount >= minCount then maxCount else minCount;
      this.immediatePrerequisites, this.retiresOnSaturation := prerequisites, retiresOnSaturation;
      this.actionCount, this.order := actionCount, order;
      callCount, retired := 0, false;
    }

    predicate IsSatisfied()
      reads this
    {
      minCount <= callCount <= maxCount
    }

    predicate IsSaturated()
      reads this
    {
      callCount >= maxCount
    }

    method Retire()
      modifies this`retired
      ensures retired
    {
      retired := true;
    }

    /** Retires the prerequisites, theirs, and so on, and nothing else. */
    method RetireAllPreRequisites(ghost all: set<ExpectationBase>)
      requires this in all && Ranked(all) && RetiredClosed(all)
      modifies all`retired
      ensures RetiredClosed(all)
      ensures forall x :: x in all ==> (x.retired <==> old(x.retired) || Precedes(x, this))
      decreases order
    {
      PrecedesIffBy(all, this);
      if retired {
        ClosedBelow(all, this);
        return;
      }
      for i := 0 to |immediatePrerequisites|
        invariant RetiredClosed(all)
        invariant forall x :: x in all ==> (x.retired <==> old(x.retired) || PrecedesVia(x, this, i))
      {
        var prerequisite := immediatePrerequisites[i];
        OneMoreVia(this, i);
        if !prerequisite.retired {
          prerequisite.RetireAllPreRequisites(all);
          prerequisite.Retire();
        } else {
          ClosedBelow(all, prerequisite);
        }
      }
    }

    /** Whether all prerequisites, theirs, and so on are satisfied. */
    method AllPrerequisitesAreSatisfied(ghost all: set<ExpectationBase>) returns (satisfied: bool)
      requires this in all && Ranked(all)
      ensures satisfied <==> SatisfiedBelow(all, this)
      decreases order
    {
      PrecedesIffBy(all, this);
      for i := 0 to |immediatePrerequisites|
        invariant forall x :: x in all && PrecedesVia(x, this, i) ==> x.IsSatisfied()
      {
        var prerequisite := immediatePrerequisites[i];
        if !prerequisite.IsSatisfied() {
          assert PrecedesBy(prerequisite, this, i);
          return false;
        }
        var theirs := prerequisite.AllPrerequisitesAreSatisfied(all);
        if !theirs {
          ghost var x :| x in all && Precedes(x, prerequisite) && !x.IsSatisfied();
          assert PrecedesBy(x, this, i);
          return false;
        }
      }
      return true;
    }

    /** Adds the prerequisites that keep this expectation from being matched. Those of an expectation
        that has been called are not looked at. */
    method FindUnsatisfiedPrerequisites(ghost all: set<ExpectationBase>, result: set<ExpectationBase>)
      returns (extended: set<ExpectationBase>)
      requires this in all && Ranked(all)
      ensures extended == result + Blockers(all, this)
      decreases order
    {
      extended := result;
      BlocksIffBy(all, this);
      for i := 0 to |immediatePrerequisites|
        invariant extended == result + BlockersVia(all, this, i)
      {
        var prerequisite := immediatePrerequisites[i];
        OneMoreBlocksVia(all, this, i);
        if prerequisite.IsSatisfied() {
          if prerequisite.callCount == 0 {
            extended := prerequisite.FindUnsatisfiedPrerequisites(all, extended);
          }
        } else {
          extended := extended + {prerequisite};
        }
      }
    }

    /** The action of the current call: the actions to be used once in turn, then the repeated one. */
    function GetCurrentAction(): (action: Action)
      requires callCount >= 1
      reads this
    {
      if callCount <= actionCount then Once(callCount - 1) else Repeated
    }

    /** Counts a call. One that is not excessive retires everything that has to come before. */
    method GetActionForArguments(ghost all: set<ExpectationBase>) returns (excessive: bool, action: Action)
      requires this in all && Ranked(all) && Settled(all)
      requires !retired && SatisfiedBelow(all, this)
      modifies all`retired, this`callCount
      ensures Settled(all)
      ensures callCount == old(callCount) + 1 && excessive == old(IsSaturated())
      ensures forall x :: x in all ==>
                (x.retired <==> old(x.retired) || (!excessive && Retires(this, x)))
      ensures action == if excessive then Default else GetCurrentAction()
    {
      PrecedesIsBefore(all);
      if IsSaturated() {
        callCount := callCount + 1;
        return true, Default;
      }
      callCount := callCount + 1;
      RetireAllPreRequisites(all);
      if retiresOnSaturation && IsSaturated() {
        ImmediatePrecede(all, this);
        Retire();
      }
      excessive := false;
      action := GetCurrentAction();
    }
  }

  // ----- the order of expectations

  /** Prerequisites are created before the expectations they are for. */
  ghost predicate Ranked(all: set<ExpectationBase>) {
    forall x, i :: x in all && 0 <= i < |x.immediatePrerequisites| ==>
      x.immediatePrerequisites[i] in all && x.immediatePrerequisites[i].order < x.order
  }

  /** x has to be satisfied before e: it is a prerequisite of e, or one of a prerequisite, and so on. */
  ghost predicate Precedes(x: ExpectationBase, e: ExpectationBase)
    decreases e.order
  {
    exists k :: 0 <= k < |e.immediatePrerequisites| && e.immediatePrerequisites[k].order < e.order
                && (x == e.immediatePrerequisites[k] || Precedes(x, e.immediatePrerequisites[k]))
  }

  /** x precedes e by way of its k-th prerequisite. */
  ghost predicate PrecedesBy(x: ExpectationBase, e: ExpectationBase, k: nat)
    requires k < |e.immediatePrerequisites|
  {
    x == e.immediatePrerequisites[k] || Precedes(x, e.immediatePrerequisites[k])
  }

  /** A call that e has handled retires x: what has to come before e, and e itself if it is to
      retire on saturation. */
  ghost predicate Retires(e: ExpectationBase, x: ExpectationBase)
    reads e
  {
    Precedes(x, e) || (x == e && e.retiresOnSaturation && e.IsSaturated())
  }

  lemma PrecedesIffBy(all: set<ExpectationBase>, e: ExpectationBase)
    requires e in all && Ranked(all)
    ensures forall x :: Precedes(x, e) <==> PrecedesVia(x, e, |e.immediatePrerequisites|)
  {
    forall x
      ensures Precedes(x, e) <==> PrecedesVia(x, e, |e.immediatePrerequisites|)
    {
      if Precedes(x, e) {
        var k :| 0 <= k < |e.immediatePrerequisites| && e.immediatePrerequisites[k].order < e.order
                && (x == e.immediatePrerequisites[k] || Precedes(x, e.immediatePrerequisites[k]));
        assert PrecedesBy(x, e, k);
      }
    }
  }

  ghost predicate PrecedesVia(x: ExpectationBase, e: ExpectationBase, n: nat)
    requires n <= |e.immediatePrerequisites|
  {
    exists k :: 0 <= k < n && PrecedesBy(x, e, k)
  }

  lemma OneMoreVia(e: ExpectationBase, i: nat)
    requires i < |e.immediatePrerequisites|
    ensures forall x :: PrecedesVia(x, e, i + 1) <==> PrecedesVia(x, e, i) || PrecedesBy(x, e, i)
  {
  }

  /** No expectation is retired before all its prerequisites are. */
  ghost predicate RetiredClosed(all: set<ExpectationBase>)
    reads all
  {
    forall x, i :: x in all && 0 <= i < |x.immediatePrerequisites| && x.retired
                   && x.immediatePrerequisites[i] in all ==>
      x.immediatePrerequisites[i].retired
  }

  ghost predicate SatisfiedBelow(all: set<ExpectationBase>, e: ExpectationBase)
    reads all
  {
    forall x :: x in all && Precedes(x, e) ==> x.IsSatisfied()
  }

  lemma {:induction false} ClosedBelow(all: set<ExpectationBase>, e: ExpectationBase)
    requires e in all && Ranked(all) && RetiredClosed(all) && e.retired
    ensures forall x :: Precedes(x, e) ==> x in all && x.retired
    decreases e.order
  {
    forall x | Precedes(x, e)
      ensures x in all && x.retired
    {
      PrecedesIffBy(all, e);
      var k :| 0 <= k < |e.immediatePrerequisites| && PrecedesBy(x, e, k);
      ClosedBelow(all, e.immediatePrerequisites[k]);
    }
  }

  lemma {:induction false} PrecedesIsBeforeAt(all: set<ExpectationBase>, x: ExpectationBase, e: ExpectationBase)
    requires e in all && Ranked(all) && Precedes(x, e)
    ensures x in all && x.order < e.order
    decreases e.order
  {
    PrecedesIffBy(all, e);
    var k :| 0 <= k < |e.immediatePrerequisites| && PrecedesBy(x, e, k);
    if x != e.immediatePrerequisites[k] {
      PrecedesIsBeforeAt(all, x, e.immediatePrerequisites[k]);
    }
  }

  lemma PrecedesIsBefore(all: set<ExpectationBase>)
    requires Ranked(all)
    ensures forall x, e :: e in all && Precedes(x, e) ==> x in all && x.order < e.order
  {
    forall x, e | e in all && Precedes(x, e)
      ensures x in all && x.order < e.order
    {
      PrecedesIsBeforeAt(all, x, e);
    }
  }

  lemma ImmediatePrecede(all: set<ExpectationBase>, e: ExpectationBase)
    requires e in all && Ranked(all)
    ensures forall i :: 0 <= i < |e.immediatePrerequisites| ==> Precedes(e.immediatePrerequisites[i], e)
  {
    PrecedesIffBy(all, e);
    forall i | 0 <= i < |e.immediatePrerequisites|
      ensures Precedes(e.immediatePrerequisites[i], e)
    {
      assert PrecedesBy(e.immediatePrerequisites[i], e, i);
    }
  }

  /** Once an expectation that may be called has been, everything before it is over: satisfied, and
      retired so that it stays so. */
  ghost predicate CalledSettle(all: set<ExpectationBase>)
    reads all
  {
    forall x, p :: x in all && p in all && x.callCount > 0 && x.maxCount > 0 && Precedes(p, x) ==>
      p.retired && p.IsSatisfied()
  }

  /** Expectations that are to retire on saturation do so with the last call they allow. */
  ghost predicate SaturatedRetire(all: set<ExpectationBase>)
    reads all
  {
    forall x :: x in all && x.retiresOnSaturation && x.maxCount > 0 ==>
      x.callCount <= x.maxCount && (x.callCount == x.maxCount ==> x.retired)
  }

  /** What every call keeps. */
  ghost predicate Settled(all: set<ExpectationBase>)
    reads all
  {
    RetiredClosed(all) && CalledSettle(all) && SaturatedRetire(all)
  }

  // ----- what blocks an expectation

  /** x is an unsatisfied prerequisite of e, or one of an uncalled prerequisite that is satisfied. */
  ghost predicate Blocks(all: set<ExpectationBase>, x: ExpectationBase, e: ExpectationBase)
    reads all
    decreases e.order
  {
    exists k :: 0 <= k < |e.immediatePrerequisites|
                && e.immediatePrerequisites[k] in all && e.immediatePrerequisites[k].order < e.order
                && (if e.immediatePrerequisites[k].IsSatisfied()
                    then e.immediatePrerequisites[k].callCount == 0 && Blocks(all, x, e.immediatePrerequisites[k])
                    else x == e.immediatePrerequisites[k])
  }

  ghost predicate BlocksBy(all: set<ExpectationBase>, x: ExpectationBase, e: ExpectationBase, k: nat)
    requires k < |e.immediatePrerequisites| && e.immediatePrerequisites[k] in all
    reads all
  {
    if e.immediatePrerequisites[k].IsSatisfied()
    then e.immediatePrerequisites[k].callCount == 0 && Blocks(all, x, e.immediatePrerequisites[k])
    else x == e.immediatePrerequisites[k]
  }

  ghost predicate BlocksVia(all: set<ExpectationBase>, x: ExpectationBase, e: ExpectationBase, n: nat)
    requires n <= |e.immediatePrerequisites|
    requires forall k :: 0 <= k < n ==> e.immediatePrerequisites[k] in all
    reads all
  {
    exists k :: 0 <= k < n && BlocksBy(all, x, e, k)
  }

  ghost function Blockers(all: set<ExpectationBase>, e: ExpectationBase): set<ExpectationBase>
    reads all
  {
    set x | x in all && Blocks(all, x, e)
  }

  ghost function BlockersVia(all: set<ExpectationBase>, e: ExpectationBase, n: nat): set<ExpectationBase>
    requires n <= |e.immediatePrerequisites|
    requires forall k :: 0 <= k < n ==> e.immediatePrerequisites[k] in all
    reads all
  {
    set x | x in all && BlocksVia(all, x, e, n)
  }

  lemma BlocksIffBy(all: set<ExpectationBase>, e: ExpectationBase)
    requires e in all && Ranked(all)
    ensures Blockers(all, e) == BlockersVia(all, e, |e.immediatePrerequisites|)
  {
    forall x | x in all
      ensures Blocks(all, x, e) <==> BlocksVia(all, x, e, |e.immediatePrerequisites|)
    {
      if Blocks(all, x, e) {
        var k :| 0 <= k < |e.immediatePrerequisites|
                 && e.immediatePrerequisites[k] in all && e.immediatePrerequisites[k].order < e.order
                 && (if e.immediatePrerequisites[k].IsSatisfied()
                     then e.immediatePrerequisites[k].callCount == 0 && Blocks(all, x, e.immediatePrerequisites[k])
                     else x == e.immediatePrerequisites[k]);
        assert BlocksBy(all, x, e, k);
      }
    }
  }

  ghost function BlockersBy(all: set<ExpectationBase>, p: ExpectationBase): set<ExpectationBase>
    requires p in all
    reads all
  {
    if !p.IsSatisfied() then {p} else if p.callCount == 0 then Blockers(all, p) else {}
  }

  lemma OneMoreBlocksViaAt(all: set<ExpectationBase>, e: ExpectationBase, i: nat, x: ExpectationBase)
    requires e in all && Ranked(all) && i < |e.immediatePrerequisites|
    ensures BlocksVia(all, x, e, i + 1) <==> BlocksVia(all, x, e, i) || BlocksBy(all, x, e, i)
  {
    hide BlocksBy;
  }

  lemma OneMoreBlocksVia(all: set<ExpectationBase>, e: ExpectationBase, i: nat)
    requires e in all && Ranked(all) && i < |e.immediatePrerequisites|
    ensures BlockersVia(all, e, i + 1) == BlockersVia(all, e, i) + BlockersBy(all, e.immediatePrerequisites[i])
  {
    forall x | x in all
      ensures x in BlockersVia(all, e, i + 1)
              <==> x in BlockersVia(all, e, i) || x in BlockersBy(all, e.immediatePrerequisites[i])
    {
      OneMoreBlocksViaAt(all, e, i, x);
      hide BlocksVia, Blocks, Ranked;
    }
  }

  /** The shortcut loses nothing: an expectation has blockers exactly if not everything before it is
      satisfied, and all of them are unsatisfied and before it. */
  lemma {:induction false} BlockedIffUnsatisfied(all: set<ExpectationBase>, e: ExpectationBase)
    requires e in all && Ranked(all) && CalledSettle(all)
    ensures Blockers(all, e) == {} <==> SatisfiedBelow(all, e)
    ensures forall x :: x in Blockers(all, e) ==> Precedes(x, e) && !x.IsSatisfied()
    decreases e.order
  {
    PrecedesIffBy(all, e);
    BlocksIffBy(all, e);
    forall k | 0 <= k < |e.immediatePrerequisites|
      ensures var p := e.immediatePrerequisites[k];
              (Blockers(all, p) == {} <==> SatisfiedBelow(all, p))
              && forall x :: x in Blockers(all, p) ==> Precedes(x, p) && !x.IsSatisfied()
    {
      BlockedIffUnsatisfied(all, e.immediatePrerequisites[k]);
    }
    if x :| x in all && Precedes(x, e) && !x.IsSatisfied() {
      var k :| 0 <= k < |e.immediatePrerequisites| && PrecedesBy(x, e, k);
      var p := e.immediatePrerequisites[k];
      if p.IsSatisfied() {
        assert p.callCount == 0;
        assert !SatisfiedBelow(all, p);
        var y :| y in Blockers(all, p);
        assert BlocksBy(all, y, e, k);
        assert y in Blockers(all, e);
      } else {
        assert BlocksBy(all, p, e, k);
        assert p in Blockers(all, e);
      }
    }
    forall x | x in Blockers(all, e)
      ensures Precedes(x, e) && !x.IsSatisfied()
    {
      var k :| 0 <= k < |e.immediatePrerequisites| && BlocksBy(all, x, e, k);
      assert PrecedesBy(x, e, k);
    }
  }
}
