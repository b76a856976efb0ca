/** Runs of calls to mock functions: whatever is called, prerequisites come first. */
module MockCalls {

  import opened Options
  import opened Expectations

  class FunctionMocker {
    /** The expectations on this function, in the order of their definition. */
    var untypedExpectations: seq<ExpectationBase>

    constructor ()
      ensures untypedExpectations == []
    {
      untypedExpectations := [];
    }
  }

  /** Whether the expectation's matchers accept the arguments of a call. */
  type Matching = ExpectationBase -> bool

  /** Index i in the definitions is the last one that is active, ready and matches the arguments. */
  ghost predicate Handles(all: set<ExpectationBase>, expectations: seq<ExpectationBase>, matches: Matching, i: nat)
    requires i < |expectations|
    reads all, expectations
  {
    CanHandle(all, expectations[i], matches)
    && forall j :: i < j < |expectations| ==> !CanHandle(all, expectations[j], matches)
  }

  ghost predicate CanHandle(all: set<ExpectationBase>, e: ExpectationBase, matches: Matching)
    reads all, e
  {
    !e.retired && SatisfiedBelow(all, e) && matches(e)
  }

  /** Whatever has to come before e is retired. */
  ghost predicate RetiredBelow(all: set<ExpectationBase>, e: ExpectationBase)
    reads all
  {
    forall x :: x in all && Precedes(x, e) ==> x.retired
  }

  /** With these numbers of calls everything that has to come before e has been called as often as it is to be. */
  ghost predicate MetBefore(all: set<ExpectationBase>, e: ExpectationBase, counts: multiset<ExpectationBase>) {
    forall p :: p in all && Precedes(p, e) ==> p.minCount <= counts[p] <= p.maxCount
  }

  /** No call that an expectation handled comes after a call that another one handled that it has to
      precede, unless that other one must not be called at all. */
  ghost predicate InOrder(calls: seq<ExpectationBase>) {
    forall i, j :: 0 <= i < j < |calls| && calls[i].maxCount > 0 ==> !Precedes(calls[j], calls[i])
  }

  /** The action for a call of e after so many others: those to be used once in turn, then the repeated one; the
      default one for calls that are too many. */
  function NextAction(e: ExpectationBase, earlier: nat): Action {
    if earlier >= e.maxCount then Default else if earlier < e.actionCount then Once(earlier) else Repeated
  }

  ghost predicate InTurn(calls: seq<ExpectationBase>, actions: seq<Action>) {
    |actions| == |calls|
    && forall i :: 0 <= i < |calls| ==> actions[i] == NextAction(calls[i], CallsBefore(calls, i))
  }

  /** How often the i-th called expectation was called before. */
  ghost function CallsBefore(calls: seq<ExpectationBase>, i: nat): nat
    requires i < |calls|
  {
    multiset(calls[..i])[calls[i]]
  }

  lemma TurnGoesOn(calls: seq<ExpectationBase>, actions: seq<Action>, e: ExpectationBase)
    requires InTurn(calls, actions)
    ensures InTurn(calls + [e], actions + [NextAction(e, multiset(calls)[e])])
  {
    var more := calls + [e];
    forall i | 0 <= i < |more|
      ensures CallsBefore(more, i) == if i < |calls| then CallsBefore(calls, i) else multiset(calls)[e]
    {
      assert more[..i] == if i < |calls| then calls[..i] else calls;
    }
    hide CallsBefore, NextAction;
  }

  /** Calls of one expectation have different numbers of calls of it before them. */
  lemma EarlierCalls(calls: seq<ExpectationBase>, i: nat, j: nat)
    requires i < j < |calls| && calls[i] == calls[j]
    ensures CallsBefore(calls, i) < CallsBefore(calls, j)
  {
    assert calls[..j] == calls[..i] + [calls[i]] + calls[i + 1..j];
  }

  lemma {:induction false} NthCall(calls: seq<ExpectationBase>, e: ExpectationBase, n: nat) returns (i: nat)
    requires n < multiset(calls)[e]
    ensures i < |calls| && calls[i] == e && CallsBefore(calls, i) == n
    decreases |calls|
  {
    var init, last := calls[..|calls| - 1], calls[|calls| - 1];
    assert calls == init + [last];
    if n < multiset(init)[e] {
      i := NthCall(init, e, n);
      assert init[..i] == calls[..i];
    } else {
      i := |init|;
    }
  }

  lemma NewKeepsInvariants(all: set<ExpectationBase>, e: ExpectationBase)
    requires Ranked(all) && Settled(all)
    requires forall x :: x in all ==> x.order < e.order
    requires forall i :: 0 <= i < |e.immediatePrerequisites| ==> e.immediatePrerequisites[i] in all
    requires e.callCount == 0 && !e.retired
    ensures Ranked(all + {e}) && Settled(all + {e})
  {
    PrecedesIsBefore(all);
  }

  /** An expectation that is not retired may still be called: nothing it precedes has been. */
  lemma NextInOrder(all: set<ExpectationBase>, calls: seq<ExpectationBase>, e: ExpectationBase)
    requires CalledSettle(all) && InOrder(calls) && e in all && !e.retired
    requires forall i :: 0 <= i < |calls| ==> calls[i] in all && calls[i].callCount > 0
    ensures InOrder(calls + [e])
  {
    hide Precedes;
  }

  /** Each expectation has the one before as a prerequisite, as in a Sequence. */
  ghost predicate IsSequence(chain: seq<ExpectationBase>) {
    forall i :: 0 < i < |chain| ==> chain[i - 1] in chain[i].immediatePrerequisites
  }

  lemma {:induction false} SequencePrecedes(all: set<ExpectationBase>, chain: seq<ExpectationBase>, i: nat, j: nat)
    requires Ranked(all) && IsSequence(chain) && i < j < |chain|
    requires forall k :: 0 <= k < |chain| ==> chain[k] in all
    ensures Precedes(chain[i], chain[j])
    decreases j
  {
    if i < j - 1 {
      SequencePrecedes(all, chain, i, j - 1);
    }
    PrecedesIffBy(all, chain[j]);
    var k :| 0 <= k < |chain[j].immediatePrerequisites| && chain[j].immediatePrerequisites[k] == chain[j - 1];
    assert PrecedesBy(chain[i], chain[j], k);
  }

  /** A sequence that expectations are put into one after the other. */
  class Sequence {
    var lastExpectation: ExpectationBase?
    /** The expectations put into it, in order. */
    ghost var chain: seq<ExpectationBase>

    ghost predicate Valid(all: set<ExpectationBase>)
      reads this
    {
      IsSequence(chain) && (forall k :: 0 <= k < |chain| ==> chain[k] in all)
      && lastExpectation == if chain == [] then null else chain[|chain| - 1]
    }

    constructor ()
      ensures Valid({}) && chain == []
    {
      lastExpectation, chain := null, [];
    }

    /** The expectation joins the sequence, unless it was the last to do so. It has the one before it
        among its prerequisites, which are settled when it is made. */
    method AddExpectation(expectation: ExpectationBase, ghost all: set<ExpectationBase>)
      requires Valid(all) && expectation in all
      requires lastExpectation != null && lastExpectation != expectation ==>
                 lastExpectation in expectation.immediatePrerequisites
      modifies this
      ensures Valid(all) && lastExpectation == expectation
      ensures chain == if old(lastExpectation) == expectation then old(chain) else old(chain) + [expectation]
    {
      if lastExpectation != expectation {
        lastExpectation := expectation;
        chain := chain + [expectation];
      }
    }
  }

  /** A test program's expectations on all its mock functions, and the calls these have handled. */
  class Session {
    ghost var all: set<ExpectationBase>
    ghost var calls: seq<ExpectationBase>
    /** What they were answered with. */
    ghost var actions: seq<Action>

    ghost predicate Valid()
      reads this, all
    {
      Ranked(all) && (forall x :: x in all ==> x.order < |all|)
      && Settled(all)
      && CallsCounted() && InOrder(calls) && InTurn(calls, actions)
    }

    ghost predicate CallsCounted()
      reads this, all
    {
      (forall i :: 0 <= i < |calls| ==> calls[i] in all)
      && forall x :: x in all ==> x.callCount == multiset(calls)[x]
    }

    constructor ()
      ensures Valid() && all == {} && calls == []
    {
      all, calls, actions := {}, [], [];
    }

    /** An EXPECT_CALL statement with its clauses: the prerequisites named, and the sequences to join,
        the implicit one included. */
    method ExpectCall(mocker: FunctionMocker, minCount: nat, maxCount: nat, prerequisites: seq<ExpectationBase>,
                      sequences: seq<Sequence>, retiresOnSaturation: bool, actionCount: nat)
      returns (expectation: ExpectationBase)
      requires Valid() && forall i :: 0 <= i < |prerequisites| ==> prerequisites[i] in all
      requires forall i :: 0 <= i < |sequences| ==> sequences[i].Valid(all)
      modifies this`all, mocker, sequences
      ensures Valid() && fresh(expectation) && all == old(all) + {expectation}
      ensures mocker.untypedExpectations == old(mocker.untypedExpectations) + [expectation]
      ensures expectation.minCount == minCount
      ensures expectation.maxCount == (if maxCount >= minCount then maxCount else minCount)
      ensures expectation.callCount == 0 && !expectation.retired
      ensures forall p :: p in expectation.immediatePrerequisites <==>
                p in prerequisites || exists i :: 0 <= i < |sequences| && p == old(sequences[i].lastExpectation)
      ensures forall i :: 0 <= i < |sequences| ==>
                sequences[i].Valid(all) && sequences[i].chain == old(sequences[i].chain) + [expectation]
    {
      var before := Prerequisites(prerequisites, sequences);
      expectation := AddNewExpectation(mocker, minCount, maxCount, before, retiresOnSaturation, actionCount);
      hide Ranked, Settled, InOrder, InTurn;
      Join(sequences, expectation);
    }

    method AddNewExpectation(mocker: FunctionMocker, minCount: nat, maxCount: nat, prerequisites: seq<ExpectationBase>,
                             retiresOnSaturation: bool, actionCount: nat)
      returns (expectation: ExpectationBase)
      requires Valid() && forall i :: 0 <= i < |prerequisites| ==> prerequisites[i] in all
      modifies this`all, mocker
      ensures Valid() && fresh(expectation) && all == old(all) + {expectation}
      ensures mocker.untypedExpectations == old(mocker.untypedExpectations) + [expectation]
      ensures expectation.minCount == minCount
      ensures expectation.maxCount == (if maxCount >= minCount then maxCount else minCount)
      ensures expectation.immediatePrerequisites == prerequisites && expectation.callCount == 0 && !expectation.retired
    {
      hide Ranked, Settled, InOrder, InTurn;
      expectation := new ExpectationBase(minCount, maxCount, prerequisites, retiresOnSaturation, actionCount, |all|);
      mocker.untypedExpectations := mocker.untypedExpectations + [expectation];
      NewKeepsInvariants(all, expectation);
      all := all + {expectation};
    }

    /** The prerequisites named and the last expectations of the sequences. */
    method Prerequisites(prerequisites: seq<ExpectationBase>, sequences: seq<Sequence>)
      returns (before: seq<ExpectationBase>)
      requires forall i :: 0 <= i < |prerequisites| ==> prerequisites[i] in all
      requires forall i :: 0 <= i < |sequences| ==> sequences[i].Valid(all)
      ensures forall p :: p in before <==>
                p in prerequisites || exists i :: 0 <= i < |sequences| && p == sequences[i].lastExpectation
      ensures forall i :: 0 <= i < |before| ==> before[i] in all
    {
      before := prerequisites;
      for i := 0 to |sequences|
        invariant forall p :: p in before <==>
                    p in prerequisites || exists k :: 0 <= k < i && p == sequences[k].lastExpectation
        invariant forall k :: 0 <= k < |before| ==> before[k] in all
      {
        if sequences[i].lastExpectation != null {
          before := before + [sequences[i].lastExpectation];
        }
      }
    }

    /** The new expectation joins its sequences, each once. */
    method Join(sequences: seq<Sequence>, expectation: ExpectationBase)
      requires expectation in all
      requires forall i :: 0 <= i < |sequences| ==>
                 sequences[i].Valid(all - {expectation})
                 && (sequences[i].lastExpectation != null ==>
                       sequences[i].lastExpectation in expectation.immediatePrerequisites)
      modifies sequences
      ensures forall i :: 0 <= i < |sequences| ==>
                sequences[i].Valid(all) && sequences[i].chain == old(sequences[i].chain) + [expectation]
    {
      for i := 0 to |sequences|
        invariant forall k :: 0 <= k < |sequences| ==> sequences[k].Valid(all)
        invariant forall k :: 0 <= k < |sequences| ==>
                    if sequences[k].lastExpectation == expectation
                    then sequences[k].chain == old(sequences[k].chain) + [expectation]
                    else k >= i && sequences[k].chain == old(sequences[k].chain)
                         && (sequences[k].lastExpectation != null ==>
                               sequences[k].lastExpectation in expectation.immediatePrerequisites)
      {
        sequences[i].AddExpectation(expectation, all);
      }
    }

    /** The last definition that is active, ready and matches the arguments. */
    method FindMatchingExpectation(mocker: FunctionMocker, matches: Matching) returns (handler: Option<nat>)
      requires Valid() && forall i :: 0 <= i < |mocker.untypedExpectations| ==> mocker.untypedExpectations[i] in all
      ensures handler.Some? ==>
                handler.value < |mocker.untypedExpectations|
                && Handles(all, mocker.untypedExpectations, matches, handler.value)
      ensures handler.None? ==>
                forall i :: 0 <= i < |mocker.untypedExpectations| ==>
                  !CanHandle(all, mocker.untypedExpectations[i], matches)
    {
      hide InTurn;
      var expectations := mocker.untypedExpectations;
      var i := |expectations|;
      while i > 0
        invariant 0 <= i <= |expectations|
        invariant forall j :: i <= j < |expectations| ==> !CanHandle(all, expectations[j], matches)
      {
        i := i - 1;
        var handles := ShouldHandleArguments(expectations[i], matches);
        if handles {
          return Some(i);
        }
      }
      return None;
    }

    method ShouldHandleArguments(expectation: ExpectationBase, matches: Matching) returns (handles: bool)
      requires Valid() && expectation in all
      ensures handles <==> CanHandle(all, expectation, matches)
    {
      if expectation.retired {
        return false;
      }
      var ready := expectation.AllPrerequisitesAreSatisfied(all);
      return ready && matches(expectation);
    }

    /** A call of a mock function. The last definition that can handle it does, with everything
        before it satisfied; unless the call is one too many, everything before it then retires. */
    method Invoke(mocker: FunctionMocker, matches: Matching)
      returns (handler: Option<nat>, excessive: bool, action: Action)
      requires Valid() && forall i :: 0 <= i < |mocker.untypedExpectations| ==> mocker.untypedExpectations[i] in all
      modifies this`calls, this`actions, all`retired, all`callCount
      ensures Valid()
      ensures handler.None? ==>
                calls == old(calls) && actions == old(actions) && (forall x :: x in all ==> x.retired == old(x.retired))
                && forall i :: 0 <= i < |mocker.untypedExpectations| ==>
                     old(!CanHandle(all, mocker.untypedExpectations[i], matches))
      ensures handler.Some? ==>
                handler.value < |mocker.untypedExpectations|
                && old(Handles(all, mocker.untypedExpectations, matches, handler.value))
                && calls == old(calls) + [mocker.untypedExpectations[handler.value]]
                && excessive == old(mocker.untypedExpectations[handler.value].IsSaturated())
                && forall x :: x in all ==>
                     (x.retired <==> old(x.retired)
                                     || (!excessive && Retires(mocker.untypedExpectations[handler.value], x)))
      ensures handler.Some? ==>
                var e := mocker.untypedExpectations[handler.value];
                e.callCount == old(e.callCount) + 1 && action == if excessive then Default else e.GetCurrentAction()
      ensures handler.Some? ==>
                var e := mocker.untypedExpectations[handler.value];
                RetiredBelow(all, e) <==> e.maxCount > 0 || old(RetiredBelow(all, e))
      ensures handler.Some? ==>
                var e := mocker.untypedExpectations[handler.value];
                && actions == old(actions) + [action]
                && (excessive <==> old(multiset(calls))[e] >= e.maxCount)
                && MetBefore(all, e, old(multiset(calls)))
    {
      handler := FindMatchingExpectation(mocker, matches);
      excessive, action := false, Default;
      if handler.Some? {
        excessive, action := Handle(mocker.untypedExpectations[handler.value]);
      }
    }

    method Handle(e: ExpectationBase) returns (excessive: bool, action: Action)
      requires Valid() && e in all && !e.retired && SatisfiedBelow(all, e)
      modifies this`calls, this`actions, all`retired, all`callCount
      ensures Valid() && calls == old(calls) + [e] && excessive == old(e.IsSaturated())
      ensures forall x :: x in all ==> (x.retired <==> old(x.retired) || (!excessive && Retires(e, x)))
      ensures e.callCount == old(e.callCount) + 1 && action == if excessive then Default else e.GetCurrentAction()
      ensures RetiredBelow(all, e) <==> e.maxCount > 0 || old(RetiredBelow(all, e))
      ensures actions == old(actions) + [action] && (excessive <==> old(multiset(calls))[e] >= e.maxCount)
      ensures MetBefore(all, e, old(multiset(calls)))
    {
      hide Ranked, Settled, InOrder, SatisfiedBelow, MetBefore, Precedes, InTurn;
      BeforeCall(e);
      ghost var next := NextAction(e, multiset(calls)[e]);
      assert multiset(calls)[e] == e.callCount;
      excessive, action := e.GetActionForArguments(all);
      assert action == next;
      Record(e, action);
    }

    /** What a call of e finds, and what it will keep. */
    lemma BeforeCall(e: ExpectationBase)
      requires Valid() && e in all && !e.retired && SatisfiedBelow(all, e)
      ensures MetBefore(all, e, multiset(calls))
      ensures e.IsSaturated() && e.maxCount > 0 ==> RetiredBelow(all, e)
      ensures InOrder(calls + [e])
      ensures InTurn(calls + [e], actions + [NextAction(e, multiset(calls)[e])])
    {
      hide Ranked, InOrder, SatisfiedBelow, MetBefore, InTurn;
      AllCounted();
      SatisfiedByCalls(e);
      SaturatedIsSettled(all, e);
      TurnGoesOn(calls, actions, e);
      NextInOrder(all, calls, e);
    }

    lemma SatisfiedByCalls(e: ExpectationBase)
      requires CallsCounted()
      ensures SatisfiedBelow(all, e) <==> MetBefore(all, e, multiset(calls))
    {
      hide Precedes;
      if SatisfiedBelow(all, e) {
        forall p | p in all && Precedes(p, e)
          ensures p.minCount <= multiset(calls)[p] <= p.maxCount
        {
          assert p.IsSatisfied();
        }
      }
    }

    lemma SaturatedIsSettled(all: set<ExpectationBase>, e: ExpectationBase)
      requires CalledSettle(all) && e in all
      ensures e.IsSaturated() && e.maxCount > 0 ==> RetiredBelow(all, e)
    {
    }

    ghost method Record(e: ExpectationBase, action: Action)
      requires e in all && forall i :: 0 <= i < |calls| ==> calls[i] in all
      requires forall x :: x in all ==> x.callCount == multiset(calls)[x] + if x == e then 1 else 0
      modifies this`calls, this`actions
      ensures calls == old(calls) + [e] && actions == old(actions) + [action] && CallsCounted()
    {
      calls, actions := calls + [e], actions + [action];
    }

    lemma AllCounted()
      requires CallsCounted()
      ensures forall i :: 0 <= i < |calls| ==> calls[i] in all && calls[i].callCount > 0
    {
      forall i | 0 <= i < |calls|
        ensures calls[i].callCount > 0
      {
        assert calls[i] in multiset(calls);
      }
    }
  }

  /** In any session the expectations of a sequence are called in the order in which they joined it,
      those that must not be called aside. */
  lemma SequenceIsCalledInOrder(session: Session, sequence: Sequence, a: nat, b: nat, i: nat, j: nat)
    requires session.Valid() && sequence.Valid(session.all)
    requires a < |sequence.chain| && b < |sequence.chain| && i < j < |session.calls|
    requires session.calls[i] == sequence.chain[a] && session.calls[j] == sequence.chain[b]
    ensures sequence.chain[a].maxCount > 0 ==> a <= b
  {
    if b < a {
      SequencePrecedes(session.all, sequence.chain, b, a);
    }
  }

  /** In any session each of the actions that an expectation uses once is used by at most one of its calls, by one
      exactly if it has been called often enough, and in their turn. */
  lemma OnceActionsAreUsedOnce(session: Session, e: ExpectationBase, n: nat)
    requires session.Valid()
    ensures forall i, j, m ::
              (i < j && Uses(session.calls, session.actions, i, e, n) && Uses(session.calls, session.actions, j, e, m)
               ==> n < m)
    ensures (exists i :: Uses(session.calls, session.actions, i, e, n)) <==>
            n < e.actionCount && n < e.maxCount && n < multiset(session.calls)[e]
  {
    hide Ranked, Settled, InOrder, InTurn;
    OnceEach(session.calls, session.actions, e, n);
  }

  /** The i-th call is one of e and is answered with its n-th action. */
  predicate Uses(calls: seq<ExpectationBase>, actions: seq<Action>, i: int, e: ExpectationBase, n: nat) {
    0 <= i < |calls| && |actions| == |calls| && calls[i] == e && actions[i] == Once(n)
  }

  lemma OnceEach(calls: seq<ExpectationBase>, actions: seq<Action>, e: ExpectationBase, n: nat)
    requires InTurn(calls, actions)
    ensures forall i, j, m :: Uses(calls, actions, i, e, n) && Uses(calls, actions, j, e, m) && i < j ==> n < m
    ensures (exists i :: Uses(calls, actions, i, e, n)) <==>
            n < e.actionCount && n < e.maxCount && n < multiset(calls)[e]
  {
    hide CallsBefore;
    forall i, j, m | Uses(calls, actions, i, e, n) && Uses(calls, actions, j, e, m) && i < j
      ensures n < m
    {
      EarlierCalls(calls, i, j);
    }
    if n < e.actionCount && n < e.maxCount && n < multiset(calls)[e] {
      var i := NthCall(calls, e, n);
      assert Uses(calls, actions, i, e, n);
    }
    if i :| Uses(calls, actions, i, e, n) {
      FewerBefore(calls, i);
    }
  }

  lemma FewerBefore(calls: seq<ExpectationBase>, i: nat)
    requires i < |calls|
    ensures CallsBefore(calls, i) < multiset(calls)[calls[i]]
  {
    assert calls == calls[..i] + [calls[i]] + calls[i + 1..];
  }

  /** In any session an expectation that is to retire on saturation, and may be called at all, never gets a call
      too many. */
  lemma RetiringIsNeverExcessive(session: Session, e: ExpectationBase)
    requires session.Valid() && e in session.all && e.retiresOnSaturation && e.maxCount > 0
    ensures multiset(session.calls)[e] <= e.maxCount
  {
    hide Ranked, RetiredClosed, CalledSettle, InOrder, InTurn;
  }

  /** Nothing has to come before an expectation without prerequisites. */
  lemma FirstIsReady(all: set<ExpectationBase>, e: ExpectationBase)
    requires Ranked(all) && e in all && e.immediatePrerequisites == []
    ensures forall x :: !Precedes(x, e)
    ensures SatisfiedBelow(all, e)
  {
    PrecedesIffBy(all, e);
  }

  /** What has to come before an expectation whose only prerequisite has none. */
  lemma SecondIsReady(all: set<ExpectationBase>, e: ExpectationBase, first: ExpectationBase)
    requires Ranked(all) && e in all && first in all && e.immediatePrerequisites == [first]
    requires first.immediatePrerequisites == [] && first.IsSatisfied()
    ensures Precedes(first, e) && SatisfiedBelow(all, e)
  {
    FirstIsReady(all, first);
    ImmediatePrecede(all, e);
    PrecedesIffBy(all, e);
    assert e.immediatePrerequisites[0] == first;
  }

  /** Two mock functions with one expectation each, the second one never to be called, and not before
      the first one is satisfied, which it is without a call. */
  method DefineTwo() returns (session: Session, f: FunctionMocker, g: FunctionMocker)
    ensures fresh(session) && fresh(session.all) && fresh(f) && fresh(g) && session.Valid() && session.calls == []
    ensures |f.untypedExpectations| == |g.untypedExpectations| == 1
    ensures var first, never := f.untypedExpectations[0], g.untypedExpectations[0];
            && first in session.all && never in session.all && first != never
            && first.immediatePrerequisites == [] && never.immediatePrerequisites == [first]
            && first.IsSatisfied() && !first.retired && never.maxCount == 0 && !never.retired
  {
    hide Ranked, Precedes, Settled, SatisfiedBelow, InOrder, Retires, InTurn;
    session := new Session();
    f := new FunctionMocker();
    g := new FunctionMocker();
    var first := session.AddNewExpectation(f, 0, 1, [], false, 0);
    var never := session.AddNewExpectation(g, 0, 0, [first], false, 0);
  }

  /** A call of a function whose only expectation is ready. */
  method InvokeReady(session: Session, mocker: FunctionMocker) returns (excessive: bool)
    requires session.Valid() && |mocker.untypedExpectations| == 1
    requires var e := mocker.untypedExpectations[0]; e in session.all && !e.retired && SatisfiedBelow(session.all, e)
    modifies session`calls, session`actions, session.all`retired, session.all`callCount
    ensures var e := mocker.untypedExpectations[0];
            session.Valid() && session.calls == old(session.calls) + [e] && excessive == old(e.IsSaturated())
            && forall x :: x in session.all ==> (x.retired <==> old(x.retired) || (!excessive && Retires(e, x)))
  {
    hide Ranked, Precedes, Settled, SatisfiedBelow, InOrder, Retires, InTurn;
    var handler, excess, action := session.Invoke(mocker, _ => true);
    excessive := excess;
  }

  /** A call of an expectation that must not be called is excessive and retires nothing, so what has
      to come before it can still be called afterwards: such calls can get out of order. */
  method CallsOutOfOrder() returns (session: Session)
    ensures session.Valid() && |session.calls| == 2
    ensures session.calls[0].maxCount == 0 && Precedes(session.calls[1], session.calls[0])
  {
    hide Ranked, Precedes, Settled, SatisfiedBelow, InOrder, Retires, InTurn;
    var f, g;
    session, f, g := DefineTwo();
    var first, never := f.untypedExpectations[0], g.untypedExpectations[0];
    SecondIsReady(session.all, never, first);
    var excessive := InvokeReady(session, g);
    FirstIsReady(session.all, first);
    excessive := InvokeReady(session, f);
  }
}
